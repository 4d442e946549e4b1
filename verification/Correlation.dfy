/**
 * The outbound-call correlation table: unique ids to the sending halves of one-shot channels. A
 * channel is named by its index; `slots` is what each receiving half would see.
 */
module Correlation {

  type Id = nat

  datatype Outcome = Payload(value: int) | Rejection(error: int)

  datatype Slot = Empty | Filled(outcome: Outcome) | Gone

  datatype Table = Table(inner: map<Id, nat>, slots: seq<Slot>)

  /** Every sender in the table has its own open channel, and every open channel its sender. */
  ghost predicate Consistent(t: Table) {
    && (forall id :: id in t.inner ==> t.inner[id] < |t.slots| && t.slots[t.inner[id]] == Empty)
    && (forall a, b :: a in t.inner && b in t.inner && t.inner[a] == t.inner[b] ==> a == b)
    && (forall k :: 0 <= k < |t.slots| && t.slots[k] == Empty ==> Awaited(t, k))
  }

  /** Some id in the table will settle slot `k`. */
  ghost predicate Awaited(t: Table, k: nat) { exists id :: id in t.inner && t.inner[id] == k }

  /** Dropping the sender of `id`, if there is one, leaves its receiver with `slot`. */
  function Settle(t: Table, id: Id, slot: Slot): Table {
    if id in t.inner && t.inner[id] < |t.slots| then Table(t.inner - {id}, t.slots[t.inner[id] := slot]) else t
  }

  /** A new channel under `id`; a sender already there is dropped. */
  function Registered(t: Table, id: Id): Table {
    var u := Settle(t, id, Gone);
    Table(u.inner[id := |u.slots|], u.slots + [Empty])
  }

  function Completed(t: Table, id: Id, outcome: Outcome): Table { Settle(t, id, Filled(outcome)) }

  function Removed(t: Table, id: Id): Table { Settle(t, id, Gone) }

  function FailedAll(t: Table, outcome: Outcome): Table {
    Table(map[], seq(|t.slots|, k requires 0 <= k < |t.slots| =>
      if t.slots[k] == Empty then Filled(outcome) else t.slots[k]))
  }

  lemma SettleValid(t: Table, id: Id, slot: Slot)
    requires Consistent(t) && slot != Empty
    ensures Consistent(Settle(t, id, slot)) && id !in Settle(t, id, slot).inner
    ensures |Settle(t, id, slot).slots| == |t.slots|
  {
    if id in t.inner {
      var u := Settle(t, id, slot);
      forall k | 0 <= k < |u.slots| && u.slots[k] == Empty ensures Awaited(u, k) {
        assert t.slots[k] == Empty && Awaited(t, k);
        var b :| b in t.inner && t.inner[b] == k;
        assert b in u.inner;
      }
    }
  }

  lemma RegisteredValid(t: Table, id: Id)
    requires Consistent(t)
    ensures Consistent(Registered(t, id))
  {
    SettleValid(t, id, Gone);
    AddedValid(Settle(t, id, Gone), id);
  }

  lemma AddedValid(u: Table, id: Id)
    requires Consistent(u) && id !in u.inner
    ensures Consistent(Table(u.inner[id := |u.slots|], u.slots + [Empty]))
  {
    var v := Table(u.inner[id := |u.slots|], u.slots + [Empty]);
    forall k | 0 <= k < |v.slots| && v.slots[k] == Empty ensures Awaited(v, k) {
      if k < |u.slots| {
        assert u.slots[k] == Empty && Awaited(u, k);
        var b :| b in u.inner && u.inner[b] == k;
        assert b in v.inner;
      } else {
        assert id in v.inner;
      }
    }
  }

  lemma RegisteredParts(t: Table, id: Id)
    requires Consistent(t)
    ensures Registered(t, id).inner == t.inner[id := |t.slots|]
    ensures Registered(t, id).slots == (if id in t.inner then t.slots[t.inner[id] := Gone] else t.slots) + [Empty]
  {
  }

  /** `u` is `t` with some of its waiters handed `outcome`. */
  ghost predicate Draining(t: Table, u: Table, outcome: Outcome) {
    |u.slots| == |t.slots| && forall k :: 0 <= k < |t.slots| ==>
      u.slots[k] == t.slots[k] || (t.slots[k] == Empty && u.slots[k] == Filled(outcome))
  }

  lemma DrainOne(t: Table, u: Table, id: Id, outcome: Outcome)
    requires Consistent(u) && Draining(t, u, outcome) && id in u.inner
    ensures var v := Settle(u, id, Filled(outcome));
      Consistent(v) && Draining(t, v, outcome) && |v.inner| == |u.inner| - 1
  {
    SettleValid(u, id, Filled(outcome));
    var v := Settle(u, id, Filled(outcome));
    assert v.inner.Keys == u.inner.Keys - {id};
  }

  lemma AllSettled(t: Table, u: Table, outcome: Outcome)
    requires Consistent(u) && u.inner == map[] && Draining(t, u, outcome)
    ensures u == FailedAll(t, outcome) && forall k :: 0 <= k < |u.slots| ==> u.slots[k] != Empty
  {
    assert u.slots == FailedAll(t, outcome).slots;
  }

  class PendingCalls {
    var inner: map<Id, nat>
    var slots: seq<Slot>

    ghost predicate Valid()
      reads this
    {
      Consistent(Table(inner, slots))
    }

    function View(): Table
      reads this
    {
      Table(inner, slots)
    }

    constructor ()
      ensures Valid() && View() == Table(map[], [])
    {
      inner, slots := map[], [];
    }

    method Register(id: Id) returns (rx: nat)
      requires Valid()
      modifies this
      ensures Valid() && View() == Registered(old(View()), id)
      ensures rx == |old(slots)| && slots[rx] == Empty && inner[id] == rx
    {
      RegisteredValid(View(), id);
      RegisteredParts(View(), id);
      rx := |slots|;
      if id in inner { slots := slots[inner[id] := Gone]; }
      slots := slots + [Empty];
      inner := inner[id := rx];
    }

    method Complete(id: Id, outcome: Outcome)
      requires Valid()
      modifies this
      ensures Valid() && View() == Completed(old(View()), id, outcome)
    {
      SettleValid(View(), id, Filled(outcome));
      if id in inner {
        slots := slots[inner[id] := Filled(outcome)];
        inner := inner - {id};
      }
    }

    method Remove(id: Id)
      requires Valid()
      modifies this
      ensures Valid() && View() == Removed(old(View()), id)
    {
      SettleValid(View(), id, Gone);
      if id in inner {
        slots := slots[inner[id] := Gone];
        inner := inner - {id};
      }
    }

    /** Drains the table, handing every waiter the same rejection. */
    method FailAll(outcome: Outcome)
      requires Valid()
      modifies this
      ensures Valid() && View() == FailedAll(old(View()), outcome)
      ensures inner == map[] && forall k :: 0 <= k < |slots| ==> slots[k] != Empty
    {
      ghost var start := View();
      while inner != map[]
        invariant Consistent(View()) && Draining(start, View(), outcome)
        decreases |inner|
      {
        var id :| id in inner;
        DrainOne(start, View(), id, outcome);
        Complete(id, outcome);
      }
      AllSettled(start, View(), outcome);
    }
  }
}
