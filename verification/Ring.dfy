/** A fixed-capacity ring that behaves as a bounded queue dropping its oldest item. */
module Ring {
  import opened Basics

  // ---------- The bounded queue ----------

  /** The newest `cap` items. */
  function Last<T>(s: seq<T>, cap: nat): seq<T> {
    if |s| <= cap then s else s[|s| - cap..]
  }

  function Pushed<T>(s: seq<T>, item: T, cap: nat): seq<T> { Last(s + [item], cap) }

  /** Pushing through a bounded queue keeps exactly the newest items of everything pushed. */
  lemma LastPushed<T>(s: seq<T>, item: T, cap: nat)
    ensures Pushed(Last(s, cap), item, cap) == Last(s + [item], cap)
  {
  }

  lemma LastSnoc<T>(all: seq<T>, i: nat, cap: nat)
    requires i < |all|
    ensures Last(all[..i+1], cap) == Pushed(Last(all[..i], cap), all[i], cap)
  {
    assert all[..i+1] == all[..i] + [all[i]];
    LastPushed(all[..i], all[i], cap);
  }

  datatype Action<T> = Push(item: T) | Pop | PopN(n: nat) | Clear

  function Act<T>(s: seq<T>, a: Action<T>, cap: nat): seq<T> {
    match a
    case Push(item) => Pushed(s, item, cap)
    case Pop => if s == [] then s else s[1..]
    case PopN(n) => s[Min(n, |s|)..]
    case Clear => []
  }

  function ActAll<T>(s: seq<T>, acts: seq<Action<T>>, cap: nat): seq<T>
    decreases |acts|
  {
    if acts == [] then s else Act(ActAll(s, acts[..|acts|-1], cap), acts[|acts|-1], cap)
  }

  // ---------- Rotation ----------

  /** The slots as read from `head` round to `head`. */
  function Rotated<T>(b: seq<T>, head: nat): seq<T>
    requires head <= |b|
  {
    b[head..] + b[..head]
  }

  lemma RotatedSet<T>(b: seq<T>, head: nat, i: nat, v: T)
    requires head < |b| && i < |b|
    ensures (head + i) % |b| < |b|
    ensures Rotated(b[(head + i) % |b| := v], head) == Rotated(b, head)[i := v]
  {
    Wraps(head + i, |b|);
  }

  lemma RotatedNext<T>(b: seq<T>, head: nat, v: T)
    requires head < |b|
    ensures (head + 1) % |b| < |b|
    ensures Rotated(b[head := v], (head + 1) % |b|) == Rotated(b, head)[1..] + [v]
  {
    Wraps(head + 1, |b|);
  }

  /** The slots, read from the head, hold `items` and then nothing. */
  ghost predicate Shows<T>(slots: seq<Option<T>>, items: seq<T>) {
    |items| <= |slots| &&
    forall i :: 0 <= i < |slots| ==> slots[i] == if i < |items| then Some(items[i]) else None
  }

  /** How a push moves the slots: into the next free one, or over the oldest. */
  lemma ShowsPushed<T>(slots: seq<Option<T>>, items: seq<T>, item: T)
    requires Shows(slots, items) && slots != []
    ensures |items| < |slots| ==> Shows(slots[|items| := Some(item)], Pushed(items, item, |slots|))
    ensures |items| == |slots| ==> Shows(slots[1..] + [Some(item)], Pushed(items, item, |slots|))
  {
  }

  lemma PushMoves<T>(b: seq<Option<T>>, head: nat, items: seq<T>, item: T)
    requires head < |b| && Shows(Rotated(b, head), items)
    ensures (head + 1) % |b| < |b| && (head + |items|) % |b| < |b|
    ensures |items| < |b| ==> Shows(Rotated(b[(head + |items|) % |b| := Some(item)], head), Pushed(items, item, |b|))
    ensures |items| == |b| ==> Shows(Rotated(b[head := Some(item)], (head + 1) % |b|), Pushed(items, item, |b|))
  {
    ShowsPushed(Rotated(b, head), items, item);
    RotatedNext(b, head, Some(item));
    if |items| < |b| { RotatedSet(b, head, |items|, Some(item)); } else { Wraps(head + |items|, |b|); }
  }

  // ---------- The ring ----------

  class Ring<T(0)> {
    const buf: array<Option<T>>
    var head: nat
    var len: nat
    /** The stored items, oldest first. */
    ghost var items: seq<T>

    ghost predicate Valid()
      reads this, buf
    {
      && len == |items|
      && (if buf.Length == 0 then head == 0 else head < buf.Length)
      && Shows(Rotated(buf[..], head), items)
    }

    constructor (cap: nat)
      ensures Valid() && fresh(buf) && buf.Length == cap && items == []
    {
      buf := new Option<T>[cap](_ => None);
      head, len, items := 0, 0, [];
    }

    method Push(item: T)
      requires Valid()
      modifies this, buf
      ensures Valid() && items == Pushed(old(items), item, buf.Length)
    {
      if buf.Length == 0 {
        items := Pushed(items, item, 0);
        return;
      }
      ghost var b, next := buf[..], Pushed(items, item, buf.Length);
      PushMoves(b, head, items, item);
      if len == buf.Length {
        buf[head] := Some(item);
        assert buf[..] == b[head := Some(item)];
        head := (head + 1) % buf.Length;
      } else {
        var idx := (head + len) % buf.Length;
        buf[idx] := Some(item);
        assert buf[..] == b[idx := Some(item)];
        len := len + 1;
      }
      items := next;
    }

    method Pop() returns (item: Option<T>)
      requires Valid()
      modifies this, buf
      ensures Valid() && items == Act(old(items), Action.Pop, buf.Length)
      ensures item == if old(items) == [] then None else Some(old(items)[0])
    {
      if len == 0 { return None; }
      ghost var b := buf[..];
      RotatedNext(b, head, None);
      item := buf[head];
      assert Rotated(b, head)[0] == b[head];
      buf[head] := None;
      assert buf[..] == b[head := None];
      head := (head + 1) % buf.Length;
      len := len - 1;
      items := items[1..];
    }

    method PopN(n: nat) returns (out: seq<T>)
      requires Valid()
      modifies this, buf
      ensures Valid() && items == Act(old(items), Action.PopN(n), buf.Length)
      ensures out == old(items)[..Min(n, |old(items)|)]
    {
      var count := Min(n, len);
      out := [];
      for i := 0 to count
        invariant Valid() && count <= |old(items)| && items == old(items)[i..] && out == old(items)[..i]
      {
        var item := Pop();
        out := out + [item.value];
      }
    }

    method Clear()
      requires Valid()
      modifies this, buf
      ensures Valid() && items == []
    {
      for i := 0 to buf.Length
        invariant forall j :: 0 <= j < i ==> buf[j] == None
        modifies buf
      {
        buf[i] := None;
      }
      head, len, items := 0, 0, [];
    }

    /** Oldest first: the slots from the head on, then those before it, skipping empty ones. */
    method Iter() returns (out: seq<T>)
      requires Valid()
      ensures out == items
    {
      var slots := buf[head..] + buf[..head];
      assert slots == Rotated(buf[..], head);
      out := [];
      for i := 0 to |slots|
        invariant out == items[..Min(i, |items|)]
      {
        if slots[i].Some? { out := out + [slots[i].value]; }
      }
    }

    method PeekN(n: nat) returns (out: seq<T>)
      requires Valid()
      ensures out == items[..Min(n, |items|)]
    {
      var all := Iter();
      out := all[..Min(n, |all|)];
    }
  }

  /** Collecting any number of items keeps exactly the last `cap`. */
  method FromIter<T(0)>(all: seq<T>, cap: nat) returns (ring: Ring<T>)
    ensures fresh(ring) && ring.Valid() && ring.buf.Length == cap && ring.items == Last(all, cap)
  {
    ring := new Ring<T>(cap);
    for i := 0 to |all|
      invariant fresh(ring) && fresh(ring.buf) && ring.Valid() && ring.buf.Length == cap
      invariant ring.items == Last(all[..i], cap)
    {
      LastSnoc(all, i, cap);
      ring.Push(all[i]);
    }
    assert all[..|all|] == all;
  }

  /** Any sequence of operations on a ring leaves what the bounded queue would hold. */
  method Perform<T(0)>(ring: Ring<T>, acts: seq<Action<T>>)
    requires ring.Valid()
    modifies ring, ring.buf
    ensures ring.Valid() && ring.items == ActAll(old(ring.items), acts, ring.buf.Length)
  {
    for i := 0 to |acts|
      invariant ring.Valid() && ring.items == ActAll(old(ring.items), acts[..i], ring.buf.Length)
    {
      assert acts[..i+1][..i] == acts[..i];
      match acts[i]
      case Push(item) => ring.Push(item);
      case Pop => var _ := ring.Pop();
      case PopN(n) => var _ := ring.PopN(n);
      case Clear => ring.Clear();
    }
    assert acts[..|acts|] == acts;
  }
}
