/**
 * What each caller is told, over every run: exactly which of a closed connection, a timeout, the
 * peer's answer or shutdown's rejection, decided by what happened to its call.
 */
module CallOutcomes {
  import opened Basics
  import opened Correlation
  import opened Connection
  import opened Teardown
  import opened ConnectionRuns
  import opened Lifecycle

  /** The reply a caller was handed. */
  function ReplyOf(ds: seq<Delivery>, n: nat): Option<Reply> {
    if ds == [] then None
    else if ds[|ds|-1].call == n then Some(ds[|ds|-1].reply)
    else ReplyOf(ds[..|ds|-1], n)
  }

  lemma ReplySnoc(ds: seq<Delivery>, d: Delivery, n: nat)
    ensures ReplyOf(ds + [d], n) == if d.call == n then Some(d.reply) else ReplyOf(ds, n)
  {
    assert (ds + [d])[..|ds|] == ds;
  }

  /** Whether the call's frame ever entered the writer's channel. */
  ghost predicate WasSent(s: State, n: nat) { Sent(n) in s.outbox }

  /** What a call's state, its channel and its frame say about the reply so far. */
  ghost predicate CallTold(s: State, n: nat)
    requires n < |s.calls| && n < |s.table.slots|
  {
    var r := ReplyOf(s.deliveries, n);
    match s.calls[n].state
    case Registering => r == None && !WasSent(s, n)
    case Awaiting => r == None && WasSent(s, n)
    case Expired => r == None && WasSent(s, n)
    case Resolved =>
      && r.Some? && (r == Some(ConnectionClosed) <==> !WasSent(s, n))
      && (r.value.FromPeer? ==> s.table.slots[n] == Filled(r.value.outcome))
      && (r.value == ChannelDropped ==> s.table.slots[n] == Slot.Gone)
  }

  ghost predicate Told(s: State) {
    && |s.table.slots| == |s.calls|
    && (forall f :: f in s.outbox && f.Sent? ==> f.call < |s.calls|)
    && (forall d :: d in s.deliveries ==> d.call < |s.calls|)
    && (forall n :: 0 <= n < |s.calls| ==> CallTold(s, n))
  }

  lemma {:induction false} NoReplyYet(ds: seq<Delivery>, n: nat)
    requires forall d :: d in ds ==> d.call < n
    ensures ReplyOf(ds, n) == None
  {
    if ds != [] {
      assert ds[|ds|-1] in ds;
      forall d | d in ds[..|ds|-1] ensures d.call < n { assert d in ds; }
      NoReplyYet(ds[..|ds|-1], n);
    }
  }

  /** A settled channel stays as it is. */
  lemma SettledStays(s: State, e: Event, n: nat)
    requires Channels(s) && n < |s.calls| && s.table.slots[n] != Empty
    ensures n < |Step(s, e).table.slots| && (Step(s, e).table.slots[n] == s.table.slots[n])
  {
    if Enabled(s, e) {
      if !CallEvent(e) { Elsewhere(s, e); }
      else if e.Place? { RegisteredParts(s.table, e.id); }
    }
  }

  lemma PlaceTold(s: State, id: Id, n: nat)
    requires Channels(s) && Told(s) && Enabled(s, Place(id)) && n < |Apply(s, Place(id)).calls|
    ensures n < |Apply(s, Place(id)).table.slots| && CallTold(Apply(s, Place(id)), n)
  {
    var t := Apply(s, Place(id));
    RegisteredParts(s.table, id);
    if n == |s.calls| {
      NoReplyYet(s.deliveries, n);
    } else {
      assert CallTold(s, n);
      if s.calls[n].state == Resolved && s.table.slots[n] != Empty { SettledStays(s, Place(id), n); }
    }
  }

  lemma SendOkTold(s: State, n: nat)
    requires Channels(s) && Told(s) && Enabled(s, SendOk) && n < |s.calls|
    ensures CallTold(Apply(s, SendOk), n)
  {
    var t := Apply(s, SendOk);
    assert CallTold(s, n);
    assert t.outbox == s.outbox + [Sent(|s.calls| - 1)];
    assert WasSent(t, n) <==> WasSent(s, n) || n == |s.calls| - 1;
  }

  lemma SendFailTold(s: State, n: nat)
    requires Channels(s) && Told(s) && Enabled(s, SendFail) && n < |s.calls|
    ensures n < |Apply(s, SendFail).table.slots| && CallTold(Apply(s, SendFail), n)
  {
    assert CallTold(s, n);
    ReplySnoc(s.deliveries, Delivery(|s.calls| - 1, ConnectionClosed), n);
    if s.table.slots[n] != Empty { SettledStays(s, SendFail, n); }
  }

  lemma WakeTold(s: State, c: nat, n: nat)
    requires Channels(s) && Told(s) && Enabled(s, Wake(c)) && n < |s.calls|
    ensures CallTold(Apply(s, Wake(c)), n)
  {
    assert CallTold(s, n);
    var reply := if s.table.slots[c].Filled? then FromPeer(s.table.slots[c].outcome) else ChannelDropped;
    ReplySnoc(s.deliveries, Delivery(c, reply), n);
  }

  lemma CleanUpTold(s: State, c: nat, n: nat)
    requires Channels(s) && Told(s) && Enabled(s, CleanUp(c)) && n < |s.calls|
    ensures n < |Apply(s, CleanUp(c)).table.slots| && CallTold(Apply(s, CleanUp(c)), n)
  {
    assert CallTold(s, n);
    ReplySnoc(s.deliveries, Delivery(c, TimedOut), n);
    if s.table.slots[n] != Empty { SettledStays(s, CleanUp(c), n); }
  }

  /** Steps that hand out no reply and send no call. */
  lemma QuietTold(s: State, e: Event, n: nat)
    requires Channels(s) && Told(s) && Enabled(s, e) && n < |s.calls|
    requires !e.Place? && !e.SendOk? && !e.SendFail? && !e.Wake? && !e.CleanUp?
    ensures n < |Apply(s, e).calls| && n < |Apply(s, e).table.slots| && CallTold(Apply(s, e), n)
  {
    var t := Apply(s, e);
    assert CallTold(s, n);
    if !CallEvent(e) { Elsewhere(s, e); }
    assert WasSent(t, n) == WasSent(s, n) by { SameSent(s, e, n); }
    if s.table.slots[n] != Empty { SettledStays(s, e, n); }
  }

  lemma SameSent(s: State, e: Event, n: nat)
    requires Enabled(s, e) && !e.SendOk?
    ensures WasSent(Apply(s, e), n) == WasSent(s, n)
  {
  }

  lemma CallToldStep(s: State, e: Event, n: nat)
    requires Channels(s) && Told(s) && n < |Step(s, e).calls|
    ensures n < |Step(s, e).table.slots| && CallTold(Step(s, e), n)
  {
    if Enabled(s, e) {
      if e.Place? { PlaceTold(s, e.id, n); }
      else {
        SameCalls(s, e);
        if e.SendOk? { SendOkTold(s, n); }
        else if e.SendFail? { SendFailTold(s, n); }
        else if e.Wake? { WakeTold(s, e.call, n); }
        else if e.CleanUp? { CleanUpTold(s, e.call, n); }
        else { QuietTold(s, e, n); }
      }
    } else {
      assert CallTold(s, n);
    }
  }

  lemma SameCalls(s: State, e: Event)
    requires Channels(s) && Enabled(s, e) && !e.Place?
    ensures |Apply(s, e).calls| == |s.calls|
  {
    if !CallEvent(e) { Elsewhere(s, e); }
  }

  lemma ToldStep(s: State, e: Event)
    requires Channels(s) && Told(s)
    ensures Told(Step(s, e))
  {
    var t := Step(s, e);
    ChannelsStep(s, e);
    forall n | 0 <= n < |t.calls| ensures CallTold(t, n) { CallToldStep(s, e, n); }
    FramesNamed(s, e);
    DeliveriesNamed(s, e);
  }

  lemma FramesNamed(s: State, e: Event)
    requires Channels(s) && forall f :: f in s.outbox && f.Sent? ==> f.call < |s.calls|
    ensures forall f :: f in Step(s, e).outbox && f.Sent? ==> f.call < |Step(s, e).calls|
  {
    if Enabled(s, e) && !e.Place? { SameCalls(s, e); }
  }

  lemma DeliveriesNamed(s: State, e: Event)
    requires Channels(s) && forall d :: d in s.deliveries ==> d.call < |s.calls|
    ensures forall d :: d in Step(s, e).deliveries ==> d.call < |Step(s, e).calls|
  {
    if Enabled(s, e) {
      if !e.Place? { SameCalls(s, e); }
      if !CallEvent(e) { Elsewhere(s, e); }
    }
  }

  lemma {:induction false} RunTold(s: State, es: seq<Event>)
    requires Channels(s) && Told(s)
    ensures Told(Run(s, es))
    decreases |es|
  {
    if es != [] {
      ChannelsStep(s, es[0]);
      ToldStep(s, es[0]);
      RunTold(Step(s, es[0]), es[1..]);
    }
  }

  // ---------- Timeouts ----------

  ghost predicate TimeoutTold(s: State, n: nat) {
    (n < |s.calls| && s.calls[n].state == Expired) || ReplyOf(s.deliveries, n) == Some(TimedOut)
  }

  /** Handing out a reply other than a timeout leaves every call's timeout as it was. */
  lemma OtherReply(s: State, e: Event, c: nat, reply: Reply, n: nat)
    requires Channels(s) && Told(s) && Enabled(s, e) && (e == SendFail || e == Wake(c)) && reply != TimedOut
    requires c < |s.calls| && (s.calls[c].state == Registering || s.calls[c].state == Awaiting)
    requires Apply(s, e).deliveries == s.deliveries + [Delivery(c, reply)]
    requires Apply(s, e).calls == s.calls[c := s.calls[c].(state := Resolved)]
    ensures TimeoutTold(Apply(s, e), n) <==> TimeoutTold(s, n)
  {
    assert CallTold(s, c);
    ReplySnoc(s.deliveries, Delivery(c, reply), n);
  }

  lemma CleanUpTimeout(s: State, c: nat, n: nat)
    requires Channels(s) && Told(s) && Enabled(s, CleanUp(c))
    ensures TimeoutTold(Apply(s, CleanUp(c)), n) <==> TimeoutTold(s, n)
  {
    ReplySnoc(s.deliveries, Delivery(c, TimedOut), n);
  }

  lemma ExpireTimeout(s: State, c: nat, n: nat)
    requires Channels(s) && Enabled(s, Expire(c))
    ensures TimeoutTold(Apply(s, Expire(c)), n) <==> TimeoutTold(s, n) || n == c
  {
  }

  /** Placing, sending, hearing and failing calls hand out nothing. */
  lemma QuietTimeout(s: State, e: Event, n: nat)
    requires Channels(s) && Enabled(s, e) && !e.SendFail? && !e.Wake? && !e.CleanUp? && !e.Expire?
    ensures TimeoutTold(Apply(s, e), n) <==> TimeoutTold(s, n)
  {
    if !CallEvent(e) { Elsewhere(s, e); }
  }

  lemma TimeoutStep(s: State, e: Event, n: nat)
    requires Channels(s) && Told(s)
    ensures TimeoutTold(Step(s, e), n) <==> TimeoutTold(s, n) || (Enabled(s, e) && e == Expire(n))
  {
    if Enabled(s, e) {
      if e.SendFail? { OtherReply(s, e, |s.calls| - 1, ConnectionClosed, n); }
      else if e.Wake? {
        OtherReply(s, e, e.call,
                   if s.table.slots[e.call].Filled? then FromPeer(s.table.slots[e.call].outcome) else ChannelDropped, n);
      }
      else if e.CleanUp? { CleanUpTimeout(s, e.call, n); }
      else if e.Expire? { ExpireTimeout(s, e.call, n); }
      else { QuietTimeout(s, e, n); }
    }
  }

  /** A call is expired, or its caller told of a timeout, exactly when its timeout fired in the run. */
  lemma {:induction false} TimeoutExactly(es: seq<Event>, n: nat)
    ensures TimeoutTold(Run(Init, es), n) <==> Happens(es, Expire(n))
    decreases |es|
  {
    if es != [] {
      var front := es[..|es|-1];
      TimeoutExactly(front, n);
      RunInit(front);
      RunTold(Init, front);
      LastStep(es);
      TimeoutStep(Run(Init, front), es[|es|-1], n);
      HappensSnoc(es, Expire(n));
    }
  }

  /** A timeout fires only while nothing has been heard under the call's id. */
  lemma ExpiresUnanswered(es: seq<Event>, n: nat, k: nat)
    requires HappensAt(es, Expire(n), k)
    ensures n < |Run(Init, es[..k]).calls| && Replied(Run(Init, es[..k]), n) == None
  {
    RunInit(es[..k]);
    assert SlotGenuine(Run(Init, es[..k]), n);
  }

  // ---------- What every caller is told ----------

  /** The reply a resolved call's caller is owed. */
  ghost function ReplyOwed(es: seq<Event>, n: nat): Reply
    requires n < |Run(Init, es).calls|
  {
    var s := Run(Init, es);
    if !WasSent(s, n) then ConnectionClosed
    else if Happens(es, Expire(n)) then TimedOut
    else FromPeer(if Replied(s, n).Some? then Replied(s, n).value else TERMINATED)
  }

  /**
   * In every run with fresh ids each resolved caller was told exactly what happened: a closed
   * connection if its frame was never accepted, a timeout if its timeout fired, and otherwise the
   * first answer heard since it was placed, or shutdown's rejection if there was none.
   */
  lemma ReplyExactly(es: seq<Event>, n: nat)
    requires n < |Run(Init, es).calls| && Run(Init, es).calls[n].state == Resolved && FreshIds(Run(Init, es).calls)
    ensures ReplyOf(Run(Init, es).deliveries, n) == Some(ReplyOwed(es, n))
  {
    var s := Run(Init, es);
    RunInit(es);
    RunTold(Init, es);
    TimeoutExactly(es, n);
    assert CallTold(s, n);
    ReplyDelivered(s.deliveries, n);
    var r := ReplyOf(s.deliveries, n).value;
    if r.FromPeer? { assert SlotGenuine(s, n); }
  }

  lemma {:induction false} ReplyDelivered(ds: seq<Delivery>, n: nat)
    requires ReplyOf(ds, n).Some?
    ensures exists i :: 0 <= i < |ds| && ds[i] == Delivery(n, ReplyOf(ds, n).value)
    decreases |ds|
  {
    var m := |ds| - 1;
    if ds[m].call == n {
      assert ds[m] == Delivery(n, ReplyOf(ds, n).value);
    } else {
      ReplyDelivered(ds[..m], n);
      var i :| 0 <= i < m && ds[..m][i] == Delivery(n, ReplyOf(ds[..m], n).value);
      assert ds[i] == Delivery(n, ReplyOf(ds, n).value);
    }
  }

  /** A call that was sent, has heard an answer and never timed out ends with that answer. */
  lemma AnswerReachesCaller(es: seq<Event>, n: nat)
    requires n < |Run(Init, es).calls| && Run(Init, es).calls[n].state == Resolved && FreshIds(Run(Init, es).calls)
    requires WasSent(Run(Init, es), n) && !Happens(es, Expire(n)) && Replied(Run(Init, es), n).Some?
    ensures ReplyOf(Run(Init, es).deliveries, n) == Some(FromPeer(Replied(Run(Init, es), n).value))
  {
    ReplyExactly(es, n);
  }

  lemma HeardFills(s: State, n: nat, o: Outcome)
    requires Channels(s) && s.reader == AtAwait && n < |s.calls| && s.table.slots[n] == Empty
    ensures var t := Step(s, PeerReply(s.calls[n].id, o));
      t.calls == s.calls && t.deliveries == s.deliveries && n < |t.table.slots| && t.table.slots[n] == Filled(o)
  {
    assert Awaited(s.table, n);
  }

  lemma WokenTold(s: State, n: nat, o: Outcome)
    requires n < |s.calls| && s.calls[n].state == Awaiting && n < |s.table.slots| && s.table.slots[n] == Filled(o)
    ensures ReplyOf(Step(s, Wake(n)).deliveries, n) == Some(FromPeer(o))
  {
    ReplySnoc(s.deliveries, Delivery(n, FromPeer(o)), n);
  }

  /** While the reader reads, the answer to any call sent and still waited for gets through to its caller. */
  lemma AnswerGetsThrough(es: seq<Event>, n: nat, o: Outcome)
    requires var s := Run(Init, es);
      s.reader == AtAwait && n < |s.calls| && s.calls[n].state == Awaiting && n < |s.table.slots| && s.table.slots[n] == Empty
    ensures var t := Run(Run(Init, es), [PeerReply(Run(Init, es).calls[n].id, o)] + [Wake(n)]);
      ReplyOf(t.deliveries, n) == Some(FromPeer(o))
  {
    var s := Run(Init, es);
    var heard := PeerReply(s.calls[n].id, o);
    RunInit(es);
    RunCons(s, heard, [Wake(n)]);
    RunOne(Step(s, heard), Wake(n));
    HeardFills(s, n, o);
    WokenTold(Step(s, heard), n, o);
  }

  // ---------- No entry outlives its call ----------

  /** Call `n` still has its channel open only if it is still to be resolved. */
  ghost predicate Released(s: State, n: nat) {
    n < |s.calls| && n < |s.table.slots| && s.calls[n].state == Resolved ==> s.table.slots[n] != Empty
  }

  /** Dropping the sender under a call's id closes that call's channel, if it was still open. */
  lemma RemovedCloses(s: State, n: nat)
    requires Channels(s) && n < |s.calls|
    ensures n < |Removed(s.table, s.calls[n].id).slots| && Removed(s.table, s.calls[n].id).slots[n] != Empty
  {
    if s.table.slots[n] == Empty { assert Awaited(s.table, n); }
  }

  lemma ReleasedStep(s: State, e: Event, n: nat)
    requires Channels(s) && Released(s, n)
    ensures Released(Step(s, e), n)
  {
    if n < |s.calls| {
      if s.table.slots[n] != Empty { SettledStays(s, e, n); }
      else if Enabled(s, e) {
        if !CallEvent(e) { Elsewhere(s, e); }
        else if e.SendFail? || e.CleanUp? { RemovedCloses(s, if e.SendFail? then |s.calls| - 1 else e.call); }
      }
    } else if Enabled(s, e) && !CallEvent(e) { Elsewhere(s, e); }
  }

  lemma {:induction false} RunReleased(s: State, es: seq<Event>, n: nat)
    requires Channels(s) && Released(s, n)
    ensures Channels(Run(s, es)) && Released(Run(s, es), n)
    decreases |es|
  {
    if es != [] {
      ChannelsStep(s, es[0]);
      ReleasedStep(s, es[0], n);
      RunReleased(Step(s, es[0]), es[1..], n);
    }
  }

  /** Over every run, a table entry belongs to a call that is not yet resolved, and carries that call's id. */
  lemma EntriesLive(es: seq<Event>, id: Id)
    requires id in Run(Init, es).table.inner
    ensures var s := Run(Init, es);
      var n := s.table.inner[id];
      n < |s.calls| && s.calls[n].id == id && s.calls[n].state != Resolved
  {
    var n := Run(Init, es).table.inner[id];
    RunReleased(Init, es, n);
  }
}
