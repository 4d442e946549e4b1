/** What holds over every interleaving of a connection's steps. */
module ConnectionRuns {
  import opened Correlation
  import opened Connection
  import opened Teardown

  ghost predicate Inv(s: State) {
    Channels(s) && Answered(s) && Origins(s) && KeepsChannel(s) && Pipe(s) && Supervised(s) && AnswersOnce(s)
  }

  lemma {:induction false} RunInv(s: State, es: seq<Event>)
    requires Inv(s)
    ensures Inv(Run(s, es))
    decreases |es|
  {
    if es != [] {
      ChannelsStep(s, es[0]);
      AnsweredStep(s, es[0]);
      OriginsStep(s, es[0]);
      KeepsChannelStep(s, es[0]);
      PipeStep(s, es[0]);
      SupervisedStep(s, es[0]);
      AnswersOnceStep(s, es[0]);
      RunInv(Step(s, es[0]), es[1..]);
    }
  }

  lemma RunInit(es: seq<Event>)
    ensures Inv(Run(Init, es))
  {
    RunInv(Init, es);
  }

  /**
   * In every interleaving each reply sender is completed at most once, and an outcome it gets is the
   * first the peer gave under the call's id after the call was placed, or shutdown's rejection.
   */
  lemma RepliesSound(es: seq<Event>)
    ensures var s := Run(Init, es);
      && (forall i, j :: 0 <= i < j < |s.deliveries| ==> s.deliveries[i].call != s.deliveries[j].call)
      && (forall i :: 0 <= i < |s.deliveries| && s.deliveries[i].reply.FromPeer? ==>
            Genuine(s, s.deliveries[i].call, s.deliveries[i].reply.outcome))
      && (FreshIds(s.calls) ==> forall i :: 0 <= i < |s.deliveries| ==> s.deliveries[i].reply != ChannelDropped)
  {
    RunInit(es);
    var s := Run(Init, es);
    forall i | 0 <= i < |s.deliveries| && s.deliveries[i].reply.FromPeer?
      ensures Genuine(s, s.deliveries[i].call, s.deliveries[i].reply.outcome)
    {
      assert DeliveryGenuine(s, s.deliveries[i]);
    }
  }

  /** Frames reach the wire in the order they were accepted, none twice, none invented. */
  lemma WireInOrder(es: seq<Event>)
    ensures Run(Init, es).wire <= Run(Init, es).outbox && |Run(Init, es).queue| <= OUTBOUND_CHANNEL_CAP
  {
    RunInit(es);
  }

  /** Once pending calls have been failed the table is empty, and so it stays. */
  lemma TableEmptyAfterShutdown(es: seq<Event>)
    ensures var s := Run(Init, es);
      Failed(s) ==> s.table.inner == map[] && s.reader == Ended && NoneLive(s.handlers)
  {
    RunInit(es);
  }

  // ---------- Progress of a call ----------

  function Rank(c: CallState): nat {
    match c case Registering => 3 case Awaiting => 2 case Expired => 1 case Resolved => 0
  }

  /** No step takes a call back. */
  lemma NeverBack(s: State, e: Event, n: nat)
    requires Channels(s) && n < |s.calls|
    ensures n < |Step(s, e).calls| && Step(s, e).calls[n].id == s.calls[n].id
    ensures Rank(Step(s, e).calls[n].state) <= Rank(s.calls[n].state)
  {
    if Enabled(s, e) && !CallEvent(e) { Elsewhere(s, e); }
  }

  /** `e` is a step of call `n` itself: its send, its waiter, its timeout. */
  ghost predicate OwnStep(s: State, e: Event, n: nat) {
    && Enabled(s, e)
    && (e == Wake(n) || e == Expire(n) || e == CleanUp(n) || ((e == SendOk || e == SendFail) && n == |s.calls| - 1))
  }

  ghost function OwnSteps(s: State, es: seq<Event>, n: nat): nat
    decreases |es|
  {
    if es == [] then 0 else (if OwnStep(s, es[0], n) then 1 else 0) + OwnSteps(Step(s, es[0]), es[1..], n)
  }

  lemma OwnStepLowers(s: State, e: Event, n: nat)
    requires Channels(s) && n < |s.calls| && OwnStep(s, e, n)
    ensures n < |Step(s, e).calls| && Rank(Step(s, e).calls[n].state) < Rank(s.calls[n].state)
  {
  }

  /** A call takes at most three steps of its own, however the rest of the connection interleaves with them. */
  lemma {:induction false} OwnStepsBounded(s: State, es: seq<Event>, n: nat)
    requires Channels(s) && n < |s.calls|
    ensures n < |Run(s, es).calls|
    ensures OwnSteps(s, es, n) + Rank(Run(s, es).calls[n].state) <= Rank(s.calls[n].state) <= 3
    decreases |es|
  {
    if es != [] {
      ChannelsStep(s, es[0]);
      NeverBack(s, es[0], n);
      if OwnStep(s, es[0], n) { OwnStepLowers(s, es[0], n); }
      OwnStepsBounded(Step(s, es[0]), es[1..], n);
    }
  }

  /** The command loop waits for room in the channel of a writer that has not exited. */
  predicate Blocked(s: State) {
    s.loop == Sending && |s.queue| >= OUTBOUND_CHANNEL_CAP && s.writer != Exited
  }

  ghost predicate CanMove(s: State, n: nat) { exists e :: OwnStep(s, e, n) }

  ghost predicate WriterCanMove(s: State) { exists e :: WriterEvent(e) && Enabled(s, e) }

  /** An unresolved call has no step of its own exactly when it is being sent into a full channel. */
  lemma StuckExactly(s: State, n: nat)
    requires Channels(s) && n < |s.calls| && s.calls[n].state != Resolved
    ensures !CanMove(s, n) <==> s.calls[n].state == Registering && Blocked(s)
  {
    match s.calls[n].state
    case Registering =>
      assert n == |s.calls| - 1 && s.loop == Sending;
      if s.writer == Exited { assert OwnStep(s, SendFail, n); }
      else if |s.queue| < OUTBOUND_CHANNEL_CAP { assert OwnStep(s, SendOk, n); }
    case Awaiting => assert OwnStep(s, Expire(n), n) || OwnStep(s, Wake(n), n);
    case Expired => assert OwnStep(s, CleanUp(n), n);
  }

  /** A block is the writer's to end: it always has a step then. */
  lemma BlockedWriterMoves(s: State)
    requires Blocked(s)
    ensures WriterCanMove(s)
  {
    var e := match s.writer case Receiving => Take case Writing(_) => WriteOk case _ => Closed;
    assert WriterEvent(e) && Enabled(s, e);
  }

  lemma BlockedStep(s: State, e: Event)
    requires Channels(s) && Blocked(s) && !WriterEvent(e)
    ensures Blocked(Step(s, e)) && Step(s, e).stage == s.stage && |Step(s, e).calls| == |s.calls|
  {
    if Enabled(s, e) && !CallEvent(e) { Elsewhere(s, e); }
  }

  predicate WithoutWriter(es: seq<Event>) { forall i :: 0 <= i < |es| ==> !WriterEvent(es[i]) }

  /** Only the writer ends a block: until it moves the call has no timeout, and shutdown does not begin. */
  lemma {:induction false} BlockedUntilWriter(s: State, es: seq<Event>)
    requires Channels(s) && Blocked(s) && WithoutWriter(es)
    ensures var t := Run(s, es);
      Blocked(t) && t.stage == s.stage == Up && |t.calls| == |s.calls| > 0 && t.calls[|t.calls|-1].state == Registering
    decreases |es|
  {
    if es != [] {
      BlockedStep(s, es[0]);
      ChannelsStep(s, es[0]);
      assert WithoutWriter(es[1..]);
      BlockedUntilWriter(Step(s, es[0]), es[1..]);
    }
  }

  // ---------- A run into the block ----------

  /** `k` calls placed and sent, one after the other. */
  function Burst(k: nat): seq<Event> {
    if k == 0 then [] else Burst(k - 1) + [Place(k), SendOk]
  }

  lemma {:induction false} RunConcat(s: State, p: seq<Event>, q: seq<Event>)
    ensures Run(s, p + q) == Run(Run(s, p), q)
    decreases |p|
  {
    if p == [] {
      assert p + q == q;
    } else {
      assert (p + q)[1..] == p[1..] + q;
      RunConcat(Step(s, p[0]), p[1..], q);
    }
  }

  lemma PlaceAndSend(s: State, id: Id)
    requires s.loop == Idle && Room(s)
    ensures var t := Run(s, [Place(id), SendOk]);
      t.loop == Idle && |t.queue| == |s.queue| + 1 && t.writer == s.writer
  {
    var p := Step(s, Place(id));
    assert [Place(id), SendOk][1..] == [SendOk];
    RunOne(p, SendOk);
  }

  lemma {:induction false} BurstFills(s: State, k: nat)
    requires s.loop == Idle && s.queue == [] && s.writer != Exited && k <= OUTBOUND_CHANNEL_CAP
    ensures var t := Run(s, Burst(k));
      t.loop == Idle && |t.queue| == k && t.writer == s.writer
    decreases k
  {
    if k > 0 {
      BurstFills(s, k - 1);
      RunConcat(s, Burst(k - 1), [Place(k), SendOk]);
      PlaceAndSend(Run(s, Burst(k - 1)), k);
    }
  }

  /** One call more than a channel of `k` holds, behind a frame the writer is still writing. */
  function BlockingRun(k: nat): seq<Event> {
    ([Place(0), SendOk] + [Take]) + (Burst(k) + [Place(k + 1)])
  }

  lemma FirstTaken()
    ensures var s := Run(Init, [Place(0), SendOk] + [Take]);
      s.loop == Idle && s.queue == [] && s.writer.Writing?
  {
    PlaceAndSend(Init, 0);
    RunConcat(Init, [Place(0), SendOk], [Take]);
    RunOne(Run(Init, [Place(0), SendOk]), Take);
  }

  lemma BurstThenPlace(s: State, k: nat)
    requires s.loop == Idle && s.queue == [] && s.writer.Writing? && k == OUTBOUND_CHANNEL_CAP
    ensures var t := Run(s, Burst(k) + [Place(k + 1)]);
      Blocked(t) && t.writer == s.writer && t.calls != []
  {
    BurstFills(s, k);
    RunConcat(s, Burst(k), [Place(k + 1)]);
    RunOne(Run(s, Burst(k)), Place(k + 1));
  }

  /** The block is reachable: the last call of such a run has no step of its own, and no timeout. */
  lemma BlockedExample(k: nat)
    requires k == OUTBOUND_CHANNEL_CAP
    ensures var s := Run(Init, BlockingRun(k));
      && Blocked(s) && s.writer.Writing? && s.calls != [] && s.calls[|s.calls|-1].state == Registering
      && !CanMove(s, |s.calls| - 1) && |s.queue| == 64
  {
    RunInit(BlockingRun(k));
    BlockedReached(k);
    LastStuck(BlockingRun(k));
  }

  lemma BlockedFrom(s: State, prefix: seq<Event>, k: nat)
    requires k == OUTBOUND_CHANNEL_CAP
    requires Run(s, prefix).loop == Idle && Run(s, prefix).queue == [] && Run(s, prefix).writer.Writing?
    ensures var t := Run(s, prefix + (Burst(k) + [Place(k + 1)])); Blocked(t) && t.writer.Writing? && t.calls != []
  {
    BurstThenPlace(Run(s, prefix), k);
    RunConcat(s, prefix, Burst(k) + [Place(k + 1)]);
  }

  lemma BlockedReached(k: nat)
    requires k == OUTBOUND_CHANNEL_CAP
    ensures var s := Run(Init, BlockingRun(k)); Blocked(s) && s.writer.Writing? && s.calls != []
  {
    FirstTaken();
    BlockedFrom(Init, [Place(0), SendOk] + [Take], k);
  }

  lemma LastStuck(es: seq<Event>)
    requires Blocked(Run(Init, es)) && Run(Init, es).calls != []
    ensures var s := Run(Init, es);
      s.calls[|s.calls|-1].state == Registering && !CanMove(s, |s.calls| - 1)
  {
    RunInit(es);
    StuckExactly(Run(Init, es), |Run(Init, es).calls| - 1);
  }

  // ---------- Quiescence and shutdown ----------

  /** When neither a call nor the writer can move, the call has been answered. */
  lemma QuiescentResolved(es: seq<Event>, n: nat)
    requires n < |Run(Init, es).calls| && !CanMove(Run(Init, es), n) && !WriterCanMove(Run(Init, es))
    ensures exists i :: 0 <= i < |Run(Init, es).deliveries| && Run(Init, es).deliveries[i].call == n
  {
    var s := Run(Init, es);
    RunInit(es);
    if Blocked(s) { BlockedWriterMoves(s); }
    if s.calls[n].state != Resolved { StuckExactly(s, n); }
  }

  /** After shutdown no waiter depends on its timer: its channel is settled or it has already expired. */
  lemma ShutdownReleases(s: State, n: nat)
    requires Channels(s) && Failed(s) && n < |s.calls| && s.calls[n].state != Resolved
    ensures Enabled(s, Wake(n)) || Enabled(s, CleanUp(n))
  {
  }

  /** Nothing but its own steps moves the writer or adds to the wire. */
  lemma {:induction false} WriterWaits(s: State, es: seq<Event>)
    requires WithoutWriter(es)
    ensures Run(s, es).writer == s.writer && Run(s, es).wire == s.wire
    decreases |es|
  {
    if es != [] {
      assert WithoutWriter(es[1..]);
      WriterWaits(Step(s, es[0]), es[1..]);
    }
  }

  /** A write that never returns holds up the end of shutdown: until the writer moves it is still writing. */
  lemma DrainHeldUp(es: seq<Event>, more: seq<Event>)
    requires Run(Init, es).stage == Dropped && Run(Init, es).writer.Writing? && WithoutWriter(more)
    ensures var s, t := Run(Init, es), Run(Run(Init, es), more);
      t.stage == Dropped && t.writer == s.writer && t.writer != Exited && t.wire == s.wire
  {
    RunInit(es);
    DrainBounded(Run(Init, es), more);
    WriterWaits(Run(Init, es), more);
  }

  /**
   * From the drop of the handle on, in every run: the writer and the aborted handlers take at most
   * `Potential` steps more; they stop only with the writer exited and no sender left; and no frame is
   * written beyond those queued, in flight, or owed by a handler caught in its last poll.
   */
  lemma ShutdownCompletes(es: seq<Event>, more: seq<Event>)
    requires Run(Init, es).stage == Dropped
    ensures var s, t := Run(Init, es), Run(Run(Init, es), more);
      && DrainSteps(s, more) <= Potential(s)
      && |t.wire| <= |s.wire| + |InFlight(s.writer)| + |s.queue| + Tally(s.handlers, IsDoomed)
      && (!(exists e :: DrainEvent(e) && Enabled(t, e)) <==> t.writer == Exited && !Senders(t))
  {
    var s := Run(Init, es);
    RunInit(es);
    DrainBounded(s, more);
    DrainProceeds(Run(s, more));
  }
}
