/**
 * The writer behind its bounded channel, the inbound handlers, and what shutdown's abort, drop and
 * drain leave of them.
 */
module Teardown {
  import opened Correlation
  import opened Connection

  // ---------- Frames keep their order ----------

  function InFlight(w: Writer): seq<Frame> {
    if w.Writing? then [w.frame] else []
  }

  /** The channel never overfills; what is written is a prefix of what was accepted, nothing lost before a failure. */
  ghost predicate Pipe(s: State) {
    && |s.queue| <= OUTBOUND_CHANNEL_CAP
    && s.wire <= s.outbox
    && (s.writer == Receiving || s.writer.Writing? ==> s.wire + InFlight(s.writer) + s.queue == s.outbox)
  }

  lemma EnqueuePipe(s: State, t: State, frame: Frame)
    requires Pipe(s) && Room(s) && t.queue == s.queue + [frame] && t.outbox == s.outbox + [frame]
    requires t.wire == s.wire && t.writer == s.writer
    ensures Pipe(t)
  {
    assert s.wire + InFlight(s.writer) + (s.queue + [frame]) == (s.wire + InFlight(s.writer) + s.queue) + [frame];
  }

  lemma WriterPipe(s: State, e: Event)
    requires Pipe(s) && Enabled(s, e) && WriterEvent(e)
    ensures Pipe(Apply(s, e))
  {
    match e
    case Take => assert [s.queue[0]] + s.queue[1..] == s.queue;
    case _ =>
  }

  lemma PipeStep(s: State, e: Event)
    requires Pipe(s)
    ensures Pipe(Step(s, e))
  {
    if Enabled(s, e) {
      if WriterEvent(e) { WriterPipe(s, e); }
      else if e.SendOk? { EnqueuePipe(s, Apply(s, e), Sent(|s.calls| - 1)); }
      else if e.Answers? { EnqueuePipe(s, Apply(s, e), Answer(e.handler, s.handlers[e.handler].id)); }
    }
  }

  // ---------- Inbound handlers ----------

  ghost predicate NoneLive(hs: seq<Handler>) {
    forall h :: 0 <= h < |hs| ==> !Live(hs[h])
  }

  predicate AfterAbort(s: State) {
    s.stage == HandlersAborted || s.stage == PendingFailed || s.stage == Dropped
  }

  /** Every running handler can be found by whoever has to abort it. */
  ghost predicate Supervised(s: State) {
    && (forall h :: 0 <= h < |s.handlers| && Live(s.handlers[h]) ==> h in s.tracked || s.reader == MidSpawn(h))
    && (s.reader.MidSpawn? ==> s.reader.handler < |s.handlers|)
    && (s.stage != Up ==> s.reader == Ended)
    && (AfterAbort(s) ==> NoneLive(s.handlers))
  }

  lemma {:induction false} UnfinishedKeepsLive(hs: seq<Handler>, tracked: seq<nat>, h: nat)
    requires h in tracked && h < |hs| && Live(hs[h])
    ensures h in Unfinished(hs, tracked)
    decreases |tracked|
  {
    var front, last := tracked[..|tracked|-1], tracked[|tracked|-1];
    assert tracked == front + [last];
    if h != last { UnfinishedKeepsLive(hs, front, h); }
  }

  lemma SupervisedStep(s: State, e: Event)
    requires Supervised(s)
    ensures Supervised(Step(s, e))
  {
    if Enabled(s, e) {
      if e.Track? { TrackSupervised(s); }
      else if HandlerEvent(e) { HandlerSupervised(s, e); }
    }
  }

  lemma TrackSupervised(s: State)
    requires Supervised(s) && Enabled(s, Track)
    ensures Supervised(Apply(s, Track))
  {
    var t := Apply(s, Track);
    forall h | 0 <= h < |t.handlers| && Live(t.handlers[h]) ensures h in t.tracked {
      if h in s.tracked { UnfinishedKeepsLive(s.handlers, s.tracked, h); }
    }
  }

  lemma HandlerSupervised(s: State, e: Event)
    requires Supervised(s) && Enabled(s, e) && HandlerEvent(e)
    ensures Supervised(Apply(s, e))
  {
  }

  ghost predicate HasAnswer(s: State, h: nat) {
    exists i :: 0 <= i < |s.outbox| && s.outbox[i].Answer? && s.outbox[i].handler == h
  }

  /** A handler sends at most one answer, under the id it was called with, and then only by finishing. */
  ghost predicate AnswersOnce(s: State) {
    && (forall i :: 0 <= i < |s.outbox| && s.outbox[i].Answer? ==>
          var h := s.outbox[i].handler;
          h < |s.handlers| && s.handlers[h].status == Finished && s.outbox[i].id == s.handlers[h].id)
    && (forall i, j :: 0 <= i < j < |s.outbox| && s.outbox[i].Answer? && s.outbox[j].Answer? ==>
          s.outbox[i].handler != s.outbox[j].handler)
  }

  lemma FinishedStays(s: State, e: Event, h: nat)
    requires h < |s.handlers| && s.handlers[h].status == Finished
    ensures h < |Step(s, e).handlers| && Step(s, e).handlers[h] == s.handlers[h]
  {
  }

  lemma OutboxGrows(s: State, e: Event)
    ensures s.outbox <= Step(s, e).outbox && |Step(s, e).outbox| <= |s.outbox| + 1
    ensures var t := Step(s, e);
      |t.outbox| > |s.outbox| && t.outbox[|s.outbox|].Answer? ==>
      && Enabled(s, e) && e.Answers? && t.outbox[|s.outbox|] == Answer(e.handler, s.handlers[e.handler].id)
      && t.handlers[e.handler] == Handler(s.handlers[e.handler].id, Finished)
  {
  }

  lemma AnswersOnceStep(s: State, e: Event)
    requires AnswersOnce(s)
    ensures AnswersOnce(Step(s, e))
  {
    var t := Step(s, e);
    OutboxGrows(s, e);
    forall i | 0 <= i < |t.outbox| && t.outbox[i].Answer?
      ensures var h := t.outbox[i].handler;
        h < |t.handlers| && t.handlers[h].status == Finished && t.outbox[i].id == t.handlers[h].id
    {
      if i < |s.outbox| {
        assert t.outbox[i] == s.outbox[i];
        FinishedStays(s, e, s.outbox[i].handler);
      }
    }
  }

  /** The tracked handler list itself, pruned as it grows and drained at shutdown. */
  class HandlerTasks {
    var inner: seq<nat>
    var handlers: seq<Handler>

    method Track(h: nat)
      modifies this`inner
      ensures inner == Unfinished(handlers, old(inner)) + [h]
    {
      var kept := [];
      for i := 0 to |inner|
        invariant inner == old(inner) && kept == Unfinished(handlers, inner[..i])
      {
        assert inner[..i+1][..i] == inner[..i];
        if !(inner[i] < |handlers| && !Holding(handlers[inner[i]])) { kept := kept + [inner[i]]; }
      }
      assert inner[..|inner|] == inner;
      inner := kept + [h];
    }

    method AbortAll()
      modifies this
      ensures inner == [] && handlers == AbortTracked(old(handlers), old(inner))
    {
      while inner != []
        invariant |inner| <= |old(inner)| && inner == old(inner)[|old(inner)| - |inner|..]
        invariant handlers == AbortTracked(old(handlers), old(inner)[..|old(inner)| - |inner|])
      {
        var h := inner[0];
        ghost var n := |old(inner)| - |inner|;
        assert old(inner)[..n+1] == old(inner)[..n] + [h];
        if h < |handlers| { handlers := handlers[h := Abort(handlers[h])]; }
        inner := inner[1..];
      }
      assert old(inner)[..|old(inner)|] == old(inner);
    }
  }

  /** Why shutdown joins the reader first: a handler caught between spawn and tracking would outlive the abort. */
  lemma AbortBeforeJoinLeaks(id: Id)
    ensures var s := Run(Init, [PeerCall(id)]);
      !NoneLive(AbortTracked(s.handlers, s.tracked))
  {
    var s := Step(Init, PeerCall(id));
    assert [PeerCall(id)][1..] == [];
    assert Run(s, []) == s;
    assert Live(AbortTracked(s.handlers, s.tracked)[0]);
  }

  // ---------- Answers after the abort ----------

  /** The channel will never accept another frame. */
  predicate Shut(s: State) {
    s.writer == Exited || (s.writer == Closing && |s.queue| >= OUTBOUND_CHANNEL_CAP)
  }

  lemma {:induction false} ShutForGood(s: State, es: seq<Event>)
    requires Shut(s)
    ensures Shut(Run(s, es)) && Run(s, es).outbox == s.outbox
    decreases |es|
  {
    if es != [] { ShutForGood(Step(s, es[0]), es[1..]); }
  }

  lemma {:induction false} NeverPolledAgain(s: State, es: seq<Event>, h: nat)
    requires AnswersOnce(s) && h < |s.handlers| && (s.handlers[h].status == Cancelled || s.handlers[h].status == Aborted)
    ensures !HasAnswer(Run(s, es), h)
    decreases |es|
  {
    if es != [] {
      AnswersOnceStep(s, es[0]);
      NeverPolledAgain(Step(s, es[0]), es[1..], h);
    }
  }

  lemma RunOne(s: State, e: Event)
    ensures Run(s, [e]) == Step(s, e)
  {
    assert [e][1..] == [];
  }

  lemma RunCons(s: State, e: Event, es: seq<Event>)
    ensures Run(s, [e] + es) == Run(Step(s, e), es)
  {
    assert ([e] + es)[1..] == es;
  }

  lemma AnswerNow(s: State, h: nat)
    requires h < |s.handlers| && Running(s.handlers[h]) && Room(s)
    ensures HasAnswer(Run(s, [Answers(h)]), h)
  {
    RunOne(s, Answers(h));
    var t := Step(s, Answers(h));
    assert t.outbox[|s.outbox|] == Answer(h, s.handlers[h].id);
  }

  /** A handler caught in a poll can answer unless the channel is shut for good. */
  lemma DoomedAnswers(s: State, h: nat) returns (es: seq<Event>)
    requires Pipe(s) && h < |s.handlers| && s.handlers[h].status == Doomed && !Shut(s)
    ensures HasAnswer(Run(s, es), h)
  {
    if Room(s) {
      es := [Answers(h)];
      AnswerNow(s, h);
    } else if s.writer == Receiving {
      es := [Take] + [Answers(h)];
      RunCons(s, Take, [Answers(h)]);
      AnswerNow(Step(s, Take), h);
    } else {
      es := [WriteOk] + ([Take] + [Answers(h)]);
      RunCons(s, WriteOk, [Take] + [Answers(h)]);
      RunCons(Step(s, WriteOk), Take, [Answers(h)]);
      AnswerNow(Step(Step(s, WriteOk), Take), h);
    }
  }

  ghost predicate AnswersIn(s: State, es: seq<Event>, h: nat) { HasAnswer(Run(s, es), h) }

  /**
   * Whether a handler that shutdown aborts can still answer afterwards: exactly when the abort caught
   * it being polled and the channel is not shut.
   */
  lemma AbortedAnswersExactly(s: State, h: nat)
    requires Pipe(s) && AnswersOnce(s) && Enabled(s, AbortHandlers)
    requires h < |s.handlers| && h in s.tracked && Live(s.handlers[h])
    ensures (exists es :: AnswersIn(Apply(s, AbortHandlers), es, h)) <==>
              s.handlers[h].status == Polling && !Shut(s)
  {
    var t := Apply(s, AbortHandlers);
    AnswersOnceStep(s, AbortHandlers);
    if s.handlers[h].status == Parked {
      forall es ensures !AnswersIn(t, es, h) { NeverPolledAgain(t, es, h); }
    } else if Shut(s) {
      assert !HasAnswer(t, h);
      forall es ensures !AnswersIn(t, es, h) { ShutForGood(t, es); }
    } else {
      PipeStep(s, AbortHandlers);
      var es := DoomedAnswers(t, h);
      assert AnswersIn(t, es, h);
    }
  }

  lemma SpawnedState(id: Id)
    ensures var s := Step(Step(Init, PeerCall(id)), Track);
      s.handlers == [Handler(id, Parked)] && s.tracked == [0] && s == Init.(handlers := s.handlers, tracked := s.tracked)
  {
    assert Unfinished([Handler(id, Parked)], []) == [];
  }

  lemma AbortedState(s: State, id: Id)
    requires s == Init.(handlers := [Handler(id, Parked)], tracked := [0])
    ensures var t := Step(Step(Step(s, Poll(0)), JoinReader), AbortHandlers);
      t.handlers == [Handler(id, Doomed)] && t.outbox == [] && t.queue == [] && t.writer == Receiving && t.stage == HandlersAborted
  {
    JoinedState(s, id);
    assert AbortTracked([Handler(id, Polling)], [0]) == [Handler(id, Doomed)];
  }

  lemma JoinedState(s: State, id: Id)
    requires s == Init.(handlers := [Handler(id, Parked)], tracked := [0])
    ensures Step(Step(s, Poll(0)), JoinReader) ==
            s.(handlers := [Handler(id, Polling)], loop := Down, reader := Ended, stage := ReaderJoined)
  {
    assert Step(s, Poll(0)) == s.(handlers := [Handler(id, Polling)]);
  }

  /** The least case: a handler aborted in the middle of its poll puts its answer on the channel. */
  lemma LateAnswerExample(id: Id)
    ensures var s := Step(Step(Step(Step(Step(Init, PeerCall(id)), Track), Poll(0)), JoinReader), AbortHandlers);
      AfterAbort(s) && !HasAnswer(s, 0) && HasAnswer(Step(s, Answers(0)), 0)
  {
    SpawnedState(id);
    var a := Step(Step(Init, PeerCall(id)), Track);
    AbortedState(a, id);
    var s := Step(Step(Step(a, Poll(0)), JoinReader), AbortHandlers);
    AnswerNow(s, 0);
    RunOne(s, Answers(0));
  }

  // ---------- Draining after the handle is dropped ----------

  predicate DrainEvent(e: Event) { WriterEvent(e) || HandlerEvent(e) }

  function Tally(hs: seq<Handler>, p: Handler -> bool): nat {
    if hs == [] then 0 else Tally(hs[..|hs|-1], p) + (if p(hs[|hs|-1]) then 1 else 0)
  }

  predicate IsDoomed(h: Handler) { h.status == Doomed }

  function Holders(hs: seq<Handler>): nat { Tally(hs, Holding) }

  lemma {:induction false} TallyUpdate(hs: seq<Handler>, p: Handler -> bool, h: nat, x: Handler)
    requires h < |hs|
    ensures Tally(hs[h := x], p) + (if p(hs[h]) then 1 else 0) == Tally(hs, p) + (if p(x) then 1 else 0)
    decreases |hs|
  {
    var front, last := hs[..|hs|-1], hs[|hs|-1];
    if h == |hs| - 1 {
      assert hs[h := x][..|hs|-1] == front;
    } else {
      assert hs[h := x][..|hs|-1] == front[h := x];
      TallyUpdate(front, p, h, x);
    }
  }

  /** The writer's own steps left to it if no further frame comes. */
  function WriterRank(s: State): nat {
    match s.writer
    case Receiving => 2 * |s.queue| + 2
    case Writing(_) => 2 * |s.queue| + 3
    case Closing => 1
    case Exited => 0
  }

  /** Bounds the steps of the writer and of aborted handlers once the handle is gone. */
  function Potential(s: State): nat { WriterRank(s) + 3 * Holders(s.handlers) }

  /** Frames written, and those that can still be. */
  function Frames(s: State): nat {
    |s.wire| + |InFlight(s.writer)| + |s.queue| + Tally(s.handlers, IsDoomed)
  }

  ghost predicate HandleDropped(s: State) { s.stage == Dropped && s.reader == Ended && s.loop == Down && NoneLive(s.handlers) }

  lemma WriterDrains(s: State, e: Event)
    requires HandleDropped(s) && Enabled(s, e) && WriterEvent(e)
    ensures HandleDropped(Apply(s, e))
    ensures Potential(Apply(s, e)) < Potential(s) && Frames(Apply(s, e)) <= Frames(s)
  {
  }

  lemma HandlerDrains(s: State, e: Event)
    requires HandleDropped(s) && Enabled(s, e) && HandlerEvent(e)
    ensures HandleDropped(Apply(s, e))
    ensures Potential(Apply(s, e)) < Potential(s) && Frames(Apply(s, e)) <= Frames(s)
  {
    var t := Apply(s, e);
    var x := t.handlers[e.handler];
    assert t.handlers == s.handlers[e.handler := x] && Holding(s.handlers[e.handler]) && !Holding(x);
    TallyUpdate(s.handlers, Holding, e.handler, x);
    TallyUpdate(s.handlers, IsDoomed, e.handler, x);
  }

  lemma DrainStep(s: State, e: Event)
    requires HandleDropped(s) && Enabled(s, e) && DrainEvent(e)
    ensures HandleDropped(Apply(s, e))
    ensures Potential(Apply(s, e)) < Potential(s) && Frames(Apply(s, e)) <= Frames(s)
  {
    if WriterEvent(e) { WriterDrains(s, e); } else { HandlerDrains(s, e); }
  }

  lemma OtherStep(s: State, e: Event)
    requires HandleDropped(s) && Enabled(s, e) && !DrainEvent(e)
    ensures var t := Apply(s, e);
      HandleDropped(t) && t.handlers == s.handlers && t.writer == s.writer && t.queue == s.queue && t.wire == s.wire
  {
  }

  ghost function DrainSteps(s: State, es: seq<Event>): nat
    decreases |es|
  {
    if es == [] then 0
    else (if Enabled(s, es[0]) && DrainEvent(es[0]) then 1 else 0) + DrainSteps(Step(s, es[0]), es[1..])
  }

  /** However the rest interleaves, the drain takes a bounded number of steps and writes no more than was owed. */
  lemma {:induction false} DrainBounded(s: State, es: seq<Event>)
    requires HandleDropped(s)
    ensures HandleDropped(Run(s, es))
    ensures DrainSteps(s, es) + Potential(Run(s, es)) <= Potential(s)
    ensures |Run(s, es).wire| <= Frames(Run(s, es)) <= Frames(s)
    decreases |es|
  {
    if es != [] {
      if Enabled(s, es[0]) {
        if DrainEvent(es[0]) { DrainStep(s, es[0]); } else { OtherStep(s, es[0]); }
      }
      DrainBounded(Step(s, es[0]), es[1..]);
    }
  }

  /** After the handle is dropped, the only senders left are handlers an abort has yet to reach. */
  lemma SendersAfterDrop(s: State)
    requires HandleDropped(s)
    ensures Senders(s) <==>
              exists h :: 0 <= h < |s.handlers| && (s.handlers[h].status == Cancelled || s.handlers[h].status == Doomed)
  {
  }

  /** The drain never stalls: while the writer has not exited or a handler lingers, one of them has a step. */
  lemma DrainProceeds(s: State)
    requires HandleDropped(s)
    ensures (exists e :: DrainEvent(e) && Enabled(s, e)) <==> s.writer != Exited || Senders(s)
  {
    if Senders(s) {
      SendersAfterDrop(s);
      var h :| 0 <= h < |s.handlers| && (s.handlers[h].status == Cancelled || s.handlers[h].status == Doomed);
      var e := if s.handlers[h].status == Cancelled then Reaped(h) else Yields(h);
      assert DrainEvent(e) && Enabled(s, e);
    } else if s.writer != Exited {
      var e := match s.writer
        case Receiving => if s.queue == [] then Drained else Take
        case Writing(_) => WriteOk
        case _ => Closed;
      assert DrainEvent(e) && Enabled(s, e);
    }
  }
}
