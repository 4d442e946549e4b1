/**
 * What brings each part of a connection to where it is, over every run: which event ended the
 * writer, the reader and each handler, what a writer that has left its loop has lost, and that
 * shutdown, an answer and a failed write can always take their course.
 */
module Lifecycle {
  import opened Connection
  import opened Teardown
  import opened ConnectionRuns

  // ---------- What happened in a run ----------

  /** Step `k` of the run was the event `e`, and it took effect. */
  ghost predicate HappensAt(es: seq<Event>, e: Event, k: nat) {
    k < |es| && es[k] == e && Enabled(Run(Init, es[..k]), e)
  }

  ghost predicate Happens(es: seq<Event>, e: Event) { exists k: nat :: HappensAt(es, e, k) }

  lemma LastStep(es: seq<Event>)
    requires es != []
    ensures Run(Init, es) == Step(Run(Init, es[..|es|-1]), es[|es|-1])
  {
    var n := |es| - 1;
    assert es == es[..n] + [es[n]];
    RunConcat(Init, es[..n], [es[n]]);
    RunOne(Run(Init, es[..n]), es[n]);
  }

  lemma HappensEarlier(es: seq<Event>, e: Event, k: nat, m: nat)
    requires k < m <= |es|
    ensures HappensAt(es[..m], e, k) <==> HappensAt(es, e, k)
  {
    assert es[..m][..k] == es[..k];
  }

  lemma HappensSnoc(es: seq<Event>, e: Event)
    requires es != []
    ensures Happens(es, e) <==> Happens(es[..|es|-1], e) || HappensAt(es, e, |es| - 1)
  {
    var m := |es| - 1;
    if Happens(es[..m], e) {
      var k: nat :| HappensAt(es[..m], e, k);
      HappensEarlier(es, e, k, m);
    }
    if Happens(es, e) {
      var k: nat :| HappensAt(es, e, k);
      if k < m { HappensEarlier(es, e, k, m); }
    }
  }

  // ---------- The writer and the reader ----------

  /** The writer has left its loop. */
  predicate Left(w: Writer) { w == Closing || w == Exited }

  lemma WriterStep(s: State, e: Event)
    ensures var t := Step(s, e);
      && (Left(t.writer) <==> Left(s.writer) || (Enabled(s, e) && (e == Drained || e == WriteFail)))
      && (t.writer == Exited <==> s.writer == Exited || (Enabled(s, e) && e == Closed))
      && (t.writer == Exited ==> t.queue == [] || (s.writer == Exited && t.queue == s.queue))
  {
  }

  /** The writer leaves its loop when it is drained or a write fails, and exits, with its channel, when its sink is closed. */
  lemma {:induction false} WriterExactly(es: seq<Event>)
    ensures Left(Run(Init, es).writer) <==> Happens(es, Drained) || Happens(es, WriteFail)
    ensures Run(Init, es).writer == Exited <==> Happens(es, Closed)
    ensures Run(Init, es).writer == Exited ==> Run(Init, es).queue == []
    decreases |es|
  {
    if es != [] {
      WriterExactly(es[..|es|-1]);
      LastStep(es);
      WriterStep(Run(Init, es[..|es|-1]), es[|es|-1]);
      HappensSnoc(es, Drained);
      HappensSnoc(es, WriteFail);
      HappensSnoc(es, Closed);
    }
  }

  lemma ReaderStep(s: State, e: Event)
    ensures var t := Step(s, e);
      && (t.reader == Ended <==> s.reader == Ended || (Enabled(s, e) && (e == StreamEnds || e == JoinReader)))
      && (t.loop == Down <==> s.loop == Down || (Enabled(s, e) && e == JoinReader))
  {
  }

  /** The reader ends with its stream or when it is joined; the command loop ends only with shutdown. */
  lemma {:induction false} ReaderExactly(es: seq<Event>)
    ensures Run(Init, es).reader == Ended <==> Happens(es, StreamEnds) || Happens(es, JoinReader)
    ensures Run(Init, es).loop == Down <==> Happens(es, JoinReader)
    decreases |es|
  {
    if es != [] {
      ReaderExactly(es[..|es|-1]);
      LastStep(es);
      ReaderStep(Run(Init, es[..|es|-1]), es[|es|-1]);
      HappensSnoc(es, StreamEnds);
      HappensSnoc(es, JoinReader);
    }
  }

  // ---------- What is written ----------

  /** Nobody can send any more. */
  ghost predicate Silent(s: State) { s.stage == Dropped && s.reader == Ended && s.loop == Down && !Senders(s) }

  lemma SilentStays(s: State, e: Event)
    requires Channels(s) && Silent(s)
    ensures Silent(Step(s, e)) && Step(s, e).outbox == s.outbox
  {
    var t := Step(s, e);
    assert Enabled(s, e) ==> t.handlers == s.handlers;
  }

  /** A writer that never failed a write leaves only once nobody can send, with everything written. */
  ghost predicate Complete(s: State) {
    Left(s.writer) ==> Silent(s) && s.wire == s.outbox
  }

  lemma CompleteStep(s: State, e: Event)
    requires Channels(s) && Pipe(s) && Complete(s) && !(Enabled(s, e) && e == WriteFail)
    ensures Complete(Step(s, e))
  {
    if Left(s.writer) { SilentStays(s, e); }
    else if Enabled(s, e) && e == Drained { DrainedComplete(s); }
  }

  lemma DrainedComplete(s: State)
    requires Channels(s) && Pipe(s) && Enabled(s, Drained)
    ensures Complete(Apply(s, Drained))
  {
    assert s.wire + InFlight(s.writer) + s.queue == s.wire;
  }

  /** A failed write loses at least the frame it was writing. */
  lemma LossStep(s: State, e: Event)
    requires Pipe(s) && (Left(s.writer) ==> |s.wire| < |s.outbox|) && !(Enabled(s, e) && e == Drained)
    ensures Left(Step(s, e).writer) ==> |Step(s, e).wire| < |Step(s, e).outbox|
  {
    if Enabled(s, e) && e == WriteFail { assert |s.wire + InFlight(s.writer) + s.queue| == |s.outbox|; }
  }

  /** What a writer that has left its loop wrote is all that was accepted, unless a write failed. */
  lemma {:induction false} WrittenExactly(es: seq<Event>)
    requires Left(Run(Init, es).writer)
    ensures Run(Init, es).wire == Run(Init, es).outbox <==> !Happens(es, WriteFail)
    ensures !Happens(es, WriteFail) ==> Silent(Run(Init, es))
  {
    WrittenSoFar(es);
  }

  lemma {:induction false} WrittenSoFar(es: seq<Event>)
    ensures var s := Run(Init, es);
      if Happens(es, WriteFail) then Left(s.writer) && |s.wire| < |s.outbox| else Complete(s)
    decreases |es|
  {
    if es != [] {
      var front := es[..|es|-1];
      WrittenSoFar(front);
      RunInit(front);
      LastStep(es);
      HappensSnoc(es, WriteFail);
      var s, e := Run(Init, front), es[|es|-1];
      WriterStep(s, e);
      if Happens(es, WriteFail) { LossStep(s, e); } else { CompleteStep(s, e); }
    }
  }

  // ---------- What becomes of a handler ----------

  predicate HasFinished(s: State, h: nat) { h < |s.handlers| && s.handlers[h].status == Finished }

  /** An abort has been asked of the handler, whether or not it has taken effect. */
  predicate Struck(s: State, h: nat) { h < |s.handlers| && !Live(s.handlers[h]) && s.handlers[h].status != Finished }

  lemma HandlerStep(s: State, e: Event, h: nat)
    ensures var t := Step(s, e);
      && (HasFinished(t, h) <==> HasFinished(s, h) || (Enabled(s, e) && (e == Answers(h) || e == GivesUp(h))))
      && (Struck(t, h) ==> Struck(s, h) || (Enabled(s, e) && e == AbortHandlers))
  {
  }

  lemma AnswerStep(s: State, e: Event, h: nat)
    ensures HasAnswer(Step(s, e), h) <==> HasAnswer(s, h) || (Enabled(s, e) && e == Answers(h))
  {
    var t := Step(s, e);
    OutboxGrows(s, e);
    if HasAnswer(s, h) {
      var i :| 0 <= i < |s.outbox| && s.outbox[i].Answer? && s.outbox[i].handler == h;
      assert t.outbox[i] == s.outbox[i];
    }
    if Enabled(s, e) && e == Answers(h) { assert t.outbox[|s.outbox|] == Answer(h, s.handlers[h].id); }
    if HasAnswer(t, h) {
      var i :| 0 <= i < |t.outbox| && t.outbox[i].Answer? && t.outbox[i].handler == h;
      if i < |s.outbox| { assert s.outbox[i] == t.outbox[i]; }
    }
  }

  /** A handler finishes by answering or by finding the channel closed, and is struck only by an abort. */
  lemma {:induction false} HandlerExactly(es: seq<Event>, h: nat)
    ensures HasAnswer(Run(Init, es), h) <==> Happens(es, Answers(h))
    ensures HasFinished(Run(Init, es), h) <==> Happens(es, Answers(h)) || Happens(es, GivesUp(h))
    ensures Struck(Run(Init, es), h) ==> Happens(es, AbortHandlers)
    decreases |es|
  {
    if es != [] {
      var front := es[..|es|-1];
      HandlerExactly(front, h);
      LastStep(es);
      HandlerStep(Run(Init, front), es[|es|-1], h);
      AnswerStep(Run(Init, front), es[|es|-1], h);
      HappensSnoc(es, Answers(h));
      HappensSnoc(es, GivesUp(h));
      HappensSnoc(es, AbortHandlers);
    }
  }

  /** A handler gives up only on a channel whose writer has exited. */
  lemma GivesUpClosed(es: seq<Event>, h: nat)
    requires Happens(es, GivesUp(h))
    ensures Happens(es, Closed)
  {
    var k: nat :| HappensAt(es, GivesUp(h), k);
    WriterExactly(es[..k]);
    var j: nat :| HappensAt(es[..k], Closed, j);
    HappensEarlier(es, Closed, j, k);
  }

  /** Until the handlers are aborted or the writer exits, every inbound call is answered or still being handled. */
  lemma NoCallDropped(es: seq<Event>, h: nat)
    requires h < |Run(Init, es).handlers| && !Happens(es, AbortHandlers) && !Happens(es, Closed)
    ensures HasAnswer(Run(Init, es), h) != Live(Run(Init, es).handlers[h])
  {
    RunInit(es);
    HandlerExactly(es, h);
    if Happens(es, GivesUp(h)) { GivesUpClosed(es, h); }
  }

  // ---------- What can always go on ----------

  /** Shutdown's steps, after whatever the reader is in the middle of. */
  function Shutdown(s: State): seq<Event> {
    (if s.reader.MidSpawn? then [Track] else []) + [JoinReader, AbortHandlers, FailPending, DropHandle]
  }

  lemma Joined(s: State)
    requires s.loop == Idle && s.stage == Up && !s.reader.MidSpawn?
    ensures var t := Step(s, JoinReader);
      t.stage == ReaderJoined && t.reader == Ended && t.loop == Down && t.calls == s.calls && t.outbox == s.outbox
  {
  }

  lemma JoinedSteps(s: State)
    requires s.stage == ReaderJoined && s.reader == Ended && s.loop == Down
    ensures var t := Run(s, [AbortHandlers] + ([FailPending] + [DropHandle]));
      && t.stage == Dropped && t.reader == Ended && t.loop == Down && t.table.inner == map[]
      && t.calls == s.calls && t.outbox == s.outbox
  {
    var t := Step(s, AbortHandlers);
    RunCons(s, AbortHandlers, [FailPending] + [DropHandle]);
    RunCons(t, FailPending, [DropHandle]);
    RunOne(Step(t, FailPending), DropHandle);
  }

  lemma ShutdownSteps(s: State)
    requires s.loop == Idle && s.stage == Up && !s.reader.MidSpawn?
    ensures var t := Run(s, [JoinReader, AbortHandlers, FailPending, DropHandle]);
      && t.stage == Dropped && t.reader == Ended && t.loop == Down && t.table.inner == map[]
      && t.calls == s.calls && t.outbox == s.outbox
  {
    var rest := [AbortHandlers] + ([FailPending] + [DropHandle]);
    assert [JoinReader, AbortHandlers, FailPending, DropHandle] == [JoinReader] + rest;
    RunCons(s, JoinReader, rest);
    Joined(s);
    JoinedSteps(Step(s, JoinReader));
  }

  /** Whenever no call is being sent, shutdown can run to its end, and leaves no entry and no live handler. */
  lemma ShutdownRuns(es: seq<Event>)
    requires Run(Init, es).loop == Idle && Run(Init, es).stage == Up
    ensures var s := Run(Init, es);
      var t := Run(s, Shutdown(s));
      HandleDropped(t) && t.table.inner == map[] && t.calls == s.calls && t.outbox == s.outbox
  {
    var s := Run(Init, es);
    var rest := [JoinReader, AbortHandlers, FailPending, DropHandle];
    if s.reader.MidSpawn? {
      RunConcat(s, [Track], rest);
      RunOne(s, Track);
      ShutdownSteps(Step(s, Track));
    } else {
      assert Shutdown(s) == rest;
      ShutdownSteps(s);
    }
    RunInit(es);
    RunInv(s, Shutdown(s));
  }

  lemma WriteFailed(s: State)
    requires s.writer.Writing?
    ensures var t := Run(s, [WriteFail] + [Closed]);
      && t.writer == Exited && t.wire == s.wire && t.queue == [] && t.loop == s.loop
      && t.calls == s.calls && t.deliveries == s.deliveries
  {
    RunCons(s, WriteFail, [Closed]);
    RunOne(Step(s, WriteFail), Closed);
  }

  lemma SendFailed(s: State)
    requires s.writer == Exited && (s.loop == Sending ==> s.calls != [])
    ensures var t := Step(s, SendFail);
      && t.writer == Exited && t.wire == s.wire && t.queue == s.queue
      && (s.loop == Sending ==> t.loop == Idle && t.deliveries == s.deliveries + [Delivery(|s.calls| - 1, ConnectionClosed)])
  {
  }

  /** A write may fail at any time; the writer then exits, what is queued is lost, and a call being sent is refused. */
  lemma FailedWrite(s: State)
    requires Channels(s) && s.writer.Writing?
    ensures var t := Run(s, [WriteFail, Closed, SendFail]);
      && t.writer == Exited && t.wire == s.wire && t.queue == []
      && (s.loop == Sending ==> t.loop == Idle && t.deliveries == s.deliveries + [Delivery(|s.calls| - 1, ConnectionClosed)])
  {
    var gone := [WriteFail] + [Closed];
    assert [WriteFail, Closed, SendFail] == gone + [SendFail];
    RunConcat(s, gone, [SendFail]);
    RunOne(Run(s, gone), SendFail);
    WriteFailed(s);
    SendFailed(Run(s, gone));
  }
}
