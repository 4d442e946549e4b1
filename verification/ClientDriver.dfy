/**
 * When the client stops and when it tries again, over every script of events, and that this is what
 * the retry driver does with the script's attempts.
 */
module ClientDriver {
  import opened Basics
  import Backoff
  import opened Reconnect

  // ---------- What ends the client ----------

  /** The next command the client would get, if there is one. */
  function NextCommand(sent: seq<Command>, s: State): Option<Command> {
    if s.phase.Running? && s.phase.queued != [] then
      if s.phase.queued[0] < |sent| then Some(sent[s.phase.queued[0]]) else Some(WriteCommand(0))
    else if s.taken < |sent| then Some(sent[s.taken]) else None
  }

  predicate TakesTerminate(sent: seq<Command>, s: State, e: Event) {
    !s.phase.Stopped? && e.Receive? && NextCommand(sent, s) == Some(Terminate)
  }

  predicate FindsClosed(sent: seq<Command>, s: State, e: Event) {
    !s.phase.Stopped? && e.Receive? && NextCommand(sent, s) == None
  }

  /** The attempt fails, under this setting of reconnect: no connection, a failed poll, or a write that did not get through. */
  function FailsUnder(sent: seq<Command>, s: State, e: Event): Option<bool> {
    match (s.phase, e)
    case (Connecting(_), ConnectFail(reconnect)) => Some(reconnect)
    case (Running(_, reconnect), PollFail) => Some(reconnect)
    case (Running(_, reconnect), Receive(delivered)) =>
      if !delivered && NextCommand(sent, s).Some? && NextCommand(sent, s).value.WriteCommand? then Some(reconnect) else None
    case _ => None
  }

  predicate Ends(sent: seq<Command>, s: State, e: Event) {
    TakesTerminate(sent, s, e) || FindsClosed(sent, s, e) || FailsUnder(sent, s, e) == Some(false)
  }

  lemma StopStep(sent: seq<Command>, s: State, e: Event)
    ensures Step(sent, s, e).phase.Stopped? <==> s.phase.Stopped? || Ends(sent, s, e)
  {
  }

  /** Step number `k` of the script ended the client. */
  ghost predicate EndsAt(sent: seq<Command>, es: seq<Event>, k: nat) {
    k < |es| && Ends(sent, Run(sent, Start, es[..k]), es[k])
  }

  /**
   * The client has stopped exactly when it took a Terminate, found the channel closed, or an attempt
   * failed with reconnect off.
   */
  lemma {:induction false} StoppedExactly(sent: seq<Command>, es: seq<Event>)
    ensures Run(sent, Start, es).phase.Stopped? <==> exists k: nat :: EndsAt(sent, es, k)
    decreases |es|
  {
    if es != [] {
      var n := |es| - 1;
      StoppedExactly(sent, es[..n]);
      LastStep(sent, es);
      StopStep(sent, Run(sent, Start, es[..n]), es[n]);
      if exists k: nat :: EndsAt(sent, es[..n], k) {
        var k: nat :| EndsAt(sent, es[..n], k);
        assert es[..n][..k] == es[..k];
        assert EndsAt(sent, es, k);
      }
      if Ends(sent, Run(sent, Start, es[..n]), es[n]) { assert EndsAt(sent, es, n); }
      if exists k: nat :: EndsAt(sent, es, k) {
        var k: nat :| EndsAt(sent, es, k);
        if k < n {
          assert es[..n][..k] == es[..k];
          assert EndsAt(sent, es[..n], k);
        }
      }
    }
  }

  lemma LastStep(sent: seq<Command>, es: seq<Event>)
    requires es != []
    ensures var n := |es| - 1;
      Run(sent, Start, es) == Step(sent, Run(sent, Start, es[..n]), es[n])
  {
    var n := |es| - 1;
    assert es[0..n+1] == es && es[0..n] == es[..n];
    RunNext(sent, Start, es, 0, n);
  }

  /** A failure with reconnect on makes the client wait, and when the wait runs out it connects afresh. */
  lemma FailureRetries(sent: seq<Command>, s: State, e: Event)
    requires FailsUnder(sent, s, e) == Some(true)
    ensures Step(sent, s, e).phase == Waiting
    ensures Step(sent, Step(sent, s, e), Elapse).phase == Connecting([])
  {
  }

  // ---------- The same, as the retry driver sees it ----------

  /** The attempt that a step completes, with what became of the wait after it. */
  function Completes(sent: seq<Command>, s: State, e: Event): seq<Backoff.Round<()>> {
    if s.phase.Waiting? then
      if e == Elapse then [Backoff.Round(Backoff.Failed((), true, false), false)]
      else if TakesTerminate(sent, s, e) || FindsClosed(sent, s, e) then [Backoff.Round(Backoff.Failed((), true, false), true)]
      else []
    else if FailsUnder(sent, s, e) == Some(false) then [Backoff.Round(Backoff.Failed((), false, false), false)]
    else if TakesTerminate(sent, s, e) || FindsClosed(sent, s, e) then [Backoff.Round(Backoff.Done, false)]
    else []
  }

  function Rounds(sent: seq<Command>, s: State, es: seq<Event>): seq<Backoff.Round<()>>
    decreases |es|
  {
    if es == [] then [] else Completes(sent, s, es[0]) + Rounds(sent, Step(sent, s, es[0]), es[1..])
  }

  lemma StepCompletes(sent: seq<Command>, s: State, e: Event)
    requires !s.phase.Stopped?
    ensures var rs := Completes(sent, s, e);
      |rs| <= 1 && (Step(sent, s, e).phase.Stopped? <==> rs != [] && !Backoff.Continues(rs[0]))
  {
    StopStep(sent, s, e);
  }

  lemma {:induction false} StoppedCompletesNothing(sent: seq<Command>, s: State, es: seq<Event>)
    requires s.phase.Stopped?
    ensures Rounds(sent, s, es) == []
    decreases |es|
  {
    if es != [] { StoppedCompletesNothing(sent, s, es[1..]); }
  }

  /** Of a script's attempts all but the last continue, and the last does not exactly when the client has stopped. */
  lemma {:induction false} RoundsContinue(sent: seq<Command>, s: State, es: seq<Event>)
    requires !s.phase.Stopped?
    ensures var rs := Rounds(sent, s, es);
      && (forall i :: 0 <= i < |rs| - 1 ==> Backoff.Continues(rs[i]))
      && (Run(sent, s, es).phase.Stopped? <==> rs != [] && !Backoff.Continues(rs[|rs|-1]))
    decreases |es|
  {
    if es != [] {
      var t := Step(sent, s, es[0]);
      StepCompletes(sent, s, es[0]);
      if t.phase.Stopped? {
        StoppedCompletesNothing(sent, t, es[1..]);
        StoppedForGood(sent, t, es[1..]);
      } else {
        RoundsContinue(sent, t, es[1..]);
      }
    }
  }

  /** Some step of the script fails an attempt with reconnect off. */
  predicate GivesUp(sent: seq<Command>, s: State, es: seq<Event>)
    decreases |es|
  {
    es != [] && (FailsUnder(sent, s, es[0]) == Some(false) || GivesUp(sent, Step(sent, s, es[0]), es[1..]))
  }

  lemma {:induction false} StoppedNeverGivesUp(sent: seq<Command>, s: State, es: seq<Event>)
    requires s.phase.Stopped?
    ensures !GivesUp(sent, s, es)
    decreases |es|
  {
    if es != [] { StoppedNeverGivesUp(sent, s, es[1..]); }
  }

  predicate Final(r: Backoff.Round<()>) { r.attempt.Failed? && !r.attempt.reconnect }

  /** The last attempt is a final failure exactly when the client gave up for want of reconnect. */
  lemma {:induction false} RoundsGiveUp(sent: seq<Command>, s: State, es: seq<Event>)
    requires !s.phase.Stopped?
    ensures GivesUp(sent, s, es) <==> Rounds(sent, s, es) != [] && Final(Rounds(sent, s, es)[|Rounds(sent, s, es)|-1])
    decreases |es|
  {
    if es != [] {
      var t := Step(sent, s, es[0]);
      StepCompletes(sent, s, es[0]);
      if t.phase.Stopped? {
        StoppedCompletesNothing(sent, t, es[1..]);
        StoppedNeverGivesUp(sent, t, es[1..]);
      } else {
        RoundsGiveUp(sent, t, es[1..]);
      }
    }
  }

  /** The driver, fed the script's attempts, runs while the client does, and fails when it gave up for want of reconnect. */
  method Drive(policy: Backoff.Policy, sent: seq<Command>, es: seq<Event>) returns (ending: Backoff.Ending<()>, n: nat)
    ensures ending.StillRunning? <==> !Run(sent, Start, es).phase.Stopped?
    ensures ending.Raised? <==> GivesUp(sent, Start, es)
    ensures n == |Rounds(sent, Start, es)|
  {
    var waits;
    ending, waits, n := Backoff.RunWithBackoff(policy, Rounds(sent, Start, es));
    RoundsContinue(sent, Start, es);
    RoundsGiveUp(sent, Start, es);
  }
}
