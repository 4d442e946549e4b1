/**
 * The backoff wait in both views: timed, against a deadline, and as steps of the client's machine.
 * They take the same commands off the channel and do the same with each.
 */
module ClientWait {
  import opened Basics
  import Backoff
  import opened Reconnect

  /** The channel as the timed wait sees it: when each command left in it arrives, and which are Terminate. */
  ghost predicate Feeds(arrivals: seq<Backoff.Arrival>, sent: seq<Command>, taken: nat) {
    && taken + |arrivals| == |sent|
    && forall i :: 0 <= i < |arrivals| ==> (arrivals[i].terminate <==> sent[taken + i].Terminate?)
  }

  function Receives(k: nat): seq<Event> {
    if k == 0 then [] else [Receive(false)] + Receives(k - 1)
  }

  /** The machine's steps for a wait that ended with `w`, with `n` commands left when it began. */
  function Script(w: Backoff.Waited, n: nat): seq<Event> {
    match w
    case Elapsed(k) => Receives(k) + [Elapse]
    case Terminated(k) => if k == 0 then [] else Receives(k - 1) + [Receive(false)]
    case Closed => Receives(n) + [Receive(false)]
  }

  /** The next `k` places in the channel. */
  function Next(from: nat, k: nat): seq<nat>
    decreases k
  {
    if k == 0 then [] else [from] + Next(from + 1, k - 1)
  }

  function Dropping(s: State, k: nat): State {
    s.(taken := s.taken + k, logged := s.logged + Next(s.taken, k))
  }

  /** What becomes of the commands: each dropped with a log line, but for a Terminate. */
  function Leaves(s: State, w: Backoff.Waited, n: nat): State {
    match w
    case Elapsed(k) => Dropping(s, k).(phase := Connecting([]))
    case Terminated(k) =>
      if k == 0 then s
      else Dropping(s, k - 1).(taken := s.taken + k, terminator := [s.taken + k - 1], phase := Stopped)
    case Closed => Dropping(s, n).(phase := Stopped)
  }

  lemma {:induction false} ReceivesDrop(sent: seq<Command>, s: State, k: nat)
    requires s.phase.Waiting? && s.taken + k <= |sent|
    requires forall i :: s.taken <= i < s.taken + k ==> !sent[i].Terminate?
    ensures Run(sent, s, Receives(k)) == Dropping(s, k)
    decreases k
  {
    if k == 0 {
      assert s.logged + [] == s.logged;
    } else {
      var t := Step(sent, s, Receive(false));
      assert Receives(k)[1..] == Receives(k - 1);
      ReceivesDrop(sent, t, k - 1);
      Appended(s.logged, [s.taken], Next(s.taken + 1, k - 1));
    }
  }

  lemma ThenOne(sent: seq<Command>, s: State, es: seq<Event>, e: Event)
    ensures Run(sent, s, es + [e]) == Step(sent, Run(sent, s, es), e)
  {
    RunConcat(sent, s, es, [e]);
    assert [e][1..] == [];
  }

  /** How many commands a wait drops. */
  function Dropped(w: Backoff.Waited, n: nat): nat {
    match w case Elapsed(k) => k case Terminated(k) => if k == 0 then 0 else k - 1 case Closed => n
  }

  lemma WaitAgrees(sent: seq<Command>, s: State, arrivals: seq<Backoff.Arrival>, w: Backoff.Waited)
    requires s.phase.Waiting? && Feeds(arrivals, sent, s.taken) && Dropped(w, |arrivals|) <= |arrivals|
    requires forall i :: 0 <= i < Dropped(w, |arrivals|) ==> !arrivals[i].terminate
    requires w.Terminated? ==> 0 < w.taken <= |arrivals| && arrivals[w.taken-1].terminate
    ensures Run(sent, s, Script(w, |arrivals|)) == Leaves(s, w, |arrivals|)
  {
    var k, e := Dropped(w, |arrivals|), if w.Elapsed? then Elapse else Receive(false);
    forall i | s.taken <= i < s.taken + k ensures !sent[i].Terminate? {
      assert !arrivals[i - s.taken].terminate;
    }
    ReceivesDrop(sent, s, k);
    ThenOne(sent, s, Receives(k), e);
  }

  /** The timed wait, and that the client's machine does the same. */
  method Wait(sent: seq<Command>, ghost s: State, start: nat, backoff: nat, arrivals: seq<Backoff.Arrival>,
              closes: Option<nat>, prefer: nat -> bool)
    returns (w: Backoff.Waited, end: nat)
    requires s.phase.Waiting? && Feeds(arrivals, sent, s.taken)
    requires forall i, j :: 0 <= i < j < |arrivals| ==> arrivals[i].time <= arrivals[j].time
    requires closes.Some? ==> forall i :: 0 <= i < |arrivals| ==> arrivals[i].time <= closes.value
    ensures start <= end <= start + backoff
    ensures w.Elapsed? ==> end == start + backoff
    ensures Run(sent, s, Script(w, |arrivals|)) == Leaves(s, w, |arrivals|)
  {
    w, end := Backoff.WaitBackoff(start, backoff, arrivals, closes, prefer);
    WaitAgrees(sent, s, arrivals, w);
  }
}
