/**
 * What the client's polling means for its reconnect waits: a connection that read at least one
 * value before it dropped starts the backoff over; a failed connect or a barren connection does not.
 */
module ClientRetry {
  import opened Basics
  import Backoff
  import opened Bits
  import opened FlatStore
  import opened History
  import opened Memory
  import opened Poll
  import opened Server

  // ---------- One connection's polls ----------

  /** One poll of a connection: the operations listed at the time, and what the read gave. */
  datatype PollTry = PollTry(operations: seq<Operation>, outcome: ReadOutcome)

  predicate ReadsValue(t: PollTry) { t.operations != [] && t.outcome.Values? }

  /** The poll ends the connection. */
  predicate Breaks(t: PollTry) { t.operations != [] && (t.outcome.Timeout? || t.outcome.TransportError?) }

  predicate Fruitful(ts: seq<PollTry>) { exists i :: 0 <= i < |ts| && ReadsValue(ts[i]) }

  /** The cursor after polls none of which broke the connection. */
  function CursorAfter(c: Cursor, ts: seq<PollTry>): Cursor
    decreases |ts|
  {
    if ts == [] then c else
      var t := ts[|ts|-1];
      Advance(CursorAfter(c, ts[..|ts|-1]), |t.operations|, t.outcome.Values?)
  }

  /** The store writes of a connection's polls, in order. */
  function Writes(c: Cursor, ts: seq<PollTry>): seq<Op<SlaveKey>>
    decreases |ts|
  {
    if ts == [] then [] else
      var front, t := ts[..|ts|-1], ts[|ts|-1];
      Writes(c, front) + PollWrites(CursorAfter(c, front), t.operations, t.outcome)
  }

  /** The store, its tap and the success flag after the polls `ts` of one connection. */
  ghost predicate PolledTo(memory: Memory<SlaveKey>, s: Store<SlaveKey>, log: Option<seq<StoreWrite<SlaveKey>>>,
                         hadSuccess: bool, ts: seq<PollTry>)
    reads memory
  {
    && memory.Valid()
    && memory.Contents() == Final(s, Writes(Cursor(0, 0), ts))
    && Logged(memory, log, Events(s, Writes(Cursor(0, 0), ts)))
    && (hadSuccess <==> Fruitful(ts))
  }

  /** The poller stands where the polls `ts` of its connection took it. */
  ghost predicate StandsAfter(poller: Poller, ts: seq<PollTry>)
    reads poller
  {
    poller.retries < MAX_RETRIES && poller.View() == CursorAfter(Cursor(0, 0), ts)
  }

  lemma Extended(s: Store<SlaveKey>, ts: seq<PollTry>, n: nat)
    requires n < |ts|
    ensures var before, now := Writes(Cursor(0, 0), ts[..n]), Writes(Cursor(0, 0), ts[..n+1]);
      var last := PollWrites(CursorAfter(Cursor(0, 0), ts[..n]), ts[n].operations, ts[n].outcome);
      && Final(s, now) == Final(Final(s, before), last)
      && Events(s, now) == Events(s, before) + Events(Final(s, before), last)
  {
    var before, last := Writes(Cursor(0, 0), ts[..n]), PollWrites(CursorAfter(Cursor(0, 0), ts[..n]), ts[n].operations, ts[n].outcome);
    assert ts[..n+1][..n] == ts[..n];
    FinalConcat(s, before, last);
    EventsConcat(s, before, last);
  }

  lemma FruitfulSnoc(ts: seq<PollTry>, n: nat)
    requires n < |ts|
    ensures Fruitful(ts[..n+1]) <==> Fruitful(ts[..n]) || ReadsValue(ts[n])
  {
    if Fruitful(ts[..n]) {
      var i :| 0 <= i < n && ReadsValue(ts[..n][i]);
      assert ReadsValue(ts[..n+1][i]);
    } else if ReadsValue(ts[n]) {
      assert ReadsValue(ts[..n+1][n]);
    }
  }

  lemma CursorSnoc(ts: seq<PollTry>, n: nat)
    requires n < |ts|
    ensures CursorAfter(Cursor(0, 0), ts[..n+1]) == Advance(CursorAfter(Cursor(0, 0), ts[..n]), |ts[n].operations|, ts[n].outcome.Values?)
  {
    assert ts[..n+1][..n] == ts[..n];
  }

  method PollNext(poller: Poller, memory: Memory<SlaveKey>, ts: seq<PollTry>, n: nat, ghost s: Store<SlaveKey>,
                  ghost log: Option<seq<StoreWrite<SlaveKey>>>)
    returns (ok: bool)
    requires n < |ts| && StandsAfter(poller, ts[..n])
    requires PolledTo(memory, s, log, poller.hadSuccess, ts[..n])
    modifies poller, memory
    ensures ok <==> !Breaks(ts[n])
    ensures ok ==> StandsAfter(poller, ts[..n+1])
    ensures PolledTo(memory, s, log, poller.hadSuccess, ts[..n+1])
  {
    Extended(s, ts, n);
    FruitfulSnoc(ts, n);
    CursorSnoc(ts, n);
    if log.Some? {
      ghost var before := Writes(Cursor(0, 0), ts[..n]);
      Appended(log.value, Events(s, before),
               Events(Final(s, before), PollWrites(CursorAfter(Cursor(0, 0), ts[..n]), ts[n].operations, ts[n].outcome)));
    }
    ok := poller.PollOnce(ts[n].operations, memory, ts[n].outcome);
  }

  lemma NothingPolled(poller: Poller, memory: Memory<SlaveKey>, ts: seq<PollTry>)
    requires memory.Valid() && poller.View() == Cursor(0, 0)
    ensures StandsAfter(poller, ts[..0]) && PolledTo(memory, memory.Contents(), memory.tap, false, ts[..0])
  {
    assert memory.tap.Some? ==> memory.tap.value + [] == memory.tap.value;
  }

  /** Polls until one breaks the connection; reports whether any of them read a value. */
  method RunPolls(memory: Memory<SlaveKey>, ts: seq<PollTry>) returns (hadSuccess: bool, n: nat)
    requires memory.Valid()
    modifies memory
    ensures n <= |ts| && forall i :: 0 <= i < n - 1 ==> !Breaks(ts[i])
    ensures n == |ts| || (n > 0 && Breaks(ts[n-1]))
    ensures PolledTo(memory, old(memory.Contents()), old(memory.tap), hadSuccess, ts[..n])
  {
    ghost var s, log := memory.Contents(), memory.tap;
    var poller := new Poller();
    NothingPolled(poller, memory, ts);
    n := 0;
    while n < |ts|
      invariant n <= |ts| && fresh(poller) && forall i :: 0 <= i < n ==> !Breaks(ts[i])
      invariant StandsAfter(poller, ts[..n]) && PolledTo(memory, s, log, poller.hadSuccess, ts[..n])
    {
      var ok := PollNext(poller, memory, ts, n, s, log);
      n := n + 1;
      if !ok { return poller.hadSuccess, n; }
    }
    hadSuccess := poller.hadSuccess;
  }

  // ---------- The waits between attempts ----------

  /** One attempt of the client: stopped, not connected, or connected, polled and dropped. */
  datatype Try =
    | Stops
    | Refused(reconnect: bool, aborted: bool)
    | Dropped(polls: seq<PollTry>, reconnect: bool, aborted: bool)

  /** The attempt as the retry driver sees it: only a connection that read a value asks for a reset. */
  function AsRound(t: Try): Backoff.Round<()> {
    match t
    case Stops => Backoff.Round(Backoff.Done, false)
    case Refused(reconnect, aborted) => Backoff.Round(Backoff.Failed((), reconnect, false), aborted)
    case Dropped(polls, reconnect, aborted) => Backoff.Round(Backoff.Failed((), reconnect, Fruitful(polls)), aborted)
  }

  function AsRounds(ts: seq<Try>): (rs: seq<Backoff.Round<()>>)
    ensures |rs| == |ts| && forall i :: 0 <= i < |ts| ==> rs[i] == AsRound(ts[i])
  {
    seq(|ts|, i requires 0 <= i < |ts| => AsRound(ts[i]))
  }

  predicate ReadSomething(t: Try) { t.Dropped? && Fruitful(t.polls) }

  /** Attempts since the last one whose connection read a value, or since the first. */
  function Barren(ts: seq<Try>, i: nat): nat
    requires i < |ts|
  {
    if i == 0 || ReadSomething(ts[i]) then 0 else Barren(ts, i - 1) + 1
  }

  lemma {:induction false} BarrenCounts(ts: seq<Try>, i: nat)
    requires i < |ts|
    ensures Backoff.Failures(AsRounds(ts), i) == Barren(ts, i)
    decreases i
  {
    if i > 0 { BarrenCounts(ts, i - 1); }
  }

  /** Past the first, a wait is the initial one only for a policy that cannot grow. */
  lemma LaterWait(p: Backoff.Policy, k: nat)
    requires k > 0
    ensures Backoff.Wait(p, k) == p.initial <==> p.initial == 0 || p.initial == p.max
  {
    Backoff.WaitClosed(p, k);
    assert Pow2(k) == 2 * Pow2(k - 1) >= 2;
    Grows(p.initial, Pow2(k));
  }

  lemma Grows(a: nat, b: nat)
    requires b >= 2
    ensures a * b >= 2 * a && (a == 0 ==> a * b == 0)
  {
  }

  /** The client tries again after the attempt. */
  predicate GoesOn(t: Try) { !t.Stops? && t.reconnect && !t.aborted }

  /**
   * The client's waits over a whole run, and how it ends. Each wait is fixed by the attempts since the
   * last that read a value, and is the initial wait exactly after the first attempt, after one that read a value, or
   * under a policy that cannot grow.
   */
  method Drive(policy: Backoff.Policy, ts: seq<Try>) returns (ending: Backoff.Ending<()>, waits: seq<nat>, n: nat)
    ensures n <= |ts| && |waits| <= n
    ensures ending.StillRunning? <==> n == |ts| && forall i :: 0 <= i < n ==> GoesOn(ts[i])
    ensures !ending.StillRunning? ==> n > 0 && !GoesOn(ts[n-1]) && (ending.Raised? <==> !ts[n-1].Stops? && !ts[n-1].reconnect)
    ensures forall i :: 0 <= i < |waits| ==> waits[i] == Backoff.Wait(policy, Barren(ts, i))
    ensures forall i :: 0 <= i < |waits| ==>
              (waits[i] == policy.initial <==>
               i == 0 || ReadSomething(ts[i]) || policy.initial == 0 || policy.initial == policy.max)
  {
    ending, waits, n := Backoff.RunWithBackoff(policy, AsRounds(ts));
    assert forall i :: 0 <= i < |ts| ==> (Backoff.Continues(AsRounds(ts)[i]) <==> GoesOn(ts[i]));
    forall i | 0 <= i < |waits|
      ensures waits[i] == Backoff.Wait(policy, Barren(ts, i))
      ensures waits[i] == policy.initial <==>
                i == 0 || ReadSomething(ts[i]) || policy.initial == 0 || policy.initial == policy.max
    {
      BarrenCounts(ts, i);
      if Barren(ts, i) > 0 { LaterWait(policy, Barren(ts, i)); }
    }
  }
}
