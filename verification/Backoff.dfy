/** The shared retry driver: exponential backoff between attempts, and the abortable wait itself. */
module Backoff {
  import opened Basics
  import opened Bits

  datatype Policy = Policy(initial: nat, max: nat)

  datatype Attempt<E> = Done | Failed(error: E, reconnect: bool, reset: bool)

  /** One turn of the driver: the attempt's outcome, and whether the wait after it would be aborted. */
  datatype Round<E> = Round(attempt: Attempt<E>, aborted: bool)

  datatype Ending<E> = Returned | Raised(error: E) | StillRunning

  /** The wait after the `k`-th failure since the last reset. */
  function Wait(p: Policy, k: nat): nat {
    if k == 0 then p.initial else Min(2 * Wait(p, k - 1), p.max)
  }

  /** Failures since the last reset, counted at the failing round `i`; the reset round counts as 0. */
  function Failures<E>(rs: seq<Round<E>>, i: nat): nat
    requires i < |rs|
  {
    if i == 0 || Resets(rs[i]) then 0 else Failures(rs, i - 1) + 1
  }

  predicate Resets<E>(r: Round<E>) { r.attempt.Failed? && r.attempt.reset }

  /** The waits after the first `n` rounds. */
  function Schedule<E>(p: Policy, rs: seq<Round<E>>, n: nat): (ws: seq<nat>)
    requires n <= |rs|
    ensures |ws| == n && forall i :: 0 <= i < n ==> ws[i] == Wait(p, Failures(rs, i))
  {
    if n == 0 then [] else Schedule(p, rs, n - 1) + [Wait(p, Failures(rs, n - 1))]
  }

  /** The driver goes on past round `r`: it failed, may reconnect, and its wait ran out. */
  predicate Continues<E>(r: Round<E>) {
    r.attempt.Failed? && r.attempt.reconnect && !r.aborted
  }

  /** Runs attempts until one is final; `rounds` is what the environment answers, turn by turn. */
  method RunWithBackoff<E>(policy: Policy, rounds: seq<Round<E>>) returns (ending: Ending<E>, waits: seq<nat>, n: nat)
    ensures n <= |rounds| && forall i :: 0 <= i < n - 1 ==> Continues(rounds[i])
    ensures ending.StillRunning? <==> (n == |rounds| && forall i :: 0 <= i < n ==> Continues(rounds[i]))
    ensures !ending.StillRunning? ==> n > 0 && !Continues(rounds[n-1])
    ensures ending.Raised? <==> !ending.StillRunning? && rounds[n-1].attempt.Failed? && !rounds[n-1].attempt.reconnect
    ensures ending.Raised? ==> ending.error == rounds[n-1].attempt.error
    ensures |waits| == if ending.Raised? || (ending.Returned? && rounds[n-1].attempt.Done?) then n - 1 else n
    ensures |waits| <= |rounds| && forall i :: 0 <= i < |waits| ==> rounds[i].attempt.Failed?
    ensures waits == Schedule(policy, rounds, |waits|)
  {
    var backoff := policy.initial;
    waits := [];
    n := 0;
    while n < |rounds|
      invariant n == |waits| <= |rounds|
      invariant forall i :: 0 <= i < n ==> Continues(rounds[i])
      invariant waits == Schedule(policy, rounds, n)
      invariant backoff == Wait(policy, if n == 0 then 0 else Failures(rounds, n - 1) + 1)
    {
      var round := rounds[n];
      match round.attempt
      case Done =>
        n := n + 1;
        return Returned, waits, n;
      case Failed(error, reconnect, reset) =>
        if !reconnect {
          n := n + 1;
          return Raised(error), waits, n;
        }
        if reset { backoff := policy.initial; }
        waits := waits + [backoff];
        n := n + 1;
        if round.aborted { return Returned, waits, n; }
        backoff := Min(backoff * 2, policy.max);
    }
    ending := StillRunning;
  }

  /** From the first doubling on, the wait is the initial wait times a power of two, capped at the maximum. */
  lemma {:induction false} WaitClosed(p: Policy, k: nat)
    requires k > 0 || p.initial <= p.max
    ensures Wait(p, k) == Min(Scaled(p, k), p.max)
  {
    if k > 1 || (k == 1 && p.initial <= p.max) { WaitClosed(p, k - 1); }
    if k > 0 { assert Scaled(p, k) == 2 * Scaled(p, k - 1) by { Doubled(p.initial, Pow2(k - 1)); } }
  }

  /** The initial wait doubled `k` times. */
  function Scaled(p: Policy, k: nat): nat { p.initial * Pow2(k) }

  /** Every wait is the doubled initial wait capped at the maximum exactly when the policy is ordered. */
  lemma CappedExactly(p: Policy)
    ensures (forall k :: Wait(p, k) == Min(Scaled(p, k), p.max)) <==> p.initial <= p.max
  {
    assert Scaled(p, 0) == p.initial;
    if p.initial <= p.max {
      forall k ensures Wait(p, k) == Min(Scaled(p, k), p.max) { WaitClosed(p, k); }
    } else {
      assert Wait(p, 0) != Min(Scaled(p, 0), p.max);
    }
  }

  // ---------- The abortable wait ----------

  /** A command that reaches the channel at `time`. */
  datatype Arrival = Arrival(time: nat, terminate: bool)

  /** When a waiter that began at `start` can take the arrival. */
  function Ready(a: Arrival, start: nat): nat { Max(a.time, start) }

  datatype Waited = Elapsed(taken: nat) | Terminated(taken: nat) | Closed

  /**
   * Waits until `start + backoff` while taking commands off the channel. `closes` is when the last
   * sender goes away; `prefer` settles which branch wins when both are ready in the same instant.
   */
  method WaitBackoff(start: nat, backoff: nat, arrivals: seq<Arrival>, closes: Option<nat>, prefer: nat -> bool)
    returns (w: Waited, end: nat)
    requires forall i, j :: 0 <= i < j < |arrivals| ==> arrivals[i].time <= arrivals[j].time
    requires closes.Some? ==> forall i :: 0 <= i < |arrivals| ==> arrivals[i].time <= closes.value
    ensures start <= end <= start + backoff
    ensures w.Elapsed? ==> end == start + backoff && w.taken <= |arrivals|
    ensures w.Elapsed? ==> forall i :: 0 <= i < |arrivals| && Ready(arrivals[i], start) < start + backoff ==>
              i < w.taken && !arrivals[i].terminate
    ensures w.Elapsed? && closes.Some? ==> start + backoff <= Max(closes.value, start)
    ensures w.Terminated? ==> 0 < w.taken <= |arrivals| && arrivals[w.taken-1].terminate
    ensures w.Terminated? ==> end == Ready(arrivals[w.taken-1], start)
    ensures w.Closed? ==> closes.Some? && end == Max(closes.value, start)
    ensures forall i :: 0 <= i < (match w case Elapsed(n) => n case Terminated(n) => n - 1 case Closed => |arrivals|) ==>
              !arrivals[i].terminate && Ready(arrivals[i], start) <= end
  {
    var deadline := start + backoff;
    var i := 0;
    while true
      invariant i <= |arrivals|
      invariant forall j :: 0 <= j < i ==> !arrivals[j].terminate && Ready(arrivals[j], start) <= deadline
      decreases |arrivals| - i
    {
      var ready := if i < |arrivals| then Some(Ready(arrivals[i], start))
                   else if closes.Some? then Some(Max(closes.value, start)) else None;
      if ready.None? || deadline < ready.value || (ready.value == deadline && !prefer(i)) {
        return Elapsed(i), deadline;
      }
      end := ready.value;
      if i == |arrivals| { return Closed, end; }
      if arrivals[i].terminate { return Terminated(i + 1), end; }
      i := i + 1;
    }
  }
}
