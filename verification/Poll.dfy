/**
 * The client's poll loop: round-robin over a list that may change between polls, with a bounded
 * number of consecutive exceptions before an operation is skipped.
 */
module Poll {
  import opened Basics
  import opened Cells
  import opened FlatStore
  import opened Memory
  import opened Server

  const MAX_RETRIES: nat := 3

  datatype Operation = Operation(unit: UnitId, fc: FunctionCode, range: Range)

  datatype ReadOutcome = Values(words: seq<Word>) | Exception | Timeout | TransportError

  datatype Cursor = Cursor(index: nat, retries: nat)

  /** The operation a poll attempts on a list of `n`. */
  function Attempted(c: Cursor, n: nat): (i: nat)
    ensures n > 0 ==> i < n
  {
    if c.index >= n then 0 else c.index
  }

  /** The cursor after a poll of `n` operations that read values (`ok`) or met an exception. */
  function Advance(c: Cursor, n: nat, ok: bool): (d: Cursor)
    ensures c.retries < MAX_RETRIES ==> d.retries < MAX_RETRIES
  {
    var i := Attempted(c, n);
    if n == 0 then Cursor(i, c.retries)
    else if ok || c.retries + 1 >= MAX_RETRIES then Cursor((i + 1) % n, 0)
    else Cursor(i, c.retries + 1)
  }

  /** The store write a poll performs: what was read, whatever access the cells declare. */
  function PollWrites(c: Cursor, operations: seq<Operation>, outcome: ReadOutcome): (ws: seq<Op<SlaveKey>>)
    ensures |ws| <= 1
  {
    if operations == [] || !outcome.Values? then []
    else
      var op := operations[Attempted(c, |operations|)];
      [ForcedWrite(WriteSource.Poll, FromSlaveFn(op.unit, op.fc), op.range, outcome.words)]
  }

  lemma SingleWrite(s: Store<SlaveKey>, ws: seq<Op<SlaveKey>>, log: Option<seq<StoreWrite<SlaveKey>>>)
    requires |ws| <= 1
    ensures ws == [] ==> Final(s, ws) == s && Events(s, ws) == []
    ensures ws != [] ==> Final(s, ws) == After(s, ws[0]) && Events(s, ws) == Reported(s, ws[0])
    ensures log.Some? ==> log.value + [] == log.value
  {
    if ws != [] { assert ws[1..] == []; }
  }

  class Poller {
    var index: nat
    var retries: nat
    var hadSuccess: bool

    constructor ()
      ensures View() == Cursor(0, 0) && !hadSuccess
    {
      index, retries, hadSuccess := 0, 0, false;
    }

    function View(): Cursor
      reads this
    {
      Cursor(index, retries)
    }

    /** One poll; `Err` ends the connection run. `outcome` is what reading the attempted operation gives. */
    method PollOnce(operations: seq<Operation>, memory: Memory<SlaveKey>, outcome: ReadOutcome) returns (ok: bool)
      requires memory.Valid() && retries < MAX_RETRIES
      modifies this, memory
      ensures memory.Valid() && retries < MAX_RETRIES
      ensures ok <==> operations == [] || outcome.Values? || outcome.Exception?
      ensures ok ==> View() == Advance(old(View()), |operations|, outcome.Values?)
      ensures !ok ==> View() == Cursor(Attempted(old(View()), |operations|), old(retries))
      ensures hadSuccess == (old(hadSuccess) || (operations != [] && outcome.Values?))
      ensures var writes := PollWrites(old(View()), operations, outcome);
        && memory.Contents() == Final(old(memory.Contents()), writes)
        && Logged(memory, old(memory.tap), Events(old(memory.Contents()), writes))
    {
      ghost var writes := PollWrites(View(), operations, outcome);
      SingleWrite(memory.Contents(), writes, memory.tap);
      var count := |operations|;
      if index >= count { index := 0; }
      if index < count {
        var operation := operations[index];
        match outcome
        case Values(values) =>
          hadSuccess := true;
          var key := FromSlaveFn(operation.unit, operation.fc);
          var _ := memory.WriteUncheckedFrom(WriteSource.Poll, key, operation.range, values);
          index := (index + 1) % count;
          retries := 0;
        case Timeout => return false;
        case TransportError => return false;
        case Exception =>
          retries := retries + 1;
          if retries >= MAX_RETRIES {
            index := (index + 1) % count;
            retries := 0;
          }
      }
      ok := true;
    }
  }

  // ---------- Fairness on an unchanged list ----------

  /** The cursor after the polls `oks`, one entry per poll. */
  function Polled(c: Cursor, n: nat, oks: seq<bool>): Cursor
    decreases |oks|
  {
    if oks == [] then c else Polled(Advance(c, n, oks[0]), n, oks[1..])
  }

  /** Poll number `k` of the window attempts operation `t`. */
  predicate Attempts(c: Cursor, n: nat, oks: seq<bool>, k: nat, t: nat)
    requires k < |oks|
  {
    Attempted(Polled(c, n, oks[..k]), n) == t
  }

  /** Steps forward, round the list, from the attempted operation to operation `t`. */
  function Distance(c: Cursor, n: nat, t: nat): (d: nat)
    requires t < n
    ensures d < n && (d == 0 <==> Attempted(c, n) == t)
  {
    var i := Attempted(c, n);
    if i <= t then t - i else t + n - i
  }

  lemma DistanceShrinks(c: Cursor, n: nat, t: nat, ok: bool)
    requires t < n && c.retries < MAX_RETRIES && Distance(c, n, t) > 0
    ensures var d := Advance(c, n, ok);
      3 * Distance(d, n, t) + c.retries + 1 <= 3 * Distance(c, n, t) + d.retries
  {
    Wraps(Attempted(c, n) + 1, n);
  }

  lemma {:induction false} Reaches(c: Cursor, n: nat, oks: seq<bool>, t: nat) returns (k: nat)
    requires t < n && c.retries < MAX_RETRIES
    requires if Distance(c, n, t) == 0 then oks != [] else |oks| + c.retries > 3 * Distance(c, n, t)
    ensures k < |oks| && Attempts(c, n, oks, k, t)
    decreases |oks|
  {
    if Distance(c, n, t) == 0 {
      k := 0;
    } else {
      DistanceShrinks(c, n, t, oks[0]);
      var j := Reaches(Advance(c, n, oks[0]), n, oks[1..], t);
      k := j + 1;
      assert oks[..k][1..] == oks[1..][..j];
    }
  }

  /** Any 3n-2 polls in a row of an unchanged list of n attempt every operation at least once. */
  lemma WindowCovers(c: Cursor, n: nat, oks: seq<bool>, t: nat)
    requires t < n && c.retries < MAX_RETRIES && |oks| == 3 * n - 2
    ensures exists k :: 0 <= k < |oks| && Attempts(c, n, oks, k, t)
  {
    var k := Reaches(c, n, oks, t);
  }

  // ---------- The bound is tight ----------

  function Failing(k: nat): seq<bool> { seq(k, _ => false) }

  /** A failing poll brings operation `t` nearer by exactly one. */
  lemma FailureShrinks(c: Cursor, n: nat, t: nat)
    requires t < n && c.retries < MAX_RETRIES && Distance(c, n, t) > 0
    ensures var d := Advance(c, n, false);
      3 * Distance(d, n, t) + c.retries + 1 == 3 * Distance(c, n, t) + d.retries
  {
    Wraps(Attempted(c, n) + 1, n);
  }

  lemma {:induction false} Misses(c: Cursor, n: nat, t: nat, k: nat)
    requires t < n && c.retries < MAX_RETRIES && k + c.retries < 3 * Distance(c, n, t)
    ensures Attempted(Polled(c, n, Failing(k)), n) != t
    decreases k
  {
    if k > 0 {
      FailureShrinks(c, n, t);
      assert Failing(k)[1..] == Failing(k - 1);
      Misses(Advance(c, n, false), n, t, k - 1);
    }
  }

  /** One poll fewer can miss an operation: the one just left, while every other one keeps failing. */
  lemma WindowTight(n: nat, t: nat)
    requires t < n
    ensures var c, window := Cursor(if t + 1 == n then 0 else t + 1, 0), Failing(3 * n - 3);
      forall k :: 0 <= k < |window| ==> !Attempts(c, n, window, k, t)
  {
    var c, window := Cursor(if t + 1 == n then 0 else t + 1, 0), Failing(3 * n - 3);
    forall k | 0 <= k < |window| ensures !Attempts(c, n, window, k, t) {
      assert window[..k] == Failing(k);
      assert Distance(c, n, t) == n - 1;
      Misses(c, n, t, k);
    }
  }
}
