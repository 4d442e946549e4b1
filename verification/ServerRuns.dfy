/** What holds over every sequence of requests, whatever the units, tables and links involved. */
module ServerRuns {
  import opened Basics
  import opened Cells
  import opened Slices
  import opened Walk
  import opened FlatStore
  import opened History
  import opened Memory
  import opened Server

  datatype Exchange = Exchange(unit: UnitId, req: Request, serial: bool)

  ghost function RunStore(s: Store<SlaveKey>, xs: seq<Exchange>): Store<SlaveKey>
    decreases |xs|
  {
    if xs == [] then s else RunStore(Served(s, xs[0].unit, xs[0].req), xs[1..])
  }

  lemma {:induction false} RunSnoc(s: Store<SlaveKey>, xs: seq<Exchange>, n: nat)
    requires n < |xs|
    ensures RunStore(s, xs[..n+1]) == Served(RunStore(s, xs[..n]), xs[n].unit, xs[n].req)
    decreases n
  {
    assert xs[..n+1][1..] == xs[1..][..n];
    if n > 0 {
      assert xs[..n][1..] == xs[1..][..n-1];
      RunSnoc(Served(s, xs[0].unit, xs[0].req), xs[1..], n - 1);
    }
  }

  lemma ShapeAllows(f: Flat, g: Flat, r: Range, ty: CellType, access: Access)
    requires forall a: nat :: a in f <==> a in g
    requires forall a: nat :: a in f ==> f[a].kind == g[a].kind
    ensures AllAllow(f, r, ty, access) <==> AllAllow(g, r, ty, access)
  {
  }

  /** Whether a request is admitted depends on the declared regions, never on stored words. */
  lemma ShapeAdmits(s: Store<SlaveKey>, t: Store<SlaveKey>, unit: UnitId, req: Request)
    requires SameShape(s, t)
    ensures Answer(s, unit, req).Ok? <==> Answer(t, unit, req).Ok?
    ensures Performed(s, unit, req) == Performed(t, unit, req)
    ensures NoRegion(s, unit) <==> NoRegion(t, unit)
  {
    match PlanOf(req)
    case None =>
    case Some(p) =>
      var key := SlaveKey(unit, p.kind);
      if key in s {
        if p.read.Some? { ShapeAllows(s[key], t[key], p.read.value, p.ty, Access.Read); }
        if p.store.Some? { ShapeAllows(s[key], t[key], p.store.value.0, p.ty, Access.Write); }
      }
  }

  /** The writes of a whole run, each judged by the regions declared before the run. */
  ghost function Accepted(s: Store<SlaveKey>, xs: seq<Exchange>): (ops: seq<Op<SlaveKey>>)
    ensures forall k :: 0 <= k < |ops| ==> ops[k].CheckedWrite?
  {
    if xs == [] then [] else Performed(s, xs[0].unit, xs[0].req) + Accepted(s, xs[1..])
  }

  lemma {:induction false} AcceptedShape(s: Store<SlaveKey>, t: Store<SlaveKey>, xs: seq<Exchange>)
    requires SameShape(s, t)
    ensures Accepted(s, xs) == Accepted(t, xs)
  {
    if xs != [] {
      ShapeAdmits(s, t, xs[0].unit, xs[0].req);
      AcceptedShape(s, t, xs[1..]);
    }
  }

  /** A run of requests is exactly its accepted writes, performed in order. */
  lemma {:induction false} RunIsWrites(s: Store<SlaveKey>, xs: seq<Exchange>)
    ensures RunStore(s, xs) == Final(s, Accepted(s, xs))
    ensures SameShape(s, RunStore(s, xs))
  {
    if xs != [] {
      var first := Performed(s, xs[0].unit, xs[0].req);
      var t := Served(s, xs[0].unit, xs[0].req);
      FinalShape(s, first);
      AcceptedShape(s, t, xs[1..]);
      RunIsWrites(t, xs[1..]);
      FinalConcat(s, first, Accepted(s, xs[1..]));
    }
    FinalShape(s, Accepted(s, xs));
  }

  lemma {:induction false} CheckedNeverTorn(s: Store<SlaveKey>, ops: seq<Op<SlaveKey>>)
    requires forall k :: 0 <= k < |ops| ==> ops[k].CheckedWrite?
    ensures !Torn(s, ops)
  {
    if ops != [] { CheckedNeverTorn(After(s, ops[0]), ops[1..]); }
  }

  /** The tap's events alone rebuild the store after any run, and take it back to the start. */
  lemma RunJournal(s: Store<SlaveKey>, xs: seq<Exchange>)
    ensures Replay(s, Events(s, Accepted(s, xs))) == RunStore(s, xs)
    ensures Undo(RunStore(s, xs), Events(s, Accepted(s, xs))) == s
  {
    RunIsWrites(s, xs);
    CheckedNeverTorn(s, Accepted(s, xs));
    Journal(s, Accepted(s, xs));
  }

  lemma {:induction false} AcceptedSnoc(s: Store<SlaveKey>, xs: seq<Exchange>, n: nat)
    requires n < |xs|
    ensures Accepted(s, xs[..n+1]) == Accepted(s, xs[..n]) + Performed(s, xs[n].unit, xs[n].req)
    decreases n
  {
    assert xs[..n+1][1..] == xs[1..][..n];
    if n == 0 {
      assert Accepted(s, xs[1..][..0]) == [];
    } else {
      assert xs[..n][1..] == xs[1..][..n-1];
      AcceptedSnoc(s, xs[1..], n - 1);
    }
  }

  /** One more request adds to the journal exactly the events of its own write. */
  lemma EventsSnoc(s: Store<SlaveKey>, xs: seq<Exchange>, n: nat)
    requires n < |xs|
    ensures var t := RunStore(s, xs[..n]);
      Events(s, Accepted(s, xs[..n+1])) ==
      Events(s, Accepted(s, xs[..n])) + Events(t, Performed(t, xs[n].unit, xs[n].req))
  {
    RunIsWrites(s, xs[..n]);
    ShapeAdmits(s, RunStore(s, xs[..n]), xs[n].unit, xs[n].req);
    AcceptedSnoc(s, xs, n);
    EventsConcat(s, Accepted(s, xs[..n]), Performed(s, xs[n].unit, xs[n].req));
  }

  /** The store and the tap's log after the requests `xs`, from `s` and `log`. */
  ghost predicate Reached(memory: Memory<SlaveKey>, s: Store<SlaveKey>, log: Option<seq<StoreWrite<SlaveKey>>>, xs: seq<Exchange>)
    reads memory
  {
    && memory.Valid() && memory.Contents() == RunStore(s, xs)
    && Logged(memory, log, Events(s, Accepted(s, xs)))
  }

  lemma NothingServed(memory: Memory<SlaveKey>)
    requires memory.Valid()
    ensures Reached(memory, memory.Contents(), memory.tap, [])
  {
    assert memory.tap.Some? ==> memory.tap.value + [] == memory.tap.value;
  }

  /** A tap installed before the requests tells them all: replayed or undone. */
  lemma TapTells(memory: Memory<SlaveKey>, s: Store<SlaveKey>, xs: seq<Exchange>)
    requires Reached(memory, s, Some([]), xs)
    ensures Replay(s, memory.tap.value) == memory.Contents() && Undo(memory.Contents(), memory.tap.value) == s
  {
    var es := Events(s, Accepted(s, xs));
    assert [] + es == es;
    RunJournal(s, xs);
  }

  method ServeNext(memory: Memory<SlaveKey>, xs: seq<Exchange>, n: nat, ghost s: Store<SlaveKey>,
                   ghost log: Option<seq<StoreWrite<SlaveKey>>>)
    returns (r: Result<Option<Response>, ExceptionCode>)
    requires n < |xs| && Reached(memory, s, log, xs[..n])
    modifies memory
    ensures Reached(memory, s, log, xs[..n+1])
    ensures r == OnWire(RunStore(s, xs[..n]), xs[n].unit, xs[n].req, xs[n].serial)
  {
    ghost var t := RunStore(s, xs[..n]);
    RunSnoc(s, xs, n);
    EventsSnoc(s, xs, n);
    if log.Some? {
      Appended(log.value, Events(s, Accepted(s, xs[..n])), Events(t, Performed(t, xs[n].unit, xs[n].req)));
    }
    r := HandleRequest(memory, xs[n].unit, xs[n].req, xs[n].serial);
  }

  /** The answers given so far are those the store of each moment calls for. */
  ghost predicate AnswersMatch(answers: seq<Result<Option<Response>, ExceptionCode>>, s: Store<SlaveKey>, xs: seq<Exchange>)
    requires |answers| <= |xs|
  {
    forall i :: 0 <= i < |answers| ==>
      answers[i] == OnWire(RunStore(s, xs[..i]), xs[i].unit, xs[i].req, xs[i].serial)
  }

  lemma NextMatches(answers: seq<Result<Option<Response>, ExceptionCode>>, r: Result<Option<Response>, ExceptionCode>,
                    s: Store<SlaveKey>, xs: seq<Exchange>)
    requires |answers| < |xs| && AnswersMatch(answers, s, xs)
    requires var n := |answers|; r == OnWire(RunStore(s, xs[..n]), xs[n].unit, xs[n].req, xs[n].serial)
    ensures AnswersMatch(answers + [r], s, xs)
  {
  }

  /** Serving request after request: the answers, the store, and what the tap has been handed. */
  method ServeAll(memory: Memory<SlaveKey>, xs: seq<Exchange>)
    returns (answers: seq<Result<Option<Response>, ExceptionCode>>)
    requires memory.Valid()
    modifies memory
    ensures memory.Valid() && memory.Contents() == RunStore(old(memory.Contents()), xs)
    ensures |answers| == |xs| && forall i :: 0 <= i < |xs| ==>
              answers[i] == OnWire(RunStore(old(memory.Contents()), xs[..i]), xs[i].unit, xs[i].req, xs[i].serial)
    ensures Logged(memory, old(memory.tap), Events(old(memory.Contents()), Accepted(old(memory.Contents()), xs)))
    ensures old(memory.tap) == Some([]) ==>
              && Replay(old(memory.Contents()), memory.tap.value) == memory.Contents()
              && Undo(memory.Contents(), memory.tap.value) == old(memory.Contents())
  {
    ghost var s, log := memory.Contents(), memory.tap;
    answers := [];
    NothingServed(memory);
    assert xs[..0] == [];
    for n := 0 to |xs|
      invariant Reached(memory, s, log, xs[..n])
      invariant |answers| == n && AnswersMatch(answers, s, xs)
    {
      var r := ServeNext(memory, xs, n, s, log);
      NextMatches(answers, r, s, xs);
      answers := answers + [r];
    }
    assert xs[..|xs|] == xs;
    if log == Some([]) { TapTells(memory, s, xs); }
  }

  /** No sequence of requests changes a read-only cell, a region, or an access right. */
  lemma RunKeeps(s: Store<SlaveKey>, xs: seq<Exchange>, key: SlaveKey, a: nat)
    ensures SameShape(s, RunStore(s, xs))
    ensures CellOf(s, key, a).Some? && CellOf(s, key, a).value.kind.access == Access.Read ==>
              CellOf(RunStore(s, xs), key, a) == CellOf(s, key, a)
  {
    RunIsWrites(s, xs);
    if CellOf(s, key, a).Some? && CellOf(s, key, a).value.kind.access == Access.Read {
      ReadOnlyFixed(s, Accepted(s, xs), key, a);
    }
  }

  /** `w` is the word of the last of the writes that landed on the cell, or its first word if none did. */
  ghost predicate LastStored<K>(s: Store<K>, ops: seq<Op<K>>, id: K, a: nat, w: Word) {
    CellOf(s, id, a).Some? &&
    ((w == CellOf(s, id, a).value.value && forall k :: 0 <= k < |ops| ==> !Lands(s, ops[k], id, a))
     || exists j: nat :: IsLast(s, ops, id, a, j) && w == ops[j].values[a - ops[j].range.start])
  }

  /** Any word an admitted read shows is the last accepted write's at that address, or the first word there. */
  lemma ReadSeesLastWrite(s: Store<SlaveKey>, xs: seq<Exchange>, unit: UnitId, p: Plan, a: nat)
    requires p.read.Some? && p.read.value.Has(a) && Admits(RunStore(s, xs), unit, p)
    ensures var key := SlaveKey(unit, p.kind);
      var shown := Words(RunStore(s, xs)[key], p.read.value)[a - p.read.value.start];
      LastStored(s, Accepted(s, xs), key, a, shown)
  {
    var key, t := SlaveKey(unit, p.kind), RunStore(s, xs);
    ShownWord(t, unit, p, a);
    assert t == Final(s, Accepted(s, xs)) by { RunIsWrites(s, xs); }
    LastWord(s, Accepted(s, xs), key, a, t[key][a].value);
  }

  lemma ShownWord(t: Store<SlaveKey>, unit: UnitId, p: Plan, a: nat)
    requires p.read.Some? && p.read.value.Has(a) && Admits(t, unit, p)
    ensures var key := SlaveKey(unit, p.kind);
      a in t[key] && Words(t[key], p.read.value)[a - p.read.value.start] == t[key][a].value
  {
  }

  lemma LastWord<K>(s: Store<K>, ops: seq<Op<K>>, id: K, a: nat, w: Word)
    requires CellOf(Final(s, ops), id, a).Some? && CellOf(Final(s, ops), id, a).value.value == w
    ensures LastStored(s, ops, id, a, w)
  {
    LastWriteWins(s, ops, id, a);
  }

  /** A request that is refused or met with silence changes nothing. */
  lemma RefusalKeepsStore(s: Store<SlaveKey>, unit: UnitId, req: Request, serial: bool)
    requires OnWire(s, unit, req, serial).Err? || OnWire(s, unit, req, serial) == Ok(None)
    ensures Served(s, unit, req) == s && Performed(s, unit, req) == []
  {
  }

  /** Silence is the answer exactly on a serial link, to a supported request, for a wholly unmapped unit. */
  lemma SilenceExactly(s: Store<SlaveKey>, unit: UnitId, req: Request, serial: bool)
    ensures OnWire(s, unit, req, serial) == Ok(None) <==> serial && NoRegion(s, unit) && !req.Unsupported?
  {
    match PlanOf(req)
    case None =>
    case Some(p) =>
      assert NoRegion(s, unit) ==> SlaveKey(unit, p.kind) !in s;
  }

  /**
   * Section 6.17 of the MODBUS Application Protocol Specification V1.1b3 performs the write of
   * Read/Write Multiple Registers first; this handler reads first. The two replies agree exactly
   * when every address in both ranges is written with the word it already holds.
   */
  lemma ReadFirstOrWriteFirst(s: Store<SlaveKey>, unit: UnitId, ra: Word, n: Word, wa: Word, ws: seq<Word>)
    requires Answer(s, unit, ReadWriteMultipleRegisters(ra, n, wa, ws)).Ok?
    ensures var key, rr, wr := SlaveKey(unit, HoldingTable), NewRange(ra, n), NewRange(wa, |ws|);
      var t := Served(s, unit, ReadWriteMultipleRegisters(ra, n, wa, ws));
      && Fully(t, key, rr) && Fully(s, key, rr)
      && (Words(t[key], rr) == Words(s[key], rr) <==>
          forall a: nat :: rr.Has(a) && wr.Has(a) ==> s[key][a].value == ws[a - wa])
  {
    var key, rr, wr := SlaveKey(unit, HoldingTable), NewRange(ra, n), NewRange(wa, |ws|);
    var f, g := s[key], Written(s[key], wr, ws, wr.end);
    ServedTable(s, unit, ra, n, wa, ws);
    assert Covers(f, rr) && Covers(g, rr);
    WordsDiffer(f, g, rr);
  }

  /** The table after an admitted Read/Write Multiple Registers. */
  lemma ServedTable(s: Store<SlaveKey>, unit: UnitId, ra: Word, n: Word, wa: Word, ws: seq<Word>)
    requires Answer(s, unit, ReadWriteMultipleRegisters(ra, n, wa, ws)).Ok?
    ensures var key, wr := SlaveKey(unit, HoldingTable), NewRange(wa, |ws|);
      var t := Served(s, unit, ReadWriteMultipleRegisters(ra, n, wa, ws));
      key in s && key in t && Covers(s[key], NewRange(ra, n)) && Covers(s[key], wr) && t[key] == Written(s[key], wr, ws, wr.end)
  {
    var key, wr := SlaveKey(unit, HoldingTable), NewRange(wa, |ws|);
    assert Covers(s[key], wr);
    assert CoveredEnd(s[key], wr) == wr.end by { CoveredEndUnique(s[key], wr, wr.end); }
    WriteAnswer(s, unit, ReadWriteMultipleRegisters(ra, n, wa, ws), None);
  }

  lemma OneRegister(c: Cell)
    requires c.kind == CellKind(Register, ReadWrite)
    ensures var f: Flat := imap[0 := c];
      AllAllow(f, NewRange(0, 1), Register, Access.Read) && AllAllow(f, NewRange(0, 1), Register, Access.Write)
  {
  }

  /** The least case: a register holding 0, read and written with 7 in one request, replies 0 and not 7. */
  lemma ReadFirstExample(s: Store<SlaveKey>, unit: UnitId)
    requires var c := Cell(CellKind(Register, ReadWrite), 0);
      s == map[SlaveKey(unit, HoldingTable) := imap[0 := c]]
    ensures var req := ReadWriteMultipleRegisters(0, 1, 0, [7]);
      var key, rr := SlaveKey(unit, HoldingTable), NewRange(0, 1);
      && Answer(s, unit, req).Ok? && Fully(s, key, rr) && Fully(Served(s, unit, req), key, rr)
      && Words(Served(s, unit, req)[key], rr) != Words(s[key], rr)
  {
    OneRegister(Cell(CellKind(Register, ReadWrite), 0));
    assert Admits(s, unit, PlanOf(ReadWriteMultipleRegisters(0, 1, 0, [7])).value);
    ReadFirstOrWriteFirst(s, unit, 0, 1, 0, [7]);
    assert NewRange(0, 1).Has(0);
  }

  lemma WordsDiffer(f: Flat, g: Flat, r: Range)
    requires Covers(f, r) && Covers(g, r)
    ensures Words(f, r) == Words(g, r) <==> forall a: nat :: r.Has(a) ==> f[a].value == g[a].value
  {
    if Words(f, r) == Words(g, r) {
      forall a: nat | r.Has(a) ensures f[a].value == g[a].value {
        assert Words(f, r)[a - r.start] == Words(g, r)[a - r.start];
      }
    } else {
      var i :| 0 <= i < Length(r) && Words(f, r)[i] != Words(g, r)[i];
      assert r.Has(r.start + i);
    }
  }
}
