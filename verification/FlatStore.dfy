/**
 * The register store as its users see it: one flat address-to-cell map per device key. Every
 * operation of the interval store is specified here, on that map alone.
 */
module FlatStore {
  import opened Basics
  import opened Cells
  import opened Slices
  import opened Declaration
  import opened Walk

  datatype MemoryError =
    | UnknownKey
    | AddressNotReadable
    | AddressNotWritable
    | LengthMismatch(expected: nat, got: nat)

  datatype WriteSource = Remote | Poll | Command | Script

  /** A completed write as the tap sees it. */
  datatype StoreWrite<K> = StoreWrite(source: WriteSource, id: K, range: Range, before: seq<Word>, after: seq<Word>)

  type Store<!K> = map<K, Flat>

  ghost function DeviceOf<K>(s: Store<K>, id: K): Flat {
    if id in s then s[id] else imap[]
  }

  /** Whether a declaration of `ranges` succeeds, and the store after it. */
  ghost function Declare<K>(s: Store<K>, id: K, kind: CellKind, ranges: seq<Range>): (bool, Store<K>) {
    if !Declarable(DeviceOf(s, id), kind, ranges) then (false, s)
    else if id !in s && ranges == [] then (true, s)
    else (true, s[id := Declared(DeviceOf(s, id), kind, ranges)])
  }

  ghost function CheckRead<K>(s: Store<K>, id: K, ty: CellType, r: Range): Result<(), MemoryError> {
    if id !in s then Err(UnknownKey)
    else if AllAllow(s[id], r, ty, Access.Read) then Ok(()) else Err(AddressNotReadable)
  }

  ghost function CheckWrite<K>(s: Store<K>, id: K, ty: CellType, r: Range): Result<(), MemoryError> {
    if id !in s then Err(UnknownKey)
    else if AllAllow(s[id], r, ty, Access.Write) then Ok(()) else Err(AddressNotWritable)
  }

  /** The store with `values` in the covered prefix of `r`. */
  ghost function Put<K>(s: Store<K>, id: K, r: Range, values: seq<Word>): Store<K>
    requires |values| == Length(r) && id in s
  {
    s[id := Written(s[id], r, values, CoveredEnd(s[id], r))]
  }

  ghost function WriteOutcome<K>(s: Store<K>, id: K, ty: CellType, r: Range, values: seq<Word>): Result<(), MemoryError> {
    if Length(r) != |values| then Err(LengthMismatch(Length(r), |values|)) else CheckWrite(s, id, ty, r)
  }

  ghost predicate Fully<K>(s: Store<K>, id: K, r: Range) {
    id in s && Covers(s[id], r)
  }

  // ---------- Runs of sourced writes under a tap ----------

  datatype Op<K> =
    | CheckedWrite(source: WriteSource, id: K, ty: CellType, range: Range, values: seq<Word>)
    | ForcedWrite(source: WriteSource, id: K, range: Range, values: seq<Word>)

  ghost predicate Succeeds<K>(s: Store<K>, op: Op<K>) {
    if op.CheckedWrite? then WriteOutcome(s, op.id, op.ty, op.range, op.values).Ok?
    else |op.values| == Length(op.range) && Fully(s, op.id, op.range)
  }

  /** The store after `op`. A forced write with a gap under it still stores the words before the gap. */
  ghost function After<K>(s: Store<K>, op: Op<K>): Store<K> {
    if |op.values| == Length(op.range) && op.id in s && (op.ForcedWrite? || Succeeds(s, op))
    then Put(s, op.id, op.range, op.values) else s
  }

  lemma SucceedsFully<K>(s: Store<K>, op: Op<K>)
    requires Succeeds(s, op)
    ensures |op.values| == Length(op.range) && Fully(s, op.id, op.range)
  {
  }

  ghost function Reported<K>(s: Store<K>, op: Op<K>): (es: seq<StoreWrite<K>>) {
    if Succeeds(s, op) then
      SucceedsFully(s, op);
      [StoreWrite(op.source, op.id, op.range, Words(s[op.id], op.range), op.values)]
    else []
  }

  ghost function Final<K>(s: Store<K>, ops: seq<Op<K>>): Store<K> {
    if ops == [] then s else Final(After(s, ops[0]), ops[1..])
  }

  ghost function Events<K>(s: Store<K>, ops: seq<Op<K>>): seq<StoreWrite<K>> {
    if ops == [] then [] else Reported(s, ops[0]) + Events(After(s, ops[0]), ops[1..])
  }

  ghost function Stored<K>(s: Store<K>, id: K, r: Range, values: seq<Word>): Store<K> {
    if |values| == Length(r) && id in s then Put(s, id, r, values) else s
  }

  ghost function Replay<K>(s: Store<K>, es: seq<StoreWrite<K>>): Store<K> {
    if es == [] then s else Replay(Stored(s, es[0].id, es[0].range, es[0].after), es[1..])
  }

  ghost function Undo<K>(s: Store<K>, es: seq<StoreWrite<K>>): Store<K> {
    if es == [] then s else
      var e := es[|es|-1];
      Undo(Stored(s, e.id, e.range, e.before), es[..|es|-1])
  }

  /** A forced write that stores new words ahead of a gap and reports nothing. */
  ghost predicate Tears<K>(s: Store<K>, op: Op<K>) {
    op.ForcedWrite? && |op.values| == Length(op.range) && op.id in s && !Covers(s[op.id], op.range) &&
    exists a: nat :: op.range.Has(a) && a < CoveredEnd(s[op.id], op.range) &&
                     s[op.id][a].value != op.values[a - op.range.start]
  }

  ghost predicate Torn<K>(s: Store<K>, ops: seq<Op<K>>) {
    ops != [] && (Tears(s, ops[0]) || Torn(After(s, ops[0]), ops[1..]))
  }

  lemma PutSame<K>(s: Store<K>, id: K, r: Range, values: seq<Word>)
    requires id in s && |values| == Length(r)
    ensures Put(s, id, r, values) == s <==>
      forall a: nat :: r.Has(a) && a < CoveredEnd(s[id], r) ==> s[id][a].value == values[a - r.start]
  {
    WrittenSame(s[id], r, values, CoveredEnd(s[id], r));
    assert Put(s, id, r, values)[id] == Written(s[id], r, values, CoveredEnd(s[id], r));
  }

  lemma WrittenSame(f: Flat, r: Range, values: seq<Word>, p: nat)
    requires |values| == Length(r) && r.start <= p <= r.end && forall a: nat :: r.Has(a) && a < p ==> a in f
    ensures Written(f, r, values, p) == f <==>
      forall a: nat :: r.Has(a) && a < p ==> f[a].value == values[a - r.start]
  {
    var g := Written(f, r, values, p);
    if g == f {
      forall a: nat | r.Has(a) && a < p ensures f[a].value == values[a - r.start] {
        assert g[a] == f[a];
      }
    }
    if forall a: nat :: r.Has(a) && a < p ==> f[a].value == values[a - r.start] {
      assert forall a: nat :: a in f ==> g[a] == f[a];
    }
  }

  /** Storing a covered range's old words over its new ones restores the store. */
  lemma PutBack<K>(s: Store<K>, id: K, r: Range, values: seq<Word>)
    requires Fully(s, id, r) && |values| == Length(r)
    ensures Put(Put(s, id, r, values), id, r, Words(s[id], r)) == s
  {
    var f := s[id];
    CoveredEndUnique(f, r, r.end);
    var g := Written(f, r, values, r.end);
    CoveredEndUnique(g, r, r.end);
    assert Written(g, r, Words(f, r), r.end) == f;
  }

  lemma {:induction false} UndoSnoc<K>(s: Store<K>, e: StoreWrite<K>, es: seq<StoreWrite<K>>)
    ensures Undo(s, [e] + es) == Stored(Undo(s, es), e.id, e.range, e.before)
  {
    if es == [] {
      assert [e] + es == [e];
    } else {
      var last := es[|es|-1];
      assert ([e] + es)[..|es|] == [e] + es[..|es|-1];
      UndoSnoc(Stored(s, last.id, last.range, last.before), e, es[..|es|-1]);
    }
  }

  lemma StepReplay<K>(s: Store<K>, op: Op<K>)
    ensures After(s, op) == Replay(s, Reported(s, op)) <==> !Tears(s, op)
  {
    if Succeeds(s, op) {
      SucceedsFully(s, op);
      var e := Reported(s, op)[0];
      assert Replay(s, [e]) == Stored(s, e.id, e.range, e.after);
    } else if op.ForcedWrite? && |op.values| == Length(op.range) && op.id in s {
      PutSame(s, op.id, op.range, op.values);
    }
  }

  /** A forced write of two words over one declared cell fails, yet stores the first word and reports nothing. */
  lemma TornExample<K>(id: K)
    ensures var c := Cell(CellKind(Register, Access.Read), 0);
      var s: Store<K> := map[id := imap[0 := c]];
      var op := ForcedWrite(Poll, id, Range(0, 2), [7, 7]);
      && !Succeeds(s, op) && Reported(s, op) == []
      && id in After(s, op) && After(s, op)[id] == imap[0 := c.(value := 7)]
  {
    var c := Cell(CellKind(Register, Access.Read), 0);
    TornCells(c);
    var s: Store<K> := map[id := imap[0 := c]];
    assert s[id] == imap[0 := c] && !Fully(s, id, Range(0, 2));
  }

  lemma TornCells(c: Cell)
    ensures var f: Flat := imap[0 := c];
      && CoveredEnd(f, Range(0, 2)) == 1 && !Covers(f, Range(0, 2))
      && Written(f, Range(0, 2), [7, 7], 1) == imap[0 := c.(value := 7)]
  {
    var f: Flat := imap[0 := c];
    var r: Range := Range(0, 2);
    assert r.Has(1) && 1 !in f;
    CoveredEndUnique(f, r, 1);
  }

  /**
   * A run in which no forced write tears is fully described by its events: replaying them from
   * the start gives the final store, and undoing them in reverse order gives the start back.
   */
  lemma {:induction false} Journal<K>(s: Store<K>, ops: seq<Op<K>>)
    requires !Torn(s, ops)
    ensures Replay(s, Events(s, ops)) == Final(s, ops)
    ensures Undo(Final(s, ops), Events(s, ops)) == s
  {
    if ops != [] {
      var op, t := ops[0], After(s, ops[0]);
      var rest := Events(t, ops[1..]);
      Journal(t, ops[1..]);
      StepReplay(s, op);
      if Succeeds(s, op) {
        SucceedsFully(s, op);
        var e := Reported(s, op)[0];
        assert ([e] + rest)[1..] == rest;
        UndoSnoc(Final(t, ops[1..]), e, rest);
        PutBack(s, op.id, op.range, op.values);
      } else {
        assert Events(s, ops) == rest;
      }
    }
  }
}
