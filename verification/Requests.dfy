/**
 * Each Modbus request spelled out: which table and addresses it touches, what it must be permitted,
 * which words it stores and what its reply shows. Nothing here is said through the handler's plans.
 * Request semantics follow section 6 of the MODBUS Application Protocol Specification V1.1b3.
 */
module Requests {
  import opened Basics
  import opened Cells
  import opened Slices
  import opened Walk
  import opened FlatStore
  import opened History
  import opened Permissions
  import opened Server
  import opened ServerRuns

  // ---------- Admission ----------

  ghost predicate Readable(s: Store<SlaveKey>, key: SlaveKey, ty: CellType, ad: nat, n: nat) {
    key in s && forall a: nat :: ad <= a < ad + n ==> a in s[key] && s[key][a].kind.ty == ty && s[key][a].kind.access != Access.Write
  }

  ghost predicate Writable(s: Store<SlaveKey>, key: SlaveKey, ty: CellType, ad: nat, n: nat) {
    key in s && forall a: nat :: ad <= a < ad + n ==> a in s[key] && s[key][a].kind.ty == ty && s[key][a].kind.access != Access.Read
  }

  lemma ReadableIs(s: Store<SlaveKey>, key: SlaveKey, ty: CellType, ad: nat, n: nat)
    ensures Readable(s, key, ty, ad, n) <==> key in s && AllAllow(s[key], NewRange(ad, n), ty, Access.Read)
  {
    if key in s {
      forall a: nat | a in s[key] ensures Allows(s[key][a], ty, Access.Read) <==>
        ty == s[key][a].kind.ty && s[key][a].kind.access != Access.Write { CellPermits(s[key][a], ty); }
      assert forall a: nat :: NewRange(ad, n).Has(a) <==> ad <= a < ad + n;
    }
  }

  lemma WritableIs(s: Store<SlaveKey>, key: SlaveKey, ty: CellType, ad: nat, n: nat)
    ensures Writable(s, key, ty, ad, n) <==> key in s && AllAllow(s[key], NewRange(ad, n), ty, Access.Write)
  {
    if key in s {
      forall a: nat | a in s[key] ensures Allows(s[key][a], ty, Access.Write) <==>
        ty == s[key][a].kind.ty && s[key][a].kind.access != Access.Read { CellPermits(s[key][a], ty); }
      assert forall a: nat :: NewRange(ad, n).Has(a) <==> ad <= a < ad + n;
    }
  }

  /** What the store must permit for the request to be carried out. */
  ghost predicate Permitted(s: Store<SlaveKey>, unit: UnitId, req: Request) {
    match req
    case ReadCoils(ad, n) => Readable(s, SlaveKey(unit, CoilTable), Coil, ad, n)
    case ReadDiscreteInputs(ad, n) => Readable(s, SlaveKey(unit, DiscreteInputTable), Coil, ad, n)
    case ReadInputRegisters(ad, n) => Readable(s, SlaveKey(unit, InputTable), Register, ad, n)
    case ReadHoldingRegisters(ad, n) => Readable(s, SlaveKey(unit, HoldingTable), Register, ad, n)
    case WriteMultipleRegisters(ad, ws) => Writable(s, SlaveKey(unit, HoldingTable), Register, ad, |ws|)
    case WriteSingleRegister(ad, _) => Writable(s, SlaveKey(unit, HoldingTable), Register, ad, 1)
    case WriteMultipleCoils(ad, bs) => Writable(s, SlaveKey(unit, CoilTable), Coil, ad, |bs|)
    case WriteSingleCoil(ad, _) => Writable(s, SlaveKey(unit, CoilTable), Coil, ad, 1)
    case ReadWriteMultipleRegisters(ra, n, wa, ws) =>
      Readable(s, SlaveKey(unit, HoldingTable), Register, ra, n) && Writable(s, SlaveKey(unit, HoldingTable), Register, wa, |ws|)
    case Unsupported(_) => false
  }

  /** A request is answered exactly when the store permits it; otherwise the exception says why. */
  lemma AnsweredExactly(s: Store<SlaveKey>, unit: UnitId, req: Request)
    ensures Answer(s, unit, req).Ok? <==> Permitted(s, unit, req)
    ensures Answer(s, unit, req) == Err(IllegalFunction) <==> req.Unsupported?
    ensures Answer(s, unit, req).Err? && !req.Unsupported? ==> Answer(s, unit, req) == Err(IllegalDataAddress)
  {
    match req
    case ReadCoils(ad, n) => ReadableIs(s, SlaveKey(unit, CoilTable), Coil, ad, n);
    case ReadDiscreteInputs(ad, n) => ReadableIs(s, SlaveKey(unit, DiscreteInputTable), Coil, ad, n);
    case ReadInputRegisters(ad, n) => ReadableIs(s, SlaveKey(unit, InputTable), Register, ad, n);
    case ReadHoldingRegisters(ad, n) => ReadableIs(s, SlaveKey(unit, HoldingTable), Register, ad, n);
    case WriteMultipleRegisters(ad, ws) => WritableIs(s, SlaveKey(unit, HoldingTable), Register, ad, |ws|);
    case WriteSingleRegister(ad, _) => WritableIs(s, SlaveKey(unit, HoldingTable), Register, ad, 1);
    case WriteMultipleCoils(ad, bs) => WritableIs(s, SlaveKey(unit, CoilTable), Coil, ad, |bs|);
    case WriteSingleCoil(ad, _) => WritableIs(s, SlaveKey(unit, CoilTable), Coil, ad, 1);
    case ReadWriteMultipleRegisters(ra, n, wa, ws) =>
      ReadableIs(s, SlaveKey(unit, HoldingTable), Register, ra, n);
      WritableIs(s, SlaveKey(unit, HoldingTable), Register, wa, |ws|);
    case Unsupported(_) =>
  }

  // ---------- Replies ----------

  ghost predicate ShowsBits(f: Flat, ad: nat, n: nat, bits: seq<bool>) {
    |bits| == n && forall a: nat :: ad <= a < ad + n ==> a in f && (bits[a - ad] <==> f[a].value != 0)
  }

  ghost predicate ShowsWords(f: Flat, ad: nat, n: nat, words: seq<Word>) {
    |words| == n && forall a: nat :: ad <= a < ad + n ==> a in f && words[a - ad] == f[a].value
  }

  /** What the reply to an admitted request shows of the store before it. */
  ghost predicate ReplyShows(s: Store<SlaveKey>, unit: UnitId, req: Request, resp: Response)
    requires Permitted(s, unit, req)
  {
    match req
    case ReadCoils(ad, n) => resp.CoilsRead? && ShowsBits(s[SlaveKey(unit, CoilTable)], ad, n, resp.bits)
    case ReadDiscreteInputs(ad, n) => resp.DiscreteInputsRead? && ShowsBits(s[SlaveKey(unit, DiscreteInputTable)], ad, n, resp.bits)
    case ReadInputRegisters(ad, n) => resp.InputRegistersRead? && ShowsWords(s[SlaveKey(unit, InputTable)], ad, n, resp.words)
    case ReadHoldingRegisters(ad, n) => resp.HoldingRegistersRead? && ShowsWords(s[SlaveKey(unit, HoldingTable)], ad, n, resp.words)
    case WriteMultipleRegisters(ad, ws) => resp.RegistersWritten? && resp.address == ad && (|ws| < 0x1_0000 ==> resp.quantity == |ws|)
    case WriteSingleRegister(ad, w) => resp == RegisterWritten(ad, w)
    case WriteMultipleCoils(ad, bs) => resp.CoilsWritten? && resp.address == ad && (|bs| < 0x1_0000 ==> resp.quantity == |bs|)
    case WriteSingleCoil(ad, b) => resp == CoilWritten(ad, b)
    case ReadWriteMultipleRegisters(ra, n, _, _) => resp.RegistersReadWritten? && ShowsWords(s[SlaveKey(unit, HoldingTable)], ra, n, resp.words)
    case Unsupported(_) => true
  }

  lemma WordsShow(f: Flat, ad: nat, n: nat)
    requires Covers(f, NewRange(ad, n))
    ensures ShowsWords(f, ad, n, Words(f, NewRange(ad, n))) && ShowsBits(f, ad, n, Bits(Words(f, NewRange(ad, n))))
  {
    assert forall a: nat :: ad <= a < ad + n ==> NewRange(ad, n).Has(a);
  }

  lemma ReplyExactly(s: Store<SlaveKey>, unit: UnitId, req: Request)
    requires Permitted(s, unit, req)
    ensures Answer(s, unit, req).Ok? && ReplyShows(s, unit, req, Answer(s, unit, req).value)
  {
    AnsweredExactly(s, unit, req);
    match req
    case ReadCoils(ad, n) => WordsShow(s[SlaveKey(unit, CoilTable)], ad, n);
    case ReadDiscreteInputs(ad, n) => WordsShow(s[SlaveKey(unit, DiscreteInputTable)], ad, n);
    case ReadInputRegisters(ad, n) => WordsShow(s[SlaveKey(unit, InputTable)], ad, n);
    case ReadHoldingRegisters(ad, n) => WordsShow(s[SlaveKey(unit, HoldingTable)], ad, n);
    case ReadWriteMultipleRegisters(ra, n, _, _) => WordsShow(s[SlaveKey(unit, HoldingTable)], ra, n);
    case _ =>
  }

  // ---------- Stored words ----------

  /** The word the request puts at an address of a table: a coil is 1 when set and 0 when not. */
  function StoredBy(req: Request, kind: Kind, a: nat): Option<Word> {
    match req
    case WriteSingleCoil(ad, b) =>
      if kind == CoilTable && a == ad then Some(if b then 1 else 0) else None
    case WriteMultipleCoils(ad, bs) =>
      if kind == CoilTable && ad <= a < ad + |bs| then Some(if bs[a - ad] then 1 else 0) else None
    case WriteSingleRegister(ad, w) =>
      if kind == HoldingTable && a == ad then Some(w) else None
    case WriteMultipleRegisters(ad, ws) =>
      if kind == HoldingTable && ad <= a < ad + |ws| then Some(ws[a - ad]) else None
    case ReadWriteMultipleRegisters(_, _, wa, ws) =>
      if kind == HoldingTable && wa <= a < wa + |ws| then Some(ws[a - wa]) else None
    case _ => None
  }

  ghost function StoredWord(s: Store<SlaveKey>, unit: UnitId, req: Request, key: SlaveKey, a: nat): Option<Word> {
    if key.unit == unit && Permitted(s, unit, req) then StoredBy(req, key.kind, a) else None
  }

  lemma OpStores(unit: UnitId, req: Request, key: SlaveKey, a: nat)
    requires WriteOf(unit, req) != []
    ensures var op := WriteOf(unit, req)[0];
      && |WriteOf(unit, req)| == 1 && op.CheckedWrite? && |op.values| == Length(op.range)
      && (op.id == key && op.range.Has(a) <==> key.unit == unit && StoredBy(req, key.kind, a).Some?)
      && (op.id == key && op.range.Has(a) ==> StoredBy(req, key.kind, a) == Some(op.values[a - op.range.start]))
  {
  }

  lemma AdmittedSucceeds(s: Store<SlaveKey>, unit: UnitId, req: Request)
    requires Answer(s, unit, req).Ok? && WriteOf(unit, req) != []
    ensures Succeeds(s, WriteOf(unit, req)[0])
    ensures Served(s, unit, req) == After(s, WriteOf(unit, req)[0])
  {
    WriteAnswer(s, unit, req, None);
  }

  lemma NoWordStored(unit: UnitId, req: Request, kind: Kind, a: nat)
    requires WriteOf(unit, req) == []
    ensures StoredBy(req, kind, a) == None
  {
  }

  /** After a request every cell holds the word the request stored there, or what it held before. */
  lemma ServedCell(s: Store<SlaveKey>, unit: UnitId, req: Request, key: SlaveKey, a: nat)
    requires key in s && a in s[key]
    ensures var w := StoredWord(s, unit, req, key, a);
      CellOf(Served(s, unit, req), key, a) == if w.Some? then Some(s[key][a].(value := w.value)) else Some(s[key][a])
  {
    AnsweredExactly(s, unit, req);
    if WriteOf(unit, req) == [] {
      NoWordStored(unit, req, key.kind, a);
    } else if Answer(s, unit, req).Ok? {
      AdmittedSucceeds(s, unit, req);
      OpStores(unit, req, key, a);
      StepCell(s, WriteOf(unit, req)[0], key, a);
    }
  }

  // ---------- Whole runs ----------

  /** The word the last admitted request of the run put at an address. */
  ghost function LastStoredWord(s: Store<SlaveKey>, xs: seq<Exchange>, key: SlaveKey, a: nat): Option<Word>
    decreases |xs|
  {
    if xs == [] then None else
      var x := xs[|xs|-1];
      var w := StoredWord(s, x.unit, x.req, key, a);
      if w.Some? then w else LastStoredWord(s, xs[..|xs|-1], key, a)
  }

  lemma PermittedShape(s: Store<SlaveKey>, t: Store<SlaveKey>, unit: UnitId, req: Request)
    requires SameShape(s, t)
    ensures Permitted(s, unit, req) <==> Permitted(t, unit, req)
  {
    AnsweredExactly(s, unit, req);
    AnsweredExactly(t, unit, req);
    ShapeAdmits(s, t, unit, req);
  }

  /** After any run each cell holds the word of the last admitted request that stored there, or its first word. */
  lemma {:induction false} RunCell(s: Store<SlaveKey>, xs: seq<Exchange>, key: SlaveKey, a: nat)
    requires key in s && a in s[key]
    ensures var w := LastStoredWord(s, xs, key, a);
      CellOf(RunStore(s, xs), key, a) == if w.Some? then Some(s[key][a].(value := w.value)) else Some(s[key][a])
    decreases |xs|
  {
    if xs != [] {
      var n := |xs| - 1;
      var t := RunStore(s, xs[..n]);
      RunCell(s, xs[..n], key, a);
      RunSnoc(s, xs, n);
      assert xs[..n+1] == xs;
      RunIsWrites(s, xs[..n]);
      PermittedShape(s, t, xs[n].unit, xs[n].req);
      ServedCell(t, xs[n].unit, xs[n].req, key, a);
    }
  }

  /** The bit the last admitted coil write of the run gave a coil. */
  function CoilSetBy(req: Request, a: nat): Option<bool> {
    match req
    case WriteSingleCoil(ad, b) => if a == ad then Some(b) else None
    case WriteMultipleCoils(ad, bs) => if ad <= a < ad + |bs| then Some(bs[a - ad]) else None
    case _ => None
  }

  ghost function LastCoil(s: Store<SlaveKey>, xs: seq<Exchange>, unit: UnitId, a: nat): Option<bool>
    decreases |xs|
  {
    if xs == [] then None else
      var x := xs[|xs|-1];
      if x.unit == unit && Permitted(s, unit, x.req) && CoilSetBy(x.req, a).Some? then CoilSetBy(x.req, a)
      else LastCoil(s, xs[..|xs|-1], unit, a)
  }

  lemma {:induction false} LastCoilWord(s: Store<SlaveKey>, xs: seq<Exchange>, unit: UnitId, a: nat)
    ensures LastStoredWord(s, xs, SlaveKey(unit, CoilTable), a) ==
      match LastCoil(s, xs, unit, a) case Some(b) => Some(if b then 1 else 0) case None => None
    decreases |xs|
  {
    if xs != [] {
      LastCoilWord(s, xs[..|xs|-1], unit, a);
      var x := xs[|xs|-1];
      match x.req
      case WriteSingleCoil(_, _) =>
      case WriteMultipleCoils(_, _) =>
      case _ => assert StoredBy(x.req, CoilTable, a) == None;
    }
  }

  /** A coil reads as true exactly when the last admitted write to it set it; unwritten, when its first word is not 0. */
  lemma CoilReads(s: Store<SlaveKey>, xs: seq<Exchange>, unit: UnitId, ad: Word, n: Word, a: nat)
    requires Permitted(RunStore(s, xs), unit, ReadCoils(ad, n)) && ad <= a < ad + n
    ensures var r := Answer(RunStore(s, xs), unit, ReadCoils(ad, n));
      && SlaveKey(unit, CoilTable) in s && a in s[SlaveKey(unit, CoilTable)]
      && r.Ok? && r.value.CoilsRead? && |r.value.bits| == n
      && (r.value.bits[a - ad] <==>
          match LastCoil(s, xs, unit, a) case Some(b) => b case None => s[SlaveKey(unit, CoilTable)][a].value != 0)
  {
    var key := SlaveKey(unit, CoilTable);
    RunIsWrites(s, xs);
    ReplyExactly(RunStore(s, xs), unit, ReadCoils(ad, n));
    RunCell(s, xs, key, a);
    LastCoilWord(s, xs, unit, a);
  }
}
