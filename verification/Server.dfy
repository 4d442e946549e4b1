/**
 * The Modbus server's request handler over the shared register store: from a unit and a decoded
 * request to a response, an exception, or silence.
 */
module Server {
  import opened Basics
  import opened Cells
  import opened Walk
  import opened FlatStore
  import opened Memory

  type UnitId = u: int | 0 <= u < 256

  datatype Kind = CoilTable | DiscreteInputTable | HoldingTable | InputTable

  datatype SlaveKey = SlaveKey(unit: UnitId, kind: Kind)

  datatype FunctionCode =
    | FcReadCoils | FcReadDiscreteInputs | FcReadHoldingRegisters | FcReadInputRegisters
    | FcWriteSingleCoil | FcWriteMultipleCoils | FcWriteSingleRegister | FcWriteMultipleRegisters
    | FcReadWriteMultipleRegisters

  function FromSlaveFn(unit: UnitId, fc: FunctionCode): SlaveKey {
    SlaveKey(unit, match fc
      case FcReadCoils | FcWriteSingleCoil | FcWriteMultipleCoils => CoilTable
      case FcReadDiscreteInputs => DiscreteInputTable
      case FcReadHoldingRegisters | FcWriteSingleRegister | FcWriteMultipleRegisters => HoldingTable
      case FcReadInputRegisters => InputTable
      case _ => HoldingTable)
  }

  function AllKindsFor(unit: UnitId): seq<SlaveKey> {
    [SlaveKey(unit, CoilTable), SlaveKey(unit, DiscreteInputTable),
     SlaveKey(unit, HoldingTable), SlaveKey(unit, InputTable)]
  }

  /** The enumeration names every key that can ever hold a region for the unit, and no other. */
  lemma AllKindsComplete(unit: UnitId, key: SlaveKey)
    ensures key in AllKindsFor(unit) <==> key.unit == unit
  {
    var keys := AllKindsFor(unit);
    assert keys[0] in keys && keys[1] in keys && keys[2] in keys && keys[3] in keys;
    match key.kind
    case CoilTable =>
    case DiscreteInputTable =>
    case HoldingTable =>
    case InputTable =>
  }

  datatype Request =
    | ReadCoils(address: Word, quantity: Word)
    | ReadDiscreteInputs(address: Word, quantity: Word)
    | ReadInputRegisters(address: Word, quantity: Word)
    | ReadHoldingRegisters(address: Word, quantity: Word)
    | WriteMultipleRegisters(address: Word, registers: seq<Word>)
    | WriteSingleRegister(address: Word, value: Word)
    | WriteMultipleCoils(address: Word, coils: seq<bool>)
    | WriteSingleCoil(address: Word, coil: bool)
    | ReadWriteMultipleRegisters(readAddress: Word, readQuantity: Word, writeAddress: Word, registers: seq<Word>)
    | Unsupported(code: nat)

  datatype Response =
    | CoilsRead(bits: seq<bool>)
    | DiscreteInputsRead(bits: seq<bool>)
    | InputRegistersRead(words: seq<Word>)
    | HoldingRegistersRead(words: seq<Word>)
    | RegistersWritten(address: Word, quantity: Word)
    | RegisterWritten(address: Word, value: Word)
    | CoilsWritten(address: Word, quantity: Word)
    | CoilWritten(address: Word, coil: bool)
    | RegistersReadWritten(words: seq<Word>)

  datatype ExceptionCode = IllegalFunction | IllegalDataAddress

  function Bits(words: seq<Word>): seq<bool> {
    seq(|words|, i requires 0 <= i < |words| => words[i] != 0)
  }

  function BitWord(b: bool): Word { if b then 1 else 0 }

  function BitWords(bits: seq<bool>): (ws: seq<Word>)
    ensures |ws| == |bits|
  {
    seq<Word>(|bits|, i requires 0 <= i < |bits| => BitWord(bits[i]))
  }

  /** A length as the wire's 16-bit quantity: the cast truncates. */
  function Quantity(n: nat): Word { n % 0x1_0000 }

  // ---------- Specification on the flat store ----------

  /** What a request asks of one register table: words to read, then words to store. */
  datatype Plan = Plan(kind: Kind, ty: CellType, read: Option<Range>, store: Option<(Range, seq<Word>)>)

  function PlanOf(req: Request): Option<Plan> {
    match req
    case ReadCoils(a, n) => Some(Plan(CoilTable, Coil, Some(NewRange(a, n)), None))
    case ReadDiscreteInputs(a, n) => Some(Plan(DiscreteInputTable, Coil, Some(NewRange(a, n)), None))
    case ReadInputRegisters(a, n) => Some(Plan(InputTable, Register, Some(NewRange(a, n)), None))
    case ReadHoldingRegisters(a, n) => Some(Plan(HoldingTable, Register, Some(NewRange(a, n)), None))
    case WriteMultipleRegisters(a, ws) => Some(Plan(HoldingTable, Register, None, Some((NewRange(a, |ws|), ws))))
    case WriteSingleRegister(a, w) => Some(Plan(HoldingTable, Register, None, Some((NewRange(a, 1), [w]))))
    case WriteMultipleCoils(a, bs) => Some(Plan(CoilTable, Coil, None, Some((NewRange(a, |bs|), BitWords(bs)))))
    case WriteSingleCoil(a, b) => Some(Plan(CoilTable, Coil, None, Some((NewRange(a, 1), [BitWord(b)]))))
    case ReadWriteMultipleRegisters(ra, n, wa, ws) =>
      Some(Plan(HoldingTable, Register, Some(NewRange(ra, n)), Some((NewRange(wa, |ws|), ws))))
    case Unsupported(_) => None
  }

  /** Every addressed cell exists, has the request's type, and permits the access asked for. */
  ghost predicate Admits(s: Store<SlaveKey>, unit: UnitId, p: Plan) {
    && SlaveKey(unit, p.kind) in s
    && (p.read.Some? ==> AllAllow(s[SlaveKey(unit, p.kind)], p.read.value, p.ty, Access.Read))
    && (p.store.Some? ==> AllAllow(s[SlaveKey(unit, p.kind)], p.store.value.0, p.ty, Access.Write))
  }

  function Reply(req: Request, words: seq<Word>): Response
    requires !req.Unsupported?
  {
    match req
    case ReadCoils(_, _) => CoilsRead(Bits(words))
    case ReadDiscreteInputs(_, _) => DiscreteInputsRead(Bits(words))
    case ReadInputRegisters(_, _) => InputRegistersRead(words)
    case ReadHoldingRegisters(_, _) => HoldingRegistersRead(words)
    case WriteMultipleRegisters(a, ws) => RegistersWritten(a, Quantity(|ws|))
    case WriteSingleRegister(a, w) => RegisterWritten(a, w)
    case WriteMultipleCoils(a, bs) => CoilsWritten(a, Quantity(|bs|))
    case WriteSingleCoil(a, b) => CoilWritten(a, b)
    case ReadWriteMultipleRegisters(_, _, _, _) => RegistersReadWritten(words)
  }

  /** One rule for every request: all its cells must be admitted, and the reply shows the store as it was. */
  ghost function Answer(s: Store<SlaveKey>, unit: UnitId, req: Request): Result<Response, ExceptionCode> {
    match PlanOf(req)
    case None => Err(IllegalFunction)
    case Some(p) =>
      if !Admits(s, unit, p) then Err(IllegalDataAddress)
      else Ok(Reply(req, if p.read.Some? then Words(s[SlaveKey(unit, p.kind)], p.read.value) else []))
  }

  /** The checked store write a request amounts to, if it stores at all. */
  function WriteOf(unit: UnitId, req: Request): seq<Op<SlaveKey>> {
    match PlanOf(req)
    case Some(Plan(kind, ty, _, Some((r, ws)))) => [CheckedWrite(Remote, SlaveKey(unit, kind), ty, r, ws)]
    case _ => []
  }

  /** The writes a request performs: none unless it is admitted. */
  ghost function Performed(s: Store<SlaveKey>, unit: UnitId, req: Request): seq<Op<SlaveKey>> {
    if Answer(s, unit, req).Ok? then WriteOf(unit, req) else []
  }

  ghost function Served(s: Store<SlaveKey>, unit: UnitId, req: Request): Store<SlaveKey> {
    Final(s, Performed(s, unit, req))
  }

  ghost predicate NoRegion(s: Store<SlaveKey>, unit: UnitId) {
    forall key: SlaveKey :: key in s ==> key.unit != unit
  }

  /** The answer on the wire: on a physical serial link an unmapped unit stays silent. */
  ghost function OnWire(s: Store<SlaveKey>, unit: UnitId, req: Request, serial: bool)
    : Result<Option<Response>, ExceptionCode>
  {
    match Answer(s, unit, req)
    case Ok(pdu) => Ok(Some(pdu))
    case Err(e) => if serial && e == IllegalDataAddress && NoRegion(s, unit) then Ok(None) else Err(e)
  }

  // ---------- Implementation ----------

  method HandleRead(memory: Memory<SlaveKey>, unit: UnitId, fc: FunctionCode, ty: CellType, addr: Word, cnt: Word)
    returns (r: Result<seq<Word>, ExceptionCode>)
    requires memory.Valid()
    ensures var key, range := FromSlaveFn(unit, fc), NewRange(addr, cnt);
      if CheckRead(memory.Contents(), key, ty, range).Ok?
      then r == Ok(Words(memory.Contents()[key], range)) else r == Err(IllegalDataAddress)
  {
    var result := memory.Read(FromSlaveFn(unit, fc), ty, NewRange(addr, cnt));
    r := match result case Ok(v) => Ok(v) case Err(_) => Err(IllegalDataAddress);
  }

  ghost predicate Logged(memory: Memory<SlaveKey>, before: Option<seq<StoreWrite<SlaveKey>>>, es: seq<StoreWrite<SlaveKey>>)
    reads memory
  {
    memory.tap == if before.None? then None else Some(before.value + es)
  }

  method HandleWriteMulti(memory: Memory<SlaveKey>, unit: UnitId, fc: FunctionCode, ty: CellType, addr: Word, values: seq<Word>)
    returns (r: Result<Word, ExceptionCode>)
    requires memory.Valid()
    modifies memory
    ensures memory.Valid()
    ensures var op := CheckedWrite(Remote, FromSlaveFn(unit, fc), ty, NewRange(addr, |values|), values);
      && r == (if Succeeds(old(memory.Contents()), op) then Ok(Quantity(|values|)) else Err(IllegalDataAddress))
      && memory.Contents() == After(old(memory.Contents()), op)
      && Logged(memory, old(memory.tap), Reported(old(memory.Contents()), op))
  {
    var result := memory.WriteFrom(Remote, FromSlaveFn(unit, fc), ty, NewRange(addr, |values|), values);
    r := match result case Ok(_) => Ok(Quantity(|values|)) case Err(_) => Err(IllegalDataAddress);
  }

  method HandleWriteSingle(memory: Memory<SlaveKey>, unit: UnitId, fc: FunctionCode, ty: CellType, addr: Word, stored: Word)
    returns (r: Result<(), ExceptionCode>)
    requires memory.Valid()
    modifies memory
    ensures memory.Valid()
    ensures var op := CheckedWrite(Remote, FromSlaveFn(unit, fc), ty, NewRange(addr, 1), [stored]);
      && r == (if Succeeds(old(memory.Contents()), op) then Ok(()) else Err(IllegalDataAddress))
      && memory.Contents() == After(old(memory.Contents()), op)
      && Logged(memory, old(memory.tap), Reported(old(memory.Contents()), op))
  {
    var result := memory.WriteFrom(Remote, FromSlaveFn(unit, fc), ty, NewRange(addr, 1), [stored]);
    r := match result case Ok(_) => Ok(()) case Err(_) => Err(IllegalDataAddress);
  }

  datatype Outcome = NotAddressable(error: MemoryError) | Rejected | Done(words: seq<Word>)

  /** Both checks, then the read, then the write, all under one guard. */
  method ReadThenWrite(memory: Memory<SlaveKey>, unit: UnitId, readRange: Range, writeRange: Range, values: seq<Word>)
    returns (o: Outcome)
    requires memory.Valid() && |values| == Length(writeRange)
    modifies memory
    ensures memory.Valid() && !o.Rejected?
    ensures var s, key := old(memory.Contents()), SlaveKey(unit, HoldingTable);
      var op := CheckedWrite(Remote, key, Register, writeRange, values);
      if CheckRead(s, key, Register, readRange).Ok? && CheckWrite(s, key, Register, writeRange).Ok?
      then o == Done(Words(s[key], readRange)) && memory.Contents() == After(s, op) &&
           Logged(memory, old(memory.tap), Reported(s, op))
      else o.NotAddressable? && memory.Contents() == s && memory.tap == old(memory.tap)
  {
    var key := FromSlaveFn(unit, FcReadWriteMultipleRegisters);
    var readable := memory.Readable(key, Register, readRange);
    if readable.Err? { return NotAddressable(readable.error); }
    var writable := memory.Writable(key, Register, writeRange);
    if writable.Err? { return NotAddressable(writable.error); }
    var words := memory.Read(key, Register, readRange);
    if words.Err? { return Rejected; }
    var written := memory.WriteFrom(Remote, key, Register, writeRange, values);
    o := if written.Ok? then Done(words.value) else Rejected;
  }

  /** `r` answers the request, and the store and its tap moved on as specified from `s` and `log`. */
  ghost predicate Answered(memory: Memory<SlaveKey>, s: Store<SlaveKey>, log: Option<seq<StoreWrite<SlaveKey>>>,
                           unit: UnitId, req: Request, r: Result<Response, ExceptionCode>)
    reads memory
  {
    && memory.Valid()
    && r == Answer(s, unit, req)
    && memory.Contents() == Served(s, unit, req)
    && Logged(memory, log, Events(s, Performed(s, unit, req)))
  }

  lemma ReadAnswer(s: Store<SlaveKey>, unit: UnitId, req: Request)
    requires PlanOf(req).Some? && PlanOf(req).value.store.None? && PlanOf(req).value.read.Some?
    ensures var p := PlanOf(req).value;
      var key := SlaveKey(unit, p.kind);
      Answer(s, unit, req) == if CheckRead(s, key, p.ty, p.read.value).Ok?
                              then Ok(Reply(req, Words(s[key], p.read.value))) else Err(IllegalDataAddress)
  {
  }

  method AnswerReadBits(memory: Memory<SlaveKey>, unit: UnitId, req: Request)
    returns (r: Result<Response, ExceptionCode>)
    requires memory.Valid() && (req.ReadCoils? || req.ReadDiscreteInputs?)
    ensures r == Answer(memory.Contents(), unit, req)
  {
    ReadAnswer(memory.Contents(), unit, req);
    match req
    case ReadCoils(a, n) =>
      var v := HandleRead(memory, unit, FcReadCoils, Coil, a, n);
      r := match v case Ok(ws) => Ok(CoilsRead(Bits(ws))) case Err(e) => Err(e);
    case ReadDiscreteInputs(a, n) =>
      var v := HandleRead(memory, unit, FcReadDiscreteInputs, Coil, a, n);
      r := match v case Ok(ws) => Ok(DiscreteInputsRead(Bits(ws))) case Err(e) => Err(e);
  }

  method AnswerReadWords(memory: Memory<SlaveKey>, unit: UnitId, req: Request)
    returns (r: Result<Response, ExceptionCode>)
    requires memory.Valid() && (req.ReadInputRegisters? || req.ReadHoldingRegisters?)
    ensures r == Answer(memory.Contents(), unit, req)
  {
    ReadAnswer(memory.Contents(), unit, req);
    match req
    case ReadInputRegisters(a, n) =>
      var v := HandleRead(memory, unit, FcReadInputRegisters, Register, a, n);
      r := match v case Ok(ws) => Ok(InputRegistersRead(ws)) case Err(e) => Err(e);
    case ReadHoldingRegisters(a, n) =>
      var v := HandleRead(memory, unit, FcReadHoldingRegisters, Register, a, n);
      r := match v case Ok(ws) => Ok(HoldingRegistersRead(ws)) case Err(e) => Err(e);
  }

  /** A request that performs no write leaves store and tap as they are. */
  lemma NothingPerformed(memory: Memory<SlaveKey>, unit: UnitId, req: Request, r: Result<Response, ExceptionCode>)
    requires memory.Valid() && r == Answer(memory.Contents(), unit, req) && WriteOf(unit, req) == []
    ensures Answered(memory, memory.Contents(), memory.tap, unit, req, r)
  {
    assert memory.tap.Some? ==> memory.tap.value + [] == memory.tap.value;
  }

  method AnswerRead(memory: Memory<SlaveKey>, unit: UnitId, req: Request)
    returns (r: Result<Response, ExceptionCode>)
    requires memory.Valid()
    requires req.ReadCoils? || req.ReadDiscreteInputs? || req.ReadInputRegisters? || req.ReadHoldingRegisters?
    ensures Answered(memory, memory.Contents(), memory.tap, unit, req, r)
  {
    if req.ReadCoils? || req.ReadDiscreteInputs? {
      r := AnswerReadBits(memory, unit, req);
    } else {
      r := AnswerReadWords(memory, unit, req);
    }
    NothingPerformed(memory, unit, req, r);
  }

  lemma WriteAnswer(s: Store<SlaveKey>, unit: UnitId, req: Request, before: Option<seq<StoreWrite<SlaveKey>>>)
    requires PlanOf(req).Some? && PlanOf(req).value.store.Some?
    ensures var p := PlanOf(req).value;
      var op := CheckedWrite(Remote, SlaveKey(unit, p.kind), p.ty, p.store.value.0, p.store.value.1);
      && WriteOf(unit, req) == [op] && Final(s, [op]) == After(s, op) && Events(s, [op]) == Reported(s, op)
      && (p.read.None? ==> Answer(s, unit, req) == if Succeeds(s, op) then Ok(Reply(req, [])) else Err(IllegalDataAddress))
      && (p.read.None? ==> Served(s, unit, req) == After(s, op) && Events(s, Performed(s, unit, req)) == Reported(s, op))
    ensures Final(s, []) == s && Events(s, []) == []
    ensures before.Some? ==> before.value + [] == before.value
  {
    var p := PlanOf(req).value;
    var op := CheckedWrite(Remote, SlaveKey(unit, p.kind), p.ty, p.store.value.0, p.store.value.1);
    assert [op][1..] == [];
    assert Events(s, [op]) == Reported(s, op) + [];
  }

  method AnswerWrite(memory: Memory<SlaveKey>, unit: UnitId, req: Request)
    returns (r: Result<Response, ExceptionCode>)
    requires memory.Valid()
    requires req.WriteMultipleRegisters? || req.WriteSingleRegister? || req.WriteMultipleCoils? || req.WriteSingleCoil?
    modifies memory
    ensures Answered(memory, old(memory.Contents()), old(memory.tap), unit, req, r)
  {
    ghost var s, op := memory.Contents(), WriteOf(unit, req)[0];
    ghost var expected := Answer(s, unit, req);
    WriteAnswer(s, unit, req, memory.tap);
    match req
    case WriteMultipleRegisters(a, ws) =>
      assert op == CheckedWrite(Remote, FromSlaveFn(unit, FcWriteMultipleRegisters), Register, NewRange(a, |ws|), ws);
      var v := HandleWriteMulti(memory, unit, FcWriteMultipleRegisters, Register, a, ws);
      r := match v case Ok(n) => Ok(RegistersWritten(a, n)) case Err(e) => Err(e);
      assert r == expected;
    case WriteSingleRegister(a, w) =>
      assert op == CheckedWrite(Remote, FromSlaveFn(unit, FcWriteSingleRegister), Register, NewRange(a, 1), [w]);
      var v := HandleWriteSingle(memory, unit, FcWriteSingleRegister, Register, a, w);
      r := match v case Ok(_) => Ok(RegisterWritten(a, w)) case Err(e) => Err(e);
      assert r == expected;
    case WriteMultipleCoils(a, bs) =>
      var values := BitWords(bs);
      assert op == CheckedWrite(Remote, FromSlaveFn(unit, FcWriteMultipleCoils), Coil, NewRange(a, |values|), values);
      var v := HandleWriteMulti(memory, unit, FcWriteMultipleCoils, Coil, a, values);
      r := match v case Ok(n) => Ok(CoilsWritten(a, n)) case Err(e) => Err(e);
      assert r == expected;
    case WriteSingleCoil(a, b) =>
      assert op == CheckedWrite(Remote, FromSlaveFn(unit, FcWriteSingleCoil), Coil, NewRange(a, 1), [BitWord(b)]);
      var v := HandleWriteSingle(memory, unit, FcWriteSingleCoil, Coil, a, BitWord(b));
      r := match v case Ok(_) => Ok(CoilWritten(a, b)) case Err(e) => Err(e);
      assert r == expected;
  }

  lemma ReadWriteAnswer(s: Store<SlaveKey>, unit: UnitId, req: Request)
    requires req.ReadWriteMultipleRegisters?
    ensures var key, rr := SlaveKey(unit, HoldingTable), NewRange(req.readAddress, req.readQuantity);
      var admitted := CheckRead(s, key, Register, rr).Ok? &&
                      CheckWrite(s, key, Register, NewRange(req.writeAddress, |req.registers|)).Ok?;
      && Answer(s, unit, req) == (if admitted then Ok(RegistersReadWritten(Words(s[key], rr))) else Err(IllegalDataAddress))
      && Performed(s, unit, req) == (if admitted then WriteOf(unit, req) else [])
  {
  }

  method AnswerReadWrite(memory: Memory<SlaveKey>, unit: UnitId, req: Request)
    returns (r: Result<Response, ExceptionCode>)
    requires memory.Valid() && req.ReadWriteMultipleRegisters?
    modifies memory
    ensures Answered(memory, old(memory.Contents()), old(memory.tap), unit, req, r)
  {
    WriteAnswer(memory.Contents(), unit, req, memory.tap);
    ReadWriteAnswer(memory.Contents(), unit, req);
    var o := ReadThenWrite(memory, unit, NewRange(req.readAddress, req.readQuantity),
                           NewRange(req.writeAddress, |req.registers|), req.registers);
    r := match o
      case Done(v) => Ok(RegistersReadWritten(v))
      case _ => Err(IllegalDataAddress);
  }

  method AnswerRequest(memory: Memory<SlaveKey>, unit: UnitId, req: Request)
    returns (r: Result<Response, ExceptionCode>)
    requires memory.Valid()
    modifies memory
    ensures Answered(memory, old(memory.Contents()), old(memory.tap), unit, req, r)
  {
    match req
    case ReadCoils(_, _) => r := AnswerRead(memory, unit, req);
    case ReadDiscreteInputs(_, _) => r := AnswerRead(memory, unit, req);
    case ReadInputRegisters(_, _) => r := AnswerRead(memory, unit, req);
    case ReadHoldingRegisters(_, _) => r := AnswerRead(memory, unit, req);
    case WriteMultipleRegisters(_, _) => r := AnswerWrite(memory, unit, req);
    case WriteSingleRegister(_, _) => r := AnswerWrite(memory, unit, req);
    case WriteMultipleCoils(_, _) => r := AnswerWrite(memory, unit, req);
    case WriteSingleCoil(_, _) => r := AnswerWrite(memory, unit, req);
    case ReadWriteMultipleRegisters(_, _, _, _) => r := AnswerReadWrite(memory, unit, req);
    case Unsupported(_) =>
      r := Err(IllegalFunction);
      NothingPerformed(memory, unit, req, r);
  }

  method SlaveHasNoRegion(memory: Memory<SlaveKey>, unit: UnitId) returns (none: bool)
    requires memory.Valid()
    ensures none <==> NoRegion(memory.Contents(), unit)
  {
    var keys := AllKindsFor(unit);
    for i := 0 to |keys|
      invariant forall j :: 0 <= j < i ==> keys[j] !in memory.Contents()
    {
      if memory.ContainsKey(keys[i]) {
        AllKindsComplete(unit, keys[i]);
        return false;
      }
    }
    none := true;
    forall key: SlaveKey | key in memory.Contents() ensures key.unit != unit {
      AllKindsComplete(unit, key);
    }
  }

  method HandleRequest(memory: Memory<SlaveKey>, unit: UnitId, req: Request, serial: bool)
    returns (r: Result<Option<Response>, ExceptionCode>)
    requires memory.Valid()
    modifies memory
    ensures memory.Valid()
    ensures r == OnWire(old(memory.Contents()), unit, req, serial)
    ensures memory.Contents() == Served(old(memory.Contents()), unit, req)
    ensures Logged(memory, old(memory.tap),
                   Events(old(memory.Contents()), Performed(old(memory.Contents()), unit, req)))
  {
    var result := AnswerRequest(memory, unit, req);
    match result
    case Ok(pdu) => r := Ok(Some(pdu));
    case Err(e) =>
      var silent := false;
      if e == IllegalDataAddress && serial { silent := SlaveHasNoRegion(memory, unit); }
      r := if silent then Ok(None) else Err(e);
  }
}
