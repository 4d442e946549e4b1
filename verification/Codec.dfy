/**
 * Register words to typed integers and back: byte order, register order, bit-field placement and
 * read-modify-write merging, for every integer kind.
 */
module Codec {
  import opened Basics
  import opened Bits
  import opened Bytes
  import opened Cells

  datatype Endian = Big | Little

  datatype WordOrder = Normal | Reversed

  datatype IntKind = U8 | U16 | U32 | U64 | U128 | I8 | I16 | I32 | I64 | I128 {
    function Bits(): (n: nat)
      ensures n in {8, 16, 32, 64, 128}
    {
      match this
      case U8 | I8 => 8
      case U16 | I16 => 16
      case U32 | I32 => 32
      case U64 | I64 => 64
      case U128 | I128 => 128
    }

    predicate Signed() {
      I8? || I16? || I32? || I64? || I128?
    }

    function RegisterWidth(): nat { Max(Bits(), 16) / 16 }
  }

  type U128 = n: nat | n < Pow2(128) witness 0

  datatype Format = Format(kind: IntKind, endian: Endian, order: WordOrder, mask: U128) {
    function Bits(): nat { kind.Bits() }

    function Width(): nat { kind.RegisterWidth() }

    /** The field's bit offset. */
    function Shift(): nat { if mask == 0 then 0 else TrailingZeros(mask) }

    /** The mask sets no bit at or above the kind's width, or is the all-ones default. */
    predicate Fits() {
      mask == Pow2(128) - 1 || mask < Pow2(Bits())
    }
  }

  /** A typed integer: `v` is a value of `kind`. */
  datatype Value = Value(kind: IntKind, v: int)

  predicate Typed(x: Value) {
    var half: int := Pow2(x.kind.Bits() - 1);
    if x.kind.Signed() then -half <= x.v < half else 0 <= x.v < 2 * half
  }

  datatype CodecError = TooFewBytes | BitFieldWidth | ValueFormatMismatch

  /** The two's-complement bit pattern of a value. */
  function Pattern(x: Value): (p: nat)
    requires Typed(x)
    ensures p < Pow2(x.kind.Bits())
  {
    if x.v < 0 then x.v + Pow2(x.kind.Bits()) else x.v
  }

  /** The value of a kind with bit pattern `p`. */
  function Reinterpret(kind: IntKind, p: nat): (x: Value)
    requires p < Pow2(kind.Bits())
    ensures x.kind == kind && Typed(x) && Pattern(x) == p
  {
    if kind.Signed() && p >= Pow2(kind.Bits() - 1) then Value(kind, p - Pow2(kind.Bits())) else Value(kind, p)
  }

  lemma PatternInjective(x: Value, y: Value)
    requires Typed(x) && Typed(y) && x.kind == y.kind && Pattern(x) == Pattern(y)
    ensures x == y
  {
  }

  // ---------- Words ----------

  function OrderBytes(e: Endian, bs: seq<Byte>): seq<Byte> { if e == Big then bs else Reverse(bs) }

  function OrderWords(o: WordOrder, ws: seq<Word>): seq<Word> { if o == Normal then ws else Reverse(ws) }

  /** The words of an integer in byte order, register order not yet applied. */
  function ToWords(n: nat, bits: nat, e: Endian): seq<Word> {
    Pack(OrderBytes(e, ToBytes(n, bits / 8)))
  }

  /** A byte-wide value in its own register; the shift drops whatever is above the low byte. */
  function ByteWord(x: Word, e: Endian): seq<Word> {
    LowBound(Shl(x, 8), 16);
    PowOctet(8);
    Octet(0);
    if e == Big then [x] else [Low(Shl(x, 8), 16)]
  }

  /** The unsigned number that a run of words carries. */
  function Number(e: Endian, o: WordOrder, ws: seq<Word>): nat {
    Low(Fold(OrderBytes(e, Unpack(OrderWords(o, ws)))), 16 * |ws|)
  }

  /** The raw bits of the first `Width()` words. */
  function Raw(f: Format, ws: seq<Word>): nat
    requires |ws| >= f.Width()
  {
    Number(f.endian, f.order, ws[..f.Width()])
  }

  /** `field = (raw & mask) >> shift`, cast to the kind's width. */
  function Field(f: Format, raw: nat): nat {
    Low(Shr(And(raw, f.mask), f.Shift()), f.Bits())
  }

  function Decode(f: Format, ws: seq<Word>): (r: Result<Value, CodecError>)
    ensures r.Ok? ==> Typed(r.value) && r.value.kind == f.kind
  {
    if |ws| < f.Width() then Err(TooFewBytes)
    else if !f.Fits() then Err(BitFieldWidth)
    else
      LowBound(Shr(And(Raw(f, ws), f.mask), f.Shift()), f.Bits());
      Ok(Reinterpret(f.kind, Field(f, Raw(f, ws))))
  }

  /** `raw = (pattern << shift) & mask`, in 128 bits, cast to the kind's width. */
  function Place(f: Format, p: nat): (val: nat)
    ensures val < Pow2(f.Bits())
  {
    LowBound(And(Low(Shl(p, f.Shift()), 128), f.mask), f.Bits());
    Low(And(Low(Shl(p, f.Shift()), 128), f.mask), f.Bits())
  }

  /** An `i8` bit pattern widened to 16 bits. */
  function SignExtend(p: nat): nat
    requires p < 256
  {
    if p >= 128 then 0xFF00 + p else p
  }

  /** A placed field as words of its kind; only a signed byte carries its sign into the high byte. */
  function KindWords(kind: IntKind, val: nat, e: Endian): seq<Word>
    requires val < Pow2(kind.Bits())
  {
    Octet(0);
    match kind
    case U8 => ByteWord(val, e)
    case I8 => ByteWord(SignExtend(val), e)
    case _ => ToWords(val, kind.Bits(), e)
  }

  function EncodeValue(f: Format, x: Value): (r: Result<seq<Word>, CodecError>)
    requires Typed(x)
  {
    if !f.Fits() then Err(BitFieldWidth)
    else if x.kind != f.kind then Err(ValueFormatMismatch)
    else
      var val := Place(f, Pattern(x));
      Ok(OrderWords(f.order, KindWords(f.kind, val, f.endian)))
  }

  function MaskWords(f: Format): seq<Word> {
    var m := Low(f.mask, f.Bits());
    LowBound(f.mask, f.Bits());
    Octet(0);
    OrderWords(f.order, if f.Bits() == 8 then ByteWord(m, f.endian) else ToWords(m, f.Bits(), f.endian))
  }

  // ---------- Read-modify-write ----------

  function MergeBits(o: Word, v: Word, m: Word): nat {
    Or(And(o, Not(m, 16)), And(v, m))
  }

  lemma MergeBit(o: Word, v: Word, m: Word, i: nat)
    ensures Bit(MergeBits(o, v, m), i) == if Bit(m, i) then Bit(v, i) else Bit(o, i)
  {
    OrBit(And(o, Not(m, 16)), And(v, m), i);
    AndBit(o, Not(m, 16), i);
    AndBit(v, m, i);
    NotBit(m, 16, i);
    WordHighBits(o, i);
    WordHighBits(m, i);
  }

  lemma WordHighBits(w: Word, i: nat)
    ensures i >= 16 ==> !Bit(w, i)
  {
    PowOctet(8);
    Octet(0);
    if i >= 16 { HighBits(w, 16, i); }
  }

  lemma MergeBound(o: Word, v: Word, m: Word)
    ensures MergeBits(o, v, m) < 0x1_0000
  {
    forall i: nat | i >= 16 ensures !Bit(MergeBits(o, v, m), i) {
      MergeBit(o, v, m, i);
      WordHighBits(v, i);
      WordHighBits(o, i);
    }
    LowBitsOnly(MergeBits(o, v, m), 16);
    PowOctet(8);
    Octet(0);
  }

  function MergedWord(o: Word, v: Word, m: Word): Word {
    MergeBound(o, v, m);
    MergeBits(o, v, m)
  }

  function WordOr(ws: seq<Word>, i: nat, default: Word): Word {
    if i < |ws| then ws[i] else default
  }

  /** Writes the owned bits of `value` into `old`; words missing from `old` count as 0. */
  function MergeWrite(f: Format, before: seq<Word>, value: seq<Word>): (ws: seq<Word>)
    ensures |ws| == |value|
  {
    var mask := MaskWords(f);
    seq<Word>(|value|, i requires 0 <= i < |value| =>
      MergedWord(WordOr(before, i, 0), value[i], WordOr(mask, i, 0xFFFF)))
  }
}
