/**
 * The codec in plain arithmetic: what a bit field of given offset and width means, which values each
 * kind has, and when a format is usable, none of it said through the codec's own bit operators.
 */
module Fields {
  import opened Basics
  import opened Bits
  import opened Bytes
  import opened Cells
  import opened Codec
  import opened CodecLaws

  // ---------- Offset and width of a field ----------

  /** The field's offset is the position of the mask's lowest set bit. */
  lemma ShiftExactly(f: Format)
    ensures f.mask != 0 ==> Bit(f.mask, f.Shift()) && forall i: nat :: i < f.Shift() ==> !Bit(f.mask, i)
    ensures f.mask == 0 ==> f.Shift() == 0
  {
    if f.mask != 0 {
      LowestBit(f.mask);
      forall i: nat | i < f.Shift() ensures !Bit(f.mask, i) { TrailingZerosBit(f.mask, i); }
    }
  }

  /** `m` is `w` ones from bit `k` on. */
  predicate Ones(m: nat, k: nat, w: nat) { m + Pow2(k) == Pow2(k + w) }

  lemma {:induction false} OnesShl(k: nat, w: nat)
    ensures Shl(Pow2(w) - 1, k) + Pow2(k) == Pow2(k + w)
    decreases k
  {
    if k > 0 { OnesShl(k - 1, w); }
  }

  lemma OnesBit(m: nat, k: nat, w: nat, i: nat)
    requires Ones(m, k, w)
    ensures Bit(m, i) <==> k <= i < k + w
  {
    OnesShl(k, w);
    ShlBit(Pow2(w) - 1, k, i);
    AllOnes(w);
    if k <= i {
      NotBit(0, w, i - k);
      ZeroBits(i - k);
    }
  }

  /** The mask is a field of `w` bits from bit `k` on, inside the kind. */
  predicate IsField(f: Format, k: nat, w: nat) {
    Ones(f.mask, k, w) && 0 < w && k + w <= f.Bits()
  }

  lemma FieldFits(f: Format, k: nat, w: nat)
    requires IsField(f, k, w)
    ensures f.Fits() && f.Shift() == k
  {
    forall i: nat | i >= f.Bits() ensures !Bit(f.mask, i) { OnesBit(f.mask, k, w, i); }
    LowBitsOnly(f.mask, f.Bits());
    OnesBit(f.mask, k, w, k);
    ZeroBits(k);
    ShiftExactly(f);
    OnesBit(f.mask, k, w, f.Shift());
  }

  lemma FieldIs(f: Format, k: nat, w: nat, raw: nat)
    requires IsField(f, k, w)
    ensures Field(f, raw) == raw / Pow2(k) % Pow2(w)
  {
    FieldFits(f, k, w);
    var field, part := Field(f, raw), Low(Shr(raw, k), w);
    forall i: nat ensures Bit(field, i) == Bit(part, i) { FieldBitIs(f, k, w, raw, i); }
    assert field == part by { Extensional(field, part); }
    assert Shr(raw, k) == raw / Pow2(k) by { DivModPow2(raw, k); }
    assert part == Shr(raw, k) % Pow2(w) by { DivModPow2(Shr(raw, k), w); }
  }

  lemma FieldBitIs(f: Format, k: nat, w: nat, raw: nat, i: nat)
    requires IsField(f, k, w) && f.Shift() == k
    ensures Bit(Field(f, raw), i) == Bit(Low(Shr(raw, k), w), i)
  {
    assert Bit(Field(f, raw), i) <==> i < f.Bits() && Bit(raw, i + k) && Bit(f.mask, i + k) by { FieldBit(f, raw, i); }
    assert Bit(f.mask, i + k) <==> i < w by { OnesBit(f.mask, k, w, i + k); }
    assert Bit(Low(Shr(raw, k), w), i) == (i < w && Bit(raw, i + k)) by {
      LowBit(Shr(raw, k), w, i);
      ShrBit(raw, k, i);
    }
  }

  lemma PlacedInField(f: Format, k: nat, w: nat, p: nat, j: nat)
    requires IsField(f, k, w) && f.Shift() == k
    ensures Bit(Place(f, p), j) <==> k <= j < k + w && Bit(p, j - k)
  {
    PlaceBit(f, p, j);
    OnesBit(f.mask, k, w, j);
  }

  lemma PlacedBitIs(f: Format, k: nat, w: nat, p: nat, j: nat)
    requires IsField(f, k, w) && p < Pow2(w) && f.Shift() == k
    ensures Bit(Place(f, p), j) == Bit(Shl(p, k), j)
  {
    PlacedInField(f, k, w, p, j);
    ShlBit(p, k, j);
    if j >= k + w { HighBits(p, w, j - k); }
  }

  lemma PlaceIs(f: Format, k: nat, w: nat, p: nat)
    requires IsField(f, k, w) && p < Pow2(w)
    ensures Place(f, p) == p * Pow2(k)
  {
    FieldFits(f, k, w);
    var placed, shifted := Place(f, p), Shl(p, k);
    forall j: nat ensures Bit(placed, j) == Bit(shifted, j) { PlacedBitIs(f, k, w, p, j); }
    Extensional(placed, shifted);
    ShlIs(p, k);
  }

  /** Decoding a field of `w` bits from bit `k` yields those bits of the raw number, as a value of the kind. */
  lemma DecodeField(f: Format, k: nat, w: nat, ws: seq<Word>)
    requires IsField(f, k, w) && |ws| >= f.Width()
    ensures Raw(f, ws) / Pow2(k) % Pow2(w) < Pow2(f.Bits())
    ensures Decode(f, ws) == Ok(Reinterpret(f.kind, Raw(f, ws) / Pow2(k) % Pow2(w)))
  {
    FieldFits(f, k, w);
    FieldIs(f, k, w, Raw(f, ws));
    LowBound(Shr(And(Raw(f, ws), f.mask), f.Shift()), f.Bits());
  }

  /** Encoding a value that fits the field lays out its pattern moved up to bit `k`. */
  lemma EncodeField(f: Format, k: nat, w: nat, x: Value, n: nat)
    requires Typed(x) && x.kind == f.kind && IsField(f, k, w) && Pattern(x) < Pow2(w) && n == Pattern(x) * Pow2(k)
    ensures f.kind == I8 ==> n < 256
    ensures EncodeValue(f, x) == Ok(Layout(f, if f.kind == I8 && f.endian == Big then SignExtend(n) else n))
  {
    Octet(0);
    FieldFits(f, k, w);
    PlaceIs(f, k, w, Pattern(x));
    EncodeIsLayout(f, x);
  }

  // ---------- Kinds ----------

  lemma Powers()
    ensures Pow2(7) == 0x80 && Pow2(8) == 0x100 && Pow2(15) == 0x8000 && Pow2(16) == 0x1_0000
    ensures Pow2(31) == 0x8000_0000 && Pow2(32) == 0x1_0000_0000
    ensures Pow2(63) == 0x8000_0000_0000_0000 && Pow2(64) == 0x1_0000_0000_0000_0000
  {
    Octet(0);
    assert Pow2(8) == 2 * Pow2(7);
    PowOctet(7); PowOctet(8); PowOctet(15); PowOctet(16); PowOctet(23); PowOctet(24);
    PowOctet(31); PowOctet(32); PowOctet(39); PowOctet(40); PowOctet(47); PowOctet(48); PowOctet(55); PowOctet(56);
  }

  lemma WidePowers()
    ensures Pow2(127) == 0x8000_0000_0000_0000_0000_0000_0000_0000
    ensures Pow2(128) == 0x1_0000_0000_0000_0000_0000_0000_0000_0000
  {
    Powers();
    PowOctet(63); PowOctet(64); PowOctet(71); PowOctet(72); PowOctet(79); PowOctet(80); PowOctet(87); PowOctet(88);
    PowOctet(95); PowOctet(96); PowOctet(103); PowOctet(104); PowOctet(111); PowOctet(112); PowOctet(119); PowOctet(120);
  }

  /** The values of each kind, and the registers it takes. */
  lemma KindRange(kind: IntKind, v: int)
    ensures Typed(Value(kind, v)) <==>
      match kind
      case U8 => 0 <= v < 0x100
      case U16 => 0 <= v < 0x1_0000
      case U32 => 0 <= v < 0x1_0000_0000
      case U64 => 0 <= v < 0x1_0000_0000_0000_0000
      case U128 => 0 <= v < 0x1_0000_0000_0000_0000_0000_0000_0000_0000
      case I8 => -0x80 <= v < 0x80
      case I16 => -0x8000 <= v < 0x8000
      case I32 => -0x8000_0000 <= v < 0x8000_0000
      case I64 => -0x8000_0000_0000_0000 <= v < 0x8000_0000_0000_0000
      case I128 => -0x8000_0000_0000_0000_0000_0000_0000_0000 <= v < 0x8000_0000_0000_0000_0000_0000_0000_0000
    ensures kind.RegisterWidth() == match kind
      case U8 | I8 | U16 | I16 => 1
      case U32 | I32 => 2
      case U64 | I64 => 4
      case U128 | I128 => 8
  {
    Powers();
    WidePowers();
  }

  /** The bit pattern is the value modulo the kind's range. */
  lemma PatternIs(x: Value)
    requires Typed(x)
    ensures Pattern(x) == x.v % Pow2(x.kind.Bits())
  {
    Residue(x.v, Pattern(x), Pow2(x.kind.Bits()));
  }

  lemma Residue(v: int, p: nat, d: nat)
    requires p < d && (p == v || p == v + d || p == v - d)
    ensures v % d == p
  {
    if p == v + d { assert v == (-1) * d + p; }
    if p == v - d { assert v == 1 * d + p; }
  }

  /** A sign-extended byte is the same value modulo the word's range. */
  lemma SignExtendIs(x: Value)
    requires Typed(x) && x.kind == I8
    ensures Pattern(x) < 256 && SignExtend(Pattern(x)) == x.v % 0x1_0000
  {
    Powers();
  }

  // ---------- Usable formats ----------

  ghost predicate SetBelow(m: nat, k: nat) { forall i: nat :: i < k ==> Bit(m, i) }

  ghost predicate ClearFrom(m: nat, k: nat) { forall i: nat :: i >= k ==> !Bit(m, i) }

  lemma FullSet(m: nat)
    requires m == Pow2(128) - 1
    ensures SetBelow(m, 128)
  {
    forall i: nat | i < 128 ensures Bit(m, i) { FullMaskBit(i); }
  }

  lemma SetFull(m: U128)
    requires SetBelow(m, 128)
    ensures m == Pow2(128) - 1
  {
    var full := Pow2(128) - 1;
    forall i: nat ensures Bit(m, i) == Bit(full, i) {
      FullMaskBit(i);
      if i >= 128 { HighBits(m, 128, i); }
    }
    Extensional(m, full);
  }

  lemma NarrowClear(m: nat, k: nat)
    requires m < Pow2(k)
    ensures ClearFrom(m, k)
  {
    forall i: nat | i >= k ensures !Bit(m, i) { HighBits(m, k, i); }
  }

  /** A mask fits when it sets no bit at or above the kind's width, or is the all-ones default. */
  lemma FitsExactly(f: Format)
    ensures f.Fits() <==> SetBelow(f.mask, 128) || ClearFrom(f.mask, f.Bits())
  {
    if f.mask == Pow2(128) - 1 { FullSet(f.mask); }
    if f.mask < Pow2(f.Bits()) { NarrowClear(f.mask, f.Bits()); }
    if SetBelow(f.mask, 128) { SetFull(f.mask); }
    if ClearFrom(f.mask, f.Bits()) { LowBitsOnly(f.mask, f.Bits()); }
  }

  /** Decoding fails for too few words first, for a mask that does not fit next, and for nothing else. */
  lemma DecodeFails(f: Format, ws: seq<Word>)
    ensures Decode(f, ws).Ok? <==> |ws| >= f.Width() && f.Fits()
    ensures Decode(f, ws) == Err(TooFewBytes) <==> |ws| < f.Width()
    ensures |ws| >= f.Width() && !f.Fits() ==> Decode(f, ws) == Err(BitFieldWidth)
  {
  }

  /** Encoding fails for a mask that does not fit first, for a value of another kind next, and for nothing else. */
  lemma EncodeFails(f: Format, x: Value)
    requires Typed(x)
    ensures EncodeValue(f, x).Ok? <==> f.Fits() && x.kind == f.kind
    ensures EncodeValue(f, x) == Err(BitFieldWidth) <==> !f.Fits()
    ensures f.Fits() && x.kind != f.kind ==> EncodeValue(f, x) == Err(ValueFormatMismatch)
  {
  }

  /** Words past the register's own are taken over as they are. */
  lemma MergeBeyond(f: Format, before: seq<Word>, value: seq<Word>, i: nat)
    requires f.Width() <= i < |value|
    ensures MergeWrite(f, before, value)[i] == value[i]
  {
    MaskIsLayout(f);
    var o := WordOr(before, i, 0);
    forall b: nat ensures Bit(MergeBits(o, value[i], 0xFFFF), b) == Bit(value[i], b) {
      MergeBit(o, value[i], 0xFFFF, b);
      WordOnes(b);
      WordHighBits(value[i], b);
      WordHighBits(o, b);
    }
    Extensional(MergeBits(o, value[i], 0xFFFF), value[i]);
  }

  lemma WordOnes(b: nat)
    ensures Bit(0xFFFF, b) <==> b < 16
  {
    Powers();
    AllOnes(16);
    NotBit(0, 16, b);
    ZeroBits(b);
  }
}
