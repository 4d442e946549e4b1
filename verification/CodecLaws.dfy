/**
 * The laws of the register codec: the word layout is a bijection on bits, decoding inverts
 * encoding up to the field, and merging writes exactly the owned bits.
 */
module CodecLaws {
  import opened Basics
  import opened Bits
  import opened Bytes
  import opened Cells
  import opened Codec

  // ---------- The layout moves bits and loses none ----------

  /** The stream byte that carries raw bit `i` of an `n`-word register. */
  function ByteIx(e: Endian, n: nat, i: nat): nat
    requires i < 16 * n
  {
    if e == Big then 2 * n - 1 - i / 8 else i / 8
  }

  /** The register word that carries raw bit `i`. */
  function WordIx(e: Endian, o: WordOrder, n: nat, i: nat): (k: nat)
    requires i < 16 * n
    ensures k < n
  {
    var j := ByteIx(e, n, i);
    if o == Normal then j / 2 else n - 1 - j / 2
  }

  /** The bit of that word which carries raw bit `i`. */
  function BitIx(e: Endian, n: nat, i: nat): nat
    requires i < 16 * n
  {
    (if ByteIx(e, n, i) % 2 == 0 then 8 else 0) + i % 8
  }

  lemma WordBits(w: Word, hi: bool, b: nat)
    requires b < 8
    ensures Bit(if hi then w / 256 else w % 256, b) == Bit(w, (if hi then 8 else 0) + b)
  {
    ByteBit(w / 256, w % 256, (if hi then 8 else 0) + b);
  }

  lemma StreamByte(e: Endian, bs: seq<Byte>, n: nat, i: nat)
    requires |bs| == 2 * n && i < 16 * n
    ensures OrderBytes(e, bs)[2 * n - 1 - i / 8] == bs[ByteIx(e, n, i)]
  {
  }

  lemma StreamWord(e: Endian, o: WordOrder, ws: seq<Word>, i: nat)
    requires i < 16 * |ws|
    ensures var stream, w := OrderBytes(e, Unpack(OrderWords(o, ws))), ws[WordIx(e, o, |ws|, i)];
      && |stream| == 2 * |ws|
      && stream[2 * |ws| - 1 - i / 8] == if ByteIx(e, |ws|, i) % 2 == 0 then w / 256 else w % 256
  {
    StreamByte(e, Unpack(OrderWords(o, ws)), |ws|, i);
    UnpackedByte(o, ws, ByteIx(e, |ws|, i));
  }

  lemma UnpackedByte(o: WordOrder, ws: seq<Word>, j: nat)
    requires j < 2 * |ws|
    ensures var w := ws[if o == Normal then j / 2 else |ws| - 1 - j / 2];
      Unpack(OrderWords(o, ws))[j] == if j % 2 == 0 then w / 256 else w % 256
  {
  }

  lemma StreamBit(bs: seq<Byte>, n: nat, b: Byte, i: nat)
    requires |bs| == 2 * n && i < 16 * n && bs[2 * n - 1 - i / 8] == b
    ensures Bit(Fold(bs), i) == Bit(b, i % 8)
  {
    FoldBit(bs, i);
  }

  lemma FoldedBit(e: Endian, o: WordOrder, ws: seq<Word>, i: nat)
    requires i < 16 * |ws|
    ensures var w := ws[WordIx(e, o, |ws|, i)];
      Bit(Fold(OrderBytes(e, Unpack(OrderWords(o, ws)))), i) ==
      Bit(if ByteIx(e, |ws|, i) % 2 == 0 then w / 256 else w % 256, i % 8)
  {
    var stream := OrderBytes(e, Unpack(OrderWords(o, ws)));
    StreamWord(e, o, ws, i);
    StreamBit(stream, |ws|, stream[2 * |ws| - 1 - i / 8], i);
  }

  /** Raw bit `i` is bit `BitIx` of word `WordIx`, whatever the byte and register order. */
  lemma NumberBit(e: Endian, o: WordOrder, ws: seq<Word>, i: nat)
    ensures i >= 16 * |ws| ==> !Bit(Number(e, o, ws), i)
    ensures i < 16 * |ws| ==> Bit(Number(e, o, ws), i) == Bit(ws[WordIx(e, o, |ws|, i)], BitIx(e, |ws|, i))
  {
    LowBit(Fold(OrderBytes(e, Unpack(OrderWords(o, ws)))), 16 * |ws|, i);
    if i < 16 * |ws| { FoldedWordBit(e, o, ws, i); }
  }

  lemma FoldedWordBit(e: Endian, o: WordOrder, ws: seq<Word>, i: nat)
    requires i < 16 * |ws|
    ensures Bit(Fold(OrderBytes(e, Unpack(OrderWords(o, ws)))), i) == Bit(ws[WordIx(e, o, |ws|, i)], BitIx(e, |ws|, i))
  {
    FoldedBit(e, o, ws, i);
    ThroughWord(Fold(OrderBytes(e, Unpack(OrderWords(o, ws)))), i, ws[WordIx(e, o, |ws|, i)], ByteIx(e, |ws|, i) % 2 == 0);
  }

  lemma ThroughWord(x: nat, i: nat, w: Word, hi: bool)
    requires Bit(x, i) == Bit(if hi then w / 256 else w % 256, i % 8)
    ensures Bit(x, i) == Bit(w, (if hi then 8 else 0) + i % 8)
  {
    WordBits(w, hi, i % 8);
  }

  lemma RawBit(f: Format, ws: seq<Word>, i: nat)
    requires |ws| >= f.Width()
    ensures i >= 16 * f.Width() ==> !Bit(Raw(f, ws), i)
    ensures i < 16 * f.Width() ==>
              Bit(Raw(f, ws), i) == Bit(ws[WordIx(f.endian, f.order, f.Width(), i)], BitIx(f.endian, f.Width(), i))
  {
    NumberBit(f.endian, f.order, ws[..f.Width()], i);
  }

  /** The `n` words that carry the number `v`. */
  function Words(e: Endian, o: WordOrder, n: nat, v: nat): (ws: seq<Word>)
    ensures |ws| == n
  {
    OrderWords(o, ToWords(v, 16 * n, e))
  }

  lemma OrderTwice(e: Endian, o: WordOrder, bs: seq<Byte>, ws: seq<Word>)
    ensures OrderBytes(e, OrderBytes(e, bs)) == bs
    ensures OrderWords(o, OrderWords(o, ws)) == ws
  {
    ReverseTwice(bs);
    ReverseTwice(ws);
  }

  lemma StreamBack(e: Endian, o: WordOrder, bs: seq<Byte>)
    requires |bs| % 2 == 0
    ensures OrderBytes(e, Unpack(OrderWords(o, OrderWords(o, Pack(OrderBytes(e, bs)))))) == bs
  {
    var stream := OrderBytes(e, bs);
    assert |stream| == |bs|;
    OrderTwice(e, o, bs, Pack(stream));
    UnpackPack(stream);
  }

  lemma NumberWords(e: Endian, o: WordOrder, n: nat, v: nat)
    requires v < Pow2(16 * n)
    ensures Number(e, o, Words(e, o, n, v)) == v
  {
    assert 8 * (2 * n) == 16 * n && 16 * n / 8 == 2 * n;
    var bytes := ToBytes(v, 2 * n);
    StreamBack(e, o, bytes);
    assert Number(e, o, Words(e, o, n, v)) == Low(Fold(bytes), 16 * n);
    FoldToBytes(v, 2 * n);
    LowIdentity(v, 16 * n);
  }

  function Layout(f: Format, v: nat): (ws: seq<Word>)
    ensures |ws| == f.Width()
  {
    Words(f.endian, f.order, f.Width(), v)
  }

  lemma RawLayout(f: Format, v: nat)
    requires v < Pow2(16 * f.Width())
    ensures Raw(f, Layout(f, v)) == v
  {
    NumberWords(f.endian, f.order, f.Width(), v);
    assert Layout(f, v)[..f.Width()] == Layout(f, v);
  }

  lemma ByteLayout(p: Word, e: Endian)
    requires p < 256
    ensures ByteWord(p, e) == ToWords(p, 16, e)
  {
    assert p % 256 == p && p / 256 == 0;
    TwoBytesIn(p, e);
    ByteWordIn(p, e);
  }

  lemma ByteWordIn(x: Word, e: Endian)
    ensures ByteWord(x, e) == [if e == Big then x else Join(x % 256, 0)]
  {
    if e == Little { ShiftLow(x); }
  }

  /** A sign-extended byte keeps its sign in big-endian order and loses it to the shift in little-endian order. */
  lemma SignedLayout(p: Word, e: Endian)
    requires p < 256
    ensures ByteWord(SignExtend(p), e) == ToWords(if e == Big then SignExtend(p) else p, 16, e)
  {
    var w := SignExtend(p);
    assert w % 256 == p && p % 256 == p && p / 256 == 0;
    ByteWordIn(w, e);
    TwoBytesIn(if e == Big then w else p, e);
  }

  lemma PackPair(a: Byte, b: Byte)
    ensures Pack([a, b]) == [Join(a, b)]
  {
    assert [a, b][2..] == [];
  }

  lemma BytePair(x: Word)
    ensures ToBytes(x, 2) == [x / 256, x % 256]
  {
    assert ToBytes(x / 256, 1) == ToBytes(0, 0) + [x / 256];
  }

  lemma ReversePair(a: Byte, b: Byte)
    ensures Reverse([a, b]) == [b, a]
  {
  }

  lemma TwoBytes(x: Word)
    ensures ToWords(x, 16, Big) == [x]
    ensures ToWords(x, 16, Little) == [Join(x % 256, x / 256)]
  {
    BytePair(x);
    ReversePair(x / 256, x % 256);
    PackPair(x / 256, x % 256);
    PackPair(x % 256, x / 256);
  }

  lemma TwoBytesIn(x: Word, e: Endian)
    ensures ToWords(x, 16, e) == [if e == Big then x else Join(x % 256, x / 256)]
  {
    TwoBytes(x);
  }

  lemma ShiftLow(x: Word)
    ensures Low(Shl(x, 8), 16) == Join(x % 256, 0)
  {
    forall i: nat ensures Bit(Low(Shl(x, 8), 16), i) == Bit(Join(x % 256, 0), i) {
      LowBit(Shl(x, 8), 16, i);
      ShlBit(x, 8, i);
      ByteBit(x % 256, 0, i);
      ZeroBits(i);
      if i >= 8 {
        ByteBit(x / 256, x % 256, i - 8);
        Octet(0);
        if i >= 16 { HighBits(x % 256, 8, i - 8); }
      }
    }
    Extensional(Low(Shl(x, 8), 16), Join(x % 256, 0));
  }

  /** The raw number an encoding carries: the placed field, sign-extended for a big-endian `i8` only. */
  function EncodedRaw(f: Format, x: Value): (n: nat)
    requires Typed(x) && x.kind == f.kind
    ensures n < Pow2(16 * f.Width())
  {
    Octet(0);
    PowOctet(8);
    WidthBits(f.kind);
    var val := Place(f, Pattern(x));
    if f.kind == I8 && f.endian == Big then SignExtend(val) else val
  }

  lemma WidthBits(kind: IntKind)
    ensures if kind.Bits() == 8 then kind.RegisterWidth() == 1 else kind.Bits() == 16 * kind.RegisterWidth()
  {
  }

  lemma EncodeIsLayout(f: Format, x: Value)
    requires Typed(x) && f.Fits() && x.kind == f.kind
    ensures EncodeValue(f, x) == Ok(Layout(f, EncodedRaw(f, x)))
  {
    KindIsWords(f.kind, Place(f, Pattern(x)), f.endian);
  }

  lemma KindIsWords(kind: IntKind, val: nat, e: Endian)
    requires val < Pow2(kind.Bits())
    ensures kind == I8 ==> val < 256
    ensures KindWords(kind, val, e) ==
              ToWords(if kind == I8 && e == Big then SignExtend(val) else val, 16 * kind.RegisterWidth(), e)
  {
    WidthBits(kind);
    Octet(0);
    if kind == U8 { ByteLayout(val, e); }
    else if kind == I8 { SignedLayout(val, e); }
  }

  lemma MaskIsLayout(f: Format)
    ensures MaskWords(f) == Layout(f, Low(f.mask, f.Bits()))
    ensures Low(f.mask, f.Bits()) < Pow2(16 * f.Width())
  {
    LowBound(f.mask, f.Bits());
    WidthBits(f.kind);
    Octet(0);
    PowOctet(8);
    if f.Bits() == 8 { ByteLayout(Low(f.mask, 8), f.endian); }
  }

  // ---------- Decoding inverts encoding, up to the field ----------

  lemma FullMaskBit(i: nat)
    ensures Bit(Pow2(128) - 1, i) <==> i < 128
  {
    AllOnes(128);
    NotBit(0, 128, i);
    ZeroBits(i);
  }

  lemma {:induction false} AllOnes(k: nat)
    ensures Not(0, k) == Pow2(k) - 1
  {
    if k > 0 { AllOnes(k - 1); }
  }

  /** A fitting mask selects no bit beyond the kind's width, once shifted down by the field's offset. */
  lemma MaskInside(f: Format, i: nat)
    requires f.Fits() && i < f.Bits() && Bit(f.mask, i + f.Shift())
    ensures i + f.Shift() < f.Bits()
  {
    if f.mask == Pow2(128) - 1 {
      TrailingZerosBit(f.mask, 0);
      FullMaskBit(0);
    } else if i + f.Shift() >= f.Bits() {
      HighBits(f.mask, f.Bits(), i + f.Shift());
    }
  }

  lemma FieldBit(f: Format, raw: nat, i: nat)
    ensures Bit(Field(f, raw), i) <==> i < f.Bits() && Bit(raw, i + f.Shift()) && Bit(f.mask, i + f.Shift())
  {
    LowBit(Shr(And(raw, f.mask), f.Shift()), f.Bits(), i);
    ShrBit(And(raw, f.mask), f.Shift(), i);
    AndBit(raw, f.mask, i + f.Shift());
  }

  lemma PlaceBit(f: Format, p: nat, j: nat)
    ensures Bit(Place(f, p), j) <==> j < f.Bits() && f.Shift() <= j && Bit(p, j - f.Shift()) && Bit(f.mask, j)
  {
    LowBit(And(Low(Shl(p, f.Shift()), 128), f.mask), f.Bits(), j);
    AndBit(Low(Shl(p, f.Shift()), 128), f.mask, j);
    LowBit(Shl(p, f.Shift()), 128, j);
    ShlBit(p, f.Shift(), j);
  }

  /** What a field of the format can carry of a value: its pattern under the shifted-down mask. */
  function Carried(f: Format, x: Value): (p: nat)
    requires Typed(x) && x.kind == f.kind
    ensures p < Pow2(f.Bits())
  {
    AndBound(Pattern(x), Shr(f.mask, f.Shift()), f.Bits());
    And(Pattern(x), Shr(f.mask, f.Shift()))
  }

  lemma AndBound(a: nat, b: nat, k: nat)
    requires a < Pow2(k)
    ensures And(a, b) < Pow2(k)
  {
    forall i: nat | i >= k ensures !Bit(And(a, b), i) {
      AndBit(a, b, i);
      HighBits(a, k, i);
    }
    LowBitsOnly(And(a, b), k);
  }

  lemma CarriedBit(f: Format, x: Value, i: nat)
    requires Typed(x) && x.kind == f.kind
    ensures Bit(Carried(f, x), i) <==> i < f.Bits() && Bit(Pattern(x), i) && Bit(f.mask, i + f.Shift())
  {
    AndBit(Pattern(x), Shr(f.mask, f.Shift()), i);
    ShrBit(f.mask, f.Shift(), i);
    if i >= f.Bits() { HighBits(Pattern(x), f.Bits(), i); }
  }

  lemma PlacedFieldBit(f: Format, p: nat, raw: nat, i: nat)
    requires f.Fits()
    requires var j := i + f.Shift();
      j < f.Bits() && Bit(f.mask, j) ==> Bit(raw, j) == Bit(Place(f, p), j)
    ensures Bit(Field(f, raw), i) <==> i < f.Bits() && Bit(p, i) && Bit(f.mask, i + f.Shift())
  {
    var j := i + f.Shift();
    assert Bit(Field(f, raw), i) <==> i < f.Bits() && Bit(raw, j) && Bit(f.mask, j) by { FieldBit(f, raw, i); }
    if i < f.Bits() && Bit(f.mask, j) {
      assert j < f.Bits() by { MaskInside(f, i); }
      assert Bit(Place(f, p), j) <==> Bit(p, i) by { PlaceBit(f, p, j); }
    }
  }

  /** Any raw number that agrees with the placed value on the mask's bits decodes to what was carried. */
  lemma FieldOfPlaced(f: Format, x: Value, raw: nat)
    requires Typed(x) && x.kind == f.kind && f.Fits()
    requires forall j: nat :: j < f.Bits() && Bit(f.mask, j) ==> Bit(raw, j) == Bit(Place(f, Pattern(x)), j)
    ensures Field(f, raw) == Carried(f, x)
  {
    var field, carried := Field(f, raw), Carried(f, x);
    forall i: nat ensures Bit(field, i) == Bit(carried, i) {
      PlacedFieldBit(f, Pattern(x), raw, i);
      CarriedBit(f, x, i);
    }
    Extensional(field, carried);
  }

  lemma EncodedRawBit(f: Format, x: Value, j: nat)
    requires Typed(x) && x.kind == f.kind && j < f.Bits()
    ensures Bit(EncodedRaw(f, x), j) == Bit(Place(f, Pattern(x)), j)
  {
    var val := Place(f, Pattern(x));
    Octet(0);
    if f.kind == I8 && f.endian == Big && val >= 128 {
      ByteBit(255, val, j);
      assert EncodedRaw(f, x) == 256 * 255 + val;
    }
  }

  /** Decoding what was encoded yields the value under the shifted-down mask, for every format. */
  lemma DecodeEncode(f: Format, x: Value)
    requires Typed(x) && f.Fits() && x.kind == f.kind
    ensures EncodeValue(f, x).Ok?
    ensures Decode(f, EncodeValue(f, x).value) == Ok(Reinterpret(f.kind, Carried(f, x)))
  {
    var ws := Layout(f, EncodedRaw(f, x));
    EncodeIsLayout(f, x);
    RawLayout(f, EncodedRaw(f, x));
    forall j: nat | j < f.Bits() && Bit(f.mask, j)
      ensures Bit(Raw(f, ws), j) == Bit(Place(f, Pattern(x)), j)
    {
      EncodedRawBit(f, x, j);
    }
    FieldOfPlaced(f, x, Raw(f, ws));
  }

  /** The round trip is the identity exactly when the value's pattern has no bit outside the field. */
  lemma RoundTripExactly(f: Format, x: Value)
    requires Typed(x) && f.Fits() && x.kind == f.kind
    ensures EncodeValue(f, x).Ok?
    ensures Decode(f, EncodeValue(f, x).value) == Ok(x) <==>
              And(Pattern(x), Shr(f.mask, f.Shift())) == Pattern(x)
  {
    DecodeEncode(f, x);
    if Carried(f, x) == Pattern(x) {
      PatternInjective(x, Reinterpret(f.kind, Carried(f, x)));
    }
  }

  lemma FullMaskCarries(f: Format, x: Value, i: nat)
    requires Typed(x) && x.kind == f.kind && f.mask == Pow2(128) - 1
    ensures Bit(Carried(f, x), i) == Bit(Pattern(x), i)
  {
    FullMaskShift(f);
    CarriedBit(f, x, i);
    FullMaskBit(i);
    if i >= f.Bits() { HighBits(Pattern(x), f.Bits(), i); }
  }

  lemma FullMaskShift(f: Format)
    requires f.mask == Pow2(128) - 1
    ensures f.Shift() == 0
  {
    FullMaskBit(0);
    TrailingZerosBit(f.mask, 0);
  }

  /** With the default all-ones mask every value of every kind survives the round trip. */
  lemma FullMaskRoundTrip(f: Format, x: Value)
    requires Typed(x) && x.kind == f.kind && f.mask == Pow2(128) - 1
    ensures EncodeValue(f, x).Ok? && Decode(f, EncodeValue(f, x).value) == Ok(x)
  {
    RoundTripExactly(f, x);
    var carried, pattern := Carried(f, x), Pattern(x);
    forall i: nat ensures Bit(carried, i) == Bit(pattern, i) {
      FullMaskCarries(f, x, i);
    }
    Extensional(carried, pattern);
  }

  // ---------- Merging into words that other registers share ----------

  /** `before` with missing words read as 0. */
  function Padded(before: seq<Word>, n: nat): (ws: seq<Word>)
    ensures |ws| == n && forall k :: 0 <= k < n ==> ws[k] == WordOr(before, k, 0)
  {
    seq<Word>(n, k requires 0 <= k < n => WordOr(before, k, 0))
  }

  /** Every bit the register does not own keeps its old value; every bit it owns takes the new one. */
  lemma MergeOwnsItsBits(f: Format, before: seq<Word>, value: seq<Word>, k: nat, b: nat)
    requires |value| == f.Width() && k < f.Width()
    ensures |MaskWords(f)| == f.Width()
    ensures Bit(MergeWrite(f, before, value)[k], b) ==
              if Bit(MaskWords(f)[k], b) then Bit(value[k], b) else Bit(WordOr(before, k, 0), b)
  {
    MaskIsLayout(f);
    MergeBit(WordOr(before, k, 0), value[k], MaskWords(f)[k], b);
  }

  /** Raw bit `i` of a layout is the same bit of the number laid out. */
  lemma LayoutBit(f: Format, v: nat, i: nat)
    requires v < Pow2(16 * f.Width()) && i < 16 * f.Width()
    ensures Bit(Layout(f, v)[WordIx(f.endian, f.order, f.Width(), i)], BitIx(f.endian, f.Width(), i)) == Bit(v, i)
  {
    RawLayout(f, v);
    RawBit(f, Layout(f, v), i);
  }

  lemma MaskWordsBit(f: Format, i: nat)
    requires i < 16 * f.Width()
    ensures |MaskWords(f)| == f.Width()
    ensures Bit(MaskWords(f)[WordIx(f.endian, f.order, f.Width(), i)], BitIx(f.endian, f.Width(), i)) <==>
              i < f.Bits() && Bit(f.mask, i)
  {
    MaskIsLayout(f);
    LayoutBit(f, Low(f.mask, f.Bits()), i);
    LowBit(f.mask, f.Bits(), i);
  }

  lemma MergedOwnBit(f: Format, before: seq<Word>, value: seq<Word>, j: nat)
    requires |value| == f.Width() && j < f.Bits() && Bit(f.mask, j)
    ensures Bit(Raw(f, MergeWrite(f, before, value)), j) == Bit(Raw(f, value), j)
  {
    WidthBits(f.kind);
    RawBit(f, MergeWrite(f, before, value), j);
    RawBit(f, value, j);
    MaskWordsBit(f, j);
    MergeOwnsItsBits(f, before, value, WordIx(f.endian, f.order, f.Width(), j), BitIx(f.endian, f.Width(), j));
  }

  /** Whatever the words held before, the merged register decodes to the field's share of the value. */
  lemma DecodeMerged(f: Format, before: seq<Word>, x: Value)
    requires Typed(x) && f.Fits() && x.kind == f.kind
    ensures EncodeValue(f, x).Ok?
    ensures Decode(f, MergeWrite(f, before, EncodeValue(f, x).value)) == Ok(Reinterpret(f.kind, Carried(f, x)))
  {
    EncodeIsLayout(f, x);
    var value := Layout(f, EncodedRaw(f, x));
    var merged := MergeWrite(f, before, value);
    RawLayout(f, EncodedRaw(f, x));
    forall j: nat | j < f.Bits() && Bit(f.mask, j)
      ensures Bit(Raw(f, merged), j) == Bit(Place(f, Pattern(x)), j)
    {
      MergedOwnBit(f, before, value, j);
      EncodedRawBit(f, x, j);
    }
    FieldOfPlaced(f, x, Raw(f, merged));
  }

  /** Decoding reads only the bits under the mask. */
  lemma DecodeReadsMask(g: Format, ws: seq<Word>, vs: seq<Word>)
    requires |ws| >= g.Width() && |vs| >= g.Width()
    requires forall j: nat :: j < g.Bits() && Bit(g.mask, j) ==> Bit(Raw(g, ws), j) == Bit(Raw(g, vs), j)
    ensures Decode(g, ws) == Decode(g, vs)
  {
    if g.Fits() {
      var a, b := Field(g, Raw(g, ws)), Field(g, Raw(g, vs));
      forall i: nat ensures Bit(a, i) == Bit(b, i) {
        FieldBit(g, Raw(g, ws), i);
        FieldBit(g, Raw(g, vs), i);
        if i < g.Bits() && Bit(g.mask, i + g.Shift()) { MaskInside(g, i); }
      }
      Extensional(a, b);
    }
  }

  /** No bit of any word belongs to both registers. */
  predicate DisjointMasks(f: Format, g: Format) {
    |MaskWords(f)| == |MaskWords(g)| &&
    forall k :: 0 <= k < |MaskWords(f)| ==> And(MaskWords(f)[k], MaskWords(g)[k]) == 0
  }

  lemma SiblingBit(f: Format, g: Format, before: seq<Word>, value: seq<Word>, j: nat)
    requires f.Width() == g.Width() == |value| && DisjointMasks(f, g)
    requires j < g.Bits() && Bit(g.mask, j)
    ensures Bit(Raw(g, MergeWrite(f, before, value)), j) == Bit(Raw(g, Padded(before, g.Width())), j)
  {
    WidthBits(g.kind);
    var k, b := WordIx(g.endian, g.order, g.Width(), j), BitIx(g.endian, g.Width(), j);
    var merged, padded := MergeWrite(f, before, value), Padded(before, g.Width());
    assert Bit(merged[k], b) == Bit(padded[k], b) by {
      SiblingMaskBit(f, g, j);
      MergeOwnsItsBits(f, before, value, k, b);
    }
    assert Bit(Raw(g, merged), j) == Bit(merged[k], b) by { RawBit(g, merged, j); }
    assert Bit(Raw(g, padded), j) == Bit(padded[k], b) by { RawBit(g, padded, j); }
  }

  lemma SiblingMaskBit(f: Format, g: Format, j: nat)
    requires f.Width() == g.Width() && DisjointMasks(f, g)
    requires j < g.Bits() <= 16 * g.Width() && Bit(g.mask, j)
    ensures var k := WordIx(g.endian, g.order, g.Width(), j);
      k < |MaskWords(f)| && !Bit(MaskWords(f)[k], BitIx(g.endian, g.Width(), j))
  {
    var k, b := WordIx(g.endian, g.order, g.Width(), j), BitIx(g.endian, g.Width(), j);
    MaskWordsBit(g, j);
    AndBit(MaskWords(f)[k], MaskWords(g)[k], b);
    ZeroBits(b);
  }

  /** A register sharing the words but none of the bits decodes after the merge exactly as before it. */
  lemma SiblingUndisturbed(f: Format, g: Format, before: seq<Word>, value: seq<Word>)
    requires f.Width() == g.Width() == |value| && DisjointMasks(f, g)
    ensures Decode(g, MergeWrite(f, before, value)) == Decode(g, Padded(before, g.Width()))
  {
    forall j: nat | j < g.Bits() && Bit(g.mask, j)
      ensures Bit(Raw(g, MergeWrite(f, before, value)), j) == Bit(Raw(g, Padded(before, g.Width())), j)
    {
      SiblingBit(f, g, before, value, j);
    }
    DecodeReadsMask(g, MergeWrite(f, before, value), Padded(before, g.Width()));
  }

  // ---------- Encoded words and the mask ----------

  /** The raw bit that bit `b` of word `k` carries: the layout's inverse. */
  function Home(e: Endian, o: WordOrder, n: nat, k: nat, b: nat): (i: nat)
    requires k < n && b < 16
    ensures i < 16 * n && WordIx(e, o, n, i) == k && BitIx(e, n, i) == b
  {
    var j := 2 * (if o == Normal then k else n - 1 - k) + (if b >= 8 then 0 else 1);
    var octet := if e == Big then 2 * n - 1 - j else j;
    Octave(octet, b % 8);
    assert ByteIx(e, n, 8 * octet + b % 8) == j;
    8 * octet + b % 8
  }

  lemma Octave(q: nat, r: nat)
    requires r < 8
    ensures (8 * q + r) / 8 == q && (8 * q + r) % 8 == r
  {
  }

  ghost predicate InsideMask(f: Format, ws: seq<Word>)
    requires |ws| == f.Width() == |MaskWords(f)|
  {
    forall k :: 0 <= k < |ws| ==> And(ws[k], MaskWords(f)[k]) == ws[k]
  }

  lemma PlacedInside(f: Format, x: Value, k: nat, b: nat)
    requires Typed(x) && x.kind == f.kind && k < f.Width() && b < 16
    requires Place(f, Pattern(x)) < Pow2(16 * f.Width())
    ensures |MaskWords(f)| == f.Width()
    ensures Bit(Layout(f, Place(f, Pattern(x)))[k], b) ==> Bit(MaskWords(f)[k], b)
  {
    var i := Home(f.endian, f.order, f.Width(), k, b);
    LayoutBit(f, Place(f, Pattern(x)), i);
    MaskWordsBit(f, i);
    PlaceBit(f, Pattern(x), i);
  }

  lemma PlacedWordInside(f: Format, x: Value, k: nat)
    requires Typed(x) && x.kind == f.kind && k < f.Width()
    requires Place(f, Pattern(x)) < Pow2(16 * f.Width())
    ensures |MaskWords(f)| == f.Width()
    ensures var w := Layout(f, Place(f, Pattern(x)))[k]; And(w, MaskWords(f)[k]) == w
  {
    MaskIsLayout(f);
    var w, m := Layout(f, Place(f, Pattern(x)))[k], MaskWords(f)[k];
    forall b: nat ensures Bit(And(w, m), b) == Bit(w, b) {
      AndBit(w, m, b);
      WordHighBits(w, b);
      if b < 16 { PlacedInside(f, x, k, b); }
    }
    Extensional(And(w, m), w);
  }

  lemma OneWord(f: Format, n: Word)
    requires f.Width() == 1 && f.endian == Big
    ensures Layout(f, n) == [n]
  {
    TwoBytes(n);
    assert Reverse([n]) == [n];
  }

  lemma SpilledWord(n: Word, m: nat)
    requires n >= 256 && m < 256
    ensures And(n, m) != n
  {
    Octet(0);
    AndBound(m, n, 8);
    AndCommutes(m, n);
  }

  lemma SpilledSign(f: Format, n: Word)
    requires f.kind == I8 && f.endian == Big && n >= 256
    ensures |MaskWords(f)| == 1 == |Layout(f, n)| && And(Layout(f, n)[0], MaskWords(f)[0]) != Layout(f, n)[0]
  {
    var m := Low(f.mask, 8);
    Octet(0);
    LowBound(f.mask, 8);
    MaskIsLayout(f);
    OneWord(f, n);
    OneWord(f, m);
    SpilledWord(n, m);
  }

  lemma AndCommutes(a: nat, b: nat)
    ensures And(a, b) == And(b, a)
  {
  }

  lemma SpilledRaw(f: Format, p: nat)
    requires f.kind == I8 && f.endian == Big && 128 <= p < 256
    ensures |MaskWords(f)| == 1 && !InsideMask(f, Layout(f, SignExtend(p)))
  {
    SpilledSign(f, SignExtend(p));
  }

  /** A big-endian signed byte whose placed field has its top bit set. */
  predicate Spills(f: Format, x: Value)
    requires Typed(x) && x.kind == f.kind
  {
    f.kind == I8 && f.endian == Big && Place(f, Pattern(x)) >= 128
  }

  lemma RawCases(f: Format, x: Value)
    requires Typed(x) && x.kind == f.kind
    ensures Spills(f, x) ==> Place(f, Pattern(x)) < 256 && EncodedRaw(f, x) == SignExtend(Place(f, Pattern(x)))
    ensures !Spills(f, x) ==> EncodedRaw(f, x) == Place(f, Pattern(x)) < Pow2(16 * f.Width())
  {
    Octet(0);
  }

  lemma PlacedInsideMask(f: Format, x: Value)
    requires Typed(x) && x.kind == f.kind && |MaskWords(f)| == f.Width()
    requires Place(f, Pattern(x)) < Pow2(16 * f.Width())
    ensures InsideMask(f, Layout(f, Place(f, Pattern(x))))
  {
    forall k | 0 <= k < f.Width()
      ensures And(Layout(f, Place(f, Pattern(x)))[k], MaskWords(f)[k]) == Layout(f, Place(f, Pattern(x)))[k]
    {
      PlacedWordInside(f, x, k);
    }
  }

  /**
   * Encoded words stay inside the register's own mask, except that a big-endian signed byte whose
   * placed field has its top bit set spills its sign over the neighbouring byte.
   */
  lemma EncodedInsideMask(f: Format, x: Value)
    requires Typed(x) && f.Fits() && x.kind == f.kind
    ensures EncodeValue(f, x).Ok? && |EncodeValue(f, x).value| == f.Width() == |MaskWords(f)|
    ensures InsideMask(f, EncodeValue(f, x).value) <==> !Spills(f, x)
  {
    EncodeIsLayout(f, x);
    MaskIsLayout(f);
    RawCases(f, x);
    if Spills(f, x) { SpilledRaw(f, Place(f, Pattern(x))); } else { PlacedInsideMask(f, x); }
  }

  /** The least case: -1 in an 8-bit field of a big-endian `i8` spills. */
  lemma SpillExample(f: Format, x: Value)
    requires f == Format(I8, Big, Normal, 255) && x == Value(I8, -1)
    ensures Typed(x) && Spills(f, x)
  {
    Octet(0);
    ByteOnes(7);
    TrailingZerosBit(255, 0);
    PlaceBit(f, Pattern(x), 7);
    if Place(f, Pattern(x)) < 128 { HighBits(Place(f, Pattern(x)), 7, 7); }
  }

  lemma ByteOnes(i: nat)
    ensures Bit(255, i) <==> i < 8
  {
    Octet(0);
    AllOnes(8);
    NotBit(0, 8, i);
    ZeroBits(i);
  }
}
