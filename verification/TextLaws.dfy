/** Integer text against the integers themselves: decimal both ways, hexadecimal in either case, negation. */
module TextLaws {
  import opened Basics
  import opened Bits
  import opened Codec
  import opened Fields
  import opened HexText

  // ---------- Decimal ----------

  function DecimalDigit(d: nat): char
    requires d < 10
  {
    "0123456789"[d]
  }

  /** `n` in decimal, without leading zeros. */
  function Decimal(n: nat): (s: string)
    ensures s != ""
  {
    if n < 10 then [DecimalDigit(n)] else Decimal(n / 10) + [DecimalDigit(n % 10)]
  }

  function Text(v: int): string {
    if v < 0 then "-" + Decimal(-v) else Decimal(v)
  }

  lemma DecimalDigitBack(d: nat)
    requires d < 10
    ensures DigitOf(DecimalDigit(d), 10) == Some(d)
  {
    assert DecimalDigit(d) == ('0' as int + d) as char;
  }

  lemma {:induction false} DecimalBack(n: nat)
    ensures Digits(Decimal(n), 10) == Some(n)
  {
    var s := Decimal(n);
    DecimalDigitBack(n % 10);
    if n < 10 {
      assert s[..0] == "";
      assert Digits("", 10) == Some(0);
    } else {
      assert s[..|s|-1] == Decimal(n / 10);
      DecimalBack(n / 10);
    }
  }

  lemma {:induction false} DecimalShape(n: nat)
    ensures forall i :: 0 <= i < |Decimal(n)| ==> '0' <= Decimal(n)[i] <= '9'
  {
    if n >= 10 { DecimalShape(n / 10); }
  }

  lemma SignlessText(n: nat, lo: int, hi: int)
    ensures FromStrRadix(Decimal(n), 10, lo, hi) == if lo <= n < hi then Some(n) else None
  {
    DecimalBack(n);
    DecimalShape(n);
  }

  lemma SignedText(n: nat, lo: int, hi: int)
    requires lo < 0
    ensures FromStrRadix("-" + Decimal(n), 10, lo, hi) == if lo <= 0 - n < hi then Some(0 - n) else None
  {
    DecimalBack(n);
    assert ("-" + Decimal(n))[1..] == Decimal(n);
  }

  lemma MinusRefused(n: nat, hi: int)
    ensures FromStrRadix("-" + Decimal(n), 10, 0, hi) == None
  {
    BadFirst("-" + Decimal(n), 10);
  }

  lemma {:induction false} BadFirst(s: string, radix: nat)
    requires s != "" && radix <= 16 && DigitOf(s[0], radix) == None
    ensures Digits(s, radix) == None
    decreases |s|
  {
    if |s| > 1 { BadFirst(s[..|s|-1], radix); }
  }

  lemma NoHexPrefix(v: int)
    ensures StripPrefix(Text(v), "0x") == None && StripPrefix(Text(v), "-0x") == None
  {
    DecimalShape(if v < 0 then -v else v);
    NoX(Text(v));
  }

  lemma NoX(s: string)
    requires forall i :: 0 <= i < |s| ==> s[i] != 'x'
    ensures StripPrefix(s, "0x") == None && StripPrefix(s, "-0x") == None
  {
    assert "0x"[1] == 'x' && "-0x"[2] == 'x';
  }

  /** The least value of a kind, and the first past its greatest. */
  function Least(kind: IntKind): int { if kind.Signed() then 0 - Pow2(kind.Bits() - 1) else 0 }

  function Beyond(kind: IntKind): int { if kind.Signed() then Pow2(kind.Bits() - 1) else 2 * Pow2(kind.Bits() - 1) }

  lemma Bounds(kind: IntKind, v: int)
    ensures Typed(Value(kind, v)) <==> Least(kind) <= v < Beyond(kind)
    ensures Least(kind) <= 0 && (Least(kind) < 0 <==> kind.Signed())
  {
  }

  lemma DecimalBranch(kind: IntKind, s: string)
    requires StripPrefix(s, "0x") == None && StripPrefix(s, "-0x") == None
    ensures ParseValue(kind, s) == match FromStrRadix(s, 10, Least(kind), Beyond(kind))
                                   case Some(v) => Some(Value(kind, v)) case None => None
  {
  }

  lemma TextIs(v: int, lo: int, hi: int)
    requires lo <= 0
    ensures FromStrRadix(Text(v), 10, lo, hi) == if lo <= v < hi then Some(v) else None
  {
    if v >= 0 {
      assert Text(v) == Decimal(v);
      SignlessText(v, lo, hi);
    } else {
      assert Text(v) == "-" + Decimal(-v);
      if lo < 0 { SignedText(-v, lo, hi); } else { MinusRefused(-v, hi); }
    }
  }

  /** The decimal text of any integer parses to it exactly when the kind has that value. */
  lemma DecimalExactly(kind: IntKind, v: int)
    ensures ParseValue(kind, Text(v)) == if Typed(Value(kind, v)) then Some(Value(kind, v)) else None
  {
    NoHexPrefix(v);
    DecimalBranch(kind, Text(v));
    Bounds(kind, v);
    TextIs(v, Least(kind), Beyond(kind));
  }

  lemma PlusText(n: nat, lo: int, hi: int)
    ensures FromStrRadix("+" + Decimal(n), 10, lo, hi) == if lo <= n < hi then Some(n) else None
  {
    DecimalBack(n);
    assert ("+" + Decimal(n))[1..] == Decimal(n);
  }

  /** A leading plus sign changes nothing. */
  lemma PlusSign(kind: IntKind, n: nat)
    ensures ParseValue(kind, "+" + Decimal(n)) == ParseValue(kind, Text(n))
  {
    DecimalShape(n);
    NoX("+" + Decimal(n));
    NoHexPrefix(n);
    DecimalBranch(kind, "+" + Decimal(n));
    DecimalBranch(kind, Text(n));
    Bounds(kind, n);
    PlusText(n, Least(kind), Beyond(kind));
    TextIs(n, Least(kind), Beyond(kind));
  }

  // ---------- Hexadecimal ----------

  ghost predicate IsUpperHex(c: char) { '0' <= c <= '9' || 'A' <= c <= 'F' }

  ghost predicate AllUpperHex(s: string) { forall i :: 0 <= i < |s| ==> IsUpperHex(s[i]) }

  lemma Prefixed(digits: string)
    ensures |"0x" + digits| == 2 + |digits| && ("0x" + digits)[..2] == "0x" && ("0x" + digits)[2..] == digits
  {
  }

  lemma {:induction false} Upper(n: nat, w: nat)
    ensures AllUpperHex(HexDigits(n, w))
    decreases w
  {
    if w > 0 {
      Upper(n / 16, w - 1);
      UpperDigit(n % 16);
    }
  }

  lemma UpperDigit(d: nat)
    requires d < 16
    ensures IsUpperHex(HexDigit(d))
  {
  }

  /** The printed form: the prefix and two upper-case digits per byte. */
  lemma HexShape(x: Value)
    requires Typed(x)
    ensures |AsHexStr(x)| == 2 + 2 * (x.kind.Bits() / 8) && AsHexStr(x)[..2] == "0x"
    ensures AllUpperHex(AsHexStr(x)[2..])
  {
    var n := x.kind.Bits() / 4;
    var digits := HexDigits(Pattern(x), n);
    assert AsHexStr(x)[2..] == digits && AsHexStr(x)[..2] == "0x" && |AsHexStr(x)| == 2 + n by { Prefixed(digits); }
    Upper(Pattern(x), n);
  }

  function LowerCase(c: char): char {
    if 'A' <= c <= 'F' then (c as int + 32) as char else c
  }

  function Lowered(s: string): (t: string)
    ensures |t| == |s| && forall i :: 0 <= i < |s| ==> t[i] == LowerCase(s[i])
  {
    seq(|s|, i requires 0 <= i < |s| => LowerCase(s[i]))
  }

  lemma {:induction false} SameDigits(s: string, t: string)
    requires |s| == |t| && forall i :: 0 <= i < |s| ==> DigitOf(s[i], 16) == DigitOf(t[i], 16)
    ensures Digits(s, 16) == Digits(t, 16)
    decreases |s|
  {
    if s != "" { SameDigits(s[..|s|-1], t[..|t|-1]); }
  }

  /** Lower-case digits are read the same. */
  lemma HexCase(x: Value)
    requires Typed(x)
    ensures ParseValue(x.kind, "0x" + Lowered(HexDigits(Pattern(x), x.kind.Bits() / 4))) == Some(x)
  {
    var digits := HexDigits(Pattern(x), x.kind.Bits() / 4);
    LoweredBack(x.kind, Pattern(x));
    PatternInjective(x, Reinterpret(x.kind, Pattern(x)));
    var text := "0x" + Lowered(digits);
    assert StripPrefix(text, "0x") == Some(Lowered(digits)) && StripPrefix(text, "-0x") == None by {
      assert text[0] == '0';
    }
  }

  lemma LoweredBack(kind: IntKind, p: nat)
    requires p < Pow2(kind.Bits())
    ensures ParseUnsigned(kind, Lowered(HexDigits(p, kind.Bits() / 4))) == Some(Reinterpret(kind, p))
  {
    var w := kind.Bits() / 4;
    Nibbles(kind);
    LoweredRadix(p, w, Pow2(kind.Bits()));
  }

  lemma LoweredRadix(p: nat, w: nat, hi: nat)
    requires w > 0 && p < Pow2(4 * w) && p < hi
    ensures FromStrRadix(Lowered(HexDigits(p, w)), 16, 0, hi) == Some(p)
  {
    var digits := HexDigits(p, w);
    Upper(p, w);
    LoweredSame(digits);
    DigitsBack(p, w);
    FirstDigit(p, w);
  }

  lemma LoweredSame(s: string)
    requires AllUpperHex(s)
    ensures Digits(Lowered(s), 16) == Digits(s, 16)
  {
    SameDigits(Lowered(s), s);
  }

  lemma Negated(v: int, half: nat, p: nat, q: nat)
    requires half > 0 && 0 - half <= v < half
    requires p == if v < 0 then v + 2 * half else v
    requires q == if v == 0 - half then half else if v > 0 then 2 * half - v else -v
    ensures q == (2 * half - p) % (2 * half)
  {
    Residue(2 * half - p, q, 2 * half);
  }

  /** Negation on the bit pattern: the kind's range minus the pattern. */
  lemma NegatedPattern(x: Value)
    requires Typed(x) && x.kind.Signed()
    ensures Pattern(WrappingNeg(x)) == (Pow2(x.kind.Bits()) - Pattern(x)) % Pow2(x.kind.Bits())
  {
    var half := Pow2(x.kind.Bits() - 1);
    assert Pow2(x.kind.Bits()) == 2 * half;
    Negated(x.v, half, Pattern(x), Pattern(WrappingNeg(x)));
  }

  // ---------- Every text ----------

  /** The place value of the digit with `n` digits to its right. */
  function Weight(radix: nat, n: nat): nat {
    if n == 0 then 1 else radix * Weight(radix, n - 1)
  }

  ghost predicate IsDigit(c: char, radix: nat) {
    '0' <= c <= '9' || (radix == 16 && ('a' <= c <= 'f' || 'A' <= c <= 'F'))
  }

  ghost function DigitWorth(c: char): nat {
    if '0' <= c <= '9' then c as int - '0' as int
    else if 'a' <= c <= 'f' then 10 + (c as int - 'a' as int)
    else if 'A' <= c <= 'F' then 10 + (c as int - 'A' as int)
    else 0
  }

  ghost predicate Numeral(s: string, radix: nat) { forall i :: 0 <= i < |s| ==> IsDigit(s[i], radix) }

  /** The sum of the digits, each times its place value. */
  ghost function Worth(s: string, radix: nat): nat {
    if s == "" then 0 else DigitWorth(s[0]) * Weight(radix, |s| - 1) + Worth(s[1..], radix)
  }

  lemma DigitIs(c: char, radix: nat)
    requires radix == 10 || radix == 16
    ensures DigitOf(c, radix) == if IsDigit(c, radix) then Some(DigitWorth(c)) else None
  {
  }

  lemma Regroup(d: nat, radix: nat, weight: nat, rest: nat, last: nat)
    ensures d * (radix * weight) + (radix * rest + last) == radix * (d * weight + rest) + last
  {
  }

  lemma {:induction false} WorthSnoc(s: string, c: char, radix: nat)
    ensures Worth(s + [c], radix) == radix * Worth(s, radix) + DigitWorth(c)
    decreases |s|
  {
    if s == "" {
      WorthOne(c, radix);
      assert s + [c] == [c];
    } else {
      assert (s + [c])[1..] == s[1..] + [c];
      WorthSnoc(s[1..], c, radix);
      Regroup(DigitWorth(s[0]), radix, Weight(radix, |s| - 1), Worth(s[1..], radix), DigitWorth(c));
    }
  }

  lemma WorthOne(c: char, radix: nat)
    ensures Worth([c], radix) == DigitWorth(c)
  {
    assert [c][1..] == "" && Weight(radix, 0) == 1;
  }

  /** Reading digits left to right adds up their place values, and fails exactly on a character that is no digit. */
  lemma {:induction false} DigitsExactly(s: string, radix: nat)
    requires radix == 10 || radix == 16
    ensures Digits(s, radix) == if Numeral(s, radix) then Some(Worth(s, radix)) else None
    decreases |s|
  {
    if s != "" {
      var front, last := s[..|s|-1], s[|s|-1];
      assert s == front + [last];
      DigitsExactly(front, radix);
      DigitIs(last, radix);
      WorthSnoc(front, last, radix);
    }
  }

  ghost predicate HasSign(s: string, signed: bool) { s != "" && (s[0] == '+' || (signed && s[0] == '-')) }

  ghost function Body(s: string, signed: bool): string { if HasSign(s, signed) then s[1..] else s }

  /** An optional sign, a minus only where values are signed, and then at least one digit. */
  ghost predicate Literal(s: string, radix: nat, signed: bool) { Body(s, signed) != "" && Numeral(Body(s, signed), radix) }

  ghost function Meaning(s: string, radix: nat, signed: bool): int {
    if signed && s != "" && s[0] == '-' then 0 - Worth(Body(s, signed), radix) else Worth(Body(s, signed), radix)
  }

  lemma LiteralExactly(s: string, radix: nat, lo: int, hi: int)
    requires radix == 10 || radix == 16
    ensures FromStrRadix(s, radix, lo, hi) ==
      if Literal(s, radix, lo < 0) && lo <= Meaning(s, radix, lo < 0) < hi then Some(Meaning(s, radix, lo < 0)) else None
  {
    DigitsExactly(Body(s, lo < 0), radix);
  }

  lemma HexPrefix(s: string)
    ensures StripPrefix("0x" + s, "0x") == Some(s) && StripPrefix("0x" + s, "-0x") == None
    ensures StripPrefix("-0x" + s, "-0x") == Some(s) && StripPrefix("-0x" + s, "0x") == None
  {
    assert ("0x" + s)[0] == '0' && ("0x" + s)[2..] == s;
    assert ("-0x" + s)[0] == '-' && ("-0x" + s)[3..] == s;
  }

  /** After the prefix, exactly the hexadecimal numerals below the kind's range parse, to the value with that pattern. */
  lemma HexExactly(kind: IntKind, s: string, x: Value)
    ensures ParseValue(kind, "0x" + s) == Some(x) <==>
      && Literal(s, 16, false) && x.kind == kind && Typed(x) && Pattern(x) == Meaning(s, 16, false)
  {
    HexPrefix(s);
    LiteralExactly(s, 16, 0, Pow2(kind.Bits()));
    assert ParseValue(kind, "0x" + s) == ParseUnsigned(kind, s);
    if x.kind == kind && Typed(x) { PatternInjective(x, Reinterpret(kind, Pattern(x))); }
  }

  /** With a minus before the prefix, signed kinds negate what follows and unsigned kinds take nothing. */
  lemma NegatedExactly(kind: IntKind, s: string)
    ensures ParseValue(kind, "-0x" + s) ==
      if kind.Signed() && ParseValue(kind, "0x" + s).Some? then Some(WrappingNeg(ParseValue(kind, "0x" + s).value)) else None
  {
    HexPrefix(s);
    if !kind.Signed() {
      LiteralExactly("-0x" + s, 10, 0, 2 * Pow2(kind.Bits() - 1));
      assert ("-0x" + s)[0] == '-';
    }
  }

  /** Without a prefix, exactly the decimal literals of the kind's values parse, each to its value. */
  lemma DecimalLiteral(kind: IntKind, s: string, x: Value)
    requires !("0x" <= s) && !("-0x" <= s)
    ensures ParseValue(kind, s) == Some(x) <==>
      Literal(s, 10, kind.Signed()) && x == Value(kind, Meaning(s, 10, kind.Signed())) && Typed(x)
  {
    DecimalBranch(kind, s);
    Bounds(kind, Meaning(s, 10, kind.Signed()));
    LiteralExactly(s, 10, Least(kind), Beyond(kind));
  }

  /** Encoding text: a mask that does not fit is reported first, then text that is no value of the kind. */
  lemma EncodeText(f: Format, s: string)
    ensures Encode(f, s) == Failed(BadCodec(BitFieldWidth)) <==> !f.Fits()
    ensures Encode(f, s) == Failed(NotANumber) <==> f.Fits() && ParseValue(f.kind, s) == None
    ensures f.Fits() && ParseValue(f.kind, s).Some? ==>
              EncodeValue(f, ParseValue(f.kind, s).value).Ok? &&
              Encode(f, s) == Encoded(EncodeValue(f, ParseValue(f.kind, s).value).value)
  {
  }
}
