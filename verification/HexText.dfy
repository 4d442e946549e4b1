/** Integer text input and the zero-padded hexadecimal output it accepts back. */
module HexText {
  import opened Basics
  import opened Bits
  import opened Cells
  import opened Codec

  // ---------- Printing ----------

  function HexDigit(d: nat): char
    requires d < 16
  {
    "0123456789ABCDEF"[d]
  }

  /** `n` in hexadecimal, zero-padded to `w` digits. */
  function HexDigits(n: nat, w: nat): (s: string)
    ensures |s| == w
  {
    if w == 0 then "" else HexDigits(n / 16, w - 1) + [HexDigit(n % 16)]
  }

  /** The raw value as `0x`-prefixed two's-complement hex, two digits per byte. */
  function AsHexStr(x: Value): string
    requires Typed(x)
  {
    "0x" + HexDigits(Pattern(x), x.kind.Bits() / 4)
  }

  // ---------- Parsing ----------

  function DigitOf(c: char, radix: nat): Option<nat>
    requires radix <= 16
  {
    var d: int :=
      if '0' <= c <= '9' then c as int - '0' as int
      else if 'a' <= c <= 'f' then c as int - 'a' as int + 10
      else if 'A' <= c <= 'F' then c as int - 'A' as int + 10
      else 16;
    if d < radix then Some(d) else None
  }

  function Digits(s: string, radix: nat): Option<nat>
    requires radix <= 16
  {
    if s == "" then Some(0)
    else
      match (Digits(s[..|s|-1], radix), DigitOf(s[|s|-1], radix))
      case (Some(n), Some(d)) => Some(radix * n + d)
      case _ => None
  }

  /**
   * An integer literal in `radix` within `[lo, hi)`: an optional sign, then at least one digit. A
   * minus sign is accepted only where negative values exist.
   */
  function FromStrRadix(s: string, radix: nat, lo: int, hi: int): Option<int>
    requires radix <= 16
  {
    if s == "" then None
    else
      var negative := s[0] == '-' && lo < 0;
      var digits := if s[0] == '+' || negative then s[1..] else s;
      if digits == "" then None
      else
        match Digits(digits, radix)
        case None => None
        case Some(n) =>
          var v: int := if negative then -(n as int) else n;
          if lo <= v < hi then Some(v) else None
  }

  function StripPrefix(s: string, prefix: string): Option<string> {
    if prefix <= s then Some(s[|prefix|..]) else None
  }

  /** Two's-complement negation, which maps the least value to itself. */
  function WrappingNeg(x: Value): (y: Value)
    requires Typed(x) && x.kind.Signed()
    ensures Typed(y) && y.kind == x.kind
  {
    if x.v == -(Pow2(x.kind.Bits() - 1) as int) then x else Value(x.kind, -x.v)
  }

  function ParseUnsigned(kind: IntKind, s: string): Option<Value> {
    match FromStrRadix(s, 16, 0, Pow2(kind.Bits()))
    case Some(p) => Some(Reinterpret(kind, p))
    case None => None
  }

  /** Decimal, `0x` bit pattern, or for signed kinds `-0x` negated bit pattern. */
  function ParseValue(kind: IntKind, s: string): (x: Option<Value>)
    ensures x.Some? ==> Typed(x.value) && x.value.kind == kind
  {
    var half: int := Pow2(kind.Bits() - 1);
    var negated := StripPrefix(s, "-0x");
    var plain := StripPrefix(s, "0x");
    if kind.Signed() && negated.Some? then
      match ParseUnsigned(kind, negated.value)
      case Some(x) => Some(WrappingNeg(x))
      case None => None
    else if plain.Some? then ParseUnsigned(kind, plain.value)
    else
      match (if kind.Signed() then FromStrRadix(s, 10, -half, half) else FromStrRadix(s, 10, 0, 2 * half))
      case Some(v) => Some(Value(kind, v))
      case None => None
  }

  datatype EncodeError = NotANumber | BadCodec(error: CodecError)

  datatype EncodeResult = Encoded(words: seq<Word>) | Failed(error: EncodeError)

  function Outcome(r: Result<seq<Word>, CodecError>): EncodeResult {
    match r case Ok(ws) => Encoded(ws) case Err(e) => Failed(BadCodec(e))
  }

  function Encode(f: Format, s: string): EncodeResult {
    if !f.Fits() then Failed(BadCodec(BitFieldWidth))
    else
      match ParseValue(f.kind, s)
      case None => Failed(NotANumber)
      case Some(x) => Outcome(EncodeValue(f, x))
  }

  // ---------- Text round trip ----------

  lemma DigitBack(d: nat)
    requires d < 16
    ensures DigitOf(HexDigit(d), 16) == Some(d)
  {
    assert HexDigit(d) == if d < 10 then ('0' as int + d) as char else ('A' as int + d - 10) as char;
  }

  lemma {:induction false} DigitsBack(n: nat, w: nat)
    requires n < Pow2(4 * w)
    ensures Digits(HexDigits(n, w), 16) == Some(n)
    decreases w
  {
    if w > 0 {
      var s := HexDigits(n, w);
      assert s[..|s|-1] == HexDigits(n / 16, w - 1);
      PowNibble(4 * w - 4);
      DigitsBack(n / 16, w - 1);
      DigitBack(n % 16);
    }
  }

  lemma PowNibble(k: nat)
    ensures Pow2(k + 4) == 16 * Pow2(k)
  {
    assert Pow2(k + 1) == 2 * Pow2(k);
    assert Pow2(k + 2) == 2 * Pow2(k + 1);
    assert Pow2(k + 3) == 2 * Pow2(k + 2);
  }

  lemma {:induction false} FirstDigit(n: nat, w: nat)
    requires w > 0
    ensures HexDigits(n, w)[0] != '+' && HexDigits(n, w)[0] != '-'
    decreases w
  {
    if w > 1 { FirstDigit(n / 16, w - 1); }
  }

  lemma RadixBack(p: nat, w: nat, hi: nat)
    requires w > 0 && p < Pow2(4 * w) && p < hi
    ensures FromStrRadix(HexDigits(p, w), 16, 0, hi) == Some(p)
  {
    DigitsBack(p, w);
    FirstDigit(p, w);
  }

  lemma Nibbles(kind: IntKind)
    ensures 4 * (kind.Bits() / 4) == kind.Bits() && kind.Bits() / 4 > 0
  {
  }

  /** Padded hex digits of a pattern read back as that pattern's value. */
  lemma PatternBack(kind: IntKind, p: nat)
    requires p < Pow2(kind.Bits())
    ensures ParseUnsigned(kind, HexDigits(p, kind.Bits() / 4)) == Some(Reinterpret(kind, p))
  {
    Nibbles(kind);
    RadixBack(p, kind.Bits() / 4, Pow2(kind.Bits()));
  }

  /** Every value of every kind survives being printed as hex and parsed. */
  lemma HexRoundTrip(x: Value)
    requires Typed(x)
    ensures ParseValue(x.kind, AsHexStr(x)) == Some(x)
  {
    var digits := HexDigits(Pattern(x), x.kind.Bits() / 4);
    var text := AsHexStr(x);
    assert StripPrefix(text, "0x") == Some(digits) && StripPrefix(text, "-0x") == None by {
      assert text == "0x" + digits && text[0] == '0';
    }
    assert ParseUnsigned(x.kind, digits) == Some(x) by {
      PatternBack(x.kind, Pattern(x));
      PatternInjective(x, Reinterpret(x.kind, Pattern(x)));
    }
  }

  /** Encoding the hex text of a value is encoding the value. */
  lemma EncodeHexText(f: Format, x: Value)
    requires Typed(x) && x.kind == f.kind
    ensures Encode(f, AsHexStr(x)) == Outcome(EncodeValue(f, x))
  {
    HexRoundTrip(x);
  }

  /** A `-0x` literal on a signed kind is the negation of the value with that bit pattern. */
  lemma NegatedHex(x: Value)
    requires Typed(x) && x.kind.Signed()
    ensures ParseValue(x.kind, "-" + AsHexStr(x)) == Some(WrappingNeg(x))
  {
    var digits := HexDigits(Pattern(x), x.kind.Bits() / 4);
    var text := "-" + AsHexStr(x);
    assert StripPrefix(text, "-0x") == Some(digits) by {
      assert text == "-0x" + digits;
    }
    assert ParseUnsigned(x.kind, digits) == Some(x) by {
      PatternBack(x.kind, Pattern(x));
      PatternInjective(x, Reinterpret(x.kind, Pattern(x)));
    }
  }
}
