/** Byte streams and register words: the fold that builds an integer and the loop that packs words. */
module Bytes {
  import opened Bits
  import opened Cells

  type Byte = b: int | 0 <= b < 256

  function Reverse<T>(s: seq<T>): (r: seq<T>)
    ensures |r| == |s| && forall i :: 0 <= i < |s| ==> r[i] == s[|s| - 1 - i]
  {
    seq(|s|, i requires 0 <= i < |s| => s[|s| - 1 - i])
  }

  lemma ReverseTwice<T>(s: seq<T>)
    ensures Reverse(Reverse(s)) == s
  {
  }

  /** The integer whose big-endian bytes these are. */
  function Fold(bs: seq<Byte>): nat {
    if bs == [] then 0 else 256 * Fold(bs[..|bs|-1]) + bs[|bs|-1]
  }

  /** The low `n` bytes of `v`, most significant first. */
  function ToBytes(v: nat, n: nat): (bs: seq<Byte>)
    ensures |bs| == n
  {
    if n == 0 then [] else ToBytes(v / 256, n - 1) + [v % 256]
  }

  function Join(hi: Byte, lo: Byte): Word { 256 * (hi as int) + lo as int }

  /** Bytes paired into words, the first byte of a pair high; a lone last byte is a high byte. */
  function Pack(bs: seq<Byte>): (ws: seq<Word>)
    ensures |ws| == (|bs| + 1) / 2
  {
    if bs == [] then [] else if |bs| == 1 then [Join(bs[0], 0)] else [Join(bs[0], bs[1])] + Pack(bs[2..])
  }

  /** Each word as its high and low byte. */
  function Unpack(ws: seq<Word>): (bs: seq<Byte>)
    ensures |bs| == 2 * |ws|
    ensures forall j :: 0 <= j < |bs| ==> bs[j] == if j % 2 == 0 then ws[j / 2] / 256 else ws[j / 2] % 256
  {
    seq<Byte>(2 * |ws|, j requires 0 <= j < 2 * |ws| => if j % 2 == 0 then ws[j / 2] / 256 else ws[j / 2] % 256)
  }

  // ---------- Where each bit goes ----------

  lemma ByteBit(x: nat, b: Byte, i: nat)
    ensures Bit(256 * x + b, i) == if i < 8 then Bit(b, i) else Bit(x, i - 8)
  {
    Octet(x);
    JoinBit(x, b, 8, i);
  }

  lemma {:induction false} FoldBit(bs: seq<Byte>, i: nat)
    ensures Bit(Fold(bs), i) == (i / 8 < |bs| && Bit(bs[|bs| - 1 - i / 8], i % 8))
    decreases |bs|
  {
    if bs == [] {
      ZeroBits(i);
    } else {
      ByteBit(Fold(bs[..|bs|-1]), bs[|bs|-1], i);
      if i >= 8 { FoldBit(bs[..|bs|-1], i - 8); }
    }
  }

  lemma PowOctet(k: nat)
    ensures Pow2(k + 8) == 256 * Pow2(k)
  {
    assert Pow2(k + 1) == 2 * Pow2(k);
    assert Pow2(k + 2) == 2 * Pow2(k + 1);
    assert Pow2(k + 3) == 2 * Pow2(k + 2);
    assert Pow2(k + 4) == 2 * Pow2(k + 3);
    assert Pow2(k + 5) == 2 * Pow2(k + 4);
    assert Pow2(k + 6) == 2 * Pow2(k + 5);
    assert Pow2(k + 7) == 2 * Pow2(k + 6);
  }

  /** Folding a number's bytes gives the number back. */
  lemma {:induction false} FoldToBytes(v: nat, n: nat)
    requires v < Pow2(8 * n)
    ensures Fold(ToBytes(v, n)) == v
    decreases n
  {
    if n > 0 {
      PowOctet(8 * n - 8);
      FoldToBytes(v / 256, n - 1);
      assert ToBytes(v, n)[..n-1] == ToBytes(v / 256, n - 1);
    }
  }

  /** Unpacking packed words gives the bytes back, for every even number of bytes. */
  lemma {:induction false} UnpackPack(bs: seq<Byte>)
    requires |bs| % 2 == 0
    ensures Unpack(Pack(bs)) == bs
    decreases |bs|
  {
    if bs != [] {
      assert bs == [bs[0], bs[1]] + bs[2..];
      UnpackPack(bs[2..]);
      UnpackCons(bs[0], bs[1], Pack(bs[2..]));
    }
  }

  lemma UnpackCons(a: Byte, b: Byte, ws: seq<Word>)
    ensures Unpack([Join(a, b)] + ws) == [a, b] + Unpack(ws)
  {
    assert ([Join(a, b)] + ws)[1..] == ws;
  }

  // ---------- The loops ----------

  /** Builds a `width`-bit integer: each byte shifts the accumulator, so high bits drop off. */
  method Parse(bytes: seq<Byte>, width: nat) returns (output: nat)
    requires width >= 8
    ensures output == Low(Fold(bytes), width)
  {
    output := 0;
    LowIdentity(0, width) by { assert 0 < Pow2(width); }
    for i := 0 to |bytes|
      invariant output == Low(Fold(bytes[..i]), width)
    {
      assert bytes[..i+1][..i] == bytes[..i];
      ParseStep(Fold(bytes[..i]), bytes[i], width);
      output := Low(Shl(output, 8), width);
      output := output + bytes[i];
    }
    assert bytes[..|bytes|] == bytes;
  }

  lemma ParseStep(x: nat, b: Byte, width: nat)
    requires width >= 8
    ensures Low(Shl(Low(x, width), 8), width) + b == Low(256 * x + b, width)
  {
    forall i: nat ensures Bit(Low(Shl(Low(x, width), 8), width), i) == Bit(Shl(Low(x, width - 8), 8), i) {
      LowBit(Shl(Low(x, width), 8), width, i);
      ShlBit(Low(x, width), 8, i);
      ShlBit(Low(x, width - 8), 8, i);
      if i >= 8 {
        LowBit(x, width, i - 8);
        LowBit(x, width - 8, i - 8);
      }
    }
    Extensional(Low(Shl(Low(x, width), 8), width), Shl(Low(x, width - 8), 8));
    Octet(Low(x, width - 8));
    var joined, whole := 256 * Low(x, width - 8) + b, 256 * x + b;
    forall i: nat ensures Bit(joined, i) == Bit(Low(whole, width), i) {
      ByteBit(Low(x, width - 8), b, i);
      LowBit(whole, width, i);
      ByteBit(x, b, i);
      if i >= 8 { LowBit(x, width - 8, i - 8); }
    }
    Extensional(joined, Low(whole, width));
  }

  /** `val | byte` on a value whose low byte is clear. */
  lemma OrJoins(hi: Byte, b: Byte)
    ensures Or(Join(hi, 0), b) == Join(hi, b)
  {
    forall i: nat ensures Bit(Or(Join(hi, 0), b), i) == Bit(Join(hi, b), i) {
      OrBit(Join(hi, 0), b, i);
      ByteBit(hi, b, i);
      ByteBit(hi, 0, i);
      ZeroBits(i);
      Octet(0);
      if i >= 8 { HighBits(b, 8, i); }
    }
    Extensional(Or(Join(hi, 0), b), Join(hi, b));
  }

  /** `val <<= 8` on a value that is one byte. */
  lemma ShiftByte(b: Byte)
    ensures Low(Shl(b, 8), 16) == Join(b, 0)
  {
    Octet(b);
    Octet(0);
    PowOctet(8);
    LowIdentity(Join(b, 0), 16);
  }

  lemma {:induction false} PackSnoc(bs: seq<Byte>, b: Byte)
    ensures |bs| % 2 == 0 ==> Pack(bs + [b]) == Pack(bs) + [Join(b, 0)]
    ensures |bs| % 2 == 1 ==> Pack(bs + [b]) == Pack(bs[..|bs|-1]) + [Join(bs[|bs|-1], b)]
    decreases |bs|
  {
    if |bs| >= 2 {
      assert (bs + [b])[2..] == bs[2..] + [b];
      if |bs| > 2 { assert bs[..|bs|-1][2..] == bs[2..][..|bs|-3]; }
      PackSnoc(bs[2..], b);
    }
  }

  /** The loop state after `i` bytes: whole words so far, and the high byte waiting for its partner. */
  ghost predicate Packing(bytes: seq<Byte>, i: nat, values: seq<Word>, val: Word)
    requires i <= |bytes|
  {
    if i % 2 == 0 then values == Pack(bytes[..i]) && val == 0
    else values == Pack(bytes[..i-1]) && val == Join(bytes[i-1], 0)
  }

  lemma PackingStep(bytes: seq<Byte>, i: nat, values: seq<Word>, val: Word)
    requires i < |bytes| && Packing(bytes, i, values, val)
    ensures i % 2 == 0 ==> Packing(bytes, i + 1, values, Join(bytes[i], 0))
    ensures i % 2 == 1 ==> Packing(bytes, i + 1, values + [Join(bytes[i-1], bytes[i])], 0)
  {
    assert bytes[..i+1] == bytes[..i] + [bytes[i]];
    if i % 2 == 1 {
      PackSnoc(bytes[..i], bytes[i]);
      assert bytes[..i][..i-1] == bytes[..i-1];
    }
  }

  /** Packs a byte stream into words, pairing as the bytes arrive. */
  method IntoVec(bytes: seq<Byte>) returns (values: seq<Word>)
    ensures values == Pack(bytes)
  {
    values := [];
    var idx: nat := 0;
    var val: Word := 0;
    for i := 0 to |bytes|
      invariant idx == i && Packing(bytes, i, values, val)
    {
      PackingStep(bytes, i, values, val);
      OrJoins(if i % 2 == 0 then 0 else bytes[i-1], bytes[i]);
      val := Or(val, bytes[i]);
      idx := idx + 1;
      if idx % 2 == 0 {
        values := values + [val];
        val := 0;
      } else {
        ShiftByte(val);
        val := Low(Shl(val, 8), 16);
      }
    }
    assert bytes[..|bytes|] == bytes;
    if idx % 2 != 0 {
      PackSnoc(bytes[..idx-1], bytes[idx-1]);
      assert bytes[..idx-1] + [bytes[idx-1]] == bytes;
      values := values + [val];
    }
  }
}
