/** Base32 without padding (RFC 4648, section 6): the bits of the input in groups of five. */
module Base32 {
  import opened Basics
  import opened Arith

  type bit = i: int | 0 <= i < 2

  type Bits = seq<bit>

  /** The number that bits write, the first bit being the highest. */
  function Val(s: Bits): nat {
    if |s| == 0 then 0 else 2 * Val(s[..|s| - 1]) + s[|s| - 1]
  }

  function Pow2(n: nat): (p: nat)
    ensures p > 0
  {
    if n == 0 then 1 else 2 * Pow2(n - 1)
  }

  /** The low `n` bits of a number. */
  function LowBits(v: nat, n: nat): (s: Bits)
    ensures |s| == n
  {
    if n == 0 then [] else LowBits(v / 2, n - 1) + [v % 2]
  }

  lemma {:induction false} ValFits(s: Bits)
    ensures Val(s) < Pow2(|s|)
  {
    if |s| > 0 {
      ValFits(s[..|s| - 1]);
    }
  }

  lemma {:induction false} LowBitsOfVal(s: Bits)
    ensures LowBits(Val(s), |s|) == s
  {
    if |s| > 0 {
      LowBitsOfVal(s[..|s| - 1]);
    }
  }

  lemma {:induction false} ValOfLowBits(v: nat, n: nat)
    requires v < Pow2(n)
    ensures Val(LowBits(v, n)) == v
  {
    if n > 0 {
      ValOfLowBits(v / 2, n - 1);
      assert LowBits(v, n)[..n - 1] == LowBits(v / 2, n - 1);
    }
  }

  /** The powers that matter, by value. */
  lemma Powers()
    ensures Pow2(5) == 32 && Pow2(8) == 256
  {
    assert Pow2(4) == 16;
  }

  function ByteBits(b: byte): (s: Bits)
    ensures |s| == 8
  {
    LowBits(b, 8)
  }

  function BitsOf(bytes: seq<byte>): (s: Bits)
    ensures |s| == 8 * |bytes|
  {
    if |bytes| == 0 then [] else ByteBits(bytes[0]) + BitsOf(bytes[1..])
  }

  const ALPHABET := "ABCDEFGHIJKLMNOPQRSTUVWXYZ234567"

  /** Table 3 of RFC 4648. */
  lemma AlphabetIs(v: nat)
    requires v < 32
    ensures |ALPHABET| == 32
    ensures ALPHABET[v] as int == if v < 26 then 'A' as int + v else '2' as int + v - 26
  {
  }

  /** Five bits, filled up with zeros on the right. */
  function Group(s: Bits): (g: Bits)
    requires |s| <= 5
    ensures |g| == 5
  {
    s + seq(5 - |s|, _ => 0)
  }

  function Symbol(g: Bits): char
    requires |g| == 5
  {
    Powers();
    ValFits(g);
    ALPHABET[Val(g)]
  }

  /** The symbols of the bits, group by group; the last group may be short. */
  function Symbols(s: Bits): string {
    if |s| == 0 then ""
    else if |s| <= 5 then [Symbol(Group(s))]
    else [Symbol(s[..5])] + Symbols(s[5..])
  }

  function Encode(bytes: seq<byte>): string {
    Symbols(BitsOf(bytes))
  }

  // ---------------------------------------------------------------- decoding

  function IndexOf(c: char): (v: nat)
    ensures v < 32
  {
    if 'A' <= c <= 'Z' then c as int - 'A' as int else if '2' <= c <= '7' then c as int - '2' as int + 26 else 0
  }

  function SymbolBits(c: char): (s: Bits)
    ensures |s| == 5
  {
    LowBits(IndexOf(c), 5)
  }

  function TextBits(text: string): Bits {
    if |text| == 0 then [] else SymbolBits(text[0]) + TextBits(text[1..])
  }

  function ByteOf(s: Bits): byte
    requires |s| == 8
  {
    Powers();
    ValFits(s);
    Val(s)
  }

  /** Whole bytes; what is left over is dropped. */
  function BytesOf(s: Bits): seq<byte> {
    if |s| < 8 then [] else [ByteOf(s[..8])] + BytesOf(s[8..])
  }

  function Decode(text: string): seq<byte> {
    BytesOf(TextBits(text))
  }

  lemma IndexInverts(v: nat)
    requires v < 32
    ensures IndexOf(ALPHABET[v]) == v
  {
  }

  lemma SymbolInverts(g: Bits)
    requires |g| == 5
    ensures SymbolBits(Symbol(g)) == g
  {
    Powers();
    ValFits(g);
    IndexInverts(Val(g));
    LowBitsOfVal(g);
  }

  lemma ByteInverts(b: byte)
    ensures ByteOf(ByteBits(b)) == b
  {
    Powers();
    ValOfLowBits(b, 8);
  }

  lemma FirstSymbol(g: Bits, rest: string)
    requires |g| == 5
    ensures TextBits([Symbol(g)] + rest) == g + TextBits(rest)
  {
    SymbolInverts(g);
    assert ([Symbol(g)] + rest)[1..] == rest;
  }

  lemma LastSymbol(s: Bits)
    requires 0 < |s| <= 5
    ensures TextBits(Symbols(s)) == s + seq(5 - |s|, _ => 0)
  {
    FirstSymbol(Group(s), "");
    assert [Symbol(Group(s))] + "" == [Symbol(Group(s))];
  }

  /** The first group and the rest. */
  lemma SymbolsStep(s: Bits)
    requires |s| >= 5
    ensures Symbols(s) == [Symbol(s[..5])] + Symbols(s[5..])
  {
    if |s| == 5 {
      assert Group(s) == s[..5] == s && s[5..] == [];
    }
  }

  lemma FiveMore(s: Bits, fill: Bits)
    requires |s| >= 5
    ensures s[..5] + (s[5..] + fill) == s + fill
  {
  }

  /** The text of some bits has those bits, and at most four zeros after them. */
  lemma {:induction false} TextBitsOfSymbols(s: Bits) returns (fill: Bits)
    ensures |fill| < 5 && TextBits(Symbols(s)) == s + fill
    decreases |s|
  {
    if |s| == 0 {
      fill := [];
    } else if |s| <= 5 {
      LastSymbol(s);
      fill := seq(5 - |s|, _ => 0);
    } else {
      fill := TextBitsOfSymbols(s[5..]);
      SymbolsStep(s);
      FirstSymbol(s[..5], Symbols(s[5..]));
      FiveMore(s, fill);
    }
  }

  lemma {:induction false} BytesOfBits(bytes: seq<byte>, fill: Bits)
    requires |fill| < 8
    ensures BytesOf(BitsOf(bytes) + fill) == bytes
  {
    var s := BitsOf(bytes) + fill;
    if |bytes| > 0 {
      ByteInverts(bytes[0]);
      assert s[..8] == ByteBits(bytes[0]) && s[8..] == BitsOf(bytes[1..]) + fill;
      BytesOfBits(bytes[1..], fill);
    }
  }

  /** The encoding can be decoded, at every length. */
  lemma DecodeInvertsEncode(bytes: seq<byte>)
    ensures Decode(Encode(bytes)) == bytes
  {
    var fill := TextBitsOfSymbols(BitsOf(bytes));
    BytesOfBits(bytes, fill);
  }

  /** So different inputs have different encodings. */
  lemma EncodeInjective(a: seq<byte>, b: seq<byte>)
    requires Encode(a) == Encode(b)
    ensures a == b
  {
    DecodeInvertsEncode(a);
    DecodeInvertsEncode(b);
  }

  lemma {:induction false} SymbolsLength(s: Bits)
    ensures |Symbols(s)| == (|s| + 4) / 5
    decreases |s|
  {
    if |s| > 5 {
      SymbolsLength(s[5..]);
    }
  }

  /** n bytes make ceil(8n/5) symbols, and the 15 bytes of a token make 24. */
  lemma EncodedLength(bytes: seq<byte>)
    ensures |Encode(bytes)| == (8 * |bytes| + 4) / 5
    ensures |bytes| == 15 ==> |Encode(bytes)| == 24
  {
    SymbolsLength(BitsOf(bytes));
  }

  // ---------------------------------------------------------------- the register

  const TWO32 := 0x1_0000_0000

  lemma {:induction false} ValAppends(a: Bits, b: Bits)
    ensures Val(a + b) == Val(a) * Pow2(|b|) + Val(b)
  {
    if |b| == 0 {
      assert a + b == a;
    } else {
      var c := b[..|b| - 1];
      ValAppends(a, c);
      assert (a + b)[..|a + b| - 1] == a + c && (a + b)[|a + b| - 1] == b[|b| - 1];
      Doubled(Val(a + c), Val(a), Pow2(|c|), Val(c), b[|b| - 1]);
    }
  }

  lemma Doubled(y: nat, x: nat, p: nat, z: nat, d: nat)
    requires y == x * p + z
    ensures 2 * y + d == x * (2 * p) + (2 * z + d)
  {
  }

  /** The low bits of the register are the pending bits. */
  ghost predicate Pending(buffer: nat, p: Bits) {
    buffer % Pow2(|p|) == Val(p)
  }

  lemma PowStep(n: nat)
    ensures Pow2(n + 5) == 32 * Pow2(n) && Pow2(n + 8) == 256 * Pow2(n)
  {
    assert Pow2(n + 2) == 4 * Pow2(n);
    assert Pow2(n + 4) == 4 * Pow2(n + 2);
    assert Pow2(n + 6) == 4 * Pow2(n + 4);
  }

  /** (buffer << 8) | b, in 32 bits. */
  function ShiftByte(buffer: nat, b: byte): nat {
    (buffer * 256) % TWO32 + b
  }

  /** (buffer << n) & 0x1F, in 32 bits. */
  function ShiftUp(buffer: nat, n: nat): (v: nat)
    ensures v < 32
  {
    (buffer * Pow2(n)) % TWO32 % 32
  }

  lemma ShiftFits(buffer: nat, b: byte)
    ensures ShiftByte(buffer, b) < TWO32
  {
    DivSplits(buffer * 256, 256, 0x100_0000, TWO32);
    assert (buffer * 256) % 256 == 0;
  }

  /** A byte shifted into 32 bits: the bits that fall off at the top are no longer pending. */
  lemma ShiftIn(buffer: nat, p: Bits, b: byte)
    requires |p| < 5 && Pending(buffer, p)
    ensures Pending(ShiftByte(buffer, b), p + ByteBits(b))
  {
    var m := Pow2(|p|);
    PowStep(|p|);
    ByteAppended(p, b);
    ValFits(p);
    WrapKeepsLow(buffer * 256, |p|);
    Scaled(buffer, m, 256, 256 * m);
    LowByte((buffer * 256) % TWO32, 256 * m, Val(p) * 256, b);
  }

  lemma ByteAppended(p: Bits, b: byte)
    ensures Val(p + ByteBits(b)) == Val(p) * 256 + b
  {
    ValAppends(p, ByteBits(b));
    Powers();
    ValOfLowBits(b, 8);
  }

  /** Multiplying by `c` scales the remainder and its divisor. */
  lemma Scaled(x: nat, m: nat, c: nat, mc: nat)
    requires m > 0 && c > 0 && mc == c * m && mc > 0
    ensures (x * c) % mc == (x % m) * c
  {
    var q, r := x / m, x % m;
    MulMore(r, m, c);
    Distribute(x, q, m, r, c);
    DivModUnique(x * c, mc, q, r * c);
  }

  lemma MulMore(a: nat, b: nat, c: nat)
    requires a < b && c > 0
    ensures a * c < c * b
  {
  }

  lemma Distribute(x: nat, q: int, m: nat, r: int, c: nat)
    requires x == q * m + r
    ensures x * c == q * (c * m) + r * c
  {
    assert (q * m) * c == q * (c * m);
  }

  /** The wrap at 32 bits keeps the low 8 to 12 bits. */
  lemma WrapKeepsLow(x: nat, k: nat)
    requires k < 5
    ensures (x % TWO32) % (256 * Pow2(k)) == x % (256 * Pow2(k))
  {
    assert Pow2(0) == 1 && Pow2(1) == 2 && Pow2(2) == 4 && Pow2(3) == 8 && Pow2(4) == 16;
    var m := 256 * Pow2(k);
    var r := if k == 0 then 0x100_0000 else if k == 1 then 0x80_0000 else if k == 2 then 0x40_0000
             else if k == 3 then 0x20_0000 else 0x10_0000;
    DivSplits(x, m, r, TWO32);
  }

  lemma LowByte(y: nat, m: nat, r: nat, b: byte)
    requires m > 0 && y % m == r && r + b < m
    ensures (y + b) % m == r + b
  {
    DivModUnique(y + b, m, y / m, r + b);
  }

  /** The highest five pending bits, taken out of the register. */
  lemma TakeOut(buffer: nat, p: Bits)
    requires |p| >= 5 && Pending(buffer, p)
    ensures (buffer / Pow2(|p| - 5)) % 32 == Val(p[..5]) && Pending(buffer, p[5..])
  {
    var k := |p| - 5;
    PowStep(k);
    assert p == p[..5] + p[5..];
    ValAppends(p[..5], p[5..]);
    ValFits(p[5..]);
    DivSplits(buffer, Pow2(k), 32, 32 * Pow2(k));
    DivModUnique(Val(p), Pow2(k), Val(p[..5]), Val(p[5..]));
  }

  lemma {:induction false} ValOfZeros(n: nat)
    ensures Val(seq(n, _ => 0)) == 0
  {
    if n > 0 {
      ValOfZeros(n - 1);
      assert seq(n, _ => 0)[..n - 1] == seq(n - 1, _ => 0);
    }
  }

  /** The last bits, shifted up to fill a group. */
  lemma FillUp(buffer: nat, p: Bits)
    requires 0 < |p| < 5 && Pending(buffer, p)
    ensures ShiftUp(buffer, 5 - |p|) == Val(Group(p))
  {
    var z := 5 - |p|;
    ValAppends(p, seq(z, _ => 0));
    ValOfZeros(z);
    SmallPowers(|p|);
    Scaled(buffer, Pow2(|p|), Pow2(z), 32);
    MaskOfWrap(buffer * Pow2(z));
  }

  lemma SmallPowers(k: nat)
    requires 0 < k < 5
    ensures Pow2(5 - k) * Pow2(k) == 32
  {
    assert Pow2(1) == 2 && Pow2(2) == 4 && Pow2(3) == 8 && Pow2(4) == 16;
  }

  lemma MaskOfWrap(x: nat)
    ensures x % TWO32 % 32 == x % 32
  {
    DivSplits(x, 32, 0x800_0000, TWO32);
  }

  /** base32Encode: `>>` by n bits and the mask 0x1F are written as division and remainder. */
  method Base32Encode(bytes: seq<byte>) returns (out: string)
    ensures out == Encode(bytes)
  {
    out := "";
    var buffer: nat, bitsInBuffer: nat := 0, 0;
    ghost var p: Bits := [];
    AllAhead(bytes);
    for i := 0 to |bytes|
      invariant bitsInBuffer == |p| < 5 && buffer < TWO32 && Pending(buffer, p)
      invariant out + Symbols(p + BitsOf(bytes[i..])) == Encode(bytes)
    {
      ShiftIn(buffer, p, bytes[i]);
      ShiftFits(buffer, bytes[i]);
      NextByte(p, bytes, i);
      buffer := ShiftByte(buffer, bytes[i]);
      bitsInBuffer := bitsInBuffer + 8;
      p := p + ByteBits(bytes[i]);
      while bitsInBuffer >= 5
        invariant bitsInBuffer == |p| && Pending(buffer, p)
        invariant out + Symbols(p + BitsOf(bytes[i + 1..])) == Encode(bytes)
      {
        TakeOut(buffer, p);
        FirstGroup(out, p, BitsOf(bytes[i + 1..]));
        bitsInBuffer := bitsInBuffer - 5;
        var idx := (buffer / Pow2(bitsInBuffer)) % 32;
        out := out + [ALPHABET[idx]];
        p := p[5..];
      }
    }
    NoneAhead(out, p, bytes);
    if bitsInBuffer > 0 {
      FillUp(buffer, p);
      var idx := ShiftUp(buffer, 5 - bitsInBuffer);
      out := out + [ALPHABET[idx]];
    }
  }

  lemma AllAhead(bytes: seq<byte>)
    ensures "" + Symbols([] + BitsOf(bytes[0..])) == Encode(bytes)
  {
    assert bytes[0..] == bytes && [] + BitsOf(bytes) == BitsOf(bytes);
  }

  lemma NoneAhead(out: string, p: Bits, bytes: seq<byte>)
    requires |p| < 5
    ensures out + Symbols(p + BitsOf(bytes[|bytes|..])) == if p == [] then out else out + [Symbol(Group(p))]
  {
    assert p + BitsOf(bytes[|bytes|..]) == p;
  }

  lemma NextByte(p: Bits, bytes: seq<byte>, i: nat)
    requires i < |bytes|
    ensures p + BitsOf(bytes[i..]) == p + ByteBits(bytes[i]) + BitsOf(bytes[i + 1..])
  {
    assert bytes[i..][1..] == bytes[i + 1..];
  }

  lemma FirstGroup(out: string, p: Bits, rest: Bits)
    requires |p| >= 5
    ensures out + Symbols(p + rest) == out + [Symbol(p[..5])] + Symbols(p[5..] + rest)
  {
    SymbolsStep(p + rest);
    assert (p + rest)[..5] == p[..5] && (p + rest)[5..] == p[5..] + rest;
  }
}
