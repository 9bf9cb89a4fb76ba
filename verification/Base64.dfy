/**
  Base64 (RFC 4648, section 4): the encoding, the decoding of a whole text, and the size
  arithmetic of wire/ceiling.go.
*/
module Base64 {
  import opened Basics

  type sextet = i: int | 0 <= i < 64

  function Symbol(v: sextet): char {
    if v < 26 then ('A' as int + v) as char
    else if v < 52 then ('a' as int + v - 26) as char
    else if v < 62 then ('0' as int + v - 52) as char
    else if v == 62 then '+' else '/'
  }

  /** The value of a symbol, or -1. */
  function Sextet(c: char): (v: int)
    ensures -1 <= v < 64
    ensures v >= 0 ==> Symbol(v) == c
  {
    if 'A' <= c <= 'Z' then c as int - 'A' as int
    else if 'a' <= c <= 'z' then c as int - 'a' as int + 26
    else if '0' <= c <= '9' then c as int - '0' as int + 52
    else if c == '+' then 62
    else if c == '/' then 63
    else -1
  }

  lemma SymbolValue(v: sextet)
    ensures Sextet(Symbol(v)) == v && Symbol(v) !in "= \t\n\r"
  {
  }

  function Encode(b: seq<byte>): string {
    if |b| == 0 then ""
    else if |b| == 1 then [Symbol(b[0] / 4), Symbol(b[0] % 4 * 16), '=', '=']
    else if |b| == 2 then [Symbol(b[0] / 4), Symbol(b[0] % 4 * 16 + b[1] / 16), Symbol(b[1] % 16 * 4), '=']
    else Quantum(b[0], b[1], b[2]) + Encode(b[3..])
  }

  function Quantum(x: byte, y: byte, z: byte): string {
    [Symbol(x / 4), Symbol(x % 4 * 16 + y / 16), Symbol(y % 16 * 4 + z / 64), Symbol(z % 64)]
  }

  datatype Decoded = Bytes(data: seq<byte>) | Corrupt | Short

  /** Four symbols at a time; padding only in the last four; unused low bits are ignored. */
  function Decode(t: string): Decoded {
    if |t| == 0 then Bytes([])
    else if |t| < 4 then Short
    else
      var a, b, c, d := Sextet(t[0]), Sextet(t[1]), Sextet(t[2]), Sextet(t[3]);
      if a < 0 || b < 0 then Corrupt
      else if t[2] == '=' then
        if t[3] == '=' && |t| == 4 then Bytes([First(a, b)]) else Corrupt
      else if c < 0 then Corrupt
      else if t[3] == '=' then
        if |t| == 4 then Bytes([First(a, b), Second(b, c)]) else Corrupt
      else if d < 0 then Corrupt
      else
        match Decode(t[4..])
        case Bytes(more) => Bytes([First(a, b), Second(b, c), Third(c, d)] + more)
        case other => other
  }

  function First(a: sextet, b: sextet): byte { a * 4 + b / 16 }

  function Second(b: sextet, c: sextet): byte { b % 16 * 16 + c / 4 }

  function Third(c: sextet, d: sextet): byte { c % 4 * 64 + d }

  lemma {:induction false} DecodeInvertsEncode(b: seq<byte>)
    ensures Decode(Encode(b)) == Bytes(b)
    decreases |b|
  {
    if |b| == 1 {
      DecodeOne(b);
    } else if |b| == 2 {
      DecodeTwo(b);
    } else if |b| > 2 {
      DecodeQuantum(b[0], b[1], b[2], Encode(b[3..]));
      DecodeInvertsEncode(b[3..]);
      assert [b[0], b[1], b[2]] + b[3..] == b;
    }
  }

  lemma DecodeOne(b: seq<byte>)
    requires |b| == 1
    ensures Decode(Encode(b)) == Bytes(b)
  {
    SymbolValue(b[0] / 4);
    SymbolValue(b[0] % 4 * 16);
    assert First(b[0] / 4, b[0] % 4 * 16) == b[0];
  }

  lemma TwoBytes(b: byte, c: byte, x: int, y: int, z: int)
    requires x == b / 4 && y == b % 4 * 16 + c / 16 && z == c % 16 * 4
    ensures 0 <= x < 64 && 0 <= y < 64 && 0 <= z < 64 && First(x, y) == b && Second(y, z) == c
  {
  }

  lemma DecodeTwo(b: seq<byte>)
    requires |b| == 2
    ensures Decode(Encode(b)) == Bytes(b)
  {
    var x, y, z := b[0] / 4, b[0] % 4 * 16 + b[1] / 16, b[1] % 16 * 4;
    TwoBytes(b[0], b[1], x, y, z);
    SymbolValue(x);
    SymbolValue(y);
    SymbolValue(z);
    assert [b[0], b[1]] == b;
  }

  lemma DecodeQuantum(x: byte, y: byte, z: byte, k: string)
    ensures Decode(Quantum(x, y, z) + k) ==
            match Decode(k)
            case Bytes(more) => Bytes([x, y, z] + more)
            case other => other
  {
    var t := Quantum(x, y, z) + k;
    var a, b, c, d := x / 4, x % 4 * 16 + y / 16, y % 16 * 4 + z / 64, z % 64;
    assert t[0] == Symbol(a) && t[1] == Symbol(b) && t[2] == Symbol(c) && t[3] == Symbol(d);
    assert t[4..] == k;
    SymbolValue(a);
    SymbolValue(b);
    SymbolValue(c);
    SymbolValue(d);
    assert First(a, b) == x && Second(b, c) == y && Third(c, d) == z;
  }

  // ---------------------------------------------------------------- which texts are base64

  /** Table 1 of RFC 4648. */
  lemma Alphabet()
    ensures seq(26, i requires 0 <= i < 26 => Symbol(i)) == "ABCDEFGHIJKLMNOPQRSTUVWXYZ"
    ensures seq(26, i requires 0 <= i < 26 => Symbol(26 + i)) == "abcdefghijklmnopqrstuvwxyz"
    ensures seq(10, i requires 0 <= i < 10 => Symbol(52 + i)) == "0123456789"
    ensures Symbol(62) == '+' && Symbol(63) == '/'
  {
  }

  predicate InAlphabet(c: char) {
    'A' <= c <= 'Z' || 'a' <= c <= 'z' || '0' <= c <= '9' || c == '+' || c == '/'
  }

  /** Groups of four symbols, the last of which may end in one or two padding symbols. */
  ghost predicate IsBase64(s: string) {
    && |s| % 4 == 0
    && (forall i :: 0 <= i < |s| - 2 ==> InAlphabet(s[i]))
    && (|s| > 0 ==>
          && (InAlphabet(s[|s| - 2]) || (s[|s| - 2] == '=' && s[|s| - 1] == '='))
          && (InAlphabet(s[|s| - 1]) || s[|s| - 1] == '='))
  }

  lemma SextetIff(c: char)
    ensures Sextet(c) >= 0 <==> InAlphabet(c)
  {
  }

  /** Exactly these texts are decoded. */
  lemma {:induction false} DecodesIff(s: string)
    ensures Decode(s).Bytes? <==> IsBase64(s)
    decreases |s|
  {
    if |s| > 4 {
      DecodesIff(s[4..]);
      GroupThenRest(s);
      LongDecodes(s);
    } else if |s| == 4 {
      LastDecodes(s);
    }
  }

  lemma LongDecodes(s: string)
    requires |s| > 4
    ensures Decode(s).Bytes? <==> (forall i :: 0 <= i < 4 ==> InAlphabet(s[i])) && Decode(s[4..]).Bytes?
  {
    SextetIff(s[0]);
    SextetIff(s[1]);
    SextetIff(s[2]);
    SextetIff(s[3]);
  }

  lemma LastDecodes(s: string)
    requires |s| == 4
    ensures Decode(s).Bytes? <==> IsBase64(s)
  {
    SextetIff(s[0]);
    SextetIff(s[1]);
    SextetIff(s[2]);
    SextetIff(s[3]);
    assert s[4..] == "";
  }

  lemma GroupThenRest(s: string)
    requires |s| > 4
    ensures IsBase64(s) <==> (forall i :: 0 <= i < 4 ==> InAlphabet(s[i])) && IsBase64(s[4..])
  {
    var t := s[4..];
    if IsBase64(t) && forall i :: 0 <= i < 4 ==> InAlphabet(s[i]) {
      forall i | 0 <= i < |s| - 2 ensures InAlphabet(s[i]) {
        assert i >= 4 ==> t[i - 4] == s[i];
      }
    } else if IsBase64(s) {
      forall i | 0 <= i < |t| - 2 ensures InAlphabet(t[i]) {
        assert t[i] == s[i + 4];
      }
    }
  }

  /** The symbols of the encoding, but for unused low bits in front of padding. */
  ghost predicate SameSymbols(s: string, e: string) {
    |e| == |s| && forall i :: 0 <= i < |s| ==> s[i] == e[i] || (i + 1 < |s| && s[i + 1] == '=')
  }

  /** A text is decoded to the bytes whose encoding it is. */
  lemma {:induction false} EncodeInvertsDecode(s: string)
    requires Decode(s).Bytes?
    ensures SameSymbols(s, Encode(Decode(s).data))
    decreases |s|
  {
    if |s| >= 4 {
      var a, b, c, d := Sextet(s[0]), Sextet(s[1]), Sextet(s[2]), Sextet(s[3]);
      if s[2] == '=' {
        EncodeOne(s, a, b);
      } else if s[3] == '=' {
        EncodeTwo(s, a, b, c);
      } else {
        EncodeInvertsDecode(s[4..]);
        EncodeThree(s, a, b, c, d, Decode(s[4..]).data);
      }
    }
  }

  lemma EncodeOne(s: string, a: sextet, b: sextet)
    requires |s| == 4 && s[2] == '=' && s[3] == '=' && Sextet(s[0]) == a && Sextet(s[1]) == b
    ensures SameSymbols(s, Encode([First(a, b)]))
  {
    assert First(a, b) / 4 == a;
  }

  lemma EncodeTwo(s: string, a: sextet, b: sextet, c: sextet)
    requires |s| == 4 && s[3] == '=' && Sextet(s[0]) == a && Sextet(s[1]) == b && Sextet(s[2]) == c
    ensures SameSymbols(s, Encode([First(a, b), Second(b, c)]))
  {
    assert First(a, b) / 4 == a && First(a, b) % 4 * 16 + Second(b, c) / 16 == b;
  }

  lemma ThreeBytes(a: sextet, b: sextet, c: sextet, d: sextet)
    ensures First(a, b) / 4 == a && First(a, b) % 4 * 16 + Second(b, c) / 16 == b
    ensures Second(b, c) % 16 * 4 + Third(c, d) / 64 == c && Third(c, d) % 64 == d
  {
  }

  lemma EncodeThree(s: string, a: sextet, b: sextet, c: sextet, d: sextet, more: seq<byte>)
    requires |s| >= 4 && Sextet(s[0]) == a && Sextet(s[1]) == b && Sextet(s[2]) == c && Sextet(s[3]) == d
    requires SameSymbols(s[4..], Encode(more))
    ensures SameSymbols(s, Encode([First(a, b), Second(b, c), Third(c, d)] + more))
  {
    var data := [First(a, b), Second(b, c), Third(c, d)] + more;
    ThreeBytes(a, b, c, d);
    assert data[3..] == more;
    assert Encode(data) == Quantum(data[0], data[1], data[2]) + Encode(more);
    GroupAgrees(s, Quantum(data[0], data[1], data[2]), Encode(more));
  }

  lemma GroupAgrees(s: string, q: string, e: string)
    requires |s| >= 4 && |q| == 4 && s[..4] == q && SameSymbols(s[4..], e)
    ensures SameSymbols(s, q + e)
  {
    var t := s[4..];
    forall i | 0 <= i < |s| ensures s[i] == (q + e)[i] || (i + 1 < |s| && s[i + 1] == '=') {
      if i < 4 {
        assert s[i] == s[..4][i] && (q + e)[i] == q[i];
      } else {
        var j := i - 4;
        assert t[j] == e[j] || (j + 1 < |t| && t[j + 1] == '=');
        assert t[j] == s[i] && (q + e)[i] == e[j] && (j + 1 < |t| ==> t[j + 1] == s[i + 1]);
      }
    }
  }

  /** Line breaks inside base64 text are ignored by the decoder. */
  function DropBreaks(s: string): string {
    if |s| == 0 then ""
    else if s[0] == '\n' || s[0] == '\r' then DropBreaks(s[1..])
    else [s[0]] + DropBreaks(s[1..])
  }

  // ---------------------------------------------------------------- sizes

  predicate White(c: char) {
    c == ' ' || c == '\t' || c == '\n' || c == '\r'
  }

  lemma WhiteIs(c: char)
    ensures White(c) <==> c in [' ', '\t', '\n', '\r']
  {
  }

  function DropWhite(s: string): string {
    if |s| == 0 then ""
    else if White(s[0]) then DropWhite(s[1..])
    else [s[0]] + DropWhite(s[1..])
  }

  /** How many bytes of `s` are padding, and how many are neither padding nor white space. */
  function Pads(s: string): nat {
    if |s| == 0 then 0 else Pads(s[..|s| - 1]) + if s[|s| - 1] == '=' then 1 else 0
  }

  function Chars(s: string): nat {
    if |s| == 0 then 0
    else Chars(s[..|s| - 1]) + if s[|s| - 1] == '=' || White(s[|s| - 1]) then 0 else 1
  }

  function LengthFrom(chars: nat, pad: nat): nat {
    var decoded := (chars + pad) / 4 * 3 - pad;
    if decoded < 0 then 0 else decoded
  }

  /** Three bytes for every four symbols and pads, less the pads, and never less than none. */
  lemma LengthIs(chars: nat, pad: nat)
    ensures var groups, n := (chars + pad) / 4, LengthFrom(chars, pad);
            n == if 3 * groups >= pad then 3 * groups - pad else 0
  {
  }

  /** The size a base64 text decodes to, found by counting. */
  method DecodedLength(b64: string) returns (n: nat)
    ensures n == LengthFrom(Chars(b64), Pads(b64))
  {
    var chars, pad := 0, 0;
    for i := 0 to |b64|
      invariant chars == Chars(b64[..i]) && pad == Pads(b64[..i])
    {
      assert b64[..i + 1][..i] == b64[..i];
      if b64[i] == '=' {
        pad := pad + 1;
      } else if !White(b64[i]) {
        chars := chars + 1;
      }
    }
    assert b64[..|b64|] == b64;
    var decoded := (chars + pad) / 4 * 3 - pad;
    n := if decoded < 0 then 0 else decoded;
  }

  lemma {:induction false} CountsFromFront(s: string)
    requires |s| > 0
    ensures Pads(s) == Pads(s[1..]) + if s[0] == '=' then 1 else 0
    ensures Chars(s) == Chars(s[1..]) + if s[0] == '=' || White(s[0]) then 0 else 1
    decreases |s|
  {
    var n := |s| - 1;
    if n > 0 {
      CountsFromFront(s[..n]);
      assert s[..n][1..] == s[1..][..n - 1];
    } else {
      assert s[..n] == s[1..] == "";
    }
  }

  lemma WhiteDoesNotCount(s: string)
    ensures Pads(DropWhite(s)) == Pads(s) && Chars(DropWhite(s)) == Chars(s)
    decreases |s|
  {
    if |s| > 0 {
      CountsFromFront(s);
      WhiteDoesNotCount(s[1..]);
      if !White(s[0]) {
        CountsFromFront(DropWhite(s));
        assert DropWhite(s)[1..] == DropWhite(s[1..]);
      }
    }
  }

  /** The number of padding symbols of an encoding of `n` bytes. */
  function Padding(n: nat): nat {
    if n % 3 == 0 then 0 else 3 - n % 3
  }

  lemma {:induction false} EncodedCounts(b: seq<byte>)
    ensures Pads(Encode(b)) == Padding(|b|)
    ensures |Encode(b)| == (|b| + 2) / 3 * 4 && Chars(Encode(b)) == |Encode(b)| - Padding(|b|)
    decreases |b|
  {
    if 0 < |b| < 3 {
      ShortCounts(b);
    } else if |b| >= 3 {
      QuantumCounts(b);
      EncodedCounts(b[3..]);
      ThreeMore(|b| - 3);
    }
  }

  lemma ThreeMore(n: nat)
    ensures Padding(n + 3) == Padding(n) && (n + 3 + 2) / 3 * 4 == (n + 2) / 3 * 4 + 4
  {
  }

  lemma ShortCounts(b: seq<byte>)
    requires 1 <= |b| <= 2
    ensures Pads(Encode(b)) == 3 - |b| && Chars(Encode(b)) == 1 + |b|
  {
    var e := Encode(b);
    HeadCounts(b);
    FourFromFront(e, "");
    assert e + "" == e;
  }

  lemma QuantumCounts(b: seq<byte>)
    requires |b| >= 3
    ensures var k := Encode(b[3..]);
            Pads(Encode(b)) == Pads(k) && Chars(Encode(b)) == 4 + Chars(k) && |Encode(b)| == 4 + |k|
  {
    var q := Quantum(b[0], b[1], b[2]);
    HeadCounts(b);
    assert forall i :: 0 <= i < 4 ==> Encode(b)[i] == q[i];
    FourFromFront(q, Encode(b[3..]));
  }

  lemma HeadCounts(b: seq<byte>)
    requires |b| > 0
    ensures var h := Encode(b);
            |h| >= 4 && h[0] != '=' && !White(h[0]) && h[1] != '=' && !White(h[1])
            && !White(h[2]) && !White(h[3])
            && (h[2] == '=' <==> |b| == 1) && (h[3] == '=' <==> |b| <= 2)
  {
    if |b| == 1 {
      SymbolValue(b[0] / 4);
      SymbolValue(b[0] % 4 * 16);
    } else if |b| == 2 {
      SymbolValue(b[0] / 4);
      SymbolValue(b[0] % 4 * 16 + b[1] / 16);
      SymbolValue(b[1] % 16 * 4);
    } else {
      SymbolValue(b[0] / 4);
      SymbolValue(b[0] % 4 * 16 + b[1] / 16);
      SymbolValue(b[1] % 16 * 4 + b[2] / 64);
      SymbolValue(b[2] % 64);
    }
  }

  lemma FourFromFront(h: string, k: string)
    requires |h| == 4 && forall i :: 0 <= i < 4 ==> !White(h[i])
    ensures var p := (if h[0] == '=' then 1 else 0) + (if h[1] == '=' then 1 else 0)
                     + (if h[2] == '=' then 1 else 0) + (if h[3] == '=' then 1 else 0);
            Pads(h + k) == p + Pads(k) && Chars(h + k) == 4 - p + Chars(k)
  {
    var s := h + k;
    CountsFromFront(s);
    CountsFromFront(s[1..]);
    CountsFromFront(s[1..][1..]);
    CountsFromFront(s[1..][1..][1..]);
    assert s[1..][1..][1..][1..] == k;
  }

  /** Wherever white space is put into an encoding, counting finds the size of its data. */
  lemma LengthOfEncoding(s: string, b: seq<byte>)
    requires DropWhite(s) == Encode(b)
    ensures LengthFrom(Chars(s), Pads(s)) == |b|
  {
    WhiteDoesNotCount(s);
    EncodedCounts(b);
    Lengths(|b|);
  }

  lemma Lengths(n: nat)
    ensures (n + 2) / 3 * 4 >= Padding(n) && LengthFrom((n + 2) / 3 * 4 - Padding(n), Padding(n)) == n
  {
  }

  /** The byte ceiling of the wire for payloads of at most `maxBytes` decoded bytes. */
  function HardCeiling(maxBytes: nat): nat {
    maxBytes * 4 / 3 + 64 * 1024
  }

  function DataSize(payloads: seq<seq<byte>>): nat {
    if |payloads| == 0 then 0 else |payloads[0]| + DataSize(payloads[1..])
  }

  function EncodedSize(payloads: seq<seq<byte>>): nat {
    if |payloads| == 0 then 0 else |Encode(payloads[0])| + EncodedSize(payloads[1..])
  }

  lemma {:induction false} EncodedSizeBound(payloads: seq<seq<byte>>)
    ensures 3 * EncodedSize(payloads) <= 4 * DataSize(payloads) + 8 * |payloads|
    decreases |payloads|
  {
    if |payloads| > 0 {
      EncodedCounts(payloads[0]);
      EncodedSizeBound(payloads[1..]);
    }
  }

  /** Four thirds of the cap, rounded down once, and 64 KiB; of 50 MiB that is 69970602. */
  lemma CeilingIs(maxBytes: nat)
    ensures var h := HardCeiling(maxBytes) - 65536; 3 * h <= 4 * maxBytes < 3 * h + 3
    ensures HardCeiling(52428800) == 69970602
  {
  }

  lemma {:induction false} EncodingGrows(payloads: seq<seq<byte>>)
    ensures 4 * DataSize(payloads) <= 3 * EncodedSize(payloads)
    decreases |payloads|
  {
    if |payloads| > 0 {
      EncodedCounts(payloads[0]);
      EncodingGrows(payloads[1..]);
    }
  }

  /** The ceiling lets payloads go over the cap by no more than three quarters of 64 KiB. */
  lemma CeilingHolds(payloads: seq<seq<byte>>, others: nat, maxBytes: nat)
    requires others + EncodedSize(payloads) <= HardCeiling(maxBytes)
    ensures DataSize(payloads) <= maxBytes + 48 * 1024
  {
    EncodingGrows(payloads);
  }

  /** Payloads within the cap never trip the ceiling when the other bytes leave 3 for each. */
  lemma EnvelopeFits(payloads: seq<seq<byte>>, others: nat, maxBytes: nat)
    requires DataSize(payloads) <= maxBytes
    requires others + 3 * |payloads| <= 64 * 1024
    ensures EncodedSize(payloads) <= maxBytes * 4 / 3 + 3 * |payloads|
    ensures others + EncodedSize(payloads) <= HardCeiling(maxBytes)
  {
    EncodedSizeBound(payloads);
  }
}
