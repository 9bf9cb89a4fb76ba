/** What an accepted unicode escape stands for: one code point, in its one UTF-8 encoding. */
module JsonUnicode {
  import opened Basics
  import opened JsonString
  import opened JsonText
  import Utf8

  /** The code point of an accepted escape, from its four digits on. */
  function CodePoint(s: string): int
    requires |s| >= 4
  {
    var r := Hex(s, 4);
    if High(r) && |s| >= 10 then Combine(r, Hex(s[6..], 4)) else r
  }

  /** The digits are those of one code point, or of a pair, which s goes on with. */
  ghost predicate Spells(s: string, p: Piece) {
    ValidPiece(p) && (p.Unicode? || p.Pair?) && PieceText(p)[2..] <= s
  }

  /** Exactly the spellings of a code point are accepted: its four digits, or those of its two surrogates. */
  lemma AcceptedIff(s: string)
    ensures UnicodeEscape(s).Output? <==> exists p: Piece :: Spells(s, p)
  {
    if UnicodeEscape(s).Output? {
      var p := UnicodeIsPiece(s);
      assert Spells(s, p);
    }
    forall p: Piece | Spells(s, p) ensures UnicodeEscape(s).Output? {
      SpelledIsAccepted(s, p);
    }
  }

  lemma SpelledIsAccepted(s: string, p: Piece)
    requires Spells(s, p)
    ensures UnicodeEscape(s) == Output(PieceMeaning(p), |PieceText(p)| - 2)
  {
    var n := |PieceText(p)| - 2;
    EscapeOfPiece(p, s[n..]);
    BehindU(PieceText(p), s);
    EscapeOfDigits(s);
  }

  lemma BehindU(text: string, s: string)
    requires |text| > 2 && text[1] == 'u' && text[2..] <= s
    ensures text[1..] + s[|text| - 2..] == ['u'] + s
  {
  }

  lemma EscapeOfDigits(s: string)
    ensures Escape(['u'] + s) == match UnicodeEscape(s)
                                 case Output(o, used) => Output(o, used + 1)
                                 case other => other
  {
    assert (['u'] + s)[1..] == s;
  }

  /** A pair of surrogates and a code point above the first plane determine each other. */
  lemma PairsBiject(hi: int, lo: int, cp: int)
    requires High(hi) && Low(lo) && 0x10000 <= cp < 0x110000
    ensures 0x10000 <= Combine(hi, lo) < 0x110000
    ensures Combine(hi, lo) == cp <==> hi == 0xD800 + (cp - 0x10000) / 1024 && lo == 0xDC00 + (cp - 0x10000) % 1024
    ensures High(0xD800 + (cp - 0x10000) / 1024) && Low(0xDC00 + (cp - 0x10000) % 1024)
  {
  }

  /**
    An accepted escape gives the encoding of a code point that is no surrogate. A decoder
    reads that code point back, and no other bytes are an encoding of it.
   */
  lemma EscapeIsItsEncoding(s: string, rest: string, other: string)
    requires UnicodeEscape(s).Output?
    ensures |s| >= 4 && Utf8.Scalar(CodePoint(s))
    ensures var out := UnicodeEscape(s).text;
            && Utf8.DecodeRune(out + rest) == Some(Utf8.Rune(CodePoint(s), |out|))
            && (Utf8.DecodeRune(other) == Some(Utf8.Rune(CodePoint(s), |other|)) ==> other == out)
  {
    Hex4Range(s);
    var cp := CodePoint(s);
    if High(Hex(s, 4)) {
      Hex4Range(s[6..]);
      PairsBiject(Hex(s, 4), Hex(s[6..], 4), 0x10000);
    }
    Utf8.DecodeInvertsEncode(cp, rest);
    if Utf8.DecodeRune(other).Some? {
      Utf8.EncodeInvertsDecode(other);
    }
  }

  // ---------------------------------------------------------------- hexadecimal digits

  /** The digit for a value below sixteen, in lower or in upper case. */
  function HexChar(d: nat, upper: bool): char
    requires d < 16
  {
    if d < 10 then ('0' as int + d) as char else ((if upper then 'A' else 'a') as int + d - 10) as char
  }

  function Hex4(v: nat, upper: bool): string
    requires v < 0x10000
  {
    [HexChar(v / 4096, upper), HexChar(v / 256 % 16, upper), HexChar(v / 16 % 16, upper), HexChar(v % 16, upper)]
  }

  lemma DigitInverts(d: nat, upper: bool)
    requires d < 16
    ensures HexDigit(HexChar(d, upper)) == d
  {
  }

  lemma HexOn(s: string, k: nat, d: nat)
    requires k < |s| && Hex(s, k) >= 0 && HexDigit(s[k]) == d
    ensures Hex(s, k + 1) == 16 * Hex(s, k) + d
  {
  }

  /** Four digits are read as the number they write. */
  lemma HexInverts(v: nat, upper: bool)
    requires v < 0x10000
    ensures Hex(Hex4(v, upper), 4) == v
  {
    var s := Hex4(v, upper);
    DigitInverts(v / 4096, upper);
    DigitInverts(v / 256 % 16, upper);
    DigitInverts(v / 16 % 16, upper);
    DigitInverts(v % 16, upper);
    HexOn(s, 0, v / 4096);
    HexOn(s, 1, v / 256 % 16);
    HexOn(s, 2, v / 16 % 16);
    HexOn(s, 3, v % 16);
    FourHex(v);
  }

  lemma FourHex(v: nat)
    ensures 16 * (16 * (16 * (v / 4096) + v / 256 % 16) + v / 16 % 16) + v % 16 == v
  {
    assert v / 16 / 16 == v / 256 && v / 256 / 16 == v / 4096;
  }

  /** Other characters are no digits. */
  lemma NoDigit(c: char)
    ensures HexDigit(c) < 0 <==> !('0' <= c <= '9') && !('a' <= c <= 'f') && !('A' <= c <= 'F')
  {
  }
}
