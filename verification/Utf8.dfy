/**
  UTF-8 (RFC 3629): the hand-written encoder of the JSON string reader, and an
  independent decoder written from the byte-range table of section 4.
*/
module Utf8 {
  import opened Basics

  /** The code points that UTF-8 can carry: everything but the surrogates. */
  predicate Scalar(cp: int) {
    0 <= cp < 0xD800 || 0xE000 <= cp < 0x110000
  }

  /** Shifts and masks on disjoint bit fields are written as division and remainder. */
  function EncodeRune(cp: int): string
    requires 0 <= cp < 0x110000
  {
    if cp < 0x80 then
      [cp as char]
    else if cp < 0x800 then
      [(0xC0 + cp / 64) as char, (0x80 + cp % 64) as char]
    else if cp < 0x10000 then
      [(0xE0 + cp / 4096) as char, (0x80 + cp / 64 % 64) as char, (0x80 + cp % 64) as char]
    else
      [(0xF0 + cp / 262144) as char, (0x80 + cp / 4096 % 64) as char,
       (0x80 + cp / 64 % 64) as char, (0x80 + cp % 64) as char]
  }

  datatype Rune = Rune(cp: int, width: nat)

  predicate Tail(c: char) {
    0x80 <= c as int <= 0xBF
  }

  /** Which second bytes may follow a three- or four-byte lead (RFC 3629, section 4). */
  predicate SecondOk(lead: int, c: char) {
    var b := c as int;
    if lead == 0xE0 then 0xA0 <= b <= 0xBF
    else if lead == 0xED then 0x80 <= b <= 0x9F
    else if lead == 0xF0 then 0x90 <= b <= 0xBF
    else if lead == 0xF4 then 0x80 <= b <= 0x8F
    else 0x80 <= b <= 0xBF
  }

  /** The rune at the front of `s`, or None when no valid encoding starts there. */
  function DecodeRune(s: string): Option<Rune> {
    if |s| == 0 then None
    else
      var a := s[0] as int;
      if a <= 0x7F then
        Some(Rune(a, 1))
      else if 0xC2 <= a <= 0xDF && |s| >= 2 && Tail(s[1]) then
        Some(Rune((a - 0xC0) * 64 + (s[1] as int - 0x80), 2))
      else if 0xE0 <= a <= 0xEF && |s| >= 3 && SecondOk(a, s[1]) && Tail(s[2]) then
        Some(Rune((a - 0xE0) * 4096 + (s[1] as int - 0x80) * 64 + (s[2] as int - 0x80), 3))
      else if 0xF0 <= a <= 0xF4 && |s| >= 4 && SecondOk(a, s[1]) && Tail(s[2]) && Tail(s[3]) then
        Some(Rune((a - 0xF0) * 262144 + (s[1] as int - 0x80) * 4096
                  + (s[2] as int - 0x80) * 64 + (s[3] as int - 0x80), 4))
      else
        None
  }

  lemma ThreeDigits(cp: int, a: int, b: int, c: int)
    requires 0 <= b < 64 && 0 <= c < 64
    ensures cp == a * 4096 + b * 64 + c <==> cp / 4096 == a && cp / 64 % 64 == b && cp % 64 == c
  {
    assert cp / 4096 == cp / 64 / 64;
    if cp == a * 4096 + b * 64 + c {
      assert cp / 64 == a * 64 + b;
    }
  }

  lemma FourDigits(cp: int, a: int, b: int, c: int, d: int)
    requires 0 <= b < 64 && 0 <= c < 64 && 0 <= d < 64
    ensures cp == a * 262144 + b * 4096 + c * 64 + d
            <==> cp / 262144 == a && cp / 4096 % 64 == b && cp / 64 % 64 == c && cp % 64 == d
  {
    assert cp / 262144 == cp / 4096 / 64;
    ThreeDigits(cp, cp / 4096, c, d);
    if cp == a * 262144 + b * 4096 + c * 64 + d {
      assert cp / 4096 == a * 64 + b;
    }
  }

  /** Decoding what the encoder wrote gives the code point back and stops at its end. */
  lemma DecodeInvertsEncode(cp: int, rest: string)
    requires Scalar(cp)
    ensures DecodeRune(EncodeRune(cp) + rest) == Some(Rune(cp, |EncodeRune(cp)|))
  {
    var e := EncodeRune(cp);
    var s := e + rest;
    if cp < 0x80 {
      assert s[0] == e[0];
    } else if cp < 0x800 {
      assert s[0] == e[0] && s[1] == e[1];
    } else if cp < 0x10000 {
      assert s[0] == e[0] && s[1] == e[1] && s[2] == e[2];
      ThreeDigits(cp, cp / 4096, cp / 64 % 64, cp % 64);
      ThreeBytes(s, cp / 4096, cp / 64 % 64, cp % 64);
    } else {
      assert s[0] == e[0] && s[1] == e[1] && s[2] == e[2] && s[3] == e[3];
      FourDigits(cp, cp / 262144, cp / 4096 % 64, cp / 64 % 64, cp % 64);
      FourBytes(s, cp / 262144, cp / 4096 % 64, cp / 64 % 64, cp % 64);
    }
  }

  lemma ThreeBytes(s: string, a: int, b: int, c: int)
    requires |s| >= 3 && 0 <= a < 16 && 0 <= b < 64 && 0 <= c < 64
    requires s[0] as int == 0xE0 + a && s[1] as int == 0x80 + b && s[2] as int == 0x80 + c
    requires 0x800 <= a * 4096 + b * 64 + c
    requires Scalar(a * 4096 + b * 64 + c)
    ensures DecodeRune(s) == Some(Rune(a * 4096 + b * 64 + c, 3))
  {
  }

  lemma FourBytes(s: string, a: int, b: int, c: int, d: int)
    requires |s| >= 4 && 0 <= a < 8 && 0 <= b < 64 && 0 <= c < 64 && 0 <= d < 64
    requires s[0] as int == 0xF0 + a && s[1] as int == 0x80 + b
    requires s[2] as int == 0x80 + c && s[3] as int == 0x80 + d
    requires 0x10000 <= a * 262144 + b * 4096 + c * 64 + d < 0x110000
    ensures DecodeRune(s) == Some(Rune(a * 262144 + b * 4096 + c * 64 + d, 4))
  {
  }

  /** Every accepted encoding is the one the encoder writes: encodings are unique. */
  lemma EncodeInvertsDecode(s: string)
    requires DecodeRune(s).Some?
    ensures var r := DecodeRune(s).value;
            Scalar(r.cp) && 1 <= r.width <= |s| && EncodeRune(r.cp) == s[..r.width]
  {
    var r := DecodeRune(s).value;
    var a, e := s[0] as int, s[..r.width];
    if r.width == 3 {
      var x, y, z := a - 0xE0, s[1] as int - 0x80, s[2] as int - 0x80;
      ThreeDigits(r.cp, x, y, z);
    } else if r.width == 4 {
      FourDigits(r.cp, a - 0xF0, s[1] as int - 0x80, s[2] as int - 0x80, s[3] as int - 0x80);
    }
  }
}
