/**
  The grammar of JSON text (RFC 8259) as trees that keep every choice a writer has:
  white space, the spelling of each character, the form of each number. `Spell...(x, k)`
  is the text of `x` with `k` behind it.
*/
module JsonText {
  import opened ByteStream
  import opened JsonString
  import Utf8

  // ---------------------------------------------------------------- strings

  /** One piece of a string: a byte as it is, or one of the escapes of RFC 8259, section 7. */
  datatype Piece =
    | Raw(c: char)
    | Short(letter: char)
    | Unicode(hex: string)
    | Pair(hi: string, lo: string)

  predicate ValidPiece(p: Piece) {
    match p
    case Raw(c) => c != '"' && c != '\\'
    case Short(l) => l in "\"\\/bfnrt"
    case Unicode(h) => |h| == 4 && Hex(h, 4) >= 0 && Utf8.Scalar(Hex(h, 4))
    case Pair(hi, lo) => |hi| == 4 && |lo| == 4 && High(Hex(hi, 4)) && Low(Hex(lo, 4))
  }

  function PieceText(p: Piece): string {
    match p
    case Raw(c) => [c]
    case Short(l) => ['\\', l]
    case Unicode(h) => "\\u" + h
    case Pair(hi, lo) => "\\u" + hi + "\\u" + lo
  }

  /** The bytes a piece stands for: UTF-8 for the escapes that name a code point. */
  function PieceMeaning(p: Piece): string
    requires ValidPiece(p)
  {
    match p
    case Raw(c) => [c]
    case Short(l) =>
      [if l == 'b' then 8 as char else if l == 'f' then 12 as char else if l == 'n' then 10 as char
       else if l == 'r' then 13 as char else if l == 't' then 9 as char else l]
    case Unicode(h) => Utf8.EncodeRune(Hex(h, 4))
    case Pair(hi, lo) => Utf8.EncodeRune(Combine(Hex(hi, 4), Hex(lo, 4)))
  }

  ghost predicate ValidPieces(ps: seq<Piece>) {
    forall p <- ps :: ValidPiece(p)
  }

  ghost function Meaning(ps: seq<Piece>): string
    requires ValidPieces(ps)
  {
    if |ps| == 0 then "" else PieceMeaning(ps[0]) + Meaning(ps[1..])
  }

  function SpellPieces(ps: seq<Piece>, k: string): string {
    if |ps| == 0 then k else PieceText(ps[0]) + SpellPieces(ps[1..], k)
  }

  lemma HexOfPrefix(s: string, t: string, n: nat)
    requires n <= |s| && n <= |t| && s[..n] == t[..n]
    ensures Hex(s, n) == Hex(t, n)
  {
    if n > 0 {
      assert s[..n - 1] == s[..n][..n - 1] && t[..n - 1] == t[..n][..n - 1];
      assert s[n - 1] == s[..n][n - 1] && t[n - 1] == t[..n][n - 1];
      HexOfPrefix(s, t, n - 1);
    }
  }

  /** Each piece is read as one token that yields the piece's meaning. */
  lemma PieceIsToken(p: Piece, k: string, ending: Ending)
    requires ValidPiece(p)
    ensures NextToken(PieceText(p) + k, ending) == Output(PieceMeaning(p), |PieceText(p)|)
  {
    if p.Raw? {
      RawIsToken(p.c, k, ending);
    } else {
      EscapeIsToken(PieceText(p), k, ending);
      EscapeOfPiece(p, k);
    }
  }

  lemma RawIsToken(c: char, k: string, ending: Ending)
    requires ValidPiece(Raw(c))
    ensures NextToken([c] + k, ending) == Output([c], 1)
  {
    assert ([c] + k)[..1] == [c];
  }

  lemma EscapeIsToken(t: string, k: string, ending: Ending)
    requires |t| > 0 && t[0] == '\\'
    ensures NextToken(t + k, ending)
         == match Escape(t[1..] + k)
            case Output(o, used) => Output(o, used + 1)
            case other => other
  {
    assert (t + k)[0] == '\\' && (t + k)[1..] == t[1..] + k;
  }

  lemma EscapeOfPiece(p: Piece, k: string)
    requires ValidPiece(p) && !p.Raw?
    ensures Escape(PieceText(p)[1..] + k) == Output(PieceMeaning(p), |PieceText(p)| - 1)
  {
    match p
    case Short(l) =>
      assert PieceText(p)[1..] == [l];
      ShortIsEscape(l, k);
    case Unicode(h) =>
      assert PieceText(p)[1..] == "u" + h;
      UnicodeIsEscape(h, k);
    case Pair(hi, lo) =>
      assert PieceText(p)[1..] == "u" + hi + "\\u" + lo;
      PairIsEscape(hi, lo, k);
  }

  lemma ShortIsEscape(l: char, k: string)
    requires ValidPiece(Short(l))
    ensures Escape([l] + k) == Output(PieceMeaning(Short(l)), 1)
  {
  }

  lemma UnicodeIsEscape(h: string, k: string)
    requires ValidPiece(Unicode(h))
    ensures Escape("u" + h + k) == Output(PieceMeaning(Unicode(h)), 5)
  {
    var t := ("u" + h + k)[1..];
    assert t[..4] == h;
    HexOfPrefix(t, h, 4);
    Hex4Range(t);
  }

  lemma PairIsEscape(hi: string, lo: string, k: string)
    requires ValidPiece(Pair(hi, lo))
    ensures Escape("u" + hi + "\\u" + lo + k) == Output(PieceMeaning(Pair(hi, lo)), 11)
  {
    var t := ("u" + hi + "\\u" + lo + k)[1..];
    assert t[..4] == hi && t[4] == '\\' && t[5] == 'u' && t[6..][..4] == lo;
    HexOfPrefix(t, hi, 4);
    HexOfPrefix(t[6..], lo, 4);
    Hex4Range(t);
  }

  /** Any spelling of a string, whatever escapes it uses, is read back as its meaning. */
  lemma {:induction false} UnescapeSpelled(ps: seq<Piece>, k: string, ending: Ending)
    requires ValidPieces(ps)
    ensures Unescape(SpellPieces(ps, "\"" + k), ending) == Text(Meaning(ps), Closed(k))
    decreases |ps|
  {
    if |ps| > 0 {
      var rest := SpellPieces(ps[1..], "\"" + k);
      var head := PieceText(ps[0]);
      PieceIsToken(ps[0], rest, ending);
      assert (head + rest)[|head|..] == rest;
      UnescapeSpelled(ps[1..], k, ending);
    }
  }

  /** Conversely, whatever the reader accepts is the spelling of some pieces. */
  lemma {:induction false} AcceptedIsSpelled(s: string, ending: Ending) returns (ps: seq<Piece>)
    requires Unescape(s, ending).end.Closed?
    ensures ValidPieces(ps)
    ensures var t := Unescape(s, ending); s == SpellPieces(ps, "\"" + t.end.rest) && t.out == Meaning(ps)
    decreases |s|
  {
    if s[0] == '"' {
      ps := [];
    } else {
      var t := NextToken(s, ending);
      var p := TokenIsPiece(s, ending);
      var more := AcceptedIsSpelled(s[t.used..], ending);
      ps := [p] + more;
      assert ps[1..] == more;
      assert s == s[..t.used] + s[t.used..];
    }
  }

  lemma TokenIsPiece(s: string, ending: Ending) returns (p: Piece)
    requires NextToken(s, ending).Output?
    ensures ValidPiece(p)
    ensures var t := NextToken(s, ending); PieceText(p) == s[..t.used] && PieceMeaning(p) == t.text
  {
    if s[0] != '\\' {
      p := Raw(s[0]);
    } else {
      p := EscapeIsPiece(s[1..]);
      var used := Escape(s[1..]).used;
      assert s[..used + 1] == [s[0]] + s[1..][..used];
      assert PieceText(p) == [s[0]] + PieceText(p)[1..];
    }
  }

  lemma EscapeIsPiece(s: string) returns (p: Piece)
    requires Escape(s).Output?
    ensures ValidPiece(p) && |PieceText(p)| > 0 && PieceText(p)[0] == '\\'
    ensures PieceText(p)[1..] == s[..Escape(s).used] && PieceMeaning(p) == Escape(s).text
  {
    if s[0] != 'u' {
      p := Short(s[0]);
    } else {
      p := UnicodeIsPiece(s[1..]);
      var used := UnicodeEscape(s[1..]).used;
      assert s[..used + 1] == [s[0]] + s[1..][..used];
      assert PieceText(p)[1..] == "u" + PieceText(p)[2..];
    }
  }

  lemma UnicodeIsPiece(s: string) returns (p: Piece)
    requires UnicodeEscape(s).Output?
    ensures ValidPiece(p) && (p.Unicode? || p.Pair?)
    ensures PieceText(p)[2..] == s[..UnicodeEscape(s).used] && PieceMeaning(p) == UnicodeEscape(s).text
  {
    Hex4Range(s);
    HexOfPrefix(s, s[..4], 4);
    if High(Hex(s, 4)) {
      p := Pair(s[..4], s[6..10]);
      assert s[6..][..4] == s[6..10];
      HexOfPrefix(s[6..], s[6..10], 4);
      assert s[..10] == s[..4] + "\\u" + s[6..10];
    } else {
      p := Unicode(s[..4]);
    }
  }
}
