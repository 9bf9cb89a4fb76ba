/**
  The stream decoder of Go's encoding/base64: it takes its text through a buffer of fixed
  size, without the line breaks, and decodes what is there in whole groups of four.
*/
module Base64Stream {
  import opened Basics
  import opened Base64

  const BUFFER: nat := 1024

  /** One piece decoded after another. */
  function Joined(a: Decoded, b: Decoded): Decoded {
    match (a, b)
    case (Bytes(d), Bytes(more)) => Bytes(d + more)
    case (Bytes(_), _) => b
    case _ => a
  }

  /** The part of the buffer that is decoded, and what is left in it for the next read. */
  function Groups(buffer: string): (groups: string)
    ensures |groups| % 4 == 0
  {
    buffer[..|buffer| / 4 * 4]
  }

  function Left(buffer: string): (left: string)
    ensures |left| < 4
  {
    buffer[|buffer| / 4 * 4..]
  }

  /** The buffer when as much of `t` as it has room for has been read behind `left`. */
  function Filled(left: string, t: string): string
    requires |left| < 4
  {
    left + DropBreaks(t[..Min(BUFFER - |left|, |t|)])
  }

  /** What the text `t` decodes to while `left` is in the buffer. */
  function StreamFrom(left: string, t: string): Decoded
    requires |left| < 4
    decreases |t|
  {
    if |t| == 0 then
      if left == "" then Bytes([]) else Short
    else
      var buffer := Filled(left, t);
      Joined(Decode(Groups(buffer)), StreamFrom(Left(buffer), t[Min(BUFFER - |left|, |t|)..]))
  }

  function StreamDecode(t: string): Decoded {
    StreamFrom("", t)
  }

  // ---------------------------------------------------------------- one read after another

  lemma NothingInFront(a: Decoded)
    ensures Joined(Bytes([]), a) == a
  {
    if a.Bytes? {
      assert [] + a.data == a.data;
    }
  }

  lemma JoinedRegroups(a: Decoded, b: Decoded, c: Decoded)
    ensures Joined(a, Joined(b, c)) == Joined(Joined(a, b), c)
  {
    if a.Bytes? && b.Bytes? && c.Bytes? {
      assert a.data + (b.data + c.data) == a.data + b.data + c.data;
    }
  }

  lemma {:induction false} WholeGroups(s: string)
    requires |s| % 4 == 0
    ensures Decode(s) != Short
    decreases |s|
  {
    if s != "" {
      WholeGroups(s[4..]);
    }
  }

  /** One more piece read: its groups are decoded, or corrupt. */
  lemma DecodeNext(data: seq<byte>, left: string, t: string, piece: string)
    requires |left| < 4 && piece == t[..Min(BUFFER - |left|, |t|)]
    ensures var buffer := left + DropBreaks(piece);
            var groups := Decode(Groups(buffer));
            && groups != Short
            && Joined(Bytes(data), StreamFrom(left, t))
            == if groups == Corrupt then Corrupt
               else Joined(Bytes(data + groups.data), StreamFrom(Left(buffer), t[|piece|..]))
  {
    var buffer := left + DropBreaks(piece);
    WholeGroups(Groups(buffer));
    StreamNext(left, t, piece);
    JoinedStep(data, Decode(Groups(buffer)), StreamFrom(Left(buffer), t[|piece|..]));
  }

  lemma JoinedStep(data: seq<byte>, groups: Decoded, rest: Decoded)
    requires groups != Short
    ensures Joined(Bytes(data), Joined(groups, rest))
         == if groups == Corrupt then Corrupt else Joined(Bytes(data + groups.data), rest)
  {
    JoinedRegroups(Bytes(data), groups, rest);
  }

  lemma StreamNext(left: string, t: string, piece: string)
    requires |left| < 4 && piece == t[..Min(BUFFER - |left|, |t|)]
    ensures var buffer := left + DropBreaks(piece);
            StreamFrom(left, t) == Joined(Decode(Groups(buffer)), StreamFrom(Left(buffer), t[|piece|..]))
  {
    if t == "" {
      assert left + DropBreaks(piece) == left;
      NothingInFront(StreamFrom(left, t));
    }
  }

  lemma AllDecoded(data: seq<byte>, left: string)
    requires |left| < 4
    ensures Joined(Bytes(data), StreamFrom(left, "")) == if left == "" then Bytes(data) else Short
  {
    assert data + [] == data;
  }

  // ---------------------------------------------------------------- against the one-shot decoder

  lemma {:induction false} DropBreaksJoins(s: string, t: string)
    ensures DropBreaks(s + t) == DropBreaks(s) + DropBreaks(t)
    decreases |s|
  {
    if s == "" {
      assert s + t == t;
    } else {
      DropBreaksJoins(s[1..], t);
      assert (s + t)[1..] == s[1..] + t;
    }
  }

  /** Four symbols without padding. */
  function Group(a: char, b: char, c: char, d: char): Decoded {
    var w, x, y, z := Sextet(a), Sextet(b), Sextet(c), Sextet(d);
    if w < 0 || x < 0 || y < 0 || z < 0 then Corrupt else Bytes([First(w, x), Second(x, y), Third(y, z)])
  }

  lemma GroupFirst(s: string)
    requires |s| >= 4 && s[2] != '=' && s[3] != '='
    ensures Decode(s) == Joined(Group(s[0], s[1], s[2], s[3]), Decode(s[4..]))
  {
  }

  lemma DropBreaksSplits(t: string, k: nat)
    requires k <= |t|
    ensures DropBreaks(t) == DropBreaks(t[..k]) + DropBreaks(t[k..])
  {
    assert t == t[..k] + t[k..];
    DropBreaksJoins(t[..k], t[k..]);
  }

  lemma FirstGroup(s: string, g: string)
    requires |s| >= 4 && g == s[..4] && '=' !in g
    ensures Decode(s) == Joined(Decode(g), Decode(s[4..]))
  {
    assert g[2] in g && g[3] in g;
    GroupFirst(s);
    GroupFirst(g);
    NothingBehind(Group(s[0], s[1], s[2], s[3]), g[4..]);
  }

  lemma NothingBehind(a: Decoded, t: string)
    requires t == ""
    ensures Joined(a, Decode(t)) == a
  {
    if a.Bytes? {
      assert a.data + [] == a.data;
    }
  }

  lemma FourFirst(a: string, b: string)
    requires |a| >= 4 && '=' !in a
    ensures (a + b)[..4] == a[..4] && (a + b)[4..] == a[4..] + b && '=' !in a[..4] && '=' !in a[4..]
  {
    assert a == a[..4] + a[4..];
  }

  /** Groups without padding can be decoded before the others. */
  lemma {:induction false} DecodeJoins(a: string, b: string)
    requires |a| % 4 == 0 && '=' !in a
    ensures Decode(a + b) == Joined(Decode(a), Decode(b))
    decreases |a|
  {
    if a == "" {
      assert a + b == b;
      NothingInFront(Decode(b));
    } else {
      FourFirst(a, b);
      FirstGroup(a + b, a[..4]);
      FirstGroup(a, a[..4]);
      DecodeJoins(a[4..], b);
      JoinedRegroups(Decode(a[..4]), Decode(a[4..]), Decode(b));
    }
  }

  /** There is padding, if at all, only in the last four symbols. */
  predicate PaddedAtEnd(s: string) {
    |s| >= 4 ==> '=' !in s[..|s| - 4]
  }

  lemma {:induction false} DecodedIsPaddedAtEnd(s: string)
    requires Decode(s).Bytes?
    ensures |s| % 4 == 0 && PaddedAtEnd(s)
    decreases |s|
  {
    if |s| > 4 {
      assert '=' !in s[..4] by {
        assert s[..4] == [s[0], s[1], s[2], s[3]];
      }
      DecodedIsPaddedAtEnd(s[4..]);
      assert s[..|s| - 4] == s[..4] + s[4..][..|s| - 8];
    }
  }

  lemma BufferFirst(left: string, t: string)
    requires |left| < 4
    ensures var buffer := Filled(left, t);
            left + DropBreaks(t) == Groups(buffer) + (Left(buffer) + DropBreaks(t[Min(BUFFER - |left|, |t|)..]))
  {
    var k := Min(BUFFER - |left|, |t|);
    DropBreaksSplits(t, k);
    GroupsFirst(left, DropBreaks(t[..k]), DropBreaks(t[k..]));
  }

  lemma GroupsFirst(left: string, a: string, b: string)
    ensures left + (a + b) == Groups(left + a) + (Left(left + a) + b)
  {
    var buffer := left + a;
    assert buffer == Groups(buffer) + Left(buffer);
    assert left + (a + b) == buffer + b;
    Regroup(Groups(buffer), Left(buffer), b);
  }

  lemma Regroup(a: string, b: string, c: string)
    ensures a + b + c == a + (b + c)
  {
  }

  /** Text with padding only at its end is accepted by both decoders, or by none. */
  lemma {:induction false} StreamIsOneShot(left: string, t: string)
    requires |left| < 4 && PaddedAtEnd(left + DropBreaks(t))
    ensures var all := Decode(left + DropBreaks(t));
            all.Bytes? || StreamFrom(left, t).Bytes? ==> StreamFrom(left, t) == all
    decreases |t|
  {
    if t == "" {
      assert left + DropBreaks(t) == left;
    } else {
      var k := Min(BUFFER - |left|, |t|);
      var buffer := Filled(left, t);
      var rest := Left(buffer) + DropBreaks(t[k..]);
      BufferFirst(left, t);
      PaddedRest(Groups(buffer), rest);
      StreamIsOneShot(Left(buffer), t[k..]);
      GroupsThenRest(Groups(buffer), rest);
    }
  }

  lemma PaddedRest(a: string, b: string)
    requires PaddedAtEnd(a + b)
    ensures PaddedAtEnd(b) && (|b| >= 4 ==> '=' !in a)
  {
    var s := a + b;
    if |b| >= 4 {
      assert s[..|s| - 4] == a + b[..|b| - 4];
    }
  }

  lemma GroupsThenRest(a: string, b: string)
    requires |a| % 4 == 0 && PaddedAtEnd(a + b)
    ensures Decode(a + b).Bytes? || (Decode(a).Bytes? && Decode(b).Bytes?) ==>
              Decode(a + b) == Joined(Decode(a), Decode(b))
  {
    if b == "" {
      assert a + b == a;
      NothingBehind(Decode(a), b);
    } else if |b| >= 4 {
      PaddedRest(a, b);
      DecodeJoins(a, b);
    } else {
      UnevenIsRefused(a, b);
    }
  }

  lemma UnevenIsRefused(a: string, b: string)
    requires |a| % 4 == 0 && 0 < |b| < 4
    ensures !Decode(a + b).Bytes? && Decode(b) == Short
  {
    SameRemainder(a + b, a, b);
    ShortText(b);
    UnevenText(a + b);
  }

  lemma UnevenText(s: string)
    requires |s| % 4 != 0
    ensures !Decode(s).Bytes?
  {
    if Decode(s).Bytes? {
      DecodedIsPaddedAtEnd(s);
    }
  }

  lemma ShortText(b: string)
    requires 0 < |b| < 4
    ensures Decode(b) == Short
  {
  }

  /**
    The stream decoder accepts all that the one-shot decoder accepts, as the same bytes, and
    beyond that only texts with padding before their last four symbols.
   */
  lemma OneShotIff(t: string)
    ensures var s := DropBreaks(t);
            && (Decode(s).Bytes? <==> StreamDecode(t).Bytes? && PaddedAtEnd(s))
            && (Decode(s).Bytes? ==> StreamDecode(t) == Decode(s))
  {
    var s := DropBreaks(t);
    assert "" + s == s;
    if Decode(s).Bytes? {
      DecodedIsPaddedAtEnd(s);
    }
    if PaddedAtEnd(s) {
      StreamIsOneShot("", t);
    }
  }

  // ---------------------------------------------------------------- refused texts

  /** A symbol of the alphabet, or padding. */
  predicate Known(c: char) {
    InAlphabet(c) || c == '='
  }

  /** Whole groups of four known symbols. */
  predicate KnownGroups(s: string) {
    |s| % 4 == 0 && forall c <- s :: Known(c)
  }

  lemma DecodedIsKnown(s: string)
    requires Decode(s).Bytes?
    ensures KnownGroups(s)
  {
    DecodesIff(s);
    forall i | 0 <= i < |s| ensures Known(s[i]) {
    }
  }

  lemma KnownJoins(s: string, a: string, b: string)
    requires s == a + b && KnownGroups(a) && KnownGroups(b)
    ensures KnownGroups(s)
  {
  }

  lemma {:induction false} StreamedIsKnown(left: string, t: string)
    requires |left| < 4 && StreamFrom(left, t).Bytes?
    ensures KnownGroups(left + DropBreaks(t))
    decreases |t|
  {
    if t == "" {
      assert left + DropBreaks(t) == "";
    } else {
      var k := Min(BUFFER - |left|, |t|);
      var buffer := Filled(left, t);
      BufferFirst(left, t);
      DecodedIsKnown(Groups(buffer));
      StreamedIsKnown(Left(buffer), t[k..]);
      KnownJoins(left + DropBreaks(t), Groups(buffer), Left(buffer) + DropBreaks(t[k..]));
    }
  }

  lemma {:induction false} ShortIsUneven(left: string, t: string)
    requires |left| < 4 && StreamFrom(left, t) == Short
    ensures |left + DropBreaks(t)| % 4 != 0
    decreases |t|
  {
    if t == "" {
      assert left + DropBreaks(t) == left;
    } else {
      var k := Min(BUFFER - |left|, |t|);
      var buffer := Filled(left, t);
      var rest := Left(buffer) + DropBreaks(t[k..]);
      WholeGroups(Groups(buffer));
      BufferFirst(left, t);
      OneBuffer(left, t, k);
      SameRemainder(left + DropBreaks(t), Groups(buffer), rest);
      ShortIsUneven(Left(buffer), t[k..]);
    }
  }

  lemma OneBuffer(left: string, t: string, k: nat)
    requires |left| < 4 && t != "" && k == Min(BUFFER - |left|, |t|)
    ensures var buffer := Filled(left, t);
            StreamFrom(left, t) == Joined(Decode(Groups(buffer)), StreamFrom(Left(buffer), t[k..]))
  {
  }

  lemma SameRemainder(s: string, a: string, b: string)
    requires s == a + b && |a| % 4 == 0
    ensures |s| % 4 == |b| % 4
  {
  }

  lemma {:induction false} SymbolsDecode(s: string)
    requires |s| % 4 == 0 && forall c <- s :: InAlphabet(c)
    ensures Decode(s).Bytes?
  {
    assert forall i :: 0 <= i < |s| ==> s[i] in s;
    DecodesIff(s);
  }

  lemma {:induction false} UnevenIsShort(left: string, t: string)
    requires |left| < 4 && |left + DropBreaks(t)| % 4 != 0 && forall c <- left + DropBreaks(t) :: InAlphabet(c)
    ensures StreamFrom(left, t) == Short
    decreases |t|
  {
    if t == "" {
      assert left + DropBreaks(t) == left;
    } else {
      var k := Min(BUFFER - |left|, |t|);
      var buffer := Filled(left, t);
      BufferFirst(left, t);
      var rest := Left(buffer) + DropBreaks(t[k..]);
      OneBuffer(left, t, k);
      SameRemainder(left + DropBreaks(t), Groups(buffer), rest);
      SplitAlphabet(left + DropBreaks(t), Groups(buffer), rest);
      SymbolsDecode(Groups(buffer));
      UnevenIsShort(Left(buffer), t[k..]);
    }
  }

  lemma SplitAlphabet(s: string, a: string, b: string)
    requires s == a + b && forall c <- s :: InAlphabet(c)
    ensures (forall c <- a :: InAlphabet(c)) && (forall c <- b :: InAlphabet(c))
  {
    assert forall c <- a :: c in s;
    assert forall c <- b :: c in s;
  }

  /** Symbols that end inside a group are cut short; whole groups are decoded or corrupt. */
  lemma RefusedText(t: string)
    ensures var s := DropBreaks(t);
            && (|s| % 4 == 0 ==> StreamDecode(t) != Short)
            && (|s| % 4 != 0 && (forall c <- s :: InAlphabet(c)) ==> StreamDecode(t) == Short)
  {
    var s := DropBreaks(t);
    assert "" + s == s;
    if StreamDecode(t) == Short {
      ShortIsUneven("", t);
    }
    if |s| % 4 != 0 && forall c <- s :: InAlphabet(c) {
      UnevenIsShort("", t);
    }
  }

  /**
    Text that is decoded is, line breaks apart, whole groups of four known symbols. Without
    padding before the last four it is decoded if and only if it is base64.
   */
  lemma AcceptedText(t: string)
    ensures var s := DropBreaks(t);
            && (StreamDecode(t).Bytes? ==> KnownGroups(s))
            && (PaddedAtEnd(s) ==> (StreamDecode(t).Bytes? <==> IsBase64(s)))
  {
    var s := DropBreaks(t);
    assert "" + s == s;
    if StreamDecode(t).Bytes? {
      StreamedIsKnown("", t);
    }
    OneShotIff(t);
    DecodesIff(s);
  }

  // ---------------------------------------------------------------- encodings

  lemma {:induction false} EncodingHasNoBreaks(b: seq<byte>)
    ensures DropBreaks(Encode(b)) == Encode(b)
    decreases |b|
  {
    if |b| > 0 {
      HeadCounts(b);
      var e := Encode(b);
      KeepsFour(e);
      if |b| >= 3 {
        EncodingHasNoBreaks(b[3..]);
        assert e[4..] == Encode(b[3..]);
      } else {
        assert e[4..] == "";
      }
    }
  }

  lemma KeepsFour(s: string)
    requires |s| >= 4 && forall i :: 0 <= i < 4 ==> !White(s[i])
    ensures DropBreaks(s) == s[..4] + DropBreaks(s[4..])
  {
    KeepsFirst(s);
    KeepsFirst(s[1..]);
    KeepsFirst(s[1..][1..]);
    KeepsFirst(s[1..][1..][1..]);
    FourInFront(s, DropBreaks(s[4..]));
  }

  lemma KeepsFirst(s: string)
    requires s != "" && !White(s[0])
    ensures DropBreaks(s) == [s[0]] + DropBreaks(s[1..])
  {
  }

  lemma FourInFront(s: string, k: string)
    requires |s| >= 4
    ensures [s[0]] + ([s[1..][0]] + ([s[1..][1..][0]] + ([s[1..][1..][1..][0]] + k))) == s[..4] + k
    ensures s[1..][1..][1..][1..] == s[4..]
  {
  }

  /** The encoding of some bytes, with line breaks anywhere, is read as these bytes. */
  lemma StreamInvertsEncode(t: string, b: seq<byte>)
    requires DropBreaks(t) == Encode(b)
    ensures StreamDecode(t) == Bytes(b)
  {
    DecodeInvertsEncode(b);
    OneShotIff(t);
  }

  /** What fills the buffer is decoded on its own, its padding included. */
  lemma FullBuffer(s: string, a: string, t: string)
    requires |a| == BUFFER && DropBreaks(a) == a && s == a + t
    ensures StreamDecode(s) == Joined(Decode(a), StreamDecode(t))
  {
    assert Filled("", s) == a by {
      assert s[..BUFFER] == a && "" + a == a;
    }
    assert Groups(a) == a && Left(a) == "" && s[BUFFER..] == t;
  }

  /**
    Behind padding that ends a full buffer, another encoding is accepted. The one-shot
    decoder refuses it.
   */
  lemma BehindPadding(b: seq<byte>, c: seq<byte>)
    requires 766 <= |b| <= 767 && c != []
    ensures StreamDecode(Encode(b) + Encode(c)) == Bytes(b + c)
    ensures !Decode(DropBreaks(Encode(b) + Encode(c))).Bytes?
  {
    PaddedEncoding(b);
    EncodingHasNoBreaks(c);
    HeadCounts(c);
    DecodeInvertsEncode(b);
    StreamInvertsEncode(Encode(c), c);
    DecodedBehind(Encode(b), b, Encode(c), c);
  }

  lemma PaddedEncoding(b: seq<byte>)
    requires 766 <= |b| <= 767
    ensures |Encode(b)| == BUFFER && Pads(Encode(b)) > 0 && DropBreaks(Encode(b)) == Encode(b)
  {
    EncodedCounts(b);
    EncodingHasNoBreaks(b);
    PaddedSizes(|b|);
  }

  lemma PaddedSizes(n: nat)
    requires 766 <= n <= 767
    ensures (n + 2) / 3 * 4 == BUFFER && Padding(n) > 0
  {
  }

  lemma DecodedBehind(s: string, b: seq<byte>, t: string, c: seq<byte>)
    requires |s| == BUFFER && Pads(s) > 0 && DropBreaks(s) == s && Decode(s) == Bytes(b)
    requires |t| >= 4 && DropBreaks(t) == t && StreamDecode(t) == Bytes(c)
    ensures StreamDecode(s + t) == Bytes(b + c) && !Decode(DropBreaks(s + t)).Bytes?
  {
    FullBuffer(s + t, s, t);
    DropBreaksJoins(s, t);
    PadsInside(s, t);
  }

  lemma PadsInside(a: string, b: string)
    requires Pads(a) > 0 && |b| >= 4
    ensures !Decode(a + b).Bytes?
  {
    if Decode(a + b).Bytes? {
      DecodedIsPaddedAtEnd(a + b);
      PaddedRest(a, b);
      NoPads(a);
    }
  }

  lemma {:induction false} NoPads(s: string)
    requires '=' !in s
    ensures Pads(s) == 0
  {
    if s != "" {
      NoPads(s[..|s| - 1]);
    }
  }
}
