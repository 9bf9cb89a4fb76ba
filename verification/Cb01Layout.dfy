/**
  The bytes of a CB01 frame, written down as cb01.go documents them: what is accepted is
  exactly a frame of this layout, and what is sent is one.
*/
module Cb01Layout {
  import opened Basics
  import opened Cb01

  // ---------------------------------------------------------------- numbers and strings

  /** Seven bits a byte, the low ones first. */
  function ValueOf(u: seq<byte>): nat {
    if |u| == 0 then 0 else u[0] % 128 + 128 * ValueOf(u[1..])
  }

  /** Up to ten bytes, of which only the last has no high bit; a tenth is at most 1. */
  predicate IsUvarint(u: seq<byte>) {
    IsUvarintAt(u, 0)
  }

  /** With `i` bytes of the number in front. */
  predicate IsUvarintAt(u: seq<byte>, i: nat) {
    && 1 <= |u| <= 10 - i && u[|u| - 1] < 128 && (forall j :: 0 <= j < |u| - 1 ==> u[j] >= 128)
    && (|u| == 10 - i ==> u[|u| - 1] <= 1)
  }

  lemma OneByte(b: byte, i: nat)
    requires b < 128 && i < 10 && (i == 9 ==> b <= 1)
    ensures IsUvarintAt([b], i) && ValueOf([b]) == b
  {
    assert [b][1..] == [];
  }

  lemma ByteInFront(b: byte, u: seq<byte>, i: nat)
    requires b >= 128 && i < 10
    ensures IsUvarintAt([b] + u, i) <==> IsUvarintAt(u, i + 1)
    ensures ValueOf([b] + u) == b - 128 + 128 * ValueOf(u)
  {
    var s := [b] + u;
    assert s[1..] == u;
    if IsUvarintAt(s, i) {
      assert |u| > 0;
      forall j | 0 <= j < |u| - 1 ensures u[j] >= 128 {
        assert u[j] == s[j + 1];
      }
    }
  }

  lemma {:induction false} UvarintRead(s: seq<byte>, i: nat) returns (u: seq<byte>)
    requires i <= 10 && DecodeUvarint(s, i).Got?
    ensures IsUvarintAt(u, i) && ValueOf(u) == DecodeUvarint(s, i).value && s == u + DecodeUvarint(s, i).rest
    decreases 10 - i
  {
    var b := s[0];
    assert s == [b] + s[1..];
    if b < 128 {
      OneByte(b, i);
      u := [b];
    } else {
      OneByteOn(s, i);
      var more := UvarintRead(s[1..], i + 1);
      ByteInFront(b, more, i);
      Regroup([b], more, DecodeUvarint(s, i).rest);
      u := [b] + more;
    }
  }

  lemma OneByteOn(s: seq<byte>, i: nat)
    requires i <= 10 && DecodeUvarint(s, i).Got? && s[0] >= 128
    ensures i < 10 && DecodeUvarint(s[1..], i + 1).Got?
    ensures var r := DecodeUvarint(s[1..], i + 1);
            DecodeUvarint(s, i) == Got(s[0] - 128 + 128 * r.value, r.rest)
  {
  }

  lemma {:induction false} UvarintIsRead(u: seq<byte>, i: nat, t: seq<byte>)
    requires i <= 10 && IsUvarintAt(u, i)
    ensures DecodeUvarint(u + t, i) == Got(ValueOf(u), t)
    decreases 10 - i
  {
    var more := u[1..];
    assert u == [u[0]] + more && (u + t)[1..] == more + t;
    if |u| == 1 {
      OneByte(u[0], i);
      assert u == [u[0]] && more + t == t;
    } else {
      ByteInFront(u[0], more, i);
      UvarintIsRead(more, i + 1, t);
    }
  }

  /** What is sent is such a number. */
  lemma {:induction false} EncodedIsUvarint(x: nat, i: nat)
    requires i <= 9 && x < Room(i)
    ensures IsUvarintAt(EncodeUvarint(x), i) && ValueOf(EncodeUvarint(x)) == x
    decreases x
  {
    var u := EncodeUvarint(x);
    if x < 128 {
      assert u[1..] == [];
    } else {
      EncodedIsUvarint(x / 128, i + 1);
      assert u[1..] == EncodeUvarint(x / 128);
    }
  }

  /** A string with the number that gives its length, which is 65536 at most. */
  datatype Text = Text(length: seq<byte>, bytes: seq<byte>)
  {
    predicate Valid() {
      IsUvarint(length) && ValueOf(length) == |bytes| <= 65536
    }

    function Bytes(): seq<byte> {
      length + bytes
    }
  }

  lemma TextRead(s: seq<byte>) returns (t: Text)
    requires DecodeString(s).Got?
    ensures t.Valid() && t.bytes == DecodeString(s).value && s == t.Bytes() + DecodeString(s).rest
  {
    var u := UvarintRead(s, 0);
    var r := DecodeUvarint(s, 0);
    t := Text(u, DecodeString(s).value);
    StringSplits(r, DecodeString(s));
    Regroup(u, t.bytes, DecodeString(s).rest);
  }

  lemma StringSplits(length: Read<nat>, r: Read<seq<byte>>)
    requires length.Got? && r == StringAfter(length) && r.Got?
    ensures length.rest == r.value + r.rest && length.value == |r.value| <= 65536
  {
  }

  lemma Regroup(a: seq<byte>, b: seq<byte>, c: seq<byte>)
    ensures a + (b + c) == a + b + c
  {
  }

  lemma TextIsRead(t: Text, k: seq<byte>)
    requires t.Valid()
    ensures DecodeString(t.Bytes() + k) == Got(t.bytes, k)
  {
    assert t.Bytes() + k == t.length + (t.bytes + k);
    UvarintIsRead(t.length, 0, t.bytes + k);
    assert (t.bytes + k)[..|t.bytes|] == t.bytes && (t.bytes + k)[|t.bytes|..] == k;
  }

  // ---------------------------------------------------------------- items

  /** One item: its kind, three texts, the number of its payload's bytes, and those of them that there are. */
  datatype Part = Part(kind: byte, name: Text, uti: Text, mime: Text, size: seq<byte>, payload: seq<byte>)
  {
    predicate Valid() {
      name.Valid() && uti.Valid() && mime.Valid() && IsUvarint(size)
    }

    /** The size as a signed 64-bit number. */
    function Declared(): int {
      var v := ValueOf(size);
      if v < 0x8000_0000_0000_0000 then v else v - 0x1_0000_0000_0000_0000
    }

    function Wanted(): nat {
      if Declared() > 0 then Declared() else 0
    }

    /** The metadata, with `k` behind it. */
    function Spell(k: seq<byte>): seq<byte> {
      [kind] + (name.Bytes() + (uti.Bytes() + (mime.Bytes() + (size + k))))
    }

    function Item(): Incoming {
      Incoming(Head(kind, name.bytes, uti.bytes, mime.bytes, Declared()), payload)
    }
  }

  lemma TwoRead(s: seq<byte>) returns (a: Text, b: Text)
    requires DecodeTwo(s).Got?
    ensures a.Valid() && b.Valid() && DecodeTwo(s).value == (a.bytes, b.bytes)
    ensures s == a.Bytes() + (b.Bytes() + DecodeTwo(s).rest)
  {
    a := TextRead(s);
    b := TextRead(DecodeString(s).rest);
  }

  lemma StringsRead(s: seq<byte>) returns (a: Text, b: Text, c: Text)
    requires DecodeStrings(s).Got?
    ensures a.Valid() && b.Valid() && c.Valid() && DecodeStrings(s).value == (a.bytes, b.bytes, c.bytes)
    ensures s == a.Bytes() + (b.Bytes() + (c.Bytes() + DecodeStrings(s).rest))
  {
    a := TextRead(s);
    b, c := TwoRead(DecodeString(s).rest);
  }

  lemma HeadRead(s: seq<byte>) returns (p: Part)
    requires DecodeHead(s).Got?
    ensures p.Valid() && p.Item().head == DecodeHead(s).value && s == p.Spell(DecodeHead(s).rest)
  {
    var a, b, c := StringsRead(s[1..]);
    var size := UvarintRead(DecodeStrings(s[1..]).rest, 0);
    p := Part(s[0], a, b, c, size, []);
    assert s == [s[0]] + s[1..];
  }

  lemma TwoAreRead(a: Text, b: Text, k: seq<byte>)
    requires a.Valid() && b.Valid()
    ensures DecodeTwo(a.Bytes() + (b.Bytes() + k)) == Got((a.bytes, b.bytes), k)
  {
    TextIsRead(a, b.Bytes() + k);
    TextIsRead(b, k);
  }

  lemma StringsAreRead(a: Text, b: Text, c: Text, k: seq<byte>)
    requires a.Valid() && b.Valid() && c.Valid()
    ensures DecodeStrings(a.Bytes() + (b.Bytes() + (c.Bytes() + k))) == Got((a.bytes, b.bytes, c.bytes), k)
  {
    TextIsRead(a, b.Bytes() + (c.Bytes() + k));
    TwoAreRead(b, c, k);
  }

  lemma HeadIsRead(p: Part, k: seq<byte>)
    requires p.Valid()
    ensures DecodeHead(p.Spell(k)) == Got(p.Item().head, k)
  {
    var s := p.Spell(k);
    assert s[1..] == p.name.Bytes() + (p.uti.Bytes() + (p.mime.Bytes() + (p.size + k)));
    StringsAreRead(p.name, p.uti, p.mime, p.size + k);
    UvarintIsRead(p.size, 0, k);
  }

  /** Items one after the other, with `k` behind them. */
  function SpellParts(parts: seq<Part>, k: seq<byte>): seq<byte> {
    if |parts| == 0 then k else parts[0].Spell(parts[0].payload + SpellParts(parts[1..], k))
  }

  /** All payloads are whole, but that the last may be cut short by the end of the stream. */
  ghost predicate ValidParts(parts: seq<Part>, rest: seq<byte>) {
    && |parts| > 0 && parts[0].Valid()
    && (if |parts| == 1 then
          |parts[0].payload| <= parts[0].Wanted() && (|parts[0].payload| < parts[0].Wanted() ==> rest == [])
        else
          |parts[0].payload| == parts[0].Wanted() && ValidParts(parts[1..], rest))
  }

  function ItemsOf(parts: seq<Part>): (items: seq<Incoming>)
    ensures |items| == |parts|
  {
    if |parts| == 0 then [] else [parts[0].Item()] + ItemsOf(parts[1..])
  }

  lemma {:induction false} PartsRead(s: seq<byte>, n: nat) returns (parts: seq<Part>)
    requires n > 0 && DecodeItems(s, n).Got?
    ensures |parts| == n && ValidParts(parts, DecodeItems(s, n).rest)
    ensures ItemsOf(parts) == DecodeItems(s, n).value && s == SpellParts(parts, DecodeItems(s, n).rest)
    decreases n
  {
    var p := HeadRead(s);
    var body := DecodeHead(s).rest;
    if n == 1 {
      var part := LastRead(p, body);
      parts := [part];
      OnePart(part, DecodeItems(s, n).rest);
    } else {
      var part := EarlyRead(s, p, body);
      var more := PartsRead(DecodeEarly(s).rest, n - 1);
      parts := [part] + more;
      assert parts[1..] == more;
    }
  }

  lemma OnePart(p: Part, k: seq<byte>)
    ensures SpellParts([p], k) == p.Spell(p.payload + k) && ItemsOf([p]) == [p.Item()]
  {
    assert [p][1..] == [];
  }

  lemma LastRead(p: Part, body: seq<byte>) returns (part: Part)
    requires p.Valid()
    ensures var r := LastItem(Got(p.Item().head, body));
            && part.Valid() && part == p.(payload := part.payload) && r.value == [part.Item()]
            && body == part.payload + r.rest && |part.payload| <= part.Wanted()
            && (|part.payload| < part.Wanted() ==> r.rest == [])
  {
    var len := Taken(p.Declared(), |body|);
    part := p.(payload := body[..len]);
  }

  lemma EarlyRead(s: seq<byte>, p: Part, body: seq<byte>) returns (part: Part)
    requires p.Valid() && DecodeHead(s) == Got(p.Item().head, body) && DecodeEarly(s).Got?
    ensures part.Valid() && part == p.(payload := part.payload) && DecodeEarly(s).value == part.Item()
    ensures body == part.payload + DecodeEarly(s).rest && |part.payload| == part.Wanted()
  {
    var r := DecodePayload(body, p.Declared());
    WholePayload(body, p.Declared());
    part := p.(payload := r.value);
  }

  lemma WholePayload(body: seq<byte>, size: int)
    requires DecodePayload(body, size).Got?
    ensures var r := DecodePayload(body, size);
            body == r.value + r.rest && |r.value| == if size > 0 then size else 0
  {
  }

  lemma {:induction false} PartsAreRead(parts: seq<Part>, rest: seq<byte>)
    requires ValidParts(parts, rest)
    ensures DecodeItems(SpellParts(parts, rest), |parts|) == Got(ItemsOf(parts), rest)
    decreases |parts|
  {
    var p := parts[0];
    if |parts| == 1 {
      assert parts == [p];
      OnePart(p, rest);
      LastIsRead(p, rest);
    } else {
      var more := parts[1..];
      EarlyIsRead(p, SpellParts(more, rest));
      PartsAreRead(more, rest);
      DecodeBoth(SpellParts(parts, rest), |parts|, p.Item(), SpellParts(more, rest), ItemsOf(more), rest);
    }
  }

  lemma DecodeBoth(s: seq<byte>, n: nat, item: Incoming, t: seq<byte>, items: seq<Incoming>, rest: seq<byte>)
    requires n > 1 && DecodeEarly(s) == Got(item, t) && DecodeItems(t, n - 1) == Got(items, rest)
    ensures DecodeItems(s, n) == Got([item] + items, rest)
  {
  }

  lemma LastIsRead(p: Part, rest: seq<byte>)
    requires p.Valid() && |p.payload| <= p.Wanted() && (|p.payload| < p.Wanted() ==> rest == [])
    ensures DecodeItems(p.Spell(p.payload + rest), 1) == Got([p.Item()], rest)
  {
    HeadIsRead(p, p.payload + rest);
    PayloadIsTaken(p, rest);
  }

  lemma EarlyIsRead(p: Part, k: seq<byte>)
    requires p.Valid() && |p.payload| == p.Wanted()
    ensures DecodeEarly(p.Spell(p.payload + k)) == Got(p.Item(), k)
  {
    HeadIsRead(p, p.payload + k);
    PayloadIsTaken(p, k);
  }

  lemma PayloadIsTaken(p: Part, k: seq<byte>)
    requires |p.payload| <= p.Wanted() && (|p.payload| < p.Wanted() ==> k == [])
    ensures var len := Taken(p.Declared(), |p.payload + k|);
            len == |p.payload| && (p.payload + k)[..len] == p.payload && (p.payload + k)[len..] == k
  {
  }

  // ---------------------------------------------------------------- the frame

  /** "CB01", the channel, the number of items, and the items. */
  function SpellFrame(channel: byte, count: seq<byte>, parts: seq<Part>, rest: seq<byte>): seq<byte> {
    [0x43, 0x42, 0x30, 0x31] + ([channel] + (count + SpellParts(parts, rest)))
  }

  ghost predicate ValidFrame(count: seq<byte>, parts: seq<Part>, rest: seq<byte>) {
    IsUvarint(count) && ValueOf(count) == |parts| && ValidParts(parts, rest)
  }

  /** Whatever is decoded is a frame of this layout, and its items are what it spells. */
  lemma DecodedIsFrame(limit: nat, s: seq<byte>) returns (count: seq<byte>, parts: seq<Part>)
    requires DecodeFrame(limit, s).Frame?
    ensures var d := DecodeFrame(limit, s);
            && ValidFrame(count, parts, d.rest) && |parts| < limit
            && s == SpellFrame(d.channel, count, parts, d.rest) && d.items == ItemsOf(parts)
  {
    count := UvarintRead(s[5..], 0);
    var n := DecodeUvarint(s[5..], 0);
    parts := PartsRead(n.rest, n.value);
    HeaderFirst(s);
  }

  lemma HeaderFirst(s: seq<byte>)
    requires |s| >= 5 && s[..4] == MAGIC
    ensures s == [0x43, 0x42, 0x30, 0x31] + ([s[4]] + s[5..])
  {
    assert s == s[..4] + ([s[4]] + s[5..]);
  }

  /** And every frame of this layout is decoded, unless it has more items than a slice can hold. */
  lemma FrameIsDecoded(limit: nat, channel: byte, count: seq<byte>, parts: seq<Part>, rest: seq<byte>)
    requires ValidFrame(count, parts, rest)
    ensures DecodeFrame(limit, SpellFrame(channel, count, parts, rest))
         == if |parts| < limit then Frame(channel, ItemsOf(parts), rest) else Panic
  {
    var u := count + SpellParts(parts, rest);
    HeaderIs(channel, u);
    HeaderRead(limit, channel, u);
    UvarintIsRead(count, 0, SpellParts(parts, rest));
    PartsAreRead(parts, rest);
  }

  lemma HeaderIs(channel: byte, u: seq<byte>)
    ensures [0x43, 0x42, 0x30, 0x31] + ([channel] + u) == MAGIC + [channel] + u
  {
  }

  // ---------------------------------------------------------------- what is sent

  function SentText(v: seq<byte>): Text {
    Text(EncodeUvarint(|v|), v)
  }

  function SentPart(o: Outgoing): Part {
    Part(o.kind, SentText(o.name), SentText(o.uti), SentText(o.mime), EncodeUvarint(ToUint64(o.size)), o.Sent())
  }

  lemma SentIsSpelled(o: Outgoing, k: seq<byte>)
    ensures EncodeItem(o) + k == SentPart(o).Spell(o.Sent() + k)
  {
    assert EncodeItem(o) + k == EncodeHead(o) + (o.Sent() + k);
    HeadRegroups(o, o.Sent() + k);
  }

  lemma {:induction false} ItemsAreSpelled(items: seq<Outgoing>, k: seq<byte>)
    ensures var parts := seq(|items|, i requires 0 <= i < |items| => SentPart(items[i]));
            EncodeItems(items) + k == SpellParts(parts, k)
    decreases |items|
  {
    var parts := seq(|items|, i requires 0 <= i < |items| => SentPart(items[i]));
    if items == [] {
      assert EncodeItems(items) + k == k;
    } else {
      var more := seq(|items| - 1, i requires 0 <= i < |items| - 1 => SentPart(items[1..][i]));
      ItemsAreSpelled(items[1..], k);
      assert parts[1..] == more;
      SentIsSpelled(items[0], EncodeItems(items[1..]) + k);
      Regroup(EncodeItem(items[0]), EncodeItems(items[1..]), k);
    }
  }

  /** A frame that is sent has this layout, each field where it belongs and its numbers as short as they can be. */
  lemma SentIsFrame(channel: byte, items: seq<Outgoing>, k: seq<byte>)
    ensures var parts := seq(|items|, i requires 0 <= i < |items| => SentPart(items[i]));
            EncodeFrame(channel, items) + k == SpellFrame(channel, EncodeUvarint(|items|), parts, k)
  {
    ItemsAreSpelled(items, k);
    var n := EncodeUvarint(|items|);
    HeaderIs(channel, n + (EncodeItems(items) + k));
    FrameRegroups(channel, n, EncodeItems(items), k);
  }

  lemma FrameRegroups(channel: byte, a: seq<byte>, b: seq<byte>, c: seq<byte>)
    ensures MAGIC + [channel] + a + b + c == MAGIC + [channel] + (a + (b + c))
  {
  }
}
