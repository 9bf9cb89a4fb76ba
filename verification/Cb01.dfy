/** The CB01 frame: its two number and string codecs, the frame itself, and what a cut does to it. */
module Cb01 {
  import opened Basics

  const TWO63: int := 0x8000_0000_0000_0000
  const TWO64: int := 0x1_0000_0000_0000_0000

  /** uint64(x) of an int64. */
  function ToUint64(x: int): nat {
    x % TWO64
  }

  /** int64(x) of a uint64. */
  function ToInt64(x: nat): int {
    if x < TWO63 then x else x - TWO64
  }

  /** What a read of a value makes of the stream: the value and what follows, or a bad frame. */
  datatype Read<T> = Got(value: T, rest: seq<byte>) | Bad

  // ---------------------------------------------------------------- numbers

  /** The encoding of binary.PutUvarint: seven bits a byte, the low ones first. */
  function EncodeUvarint(x: nat): (s: seq<byte>)
    ensures |s| > 0
  {
    if x < 128 then [x] else [x % 128 + 128] + EncodeUvarint(x / 128)
  }

  /** binary.ReadUvarint with `i` bytes read: ten bytes at most, and the tenth at most 1. */
  function DecodeUvarint(s: seq<byte>, i: nat): (r: Read<nat>)
    requires i <= 10
    ensures r.Got? ==> |r.rest| < |s|
    decreases 10 - i
  {
    if i == 10 || |s| == 0 then Bad
    else if s[0] < 128 then
      if i == 9 && s[0] > 1 then Bad else Got(s[0], s[1..])
    else
      match DecodeUvarint(s[1..], i + 1)
      case Bad => Bad
      case Got(x, rest) => Got(s[0] - 128 + 128 * x, rest)
  }

  /** The numbers that the bytes from the i-th on can hold are those below Room(i). */
  function Room(i: nat): (n: nat)
    requires i <= 10
    ensures n > 0 && (i < 9 ==> n >= 256)
    decreases 10 - i
  {
    if i == 10 then 1 else if i == 9 then 2 else 128 * Room(i + 1)
  }

  lemma RoomIsAll()
    ensures Room(0) == TWO64
  {
    assert Room(9) == 2;
    assert Room(8) == 0x100;
    assert Room(7) == 0x8000;
    assert Room(6) == 0x40_0000;
    assert Room(5) == 0x2000_0000;
    assert Room(4) == 0x10_0000_0000;
    assert Room(3) == 0x800_0000_0000;
    assert Room(2) == 0x4_0000_0000_0000;
    assert Room(1) == 0x200_0000_0000_0000;
  }

  lemma {:induction false} UvarintInverts(x: nat, i: nat, t: seq<byte>)
    requires i <= 9 && x < Room(i)
    ensures DecodeUvarint(EncodeUvarint(x) + t, i) == Got(x, t)
    decreases x
  {
    var s := EncodeUvarint(x) + t;
    if x < 128 {
      assert s[1..] == t;
    } else {
      var high := x / 128;
      assert i < 9 && high < Room(i + 1);
      UvarintInverts(high, i + 1, t);
      assert s[0] == x % 128 + 128 && s[1..] == EncodeUvarint(high) + t;
    }
  }

  /** Reading a cut stream: the same value if its bytes are all there, a bad frame if not. */
  ghost predicate Cut<T>(s: seq<byte>, full: Read<T>, k: nat, cut: Read<T>)
    requires k <= |s|
  {
    full.Got? ==>
      && |full.rest| <= |s| && full.rest == s[|s| - |full.rest|..]
      && cut == if k < |s| - |full.rest| then Bad else Got(full.value, s[|s| - |full.rest|..k])
  }

  lemma {:induction false} UvarintCut(s: seq<byte>, i: nat, k: nat)
    requires i <= 10 && k <= |s|
    ensures Cut(s, DecodeUvarint(s, i), k, DecodeUvarint(s[..k], i))
    decreases 10 - i
  {
    if i < 10 && |s| > 0 && s[0] >= 128 {
      UvarintCut(s[1..], i + 1, if k > 0 then k - 1 else 0);
    }
    if k > 0 {
      assert s[..k][1..] == s[1..][..k - 1];
    }
  }

  // ---------------------------------------------------------------- strings

  const MAX_STRING := 65536

  function EncodeString(v: seq<byte>): seq<byte> {
    EncodeUvarint(|v|) + v
  }

  function DecodeString(s: seq<byte>): Read<seq<byte>> {
    StringAfter(DecodeUvarint(s, 0))
  }

  /** The string behind its length. */
  function StringAfter(length: Read<nat>): Read<seq<byte>> {
    match length
    case Bad => Bad
    case Got(n, rest) =>
      if n == 0 then Got([], rest)
      else if n > MAX_STRING then Bad
      else if |rest| < n then Bad
      else Got(rest[..n], rest[n..])
  }

  lemma StringInverts(v: seq<byte>, t: seq<byte>)
    requires |v| < TWO64
    ensures DecodeString(EncodeString(v) + t) == if |v| <= MAX_STRING then Got(v, t) else Bad
  {
    RoomIsAll();
    UvarintInverts(|v|, 0, v + t);
    assert EncodeString(v) + t == EncodeUvarint(|v|) + (v + t);
    assert (v + t)[..|v|] == v && (v + t)[|v|..] == t;
  }

  lemma StringCut(s: seq<byte>, k: nat)
    requires k <= |s|
    ensures Cut(s, DecodeString(s), k, DecodeString(s[..k]))
  {
    UvarintCut(s, 0, k);
    StringAfterCut(s, DecodeUvarint(s, 0), k, DecodeUvarint(s[..k], 0));
  }

  lemma StringAfterCut(s: seq<byte>, r: Read<nat>, k: nat, c: Read<nat>)
    requires k <= |s| && Cut(s, r, k, c)
    ensures Cut(s, StringAfter(r), k, StringAfter(c))
  {
    if StringAfter(r).Got? {
      var n, m := |s| - |r.rest|, r.value;
      assert r.rest[m..] == s[n + m..];
      if c.Got? {
        CutIsPrefix(s, r, k, c);
        if m <= |c.rest| {
          assert c.rest[..m] == r.rest[..m] && c.rest[m..] == s[n + m..k];
        }
      }
    }
  }

  // ---------------------------------------------------------------- items

  /** An item to send: its declared size, and the bytes its reader would yield (None for no reader). */
  datatype Outgoing = Outgoing(kind: byte, name: seq<byte>, uti: seq<byte>, mime: seq<byte>,
                               payload: Option<seq<byte>>, size: int)
  {
    ghost predicate Representable() {
      |name| < TWO63 && |uti| < TWO63 && |mime| < TWO63 && -TWO63 <= size < TWO63
    }

    /** The reader yields the declared number of bytes, or none are declared. */
    predicate Sendable() {
      size > 0 ==> payload.Some? && size <= |payload.value|
    }

    predicate ShortStrings() {
      |name| <= MAX_STRING && |uti| <= MAX_STRING && |mime| <= MAX_STRING
    }

    /** What is copied from the reader. */
    function Sent(): seq<byte> {
      if size > 0 && payload.Some? then payload.value[..Min(size, |payload.value|)] else []
    }
  }

  /** The metadata of a received item, and its declared size. */
  datatype Head = Head(kind: byte, name: seq<byte>, uti: seq<byte>, mime: seq<byte>, size: int)

  /** A received item with all that its reader yields. */
  datatype Incoming = Incoming(head: Head, payload: seq<byte>)

  function Received(o: Outgoing): Incoming {
    Incoming(Head(o.kind, o.name, o.uti, o.mime, o.size), o.Sent())
  }

  function EncodeHead(o: Outgoing): seq<byte> {
    [o.kind] + EncodeString(o.name) + EncodeString(o.uti) + EncodeString(o.mime) + EncodeUvarint(ToUint64(o.size))
  }

  function DecodeStrings(s: seq<byte>): (r: Read<(seq<byte>, seq<byte>, seq<byte>)>) {
    match DecodeString(s)
    case Bad => Bad
    case Got(name, rest) =>
      match DecodeTwo(rest)
      case Bad => Bad
      case Got((uti, mime), rest) => Got((name, uti, mime), rest)
  }

  function DecodeTwo(s: seq<byte>): Read<(seq<byte>, seq<byte>)> {
    match DecodeString(s)
    case Bad => Bad
    case Got(uti, rest) =>
      match DecodeString(rest)
      case Bad => Bad
      case Got(mime, rest) => Got((uti, mime), rest)
  }

  function DecodeByte(s: seq<byte>): Read<byte> {
    if |s| == 0 then Bad else Got(s[0], s[1..])
  }

  /** The strings and the size. */
  function DecodeMeta(s: seq<byte>): Read<((seq<byte>, seq<byte>, seq<byte>), nat)> {
    match DecodeStrings(s)
    case Bad => Bad
    case Got(strings, rest) =>
      match DecodeUvarint(rest, 0)
      case Bad => Bad
      case Got(size, rest) => Got((strings, size), rest)
  }

  function DecodeHead(s: seq<byte>): Read<Head> {
    match DecodeByte(s)
    case Bad => Bad
    case Got(kind, rest) =>
      match DecodeMeta(rest)
      case Bad => Bad
      case Got(((name, uti, mime), size), rest) => Got(Head(kind, name, uti, mime, ToInt64(size)), rest)
  }

  lemma StringsInvert(a: seq<byte>, b: seq<byte>, c: seq<byte>, t: seq<byte>)
    requires |a| < TWO64 && |b| < TWO64 && |c| < TWO64
    ensures DecodeStrings(EncodeString(a) + (EncodeString(b) + (EncodeString(c) + t)))
         == if |a| <= MAX_STRING && |b| <= MAX_STRING && |c| <= MAX_STRING then Got((a, b, c), t) else Bad
  {
    StringInverts(a, EncodeString(b) + (EncodeString(c) + t));
    StringInverts(b, EncodeString(c) + t);
    StringInverts(c, t);
  }

  lemma HeadRegroups(o: Outgoing, t: seq<byte>)
    ensures var n := EncodeUvarint(ToUint64(o.size));
            EncodeHead(o) + t
              == [o.kind] + (EncodeString(o.name) + (EncodeString(o.uti) + (EncodeString(o.mime) + (n + t))))
  {
  }

  lemma MetaInverts(a: seq<byte>, b: seq<byte>, c: seq<byte>, size: nat, t: seq<byte>)
    requires |a| < TWO64 && |b| < TWO64 && |c| < TWO64 && size < TWO64
    ensures DecodeMeta(EncodeString(a) + (EncodeString(b) + (EncodeString(c) + (EncodeUvarint(size) + t))))
         == if |a| <= MAX_STRING && |b| <= MAX_STRING && |c| <= MAX_STRING then Got(((a, b, c), size), t) else Bad
  {
    StringsInvert(a, b, c, EncodeUvarint(size) + t);
    RoomIsAll();
    UvarintInverts(size, 0, t);
  }

  lemma Int64Inverts(x: int)
    requires -TWO63 <= x < TWO63
    ensures ToUint64(x) < TWO64 && ToInt64(ToUint64(x)) == x
  {
    assert x < 0 ==> (x + TWO64) % TWO64 == x % TWO64;
  }

  lemma HeadInverts(o: Outgoing, t: seq<byte>)
    requires o.Representable()
    ensures DecodeHead(EncodeHead(o) + t)
         == if o.ShortStrings() then Got(Head(o.kind, o.name, o.uti, o.mime, o.size), t) else Bad
  {
    HeadRegroups(o, t);
    Int64Inverts(o.size);
    var n := EncodeUvarint(ToUint64(o.size));
    var u := EncodeString(o.name) + (EncodeString(o.uti) + (EncodeString(o.mime) + (n + t)));
    assert DecodeByte([o.kind] + u) == Got(o.kind, u) by {
      assert ([o.kind] + u)[1..] == u;
    }
    MetaInverts(o.name, o.uti, o.mime, ToUint64(o.size), t);
  }

  /** Two reads in a row, of which `whole` is the outcome: a cut hits the one or the other. */
  lemma CutInTwo<T, U, V>(s: seq<byte>, k: nat, first: Read<T>, cut: Read<T>, second: Read<U>, cutSecond: Read<U>,
                          whole: Read<V>, cutWhole: Read<V>)
    requires k <= |s| && first.Got? && Cut(s, first, k, cut)
    requires whole.Got? ==> second.Got? && whole.rest == second.rest
    requires second.Got? ==> |second.rest| <= |first.rest| && second.rest == first.rest[|first.rest| - |second.rest|..]
    requires cut.Got? ==> |cut.rest| <= |first.rest| && Cut(first.rest, second, |cut.rest|, cutSecond)
    requires whole.Got? ==> cutWhole == if cut.Got? && cutSecond.Got? then Got(whole.value, cutSecond.rest) else Bad
    ensures Cut(s, whole, k, cutWhole)
  {
    if whole.Got? && cut.Got? {
      var n := |s| - |first.rest|;
      var m := |first.rest| - |second.rest|;
      assert first.rest[m..] == s[n + m..];
      if m <= |cut.rest| {
        assert first.rest[m..|cut.rest|] == s[n + m..k];
      }
    }
  }

  lemma TwoCut(s: seq<byte>, k: nat)
    requires k <= |s|
    ensures Cut(s, DecodeTwo(s), k, DecodeTwo(s[..k]))
  {
    StringCut(s, k);
    var r, c := DecodeString(s), DecodeString(s[..k]);
    if r.Got? {
      StringCut(r.rest, |r.rest|);
      if c.Got? {
        CutIsPrefix(s, r, k, c);
        StringCut(r.rest, |c.rest|);
      }
      CutInTwo(s, k, r, c, DecodeString(r.rest), if c.Got? then DecodeString(c.rest) else Bad,
               DecodeTwo(s), DecodeTwo(s[..k]));
    }
  }

  lemma CutIsPrefix<T>(s: seq<byte>, full: Read<T>, k: nat, cut: Read<T>)
    requires k <= |s| && full.Got? && Cut(s, full, k, cut) && cut.Got?
    ensures |cut.rest| <= |full.rest| && cut.rest == full.rest[..|cut.rest|] && cut.value == full.value
  {
  }

  lemma StringsCut(s: seq<byte>, k: nat)
    requires k <= |s|
    ensures Cut(s, DecodeStrings(s), k, DecodeStrings(s[..k]))
  {
    StringCut(s, k);
    var r, c := DecodeString(s), DecodeString(s[..k]);
    if r.Got? {
      TwoCut(r.rest, |r.rest|);
      if c.Got? {
        CutIsPrefix(s, r, k, c);
        TwoCut(r.rest, |c.rest|);
      }
      CutInTwo(s, k, r, c, DecodeTwo(r.rest), if c.Got? then DecodeTwo(c.rest) else Bad,
               DecodeStrings(s), DecodeStrings(s[..k]));
    }
  }

  lemma MetaCut(s: seq<byte>, k: nat)
    requires k <= |s|
    ensures Cut(s, DecodeMeta(s), k, DecodeMeta(s[..k]))
  {
    StringsCut(s, k);
    var r, c := DecodeStrings(s), DecodeStrings(s[..k]);
    if r.Got? {
      UvarintCut(r.rest, 0, |r.rest|);
      if c.Got? {
        CutIsPrefix(s, r, k, c);
        UvarintCut(r.rest, 0, |c.rest|);
      }
      CutInTwo(s, k, r, c, DecodeUvarint(r.rest, 0), if c.Got? then DecodeUvarint(c.rest, 0) else Bad,
               DecodeMeta(s), DecodeMeta(s[..k]));
    }
  }

  lemma ByteCut(s: seq<byte>, k: nat)
    requires k <= |s|
    ensures Cut(s, DecodeByte(s), k, DecodeByte(s[..k]))
  {
    if k > 0 {
      var t := s[..k];
      assert t[0] == s[0] && t[1..] == s[1..k];
    } else {
      assert s[..0] == [];
    }
  }

  lemma HeadCut(s: seq<byte>, k: nat)
    requires k <= |s|
    ensures Cut(s, DecodeHead(s), k, DecodeHead(s[..k]))
  {
    ByteCut(s, k);
    var r, c := DecodeByte(s), DecodeByte(s[..k]);
    if r.Got? {
      MetaCut(r.rest, |r.rest|);
      if c.Got? {
        CutIsPrefix(s, r, k, c);
        MetaCut(r.rest, |c.rest|);
      }
      CutInTwo(s, k, r, c, DecodeMeta(r.rest), if c.Got? then DecodeMeta(c.rest) else Bad,
               DecodeHead(s), DecodeHead(s[..k]));
    }
  }

  // ---------------------------------------------------------------- the items of a frame

  function EncodeItem(o: Outgoing): seq<byte> {
    EncodeHead(o) + o.Sent()
  }

  ghost predicate AllSendable(items: seq<Outgoing>) {
    forall o <- items :: o.Representable() && o.Sendable()
  }

  predicate AllShort(items: seq<Outgoing>) {
    forall o <- items :: o.ShortStrings()
  }

  function EncodeItems(items: seq<Outgoing>): seq<byte> {
    if |items| == 0 then [] else EncodeItem(items[0]) + EncodeItems(items[1..])
  }

  function AllReceived(items: seq<Outgoing>): (r: seq<Incoming>)
    ensures |r| == |items|
  {
    if |items| == 0 then [] else [Received(items[0])] + AllReceived(items[1..])
  }

  /** How many of `have` bytes a payload of the declared size takes. */
  function Taken(size: int, have: nat): (r: nat)
    ensures r <= have
  {
    if size <= 0 then 0 else Min(size, have)
  }

  /** A payload that has to be whole. */
  function DecodePayload(s: seq<byte>, size: int): Read<seq<byte>> {
    var len := Taken(size, |s|);
    if len < size then Bad else Got(s[..len], s[len..])
  }

  /** An item that another follows: its payload must be whole. */
  function DecodeEarly(s: seq<byte>): Read<Incoming> {
    match DecodeHead(s)
    case Bad => Bad
    case Got(head, body) =>
      match DecodePayload(body, head.size)
      case Bad => Bad
      case Got(payload, rest) => Got(Incoming(head, payload), rest)
  }

  /** The last item: its payload is what its reader finds. */
  function LastItem(head: Read<Head>): Read<seq<Incoming>> {
    match head
    case Bad => Bad
    case Got(head, body) =>
      var len := Taken(head.size, |body|);
      Got([Incoming(head, body[..len])], body[len..])
  }

  function DecodeItems(s: seq<byte>, n: nat): (r: Read<seq<Incoming>>)
    requires n > 0
    ensures r.Got? ==> |r.value| == n
    decreases n, 0
  {
    if n == 1 then LastItem(DecodeHead(s)) else DecodeAfter(DecodeEarly(s), n - 1)
  }

  /** An item and the `n` behind it. */
  function DecodeAfter(first: Read<Incoming>, n: nat): (r: Read<seq<Incoming>>)
    requires n > 0
    ensures r.Got? ==> |r.value| == n + 1
    decreases n, 1
  {
    match first
    case Bad => Bad
    case Got(item, rest) =>
      match DecodeItems(rest, n)
      case Bad => Bad
      case Got(items, rest) => Got([item] + items, rest)
  }

  lemma PayloadInverts(v: seq<byte>, size: int, t: seq<byte>)
    requires |v| == if size > 0 then size else 0
    ensures DecodePayload(v + t, size) == Got(v, t) && Taken(size, |v + t|) == |v|
  {
    assert (v + t)[..|v|] == v && (v + t)[|v|..] == t;
  }

  /** One step of the round trip: an item sent is an item received, with what follows left over. */
  lemma ItemInverts(o: Outgoing, t: seq<byte>, r: Read<Incoming>)
    requires o.Representable() && o.Sendable()
    requires r == if o.ShortStrings() then Got(Received(o), t) else Bad
    ensures DecodeEarly(EncodeItem(o) + t) == r
    ensures LastItem(DecodeHead(EncodeItem(o) + t)) == if r.Bad? then Bad else Got([r.value], r.rest)
  {
    var body := o.Sent() + t;
    assert EncodeItem(o) + t == EncodeHead(o) + body;
    HeadInverts(o, body);
    PayloadInverts(o.Sent(), o.size, t);
  }

  lemma LastInverts(items: seq<Outgoing>, t: seq<byte>)
    requires AllSendable(items) && |items| == 1
    ensures DecodeItems(EncodeItems(items) + t, 1)
         == if items[0].ShortStrings() then Got(AllReceived(items), t) else Bad
  {
    var o := items[0];
    ItemInverts(o, t, if o.ShortStrings() then Got(Received(o), t) else Bad);
    assert EncodeItems(items) == EncodeItem(o);
    assert AllReceived(items) == [Received(o)];
  }

  lemma EarlyInverts(items: seq<Outgoing>, u: seq<byte>)
    requires AllSendable(items) && |items| > 1
    ensures DecodeItems(EncodeItem(items[0]) + u, |items|)
         == if !items[0].ShortStrings() then Bad
            else match DecodeItems(u, |items| - 1)
                 case Bad => Bad
                 case Got(more, rest) => Got([Received(items[0])] + more, rest)
  {
    var o := items[0];
    ItemInverts(o, u, if o.ShortStrings() then Got(Received(o), u) else Bad);
  }

  lemma AllShortSplits(items: seq<Outgoing>)
    requires items != []
    ensures AllShort(items) <==> items[0].ShortStrings() && AllShort(items[1..])
  {
    assert items == [items[0]] + items[1..];
  }

  /** The items of a frame are received as they were sent, if and only if their strings are short. */
  lemma {:induction false} ItemsInvert(items: seq<Outgoing>, t: seq<byte>)
    requires AllSendable(items) && items != []
    ensures DecodeItems(EncodeItems(items) + t, |items|)
         == if AllShort(items) then Got(AllReceived(items), t) else Bad
  {
    AllShortSplits(items);
    if |items| == 1 {
      LastInverts(items, t);
    } else {
      var more := items[1..];
      ItemsInvert(more, t);
      var u := EncodeItems(more) + t;
      EarlyInverts(items, u);
      assert EncodeItems(items) + t == EncodeItem(items[0]) + u;
    }
  }

  /** The last payload is all there. */
  predicate Whole(i: Incoming) {
    |i.payload| == if i.head.size > 0 then i.head.size else 0
  }

  /** `items` with only the first `k` bytes of the last payload. */
  function Shortened(items: seq<Incoming>, k: nat): seq<Incoming>
    requires items != []
  {
    var last := items[|items| - 1];
    items[..|items| - 1] + [last.(payload := last.payload[..Taken(k, |last.payload|)])]
  }

  /**
    What a cut makes of items whose last payload ends at `rest`: nothing is decoded if it
    falls before that payload, and otherwise only that payload is shortened.
   */
  ghost predicate ItemsCut(s: seq<byte>, full: Read<seq<Incoming>>, k: nat, cut: Read<seq<Incoming>>)
    requires k <= |s|
  {
    full.Got? && full.value != [] && Whole(full.value[|full.value| - 1]) ==>
      && |full.rest| <= |s|
      && var end := |s| - |full.rest|;
         var last := |full.value[|full.value| - 1].payload|;
         && full.rest == s[end..]
         && last <= end
         && cut == (if k < end - last then Bad
                    else if k < end then Got(Shortened(full.value, k - (end - last)), [])
                    else Got(full.value, s[end..k]))
  }

  lemma PayloadCut(s: seq<byte>, size: int, k: nat)
    requires k <= |s|
    ensures Cut(s, DecodePayload(s, size), k, DecodePayload(s[..k], size))
  {
    var len := Taken(size, |s|);
    if len <= k && len >= size {
      assert Taken(size, k) == len;
      assert s[..k][..len] == s[..len] && s[..k][len..] == s[len..k];
    }
  }

  lemma EarlyCut(s: seq<byte>, k: nat)
    requires k <= |s|
    ensures Cut(s, DecodeEarly(s), k, DecodeEarly(s[..k]))
  {
    HeadCut(s, k);
    var r, c := DecodeHead(s), DecodeHead(s[..k]);
    if r.Got? {
      var size := r.value.size;
      PayloadCut(r.rest, size, |r.rest|);
      if c.Got? {
        CutIsPrefix(s, r, k, c);
        PayloadCut(r.rest, size, |c.rest|);
      }
      CutInTwo(s, k, r, c, DecodePayload(r.rest, size), if c.Got? then DecodePayload(c.rest, size) else Bad,
               DecodeEarly(s), DecodeEarly(s[..k]));
    }
  }

  lemma LastPayloadCut(s: seq<byte>, size: int, k: nat)
    requires k <= |s|
    ensures var len := Taken(size, |s|);
            if len <= k then Taken(size, k) == len && s[..k][..len] == s[..len] && s[..k][len..] == s[len..k]
            else Taken(size, k) == k && s[..k][..k] == s[..len][..k] && s[..k][k..] == []
  {
  }

  lemma LastCut(s: seq<byte>, k: nat, r: Read<Head>, c: Read<Head>)
    requires k <= |s| && Cut(s, r, k, c)
    ensures r.Got? ==> ItemsCut(s, LastItem(r), k, LastItem(c))
  {
    if r.Got? {
      var len := Taken(r.value.size, |r.rest|);
      assert r.rest[len..] == s[|s| - |r.rest| + len..];
      if c.Got? {
        CutIsPrefix(s, r, k, c);
        LastPayloadCut(r.rest, r.value.size, |c.rest|);
        if len <= |c.rest| {
          assert r.rest[len..|c.rest|] == s[|s| - |r.rest| + len..k];
        } else {
          var item := LastItem(r).value[0];
          assert Shortened([item], |c.rest|) == [item.(payload := item.payload[..|c.rest|])];
          assert LastItem(c) == Got(Shortened([item], |c.rest|), []);
        }
      }
    }
  }

  lemma ShortenedTail(first: Incoming, more: seq<Incoming>, k: nat)
    requires more != [] && k <= |more[|more| - 1].payload|
    ensures Shortened([first] + more, k) == [first] + Shortened(more, k)
  {
    assert ([first] + more)[..|more|] == [first] + more[..|more| - 1];
  }

  /** A cut of an item and of the items after it. */
  lemma CutBeforeItems(s: seq<byte>, k: nat, r: Read<Incoming>, c: Read<Incoming>,
                       more: Read<seq<Incoming>>, cutMore: Read<seq<Incoming>>)
    requires k <= |s| && r.Got? && Cut(s, r, k, c) && more.Got? && more.value != []
    requires ItemsCut(r.rest, more, |r.rest|, more)
    requires c.Got? ==> |c.rest| <= |r.rest| && ItemsCut(r.rest, more, |c.rest|, cutMore)
    ensures ItemsCut(s, Got([r.value] + more.value, more.rest), k,
                     if c.Bad? || cutMore.Bad? then Bad else Got([c.value] + cutMore.value, cutMore.rest))
  {
    var n := |s| - |r.rest|;
    var m := |r.rest| - |more.rest|;
    var all := [r.value] + more.value;
    assert all[|all| - 1] == more.value[|more.value| - 1];
    if Whole(all[|all| - 1]) {
      assert r.rest[m..] == s[n + m..];
      if c.Got? && m <= |c.rest| {
        assert r.rest[m..|c.rest|] == s[n + m..k];
      } else if c.Got? && cutMore.Got? {
        ShortenedTail(r.value, more.value, |c.rest| - (m - |more.value[|more.value| - 1].payload|));
      }
    }
  }

  lemma {:induction false} DecodeItemsCut(s: seq<byte>, n: nat, k: nat)
    requires n > 0 && k <= |s|
    ensures ItemsCut(s, DecodeItems(s, n), k, DecodeItems(s[..k], n))
    decreases n, 0
  {
    if n == 1 {
      HeadCut(s, k);
      LastCut(s, k, DecodeHead(s), DecodeHead(s[..k]));
    } else if DecodeItems(s, n).Got? {
      EarlyCut(s, k);
      MoreItemsCut(s, n - 1, k, DecodeEarly(s), DecodeEarly(s[..k]));
    }
  }

  lemma {:induction false} MoreItemsCut(s: seq<byte>, n: nat, k: nat, r: Read<Incoming>, c: Read<Incoming>)
    requires n > 0 && k <= |s| && Cut(s, r, k, c) && DecodeAfter(r, n).Got?
    ensures ItemsCut(s, DecodeAfter(r, n), k, DecodeAfter(c, n))
    decreases n, 1
  {
    DecodeItemsCut(r.rest, n, |r.rest|);
    assert r.rest[..|r.rest|] == r.rest;
    if c.Got? {
      CutIsPrefix(s, r, k, c);
      DecodeItemsCut(r.rest, n, |c.rest|);
    }
    CutBeforeItems(s, k, r, c, DecodeItems(r.rest, n), if c.Got? then DecodeItems(c.rest, n) else Bad);
  }

  // ---------------------------------------------------------------- the frame

  /** The bytes "CB01". */
  const MAGIC: seq<byte> := [67, 66, 48, 49]

  function EncodeFrame(channel: byte, items: seq<Outgoing>): seq<byte> {
    MAGIC + [channel] + EncodeUvarint(|items|) + EncodeItems(items)
  }

  /** The outcome of decoding; a count of `limit` or more, for which no slice can be made, ends in a panic. */
  datatype Decoding = Frame(channel: byte, items: seq<Incoming>, rest: seq<byte>) | BadFrame | Panic

  function DecodeFrame(limit: nat, s: seq<byte>): Decoding {
    if |s| < 5 || s[..4] != MAGIC then BadFrame else DecodeBody(limit, s[4], DecodeUvarint(s[5..], 0))
  }

  function DecodeBody(limit: nat, channel: byte, count: Read<nat>): Decoding {
    match count
    case Bad => BadFrame
    case Got(n, rest) =>
      if n < 1 then BadFrame
      else if n >= limit then Panic
      else ToFrame(channel, DecodeItems(rest, n))
  }

  function ToFrame(channel: byte, items: Read<seq<Incoming>>): Decoding {
    match items
    case Bad => BadFrame
    case Got(items, rest) => Frame(channel, items, rest)
  }

  lemma HeaderRead(limit: nat, channel: byte, u: seq<byte>)
    ensures DecodeFrame(limit, MAGIC + [channel] + u) == DecodeBody(limit, channel, DecodeUvarint(u, 0))
  {
    var s := MAGIC + [channel] + u;
    assert s[..4] == MAGIC && s[4] == channel && s[5..] == u;
  }

  lemma HeaderInverts(limit: nat, channel: byte, items: seq<Outgoing>, t: seq<byte>)
    requires 0 < |items| < limit <= TWO63
    ensures DecodeFrame(limit, EncodeFrame(channel, items) + t)
         == ToFrame(channel, DecodeItems(EncodeItems(items) + t, |items|))
  {
    var u := EncodeItems(items) + t;
    assert EncodeFrame(channel, items) + t == MAGIC + [channel] + (EncodeUvarint(|items|) + u);
    HeaderRead(limit, channel, EncodeUvarint(|items|) + u);
    RoomIsAll();
    UvarintInverts(|items|, 0, u);
  }

  /**
    A frame that is sent is received item for item, whatever follows it in the stream, and
    the reader ends just behind it. It takes strings within the limit, or the frame is bad.
   */
  lemma FrameRoundTrip(limit: nat, channel: byte, items: seq<Outgoing>, t: seq<byte>)
    requires AllSendable(items) && 0 < |items| < limit <= TWO63
    ensures DecodeFrame(limit, EncodeFrame(channel, items) + t)
         == if AllShort(items) then Frame(channel, AllReceived(items), t) else BadFrame
  {
    HeaderInverts(limit, channel, items, t);
    ItemsInvert(items, t);
  }

  /** What `items` are after the round trip, one by one. */
  lemma {:induction false} ReceivedAt(items: seq<Outgoing>, i: nat)
    requires i < |items|
    ensures AllReceived(items)[i] == Received(items[i])
  {
    if i > 0 {
      ReceivedAt(items[1..], i - 1);
    }
  }

  predicate WholeLast(d: Decoding) {
    d.Frame? && d.items != [] && Whole(d.items[|d.items| - 1])
  }

  /** What is decoded of the first `k` bytes of a stream from which `full` is decoded. */
  ghost predicate FrameCut(s: seq<byte>, full: Decoding, k: nat, cut: Decoding)
    requires k <= |s| && WholeLast(full)
  {
    var Frame(channel, items, rest) := full;
    var end := |s| - |rest|;
    var last := |items[|items| - 1].payload|;
    && |rest| <= |s| && rest == s[end..] && last <= end
    && cut == if k < end - last then BadFrame
              else if k < end then Frame(channel, Shortened(items, k - (end - last)), [])
              else Frame(channel, items, s[end..k])
  }

  /** The items start at `n`: what a cut does to them is what it does to the frame. */
  lemma ItemsInFrame(channel: byte, s: seq<byte>, n: nat, k: nat, full: Read<seq<Incoming>>, cut: Read<seq<Incoming>>)
    requires n <= |s| && k <= |s| && WholeLast(ToFrame(channel, full))
    requires ItemsCut(s[n..], full, if k < n then 0 else k - n, cut)
    ensures FrameCut(s, ToFrame(channel, full), k, if k < n then BadFrame else ToFrame(channel, cut))
  {
    var m := |s| - n - |full.rest|;
    assert s[n..][m..] == s[n + m..];
    if n + m <= k {
      assert s[n..][m..k - n] == s[n + m..k];
    }
  }

  lemma BodyCutBehind(channel: byte, s: seq<byte>, n: nat, k: nat, count: nat)
    requires n <= k <= |s| && 0 < count && WholeLast(ToFrame(channel, DecodeItems(s[n..], count)))
    ensures FrameCut(s, ToFrame(channel, DecodeItems(s[n..], count)), k, ToFrame(channel, DecodeItems(s[n..k], count)))
  {
    DecodeItemsCut(s[n..], count, k - n);
    assert s[n..][..k - n] == s[n..k];
    ItemsInFrame(channel, s, n, k, DecodeItems(s[n..], count), DecodeItems(s[n..k], count));
  }

  lemma BodyCutBefore(channel: byte, s: seq<byte>, n: nat, k: nat, count: nat)
    requires k < n <= |s| && 0 < count && WholeLast(ToFrame(channel, DecodeItems(s[n..], count)))
    ensures FrameCut(s, ToFrame(channel, DecodeItems(s[n..], count)), k, BadFrame)
  {
    DecodeItemsCut(s[n..], count, 0);
    ItemsInFrame(channel, s, n, k, DecodeItems(s[n..], count), DecodeItems(s[n..][..0], count));
  }

  lemma BodyCut(limit: nat, channel: byte, s: seq<byte>, r: Read<nat>, k: nat, c: Read<nat>)
    requires k <= |s| && Cut(s, r, k, c) && WholeLast(DecodeBody(limit, channel, r))
    ensures FrameCut(s, DecodeBody(limit, channel, r), k, DecodeBody(limit, channel, c))
  {
    var n := |s| - |r.rest|;
    assert s[n..] == r.rest;
    if k < n {
      BodyCutBefore(channel, s, n, k, r.value);
    } else {
      BodyCutBehind(channel, s, n, k, r.value);
    }
  }

  /** The header of five bytes moves every position by five. */
  lemma ShiftCut(s: seq<byte>, full: Decoding, k: nat, cut: Decoding)
    requires 5 <= |s| && k <= |s| && WholeLast(full)
    requires FrameCut(s[5..], full, if k < 5 then 0 else k - 5, cut)
    ensures FrameCut(s, full, k, if k < 5 then BadFrame else cut)
  {
    var end := |s| - |full.rest|;
    assert s[5..][end - 5..] == s[end..];
    if 5 <= k && end <= k {
      assert s[5..][end - 5..k - 5] == s[end..k];
    }
  }

  /**
    A frame cut short is a bad frame if the cut falls before its last payload, and the same
    frame with a short last payload otherwise; a cut behind it is not noticed.
   */
  lemma CutFrame(limit: nat, s: seq<byte>, k: nat)
    requires k <= |s| && WholeLast(DecodeFrame(limit, s))
    ensures FrameCut(s, DecodeFrame(limit, s), k, DecodeFrame(limit, s[..k]))
  {
    var t := s[5..];
    var j := if k < 5 then 0 else k - 5;
    UvarintCut(t, 0, j);
    BodyCut(limit, s[4], t, DecodeUvarint(t, 0), j, DecodeUvarint(t[..j], 0));
    ShiftCut(s, DecodeFrame(limit, s), k, DecodeBody(limit, s[4], DecodeUvarint(t[..j], 0)));
    if k >= 5 {
      assert s[..k][5..] == t[..j] && s[..k][..4] == s[..4] && s[..k][4] == s[4];
    }
  }

  lemma SentIsWhole(channel: byte, items: seq<Outgoing>)
    requires AllSendable(items) && items != []
    ensures var all := AllReceived(items);
            WholeLast(Frame(channel, all, [])) && all[|all| - 1].payload == items[|items| - 1].Sent()
  {
    ReceivedAt(items, |items| - 1);
    assert items[|items| - 1].Sendable();
  }

  /** What is decoded of the first `k` of `n` bytes that are a frame, if its last payload has `last` bytes. */
  function StrictPrefix(channel: byte, all: seq<Incoming>, n: nat, last: nat, k: nat): Decoding
    requires last <= n && k < n && WholeLast(Frame(channel, all, []))
    requires last == |all[|all| - 1].payload|
  {
    if k < n - last then BadFrame else Frame(channel, Shortened(all, k - (n - last)), [])
  }

  lemma SentIsFrame(limit: nat, channel: byte, items: seq<Outgoing>, s: seq<byte>)
    requires AllSendable(items) && 0 < |items| < limit <= TWO63 && AllShort(items) && s == EncodeFrame(channel, items)
    ensures DecodeFrame(limit, s) == Frame(channel, AllReceived(items), [])
  {
    FrameRoundTrip(limit, channel, items, []);
    assert s + [] == s;
  }

  lemma StrictCut(channel: byte, all: seq<Incoming>, s: seq<byte>, last: nat, k: nat, cut: Decoding)
    requires k < |s| && WholeLast(Frame(channel, all, [])) && last == |all[|all| - 1].payload|
    requires FrameCut(s, Frame(channel, all, []), k, cut)
    ensures last <= |s| && cut == StrictPrefix(channel, all, |s|, last, k)
  {
  }

  /** A frame with nothing behind it, cut to a strict prefix. */
  lemma WholeFrameCut(limit: nat, channel: byte, all: seq<Incoming>, s: seq<byte>, last: nat, k: nat)
    requires DecodeFrame(limit, s) == Frame(channel, all, []) && WholeLast(Frame(channel, all, [])) && k < |s|
    requires last == |all[|all| - 1].payload|
    ensures last <= |s| && DecodeFrame(limit, s[..k]) == StrictPrefix(channel, all, |s|, last, k)
  {
    CutFrame(limit, s, k);
    StrictCut(channel, all, s, last, k, DecodeFrame(limit, s[..k]));
  }

  /** A strict prefix of a sent frame is bad, or has a short last payload and nothing else wrong. */
  lemma SentFrameCut(limit: nat, channel: byte, items: seq<Outgoing>, s: seq<byte>, k: nat)
    requires AllSendable(items) && 0 < |items| < limit <= TWO63 && AllShort(items)
    requires s == EncodeFrame(channel, items) && k < |s|
    ensures var (all, last) := (AllReceived(items), |items[|items| - 1].Sent()|);
            && WholeLast(Frame(channel, all, [])) && last == |all[|all| - 1].payload| && last <= |s|
            && DecodeFrame(limit, s[..k]) == StrictPrefix(channel, all, |s|, last, k)
  {
    var all, last := AllReceived(items), |items[|items| - 1].Sent()|;
    SentIsFrame(limit, channel, items, s);
    SentIsWhole(channel, items);
    WholeFrameCut(limit, channel, all, s, last, k);
    assert last <= |s|;
  }
}
