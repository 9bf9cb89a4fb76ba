/** The encoder and the decoder of CB01 as they run: over a writer, and over a forward-only reader. */
module Cb01Stream {
  import opened Basics
  import opened Cb01

  // ---------------------------------------------------------------- the encoder

  class Output {
    var bytes: seq<byte>

    method WriteByte(b: byte)
      modifies this
      ensures bytes == old(bytes) + [b]
    {
      bytes := bytes + [b];
    }

    method Write(s: seq<byte>)
      modifies this
      ensures bytes == old(bytes) + s
    {
      bytes := bytes + s;
    }
  }

  const MAX_VARINT_LEN := 10

  /** A number that fits 64 bits fits the buffer. */
  lemma {:induction false} UvarintFits(x: nat, i: nat)
    requires i <= 9 && x < Room(i)
    ensures |EncodeUvarint(x)| <= MAX_VARINT_LEN - i
    decreases x
  {
    if x >= 128 {
      UvarintFits(x / 128, i + 1);
    }
  }

  lemma Uint64Fits(x: nat)
    requires x < TWO64
    ensures |EncodeUvarint(x)| <= MAX_VARINT_LEN
  {
    RoomIsAll();
    UvarintFits(x, 0);
  }

  lemma LowBitsFirst(was: seq<byte>, x: nat)
    requires x >= 128
    ensures was + EncodeUvarint(x) == was + [x % 128 + 128] + EncodeUvarint(x / 128)
  {
  }

  /** binary.PutUvarint: the encoding at the start of the buffer. */
  method PutUvarint(buf: array<byte>, x: nat) returns (n: nat)
    requires buf.Length == MAX_VARINT_LEN && x < TWO64
    modifies buf
    ensures n <= buf.Length && buf[..n] == EncodeUvarint(x)
  {
    Uint64Fits(x);
    var left := x;
    n := 0;
    while left >= 128
      invariant n + |EncodeUvarint(left)| <= buf.Length
      invariant buf[..n] + EncodeUvarint(left) == EncodeUvarint(x)
      decreases left
    {
      ghost var was := buf[..n];
      buf[n] := left % 128 + 128;
      assert buf[..n + 1] == was + [left % 128 + 128];
      LowBitsFirst(was, left);
      left := left / 128;
      n := n + 1;
    }
    buf[n] := left;
    assert buf[..n + 1] == buf[..n] + [left];
    n := n + 1;
  }

  method WriteUvarint(out: Output, x: nat)
    requires x < TWO64
    modifies out
    ensures out.bytes == old(out.bytes) + EncodeUvarint(x)
  {
    var buf := new byte[MAX_VARINT_LEN](_ => 0);
    var n := PutUvarint(buf, x);
    for i := 0 to n
      invariant out.bytes == old(out.bytes) + buf[..i]
      invariant buf[..n] == EncodeUvarint(x)
    {
      out.WriteByte(buf[i]);
    }
  }

  method WriteString(out: Output, s: seq<byte>)
    requires |s| < TWO63
    modifies out
    ensures out.bytes == old(out.bytes) + EncodeString(s)
  {
    WriteUvarint(out, |s|);
    if |s| == 0 {
      return;
    }
    out.Write(s);
  }

  method WriteHead(out: Output, o: Outgoing)
    requires o.Representable()
    modifies out
    ensures out.bytes == old(out.bytes) + EncodeHead(o)
  {
    out.WriteByte(o.kind);
    WriteString(out, o.name);
    WriteString(out, o.uti);
    WriteString(out, o.mime);
    WriteUvarint(out, ToUint64(o.size));
  }

  /** Why a frame was not sent: it has no item or no reader, or a reader ended early. */
  datatype Sending = Done | Refused | ReaderEnded

  function ItemOutcome(o: Outgoing): (r: Sending)
    ensures r == Refused <==> o.size > 0 && o.payload.None?
    ensures r == ReaderEnded <==> o.payload.Some? && o.size > |o.payload.value|
  {
    if o.Sendable() then Done else if o.payload.None? then Refused else ReaderEnded
  }

  /** The outcome of the first item that cannot be sent. */
  function ItemsOutcome(items: seq<Outgoing>): Sending {
    if |items| == 0 then Done
    else if ItemOutcome(items[0]) == Done then ItemsOutcome(items[1..])
    else ItemOutcome(items[0])
  }

  /** The i-th item is the first that cannot be sent. */
  ghost predicate FirstFailure(items: seq<Outgoing>, i: nat, r: Sending)
    requires i < |items|
  {
    r != Done && ItemOutcome(items[i]) == r && forall j :: 0 <= j < i ==> ItemOutcome(items[j]) == Done
  }

  lemma {:induction false} OutcomeIsFirstFailure(items: seq<Outgoing>) returns (i: nat)
    requires ItemsOutcome(items) != Done
    ensures i < |items| && FirstFailure(items, i, ItemsOutcome(items))
  {
    if ItemOutcome(items[0]) == Done {
      var k := OutcomeIsFirstFailure(items[1..]);
      i := k + 1;
      forall j | 0 <= j < i ensures ItemOutcome(items[j]) == Done {
        assert j > 0 ==> items[j] == items[1..][j - 1];
      }
    } else {
      i := 0;
    }
  }

  method WriteItem(out: Output, o: Outgoing) returns (r: Sending)
    requires o.Representable()
    modifies out
    ensures r == ItemOutcome(o) && out.bytes == old(out.bytes) + EncodeItem(o)
  {
    WriteHead(out, o);
    if o.size > 0 {
      if o.payload.None? {
        return Refused;
      }
      var n := Min(o.size, |o.payload.value|);
      out.Write(o.payload.value[..n]);
      if n != o.size {
        return ReaderEnded;
      }
    }
    r := Done;
  }

  method WriteItems(out: Output, items: seq<Outgoing>) returns (r: Sending)
    requires forall o <- items :: o.Representable()
    modifies out
    ensures r == ItemsOutcome(items)
    ensures r == Done ==> out.bytes == old(out.bytes) + EncodeItems(items)
    ensures old(out.bytes) <= out.bytes <= old(out.bytes) + EncodeItems(items)
  {
    for i := 0 to |items|
      invariant old(out.bytes) <= out.bytes
      invariant out.bytes + EncodeItems(items[i..]) == old(out.bytes) + EncodeItems(items)
      invariant ItemsOutcome(items[i..]) == ItemsOutcome(items)
    {
      ghost var was := out.bytes;
      var r := WriteItem(out, items[i]);
      NextItem(was, items[i..]);
      assert items[i..][1..] == items[i + 1..];
      if r != Done {
        return r;
      }
    }
    r := Done;
  }

  lemma NextItem(was: seq<byte>, items: seq<Outgoing>)
    requires items != []
    ensures was + EncodeItems(items) == was + EncodeItem(items[0]) + EncodeItems(items[1..])
  {
  }

  lemma {:induction false} DoneMeansSendable(items: seq<Outgoing>)
    requires forall o <- items :: o.Representable()
    ensures ItemsOutcome(items) == Done <==> AllSendable(items)
  {
    if items != [] {
      DoneMeansSendable(items[1..]);
      assert items == [items[0]] + items[1..];
      assert AllSendable(items) <==> items[0].Sendable() && AllSendable(items[1..]);
    }
  }

  method WriteHeader(out: Output, channel: byte, count: nat)
    requires count < TWO63
    modifies out
    ensures out.bytes == old(out.bytes) + (MAGIC + [channel] + EncodeUvarint(count))
  {
    out.Write(MAGIC);
    out.WriteByte(channel);
    WriteUvarint(out, count);
  }

  lemma Behind(was: seq<byte>, header: seq<byte>, now: seq<byte>, items: seq<byte>)
    requires was + header <= now <= was + header + items
    ensures was <= now <= was + (header + items) && was + header + items == was + (header + items)
  {
  }

  /** A frame is sent whole, or leaves a prefix of itself behind. */
  method EncodeStreaming(out: Output, channel: byte, items: seq<Outgoing>) returns (r: Sending)
    requires |items| < TWO63 && forall o <- items :: o.Representable()
    modifies out
    ensures r == if items == [] then Refused else ItemsOutcome(items)
    ensures r == Done <==> items != [] && AllSendable(items)
    ensures r == Done ==> out.bytes == old(out.bytes) + EncodeFrame(channel, items)
    ensures old(out.bytes) <= out.bytes <= old(out.bytes) + EncodeFrame(channel, items)
  {
    if |items| == 0 {
      return Refused;
    }
    WriteHeader(out, channel, |items|);
    r := WriteItems(out, items);
    DoneMeansSendable(items);
    Behind(old(out.bytes), MAGIC + [channel] + EncodeUvarint(|items|), out.bytes, EncodeItems(items));
  }

  /** An item whose payload is in memory. */
  datatype Buffered = Buffered(kind: byte, name: seq<byte>, uti: seq<byte>, mime: seq<byte>, payload: seq<byte>)

  function Stream(b: Buffered): (o: Outgoing)
    ensures o.kind == b.kind && o.name == b.name && o.uti == b.uti && o.mime == b.mime
    ensures o.Sendable() && o.Sent() == b.payload && o.size == |b.payload|
  {
    Outgoing(b.kind, b.name, b.uti, b.mime, Some(b.payload), |b.payload|)
  }

  /** EncodeCB01: a frame of buffered items is always sent, unless it has none. */
  method EncodeBuffered(out: Output, channel: byte, items: seq<Buffered>) returns (r: Sending)
    requires |items| < TWO63
    requires forall b <- items :: |b.name| < TWO63 && |b.uti| < TWO63 && |b.mime| < TWO63 && |b.payload| < TWO63
    modifies out
    ensures r == if items == [] then Refused else Done
    ensures r == Done ==>
      var streams := seq(|items|, i requires 0 <= i < |items| => Stream(items[i]));
      out.bytes == old(out.bytes) + EncodeFrame(channel, streams)
  {
    var streams: seq<Outgoing> := [];
    for i := 0 to |items|
      invariant |streams| == i && forall j :: 0 <= j < i ==> streams[j] == Stream(items[j])
    {
      streams := streams + [Stream(items[i])];
    }
    r := EncodeStreaming(out, channel, streams);
    assert streams == seq(|items|, i requires 0 <= i < |items| => Stream(items[i]));
  }

  // ---------------------------------------------------------------- the decoder

  /** A forward-only stream, as the decoder sees it. */
  class Input {
    var rest: seq<byte>

    method ReadByte() returns (b: Option<byte>)
      modifies this
      ensures Agrees(DecodeByte(old(rest)), b, rest)
    {
      if |rest| == 0 {
        return None;
      }
      b := Some(rest[0]);
      rest := rest[1..];
    }

    /**
      At most `n` bytes, as many as happen to be there; None is io.EOF. No bytes are none
      read into an empty buffer, which may notice the end of the stream or not.
     */
    method Read(n: nat) returns (s: Option<seq<byte>>)
      modifies this
      ensures s.None? ==> old(rest) == [] && rest == []
      ensures s.Some? ==> old(rest) == s.value + rest && |s.value| <= n && (s.value == [] ==> n == 0)
    {
      var noticed: bool := *;
      if rest == [] && (noticed || n > 0) {
        return None;
      }
      var k :| 0 <= k <= n && k <= |rest| && (k == 0 ==> n == 0) by {
        assert n == 0 || 1 <= |rest|;
        var m := Min(n, |rest|);
      }
      s := Some(rest[..k]);
      rest := rest[k..];
    }
  }

  /** A read of the stream did what the decoding function says. */
  ghost predicate Agrees<T>(spec: Read<T>, value: Option<T>, rest: seq<byte>) {
    match spec
    case Bad => value == None
    case Got(v, t) => value == Some(v) && rest == t
  }

  /** The number whose low bits `x`, below the weight `m`, have been read. */
  ghost function Above(x: nat, m: nat, r: Read<nat>): Read<nat> {
    match r
    case Bad => Bad
    case Got(v, rest) => Got(x + m * v, rest)
  }

  lemma AboveByte(x: nat, m: nat, b: nat, r: Read<nat>)
    ensures Above(x, m, Above(b, 128, r)) == Above(x + m * b, 128 * m, r)
  {
    if r.Got? {
      assert m * (b + 128 * r.value) == m * b + (128 * m) * r.value;
    }
  }

  /** A byte that is not the last of a number. */
  lemma OneByteOn(sum: nat, m: nat, s: seq<byte>, i: nat)
    requires i < 10 && |s| > 0 && s[0] >= 128
    ensures Above(sum, m, DecodeUvarint(s, i)) == Above(sum + m * (s[0] - 128), 128 * m, DecodeUvarint(s[1..], i + 1))
  {
    AboveByte(sum, m, s[0] - 128, DecodeUvarint(s[1..], i + 1));
  }

  /** The last byte of a number. */
  lemma LastByte(sum: nat, m: nat, s: seq<byte>, i: nat)
    requires i < 10 && |s| > 0 && s[0] < 128
    ensures Above(sum, m, DecodeUvarint(s, i)) == if i == 9 && s[0] > 1 then Bad else Got(sum + m * s[0], s[1..])
  {
  }

  /** binary.ReadUvarint; the bits of `b` that go above the 64th are those of numbers it refuses. */
  method ReadUvarint(input: Input) returns (x: Option<nat>)
    modifies input
    ensures Agrees(DecodeUvarint(old(input.rest), 0), x, input.rest)
  {
    var sum: nat, m: nat := 0, 1;
    for i := 0 to MAX_VARINT_LEN
      invariant DecodeUvarint(old(input.rest), 0) == Above(sum, m, DecodeUvarint(input.rest, i))
    {
      ghost var s := input.rest;
      var b := input.ReadByte();
      if b.None? {
        return None;
      }
      if b.value < 128 {
        LastByte(sum, m, s, i);
        if i == MAX_VARINT_LEN - 1 && b.value > 1 {
          return None;
        }
        return Some(sum + m * b.value);
      }
      OneByteOn(sum, m, s, i);
      sum := sum + m * (b.value - 128);
      m := 128 * m;
    }
    x := None;
  }

  /** io.CopyN and io.ReadFull: `n` bytes in pieces, or all there are if they are fewer. */
  method CopyN(input: Input, n: nat, piece: nat) returns (s: seq<byte>)
    requires piece > 0
    modifies input
    ensures s == old(input.rest)[..Taken(n, |old(input.rest)|)]
    ensures input.rest == old(input.rest)[Taken(n, |old(input.rest)|)..]
  {
    s := [];
    while |s| < n
      invariant s + input.rest == old(input.rest) && |s| <= n
      decreases n - |s|
    {
      var more := input.Read(Min(piece, n - |s|));
      if more.None? {
        break;
      }
      Regroup(s, more.value, input.rest);
      s := s + more.value;
    }
    assert s == old(input.rest)[..|s|] && input.rest == old(input.rest)[|s|..];
  }

  lemma Regroup(a: seq<byte>, b: seq<byte>, c: seq<byte>)
    ensures a + (b + c) == a + b + c
  {
  }

  method ReadString(input: Input) returns (s: Option<seq<byte>>)
    modifies input
    ensures Agrees(DecodeString(old(input.rest)), s, input.rest)
  {
    var n := ReadUvarint(input);
    if n.None? {
      return None;
    }
    if n.value == 0 {
      return Some([]);
    }
    if n.value > MAX_STRING {
      return None;
    }
    var bytes := CopyN(input, n.value, n.value);
    if |bytes| < n.value {
      return None;
    }
    s := Some(bytes);
  }

  method ReadTwo(input: Input) returns (s: Option<(seq<byte>, seq<byte>)>)
    modifies input
    ensures Agrees(DecodeTwo(old(input.rest)), s, input.rest)
  {
    var uti := ReadString(input);
    if uti.None? {
      return None;
    }
    var mime := ReadString(input);
    if mime.None? {
      return None;
    }
    s := Some((uti.value, mime.value));
  }

  method ReadStrings(input: Input) returns (s: Option<(seq<byte>, seq<byte>, seq<byte>)>)
    modifies input
    ensures Agrees(DecodeStrings(old(input.rest)), s, input.rest)
  {
    var name := ReadString(input);
    if name.None? {
      return None;
    }
    var more := ReadTwo(input);
    if more.None? {
      return None;
    }
    s := Some((name.value, more.value.0, more.value.1));
  }

  method ReadMeta(input: Input) returns (m: Option<((seq<byte>, seq<byte>, seq<byte>), nat)>)
    modifies input
    ensures Agrees(DecodeMeta(old(input.rest)), m, input.rest)
  {
    var strings := ReadStrings(input);
    if strings.None? {
      return None;
    }
    var size := ReadUvarint(input);
    if size.None? {
      return None;
    }
    m := Some((strings.value, size.value));
  }

  method ReadHead(input: Input) returns (h: Option<Head>)
    modifies input
    ensures Agrees(DecodeHead(old(input.rest)), h, input.rest)
  {
    var kind := input.ReadByte();
    if kind.None? {
      return None;
    }
    var m := ReadMeta(input);
    if m.None? {
      return None;
    }
    var ((name, uti, mime), size) := m.value;
    h := Some(Head(kind.value, name, uti, mime, ToInt64(size)));
  }

  /** The payload of the last item, read off the stream itself. */
  class GuardedReader {
    const input: Input
    var remaining: int

    /** All that the reader still has to give. */
    ghost function Contents(): seq<byte>
      reads this, input
    {
      input.rest[..Taken(remaining, |input.rest|)]
    }

    constructor (input: Input, size: int)
      ensures this.input == input && remaining == size
    {
      this.input := input;
      remaining := size;
    }

    /** Into a buffer of `n` bytes; None is io.EOF. */
    method Read(n: nat) returns (s: Option<seq<byte>>)
      modifies this, input
      ensures s.None? ==> old(Contents()) == [] && Contents() == [] && input.rest == old(input.rest)
      ensures s.Some? ==> old(remaining) > 0 && |s.value| <= n && (s.value == [] ==> n == 0)
      ensures s.Some? ==> old(Contents()) == s.value + Contents() && old(input.rest) == s.value + input.rest
    {
      if remaining <= 0 {
        return None;
      }
      s := input.Read(Min(n, remaining));
      if s.Some? {
        remaining := remaining - |s.value|;
        TakenSplits(s.value, input.rest, remaining);
      }
    }

    /** Reading with any buffer to the end gives the payload, and leaves what is behind it. */
    method ReadAll(n: nat) returns (all: seq<byte>)
      requires n > 0
      modifies this, input
      ensures all == old(Contents()) && old(input.rest) == all + input.rest
    {
      all := [];
      while true
        invariant old(Contents()) == all + Contents() && old(input.rest) == all + input.rest
        decreases |Contents()|
      {
        var s := Read(n);
        if s.None? {
          break;
        }
        Regroup(all, s.value, Contents());
        Regroup(all, s.value, input.rest);
        all := all + s.value;
      }
    }
  }

  lemma TakenSplits(got: seq<byte>, rest: seq<byte>, left: int)
    requires left >= 0
    ensures (got + rest)[..Taken(left + |got|, |got + rest|)] == got + rest[..Taken(left, |rest|)]
  {
  }

  /** The result of DecodeCB01: the items before the last with their payloads, and a reader for the last. */
  datatype Verdict =
    | Decoded(channel: byte, early: seq<Incoming>, last: Head, payload: GuardedReader)
    | Malformed
    | Panicked

  class Decoder {
    const input: Input
    const limit: nat    // the least count for which no slice of items can be made
    var spills: nat     // temporary files in existence

    constructor (input: Input, limit: nat)
      ensures this.input == input && this.limit == limit && spills == 0
    {
      this.input, this.limit := input, limit;
      spills := 0;
    }

    /** An early payload goes to a temporary file, which a short payload removes again. */
    method SpillPayload(size: int) returns (p: Option<seq<byte>>)
      modifies this, input
      ensures Agrees(DecodePayload(old(input.rest), size), p, input.rest)
      ensures spills == old(spills) + if p.Some? then 1 else 0
    {
      spills := spills + 1;
      if size > 0 {
        var copied := CopyN(input, size, 32768);
        if |copied| != size {
          spills := spills - 1;
          return None;
        }
        p := Some(copied);
      } else {
        p := Some([]);
      }
    }

    method DecodeEarlyItem() returns (i: Option<Incoming>)
      modifies this, input
      ensures Agrees(DecodeEarly(old(input.rest)), i, input.rest)
      ensures spills == old(spills) + if i.Some? then 1 else 0
    {
      var h := ReadHead(input);
      if h.None? {
        return None;
      }
      var p := SpillPayload(h.value.size);
      if p.None? {
        return None;
      }
      i := Some(Incoming(h.value, p.value));
    }

    /** Close the spills of the items read so far. */
    method CloseSpills(items: seq<Incoming>)
      requires |items| <= spills
      modifies this
      ensures spills == old(spills) - |items|
    {
      for i := 0 to |items|
        invariant spills == old(spills) - i
      {
        spills := spills - 1;
      }
    }

    /** Magic, channel and count. */
    method DecodeHeader() returns (h: Option<(byte, nat)>)
      modifies input
      ensures h.None? ==> DecodeFrame(limit, old(input.rest)) == BadFrame
      ensures h.Some? ==>
        DecodeFrame(limit, old(input.rest)) == DecodeBody(limit, h.value.0, Got(h.value.1, input.rest))
    {
      var magic := CopyN(input, 4, 4);
      if |magic| < 4 || magic != MAGIC {
        return None;
      }
      var channel := input.ReadByte();
      if channel.None? {
        return None;
      }
      assert input.rest == old(input.rest)[5..];
      var count := ReadUvarint(input);
      if count.None? {
        return None;
      }
      h := Some((channel.value, count.value));
    }

    /** All items but the last, their payloads spilled. */
    method DecodeEarlyItems(count: nat) returns (early: Option<seq<Incoming>>)
      requires count > 0
      modifies this, input
      ensures early.None? ==> DecodeItems(old(input.rest), count) == Bad && spills == old(spills)
      ensures early.Some? ==> |early.value| == count - 1 && spills == old(spills) + count - 1
      ensures early.Some? ==>
        DecodeItems(old(input.rest), count) == Ahead(early.value, LastItem(DecodeHead(input.rest)))
    {
      var items: seq<Incoming> := [];
      ghost var start := input.rest;
      NoneAhead(DecodeItems(start, count));
      while |items| < count - 1
        invariant |items| < count && spills == old(spills) + |items|
        invariant DecodeItems(start, count) == Ahead(items, DecodeItems(input.rest, count - |items|))
      {
        ghost var was := input.rest;
        EarlyStep(items, was, count - |items|, DecodeEarly(was));
        var item := DecodeEarlyItem();
        if item.None? {
          CloseSpills(items);
          return None;
        }
        items := items + [item.value];
      }
      early := Some(items);
    }

    /** All items, up to the payload of the last. */
    method DecodeAllItems(count: nat) returns (r: Option<(seq<Incoming>, Head)>)
      requires count > 0
      modifies this, input
      ensures r.None? ==> DecodeItems(old(input.rest), count) == Bad && spills == old(spills)
      ensures r.Some? ==> spills == old(spills) + |r.value.0|
      ensures r.Some? ==> DecodeItems(old(input.rest), count) == Ahead(r.value.0, LastItem(Got(r.value.1, input.rest)))
    {
      var early := DecodeEarlyItems(count);
      if early.None? {
        return None;
      }
      var last := ReadHead(input);
      if last.None? {
        CloseSpills(early.value);
        return None;
      }
      r := Some((early.value, last.value));
    }

    /**
      DecodeCB01: the verdict of the decoding function. The reader it hands out gives the
      last payload, and no temporary file outlives a frame that is refused.
     */
    method DecodeCB01() returns (v: Verdict)
      modifies this, input
      ensures v.Decoded? ==> fresh(v.payload)
      ensures spills == old(spills) + if v.Decoded? then |v.early| else 0
      ensures match DecodeFrame(limit, old(input.rest))
              case BadFrame => v == Malformed
              case Panic => v == Panicked
              case Frame(channel, items, rest) =>
                && v.Decoded? && v.channel == channel
                && v.payload.input == input && v.payload.remaining == v.last.size
                && items == v.early + [Incoming(v.last, v.payload.Contents())]
                && input.rest == v.payload.Contents() + rest
    {
      var header := DecodeHeader();
      if header.None? || header.value.1 < 1 {
        return Malformed;
      }
      var (channel, count) := header.value;
      if count >= limit {
        return Panicked;
      }
      var items := DecodeAllItems(count);
      if items.None? {
        return Malformed;
      }
      var (early, last) := items.value;
      var payload := new GuardedReader(input, last.size);
      LastBehind(channel, early, last, input.rest);
      v := Decoded(channel, early, last, payload);
    }

    /** DecodeCB01 and then the last payload to its end: the items of the frame, and the stream behind it. */
    method Receive(buffer: nat) returns (items: Option<seq<Incoming>>)
      requires buffer > 0
      modifies this, input
      ensures match DecodeFrame(limit, old(input.rest))
              case Frame(_, all, rest) => items == Some(all) && input.rest == rest
              case _ => items == None
    {
      var v := DecodeCB01();
      if !v.Decoded? {
        return None;
      }
      ghost var was := input.rest;
      var last := v.payload.ReadAll(buffer);
      items := Some(v.early + [Incoming(v.last, last)]);
    }
  }

  ghost function Ahead(items: seq<Incoming>, r: Read<seq<Incoming>>): Read<seq<Incoming>> {
    match r
    case Bad => Bad
    case Got(more, rest) => Got(items + more, rest)
  }

  lemma NoneAhead(r: Read<seq<Incoming>>)
    ensures Ahead([], r) == r
  {
    if r.Got? {
      assert [] + r.value == r.value;
    }
  }

  lemma LastBehind(channel: byte, early: seq<Incoming>, last: Head, body: seq<byte>)
    ensures var len := Taken(last.size, |body|);
            && ToFrame(channel, Ahead(early, LastItem(Got(last, body))))
               == Frame(channel, early + [Incoming(last, body[..len])], body[len..])
            && body[..len] + body[len..] == body
  {
    var len := Taken(last.size, |body|);
    assert body == body[..len] + body[len..];
  }

  /** One item read is one item less ahead; one that cannot be read spoils them all. */
  lemma EarlyStep(items: seq<Incoming>, s: seq<byte>, n: nat, first: Read<Incoming>)
    requires n > 1 && first == DecodeEarly(s)
    ensures Ahead(items, DecodeItems(s, n))
         == if first.Bad? then Bad else Ahead(items + [first.value], DecodeItems(first.rest, n - 1))
  {
    if first.Got? && DecodeItems(first.rest, n - 1).Got? {
      var more := DecodeItems(first.rest, n - 1).value;
      assert items + ([first.value] + more) == items + [first.value] + more;
    }
  }
}
