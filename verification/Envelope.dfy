/**
  The forward parser of Envelope v1 (POST /clip): what each step reads, as functions of
  the unread bytes, and the class whose methods read it from the stream.
*/
module Envelope {
  import opened Basics
  import opened ByteStream
  import opened JsonString
  import opened JsonScan
  import opened Base64
  import opened Base64Stream

  /** Scratch files in the order they were created; None is one abandoned half-written. */
  type Files = seq<Option<seq<byte>>>

  /** One item of the envelope; `scratch` says which scratch file holds its payload. */
  datatype Item = Item(kind: string, name: string, uti: string, mime: string, text: string, scratch: Option<nat>)

  datatype Env = Env(version: int, channel: string, items: seq<Item>)

  const BLANK_ITEM := Item("", "", "", "", "", None)
  const BLANK_ENV := Env(0, "", [])

  // ---------------------------------------------------------------- keys

  datatype KeyStep = EndOfObject(rest: string) | Key(name: string, rest: string) | NoKey(error: ParseError)

  /** The next key of an object with its colon, or the end of the object. */
  function NextKey(s: string, first: bool, ending: Ending): (k: KeyStep)
    ensures k.Key? ==> |k.rest| < |s|
    ensures k.EndOfObject? ==> |k.rest| < |s|
  {
    match SkipSpace(s, ending)
    case Failed(e) => NoKey(e)
    case Got(_, t) =>
      if t[0] == '}' then EndOfObject(t[1..])
      else if first then KeyAt(t, ending)
      else if t[0] != ',' then NoKey(Malformed)
      else
        match SkipSpace(t[1..], ending)
        case Failed(e) => NoKey(e)
        case Got(_, u) => KeyAt(u, ending)
  }

  function KeyAt(t: string, ending: Ending): (k: KeyStep)
    requires |t| > 0
    ensures !k.EndOfObject? && (k.Key? ==> |k.rest| < |t|)
  {
    if t[0] != '"' then NoKey(Malformed)
    else
      match StringTail(t[1..], ending)
      case Failed(e) => NoKey(e)
      case Got(name, u) =>
        match Expect(u, ':', ending)
        case Failed(e) => NoKey(e)
        case Got(_, v) => Key(name, v)
  }

  ghost predicate AgreesKey(spec: KeyStep, o: Outcome<Option<string>>, rest: string) {
    match spec
    case EndOfObject(r) => o == Value(None) && rest == r
    case Key(name, r) => o == Value(Some(name)) && rest == r
    case NoKey(e) => o == Error(e)
  }

  method ReadKey(br: Reader, first: bool) returns (o: Outcome<Option<string>>)
    requires br.Valid()
    modifies br
    ensures br.Valid() && AgreesKey(NextKey(old(br.Rest()), first, br.ending), o, br.Rest())
  {
    var w := SkipWs(br);
    if w.Error? {
      return Error(w.error);
    }
    var b := br.ReadByte();
    if b.value == '}' {
      return Value(None);
    }
    if !first {
      if b.value != ',' {
        return Error(Malformed);
      }
      w := SkipWs(br);
      if w.Error? {
        return Error(w.error);
      }
      b := br.ReadByte();
    }
    if b.value != '"' {
      return Error(Malformed);
    }
    var name := ReadShortString(br);
    if name.Error? {
      return Error(name.error);
    }
    w := SkipWsThen(br, ':');
    return if w.Error? then Error(w.error) else Value(Some(name.value));
  }

  // ---------------------------------------------------------------- one item

  /** A payload, its opening quote taken: base64 text inside a JSON string. */
  function Payload(s: string, ending: Ending): (r: Parsed<seq<byte>>)
    ensures r.Got? ==> |r.rest| < |s|
  {
    var t := Unescape(s, ending);
    match (StreamDecode(t.out), t.end)
    case (Corrupt, _) => Failed(Malformed)
    case (_, Broken(e)) => Failed(if e == BadString then Malformed else e)
    case (Short, Closed(_)) => Failed(Unfinished)
    case (Bytes(data), Closed(rest)) => Got(data, rest)
  }

  /** An item so far, the scratch files so far, and whether and where reading goes on. */
  datatype ItemStep = ItemStep(item: Item, files: Files, result: Parsed<()>)

  function WithText(r: Parsed<Option<string>>, item: Item, put: string -> Item, files: Files): ItemStep {
    match r
    case Failed(e) => ItemStep(item, files, Failed(e))
    case Got(v, rest) => ItemStep(if v.Some? then put(v.value) else item, files, Got((), rest))
  }

  /** The value behind one key of an item. */
  function ItemMember(key: string, s: string, item: Item, files: Files, ending: Ending): (st: ItemStep)
    ensures st.result.Got? ==> |st.result.rest| < |s|
  {
    if key == "kind" then
      match StringValue(s, ending)
      case Failed(e) => ItemStep(item, files, Failed(e))
      case Got(v, rest) => ItemStep(item.(kind := v), files, Got((), rest))
    else if key == "name" then WithText(StringOrNull(s, ending), item, v => item.(name := v), files)
    else if key == "uti" then WithText(StringOrNull(s, ending), item, v => item.(uti := v), files)
    else if key == "mime" then WithText(StringOrNull(s, ending), item, v => item.(mime := v), files)
    else if key == "text" then WithText(StringOrNull(s, ending), item, v => item.(text := v), files)
    else if key == "bytesB64" then PayloadMember(s, item, files, ending)
    else ItemStep(item, files, SkipValue(s, ending))
  }

  /** A payload goes to a new scratch file, which stays behind even when reading fails. */
  function PayloadMember(s: string, item: Item, files: Files, ending: Ending): (st: ItemStep)
    ensures st.result.Got? ==> |st.result.rest| < |s|
  {
    match TryNull(s, ending)
    case Failed(e) => ItemStep(item, files, Failed(e))
    case Got(true, t) => ItemStep(item, files, Got((), t))
    case Got(false, t) =>
      match Expect(t, '"', ending)
      case Failed(e) => ItemStep(item, files, Failed(e))
      case Got(_, u) =>
        var created := item.(scratch := Some(|files|));
        match Payload(u, ending)
        case Failed(e) => ItemStep(created, files + [None], Failed(e))
        case Got(data, v) => ItemStep(created, files + [Some(data)], Got((), v))
  }

  function ItemLoop(s: string, item: Item, files: Files, first: bool, ending: Ending): (st: ItemStep)
    ensures st.result.Got? ==> |st.result.rest| < |s|
    decreases |s|
  {
    match NextKey(s, first, ending)
    case NoKey(e) => ItemStep(item, files, Failed(e))
    case EndOfObject(rest) => ItemStep(item, files, Got((), rest))
    case Key(name, t) =>
      var st := ItemMember(name, t, item, files, ending);
      if st.result.Failed? then st
      else ItemLoop(st.result.rest, st.item, st.files, false, ending)
  }

  function ParseItem(s: string, files: Files, ending: Ending): (st: ItemStep)
    ensures st.result.Got? ==> |st.result.rest| < |s|
  {
    match Expect(s, '{', ending)
    case Failed(e) => ItemStep(BLANK_ITEM, files, Failed(e))
    case Got(_, t) => ItemLoop(t, BLANK_ITEM, files, true, ending)
  }

  // ---------------------------------------------------------------- the items

  /** `scratch` lists the files a caller is told to remove. */
  datatype ItemsStep = ItemsStep(items: seq<Item>, scratch: seq<nat>, files: Files, result: Parsed<()>)

  function Listed(scratch: seq<nat>, item: Item): seq<nat> {
    if item.scratch.Some? then scratch + [item.scratch.value] else scratch
  }

  function ItemsLoop(s: string, items: seq<Item>, scratch: seq<nat>, files: Files, ending: Ending): (st: ItemsStep)
    ensures st.result.Got? ==> |st.result.rest| < |s|
    decreases |s|
  {
    var one := ParseItem(s, files, ending);
    var listed := Listed(scratch, one.item);
    match one.result
    case Failed(e) => ItemsStep(items, listed, one.files, Failed(e))
    case Got(_, t) =>
      var more := items + [one.item];
      match SkipSpace(t, ending)
      case Failed(e) => ItemsStep(more, listed, one.files, Failed(e))
      case Got(_, u) =>
        if u[0] == ']' then ItemsStep(more, listed, one.files, Got((), u[1..]))
        else if u[0] != ',' then ItemsStep(more, listed, one.files, Failed(Malformed))
        else ItemsLoop(u[1..], more, listed, one.files, ending)
  }

  function ParseItems(s: string, files: Files, ending: Ending): (st: ItemsStep)
    ensures st.result.Got? ==> |st.result.rest| < |s|
  {
    match Expect(s, '[', ending)
    case Failed(e) => ItemsStep([], [], files, Failed(e))
    case Got(_, t) =>
      match SkipSpace(t, ending)
      case Failed(e) => ItemsStep([], [], files, Failed(e))
      case Got(_, u) =>
        if u[0] == ']' then ItemsStep([], [], files, Got((), u[1..]))
        else ItemsLoop(u, [], [], files, ending)
  }

  // ---------------------------------------------------------------- the envelope

  datatype EnvStep = EnvStep(env: Env, scratch: seq<nat>, files: Files, result: Parsed<()>)

  function EnvMember(key: string, s: string, env: Env, scratch: seq<nat>, files: Files, ending: Ending): (st: EnvStep)
    ensures st.result.Got? ==> |st.result.rest| < |s|
  {
    if key == "version" then
      match IntValue(s, ending)
      case Failed(e) => EnvStep(env, scratch, files, Failed(e))
      case Got(n, rest) => EnvStep(env.(version := n), scratch, files, Got((), rest))
    else if key == "sender" then
      match StringValue(s, ending)
      case Failed(e) => EnvStep(env, scratch, files, Failed(e))
      case Got(_, rest) => EnvStep(env, scratch, files, Got((), rest))
    else if key == "channel" then
      match StringOrNull(s, ending)
      case Failed(e) => EnvStep(env, scratch, files, Failed(e))
      case Got(v, rest) => EnvStep(if v.Some? then env.(channel := v.value) else env, scratch, files, Got((), rest))
    else if key == "items" then
      var st := ParseItems(s, files, ending);
      EnvStep(if st.result.Got? then env.(items := st.items) else env, scratch + st.scratch, st.files, st.result)
    else
      EnvStep(env, scratch, files, SkipValue(s, ending))
  }

  function EnvLoop(s: string, env: Env, scratch: seq<nat>, files: Files, first: bool, ending: Ending): (st: EnvStep)
    decreases |s|
  {
    match NextKey(s, first, ending)
    case NoKey(e) => EnvStep(env, scratch, files, Failed(e))
    case EndOfObject(rest) => EnvStep(env, scratch, files, Got((), rest))
    case Key(name, t) =>
      var st := EnvMember(name, t, env, scratch, files, ending);
      if st.result.Failed? then st
      else EnvLoop(st.result.rest, st.env, st.scratch, st.files, false, ending)
  }

  function ParseEnvelope(s: string, files: Files, ending: Ending): EnvStep {
    match Expect(s, '{', ending)
    case Failed(e) => EnvStep(BLANK_ENV, [], files, Failed(e))
    case Got(_, t) => EnvLoop(t, BLANK_ENV, [], files, true, ending)
  }

  // ---------------------------------------------------------------- the parser

  ghost predicate AgreesItem(spec: ItemStep, item: Item, files: Files, o: Outcome<()>, rest: string) {
    item == spec.item && files == spec.files && Agrees(spec.result, o, rest)
  }

  ghost predicate AgreesItems(spec: ItemsStep, items: seq<Item>, scratch: seq<nat>, files: Files, o: Outcome<()>,
                              rest: string)
  {
    items == spec.items && scratch == spec.scratch && files == spec.files && Agrees(spec.result, o, rest)
  }

  ghost predicate AgreesEnv(spec: EnvStep, env: Env, scratch: seq<nat>, files: Files, o: Outcome<()>, rest: string) {
    env == spec.env && scratch == spec.scratch && files == spec.files && Agrees(spec.result, o, rest)
  }

  /** What a read leaves of the text, and what it says of the text's end. */
  lemma ReadLeaves(before: Text, k: nat, piece: string, end: ReadEnd, now: Text)
    requires Delivered(before, k, piece, end, now) && k > 0
    ensures |piece| <= |before.out| && piece == before.out[..Min(k, |before.out|)]
    ensures end == More ==> now == Text(before.out[|piece|..], before.end) && piece != ""
    ensures end != More ==> before.out[|piece|..] == ""
    ensures end == AtEnd ==> now.end == before.end && now.end.Closed?
    ensures end.Fault? ==> before.end == Broken(end.error)
  {
  }

  /** io.Copy from the stream decoder: all the bytes of a string's text, and how the string ended. */
  method CopyDecoded(sr: StringReader) returns (decoded: Decoded, end: ReadEnd)
    requires sr.Valid()
    modifies sr, sr.br
    ensures sr.Valid() && decoded == StreamDecode(old(sr.Stream()).out)
    ensures !decoded.Corrupt? ==>
              match old(sr.Stream()).end
              case Broken(e) => end == Fault(e)
              case Closed(rest) => end == AtEnd && sr.br.Rest() == rest
  {
    ghost var was := sr.Stream();
    ghost var rest := was.out;
    var data: seq<byte>, left := [], "";
    NothingInFront(StreamDecode(was.out));
    end := More;
    while end == More
      invariant sr.Valid() && |left| < 4
      invariant StreamDecode(was.out) == Joined(Bytes(data), StreamFrom(left, rest))
      invariant if end == More then sr.Stream() == Text(rest, was.end) else rest == ""
      invariant end == AtEnd ==> was.end == Closed(sr.br.Rest())
      invariant end.Fault? ==> was.end == Broken(end.error)
      decreases end == More, |rest|
    {
      ghost var before := sr.Stream();
      var piece;
      piece, end := ReadOnce(sr, BUFFER - |left|);
      ReadLeaves(before, BUFFER - |left|, piece, end, sr.Stream());
      DecodeNext(data, left, rest, piece);
      rest := rest[|piece|..];
      var buffer := left + DropBreaks(piece);
      var groups := Decode(Groups(buffer));
      if groups.Corrupt? {
        return Corrupt, end;
      }
      data, left := data + groups.data, Left(buffer);
    }
    AllDecoded(data, left);
    decoded := if left == "" then Bytes(data) else Short;
  }

  /** The server's parser: the request body, and the scratch files it has created. */
  class ClipParser {
    const br: Reader
    var files: Files

    constructor (br: Reader, files: Files)
      ensures this.br == br && this.files == files
    {
      this.br, this.files := br, files;
    }

    /** Decode a payload into a new scratch file; the opening quote has been taken. */
    method StreamBase64ToTemp() returns (file: nat, o: Outcome<()>)
      requires br.Valid()
      modifies this, br
      ensures br.Valid() && file == |old(files)|
      ensures match Payload(old(br.Rest()), br.ending)
              case Failed(e) => o == Error(e) && files == old(files) + [None]
              case Got(data, rest) => o == Value(()) && files == old(files) + [Some(data)] && br.Rest() == rest
    {
      file := |files|;
      files := files + [None];
      var sr := new StringReader(br);
      var decoded, end := CopyDecoded(sr);
      match decoded
      case Corrupt => return file, Error(Malformed);
      case Short =>
        var failure := if end == AtEnd then Unfinished else if end.error == BadString then Malformed else end.error;
        return file, Error(failure);
      case Bytes(data) =>
        if end != AtEnd {
          return file, Error(if end.error == BadString then Malformed else end.error);
        }
        files := files[file := Some(data)];
        return file, Value(());
    }

    method ReadText(current: string) returns (v: string, o: Outcome<()>)
      requires br.Valid()
      modifies br
      ensures br.Valid()
      ensures match StringOrNull(old(br.Rest()), br.ending)
              case Failed(e) => o == Error(e) && v == current
              case Got(x, rest) => o == Value(()) && br.Rest() == rest && v == (if x.Some? then x.value else current)
    {
      v := current;
      var r := ReadStringOrNull(br);
      if r.Error? {
        return v, Error(r.error);
      }
      if r.value.Some? {
        v := r.value.value;
      }
      o := Value(());
    }

    method ReadPayload(item: Item) returns (it: Item, o: Outcome<()>)
      requires br.Valid()
      modifies this, br
      ensures br.Valid()
      ensures AgreesItem(PayloadMember(old(br.Rest()), item, old(files), br.ending), it, files, o, br.Rest())
    {
      it := item;
      var n := TryConsumeNull(br);
      if n.Error? {
        return it, Error(n.error);
      }
      if n.value {
        return it, Value(());
      }
      var q := SkipWsThen(br, '"');
      if q.Error? {
        return it, Error(q.error);
      }
      var file;
      file, o := StreamBase64ToTemp();
      it := it.(scratch := Some(file));
    }

    method ReadItemMember(key: string, item: Item) returns (it: Item, o: Outcome<()>)
      requires br.Valid()
      modifies this, br
      ensures br.Valid()
      ensures AgreesItem(ItemMember(key, old(br.Rest()), item, old(files), br.ending), it, files, o, br.Rest())
    {
      it := item;
      var v;
      if key == "kind" {
        var r := ReadStringValue(br);
        if r.Error? {
          return it, Error(r.error);
        }
        return it.(kind := r.value), Value(());
      } else if key == "name" {
        v, o := ReadText(it.name);
        it := it.(name := v);
      } else if key == "uti" {
        v, o := ReadText(it.uti);
        it := it.(uti := v);
      } else if key == "mime" {
        v, o := ReadText(it.mime);
        it := it.(mime := v);
      } else if key == "text" {
        v, o := ReadText(it.text);
        it := it.(text := v);
      } else if key == "bytesB64" {
        it, o := ReadPayload(it);
      } else {
        o := SkipJsonValue(br);
      }
    }

    method ParseOneItem() returns (item: Item, o: Outcome<()>)
      requires br.Valid()
      modifies this, br
      ensures br.Valid()
      ensures AgreesItem(ParseItem(old(br.Rest()), old(files), br.ending), item, files, o, br.Rest())
    {
      item := BLANK_ITEM;
      o := SkipWsThen(br, '{');
      if o.Error? {
        return;
      }
      var first := true;
      while true
        invariant br.Valid()
        invariant ItemLoop(br.Rest(), item, files, first, br.ending) == ParseItem(old(br.Rest()), old(files), br.ending)
        decreases |br.Rest()|
      {
        var key := ReadKey(br, first);
        if key.Error? {
          return item, Error(key.error);
        }
        if key.value.None? {
          return item, Value(());
        }
        first := false;
        item, o := ReadItemMember(key.value.value, item);
        if o.Error? {
          return;
        }
      }
    }

    method ParseItemsStreaming() returns (items: seq<Item>, scratch: seq<nat>, o: Outcome<()>)
      requires br.Valid()
      modifies this, br
      ensures br.Valid()
      ensures AgreesItems(ParseItems(old(br.Rest()), old(files), br.ending), items, scratch, files, o, br.Rest())
    {
      items, scratch := [], [];
      o := SkipWsThen(br, '[');
      if o.Error? {
        return;
      }
      o := SkipWs(br);
      if o.Error? {
        return;
      }
      var b := br.ReadByte();
      if b.value == ']' {
        return items, scratch, Value(());
      }
      br.UnreadByte();
      while true
        invariant br.Valid()
        invariant ItemsLoop(br.Rest(), items, scratch, files, br.ending)
               == ParseItems(old(br.Rest()), old(files), br.ending)
        decreases |br.Rest()|
      {
        var item;
        item, o := ParseOneItem();
        if item.scratch.Some? {
          scratch := scratch + [item.scratch.value];
        }
        if o.Error? {
          return;
        }
        items := items + [item];
        o := SkipWs(br);
        if o.Error? {
          return;
        }
        b := br.ReadByte();
        if b.value == ']' {
          return items, scratch, Value(());
        }
        if b.value != ',' {
          return items, scratch, Error(Malformed);
        }
      }
    }

    method ReadEnvMember(key: string, env: Env, scratch: seq<nat>) returns (e: Env, listed: seq<nat>, o: Outcome<()>)
      requires br.Valid()
      modifies this, br
      ensures br.Valid()
      ensures AgreesEnv(EnvMember(key, old(br.Rest()), env, scratch, old(files), br.ending),
                        e, listed, files, o, br.Rest())
    {
      e, listed := env, scratch;
      if key == "version" {
        var n := ReadNumber(br);
        if n.Error? {
          return e, listed, Error(n.error);
        }
        return e.(version := n.value), listed, Value(());
      } else if key == "sender" {
        var r := ReadStringValue(br);
        return e, listed, if r.Error? then Error(r.error) else Value(());
      } else if key == "channel" {
        var v;
        v, o := ReadText(e.channel);
        e := e.(channel := v);
      } else if key == "items" {
        var items, tmps;
        items, tmps, o := ParseItemsStreaming();
        listed := listed + tmps;
        if o.Error? {
          return;
        }
        e := e.(items := items);
      } else {
        o := SkipJsonValue(br);
      }
    }

    method ParseEnvelopeStreaming() returns (env: Env, scratch: seq<nat>, o: Outcome<()>)
      requires br.Valid()
      modifies this, br
      ensures br.Valid()
      ensures AgreesEnv(ParseEnvelope(old(br.Rest()), old(files), br.ending), env, scratch, files, o, br.Rest())
    {
      env, scratch := BLANK_ENV, [];
      o := SkipWsThen(br, '{');
      if o.Error? {
        return;
      }
      var first := true;
      while true
        invariant br.Valid()
        invariant EnvLoop(br.Rest(), env, scratch, files, first, br.ending)
               == ParseEnvelope(old(br.Rest()), old(files), br.ending)
        decreases |br.Rest()|
      {
        var key := ReadKey(br, first);
        if key.Error? {
          return env, scratch, Error(key.error);
        }
        if key.value.None? {
          return env, scratch, Value(());
        }
        first := false;
        env, scratch, o := ReadEnvMember(key.value.value, env, scratch);
        if o.Error? {
          return;
        }
      }
    }
  }
}
