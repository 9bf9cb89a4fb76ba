/**
  Envelope documents as a whole: what they mean, by looking members up by key, and the
  theorem that the parser finds exactly that in every spelling of the document.
*/
module EnvelopeMeaning {
  import opened Basics
  import opened ByteStream
  import opened JsonText
  import opened JsonScan
  import opened JsonValues
  import opened Envelope
  import opened EnvelopeText
  import opened Base64
  import opened Base64Stream

  // ---------------------------------------------------------------- the envelope's own members

  lemma EnvMemberSpelled(key: string, gap: string, v: Value, k: string, env: Env, scratch: seq<nat>, files: Files,
                         ending: Ending)
    requires Blank(gap) && Valid(v) && EnvMemberOk(key, v) && Ends(k) && |k| > 0
    ensures var (e, s, f) := ApplyEnv(key, v, env, scratch, files);
            EnvMember(key, gap + Spell(v, k), env, scratch, files, ending) == EnvStep(e, s, f, Got((), k))
  {
    if key == "version" {
      IntSpelled(gap, v.number, k, ending);
    } else if key == "sender" {
      StringSpelled(gap, v.pieces, k, ending);
    } else if key == "channel" {
      OptionalSpelled(gap, v, k, ending);
    } else if key == "items" {
      ItemsSpelled(gap, v, files, k, ending);
    } else {
      SkipSpaced(gap, v, k, ending);
    }
  }

  lemma {:induction false} EnvLoopSpelled(ms: Members, env: Env, scratch: seq<nat>, files: Files, k: string,
                                          ending: Ending)
    requires ms.Member? && ValidMembers(ms) && EnvOk(ms)
    ensures var (e, s, f) := FoldEnv(ms, env, scratch, files);
            EnvLoop(SpellMembers(ms, "}" + k), env, scratch, files, true, ending) == EnvStep(e, s, f, Got((), k))
  {
    var rest := Remaining(ms.others, ms.after, k);
    MembersText(ms, k);
    KeySpelled(ms.before, ms.key, ms.mid, ms.gap + Spell(ms.value, rest), ending);
    RemainingEnds(ms.others, ms.after, k);
    EnvMemberSpelled(Meaning(ms.key), ms.gap, ms.value, rest, env, scratch, files, ending);
    var (e, s, f) := ApplyEnv(Meaning(ms.key), ms.value, env, scratch, files);
    EnvRestSpelled(ms.others, ms.after, e, s, f, k, ending);
  }

  lemma {:induction false} EnvRestSpelled(ms: Members, after: string, env: Env, scratch: seq<nat>, files: Files,
                                          k: string, ending: Ending)
    requires ValidMembers(ms) && EnvOk(ms) && Blank(after)
    ensures var (e, s, f) := FoldEnv(ms, env, scratch, files);
            EnvLoop(Remaining(ms, after, k), env, scratch, files, false, ending) == EnvStep(e, s, f, Got((), k))
    decreases ms
  {
    if ms.NoMember? {
      EndSpelled(after, k, false, ending);
    } else {
      var rest := Remaining(ms.others, ms.after, k);
      MembersText(ms, k);
      NextKeySpelled(after, ms.before, ms.key, ms.mid, ms.gap + Spell(ms.value, rest), ending);
      RemainingEnds(ms.others, ms.after, k);
      EnvMemberSpelled(Meaning(ms.key), ms.gap, ms.value, rest, env, scratch, files, ending);
      var (e, s, f) := ApplyEnv(Meaning(ms.key), ms.value, env, scratch, files);
      EnvRestSpelled(ms.others, ms.after, e, s, f, k, ending);
    }
  }

  ghost predicate IsEnvelope(doc: Value)
    requires Valid(doc)
  {
    doc.Object? && EnvOk(doc.members)
  }

  ghost function EnvFrom(doc: Value, files: Files): (Env, seq<nat>, Files)
    requires Valid(doc) && IsEnvelope(doc)
  {
    FoldEnv(doc.members, BLANK_ENV, [], files)
  }

  /** Every spelling of a document does what its members do one after the other. */
  lemma EnvelopeSpelled(ws: string, doc: Value, files: Files, k: string, ending: Ending)
    requires Blank(ws) && Valid(doc) && IsEnvelope(doc)
    ensures var (e, s, f) := EnvFrom(doc, files);
            ParseEnvelope(ws + Spell(doc, k), files, ending) == EnvStep(e, s, f, Got((), k))
  {
    if doc.members.Member? {
      ExpectSpelled(ws, '{', SpellMembers(doc.members, "}" + k), ending);
      EnvLoopSpelled(doc.members, BLANK_ENV, [], files, k, ending);
    } else {
      ExpectSpelled(ws, '{', doc.blank + ("}" + k), ending);
      EndSpelled(doc.blank, k, true, ending);
    }
  }

  // ---------------------------------------------------------------- meaning by key

  /** The members of an object by the key each one's spelling means. */
  ghost function Fields(ms: Members): map<string, Value>
    requires ValidMembers(ms)
  {
    if ms.NoMember? then map[] else Fields(ms.others)[Meaning(ms.key) := ms.value]
  }

  ghost predicate NoRepeats(ms: Members)
    requires ValidMembers(ms)
  {
    ms.Member? ==> Meaning(ms.key) !in Fields(ms.others) && NoRepeats(ms.others)
  }

  /** The string at `key`; `absent` when there is none or it is null. */
  ghost function TextAt(f: map<string, Value>, key: string, absent: string): string {
    if key in f && f[key].String? && ValidPieces(f[key].pieces) then Meaning(f[key].pieces) else absent
  }

  ghost function IntAt(f: map<string, Value>, key: string): int {
    if key in f && f[key].Num? && Decimal(f[key].number.digits).Some? then IntOf(f[key].number) else 0
  }

  ghost function BytesAt(f: map<string, Value>, key: string): Option<seq<byte>> {
    if key in f && Base64Text(f[key]) then Some(StreamDecode(Meaning(f[key].pieces)).data) else None
  }

  /** Base64 text of some bytes, with line breaks anywhere and however its characters are spelled, is these bytes. */
  lemma BytesAtEncoded(f: map<string, Value>, key: string, b: seq<byte>)
    requires key in f && f[key].String? && ValidPieces(f[key].pieces)
    requires DropBreaks(Meaning(f[key].pieces)) == Encode(b)
    ensures BytesAt(f, key) == Some(b)
  {
    StreamInvertsEncode(Meaning(f[key].pieces), b);
  }

  /** An item as its reader will see it: the metadata and the decoded payload. */
  datatype Content = Content(kind: string, name: string, uti: string, mime: string, text: string,
                             payload: Option<seq<byte>>)

  ghost function ContentOf(v: Value): Content
    requires Valid(v) && v.Object?
  {
    var f := Fields(v.members);
    Content(TextAt(f, "kind", ""), TextAt(f, "name", ""), TextAt(f, "uti", ""), TextAt(f, "mime", ""),
            TextAt(f, "text", ""), BytesAt(f, "bytesB64"))
  }

  ghost function ContentsOf(es: Elements): seq<Content>
    requires ValidElements(es) && ItemsOk(es)
  {
    if es.NoElement? then [] else [ContentOf(es.value)] + ContentsOf(es.others)
  }

  /** What an item comes to, its scratch file opened. */
  ghost function Resolve(item: Item, files: Files): Content {
    Content(item.kind, item.name, item.uti, item.mime, item.text,
            if item.scratch.Some? && item.scratch.value < |files| then files[item.scratch.value] else None)
  }

  predicate TextKey(key: string) {
    key == "kind" || key == "name" || key == "uti" || key == "mime" || key == "text"
  }

  function TextField(item: Item, key: string): string
    requires TextKey(key)
  {
    if key == "kind" then item.kind
    else if key == "name" then item.name
    else if key == "uti" then item.uti
    else if key == "mime" then item.mime
    else item.text
  }

  lemma ApplyText(name: string, v: Value, item: Item, files: Files, key: string)
    requires Valid(v) && ItemMemberOk(name, v) && TextKey(key)
    ensures TextField(ApplyItem(name, v, item, files).0, key)
         == if name == key then TextOf(v, TextField(item, key)) else TextField(item, key)
  {
  }

  /** Folding the members of an item is looking its keys up, when none is repeated. */
  lemma {:induction false} FoldIsTextLookup(ms: Members, item: Item, files: Files, key: string)
    requires ValidMembers(ms) && ItemOk(ms) && NoRepeats(ms) && TextKey(key)
    ensures TextField(FoldItem(ms, item, files).0, key) == TextAt(Fields(ms), key, TextField(item, key))
    decreases ms
  {
    if ms.Member? {
      var (i, g) := ApplyItem(Meaning(ms.key), ms.value, item, files);
      ApplyText(Meaning(ms.key), ms.value, item, files, key);
      FoldIsTextLookup(ms.others, i, g, key);
    }
  }

  ghost predicate Holds(item: Item, files: Files, payload: Option<seq<byte>>) {
    match payload
    case None => item.scratch.None?
    case Some(data) => item.scratch.Some? && item.scratch.value < |files| && files[item.scratch.value] == Some(data)
  }

  lemma {:induction false} FoldIsPayloadLookup(ms: Members, item: Item, files: Files, held: Option<seq<byte>>)
    requires ValidMembers(ms) && ItemOk(ms) && NoRepeats(ms) && Holds(item, files, held)
    ensures var (i, g) := FoldItem(ms, item, files);
            var found := BytesAt(Fields(ms), "bytesB64");
            files <= g && Holds(i, g, if found.Some? then found else held)
    decreases ms
  {
    if ms.Member? {
      var (i, g) := ApplyItem(Meaning(ms.key), ms.value, item, files);
      var now := if Meaning(ms.key) == "bytesB64" && ms.value.String? then g[|g| - 1] else held;
      FoldIsPayloadLookup(ms.others, i, g, now);
    }
  }

  lemma ItemIsLookup(v: Value, files: Files)
    requires Valid(v) && IsItem(v) && NoRepeats(v.members)
    ensures var (i, g) := ItemFrom(v, files);
            files <= g && Resolve(i, g) == ContentOf(v) && (i.scratch.Some? ==> i.scratch.value < |g|)
  {
    FoldIsPayloadLookup(v.members, BLANK_ITEM, files, None);
    FoldIsTextLookup(v.members, BLANK_ITEM, files, "kind");
    FoldIsTextLookup(v.members, BLANK_ITEM, files, "name");
    FoldIsTextLookup(v.members, BLANK_ITEM, files, "uti");
    FoldIsTextLookup(v.members, BLANK_ITEM, files, "mime");
    FoldIsTextLookup(v.members, BLANK_ITEM, files, "text");
  }

  ghost predicate NoItemRepeats(es: Elements)
    requires ValidElements(es) && ItemsOk(es)
  {
    es.Element? ==> ItemNoRepeats(es.value) && NoItemRepeats(es.others)
  }

  ghost predicate ItemNoRepeats(v: Value)
    requires Valid(v) && IsItem(v)
  {
    NoRepeats(v.members)
  }

  ghost predicate Resolved(items: seq<Item>, files: Files, contents: seq<Content>) {
    && |items| == |contents|
    && forall i :: 0 <= i < |items| ==>
         Resolve(items[i], files) == contents[i] && (items[i].scratch.Some? ==> items[i].scratch.value < |files|)
  }

  lemma {:induction false} ItemsAreLookups(es: Elements, items: seq<Item>, scratch: seq<nat>, files: Files,
                                           contents: seq<Content>)
    requires ValidElements(es) && ItemsOk(es) && NoItemRepeats(es) && Resolved(items, files, contents)
    ensures var (i, s, g) := FoldItems(es, items, scratch, files);
            files <= g && Resolved(i, g, contents + ContentsOf(es))
    decreases es
  {
    if es.Element? {
      var (i, g) := ItemFrom(es.value, files);
      ItemIsLookup(es.value, files);
      ItemsAreLookups(es.others, items + [i], Listed(scratch, i), g, contents + [ContentOf(es.value)]);
      assert contents + [ContentOf(es.value)] + ContentsOf(es.others) == contents + ContentsOf(es);
    } else {
      assert contents + ContentsOf(es) == contents;
    }
  }

  // ---------------------------------------------------------------- the whole document

  ghost predicate DistinctKeys(doc: Value)
    requires Valid(doc) && IsEnvelope(doc)
  {
    NoRepeats(doc.members) && DistinctItemKeys(Fields(doc.members))
  }

  ghost predicate DistinctItemKeys(f: map<string, Value>) {
    "items" in f && IsItemsArray(f["items"]) ==> NoItemRepeats(f["items"].elements)
  }

  ghost predicate IsItemsArray(v: Value) {
    v.Array? && ValidElements(v.elements) && ItemsOk(v.elements)
  }

  /** The contents of the items at `key`, in their order. */
  ghost function ItemsAt(f: map<string, Value>, key: string): seq<Content> {
    if key in f && IsItemsArray(f[key]) then ContentsOf(f[key].elements) else []
  }

  lemma {:induction false} FoldIsScalarLookup(ms: Members, env: Env, scratch: seq<nat>, files: Files)
    requires ValidMembers(ms) && EnvOk(ms) && NoRepeats(ms)
    ensures var (e, s, g) := FoldEnv(ms, env, scratch, files);
            && e.version == (if "version" in Fields(ms) then IntAt(Fields(ms), "version") else env.version)
            && e.channel == TextAt(Fields(ms), "channel", env.channel)
    decreases ms
  {
    if ms.Member? {
      var (e, s, g) := ApplyEnv(Meaning(ms.key), ms.value, env, scratch, files);
      FoldIsScalarLookup(ms.others, e, s, g);
    }
  }

  lemma {:induction false} FoldIsItemsLookup(ms: Members, env: Env, scratch: seq<nat>, files: Files,
                                             held: seq<Content>)
    requires ValidMembers(ms) && EnvOk(ms) && NoRepeats(ms) && DistinctItemKeys(Fields(ms))
    requires Resolved(env.items, files, held)
    ensures var (e, s, g) := FoldEnv(ms, env, scratch, files);
            files <= g && Resolved(e.items, g, if "items" in Fields(ms) then ItemsAt(Fields(ms), "items") else held)
    decreases ms
  {
    if ms.Member? {
      var (e, s, g) := ApplyEnv(Meaning(ms.key), ms.value, env, scratch, files);
      if Meaning(ms.key) == "items" {
        ItemsAreLookups(ms.value.elements, [], [], files, []);
        assert [] + ContentsOf(ms.value.elements) == ContentsOf(ms.value.elements);
        FoldIsItemsLookup(ms.others, e, s, g, ContentsOf(ms.value.elements));
      } else {
        assert "items" in Fields(ms) <==> "items" in Fields(ms.others);
        FoldIsItemsLookup(ms.others, e, s, g, held);
      }
    }
  }

  /**
    However an envelope document is spelled (white space, escapes, key order, nulls and
    unknown members), parsing it yields the version, the channel and the items that its
    keys name, each payload decoded, and stops just behind the document.
   */
  lemma ParsesEverySpelling(ws: string, doc: Value, files: Files, k: string, ending: Ending)
    requires Blank(ws) && Valid(doc) && IsEnvelope(doc) && DistinctKeys(doc)
    ensures var st, f := ParseEnvelope(ws + Spell(doc, k), files, ending), Fields(doc.members);
            && st.result == Got((), k)
            && st.env.version == IntAt(f, "version")
            && st.env.channel == TextAt(f, "channel", "")
            && Resolved(st.env.items, st.files, ItemsAt(f, "items"))
            && files <= st.files
  {
    EnvelopeSpelled(ws, doc, files, k, ending);
    FoldIsScalarLookup(doc.members, BLANK_ENV, [], files);
    FoldIsItemsLookup(doc.members, BLANK_ENV, [], files, []);
  }

  /** Two documents whose members are the same by key, in any order, are parsed alike. */
  lemma OrderDoesNotMatter(ws: string, doc: Value, ws': string, doc': Value, k: string, ending: Ending)
    requires Blank(ws) && Valid(doc) && IsEnvelope(doc) && DistinctKeys(doc)
    requires Blank(ws') && Valid(doc') && IsEnvelope(doc') && DistinctKeys(doc')
    requires Fields(doc.members) == Fields(doc'.members)
    ensures var a, b := ParseEnvelope(ws + Spell(doc, k), [], ending), ParseEnvelope(ws' + Spell(doc', k), [], ending);
            && a.env.version == b.env.version && a.env.channel == b.env.channel
            && |a.env.items| == |b.env.items|
            && forall i :: 0 <= i < |a.env.items| ==>
                 Resolve(a.env.items[i], a.files) == Resolve(b.env.items[i], b.files)
  {
    ParsesEverySpelling(ws, doc, [], k, ending);
    ParsesEverySpelling(ws', doc', [], k, ending);
  }
}
