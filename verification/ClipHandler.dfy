/** From the body of POST /clip to the ingest: the parsed items with their payloads opened. */
module ClipHandler {
  import opened Basics
  import opened ByteStream
  import opened JsonValues
  import Sanitize
  import Env = Envelope
  import opened EnvelopeMeaning
  import opened Store
  import opened IngestTerms
  import IngestJob
  import Ingest
  import opened Wire

  /** What may go wrong with an item outside of the body: its reader, the disk or the journal. */
  datatype Fault = Fault(read: bool, disk: bool, journal: bool)

  function BytesOf(text: string): (b: seq<byte>)
    ensures |b| == |text| && forall k :: 0 <= k < |b| ==> b[k] == text[k] as int % 256
  {
    seq(|text|, k requires 0 <= k < |text| => text[k] as int % 256)
  }

  /** The bytes an item's reader gives: its text, or its scratch file, if there is one to open. */
  function Opened(i: Env.Item, files: Env.Files): Option<seq<byte>> {
    if i.kind == "text" then Some(BytesOf(i.text))
    else if i.scratch.Some? && i.scratch.value < |files| then files[i.scratch.value]
    else None
  }

  function ToIngest(i: Env.Item, channel: string, bytes: seq<byte>, fault: Fault): Item {
    Item(i.kind, i.name, i.uti, channel, Source(bytes, fault.read), fault.disk, fault.journal)
  }

  /** The items for the ingest; None if there is no file to open for one. */
  function Items(items: seq<Env.Item>, channel: string, files: Env.Files, faults: seq<Fault>): (r: Option<seq<Item>>)
    requires |faults| >= |items|
    ensures r.Some? ==> |r.value| == |items|
  {
    if |items| == 0 then Some([])
    else
      var n := |items| - 1;
      var bytes := Opened(items[n], files);
      match Items(items[..n], channel, files, faults)
      case None => None
      case Some(rest) =>
        if bytes.None? then None else Some(rest + [ToIngest(items[n], channel, bytes.value, faults[n])])
  }

  datatype Reply = Ingested(v: Verdict, saved: seq<string>) | BadBody(error: ParseError) | Unsupported | NoPayload

  /** The items with what each one's reader gives. */
  method OpenItems(env: Env.Env, files: Env.Files, faults: seq<Fault>) returns (items: Option<seq<Item>>)
    requires |faults| >= |env.items|
    ensures items == Items(env.items, env.channel, files, faults)
  {
    var all: seq<Item> := [];
    for k := 0 to |env.items|
      invariant Items(env.items[..k], env.channel, files, faults) == Some(all)
    {
      var i := env.items[k];
      assert env.items[..k + 1][..k] == env.items[..k];
      var bytes := Opened(i, files);
      if bytes.None? {
        NoneStays(env.items, env.channel, files, faults, k + 1);
        return None;
      }
      all := all + [ToIngest(i, env.channel, bytes.value, faults[k])];
    }
    assert env.items[..|env.items|] == env.items;
    items := Some(all);
  }

  lemma {:induction false} NoneStays(items: seq<Env.Item>, channel: string, files: Env.Files, faults: seq<Fault>,
                                     k: nat)
    requires k <= |items| <= |faults| && Items(items[..k], channel, files, faults) == None
    ensures Items(items, channel, files, faults) == None
    decreases |items|
  {
    if k < |items| {
      var n := |items| - 1;
      assert items[..n][..k] == items[..k];
      NoneStays(items[..n], channel, files, faults, k);
    } else {
      assert items[..k] == items;
    }
  }

  /** decodeAndIngest, without the removal of the scratch files that are listed. */
  method DecodeAndIngest(p: Env.ClipParser, st: ReceiveStore, max: int, stamps: seq<string>, randoms: seq<string>,
                         faults: seq<Fault>)
    returns (reply: Reply, ghost paths: seq<string>, ghost sent: seq<AgentItem>, ghost n: nat)
    requires p.br.Valid() && (forall s <- stamps :: Sanitize.IsStamp(s))
    requires var parsed := Env.ParseEnvelope(p.br.Rest(), p.files, p.br.ending);
             |stamps| == |randoms| == |faults| == |parsed.env.items|
    requires IngestJob.Free(st.files, st.inbox, randoms) && IngestJob.Free(st.files, st.saveDir, randoms)
    modifies p, p.br, st
    ensures p.br.Valid()
    ensures var parsed := Env.ParseEnvelope(old(p.br.Rest()), old(p.files), p.br.ending);
            var given := Items(parsed.env.items, parsed.env.channel, parsed.files, faults);
            if parsed.result.Failed? then reply == BadBody(parsed.result.error) && unchanged(st)
            else if parsed.env.version != 1 || parsed.env.items == [] then reply == Unsupported && unchanged(st)
            else if given.None? then reply == NoPayload && unchanged(st)
            else
              && reply.Ingested?
              && reply.saved == (if reply.v == Accepted then paths else [])
              && var items := given.value;
                 Ingest.Ingested(st, Ingest.TermsFor(st, items, max), items, stamps, reply.v, paths, sent, n)
  {
    paths, sent, n := [], [], 0;
    var env, scratch, o := p.ParseEnvelopeStreaming();
    if o.Error? {
      return BadBody(o.error), paths, sent, n;
    }
    if env.version != 1 || |env.items| == 0 {
      return Unsupported, paths, sent, n;
    }
    var items := OpenItems(env, p.files, faults);
    if items.None? {
      return NoPayload, paths, sent, n;
    }
    var v, saved;
    v, saved, paths, sent, n := Ingest.Ingest(st, items.value, max, stamps, randoms);
    reply := Ingested(v, saved);
  }

  // ---------------------------------------------------------------- from a document to the ingest

  /** There is something to read of the item that the document means. */
  predicate Readable(c: Content) {
    c.kind == "text" || c.payload.Some?
  }

  /** The ingest is given what the document means: the kind, the names, the channel and the bytes. */
  predicate IsOf(i: Item, c: Content, channel: string) {
    && i.kind == c.kind && i.name == c.name && i.uti == c.uti && i.channel == channel
    && (c.kind == "text" ==> i.source.bytes == BytesOf(c.text))
    && (c.kind != "text" ==> Some(i.source.bytes) == c.payload)
  }

  lemma {:induction false} ItemsAreContents(items: seq<Env.Item>, channel: string, files: Env.Files,
                                            faults: seq<Fault>, contents: seq<Content>)
    requires |faults| >= |items| && Resolved(items, files, contents)
    ensures var given := Items(items, channel, files, faults);
            && (given.Some? <==> forall c <- contents :: Readable(c))
            && (given.Some? ==> forall k :: 0 <= k < |items| ==> IsOf(given.value[k], contents[k], channel))
    decreases |items|
  {
    if |items| > 0 {
      var n := |items| - 1;
      ItemsAreContents(items[..n], channel, files, faults, contents[..n]);
      ReadableSplits(contents, n);
      OpenedIs(items[n], files, contents[n], channel, faults[n]);
    }
  }

  lemma ReadableSplits(contents: seq<Content>, n: nat)
    requires |contents| == n + 1
    ensures (forall c <- contents :: Readable(c))
       <==> (forall c <- contents[..n] :: Readable(c)) && Readable(contents[n])
  {
    assert contents == contents[..n] + [contents[n]];
  }

  lemma OpenedIs(i: Env.Item, files: Env.Files, c: Content, channel: string, fault: Fault)
    requires Resolve(i, files) == c
    ensures var bytes := Opened(i, files);
            && (bytes.Some? <==> Readable(c))
            && (bytes.Some? ==> IsOf(ToIngest(i, channel, bytes.value, fault), c, channel))
  {
  }

  /**
    However an envelope is spelled, the ingest is given its items, in their order, each with the
    kind, names, channel and bytes that its keys mean; or none, if one is neither a text nor has
    a payload.
   */
  lemma DocumentIsGiven(ws: string, doc: Value, files: Env.Files, k: string, ending: Ending, faults: seq<Fault>)
    requires Blank(ws) && Valid(doc) && IsEnvelope(doc) && DistinctKeys(doc)
    requires |faults| >= |ItemsAt(Fields(doc.members), "items")|
    ensures var f := Fields(doc.members);
            var contents, channel := ItemsAt(f, "items"), TextAt(f, "channel", "");
            var parsed := Env.ParseEnvelope(ws + Spell(doc, k), files, ending);
            && parsed.result.Got? && parsed.env.version == IntAt(f, "version") && |parsed.env.items| == |contents|
            && var given := Items(parsed.env.items, parsed.env.channel, parsed.files, faults);
            && (given.Some? <==> forall c <- contents :: Readable(c))
            && (given.Some? ==> forall k :: 0 <= k < |contents| ==> IsOf(given.value[k], contents[k], channel))
  {
    ParsesEverySpelling(ws, doc, files, k, ending);
    var parsed := Env.ParseEnvelope(ws + Spell(doc, k), files, ending);
    ItemsAreContents(parsed.env.items, parsed.env.channel, parsed.files, faults, ItemsAt(Fields(doc.members), "items"));
  }
}
