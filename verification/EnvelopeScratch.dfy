/**
  The scratch files of a parse. The caller removes the files the parser lists; the list
  is complete exactly when no item gives more than one payload.
*/
module EnvelopeScratch {
  import opened Basics
  import opened ByteStream
  import opened JsonString
  import opened JsonText
  import opened JsonScan
  import opened JsonValues
  import opened Envelope
  import opened EnvelopeText
  import opened EnvelopeMeaning

  // ---------------------------------------------------------------- any body

  /** A payload opens with a string, whole or not; a null is none. */
  function OpenedAt(s: string, ending: Ending): nat {
    match TryNull(s, ending)
    case Failed(_) => 0
    case Got(isNull, t) => if !isNull && Expect(t, '"', ending).Got? then 1 else 0
  }

  function OpenedByMember(key: string, s: string, ending: Ending): nat {
    if key == "bytesB64" then OpenedAt(s, ending) else 0
  }

  /** The text behind a member of an item. */
  function BehindMember(key: string, s: string, ending: Ending): Parsed<()> {
    ItemMember(key, s, BLANK_ITEM, [], ending).result
  }

  /** How many payloads an item opens, read up to its end or its first error. */
  function Opened(s: string, first: bool, ending: Ending): nat
    decreases |s|
  {
    match NextKey(s, first, ending)
    case NoKey(_) => 0
    case EndOfObject(_) => 0
    case Key(name, t) =>
      OpenedByMember(name, t, ending)
      + match BehindMember(name, t, ending)
        case Failed(_) => 0
        case Got(_, u) => Opened(u, false, ending)
  }

  function OpenedByItem(s: string, ending: Ending): nat {
    match Expect(s, '{', ending)
    case Failed(_) => 0
    case Got(_, t) => Opened(t, true, ending)
  }

  /** No item of a list opens a second payload. */
  predicate OnceEach(s: string, ending: Ending)
    decreases |s|
  {
    && OpenedByItem(s, ending) <= 1
    && match ParseItem(s, [], ending).result {
         case Failed(_) => true
         case Got(_, t) =>
           match SkipSpace(t, ending)
           case Failed(_) => true
           case Got(_, u) => u[0] == ',' ==> OnceEach(u[1..], ending)
       }
  }

  predicate OnceEachOfArray(s: string, ending: Ending) {
    match Expect(s, '[', ending)
    case Failed(_) => true
    case Got(_, t) =>
      match SkipSpace(t, ending)
      case Failed(_) => true
      case Got(_, u) => u[0] != ']' ==> OnceEach(u, ending)
  }

  /** The text behind a member of the envelope. */
  function BehindEnvMember(key: string, s: string, ending: Ending): Parsed<()> {
    EnvMember(key, s, BLANK_ENV, [], [], ending).result
  }

  /** No item in the members of an envelope opens a second payload. */
  predicate OncePerItem(s: string, first: bool, ending: Ending)
    decreases |s|
  {
    match NextKey(s, first, ending)
    case NoKey(_) => true
    case EndOfObject(_) => true
    case Key(name, t) =>
      && (name == "items" ==> OnceEachOfArray(t, ending))
      && match BehindEnvMember(name, t, ending) {
           case Failed(_) => true
           case Got(_, u) => OncePerItem(u, false, ending)
         }
  }

  predicate OncePerItemOfBody(s: string, ending: Ending) {
    match Expect(s, '{', ending)
    case Failed(_) => true
    case Got(_, t) => OncePerItem(t, true, ending)
  }

  ghost predicate AllListed(lo: nat, hi: nat, scratch: seq<nat>) {
    forall i :: lo <= i < hi ==> i in scratch
  }

  ghost predicate Within(scratch: seq<nat>, lo: nat, hi: nat) {
    forall i <- scratch :: lo <= i < hi
  }

  /** The item has `n` more files than `files`, and names the last of them. */
  ghost predicate Creates(st: ItemStep, n: nat, item: Item, files: Files) {
    && |st.files| == |files| + n
    && st.item.scratch == if n > 0 then Some(|st.files| - 1) else item.scratch
  }

  lemma PayloadCreates(s: string, item: Item, files: Files, ending: Ending)
    ensures Creates(PayloadMember(s, item, files, ending), OpenedAt(s, ending), item, files)
  {
  }

  lemma MemberCreates(key: string, s: string, item: Item, files: Files, ending: Ending)
    ensures Creates(ItemMember(key, s, item, files, ending), OpenedByMember(key, s, ending), item, files)
  {
    if key == "bytesB64" {
      PayloadCreates(s, item, files, ending);
    } else {
      assert ItemMember(key, s, item, files, ending).files == files;
    }
  }

  /** How reading goes on does not depend on what has been read. */
  lemma MemberReads(key: string, s: string, item: Item, files: Files, ending: Ending)
    ensures ItemMember(key, s, item, files, ending).result == BehindMember(key, s, ending)
  {
  }

  lemma CreatesMore(st: ItemStep, n: nat, more: ItemStep, m: nat, item: Item, files: Files)
    requires Creates(st, n, item, files) && Creates(more, m, st.item, st.files)
    ensures Creates(more, n + m, item, files)
  {
  }

  lemma {:induction false} LoopCreates(s: string, item: Item, files: Files, first: bool, ending: Ending)
    ensures Creates(ItemLoop(s, item, files, first, ending), Opened(s, first, ending), item, files)
    decreases |s|
  {
    match NextKey(s, first, ending)
    case NoKey(_) =>
    case EndOfObject(_) =>
    case Key(name, t) =>
      var st := ItemMember(name, t, item, files, ending);
      MemberCreates(name, t, item, files, ending);
      MemberReads(name, t, item, files, ending);
      if st.result.Failed? {
        assert ItemLoop(s, item, files, first, ending) == st;
        assert Opened(s, first, ending) == OpenedByMember(name, t, ending);
      } else {
        var u := st.result.rest;
        assert ItemLoop(s, item, files, first, ending) == ItemLoop(u, st.item, st.files, false, ending);
        assert Opened(s, first, ending) == OpenedByMember(name, t, ending) + Opened(u, false, ending);
        LoopCreates(u, st.item, st.files, false, ending);
        CreatesMore(st, OpenedByMember(name, t, ending),
                    ItemLoop(u, st.item, st.files, false, ending), Opened(u, false, ending), item, files);
      }
  }

  lemma {:induction false} LoopReads(s: string, a: Item, f: Files, b: Item, g: Files, first: bool, ending: Ending)
    ensures ItemLoop(s, a, f, first, ending).result == ItemLoop(s, b, g, first, ending).result
    decreases |s|
  {
    match NextKey(s, first, ending)
    case NoKey(_) =>
    case EndOfObject(_) =>
    case Key(name, t) =>
      var x := ItemMember(name, t, a, f, ending);
      var y := ItemMember(name, t, b, g, ending);
      MemberReads(name, t, a, f, ending);
      MemberReads(name, t, b, g, ending);
      if x.result.Got? {
        LoopReads(x.result.rest, x.item, x.files, y.item, y.files, false, ending);
      }
  }

  lemma ItemCreates(s: string, files: Files, ending: Ending)
    ensures var st := ParseItem(s, files, ending);
            && Creates(st, OpenedByItem(s, ending), BLANK_ITEM, files)
            && st.result == ParseItem(s, [], ending).result
  {
    match Expect(s, '{', ending)
    case Failed(_) =>
    case Got(_, t) =>
      LoopCreates(t, BLANK_ITEM, files, true, ending);
      LoopReads(t, BLANK_ITEM, files, BLANK_ITEM, [], true, ending);
  }

  /** The files from `lo` on are all listed, if they were before and nothing was opened twice since. */
  ghost predicate Lists(lo: nat, was: nat, scratch: seq<nat>, now: nat, listed: seq<nat>, once: bool) {
    && was <= now && Within(listed, lo, now)
    && (AllListed(lo, now, listed) <==> AllListed(lo, was, scratch) && once)
  }

  lemma CreatedIsListed(lo: nat, scratch: seq<nat>, st: ItemStep, n: nat, files: Files)
    requires lo <= |files| && Within(scratch, lo, |files|) && Creates(st, n, BLANK_ITEM, files)
    ensures Lists(lo, |files|, scratch, |st.files|, Listed(scratch, st.item), n <= 1)
  {
    var listed := Listed(scratch, st.item);
    if n >= 2 {
      assert |files| !in listed;
    } else if n == 1 {
      assert forall j :: j in listed <==> j in scratch || j == |files|;
    }
  }

  lemma {:induction false} ItemsList(s: string, items: seq<Item>, lo: nat, scratch: seq<nat>, files: Files,
                                     ending: Ending)
    requires lo <= |files| && Within(scratch, lo, |files|)
    ensures var st := ItemsLoop(s, items, scratch, files, ending);
            Lists(lo, |files|, scratch, |st.files|, st.scratch, OnceEach(s, ending))
    decreases |s|
  {
    var one := ParseItem(s, files, ending);
    var listed := Listed(scratch, one.item);
    ItemCreates(s, files, ending);
    CreatedIsListed(lo, scratch, one, OpenedByItem(s, ending), files);
    if one.result.Got? {
      match SkipSpace(one.result.rest, ending)
      case Failed(_) =>
      case Got(_, u) =>
        if u[0] == ',' {
          ItemsList(u[1..], items + [one.item], lo, listed, one.files, ending);
        }
    }
  }

  lemma {:induction false} ItemsRead(s: string, a: seq<Item>, x: seq<nat>, f: Files, b: seq<Item>, y: seq<nat>,
                                     g: Files, ending: Ending)
    ensures ItemsLoop(s, a, x, f, ending).result == ItemsLoop(s, b, y, g, ending).result
    decreases |s|
  {
    var p := ParseItem(s, f, ending);
    var q := ParseItem(s, g, ending);
    ItemCreates(s, f, ending);
    ItemCreates(s, g, ending);
    if p.result.Got? {
      match SkipSpace(p.result.rest, ending)
      case Failed(_) =>
      case Got(_, u) =>
        if u[0] == ',' {
          ItemsRead(u[1..], a + [p.item], Listed(x, p.item), p.files, b + [q.item], Listed(y, q.item), q.files, ending);
        }
    }
  }

  lemma ArrayLists(s: string, lo: nat, scratch: seq<nat>, files: Files, ending: Ending)
    requires lo <= |files| && Within(scratch, lo, |files|)
    ensures var st := ParseItems(s, files, ending);
            Lists(lo, |files|, scratch, |st.files|, scratch + st.scratch, OnceEachOfArray(s, ending))
  {
    assert scratch + [] == scratch;
    match Expect(s, '[', ending)
    case Failed(_) =>
    case Got(_, t) =>
      match SkipSpace(t, ending)
      case Failed(_) =>
      case Got(_, u) =>
        if u[0] != ']' {
          ItemsList(u, [], |files|, [], files, ending);
          var st := ItemsLoop(u, [], [], files, ending);
          Joined(lo, |files|, |st.files|, scratch, st.scratch);
        }
  }

  lemma Joined(lo: nat, mid: nat, hi: nat, a: seq<nat>, b: seq<nat>)
    requires lo <= mid <= hi && Within(a, lo, mid) && Within(b, mid, hi)
    ensures Within(a + b, lo, hi)
    ensures AllListed(lo, hi, a + b) <==> AllListed(lo, mid, a) && AllListed(mid, hi, b)
  {
    assert forall j :: j in a + b <==> j in a || j in b;
  }

  lemma EnvMemberReads(key: string, s: string, env: Env, scratch: seq<nat>, files: Files, ending: Ending)
    ensures EnvMember(key, s, env, scratch, files, ending).result == BehindEnvMember(key, s, ending)
  {
    if key == "items" {
      ArrayReads(s, files, ending);
    }
  }

  lemma ArrayReads(s: string, files: Files, ending: Ending)
    ensures ParseItems(s, files, ending).result == ParseItems(s, [], ending).result
  {
    match Expect(s, '[', ending)
    case Failed(_) =>
    case Got(_, t) =>
      match SkipSpace(t, ending)
      case Failed(_) =>
      case Got(_, u) => ItemsRead(u, [], [], files, [], [], [], ending);
  }

  lemma EnvMemberLists(key: string, s: string, env: Env, lo: nat, scratch: seq<nat>, files: Files, ending: Ending)
    requires lo <= |files| && Within(scratch, lo, |files|)
    ensures var st := EnvMember(key, s, env, scratch, files, ending);
            Lists(lo, |files|, scratch, |st.files|, st.scratch, key == "items" ==> OnceEachOfArray(s, ending))
  {
    if key == "items" {
      ArrayLists(s, lo, scratch, files, ending);
    } else {
      var st := EnvMember(key, s, env, scratch, files, ending);
      assert st.scratch == scratch && st.files == files;
    }
  }

  lemma ListsMore(lo: nat, n: nat, a: seq<nat>, m: nat, b: seq<nat>, first: bool, k: nat, c: seq<nat>, more: bool)
    requires Lists(lo, n, a, m, b, first) && Lists(lo, m, b, k, c, more)
    ensures Lists(lo, n, a, k, c, first && more)
  {
  }

  lemma {:induction false} EnvelopeLists(s: string, env: Env, lo: nat, scratch: seq<nat>, files: Files, first: bool,
                                         ending: Ending)
    requires lo <= |files| && Within(scratch, lo, |files|)
    ensures var st := EnvLoop(s, env, scratch, files, first, ending);
            Lists(lo, |files|, scratch, |st.files|, st.scratch, OncePerItem(s, first, ending))
    decreases |s|
  {
    match NextKey(s, first, ending)
    case NoKey(_) =>
    case EndOfObject(_) =>
    case Key(name, t) =>
      var st := EnvMember(name, t, env, scratch, files, ending);
      var once := name == "items" ==> OnceEachOfArray(t, ending);
      EnvMemberLists(name, t, env, lo, scratch, files, ending);
      EnvMemberReads(name, t, env, scratch, files, ending);
      if st.result.Failed? {
        assert EnvLoop(s, env, scratch, files, first, ending) == st;
        assert OncePerItem(s, first, ending) == once;
      } else {
        var u := st.result.rest;
        assert EnvLoop(s, env, scratch, files, first, ending)
            == EnvLoop(u, st.env, st.scratch, st.files, false, ending);
        assert OncePerItem(s, first, ending) == (once && OncePerItem(u, false, ending));
        EnvelopeLists(u, st.env, lo, st.scratch, st.files, false, ending);
        var more := EnvLoop(u, st.env, st.scratch, st.files, false, ending);
        ListsMore(lo, |files|, scratch, |st.files|, st.scratch, once, |more.files|, more.scratch,
                  OncePerItem(u, false, ending));
      }
  }

  /** Every file created for a body, accepted or not, is listed for removal iff no item opens a second payload. */
  lemma ScratchIsListedIff(s: string, files: Files, ending: Ending)
    ensures var st := ParseEnvelope(s, files, ending);
            AllListed(|files|, |st.files|, st.scratch) <==> OncePerItemOfBody(s, ending)
  {
    match Expect(s, '{', ending)
    case Failed(_) =>
    case Got(_, t) => EnvelopeLists(t, BLANK_ENV, |files|, [], files, true, ending);
  }

  // ---------------------------------------------------------------- well-formed documents

  /** How many of an item's members are payloads. */
  ghost function Payloads(ms: Members): nat
    requires ValidMembers(ms)
  {
    if ms.NoMember? then 0
    else (if Meaning(ms.key) == "bytesB64" && ms.value.String? then 1 else 0) + Payloads(ms.others)
  }

  ghost function PayloadsOf(v: Value): nat
    requires Valid(v)
  {
    if v.Object? then Payloads(v.members) else 0
  }

  ghost predicate OnePayloadEach(es: Elements)
    requires ValidElements(es)
  {
    es.Element? ==> PayloadsOf(es.value) <= 1 && OnePayloadEach(es.others)
  }

  ghost predicate OnePayloadPerItem(ms: Members)
    requires ValidMembers(ms)
  {
    ms.Member? ==> (Meaning(ms.key) == "items" ==> ArrayHasOneEach(ms.value)) && OnePayloadPerItem(ms.others)
  }

  ghost predicate ArrayHasOneEach(v: Value)
    requires Valid(v)
  {
    v.Array? ==> OnePayloadEach(v.elements)
  }

  /** The item and the files at some point, as a step of the parser leaves them. */
  function At(item: Item, files: Files): ItemStep {
    ItemStep(item, files, Failed(Malformed))
  }

  lemma ApplyCreates(key: string, v: Value, item: Item, files: Files)
    requires Valid(v) && ItemMemberOk(key, v)
    ensures var (i, g) := ApplyItem(key, v, item, files);
            Creates(At(i, g), if key == "bytesB64" && v.String? then 1 else 0, item, files)
  {
  }

  lemma {:induction false} MembersCreate(ms: Members, item: Item, files: Files)
    requires ValidMembers(ms) && ItemOk(ms)
    ensures var (i, g) := FoldItem(ms, item, files); Creates(At(i, g), Payloads(ms), item, files)
    decreases ms
  {
    if ms.Member? {
      var (i, g) := ApplyItem(Meaning(ms.key), ms.value, item, files);
      var (j, h) := FoldItem(ms.others, i, g);
      ApplyCreates(Meaning(ms.key), ms.value, item, files);
      MembersCreate(ms.others, i, g);
      CreatesMore(At(i, g), if Meaning(ms.key) == "bytesB64" && ms.value.String? then 1 else 0,
                  At(j, h), Payloads(ms.others), item, files);
    }
  }

  lemma {:induction false} ElementsList(es: Elements, items: seq<Item>, lo: nat, scratch: seq<nat>, files: Files)
    requires ValidElements(es) && ItemsOk(es) && lo <= |files| && Within(scratch, lo, |files|)
    ensures var (i, s, g) := FoldItems(es, items, scratch, files);
            Lists(lo, |files|, scratch, |g|, s, OnePayloadEach(es))
    decreases es
  {
    if es.Element? {
      var (i, g) := ItemFrom(es.value, files);
      MembersCreate(es.value.members, BLANK_ITEM, files);
      CreatedIsListed(lo, scratch, At(i, g), PayloadsOf(es.value), files);
      ElementsList(es.others, items + [i], lo, Listed(scratch, i), g);
    }
  }

  lemma {:induction false} MembersList(ms: Members, env: Env, lo: nat, scratch: seq<nat>, files: Files)
    requires ValidMembers(ms) && EnvOk(ms) && lo <= |files| && Within(scratch, lo, |files|)
    ensures var (e, s, g) := FoldEnv(ms, env, scratch, files);
            Lists(lo, |files|, scratch, |g|, s, OnePayloadPerItem(ms))
    decreases ms
  {
    if ms.Member? {
      var (e, s, g) := ApplyEnv(Meaning(ms.key), ms.value, env, scratch, files);
      if Meaning(ms.key) == "items" {
        var (_, listed, _) := FoldItems(ms.value.elements, [], [], files);
        ElementsList(ms.value.elements, [], |files|, [], files);
        Joined(lo, |files|, |g|, scratch, listed);
      }
      MembersList(ms.others, e, lo, s, g);
    }
  }

  /** Of a well-formed document, that is to say that no item has two members that are payloads. */
  lemma DocumentIsListedIff(ws: string, doc: Value, files: Files, k: string, ending: Ending)
    requires Blank(ws) && Valid(doc) && IsEnvelope(doc)
    ensures var st := ParseEnvelope(ws + Spell(doc, k), files, ending);
            AllListed(|files|, |st.files|, st.scratch) <==> OnePayloadPerItem(doc.members)
    ensures OncePerItemOfBody(ws + Spell(doc, k), ending) <==> OnePayloadPerItem(doc.members)
  {
    EnvelopeSpelled(ws, doc, files, k, ending);
    MembersList(doc.members, BLANK_ENV, |files|, [], files);
    ScratchIsListedIff(ws + Spell(doc, k), files, ending);
  }

  /** Pieces that spell `s` byte by byte. */
  function Plain(s: string): seq<Piece> {
    if |s| == 0 then [] else [Raw(s[0])] + Plain(s[1..])
  }

  lemma {:induction false} PlainMeans(s: string)
    requires forall i :: 0 <= i < |s| ==> s[i] != '"' && s[i] != '\\'
    ensures ValidPieces(Plain(s)) && Meaning(Plain(s)) == s
  {
    if |s| == 0 {
      assert s == "";
    } else {
      PlainMeans(s[1..]);
      assert Plain(s)[1..] == Plain(s[1..]);
      assert s == [s[0]] + s[1..];
    }
  }

  function OneMember(key: string, v: Value, others: Members): Members {
    Member("", Plain(key), "", "", v, "", others)
  }

  /** The members of an item that gives an empty payload twice. */
  function TwoPayloads(): Members {
    OneMember("bytesB64", String([]), OneMember("bytesB64", String([]), NoMember))
  }

  lemma OneMore(ms: Members)
    requires ValidMembers(ms) && ItemOk(ms)
    ensures var more := OneMember("bytesB64", String([]), ms);
            ValidMembers(more) && ItemOk(more) && Payloads(more) == 1 + Payloads(ms)
  {
    PlainMeans("bytesB64");
    assert Base64Text(String([])) by {
      assert Meaning([]) == "";
    }
  }

  lemma TwoPayloadsCounted()
    ensures Valid(Object("", TwoPayloads())) && IsItem(Object("", TwoPayloads()))
    ensures PayloadsOf(Object("", TwoPayloads())) == 2
  {
    OneMore(NoMember);
    OneMore(OneMember("bytesB64", String([]), NoMember));
  }

  lemma ArrayOfTwo() returns (items: Value)
    ensures Valid(items) && EnvMemberOk("items", items) && !ArrayHasOneEach(items)
  {
    TwoPayloadsCounted();
    var es := Element("", Object("", TwoPayloads()), "", NoElement);
    assert ValidElements(NoElement) && ItemsOk(NoElement);
    assert ValidElements(es) && ItemsOk(es) && !OnePayloadEach(es);
    items := Array("", es);
  }

  lemma DocumentOfTwo() returns (doc: Value)
    ensures Valid(doc) && IsEnvelope(doc) && !OnePayloadPerItem(doc.members)
  {
    var items := ArrayOfTwo();
    PlainMeans("items");
    var ms := OneMember("items", items, NoMember);
    assert ValidMembers(NoMember) && EnvOk(NoMember);
    assert ValidMembers(ms) && EnvOk(ms) && !OnePayloadPerItem(ms);
    doc := Object("", ms);
  }

  /** One item that gives two payloads: the first one's file is never listed. */
  lemma RepeatedPayloadIsNotListed() returns (doc: Value)
    ensures Valid(doc) && IsEnvelope(doc)
    ensures var st := ParseEnvelope(Spell(doc, ""), [], Eof); st.result.Got? && !AllListed(0, |st.files|, st.scratch)
  {
    doc := DocumentOfTwo();
    EnvelopeSpelled("", doc, [], "", Eof);
    DocumentIsListedIff("", doc, [], "", Eof);
    NothingInFront(Spell(doc, ""));
  }

  lemma NothingInFront(s: string)
    ensures "" + s == s
  {
  }

  // ---------------------------------------------------------------- a body cut short

  /** The key, its quotes and its colon. */
  function Quoted(key: string, rest: string): string {
    "\"" + key + "\":" + rest
  }

  lemma {:induction false} PlainSpells(s: string, k: string)
    ensures SpellPieces(Plain(s), k) == s + k
  {
    if |s| == 0 {
      assert s + k == k;
    } else {
      PlainSpells(s[1..], k);
      PieceFirst([Raw(s[0])], Plain(s[1..]), k);
      FirstOff(s, k);
    }
  }

  lemma PieceFirst(p: seq<Piece>, ps: seq<Piece>, k: string)
    requires |p| == 1
    ensures SpellPieces(p + ps, k) == PieceText(p[0]) + SpellPieces(ps, k)
  {
    assert (p + ps)[1..] == ps;
  }

  lemma FirstOff(s: string, k: string)
    requires s != ""
    ensures [s[0]] + (s[1..] + k) == s + k
  {
  }

  lemma QuotedIsKeyText(key: string, rest: string)
    ensures Quoted(key, rest) == KeyText("", Plain(key), "", rest)
  {
    var u := "" + (":" + rest);
    PlainSpells(key, "\"" + u);
    assert "\"" + u == "\":" + rest;
    assert "\"" + key + "\":" + rest == "" + ("\"" + (key + ("\":" + rest)));
  }

  lemma QuotedKey(key: string, rest: string, ending: Ending)
    requires forall i :: 0 <= i < |key| ==> key[i] != '"' && key[i] != '\\'
    ensures NextKey(Quoted(key, rest), true, ending) == Key(key, rest)
    ensures NextKey("," + Quoted(key, rest), false, ending) == Key(key, rest)
  {
    QuotedIsKeyText(key, rest);
    PlainMeans(key);
    KeySpelled("", Plain(key), "", rest, ending);
    NextKeySpelled("", "", Plain(key), "", rest, ending);
    NothingInFront("," + KeyText("", Plain(key), "", rest));
  }

  /** The second payload of an item, cut behind its opening quote. */
  const SECOND := "," + Quoted("bytesB64", "\"")

  lemma SecondPayloadOpens()
    ensures Opened(SECOND, false, Eof) == 1
    ensures ItemLoop(SECOND, BLANK_ITEM, [], false, Eof).result.Failed?
  {
    QuotedKey("bytesB64", "\"", Eof);
    SkipNothing("\"", Eof);
    assert "\""[1..] == "";
    assert OpenedAt("\"", Eof) == 1;
    assert Unescape("", Eof).end.Broken?;
    assert PayloadMember("\"", BLANK_ITEM, [], Eof).result.Failed?;
  }

  lemma EmptyPayload(k: string, ending: Ending)
    ensures OpenedAt("\"\"" + k, ending) == 1
    ensures PayloadMember("\"\"" + k, BLANK_ITEM, [], ending).result == Got((), k)
  {
    var t := "\"\"" + k;
    SkipNothing(t, ending);
    assert t[1..] == "\"" + k && (t[1..])[1..] == k;
    assert Unescape(t[1..], ending) == Text("", Closed(k));
  }

  lemma OpenedStep(s: string, first: bool, key: string, t: string, u: string, ending: Ending)
    requires NextKey(s, first, ending) == Key(key, t) && BehindMember(key, t, ending) == Got((), u)
    ensures Opened(s, first, ending) == OpenedByMember(key, t, ending) + Opened(u, false, ending)
    ensures ItemLoop(s, BLANK_ITEM, [], first, ending).result == ItemLoop(u, BLANK_ITEM, [], false, ending).result
  {
    var st := ItemMember(key, t, BLANK_ITEM, [], ending);
    LoopReads(u, BLANK_ITEM, [], st.item, st.files, false, ending);
  }

  /** The members of an item that gives an empty payload, and goes on with `second`. */
  function GivesEmpty(second: string): string {
    Quoted("bytesB64", "\"\"" + second)
  }

  lemma GivesEmptyOpens(second: string, ending: Ending)
    ensures Opened(GivesEmpty(second), true, ending) == 1 + Opened(second, false, ending)
    ensures ItemLoop(GivesEmpty(second), BLANK_ITEM, [], true, ending).result
         == ItemLoop(second, BLANK_ITEM, [], false, ending).result
  {
    QuotedKey("bytesB64", "\"\"" + second, ending);
    EmptyPayload(second, ending);
    OpenedStep(GivesEmpty(second), true, "bytesB64", "\"\"" + second, second, ending);
  }

  lemma ArrayOfCut(item: string)
    requires Opened(item, true, Eof) == 2 && ItemLoop(item, BLANK_ITEM, [], true, Eof).result.Failed?
    ensures !OnceEachOfArray("[{" + item, Eof) && ParseItems("[{" + item, [], Eof).result.Failed?
  {
    ItemOfCut(item);
    ArrayStarts("{" + item, Eof);
    assert "[" + ("{" + item) == "[{" + item;
  }

  lemma ItemOfCut(item: string)
    requires Opened(item, true, Eof) == 2 && ItemLoop(item, BLANK_ITEM, [], true, Eof).result.Failed?
    ensures !OnceEach("{" + item, Eof) && ItemsLoop("{" + item, [], [], [], Eof).result.Failed?
  {
    var u := "{" + item;
    SkipNothing(u, Eof);
    assert u[1..] == item;
    assert OpenedByItem(u, Eof) == 2 && ParseItem(u, [], Eof).result.Failed?;
  }

  lemma ArrayStarts(u: string, ending: Ending)
    requires u != "" && !Space(u[0]) && u[0] != ']'
    ensures OnceEachOfArray("[" + u, ending) <==> OnceEach(u, ending)
    ensures ParseItems("[" + u, [], ending) == ItemsLoop(u, [], [], [], ending)
  {
    var t := "[" + u;
    SkipNothing(t, ending);
    SkipNothing(u, ending);
    assert t[1..] == u;
  }

  lemma BodyOfCut(cut: string, members: string)
    requires !OnceEachOfArray(cut, Eof) && ParseItems(cut, [], Eof).result.Failed?
    requires NextKey(members, true, Eof) == Key("items", cut)
    ensures !OncePerItemOfBody("{" + members, Eof) && ParseEnvelope("{" + members, [], Eof).result.Failed?
  {
    var t := "{" + members;
    SkipNothing(t, Eof);
    assert t[1..] == members;
  }

  lemma ItemsKey(rest: string, ending: Ending)
    ensures NextKey(Quoted("items", rest), true, ending) == Key("items", rest)
  {
    QuotedKey("items", rest, ending);
  }

  /** The body up to the second payload of its first item. */
  function BodyWith(second: string): string {
    "{" + Quoted("items", "[{" + GivesEmpty(second))
  }

  lemma BodyWithCut(second: string)
    requires Opened(second, false, Eof) == 1 && ItemLoop(second, BLANK_ITEM, [], false, Eof).result.Failed?
    ensures !OncePerItemOfBody(BodyWith(second), Eof) && ParseEnvelope(BodyWith(second), [], Eof).result.Failed?
  {
    var cut := "[{" + GivesEmpty(second);
    GivesEmptyOpens(second, Eof);
    ArrayOfCut(GivesEmpty(second));
    ItemsKey(cut, Eof);
    BodyOfCut(cut, Quoted("items", cut));
  }

  const CUT_BODY := "{\"items\":[{" + "\"bytesB64\":\"\",\"bytesB64\":\""

  lemma CutBodyText()
    ensures CUT_BODY == BodyWith(SECOND)
  {
    CutItemText();
    BodyText(GivesEmpty(SECOND));
  }

  lemma CutItemText()
    ensures GivesEmpty(SECOND) == "\"bytesB64\":\"\",\"bytesB64\":\""
  {
  }

  lemma BodyText(item: string)
    ensures "{" + Quoted("items", "[{" + item) == "{\"items\":[{" + item
  {
  }

  /** A body cut in its second payload: it is rejected, and the first payload's file is not listed. */
  lemma RejectedBodyIsNotListed()
    ensures var st := ParseEnvelope(CUT_BODY, [], Eof); st.result.Failed? && !AllListed(0, |st.files|, st.scratch)
  {
    SecondPayloadOpens();
    BodyWithCut(SECOND);
    CutBodyText();
    ScratchIsListedIff(CUT_BODY, [], Eof);
  }
}
