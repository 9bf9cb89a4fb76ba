/**
  The text of envelope documents: their abstract syntax with every spelling of it, and the
  proof that items and lists of items are parsed to the fold of their members.
*/
module EnvelopeText {
  import opened Basics
  import opened ByteStream
  import opened JsonText
  import opened JsonScan
  import opened JsonValues
  import opened Envelope
  import opened Base64Stream

  // ---------------------------------------------------------------- which documents are envelopes

  ghost predicate TextOrNull(v: Value) {
    v.String? || v.Null?
  }

  ghost predicate Base64Text(v: Value) {
    v.String? && ValidPieces(v.pieces) && StreamDecode(Meaning(v.pieces)).Bytes?
  }

  ghost predicate ItemMemberOk(key: string, v: Value) {
    if key == "kind" then v.String?
    else if key == "name" || key == "uti" || key == "mime" || key == "text" then TextOrNull(v)
    else if key == "bytesB64" then v.Null? || Base64Text(v)
    else true
  }

  ghost predicate ItemOk(ms: Members)
    requires ValidMembers(ms)
  {
    ms.Member? ==> ItemMemberOk(Meaning(ms.key), ms.value) && ItemOk(ms.others)
  }

  ghost predicate IsItem(v: Value)
    requires Valid(v)
  {
    v.Object? && ItemOk(v.members)
  }

  ghost predicate ItemsOk(es: Elements)
    requires ValidElements(es)
  {
    es.Element? ==> IsItem(es.value) && ItemsOk(es.others)
  }

  /** A version with no more than one of fraction and exponent, whose integer part fits in 64 bits. */
  ghost predicate ReadableInt(n: Number) {
    && (n.fraction.None? || n.exponent.None?)
    && Decimal(n.digits).Some?
    && -0x8000_0000_0000_0000 <= IntOf(n) < 0x8000_0000_0000_0000
  }

  /** The integer part; what is behind it does not count. */

  function IntOf(n: Number): int
    requires Decimal(n.digits).Some?
  {
    var m: int := Decimal(n.digits).value;
    if n.negative then -m else m
  }

  ghost predicate EnvMemberOk(key: string, v: Value)
    requires Valid(v)
  {
    if key == "version" then v.Num? && ReadableInt(v.number)
    else if key == "sender" then v.String?
    else if key == "channel" then TextOrNull(v)
    else if key == "items" then v.Array? && ItemsOk(v.elements)
    else true
  }

  ghost predicate EnvOk(ms: Members)
    requires ValidMembers(ms)
  {
    ms.Member? ==> EnvMemberOk(Meaning(ms.key), ms.value) && EnvOk(ms.others)
  }

  // ---------------------------------------------------------------- what the members of an object do, in order

  /** Some text replaces the field, null leaves it as it was. */
  ghost function TextOf(v: Value, current: string): string
    requires Valid(v)
  {
    if v.String? then Meaning(v.pieces) else current
  }

  ghost function ApplyItem(key: string, v: Value, item: Item, files: Files): (Item, Files)
    requires Valid(v) && ItemMemberOk(key, v)
  {
    if key == "kind" then (item.(kind := TextOf(v, item.kind)), files)
    else if key == "name" then (item.(name := TextOf(v, item.name)), files)
    else if key == "uti" then (item.(uti := TextOf(v, item.uti)), files)
    else if key == "mime" then (item.(mime := TextOf(v, item.mime)), files)
    else if key == "text" then (item.(text := TextOf(v, item.text)), files)
    else if key == "bytesB64" && v.String? then
      (item.(scratch := Some(|files|)), files + [Some(StreamDecode(Meaning(v.pieces)).data)])
    else (item, files)
  }

  ghost function FoldItem(ms: Members, item: Item, files: Files): (Item, Files)
    requires ValidMembers(ms) && ItemOk(ms)
    decreases ms
  {
    if ms.NoMember? then (item, files)
    else
      var (i, f) := ApplyItem(Meaning(ms.key), ms.value, item, files);
      FoldItem(ms.others, i, f)
  }

  ghost function ItemFrom(v: Value, files: Files): (Item, Files)
    requires Valid(v) && IsItem(v)
  {
    FoldItem(v.members, BLANK_ITEM, files)
  }

  ghost function FoldItems(es: Elements, items: seq<Item>, scratch: seq<nat>, files: Files)
    : (seq<Item>, seq<nat>, Files)
    requires ValidElements(es) && ItemsOk(es)
    decreases es
  {
    if es.NoElement? then (items, scratch, files)
    else
      var (i, f) := ItemFrom(es.value, files);
      FoldItems(es.others, items + [i], Listed(scratch, i), f)
  }

  ghost function ApplyEnv(key: string, v: Value, env: Env, scratch: seq<nat>, files: Files): (Env, seq<nat>, Files)
    requires Valid(v) && EnvMemberOk(key, v)
  {
    if key == "version" then (env.(version := IntOf(v.number)), scratch, files)
    else if key == "channel" then (env.(channel := TextOf(v, env.channel)), scratch, files)
    else if key == "items" then
      var (items, listed, f) := FoldItems(v.elements, [], [], files);
      (env.(items := items), scratch + listed, f)
    else (env, scratch, files)
  }

  ghost function FoldEnv(ms: Members, env: Env, scratch: seq<nat>, files: Files): (Env, seq<nat>, Files)
    requires ValidMembers(ms) && EnvOk(ms)
    decreases ms
  {
    if ms.NoMember? then (env, scratch, files)
    else
      var (e, s, f) := ApplyEnv(Meaning(ms.key), ms.value, env, scratch, files);
      FoldEnv(ms.others, e, s, f)
  }

  // ---------------------------------------------------------------- reading spelled tokens

  lemma ExpectSpelled(ws: string, want: char, k: string, ending: Ending)
    requires Blank(ws) && !Space(want)
    ensures Expect(ws + ([want] + k), want, ending) == Got((), k)
  {
    SkipBlank(ws, [want] + k, ending);
    SkipNothing([want] + k, ending);
  }

  lemma StringSpelled(ws: string, ps: seq<Piece>, k: string, ending: Ending)
    requires Blank(ws) && ValidPieces(ps)
    ensures StringValue(ws + Spell(String(ps), k), ending) == Got(Meaning(ps), k)
  {
    ExpectSpelled(ws, '"', SpellPieces(ps, "\"" + k), ending);
    UnescapeSpelled(ps, k, ending);
  }

  lemma NullSpelled(ws: string, k: string, ending: Ending)
    requires Blank(ws)
    ensures TryNull(ws + ("null" + k), ending) == Got(true, k)
  {
    var s := "null" + k;
    SkipBlank(ws, s, ending);
    SkipNothing(s, ending);
    assert s[1..] == "ull" + k;
  }

  lemma NotNull(ws: string, ps: seq<Piece>, k: string, ending: Ending)
    requires Blank(ws)
    ensures TryNull(ws + Spell(String(ps), k), ending) == Got(false, Spell(String(ps), k))
  {
    var s := Spell(String(ps), k);
    SkipBlank(ws, s, ending);
    SkipNothing(s, ending);
  }

  lemma OptionalSpelled(ws: string, v: Value, k: string, ending: Ending)
    requires Blank(ws) && Valid(v) && TextOrNull(v)
    ensures StringOrNull(ws + Spell(v, k), ending) == Got(if v.String? then Some(Meaning(v.pieces)) else None, k)
  {
    if v.Null? {
      NullSpelled(ws, k, ending);
    } else {
      NotNull(ws, v.pieces, k, ending);
      StringSpelled("", v.pieces, k, ending);
      assert "" + Spell(v, k) == Spell(v, k);
    }
  }

  lemma IntSpelled(ws: string, n: Number, k: string, ending: Ending)
    requires Blank(ws) && ValidNumber(n) && ReadableInt(n) && Ends(k) && |k| > 0
    ensures IntValue(ws + Spell(Num(n), k), ending) == Got(IntOf(n), k)
  {
    NumberFirst(ws, n, k, ending);
    AtoiPlain(n);
    TailIsPassed(n, k);
  }

  /** The integer part of a number, with its sign, and what is behind it. */
  function IntText(n: Number): string {
    (if n.negative then "-" else "") + n.digits
  }

  function TailText(n: Number): string {
    (if n.fraction.Some? then "." + n.fraction.value else "")
    + if n.exponent.Some? then ExponentText(n.exponent.value) else ""
  }

  lemma IntThenTail(n: Number, k: string)
    ensures NumberText(n) + k == IntText(n) + (TailText(n) + k)
  {
  }

  lemma IntTextIsSigned(n: Number)
    requires ValidNumber(n)
    ensures IntText(n) != "" && !Space(IntText(n)[0]) && forall c <- IntText(n) :: Signed(c)
  {
    assert n.digits[0] in n.digits;
  }

  lemma TailStarts(n: Number, k: string)
    requires ValidNumber(n) && Ends(k) && |k| > 0
    ensures var u := TailText(n) + k; |u| > 0 && !Signed(u[0])
  {
  }

  /** The run of digits that is collected is the integer part. */
  lemma NumberFirst(ws: string, n: Number, k: string, ending: Ending)
    requires Blank(ws) && ValidNumber(n) && Ends(k) && |k| > 0
    ensures IntValue(ws + Spell(Num(n), k), ending)
         == match Atoi(IntText(n))
            case None => Failed(Malformed)
            case Some(x) => Got(x, PastFraction(TailText(n) + k))
  {
    var run, u := IntText(n), TailText(n) + k;
    IntTextIsSigned(n);
    TailStarts(n, k);
    IntThenTail(n, k);
    SkipBlank(ws, run + u, ending);
    SkipNothing(run + u, ending);
    RunOf(run, u);
    IntFrom(ws + Spell(Num(n), k), run, u, ending);
  }

  lemma RunOf(run: string, u: string)
    requires (forall c <- run :: Signed(c)) && |u| > 0 && !Signed(u[0])
    ensures Span(run + u, Signed) == |run| && (run + u)[..|run|] == run && (run + u)[|run|..] == u
  {
    SpanIs(run + u, Signed, |run|);
  }

  lemma IntFrom(s: string, run: string, u: string, ending: Ending)
    requires SkipSpace(s, ending) == Got((), run + u) && Span(run + u, Signed) == |run| && |u| > 0
    requires (run + u)[..|run|] == run && (run + u)[|run|..] == u
    ensures IntValue(s, ending) == match Atoi(run)
                                   case None => Failed(Malformed)
                                   case Some(x) => Got(x, PastFraction(u))
  {
  }

  lemma AtoiPlain(n: Number)
    requires ValidNumber(n) && Decimal(n.digits).Some?
    ensures Atoi(IntText(n))
         == if -0x8000_0000_0000_0000 <= IntOf(n) < 0x8000_0000_0000_0000 then Some(IntOf(n)) else None
  {
    assert n.digits[0] in n.digits;
    if n.negative {
      AtoiNegative(n.digits);
    } else {
      AtoiPositive(n.digits);
      assert IntText(n) == n.digits;
    }
  }

  lemma AtoiNegative(digits: string)
    requires digits != "" && Decimal(digits).Some?
    ensures var x: int := -(Decimal(digits).value as int);
            Atoi("-" + digits) == if -0x8000_0000_0000_0000 <= x < 0x8000_0000_0000_0000 then Some(x) else None
  {
    assert ("-" + digits)[1..] == digits;
  }

  lemma AtoiPositive(digits: string)
    requires digits != "" && digits[0] != '-' && digits[0] != '+' && Decimal(digits).Some?
    ensures var x := Decimal(digits).value;
            Atoi(digits) == if -0x8000_0000_0000_0000 <= x < 0x8000_0000_0000_0000 then Some(x) else None
  {
  }

  /** A fraction, or an exponent, is passed over whole. */
  lemma TailIsPassed(n: Number, k: string)
    requires ValidNumber(n) && (n.fraction.None? || n.exponent.None?) && Ends(k) && |k| > 0
    ensures PastFraction(TailText(n) + k) == k
  {
    var tail := TailText(n);
    if n.fraction.Some? {
      assert tail == "." + n.fraction.value;
      RunIsPassed('.', n.fraction.value, k);
    } else if n.exponent.Some? {
      var e := n.exponent.value;
      var run := (if e.sign.Some? then [e.sign.value] else "") + e.digits;
      assert tail == [e.mark] + run;
      RunIsPassed(e.mark, run, k);
    } else {
      assert tail + k == k;
    }
  }

  lemma RunIsPassed(c: char, run: string, k: string)
    requires (c == '.' || c == 'e' || c == 'E') && (forall d <- run :: Signed(d)) && |k| > 0 && !Signed(k[0])
    ensures PastFraction([c] + run + k) == k
  {
    assert ([c] + run + k)[1..] == run + k;
    RunOf(run, k);
  }

  /** The text of a key with its colon, as an object's members spell it. */
  function KeyText(before: string, key: seq<Piece>, mid: string, rest: string): string {
    before + ("\"" + SpellPieces(key, "\"" + (mid + (":" + rest))))
  }

  lemma KeySpelled(before: string, key: seq<Piece>, mid: string, rest: string, ending: Ending)
    requires Blank(before) && ValidPieces(key) && Blank(mid)
    ensures NextKey(KeyText(before, key, mid, rest), true, ending) == Key(Meaning(key), rest)
    ensures SkipSpace(KeyText(before, key, mid, rest), ending).Got?
    ensures KeyAt(SkipSpace(KeyText(before, key, mid, rest), ending).rest, ending) == Key(Meaning(key), rest)
  {
    var u := mid + (":" + rest);
    var t := "\"" + SpellPieces(key, "\"" + u);
    SkipBlank(before, t, ending);
    SkipNothing(t, ending);
    assert t[1..] == SpellPieces(key, "\"" + u);
    UnescapeSpelled(key, u, ending);
    ExpectSpelled(mid, ':', rest, ending);
  }

  lemma NextKeySpelled(after: string, before: string, key: seq<Piece>, mid: string, rest: string, ending: Ending)
    requires Blank(after) && Blank(before) && ValidPieces(key) && Blank(mid)
    ensures NextKey(after + ("," + KeyText(before, key, mid, rest)), false, ending) == Key(Meaning(key), rest)
  {
    var t := "," + KeyText(before, key, mid, rest);
    SkipBlank(after, t, ending);
    SkipNothing(t, ending);
    assert t[1..] == KeyText(before, key, mid, rest);
    KeySpelled(before, key, mid, rest, ending);
  }

  lemma EndSpelled(ws: string, k: string, first: bool, ending: Ending)
    requires Blank(ws)
    ensures NextKey(ws + ("}" + k), first, ending) == EndOfObject(k)
  {
    SkipBlank(ws, "}" + k, ending);
    SkipNothing("}" + k, ending);
  }

  // ---------------------------------------------------------------- items

  lemma PayloadSpelled(ps: seq<Piece>, k: string, ending: Ending)
    requires Valid(String(ps)) && Base64Text(String(ps))
    ensures Payload(SpellPieces(ps, "\"" + k), ending)
         == Got(StreamDecode(Meaning(ps)).data, k)
  {
    UnescapeSpelled(ps, k, ending);
  }

  lemma PayloadMemberSpelled(gap: string, v: Value, k: string, item: Item, files: Files, ending: Ending)
    requires Blank(gap) && Valid(v) && ItemMemberOk("bytesB64", v)
    ensures var (i, f) := ApplyItem("bytesB64", v, item, files);
            PayloadMember(gap + Spell(v, k), item, files, ending) == ItemStep(i, f, Got((), k))
  {
    if v.Null? {
      NullSpelled(gap, k, ending);
    } else {
      NotNull(gap, v.pieces, k, ending);
      var t := SpellPieces(v.pieces, "\"" + k);
      ExpectSpelled("", '"', t, ending);
      assert "" + ("\"" + t) == Spell(v, k);
      PayloadSpelled(v.pieces, k, ending);
    }
  }

  lemma ItemMemberSpelled(key: string, gap: string, v: Value, k: string, item: Item, files: Files, ending: Ending)
    requires Blank(gap) && Valid(v) && ItemMemberOk(key, v) && Ends(k)
    ensures var (i, f) := ApplyItem(key, v, item, files);
            ItemMember(key, gap + Spell(v, k), item, files, ending) == ItemStep(i, f, Got((), k))
  {
    if key == "kind" {
      StringSpelled(gap, v.pieces, k, ending);
    } else if key == "name" || key == "uti" || key == "mime" || key == "text" {
      OptionalSpelled(gap, v, k, ending);
    } else if key == "bytesB64" {
      PayloadMemberSpelled(gap, v, k, item, files, ending);
    } else {
      SkipSpaced(gap, v, k, ending);
    }
  }

  lemma SkipSpaced(gap: string, v: Value, k: string, ending: Ending)
    requires Blank(gap) && Valid(v) && Ends(k)
    ensures SkipValue(gap + Spell(v, k), ending) == Got((), k)
  {
    SkipBlank(gap, Spell(v, k), ending);
    SkipSpelled(v, k, ending);
  }

  /** What stands behind a member: white space, then the other members or the end. */
  function Remaining(ms: Members, after: string, k: string): string {
    after + Then(ms.Member?, if ms.Member? then SpellMembers(ms, "}" + k) else "}" + k)
  }

  lemma RemainingEnds(ms: Members, after: string, k: string)
    requires Blank(after)
    ensures Ends(Remaining(ms, after, k)) && |Remaining(ms, after, k)| > 0
  {
  }

  /** `SpellMembers` of at least one member starts with the text of its key. */
  lemma MembersText(ms: Members, k: string)
    requires ms.Member?
    ensures SpellMembers(ms, "}" + k)
         == KeyText(ms.before, ms.key, ms.mid, ms.gap + Spell(ms.value, Remaining(ms.others, ms.after, k)))
  {
  }

  lemma {:induction false} ItemLoopSpelled(ms: Members, item: Item, files: Files, k: string, ending: Ending)
    requires ms.Member? && ValidMembers(ms) && ItemOk(ms)
    ensures var (i, f) := FoldItem(ms, item, files);
            ItemLoop(SpellMembers(ms, "}" + k), item, files, true, ending) == ItemStep(i, f, Got((), k))
    decreases ms, 1
  {
    var rest := Remaining(ms.others, ms.after, k);
    MembersText(ms, k);
    KeySpelled(ms.before, ms.key, ms.mid, ms.gap + Spell(ms.value, rest), ending);
    RemainingEnds(ms.others, ms.after, k);
    ItemMemberSpelled(Meaning(ms.key), ms.gap, ms.value, rest, item, files, ending);
    var (i, f) := ApplyItem(Meaning(ms.key), ms.value, item, files);
    ItemRestSpelled(ms.others, ms.after, i, f, k, ending);
  }

  lemma {:induction false} ItemRestSpelled(ms: Members, after: string, item: Item, files: Files, k: string,
                                           ending: Ending)
    requires ValidMembers(ms) && ItemOk(ms) && Blank(after)
    ensures var (i, f) := FoldItem(ms, item, files);
            ItemLoop(Remaining(ms, after, k), item, files, false, ending) == ItemStep(i, f, Got((), k))
    decreases ms, 0
  {
    if ms.NoMember? {
      EndSpelled(after, k, false, ending);
    } else {
      var rest := Remaining(ms.others, ms.after, k);
      MembersText(ms, k);
      NextKeySpelled(after, ms.before, ms.key, ms.mid, ms.gap + Spell(ms.value, rest), ending);
      RemainingEnds(ms.others, ms.after, k);
      ItemMemberSpelled(Meaning(ms.key), ms.gap, ms.value, rest, item, files, ending);
      var (i, f) := ApplyItem(Meaning(ms.key), ms.value, item, files);
      ItemRestSpelled(ms.others, ms.after, i, f, k, ending);
    }
  }

  lemma ItemSpelled(ws: string, v: Value, files: Files, k: string, ending: Ending)
    requires Blank(ws) && Valid(v) && IsItem(v)
    ensures var (i, f) := ItemFrom(v, files);
            ParseItem(ws + Spell(v, k), files, ending) == ItemStep(i, f, Got((), k))
  {
    if v.members.Member? {
      ExpectSpelled(ws, '{', SpellMembers(v.members, "}" + k), ending);
      ItemLoopSpelled(v.members, BLANK_ITEM, files, k, ending);
    } else {
      ExpectSpelled(ws, '{', v.blank + ("}" + k), ending);
      EndSpelled(v.blank, k, true, ending);
    }
  }

  lemma {:induction false} ItemsLoopSpelled(es: Elements, items: seq<Item>, scratch: seq<nat>, files: Files,
                                            k: string, ending: Ending)
    requires es.Element? && ValidElements(es) && ItemsOk(es)
    ensures var (i, s, f) := FoldItems(es, items, scratch, files);
            ItemsLoop(SpellElements(es, "]" + k), items, scratch, files, ending) == ItemsStep(i, s, f, Got((), k))
    decreases es
  {
    var next := if es.others.Element? then SpellElements(es.others, "]" + k) else "]" + k;
    var beyond := Then(es.others.Element?, next);
    ItemSpelled(es.before, es.value, files, es.after + beyond, ending);
    var (i, f) := ItemFrom(es.value, files);
    SkipBlank(es.after, beyond, ending);
    SkipNothing(beyond, ending);
    if es.others.Element? {
      assert beyond[1..] == next;
      ItemsLoopSpelled(es.others, items + [i], Listed(scratch, i), f, k, ending);
    }
  }

  lemma ItemsSpelled(ws: string, v: Value, files: Files, k: string, ending: Ending)
    requires Blank(ws) && Valid(v) && v.Array? && ItemsOk(v.elements)
    ensures var (i, s, f) := FoldItems(v.elements, [], [], files);
            ParseItems(ws + Spell(v, k), files, ending) == ItemsStep(i, s, f, Got((), k))
  {
    if v.elements.Element? {
      ItemsNonempty(ws, v.elements, files, k, ending);
    } else {
      ExpectSpelled(ws, '[', v.blank + ("]" + k), ending);
      SkipBlank(v.blank, "]" + k, ending);
      SkipNothing("]" + k, ending);
    }
  }

  lemma ItemsNonempty(ws: string, es: Elements, files: Files, k: string, ending: Ending)
    requires Blank(ws) && es.Element? && ValidElements(es) && ItemsOk(es)
    ensures var (i, s, f) := FoldItems(es, [], [], files);
            ParseItems(ws + ("[" + SpellElements(es, "]" + k)), files, ending) == ItemsStep(i, s, f, Got((), k))
  {
    var t := SpellElements(es, "]" + k);
    ExpectSpelled(ws, '[', t, ending);
    var tail := es.after + Then(es.others.Element?, SpellElements(es.others, "]" + k));
    FirstByte(es.value, tail);
    var e := es.(before := "");
    assert Spell(es.value, tail) == SpellElements(e, "]" + k);
    SkipBlank(es.before, Spell(es.value, tail), ending);
    SkipNothing(Spell(es.value, tail), ending);
    ItemsLoopSpelled(e, [], [], files, k, ending);
  }
}
