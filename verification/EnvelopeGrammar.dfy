/**
  The bodies the parser accepts, as a grammar: it is stricter than JSON about the members it
  knows, and looser about the values it passes over.
*/
module EnvelopeGrammar {
  import opened ByteStream
  import opened JsonString
  import opened JsonText
  import opened JsonScan
  import opened JsonValues
  import opened Envelope
  import Base64
  import opened Base64Stream

  // ---------------------------------------------------------------- values that are passed over

  /** A string, a run of letters or of number characters, or a container of whatever balances. */
  datatype Loose =
    | Quote(pieces: seq<Piece>)
    | Run(first: char, more: string)
    | Box(open: char, inside: Parts)

  datatype Parts =
    | NoPart(ws: string)
    | Separator(ws: string, c: char, others: Parts)
    | Part(ws: string, value: Loose, others: Parts)

  function Closing(open: char): char {
    if open == '{' then '}' else ']'
  }

  function SpellLoose(v: Loose, k: string): string {
    match v
    case Quote(ps) => "\"" + SpellPieces(ps, "\"" + k)
    case Run(c, more) => [c] + (more + k)
    case Box(open, inside) => [open] + SpellParts(inside, [Closing(open)] + k)
  }

  function SpellParts(ps: Parts, k: string): string {
    match ps
    case NoPart(ws) => ws + k
    case Separator(ws, c, others) => ws + ([c] + SpellParts(others, k))
    case Part(ws, v, others) => ws + SpellLoose(v, SpellParts(others, k))
  }

  predicate NumberChar(c: char) {
    '0' <= c <= '9' || c == '-' || c == '+' || c == '.' || c == 'e' || c == 'E'
  }

  ghost predicate LooseOk(v: Loose) {
    match v
    case Quote(ps) => ValidPieces(ps)
    case Run(c, more) =>
      && !White(c) && c != '"' && c != '{' && c != '['
      && forall d <- more :: if c == 't' || c == 'f' || c == 'n' then 'a' <= d <= 'z' else NumberChar(d)
    case Box(open, inside) => (open == '{' || open == '[') && PartsOk(inside)
  }

  ghost predicate PartsOk(ps: Parts) {
    match ps
    case NoPart(ws) => Blank(ws)
    case Separator(ws, c, others) => Blank(ws) && (c == ',' || c == ':') && PartsOk(others)
    case Part(ws, v, others) => Blank(ws) && LooseOk(v) && PartsOk(others)
  }

  lemma {:induction false} SpaceRead(s: string, ending: Ending) returns (ws: string)
    requires SkipSpace(s, ending).Got?
    ensures Blank(ws) && s == ws + SkipSpace(s, ending).rest
    decreases |s|
  {
    if Space(s[0]) {
      ws := SpaceRead(s[1..], ending);
      ws := [s[0]] + ws;
      assert s == [s[0]] + s[1..];
    } else {
      ws := "";
    }
  }

  lemma StringRead(s: string, ending: Ending) returns (ps: seq<Piece>)
    requires StringTail(s, ending).Got?
    ensures var r := StringTail(s, ending);
            ValidPieces(ps) && s == SpellPieces(ps, "\"" + r.rest) && r.value == Meaning(ps)
  {
    ps := AcceptedIsSpelled(s, ending);
  }

  lemma RunRead(t: string, p: char -> bool) returns (run: string)
    requires |t| > 0
    ensures t == [t[0]] + (run + t[1..][Span(t[1..], p)..]) && forall d <- run :: p(d)
  {
    var n := Span(t[1..], p);
    run := t[1..][..n];
  }

  lemma SpaceFirst(s: string, ending: Ending)
    requires SkipSpace(s, ending).Got?
    ensures var t := SkipSpace(s, ending).rest;
            SkipSpace(t, ending) == Got((), t) && SkipValue(s, ending) == SkipValue(t, ending)
  {
  }

  lemma {:induction false} SkipRead(s: string, ending: Ending) returns (ws: string, v: Loose)
    requires SkipValue(s, ending).Got?
    ensures Blank(ws) && LooseOk(v) && s == ws + SpellLoose(v, SkipValue(s, ending).rest)
    decreases |s|, 1
  {
    ws := SpaceRead(s, ending);
    SpaceFirst(s, ending);
    v := ValueRead(SkipSpace(s, ending).rest, ending);
  }

  lemma {:induction false} ValueRead(t: string, ending: Ending) returns (v: Loose)
    requires SkipSpace(t, ending) == Got((), t) && SkipValue(t, ending).Got?
    ensures LooseOk(v) && t == SpellLoose(v, SkipValue(t, ending).rest)
    decreases |t|, 0
  {
    if t[0] == '"' {
      var ps := StringRead(t[1..], ending);
      v := Quote(ps);
    } else if t[0] == '{' || t[0] == '[' {
      var inside := ContainerRead(t[1..], Closing(t[0]), ending);
      v := Box(t[0], inside);
    } else if t[0] == 't' || t[0] == 'f' || t[0] == 'n' {
      var run := RunRead(t, Lower);
      v := Run(t[0], run);
    } else {
      var run := RunRead(t, Numeric);
      v := Run(t[0], run);
    }
  }

  lemma ContainerStep(s: string, t: string, close: char, ending: Ending)
    requires SkipSpace(s, ending).Got? && SkipSpace(s, ending).rest == t
    ensures SkipContainer(s, close, ending)
         == if t[0] == close then Got((), t[1..])
            else if t[0] == ',' || t[0] == ':' then SkipContainer(t[1..], close, ending)
            else if SkipValue(t, ending).Failed? then SkipValue(t, ending)
            else SkipContainer(SkipValue(t, ending).rest, close, ending)
  {
  }

  lemma {:induction false} ContainerRead(s: string, close: char, ending: Ending) returns (ps: Parts)
    requires SkipContainer(s, close, ending).Got?
    ensures PartsOk(ps) && s == SpellParts(ps, [close] + SkipContainer(s, close, ending).rest)
    decreases |s|, 2
  {
    var ws := SpaceRead(s, ending);
    SpaceFirst(s, ending);
    var t := SkipSpace(s, ending).rest;
    ContainerStep(s, t, close, ending);
    if t[0] == close {
      assert t == [close] + t[1..];
      ps := NoPart(ws);
    } else if t[0] == ',' || t[0] == ':' {
      var others := ContainerRead(t[1..], close, ending);
      assert t == [t[0]] + t[1..];
      ps := Separator(ws, t[0], others);
    } else {
      var v := ValueRead(t, ending);
      var others := ContainerRead(SkipValue(t, ending).rest, close, ending);
      ps := Part(ws, v, others);
    }
  }

  // ---------------------------------------------------------------- members and their keys

  /** What stands in front of a value: a comma but for the first member, the key and its colon. */
  datatype Lead = Lead(before: string, between: string, key: seq<Piece>, mid: string)

  ghost predicate LeadOk(l: Lead) {
    Blank(l.before) && Blank(l.between) && ValidPieces(l.key) && Blank(l.mid)
  }

  function KeyOn(l: Lead, rest: string): string {
    "\"" + SpellPieces(l.key, "\"" + (l.mid + (":" + rest)))
  }

  function SpellLead(l: Lead, first: bool, rest: string): string {
    l.before + if first then KeyOn(l, rest) else "," + (l.between + KeyOn(l, rest))
  }

  lemma ExpectRead(s: string, want: char, ending: Ending) returns (ws: string)
    requires Expect(s, want, ending).Got?
    ensures Blank(ws) && s == ws + ([want] + Expect(s, want, ending).rest)
  {
    ws := SpaceRead(s, ending);
    var t := SkipSpace(s, ending).rest;
    assert t == [t[0]] + t[1..];
  }

  lemma KeyAtRead(t: string, ending: Ending, l: Lead) returns (k: Lead)
    requires |t| > 0 && KeyAt(t, ending).Key? && Blank(l.before) && Blank(l.between)
    ensures k == l.(key := k.key, mid := k.mid) && LeadOk(k)
    ensures KeyAt(t, ending).name == Meaning(k.key) && t == KeyOn(k, KeyAt(t, ending).rest)
  {
    var ps := StringRead(t[1..], ending);
    var u := StringTail(t[1..], ending).rest;
    var mid := ExpectRead(u, ':', ending);
    k := l.(key := ps, mid := mid);
    assert t == [t[0]] + t[1..];
  }

  lemma KeyRead(s: string, first: bool, ending: Ending) returns (l: Lead)
    requires NextKey(s, first, ending).Key?
    ensures LeadOk(l) && NextKey(s, first, ending).name == Meaning(l.key)
    ensures s == SpellLead(l, first, NextKey(s, first, ending).rest)
  {
    var before := SpaceRead(s, ending);
    var t := SkipSpace(s, ending).rest;
    if first {
      l := KeyAtRead(t, ending, Lead(before, "", [], ""));
    } else {
      CommaFirst(s, t, ending);
      var between := SpaceRead(t[1..], ending);
      l := KeyAtRead(SkipSpace(t[1..], ending).rest, ending, Lead(before, between, [], ""));
    }
  }

  lemma CommaFirst(s: string, t: string, ending: Ending)
    requires SkipSpace(s, ending).Got? && t == SkipSpace(s, ending).rest && NextKey(s, false, ending).Key?
    ensures t == "," + t[1..] && SkipSpace(t[1..], ending).Got?
    ensures NextKey(s, false, ending) == KeyAt(SkipSpace(t[1..], ending).rest, ending)
  {
  }

  // ---------------------------------------------------------------- the values of known members

  datatype Shown =
    | Str(pieces: seq<Piece>)
    | Nil
    | Int(run: string, tail: string)
    | List(inner: string, items: Texts)
    | Passed(value: Loose)

  datatype Fields = Brace(ws: string) | Field(lead: Lead, gap: string, value: Shown, others: Fields)

  /** The items of a list: none, or one after the other with a comma between. */
  datatype Texts =
    | Empty
    | Last(before: string, fields: Fields, after: string)
    | Entry(before: string, fields: Fields, after: string, others: Texts)

  function SpellShown(v: Shown, k: string): string {
    match v
    case Str(ps) => "\"" + SpellPieces(ps, "\"" + k)
    case Nil => "null" + k
    case Int(run, tail) => run + (tail + k)
    case List(inner, items) => "[" + (inner + SpellTexts(items, k))
    case Passed(value) => SpellLoose(value, k)
  }

  function SpellFields(fs: Fields, first: bool, k: string): string {
    match fs
    case Brace(ws) => ws + ("}" + k)
    case Field(lead, gap, v, others) => SpellLead(lead, first, gap + SpellShown(v, SpellFields(others, false, k)))
  }

  function SpellTexts(ts: Texts, k: string): string {
    match ts
    case Empty => "]" + k
    case Last(before, fields, after) => before + ("{" + SpellFields(fields, true, after + ("]" + k)))
    case Entry(before, fields, after, others) =>
      before + ("{" + SpellFields(fields, true, after + ("," + SpellTexts(others, k))))
  }

  /** A payload is whole groups of base64 symbols, line breaks apart. */
  ghost predicate PayloadOk(ps: seq<Piece>) {
    ValidPieces(ps) && KnownGroups(Base64.DropBreaks(Meaning(ps)))
  }

  ghost predicate TextOk(v: Shown) {
    v.Str? && ValidPieces(v.pieces)
  }

  ghost predicate ItemShown(name: string, v: Shown) {
    if name == "kind" then TextOk(v)
    else if name == "name" || name == "uti" || name == "mime" || name == "text" then v.Nil? || TextOk(v)
    else if name == "bytesB64" then v.Nil? || (v.Str? && PayloadOk(v.pieces))
    else v.Passed? && LooseOk(v.value)
  }

  ghost predicate ItemFields(fs: Fields) {
    match fs
    case Brace(ws) => Blank(ws)
    case Field(lead, gap, v, others) =>
      LeadOk(lead) && Blank(gap) && ItemShown(Meaning(lead.key), v) && ItemFields(others)
  }

  ghost predicate ItemTexts(ts: Texts) {
    match ts
    case Empty => true
    case Last(before, fields, after) => Blank(before) && ItemFields(fields) && Blank(after)
    case Entry(before, fields, after, others) =>
      Blank(before) && ItemFields(fields) && Blank(after) && ItemTexts(others)
  }

  predicate SignChar(c: char) {
    '0' <= c <= '9' || c == '-' || c == '+'
  }

  /** A sign, perhaps, and at least one digit, within 64 bits. */
  ghost predicate IntRun(run: string) {
    && run != ""
    && var signed := run[0] == '-' || run[0] == '+';
       var digits := if signed then run[1..] else run;
    && Digits(digits) && Decimal(digits).Some?
    && Decimal(digits).value < 0x8000_0000_0000_0000 + if run[0] == '-' then 1 else 0
  }

  /** An integer, and behind it nothing or a mark and a run that do not count. */
  ghost predicate VersionOk(run: string, tail: string) {
    && IntRun(run)
    && (tail != "" ==> (tail[0] == '.' || tail[0] == 'e' || tail[0] == 'E') && forall c <- tail[1..] :: SignChar(c))
  }

  ghost predicate EnvShown(name: string, v: Shown) {
    if name == "version" then v.Int? && VersionOk(v.run, v.tail)
    else if name == "sender" then TextOk(v)
    else if name == "channel" then v.Nil? || TextOk(v)
    else if name == "items" then v.List? && Blank(v.inner) && ItemTexts(v.items)
    else v.Passed? && LooseOk(v.value)
  }

  ghost predicate EnvFields(fs: Fields) {
    match fs
    case Brace(ws) => Blank(ws)
    case Field(lead, gap, v, others) =>
      LeadOk(lead) && Blank(gap) && EnvShown(Meaning(lead.key), v) && EnvFields(others)
  }

  // ---------------------------------------------------------------- items

  lemma TextRead(s: string, ending: Ending) returns (gap: string, v: Shown)
    requires StringValue(s, ending).Got?
    ensures Blank(gap) && TextOk(v) && s == gap + SpellShown(v, StringValue(s, ending).rest)
  {
    gap := ExpectRead(s, '"', ending);
    var ps := StringRead(Expect(s, '"', ending).rest, ending);
    v := Str(ps);
  }

  lemma NullRead(s: string, ending: Ending) returns (gap: string)
    requires TryNull(s, ending).Got? && TryNull(s, ending).value
    ensures Blank(gap) && s == gap + SpellShown(Nil, TryNull(s, ending).rest)
  {
    gap := SpaceRead(s, ending);
    NullText(SkipSpace(s, ending).rest, TryNull(s, ending).rest);
  }

  lemma NullText(t: string, k: string)
    requires |t| > 0 && t[0] == 'n' && "ull" <= t[1..] && k == t[1..][3..]
    ensures t == "null" + k
  {
    assert t[1] == t[1..][0] && t[2] == t[1..][1] && t[3] == t[1..][2];
  }

  /** What is no null is left unread but for the white space in front of it. */
  lemma NotNullRead(s: string, ending: Ending) returns (gap: string)
    requires TryNull(s, ending).Got? && !TryNull(s, ending).value
    ensures Blank(gap) && s == gap + TryNull(s, ending).rest
  {
    gap := SpaceRead(s, ending);
  }

  lemma Regroup(a: string, b: string, c: string)
    ensures a + (b + c) == a + b + c
  {
  }

  lemma TextOrNullRead(s: string, ending: Ending) returns (gap: string, v: Shown)
    requires StringOrNull(s, ending).Got?
    ensures Blank(gap) && (v.Nil? || TextOk(v)) && s == gap + SpellShown(v, StringOrNull(s, ending).rest)
  {
    if TryNull(s, ending).value {
      gap := NullRead(s, ending);
      v := Nil;
    } else {
      var ws := NotNullRead(s, ending);
      var t := TryNull(s, ending).rest;
      var more;
      more, v := TextRead(t, ending);
      Regroup(ws, more, SpellShown(v, StringValue(t, ending).rest));
      gap := ws + more;
    }
  }

  lemma PayloadRead(s: string, item: Item, files: Files, ending: Ending) returns (gap: string, v: Shown)
    requires PayloadMember(s, item, files, ending).result.Got?
    ensures Blank(gap) && ItemShown("bytesB64", v)
    ensures s == gap + SpellShown(v, PayloadMember(s, item, files, ending).result.rest)
  {
    if TryNull(s, ending).value {
      gap := NullRead(s, ending);
      v := Nil;
    } else {
      var ws := NotNullRead(s, ending);
      var t := TryNull(s, ending).rest;
      var more := ExpectRead(t, '"', ending);
      var u := Expect(t, '"', ending).rest;
      var ps := AcceptedIsSpelled(u, ending);
      AcceptedText(Meaning(ps));
      v := Str(ps);
      Regroup(ws, more, SpellShown(v, Unescape(u, ending).end.rest));
      gap := ws + more;
    }
  }

  lemma PassedRead(s: string, ending: Ending) returns (gap: string, v: Shown)
    requires SkipValue(s, ending).Got?
    ensures Blank(gap) && v.Passed? && LooseOk(v.value) && s == gap + SpellShown(v, SkipValue(s, ending).rest)
  {
    var value;
    gap, value := SkipRead(s, ending);
    v := Passed(value);
  }

  lemma ItemMemberRead(name: string, s: string, item: Item, files: Files, ending: Ending)
    returns (gap: string, v: Shown)
    requires ItemMember(name, s, item, files, ending).result.Got?
    ensures Blank(gap) && ItemShown(name, v)
    ensures s == gap + SpellShown(v, ItemMember(name, s, item, files, ending).result.rest)
  {
    if name == "kind" {
      gap, v := TextRead(s, ending);
    } else if name == "name" || name == "uti" || name == "mime" || name == "text" {
      gap, v := TextOrNullRead(s, ending);
    } else if name == "bytesB64" {
      gap, v := PayloadRead(s, item, files, ending);
    } else {
      gap, v := PassedRead(s, ending);
    }
  }

  lemma EndRead(s: string, first: bool, ending: Ending) returns (ws: string)
    requires NextKey(s, first, ending).EndOfObject?
    ensures Blank(ws) && s == ws + ("}" + NextKey(s, first, ending).rest)
  {
    ws := SpaceRead(s, ending);
    EndAt(s, first, ending);
  }

  lemma EndAt(s: string, first: bool, ending: Ending)
    requires NextKey(s, first, ending).EndOfObject?
    ensures SkipSpace(s, ending).Got? && SkipSpace(s, ending).rest == "}" + NextKey(s, first, ending).rest
  {
    FirstApart(SkipSpace(s, ending).rest);
  }

  lemma FirstApart(t: string)
    requires |t| > 0
    ensures t == [t[0]] + t[1..]
  {
  }

  lemma {:induction false} ItemFieldsRead(s: string, item: Item, files: Files, first: bool, ending: Ending)
    returns (fs: Fields)
    requires ItemLoop(s, item, files, first, ending).result.Got?
    ensures ItemFields(fs) && s == SpellFields(fs, first, ItemLoop(s, item, files, first, ending).result.rest)
    decreases |s|
  {
    if NextKey(s, first, ending).EndOfObject? {
      var ws := EndRead(s, first, ending);
      fs := Brace(ws);
    } else {
      var Key(name, t) := NextKey(s, first, ending);
      var lead := KeyRead(s, first, ending);
      var gap, v := ItemMemberRead(name, t, item, files, ending);
      var st := ItemMember(name, t, item, files, ending);
      var others := ItemFieldsRead(st.result.rest, st.item, st.files, false, ending);
      fs := Field(lead, gap, v, others);
    }
  }

  lemma ItemRead(s: string, files: Files, ending: Ending) returns (before: string, fs: Fields)
    requires ParseItem(s, files, ending).result.Got?
    ensures Blank(before) && ItemFields(fs)
    ensures s == before + ("{" + SpellFields(fs, true, ParseItem(s, files, ending).result.rest))
  {
    before := ExpectRead(s, '{', ending);
    fs := ItemFieldsRead(Expect(s, '{', ending).rest, BLANK_ITEM, files, true, ending);
  }

  lemma ItemsLoopGoesOn(s: string, items: seq<Item>, scratch: seq<nat>, files: Files, ending: Ending)
    requires ItemsLoop(s, items, scratch, files, ending).result.Got?
    ensures var one, st := ParseItem(s, files, ending), ItemsLoop(s, items, scratch, files, ending);
            && one.result.Got? && SkipSpace(one.result.rest, ending).Got?
            && var u := SkipSpace(one.result.rest, ending).rest;
            && (u[0] == ']' || u[0] == ',')
            && (u[0] == ']' ==> st.result.rest == u[1..])
            && (u[0] == ',' ==>
                  st == ItemsLoop(u[1..], items + [one.item], Listed(scratch, one.item), one.files, ending))
  {
  }

  lemma {:induction false} ItemsLoopRead(s: string, items: seq<Item>, scratch: seq<nat>, files: Files, ending: Ending)
    returns (ts: Texts)
    requires ItemsLoop(s, items, scratch, files, ending).result.Got?
    ensures ItemTexts(ts) && s == SpellTexts(ts, ItemsLoop(s, items, scratch, files, ending).result.rest)
    decreases |s|
  {
    var one := ParseItem(s, files, ending);
    ItemsLoopGoesOn(s, items, scratch, files, ending);
    var before, fs := ItemRead(s, files, ending);
    var after := SpaceRead(one.result.rest, ending);
    var u := SkipSpace(one.result.rest, ending).rest;
    FirstApart(u);
    if u[0] == ']' {
      ts := Last(before, fs, after);
    } else {
      var others := ItemsLoopRead(u[1..], items + [one.item], Listed(scratch, one.item), one.files, ending);
      ts := Entry(before, fs, after, others);
    }
  }

  lemma ItemsRead(s: string, files: Files, ending: Ending) returns (gap: string, v: Shown)
    requires ParseItems(s, files, ending).result.Got?
    ensures Blank(gap) && EnvShown("items", v)
    ensures s == gap + SpellShown(v, ParseItems(s, files, ending).result.rest)
  {
    gap := ExpectRead(s, '[', ending);
    var t := Expect(s, '[', ending).rest;
    var inner := SpaceRead(t, ending);
    var u := SkipSpace(t, ending).rest;
    assert u == [u[0]] + u[1..];
    if u[0] == ']' {
      v := List(inner, Empty);
    } else {
      var ts := ItemsLoopRead(u, [], [], files, ending);
      v := List(inner, ts);
    }
  }

  // ---------------------------------------------------------------- the envelope

  lemma VersionRead(s: string, ending: Ending) returns (gap: string, v: Shown)
    requires IntValue(s, ending).Got?
    ensures Blank(gap) && EnvShown("version", v) && s == gap + SpellShown(v, IntValue(s, ending).rest)
  {
    gap := SpaceRead(s, ending);
    var run, u := RunOfDigits(SkipSpace(s, ending).rest, s, ending);
    var tail := TailRead(u);
    AtoiIsRun(run);
    v := Int(run, tail);
  }

  lemma RunOfDigits(t: string, s: string, ending: Ending) returns (run: string, u: string)
    requires IntValue(s, ending).Got? && SkipSpace(s, ending).Got? && t == SkipSpace(s, ending).rest
    ensures t == run + u && Atoi(run).Some? && IntValue(s, ending).rest == PastFraction(u)
  {
    var n := Span(t, Signed);
    run, u := t[..n], t[n..];
  }

  lemma TailRead(u: string) returns (tail: string)
    ensures u == tail + PastFraction(u)
    ensures tail != "" ==> (tail[0] == '.' || tail[0] == 'e' || tail[0] == 'E') && forall c <- tail[1..] :: SignChar(c)
  {
    tail := u[..|u| - |PastFraction(u)|];
    if PastFraction(u) != u {
      var n := Span(u[1..], Signed);
      assert tail[1..] == u[1..][..n];
    }
  }

  lemma {:induction false} DecimalIsDigits(s: string)
    requires Decimal(s).Some?
    ensures forall c <- s :: '0' <= c <= '9'
  {
    if s != "" {
      DecimalIsDigits(s[..|s| - 1]);
      assert s == s[..|s| - 1] + [s[|s| - 1]];
    }
  }

  lemma AtoiIsRun(run: string)
    requires Atoi(run).Some?
    ensures IntRun(run)
  {
    var digits := if run[0] == '-' || run[0] == '+' then run[1..] else run;
    DecimalIsDigits(digits);
  }

  lemma EnvMemberRead(name: string, s: string, env: Env, scratch: seq<nat>, files: Files, ending: Ending)
    returns (gap: string, v: Shown)
    requires EnvMember(name, s, env, scratch, files, ending).result.Got?
    ensures Blank(gap) && EnvShown(name, v)
    ensures s == gap + SpellShown(v, EnvMember(name, s, env, scratch, files, ending).result.rest)
  {
    if name == "version" {
      gap, v := VersionRead(s, ending);
    } else if name == "sender" {
      gap, v := TextRead(s, ending);
    } else if name == "channel" {
      gap, v := TextOrNullRead(s, ending);
    } else if name == "items" {
      gap, v := ItemsRead(s, files, ending);
    } else {
      gap, v := PassedRead(s, ending);
    }
  }

  lemma {:induction false} EnvFieldsRead(s: string, env: Env, scratch: seq<nat>, files: Files, first: bool,
                                         ending: Ending)
    returns (fs: Fields)
    requires EnvLoop(s, env, scratch, files, first, ending).result.Got?
    ensures EnvFields(fs) && s == SpellFields(fs, first, EnvLoop(s, env, scratch, files, first, ending).result.rest)
    decreases |s|
  {
    if NextKey(s, first, ending).EndOfObject? {
      var ws := EndRead(s, first, ending);
      fs := Brace(ws);
    } else {
      var Key(name, t) := NextKey(s, first, ending);
      var lead := KeyRead(s, first, ending);
      var gap, v := EnvMemberRead(name, t, env, scratch, files, ending);
      var st := EnvMember(name, t, env, scratch, files, ending);
      var others := EnvFieldsRead(st.result.rest, st.env, st.scratch, st.files, false, ending);
      fs := Field(lead, gap, v, others);
    }
  }

  /** Every body that is accepted, whatever it holds, is a text of this grammar. */
  lemma AcceptedIsEnvelope(s: string, files: Files, ending: Ending) returns (ws: string, fs: Fields)
    requires ParseEnvelope(s, files, ending).result.Got?
    ensures Blank(ws) && EnvFields(fs)
    ensures s == ws + ("{" + SpellFields(fs, true, ParseEnvelope(s, files, ending).result.rest))
  {
    ws := ExpectRead(s, '{', ending);
    fs := EnvFieldsRead(Expect(s, '{', ending).rest, BLANK_ENV, [], files, true, ending);
  }
}
