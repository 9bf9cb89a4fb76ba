/**
  Whole JSON values as trees, and the proof that skipping consumes exactly one value
  of any shape, depth and spelling.
*/
module JsonValues {
  import opened Basics
  import opened ByteStream
  import opened JsonText
  import opened JsonScan

  /** A number as RFC 8259, section 6 writes it. */
  datatype Number = Number(negative: bool, digits: string, fraction: Option<string>, exponent: Option<Exponent>)

  datatype Exponent = Exponent(mark: char, sign: Option<char>, digits: string)

  datatype Value =
    | String(pieces: seq<Piece>)
    | Num(number: Number)
    | True
    | False
    | Null
    | Array(blank: string, elements: Elements)
    | Object(blank: string, members: Members)

  /** The elements of an array, each with the white space around it. */
  datatype Elements = NoElement | Element(before: string, value: Value, after: string, others: Elements)

  /** The members of an object, each with the white space around its key and its value. */
  datatype Members =
    | NoMember
    | Member(before: string, key: seq<Piece>, mid: string, gap: string, value: Value, after: string, others: Members)

  // The grammar is that of RFC 8259, written down apart from the parser's own character classes.

  predicate White(c: char) {
    c == ' ' || c == '\t' || c == '\n' || c == '\r'
  }

  ghost predicate Blank(ws: string) {
    forall c <- ws :: White(c)
  }

  ghost predicate Digits(s: string) {
    |s| > 0 && forall c <- s :: '0' <= c <= '9'
  }

  ghost predicate ValidNumber(n: Number) {
    && Digits(n.digits) && (n.digits[0] == '0' ==> |n.digits| == 1)
    && (n.fraction.Some? ==> Digits(n.fraction.value))
    && (n.exponent.Some? ==>
      var e := n.exponent.value;
      && (e.mark == 'e' || e.mark == 'E')
      && (e.sign.Some? ==> e.sign.value == '+' || e.sign.value == '-')
      && Digits(e.digits))
  }

  ghost predicate Valid(v: Value) {
    match v
    case String(ps) => ValidPieces(ps)
    case Num(n) => ValidNumber(n)
    case Array(ws, es) => Blank(ws) && ValidElements(es)
    case Object(ws, ms) => Blank(ws) && ValidMembers(ms)
    case _ => true
  }

  ghost predicate ValidElements(es: Elements) {
    es.Element? ==> Blank(es.before) && Valid(es.value) && Blank(es.after) && ValidElements(es.others)
  }

  ghost predicate ValidMembers(ms: Members) {
    ms.Member? ==>
      && Blank(ms.before) && ValidPieces(ms.key) && Blank(ms.mid)
      && Blank(ms.gap) && Valid(ms.value) && Blank(ms.after) && ValidMembers(ms.others)
  }

  // ---------------------------------------------------------------- spelling

  function NumberText(n: Number): string {
    (if n.negative then "-" else "") + n.digits
    + (if n.fraction.Some? then "." + n.fraction.value else "")
    + (if n.exponent.Some? then ExponentText(n.exponent.value) else "")
  }

  function ExponentText(e: Exponent): string {
    [e.mark] + (if e.sign.Some? then [e.sign.value] else "") + e.digits
  }

  function Spell(v: Value, k: string): string {
    match v
    case String(ps) => "\"" + SpellPieces(ps, "\"" + k)
    case Num(n) => NumberText(n) + k
    case True => "true" + k
    case False => "false" + k
    case Null => "null" + k
    case Array(ws, es) => "[" + (if es.Element? then SpellElements(es, "]" + k) else ws + ("]" + k))
    case Object(ws, ms) => "{" + (if ms.Member? then SpellMembers(ms, "}" + k) else ws + ("}" + k))
  }

  function SpellElements(es: Elements, k: string): string {
    if es.NoElement? then k
    else es.before + Spell(es.value, es.after + Then(es.others.Element?, SpellElements(es.others, k)))
  }

  function SpellMembers(ms: Members, k: string): string {
    if ms.NoMember? then k
    else ms.before + ("\"" + SpellPieces(ms.key, "\"" + (ms.mid + (":" + (ms.gap
         + Spell(ms.value, ms.after + Then(ms.others.Member?, SpellMembers(ms.others, k))))))))
  }

  /** A comma between two entries, none behind the last. */
  function Then(more: bool, k: string): string {
    if more then "," + k else k
  }

  // ---------------------------------------------------------------- skipping

  /** What may follow a value: its end shows where a number or a literal stops. */
  ghost predicate Ends(k: string) {
    |k| == 0 || White(k[0]) || k[0] == ',' || k[0] == '}' || k[0] == ']'
  }

  lemma SkipBlank(ws: string, k: string, ending: Ending)
    requires Blank(ws)
    ensures SkipSpace(ws + k, ending) == SkipSpace(k, ending)
  {
    if |ws| == 0 {
      assert ws + k == k;
    } else {
      assert (ws + k)[1..] == ws[1..] + k && ws[0] in ws;
      SkipBlank(ws[1..], k, ending);
    }
  }

  lemma SkipNothing(k: string, ending: Ending)
    requires |k| > 0 && !Space(k[0])
    ensures SkipSpace(k, ending) == Got((), k)
  {
  }

  lemma NumberIsNumeric(n: Number)
    requires ValidNumber(n)
    ensures var t := NumberText(n);
            |t| > 0 && (t[0] == '-' || Digit(t[0])) && forall c <- t :: Numeric(c)
  {
    var t := NumberText(n);
    assert n.negative ==> t[0] == '-';
    assert !n.negative ==> t[0] == n.digits[0];
    assert n.digits[0] in n.digits;
  }

  lemma SpanOfRun(t: string, k: string, p: char -> bool)
    requires |t| > 0 && (forall i :: 1 <= i < |t| ==> p(t[i])) && (|k| > 0 ==> !p(k[0]))
    ensures (t + k)[1..][Span((t + k)[1..], p)..] == k
  {
    var s := (t + k)[1..];
    assert s == t[1..] + k;
    SpanIs(s, p, |t| - 1);
  }

  lemma NumberBranch(s: string, ending: Ending)
    requires |s| > 0 && (s[0] == '-' || Digit(s[0]))
    ensures SkipValue(s, ending) == Got((), s[1..][Span(s[1..], Numeric)..])
  {
    SkipNothing(s, ending);
  }

  lemma LiteralBranch(s: string, ending: Ending)
    requires |s| > 0 && (s[0] == 't' || s[0] == 'f' || s[0] == 'n')
    ensures SkipValue(s, ending) == Got((), s[1..][Span(s[1..], Lower)..])
  {
    SkipNothing(s, ending);
  }

  lemma SkipNumber(n: Number, k: string, ending: Ending)
    requires ValidNumber(n) && Ends(k)
    ensures SkipValue(NumberText(n) + k, ending) == Got((), k)
  {
    var t := NumberText(n);
    NumberIsNumeric(n);
    SpanOfRun(t, k, Numeric);
    NumberBranch(t + k, ending);
  }

  lemma SkipLiteral(t: string, k: string, ending: Ending)
    requires |t| > 0 && (t[0] == 't' || t[0] == 'f' || t[0] == 'n')
    requires (forall c <- t :: Lower(c)) && Ends(k)
    ensures SkipValue(t + k, ending) == Got((), k)
  {
    SpanOfRun(t, k, Lower);
    LiteralBranch(t + k, ending);
  }

  /** Skipping consumes exactly the one value, and nothing of what follows it. */
  lemma {:induction false} SkipSpelled(v: Value, k: string, ending: Ending)
    requires Valid(v) && Ends(k)
    ensures SkipValue(Spell(v, k), ending) == Got((), k)
  {
    var s := Spell(v, k);
    match v {
      case String(ps) =>
        assert s[1..] == SpellPieces(ps, "\"" + k);
        UnescapeSpelled(ps, k, ending);
        SkipNothing(s, ending);
      case Num(n) => SkipNumber(n, k, ending);
      case True => SkipLiteral("true", k, ending);
      case False => SkipLiteral("false", k, ending);
      case Null => SkipLiteral("null", k, ending);
      case Array(ws, es) =>
        SkipElements(ws, es, k, ending);
        SkipNothing(s, ending);
        assert s[1..] == if es.Element? then SpellElements(es, "]" + k) else ws + ("]" + k);
      case Object(ws, ms) =>
        SkipMembers(ws, ms, k, ending);
        SkipNothing(s, ending);
        assert s[1..] == if ms.Member? then SpellMembers(ms, "}" + k) else ws + ("}" + k);
    }
  }

  /** A closing byte behind white space ends a container. */
  lemma SkipClose(ws: string, close: char, k: string, ending: Ending)
    requires Blank(ws) && (close == ']' || close == '}')
    ensures SkipContainer(ws + ([close] + k), close, ending) == Got((), k)
  {
    SkipBlank(ws, [close] + k, ending);
    SkipNothing([close] + k, ending);
  }

  /** A comma or a colon behind white space is passed over. */
  lemma SkipSeparator(ws: string, c: char, k: string, close: char, ending: Ending)
    requires Blank(ws) && (c == ',' || c == ':') && (close == ']' || close == '}')
    ensures SkipContainer(ws + ([c] + k), close, ending) == SkipContainer(k, close, ending)
  {
    SkipBlank(ws, [c] + k, ending);
    SkipNothing([c] + k, ending);
  }

  /** One value behind white space is passed over. */
  lemma SkipEntry(ws: string, v: Value, k: string, close: char, ending: Ending)
    requires Blank(ws) && (close == ']' || close == '}')
    requires SkipValue(Spell(v, k), ending) == Got((), k) && Valid(v)
    ensures SkipContainer(ws + Spell(v, k), close, ending) == SkipContainer(k, close, ending)
  {
    var s := Spell(v, k);
    SkipBlank(ws, s, ending);
    FirstByte(v, k);
    SkipNothing(s, ending);
  }

  lemma FirstByte(v: Value, k: string)
    requires Valid(v)
    ensures var s := Spell(v, k);
            |s| > 0 && !Space(s[0]) && s[0] !in ",:]}"
  {
    if v.Num? {
      NumberIsNumeric(v.number);
    }
  }

  lemma {:induction false} SkipElements(ws: string, es: Elements, k: string, ending: Ending)
    requires Blank(ws) && ValidElements(es)
    ensures SkipContainer(if es.Element? then SpellElements(es, "]" + k) else ws + ("]" + k), ']', ending) == Got((), k)
    decreases es
  {
    match es {
      case NoElement => SkipClose(ws, ']', k, ending);
      case Element(before, v, after, others) =>
        var next := if others.Element? then SpellElements(others, "]" + k) else "]" + k;
        var tail := after + Then(others.Element?, next);
        assert Ends(tail);
        SkipSpelled(v, tail, ending);
        SkipEntry(before, v, tail, ']', ending);
        if others.Element? {
          SkipSeparator(after, ',', next, ']', ending);
          SkipElements("", others, k, ending);
        } else {
          SkipClose(after, ']', k, ending);
        }
    }
  }

  lemma {:induction false} SkipMembers(ws: string, ms: Members, k: string, ending: Ending)
    requires Blank(ws) && ValidMembers(ms)
    ensures SkipContainer(if ms.Member? then SpellMembers(ms, "}" + k) else ws + ("}" + k), '}', ending) == Got((), k)
    decreases ms
  {
    match ms {
      case NoMember => SkipClose(ws, '}', k, ending);
      case Member(before, key, mid, gap, v, after, others) =>
        var next := if others.Member? then SpellMembers(others, "}" + k) else "}" + k;
        var tail := after + Then(others.Member?, next);
        assert Ends(tail);
        var rest := mid + (":" + (gap + Spell(v, tail)));
        KeyIsValue(key, rest, ending);
        SkipEntry(before, String(key), rest, '}', ending);
        SkipSeparator(mid, ':', gap + Spell(v, tail), '}', ending);
        SkipSpelled(v, tail, ending);
        SkipEntry(gap, v, tail, '}', ending);
        if others.Member? {
          SkipSeparator(after, ',', next, '}', ending);
          SkipMembers("", others, k, ending);
        } else {
          SkipClose(after, '}', k, ending);
        }
    }
  }

  /** A key is skipped like any string; nothing need end it. */
  lemma KeyIsValue(key: seq<Piece>, k: string, ending: Ending)
    requires ValidPieces(key)
    ensures SkipValue(Spell(String(key), k), ending) == Got((), k)
  {
    var s := Spell(String(key), k);
    assert s[1..] == SpellPieces(key, "\"" + k);
    UnescapeSpelled(key, k, ending);
    SkipNothing(s, ending);
  }
}
