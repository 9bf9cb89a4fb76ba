/** The forward JSON helpers of the /clip parser: each specification, then its method. */
module JsonScan {
  import opened Basics
  import opened ByteStream
  import opened JsonString

  predicate Space(c: char) {
    c == ' ' || c == '\t' || c == '\n' || c == '\r'
  }

  predicate Digit(c: char) {
    '0' <= c <= '9'
  }

  /** What the version number is collected from. */
  predicate Signed(c: char) {
    Digit(c) || c == '-' || c == '+'
  }

  /** What a skipped number may consist of behind its first byte. */
  predicate Numeric(c: char) {
    Signed(c) || c == '.' || c == 'e' || c == 'E'
  }

  predicate Lower(c: char) {
    'a' <= c <= 'z'
  }

  function EndError(ending: Ending): ParseError {
    if ending == Eof then Incomplete else Transport
  }

  // ---------------------------------------------------------------- white space

  function SkipSpace(s: string, ending: Ending): (r: Parsed<()>)
    ensures r.Got? ==> 0 < |r.rest| <= |s| && !Space(r.rest[0])
  {
    if |s| == 0 then Failed(EndError(ending))
    else if Space(s[0]) then SkipSpace(s[1..], ending)
    else Got((), s)
  }

  method SkipWs(br: Reader) returns (o: Outcome<()>)
    requires br.Valid()
    modifies br
    ensures br.Valid() && Agrees(SkipSpace(old(br.Rest()), br.ending), o, br.Rest())
  {
    while true
      invariant br.Valid() && SkipSpace(br.Rest(), br.ending) == SkipSpace(old(br.Rest()), br.ending)
      decreases |br.Rest()|
    {
      var b := br.ReadByte();
      if b.None? {
        return Error(if br.ending == Eof then Incomplete else Transport);
      }
      if b.value != ' ' && b.value != '\t' && b.value != '\n' && b.value != '\r' {
        br.UnreadByte();
        return Value(());
      }
    }
  }

  /** White space, then the byte `want`. */
  function Expect(s: string, want: char, ending: Ending): (r: Parsed<()>)
    ensures r.Got? ==> |r.rest| < |s|
  {
    match SkipSpace(s, ending)
    case Failed(e) => Failed(e)
    case Got(_, t) => if t[0] == want then Got((), t[1..]) else Failed(Malformed)
  }

  method SkipWsThen(br: Reader, want: char) returns (o: Outcome<()>)
    requires br.Valid()
    modifies br
    ensures br.Valid() && Agrees(Expect(old(br.Rest()), want, br.ending), o, br.Rest())
  {
    o := SkipWs(br);
    if o.Error? {
      return;
    }
    var b := br.ReadByte();
    if b != Some(want) {
      return Error(if b.None? then Incomplete else Malformed);
    }
    return Value(());
  }

  // ---------------------------------------------------------------- strings and null

  function StringValue(s: string, ending: Ending): (r: Parsed<string>)
    ensures r.Got? ==> |r.rest| < |s|
  {
    match Expect(s, '"', ending)
    case Failed(e) => Failed(e)
    case Got(_, t) => StringTail(t, ending)
  }

  method ReadStringValue(br: Reader) returns (o: Outcome<string>)
    requires br.Valid()
    modifies br
    ensures br.Valid() && Agrees(StringValue(old(br.Rest()), br.ending), o, br.Rest())
  {
    var q := SkipWsThen(br, '"');
    if q.Error? {
      return Error(q.error);
    }
    o := ReadShortString(br);
  }

  /** Whether the next token is `null`; if not, it stays unread. */
  function TryNull(s: string, ending: Ending): (r: Parsed<bool>)
    ensures r.Got? ==> |r.rest| <= |s| && (r.value ==> |r.rest| < |s|)
  {
    match SkipSpace(s, ending)
    case Failed(e) => Failed(e)
    case Got(_, t) =>
      if t[0] != 'n' then Got(false, t)
      else if "ull" <= t[1..] then Got(true, t[1..][3..])
      else Failed(Malformed)
  }

  method TryConsumeNull(br: Reader) returns (o: Outcome<bool>)
    requires br.Valid()
    modifies br
    ensures br.Valid() && Agrees(TryNull(old(br.Rest()), br.ending), o, br.Rest())
  {
    var w := SkipWs(br);
    if w.Error? {
      return Error(w.error);
    }
    var b := br.ReadByte();
    if b.value != 'n' {
      br.UnreadByte();
      return Value(false);
    }
    var same := Match(br, "ull");
    return if same then Value(true) else Error(Malformed);
  }

  /** Take bytes as long as they are those of `word`. */
  method Match(br: Reader, word: string) returns (same: bool)
    requires br.Valid()
    modifies br
    ensures br.Valid() && (same <==> word <= old(br.Rest()))
    ensures same ==> br.Rest() == old(br.Rest())[|word|..]
  {
    ghost var t := br.Rest();
    for i := 0 to |word|
      invariant i <= |t| && br.Valid() && br.Rest() == t[i..] && t[..i] == word[..i]
    {
      var c := br.ReadByte();
      if c.None? {
        return false;
      }
      if c.value != word[i] {
        assert t[i] != word[i];
        return false;
      }
    }
    return true;
  }

  function StringOrNull(s: string, ending: Ending): (r: Parsed<Option<string>>)
    ensures r.Got? ==> |r.rest| < |s|
  {
    match TryNull(s, ending)
    case Failed(e) => Failed(e)
    case Got(true, t) => Got(None, t)
    case Got(false, t) =>
      match StringValue(t, ending)
      case Failed(e) => Failed(e)
      case Got(v, u) => Got(Some(v), u)
  }

  method ReadStringOrNull(br: Reader) returns (o: Outcome<Option<string>>)
    requires br.Valid()
    modifies br
    ensures br.Valid() && Agrees(StringOrNull(old(br.Rest()), br.ending), o, br.Rest())
  {
    var n := TryConsumeNull(br);
    if n.Error? {
      return Error(n.error);
    }
    if n.value {
      return Value(None);
    }
    var v := ReadStringValue(br);
    return if v.Error? then Error(v.error) else Value(Some(v.value));
  }

  // ---------------------------------------------------------------- numbers

  /** The length of the longest prefix whose bytes all satisfy `p`. */
  function Span(s: string, p: char -> bool): (n: nat)
    ensures n <= |s| && (forall i :: 0 <= i < n ==> p(s[i])) && (n < |s| ==> !p(s[n]))
  {
    if |s| == 0 || !p(s[0]) then 0 else 1 + Span(s[1..], p)
  }

  lemma SpanIs(s: string, p: char -> bool, n: nat)
    requires n <= |s| && (forall i :: 0 <= i < n ==> p(s[i])) && (n < |s| ==> !p(s[n]))
    ensures Span(s, p) == n
  {
  }

  method SkipSpan(br: Reader, p: char -> bool) returns (run: string)
    requires br.Valid()
    modifies br
    ensures br.Valid()
    ensures var n := Span(old(br.Rest()), p); run == old(br.Rest())[..n] && br.Rest() == old(br.Rest())[n..]
  {
    ghost var s := br.Rest();
    run := "";
    while true
      invariant br.Valid() && |run| <= |s| && run == s[..|run|] && br.Rest() == s[|run|..]
      invariant forall i :: 0 <= i < |run| ==> p(s[i])
      decreases |br.Rest()|
    {
      var b := br.ReadByte();
      if b.None? {
        SpanIs(s, p, |run|);
        return;
      }
      if !p(b.value) {
        br.UnreadByte();
        SpanIs(s, p, |run|);
        return;
      }
      run := run + [b.value];
    }
  }

  /** The number a run of digits stands for, or None when it holds anything else. */
  function Decimal(s: string): (n: Option<nat>)
  {
    if |s| == 0 then Some(0)
    else if !Digit(s[|s| - 1]) then None
    else
      match Decimal(s[..|s| - 1])
      case None => None
      case Some(hi) => Some(hi * 10 + (s[|s| - 1] as int - '0' as int))
  }

  const MAX_INT := 0x7FFF_FFFF_FFFF_FFFF

  /** strconv.Atoi: an optional sign and at least one digit, within 64 bits. */
  function Atoi(s: string): Option<int> {
    var signed := |s| > 0 && (s[0] == '-' || s[0] == '+');
    var digits := if signed then s[1..] else s;
    if |digits| == 0 then None
    else
      match Decimal(digits)
      case None => None
      case Some(n) =>
        var v := if signed && s[0] == '-' then -(n as int) else n as int;
        if -MAX_INT - 1 <= v <= MAX_INT then Some(v) else None
  }

  /** What is left behind a fraction or an exponent, which is read but not kept. */
  function PastFraction(u: string): (v: string)
    ensures |v| <= |u|
  {
    if |u| > 0 && (u[0] == '.' || u[0] == 'e' || u[0] == 'E') then u[1..][Span(u[1..], Signed)..] else u
  }

  function IntValue(s: string, ending: Ending): (r: Parsed<int>)
    ensures r.Got? ==> |r.rest| < |s|
  {
    match SkipSpace(s, ending)
    case Failed(e) => Failed(e)
    case Got(_, t) =>
      var n := Span(t, Signed);
      var u := t[n..];
      if |u| == 0 && ending == Cut then Failed(Transport)
      else
        match Atoi(t[..n])
        case None => Failed(Malformed)
        case Some(x) => Got(x, PastFraction(u))
  }

  method SkipFraction(br: Reader)
    requires br.Valid()
    modifies br
    ensures br.Valid() && br.Rest() == PastFraction(old(br.Rest()))
  {
    var b := br.ReadByte();
    if b.Some? {
      if b.value == '.' || b.value == 'e' || b.value == 'E' {
        var _ := SkipSpan(br, Signed);
      } else {
        br.UnreadByte();
      }
    }
  }

  method ReadNumber(br: Reader) returns (o: Outcome<int>)
    requires br.Valid()
    modifies br
    ensures br.Valid() && Agrees(IntValue(old(br.Rest()), br.ending), o, br.Rest())
  {
    var w := SkipWs(br);
    if w.Error? {
      return Error(w.error);
    }
    var digits := SkipSpan(br, Signed);
    if br.pos == |br.data| && br.ending == Cut {
      return Error(Transport);
    }
    SkipFraction(br);
    if |digits| == 0 {
      return Error(Malformed);
    }
    var n := Atoi(digits);
    return if n.None? then Error(Malformed) else Value(n.value);
  }

  // ---------------------------------------------------------------- whole values

  /** One value of any kind. */
  function SkipValue(s: string, ending: Ending): (r: Parsed<()>)
    ensures r.Got? ==> |r.rest| < |s|
    decreases |s|, 0
  {
    match SkipSpace(s, ending)
    case Failed(e) => Failed(e)
    case Got(_, t) =>
      if t[0] == '"' then
        match StringTail(t[1..], ending)
        case Failed(e) => Failed(e)
        case Got(_, u) => Got((), u)
      else if t[0] == '{' then SkipContainer(t[1..], '}', ending)
      else if t[0] == '[' then SkipContainer(t[1..], ']', ending)
      else if t[0] == 't' || t[0] == 'f' || t[0] == 'n' then
        Got((), t[1..][Span(t[1..], Lower)..])
      else
        Got((), t[1..][Span(t[1..], Numeric)..])
  }

  /** What is left of a container up to and including its closing byte. */
  function SkipContainer(s: string, close: char, ending: Ending): (r: Parsed<()>)
    ensures r.Got? ==> |r.rest| < |s|
    decreases |s|, 1
  {
    match SkipSpace(s, ending)
    case Failed(e) => Failed(e)
    case Got(_, t) =>
      if t[0] == close then Got((), t[1..])
      else if t[0] == ',' || t[0] == ':' then SkipContainer(t[1..], close, ending)
      else
        match SkipValue(t, ending)
        case Failed(e) => Failed(e)
        case Got(_, u) => SkipContainer(u, close, ending)
  }

  method SkipJsonValue(br: Reader) returns (o: Outcome<()>)
    requires br.Valid()
    modifies br
    ensures br.Valid() && Agrees(SkipValue(old(br.Rest()), br.ending), o, br.Rest())
    decreases |br.Rest()|, 0
  {
    o := SkipWs(br);
    if o.Error? {
      return;
    }
    var b := br.ReadByte();
    match b.value
    case '"' =>
      var t := ReadShortString(br);
      return if t.Error? then Error(t.error) else Value(());
    case '{' =>
      o := SkipJsonContainer(br, '}');
    case '[' =>
      o := SkipJsonContainer(br, ']');
    case 't' | 'f' | 'n' =>
      var _ := SkipSpan(br, Lower);
      return Value(());
    case _ =>
      var _ := SkipSpan(br, Numeric);
      return Value(());
  }

  method SkipJsonContainer(br: Reader, close: char) returns (o: Outcome<()>)
    requires br.Valid()
    modifies br
    ensures br.Valid() && Agrees(SkipContainer(old(br.Rest()), close, br.ending), o, br.Rest())
    decreases |br.Rest()|, 1
  {
    while true
      invariant br.Valid() && |br.Rest()| <= |old(br.Rest())|
      invariant SkipContainer(br.Rest(), close, br.ending) == SkipContainer(old(br.Rest()), close, br.ending)
      decreases |br.Rest()|
    {
      o := SkipWs(br);
      if o.Error? {
        return;
      }
      var b := br.ReadByte();
      if b.value == close {
        return Value(());
      }
      if b.value == ',' || b.value == ':' {
        continue;
      }
      br.UnreadByte();
      o := SkipJsonValue(br);
      if o.Error? {
        return;
      }
    }
  }
}
