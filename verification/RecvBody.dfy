/** The labelled body of /recv: its printer, its parser, and the correlation token in its text. */
module RecvBody {
  import opened Basics
  import opened Strings
  import opened Wire

  const NEWLINE := "\n"

  /** recvBodyString */
  function Print(i: AgentItem): string {
    "type: " + i.kind + "\nsender: " + i.sender
    + (if i.path.Some? then "\npath: " + i.path.value else "")
    + (if i.text.Some? then "\ntext: " + i.text.value else "")
  }

  datatype RecvItem = RecvItem(kind: string, sender: string, path: string, text: string, hasText: bool, cid: string)

  const NOTHING := RecvItem("", "", "", "", false, "")

  /** The key before the first colon, and the value behind it without one leading space. */
  function SplitFirstColon(line: string): (string, string) {
    var i := IndexOf(line, ':');
    if i < 0 then ("", line)
    else
      var value := line[i + 1..];
      (line[..i], if |value| > 0 && value[0] == ' ' then value[1..] else value)
  }

  const CID_OPEN := "[clipbeam:cid="

  lemma TokenEndsBehindItsOpening(text: string)
    requires CID_OPEN <= text
    ensures IndexOf(text, ']') >= 0 ==> IndexOf(text, ']') >= |CID_OPEN|
  {
    assert ']' !in CID_OPEN;
    assert forall i :: 0 <= i < |CID_OPEN| ==> text[i] == CID_OPEN[i] && CID_OPEN[i] in CID_OPEN;
  }

  /** A token in front of the text, up to the first bracket that closes, and one space behind it. */
  function ExtractCid(text: string): (string, string) {
    var end := IndexOf(text, ']');
    if !(CID_OPEN <= text) || end < 0 then (text, "")
    else
      TokenEndsBehindItsOpening(text);
      var clean := text[end + 1..];
      (if |clean| > 0 && clean[0] == ' ' then clean[1..] else clean, text[|CID_OPEN|..end])
  }

  function PrependCid(cid: string, text: string): string {
    CID_OPEN + cid + "]" + " " + text
  }

  /** A line of the body, and what is behind its newline. */
  function FirstLine(s: string): (string, string) {
    var nl := IndexOf(s, '\n');
    if nl < 0 then (s, "") else (s[..nl], s[nl + 1..])
  }

  /** The item with one more line; a text takes all that is behind its line. */
  function WithLine(it: RecvItem, key: string, value: string, rest: string): RecvItem {
    if key == "type" then it.(kind := value)
    else if key == "sender" then it.(sender := value)
    else if key == "path" then it.(path := value)
    else if key == "text" then it.(hasText := true, text := if rest != "" then value + NEWLINE + rest else value)
    else it
  }

  function ParseLines(it: RecvItem, s: string): RecvItem
    decreases |s|
  {
    var (line, rest) := FirstLine(s);
    var (key, value) := SplitFirstColon(line);
    var next := WithLine(it, key, value, rest);
    if key == "text" || rest == "" then next else ParseLines(next, rest)
  }

  function Finish(it: RecvItem): RecvItem {
    if it.hasText then
      var (clean, cid) := ExtractCid(it.text);
      it.(text := clean, cid := cid)
    else it
  }

  function Parse(body: string): RecvItem {
    Finish(ParseLines(NOTHING, body))
  }

  method ParseRecvBody(body: string) returns (it: RecvItem)
    ensures it == Parse(body)
  {
    it := NOTHING;
    var rest := body;
    while true
      invariant ParseLines(it, rest) == ParseLines(NOTHING, body)
      decreases |rest|
    {
      var nl := IndexOf(rest, '\n');
      var line;
      if nl < 0 {
        line := rest;
        rest := "";
      } else {
        line := rest[..nl];
        rest := rest[nl + 1..];
      }
      var (key, value) := SplitFirstColon(line);
      if key == "type" {
        it := it.(kind := value);
      } else if key == "sender" {
        it := it.(sender := value);
      } else if key == "path" {
        it := it.(path := value);
      } else if key == "text" {
        it := it.(hasText := true, text := if rest != "" then value + NEWLINE + rest else value);
        rest := "";
      }
      if rest == "" {
        break;
      }
    }
    if it.hasText {
      var (clean, cid) := ExtractCid(it.text);
      it := it.(text := clean, cid := cid);
    }
  }

  // ---------------------------------------------------------------- the round trip

  predicate OneLine(s: string) {
    '\n' !in s
  }

  /** The text's only newline is its last byte. */
  predicate EndsInItsOnlyNewline(text: string) {
    text != "" && text[|text| - 1] == '\n' && OneLine(text[..|text| - 1])
  }

  /** The text without that newline. */
  function Kept(text: string): string {
    if EndsInItsOnlyNewline(text) then text[..|text| - 1] else text
  }

  /** What an item comes to on the other side. */
  function Expected(i: AgentItem): RecvItem {
    RecvItem(i.kind, i.sender, if i.path.Some? then i.path.value else "",
             if i.text.Some? then i.text.value else "", i.text.Some?, "")
  }

  predicate HasToken(text: string) {
    CID_OPEN <= text && ']' in text
  }

  lemma IndexIs(s: string, c: char, t: string)
    requires c !in s
    ensures IndexOf(s + [c] + t, c) == |s| && IndexOf(s, c) == -1
  {
    var u := s + [c] + t;
    assert u[|s|] == c && forall j :: 0 <= j < |s| ==> u[j] == s[j];
  }

  lemma LabelledLine(key: string, value: string)
    requires ':' !in key
    ensures SplitFirstColon(key + ": " + value) == (key, value)
  {
    var line := key + ": " + value;
    assert line == key + [':'] + (" " + value);
    IndexIs(key, ':', " " + value);
    assert line[..|key|] == key && line[|key| + 1..] == " " + value && (" " + value)[1..] == value;
  }

  /** A labelled value without a newline, and a further line behind it. */
  lemma ParseLine(it: RecvItem, key: string, value: string, rest: string)
    requires key in ["type", "sender", "path"] && OneLine(value) && rest != ""
    ensures ParseLines(it, key + ": " + value + NEWLINE + rest) == ParseLines(WithLine(it, key, value, ""), rest)
  {
    var line := key + ": " + value;
    assert OneLine(line);
    IndexIs(line, '\n', rest);
    var s := line + NEWLINE + rest;
    assert s[..|line|] == line && s[|line| + 1..] == rest;
    LabelledLine(key, value);
  }

  lemma ParseLastLine(it: RecvItem, key: string, value: string)
    requires key in ["type", "sender", "path"] && OneLine(value)
    ensures ParseLines(it, key + ": " + value) == WithLine(it, key, value, "")
  {
    var line := key + ": " + value;
    assert OneLine(line);
    IndexIs(line, '\n', "");
    LabelledLine(key, value);
  }

  lemma ParseOneLineText(it: RecvItem, text: string)
    requires OneLine(text)
    ensures ParseLines(it, "text" + ": " + text) == it.(hasText := true, text := text)
  {
    var s := "text" + ": " + text;
    assert OneLine(s);
    IndexIs(s, '\n', "");
    LabelledLine("text", text);
  }

  lemma ParseTextLines(it: RecvItem, first: string, rest: string)
    requires OneLine(first)
    ensures ParseLines(it, "text" + ": " + first + NEWLINE + rest)
         == it.(hasText := true, text := if rest == "" then first else first + NEWLINE + rest)
  {
    var line := "text" + ": " + first;
    assert OneLine(line);
    IndexIs(line, '\n', rest);
    var s := line + NEWLINE + rest;
    assert s[..|line|] == line && s[|line| + 1..] == rest;
    LabelledLine("text", first);
  }

  lemma Rejoin(text: string, nl: nat)
    requires nl < |text| && text[nl] == '\n'
    ensures text == text[..nl] + NEWLINE + text[nl + 1..]
  {
  }

  lemma Regroup(a: string, b: string, c: string, d: string)
    ensures a + b + c + d == a + (b + c + d)
  {
  }

  lemma ParseText(it: RecvItem, text: string)
    ensures ParseLines(it, "text" + ": " + text) == it.(hasText := true, text := Kept(text))
  {
    var nl := IndexOf(text, '\n');
    if nl < 0 {
      ParseOneLineText(it, text);
    } else {
      Rejoin(text, nl);
      ParseTextLines(it, text[..nl], text[nl + 1..]);
      Regroup("text" + ": ", text[..nl], NEWLINE, text[nl + 1..]);
      KeptOf(text[..nl], text[nl + 1..]);
    }
  }

  lemma KeptOf(first: string, rest: string)
    requires OneLine(first)
    ensures Kept(first + NEWLINE + rest) == if rest == "" then first else first + NEWLINE + rest
  {
    var text := first + NEWLINE + rest;
    if rest == "" {
      assert text[..|text| - 1] == first;
    } else {
      assert text[..|text| - 1][|first|] == '\n';
    }
  }

  /** The lines of the body from the text on, from the path on, and from the sender on. */
  function TextLine(i: AgentItem): string {
    if i.text.Some? then "text" + ": " + i.text.value else ""
  }

  function PathLines(i: AgentItem): string {
    if i.path.None? then TextLine(i)
    else "path" + ": " + i.path.value + if i.text.Some? then NEWLINE + TextLine(i) else ""
  }

  function SenderLines(i: AgentItem): string {
    "sender" + ": " + i.sender + if i.path.Some? || i.text.Some? then NEWLINE + PathLines(i) else ""
  }

  lemma PrintIsLines(i: AgentItem)
    ensures Print(i) == "type" + ": " + i.kind + NEWLINE + SenderLines(i)
  {
    assert "\nsender: " == NEWLINE + ("sender" + ": ");
    assert "\npath: " == NEWLINE + ("path" + ": ");
    assert "\ntext: " == NEWLINE + ("text" + ": ");
    assert "type: " == "type" + ": ";
    var front := "type: " + i.kind + "\nsender: " + i.sender;
    assert front == "type" + ": " + i.kind + NEWLINE + ("sender" + ": " + i.sender);
    PathAndText(i);
  }

  /** A value behind a newline and its key. */
  lemma Prefixed(v: string)
    ensures "\npath: " + v == NEWLINE + ("path" + ": " + v)
    ensures "\ntext: " + v == NEWLINE + ("text" + ": " + v)
  {
  }

  lemma TwoLines(a: string, b: string)
    ensures (NEWLINE + a) + (NEWLINE + b) == NEWLINE + (a + (NEWLINE + b))
  {
  }

  lemma PathAndText(i: AgentItem)
    ensures (if i.path.Some? then "\npath: " + i.path.value else "")
            + (if i.text.Some? then "\ntext: " + i.text.value else "")
         == if i.path.Some? || i.text.Some? then NEWLINE + PathLines(i) else ""
  {
    if i.path.Some? {
      Prefixed(i.path.value);
    }
    if i.text.Some? {
      Prefixed(i.text.value);
      if i.path.Some? {
        TwoLines("path" + ": " + i.path.value, TextLine(i));
      }
    }
  }

  lemma ParseTextLine(it: RecvItem, i: AgentItem)
    requires i.text.Some?
    ensures ParseLines(it, TextLine(i)) == it.(hasText := true, text := Kept(i.text.value))
  {
    ParseText(it, i.text.value);
  }

  /** The text as it is parsed, before a token is taken off. */
  function WithText(it: RecvItem, i: AgentItem): RecvItem {
    if i.text.Some? then it.(hasText := true, text := Kept(i.text.value)) else it
  }

  lemma PathLinesStart(i: AgentItem)
    requires i.path.Some? || i.text.Some?
    ensures PathLines(i) != ""
  {
  }

  lemma PathLinesAre(i: AgentItem)
    requires i.path.Some?
    ensures PathLines(i) == if i.text.Some? then "path" + ": " + i.path.value + NEWLINE + TextLine(i)
                            else "path" + ": " + i.path.value
  {
  }

  lemma ParsePathLine(it: RecvItem, i: AgentItem)
    requires i.path.Some? && OneLine(i.path.value)
    ensures ParseLines(it, PathLines(i)) == WithText(it.(path := i.path.value), i)
  {
    PathLinesAre(i);
    if i.text.Some? {
      ParseLine(it, "path", i.path.value, TextLine(i));
      ParseTextLine(it.(path := i.path.value), i);
    } else {
      ParseLastLine(it, "path", i.path.value);
    }
  }

  lemma ParsePathLines(it: RecvItem, i: AgentItem)
    requires (i.path.Some? && OneLine(i.path.value)) || (i.path.None? && i.text.Some?)
    ensures ParseLines(it, PathLines(i)) == WithText(if i.path.Some? then it.(path := i.path.value) else it, i)
  {
    if i.path.Some? {
      ParsePathLine(it, i);
    } else {
      ParseTextLine(it, i);
    }
  }

  lemma SenderLinesAre(i: AgentItem)
    ensures SenderLines(i) == if i.path.Some? || i.text.Some? then "sender" + ": " + i.sender + NEWLINE + PathLines(i)
                              else "sender" + ": " + i.sender
  {
  }

  lemma ParseSenderLines(it: RecvItem, i: AgentItem)
    requires OneLine(i.sender) && (i.path.Some? ==> OneLine(i.path.value))
    ensures ParseLines(it, SenderLines(i))
         == var s := it.(sender := i.sender); WithText(if i.path.Some? then s.(path := i.path.value) else s, i)
  {
    SenderLinesAre(i);
    if i.path.Some? || i.text.Some? {
      ParsePathLines(it.(sender := i.sender), i);
      PathLinesStart(i);
      ParseLine(it, "sender", i.sender, PathLines(i));
    } else {
      ParseLastLine(it, "sender", i.sender);
    }
  }

  predicate Printable(i: AgentItem) {
    OneLine(i.kind) && OneLine(i.sender) && (i.path.Some? ==> OneLine(i.path.value))
  }

  /** What a printed item is parsed to: a final lone newline and a leading token are taken off its text. */
  lemma ParsePrinted(i: AgentItem)
    requires Printable(i)
    ensures Parse(Print(i))
         == if i.text.None? then Expected(i)
            else Expected(i).(text := ExtractCid(Kept(i.text.value)).0, cid := ExtractCid(Kept(i.text.value)).1)
  {
    PrintIsLines(i);
    ParseLine(NOTHING, "type", i.kind, SenderLines(i));
    ParseSenderLines(NOTHING.(kind := i.kind), i);
  }

  lemma TokenIff(text: string)
    ensures ExtractCid(text) == (text, "") <==> !HasToken(text)
  {
    assert ']' in text ==> IndexOf(text, ']') >= 0;
  }

  /**
    The parsed item is the printed one if and only if its text neither ends in its only
    newline nor starts with a token.
   */
  lemma RoundTripIff(i: AgentItem)
    requires Printable(i)
    ensures Parse(Print(i)) == Expected(i)
       <==> (i.text.Some? ==> !EndsInItsOnlyNewline(i.text.value) && !HasToken(i.text.value))
  {
    ParsePrinted(i);
    if i.text.Some? {
      TokenIff(Kept(i.text.value));
      ExtractIsNoLonger(Kept(i.text.value));
    }
  }

  lemma ExtractIsNoLonger(text: string)
    ensures |ExtractCid(text).0| <= |text|
  {
  }

  lemma TokenText(cid: string, text: string)
    ensures PrependCid(cid, text) == "[clipbeam:cid=" + cid + "] " + text
  {
    assert CID_OPEN + cid + "]" + " " == "[clipbeam:cid=" + cid + "] ";
  }

  /** A token without a bracket of its own is taken off with the space behind it; another is cut short. */
  lemma ExtractPrepended(cid: string, text: string)
    ensures ']' !in cid ==> ExtractCid(PrependCid(cid, text)) == (text, cid)
    ensures ']' in cid ==> |ExtractCid(PrependCid(cid, text)).1| < |cid|
  {
    assert CID_OPEN <= PrependCid(cid, text);
    TokenEndsBehindItsOpening(PrependCid(cid, text));
    if ']' !in cid {
      PrependedSplits(cid, text);
      assert (" " + text)[1..] == text;
    } else {
      BracketInside(cid, text);
    }
  }

  lemma BracketInside(cid: string, text: string)
    requires ']' in cid
    ensures IndexOf(PrependCid(cid, text), ']') < |CID_OPEN| + |cid|
  {
    var k := IndexOf(cid, ']');
    assert PrependCid(cid, text)[|CID_OPEN| + k] == ']';
  }

  lemma PrependedSplits(cid: string, text: string)
    requires ']' !in cid
    ensures IndexOf(PrependCid(cid, text), ']') == |CID_OPEN| + |cid|
    ensures PrependCid(cid, text)[|CID_OPEN|..|CID_OPEN| + |cid|] == cid
    ensures PrependCid(cid, text)[|CID_OPEN| + |cid| + 1..] == " " + text
  {
    assert ']' !in CID_OPEN;
    assert PrependCid(cid, text) == (CID_OPEN + cid) + [']'] + (" " + text);
    IndexIs(CID_OPEN + cid, ']', " " + text);
  }

  lemma KeptPrepended(cid: string, text: string)
    requires EndsInItsOnlyNewline(PrependCid(cid, text))
    ensures text != "" && Kept(PrependCid(cid, text)) == PrependCid(cid, text[..|text| - 1])
  {
    var s := PrependCid(cid, text);
    assert s[|s| - 1] == if text == "" then ' ' else text[|text| - 1];
    assert s[..|s| - 1] == PrependCid(cid, text[..|text| - 1]);
  }

  /** A text with a token comes back as the two it was made of. */
  lemma CidRoundTripIff(i: AgentItem, cid: string, text: string)
    requires Printable(i) && i.text == Some(PrependCid(cid, text))
    ensures Parse(Print(i)) == Expected(i).(text := text, cid := cid)
       <==> ']' !in cid && !EndsInItsOnlyNewline(PrependCid(cid, text))
  {
    ParsePrinted(i);
    if EndsInItsOnlyNewline(PrependCid(cid, text)) {
      KeptPrepended(cid, text);
      ExtractPrepended(cid, text[..|text| - 1]);
    } else {
      ExtractPrepended(cid, text);
    }
  }
}
