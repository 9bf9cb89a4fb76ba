/** Quoting a path for a remote shell, against the quoting rules of POSIX, XCU sections 2.2.1 and 2.2.2. */
module ShellWord {
  import opened Basics
  import opened Strings

  // ---------------------------------------------------------------- the printer

  /** One character, as it stands between the quotes. */
  function EscapedChar(c: char): string {
    if c == '\'' then "'\\''" else [c]
  }

  /** What stands between the quotes: a quote is closed over, escaped, and opened again. */
  function Escaped(s: string): string {
    if s == "" then "" else EscapedChar(s[0]) + Escaped(s[1..])
  }

  function Quoted(s: string): string {
    "'" + Escaped(s) + "'"
  }

  method ShellQuote(s: string) returns (out: string)
    ensures out == Quoted(s)
  {
    out := "'";
    for i := 0 to |s|
      invariant out + Escaped(s[i..]) == "'" + Escaped(s)
    {
      assert s[i..][1..] == s[i + 1..];
      assert Escaped(s[i..]) == EscapedChar(s[i]) + Escaped(s[i + 1..]);
      if s[i] == '\'' {
        out := out + ['\'', '\\', '\'', '\''];
        continue;
      }
      out := out + [s[i]];
    }
    assert s[|s|..] == "";
    out := out + "'";
  }

  /**
    remoteIngestCommand: the recorded path, or the bare name where there is none. To the remote
    shell it is the program and one argument.
   */
  method RemoteIngestCommand(remoteBin: string) returns (command: string)
    ensures command == if remoteBin != "" then Quoted(remoteBin) + " ingest" else "clipbeam ingest"
    ensures '\0' !in remoteBin ==>
      Command(command) == Some([if remoteBin != "" then remoteBin else "clipbeam", "ingest"])
  {
    if remoteBin != "" {
      RemoteCommandIsTwoWords(remoteBin);
      var quoted := ShellQuote(remoteBin);
      return quoted + " ingest";
    }
    BareCommandIsTwoWords();
    command := "clipbeam ingest";
  }

  // ---------------------------------------------------------------- the splitter

  /** Characters that mean something to a shell when they are not quoted. */
  const SPECIAL := "|&;<>()$`\"*?[]#~=%!{}\n"

  predicate Blank(c: char) {
    c == ' ' || c == '\t'
  }

  function Added(word: Option<string>, s: string): Option<string> {
    Some((if word.Some? then word.value else "") + s)
  }

  /**
    The words of a simple command, given the word begun so far. None for a quote that is not
    closed, and for commands that take more of the shell than quoting and blanks.
   */
  function Words(s: string, word: Option<string>, quoted: bool): Option<seq<string>>
    decreases |s|
  {
    if |s| == 0 then
      if quoted then None else Some(if word.Some? then [word.value] else [])
    else if quoted then
      // 2.2.2: all characters up to the next quote keep their literal value
      if s[0] == '\'' then Words(s[1..], word, false) else Words(s[1..], Added(word, [s[0]]), true)
    else if Blank(s[0]) then
      match Words(s[1..], None, false)
      case None => None
      case Some(more) => Some(if word.Some? then [word.value] + more else more)
    else if s[0] == '\'' then
      Words(s[1..], Added(word, ""), true)
    else if s[0] == '\\' then
      // 2.2.1: the next character keeps its literal value; with a newline it is removed
      if |s| == 1 then None
      else if s[1] == '\n' then Words(s[2..], word, false)
      else Words(s[2..], Added(word, [s[1]]), false)
    else if s[0] in SPECIAL then None
    else Words(s[1..], Added(word, [s[0]]), false)
  }

  /** A command reaches the shell as a C string, which a NUL byte ends. */
  function CString(s: string): string {
    var i := IndexOf(s, '\0');
    if i < 0 then s else s[..i]
  }

  function Command(s: string): Option<seq<string>> {
    Words(CString(s), None, false)
  }

  /** Inside quotes an escaped string is read as itself. */
  lemma {:induction false} EscapedIsRead(s: string, w: string, k: string)
    ensures Words(Escaped(s) + k, Some(w), true) == Words(k, Some(w + s), true)
    decreases |s|
  {
    if s == "" {
      assert Escaped(s) + k == k && w + s == w;
    } else {
      var c, t := s[0], s[1..];
      EscapedIsRead(t, w + [c], k);
      assert w + [c] + t == w + s;
      CharIsRead(c, w, Escaped(t) + k);
      EscapedRegroups(s, k);
    }
  }

  lemma EscapedRegroups(s: string, k: string)
    requires s != ""
    ensures Escaped(s) + k == EscapedChar(s[0]) + (Escaped(s[1..]) + k)
  {
  }

  lemma CharIsRead(c: char, w: string, u: string)
    ensures Words(EscapedChar(c) + u, Some(w), true) == Words(u, Some(w + [c]), true)
  {
    if c == '\'' {
      QuoteIsRead(w, u);
    } else {
      assert ([c] + u)[1..] == u;
    }
  }

  /** Closing the quotes, an escaped quote, and opening them again. */
  lemma QuoteIsRead(w: string, u: string)
    ensures Words("'\\''" + u, Some(w), true) == Words(u, Some(w + "'"), true)
  {
    var s := "'\\''" + u;
    var s1 := "\\''" + u;
    var s3 := "'" + u;
    assert s[1..] == s1 && s1[2..] == s3 && s3[1..] == u;
    assert Words(s, Some(w), true) == Words(s1, Some(w), false);
    assert Words(s1, Some(w), false) == Words(s3, Some(w + "'"), false);
    assert w + "'" + "" == w + "'";
  }

  /** A character that needs no quoting. */
  predicate Plain(c: char) {
    !Blank(c) && c != '\'' && c != '\\' && c !in SPECIAL
  }

  /** Plain characters go on with a word. */
  lemma {:induction false} PlainIsRead(w: string, s: string, k: string)
    requires forall c <- s :: Plain(c)
    ensures Words(s + k, Some(w), false) == Words(k, Some(w + s), false)
    decreases |s|
  {
    if s == "" {
      assert w + s == w && s + k == k;
    } else {
      assert s[0] in s && forall c <- s[1..] :: c in s;
      PlainIsRead(w + [s[0]], s[1..], k);
      assert w + [s[0]] + s[1..] == w + s;
      assert (s + k)[1..] == s[1..] + k;
    }
  }

  lemma OpenStep(u: string)
    ensures Words("'" + u, None, false) == Words(u, Some(""), true)
  {
    assert ("'" + u)[1..] == u && "" + "" == "";
  }

  lemma CloseStep(u: string, w: string)
    ensures Words("'" + u, Some(w), true) == Words(u, Some(w), false)
  {
    assert ("'" + u)[1..] == u;
  }

  lemma BlankStep(u: string, w: string, more: seq<string>)
    requires Words(u, None, false) == Some(more)
    ensures Words(" " + u, Some(w), false) == Some([w] + more)
  {
    assert (" " + u)[1..] == u;
  }

  lemma LetterStep(c: char, u: string)
    requires Plain(c)
    ensures Words([c] + u, None, false) == Words(u, Some([c]), false)
  {
    assert ([c] + u)[1..] == u && "" + [c] == [c];
  }

  lemma IngestIsAWord()
    ensures Words("ingest", None, false) == Some(["ingest"])
  {
    assert forall c <- "ingest" :: Plain(c);
    LetterStep('i', "ngest");
    PlainIsRead("i", "ngest", "");
    assert ['i'] + "ngest" == "ingest" && "i" + "ngest" == "ingest" && "ngest" + "" == "ngest";
  }

  lemma PlainNameIsRead(c: char, t: string, u: string)
    requires Plain(c) && forall d <- t :: Plain(d)
    ensures Words([c] + (t + u), None, false) == Words(u, Some([c] + t), false)
  {
    LetterStep(c, t + u);
    PlainIsRead([c], t, u);
  }

  lemma NameAndVerb(c: char, t: string, name: string, command: string)
    requires Plain(c) && c != '\0' && forall d <- t :: Plain(d) && d != '\0'
    requires name == [c] + t && command == [c] + (t + (" " + "ingest"))
    ensures Command(command) == Some([name, "ingest"])
  {
    assert '\0' !in " " && '\0' !in "ingest";
    CutAtNul(command, "");
    PlainNameIsRead(c, t, " " + "ingest");
    IngestIsAWord();
    BlankStep("ingest", name, ["ingest"]);
    assert [name] + ["ingest"] == [name, "ingest"];
  }

  lemma BareCommandIsTwoWords()
    ensures Command("clipbeam ingest") == Some(["clipbeam", "ingest"])
  {
    assert forall d <- "lipbeam" :: Plain(d) && d != '\0';
    NameAndVerb('c', "lipbeam", "clipbeam", "clipbeam ingest");
  }

  lemma QuotedIsRead(s: string, u: string)
    ensures Words("'" + (Escaped(s) + ("'" + u)), None, false) == Words(u, Some(s), false)
  {
    OpenStep(Escaped(s) + ("'" + u));
    EscapedIsRead(s, "", "'" + u);
    assert "" + s == s;
    CloseStep(u, s);
  }

  lemma QuotedIsAWord(s: string)
    ensures Words(Quoted(s) + " ingest", None, false) == Some([s, "ingest"])
  {
    QuotedIsRead(s, " " + "ingest");
    assert Quoted(s) + " ingest" == "'" + (Escaped(s) + ("'" + (" " + "ingest")));
    IngestIsAWord();
    BlankStep("ingest", s, ["ingest"]);
    assert [s] + ["ingest"] == [s, "ingest"];
  }

  lemma {:induction false} EscapedSplits(s: string, i: nat)
    requires i <= |s|
    ensures Escaped(s) == Escaped(s[..i]) + Escaped(s[i..])
  {
    if i == 0 {
      assert s[..0] == "" && s[0..] == s;
    } else {
      EscapedSplits(s[1..], i - 1);
      assert s[1..][..i - 1] == s[..i][1..] && s[1..][i - 1..] == s[i..];
    }
  }

  lemma {:induction false} EscapedHasNoNul(s: string)
    requires '\0' !in s
    ensures '\0' !in Escaped(s)
  {
    if s != "" {
      assert s[0] in s && forall c <- s[1..] :: c in s;
      EscapedHasNoNul(s[1..]);
    }
  }

  lemma CutAtNul(s: string, t: string)
    requires '\0' !in s
    ensures CString(s) == s && CString(s + ['\0'] + t) == s
  {
    var u := s + ['\0'] + t;
    assert u[|s|] == '\0' && forall j :: 0 <= j < |s| ==> u[j] == s[j];
  }

  /**
    The remote shell sees two words, the path and "ingest", whatever bytes the path has; only
    a NUL, which no path can have, would leave a quote open.
   */
  lemma RemoteCommandIsTwoWords(s: string)
    ensures Command(Quoted(s) + " ingest") == if '\0' in s then None else Some([s, "ingest"])
  {
    var i := IndexOf(s, '\0');
    if i < 0 {
      EscapedHasNoNul(s);
      assert '\0' !in " ingest";
      CutAtNul(Quoted(s) + " ingest", "");
      QuotedIsAWord(s);
    } else {
      OpenQuote(s, i);
    }
  }

  lemma OpenQuote(s: string, i: nat)
    requires i < |s| && s[i] == '\0' && '\0' !in s[..i]
    ensures Command(Quoted(s) + " ingest") == None
  {
    var front := "'" + Escaped(s[..i]);
    EscapedSplits(s, i);
    NulStays(s[i..]);
    assert Quoted(s) + " ingest" == front + ['\0'] + (Escaped(s[i..][1..]) + "' ingest");
    EscapedHasNoNul(s[..i]);
    CutAtNul(front, Escaped(s[i..][1..]) + "' ingest");
    UnclosedIsNone(s[..i]);
  }

  lemma NulStays(s: string)
    requires s != "" && s[0] == '\0'
    ensures Escaped(s) == ['\0'] + Escaped(s[1..])
  {
  }

  lemma UnclosedIsNone(a: string)
    ensures Words("'" + Escaped(a), None, false) == None
  {
    OpenStep(Escaped(a));
    EscapedIsRead(a, "", "");
    assert Escaped(a) + "" == Escaped(a);
  }
}
