/**
  A body that is cut and one that ends: the same bytes give the same outcome, but that an
  error at the end of what there is tells which of the two it was.
*/
module EnvelopeEndings {
  import opened ByteStream
  import opened JsonString
  import opened JsonText
  import opened JsonScan
  import opened JsonValues
  import opened Envelope

  /** The outcome on a cut source, and that of the same bytes followed by their end. */
  ghost predicate Same<T>(cut: Parsed<T>, end: Parsed<T>) {
    end != Failed(Transport) && (cut == end || (cut == Failed(Transport) && end.Failed?))
  }

  // ---------------------------------------------------------------- white space and strings

  lemma SpaceSame(s: string)
    ensures Same(SkipSpace(s, Cut), SkipSpace(s, Eof))
  {
  }

  /** Nothing but white space: the body is incomplete, or the source has failed. */
  lemma BlankEnds(ws: string)
    requires Blank(ws)
    ensures SkipSpace(ws, Eof) == Failed(Incomplete) && SkipSpace(ws, Cut) == Failed(Transport)
  {
    if ws != "" {
      assert ws[0] in ws;
      BlankEnds(ws[1..]);
    }
  }

  /** Whole characters and no quote: the string is malformed, or the source has failed. */
  lemma {:induction false} OpenString(ps: seq<Piece>)
    requires ValidPieces(ps)
    ensures Unescape(SpellPieces(ps, ""), Eof) == Text(Meaning(ps), Broken(BadString))
    ensures Unescape(SpellPieces(ps, ""), Cut) == Text(Meaning(ps), Broken(Transport))
    decreases |ps|
  {
    if |ps| > 0 {
      var rest := SpellPieces(ps[1..], "");
      var head := PieceText(ps[0]);
      PieceIsToken(ps[0], rest, Eof);
      PieceIsToken(ps[0], rest, Cut);
      assert (head + rest)[|head|..] == rest;
      OpenString(ps[1..]);
    }
  }

  ghost predicate SameEnd(cut: End, end: End) {
    end != Broken(Transport) && (cut == end || (cut == Broken(Transport) && end == Broken(BadString)))
  }

  lemma {:induction false} TextSame(s: string)
    ensures var c, e := Unescape(s, Cut), Unescape(s, Eof); c.out == e.out && SameEnd(c.end, e.end)
    decreases |s|
  {
    if s != "" && NextToken(s, Eof).Output? {
      assert NextToken(s, Cut) == NextToken(s, Eof);
      TextSame(s[NextToken(s, Eof).used..]);
    } else if s != "" {
      EscapeSame(s);
    }
  }

  /** A token that is there is read, or refused, as it is; escapes know of no failing source. */
  lemma EscapeSame(s: string)
    requires s != ""
    ensures NextToken(s, Cut) == NextToken(s, Eof)
    ensures NextToken(s, Eof).Reject? ==> NextToken(s, Eof).error == BadString
  {
  }

  lemma TailSame(s: string)
    ensures Same(StringTail(s, Cut), StringTail(s, Eof))
  {
    TextSame(s);
  }

  lemma ExpectSame(s: string, want: char)
    ensures Same(Expect(s, want, Cut), Expect(s, want, Eof))
  {
    SpaceSame(s);
  }

  lemma StringSame(s: string)
    ensures Same(StringValue(s, Cut), StringValue(s, Eof))
  {
    ExpectSame(s, '"');
    var r := Expect(s, '"', Eof);
    if r.Got? {
      TailSame(r.rest);
    }
  }

  lemma NullSame(s: string)
    ensures Same(TryNull(s, Cut), TryNull(s, Eof))
  {
    SpaceSame(s);
  }

  lemma OptionalSame(s: string)
    ensures Same(StringOrNull(s, Cut), StringOrNull(s, Eof))
  {
    NullSame(s);
    var r := TryNull(s, Eof);
    if r.Got? && !r.value {
      StringSame(r.rest);
    }
  }

  // ---------------------------------------------------------------- values and keys

  lemma {:induction false} SkipSame(s: string)
    ensures Same(SkipValue(s, Cut), SkipValue(s, Eof))
    decreases |s|, 0
  {
    SpaceSame(s);
    var r := SkipSpace(s, Eof);
    if r.Got? {
      var t := r.rest;
      if t[0] == '"' {
        TailSame(t[1..]);
      } else if t[0] == '{' {
        ContainerSame(t[1..], '}');
      } else if t[0] == '[' {
        ContainerSame(t[1..], ']');
      }
    }
  }

  lemma {:induction false} ContainerSame(s: string, close: char)
    ensures Same(SkipContainer(s, close, Cut), SkipContainer(s, close, Eof))
    decreases |s|, 1
  {
    SpaceSame(s);
    var r := SkipSpace(s, Eof);
    if r.Got? {
      var t := r.rest;
      if t[0] == close {
      } else if t[0] == ',' || t[0] == ':' {
        ContainerSame(t[1..], close);
      } else {
        SkipSame(t);
        if SkipValue(t, Eof).Got? {
          ContainerSame(SkipValue(t, Eof).rest, close);
        }
      }
    }
  }

  ghost predicate SameKey(cut: KeyStep, end: KeyStep) {
    end != NoKey(Transport) && (cut == end || (cut == NoKey(Transport) && end.NoKey?))
  }

  lemma KeyAtSame(t: string)
    requires |t| > 0
    ensures SameKey(KeyAt(t, Cut), KeyAt(t, Eof))
  {
    TailSame(t[1..]);
    var r := StringTail(t[1..], Eof);
    if r.Got? {
      ExpectSame(r.rest, ':');
    }
  }

  lemma NextKeySame(s: string, first: bool)
    ensures SameKey(NextKey(s, first, Cut), NextKey(s, first, Eof))
  {
    SpaceSame(s);
    var r := SkipSpace(s, Eof);
    if r.Got? {
      var t := r.rest;
      KeyAtSame(t);
      SpaceSame(t[1..]);
      if SkipSpace(t[1..], Eof).Got? {
        KeyAtSame(SkipSpace(t[1..], Eof).rest);
      }
    }
  }

  // ---------------------------------------------------------------- items

  ghost predicate SameItem(cut: ItemStep, end: ItemStep) {
    cut.item == end.item && cut.files == end.files && Same(cut.result, end.result)
  }

  lemma PayloadSame(s: string)
    ensures Same(Payload(s, Cut), Payload(s, Eof))
  {
    TextSame(s);
  }

  lemma PayloadMemberSame(s: string, item: Item, files: Files)
    ensures SameItem(PayloadMember(s, item, files, Cut), PayloadMember(s, item, files, Eof))
  {
    NullSame(s);
    var r := TryNull(s, Eof);
    if r.Got? && !r.value {
      ExpectSame(r.rest, '"');
      var q := Expect(r.rest, '"', Eof);
      if q.Got? {
        PayloadSame(q.rest);
      }
    }
  }

  lemma ItemMemberSame(key: string, s: string, item: Item, files: Files)
    ensures SameItem(ItemMember(key, s, item, files, Cut), ItemMember(key, s, item, files, Eof))
  {
    if key == "kind" {
      StringSame(s);
    } else if key == "name" || key == "uti" || key == "mime" || key == "text" {
      OptionalSame(s);
    } else if key == "bytesB64" {
      PayloadMemberSame(s, item, files);
    } else {
      SkipSame(s);
    }
  }

  lemma {:induction false} ItemLoopSame(s: string, item: Item, files: Files, first: bool)
    ensures SameItem(ItemLoop(s, item, files, first, Cut), ItemLoop(s, item, files, first, Eof))
    decreases |s|
  {
    NextKeySame(s, first);
    match NextKey(s, first, Eof)
    case NoKey(_) =>
    case EndOfObject(_) =>
    case Key(name, t) =>
      ItemMemberSame(name, t, item, files);
      var st := ItemMember(name, t, item, files, Eof);
      if st.result.Got? {
        ItemLoopSame(st.result.rest, st.item, st.files, false);
      }
  }

  lemma ItemSame(s: string, files: Files)
    ensures SameItem(ParseItem(s, files, Cut), ParseItem(s, files, Eof))
  {
    ExpectSame(s, '{');
    var r := Expect(s, '{', Eof);
    if r.Got? {
      ItemLoopSame(r.rest, BLANK_ITEM, files, true);
    }
  }

  ghost predicate SameItems(cut: ItemsStep, end: ItemsStep) {
    && cut.items == end.items && cut.scratch == end.scratch && cut.files == end.files
    && Same(cut.result, end.result)
  }

  lemma {:induction false} ItemsLoopSame(s: string, items: seq<Item>, scratch: seq<nat>, files: Files)
    ensures SameItems(ItemsLoop(s, items, scratch, files, Cut), ItemsLoop(s, items, scratch, files, Eof))
    decreases |s|
  {
    ItemSame(s, files);
    var one := ParseItem(s, files, Eof);
    if one.result.Got? {
      SpaceSame(one.result.rest);
      var r := SkipSpace(one.result.rest, Eof);
      if r.Got? && r.rest[0] == ',' {
        ItemsLoopSame(r.rest[1..], items + [one.item], Listed(scratch, one.item), one.files);
      }
    }
  }

  lemma ItemsSame(s: string, files: Files)
    ensures SameItems(ParseItems(s, files, Cut), ParseItems(s, files, Eof))
  {
    ExpectSame(s, '[');
    var r := Expect(s, '[', Eof);
    if r.Got? {
      SpaceSame(r.rest);
      var q := SkipSpace(r.rest, Eof);
      if q.Got? {
        ItemsLoopSame(q.rest, [], [], files);
      }
    }
  }

  // ---------------------------------------------------------------- the envelope

  /** A number at the very end of a body that ends is read; the next key is what fails. */
  ghost predicate NearlySame<T>(cut: Parsed<T>, end: Parsed<T>) {
    Same(cut, end) || (cut == Failed(Transport) && end.Got? && end.rest == "")
  }

  /** A number that goes up to the cut may not be all there. */
  lemma CutNumber(run: string)
    requires run != "" && forall c <- run :: '0' <= c <= '9'
    ensures IntValue(run, Cut) == Failed(Transport)
  {
    assert run[0] in run;
    SkipNothing(run, Cut);
    assert forall i :: 0 <= i < |run| ==> run[i] in run;
    SpanIs(run, Signed, |run|);
  }

  lemma IntSame(s: string)
    ensures NearlySame(IntValue(s, Cut), IntValue(s, Eof))
  {
    SpaceSame(s);
  }

  ghost predicate SameEnv(cut: EnvStep, end: EnvStep) {
    && cut.scratch == end.scratch && cut.files == end.files && Same(cut.result, end.result)
    && (cut.result.Got? ==> cut.env == end.env)
  }

  lemma EnvMemberSame(key: string, s: string, env: Env, scratch: seq<nat>, files: Files)
    ensures var c, e := EnvMember(key, s, env, scratch, files, Cut), EnvMember(key, s, env, scratch, files, Eof);
            && c.scratch == e.scratch && c.files == e.files && NearlySame(c.result, e.result)
            && (c.result.Got? ==> c.env == e.env)
  {
    if key == "version" {
      IntSame(s);
    } else if key == "sender" {
      StringSame(s);
    } else if key == "channel" {
      OptionalSame(s);
    } else if key == "items" {
      ItemsSame(s, files);
    } else {
      SkipSame(s);
    }
  }

  lemma {:induction false} EnvLoopSame(s: string, env: Env, scratch: seq<nat>, files: Files, first: bool)
    ensures SameEnv(EnvLoop(s, env, scratch, files, first, Cut), EnvLoop(s, env, scratch, files, first, Eof))
    decreases |s|
  {
    NextKeySame(s, first);
    match NextKey(s, first, Eof)
    case NoKey(_) =>
    case EndOfObject(_) =>
    case Key(name, t) =>
      EnvMemberSame(name, t, env, scratch, files);
      var c, e := EnvMember(name, t, env, scratch, files, Cut), EnvMember(name, t, env, scratch, files, Eof);
      if c.result.Got? {
        EnvLoopSame(e.result.rest, e.env, e.scratch, e.files, false);
      } else if e.result.Got? {
        assert SkipSpace("", Eof) == Failed(Incomplete);
      }
  }

  /**
    A body that is cut and one that ends there have the same outcome and leave the same files,
    listed alike, but that what fails for want of more is a failing source if it is cut. A
    body that ends never counts as one.
   */
  lemma CutOrEnd(s: string, files: Files)
    ensures SameEnv(ParseEnvelope(s, files, Cut), ParseEnvelope(s, files, Eof))
  {
    ExpectSame(s, '{');
    var r := Expect(s, '{', Eof);
    if r.Got? {
      EnvLoopSame(r.rest, BLANK_ENV, [], files, true);
    }
  }
}
