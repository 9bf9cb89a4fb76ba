/**
  Which documents the parser refuses: of the well-formed ones, exactly those that are no
  envelopes, and of payloads, all that are not base64.
*/
module EnvelopeRefused {
  import opened Basics
  import opened ByteStream
  import opened JsonString
  import opened JsonText
  import opened JsonScan
  import opened JsonValues
  import opened Envelope
  import opened EnvelopeText
  import opened EnvelopeMeaning
  import opened Base64
  import opened Base64Stream

  // ---------------------------------------------------------------- the first byte of a value

  lemma FirstTells(v: Value, k: string)
    requires Valid(v)
    ensures var c := Spell(v, k)[0];
            && (c == '"' <==> v.String?) && (c == '[' <==> v.Array?) && (c == '{' <==> v.Object?)
            && (c == 'n' <==> v.Null?) && (Signed(c) <==> v.Num?)
  {
    if v.Num? {
      IntTextIsSigned(v.number);
      IntThenTail(v.number, k);
      assert IntText(v.number)[0] in IntText(v.number);
    }
  }

  lemma OtherStart(gap: string, v: Value, k: string, ending: Ending)
    requires Blank(gap) && Valid(v)
    ensures SkipSpace(gap + Spell(v, k), ending) == Got((), Spell(v, k)) && Spell(v, k) != ""
  {
    FirstByte(v, k);
    SkipBlank(gap, Spell(v, k), ending);
    SkipNothing(Spell(v, k), ending);
  }

  lemma NoString(gap: string, v: Value, k: string, ending: Ending)
    requires Blank(gap) && Valid(v) && !v.String?
    ensures StringValue(gap + Spell(v, k), ending).Failed?
    ensures Expect(gap + Spell(v, k), '"', ending).Failed?
  {
    FirstTells(v, k);
    OtherStart(gap, v, k, ending);
  }

  lemma NoNull(gap: string, v: Value, k: string, ending: Ending)
    requires Blank(gap) && Valid(v) && !v.Null?
    ensures TryNull(gap + Spell(v, k), ending) == Got(false, Spell(v, k))
  {
    FirstTells(v, k);
    OtherStart(gap, v, k, ending);
  }

  lemma NoText(gap: string, v: Value, k: string, ending: Ending)
    requires Blank(gap) && Valid(v) && !TextOrNull(v)
    ensures StringOrNull(gap + Spell(v, k), ending).Failed?
  {
    NoNull(gap, v, k, ending);
    NoString("", v, k, ending);
    assert "" + Spell(v, k) == Spell(v, k);
  }

  // ---------------------------------------------------------------- items

  lemma NoPayload(gap: string, v: Value, k: string, item: Item, files: Files, ending: Ending)
    requires Blank(gap) && Valid(v) && !v.Null? && !Base64Text(v)
    ensures PayloadMember(gap + Spell(v, k), item, files, ending).result.Failed?
  {
    NoNull(gap, v, k, ending);
    var s := Spell(v, k);
    assert "" + s == s;
    if v.String? {
      SkipNothing(s, ending);
      assert s[1..] == SpellPieces(v.pieces, "\"" + k);
      UnescapeSpelled(v.pieces, k, ending);
    } else {
      NoString("", v, k, ending);
    }
  }

  lemma ItemMemberRefused(key: string, gap: string, v: Value, k: string, item: Item, files: Files, ending: Ending)
    requires Blank(gap) && Valid(v) && !ItemMemberOk(key, v)
    ensures ItemMember(key, gap + Spell(v, k), item, files, ending).result.Failed?
  {
    if key == "kind" {
      NoString(gap, v, k, ending);
    } else if key == "bytesB64" {
      NoPayload(gap, v, k, item, files, ending);
    } else {
      NoText(gap, v, k, ending);
    }
  }

  /** The members from one on: what its value comes to decides, or the members behind it. */
  lemma {:induction false} ItemGoesOn(s: string, ms: Members, item: Item, files: Files, first: bool, k: string,
                                      ending: Ending)
    requires ValidMembers(ms) && ms.Member? && !ItemOk(ms)
    requires var rest := ms.gap + Spell(ms.value, Remaining(ms.others, ms.after, k));
             NextKey(s, first, ending) == Key(Meaning(ms.key), rest)
    ensures ItemLoop(s, item, files, first, ending).result.Failed?
    decreases ms, 0
  {
    var rest := Remaining(ms.others, ms.after, k);
    if ItemMemberOk(Meaning(ms.key), ms.value) {
      RemainingEnds(ms.others, ms.after, k);
      ItemMemberSpelled(Meaning(ms.key), ms.gap, ms.value, rest, item, files, ending);
      var (i, f) := ApplyItem(Meaning(ms.key), ms.value, item, files);
      ItemRestRefused(ms.others, ms.after, i, f, k, ending);
    } else {
      ItemMemberRefused(Meaning(ms.key), ms.gap, ms.value, rest, item, files, ending);
    }
  }

  lemma {:induction false} ItemRestRefused(ms: Members, after: string, item: Item, files: Files, k: string,
                                           ending: Ending)
    requires ValidMembers(ms) && !ItemOk(ms) && Blank(after)
    ensures ItemLoop(Remaining(ms, after, k), item, files, false, ending).result.Failed?
    decreases ms, 1
  {
    var rest := ms.gap + Spell(ms.value, Remaining(ms.others, ms.after, k));
    MembersText(ms, k);
    NextKeySpelled(after, ms.before, ms.key, ms.mid, rest, ending);
    ItemGoesOn(Remaining(ms, after, k), ms, item, files, false, k, ending);
  }

  lemma ItemRefused(ws: string, v: Value, files: Files, k: string, ending: Ending)
    requires Blank(ws) && Valid(v) && !IsItem(v)
    ensures ParseItem(ws + Spell(v, k), files, ending).result.Failed?
  {
    OtherStart(ws, v, k, ending);
    FirstTells(v, k);
    if v.Object? {
      var ms := v.members;
      assert Spell(v, k)[1..] == SpellMembers(ms, "}" + k);
      MembersText(ms, k);
      KeySpelled(ms.before, ms.key, ms.mid, ms.gap + Spell(ms.value, Remaining(ms.others, ms.after, k)), ending);
      ItemGoesOn(SpellMembers(ms, "}" + k), ms, BLANK_ITEM, files, true, k, ending);
    }
  }

  lemma {:induction false} ItemsLoopRefused(es: Elements, items: seq<Item>, scratch: seq<nat>, files: Files,
                                            k: string, ending: Ending)
    requires es.Element? && ValidElements(es) && !ItemsOk(es)
    ensures ItemsLoop(SpellElements(es, "]" + k), items, scratch, files, ending).result.Failed?
    decreases es
  {
    var next := if es.others.Element? then SpellElements(es.others, "]" + k) else "]" + k;
    var beyond := Then(es.others.Element?, next);
    if IsItem(es.value) {
      ItemSpelled(es.before, es.value, files, es.after + beyond, ending);
      var (i, f) := ItemFrom(es.value, files);
      SkipBlank(es.after, beyond, ending);
      SkipNothing(beyond, ending);
      assert beyond[1..] == next;
      ItemsLoopRefused(es.others, items + [i], Listed(scratch, i), f, k, ending);
    } else {
      ItemRefused(es.before, es.value, files, es.after + beyond, ending);
    }
  }

  lemma ItemsRefused(ws: string, v: Value, files: Files, k: string, ending: Ending)
    requires Blank(ws) && Valid(v) && !(v.Array? && ItemsOk(v.elements))
    ensures ParseItems(ws + Spell(v, k), files, ending).result.Failed?
  {
    OtherStart(ws, v, k, ending);
    FirstTells(v, k);
    if v.Array? {
      var es := v.elements;
      var t := SpellElements(es, "]" + k);
      assert Spell(v, k)[1..] == t;
      ArrayStart(es, k, ending);
      ItemsLoopRefused(es.(before := ""), [], [], files, k, ending);
    }
  }

  /** The white space in front of the first element is skipped before the loop. */
  lemma ArrayStart(es: Elements, k: string, ending: Ending)
    requires es.Element? && ValidElements(es)
    ensures var s := SpellElements(es.(before := ""), "]" + k);
            s != "" && s[0] != ']' && SkipSpace(SpellElements(es, "]" + k), ending) == Got((), s)
  {
    var tail := es.after + Then(es.others.Element?, SpellElements(es.others, "]" + k));
    FirstByte(es.value, tail);
    assert "" + Spell(es.value, tail) == Spell(es.value, tail);
    SkipBlank(es.before, Spell(es.value, tail), ending);
    SkipNothing(Spell(es.value, tail), ending);
  }

  // ---------------------------------------------------------------- payloads of any text

  /**
    Whatever is behind its opening quote: a payload that ends inside a group of four, holds a
    character that is no symbol, or does not end, is refused. Its scratch file is abandoned.
   */
  lemma BadPayloadIsRefused(s: string, item: Item, files: Files, ending: Ending)
    requires var t := Unescape(s, ending);
             t.end.Broken? || |DropBreaks(t.out)| % 4 != 0 || exists c :: c in DropBreaks(t.out) && !Known(c)
    ensures var st := PayloadMember("\"" + s, item, files, ending);
            st.result.Failed? && st.files == files + [None] && st.item.scratch == Some(|files|)
  {
    AcceptedText(Unescape(s, ending).out);
    assert ("\"" + s)[1..] == s;
    SkipNothing("\"" + s, ending);
  }

  /**
    The errors differ, and with them the reply: symbols that end inside a group are an unexpected
    end, and whole groups that are not base64 are malformed.
   */
  lemma PayloadErrors(s: string, item: Item, files: Files, ending: Ending)
    requires Unescape(s, ending).end.Closed?
    ensures var t := DropBreaks(Unescape(s, ending).out);
            var r := PayloadMember("\"" + s, item, files, ending).result;
            && (|t| % 4 != 0 && (forall c <- t :: InAlphabet(c)) ==> r == Failed(Unfinished))
            && (|t| % 4 == 0 && r.Failed? ==> r == Failed(Malformed))
  {
    RefusedText(Unescape(s, ending).out);
    assert ("\"" + s)[1..] == s;
    SkipNothing("\"" + s, ending);
  }

  // ---------------------------------------------------------------- the envelope

  /** A number that is not read ends in an error, at once or at the exponent behind its fraction. */
  lemma NoVersion(gap: string, v: Value, k: string, ending: Ending)
    requires Blank(gap) && Valid(v) && !(v.Num? && ReadableInt(v.number)) && Ends(k) && |k| > 0
    ensures var r := IntValue(gap + Spell(v, k), ending);
            r.Got? ==> r.rest != "" && (r.rest[0] == 'e' || r.rest[0] == 'E')
  {
    if v.Num? {
      NoVersionNumber(gap, v.number, k, ending);
    } else {
      OtherStart(gap, v, k, ending);
      FirstTells(v, k);
    }
  }

  lemma NoVersionNumber(gap: string, n: Number, k: string, ending: Ending)
    requires Blank(gap) && ValidNumber(n) && !ReadableInt(n) && Ends(k) && |k| > 0
    ensures var r := IntValue(gap + Spell(Num(n), k), ending);
            r.Got? ==> r.rest != "" && (r.rest[0] == 'e' || r.rest[0] == 'E')
  {
    NumberFirst(gap, n, k, ending);
    DigitsAreDecimal(n.digits);
    AtoiPlain(n);
    if n.fraction.Some? && n.exponent.Some? {
      ExponentStays(n, k);
      assert (ExponentText(n.exponent.value) + k)[0] == n.exponent.value.mark;
    }
  }

  lemma DigitsAreDecimal(s: string)
    requires forall c <- s :: '0' <= c <= '9'
    ensures Decimal(s).Some?
  {
    if s != "" {
      var t := s[..|s| - 1];
      assert s[|s| - 1] in s && forall c <- t :: c in s;
      DigitsAreDecimal(t);
    }
  }

  lemma ExponentStays(n: Number, k: string)
    requires ValidNumber(n) && n.fraction.Some? && n.exponent.Some?
    ensures PastFraction(TailText(n) + k) == ExponentText(n.exponent.value) + k
  {
    var u := ExponentText(n.exponent.value) + k;
    assert TailText(n) + k == ['.'] + n.fraction.value + u;
    RunIsPassed('.', n.fraction.value, u);
  }

  lemma EnvMemberRefused(key: string, gap: string, v: Value, k: string, env: Env, scratch: seq<nat>, files: Files,
                         ending: Ending)
    requires Blank(gap) && Valid(v) && !EnvMemberOk(key, v) && Ends(k) && |k| > 0
    ensures var r := EnvMember(key, gap + Spell(v, k), env, scratch, files, ending).result;
            r.Got? ==> r.rest != "" && (r.rest[0] == 'e' || r.rest[0] == 'E')
  {
    if key == "version" {
      NoVersion(gap, v, k, ending);
    } else if key == "sender" {
      NoString(gap, v, k, ending);
    } else if key == "channel" {
      NoText(gap, v, k, ending);
    } else {
      ItemsRefused(gap, v, files, k, ending);
    }
  }

  lemma {:induction false} EnvGoesOn(s: string, ms: Members, env: Env, scratch: seq<nat>, files: Files, first: bool,
                                     k: string, ending: Ending)
    requires ValidMembers(ms) && ms.Member? && !EnvOk(ms)
    requires var rest := ms.gap + Spell(ms.value, Remaining(ms.others, ms.after, k));
             NextKey(s, first, ending) == Key(Meaning(ms.key), rest)
    ensures EnvLoop(s, env, scratch, files, first, ending).result.Failed?
    decreases ms, 0
  {
    var rest := Remaining(ms.others, ms.after, k);
    RemainingEnds(ms.others, ms.after, k);
    if EnvMemberOk(Meaning(ms.key), ms.value) {
      EnvMemberSpelled(Meaning(ms.key), ms.gap, ms.value, rest, env, scratch, files, ending);
      var (e, l, f) := ApplyEnv(Meaning(ms.key), ms.value, env, scratch, files);
      EnvRestRefused(ms.others, ms.after, e, l, f, k, ending);
    } else {
      EnvMemberRefused(Meaning(ms.key), ms.gap, ms.value, rest, env, scratch, files, ending);
      StopsAt(s, first, Meaning(ms.key), ms.gap + Spell(ms.value, rest), env, scratch, files, ending);
    }
  }

  /** A member that fails, or has an exponent left behind it, is the last that is read. */
  lemma StopsAt(s: string, first: bool, key: string, t: string, env: Env, scratch: seq<nat>, files: Files,
                ending: Ending)
    requires NextKey(s, first, ending) == Key(key, t)
    requires var r := EnvMember(key, t, env, scratch, files, ending).result;
             r.Got? ==> r.rest != "" && (r.rest[0] == 'e' || r.rest[0] == 'E')
    ensures EnvLoop(s, env, scratch, files, first, ending).result.Failed?
  {
    var st := EnvMember(key, t, env, scratch, files, ending);
    if st.result.Got? {
      SkipNothing(st.result.rest, ending);
    }
  }

  lemma {:induction false} EnvRestRefused(ms: Members, after: string, env: Env, scratch: seq<nat>, files: Files,
                                          k: string, ending: Ending)
    requires ValidMembers(ms) && !EnvOk(ms) && Blank(after)
    ensures EnvLoop(Remaining(ms, after, k), env, scratch, files, false, ending).result.Failed?
    decreases ms, 1
  {
    var rest := ms.gap + Spell(ms.value, Remaining(ms.others, ms.after, k));
    MembersText(ms, k);
    NextKeySpelled(after, ms.before, ms.key, ms.mid, rest, ending);
    EnvGoesOn(Remaining(ms, after, k), ms, env, scratch, files, false, k, ending);
  }

  lemma DocumentRefused(ws: string, doc: Value, files: Files, k: string, ending: Ending)
    requires Blank(ws) && Valid(doc) && !IsEnvelope(doc)
    ensures ParseEnvelope(ws + Spell(doc, k), files, ending).result.Failed?
  {
    OtherStart(ws, doc, k, ending);
    FirstTells(doc, k);
    if doc.Object? {
      var ms := doc.members;
      assert Spell(doc, k)[1..] == SpellMembers(ms, "}" + k);
      MembersText(ms, k);
      KeySpelled(ms.before, ms.key, ms.mid, ms.gap + Spell(ms.value, Remaining(ms.others, ms.after, k)), ending);
      EnvGoesOn(SpellMembers(ms, "}" + k), ms, BLANK_ENV, [], files, true, k, ending);
    }
  }

  /** Of all well-formed documents, in every spelling, exactly the envelopes are accepted. */
  lemma AcceptedIff(ws: string, doc: Value, files: Files, k: string, ending: Ending)
    requires Blank(ws) && Valid(doc)
    ensures ParseEnvelope(ws + Spell(doc, k), files, ending).result.Got? <==> IsEnvelope(doc)
  {
    if IsEnvelope(doc) {
      EnvelopeSpelled(ws, doc, files, k, ending);
    } else {
      DocumentRefused(ws, doc, files, k, ending);
    }
  }
}
