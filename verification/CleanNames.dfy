/** What a name is cleaned to, rune by rune, apart from the functions that clean it. */
module CleanNames {
  import opened Utf8
  import opened Paths
  import opened Sanitize

  // ---------------------------------------------------------------- names as runes

  /** One step of a range over a string: a code point, or a byte that starts none. */
  datatype Glyph = Letter(cp: int) | Stray(b: char)

  /** The code points are no surrogates. */
  predicate Scalars(gs: seq<Glyph>) {
    forall i :: 0 <= i < |gs| && gs[i].Letter? ==> Scalar(gs[i].cp)
  }

  /** The name that the glyphs spell. */
  function Text(gs: seq<Glyph>): string
    requires Scalars(gs)
  {
    if |gs| == 0 then "" else (if gs[0].Letter? then EncodeRune(gs[0].cp) else [gs[0].b]) + Text(gs[1..])
  }

  /** Besides, no stray byte starts a rune with what follows it. */
  ghost predicate Spelled(gs: seq<Glyph>) {
    && Scalars(gs)
    && (|gs| > 0 ==> (gs[0].Stray? ==> DecodeRune([gs[0].b] + Text(gs[1..])).None?) && Spelled(gs[1..]))
  }

  /** Every string is some glyphs. */
  lemma {:induction false} Glyphs(s: string) returns (gs: seq<Glyph>)
    ensures Spelled(gs) && Text(gs) == s
    decreases |s|
  {
    if s == "" {
      return [];
    }
    var r := DecodeRune(s);
    var w := Width(s);
    var more := Glyphs(s[w..]);
    assert s == s[..w] + s[w..];
    if r.Some? {
      EncodeInvertsDecode(s);
      gs := [Letter(r.value.cp)] + more;
    } else {
      assert s[..1] == [s[0]];
      gs := [Stray(s[0])] + more;
    }
    assert gs[1..] == more;
  }

  /** Letters and digits of ASCII, the space, the dot, the underscore and the dash. */
  predicate Listed(cp: int) {
    || 0x41 <= cp <= 0x5A || 0x61 <= cp <= 0x7A || 0x30 <= cp <= 0x39
    || cp == 0x20 || cp == 0x2E || cp == 0x5F || cp == 0x2D
  }

  /** What stands for a glyph: a listed one for itself, and the underscore for any other. */
  function Shown(g: Glyph): char {
    if g.Letter? && Listed(g.cp) then g.cp as char else '_'
  }

  function ShownAll(gs: seq<Glyph>): (s: string)
    ensures |s| == |gs|
  {
    seq(|gs|, i requires 0 <= i < |gs| => Shown(gs[i]))
  }

  /** The mapping has one character for each glyph. */
  lemma {:induction false} MapsEach(gs: seq<Glyph>)
    requires Spelled(gs)
    ensures MapRunes(Text(gs)) == ShownAll(gs)
    decreases |gs|
  {
    if |gs| > 0 {
      MapsFirst(gs[0], Text(gs[1..]));
      MapsEach(gs[1..]);
      assert ShownAll(gs) == [Shown(gs[0])] + ShownAll(gs[1..]);
    }
  }

  lemma MapsFirst(g: Glyph, rest: string)
    requires if g.Letter? then Scalar(g.cp) else DecodeRune([g.b] + rest).None?
    ensures MapRunes((if g.Letter? then EncodeRune(g.cp) else [g.b]) + rest) == [Shown(g)] + MapRunes(rest)
  {
    if g.Letter? {
      DecodeInvertsEncode(g.cp, rest);
      assert (EncodeRune(g.cp) + rest)[|EncodeRune(g.cp)|..] == rest;
    } else {
      assert ([g.b] + rest)[1..] == rest;
    }
  }

  // ---------------------------------------------------------------- blanks

  predicate Blanks(s: string) {
    forall c <- s :: c == ' ' || c == '\t'
  }

  /** No blank at either end. */
  predicate Tight(s: string) {
    s != "" ==> s[0] != ' ' && s[0] != '\t' && s[|s| - 1] != ' ' && s[|s| - 1] != '\t'
  }

  lemma {:induction false} TrimLeftTakes(a: string, s: string)
    requires Blanks(a) && (s != "" ==> s[0] != ' ' && s[0] != '\t')
    ensures TrimLeft(a + s) == s
    decreases |a|
  {
    if a == "" {
      assert a + s == s;
    } else {
      assert a[0] in a && forall c <- a[1..] :: c in a;
      assert (a + s)[1..] == a[1..] + s;
      TrimLeftTakes(a[1..], s);
    }
  }

  lemma {:induction false} TrimRightTakes(s: string, b: string)
    requires Blanks(b) && (s != "" ==> s[|s| - 1] != ' ' && s[|s| - 1] != '\t')
    ensures TrimRight(s + b) == s
    decreases |b|
  {
    if b == "" {
      assert s + b == s;
    } else {
      var n := |b| - 1;
      assert b[n] in b && forall c <- b[..n] :: c in b;
      assert (s + b)[..|s + b| - 1] == s + b[..n] && (s + b)[|s + b| - 1] == b[n];
      TrimRightTakes(s, b[..n]);
    }
  }

  /** Trimming takes the blanks at both ends, and nothing else. */
  lemma TrimTakes(a: string, m: string, b: string)
    requires Blanks(a) && Tight(m) && Blanks(b) && (m == "" ==> b == "")
    ensures Trim(a + m + b) == m
  {
    assert a + m + b == a + (m + b);
    TrimLeftTakes(a, m + b);
    TrimRightTakes(m, b);
  }

  // ---------------------------------------------------------------- clean names

  /**
    The last component of a path, rune by rune and without the blanks at its ends, is the clean
    name; if nothing is left, or a dot in front, it is the dated one, and a long one is capped.
   */
  lemma CleanedIs(dir: string, gs: seq<Glyph>, slashes: string, kind: string, uti: string, stamp: string,
                  a: string, m: string, b: string)
    requires Spelled(gs) && gs != [] && '/' !in Text(gs) && (forall c <- slashes :: c == '/')
    requires dir == "" || dir[|dir| - 1] == '/'
    requires ShownAll(gs) == a + m + b && Blanks(a) && Tight(m) && Blanks(b) && (m == "" ==> b == "")
    ensures Cleaned(dir + Text(gs) + slashes, kind, uti, stamp)
         == if m != "" && m[0] != '.' then m
            else "clipbeam-" + stamp + if FallbackExt(kind, uti) == "" then "" else "." + FallbackExt(kind, uti)
  {
    TextIsSome(gs);
    BaseOfPath(dir, Text(gs), slashes);
    MapsEach(gs);
    TrimTakes(a, m, b);
  }

  lemma TextIsSome(gs: seq<Glyph>)
    requires Spelled(gs) && gs != []
    ensures Text(gs) != ""
  {
  }

  /** A name with other runes inside keeps its length in runes, each of them an underscore. */
  lemma OthersAreUnderscores(gs: seq<Glyph>, kind: string, uti: string, stamp: string)
    requires Spelled(gs) && 0 < |gs| <= NAME_MAX && '/' !in Text(gs)
    requires Tight(ShownAll(gs)) && gs[0] != Letter('.' as int)
    ensures CleanName(Text(gs), kind, uti, stamp) == ShownAll(gs)
  {
    var m := ShownAll(gs);
    Alone(m);
    Alone(Text(gs));
    NoDotInFront(gs);
    CleanedIs("", gs, "", kind, uti, stamp, "", m, "");
    ShortStays(m, stamp);
  }

  lemma Alone(s: string)
    ensures "" + s + "" == s
  {
  }

  lemma NoDotInFront(gs: seq<Glyph>)
    requires gs != [] && gs[0] != Letter('.' as int)
    ensures ShownAll(gs) != "" && ShownAll(gs)[0] != '.'
  {
  }

  lemma ShortStays(m: string, stamp: string)
    requires |m| <= NAME_MAX
    ensures CapLength(m, NAME_MAX, stamp) == m
  {
  }

  lemma CapIs(c: string, base: string, ext: string, stamp: string, name: string)
    requires AllAllowed(c) && AllAllowed(base) && (if ext == "" then base == c else c == base + "." + ext)
    requires |c| > 200 && name == CapParts(c, base, ext, NAME_MAX, stamp)
    ensures if ext == "" || |ext| >= 199 then name == c[..200]
            else |base| >= 199 - |ext| && name == base[..199 - |ext|] + "." + ext && c == base + "." + ext
  {
    CapOfPlain(c, base, ext, stamp);
  }

  /** A name that is still too long is cut at 200 bytes, in front of its extension if that leaves room. */
  lemma CappedIs(raw: string, kind: string, uti: string, stamp: string, base: string, ext: string)
    requires IsStamp(stamp) && base == DeletingPathExtension(Cleaned(raw, kind, uti, stamp))
    requires ext == PathExtension(Cleaned(raw, kind, uti, stamp))
    ensures var c, name := Cleaned(raw, kind, uti, stamp), CleanName(raw, kind, uti, stamp);
            if |c| <= 200 then name == c
            else if ext == "" || |ext| >= 199 then name == c[..200]
            else |base| >= 199 - |ext| && name == base[..199 - |ext|] + "." + ext && c == base + "." + ext
  {
    var c := Cleaned(raw, kind, uti, stamp);
    BeforeCap(raw, kind, uti, stamp);
    if |c| > 200 {
      PlainParts(c, base, ext);
      CapIs(c, base, ext, stamp, CapParts(c, base, ext, NAME_MAX, stamp));
    }
  }

  // ---------------------------------------------------------------- the dated name

  const KNOWN_UTIS := ["public.png", "public.jpeg", "public.tiff", "com.compuserve.gif", "public.heic", "public.heif",
                       "com.microsoft.bmp", "public.plain-text", "public.utf8-plain-text", "public.text",
                       "com.adobe.pdf", "public.zip-archive", "com.pkware.zip-archive"]

  /** The extension that the kind or the uti suggests. */
  lemma Extensions(kind: string, uti: string)
    ensures uti == "public.png" ==> FallbackExt(kind, uti) == "png"
    ensures uti == "public.jpeg" ==> FallbackExt(kind, uti) == "jpeg"
    ensures uti == "public.tiff" ==> FallbackExt(kind, uti) == "tiff"
    ensures uti == "com.compuserve.gif" ==> FallbackExt(kind, uti) == "gif"
    ensures uti in ["public.heic", "public.heif"] ==> FallbackExt(kind, uti) == "heic"
    ensures uti == "com.microsoft.bmp" ==> FallbackExt(kind, uti) == "bmp"
    ensures uti in ["public.plain-text", "public.utf8-plain-text", "public.text"] ==> FallbackExt(kind, uti) == "txt"
    ensures uti == "com.adobe.pdf" ==> FallbackExt(kind, uti) == "pdf"
    ensures uti in ["public.zip-archive", "com.pkware.zip-archive"] ==> FallbackExt(kind, uti) == "zip"
    ensures uti !in KNOWN_UTIS ==>
              FallbackExt(kind, uti) == if kind == "image" then "png" else if kind == "file" then "bin" else ""
  {
  }
}
