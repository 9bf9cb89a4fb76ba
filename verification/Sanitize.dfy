/** The file name sanitizer: allowlist, trim, fallback, length cap and collision suffix. */
module Sanitize {
  import opened Basics
  import opened Utf8
  import opened Paths
  import opened Strings
  import opened Utf8Cut

  const NAME_MAX := 200

  predicate Allowed(r: int) {
    'A' as int <= r <= 'Z' as int || 'a' as int <= r <= 'z' as int || '0' as int <= r <= '9' as int
    || r in {' ' as int, '.' as int, '_' as int, '-' as int}
  }

  predicate AllAllowed(s: string) {
    forall c <- s :: Allowed(c as int)
  }

  // ---------------------------------------------------------------- extensions and the cap

  function PathExtension(name: string): (r: string)
    ensures r != "" ==> |r| < |name|
  {
    var leaf := Base(name);
    Behind(leaf, LastIndexOf(leaf, '.'))
  }

  /** What is behind a dot, if the dot is neither the first nor the last character. */
  function Behind(leaf: string, dot: int): (r: string)
    requires dot < |leaf|
    ensures r != "" ==> |r| < |leaf|
  {
    if dot <= 0 || dot == |leaf| - 1 then "" else leaf[dot + 1..]
  }

  function DeletingPathExtension(name: string): string {
    var ext := PathExtension(name);
    if ext == "" then name else name[..|name| - |ext| - 1]
  }

  function UtiExt(uti: string): Option<string> {
    if uti == "public.png" then Some("png")
    else if uti == "public.jpeg" then Some("jpeg")
    else if uti == "public.tiff" then Some("tiff")
    else if uti == "com.compuserve.gif" then Some("gif")
    else if uti == "public.heic" || uti == "public.heif" then Some("heic")
    else if uti == "com.microsoft.bmp" then Some("bmp")
    else if uti == "public.plain-text" || uti == "public.utf8-plain-text" || uti == "public.text" then Some("txt")
    else if uti == "com.adobe.pdf" then Some("pdf")
    else if uti == "public.zip-archive" || uti == "com.pkware.zip-archive" then Some("zip")
    else None
  }

  function FallbackExt(kind: string, uti: string): string {
    var ext := UtiExt(uti);
    if ext.Some? then ext.value
    else if kind == "image" then "png"
    else if kind == "file" then "bin"
    else ""
  }

  /** A UTC timestamp: yyyyMMdd-HHmmss-SSS. */
  predicate IsStamp(stamp: string) {
    |stamp| == 19 && forall c <- stamp :: '0' <= c <= '9' || c == '-'
  }

  function Dated(stamp: string, ext: string): string {
    "clipbeam-" + stamp + (if ext != "" then "." + ext else "")
  }

  function FallbackName(kind: string, uti: string, stamp: string): string {
    Dated(stamp, FallbackExt(kind, uti))
  }

  function CapLength(name: string, max: nat, stamp: string): string {
    if |name| <= max then name
    else CapParts(name, DeletingPathExtension(name), PathExtension(name), max, stamp)
  }

  /** A name over the limit: the extension is kept if it leaves room for a base. */
  function CapParts(name: string, base: string, ext: string, max: nat, stamp: string): string {
    var dotExt := if ext != "" then "." + ext else "";
    var budget := max - |dotExt|;
    if budget <= 0 then TruncateBytes(name, max)
    else
      var result := TruncateBytes(base, budget) + dotExt;
      if result == "" then "clipbeam-" + stamp else result
  }

  // ---------------------------------------------------------------- CleanLeaf

  /** How many bytes ranging over a string advances by; an invalid byte counts alone. */
  function Width(s: string): (w: nat)
    requires s != ""
    ensures 1 <= w <= |s|
  {
    var r := DecodeRune(s);
    if r.Some? then r.value.width else 1
  }

  /** An allowed rune, or the underscore that stands for any other. */
  function Mapped(s: string): char
    requires s != ""
  {
    var r := DecodeRune(s);
    if r.Some? && Allowed(r.value.cp) then r.value.cp as char else '_'
  }

  function MapRunes(s: string): string {
    if s == "" then "" else [Mapped(s)] + MapRunes(s[Width(s)..])
  }

  predicate Blank(c: char) {
    c == ' ' || c == '\t'
  }

  function TrimLeft(s: string): string {
    if s != "" && Blank(s[0]) then TrimLeft(s[1..]) else s
  }

  function TrimRight(s: string): string {
    if s != "" && Blank(s[|s| - 1]) then TrimRight(s[..|s| - 1]) else s
  }

  /** strings.Trim(s, " \t") */
  function Trim(s: string): string {
    TrimRight(TrimLeft(s))
  }

  function FallBack(cleaned: string, kind: string, uti: string, stamp: string): string {
    if cleaned == "" || cleaned[0] == '.' then FallbackName(kind, uti, stamp) else cleaned
  }

  /** The name before it is capped. */
  function Cleaned(raw: string, kind: string, uti: string, stamp: string): string {
    FallBack(Trim(MapRunes(Base(raw))), kind, uti, stamp)
  }

  function CleanName(raw: string, kind: string, uti: string, stamp: string): string {
    CapLength(Cleaned(raw, kind, uti, stamp), NAME_MAX, stamp)
  }

  method MapAll(leaf: string) returns (cleaned: string)
    ensures cleaned == MapRunes(leaf)
  {
    var rest := leaf;
    cleaned := "";
    while rest != ""
      invariant cleaned + MapRunes(rest) == MapRunes(leaf)
      decreases |rest|
    {
      var r := DecodeRune(rest);
      assert cleaned + MapRunes(rest) == cleaned + [Mapped(rest)] + MapRunes(rest[Width(rest)..]);
      if r.Some? && Allowed(r.value.cp) {
        cleaned := cleaned + [r.value.cp as char];
      } else {
        cleaned := cleaned + ['_'];
      }
      rest := rest[Width(rest)..];
    }
  }

  lemma DotInFront(s: string)
    ensures s == "" || s == "." || s == ".." || "." <= s <==> s == "" || s[0] == '.'
  {
    assert s != "" ==> s == [s[0]] + s[1..];
  }

  method CleanLeaf(raw: string, kind: string, uti: string, stamp: string) returns (leaf: string)
    ensures leaf == CleanName(raw, kind, uti, stamp)
  {
    var cleaned := MapAll(Base(raw));
    cleaned := Trim(cleaned);
    DotInFront(cleaned);
    if cleaned == "" || cleaned == "." || cleaned == ".." || "." <= cleaned {
      cleaned := FallbackName(kind, uti, stamp);
    }
    leaf := CapLength(cleaned, NAME_MAX, stamp);
  }

  // ---------------------------------------------------------------- what a clean name is like

  /** One to 200 bytes of the allowlist, with no dot in front. */
  predicate Safe(name: string) {
    1 <= |name| <= NAME_MAX && AllAllowed(name) && name[0] != '.'
  }

  lemma {:induction false} MapRunesAllowed(s: string)
    ensures AllAllowed(MapRunes(s))
    decreases |s|
  {
    if s != "" {
      MapRunesAllowed(s[Width(s)..]);
    }
  }

  /** Trimming takes a middle part, without blanks at either end. */
  lemma {:induction false} TrimIsMiddle(s: string)
    ensures forall c <- Trim(s) :: c in s
    ensures Trim(s) != "" ==> !Blank(Trim(s)[0]) && !Blank(Trim(s)[|Trim(s)| - 1])
  {
    TrimLeftIsSuffix(s);
    TrimRightIsPrefix(TrimLeft(s));
  }

  lemma {:induction false} TrimLeftIsSuffix(s: string)
    ensures forall c <- TrimLeft(s) :: c in s
    ensures TrimLeft(s) != "" ==> !Blank(TrimLeft(s)[0])
  {
    if s != "" && Blank(s[0]) {
      TrimLeftIsSuffix(s[1..]);
    }
  }

  lemma {:induction false} TrimRightIsPrefix(s: string)
    ensures TrimRight(s) <= s
    ensures TrimRight(s) != "" ==> !Blank(TrimRight(s)[|TrimRight(s)| - 1])
  {
    if s != "" && Blank(s[|s| - 1]) {
      TrimRightIsPrefix(s[..|s| - 1]);
    }
  }

  /** A name that is neither empty nor starts with a dot or a blank, and has no blank at the end. */
  predicate Neat(name: string) {
    name != "" && AllAllowed(name) && name[0] != '.' && name[0] != ' ' && name[|name| - 1] != ' '
  }

  predicate NeatExt(ext: string) {
    |ext| <= 4 && forall c <- ext :: 'a' <= c <= 'z'
  }

  lemma UtiExtIsNeat(uti: string)
    ensures UtiExt(uti).Some? ==> NeatExt(UtiExt(uti).value)
  {
  }

  lemma FallbackExtIsNeat(kind: string, uti: string)
    ensures NeatExt(FallbackExt(kind, uti))
  {
    UtiExtIsNeat(uti);
    if UtiExt(uti).None? {
      var ext := FallbackExt(kind, uti);
      assert ext in ["png", "bin", ""];
    }
  }

  lemma FallbackIsNeat(kind: string, uti: string, stamp: string)
    requires IsStamp(stamp)
    ensures Neat(FallbackName(kind, uti, stamp)) && |FallbackName(kind, uti, stamp)| <= 33
  {
    var ext := FallbackExt(kind, uti);
    FallbackExtIsNeat(kind, uti);
    NeatName(stamp, ext);
    assert FallbackName(kind, uti, stamp) == Dated(stamp, ext);
  }

  lemma NeatName(stamp: string, ext: string)
    requires IsStamp(stamp) && NeatExt(ext)
    ensures Neat(Dated(stamp, ext)) && |Dated(stamp, ext)| <= 33
  {
    var name := Dated(stamp, ext);
    assert AllAllowed("clipbeam-") && AllAllowed(".") && AllAllowed(stamp) && AllAllowed(ext);
    assert name[|name| - 1] in (if ext != "" then ext else stamp);
  }

  /** What goes into the length cap is neat. */
  lemma BeforeCap(raw: string, kind: string, uti: string, stamp: string)
    requires IsStamp(stamp)
    ensures Neat(Cleaned(raw, kind, uti, stamp))
  {
    FallbackIsNeat(kind, uti, stamp);
    MapRunesAllowed(Base(raw));
    TrimIsMiddle(MapRunes(Base(raw)));
  }

  lemma AllowedIsPlain(name: string)
    requires AllAllowed(name) && name != ""
    ensures '/' !in name && Base(name) == name
    ensures forall c <- name :: c < 0x80 as char
  {
    BaseOfLeaf(name);
  }

  lemma LastIndexIs(s: string, c: char, i: nat)
    requires i < |s| && s[i] == c && forall j :: i < j < |s| ==> s[j] != c
    ensures LastIndexOf(s, c) == i
  {
  }

  lemma DotIsLast(base: string, ext: string)
    requires '.' !in ext
    ensures var name := base + "." + ext; LastIndexOf(name, '.') == |base| && name[|base| + 1..] == ext
  {
    var name := base + "." + ext;
    forall j | |base| < j < |name| ensures name[j] != '.' {
      assert name[j] == ext[j - |base| - 1];
    }
    LastIndexIs(name, '.', |base|);
  }

  lemma PlainExtension(name: string)
    requires name != "" && '/' !in name
    ensures PathExtension(name) == Behind(name, LastIndexOf(name, '.'))
  {
    BaseOfLeaf(name);
  }

  lemma CutAtDot(base: string, ext: string, name: string)
    requires name == base + "." + ext
    ensures name[..|name| - |ext| - 1] == base
  {
  }

  lemma SplitAtDot(name: string, dot: nat)
    requires dot < |name| && name[dot] == '.'
    ensures name == name[..dot] + "." + name[dot + 1..] && name[..|name| - |name[dot + 1..]| - 1] == name[..dot]
  {
  }

  lemma NamedExtension(name: string, base: string, ext: string)
    requires name == base + "." + ext && base != "" && ext != "" && '.' !in ext && '/' !in name
    ensures PathExtension(name) == ext
  {
    PlainExtension(name);
    DotIsLast(base, ext);
  }

  /** The extension of a name without slashes: what follows its last dot, if that is inside. */
  lemma ExtensionOf(base: string, ext: string)
    requires base != "" && ext != "" && '.' !in ext && '/' !in base && '/' !in ext
    ensures PathExtension(base + "." + ext) == ext && DeletingPathExtension(base + "." + ext) == base
  {
    var name := base + "." + ext;
    NamedExtension(name, base, ext);
    CutAtDot(base, ext, name);
  }

  /** A name without slashes is its base, a dot and its extension, if it has one. */
  lemma SplitBehind(name: string, dot: int, base: string, ext: string)
    requires '/' !in name && dot == LastIndexOf(name, '.') && ext == Behind(name, dot) && ext != ""
    requires base == name[..|name| - |ext| - 1]
    ensures name == base + "." + ext && base != "" && '.' !in ext && '/' !in base && '/' !in ext
  {
    assert dot > 0 && ext == name[dot + 1..];
    SplitAtDot(name, dot);
    assert forall c <- base :: c in name;
    assert '/' !in ext by {
      assert forall c <- ext :: c in name;
    }
  }

  // ---------------------------------------------------------------- the cap

  /** A name over the limit keeps its start, and its extension if that leaves room for a base. */
  lemma CapOfPlain(name: string, base: string, ext: string, stamp: string)
    requires AllAllowed(name) && |name| > NAME_MAX && AllAllowed(base)
    requires if ext == "" then base == name else name == base + "." + ext
    ensures CapParts(name, base, ext, NAME_MAX, stamp)
         == if ext == "" || |ext| >= NAME_MAX - 1 then name[..NAME_MAX]
            else base[..Min(|base|, NAME_MAX - 1 - |ext|)] + "." + ext
  {
    AsciiIsJustCut(name, NAME_MAX);
    if ext != "" && |ext| < NAME_MAX - 1 {
      AsciiIsJustCut(base, NAME_MAX - 1 - |ext|);
    }
  }

  /** The parts of a plain name. */
  lemma PlainParts(name: string, base: string, ext: string)
    requires AllAllowed(name) && name != "" && base == DeletingPathExtension(name) && ext == PathExtension(name)
    ensures if ext == "" then base == name else name == base + "." + ext && base != "" && '.' !in ext
    ensures AllAllowed(base) && AllAllowed(ext) && '/' !in base && '/' !in ext
  {
    PlainHasNoSlash(name);
    if ext != "" {
      PlainExtension(name);
      SplitBehind(name, LastIndexOf(name, '.'), base, ext);
      AllowedInParts(name, base, ext);
    }
  }

  lemma PlainHasNoSlash(name: string)
    requires AllAllowed(name)
    ensures '/' !in name
  {
  }

  lemma AllowedInParts(name: string, base: string, ext: string)
    requires AllAllowed(name) && name == base + "." + ext
    ensures AllAllowed(base) && AllAllowed(ext)
  {
    assert forall c <- base :: c in name;
    assert forall c <- ext :: c in name;
  }

  lemma CappedIsSafe(name: string, base: string, ext: string, stamp: string, r: string)
    requires Neat(name) && |name| > NAME_MAX && AllAllowed(base) && AllAllowed(ext) && base != ""
    requires if ext == "" then base == name else name == base + "." + ext
    requires r == CapParts(name, base, ext, NAME_MAX, stamp)
    ensures Safe(r) && r[0] == name[0]
  {
    CapOfPlain(name, base, ext, stamp);
    if ext == "" || |ext| >= NAME_MAX - 1 {
      assert r == name[..NAME_MAX] && forall c <- r :: c in name;
    } else {
      var start := base[..Min(|base|, NAME_MAX - 1 - |ext|)];
      assert r == start + "." + ext && forall c <- start :: c in base;
    }
  }

  lemma CapIsSafe(name: string, stamp: string)
    requires Neat(name)
    ensures Safe(CapLength(name, NAME_MAX, stamp)) && CapLength(name, NAME_MAX, stamp)[0] == name[0]
  {
    if |name| > NAME_MAX {
      var base, ext := DeletingPathExtension(name), PathExtension(name);
      PlainParts(name, base, ext);
      CappedIsSafe(name, base, ext, stamp, CapParts(name, base, ext, NAME_MAX, stamp));
    }
  }

  /** An extension of 1 to 198 bytes survives the cap. */
  lemma ExtensionSurvivesCap(name: string, stamp: string)
    requires Neat(name) && 0 < |PathExtension(name)| < NAME_MAX - 1
    ensures PathExtension(CapLength(name, NAME_MAX, stamp)) == PathExtension(name)
  {
    if |name| > NAME_MAX {
      var base, ext := DeletingPathExtension(name), PathExtension(name);
      PlainParts(name, base, ext);
      CapOfPlain(name, base, ext, stamp);
      ExtensionOf(base[..Min(|base|, NAME_MAX - 1 - |ext|)], ext);
    }
  }

  /** Whatever the name, kind and uti, the leaf is safe. */
  lemma CleanIsSafe(raw: string, kind: string, uti: string, stamp: string)
    requires IsStamp(stamp)
    ensures Safe(CleanName(raw, kind, uti, stamp)) && CleanName(raw, kind, uti, stamp)[0] != ' '
    ensures IsLeaf(CleanName(raw, kind, uti, stamp))
  {
    BeforeCap(raw, kind, uti, stamp);
    CapIsSafe(Cleaned(raw, kind, uti, stamp), stamp);
    AllowedIsPlain(CleanName(raw, kind, uti, stamp));
  }

  // ---------------------------------------------------------------- which names are kept

  lemma {:induction false} MapKeeps(s: string)
    requires AllAllowed(s)
    ensures MapRunes(s) == s
    decreases |s|
  {
    if s != "" {
      assert s[0] in s;
      assert forall c <- s[1..] :: c in s;
      MapKeeps(s[1..]);
    }
  }

  lemma TrimKeeps(s: string)
    requires s != "" && !Blank(s[0]) && !Blank(s[|s| - 1])
    ensures Trim(s) == s
  {
  }

  lemma NeatIsCleanedToItself(raw: string, kind: string, uti: string, stamp: string)
    requires Neat(raw)
    ensures Cleaned(raw, kind, uti, stamp) == raw
  {
    AllowedIsPlain(raw);
    MapKeeps(raw);
    assert raw[0] in raw && raw[|raw| - 1] in raw;
    TrimKeeps(raw);
  }

  lemma {:induction false} MapRunesShorter(s: string)
    ensures |MapRunes(s)| <= |s|
    decreases |s|
  {
    if s != "" {
      MapRunesShorter(s[Width(s)..]);
    }
  }

  lemma {:induction false} TrimShorter(s: string)
    ensures |TrimLeft(s)| <= |s| && |TrimRight(s)| <= |s|
    decreases |s|
  {
    if s != "" {
      TrimShorter(s[1..]);
      TrimShorter(s[..|s| - 1]);
    }
  }

  /** Only a name over the limit is still over it when it comes to the cap. */
  lemma LongInputOnly(raw: string, kind: string, uti: string, stamp: string)
    requires IsStamp(stamp)
    ensures |Cleaned(raw, kind, uti, stamp)| > NAME_MAX ==> |raw| > NAME_MAX
  {
    MapRunesShorter(Base(raw));
    TrimShorter(MapRunes(Base(raw)));
    TrimShorter(TrimLeft(MapRunes(Base(raw))));
    FallbackIsNeat(kind, uti, stamp);
  }

  /** A name is kept as it is if and only if it is safe and has no space at either end. */
  lemma KeptIff(raw: string, kind: string, uti: string, stamp: string)
    requires IsStamp(stamp)
    ensures CleanName(raw, kind, uti, stamp) == raw <==> Neat(raw) && |raw| <= NAME_MAX
  {
    CleanIsSafe(raw, kind, uti, stamp);
    BeforeCap(raw, kind, uti, stamp);
    LongInputOnly(raw, kind, uti, stamp);
    if Neat(raw) {
      NeatIsCleanedToItself(raw, kind, uti, stamp);
    }
  }

  /** The cap cuts the name right behind a space: no extension is kept at its end. */
  predicate CutBehindSpace(name: string) {
    && |name| > NAME_MAX && (PathExtension(name) == "" || |PathExtension(name)| >= NAME_MAX - 1)
    && name[NAME_MAX - 1] == ' '
  }

  lemma CappedEnd(name: string, base: string, ext: string, stamp: string, r: string)
    requires Neat(name) && |name| > NAME_MAX && AllAllowed(base) && ext == PathExtension(name)
    requires if ext == "" then base == name else name == base + "." + ext
    requires r == CapParts(name, base, ext, NAME_MAX, stamp)
    ensures r != "" && (r[|r| - 1] == ' ' <==> CutBehindSpace(name))
  {
    CapOfPlain(name, base, ext, stamp);
  }

  lemma CapEndsInSpaceIff(name: string, stamp: string)
    requires Neat(name)
    ensures var r := CapLength(name, NAME_MAX, stamp); r != "" && (r[|r| - 1] == ' ' <==> CutBehindSpace(name))
  {
    if |name| > NAME_MAX {
      var base, ext := DeletingPathExtension(name), PathExtension(name);
      PlainParts(name, base, ext);
      assert CapLength(name, NAME_MAX, stamp) == CapParts(name, base, ext, NAME_MAX, stamp);
      CappedEnd(name, base, ext, stamp, CapParts(name, base, ext, NAME_MAX, stamp));
    }
  }

  /** Cleaning again, of whatever kind and whenever, changes nothing unless the cap cuts the name behind a space. */
  lemma IdempotentIff(raw: string, kind: string, uti: string, stamp: string,
                      kindAgain: string, utiAgain: string, later: string)
    requires IsStamp(stamp) && IsStamp(later)
    ensures var leaf := CleanName(raw, kind, uti, stamp);
            CleanName(leaf, kindAgain, utiAgain, later) == leaf <==> !CutBehindSpace(Cleaned(raw, kind, uti, stamp))
  {
    var leaf := CleanName(raw, kind, uti, stamp);
    CleanIsSafe(raw, kind, uti, stamp);
    KeptIff(leaf, kindAgain, utiAgain, later);
    BeforeCap(raw, kind, uti, stamp);
    CapEndsInSpaceIff(Cleaned(raw, kind, uti, stamp), stamp);
  }

  lemma NoDot(s: string)
    requires '.' !in s
    ensures LastIndexOf(s, '.') == -1
  {
  }

  lemma NoExtension(name: string)
    requires name != "" && '/' !in name && '.' !in name
    ensures PathExtension(name) == "" && DeletingPathExtension(name) == name
  {
    PlainExtension(name);
    NoDot(name);
  }

  /** 199 letters, a space and one more letter. */
  function Awkward(): (name: string)
    ensures |name| == 201 && Neat(name) && '.' !in name && name[199] == ' '
  {
    seq(199, _ => 'a') + " b"
  }

  /** The cap can do that. */
  lemma CleaningTwiceDiffers(kind: string, uti: string, stamp: string)
    requires IsStamp(stamp)
    ensures var leaf := CleanName(Awkward(), kind, uti, stamp); CleanName(leaf, kind, uti, stamp) != leaf
  {
    var raw := Awkward();
    NeatIsCleanedToItself(raw, kind, uti, stamp);
    NoExtension(raw);
    IdempotentIff(raw, kind, uti, stamp, kind, uti, stamp);
  }
}
