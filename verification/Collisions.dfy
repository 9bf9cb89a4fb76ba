/** Collision suffixes, the containment check, and why a leaf is never a temporary file. */
module Collisions {
  import opened Arith
  import opened Paths
  import opened Sanitize

  const MIN_INT := -0x8000_0000_0000_0000
  const MAX_INT := 0x7FFF_FFFF_FFFF_FFFF

  // ---------------------------------------------------------------- decimal numbers

  /** The decimal digits of `n`, none for zero. */
  function DigitText(n: nat): (s: string)
    ensures forall c <- s :: '0' <= c <= '9'
  {
    if n == 0 then "" else DigitText(n / 10) + ['0' + (n % 10) as char]
  }

  function IntText(n: int): string {
    if n == 0 then "0" else if n > 0 then DigitText(n) else if n == MIN_INT then "-" else "-" + DigitText(-n)
  }

  lemma {:induction false} DigitTextInjective(m: nat, n: nat)
    requires DigitText(m) == DigitText(n)
    ensures m == n
    decreases m
  {
    if m > 0 && n > 0 {
      var s, t := DigitText(m / 10), DigitText(n / 10);
      var a, b := '0' + (m % 10) as char, '0' + (n % 10) as char;
      LastEqual(s, a, t, b);
      DigitTextInjective(m / 10, n / 10);
    }
  }

  lemma LastEqual(s: string, a: char, t: string, b: char)
    requires s + [a] == t + [b]
    ensures s == t && a == b
  {
    assert |s| == |t|;
    assert s == (s + [a])[..|s|] && t == (t + [b])[..|t|];
    assert (s + [a])[|s|] == a && (t + [b])[|t|] == b;
  }

  lemma IntTextInjective(m: nat, n: nat)
    requires IntText(m) == IntText(n)
    ensures m == n
  {
    assert DigitText(0) == "";
    ZeroHasItsOwn(m);
    ZeroHasItsOwn(n);
    if m > 0 && n > 0 {
      DigitTextInjective(m, n);
    }
  }

  lemma {:induction false} ZeroHasItsOwn(n: nat)
    ensures n > 0 ==> DigitText(n) != "0"
  {
    if n > 0 && DigitText(n) == "0" {
      LastEqual(DigitText(n / 10), '0' + (n % 10) as char, "", '0');
    }
  }

  lemma {:induction false} DigitTextFits(n: nat, k: nat)
    requires n < Pow10(k)
    ensures |DigitText(n)| <= k
    decreases k
  {
    if n > 0 {
      DigitTextFits(n / 10, k - 1);
    }
  }

  lemma Int64Fits(n: nat)
    requires n <= MAX_INT
    ensures |DigitText(n)| <= 19
  {
    assert Pow10(5) == 100000;
    assert Pow10(10) == 10000000000;
    assert Pow10(15) == 1000000000000000;
    assert Pow10(19) == 10000000000000000000;
    DigitTextFits(n, 19);
  }

  /** The digits are written from the end of a buffer that a 64-bit number always fits. */
  method Itoa(n: int) returns (s: string)
    requires MIN_INT <= n <= MAX_INT
    ensures s == IntText(n)
  {
    if n == 0 {
      return "0";
    }
    var buf := new char[20](_ => ' ');
    var i := buf.Length;
    var neg := n < 0;
    var left := n;
    if neg {
      left := if n == MIN_INT then MIN_INT else -n;
    }
    ghost var digits := if left > 0 then DigitText(left) else "";
    if left > 0 {
      Int64Fits(left);
    }
    while left > 0
      invariant 0 <= i <= buf.Length
      invariant left > 0 ==> |DigitText(left)| + 1 <= i
      invariant left <= 0 ==> 1 <= i
      invariant (if left > 0 then DigitText(left) else "") + buf[i..] == digits
      decreases left
    {
      ghost var was := buf[i..];
      var c := '0' + (left % 10) as char;
      i := i - 1;
      buf[i] := c;
      assert buf[i..] == [c] + was;
      assert DigitText(left) + was == DigitText(left / 10) + ([c] + was);
      left := left / 10;
    }
    assert buf[i..] == digits;
    if neg {
      i := i - 1;
      buf[i] := '-';
      assert buf[i..] == "-" + digits;
    }
    s := buf[i..];
  }

  // ---------------------------------------------------------------- collision names

  function CollisionName(leaf: string, n: int): string {
    Numbered(DeletingPathExtension(leaf), IntText(n), PathExtension(leaf))
  }

  function Numbered(base: string, number: string, ext: string): string {
    base + " (" + number + Closing(ext)
  }

  function Closing(ext: string): string {
    if ext == "" then ")" else ")." + ext
  }

  lemma NumberedInjective(base: string, x: string, y: string, ext: string)
    requires Numbered(base, x, ext) == Numbered(base, y, ext)
    ensures x == y
  {
    MiddleEqual(base + " (", x, y, Closing(ext));
  }

  lemma MiddleEqual(a: string, x: string, y: string, b: string)
    requires a + x + b == a + y + b
    ensures x == y
  {
    assert |x| == |y|;
    assert x == (a + x + b)[|a|..|a| + |x|] && y == (a + y + b)[|a|..|a| + |y|];
  }

  /** The candidates for a leaf differ from each other. */
  lemma CollisionInjective(leaf: string, m: nat, n: nat)
    ensures CollisionName(leaf, m) == CollisionName(leaf, n) ==> m == n
  {
    if CollisionName(leaf, m) == CollisionName(leaf, n) {
      NumberedInjective(DeletingPathExtension(leaf), IntText(m), IntText(n), PathExtension(leaf));
      IntTextInjective(m, n);
    }
  }

  lemma CollisionIsLonger(leaf: string, n: nat)
    ensures |CollisionName(leaf, n)| > |leaf|
  {
    var base, ext := DeletingPathExtension(leaf), PathExtension(leaf);
    assert |leaf| <= |base| + |Closing(ext)|;
  }

  /** A name that can stand in a directory, and is none of the store's temporary files. */
  predicate Storable(name: string) {
    IsLeaf(name) && name[0] != '.'
  }

  lemma SafeIsStorable(name: string)
    requires Safe(name)
    ensures Storable(name)
  {
    PlainHasNoSlash(name);
  }

  lemma NumberedIsStorable(base: string, number: string, ext: string)
    requires base != "" && base[0] != '.' && '/' !in base && '/' !in ext && '/' !in number
    ensures Storable(Numbered(base, number, ext))
  {
    var name := Numbered(base, number, ext);
    assert name[0] == base[0] && |name| > 2;
    assert '/' !in " (" && '/' !in Closing(ext);
  }

  lemma CollisionIsStorable(leaf: string, n: nat)
    requires Safe(leaf)
    ensures Storable(CollisionName(leaf, n))
  {
    var base, ext := DeletingPathExtension(leaf), PathExtension(leaf);
    PlainParts(leaf, base, ext);
    assert base[0] == leaf[0];
    NumberedIsStorable(base, IntText(n), ext);
  }

  lemma NumberedKeepsExtension(base: string, number: string, ext: string)
    requires base != "" && ext != "" && '.' !in ext && '/' !in base && '/' !in ext && '/' !in number
    ensures PathExtension(Numbered(base, number, ext)) == ext
  {
    var front := base + " (" + number + ")";
    assert Numbered(base, number, ext) == front + "." + ext;
    ExtensionOf(front, ext);
  }

  /** The collision suffix goes in front of the extension. */
  lemma ExtensionSurvivesCollision(leaf: string, n: nat)
    requires Safe(leaf) && PathExtension(leaf) != ""
    ensures PathExtension(CollisionName(leaf, n)) == PathExtension(leaf)
  {
    var base, ext := DeletingPathExtension(leaf), PathExtension(leaf);
    PlainParts(leaf, base, ext);
    NumberedKeepsExtension(base, IntText(n), ext);
  }

  /** The number stands in parentheses behind the base, in front of the extension. */
  lemma CollisionNameIs(base: string, ext: string, n: nat)
    requires base != "" && ext != "" && '.' !in ext && '/' !in base && '/' !in ext
    ensures CollisionName(base + "." + ext, n) == base + " (" + IntText(n) + ")." + ext
  {
    ExtensionOf(base, ext);
    NumberedIs(base, IntText(n), ext);
  }

  lemma NumberedIs(base: string, number: string, ext: string)
    requires ext != ""
    ensures Numbered(base, number, ext) == base + " (" + number + ")." + ext
  {
    assert Closing(ext) == ")." + ext;
    Regroup(base + " (" + number, ").", ext);
  }

  lemma Regroup(a: string, b: string, c: string)
    ensures a + (b + c) == a + b + c
  {
  }

  lemma PlainCollisionNameIs(base: string, n: nat)
    requires base != "" && '/' !in base && '.' !in base
    ensures CollisionName(base, n) == base + " (" + IntText(n) + ")"
  {
    NoExtension(base);
  }

  /** The n-th name that is tried for a leaf. */
  function Candidate(leaf: string, n: nat): string {
    if n <= 1 then leaf else CollisionName(leaf, n)
  }

  /** First the leaf itself, then with the numbers from 2 on. */
  lemma CandidateIs(base: string, ext: string, n: nat)
    requires base != "" && ext != "" && '.' !in ext && '/' !in base && '/' !in ext
    ensures Candidate(base + "." + ext, 1) == base + "." + ext
    ensures n >= 2 ==> Candidate(base + "." + ext, n) == base + " (" + IntText(n) + ")." + ext
    ensures '.' !in base ==>
              Candidate(base, 1) == base && (n >= 2 ==> Candidate(base, n) == base + " (" + IntText(n) + ")")
  {
    CollisionNameIs(base, ext, n);
    if '.' !in base {
      PlainCollisionNameIs(base, n);
    }
  }

  lemma CandidateIsStorable(leaf: string, n: nat)
    requires Safe(leaf)
    ensures Storable(Candidate(leaf, n))
  {
    SafeIsStorable(leaf);
    if n > 1 {
      CollisionIsStorable(leaf, n);
    }
  }

  lemma CandidatesDiffer(leaf: string, m: nat, n: nat)
    requires 1 <= m < n
    ensures Candidate(leaf, m) != Candidate(leaf, n)
  {
    if m == 1 {
      CollisionIsLonger(leaf, n);
    } else if Candidate(leaf, m) == Candidate(leaf, n) {
      CollisionInjective(leaf, m, n);
    }
  }

  const TEMP := ".clipbeam-tmp-"

  lemma StorableIsNotTemporary(name: string, random: string)
    requires Storable(name)
    ensures name != TEMP + random && TEMP == ".clipbeam-tmp-"
  {
  }

  // ---------------------------------------------------------------- containment

  datatype Checked = Leaf(name: string) | PathEscape

  /** SafeLeaf; `target` is the save dir, with its symbolic links followed where it exists. */
  function SafeLeaf(raw: string, kind: string, uti: string, stamp: string, target: string): Checked
    requires IsStamp(stamp)
  {
    var cleaned := CleanName(raw, kind, uti, stamp);
    var dir := Clean(target);
    CleanIsSafe(raw, kind, uti, stamp);
    JoinUnder(target, cleaned);
    var candidate := Join(dir, cleaned);
    var prefix := if dir[|dir| - 1] == '/' then dir else dir + "/";
    if prefix <= candidate then Leaf(cleaned) else PathEscape
  }

  /** A leaf escapes if and only if the save dir is the current directory written as ".". */
  lemma EscapesIff(raw: string, kind: string, uti: string, stamp: string, target: string)
    requires IsStamp(stamp)
    ensures SafeLeaf(raw, kind, uti, stamp, target)
         == if Clean(target) == "." then PathEscape else Leaf(CleanName(raw, kind, uti, stamp))
  {
    var cleaned := CleanName(raw, kind, uti, stamp);
    CleanIsSafe(raw, kind, uti, stamp);
    JoinUnder(target, cleaned);
  }

  /** So an absolute save dir never reports an escape, and the candidate lies in it. */
  lemma AbsoluteDirIsSafe(raw: string, kind: string, uti: string, stamp: string, target: string)
    requires IsStamp(stamp) && IsRooted(target)
    ensures SafeLeaf(raw, kind, uti, stamp, target) == Leaf(CleanName(raw, kind, uti, stamp))
    ensures Clean(target) <= Under(Clean(target), CleanName(raw, kind, uti, stamp))
  {
    EscapesIff(raw, kind, uti, stamp, target);
    CleanIsSafe(raw, kind, uti, stamp);
    JoinUnder(target, CleanName(raw, kind, uti, stamp));
  }
}
