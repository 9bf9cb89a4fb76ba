/** Slash-separated paths: the parts of Go's path/filepath that the store uses. */
module Paths {
  import opened Strings

  function StripSlashes(s: string): (r: string)
    ensures r <= s && (r != "" ==> r[|r| - 1] != '/')
  {
    if |s| > 0 && s[|s| - 1] == '/' then StripSlashes(s[..|s| - 1]) else s
  }

  /** filepath.Base */
  function Base(path: string): (r: string)
    ensures r != "" && (r == "/" || '/' !in r) && (path != "" ==> |r| <= |path|)
  {
    if path == "" then "."
    else
      var p := StripSlashes(path);
      var leaf := p[LastIndexOf(p, '/') + 1..];
      if leaf == "" then "/" else leaf
  }

  lemma BaseOfLeaf(name: string)
    requires name != "" && '/' !in name
    ensures Base(name) == name
  {
    assert StripSlashes(name) == name;
    assert LastIndexOf(name, '/') == -1;
  }

  lemma {:induction false} StripsSlashes(s: string, slashes: string)
    requires s != "" && s[|s| - 1] != '/' && forall c <- slashes :: c == '/'
    ensures StripSlashes(s + slashes) == s
    decreases |slashes|
  {
    if slashes == "" {
      assert s + slashes == s;
    } else {
      var n := |slashes| - 1;
      assert slashes[n] in slashes && forall c <- slashes[..n] :: c in slashes;
      assert (s + slashes)[..|s + slashes| - 1] == s + slashes[..n] && (s + slashes)[|s + slashes| - 1] == slashes[n];
      StripsSlashes(s, slashes[..n]);
    }
  }

  lemma {:induction false} LastSlash(dir: string, leaf: string)
    requires '/' !in leaf && (dir == "" || dir[|dir| - 1] == '/')
    ensures LastIndexOf(dir + leaf, '/') == |dir| - 1
  {
    var s, i := dir + leaf, LastIndexOf(dir + leaf, '/');
    assert forall j :: |dir| <= j < |s| ==> s[j] == leaf[j - |dir|] && s[j] in leaf;
    if dir != "" {
      assert s[|dir| - 1] == '/';
    }
  }

  /** The base of a path is its last component, whatever slashes follow it. */
  lemma BaseOfPath(dir: string, leaf: string, slashes: string)
    requires leaf != "" && '/' !in leaf && (dir == "" || dir[|dir| - 1] == '/') && forall c <- slashes :: c == '/'
    ensures Base(dir + leaf + slashes) == leaf
  {
    var p := dir + leaf;
    assert p[|p| - 1] == leaf[|leaf| - 1] && leaf[|leaf| - 1] in leaf;
    StripsSlashes(p, slashes);
    LastSlash(dir, leaf);
    assert p[|dir|..] == leaf;
  }

  // ---------------------------------------------------------------- filepath.Clean and filepath.Join

  function Split(s: string): (parts: seq<string>)
    ensures parts != []
    decreases |s|
  {
    var i := IndexOf(s, '/');
    if i < 0 then [s] else [s[..i]] + Split(s[i + 1..])
  }

  function JoinSlash(parts: seq<string>): string {
    if |parts| == 0 then "" else if |parts| == 1 then parts[0] else parts[0] + "/" + JoinSlash(parts[1..])
  }

  /** The parts that are left when "." and ".." are worked off. */
  function Reduce(rooted: bool, parts: seq<string>, done: seq<string>): seq<string>
    decreases parts
  {
    if |parts| == 0 then done
    else
      var p, more := parts[0], parts[1..];
      if p == "" || p == "." then Reduce(rooted, more, done)
      else if p != ".." then Reduce(rooted, more, done + [p])
      else if |done| > 0 && done[|done| - 1] != ".." then Reduce(rooted, more, done[..|done| - 1])
      else if rooted then Reduce(rooted, more, done)
      else Reduce(rooted, more, done + [p])
  }

  function Show(rooted: bool, parts: seq<string>): string {
    if |parts| == 0 then (if rooted then "/" else ".") else (if rooted then "/" else "") + JoinSlash(parts)
  }

  predicate IsRooted(path: string) {
    |path| > 0 && path[0] == '/'
  }

  /** filepath.Clean */
  function Clean(path: string): string {
    if path == "" then "." else Show(IsRooted(path), Reduce(IsRooted(path), Split(path), []))
  }

  /** filepath.Join of two elements, neither of them empty. */
  function Join(dir: string, leaf: string): string
    requires dir != "" && leaf != ""
  {
    Clean(dir + "/" + leaf)
  }

  /** A file name that is one component and not a reference to a directory. */
  predicate IsLeaf(name: string) {
    name != "" && '/' !in name && name != "." && name != ".."
  }

  /** The form of a cleaned path: names, behind ".."s that only a relative path can have. */
  predicate Canonical(rooted: bool, parts: seq<string>) {
    && (forall p <- parts :: p != "" && p != "." && '/' !in p)
    && (forall i :: 0 <= i < |parts| && parts[i] == ".." ==> !rooted && forall j :: 0 <= j < i ==> parts[j] == "..")
  }

  lemma {:induction false} SplitParts(s: string)
    ensures forall p <- Split(s) :: '/' !in p
    decreases |s|
  {
    var i := IndexOf(s, '/');
    if i >= 0 {
      SplitParts(s[i + 1..]);
    }
  }

  lemma {:induction false} ReduceIsCanonical(rooted: bool, parts: seq<string>, done: seq<string>)
    requires Canonical(rooted, done) && forall p <- parts :: '/' !in p
    ensures Canonical(rooted, Reduce(rooted, parts, done))
    decreases parts
  {
    if |parts| > 0 {
      var p, more := parts[0], parts[1..];
      if p == "" || p == "." {
        ReduceIsCanonical(rooted, more, done);
      } else if p != ".." {
        ReduceIsCanonical(rooted, more, done + [p]);
      } else if |done| > 0 && done[|done| - 1] != ".." {
        var shorter := done[..|done| - 1];
        assert forall q <- shorter :: q in done;
        ReduceIsCanonical(rooted, more, shorter);
      } else if rooted {
        ReduceIsCanonical(rooted, more, done);
      } else {
        assert forall j :: 0 <= j < |done| ==> done[j] == "..";
        ReduceIsCanonical(rooted, more, done + [p]);
      }
    }
  }

  /** Canonical parts are worked off to themselves. */
  lemma {:induction false} ReduceKeeps(rooted: bool, parts: seq<string>, more: seq<string>, done: seq<string>)
    requires Canonical(rooted, done + parts)
    ensures Reduce(rooted, parts + more, done) == Reduce(rooted, more, done + parts)
    decreases parts
  {
    if |parts| == 0 {
      assert parts + more == more && done + parts == done;
    } else {
      var p := parts[0];
      assert (done + parts)[|done|] == p && p in done + parts;
      assert (parts + more)[1..] == parts[1..] + more;
      assert done + parts == (done + [p]) + parts[1..];
      if p == ".." && |done| > 0 {
        assert (done + parts)[|done| - 1] == "..";
      }
      ReduceKeeps(rooted, parts[1..], more, done + [p]);
    }
  }

  lemma {:induction false} SplitFirst(p: string, s: string)
    requires '/' !in p
    ensures Split(p + "/" + s) == [p] + Split(s) && Split(p) == [p]
  {
    var t := p + "/" + s;
    assert t[|p|] == '/';
    var i := IndexOf(t, '/');
    assert i == |p| by {
      assert forall j :: 0 <= j < |p| ==> t[j] == p[j];
    }
    assert t[..i] == p && t[i + 1..] == s;
  }

  lemma SplitJoin(parts: seq<string>, leaf: string)
    requires parts != [] && (forall p <- parts :: '/' !in p) && '/' !in leaf
    ensures Split(JoinSlash(parts) + "/" + leaf) == parts + [leaf]
  {
    JoinSlashAppends(parts, leaf);
    SplitJoined(parts + [leaf]);
  }

  lemma {:induction false} JoinSlashAppends(parts: seq<string>, leaf: string)
    requires parts != []
    ensures JoinSlash(parts + [leaf]) == JoinSlash(parts) + "/" + leaf
  {
    if |parts| > 1 {
      JoinSlashAppends(parts[1..], leaf);
      assert (parts + [leaf])[1..] == parts[1..] + [leaf];
    } else {
      assert (parts + [leaf])[1..] == [leaf];
    }
  }

  /** Where a leaf ends up under a cleaned directory. */
  function Under(dir: string, leaf: string): string {
    if dir == "." then leaf else if dir == "/" then "/" + leaf else dir + "/" + leaf
  }

  lemma JoinSlashStarts(parts: seq<string>)
    requires parts != [] && forall p <- parts :: p != "" && p != "." && '/' !in p
    ensures JoinSlash(parts) != "" && JoinSlash(parts) != "." && JoinSlash(parts)[0] != '/'
  {
    assert parts[0] in parts;
  }

  lemma {:induction false} ReduceSkips(rooted: bool, skip: seq<string>, more: seq<string>)
    requires forall p <- skip :: p == "" || p == "."
    ensures Reduce(rooted, skip + more, []) == Reduce(rooted, more, [])
    decreases |skip|
  {
    if skip == [] {
      assert skip + more == more;
    } else {
      var rest := skip[1..];
      assert skip[0] in skip && forall p <- rest :: p in skip;
      assert (skip + more)[1..] == rest + more;
      ReduceSkips(rooted, rest, more);
    }
  }

  lemma CleanOfParts(rooted: bool, skip: seq<string>, parts: seq<string>, leaf: string, path: string)
    requires Canonical(rooted, parts) && IsLeaf(leaf) && path != "" && IsRooted(path) == rooted
    requires Split(path) == skip + (parts + [leaf]) && forall p <- skip :: p == "" || p == "."
    ensures Clean(path) == Show(rooted, parts + [leaf])
  {
    ReduceSkips(rooted, skip, parts + [leaf]);
    assert [] + parts == parts;
    ReduceKeeps(rooted, parts, [leaf], []);
    assert Reduce(rooted, [leaf], parts) == parts + [leaf];
  }

  lemma UnderRooted(parts: seq<string>, leaf: string)
    requires Canonical(true, parts) && parts != [] && IsLeaf(leaf)
    ensures Clean(Show(true, parts) + "/" + leaf) == Show(true, parts) + "/" + leaf
  {
    SplitJoin(parts, leaf);
    JoinSlashAppends(parts, leaf);
    var inner := JoinSlash(parts) + "/" + leaf;
    EmptyFirst(inner);
    CleanOfParts(true, [""], parts, leaf, "/" + inner);
    Slashes(JoinSlash(parts), leaf);
  }

  lemma EmptyFirst(s: string)
    ensures Split("/" + s) == [""] + Split(s) && IsRooted("/" + s)
  {
    assert "" + "/" + s == "/" + s;
    SplitFirst("", s);
  }

  lemma Slashes(a: string, leaf: string)
    ensures "/" + a + "/" + leaf == "/" + (a + "/" + leaf)
  {
  }

  lemma UnderRelative(parts: seq<string>, leaf: string)
    requires Canonical(false, parts) && parts != [] && IsLeaf(leaf)
    ensures Clean(Show(false, parts) + "/" + leaf) == Show(false, parts) + "/" + leaf
  {
    SplitJoin(parts, leaf);
    JoinSlashAppends(parts, leaf);
    JoinSlashStarts(parts);
    var path := JoinSlash(parts) + "/" + leaf;
    assert Show(false, parts) == JoinSlash(parts);
    assert [] + (parts + [leaf]) == parts + [leaf];
    CleanOfParts(false, [], parts, leaf, path);
  }

  lemma UnderRoot(leaf: string)
    requires IsLeaf(leaf)
    ensures Clean("/" + "/" + leaf) == "/" + leaf
  {
    var path := "/" + "/" + leaf;
    SplitFirst(leaf, "");
    SplitFirst("", leaf);
    assert "" + "/" + leaf == "/" + leaf;
    SplitFirst("", "/" + leaf);
    assert "" + "/" + ("/" + leaf) == path;
    assert Split(path) == ["", ""] + ([] + [leaf]);
    CleanOfParts(true, ["", ""], [], leaf, path);
  }

  lemma UnderHere(leaf: string)
    requires IsLeaf(leaf)
    ensures Clean("." + "/" + leaf) == leaf
  {
    var path := "." + "/" + leaf;
    SplitFirst(leaf, "");
    SplitFirst(".", leaf);
    assert Split(path) == ["."] + ([] + [leaf]);
    CleanOfParts(false, ["."], [], leaf, path);
  }

  /** Joining a leaf to a cleaned directory only puts a slash between them. */
  lemma JoinUnder(path: string, leaf: string)
    requires IsLeaf(leaf)
    ensures Clean(path) != "" && Join(Clean(path), leaf) == Under(Clean(path), leaf)
  {
    UnderRoot(leaf);
    UnderHere(leaf);
    if path != "" {
      var rooted := IsRooted(path);
      SplitParts(path);
      ReduceIsCanonical(rooted, Split(path), []);
      var parts := Reduce(rooted, Split(path), []);
      if parts != [] {
        JoinSlashStarts(parts);
        if rooted {
          UnderRooted(parts, leaf);
        } else {
          UnderRelative(parts, leaf);
        }
      }
    }
  }

  // ---------------------------------------------------------------- what cleaning does

  /** A path of these components. */
  function Path(rooted: bool, parts: seq<string>): string {
    (if rooted then "/" else "") + JoinSlash(parts)
  }

  /** Components without slashes, the first of a relative path not empty. */
  predicate Components(rooted: bool, parts: seq<string>) {
    parts != [] && (forall p <- parts :: '/' !in p) && (rooted || parts[0] != "")
  }

  lemma {:induction false} SplitJoined(parts: seq<string>)
    requires parts != [] && forall p <- parts :: '/' !in p
    ensures Split(JoinSlash(parts)) == parts
  {
    assert parts[0] in parts;
    SplitFirst(parts[0], "");
    if |parts| == 1 {
      assert parts == [parts[0]];
    } else {
      SplitJoined(parts[1..]);
      SplitFirst(parts[0], JoinSlash(parts[1..]));
      assert parts == [parts[0]] + parts[1..];
    }
  }

  lemma CleanOfPath(rooted: bool, parts: seq<string>)
    requires Components(rooted, parts)
    ensures Clean(Path(rooted, parts)) == Show(rooted, Reduce(rooted, parts, []))
  {
    SplitJoined(parts);
    if rooted {
      EmptyFirst(JoinSlash(parts));
      ReduceSkips(true, [""], parts);
    } else {
      assert parts[0] in parts;
      RelativeStarts(parts);
      assert "" + JoinSlash(parts) == JoinSlash(parts);
    }
  }

  lemma RelativeStarts(parts: seq<string>)
    requires parts != [] && parts[0] != "" && '/' !in parts[0]
    ensures JoinSlash(parts) != "" && JoinSlash(parts)[0] == parts[0][0]
  {
  }

  lemma {:induction false} ReduceAppends(rooted: bool, a: seq<string>, b: seq<string>, done: seq<string>)
    ensures Reduce(rooted, a + b, done) == Reduce(rooted, b, Reduce(rooted, a, done))
    decreases |a|
  {
    if a == [] {
      assert a + b == b;
    } else {
      var p, more := a[0], a[1..];
      assert (a + b)[0] == p && (a + b)[1..] == more + b;
      if p == "" || p == "." {
        ReduceAppends(rooted, more, b, done);
      } else if p != ".." {
        ReduceAppends(rooted, more, b, done + [p]);
      } else if |done| > 0 && done[|done| - 1] != ".." {
        ReduceAppends(rooted, more, b, done[..|done| - 1]);
      } else if rooted {
        ReduceAppends(rooted, more, b, done);
      } else {
        ReduceAppends(rooted, more, b, done + [p]);
      }
    }
  }

  /** A step that goes nowhere: an empty component, a dot, or a name with the way back out of it. */
  predicate Detour(d: seq<string>) {
    d == [""] || d == ["."] || (|d| == 2 && d[0] != "" && d[0] != "." && d[0] != ".." && d[1] == "..")
  }

  lemma DetourIsNothing(rooted: bool, d: seq<string>, done: seq<string>)
    requires Detour(d)
    ensures Reduce(rooted, d, done) == done
  {
    if |d| == 2 {
      var there := done + [d[0]];
      assert d[1..] == [".."] && there[..|there| - 1] == done;
      assert Reduce(rooted, [".."], there) == Reduce(rooted, [], done);
    }
  }

  /** Detours do not count, wherever they are. */
  lemma DetoursAreDropped(rooted: bool, a: seq<string>, d: seq<string>, b: seq<string>)
    requires Components(rooted, a + b) && Components(rooted, a + d + b) && Detour(d)
    ensures Clean(Path(rooted, a + d + b)) == Clean(Path(rooted, a + b))
  {
    CleanOfPath(rooted, a + b);
    CleanOfPath(rooted, a + d + b);
    ReduceAppends(rooted, a + d, b, []);
    ReduceAppends(rooted, a, d, []);
    ReduceAppends(rooted, a, b, []);
    DetourIsNothing(rooted, d, Reduce(rooted, a, []));
  }

  /** There is no way up from the root. */
  lemma RootIsTop(b: seq<string>)
    requires Components(true, b)
    ensures Clean(Path(true, [".."] + b)) == Clean(Path(true, b))
  {
    CleanOfPath(true, b);
    CleanOfPath(true, [".."] + b);
    assert ([".."] + b)[1..] == b;
  }

  /** A path without detours is clean. */
  lemma CanonicalIsClean(rooted: bool, parts: seq<string>)
    requires Components(rooted, parts) && Canonical(rooted, parts)
    ensures Clean(Path(rooted, parts)) == Path(rooted, parts)
  {
    CleanOfPath(rooted, parts);
    assert parts + [] == parts && [] + parts == parts;
    ReduceKeeps(rooted, parts, [], []);
  }
}
