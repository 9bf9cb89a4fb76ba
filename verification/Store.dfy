/** The receive store: one save at a time, and what the two channels do with a saved file. */
module Store {
  import opened Basics
  import opened Paths
  import opened Sanitize
  import opened Collisions
  import opened Wire
  import opened Journal

  /** A directory: the path it is configured by, and that path with its symbolic links followed. */
  datatype Folder = Folder(path: string, target: string)
  {
    function Dest(name: string): string {
      Under(Clean(path), name)
    }
  }

  /** That is filepath.Join of the configured path and the name. */
  lemma DestIsJoin(f: Folder, name: string)
    requires IsLeaf(name)
    ensures Clean(f.path) != "" && f.Dest(name) == Join(Clean(f.path), name)
  {
    JoinUnder(f.path, name);
  }

  lemma DestInjective(f: Folder, a: string, b: string)
    requires f.Dest(a) == f.Dest(b)
    ensures a == b
  {
    var d := Clean(f.path);
    assert a == (d + "/" + a)[|d| + 1..] && b == (d + "/" + b)[|d| + 1..];
    assert a == ("/" + a)[1..] && b == ("/" + b)[1..];
  }

  /** What a reader yields, and whether it, or the disk written to, fails on the way. */
  datatype Source = Source(bytes: seq<byte>, fails: bool)

  /** How a save ends; an agent file can be stored and given to the FIFO and still miss the journal. */
  datatype Saving = Saved(path: string) | Unjournalled(path: string) | Escapes | Fails
  {
    predicate Stored() {
      Saved? || Unjournalled?
    }
  }

  datatype Recent = Recent(path: string, sender: string)

  const RECENTS_CAP := 20

  /** The last entries, in their order, and no more than `n` of them. */
  function LastOf<T>(s: seq<T>, n: nat): (r: seq<T>)
    ensures |r| == Min(|s|, n) && forall k :: 0 <= k < |r| ==> r[k] == s[|s| - |r| + k]
  {
    if |s| <= n then s else s[|s| - n..]
  }

  /** The path of the n-th candidate. */
  function Nth(f: Folder, leaf: string, n: nat): string {
    f.Dest(Candidate(leaf, n))
  }

  /** The n-th candidate is the first whose path is free. */
  ghost predicate FirstFree(taken: set<string>, f: Folder, leaf: string, n: nat) {
    n >= 1 && Nth(f, leaf, n) !in taken && forall k :: 1 <= k < n ==> Nth(f, leaf, k) in taken
  }

  /** The path is that of the first candidate for the leaf that is free. */
  ghost predicate NamedBy(taken: set<string>, f: Folder, leaf: string, path: string) {
    exists n: nat :: FirstFree(taken, f, leaf, n) && path == Nth(f, leaf, n)
  }

  /** A leaf that is free is the name. */
  lemma FreeLeafIsName(taken: set<string>, f: Folder, leaf: string, path: string)
    requires NamedBy(taken, f, leaf, path) && f.Dest(leaf) !in taken
    ensures path == f.Dest(leaf)
  {
    var n: nat :| FirstFree(taken, f, leaf, n) && path == Nth(f, leaf, n);
    assert Nth(f, leaf, 1) == f.Dest(leaf);
  }

  /** A safe name that is neither too long nor taken is the name, whatever the kind and the uti are. */
  lemma FreeNameIsKept(taken: set<string>, f: Folder, name: string, kind: string, uti: string, stamp: string,
                       path: string)
    requires IsStamp(stamp) && Neat(name) && |name| <= NAME_MAX && f.Dest(name) !in taken
    requires NamedBy(taken, f, CleanName(name, kind, uti, stamp), path)
    ensures path == f.Dest(name)
  {
    KeptIff(name, kind, uti, stamp);
    FreeLeafIsName(taken, f, name, path);
  }

  /** The candidates before the i-th are taken; the paths of later ones that are taken too are in `rest`. */
  ghost predicate Probed(files: map<string, seq<byte>>, rest: set<string>, f: Folder, leaf: string, i: nat) {
    && i >= 1
    && (forall k :: 1 <= k < i ==> Nth(f, leaf, k) in files)
    && (forall k :: k >= i && Nth(f, leaf, k) in files ==> Nth(f, leaf, k) in rest)
  }

  lemma ProbeOn(files: map<string, seq<byte>>, rest: set<string>, f: Folder, leaf: string, i: nat)
    requires Probed(files, rest, f, leaf, i) && Nth(f, leaf, i) in files
    ensures Nth(f, leaf, i) in rest && Probed(files, rest - {Nth(f, leaf, i)}, f, leaf, i + 1)
  {
    forall k | k >= i + 1 && Nth(f, leaf, k) in files ensures Nth(f, leaf, k) in rest - {Nth(f, leaf, i)} {
      LaterDiffer(f, leaf, i, k);
    }
    forall k | 1 <= k < i + 1 ensures Nth(f, leaf, k) in files {
      assert k < i || k == i;
    }
  }

  lemma LaterDiffer(f: Folder, leaf: string, i: nat, k: nat)
    requires 1 <= i < k
    ensures Nth(f, leaf, k) != Nth(f, leaf, i)
  {
    CandidatesDiffer(leaf, i, k);
    if Nth(f, leaf, k) == Nth(f, leaf, i) {
      DestInjective(f, Candidate(leaf, k), Candidate(leaf, i));
    }
  }

  lemma NotTemporary(f: Folder, leaf: string, n: nat, random: string)
    requires Safe(leaf)
    ensures Nth(f, leaf, n) != f.Dest(TEMP + random)
  {
    CandidateIsStorable(leaf, n);
    StorableIsNotTemporary(Candidate(leaf, n), random);
    if Nth(f, leaf, n) == f.Dest(TEMP + random) {
      DestInjective(f, Candidate(leaf, n), TEMP + random);
    }
  }

  /** The path is none that a temporary file can have. */
  ghost predicate NoTemporary(f: Folder, path: string) {
    forall x: string :: f.Dest(TEMP + x) != path
  }

  /** Sanitizing and the containment check. */
  method PickLeaf(f: Folder, name: string, kind: string, uti: string, stamp: string) returns (leaf: Option<string>)
    requires IsStamp(stamp)
    ensures leaf == if Clean(f.target) == "." then None else Some(CleanName(name, kind, uti, stamp))
    ensures Safe(CleanName(name, kind, uti, stamp))
  {
    EscapesIff(name, kind, uti, stamp, f.target);
    CleanIsSafe(name, kind, uti, stamp);
    var checked := SafeLeaf(name, kind, uti, stamp, f.target);
    leaf := if checked.PathEscape? then None else Some(checked.name);
  }

  /** How a save from the source into the folder ends. */
  ghost predicate Ends(f: Folder, r: Source, s: Saving) {
    && (s.Escapes? <==> Clean(f.target) == ".")
    && (s.Fails? <==> Clean(f.target) != "." && r.fails)
  }

  /** The entries for saved paths. */
  function RecentsOf(paths: seq<string>, sender: string): (r: seq<Recent>)
    ensures |r| == |paths|
    ensures forall k :: 0 <= k < |r| ==> r[k].path == paths[k] && r[k].sender == sender
  {
    seq(|paths|, i requires 0 <= i < |paths| => Recent(paths[i], sender))
  }

  /** What is read of a recents file; one that is missing or corrupt is empty. */
  function Loaded(file: Option<seq<Recent>>): (r: seq<Recent>)
    ensures file.Some? ==> r == file.value
    ensures file.None? ==> r == []
  {
    if file.Some? then file.value else []
  }

  /** A save adds its one file, under a free path that is none of a temporary file, or nothing. */
  ghost predicate StoresOne(was: map<string, seq<byte>>, now: map<string, seq<byte>>, f: Folder, s: Saving,
                       bytes: seq<byte>)
  {
    if s.Stored() then s.path !in was && now == was[s.path := bytes] && NoTemporary(f, s.path) else now == was
  }

  /** The text is these bytes, one character for each. */
  ghost predicate SameBytes(text: string, bytes: seq<byte>) {
    |text| == |bytes| && forall j :: 0 <= j < |bytes| ==> text[j] as int == bytes[j]
  }

  /** The agent item of a saved file: an image is an image, and anything else a file. */
  ghost predicate IsFileItem(a: AgentItem, kind: string, sender: string, path: string) {
    && (a.kind == "image" <==> kind == "image") && (a.kind == "file" <==> kind != "image")
    && a.sender == sender && a.path == Some(path) && a.text.None?
  }

  /** The agent item of a text, which has its bytes. */
  ghost predicate IsTextItem(a: AgentItem, sender: string, bytes: seq<byte>) {
    a.kind == "text" && a.sender == sender && a.path.None? && a.text.Some? && SameBytes(a.text.value, bytes)
  }

  function FileItem(kind: string, sender: string, path: string): (a: AgentItem)
    ensures IsFileItem(a, kind, sender, path)
  {
    AgentItem(if kind == "image" then "image" else "file", sender, Some(path), None)
  }

  function TextItem(sender: string, text: seq<byte>): (a: AgentItem)
    ensures IsTextItem(a, sender, text)
  {
    AgentItem("text", sender, None, Some(seq(|text|, i requires 0 <= i < |text| => text[i] as char)))
  }

  /** The name of a text's sidecar file. */
  function TextName(stamp: string): string {
    "clipbeam-" + stamp + ".txt"
  }

  lemma TextNameIsKept(stamp: string, kind: string, uti: string)
    requires IsStamp(stamp)
    ensures CleanName(TextName(stamp), kind, uti, stamp) == TextName(stamp)
  {
    NeatName(stamp, "txt");
    assert TextName(stamp) == Dated(stamp, "txt");
    KeptIff(TextName(stamp), kind, uti, stamp);
  }

  lemma OnlyDestChanges(files: map<string, seq<byte>>, dest: string, tmp: string, bytes: seq<byte>)
    requires tmp !in files && dest !in files && tmp != dest
    ensures (files[dest := []] - {tmp})[dest := bytes] == files[dest := bytes]
    ensures files[dest := []] - {tmp} - {dest} == files
  {
  }

  class ReceiveStore {
    const saveDir: Folder
    const inbox: Folder
    const saveTextToDisk: bool
    const longTextThreshold: int
    const journals: bool

    var files: map<string, seq<byte>>      // all files, by path
    var lastPath: string
    var lastPathFile: string               // what is in the last_path file
    var lastPathWritable: bool
    var recents: Option<seq<Recent>>       // what is in the recents file, if it can be read
    var recentsWritable: bool
    var resumed: seq<string>               // the paths that /wait waiters were resumed with
    var enqueued: seq<AgentItem>           // the items given to the agent FIFO
    var journal: seq<Record>               // the records given to the journal

    /** uniqueLeaf: the candidates are tried in turn, and one of them is free. */
    method UniqueLeaf(f: Folder, leaf: string) returns (final: string, n: nat)
      ensures FirstFree(files.Keys, f, leaf, n) && final == Candidate(leaf, n)
    {
      final := leaf;
      n := 1;
      ghost var rest := files.Keys;
      while f.Dest(final) in files
        invariant final == Candidate(leaf, n) && Probed(files, rest, f, leaf, n)
        decreases rest
      {
        ProbeOn(files, rest, f, leaf, n);
        rest := rest - {f.Dest(final)};
        n := n + 1;
        final := CollisionName(leaf, n);
      }
    }

    /** writeAtomicFsync: into a temporary file, and on success over the destination. */
    method WriteAtomic(tmp: string, dest: string, r: Source) returns (ok: bool)
      requires tmp != dest
      modifies this`files
      ensures ok == !r.fails
      ensures files == if ok then (old(files) - {tmp})[dest := r.bytes] else old(files) - {tmp}
    {
      files := files[tmp := r.bytes];
      if r.fails {
        files := files - {tmp};
        return false;
      }
      files := (files - {tmp})[dest := r.bytes];
      ok := true;
    }

    /** Reserve a free name for the leaf and write to it; a failed write takes the placeholder away. */
    method SaveAs(f: Folder, leaf: string, r: Source, random: string) returns (path: Option<string>, ghost n: nat)
      requires Safe(leaf) && f.Dest(TEMP + random) !in files
      modifies this`files
      ensures path == if r.fails then None else Some(Nth(f, leaf, n))
      ensures path.None? ==> files == old(files)
      ensures path.Some? ==> FirstFree(old(files).Keys, f, leaf, n) && files == old(files)[path.value := r.bytes]
    {
      var final, i := UniqueLeaf(f, leaf);
      n := i;
      var dest := f.Dest(final);
      NotTemporary(f, leaf, n, random);
      OnlyDestChanges(files, dest, f.Dest(TEMP + random), r.bytes);
      files := files[dest := []];   // reserve
      var ok := WriteAtomic(f.Dest(TEMP + random), dest, r);
      if !ok {
        files := files - {dest};
        return None, n;
      }
      path := Some(dest);
    }

    /**
      saveStream: a save that succeeds adds one file, under the first of its names that is
      free, and one that fails adds none; either way every other file is what it was.
     */
    method SaveStream(f: Folder, name: string, kind: string, uti: string, r: Source, stamp: string, random: string)
      returns (s: Saving)
      requires IsStamp(stamp) && f.Dest(TEMP + random) !in files
      modifies this`files
      ensures Ends(f, r, s) && !s.Unjournalled? && StoresOne(old(files), files, f, s, r.bytes)
      ensures s.Saved? ==> NamedBy(old(files).Keys, f, CleanName(name, kind, uti, stamp), s.path)
    {
      var leaf := PickLeaf(f, name, kind, uti, stamp);
      if leaf.None? {
        return Escapes;
      }
      var path, n := SaveAs(f, leaf.value, r, random);
      if path.None? {
        return Fails;
      }
      forall x: string ensures f.Dest(TEMP + x) != path.value {
        NotTemporary(f, leaf.value, n, x);
      }
      s := Saved(path.value);
    }

    method SaveClipboardItem(name: string, kind: string, uti: string, r: Source, stamp: string, random: string)
      returns (s: Saving)
      requires IsStamp(stamp) && saveDir.Dest(TEMP + random) !in files
      modifies this`files
      ensures Ends(saveDir, r, s) && !s.Unjournalled? && StoresOne(old(files), files, saveDir, s, r.bytes)
      ensures s.Saved? ==> NamedBy(old(files).Keys, saveDir, CleanName(name, kind, uti, stamp), s.path)
      ensures s.Saved? && Neat(name) && |name| <= NAME_MAX && saveDir.Dest(name) !in old(files) ==>
                s.path == saveDir.Dest(name)
    {
      s := SaveStream(saveDir, name, kind, uti, r, stamp, random);
      if s.Saved? && Neat(name) && |name| <= NAME_MAX && saveDir.Dest(name) !in old(files) {
        FreeNameIsKept(old(files).Keys, saveDir, name, kind, uti, stamp, s.path);
      }
    }

    /** A text goes to a file only if it is long, or all texts do; None is a text that is not written. */
    method SaveClipboardText(text: seq<byte>, diskFails: bool, stamp: string, random: string)
      returns (s: Option<Saving>)
      requires IsStamp(stamp) && saveDir.Dest(TEMP + random) !in files
      modifies this`files
      ensures s.None? <==> !saveTextToDisk && |text| <= longTextThreshold
      ensures s.None? ==> files == old(files)
      ensures s.Some? ==> Ends(saveDir, Source(text, diskFails), s.value) && !s.value.Unjournalled?
                          && StoresOne(old(files), files, saveDir, s.value, text)
      ensures s.Some? && s.value.Saved? ==>
                NamedBy(old(files).Keys, saveDir, "clipbeam-" + stamp + ".txt", s.value.path)
    {
      if !saveTextToDisk && |text| <= longTextThreshold {
        return None;
      }
      var name := "clipbeam-" + stamp + ".txt";
      var saving := SaveStream(saveDir, name, "file", "public.plain-text", Source(text, diskFails), stamp, random);
      TextNameIsKept(stamp, "file", "public.plain-text");
      s := Some(saving);
    }

    /** What an accepted ingest leaves to be read: last_path, the recents and the waiters. */
    method FinishClipboard(sender: string, savedPaths: seq<string>)
      modifies this`lastPath, this`lastPathFile, this`recents, this`resumed
      ensures savedPaths == [] ==> unchanged(this)
      ensures savedPaths != [] ==>
        && lastPath == savedPaths[|savedPaths| - 1] && resumed == old(resumed) + [lastPath]
        && lastPathFile == (if lastPathWritable then lastPath else old(lastPathFile))
        && recents == if recentsWritable
             then Some(LastOf(Loaded(old(recents)) + RecentsOf(savedPaths, sender), 20)) else old(recents)
    {
      if |savedPaths| > 0 {
        lastPath := savedPaths[|savedPaths| - 1];
        if lastPathWritable {
          lastPathFile := lastPath;
        }
        AppendRecents(savedPaths, sender);
        resumed := resumed + [lastPath];
      }
    }

    /** appendRecents: a file that cannot be read counts as empty, one that cannot be written stays. */
    method AppendRecents(paths: seq<string>, sender: string)
      modifies this`recents
      ensures recents == if paths != [] && recentsWritable
                then Some(LastOf(Loaded(old(recents)) + RecentsOf(paths, sender), 20)) else old(recents)
    {
      if |paths| == 0 {
        return;
      }
      var all := Loaded(recents);
      for i := 0 to |paths|
        invariant all == Loaded(old(recents)) + RecentsOf(paths, sender)[..i]
      {
        all := all + [Recent(paths[i], sender)];
      }
      assert RecentsOf(paths, sender)[..|paths|] == RecentsOf(paths, sender);
      if |all| > RECENTS_CAP {
        all := all[|all| - RECENTS_CAP..];
      }
      if recentsWritable {
        recents := Some(all);
      }
    }

    /** What is journalled of the items given to the FIFO. */
    function Journalled(items: seq<AgentItem>): (r: seq<Record>)
      ensures |r| == if journals then |items| else 0
      ensures forall k :: 0 <= k < |r| ==> r[k] == ItemToRecord(items[k])
    {
      if journals then seq(|items|, i requires 0 <= i < |items| => ItemToRecord(items[i])) else []
    }

    /** Give an item to the agent FIFO, and then to the journal where there is one. */
    method Deliver(item: AgentItem, journalFails: bool) returns (ok: bool)
      modifies this`enqueued, this`journal
      ensures ok == !(journals && journalFails)
      ensures enqueued == old(enqueued) + [item]
      ensures journal == old(journal) + Journalled(if ok then [item] else [])
    {
      enqueued := enqueued + [item];
      if journals {
        if journalFails {
          return false;
        }
        journal := journal + [ItemToRecord(item)];
        assert Journalled([item]) == [ItemToRecord(item)];
      }
      ok := true;
    }

    method SaveAgentItem(sender: string, name: string, kind: string, uti: string, r: Source, journalFails: bool,
                         stamp: string, random: string)
      returns (s: Saving)
      requires IsStamp(stamp) && inbox.Dest(TEMP + random) !in files
      modifies this`files, this`enqueued, this`journal
      ensures Ends(inbox, r, s) && StoresOne(old(files), files, inbox, s, r.bytes)
      ensures s.Stored() ==> NamedBy(old(files).Keys, inbox, CleanName(name, kind, uti, stamp), s.path)
      ensures s.Stored() && Neat(name) && |name| <= NAME_MAX && inbox.Dest(name) !in old(files) ==>
                s.path == inbox.Dest(name)
      ensures s.Unjournalled? ==> journals && journalFails
      ensures s.Saved? ==> !(journals && journalFails)
      ensures s.Stored() ==> enqueued == old(enqueued) + [FileItem(kind, sender, s.path)]
      ensures s.Saved? ==> journal == old(journal) + Journalled([FileItem(kind, sender, s.path)])
      ensures s.Unjournalled? ==> journal == old(journal)
      ensures !s.Stored() ==> enqueued == old(enqueued) && journal == old(journal)
    {
      s := SaveStream(inbox, name, kind, uti, r, stamp, random);
      if s.Saved? {
        if Neat(name) && |name| <= NAME_MAX && inbox.Dest(name) !in old(files) {
          FreeNameIsKept(old(files).Keys, inbox, name, kind, uti, stamp, s.path);
        }
        var ok := Deliver(FileItem(kind, sender, s.path), journalFails);
        if !ok {
          assert Journalled([]) == [];
          s := Unjournalled(s.path);
        }
      }
    }

    method EnqueueAgentText(sender: string, text: seq<byte>, journalFails: bool) returns (ok: bool)
      modifies this`enqueued, this`journal
      ensures ok == !(journals && journalFails)
      ensures enqueued == old(enqueued) + [TextItem(sender, text)]
      ensures journal == old(journal) + Journalled(if ok then [TextItem(sender, text)] else [])
    {
      ok := Deliver(TextItem(sender, text), journalFails);
    }

    method Remove(path: string)
      modifies this`files
      ensures files == old(files) - {path}
    {
      files := files - {path};
    }
  }
}
