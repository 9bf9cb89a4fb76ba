/** What the items of an ingest leave in the directory and give to the agent, up to the one where it stops. */
module IngestJob {
  import opened Basics
  import opened Sanitize
  import opened Collisions
  import opened Wire
  import opened Lists
  import opened Store
  import opened Journal
  import opened IngestTerms

  // ---------------------------------------------------------------- the files of an ingest

  /** The files of `items` that are written, in order. */
  function Written(t: Terms, items: seq<Item>): seq<seq<byte>> {
    if |items| == 0 then []
    else
      var rest := Written(t, items[..|items| - 1]);
      var i := items[|items| - 1];
      if t.Writes(i) then rest + [i.source.bytes] else rest
  }

  /** The leaf an item is saved under. */
  function LeafOf(i: Item, stamp: string): string {
    if i.IsFile() then CleanName(i.name, i.kind, i.uti, stamp) else TextName(stamp)
  }

  /** The leaves of the items that are written, in order. */
  function Leaves(t: Terms, items: seq<Item>, stamps: seq<string>): seq<string>
    requires |stamps| == |items|
  {
    if |items| == 0 then []
    else
      var k := |items| - 1;
      var rest := Leaves(t, items[..k], stamps[..k]);
      if t.Writes(items[k]) then rest + [LeafOf(items[k], stamps[k])] else rest
  }

  /** Each path is that of the first candidate for its leaf which was free when its turn came. */
  ghost predicate Named(taken: set<string>, f: Folder, leaves: seq<string>, paths: seq<string>) {
    && |paths| == |leaves|
    && forall k :: 0 <= k < |paths| ==> NamedBy(taken + Seen(paths[..k]), f, leaves[k], paths[k])
  }

  lemma NamedMore(taken: set<string>, f: Folder, leaves: seq<string>, paths: seq<string>, leaf: string, path: string)
    requires Named(taken, f, leaves, paths) && NamedBy(taken + Seen(paths), f, leaf, path)
    ensures Named(taken, f, leaves + [leaf], paths + [path])
  {
    var all := paths + [path];
    forall k | 0 <= k < |all| ensures NamedBy(taken + Seen(all[..k]), f, (leaves + [leaf])[k], all[k]) {
      assert all[..k] == paths[..k];
      assert k == |paths| ==> paths[..k] == paths;
    }
  }

  /** An item with a safe name that nothing has yet is stored under that name. */
  lemma NamedPlainly(taken: set<string>, f: Folder, leaves: seq<string>, paths: seq<string>, k: nat, i: Item,
                     stamp: string)
    requires Named(taken, f, leaves, paths) && k < |paths| && leaves[k] == LeafOf(i, stamp) && IsStamp(stamp)
    requires i.IsFile() && Neat(i.name) && |i.name| <= NAME_MAX && f.Dest(i.name) !in taken + Seen(paths[..k])
    ensures paths[k] == f.Dest(i.name)
  {
    FreeNameIsKept(taken + Seen(paths[..k]), f, i.name, i.kind, i.uti, stamp, paths[k]);
  }

  /** `now` has, besides what was there, the contents under the paths, which were all free. */
  ghost predicate Adds(was: map<string, seq<byte>>, now: map<string, seq<byte>>, paths: seq<string>,
                       contents: seq<seq<byte>>)
  {
    && |paths| == |contents| && Distinct(paths)
    && (forall p <- paths :: p !in was)
    && (forall p :: p in now <==> p in was || p in paths)
    && (forall p <- was :: p in now && now[p] == was[p])
    && (forall k :: 0 <= k < |paths| ==> paths[k] in now && now[paths[k]] == contents[k])
  }

  lemma AddOne(was: map<string, seq<byte>>, now: map<string, seq<byte>>, paths: seq<string>,
               contents: seq<seq<byte>>, p: string, bytes: seq<byte>)
    requires Adds(was, now, paths, contents) && p !in now
    ensures Adds(was, now[p := bytes], paths + [p], contents + [bytes])
  {
  }

  /** The item's file stays. */
  predicate Stays(i: Item, v: Verdict) {
    i.IsFile() && (v == Accepted || v == JournalError)
  }

  /** An ingest into a folder: what was there before, the items and their stamps. */
  datatype Job = Job(was: map<string, seq<byte>>, f: Folder, t: Terms, items: seq<Item>, stamps: seq<string>)
  {
    ghost predicate Valid() {
      |stamps| == |items| && forall s <- stamps :: IsStamp(s)
    }

    /** The directory has, besides what was there, the files of the first `n` items, each under its name. */
    ghost predicate Holds(now: map<string, seq<byte>>, n: nat, paths: seq<string>)
      requires Valid() && n <= |items|
    {
      && Adds(was, now, paths, Written(t, items[..n]))
      && Named(was.Keys, f, Leaves(t, items[..n], stamps[..n]), paths)
    }

    /** How many items have left their file when the ingest has stopped at the n-th. */
    function Staying(n: nat, v: Verdict): (m: nat)
      requires n <= |items|
      ensures n <= m <= |items|
    {
      if n < |items| && Stays(items[n], v) then n + 1 else n
    }

    /** The first `n` items have been accepted. */
    ghost predicate SoFar(now: map<string, seq<byte>>, n: nat, saved: seq<string>, total: nat)
      requires Valid() && n <= |items|
    {
      t.Passes(items, n) && total == t.Sum(items[..n]) && Holds(now, n, saved)
    }
  }

  lemma WrittenNext(t: Terms, items: seq<Item>, stamps: seq<string>, n: nat)
    requires n < |items| == |stamps|
    ensures Written(t, items[..n + 1])
         == Written(t, items[..n]) + if t.Writes(items[n]) then [items[n].source.bytes] else []
    ensures Leaves(t, items[..n + 1], stamps[..n + 1])
         == Leaves(t, items[..n], stamps[..n]) + if t.Writes(items[n]) then [LeafOf(items[n], stamps[n])] else []
  {
    assert items[..n + 1][..n] == items[..n] && stamps[..n + 1][..n] == stamps[..n];
  }

  function PathsOf(path: Option<string>): seq<string> {
    if path.Some? then [path.value] else []
  }

  /** One more file is there, if the item has one. */
  ghost predicate Saves(j: Job, n: nat, path: Option<string>, now: map<string, seq<byte>>,
                        next: map<string, seq<byte>>)
    requires j.Valid() && n < |j.items|
  {
    SavesItem(j.f, j.items[n], j.stamps[n], path, now, next)
  }

  /** The item's file is added under the first free candidate for its leaf, or nothing is. */
  ghost predicate SavesItem(f: Folder, i: Item, stamp: string, path: Option<string>, now: map<string, seq<byte>>,
                            next: map<string, seq<byte>>)
  {
    && (path.None? ==> next == now)
    && (path.Some? ==>
          && path.value !in now && next == now[path.value := i.source.bytes]
          && NamedBy(now.Keys, f, LeafOf(i, stamp), path.value))
  }

  lemma HoldsMore(j: Job, now: map<string, seq<byte>>, next: map<string, seq<byte>>, n: nat, paths: seq<string>,
                  path: Option<string>)
    requires j.Valid() && n < |j.items| && j.Holds(now, n, paths) && Saves(j, n, path, now, next)
    requires path.Some? <==> j.t.Writes(j.items[n])
    ensures j.Holds(next, n + 1, paths + PathsOf(path))
  {
    var contents, leaves := Written(j.t, j.items[..n]), Leaves(j.t, j.items[..n], j.stamps[..n]);
    WrittenNext(j.t, j.items, j.stamps, n);
    if path.Some? {
      AddOne(j.was, now, paths, contents, path.value, j.items[n].source.bytes);
      KeysAre(j.was, now, paths, contents);
      NamedMore(j.was.Keys, j.f, leaves, paths, LeafOf(j.items[n], j.stamps[n]), path.value);
    } else {
      assert paths + [] == paths && contents + [] == contents && leaves + [] == leaves;
    }
  }

  lemma KeysAre(was: map<string, seq<byte>>, now: map<string, seq<byte>>, paths: seq<string>,
                contents: seq<seq<byte>>)
    requires Adds(was, now, paths, contents)
    ensures now.Keys == was.Keys + Seen(paths)
  {
  }

  /** One more item is accepted, and its file, if it has one, is there. */
  lemma SoFarGrows(j: Job, now: map<string, seq<byte>>, next: map<string, seq<byte>>, n: nat, saved: seq<string>,
                   total: nat, path: Option<string>)
    requires j.Valid() && n < |j.items| && j.SoFar(now, n, saved, total)
    requires j.t.Judge(j.items[n], total) == Accepted
    requires (path.Some? <==> j.t.Writes(j.items[n])) && Saves(j, n, path, now, next)
    ensures j.SoFar(next, n + 1, saved + PathsOf(path), total + j.t.Counted(j.items[n]))
  {
    CountsOn(j, n, total);
    HoldsMore(j, now, next, n, saved, path);
  }

  lemma CountsOn(j: Job, n: nat, total: nat)
    requires n < |j.items| && j.t.Passes(j.items, n) && total == j.t.Sum(j.items[..n])
    requires j.t.Judge(j.items[n], total) == Accepted
    ensures j.t.Passes(j.items, n + 1) && total + j.t.Counted(j.items[n]) == j.t.Sum(j.items[..n + 1])
  {
    j.t.SumNext(j.items, n);
    j.t.PassesNext(j.items, n);
  }

  lemma NothingYet(j: Job)
    requires j.Valid()
    ensures j.SoFar(j.was, 0, [], 0)
  {
  }

  /** The items have stopped at the n-th, and those before it have left their files. */
  ghost predicate ClipboardOutcome(j: Job, now: map<string, seq<byte>>, n: nat, v: Verdict, paths: seq<string>)
    requires j.Valid()
  {
    j.t.Stops(j.items, n, v) && j.Holds(now, n, paths)
  }

  /** The items before the n-th are saved and counted. */
  ghost predicate ClipboardSoFar(j: Job, now: map<string, seq<byte>>, n: nat, saved: seq<string>, total: nat)
    requires j.Valid() && n <= |j.items|
  {
    !j.t.agent && j.SoFar(now, n, saved, total)
  }

  lemma ClipboardStops(j: Job, now: map<string, seq<byte>>, n: nat, v: Verdict, saved: seq<string>, total: nat)
    requires j.Valid() && n <= |j.items| && j.SoFar(now, n, saved, total)
    requires if n == |j.items| then v == Accepted else v == j.t.Judge(j.items[n], total) && v != Accepted
    ensures ClipboardOutcome(j, now, n, v, saved)
  {
  }

  // ---------------------------------------------------------------- the agent channel

  /** The agent item tells of the ingested one: a file is under `path`, and a text has the item's bytes. */
  ghost predicate Tells(a: AgentItem, i: Item, path: Option<string>, files: map<string, seq<byte>>) {
    if i.IsFile() then
      && path.Some? && IsFileItem(a, i.kind, "", path.value)
      && path.value in files && files[path.value] == i.source.bytes
    else
      IsTextItem(a, "", i.source.bytes)
  }

  /** The agent item is of a file that is gone again. */
  ghost predicate Dangles(a: AgentItem, i: Item, files: map<string, seq<byte>>) {
    a.path.Some? && IsFileItem(a, i.kind, "", a.path.value) && a.path.value !in files
  }

  /** An item that goes over the maximum is given to the agent all the same, if it is a file. */
  predicate SentAndRemoved(i: Item, v: Verdict) {
    v == TooLarge && i.IsFile()
  }

  /** The agent is given the item: it is accepted, or too late refused. */
  predicate Sent(i: Item, v: Verdict) {
    v == Accepted || v == JournalError || SentAndRemoved(i, v)
  }

  /** What one item gives the agent. */
  ghost predicate AgentStep(i: Item, v: Verdict, path: Option<string>, sent: seq<AgentItem>,
                            files: map<string, seq<byte>>)
  {
    && (path.Some? <==> Stays(i, v))
    && |sent| == (if Sent(i, v) then 1 else 0)
    && (v == Accepted || v == JournalError ==> Tells(sent[0], i, path, files))
    && (SentAndRemoved(i, v) ==> Dangles(sent[0], i, files))
  }

  /** The path of the k-th item's file, by how many items before it have one. */
  ghost function PathAt(j: Job, paths: seq<string>, k: nat): Option<string>
    requires k < |j.items|
  {
    var before := |Written(j.t, j.items[..k])|;
    if j.t.Writes(j.items[k]) && before < |paths| then Some(paths[before]) else None
  }

  /** Every item before the n-th has been given to the agent, with its file in place. */
  ghost predicate AllTold(j: Job, sent: seq<AgentItem>, n: nat, paths: seq<string>, files: map<string, seq<byte>>)
    requires n <= |j.items|
  {
    n <= |sent| && forall k :: 0 <= k < n ==> Tells(sent[k], j.items[k], PathAt(j, paths, k), files)
  }

  /** More paths, items and files leave what has been told as it is. */
  lemma StillTold(j: Job, sent: seq<AgentItem>, n: nat, paths: seq<string>, was: map<string, seq<byte>>,
                  now: map<string, seq<byte>>, more: seq<AgentItem>, path: Option<string>)
    requires n <= |j.items| && AllTold(j, sent, n, paths, was) && forall p <- was :: p in now && now[p] == was[p]
    ensures AllTold(j, sent + more, n, paths + PathsOf(path), now)
  {
    forall k | 0 <= k < n
      ensures Tells((sent + more)[k], j.items[k], PathAt(j, paths + PathsOf(path), k), now) {
      assert Tells(sent[k], j.items[k], PathAt(j, paths, k), was);
    }
  }

  lemma AllToldGrows(j: Job, sent: seq<AgentItem>, n: nat, paths: seq<string>, was: map<string, seq<byte>>,
                     now: map<string, seq<byte>>, more: seq<AgentItem>, path: Option<string>)
    requires n < |j.items| && |sent| == n && AllTold(j, sent, n, paths, was) && j.t.agent
    requires |more| == 1 && Tells(more[0], j.items[n], path, now) && |paths| == |Written(j.t, j.items[..n])|
    requires path.Some? <==> j.items[n].IsFile()
    requires forall p <- was :: p in now && now[p] == was[p]
    ensures AllTold(j, sent + more, n + 1, paths + PathsOf(path), now)
  {
    StillTold(j, sent, n, paths, was, now, more, path);
    assert PathAt(j, paths + PathsOf(path), n) == path;
  }

  /** What the agent has been given when an ingest of the items has stopped at the n-th. */
  ghost predicate AgentGiven(j: Job, n: nat, v: Verdict, paths: seq<string>, sent: seq<AgentItem>,
                             files: map<string, seq<byte>>)
    requires n <= |j.items|
  {
    if n == |j.items| then |sent| == n && AllTold(j, sent, n, paths, files)
    else if v == JournalError then |sent| == n + 1 && AllTold(j, sent, n + 1, paths, files)
    else if SentAndRemoved(j.items[n], v) then
      |sent| == n + 1 && AllTold(j, sent, n, paths, files) && Dangles(sent[n], j.items[n], files)
    else |sent| == n && AllTold(j, sent, n, paths, files)
  }

  /** Every path the agent has been given is of a file that is there. */
  ghost predicate PathsExist(sent: seq<AgentItem>, files: map<string, seq<byte>>) {
    forall a <- sent :: a.path.Some? ==> a.path.value in files
  }

  /** That holds if and only if no file of the items takes the counted bytes over the maximum. */
  lemma PathsExistIff(j: Job, n: nat, v: Verdict, paths: seq<string>, sent: seq<AgentItem>,
                      files: map<string, seq<byte>>)
    requires j.t.Stops(j.items, n, v) && AgentGiven(j, n, v, paths, sent, files)
    ensures PathsExist(sent, files) <==> !j.t.GoesOverWithFile(j.items)
  {
    j.t.StopsOverFileIff(j.items, n, v);
    forall k | 0 <= k < |sent| && k < |j.items| && Tells(sent[k], j.items[k], PathAt(j, paths, k), files)
      ensures sent[k].path.Some? ==> sent[k].path.value in files {
    }
    if |sent| > n {
      assert sent[n] in sent;
    }
  }

  /** The items before the n-th are saved, counted and given to the agent. */
  ghost predicate AgentSoFar(j: Job, now: map<string, seq<byte>>, n: nat, saved: seq<string>, total: nat,
                             sent: seq<AgentItem>)
    requires j.Valid() && n <= |j.items|
  {
    j.t.agent && j.SoFar(now, n, saved, total) && |sent| == n && AllTold(j, sent, n, saved, now)
  }

  /** The items have stopped at the n-th, and this is what they have left and given. */
  ghost predicate AgentOutcome(j: Job, now: map<string, seq<byte>>, n: nat, v: Verdict, paths: seq<string>,
                               sent: seq<AgentItem>)
    requires j.Valid()
  {
    && j.t.Stops(j.items, n, v) && j.Holds(now, j.Staying(n, v), paths)
    && AgentGiven(j, n, v, paths, sent, now)
  }

  /** One more item is accepted. */
  lemma AgentGrows(j: Job, now: map<string, seq<byte>>, next: map<string, seq<byte>>, n: nat, saved: seq<string>,
                   total: nat, sent: seq<AgentItem>, path: Option<string>, more: seq<AgentItem>)
    requires j.Valid() && n < |j.items| && AgentSoFar(j, now, n, saved, total, sent)
    requires j.t.Judge(j.items[n], total) == Accepted
    requires AgentStep(j.items[n], Accepted, path, more, next) && Saves(j, n, path, now, next)
    ensures AgentSoFar(j, next, n + 1, saved + PathsOf(path), total + j.t.Counted(j.items[n]), sent + more)
  {
    AllToldGrows(j, sent, n, saved, now, next, more, path);
    SoFarGrows(j, now, next, n, saved, total, path);
  }

  /** The n-th item stops the ingest: its file may have come, and the agent may have been given it. */
  lemma StoppedAt(j: Job, now: map<string, seq<byte>>, next: map<string, seq<byte>>, n: nat, v: Verdict,
                  saved: seq<string>, total: nat, sent: seq<AgentItem>, path: Option<string>, more: seq<AgentItem>)
    requires j.Valid() && n < |j.items| && AgentSoFar(j, now, n, saved, total, sent)
    requires v == j.t.Judge(j.items[n], total) && v != Accepted
    requires AgentStep(j.items[n], v, path, more, next) && Saves(j, n, path, now, next)
    ensures AgentOutcome(j, next, n, v, saved + PathsOf(path), sent + more)
    ensures (sent + more)[..n] == sent
  {
    StoppedGiven(j, now, next, n, v, saved, sent, path, more);
    StoppedHolds(j, now, next, n, v, saved, path);
  }

  lemma StoppedGiven(j: Job, now: map<string, seq<byte>>, next: map<string, seq<byte>>, n: nat, v: Verdict,
                     saved: seq<string>, sent: seq<AgentItem>, path: Option<string>, more: seq<AgentItem>)
    requires j.t.agent && n < |j.items| && |sent| == n && AllTold(j, sent, n, saved, now) && v != Accepted
    requires |saved| == |Written(j.t, j.items[..n])| && AgentStep(j.items[n], v, path, more, next)
    requires forall p <- now :: p in next && next[p] == now[p]
    ensures AgentGiven(j, n, v, saved + PathsOf(path), sent + more, next) && (sent + more)[..n] == sent
  {
    if v == JournalError {
      AllToldGrows(j, sent, n, saved, now, next, more, path);
    } else {
      StillTold(j, sent, n, saved, now, next, more, path);
    }
  }

  lemma StoppedHolds(j: Job, now: map<string, seq<byte>>, next: map<string, seq<byte>>, n: nat, v: Verdict,
                     saved: seq<string>, path: Option<string>)
    requires j.Valid() && n < |j.items| && j.Holds(now, n, saved) && Saves(j, n, path, now, next) && j.t.agent
    requires path.Some? <==> Stays(j.items[n], v)
    ensures j.Holds(next, j.Staying(n, v), saved + PathsOf(path))
  {
    var m := j.Staying(n, v);
    if path.Some? {
      assert m == n + 1 && j.t.Writes(j.items[n]);
      HoldsMore(j, now, next, n, saved, path);
    } else {
      assert m == n && saved + PathsOf(path) == saved && next == now;
    }
  }

  /** One byte too many: the agent is given the path of a file that is removed again. */
  lemma DanglingInput(j: Job, i: Item, n: nat, v: Verdict, paths: seq<string>, sent: seq<AgentItem>,
                      files: map<string, seq<byte>>)
    requires j.t.agent && !j.t.escapes && !j.t.journals && j.t.max == 0
    requires i == Item("file", "a", "", "agent", Source([7], false), false, false) && j.items == [i]
    requires j.t.Stops([i], n, v) && AgentGiven(j, n, v, paths, sent, files)
    ensures j.t.Sound([i]) && v == TooLarge && |sent| == 1 && Dangles(sent[0], i, files)
  {
    assert [i][..0] == [];
    assert j.t.Judge([i][0], j.t.Sum([i][..0])) == TooLarge;
    assert n == 0;
  }

  /** No temporary file of any of these names is there. */
  ghost predicate Free(files: map<string, seq<byte>>, f: Folder, randoms: seq<string>) {
    forall r <- randoms :: f.Dest(TEMP + r) !in files
  }

  lemma StaysFree(was: map<string, seq<byte>>, now: map<string, seq<byte>>, f: Folder, randoms: seq<string>,
                  path: Option<string>, bytes: seq<byte>)
    requires Free(was, f, randoms) && now == if path.Some? then was[path.value := bytes] else was
    requires path.Some? ==> NoTemporary(f, path.value)
    ensures Free(now, f, randoms)
  {
  }
}
