/** The save and dispatch path of both channels: the running total, the cap, and where it stops. */
module Ingest {
  import opened Basics
  import opened Paths
  import opened Sanitize
  import opened Collisions
  import opened Wire
  import opened Store
  import opened Journal
  import opened IngestTerms
  import opened IngestJob

  ghost predicate TermsOf(t: Terms, st: ReceiveStore, folder: Folder) {
    && t.escapes == (Clean(folder.target) == ".") && t.journals == st.journals
    && t.saveText == st.saveTextToDisk && t.longText == st.longTextThreshold
  }

  function VerdictOf(s: Saving): Verdict {
    match s
    case Saved(_) => Accepted
    case Unjournalled(_) => JournalError
    case Escapes => Escaped
    case Fails => StoreError
  }

  // ---------------------------------------------------------------- the clipboard channel

  /** One clipboard item: saved, counted, and removed again when it goes over the maximum. */
  method IngestClipboardItem(st: ReceiveStore, t: Terms, i: Item, total: nat, stamp: string, random: string,
                             ghost randoms: seq<string>)
    returns (v: Verdict, path: Option<string>)
    requires TermsOf(t, st, st.saveDir) && !t.agent
    requires IsStamp(stamp) && Free(st.files, st.saveDir, randoms) && random in randoms
    modifies st`files
    ensures v == t.Judge(i, total) && Free(st.files, st.saveDir, randoms)
    ensures path.Some? <==> v == Accepted && t.Writes(i)
    ensures SavesItem(st.saveDir, i, stamp, path, old(st.files), st.files)
  {
    if i.kind != "image" && i.kind != "file" && (i.kind != "text" || i.source.fails) {
      return Malformed, None;
    }
    var saving := SaveForClipboard(st, i, stamp, random);
    if saving.None? {
      return Accepted, None;
    }
    var s := saving.value;
    if !s.Saved? {
      return VerdictOf(s), None;
    }
    v, path := Weigh(st, t, i, total, s.path, old(st.files));
    StaysFree(old(st.files), st.files, st.saveDir, randoms, path, i.source.bytes);
  }

  /** A file that is there is counted, and removed again if it goes over the maximum. */
  method Weigh(st: ReceiveStore, t: Terms, i: Item, total: nat, file: string, ghost was: map<string, seq<byte>>)
    returns (v: Verdict, path: Option<string>)
    requires t.Writes(i) && file !in was && st.files == was[file := i.source.bytes]
    modifies st`files
    ensures v == t.Capped(i, total) && path == (if v == Accepted then Some(file) else None)
    ensures st.files == if v == Accepted then was[file := i.source.bytes] else was
  {
    if total + i.Size() > t.max {
      st.Remove(file);
      return TooLarge, None;
    }
    return Accepted, Some(file);
  }

  /** The save of one clipboard item; None is a text that is not written. */
  method SaveForClipboard(st: ReceiveStore, i: Item, stamp: string, random: string) returns (s: Option<Saving>)
    requires i.IsFile() || (i.kind == "text" && !i.source.fails)
    requires IsStamp(stamp) && st.saveDir.Dest(TEMP + random) !in st.files
    modifies st`files
    ensures s.None? <==> !i.IsFile() && !st.saveTextToDisk && i.Size() <= st.longTextThreshold
    ensures s.None? ==> st.files == old(st.files)
    ensures s.Some? ==> Ends(st.saveDir, i.Payload(), s.value) && !s.value.Unjournalled?
                        && StoresOne(old(st.files), st.files, st.saveDir, s.value, i.source.bytes)
    ensures s.Some? && s.value.Saved? ==>
              NamedBy(old(st.files).Keys, st.saveDir, LeafOf(i, stamp), s.value.path)
  {
    if i.kind == "image" || i.kind == "file" {
      var saving := st.SaveClipboardItem(i.name, i.kind, i.uti, i.Payload(), stamp, random);
      return Some(saving);
    }
    s := st.SaveClipboardText(i.source.bytes, i.diskFails, stamp, random);
  }

  /** The items of the clipboard channel up to the one that is not accepted. */
  method IngestClipboardItems(st: ReceiveStore, t: Terms, items: seq<Item>, stamps: seq<string>, randoms: seq<string>)
    returns (v: Verdict, saved: seq<string>, ghost n: nat)
    requires TermsOf(t, st, st.saveDir) && !t.agent
    requires |stamps| == |randoms| == |items| && forall s <- stamps :: IsStamp(s)
    requires Free(st.files, st.saveDir, randoms)
    modifies st`files
    ensures ClipboardOutcome(Job(old(st.files), st.saveDir, t, items, stamps), st.files, n, v, saved)
  {
    ghost var j := Job(st.files, st.saveDir, t, items, stamps);
    saved := [];
    n := 0;
    var total: nat := 0;
    NothingYet(j);
    for i := 0 to |items|
      invariant n == i && ClipboardSoFar(j, st.files, i, saved, total)
      invariant Free(st.files, st.saveDir, randoms)
    {
      v, saved, total := NextClipboardItem(st, t, j, items[i], i, saved, total, stamps[i], randoms[i], randoms);
      if v != Accepted {
        return v, saved, n;
      }
      n := n + 1;
    }
    v := Accepted;
    ClipboardStops(j, st.files, n, v, saved, total);
  }

  /** One turn of the loop: the item is accepted, and all is as before one item later; or the ingest stops at it. */
  method NextClipboardItem(st: ReceiveStore, t: Terms, ghost j: Job, i: Item, ghost n: nat, saved: seq<string>,
                           total: nat, stamp: string, random: string, ghost randoms: seq<string>)
    returns (v: Verdict, nowSaved: seq<string>, nowTotal: nat)
    requires j.Valid() && n < |j.items| && i == j.items[n] && stamp == j.stamps[n] && j.f == st.saveDir
    requires t == j.t && TermsOf(t, st, st.saveDir) && ClipboardSoFar(j, st.files, n, saved, total)
    requires Free(st.files, st.saveDir, randoms) && random in randoms
    modifies st`files
    ensures Free(st.files, st.saveDir, randoms)
    ensures v == Accepted ==> ClipboardSoFar(j, st.files, n + 1, nowSaved, nowTotal)
    ensures v != Accepted ==> ClipboardOutcome(j, st.files, n, v, nowSaved)
  {
    ghost var now := st.files;
    var path;
    v, path := IngestClipboardItem(st, t, i, total, stamp, random, randoms);
    if v != Accepted {
      ClipboardStops(j, st.files, n, v, saved, total);
      return v, saved, total;
    }
    SoFarGrows(j, now, st.files, n, saved, total, path);
    nowSaved, nowTotal := saved + PathsOf(path), total + t.Counted(i);
  }

  /** What an accepted clipboard ingest leaves to be read, and what a refused one leaves alone. */
  twostate predicate Finished(st: ReceiveStore, v: Verdict, saved: seq<string>)
    reads st
  {
    if v == Accepted && saved != [] then
      && st.lastPath == saved[|saved| - 1] && st.resumed == old(st.resumed) + [st.lastPath]
      && st.lastPathFile == (if st.lastPathWritable then st.lastPath else old(st.lastPathFile))
      && st.recents == if st.recentsWritable
           then Some(LastOf(Loaded(old(st.recents)) + RecentsOf(saved, ""), 20)) else old(st.recents)
    else
      unchanged(st`lastPath, st`lastPathFile, st`recents, st`resumed)
  }

  method IngestClipboard(st: ReceiveStore, t: Terms, items: seq<Item>, stamps: seq<string>, randoms: seq<string>)
    returns (v: Verdict, saved: seq<string>, ghost paths: seq<string>, ghost n: nat)
    requires TermsOf(t, st, st.saveDir) && !t.agent
    requires |stamps| == |randoms| == |items| && forall s <- stamps :: IsStamp(s)
    requires Free(st.files, st.saveDir, randoms)
    modifies st`files, st`lastPath, st`lastPathFile, st`recents, st`resumed
    ensures t.Stops(items, n, v) && saved == if v == Accepted then paths else []
    ensures Job(old(st.files), st.saveDir, t, items, stamps).Holds(st.files, n, paths)
    ensures Finished(st, v, saved)
  {
    v, saved, n := IngestClipboardItems(st, t, items, stamps, randoms);
    paths := saved;
    if v != Accepted {
      saved := [];
      return;
    }
    st.FinishClipboard("", saved);
  }

  // ---------------------------------------------------------------- the agent channel

  method IngestAgentFile(st: ReceiveStore, t: Terms, i: Item, total: nat, stamp: string, random: string)
    returns (v: Verdict, path: Option<string>, ghost sent: seq<AgentItem>)
    requires TermsOf(t, st, st.inbox) && t.agent && i.IsFile()
    requires IsStamp(stamp) && st.inbox.Dest(TEMP + random) !in st.files
    modifies st`files, st`enqueued, st`journal
    ensures v == t.Judge(i, total) && (path.Some? <==> Stays(i, v))
    ensures Given(st, old(st.enqueued), old(st.journal), sent, if v == JournalError then [] else sent)
    ensures |sent| == if Sent(i, v) then 1 else 0
    ensures SavesItem(st.inbox, i, stamp, path, old(st.files), st.files)
    ensures path.None? ==> (|sent| == 1 ==> Dangles(sent[0], i, st.files))
    ensures path.Some? ==> NoTemporary(st.inbox, path.value) && Tells(sent[0], i, path, st.files)
  {
    var s;
    s, sent := SaveForAgent(st, i, stamp, random);
    if !s.Stored() {
      return VerdictOf(s), None, sent;
    }
    if s.Unjournalled? {
      return JournalError, Some(s.path), sent;
    }
    v, path := Weigh(st, t, i, total, s.path, old(st.files));
  }

  /** The save of one file for the agent, which is given it at once. */
  method SaveForAgent(st: ReceiveStore, i: Item, stamp: string, random: string)
    returns (s: Saving, ghost sent: seq<AgentItem>)
    requires i.IsFile() && IsStamp(stamp) && st.inbox.Dest(TEMP + random) !in st.files
    modifies st`files, st`enqueued, st`journal
    ensures Ends(st.inbox, i.Payload(), s)
    ensures StoresOne(old(st.files), st.files, st.inbox, s, i.source.bytes)
    ensures s.Stored() ==> NamedBy(old(st.files).Keys, st.inbox, LeafOf(i, stamp), s.path)
    ensures s.Stored() ==> (s.Unjournalled? <==> st.journals && i.journalFails)
    ensures sent == if s.Stored() then [FileItem(i.kind, "", s.path)] else []
    ensures Given(st, old(st.enqueued), old(st.journal), sent, if s.Saved? then sent else [])
  {
    GivenNothing(st);
    s := st.SaveAgentItem("", i.name, i.kind, i.uti, i.Payload(), i.journalFails, stamp, random);
    sent := if s.Stored() then [FileItem(i.kind, "", s.path)] else [];
  }

  method IngestAgentItem(st: ReceiveStore, t: Terms, i: Item, total: nat, stamp: string, random: string,
                         ghost randoms: seq<string>)
    returns (v: Verdict, path: Option<string>, ghost sent: seq<AgentItem>)
    requires TermsOf(t, st, st.inbox) && t.agent
    requires IsStamp(stamp) && Free(st.files, st.inbox, randoms) && random in randoms
    modifies st`files, st`enqueued, st`journal
    ensures v == t.Judge(i, total) && AgentStep(i, v, path, sent, st.files)
    ensures Free(st.files, st.inbox, randoms)
    ensures Given(st, old(st.enqueued), old(st.journal), sent, if v == JournalError then [] else sent)
    ensures SavesItem(st.inbox, i, stamp, path, old(st.files), st.files)
  {
    if i.kind == "image" || i.kind == "file" {
      v, path, sent := IngestAgentFile(st, t, i, total, stamp, random);
      StaysFree(old(st.files), st.files, st.inbox, randoms, path, i.source.bytes);
      return;
    }
    sent := [];
    GivenNothing(st);
    if i.kind != "text" || i.source.fails {
      return Malformed, None, sent;
    }
    if total + i.Size() > t.max {
      return TooLarge, None, sent;
    }
    sent := [TextItem("", i.source.bytes)];
    var ok := st.EnqueueAgentText("", i.source.bytes, i.journalFails);
    return if ok then Accepted else JournalError, None, sent;
  }

  /** The FIFO and the journal have been given these items, behind what they were given before. */
  ghost predicate Given(st: ReceiveStore, queue: seq<AgentItem>, journal: seq<Record>,
                        sent: seq<AgentItem>, recorded: seq<AgentItem>)
    reads st
  {
    st.enqueued == queue + sent && st.journal == journal + st.Journalled(recorded)
  }

  lemma JournalledAppends(st: ReceiveStore, a: seq<AgentItem>, b: seq<AgentItem>)
    ensures st.Journalled(a + b) == st.Journalled(a) + st.Journalled(b)
  {
  }

  lemma GivenMore(st: ReceiveStore, queue: seq<AgentItem>, journal: seq<Record>, sent: seq<AgentItem>,
                  more: seq<AgentItem>, recorded: seq<AgentItem>)
    requires Given(st, queue + sent, journal + st.Journalled(sent), more, recorded)
    ensures Given(st, queue, journal, sent + more, sent + recorded)
  {
    JournalledAppends(st, sent, recorded);
  }

  lemma GivenNothing(st: ReceiveStore)
    ensures Given(st, st.enqueued, st.journal, [], [])
  {
  }

  /** The FIFO has been given `sent`, and the journal too but for the item that it did not take. */
  twostate predicate AgentTold(st: ReceiveStore, v: Verdict, n: nat, sent: seq<AgentItem>)
    reads st
  {
    n <= |sent| && Given(st, old(st.enqueued), old(st.journal), sent, if v == JournalError then sent[..n] else sent)
  }

  method IngestAgent(st: ReceiveStore, t: Terms, items: seq<Item>, stamps: seq<string>, randoms: seq<string>)
    returns (v: Verdict, saved: seq<string>, ghost paths: seq<string>, ghost sent: seq<AgentItem>, ghost n: nat)
    requires TermsOf(t, st, st.inbox) && t.agent
    requires |stamps| == |randoms| == |items| && forall s <- stamps :: IsStamp(s)
    requires Free(st.files, st.inbox, randoms)
    modifies st`files, st`enqueued, st`journal
    ensures saved == if v == Accepted then paths else []
    ensures AgentOutcome(Job(old(st.files), st.inbox, t, items, stamps), st.files, n, v, paths, sent)
    ensures AgentTold(st, v, n, sent)
    ensures PathsExist(sent, st.files) <==> !t.GoesOverWithFile(items)
  {
    ghost var j := Job(st.files, st.inbox, t, items, stamps);
    v, saved, paths, sent, n := IngestAgentItems(st, t, items, stamps, randoms);
    PathsExistIff(j, n, v, paths, sent, st.files);
  }

  method IngestAgentItems(st: ReceiveStore, t: Terms, items: seq<Item>, stamps: seq<string>, randoms: seq<string>)
    returns (v: Verdict, saved: seq<string>, ghost paths: seq<string>, ghost sent: seq<AgentItem>, ghost n: nat)
    requires TermsOf(t, st, st.inbox) && t.agent
    requires |stamps| == |randoms| == |items| && forall s <- stamps :: IsStamp(s)
    requires Free(st.files, st.inbox, randoms)
    modifies st`files, st`enqueued, st`journal
    ensures saved == if v == Accepted then paths else []
    ensures AgentOutcome(Job(old(st.files), st.inbox, t, items, stamps), st.files, n, v, paths, sent)
    ensures AgentTold(st, v, n, sent)
  {
    ghost var j := Job(st.files, st.inbox, t, items, stamps);
    saved, paths, sent, n := [], [], [], 0;
    var total: nat := 0;
    NothingYet(j);
    GivenNothing(st);
    for i := 0 to |items|
      invariant n == i && AgentSoFar(j, st.files, i, saved, total, sent)
      invariant Free(st.files, st.inbox, randoms)
      invariant Given(st, old(st.enqueued), old(st.journal), sent, sent)
    {
      v, saved, paths, total, sent :=
        NextAgentItem(st, t, j, items[i], i, saved, total, sent, stamps[i], randoms[i], randoms,
                      old(st.enqueued), old(st.journal));
      if v != Accepted {
        return v, [], paths, sent, n;
      }
      n := n + 1;
    }
    paths := saved;
    v := Accepted;
  }

  /** One turn of the loop: the item is accepted, and all is as before one item later; or the ingest stops at it. */
  method NextAgentItem(st: ReceiveStore, t: Terms, ghost j: Job, i: Item, ghost n: nat, saved: seq<string>,
                       total: nat, ghost sent: seq<AgentItem>, stamp: string, random: string,
                       ghost randoms: seq<string>, ghost queue: seq<AgentItem>, ghost journal: seq<Record>)
    returns (v: Verdict, nowSaved: seq<string>, ghost paths: seq<string>, nowTotal: nat,
             ghost nowSent: seq<AgentItem>)
    requires j.Valid() && n < |j.items| && i == j.items[n] && stamp == j.stamps[n] && j.f == st.inbox
    requires t == j.t && TermsOf(t, st, st.inbox) && AgentSoFar(j, st.files, n, saved, total, sent)
    requires Free(st.files, st.inbox, randoms) && random in randoms && Given(st, queue, journal, sent, sent)
    modifies st`files, st`enqueued, st`journal
    ensures Free(st.files, st.inbox, randoms)
    ensures v == Accepted ==> AgentSoFar(j, st.files, n + 1, nowSaved, nowTotal, nowSent)
    ensures v != Accepted ==> AgentOutcome(j, st.files, n, v, paths, nowSent) && n <= |nowSent|
    ensures Given(st, queue, journal, nowSent, if v == JournalError then nowSent[..n] else nowSent)
  {
    ghost var now := st.files;
    ghost var more;
    var path;
    v, path, more := IngestAgentItem(st, t, i, total, stamp, random, randoms);
    GivenMore(st, queue, journal, sent, more, if v == JournalError then [] else more);
    nowSaved, paths, nowTotal, nowSent := saved, saved + PathsOf(path), total, sent + more;
    if v != Accepted {
      StoppedAt(j, now, st.files, n, v, saved, total, sent, path, more);
      NoneBehind(sent);
    } else {
      AgentGrows(j, now, st.files, n, saved, total, sent, path, more);
      nowSaved, nowTotal := saved + PathsOf(path), total + t.Counted(i);
    }
  }

  lemma NoneBehind(sent: seq<AgentItem>)
    ensures sent + [] == sent
  {
  }

  // ---------------------------------------------------------------- both channels

  predicate IsAgent(items: seq<Item>) {
    items != [] && items[0].channel == "agent"
  }

  /** The terms on which the store takes the items. */
  function TermsFor(st: ReceiveStore, items: seq<Item>, max: int): (t: Terms)
    ensures t.agent <==> items != [] && items[0].channel == "agent"
  {
    var folder := if IsAgent(items) then st.inbox else st.saveDir;
    Terms(IsAgent(items), Clean(folder.target) == ".", st.journals, st.saveTextToDisk, st.longTextThreshold, max)
  }

  /** What an ingest of some items leaves of what was there, and gives to those who wait. */
  twostate predicate Ingested(st: ReceiveStore, t: Terms, items: seq<Item>, stamps: seq<string>, v: Verdict,
                              paths: seq<string>, sent: seq<AgentItem>, n: nat)
    requires |stamps| == |items| && forall s <- stamps :: IsStamp(s)
    reads st
  {
    var j := Job(old(st.files), if t.agent then st.inbox else st.saveDir, t, items, stamps);
    && t.Stops(items, n, v)
    && j.Holds(st.files, j.Staying(n, v), paths)
    && Finished(st, v, if t.agent || v != Accepted then [] else paths)
    && (if t.agent then
          && AgentGiven(j, n, v, paths, sent, st.files) && AgentTold(st, v, n, sent)
          && (PathsExist(sent, st.files) <==> !t.GoesOverWithFile(items))
        else
          unchanged(st`enqueued, st`journal))
  }

  /** Ingest: the first item's channel decides; an empty list is malformed. */
  method Ingest(st: ReceiveStore, items: seq<Item>, max: int, stamps: seq<string>, randoms: seq<string>)
    returns (v: Verdict, saved: seq<string>, ghost paths: seq<string>, ghost sent: seq<AgentItem>, ghost n: nat)
    requires |stamps| == |randoms| == |items| && (forall s <- stamps :: IsStamp(s))
    requires Free(st.files, st.inbox, randoms) && Free(st.files, st.saveDir, randoms)
    modifies st
    ensures saved == if v == Accepted then paths else []
    ensures items == [] ==> v == Malformed && unchanged(st)
    ensures items != [] ==> Ingested(st, TermsFor(st, items, max), items, stamps, v, paths, sent, n)
  {
    saved, paths, sent, n := [], [], [], 0;
    if |items| == 0 {
      return Malformed, [], [], [], 0;
    }
    var t := TermsFor(st, items, max);
    if items[0].channel == "agent" {
      v, saved, paths, sent, n := IngestForAgent(st, t, items, stamps, randoms);
    } else {
      v, saved, paths, n := IngestClipboard(st, t, items, stamps, randoms);
    }
  }

  method IngestForAgent(st: ReceiveStore, t: Terms, items: seq<Item>, stamps: seq<string>, randoms: seq<string>)
    returns (v: Verdict, saved: seq<string>, ghost paths: seq<string>, ghost sent: seq<AgentItem>, ghost n: nat)
    requires TermsOf(t, st, st.inbox) && t.agent
    requires |stamps| == |randoms| == |items| && forall s <- stamps :: IsStamp(s)
    requires Free(st.files, st.inbox, randoms)
    modifies st`files, st`enqueued, st`journal
    ensures saved == if v == Accepted then paths else []
    ensures Ingested(st, t, items, stamps, v, paths, sent, n)
  {
    v, saved, paths, sent, n := IngestAgent(st, t, items, stamps, randoms);
  }
}
