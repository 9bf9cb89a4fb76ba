/** The on-disk agent journal of one process alone: records, listing and draining. */
module Journal {
  import opened Basics
  import opened Wire
  import opened JournalNames

  /** The durable form of an item; `hasText` tells an empty text from none. */
  datatype Record = Record(kind: string, sender: string, path: string, hasText: bool, text: string)

  function RecordToItem(r: Record): AgentItem {
    AgentItem(r.kind, r.sender, if r.path != "" then Some(r.path) else None, if r.hasText then Some(r.text) else None)
  }

  /** The record `writeAgentJournal` is given for an item. */
  function ItemToRecord(i: AgentItem): Record {
    Record(i.kind, i.sender, if i.path.Some? then i.path.value else "", i.text.Some?,
           if i.text.Some? then i.text.value else "")
  }

  /** A drained item is the one that was enqueued, unless its path was present but empty. */
  lemma RecordRoundTrip(i: AgentItem)
    ensures RecordToItem(ItemToRecord(i)) == i <==> i.path != Some("")
  {
  }

  /** An entry of the journal directory; None is a file that cannot be read back. */
  datatype Entry = Directory | File(record: Option<Record>)

  const TAKEN := ".taken-"
  const SUFFIX := ".json"

  predicate EndsWith(s: string, suffix: string) {
    |s| >= |suffix| && s[|s| - |suffix|..] == suffix
  }

  predicate IsRecord(name: string, e: Entry) {
    e.File? && !(TAKEN <= name) && EndsWith(name, SUFFIX)
  }

  /** What is listed: files that end in ".json" and are no claims. */
  lemma RecordIff(name: string, e: Entry)
    ensures IsRecord(name, e) <==>
              e != Directory && !(".taken-" <= name) && |name| >= 5 && name[|name| - 5..] == ".json"
  {
  }

  /** What is written under a name is listed. */
  lemma NameIsRecord(nanos: nat, seqno: nat, e: Entry)
    requires seqno <= MAX_SEQ && e.File?
    ensures IsRecord(Name(nanos, seqno), e)
  {
    var time, number := NameText(nanos, seqno);
    var name := Name(nanos, seqno);
    assert name[0] == time[0] && time[0] in time && TAKEN[0] == '.';
    assert name[|name| - 5..] == ".json";
  }

  /** A claim is not listed again, whatever it is a claim of. */
  lemma SidecarIsNoRecord(name: string, e: Entry)
    ensures !IsRecord(TAKEN + name, e)
  {
    assert TAKEN <= TAKEN + name;
  }

  ghost function Records(files: map<string, Entry>): set<string> {
    set n | n in files && IsRecord(n, files[n])
  }

  ghost predicate Ascending(s: seq<string>) {
    forall i, j :: 0 <= i < j < |s| ==> Less(s[i], s[j])
  }

  function Insert(x: string, s: seq<string>): seq<string> {
    if |s| == 0 then [x] else if Less(x, s[0]) then [x] + s else [s[0]] + Insert(x, s[1..])
  }

  /** sort.Strings, one name at a time. */
  function Sort(s: seq<string>): seq<string> {
    if |s| == 0 then [] else Insert(s[0], Sort(s[1..]))
  }

  lemma {:induction false} InsertKeeps(x: string, s: seq<string>)
    requires Ascending(s) && x !in s
    ensures Ascending(Insert(x, s)) && forall y :: y in Insert(x, s) <==> y == x || y in s
  {
    if |s| > 0 {
      LessIsTotal(x, s[0]);
      if Less(x, s[0]) {
        forall i | 1 <= i < |s| ensures Less(x, s[i]) {
          LessIsTransitive(x, s[0], s[i]);
        }
      } else {
        var t := s[1..];
        InsertKeeps(x, t);
        forall y | y in Insert(x, t) ensures Less(s[0], y) {
          if y != x {
            var i :| 0 <= i < |t| && t[i] == y;
            assert s[i + 1] == y;
          }
        }
      }
    }
  }

  lemma {:induction false} SortSorts(s: seq<string>)
    requires forall i, j :: 0 <= i < j < |s| ==> s[i] != s[j]
    ensures Ascending(Sort(s)) && forall y :: y in Sort(s) <==> y in s
  {
    if |s| > 0 {
      var t := s[1..];
      SortSorts(t);
      assert s[0] !in t;
      InsertKeeps(s[0], Sort(t));
    }
  }

  ghost function Seen(names: seq<string>): set<string> {
    set n | n in names
  }

  class JournalDir {
    var files: map<string, Entry>
    var counter: nat

    /** Append a record; its name is the time and the next sequence number, and none this process has used. */
    method Write(r: Record, nanos: nat) returns (name: string)
      requires counter < MAX_SEQ
      modifies this
      ensures counter == old(counter) + 1 && name == Name(nanos, counter)
      ensures forall n: nat, s: nat :: s <= old(counter) ==> name != Name(n, s)
      ensures files == old(files)[name := File(Some(r))] && Records(files) == Records(old(files)) + {name}
    {
      counter := counter + 1;
      name := Name(nanos, counter);
      files := files[name := File(Some(r))];
      NameIsRecord(nanos, counter, File(Some(r)));
      forall n: nat, s: nat | s < counter ensures name != Name(n, s) {
        if name == Name(n, s) {
          NameInjective(nanos, counter, n, s);
        }
      }
    }

    /** The unclaimed records, oldest first. */
    method ListRecords() returns (names: seq<string>)
      ensures Ascending(names) && forall n :: n in names <==> n in Records(files)
    {
      names := [];
      var rest := files.Keys;
      while rest != {}
        invariant rest <= files.Keys
        invariant forall n :: n in names <==> n in Records(files) && n !in rest
        invariant forall i, j :: 0 <= i < j < |names| ==> names[i] != names[j]
        decreases rest
      {
        var n :| n in rest;
        rest := rest - {n};
        if files[n].Directory? || TAKEN <= n || !EndsWith(n, SUFFIX) {
          continue;
        }
        names := names + [n];
      }
      SortSorts(names);
      names := Sort(names);
    }

    /** Rename a listed record to its sidecar, read that, and remove it; one that is gone is not claimed. */
    method Claim(name: string) returns (claimed: bool, record: Option<Record>)
      requires name in files ==> IsRecord(name, files[name])
      modifies this`files
      ensures claimed <==> name in old(files)
      ensures claimed ==> record == old(files)[name].record && files == old(files) - {name} - {TAKEN + name}
      ensures !claimed ==> record == None && files == old(files)
    {
      if name !in files {
        return false, None;
      }
      var sidecar := TAKEN + name;
      files := (files - {name})[sidecar := files[name]];
      record := files[sidecar].record;
      files := files - {sidecar};
      claimed := true;
    }

    /** One pass over a listing, however old: claim the names still there in turn, up to the first that can be read. */
    method ClaimOldest(names: seq<string>) returns (item: Option<AgentItem>, passed: nat)
      requires forall n <- names :: n in files ==> IsRecord(n, files[n])
      modifies this`files
      ensures passed <= |names| && files == Passed(old(files), names[..passed])
      ensures item.None? ==> passed == |names| && NoneReadable(old(files), names)
      ensures item.Some? ==>
                && 0 < passed && NoneReadable(old(files), names[..passed - 1])
                && Yields(old(files), names[passed - 1], item.value)
    {
      passed := 0;
      ghost var was := files;
      while passed < |names|
        invariant passed <= |names| && files == Passed(was, names[..passed])
        invariant NoneReadable(was, names[..passed])
      {
        var record := ClaimNext(names, passed, was);
        passed := passed + 1;
        if record.Some? {
          return Some(RecordToItem(record.value)), passed;
        }
      }
      assert names[..|names|] == names;
      item := None;
    }

    /** The next name of a pass, if it is still there. */
    method ClaimNext(names: seq<string>, i: nat, ghost was: map<string, Entry>) returns (record: Option<Record>)
      requires i < |names| && forall n <- names :: n in was ==> IsRecord(n, was[n])
      requires files == Passed(was, names[..i]) && NoneReadable(was, names[..i])
      modifies this`files
      ensures files == Passed(was, names[..i + 1])
      ensures record.None? ==> NoneReadable(was, names[..i + 1])
      ensures record.Some? ==> Yields(was, names[i], RecordToItem(record.value))
    {
      PassOne(was, names, i);
      var claimed;
      claimed, record := Claim(names[i]);
      if record.None? {
        NoneMore(was, names, i);
      }
    }

    /**
      Claim and return the oldest record that can be read; drop those before it that cannot.
      `gone` is the set of claimed names.
     */
    method DrainAgentDisk() returns (item: Option<AgentItem>, ghost gone: set<string>)
      modifies this`files
      ensures files == old(files) - gone - (set n | n in gone :: TAKEN + n)
      ensures item.None? ==> gone == Records(old(files)) && forall n <- gone :: Unreadable(old(files), n)
      ensures item.Some? ==> OldestReadable(old(files), gone, item.value)
    {
      ghost var was := files;
      gone := {};
      while true
        invariant files == was - gone - (set n | n in gone :: TAKEN + n)
        invariant gone <= Records(was) && forall n <- gone :: Unreadable(was, n)
        invariant gone == {} || Records(files) == {}
        decreases Records(files)
      {
        var names := ListRecords();
        if names == [] {
          OthersStay(was, gone);
          NothingListed(Records(files), names);
          return None, gone;
        }
        assert names[0] in Records(files);
        var passed;
        item, passed := ClaimOldest(names);
        gone := Seen(names[..passed]);
        AllThere(was, names, passed);
        if item.Some? {
          PassYields(was, names, passed, item.value);
          return;
        }
        assert names[..passed] == names;
      }
    }
  }

  /** The claims are of all records up to one that holds the item; those before it cannot be read. */
  ghost predicate OldestReadable(files: map<string, Entry>, gone: set<string>, item: AgentItem) {
    exists last <- gone ::
      && Yields(files, last, item) && gone == Until(Records(files), last)
      && forall n <- gone :: n == last || Unreadable(files, n)
  }

  lemma PassYields(was: map<string, Entry>, names: seq<string>, passed: nat, item: AgentItem)
    requires Ascending(names) && (forall n :: n in names <==> n in Records(was)) && 0 < passed <= |names|
    requires NoneReadable(was, names[..passed - 1]) && Yields(was, names[passed - 1], item)
    ensures OldestReadable(was, Seen(names[..passed]), item)
  {
    var last := names[passed - 1];
    UpTo(names, passed - 1, Records(was));
    assert names[..passed] == names[..passed - 1] + [last];
    assert forall n <- names[..passed] :: n in names;
  }

  lemma NothingListed(records: set<string>, names: seq<string>)
    requires names == [] && forall n :: n in names <==> n in records
    ensures records == {}
  {
  }

  /** Taking records and their sidecars out leaves the other records listed. */
  lemma OthersStay(was: map<string, Entry>, gone: set<string>)
    ensures Records(was) - gone <= Records(was - gone - (set n | n in gone :: TAKEN + n))
  {
    assert forall m <- gone :: TAKEN <= TAKEN + m;
  }

  /** The entry can be claimed but not read back. */
  ghost predicate Unreadable(files: map<string, Entry>, n: string) {
    n in files && files[n] == File(None)
  }

  /** None of these names is an entry that can be read back. */
  ghost predicate NoneReadable(files: map<string, Entry>, names: seq<string>) {
    forall n <- names :: n in files ==> Unreadable(files, n)
  }

  /** The entry holds the record of `item`. */
  ghost predicate Yields(files: map<string, Entry>, n: string, item: AgentItem) {
    n in files && files[n].File? && files[n].record.Some? && item == RecordToItem(files[n].record.value)
  }

  /** The names of `all` up to `last`. */
  ghost function Until(all: set<string>, last: string): set<string> {
    set n | n in all && (n == last || Less(n, last))
  }

  /** The directory once these names have been claimed, as far as they are there, and their sidecars removed. */
  ghost function Passed(files: map<string, Entry>, names: seq<string>): map<string, Entry> {
    files - Seen(names) - (set n | n in names && n in files :: TAKEN + n)
  }

  lemma PassOne(was: map<string, Entry>, names: seq<string>, i: nat)
    requires i < |names| && forall n <- names :: n in was ==> IsRecord(n, was[n])
    ensures var (n, now) := (names[i], Passed(was, names[..i]));
            && (n in now ==> n in was && now[n] == was[n])
            && (n !in now ==> n !in was || n in names[..i])
            && Passed(was, names[..i + 1]) == if n in now then now - {n} - {TAKEN + n} else now
  {
    assert names[..i + 1] == names[..i] + [names[i]];
    assert forall m: string :: TAKEN <= TAKEN + m;
  }

  lemma NoneMore(files: map<string, Entry>, names: seq<string>, i: nat)
    requires i < |names| && NoneReadable(files, names[..i])
    requires names[i] in files ==> Unreadable(files, names[i])
    ensures NoneReadable(files, names[..i + 1])
  {
    assert names[..i + 1] == names[..i] + [names[i]];
  }

  /** Of a listing that is still true all names are there. */
  lemma AllThere(files: map<string, Entry>, names: seq<string>, k: nat)
    requires k <= |names| && forall n <- names :: n in files
    ensures var gone := Seen(names[..k]); Passed(files, names[..k]) == files - gone - (set n | n in gone :: TAKEN + n)
  {
    assert forall n <- names[..k] :: n in names;
  }

  lemma UpTo(names: seq<string>, i: nat, all: set<string>)
    requires Ascending(names) && i < |names| && forall n :: n in names <==> n in all
    ensures Seen(names[..i + 1]) == Until(all, names[i])
    ensures forall n :: n in all && Less(n, names[i]) ==> n in names[..i]
  {
    forall n | n in all && Less(n, names[i]) ensures n in names[..i] {
      var j :| 0 <= j < |names| && names[j] == n;
      if j >= i {
        LessIsStrict(n);
        if j > i {
          LessIsTransitive(n, names[i], n);
        }
      }
    }
    assert names[..i + 1] == names[..i] + [names[i]];
  }

  // ---------------------------------------------------------------- what is written is drained

  /** The journal holds exactly these records, in the order of their names. */
  ghost predicate Queued(files: map<string, Entry>, names: seq<string>, records: seq<Record>) {
    && |names| == |records| && Ascending(names)
    && (forall n :: n in files <==> n in names)
    && (forall i :: 0 <= i < |names| ==> names[i] in files && files[names[i]] == File(Some(records[i])))
    && Records(files) == Seen(names)
  }

  /** The names that records get at these times, from the sequence number `first` on. */
  function NamesAt(first: nat, times: seq<nat>): (names: seq<string>)
    requires first + |times| <= MAX_SEQ + 1
  {
    seq(|times|, i requires 0 <= i < |times| => Name(times[i], first + i))
  }

  /** They are in increasing order if the clock does not go back nor change its width. */
  lemma SteadyClock(first: nat, times: seq<nat>)
    requires first + |times| <= MAX_SEQ + 1
    requires forall i, j :: 0 <= i < j < |times| ==> times[i] <= times[j] && Width(times[i]) == Width(times[j])
    ensures Ascending(NamesAt(first, times))
  {
    forall i, j | 0 <= i < j < |times| ensures Less(NamesAt(first, times)[i], NamesAt(first, times)[j]) {
      NameOrder(times[i], first + i, times[j], first + j);
    }
  }

  lemma NothingQueued()
    ensures Queued(map[], [], [])
  {
  }

  lemma OneMoreQueued(files: map<string, Entry>, names: seq<string>, records: seq<Record>, n: string, r: Record)
    requires Queued(files, names, records) && (forall m <- names :: Less(m, n)) && IsRecord(n, File(Some(r)))
    ensures Queued(files[n := File(Some(r))], names + [n], records + [r])
  {
    var now, all := files[n := File(Some(r))], names + [n];
    LessIsStrict(n);
    assert n !in names;
    forall m ensures m in Records(now) <==> m in all {
      assert m in Records(files) <==> m in names;
    }
  }

  /** The oldest record is drained, and the others stay as they are. */
  lemma DrainTakesFirst(was: map<string, Entry>, names: seq<string>, records: seq<Record>, now: map<string, Entry>,
                        item: Option<AgentItem>, gone: set<string>)
    requires Queued(was, names, records)
    requires now == was - gone - (set n | n in gone :: TAKEN + n)
    requires item.None? ==> gone == Records(was) && forall n <- gone :: Unreadable(was, n)
    requires item.Some? ==> OldestReadable(was, gone, item.value)
    ensures names == [] ==> item.None? && now == was
    ensures names != [] ==> item == Some(RecordToItem(records[0])) && Queued(now, names[1..], records[1..])
  {
    if names == [] {
      NoneToTake(was, records, now, item, gone);
    } else {
      OneIsTaken(was, names, gone, item);
      FirstIsOldest(was, names, records, gone, item.value);
      FirstTaken(was, names, records, now);
    }
  }

  lemma OneIsTaken(was: map<string, Entry>, names: seq<string>, gone: set<string>, item: Option<AgentItem>)
    requires names != [] && Records(was) == Seen(names) && names[0] in was && !Unreadable(was, names[0])
    requires item.None? ==> gone == Records(was) && forall n <- gone :: Unreadable(was, n)
    ensures item.Some?
  {
    assert names[0] in Records(was);
  }

  lemma NoneToTake(was: map<string, Entry>, records: seq<Record>, now: map<string, Entry>, item: Option<AgentItem>,
                   gone: set<string>)
    requires Queued(was, [], records) && now == was - gone - (set n | n in gone :: TAKEN + n)
    requires item.Some? ==> OldestReadable(was, gone, item.value)
    ensures item.None? && now == was
  {
    assert was == map[];
  }

  lemma FirstIsOldest(was: map<string, Entry>, names: seq<string>, records: seq<Record>, gone: set<string>,
                      item: AgentItem)
    requires Queued(was, names, records) && names != [] && OldestReadable(was, gone, item)
    ensures gone == {names[0]} && item == RecordToItem(records[0])
  {
    var last :| last in gone && Yields(was, last, item) && gone == Until(Records(was), last)
                && forall n <- gone :: n == last || Unreadable(was, n);
    assert forall n <- names :: !Unreadable(was, n);
    assert forall n <- gone :: n in names && n == last;
    var i :| 0 <= i < |names| && names[i] == last;
    assert i > 0 ==> names[0] in gone;
    LessIsStrict(last);
  }

  lemma FirstTaken(was: map<string, Entry>, names: seq<string>, records: seq<Record>, now: map<string, Entry>)
    requires Queued(was, names, records) && names != []
    requires now == was - {names[0]} - {TAKEN + names[0]}
    ensures Queued(now, names[1..], records[1..])
  {
    SidecarNotThere(was, names, names[0]);
    assert now == was - {names[0]};
    OthersQueued(was, names, records, now);
  }

  lemma OthersQueued(was: map<string, Entry>, names: seq<string>, records: seq<Record>, now: map<string, Entry>)
    requires Queued(was, names, records) && names != [] && now == was - {names[0]}
    ensures Queued(now, names[1..], records[1..])
  {
    NotAmongOthers(names);
    assert names == [names[0]] + names[1..];
    OthersListed(was, now, names, names[0]);
  }

  lemma SidecarNotThere(was: map<string, Entry>, names: seq<string>, name: string)
    requires (forall n :: n in was <==> n in names) && Records(was) == Seen(names)
    ensures TAKEN + name !in was
  {
    forall e: Entry ensures !IsRecord(TAKEN + name, e) {
      SidecarIsNoRecord(name, e);
    }
    assert TAKEN + name !in Records(was);
  }

  lemma OthersListed(was: map<string, Entry>, now: map<string, Entry>, names: seq<string>, first: string)
    requires Records(was) == Seen(names) && now == was - {first} && names != [] && names[0] == first
    requires first !in names[1..]
    ensures Records(now) == Seen(names[1..])
  {
    assert names == [first] + names[1..];
    forall n ensures n in Records(now) <==> n in names[1..] {
      assert n in Records(was) <==> n in names;
    }
  }

  lemma NotAmongOthers(names: seq<string>)
    requires Ascending(names) && names != []
    ensures names[0] !in names[1..] && Ascending(names[1..])
  {
    LessIsStrict(names[0]);
  }

  lemma MoreQueued(files: map<string, Entry>, names: seq<string>, records: seq<Record>, i: nat)
    requires Ascending(names) && |names| == |records| && i < |names| && Queued(files, names[..i], records[..i])
    requires IsRecord(names[i], File(Some(records[i])))
    ensures Queued(files[names[i] := File(Some(records[i]))], names[..i + 1], records[..i + 1])
  {
    OneMoreQueued(files, names[..i], records[..i], names[i], records[i]);
    assert names[..i + 1] == names[..i] + [names[i]] && records[..i + 1] == records[..i] + [records[i]];
  }

  /** Records written into an empty journal, one after the other. */
  method WriteAll(dir: JournalDir, records: seq<Record>, times: seq<nat>, ghost names: seq<string>)
    requires dir.files == map[] && |times| == |records| && dir.counter + |records| <= MAX_SEQ
    requires names == NamesAt(dir.counter + 1, times) && Ascending(names)
    modifies dir
    ensures Queued(dir.files, names, records) && dir.counter == old(dir.counter) + |records|
  {
    NothingQueued();
    for i := 0 to |records|
      invariant dir.counter == old(dir.counter) + i && Queued(dir.files, names[..i], records[..i])
    {
      ghost var was := dir.files;
      var name := dir.Write(records[i], times[i]);
      assert name == names[i];
      NameIsRecord(times[i], dir.counter, File(Some(records[i])));
      MoreQueued(was, names, records, i);
    }
    assert records[..|records|] == records && names[..|names|] == names;
  }

  /** A drain of records that nobody disturbs. */
  method DrainNext(dir: JournalDir, ghost names: seq<string>, ghost records: seq<Record>)
    returns (item: Option<AgentItem>)
    requires Queued(dir.files, names, records)
    modifies dir`files
    ensures names == [] ==> item.None? && dir.files == map[]
    ensures names != [] ==> item == Some(RecordToItem(records[0])) && Queued(dir.files, names[1..], records[1..])
  {
    ghost var gone;
    item, gone := dir.DrainAgentDisk();
    DrainTakesFirst(old(dir.files), names, records, dir.files, item, gone);
    if names == [] {
      NoneQueued(dir.files);
    }
  }

  lemma NoneQueued(files: map<string, Entry>)
    requires Queued(files, [], [])
    ensures files == map[]
  {
  }

  /** Drains until there is nothing left. */
  method DrainAll(dir: JournalDir, ghost names: seq<string>, ghost records: seq<Record>) returns (items: seq<AgentItem>)
    requires Queued(dir.files, names, records)
    modifies dir`files
    ensures dir.files == map[] && |items| == |records|
    ensures forall i :: 0 <= i < |records| ==> items[i] == RecordToItem(records[i])
    decreases |names|
  {
    var item := DrainNext(dir, names, records);
    if item.None? {
      return [];
    }
    items := DrainAll(dir, names[1..], records[1..]);
    items := [item.value] + items;
  }

  /**
    What is written is drained: items written under ascending names into an empty journal come
    back one drain after the other, in that order, and nothing else does. An item comes back as
    it was unless its path was present and empty.
   */
  method WriteThenDrain(dir: JournalDir, given: seq<AgentItem>, times: seq<nat>) returns (items: seq<AgentItem>)
    requires dir.files == map[] && |times| == |given| && dir.counter + |given| <= MAX_SEQ
    requires Ascending(NamesAt(dir.counter + 1, times)) && forall i <- given :: i.path != Some("")
    modifies dir
    ensures items == given && dir.files == map[]
  {
    var records := seq(|given|, i requires 0 <= i < |given| => ItemToRecord(given[i]));
    ghost var names := NamesAt(dir.counter + 1, times);
    WriteAll(dir, records, times, names);
    items := DrainAll(dir, names, records);
    assert forall i :: 0 <= i < |given| ==> given[i] in given && items[i] == given[i];
  }
}
