/** What decides about the items of an ingest: their kinds, their faults, and the running total against the cap. */
module IngestTerms {
  import opened Store

  /** An item to save; `diskFails` is a save that the disk does not take, `journalFails` a journal that does not. */
  datatype Item = Item(kind: string, name: string, uti: string, channel: string, source: Source,
                       diskFails: bool, journalFails: bool)
  {
    predicate IsFile() {
      kind == "image" || kind == "file"
    }

    function Size(): nat {
      |source.bytes|
    }

    function Payload(): Source {
      Source(source.bytes, source.fails || diskFails)
    }
  }

  datatype Verdict = Accepted | TooLarge | Malformed | Escaped | StoreError | JournalError

  /** What an ingest depends on besides its items. */
  datatype Terms = Terms(agent: bool, escapes: bool, journals: bool, saveText: bool, longText: int, max: int)
  {
    /** The item goes to a file. */
    predicate Writes(i: Item) {
      i.IsFile() || (i.kind == "text" && !agent && (saveText || i.Size() > longText))
    }

    /** All items count but a clipboard text without a file. */
    predicate Counts(i: Item) {
      Writes(i) || (i.kind == "text" && agent)
    }

    function Counted(i: Item): nat {
      if Counts(i) then i.Size() else 0
    }

    function Sum(items: seq<Item>): nat {
      if |items| == 0 then 0 else Sum(items[..|items| - 1]) + Counted(items[|items| - 1])
    }

    function Capped(i: Item, total: nat): Verdict {
      if total + Counted(i) > max then TooLarge else Accepted
    }

    /** The journal of the agent channel does not take the item. */
    predicate Unjournalled(i: Item) {
      agent && journals && i.journalFails
    }

    function JudgeWrite(i: Item, total: nat): Verdict {
      if escapes then Escaped
      else if i.Payload().fails then StoreError
      else if Unjournalled(i) then JournalError
      else Capped(i, total)
    }

    /** What comes of an item when `total` bytes have been counted before it. */
    function Judge(i: Item, total: nat): Verdict {
      if i.IsFile() then JudgeWrite(i, total)
      else if i.kind != "text" || i.source.fails then Malformed
      else if Writes(i) then JudgeWrite(i, total)
      else if !agent then Accepted
      else if Capped(i, total) == Accepted && Unjournalled(i) then JournalError
      else Capped(i, total)
    }

    /** All items before the n-th are accepted. */
    ghost predicate Passes(items: seq<Item>, n: nat)
      requires n <= |items|
    {
      forall k :: 0 <= k < n ==> Judge(items[k], Sum(items[..k])) == Accepted
    }

    /** The items are judged one by one, up to the first that is not accepted. */
    ghost predicate Stops(items: seq<Item>, n: nat, v: Verdict) {
      && n <= |items| && Passes(items, n)
      && (v == Accepted <==> n == |items|)
      && (n < |items| ==> v == Judge(items[n], Sum(items[..n])))
    }

    /** Nothing is wrong with the items but, perhaps, their size. */
    predicate Sound(items: seq<Item>) {
      forall i <- items :: SoundItem(i)
    }

    predicate SoundItem(i: Item) {
      && (i.IsFile() || i.kind == "text") && !i.source.fails && !Unjournalled(i)
      && (Writes(i) ==> !escapes && !i.diskFails)
    }

    lemma JudgeIff(i: Item, total: nat)
      ensures Judge(i, total) == Accepted <==> SoundItem(i) && !(Counts(i) && total + Counted(i) > max)
    {
    }

    /** What an item adds to the total: its size, but for a clipboard text that is not written. */
    lemma Counting(i: Item)
      requires i.kind in ["image", "file", "text"]
      ensures Counted(i) == if i.kind == "text" && !agent && !saveText && i.Size() <= longText then 0 else i.Size()
    {
    }

    /** Which fault each verdict but the size's tells of. */
    lemma VerdictTells(i: Item, total: nat)
      ensures var v := Judge(i, total);
              && (v == Malformed <==>
                    i.kind != "image" && i.kind != "file" && (i.kind != "text" || i.source.fails))
              && (v == Escaped <==> Writes(i) && escapes && v != Malformed)
              && (v == StoreError <==> Writes(i) && !escapes && (i.source.fails || i.diskFails) && v != Malformed)
              && (v == JournalError ==> Unjournalled(i))
              && (v == TooLarge ==> Counts(i) && total + Counted(i) > max)
    {
    }

    lemma {:induction false} SumGrows(items: seq<Item>, m: nat, n: nat)
      requires m <= n <= |items|
      ensures Sum(items[..m]) <= Sum(items[..n])
      decreases n
    {
      if m < n {
        assert items[..n][..n - 1] == items[..n - 1];
        SumGrows(items, m, n - 1);
      }
    }

    lemma SumNext(items: seq<Item>, n: nat)
      requires n < |items|
      ensures Sum(items[..n + 1]) == Sum(items[..n]) + Counted(items[n])
    {
      assert items[..n + 1][..n] == items[..n];
    }

    /** The counted bytes exceed the maximum; a negative one takes an item that counts. */
    ghost predicate Exceeds(items: seq<Item>) {
      Sum(items) > max && (max >= 0 || exists i <- items :: Counts(i))
    }

    lemma ExceedsNext(items: seq<Item>, n: nat)
      requires n < |items| && !Exceeds(items[..n])
      ensures Exceeds(items[..n + 1]) <==> Counts(items[n]) && Sum(items[..n]) + Counted(items[n]) > max
    {
      SumNext(items, n);
      assert items[..n + 1] == items[..n] + [items[n]];
      assert items[n] in items[..n + 1];
    }

    lemma PassesNext(items: seq<Item>, n: nat)
      requires n < |items|
      ensures Passes(items, n + 1) <==> Passes(items, n) && Judge(items[n], Sum(items[..n])) == Accepted
    {
    }

    lemma SoundNext(items: seq<Item>, n: nat)
      requires n < |items|
      ensures Sound(items[..n + 1]) <==> Sound(items[..n]) && SoundItem(items[n])
    {
      assert items[..n + 1] == items[..n] + [items[n]];
    }

    lemma {:induction false} PassesIff(items: seq<Item>, n: nat)
      requires n <= |items|
      ensures Passes(items, n) <==> Sound(items[..n]) && !Exceeds(items[..n])
      decreases n
    {
      if n > 0 {
        PassesIff(items, n - 1);
        JudgeIff(items[n - 1], Sum(items[..n - 1]));
        PassesNext(items, n - 1);
        SoundNext(items, n - 1);
        if Exceeds(items[..n - 1]) {
          ExceedsGrows(items, n - 1, n);
        } else {
          ExceedsNext(items, n - 1);
        }
      }
    }

    lemma ExceedsGrows(items: seq<Item>, m: nat, n: nat)
      requires m <= n <= |items| && Exceeds(items[..m])
      ensures Exceeds(items[..n])
    {
      SumGrows(items, m, n);
      assert forall i <- items[..m] :: i in items[..n];
    }

    /** Items are accepted if and only if nothing is wrong with any and they do not exceed the maximum. */
    lemma AcceptedIff(items: seq<Item>, n: nat, v: Verdict)
      requires Stops(items, n, v)
      ensures v == Accepted <==> Sound(items) && !Exceeds(items)
    {
      assert items[..|items|] == items;
      PassesIff(items, |items|);
    }

    /** Otherwise they stop at the first item with which something is wrong or they exceed it. */
    lemma StopsAtFirstFault(items: seq<Item>, n: nat, v: Verdict)
      requires Stops(items, n, v) && v != Accepted
      ensures n < |items| && !(Sound(items[..n + 1]) && !Exceeds(items[..n + 1]))
      ensures forall m :: 0 <= m <= n ==> Sound(items[..m]) && !Exceeds(items[..m])
    {
      PassesIff(items, n + 1);
      forall m | 0 <= m <= n ensures Sound(items[..m]) && !Exceeds(items[..m]) {
        PassesIff(items, m);
      }
    }

    /** If that is their size, they are too large. */
    lemma StopsAtLeastExcess(items: seq<Item>, n: nat, v: Verdict)
      requires Sound(items) && Stops(items, n, v) && Exceeds(items)
      ensures v == TooLarge && n < |items|
      ensures Exceeds(items[..n + 1]) && forall m :: 0 <= m <= n ==> !Exceeds(items[..m])
    {
      AcceptedIff(items, n, v);
      StopsAtFirstFault(items, n, v);
      assert items[n] in items;
      VerdictTells(items[n], Sum(items[..n]));
    }

    /** Some file of the items takes the counted bytes over the maximum, and no item before it stops the ingest. */
    ghost predicate GoesOverWithFile(items: seq<Item>) {
      exists k :: 0 <= k < |items| && OverAt(items, k)
    }

    ghost predicate OverAt(items: seq<Item>, k: nat)
      requires k < |items|
    {
      items[k].IsFile() && Passes(items, k) && Judge(items[k], Sum(items[..k])) == TooLarge
    }

    /** The one place where an ingest stops: two prefixes that pass end at the same item, if that item does not. */
    lemma StopsOverFileIff(items: seq<Item>, n: nat, v: Verdict)
      requires Stops(items, n, v)
      ensures n < |items| && items[n].IsFile() && v == TooLarge <==> GoesOverWithFile(items)
    {
      if n < |items| && items[n].IsFile() && v == TooLarge {
        assert OverAt(items, n);
      }
      if GoesOverWithFile(items) {
        var k :| 0 <= k < |items| && OverAt(items, k);
        assert n <= k;
        assert k <= n;
      }
    }

    /** The item is the first of sound ones with which they exceed the maximum. */
    ghost predicate ExceedsAt(items: seq<Item>, k: nat)
      requires k < |items|
    {
      items[k].IsFile() && !Exceeds(items[..k]) && Exceeds(items[..k + 1])
    }

    lemma OverAtIff(items: seq<Item>, k: nat)
      requires Sound(items) && k < |items|
      ensures OverAt(items, k) <==> ExceedsAt(items, k)
    {
      PassesIff(items, k);
      assert items[k] in items;
      if !Exceeds(items[..k]) {
        ExceedsNext(items, k);
      }
    }

    /** Of sound items that is a file with which the items begin to exceed the maximum. */
    lemma GoesOverIff(items: seq<Item>)
      requires Sound(items)
      ensures GoesOverWithFile(items) <==> exists k :: 0 <= k < |items| && ExceedsAt(items, k)
    {
      forall k | 0 <= k < |items| ensures OverAt(items, k) <==> ExceedsAt(items, k) {
        OverAtIff(items, k);
      }
    }
  }
}
