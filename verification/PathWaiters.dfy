/** The clipboard channel's waiters: latest wins, nothing is queued. */
module PathWaiters {
  import opened Basics
  import opened Lists

  class PathChan {
    var cell: Option<string>

    constructor ()
      ensures cell == None
    {
      cell := None;
    }
  }

  class Waiters {
    var list: seq<PathChan>

    ghost predicate Valid()
      reads this, list
    {
      && (forall i, j :: 0 <= i < j < |list| ==> list[i] != list[j])
      && (forall w <- list :: w.cell == None)
    }

    constructor ()
      ensures Valid() && list == []
    {
      list := [];
    }

    /** Everyone parked gets the path, and nobody is parked any more. */
    method Resume(path: string)
      requires Valid()
      modifies this, list
      ensures Valid() && list == []
      ensures forall w <- old(list) :: w.cell == Some(path)
    {
      var parked := list;
      list := [];
      for i := 0 to |parked|
        invariant list == []
        invariant forall j :: 0 <= j < i ==> parked[j].cell == Some(path)
        invariant forall j :: i <= j < |parked| ==> parked[j].cell == None
      {
        assert parked[i].cell == None;  // the send does not block
        parked[i].cell := Some(path);
      }
    }

    method Park() returns (ch: PathChan)
      requires Valid()
      modifies this
      ensures Valid() && fresh(ch) && list == old(list) + [ch]
    {
      ch := new PathChan();
      list := list + [ch];
    }

    method Remove(ch: PathChan)
      requires Valid()
      modifies this
      ensures Valid() && list == Without(old(list), ch) && ch !in list
    {
      for i := 0 to |list|
        invariant list == old(list) && forall j :: 0 <= j < i ==> list[j] != ch
      {
        if list[i] == ch {
          WithoutAt(list, i);
          list := list[..i] + list[i + 1..];
          return;
        }
      }
      WithoutAbsent(list, ch);
    }

    method TryReceive(ch: PathChan) returns (path: Option<string>)
      requires Valid()
      modifies ch
      ensures Valid() && path == old(ch.cell) && ch.cell == None
    {
      path := ch.cell;
      ch.cell := None;
    }
  }
}
