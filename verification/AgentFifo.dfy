/** The in-memory agent inbox: its critical sections, as methods on the shared fields. */
module AgentFifo {
  import opened Basics
  import opened Wire
  import opened Lists

  /** A channel of capacity 1. */
  class Chan {
    var cell: Option<AgentItem>

    constructor ()
      ensures cell == None
    {
      cell := None;
    }

    /** A send that does not block. */
    method Send(item: AgentItem)
      requires cell == None
      modifies this
      ensures cell == Some(item)
    {
      cell := Some(item);
    }
  }

  /** The first `n` channels hold the first `n` items. */
  ghost predicate Handed(channels: seq<Chan>, items: seq<AgentItem>, n: nat)
    requires n <= |channels| && n <= |items|
    reads channels
  {
    forall i :: 0 <= i < n ==> channels[i].cell == Some(items[i])
  }

  /** The channels from the n-th on are empty. */
  ghost predicate Unsent(channels: seq<Chan>, n: nat)
    requires n <= |channels|
    reads channels
  {
    forall i :: n <= i < |channels| ==> channels[i].cell == None
  }

  class Fifo {
    var queue: seq<AgentItem>
    var waiters: seq<Chan>

    /** Between two critical sections: nobody waits while there is an item, and every listed channel is empty. */
    ghost predicate Valid()
      reads this, waiters
    {
      && (queue == [] || waiters == [])
      && (forall i, j :: 0 <= i < j < |waiters| ==> waiters[i] != waiters[j])
      && (forall w <- waiters :: w.cell == None)
    }

    constructor ()
      ensures Valid() && queue == [] && waiters == []
    {
      queue, waiters := [], [];
    }

    /** The first waiters get the first items, one each; the rest of both stays. */
    method Enqueue(items: seq<AgentItem>)
      requires Valid()
      modifies this, waiters
      ensures Valid()
      ensures var all, m := old(queue) + items, Min(|old(waiters)|, |old(queue) + items|);
              && queue == all[m..] && waiters == old(waiters)[m..]
              && Handed(old(waiters), all, m)
    {
      queue := queue + items;
      ghost var all, parked, n := queue, waiters, 0;
      while |waiters| > 0 && |queue| > 0
        invariant n <= |all| && n <= |parked|
        invariant queue == all[n..] && waiters == parked[n..]
        invariant Handed(parked, all, n) && Unsent(parked, n)
        decreases |waiters|
      {
        var w := waiters[0];
        waiters := waiters[1..];
        var item := queue[0];
        queue := queue[1..];
        assert w == parked[n] && item == all[n];
        w.Send(item);
        n := n + 1;
      }
    }

    /** The first section of a receive: take an item, or park a channel of one's own. */
    method TakeOrPark() returns (item: Option<AgentItem>, ch: Chan?)
      requires Valid()
      modifies this
      ensures Valid()
      ensures |old(queue)| > 0 ==> item == Some(old(queue)[0]) && ch == null
                                   && queue == old(queue)[1..] && waiters == old(waiters)
      ensures old(queue) == [] ==> item == None && ch != null && fresh(ch)
                                   && queue == [] && waiters == old(waiters) + [ch]
    {
      if |queue| > 0 {
        item, ch := Some(queue[0]), null;
        queue := queue[1..];
        return;
      }
      var c := new Chan();
      waiters := waiters + [c];
      return None, c;
    }

    method RemoveWaiter(ch: Chan)
      requires Valid()
      modifies this
      ensures Valid() && queue == old(queue) && waiters == Without(old(waiters), ch)
      ensures ch !in waiters
    {
      for i := 0 to |waiters|
        invariant waiters == old(waiters) && forall j :: 0 <= j < i ==> waiters[j] != ch
      {
        if waiters[i] == ch {
          WithoutAt(waiters, i);
          waiters := waiters[..i] + waiters[i + 1..];
          return;
        }
      }
      WithoutAbsent(waiters, ch);
    }

    /** The last look at one's channel after a timeout: an item is not left in it. */
    method TryReceive(ch: Chan) returns (item: Option<AgentItem>)
      requires Valid()
      modifies ch
      ensures Valid() && item == old(ch.cell) && ch.cell == None
    {
      item := ch.cell;
      ch.cell := None;
    }
  }
}
