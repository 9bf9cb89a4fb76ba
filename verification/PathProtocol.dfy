/**
  All interleavings of waits, resumes and timeouts on the clipboard channel. A resume takes
  the whole list under the lock and sends after it has let go of the lock.
*/
module PathProtocol {
  import opened Basics
  import opened Lists

  /** A wait or a resume, known by the number of its call. */
  type Call = nat

  datatype Wait = Unborn | Waiting | TimedOut | OffList | Ended(path: Option<string>)

  /** What has happened under the lock, in its order. */
  datatype Event = Parks(c: Call) | Resumes(path: string)

  /** A resume that has taken its list and still has to send to `due`. */
  datatype Sender = Sender(path: string, due: seq<Call>)

  datatype World = World(
    list: seq<Call>,
    cells: map<Call, string>,
    waits: map<Call, Wait>,
    senders: map<Call, Sender>,
    sent: set<Call>,          // who has been sent a path
    events: seq<Event>)
  {
    function WaitOf(c: Call): Wait {
      if c in waits then waits[c] else Unborn
    }

    predicate Owed(c: Call, r: Call) {
      r in senders && c in senders[r].due
    }
  }

  const EMPTY := World([], map[], map[], map[], {}, [])

  datatype Move =
    | Park(c: Call)
    | Resume(r: Call, path: string)
    | Send(r: Call)
    | Receive(c: Call)
    | Expire(c: Call)
    | Remove(c: Call)
    | Finish(c: Call)

  ghost predicate Can(w: World, m: Move) {
    match m
    case Park(c) => w.WaitOf(c) == Unborn
    case Resume(r, _) => r !in w.senders
    case Send(r) => r in w.senders && w.senders[r].due != [] && w.senders[r].due[0] !in w.cells
    case Receive(c) => w.WaitOf(c) == Waiting && c in w.cells
    case Expire(c) => w.WaitOf(c) == Waiting
    case Remove(c) => w.WaitOf(c) == TimedOut
    case Finish(c) => w.WaitOf(c) == OffList
  }

  ghost function Do(w: World, m: Move): World
    requires Can(w, m)
  {
    match m
    case Park(c) => w.(list := w.list + [c], waits := w.waits[c := Waiting], events := w.events + [Parks(c)])
    case Resume(r, path) =>
      w.(list := [], senders := w.senders[r := Sender(path, w.list)], events := w.events + [Resumes(path)])
    case Send(r) =>
      var s := w.senders[r];
      w.(senders := w.senders[r := s.(due := s.due[1..])], cells := w.cells[s.due[0] := s.path],
         sent := w.sent + {s.due[0]})
    case Receive(c) => w.(cells := w.cells - {c}, waits := w.waits[c := Ended(Some(w.cells[c]))])
    case Expire(c) => w.(waits := w.waits[c := TimedOut])
    case Remove(c) => w.(list := Without(w.list, c), waits := w.waits[c := OffList])
    case Finish(c) =>
      if c in w.cells then w.(cells := w.cells - {c}, waits := w.waits[c := Ended(Some(w.cells[c]))])
      else w.(waits := w.waits[c := Ended(None)])
  }

  /** The path of the first resume to take the lock after `c` parked. */
  function FirstResume(events: seq<Event>, c: Call): Option<string> {
    if |events| == 0 then None
    else
      var n := |events| - 1;
      var before := FirstResume(events[..n], c);
      if before.Some? then before
      else if events[n].Resumes? && Parks(c) in events[..n] then Some(events[n].path)
      else None
  }

  /** An event other than the first resume after parking leaves the answer as it was. */
  lemma EventAppended(events: seq<Event>, e: Event, c: Call)
    ensures FirstResume(events + [e], c) ==
            if FirstResume(events, c).Some? then FirstResume(events, c)
            else if e.Resumes? && Parks(c) in events then Some(e.path) else None
  {
    assert (events + [e])[..|events|] == events;
  }

  // ---------------------------------------------------------------- the invariant

  /** On the list: parked, not resumed yet, and nothing sent. */
  ghost predicate ListOk(w: World) {
    && Distinct(w.list)
    && forall c <- w.list ::
         && (w.WaitOf(c) == Waiting || w.WaitOf(c) == TimedOut)
         && Parks(c) in w.events && FirstResume(w.events, c) == None && c !in w.sent
  }

  /** Owed a send: by one resume only, the first one after parking; off the list; nothing sent. */
  ghost predicate OwedOk(w: World) {
    && (forall r :: r in w.senders ==> Distinct(w.senders[r].due))
    && (forall c, r :: w.Owed(c, r) ==>
         FirstResume(w.events, c) == Some(w.senders[r].path) && c !in w.sent && c !in w.list)
    && (forall c, r, q :: w.Owed(c, r) && w.Owed(c, q) ==> r == q)
  }

  /** What is in a channel or was returned is the path of that first resume, and was sent once. */
  ghost predicate SentOk(w: World) {
    && (forall c :: c in w.cells ==> c in w.sent && FirstResume(w.events, c) == Some(w.cells[c]))
    && (forall c :: c in w.sent ==> c in w.cells || w.WaitOf(c).Ended?)
    && (forall c :: w.WaitOf(c).Ended? && w.WaitOf(c).path.Some? ==>
         c in w.sent && c !in w.cells && FirstResume(w.events, c) == w.WaitOf(c).path)
  }

  /** A wait that has not begun left no trace. */
  ghost predicate UnbornOk(w: World) {
    forall c :: w.WaitOf(c) == Unborn ==> Parks(c) !in w.events && c !in w.sent
  }

  /** A wait still parked is listed, owed a send, or has its path. */
  ghost predicate NobodyLost(w: World) {
    forall c :: w.WaitOf(c) == Waiting || w.WaitOf(c) == TimedOut ==>
      c in w.list || c in w.cells || exists r :: w.Owed(c, r)
  }

  ghost predicate Inv(w: World) {
    ListOk(w) && OwedOk(w) && SentOk(w) && UnbornOk(w) && NobodyLost(w)
  }

  lemma ParkKeeps(w: World, c: Call)
    requires Inv(w) && Can(w, Park(c))
    ensures Inv(Do(w, Park(c)))
  {
    var v := Do(w, Park(c));
    forall x ensures FirstResume(v.events, x) == FirstResume(w.events, x) {
      EventAppended(w.events, Parks(c), x);
    }
    assert c !in w.list && c !in w.cells;
    NeverParked(w.events, c);
    assert forall x :: x != c ==> v.WaitOf(x) == w.WaitOf(x);
    assert forall x, r :: v.Owed(x, r) <==> w.Owed(x, r);
    assert OwedOk(v) by {
      assert forall r :: w.Owed(c, r) ==> FirstResume(w.events, c).Some?;
    }
    assert UnbornOk(v);
    assert NobodyLost(v) by {
      forall x | v.WaitOf(x) == Waiting || v.WaitOf(x) == TimedOut
        ensures x in v.list || x in v.cells || exists r :: v.Owed(x, r)
      {
        if x != c {
          assert w.WaitOf(x) == v.WaitOf(x);
          if r :| w.Owed(x, r) {
            assert v.Owed(x, r);
          }
        }
      }
    }
  }

  lemma {:induction false} NeverParked(events: seq<Event>, c: Call)
    requires Parks(c) !in events
    ensures FirstResume(events, c) == None
  {
    if |events| > 0 {
      NeverParked(events[..|events| - 1], c);
    }
  }

  lemma ResumeKeeps(w: World, r: Call, path: string)
    requires Inv(w) && Can(w, Resume(r, path))
    ensures Inv(Do(w, Resume(r, path)))
  {
    var v := Do(w, Resume(r, path));
    forall x ensures FirstResume(v.events, x) ==
                     if FirstResume(w.events, x).Some? then FirstResume(w.events, x)
                     else if Parks(x) in w.events then Some(path) else None
    {
      EventAppended(w.events, Resumes(path), x);
    }
    assert forall x :: v.WaitOf(x) == w.WaitOf(x);
    assert forall x, q :: v.Owed(x, q) <==> w.Owed(x, q) || (q == r && x in w.list);
    forall x | v.WaitOf(x) == Waiting || v.WaitOf(x) == TimedOut
      ensures x in v.list || x in v.cells || exists q :: v.Owed(x, q)
    {
      assert w.WaitOf(x) == v.WaitOf(x);
      if x in w.list {
        assert v.Owed(x, r);
      } else if q :| w.Owed(x, q) {
        assert v.Owed(x, q);
      }
    }
    assert forall x :: v.WaitOf(x) == Unborn ==> w.WaitOf(x) == Unborn;
  }

  /** A resume finds every channel it still has to send to empty. */
  lemma SendCan(w: World, r: Call)
    requires Inv(w) && r in w.senders && w.senders[r].due != []
    ensures Can(w, Send(r))
  {
    assert w.Owed(w.senders[r].due[0], r);
  }

  lemma SendKeeps(w: World, r: Call)
    requires Inv(w) && Can(w, Send(r))
    ensures Inv(Do(w, Send(r)))
  {
    var v, s := Do(w, Send(r)), w.senders[r];
    var c := s.due[0];
    assert w.Owed(c, r);
    assert forall x :: v.WaitOf(x) == w.WaitOf(x);
    assert forall x :: x in s.due <==> x == c || x in s.due[1..];
    assert c !in s.due[1..];
    forall x, q ensures v.Owed(x, q) <==> w.Owed(x, q) && x != c {
      assert q != r ==> v.Owed(x, q) == w.Owed(x, q);
      assert w.Owed(c, q) ==> q == r;
    }
    forall x | v.WaitOf(x) == Waiting || v.WaitOf(x) == TimedOut
      ensures x in v.list || x in v.cells || exists q :: v.Owed(x, q)
    {
      assert w.WaitOf(x) == v.WaitOf(x);
      if x != c && x !in w.list && x !in w.cells {
        var q :| w.Owed(x, q);
        assert v.Owed(x, q);
      }
    }
    assert forall x :: v.WaitOf(x) == Unborn ==> w.WaitOf(x) == Unborn;
    if w.WaitOf(c) == Unborn {
      NeverParked(w.events, c);
    }
  }

  /** A move of one call that is not on the way to a send, and keeps or uses up its path. */
  lemma OwnMoveKeeps(w: World, c: Call, v: World)
    requires Inv(w)
    requires v.events == w.events && v.senders == w.senders && v.sent == w.sent
    requires Distinct(v.list) && forall x :: x in v.list <==> x in w.list && (x == c ==> v.WaitOf(c) == TimedOut)
    requires forall x :: x != c ==> v.WaitOf(x) == w.WaitOf(x) && (x in v.cells <==> x in w.cells)
    requires forall x :: x in v.cells ==> x in w.cells && v.cells[x] == w.cells[x]
    requires w.WaitOf(c) != Unborn && !w.WaitOf(c).Ended? && v.WaitOf(c) != Unborn && v.WaitOf(c) != Waiting
    requires c in w.cells ==> c in v.cells || v.WaitOf(c).Ended?
    requires v.WaitOf(c) == TimedOut ==> w.WaitOf(c) == Waiting && (c in v.cells <==> c in w.cells)
    requires v.WaitOf(c).Ended? && v.WaitOf(c).path.Some? ==>
               c in w.cells && c !in v.cells && v.WaitOf(c).path == Some(w.cells[c])
    ensures Inv(v)
  {
    assert forall x, r :: v.Owed(x, r) <==> w.Owed(x, r);
    forall x | x in v.list
      ensures (v.WaitOf(x) == Waiting || v.WaitOf(x) == TimedOut) && Parks(x) in v.events
              && FirstResume(v.events, x) == None && x !in v.sent
    {
      assert w.WaitOf(x) == Waiting || w.WaitOf(x) == TimedOut;
    }
    forall x | x in v.sent ensures x in v.cells || v.WaitOf(x).Ended? {
      assert x != c ==> w.WaitOf(x) == v.WaitOf(x);
      assert w.WaitOf(c).Ended? ==> v.WaitOf(c).Ended?;
    }
    forall x | v.WaitOf(x).Ended? && v.WaitOf(x).path.Some?
      ensures x in v.sent && x !in v.cells && FirstResume(v.events, x) == v.WaitOf(x).path
    {
      assert x != c ==> w.WaitOf(x) == v.WaitOf(x);
    }
    forall x | v.WaitOf(x) == Waiting || v.WaitOf(x) == TimedOut
      ensures x in v.list || x in v.cells || exists r :: v.Owed(x, r)
    {
      assert w.WaitOf(x) == Waiting || w.WaitOf(x) == TimedOut;
      if r :| w.Owed(x, r) {
        assert v.Owed(x, r);
      }
    }
    assert forall x :: v.WaitOf(x) == Unborn ==> w.WaitOf(x) == Unborn;
  }

  lemma ReceiveKeeps(w: World, c: Call)
    requires Inv(w) && Can(w, Receive(c))
    ensures Inv(Do(w, Receive(c)))
  {
    assert c !in w.list;
    OwnMoveKeeps(w, c, Do(w, Receive(c)));
  }

  lemma ExpireKeeps(w: World, c: Call)
    requires Inv(w) && Can(w, Expire(c))
    ensures Inv(Do(w, Expire(c)))
  {
    OwnMoveKeeps(w, c, Do(w, Expire(c)));
  }

  lemma RemoveKeeps(w: World, c: Call)
    requires Inv(w) && Can(w, Remove(c))
    ensures Inv(Do(w, Remove(c)))
  {
    WithoutMembers(w.list, c);
    OwnMoveKeeps(w, c, Do(w, Remove(c)));
  }

  lemma FinishKeeps(w: World, c: Call)
    requires Inv(w) && Can(w, Finish(c))
    ensures Inv(Do(w, Finish(c)))
  {
    assert c !in w.list;
    OwnMoveKeeps(w, c, Do(w, Finish(c)));
  }

  lemma MoveKeeps(w: World, m: Move)
    requires Inv(w) && Can(w, m)
    ensures Inv(Do(w, m))
  {
    match m
    case Park(c) => ParkKeeps(w, c);
    case Resume(r, path) => ResumeKeeps(w, r, path);
    case Send(r) => SendKeeps(w, r);
    case Receive(c) => ReceiveKeeps(w, c);
    case Expire(c) => ExpireKeeps(w, c);
    case Remove(c) => RemoveKeeps(w, c);
    case Finish(c) => FinishKeeps(w, c);
  }

  // ---------------------------------------------------------------- what every run guarantees

  ghost predicate Next(w: World, m: Move, v: World) {
    Can(w, m) && v == Do(w, m)
  }

  ghost predicate Run(worlds: seq<World>, moves: seq<Move>) {
    && |worlds| == |moves| + 1 && worlds[0] == EMPTY
    && forall i :: 0 <= i < |moves| ==> Next(worlds[i], moves[i], worlds[i + 1])
  }

  lemma {:induction false} RunsKeep(worlds: seq<World>, moves: seq<Move>, i: nat)
    requires Run(worlds, moves) && i < |worlds|
    ensures Inv(worlds[i])
  {
    if i > 0 {
      RunsKeep(worlds, moves, i - 1);
      assert Next(worlds[i - 1], moves[i - 1], worlds[i]);
      MoveKeeps(worlds[i - 1], moves[i - 1]);
    }
  }

  /** Whatever happened to the waiter, a resume's next send is never blocked. */
  lemma SendNeverBlocks(worlds: seq<World>, moves: seq<Move>, i: nat, r: Call)
    requires Run(worlds, moves) && i < |worlds|
    requires r in worlds[i].senders && worlds[i].senders[r].due != []
    ensures Can(worlds[i], Send(r))
  {
    RunsKeep(worlds, moves, i);
    SendCan(worlds[i], r);
  }

  /** Each channel is sent to at most once. */
  lemma SentOnce(worlds: seq<World>, moves: seq<Move>, i: nat, r: Call)
    requires Run(worlds, moves) && i < |moves| && moves[i] == Send(r) && Can(worlds[i], Send(r))
    ensures worlds[i].senders[r].due[0] !in worlds[i].sent
  {
    RunsKeep(worlds, moves, i);
    assert worlds[i].Owed(worlds[i].senders[r].due[0], r);
  }

  /** A path a wait returns is that of the first resume to take the lock after it parked. */
  lemma ResultIsFirstResume(worlds: seq<World>, moves: seq<Move>, i: nat, c: Call)
    requires Run(worlds, moves) && i < |worlds|
    requires worlds[i].WaitOf(c).Ended? && worlds[i].WaitOf(c).path.Some?
    ensures FirstResume(worlds[i].events, c) == worlds[i].WaitOf(c).path
  {
    RunsKeep(worlds, moves, i);
  }

  /**
    A wait that has left the list ends empty-handed although a resume had already taken
    it exactly when that resume has not reached its send yet.
   */
  lemma MissedIff(worlds: seq<World>, moves: seq<Move>, i: nat, c: Call)
    requires Run(worlds, moves) && i < |worlds|
    requires worlds[i].WaitOf(c) == OffList
    ensures var w := worlds[i];
            Do(w, Finish(c)).WaitOf(c) == Ended(None) && Taken(worlds, moves, i, c) <==> exists r :: w.Owed(c, r)
  {
    RunsKeep(worlds, moves, i);
    TakenMeans(worlds, moves, i, c);
  }

  /** Some resume took the list while `c` was on it. */
  ghost predicate Taken(worlds: seq<World>, moves: seq<Move>, i: nat, c: Call)
    requires |worlds| == |moves| + 1 && i < |worlds|
  {
    exists j :: 0 <= j < i && moves[j].Resume? && c in worlds[j].list
  }

  lemma {:induction false} TakenMeans(worlds: seq<World>, moves: seq<Move>, i: nat, c: Call)
    requires Run(worlds, moves) && i < |worlds|
    ensures Taken(worlds, moves, i, c) <==> c in worlds[i].sent || exists r :: worlds[i].Owed(c, r)
  {
    if i > 0 {
      TakenMeans(worlds, moves, i - 1, c);
      RunsKeep(worlds, moves, i - 1);
      assert Next(worlds[i - 1], moves[i - 1], worlds[i]);
      TakenStep(worlds[i - 1], moves[i - 1], c);
      TakenBefore(worlds, moves, i, c);
    }
  }

  lemma TakenBefore(worlds: seq<World>, moves: seq<Move>, i: nat, c: Call)
    requires |worlds| == |moves| + 1 && 0 < i < |worlds|
    ensures Taken(worlds, moves, i, c) <==>
            Taken(worlds, moves, i - 1, c) || (moves[i - 1].Resume? && c in worlds[i - 1].list)
  {
  }

  /** It can happen: park, resume under the lock, time out, and only then the send. */
  lemma SomeWaitMisses() returns (worlds: seq<World>, moves: seq<Move>)
    ensures Run(worlds, moves)
    ensures var w := worlds[|worlds| - 1]; w.WaitOf(0) == Ended(None) && FirstResume(w.events, 0) == Some("p")
  {
    var a := Do(EMPTY, Park(0));
    var b := Do(a, Resume(1, "p"));
    var c := Do(b, Expire(0));
    var d := Do(c, Remove(0));
    var e := Do(d, Finish(0));
    worlds, moves := [EMPTY, a, b, c, d, e], [Park(0), Resume(1, "p"), Expire(0), Remove(0), Finish(0)];
    assert a.events == [Parks(0)];
    EventAppended([Parks(0)], Resumes("p"), 0);
    EventAppended([], Parks(0), 0);
    assert [] + [Parks(0)] == [Parks(0)];
  }

  ghost predicate Promised(w: World, c: Call) {
    c in w.sent || exists r :: w.Owed(c, r)
  }

  lemma TakenStep(w: World, m: Move, c: Call)
    requires Inv(w) && Can(w, m)
    ensures Promised(Do(w, m), c) <==> Promised(w, c) || (m.Resume? && c in w.list)
  {
    var v := Do(w, m);
    if m.Resume? {
      assert v.Owed(c, m.r) <==> c in w.list;
      assert forall q :: q != m.r ==> v.Owed(c, q) == w.Owed(c, q);
    } else if m.Send? {
      var s := w.senders[m.r];
      assert forall q :: q != m.r ==> v.Owed(c, q) == w.Owed(c, q);
      assert c in s.due <==> c == s.due[0] || c in s.due[1..];
      assert w.Owed(c, m.r) <==> c == s.due[0] || v.Owed(c, m.r);
    } else {
      assert forall q :: v.Owed(c, q) == w.Owed(c, q);
    }
  }

  /**
    In every reachable state a new wait can park and a new resume take the list, a resume that
    owes a send can send, and a wait can time out at any time, receive what it has been sent,
    and leave once it has timed out.
   */
  lemma CallsGoOn(worlds: seq<World>, moves: seq<Move>, i: nat, c: Call)
    requires Run(worlds, moves) && i < |worlds|
    ensures var w := worlds[i];
            && (w.WaitOf(c) == Unborn ==> Can(w, Park(c)))
            && (c !in w.senders ==> forall path :: Can(w, Resume(c, path)))
            && (c in w.senders && w.senders[c].due != [] ==> Can(w, Send(c)))
            && (w.WaitOf(c) == Waiting ==> Can(w, Expire(c)))
            && (w.WaitOf(c) == Waiting && c in w.cells ==> Can(w, Receive(c)))
            && (w.WaitOf(c) == TimedOut ==> Can(w, Remove(c)))
            && (w.WaitOf(c) == OffList ==> Can(w, Finish(c)))
  {
    if c in worlds[i].senders && worlds[i].senders[c].due != [] {
      SendNeverBlocks(worlds, moves, i, c);
    }
  }
}
