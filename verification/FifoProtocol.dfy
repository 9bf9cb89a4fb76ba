/**
  The agent inbox as a protocol: any number of enqueues and receives, cut into the steps
  that other calls can run between. A send into a channel is a step of its own, since the
  waiter may take the item while the enqueue still holds the lock.
*/
module FifoProtocol {
  import opened Basics
  import opened Wire
  import opened Lists

  /** A receive, known by the number of its call. */
  type Call = nat

  /**
    Where a receive stands. `Left(q)` has taken its channel off the list, at an instant
    when `q` was queued; `Returned` keeps that `q` beside the result of a timeout.
   */
  datatype Stage =
    | Idle
    | Parked
    | Expired
    | Left(queued: seq<AgentItem>)
    | Returned(result: Option<AgentItem>, queued: seq<AgentItem>)

  datatype State = State(
    queue: seq<AgentItem>,
    waiters: seq<Call>,
    cells: map<Call, AgentItem>,   // the full channels
    stages: map<Call, Stage>,
    locked: bool,                  // an enqueue is inside its critical section
    history: seq<AgentItem>,       // all items ever enqueued
    receivers: seq<Call>)          // who was given history[0], history[1], ...
  {
    function StageOf(c: Call): Stage {
      if c in stages then stages[c] else Idle
    }

    predicate Waiting(c: Call) {
      StageOf(c) == Parked || StageOf(c) == Expired
    }
  }

  const START := State([], [], map[], map[], false, [], [])

  datatype Step =
    | Begin(items: seq<AgentItem>)
    | Hand
    | Done
    | Take(c: Call)
    | Park(c: Call)
    | Receive(c: Call)
    | Expire(c: Call)
    | Remove(c: Call)
    | Finish(c: Call)

  ghost predicate Enabled(s: State, step: Step) {
    match step
    case Begin(_) => !s.locked
    case Hand => s.locked && s.waiters != [] && s.queue != [] && s.waiters[0] !in s.cells
    case Done => s.locked && (s.waiters == [] || s.queue == [])
    case Take(c) => !s.locked && s.StageOf(c) == Idle && s.queue != []
    case Park(c) => !s.locked && s.StageOf(c) == Idle && s.queue == []
    case Receive(c) => s.StageOf(c) == Parked && c in s.cells
    case Expire(c) => s.StageOf(c) == Parked
    case Remove(c) => !s.locked && s.StageOf(c) == Expired
    case Finish(c) => s.StageOf(c).Left?
  }

  ghost function After(s: State, step: Step): State
    requires Enabled(s, step)
  {
    match step
    case Begin(items) => s.(queue := s.queue + items, history := s.history + items, locked := true)
    case Hand =>
      var w := s.waiters[0];
      s.(queue := s.queue[1..], waiters := s.waiters[1..], cells := s.cells[w := s.queue[0]],
         receivers := s.receivers + [w])
    case Done => s.(locked := false)
    case Take(c) =>
      s.(queue := s.queue[1..], receivers := s.receivers + [c],
         stages := s.stages[c := Returned(Some(s.queue[0]), [])])
    case Park(c) => s.(waiters := s.waiters + [c], stages := s.stages[c := Parked])
    case Receive(c) =>
      s.(cells := s.cells - {c}, stages := s.stages[c := Returned(Some(s.cells[c]), [])])
    case Expire(c) => s.(stages := s.stages[c := Expired])
    case Remove(c) => s.(waiters := Without(s.waiters, c), stages := s.stages[c := Left(s.queue)])
    case Finish(c) =>
      if c in s.cells then
        s.(cells := s.cells - {c}, stages := s.stages[c := Returned(Some(s.cells[c]), s.StageOf(c).queued)])
      else
        s.(stages := s.stages[c := Returned(None, s.StageOf(c).queued)])
  }

  // ---------------------------------------------------------------- the invariant

  /** The call has `x`, in its channel or as its result. */
  ghost predicate Has(s: State, c: Call, x: AgentItem) {
    if s.StageOf(c).Returned? then s.StageOf(c).result == Some(x) && c !in s.cells
    else s.StageOf(c) != Idle && c in s.cells && s.cells[c] == x
  }

  /** The call has nothing, and has not been promised anything. */
  ghost predicate HasNothing(s: State, c: Call) {
    c !in s.cells && !(s.StageOf(c).Returned? && s.StageOf(c).result.Some?)
  }

  ghost predicate OrderKept(s: State) {
    && |s.receivers| <= |s.history|
    && s.queue == s.history[|s.receivers|..]
    && Distinct(s.receivers)
  }

  ghost predicate ItemsPlaced(s: State) {
    && (forall i :: 0 <= i < |s.receivers| <= |s.history| ==> Has(s, s.receivers[i], s.history[i]))
    && (forall c :: c !in s.receivers ==> HasNothing(s, c))
  }

  ghost predicate ListSound(s: State) {
    && Distinct(s.waiters)
    && (forall w <- s.waiters :: s.Waiting(w) && w !in s.receivers)
  }

  /** A call still waiting is on the list or has been given an item. */
  ghost predicate NobodyForgotten(s: State) {
    forall c :: s.Waiting(c) ==> c in s.waiters || c in s.receivers
  }

  /** A call that left the list without an item did so when nothing was queued. */
  ghost predicate TimeoutsHonest(s: State) {
    && (forall c :: s.StageOf(c).Left? && c !in s.receivers ==> s.StageOf(c).queued == [])
    && (forall c :: s.StageOf(c).Returned? && s.StageOf(c).result == None ==> s.StageOf(c).queued == [])
  }

  ghost predicate Inv(s: State) {
    && OrderKept(s) && ItemsPlaced(s) && ListSound(s) && NobodyForgotten(s) && TimeoutsHonest(s)
    && (s.locked || s.queue == [] || s.waiters == [])
  }

  lemma GiveKeepsOrder(s: State, c: Call, s': State)
    requires OrderKept(s) && s.queue != [] && c !in s.receivers
    requires s'.queue == s.queue[1..] && s'.receivers == s.receivers + [c] && s'.history == s.history
    ensures OrderKept(s') && s'.history[|s.receivers|] == s.queue[0]
  {
  }

  lemma BeginKeeps(s: State, items: seq<AgentItem>)
    requires Inv(s) && Enabled(s, Begin(items))
    ensures Inv(After(s, Begin(items)))
  {
    var s' := After(s, Begin(items));
    assert s'.history[|s.receivers|..] == s.history[|s.receivers|..] + items;
    assert forall c :: s'.StageOf(c) == s.StageOf(c);
    forall i | 0 <= i < |s'.receivers| ensures Has(s', s'.receivers[i], s'.history[i]) {
      assert Has(s, s.receivers[i], s.history[i]);
    }
    forall c | c !in s'.receivers ensures HasNothing(s', c) {
      assert HasNothing(s, c);
    }
  }

  lemma DoneKeeps(s: State)
    requires Inv(s) && Enabled(s, Done)
    ensures Inv(After(s, Done))
  {
    var s' := After(s, Done);
    assert forall c :: s'.StageOf(c) == s.StageOf(c);
    forall i | 0 <= i < |s'.receivers| ensures Has(s', s'.receivers[i], s'.history[i]) {
      assert Has(s, s.receivers[i], s.history[i]);
    }
    forall c | c !in s'.receivers ensures HasNothing(s', c) {
      assert HasNothing(s, c);
    }
    forall w | w in s'.waiters ensures s'.Waiting(w) && w !in s'.receivers {
      assert s.Waiting(w);
    }
  }

  lemma HandKeeps(s: State)
    requires Inv(s) && Enabled(s, Hand)
    ensures Inv(After(s, Hand))
  {
    var s', w := After(s, Hand), s.waiters[0];
    GiveKeepsOrder(s, w, s');
    assert forall x :: s'.StageOf(x) == s.StageOf(x);
    assert Has(s', w, s.queue[0]);
    forall i | 0 <= i < |s'.receivers| ensures Has(s', s'.receivers[i], s'.history[i]) {
      if i < |s.receivers| {
        assert Has(s, s.receivers[i], s.history[i]);
      }
    }
    forall x | x in s'.waiters ensures s'.Waiting(x) && x !in s'.receivers {
      var j :| 0 <= j < |s'.waiters| && s'.waiters[j] == x;
      assert s.waiters[j + 1] == x && s.Waiting(x);
    }
    assert NobodyForgotten(s') by {
      assert forall x :: x in s.waiters ==> x == w || x in s'.waiters;
    }
  }

  lemma TakeKeeps(s: State, c: Call)
    requires Inv(s) && Enabled(s, Take(c))
    ensures Inv(After(s, Take(c)))
  {
    var s' := After(s, Take(c));
    assert forall x :: x != c ==> s'.StageOf(x) == s.StageOf(x);
    assert c !in s.receivers;
    GiveKeepsOrder(s, c, s');
    forall i | 0 <= i < |s'.receivers| ensures Has(s', s'.receivers[i], s'.history[i]) {
      if i < |s.receivers| {
        assert Has(s, s.receivers[i], s.history[i]);
      } else {
        assert HasNothing(s, c);
      }
    }
  }

  lemma ParkKeeps(s: State, c: Call)
    requires Inv(s) && Enabled(s, Park(c))
    ensures Inv(After(s, Park(c)))
  {
    var s' := After(s, Park(c));
    assert forall x :: x != c ==> s'.StageOf(x) == s.StageOf(x);
    assert c !in s.receivers && c !in s.waiters;
    forall i | 0 <= i < |s'.receivers| ensures Has(s', s'.receivers[i], s'.history[i]) {
      assert Has(s, s.receivers[i], s.history[i]);
    }
  }

  /** A step in which only one call moves, and keeps or uses up what it has. */
  lemma OwnStepPlaces(s: State, c: Call, s': State)
    requires ItemsPlaced(s)
    requires s'.receivers == s.receivers && s'.history == s.history
    requires forall d :: d != c ==> s'.StageOf(d) == s.StageOf(d) && (d in s'.cells <==> d in s.cells)
    requires forall d :: d != c && d in s.cells ==> s'.cells[d] == s.cells[d]
    requires forall x :: Has(s, c, x) ==> Has(s', c, x)
    requires HasNothing(s, c) ==> HasNothing(s', c)
    ensures ItemsPlaced(s')
  {
    forall i | 0 <= i < |s'.receivers| <= |s'.history| ensures Has(s', s'.receivers[i], s'.history[i]) {
      assert Has(s, s.receivers[i], s.history[i]);
    }
    forall d | d !in s'.receivers ensures HasNothing(s', d) {
      assert HasNothing(s, d);
    }
  }

  /** A call with a full channel is one of the receivers, and one with nothing is not. */
  lemma ReceiverHas(s: State, c: Call)
    requires OrderKept(s) && ItemsPlaced(s)
    ensures c in s.cells ==> c in s.receivers
    ensures c in s.receivers ==> exists x :: Has(s, c, x)
  {
    if c in s.receivers {
      var i :| 0 <= i < |s.receivers| && s.receivers[i] == c;
      assert Has(s, c, s.history[i]);
    } else {
      assert HasNothing(s, c);
    }
  }

  lemma ReceiveKeeps(s: State, c: Call)
    requires Inv(s) && Enabled(s, Receive(c))
    ensures Inv(After(s, Receive(c)))
  {
    ReceiverHas(s, c);
    OwnStepPlaces(s, c, After(s, Receive(c)));
  }

  lemma ExpireKeeps(s: State, c: Call)
    requires Inv(s) && Enabled(s, Expire(c))
    ensures Inv(After(s, Expire(c)))
  {
    OwnStepPlaces(s, c, After(s, Expire(c)));
  }

  lemma RemoveKeeps(s: State, c: Call)
    requires Inv(s) && Enabled(s, Remove(c))
    ensures Inv(After(s, Remove(c)))
  {
    WithoutMembers(s.waiters, c);
    OwnStepPlaces(s, c, After(s, Remove(c)));
  }

  lemma FinishKeeps(s: State, c: Call)
    requires Inv(s) && Enabled(s, Finish(c))
    ensures Inv(After(s, Finish(c)))
  {
    ReceiverHas(s, c);
    OwnStepPlaces(s, c, After(s, Finish(c)));
  }

  /** Every step of every call keeps the invariant. */
  lemma StepKeeps(s: State, step: Step)
    requires Inv(s) && Enabled(s, step)
    ensures Inv(After(s, step))
  {
    match step
    case Begin(items) => BeginKeeps(s, items);
    case Hand => HandKeeps(s);
    case Done => DoneKeeps(s);
    case Take(c) => TakeKeeps(s, c);
    case Park(c) => ParkKeeps(s, c);
    case Receive(c) => ReceiveKeeps(s, c);
    case Expire(c) => ExpireKeeps(s, c);
    case Remove(c) => RemoveKeeps(s, c);
    case Finish(c) => FinishKeeps(s, c);
  }

  // ---------------------------------------------------------------- runs

  ghost predicate Next(s: State, step: Step, s': State) {
    Enabled(s, step) && s' == After(s, step)
  }

  /** The states a run passes through, from the start. */
  ghost predicate Run(states: seq<State>, steps: seq<Step>) {
    && |states| == |steps| + 1 && states[0] == START
    && forall i :: 0 <= i < |steps| ==> Next(states[i], steps[i], states[i + 1])
  }

  lemma {:induction false} RunsKeep(states: seq<State>, steps: seq<Step>, i: nat)
    requires Run(states, steps) && i < |states|
    ensures Inv(states[i])
  {
    if i > 0 {
      RunsKeep(states, steps, i - 1);
      assert Next(states[i - 1], steps[i - 1], states[i]);
      StepKeeps(states[i - 1], steps[i - 1]);
    }
  }

  // ---------------------------------------------------------------- what every run guarantees

  /** The send of an item to the first waiter finds its channel empty: it never blocks. */
  lemma SendNeverBlocks(states: seq<State>, steps: seq<Step>, i: nat)
    requires Run(states, steps) && i < |states|
    ensures var s := states[i]; s.locked && s.waiters != [] && s.queue != [] ==> Enabled(s, Hand)
  {
    RunsKeep(states, steps, i);
    var s := states[i];
    if s.waiters != [] {
      assert s.waiters[0] in s.waiters && HasNothing(s, s.waiters[0]);
    }
  }

  /**
    First in, first out, exactly once: the items handed out so far are a prefix of all
    that were enqueued, the rest is still queued in order, and each one handed out is
    held by a different call, in its channel or as its result.
   */
  lemma ExactlyOnceInOrder(states: seq<State>, steps: seq<Step>, i: nat)
    requires Run(states, steps) && i < |states|
    ensures var s := states[i];
            && |s.receivers| <= |s.history|
            && s.history == s.history[..|s.receivers|] + s.queue
            && Distinct(s.receivers)
            && (forall k :: 0 <= k < |s.receivers| ==> Has(s, s.receivers[k], s.history[k]))
            && (forall c :: c !in s.receivers ==> HasNothing(s, c))
            && (!s.locked ==> s.queue == [] || s.waiters == [])
  {
    RunsKeep(states, steps, i);
  }

  lemma ReturnedStays(s: State, step: Step, c: Call)
    requires Inv(s) && Enabled(s, step) && s.StageOf(c).Returned?
    ensures After(s, step).StageOf(c) == s.StageOf(c)
  {
  }

  /**
    A receive that times out with nothing left the list at an instant when nothing was
    queued, and from then on no item is ever put into its channel.
   */
  lemma {:induction false} TimeoutLosesNothing(states: seq<State>, steps: seq<Step>, i: nat, j: nat, c: Call)
    requires Run(states, steps) && i <= j < |states|
    requires states[i].StageOf(c).Returned? && states[i].StageOf(c).result == None
    ensures states[i].StageOf(c).queued == []
    ensures states[j].StageOf(c) == states[i].StageOf(c) && c !in states[j].cells && c !in states[j].waiters
    decreases j
  {
    RunsKeep(states, steps, j);
    NilHasNothing(states[j], c);
    if i < j {
      TimeoutLosesNothing(states, steps, i, j - 1, c);
      RunsKeep(states, steps, j - 1);
      assert Next(states[j - 1], steps[j - 1], states[j]);
      ReturnedStays(states[j - 1], steps[j - 1], c);
    }
  }

  lemma NilHasNothing(s: State, c: Call)
    requires Inv(s)
    ensures s.StageOf(c).Returned? && s.StageOf(c).result == None
            ==> s.StageOf(c).queued == [] && c !in s.cells && c !in s.waiters
  {
    ReceiverHas(s, c);
    assert c in s.waiters ==> s.Waiting(c);
  }

  // ---------------------------------------------------------------- the methods as steps

  ghost predicate Path(s: State, steps: seq<Step>, t: State)
    decreases |steps|
  {
    if |steps| == 0 then s == t
    else Enabled(s, steps[0]) && Path(After(s, steps[0]), steps[1..], t)
  }

  lemma {:induction false} HandsOut(s: State) returns (steps: seq<Step>, t: State)
    requires Inv(s) && s.locked
    ensures Path(s, steps, t) && Inv(t) && !t.locked
    ensures var m := Min(|s.queue|, |s.waiters|);
            && t.queue == s.queue[m..] && t.waiters == s.waiters[m..]
            && t.receivers == s.receivers + s.waiters[..m] && t.history == s.history
    decreases |s.waiters|
  {
    if s.waiters == [] || s.queue == [] {
      steps, t := [Done], After(s, Done);
      StepKeeps(s, Done);
      assert Path(t, [], t);
    } else {
      assert s.waiters[0] in s.waiters && HasNothing(s, s.waiters[0]);
      StepKeeps(s, Hand);
      var more;
      more, t := HandsOut(After(s, Hand));
      steps := [Hand] + more;
      assert steps[1..] == more;
      OneMore(s.queue, s.waiters, s.receivers);
    }
  }

  lemma OneMore(queue: seq<AgentItem>, waiters: seq<Call>, receivers: seq<Call>)
    requires queue != [] && waiters != []
    ensures var m, n := Min(|queue|, |waiters|), Min(|queue[1..]|, |waiters[1..]|);
            && m == n + 1 && queue[1..][n..] == queue[m..] && waiters[1..][n..] == waiters[m..]
            && receivers + [waiters[0]] + waiters[1..][..n] == receivers + waiters[..m]
  {
  }

  /** An enqueue that runs undisturbed has the effect `Fifo.Enqueue` promises, through these steps. */
  lemma EnqueueIsSteps(s: State, items: seq<AgentItem>) returns (steps: seq<Step>, t: State)
    requires Inv(s) && !s.locked
    ensures Path(s, steps, t) && Inv(t) && !t.locked
    ensures var all := s.queue + items;
            var m := Min(|all|, |s.waiters|);
            && t.queue == all[m..] && t.waiters == s.waiters[m..]
            && t.receivers == s.receivers + s.waiters[..m]
            && t.history == s.history + items
  {
    StepKeeps(s, Begin(items));
    var more;
    more, t := HandsOut(After(s, Begin(items)));
    steps := [Begin(items)] + more;
    assert steps[1..] == more;
  }

  // ---------------------------------------------------------------- nobody is stuck

  /**
    In every reachable state the lock is free or its holder can go on, a call that has not begun
    can take or park once it is free, one that is parked can time out at any time and receive
    whatever it has been sent, and one that has timed out can leave.
   */
  lemma CallsGoOn(states: seq<State>, steps: seq<Step>, i: nat, c: Call)
    requires Run(states, steps) && i < |states|
    ensures var s := states[i];
            && (s.locked ==> Enabled(s, Hand) || Enabled(s, Done))
            && (!s.locked ==> forall items :: Enabled(s, Begin(items)))
            && (!s.locked && s.StageOf(c) == Idle ==> Enabled(s, Take(c)) || Enabled(s, Park(c)))
            && (s.StageOf(c) == Parked ==> Enabled(s, Expire(c)))
            && (s.StageOf(c) == Parked && c in s.cells ==> Enabled(s, Receive(c)))
            && (!s.locked && s.StageOf(c) == Expired ==> Enabled(s, Remove(c)))
            && (s.StageOf(c).Left? ==> Enabled(s, Finish(c)))
  {
    SendNeverBlocks(states, steps, i);
  }

  lemma OneStep(s: State, step: Step)
    requires Enabled(s, step)
    ensures Path(s, [step], After(s, step))
  {
    assert [step][1..] == [];
    assert Path(After(s, step), [], After(s, step));
  }

  /**
    A receive that runs undisturbed takes the oldest item, or it parks, times out with nothing
    and is on the list no more.
   */
  lemma ReceiveIsSteps(s: State, c: Call) returns (steps: seq<Step>, t: State)
    requires Inv(s) && !s.locked && s.StageOf(c) == Idle
    ensures Path(s, steps, t) && t.StageOf(c).Returned? && !t.locked
    ensures s.queue != [] ==> t.StageOf(c).result == Some(s.queue[0]) && t.queue == s.queue[1..]
    ensures s.queue == [] ==> t.StageOf(c).result == None && t.queue == []
    ensures t.waiters == s.waiters && t.history == s.history
  {
    if s.queue != [] {
      OneStep(s, Take(c));
      return [Take(c)], After(s, Take(c));
    }
    var s1 := After(s, Park(c));
    var s2 := After(s1, Expire(c));
    var s3 := After(s2, Remove(c));
    NotListed(s, c);
    WithoutLast(s.waiters, c);
    t := After(s3, Finish(c));
    OneStep(s3, Finish(c));
    steps := [Park(c), Expire(c), Remove(c), Finish(c)];
    assert steps[1..] == [Expire(c), Remove(c), Finish(c)] && steps[1..][1..] == [Remove(c), Finish(c)];
    assert [Remove(c), Finish(c)][1..] == [Finish(c)];
  }

  lemma NotListed(s: State, c: Call)
    requires Inv(s) && s.StageOf(c) == Idle
    ensures c !in s.waiters && c !in s.cells
  {
    assert c !in s.receivers by {
      assert forall i :: 0 <= i < |s.receivers| ==> Has(s, s.receivers[i], s.history[i]);
    }
    assert HasNothing(s, c);
  }

  lemma {:induction false} WithoutLast(waiters: seq<Call>, c: Call)
    requires c !in waiters
    ensures Without(waiters + [c], c) == waiters
    decreases |waiters|
  {
    if waiters != [] {
      assert (waiters + [c])[1..] == waiters[1..] + [c];
      WithoutLast(waiters[1..], c);
    }
  }
}
