/**
  The agent journal as a protocol between processes: any number of writers and drainers
  share the directory, and every listing, rename and removal is a step of its own.
*/
module JournalProtocol {
  import opened Basics
  import opened Lists
  import opened JournalNames
  import opened Journal

  /** A call of DrainAgentDisk, in whatever process. */
  type Call = nat

  /**
    Where a drain stands. A pass works through the names `left` of a listing that was made
    when `mark` records had been published.
   */
  datatype Stage =
    | Idle
    | Pass(left: seq<string>, mark: nat)
    | Claimed(name: string, left: seq<string>, mark: nat)
    | Got(result: Option<string>)
    | Cancelled

  /** What became of a claimed record. */
  datatype Fate = InFlight(call: Call) | Delivered(call: Call) | Dropped(call: Call)

  datatype State = State(
    listed: set<string>,                      // the records anyone can claim
    contents: map<string, Option<Record>>,    // what was written; None cannot be read back
    stages: map<Call, Stage>,
    published: seq<string>,                   // all names ever published, in order
    claims: seq<string>,                      // all names ever claimed, in order
    fates: map<string, Fate>)                 // what became of each claim
  {
    function StageOf(c: Call): Stage {
      if c in stages then stages[c] else Idle
    }

    /** The next thing the call does is to list the directory. */
    predicate MayList(c: Call) {
      StageOf(c) == Idle || (StageOf(c).Pass? && StageOf(c).left == [])
    }
  }

  const START := State({}, map[], map[], [], [], map[])

  datatype Step =
    | Publish(name: string, record: Option<Record>)
    | List(c: Call, names: seq<string>)
    | Rename(c: Call)
    | Read(c: Call)
    | Cancel(c: Call)

  ghost predicate Enabled(s: State, step: Step) {
    match step
    case Publish(name, _) => name !in s.published
    case List(c, names) => s.MayList(c) && Ascending(names) && forall n :: n in names <==> n in s.listed
    case Rename(c) => s.StageOf(c).Pass? && s.StageOf(c).left != []
    case Read(c) => s.StageOf(c).Claimed? && s.StageOf(c).name in s.contents
    case Cancel(c) => s.MayList(c)
  }

  ghost function After(s: State, step: Step): State
    requires Enabled(s, step)
  {
    match step
    case Publish(name, record) =>
      s.(listed := s.listed + {name}, contents := s.contents[name := record], published := s.published + [name])
    case List(c, names) =>
      s.(stages := s.stages[c := if names == [] then Got(None) else Pass(names, |s.published|)])
    case Rename(c) =>
      var Pass(left, mark) := s.StageOf(c);
      if left[0] in s.listed then
        s.(listed := s.listed - {left[0]}, claims := s.claims + [left[0]], fates := s.fates[left[0] := InFlight(c)],
           stages := s.stages[c := Claimed(left[0], left[1..], mark)])
      else
        s.(stages := s.stages[c := Pass(left[1..], mark)])
    case Read(c) =>
      var Claimed(name, left, mark) := s.StageOf(c);
      if s.contents[name].Some? then
        s.(fates := s.fates[name := Delivered(c)], stages := s.stages[c := Got(Some(name))])
      else
        s.(fates := s.fates[name := Dropped(c)], stages := s.stages[c := Pass(left, mark)])
    case Cancel(c) => s.(stages := s.stages[c := Cancelled])
  }

  // ---------------------------------------------------------------- the invariant

  /** Every record published is either still listed or claimed, and claimed only once. */
  ghost predicate Conserved(s: State) {
    && Distinct(s.published) && Distinct(s.claims)
    && (forall n :: n in s.published <==> n in s.listed || n in s.claims)
    && (forall n <- s.claims :: n !in s.listed)
    && |s.listed| + |s.claims| == |s.published|
    && (forall n <- s.published :: n in s.contents)
  }

  /** What the fate of a claim of `name` says about the call that made it. */
  ghost predicate FateTold(s: State, name: string, fate: Fate) {
    match fate
    case InFlight(c) => s.StageOf(c).Claimed? && s.StageOf(c).name == name
    case Delivered(c) => s.StageOf(c) == Got(Some(name)) && name in s.contents && s.contents[name].Some?
    case Dropped(c) => name in s.contents && s.contents[name].None?
  }

  ghost predicate FatesTold(s: State) {
    && (forall n :: n in s.fates <==> n in s.claims)
    && (forall n <- s.fates :: FateTold(s, n, s.fates[n]))
  }

  /** A call holds or has returned only what the list of claims gives it. */
  ghost predicate CallHonest(s: State, c: Call) {
    match s.StageOf(c)
    case Claimed(name, _, _) => name in s.fates && s.fates[name] == InFlight(c)
    case Got(Some(name)) => name in s.fates && s.fates[name] == Delivered(c)
    case _ => true
  }

  ghost predicate CallsHonest(s: State) {
    forall c :: CallHonest(s, c)
  }

  /** The names of a pass are old enough, sorted, and all that is left of the listing. */
  ghost predicate PassSound(s: State, left: seq<string>, mark: nat) {
    && Ascending(left) && mark <= |s.published|
    && (forall n <- left :: n in s.published[..mark])
    && (forall n <- s.published[..mark] :: n in s.listed ==> n in left)
  }

  ghost predicate CallPassSound(s: State, c: Call) {
    match s.StageOf(c)
    case Pass(left, mark) => PassSound(s, left, mark)
    case Claimed(_, left, mark) => PassSound(s, left, mark)
    case _ => true
  }

  ghost predicate PassesSound(s: State) {
    forall c :: CallPassSound(s, c)
  }

  /** As long as names are published in increasing order, they are claimed in that order. */
  ghost predicate InOrder(s: State) {
    Ascending(s.published) ==> s.claims <= s.published
  }

  ghost predicate Inv(s: State) {
    Conserved(s) && FatesTold(s) && CallsHonest(s) && PassesSound(s) && InOrder(s)
  }

  lemma ConservedKept(s: State, step: Step)
    requires Conserved(s) && Enabled(s, step)
    ensures Conserved(After(s, step))
  {
    match step
    case Publish(name, record) => PublishConserves(s, name, record);
    case Rename(c) =>
      if s.StageOf(c).left[0] in s.listed {
        ClaimConserves(s, s.StageOf(c).left[0], After(s, step));
      }
    case _ =>
  }

  lemma PublishConserves(s: State, name: string, record: Option<Record>)
    requires Conserved(s) && name !in s.published
    ensures Conserved(After(s, Publish(name, record)))
  {
    assert name !in s.listed;
  }

  /** A claim moves a name from the listed ones to the claimed. */
  lemma ClaimConserves(s: State, n: string, t: State)
    requires Conserved(s) && n in s.listed
    requires t.listed == s.listed - {n} && t.claims == s.claims + [n]
    requires t.published == s.published && t.contents == s.contents
    ensures Conserved(t)
  {
    assert s.listed == t.listed + {n};
  }

  lemma PublishKeeps(s: State, name: string, record: Option<Record>)
    requires Conserved(s) && FatesTold(s) && CallsHonest(s) && PassesSound(s) && name !in s.published
    ensures var t := After(s, Publish(name, record)); FatesTold(t) && CallsHonest(t) && PassesSound(t)
  {
    var t := After(s, Publish(name, record));
    forall n | n in t.fates ensures FateTold(t, n, t.fates[n]) {
      assert FateTold(s, n, s.fates[n]);
    }
    forall c ensures CallHonest(t, c) && CallPassSound(t, c) {
      assert CallHonest(s, c) && CallPassSound(s, c);
      assert forall mark :: 0 <= mark <= |s.published| ==> t.published[..mark] == s.published[..mark];
    }
  }

  lemma ListKeeps(s: State, c: Call, names: seq<string>)
    requires Conserved(s) && FatesTold(s) && CallsHonest(s) && PassesSound(s) && Enabled(s, List(c, names))
    ensures var t := After(s, List(c, names)); FatesTold(t) && CallsHonest(t) && PassesSound(t)
  {
    var t := After(s, List(c, names));
    StageMoves(s, t, c);
    forall d ensures CallHonest(t, d) && CallPassSound(t, d) {
      assert CallHonest(s, d) && CallPassSound(s, d);
      assert s.published[..|s.published|] == s.published;
    }
  }

  lemma CancelKeeps(s: State, c: Call)
    requires FatesTold(s) && CallsHonest(s) && PassesSound(s) && Enabled(s, Cancel(c))
    ensures var t := After(s, Cancel(c)); FatesTold(t) && CallsHonest(t) && PassesSound(t)
  {
    var t := After(s, Cancel(c));
    StageMoves(s, t, c);
    forall d ensures CallHonest(t, d) && CallPassSound(t, d) {
      assert CallHonest(s, d) && CallPassSound(s, d);
    }
  }

  /** Fates do not speak of a call that holds and has returned nothing. */
  lemma StageMoves(s: State, t: State, c: Call)
    requires FatesTold(s) && t == s.(stages := t.stages) && !s.StageOf(c).Claimed? && !s.StageOf(c).Got?
    requires forall d :: d != c ==> t.StageOf(d) == s.StageOf(d)
    ensures FatesTold(t)
  {
    forall n | n in t.fates ensures FateTold(t, n, t.fates[n]) {
      assert FateTold(s, n, s.fates[n]);
    }
  }

  lemma RenameKeepsFates(s: State, c: Call)
    requires Conserved(s) && FatesTold(s) && CallsHonest(s) && Enabled(s, Rename(c))
    ensures var t := After(s, Rename(c)); FatesTold(t) && CallsHonest(t)
  {
    var t := After(s, Rename(c));
    forall n | n in t.fates ensures FateTold(t, n, t.fates[n]) {
      if n in s.fates {
        assert FateTold(s, n, s.fates[n]);
      }
    }
    forall d ensures CallHonest(t, d) {
      assert CallHonest(s, d);
    }
  }

  lemma RenameKeepsPasses(s: State, c: Call)
    requires PassesSound(s) && Enabled(s, Rename(c))
    ensures PassesSound(After(s, Rename(c)))
  {
    var t := After(s, Rename(c));
    assert CallPassSound(s, c);
    var Pass(left, mark) := s.StageOf(c);
    RestSound(s, t, left, mark);
    forall d ensures CallPassSound(t, d) {
      assert CallPassSound(s, d);
    }
  }

  /** Once its first name is claimed, or gone, a listing goes on with the rest. */
  lemma RestSound(s: State, t: State, left: seq<string>, mark: nat)
    requires PassSound(s, left, mark) && left != []
    requires t.published == s.published && t.listed == s.listed - {left[0]}
    ensures PassSound(t, left[1..], mark)
  {
    assert left == [left[0]] + left[1..];
  }

  lemma ReadKeeps(s: State, c: Call)
    requires Conserved(s) && FatesTold(s) && CallsHonest(s) && PassesSound(s) && Enabled(s, Read(c))
    ensures var t := After(s, Read(c)); FatesTold(t) && CallsHonest(t) && PassesSound(t)
  {
    var t := After(s, Read(c));
    assert CallHonest(s, c);
    ReadTellsFates(s, c, t);
    forall d ensures CallHonest(t, d) && CallPassSound(t, d) {
      assert CallHonest(s, d) && CallPassSound(s, d);
    }
  }

  lemma ReadTellsFates(s: State, c: Call, t: State)
    requires FatesTold(s) && CallHonest(s, c) && Enabled(s, Read(c)) && t == After(s, Read(c))
    ensures FatesTold(t)
  {
    forall n | n in t.fates ensures FateTold(t, n, t.fates[n]) {
      assert FateTold(s, n, s.fates[n]);
    }
  }

  /** Of the records published before its listing, a pass is about to claim the least that is still listed. */
  lemma ClaimsOldest(s: State, c: Call, n: string)
    requires PassesSound(s) && s.StageOf(c).Pass? && s.StageOf(c).left != []
    requires s.StageOf(c).mark <= |s.published| && n in s.published[..s.StageOf(c).mark] && n in s.listed
    ensures n == s.StageOf(c).left[0] || Less(s.StageOf(c).left[0], n)
  {
    assert CallPassSound(s, c);
  }

  lemma OrderKept(s: State, step: Step)
    requires Conserved(s) && PassesSound(s) && InOrder(s) && Enabled(s, step)
    ensures InOrder(After(s, step))
  {
    var t := After(s, step);
    if Ascending(t.published) {
      assert Ascending(s.published) by {
        assert forall i :: 0 <= i < |s.published| ==> s.published[i] == t.published[i];
      }
      if step.Rename? && t.claims != s.claims {
        NextIsClaimed(s, step.c);
      }
    }
  }

  lemma NextIsClaimed(s: State, c: Call)
    requires Conserved(s) && PassesSound(s) && Ascending(s.published) && s.claims <= s.published
    requires s.StageOf(c).Pass? && s.StageOf(c).left != [] && s.StageOf(c).left[0] in s.listed
    ensures |s.claims| < |s.published| && s.StageOf(c).left[0] == s.published[|s.claims|]
  {
    var Pass(left, mark) := s.StageOf(c);
    assert CallPassSound(s, c);
    var k :| 0 <= k < mark && s.published[k] == left[0];
    FirstUnclaimed(s, k);
    var i := |s.claims|;
    ClaimsOldest(s, c, s.published[i]);
    if i < k {
      LessIsTransitive(s.published[i], s.published[k], s.published[i]);
      LessIsStrict(s.published[i]);
    }
  }

  lemma FirstUnclaimed(s: State, k: nat)
    requires Conserved(s) && s.claims <= s.published && k < |s.published| && s.published[k] in s.listed
    ensures |s.claims| <= k && s.published[|s.claims|] in s.listed
  {
    assert s.claims == s.published[..|s.claims|];
    assert s.published[k] !in s.claims;
    var n := s.published[|s.claims|];
    assert n !in s.claims;
  }

  lemma StepKeeps(s: State, step: Step)
    requires Inv(s) && Enabled(s, step)
    ensures Inv(After(s, step))
  {
    ConservedKept(s, step);
    OrderKept(s, step);
    match step
    case Publish(name, record) => PublishKeeps(s, name, record);
    case List(c, names) => ListKeeps(s, c, names);
    case Rename(c) => RenameKeepsFates(s, c); RenameKeepsPasses(s, c);
    case Read(c) => ReadKeeps(s, c);
    case Cancel(c) => CancelKeeps(s, c);
  }

  // ---------------------------------------------------------------- runs

  /** `states` starts empty and follows `steps`. */
  ghost predicate Run(states: seq<State>, steps: seq<Step>) {
    && |states| == |steps| + 1 && states[0] == START
    && forall i :: 0 <= i < |steps| ==> Enabled(states[i], steps[i]) && states[i + 1] == After(states[i], steps[i])
  }

  lemma {:induction false} RunsKeep(states: seq<State>, steps: seq<Step>, i: nat)
    requires Run(states, steps) && i < |states|
    ensures Inv(states[i])
  {
    if i == 0 {
      assert forall c :: CallHonest(START, c) && CallPassSound(START, c);
    } else {
      RunsKeep(states, steps, i - 1);
      StepKeeps(states[i - 1], steps[i - 1]);
    }
  }

  /** The claims whose fate is of one kind. */
  ghost function InFlightClaims(s: State): set<string> {
    set n | n in s.fates && s.fates[n].InFlight?
  }

  ghost function DeliveredClaims(s: State): set<string> {
    set n | n in s.fates && s.fates[n].Delivered?
  }

  ghost function DroppedClaims(s: State): set<string> {
    set n | n in s.fates && s.fates[n].Dropped?
  }

  /** Records written are the ones still listed, in flight, delivered, or dropped as unreadable. */
  lemma Accounted(states: seq<State>, steps: seq<Step>, i: nat)
    requires Run(states, steps) && i < |states|
    ensures var s := states[i];
            && |s.published| == |s.listed| + |InFlightClaims(s)| + |DeliveredClaims(s)| + |DroppedClaims(s)|
            && (forall n <- s.published :: n in s.listed + InFlightClaims(s) + DeliveredClaims(s) + DroppedClaims(s))
            && (forall n <- DroppedClaims(s) :: n in s.contents && s.contents[n] == None)
  {
    RunsKeep(states, steps, i);
    var s := states[i];
    var all := InFlightClaims(s) + DeliveredClaims(s) + DroppedClaims(s);
    Count(s.claims, all);
    assert InFlightClaims(s) !! DeliveredClaims(s) && (InFlightClaims(s) + DeliveredClaims(s)) !! DroppedClaims(s);
    assert |InFlightClaims(s) + DeliveredClaims(s)| == |InFlightClaims(s)| + |DeliveredClaims(s)|;
    forall n <- DroppedClaims(s) ensures n in s.contents && s.contents[n] == None {
      assert FateTold(s, n, s.fates[n]);
    }
  }

  lemma {:induction false} Count(s: seq<string>, all: set<string>)
    requires Distinct(s) && forall n :: n in s <==> n in all
    ensures |s| == |all|
  {
    if s == [] {
      assert all == {};
    } else {
      var t := s[1..];
      assert s == [s[0]] + t && s[0] !in t;
      Count(t, all - {s[0]});
    }
  }

  /** No record is delivered to two calls, and a call returns a record that was written. */
  lemma AtMostOnce(states: seq<State>, steps: seq<Step>, i: nat, c: Call, d: Call, n: string)
    requires Run(states, steps) && i < |states|
    requires states[i].StageOf(c) == Got(Some(n)) && states[i].StageOf(d) == Got(Some(n))
    ensures c == d && n in states[i].published && n in states[i].contents && states[i].contents[n].Some?
  {
    RunsKeep(states, steps, i);
    var s := states[i];
    assert CallHonest(s, c) && CallHonest(s, d);
    assert FateTold(s, n, s.fates[n]);
  }

  /** A record that is published stays what was written, through every claim and read. */
  lemma {:induction false} RecordStays(states: seq<State>, steps: seq<Step>, i: nat, j: nat, n: string)
    requires Run(states, steps) && i <= j < |states| && n in states[i].published
    ensures n in states[i].contents && n in states[j].contents && n in states[j].published
    ensures states[j].contents[n] == states[i].contents[n]
    decreases j
  {
    RunsKeep(states, steps, i);
    if i < j {
      RecordStays(states, steps, i, j - 1, n);
    }
  }

  /** Names published in increasing order are claimed in exactly that order, whoever claims them. */
  lemma ClaimedInNameOrder(states: seq<State>, steps: seq<Step>, i: nat)
    requires Run(states, steps) && i < |states| && Ascending(states[i].published)
    ensures states[i].claims <= states[i].published && Ascending(states[i].claims)
  {
    RunsKeep(states, steps, i);
  }

  /** One call publishes, lists and claims a name. */
  ghost function Alone(s: State, c: Call, n: string, r: Option<Record>): State {
    State(s.listed, s.contents[n := r], s.stages[c := Claimed(n, [], |s.published| + 1)],
          s.published + [n], s.claims + [n], s.fates[n := InFlight(c)])
  }

  lemma Extend(states: seq<State>, steps: seq<Step>, step: Step)
    requires Run(states, steps) && Enabled(states[|steps|], step)
    ensures Run(states + [After(states[|steps|], step)], steps + [step])
  {
  }

  lemma RunAlone(states: seq<State>, steps: seq<Step>, c: Call, n: string, r: Option<Record>)
    returns (states': seq<State>, steps': seq<Step>)
    requires Run(states, steps)
    requires var s := states[|steps|]; s.listed == {} && n !in s.published && s.StageOf(c) == Idle
    ensures Run(states', steps') && states'[|steps'|] == Alone(states[|steps|], c, n, r)
  {
    var s := states[|steps|];
    var t := After(s, Publish(n, r));
    Extend(states, steps, Publish(n, r));
    var u := After(t, List(c, [n]));
    Extend(states + [t], steps + [Publish(n, r)], List(c, [n]));
    states', steps' := states + [t] + [u], steps + [Publish(n, r)] + [List(c, [n])];
    Extend(states', steps', Rename(c));
    states', steps' := states' + [After(u, Rename(c))], steps' + [Rename(c)];
    assert [n][1..] == [];
    assert u.listed - {n} == s.listed;
  }

  /** Calls that nobody has made yet. */
  ghost predicate IdleFrom(s: State, c: Call) {
    forall d :: d >= c ==> s.StageOf(d) == Idle
  }

  /** Names can be claimed in whatever order they are published, if each is claimed before the next comes. */
  lemma {:induction false} ClaimedAsPublished(names: seq<string>) returns (states: seq<State>, steps: seq<Step>)
    requires Distinct(names)
    ensures Run(states, steps) && states[|steps|].published == names && states[|steps|].claims == names
    ensures states[|steps|].listed == {} && IdleFrom(states[|steps|], |names|)
  {
    if names == [] {
      return [START], [];
    }
    var k := |names| - 1;
    var early := names[..k];
    states, steps := ClaimedAsPublished(early);
    assert names == early + [names[k]] && names[k] !in early;
    var s := states[|steps|];
    states, steps := RunAlone(states, steps, k, names[k], None);
    forall d | d >= |names| ensures states[|steps|].StageOf(d) == Idle {
      assert s.StageOf(d) == Idle;
    }
  }

  /** The claims of the run are in ascending order, if it has published these names. */
  ghost predicate ClaimsAscend(states: seq<State>, steps: seq<Step>, names: seq<string>)
    requires Run(states, steps)
  {
    states[|steps|].published == names ==> Ascending(states[|steps|].claims)
  }

  /** Claims come in name order whoever makes them and when, if and only if that is the order of publication. */
  lemma ClaimOrderIff(names: seq<string>)
    requires Distinct(names)
    ensures Ascending(names) <==> forall states, steps :: Run(states, steps) ==> ClaimsAscend(states, steps, names)
  {
    forall states: seq<State>, steps: seq<Step> | Ascending(names) && Run(states, steps)
      ensures ClaimsAscend(states, steps, names) {
      if states[|steps|].published == names {
        ClaimedInNameOrder(states, steps, |steps|);
      }
    }
    var states, steps := ClaimedAsPublished(names);
    assert ClaimsAscend(states, steps, names) ==> Ascending(names);
  }

  /** A name published late is claimed late, however small it is. */
  lemma LateNameIsClaimedLate(a: string, b: string)
    requires Less(a, b)
    ensures exists states: seq<State>, steps: seq<Step> ::
              Run(states, steps) && states[|steps|].claims == [b, a] && states[|steps|].published == [b, a]
  {
    LessIsStrict(a);
    var states, steps := ClaimedAsPublished([b, a]);
    assert states[|steps|].claims == [b, a];
  }

  // ---------------------------------------------------------------- the re-list loop

  /** All that was published is in the listing or claimed: no writer has come since. */
  ghost predicate UpToDate(s: State, mark: nat) {
    mark == |s.published|
  }

  /** A bound on the steps a call still has to take while no writer comes. */
  ghost function Effort(s: State, c: Call): nat {
    match s.StageOf(c)
    case Idle => 2 * |s.listed| + 2
    case Pass(left, mark) => 2 * |left| + 1 + if UpToDate(s, mark) then 0 else 2 * |s.listed| + 1
    case Claimed(_, left, mark) => 2 * |left| + 2 + if UpToDate(s, mark) then 0 else 2 * |s.listed| + 1
    case _ => 0
  }

  predicate IsOf(step: Step, c: Call) {
    !step.Publish? && step.c == c
  }

  /** A step of the call brings it closer to its return; a step of another drain does not take it further away. */
  lemma EffortFalls(s: State, step: Step, c: Call)
    requires Inv(s) && Enabled(s, step) && !step.Publish?
    ensures Effort(After(s, step), c) <= Effort(s, c)
    ensures IsOf(step, c) ==> Effort(After(s, step), c) < Effort(s, c)
  {
    if step.Rename? {
      ListedFalls(s, step);
    }
    if !IsOf(step, c) {
      OthersDoNotDelay(s, step, c);
    } else if step.List? {
      ListingFalls(s, c, step.names);
    } else {
      OwnStepFalls(s, step, c);
    }
  }

  lemma OthersDoNotDelay(s: State, step: Step, c: Call)
    requires Enabled(s, step) && !step.Publish? && !IsOf(step, c) && |After(s, step).listed| <= |s.listed|
    ensures Effort(After(s, step), c) <= Effort(s, c)
  {
    StaysPut(s, step, c);
    EffortOfStage(s, After(s, step), c);
  }

  lemma StaysPut(s: State, step: Step, c: Call)
    requires Enabled(s, step) && !step.Publish? && !IsOf(step, c)
    ensures After(s, step).StageOf(c) == s.StageOf(c) && After(s, step).published == s.published
  {
  }

  lemma EffortOfStage(s: State, t: State, c: Call)
    requires t.StageOf(c) == s.StageOf(c) && t.published == s.published && |t.listed| <= |s.listed|
    ensures Effort(t, c) <= Effort(s, c)
  {
  }

  lemma OwnStepFalls(s: State, step: Step, c: Call)
    requires Enabled(s, step) && IsOf(step, c) && !step.List? && |After(s, step).listed| <= |s.listed|
    ensures Effort(After(s, step), c) < Effort(s, c)
  {
  }

  lemma ListingFalls(s: State, c: Call, names: seq<string>)
    requires Inv(s) && Enabled(s, List(c, names))
    ensures Effort(After(s, List(c, names)), c) < Effort(s, c)
  {
    AscendingIsDistinct(names);
    Count(names, s.listed);
    if s.StageOf(c).Pass? && UpToDate(s, s.StageOf(c).mark) {
      UpToDateIsEmpty(s, c);
    }
  }

  /** A pass that is through with an up-to-date listing has left nothing listed. */
  lemma UpToDateIsEmpty(s: State, c: Call)
    requires Inv(s) && s.StageOf(c).Pass? && s.StageOf(c).left == [] && UpToDate(s, s.StageOf(c).mark)
    ensures s.listed == {}
  {
    assert CallPassSound(s, c);
    assert s.published[..|s.published|] == s.published;
    assert forall n <- s.published :: n !in s.listed;
  }

  lemma ListedFalls(s: State, step: Step)
    requires step.Rename? && Enabled(s, step)
    ensures |After(s, step).listed| <= |s.listed|
  {
    var n := s.StageOf(step.c).left[0];
    if n in s.listed {
      assert s.listed == (s.listed - {n}) + {n};
    }
  }

  lemma AscendingIsDistinct(s: seq<string>)
    requires Ascending(s)
    ensures Distinct(s)
  {
    forall i, j | 0 <= i < j < |s| ensures s[i] != s[j] {
      LessIsStrict(s[i]);
    }
  }

  /** How many of the steps from `from` on are the call's. */
  ghost function StepsOf(steps: seq<Step>, from: nat, c: Call): nat
    requires from <= |steps|
    decreases |steps| - from
  {
    if from == |steps| then 0 else (if IsOf(steps[from], c) then 1 else 0) + StepsOf(steps, from + 1, c)
  }

  /** The call has something to do that is not to give up. */
  ghost predicate MayGoOn(s: State, c: Call) {
    exists step: Step :: IsOf(step, c) && !step.Cancel? && Enabled(s, step)
  }

  lemma {:induction false} SomeListing(listed: set<string>) returns (names: seq<string>)
    ensures Ascending(names) && forall n :: n in names <==> n in listed
  {
    names := [];
    if listed != {} {
      var n :| n in listed;
      names := SomeListing(listed - {n});
      InsertKeeps(n, names);
      names := Insert(n, names);
    }
  }

  /** A call that has not returned always has something to do. */
  lemma Progress(s: State, c: Call)
    requires Inv(s) && !s.StageOf(c).Got? && !s.StageOf(c).Cancelled?
    ensures MayGoOn(s, c)
  {
    if s.MayList(c) {
      var names := SomeListing(s.listed);
      assert Enabled(s, List(c, names)) && IsOf(List(c, names), c);
    } else if s.StageOf(c).Pass? {
      assert Enabled(s, Rename(c)) && IsOf(Rename(c), c);
    } else {
      assert CallHonest(s, c);
      assert Enabled(s, Read(c)) && IsOf(Read(c), c);
    }
  }

  /**
    The re-list loop ends: from any moment on, while no writer comes, a drain has taken a
    bounded number of steps of its own, whatever the other drains do, and has returned, been
    cancelled or can take another.
   */
  lemma DrainEnds(states: seq<State>, steps: seq<Step>, from: nat, c: Call)
    requires Run(states, steps) && from <= |steps|
    requires forall i :: from <= i < |steps| ==> !steps[i].Publish?
    ensures StepsOf(steps, from, c) + Effort(states[|steps|], c) <= Effort(states[from], c)
    ensures Effort(states[from], c) <= 2 * |states[from].listed| + 2 * LeftOf(states[from], c) + 3
    ensures var last := states[|steps|].StageOf(c); last.Got? || last.Cancelled? || MayGoOn(states[|steps|], c)
  {
    StepsBounded(states, steps, from, c);
    RunsKeep(states, steps, |steps|);
    var last := states[|steps|];
    if !last.StageOf(c).Got? && !last.StageOf(c).Cancelled? {
      Progress(last, c);
    }
  }

  lemma {:induction false} StepsBounded(states: seq<State>, steps: seq<Step>, from: nat, c: Call)
    requires Run(states, steps) && from <= |steps|
    requires forall i :: from <= i < |steps| ==> !steps[i].Publish?
    ensures StepsOf(steps, from, c) + Effort(states[|steps|], c) <= Effort(states[from], c)
    decreases |steps| - from
  {
    if from < |steps| {
      RunsKeep(states, steps, from);
      EffortFalls(states[from], steps[from], c);
      StepsBounded(states, steps, from + 1, c);
    }
  }

  ghost function LeftOf(s: State, c: Call): nat {
    match s.StageOf(c)
    case Pass(left, _) => |left|
    case Claimed(_, left, _) => |left|
    case _ => 0
  }

  /** Without writers, a drain that comes back to the directory finds it empty. */
  lemma SecondListingIsEmpty(states: seq<State>, steps: seq<Step>, i: nat, c: Call, names: seq<string>)
    requires Run(states, steps) && i < |states|
    requires states[i].StageOf(c).Pass? && states[i].StageOf(c).mark == |states[i].published|
    requires Enabled(states[i], List(c, names))
    ensures names == [] && After(states[i], List(c, names)).StageOf(c) == Got(None)
  {
    RunsKeep(states, steps, i);
    var s := states[i];
    UpToDateIsEmpty(s, c);
    AscendingIsDistinct(names);
    Count(names, s.listed);
  }

  // ---------------------------------------------------------------- a drain alone

  ghost predicate Path(s: State, steps: seq<Step>, t: State)
    decreases |steps|
  {
    if |steps| == 0 then s == t else Enabled(s, steps[0]) && Path(After(s, steps[0]), steps[1..], t)
  }

  lemma {:induction false} PathJoin(s: State, a: seq<Step>, t: State, b: seq<Step>, u: State)
    requires Path(s, a, t) && Path(t, b, u)
    ensures Path(s, a + b, u)
    decreases |a|
  {
    if a == [] {
      assert a + b == b;
    } else {
      PathJoin(After(s, a[0]), a[1..], t, b, u);
      assert (a + b)[1..] == a[1..] + b;
    }
  }

  ghost predicate Unread(s: State, names: seq<string>) {
    forall n <- names :: n in s.contents && s.contents[n].None?
  }

  /** The first name of a pass, if it is still listed, is claimed and read. */
  lemma ClaimAndRead(s: State, c: Call, left: seq<string>, mark: nat) returns (t: State)
    requires s.StageOf(c) == Pass(left, mark) && left != [] && left[0] in s.listed && left[0] in s.contents
    ensures Path(s, [Rename(c), Read(c)], t)
    ensures t.listed == s.listed - {left[0]} && t.contents == s.contents
    ensures t.StageOf(c) == if s.contents[left[0]].Some? then Got(Some(left[0])) else Pass(left[1..], mark)
  {
    var s1 := After(s, Rename(c));
    t := After(s1, Read(c));
    assert Path(t, [], t) && [Read(c)][1..] == [] && [Rename(c), Read(c)][1..] == [Read(c)];
  }

  /** What a pass of the call comes to: `left` up to its k-th name, the first that can be read, is claimed. */
  ghost predicate PassEnds(s: State, c: Call, left: seq<string>, mark: nat, t: State, k: nat) {
    && k <= |left| && Unread(s, left[..k])
    && (k < |left| ==>
          && left[k] in s.contents && s.contents[left[k]].Some? && t.StageOf(c) == Got(Some(left[k]))
          && t.listed == s.listed - Seen(left[..k + 1]))
    && (k == |left| ==> t.StageOf(c) == Pass([], mark) && t.listed == s.listed - Seen(left))
  }

  lemma PassGrows(s: State, c: Call, left: seq<string>, mark: nat, t: State, u: State, k: nat)
    requires left != [] && Unread(s, [left[0]])
    requires t.contents == s.contents && t.listed == s.listed - {left[0]} && PassEnds(t, c, left[1..], mark, u, k)
    ensures PassEnds(s, c, left, mark, u, k + 1)
  {
    SeenMore(left, k);
  }

  /** A pass that nobody disturbs. */
  lemma {:induction false} PassAlone(s: State, c: Call, left: seq<string>, mark: nat)
    returns (steps: seq<Step>, t: State, k: nat)
    requires s.StageOf(c) == Pass(left, mark) && Distinct(left)
    requires forall n <- left :: n in s.listed && n in s.contents
    ensures Path(s, steps, t) && PassEnds(s, c, left, mark, t, k)
    decreases |left|
  {
    if left == [] {
      return [], s, 0;
    }
    t := ClaimAndRead(s, c, left, mark);
    if s.contents[left[0]].Some? {
      assert left[..1] == [left[0]];
      return [Rename(c), Read(c)], t, 0;
    }
    assert left == [left[0]] + left[1..];
    var more, u, j := PassAlone(t, c, left[1..], mark);
    PathJoin(s, [Rename(c), Read(c)], t, more, u);
    PassGrows(s, c, left, mark, t, u, j);
    steps, t, k := [Rename(c), Read(c)] + more, u, j + 1;
  }

  lemma SeenMore(left: seq<string>, j: nat)
    requires left != [] && j <= |left[1..]|
    ensures left[..j + 1] == [left[0]] + left[1..][..j] && Seen(left) == {left[0]} + Seen(left[1..])
    ensures j < |left[1..]| ==> Seen(left[..j + 2]) == {left[0]} + Seen(left[1..][..j + 1])
  {
    assert left == [left[0]] + left[1..];
    if j < |left[1..]| {
      assert left[..j + 2] == [left[0]] + left[1..][..j + 1];
    }
  }

  lemma ListStep(s: State, c: Call, names: seq<string>)
    requires Enabled(s, List(c, names))
    ensures Path(s, [List(c, names)], After(s, List(c, names)))
  {
    assert [List(c, names)][1..] == [];
  }

  /**
    A drain that nobody disturbs has the effect `Journal.JournalDir.DrainAgentDisk` promises,
    through these steps.
   */
  lemma DrainIsSteps(s: State, c: Call, names: seq<string>) returns (steps: seq<Step>, t: State)
    requires Inv(s) && s.StageOf(c) == Idle && Enabled(s, List(c, names))
    ensures Path(s, steps, t) && t.StageOf(c).Got?
    ensures match t.StageOf(c).result
            case None => t.listed == {} && Unread(s, names)
            case Some(n) => n in s.listed && n in s.contents && s.contents[n].Some?
                            && t.listed == s.listed - Until(s.listed, n)
                            && forall m <- s.listed :: Less(m, n) ==> Unread(s, [m])
  {
    t := After(s, List(c, names));
    steps := [List(c, names)];
    ListStep(s, c, names);
    if names != [] {
      AscendingIsDistinct(names);
      var more, u, k := PassAlone(t, c, names, |s.published|);
      PathJoin(s, steps, t, more, u);
      steps, t := steps + more, u;
      if k < |names| {
        UpTo(names, k, s.listed);
      } else {
        NothingLeft(s, names, t.listed);
        ListStep(t, c, []);
        PathJoin(s, steps, t, [List(c, [])], After(t, List(c, [])));
        steps, t := steps + [List(c, [])], After(t, List(c, []));
        assert names[..k] == names;
      }
    }
  }

  lemma NothingLeft(s: State, names: seq<string>, listed: set<string>)
    requires listed == s.listed - Seen(names) && forall n :: n in names <==> n in s.listed
    ensures listed == {}
  {
  }
}
