/**
  Saving files as a protocol: any number of saves into one directory, each probing and
  reserving its name under the mutex and writing its payload outside it.
*/
module SaveProtocol {
  import opened Basics
  import opened Sanitize
  import opened Collisions

  /** A call of saveStream. */
  type Save = nat

  /** Where a save stands. `Failing` still has to remove its placeholder. */
  datatype Stage =
    | Idle
    | Probing(leaf: string, n: nat)
    | Found(leaf: string, final: string)
    | Reserved(final: string)
    | Writing(final: string, tmp: string, bytes: seq<byte>)
    | Done(final: string, bytes: seq<byte>)
    | Failing(final: string)
    | Over

  /** A file, and the save that put it there; None for the files that were there before. */
  datatype File = File(owner: Option<Save>, bytes: seq<byte>)

  datatype State = State(dir: map<string, File>, stages: map<Save, Stage>, holder: Option<Save>)
  {
    function StageOf(c: Save): Stage {
      if c in stages then stages[c] else Idle
    }
  }

  datatype Step =
    | Lock(c: Save, leaf: string)
    | Probe(c: Save)
    | Reserve(c: Save)
    | Open(c: Save, random: string)
    | Append(c: Save, more: seq<byte>)
    | Rename(c: Save)
    | Fail(c: Save)
    | Clean(c: Save)
    | Remove(c: Save)

  predicate MayFail(t: Stage) {
    t.Reserved? || t.Writing?
  }

  ghost predicate Enabled(s: State, step: Step) {
    var t := s.StageOf(step.c);
    match step
    case Lock(_, leaf) => s.holder == None && t == Idle && Safe(leaf)
    case Probe(_) => t.Probing?
    case Reserve(_) => t.Found?
    case Open(_, random) => t.Reserved? && TEMP + random !in s.dir
    case Append(_, _) => t.Writing?
    case Rename(_) => t.Writing?
    case Fail(_) => MayFail(t)
    case Clean(_) => t.Failing?
    case Remove(_) => t.Done?
  }

  /**
    One step. A reservation of a taken name goes back to probing, as the retry does. Both
    removals, of a failed save's placeholder and of a file over the cap, are by name.
   */
  ghost function After(s: State, step: Step): State
    requires Enabled(s, step)
  {
    var c := step.c;
    var t := s.StageOf(c);
    match step
    case Lock(_, leaf) => s.(holder := Some(c), stages := s.stages[c := Probing(leaf, 1)])
    case Probe(_) =>
      var name := Candidate(t.leaf, t.n);
      s.(stages := s.stages[c := if name in s.dir then Probing(t.leaf, t.n + 1) else Found(t.leaf, name)])
    case Reserve(_) =>
      if t.final in s.dir then s.(stages := s.stages[c := Probing(t.leaf, 1)])
      else State(s.dir[t.final := File(Some(c), [])], s.stages[c := Reserved(t.final)], None)
    case Open(_, random) =>
      s.(dir := s.dir[TEMP + random := File(Some(c), [])], stages := s.stages[c := Writing(t.final, TEMP + random, [])])
    case Append(_, more) =>
      s.(dir := s.dir[t.tmp := File(Some(c), t.bytes + more)],
         stages := s.stages[c := Writing(t.final, t.tmp, t.bytes + more)])
    case Rename(_) =>
      s.(dir := (s.dir - {t.tmp})[t.final := File(Some(c), t.bytes)], stages := s.stages[c := Done(t.final, t.bytes)])
    case Fail(_) =>
      s.(dir := if t.Writing? then s.dir - {t.tmp} else s.dir, stages := s.stages[c := Failing(t.final)])
    case Clean(_) => s.(dir := s.dir - {t.final}, stages := s.stages[c := Over])
    case Remove(_) => s.(dir := s.dir - {t.final}, stages := s.stages[c := Over])
  }

  // ---------------------------------------------------------------- the invariant

  /** The names a save has in the directory, and what is under them. */
  ghost predicate Owns(t: Stage, name: string, bytes: seq<byte>) {
    match t
    case Reserved(final) => name == final && bytes == []
    case Writing(final, tmp, written) => (name == final && bytes == []) || (name == tmp && bytes == written)
    case Done(final, written) => name == final && bytes == written
    case Failing(final) => name == final && bytes == []
    case _ => false
  }

  /** Every file put there by a save is one that the save's stage tells of. */
  ghost predicate FilesTold(s: State) {
    forall name <- s.dir :: s.dir[name].owner.Some? ==>
      Owns(s.StageOf(s.dir[name].owner.value), name, s.dir[name].bytes)
  }

  ghost predicate Has(s: State, c: Save, name: string, bytes: seq<byte>) {
    name in s.dir && s.dir[name] == File(Some(c), bytes)
  }

  /** Everything a save's stage tells of is there, and its names are of the right kind. */
  ghost predicate SaveSound(s: State, c: Save) {
    match s.StageOf(c)
    case Idle => true
    case Probing(leaf, n) => s.holder == Some(c) && Safe(leaf) && n >= 1
    case Found(leaf, final) => s.holder == Some(c) && Safe(leaf) && Storable(final) && final !in s.dir
    case Reserved(final) => Storable(final) && Has(s, c, final, [])
    case Writing(final, tmp, bytes) => Storable(final) && TEMP <= tmp && Has(s, c, final, []) && Has(s, c, tmp, bytes)
    case Done(final, bytes) => Storable(final) && Has(s, c, final, bytes)
    case Failing(final) => Storable(final) && Has(s, c, final, [])
    case Over => true
  }

  ghost predicate SavesSound(s: State) {
    forall c :: SaveSound(s, c)
  }

  ghost predicate Inv(s: State) {
    FilesTold(s) && SavesSound(s)
  }

  /** A step alters no file but those of the save that takes it. */
  lemma StepLeavesOthers(s: State, step: Step, name: string)
    requires Inv(s) && Enabled(s, step) && name in s.dir && s.dir[name].owner != Some(step.c)
    ensures name in After(s, step).dir && After(s, step).dir[name] == s.dir[name]
  {
    assert SaveSound(s, step.c);
  }

  /** No step but a reservation puts a new name into the directory, apart from temporary files. */
  lemma OnlyReserveAdds(s: State, step: Step, name: string)
    requires Inv(s) && Enabled(s, step) && name !in s.dir && name in After(s, step).dir
    ensures TEMP <= name || (step.Reserve? && s.StageOf(step.c).Found? && name == s.StageOf(step.c).final)
  {
    assert SaveSound(s, step.c);
  }

  lemma OthersStaySound(s: State, step: Step, d: Save)
    requires Inv(s) && Enabled(s, step) && d != step.c
    ensures SaveSound(After(s, step), d)
  {
    var t := After(s, step);
    assert SaveSound(s, d) && SaveSound(s, step.c);
    forall name, bytes | Has(s, d, name, bytes) ensures Has(t, d, name, bytes) {
      StepLeavesOthers(s, step, name);
    }
    if s.StageOf(d).Found? && s.StageOf(d).final in t.dir {
      OnlyReserveAdds(s, step, s.StageOf(d).final);
    }
  }

  lemma StepperStaysSound(s: State, step: Step)
    requires Inv(s) && Enabled(s, step)
    ensures SaveSound(After(s, step), step.c)
  {
    assert SaveSound(s, step.c);
    if step.Probe? {
      CandidateIsStorable(s.StageOf(step.c).leaf, s.StageOf(step.c).n);
    }
  }

  lemma FilesStayTold(s: State, step: Step)
    requires Inv(s) && Enabled(s, step)
    ensures FilesTold(After(s, step))
  {
    var t := After(s, step);
    assert SaveSound(s, step.c);
    forall name | name in t.dir && t.dir[name].owner.Some?
      ensures Owns(t.StageOf(t.dir[name].owner.value), name, t.dir[name].bytes) {
      if name in s.dir && s.dir[name] == t.dir[name] {
        assert Owns(s.StageOf(s.dir[name].owner.value), name, s.dir[name].bytes);
      }
    }
  }

  lemma StepKeeps(s: State, step: Step)
    requires Inv(s) && Enabled(s, step)
    ensures Inv(After(s, step))
  {
    FilesStayTold(s, step);
    StepperStaysSound(s, step);
    forall d ensures SaveSound(After(s, step), d) {
      if d != step.c {
        OthersStaySound(s, step, d);
      }
    }
  }

  // ---------------------------------------------------------------- runs

  /** `states` starts with the files that were there, and follows `steps`. */
  ghost predicate Run(states: seq<State>, steps: seq<Step>) {
    && |states| == |steps| + 1
    && states[0].stages == map[] && states[0].holder == None
    && (forall name <- states[0].dir :: states[0].dir[name].owner == None)
    && forall i :: 0 <= i < |steps| ==> Enabled(states[i], steps[i]) && states[i + 1] == After(states[i], steps[i])
  }

  lemma {:induction false} RunsKeep(states: seq<State>, steps: seq<Step>, i: nat)
    requires Run(states, steps) && i < |states|
    ensures Inv(states[i])
  {
    if i > 0 {
      RunsKeep(states, steps, i - 1);
      StepKeeps(states[i - 1], steps[i - 1]);
    }
  }

  /** The files that were there before are there for good, and as they were. */
  lemma {:induction false} OldFilesUntouched(states: seq<State>, steps: seq<Step>, i: nat, name: string)
    requires Run(states, steps) && i < |states| && name in states[0].dir
    ensures name in states[i].dir && states[i].dir[name] == states[0].dir[name]
  {
    if i > 0 {
      OldFilesUntouched(states, steps, i - 1, name);
      RunsKeep(states, steps, i - 1);
      StepLeavesOthers(states[i - 1], steps[i - 1], name);
    }
  }

  /** A name found free is still free when it is reserved: the retry is never taken. */
  lemma ReservationIsFresh(states: seq<State>, steps: seq<Step>, i: nat)
    requires Run(states, steps) && i < |steps| && steps[i].Reserve?
    ensures var final := states[i].StageOf(steps[i].c).final;
            final !in states[i].dir && states[i + 1].StageOf(steps[i].c) == Reserved(final)
  {
    RunsKeep(states, steps, i);
    assert SaveSound(states[i], steps[i].c);
  }

  predicate Live(t: Stage) {
    t.Reserved? || t.Writing? || t.Done? || t.Failing?
  }

  /** No two saves that hold a name hold the same one, and it is no file that was there before. */
  lemma LiveNamesDiffer(states: seq<State>, steps: seq<Step>, i: nat, c: Save, d: Save)
    requires Run(states, steps) && i < |states|
    requires Live(states[i].StageOf(c)) && Live(states[i].StageOf(d))
    ensures states[i].StageOf(c).final !in states[0].dir
    ensures states[i].StageOf(c).final == states[i].StageOf(d).final ==> c == d
  {
    RunsKeep(states, steps, i);
    assert SaveSound(states[i], c) && SaveSound(states[i], d);
    var final := states[i].StageOf(c).final;
    if final in states[0].dir {
      OldFilesUntouched(states, steps, i, final);
    }
  }

  /** A finished save has its payload under its name, whatever the other saves do. */
  lemma DoneIsStored(states: seq<State>, steps: seq<Step>, i: nat, c: Save)
    requires Run(states, steps) && i < |states| && states[i].StageOf(c).Done?
    ensures var Done(final, bytes) := states[i].StageOf(c);
            final in states[i].dir && states[i].dir[final] == File(Some(c), bytes)
  {
    RunsKeep(states, steps, i);
    assert SaveSound(states[i], c);
  }

  /** What a save has appended in the first `i` steps. */
  ghost function Appended(steps: seq<Step>, i: nat, c: Save): seq<byte>
    requires i <= |steps|
  {
    if i == 0 then []
    else Appended(steps, i - 1, c)
         + if steps[i - 1].Append? && steps[i - 1].c == c then steps[i - 1].more else []
  }

  /** What a save is writing, or has stored, is all that it has appended, in that order. */
  lemma {:induction false} PayloadIsWhole(states: seq<State>, steps: seq<Step>, i: nat, c: Save)
    requires Run(states, steps) && i < |states|
    ensures match states[i].StageOf(c)
            case Writing(_, _, bytes) => bytes == Appended(steps, i, c)
            case Done(_, bytes) => bytes == Appended(steps, i, c)
            case Failing(_) => true
            case Over => true
            case _ => Appended(steps, i, c) == []
  {
    if i > 0 {
      PayloadIsWhole(states, steps, i - 1, c);
      RunsKeep(states, steps, i - 1);
      PayloadKept(states[i - 1], steps[i - 1], c, Appended(steps, i - 1, c));
    }
  }

  ghost predicate PayloadIs(t: Stage, bytes: seq<byte>) {
    match t
    case Writing(_, _, written) => written == bytes
    case Done(_, written) => written == bytes
    case Failing(_) => true
    case Over => true
    case _ => bytes == []
  }

  lemma PayloadKept(s: State, step: Step, c: Save, bytes: seq<byte>)
    requires Inv(s) && Enabled(s, step) && PayloadIs(s.StageOf(c), bytes)
    ensures PayloadIs(After(s, step).StageOf(c), bytes + if step.Append? && step.c == c then step.more else [])
  {
    assert SaveSound(s, c) && bytes + [] == bytes;
  }

  /** A save that is over, failed or removed, has left nothing in the directory. */
  lemma OverLeavesNothing(states: seq<State>, steps: seq<Step>, i: nat, c: Save, name: string)
    requires Run(states, steps) && i < |states| && states[i].StageOf(c) == Over && name in states[i].dir
    ensures states[i].dir[name].owner != Some(c)
  {
    RunsKeep(states, steps, i);
    assert FilesTold(states[i]);
  }

  // ---------------------------------------------------------------- the probing ends

  /** The name can be the n-th candidate for the leaf, or a later one. */
  ghost predicate Untried(name: string, leaf: string, n: nat) {
    !(TEMP <= name) && forall k :: 1 <= k < n ==> name != Candidate(leaf, k)
  }

  /** The names of the directory that can still be in the way. */
  ghost function InTheWay(dir: map<string, File>, leaf: string, n: nat): set<string> {
    set name | name in dir && Untried(name, leaf, n)
  }

  ghost function ProbesLeft(s: State, c: Save): nat {
    match s.StageOf(c)
    case Probing(leaf, n) => |InTheWay(s.dir, leaf, n)| + 1
    case _ => 0
  }

  lemma UntriedNext(name: string, leaf: string, n: nat)
    requires n >= 1
    ensures Untried(name, leaf, n + 1) <==> Untried(name, leaf, n) && name != Candidate(leaf, n)
  {
    if Untried(name, leaf, n) && name != Candidate(leaf, n) {
      forall k | 1 <= k < n + 1 ensures name != Candidate(leaf, k) {
        assert k < n || k == n;
      }
    }
  }

  lemma CandidateIsUntried(leaf: string, n: nat)
    requires Safe(leaf) && n >= 1
    ensures Untried(Candidate(leaf, n), leaf, n)
  {
    CandidateIsStorable(leaf, n);
    forall k | 1 <= k < n ensures Candidate(leaf, n) != Candidate(leaf, k) {
      CandidatesDiffer(leaf, k, n);
    }
  }

  lemma ProbeTakesOneOut(dir: map<string, File>, leaf: string, n: nat)
    requires Safe(leaf) && n >= 1 && Candidate(leaf, n) in dir
    ensures |InTheWay(dir, leaf, n + 1)| < |InTheWay(dir, leaf, n)|
  {
    CandidateIsUntried(leaf, n);
    forall name ensures Untried(name, leaf, n + 1) <==> Untried(name, leaf, n) && name != Candidate(leaf, n) {
      UntriedNext(name, leaf, n);
    }
    assert InTheWay(dir, leaf, n) == InTheWay(dir, leaf, n + 1) + {Candidate(leaf, n)};
  }

  lemma Smaller<T>(a: set<T>, b: set<T>)
    requires a <= b
    ensures |a| <= |b|
  {
    assert b == a + (b - a);
  }

  /** Every probe brings the end nearer. */
  lemma ProbingEnds(s: State, c: Save)
    requires Inv(s) && s.StageOf(c).Probing?
    ensures ProbesLeft(After(s, Probe(c)), c) < ProbesLeft(s, c)
  {
    assert SaveSound(s, c);
    var Probing(leaf, n) := s.StageOf(c);
    if Candidate(leaf, n) in s.dir {
      ProbeTakesOneOut(s.dir, leaf, n);
      assert After(s, Probe(c)).StageOf(c) == Probing(leaf, n + 1);
      assert After(s, Probe(c)).dir == s.dir;
    } else {
      assert After(s, Probe(c)).StageOf(c).Found?;
    }
  }

  /** No step of another save puts the end of the probing off. */
  lemma OthersDoNotDelay(s: State, step: Step, c: Save)
    requires Inv(s) && Enabled(s, step) && s.StageOf(c).Probing? && step.c != c
    ensures ProbesLeft(After(s, step), c) <= ProbesLeft(s, c)
  {
    var Probing(leaf, n) := s.StageOf(c);
    var t := After(s, step);
    assert SaveSound(s, c) && SaveSound(s, step.c);
    assert !step.Reserve?;
    forall name | name in InTheWay(t.dir, leaf, n) ensures name in InTheWay(s.dir, leaf, n) {
      if name !in s.dir {
        OnlyReserveAdds(s, step, name);
      }
    }
    Smaller(InTheWay(t.dir, leaf, n), InTheWay(s.dir, leaf, n));
  }

  /** How many of the steps from `from` on are probes of the save. */
  ghost function ProbesOf(steps: seq<Step>, from: nat, c: Save): nat
    requires from <= |steps|
    decreases |steps| - from
  {
    if from == |steps| then 0 else (if steps[from] == Probe(c) then 1 else 0) + ProbesOf(steps, from + 1, c)
  }

  lemma ProbesFall(s: State, step: Step, c: Save)
    requires Inv(s) && Enabled(s, step) && s.StageOf(c) != Idle
    ensures After(s, step).StageOf(c) != Idle
    ensures (if step == Probe(c) then 1 else 0) + ProbesLeft(After(s, step), c) <= ProbesLeft(s, c)
  {
    assert SaveSound(s, c);
    if step.c == c {
      if step.Probe? {
        ProbingEnds(s, c);
      }
    } else if s.StageOf(c).Probing? {
      OthersDoNotDelay(s, step, c);
    }
  }

  lemma InTheWayIsThere(s: State, c: Save)
    ensures ProbesLeft(s, c) <= |s.dir| + 1
  {
    if s.StageOf(c).Probing? {
      var Probing(leaf, n) := s.StageOf(c);
      Smaller(InTheWay(s.dir, leaf, n), s.dir.Keys);
    }
  }

  /**
    From the moment it has the mutex a save probes at most once for each name then in the
    directory and once more, however long the run and whatever the other saves do.
   */
  lemma {:induction false} ProbesBounded(states: seq<State>, steps: seq<Step>, from: nat, c: Save)
    requires Run(states, steps) && from <= |steps| && states[from].StageOf(c) != Idle
    ensures ProbesOf(steps, from, c) + ProbesLeft(states[|steps|], c) <= ProbesLeft(states[from], c)
    ensures ProbesLeft(states[from], c) <= |states[from].dir| + 1
    decreases |steps| - from
  {
    InTheWayIsThere(states[from], c);
    if from < |steps| {
      RunsKeep(states, steps, from);
      ProbesFall(states[from], steps[from], c);
      ProbesBounded(states, steps, from + 1, c);
    }
  }

  // ---------------------------------------------------------------- a save alone

  ghost predicate Path(s: State, steps: seq<Step>, t: State)
    decreases |steps|
  {
    if |steps| == 0 then s == t else Enabled(s, steps[0]) && Path(After(s, steps[0]), steps[1..], t)
  }

  lemma {:induction false} PathThen(s: State, steps: seq<Step>, t: State, step: Step)
    requires Path(s, steps, t) && Enabled(t, step)
    ensures Path(s, steps + [step], After(t, step))
    decreases |steps|
  {
    if steps == [] {
      assert [step][1..] == [];
      assert Path(After(t, step), [], After(t, step));
    } else {
      PathThen(After(s, steps[0]), steps[1..], t, step);
      assert (steps + [step])[1..] == steps[1..] + [step];
    }
  }

  /** The candidates before the n-th are taken. */
  ghost predicate TakenBefore(dir: map<string, File>, leaf: string, n: nat) {
    forall k :: 1 <= k < n ==> Candidate(leaf, k) in dir
  }

  lemma TakenNext(dir: map<string, File>, leaf: string, n: nat)
    requires TakenBefore(dir, leaf, n) && Candidate(leaf, n) in dir
    ensures TakenBefore(dir, leaf, n + 1)
  {
    forall k | 1 <= k < n + 1 ensures Candidate(leaf, k) in dir {
      assert k == n || k < n;
    }
  }

  /** The n-th candidate is the first that is free. */
  ghost predicate FirstCandidate(dir: map<string, File>, leaf: string, n: nat) {
    n >= 1 && Candidate(leaf, n) !in dir && TakenBefore(dir, leaf, n)
  }

  lemma ProbeOnce(s: State, c: Save, leaf: string, n: nat) returns (t: State)
    requires Inv(s) && s.StageOf(c) == Probing(leaf, n)
    ensures t == After(s, Probe(c)) && Inv(t) && t.dir == s.dir && n >= 1
    ensures t.StageOf(c)
         == if Candidate(leaf, n) in s.dir then Probing(leaf, n + 1) else Found(leaf, Candidate(leaf, n))
    ensures ProbesLeft(t, c) < ProbesLeft(s, c)
  {
    assert SaveSound(s, c);
    StepKeeps(s, Probe(c));
    ProbingEnds(s, c);
    t := After(s, Probe(c));
  }

  /** Probing that nobody disturbs finds the first free candidate. */
  lemma {:induction false} ProbeAlone(r: State, done: seq<Step>, s: State, c: Save, leaf: string, n: nat)
    returns (steps: seq<Step>, t: State, m: nat)
    requires Inv(s) && Path(r, done, s) && s.StageOf(c) == Probing(leaf, n)
    requires TakenBefore(s.dir, leaf, n)
    ensures Path(r, steps, t) && Inv(t) && FirstCandidate(s.dir, leaf, m)
    ensures t.StageOf(c) == Found(leaf, Candidate(leaf, m)) && t.dir == s.dir
    decreases ProbesLeft(s, c)
  {
    PathThen(r, done, s, Probe(c));
    t := ProbeOnce(s, c, leaf, n);
    steps, m := done + [Probe(c)], n;
    if Candidate(leaf, n) in s.dir {
      TakenNext(s.dir, leaf, n);
      steps, t, m := ProbeAlone(r, steps, t, c, leaf, n + 1);
    }
  }

  /** The directory after a reservation, a temporary file and the rename over the placeholder. */
  lemma OnlyFinalChanges(dir: map<string, File>, final: string, tmp: string, c: Save, bytes: seq<byte>)
    requires tmp !in dir && tmp != final
    ensures (dir[final := File(Some(c), [])][tmp := File(Some(c), [])][tmp := File(Some(c), bytes)] - {tmp})
            [final := File(Some(c), bytes)]
         == dir[final := File(Some(c), bytes)]
  {
  }

  /** From a found name on: reserve it, write, and rename. */
  lemma WriteAlone(r: State, done: seq<Step>, s: State, c: Save, leaf: string, final: string, random: string,
                   bytes: seq<byte>)
    returns (steps: seq<Step>, t: State)
    requires Path(r, done, s) && s.StageOf(c) == Found(leaf, final) && final !in s.dir && Storable(final)
    requires TEMP + random !in s.dir
    ensures Path(r, steps, t) && t.StageOf(c) == Done(final, bytes) && t.holder == None
    ensures t.dir == s.dir[final := File(Some(c), bytes)]
  {
    StorableIsNotTemporary(final, random);
    var s1 := After(s, Reserve(c));
    PathThen(r, done, s, Reserve(c));
    var s2 := After(s1, Open(c, random));
    PathThen(r, done + [Reserve(c)], s1, Open(c, random));
    var s3 := After(s2, Append(c, bytes));
    PathThen(r, done + [Reserve(c)] + [Open(c, random)], s2, Append(c, bytes));
    t := After(s3, Rename(c));
    PathThen(r, done + [Reserve(c)] + [Open(c, random)] + [Append(c, bytes)], s3, Rename(c));
    steps := done + [Reserve(c)] + [Open(c, random)] + [Append(c, bytes)] + [Rename(c)];
    assert [] + bytes == bytes;
    OnlyFinalChanges(s.dir, final, TEMP + random, c, bytes);
  }

  /** A save that nobody disturbs adds its payload under the first free candidate, through these steps. */
  lemma SaveIsSteps(s: State, c: Save, leaf: string, random: string, bytes: seq<byte>)
    returns (steps: seq<Step>, t: State, n: nat)
    requires Inv(s) && s.holder == None && s.StageOf(c) == Idle && Safe(leaf) && TEMP + random !in s.dir
    ensures Path(s, steps, t) && FirstCandidate(s.dir, leaf, n) && t.holder == None
    ensures t.StageOf(c) == Done(Candidate(leaf, n), bytes)
    ensures t.dir == s.dir[Candidate(leaf, n) := File(Some(c), bytes)]
  {
    t := After(s, Lock(c, leaf));
    PathThen(s, [], s, Lock(c, leaf));
    StepKeeps(s, Lock(c, leaf));
    steps, t, n := ProbeAlone(s, [] + [Lock(c, leaf)], t, c, leaf, 1);
    assert SaveSound(t, c);
    steps, t := WriteAlone(s, steps, t, c, leaf, Candidate(leaf, n), random, bytes);
  }

  // ---------------------------------------------------------------- nobody is stuck

  /**
    In every reachable state the mutex is free, so that any save can begin, or its holder is
    probing or has found a name and can go on; and a save that holds a name can write, rename,
    fail and be removed, each when its turn has come.
   */
  lemma SavesGoOn(states: seq<State>, steps: seq<Step>, i: nat, c: Save)
    requires Run(states, steps) && i < |states|
    ensures var s := states[i];
            var t := s.StageOf(c);
            && (s.holder == None && t == Idle ==> forall leaf :: Safe(leaf) ==> Enabled(s, Lock(c, leaf)))
            && (t.Probing? ==> Enabled(s, Probe(c))) && (t.Found? ==> Enabled(s, Reserve(c)))
            && (t.Reserved? ==> Enabled(s, Fail(c)) && forall r :: TEMP + r !in s.dir ==> Enabled(s, Open(c, r)))
            && (t.Writing? ==> Enabled(s, Rename(c)) && Enabled(s, Fail(c)) && forall b :: Enabled(s, Append(c, b)))
            && (t.Failing? ==> Enabled(s, Clean(c))) && (t.Done? ==> Enabled(s, Remove(c)))
            && (s.holder == Some(c) <==> t.Probing? || t.Found?)
  {
    RunsKeep(states, steps, i);
    assert SaveSound(states[i], c);
    HolderProbes(states, steps, i);
  }

  /** The holder of the mutex is looking for a name, or has just found one. */
  ghost predicate HolderOk(s: State) {
    s.holder.Some? ==> s.StageOf(s.holder.value).Probing? || s.StageOf(s.holder.value).Found?
  }

  lemma {:induction false} HolderProbes(states: seq<State>, steps: seq<Step>, i: nat)
    requires Run(states, steps) && i < |states|
    ensures HolderOk(states[i])
  {
    if i > 0 {
      RunsKeep(states, steps, i - 1);
      HolderProbes(states, steps, i - 1);
      HolderStays(states[i - 1], steps[i - 1]);
    }
  }

  lemma HolderStays(s: State, step: Step)
    requires Inv(s) && HolderOk(s) && Enabled(s, step)
    ensures HolderOk(After(s, step))
  {
    assert SaveSound(s, step.c);
  }
}
