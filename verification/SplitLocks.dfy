/** The lock section of an apply taken apart into its calls, as concurrent workers
    interleave them: the tag query, the removal of a stale lock, and AddTags.
    Other commands stay whole. */
module SplitLocks {
  import opened Strings
  import opened TagClient
  import opened Locks
  import LockProtocol

  type Env = LockProtocol.Env

  /** Where a worker is in the lock section of an apply. */
  datatype Worker =
    | Idle
    | Stale(workspace: string, mr: nat, owner: string)  // saw a merged or closed owner
    | Cleared(workspace: string, mr: nat)               // passed the check, tag not added yet

  datatype State = State(tags: map<string, Tags>, workers: map<nat, Worker>)

  datatype Step =
    | Query(w: nat, workspace: string, mr: nat, env: Env)
    | Clean(w: nat, env: Env)
    | Add(w: nat, env: Env)
    | Drop(w: nat)
    | Command(step: LockProtocol.Step)

  function WorkerOf(s: State, w: nat): Worker {
    if w in s.workers then s.workers[w] else Idle
  }

  function WithWorker(s: State, w: nat, pc: Worker): State {
    s.(workers := s.workers[w := pc])
  }

  function WithTags(s: State, workspace: string, tags: Tags): State {
    s.(tags := s.tags[workspace := tags])
  }

  /** What the check makes of the answers to the tag query. */
  function Checked(tags: Tags, workspace: string, mr: nat, env: Env): Worker {
    var owner := LockProtocol.CheckedOwner(tags, mr, env);
    if env.wsLocked then Idle
    else if owner == "" then Cleared(workspace, mr)
    else if LockProtocol.SawStale(owner, env) then Stale(workspace, mr, owner)
    else Idle
  }

  predicate IsApply(step: LockProtocol.Step) {
    step.Trigger? && step.action == LockProtocol.Apply
  }

  /** A step taken where it is not possible changes nothing; applies are not whole
      commands here. */
  function Take(s: State, step: Step): State {
    match step
    case Query(w, workspace, mr, env) =>
      if WorkerOf(s, w).Idle? then WithWorker(s, w, Checked(Listed(s.tags, workspace), workspace, mr, env)) else s
    case Clean(w, env) =>
      (match WorkerOf(s, w)
       case Stale(workspace, mr, owner) =>
         var tags, query := Listed(s.tags, workspace), LOCK_STEM + owner;
         var ok := QueryRemovalOk(tags, query, env.cleanListed, env.clean);
         WithWorker(WithTags(s, workspace, QueryRemoved(tags, query, env.cleanListed, env.clean)), w,
                    if ok then Cleared(workspace, mr) else Idle)
       case _ => s)
    case Add(w, env) =>
      (match WorkerOf(s, w)
       case Cleared(workspace, mr) =>
         WithWorker(if env.add.Failed? then s
                    else WithTags(s, workspace, WithTag(Listed(s.tags, workspace), LockTag(mr))),
                    w, Idle)
       case _ => s)
    case Drop(w) => WithWorker(s, w, Idle)
    case Command(command) => if IsApply(command) then s else s.(tags := LockProtocol.Take(s.tags, command))
  }

  function Run(s: State, steps: seq<Step>): State
    decreases |steps|
  {
    if steps == [] then s else Run(Take(s, steps[0]), steps[1..])
  }

  /** The step adds a lock tag while another merge request holds the lock. */
  ghost predicate Clashes(s: State, step: Step, workspace: string) {
    && step.Add? && !step.env.add.Failed?
    && WorkerOf(s, step.w).Cleared? && WorkerOf(s, step.w).workspace == workspace
    && !Unlocked(Listed(s.tags, workspace)) && !HeldBy(Listed(s.tags, workspace), WorkerOf(s, step.w).mr)
  }

  ghost predicate SomeClash(s: State, steps: seq<Step>, workspace: string)
    decreases |steps|
  {
    steps != [] && (Clashes(s, steps[0], workspace) || SomeClash(Take(s, steps[0]), steps[1..], workspace))
  }

  /** In every state of the run the workspace has at most one lock. */
  ghost predicate AlwaysOneLock(s: State, steps: seq<Step>, workspace: string)
    decreases |steps|
  {
    OneLock(Listed(s.tags, workspace)) && (steps == [] || AlwaysOneLock(Take(s, steps[0]), steps[1..], workspace))
  }

  lemma CommandKeepsOneLock(tags: map<string, Tags>, command: LockProtocol.Step, workspace: string)
    requires OneLock(Listed(tags, workspace)) && !IsApply(command)
    ensures OneLock(Listed(LockProtocol.Take(tags, command), workspace))
  {
    LockProtocol.TakeKeepsOneLockIff(tags, command, workspace);
  }

  lemma TakeKeepsOneLockIff(s: State, step: Step, workspace: string)
    requires OneLock(Listed(s.tags, workspace))
    ensures OneLock(Listed(Take(s, step).tags, workspace)) <==> !Clashes(s, step, workspace)
  {
    match step
    case Clean(w, env) =>
      LockProtocol.FewerTagsKeepOneLock(Listed(s.tags, workspace), Listed(Take(s, step).tags, workspace));
    case Add(w, env) =>
      if WorkerOf(s, w).Cleared? {
        LockProtocol.AddKeepsOneLockIff(Listed(s.tags, workspace), WorkerOf(s, w).mr);
      }
    case Command(command) =>
      if !IsApply(command) {
        CommandKeepsOneLock(s.tags, command, workspace);
      }
    case _ =>
  }

  /** Over every interleaving, a workspace has at most one lock in every state
      exactly if whenever a worker's AddTags lands there, the workspace is unlocked
      or the worker's own merge request holds it by then. */
  lemma {:induction false} AtMostOneLockIff(s: State, steps: seq<Step>, workspace: string)
    requires OneLock(Listed(s.tags, workspace))
    ensures AlwaysOneLock(s, steps, workspace) <==> !SomeClash(s, steps, workspace)
    decreases |steps|
  {
    if steps != [] {
      var next := Take(s, steps[0]);
      TakeKeepsOneLockIff(s, steps[0], workspace);
      if OneLock(Listed(next.tags, workspace)) {
        AtMostOneLockIff(next, steps[1..], workspace);
      }
    }
  }

  // ------------------------------------------------------------ causes of a clash

  /** A worker's AddTags lands on the workspace. */
  predicate AddsTo(s: State, step: Step, workspace: string) {
    step.Add? && !step.env.add.Failed? && WorkerOf(s, step.w).Cleared? && WorkerOf(s, step.w).workspace == workspace
  }

  /** What the worker learned from its check still covers every lock there is: after
      the check all locks are its own, and before a stale lock is removed the removal
      covers them all. */
  ghost predicate Covered(s: State, w: nat, workspace: string) {
    match WorkerOf(s, w)
    case Idle => true
    case Stale(x, mr, owner) =>
      x == workspace ==>
        forall t :: t in Listed(s.tags, workspace) && IsLock(t) ==> Includes(t, LOCK_STEM + owner)
    case Cleared(x, mr) =>
      x == workspace ==> forall t :: t in Listed(s.tags, workspace) && IsLock(t) ==> t == LockTag(mr)
  }

  lemma CoveredMeansNoClash(s: State, step: Step, workspace: string)
    requires step.Add? ==> Covered(s, step.w, workspace)
    ensures !Clashes(s, step, workspace)
  {
  }

  lemma QueryCovers(s: State, w: nat, at: string, mr: nat, env: Env, workspace: string)
    requires OneLock(Listed(s.tags, workspace)) && WorkerOf(s, w).Idle? && (at == workspace ==> env.listed)
    ensures Covered(Take(s, Query(w, at, mr, env)), w, workspace)
  {
    var tags := Listed(s.tags, workspace);
    if at == workspace {
      HeldOrUnlocked(tags);
      if a: nat :| HeldBy(tags, a) {
        OwnerCovers(tags, a, mr, env);
      }
    }
  }

  /** Under one lock, held by a, the check answers nobody or a, and a's query covers it. */
  lemma OwnerCovers(tags: Tags, a: nat, mr: nat, env: Env)
    requires OneLock(tags) && HeldBy(tags, a) && env.listed
    ensures LockProtocol.CheckedOwner(tags, mr, env) == if a == mr then "" else Decimal(a)
    ensures forall t :: t in tags && IsLock(t) ==> t == LockTag(a) && Includes(t, LOCK_STEM + Decimal(a))
    ensures Decimal(a) != ""
  {
    CheckSeesOwner(tags, a, mr);
    LockTagIncludesPrefix(a);
    assert OccursAt(LockTag(a), LOCK_STEM + Decimal(a), 0);
    assert IsLock(LockTag(a));
  }

  /** Only AddTags brings a lock to a workspace. */
  lemma LocksShrink(s: State, step: Step, workspace: string)
    requires !AddsTo(s, step, workspace)
    ensures forall t :: t in Listed(Take(s, step).tags, workspace) && IsLock(t) ==> t in Listed(s.tags, workspace)
  {
    if step.Command? && !IsApply(step.step) {
      CommandShrinks(s.tags, step.step, workspace);
    }
  }

  lemma CommandShrinks(tags: map<string, Tags>, command: LockProtocol.Step, workspace: string)
    requires !IsApply(command)
    ensures forall t :: t in Listed(LockProtocol.Take(tags, command), workspace) && IsLock(t) ==>
            t in Listed(tags, workspace)
  {
    match command
    case Trigger(at, action, mr, env) => LockProtocol.OtherTagsAreNoLocks(mr);
    case Cleanup(mr, items) => LockProtocol.CleanupFrame(tags, LockTag(mr), items, workspace);
  }

  /** A removal that succeeds leaves none of the locks it covers. */
  lemma CleanClears(tags: Tags, query: string, env: Env)
    requires forall t :: t in tags && IsLock(t) ==> Includes(t, query)
    requires QueryRemovalOk(tags, query, env.cleanListed, env.clean)
    ensures Unlocked(QueryRemoved(tags, query, env.cleanListed, env.clean))
  {
    forall t | t in QueryRemoved(tags, query, env.cleanListed, env.clean)
      ensures !IsLock(t)
    {
      assert t in tags && Includes(t, query) ==> t in Matching(tags, query);
    }
  }

  lemma StepKeepsCovered(s: State, step: Step, w: nat, workspace: string)
    requires Covered(s, w, workspace) && !(step.Query? && step.w == w)
    requires AddsTo(s, step, workspace) ==> step.w == w
    ensures Covered(Take(s, step), w, workspace)
  {
    if step.Clean? && step.w == w {
      CleanKeepsCovered(s, w, step.env, workspace);
    } else if !(step.Add? && step.w == w) {
      LocksShrink(s, step, workspace);
      OthersKeepWorker(s, step, w);
    }
  }

  lemma CleanKeepsCovered(s: State, w: nat, env: Env, workspace: string)
    requires Covered(s, w, workspace)
    ensures Covered(Take(s, Clean(w, env)), w, workspace)
  {
    var pc := WorkerOf(s, w);
    if pc.Stale? && pc.workspace == workspace {
      var tags, query := Listed(s.tags, workspace), LOCK_STEM + pc.owner;
      if QueryRemovalOk(tags, query, env.cleanListed, env.clean) {
        CleanClears(tags, query, env);
      }
    }
  }

  lemma OthersKeepWorker(s: State, step: Step, w: nat)
    requires !(step.Query? && step.w == w) && !(step.Clean? && step.w == w) && !(step.Add? && step.w == w)
    ensures WorkerOf(Take(s, step), w) == WorkerOf(s, w) || WorkerOf(Take(s, step), w).Idle?
  {
  }

  /** In the run some other worker's AddTags lands on the workspace. */
  ghost predicate SomeOtherAdd(s: State, steps: seq<Step>, w: nat, workspace: string)
    decreases |steps|
  {
    steps != [] && ((AddsTo(s, steps[0], workspace) && steps[0].w != w)
                    || SomeOtherAdd(Take(s, steps[0]), steps[1..], w, workspace))
  }

  predicate NoQueryBy(steps: seq<Step>, w: nat) {
    forall i :: 0 <= i < |steps| ==> !(steps[i].Query? && steps[i].w == w)
  }

  lemma {:induction false} RunKeepsCovered(s: State, steps: seq<Step>, w: nat, workspace: string)
    requires Covered(s, w, workspace) && NoQueryBy(steps, w) && !SomeOtherAdd(s, steps, w, workspace)
    ensures Covered(Run(s, steps), w, workspace)
    decreases |steps|
  {
    if steps != [] {
      StepKeepsCovered(s, steps[0], w, workspace);
      RunKeepsCovered(Take(s, steps[0]), steps[1..], w, workspace);
    }
  }

  /** A clash has one of two causes: the worker's own tag query failed, or another
      worker's AddTags landed on the workspace between that query and its AddTags. */
  lemma ClashHasCause(s: State, w: nat, at: string, mr: nat, env: Env, between: seq<Step>, add: Step, workspace: string)
    requires OneLock(Listed(s.tags, workspace)) && WorkerOf(s, w).Idle? && NoQueryBy(between, w)
    requires add.Add? && add.w == w && Clashes(Run(Take(s, Query(w, at, mr, env)), between), add, workspace)
    ensures (at == workspace && !env.listed) || SomeOtherAdd(Take(s, Query(w, at, mr, env)), between, w, workspace)
  {
    var s1 := Take(s, Query(w, at, mr, env));
    if !(at == workspace && !env.listed) {
      QueryCovers(s, w, at, mr, env, workspace);
      if !SomeOtherAdd(s1, between, w, workspace) {
        RunKeepsCovered(s1, between, w, workspace);
        CoveredMeansNoClash(Run(s1, between), add, workspace);
      }
    }
  }

  /** The worker is in the middle of its section on the workspace. */
  predicate InSection(s: State, w: nat, workspace: string) {
    var pc := WorkerOf(s, w);
    !pc.Idle? && pc.workspace == workspace
  }

  /** The step breaks the discipline: a tag query fails, or a worker's AddTags lands
      while another worker is in the middle of its section on the workspace. */
  ghost predicate Undisciplined(s: State, step: Step, workspace: string) {
    (step.Query? && step.workspace == workspace && !step.env.listed)
    || (AddsTo(s, step, workspace) && exists v: nat :: v != step.w && InSection(s, v, workspace))
  }

  ghost predicate Disciplined(s: State, steps: seq<Step>, workspace: string)
    decreases |steps|
  {
    steps == [] || (!Undisciplined(s, steps[0], workspace) && Disciplined(Take(s, steps[0]), steps[1..], workspace))
  }

  ghost predicate AllCovered(s: State, workspace: string) {
    OneLock(Listed(s.tags, workspace)) && forall w: nat :: Covered(s, w, workspace)
  }

  lemma StepKeepsAllCovered(s: State, step: Step, workspace: string)
    requires AllCovered(s, workspace) && !Undisciplined(s, step, workspace)
    ensures AllCovered(Take(s, step), workspace)
  {
    if step.Add? {
      assert Covered(s, step.w, workspace);
    }
    CoveredMeansNoClash(s, step, workspace);
    TakeKeepsOneLockIff(s, step, workspace);
    forall w: nat
      ensures Covered(Take(s, step), w, workspace)
    {
      assert Covered(s, w, workspace);
      StepKeepsOneCovered(s, step, w, workspace);
    }
  }

  lemma StepKeepsOneCovered(s: State, step: Step, w: nat, workspace: string)
    requires OneLock(Listed(s.tags, workspace)) && Covered(s, w, workspace) && !Undisciplined(s, step, workspace)
    ensures Covered(Take(s, step), w, workspace)
  {
    if step.Query? && step.w == w {
      if WorkerOf(s, w).Idle? {
        QueryCovers(s, w, step.workspace, step.mr, step.env, workspace);
      }
    } else if AddsTo(s, step, workspace) && step.w != w {
      assert !InSection(s, w, workspace);
    } else {
      StepKeepsCovered(s, step, w, workspace);
    }
  }

  /** So sections that do not overlap and whose queries succeed keep at most one lock in
      every state, whatever else is interleaved and fails. */
  lemma {:induction false} DisciplinedKeepsOneLock(s: State, steps: seq<Step>, workspace: string)
    requires AllCovered(s, workspace) && Disciplined(s, steps, workspace)
    ensures AlwaysOneLock(s, steps, workspace)
    decreases |steps|
  {
    if steps != [] {
      StepKeepsAllCovered(s, steps[0], workspace);
      DisciplinedKeepsOneLock(Take(s, steps[0]), steps[1..], workspace);
    }
  }

  /** With all workers idle there is nothing to cover. */
  lemma IdleIsCovered(s: State, workspace: string)
    requires OneLock(Listed(s.tags, workspace)) && forall w: nat :: WorkerOf(s, w).Idle?
    ensures AllCovered(s, workspace)
  {
    forall w: nat
      ensures Covered(s, w, workspace)
    {
      assert WorkerOf(s, w).Idle?;
    }
  }

  // ------------------------------------------------------- the section as one step

  /** The lock section of one apply, undisturbed. */
  function Section(w: nat, workspace: string, mr: nat, env: Env): seq<Step> {
    [Query(w, workspace, mr, env), Clean(w, env), Add(w, env)]
  }

  lemma RunThree(s: State, a: Step, b: Step, c: Step)
    ensures Run(s, [a, b, c]) == Take(Take(Take(s, a), b), c)
  {
    var s2 := Take(Take(s, a), b);
    assert [a, b, c][1..] == [b, c] && [b, c][1..] == [c];
    assert Run(s2, [c]) == Run(Take(s2, c), []);
  }

  /** Undisturbed, the section does to the tags what the atomic apply does. */
  lemma SectionIsAtomicApply(s: State, w: nat, workspace: string, mr: nat, env: Env, other: string)
    requires WorkerOf(s, w).Idle?
    ensures var s' := Run(s, Section(w, workspace, mr, env));
            && WorkerOf(s', w).Idle?
            && Listed(s'.tags, workspace) == LockProtocol.AcquiredTags(Listed(s.tags, workspace), mr, env)
            && (other != workspace ==> Listed(s'.tags, other) == Listed(s.tags, other))
  {
    RunThree(s, Query(w, workspace, mr, env), Clean(w, env), Add(w, env));
    var s1 := Take(s, Query(w, workspace, mr, env));
    var s2 := Take(s1, Clean(w, env));
    CleanedSection(s1, w, workspace, mr, env, other);
    assert WorkerOf(s1, w) == Checked(Listed(s.tags, workspace), workspace, mr, env);
  }

  lemma CleanedSection(s: State, w: nat, workspace: string, mr: nat, env: Env, other: string)
    requires WorkerOf(s, w) == Checked(Listed(s.tags, workspace), workspace, mr, env)
    ensures var s', tags := Take(s, Clean(w, env)), Listed(s.tags, workspace);
            && WorkerOf(s', w) == (if LockProtocol.CheckPasses(tags, mr, env) then Cleared(workspace, mr) else Idle)
            && Listed(s'.tags, workspace) == LockProtocol.CheckedTags(tags, mr, env)
            && (other != workspace ==> Listed(s'.tags, other) == Listed(s.tags, other))
  {
  }

  // ------------------------------------------------------------------- the witness

  const CALM := LockProtocol.Env(true, false, false, true, true, Seen, true, None, true, Seen, Seen, true, true, true)

  /** Two workers on a fresh workspace: both query before either adds its tag. */
  function Overlap(workspace: string, a: nat, b: nat): seq<Step> {
    [Query(0, workspace, a, CALM), Query(1, workspace, b, CALM), Add(0, CALM), Add(1, CALM)]
  }

  lemma RunFour(s: State, a: Step, b: Step, c: Step, d: Step)
    ensures Run(s, [a, b, c, d]) == Take(Take(Take(Take(s, a), b), c), d)
  {
    assert [a, b, c, d][1..] == [b, c, d];
    RunThree(Take(s, a), b, c, d);
  }

  /** Nothing in the code keeps the section together: every two merge requests can
      both pass the check and both lock. */
  lemma OverlapAdmitsTwoOwners(workspace: string, a: nat, b: nat)
    requires a != b
    ensures var s := State(map[], map[]);
            var tags := Listed(Run(s, Overlap(workspace, a, b)).tags, workspace);
            OneLock(Listed(s.tags, workspace)) && HeldBy(tags, a) && HeldBy(tags, b) && !OneLock(tags)
  {
    var s := State(map[], map[]);
    RunFour(s, Query(0, workspace, a, CALM), Query(1, workspace, b, CALM), Add(0, CALM), Add(1, CALM));
    CheckSeesNobody([], a);
    CheckSeesNobody([], b);
    assert Take(s, Query(0, workspace, a, CALM)) == State(map[], map[0 := Cleared(workspace, a)]);
    var s2 := State(map[], map[0 := Cleared(workspace, a), 1 := Cleared(workspace, b)]);
    assert Take(State(map[], map[0 := Cleared(workspace, a)]), Query(1, workspace, b, CALM)) == s2;
    var tags := Listed(Take(Take(s2, Add(0, CALM)), Add(1, CALM)).tags, workspace);
    LockProtocol.TwoOwners(tags, a, b);
  }
}
