/** When a polling task can be lost: claimed in the bucket, with nobody left to
    poll it. The dispatcher skips claimed tasks, so such a task stays lost. */
module PollingOrphans {
  import opened KeyValue
  import opened PollingProtocol

  ghost predicate HasCarrier(s: State, revision: nat) {
    exists c, t :: Carries(s, c, t) && t.revision == revision
  }

  /** The key holds a claimed task. */
  ghost predicate InProcess(kv: Bucket, key: string) {
    Live(kv, key) && Stored(kv, key).processing
  }

  ghost predicate Orphan(s: State, key: string) {
    InProcess(s.kv, key) && !HasCarrier(s, LastRev(s.kv, key))
  }

  ghost predicate NoOrphans(s: State) {
    forall key :: !Orphan(s, key)
  }

  ghost predicate Current(kv: Bucket, t: Task) {
    t.revision == LastRev(kv, t.runId)
  }

  ghost predicate Holds(s: State, w: nat, revision: nat) {
    !WorkerOf(s, w).Waiting? && WorkerOf(s, w).task.revision == revision
  }

  /** The steps that drop the only carrier of a current claim: a claim whose
      reply is lost, a claim dropped before it is published, and the
      acknowledgement of a message whose claim nobody has replaced. */
  predicate Lossy(s: State, step: Step) {
    match step
    case ClaimUnseen(d, now) =>
      var pc := DispatcherOf(s, d);
      pc.Read? && Ready(pc.task, now) && LastRev(s.kv, pc.task.runId) == pc.task.revision
    case DropDispatcher(d) =>
      var pc := DispatcherOf(s, d);
      pc.Holding? && pc.task.revision == LastRev(s.kv, pc.task.runId)
    case Acknowledge(w) =>
      var pc := WorkerOf(s, w);
      pc.Finished? && pc.msg in s.queue && pc.task.revision == LastRev(s.kv, pc.task.runId)
    case _ => false
  }

  /** Calls that fail where the code does not recover. */
  predicate Fault(step: Step) {
    step.ClaimUnseen? || step.DropDispatcher? || step.FinishError?
  }

  /** The key whose claim the step deals with. */
  function KeyOf(s: State, step: Step): string {
    match step
    case Claim(d, now) => RunOf(DispatcherOf(s, d))
    case ClaimUnseen(d, now) => RunOf(DispatcherOf(s, d))
    case DropDispatcher(d) => RunOf(DispatcherOf(s, d))
    case Acknowledge(w) => if WorkerOf(s, w).Waiting? then "" else WorkerOf(s, w).task.runId
    case _ => ""
  }

  function RunOf(pc: Dispatcher): string {
    if pc.Read? || pc.Holding? then pc.task.runId else ""
  }

  // -------------------------------------------------------- what a step keeps

  /** A claim of the key in s' is the one it had in s. */
  ghost predicate SameClaim(kv: Bucket, kv': Bucket, key: string) {
    InProcess(kv', key) ==> InProcess(kv, key) && LastRev(kv', key) == LastRev(kv, key)
  }

  ghost predicate CarriersKept(s: State, s': State) {
    forall c, t :: Carries(s, c, t) ==> HasCarrier(s', t.revision)
  }

  ghost predicate CopiesKept(s: State, s': State) {
    forall w: nat, r: nat :: Holds(s, w, r) ==> Holds(s', w, r)
  }

  /** The compare-and-swap of a claim lands on the key. */
  predicate ClaimsKey(s: State, step: Step, key: string) {
    (step.Claim? || step.ClaimUnseen?) && Lossy(s, ClaimUnseen(step.d, step.now)) && KeyOf(s, step) == key
  }

  lemma WriteKeepsClaim(kv: Bucket, w: Write, key: string)
    requires w.key != key || w.Delete? || !w.task.processing
    ensures SameClaim(kv, kv + [w], key)
  {
    LastRevAppend(kv, w, key);
  }

  lemma StepKeepsClaim(s: State, step: Step, key: string)
    requires !ClaimsKey(s, step, key)
    ensures SameClaim(s.kv, Apply(s, step).kv, key)
  {
    match step
    case Schedule(runId, delay, now) => WriteKeepsClaim(s.kv, Put(runId, NewTask(runId, delay, now), Scheduled), key);
    case Dump(d) =>
      if DispatcherOf(s, d).Dumping? { WriteKeepsClaim(s.kv, Delete(DispatcherOf(s, d).key, Dumped), key); }
    case Claim(d, now) => ClaimKeepsClaim(s, d, now, true, key);
    case ClaimUnseen(d, now) => ClaimKeepsClaim(s, d, now, false, key);
    case Finish(w, now) =>
      var pc := WorkerOf(s, w);
      if pc.Emitted? { WriteKeepsClaim(s.kv, FinishWrite(pc.task, pc.status, now), key); }
    case _ =>
  }

  lemma ClaimKeepsClaim(s: State, d: nat, now: int, seen: bool, key: string)
    requires !ClaimsKey(s, ClaimUnseen(d, now), key)
    ensures SameClaim(s.kv, ApplyClaim(s, d, now, seen).kv, key)
  {
    if Lossy(s, ClaimUnseen(d, now)) {
      var task := DispatcherOf(s, d).task;
      WriteKeepsClaim(s.kv, Put(task.runId, ClaimedTask(task, now), Claimed), key);
    }
  }

  lemma SameCarriers(s: State, s': State)
    requires forall m :: m in s.queue ==> m in s'.queue && s'.queue[m] == s.queue[m]
    requires forall d: nat :: DispatcherOf(s, d).Holding? ==> DispatcherOf(s', d) == DispatcherOf(s, d)
    ensures CarriersKept(s, s')
  {
    forall c, t | Carries(s, c, t)
      ensures HasCarrier(s', t.revision)
    {
      assert Carries(s', c, t);
    }
  }

  lemma PublishKeepsCarriers(s: State, d: nat)
    requires TokensOk(s)
    ensures CarriersKept(s, Apply(s, Publish(d)))
  {
    var s' := Apply(s, Publish(d));
    forall c, t | Carries(s, c, t)
      ensures HasCarrier(s', t.revision)
    {
      if c == ByDispatcher(d) {
        assert Carries(s', ByMessage(s.nextMsg), t);
      } else {
        assert Carries(s', c, t);
      }
    }
  }

  /** Only a dispatcher that gives up and an acknowledgement remove a carrier. */
  lemma StepKeepsCarriers(s: State, step: Step)
    requires TokensOk(s) && !step.DropDispatcher? && !step.Acknowledge?
    ensures CarriersKept(s, Apply(s, step))
  {
    if step.Publish? {
      PublishKeepsCarriers(s, step.d);
    } else {
      if step.Claim? || step.ClaimUnseen? || step.Fetch? || step.FetchCorrupt? || step.Dump? {
        DispatchersKeepHolding(s, step);
      } else {
        WorkersKeepQueue(s, step);
      }
      SameCarriers(s, Apply(s, step));
    }
  }

  lemma DispatchersKeepHolding(s: State, step: Step)
    requires step.Claim? || step.ClaimUnseen? || step.Fetch? || step.FetchCorrupt? || step.Dump?
    ensures Apply(s, step).queue == s.queue
    ensures forall d: nat :: DispatcherOf(s, d).Holding? ==> DispatcherOf(Apply(s, step), d) == DispatcherOf(s, d)
  {
  }

  lemma WorkersKeepQueue(s: State, step: Step)
    requires step.Schedule? || step.Deliver? || step.Observe? || step.Emit? || step.EmitUnseen? || step.Finish?
          || step.FinishError? || step.DropWorker?
    ensures Apply(s, step).queue == s.queue && Apply(s, step).dispatchers == s.dispatchers
  {
  }

  /** Only a worker that gives up, or is done, lets go of its copy. */
  lemma StepKeepsCopies(s: State, step: Step)
    requires !step.DropWorker? && !step.EmitUnseen? && !step.Acknowledge?
    ensures CopiesKept(s, Apply(s, step))
  {
  }

  // ---------------------------------------------------------------- orphans

  lemma CarriedStaysCarried(s: State, s': State, key: string)
    requires !Orphan(s, key) && SameClaim(s.kv, s'.kv, key) && CarriersKept(s, s')
    ensures !Orphan(s', key)
  {
    if InProcess(s'.kv, key) {
      var c, t := CarrierOf(s, key);
      assert HasCarrier(s', t.revision);
    }
  }

  lemma CarrierOf(s: State, key: string) returns (c: Carrier, t: Task)
    requires !Orphan(s, key) && InProcess(s.kv, key)
    ensures Carries(s, c, t) && t.revision == LastRev(s.kv, key)
  {
    c, t :| Carries(s, c, t) && t.revision == LastRev(s.kv, key);
  }

  /** After a claim the only carrier of the new revision is the dispatcher that made
      it, if the reply reached it. */
  lemma ClaimOrphansIff(s: State, d: nat, now: int, seen: bool)
    requires TokensOk(s) && Lossy(s, ClaimUnseen(d, now))
    ensures Orphan(ApplyClaim(s, d, now, seen), DispatcherOf(s, d).task.runId) <==> !seen
  {
    var s', task := ApplyClaim(s, d, now, seen), DispatcherOf(s, d).task;
    LastRevAppend(s.kv, Put(task.runId, ClaimedTask(task, now), Claimed), task.runId);
    if seen {
      assert Carries(s', ByDispatcher(d), DispatcherOf(s', d).task);
    } else {
      forall c, t | Carries(s', c, t)
        ensures t.revision <= |s.kv|
      {
        assert Carries(s, c, t);
        TokenBelow(s, c, t);
      }
    }
  }

  /** s' is s without the carrier gone. */
  ghost predicate Removed(s: State, s': State, gone: Carrier) {
    s'.kv == s.kv && forall c, u :: Carries(s', c, u) <==> Carries(s, c, u) && c != gone
  }

  /** Removing a carrier orphans its key exactly when its claim is current, and no
      other key ever. */
  lemma RemovalOrphansIff(s: State, s': State, gone: Carrier, t: Task, key: string)
    requires Inv(s) && !Orphan(s, key) && Carries(s, gone, t) && Removed(s, s', gone)
    ensures Orphan(s', key) <==> t.runId == key && Current(s.kv, t)
  {
    TokenBelow(s, gone, t);
    if t.runId == key && Current(s.kv, t) {
      CurrentRemovalOrphans(s, s', gone, t);
    } else if InProcess(s.kv, key) {
      var c, u := CarrierOf(s, key);
      TokenBelow(s, c, u);
      assert Carries(s', c, u);
    }
  }

  lemma CurrentRemovalOrphans(s: State, s': State, gone: Carrier, t: Task)
    requires Inv(s) && Carries(s, gone, t) && Removed(s, s', gone) && Current(s.kv, t)
    ensures Orphan(s', t.runId)
  {
    TokenBelow(s, gone, t);
    ClaimedIffProcessing(s.kv, t.revision - 1);
    forall c, u | Carries(s', c, u)
      ensures u.revision != t.revision
    {
      assert Carries(s, c, u);
      assert !SameRevision(s, c, gone);
    }
  }

  lemma DropRemoves(s: State, d: nat)
    requires DispatcherOf(s, d).Holding?
    ensures Removed(s, Apply(s, DropDispatcher(d)), ByDispatcher(d))
    ensures Carries(s, ByDispatcher(d), DispatcherOf(s, d).task)
  {
  }

  lemma DropOrphansIff(s: State, d: nat, key: string)
    requires Inv(s) && !Orphan(s, key)
    ensures Orphan(Apply(s, DropDispatcher(d)), key) <==> LossyFor(s, DropDispatcher(d), key)
  {
    var s' := Apply(s, DropDispatcher(d));
    if DispatcherOf(s, d).Holding? {
      DropRemoves(s, d);
      RemovalOrphansIff(s, s', ByDispatcher(d), DispatcherOf(s, d).task, key);
    } else {
      SameCarriers(s, s');
      CarriedStaysCarried(s, s', key);
    }
  }

  lemma AcknowledgeRemoves(s: State, w: nat)
    requires TokensOk(s) && WorkerOf(s, w).Finished? && WorkerOf(s, w).msg in s.queue
    ensures Removed(s, Apply(s, Acknowledge(w)), ByMessage(WorkerOf(s, w).msg))
    ensures Carries(s, ByMessage(WorkerOf(s, w).msg), WorkerOf(s, w).task)
  {
    assert WorkerOk(s, WorkerOf(s, w));
  }

  lemma AcknowledgeOrphansIff(s: State, w: nat, key: string)
    requires Inv(s) && !Orphan(s, key)
    ensures Orphan(Apply(s, Acknowledge(w)), key) <==> LossyFor(s, Acknowledge(w), key)
  {
    var pc, s' := WorkerOf(s, w), Apply(s, Acknowledge(w));
    if pc.Finished? && pc.msg in s.queue {
      AcknowledgeRemoves(s, w);
      RemovalOrphansIff(s, s', ByMessage(pc.msg), pc.task, key);
    } else {
      assert s'.queue == s.queue;
      SameCarriers(s, s');
      CarriedStaysCarried(s, s', key);
    }
  }

  /** The step is lossy, and the claim it concerns is the key's. */
  predicate LossyFor(s: State, step: Step, key: string) {
    Lossy(s, step) && KeyOf(s, step) == key
  }

  /** A step orphans a key that was not orphaned exactly if it is lossy for it,
      whatever has become of other keys. */
  lemma OrphanedExactlyByLossySteps(s: State, step: Step, key: string)
    requires Inv(s) && !Orphan(s, key)
    ensures Orphan(Apply(s, step), key) <==> LossyFor(s, step, key)
  {
    if step.DropDispatcher? {
      DropOrphansIff(s, step.d, key);
    } else if step.Acknowledge? {
      AcknowledgeOrphansIff(s, step.w, key);
    } else if ClaimsKey(s, step, key) {
      ClaimOrphansIff(s, step.d, step.now, step.Claim?);
    } else {
      StepKeepsClaim(s, step, key);
      StepKeepsCarriers(s, step);
      CarriedStaysCarried(s, Apply(s, step), key);
    }
  }

  /** In every state of the run the key is carried or not claimed. */
  ghost predicate NeverOrphan(s: State, steps: seq<Step>, key: string)
    decreases |steps|
  {
    !Orphan(s, key) && (steps == [] || NeverOrphan(Apply(s, steps[0]), steps[1..], key))
  }

  predicate SomeLossyFor(s: State, steps: seq<Step>, key: string)
    decreases |steps|
  {
    steps != [] && (LossyFor(s, steps[0], key) || SomeLossyFor(Apply(s, steps[0]), steps[1..], key))
  }

  /** Over any run, from any state in which the key is not orphaned, it is not in any
      state exactly if no step is lossy for it. */
  lemma {:induction false} NeverOrphanIff(s: State, steps: seq<Step>, key: string)
    requires Inv(s) && !Orphan(s, key)
    ensures NeverOrphan(s, steps, key) <==> !SomeLossyFor(s, steps, key)
    decreases |steps|
  {
    if steps != [] {
      var next := Apply(s, steps[0]);
      StepKeepsInv(s, steps[0]);
      OrphanedExactlyByLossySteps(s, steps[0], key);
      if !Orphan(next, key) {
        NeverOrphanIff(next, steps[1..], key);
      }
    }
  }

  // ------------------------------------------------------- runs without fault

  /** Workers that are done hold only tokens that were replaced. */
  ghost predicate SpentTokens(s: State) {
    forall w: nat :: WorkerOf(s, w).Finished? ==> !Current(s.kv, WorkerOf(s, w).task)
  }

  lemma SpentStays(kv: Bucket, kv': Bucket, t: Task)
    requires Token(kv, t) && !Current(kv, t) && (kv' == kv || (|kv'| == |kv| + 1 && kv' == kv + [kv'[|kv|]]))
    ensures !Current(kv', t)
  {
    if kv' != kv {
      LastRevAppend(kv, kv'[|kv|], t.runId);
    }
  }

  lemma FinishSpends(kv: Bucket, t: Task, status: string, now: int)
    requires Token(kv, t)
    ensures !Current(FinishBucket(kv, t, status, now), t)
  {
    LastRevAppend(kv, FinishWrite(t, status, now), t.runId);
  }

  lemma StepGrowsBucket(s: State, step: Step)
    ensures var kv' := Apply(s, step).kv;
            kv' == s.kv || (|kv'| == |s.kv| + 1 && kv' == s.kv + [kv'[|s.kv|]])
  {
  }

  lemma StepKeepsSpent(s: State, step: Step)
    requires Inv(s) && SpentTokens(s) && !step.FinishError?
    ensures SpentTokens(Apply(s, step))
  {
    StepGrowsBucket(s, step);
    forall w: nat | WorkerOf(Apply(s, step), w).Finished?
      ensures !Current(Apply(s, step).kv, WorkerOf(Apply(s, step), w).task)
    {
      assert WorkerOk(s, WorkerOf(s, w));
      FinishedBefore(s, step, w);
      if step.Finish? && step.w == w && WorkerOf(s, w).Emitted? {
        FinishSpends(s.kv, WorkerOf(s, w).task, WorkerOf(s, w).status, step.now);
      } else {
        SpentStays(s.kv, Apply(s, step).kv, WorkerOf(s, w).task);
      }
    }
  }

  /** A worker is finished after a step because it was, or because it just
      finished writing. */
  lemma FinishedBefore(s: State, step: Step, w: nat)
    requires WorkerOf(Apply(s, step), w).Finished? && !step.FinishError?
    ensures if step.Finish? && step.w == w && WorkerOf(s, w).Emitted?
            then WorkerOf(Apply(s, step), w).task == WorkerOf(s, w).task
                 && Apply(s, step).kv == FinishBucket(s.kv, WorkerOf(s, w).task, WorkerOf(s, w).status, step.now)
            else WorkerOf(Apply(s, step), w) == WorkerOf(s, w)
  {
  }

  /** Redelivery, lost acknowledgements, worker crashes and failed status reads
      or publishes never lose a task: without the three faults, every claimed
      task in every reachable state has its carrier. */
  lemma {:induction false} FaultFreeRunsLoseNothing(steps: seq<Step>)
    requires forall i :: 0 <= i < |steps| ==> !Fault(steps[i])
    ensures NoOrphans(Exec(Init, steps)) && SpentTokens(Exec(Init, steps))
  {
    if steps != [] {
      var before, last := steps[..|steps| - 1], steps[|steps| - 1];
      FaultFreeRunsLoseNothing(before);
      ReachableInv(before);
      FaultFreeStep(Exec(Init, before), last);
      StepKeepsSpent(Exec(Init, before), last);
    }
  }

  lemma FaultFreeStep(s: State, step: Step)
    requires Inv(s) && NoOrphans(s) && SpentTokens(s) && !Fault(step)
    ensures NoOrphans(Apply(s, step))
  {
    forall key
      ensures !Orphan(Apply(s, step), key)
    {
      OrphanedExactlyByLossySteps(s, step, key);
    }
  }

  /** Exactly one carrier, in the terms of AtMostOneCarrier. */
  lemma ClaimedTaskHasItsCarrier(steps: seq<Step>, key: string) returns (c: Carrier)
    requires forall i :: 0 <= i < |steps| ==> !Fault(steps[i])
    requires InProcess(Exec(Init, steps).kv, key)
    ensures CurrentCarrier(Exec(Init, steps), key, c)
    ensures forall c' :: CurrentCarrier(Exec(Init, steps), key, c') ==> c' == c
  {
    FaultFreeRunsLoseNothing(steps);
    ReachableInv(steps);
    c := CurrentCarrierOf(Exec(Init, steps), key);
    forall c' | CurrentCarrier(Exec(Init, steps), key, c')
      ensures c' == c
    {
      AtMostOneCarrier(steps, key, c, c');
    }
  }

  lemma CurrentCarrierOf(s: State, key: string) returns (c: Carrier)
    requires TokensOk(s) && NoOrphans(s) && InProcess(s.kv, key)
    ensures CurrentCarrier(s, key, c)
  {
    var c0, t := CarrierOf(s, key);
    TokenBelow(s, c0, t);
    assert Carries(s, c0, t) && t.runId == key;
    c := c0;
  }

  // ------------------------------------------------------------ lost for good

  ghost predicate HeldByWorker(s: State, revision: nat) {
    exists w: nat :: Holds(s, w, revision)
  }

  /** An orphan of which no worker has a redelivered copy left either. */
  ghost predicate Lost(s: State, key: string) {
    Orphan(s, key) && !HeldByWorker(s, LastRev(s.kv, key))
  }

  lemma OnlyClaimsAddCarriers(s: State, step: Step, c: Carrier, t: Task)
    requires !(step.Publish? && DispatcherOf(s, step.d).Holding?)
    requires Carries(Apply(s, step), c, t) && !Carries(s, c, t)
    ensures t.revision == |s.kv| + 1
  {
  }

  lemma NewCarriersAreFresh(s: State, step: Step, c: Carrier, t: Task)
    requires TokensOk(s) && Carries(Apply(s, step), c, t)
    ensures HasCarrier(s, t.revision) || t.revision > |s.kv|
  {
    if step.Publish? && DispatcherOf(s, step.d).Holding? {
      PublishMovesCarrier(s, step.d, c, t);
    } else if !Carries(s, c, t) {
      OnlyClaimsAddCarriers(s, step, c, t);
    }
  }

  lemma CopiesComeFromTheQueue(s: State, step: Step, w: nat)
    requires !WorkerOf(Apply(s, step), w).Waiting?
    ensures var r := WorkerOf(Apply(s, step), w).task.revision;
            HeldByWorker(s, r) || HasCarrier(s, r)
  {
    if WorkerOf(s, w).Waiting? && step.Deliver? && step.w == w {
      assert Carries(s, ByMessage(step.msg), s.queue[step.msg]);
    } else {
      assert Holds(s, w, WorkerOf(Apply(s, step), w).task.revision);
    }
  }

  /** A snapshot of a lost key is of the claim itself, which is not ready. */
  lemma LostIsNotReady(s: State, d: nat, key: string)
    requires DispatcherOk(s.kv, DispatcherOf(s, d)) && Lost(s, key)
    requires DispatcherOf(s, d).Read? && DispatcherOf(s, d).task.runId == key
    ensures DispatcherOf(s, d).task.revision == LastRev(s.kv, key) ==> DispatcherOf(s, d).task.processing
  {
  }

  /** Nothing but a delete is written to a lost key. */
  lemma LostIsNotWritten(s: State, step: Step, key: string)
    requires TokensOk(s) && Lost(s, key) && Apply(s, step).kv != s.kv
    ensures |Apply(s, step).kv| == |s.kv| + 1
    ensures Apply(s, step).kv[|s.kv|].key == key ==> Apply(s, step).kv[|s.kv|].Delete?
  {
    match step
    case Claim(d, now) => LostIsNotClaimed(s, d, now, true, key);
    case ClaimUnseen(d, now) => LostIsNotClaimed(s, d, now, false, key);
    case Finish(w, now) => assert Holds(s, w, WorkerOf(s, w).task.revision);
    case _ =>
  }

  lemma LostIsNotClaimed(s: State, d: nat, now: int, seen: bool, key: string)
    requires TokensOk(s) && Lost(s, key) && ApplyClaim(s, d, now, seen).kv != s.kv
    ensures |ApplyClaim(s, d, now, seen).kv| == |s.kv| + 1
    ensures ApplyClaim(s, d, now, seen).kv[|s.kv|].key != key
  {
    assert DispatcherOk(s.kv, DispatcherOf(s, d));
    if DispatcherOf(s, d).task.runId == key {
      LostIsNotReady(s, d, key);
    }
  }

  /** No step finds a lost task again: until its key is deleted, the stored
      claim stays what it is and nobody holds it. */
  lemma LostStaysLost(s: State, step: Step, key: string)
    requires Inv(s) && Lost(s, key)
    ensures var s' := Apply(s, step);
            (Lost(s', key) && LastRev(s'.kv, key) == LastRev(s.kv, key))
            || (|s'.kv| == |s.kv| + 1 && s'.kv[|s.kv|].key == key && s'.kv[|s.kv|].Delete?)
  {
    NobodyFindsLost(s, step, key);
    StepGrowsBucket(s, step);
    if Apply(s, step).kv != s.kv {
      LostIsNotWritten(s, step, key);
    }
    LostPersists(s, Apply(s, step), key);
  }

  lemma LostPersists(s: State, s': State, key: string)
    requires Lost(s, key) && !HasCarrier(s', LastRev(s.kv, key)) && !HeldByWorker(s', LastRev(s.kv, key))
    requires s'.kv == s.kv || (|s'.kv| == |s.kv| + 1 && s'.kv == s.kv + [s'.kv[|s.kv|]])
    requires |s'.kv| > |s.kv| && s'.kv[|s.kv|].key == key ==> s'.kv[|s.kv|].Delete?
    ensures (Lost(s', key) && LastRev(s'.kv, key) == LastRev(s.kv, key))
            || (|s'.kv| == |s.kv| + 1 && s'.kv[|s.kv|].key == key && s'.kv[|s.kv|].Delete?)
  {
    if s'.kv != s.kv {
      LastRevAppend(s.kv, s'.kv[|s.kv|], key);
    }
  }

  lemma NobodyFindsLost(s: State, step: Step, key: string)
    requires Inv(s) && Lost(s, key)
    ensures !HasCarrier(Apply(s, step), LastRev(s.kv, key)) && !HeldByWorker(Apply(s, step), LastRev(s.kv, key))
  {
    var s', r := Apply(s, step), LastRev(s.kv, key);
    if HasCarrier(s', r) {
      var c, t :| Carries(s', c, t) && t.revision == r;
      NewCarriersAreFresh(s, step, c, t);
    }
    if HeldByWorker(s', r) {
      var w: nat :| Holds(s', w, r);
      CopiesComeFromTheQueue(s, step, w);
    }
  }

  ghost predicate DeletedSince(kv: Bucket, kv': Bucket, key: string) {
    exists i: nat :: |kv| <= i < |kv'| && kv'[i].key == key && kv'[i].Delete?
  }

  lemma DeletedStays(kv: Bucket, m: Bucket, kv': Bucket, key: string)
    requires DeletedSince(kv, m, key) && m <= kv'
    ensures DeletedSince(kv, kv', key)
  {
    var i: nat :| |kv| <= i < |m| && m[i].key == key && m[i].Delete?;
    assert kv'[i] == m[i];
  }

  /** From s to s' the key's claim stayed lost, unless somebody deleted it. */
  ghost predicate LostOrDeleted(s: State, s': State, key: string) {
    (Lost(s', key) && LastRev(s'.kv, key) == LastRev(s.kv, key)) || DeletedSince(s.kv, s'.kv, key)
  }

  lemma LostOrDeletedStep(s: State, m: State, step: Step, key: string)
    requires Inv(m) && s.kv <= m.kv && LostOrDeleted(s, m, key)
    ensures LostOrDeleted(s, Apply(m, step), key)
  {
    StepGrowsBucket(m, step);
    if DeletedSince(s.kv, m.kv, key) {
      DeletedStays(s.kv, m.kv, Apply(m, step).kv, key);
    } else {
      LostStaysLost(m, step, key);
    }
  }

  lemma {:induction false} LostForGoodFrom(s: State, more: seq<Step>, key: string)
    requires Inv(s) && Lost(s, key)
    ensures Inv(Exec(s, more)) && s.kv <= Exec(s, more).kv && LostOrDeleted(s, Exec(s, more), key)
  {
    if more != [] {
      var before, last := more[..|more| - 1], more[|more| - 1];
      LostForGoodFrom(s, before, key);
      var m := Exec(s, before);
      StepKeepsInv(m, last);
      StepGrowsBucket(m, last);
      LostOrDeletedStep(s, m, last, key);
    }
  }

  /** Over every continuation of a run, however long, a lost task is never
      polled again: its key is still lost unless somebody deleted it. */
  lemma LostForGood(steps: seq<Step>, more: seq<Step>, key: string)
    requires Lost(Exec(Init, steps), key)
    ensures LostOrDeleted(Exec(Init, steps), Exec(Init, steps + more), key)
  {
    ReachableInv(steps);
    LostForGoodFrom(Exec(Init, steps), more, key);
    ExecSplits(Init, steps, more);
  }

  // --------------------------------------------------- when a task becomes lost

  /** Nobody but these carriers and workers has a copy of the claim. */
  ghost predicate OnlyCopies(s: State, revision: nat, carriers: set<Carrier>, workers: set<nat>) {
    && (forall c, t :: Carries(s, c, t) && t.revision == revision ==> c in carriers)
    && (forall w: nat :: Holds(s, w, revision) ==> w in workers)
  }

  lemma LostIffNoCopies(s: State, key: string)
    ensures Lost(s, key) <==> InProcess(s.kv, key) && OnlyCopies(s, LastRev(s.kv, key), {}, {})
  {
  }

  /** The step drops every copy that is left of the claim stored for key: the claim
      itself with its lost reply, the dispatcher that holds it, or the copy of a
      worker, together with its message if that is acknowledged. */
  ghost predicate DropsLastCopy(s: State, step: Step, key: string) {
    var r := LastRev(s.kv, key);
    match step
    case ClaimUnseen(d, now) => Lossy(s, step) && DispatcherOf(s, d).task.runId == key
    case DropDispatcher(d) => InProcess(s.kv, key) && OnlyCopies(s, r, {ByDispatcher(d)}, {})
    case DropWorker(w) => InProcess(s.kv, key) && OnlyCopies(s, r, {}, {w})
    case EmitUnseen(w) => WorkerOf(s, w).Observed? && InProcess(s.kv, key) && OnlyCopies(s, r, {}, {w})
    case Acknowledge(w) =>
      WorkerOf(s, w).Finished? && InProcess(s.kv, key) && OnlyCopies(s, r, {ByMessage(WorkerOf(s, w).msg)}, {w})
    case _ => false
  }

  /** s' is s without the copies of these carriers and workers. */
  ghost predicate Without(s: State, s': State, carriers: set<Carrier>, workers: set<nat>) {
    && s'.kv == s.kv
    && (forall c, t :: Carries(s', c, t) <==> Carries(s, c, t) && c !in carriers)
    && (forall w: nat, r: nat :: Holds(s', w, r) <==> Holds(s, w, r) && w !in workers)
  }

  lemma WithoutLosesIff(s: State, s': State, carriers: set<Carrier>, workers: set<nat>, key: string)
    requires Without(s, s', carriers, workers)
    ensures Lost(s', key) <==> InProcess(s.kv, key) && OnlyCopies(s, LastRev(s.kv, key), carriers, workers)
  {
    LostIffNoCopies(s', key);
  }

  /** Every copy left in s is still there in s'. */
  lemma CopiedStaysCopied(s: State, s': State, key: string)
    requires !Lost(s, key) && SameClaim(s.kv, s'.kv, key) && CarriersKept(s, s') && CopiesKept(s, s')
    ensures !Lost(s', key)
  {
    if InProcess(s'.kv, key) {
      var r := LastRev(s.kv, key);
      if c, t :| Carries(s, c, t) && t.revision == r {
        assert HasCarrier(s', r);
      } else {
        var w: nat :| Holds(s, w, r);
        assert Holds(s', w, r);
      }
    }
  }

  /** A claim whose reply is lost leaves the new revision without any copy; with the
      reply the dispatcher has one. */
  lemma ClaimLosesIff(s: State, d: nat, now: int, seen: bool)
    requires TokensOk(s) && Lossy(s, ClaimUnseen(d, now))
    ensures Lost(ApplyClaim(s, d, now, seen), DispatcherOf(s, d).task.runId) <==> !seen
  {
    var s', task := ApplyClaim(s, d, now, seen), DispatcherOf(s, d).task;
    ClaimOrphansIff(s, d, now, seen);
    LastRevAppend(s.kv, Put(task.runId, ClaimedTask(task, now), Claimed), task.runId);
    forall w: nat | !WorkerOf(s', w).Waiting?
      ensures WorkerOf(s', w).task.revision <= |s.kv|
    {
      assert WorkerOk(s, WorkerOf(s, w));
    }
  }

  lemma DropDispatcherLosesIff(s: State, d: nat, key: string)
    ensures Lost(Apply(s, DropDispatcher(d)), key) <==> DropsLastCopy(s, DropDispatcher(d), key)
  {
    WithoutLosesIff(s, Apply(s, DropDispatcher(d)), {ByDispatcher(d)}, {}, key);
  }

  lemma DropWorkerLosesIff(s: State, w: nat, key: string)
    ensures Lost(Apply(s, DropWorker(w)), key) <==> DropsLastCopy(s, DropWorker(w), key)
  {
    WithoutLosesIff(s, Apply(s, DropWorker(w)), {}, {w}, key);
  }

  lemma EmitUnseenLosesIff(s: State, w: nat, key: string)
    requires !Lost(s, key)
    ensures Lost(Apply(s, EmitUnseen(w)), key) <==> DropsLastCopy(s, EmitUnseen(w), key)
  {
    if WorkerOf(s, w).Observed? {
      WithoutLosesIff(s, Apply(s, EmitUnseen(w)), {}, {w}, key);
    }
  }

  lemma AcknowledgeLosesIff(s: State, w: nat, key: string)
    requires !Lost(s, key)
    ensures Lost(Apply(s, Acknowledge(w)), key) <==> DropsLastCopy(s, Acknowledge(w), key)
  {
    if WorkerOf(s, w).Finished? {
      WithoutLosesIff(s, Apply(s, Acknowledge(w)), {ByMessage(WorkerOf(s, w).msg)}, {w}, key);
    }
  }

  /** A step loses a task for good, given LostForGood, exactly if it drops the last
      copy of its claim. */
  lemma LostExactlyByLastCopy(s: State, step: Step, key: string)
    requires Inv(s) && !Lost(s, key)
    ensures Lost(Apply(s, step), key) <==> DropsLastCopy(s, step, key)
  {
    if step.DropDispatcher? {
      DropDispatcherLosesIff(s, step.d, key);
    } else if step.DropWorker? {
      DropWorkerLosesIff(s, step.w, key);
    } else if step.EmitUnseen? {
      EmitUnseenLosesIff(s, step.w, key);
    } else if step.Acknowledge? {
      AcknowledgeLosesIff(s, step.w, key);
    } else if ClaimsKey(s, step, key) {
      ClaimLosesIff(s, step.d, step.now, step.Claim?);
    } else {
      StepKeepsClaim(s, step, key);
      StepKeepsCarriers(s, step);
      StepKeepsCopies(s, step);
      CopiedStaysCopied(s, Apply(s, step), key);
    }
  }

  // ------------------------------------------------------------- the witness

  /** One polling turn up to the point where the worker is about to reschedule. */
  const DispatchTurn: seq<Step> := [Schedule("run-1", 1, 0)] + [Fetch(0, "run-1")] + [Claim(0, 5)] + [Publish(0)]
  const WorkerTurn: seq<Step> := DispatchTurn + [Deliver(0, 0)] + [Observe(0, "planning")] + [Emit(0)]

  const Scheduled0 := NewTask("run-1", 1, 0)
  const Claimed0 := ClaimedTask(Scheduled0.(revision := 1), 5)
  const Token0 := Claimed0.(revision := 2)
  const Bucket1: Bucket := [Put("run-1", Scheduled0, Scheduled)]
  const Bucket2: Bucket := Bucket1 + [Put("run-1", Claimed0, Claimed)]

  lemma DispatchTurnResult()
    ensures Exec(Init, DispatchTurn) == State(Bucket2, map[0 := Token0], 1, map[0 := Idle], map[], [])
  {
    var p0: seq<Step> := [];
    var p1 := p0 + [Schedule("run-1", 1, 0)];
    var p2 := p1 + [Fetch(0, "run-1")];
    var p3 := p2 + [Claim(0, 5)];
    ExecSnoc(Init, p0, Schedule("run-1", 1, 0));
    assert Exec(Init, p1) == Init.(kv := Bucket1);
    ExecSnoc(Init, p1, Fetch(0, "run-1"));
    assert Exec(Init, p2) == State(Bucket1, map[], 0, map[0 := Read(Scheduled0.(revision := 1))], map[], []);
    ExecSnoc(Init, p2, Claim(0, 5));
    assert Exec(Init, p3) == State(Bucket2, map[], 0, map[0 := Holding(Token0)], map[], []);
    ExecSnoc(Init, p3, Publish(0));
  }

  lemma WorkerTurnResult()
    ensures Exec(Init, WorkerTurn) ==
            State(Bucket2, map[0 := Token0], 1, map[0 := Idle], map[0 := Emitted(0, Token0, "planning")],
                  [Event("run-1", "planning")])
  {
    DispatchTurnResult();
    var p4 := DispatchTurn;
    var p5 := p4 + [Deliver(0, 0)];
    var p6 := p5 + [Observe(0, "planning")];
    ExecSnoc(Init, p4, Deliver(0, 0));
    ExecSnoc(Init, p5, Observe(0, "planning"));
    ExecSnoc(Init, p6, Emit(0));
  }

  /** The callback acknowledges its message even when Reschedule failed. Here is
      a run of one replica and one worker where that loses the task for good. */
  lemma FailedRescheduleLosesTask()
    ensures Lost(Exec(Init, WorkerTurn + [FinishError(0)] + [Acknowledge(0)]), "run-1")
  {
    WorkerTurnResult();
    ExecSnoc(Init, WorkerTurn, FinishError(0));
    ExecSnoc(Init, WorkerTurn + [FinishError(0)], Acknowledge(0));
    FinishErrorEffect(Exec(Init, WorkerTurn), 0, "planning");
    var s := Exec(Init, WorkerTurn + [FinishError(0)]);
    NobodyLeft(Apply(s, Acknowledge(0)), "run-1");
  }

  lemma FinishErrorEffect(s: State, msg: nat, status: string)
    requires s.queue == map[msg := Token0] && s.workers == map[0 := Emitted(msg, Token0, status)]
    ensures var s' := Apply(Apply(s, FinishError(0)), Acknowledge(0));
            s'.queue == map[] && s'.workers == map[0 := Waiting] && s'.dispatchers == s.dispatchers && s'.kv == s.kv
  {
    assert Apply(s, FinishError(0)).workers == map[0 := Finished(msg, Token0)];
  }

  lemma NobodyLeft(s: State, key: string)
    requires s.queue == map[] && s.workers == map[0 := Waiting] && s.dispatchers == map[0 := Idle]
    requires s.kv == Bucket2 && key == "run-1"
    ensures Lost(s, key)
  {
    assert LastRev(Bucket2, key) == 2;
    assert forall c, t :: !Carries(s, c, t);
  }
}
