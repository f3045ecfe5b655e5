/** What every write to the bucket says, over all runs: which statuses keep a task
    polled and which end it, when a task is claimed, and how long it waits. */
module PollingWrites {
  import opened Strings
  import opened KeyValue
  import opened PollingProtocol

  /** Write i stores a new task that waits at least a second; or claims a task that was
      unclaimed and due; or puts a claimed task back for ten seconds because its run
      was seen in a status that is not final; or deletes a task whose run was seen in
      any other status, or whose entry could not be decoded. */
  ghost predicate Made(kv: Bucket, i: nat)
    requires i < |kv|
  {
    var running := {"apply_queued", "applying", "cost_estimating", "plan_queued", "policy_checking", "planning",
                    "pending"};
    match kv[i]
    case Put(key, t, Scheduled) =>
      t.runId == key && t.lastStatus == "new" && !t.processing && t.revision == 0 && t.nextPoll >= t.lastUpdate + 1
    case Put(key, t, Claimed) =>
      && 0 < t.revision <= i && kv[t.revision - 1].Put? && kv[t.revision - 1].key == key
      && var was := kv[t.revision - 1].task;
         && !was.processing && was.nextPoll < t.lastUpdate
         && t == Task(was.runId, was.lastStatus, was.nextPoll, true, t.lastUpdate, t.revision)
    case Put(key, t, Rescheduled) =>
      && 0 < t.revision <= i && kv[t.revision - 1].Put? && kv[t.revision - 1].key == key
      && var was := kv[t.revision - 1].task;
         && was.processing && t.lastStatus in running
         && t == Task(was.runId, t.lastStatus, t.lastUpdate + 10, false, t.lastUpdate, t.revision)
    case Delete(_, Completed(status)) => status !in running
    case Delete(_, Dumped) => true
  }

  ghost predicate AllMade(kv: Bucket) {
    forall i: nat :: i < |kv| ==> Made(kv, i)
  }

  lemma AppendMade(kv: Bucket, w: Write)
    requires AllMade(kv) && Made(kv + [w], |kv|)
    ensures AllMade(kv + [w])
  {
    forall i: nat | i < |kv| + 1
      ensures Made(kv + [w], i)
    {
      if i < |kv| {
        assert Made(kv, i);
        MadeEarlier(kv, w, i);
      }
    }
  }

  lemma MadeEarlier(kv: Bucket, w: Write, i: nat)
    requires i < |kv| && Made(kv, i)
    ensures Made(kv + [w], i)
  {
    assert (kv + [w])[i] == kv[i];
  }

  /** A new task waits for the delay asked for, or for ten seconds if that is under
      one; on a key that holds a value nothing happens. */
  lemma ScheduleWrites(s: State, runId: string, delay: int, now: int)
    ensures Apply(s, Schedule(runId, delay, now)).kv ==
            if Live(s.kv, runId) then s.kv
            else
              var task := Task(runId, "new", now + (if delay < 1 then 10 else delay), false, now, 0);
              s.kv + [Put(runId, task, Scheduled)]
  {
  }

  /** A finishing worker puts the task back if its run is still running and nobody
      replaced the claim meanwhile, and deletes it whatever its revision otherwise. */
  lemma FinishWrites(s: State, w: nat, now: int)
    requires WorkerOf(s, w).Emitted?
    ensures var t, status := WorkerOf(s, w).task, WorkerOf(s, w).status;
            var running := {"apply_queued", "applying", "cost_estimating", "plan_queued", "policy_checking",
                            "planning", "pending"};
            var again := Task(t.runId, status, now + 10, false, now, t.revision);
            Apply(s, Finish(w, now)).kv ==
            if status !in running then s.kv + [Delete(t.runId, Completed(status))]
            else if LastRev(s.kv, t.runId) == t.revision then s.kv + [Put(t.runId, again, Rescheduled)]
            else s.kv
  {
  }

  lemma ClaimMade(s: State, d: nat, now: int, seen: bool)
    requires Inv(s) && AllMade(s.kv)
    ensures AllMade(ApplyClaim(s, d, now, seen).kv)
  {
    var kv' := ApplyClaim(s, d, now, seen).kv;
    assert DispatcherOk(s.kv, DispatcherOf(s, d));
    if kv' != s.kv {
      AppendMade(s.kv, kv'[|s.kv|]);
    }
  }

  lemma FinishMade(s: State, w: nat, now: int)
    requires Inv(s) && AllMade(s.kv)
    ensures AllMade(ApplyFinish(s, w, now).kv)
  {
    var kv' := ApplyFinish(s, w, now).kv;
    assert WorkerOk(s, WorkerOf(s, w));
    if kv' != s.kv {
      var pc := WorkerOf(s, w);
      ClaimedIffProcessing(s.kv, pc.task.revision - 1);
      AppendMade(s.kv, kv'[|s.kv|]);
    }
  }

  lemma StepMade(s: State, step: Step)
    requires Inv(s) && AllMade(s.kv)
    ensures AllMade(Apply(s, step).kv)
  {
    match step
    case Schedule(runId, delay, now) =>
      ScheduleWrites(s, runId, delay, now);
      if !Live(s.kv, runId) { AppendMade(s.kv, Apply(s, step).kv[|s.kv|]); }
    case Dump(d) =>
      if DispatcherOf(s, d).Dumping? { AppendMade(s.kv, Apply(s, step).kv[|s.kv|]); }
    case Claim(d, now) => ClaimMade(s, d, now, true);
    case ClaimUnseen(d, now) => ClaimMade(s, d, now, false);
    case Finish(w, now) => FinishMade(s, w, now);
    case _ =>
  }

  /** Over every run, with any failures and interleaving. */
  lemma {:induction false} WritesOverRuns(steps: seq<Step>)
    ensures AllMade(Exec(Init, steps).kv)
  {
    if steps != [] {
      var before := steps[..|steps| - 1];
      WritesOverRuns(before);
      ReachableInv(before);
      StepMade(Exec(Init, before), steps[|steps| - 1]);
    }
  }
}
