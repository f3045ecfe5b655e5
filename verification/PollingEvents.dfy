/** What the run-polling protocol promises its listeners: status changes it
    stores were published first, and in that order. */
module PollingEvents {
  import opened KeyValue
  import opened PollingProtocol

  /** Statuses published for one run, oldest first. */
  function Published(events: seq<Event>, key: string): seq<string> {
    if events == [] then []
    else
      var before, e := events[..|events| - 1], events[|events| - 1];
      if e.runId == key then Published(before, key) + [e.status] else Published(before, key)
  }

  function StatusAt(kv: Bucket, key: string): string {
    if Live(kv, key) then Stored(kv, key).lastStatus else "new"
  }

  /** w stores a status different from the one on record. */
  predicate StoresChange(kv: Bucket, w: Write, key: string) {
    w.key == key && w.Put? && w.cause == Rescheduled && w.task.lastStatus != StatusAt(kv, key)
  }

  /** The LastStatus values stored for a run by successful reschedules, adjacent
      repeats collapsed; every life of the key starts at "new". */
  function Changes(kv: Bucket, key: string): seq<string> {
    if kv == [] then []
    else
      var before, w := kv[..|kv| - 1], kv[|kv| - 1];
      if StoresChange(before, w, key) then Changes(before, key) + [w.task.lastStatus] else Changes(before, key)
  }

  /** a is what is left of b after striking some elements out. */
  ghost predicate Subsequence(a: seq<string>, b: seq<string>) {
    a == [] ||
    (b != [] &&
     ((a[|a| - 1] == b[|b| - 1] && Subsequence(a[..|a| - 1], b[..|b| - 1])) || Subsequence(a, b[..|b| - 1])))
  }

  ghost predicate WasPublished(events: seq<Event>, key: string, status: string) {
    status == "new" || status in Published(events, key)
  }

  /** The status a write puts on record was published. */
  ghost predicate WritePublished(events: seq<Event>, w: Write) {
    match w
    case Put(key, task, _) => WasPublished(events, key, task.lastStatus)
    case Delete(key, Completed(status)) => WasPublished(events, key, status)
    case Delete(_, Dumped) => true
  }

  ghost predicate InOrder(s: State, key: string) {
    Subsequence(Changes(s.kv, key), Published(s.events, key))
  }

  /** The changes of the key with one more status still fit the published log. */
  ghost predicate InOrderWith(s: State, key: string, status: string) {
    Subsequence(Changes(s.kv, key) + [status], Published(s.events, key))
  }

  /** A worker past its publishing step is covered by the log, and if its token
      is current the status it is about to store extends the stored changes. */
  ghost predicate EmittedOk(s: State, pc: Worker) {
    pc.Emitted? ==>
      && WasPublished(s.events, pc.task.runId, pc.status)
      && (pc.task.revision == LastRev(s.kv, pc.task.runId) && pc.status != pc.task.lastStatus ==>
            InOrderWith(s, pc.task.runId, pc.status))
  }

  ghost predicate Reported(s: State) {
    && (forall key :: InOrder(s, key))
    && (forall i: nat :: i < |s.kv| ==> WritePublished(s.events, s.kv[i]))
    && (forall w: nat :: EmittedOk(s, WorkerOf(s, w)))
  }

  lemma SubsequenceGrows(a: seq<string>, b: seq<string>, x: string)
    requires Subsequence(a, b)
    ensures Subsequence(a, b + [x]) && Subsequence(a + [x], b + [x])
  {
    assert (b + [x])[..|b|] == b && (a + [x])[..|a|] == a;
  }

  lemma PublishedAppend(events: seq<Event>, e: Event, key: string)
    ensures Published(events + [e], key) ==
            if e.runId == key then Published(events, key) + [e.status] else Published(events, key)
  {
    assert (events + [e])[..|events|] == events;
  }

  lemma ChangesAppend(kv: Bucket, w: Write, key: string)
    ensures Changes(kv + [w], key) ==
            if StoresChange(kv, w, key) then Changes(kv, key) + [w.task.lastStatus] else Changes(kv, key)
  {
    assert (kv + [w])[..|kv|] == kv;
  }

  /** A step that writes nothing, publishes nothing and leaves no new worker
      past its publishing step. */
  lemma QuietKeepsReported(s: State, s': State)
    requires Reported(s) && s'.kv == s.kv && s'.events == s.events
    requires forall w: nat :: WorkerOf(s', w).Emitted? ==> EmittedOk(s, WorkerOf(s', w))
    ensures Reported(s')
  {
    forall key
      ensures InOrder(s', key)
    {
      assert InOrder(s, key);
    }
    forall w: nat
      ensures EmittedOk(s', WorkerOf(s', w))
    {
      assert WorkerOf(s', w).Emitted? ==> EmittedOk(s, WorkerOf(s', w));
    }
  }

  lemma StutterKeepsReported(s: State, s': State)
    requires Reported(s) && s'.kv == s.kv && s'.events == s.events
    requires forall w: nat :: WorkerOf(s', w).Emitted? ==> WorkerOf(s', w) == WorkerOf(s, w)
    ensures Reported(s')
  {
    forall w: nat | WorkerOf(s', w).Emitted?
      ensures EmittedOk(s, WorkerOf(s', w))
    {
      assert EmittedOk(s, WorkerOf(s, w));
    }
    QuietKeepsReported(s, s');
  }

  lemma WriteKeepsEmitted(s: State, w: Write, pc: Worker)
    requires EmittedOk(s, pc) && WorkerOk(s, pc)
    ensures EmittedOk(s.(kv := s.kv + [w]), pc)
  {
    if pc.Emitted? {
      LastRevAppend(s.kv, w, pc.task.runId);
      ChangesAppend(s.kv, w, pc.task.runId);
    }
  }

  /** A write whose status is on record already, and whose change, if it is one,
      fits into the published sequence. */
  lemma WriteKeepsReported(s: State, w: Write)
    requires Inv(s) && Reported(s) && WritePublished(s.events, w)
    requires StoresChange(s.kv, w, w.key) ==> InOrderWith(s, w.key, w.task.lastStatus)
    ensures Reported(s.(kv := s.kv + [w]))
  {
    var s' := s.(kv := s.kv + [w]);
    forall key
      ensures InOrder(s', key)
    {
      ChangesAppend(s.kv, w, key);
      assert InOrder(s, key);
    }
    forall i: nat
      ensures EmittedOk(s', WorkerOf(s', i))
    {
      assert WorkerOf(s', i) == WorkerOf(s, i);
      assert WorkerOk(s, WorkerOf(s, i)) && EmittedOk(s, WorkerOf(s, i));
      WriteKeepsEmitted(s, w, WorkerOf(s, i));
    }
  }

  lemma EventKeepsInOrder(s: State, e: Event, key: string, status: string)
    ensures InOrder(s, key) ==> InOrder(s.(events := s.events + [e]), key)
    ensures InOrder(s, key) && e == Event(key, status) ==> InOrderWith(s.(events := s.events + [e]), key, status)
    ensures InOrderWith(s, key, status) ==> InOrderWith(s.(events := s.events + [e]), key, status)
  {
    PublishedAppend(s.events, e, key);
    if InOrder(s, key) {
      SubsequenceGrows(Changes(s.kv, key), Published(s.events, key), e.status);
    }
    if InOrderWith(s, key, status) {
      SubsequenceGrows(Changes(s.kv, key) + [status], Published(s.events, key), e.status);
    }
  }

  lemma EventKeepsPublished(events: seq<Event>, e: Event, key: string, status: string)
    ensures WasPublished(events, key, status) ==> WasPublished(events + [e], key, status)
    ensures e == Event(key, status) ==> WasPublished(events + [e], key, status)
  {
    PublishedAppend(events, e, key);
  }

  lemma EventKeepsReported(s: State, e: Event)
    requires Reported(s)
    ensures Reported(s.(events := s.events + [e]))
  {
    var s' := s.(events := s.events + [e]);
    forall key
      ensures InOrder(s', key)
    {
      assert InOrder(s, key);
      EventKeepsInOrder(s, e, key, "");
    }
    forall i: nat | i < |s'.kv|
      ensures WritePublished(s'.events, s'.kv[i])
    {
      var w := s.kv[i];
      assert WritePublished(s.events, w);
      match w
      case Put(key, task, _) => EventKeepsPublished(s.events, e, key, task.lastStatus);
      case Delete(key, Completed(status)) => EventKeepsPublished(s.events, e, key, status);
      case Delete(_, Dumped) =>
    }
    forall i: nat
      ensures EmittedOk(s', WorkerOf(s', i))
    {
      var pc := WorkerOf(s, i);
      assert WorkerOf(s', i) == pc && EmittedOk(s, pc);
      if pc.Emitted? {
        EventKeepsPublished(s.events, e, pc.task.runId, pc.status);
        EventKeepsInOrder(s, e, pc.task.runId, pc.status);
      }
    }
  }

  lemma EmitKeepsReported(s: State, w: nat, seen: bool)
    requires Inv(s) && Reported(s)
    ensures Reported(ApplyEmit(s, w, seen))
  {
    var pc := WorkerOf(s, w);
    if pc.Observed? {
      var s' := ApplyEmit(s, w, seen);
      var e := Event(pc.task.runId, pc.status);
      var s1 := s.(events := s'.events);
      assert WorkerOk(s, pc);
      assert WritePublished(s.events, s.kv[pc.task.revision - 1]);
      if pc.status != pc.task.lastStatus {
        EventKeepsReported(s, e);
        assert InOrder(s, pc.task.runId);
        EventKeepsInOrder(s, e, pc.task.runId, pc.status);
        EventKeepsPublished(s.events, e, pc.task.runId, pc.status);
      }
      assert Reported(s1);
      assert EmittedOk(s1, Emitted(pc.msg, pc.task, pc.status));
      forall i: nat | WorkerOf(s', i).Emitted?
        ensures EmittedOk(s1, WorkerOf(s', i))
      {
        assert EmittedOk(s1, WorkerOf(s1, i));
        assert i != w ==> WorkerOf(s', i) == WorkerOf(s1, i);
      }
      QuietKeepsReported(s1, s');
    }
  }

  /** A worker that published what it observed may store or retire it. */
  lemma FinishFits(s: State, pc: Worker, now: int)
    requires pc.Emitted? && WorkerOk(s, pc) && EmittedOk(s, pc)
    requires FinishLands(s.kv, pc.task, pc.status)
    ensures var w := FinishWrite(pc.task, pc.status, now);
            && WritePublished(s.events, w)
            && (StoresChange(s.kv, w, w.key) ==> InOrderWith(s, w.key, w.task.lastStatus))
  {
  }

  lemma FinishKeepsReported(s: State, w: nat, now: int)
    requires Inv(s) && Reported(s)
    ensures Reported(ApplyFinish(s, w, now))
  {
    var pc := WorkerOf(s, w);
    if pc.Emitted? {
      var kv' := FinishBucket(s.kv, pc.task, pc.status, now);
      assert WorkerOk(s, pc) && EmittedOk(s, pc);
      if FinishLands(s.kv, pc.task, pc.status) {
        FinishFits(s, pc, now);
        WriteKeepsReported(s, FinishWrite(pc.task, pc.status, now));
      } else {
        assert s.(kv := kv') == s;
      }
      StutterKeepsReported(s.(kv := kv'), ApplyFinish(s, w, now));
    }
  }

  lemma ClaimKeepsReported(s: State, d: nat, now: int, seen: bool)
    requires Inv(s) && Reported(s)
    ensures Reported(ApplyClaim(s, d, now, seen))
  {
    var s' := ApplyClaim(s, d, now, seen);
    if s'.kv == s.kv {
      StutterKeepsReported(s, s');
    } else {
      var task := DispatcherOf(s, d).task;
      assert DispatcherOk(s.kv, DispatcherOf(s, d));
      var put := Put(task.runId, ClaimedTask(task, now), Claimed);
      assert WritePublished(s.events, s.kv[task.revision - 1]);
      WriteKeepsReported(s, put);
      StutterKeepsReported(s.(kv := s.kv + [put]), s');
    }
  }

  lemma ScheduleKeepsReported(s: State, runId: string, delay: int, now: int)
    requires Inv(s) && Reported(s)
    ensures Reported(Apply(s, Schedule(runId, delay, now)))
  {
    if !Live(s.kv, runId) {
      WriteKeepsReported(s, Put(runId, NewTask(runId, delay, now), Scheduled));
    } else {
      assert Apply(s, Schedule(runId, delay, now)) == s;
    }
  }

  lemma DumpKeepsReported(s: State, d: nat)
    requires Inv(s) && Reported(s)
    ensures Reported(Apply(s, Dump(d)))
  {
    if DispatcherOf(s, d).Dumping? {
      var del := Delete(DispatcherOf(s, d).key, Dumped);
      WriteKeepsReported(s, del);
      StutterKeepsReported(s.(kv := s.kv + [del]), Apply(s, Dump(d)));
    }
  }

  /** The steps that touch neither the bucket nor the event log. */
  predicate Quiet(step: Step) {
    step.Fetch? || step.FetchCorrupt? || step.Publish? || step.DropDispatcher? || step.Deliver?
    || step.Observe? || step.FinishError? || step.Acknowledge? || step.DropWorker?
  }

  lemma QuietStepKeepsReported(s: State, step: Step)
    requires Quiet(step) && Reported(s)
    ensures Reported(Apply(s, step))
  {
    var s' := Apply(s, step);
    assert s'.kv == s.kv && s'.events == s.events;
    assert forall w: nat :: WorkerOf(s', w).Emitted? ==> WorkerOf(s', w) == WorkerOf(s, w);
    StutterKeepsReported(s, s');
  }

  lemma StepKeepsReported(s: State, step: Step)
    requires Inv(s) && Reported(s)
    ensures Reported(Apply(s, step))
  {
    match step
    case Schedule(runId, delay, now) => ScheduleKeepsReported(s, runId, delay, now);
    case Dump(d) => DumpKeepsReported(s, d);
    case Claim(d, now) => ClaimKeepsReported(s, d, now, true);
    case ClaimUnseen(d, now) => ClaimKeepsReported(s, d, now, false);
    case Emit(w) => EmitKeepsReported(s, w, true);
    case EmitUnseen(w) => EmitKeepsReported(s, w, false);
    case Finish(w, now) => FinishKeepsReported(s, w, now);
    case _ => QuietStepKeepsReported(s, step);
  }

  lemma {:induction false} ReachableReported(steps: seq<Step>)
    ensures Reported(Exec(Init, steps))
  {
    if steps != [] {
      var before := steps[..|steps| - 1];
      ReachableReported(before);
      ReachableInv(before);
      StepKeepsReported(Exec(Init, before), steps[|steps| - 1]);
    }
  }

  /** Over every run, with any number of replicas and failures: the stored
      status changes of a run are a subsequence of its published events, every
      stored status other than the initial one was published before, and so was
      the last status a worker saw before it completed the task. */
  lemma StatusesReported(steps: seq<Step>, key: string)
    ensures var s := Exec(Init, steps);
            Subsequence(Changes(s.kv, key), Published(s.events, key))
    ensures var s := Exec(Init, steps);
            forall i: nat :: i < |s.kv| && s.kv[i].key == key ==> WritePublished(s.events, s.kv[i])
  {
    ReachableReported(steps);
    assert InOrder(Exec(Init, steps), key);
  }
}
