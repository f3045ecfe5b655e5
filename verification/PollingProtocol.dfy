/** The run-polling protocol: any number of dispatchers (one per replica of
    pkg/runstream/run_polling.go) and workers (pkg/tfc_hooks/polling.go)
    interleaving over the bucket and the RUN_POLLING work queue. */
module PollingProtocol {
  import opened Strings
  import opened KeyValue

  const POLLING_DELAY_MINIMUM := 1
  const POLLING_DELAY_DEFAULT := 10

  datatype Event = Event(runId: string, status: string)

  /** Where a dispatcher is in one turn of its loop over keys. */
  datatype Dispatcher =
    | Idle
    | Read(task: Task)        // decoded an entry, not yet claimed
    | Dumping(key: string)    // decided to delete an undecodable entry
    | Holding(task: Task)     // claimed, message not yet published

  /** Where a worker is in one message callback. */
  datatype Worker =
    | Waiting
    | Got(msg: nat, task: Task)
    | Observed(msg: nat, task: Task, status: string)
    | Emitted(msg: nat, task: Task, status: string)
    | Finished(msg: nat, task: Task)

  /** The queue holds the unacknowledged messages; events is the log of
      published run events. */
  datatype State = State(
    kv: Bucket,
    queue: map<nat, Task>,
    nextMsg: nat,
    dispatchers: map<nat, Dispatcher>,
    workers: map<nat, Worker>,
    events: seq<Event>)

  datatype Step =
    | Schedule(runId: string, delay: int, now: int)
    | Fetch(d: nat, key: string)
    | FetchCorrupt(d: nat, key: string)
    | Dump(d: nat)
    | Claim(d: nat, now: int)
    | ClaimUnseen(d: nat, now: int)       // the swap lands, its reply is an error
    | Publish(d: nat)
    | DropDispatcher(d: nat)              // publish error, update error or crash
    | Deliver(w: nat, msg: nat)           // first delivery or redelivery
    | Observe(w: nat, status: string)
    | Emit(w: nat)
    | EmitUnseen(w: nat)                  // the event lands, its reply is an error
    | Finish(w: nat, now: int)
    | FinishError(w: nat)                 // the reschedule or delete fails, nothing written
    | Acknowledge(w: nat)
    | DropWorker(w: nat)                  // any Nak, a lost Ack or a crash

  const Init := State([], map[], 0, map[], map[], [])

  function DispatcherOf(s: State, d: nat): Dispatcher {
    if d in s.dispatchers then s.dispatchers[d] else Idle
  }

  function WorkerOf(s: State, w: nat): Worker {
    if w in s.workers then s.workers[w] else Waiting
  }

  /** NewTFRunPollingTask. */
  function NewTask(runId: string, delay: int, now: int): Task {
    var wait := if delay >= POLLING_DELAY_MINIMUM then delay else POLLING_DELAY_DEFAULT;
    Task(runId, "new", now + wait, false, now, 0)
  }

  /** decodeTFRunPollingTaskKVEntry: the stored value with the entry's own
      revision in place of the one that was encoded. */
  function DecodeEntry(kv: Bucket, key: string): Task
    requires Live(kv, key)
  {
    Stored(kv, key).(revision := LastRev(kv, key))
  }

  predicate Ready(task: Task, now: int) {
    !task.processing && now > task.nextPoll
  }

  function ClaimedTask(task: Task, now: int): Task {
    task.(processing := true, lastUpdate := now)
  }

  function RescheduledTask(task: Task, status: string, now: int): Task {
    task.(lastStatus := status, nextPoll := now + POLLING_DELAY_DEFAULT, processing := false, lastUpdate := now)
  }

  predicate IsRunning(status: string) {
    status in {"apply_queued", "applying", "cost_estimating", "plan_queued", "policy_checking", "planning", "pending"}
  }

  /** What the callback writes: a reschedule, swapped against the token's
      revision, while the run is running, and an unconditional delete after. */
  function FinishWrite(task: Task, status: string, now: int): Write {
    if IsRunning(status) then Put(task.runId, RescheduledTask(task, status, now), Rescheduled)
    else Delete(task.runId, Completed(status))
  }

  predicate FinishLands(kv: Bucket, task: Task, status: string) {
    IsRunning(status) ==> LastRev(kv, task.runId) == task.revision
  }

  function FinishBucket(kv: Bucket, task: Task, status: string, now: int): Bucket {
    if FinishLands(kv, task, status) then kv + [FinishWrite(task, status, now)] else kv
  }

  function WithDispatcher(s: State, d: nat, pc: Dispatcher): State {
    s.(dispatchers := s.dispatchers[d := pc])
  }

  function WithWorker(s: State, w: nat, pc: Worker): State {
    s.(workers := s.workers[w := pc])
  }

  // ------------------------------------------------------------------- steps

  /** A step taken where it is not possible changes nothing. */
  function Apply(s: State, step: Step): State {
    match step
    case Schedule(runId, delay, now) =>
      s.(kv := Create(s.kv, runId, NewTask(runId, delay, now)).GetOr(s.kv))
    case Fetch(d, key) =>
      if DispatcherOf(s, d).Idle? && Live(s.kv, key) then WithDispatcher(s, d, Read(DecodeEntry(s.kv, key))) else s
    case FetchCorrupt(d, key) =>
      if DispatcherOf(s, d).Idle? && Live(s.kv, key) then WithDispatcher(s, d, Dumping(key)) else s
    case Dump(d) =>
      if DispatcherOf(s, d).Dumping? then
        WithDispatcher(s.(kv := s.kv + [Delete(DispatcherOf(s, d).key, Dumped)]), d, Idle)
      else s
    case Claim(d, now) => ApplyClaim(s, d, now, true)
    case ClaimUnseen(d, now) => ApplyClaim(s, d, now, false)
    case Publish(d) =>
      if DispatcherOf(s, d).Holding? then
        WithDispatcher(s.(queue := s.queue[s.nextMsg := DispatcherOf(s, d).task], nextMsg := s.nextMsg + 1), d, Idle)
      else s
    case DropDispatcher(d) => WithDispatcher(s, d, Idle)
    case Deliver(w, msg) =>
      if WorkerOf(s, w).Waiting? && msg in s.queue then WithWorker(s, w, Got(msg, s.queue[msg])) else s
    case Observe(w, status) =>
      (match WorkerOf(s, w)
       case Got(msg, task) => WithWorker(s, w, Observed(msg, task, status))
       case _ => s)
    case Emit(w) => ApplyEmit(s, w, true)
    case EmitUnseen(w) => ApplyEmit(s, w, false)
    case Finish(w, now) => ApplyFinish(s, w, now)
    case FinishError(w) =>
      (match WorkerOf(s, w)
       case Emitted(msg, task, status) => WithWorker(s, w, Finished(msg, task))
       case _ => s)
    case Acknowledge(w) =>
      (match WorkerOf(s, w)
       case Finished(msg, task) => WithWorker(s.(queue := s.queue - {msg}), w, Waiting)
       case _ => s)
    case DropWorker(w) => WithWorker(s, w, Waiting)
  }

  /** task.update with Processing set: the value is encoded before the swap, so
      it carries the old revision; the task takes the new one if the reply is
      seen. */
  function ApplyClaim(s: State, d: nat, now: int, seen: bool): State {
    match DispatcherOf(s, d)
    case Read(task) =>
      if !Ready(task, now) then WithDispatcher(s, d, Idle)
      else (
        match Update(s.kv, task.runId, ClaimedTask(task, now), Claimed, task.revision)
        case None => WithDispatcher(s, d, Idle)
        case Some(kv) =>
          var held := Holding(ClaimedTask(task, now).(revision := |kv|));
          WithDispatcher(s.(kv := kv), d, if seen then held else Idle)
      )
    case _ => s
  }

  /** Publish a run event if the status changed. */
  function ApplyEmit(s: State, w: nat, seen: bool): State {
    match WorkerOf(s, w)
    case Observed(msg, task, status) =>
      var events := if status == task.lastStatus then s.events else s.events + [Event(task.runId, status)];
      WithWorker(s.(events := events), w, if seen then Emitted(msg, task, status) else Waiting)
    case _ => s
  }

  function ApplyFinish(s: State, w: nat, now: int): State {
    match WorkerOf(s, w)
    case Emitted(msg, task, status) =>
      WithWorker(s.(kv := FinishBucket(s.kv, task, status, now)), w, Finished(msg, task))
    case _ => s
  }

  function Exec(s: State, steps: seq<Step>): State {
    if steps == [] then s else Apply(Exec(s, steps[..|steps| - 1]), steps[|steps| - 1])
  }

  lemma ExecSnoc(s: State, steps: seq<Step>, step: Step)
    ensures Exec(s, steps + [step]) == Apply(Exec(s, steps), step)
  {
    assert (steps + [step])[..|steps|] == steps;
  }

  lemma {:induction false} ExecSplits(s: State, a: seq<Step>, b: seq<Step>)
    ensures Exec(s, a + b) == Exec(Exec(s, a), b)
  {
    if b == [] {
      assert a + b == a;
    } else {
      assert (a + b)[..|a + b| - 1] == a + b[..|b| - 1];
      ExecSplits(s, a, b[..|b| - 1]);
    }
  }

  // --------------------------------------------------------------- invariant

  /** t is a value some dispatcher read from the bucket at revision t.revision. */
  ghost predicate ReadAt(kv: Bucket, t: Task) {
    && 0 < t.revision <= |kv|
    && kv[t.revision - 1].Put? && kv[t.revision - 1].key == t.runId
    && t == kv[t.revision - 1].task.(revision := t.revision)
  }

  /** t is the token of the claim written at revision t.revision. */
  ghost predicate Token(kv: Bucket, t: Task) {
    ReadAt(kv, t) && kv[t.revision - 1].cause == Claimed
  }

  ghost predicate DispatcherOk(kv: Bucket, pc: Dispatcher) {
    match pc
    case Read(t) => ReadAt(kv, t)
    case Holding(t) => Token(kv, t)
    case _ => true
  }

  ghost predicate WorkerOk(s: State, pc: Worker) {
    !pc.Waiting? ==>
      && Token(s.kv, pc.task) && pc.msg < s.nextMsg
      && (pc.msg in s.queue ==> s.queue[pc.msg] == pc.task)
  }

  /** A carrier is a claim on its way to the queue or a message in it. */
  datatype Carrier = ByDispatcher(d: nat) | ByMessage(msg: nat)

  function TaskOf(s: State, c: Carrier): Option<Task> {
    match c
    case ByDispatcher(d) => if DispatcherOf(s, d).Holding? then Some(DispatcherOf(s, d).task) else None
    case ByMessage(msg) => if msg in s.queue then Some(s.queue[msg]) else None
  }

  ghost predicate Carries(s: State, c: Carrier, t: Task) {
    TaskOf(s, c) == Some(t)
  }

  ghost predicate SameRevision(s: State, c: Carrier, c': Carrier) {
    && TaskOf(s, c).Some? && TaskOf(s, c').Some?
    && TaskOf(s, c).value.revision == TaskOf(s, c').value.revision
  }

  ghost predicate TokensOk(s: State) {
    && (forall d: nat :: DispatcherOk(s.kv, DispatcherOf(s, d)))
    && (forall m: nat :: m in s.queue ==> Token(s.kv, s.queue[m]) && m < s.nextMsg)
    && (forall w: nat :: WorkerOk(s, WorkerOf(s, w)))
  }

  ghost predicate OneCarrierEach(s: State) {
    forall c, c' :: SameRevision(s, c, c') ==> c == c'
  }

  ghost predicate Inv(s: State) {
    Lawful(s.kv) && TokensOk(s) && OneCarrierEach(s)
  }

  lemma TokensAppend(s: State, w: Write)
    requires TokensOk(s)
    ensures TokensOk(s.(kv := s.kv + [w]))
  {
    var s' := s.(kv := s.kv + [w]);
    forall d: nat
      ensures DispatcherOk(s'.kv, DispatcherOf(s', d))
    {
      assert DispatcherOk(s.kv, DispatcherOf(s, d));
      assert DispatcherOf(s', d) == DispatcherOf(s, d);
    }
    forall i: nat
      ensures WorkerOk(s', WorkerOf(s', i))
    {
      assert WorkerOk(s, WorkerOf(s, i));
      assert WorkerOf(s', i) == WorkerOf(s, i);
    }
  }

  lemma AppendKeepsInv(s: State, w: Write)
    requires Inv(s) && Legal(s.kv, w)
    ensures Inv(s.(kv := s.kv + [w]))
  {
    LawfulAppend(s.kv, w);
    TokensAppend(s, w);
    var s' := s.(kv := s.kv + [w]);
    forall c, c' | SameRevision(s', c, c')
      ensures c == c'
    {
      assert SameRevision(s, c, c');
    }
  }

  /** A dispatcher moving to a state that is not Holding. */
  lemma ReleaseKeepsInv(s: State, d: nat, pc: Dispatcher)
    requires Inv(s) && DispatcherOk(s.kv, pc) && !pc.Holding?
    ensures Inv(WithDispatcher(s, d, pc))
  {
    var s' := WithDispatcher(s, d, pc);
    forall e: nat
      ensures DispatcherOk(s'.kv, DispatcherOf(s', e))
    {
      assert DispatcherOk(s.kv, DispatcherOf(s, e));
    }
    forall i: nat
      ensures WorkerOk(s', WorkerOf(s', i))
    {
      assert WorkerOk(s, WorkerOf(s, i));
      assert WorkerOf(s', i) == WorkerOf(s, i);
    }
    forall c, c' | SameRevision(s', c, c')
      ensures c == c'
    {
      assert SameRevision(s, c, c');
    }
  }

  lemma WorkerMoveKeepsInv(s: State, w: nat, pc: Worker)
    requires Inv(s) && WorkerOk(s, pc)
    ensures Inv(WithWorker(s, w, pc))
  {
    var s' := WithWorker(s, w, pc);
    forall d: nat
      ensures DispatcherOk(s'.kv, DispatcherOf(s', d))
    {
      assert DispatcherOk(s.kv, DispatcherOf(s, d));
      assert DispatcherOf(s', d) == DispatcherOf(s, d);
    }
    forall i: nat
      ensures WorkerOk(s', WorkerOf(s', i))
    {
      assert WorkerOk(s, WorkerOf(s, i));
    }
    forall c, c' | SameRevision(s', c, c')
      ensures c == c'
    {
      assert SameRevision(s, c, c');
    }
  }

  lemma TokenBelow(s: State, c: Carrier, t: Task)
    requires TokensOk(s) && Carries(s, c, t)
    ensures Token(s.kv, t)
  {
    match c
    case ByDispatcher(d) => assert DispatcherOk(s.kv, DispatcherOf(s, d));
    case ByMessage(msg) =>
  }

  lemma ClaimIsLegal(kv: Bucket, task: Task, now: int)
    requires Lawful(kv) && ReadAt(kv, task) && Ready(task, now) && LastRev(kv, task.runId) == task.revision
    ensures Legal(kv, Put(task.runId, ClaimedTask(task, now), Claimed))
    ensures Token(kv + [Put(task.runId, ClaimedTask(task, now), Claimed)],
                  ClaimedTask(task, now).(revision := |kv| + 1))
  {
    ClaimedIffProcessing(kv, task.revision - 1);
  }

  lemma FinishIsLegal(kv: Bucket, task: Task, status: string, now: int)
    requires Lawful(kv) && Token(kv, task) && FinishLands(kv, task, status)
    ensures Legal(kv, FinishWrite(task, status, now))
  {
    ClaimedIffProcessing(kv, task.revision - 1);
  }

  lemma ClaimKeepsInv(s: State, d: nat, now: int, seen: bool)
    requires Inv(s)
    ensures Inv(ApplyClaim(s, d, now, seen))
  {
    if DispatcherOf(s, d).Read? {
      var task := DispatcherOf(s, d).task;
      assert DispatcherOk(s.kv, DispatcherOf(s, d));
      if Ready(task, now) && LastRev(s.kv, task.runId) == task.revision {
        var put := Put(task.runId, ClaimedTask(task, now), Claimed);
        ClaimIsLegal(s.kv, task, now);
        AppendKeepsInv(s, put);
        var s1 := s.(kv := s.kv + [put]);
        ReleaseKeepsInv(s1, d, Idle);
        if seen {
          HoldKeepsInv(s, s1, d, ClaimedTask(task, now).(revision := |s1.kv|));
        }
      } else {
        ReleaseKeepsInv(s, d, Idle);
      }
    }
  }

  lemma HoldKeepsInv(s: State, s1: State, d: nat, t: Task)
    requires TokensOk(s) && Inv(s1) && s1 == s.(kv := s1.kv) && Token(s1.kv, t)
    requires t.revision > |s.kv|
    ensures Inv(WithDispatcher(s1, d, Holding(t)))
  {
    var s2 := WithDispatcher(s1, d, Holding(t));
    forall e: nat
      ensures DispatcherOk(s2.kv, DispatcherOf(s2, e))
    {
      assert DispatcherOk(s1.kv, DispatcherOf(s1, e));
    }
    forall i: nat
      ensures WorkerOk(s2, WorkerOf(s2, i))
    {
      assert WorkerOk(s1, WorkerOf(s1, i));
      assert WorkerOf(s2, i) == WorkerOf(s1, i);
    }
    forall c, c' | SameRevision(s2, c, c')
      ensures c == c'
    {
      if c != ByDispatcher(d) { TokenBelow(s, c, TaskOf(s, c).value); }
      if c' != ByDispatcher(d) { TokenBelow(s, c', TaskOf(s, c').value); }
      if c != ByDispatcher(d) && c' != ByDispatcher(d) { assert SameRevision(s1, c, c'); }
    }
  }

  lemma PublishKeepsInv(s: State, d: nat)
    requires Inv(s)
    ensures Inv(Apply(s, Publish(d)))
  {
    if DispatcherOf(s, d).Holding? {
      var t := DispatcherOf(s, d).task;
      var s' := Apply(s, Publish(d));
      assert DispatcherOk(s.kv, DispatcherOf(s, d));
      forall e: nat
        ensures DispatcherOk(s'.kv, DispatcherOf(s', e))
      {
        assert DispatcherOk(s.kv, DispatcherOf(s, e));
      }
      forall i: nat
        ensures WorkerOk(s', WorkerOf(s', i))
      {
        assert WorkerOk(s, WorkerOf(s, i));
        assert WorkerOf(s', i) == WorkerOf(s, i);
      }
      forall c, c' | SameRevision(s', c, c')
        ensures c == c'
      {
        PublishMovesCarrier(s, d, c, TaskOf(s', c).value);
        PublishMovesCarrier(s, d, c', TaskOf(s', c').value);
        var b := if c == ByMessage(s.nextMsg) then ByDispatcher(d) else c;
        var b' := if c' == ByMessage(s.nextMsg) then ByDispatcher(d) else c';
        assert SameRevision(s, b, b');
      }
    }
  }

  /** Publishing turns the dispatcher's claim into the new message. */
  lemma PublishMovesCarrier(s: State, d: nat, c: Carrier, t: Task)
    requires DispatcherOf(s, d).Holding? && Carries(Apply(s, Publish(d)), c, t)
    ensures c != ByDispatcher(d)
    ensures if c == ByMessage(s.nextMsg) then Carries(s, ByDispatcher(d), t) else Carries(s, c, t)
  {
  }

  lemma AcknowledgeKeepsInv(s: State, w: nat)
    requires Inv(s) && WorkerOf(s, w).Finished?
    ensures Inv(s.(queue := s.queue - {WorkerOf(s, w).msg}))
  {
    var s' := s.(queue := s.queue - {WorkerOf(s, w).msg});
    forall d: nat
      ensures DispatcherOk(s'.kv, DispatcherOf(s', d))
    {
      assert DispatcherOk(s.kv, DispatcherOf(s, d));
      assert DispatcherOf(s', d) == DispatcherOf(s, d);
    }
    forall i: nat
      ensures WorkerOk(s', WorkerOf(s', i))
    {
      assert WorkerOk(s, WorkerOf(s, i));
      assert WorkerOf(s', i) == WorkerOf(s, i);
    }
    forall c, c' | SameRevision(s', c, c')
      ensures c == c'
    {
      assert SameRevision(s, c, c');
    }
  }

  lemma FinishKeepsInv(s: State, w: nat, now: int)
    requires Inv(s)
    ensures Inv(ApplyFinish(s, w, now))
  {
    if WorkerOf(s, w).Emitted? {
      var Emitted(msg, task, status) := WorkerOf(s, w);
      assert WorkerOk(s, WorkerOf(s, w));
      var kv' := FinishBucket(s.kv, task, status, now);
      var s1 := s.(kv := kv');
      if FinishLands(s.kv, task, status) {
        FinishIsLegal(s.kv, task, status, now);
        AppendKeepsInv(s, FinishWrite(task, status, now));
      } else {
        assert s1 == s;
      }
      TokenStays(s, s1, task);
      WorkerMoveKeepsInv(s1, w, Finished(msg, task));
    }
  }

  lemma TokenStays(s: State, s1: State, t: Task)
    requires Token(s.kv, t) && s.kv <= s1.kv
    ensures Token(s1.kv, t)
  {
  }

  /** Every step keeps the invariant. */
  lemma StepKeepsInv(s: State, step: Step)
    requires Inv(s)
    ensures Inv(Apply(s, step))
  {
    match step
    case Schedule(runId, delay, now) =>
      if !Live(s.kv, runId) {
        var put := Put(runId, NewTask(runId, delay, now), Scheduled);
        AppendKeepsInv(s, put);
      } else {
        assert Apply(s, step) == s;
      }
    case Fetch(d, key) =>
      if DispatcherOf(s, d).Idle? && Live(s.kv, key) {
        ClaimedIffProcessing(s.kv, LastRev(s.kv, key) - 1);
        ReleaseKeepsInv(s, d, Read(DecodeEntry(s.kv, key)));
      }
    case FetchCorrupt(d, key) => ReleaseKeepsInv(s, d, Dumping(key));
    case Dump(d) =>
      if DispatcherOf(s, d).Dumping? {
        var del := Delete(DispatcherOf(s, d).key, Dumped);
        AppendKeepsInv(s, del);
        ReleaseKeepsInv(s.(kv := s.kv + [del]), d, Idle);
      }
    case Claim(d, now) => ClaimKeepsInv(s, d, now, true);
    case ClaimUnseen(d, now) => ClaimKeepsInv(s, d, now, false);
    case Publish(d) => PublishKeepsInv(s, d);
    case DropDispatcher(d) => ReleaseKeepsInv(s, d, Idle);
    case Finish(w, now) => FinishKeepsInv(s, w, now);
    case _ => WorkerStepKeepsInv(s, step);
  }

  lemma WorkerStepKeepsInv(s: State, step: Step)
    requires Inv(s)
    requires step.Deliver? || step.Observe? || step.Emit? || step.EmitUnseen? || step.FinishError?
          || step.Acknowledge? || step.DropWorker?
    ensures Inv(Apply(s, step))
  {
    var pc := WorkerOf(s, step.w);
    assert WorkerOk(s, pc);
    match step
    case Deliver(w, msg) => if msg in s.queue { WorkerMoveKeepsInv(s, w, Got(msg, s.queue[msg])); }
    case Observe(w, status) => if pc.Got? { WorkerMoveKeepsInv(s, w, Observed(pc.msg, pc.task, status)); }
    case Emit(w) => EmitKeepsInv(s, w, true);
    case EmitUnseen(w) => EmitKeepsInv(s, w, false);
    case FinishError(w) => if pc.Emitted? { WorkerMoveKeepsInv(s, w, Finished(pc.msg, pc.task)); }
    case Acknowledge(w) =>
      if pc.Finished? {
        AcknowledgeKeepsInv(s, w);
        WorkerMoveKeepsInv(s.(queue := s.queue - {pc.msg}), w, Waiting);
      }
    case DropWorker(w) => WorkerMoveKeepsInv(s, w, Waiting);
  }

  lemma EmitKeepsInv(s: State, w: nat, seen: bool)
    requires Inv(s)
    ensures Inv(ApplyEmit(s, w, seen))
  {
    if WorkerOf(s, w).Observed? {
      var Observed(msg, task, status) := WorkerOf(s, w);
      assert WorkerOk(s, WorkerOf(s, w));
      var pc := if seen then Emitted(msg, task, status) else Waiting;
      WorkerMoveKeepsInv(s, w, pc);
      InvIgnoresEvents(WithWorker(s, w, pc), ApplyEmit(s, w, seen).events);
    }
  }

  lemma InvIgnoresEvents(s: State, events: seq<Event>)
    requires Inv(s)
    ensures Inv(s.(events := events))
  {
    var s' := s.(events := events);
    forall d: nat
      ensures DispatcherOk(s'.kv, DispatcherOf(s', d))
    {
      assert DispatcherOf(s', d) == DispatcherOf(s, d);
      assert DispatcherOk(s.kv, DispatcherOf(s, d));
    }
    forall i: nat
      ensures WorkerOk(s', WorkerOf(s', i))
    {
      assert WorkerOk(s, WorkerOf(s, i));
      assert WorkerOf(s', i) == WorkerOf(s, i);
    }
    forall c, c' | SameRevision(s', c, c')
      ensures c == c'
    {
      assert SameRevision(s, c, c');
    }
  }

  lemma {:induction false} ReachableInv(steps: seq<Step>)
    ensures Inv(Exec(Init, steps))
  {
    if steps != [] {
      ReachableInv(steps[..|steps| - 1]);
      StepKeepsInv(Exec(Init, steps[..|steps| - 1]), steps[|steps| - 1]);
    }
  }

  // ------------------------------------------------------- safety over runs

  /** c carries the key's current revision. */
  ghost predicate CurrentCarrier(s: State, key: string, c: Carrier) {
    exists t :: Carries(s, c, t) && t.runId == key && t.revision == LastRev(s.kv, key)
  }

  lemma CurrentCarrierHolds(s: State, key: string, c: Carrier)
    requires Inv(s) && CurrentCarrier(s, key, c)
    ensures Live(s.kv, key) && Stored(s.kv, key).processing && Carries(s, c, DecodeEntry(s.kv, key))
  {
    var t :| Carries(s, c, t) && t.runId == key && t.revision == LastRev(s.kv, key);
    TokenBelow(s, c, t);
    ClaimedIffProcessing(s.kv, t.revision - 1);
  }

  lemma CurrentCarrierUnique(s: State, key: string, c: Carrier, c': Carrier)
    requires OneCarrierEach(s) && CurrentCarrier(s, key, c) && CurrentCarrier(s, key, c')
    ensures c == c'
  {
    assert SameRevision(s, c, c');
  }

  /** In every reachable state a key has at most one carrier of its current
      revision, and where there is one the stored task is being processed and
      is, field by field, the task the carrier holds. */
  lemma AtMostOneCarrier(steps: seq<Step>, key: string, c: Carrier, c': Carrier)
    requires CurrentCarrier(Exec(Init, steps), key, c)
    ensures var s := Exec(Init, steps);
            Live(s.kv, key) && Stored(s.kv, key).processing && Carries(s, c, DecodeEntry(s.kv, key))
    ensures CurrentCarrier(Exec(Init, steps), key, c') ==> c == c'
  {
    ReachableInv(steps);
    CurrentCarrierHolds(Exec(Init, steps), key, c);
    if CurrentCarrier(Exec(Init, steps), key, c') {
      CurrentCarrierUnique(Exec(Init, steps), key, c, c');
    }
  }

  /** Over every run, a claimed revision is swapped away at most once and a
      deleted key comes back to life only through Schedule. */
  lemma FencedOverRuns(steps: seq<Step>, i: nat, j: nat)
    requires i < j < |Exec(Init, steps).kv|
    requires Exec(Init, steps).kv[i].key == Exec(Init, steps).kv[j].key && Exec(Init, steps).kv[j].Put?
    ensures var kv := Exec(Init, steps).kv;
            (kv[i].Put? && kv[i].cause != Scheduled && kv[j].cause != Scheduled)
              ==> kv[i].task.revision != kv[j].task.revision
    ensures var kv := Exec(Init, steps).kv;
            kv[i].Delete? ==>
              exists c: nat :: i < c <= j && kv[c].Put? && kv[c].key == kv[j].key && kv[c].cause == Scheduled
  {
    var kv := Exec(Init, steps).kv;
    ReachableInv(steps);
    if kv[i].Delete? {
      var c := NoRevival(kv, i, j);
    } else if kv[i].cause != Scheduled && kv[j].cause != Scheduled {
      RevisionSwappedOnce(kv, i, j);
    }
  }
}
