/** pkg/runstream/run_polling.go and pkg/tfc_hooks/polling.go as they are
    written: task objects updated in place, the dispatcher loop and the message
    handler. Each is proved to take exactly the protocol steps it stands for. */
module RunPolling {
  import opened Strings
  import opened KeyValue
  import opened PollingProtocol

  /** runstream.Stream with the JetStream state it reaches. */
  class Stream {
    var kv: Bucket
    var queue: map<nat, Task>
    var nextMsg: nat
    var events: seq<Event>

    constructor ()
      ensures Shows(Init)
    {
      kv, queue, nextMsg, events := [], map[], 0, [];
    }

    ghost predicate Shows(s: State)
      reads this
    {
      s.kv == kv && s.queue == queue && s.nextMsg == nextMsg && s.events == events
    }

    method KvCreate(key: string, task: Task, reply: Reply) returns (rev: Option<nat>)
      modifies this`kv
      ensures kv == if reply.Failed? then old(kv) else Create(old(kv), key, task).GetOr(old(kv))
      ensures rev == if reply.Seen? && !Live(old(kv), key) then Some(|kv|) else None
    {
      rev := None;
      if reply != Failed && !Live(kv, key) {
        kv := kv + [Put(key, task, Scheduled)];
        if reply == Seen { rev := Some(|kv|); }
      }
    }

    method KvUpdate(key: string, task: Task, last: nat, reply: Reply) returns (rev: Option<nat>)
      modifies this`kv
      ensures kv == if reply.Failed? then old(kv) else Update(old(kv), key, task, SwapCause(task), last).GetOr(old(kv))
      ensures rev == if reply.Seen? && LastRev(old(kv), key) == last then Some(|kv|) else None
    {
      rev := None;
      if reply != Failed && LastRev(kv, key) == last {
        kv := kv + [Put(key, task, SwapCause(task))];
        if reply == Seen { rev := Some(|kv|); }
      }
    }

    method KvDelete(key: string, reason: Deletion, reply: Reply) returns (ok: bool)
      modifies this`kv
      ensures kv == if reply.Failed? then old(kv) else old(kv) + [Delete(key, reason)]
      ensures ok <==> reply.Seen?
    {
      if reply != Failed {
        kv := kv + [Delete(key, reason)];
      }
      ok := reply == Seen;
    }

    method PublishTask(task: Task)
      modifies this`queue, this`nextMsg
      ensures queue == old(queue)[old(nextMsg) := task] && nextMsg == old(nextMsg) + 1
    {
      queue := queue[nextMsg := task];
      nextMsg := nextMsg + 1;
    }

    method PublishTFRunEvent(e: Event, reply: Reply) returns (ok: bool)
      modifies this`events
      ensures events == if reply.Failed? then old(events) else old(events) + [e]
      ensures ok <==> reply.Seen?
    {
      if reply != Failed {
        events := events + [e];
      }
      ok := reply == Seen;
    }
  }

  /** A compare-and-swap stores a claim or a reschedule, told apart by Processing. */
  function SwapCause(task: Task): Cause {
    if task.processing then Claimed else Rescheduled
  }

  class TFRunPollingTask {
    const stream: Stream
    const runId: string
    var lastStatus: string
    var nextPoll: int
    var processing: bool
    var lastUpdate: int
    var revision: nat

    function Encode(): Task
      reads this
    {
      Task(runId, lastStatus, nextPoll, processing, lastUpdate, revision)
    }

    /** NewTFRunPollingTask. */
    constructor New(stream: Stream, runId: string, delay: int, now: int)
      ensures this.stream == stream && Encode() == NewTask(runId, delay, now)
      ensures nextPoll == now + (if delay < 1 then 10 else delay) && lastStatus == "new" && !processing
    {
      this.stream, this.runId := stream, runId;
      lastStatus, processing, lastUpdate, revision := "new", false, now, 0;
      nextPoll := now + POLLING_DELAY_DEFAULT;
      if delay >= POLLING_DELAY_MINIMUM {
        nextPoll := now + delay;
      }
    }

    /** decodeTFRunPollingTask. */
    constructor Decode(stream: Stream, b: Task)
      ensures this.stream == stream && Encode() == b
    {
      this.stream, this.runId := stream, b.runId;
      lastStatus, nextPoll, processing, lastUpdate, revision :=
        b.lastStatus, b.nextPoll, b.processing, b.lastUpdate, b.revision;
    }

    /** decodeTFRunPollingTaskKVEntry: the entry's revision wins. */
    constructor DecodeKVEntry(stream: Stream, key: string)
      requires Live(stream.kv, key)
      ensures this.stream == stream && Encode() == DecodeEntry(stream.kv, key)
    {
      var b := Stored(stream.kv, key);
      this.stream, this.runId := stream, b.runId;
      lastStatus, nextPoll, processing, lastUpdate := b.lastStatus, b.nextPoll, b.processing, b.lastUpdate;
      revision := LastRev(stream.kv, key);
    }

    method Schedule(reply: Reply) returns (ok: bool)
      modifies this`revision, stream`kv
      ensures stream.kv == if reply.Failed? then old(stream.kv) else
                Create(old(stream.kv), runId, old(Encode())).GetOr(old(stream.kv))
      ensures ok <==> reply.Seen? && !Live(old(stream.kv), runId)
      ensures revision == if ok then |stream.kv| else 0
    {
      var rev := stream.KvCreate(runId, Encode(), reply);
      ok := rev.Some?;
      revision := rev.GetOr(0);
    }

    /** The value is encoded before the swap and so carries the revision it
        replaces; the object takes the new revision only afterwards. */
    method update(now: int, reply: Reply) returns (ok: bool)
      modifies this`lastUpdate, this`revision, stream`kv
      ensures var b := old(Encode()).(lastUpdate := now);
              && stream.kv == (if reply.Failed? then old(stream.kv)
                               else Update(old(stream.kv), runId, b, SwapCause(b), b.revision).GetOr(old(stream.kv)))
              && (ok <==> reply.Seen? && LastRev(old(stream.kv), runId) == b.revision)
              && Encode() == if ok then b.(revision := |stream.kv|) else b
    {
      lastUpdate := now;
      var b := Encode();
      var rev := stream.KvUpdate(runId, b, revision, reply);
      ok := rev.Some?;
      if ok {
        revision := rev.value;
      }
    }

    method Reschedule(now: int, reply: Reply) returns (ok: bool)
      modifies this, stream`kv
      ensures var b := old(Encode()).(nextPoll := now + 10, processing := false, lastUpdate := now);
              && stream.kv == (if reply.Failed? then old(stream.kv)
                               else Update(old(stream.kv), runId, b, Rescheduled, b.revision).GetOr(old(stream.kv)))
              && (ok <==> reply.Seen? && LastRev(old(stream.kv), runId) == b.revision)
              && Encode() == if ok then b.(revision := |stream.kv|) else b
    {
      nextPoll := now + POLLING_DELAY_DEFAULT;
      processing := false;
      ok := update(now, reply);
    }

    /** status labels the delete in the log; the code deletes unconditionally. */
    method Completed(status: string, reply: Reply) returns (ok: bool)
      modifies stream`kv
      ensures stream.kv == if reply.Failed? then old(stream.kv)
                           else old(stream.kv) + [Delete(runId, Deletion.Completed(status))]
      ensures ok <==> reply.Seen?
    {
      ok := stream.KvDelete(runId, Deletion.Completed(status), reply);
    }

    method SetLastStatus(status: string)
      modifies this`lastStatus
      ensures Encode() == old(Encode()).(lastStatus := status)
    {
      lastStatus := status;
    }
  }

  // -------------------------------------------------------------- dispatcher

  /** What the environment answers during one turn over a key. */
  datatype Turn = Turn(readable: bool, corrupt: bool, deleted: Reply, now: int, update: Reply, published: bool)

  /** The protocol steps of one turn of dispatcher d over key. */
  function TurnSteps(kv: Bucket, d: nat, key: string, turn: Turn): seq<Step> {
    if !turn.readable || !Live(kv, key) then []
    else if turn.corrupt then
      [FetchCorrupt(d, key), if turn.deleted.Failed? then DropDispatcher(d) else Dump(d)]
    else
      var task := DecodeEntry(kv, key);
      if !Ready(task, turn.now) then [Fetch(d, key), Claim(d, turn.now)]
      else
        match turn.update
        case Failed => [Fetch(d, key), DropDispatcher(d)]
        case Unseen => [Fetch(d, key), ClaimUnseen(d, turn.now)]
        case Seen =>
          if LastRev(kv, task.runId) != task.revision then [Fetch(d, key), Claim(d, turn.now)]
          else [Fetch(d, key), Claim(d, turn.now), if turn.published then Publish(d) else DropDispatcher(d)]
  }

  /** The bucket after one turn over key. */
  function TurnBucket(kv: Bucket, key: string, turn: Turn): Bucket {
    if !turn.readable || !Live(kv, key) then kv
    else if turn.corrupt then if turn.deleted.Failed? then kv else kv + [Delete(key, Dumped)]
    else
      var task := DecodeEntry(kv, key);
      if !Ready(task, turn.now) || turn.update.Failed? then kv
      else Update(kv, task.runId, ClaimedTask(task, turn.now), Claimed, task.revision).GetOr(kv)
  }

  /** The message one turn over key publishes: the claimed task as the claim's
      own revision. */
  function TurnMessage(kv: Bucket, key: string, turn: Turn): Option<Task> {
    if !turn.readable || !Live(kv, key) || turn.corrupt then None
    else
      var task := DecodeEntry(kv, key);
      if Ready(task, turn.now) && turn.update.Seen? && LastRev(kv, task.runId) == task.revision && turn.published
      then Some(ClaimedTask(task, turn.now).(revision := |kv| + 1))
      else None
  }

  /** s1 is s0 after one turn over key, with the dispatcher idle again. */
  ghost predicate AfterTurn(s0: State, d: nat, key: string, turn: Turn, s1: State) {
    && DispatcherOf(s1, d).Idle? && s1.events == s0.events
    && s1.kv == TurnBucket(s0.kv, key, turn)
    && match TurnMessage(s0.kv, key, turn)
       case Some(t) => s1.queue == s0.queue[s0.nextMsg := t] && s1.nextMsg == s0.nextMsg + 1
       case None => s1.queue == s0.queue && s1.nextMsg == s0.nextMsg
  }

  lemma TurnEffect(s0: State, d: nat, key: string, turn: Turn)
    requires DispatcherOf(s0, d).Idle?
    ensures AfterTurn(s0, d, key, turn, Exec(s0, TurnSteps(s0.kv, d, key, turn)))
  {
    if turn.readable && Live(s0.kv, key) {
      if turn.corrupt {
        CorruptTurnEffect(s0, d, key, turn);
      } else {
        DecodedTurnEffect(s0, d, key, turn);
      }
    }
  }

  lemma CorruptTurnEffect(s0: State, d: nat, key: string, turn: Turn)
    requires DispatcherOf(s0, d).Idle? && turn.readable && Live(s0.kv, key) && turn.corrupt
    ensures AfterTurn(s0, d, key, turn, Exec(s0, TurnSteps(s0.kv, d, key, turn)))
  {
    ExecShort(s0, TurnSteps(s0.kv, d, key, turn));
    assert Apply(s0, FetchCorrupt(d, key)) == WithDispatcher(s0, d, Dumping(key));
  }

  lemma DecodedTurnEffect(s0: State, d: nat, key: string, turn: Turn)
    requires DispatcherOf(s0, d).Idle? && turn.readable && Live(s0.kv, key) && !turn.corrupt
    ensures AfterTurn(s0, d, key, turn, Exec(s0, TurnSteps(s0.kv, d, key, turn)))
  {
    var task := DecodeEntry(s0.kv, key);
    var steps := TurnSteps(s0.kv, d, key, turn);
    var s1 := WithDispatcher(s0, d, Read(task));
    FetchFirst(s0, d, key, steps);
    if Ready(task, turn.now) && turn.update.Seen? && LastRev(s0.kv, task.runId) == task.revision {
      PublishedTurnEffect(s0, s1, d, key, turn);
    } else {
      UnpublishedTurnEffect(s0, s1, d, key, turn);
    }
  }

  lemma FetchFirst(s0: State, d: nat, key: string, steps: seq<Step>)
    requires DispatcherOf(s0, d).Idle? && Live(s0.kv, key) && steps != [] && steps[0] == Fetch(d, key)
    ensures Exec(s0, steps) == Exec(WithDispatcher(s0, d, Read(DecodeEntry(s0.kv, key))), steps[1..])
  {
    assert steps == [steps[0]] + steps[1..];
    ExecSplits(s0, [steps[0]], steps[1..]);
    ExecShort(s0, [steps[0]]);
  }

  lemma UnpublishedTurnEffect(s0: State, s1: State, d: nat, key: string, turn: Turn)
    requires turn.readable && Live(s0.kv, key) && !turn.corrupt
    requires var task := DecodeEntry(s0.kv, key);
             s1 == WithDispatcher(s0, d, Read(task))
             && !(Ready(task, turn.now) && turn.update.Seen? && LastRev(s0.kv, task.runId) == task.revision)
    ensures AfterTurn(s0, d, key, turn, Exec(s1, TurnSteps(s0.kv, d, key, turn)[1..]))
  {
    var step := TurnSteps(s0.kv, d, key, turn)[1];
    assert TurnSteps(s0.kv, d, key, turn)[1..] == [step];
    ExecShort(s1, [step]);
    ClaimEffect(s1, d, turn.now, turn.update.Seen?);
  }

  lemma PublishedTurnEffect(s0: State, s1: State, d: nat, key: string, turn: Turn)
    requires turn.readable && Live(s0.kv, key) && !turn.corrupt && turn.update.Seen?
    requires var task := DecodeEntry(s0.kv, key);
             s1 == WithDispatcher(s0, d, Read(task)) && Ready(task, turn.now)
             && LastRev(s0.kv, task.runId) == task.revision
    ensures AfterTurn(s0, d, key, turn, Exec(s1, TurnSteps(s0.kv, d, key, turn)[1..]))
  {
    var steps := TurnSteps(s0.kv, d, key, turn)[1..];
    assert steps == [Claim(d, turn.now), if turn.published then Publish(d) else DropDispatcher(d)];
    ExecShort(s1, steps);
    ClaimEffect(s1, d, turn.now, true);
  }

  lemma ClaimEffect(s: State, d: nat, now: int, seen: bool)
    requires DispatcherOf(s, d).Read?
    ensures var s', t := ApplyClaim(s, d, now, seen), DispatcherOf(s, d).task;
            var swapped := Ready(t, now) && LastRev(s.kv, t.runId) == t.revision;
            && s'.queue == s.queue && s'.nextMsg == s.nextMsg && s'.events == s.events
            && s'.kv == (if swapped then s.kv + [Put(t.runId, ClaimedTask(t, now), Claimed)] else s.kv)
            && DispatcherOf(s', d) ==
               if swapped && seen then Holding(ClaimedTask(t, now).(revision := |s.kv| + 1)) else Idle
  {
  }

  /** In a reachable state a turn with no failing call claims and publishes the stored
      task exactly if it is unclaimed and due, and otherwise changes nothing: the
      message is the stored task, claimed, with the claim's own revision. */
  lemma DueTaskIsPolled(s0: State, d: nat, key: string, now: int)
    requires Inv(s0) && DispatcherOf(s0, d).Idle? && Live(s0.kv, key)
    ensures var t := s0.kv[LastRev(s0.kv, key) - 1].task;
            var claimed := t.(processing := true, lastUpdate := now, revision := LastRev(s0.kv, key));
            var s1 := Exec(s0, TurnSteps(s0.kv, d, key, Turn(true, false, Seen, now, Seen, true)));
            if !t.processing && t.nextPoll < now
            then s1.kv == s0.kv + [Put(key, claimed, Claimed)]
                 && s1.queue == s0.queue[s0.nextMsg := claimed.(revision := |s0.kv| + 1)]
            else s1.kv == s0.kv && s1.queue == s0.queue
  {
    DueIsClaimed(s0.kv, key, now);
    TurnEffect(s0, d, key, Turn(true, false, Seen, now, Seen, true));
  }

  lemma DueIsClaimed(kv: Bucket, key: string, now: int)
    requires Lawful(kv) && Live(kv, key)
    ensures var t, turn := kv[LastRev(kv, key) - 1].task, Turn(true, false, Seen, now, Seen, true);
            var claimed := t.(processing := true, lastUpdate := now, revision := LastRev(kv, key));
            if !t.processing && t.nextPoll < now
            then TurnBucket(kv, key, turn) == kv + [Put(key, claimed, Claimed)]
                 && TurnMessage(kv, key, turn) == Some(claimed.(revision := |kv| + 1))
            else TurnBucket(kv, key, turn) == kv && TurnMessage(kv, key, turn) == None
  {
    ClaimedIffProcessing(kv, LastRev(kv, key) - 1);
  }

  /** An entry that cannot be decoded is deleted. */
  lemma CorruptEntryIsDumped(s0: State, d: nat, key: string, turn: Turn)
    requires DispatcherOf(s0, d).Idle? && Live(s0.kv, key) && turn.readable && turn.corrupt
    ensures var s1 := Exec(s0, TurnSteps(s0.kv, d, key, turn));
            s1.kv == (if turn.deleted == Failed then s0.kv else s0.kv + [Delete(key, Dumped)]) && s1.queue == s0.queue
  {
    TurnEffect(s0, d, key, turn);
  }

  /** The body of the dispatcher's loop over keys. */
  method DispatchKey(s: Stream, key: string, turn: Turn, d: nat, ghost s0: State)
    requires s.Shows(s0) && DispatcherOf(s0, d).Idle?
    modifies s
    ensures var s1 := Exec(s0, TurnSteps(s0.kv, d, key, turn));
            s.Shows(s1) && DispatcherOf(s1, d).Idle?
  {
    TurnEffect(s0, d, key, turn);
    if !turn.readable || !Live(s.kv, key) {
      return;
    }
    if turn.corrupt {
      var _ := s.KvDelete(key, Dumped, turn.deleted);
      return;
    }
    var task := new TFRunPollingTask.DecodeKVEntry(s, key);
    DispatchTask(task, turn);
  }

  /** Claim a decoded task that is ready, then publish it: the message is encoded
      after the swap, so it carries the claim's own revision. */
  method DispatchTask(task: TFRunPollingTask, turn: Turn)
    modifies task, task.stream
    ensures var s, t := task.stream, old(task.Encode());
            var claimed := t.(processing := true, lastUpdate := turn.now);
            var swaps := !t.processing && t.nextPoll < turn.now && LastRev(old(s.kv), t.runId) == t.revision;
            && s.kv == (if swaps && !turn.update.Failed?
                        then old(s.kv) + [Put(t.runId, claimed, Claimed)] else old(s.kv))
            && s.events == old(s.events)
            && if swaps && turn.update.Seen? && turn.published
               then s.queue == old(s.queue)[old(s.nextMsg) := claimed.(revision := |old(s.kv)| + 1)]
                    && s.nextMsg == old(s.nextMsg) + 1
               else s.queue == old(s.queue) && s.nextMsg == old(s.nextMsg)
    ensures var s, t := task.stream, old(task.Encode());
            task.Encode() == if !Ready(t, turn.now) then t
                             else if turn.update.Seen? && LastRev(old(s.kv), t.runId) == t.revision
                             then ClaimedTask(t, turn.now).(revision := |old(s.kv)| + 1)
                             else ClaimedTask(t, turn.now)
  {
    if !task.processing && turn.now > task.nextPoll {
      task.processing := true;
      var ok := task.update(turn.now, turn.update);
      if ok {
        if turn.published {
          task.stream.PublishTask(task.Encode());
        }
      }
    }
  }

  lemma ExecShort(s: State, steps: seq<Step>)
    ensures |steps| == 0 ==> Exec(s, steps) == s
    ensures |steps| == 1 ==> Exec(s, steps) == Apply(s, steps[0])
    ensures |steps| == 2 ==> Exec(s, steps) == Apply(Apply(s, steps[0]), steps[1])
    ensures |steps| == 3 ==> Exec(s, steps) == Apply(Apply(Apply(s, steps[0]), steps[1]), steps[2])
  {
    if 0 < |steps| <= 3 {
      ExecShort(s, steps[..|steps| - 1]);
    }
  }

  /** One pass over the keys listed at its start takes protocol steps of
      dispatcher d only, and leaves it idle. */
  method DispatcherPass(s: Stream, keys: seq<string>, turns: seq<Turn>, d: nat, ghost s0: State)
    returns (ghost steps: seq<Step>)
    requires |turns| == |keys|
    requires s.Shows(s0) && DispatcherOf(s0, d).Idle?
    modifies s
    ensures s.Shows(Exec(s0, steps)) && DispatcherOf(Exec(s0, steps), d).Idle?
    ensures steps == PassSteps(s0, d, keys, turns)
  {
    steps := [];
    var i := 0;
    while i < |keys|
      invariant 0 <= i <= |keys|
      invariant s.Shows(Exec(s0, steps)) && DispatcherOf(Exec(s0, steps), d).Idle?
      invariant steps == PassSteps(s0, d, keys[..i], turns[..i])
    {
      DispatchKey(s, keys[i], turns[i], d, Exec(s0, steps));
      PassStepsSnoc(s0, d, keys, turns, i);
      steps := steps + TurnSteps(Exec(s0, steps).kv, d, keys[i], turns[i]);
      i := i + 1;
    }
    assert keys[..i] == keys && turns[..i] == turns;
  }

  lemma PassStepsSnoc(s0: State, d: nat, keys: seq<string>, turns: seq<Turn>, i: nat)
    requires |turns| == |keys| && i < |keys|
    ensures var before := PassSteps(s0, d, keys[..i], turns[..i]);
            var turn := TurnSteps(Exec(s0, before).kv, d, keys[i], turns[i]);
            && PassSteps(s0, d, keys[..i + 1], turns[..i + 1]) == before + turn
            && Exec(s0, before + turn) == Exec(Exec(s0, before), turn)
  {
    var before := PassSteps(s0, d, keys[..i], turns[..i]);
    ExecSplits(s0, before, TurnSteps(Exec(s0, before).kv, d, keys[i], turns[i]));
    assert keys[..i + 1][..i] == keys[..i] && turns[..i + 1][..i] == turns[..i];
  }

  ghost function PassSteps(s0: State, d: nat, keys: seq<string>, turns: seq<Turn>): seq<Step>
    requires |turns| == |keys|
  {
    if keys == [] then []
    else
      var n := |keys| - 1;
      var before := PassSteps(s0, d, keys[..n], turns[..n]);
      before + TurnSteps(Exec(s0, before).kv, d, keys[n], turns[n])
  }

  // ------------------------------------------------------------------ worker

  /** What the environment answers during one message callback; run is the
      status the API reports, None when it cannot be read. */
  datatype Poll = Poll(run: Option<string>, emit: Reply, finish: Reply, now: int)

  /** The protocol steps of the callback of worker w on task. */
  function CallbackSteps(task: Task, w: nat, poll: Poll): seq<Step> {
    if poll.run.None? then []
    else
      var emit := if poll.run.value == task.lastStatus then Seen else poll.emit;
      match emit
      case Failed => [Observe(w, poll.run.value)]
      case Unseen => [Observe(w, poll.run.value), EmitUnseen(w)]
      case Seen => [Observe(w, poll.run.value), Emit(w),
                    if poll.finish.Failed? then FinishError(w) else Finish(w, poll.now)]
  }

  /** The callback answers true: the message may be acknowledged. */
  predicate Acked(task: Task, poll: Poll) {
    poll.run.Some? && (poll.run.value == task.lastStatus || poll.emit.Seen?)
  }

  function CallbackEvents(events: seq<Event>, task: Task, poll: Poll): seq<Event> {
    if poll.run.None? || poll.run.value == task.lastStatus || poll.emit.Failed? then events
    else events + [Event(task.runId, poll.run.value)]
  }

  function CallbackBucket(kv: Bucket, task: Task, poll: Poll): Bucket {
    if !Acked(task, poll) || poll.finish.Failed? then kv
    else FinishBucket(kv, task, poll.run.value, poll.now)
  }

  /** The task object after the callback: a rescheduled one has the status it was
      seen with, and the new revision if the swap is known to have landed. */
  function CallbackTask(kv: Bucket, task: Task, poll: Poll): Task {
    if !Acked(task, poll) || !IsRunning(poll.run.value) then task
    else
      var next := RescheduledTask(task, poll.run.value, poll.now);
      if poll.finish.Seen? && LastRev(kv, task.runId) == task.revision then next.(revision := |kv| + 1) else next
  }

  /** What the callback's steps do, and where they leave the worker: finished
      exactly if it may acknowledge. */
  lemma CallbackEffect(s0: State, w: nat, poll: Poll)
    requires WorkerOf(s0, w).Got?
    ensures var pc := WorkerOf(s0, w);
            var s1 := Exec(s0, CallbackSteps(pc.task, w, poll));
            && s1.queue == s0.queue && s1.nextMsg == s0.nextMsg
            && s1.kv == CallbackBucket(s0.kv, pc.task, poll)
            && s1.events == CallbackEvents(s0.events, pc.task, poll)
            && (Acked(pc.task, poll) ==> WorkerOf(s1, w) == Finished(pc.msg, pc.task))
  {
    var pc := WorkerOf(s0, w);
    if poll.run.Some? {
      var s1 := WithWorker(s0, w, Observed(pc.msg, pc.task, poll.run.value));
      var steps := CallbackSteps(pc.task, w, poll);
      assert Apply(s0, Observe(w, poll.run.value)) == s1;
      assert steps == [steps[0]] + steps[1..];
      ExecSplits(s0, [steps[0]], steps[1..]);
      ExecShort(s0, [steps[0]]);
      ObservedEffect(s1, w, poll);
    }
  }

  lemma ObservedEffect(s1: State, w: nat, poll: Poll)
    requires WorkerOf(s1, w).Observed? && poll.run == Some(WorkerOf(s1, w).status)
    ensures var pc := WorkerOf(s1, w);
            var s2 := Exec(s1, CallbackSteps(pc.task, w, poll)[1..]);
            && s2.queue == s1.queue && s2.nextMsg == s1.nextMsg
            && s2.kv == CallbackBucket(s1.kv, pc.task, poll)
            && s2.events == CallbackEvents(s1.events, pc.task, poll)
            && (Acked(pc.task, poll) ==> WorkerOf(s2, w) == Finished(pc.msg, pc.task))
  {
    var pc := WorkerOf(s1, w);
    ExecShort(s1, CallbackSteps(pc.task, w, poll)[1..]);
    EmitEffect(s1, w, Acked(pc.task, poll));
  }

  lemma EmitEffect(s: State, w: nat, seen: bool)
    requires WorkerOf(s, w).Observed?
    ensures var s', pc := ApplyEmit(s, w, seen), WorkerOf(s, w);
            && s'.kv == s.kv && s'.queue == s.queue && s'.nextMsg == s.nextMsg
            && s'.events ==
               (if pc.status == pc.task.lastStatus then s.events else s.events + [Event(pc.task.runId, pc.status)])
            && WorkerOf(s', w) == if seen then Emitted(pc.msg, pc.task, pc.status) else Waiting
  {
  }

  /** pollingStreamCallback. */
  method PollingStreamCallback(task: TFRunPollingTask, poll: Poll) returns (ack: bool)
    modifies task, task.stream
    ensures task.stream.kv == CallbackBucket(old(task.stream.kv), old(task.Encode()), poll)
    ensures task.stream.events == CallbackEvents(old(task.stream.events), old(task.Encode()), poll)
    ensures task.stream.queue == old(task.stream.queue) && task.stream.nextMsg == old(task.stream.nextMsg)
    ensures ack <==> Acked(old(task.Encode()), poll)
    ensures task.Encode() == CallbackTask(old(task.stream.kv), old(task.Encode()), poll)
    ensures var t, status := old(task.Encode()), poll.run;
            && (ack <==> status.Some? && (status.value == t.lastStatus || poll.emit == Seen))
            && task.stream.events == old(task.stream.events) +
               if status.Some? && status.value != t.lastStatus && poll.emit != Failed
               then [Event(t.runId, status.value)] else []
    ensures var t, kv := old(task.Encode()), old(task.stream.kv);
            var running := {"apply_queued", "applying", "cost_estimating", "plan_queued", "policy_checking",
                            "planning", "pending"};
            var again := t.(lastStatus := poll.run.GetOr(""), nextPoll := poll.now + 10, processing := false,
                            lastUpdate := poll.now);
            task.stream.kv == if !ack || poll.finish == Failed then kv
                              else if poll.run.value !in running then
                                kv + [Delete(t.runId, Deletion.Completed(poll.run.value))]
                              else if LastRev(kv, t.runId) == t.revision then kv + [Put(t.runId, again, Rescheduled)]
                              else kv
  {
    if poll.run.None? {
      return false;
    }
    var status := poll.run.value;
    if status != task.lastStatus {
      var ok := task.stream.PublishTFRunEvent(Event(task.runId, status), poll.emit);
      if !ok {
        return false;
      }
    }
    if IsRunning(status) {
      task.SetLastStatus(status);
      var _ := task.Reschedule(poll.now, poll.finish);
    } else {
      var _ := task.Completed(status, poll.finish);
    }
    return true;
  }

  /** The message handler of SubscribeTFRunPollingTasks: the message leaves the
      queue only if the callback said so and the acknowledgement got through. */
  method HandleMessage(s: Stream, msg: nat, inProgress: bool, poll: Poll, acked: bool, w: nat, ghost s0: State)
    requires s.Shows(s0) && msg in s.queue && WorkerOf(s0, w).Waiting?
    modifies s
    ensures s.Shows(Exec(s0, HandleSteps(s0.queue[msg], w, msg, inProgress, poll, acked)))
    ensures msg in s.queue <==> !(inProgress && Acked(old(s.queue)[msg], poll) && acked)
    ensures s.queue ==
            if inProgress && Acked(old(s.queue)[msg], poll) && acked then old(s.queue) - {msg} else old(s.queue)
  {
    if inProgress {
      HandleEffect(s0, w, msg, poll, acked);
    } else {
      DroppedEffect(s0, w, msg, poll, acked);
    }
    var task := new TFRunPollingTask.Decode(s, s.queue[msg]);
    if !inProgress {
      return;
    }
    var ack := PollingStreamCallback(task, poll);
    if ack {
      if acked {
        s.queue := s.queue - {msg};
      }
    }
  }

  function HandleSteps(b: Task, w: nat, msg: nat, inProgress: bool, poll: Poll, acked: bool): seq<Step> {
    [Deliver(w, msg)] + if inProgress then CalledSteps(b, w, poll, acked) else [DropWorker(w)]
  }

  function CalledSteps(b: Task, w: nat, poll: Poll, acked: bool): seq<Step> {
    CallbackSteps(b, w, poll) + [Last(b, w, poll, acked)]
  }

  function Last(b: Task, w: nat, poll: Poll, acked: bool): Step {
    if Acked(b, poll) && acked then Acknowledge(w) else DropWorker(w)
  }

  lemma DeliverEffect(s0: State, w: nat, msg: nat)
    requires msg in s0.queue && WorkerOf(s0, w).Waiting?
    ensures Exec(s0, [Deliver(w, msg)]) == WithWorker(s0, w, Got(msg, s0.queue[msg]))
  {
    ExecShort(s0, [Deliver(w, msg)]);
  }

  /** What is left of b's message after the last step, in a queue that held it. */
  function HandledQueue(queue: map<nat, Task>, msg: nat, b: Task, poll: Poll, acked: bool): map<nat, Task> {
    if Acked(b, poll) && acked then queue - {msg} else queue
  }

  lemma LastEffect(s: State, w: nat, msg: nat, b: Task, poll: Poll, acked: bool)
    requires Acked(b, poll) ==> WorkerOf(s, w) == Finished(msg, b)
    ensures var s' := Apply(s, Last(b, w, poll, acked));
            && s'.kv == s.kv && s'.events == s.events && s'.nextMsg == s.nextMsg
            && s'.queue == HandledQueue(s.queue, msg, b, poll, acked)
  {
  }

  lemma CalledEffect(s1: State, w: nat, poll: Poll, acked: bool)
    requires WorkerOf(s1, w).Got?
    ensures var pc := WorkerOf(s1, w);
            var s2 := Exec(s1, CalledSteps(pc.task, w, poll, acked));
            && s2.nextMsg == s1.nextMsg
            && s2.kv == CallbackBucket(s1.kv, pc.task, poll)
            && s2.events == CallbackEvents(s1.events, pc.task, poll)
            && s2.queue == HandledQueue(s1.queue, pc.msg, pc.task, poll, acked)
  {
    var pc := WorkerOf(s1, w);
    var steps := CallbackSteps(pc.task, w, poll);
    CallbackEffect(s1, w, poll);
    LastEffect(Exec(s1, steps), w, pc.msg, pc.task, poll, acked);
    ExecSnoc(s1, steps, Last(pc.task, w, poll, acked));
  }

  /** The handler's steps with a failed in-progress call change nothing. */
  lemma DroppedEffect(s0: State, w: nat, msg: nat, poll: Poll, acked: bool)
    requires msg in s0.queue && WorkerOf(s0, w).Waiting?
    ensures var s1 := Exec(s0, HandleSteps(s0.queue[msg], w, msg, false, poll, acked));
            && s1.nextMsg == s0.nextMsg && s1.kv == s0.kv && s1.events == s0.events && s1.queue == s0.queue
  {
    DeliverEffect(s0, w, msg);
    ExecSnoc(s0, [Deliver(w, msg)], DropWorker(w));
  }

  /** Otherwise they do what the callback does, and take the message away
      exactly if it was acknowledged. */
  lemma HandleEffect(s0: State, w: nat, msg: nat, poll: Poll, acked: bool)
    requires msg in s0.queue && WorkerOf(s0, w).Waiting?
    ensures var b := s0.queue[msg];
            var s1 := Exec(s0, HandleSteps(b, w, msg, true, poll, acked));
            && s1.nextMsg == s0.nextMsg
            && s1.kv == CallbackBucket(s0.kv, b, poll)
            && s1.events == CallbackEvents(s0.events, b, poll)
            && s1.queue == HandledQueue(s0.queue, msg, b, poll, acked)
  {
    var b := s0.queue[msg];
    DeliverEffect(s0, w, msg);
    CalledEffect(WithWorker(s0, w, Got(msg, b)), w, poll, acked);
    ExecSplits(s0, [Deliver(w, msg)], CalledSteps(b, w, poll, acked));
  }
}
