/** The JetStream key-value bucket POLLING_TASKS, as pkg/runstream/run_polling.go
    uses it. The bucket is a stream: its state is the sequence of all writes, a
    write's revision is its position counted from one, and deletes are writes. */
module KeyValue {
  import opened Strings

  /** TFRunPollingTask as it is encoded into the bucket and into messages. */
  datatype Task = Task(
    runId: string,
    lastStatus: string,
    nextPoll: int,
    processing: bool,
    lastUpdate: int,
    revision: nat)

  /** Which call produced a write. */
  datatype Cause = Scheduled | Claimed | Rescheduled

  datatype Deletion = Completed(status: string) | Dumped

  datatype Write =
    | Put(key: string, task: Task, cause: Cause)
    | Delete(key: string, reason: Deletion)

  type Bucket = seq<Write>

  /** Revision of the newest write to key, 0 when there is none. */
  function LastRev(kv: Bucket, key: string): (r: nat)
    ensures r <= |kv|
    ensures r > 0 ==> kv[r - 1].key == key
    ensures forall i :: r <= i < |kv| ==> kv[i].key != key
  {
    if kv == [] then 0
    else if kv[|kv| - 1].key == key then |kv|
    else LastRev(kv[..|kv| - 1], key)
  }

  /** The key holds a value. */
  predicate Live(kv: Bucket, key: string) {
    LastRev(kv, key) > 0 && kv[LastRev(kv, key) - 1].Put?
  }

  function Stored(kv: Bucket, key: string): Task
    requires Live(kv, key)
  {
    kv[LastRev(kv, key) - 1].task
  }

  /** KeyValue.Create: only on a key that is absent or deleted. */
  function Create(kv: Bucket, key: string, task: Task): Option<Bucket> {
    if Live(kv, key) then None else Some(kv + [Put(key, task, Scheduled)])
  }

  /** KeyValue.Update: compare-and-swap on the revision of the newest write. */
  function Update(kv: Bucket, key: string, task: Task, cause: Cause, last: nat): Option<Bucket> {
    if LastRev(kv, key) == last then Some(kv + [Put(key, task, cause)]) else None
  }

  lemma LastRevAppend(kv: Bucket, w: Write, key: string)
    ensures LastRev(kv + [w], key) == if w.key == key then |kv| + 1 else LastRev(kv, key)
  {
    assert (kv + [w])[..|kv|] == kv;
  }

  /** A key holds a value exactly if the newest write to it is not a delete. */
  lemma LiveIff(kv: Bucket, key: string)
    ensures Live(kv, key) <==>
            exists i: nat :: i < |kv| && kv[i].Put? && kv[i].key == key && forall j :: i < j < |kv| ==> kv[j].key != key
  {
    if Live(kv, key) {
      assert kv[LastRev(kv, key) - 1].key == key;
    }
  }

  // --------------------------------------------------------------- lifecycle

  /** w may be the next write after kv: a task is created on a dead key, is
      claimed only while idle, and is rescheduled only by the claim that is the
      newest write to its key; both compare-and-swap writes record the revision
      they replace. */
  ghost predicate Legal(kv: Bucket, w: Write) {
    var prev := LastRev(kv, w.key);
    match w
    case Delete(_, _) => true
    case Put(key, task, Scheduled) =>
      task.runId == key && !task.processing && task.lastStatus == "new" && !Live(kv, key)
    case Put(key, task, Claimed) =>
      task.runId == key && task.processing
      && Live(kv, key) && task.revision == prev && kv[prev - 1].cause != Claimed
      && task.lastStatus == kv[prev - 1].task.lastStatus
    case Put(key, task, Rescheduled) =>
      task.runId == key && !task.processing
      && Live(kv, key) && task.revision == prev && kv[prev - 1].cause == Claimed
  }

  ghost predicate LegalAt(kv: Bucket, i: nat)
    requires i < |kv|
  {
    Legal(kv[..i], kv[i])
  }

  /** Every write was legal when it was made. */
  ghost predicate Lawful(kv: Bucket) {
    forall i: nat :: i < |kv| ==> LegalAt(kv, i)
  }

  lemma LawfulAppend(kv: Bucket, w: Write)
    requires Lawful(kv) && Legal(kv, w)
    ensures Lawful(kv + [w])
  {
    forall i: nat | i < |kv| + 1
      ensures LegalAt(kv + [w], i)
    {
      assert (kv + [w])[..i] == kv[..i];
      if i == |kv| {
        assert kv[..i] == kv;
      } else {
        assert LegalAt(kv, i);
      }
    }
  }

  lemma ClaimedIffProcessing(kv: Bucket, i: nat)
    requires Lawful(kv) && i < |kv| && kv[i].Put?
    ensures kv[i].task.runId == kv[i].key
    ensures kv[i].cause == Claimed <==> kv[i].task.processing
  {
    assert LegalAt(kv, i);
  }

  /** The write a compare-and-swap replaced: the newest one to its key. */
  lemma Predecessor(kv: Bucket, j: nat)
    requires Lawful(kv) && j < |kv| && kv[j].Put? && kv[j].cause != Scheduled
    ensures var p := kv[j].task.revision;
            && 0 < p <= j && kv[p - 1].Put? && kv[p - 1].key == kv[j].key
            && forall m :: p <= m < j ==> kv[m].key != kv[j].key
  {
    var before := kv[..j];
    assert LegalAt(kv, j);
    var p := LastRev(before, kv[j].key);
    assert before[p - 1] == kv[p - 1];
    assert forall m :: p <= m < j ==> kv[m] == before[m];
  }

  /** Fencing: a revision is swapped away at most once, however many holders of
      it retry. */
  lemma RevisionSwappedOnce(kv: Bucket, i: nat, j: nat)
    requires Lawful(kv) && i < j < |kv|
    requires kv[i].Put? && kv[j].Put? && kv[i].key == kv[j].key
    requires kv[i].cause != Scheduled && kv[j].cause != Scheduled
    ensures kv[i].task.revision < i + 1 <= kv[j].task.revision
  {
    Predecessor(kv, i);
    Predecessor(kv, j);
  }

  /** A late claim or reschedule never revives a task: once a key is deleted,
      the next value written to it comes from Schedule. */
  lemma {:induction false} NoRevival(kv: Bucket, i: nat, j: nat) returns (c: nat)
    requires Lawful(kv) && i < j < |kv|
    requires kv[i].Delete? && kv[j].Put? && kv[i].key == kv[j].key
    ensures i < c <= j && kv[c].Put? && kv[c].key == kv[j].key && kv[c].cause == Scheduled
    decreases j
  {
    c := j;
    if kv[j].cause != Scheduled {
      Predecessor(kv, j);
      c := NoRevival(kv, i, kv[j].task.revision - 1);
    }
  }
}
