/** pkg/tfc_trigger/workspace_stream.go and workspace_worker.go: the fan-out
    queue with its deduplication key, and the worker that drains it. */
module WorkspaceStream {
  import opened Strings
  import opened ProjectConfig

  datatype TriggerOptions = TriggerOptions(deliveryID: string, project: string, mr: nat, vcsProvider: string)

  datatype TriggerMsg = TriggerMsg(opts: TriggerOptions, workspace: TFCWorkspace)

  /** The hash taken of messages that carry no delivery ID. */
  type Digest = TriggerMsg -> string

  function GetId(digest: Digest, m: TriggerMsg): string {
    if m.opts.deliveryID != "" then
      m.opts.deliveryID + "/" + m.workspace.name + "/" + m.workspace.organization
    else digest(m)
  }

  predicate SlashFree(m: TriggerMsg) {
    '/' !in m.workspace.name && '/' !in m.workspace.organization
  }

  /** Under a delivery ID, which may itself contain slashes, the key tells apart
      exactly delivery, workspace name and organization; within one delivery it is
      enough that one of the two messages is free of slashes. */
  lemma GetIdInjective(digest: Digest, m: TriggerMsg, n: TriggerMsg)
    requires m.opts.deliveryID != "" && n.opts.deliveryID != ""
    requires SlashFree(m) && (SlashFree(n) || m.opts.deliveryID == n.opts.deliveryID)
    ensures GetId(digest, m) == GetId(digest, n) <==>
            m.opts.deliveryID == n.opts.deliveryID && m.workspace.name == n.workspace.name
            && m.workspace.organization == n.workspace.organization
  {
    if GetId(digest, m) == GetId(digest, n) {
      if !SlashFree(n) {
        SlashesCount(m.opts.deliveryID, m.workspace.name, m.workspace.organization,
                     n.workspace.name, n.workspace.organization);
      }
      LastSlashSplitsOnce(m.opts.deliveryID + "/" + m.workspace.name, m.workspace.organization,
                          n.opts.deliveryID + "/" + n.workspace.name, n.workspace.organization);
      LastSlashSplitsOnce(m.opts.deliveryID, m.workspace.name, n.opts.deliveryID, n.workspace.name);
    }
  }

  lemma KeySlashes(delivery: string, name: string, org: string)
    ensures Count(delivery + "/" + name + "/" + org, '/')
            == Count(delivery, '/') + Count(name, '/') + Count(org, '/') + 2
  {
    CountConcat(delivery + "/" + name + "/", org, '/');
    CountConcat(delivery + "/" + name, "/", '/');
    CountConcat(delivery + "/", name, '/');
    CountConcat(delivery, "/", '/');
    assert Count("/", '/') == 1 + Count("/"[1..], '/');
  }

  /** Equal keys of one delivery have equally many slashes in name and organization. */
  lemma SlashesCount(delivery: string, name: string, org: string, name': string, org': string)
    requires delivery + "/" + name + "/" + org == delivery + "/" + name' + "/" + org'
    requires '/' !in name && '/' !in org
    ensures '/' !in name' && '/' !in org'
  {
    KeySlashes(delivery, name, org);
    KeySlashes(delivery, name', org');
    CountPositive(name, '/');
    CountPositive(org, '/');
    CountPositive(name', '/');
    CountPositive(org', '/');
  }

  /** n is another workspace of the same delivery under the same key, so whichever
      of the two is published second is dropped as a duplicate. */
  ghost predicate Collides(digest: Digest, m: TriggerMsg, n: TriggerMsg) {
    && n.opts == m.opts && GetId(digest, n) == GetId(digest, m)
    && (n.workspace.name != m.workspace.name || n.workspace.organization != m.workspace.organization)
  }

  /** Some other workspace of the delivery shares m's key exactly if m's name or
      organization contains a slash. */
  lemma SlashesCollide(digest: Digest, m: TriggerMsg)
    requires m.opts.deliveryID != ""
    ensures (exists n :: Collides(digest, m, n)) <==> !SlashFree(m)
  {
    if n :| Collides(digest, m, n) {
      if SlashFree(m) {
        GetIdInjective(digest, m, n);
      }
    }
    if !SlashFree(m) {
      var n := Collider(digest, m);
    }
  }

  /** Move the separator to the slash in the name or organization. */
  lemma Collider(digest: Digest, m: TriggerMsg) returns (n: TriggerMsg)
    requires m.opts.deliveryID != "" && !SlashFree(m)
    ensures Collides(digest, m, n)
  {
    var delivery, name, org := m.opts.deliveryID, m.workspace.name, m.workspace.organization;
    var name', org' := name, org;
    if i :| 0 <= i < |name| && name[i] == '/' {
      name', org' := name[..i], name[i + 1..] + "/" + org;
      assert name == name' + "/" + name[i + 1..];
    } else {
      var i :| 0 <= i < |org| && org[i] == '/';
      name', org' := name + "/" + org[..i], org[i + 1..];
      assert org == org[..i] + "/" + org';
    }
    n := TriggerMsg(m.opts, TFCWorkspace(name', org', m.workspace.dir, m.workspace.triggerDirs));
    assert delivery + "/" + name + "/" + org == delivery + "/" + name' + "/" + org';
  }

  // ---------------------------------------------------------- deduplication

  /** The messages the stream has accepted within its deduplication window. */
  type Accepted = seq<TriggerMsg>

  predicate SeenId(digest: Digest, accepted: Accepted, id: string) {
    exists i :: 0 <= i < |accepted| && GetId(digest, accepted[i]) == id
  }

  /** A publish lands unless it fails or its key was seen. */
  function PublishOne(digest: Digest, accepted: Accepted, m: TriggerMsg, reply: Reply): Accepted {
    if reply.Failed? || SeenId(digest, accepted, GetId(digest, m)) then accepted else accepted + [m]
  }

  datatype Publication = Publication(msg: TriggerMsg, reply: Reply)

  function PublishAll(digest: Digest, accepted: Accepted, pubs: seq<Publication>): Accepted {
    if pubs == [] then accepted
    else
      var n := |pubs| - 1;
      PublishOne(digest, PublishAll(digest, accepted, pubs[..n]), pubs[n].msg, pubs[n].reply)
  }

  ghost predicate IdsDistinct(digest: Digest, accepted: Accepted) {
    forall i, j :: 0 <= i < j < |accepted| ==> GetId(digest, accepted[i]) != GetId(digest, accepted[j])
  }

  lemma {:induction false} PublishKeepsDistinct(digest: Digest, accepted: Accepted, pubs: seq<Publication>)
    requires IdsDistinct(digest, accepted)
    ensures IdsDistinct(digest, PublishAll(digest, accepted, pubs))
    ensures accepted <= PublishAll(digest, accepted, pubs)
    ensures forall m :: m in PublishAll(digest, accepted, pubs) ==>
              m in accepted || exists p :: p in pubs && p.msg == m && !p.reply.Failed?
  {
    if pubs != [] {
      var n := |pubs| - 1;
      PublishKeepsDistinct(digest, accepted, pubs[..n]);
      assert pubs[n] in pubs;
    }
  }

  lemma {:induction false} LandedIsSeen(digest: Digest, accepted: Accepted, pubs: seq<Publication>, i: nat)
    requires i < |pubs| && !pubs[i].reply.Failed?
    ensures SeenId(digest, PublishAll(digest, accepted, pubs), GetId(digest, pubs[i].msg))
  {
    var n := |pubs| - 1;
    var before, after := PublishAll(digest, accepted, pubs[..n]), PublishAll(digest, accepted, pubs);
    if i < n {
      LandedIsSeen(digest, accepted, pubs[..n], i);
      SeenStays(digest, before, after, GetId(digest, pubs[i].msg));
    } else {
      PublishOneIsSeen(digest, before, pubs[n].msg, pubs[n].reply);
    }
  }

  lemma SeenStays(digest: Digest, accepted: Accepted, accepted': Accepted, id: string)
    requires SeenId(digest, accepted, id) && accepted <= accepted'
    ensures SeenId(digest, accepted', id)
  {
    var k :| 0 <= k < |accepted| && GetId(digest, accepted[k]) == id;
    assert accepted'[k] == accepted[k];
  }

  lemma PublishOneIsSeen(digest: Digest, accepted: Accepted, m: TriggerMsg, reply: Reply)
    requires !reply.Failed?
    ensures SeenId(digest, PublishOne(digest, accepted, m, reply), GetId(digest, m))
  {
    if !SeenId(digest, accepted, GetId(digest, m)) {
      assert PublishOne(digest, accepted, m, reply)[|accepted|] == m;
    }
  }

  /** Republishing what was seen adds nothing, whatever the replies. */
  lemma {:induction false} SeenAddsNothing(digest: Digest, accepted: Accepted, pubs: seq<Publication>)
    requires forall p :: p in pubs ==> SeenId(digest, accepted, GetId(digest, p.msg))
    ensures PublishAll(digest, accepted, pubs) == accepted
  {
    if pubs != [] {
      SeenAddsNothing(digest, accepted, pubs[..|pubs| - 1]);
      assert pubs[|pubs| - 1] in pubs;
    }
  }

  /** However often and however unreliably webhooks are delivered, at most one
      message per delivery, workspace and organization is ever queued. */
  lemma OneMessagePerWorkspace(digest: Digest, pubs: seq<Publication>, i: nat, j: nat)
    requires i < j < |PublishAll(digest, [], pubs)|
    ensures var a, b := PublishAll(digest, [], pubs)[i], PublishAll(digest, [], pubs)[j];
            a.opts.deliveryID != "" ==> !SameTriple(a, b)
  {
    PublishKeepsDistinct(digest, [], pubs);
  }

  predicate SameTriple(a: TriggerMsg, b: TriggerMsg) {
    && a.opts.deliveryID == b.opts.deliveryID
    && a.workspace.name == b.workspace.name && a.workspace.organization == b.workspace.organization
  }

  lemma DistinctPrefix(digest: Digest, a: Accepted, b: Accepted)
    requires a <= b && IdsDistinct(digest, b)
    ensures IdsDistinct(digest, a)
    ensures forall i, j :: 0 <= i < |a| <= j < |b| ==> GetId(digest, a[i]) != GetId(digest, b[j])
  {
    assert forall k :: 0 <= k < |a| ==> a[k] == b[k];
  }

  /** Messages with distinct new keys are accepted as they are published. */
  lemma {:induction false} FreshAreAccepted(digest: Digest, accepted: Accepted,
                                            msgs: seq<TriggerMsg>, pubs: seq<Publication>)
    requires |pubs| == |msgs| && forall i :: 0 <= i < |msgs| ==> pubs[i].msg == msgs[i] && !pubs[i].reply.Failed?
    requires IdsDistinct(digest, accepted + msgs)
    ensures PublishAll(digest, accepted, pubs) == accepted + msgs
  {
    if pubs == [] {
      assert accepted + msgs == accepted;
    } else {
      var n := |pubs| - 1;
      assert accepted + msgs == (accepted + msgs[..n]) + [msgs[n]];
      DistinctPrefix(digest, accepted + msgs[..n], accepted + msgs);
      FreshAreAccepted(digest, accepted, msgs[..n], pubs[..n]);
      assert (accepted + msgs)[|accepted| + n] == msgs[n];
    }
  }

  class WorkspaceStream {
    const digest: Digest
    var accepted: Accepted

    constructor (digest: Digest)
      ensures this.digest == digest && accepted == []
    {
      this.digest, accepted := digest, [];
    }

    method Publish(msg: TriggerMsg, reply: Reply) returns (ok: bool)
      modifies this
      ensures accepted == PublishOne(digest, old(accepted), msg, reply)
      ensures ok <==> reply.Seen?
    {
      if reply != Failed && !SeenId(digest, accepted, GetId(digest, msg)) {
        accepted := accepted + [msg];
      }
      ok := reply == Seen;
    }
  }

  // ------------------------------------------------------------------ worker

  /** How runWorkspace ends. */
  datatype RunResult = RunOk | RunError(error: string) | Panicked

  datatype Comment = Comment(mr: nat, project: string, workspace: string, error: string)

  class WorkspaceTriggerWorker {
    const clients: set<string>
    var attempts: seq<TriggerMsg>
    var comments: seq<Comment>

    constructor (clients: set<string>)
      ensures this.clients == clients && attempts == [] && comments == []
    {
      this.clients, attempts, comments := clients, [], [];
    }

    /** Always acknowledges: an unknown provider is dropped, and a failed or
        panicking run is reported once on its merge request, never retried. */
    method HandleMsg(msg: TriggerMsg, run: RunResult) returns (ack: bool)
      modifies this
      ensures ack
      ensures attempts == if msg.opts.vcsProvider in clients then old(attempts) + [msg] else old(attempts)
      ensures comments == old(comments) + Complaints(clients, msg, run)
    {
      if msg.opts.vcsProvider !in clients {
        return true;
      }
      attempts := attempts + [msg];
      match run {
        case RunOk =>
        case RunError(error) => PostWorkspaceError(msg, error);
        case Panicked => PostWorkspaceError(msg, "internal error");
      }
      return true;
    }

    method PostWorkspaceError(msg: TriggerMsg, error: string)
      modifies this`comments
      ensures comments == old(comments) + [Comment(msg.opts.mr, msg.opts.project, msg.workspace.name, error)]
    {
      comments := comments + [Comment(msg.opts.mr, msg.opts.project, msg.workspace.name, error)];
    }

    /** The body of the loop below. */
    method DrainNext(queue: Accepted, runs: seq<RunResult>, i: nat,
                     ghost attempts0: seq<TriggerMsg>, ghost comments0: seq<Comment>)
      requires |runs| == |queue| && i < |queue|
      requires attempts == attempts0 + Attempted(clients, queue[..i])
      requires comments == comments0 + AllComplaints(clients, queue[..i], runs[..i])
      modifies this
      ensures attempts == attempts0 + Attempted(clients, queue[..i + 1])
      ensures comments == comments0 + AllComplaints(clients, queue[..i + 1], runs[..i + 1])
    {
      DrainSnoc(clients, queue, runs, i);
      var _ := HandleMsg(queue[i], runs[i]);
    }

    /** The queue group hands each accepted message to one worker, which
        acknowledges it in time: one attempt per message, in queue order. */
    method Drain(queue: Accepted, runs: seq<RunResult>)
      requires |runs| == |queue|
      modifies this
      ensures attempts == old(attempts) + Attempted(clients, queue)
      ensures comments == old(comments) + AllComplaints(clients, queue, runs)
    {
      for i := 0 to |queue|
        invariant attempts == old(attempts) + Attempted(clients, queue[..i])
        invariant comments == old(comments) + AllComplaints(clients, queue[..i], runs[..i])
      {
        DrainNext(queue, runs, i, old(attempts), old(comments));
      }
      assert queue[..|queue|] == queue && runs[..|queue|] == runs;
    }
  }

  /** The messages of a drained queue that are run: those of a known provider. */
  function Attempted(clients: set<string>, queue: Accepted): seq<TriggerMsg> {
    if queue == [] then []
    else
      var n := |queue| - 1;
      Attempted(clients, queue[..n]) + if queue[n].opts.vcsProvider in clients then [queue[n]] else []
  }

  lemma DrainSnoc(clients: set<string>, queue: Accepted, runs: seq<RunResult>, i: nat)
    requires |runs| == |queue| && i < |queue|
    ensures Attempted(clients, queue[..i + 1]) ==
            Attempted(clients, queue[..i]) + if queue[i].opts.vcsProvider in clients then [queue[i]] else []
    ensures AllComplaints(clients, queue[..i + 1], runs[..i + 1]) ==
            AllComplaints(clients, queue[..i], runs[..i]) + Complaints(clients, queue[i], runs[i])
  {
    assert queue[..i + 1][..i] == queue[..i] && runs[..i + 1][..i] == runs[..i];
  }

  /** at lists, in order, the positions of the messages that are run: exactly those of a
      known provider. */
  lemma {:induction false} AttemptedExactly(clients: set<string>, queue: Accepted) returns (at: seq<nat>)
    ensures |at| == |Attempted(clients, queue)| && Ascending(at, |queue|)
    ensures forall k :: 0 <= k < |at| ==> Attempted(clients, queue)[k] == queue[at[k]]
    ensures forall i: nat :: i < |queue| ==> (i in at <==> queue[i].opts.vcsProvider in clients)
  {
    at := [];
    if queue != [] {
      var n := |queue| - 1;
      var before := AttemptedExactly(clients, queue[..n]);
      AscendingSnoc(before, n);
      if queue[n].opts.vcsProvider in clients {
        assert Attempted(clients, queue) == Attempted(clients, queue[..n]) + [queue[n]];
        at := before + [n];
      } else {
        assert Attempted(clients, queue) == Attempted(clients, queue[..n]);
        at := before;
      }
    }
  }

  /** The comment goes to the message's own merge request and says what its run returned,
      or that it was an internal error if the run panicked. */
  ghost predicate Tells(c: Comment, msg: TriggerMsg, run: RunResult) {
    && c.mr == msg.opts.mr && c.project == msg.opts.project && c.workspace == msg.workspace.name
    && (run == RunError(c.error) || (run == Panicked && c.error == "internal error"))
  }

  lemma ComplaintTells(clients: set<string>, msg: TriggerMsg, run: RunResult)
    ensures var told := Complaints(clients, msg, run);
            if msg.opts.vcsProvider in clients && run != RunOk then |told| == 1 && Tells(told[0], msg, run)
            else told == []
  {
  }

  /** One comment for each of these messages, in order. */
  ghost predicate TellsAll(told: seq<Comment>, queue: Accepted, runs: seq<RunResult>, at: seq<nat>) {
    && |told| == |at| && |runs| == |queue| && Ascending(at, |queue|)
    && forall k :: 0 <= k < |at| ==> Tells(told[k], queue[at[k]], runs[at[k]])
  }

  lemma TellsNext(told: seq<Comment>, queue: Accepted, runs: seq<RunResult>, at: seq<nat>)
    requires queue != [] && |runs| == |queue| && TellsAll(told, queue[..|queue| - 1], runs[..|queue| - 1], at)
    ensures TellsAll(told, queue, runs, at)
    ensures forall c :: Tells(c, queue[|queue| - 1], runs[|queue| - 1]) ==>
              TellsAll(told + [c], queue, runs, at + [|queue| - 1])
  {
    AscendingSnoc(at, |queue| - 1);
  }

  /** at lists, in order, the positions of the messages that are complained about: exactly
      those that were run and failed. */
  lemma {:induction false} ComplaintsExactly(clients: set<string>, queue: Accepted, runs: seq<RunResult>)
    returns (at: seq<nat>)
    requires |runs| == |queue|
    ensures TellsAll(AllComplaints(clients, queue, runs), queue, runs, at)
    ensures forall i: nat :: i < |queue| ==> (i in at <==> queue[i].opts.vcsProvider in clients && runs[i] != RunOk)
  {
    at := [];
    if queue != [] {
      var n := |queue| - 1;
      var told := AllComplaints(clients, queue[..n], runs[..n]);
      var before := ComplaintsExactly(clients, queue[..n], runs[..n]);
      AscendingSnoc(before, n);
      TellsNext(told, queue, runs, before);
      ComplaintTells(clients, queue[n], runs[n]);
      at := ComplaintsStep(clients, queue, runs, before);
    }
  }

  lemma ComplaintsStep(clients: set<string>, queue: Accepted, runs: seq<RunResult>, before: seq<nat>)
    returns (at: seq<nat>)
    requires queue != [] && |runs| == |queue|
    ensures var n := |queue| - 1;
            var told := AllComplaints(clients, queue[..n], runs[..n]);
            if queue[n].opts.vcsProvider in clients && runs[n] != RunOk
            then at == before + [n] && exists c ::
                   Tells(c, queue[n], runs[n]) && AllComplaints(clients, queue, runs) == told + [c]
            else at == before && AllComplaints(clients, queue, runs) == told
  {
    var n := |queue| - 1;
    var told := AllComplaints(clients, queue[..n], runs[..n]);
    var last := Complaints(clients, queue[n], runs[n]);
    ComplaintTells(clients, queue[n], runs[n]);
    if last != [] {
      assert AllComplaints(clients, queue, runs) == told + [last[0]];
      at := before + [n];
    } else {
      assert AllComplaints(clients, queue, runs) == told;
      at := before;
    }
  }

  lemma {:induction false} AttemptedAreQueued(clients: set<string>, queue: Accepted)
    ensures forall m :: m in Attempted(clients, queue) ==> m in queue
  {
    if queue != [] {
      AttemptedAreQueued(clients, queue[..|queue| - 1]);
    }
  }

  lemma {:induction false} AttemptedKeepsDistinct(digest: Digest, clients: set<string>, queue: Accepted)
    requires IdsDistinct(digest, queue)
    ensures IdsDistinct(digest, Attempted(clients, queue))
  {
    if queue != [] {
      var n := |queue| - 1;
      var before := Attempted(clients, queue[..n]);
      AttemptedKeepsDistinct(digest, clients, queue[..n]);
      AttemptedAreQueued(clients, queue[..n]);
      assert forall i :: 0 <= i < |before| ==> before[i] in queue[..n];
    }
  }

  lemma {:induction false} KnownProvidersAttempted(clients: set<string>, queue: Accepted)
    ensures Attempted(clients, queue) == queue <==> forall m :: m in queue ==> m.opts.vcsProvider in clients
    ensures |Attempted(clients, queue)| <= |queue|
  {
    if queue != [] {
      var n := |queue| - 1;
      KnownProvidersAttempted(clients, queue[..n]);
      assert queue == queue[..n] + [queue[n]];
    }
  }

  function Complaints(clients: set<string>, msg: TriggerMsg, run: RunResult): seq<Comment> {
    if msg.opts.vcsProvider !in clients || run.RunOk? then []
    else [Comment(msg.opts.mr, msg.opts.project, msg.workspace.name,
                  if run.Panicked? then "internal error" else run.error)]
  }

  function AllComplaints(clients: set<string>, queue: Accepted, runs: seq<RunResult>): seq<Comment>
    requires |runs| == |queue|
  {
    if queue == [] then []
    else
      var n := |queue| - 1;
      AllComplaints(clients, queue[..n], runs[..n]) + Complaints(clients, queue[n], runs[n])
  }
}
