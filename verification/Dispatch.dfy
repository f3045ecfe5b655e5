/** What dispatching a list of workspaces promises: who is executed, who is
    refused and why, and that fanning out over the queue comes to the same as
    running inline. */
module Dispatch {
  import opened Strings
  import opened ProjectConfig
  import opened AllowDenyList
  import opened WorkspaceStream

  datatype Reason = NotAllowed | Blocked(dir: string, triggerDirs: seq<string>) | DispatchFailed

  datatype ErroredWorkspace = ErroredWorkspace(name: string, reason: Reason)

  datatype TriggeredTFCWorkspaces = TriggeredTFCWorkspaces(errored: seq<ErroredWorkspace>, executed: seq<string>)

  /** A workspace to dispatch and how its run or its publish will end. */
  datatype Job = Job(ws: TFCWorkspace, reply: Reply)

  /** Why a workspace is not even dispatched. */
  function Refusal(cfg: Config, blocked: set<string>, ws: TFCWorkspace): Option<Reason> {
    if !Allowed(cfg, ws.name, ws.organization) then Some(NotAllowed)
    else if ws.name in blocked then Some(Blocked(ws.dir, ws.triggerDirs))
    else None
  }

  /** None means executed. */
  function Outcome(cfg: Config, blocked: set<string>, job: Job): Option<Reason> {
    if Refusal(cfg, blocked, job.ws).Some? then Refusal(cfg, blocked, job.ws)
    else if job.reply.Seen? then None
    else Some(DispatchFailed)
  }

  function Executed(cfg: Config, blocked: set<string>, jobs: seq<Job>): seq<string> {
    if jobs == [] then []
    else
      var n := |jobs| - 1;
      var before := Executed(cfg, blocked, jobs[..n]);
      if Outcome(cfg, blocked, jobs[n]).None? then before + [jobs[n].ws.name] else before
  }

  function Errored(cfg: Config, blocked: set<string>, jobs: seq<Job>): seq<ErroredWorkspace> {
    if jobs == [] then []
    else
      var n := |jobs| - 1;
      var before := Errored(cfg, blocked, jobs[..n]);
      match Outcome(cfg, blocked, jobs[n])
      case None => before
      case Some(reason) => before + [ErroredWorkspace(jobs[n].ws.name, reason)]
  }

  /** The jobs that reach the dispatch call. */
  function Passing(cfg: Config, blocked: set<string>, jobs: seq<Job>): seq<Job> {
    if jobs == [] then []
    else
      var n := |jobs| - 1;
      var before := Passing(cfg, blocked, jobs[..n]);
      if Refusal(cfg, blocked, jobs[n].ws).None? then before + [jobs[n]] else before
  }

  function Workspaces(jobs: seq<Job>): (r: seq<TFCWorkspace>)
    ensures |r| == |jobs| && forall i :: 0 <= i < |jobs| ==> r[i] == jobs[i].ws
  {
    seq(|jobs|, i requires 0 <= i < |jobs| => jobs[i].ws)
  }

  // --------------------------------------------------------------- partition

  /** Positions of the jobs that are executed, or of those that are not. */
  ghost function Positions(cfg: Config, blocked: set<string>, jobs: seq<Job>, executed: bool): (at: seq<nat>)
    ensures forall k :: 0 <= k < |at| ==> at[k] < |jobs|
    ensures forall k, l :: 0 <= k < l < |at| ==> at[k] < at[l]
  {
    if jobs == [] then []
    else
      var n := |jobs| - 1;
      var before := Positions(cfg, blocked, jobs[..n], executed);
      if Outcome(cfg, blocked, jobs[n]).None? == executed then before + [n] else before
  }

  lemma {:induction false} PositionsComplete(cfg: Config, blocked: set<string>, jobs: seq<Job>, executed: bool, i: nat)
    requires i < |jobs|
    ensures i in Positions(cfg, blocked, jobs, executed) <==> Outcome(cfg, blocked, jobs[i]).None? == executed
  {
    var n := |jobs| - 1;
    if i < n {
      PositionsComplete(cfg, blocked, jobs[..n], executed, i);
    }
  }

  /** A workspace is executed exactly if it is allowed, its name is not blocked, and its
      run or publish is known to have succeeded: one that is refused or fails stops
      no other. */
  lemma ExecutedIff(cfg: Config, blocked: set<string>, jobs: seq<Job>, i: nat)
    requires i < |jobs|
    ensures i in Positions(cfg, blocked, jobs, true) <==>
            && Allowed(cfg, jobs[i].ws.name, jobs[i].ws.organization) && jobs[i].ws.name !in blocked
            && jobs[i].reply == Seen
  {
    PositionsComplete(cfg, blocked, jobs, true, i);
  }

  /** at lists, in order, the positions of the jobs that are dispatched: those of exactly
      the workspaces that are allowed and not blocked by name. */
  lemma {:induction false} PassingExactly(cfg: Config, blocked: set<string>, jobs: seq<Job>) returns (at: seq<nat>)
    ensures |at| == |Passing(cfg, blocked, jobs)| && Ascending(at, |jobs|)
    ensures forall k :: 0 <= k < |at| ==> Passing(cfg, blocked, jobs)[k] == jobs[at[k]]
    ensures forall i: nat :: i < |jobs| ==>
              (i in at <==> Allowed(cfg, jobs[i].ws.name, jobs[i].ws.organization) && jobs[i].ws.name !in blocked)
  {
    at := [];
    if jobs != [] {
      var n := |jobs| - 1;
      var before := PassingExactly(cfg, blocked, jobs[..n]);
      AscendingSnoc(before, n);
      at := if Refusal(cfg, blocked, jobs[n].ws).None? then before + [n] else before;
    }
  }

  /** Executed lists, in order, the names at the executed positions. */
  lemma {:induction false} ExecutedInOrder(cfg: Config, blocked: set<string>, jobs: seq<Job>, k: nat)
    ensures |Executed(cfg, blocked, jobs)| == |Positions(cfg, blocked, jobs, true)|
    ensures k < |Executed(cfg, blocked, jobs)| ==>
              Executed(cfg, blocked, jobs)[k] == jobs[Positions(cfg, blocked, jobs, true)[k]].ws.name
  {
    if jobs != [] {
      ExecutedInOrder(cfg, blocked, jobs[..|jobs| - 1], k);
    }
  }

  /** Errored lists, in order, the names and reasons at the other positions. */
  lemma {:induction false} ErroredInOrder(cfg: Config, blocked: set<string>, jobs: seq<Job>, k: nat)
    ensures |Errored(cfg, blocked, jobs)| == |Positions(cfg, blocked, jobs, false)|
    ensures k < |Errored(cfg, blocked, jobs)| ==>
              var job, e := jobs[Positions(cfg, blocked, jobs, false)[k]], Errored(cfg, blocked, jobs)[k];
              && e.name == job.ws.name
              && e.reason == if !Allowed(cfg, job.ws.name, job.ws.organization) then NotAllowed
                             else if job.ws.name in blocked then Blocked(job.ws.dir, job.ws.triggerDirs)
                             else DispatchFailed
  {
    if jobs != [] {
      ErroredInOrder(cfg, blocked, jobs[..|jobs| - 1], k);
      PositionsComplete(cfg, blocked, jobs, false, |jobs| - 1);
    }
  }

  /** Every workspace ends up in exactly one of the two lists. */
  lemma {:induction false} Partition(cfg: Config, blocked: set<string>, jobs: seq<Job>)
    ensures |Executed(cfg, blocked, jobs)| + |Errored(cfg, blocked, jobs)| == |jobs|
    ensures forall i: nat :: i < |jobs| ==>
              (i in Positions(cfg, blocked, jobs, true) <==> i !in Positions(cfg, blocked, jobs, false))
  {
    if jobs != [] {
      Partition(cfg, blocked, jobs[..|jobs| - 1]);
    }
    forall i: nat | i < |jobs|
      ensures i in Positions(cfg, blocked, jobs, true) <==> i !in Positions(cfg, blocked, jobs, false)
    {
      PositionsComplete(cfg, blocked, jobs, true, i);
      PositionsComplete(cfg, blocked, jobs, false, i);
    }
  }

  // --------------------------------------------------------------- divergence

  /** Names of the workspaces some target-branch file touches. */
  ghost predicate IsBlockedSet(workspaces: seq<TFCWorkspace>, glob: Glob, files: seq<string>, blocked: set<string>) {
    forall name :: name in blocked <==>
      exists i :: 0 <= i < |workspaces| && workspaces[i].name == name && TouchedByAny(workspaces[i], glob, files)
  }

  /** When the target branch could be evaluated, an executed workspace is allowed
      by the lists and none of its paths was modified there; and a workspace is
      refused as blocked exactly if it is allowed and some listed workspace of its
      name was touched. */
  lemma ExecutedIsClean(cfg: Config, glob: Glob, files: seq<string>, blocked: set<string>, jobs: seq<Job>, i: nat)
    requires i < |jobs| && IsBlockedSet(Workspaces(jobs), glob, files, blocked)
    ensures i in Positions(cfg, blocked, jobs, true) ==>
              && Allowed(cfg, jobs[i].ws.name, jobs[i].ws.organization)
              && forall f :: f in files ==> !Concerns(jobs[i].ws, glob, f)
    ensures Outcome(cfg, blocked, jobs[i]) == Some(Blocked(jobs[i].ws.dir, jobs[i].ws.triggerDirs)) <==>
              Allowed(cfg, jobs[i].ws.name, jobs[i].ws.organization)
              && exists j, f :: 0 <= j < |jobs| && f in files && jobs[j].ws.name == jobs[i].ws.name
                                && Concerns(jobs[j].ws, glob, f)
  {
    PositionsComplete(cfg, blocked, jobs, true, i);
    var all := Workspaces(jobs);
    assert forall j :: 0 <= j < |jobs| ==> all[j] == jobs[j].ws;
    forall j | 0 <= j < |jobs|
      ensures TouchedByAny(jobs[j].ws, glob, files) <==> exists f :: f in files && Concerns(jobs[j].ws, glob, f)
    {
      ChangedIff(jobs[j].ws, glob, files);
    }
    if j :| 0 <= j < |all| && all[j].name == jobs[i].ws.name && TouchedByAny(all[j], glob, files) {
      assert jobs[j].ws == all[j];
    }
  }

  // ----------------------------------------------------------------- fan-out

  function Message(opts: TriggerOptions, job: Job): TriggerMsg {
    TriggerMsg(opts, job.ws)
  }

  function Messages(opts: TriggerOptions, jobs: seq<Job>): (r: seq<TriggerMsg>)
    ensures |r| == |jobs| && forall i :: 0 <= i < |jobs| ==> r[i] == Message(opts, jobs[i])
  {
    seq(|jobs|, i requires 0 <= i < |jobs| => Message(opts, jobs[i]))
  }

  function Publications(opts: TriggerOptions, jobs: seq<Job>): (r: seq<Publication>)
    ensures |r| == |jobs| && forall i :: 0 <= i < |jobs| ==> r[i] == Publication(Message(opts, jobs[i]), jobs[i].reply)
  {
    seq(|jobs|, i requires 0 <= i < |jobs| => Publication(Message(opts, jobs[i]), jobs[i].reply))
  }

  /** The workspaces differ pairwise, and of no two both have slashes in name or
      organization. */
  ghost predicate Identified(jobs: seq<Job>) {
    forall i, j :: 0 <= i < j < |jobs| ==>
      !SameWorkspace(jobs[i].ws, jobs[j].ws) && (SlashFreeWorkspace(jobs[i].ws) || SlashFreeWorkspace(jobs[j].ws))
  }

  predicate SlashFreeWorkspace(ws: TFCWorkspace) {
    '/' !in ws.name && '/' !in ws.organization
  }

  lemma MessagesDistinct(digest: Digest, opts: TriggerOptions, jobs: seq<Job>)
    requires opts.deliveryID != "" && Identified(jobs)
    ensures IdsDistinct(digest, Messages(opts, jobs))
  {
    var msgs := Messages(opts, jobs);
    forall i, j | 0 <= i < j < |msgs|
      ensures GetId(digest, msgs[i]) != GetId(digest, msgs[j])
    {
      if SlashFreeWorkspace(jobs[i].ws) {
        GetIdInjective(digest, msgs[i], msgs[j]);
      } else {
        GetIdInjective(digest, msgs[j], msgs[i]);
      }
    }
  }

  /** If the publishes land, the queue holds, in order, one message per job exactly
      if their keys are pairwise different. */
  lemma QueuedAsPublishedIff(digest: Digest, opts: TriggerOptions, jobs: seq<Job>)
    requires forall i :: 0 <= i < |jobs| ==> !jobs[i].reply.Failed?
    ensures PublishAll(digest, [], Publications(opts, jobs)) == Messages(opts, jobs)
       <==> IdsDistinct(digest, Messages(opts, jobs))
  {
    var msgs, pubs := Messages(opts, jobs), Publications(opts, jobs);
    PublishKeepsDistinct(digest, [], pubs);
    if IdsDistinct(digest, msgs) {
      assert [] + msgs == msgs;
      FreshAreAccepted(digest, [], msgs, pubs);
    }
  }

  /** Redelivering the webhook, however often, queues nothing more for workspaces
      whose message landed before. */
  lemma RedeliveryAddsNothing(digest: Digest, opts: TriggerOptions, accepted: Accepted,
                              first: seq<Job>, again: seq<Job>)
    requires forall i :: 0 <= i < |first| ==> !first[i].reply.Failed?
    requires forall i :: 0 <= i < |again| ==>
               exists j :: 0 <= j < |first| && first[j].ws.name == again[i].ws.name
                           && first[j].ws.organization == again[i].ws.organization
    requires opts.deliveryID != ""
    ensures var once := PublishAll(digest, accepted, Publications(opts, first));
            PublishAll(digest, once, Publications(opts, again)) == once
  {
    var pubs := Publications(opts, first);
    var once := PublishAll(digest, accepted, pubs);
    forall p | p in Publications(opts, again)
      ensures SeenId(digest, once, GetId(digest, p.msg))
    {
      var i :| 0 <= i < |again| && Publications(opts, again)[i] == p;
      var j :| 0 <= j < |first| && first[j].ws.name == again[i].ws.name
               && first[j].ws.organization == again[i].ws.organization;
      LandedIsSeen(digest, accepted, pubs, j);
    }
    SeenAddsNothing(digest, once, Publications(opts, again));
  }

  /** Over any publications of one delivery, with any failures, a workspace whose
      publish landed and whose name and organization are free of slashes has exactly
      one message, whatever the others are called. */
  lemma ExactlyOneMessage(digest: Digest, opts: TriggerOptions, jobs: seq<Job>, i: nat) returns (k: nat)
    requires opts.deliveryID != "" && i < |jobs| && !jobs[i].reply.Failed? && SlashFreeWorkspace(jobs[i].ws)
    ensures var q := PublishAll(digest, [], Publications(opts, jobs));
            && k < |q| && SameWorkspace(q[k].workspace, jobs[i].ws)
            && forall l :: 0 <= l < |q| && SameWorkspace(q[l].workspace, jobs[i].ws) ==> l == k
  {
    var pubs := Publications(opts, jobs);
    var q := PublishAll(digest, [], pubs);
    PublishKeepsDistinct(digest, [], pubs);
    LandedIsSeen(digest, [], pubs, i);
    var k0 :| 0 <= k0 < |q| && GetId(digest, q[k0]) == GetId(digest, pubs[i].msg);
    k := k0;
    var _ := PublishedFrom(digest, opts, jobs, k);
    GetIdInjective(digest, pubs[i].msg, q[k]);
    forall l | 0 <= l < |q| && SameWorkspace(q[l].workspace, jobs[i].ws)
      ensures l == k
    {
      var _ := PublishedFrom(digest, opts, jobs, l);
      GetIdInjective(digest, pubs[i].msg, q[l]);
    }
  }

  predicate SameWorkspace(a: TFCWorkspace, b: TFCWorkspace) {
    a.name == b.name && a.organization == b.organization
  }

  /** Every message comes from a job whose publish landed. */
  lemma PublishedFrom(digest: Digest, opts: TriggerOptions, jobs: seq<Job>, k: nat) returns (j: nat)
    requires k < |PublishAll(digest, [], Publications(opts, jobs))|
    ensures j < |jobs| && !jobs[j].reply.Failed?
    ensures PublishAll(digest, [], Publications(opts, jobs))[k] == Message(opts, jobs[j])
  {
    var pubs := Publications(opts, jobs);
    PublishKeepsDistinct(digest, [], pubs);
    var m := PublishAll(digest, [], pubs)[k];
    assert m in PublishAll(digest, [], pubs);
    var p :| p in pubs && p.msg == m && !p.reply.Failed?;
    j :| 0 <= j < |pubs| && pubs[j] == p;
  }

  lemma {:induction false} PassingFrom(cfg: Config, blocked: set<string>, jobs: seq<Job>)
    ensures forall job :: job in Passing(cfg, blocked, jobs) <==>
              job in jobs && Allowed(cfg, job.ws.name, job.ws.organization) && job.ws.name !in blocked
  {
    if jobs != [] {
      var n := |jobs| - 1;
      PassingFrom(cfg, blocked, jobs[..n]);
      assert jobs == jobs[..n] + [jobs[n]];
    }
  }

  /** One delivery, whatever fails: every executed workspace free of slashes has
      exactly one message in the queue. */
  lemma ExecutedIsQueuedOnce(cfg: Config, blocked: set<string>, digest: Digest, opts: TriggerOptions,
                             jobs: seq<Job>, i: nat)
    returns (k: nat)
    requires opts.deliveryID != "" && i in Positions(cfg, blocked, jobs, true) && SlashFreeWorkspace(jobs[i].ws)
    ensures var q := PublishAll(digest, [], Publications(opts, Passing(cfg, blocked, jobs)));
            && k < |q| && SameWorkspace(q[k].workspace, jobs[i].ws)
            && forall l :: 0 <= l < |q| && SameWorkspace(q[l].workspace, jobs[i].ws) ==> l == k
  {
    PassingFrom(cfg, blocked, jobs);
    PositionsComplete(cfg, blocked, jobs, true, i);
    var passing := Passing(cfg, blocked, jobs);
    assert jobs[i] in passing;
    var p: nat :| p < |passing| && passing[p] == jobs[i];
    k := ExactlyOneMessage(digest, opts, passing, p);
  }

  /** And every message is of a workspace that was neither denied nor blocked and
      whose publish landed. */
  lemma QueuedWasDispatched(cfg: Config, blocked: set<string>, digest: Digest, opts: TriggerOptions,
                            jobs: seq<Job>, k: nat)
    returns (job: Job)
    requires k < |PublishAll(digest, [], Publications(opts, Passing(cfg, blocked, jobs)))|
    ensures job in jobs && !job.reply.Failed?
    ensures Allowed(cfg, job.ws.name, job.ws.organization) && job.ws.name !in blocked
    ensures PublishAll(digest, [], Publications(opts, Passing(cfg, blocked, jobs)))[k] == Message(opts, job)
  {
    PassingFrom(cfg, blocked, jobs);
    var passing := Passing(cfg, blocked, jobs);
    var j := PublishedFrom(digest, opts, passing, k);
    job := passing[j];
  }

  // -------------------------------------------------- inline loop and workers

  /** What the inline loop attempts, in order. */
  function InlineAttempts(cfg: Config, blocked: set<string>, jobs: seq<Job>): seq<TFCWorkspace> {
    Workspaces(Passing(cfg, blocked, jobs))
  }

  /** One delivery of a webhook as it reaches the dispatch. */
  datatype Delivery = Delivery(opts: TriggerOptions, blocked: set<string>, jobs: seq<Job>)

  /** The messages accepted after dispatching the deliveries one after another. */
  function Queued(digest: Digest, cfg: Config, deliveries: seq<Delivery>): Accepted {
    if deliveries == [] then []
    else
      var n := |deliveries| - 1;
      var d := deliveries[n];
      PublishAll(digest, Queued(digest, cfg, deliveries[..n]), Publications(d.opts, Passing(cfg, d.blocked, d.jobs)))
  }

  function WorkspacesOf(msgs: seq<TriggerMsg>): (r: seq<TFCWorkspace>)
    ensures |r| == |msgs| && forall i :: 0 <= i < |msgs| ==> r[i] == msgs[i].workspace
  {
    seq(|msgs|, i requires 0 <= i < |msgs| => msgs[i].workspace)
  }

  lemma {:induction false} QueuedDistinct(digest: Digest, cfg: Config, deliveries: seq<Delivery>)
    ensures IdsDistinct(digest, Queued(digest, cfg, deliveries))
  {
    if deliveries != [] {
      var n := |deliveries| - 1;
      var d := deliveries[n];
      QueuedDistinct(digest, cfg, deliveries[..n]);
      PublishKeepsDistinct(digest, Queued(digest, cfg, deliveries[..n]),
                          Publications(d.opts, Passing(cfg, d.blocked, d.jobs)));
    }
  }

  /** After any number of deliveries, with any failures, and the workers draining
      what was accepted, every workspace of every delivery is attempted at most
      once. */
  lemma AttemptedAtMostOnce(digest: Digest, cfg: Config, clients: set<string>, deliveries: seq<Delivery>,
                            i: nat, j: nat)
    requires i < j < |Attempted(clients, Queued(digest, cfg, deliveries))|
    ensures var attempts := Attempted(clients, Queued(digest, cfg, deliveries));
            attempts[i].opts.deliveryID != "" ==> !SameTriple(attempts[i], attempts[j])
  {
    QueuedDistinct(digest, cfg, deliveries);
    AttemptedKeepsDistinct(digest, clients, Queued(digest, cfg, deliveries));
  }

  /** again dispatches no workspace that d did not dispatch. */
  ghost predicate Redelivers(cfg: Config, d: Delivery, again: Delivery) {
    && again.opts == d.opts
    && forall i :: 0 <= i < |Passing(cfg, again.blocked, again.jobs)| ==>
         Dispatched(Passing(cfg, d.blocked, d.jobs), Passing(cfg, again.blocked, again.jobs)[i].ws)
  }

  ghost predicate Dispatched(jobs: seq<Job>, ws: TFCWorkspace) {
    exists j :: 0 <= j < |jobs| && SameWorkspace(jobs[j].ws, ws)
  }

  lemma RedeliveryQueuesNothing(digest: Digest, cfg: Config, d: Delivery, again: Delivery)
    requires d.opts.deliveryID != "" && Redelivers(cfg, d, again)
    requires forall job :: job in d.jobs ==> !job.reply.Failed?
    ensures var once := Queued(digest, cfg, [d]);
            PublishAll(digest, once, Publications(d.opts, Passing(cfg, again.blocked, again.jobs))) == once
  {
    var first, second := Passing(cfg, d.blocked, d.jobs), Passing(cfg, again.blocked, again.jobs);
    PassingFrom(cfg, d.blocked, d.jobs);
    forall i | 0 <= i < |second|
      ensures exists j :: 0 <= j < |first| && first[j].ws.name == second[i].ws.name
                          && first[j].ws.organization == second[i].ws.organization
    {
      assert Dispatched(first, second[i].ws);
    }
    assert forall i :: 0 <= i < |first| ==> first[i] in d.jobs;
    QueuedFirst(digest, cfg, d);
    RedeliveryAddsNothing(digest, d.opts, [], first, second);
  }

  lemma QueuedFirst(digest: Digest, cfg: Config, d: Delivery)
    ensures Queued(digest, cfg, [d]) == PublishAll(digest, [], Publications(d.opts, Passing(cfg, d.blocked, d.jobs)))
  {
    assert [d][..0] == [];
  }

  lemma {:induction false} RedeliveriesQueueNothing(digest: Digest, cfg: Config, d: Delivery, again: seq<Delivery>)
    requires d.opts.deliveryID != "" && forall i :: 0 <= i < |again| ==> Redelivers(cfg, d, again[i])
    requires forall job :: job in d.jobs ==> !job.reply.Failed?
    ensures Queued(digest, cfg, [d] + again) == Queued(digest, cfg, [d])
  {
    if again == [] {
      assert [d] + again == [d];
    } else {
      var n := |again| - 1;
      RedeliveriesQueueNothing(digest, cfg, d, again[..n]);
      assert ([d] + again)[..|again|] == [d] + again[..n];
      RedeliveryQueuesNothing(digest, cfg, d, again[n]);
    }
  }

  /** Fan-out refines the inline loop: if the publishes of a delivery land, then
      however often it is redelivered, the workers that drain the queue attempt, in
      order, the workspaces the inline trigger attempts on the same jobs, exactly if
      the keys of these differ, as they do if the jobs are identified. */
  lemma FanOutRefinesInline(digest: Digest, cfg: Config, clients: set<string>, d: Delivery, again: seq<Delivery>)
    requires d.opts.deliveryID != "" && d.opts.vcsProvider in clients
    requires forall job :: job in d.jobs ==> !job.reply.Failed?
    requires forall i :: 0 <= i < |again| ==> Redelivers(cfg, d, again[i])
    ensures var attempts := Attempted(clients, Queued(digest, cfg, [d] + again));
            var passing := Passing(cfg, d.blocked, d.jobs);
            && (WorkspacesOf(attempts) == InlineAttempts(cfg, d.blocked, d.jobs) <==>
                IdsDistinct(digest, Messages(d.opts, passing)))
            && (Identified(passing) ==> IdsDistinct(digest, Messages(d.opts, passing)))
            && forall m :: m in attempts ==> m.opts == d.opts
  {
    var passing := Passing(cfg, d.blocked, d.jobs);
    RedeliveriesQueueNothing(digest, cfg, d, again);
    QueuedFirst(digest, cfg, d);
    DeliveryOptsKept(digest, d.opts, passing);
    KnownProvidersAttempted(clients, Queued(digest, cfg, [d]));
    PassingLands(cfg, d.blocked, d.jobs);
    QueuedAsPublishedIff(digest, d.opts, passing);
    SameWorkspacesSameMessages(Queued(digest, cfg, [d]), d.opts, passing);
    if Identified(passing) {
      MessagesDistinct(digest, d.opts, passing);
    }
  }

  lemma PassingLands(cfg: Config, blocked: set<string>, jobs: seq<Job>)
    requires forall job :: job in jobs ==> !job.reply.Failed?
    ensures forall i :: 0 <= i < |Passing(cfg, blocked, jobs)| ==> !Passing(cfg, blocked, jobs)[i].reply.Failed?
  {
    PassingFrom(cfg, blocked, jobs);
    assert forall i :: 0 <= i < |Passing(cfg, blocked, jobs)| ==> Passing(cfg, blocked, jobs)[i] in jobs;
  }

  lemma DeliveryOptsKept(digest: Digest, opts: TriggerOptions, jobs: seq<Job>)
    ensures forall m :: m in PublishAll(digest, [], Publications(opts, jobs)) ==> m.opts == opts
  {
    PublishKeepsDistinct(digest, [], Publications(opts, jobs));
  }

  lemma SameWorkspacesSameMessages(queue: Accepted, opts: TriggerOptions, jobs: seq<Job>)
    requires forall m :: m in queue ==> m.opts == opts
    ensures WorkspacesOf(queue) == Workspaces(jobs) <==> queue == Messages(opts, jobs)
  {
    var msgs := Messages(opts, jobs);
    if WorkspacesOf(queue) == Workspaces(jobs) {
      forall i | 0 <= i < |queue|
        ensures queue[i] == msgs[i]
      {
        assert queue[i] in queue;
        assert queue[i].workspace == WorkspacesOf(queue)[i] == Workspaces(jobs)[i] == msgs[i].workspace;
      }
    }
  }
}
