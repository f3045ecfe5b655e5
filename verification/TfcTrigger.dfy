/** The trigger object of pkg/tfc_trigger/tfc_trigger.go: its loops over
    workspaces and its calls into Terraform Cloud, in the order the code makes
    them. */
module TfcTrigger {
  import opened Strings
  import opened TagClient
  import opened Locks
  import opened LockProtocol
  import opened ProjectConfig
  import opened AllowDenyList
  import opened WorkspaceStream
  import opened Dispatch

  datatype ApplyRun = ApplyRun(workspace: string, mr: nat, isApply: bool)

  class TFCTrigger {
    const appCfg: Config
    const opts: TriggerOptions
    const tfc: TFCClient
    const workspaceStream: WorkspaceStream?
    var runs: seq<ApplyRun>            // runs created in Terraform Cloud
    var attempts: seq<TFCWorkspace>    // workspaces run inline
    var comments: seq<string>
    var discussions: seq<string>       // threads opened to report released locks

    constructor (appCfg: Config, opts: TriggerOptions, tfc: TFCClient, workspaceStream: WorkspaceStream?)
      ensures this.appCfg == appCfg && this.opts == opts && this.tfc == tfc && this.workspaceStream == workspaceStream
      ensures runs == [] && attempts == [] && comments == [] && discussions == []
    {
      this.appCfg, this.opts, this.tfc, this.workspaceStream := appCfg, opts, tfc, workspaceStream;
      runs, attempts, comments, discussions := [], [], [], [];
    }

    // ------------------------------------------------------------- the lock

    method GetLockingMR(workspace: string, listed: bool) returns (owner: string)
      ensures owner == if listed then LockingMR(Matching(tfc.TagsOf(workspace), LOCK_PREFIX), Decimal(opts.mr)) else ""
    {
      var tags := tfc.GetTagsByQuery(workspace, LOCK_PREFIX, listed);
      if tags.None? || tags.value == [] {
        return "";
      }
      owner := FindLockingMR(tags.value, Decimal(opts.mr));
    }

    /** LockUnlockWorkspace, and TFCClient.LockUnlockWorkspace behind it. */
    method LockUnlockWorkspace(workspace: string, lock: bool, env: Env) returns (ok: bool)
      modifies tfc
      ensures OnlyChanged(old(tfc.tags), tfc.tags, workspace)
      ensures var before, action := old(tfc.TagsOf(workspace)), if lock then Lock else Unlock;
              && tfc.TagsOf(workspace) == FlippedTags(before, action, opts.mr, env)
              && (ok <==> FlipOk(before, action, env))
    {
      if (lock && !env.wsLocked) || (!lock && env.wsLocked) {
        if !env.flipped {
          return false;
        }
        if lock {
          ok := tfc.AddTags(workspace, TFC_LOCK_PREFIX, "mr-" + Decimal(opts.mr), env.flipTag);
          assert TFC_LOCK_PREFIX + "-" + ("mr-" + Decimal(opts.mr)) == TFC_LOCK_PREFIX + "-mr-" + Decimal(opts.mr);
        } else {
          EmptyRemoval(tfc.TagsOf(workspace), TFC_LOCK_PREFIX);
          ok := tfc.RemoveTagsByQuery(workspace, TFC_LOCK_PREFIX, env.flipListed, env.flipTag);
        }
        return ok;
      }
      return false;
    }

    /** The check before an apply: refuse while another merge request holds the
        lock, unless that one is merged or closed and its tag can be removed. */
    method CheckLock(workspace: string, env: Env) returns (ok: bool)
      modifies tfc
      ensures OnlyChanged(old(tfc.tags), tfc.tags, workspace)
      ensures tfc.TagsOf(workspace) == CheckedTags(old(tfc.TagsOf(workspace)), opts.mr, env)
      ensures ok <==> CheckPasses(old(tfc.TagsOf(workspace)), opts.mr, env)
      ensures LockedByOpen(old(tfc.TagsOf(workspace)), opts.mr, env) ==>
                !ok && tfc.TagsOf(workspace) == old(tfc.TagsOf(workspace))
    {
      OpenRefuses(tfc.TagsOf(workspace), opts.mr, env);
      var lockingMR := GetLockingMR(workspace, env.listed);
      if env.wsLocked {
        return false;
      } else if lockingMR != "" {
        if !FitsInt(lockingMR) || env.mrState.None? {
          return false;
        }
        if env.mrState.value == "merged" || env.mrState.value == "closed" {
          EmptyRemoval(tfc.TagsOf(workspace), LOCK_STEM + lockingMR);
          ok := tfc.RemoveTagsByQuery(workspace, LOCK_STEM + lockingMR, env.cleanListed, env.clean);
          return ok;
        }
        return false;
      }
      return true;
    }

    /** The lock part of an apply. */
    method AcquireLock(workspace: string, env: Env) returns (ok: bool)
      modifies tfc
      ensures OnlyChanged(old(tfc.tags), tfc.tags, workspace)
      ensures tfc.TagsOf(workspace) == AcquiredTags(old(tfc.TagsOf(workspace)), opts.mr, env)
      ensures ok <==> Acquired(old(tfc.TagsOf(workspace)), opts.mr, env)
      ensures LockedByOpen(old(tfc.TagsOf(workspace)), opts.mr, env) ==>
                !ok && tfc.TagsOf(workspace) == old(tfc.TagsOf(workspace))
    {
      OpenRefuses(tfc.TagsOf(workspace), opts.mr, env);
      var passed := CheckLock(workspace, env);
      if !passed {
        return false;
      }
      assert LOCK_PREFIX + "-" + Decimal(opts.mr) == LockTag(opts.mr);
      ok := tfc.AddTags(workspace, LOCK_PREFIX, Decimal(opts.mr), env.add);
    }

    /** triggerRunForWorkspace. */
    method TriggerRunForWorkspace(workspace: string, action: Action, env: Env) returns (ok: bool)
      modifies this`runs, tfc
      ensures OnlyChanged(old(tfc.tags), tfc.tags, workspace)
      ensures tfc.TagsOf(workspace) == TriggeredTags(old(tfc.TagsOf(workspace)), action, opts.mr, env)
      ensures runs == if CreatesRun(old(tfc.TagsOf(workspace)), action, opts.mr, env)
                      then old(runs) + [ApplyRun(workspace, opts.mr, action == Apply)] else old(runs)
      ensures ok <==> TriggerOk(old(tfc.TagsOf(workspace)), action, opts.mr, env)
    {
      if !env.found {
        return false;
      }
      if env.vcs && action == Apply {
        return false;
      }
      if action == Lock || action == Unlock {
        ok := LockUnlockWorkspace(workspace, action == Lock, env);
        if !ok && !(action == Unlock && !env.wsLocked) {
          return false;
        }
        if action == Unlock {
          EmptyRemoval(tfc.TagsOf(workspace), LOCK_PREFIX);
          var _ := tfc.RemoveTagsByQuery(workspace, LOCK_PREFIX, env.cleanListed, env.clean);
        }
        return env.discussion;
      }
      var isApply := false;
      if action == Apply {
        isApply := true;
      } else if action != Plan {
        return false;
      }
      if isApply {
        var acquired := AcquireLock(workspace, env);
        if !acquired {
          return false;
        }
      }
      if !env.discussion {
        return false;
      }
      if !env.created {
        return false;
      }
      runs := runs + [ApplyRun(workspace, opts.mr, isApply)];
      return env.published;
    }

    // ---------------------------------------------------------- the cleanup

    /** TriggerCleanupEvent over the workspaces the merge request triggered;
        discussion says whether the release report can be posted. */
    method TriggerCleanupEvent(items: seq<CleanupItem>, discussion: bool) returns (ok: bool)
      modifies this`comments, this`discussions, tfc
      ensures Same(tfc.tags, Cleaned(old(tfc.tags), LockTag(opts.mr), items))
      ensures comments == old(comments) + CleanupErrors(old(tfc.tags), LockTag(opts.mr), items)
      ensures var released := Released(old(tfc.tags), LockTag(opts.mr), items);
              && discussions == (if released == [] || !discussion then old(discussions)
                                 else old(discussions) + ["Released locks for workspaces: " + Join(released, ",")])
              && (ok <==> released == [] || discussion)
    {
      var tag := LOCK_PREFIX + "-" + Decimal(opts.mr);
      assert tag == LockTag(opts.mr);
      var wsNames := CleanupWorkspaces(tag, items);
      if wsNames == [] {
        return true;
      }
      if !discussion {
        return false;
      }
      discussions := discussions + ["Released locks for workspaces: " + Join(wsNames, ",")];
      return true;
    }

    /** The loop over workspaces: an error on one never stops the others. */
    method CleanupWorkspaces(tag: string, items: seq<CleanupItem>) returns (wsNames: seq<string>)
      modifies this`comments, tfc
      ensures Same(tfc.tags, Cleaned(old(tfc.tags), tag, items))
      ensures comments == old(comments) + CleanupErrors(old(tfc.tags), tag, items)
      ensures wsNames == Released(old(tfc.tags), tag, items)
    {
      ghost var tags0 := tfc.tags;
      wsNames := [];
      for i := 0 to |items|
        invariant CleanedUpTo(tags0, tag, items[..i], wsNames)
        invariant comments == old(comments) + CleanupErrors(tags0, tag, items[..i])
      {
        wsNames := CleanupNext(tag, items, i, wsNames, tags0, old(comments));
      }
      assert items[..|items|] == items;
    }

    /** The tags are those after cleaning items, of which wsNames were released. */
    ghost predicate CleanedUpTo(tags0: map<string, Tags>, tag: string, items: seq<CleanupItem>, wsNames: seq<string>)
      reads tfc
    {
      Same(tfc.tags, Cleaned(tags0, tag, items)) && wsNames == Released(tags0, tag, items)
    }

    /** The loop body. */
    method CleanupNext(tag: string, items: seq<CleanupItem>, i: nat, wsNames: seq<string>,
                       ghost tags0: map<string, Tags>, ghost comments0: seq<string>)
      returns (names: seq<string>)
      requires i < |items| && CleanedUpTo(tags0, tag, items[..i], wsNames)
      requires comments == comments0 + CleanupErrors(tags0, tag, items[..i])
      modifies this`comments, tfc
      ensures CleanedUpTo(tags0, tag, items[..i + 1], names)
      ensures comments == comments0 + CleanupErrors(tags0, tag, items[..i + 1])
    {
      CleanupSnoc(tags0, tag, items, i);
      var removed := CleanupWorkspace(tag, items[i], Cleaned(tags0, tag, items[..i]));
      names := if removed then wsNames + [items[i].name] else wsNames;
    }

    /** handleError posts the error on the merge request. */
    method HandleError(error: string, msg: string)
      modifies this`comments
      ensures comments == old(comments) + [ErrorText(msg, error)]
    {
      comments := comments + ["Error: " + msg + ": " + error];
    }

    /** One workspace: take our tag away if it is listed, and post what fails. */
    method CleanupWorkspace(tag: string, item: CleanupItem, ghost before: map<string, Tags>) returns (removed: bool)
      requires Same(tfc.tags, before)
      modifies this`comments, tfc
      ensures Same(tfc.tags, CleanedOne(before, tag, item))
      ensures comments == match CleanupError(before, tag, item)
                          case Some(comment) => old(comments) + [comment]
                          case None => old(comments)
      ensures removed <==> Reaches(before, tag, item) && item.remove.Seen?
    {
      if item.id.None? {
        HandleError(item.error, "error getting workspace");
        return false;
      }
      var tags := tfc.GetTagsByQuery(item.id.value, tag, item.listed);
      if tags.None? {
        HandleError(item.error, "error getting tags");
        return false;
      }
      assert OccursAt(tag, tag, 0);
      var hasOurTag := false;
      for k := 0 to |tags.value|
        invariant hasOurTag <==> tag in tags.value[..k]
      {
        if tags.value[k] == tag {
          hasOurTag := true;
          assert tag in tags.value;
          assert hasOurTag && tag in tags.value[..k + 1];
          break;
        }
        assert tags.value[..k + 1] == tags.value[..k] + [tags.value[k]];
      }
      assert tags.value[..|tags.value|] == tags.value;
      assert hasOurTag <==> tag in tags.value;
      if !hasOurTag {
        return false;
      }
      SameUpdate(tfc.tags, before, item.id.value, Without(Listed(before, item.id.value), [tag]));
      removed := tfc.RemoveTagsByName(item.id.value, [tag], item.remove);
      if !removed {
        HandleError(item.error, "Error removing locking tag from workspace");
      }
    }

    // --------------------------------------------------------- the dispatch

    ghost function Queue(): set<object> {
      if workspaceStream == null then {} else {workspaceStream}
    }

    /** runInline or enqueue, whichever the trigger was set up with. */
    method DispatchOne(job: Job) returns (ok: bool)
      modifies this`attempts, Queue()
      ensures attempts == if workspaceStream == null then old(attempts) + [job.ws] else old(attempts)
      ensures workspaceStream != null ==>
                workspaceStream.accepted ==
                PublishOne(workspaceStream.digest, old(workspaceStream.accepted), Message(opts, job), job.reply)
      ensures ok <==> job.reply.Seen?
    {
      if workspaceStream == null {
        attempts := attempts + [job.ws];
        ok := job.reply == Seen;
      } else {
        ok := workspaceStream.Publish(TriggerMsg(opts, job.ws), job.reply);
      }
    }

    method DispatchWorkspaces(jobs: seq<Job>, blocked: set<string>) returns (status: TriggeredTFCWorkspaces)
      modifies this`attempts, Queue()
      ensures status == TriggeredTFCWorkspaces(Errored(appCfg, blocked, jobs), Executed(appCfg, blocked, jobs))
      ensures attempts == if workspaceStream == null
                          then old(attempts) + InlineAttempts(appCfg, blocked, jobs) else old(attempts)
      ensures workspaceStream != null ==>
                workspaceStream.accepted ==
                PublishAll(workspaceStream.digest, old(workspaceStream.accepted),
                           Publications(opts, Passing(appCfg, blocked, jobs)))
    {
      var errored: seq<ErroredWorkspace>, executed: seq<string> := [], [];
      for i := 0 to |jobs|
        invariant executed == Executed(appCfg, blocked, jobs[..i]) && errored == Errored(appCfg, blocked, jobs[..i])
        invariant attempts == if workspaceStream == null
                              then old(attempts) + InlineAttempts(appCfg, blocked, jobs[..i]) else old(attempts)
        invariant workspaceStream != null ==>
                    workspaceStream.accepted ==
                    PublishAll(workspaceStream.digest, old(workspaceStream.accepted),
                               Publications(opts, Passing(appCfg, blocked, jobs[..i])))
      {
        var job := jobs[i];
        PassingSnoc(appCfg, blocked, opts, jobs, i);
        var allowed := IsWorkspaceAllowed(appCfg, job.ws.name, job.ws.organization);
        if !allowed {
          errored := errored + [ErroredWorkspace(job.ws.name, NotAllowed)];
          continue;
        }
        if job.ws.name in blocked {
          errored := errored + [ErroredWorkspace(job.ws.name, Blocked(job.ws.dir, job.ws.triggerDirs))];
          continue;
        }
        var ok := DispatchOne(job);
        if !ok {
          errored := errored + [ErroredWorkspace(job.ws.name, DispatchFailed)];
          continue;
        }
        executed := executed + [job.ws.name];
      }
      assert jobs[..|jobs|] == jobs;
      status := TriggeredTFCWorkspaces(errored, executed);
    }

    /** getModifiedWorkspacesOnTargetBranch: None when the target branch cannot be
        evaluated, in which case nothing is blocked. */
    method GetModifiedWorkspacesOnTargetBranch(jobs: seq<Job>, glob: Glob,
                                               fetched: bool, mergeBase: bool, diff: Option<seq<string>>)
      returns (blocked: set<string>, evaluated: bool)
      ensures evaluated <==> fetched && mergeBase && diff.Some?
      ensures if evaluated then IsBlockedSet(Workspaces(jobs), glob, diff.value, blocked) else blocked == {}
    {
      blocked := {};
      if !fetched {
        return blocked, false;
      }
      if !mergeBase {
        return {}, false;
      }
      if diff.None? {
        return blocked, false;
      }
      ghost var all := Workspaces(jobs);
      if |diff.value| > 0 {
        for i := 0 to |jobs|
          invariant forall name :: name in blocked <==>
            exists j :: 0 <= j < i && all[j].name == name && TouchedByAny(all[j], glob, diff.value)
        {
          var changed := HasChangesForWorkspace(jobs[i].ws, glob, diff.value);
          assert all[i] == jobs[i].ws;
          if changed {
            blocked := blocked + {jobs[i].ws.name};
          }
        }
      }
      return blocked, true;
    }

    /** The tail of TriggerTFCEvents: evaluate the target branch once, warn if
        that failed, dispatch. */
    method EvaluateAndDispatch(jobs: seq<Job>, glob: Glob, fetched: bool, mergeBase: bool, diff: Option<seq<string>>)
      returns (status: TriggeredTFCWorkspaces, ghost blocked: set<string>)
      modifies this`attempts, this`comments, Queue()
      ensures status == TriggeredTFCWorkspaces(Errored(appCfg, blocked, jobs), Executed(appCfg, blocked, jobs))
      ensures if fetched && mergeBase && diff.Some?
              then IsBlockedSet(Workspaces(jobs), glob, diff.value, blocked) && comments == old(comments)
              else blocked == {} && comments == old(comments) + [TARGET_BRANCH_EVAL_FAILED]
      ensures attempts == if workspaceStream == null
                          then old(attempts) + InlineAttempts(appCfg, blocked, jobs) else old(attempts)
      ensures workspaceStream != null ==>
                workspaceStream.accepted ==
                PublishAll(workspaceStream.digest, old(workspaceStream.accepted),
                           Publications(opts, Passing(appCfg, blocked, jobs)))
    {
      var found, evaluated := GetModifiedWorkspacesOnTargetBranch(jobs, glob, fetched, mergeBase, diff);
      if !evaluated {
        comments := comments + [TARGET_BRANCH_EVAL_FAILED];
      }
      blocked := found;
      status := DispatchWorkspaces(jobs, found);
    }
  }

  /** Another merge request holds the only lock, is listed, and is not known to be
      merged or closed. */
  ghost predicate LockedByOpen(tags: Tags, mr: nat, env: Env) {
    OneLock(tags) && env.listed && env.mrState !in {Some("merged"), Some("closed")}
    && exists a: nat :: a != mr && HeldBy(tags, a)
  }

  lemma OpenRefuses(tags: Tags, mr: nat, env: Env)
    ensures LockedByOpen(tags, mr, env) ==>
              && !CheckPasses(tags, mr, env) && CheckedTags(tags, mr, env) == tags
              && !Acquired(tags, mr, env) && AcquiredTags(tags, mr, env) == tags
  {
    if LockedByOpen(tags, mr, env) {
      var a: nat :| a != mr && HeldBy(tags, a);
      OpenOwnerRefuses(tags, a, mr, env);
    }
  }

  const TARGET_BRANCH_EVAL_FAILED :=
    ":warning: Could not identify modified workspaces on target branch. "
    + "Please review the plan carefully for unrelated changes."

  /** Only the named workspace's tags may differ. */
  ghost predicate OnlyChanged(tags: map<string, Tags>, tags': map<string, Tags>, workspace: string) {
    forall w :: w != workspace ==> Listed(tags', w) == Listed(tags, w)
  }

  /** The two tag stores list the same tags everywhere. */
  ghost predicate Same(tags: map<string, Tags>, tags': map<string, Tags>) {
    forall w :: Listed(tags, w) == Listed(tags', w)
  }

  lemma SameUpdate(tags: map<string, Tags>, tags': map<string, Tags>, w: string, v: Tags)
    requires Same(tags, tags')
    ensures Same(tags[w := v], tags'[w := v])
    ensures Listed(tags, w) == Listed(tags', w)
  {
    var a, b := tags[w := v], tags'[w := v];
    forall x
      ensures Listed(a, x) == Listed(b, x)
    {
      assert Listed(tags, x) == Listed(tags', x);
    }
  }

  lemma CleanupSnoc(tags: map<string, Tags>, tag: string, items: seq<CleanupItem>, i: nat)
    requires i < |items|
    ensures var before := Cleaned(tags, tag, items[..i]);
            && Cleaned(tags, tag, items[..i + 1]) == CleanedOne(before, tag, items[i])
            && Released(tags, tag, items[..i + 1]) == Released(tags, tag, items[..i])
               + (if Reaches(before, tag, items[i]) && items[i].remove.Seen? then [items[i].name] else [])
            && CleanupErrors(tags, tag, items[..i + 1]) == CleanupErrors(tags, tag, items[..i])
               + match CleanupError(before, tag, items[i]) case Some(comment) => [comment] case None => []
  {
    assert items[..i + 1][..i] == items[..i];
  }

  lemma EmptyRemoval(tags: Tags, query: string)
    ensures Matching(tags, query) == [] ==> Without(tags, Matching(tags, query)) == tags
  {
    WithoutNothing(tags, []);
  }

  lemma PassingSnoc(cfg: Config, blocked: set<string>, opts: TriggerOptions, jobs: seq<Job>, i: nat)
    requires i < |jobs|
    ensures jobs[..i + 1][..i] == jobs[..i]
    ensures Refusal(cfg, blocked, jobs[i].ws).None? ==>
              var before, after := Passing(cfg, blocked, jobs[..i]), Passing(cfg, blocked, jobs[..i + 1]);
              && Workspaces(after) == Workspaces(before) + [jobs[i].ws]
              && Publications(opts, after) ==
                 Publications(opts, before) + [Publication(Message(opts, jobs[i]), jobs[i].reply)]
              && Publications(opts, after)[..|before|] == Publications(opts, before)
    ensures Refusal(cfg, blocked, jobs[i].ws).Some? ==>
              Passing(cfg, blocked, jobs[..i + 1]) == Passing(cfg, blocked, jobs[..i])
  {
    assert jobs[..i + 1][..i] == jobs[..i];
  }
}
