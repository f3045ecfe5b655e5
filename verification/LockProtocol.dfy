/** Every sequence of apply, lock, unlock and cleanup commands over the lock tags
    of any number of workspaces, with arbitrary failures of the calls involved.
    The section of an apply from its tag query to its AddTags is one step. */
module LockProtocol {
  import opened Strings
  import opened TagClient
  import opened Locks

  datatype Action = Apply | Destroy | Lock | Plan | Refresh | Unlock | Invalid

  const TFC_LOCK_PREFIX := "gl-lock"

  /** What the remote systems answer while one workspace is triggered. */
  datatype Env = Env(
    found: bool,               // GetWorkspaceByName succeeds
    vcs: bool,                 // the workspace has a VCS backend
    wsLocked: bool,            // the workspace is locked in Terraform Cloud
    flipped: bool,             // the Terraform Cloud lock or unlock call succeeds
    flipListed: bool,
    flipTag: Reply,            // adding or removing the gl-lock tag
    listed: bool,              // the lock query succeeds
    mrState: Option<string>,   // state of the merge request found to hold the lock
    cleanListed: bool,
    clean: Reply,              // removing a stale lock, or all locks on unlock
    add: Reply,                // AddTags for the lock
    discussion: bool,
    created: bool,             // CreateRunFromSource succeeds
    published: bool)

  // ------------------------------------------------------- the apply section

  /** getLockingMR: an unreadable tag list counts as no lock. */
  function CheckedOwner(tags: Tags, mr: nat, env: Env): string {
    if env.listed then LockingMR(Matching(tags, LOCK_PREFIX), Decimal(mr)) else ""
  }

  predicate AllDigits(s: string) {
    forall i :: 0 <= i < |s| ==> IsDigit(s[i])
  }

  /** strconv.Atoi accepts it. */
  predicate FitsInt(s: string) {
    s != "" && AllDigits(s) && DigitsValue(s) < 0x8000_0000_0000_0000
  }

  /** The owner's merge request is known to be merged or closed. */
  predicate SawStale(owner: string, env: Env) {
    owner != "" && FitsInt(owner) && (env.mrState == Some("merged") || env.mrState == Some("closed"))
  }

  function CheckedTags(tags: Tags, mr: nat, env: Env): Tags {
    var owner := CheckedOwner(tags, mr, env);
    if env.wsLocked || !SawStale(owner, env) then tags
    else QueryRemoved(tags, LOCK_STEM + owner, env.cleanListed, env.clean)
  }

  predicate CheckPasses(tags: Tags, mr: nat, env: Env) {
    var owner := CheckedOwner(tags, mr, env);
    && !env.wsLocked
    && (owner == "" || (SawStale(owner, env) && QueryRemovalOk(tags, LOCK_STEM + owner, env.cleanListed, env.clean)))
  }

  function AcquiredTags(tags: Tags, mr: nat, env: Env): Tags {
    if CheckPasses(tags, mr, env) && !env.add.Failed? then WithTag(CheckedTags(tags, mr, env), LockTag(mr))
    else CheckedTags(tags, mr, env)
  }

  predicate Acquired(tags: Tags, mr: nat, env: Env) {
    CheckPasses(tags, mr, env) && env.add.Seen?
  }

  // ------------------------------------------------- one workspace, one action

  /** LockUnlockWorkspace is a no-op when the workspace is in the wanted state. */
  predicate Flips(action: Action, env: Env) {
    (action == Lock && !env.wsLocked) || (action == Unlock && env.wsLocked)
  }

  function FlippedTags(tags: Tags, action: Action, mr: nat, env: Env): Tags {
    if !Flips(action, env) || !env.flipped then tags
    else if action == Lock then
      if env.flipTag.Failed? then tags else WithTag(tags, TFC_LOCK_PREFIX + "-mr-" + Decimal(mr))
    else QueryRemoved(tags, TFC_LOCK_PREFIX, env.flipListed, env.flipTag)
  }

  predicate FlipOk(tags: Tags, action: Action, env: Env) {
    && Flips(action, env) && env.flipped
    && if action == Lock then env.flipTag.Seen? else QueryRemovalOk(tags, TFC_LOCK_PREFIX, env.flipListed, env.flipTag)
  }

  /** Unlock goes on to release the lock tags even if Terraform Cloud had no lock. */
  predicate UnlockReaches(tags: Tags, env: Env) {
    FlipOk(tags, Unlock, env) || !env.wsLocked
  }

  /** The workspace's tags after triggerRunForWorkspace. */
  function TriggeredTags(tags: Tags, action: Action, mr: nat, env: Env): Tags {
    if !env.found || (env.vcs && action == Apply) then tags
    else
      match action
      case Lock => FlippedTags(tags, Lock, mr, env)
      case Unlock =>
        var flipped := FlippedTags(tags, Unlock, mr, env);
        if UnlockReaches(tags, env) then QueryRemoved(flipped, LOCK_PREFIX, env.cleanListed, env.clean) else flipped
      case Apply => AcquiredTags(tags, mr, env)
      case _ => tags
  }

  /** triggerRunForWorkspace creates a run. */
  predicate CreatesRun(tags: Tags, action: Action, mr: nat, env: Env) {
    && env.found && env.discussion && env.created
    && (action == Plan || (action == Apply && !env.vcs && Acquired(tags, mr, env)))
  }

  /** triggerRunForWorkspace returns no error. */
  predicate TriggerOk(tags: Tags, action: Action, mr: nat, env: Env) {
    match action
    case Lock => env.found && FlipOk(tags, Lock, env) && env.discussion
    case Unlock => env.found && UnlockReaches(tags, env) && env.discussion
    case _ => CreatesRun(tags, action, mr, env) && env.published
  }

  predicate CreatesApply(tags: Tags, action: Action, mr: nat, env: Env) {
    action == Apply && CreatesRun(tags, action, mr, env)
  }

  // ----------------------------------------------------------------- cleanup

  /** One triggered workspace of a cleanup and what the calls for it answer; id
      is None when the workspace cannot be read, error is the text of the call that
      failed, if one did. */
  datatype CleanupItem = CleanupItem(name: string, id: Option<string>, listed: bool, remove: Reply, error: string)

  /** The item reaches the removal call: its workspace was listed holding our tag. */
  predicate Reaches(tags: map<string, Tags>, tag: string, item: CleanupItem) {
    item.id.Some? && item.listed && tag in Listed(tags, item.id.value)
  }

  function CleanedOne(tags: map<string, Tags>, tag: string, item: CleanupItem): map<string, Tags> {
    if Reaches(tags, tag, item) && !item.remove.Failed?
    then tags[item.id.value := Without(Listed(tags, item.id.value), [tag])] else tags
  }

  function Cleaned(tags: map<string, Tags>, tag: string, items: seq<CleanupItem>): map<string, Tags> {
    if items == [] then tags
    else
      var n := |items| - 1;
      CleanedOne(Cleaned(tags, tag, items[..n]), tag, items[n])
  }

  /** Names of the workspaces a cleanup reports, in order. */
  function Released(tags: map<string, Tags>, tag: string, items: seq<CleanupItem>): seq<string> {
    if items == [] then []
    else
      var n := |items| - 1;
      var before := Released(tags, tag, items[..n]);
      if Reaches(Cleaned(tags, tag, items[..n]), tag, items[n]) && items[n].remove.Seen?
      then before + [items[n].name] else before
  }

  function ErrorText(msg: string, error: string): string {
    "Error: " + msg + ": " + error
  }

  /** What handleError posts for one item, if anything. */
  function CleanupError(tags: map<string, Tags>, tag: string, item: CleanupItem): Option<string> {
    if item.id.None? then Some(ErrorText("error getting workspace", item.error))
    else if !item.listed then Some(ErrorText("error getting tags", item.error))
    else if Reaches(tags, tag, item) && !item.remove.Seen? then
      Some(ErrorText("Error removing locking tag from workspace", item.error))
    else None
  }

  /** The error comments of a cleanup, in order. */
  function CleanupErrors(tags: map<string, Tags>, tag: string, items: seq<CleanupItem>): seq<string> {
    if items == [] then []
    else
      var n := |items| - 1;
      var before := CleanupErrors(tags, tag, items[..n]);
      match CleanupError(Cleaned(tags, tag, items[..n]), tag, items[n])
      case Some(comment) => before + [comment]
      case None => before
  }

  // -------------------------------------------------------------------- runs

  datatype Step =
    | Trigger(workspace: string, action: Action, mr: nat, env: Env)
    | Cleanup(mr: nat, items: seq<CleanupItem>)

  type State = map<string, Tags>

  function Take(s: State, step: Step): State {
    match step
    case Trigger(workspace, action, mr, env) =>
      s[workspace := TriggeredTags(Listed(s, workspace), action, mr, env)]
    case Cleanup(mr, items) => Cleaned(s, LockTag(mr), items)
  }

  function Run(s: State, steps: seq<Step>): State
    decreases |steps|
  {
    if steps == [] then s else Run(Take(s, steps[0]), steps[1..])
  }

  // -------------------------------------------------------- at most one lock

  lemma OtherTagsAreNoLocks(mr: nat)
    ensures !IsLock(TFC_LOCK_PREFIX + "-mr-" + Decimal(mr))
    ensures !Includes(LockTag(mr), TFC_LOCK_PREFIX)
  {
    var other := TFC_LOCK_PREFIX + "-mr-" + Decimal(mr);
    AbsentHead(other, LOCK_PREFIX);
    AbsentHead(LockTag(mr), TFC_LOCK_PREFIX);
  }

  lemma FewerTagsKeepOneLock(tags: Tags, tags': Tags)
    requires OneLock(tags) && forall t :: t in tags' && IsLock(t) ==> t in tags
    ensures OneLock(tags')
  {
  }

  /** Removing a stale lock by substring leaves no lock and no other tag touched. */
  lemma StaleRemovalIsExact(tags: Tags, a: nat, listed: bool, reply: Reply)
    requires OneLock(tags) && HeldBy(tags, a)
    ensures forall t :: t in QueryRemoved(tags, LockTag(a), listed, reply) <==>
              t in tags && !(listed && !reply.Failed? && t == LockTag(a))
    ensures listed && !reply.Failed? ==> Unlocked(QueryRemoved(tags, LockTag(a), listed, reply))
  {
    LockTagIncludesPrefix(a);
    assert OccursAt(LockTag(a), LockTag(a), 0);
    forall t | t in tags && Includes(t, LockTag(a))
      ensures t == LockTag(a)
    {
      QueryUnderPrefix(t, Decimal(a));
      assert IsLock(t) && IsLock(LockTag(a));
    }
    forall t | t in tags && IsLock(t)
      ensures t == LockTag(a)
    {
      assert IsLock(LockTag(a));
    }
  }

  lemma AcquireOnUnlocked(tags: Tags, mr: nat)
    requires Unlocked(tags)
    ensures OneLock(WithTag(tags, LockTag(mr)))
  {
    forall t | t in WithTag(tags, LockTag(mr)) && IsLock(t)
      ensures t == LockTag(mr)
    {
    }
  }

  /** What the check of merge request mr decides while a holds the only lock. */
  lemma CheckUnderLock(tags: Tags, a: nat, mr: nat, env: Env)
    requires OneLock(tags) && HeldBy(tags, a) && env.listed
    ensures CheckedOwner(tags, mr, env) == if a == mr then "" else Decimal(a)
    ensures a == mr ==> CheckedTags(tags, mr, env) == tags
    ensures a != mr && CheckPasses(tags, mr, env) ==>
              SawStale(Decimal(a), env) && Unlocked(CheckedTags(tags, mr, env))
  {
    CheckSeesOwner(tags, a, mr);
    if a != mr && CheckPasses(tags, mr, env) {
      StaleRemovalIsExact(tags, a, env.cleanListed, env.clean);
      assert OccursAt(LockTag(a), LockTag(a), 0);
      assert LockTag(a) in Matching(tags, LockTag(a));
    }
  }

  /** What counts as stale: the owner's number fits an int, and its merge request was
      read as merged or closed. */
  lemma StaleIff(a: nat, env: Env)
    ensures SawStale(Decimal(a), env) <==>
            a < 0x8000_0000_0000_0000 && env.mrState in {Some("merged"), Some("closed")}
  {
    DecimalRoundTrip(a);
  }

  /** An apply over another merge request's only lock is refused, and no tag changes,
      while that one can be read and is neither merged nor closed. */
  lemma OpenOwnerRefuses(tags: Tags, a: nat, mr: nat, env: Env)
    requires OneLock(tags) && HeldBy(tags, a) && a != mr && env.listed
    requires env.mrState !in {Some("merged"), Some("closed")}
    ensures !CheckPasses(tags, mr, env) && CheckedTags(tags, mr, env) == tags
    ensures !Acquired(tags, mr, env) && AcquiredTags(tags, mr, env) == tags
  {
    CheckUnderLock(tags, a, mr, env);
    StaleIff(a, env);
  }

  lemma CheckShrinks(tags: Tags, mr: nat, env: Env)
    ensures forall t :: t in CheckedTags(tags, mr, env) ==> t in tags
  {
  }

  lemma AcquireKeepsOneLock(tags: Tags, mr: nat, env: Env)
    requires OneLock(tags) && env.listed
    ensures OneLock(AcquiredTags(tags, mr, env))
  {
    CheckShrinks(tags, mr, env);
    var checked := CheckedTags(tags, mr, env);
    FewerTagsKeepOneLock(tags, checked);
    if CheckPasses(tags, mr, env) && !env.add.Failed? {
      HeldOrUnlocked(tags);
      if a: nat :| HeldBy(tags, a) {
        CheckUnderLock(tags, a, mr, env);
        if a == mr {
          assert WithTag(checked, LockTag(mr)) == tags;
        } else {
          AcquireOnUnlocked(checked, mr);
        }
      } else {
        assert Unlocked(checked);
        AcquireOnUnlocked(checked, mr);
      }
    }
  }

  lemma FlipKeepsOneLock(tags: Tags, action: Action, mr: nat, env: Env)
    requires OneLock(tags)
    ensures OneLock(FlippedTags(tags, action, mr, env))
    ensures forall a: nat :: HeldBy(FlippedTags(tags, action, mr, env), a) <==> HeldBy(tags, a)
  {
    OtherTagsAreNoLocks(mr);
    var flipped := FlippedTags(tags, action, mr, env);
    FewerTagsKeepOneLock(tags, flipped);
    forall a: nat
      ensures HeldBy(flipped, a) <==> HeldBy(tags, a)
    {
      OtherTagsAreNoLocks(a);
      LockTagIncludesPrefix(a);
    }
  }

  lemma TwoOwners(tags: Tags, a: nat, b: nat)
    requires a != b && HeldBy(tags, a) && HeldBy(tags, b)
    ensures !OneLock(tags)
  {
    LockTagInjective(a, b);
    LockTagIncludesPrefix(a);
    LockTagIncludesPrefix(b);
  }

  /** Adding the lock tag of mr keeps at most one lock exactly if nobody else holds
      the lock by then. */
  lemma AddKeepsOneLockIff(tags: Tags, mr: nat)
    requires OneLock(tags)
    ensures OneLock(WithTag(tags, LockTag(mr))) <==> Unlocked(tags) || HeldBy(tags, mr)
  {
    if Unlocked(tags) {
      AcquireOnUnlocked(tags, mr);
    } else if !HeldBy(tags, mr) {
      HeldOrUnlocked(tags);
      var a: nat :| HeldBy(tags, a);
      TwoOwners(WithTag(tags, LockTag(mr)), a, mr);
    }
  }

  /** The tag query of an apply fails while another merge request holds the lock,
      and nothing after it stops the apply. */
  ghost predicate ApplyFailsOpen(tags: Tags, mr: nat, env: Env) {
    !env.listed && !env.wsLocked && !env.add.Failed? && !HeldBy(tags, mr) && !Unlocked(tags)
  }

  /** The lock section of an apply keeps at most one lock exactly unless it fails
      open. */
  lemma AcquireKeepsOneLockIff(tags: Tags, mr: nat, env: Env)
    requires OneLock(tags)
    ensures OneLock(AcquiredTags(tags, mr, env)) <==> !ApplyFailsOpen(tags, mr, env)
  {
    if env.listed {
      AcquireKeepsOneLock(tags, mr, env);
    } else if !env.wsLocked && !env.add.Failed? {
      assert AcquiredTags(tags, mr, env) == WithTag(tags, LockTag(mr));
      AddKeepsOneLockIff(tags, mr);
    }
  }

  ghost predicate TriggerFailsOpen(tags: Tags, action: Action, mr: nat, env: Env) {
    action == Apply && env.found && !env.vcs && ApplyFailsOpen(tags, mr, env)
  }

  /** Every action keeps at most one lock, an apply exactly unless it fails open. */
  lemma TriggerKeepsOneLockIff(tags: Tags, action: Action, mr: nat, env: Env)
    requires OneLock(tags)
    ensures OneLock(TriggeredTags(tags, action, mr, env)) <==> !TriggerFailsOpen(tags, action, mr, env)
  {
    FlipKeepsOneLock(tags, action, mr, env);
    match action
    case Apply => AcquireKeepsOneLockIff(tags, mr, env);
    case Unlock =>
      var flipped := FlippedTags(tags, action, mr, env);
      FewerTagsKeepOneLock(flipped, QueryRemoved(flipped, LOCK_PREFIX, env.cleanListed, env.clean));
    case _ =>
  }

  // --------------------------------------------------------- cleanup's frame

  /** Item i of a cleanup removes its workspace's tag. */
  predicate Removes(tags: map<string, Tags>, tag: string, items: seq<CleanupItem>, i: nat)
    requires i < |items|
  {
    Reaches(Cleaned(tags, tag, items[..i]), tag, items[i]) && !items[i].remove.Failed?
  }

  ghost predicate RemovedFrom(tags: map<string, Tags>, tag: string, items: seq<CleanupItem>, workspace: string) {
    exists i: nat :: i < |items| && items[i].id == Some(workspace) && Removes(tags, tag, items, i)
  }

  lemma RemovedFromSnoc(tags: map<string, Tags>, tag: string, items: seq<CleanupItem>, workspace: string)
    requires items != []
    ensures var n := |items| - 1;
            RemovedFrom(tags, tag, items, workspace) <==>
            RemovedFrom(tags, tag, items[..n], workspace)
            || (items[n].id == Some(workspace) && Removes(tags, tag, items, n))
  {
    var n := |items| - 1;
    assert forall i: nat :: i < n ==> items[..n][..i] == items[..i];
    if RemovedFrom(tags, tag, items[..n], workspace) {
      var i: nat :| i < n && items[..n][i].id == Some(workspace) && Removes(tags, tag, items[..n], i);
      assert Removes(tags, tag, items, i);
    }
    if RemovedFrom(tags, tag, items, workspace) {
      var i: nat :| i < |items| && items[i].id == Some(workspace) && Removes(tags, tag, items, i);
      if i < n {
        assert Removes(tags, tag, items[..n], i);
      }
    }
  }

  /** A cleanup changes no tag but this merge request's own, and takes that away
      from a workspace exactly if some item removed it there; nothing else in
      any tag list moves. */
  lemma {:induction false} CleanupFrame(tags: map<string, Tags>, tag: string, items: seq<CleanupItem>,
                                        workspace: string)
    ensures Listed(Cleaned(tags, tag, items), workspace) ==
            if RemovedFrom(tags, tag, items, workspace) then Without(Listed(tags, workspace), [tag])
            else Listed(tags, workspace)
    ensures RemovedFrom(tags, tag, items, workspace) ==> tag in Listed(tags, workspace)
  {
    if items != [] {
      var n := |items| - 1;
      CleanupFrame(tags, tag, items[..n], workspace);
      RemovedFromSnoc(tags, tag, items, workspace);
    }
  }

  /** Some item lists the workspace and removes the tag there. */
  ghost predicate SomeRemoval(items: seq<CleanupItem>, workspace: string) {
    exists i :: 0 <= i < |items| && items[i].id == Some(workspace) && items[i].listed && !items[i].remove.Failed?
  }

  /** So the tag goes exactly if it was there and some item lists the workspace and
      removes it. */
  lemma {:induction false} RemovedIff(tags: map<string, Tags>, tag: string, items: seq<CleanupItem>,
                                      workspace: string)
    ensures RemovedFrom(tags, tag, items, workspace) <==>
            tag in Listed(tags, workspace) && SomeRemoval(items, workspace)
  {
    if items != [] {
      var n := |items| - 1;
      RemovedIff(tags, tag, items[..n], workspace);
      RemovedFromSnoc(tags, tag, items, workspace);
      CleanupFrame(tags, tag, items[..n], workspace);
      SomeRemovalSnoc(items, workspace);
    }
  }

  lemma SomeRemovalSnoc(items: seq<CleanupItem>, workspace: string)
    requires items != []
    ensures var last := items[|items| - 1];
            SomeRemoval(items, workspace) <==>
            SomeRemoval(items[..|items| - 1], workspace)
            || (last.id == Some(workspace) && last.listed && !last.remove.Failed?)
  {
    var before := items[..|items| - 1];
    assert items == before + [items[|items| - 1]];
    if i :| 0 <= i < |before| && before[i].id == Some(workspace) && before[i].listed && !before[i].remove.Failed? {
      assert items[i] == before[i];
    }
  }

  /** Item i is reported: its removal succeeded and was known to. */
  predicate Succeeds(tags: map<string, Tags>, tag: string, items: seq<CleanupItem>, i: nat)
    requires i < |items|
  {
    Removes(tags, tag, items, i) && items[i].remove.Seen?
  }

  /** That is: its workspace held the tag at the start, it lists and removes it and
      knows so, and no item before it removed it there. */
  lemma SucceedsIff(tags: map<string, Tags>, tag: string, items: seq<CleanupItem>, i: nat)
    requires i < |items|
    ensures Succeeds(tags, tag, items, i) <==>
            && items[i].id.Some? && items[i].listed && items[i].remove.Seen?
            && tag in Listed(tags, items[i].id.value) && !SomeRemoval(items[..i], items[i].id.value)
  {
    if items[i].id.Some? {
      CleanupFrame(tags, tag, items[..i], items[i].id.value);
      RemovedIff(tags, tag, items[..i], items[i].id.value);
    }
  }

  lemma SucceedsInPrefix(tags: map<string, Tags>, tag: string, items: seq<CleanupItem>, n: nat, i: nat)
    requires i < n <= |items|
    ensures Succeeds(tags, tag, items[..n], i) <==> Succeeds(tags, tag, items, i)
  {
    assert items[..n][..i] == items[..i];
  }

  /** Positions of the items whose removal succeeded. */
  ghost function Successes(tags: map<string, Tags>, tag: string, items: seq<CleanupItem>): (at: seq<nat>)
    ensures forall k :: 0 <= k < |at| ==> at[k] < |items|
    ensures forall k, l :: 0 <= k < l < |at| ==> at[k] < at[l]
  {
    if items == [] then []
    else
      var n := |items| - 1;
      var before := Successes(tags, tag, items[..n]);
      if Succeeds(tags, tag, items, n) then before + [n] else before
  }

  lemma {:induction false} SuccessesComplete(tags: map<string, Tags>, tag: string, items: seq<CleanupItem>, i: nat)
    requires i < |items|
    ensures i in Successes(tags, tag, items) <==> Succeeds(tags, tag, items, i)
  {
    var n := |items| - 1;
    if i < n {
      SuccessesComplete(tags, tag, items[..n], i);
      SucceedsInPrefix(tags, tag, items, n, i);
    }
  }

  /** A cleanup reports exactly the items whose removal succeeded, in order. */
  lemma {:induction false} ReleasedExactly(tags: map<string, Tags>, tag: string, items: seq<CleanupItem>, k: nat)
    ensures |Released(tags, tag, items)| == |Successes(tags, tag, items)|
    ensures k < |Released(tags, tag, items)| ==>
              Released(tags, tag, items)[k] == items[Successes(tags, tag, items)[k]].name
  {
    if items != [] {
      ReleasedExactly(tags, tag, items[..|items| - 1], k);
    }
  }

  /** Positions of the items that were read and did not hold the tag. */
  ghost function NotHolding(tags: map<string, Tags>, tag: string, items: seq<CleanupItem>): (at: seq<nat>)
    ensures forall k :: 0 <= k < |at| ==> at[k] < |items|
    ensures forall k, l :: 0 <= k < l < |at| ==> at[k] < at[l]
  {
    if items == [] then []
    else
      var n := |items| - 1;
      var before, item := NotHolding(tags, tag, items[..n]), items[n];
      if item.id.Some? && item.listed && !Reaches(Cleaned(tags, tag, items[..n]), tag, item)
      then before + [n] else before
  }

  /** Every workspace of a cleanup is reported released, complained about, or was
      read and did not hold the tag: none is dropped in silence. */
  lemma {:induction false} CleanupAccountsForAll(tags: map<string, Tags>, tag: string, items: seq<CleanupItem>)
    ensures |Released(tags, tag, items)| + |CleanupErrors(tags, tag, items)| + |NotHolding(tags, tag, items)| == |items|
  {
    if items != [] {
      CleanupAccountsForAll(tags, tag, items[..|items| - 1]);
    }
  }

  lemma CleanupKeepsOneLock(tags: map<string, Tags>, mr: nat, items: seq<CleanupItem>, workspace: string)
    requires OneLock(Listed(tags, workspace))
    ensures OneLock(Listed(Cleaned(tags, LockTag(mr), items), workspace))
  {
    CleanupFrame(tags, LockTag(mr), items, workspace);
    FewerTagsKeepOneLock(Listed(tags, workspace), Listed(Cleaned(tags, LockTag(mr), items), workspace));
  }

  /** While a holds the only lock, another merge request's check passes exactly
      when the tag query failed, or a was seen merged or closed and its tag could
      be removed: the failed query fails open. */
  lemma CheckFailsOpen(tags: Tags, a: nat, mr: nat, env: Env)
    requires OneLock(tags) && HeldBy(tags, a) && a != mr && !env.wsLocked
    ensures CheckPasses(tags, mr, env) <==>
            !env.listed || (a < 0x8000_0000_0000_0000 && env.mrState in {Some("merged"), Some("closed")}
                            && env.cleanListed && env.clean.Seen?)
  {
    if env.listed {
      StaleIff(a, env);
      CheckUnderLock(tags, a, mr, env);
      assert OccursAt(LockTag(a), LockTag(a), 0);
      assert LockTag(a) in Matching(tags, LockTag(a));
    }
  }

  // ------------------------------------------------------- safety over runs

  ghost predicate FailsOpen(s: State, step: Step, workspace: string) {
    step.Trigger? && step.workspace == workspace
    && TriggerFailsOpen(Listed(s, workspace), step.action, step.mr, step.env)
  }

  /** Some apply of the run fails open on the workspace. */
  ghost predicate SomeFailOpen(s: State, steps: seq<Step>, workspace: string)
    decreases |steps|
  {
    steps != [] && (FailsOpen(s, steps[0], workspace) || SomeFailOpen(Take(s, steps[0]), steps[1..], workspace))
  }

  /** In every state of the run the workspace has at most one lock. */
  ghost predicate AlwaysOneLock(s: State, steps: seq<Step>, workspace: string)
    decreases |steps|
  {
    OneLock(Listed(s, workspace)) && (steps == [] || AlwaysOneLock(Take(s, steps[0]), steps[1..], workspace))
  }

  lemma TakeKeepsOneLockIff(s: State, step: Step, workspace: string)
    requires OneLock(Listed(s, workspace))
    ensures OneLock(Listed(Take(s, step), workspace)) <==> !FailsOpen(s, step, workspace)
  {
    match step
    case Trigger(w, action, mr, env) =>
      if w == workspace { TriggerKeepsOneLockIff(Listed(s, w), action, mr, env); }
    case Cleanup(mr, items) => CleanupKeepsOneLock(s, mr, items, workspace);
  }

  /** From any state in which a workspace has at most one lock, none included, every
      run keeps at most one in every state exactly if no apply fails open there. */
  lemma {:induction false} AtMostOneLockIff(s: State, steps: seq<Step>, workspace: string)
    requires OneLock(Listed(s, workspace))
    ensures AlwaysOneLock(s, steps, workspace) <==> !SomeFailOpen(s, steps, workspace)
    decreases |steps|
  {
    if steps != [] {
      var next := Take(s, steps[0]);
      TakeKeepsOneLockIff(s, steps[0], workspace);
      if OneLock(Listed(next, workspace)) {
        AtMostOneLockIff(next, steps[1..], workspace);
      }
    }
  }

  /** The step creates an apply run of merge request mr on the workspace. */
  predicate AppliesTo(s: State, step: Step, workspace: string, mr: nat) {
    step.Trigger? && step.workspace == workspace && step.mr == mr
    && CreatesApply(Listed(s, workspace), step.action, mr, step.env)
  }

  /** No tag contains the text. */
  ghost predicate FreeOf(tags: Tags, text: string) {
    forall t :: t in tags ==> !Includes(t, text)
  }

  /** The step releases the only lock, a's: an unlock that gets past Terraform Cloud's
      own lock and whose removal takes effect, a cleanup for a that lists the workspace
      and removes the tag, or another merge request's apply that lists the tags, sees
      a merged or closed, and removes its tag. */
  ghost predicate Releases(s: State, step: Step, workspace: string, a: nat) {
    match step
    case Trigger(w, Unlock, mr, env) =>
      && w == workspace && env.found && env.cleanListed && !env.clean.Failed?
      && (env.wsLocked ==> env.flipped && env.flipListed && (env.flipTag.Seen? || FreeOf(Listed(s, w), "gl-lock")))
    case Trigger(w, Apply, mr, env) =>
      && w == workspace && mr != a && env.found && !env.vcs && !env.wsLocked && env.listed
      && a < 0x8000_0000_0000_0000 && env.mrState in {Some("merged"), Some("closed")}
      && env.cleanListed && !env.clean.Failed?
    case Trigger(_, _, _, _) => false
    case Cleanup(mr, items) => mr == a && SomeRemoval(items, workspace)
  }

  lemma ApplyTakesLock(s: State, step: Step, workspace: string, mr: nat)
    requires AppliesTo(s, step, workspace, mr)
    ensures HeldBy(Listed(Take(s, step), workspace), mr)
  {
  }

  /** An apply takes the only lock away from a exactly if its check removed it. */
  lemma ApplyReleasesIff(tags: Tags, a: nat, mr: nat, env: Env)
    requires OneLock(tags) && HeldBy(tags, a)
    ensures !HeldBy(AcquiredTags(tags, mr, env), a) <==>
            mr != a && !env.wsLocked && env.listed
            && a < 0x8000_0000_0000_0000 && env.mrState in {Some("merged"), Some("closed")}
            && env.cleanListed && !env.clean.Failed?
  {
    StaleIff(a, env);
    if env.listed {
      CheckUnderLock(tags, a, mr, env);
      LockTagInjective(mr, a);
      StaleRemovalIsExact(tags, a, env.cleanListed, env.clean);
    }
  }

  /** An unlock goes on to the lock tags exactly if Terraform Cloud had no lock of its
      own, or that one was taken off together with its tags. */
  lemma UnlockReachesIff(tags: Tags, env: Env)
    ensures UnlockReaches(tags, env) <==>
            (env.wsLocked ==> env.flipped && env.flipListed && (env.flipTag.Seen? || FreeOf(tags, "gl-lock")))
  {
    if Matching(tags, TFC_LOCK_PREFIX) != [] {
      assert Matching(tags, TFC_LOCK_PREFIX)[0] in Matching(tags, TFC_LOCK_PREFIX);
    }
  }

  lemma UnlockReleases(tags: Tags, a: nat, mr: nat, env: Env)
    requires OneLock(tags) && HeldBy(tags, a) && env.found
    ensures !HeldBy(TriggeredTags(tags, Unlock, mr, env), a) <==>
            UnlockReaches(tags, env) && env.cleanListed && !env.clean.Failed?
  {
    FlipKeepsOneLock(tags, Unlock, mr, env);
    LockTagIncludesPrefix(a);
  }

  /** A step takes the only lock of a workspace away from its owner exactly if it is
      one of the releasing steps. */
  lemma ReleasesIff(s: State, step: Step, workspace: string, a: nat)
    requires OneLock(Listed(s, workspace)) && HeldBy(Listed(s, workspace), a)
    ensures !HeldBy(Listed(Take(s, step), workspace), a) <==> Releases(s, step, workspace, a)
  {
    match step
    case Trigger(w, action, mr, env) =>
      if w == workspace && env.found {
        match action
        case Apply => ApplyReleasesIff(Listed(s, w), a, mr, env);
        case Unlock =>
          UnlockReleases(Listed(s, w), a, mr, env);
          UnlockReachesIff(Listed(s, w), env);
        case Lock => FlipKeepsOneLock(Listed(s, w), Lock, mr, env);
        case _ =>
      }
    case Cleanup(mr, items) =>
      CleanupFrame(s, LockTag(mr), items, workspace);
      LockTagInjective(mr, a);
      RemovedIff(s, LockTag(mr), items, workspace);
  }

  /** An apply over another merge request's only lock saw that one merged or closed
      and removed its tag, or failed open. */
  lemma ApplyOverLock(s: State, step: Step, workspace: string, a: nat, b: nat)
    requires OneLock(Listed(s, workspace)) && HeldBy(Listed(s, workspace), a) && a != b
    requires AppliesTo(s, step, workspace, b)
    ensures Releases(s, step, workspace, a) || FailsOpen(s, step, workspace)
  {
    var tags := Listed(s, workspace);
    CheckFailsOpen(tags, a, b, step.env);
    if step.env.listed {
      CheckUnderLock(tags, a, b, step.env);
    } else {
      LockTagIncludesPrefix(a);
      if HeldBy(tags, b) {
        TwoOwners(tags, a, b);
      }
    }
  }

  /** Some step of the run releases the lock of a. */
  ghost predicate SomeRelease(s: State, steps: seq<Step>, workspace: string, a: nat)
    decreases |steps|
  {
    steps != [] && (Releases(s, steps[0], workspace, a) || SomeRelease(Take(s, steps[0]), steps[1..], workspace, a))
  }

  ghost predicate SoleOwner(s: State, workspace: string, a: nat) {
    OneLock(Listed(s, workspace)) && HeldBy(Listed(s, workspace), a)
  }

  /** In every state of the run a holds the workspace's only lock. */
  ghost predicate AlwaysHeld(s: State, steps: seq<Step>, workspace: string, a: nat)
    decreases |steps|
  {
    SoleOwner(s, workspace, a) && (steps == [] || AlwaysHeld(Take(s, steps[0]), steps[1..], workspace, a))
  }

  lemma SoleOwnerNextIff(s: State, step: Step, workspace: string, a: nat)
    requires SoleOwner(s, workspace, a)
    ensures SoleOwner(Take(s, step), workspace, a) <==>
            !Releases(s, step, workspace, a) && !FailsOpen(s, step, workspace)
  {
    TakeKeepsOneLockIff(s, step, workspace);
    ReleasesIff(s, step, workspace, a);
  }

  /** Over any run the owner keeps the only lock of a workspace in every state
      exactly if no step releases it and no apply fails open. */
  lemma {:induction false} LockHeldIff(s: State, steps: seq<Step>, workspace: string, a: nat)
    requires SoleOwner(s, workspace, a)
    ensures AlwaysHeld(s, steps, workspace, a) <==>
            !SomeRelease(s, steps, workspace, a) && !SomeFailOpen(s, steps, workspace)
    decreases |steps|
  {
    if steps != [] {
      var next := Take(s, steps[0]);
      SoleOwnerNextIff(s, steps[0], workspace, a);
      if SoleOwner(next, workspace, a) {
        LockHeldIff(next, steps[1..], workspace, a);
      }
    }
  }

  lemma {:induction false} HeldAtEnd(s: State, steps: seq<Step>, workspace: string, a: nat)
    requires AlwaysHeld(s, steps, workspace, a)
    ensures SoleOwner(Run(s, steps), workspace, a)
    decreases |steps|
  {
    if steps != [] {
      HeldAtEnd(Take(s, steps[0]), steps[1..], workspace, a);
    }
  }

  lemma {:induction false} LastStepCounts(s: State, steps: seq<Step>, last: Step, workspace: string, a: nat)
    ensures SomeRelease(s, steps + [last], workspace, a) <==>
            SomeRelease(s, steps, workspace, a) || Releases(Run(s, steps), last, workspace, a)
    ensures SomeFailOpen(s, steps + [last], workspace) <==>
            SomeFailOpen(s, steps, workspace) || FailsOpen(Run(s, steps), last, workspace)
    decreases |steps|
  {
    if steps == [] {
      assert steps + [last] == [last];
    } else {
      assert (steps + [last])[1..] == steps[1..] + [last];
      LastStepCounts(Take(s, steps[0]), steps[1..], last, workspace, a);
    }
  }

  /** Lock safety over whole runs, whatever calls fail: if merge request a and later
      a different merge request b both create apply runs on a workspace, then after
      a's run and no later than b's the lock of a was released there by an unlock,
      by a cleanup for a, or by a check that saw a merged or closed; or, from a's run
      to b's, some apply's tag query failed while another held the lock. s is any
      state the workspace has at most one lock in. */
  lemma AppliesAreSeparated(s: State, first: Step, between: seq<Step>, last: Step, workspace: string, a: nat, b: nat)
    requires a != b && OneLock(Listed(s, workspace))
    requires AppliesTo(s, first, workspace, a)
    requires AppliesTo(Run(Take(s, first), between), last, workspace, b)
    ensures SomeRelease(Take(s, first), between + [last], workspace, a)
            || FailsOpen(s, first, workspace) || SomeFailOpen(Take(s, first), between + [last], workspace)
  {
    var s1 := Take(s, first);
    LastStepCounts(s1, between, last, workspace, a);
    if !FailsOpen(s, first, workspace) {
      TakeKeepsOneLockIff(s, first, workspace);
      ApplyTakesLock(s, first, workspace, a);
      LockHeldIff(s1, between, workspace, a);
      if AlwaysHeld(s1, between, workspace, a) {
        HeldAtEnd(s1, between, workspace, a);
        ApplyOverLock(Run(s1, between), last, workspace, a, b);
      }
    }
  }

  // --------------------------------------------------------- which runs start

  /** A plan touches no tag and starts its run whatever the locks are; an apply starts
      one exactly if it acquired the lock and the workspace has no VCS backend; no
      other action starts any. */
  lemma RunStartsIff(tags: Tags, action: Action, mr: nat, env: Env)
    ensures action == Plan ==>
              && TriggeredTags(tags, action, mr, env) == tags
              && (CreatesRun(tags, action, mr, env) <==> env.found && env.discussion && env.created)
    ensures action == Apply ==>
              (CreatesRun(tags, action, mr, env) <==>
               env.found && env.discussion && env.created && !env.vcs && Acquired(tags, mr, env))
    ensures action != Plan && action != Apply ==> !CreatesRun(tags, action, mr, env)
  {
  }

  /** Success is reported for a plan or apply whose run was started and published, for
      a lock newly taken whose tag was added, and for an unlock that got past Terraform
      Cloud's own lock; for nothing else. */
  lemma ReportsSuccessIff(tags: Tags, action: Action, mr: nat, env: Env)
    ensures TriggerOk(tags, action, mr, env) <==>
            match action
            case Plan => env.found && env.discussion && env.created && env.published
            case Apply =>
              env.found && !env.vcs && Acquired(tags, mr, env) && env.discussion && env.created && env.published
            case Lock => env.found && !env.wsLocked && env.flipped && env.flipTag.Seen? && env.discussion
            case Unlock =>
              && env.found && env.discussion
              && (env.wsLocked ==> env.flipped && env.flipListed && (env.flipTag.Seen? || FreeOf(tags, "gl-lock")))
            case _ => false
  {
    UnlockReachesIff(tags, env);
  }

  /** A lock command adds the tag of Terraform Cloud's lock, an unlock command takes
      all of them away, and each only if that lock had to change and did. */
  lemma FlippedTagsIff(tags: Tags, mr: nat, env: Env, t: string)
    ensures t in FlippedTags(tags, Lock, mr, env) <==>
            t in tags || (!env.wsLocked && env.flipped && env.flipTag != Failed && t == "gl-lock-mr-" + Decimal(mr))
    ensures t in FlippedTags(tags, Unlock, mr, env) <==>
            t in tags && !(env.wsLocked && env.flipped && env.flipListed && env.flipTag != Failed
                           && Includes(t, "gl-lock"))
  {
  }

  /** A failed call of a cleanup is complained about by name, and only then: reading the
      workspace, listing its tags, or taking the tag away where it is listed. */
  lemma ComplaintIff(tags: map<string, Tags>, tag: string, item: CleanupItem)
    ensures CleanupError(tags, tag, item) ==
            if item.id == None then Some("Error: " + "error getting workspace" + ": " + item.error)
            else if !item.listed then Some("Error: " + "error getting tags" + ": " + item.error)
            else if tag in Listed(tags, item.id.value) && item.remove != Seen then
              Some("Error: " + "Error removing locking tag from workspace" + ": " + item.error)
            else None
  {
  }

  /** Item i fails: its workspace cannot be read or its tags cannot be listed, or it holds
      the tag, which no item before it removed there, and is not known to lose it. */
  ghost predicate Fails(tags: map<string, Tags>, tag: string, items: seq<CleanupItem>, i: nat)
    requires i < |items|
  {
    || items[i].id == None || !items[i].listed
    || (items[i].remove != Seen && tag in Listed(tags, items[i].id.value)
        && !SomeRemoval(items[..i], items[i].id.value))
  }

  lemma FailsIff(tags: map<string, Tags>, tag: string, items: seq<CleanupItem>, i: nat)
    requires i < |items|
    ensures CleanupError(Cleaned(tags, tag, items[..i]), tag, items[i]).Some? <==> Fails(tags, tag, items, i)
  {
    ComplaintIff(Cleaned(tags, tag, items[..i]), tag, items[i]);
    if items[i].id.Some? {
      CleanupFrame(tags, tag, items[..i], items[i].id.value);
      RemovedIff(tags, tag, items[..i], items[i].id.value);
    }
  }

  /** The text says which call failed, and how. */
  ghost predicate SaysWhy(comment: string, item: CleanupItem) {
    comment == "Error: " + (if item.id == None then "error getting workspace"
                            else if !item.listed then "error getting tags"
                            else "Error removing locking tag from workspace") + ": " + item.error
  }

  /** at lists, in order, the items complained about: exactly those that fail, each with
      its own text. */
  lemma {:induction false} ComplaintsInOrder(tags: map<string, Tags>, tag: string, items: seq<CleanupItem>)
    returns (at: seq<nat>)
    ensures |at| == |CleanupErrors(tags, tag, items)| && Ascending(at, |items|)
    ensures forall k :: 0 <= k < |at| ==> SaysWhy(CleanupErrors(tags, tag, items)[k], items[at[k]])
    ensures forall i: nat :: i < |items| ==> (i in at <==> Fails(tags, tag, items, i))
  {
    at := [];
    if items != [] {
      var n := |items| - 1;
      var before := ComplaintsInOrder(tags, tag, items[..n]);
      AscendingSnoc(before, n);
      FailsIff(tags, tag, items, n);
      ComplaintIff(Cleaned(tags, tag, items[..n]), tag, items[n]);
      forall i: nat | i < n
        ensures Fails(tags, tag, items[..n], i) <==> Fails(tags, tag, items, i)
      {
        assert items[..n][..i] == items[..i];
      }
      at := if CleanupError(Cleaned(tags, tag, items[..n]), tag, items[n]).Some? then before + [n] else before;
    }
  }

  // ------------------------------------------------------ where it does not hold

  /** Who gets the lock while queries succeed: the merge request that holds it
      already, anyone if nobody does, and anyone if the owner is known to be merged
      or closed and its tag could be removed; unless Terraform Cloud's own lock is
      set or the tag is not known to have been added. */
  lemma AcquiredIff(tags: Tags, mr: nat, env: Env)
    requires OneLock(tags) && env.listed
    ensures Acquired(tags, mr, env) <==>
            !env.wsLocked && env.add.Seen?
            && (Unlocked(tags) || HeldBy(tags, mr)
                || exists a: nat :: HeldBy(tags, a) && a < 0x8000_0000_0000_0000
                                    && env.mrState in {Some("merged"), Some("closed")}
                                    && env.cleanListed && env.clean.Seen?)
  {
    HeldOrUnlocked(tags);
    if a: nat :| HeldBy(tags, a) {
      LockTagIncludesPrefix(a);
      CheckUnderLock(tags, a, mr, env);
      if a != mr && !env.wsLocked {
        CheckFailsOpen(tags, a, mr, env);
      }
    } else {
      CheckSeesNobody(tags, mr);
    }
  }

  /** After an unlock no lock tag is left exactly if none was there, or the command
      got past Terraform Cloud's own lock and the removal took effect. */
  lemma UnlockReleasesIff(tags: Tags, mr: nat, env: Env)
    requires OneLock(tags)
    ensures Unlocked(TriggeredTags(tags, Unlock, mr, env)) <==>
            || Unlocked(tags)
            || (env.found && env.cleanListed && !env.clean.Failed?
                && (env.wsLocked ==>
                      env.flipped && env.flipListed && (env.flipTag.Seen? || FreeOf(tags, "gl-lock"))))
  {
    UnlockReachesIff(tags, env);
    var flipped := FlippedTags(tags, Unlock, mr, env);
    FlipKeepsOneLock(tags, Unlock, mr, env);
    SameHoldersSameLocked(tags, flipped);
  }

  lemma SameHoldersSameLocked(tags: Tags, tags': Tags)
    requires OneLock(tags) && OneLock(tags') && forall a: nat :: HeldBy(tags, a) <==> HeldBy(tags', a)
    ensures Unlocked(tags) <==> Unlocked(tags')
  {
    LockedIffHeld(tags);
    LockedIffHeld(tags');
  }

  lemma LockedIffHeld(tags: Tags)
    requires OneLock(tags)
    ensures !Unlocked(tags) <==> exists a: nat :: HeldBy(tags, a)
  {
    HeldOrUnlocked(tags);
    if a: nat :| HeldBy(tags, a) {
      LockTagIncludesPrefix(a);
    }
  }

  /** With two owners on a workspace, cleaning up the stale lock of merge request
      5 also removes the live lock of merge request 50. */
  lemma StaleRemovalHitsExtensions()
    ensures QueryRemoved([LockTag(5), LockTag(50)], LockTag(5), true, Seen) == []
  {
    assert Decimal(50) == Decimal(5) + "0";
    QueryHitsExtensions(5, 50);
    QueryHitsExtensions(5, 5);
    var after := QueryRemoved([LockTag(5), LockTag(50)], LockTag(5), true, Seen);
    assert forall t :: t !in after;
  }
}
