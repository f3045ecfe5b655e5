# TFBuddy: verified models of its protocols

TFBuddy turns merge requests into Terraform Cloud runs. This project models the parts of it where several replicas,
unreliable calls or delimiter-based text meet, and proves what those parts promise and where they break the promise.
`dafny verify dfyconfig.toml` checks everything.

| modules | models |
|---|---|
| `KeyValue`, `PollingProtocol`, `PollingWrites`, `PollingEvents`, `PollingOrphans` | run polling as a transition system: any number of dispatchers and workers over a revisioned bucket, a work queue and a log of published events; every interleaving, redelivery, lost reply and crash is a sequence of steps |
| `RunPolling` | the same code as it is written: task objects updated in place, the dispatcher's loop, the message handler and the callback, each proved to take exactly the protocol steps it stands for |
| `TagClient`, `Locks`, `LockProtocol`, `SplitLocks` | workspace locks kept as tags; runs of apply, lock, unlock and cleanup commands over any number of workspaces with arbitrary failures, first with each command as one step, then with the lock section of an apply taken apart and interleaved |
| `ProjectConfig`, `AllowDenyList` | which workspaces a change selects, which of them the target branch has touched, which are allowed |
| `WorkspaceStream`, `Dispatch`, `TfcTrigger` | dispatch inline or through the deduplicated fan-out queue, the trigger object and the queue's worker |
| `Formatter`, `RunHistory`, `GitlabClient`, `RunComments`, `HistoryRuns`, `GithubClient`, `GithubRuns`, `ConfigDocs` | hidden markers, the run-history block, pruning of old notes, what an ended run's note becomes and whether the next run recognizes it, what becomes of the history over many updates, and the generated block of the usage document |
| `Strings` | the string operations of Go the above use, and the lemma every parser rests on (`FirstIndexAfter`) |

The bucket is the sequence of all writes to it, a revision is a position in that sequence, and deletes are writes.
A remote call that changes something answers with a `Reply`: done and known to be (`Seen`), done but reported as an
error (`Unseen`), or not done (`Failed`). What remote systems answer to reads is part of a step's `Env`, `Turn`,
`Poll` or `CleanupItem`, so every statement holds for all answers unless it says otherwise.

The lock results need no assumption about which calls fail: where a failed tag query breaks the promise, the statement
says so (`AtMostOneLockIff`, `AppliesAreSeparated`). `LockProtocol` takes the section of an apply from its tag query to
its `AddTags` as one step; `SplitLocks` takes it apart, proves over every interleaving exactly when at most one lock is
kept, what a second lock is caused by, and that an undisturbed section is the one step. A tag query lists every match, and one project uses a workspace.

## Where the code does less than it says

- A polling message is acknowledged although `Reschedule` failed (pkg/tfc_hooks/polling.go:45-58). Together with a
  lost reply to a claim and a claim dropped before it is published, these are exactly the ways to leave a claimed task
  without a message (`OrphanedExactlyByLossySteps`, over runs `NeverOrphanIff`). It is lost once the last redelivered copy is gone too
  (`LostExactlyByLastCopy`) and then stays lost (`LostForGood`); `FailedRescheduleLosesTask` is a run of one replica and
  one worker.
- A failed tag query counts as "not locked" (pkg/tfc_trigger/tfc_trigger.go:288-295), so it lets a second merge
  request lock (`AcquireKeepsOneLockIff`, over runs `AtMostOneLockIff`).
- Stale-lock cleanup removes by substring (pkg/tfc_trigger/tfc_trigger.go:681-682). Under one lock per workspace that
  is exact (`StaleRemovalIsExact`); otherwise it also hits every merge request whose number extends the stale one
  (`QueryHitsExtensions`, `StaleRemovalHitsExtensions`).
- Nothing keeps the section from the tag query to `AddTags` together (pkg/tfc_trigger/tfc_trigger.go:663-705): two
  overlapping applies can both lock (`OverlapAdmitsTwoOwners`; exactly when, `SplitLocks.AtMostOneLockIff`; why,
  `ClashHasCause`).
- The comment on `workspaceForDir` (pkg/tfc_trigger/project_config.go:27-32) speaks of matching directory suffixes; the
  code compares text suffixes, so "v" matches "dev" (`SuffixNeedNotBeComponent`; exactly when the two rules agree,
  `ComponentRuleIff`).
- Two selected workspaces with the same `Dir` are one map entry, so one is dropped (`SharedDirDropsOne`; exactly when,
  `NothingDroppedIff`).
- Allow and deny entries are lower-cased and workspace names are not, so a name with an upper-case letter is on no
  list (`UpperCaseNamesAreNeverListed`; exactly which names can be listed, `ListableIff`).
- The deduplication key joins names with "/", so a workspace shares its key with some other one exactly if its name or
  organization contains a slash (`SlashesCollide`).
- If the target branch cannot be evaluated, nothing is blocked (`EvaluateAndDispatch`).
- Without a new row `GetOldRunUrls` returns the old history without its enclosing tags, so the next reader does not
  find it (`HistoryKeptIffRows`). Only a marked note of the bot that has a history and no details leads there
  (`BareHistoryListing`); a note the program rewrote always yields its run's row (`OwnRowCollected`).
- On GitHub a failing deletion ends `GetOldRunUrls` after earlier comments are gone (pkg/vcs/github/client.go:151-161),
  and the new comment is posted without the history it had read (pkg/vcs/github/run_events_worker.go:77-96). The history
  survives exactly if the comment that carries it is the current one, or its own deletion or one before it fails
  (`HistorySurvivesFailureIff`).
- A canceled run is among the statuses after which the history is collected (pkg/vcs/gitlab/mr_comment_updater.go:25)
  and not among those that have a text (pkg/comment_formatter/tfc_status_update.go:118-120). Its note becomes the history
  alone, without a marker, and no longer counts: the next run reads what older threads carry, which is nothing if they
  were deleted (`HistoryPassedOn`, `CanceledRunForgets`, `CanceledRunLosesHistory`). On GitHub a canceled run posts
  nothing, so nothing is lost (`NothingPostedIff`).
- A history row links to the run's identifier and not to its address: the reader takes what stands between the brackets
  (pkg/vcs/gitlab/client.go:191-204), where the writer puts the identifier
  (pkg/comment_formatter/tfc_status_update.go:157) (`RowOfDetails`).

## Model

| member | source | states |
|---|---|---|
| KeyValue.LastRev | pkg/runstream/run_polling.go:101-107 | the revision compare-and-swap compares against is that of the newest write to the key, deletes included; 0 if the key was never written |
| KeyValue.LiveIff | pkg/runstream/run_polling.go:60-62 | a key holds a value exactly if the newest write to it is not a delete |
| KeyValue.RevisionSwappedOnce | pkg/runstream/run_polling.go:91-109 | fencing: of two compare-and-swap writes to a key the later one replaced a revision no older than the earlier write, so no revision is swapped away twice |
| KeyValue.NoRevival | pkg/runstream/run_polling.go:64-72 | after a delete the next value of the key comes from Schedule, never from a late claim or Reschedule |
| PollingProtocol.StepKeepsInv | pkg/runstream/run_polling.go:127-178 | every step of any dispatcher or worker keeps the invariant: lawful bucket, tokens that match the claims that made them, one carrier per revision |
| PollingProtocol.ReachableInv | pkg/runstream/run_polling.go:127-221 | the invariant holds in every reachable state |
| PollingProtocol.AtMostOneCarrier | pkg/runstream/run_polling.go:155-164 | in every reachable state a key has at most one unpublished claim or queued message of its current revision, and then the stored task is Processing and equals what the carrier holds |
| PollingProtocol.FencedOverRuns | pkg/runstream/run_polling.go:91-109 | over every run no claimed revision is rescheduled or claimed twice, and a deleted key lives again only through Schedule |
| PollingWrites.WritesOverRuns | pkg/tfc_hooks/polling.go:45-85 | over every run: a new task is "new", unclaimed and waits at least a second; a claim takes a task that was unclaimed and due; a reschedule puts a claimed task back for ten seconds, and its status is one of the seven running ones; a completed task was deleted on a status that is none of the seven |
| PollingWrites.FinishWrites | pkg/tfc_hooks/polling.go:45-58 | a finishing worker appends the reschedule on its own revision if the status is running, and otherwise the delete whatever the revision |
| PollingWrites.ScheduleWrites | pkg/runstream/run_polling.go:43-62 | a new task waits for the delay asked for, or ten seconds if that is under one; on a key that holds a value nothing happens |
| PollingEvents.StatusesReported | pkg/tfc_hooks/polling.go:29-57 | over every run the stored status changes of a run ID are a subsequence of its published events, and every stored status, and the last one seen before completion, was published or is "new" |
| PollingEvents.StepKeepsReported | pkg/tfc_hooks/polling.go:29-57 | no step stores a status before it was published |
| PollingOrphans.OrphanedExactlyByLossySteps | pkg/runstream/run_polling.go:155-171 | a step leaves a claimed task without carrier if and only if it loses the reply of that task's claim, drops its current claim, or acknowledges its message although nobody replaced the claim; whatever has become of other tasks |
| PollingOrphans.NeverOrphanIff | pkg/runstream/run_polling.go:155-171 | from any state in which a task is not orphaned, it is orphaned in no state of a run exactly if no step of the run is such a step for it |
| PollingOrphans.FaultFreeRunsLoseNothing | pkg/tfc_hooks/polling.go:45-58 | without those faults no reachable state has an orphan, however often messages are redelivered, workers crash and acknowledgements get lost |
| PollingOrphans.ClaimedTaskHasItsCarrier | pkg/runstream/run_polling.go:155-171 | in such runs a live task with Processing set has exactly one carrier of its current revision |
| PollingOrphans.LostExactlyByLastCopy | pkg/runstream/run_polling.go:155-171 | a step makes a key lost if and only if it drops the last copy of its claim: the claim with its lost reply, the holding dispatcher, a worker's copy, or a message with the copy of the worker that acknowledges it |
| PollingOrphans.LostForGood | pkg/runstream/run_polling.go:155 | a lost task is never polled again in any continuation: its claim stays as it is until somebody deletes the key |
| PollingOrphans.FailedRescheduleLosesTask | pkg/tfc_hooks/polling.go:45-58 | a run in which a failed Reschedule followed by the acknowledgement loses a task |
| RunPolling.TFRunPollingTask.New | pkg/runstream/run_polling.go:43-58 | a new task is unclaimed, has status "new", and polls first after the given delay if that is at least the minimum, after the default otherwise |
| RunPolling.TFRunPollingTask.Decode | pkg/runstream/run_polling.go:248-258 | a message decodes to the task it carries, revision included |
| RunPolling.TFRunPollingTask.DecodeKVEntry | pkg/runstream/run_polling.go:223-246 | an entry decodes to the stored value with the entry's own revision |
| RunPolling.TFRunPollingTask.Schedule | pkg/runstream/run_polling.go:60-62 | creates the key only if it is absent or deleted |
| RunPolling.TFRunPollingTask.update | pkg/runstream/run_polling.go:91-109 | swaps the task in on its own revision; the object takes the new revision only if the swap is known to have landed |
| RunPolling.TFRunPollingTask.Reschedule | pkg/runstream/run_polling.go:64-68 | writes the task unclaimed and due after the default delay, on its own revision only |
| RunPolling.TFRunPollingTask.Completed | pkg/runstream/run_polling.go:70-72 | deletes the key whatever its revision |
| RunPolling.DispatchTask | pkg/runstream/run_polling.go:155-171 | claims a due, unclaimed task and publishes it with the revision of the claim, not the one it replaced |
| RunPolling.DispatchKey | pkg/runstream/run_polling.go:138-173 | one turn over a key is the protocol's Fetch, Claim and Publish, or Dump, steps of this dispatcher |
| RunPolling.DispatcherPass | pkg/runstream/run_polling.go:127-178 | a pass over any list of keys is a run of protocol steps of this dispatcher and leaves it idle |
| RunPolling.TurnEffect | pkg/runstream/run_polling.go:138-173 | what those steps add to the bucket and the queue |
| RunPolling.DueTaskIsPolled | pkg/runstream/run_polling.go:155-164 | in every reachable state a turn without failing calls claims and publishes the stored task exactly if it is unclaimed and its time has passed, and otherwise changes nothing |
| RunPolling.CorruptEntryIsDumped | pkg/runstream/run_polling.go:147-154 | an entry that cannot be decoded is deleted and nothing is published |
| RunPolling.PollingStreamCallback | pkg/tfc_hooks/polling.go:14-85 | a changed status is published once; the message may be acknowledged exactly if the status was read and, where changed, published; then one of the seven running statuses reschedules the task on the message's revision, with that status, unclaimed, due in ten seconds, and any other status deletes it, unless that call fails |
| RunPolling.CallbackEffect | pkg/tfc_hooks/polling.go:14-59 | the protocol steps of the callback have exactly that effect |
| RunPolling.HandleMessage | pkg/runstream/run_polling.go:182-221 | handling a message is a run of protocol steps of one worker; the message leaves the queue exactly if the callback allowed it and the acknowledgement got through |
| TagClient.TFCClient.AddTags | pkg/tfc_api/api_client.go:196-217 | adds prefix-value to this workspace's tags once and changes no other |
| TagClient.TFCClient.GetTagsByQuery | pkg/tfc_api/api_client.go:276-300 | lists, in order, the tags that contain the query anywhere |
| TagClient.TFCClient.RemoveTagsByQuery | pkg/tfc_api/api_client.go:220-253 | removes every tag that contains the query, and makes no removal call if there is none |
| TagClient.TFCClient.RemoveTagsByName | pkg/tfc_api/api_client.go:258-272 | removes exactly the named tags; no names is a no-op |
| Locks.FindLockingMR | pkg/tfc_trigger/tfc_trigger.go:238-262 | the owner of the first tag that names another merge request, "" exactly if there is none |
| Locks.OwnerExactly | pkg/tfc_trigger/tfc_trigger.go:43 | any text names the owner whose digits follow the first "tfbuddylock-" that is followed by a digit, and nobody without one |
| Locks.OwnerOfLockTag | pkg/tfc_trigger/tfc_trigger.go:43 | the tag an apply adds is read back as its own merge request number |
| Locks.QueryHitsExtensions | pkg/tfc_api/api_client.go:219-220 | a query for one lock tag also lists another exactly when the decimal form of its number is a prefix of the other's |
| Locks.CheckSeesOwner | pkg/tfc_trigger/tfc_trigger.go:284-298 | under at most one lock the check reports its owner, and nobody to the owner itself |
| LockProtocol.StaleRemovalIsExact | pkg/tfc_trigger/tfc_trigger.go:671-684 | under at most one lock, removing a stale lock by substring removes that tag and no other |
| LockProtocol.AcquireKeepsOneLockIff | pkg/tfc_trigger/tfc_trigger.go:662-705 | the lock section of an apply keeps at most one lock exactly unless the tag query failed while another merge request held it and nothing else stopped the apply |
| LockProtocol.TriggerKeepsOneLockIff | pkg/tfc_trigger/tfc_trigger.go:605-705 | every action keeps at most one lock tag on its workspace, an apply exactly unless it fails open like that |
| LockProtocol.AtMostOneLockIff | pkg/tfc_trigger/tfc_trigger.go:516-705 | from any state with at most one lock on a workspace, every sequence of commands with any failures keeps at most one in every state exactly if no apply fails open there |
| LockProtocol.ReleasesIff | pkg/tfc_trigger/tfc_trigger.go:531-705 | a command takes the only lock from its owner exactly if it is an unlock that gets past Terraform Cloud's own lock and whose removal takes effect, a cleanup for the owner that lists the workspace and removes the tag, or another merge request's apply that lists the tags, reads the owner's state as "merged" or "closed", and removes the tag |
| LockProtocol.LockHeldIff | pkg/tfc_trigger/tfc_trigger.go:531-705 | over any run the owner keeps the only lock in every state exactly if no command releases it and no apply fails open |
| LockProtocol.AppliesAreSeparated | pkg/tfc_trigger/tfc_trigger.go:662-705 | whatever calls fail: if merge request a and later another b create apply runs on one workspace, then between them a's lock was released in one of these ways, or some apply failed open |
| LockProtocol.CleanupFrame | pkg/tfc_trigger/tfc_trigger.go:531-567 | for any tags and failures a cleanup takes only this merge request's exact tag, only where some item removed it, and leaves every other tag and its position alone |
| LockProtocol.RemovedIff | pkg/tfc_trigger/tfc_trigger.go:531-567 | the tag goes exactly if it was there and some item lists the workspace and removes it |
| LockProtocol.SucceedsIff | pkg/tfc_trigger/tfc_trigger.go:531-567 | an item is reported exactly if its workspace held the tag at the start, it lists and removes it and knows so, and no item before removed it there |
| LockProtocol.ComplaintsInOrder | pkg/tfc_trigger/tfc_trigger.go:533-567 | the error comments are, in order, one for exactly each item that fails: its workspace cannot be read, or its tags cannot be listed, or it holds the tag and is not known to lose it; each says which call failed and how |
| LockProtocol.ReleasedExactly | pkg/tfc_trigger/tfc_trigger.go:563-567 | it reports exactly the workspaces whose removal succeeded, in order |
| LockProtocol.CleanupAccountsForAll | pkg/tfc_trigger/tfc_trigger.go:533-567 | every workspace is reported released, has an error comment, or was read and did not hold the tag |
| LockProtocol.SuccessesComplete | pkg/tfc_trigger/tfc_trigger.go:533-567 | the reported positions are all and only those whose tag was listed and removed |
| LockProtocol.CheckFailsOpen | pkg/tfc_trigger/tfc_trigger.go:288-295 | while another merge request holds the lock, the check passes exactly if the tag query failed or the owner was seen merged or closed and its tag could be removed |
| LockProtocol.OpenOwnerRefuses | pkg/tfc_trigger/tfc_trigger.go:671-695 | while another merge request holds the only lock, is listed, and is not read as "merged" or "closed", an apply is refused and no tag changes |
| LockProtocol.AcquiredIff | pkg/tfc_trigger/tfc_trigger.go:662-705 | while queries succeed, an apply gets the lock exactly if Terraform Cloud's lock is off, the tag is known to have been added, and nobody, the merge request itself, or an owner seen merged or closed whose tag could be removed held it |
| LockProtocol.UnlockReleasesIff | pkg/tfc_trigger/tfc_trigger.go:625-636 | after an unlock no lock tag is left exactly if there was none, or the command got past Terraform Cloud's lock and the removal took effect |
| LockProtocol.RunStartsIff | pkg/tfc_trigger/tfc_trigger.go:650-748 | a plan changes no tag and starts its run whatever the locks are; an apply starts one exactly if it acquired the lock and the workspace has no VCS backend; no other action does |
| LockProtocol.ReportsSuccessIff | pkg/tfc_trigger/tfc_trigger.go:605-748 | for each action, exactly the calls that have to succeed for success to be reported |
| LockProtocol.FlippedTagsIff | pkg/tfc_trigger/tfc_trigger.go:581-603 | which gl-lock tags a lock and an unlock command add and take away |
| SplitLocks.AtMostOneLockIff | pkg/tfc_trigger/tfc_trigger.go:663-705 | with tag query, stale-lock removal and AddTags as separate steps of concurrent workers, interleaved with whole commands: a workspace has at most one lock in every state exactly if at each AddTags that lands it is unlocked or held by that merge request |
| SplitLocks.ClashHasCause | pkg/tfc_trigger/tfc_trigger.go:662-705 | a clash at an apply's AddTags implies that its own tag query failed, or that another apply's AddTags landed on the workspace between that query and it |
| SplitLocks.DisciplinedKeepsOneLock | pkg/tfc_trigger/tfc_trigger.go:662-705 | sections that do not overlap and whose queries succeed keep at most one lock in every state, whatever else is interleaved and fails |
| SplitLocks.SectionIsAtomicApply | pkg/tfc_trigger/tfc_trigger.go:663-705 | undisturbed, the three steps do to the tags what the lock section does as one step, and nothing elsewhere |
| SplitLocks.OverlapAdmitsTwoOwners | pkg/tfc_trigger/tfc_trigger.go:663-705 | a run from no tags in which two workers query before either adds, and both merge requests end up locking |
| LockProtocol.StaleRemovalHitsExtensions | pkg/tfc_trigger/tfc_trigger.go:681-682 | with two owners, cleaning up merge request 5 also unlocks merge request 50 |
| ProjectConfig.WorkspaceForDir | pkg/tfc_trigger/project_config.go:33-59 | for "." the first root workspace if any; otherwise the earliest of the deepest matches, nil exactly if nothing matches |
| ProjectConfig.WorkspaceForDirUnique | pkg/tfc_trigger/project_config.go:33-59 | exactly one answer meets that specification |
| ProjectConfig.RootOnlyForDot | pkg/tfc_trigger/project_config.go:43-48 | root workspaces are found for "." alone, the first of them |
| ProjectConfig.BestIsEarliestBest | pkg/tfc_trigger/project_config.go:50-56 | the running maximum with a strict comparison ends at the earliest of the highest |
| ProjectConfig.DeeperIsLonger | pkg/tfc_trigger/project_config.go:50-56 | among suffixes of one text that start at its components depth orders as length does |
| ProjectConfig.FoundIsLongest | pkg/tfc_trigger/project_config.go:27-33 | if the workspace found starts at a path component, no match in the same text is longer, wherever that one starts |
| ProjectConfig.ComponentRuleIff | pkg/tfc_trigger/project_config.go:27-59 | the workspace found is the one of the documented component-wise rule exactly if every match off a component boundary is beaten by one on a boundary that is deeper, or as deep and listed earlier |
| ProjectConfig.SuffixNeedNotBeComponent | pkg/tfc_trigger/project_config.go:50 | a directory whose name merely ends the modified one's wins over the exact directory if it is listed first |
| ProjectConfig.WorkspacesForTriggerDir | pkg/tfc_trigger/project_config.go:61-78 | the workspaces with a matching pattern in configuration order, one copy per matching pattern |
| ProjectConfig.TriggerMatchesExactly | pkg/tfc_trigger/project_config.go:69-75 | a workspace is listed exactly if it is configured and one of its patterns matches |
| ProjectConfig.TriggerMatchesInOrder | pkg/tfc_trigger/project_config.go:60-78 | in configuration order, exactly the workspaces with a pattern that matches |
| ProjectConfig.TriggeredWorkspaces | pkg/tfc_trigger/project_config.go:80-101 | one workspace per selected directory: the one the last file, and in it the last rule, wrote; nothing that no file selects |
| ProjectConfig.LastWriteWins | pkg/tfc_trigger/project_config.go:85-92 | of the workspaces filed under a directory the map keeps the last |
| ProjectConfig.LastFileWins | pkg/tfc_trigger/project_config.go:80-101 | a workspace is returned because of the last file that selects any workspace of its directory |
| ProjectConfig.WritesSelected | pkg/tfc_trigger/project_config.go:82-94 | a workspace is written to the map exactly if some modified file selects it by either rule |
| ProjectConfig.SelectionDistributes | pkg/tfc_trigger/project_config.go:82-94 | selection distributes over union of file lists |
| ProjectConfig.DirsDoNotDependOnOrder | pkg/tfc_trigger/project_config.go:80-101 | the set of directories returned depends neither on the order or repetition of files nor on map iteration |
| ProjectConfig.NothingDroppedIff | pkg/tfc_trigger/project_config.go:80-101 | every workspace some file selects is returned exactly if no two selected ones share a directory |
| ProjectConfig.SharedDirDropsOne | pkg/tfc_trigger/project_config.go:85-92 | two workspaces of one directory, the second also triggered by it: a file there selects both, and the first is dropped |
| ProjectConfig.HasChangesForWorkspace | pkg/tfc_trigger/project_config.go:107-155 | true exactly if some file lies under the directory (or in the repository root for a root workspace), or matches a trigger pattern by directory or path, or some pattern tried cannot be evaluated |
| ProjectConfig.ChangedIff | pkg/tfc_trigger/project_config.go:107-155 | a workspace counts as changed exactly if some file lies in the repository root (root workspaces) or under its directory (others), or some trigger pattern, tried on the file's directory and path, matches or cannot be evaluated |
| AllowDenyList.IsWorkspaceAllowed | pkg/tfc_trigger/workspace_allowdeny_list.go:37-56 | not denied, and allowed if there is an allow list |
| AllowDenyList.AllowedIff | pkg/tfc_trigger/workspace_allowdeny_list.go:17-56 | allowed exactly if no deny entry, trimmed and lower-cased, names the workspace, and, unless there is no allow entry, some allow entry does |
| AllowDenyList.NormalizedList | pkg/tfc_trigger/workspace_allowdeny_list.go:17-33 | entries are trimmed, lower-cased and given the default organization if they name none |
| AllowDenyList.DenyByFullNameIff | pkg/tfc_trigger/workspace_allowdeny_list.go:26-45 | denying a workspace by its own full name works exactly if that name is trimmed and lower-case |
| AllowDenyList.ListableIff | pkg/tfc_trigger/workspace_allowdeny_list.go:17-52 | some entry names a workspace exactly if its full name is trimmed and lower-case, or is the default organization followed by a trimmed, lower-case, slash-free name |
| AllowDenyList.UpperCaseNamesAreNeverListed | pkg/tfc_trigger/workspace_allowdeny_list.go:17-52 | no entry ever equals a workspace name with an upper-case letter |
| WorkspaceStream.GetIdInjective | pkg/tfc_trigger/workspace_stream.go:40-43 | under a delivery ID, slashes in it or not, the key identifies delivery, name and organization if both messages are slash-free in these, and within one delivery if one of them is |
| WorkspaceStream.SlashesCollide | pkg/tfc_trigger/workspace_stream.go:40-43 | a workspace shares its key with some other workspace of the delivery exactly if its name or organization contains a slash |
| WorkspaceStream.WorkspaceStream.Publish | pkg/tfc_trigger/workspace_stream.go:120-126 | adds the message unless it fails or its key was seen, and reports success for a duplicate |
| WorkspaceStream.OneMessagePerWorkspace | pkg/tfc_trigger/workspace_stream.go:36-43 | over any publications, in any order, with any names and failures, at most one message per delivery, name and organization is queued |
| WorkspaceStream.WorkspaceTriggerWorker.HandleMsg | pkg/tfc_trigger/workspace_worker.go:50-102 | always acknowledges; one attempt per message of a known provider, one error comment per failed or panicking run |
| WorkspaceStream.WorkspaceTriggerWorker.Drain | pkg/tfc_trigger/workspace_worker.go:61-101 | draining any queue makes one attempt per message of a known provider, in order, and one error comment per failing run |
| WorkspaceStream.AttemptedExactly | pkg/tfc_trigger/workspace_worker.go:61-101 | the messages run are, in order, exactly those of a known provider |
| WorkspaceStream.ComplaintsExactly | pkg/tfc_trigger/workspace_worker.go:76-101 | the comments are, in order, one for exactly each message that was run and failed, on its merge request, with the error returned or "internal error" after a panic |
| Dispatch.Partition | pkg/tfc_trigger/tfc_trigger.go:465-495 | every input workspace is in exactly one of Executed and Errored, and their sizes add up |
| Dispatch.ExecutedIff | pkg/tfc_trigger/tfc_trigger.go:470-492 | executed exactly if allowed, not blocked by name, and known to have been run or published: one workspace that is refused or fails stops no other |
| Dispatch.PassingExactly | pkg/tfc_trigger/tfc_trigger.go:470-487 | dispatched, in input order, are exactly the workspaces that are allowed and not blocked by name |
| Dispatch.ExecutedInOrder | pkg/tfc_trigger/tfc_trigger.go:492 | Executed lists the names at the executed positions in input order |
| Dispatch.ErroredInOrder | pkg/tfc_trigger/tfc_trigger.go:470-491 | Errored lists the others in input order: not allowed, or else blocked by name, or else failed |
| Dispatch.ExecutedIsClean | pkg/tfc_trigger/tfc_trigger.go:344-381 | once the target branch is evaluated, no target-branch file lies under an executed workspace's directory or matches a trigger pattern of it, and a workspace is blocked exactly if it is allowed and some file concerns a workspace of its name |
| Dispatch.QueuedAsPublishedIff | pkg/tfc_trigger/tfc_trigger.go:507-514 | if the publishes land, the queue holds one message per dispatched workspace, in order, exactly if their keys differ |
| Dispatch.FanOutRefinesInline | pkg/tfc_trigger/tfc_trigger.go:454-514 | if the publishes of a delivery land, then however often it is redelivered, the workers that drain the queue attempt, in order, what the inline trigger attempts on the same jobs and blocked set, exactly if the keys of the dispatched workspaces differ; distinct workspaces without slashes suffice, and every attempt has the delivery's own options |
| Dispatch.AttemptedAtMostOnce | pkg/tfc_trigger/workspace_worker.go:50-102 | after any number of deliveries with any failures and a drain of what was accepted, each delivery, name and organization is attempted at most once |
| Dispatch.RedeliveryAddsNothing | pkg/tfc_trigger/workspace_stream.go:36-43 | dispatching the same delivery again queues nothing for workspaces whose message landed before |
| Dispatch.ExactlyOneMessage | pkg/tfc_trigger/workspace_stream.go:36-43 | over any publications of one delivery a workspace free of slashes whose publish landed has exactly one message, whatever the others are called |
| Dispatch.ExecutedIsQueuedOnce | pkg/tfc_trigger/tfc_trigger.go:465-514 | after one delivery, whatever fails, every executed workspace free of slashes has exactly one message |
| Dispatch.QueuedWasDispatched | pkg/tfc_trigger/tfc_trigger.go:465-514 | every message is of a workspace neither denied nor blocked whose publish landed |
| TfcTrigger.TFCTrigger.GetLockingMR | pkg/tfc_trigger/tfc_trigger.go:284-298 | the locking merge request, "" if the query fails |
| TfcTrigger.TFCTrigger.LockUnlockWorkspace | pkg/tfc_trigger/tfc_trigger.go:581-603 | changes only this workspace's gl-lock tags, and only if Terraform Cloud's lock had to change and did |
| TfcTrigger.TFCTrigger.CheckLock | pkg/tfc_trigger/tfc_trigger.go:662-695 | refuses while Terraform Cloud or another merge request holds the lock, unless the latter is merged or closed and its tag could be removed; refusing because of an open one changes no tag |
| TfcTrigger.TFCTrigger.AcquireLock | pkg/tfc_trigger/tfc_trigger.go:662-705 | leaves the tags and answers as the lock protocol says |
| TfcTrigger.TFCTrigger.TriggerRunForWorkspace | pkg/tfc_trigger/tfc_trigger.go:605-748 | for every action and every pattern of failures: this workspace's tags, no others, the run created if any, and whether it reports success |
| TfcTrigger.TFCTrigger.TriggerCleanupEvent | pkg/tfc_trigger/tfc_trigger.go:516-579 | the tags after it, one error comment attempted per failing call in order (whether it could be posted is only logged, pkg/tfc_trigger/tfc_trigger.go:272-274), one discussion naming the workspaces released if there are any, and an error exactly if that discussion cannot be posted |
| TfcTrigger.TFCTrigger.CleanupWorkspace | pkg/tfc_trigger/tfc_trigger.go:533-567 | removes the exact tag where it is listed, counts only a removal known to have succeeded, and posts the error of whichever call failed |
| TfcTrigger.TFCTrigger.DispatchWorkspaces | pkg/tfc_trigger/tfc_trigger.go:465-495 | the two result lists, and what is run inline or published, for every outcome of every call |
| TfcTrigger.TFCTrigger.GetModifiedWorkspacesOnTargetBranch | pkg/tfc_trigger/tfc_trigger.go:344-381 | the names of exactly the workspaces some target-branch file touches; empty if fetch, merge base or diff fails |
| TfcTrigger.TFCTrigger.EvaluateAndDispatch | pkg/tfc_trigger/tfc_trigger.go:447-458 | a failed evaluation is reported and blocks nothing |
| Strings.FirstIndexAfter | pkg/utils/formatter.go:49-62 | searching a text for an unbordered delimiter finds the printed one exactly if nothing before it contains the delimiter |
| Formatter.StatusSigns | pkg/utils/formatter.go:65-89 | a status is shown with the sign of success exactly if applied, of failure exactly if errored, canceled or discarded, of a plan exactly for the four statuses a plan ends with, and otherwise as it is |
| Formatter.CaptureRoundTrip | pkg/utils/formatter.go:49-62 | a delimited payload is captured as printed exactly if it does not contain the closing delimiter |
| Formatter.CaptureSound | pkg/utils/formatter.go:49-62 | what is captured never contains the closing delimiter and stands between the first prefix and a suffix |
| Formatter.MarkerRoundTrip | pkg/utils/formatter.go:30-47 | after text free of the marker prefix, a printed marker parses back to its pair exactly if both are non-empty and free of the suffix and the workspace is free of ":action=" |
| Formatter.ParseMarkerExact | pkg/utils/formatter.go:37-47 | the parser answers a pair exactly when the body carries its marker, printed from such a pair, as the first marker |
| RunHistory.RunRowIff | pkg/vcs/gitlab/client.go:191-204 | a note yields a row exactly if it shows a run's address and status; the row has the last segment of the link, the link, the status as shown and the time |
| RunHistory.LastSegmentIs | pkg/vcs/gitlab/client.go:193-196 | the identifier shown is what follows the last slash of the link, all of it without one |
| RunHistory.HistoryRoundTrip | pkg/vcs/gitlab/client.go:239-244 | a returned block in front of any text is captured back as old history, rows, newline exactly if no row contains the closing tag |
| RunHistory.HistoryLines | pkg/vcs/gitlab/client.go:239-244 | line by line: the lines of the old history, then one line per row, in order |
| RunHistory.HistoryKeptIffRows | pkg/vcs/gitlab/client.go:239-248 | the history is still found in the updated comment exactly if the pruning collected a row |
| GitlabClient.GitlabClient.GetOldRunUrls | pkg/vcs/gitlab/client.go:142-249 | the block returned, the deletions requested in order, and the notes left, for any threads and any failing deletions; a failed listing changes nothing |
| GitlabClient.GitlabClient.CollectThread | pkg/vcs/gitlab/client.go:187-211 | rows and last block of the bot's notes of a thread |
| GitlabClient.NoteRowsExactly | pkg/vcs/gitlab/client.go:187-204 | the rows of a thread are, in order, one for exactly each note of the bot that shows a run's address and status |
| GitlabClient.RowsByThread | pkg/vcs/gitlab/client.go:172-204 | the rows are those of the threads that count, thread after thread |
| GitlabClient.NewestBlock | pkg/vcs/gitlab/client.go:206-211 | the history extended is the one of the bot's last carrying note in the last counting thread that has one |
| GitlabClient.DeletedExactly | pkg/vcs/gitlab/client.go:172-237 | deletion is requested exactly for notes of threads whose root the bot wrote, marked with this workspace and action, other than the current one |
| GitlabClient.RepliesBeforeRoot | pkg/vcs/gitlab/client.go:217-221 | a thread's requests form one stretch, last reply first and root last |
| RunComments.RecognizedIff | pkg/vcs/gitlab/client.go:176-184 | a thread counts exactly if the bot wrote its root and the first marker in it is the one of this workspace and action |
| RunComments.HistoryMarkerIff | pkg/vcs/gitlab/client.go:239-248 | the returned history contains a marker prefix exactly if the old block or a row does |
| RunComments.HistoryLabelIff | pkg/vcs/gitlab/client.go:239-248 | the same for the labels of the run's address and status, from which rows are read |
| RunComments.UpdatedMarkerIff | pkg/comment_formatter/tfc_status_update.go:118-129 | with history and details free of the prefix, the rewritten note reads back as this workspace and action exactly if the run's status is one that has a text, and as no marker otherwise |
| HistoryRuns.HistoryPassedOn | pkg/vcs/gitlab/mr_comment_updater.go:16-47 | the rewritten thread still counts, and the next update reads the old history with the new rows appended, exactly if the run was not canceled; after a canceled run it reads what the threads before carry |
| HistoryRuns.UpdatedNoteHasRow | pkg/vcs/gitlab/mr_comment_updater.go:25-47 | the rewritten note of a run with a text for its status yields that run's row, whatever history free of labels and markers stands in front |
| HistoryRuns.RunningNoteIsBlank | pkg/vcs/gitlab/mr_comment_updater.go:25-32 | an update by a run that is not errored, canceled, discarded or planned and finished leaves its note without a history |
| HistoryRuns.OwnRowCollected | pkg/vcs/gitlab/client.go:187-204 | so the next update collects the row of every run that was not canceled |
| HistoryRuns.HistoryOnlyGrows | pkg/vcs/gitlab/mr_comment_updater.go:16-47 | over any number of updates of readable names and ordinary rows without a canceled run, from the first that has a row to add, every update has one, and each captured history is a prefix of every later one |
| HistoryRuns.CanceledRunForgets | pkg/vcs/gitlab/mr_comment_updater.go:25-32 | after a canceled run no history is read if no other thread that counts carries one; the next run's own thread may be listed |
| HistoryRuns.CanceledRunLosesHistory | pkg/vcs/gitlab/mr_comment_updater.go:25-32 | for all ordinary names, with each updating run's own thread listed: the canceled run collects an older run's row and deletes its note, and the next run reads no history and no row but its own |
| HistoryRuns.BareHistoryListing | pkg/vcs/gitlab/client.go:239-248 | a marked bot note with a history and no details makes the history come back bare |
| RunComments.RowOfDetails | pkg/comment_formatter/tfc_status_update.go:123-129 | the details of a run are read back as one row with its identifier as text and as link, and its status |
| GithubClient.Client.GetOldRunUrls | pkg/vcs/github/client.go:85-173 | the same over flat comments: block, deletions requested up to the first that fails, the comments left, and success exactly if none fails |
| GithubClient.CountedIff | pkg/vcs/github/client.go:114-122 | a comment counts exactly if the bot wrote it and the first marker in it is the one of this workspace and action |
| GithubClient.RowsExactly | pkg/vcs/github/client.go:113-139 | the rows are, in comment order, one for exactly each comment the bot wrote whose first marker is this pair's and which shows a run's address and status |
| GithubClient.ReturnedBlockCarries | pkg/vcs/github/client.go:163-168 | what is returned, posted in front of any text, is captured back as the old history with all rows appended, exactly if no row contains the closing tag |
| GithubRuns.PostedCommentHasRow | pkg/vcs/github/run_events_worker.go:70-96 | a comment the program posted is read back as one row with its run's identifier, status and time, whatever history stands in front and whatever text below |
| GithubRuns.PostedRunIsListed | pkg/vcs/github/client.go:113-139 | so a later call has that row among the ones it returns |
| GithubRuns.HistoryPostedIff | pkg/vcs/github/run_events_worker.go:76-85 | the history is put in front of the comment of a run that errored, was discarded, or planned and finished, and of no other |
| GithubRuns.NothingPostedIff | pkg/vcs/github/run_events_worker.go:74-96 | nothing is posted exactly for the statuses without a text, canceled among them |
| GithubClient.NewestBlock | pkg/vcs/github/client.go:141-144 | the history extended is the one of the newest comment that counts and carries one, and there is none exactly if no such comment does |
| GithubClient.MatchingExactly | pkg/vcs/github/client.go:113-149 | deletion is meant exactly for the bot's comments marked with this workspace and action other than the current one |
| GithubClient.UpToFailureStops | pkg/vcs/github/client.go:151-161 | requests stop at the first failing deletion and at no other place |
| GithubClient.DeletedIff | pkg/vcs/github/client.go:151-161 | a comment is gone exactly if it is meant to be deleted and no deletion up to and including its own fails |
| GithubClient.HistorySurvivesFailureIff | pkg/vcs/github/client.go:151-161 | after a call that failed, with a comment posted that has no history, the next call reads the same history exactly if the comment that carries it is the current one or a deletion up to and including its own fails |
| ConfigDocs.ReplaceFrame | hack/gen-config-docs.go:95-115 | fails on exactly the documents without both markers in order; otherwise keeps the text up to the begin marker and from the end marker on |
| ConfigDocs.ReplaceIdempotent | hack/gen-config-docs.go:95-115 | regenerating is idempotent exactly if the generated text is free of the end marker |
| ConfigDocs.ReplaceOverwrites | hack/gen-config-docs.go:95-115 | after clean text, only the last regeneration matters |

## Left out

- NATS, GitLab, GitHub, Terraform Cloud and go-git clients, HTTP handlers, retries and backoff: they are answers of the environment.
- JSON and OpenTelemetry encoding: a message is the record it carries, and of the run metadata only the run ID is kept.
- RunPolling.TFRunPollingTask.DecodeKVEntry: leaves out the second decode of entries in the old layout, which only fills in the run ID.
- RunPolling.HandleMessage: leaves out the termination of a message that does not decode, which the program never writes.
- Key-value time-to-live, stream size and age limits, and duplicates created by asynchronous publishing inside the client.
- RunPolling.DispatcherPass: runs one replica's pass without interruption; interleaving between replicas and workers is in PollingProtocol, whose steps are finer than a pass.
- Time: clocks are integers given to each step, not assumed monotone.
- LockProtocol.AppliesAreSeparated: takes the apply section as one step (SplitLocks says what holds otherwise); the Terraform Cloud lock state and the state of the locking merge request are read once per command.
- HistoryRuns.HistoryOnlyGrows: covers updates by ended runs; a later status of the same run rewrites its note without the history, and a thread newer than the rewritten one is assumed to carry none.
- TagClient.TFCClient.GetTagsByQuery: lists all matches, where the code reads one page of the listing.
- Terraform Cloud's lower-casing of tags: all lock tags are lower-case already.
- doublestar.Match: any function from pattern and path to match, no match or error. path.Dir: on clean relative paths.
- strings.ToLower and strings.TrimSpace beyond ASCII letters and Latin-1 spaces; strings are sequences of characters, not bytes.
- The SHA-256 key of messages without delivery ID: an arbitrary function. Expiry of the deduplication window.
- Order of triggeredWorkspaces' result, which is map iteration order: any order.
- The -w option and loading of the project configuration, cloning, comment wording, plan rendering, logging, metrics, commit statuses and auto-merge: input and output, or single branches.
- The trace ID in the comment after a panic, and nil entries in the client map.
- Stream migration: it depends on source replay inside the NATS server.
