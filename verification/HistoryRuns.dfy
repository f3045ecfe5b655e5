/** The run history over the updates of a merge request's notes: when one update finds
    what the one before it wrote, and how a canceled run loses it. */
module HistoryRuns {
  import opened Strings
  import opened Formatter
  import opened RunHistory
  import opened GitlabClient
  import opened RunComments

  /** Something is collected, and nothing collected contains the closing tag. */
  ghost predicate Collects(k: Scope, u: Update) {
    && u.run.status in {"errored", "canceled", "discarded", "planned_and_finished"} && NewRows(k, u) != []
    && forall i :: 0 <= i < |NewRows(k, u)| ==> !Contains(NewRows(k, u)[i], URL_RUN_GROUP_SUFFIX)
  }

  /** The next update finds the note u rewrote as the root of thread n, with nothing
      newer that carries a history. Whether that thread still counts is not assumed. */
  ghost predicate FollowsAt(k: Scope, u: Update, next: Update, n: nat) {
    && NewestAt(Threads(k), next.discs, n)
    && next.discs[n].notes[0].author == k.user
    && next.discs[n].notes[0].body == UpdatedBody(k, u)
  }

  lemma CollectedOnTop(k: Scope, u: Update)
    requires Collects(k, u)
    ensures var history := ExtendedHistory(OldBlock(k, u), NewRows(k, u));
            && CapturedBlock(UpdatedBody(k, u)) == history != "" && OldBlock(k, u) <= history
  {
    LastBlockIsClosed(Threads(k), u.discs);
    RowsAreRows(Threads(k), u.discs);
    var rest := "\n\n" + TopLevelBody(k.workspace, k.action, u.run);
    HistoryRoundTrip(OldBlock(k, u), NewRows(k, u), rest);
    HistoryInFront(k, u);
  }

  lemma HistoryInFront(k: Scope, u: Update)
    requires u.run.status in {"errored", "canceled", "discarded", "planned_and_finished"} && NewRows(k, u) != []
    ensures UpdatedBody(k, u)
         == HistoryBlock(OldBlock(k, u), NewRows(k, u)) + ("\n\n" + TopLevelBody(k.workspace, k.action, u.run))
  {
    var block, top := HistoryBlock(OldBlock(k, u), NewRows(k, u)), TopLevelBody(k.workspace, k.action, u.run);
    assert block + "\n\n" + top == block + ("\n\n" + top);
  }

  /** What one update writes is what the next one reads, the old history with the
      collected rows appended, exactly if the run was not canceled; a canceled run's
      thread no longer counts, and the next update reads what the threads before it
      carry. */
  lemma HistoryPassedOn(k: Scope, u: Update, next: Update, n: nat)
    requires Collects(k, u) && MarkerFree(k, u) && Markable(k.workspace, k.action) && FollowsAt(k, u, next, n)
    ensures Ours(Threads(k), next.discs[n]) <==> u.run.status != "canceled"
    ensures u.run.status != "canceled" ==>
              && OldBlock(k, next) == ExtendedHistory(OldBlock(k, u), NewRows(k, u))
              && OldBlock(k, u) <= OldBlock(k, next)
    ensures u.run.status == "canceled" ==> OldBlock(k, next) == LastBlock(Threads(k), next.discs[..n])
  {
    UpdatedCountsIff(k, u, next.discs[n]);
    CollectedOnTop(k, u);
    LastBlockAt(Threads(k), next.discs, n);
  }

  lemma UpdatedCountsIff(k: Scope, u: Update, disc: Discussion)
    requires u.run.status in ENDED && MarkerFree(k, u) && Markable(k.workspace, k.action)
    requires disc.notes != [] && disc.notes[0].author == k.user && disc.notes[0].body == UpdatedBody(k, u)
    ensures Ours(Threads(k), disc) <==> u.run.status != "canceled"
  {
    UpdatedMarkerIff(k, u);
    EndedIsReported(u.run.status);
    CountsByMarker(k, disc, ParseMarker(UpdatedBody(k, u)));
  }

  lemma EndedIsReported(status: string)
    requires status in ENDED
    ensures status in REPORTED <==> status != "canceled"
  {
  }

  lemma CountsByMarker(k: Scope, disc: Discussion, marker: Marker)
    requires disc.notes != [] && disc.notes[0].author == k.user && ParseMarker(disc.notes[0].body) == marker
    ensures Ours(Threads(k), disc) <==> marker == Found(k.workspace, k.action)
  {
  }

  // ------------------------------------------------------------- own rows

  /** Text with no marker prefix and neither label. */
  ghost predicate Inert(s: string) {
    !Contains(s, MARKER_PREFIX) && !Contains(s, URL_RUN_PREFIX) && !Contains(s, URL_RUN_STATUS_PREFIX)
  }

  lemma HistoryInertIff(block: string, rows: seq<string>)
    requires forall i :: 0 <= i < |rows| ==> IsRow(rows[i])
    ensures Inert(HistoryBlock(block, rows)) <==> Inert(block) && forall i :: 0 <= i < |rows| ==> Inert(rows[i])
  {
    HistoryMarkerIff(block, rows);
    HistoryLabelIff(block, rows, URL_RUN_PREFIX);
    HistoryLabelIff(block, rows, URL_RUN_STATUS_PREFIX);
  }

  lemma EmptyIsInert()
    ensures Inert("")
  {
    MarkerPrefixChars();
    LabelChars();
    AbsentChar("", MARKER_PREFIX, '!');
    AbsentChar("", URL_RUN_PREFIX, '*');
    AbsentChar("", URL_RUN_STATUS_PREFIX, '*');
  }

  /** The update of an ended run with readable names, whose rows are ordinary text. */
  ghost predicate Regular(k: Scope, u: Update) {
    && u.run.status in {"errored", "canceled", "discarded", "planned_and_finished"}
    && Readable(k.workspace, k.action, u.run)
    && !Contains(RunDetails(k.workspace, k.action, u.run), MARKER_PREFIX)
    && forall i :: 0 <= i < |NewRows(k, u)| ==>
         Inert(NewRows(k, u)[i]) && !Contains(NewRows(k, u)[i], URL_RUN_GROUP_SUFFIX)
  }

  lemma OldUrlsInert(k: Scope, u: Update)
    requires Regular(k, u) && Inert(OldBlock(k, u))
    ensures Inert(OldUrls(k, u)) && MarkerFree(k, u)
  {
    RowsAreRows(Threads(k), u.discs);
    HistoryInertIff(OldBlock(k, u), NewRows(k, u));
  }

  lemma LinesAreLabelFree(history: string)
    requires Inert(history)
    ensures LabelFree(history + "\n\n")
  {
    LabelChars();
    AbsentChar("", URL_RUN_PREFIX, '*');
    AbsentChar("", URL_RUN_STATUS_PREFIX, '*');
    WallBlocks(history, '\n', "\n", URL_RUN_PREFIX);
    WallBlocks(history, '\n', "\n", URL_RUN_STATUS_PREFIX);
    AbsentChar("\n", URL_RUN_PREFIX, '*');
    AbsentChar("\n", URL_RUN_STATUS_PREFIX, '*');
    assert history + ['\n'] + "\n" == history + "\n\n";
  }

  /** The rewritten note of a run that was not canceled yields the run's row, whatever
      history was put in front. */
  lemma UpdatedNoteHasRow(k: Scope, u: Update, createdAt: string)
    requires Regular(k, u) && Inert(OldBlock(k, u)) && u.run.status in REPORTED
    ensures RunRow(UpdatedBody(k, u), createdAt, FormatStatus) == Some(RowText(u.run, createdAt, FormatStatus))
  {
    OldUrlsInert(k, u);
    EmptyIsInert();
    LinesAreLabelFree(OldUrls(k, u));
    var tail := "\n" + FormatMarker(k.workspace, k.action);
    RowOfDetails(BeforeDetails(OldUrls(k, u)), k.workspace, k.action, u.run, tail, createdAt, FormatStatus);
    DetailsInBody(OldUrls(k, u), RunDetails(k.workspace, k.action, u.run), FormatMarker(k.workspace, k.action));
  }

  function BeforeDetails(history: string): string {
    if history != "" then history + "\n\n" else ""
  }

  lemma DetailsInBody(history: string, details: string, marker: string)
    ensures (if history != "" then history + "\n\n" + (details + "\n" + marker) else details + "\n" + marker)
         == BeforeDetails(history) + details + ("\n" + marker)
  {
  }

  lemma {:induction false} RootRowInThread(q: Query, notes: seq<Note>, row: string)
    requires notes != [] && notes[0].author == q.user
    requires RunRow(notes[0].body, notes[0].createdAt, FormatStatus) == Some(row)
    ensures row in NoteRows(q, notes)
  {
    if |notes| > 1 {
      RootRowInThread(q, notes[..|notes| - 1], row);
    }
  }

  lemma {:induction false} ThreadRowInRows(q: Query, discs: seq<Discussion>, n: nat, row: string)
    requires n < |discs| && Ours(q, discs[n]) && row in NoteRows(q, discs[n].notes)
    ensures row in Rows(q, discs)
  {
    if n < |discs| - 1 {
      ThreadRowInRows(q, discs[..|discs| - 1], n, row);
    }
  }

  /** So the next update collects the row of every run that was not canceled, and is
      never without a row to add. */
  lemma OwnRowCollected(k: Scope, u: Update, next: Update, n: nat)
    requires Regular(k, u) && Inert(OldBlock(k, u)) && Markable(k.workspace, k.action) && FollowsAt(k, u, next, n)
    requires u.run.status != "canceled"
    ensures RowText(u.run, next.discs[n].notes[0].createdAt, FormatStatus) in NewRows(k, next)
  {
    var note := next.discs[n].notes[0];
    OldUrlsInert(k, u);
    EndedIsReported(u.run.status);
    UpdatedCountsIff(k, u, next.discs[n]);
    UpdatedNoteHasRow(k, u, note.createdAt);
    RootRowInThread(Threads(k), next.discs[n].notes, RowText(u.run, note.createdAt, FormatStatus));
    ThreadRowInRows(Threads(k), next.discs, n, RowText(u.run, note.createdAt, FormatStatus));
  }

  // ------------------------------------------------------------ growing history

  ghost predicate LinkedAt(k: Scope, chain: seq<Update>, at: seq<nat>, n: nat)
    requires |at| == |chain| && n + 1 < |chain|
  {
    Regular(k, chain[n]) && FollowsAt(k, chain[n], chain[n + 1], at[n + 1])
  }

  /** A chain of updates of one merge request; at[n] is where update n finds the note
      its predecessor rewrote. */
  ghost predicate Chain(k: Scope, chain: seq<Update>, at: seq<nat>) {
    |at| == |chain| && forall n: nat :: n + 1 < |chain| ==> LinkedAt(k, chain, at, n)
  }

  /** An update with a row to add, to a history of ordinary text. */
  ghost predicate Adds(k: Scope, u: Update) {
    NewRows(k, u) != [] && Inert(OldBlock(k, u))
  }

  /** Over any number of updates from the first that has a row to add, with or without
      deletion of the older threads and with no canceled run among them, every update
      has a row to add, and the history captured earlier is a prefix of every history
      captured later. */
  lemma {:induction false} HistoryOnlyGrows(k: Scope, chain: seq<Update>, at: seq<nat>, i: nat, j: nat)
    requires Markable(k.workspace, k.action) && Chain(k, chain, at) && i <= j < |chain| && Adds(k, chain[i])
    requires NoneCanceled(chain[i..j])
    ensures Extends(k, chain[i], chain[j])
    decreases j
  {
    if i < j {
      ShorterPart(chain, i, j);
      HistoryOnlyGrows(k, chain, at, i, j - 1);
      ExtendsNext(k, chain, at, chain[i], j);
    } else {
      ExtendsItself(k, chain[i]);
    }
  }

  ghost predicate NoneCanceled(part: seq<Update>) {
    forall u :: u in part ==> u.run.status != "canceled"
  }

  lemma ShorterPart(chain: seq<Update>, i: nat, j: nat)
    requires i < j <= |chain| && NoneCanceled(chain[i..j])
    ensures NoneCanceled(chain[i..j - 1]) && chain[j - 1].run.status != "canceled"
  {
    assert forall u :: u in chain[i..j - 1] ==> u in chain[i..j];
    assert chain[j - 1] in chain[i..j];
  }

  /** later finds all of the history earlier found, and adds to it. */
  ghost predicate Extends(k: Scope, earlier: Update, later: Update) {
    OldBlock(k, earlier) <= OldBlock(k, later) && Adds(k, later)
  }

  lemma ExtendsItself(k: Scope, u: Update)
    requires Adds(k, u)
    ensures Extends(k, u, u)
  {
  }

  lemma ExtendsNext(k: Scope, chain: seq<Update>, at: seq<nat>, earlier: Update, n: nat)
    requires Markable(k.workspace, k.action) && Chain(k, chain, at) && 0 < n < |chain|
    requires chain[n - 1].run.status != "canceled" && Extends(k, earlier, chain[n - 1])
    ensures Extends(k, earlier, chain[n])
  {
    assert LinkedAt(k, chain, at, n - 1);
    HistoryGrowsAt(k, chain[n - 1], chain[n], at[n]);
  }

  lemma HistoryGrowsAt(k: Scope, u: Update, next: Update, n: nat)
    requires Regular(k, u) && Adds(k, u) && Markable(k.workspace, k.action) && FollowsAt(k, u, next, n)
    requires u.run.status != "canceled"
    ensures OldBlock(k, u) <= OldBlock(k, next) && Adds(k, next)
  {
    OldUrlsInert(k, u);
    HistoryPassedOn(k, u, next, n);
    ExtendedInert(k, u);
    OwnRowCollected(k, u, next, n);
  }

  lemma ExtendedInert(k: Scope, u: Update)
    requires Regular(k, u) && Adds(k, u)
    ensures Inert(ExtendedHistory(OldBlock(k, u), NewRows(k, u)))
  {
    MarkerPrefixChars();
    LabelChars();
    RowsAreRows(Threads(k), u.discs);
    ExtendedFree(OldBlock(k, u), NewRows(k, u), MARKER_PREFIX);
    ExtendedFree(OldBlock(k, u), NewRows(k, u), URL_RUN_PREFIX);
    ExtendedFree(OldBlock(k, u), NewRows(k, u), URL_RUN_STATUS_PREFIX);
  }

  // -------------------------------------------------------------- canceled runs

  lemma {:induction false} BlankHasNoBlock(q: Query, discs: seq<Discussion>)
    requires forall j :: 0 <= j < |discs| && Ours(q, discs[j]) ==> Blank(discs[j].notes, 0)
    ensures LastBlock(q, discs) == ""
  {
    if discs != [] {
      BlankHasNoBlock(q, discs[..|discs| - 1]);
      BlankLast(q, discs);
    }
  }

  /** After a canceled run nothing is left of the history if no thread before it that
      counts carries any, as when the older ones were deleted. */
  lemma CanceledRunForgets(k: Scope, u: Update, next: Update, n: nat)
    requires Collects(k, u) && MarkerFree(k, u) && Markable(k.workspace, k.action) && FollowsAt(k, u, next, n)
    requires u.run.status == "canceled"
    requires forall j :: 0 <= j < n && Ours(Threads(k), next.discs[j]) ==> Blank(next.discs[j].notes, 0)
    ensures OldBlock(k, next) == ""
  {
    HistoryPassedOn(k, u, next, n);
    BlankHasNoBlock(Threads(k), next.discs[..n]);
  }

  // ------------------------------------------------------------- the two witnesses

  predicate PlainText(s: string) {
    '!' !in s && '<' !in s && '|' !in s && ']' !in s
  }

  predicate PlainRun(run: Run) {
    PlainText(run.org) && PlainText(run.id) && PlainText(run.status)
  }

  predicate PlainScope(k: Scope) {
    PlainText(k.workspace) && PlainText(k.action)
  }

  /** The thread of a run whose note shows the run's details and no history. */
  function RunThread(k: Scope, id: nat, run: Run, createdAt: string): Discussion {
    Discussion([Note(id, k.user, TopLevelBody(k.workspace, k.action, run), createdAt)])
  }

  ghost predicate Shown(k: Scope, run: Run) {
    run.status in REPORTED && PlainRun(run) && Readable(k.workspace, k.action, run)
  }

  function Row(run: Run, createdAt: string): string {
    RowText(run, createdAt, FormatStatus)
  }

  lemma MarkerLacksBar(workspace: string, action: string)
    requires '|' !in workspace && '|' !in action
    ensures '|' !in FormatMarker(workspace, action)
  {
    FiveLack(MARKER_PREFIX, workspace, ACTION_SEPARATOR, action, MARKER_SUFFIX, '|');
  }

  lemma NoHistoryYet(k: Scope, run: Run)
    requires PlainScope(k) && PlainRun(run)
    ensures CapturedBlock(TopLevelBody(k.workspace, k.action, run)) == ""
  {
    DetailsLack(k.workspace, k.action, run, '|');
    MarkerLacksBar(k.workspace, k.action);
    AbsentChar(TopLevelBody(k.workspace, k.action, run), URL_RUN_GROUP_PREFIX, '|');
  }

  /** An update by a run in any other status leaves its note without a history. */
  lemma RunningNoteIsBlank(k: Scope, u: Update)
    requires u.run.status !in {"errored", "canceled", "discarded", "planned_and_finished"}
    requires PlainScope(k) && PlainRun(u.run)
    ensures CapturedBlock(UpdatedBody(k, u)) == ""
  {
    UpdatedIsTop(k, u);
    if u.run.status in REPORTED {
      NoHistoryYet(k, u.run);
    } else {
      EmptyHasNoBlock();
    }
  }

  lemma UpdatedIsTop(k: Scope, u: Update)
    requires u.run.status !in {"errored", "canceled", "discarded", "planned_and_finished"}
    ensures UpdatedBody(k, u) == TopLevelBody(k.workspace, k.action, u.run)
    ensures u.run.status !in REPORTED ==> UpdatedBody(k, u) == ""
  {
  }

  lemma EmptyHasNoBlock()
    ensures CapturedBlock("") == ""
  {
    AbsentChar("", URL_RUN_GROUP_PREFIX, '|');
  }

  lemma RunThreadCounts(k: Scope, id: nat, run: Run, createdAt: string)
    requires Markable(k.workspace, k.action) && PlainScope(k) && PlainRun(run) && run.status in REPORTED
    ensures Ours(Threads(k), RunThread(k, id, run, createdAt))
  {
    PlainDetailsFree(k.workspace, k.action, run);
    EmptyIsInert();
    MarkerAtEnd("", RunDetails(k.workspace, k.action, run), k.workspace, k.action);
  }

  lemma RunThreadRow(k: Scope, id: nat, run: Run, createdAt: string)
    requires Shown(k, run)
    ensures NoteRows(Threads(k), RunThread(k, id, run, createdAt).notes) == [Row(run, createdAt)]
  {
    var notes := RunThread(k, id, run, createdAt).notes;
    var details, marker := RunDetails(k.workspace, k.action, run), FormatMarker(k.workspace, k.action);
    EmptyIsInert();
    RowOfDetails("", k.workspace, k.action, run, "\n" + marker, createdAt, FormatStatus);
    DetailsInBody("", details, marker);
    OneNoteRow(Threads(k), notes, Row(run, createdAt));
  }

  lemma OneNoteRow(q: Query, notes: seq<Note>, row: string)
    requires |notes| == 1 && notes[0].author == q.user
    requires RunRow(notes[0].body, notes[0].createdAt, FormatStatus) == Some(row)
    ensures NoteRows(q, notes) == [row]
  {
    assert notes[..0] == [];
    assert NoteRows(q, notes[..0]) == [];
  }

  lemma RunThreadBlank(k: Scope, id: nat, run: Run, createdAt: string)
    requires PlainScope(k) && PlainRun(run)
    ensures Blank(RunThread(k, id, run, createdAt).notes, 0)
  {
    NoHistoryYet(k, run);
  }

  lemma TwoThreads(q: Query, a: Discussion, b: Discussion)
    ensures Rows(q, [a, b]) == (if Ours(q, a) then NoteRows(q, a.notes) else [])
                               + if Ours(q, b) then NoteRows(q, b.notes) else []
  {
    assert [a, b][..1] == [a] && [a][..0] == [];
    assert Rows(q, [a][..0]) == [];
    assert Rows(q, [a]) == if Ours(q, a) then NoteRows(q, a.notes) else [];
  }

  /** The listing as the canceled run's update finds it: an older run's thread and the
      canceled run's own, as it was shown last. */
  function CancelUpdate(k: Scope, older: Run, shown: Run, createdAt: string): Update {
    Update([RunThread(k, 1, older, createdAt), RunThread(k, 2, shown, createdAt)], Run(shown.org, shown.id, "canceled"))
  }

  /** The listing as the next run's update finds it: the rewritten note and its own. */
  function NextUpdate(k: Scope, u: Update, later: Run, createdAt: string): Update {
    Update([Discussion([Note(2, k.user, UpdatedBody(k, u), createdAt)]), RunThread(k, 3, later, createdAt)],
           Run(later.org, later.id, "errored"))
  }

  lemma CancelUpdateRows(k: Scope, older: Run, shown: Run, createdAt: string)
    requires Markable(k.workspace, k.action) && PlainScope(k) && Shown(k, older) && Shown(k, shown)
    ensures NewRows(k, CancelUpdate(k, older, shown, createdAt)) == [Row(older, createdAt), Row(shown, createdAt)]
  {
    RunThreadCounts(k, 1, older, createdAt);
    RunThreadCounts(k, 2, shown, createdAt);
    RunThreadRow(k, 1, older, createdAt);
    RunThreadRow(k, 2, shown, createdAt);
    TwoThreads(Threads(k), RunThread(k, 1, older, createdAt), RunThread(k, 2, shown, createdAt));
  }

  lemma CancelUpdateBlock(k: Scope, older: Run, shown: Run, createdAt: string)
    requires PlainScope(k) && PlainRun(older) && PlainRun(shown)
    ensures OldBlock(k, CancelUpdate(k, older, shown, createdAt)) == ""
  {
    var discs := CancelUpdate(k, older, shown, createdAt).discs;
    RunThreadBlank(k, 1, older, createdAt);
    RunThreadBlank(k, 2, shown, createdAt);
    assert discs[0] == RunThread(k, 1, older, createdAt) && discs[1] == RunThread(k, 2, shown, createdAt);
    BlankHasNoBlock(Threads(k), discs);
  }

  lemma CancelUpdateDeletes(k: Scope, older: Run, shown: Run, createdAt: string)
    requires Markable(k.workspace, k.action) && PlainScope(k) && Shown(k, older)
    ensures Deletions(Threads(k), 2, CancelUpdate(k, older, shown, createdAt).discs) == [1]
  {
    RunThreadCounts(k, 1, older, createdAt);
    OldThreadDeleted(Threads(k), RunThread(k, 1, older, createdAt), RunThread(k, 2, shown, createdAt));
  }

  lemma OldThreadDeleted(q: Query, a: Discussion, b: Discussion)
    requires Ours(q, a) && |a.notes| == 1 && a.notes[0].id == 1 && b.notes != [] && b.notes[0].id == 2
    ensures Deletions(q, 2, [a, b]) == [1]
  {
    assert [a, b][..1] == [a] && [a][..0] == [] && a.notes[..0] == [];
    assert Deletions(q, 2, [a][..0]) == [];
    assert RepliesFirst(a.notes) == [1];
    assert Deletions(q, 2, [a]) == [1];
  }

  /** A run's update deletes an older run's thread, and that run is canceled. The next
      run's update finds the rewritten note and its own: the older run's row has been
      collected, its note has been deleted, and no history and no row has it any more. */
  lemma CanceledRunLosesHistory(k: Scope, older: Run, shown: Run, later: Run, createdAt: string)
    requires Markable(k.workspace, k.action) && PlainScope(k) && PlainText(createdAt)
    requires Shown(k, older) && Shown(k, shown) && Shown(k, later)
    ensures var u := CancelUpdate(k, older, shown, createdAt);
            var next := NextUpdate(k, u, later, createdAt);
            && NewRows(k, u) == [Row(older, createdAt), Row(shown, createdAt)]
            && Deletions(Threads(k), 2, u.discs) == [1]
            && OldBlock(k, next) == "" && NewRows(k, next) == [Row(later, createdAt)]
            && (older.id != later.id ==> Row(older, createdAt) !in NewRows(k, next))
  {
    CancelUpdateRows(k, older, shown, createdAt);
    CancelUpdateDeletes(k, older, shown, createdAt);
    AfterCancelUpdate(k, older, shown, later, createdAt);
    if older.id != later.id {
      RowNamesRun(older, later, createdAt);
      OtherRow(Row(older, createdAt), Row(later, createdAt));
    }
  }

  lemma OtherRow(a: string, b: string)
    requires a != b
    ensures a !in [b]
  {
  }

  lemma AfterCancelUpdate(k: Scope, older: Run, shown: Run, later: Run, createdAt: string)
    requires Markable(k.workspace, k.action) && PlainScope(k) && PlainText(createdAt)
    requires Shown(k, older) && Shown(k, shown) && Shown(k, later)
    ensures var next := NextUpdate(k, CancelUpdate(k, older, shown, createdAt), later, createdAt);
            OldBlock(k, next) == "" && NewRows(k, next) == [Row(later, createdAt)]
  {
    var u := CancelUpdate(k, older, shown, createdAt);
    CancelUpdateCollects(k, older, shown, createdAt);
    NextBlock(k, u, later, createdAt);
    NextRows(k, u, later, createdAt);
  }

  lemma NextBlock(k: Scope, u: Update, later: Run, createdAt: string)
    requires Collects(k, u) && MarkerFree(k, u) && Markable(k.workspace, k.action) && u.run.status == "canceled"
    requires PlainScope(k) && PlainRun(later)
    ensures OldBlock(k, NextUpdate(k, u, later, createdAt)) == ""
  {
    RunThreadBlank(k, 3, later, createdAt);
    CanceledRunForgets(k, u, NextUpdate(k, u, later, createdAt), 0);
  }

  lemma NextRows(k: Scope, u: Update, later: Run, createdAt: string)
    requires u.run.status == "canceled" && MarkerFree(k, u) && Markable(k.workspace, k.action)
    requires PlainScope(k) && Shown(k, later)
    ensures NewRows(k, NextUpdate(k, u, later, createdAt)) == [Row(later, createdAt)]
  {
    var discs := NextUpdate(k, u, later, createdAt).discs;
    UpdatedCountsIff(k, u, discs[0]);
    RunThreadCounts(k, 3, later, createdAt);
    RunThreadRow(k, 3, later, createdAt);
    TwoThreads(Threads(k), discs[0], discs[1]);
  }

  lemma CancelUpdateCollects(k: Scope, older: Run, shown: Run, createdAt: string)
    requires Markable(k.workspace, k.action) && PlainScope(k) && PlainText(createdAt)
    requires Shown(k, older) && Shown(k, shown)
    ensures Collects(k, CancelUpdate(k, older, shown, createdAt))
    ensures MarkerFree(k, CancelUpdate(k, older, shown, createdAt))
  {
    CancelUpdateRows(k, older, shown, createdAt);
    CancelUpdateBlock(k, older, shown, createdAt);
    RowIsPlain(older, createdAt);
    RowIsPlain(shown, createdAt);
    PlainDetailsFree(k.workspace, k.action, Run(shown.org, shown.id, "canceled"));
    EmptyIsInert();
    TwoRowsCollect(k, CancelUpdate(k, older, shown, createdAt), Row(older, createdAt), Row(shown, createdAt));
  }

  lemma TwoRowsCollect(k: Scope, u: Update, a: string, b: string)
    requires u.run.status == "canceled" && NewRows(k, u) == [a, b] && OldBlock(k, u) == "" && Inert("")
    requires !Contains(a, URL_RUN_GROUP_SUFFIX) && !Contains(b, URL_RUN_GROUP_SUFFIX)
    requires !Contains(a, MARKER_PREFIX) && !Contains(b, MARKER_PREFIX)
    requires !Contains(RunDetails(k.workspace, k.action, u.run), MARKER_PREFIX)
    ensures Collects(k, u) && MarkerFree(k, u)
  {
  }

  lemma {:induction false} SplitKeepsOut(s: string, sep: char, c: char)
    requires c !in s
    ensures forall i :: 0 <= i < |Split(s, sep)| ==> c !in Split(s, sep)[i]
  {
    if s != "" {
      SplitKeepsOut(s[1..], sep, c);
    }
  }

  lemma {:induction false} TrimTicksKeepsOut(s: string, c: char)
    requires c !in s
    ensures c !in TrimTicks(s)
  {
    if s != "" && s[0] == '`' {
      TrimTicksKeepsOut(s[1..], c);
    }
  }

  lemma GoodStatusKeepsOut(bare: string, c: char)
    requires c == '!' || c == '<'
    ensures GoodStatus(bare).Some? ==> c !in GoodStatus(bare).value
  {
  }

  lemma BadStatusKeepsOut(bare: string, c: char)
    requires c == '!' || c == '<'
    ensures BadStatus(bare).Some? ==> c !in BadStatus(bare).value
  {
  }

  lemma FormatStatusKeepsOut(s: string, c: char)
    requires c !in s && (c == '!' || c == '<')
    ensures c !in FormatStatus(s)
  {
    TrimTicksKeepsOut(s, c);
    GoodStatusKeepsOut(TrimTicks(s), c);
    BadStatusKeepsOut(TrimTicks(s), c);
  }

  lemma RowKeepsOut(run: Run, createdAt: string, c: char)
    requires c !in run.id && c !in run.status && c !in createdAt && (c == '!' || c == '<')
    ensures c !in Row(run, createdAt)
  {
    SplitKeepsOut(run.id, '/', c);
    FormatStatusKeepsOut("`" + run.status + "`", c);
    FiveLack("|[", LastSegment(run.id), "](", run.id, ")|", c);
    FiveLack(RowHead(run), FormatStatus("`" + run.status + "`"), "|", createdAt, "|", c);
  }

  function RowHead(run: Run): string {
    "|[" + LastSegment(run.id) + "](" + run.id + ")|"
  }

  lemma RowIsPlain(run: Run, createdAt: string)
    requires PlainRun(run) && PlainText(createdAt)
    ensures !Contains(Row(run, createdAt), MARKER_PREFIX) && !Contains(Row(run, createdAt), URL_RUN_GROUP_SUFFIX)
  {
    RowKeepsOut(run, createdAt, '!');
    RowKeepsOut(run, createdAt, '<');
    MarkerPrefixChars();
    AbsentChar(Row(run, createdAt), MARKER_PREFIX, '!');
    AbsentHead(Row(run, createdAt), URL_RUN_GROUP_SUFFIX);
  }

  /** Equal texts split at the first c split equally. */
  lemma SplitsOnce(a: string, b: string, a': string, b': string, c: char)
    requires a + [c] + b == a' + [c] + b' && c !in a && c !in a'
    ensures a == a' && b == b'
  {
    var s := a + [c] + b;
    NotLater(a, b, a', b', c);
    NotLater(a', b', a, b, c);
    assert a == s[..|a|] && a' == s[..|a'|] && b == s[|a| + 1..] && b' == s[|a'| + 1..];
  }

  lemma NotLater(a: string, b: string, a': string, b': string, c: char)
    requires a + [c] + b == a' + [c] + b' && c !in a'
    ensures |a'| <= |a|
  {
    assert (a + [c] + b)[|a|] == c;
    assert forall i :: 0 <= i < |a'| ==> (a' + [c] + b')[i] == a'[i];
  }

  /** Rows of runs with different identifiers differ. */
  lemma RowNamesRun(a: Run, b: Run, createdAt: string)
    requires PlainRun(a) && PlainRun(b) && a.id != b.id
    ensures Row(a, createdAt) != Row(b, createdAt)
  {
    if Row(a, createdAt) == Row(b, createdAt) {
      RowIdentifies(a, b, createdAt);
    }
  }

  lemma RowIdentifies(a: Run, b: Run, createdAt: string)
    requires PlainRun(a) && PlainRun(b) && Row(a, createdAt) == Row(b, createdAt)
    ensures a.id == b.id
  {
    SplitKeepsOut(a.id, '/', '|');
    SplitKeepsOut(b.id, '/', '|');
    SplitKeepsOut(a.id, '/', ']');
    SplitKeepsOut(b.id, '/', ']');
    RowStarts(a, createdAt);
    RowStarts(b, createdAt);
    BracketsIdentify(LastSegment(a.id), a.id, RowEnd(a, createdAt), LastSegment(b.id), b.id, RowEnd(b, createdAt));
  }

  function RowEnd(run: Run, createdAt: string): string {
    FormatStatus("`" + run.status + "`") + "|" + createdAt + "|"
  }

  lemma RowStarts(run: Run, createdAt: string)
    ensures Row(run, createdAt) == "|[" + LastSegment(run.id) + "](" + run.id + ")|" + RowEnd(run, createdAt)
  {
    RowJoins(RowHead(run), FormatStatus("`" + run.status + "`"), createdAt);
  }

  lemma RowJoins(head: string, status: string, createdAt: string)
    ensures head + status + "|" + createdAt + "|" == head + (status + "|" + createdAt + "|")
  {
  }

  lemma BracketsIdentify(x: string, a: string, r: string, y: string, b: string, q: string)
    requires '|' !in x && '|' !in a && '|' !in y && '|' !in b && ']' !in x && ']' !in y
    requires "|[" + x + "](" + a + ")|" + r == "|[" + y + "](" + b + ")|" + q
    ensures a == b
  {
    Bracketed(x, a, r);
    Bracketed(y, b, q);
    SplitsOnce("[" + x + "](" + a + ")", r, "[" + y + "](" + b + ")", q, '|');
    InBrackets(x, a);
    InBrackets(y, b);
    SplitsOnce("[" + x, "(" + a + ")", "[" + y, "(" + b + ")", ']');
    assert a == ("(" + a + ")")[1..|"(" + a + ")"| - 1] && b == ("(" + b + ")")[1..|"(" + b + ")"| - 1];
  }

  lemma Bracketed(x: string, a: string, r: string)
    ensures ("|[" + x + "](" + a + ")|" + r)[1..] == "[" + x + "](" + a + ")" + ['|'] + r
  {
  }

  lemma InBrackets(x: string, a: string)
    ensures "[" + x + "](" + a + ")" == "[" + x + [']'] + ("(" + a + ")")
  {
  }

  const SHOWN := Run("org", "run-1", "errored")

  lemma NoRunUrlBefore()
    ensures !Contains(DetailsHead("ws", "plan") + DetailsStatus(SHOWN), URL_RUN_PREFIX)
  {
    HeadStartLacks('U');
    HeadLacks("ws", "plan", 'U');
    assert 'U' !in URL_RUN_STATUS_PREFIX && 'U' !in URL_RUN_SUFFIX && 'U' !in SHOWN.status;
    StatusLacks(SHOWN, 'U');
    AbsentChar(DetailsHead("ws", "plan") + DetailsStatus(SHOWN), URL_RUN_PREFIX, 'U');
  }

  /** There are such names. */
  lemma OrdinaryNamesAreReadable()
    ensures Shown(Scope("bot", "ws", "plan"), SHOWN) && Markable("ws", "plan") && PlainScope(Scope("bot", "ws", "plan"))
  {
    HeadStartLacks('S');
    HeadLacks("ws", "plan", 'S');
    AbsentChar(DetailsHead("ws", "plan"), URL_RUN_STATUS_PREFIX, 'S');
    NoRunUrlBefore();
    AbsentHead("ws", MARKER_SUFFIX);
    AbsentHead("plan", MARKER_SUFFIX);
    AbsentHead("ws", ACTION_SEPARATOR);
  }

  /** A marked note that carries a history and no details. */
  function BareBody(k: Scope, history: string): string {
    URL_RUN_GROUP_PREFIX + history + URL_RUN_GROUP_SUFFIX + "\n" + FormatMarker(k.workspace, k.action)
  }

  ghost predicate Lines(history: string) {
    history != "" && history[|history| - 1] == '\n' && Inert(history) && !Contains(history, URL_RUN_GROUP_SUFFIX)
  }

  /** With such a note alone, which the program itself never writes, the history comes
      back bare. */
  lemma BareHistoryListing(k: Scope, history: string, createdAt: string)
    requires Markable(k.workspace, k.action) && '*' !in k.workspace && '*' !in k.action && Lines(history)
    ensures var u := Update([Discussion([Note(1, k.user, BareBody(k, history), createdAt)])], SHOWN);
            && OldBlock(k, u) == history && NewRows(k, u) == []
            && OldUrls(k, u) == if TrimSpace(history) == "" then "" else history
  {
    var disc := Discussion([Note(1, k.user, BareBody(k, history), createdAt)]);
    BareNoteCounts(k, history);
    BareNoteHasNoRow(k, history, createdAt);
    BareNoteBlock(k, history);
    OneNote(Threads(k), disc);
  }

  lemma BareNoteBlock(k: Scope, history: string)
    requires !Contains(history, URL_RUN_GROUP_SUFFIX)
    ensures CapturedBlock(BareBody(k, history)) == history
  {
    var rest := "\n" + FormatMarker(k.workspace, k.action);
    BlockCarries(history, rest);
    assert BareBody(k, history) == URL_RUN_GROUP_PREFIX + history + URL_RUN_GROUP_SUFFIX + rest;
  }

  lemma BareNoteCounts(k: Scope, history: string)
    requires Markable(k.workspace, k.action) && Lines(history)
    ensures ParseMarker(BareBody(k, history)) == Found(k.workspace, k.action)
  {
    var wrapped := URL_RUN_GROUP_PREFIX + history + URL_RUN_GROUP_SUFFIX;
    MarkerPrefixChars();
    TagsAddNothing(history, MARKER_PREFIX, '!');
    LinesFree("", wrapped);
    MarkerRoundTrip(wrapped + "\n", k.workspace, k.action, "");
    assert wrapped + "\n" + FormatMarker(k.workspace, k.action) + "" == BareBody(k, history);
  }

  lemma BareNoteHasNoRow(k: Scope, history: string, createdAt: string)
    requires '*' !in k.workspace && '*' !in k.action && Lines(history)
    ensures RunRow(BareBody(k, history), createdAt, FormatStatus).None?
  {
    var wrapped, marker := URL_RUN_GROUP_PREFIX + history + URL_RUN_GROUP_SUFFIX, FormatMarker(k.workspace, k.action);
    LabelChars();
    TagsAddNothing(history, URL_RUN_PREFIX, '*');
    assert '*' !in MARKER_PREFIX && '*' !in ACTION_SEPARATOR && '*' !in MARKER_SUFFIX;
    FiveLack(MARKER_PREFIX, k.workspace, ACTION_SEPARATOR, k.action, MARKER_SUFFIX, '*');
    AbsentChar(marker, URL_RUN_PREFIX, '*');
    WallBlocks(wrapped, '\n', marker, URL_RUN_PREFIX);
    assert wrapped + ['\n'] + marker == BareBody(k, history);
    NoLabelNoRow(BareBody(k, history), createdAt);
  }

  lemma NoLabelNoRow(body: string, createdAt: string)
    requires !Contains(body, URL_RUN_PREFIX)
    ensures RunRow(body, createdAt, FormatStatus).None?
  {
  }

  lemma OneNote(q: Query, disc: Discussion)
    requires |disc.notes| == 1 && Ours(q, disc) && disc.notes[0].author == q.user
    requires CapturedBlock(disc.notes[0].body) != ""
    requires RunRow(disc.notes[0].body, disc.notes[0].createdAt, FormatStatus).None?
    ensures LastBlock(q, [disc]) == CapturedBlock(disc.notes[0].body) && Rows(q, [disc]) == []
  {
    LastBlockAt(q, [disc], 0);
    OneNoteNoRow(q, disc.notes);
    assert Rows(q, [disc][..0]) == [];
  }

  lemma OneNoteNoRow(q: Query, notes: seq<Note>)
    requires |notes| == 1 && RunRow(notes[0].body, notes[0].createdAt, FormatStatus).None?
    ensures NoteRows(q, notes) == []
  {
    assert NoteRows(q, notes[..0]) == [];
  }
}
