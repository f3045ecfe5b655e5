/** GetOldRunUrls of pkg/vcs/gitlab/client.go: collects the run history of one
    workspace and action from the bot's threads and prunes the older ones. */
module GitlabClient {
  import opened Strings
  import opened Formatter
  import opened RunHistory

  datatype Note = Note(id: nat, author: string, body: string, createdAt: string)

  /** A thread; its first note is the root. */
  datatype Discussion = Discussion(notes: seq<Note>)

  /** Whose history is asked for: the bot's user name, and which threads count. */
  datatype Query = Query(user: string, counts: Discussion -> bool)

  /** Threads whose root the bot wrote and marked with this workspace and action. */
  function ThreadsOf(user: string, workspace: string, action: string): Query {
    Query(user, (disc: Discussion) => disc.notes != [] && disc.notes[0].author == user
                        && ParseMarker(disc.notes[0].body) == Found(workspace, action))
  }

  predicate Ours(q: Query, disc: Discussion) {
    disc.notes != [] && q.counts(disc)
  }

  /** Rows of the bot's notes of a thread. */
  function NoteRows(q: Query, notes: seq<Note>): seq<string> {
    if notes == [] then []
    else
      var n := |notes| - 1;
      var before := NoteRows(q, notes[..n]);
      if notes[n].author != q.user then before
      else
        match RunRow(notes[n].body, notes[n].createdAt, FormatStatus)
        case None => before
        case Some(row) => before + [row]
  }

  /** The last history block among the bot's notes, or block if there is none. */
  function NoteBlock(q: Query, notes: seq<Note>, block: string): string {
    if notes == [] then block
    else
      var n := |notes| - 1;
      if notes[n].author == q.user && CapturedBlock(notes[n].body) != "" then CapturedBlock(notes[n].body)
      else NoteBlock(q, notes[..n], block)
  }

  function Rows(q: Query, discs: seq<Discussion>): seq<string> {
    if discs == [] then []
    else
      var n := |discs| - 1;
      if Ours(q, discs[n]) then Rows(q, discs[..n]) + NoteRows(q, discs[n].notes) else Rows(q, discs[..n])
  }

  function LastBlock(q: Query, discs: seq<Discussion>): string {
    if discs == [] then ""
    else
      var n := |discs| - 1;
      if Ours(q, discs[n]) then NoteBlock(q, discs[n].notes, LastBlock(q, discs[..n])) else LastBlock(q, discs[..n])
  }

  // ---------------------------------------------------------------- deletion

  predicate Prunable(q: Query, rootNoteID: nat, disc: Discussion) {
    Ours(q, disc) && disc.notes[0].id != rootNoteID
  }

  /** Note ids of a thread, last reply first and the root last. */
  function RepliesFirst(notes: seq<Note>): (ids: seq<nat>)
    ensures |ids| == |notes| && forall i :: 0 <= i < |ids| ==> ids[i] == notes[|notes| - 1 - i].id
  {
    if notes == [] then [] else [notes[|notes| - 1].id] + RepliesFirst(notes[..|notes| - 1])
  }

  /** The deletions requested, thread by thread. */
  function Deletions(q: Query, rootNoteID: nat, discs: seq<Discussion>): seq<nat> {
    if discs == [] then []
    else
      var n := |discs| - 1;
      var before := Deletions(q, rootNoteID, discs[..n]);
      if Prunable(q, rootNoteID, discs[n]) then before + RepliesFirst(discs[n].notes) else before
  }

  /** id is a note of a thread that counts and whose root is not the current note. */
  ghost predicate NoteToPrune(q: Query, rootNoteID: nat, disc: Discussion, id: nat) {
    && disc.notes != [] && q.counts(disc) && disc.notes[0].id != rootNoteID
    && exists note :: note in disc.notes && note.id == id
  }

  lemma RepliesFirstExactly(notes: seq<Note>, id: nat)
    ensures id in RepliesFirst(notes) <==> exists note :: note in notes && note.id == id
  {
    var ids := RepliesFirst(notes);
    if id in ids {
      var j :| 0 <= j < |ids| && ids[j] == id;
      assert notes[|notes| - 1 - j] in notes;
    }
    if note :| note in notes && note.id == id {
      var k :| 0 <= k < |notes| && notes[k] == note;
      assert ids[|notes| - 1 - k] == id;
    }
  }

  /** A deletion is requested exactly for the notes of the bot's threads about
      this workspace and action other than the current one. */
  lemma {:induction false} DeletedExactly(q: Query, rootNoteID: nat, discs: seq<Discussion>, id: nat)
    ensures id in Deletions(q, rootNoteID, discs) <==>
            exists disc :: disc in discs && NoteToPrune(q, rootNoteID, disc, id)
  {
    if discs != [] {
      var n := |discs| - 1;
      DeletedExactly(q, rootNoteID, discs[..n], id);
      RepliesFirstExactly(discs[n].notes, id);
      assert discs == discs[..n] + [discs[n]];
      assert discs[n] in discs && forall disc :: disc in discs[..n] ==> disc in discs;
      assert NoteToPrune(q, rootNoteID, discs[n], id) <==>
             Prunable(q, rootNoteID, discs[n]) && id in RepliesFirst(discs[n].notes);
    }
  }

  /** The requests for thread i form one stretch, replies before the root. */
  lemma {:induction false} RepliesBeforeRoot(q: Query, rootNoteID: nat, discs: seq<Discussion>, i: nat)
    requires i < |discs| && Prunable(q, rootNoteID, discs[i])
    ensures var before := Deletions(q, rootNoteID, discs[..i]);
            before + RepliesFirst(discs[i].notes) <= Deletions(q, rootNoteID, discs)
  {
    var n := |discs| - 1;
    if i < n {
      RepliesBeforeRoot(q, rootNoteID, discs[..n], i);
      assert discs[..n][..i] == discs[..i];
    }
  }

  class GitlabClient {
    const deleteOldComments: bool
    var requested: seq<nat>    // deletion requests sent, in order
    var notes: set<nat>        // notes that exist on the merge request

    constructor (deleteOldComments: bool, notes: set<nat>)
      ensures this.deleteOldComments == deleteOldComments && this.notes == notes && requested == []
    {
      this.deleteOldComments, this.notes, requested := deleteOldComments, notes, [];
    }

    /** discussions or user is None when that call fails; failing are the notes
        whose deletion fails, which is logged and skipped. */
    method GetOldRunUrls(discussions: Option<seq<Discussion>>, user: Option<string>, rootNoteID: nat,
                         workspace: string, action: string, failing: set<nat>) returns (r: Result<string>)
      modifies this
      ensures r.Err? <==> discussions.None? || user.None?
      ensures r.Err? ==> requested == old(requested) && notes == old(notes)
      ensures r.Ok? ==>
                var q, discs := ThreadsOf(user.value, workspace, action), discussions.value;
                var deleted := if deleteOldComments then Deletions(q, rootNoteID, discs) else [];
                && r.value == HistoryBlock(LastBlock(q, discs), Rows(q, discs))
                && requested == old(requested) + deleted
                && notes == old(notes) - (set id | id in deleted && id !in failing)
    {
      if discussions.None? {
        return Err("could not list discussions");
      }
      if user.None? {
        return Err("could not read current user");
      }
      var discs, q := discussions.value, ThreadsOf(user.value, workspace, action);
      var oldRunUrls: seq<string>, oldRunBlock, toDelete: seq<nat> := [], "", [];
      for i := 0 to |discs|
        invariant oldRunUrls == Rows(q, discs[..i]) && oldRunBlock == LastBlock(q, discs[..i])
        invariant toDelete == Deletions(q, rootNoteID, discs[..i])
        invariant requested == old(requested) && notes == old(notes)
      {
        assert discs[..i + 1][..i] == discs[..i];
        var disc := discs[i];
        if |disc.notes| == 0 {
          continue;
        }
        var rootNote := disc.notes[0];
        if rootNote.author != user.value {
          continue;
        }
        var marker := ParseMarker(rootNote.body);
        if marker.NotFound? || marker.workspace != workspace || marker.action != action {
          continue;
        }
        var rows, block := CollectThread(q, disc.notes, oldRunBlock);
        oldRunUrls, oldRunBlock := oldRunUrls + rows, block;
        if rootNote.id == rootNoteID {
          continue;
        }
        var noteIDs := ReverseIds(disc.notes);
        toDelete := toDelete + noteIDs;
      }
      assert discs[..|discs|] == discs;
      if deleteOldComments {
        DeleteNotes(toDelete, failing);
      }
      var block := CollectedBlock(oldRunBlock, oldRunUrls);
      return Ok(block);
    }

    /** The inner loop over the notes of one thread. */
    method CollectThread(q: Query, notes: seq<Note>, oldBlock: string) returns (rows: seq<string>, block: string)
      ensures rows == NoteRows(q, notes) && block == NoteBlock(q, notes, oldBlock)
    {
      rows, block := [], oldBlock;
      for k := 0 to |notes|
        invariant rows == NoteRows(q, notes[..k]) && block == NoteBlock(q, notes[..k], oldBlock)
      {
        assert notes[..k + 1][..k] == notes[..k];
        var note := notes[k];
        if note.author != q.user {
          continue;
        }
        var runUrl := CaptureSubstring(note.body, URL_RUN_PREFIX, URL_RUN_SUFFIX);
        var runUrlRaw := CaptureSubstring(runUrl, "[", "]");
        var runID := LastSegment(runUrlRaw);
        var runStatus := CaptureSubstring(note.body, URL_RUN_STATUS_PREFIX, URL_RUN_SUFFIX);
        if runUrl != "" && runStatus != "" {
          rows := rows + ["|[" + runID + "](" + runUrlRaw + ")|"
                          + FormatStatus(runStatus) + "|" + note.createdAt + "|"];
        }
        var oldRunBlockTest := CapturedBlock(note.body);
        if oldRunBlockTest != "" {
          block := oldRunBlockTest;
        }
      }
      assert notes[..|notes|] == notes;
    }

    method ReverseIds(notes: seq<Note>) returns (ids: seq<nat>)
      ensures ids == RepliesFirst(notes)
    {
      ids := [];
      for i := |notes| downto 0
        invariant |ids| == |notes| - i && forall j :: 0 <= j < |ids| ==> ids[j] == notes[|notes| - 1 - j].id
      {
        ids := ids + [notes[i].id];
      }
    }

    method DeleteNotes(ids: seq<nat>, failing: set<nat>)
      modifies this
      ensures requested == old(requested) + ids
      ensures notes == old(notes) - (set id | id in ids && id !in failing)
    {
      for i := 0 to |ids|
        invariant requested == old(requested) + ids[..i]
        invariant notes == old(notes) - (set id | id in ids[..i] && id !in failing)
      {
        requested := requested + [ids[i]];
        if ids[i] !in failing {
          notes := notes - {ids[i]};
        }
        assert ids[..i + 1] == ids[..i] + [ids[i]];
      }
      assert ids[..|ids|] == ids;
    }
  }

  // ------------------------------------------------------- what is collected

  /** One row for each of these notes, in order, each showing its note's run. */
  ghost predicate ShowsAll(rows: seq<string>, notes: seq<Note>, at: seq<nat>) {
    && |rows| == |at| && Ascending(at, |notes|)
    && forall k :: 0 <= k < |at| ==> ShowsRun(rows[k], notes[at[k]].body, notes[at[k]].createdAt, FormatStatus)
  }

  lemma ShowsNext(rows: seq<string>, notes: seq<Note>, at: seq<nat>)
    requires notes != [] && ShowsAll(rows, notes[..|notes| - 1], at)
    ensures ShowsAll(rows, notes, at)
    ensures var note := notes[|notes| - 1];
            forall row :: ShowsRun(row, note.body, note.createdAt, FormatStatus) ==>
              ShowsAll(rows + [row], notes, at + [|notes| - 1])
  {
    AscendingSnoc(at, |notes| - 1);
  }

  lemma NoteRowIff(q: Query, notes: seq<Note>)
    requires notes != []
    ensures var before, note := NoteRows(q, notes[..|notes| - 1]), notes[|notes| - 1];
            if note.author == q.user && HasRun(note.body)
            then exists row ::
                   ShowsRun(row, note.body, note.createdAt, FormatStatus) && NoteRows(q, notes) == before + [row]
            else NoteRows(q, notes) == before
  {
    var note := notes[|notes| - 1];
    RunRowIff(note.body, note.createdAt, FormatStatus);
  }

  /** at lists, in order, the notes of a thread that get a row: exactly those the bot
      wrote and which show the address and the status of a run. */
  lemma {:induction false} NoteRowsExactly(q: Query, notes: seq<Note>) returns (at: seq<nat>)
    ensures ShowsAll(NoteRows(q, notes), notes, at)
    ensures forall i: nat :: i < |notes| ==> (i in at <==> notes[i].author == q.user && HasRun(notes[i].body))
  {
    at := [];
    if notes != [] {
      var n := |notes| - 1;
      var before := NoteRowsExactly(q, notes[..n]);
      AscendingSnoc(before, n);
      ShowsNext(NoteRows(q, notes[..n]), notes, before);
      NoteRowIff(q, notes);
      at := if notes[n].author == q.user && HasRun(notes[n].body) then before + [n] else before;
    }
  }

  /** The rows are those of the threads that count, one thread after the other. */
  lemma {:induction false} RowsByThread(q: Query, a: seq<Discussion>, disc: Discussion, b: seq<Discussion>)
    ensures Rows(q, a + [disc] + b) ==
            Rows(q, a) + (if disc.notes != [] && q.counts(disc) then NoteRows(q, disc.notes) else []) + Rows(q, b)
  {
    var all := a + [disc] + b;
    if b == [] {
      assert all[..|all| - 1] == a && all[|all| - 1] == disc;
    } else {
      var m := |b| - 1;
      assert all[..|all| - 1] == a + [disc] + b[..m] && all[|all| - 1] == b[m];
      RowsByThread(q, a, disc, b[..m]);
    }
  }

  /** The bot wrote the note, and it carries a history. */
  ghost predicate NoteCarries(q: Query, note: Note) {
    note.author == q.user && CapturedBlock(note.body) != ""
  }

  /** Note j of the thread is the last that carries a history. */
  ghost predicate NewestNote(q: Query, notes: seq<Note>, j: nat) {
    && j < |notes| && NoteCarries(q, notes[j])
    && forall k :: j < k < |notes| ==> !NoteCarries(q, notes[k])
  }

  lemma NoteBlockStep(q: Query, notes: seq<Note>, block: string)
    requires notes != []
    ensures var note := notes[|notes| - 1];
            NoteBlock(q, notes, block) ==
            if NoteCarries(q, note) then CapturedBlock(note.body) else NoteBlock(q, notes[..|notes| - 1], block)
  {
  }

  lemma {:induction false} NewestNoteBlock(q: Query, notes: seq<Note>, block: string, j: nat)
    requires NewestNote(q, notes, j)
    ensures NoteBlock(q, notes, block) == CapturedBlock(notes[j].body)
  {
    NoteBlockStep(q, notes, block);
    if j < |notes| - 1 {
      NewestNoteBefore(q, notes, j);
      NewestNoteBlock(q, notes[..|notes| - 1], block, j);
    }
  }

  lemma NewestNoteBefore(q: Query, notes: seq<Note>, j: nat)
    requires NewestNote(q, notes, j) && j < |notes| - 1
    ensures NewestNote(q, notes[..|notes| - 1], j) && !NoteCarries(q, notes[|notes| - 1])
    ensures notes[..|notes| - 1][j] == notes[j]
  {
  }

  lemma {:induction false} NoNoteBlock(q: Query, notes: seq<Note>, block: string)
    requires forall k :: 0 <= k < |notes| ==> !NoteCarries(q, notes[k])
    ensures NoteBlock(q, notes, block) == block
  {
    if notes != [] {
      NoteBlockStep(q, notes, block);
      NoNoteBlock(q, notes[..|notes| - 1], block);
    }
  }

  /** Some note of the thread carries a history, and the thread counts. */
  ghost predicate ThreadCarries(q: Query, disc: Discussion) {
    disc.notes != [] && q.counts(disc) && exists k :: 0 <= k < |disc.notes| && NoteCarries(q, disc.notes[k])
  }

  /** Thread i is the last that carries a history. */
  ghost predicate NewestThread(q: Query, discs: seq<Discussion>, i: nat) {
    && i < |discs| && ThreadCarries(q, discs[i])
    && forall k :: i < k < |discs| ==> !ThreadCarries(q, discs[k])
  }

  /** A last thread without a history leaves the one found before. */
  lemma QuietThread(q: Query, discs: seq<Discussion>)
    requires discs != [] && !ThreadCarries(q, discs[|discs| - 1])
    ensures LastBlock(q, discs) == LastBlock(q, discs[..|discs| - 1])
  {
    var n := |discs| - 1;
    if Ours(q, discs[n]) {
      NoNoteBlock(q, discs[n].notes, LastBlock(q, discs[..n]));
    }
  }

  /** The history extended is the one of the last carrying note of the last thread that
      counts and has one. */
  lemma {:induction false} NewestBlock(q: Query, discs: seq<Discussion>, i: nat, j: nat)
    requires NewestThread(q, discs, i) && NewestNote(q, discs[i].notes, j)
    ensures LastBlock(q, discs) == CapturedBlock(discs[i].notes[j].body)
  {
    var n := |discs| - 1;
    if i < n {
      NewestThreadBefore(q, discs, i);
      QuietThread(q, discs);
      NewestBlock(q, discs[..n], i, j);
    } else {
      LoudThread(q, discs, j);
    }
  }

  lemma NewestThreadBefore(q: Query, discs: seq<Discussion>, i: nat)
    requires NewestThread(q, discs, i) && i < |discs| - 1
    ensures NewestThread(q, discs[..|discs| - 1], i) && !ThreadCarries(q, discs[|discs| - 1])
    ensures discs[..|discs| - 1][i] == discs[i]
  {
  }

  lemma LoudThread(q: Query, discs: seq<Discussion>, j: nat)
    requires discs != [] && Ours(q, discs[|discs| - 1]) && NewestNote(q, discs[|discs| - 1].notes, j)
    ensures LastBlock(q, discs) == CapturedBlock(discs[|discs| - 1].notes[j].body)
  {
    NewestNoteBlock(q, discs[|discs| - 1].notes, LastBlock(q, discs[..|discs| - 1]), j);
  }

  /** And without such a thread there is none. */
  lemma {:induction false} NoBlock(q: Query, discs: seq<Discussion>)
    requires forall i :: 0 <= i < |discs| ==> !ThreadCarries(q, discs[i])
    ensures LastBlock(q, discs) == ""
  {
    if discs != [] {
      QuietThread(q, discs);
      NoBlock(q, discs[..|discs| - 1]);
    }
  }

  // ------------------------------------------------------- history over runs

  lemma {:induction false} NoteRowsAreRows(q: Query, notes: seq<Note>)
    ensures forall i :: 0 <= i < |NoteRows(q, notes)| ==> IsRow(NoteRows(q, notes)[i])
  {
    if notes != [] {
      NoteRowsAreRows(q, notes[..|notes| - 1]);
    }
  }

  lemma {:induction false} RowsAreRows(q: Query, discs: seq<Discussion>)
    ensures forall i :: 0 <= i < |Rows(q, discs)| ==> IsRow(Rows(q, discs)[i])
  {
    if discs != [] {
      RowsAreRows(q, discs[..|discs| - 1]);
      NoteRowsAreRows(q, discs[|discs| - 1].notes);
    }
  }

  lemma {:induction false} NoteBlockIsClosed(q: Query, notes: seq<Note>, block: string)
    requires !Contains(block, URL_RUN_GROUP_SUFFIX)
    ensures !Contains(NoteBlock(q, notes, block), URL_RUN_GROUP_SUFFIX)
  {
    if notes != [] {
      CapturedIsClosed(notes[|notes| - 1].body);
      NoteBlockIsClosed(q, notes[..|notes| - 1], block);
    }
  }

  lemma {:induction false} LastBlockIsClosed(q: Query, discs: seq<Discussion>)
    ensures !Contains(LastBlock(q, discs), URL_RUN_GROUP_SUFFIX)
  {
    if discs == [] {
      AbsentHead("", URL_RUN_GROUP_SUFFIX);
    } else {
      var n := |discs| - 1;
      LastBlockIsClosed(q, discs[..n]);
      NoteBlockIsClosed(q, discs[n].notes, LastBlock(q, discs[..n]));
    }
  }

  /** No note from the given position on carries a block. */
  predicate Blank(notes: seq<Note>, from: nat) {
    forall k :: from <= k < |notes| ==> CapturedBlock(notes[k].body) == ""
  }

  lemma {:induction false} BlankKeepsBlock(q: Query, notes: seq<Note>, block: string)
    requires Blank(notes, 0)
    ensures NoteBlock(q, notes, block) == block
  {
    if notes != [] {
      BlankKeepsBlock(q, notes[..|notes| - 1], block);
    }
  }

  lemma {:induction false} RootBlock(q: Query, notes: seq<Note>, block: string)
    requires notes != [] && notes[0].author == q.user && CapturedBlock(notes[0].body) != "" && Blank(notes, 1)
    ensures NoteBlock(q, notes, block) == CapturedBlock(notes[0].body)
  {
    if |notes| > 1 {
      RootBlock(q, notes[..|notes| - 1], block);
    }
  }

  /** Our threads after n carry no history, nor do the replies of thread n. */
  ghost predicate NewestAt(q: Query, discs: seq<Discussion>, n: nat) {
    && n < |discs| && discs[n].notes != [] && Blank(discs[n].notes, 1)
    && forall j :: n < j < |discs| && Ours(q, discs[j]) ==> Blank(discs[j].notes, 0)
  }

  lemma NewestInPrefix(q: Query, discs: seq<Discussion>, n: nat, m: nat)
    requires NewestAt(q, discs, n) && n < m <= |discs|
    ensures NewestAt(q, discs[..m], n) && discs[..m][n] == discs[n]
  {
    forall j | n < j < m && Ours(q, discs[..m][j])
      ensures Blank(discs[..m][j].notes, 0)
    {
      assert discs[..m][j] == discs[j];
    }
  }

  /** The last block is the one of thread n's root if that thread counts and its
      root, which the bot wrote, carries one; if it does not count, the thread might
      as well not be there. */
  lemma {:induction false} LastBlockAt(q: Query, discs: seq<Discussion>, n: nat)
    requires NewestAt(q, discs, n)
    ensures Ours(q, discs[n]) && discs[n].notes[0].author == q.user && CapturedBlock(discs[n].notes[0].body) != "" ==>
              LastBlock(q, discs) == CapturedBlock(discs[n].notes[0].body)
    ensures !Ours(q, discs[n]) ==> LastBlock(q, discs) == LastBlock(q, discs[..n])
  {
    var m := |discs| - 1;
    if n == m {
      var root := discs[n].notes[0];
      if Ours(q, discs[n]) && root.author == q.user && CapturedBlock(root.body) != "" {
        RootBlock(q, discs[n].notes, LastBlock(q, discs[..n]));
      }
    } else {
      NewestInPrefix(q, discs, n, m);
      assert discs[..m][..n] == discs[..n];
      LastBlockAt(q, discs[..m], n);
      BlankLast(q, discs);
    }
  }

  lemma BlankLast(q: Query, discs: seq<Discussion>)
    requires discs != [] && (Ours(q, discs[|discs| - 1]) ==> Blank(discs[|discs| - 1].notes, 0))
    ensures LastBlock(q, discs) == LastBlock(q, discs[..|discs| - 1])
  {
    if Ours(q, discs[|discs| - 1]) {
      BlankKeepsBlock(q, discs[|discs| - 1].notes, LastBlock(q, discs[..|discs| - 1]));
    }
  }
}
