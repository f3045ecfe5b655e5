/** GetOldRunUrls of pkg/vcs/github/client.go: the same history over the flat
    comment list of a pull request. Statuses are kept as written, and the first
    failing deletion ends the call with an error. */
module GithubClient {
  import opened Strings
  import opened Formatter
  import opened RunHistory

  datatype Comment = Comment(id: nat, author: string, body: string, createdAt: string)

  type Filter = Comment -> bool

  /** Comments the bot wrote and marked with this workspace and action. */
  function CommentsOf(user: string, workspace: string, action: string): Filter {
    (c: Comment) => c.author == user && ParseMarker(c.body) == Found(workspace, action)
  }

  /** The row of one comment, if it counts and has one. */
  function RowOf(q: Filter, c: Comment): seq<string> {
    if !q(c) then []
    else
      match RunRow(c.body, c.createdAt, s => s)
      case None => []
      case Some(row) => [row]
  }

  /** The block of one comment, or else the block found before it. */
  function BlockOf(q: Filter, c: Comment, before: string): string {
    if q(c) && CapturedBlock(c.body) != "" then CapturedBlock(c.body) else before
  }

  /** The id of one comment, if it counts and is not the current one. */
  function IdOf(q: Filter, rootCommentID: nat, c: Comment): seq<nat> {
    if q(c) && c.id != rootCommentID then [c.id] else []
  }

  function Rows(q: Filter, comments: seq<Comment>): seq<string> {
    if comments == [] then []
    else
      var n := |comments| - 1;
      Rows(q, comments[..n]) + RowOf(q, comments[n])
  }

  function LastBlock(q: Filter, comments: seq<Comment>): string {
    if comments == [] then ""
    else
      var n := |comments| - 1;
      BlockOf(q, comments[n], LastBlock(q, comments[..n]))
  }

  function Matching(q: Filter, rootCommentID: nat, comments: seq<Comment>): seq<nat> {
    if comments == [] then []
    else
      var n := |comments| - 1;
      Matching(q, rootCommentID, comments[..n]) + IdOf(q, rootCommentID, comments[n])
  }

  lemma Snoc(q: Filter, rootCommentID: nat, all: seq<Comment>, i: nat)
    requires i < |all|
    ensures Rows(q, all[..i + 1]) == Rows(q, all[..i]) + RowOf(q, all[i])
    ensures LastBlock(q, all[..i + 1]) == BlockOf(q, all[i], LastBlock(q, all[..i]))
    ensures Matching(q, rootCommentID, all[..i + 1])
            == Matching(q, rootCommentID, all[..i]) + IdOf(q, rootCommentID, all[i])
  {
    assert all[..i + 1][..i] == all[..i];
  }

  lemma {:induction false} MatchingExactly(q: Filter, rootCommentID: nat, comments: seq<Comment>, id: nat)
    ensures id in Matching(q, rootCommentID, comments) <==>
            exists c :: c in comments && q(c) && c.id == id && id != rootCommentID
  {
    if comments != [] {
      var n := |comments| - 1;
      MatchingExactly(q, rootCommentID, comments[..n], id);
      assert comments == comments[..n] + [comments[n]];
    }
  }

  /** A comment counts exactly if the bot wrote it and the first marker in it is the
      one of this workspace and action. */
  lemma CountedIff(user: string, workspace: string, action: string, c: Comment)
    ensures CommentsOf(user, workspace, action)(c) <==> Marked(user, workspace, action, c)
  {
    ParseMarkerExact(c.body, workspace, action);
  }

  lemma RowOfIff(q: Filter, c: Comment)
    ensures if q(c) && HasRun(c.body) then |RowOf(q, c)| == 1 && ShowsRun(RowOf(q, c)[0], c.body, c.createdAt, s => s)
            else RowOf(q, c) == []
  {
    RunRowIff(c.body, c.createdAt, s => s);
  }

  /** One row for each of these comments, in order, each showing its comment's run. */
  ghost predicate ShowsAll(rows: seq<string>, comments: seq<Comment>, at: seq<nat>) {
    && |rows| == |at| && Ascending(at, |comments|)
    && forall k :: 0 <= k < |at| ==>
         ShowsRun(rows[k], comments[at[k]].body, comments[at[k]].createdAt, s => s)
  }

  lemma ShowsNext(rows: seq<string>, comments: seq<Comment>, at: seq<nat>)
    requires comments != [] && ShowsAll(rows, comments[..|comments| - 1], at)
    ensures ShowsAll(rows, comments, at)
    ensures var c := comments[|comments| - 1];
            forall row :: ShowsRun(row, c.body, c.createdAt, s => s) ==>
              ShowsAll(rows + [row], comments, at + [|comments| - 1])
  {
    AscendingSnoc(at, |comments| - 1);
  }

  lemma {:induction false} RowsAt(q: Filter, comments: seq<Comment>) returns (at: seq<nat>)
    ensures ShowsAll(Rows(q, comments), comments, at)
    ensures forall i: nat :: i < |comments| ==> (i in at <==> q(comments[i]) && HasRun(comments[i].body))
  {
    at := [];
    if comments != [] {
      var n := |comments| - 1;
      var before := RowsAt(q, comments[..n]);
      AscendingSnoc(before, n);
      ShowsNext(Rows(q, comments[..n]), comments, before);
      RowOfIff(q, comments[n]);
      if q(comments[n]) && HasRun(comments[n].body) {
        assert Rows(q, comments) == Rows(q, comments[..n]) + [RowOf(q, comments[n])[0]];
        at := before + [n];
      } else {
        assert Rows(q, comments) == Rows(q, comments[..n]);
        at := before;
      }
    }
  }

  /** The bot wrote the comment and marked it with this workspace and action first. */
  ghost predicate Marked(user: string, workspace: string, action: string, c: Comment) {
    && c.author == user && Markable(workspace, action)
    && exists pre, post :: CarriesMarker(c.body, workspace, action, pre, post)
  }

  /** at lists, in order, the comments that get a row: exactly those the bot wrote, whose
      first marker is the one of this workspace and action, and which show the address
      and the status of a run. */
  lemma RowsExactly(user: string, workspace: string, action: string, comments: seq<Comment>) returns (at: seq<nat>)
    ensures ShowsAll(Rows(CommentsOf(user, workspace, action), comments), comments, at)
    ensures forall i: nat :: i < |comments| ==>
              (i in at <==> Marked(user, workspace, action, comments[i]) && HasRun(comments[i].body))
  {
    at := RowsAt(CommentsOf(user, workspace, action), comments);
    forall i: nat | i < |comments|
      ensures CommentsOf(user, workspace, action)(comments[i]) <==> Marked(user, workspace, action, comments[i])
    {
      CountedIff(user, workspace, action, comments[i]);
    }
  }

  lemma {:induction false} RowsHaveBars(q: Filter, comments: seq<Comment>)
    ensures forall i :: 0 <= i < |Rows(q, comments)| ==> IsRow(Rows(q, comments)[i])
  {
    if comments != [] {
      RowsHaveBars(q, comments[..|comments| - 1]);
    }
  }

  lemma {:induction false} BlockIsClosed(q: Filter, comments: seq<Comment>)
    ensures !Contains(LastBlock(q, comments), URL_RUN_GROUP_SUFFIX)
  {
    if comments == [] {
      AbsentHead("", URL_RUN_GROUP_SUFFIX);
    } else {
      BlockIsClosed(q, comments[..|comments| - 1]);
      CapturedIsClosed(comments[|comments| - 1].body);
    }
  }

  /** What a call returns, posted in front of any text, is captured back as the history
      the newest carrying comment had, with all rows appended, exactly if no row
      contains the closing tag. */
  lemma ReturnedBlockCarries(q: Filter, comments: seq<Comment>, rest: string)
    requires Rows(q, comments) != []
    ensures CapturedBlock(HistoryBlock(LastBlock(q, comments), Rows(q, comments)) + rest)
         == ExtendedHistory(LastBlock(q, comments), Rows(q, comments))
       <==> forall i :: 0 <= i < |Rows(q, comments)| ==> !Contains(Rows(q, comments)[i], URL_RUN_GROUP_SUFFIX)
  {
    RowsHaveBars(q, comments);
    BlockIsClosed(q, comments);
    HistoryRoundTrip(LastBlock(q, comments), Rows(q, comments), rest);
  }

  ghost predicate CarriesBlock(q: Filter, c: Comment) {
    q(c) && CapturedBlock(c.body) != ""
  }

  /** The history extended is the one of the newest comment that counts and carries
      one, and there is none exactly if no such comment does. */
  lemma {:induction false} NewestBlock(q: Filter, comments: seq<Comment>)
    ensures LastBlock(q, comments) == "" <==> forall c :: c in comments ==> !CarriesBlock(q, c)
    ensures LastBlock(q, comments) != "" ==>
              exists i :: 0 <= i < |comments| && CarriesBlock(q, comments[i])
                          && CapturedBlock(comments[i].body) == LastBlock(q, comments)
                          && forall j :: i < j < |comments| ==> !CarriesBlock(q, comments[j])
  {
    if comments != [] {
      var n := |comments| - 1;
      NewestBlock(q, comments[..n]);
      assert comments == comments[..n] + [comments[n]];
      assert CarriesBlock(q, comments[n]) ==> LastBlock(q, comments) == CapturedBlock(comments[n].body);
    }
  }

  /** Requests sent before, and including, the first that fails. */
  function UpToFailure(ids: seq<nat>, failing: set<nat>): seq<nat> {
    if ids == [] then []
    else if ids[0] in failing then [ids[0]]
    else [ids[0]] + UpToFailure(ids[1..], failing)
  }

  predicate NoneFails(ids: seq<nat>, failing: set<nat>) {
    forall id :: id in ids ==> id !in failing
  }

  lemma {:induction false} UpToFailureStops(ids: seq<nat>, failing: set<nat>)
    ensures UpToFailure(ids, failing) <= ids
    ensures UpToFailure(ids, failing) == ids || UpToFailure(ids, failing)[|UpToFailure(ids, failing)| - 1] in failing
    ensures forall i :: 0 <= i < |UpToFailure(ids, failing)| - 1 ==> UpToFailure(ids, failing)[i] !in failing
  {
    if ids != [] {
      UpToFailureStops(ids[1..], failing);
    }
  }

  // ---------------------------------------------- when a deletion fails midway

  /** The ids deleted: those requested before the first that fails. */
  function Deleted(ids: seq<nat>, failing: set<nat>): set<nat> {
    if ids == [] || ids[0] in failing then {} else {ids[0]} + Deleted(ids[1..], failing)
  }

  lemma {:induction false} DeletedConcat(a: seq<nat>, b: seq<nat>, failing: set<nat>)
    ensures Deleted(a + b, failing) == Deleted(a, failing) + if NoneFails(a, failing) then Deleted(b, failing) else {}
  {
    if a == [] {
      assert a + b == b;
    } else {
      assert (a + b)[1..] == a[1..] + b && a == [a[0]] + a[1..];
      DeletedConcat(a[1..], b, failing);
    }
  }

  /** The comment is meant to be deleted. */
  predicate Meant(q: Filter, rootCommentID: nat, c: Comment) {
    q(c) && c.id != rootCommentID
  }

  /** No comment up to the n-th that is meant to be deleted fails to be. */
  ghost predicate NoneFailsUpTo(q: Filter, rootCommentID: nat, comments: seq<Comment>, failing: set<nat>, n: nat)
    requires n <= |comments|
  {
    forall j :: 0 <= j < n && Meant(q, rootCommentID, comments[j]) ==> comments[j].id !in failing
  }

  lemma {:induction false} NoneFailsIff(q: Filter, rootCommentID: nat, comments: seq<Comment>, failing: set<nat>)
    ensures NoneFails(Matching(q, rootCommentID, comments), failing) <==>
            NoneFailsUpTo(q, rootCommentID, comments, failing, |comments|)
  {
    if comments != [] {
      var n := |comments| - 1;
      NoneFailsIff(q, rootCommentID, comments[..n], failing);
      assert forall id :: id in Matching(q, rootCommentID, comments) <==>
        id in Matching(q, rootCommentID, comments[..n]) || id in IdOf(q, rootCommentID, comments[n]);
    }
  }

  ghost predicate DistinctIds(comments: seq<Comment>) {
    forall i, j :: 0 <= i < j < |comments| ==> comments[i].id != comments[j].id
  }

  /** A comment is deleted exactly if it is meant to be and neither its deletion nor one
      before it fails. */
  lemma {:induction false} DeletedIff(q: Filter, rootCommentID: nat, comments: seq<Comment>, failing: set<nat>, i: nat)
    requires i < |comments| && DistinctIds(comments)
    ensures comments[i].id in Deleted(Matching(q, rootCommentID, comments), failing) <==>
            Meant(q, rootCommentID, comments[i]) && NoneFailsUpTo(q, rootCommentID, comments, failing, i + 1)
  {
    var n := |comments| - 1;
    var before, last := Matching(q, rootCommentID, comments[..n]), IdOf(q, rootCommentID, comments[n]);
    DeletedConcat(before, last, failing);
    NoneFailsIff(q, rootCommentID, comments[..n], failing);
    if i < n {
      DeletedIff(q, rootCommentID, comments[..n], failing, i);
    } else {
      OnlyEarlierDeleted(q, rootCommentID, comments[..n], failing, comments[n].id);
    }
  }

  lemma OnlyEarlierDeleted(q: Filter, rootCommentID: nat, comments: seq<Comment>, failing: set<nat>, id: nat)
    requires forall j :: 0 <= j < |comments| ==> comments[j].id != id
    ensures id !in Deleted(Matching(q, rootCommentID, comments), failing)
  {
    DeletedAreIds(Matching(q, rootCommentID, comments), failing);
    MatchingExactly(q, rootCommentID, comments, id);
  }

  lemma {:induction false} DeletedAreIds(ids: seq<nat>, failing: set<nat>)
    ensures forall id :: id in Deleted(ids, failing) ==> id in ids
  {
    if ids != [] {
      DeletedAreIds(ids[1..], failing);
    }
  }

  /** The comments left when those with these ids are gone. */
  function Remaining(comments: seq<Comment>, gone: set<nat>): seq<Comment> {
    if comments == [] then []
    else
      var n := |comments| - 1;
      Remaining(comments[..n], gone) + if comments[n].id in gone then [] else [comments[n]]
  }

  /** Comment i is the newest that carries a history. */
  ghost predicate NewestCarrier(q: Filter, comments: seq<Comment>, i: nat) {
    && i < |comments| && CarriesBlock(q, comments[i])
    && forall j :: i < j < |comments| ==> !CarriesBlock(q, comments[j])
  }

  lemma CarriedBlock(q: Filter, c: Comment, before: string)
    ensures BlockOf(q, c, before) == if CarriesBlock(q, c) then CapturedBlock(c.body) else before
  {
  }

  lemma LastBlockSnoc(q: Filter, before: seq<Comment>, c: Comment)
    ensures LastBlock(q, before + [c]) == BlockOf(q, c, LastBlock(q, before))
  {
    assert (before + [c])[..|before|] == before;
  }

  lemma {:induction false} CarrierKept(q: Filter, comments: seq<Comment>, gone: set<nat>, i: nat)
    requires NewestCarrier(q, comments, i) && comments[i].id !in gone
    ensures LastBlock(q, Remaining(comments, gone)) == CapturedBlock(comments[i].body)
  {
    var n := |comments| - 1;
    RemainingBlock(q, comments, gone);
    if i < n {
      CarrierStaysNewest(q, comments, i);
      CarrierKept(q, comments[..n], gone, i);
      assert comments[..n][i] == comments[i];
    }
  }

  lemma CarrierStaysNewest(q: Filter, comments: seq<Comment>, i: nat)
    requires NewestCarrier(q, comments, i) && i < |comments| - 1
    ensures NewestCarrier(q, comments[..|comments| - 1], i) && !CarriesBlock(q, comments[|comments| - 1])
  {
  }

  lemma RemainingBlock(q: Filter, comments: seq<Comment>, gone: set<nat>)
    requires comments != []
    ensures var c, before := comments[|comments| - 1], Remaining(comments[..|comments| - 1], gone);
            LastBlock(q, Remaining(comments, gone)) ==
            if c.id !in gone && CarriesBlock(q, c) then CapturedBlock(c.body) else LastBlock(q, before)
  {
    var c, before := comments[|comments| - 1], Remaining(comments[..|comments| - 1], gone);
    LastBlockSnoc(q, before, c);
    CarriedBlock(q, c, LastBlock(q, before));
    assert Remaining(comments, gone) == if c.id in gone then before else before + [c];
    assert before + [] == before;
  }

  lemma {:induction false} RemainingAreComments(comments: seq<Comment>, gone: set<nat>)
    ensures forall c :: c in Remaining(comments, gone) ==> c in comments && c.id !in gone
  {
    if comments != [] {
      var n := |comments| - 1;
      RemainingAreComments(comments[..n], gone);
      assert comments == comments[..n] + [comments[n]];
    }
  }

  /** A call that fails posts nothing of the history it read, so the next call finds it
      exactly if the comment that carries it is left. Other histories differ from it. */
  lemma HistoryLeftIff(q: Filter, comments: seq<Comment>, gone: set<nat>, i: nat)
    requires NewestCarrier(q, comments, i)
    requires forall j :: 0 <= j < |comments| && j != i && CarriesBlock(q, comments[j]) ==>
               CapturedBlock(comments[j].body) != CapturedBlock(comments[i].body)
    ensures LastBlock(q, Remaining(comments, gone)) == CapturedBlock(comments[i].body) <==> comments[i].id !in gone
  {
    if comments[i].id !in gone {
      CarrierKept(q, comments, gone, i);
    } else {
      var rest := Remaining(comments, gone);
      RemainingAreComments(comments, gone);
      NewestBlock(q, rest);
      if LastBlock(q, rest) == CapturedBlock(comments[i].body) {
        var k :| 0 <= k < |rest| && CarriesBlock(q, rest[k]) && CapturedBlock(rest[k].body) == LastBlock(q, rest);
        var j := CommentAt(comments, rest[k]);
      }
    }
  }

  lemma CommentAt(comments: seq<Comment>, c: Comment) returns (j: nat)
    requires c in comments
    ensures j < |comments| && comments[j] == c
  {
    j :| 0 <= j < |comments| && comments[j] == c;
  }

  /** When some deletion fails, the history outlives the call exactly if its comment is
      the current one, or is not meant to be deleted, or its own deletion or one before
      it is the one that fails. The comment posted next carries no history. */
  lemma HistorySurvivesFailureIff(q: Filter, rootCommentID: nat, comments: seq<Comment>, failing: set<nat>, i: nat,
                                  posted: Comment)
    requires DistinctIds(comments) && NewestCarrier(q, comments, i) && CapturedBlock(posted.body) == ""
    requires forall j :: 0 <= j < |comments| && j != i && CarriesBlock(q, comments[j]) ==>
               CapturedBlock(comments[j].body) != CapturedBlock(comments[i].body)
    ensures var gone := Deleted(Matching(q, rootCommentID, comments), failing);
            LastBlock(q, Remaining(comments, gone) + [posted]) == LastBlock(q, comments) <==>
            comments[i].id == rootCommentID || !NoneFailsUpTo(q, rootCommentID, comments, failing, i + 1)
  {
    var gone := Deleted(Matching(q, rootCommentID, comments), failing);
    var rest := Remaining(comments, gone);
    assert (rest + [posted])[..|rest|] == rest;
    BlockOfCarrier(q, comments, i);
    HistoryLeftIff(q, comments, gone, i);
    DeletedIff(q, rootCommentID, comments, failing, i);
  }

  lemma {:induction false} BlockOfCarrier(q: Filter, comments: seq<Comment>, i: nat)
    requires NewestCarrier(q, comments, i)
    ensures LastBlock(q, comments) == CapturedBlock(comments[i].body)
  {
    if i < |comments| - 1 {
      BlockOfCarrier(q, comments[..|comments| - 1], i);
    }
  }

  class Client {
    const deleteOldComments: bool
    var requested: seq<nat>    // deletion requests sent, in order
    var existing: set<nat>     // ids of the comments that exist

    constructor (deleteOldComments: bool, existing: set<nat>)
      ensures this.deleteOldComments == deleteOldComments && this.existing == existing && requested == []
    {
      this.deleteOldComments, this.existing, requested := deleteOldComments, existing, [];
    }

    method GetOldRunUrls(comments: Option<seq<Comment>>, user: Option<string>, rootCommentID: nat,
                         workspace: string, action: string, failing: set<nat>) returns (r: Result<string>)
      modifies this
      ensures comments.None? || user.None? ==> r.Err? && requested == old(requested) && existing == old(existing)
      ensures comments.Some? && user.Some? ==>
                var q, all := CommentsOf(user.value, workspace, action), comments.value;
                var ids := if deleteOldComments then Matching(q, rootCommentID, all) else [];
                && requested == old(requested) + UpToFailure(ids, failing)
                && existing == old(existing) - Deleted(ids, failing)
                && (r.Ok? <==> NoneFails(ids, failing))
                && (r.Ok? ==> r.value == HistoryBlock(LastBlock(q, all), Rows(q, all)))
    {
      if comments.None? {
        return Err("could not list comments");
      }
      if user.None? {
        return Err("could not read current user");
      }
      var all, q := comments.value, CommentsOf(user.value, workspace, action);
      var oldRunUrls, oldRunBlock, matchingCommentIDs :=
        CollectComments(all, user.value, rootCommentID, workspace, action);
      assert UpToFailure([], failing) == [];
      if deleteOldComments && |matchingCommentIDs| > 0 {
        var ok := DeleteComments(matchingCommentIDs, failing);
        if !ok {
          return Err("could not delete comment");
        }
      }
      var block := CollectedBlock(oldRunBlock, oldRunUrls);
      return Ok(block);
    }

    /** The loop over comments. */
    method CollectComments(all: seq<Comment>, user: string, rootCommentID: nat, workspace: string, action: string)
      returns (oldRunUrls: seq<string>, oldRunBlock: string, matchingCommentIDs: seq<nat>)
      ensures var q := CommentsOf(user, workspace, action);
              oldRunUrls == Rows(q, all) && oldRunBlock == LastBlock(q, all)
              && matchingCommentIDs == Matching(q, rootCommentID, all)
    {
      ghost var q := CommentsOf(user, workspace, action);
      oldRunUrls, oldRunBlock, matchingCommentIDs := [], "", [];
      for i := 0 to |all|
        invariant oldRunUrls == Rows(q, all[..i]) && oldRunBlock == LastBlock(q, all[..i])
        invariant matchingCommentIDs == Matching(q, rootCommentID, all[..i])
      {
        Snoc(q, rootCommentID, all, i);
        oldRunUrls, oldRunBlock, matchingCommentIDs := CollectComment(
          user, workspace, action, rootCommentID, all[i], oldRunUrls, oldRunBlock, matchingCommentIDs);
      }
      assert all[..|all|] == all;
    }

    method Counts(user: string, workspace: string, action: string, comment: Comment) returns (counted: bool)
      ensures counted == CommentsOf(user, workspace, action)(comment)
    {
      if comment.author != user {
        return false;
      }
      var marker := ParseMarker(comment.body);
      if marker.NotFound? || marker.workspace != workspace || marker.action != action {
        return false;
      }
      return true;
    }

    /** The body of the loop over comments. */
    method CollectComment(user: string, workspace: string, action: string, rootCommentID: nat, comment: Comment,
                          urls: seq<string>, block: string, ids: seq<nat>)
      returns (oldRunUrls: seq<string>, oldRunBlock: string, matchingCommentIDs: seq<nat>)
      ensures var q := CommentsOf(user, workspace, action);
              oldRunUrls == urls + RowOf(q, comment) && oldRunBlock == BlockOf(q, comment, block)
              && matchingCommentIDs == ids + IdOf(q, rootCommentID, comment)
    {
      oldRunUrls, oldRunBlock, matchingCommentIDs := urls, block, ids;
      var counted := Counts(user, workspace, action, comment);
      if !counted {
        return;
      }
      var row := RunRow(comment.body, comment.createdAt, s => s);
      if row.Some? {
        oldRunUrls := oldRunUrls + [row.value];
      }
      var oldRunBlockTest := CapturedBlock(comment.body);
      if oldRunBlockTest != "" {
        oldRunBlock := oldRunBlockTest;
      }
      if comment.id != rootCommentID {
        matchingCommentIDs := matchingCommentIDs + [comment.id];
      }
    }

    method DeleteComments(ids: seq<nat>, failing: set<nat>) returns (ok: bool)
      modifies this
      ensures requested == old(requested) + UpToFailure(ids, failing)
      ensures existing == old(existing) - Deleted(ids, failing)
      ensures ok <==> NoneFails(ids, failing)
    {
      for i := 0 to |ids|
        invariant requested == old(requested) + ids[..i]
        invariant NoneFails(ids[..i], failing)
        invariant existing == old(existing) - Deleted(ids[..i], failing)
      {
        assert ids[..i + 1] == ids[..i] + [ids[i]];
        requested := requested + [ids[i]];
        if ids[i] in failing {
          FirstFailure(ids, failing, i);
          return false;
        }
        DeletedConcat(ids[..i], [ids[i]], failing);
        existing := existing - {ids[i]};
      }
      assert ids[..|ids|] == ids;
      NoFailure(ids, failing);
      return true;
    }
  }

  lemma {:induction false} NoFailure(ids: seq<nat>, failing: set<nat>)
    requires NoneFails(ids, failing)
    ensures UpToFailure(ids, failing) == ids
  {
    if ids != [] {
      assert forall id :: id in ids[1..] ==> id in ids;
      NoFailure(ids[1..], failing);
    }
  }

  lemma {:induction false} FirstFailure(ids: seq<nat>, failing: set<nat>, i: nat)
    requires i < |ids| && NoneFails(ids[..i], failing) && ids[i] in failing
    ensures UpToFailure(ids, failing) == ids[..i + 1] && Deleted(ids, failing) == Deleted(ids[..i], failing)
    ensures !NoneFails(ids, failing)
  {
    if i > 0 {
      assert ids[..i][0] == ids[0] && ids[..i][0] in ids[..i];
      assert ids[1..][..i - 1] == ids[..i][1..] && forall id :: id in ids[1..][..i - 1] ==> id in ids[..i];
      FirstFailure(ids[1..], failing, i - 1);
    }
  }
}
