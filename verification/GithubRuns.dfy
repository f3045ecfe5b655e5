/** What pkg/vcs/github/run_events_worker.go posts for a run, and how a later
    GetOldRunUrls reads it back. Nothing is rewritten there: every status that has a
    text becomes a new comment, and a canceled run has none. */
module GithubRuns {
  import opened Strings
  import opened Formatter
  import opened RunHistory
  import opened GithubClient
  import opened RunComments
  import opened HistoryRuns

  /** The comment posted for a run; oldUrls is what GetOldRunUrls returned, extra the
      text shown below the details. */
  function PostedBody(workspace: string, action: string, run: Run, oldUrls: string, extra: string): string {
    var top := TopLevelBody(workspace, action, run);
    if top == "" then "" else Before(run, oldUrls) + top + After(extra)
  }

  function Before(run: Run, oldUrls: string): string {
    if run.status in ENDED && oldUrls != "" then oldUrls + "\n\n" else ""
  }

  function After(extra: string): string {
    if extra != "" then "\n" + extra else ""
  }

  lemma PostedParts(workspace: string, action: string, run: Run, oldUrls: string, extra: string)
    requires run.status in REPORTED
    ensures PostedBody(workspace, action, run, oldUrls, extra)
         == Before(run, oldUrls) + (RunDetails(workspace, action, run) + "\n" + FormatMarker(workspace, action))
            + After(extra)
  {
    assert FormatMarker(workspace, action)[..|MARKER_PREFIX|] == MARKER_PREFIX;
  }

  lemma Regroup(before: string, details: string, marker: string, after: string)
    ensures before + (details + "\n" + marker) + after == before + details + ("\n" + marker + after)
    ensures before + (details + "\n" + marker) + after == before + details + "\n" + marker + after
  {
  }

  lemma BeforeFree(run: Run, oldUrls: string)
    requires Inert(oldUrls)
    ensures LabelFree(Before(run, oldUrls)) && !Contains(Before(run, oldUrls), MARKER_PREFIX)
  {
    EmptyIsInert();
    LinesAreLabelFree(oldUrls);
    LinesFree(oldUrls, "");
    assert oldUrls + "\n\n" + "" == oldUrls + "\n\n";
  }

  /** The history is put in front of the comment of a run that ended with a text, and of
      no other. */
  lemma HistoryPostedIff(workspace: string, action: string, run: Run, oldUrls: string, extra: string)
    requires oldUrls != ""
    ensures var plain := PostedBody(workspace, action, run, "", extra);
            PostedBody(workspace, action, run, oldUrls, extra) ==
            if run.status in {"errored", "discarded", "planned_and_finished"} then oldUrls + "\n\n" + plain else plain
  {
    if run.status in REPORTED {
      PostedParts(workspace, action, run, oldUrls, extra);
      PostedParts(workspace, action, run, "", extra);
      var top := RunDetails(workspace, action, run) + "\n" + FormatMarker(workspace, action);
      Prepended(Before(run, oldUrls), top, After(extra));
    }
  }

  lemma Prepended(before: string, top: string, after: string)
    ensures before + top + after == before + ("" + top + after)
  {
  }

  /** A comment the program posted is read back as one row with its run's identifier,
      status and time, whatever history of ordinary text stands in front and whatever
      text below. */
  lemma PostedCommentHasRow(workspace: string, action: string, run: Run, oldUrls: string, extra: string,
                            createdAt: string)
    requires run.status in REPORTED && Readable(workspace, action, run) && Inert(oldUrls)
    ensures RunRow(PostedBody(workspace, action, run, oldUrls, extra), createdAt, s => s)
         == Some("|[" + LastSegment(run.id) + "](" + run.id + ")|" + ("`" + run.status + "`") + "|" + createdAt + "|")
  {
    BeforeFree(run, oldUrls);
    PostedParts(workspace, action, run, oldUrls, extra);
    Regroup(Before(run, oldUrls), RunDetails(workspace, action, run), FormatMarker(workspace, action), After(extra));
    RowOfDetails(Before(run, oldUrls), workspace, action, run,
                 "\n" + FormatMarker(workspace, action) + After(extra), createdAt, s => s);
  }

  /** And it counts for its own workspace and action, exactly if these are markable. */
  lemma PostedCommentCounts(user: string, workspace: string, action: string, run: Run, oldUrls: string,
                            extra: string, c: Comment)
    requires run.status in REPORTED && Inert(oldUrls)
    requires !Contains(RunDetails(workspace, action, run), MARKER_PREFIX)
    requires c.author == user && c.body == PostedBody(workspace, action, run, oldUrls, extra)
    ensures CommentsOf(user, workspace, action)(c) <==> Markable(workspace, action)
  {
    BeforeFree(run, oldUrls);
    PostedParts(workspace, action, run, oldUrls, extra);
    MarkerAmid(Before(run, oldUrls), RunDetails(workspace, action, run), workspace, action, After(extra));
    CountsByMarker(user, workspace, action, c);
  }

  lemma CountsByMarker(user: string, workspace: string, action: string, c: Comment)
    ensures CommentsOf(user, workspace, action)(c) <==>
            c.author == user && ParseMarker(c.body) == Found(workspace, action)
  {
  }

  lemma MarkerAmid(before: string, details: string, workspace: string, action: string, after: string)
    requires !Contains(before, MARKER_PREFIX) && !Contains(details, MARKER_PREFIX)
    requires before == "" || before[|before| - 1] == '\n'
    ensures ParseMarker(before + (details + "\n" + FormatMarker(workspace, action)) + after) == Found(workspace, action)
       <==> Markable(workspace, action)
  {
    MarkerPrefixChars();
    AbsentHead("", MARKER_PREFIX);
    NextLineFree(before, details, MARKER_PREFIX);
    LinesFree("", before + details);
    MarkerRoundTrip(before + details + "\n", workspace, action, after);
    Regroup(before, details, FormatMarker(workspace, action), after);
  }

  /** So a later call has that row among the ones it returns. */
  lemma PostedRunIsListed(user: string, workspace: string, action: string, run: Run, oldUrls: string,
                          extra: string, comments: seq<Comment>, i: nat)
    requires run.status in REPORTED && Readable(workspace, action, run) && Markable(workspace, action)
    requires !Contains(RunDetails(workspace, action, run), MARKER_PREFIX) && Inert(oldUrls)
    requires i < |comments| && comments[i].author == user
    requires comments[i].body == PostedBody(workspace, action, run, oldUrls, extra)
    ensures "|[" + LastSegment(run.id) + "](" + run.id + ")|" + ("`" + run.status + "`") + "|"
            + comments[i].createdAt + "|" in Rows(CommentsOf(user, workspace, action), comments)
  {
    PostedCommentHasRow(workspace, action, run, oldUrls, extra, comments[i].createdAt);
    PostedCommentCounts(user, workspace, action, run, oldUrls, extra, comments[i]);
    RowListed(CommentsOf(user, workspace, action), comments, i);
  }

  lemma {:induction false} RowListed(q: Filter, comments: seq<Comment>, i: nat)
    requires i < |comments| && q(comments[i]) && RunRow(comments[i].body, comments[i].createdAt, s => s).Some?
    ensures RunRow(comments[i].body, comments[i].createdAt, s => s).value in Rows(q, comments)
  {
    if i < |comments| - 1 {
      RowListed(q, comments[..|comments| - 1], i);
    }
  }

  /** A canceled run, or any other status without a text, posts nothing. */
  lemma NothingPostedIff(workspace: string, action: string, run: Run, oldUrls: string, extra: string)
    ensures PostedBody(workspace, action, run, oldUrls, extra) == "" <==>
            run.status !in {"pending", "applying", "applied", "discarded", "errored", "planning", "planned",
                            "planned_and_finished", "policy_soft_failed", "policy_checked"}
  {
    if run.status in REPORTED {
      PostedParts(workspace, action, run, oldUrls, extra);
    }
  }
}
