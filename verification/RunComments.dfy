/** pkg/vcs/gitlab/mr_comment_updater.go and the text it posts, of
    pkg/comment_formatter/tfc_status_update.go: when a run ends its note is
    rewritten as the collected history, the run's details and the marker. Whether
    the next run finds the history depends on that marker. */
module RunComments {
  import opened Strings
  import opened Formatter
  import opened RunHistory
  import opened GitlabClient

  datatype Run = Run(org: string, id: string, status: string)

  /** The statuses that have a comment; for any other both texts are empty. */
  const REPORTED := {"pending", "applying", "applied", "discarded", "errored", "planning", "planned",
                     "planned_and_finished", "policy_soft_failed", "policy_checked"}

  /** The statuses after which the old runs are collected. */
  const ENDED := {"errored", "canceled", "discarded", "planned_and_finished"}

  const APP_URL := "https://app.terraform.io/app/"
  const WORKSPACES := "/workspaces/"
  const RUNS := "/runs/"

  function RunUrl(workspace: string, run: Run): string {
    APP_URL + run.org + WORKSPACES + workspace + RUNS + run.id
  }

  const HEAD_TITLE := "\n### Terraform Cloud\n"
  const HEAD_FIELD := "**Workspace**: `"
  const HEAD_START := HEAD_TITLE + HEAD_FIELD
  const HEAD_MIDDLE := "`<br>\n**Command**: "
  const HEAD_END := " <br>\n"

  function DetailsHead(workspace: string, action: string): string {
    HEAD_START + workspace + HEAD_MIDDLE + action + HEAD_END
  }

  function DetailsStatus(run: Run): string {
    URL_RUN_STATUS_PREFIX + ("`" + run.status + "`") + URL_RUN_SUFFIX + "\n"
  }

  function RunLink(workspace: string, run: Run): string {
    "[" + run.id + "](" + RunUrl(workspace, run) + ") "
  }

  function DetailsUrl(workspace: string, run: Run): string {
    URL_RUN_PREFIX + RunLink(workspace, run) + URL_RUN_SUFFIX + "\n"
  }

  function RunDetails(workspace: string, action: string, run: Run): string {
    DetailsHead(workspace, action) + DetailsStatus(run) + DetailsUrl(workspace, run)
  }

  /** The top-level text of FormatRunStatusCommentBody. */
  function TopLevelBody(workspace: string, action: string, run: Run): string {
    if run.status in REPORTED then RunDetails(workspace, action, run) + "\n" + FormatMarker(workspace, action) else ""
  }

  /** Whose notes and which of them: the bot's, about one workspace and action. */
  datatype Scope = Scope(user: string, workspace: string, action: string)

  function Threads(k: Scope): Query {
    ThreadsOf(k.user, k.workspace, k.action)
  }

  /** One update of a run's root note: the threads found at that time and the run. */
  datatype Update = Update(discs: seq<Discussion>, run: Run)

  function OldBlock(k: Scope, u: Update): string {
    LastBlock(Threads(k), u.discs)
  }

  function NewRows(k: Scope, u: Update): seq<string> {
    Rows(Threads(k), u.discs)
  }

  function OldUrls(k: Scope, u: Update): string {
    if u.run.status in ENDED then HistoryBlock(OldBlock(k, u), NewRows(k, u)) else ""
  }

  /** The body the root note gets; nothing is posted when it is empty. */
  function UpdatedBody(k: Scope, u: Update): string {
    var top := TopLevelBody(k.workspace, k.action, u.run);
    if OldUrls(k, u) != "" then OldUrls(k, u) + "\n\n" + top else top
  }

  // ------------------------------------------------------------ recognition

  /** A thread counts exactly if the bot wrote its root and the first marker in it is
      the one of this workspace and action. */
  lemma RecognizedIff(k: Scope, disc: Discussion)
    ensures Ours(Threads(k), disc) <==>
            && disc.notes != [] && disc.notes[0].author == k.user && Markable(k.workspace, k.action)
            && exists pre, post :: CarriesMarker(disc.notes[0].body, k.workspace, k.action, pre, post)
  {
    if disc.notes != [] {
      ParseMarkerExact(disc.notes[0].body, k.workspace, k.action);
    }
  }

  lemma GroupLinesLack(c: char)
    requires c == '!' || c == '*'
    ensures c !in GROUP_LINES
  {
    GroupTitleLacks(c);
    GroupTableLacks(c);
  }

  lemma GroupTableLacks(c: char)
    requires c == '!' || c == '*'
    ensures c !in GROUP_HEADER && c !in GROUP_RULE
  {
  }

  lemma GroupTitleLacks(c: char)
    requires c == '!' || c == '*'
    ensures c !in GROUP_TITLE
  {
  }

  lemma MarkerPrefixChars()
    ensures '!' in MARKER_PREFIX && '\n' !in MARKER_PREFIX && '|' !in MARKER_PREFIX && MARKER_PREFIX != ""
  {
    assert MARKER_PREFIX[1] == '!';
  }

  lemma LabelChars()
    ensures '*' in URL_RUN_PREFIX && '\n' !in URL_RUN_PREFIX && '|' !in URL_RUN_PREFIX
    ensures '*' in URL_RUN_STATUS_PREFIX && '\n' !in URL_RUN_STATUS_PREFIX && '|' !in URL_RUN_STATUS_PREFIX
  {
    assert URL_RUN_PREFIX[0] == '*' && URL_RUN_STATUS_PREFIX[0] == '*';
  }

  lemma {:induction false} BlankIsSpaces(s: string)
    requires TrimSpace(s) == ""
    ensures forall i :: 0 <= i < |s| ==> IsSpace(s[i])
  {
    if s != "" {
      if IsSpace(s[0]) {
        BlankIsSpaces(s[1..]);
        assert s == [s[0]] + s[1..];
      } else {
        BlankIsSpaces(s[..|s| - 1]);
      }
    }
  }

  /** The history returned contains a delimiter that the enclosing tags have no part
      of exactly if the old block or one of the rows does. */
  lemma HistoryContainsIff(block: string, rows: seq<string>, p: string, c: char)
    requires forall i :: 0 <= i < |rows| ==> IsRow(rows[i])
    requires '\n' !in p && '|' !in p && c in p && (c == '!' || c == '*')
    ensures Contains(HistoryBlock(block, rows), p)
       <==> Contains(block, p) || exists i :: 0 <= i < |rows| && Contains(rows[i], p)
  {
    if rows != [] {
      WrappedContainsIff(ExtendedHistory(block, rows), block, rows, p, c);
    } else if TrimSpace(block) == "" {
      BlankIsSpaces(block);
      AbsentChar(block, p, c);
      AbsentChar("", p, c);
    }
  }

  lemma WrappedContainsIff(extended: string, block: string, rows: seq<string>, p: string, c: char)
    requires rows != [] && forall i :: 0 <= i < |rows| ==> IsRow(rows[i])
    requires '\n' !in p && '|' !in p && c in p && (c == '!' || c == '*')
    requires extended == ExtendedHistory(block, rows)
    ensures Contains(URL_RUN_GROUP_PREFIX + extended + URL_RUN_GROUP_SUFFIX, p)
       <==> Contains(block, p) || exists i :: 0 <= i < |rows| && Contains(rows[i], p)
  {
    ExtendedFree(block, rows, p);
    TagsAddNothing(extended, p, c);
  }

  /** The enclosing tags around lines of text bring in no delimiter. */
  lemma TagsAddNothing(extended: string, p: string, c: char)
    requires extended != "" && extended[|extended| - 1] == '\n'
    requires '\n' !in p && '|' !in p && c in p && (c == '!' || c == '*')
    ensures Contains(URL_RUN_GROUP_PREFIX + extended + URL_RUN_GROUP_SUFFIX, p) <==> Contains(extended, p)
  {
    GroupLinesLack(c);
    ClosingTagAddsNothing(extended, p, c);
    AbsentChar(GROUP_LINES, p, c);
    WallBlocks(GROUP_LINES, '|', extended + URL_RUN_GROUP_SUFFIX, p);
    assert URL_RUN_GROUP_PREFIX + extended + URL_RUN_GROUP_SUFFIX
        == GROUP_LINES + ['|'] + (extended + URL_RUN_GROUP_SUFFIX);
  }

  lemma ClosingTagAddsNothing(extended: string, p: string, c: char)
    requires extended != "" && extended[|extended| - 1] == '\n' && '\n' !in p && c in p && (c == '!' || c == '*')
    ensures Contains(extended + URL_RUN_GROUP_SUFFIX, p) <==> Contains(extended, p)
  {
    var body := extended[..|extended| - 1];
    assert extended == body + ['\n'];
    WallBlocks(body, '\n', URL_RUN_GROUP_SUFFIX, p);
    WallBlocks(body, '\n', "", p);
    assert body + ['\n'] + "" == extended;
    AbsentChar("", p, c);
    AbsentChar(URL_RUN_GROUP_SUFFIX, p, c);
  }

  /** For the marker prefix and for the two labels a row is read by: the tags of a
      history never make one. */
  lemma HistoryMarkerIff(block: string, rows: seq<string>)
    requires forall i :: 0 <= i < |rows| ==> IsRow(rows[i])
    ensures Contains(HistoryBlock(block, rows), MARKER_PREFIX)
       <==> Contains(block, MARKER_PREFIX) || exists i :: 0 <= i < |rows| && Contains(rows[i], MARKER_PREFIX)
  {
    MarkerPrefixChars();
    HistoryContainsIff(block, rows, MARKER_PREFIX, '!');
  }

  lemma HistoryLabelIff(block: string, rows: seq<string>, caption: string)
    requires forall i :: 0 <= i < |rows| ==> IsRow(rows[i])
    requires caption == URL_RUN_PREFIX || caption == URL_RUN_STATUS_PREFIX
    ensures Contains(HistoryBlock(block, rows), caption)
       <==> Contains(block, caption) || exists i :: 0 <= i < |rows| && Contains(rows[i], caption)
  {
    LabelChars();
    HistoryContainsIff(block, rows, caption, '*');
  }

  /** Text after a line break cannot complete a delimiter begun before it. */
  lemma NextLineFree(before: string, text: string, p: string)
    requires p != "" && '\n' !in p && !Contains(before, p) && !Contains(text, p)
    requires before == "" || before[|before| - 1] == '\n'
    ensures !Contains(before + text, p)
  {
    if before == "" {
      assert before + text == text;
    } else {
      var b := before[..|before| - 1];
      assert before == b + ['\n'] && before + text == b + ['\n'] + text;
      ContainsExtends(b, ['\n'], p);
      WallBlocks(b, '\n', text, p);
    }
  }

  /** Nothing but the marker itself brings the marker prefix into the updated body. */
  ghost predicate MarkerFree(k: Scope, u: Update) {
    && !Contains(OldBlock(k, u), MARKER_PREFIX)
    && (forall i :: 0 <= i < |NewRows(k, u)| ==> !Contains(NewRows(k, u)[i], MARKER_PREFIX))
    && !Contains(RunDetails(k.workspace, k.action, u.run), MARKER_PREFIX)
  }

  lemma OldUrlsFree(k: Scope, u: Update)
    requires MarkerFree(k, u)
    ensures !Contains(OldUrls(k, u), MARKER_PREFIX)
  {
    RowsAreRows(Threads(k), u.discs);
    HistoryMarkerIff(OldBlock(k, u), NewRows(k, u));
    AbsentHead("", MARKER_PREFIX);
  }

  lemma LinesFree(history: string, rest: string)
    requires !Contains(history, MARKER_PREFIX) && !Contains(rest, MARKER_PREFIX)
    ensures !Contains(history + "\n\n" + rest, MARKER_PREFIX) && !Contains(rest + "\n", MARKER_PREFIX)
  {
    MarkerPrefixChars();
    AbsentHead("", MARKER_PREFIX);
    WallBlocks("", '\n', rest, MARKER_PREFIX);
    assert "" + ['\n'] + rest == "\n" + rest;
    WallBlocks(history, '\n', "\n" + rest, MARKER_PREFIX);
    assert history + ['\n'] + ("\n" + rest) == history + "\n\n" + rest;
    WallBlocks(rest, '\n', "", MARKER_PREFIX);
    assert rest + ['\n'] + "" == rest + "\n";
  }

  lemma NoMarkerNoAnswer(body: string)
    requires !Contains(body, MARKER_PREFIX)
    ensures ParseMarker(body) == NotFound
  {
  }

  /** Text, then the marker: what is read back is the pair, exactly if markable. */
  lemma MarkerAtEnd(history: string, details: string, workspace: string, action: string)
    requires !Contains(history, MARKER_PREFIX) && !Contains(details, MARKER_PREFIX)
    ensures var top := details + "\n" + FormatMarker(workspace, action);
            && (ParseMarker(top) == Found(workspace, action) <==> Markable(workspace, action))
            && (ParseMarker(history + "\n\n" + top) == Found(workspace, action) <==> Markable(workspace, action))
  {
    var marker := FormatMarker(workspace, action);
    LinesFree(history, details);
    LinesFree(history, details + "\n");
    MarkerLast(details + "\n", workspace, action);
    MarkerLast(history + "\n\n" + (details + "\n"), workspace, action);
    assert history + "\n\n" + (details + "\n") + marker == history + "\n\n" + (details + "\n" + marker);
  }

  lemma MarkerLast(before: string, workspace: string, action: string)
    requires !Contains(before, MARKER_PREFIX)
    ensures ParseMarker(before + FormatMarker(workspace, action)) == Found(workspace, action)
            <==> Markable(workspace, action)
  {
    MarkerRoundTrip(before, workspace, action, "");
    assert before + FormatMarker(workspace, action) + "" == before + FormatMarker(workspace, action);
  }

  /** The updated note carries its marker exactly if the run's status is one of those
      reported; a canceled run's note carries none. */
  lemma UpdatedMarkerIff(k: Scope, u: Update)
    requires MarkerFree(k, u) && Markable(k.workspace, k.action)
    ensures ParseMarker(UpdatedBody(k, u)) ==
            (if u.run.status in REPORTED then Found(k.workspace, k.action) else NotFound)
  {
    OldUrlsFree(k, u);
    AbsentHead("", MARKER_PREFIX);
    if u.run.status in REPORTED {
      MarkerAtEnd(OldUrls(k, u), RunDetails(k.workspace, k.action, u.run), k.workspace, k.action);
    } else {
      LinesFree(OldUrls(k, u), "");
      NoMarkerNoAnswer(UpdatedBody(k, u));
    }
  }

  lemma FiveLack(a: string, b: string, c: string, d: string, e: string, ch: char)
    requires ch !in a && ch !in b && ch !in c && ch !in d && ch !in e
    ensures ch !in a + b + c + d + e
  {
  }

  /** The fixed text of the first two lines of the details has no such character. */
  predicate HeadTextLacks(ch: char) {
    ch !in HEAD_START && ch !in HEAD_MIDDLE && ch !in HEAD_END
  }

  predicate LineTextLacks(ch: char) {
    ch !in URL_RUN_STATUS_PREFIX && ch !in URL_RUN_PREFIX && ch !in URL_RUN_SUFFIX && ch !in "`\n[]() "
    && ch !in APP_URL && ch !in WORKSPACES && ch !in RUNS
  }

  lemma FixedTextLacks(ch: char)
    requires ch == '!' || ch == '|'
    ensures HeadTextLacks(ch) && LineTextLacks(ch)
  {
    HeadStartLacks(ch);
    LabelsLack(ch);
    AddressLacks(ch);
  }

  lemma HeadStartLacks(ch: char)
    requires ch == '!' || ch == '|' || ch == 'S' || ch == 'U'
    ensures HeadTextLacks(ch)
  {
    TitleLacks(ch);
    FieldLacks(ch);
  }

  lemma TitleLacks(ch: char)
    requires ch == '!' || ch == '|' || ch == 'S' || ch == 'U'
    ensures ch !in HEAD_TITLE
  {
  }

  lemma FieldLacks(ch: char)
    requires ch == '!' || ch == '|' || ch == 'S' || ch == 'U'
    ensures ch !in HEAD_FIELD && ch !in HEAD_MIDDLE && ch !in HEAD_END
  {
  }

  lemma LabelsLack(ch: char)
    requires ch == '!' || ch == '|'
    ensures ch !in URL_RUN_STATUS_PREFIX && ch !in URL_RUN_PREFIX && ch !in URL_RUN_SUFFIX && ch !in "`\n[]() "
  {
  }

  lemma AddressLacks(ch: char)
    requires ch == '!' || ch == '|'
    ensures ch !in APP_URL && ch !in WORKSPACES && ch !in RUNS
  {
  }

  lemma HeadLacks(workspace: string, action: string, ch: char)
    requires HeadTextLacks(ch) && ch !in workspace && ch !in action
    ensures ch !in DetailsHead(workspace, action)
  {
    FiveLack(HEAD_START, workspace, HEAD_MIDDLE, action, HEAD_END, ch);
  }

  lemma StatusLacks(run: Run, ch: char)
    requires ch !in URL_RUN_STATUS_PREFIX && ch !in URL_RUN_SUFFIX && ch != '`' && ch != '\n' && ch !in run.status
    ensures ch !in DetailsStatus(run)
  {
    FiveLack(URL_RUN_STATUS_PREFIX, "`" + run.status + "`", URL_RUN_SUFFIX, "\n", "", ch);
  }

  lemma LinkLacks(workspace: string, run: Run, ch: char)
    requires LineTextLacks(ch) && ch !in workspace && ch !in run.org && ch !in run.id
    ensures ch !in RunLink(workspace, run)
  {
    FiveLack(APP_URL, run.org, WORKSPACES, workspace, RUNS, ch);
    assert ch !in RunUrl(workspace, run);
    FiveLack("[", run.id, "](", RunUrl(workspace, run), ") ", ch);
  }

  lemma UrlLacks(workspace: string, run: Run, ch: char)
    requires LineTextLacks(ch) && ch !in workspace && ch !in run.org && ch !in run.id
    ensures ch !in DetailsUrl(workspace, run)
  {
    LinkLacks(workspace, run, ch);
    FiveLack(URL_RUN_PREFIX, RunLink(workspace, run), URL_RUN_SUFFIX, "\n", "", ch);
  }

  lemma DetailsLack(workspace: string, action: string, run: Run, ch: char)
    requires ch == '!' || ch == '|'
    requires ch !in workspace && ch !in action && ch !in run.org && ch !in run.id && ch !in run.status
    ensures ch !in RunDetails(workspace, action, run)
  {
    FixedTextLacks(ch);
    HeadLacks(workspace, action, ch);
    StatusLacks(run, ch);
    UrlLacks(workspace, run, ch);
  }

  /** Names and identifiers without an exclamation mark keep the details free. */
  lemma PlainDetailsFree(workspace: string, action: string, run: Run)
    requires '!' !in workspace && '!' !in action && '!' !in run.org && '!' !in run.id && '!' !in run.status
    ensures !Contains(RunDetails(workspace, action, run), MARKER_PREFIX)
  {
    MarkerPrefixChars();
    DetailsLack(workspace, action, run, '!');
    AbsentChar(RunDetails(workspace, action, run), MARKER_PREFIX, '!');
  }

  // ------------------------------------------------------------------- rows

  /** A text of the form **...**: has no border. */
  lemma BoldLabelUnbordered(p: string)
    requires |p| > 6 && p[0] == '*' && p[1] == '*' && p[2] != '*' && p[2] != ':'
             && p[|p| - 1] == ' ' && p[|p| - 2] == ':'
    requires p[|p| - 3] == '*' && p[|p| - 4] == '*' && forall i :: 2 <= i < |p| - 4 ==> p[i] != '*'
    ensures Unbordered(p)
  {
    forall k: nat | 0 < k < |p|
      ensures p[..k] != p[|p| - k..]
    {
      var j := |p| - k;
      assert p[..k][0] == p[0] && p[j..][0] == p[j];
      assert k > 1 ==> p[..k][1] == p[1] && p[j..][1] == p[j + 1];
      assert k > 2 ==> p[..k][2] == p[2] && p[j..][2] == p[j + 2];
    }
  }

  lemma LabelsUnbordered()
    ensures Unbordered(URL_RUN_PREFIX) && Unbordered(URL_RUN_STATUS_PREFIX) && Unbordered(URL_RUN_SUFFIX)
  {
    BoldLabelUnbordered(URL_RUN_PREFIX);
    BoldLabelUnbordered(URL_RUN_STATUS_PREFIX);
    UniqueHeadUnbordered(URL_RUN_SUFFIX);
  }

  /** A labelled value is captured as printed if its label is the first of its kind
      and the value has no line break tag. */
  lemma LabelledValue(pre: string, caption: string, value: string, post: string)
    requires caption != "" && Unbordered(caption) && !Contains(pre, caption) && '<' !in value
    ensures CaptureSubstring(pre + caption + value + URL_RUN_SUFFIX + post, caption, URL_RUN_SUFFIX) == value
  {
    var rest := value + URL_RUN_SUFFIX + post;
    var body := pre + caption + value + URL_RUN_SUFFIX + post;
    assert body == pre + caption + rest;
    FirstIndexAfter(pre, caption, rest);
    assert body[|pre| + |caption|..] == rest;
    LabelsUnbordered();
    AbsentHead(value, URL_RUN_SUFFIX);
    CaptureRoundTrip(body, caption, value, URL_RUN_SUFFIX, post);
  }

  /** Names that keep the details of a run readable. */
  ghost predicate Readable(workspace: string, action: string, run: Run) {
    && run.id != "" && ']' !in run.id && '<' !in run.id && '<' !in run.org && '<' !in workspace && '<' !in run.status
    && !Contains(DetailsHead(workspace, action), URL_RUN_STATUS_PREFIX)
    && !Contains(DetailsHead(workspace, action) + DetailsStatus(run), URL_RUN_PREFIX)
  }

  lemma BracketedId(id: string, url: string)
    requires ']' !in id
    ensures CaptureSubstring("[" + id + "](" + url + ") ", "[", "]") == id
  {
    assert Unbordered("]");
    AbsentHead(id, "]");
    FrontCapture("[", id, "]", "(" + url + ") ");
    assert "[" + id + "](" + url + ") " == "[" + id + "]" + ("(" + url + ") ");
  }

  lemma UrlHasNoTag(workspace: string, run: Run)
    requires '<' !in run.id && '<' !in run.org && '<' !in workspace
    ensures '<' !in RunLink(workspace, run)
  {
    assert '<' !in APP_URL;
    assert '<' !in WORKSPACES;
    assert '<' !in RunUrl(workspace, run);
  }

  /** The row the next update reads back from a run's note. */
  function RowText(run: Run, createdAt: string, status: string -> string): string {
    "|[" + LastSegment(run.id) + "](" + run.id + ")|" + status("`" + run.status + "`") + "|" + createdAt + "|"
  }

  /** Text in front of the details that hides neither label. */
  ghost predicate LabelFree(before: string) {
    && !Contains(before, URL_RUN_PREFIX) && !Contains(before, URL_RUN_STATUS_PREFIX)
    && (before == "" || before[|before| - 1] == '\n')
  }

  /** A note with a run's details is read back as one row, whatever history stands in
      front of them, as long as that has no label of its own. The row links to the
      run's identifier and not to its address: what stands between the brackets is
      taken for the address. */
  lemma RowOfDetails(before: string, workspace: string, action: string, run: Run, tail: string, createdAt: string,
                     status: string -> string)
    requires LabelFree(before) && Readable(workspace, action, run)
    ensures RunRow(before + RunDetails(workspace, action, run) + tail, createdAt, status)
         == Some(RowText(run, createdAt, status))
  {
    UrlCaptured(before, workspace, action, run, tail);
    StatusCaptured(before, workspace, action, run, tail);
    BracketedId(run.id, RunUrl(workspace, run));
  }

  lemma UrlCaptured(before: string, workspace: string, action: string, run: Run, tail: string)
    requires LabelFree(before) && Readable(workspace, action, run)
    ensures CaptureSubstring(before + RunDetails(workspace, action, run) + tail, URL_RUN_PREFIX, URL_RUN_SUFFIX)
         == RunLink(workspace, run)
  {
    var text, url := DetailsHead(workspace, action) + DetailsStatus(run), DetailsUrl(workspace, run);
    LabelsUnbordered();
    LabelChars();
    UrlHasNoTag(workspace, run);
    NextLineFree(before, text, URL_RUN_PREFIX);
    CapturedLine(before + text, URL_RUN_PREFIX, RunLink(workspace, run), tail);
    JoinsUp(before, text, url, tail);
  }

  lemma JoinsUp(a: string, b: string, c: string, d: string)
    ensures a + b + c + d == a + (b + c) + d && a + b + c + d == a + b + (c + d)
  {
  }

  /** The value of one line of the details, whatever follows. */
  lemma CapturedLine(before: string, caption: string, value: string, tail: string)
    requires caption != "" && Unbordered(caption) && !Contains(before, caption) && '<' !in value
    ensures CaptureSubstring(before + (caption + value + URL_RUN_SUFFIX + "\n") + tail, caption, URL_RUN_SUFFIX)
            == value
  {
    LabelledValue(before, caption, value, "\n" + tail);
    assert before + (caption + value + URL_RUN_SUFFIX + "\n") + tail
        == before + caption + value + URL_RUN_SUFFIX + ("\n" + tail);
  }

  lemma StatusCaptured(before: string, workspace: string, action: string, run: Run, tail: string)
    requires LabelFree(before) && Readable(workspace, action, run)
    ensures CaptureSubstring(before + RunDetails(workspace, action, run) + tail, URL_RUN_STATUS_PREFIX, URL_RUN_SUFFIX)
         == "`" + run.status + "`"
  {
    var head, status, url := DetailsHead(workspace, action), DetailsStatus(run), DetailsUrl(workspace, run);
    LabelsUnbordered();
    LabelChars();
    NextLineFree(before, head, URL_RUN_STATUS_PREFIX);
    CapturedLine(before + head, URL_RUN_STATUS_PREFIX, "`" + run.status + "`", url + tail);
    JoinsUp(before + head, status, url, tail);
    JoinsUp(before, head, status + url, tail);
    assert head + status + url == head + (status + url);
    assert before + head + (status + url) + tail == before + (head + (status + url)) + tail;
    assert before + head + status + (url + tail) == before + head + (status + url) + tail;
  }
}
