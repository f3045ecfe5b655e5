/** The collapsed table of previous run URLs that both VCS clients maintain at
    the top of a status comment: one row per earlier run, read back from the
    comment and extended every time a run ends. */
module RunHistory {
  import opened Strings
  import opened Formatter

  /** Last part of strings.Split(raw, "/"). */
  function LastSegment(raw: string): string {
    var parts := Split(raw, '/');
    parts[|parts| - 1]
  }

  /** The table row of a comment, if it carries a run URL and a status. */
  function RunRow(body: string, createdAt: string, status: string -> string): Option<string> {
    var runUrl := CaptureSubstring(body, URL_RUN_PREFIX, URL_RUN_SUFFIX);
    var runUrlRaw := CaptureSubstring(runUrl, "[", "]");
    var runStatus := CaptureSubstring(body, URL_RUN_STATUS_PREFIX, URL_RUN_SUFFIX);
    if runUrl == "" || runStatus == "" then None
    else Some("|[" + LastSegment(runUrlRaw) + "](" + runUrlRaw + ")|" + status(runStatus) + "|" + createdAt + "|")
  }

  /** The body shows the address and the status of a run. */
  ghost predicate HasRun(body: string) {
    && CaptureSubstring(body, URL_RUN_PREFIX, URL_RUN_SUFFIX) != ""
    && CaptureSubstring(body, URL_RUN_STATUS_PREFIX, URL_RUN_SUFFIX) != ""
  }

  /** The row links from the last segment of what stands between the first brackets of
      the address to all of that, and shows the status and the time. */
  ghost predicate ShowsRun(row: string, body: string, createdAt: string, status: string -> string) {
    var link := CaptureSubstring(CaptureSubstring(body, URL_RUN_PREFIX, URL_RUN_SUFFIX), "[", "]");
    var shown := status(CaptureSubstring(body, URL_RUN_STATUS_PREFIX, URL_RUN_SUFFIX));
    row == "|[" + LastSegment(link) + "](" + link + ")|" + shown + "|" + createdAt + "|"
  }

  lemma RunRowIff(body: string, createdAt: string, status: string -> string)
    ensures RunRow(body, createdAt, status).Some? <==> HasRun(body)
    ensures HasRun(body) ==> ShowsRun(RunRow(body, createdAt, status).value, body, createdAt, status)
  {
  }

  /** The last segment is what follows the last slash, all of the text without one. */
  lemma LastSegmentIs(raw: string)
    ensures EndsIn(raw, LastSegment(raw), '/')
  {
    SplitEnds(raw, '/');
  }

  lemma {:induction false} SplitEnds(s: string, c: char)
    ensures EndsIn(s, Split(s, c)[|Split(s, c)| - 1], c)
    ensures |Split(s, c)| == 1 ==> Split(s, c)[0] == s
  {
    if s != "" {
      var rest := Split(s[1..], c);
      SplitEnds(s[1..], c);
      SplitStep(s, c);
      if s[0] != c && |rest| == 1 {
        assert [s[0]] + rest[0] == s;
      } else {
        LastIsShort(s[1..], c);
        EndsInTail(s, rest[|rest| - 1], c);
      }
    }
  }

  lemma LastIsShort(s: string, c: char)
    ensures |Split(s, c)| > 1 && c !in Split(s, c)[|Split(s, c)| - 1] ==> Split(s, c)[|Split(s, c)| - 1] != s
  {
    if c !in s {
      SplitWhole(s, c);
    }
  }

  /** last is free of c and ends s, after a c unless it is all of s. */
  ghost predicate EndsIn(s: string, last: string, c: char) {
    c !in last && HasSuffix(s, last) && (last == s || s[|s| - |last| - 1] == c)
  }

  lemma EndsInTail(s: string, last: string, c: char)
    requires s != "" && EndsIn(s[1..], last, c) && (last == s[1..] ==> s[0] == c)
    ensures EndsIn(s, last, c)
  {
    assert s == [s[0]] + s[1..];
  }

  lemma SplitStep(s: string, c: char)
    requires s != ""
    ensures var rest := Split(s[1..], c);
            Split(s, c) == if s[0] == c then [""] + rest else [[s[0]] + rest[0]] + rest[1..]
  {
  }

  /** The history a comment carries, "" if none. */
  function CapturedBlock(body: string): string {
    CaptureSubstring(body, URL_RUN_GROUP_PREFIX, URL_RUN_GROUP_SUFFIX)
  }

  /** The history after rows are added to block. */
  function ExtendedHistory(block: string, rows: seq<string>): string {
    (if block == "" then "\n" else block) + Join(rows, "\n") + "\n"
  }

  /** What GetOldRunUrls returns for the block and rows it collected. */
  function HistoryBlock(block: string, rows: seq<string>): string {
    if rows != [] then URL_RUN_GROUP_PREFIX + ExtendedHistory(block, rows) + URL_RUN_GROUP_SUFFIX
    else if TrimSpace(block) == "" then ""
    else block
  }

  /** The end of both GetOldRunUrls: wrap what was collected. */
  method CollectedBlock(block: string, oldRunUrls: seq<string>) returns (r: string)
    ensures r == HistoryBlock(block, oldRunUrls)
  {
    var oldRunBlock := block;
    if |oldRunUrls| > 0 {
      if oldRunBlock == "" {
        oldRunBlock := "\n";
      }
      var oldRunURLs := Join(oldRunUrls, "\n");
      return URL_RUN_GROUP_PREFIX + (oldRunBlock + oldRunURLs + "\n") + URL_RUN_GROUP_SUFFIX;
    }
    if TrimSpace(oldRunBlock) == "" {
      return "";
    }
    return oldRunBlock;
  }

  predicate IsRow(row: string) {
    row != "" && row[0] == '|'
  }

  lemma {:induction false} JoinFree(rows: seq<string>, p: string)
    requires p != "" && '\n' !in p
    ensures Contains(Join(rows, "\n"), p) <==> exists i :: 0 <= i < |rows| && Contains(rows[i], p)
  {
    if |rows| == 0 {
      AbsentHead("", p);
    } else if |rows| > 1 {
      JoinFree(rows[1..], p);
      assert Join(rows, "\n") == rows[0] + ['\n'] + Join(rows[1..], "\n");
      WallBlocks(rows[0], '\n', Join(rows[1..], "\n"), p);
      if i :| 0 <= i < |rows[1..]| && Contains(rows[1..][i], p) {
        assert Contains(rows[i + 1], p);
      }
      if i :| 0 <= i < |rows| && Contains(rows[i], p) {
        assert i > 0 ==> Contains(rows[1..][i - 1], p);
      }
    }
  }

  /** A seam marked by a character p does not use separates occurrences of p. */
  lemma SeamFree(s: string, t: string, p: string)
    requires p != "" && t != "" && t[0] !in p
    ensures Contains(s + t, p) <==> Contains(s, p) || Contains(t, p)
  {
    assert s + t == s + [t[0]] + t[1..];
    WallBlocks(s, t[0], t[1..], p);
    assert t == "" + [t[0]] + t[1..];
    WallBlocks("", t[0], t[1..], p);
    AbsentHead("", p);
  }

  lemma {:induction false} JoinStartsRow(rows: seq<string>)
    requires rows != [] && IsRow(rows[0])
    ensures IsRow(Join(rows, "\n"))
  {
  }

  /** The history contains a delimiter exactly if some row, or the old block, does:
      no combination of clean parts produces it. */
  lemma ExtendedFree(block: string, rows: seq<string>, p: string)
    requires rows != [] && forall i :: 0 <= i < |rows| ==> IsRow(rows[i])
    requires p != "" && '\n' !in p && '|' !in p
    ensures Contains(ExtendedHistory(block, rows), p)
       <==> Contains(block, p) || exists i :: 0 <= i < |rows| && Contains(rows[i], p)
  {
    var start := if block == "" then "\n" else block;
    var joined := Join(rows, "\n");
    JoinFree(rows, p);
    JoinStartsRow(rows);
    SeamFree(start, joined, p);
    SeamFree(start + joined, "\n", p);
    AbsentHead("\n", p);
    AbsentHead("", p);
  }

  lemma {:induction false} SplitAtSeparator(s: string, t: string, c: char)
    ensures Split(s + [c] + t, c) == Split(s, c) + Split(t, c)
  {
    var all := s + [c] + t;
    SplitStep(all, c);
    if s == "" {
      assert all[1..] == t;
    } else {
      assert all[1..] == s[1..] + [c] + t;
      SplitAtSeparator(s[1..], t, c);
      SplitStep(s, c);
    }
  }

  lemma {:induction false} SplitWhole(s: string, c: char)
    requires c !in s
    ensures Split(s, c) == [s]
  {
    if s != "" {
      SplitWhole(s[1..], c);
      SplitStep(s, c);
      assert [s[0]] + s[1..] == s;
    }
  }

  lemma {:induction false} JoinedLines(rows: seq<string>)
    requires rows != [] && forall i :: 0 <= i < |rows| ==> '\n' !in rows[i]
    ensures Split(Join(rows, "\n") + "\n", '\n') == rows + [""]
  {
    var rest := if |rows| == 1 then "" else Join(rows[1..], "\n") + "\n";
    assert Join(rows, "\n") + "\n" == rows[0] + ['\n'] + rest;
    SplitAtSeparator(rows[0], rest, '\n');
    SplitWhole(rows[0], '\n');
    if |rows| > 1 {
      JoinedLines(rows[1..]);
      assert [rows[0]] + (rows[1..] + [""]) == rows + [""];
    } else {
      assert [rows[0]] + [""] == rows + [""];
    }
  }

  /** The extended history has the lines of the old one, then one line for each row, in
      order; a history starts with an empty line. */
  lemma HistoryLines(block: string, rows: seq<string>)
    requires rows != [] && forall i :: 0 <= i < |rows| ==> '\n' !in rows[i]
    requires block == "" || block[|block| - 1] == '\n'
    ensures Split(ExtendedHistory(block, rows), '\n') == LinesOf(block) + rows + [""]
  {
    var start := if block == "" then "\n" else block;
    var s := start[..|start| - 1];
    assert start == s + ['\n'];
    LinesAfter(s, rows);
    SplitAtSeparator(s, "", '\n');
    assert s + ['\n'] + "" == start;
    ExtendedParts(s, block, rows);
  }

  /** The lines of a history that ends with a line break; the empty one has one. */
  function LinesOf(block: string): seq<string> {
    var parts := Split(block, '\n');
    if block == "" then [""] else parts[..|parts| - 1]
  }

  lemma ExtendedParts(s: string, block: string, rows: seq<string>)
    requires s + ['\n'] == if block == "" then "\n" else block
    ensures ExtendedHistory(block, rows) == s + ['\n'] + (Join(rows, "\n") + "\n")
  {
  }

  lemma LinesAfter(s: string, rows: seq<string>)
    requires rows != [] && forall i :: 0 <= i < |rows| ==> '\n' !in rows[i]
    ensures Split(s + ['\n'] + (Join(rows, "\n") + "\n"), '\n') == Split(s, '\n') + rows + [""]
  {
    JoinedLines(rows);
    SplitAtSeparator(s, Join(rows, "\n") + "\n", '\n');
  }

  lemma BlockCarries(history: string, rest: string)
    ensures CapturedBlock(URL_RUN_GROUP_PREFIX + history + URL_RUN_GROUP_SUFFIX + rest) == history
       <==> !Contains(history, URL_RUN_GROUP_SUFFIX)
  {
    DelimitersUnbordered();
    FrontCapture(URL_RUN_GROUP_PREFIX, history, URL_RUN_GROUP_SUFFIX, rest);
  }

  /** History round trip: a returned block at the front of any comment is read
      back as the old history followed by the new rows exactly if no row contains
      the closing tag. */
  lemma HistoryRoundTrip(block: string, rows: seq<string>, rest: string)
    requires rows != [] && forall i :: 0 <= i < |rows| ==> IsRow(rows[i])
    requires !Contains(block, URL_RUN_GROUP_SUFFIX)
    ensures CapturedBlock(HistoryBlock(block, rows) + rest) == ExtendedHistory(block, rows)
       <==> forall i :: 0 <= i < |rows| ==> !Contains(rows[i], URL_RUN_GROUP_SUFFIX)
    ensures block <= ExtendedHistory(block, rows) && ExtendedHistory(block, rows) != ""
  {
    assert '\n' !in URL_RUN_GROUP_SUFFIX && '|' !in URL_RUN_GROUP_SUFFIX;
    ExtendedFree(block, rows, URL_RUN_GROUP_SUFFIX);
    BlockCarries(ExtendedHistory(block, rows), rest);
  }

  /** A captured block never contains the closing tag. */
  lemma CapturedIsClosed(body: string)
    ensures !Contains(CapturedBlock(body), URL_RUN_GROUP_SUFFIX)
  {
    CaptureSound(body, URL_RUN_GROUP_PREFIX, URL_RUN_GROUP_SUFFIX);
  }

  /** Without a new row the old block is returned bare, so a comment that starts
      with it carries no history any more: what was kept is kept exactly if there
      is a row to add. */
  lemma HistoryKeptIffRows(block: string, rows: seq<string>, rest: string)
    requires block != "" && !Contains(block, URL_RUN_GROUP_SUFFIX)
    requires forall i :: 0 <= i < |rows| ==> IsRow(rows[i]) && !Contains(rows[i], URL_RUN_GROUP_SUFFIX)
    requires !Contains(block + rest, URL_RUN_GROUP_PREFIX) && !Contains(rest, URL_RUN_GROUP_PREFIX)
    ensures block <= CapturedBlock(HistoryBlock(block, rows) + rest) <==> rows != []
  {
    if rows != [] {
      HistoryRoundTrip(block, rows, rest);
    } else {
      assert "" + rest == rest;
      assert CapturedBlock(HistoryBlock(block, rows) + rest) == "";
    }
  }
}
