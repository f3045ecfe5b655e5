/** pkg/utils/formatter.go: the hidden marker that tags a bot note with its
    workspace and action, and the delimiter capture used to read notes back. */
module Formatter {
  import opened Strings

  const URL_RUN_PREFIX := "**Run URL**: "
  const URL_RUN_SUFFIX := "<br>"
  const GROUP_TITLE := "<details><summary>\n\n" + "### Previous TFC Urls:\n\n" + "</summary>\n\n"
  const GROUP_HEADER := "| Run ID | Status | Created at |\n"
  const GROUP_RULE := "| ------ | ------ | ---------- "
  const GROUP_LINES := GROUP_TITLE + GROUP_HEADER + GROUP_RULE
  const URL_RUN_GROUP_PREFIX := GROUP_LINES + "|"
  const URL_RUN_GROUP_SUFFIX := "</details>"
  const URL_RUN_STATUS_PREFIX := "**Status**: "
  const MARKER_PREFIX := "<!-- tfbuddy:ws="
  const MARKER_SUFFIX := " -->"
  const ACTION_SEPARATOR := ":action="

  datatype Marker = NotFound | Found(workspace: string, action: string)

  function FormatMarker(workspace: string, action: string): string {
    MARKER_PREFIX + workspace + ACTION_SEPARATOR + action + MARKER_SUFFIX
  }

  /** The text between the first prefix and the first suffix after it, or "". */
  function CaptureSubstring(body: string, prefix: string, suffix: string): string {
    var startIndex := Index(body, prefix);
    if startIndex == -1 then ""
    else
      var subBody := body[startIndex + |prefix|..];
      var endIndex := Index(subBody, suffix);
      if endIndex == -1 then "" else subBody[..endIndex]
  }

  /** strings.SplitN(raw, ":action=", 2) and the checks on its parts. */
  function SplitPayload(raw: string): Marker {
    var cut := Index(raw, ACTION_SEPARATOR);
    if cut == -1 then NotFound
    else
      var workspace, action := raw[..cut], raw[cut + |ACTION_SEPARATOR|..];
      if workspace == "" || action == "" then NotFound else Found(workspace, action)
  }

  function ParseMarker(body: string): Marker {
    var raw := CaptureSubstring(body, MARKER_PREFIX, MARKER_SUFFIX);
    if raw == "" then NotFound else SplitPayload(raw)
  }

  function FormatStatus(status: string): string {
    var bare := TrimTicks(status);
    if GoodStatus(bare).Some? then GoodStatus(bare).value
    else if BadStatus(bare).Some? then BadStatus(bare).value
    else "`" + bare + "`"
  }

  function GoodStatus(bare: string): Option<string> {
    match bare
    case "applied" => Some("\U{2705} Applied")
    case "planned" => Some("\U{1F4DD} Planned")
    case "policy_checked" => Some("\U{1F4DD} Policy Checked")
    case "policy_soft_failed" => Some("\U{1F4DD} Policy Soft Failed")
    case "planned_and_finished" => Some("\U{1F4DD} Planned and Finished")
    case _ => None
  }

  function BadStatus(bare: string): Option<string> {
    match bare
    case "errored" => Some("\U{274C} Errored")
    case "canceled" => Some("\U{274C} Canceled")
    case "discarded" => Some("\U{274C} Discarded")
    case _ => None
  }

  function TrimTicks(s: string): string {
    if s != "" && s[0] == '`' then TrimTicks(s[1..]) else TrimRight(s, '`')
  }

  // ---------------------------------------------------------------- statuses

  lemma TicksTrimmed(s: string)
    requires '`' !in s
    ensures TrimTicks("`" + s + "`") == s
  {
    assert ("`" + s + "`")[1..] == s + "`";
    assert TrimRight(s + "`", '`') == s by {
      assert (s + "`")[..|s|] == s;
    }
    if s == "" {
      assert TrimTicks("`") == TrimTicks("`"[1..]) == "";
    }
  }

  /** A status is shown with the sign of success exactly if the run was applied, of
      failure exactly if it was errored, canceled or discarded, of a plan exactly if a
      plan is what it ended with, and otherwise as it is. */
  lemma StatusSigns(s: string)
    requires '`' !in s
    ensures var shown := FormatStatus("`" + s + "`");
            && shown != ""
            && (shown[0] == '\U{2705}' <==> s == "applied")
            && (shown[0] == '\U{274C}' <==> s in {"errored", "canceled", "discarded"})
            && (shown[0] == '\U{1F4DD}' <==>
                s in {"planned", "policy_checked", "policy_soft_failed", "planned_and_finished"})
            && (shown[0] == '`' ==> shown == "`" + s + "`")
  {
    TicksTrimmed(s);
    GoodSigns(s);
    BadSigns(s);
  }

  lemma GoodSigns(s: string)
    ensures match GoodStatus(s)
            case None => s !in {"applied", "planned", "policy_checked", "policy_soft_failed", "planned_and_finished"}
            case Some(shown) =>
              && shown != "" && shown[0] == (if s == "applied" then '\U{2705}' else '\U{1F4DD}')
              && s in {"applied", "planned", "policy_checked", "policy_soft_failed", "planned_and_finished"}
  {
  }

  lemma BadSigns(s: string)
    ensures match BadStatus(s)
            case None => s !in {"errored", "canceled", "discarded"}
            case Some(shown) => shown != "" && shown[0] == '\U{274C}' && s in {"errored", "canceled", "discarded"}
  {
  }

  // ----------------------------------------------------------------- capture

  lemma DelimitersUnbordered()
    ensures Unbordered(MARKER_PREFIX) && Unbordered(MARKER_SUFFIX) && Unbordered(ACTION_SEPARATOR)
    ensures Unbordered(URL_RUN_GROUP_SUFFIX)
  {
    UniqueHeadUnbordered(MARKER_PREFIX);
    UniqueHeadUnbordered(MARKER_SUFFIX);
    UniqueHeadUnbordered(ACTION_SEPARATOR);
    UniqueHeadUnbordered(URL_RUN_GROUP_SUFFIX);
  }

  /** Printing payload between delimiters and capturing gives it back exactly
      when the payload does not contain the closing delimiter. */
  lemma CaptureRoundTrip(body: string, prefix: string, payload: string, suffix: string, post: string)
    requires suffix != "" && Unbordered(suffix)
    requires Contains(body, prefix) && body[Index(body, prefix) + |prefix|..] == payload + suffix + post
    ensures CaptureSubstring(body, prefix, suffix) == payload <==> !Contains(payload, suffix)
    ensures |CaptureSubstring(body, prefix, suffix)| <= |payload|
  {
    FirstIndexAfter(payload, suffix, post);
    var subBody := payload + suffix + post;
    assert OccursAt(subBody, suffix, |payload|);
    assert subBody[..|payload|] == payload;
  }

  /** The same for a text that starts with the opening delimiter, which needs no
      property of its own then. */
  lemma FrontCapture(prefix: string, payload: string, suffix: string, post: string)
    requires suffix != "" && Unbordered(suffix)
    ensures CaptureSubstring(prefix + payload + suffix + post, prefix, suffix) == payload <==>
            !Contains(payload, suffix)
  {
    var body := prefix + payload + suffix + post;
    assert body[..|prefix|] == prefix;
    assert OccursAt(body, prefix, 0);
    FirstIndexIs(body, prefix, 0);
    assert body[|prefix|..] == payload + suffix + post;
    CaptureRoundTrip(body, prefix, payload, suffix, post);
  }

  /** Where a capture sits in the text it came from. */
  ghost predicate CapturedAt(body: string, prefix: string, c: string, suffix: string, i: nat) {
    && OccursAt(body, prefix, i)
    && OccursAt(body, c, i + |prefix|)
    && OccursAt(body, suffix, i + |prefix| + |c|)
  }

  /** What was captured never contains the closing delimiter, and sits in the
      text between the first prefix and a suffix. */
  lemma CaptureSound(body: string, prefix: string, suffix: string)
    requires suffix != ""
    ensures !Contains(CaptureSubstring(body, prefix, suffix), suffix)
    ensures CaptureSubstring(body, prefix, suffix) != "" ==>
              Contains(body, prefix)
              && CapturedAt(body, prefix, CaptureSubstring(body, prefix, suffix), suffix, Index(body, prefix))
  {
    var i := Index(body, prefix);
    if i == -1 || Index(body[i + |prefix|..], suffix) == -1 {
      AbsentHead("", suffix);
    } else {
      CapturedAtPrefix(body, prefix, suffix, i);
    }
  }

  lemma CapturedAtPrefix(body: string, prefix: string, suffix: string, i: nat)
    requires suffix != "" && OccursAt(body, prefix, i) && Contains(body[i + |prefix|..], suffix)
    ensures var c := body[i + |prefix|..][..Index(body[i + |prefix|..], suffix)];
            !Contains(c, suffix) && CapturedAt(body, prefix, c, suffix, i)
  {
    var subBody := body[i + |prefix|..];
    var e := Index(subBody, suffix);
    BeforeFirstIndex(subBody, suffix);
    OccurrenceShifts(body, i + |prefix|, suffix, e);
    OccurrenceShifts(body, i + |prefix|, subBody[..e], 0);
  }

  lemma OccurrenceShifts(s: string, from: nat, p: string, i: nat)
    requires from <= |s| && OccursAt(s[from..], p, i)
    ensures OccursAt(s, p, from + i)
  {
    assert s[from..][i..i + |p|] == s[from + i..from + i + |p|];
  }

  // ------------------------------------------------------------------ marker

  /** What a workspace/action pair must satisfy to survive the marker. */
  ghost predicate Markable(workspace: string, action: string) {
    && workspace != "" && action != ""
    && !Contains(workspace, MARKER_SUFFIX) && !Contains(action, MARKER_SUFFIX)
    && !Contains(workspace, ACTION_SEPARATOR)
  }

  function Payload(workspace: string, action: string): string {
    workspace + ACTION_SEPARATOR + action
  }

  lemma PayloadFreeOfSuffix(workspace: string, action: string)
    ensures Contains(Payload(workspace, action), MARKER_SUFFIX)
       <==> Contains(workspace, MARKER_SUFFIX) || Contains(action, MARKER_SUFFIX)
  {
    var tail := "action=" + action;
    assert Payload(workspace, action) == workspace + [':'] + tail;
    WallBlocks(workspace, ':', tail, MARKER_SUFFIX);
    assert tail == "action" + ['='] + action;
    WallBlocks("action", '=', action, MARKER_SUFFIX);
    AbsentHead("action", MARKER_SUFFIX);
  }

  /** Reading a payload back: the pair comes out as it went in exactly when both
      halves are non-empty and the workspace has no separator of its own. */
  lemma PayloadSplits(workspace: string, action: string)
    ensures Contains(Payload(workspace, action), ACTION_SEPARATOR)
    ensures SplitPayload(Payload(workspace, action)) == Found(workspace, action)
       <==> workspace != "" && action != "" && !Contains(workspace, ACTION_SEPARATOR)
  {
    DelimitersUnbordered();
    FirstIndexAfter(workspace, ACTION_SEPARATOR, action);
    var raw, cut := Payload(workspace, action), |workspace|;
    assert OccursAt(raw, ACTION_SEPARATOR, cut);
    assert raw[..cut] == workspace && raw[cut + |ACTION_SEPARATOR|..] == action;
  }

  lemma SplitPayloadSound(raw: string, workspace: string, action: string)
    requires SplitPayload(raw) == Found(workspace, action)
    ensures raw == Payload(workspace, action)
  {
  }

  /** A marker printed anywhere after text free of the marker prefix is read
      back as printed if and only if the pair is markable. */
  lemma MarkerRoundTrip(pre: string, workspace: string, action: string, post: string)
    requires !Contains(pre, MARKER_PREFIX)
    ensures ParseMarker(pre + FormatMarker(workspace, action) + post) == Found(workspace, action)
       <==> Markable(workspace, action)
  {
    var body := pre + FormatMarker(workspace, action) + post;
    var raw := Payload(workspace, action);
    MarkerFirst(pre, workspace, action, post);
    DelimitersUnbordered();
    CaptureRoundTrip(body, MARKER_PREFIX, raw, MARKER_SUFFIX, post);
    PayloadFreeOfSuffix(workspace, action);
    PayloadSplits(workspace, action);
    if ParseMarker(body) == Found(workspace, action) {
      SplitPayloadSound(CaptureSubstring(body, MARKER_PREFIX, MARKER_SUFFIX), workspace, action);
    }
  }

  lemma MarkerFirst(pre: string, workspace: string, action: string, post: string)
    requires !Contains(pre, MARKER_PREFIX)
    ensures var body := pre + FormatMarker(workspace, action) + post;
            Contains(body, MARKER_PREFIX) && Index(body, MARKER_PREFIX) == |pre|
            && body[|pre| + |MARKER_PREFIX|..] == Payload(workspace, action) + MARKER_SUFFIX + post
  {
    var body := pre + FormatMarker(workspace, action) + post;
    var rest := Payload(workspace, action) + MARKER_SUFFIX + post;
    assert body == pre + MARKER_PREFIX + rest;
    DelimitersUnbordered();
    FirstIndexAfter(pre, MARKER_PREFIX, rest);
  }

  /** body carries the marker of (workspace, action) after pre. */
  ghost predicate CarriesMarker(body: string, workspace: string, action: string, pre: string, post: string) {
    !Contains(pre, MARKER_PREFIX) && body == pre + FormatMarker(workspace, action) + post
  }

  lemma ParsedCarries(body: string, workspace: string, action: string) returns (pre: string, post: string)
    requires ParseMarker(body) == Found(workspace, action)
    ensures CarriesMarker(body, workspace, action, pre, post)
  {
    var raw := CaptureSubstring(body, MARKER_PREFIX, MARKER_SUFFIX);
    SplitPayloadSound(raw, workspace, action);
    pre, post := CaptureSplits(body, MARKER_PREFIX, MARKER_SUFFIX);
    MarkerIsDelimited(workspace, action);
  }

  lemma MarkerIsDelimited(workspace: string, action: string)
    ensures FormatMarker(workspace, action) == MARKER_PREFIX + Payload(workspace, action) + MARKER_SUFFIX
  {
  }

  /** A text something was captured from is text before the first prefix, the
      delimited capture, and text after it. */
  lemma CaptureSplits(body: string, prefix: string, suffix: string) returns (pre: string, post: string)
    requires prefix != "" && suffix != "" && CaptureSubstring(body, prefix, suffix) != ""
    ensures !Contains(pre, prefix)
    ensures body == pre + (prefix + CaptureSubstring(body, prefix, suffix) + suffix) + post
  {
    var c, i := CaptureSubstring(body, prefix, suffix), Index(body, prefix);
    CaptureSound(body, prefix, suffix);
    pre, post := body[..i], body[i + |prefix| + |c| + |suffix|..];
    BeforeFirstIndex(body, prefix);
    AdjacentOccurrences(body, prefix, c, suffix, i);
  }

  /** The parser accepts nothing but printed markers: it answers
      (workspace, action) exactly when the body carries that marker, printed
      from a markable pair, with no marker prefix before it. */
  lemma ParseMarkerExact(body: string, workspace: string, action: string)
    ensures ParseMarker(body) == Found(workspace, action)
       <==> Markable(workspace, action) && exists pre, post :: CarriesMarker(body, workspace, action, pre, post)
  {
    if ParseMarker(body) == Found(workspace, action) {
      var pre, post := ParsedCarries(body, workspace, action);
      MarkerRoundTrip(pre, workspace, action, post);
    }
    if Markable(workspace, action) && exists pre, post :: CarriesMarker(body, workspace, action, pre, post) {
      var pre, post :| CarriesMarker(body, workspace, action, pre, post);
      MarkerRoundTrip(pre, workspace, action, post);
    }
  }
}
