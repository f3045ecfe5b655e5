/** hack/gen-config-docs.go: rewriting the generated block of docs/usage.md. */
module ConfigDocs {
  import opened Strings

  const BEGIN_MARKER := "<!-- BEGIN GENERATED CONFIGURATION -->"
  const END_MARKER := "<!-- END GENERATED CONFIGURATION -->"

  function ReplaceGeneratedBlock(current: string, generated: string): Result<string> {
    var start := Index(current, BEGIN_MARKER);
    if start == -1 then Err("missing begin marker")
    else
      var end := Index(current, END_MARKER);
      if end == -1 then Err("missing end marker")
      else if end < start then Err("configuration markers out of order")
      else Ok(current[..start + |BEGIN_MARKER|] + "\n" + TrimRight(generated, '\n') + "\n" + current[end..])
  }

  /** The parts of a document the rewrite keeps: everything up to and including
      the begin marker, and everything from the end marker on. */
  function Head(current: string): string
    requires Contains(current, BEGIN_MARKER)
  {
    current[..Index(current, BEGIN_MARKER) + |BEGIN_MARKER|]
  }

  function Tail(current: string): string
    requires Contains(current, END_MARKER)
  {
    current[Index(current, END_MARKER)..]
  }

  ghost predicate Replaceable(current: string) {
    && Contains(current, BEGIN_MARKER) && Contains(current, END_MARKER)
    && Index(current, BEGIN_MARKER) <= Index(current, END_MARKER)
  }

  lemma MarkersUnbordered()
    ensures Unbordered(BEGIN_MARKER) && Unbordered(END_MARKER)
    ensures 0 < |END_MARKER| <= |BEGIN_MARKER| && '\n' !in END_MARKER
    ensures END_MARKER[0] == '<' && forall i :: 0 < i < |BEGIN_MARKER| ==> BEGIN_MARKER[i] != '<'
    ensures BEGIN_MARKER[5] != END_MARKER[5]
  {
    UniqueHeadUnbordered(BEGIN_MARKER);
    UniqueHeadUnbordered(END_MARKER);
  }

  /** The two markers never overlap, so a replaceable document is
      head, generated region, tail. */
  lemma MarkersApart(current: string)
    requires Replaceable(current)
    ensures Index(current, BEGIN_MARKER) + |BEGIN_MARKER| <= Index(current, END_MARKER)
  {
    MarkersUnbordered();
    var start, end := Index(current, BEGIN_MARKER), Index(current, END_MARKER);
    CharsAt(current, BEGIN_MARKER, start);
    CharsAt(current, END_MARKER, end);
    assert current[end] == '<' && current[end + 5] == END_MARKER[5];
  }

  lemma HeadFreeOfEnd(current: string)
    requires Replaceable(current)
    ensures !Contains(Head(current), END_MARKER)
  {
    MarkersApart(current);
    MarkersUnbordered();
    FreeUpToIndex(current, |Head(current)|, END_MARKER);
  }

  lemma FreeUpToIndex(s: string, n: nat, p: string)
    requires p != "" && Contains(s, p) && n <= Index(s, p)
    ensures !Contains(s[..n], p)
  {
    forall i: nat
      ensures !OccursAt(s[..n], p, i)
    {
      assert s == s[..n] + s[n..];
      OccursInConcat(s[..n], s[n..], p, i);
    }
  }

  lemma TrimKeepsContains(generated: string)
    ensures Contains(TrimRight(generated, '\n'), END_MARKER) <==> Contains(generated, END_MARKER)
  {
    MarkersUnbordered();
    var t := TrimRight(generated, '\n');
    assert generated == t + generated[|t|..];
    ContainsExtends(t, generated[|t|..], END_MARKER);
    if Contains(generated, END_MARKER) {
      var i: nat :| OccursAt(generated, END_MARKER, i);
      CharsAt(generated, END_MARKER, i);
      assert generated[i + |END_MARKER| - 1] == '>';
      OccursInConcat(t, generated[|t|..], END_MARKER, i);
      assert OccursAt(t, END_MARKER, i);
    }
  }

  /** The rewritten document, as head, new region, tail. */
  function Rewritten(current: string, generated: string): string
    requires Replaceable(current)
  {
    Head(current) + "\n" + TrimRight(generated, '\n') + "\n" + Tail(current)
  }

  /** The rewrite fails on exactly the documents that lack a marker or have them
      out of order, and otherwise leaves the text up to the begin marker and
      from the end marker on as it was. */
  lemma ReplaceFrame(current: string, generated: string)
    ensures ReplaceGeneratedBlock(current, generated).Ok? <==> Replaceable(current)
    ensures Replaceable(current) ==>
              var out := ReplaceGeneratedBlock(current, generated).value;
              HasPrefix(out, Head(current)) && HasSuffix(out, Tail(current))
              && out[|Head(current)|..|out| - |Tail(current)|] == "\n" + TrimRight(generated, '\n') + "\n"
  {
    if Replaceable(current) {
      var out := ReplaceGeneratedBlock(current, generated).value;
      var region := "\n" + TrimRight(generated, '\n') + "\n";
      assert out == Head(current) + region + Tail(current);
      Sandwich(Head(current), region, Tail(current));
    }
  }

  lemma Sandwich(head: string, region: string, tail: string)
    ensures var out := head + region + tail;
            HasPrefix(out, head) && HasSuffix(out, tail) && out[|head|..|out| - |tail|] == region
  {
  }

  lemma HeadSurvives(current: string, region: string, tail: string)
    requires Contains(current, BEGIN_MARKER)
    ensures var out := Head(current) + region + tail;
            Contains(out, BEGIN_MARKER) && Index(out, BEGIN_MARKER) == Index(current, BEGIN_MARKER)
            && Head(out) == Head(current)
  {
    MarkersUnbordered();
    var start := Index(current, BEGIN_MARKER);
    BeforeFirstIndex(current, BEGIN_MARKER);
    var pre := current[..start];
    var out := Head(current) + region + tail;
    assert current[start..start + |BEGIN_MARKER|] == BEGIN_MARKER;
    assert Head(current) == pre + BEGIN_MARKER;
    assert out == pre + BEGIN_MARKER + (region + tail);
    FirstIndexAfter(pre, BEGIN_MARKER, region + tail);
  }

  /** Text free of the end marker before the tail leaves the tail where it was. */
  lemma TailSurvives(before: string, tail: string)
    requires HasPrefix(tail, END_MARKER)
    ensures Contains(before + tail, END_MARKER)
    ensures !Contains(before, END_MARKER) ==> Tail(before + tail) == tail
    ensures Contains(before, END_MARKER) ==> |Tail(before + tail)| > |tail|
  {
    MarkersUnbordered();
    var rest := tail[|END_MARKER|..];
    assert tail == END_MARKER + rest;
    assert before + tail == before + END_MARKER + rest;
    FirstIndexAfter(before, END_MARKER, rest);
    assert OccursAt(before + tail, END_MARKER, |before|);
  }

  lemma RegionFreeOfEnd(current: string, generated: string)
    requires Replaceable(current)
    ensures Contains(Head(current) + "\n" + TrimRight(generated, '\n') + "\n", END_MARKER)
       <==> Contains(generated, END_MARKER)
  {
    MarkersUnbordered();
    HeadFreeOfEnd(current);
    TrimKeepsContains(generated);
    var head, t := Head(current), TrimRight(generated, '\n');
    var before := head + "\n" + t + "\n";
    WallBlocks(head, '\n', t + "\n", END_MARKER);
    assert before == head + ['\n'] + (t + "\n");
    WallBlocks(t, '\n', "", END_MARKER);
    assert t + "\n" == t + ['\n'] + "";
    AbsentHead("", END_MARKER);
  }

  lemma RewriteParts(current: string, generated: string)
    requires Replaceable(current)
    ensures var out := Rewritten(current, generated);
            Replaceable(out) && Head(out) == Head(current)
            && (!Contains(generated, END_MARKER) ==> Tail(out) == Tail(current))
            && (Contains(generated, END_MARKER) ==> |Tail(out)| > |Tail(current)|)
  {
    var head, tail := Head(current), Tail(current);
    var region := "\n" + TrimRight(generated, '\n') + "\n";
    var before := head + "\n" + TrimRight(generated, '\n') + "\n";
    var out := Rewritten(current, generated);
    assert out == head + region + tail && out == before + tail;
    HeadSurvives(current, region, tail);
    RegionFreeOfEnd(current, generated);
    TailSurvives(before, tail);
    BeginBeforeEnd(current, out);
  }

  lemma BeginBeforeEnd(current: string, out: string)
    requires Replaceable(current)
    requires Contains(out, BEGIN_MARKER) && Contains(out, END_MARKER) && Head(out) == Head(current)
    ensures Replaceable(out)
  {
    HeadFreeOfEnd(current);
    MarkersUnbordered();
    PastFreePrefix(out, |Head(out)|, END_MARKER);
  }

  lemma PastFreePrefix(s: string, n: nat, p: string)
    requires n <= |s| && !Contains(s[..n], p) && Contains(s, p)
    ensures Index(s, p) + |p| > n
  {
    if Index(s, p) + |p| <= n {
      OccursInPrefix(s, n, p, Index(s, p));
    }
  }

  /** Regenerating is idempotent exactly when the generated text is free of the
      end marker; the begin marker in it does no harm. */
  lemma ReplaceIdempotent(current: string, generated: string)
    requires ReplaceGeneratedBlock(current, generated).Ok?
    ensures var once := ReplaceGeneratedBlock(current, generated).value;
            ReplaceGeneratedBlock(once, generated) == Ok(once) <==> !Contains(generated, END_MARKER)
  {
    ReplaceFrame(current, generated);
    RewriteParts(current, generated);
    var once := Rewritten(current, generated);
    ReplaceFrame(once, generated);
    assert ReplaceGeneratedBlock(once, generated) == Ok(Rewritten(once, generated));
  }

  /** With clean text, only the last regeneration matters. */
  lemma ReplaceOverwrites(current: string, first: string, second: string)
    requires ReplaceGeneratedBlock(current, first).Ok? && !Contains(first, END_MARKER)
    ensures ReplaceGeneratedBlock(ReplaceGeneratedBlock(current, first).value, second)
         == ReplaceGeneratedBlock(current, second)
  {
    ReplaceFrame(current, first);
    RewriteParts(current, first);
    ReplaceFrame(Rewritten(current, first), second);
  }
}
