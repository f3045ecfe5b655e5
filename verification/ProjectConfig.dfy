/** pkg/tfc_trigger/project_config.go: which configured workspaces a set of
    modified files selects, and which of them the target branch has touched. */
module ProjectConfig {
  import opened Strings

  datatype TFCWorkspace = TFCWorkspace(name: string, organization: string, dir: string, triggerDirs: seq<string>)

  /** doublestar.Match(pattern, path). */
  datatype MatchResult = Matched | NotMatched | BadPattern

  type Glob = (string, string) -> MatchResult

  function LastSlash(path: string): (r: int)
    ensures -1 <= r < |path|
    ensures r >= 0 ==> path[r] == '/'
    ensures forall i :: r < i < |path| ==> path[i] != '/'
  {
    if path == "" then -1
    else if path[|path| - 1] == '/' then |path| - 1
    else LastSlash(path[..|path| - 1])
  }

  /** path.Dir of a clean relative path. */
  function Dir(path: string): string {
    if LastSlash(path) == -1 then "." else path[..LastSlash(path)]
  }

  function SlashDir(dir: string): string {
    if HasSuffix(dir, "/") then dir else dir + "/"
  }

  /** A workspace of the repository root, written either way. */
  predicate IsRoot(ws: TFCWorkspace) {
    ws.dir == "" || ws.dir == "/"
  }

  lemma RootIffSlash(ws: TFCWorkspace)
    ensures IsRoot(ws) <==> SlashDir(ws.dir) == "/"
  {
    assert ws.dir != "" && !HasSuffix(ws.dir, "/") ==> |SlashDir(ws.dir)| > 1;
  }

  predicate SuffixMatches(ws: TFCWorkspace, dir: string) {
    !IsRoot(ws) && (HasSuffix(dir + "/", SlashDir(ws.dir)) || HasSuffix(dir, SlashDir(ws.dir)))
  }

  function Depth(ws: TFCWorkspace): nat {
    |Split(SlashDir(ws.dir), '/')|
  }

  /** Depth of a match in dir, 0 for no match. */
  function MatchDepth(dir: string): TFCWorkspace -> nat {
    ws => if SuffixMatches(ws, dir) then Depth(ws) else 0
  }

  /** found is the earliest of the first n elements whose positive rank is the
      highest, None if no rank is positive. */
  ghost predicate EarliestBest<T(!new)>(xs: seq<T>, n: nat, rank: T -> nat, found: Option<nat>)
    requires n <= |xs|
  {
    match found
    case None => forall j :: 0 <= j < n ==> rank(xs[j]) == 0
    case Some(i) =>
      && i < n && rank(xs[i]) > 0
      && forall j :: 0 <= j < n ==> rank(xs[j]) <= rank(xs[i]) && (j < i ==> rank(xs[j]) < rank(xs[i]))
  }

  /** The running maximum: the best of the first n elements, keeping the earlier
      of two that tie. */
  ghost function Best<T>(xs: seq<T>, n: nat, rank: T -> nat): (best: Option<nat>)
    requires n <= |xs|
    ensures best.Some? ==> best.value < n
  {
    if n == 0 then None
    else
      var before := Best(xs, n - 1, rank);
      if rank(xs[n - 1]) > BestRank(xs, before, rank) then Some(n - 1) else before
  }

  ghost function BestRank<T>(xs: seq<T>, best: Option<nat>, rank: T -> nat): nat
    requires best.Some? ==> best.value < |xs|
  {
    if best.None? then 0 else rank(xs[best.value])
  }

  lemma {:induction false} BestIsEarliestBest<T(!new)>(xs: seq<T>, n: nat, rank: T -> nat)
    requires n <= |xs|
    ensures EarliestBest(xs, n, rank, Best(xs, n, rank))
  {
    if n > 0 {
      BestIsEarliestBest(xs, n - 1, rank);
    }
  }

  ghost predicate NoRootBefore(workspaces: seq<TFCWorkspace>, n: nat)
    requires n <= |workspaces|
  {
    forall j :: 0 <= j < n ==> !IsRoot(workspaces[j])
  }

  lemma NoRootStep(workspaces: seq<TFCWorkspace>, i: nat)
    requires i < |workspaces| && NoRootBefore(workspaces, i) && !IsRoot(workspaces[i])
    ensures NoRootBefore(workspaces, i + 1)
  {
  }

  ghost predicate FirstRoot(workspaces: seq<TFCWorkspace>, i: nat) {
    i < |workspaces| && IsRoot(workspaces[i]) && NoRootBefore(workspaces, i)
  }

  /** The directory is the repository root and some workspace is configured for it. */
  ghost predicate RootWins(workspaces: seq<TFCWorkspace>, dir: string) {
    dir == "." && exists i :: 0 <= i < |workspaces| && IsRoot(workspaces[i])
  }

  /** What workspaceForDir should find: for "." the first root workspace if there
      is one; otherwise the earliest of the deepest suffix matches, if any. */
  ghost predicate IsWorkspaceForDir(workspaces: seq<TFCWorkspace>, dir: string, found: Option<nat>) {
    if RootWins(workspaces, dir)
    then found.Some? && FirstRoot(workspaces, found.value)
    else EarliestBest(workspaces, |workspaces|, MatchDepth(dir), found)
  }

  lemma RootFound(workspaces: seq<TFCWorkspace>, i: nat)
    requires FirstRoot(workspaces, i)
    ensures IsWorkspaceForDir(workspaces, ".", Some(i))
  {
  }

  lemma DeepestFound(workspaces: seq<TFCWorkspace>, dir: string, found: Option<nat>)
    requires dir == "." ==> NoRootBefore(workspaces, |workspaces|)
    requires found == Best(workspaces, |workspaces|, MatchDepth(dir))
    ensures IsWorkspaceForDir(workspaces, dir, found)
  {
    BestIsEarliestBest(workspaces, |workspaces|, MatchDepth(dir));
  }

  /** What one turn of the loop asks of a workspace: whether it is a root, and
      if not how deep it matches, 0 for not at all. */
  method MatchOf(ws: TFCWorkspace, dir: string) returns (root: bool, wsDirDepth: nat)
    ensures root == IsRoot(ws) && wsDirDepth == MatchDepth(dir)(ws)
  {
    RootIffSlash(ws);
    var wsDir := SlashDir(ws.dir);
    root, wsDirDepth := wsDir == "/", 0;
    if !root {
      if HasSuffix(dir + "/", wsDir) || HasSuffix(dir, wsDir) {
        wsDirDepth := |Split(wsDir, '/')|;
      }
    }
  }

  method WorkspaceForDir(workspaces: seq<TFCWorkspace>, dir: string) returns (found: Option<nat>)
    ensures IsWorkspaceForDir(workspaces, dir, found)
  {
    ghost var rank := MatchDepth(dir);
    var top := dir == ".";
    found := None;
    var longestMatchDepth := 0;
    for i := 0 to |workspaces|
      invariant top ==> NoRootBefore(workspaces, i)
      invariant found == Best(workspaces, i, rank)
      invariant longestMatchDepth == BestRank(workspaces, found, rank)
    {
      var root, wsDirDepth := MatchOf(workspaces[i], dir);
      if top {
        if root {
          RootFound(workspaces, i);
          return Some(i);
        }
        NoRootStep(workspaces, i);
      }
      if wsDirDepth > longestMatchDepth {
        found := Some(i);
        longestMatchDepth := wsDirDepth;
      }
    }
    DeepestFound(workspaces, dir, found);
  }

  /** Root workspaces are for "." alone: there the first of them is found if there is
      one, and for any other directory none ever is. */
  lemma RootOnlyForDot(workspaces: seq<TFCWorkspace>, dir: string, found: Option<nat>)
    requires IsWorkspaceForDir(workspaces, dir, found) && (found.Some? ==> found.value < |workspaces|)
    ensures dir == "." && (exists ws :: ws in workspaces && ws.dir in {"", "/"}) ==>
              && found.Some? && workspaces[found.value].dir in {"", "/"}
              && forall j :: 0 <= j < found.value ==> workspaces[j].dir !in {"", "/"}
    ensures dir != "." && found.Some? ==> workspaces[found.value].dir !in {"", "/"}
  {
    if ws :| ws in workspaces && ws.dir in {"", "/"} {
      var i :| 0 <= i < |workspaces| && workspaces[i] == ws;
      assert IsRoot(workspaces[i]);
    }
  }

  lemma EarliestBestUnique<T(!new)>(xs: seq<T>, n: nat, rank: T -> nat, a: Option<nat>, b: Option<nat>)
    requires n <= |xs| && EarliestBest(xs, n, rank, a) && EarliestBest(xs, n, rank, b)
    ensures a == b
  {
  }

  /** The one answer workspaceForDir may give. */
  ghost function FoundFor(workspaces: seq<TFCWorkspace>, dir: string): (found: Option<nat>)
    ensures IsWorkspaceForDir(workspaces, dir, found)
    ensures found.Some? ==> found.value < |workspaces|
  {
    if RootWins(workspaces, dir) then
      FirstRootExists(workspaces, |workspaces|);
      var i: nat :| FirstRoot(workspaces, i);
      Some(i)
    else
      BestIsEarliestBest(workspaces, |workspaces|, MatchDepth(dir));
      Best(workspaces, |workspaces|, MatchDepth(dir))
  }

  lemma WorkspaceForDirUnique(workspaces: seq<TFCWorkspace>, dir: string, found: Option<nat>)
    ensures IsWorkspaceForDir(workspaces, dir, found) <==> found == FoundFor(workspaces, dir)
  {
    if IsWorkspaceForDir(workspaces, dir, found) && !RootWins(workspaces, dir) {
      EarliestBestUnique(workspaces, |workspaces|, MatchDepth(dir), found, FoundFor(workspaces, dir));
    }
  }

  lemma {:induction false} FirstRootExists(workspaces: seq<TFCWorkspace>, n: nat)
    requires n <= |workspaces| && !NoRootBefore(workspaces, n)
    ensures exists i: nat :: FirstRoot(workspaces, i)
  {
    if NoRootBefore(workspaces, n - 1) {
      assert FirstRoot(workspaces, n - 1);
    } else {
      FirstRootExists(workspaces, n - 1);
    }
  }

  /** Two suffixes of one text are suffixes of one another. */
  lemma SuffixesNest(text: string, a: string, b: string)
    requires HasSuffix(text, a) && HasSuffix(text, b) && |a| <= |b|
    ensures HasSuffix(b, a)
  {
    assert b[|b| - |a|..] == text[|text| - |a|..];
  }

  /** a ends text and starts where a path component of it starts. */
  predicate BoundarySuffix(text: string, a: string) {
    HasSuffix(text, a) && (|text| == |a| || text[|text| - |a| - 1] == '/')
  }

  /** The match in dir starts where a path component starts. */
  predicate OnBoundary(ws: TFCWorkspace, dir: string) {
    BoundarySuffix(dir + "/", SlashDir(ws.dir)) || BoundarySuffix(dir, SlashDir(ws.dir))
  }

  lemma DepthIsCount(ws: TFCWorkspace)
    ensures Depth(ws) == Count(SlashDir(ws.dir), '/') + 1
  {
    SplitCounts(SlashDir(ws.dir), '/');
  }

  /** Among matches on component boundaries, deeper means strictly longer and
      equally deep means equal. */
  lemma DeeperIsLonger(a: TFCWorkspace, b: TFCWorkspace, dir: string)
    requires BoundarySuffix(dir, SlashDir(a.dir)) && BoundarySuffix(dir, SlashDir(b.dir))
    ensures Depth(a) <= Depth(b) <==> |SlashDir(a.dir)| <= |SlashDir(b.dir)|
  {
    DepthIsCount(a);
    DepthIsCount(b);
    CountsFollowLengths(dir, SlashDir(a.dir), SlashDir(b.dir));
  }

  lemma CountsFollowLengths(text: string, a: string, b: string)
    requires BoundarySuffix(text, a) && BoundarySuffix(text, b)
    ensures Count(a, '/') <= Count(b, '/') <==> |a| <= |b|
  {
    if |a| <= |b| {
      ShorterIsShallower(text, a, b);
    } else {
      ShorterIsShallower(text, b, a);
    }
  }

  lemma ShorterIsShallower(text: string, a: string, b: string)
    requires BoundarySuffix(text, a) && HasSuffix(text, b) && |a| <= |b|
    ensures Count(a, '/') <= Count(b, '/')
    ensures |a| < |b| ==> Count(a, '/') < Count(b, '/')
  {
    SuffixesNest(text, a, b);
    var extra := b[..|b| - |a|];
    assert b == extra + a;
    CountConcat(extra, a, '/');
    if |a| < |b| {
      CharBefore(text, a, b);
      CountPositive(extra, '/');
    }
  }

  lemma CharBefore(text: string, a: string, b: string)
    requires BoundarySuffix(text, a) && HasSuffix(text, b) && |a| < |b|
    ensures '/' in b[..|b| - |a|]
  {
    var k := |b| - |a| - 1;
    assert b[..|b| - |a|][k] == b[k] == text[|text| - |b|..][k] == text[|text| - |a| - 1];
  }

  /** So if the workspace found starts at a component of dir, or of dir with its
      slash, no match in the same text is longer, wherever that one starts. */
  lemma FoundIsLongest(workspaces: seq<TFCWorkspace>, dir: string, text: string, i: nat, j: nat)
    requires IsWorkspaceForDir(workspaces, dir, Some(i)) && i < |workspaces| && !IsRoot(workspaces[i])
    requires text == dir || text == dir + "/"
    requires BoundarySuffix(text, SlashDir(workspaces[i].dir))
    requires j < |workspaces| && !IsRoot(workspaces[j]) && HasSuffix(text, SlashDir(workspaces[j].dir))
    ensures |SlashDir(workspaces[j].dir)| <= |SlashDir(workspaces[i].dir)|
  {
    var a, b := SlashDir(workspaces[i].dir), SlashDir(workspaces[j].dir);
    FoundIsDeepest(workspaces, dir, i, j);
    DepthIsCount(workspaces[i]);
    DepthIsCount(workspaces[j]);
    if |a| < |b| {
      ShorterIsShallower(text, a, b);
    }
  }

  lemma FoundIsDeepest(workspaces: seq<TFCWorkspace>, dir: string, i: nat, j: nat)
    requires IsWorkspaceForDir(workspaces, dir, Some(i)) && i < |workspaces| && !IsRoot(workspaces[i])
    requires j < |workspaces| && SuffixMatches(workspaces[j], dir)
    ensures Depth(workspaces[j]) <= Depth(workspaces[i])
  {
    assert MatchDepth(dir)(workspaces[j]) <= MatchDepth(dir)(workspaces[i]);
  }

  lemma OneSegment(dir: string, text: string)
    requires dir != "" && '/' !in dir && HasSuffix(text, dir)
    ensures var ws := TFCWorkspace(dir, "org", dir, []);
            SuffixMatches(ws, text) && Depth(ws) == 2
  {
    var ws := TFCWorkspace(dir, "org", dir, []);
    assert dir[|dir| - 1..] == [dir[|dir| - 1]];
    assert SlashDir(dir) == dir + "/";
    assert (text + "/")[|text + "/"| - |dir + "/"|..] == text[|text| - |dir|..] + "/";
    DepthIsCount(ws);
    CountConcat(dir, "/", '/');
    CountPositive(dir, '/');
    assert Count("/", '/') == 1 + Count("/"[1..], '/');
  }

  /** Off the boundaries it need not be: a directory whose name merely ends the
      name of the modified one ("v" and "dev") wins over the exact directory if
      it is listed first. */
  lemma SuffixNeedNotBeComponent(short: string, exact: string)
    requires short != "" && '/' !in exact && exact != "." && HasSuffix(exact, short)
    ensures IsWorkspaceForDir([TFCWorkspace(short, "org", short, []), TFCWorkspace(exact, "org", exact, [])],
                              exact, Some(0))
  {
    assert forall i :: 0 <= i < |short| ==> short[i] == exact[|exact| - |short| + i];
    OneSegment(short, exact);
    OneSegment(exact, exact);
    FirstOfEquals(TFCWorkspace(short, "org", short, []), TFCWorkspace(exact, "org", exact, []), exact);
  }

  lemma FirstOfEquals(a: TFCWorkspace, b: TFCWorkspace, dir: string)
    requires dir != "." && SuffixMatches(a, dir) && Depth(a) == Depth(b)
    ensures IsWorkspaceForDir([a, b], dir, Some(0))
  {
  }

  /** Depth of a match that starts at a path component, 0 for no such match. */
  function ComponentDepth(dir: string): TFCWorkspace -> nat {
    ws => if SuffixMatches(ws, dir) && OnBoundary(ws, dir) then Depth(ws) else 0
  }

  /** The rule the documentation gives: matches are whole directory suffixes. */
  ghost predicate IsWorkspaceByComponent(workspaces: seq<TFCWorkspace>, dir: string, found: Option<nat>) {
    if RootWins(workspaces, dir)
    then found.Some? && FirstRoot(workspaces, found.value)
    else EarliestBest(workspaces, |workspaces|, ComponentDepth(dir), found)
  }

  /** The element at k counts by full and not by part, and no element that counts
      by part ranks higher, or as high and comes first. */
  ghost predicate Unbeaten<T(!new)>(xs: seq<T>, full: T -> nat, part: T -> nat, k: nat)
    requires k < |xs|
  {
    && full(xs[k]) > 0 && part(xs[k]) == 0
    && forall j :: 0 <= j < |xs| && part(xs[j]) > 0 ==>
         full(xs[j]) < full(xs[k]) || (full(xs[j]) == full(xs[k]) && k < j)
  }

  /** Counting only some elements leaves the earliest best as it was exactly if no
      element left out is unbeaten. */
  lemma SameBestIff<T(!new)>(xs: seq<T>, full: T -> nat, part: T -> nat, found: Option<nat>)
    requires EarliestBest(xs, |xs|, full, found)
    requires forall i :: 0 <= i < |xs| ==> part(xs[i]) == 0 || part(xs[i]) == full(xs[i])
    ensures EarliestBest(xs, |xs|, part, found) <==> forall k: nat :: k < |xs| ==> !Unbeaten(xs, full, part, k)
  {
    if EarliestBest(xs, |xs|, part, found) {
      forall k: nat | k < |xs|
        ensures !Unbeaten(xs, full, part, k)
      {
        if full(xs[k]) > 0 {
          assert full(xs[k]) <= full(xs[found.value]) && (k < found.value ==> full(xs[k]) < full(xs[found.value]));
        }
      }
    } else {
      assert Unbeaten(xs, full, part, found.value);
    }
  }

  /** The match at k does not start at a component, and no match that does is
      deeper, or as deep and listed earlier. */
  ghost predicate Misleads(workspaces: seq<TFCWorkspace>, dir: string, k: nat)
    requires k < |workspaces|
  {
    && SuffixMatches(workspaces[k], dir) && !OnBoundary(workspaces[k], dir)
    && forall j :: 0 <= j < |workspaces| && SuffixMatches(workspaces[j], dir) && OnBoundary(workspaces[j], dir) ==>
         Depth(workspaces[j]) < Depth(workspaces[k]) || (Depth(workspaces[j]) == Depth(workspaces[k]) && k < j)
  }

  lemma DepthsOf(ws: TFCWorkspace, dir: string)
    ensures MatchDepth(dir)(ws) == (if SuffixMatches(ws, dir) then Depth(ws) else 0) && Depth(ws) > 0
    ensures ComponentDepth(dir)(ws) == if SuffixMatches(ws, dir) && OnBoundary(ws, dir) then Depth(ws) else 0
  {
  }

  lemma MisleadsIffUnbeaten(workspaces: seq<TFCWorkspace>, dir: string, k: nat)
    requires k < |workspaces|
    ensures Misleads(workspaces, dir, k) <==> Unbeaten(workspaces, MatchDepth(dir), ComponentDepth(dir), k)
  {
    forall j | 0 <= j < |workspaces|
      ensures MatchDepth(dir)(workspaces[j]) == if SuffixMatches(workspaces[j], dir) then Depth(workspaces[j]) else 0
      ensures Depth(workspaces[j]) > 0
      ensures ComponentDepth(dir)(workspaces[j])
           == if SuffixMatches(workspaces[j], dir) && OnBoundary(workspaces[j], dir) then Depth(workspaces[j]) else 0
    {
      DepthsOf(workspaces[j], dir);
    }
  }

  lemma SameBestByComponent(workspaces: seq<TFCWorkspace>, dir: string, found: Option<nat>)
    requires EarliestBest(workspaces, |workspaces|, MatchDepth(dir), found)
    ensures EarliestBest(workspaces, |workspaces|, ComponentDepth(dir), found) <==>
            forall k: nat :: k < |workspaces| ==> !Unbeaten(workspaces, MatchDepth(dir), ComponentDepth(dir), k)
  {
    forall i | 0 <= i < |workspaces|
      ensures ComponentDepth(dir)(workspaces[i]) == 0
                || ComponentDepth(dir)(workspaces[i]) == MatchDepth(dir)(workspaces[i])
    {
      DepthsOf(workspaces[i], dir);
    }
    SameBestIff(workspaces, MatchDepth(dir), ComponentDepth(dir), found);
  }

  lemma NoneMisleadsIff(workspaces: seq<TFCWorkspace>, dir: string)
    ensures (forall k: nat :: k < |workspaces| ==> !Misleads(workspaces, dir, k)) <==>
            (forall k: nat :: k < |workspaces| ==> !Unbeaten(workspaces, MatchDepth(dir), ComponentDepth(dir), k))
  {
    if k: nat :| k < |workspaces| && Misleads(workspaces, dir, k) {
      MisleadsIffUnbeaten(workspaces, dir, k);
    }
    if k: nat :| k < |workspaces| && Unbeaten(workspaces, MatchDepth(dir), ComponentDepth(dir), k) {
      MisleadsIffUnbeaten(workspaces, dir, k);
    }
  }

  /** workspaceForDir follows the documented rule exactly if every match that does
      not start at a component is beaten by one that does. (For "." and a root
      workspace the two rules are one.) */
  lemma ComponentRuleIff(workspaces: seq<TFCWorkspace>, dir: string, found: Option<nat>)
    requires IsWorkspaceForDir(workspaces, dir, found)
    ensures IsWorkspaceByComponent(workspaces, dir, found) <==>
            RootWins(workspaces, dir) || forall k: nat :: k < |workspaces| ==> !Misleads(workspaces, dir, k)
  {
    if !RootWins(workspaces, dir) {
      SameBestByComponent(workspaces, dir, found);
      NoneMisleadsIff(workspaces, dir);
    }
  }

  // --------------------------------------------------------------- selection

  predicate TriggerDirMatches(ws: TFCWorkspace, glob: Glob, dir: string) {
    exists i :: 0 <= i < |ws.triggerDirs| && glob(ws.triggerDirs[i], dir).Matched?
  }

  /** One copy of ws for each of its first n patterns that matches dir. */
  function Copies(ws: TFCWorkspace, glob: Glob, dir: string, n: nat): seq<TFCWorkspace>
    requires n <= |ws.triggerDirs|
  {
    if n == 0 then []
    else Copies(ws, glob, dir, n - 1) + if glob(ws.triggerDirs[n - 1], dir).Matched? then [ws] else []
  }

  /** workspacesForTriggerDir: in configuration order, with repetitions. */
  function TriggerMatches(workspaces: seq<TFCWorkspace>, glob: Glob, dir: string): seq<TFCWorkspace> {
    if workspaces == [] then []
    else
      var n := |workspaces| - 1;
      TriggerMatches(workspaces[..n], glob, dir) + Copies(workspaces[n], glob, dir, |workspaces[n].triggerDirs|)
  }

  method WorkspacesForTriggerDir(workspaces: seq<TFCWorkspace>, glob: Glob, dir: string)
      returns (result: seq<TFCWorkspace>)
    ensures result == TriggerMatches(workspaces, glob, dir)
  {
    result := [];
    for i := 0 to |workspaces|
      invariant result == TriggerMatches(workspaces[..i], glob, dir)
    {
      var ws, before := workspaces[i], result;
      for k := 0 to |ws.triggerDirs|
        invariant result == before + Copies(ws, glob, dir, k)
      {
        if glob(ws.triggerDirs[k], dir).Matched? {
          result := result + [ws];
        }
      }
      assert workspaces[..i + 1][..i] == workspaces[..i];
    }
    assert workspaces[..|workspaces|] == workspaces;
  }

  lemma {:induction false} CopiesAreMatches(ws: TFCWorkspace, glob: Glob, dir: string, n: nat, w: TFCWorkspace)
    requires n <= |ws.triggerDirs|
    ensures w in Copies(ws, glob, dir, n) <==>
            w == ws && exists i :: 0 <= i < n && glob(ws.triggerDirs[i], dir).Matched?
  {
    if n > 0 {
      CopiesAreMatches(ws, glob, dir, n - 1, w);
    }
  }

  lemma {:induction false} TriggerMatchesExactly(workspaces: seq<TFCWorkspace>, glob: Glob, dir: string,
                                                 ws: TFCWorkspace)
    ensures ws in TriggerMatches(workspaces, glob, dir) <==> ws in workspaces && TriggerDirMatches(ws, glob, dir)
  {
    if workspaces != [] {
      var n := |workspaces| - 1;
      TriggerMatchesExactly(workspaces[..n], glob, dir, ws);
      CopiesAreMatches(workspaces[n], glob, dir, |workspaces[n].triggerDirs|, ws);
      assert workspaces == workspaces[..n] + [workspaces[n]];
    }
  }

  /** The result lists workspaces in configuration order; at says where each comes from. */
  ghost predicate ListedFrom(result: seq<TFCWorkspace>, workspaces: seq<TFCWorkspace>, at: seq<nat>) {
    && |at| == |result|
    && (forall k :: 0 <= k < |at| ==> at[k] < |workspaces| && result[k] == workspaces[at[k]])
    && forall k, l :: 0 <= k <= l < |at| ==> at[k] <= at[l]
  }

  lemma ListedNext(result: seq<TFCWorkspace>, workspaces: seq<TFCWorkspace>, at: seq<nat>, copies: seq<TFCWorkspace>)
    returns (next: seq<nat>)
    requires workspaces != [] && ListedFrom(result, workspaces[..|workspaces| - 1], at)
    requires forall k :: 0 <= k < |copies| ==> copies[k] == workspaces[|workspaces| - 1]
    ensures ListedFrom(result + copies, workspaces, next)
    ensures forall i: nat :: i in next <==> i in at || (i == |workspaces| - 1 && copies != [])
  {
    var n := |workspaces| - 1;
    var last: seq<nat> := seq(|copies|, i => n);
    assert copies != [] ==> last[0] == n;
    assert forall i: nat :: i in last <==> i == n && copies != [];
    next := at + last;
  }

  /** The workspaces triggered by a directory are those with a pattern that matches it, in
      configuration order. */
  lemma {:induction false} TriggerMatchesInOrder(workspaces: seq<TFCWorkspace>, glob: Glob, dir: string)
    returns (at: seq<nat>)
    ensures ListedFrom(TriggerMatches(workspaces, glob, dir), workspaces, at)
    ensures forall i: nat :: i < |workspaces| ==> (i in at <==> TriggerDirMatches(workspaces[i], glob, dir))
  {
    at := [];
    if workspaces != [] {
      var n := |workspaces| - 1;
      var before := TriggerMatchesInOrder(workspaces[..n], glob, dir);
      var copies := Copies(workspaces[n], glob, dir, |workspaces[n].triggerDirs|);
      CopiesAreCopies(workspaces[n], glob, dir, |workspaces[n].triggerDirs|);
      CopiesAreMatches(workspaces[n], glob, dir, |workspaces[n].triggerDirs|, workspaces[n]);
      at := ListedNext(TriggerMatches(workspaces[..n], glob, dir), workspaces, before, copies);
      assert copies != [] ==> copies[0] in copies;
      assert n !in before;
    }
  }

  lemma {:induction false} CopiesAreCopies(ws: TFCWorkspace, glob: Glob, dir: string, n: nat)
    requires n <= |ws.triggerDirs|
    ensures forall k :: 0 <= k < |Copies(ws, glob, dir, n)| ==> Copies(ws, glob, dir, n)[k] == ws
  {
    if n > 0 {
      CopiesAreCopies(ws, glob, dir, n - 1);
    }
  }

  /** A modified file in dir selects ws, by suffix or by trigger directory. */
  ghost predicate SelectedIn(workspaces: seq<TFCWorkspace>, glob: Glob, dir: string, ws: TFCWorkspace) {
    || (exists i: nat :: i < |workspaces| && IsWorkspaceForDir(workspaces, dir, Some(i)) && workspaces[i] == ws)
    || (ws in workspaces && TriggerDirMatches(ws, glob, dir))
  }

  ghost predicate Selected(workspaces: seq<TFCWorkspace>, glob: Glob, files: seq<string>, ws: TFCWorkspace) {
    exists f :: f in files && SelectedIn(workspaces, glob, Dir(f), ws)
  }

  ghost function Selection(workspaces: seq<TFCWorkspace>, glob: Glob, files: seq<string>): iset<TFCWorkspace> {
    iset ws | Selected(workspaces, glob, files, ws)
  }

  ghost predicate CoversDir(triggered: seq<TFCWorkspace>, dir: string) {
    exists t :: t in triggered && t.dir == dir
  }

  /** triggered is a choice of one selected workspace per selected directory. */
  ghost predicate OnePerDir(selection: iset<TFCWorkspace>, triggered: seq<TFCWorkspace>) {
    && (forall ws :: ws in triggered ==> ws in selection)
    && (forall ws :: ws in selection ==> CoversDir(triggered, ws.dir))
    && (forall i, j :: 0 <= i < j < |triggered| ==> triggered[i].dir != triggered[j].dir)
  }

  type Writes = string -> seq<TFCWorkspace>

  /** The map entries a modified file in a directory writes, in order: the deepest
      match first, then the matches of trigger directories. */
  ghost function DirWrites(workspaces: seq<TFCWorkspace>, glob: Glob): Writes {
    dir => FoundWrite(workspaces, FoundFor(workspaces, dir)) + TriggerMatches(workspaces, glob, dir)
  }

  function FoundWrite(workspaces: seq<TFCWorkspace>, found: Option<nat>): seq<TFCWorkspace> {
    if found.Some? && found.value < |workspaces| then [workspaces[found.value]] else []
  }

  /** All entries the files write, in order. */
  ghost function AllWrites(writes: Writes, files: seq<string>): seq<TFCWorkspace> {
    if files == [] then []
    else AllWrites(writes, files[..|files| - 1]) + writes(Dir(files[|files| - 1]))
  }

  /** The map after filing each workspace under its directory, in order. */
  function Filed(writes: seq<TFCWorkspace>): map<string, TFCWorkspace> {
    if writes == [] then map[]
    else
      var n := |writes| - 1;
      Filed(writes[..n])[writes[n].dir := writes[n]]
  }

  /** Of the workspaces filed under one directory the last one wins. */
  lemma {:induction false} LastWriteWins(writes: seq<TFCWorkspace>, d: string)
    ensures d in Filed(writes) <==> CoversDir(writes, d)
    ensures d in Filed(writes) ==>
              exists i :: 0 <= i < |writes| && writes[i] == Filed(writes)[d] && writes[i].dir == d
                          && (forall j :: i < j < |writes| ==> writes[j].dir != d)
  {
    if writes != [] {
      var n := |writes| - 1;
      LastWriteWins(writes[..n], d);
      assert writes == writes[..n] + [writes[n]];
    }
  }

  /** triggered lists the values of the map the files write, one per directory. */
  ghost predicate LastPerDir(writes: seq<TFCWorkspace>, triggered: seq<TFCWorkspace>) {
    && (forall ws :: ws in triggered <==> ws.dir in Filed(writes) && Filed(writes)[ws.dir] == ws)
    && (forall i, j :: 0 <= i < j < |triggered| ==> triggered[i].dir != triggered[j].dir)
  }

  method TriggeredWorkspaces(workspaces: seq<TFCWorkspace>, glob: Glob, modifiedFiles: seq<string>)
    returns (triggered: seq<TFCWorkspace>)
    ensures LastPerDir(AllWrites(DirWrites(workspaces, glob), modifiedFiles), triggered)
    ensures OnePerDir(Selection(workspaces, glob, modifiedFiles), triggered)
  {
    ghost var writes := DirWrites(workspaces, glob);
    var triggeredMap: map<string, TFCWorkspace> := map[];
    for i := 0 to |modifiedFiles|
      invariant triggeredMap == Filed(AllWrites(writes, modifiedFiles[..i]))
    {
      triggeredMap := AddFile(workspaces, glob, modifiedFiles[i], triggeredMap, AllWrites(writes, modifiedFiles[..i]));
      assert modifiedFiles[..i + 1][..i] == modifiedFiles[..i];
    }
    assert modifiedFiles[..|modifiedFiles|] == modifiedFiles;
    FiledUnderOwnDir(AllWrites(writes, modifiedFiles));
    triggered := Values(triggeredMap);
    LastPerDirIsSelection(workspaces, glob, modifiedFiles, triggered);
  }

  /** The body of the loop over files. */
  method AddFile(workspaces: seq<TFCWorkspace>, glob: Glob, mf: string, m: map<string, TFCWorkspace>,
                 ghost before: seq<TFCWorkspace>)
    returns (triggeredMap: map<string, TFCWorkspace>)
    requires m == Filed(before)
    ensures triggeredMap == Filed(before + DirWrites(workspaces, glob)(Dir(mf)))
  {
    var dir := Dir(mf);
    ghost var first := FoundWrite(workspaces, FoundFor(workspaces, dir));
    triggeredMap := PutFound(workspaces, dir, m, before);
    var trigs := WorkspacesForTriggerDir(workspaces, glob, dir);
    triggeredMap := PutAll(triggeredMap, trigs, before + first);
    assert before + first + trigs == before + (first + trigs);
  }

  /** Files the workspace found for dir, if any. */
  method PutFound(workspaces: seq<TFCWorkspace>, dir: string, m: map<string, TFCWorkspace>,
                  ghost before: seq<TFCWorkspace>)
    returns (triggeredMap: map<string, TFCWorkspace>)
    requires m == Filed(before)
    ensures triggeredMap == Filed(before + FoundWrite(workspaces, FoundFor(workspaces, dir)))
  {
    var found := WorkspaceForDir(workspaces, dir);
    WorkspaceForDirUnique(workspaces, dir, found);
    if found.None? {
      assert before + [] == before;
      return m;
    }
    var ws := workspaces[found.value];
    FiledSnoc(before, ws);
    return m[ws.dir := ws];
  }

  lemma FiledSnoc(writes: seq<TFCWorkspace>, ws: TFCWorkspace)
    ensures Filed(writes + [ws]) == Filed(writes)[ws.dir := ws]
  {
    assert (writes + [ws])[..|writes|] == writes;
  }

  /** Files each workspace under its directory, later ones replacing earlier. */
  method PutAll(m: map<string, TFCWorkspace>, trigs: seq<TFCWorkspace>, ghost before: seq<TFCWorkspace>)
    returns (triggeredMap: map<string, TFCWorkspace>)
    requires m == Filed(before)
    ensures triggeredMap == Filed(before + trigs)
  {
    triggeredMap := m;
    ghost var filed := before;
    for k := 0 to |trigs|
      invariant triggeredMap == Filed(filed) && filed == before + trigs[..k]
    {
      FiledSnoc(filed, trigs[k]);
      triggeredMap := triggeredMap[trigs[k].dir := trigs[k]];
      filed := filed + [trigs[k]];
    }
    assert trigs[..|trigs|] == trigs;
  }

  lemma {:induction false} FiledUnderOwnDir(writes: seq<TFCWorkspace>)
    ensures forall d :: d in Filed(writes) ==> Filed(writes)[d].dir == d
  {
    if writes != [] {
      FiledUnderOwnDir(writes[..|writes| - 1]);
    }
  }

  /** The values of the map, in whatever order the iteration takes. */
  method Values(m: map<string, TFCWorkspace>) returns (values: seq<TFCWorkspace>)
    requires forall d :: d in m ==> m[d].dir == d
    ensures forall ws :: ws in values <==> ws.dir in m && m[ws.dir] == ws
    ensures forall i, j :: 0 <= i < j < |values| ==> values[i].dir != values[j].dir
  {
    values := [];
    var rest := m.Keys;
    while rest != {}
      invariant rest <= m.Keys
      invariant forall ws :: ws in values <==> ws.dir in m.Keys - rest && m[ws.dir] == ws
      invariant forall i, j :: 0 <= i < j < |values| ==> values[i].dir != values[j].dir
      decreases |rest|
    {
      var d :| d in rest;
      assert forall i :: 0 <= i < |values| ==> values[i] in values;
      values := values + [m[d]];
      rest := rest - {d};
    }
  }

  /** What is written is what is selected. */
  lemma DirWritesSelected(workspaces: seq<TFCWorkspace>, glob: Glob, dir: string, ws: TFCWorkspace)
    ensures ws in DirWrites(workspaces, glob)(dir) <==> SelectedIn(workspaces, glob, dir, ws)
  {
    TriggerMatchesExactly(workspaces, glob, dir, ws);
    if i: nat :| i < |workspaces| && IsWorkspaceForDir(workspaces, dir, Some(i)) && workspaces[i] == ws {
      WorkspaceForDirUnique(workspaces, dir, Some(i));
    }
  }

  lemma {:induction false} AllWritesExactly(writes: Writes, files: seq<string>, ws: TFCWorkspace)
    ensures ws in AllWrites(writes, files) <==> exists f :: f in files && ws in writes(Dir(f))
  {
    if files != [] {
      var n := |files| - 1;
      AllWritesExactly(writes, files[..n], ws);
      assert files == files[..n] + [files[n]];
      assert files[n] in files && forall f :: f in files[..n] ==> f in files;
    }
  }

  lemma WritesSelected(workspaces: seq<TFCWorkspace>, glob: Glob, files: seq<string>, ws: TFCWorkspace)
    ensures ws in AllWrites(DirWrites(workspaces, glob), files) <==> Selected(workspaces, glob, files, ws)
  {
    AllWritesExactly(DirWrites(workspaces, glob), files, ws);
    forall f | f in files
      ensures ws in DirWrites(workspaces, glob)(Dir(f)) <==> SelectedIn(workspaces, glob, Dir(f), ws)
    {
      DirWritesSelected(workspaces, glob, Dir(f), ws);
    }
  }

  lemma LastPerDirIsSelection(workspaces: seq<TFCWorkspace>, glob: Glob, files: seq<string>,
                              triggered: seq<TFCWorkspace>)
    requires LastPerDir(AllWrites(DirWrites(workspaces, glob), files), triggered)
    ensures OnePerDir(Selection(workspaces, glob, files), triggered)
  {
    var all := AllWrites(DirWrites(workspaces, glob), files);
    forall ws
      ensures ws in triggered ==> Selected(workspaces, glob, files, ws)
      ensures Selected(workspaces, glob, files, ws) ==> CoversDir(triggered, ws.dir)
    {
      WritesSelected(workspaces, glob, files, ws);
      LastWriteWins(all, ws.dir);
      if ws.dir in Filed(all) {
        FiledUnderOwnDir(all);
        assert Filed(all)[ws.dir] in triggered;
      }
    }
  }

  /** A workspace is returned because of the last file that selects any workspace of its
      directory. */
  lemma LastFileWins(workspaces: seq<TFCWorkspace>, glob: Glob, files: seq<string>, triggered: seq<TFCWorkspace>,
                     ws: TFCWorkspace) returns (i: nat)
    requires LastPerDir(AllWrites(DirWrites(workspaces, glob), files), triggered) && ws in triggered
    ensures i < |files| && SelectedIn(workspaces, glob, Dir(files[i]), ws)
    ensures forall j, w :: i < j < |files| && SelectedIn(workspaces, glob, Dir(files[j]), w) ==> w.dir != ws.dir
  {
    var writes := DirWrites(workspaces, glob);
    i := LastWriter(writes, files, ws);
    DirWritesSelected(workspaces, glob, Dir(files[i]), ws);
    forall j, w | i < j < |files| && SelectedIn(workspaces, glob, Dir(files[j]), w)
      ensures w.dir != ws.dir
    {
      DirWritesSelected(workspaces, glob, Dir(files[j]), w);
    }
  }

  lemma {:induction false} LastWriter(writes: Writes, files: seq<string>, ws: TFCWorkspace) returns (i: nat)
    requires ws.dir in Filed(AllWrites(writes, files)) && Filed(AllWrites(writes, files))[ws.dir] == ws
    ensures i < |files| && ws in writes(Dir(files[i]))
    ensures forall j, w :: i < j < |files| && w in writes(Dir(files[j])) ==> w.dir != ws.dir
  {
    var n := |files| - 1;
    var before, last := AllWrites(writes, files[..n]), writes(Dir(files[n]));
    FiledConcat(before, last, ws.dir);
    if CoversDir(last, ws.dir) {
      LastWriteWins(last, ws.dir);
      i := n;
    } else {
      i := LastWriter(writes, files[..n], ws);
      assert forall w :: w in last ==> w.dir != ws.dir;
    }
  }

  /** Filing more leaves what is filed under a directory they do not have. */
  lemma {:induction false} FiledConcat(a: seq<TFCWorkspace>, b: seq<TFCWorkspace>, dir: string)
    ensures CoversDir(b, dir) ==> dir in Filed(a + b) && dir in Filed(b) && Filed(a + b)[dir] == Filed(b)[dir]
    ensures !CoversDir(b, dir) ==>
              (dir in Filed(a + b) <==> dir in Filed(a)) && (dir in Filed(a) ==> Filed(a + b)[dir] == Filed(a)[dir])
  {
    if b == [] {
      assert a + b == a;
    } else {
      var n := |b| - 1;
      assert (a + b)[..|a + b| - 1] == a + b[..n] && b == b[..n] + [b[n]];
      FiledConcat(a, b[..n], dir);
      assert CoversDir(b, dir) <==> CoversDir(b[..n], dir) || b[n].dir == dir;
    }
  }

  /** Selection distributes over union of file lists. */
  lemma SelectionDistributes(workspaces: seq<TFCWorkspace>, glob: Glob, files: seq<string>, more: seq<string>)
    ensures Selection(workspaces, glob, files + more) ==
            Selection(workspaces, glob, files) + Selection(workspaces, glob, more)
  {
    forall ws
      ensures Selected(workspaces, glob, files + more, ws) <==>
              Selected(workspaces, glob, files, ws) || Selected(workspaces, glob, more, ws)
    {
      SelectionGrows(workspaces, glob, files, files + more, ws);
      SelectionGrows(workspaces, glob, more, files + more, ws);
      if Selected(workspaces, glob, files + more, ws) {
        var f :| f in files + more && SelectedIn(workspaces, glob, Dir(f), ws);
        assert f in files || f in more;
      }
    }
  }

  lemma SelectionGrows(workspaces: seq<TFCWorkspace>, glob: Glob, files: seq<string>, files': seq<string>,
                       ws: TFCWorkspace)
    requires forall f :: f in files ==> f in files'
    ensures Selected(workspaces, glob, files, ws) ==> Selected(workspaces, glob, files', ws)
  {
    if Selected(workspaces, glob, files, ws) {
      var f :| f in files && SelectedIn(workspaces, glob, Dir(f), ws);
      assert f in files';
    }
  }

  /** The directories triggered do not depend on the order or repetition of the
      modified files, nor on the order in which the map is read out. */
  lemma DirsDoNotDependOnOrder(workspaces: seq<TFCWorkspace>, glob: Glob, files: seq<string>, files': seq<string>,
                               triggered: seq<TFCWorkspace>, triggered': seq<TFCWorkspace>, dir: string)
    requires forall f :: f in files <==> f in files'
    requires OnePerDir(Selection(workspaces, glob, files), triggered)
    requires OnePerDir(Selection(workspaces, glob, files'), triggered')
    ensures CoversDir(triggered, dir) <==> CoversDir(triggered', dir)
  {
    forall ws
      ensures ws in Selection(workspaces, glob, files) <==> ws in Selection(workspaces, glob, files')
    {
      SelectionGrows(workspaces, glob, files, files', ws);
      SelectionGrows(workspaces, glob, files', files, ws);
    }
    SameDirs(Selection(workspaces, glob, files), Selection(workspaces, glob, files'), triggered, triggered', dir);
  }

  lemma SameDirs(selection: iset<TFCWorkspace>, selection': iset<TFCWorkspace>, triggered: seq<TFCWorkspace>,
                 triggered': seq<TFCWorkspace>, dir: string)
    requires forall ws :: ws in selection <==> ws in selection'
    requires OnePerDir(selection, triggered) && OnePerDir(selection', triggered')
    ensures CoversDir(triggered, dir) <==> CoversDir(triggered', dir)
  {
    if CoversDir(triggered, dir) {
      var t :| t in triggered && t.dir == dir;
      assert t in selection';
    }
    if CoversDir(triggered', dir) {
      var t :| t in triggered' && t.dir == dir;
      assert t in selection;
    }
  }

  /** No selected workspace is left out exactly when no two selected workspaces
      share a directory. */
  lemma NothingDroppedIff(workspaces: seq<TFCWorkspace>, glob: Glob, files: seq<string>, triggered: seq<TFCWorkspace>)
    requires LastPerDir(AllWrites(DirWrites(workspaces, glob), files), triggered)
    ensures (forall ws :: Selected(workspaces, glob, files, ws) ==> ws in triggered) <==>
            (forall a, b ::
               Selected(workspaces, glob, files, a) && Selected(workspaces, glob, files, b) && a.dir == b.dir
               ==> a == b)
  {
    LastPerDirIsSelection(workspaces, glob, files, triggered);
    NoneLeftOutIff(Selection(workspaces, glob, files), triggered);
    assert forall ws :: ws in Selection(workspaces, glob, files) <==> Selected(workspaces, glob, files, ws);
  }

  lemma NoneLeftOutIff(selection: iset<TFCWorkspace>, triggered: seq<TFCWorkspace>)
    requires OnePerDir(selection, triggered)
    ensures (forall ws :: ws in selection ==> ws in triggered) <==>
            (forall a, b :: a in selection && b in selection && a.dir == b.dir ==> a == b)
  {
    if forall ws :: ws in selection ==> ws in triggered {
      forall a, b | a in selection && b in selection && a.dir == b.dir
        ensures a == b
      {
        DistinctInTriggered(triggered, a, b);
      }
    } else {
      var ws :| ws in selection && ws !in triggered;
      assert CoversDir(triggered, ws.dir);
    }
  }

  /** Two workspaces of one directory, the second also triggered by it: for a file
      in that directory both are selected and the first is dropped. */
  lemma SharedDirDropsOne(a: string, b: string, dir: string, file: string, triggered: seq<TFCWorkspace>)
    requires a != b && dir != "" && dir != "." && '/' !in dir && file != "" && '/' !in file
    requires var workspaces := [TFCWorkspace(a, "org", dir, []), TFCWorkspace(b, "org", dir, [dir])];
             LastPerDir(AllWrites(DirWrites(workspaces, SAME_TEXT), [dir + "/" + file]), triggered)
    ensures var workspaces := [TFCWorkspace(a, "org", dir, []), TFCWorkspace(b, "org", dir, [dir])];
            && Selected(workspaces, SAME_TEXT, [dir + "/" + file], workspaces[0]) && workspaces[0] !in triggered
            && Selected(workspaces, SAME_TEXT, [dir + "/" + file], workspaces[1]) && workspaces[1] in triggered
  {
    var first, second := TFCWorkspace(a, "org", dir, []), TFCWorkspace(b, "org", dir, [dir]);
    var workspaces := [first, second];
    DirOfFile(dir, file);
    SharedDirWrites(first, second, dir);
    WritesSelected(workspaces, SAME_TEXT, [dir + "/" + file], first);
    WritesSelected(workspaces, SAME_TEXT, [dir + "/" + file], second);
    var writes := DirWrites(workspaces, SAME_TEXT);
    assert [dir + "/" + file][..0] == [];
    assert AllWrites(writes, [dir + "/" + file]) == AllWrites(writes, []) + writes(dir) == [first, second];
    assert [first, second][..1] == [first];
    assert Filed([first, second])[dir] == second;
  }

  /** A pattern that matches itself only. */
  const SAME_TEXT: Glob := (pattern, path) => if pattern == path then Matched else NotMatched

  lemma SharedDirWrites(first: TFCWorkspace, second: TFCWorkspace, dir: string)
    requires dir != "" && dir != "." && '/' !in dir
    requires first.dir == dir && second.dir == dir && first.triggerDirs == [] && second.triggerDirs == [dir]
    ensures DirWrites([first, second], SAME_TEXT)(dir) == [first, second]
  {
    SharedDirFound(first, second, dir);
    SharedDirTriggers(first, second, dir);
  }

  lemma SharedDirFound(first: TFCWorkspace, second: TFCWorkspace, dir: string)
    requires dir != "" && dir != "." && '/' !in dir && first.dir == dir && second.dir == dir
    ensures FoundFor([first, second], dir) == Some(0)
  {
    OneSegment(dir, dir);
    FirstOfEquals(first, second, dir);
    WorkspaceForDirUnique([first, second], dir, Some(0));
  }

  lemma SharedDirTriggers(first: TFCWorkspace, second: TFCWorkspace, dir: string)
    requires first.triggerDirs == [] && second.triggerDirs == [dir]
    ensures TriggerMatches([first, second], SAME_TEXT, dir) == [second]
  {
    assert [first, second][..1] == [first] && [first][..0] == [];
    assert TriggerMatches([first], SAME_TEXT, dir) == [];
    assert Copies(second, SAME_TEXT, dir, 1) == Copies(second, SAME_TEXT, dir, 0) + [second];
  }

  /** The directory of a path is what stands before its last slash, "." without one. */
  lemma DirOfFile(dir: string, file: string)
    requires '/' !in file
    ensures Dir(dir + "/" + file) == dir && Dir(file) == "."
  {
    var path := dir + "/" + file;
    assert path[|dir|] == '/';
    assert forall i :: |dir| < i < |path| ==> path[i] == file[i - |dir| - 1];
    assert LastSlash(path) == |dir|;
  }

  lemma DistinctInTriggered(triggered: seq<TFCWorkspace>, a: TFCWorkspace, b: TFCWorkspace)
    requires forall i, j :: 0 <= i < j < |triggered| ==> triggered[i].dir != triggered[j].dir
    requires a in triggered && b in triggered && a.dir == b.dir
    ensures a == b
  {
    var i :| 0 <= i < |triggered| && triggered[i] == a;
    var j :| 0 <= j < |triggered| && triggered[j] == b;
    assert !(i < j) && !(j < i);
  }

  // -------------------------------------------------------------- divergence

  /** ws.dir as hasChangesForWorkspace uses it: an empty dir stays empty. */
  function PrefixDir(dir: string): string {
    if dir != "" && !HasSuffix(dir, "/") then dir + "/" else dir
  }

  predicate IsRootDir(ws: TFCWorkspace) {
    PrefixDir(ws.dir) == "" || PrefixDir(ws.dir) == "/"
  }

  /** A pattern that matches, or that cannot be evaluated, counts. */
  predicate PatternTouched(glob: Glob, pattern: string, mf: string) {
    !glob(pattern, Dir(mf)).NotMatched? || !glob(pattern, mf).NotMatched?
  }

  /** The file lies under the workspace's directory, or in the repository root
      for a root workspace, or touches one of its trigger directories. */
  predicate TouchedBy(ws: TFCWorkspace, glob: Glob, mf: string) {
    || (if IsRootDir(ws) then Dir(mf) == "." else HasPrefix(mf, PrefixDir(ws.dir)))
    || exists i :: 0 <= i < |ws.triggerDirs| && PatternTouched(glob, ws.triggerDirs[i], mf)
  }

  predicate TouchedByAny(ws: TFCWorkspace, glob: Glob, files: seq<string>) {
    exists i :: 0 <= i < |files| && TouchedBy(ws, glob, files[i])
  }

  /** The file lies in the repository root, for a workspace of the root, or somewhere
      under the workspace's directory, for any other; or some trigger pattern, tried on
      its directory and on its path, matches or cannot be evaluated. */
  ghost predicate Concerns(ws: TFCWorkspace, glob: Glob, f: string) {
    || (ws.dir in {"", "/"} && Dir(f) == ".")
    || (ws.dir !in {"", "/"} && (if HasSuffix(ws.dir, "/") then ws.dir else ws.dir + "/") <= f)
    || exists p :: p in ws.triggerDirs && (glob(p, Dir(f)) != NotMatched || glob(p, f) != NotMatched)
  }

  /** A workspace counts as changed exactly if one of the files concerns it. */
  lemma ChangedIff(ws: TFCWorkspace, glob: Glob, files: seq<string>)
    ensures TouchedByAny(ws, glob, files) <==> exists f :: f in files && Concerns(ws, glob, f)
  {
    forall f
      ensures TouchedBy(ws, glob, f) <==> Concerns(ws, glob, f)
    {
      TouchedIff(ws, glob, f);
    }
    if f :| f in files && Concerns(ws, glob, f) {
      var i :| 0 <= i < |files| && files[i] == f;
      assert TouchedBy(ws, glob, files[i]);
    }
  }

  lemma TouchedIff(ws: TFCWorkspace, glob: Glob, f: string)
    ensures TouchedBy(ws, glob, f) <==> Concerns(ws, glob, f)
  {
    RootDirIff(ws);
    if p :| p in ws.triggerDirs && (glob(p, Dir(f)) != NotMatched || glob(p, f) != NotMatched) {
      var i :| 0 <= i < |ws.triggerDirs| && ws.triggerDirs[i] == p;
      assert PatternTouched(glob, ws.triggerDirs[i], f);
    }
    if i :| 0 <= i < |ws.triggerDirs| && PatternTouched(glob, ws.triggerDirs[i], f) {
      assert ws.triggerDirs[i] in ws.triggerDirs;
    }
  }

  lemma RootDirIff(ws: TFCWorkspace)
    ensures IsRootDir(ws) <==> ws.dir in {"", "/"}
  {
    assert ws.dir != "" && !HasSuffix(ws.dir, "/") ==> |PrefixDir(ws.dir)| > 1;
  }

  method HasChangesForWorkspace(ws: TFCWorkspace, glob: Glob, modifiedFiles: seq<string>) returns (changed: bool)
    ensures changed <==> TouchedByAny(ws, glob, modifiedFiles)
  {
    var wsDir := ws.dir;
    if wsDir != "" && !HasSuffix(wsDir, "/") {
      wsDir := wsDir + "/";
    }
    var isRootWS := wsDir == "" || wsDir == "/";
    for k := 0 to |modifiedFiles|
      invariant forall i :: 0 <= i < k ==> !TouchedBy(ws, glob, modifiedFiles[i])
    {
      var mf := modifiedFiles[k];
      var fileDir := Dir(mf);
      if isRootWS {
        if fileDir == "." {
          return true;
        }
      } else if HasPrefix(mf, wsDir) {
        return true;
      }
      for t := 0 to |ws.triggerDirs|
        invariant forall i :: 0 <= i < t ==> !PatternTouched(glob, ws.triggerDirs[i], mf)
      {
        var dirMatch := glob(ws.triggerDirs[t], fileDir);
        if dirMatch.BadPattern? {
          return true;
        }
        if dirMatch.Matched? {
          return true;
        }
        var fileMatch := glob(ws.triggerDirs[t], mf);
        if fileMatch.BadPattern? {
          return true;
        }
        if fileMatch.Matched? {
          return true;
        }
      }
    }
    return false;
  }
}
