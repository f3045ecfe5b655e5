/** pkg/tfc_trigger/workspace_allowdeny_list.go: which workspaces this
    installation may touch. */
module AllowDenyList {
  import opened Strings

  datatype Config = Config(workspaceAllowList: seq<string>, workspaceDenyList: seq<string>, defaultOrg: string)

  /** A list entry as it is compared: trimmed, lower-cased, and prefixed with the
      default organization (as configured, not lower-cased) if it names none. */
  function Entry(w: string, defaultOrg: string): string {
    var ws := ToLower(TrimSpace(w));
    if '/' in ws then ws else defaultOrg + "/" + ws
  }

  function FullName(workspace: string, org: string): string {
    org + "/" + workspace
  }

  predicate ListedIn(list: seq<string>, defaultOrg: string, fullName: string) {
    exists i :: 0 <= i < |list| && Entry(list[i], defaultOrg) == fullName
  }

  /** Denied beats allowed; an empty allow list allows everything else. */
  predicate Allowed(cfg: Config, workspace: string, org: string) {
    && !ListedIn(cfg.workspaceDenyList, cfg.defaultOrg, FullName(workspace, org))
    && (cfg.workspaceAllowList == [] || ListedIn(cfg.workspaceAllowList, cfg.defaultOrg, FullName(workspace, org)))
  }

  method NormalizedList(list: seq<string>, defaultOrg: string) returns (r: seq<string>)
    ensures |r| == |list| && forall i :: 0 <= i < |r| ==> r[i] == Entry(list[i], defaultOrg)
  {
    r := [];
    for i := 0 to |list|
      invariant |r| == i && forall j :: 0 <= j < i ==> r[j] == Entry(list[j], defaultOrg)
    {
      var ws := ToLower(TrimSpace(list[i]));
      if '/' !in ws {
        ws := defaultOrg + "/" + ws;
      }
      r := r + [ws];
    }
  }

  method IsWorkspaceAllowed(cfg: Config, workspace: string, org: string) returns (allowed: bool)
    ensures allowed <==> Allowed(cfg, workspace, org)
  {
    var allowList := NormalizedList(cfg.workspaceAllowList, cfg.defaultOrg);
    var denyList := NormalizedList(cfg.workspaceDenyList, cfg.defaultOrg);
    var fullName := org + "/" + workspace;
    for i := 0 to |denyList|
      invariant forall j :: 0 <= j < i ==> denyList[j] != fullName
    {
      if fullName == denyList[i] {
        return false;
      }
    }
    for i := 0 to |allowList|
      invariant forall j :: 0 <= j < i ==> allowList[j] != fullName
    {
      if fullName == allowList[i] {
        return true;
      }
    }
    return |allowList| == 0;
  }

  /** The entry, trimmed and lower-cased, is the full name, or is the name of a workspace
      of the default organization. */
  ghost predicate Names(entry: string, defaultOrg: string, workspace: string, org: string) {
    var text := ToLower(TrimSpace(entry));
    text == org + "/" + workspace || ('/' !in text && defaultOrg + "/" + text == org + "/" + workspace)
  }

  /** A workspace is allowed exactly if no deny entry names it and, unless there is no
      allow entry at all, some allow entry does. */
  lemma AllowedIff(cfg: Config, workspace: string, org: string)
    ensures Allowed(cfg, workspace, org) <==>
            && (forall e :: e in cfg.workspaceDenyList ==> !Names(e, cfg.defaultOrg, workspace, org))
            && (|cfg.workspaceAllowList| > 0 ==>
                  exists e :: e in cfg.workspaceAllowList && Names(e, cfg.defaultOrg, workspace, org))
  {
    ListedIff(cfg.workspaceDenyList, cfg.defaultOrg, workspace, org);
    ListedIff(cfg.workspaceAllowList, cfg.defaultOrg, workspace, org);
  }

  lemma ListedIff(list: seq<string>, defaultOrg: string, workspace: string, org: string)
    ensures ListedIn(list, defaultOrg, FullName(workspace, org)) <==>
            exists e :: e in list && Names(e, defaultOrg, workspace, org)
  {
    assert (org + "/" + workspace)[|org|] == '/';
    forall e
      ensures Entry(e, defaultOrg) == FullName(workspace, org) <==> Names(e, defaultOrg, workspace, org)
    {
    }
    if e :| e in list && Names(e, defaultOrg, workspace, org) {
      var i :| 0 <= i < |list| && list[i] == e;
      assert Entry(list[i], defaultOrg) == FullName(workspace, org);
    }
  }

  lemma {:induction false} TrimKeeps(s: string, c: char)
    requires c in s && !IsSpace(c)
    ensures c in TrimSpace(s)
  {
    if IsSpace(s[0]) {
      assert s == [s[0]] + s[1..];
      TrimKeeps(s[1..], c);
    } else if IsSpace(s[|s| - 1]) {
      assert s == s[..|s| - 1] + [s[|s| - 1]];
      TrimKeeps(s[..|s| - 1], c);
    }
  }

  /** Entries are lower-cased and the workspace is not: denying a workspace by
      its own full name works exactly if that name is lower-case and trimmed. */
  lemma DenyByFullNameIff(workspace: string, org: string, defaultOrg: string)
    ensures !Allowed(Config([], [FullName(workspace, org)], defaultOrg), workspace, org)
       <==> ToLower(TrimSpace(FullName(workspace, org))) == FullName(workspace, org)
  {
    var fullName := FullName(workspace, org);
    assert fullName[|org|] == '/';
    TrimKeeps(fullName, '/');
    var k :| 0 <= k < |TrimSpace(fullName)| && TrimSpace(fullName)[k] == '/';
    assert ToLower(TrimSpace(fullName))[k] == '/';
    assert Config([], [fullName], defaultOrg).workspaceDenyList[0] == fullName;
  }

  /** Trimmed and lower-case, as every entry is before it is compared. */
  predicate Normal(s: string) {
    ToLower(TrimSpace(s)) == s
  }

  lemma {:induction false} TrimmedEnds(s: string)
    ensures TrimSpace(s) != "" ==> !IsSpace(TrimSpace(s)[0]) && !IsSpace(TrimSpace(s)[|TrimSpace(s)| - 1])
  {
    if s != "" && IsSpace(s[0]) {
      TrimmedEnds(s[1..]);
    } else if s != "" && IsSpace(s[|s| - 1]) {
      TrimmedEnds(s[..|s| - 1]);
    }
  }

  /** Normalizing twice is normalizing once. */
  lemma NormalizedIsNormal(w: string)
    ensures Normal(ToLower(TrimSpace(w)))
  {
    TrimmedEnds(w);
    LowerIsTrimmed(TrimSpace(w));
    LowerTwice(TrimSpace(w));
  }

  lemma LowerTwice(s: string)
    ensures ToLower(ToLower(s)) == ToLower(s)
  {
    forall i | 0 <= i < |s|
      ensures ToLower(ToLower(s))[i] == ToLower(s)[i]
    {
      assert ToLower(ToLower(s))[i] == LowerChar(LowerChar(s[i]));
    }
  }

  lemma LowerKeepsSpace(c: char)
    ensures IsSpace(LowerChar(c)) <==> IsSpace(c)
  {
  }

  lemma LowerIsTrimmed(s: string)
    requires s != "" ==> !IsSpace(s[0]) && !IsSpace(s[|s| - 1])
    ensures TrimSpace(ToLower(s)) == ToLower(s)
  {
    if s != "" {
      LowerKeepsSpace(s[0]);
      LowerKeepsSpace(s[|s| - 1]);
    }
  }

  /** What follows the default organization and a slash, if the name starts so. */
  function AfterDefaultOrg(fullName: string, defaultOrg: string): Option<string> {
    if HasPrefix(fullName, defaultOrg + "/") then Some(fullName[|defaultOrg| + 1..]) else None
  }

  /** The full name is trimmed and lower-case, or is the default organization, in
      any case, followed by a trimmed, lower-case name without a slash. */
  predicate Listable(defaultOrg: string, fullName: string) {
    var rest := AfterDefaultOrg(fullName, defaultOrg);
    Normal(fullName) || (rest.Some? && Normal(rest.value) && '/' !in rest.value)
  }

  /** Exactly these workspaces can be named by a list entry at all; no other is ever
      denied, and a non-empty allow list shuts every other out. */
  lemma ListableIff(workspace: string, org: string, defaultOrg: string)
    ensures (exists w :: Entry(w, defaultOrg) == FullName(workspace, org)) <==>
            Listable(defaultOrg, FullName(workspace, org))
  {
    var fullName := FullName(workspace, org);
    assert fullName[|org|] == '/';
    if w :| Entry(w, defaultOrg) == fullName {
      EntryIsListable(w, defaultOrg);
    }
    if Normal(fullName) {
      assert Entry(fullName, defaultOrg) == fullName;
    } else if Listable(defaultOrg, fullName) {
      var rest := AfterDefaultOrg(fullName, defaultOrg).value;
      assert fullName == defaultOrg + "/" + rest;
      assert Entry(rest, defaultOrg) == fullName;
    }
  }

  lemma EntryIsListable(w: string, defaultOrg: string)
    ensures Listable(defaultOrg, Entry(w, defaultOrg))
  {
    NormalizedIsNormal(w);
    var ws := ToLower(TrimSpace(w));
    if '/' !in ws {
      assert Entry(w, defaultOrg)[..|defaultOrg + "/"|] == defaultOrg + "/";
      assert Entry(w, defaultOrg)[|defaultOrg| + 1..] == ws;
    }
  }

  /** So a workspace whose name has an upper-case letter is on no list. */
  lemma UpperCaseNamesAreNeverListed(list: seq<string>, defaultOrg: string, workspace: string, org: string)
    requires '/' !in workspace && ToLower(workspace) != workspace
    ensures !ListedIn(list, defaultOrg, FullName(workspace, org))
  {
    if ListedIn(list, defaultOrg, FullName(workspace, org)) {
      ListableIff(workspace, org, defaultOrg);
      ListableNameIsLowerCase(workspace, org, defaultOrg);
    }
  }

  lemma ListableNameIsLowerCase(workspace: string, org: string, defaultOrg: string)
    requires '/' !in workspace && Listable(defaultOrg, FullName(workspace, org))
    ensures ToLower(workspace) == workspace
  {
    var fullName := FullName(workspace, org);
    if Normal(fullName) {
      LowerCaseSuffix(TrimSpace(fullName), org + "/", workspace);
    } else {
      var rest := AfterDefaultOrg(fullName, defaultOrg).value;
      assert fullName == defaultOrg + "/" + rest;
      LastSlashSplitsOnce(defaultOrg, rest, org, workspace);
      assert "" + workspace == workspace;
      LowerCaseSuffix(TrimSpace(rest), "", workspace);
    }
  }

  lemma LowerCaseSuffix(text: string, before: string, s: string)
    requires ToLower(text) == before + s
    ensures ToLower(s) == s
  {
    forall k | 0 <= k < |s|
      ensures ToLower(s)[k] == s[k]
    {
      assert s[k] == ToLower(text)[|before| + k] == LowerChar(text[|before| + k]);
    }
  }
}
