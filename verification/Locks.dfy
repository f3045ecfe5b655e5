/** The workspace lock of pkg/tfc_trigger/tfc_trigger.go: tags
    "tfbuddylock-<IID>" that an apply takes, an unlock command, a merge cleanup
    or the discovery of a merged or closed owner releases. */
module Locks {
  import opened Strings
  import opened TagClient

  const LOCK_PREFIX := "tfbuddylock"
  const LOCK_STEM := "tfbuddylock-"

  function LockTag(mr: nat): string {
    LOCK_STEM + Decimal(mr)
  }

  // -------------------------------------------------------- reading the owner

  function LeadingDigits(s: string): (r: string)
    ensures r <= s && forall i :: 0 <= i < |r| ==> IsDigit(r[i])
    ensures |r| < |s| ==> !IsDigit(s[|r|])
  {
    if s != "" && IsDigit(s[0]) then [s[0]] + LeadingDigits(s[1..]) else ""
  }

  /** The digits captured by the leftmost match of "tfbuddylock\-(\d+)" at or
      after from, or "" if there is no match. */
  function OwnerFrom(tag: string, from: nat): string
    requires from <= |tag|
    decreases |tag| - from
  {
    if OccursAt(tag, LOCK_STEM, from) && LeadingDigits(tag[from + |LOCK_STEM|..]) != "" then
      LeadingDigits(tag[from + |LOCK_STEM|..])
    else if from < |tag| then OwnerFrom(tag, from + 1)
    else ""
  }

  function Owner(tag: string): string {
    OwnerFrom(TrimSpace(tag), 0)
  }

  /** The tag names another merge request. */
  predicate Foreign(tag: string, thisMR: string) {
    Owner(tag) != "" && Owner(tag) != thisMR
  }

  function LockingMR(tags: Tags, thisMR: string): string {
    if tags == [] then ""
    else if Foreign(tags[0], thisMR) then Owner(tags[0])
    else LockingMR(tags[1..], thisMR)
  }

  /** The owner of the first tag that names another merge request, "" if none. */
  method FindLockingMR(tags: Tags, thisMR: string) returns (mr: string)
    ensures mr == LockingMR(tags, thisMR)
    ensures mr == "" <==> forall t :: t in tags ==> !Foreign(t, thisMR)
    ensures mr != "" ==> exists i :: 0 <= i < |tags| && Foreign(tags[i], thisMR) && mr == Owner(tags[i])
                                     && (forall j :: 0 <= j < i ==> !Foreign(tags[j], thisMR))
  {
    for i := 0 to |tags|
      invariant forall j :: 0 <= j < i ==> !Foreign(tags[j], thisMR)
      invariant LockingMR(tags[i..], thisMR) == LockingMR(tags, thisMR)
    {
      var lockingMR := Owner(tags[i]);
      assert tags[i..][0] == tags[i] && tags[i..][1..] == tags[i + 1..];
      if lockingMR == "" || lockingMR == thisMR {
        continue;
      }
      return lockingMR;
    }
    return "";
  }

  lemma {:induction false} LockingMRFound(tags: Tags, thisMR: string)
    ensures LockingMR(tags, thisMR) == "" <==> forall t :: t in tags ==> !Foreign(t, thisMR)
    ensures LockingMR(tags, thisMR) != "" ==>
              exists t :: t in tags && Foreign(t, thisMR) && LockingMR(tags, thisMR) == Owner(t)
  {
    if tags != [] {
      LockingMRFound(tags[1..], thisMR);
      assert tags == [tags[0]] + tags[1..];
    }
  }

  lemma {:induction false} DigitsLead(digits: string)
    requires forall i :: 0 <= i < |digits| ==> IsDigit(digits[i])
    ensures LeadingDigits(digits) == digits
  {
    if digits != "" {
      DigitsLead(digits[1..]);
    }
  }

  /** A lock tag names its merge request. */
  lemma OwnerOfLockTag(mr: nat)
    ensures Owner(LockTag(mr)) == Decimal(mr) != ""
  {
    var tag := LockTag(mr);
    assert tag[|tag| - 1] == Decimal(mr)[|Decimal(mr)| - 1];
    assert TrimSpace(tag) == tag;
    assert tag[|LOCK_STEM|..] == Decimal(mr);
    DigitsLead(Decimal(mr));
  }

  /** A lock is written at i, with these digits and no more. */
  ghost predicate WrittenAt(text: string, i: nat, digits: string) {
    && OccursAt(text, LOCK_STEM, i) && digits != "" && OccursAt(text, digits, i + |LOCK_STEM|)
    && (forall k :: 0 <= k < |digits| ==> IsDigit(digits[k]))
    && var end := i + |LOCK_STEM| + |digits|;
       end < |text| ==> !IsDigit(text[end])
  }

  /** Any text names the owner whose digits follow the first "tfbuddylock-" that is
      followed by a digit, and nobody if there is none. */
  lemma OwnerExactly(tag: string)
    ensures NamesOwner(TrimSpace(tag), Owner(tag))
  {
    OwnerFromExactly(TrimSpace(tag), 0);
  }

  /** owner is what the text names, "" for nobody. */
  ghost predicate NamesOwner(text: string, owner: string) {
    if owner == "" then forall i: nat, d :: !WrittenAt(text, i, d)
    else exists i: nat :: WrittenAt(text, i, owner) && forall j: nat, d :: j < i ==> !WrittenAt(text, j, d)
  }

  lemma {:induction false} OwnerFromExactly(text: string, from: nat)
    requires from <= |text|
    ensures OwnerFrom(text, from) == "" ==> forall i: nat, d :: from <= i ==> !WrittenAt(text, i, d)
    ensures OwnerFrom(text, from) != "" ==>
              exists i: nat :: from <= i && WrittenAt(text, i, OwnerFrom(text, from))
                               && forall j: nat, d :: from <= j < i ==> !WrittenAt(text, j, d)
    decreases |text| - from
  {
    WrittenHere(text, from);
    if OwnerFrom(text, from) == "" || !WrittenAt(text, from, OwnerFrom(text, from)) {
      if from < |text| {
        OwnerFromExactly(text, from + 1);
      }
    }
  }

  lemma FirstDigit(text: string, i: nat, digits: string)
    requires WrittenAt(text, i, digits)
    ensures i + |LOCK_STEM| < |text| && IsDigit(text[i + |LOCK_STEM|])
  {
    CharsAt(text, digits, i + |LOCK_STEM|);
    assert text[i + |LOCK_STEM|] == digits[0];
  }

  lemma WrittenHere(text: string, i: nat)
    requires i <= |text|
    ensures if OccursAt(text, LOCK_STEM, i) && LeadingDigits(text[i + |LOCK_STEM|..]) != ""
            then WrittenAt(text, i, LeadingDigits(text[i + |LOCK_STEM|..]))
            else forall d :: !WrittenAt(text, i, d)
  {
    if OccursAt(text, LOCK_STEM, i) {
      var rest := text[i + |LOCK_STEM|..];
      var digits := LeadingDigits(rest);
      assert OccursAt(text, digits, i + |LOCK_STEM|) by {
        assert rest[..|digits|] == digits;
      }
      if digits == "" {
        forall d
          ensures !WrittenAt(text, i, d)
        {
          if WrittenAt(text, i, d) {
            FirstDigit(text, i, d);
          }
        }
      }
    }
  }

  lemma LockTagInjective(a: nat, b: nat)
    ensures LockTag(a) == LockTag(b) <==> a == b
  {
    assert LockTag(a)[|LOCK_STEM|..] == Decimal(a) && LockTag(b)[|LOCK_STEM|..] == Decimal(b);
    DecimalInjective(a, b);
  }

  /** Substring queries confuse merge requests whose numbers extend one another:
      a query for the tag of a also lists the tag of b exactly when the decimal
      form of a is a prefix of that of b. */
  lemma QueryHitsExtensions(a: nat, b: nat)
    ensures Includes(LockTag(b), LockTag(a)) <==> Decimal(a) <= Decimal(b)
  {
    var tag, q := LockTag(b), LockTag(a);
    if Includes(tag, q) {
      LockTagOccursInFront(a, b, Index(tag, q));
      assert tag[..|q|] == q;
      assert Decimal(b) == tag[|LOCK_STEM|..] && Decimal(a) == q[|LOCK_STEM|..];
      assert Decimal(b)[..|Decimal(a)|] == Decimal(a);
    }
    if Decimal(a) <= Decimal(b) {
      assert OccursAt(tag, q, 0);
    }
  }

  lemma LockTagOccursInFront(a: nat, b: nat, i: nat)
    requires OccursAt(LockTag(b), LockTag(a), i)
    ensures i == 0
  {
    var tag := LockTag(b);
    CharsAt(tag, LockTag(a), i);
    assert tag[i] == 't';
    assert forall k :: |LOCK_STEM| <= k < |tag| ==> tag[k] == Decimal(b)[k - |LOCK_STEM|] && IsDigit(tag[k]);
    assert forall k :: 0 < k < |LOCK_STEM| ==> LOCK_STEM[k] != 't';
  }

  lemma LockTagIncludesPrefix(mr: nat)
    ensures Includes(LockTag(mr), LOCK_PREFIX)
  {
    assert OccursAt(LockTag(mr), LOCK_PREFIX, 0);
  }

  lemma QueryUnderPrefix(tag: string, mr: string)
    requires Includes(tag, LOCK_STEM + mr)
    ensures Includes(tag, LOCK_PREFIX)
  {
    var q := LOCK_STEM + mr;
    var i: nat :| OccursAt(tag, q, i);
    assert q[..|LOCK_PREFIX|] == LOCK_PREFIX;
    assert tag[i..i + |LOCK_PREFIX|] == q[..|LOCK_PREFIX|];
    assert OccursAt(tag, LOCK_PREFIX, i);
  }

  // --------------------------------------------------------------- one owner

  predicate IsLock(tag: string) {
    Includes(tag, LOCK_PREFIX)
  }

  /** Every tag the prefix query lists is a well-formed lock, and all are the same. */
  ghost predicate OneLock(tags: Tags) {
    && (forall t :: t in tags && IsLock(t) ==> exists mr: nat :: t == LockTag(mr))
    && (forall t, t' :: t in tags && IsLock(t) && t' in tags && IsLock(t') ==> t == t')
  }

  ghost predicate Unlocked(tags: Tags) {
    forall t :: t in tags ==> !IsLock(t)
  }

  ghost predicate HeldBy(tags: Tags, mr: nat) {
    LockTag(mr) in tags
  }

  lemma HeldOrUnlocked(tags: Tags)
    requires OneLock(tags)
    ensures Unlocked(tags) || exists mr: nat :: HeldBy(tags, mr)
    ensures forall a: nat, b: nat :: HeldBy(tags, a) && HeldBy(tags, b) ==> a == b
  {
    if t :| t in tags && IsLock(t) {
      var mr: nat :| t == LockTag(mr);
      assert HeldBy(tags, mr);
    }
    forall a: nat, b: nat | HeldBy(tags, a) && HeldBy(tags, b)
      ensures a == b
    {
      LockTagIncludesPrefix(a);
      LockTagIncludesPrefix(b);
      LockTagInjective(a, b);
    }
  }

  /** With at most one lock, held by a, the check reports a unless a is asking. */
  lemma CheckSeesOwner(tags: Tags, a: nat, mr: nat)
    requires OneLock(tags) && HeldBy(tags, a)
    ensures LockingMR(Matching(tags, LOCK_PREFIX), Decimal(mr)) == if a == mr then "" else Decimal(a)
  {
    var listed := Matching(tags, LOCK_PREFIX);
    LockTagIncludesPrefix(a);
    assert LockTag(a) in listed;
    forall t | t in listed
      ensures t == LockTag(a)
    {
      assert IsLock(t) && IsLock(LockTag(a));
    }
    UniformCheck(listed, a, mr);
  }

  lemma UniformCheck(listed: Tags, a: nat, mr: nat)
    requires LockTag(a) in listed && forall t :: t in listed ==> t == LockTag(a)
    ensures LockingMR(listed, Decimal(mr)) == if a == mr then "" else Decimal(a)
  {
    OwnerOfLockTag(a);
    DecimalInjective(a, mr);
    LockingMRFound(listed, Decimal(mr));
  }

  lemma CheckSeesNobody(tags: Tags, mr: nat)
    requires Unlocked(tags)
    ensures LockingMR(Matching(tags, LOCK_PREFIX), Decimal(mr)) == ""
  {
    LockingMRFound(Matching(tags, LOCK_PREFIX), Decimal(mr));
  }
}
