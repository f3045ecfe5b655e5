/** String operations of the Go standard library that the repository leans on,
    and the one fact behind every printer/parser pair: where a delimiter is
    first found in a text that was built around it. */
module Strings {

  datatype Option<+T> = None | Some(value: T) {
    function GetOr(default: T): T {
      if Some? then value else default
    }
  }

  datatype Result<+T> = Ok(value: T) | Err(error: string)

  /** How a remote call that changes something ends: done and known to be, done
      but reported as an error, or not done. */
  datatype Reply = Seen | Unseen | Failed

  // ------------------------------------------------------------------ search

  /** Positions below n in ascending order. */
  ghost predicate Ascending(at: seq<nat>, n: nat) {
    (forall k :: 0 <= k < |at| ==> at[k] < n) && (forall k, l :: 0 <= k < l < |at| ==> at[k] < at[l])
  }

  lemma AscendingSnoc(at: seq<nat>, n: nat)
    requires Ascending(at, n)
    ensures Ascending(at, n + 1) && Ascending(at + [n], n + 1)
    ensures n !in at && forall i: nat :: i in at + [n] <==> i in at || i == n
  {
  }

  predicate OccursAt(s: string, p: string, i: nat) {
    i + |p| <= |s| && s[i..i + |p|] == p
  }

  ghost predicate Contains(s: string, p: string) {
    exists i: nat :: OccursAt(s, p, i)
  }

  function IndexFrom(s: string, p: string, from: nat): (r: int)
    requires from <= |s|
    ensures r == -1 ==> forall i: nat :: from <= i ==> !OccursAt(s, p, i)
    ensures r != -1 ==> from <= r && OccursAt(s, p, r) && forall i: nat :: from <= i < r ==> !OccursAt(s, p, i)
    decreases |s| - from
  {
    if OccursAt(s, p, from) then from
    else if from == |s| then -1
    else IndexFrom(s, p, from + 1)
  }

  /** Position of the first occurrence of p in s, or -1. */
  function Index(s: string, p: string): (r: int)
    ensures r == -1 <==> !Contains(s, p)
    ensures r != -1 ==> r >= 0 && OccursAt(s, p, r) && forall i: nat :: i < r ==> !OccursAt(s, p, i)
  {
    IndexFrom(s, p, 0)
  }

  predicate Includes(s: string, p: string)
    ensures Includes(s, p) <==> Contains(s, p)
  {
    Index(s, p) != -1
  }

  predicate HasPrefix(s: string, p: string) {
    |p| <= |s| && s[..|p|] == p
  }

  predicate HasSuffix(s: string, p: string) {
    |p| <= |s| && s[|s| - |p|..] == p
  }

  /** No proper non-empty prefix of p is also a suffix of p. */
  ghost predicate Unbordered(p: string) {
    forall k: nat :: 0 < k < |p| ==> p[..k] != p[|p| - k..]
  }

  lemma FirstIndexIs(s: string, p: string, k: nat)
    requires OccursAt(s, p, k)
    requires forall i: nat :: i < k ==> !OccursAt(s, p, i)
    ensures Index(s, p) == k
  {
  }

  /** A pattern whose first character never recurs in it has no border. */
  lemma UniqueHeadUnbordered(p: string)
    requires |p| > 0
    requires forall i: nat :: 0 < i < |p| ==> p[i] != p[0]
    ensures Unbordered(p)
  {
    forall k: nat | 0 < k < |p|
      ensures p[..k] != p[|p| - k..]
    {
      assert p[..k][0] == p[0] && p[|p| - k..][0] == p[|p| - k];
    }
  }

  /** An occurrence inside s + t lies in s, lies in t, or straddles the seam. */
  lemma OccursInConcat(s: string, t: string, p: string, i: nat)
    ensures i + |p| <= |s| ==> (OccursAt(s + t, p, i) <==> OccursAt(s, p, i))
    ensures i >= |s| ==> (OccursAt(s + t, p, i) <==> OccursAt(t, p, i - |s|))
  {
    if i + |p| <= |s| {
      assert (s + t)[i..i + |p|] == s[i..i + |p|];
    }
    if i >= |s| && i + |p| <= |s + t| {
      assert (s + t)[i..i + |p|] == t[i - |s|..i - |s| + |p|];
    }
  }

  lemma CrossingUsesWall(s: string, c: char, t: string, p: string, i: nat)
    requires OccursAt(s + [c] + t, p, i) && i <= |s| < i + |p|
    ensures c in p
  {
    assert p[|s| - i] == (s + [c] + t)[|s|];
  }

  /** A character that p does not use is a wall no occurrence of p can cross. */
  lemma WallBlocks(s: string, c: char, t: string, p: string)
    requires c !in p
    ensures Contains(s + [c] + t, p) <==> Contains(s, p) || Contains(t, p) || p == ""
  {
    var w := s + [c] + t;
    if Contains(w, p) && p != "" {
      var i: nat :| OccursAt(w, p, i);
      if i <= |s| < i + |p| {
        CrossingUsesWall(s, c, t, p, i);
      } else if i + |p| <= |s| {
        OccursInConcat(s, [c] + t, p, i);
        assert w == s + ([c] + t);
        assert OccursAt(s, p, i);
      } else {
        OccursInConcat(s + [c], t, p, i);
        assert OccursAt(t, p, i - |s| - 1);
      }
    }
    if Contains(s, p) {
      var i: nat :| OccursAt(s, p, i);
      OccursInConcat(s, [c] + t, p, i);
      assert w == s + ([c] + t);
      assert OccursAt(w, p, i);
    }
    if Contains(t, p) {
      var i: nat :| OccursAt(t, p, i);
      OccursInConcat(s + [c], t, p, i + |s| + 1);
      assert OccursAt(w, p, i + |s| + 1);
    }
    if p == "" {
      assert OccursAt(w, p, 0);
    }
  }

  lemma OccursInPrefix(s: string, n: nat, p: string, i: nat)
    requires OccursAt(s, p, i) && i + |p| <= n <= |s|
    ensures Contains(s[..n], p)
  {
    assert s[..n][i..i + |p|] == s[i..i + |p|];
    assert OccursAt(s[..n], p, i);
  }

  lemma ContainsExtends(s: string, t: string, p: string)
    ensures Contains(s, p) ==> Contains(s + t, p)
    ensures Contains(t, p) ==> Contains(s + t, p)
  {
    if Contains(s, p) {
      var i: nat :| OccursAt(s, p, i);
      OccursInConcat(s, t, p, i);
      assert OccursAt(s + t, p, i);
    }
    if Contains(t, p) {
      var i: nat :| OccursAt(t, p, i);
      OccursInConcat(s, t, p, i + |s|);
      assert OccursAt(s + t, p, i + |s|);
    }
  }

  /** The lemma all parsers below rest on: searching a text for an unbordered
      delimiter finds the one that was printed exactly when nothing before it
      already contained the delimiter. */
  lemma FirstIndexAfter(s: string, p: string, t: string)
    requires p != "" && Unbordered(p)
    ensures Index(s + p + t, p) == |s| <==> !Contains(s, p)
    ensures Contains(s, p) ==> 0 <= Index(s + p + t, p) < |s|
  {
    var w := s + p + t;
    assert OccursAt(w, p, |s|);
    if Contains(s, p) {
      var i: nat :| OccursAt(s, p, i);
      OccursInConcat(s, p + t, p, i);
      assert w == s + (p + t);
      assert OccursAt(w, p, i);
    } else {
      forall i: nat | i < |s|
        ensures !OccursAt(w, p, i)
      {
        NoEarlyOccurrence(s, p, t, i);
      }
    }
  }

  lemma NoEarlyOccurrence(s: string, p: string, t: string, i: nat)
    requires p != "" && Unbordered(p) && !Contains(s, p) && i < |s|
    ensures !OccursAt(s + p + t, p, i)
  {
    assert s + p + t == s + (p + t);
    OccursInConcat(s, p + t, p, i);
    if i + |p| > |s| && OccursAt(s + p + t, p, i) {
      StraddleGivesBorder(s, p, t, i);
    }
  }

  lemma StraddleGivesBorder(s: string, p: string, t: string, i: nat)
    requires i < |s| < i + |p|
    requires OccursAt(s + p + t, p, i)
    ensures !Unbordered(p)
  {
    var w, k := s + p + t, i + |p| - |s|;
    assert w[|s|..|s| + k] == p[..k];
    assert w[i..i + |p|][|p| - k..] == w[|s|..|s| + k];
  }

  lemma BeforeFirstIndex(s: string, p: string)
    requires p != "" && Contains(s, p)
    ensures !Contains(s[..Index(s, p)], p)
  {
    var i := Index(s, p);
    forall k: nat
      ensures !OccursAt(s[..i], p, k)
    {
      OccursInConcat(s[..i], s[i..], p, k);
      assert s == s[..i] + s[i..];
    }
  }

  lemma AbsentHead(s: string, p: string)
    requires p != "" && p[0] !in s
    ensures !Contains(s, p)
  {
    forall i: nat
      ensures !OccursAt(s, p, i)
    {
      if OccursAt(s, p, i) {
        CharsAt(s, p, i);
      }
    }
  }

  /** A text without some character of p does not contain p. */
  lemma AbsentChar(s: string, p: string, c: char)
    requires c in p && c !in s
    ensures !Contains(s, p)
  {
    forall i: nat
      ensures !OccursAt(s, p, i)
    {
      if OccursAt(s, p, i) {
        OccurrenceBrings(s, p, i, c);
      }
    }
  }

  lemma OccurrenceBrings(s: string, p: string, i: nat, c: char)
    requires OccursAt(s, p, i) && c in p
    ensures c in s
  {
    var k :| 0 <= k < |p| && p[k] == c;
    assert s[i..i + |p|][k] == s[i + k];
  }

  lemma CharsAt(s: string, p: string, i: nat)
    requires OccursAt(s, p, i)
    ensures forall j :: i <= j < i + |p| ==> s[j] == p[j - i]
    ensures p != "" ==> p[0] in s
  {
    assert p != "" ==> p[0] == s[i..i + |p|][0] == s[i];
    forall j | i <= j < i + |p|
      ensures s[j] == p[j - i]
    {
      assert s[i..i + |p|][j - i] == s[j];
    }
  }

  /** Three adjacent occurrences are one occurrence of the concatenation. */
  lemma AdjacentOccurrences(s: string, a: string, b: string, c: string, i: nat)
    requires OccursAt(s, a, i) && OccursAt(s, b, i + |a|) && OccursAt(s, c, i + |a| + |b|)
    ensures s == s[..i] + (a + b + c) + s[i + |a| + |b| + |c|..]
  {
    var j, k, l := i + |a|, i + |a| + |b|, i + |a| + |b| + |c|;
    assert s[i..l] == s[i..j] + s[j..k] + s[k..l];
    assert s == s[..i] + s[i..l] + s[l..];
  }

  // --------------------------------------------------------------- splitting

  /** strings.Split for a one-character separator. */
  function Split(s: string, c: char): (parts: seq<string>)
    ensures |parts| >= 1
  {
    if s == "" then [""]
    else
      var rest := Split(s[1..], c);
      if s[0] == c then [""] + rest else [[s[0]] + rest[0]] + rest[1..]
  }

  function Join(parts: seq<string>, sep: string): string {
    if |parts| == 0 then ""
    else if |parts| == 1 then parts[0]
    else parts[0] + sep + Join(parts[1..], sep)
  }

  function Count(s: string, c: char): nat {
    if s == "" then 0 else (if s[0] == c then 1 else 0) + Count(s[1..], c)
  }

  lemma {:induction false} SplitCounts(s: string, c: char)
    ensures |Split(s, c)| == Count(s, c) + 1
  {
    if s != "" {
      SplitCounts(s[1..], c);
    }
  }

  lemma {:induction false} CountConcat(s: string, t: string, c: char)
    ensures Count(s + t, c) == Count(s, c) + Count(t, c)
  {
    if s == "" {
      assert s + t == t;
    } else {
      assert (s + t)[1..] == s[1..] + t;
      CountConcat(s[1..], t, c);
    }
  }

  lemma {:induction false} CountPositive(s: string, c: char)
    ensures Count(s, c) > 0 <==> c in s
  {
    if s != "" {
      CountPositive(s[1..], c);
      assert s == [s[0]] + s[1..];
    }
  }

  /** The last slash splits a path in one way only. */
  lemma LastSlashSplitsOnce(a: string, b: string, c: string, d: string)
    requires a + "/" + b == c + "/" + d && '/' !in b && '/' !in d
    ensures a == c && b == d
  {
    var s := a + "/" + b;
    SlashNotLater(a, b, c, d);
    SlashNotLater(c, d, a, b);
    assert a == s[..|a|] && c == s[..|c|] && b == s[|a| + 1..] && d == s[|c| + 1..];
  }

  lemma SlashNotLater(a: string, b: string, c: string, d: string)
    requires a + "/" + b == c + "/" + d && '/' !in b
    ensures |c| <= |a|
  {
    assert (c + "/" + d)[|c|] == '/';
    assert forall i :: |a| < i < |a + "/" + b| ==> (a + "/" + b)[i] == b[i - |a| - 1];
  }

  // ---------------------------------------------------------------- trimming

  function TrimRight(s: string, c: char): (r: string)
    ensures r <= s
    ensures r == "" || r[|r| - 1] != c
    ensures forall i :: |r| <= i < |s| ==> s[i] == c
  {
    if s != "" && s[|s| - 1] == c then TrimRight(s[..|s| - 1], c) else s
  }

  predicate IsSpace(c: char) {
    c in " \t\n\r" || c == '\U{0B}' || c == '\U{0C}' || c == '\U{85}' || c == '\U{A0}'
  }

  function TrimSpace(s: string): string {
    if s != "" && IsSpace(s[0]) then TrimSpace(s[1..])
    else if s != "" && IsSpace(s[|s| - 1]) then TrimSpace(s[..|s| - 1])
    else s
  }

  function LowerChar(c: char): char {
    if 'A' <= c <= 'Z' then (c as int + 32) as char else c
  }

  function ToLower(s: string): (r: string)
    ensures |r| == |s|
    ensures forall i :: 0 <= i < |s| ==> r[i] == LowerChar(s[i])
  {
    if s == "" then "" else [LowerChar(s[0])] + ToLower(s[1..])
  }

  // ---------------------------------------------------------------- decimals

  predicate IsDigit(c: char) {
    '0' <= c <= '9'
  }

  /** %d of a non-negative integer. */
  function Decimal(n: nat): (s: string)
    ensures s != ""
    ensures forall i :: 0 <= i < |s| ==> IsDigit(s[i])
  {
    if n < 10 then [('0' as int + n) as char]
    else Decimal(n / 10) + [('0' as int + n % 10) as char]
  }

  /** Value of a digit string. */
  function DigitsValue(s: string): nat
    requires forall i :: 0 <= i < |s| ==> IsDigit(s[i])
  {
    if s == "" then 0
    else
      assert IsDigit(s[|s| - 1]);
      10 * DigitsValue(s[..|s| - 1]) + (s[|s| - 1] as int - '0' as int)
  }

  lemma {:induction false} DecimalRoundTrip(n: nat)
    ensures DigitsValue(Decimal(n)) == n
  {
    if n >= 10 {
      DecimalRoundTrip(n / 10);
      assert Decimal(n)[..|Decimal(n)| - 1] == Decimal(n / 10);
    } else {
      assert Decimal(n)[..0] == "";
    }
  }

  lemma DecimalInjective(m: nat, n: nat)
    ensures Decimal(m) == Decimal(n) <==> m == n
  {
    DecimalRoundTrip(m);
    DecimalRoundTrip(n);
  }
}
