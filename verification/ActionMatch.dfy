/**
 Counting matched actions: a single rolling row computes the length of a longest common
 subsequence of the expected and the observed action names.
 */
module ActionMatch {

  type Action = string

  // ----- Subsequences, by the positions they are read from -----

  ghost predicate ReadsFrom(c: seq<Action>, s: seq<Action>, at: seq<nat>) {
    && |at| == |c|
    && (forall k :: 0 <= k < |at| ==> at[k] < |s| && c[k] == s[at[k]])
    && (forall k, l :: 0 <= k < l < |at| ==> at[k] < at[l])
  }

  ghost predicate IsSubsequence(c: seq<Action>, s: seq<Action>) {
    exists at :: ReadsFrom(c, s, at)
  }

  ghost predicate IsCommon(c: seq<Action>, a: seq<Action>, b: seq<Action>) {
    IsSubsequence(c, a) && IsSubsequence(c, b)
  }

  /** `n` is the length of some common subsequence, and of no longer one. */
  ghost predicate IsLongestCommon(n: nat, a: seq<Action>, b: seq<Action>) {
    && (exists c :: |c| == n && IsCommon(c, a, b))
    && (forall c :: IsCommon(c, a, b) ==> |c| <= n)
  }

  // ----- The recurrence behind the rolling row -----

  function Max(x: nat, y: nat): nat {
    if x >= y then x else y
  }

  /** The entry for the first `i` expected and the first `j` observed actions. */
  function Entry(a: seq<Action>, b: seq<Action>, i: nat, j: nat): nat
    requires i <= |a| && j <= |b|
  {
    if i == 0 || j == 0 then 0
    else if a[i - 1] == b[j - 1] then Entry(a, b, i - 1, j - 1) + 1
    else Max(Entry(a, b, i - 1, j), Entry(a, b, i, j - 1))
  }

  method MatchCount(expected: seq<Action>, observed: seq<Action>) returns (count: nat)
    ensures count == Entry(expected, observed, |expected|, |observed|)
    ensures IsLongestCommon(count, expected, observed)
  {
    var previous := seq(|observed| + 1, _ => 0);
    for i := 0 to |expected|
      invariant |previous| == |observed| + 1
      invariant forall j :: 0 <= j <= |observed| ==> previous[j] == Entry(expected, observed, i, j)
    {
      var current: seq<nat> := [0];
      for j := 1 to |observed| + 1
        invariant |current| == j
        invariant forall l :: 0 <= l < j ==> current[l] == Entry(expected, observed, i + 1, l)
      {
        if expected[i] == observed[j - 1] {
          current := current + [previous[j - 1] + 1];
        } else {
          current := current + [Max(previous[j], current[j - 1])];
        }
      }
      previous := current;
    }
    count := previous[|observed|];
    EntryIsLongest(expected, observed);
  }

  /** Dropping the last item of a subsequence leaves one that ends strictly earlier. */
  lemma DropLast(c: seq<Action>, s: seq<Action>, at: seq<nat>)
    requires ReadsFrom(c, s, at) && c != []
    ensures ReadsFrom(c[..|c| - 1], s[..at[|c| - 1]], at[..|c| - 1])
  {
  }

  lemma Shorten(c: seq<Action>, s: seq<Action>, at: seq<nat>, n: nat)
    requires ReadsFrom(c, s, at) && n <= |s| && (c != [] ==> at[|c| - 1] < n)
    ensures ReadsFrom(c, s[..n], at)
  {
  }

  lemma {:induction false} NoCommonIsLonger(
    a: seq<Action>, b: seq<Action>, i: nat, j: nat, c: seq<Action>, p: seq<nat>, q: seq<nat>)
    requires i <= |a| && j <= |b| && ReadsFrom(c, a[..i], p) && ReadsFrom(c, b[..j], q)
    ensures |c| <= Entry(a, b, i, j)
    decreases i + j
  {
    if c == [] {
      return;
    }
    var last := |c| - 1;
    assert p[last] < i && q[last] < j;
    if a[i - 1] == b[j - 1] {
      DropLast(c, a[..i], p);
      DropLast(c, b[..j], q);
      Extend(c[..last], a[..p[last]], p[..last], a[..i - 1]);
      Extend(c[..last], b[..q[last]], q[..last], b[..j - 1]);
      NoCommonIsLonger(a, b, i - 1, j - 1, c[..last], p[..last], q[..last]);
    } else if p[last] < i - 1 {
      Shorten(c, a[..i], p, i - 1);
      assert a[..i][..i - 1] == a[..i - 1];
      NoCommonIsLonger(a, b, i - 1, j, c, p, q);
    } else {
      assert c[last] == a[i - 1];
      assert q[last] != j - 1;
      Shorten(c, b[..j], q, j - 1);
      assert b[..j][..j - 1] == b[..j - 1];
      NoCommonIsLonger(a, b, i, j - 1, c, p, q);
    }
  }

  lemma Extend(c: seq<Action>, s: seq<Action>, at: seq<nat>, t: seq<Action>)
    requires ReadsFrom(c, s, at) && s <= t
    ensures ReadsFrom(c, t, at)
  {
  }

  lemma Append(c: seq<Action>, s: seq<Action>, at: seq<nat>, n: nat)
    requires n < |s| && ReadsFrom(c, s[..n], at)
    ensures ReadsFrom(c + [s[n]], s[..n + 1], at + [n])
  {
  }

  /** The recurrence is attained: a common subsequence of that length, with its positions. */
  lemma {:induction false} EntryIsAttained(a: seq<Action>, b: seq<Action>, i: nat, j: nat)
    returns (c: seq<Action>, p: seq<nat>, q: seq<nat>)
    requires i <= |a| && j <= |b|
    ensures |c| == Entry(a, b, i, j) && ReadsFrom(c, a[..i], p) && ReadsFrom(c, b[..j], q)
    decreases i + j
  {
    if i == 0 || j == 0 {
      c, p, q := [], [], [];
    } else if a[i - 1] == b[j - 1] {
      c, p, q := EntryIsAttained(a, b, i - 1, j - 1);
      Append(c, a, p, i - 1);
      Append(c, b, q, j - 1);
      c, p, q := c + [a[i - 1]], p + [i - 1], q + [j - 1];
    } else if Entry(a, b, i - 1, j) >= Entry(a, b, i, j - 1) {
      c, p, q := EntryIsAttained(a, b, i - 1, j);
      Extend(c, a[..i - 1], p, a[..i]);
    } else {
      c, p, q := EntryIsAttained(a, b, i, j - 1);
      Extend(c, b[..j - 1], q, b[..j]);
    }
  }

  function Lcs(a: seq<Action>, b: seq<Action>): nat {
    Entry(a, b, |a|, |b|)
  }

  lemma EntryIsLongest(a: seq<Action>, b: seq<Action>)
    ensures IsLongestCommon(Lcs(a, b), a, b)
  {
    assert a[..|a|] == a && b[..|b|] == b;
    var c, p, q := EntryIsAttained(a, b, |a|, |b|);
    assert IsCommon(c, a, b);
    forall d | IsCommon(d, a, b)
      ensures |d| <= Lcs(a, b)
    {
      var p, q :| ReadsFrom(d, a, p) && ReadsFrom(d, b, q);
      NoCommonIsLonger(a, b, |a|, |b|, d, p, q);
    }
  }

  // ----- What the count means -----

  lemma CountIsSymmetric(a: seq<Action>, b: seq<Action>)
    ensures Lcs(a, b) == Lcs(b, a)
  {
    EntryIsLongest(a, b);
    EntryIsLongest(b, a);
    var c :| |c| == Lcs(a, b) && IsCommon(c, a, b);
    var d :| |d| == Lcs(b, a) && IsCommon(d, b, a);
    assert IsCommon(c, b, a) && IsCommon(d, a, b);
  }

  /** Positions of a subsequence are at least their own index. */
  lemma {:induction false} PositionsRise(c: seq<Action>, s: seq<Action>, at: seq<nat>, k: nat)
    requires ReadsFrom(c, s, at) && k < |at|
    ensures k <= at[k] && at[k] + (|at| - k) <= |s|
    decreases |at| - k
  {
    if k + 1 < |at| {
      PositionsRise(c, s, at, k + 1);
    }
    PositionsStart(c, s, at, k);
  }

  lemma {:induction false} PositionsStart(c: seq<Action>, s: seq<Action>, at: seq<nat>, k: nat)
    requires ReadsFrom(c, s, at) && k < |at|
    ensures k <= at[k]
  {
    if k > 0 {
      PositionsStart(c, s, at, k - 1);
    }
  }

  lemma SubsequenceIsShorter(c: seq<Action>, s: seq<Action>)
    requires IsSubsequence(c, s)
    ensures |c| <= |s|
    ensures |c| == |s| ==> c == s
  {
    var at :| ReadsFrom(c, s, at);
    if c != [] {
      PositionsRise(c, s, at, 0);
    }
    if |c| == |s| {
      forall k | 0 <= k < |c|
        ensures at[k] == k
      {
        PositionsRise(c, s, at, k);
      }
    }
  }

  lemma SelfSubsequence(s: seq<Action>)
    ensures IsSubsequence(s, s)
  {
    assert ReadsFrom(s, s, seq(|s|, k => k));
  }

  /** Every expected action is credited exactly when the plan is a subsequence of what happened. */
  lemma FullCreditMeansSubsequence(expected: seq<Action>, observed: seq<Action>)
    ensures Lcs(expected, observed) <= |expected|
    ensures Lcs(expected, observed) == |expected| <==> IsSubsequence(expected, observed)
  {
    EntryIsLongest(expected, observed);
    SelfSubsequence(expected);
    var c :| |c| == Lcs(expected, observed) && IsCommon(c, expected, observed);
    SubsequenceIsShorter(c, expected);
    if IsSubsequence(expected, observed) {
      assert IsCommon(expected, expected, observed);
    }
  }

  function Without(s: seq<Action>, k: nat): seq<Action>
    requires k < |s|
  {
    s[..k] + s[k + 1..]
  }

  lemma WithoutIsSubsequence(s: seq<Action>, k: nat)
    requires k < |s|
    ensures IsSubsequence(Without(s, k), s)
  {
    assert ReadsFrom(Without(s, k), s, seq(|s| - 1, l requires l >= 0 => if l < k then l else l + 1));
  }

  lemma SubsequenceChain(c: seq<Action>, d: seq<Action>, s: seq<Action>)
    requires IsSubsequence(c, d) && IsSubsequence(d, s)
    ensures IsSubsequence(c, s)
  {
    var p :| ReadsFrom(c, d, p);
    var q :| ReadsFrom(d, s, q);
    assert ReadsFrom(c, s, seq(|p|, k requires 0 <= k < |p| => q[p[k]]));
  }

  lemma UnusedPosition(c: seq<Action>, s: seq<Action>, at: seq<nat>, k: nat)
    requires k < |s| && ReadsFrom(c, s, at) && k !in at
    ensures IsSubsequence(c, Without(s, k))
  {
    var shifted := seq(|at|, m requires 0 <= m < |at| => if at[m] < k then at[m] else at[m] - 1);
    forall m | 0 <= m < |at|
      ensures shifted[m] < |s| - 1 && c[m] == Without(s, k)[shifted[m]]
    {
      assert at[m] != k;
    }
    assert ReadsFrom(c, Without(s, k), shifted);
  }

  /** Losing position `k` of the source loses at most one item of a subsequence. */
  lemma LosingOnePosition(c: seq<Action>, s: seq<Action>, k: nat) returns (d: seq<Action>)
    requires k < |s| && IsSubsequence(c, s)
    ensures |d| >= |c| - 1 && IsSubsequence(d, c) && IsSubsequence(d, Without(s, k))
  {
    var at :| ReadsFrom(c, s, at);
    if k in at {
      var l :| 0 <= l < |at| && at[l] == k;
      d := Without(c, l);
      WithoutIsSubsequence(c, l);
      var kept := at[..l] + at[l + 1..];
      assert ReadsFrom(d, s, kept);
      UnusedPosition(d, s, kept, k);
    } else {
      d := c;
      SelfSubsequence(c);
      UnusedPosition(c, s, at, k);
    }
  }

  /** One missed action costs at most one credit, and never gains any: misses do not cascade. */
  lemma OneMissCostsAtMostOne(expected: seq<Action>, observed: seq<Action>, k: nat)
    requires k < |observed|
    ensures Lcs(expected, observed) - 1 <= Lcs(expected, Without(observed, k)) <= Lcs(expected, observed)
  {
    EntryIsLongest(expected, observed);
    EntryIsLongest(expected, Without(observed, k));
    var c :| |c| == Lcs(expected, observed) && IsCommon(c, expected, observed);
    var d := LosingOnePosition(c, observed, k);
    SubsequenceChain(d, c, expected);
    assert IsCommon(d, expected, Without(observed, k));
    var e :| |e| == Lcs(expected, Without(observed, k)) && IsCommon(e, expected, Without(observed, k));
    WithoutIsSubsequence(observed, k);
    SubsequenceChain(e, Without(observed, k), observed);
    assert IsCommon(e, expected, observed);
  }

  /** In a run that did exactly what was planned, one missed action costs exactly one credit. */
  lemma OneMissFromPerfectRun(plan: seq<Action>, k: nat)
    requires k < |plan|
    ensures Lcs(plan, plan) == |plan| && Lcs(plan, Without(plan, k)) == |plan| - 1
  {
    SelfSubsequence(plan);
    FullCreditMeansSubsequence(plan, plan);
    OneMissCostsAtMostOne(plan, plan, k);
    CountIsSymmetric(plan, Without(plan, k));
    FullCreditMeansSubsequence(Without(plan, k), plan);
  }
}
