/**
 What the twelve-digit rounding of totals costs the alignment: nothing, exactly as long as the
 scores are multiples of a fraction no finer than the rounding; and otherwise possibly the more
 similar alignment, for texts of less than a hundred characters.
 */
module RoundingLoss {
  import opened Rounding
  import opened MonotonicPairing
  import opened TranscriptAlignment

  // ----- Two competing diagonals -----

  /** One column more than rows, and every row may be paired with its own column and the next. */
  ghost predicate HasTwoDiagonals(g: Grid) {
    && g.Valid() && g.columns == g.rows + 1
    && forall i :: 0 <= i < g.rows ==> g.allowed[i][i] && g.allowed[i][i + 1]
  }

  ghost function Near(g: Grid, i: nat): real
    requires HasTwoDiagonals(g) && i <= g.rows
    decreases g.rows - i
  {
    if i == g.rows then 0.0 else Near(g, i + 1) + g.score[i][i]
  }

  ghost function Far(g: Grid, i: nat): real
    requires HasTwoDiagonals(g) && i <= g.rows
    decreases g.rows - i
  {
    if i == g.rows then 0.0 else Far(g, i + 1) + g.score[i][i + 1]
  }

  ghost predicate NearLooksBetter(g: Grid, key: real -> real)
    requires HasTwoDiagonals(g)
  {
    forall i :: 0 <= i <= g.rows ==> key(Far(g, i)) <= key(Near(g, i))
  }

  /** The program takes the near diagonal whenever it looks no worse, row by row from the end. */
  lemma {:induction false} NearIsTaken(g: Grid, key: real -> real, t: Table, i: nat)
    requires HasTwoDiagonals(g) && Solved(g, key, t) && NearLooksBetter(g, key) && i <= g.rows
    ensures (i, i) in t && t[(i, i)].value == Cell(g.rows - i, Near(g, i))
    ensures (i, i + 1) in t && t[(i, i + 1)].value == Cell(g.rows - i, Far(g, i))
    decreases g.rows - i
  {
    if i == g.rows {
      BorderIsEmpty(g, key, t, i, i);
      BorderIsEmpty(g, key, t, i, i + 1);
    } else {
      NearIsTaken(g, key, t, i + 1);
      assert CellSolved(g, key, t, i, i + 1);
      CountFits(g, key, t, i + 1, i + 1);
      CountFits(g, key, t, i, i + 2);
      PairIsTaken(g, key, t, i, i + 1, Cell(g.rows - i, Far(g, i)));
      assert CellSolved(g, key, t, i, i);
      CountFits(g, key, t, i + 1, i);
      PairIsTaken(g, key, t, i, i, Cell(g.rows - i, Near(g, i)));
    }
  }

  ghost function FarPairing(n: nat): (a: Pairing)
    ensures |a| == n && forall i: nat :: i in a <==> i < n
    ensures forall i: nat :: i < n ==> a[i] == i + 1
  {
    if n == 0 then map[] else FarPairing(n - 1)[n - 1 := n]
  }

  lemma {:induction false} FarTotal(g: Grid, i: nat)
    requires HasTwoDiagonals(g) && i <= g.rows
    ensures TotalFrom(g, FarPairing(g.rows), i) == Far(g, i)
    decreases g.rows - i
  {
    if i < g.rows {
      FarTotal(g, i + 1);
    }
  }

  /** If the far diagonal is better but looks no better, every run misses it. */
  lemma FarIsMissed(p: Problem, g: Grid, t: Table, a: Pairing)
    requires IsResult(p, g, t, a) && HasTwoDiagonals(g) && NearLooksBetter(g, Round12) && Near(g, 0) < Far(g, 0)
    ensures IsPairing(g, FarPairing(g.rows)) && |FarPairing(g.rows)| == |a|
    ensures Total(g, a) < Total(g, FarPairing(g.rows)) && !Optimal(g, a, 0.0)
  {
    NearIsTaken(g, Round12, t, 0);
    FarTotal(g, 0);
    FarIsPairing(g);
    BetterMeansNotOptimal(g, a, FarPairing(g.rows));
  }

  lemma FarIsPairing(g: Grid)
    requires HasTwoDiagonals(g)
    ensures IsPairing(g, FarPairing(g.rows)) && |FarPairing(g.rows)| == g.rows
  {
  }

  lemma BetterMeansNotOptimal(g: Grid, a: Pairing, other: Pairing)
    requires g.Valid() && IsPairing(g, other) && |other| == |a| && Total(g, a) < Total(g, other)
    ensures !Optimal(g, a, 0.0)
  {
  }

  // ----- When rounding is harmless -----

  ghost predicate InUnitRange(p: Problem)
    requires p.Valid()
  {
    forall i, j {:trigger p.scores[i][j]} :: 0 <= i < |p.expected| && 0 <= j < |p.observed| ==>
        0.0 <= p.scores[i][j] <= 1.0
  }

  /** Every alignment of scores that are multiples of `1 / l` is exactly the most similar one. */
  ghost predicate AlwaysExact(l: nat)
    requires l > 0
  {
    forall p, g, t, a {:trigger IsResult(p, g, t, a)} ::
      IsResult(p, g, t, a) && InUnitRange(p) && p.OnMultiples(l) ==> Optimal(g, a, 0.0)
  }

  lemma CoarseIsExact(p: Problem, g: Grid, t: Table, a: Pairing, l: nat)
    requires IsResult(p, g, t, a) && 0 < l <= FINEST && p.OnMultiples(l)
    ensures Optimal(g, a, 0.0)
  {
    RoundingIsExactOnMultiples(p, g, l);
    ReliableMeansOptimal(g, Multiples(l), t, a);
  }

  lemma ReliableMeansOptimal(g: Grid, domain: real -> bool, t: Table, a: Pairing)
    requires g.Valid() && Reliable(g, Round12, domain, 0.0) && Solved(g, Round12, t)
    requires IsPairing(g, a) && (0, 0) in t && t[(0, 0)].value == Cell(|a|, Total(g, a))
    ensures Optimal(g, a, 0.0)
  {
    RealisedCornerIsOptimal(g, Round12, domain, 0.0, t, a);
    NoLoss(g.rows + g.columns);
  }

  lemma NoLoss(n: nat)
    ensures Loss(n, 0.0) == 0.0
  {
    LossOfUnits(n);
  }

  function Rounded(m: int, l: nat): int
    requires l > 0
  {
    RoundToInt(Fraction(m, l) * TRILLION)
  }

  lemma RoundedRises(m: int, l: nat)
    requires l > 0
    ensures Rounded(m, l) <= Rounded(m + 1, l)
  {
    FractionsRise(m, m + 1, l);
    RoundToIntIsMonotone(Fraction(m, l) * TRILLION, Fraction(m + 1, l) * TRILLION);
  }

  lemma RoundedEnds(l: nat)
    requires l > 0
    ensures Rounded(0, l) == 0 && Rounded(l, l) == FINEST
  {
    assert Fraction(0, l) == 0.0;
    FractionTimes(l, l);
    assert Fraction(l, l) == 1.0;
  }

  /** More multiples than rounded values between 0 and 1: two neighbours round alike. */
  lemma {:induction false} NeighboursRoundAlike(l: nat, n: nat) returns (m: nat)
    requires l > 0 && n > 0 && Rounded(n, l) < n
    ensures m < n && Rounded(m, l) == Rounded(m + 1, l)
  {
    RoundedEnds(l);
    RoundedRises(n - 1, l);
    if Rounded(n - 1, l) == Rounded(n, l) {
      m := n - 1;
    } else {
      m := NeighboursRoundAlike(l, n - 1);
    }
  }

  lemma FractionsRise(m: int, k: int, l: nat)
    requires l > 0 && m < k
    ensures Fraction(m, l) < Fraction(k, l)
  {
    FractionTimes(m, l);
    FractionTimes(k, l);
  }

  /**
   One utterance and two finals with the given scores. This is a statement about score matrices: the
   texts are left empty. `SHORT` below is an instance whose scores are similarities of its texts.
   */
  function TwoFinals(x: real, y: real): Problem {
    Problem([""], ["", ""], [[x, y]], 0.0)
  }

  function TwoFinalsGrid(x: real, y: real): (g: Grid)
    ensures g.Valid()
  {
    Grid(1, 2, [[x, y]], [[true, true]])
  }

  lemma TwoFinalsGridFits(x: real, y: real)
    requires 0.0 <= x < y
    ensures TwoFinals(x, y).Valid() && GridOf(TwoFinals(x, y), TwoFinalsGrid(x, y))
    ensures HasTwoDiagonals(TwoFinalsGrid(x, y)) && IsPairing(TwoFinalsGrid(x, y), map[0 := 0])
  {
  }

  lemma TwoFinalsLose(x: real, y: real, p: Problem) returns (g: Grid, t: Table, a: Pairing)
    requires 0.0 <= x < y && Round12(x) == Round12(y) && p == TwoFinals(x, y)
    ensures IsResult(p, g, t, a) && !Optimal(g, a, 0.0)
  {
    g, a := TwoFinalsGrid(x, y), map[0 := 0];
    t := TableOf(g, Round12);
    EveryGridHasTable(g, Round12);
    TwoFinalsGridFits(x, y);
    TwoFinalsTotals(x, y, g);
    NearIsTaken(g, Round12, t, 0);
    assert Total(g, a) == x + TotalFrom(g, a, 1);
    FarIsMissed(p, g, t, a);
  }

  lemma TwoFinalsTotals(x: real, y: real, g: Grid)
    requires g == TwoFinalsGrid(x, y) && HasTwoDiagonals(g) && Round12(x) == Round12(y)
    ensures Near(g, 0) == x && Far(g, 0) == y && NearLooksBetter(g, Round12)
  {
    assert Near(g, 1) == 0.0 == Far(g, 1);
  }

  /**
   Over all score matrices of multiples of `1 / l`, the rounding is harmless if and only if that
   fraction is no finer than it.
   */
  lemma ExactExactlyWhenCoarse(l: nat)
    requires l > 0
    ensures AlwaysExact(l) <==> l <= FINEST
  {
    if l <= FINEST {
      forall p, g, t, a | IsResult(p, g, t, a) && p.OnMultiples(l)
        ensures Optimal(g, a, 0.0)
      {
        CoarseIsExact(p, g, t, a, l);
      }
    } else {
      RoundedEnds(l);
      var m := NeighboursRoundAlike(l, l);
      FineFails(l, m);
    }
  }

  lemma FineFails(l: nat, m: nat)
    requires m < l && Rounded(m, l) == Rounded(m + 1, l)
    ensures !AlwaysExact(l)
  {
    var x, y := Fraction(m, l), Fraction(m + 1, l);
    FractionsRise(m, m + 1, l);
    FractionBounds(m, l);
    FractionBounds(m + 1, l);
    var p := TwoFinals(x, y);
    var g, t, a := TwoFinalsLose(x, y, p);
    TwoFinalsFit(l, x, y);
    OneMissIsEnough(p, g, t, a, l);
  }

  lemma OneMissIsEnough(p: Problem, g: Grid, t: Table, a: Pairing, l: nat)
    requires l > 0 && IsResult(p, g, t, a) && InUnitRange(p) && p.OnMultiples(l) && !Optimal(g, a, 0.0)
    ensures !AlwaysExact(l)
  {
  }

  lemma TwoFinalsFit(l: nat, x: real, y: real)
    requires l > 0 && IsMultiple(l, x) && IsMultiple(l, y) && 0.0 <= x <= 1.0 && 0.0 <= y <= 1.0
    ensures TwoFinals(x, y).Valid() && TwoFinals(x, y).OnMultiples(l) && InUnitRange(TwoFinals(x, y))
  {
  }

  lemma FractionBounds(m: nat, l: nat)
    requires l > 0 && m <= l
    ensures 0.0 <= Fraction(m, l) <= 1.0
  {
    FractionTimes(m, l);
  }

  // ----- Scores that are similarities of texts -----

  /** Twice the matched characters over all characters, as the similarity of two texts is defined. */
  function Similarity(matched: nat, characters: nat): real {
    if characters == 0 then 1.0 else (2 * matched) as real / characters as real
  }

  function Characters(p: Problem, i: nat, j: nat): nat
    requires i < |p.expected| && j < |p.observed|
  {
    |Normalize(p.expected[i])| + |Normalize(p.observed[j])|
  }

  /** Some number of characters of both texts is matched, and the score is their similarity. */
  ghost predicate IsSimilarity(p: Problem, i: nat, j: nat, matched: nat)
    requires p.Valid() && i < |p.expected| && j < |p.observed|
  {
    && matched <= |Normalize(p.expected[i])| && matched <= |Normalize(p.observed[j])|
    && p.scores[i][j] == Similarity(matched, Characters(p, i, j))
  }

  ghost predicate ScoresAreSimilarities(p: Problem)
    requires p.Valid()
  {
    forall i: nat, j: nat :: i < |p.expected| && j < |p.observed| ==> HasSimilarity(p, i, j)
  }

  ghost predicate HasSimilarity(p: Problem, i: nat, j: nat)
    requires p.Valid() && i < |p.expected| && j < |p.observed|
  {
    exists matched :: IsSimilarity(p, i, j, matched)
  }

  /** `l` is a common multiple of what the pairs of texts measure together. */
  ghost predicate IsCommonMultiple(p: Problem, l: nat) {
    forall i: nat, j: nat {:trigger Characters(p, i, j)} :: i < |p.expected| && j < |p.observed| ==>
      Characters(p, i, j) == 0 || l % Characters(p, i, j) == 0
  }

  lemma SimilarityIsMultiple(matched: nat, characters: nat, l: nat)
    requires l > 0 && (characters == 0 || l % characters == 0)
    ensures IsMultiple(l, Similarity(matched, characters))
  {
    if characters == 0 {
      FractionTimes(l, l);
      assert Fraction(l, l) == 1.0;
    } else {
      var q := l / characters;
      assert l == characters * q;
      WidenedFraction(2 * matched, characters, q);
      assert Similarity(matched, characters) == Fraction(2 * matched * q, l);
    }
  }

  lemma WidenedFraction(m: nat, c: nat, q: nat)
    requires c > 0 && c * q > 0
    ensures m as real / c as real == Fraction(m * q, c * q)
  {
    var x, r, k := m as real / c as real, c as real, q as real;
    assert x * r == m as real;
    assert (c * q) as real == r * k && (m * q) as real == m as real * k;
    Regroup(x, r, k);
    FractionTimes(m * q, c * q);
    CancelFactor(x, Fraction(m * q, c * q), (c * q) as real);
  }

  lemma Regroup(x: real, r: real, k: real)
    ensures x * (r * k) == (x * r) * k
  {
  }

  lemma CancelFactor(x: real, y: real, r: real)
    requires r > 0.0 && x * r == y * r
    ensures x == y
  {
  }

  /** Texts whose joint lengths have a common multiple of at most 10^12 are aligned exactly. */
  lemma ShortCommonMultipleIsExact(p: Problem, g: Grid, t: Table, a: Pairing, l: nat)
    requires IsResult(p, g, t, a) && ScoresAreSimilarities(p) && IsCommonMultiple(p, l) && 0 < l <= FINEST
    ensures Optimal(g, a, 0.0)
  {
    forall i: nat, j: nat | i < |p.expected| && j < |p.observed|
      ensures IsMultiple(l, p.scores[i][j])
    {
      assert HasSimilarity(p, i, j);
      var matched :| IsSimilarity(p, i, j, matched);
      SimilarityIsMultiple(matched, Characters(p, i, j), l);
    }
    CoarseIsExact(p, g, t, a, l);
  }

  // ----- Three utterances, four finals, less than a hundred characters each -----

  function Copies(c: char, n: nat): (s: string)
    ensures |s| == n && forall i :: 0 <= i < n ==> s[i] == c
  {
    seq(n, _ => c)
  }

  const WANTED: seq<string> := [
    Copies('a', 38) + Copies('x', 33),
    Copies('a', 38) + Copies('y', 9),
    Copies('a', 38) + Copies('z', 29)]

  const HEARD: seq<string> := [
    Copies('a', 38) + Copies('x', 23) + Copies('b', 23),
    Copies('a', 38) + Copies('x', 18) + Copies('b', 4),
    Copies('a', 38) + Copies('y', 9) + Copies('z', 26) + Copies('b', 7),
    Copies('a', 38) + Copies('z', 25) + Copies('b', 33)]

  /** How many characters the matching blocks of each pair hold: the common letters, in order. */
  const MATCHED: seq<seq<nat>> := [[61, 56, 38, 38], [38, 38, 47, 38], [38, 38, 64, 63]]

  const WANTED_LENGTHS: seq<nat> := [71, 47, 67]
  const HEARD_LENGTHS: seq<nat> := [84, 60, 80, 96]

  const SCORES: seq<seq<real>> := [
    [122.0 / 155.0, 112.0 / 131.0, 76.0 / 151.0, 76.0 / 167.0],
    [76.0 / 131.0, 76.0 / 107.0, 94.0 / 127.0, 76.0 / 143.0],
    [76.0 / 151.0, 76.0 / 127.0, 128.0 / 147.0, 126.0 / 163.0]]

  /** The default threshold of the evaluator. */
  const SHORT := Problem(WANTED, HEARD, SCORES, 0.65)

  predicate IsLowerCase(s: string) {
    forall i :: 0 <= i < |s| ==> 'a' <= s[i] <= 'z'
  }

  lemma {:induction false} LowerCaseIsNormal(s: string)
    requires IsLowerCase(s)
    ensures Normalize(s) == s
  {
    if s != "" {
      LowerCaseIsNormal(s[1..]);
      assert s == [s[0]] + s[1..];
    }
  }

  lemma LowerCaseMentionsNothing(expected: string, observed: string)
    requires IsLowerCase(expected)
    ensures SlotsAgree(expected, observed)
  {
    forall g | 0 <= g < |SLOT_GROUPS|
      ensures GroupAgrees(SLOT_GROUPS[g], expected, observed)
    {
      assert forall slot :: slot in SLOT_GROUPS[g] ==> IsCjk(slot);
    }
  }

  lemma ShortTexts(i: nat, j: nat)
    requires i < 3 && j < 4
    ensures |WANTED| == 3 && |HEARD| == 4 && IsLowerCase(WANTED[i]) && IsLowerCase(HEARD[j])
    ensures |WANTED[i]| == WANTED_LENGTHS[i] < 100 && |HEARD[j]| == HEARD_LENGTHS[j] < 100
  {
  }

  lemma ShortScores(i: nat, j: nat)
    requires i < 3 && j < 4
    ensures |SCORES| == 3 && |SCORES[i]| == 4
    ensures SCORES[i][j] == Similarity(MATCHED[i][j], WANTED_LENGTHS[i] + HEARD_LENGTHS[j])
    ensures MATCHED[i][j] <= WANTED_LENGTHS[i] && MATCHED[i][j] <= HEARD_LENGTHS[j]
  {
  }

  lemma ShortEntryIsReal(i: nat, j: nat)
    requires i < 3 && j < 4
    ensures SHORT.Valid() && |SHORT.expected| == 3 && |SHORT.observed| == 4
    ensures IsSimilarity(SHORT, i, j, MATCHED[i][j])
  {
    ShortTexts(i, j);
    ShortScores(i, j);
    LowerCaseIsNormal(WANTED[i]);
    LowerCaseIsNormal(HEARD[j]);
  }

  lemma ShortIsReal()
    ensures SHORT.Valid() && ScoresAreSimilarities(SHORT)
  {
    ShortEntryIsReal(0, 0);
    forall i: nat, j: nat | i < |SHORT.expected| && j < |SHORT.observed|
      ensures HasSimilarity(SHORT, i, j)
    {
      ShortEntryIsReal(i, j);
    }
  }

  lemma ShortIsPermitted(g: Grid)
    requires SHORT.Valid() && GridOf(SHORT, g)
    ensures HasTwoDiagonals(g)
  {
    forall i: nat | i < 3
      ensures g.allowed[i][i] && g.allowed[i][i + 1]
    {
      ShortTexts(i, i);
      LowerCaseMentionsNothing(WANTED[i], HEARD[i]);
      LowerCaseMentionsNothing(WANTED[i], HEARD[i + 1]);
      assert RowPermits(SHORT, i, g.allowed[i]);
      assert SCORES[i][i] >= 0.65 && SCORES[i][i + 1] >= 0.65;
    }
  }

  lemma Round12Monotone(x: real, y: real)
    requires x <= y
    ensures Round12(x) <= Round12(y)
  {
    RoundToIntIsMonotone(x * TRILLION, y * TRILLION);
  }

  lemma ShortTotals(g: Grid)
    requires HasTwoDiagonals(g) && g.rows == 3 && g.score == SCORES
    ensures Far(g, 3) == Near(g, 3) && Far(g, 2) <= Near(g, 2) && Far(g, 1) <= Near(g, 1)
    ensures Near(g, 0) == 128.0 / 147.0 + 76.0 / 107.0 + 122.0 / 155.0
    ensures Far(g, 0) == 126.0 / 163.0 + 94.0 / 127.0 + 112.0 / 131.0
  {
    assert Near(g, 2) == 0.0 + SCORES[2][2] && Far(g, 2) == 0.0 + SCORES[2][3];
    assert Near(g, 1) == Near(g, 2) + SCORES[1][1] && Far(g, 1) == Far(g, 2) + SCORES[1][2];
  }

  lemma ShortTotalsRoundAlike()
    ensures var near := 128.0 / 147.0 + 76.0 / 107.0 + 122.0 / 155.0;
            var far := 126.0 / 163.0 + 94.0 / 127.0 + 112.0 / 131.0;
            near < far && Round12(near) == Round12(far)
  {
    var near := 128.0 / 147.0 + 76.0 / 107.0 + 122.0 / 155.0;
    var far := 126.0 / 163.0 + 94.0 / 127.0 + 112.0 / 131.0;
    assert (near * TRILLION).Floor == 2368125447345 && (far * TRILLION).Floor == 2368125447345;
  }

  /** On these texts every run pairs each utterance with a less similar final than it could. */
  lemma ShortTextsLoseSimilarity(g: Grid, t: Table, a: Pairing)
    requires IsResult(SHORT, g, t, a)
    ensures ScoresAreSimilarities(SHORT) && |a| == 3
    ensures IsPairing(g, FarPairing(3)) && |FarPairing(3)| == 3 && Total(g, a) < Total(g, FarPairing(3))
  {
    ShortIsReal();
    ShortIsPermitted(g);
    ShortLooksBetter(g);
    FarIsMissed(SHORT, g, t, a);
    NearIsTaken(g, Round12, t, 0);
  }

  lemma ShortLooksBetter(g: Grid)
    requires HasTwoDiagonals(g) && g.rows == 3 && g.score == SCORES
    ensures NearLooksBetter(g, Round12) && Near(g, 0) < Far(g, 0)
  {
    ShortTotals(g);
    ShortTotalsRoundAlike();
    Round12Monotone(Far(g, 2), Near(g, 2));
    Round12Monotone(Far(g, 1), Near(g, 1));
  }
}
