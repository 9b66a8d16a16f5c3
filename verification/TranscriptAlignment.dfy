/**
 The alignment of expected utterances with ASR finals: text normalisation, the control-slot
 check, the twelve-digit rounding, and the report built from the pairing.

 Similarities are an arbitrary matrix of reals.
 */
module TranscriptAlignment {
  import opened MonotonicPairing
  import opened Rounding

  // ----- Text normalisation and the control-slot check -----

  /** Characters that survive normalisation: ASCII letters and digits, and U+4E00 to U+9FFF. */
  predicate Kept(c: char) {
    '0' <= c <= '9' || 'a' <= c <= 'z' || 'A' <= c <= 'Z' || IsCjk(c)
  }

  predicate IsCjk(c: char) {
    '\U{4E00}' <= c <= '\U{9FFF}'
  }

  function Lower(c: char): char {
    if 'A' <= c <= 'Z' then ((c as int) + 32) as char else c
  }

  function Normalize(text: string): string {
    if text == "" then ""
    else if Kept(text[0]) then [Lower(text[0])] + Normalize(text[1..])
    else Normalize(text[1..])
  }

  /** Mutually exclusive control words: left/right, front/back, blue/red/green/yellow. */
  const SLOT_GROUPS: seq<set<char>> :=
    [{'\U{5DE6}', '\U{53F3}'},
     {'\U{524D}', '\U{540E}'},
     {'\U{84DD}', '\U{7EA2}', '\U{7EFF}', '\U{9EC4}'}]

  function SlotsIn(group: set<char>, text: string): set<char> {
    set slot | slot in group && slot in text
  }

  predicate GroupMismatch(group: set<char>, expected: string, observed: string) {
    SlotsIn(group, expected) != {} && SlotsIn(group, observed) != SlotsIn(group, expected)
  }

  predicate SlotMismatch(expected: string, observed: string) {
    exists g :: 0 <= g < |SLOT_GROUPS| && GroupMismatch(SLOT_GROUPS[g], expected, observed)
  }

  /** The check that rejects a pair whose control words disagree, group by group. */
  method HasUnsafeSlotMismatch(expected: string, observed: string) returns (unsafe: bool)
    ensures unsafe == SlotMismatch(expected, observed)
  {
    for k := 0 to |SLOT_GROUPS|
      invariant forall g :: 0 <= g < k ==> !GroupMismatch(SLOT_GROUPS[g], expected, observed)
    {
      if GroupMismatch(SLOT_GROUPS[k], expected, observed) {
        return true;
      }
    }
    return false;
  }

  /** In a group that the wanted text mentions at all, both texts mention the same words. */
  ghost predicate GroupAgrees(group: set<char>, expected: string, observed: string) {
    (exists slot :: slot in group && slot in expected) ==>
      forall slot :: slot in group ==> (slot in expected <==> slot in observed)
  }

  /** What a safe pair guarantees, said of the texts as they were spoken. */
  ghost predicate SlotsAgree(expected: string, observed: string) {
    forall g :: 0 <= g < |SLOT_GROUPS| ==> GroupAgrees(SLOT_GROUPS[g], expected, observed)
  }

  lemma {:induction false} NormalizeKeepsCjk(text: string, c: char)
    requires IsCjk(c)
    ensures c in Normalize(text) <==> c in text
  {
    if text != "" {
      NormalizeKeepsCjk(text[1..], c);
      assert text == [text[0]] + text[1..];
    }
  }

  lemma SlotsSurviveNormalisation(group: set<char>, text: string)
    requires forall slot :: slot in group ==> IsCjk(slot)
    ensures SlotsIn(group, Normalize(text)) == SlotsIn(group, text)
  {
    forall slot | slot in group
      ensures slot in Normalize(text) <==> slot in text
    {
      NormalizeKeepsCjk(text, slot);
    }
  }

  lemma GroupCheckMeans(group: set<char>, expected: string, observed: string)
    requires forall slot :: slot in group ==> IsCjk(slot)
    ensures !GroupMismatch(group, Normalize(expected), Normalize(observed)) <==> GroupAgrees(group, expected, observed)
  {
    SlotsSurviveNormalisation(group, expected);
    SlotsSurviveNormalisation(group, observed);
    var e, o := SlotsIn(group, expected), SlotsIn(group, observed);
    assert forall slot :: slot in group ==> (slot in expected <==> slot in e) && (slot in observed <==> slot in o);
    if e != {} {
      var slot :| slot in e;
      assert slot in group && slot in expected;
      if GroupAgrees(group, expected, observed) {
        assert e == o;
      }
    }
  }

  /** The check passes exactly the pairs whose spoken control words agree. */
  lemma SafePairsAgree(expected: string, observed: string)
    ensures !SlotMismatch(Normalize(expected), Normalize(observed)) <==> SlotsAgree(expected, observed)
  {
    forall g | 0 <= g < |SLOT_GROUPS|
      ensures !GroupMismatch(SLOT_GROUPS[g], Normalize(expected), Normalize(observed))
         <==> GroupAgrees(SLOT_GROUPS[g], expected, observed)
    {
      assert forall slot :: slot in SLOT_GROUPS[g] ==> IsCjk(slot);
      GroupCheckMeans(SLOT_GROUPS[g], expected, observed);
    }
  }

  /** What a safe pair keeps, word by word: if either is wanted, both of a pair are heard as wanted. */
  predicate KeepsPair(expected: string, observed: string, a: char, b: char) {
    a in expected || b in expected ==> (a in expected <==> a in observed) && (b in expected <==> b in observed)
  }

  /**
   In plain words: left and right, front and back, and the four colours are never taken for one
   another, missed or added, wherever the utterance mentions one of them.
   */
  lemma SafePairsKeepControlWords(expected: string, observed: string)
    ensures SlotsAgree(expected, observed) <==>
            && KeepsPair(expected, observed, '\U{5DE6}', '\U{53F3}')
            && KeepsPair(expected, observed, '\U{524D}', '\U{540E}')
            && ('\U{84DD}' in expected || '\U{7EA2}' in expected || '\U{7EFF}' in expected || '\U{9EC4}' in expected ==>
                  && ('\U{84DD}' in expected <==> '\U{84DD}' in observed)
                  && ('\U{7EA2}' in expected <==> '\U{7EA2}' in observed)
                  && ('\U{7EFF}' in expected <==> '\U{7EFF}' in observed)
                  && ('\U{9EC4}' in expected <==> '\U{9EC4}' in observed))
  {
    var turn, way := {'\U{5DE6}', '\U{53F3}'}, {'\U{524D}', '\U{540E}'};
    var colour := {'\U{84DD}', '\U{7EA2}', '\U{7EFF}', '\U{9EC4}'};
    assert SLOT_GROUPS == [turn, way, colour];
    assert SlotsAgree(expected, observed) <==>
           GroupAgrees(turn, expected, observed) && GroupAgrees(way, expected, observed) &&
           GroupAgrees(colour, expected, observed) by {
      assert SLOT_GROUPS[0] == turn && SLOT_GROUPS[1] == way && SLOT_GROUPS[2] == colour;
    }
    assert GroupAgrees(turn, expected, observed) <==> KeepsPair(expected, observed, '\U{5DE6}', '\U{53F3}');
    assert GroupAgrees(way, expected, observed) <==> KeepsPair(expected, observed, '\U{524D}', '\U{540E}');
  }

  /** Normalised text holds the digits, lower-case letters and ideographs of the text, and nothing else. */
  lemma {:induction false} NormalizedCharacters(text: string, c: char)
    ensures c in Normalize(text) <==>
            || (c in text && ('0' <= c <= '9' || 'a' <= c <= 'z' || 0x4E00 <= c as int <= 0x9FFF))
            || ('a' <= c <= 'z' && (c as int - 32) as char in text)
  {
    if text != "" {
      NormalizedCharacters(text[1..], c);
      assert text == [text[0]] + text[1..];
    }
  }

  lemma {:induction false} NormalizeJoins(a: string, b: string)
    ensures Normalize(a + b) == Normalize(a) + Normalize(b)
  {
    if a == "" {
      assert a + b == b;
    } else {
      NormalizeJoins(a[1..], b);
      assert (a + b)[1..] == a[1..] + b;
    }
  }

  // ----- Rounding to decimal digits, half to even -----

  const TRILLION: real := 1000000000000.0
  const ULP: real := 0.000000000001

  function Round12(x: real): real {
    RoundToInt(x * TRILLION) as real / TRILLION
  }

  function Round3(x: real): real {
    RoundToInt(x * 1000.0) as real / 1000.0
  }

  function Fraction(m: int, l: nat): real
    requires l > 0
  {
    m as real / l as real
  }

  /** A whole multiple of `1 / l`. */
  ghost predicate IsMultiple(l: nat, x: real)
    requires l > 0
  {
    exists m: int :: x == Fraction(m, l)
  }

  ghost function Multiples(l: nat): real -> bool
    requires l > 0
  {
    x => IsMultiple(l, x)
  }

  const FINEST: nat := 1000000000000

  /** Rounding to twelve digits can swap values only if they are within one unit of each other. */
  lemma RoundedOrder(x: real, y: real)
    requires Round12(x) <= Round12(y)
    ensures x <= y + 0.000000000001
  {
    assert RoundToInt(x * TRILLION) as real <= RoundToInt(y * TRILLION) as real;
  }

  /** It swaps no two multiples of one fraction that is no finer than the rounding. */
  lemma RoundedOrderOfMultiples(l: nat, x: real, y: real)
    requires 0 < l <= FINEST && IsMultiple(l, x) && IsMultiple(l, y) && Round12(x) <= Round12(y)
    ensures x <= y
  {
    assert RoundToInt(x * TRILLION) as real <= RoundToInt(y * TRILLION) as real;
    if x > y {
      var m: int :| x == Fraction(m, l);
      var k: int :| y == Fraction(k, l);
      FractionsRoundApart(m, k, l);
    }
  }

  lemma FractionsRoundApart(m: int, k: int, l: nat)
    requires 0 < l <= FINEST && Fraction(m, l) > Fraction(k, l)
    ensures RoundToInt(Fraction(m, l) * TRILLION) > RoundToInt(Fraction(k, l) * TRILLION)
  {
    FractionsAreApart(m, k, l);
    if l < FINEST {
      RoundsApart(Fraction(m, l) * TRILLION, Fraction(k, l) * TRILLION);
    } else {
      FinestIsWhole(m);
      FinestIsWhole(k);
    }
  }

  lemma FinestIsWhole(m: int)
    ensures Fraction(m, FINEST) * TRILLION == m as real && RoundToInt(Fraction(m, FINEST) * TRILLION) == m
  {
    FractionTimes(m, FINEST);
    assert FINEST as real == TRILLION;
    WholeRounds(m);
  }

  lemma RoundsApart(u: real, v: real)
    requires u > v + 1.0
    ensures RoundToInt(u) > RoundToInt(v)
  {
  }

  lemma WholeRounds(m: int)
    ensures RoundToInt(m as real) == m
  {
  }

  lemma FractionTimes(m: int, l: nat)
    requires l > 0
    ensures Fraction(m, l) * l as real == m as real
  {
  }

  /** Two multiples differ by a whole unit of the rounding, and by more if the fraction is coarser. */
  lemma FractionsAreApart(m: int, k: int, l: nat)
    requires 0 < l <= FINEST && Fraction(m, l) > Fraction(k, l)
    ensures Fraction(m, l) * TRILLION >= Fraction(k, l) * TRILLION + 1.0
    ensures l < FINEST ==> Fraction(m, l) * TRILLION > Fraction(k, l) * TRILLION + 1.0
  {
    FractionTimes(m, l);
    FractionTimes(k, l);
    assert FINEST as real == TRILLION;
    UnitsApart(Fraction(m, l), Fraction(k, l), l as real, m, k, TRILLION);
  }

  lemma UnitsApart(x: real, y: real, r: real, m: int, k: int, b: real)
    requires x > y && 0.0 < r <= b && x * r == m as real && y * r == k as real
    ensures x * b >= y * b + 1.0
    ensures r < b ==> x * b > y * b + 1.0
  {
    var d := x - y;
    Difference(x, y, r);
    Difference(x, y, b);
    ScaledUp(d, 0.0, r);
    WholeGap(m, k, d * r);
    ScaledUp(d, r, b);
  }

  lemma WholeGap(m: int, k: int, gap: real)
    requires gap == m as real - k as real && gap > 0.0
    ensures gap >= 1.0
  {
    assert m > k;
  }

  lemma Difference(x: real, y: real, r: real)
    ensures (x - y) * r == x * r - y * r
  {
  }

  lemma ScaledUp(d: real, a: real, b: real)
    requires d > 0.0
    ensures d * 0.0 == 0.0
    ensures a <= b ==> d * a <= d * b
    ensures a < b ==> d * a < d * b
  {
  }

  lemma MultipleSum(l: nat, x: real, y: real)
    requires l > 0 && IsMultiple(l, x) && IsMultiple(l, y)
    ensures IsMultiple(l, x + y)
  {
    var m: int :| x == Fraction(m, l);
    var k: int :| y == Fraction(k, l);
    SumOfFractions(m, k, l);
  }

  lemma SumOfFractions(m: int, k: int, l: nat)
    requires l > 0
    ensures Fraction(m, l) + Fraction(k, l) == Fraction(m + k, l)
  {
  }

  /** The reported similarity is a whole number of thousandths, at most half a thousandth off. */
  lemma Round3IsNearest(x: real)
    ensures x - 0.0005 <= Round3(x) <= x + 0.0005 && Round3(x) * 1000.0 == RoundToInt(x * 1000.0) as real
  {
  }

  lemma Round3Monotone(x: real, y: real)
    requires x <= y
    ensures Round3(x) <= Round3(y)
  {
    RoundToIntIsMonotone(x * 1000.0, y * 1000.0);
  }

  // ----- The alignment problem -----

  datatype Problem = Problem(
    expected: seq<string>, observed: seq<string>, scores: seq<seq<real>>, threshold: real)
  {
    ghost predicate Valid() {
      |scores| == |expected| && forall i :: 0 <= i < |scores| ==> |scores[i]| == |observed|
    }

    ghost predicate OnMultiples(l: nat)
      requires Valid() && l > 0
    {
      forall i, j {:trigger scores[i][j]} :: 0 <= i < |expected| && 0 <= j < |observed| ==> IsMultiple(l, scores[i][j])
    }

    /** All scores are multiples of one fraction that is no finer than the rounding. */
    ghost predicate IsCoarse()
      requires Valid()
    {
      exists l: nat {:trigger OnMultiples(l)} :: 0 < l <= FINEST && OnMultiples(l)
    }

    /** What one ranking decision can cost in similarity. */
    ghost function Slack(): real
      requires Valid()
    {
      if IsCoarse() then 0.0 else ULP
    }
  }

  /** The table of permitted pairs: similar enough, and safe in every control slot. */
  ghost predicate GridOf(p: Problem, g: Grid)
    requires p.Valid()
  {
    && g.Valid() && g.rows == |p.expected| && g.columns == |p.observed| && g.score == p.scores
    && forall i :: 0 <= i < g.rows ==> RowPermits(p, i, g.allowed[i])
  }

  ghost predicate RowPermits(p: Problem, i: nat, row: seq<bool>)
    requires p.Valid() && i < |p.expected|
  {
    |row| <= |p.observed| &&
    forall j :: 0 <= j < |row| ==>
      (row[j] <==> p.scores[i][j] >= p.threshold && SlotsAgree(p.expected[i], p.observed[j]))
  }

  method BuildGrid(p: Problem) returns (g: Grid)
    requires p.Valid()
    ensures GridOf(p, g)
  {
    var allowed: seq<seq<bool>> := [];
    for i := 0 to |p.expected|
      invariant |allowed| == i
      invariant forall k :: 0 <= k < i ==> |allowed[k]| == |p.observed| && RowPermits(p, k, allowed[k])
    {
      var row: seq<bool> := [];
      for j := 0 to |p.observed|
        invariant |row| == j && RowPermits(p, i, row)
      {
        var unsafe := HasUnsafeSlotMismatch(Normalize(p.expected[i]), Normalize(p.observed[j]));
        SafePairsAgree(p.expected[i], p.observed[j]);
        row := row + [p.scores[i][j] >= p.threshold && !unsafe];
      }
      allowed := allowed + [row];
    }
    g := Grid(|p.expected|, |p.observed|, p.scores, allowed);
  }

  /** Rounded sums rank honestly up to one unit per decision. */
  lemma RoundingIsReliable(g: Grid)
    requires g.Valid()
    ensures Reliable(g, Round12, _ => true, ULP)
  {
    forall x, y | LooksNoLarger(Round12, x, y)
      ensures x <= y + ULP
    {
      RoundedOrder(x, y);
    }
  }

  /** They rank exactly if the scores are multiples of one fraction no finer than the rounding. */
  lemma RoundingIsExactOnMultiples(p: Problem, g: Grid, l: nat)
    requires p.Valid() && GridOf(p, g) && 0 < l <= FINEST && p.OnMultiples(l)
    ensures Reliable(g, Round12, Multiples(l), 0.0)
  {
    assert IsMultiple(l, 0.0) by {
      assert 0.0 == Fraction(0, l);
    }
    forall x, y | IsMultiple(l, x) && IsMultiple(l, y) && LooksNoLarger(Round12, x, y)
      ensures x <= y
    {
      RoundedOrderOfMultiples(l, x, y);
    }
    forall x, i, j | IsMultiple(l, x) && 0 <= i < g.rows && 0 <= j < g.columns
      ensures IsMultiple(l, Plus(x, g.score[i][j]))
    {
      assert IsMultiple(l, p.scores[i][j]);
      MultipleSum(l, x, g.score[i][j]);
    }
  }

  /**
   The pairing is a strictly increasing one-to-one alignment of permitted pairs; no alignment has
   more pairs, and none with as many is more similar by more than one rounding unit per text.
   */
  ghost predicate NearlyOptimal(p: Problem, g: Grid, a: Pairing)
    requires p.Valid() && g.Valid()
  {
    Optimal(g, a, Loss(|p.expected| + |p.observed|, p.Slack()))
  }

  /** The bound in closed form. */
  ghost predicate NoBetter(p: Problem, g: Grid, a: Pairing, other: Pairing)
    requires p.Valid() && g.Valid()
  {
    && |other| <= |a|
    && (|other| == |a| ==>
          Total(g, other) <= Total(g, a) + (|p.expected| + |p.observed|) as real * 0.000000000001)
    && (|other| == |a| && p.IsCoarse() ==> Total(g, other) <= Total(g, a))
  }

  lemma PairingIsNoBetter(p: Problem, g: Grid, a: Pairing, other: Pairing)
    requires p.Valid() && g.Valid() && NearlyOptimal(p, g, a) && IsPairing(g, other)
    ensures NoBetter(p, g, a, other)
  {
    LossOfUnits(|p.expected| + |p.observed|);
  }

  /** No competing alignment of the texts, increasing and of similar and safe pairs, is better. */
  lemma CompetitorIsNoBetter(p: Problem, g: Grid, a: Pairing, other: Pairing)
    requires p.Valid() && GridOf(p, g) && NearlyOptimal(p, g, a) && PairsPermitted(p, other) && Increasing(other)
    ensures NoBetter(p, g, a, other)
  {
    PairingIsPermitted(p, g, other);
    PairingIsNoBetter(p, g, a, other);
  }

  lemma LossOfUnits(n: nat)
    ensures Loss(n, 0.0) == 0.0 && Loss(n, ULP) == n as real * ULP >= 0.0
  {
    LossIsProduct(n, 0.0);
    LossIsProduct(n, ULP);
  }

  /** Every pair is similar enough and agrees in every control slot. */
  ghost predicate PairsPermitted(p: Problem, a: Pairing)
    requires p.Valid()
  {
    forall i :: i in a ==>
      && i < |p.expected| && a[i] < |p.observed|
      && p.scores[i][a[i]] >= p.threshold && SlotsAgree(p.expected[i], p.observed[a[i]])
  }

  ghost predicate Increasing(a: Pairing) {
    forall k, l :: k in a && l in a && k < l ==> a[k] < a[l]
  }

  /** What every run ends with: a pairing that realises the corner of a solved table. */
  ghost predicate IsResult(p: Problem, g: Grid, t: Table, a: Pairing) {
    && p.Valid() && GridOf(p, g) && Solved(g, Round12, t)
    && IsPairing(g, a) && (0, 0) in t && t[(0, 0)].value == Cell(|a|, Total(g, a))
  }

  method AlignTexts(p: Problem) returns (a: Pairing, ghost g: Grid, ghost t: Table, ghost steps: nat)
    requires p.Valid()
    ensures IsResult(p, g, t, a) && NearlyOptimal(p, g, a) && PairsPermitted(p, a)
    ensures steps <= |p.expected| + |p.observed|
  {
    var grid := BuildGrid(p);
    g := grid;
    a, t, steps := Align(grid, Round12);
    RealisedIsNearlyOptimal(p, g, t, a);
    PairingIsPermitted(p, g, a);
  }

  /** The pairings that compete are exactly the increasing ones of similar and safe pairs. */
  lemma PairingIsPermitted(p: Problem, g: Grid, a: Pairing)
    requires p.Valid() && GridOf(p, g)
    ensures IsPairing(g, a) <==> PairsPermitted(p, a) && Increasing(a)
  {
    forall i | i in a
      ensures i < g.rows && a[i] < g.columns ==>
                (g.allowed[i][a[i]] <==>
                 p.scores[i][a[i]] >= p.threshold && SlotsAgree(p.expected[i], p.observed[a[i]]))
    {
      if i < g.rows && a[i] < g.columns {
        assert RowPermits(p, i, g.allowed[i]);
      }
    }
  }

  lemma RealisedIsNearlyOptimal(p: Problem, g: Grid, t: Table, a: Pairing)
    requires p.Valid() && GridOf(p, g) && Solved(g, Round12, t)
    requires IsPairing(g, a) && (0, 0) in t && t[(0, 0)].value == Cell(|a|, Total(g, a))
    ensures NearlyOptimal(p, g, a)
  {
    if p.IsCoarse() {
      var l: nat :| 0 < l <= FINEST && p.OnMultiples(l);
      RoundingIsExactOnMultiples(p, g, l);
      RealisedCornerIsOptimal(g, Round12, Multiples(l), 0.0, t, a);
    } else {
      RoundingIsReliable(g);
      RealisedCornerIsOptimal(g, Round12, _ => true, ULP, t, a);
    }
  }

  // ----- The report -----

  datatype TextMatch = TextMatch(expected: string, observed: string, similarity: real, matched: bool)

  /** The largest entry, or zero for an empty row. */
  method MaxOrZero(row: seq<real>) returns (best: real)
    ensures row == [] ==> best == 0.0
    ensures row != [] ==> best in row && forall x :: x in row ==> x <= best
  {
    if row == [] {
      return 0.0;
    }
    best := row[0];
    for k := 1 to |row|
      invariant best in row && forall l :: 0 <= l < k ==> row[l] <= best
    {
      if row[k] > best {
        best := row[k];
      }
    }
  }

  /** The rounded value of the largest entry, or zero if there is none. */
  ghost predicate IsLargest(row: seq<real>, similarity: real) {
    if row == [] then similarity == 0.0
    else (exists x :: x in row && similarity == Round3(x)) && forall x :: x in row ==> Round3(x) <= similarity
  }

  /** What the report says of utterance `i`, given the pairing. */
  ghost predicate LineFits(p: Problem, a: Pairing, i: nat, line: TextMatch)
    requires p.Valid() && i < |p.expected|
    requires i in a ==> a[i] < |p.observed|
  {
    && line.expected == p.expected[i] && (line.matched <==> i in a)
    && (line.matched ==>
          && line.observed == p.observed[a[i]] && line.similarity == Round3(p.scores[i][a[i]])
          && p.scores[i][a[i]] >= p.threshold && SlotsAgree(line.expected, line.observed))
    && (!line.matched ==> line.observed == "" && IsLargest(p.scores[i], line.similarity))
  }

  method ReportLine(p: Problem, a: Pairing, i: nat) returns (line: TextMatch)
    requires p.Valid() && i < |p.expected|
    requires i in a ==> a[i] < |p.observed| && p.scores[i][a[i]] >= p.threshold
    requires i in a ==> SlotsAgree(p.expected[i], p.observed[a[i]])
    ensures LineFits(p, a, i, line)
  {
    var best := MaxOrZero(p.scores[i]);
    if i in a {
      line := TextMatch(p.expected[i], p.observed[a[i]], Round3(p.scores[i][a[i]]), true);
    } else {
      line := TextMatch(p.expected[i], "", Round3(best), false);
      forall x | x in p.scores[i]
        ensures Round3(x) <= line.similarity
      {
        Round3Monotone(x, best);
      }
    }
  }

  /** One report line per expected utterance, in order. */
  method ReportLines(p: Problem, a: Pairing) returns (matches: seq<TextMatch>)
    requires p.Valid() && PairsPermitted(p, a)
    ensures |matches| == |p.expected| && forall i :: 0 <= i < |matches| ==> LineFits(p, a, i, matches[i])
  {
    matches := [];
    for i := 0 to |p.expected|
      invariant |matches| == i
      invariant forall k :: 0 <= k < i ==> LineFits(p, a, k, matches[k])
    {
      var line := ReportLine(p, a, i);
      matches := matches + [line];
    }
  }

  method MonotonicTextMatches(p: Problem)
    returns (matches: seq<TextMatch>, ghost a: Pairing, ghost g: Grid, ghost t: Table)
    requires p.Valid()
    ensures IsResult(p, g, t, a) && NearlyOptimal(p, g, a) && PairsPermitted(p, a)
    ensures |matches| == |p.expected| && forall i :: 0 <= i < |matches| ==> LineFits(p, a, i, matches[i])
  {
    var chosen: Pairing;
    ghost var steps;
    chosen, g, t, steps := AlignTexts(p);
    a := chosen;
    matches := ReportLines(p, chosen);
  }
}
