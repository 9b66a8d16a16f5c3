/**
 The two-key dynamic program over an n by m table: first the number of pairs, then the total
 score as seen through a rounding key, then a fixed priority of the three moves.

 The key is a parameter, so that the proofs use only what is said about it.
 */
module MonotonicPairing {

  /** Scores and permissions for pairing row `i` with column `j`. */
  datatype Grid = Grid(rows: nat, columns: nat, score: seq<seq<real>>, allowed: seq<seq<bool>>) {
    ghost predicate Valid() {
      && |score| == rows && |allowed| == rows
      && forall i :: 0 <= i < rows ==> |score[i]| == columns && |allowed[i]| == columns
    }
  }

  type Pairing = map<nat, nat>

  /**
   `a`, restricted to rows from `i` on, pairs them with allowed columns from `j` on, and both
   sides increase.
   */
  ghost predicate PairingFrom(g: Grid, a: Pairing, i: nat, j: nat)
    requires g.Valid()
  {
    && (forall k :: k in a && k >= i ==> k < g.rows && j <= a[k] < g.columns && g.allowed[k][a[k]])
    && (forall k, l :: k in a && l in a && i <= k < l ==> a[k] < a[l])
  }

  ghost predicate IsPairing(g: Grid, a: Pairing)
    requires g.Valid()
  {
    PairingFrom(g, a, 0, 0)
  }

  ghost function CountFrom(g: Grid, a: Pairing, i: nat): nat
    requires i <= g.rows
    decreases g.rows - i
  {
    if i == g.rows then 0 else (if i in a then 1 else 0) + CountFrom(g, a, i + 1)
  }

  ghost function Entry(g: Grid, a: Pairing, i: nat): real
    requires g.Valid() && i < g.rows
  {
    if i in a && a[i] < g.columns then g.score[i][a[i]] else 0.0
  }

  ghost function TotalFrom(g: Grid, a: Pairing, i: nat): real
    requires g.Valid() && i <= g.rows
    decreases g.rows - i
  {
    if i == g.rows then 0.0 else Entry(g, a, i) + TotalFrom(g, a, i + 1)
  }

  ghost function Total(g: Grid, a: Pairing): real
    requires g.Valid()
  {
    TotalFrom(g, a, 0)
  }

  lemma {:induction false} AgreeingPairings(g: Grid, a: Pairing, b: Pairing, i: nat)
    requires g.Valid() && i <= g.rows
    requires forall k :: k >= i ==> (k in a <==> k in b) && (k in a ==> a[k] == b[k])
    ensures CountFrom(g, a, i) == CountFrom(g, b, i) && TotalFrom(g, a, i) == TotalFrom(g, b, i)
    decreases g.rows - i
  {
    if i < g.rows {
      AgreeingPairings(g, a, b, i + 1);
    }
  }

  lemma {:induction false} CountIsSize(g: Grid, a: Pairing, i: nat)
    requires g.Valid() && i <= g.rows
    requires forall k :: k in a ==> i <= k < g.rows
    ensures CountFrom(g, a, i) == |a|
  {
    assert a.Keys == KeysFrom(g, a, i);
    CountIsKeys(g, a, i);
  }

  ghost function KeysFrom(g: Grid, a: Pairing, i: nat): set<nat> {
    set k | k in a.Keys && i <= k < g.rows
  }

  lemma {:induction false} CountIsKeys(g: Grid, a: Pairing, i: nat)
    requires i <= g.rows
    ensures CountFrom(g, a, i) == |KeysFrom(g, a, i)|
    decreases g.rows - i
  {
    if i == g.rows {
      assert KeysFrom(g, a, i) == {};
    } else {
      CountIsKeys(g, a, i + 1);
      assert KeysFrom(g, a, i) == KeysFrom(g, a, i + 1) + if i in a then {i} else {};
    }
  }

  // ----- The table -----

  datatype Choice = Done | SkipRow | SkipColumn | Pair
  datatype Cell = Cell(count: nat, total: real)
  datatype Candidate = Candidate(value: Cell, priority: nat, choice: Choice)

  /** Lexicographic order on count, rounded total and priority. */
  predicate Outranks(key: real -> real, a: Candidate, b: Candidate) {
    || a.value.count > b.value.count
    || (a.value.count == b.value.count && key(a.value.total) > key(b.value.total))
    || (a.value.count == b.value.count && key(a.value.total) == key(b.value.total) && a.priority > b.priority)
  }

  /** The first candidate that no other outranks. */
  function Winner(key: real -> real, options: seq<Candidate>): (w: Candidate)
    requires options != []
    ensures w in options
    ensures forall o :: o in options ==> !Outranks(key, o, w)
  {
    if |options| == 1 then options[0]
    else
      assert forall o :: o in options ==> o == options[0] || o in options[1..];
      var rest := Winner(key, options[1..]);
      if Outranks(key, rest, options[0]) then rest else options[0]
  }

  const EMPTY := Cell(0, 0.0)

  function Options(g: Grid, i: nat, j: nat, down: Cell, right: Cell, diagonal: Cell): (options: seq<Candidate>)
    requires g.Valid() && i <= g.rows && j <= g.columns && (i < g.rows || j < g.columns)
    ensures options != []
  {
    var skipRow := Candidate(down, 0, SkipRow);
    var skipColumn := Candidate(right, 1, SkipColumn);
    if j == g.columns then [skipRow]
    else if i == g.rows then [skipColumn]
    else if g.allowed[i][j] then
      [skipRow, skipColumn, Candidate(Cell(diagonal.count + 1, diagonal.total + g.score[i][j]), 2, Pair)]
    else [skipRow, skipColumn]
  }

  /** A finished table: every cell holds the winner among the options its neighbours offer. */
  type Table = map<(nat, nat), Candidate>

  predicate InTable(g: Grid, i: int, j: int) {
    0 <= i <= g.rows && 0 <= j <= g.columns
  }

  ghost predicate CellSolved(g: Grid, key: real -> real, t: Table, i: nat, j: nat)
    requires g.Valid() && InTable(g, i, j)
  {
    && (i, j) in t && (i < g.rows ==> (i + 1, j) in t) && (j < g.columns ==> (i, j + 1) in t)
    && (i < g.rows && j < g.columns ==> (i + 1, j + 1) in t)
    && t[(i, j)] == if i == g.rows && j == g.columns then Candidate(EMPTY, 0, Done)
                    else Winner(key, TableOptions(g, t, i, j))
  }

  function TableOptions(g: Grid, t: Table, i: nat, j: nat): (options: seq<Candidate>)
    requires g.Valid() && InTable(g, i, j) && (i < g.rows || j < g.columns)
    requires i < g.rows ==> (i + 1, j) in t
    requires j < g.columns ==> (i, j + 1) in t
    requires i < g.rows && j < g.columns ==> (i + 1, j + 1) in t
    ensures options != []
  {
    Options(g, i, j,
            if i < g.rows then t[(i + 1, j)].value else EMPTY,
            if j < g.columns then t[(i, j + 1)].value else EMPTY,
            if i < g.rows && j < g.columns then t[(i + 1, j + 1)].value else EMPTY)
  }

  ghost predicate Solved(g: Grid, key: real -> real, t: Table)
    requires g.Valid()
  {
    forall i: nat, j: nat {:trigger CellSolved(g, key, t, i, j)} :: InTable(g, i, j) ==> CellSolved(g, key, t, i, j)
  }

  /** Each decision names a neighbour inside the table and carries that neighbour's value. */
  lemma DecisionFits(g: Grid, key: real -> real, t: Table, i: nat, j: nat)
    requires g.Valid() && InTable(g, i, j) && CellSolved(g, key, t, i, j)
    ensures var c := t[(i, j)];
            match c.choice
            case Done => i == g.rows && j == g.columns && c.value == EMPTY
            case SkipRow => i < g.rows && c.value == t[(i + 1, j)].value
            case SkipColumn => j < g.columns && c.value == t[(i, j + 1)].value
            case Pair => i < g.rows && j < g.columns && g.allowed[i][j] &&
                         c.value == Cell(t[(i + 1, j + 1)].value.count + 1,
                                         t[(i + 1, j + 1)].value.total + g.score[i][j])
  {
  }

  /** A cell never counts more pairs than rows or columns remain. */
  lemma {:induction false} CountFits(g: Grid, key: real -> real, t: Table, i: nat, j: nat)
    requires g.Valid() && InTable(g, i, j) && Solved(g, key, t)
    ensures (i, j) in t && t[(i, j)].value.count <= g.rows - i && t[(i, j)].value.count <= g.columns - j
    decreases g.rows - i + g.columns - j
  {
    assert CellSolved(g, key, t, i, j);
    DecisionFits(g, key, t, i, j);
    match t[(i, j)].choice
    case Done =>
    case SkipRow => CountFits(g, key, t, i + 1, j);
    case SkipColumn => CountFits(g, key, t, i, j + 1);
    case Pair => CountFits(g, key, t, i + 1, j + 1);
  }

  /** Not ahead in count, nor, with equal counts, in the key of the total. */
  predicate NotAhead(key: real -> real, a: Cell, b: Cell) {
    a.count < b.count || (a.count == b.count && key(a.total) <= key(b.total))
  }

  /** A permitted pair is taken unless skipping is strictly ahead. */
  lemma PairIsTaken(g: Grid, key: real -> real, t: Table, i: nat, j: nat, pair: Cell)
    requires g.Valid() && i < g.rows && j < g.columns && g.allowed[i][j] && CellSolved(g, key, t, i, j)
    requires var d := t[(i + 1, j + 1)].value; pair == Cell(d.count + 1, d.total + g.score[i][j])
    requires NotAhead(key, t[(i + 1, j)].value, pair) && NotAhead(key, t[(i, j + 1)].value, pair)
    ensures t[(i, j)].value == pair
  {
    var options := TableOptions(g, t, i, j);
    assert options[2] == Candidate(pair, 2, Pair);
    assert Outranks(key, options[2], options[0]) && Outranks(key, options[2], options[1]);
  }

  /**
   What each cell decides, said of the values around it: a permitted pair unless a skip is strictly
   ahead of it, and of the two skips the column's unless the row's is strictly ahead.
   */
  lemma ChoiceIsDecided(g: Grid, key: real -> real, t: Table, i: nat, j: nat)
    requires g.Valid() && i < g.rows && j < g.columns && CellSolved(g, key, t, i, j)
    ensures var down, right, diagonal := t[(i + 1, j)].value, t[(i, j + 1)].value, t[(i + 1, j + 1)].value;
            var pair := Cell(diagonal.count + 1, diagonal.total + g.score[i][j]);
            var paired := g.allowed[i][j] && NotAhead(key, down, pair) && NotAhead(key, right, pair);
            && (t[(i, j)].choice == Pair <==> paired)
            && (t[(i, j)].choice == SkipColumn <==> !paired && NotAhead(key, down, right))
            && (t[(i, j)].choice == SkipRow <==> !paired && !NotAhead(key, down, right))
  {
    var options := TableOptions(g, t, i, j);
    var down, right := t[(i + 1, j)].value, t[(i, j + 1)].value;
    assert options[0] == Candidate(down, 0, SkipRow) && options[1] == Candidate(right, 1, SkipColumn);
    if g.allowed[i][j] {
      var diagonal := t[(i + 1, j + 1)].value;
      var pair := Cell(diagonal.count + 1, diagonal.total + g.score[i][j]);
      assert options[2] == Candidate(pair, 2, Pair);
      WinnerOfThree(key, down, right, pair);
      assert options == [Candidate(down, 0, SkipRow), Candidate(right, 1, SkipColumn), Candidate(pair, 2, Pair)];
    } else {
      WinnerOfTwo(key, down, right);
      assert options == [Candidate(down, 0, SkipRow), Candidate(right, 1, SkipColumn)];
    }
  }

  lemma WinnerOfTwo(key: real -> real, down: Cell, right: Cell)
    ensures var options := [Candidate(down, 0, SkipRow), Candidate(right, 1, SkipColumn)];
            Winner(key, options).choice == if NotAhead(key, down, right) then SkipColumn else SkipRow
  {
    var options := [Candidate(down, 0, SkipRow), Candidate(right, 1, SkipColumn)];
    assert options[1..] == [Candidate(right, 1, SkipColumn)];
  }

  lemma WinnerOfThree(key: real -> real, down: Cell, right: Cell, pair: Cell)
    ensures var options := [Candidate(down, 0, SkipRow), Candidate(right, 1, SkipColumn), Candidate(pair, 2, Pair)];
            Winner(key, options).choice ==
            if NotAhead(key, down, pair) && NotAhead(key, right, pair) then Pair
            else if NotAhead(key, down, right) then SkipColumn else SkipRow
  {
    var options := [Candidate(down, 0, SkipRow), Candidate(right, 1, SkipColumn), Candidate(pair, 2, Pair)];
    assert options[1..] == [Candidate(right, 1, SkipColumn), Candidate(pair, 2, Pair)];
    assert options[1..][1..] == [Candidate(pair, 2, Pair)];
  }

  /** Beyond the last row or column nothing is left to pair. */
  lemma {:induction false} BorderIsEmpty(g: Grid, key: real -> real, t: Table, i: nat, j: nat)
    requires g.Valid() && InTable(g, i, j) && Solved(g, key, t) && (i == g.rows || j == g.columns)
    ensures (i, j) in t && t[(i, j)].value == EMPTY
    decreases g.rows - i + g.columns - j
  {
    assert CellSolved(g, key, t, i, j);
    DecisionFits(g, key, t, i, j);
    if i < g.rows {
      BorderIsEmpty(g, key, t, i + 1, j);
    } else if j < g.columns {
      BorderIsEmpty(g, key, t, i, j + 1);
    }
  }

  // ----- A table for every grid -----

  function CellAt(g: Grid, key: real -> real, i: nat, j: nat): Candidate
    requires g.Valid() && InTable(g, i, j)
    decreases g.rows - i + g.columns - j
  {
    if i == g.rows && j == g.columns then Candidate(EMPTY, 0, Done)
    else
      Winner(key, Options(g, i, j,
                          if i < g.rows then CellAt(g, key, i + 1, j).value else EMPTY,
                          if j < g.columns then CellAt(g, key, i, j + 1).value else EMPTY,
                          if i < g.rows && j < g.columns then CellAt(g, key, i + 1, j + 1).value else EMPTY))
  }

  function TableOf(g: Grid, key: real -> real): Table
    requires g.Valid()
  {
    map i: nat, j: nat | 0 <= i <= g.rows && 0 <= j <= g.columns :: (i, j) := CellAt(g, key, i, j)
  }

  lemma EveryGridHasTable(g: Grid, key: real -> real)
    requires g.Valid()
    ensures Solved(g, key, TableOf(g, key))
  {
    forall i: nat, j: nat
      ensures Holds(g, key, TableOf(g, key), i, j)
    {
      TableHolds(g, key, i, j);
    }
    HeldCellsAreSolved(g, key, TableOf(g, key));
  }

  lemma HeldCellsAreSolved(g: Grid, key: real -> real, t: Table)
    requires g.Valid() && forall i: nat, j: nat :: Holds(g, key, t, i, j)
    ensures Solved(g, key, t)
  {
    forall i: nat, j: nat | InTable(g, i, j)
      ensures CellSolved(g, key, t, i, j)
    {
      HeldCellIsSolved(g, key, t, i, j);
    }
  }

  /** The table holds the cell, if it is one. */
  ghost predicate Holds(g: Grid, key: real -> real, t: Table, i: nat, j: nat)
    requires g.Valid()
  {
    InTable(g, i, j) ==> (i, j) in t && t[(i, j)] == CellAt(g, key, i, j)
  }

  lemma TableHolds(g: Grid, key: real -> real, i: nat, j: nat)
    requires g.Valid()
    ensures Holds(g, key, TableOf(g, key), i, j)
  {
  }

  lemma HeldCellIsSolved(g: Grid, key: real -> real, t: Table, i: nat, j: nat)
    requires g.Valid() && InTable(g, i, j)
    requires Holds(g, key, t, i, j) && Holds(g, key, t, i + 1, j) && Holds(g, key, t, i, j + 1) &&
             Holds(g, key, t, i + 1, j + 1)
    ensures CellSolved(g, key, t, i, j)
  {
  }

  // ----- No pairing beats the table -----

  /**
   What the key may be relied on for: values in the domain that look no larger are larger by at
   most `slack`, and the totals the table forms stay in the domain.
   */
  ghost predicate Reliable(g: Grid, key: real -> real, domain: real -> bool, slack: real)
    requires g.Valid()
  {
    && (forall x, y {:trigger LooksNoLarger(key, x, y)} ::
          domain(x) && domain(y) && LooksNoLarger(key, x, y) ==> x <= y + slack)
    && domain(0.0)
    && (forall x, i, j {:trigger Plus(x, g.score[i][j])} ::
          domain(x) && 0 <= i < g.rows && 0 <= j < g.columns ==> domain(Plus(x, g.score[i][j])))
  }

  predicate LooksNoLarger(key: real -> real, x: real, y: real) {
    key(x) <= key(y)
  }

  function Plus(x: real, y: real): real {
    x + y
  }

  ghost function Loss(steps: nat, slack: real): real {
    if steps == 0 then 0.0 else Loss(steps - 1, slack) + slack
  }

  lemma {:induction false} LossIsProduct(steps: nat, slack: real)
    ensures Loss(steps, slack) == steps as real * slack
  {
    if steps > 0 {
      LossIsProduct(steps - 1, slack);
      assert steps as real * slack == (steps - 1) as real * slack + slack;
    }
  }

  lemma {:induction false} TotalsInDomain(
    g: Grid, key: real -> real, domain: real -> bool, slack: real, t: Table, i: nat, j: nat)
    requires g.Valid() && InTable(g, i, j) && Solved(g, key, t) && Reliable(g, key, domain, slack)
    ensures (i, j) in t && domain(t[(i, j)].value.total)
    decreases g.rows - i + g.columns - j
  {
    assert CellSolved(g, key, t, i, j);
    DecisionFits(g, key, t, i, j);
    match t[(i, j)].choice
    case Done =>
    case SkipRow => TotalsInDomain(g, key, domain, slack, t, i + 1, j);
    case SkipColumn => TotalsInDomain(g, key, domain, slack, t, i, j + 1);
    case Pair =>
      TotalsInDomain(g, key, domain, slack, t, i + 1, j + 1);
      assert domain(Plus(t[(i + 1, j + 1)].value.total, g.score[i][j]));
  }

  ghost predicate Beats(v: Cell, count: nat, total: real, loss: real) {
    v.count > count || (v.count == count && v.total >= total - loss)
  }

  /** The winner of a cell gives up at most one slack against any of its options. */
  lemma WinnerBeats(g: Grid, key: real -> real, domain: real -> bool, slack: real, options: seq<Candidate>,
                    o: Candidate, count: nat, total: real, loss: real)
    requires g.Valid() && Reliable(g, key, domain, slack)
    requires o in options && domain(o.value.total) && domain(Winner(key, options).value.total)
    requires Beats(o.value, count, total, loss)
    ensures Beats(Winner(key, options).value, count, total, loss + slack)
  {
    var w := Winner(key, options);
    assert !Outranks(key, o, w);
    assert o.value.count == w.value.count ==> LooksNoLarger(key, o.value.total, w.value.total);
  }

  lemma {:induction false} TableBeatsEveryPairing(
    g: Grid, key: real -> real, domain: real -> bool, slack: real, t: Table, i: nat, j: nat, a: Pairing)
    requires g.Valid() && InTable(g, i, j) && Solved(g, key, t)
    requires slack >= 0.0 && Reliable(g, key, domain, slack) && PairingFrom(g, a, i, j)
    ensures (i, j) in t
    ensures Beats(t[(i, j)].value, CountFrom(g, a, i), TotalFrom(g, a, i),
                  Loss(g.rows - i + g.columns - j, slack))
    decreases g.rows - i + g.columns - j
  {
    assert CellSolved(g, key, t, i, j);
    TotalsInDomain(g, key, domain, slack, t, i, j);
    if i < g.rows || j < g.columns {
      var o, loss := SurvivingOption(g, key, domain, slack, t, i, j, a);
      WinnerBeats(g, key, domain, slack, TableOptions(g, t, i, j), o, CountFrom(g, a, i), TotalFrom(g, a, i), loss);
    }
  }

  /** Some option of the cell already does as well as the pairing, by induction on what remains. */
  lemma {:induction false} SurvivingOption(
    g: Grid, key: real -> real, domain: real -> bool, slack: real, t: Table, i: nat, j: nat, a: Pairing)
    returns (o: Candidate, loss: real)
    requires g.Valid() && InTable(g, i, j) && Solved(g, key, t) && CellSolved(g, key, t, i, j)
    requires i < g.rows || j < g.columns
    requires slack >= 0.0 && Reliable(g, key, domain, slack) && PairingFrom(g, a, i, j)
    ensures o in TableOptions(g, t, i, j) && domain(o.value.total)
    ensures Beats(o.value, CountFrom(g, a, i), TotalFrom(g, a, i), loss)
    ensures loss + slack == Loss(g.rows - i + g.columns - j, slack)
    decreases g.rows - i + g.columns - j, 1
  {
    loss := Loss(g.rows - i + g.columns - j - 1, slack);
    if i < g.rows && i in a && a[i] == j {
      o := SurvivingPair(g, key, domain, slack, t, i, j, a, loss);
    } else if i < g.rows && i !in a {
      TableBeatsEveryPairing(g, key, domain, slack, t, i + 1, j, a);
      TotalsInDomain(g, key, domain, slack, t, i + 1, j);
      o := SkipOption(g, t, i, j, a, loss, true);
    } else {
      RowsStartBeyond(g, a, i, j);
      TableBeatsEveryPairing(g, key, domain, slack, t, i, j + 1, a);
      TotalsInDomain(g, key, domain, slack, t, i, j + 1);
      o := SkipOption(g, t, i, j, a, loss, false);
    }
  }

  lemma {:induction false} SurvivingPair(
    g: Grid, key: real -> real, domain: real -> bool, slack: real, t: Table, i: nat, j: nat, a: Pairing, loss: real)
    returns (o: Candidate)
    requires g.Valid() && InTable(g, i, j) && Solved(g, key, t) && CellSolved(g, key, t, i, j)
    requires i < g.rows && i in a && a[i] == j
    requires slack >= 0.0 && Reliable(g, key, domain, slack) && PairingFrom(g, a, i, j)
    requires loss == Loss(g.rows - i + g.columns - j - 1, slack)
    ensures o in TableOptions(g, t, i, j) && domain(o.value.total)
    ensures Beats(o.value, CountFrom(g, a, i), TotalFrom(g, a, i), loss)
    decreases g.rows - i + g.columns - j, 0
  {
    TableBeatsEveryPairing(g, key, domain, slack, t, i + 1, j + 1, a);
    TotalsInDomain(g, key, domain, slack, t, i + 1, j + 1);
    assert domain(Plus(t[(i + 1, j + 1)].value.total, g.score[i][j]));
    LossGrows(g.rows - i + g.columns - j - 2, slack);
    o := PairOption(g, t, i, j, a, loss);
  }

  lemma LossGrows(steps: nat, slack: real)
    requires slack >= 0.0
    ensures Loss(steps, slack) <= Loss(steps + 1, slack)
  {
  }

  lemma PairOption(g: Grid, t: Table, i: nat, j: nat, a: Pairing, loss: real) returns (o: Candidate)
    requires g.Valid() && i < g.rows && j < g.columns && (i + 1, j) in t && (i, j + 1) in t && (i + 1, j + 1) in t
    requires i in a && a[i] == j && g.allowed[i][j]
    requires Beats(t[(i + 1, j + 1)].value, CountFrom(g, a, i + 1), TotalFrom(g, a, i + 1), loss)
    ensures o in TableOptions(g, t, i, j) && o.value.total == t[(i + 1, j + 1)].value.total + g.score[i][j]
    ensures Beats(o.value, CountFrom(g, a, i), TotalFrom(g, a, i), loss)
  {
    o := TableOptions(g, t, i, j)[2];
  }

  lemma SkipOption(g: Grid, t: Table, i: nat, j: nat, a: Pairing, loss: real, row: bool) returns (o: Candidate)
    requires g.Valid() && InTable(g, i, j) && (i < g.rows || j < g.columns)
    requires i < g.rows ==> (i + 1, j) in t
    requires j < g.columns ==> (i, j + 1) in t
    requires i < g.rows && j < g.columns ==> (i + 1, j + 1) in t
    requires if row then i < g.rows && i !in a &&
             Beats(t[(i + 1, j)].value, CountFrom(g, a, i + 1), TotalFrom(g, a, i + 1), loss)
             else j < g.columns && Beats(t[(i, j + 1)].value, CountFrom(g, a, i), TotalFrom(g, a, i), loss)
    ensures o in TableOptions(g, t, i, j) && o.value == if row then t[(i + 1, j)].value else t[(i, j + 1)].value
    ensures Beats(o.value, CountFrom(g, a, i), TotalFrom(g, a, i), loss)
  {
    o := TableOptions(g, t, i, j)[if row || i == g.rows then 0 else 1];
  }

  lemma RowsStartBeyond(g: Grid, a: Pairing, i: nat, j: nat)
    requires g.Valid() && PairingFrom(g, a, i, j)
    requires i < g.rows ==> i in a && a[i] > j
    ensures PairingFrom(g, a, i, j + 1)
  {
  }

  /** The pairing has as many pairs as any, and against equally many at most `loss` less total. */
  ghost predicate Optimal(g: Grid, a: Pairing, loss: real)
    requires g.Valid()
  {
    && IsPairing(g, a)
    && forall other :: IsPairing(g, other) ==>
         |other| <= |a| && (|other| == |a| ==> Total(g, other) <= Total(g, a) + loss)
  }

  /** A pairing that realises the corner of a solved table is optimal up to the key's slack. */
  lemma {:induction false} RealisedCornerIsOptimal(
    g: Grid, key: real -> real, domain: real -> bool, slack: real, t: Table, a: Pairing)
    requires g.Valid() && slack >= 0.0 && Reliable(g, key, domain, slack) && Solved(g, key, t)
    requires IsPairing(g, a) && (0, 0) in t && t[(0, 0)].value == Cell(|a|, Total(g, a))
    ensures Optimal(g, a, Loss(g.rows + g.columns, slack))
  {
    forall other | IsPairing(g, other)
      ensures Beats(t[(0, 0)].value, |other|, Total(g, other), Loss(g.rows + g.columns, slack))
    {
      TableBeatsEveryPairing(g, key, domain, slack, t, 0, 0, other);
      CountIsSize(g, other, 0);
    }
  }

  // ----- The program -----

  /** The arrays agree with a solved table on the corner and on every cell from `(i, j)` on, row by row. */
  ghost predicate FilledFrom(
    g: Grid, key: real -> real, t: Table, dp: array2<Cell>, choice: array2<Choice>, i: int, j: int)
    requires g.Valid()
    requires dp.Length0 == choice.Length0 == g.rows + 1 && dp.Length1 == choice.Length1 == g.columns + 1
    reads dp, choice
  {
    forall k: nat, l: nat {:trigger CellFilled(g, key, t, dp, choice, k, l)} ::
      InTable(g, k, l) && Reached(g, i, j, k, l) ==> CellFilled(g, key, t, dp, choice, k, l)
  }

  ghost predicate CellFilled(
    g: Grid, key: real -> real, t: Table, dp: array2<Cell>, choice: array2<Choice>, k: nat, l: nat)
    requires g.Valid() && InTable(g, k, l)
    requires dp.Length0 == choice.Length0 == g.rows + 1 && dp.Length1 == choice.Length1 == g.columns + 1
    reads dp, choice
  {
    CellSolved(g, key, t, k, l) && dp[k, l] == t[(k, l)].value && choice[k, l] == t[(k, l)].choice
  }

  predicate Reached(g: Grid, i: int, j: int, k: nat, l: nat) {
    (k == g.rows && l == g.columns) || k > i || (k == i && l >= j)
  }

  /** The winner among what the neighbours offer, which settles the cell. */
  method BestOption(
    g: Grid, key: real -> real, ghost t: Table, dp: array2<Cell>, ghost choice: array2<Choice>, i: nat, j: nat)
    returns (best: Candidate)
    requires g.Valid() && InTable(g, i, j) && (i < g.rows || j < g.columns)
    requires dp.Length0 == choice.Length0 == g.rows + 1 && dp.Length1 == choice.Length1 == g.columns + 1
    requires FilledFrom(g, key, t, dp, choice, i, j + 1)
    ensures CellSolved(g, key, t[(i, j) := best], i, j)
  {
    assert i < g.rows ==> CellFilled(g, key, t, dp, choice, i + 1, j);
    assert j < g.columns ==> CellFilled(g, key, t, dp, choice, i, j + 1);
    assert i < g.rows && j < g.columns ==> CellFilled(g, key, t, dp, choice, i + 1, j + 1);
    var options := Options(g, i, j,
      if i < g.rows then dp[i + 1, j] else EMPTY,
      if j < g.columns then dp[i, j + 1] else EMPTY,
      if i < g.rows && j < g.columns then dp[i + 1, j + 1] else EMPTY);
    best := Winner(key, options);
    assert options == TableOptions(g, t[(i, j) := best], i, j);
  }

  method FillCell(g: Grid, key: real -> real, ghost t: Table, dp: array2<Cell>, choice: array2<Choice>, i: nat, j: nat)
    returns (ghost t': Table)
    requires g.Valid() && InTable(g, i, j) && (i < g.rows || j < g.columns)
    requires dp.Length0 == choice.Length0 == g.rows + 1 && dp.Length1 == choice.Length1 == g.columns + 1
    requires FilledFrom(g, key, t, dp, choice, i, j + 1)
    modifies dp, choice
    ensures FilledFrom(g, key, t', dp, choice, i, j)
  {
    var best := BestOption(g, key, t, dp, choice, i, j);
    t' := t[(i, j) := best];
    dp[i, j] := best.value;
    choice[i, j] := best.choice;
    forall k: nat, l: nat | InTable(g, k, l) && Reached(g, i, j, k, l)
      ensures CellFilled(g, key, t', dp, choice, k, l)
    {
      if (k, l) != (i, j) {
        assert old(CellFilled(g, key, t, dp, choice, k, l));
        LaterCellsStaySolved(g, key, t, i, j, best, k, l);
      }
    }
  }

  lemma LaterCellsStaySolved(g: Grid, key: real -> real, t: Table, i: nat, j: nat, c: Candidate, k: nat, l: nat)
    requires g.Valid() && InTable(g, k, l) && (k, l) != (i, j) && CellSolved(g, key, t, k, l)
    requires Reached(g, i, j, k, l)
    ensures CellSolved(g, key, t[(i, j) := c], k, l)
  {
  }

  /** Fills the table from its bottom right corner. */
  method FillTable(g: Grid, key: real -> real) returns (choice: array2<Choice>, ghost t: Table)
    requires g.Valid()
    ensures fresh(choice) && choice.Length0 == g.rows + 1 && choice.Length1 == g.columns + 1
    ensures Solved(g, key, t)
    ensures forall i: nat, j: nat {:trigger choice[i, j]} :: InTable(g, i, j) ==>
              (i, j) in t && choice[i, j] == t[(i, j)].choice
  {
    var n, m := g.rows, g.columns;
    var dp := new Cell[n + 1, m + 1]((_, _) => EMPTY);
    choice := new Choice[n + 1, m + 1]((_, _) => Done);
    t := map[(n, m) := Candidate(EMPTY, 0, Done)];
    assert FilledFrom(g, key, t, dp, choice, n, m + 1);
    for i := n + 1 downto 0
      invariant FilledFrom(g, key, t, dp, choice, i, 0)
    {
      assert FilledFrom(g, key, t, dp, choice, i, m + 1);
      for j := m + 1 downto 0
        invariant FilledFrom(g, key, t, dp, choice, i, j)
      {
        if i == n && j == m {
          assert FilledFrom(g, key, t, dp, choice, i, j);
        } else {
          t := FillCell(g, key, t, dp, choice, i, j);
        }
      }
    }
    forall i: nat, j: nat | InTable(g, i, j)
      ensures CellSolved(g, key, t, i, j) && choice[i, j] == t[(i, j)].choice
    {
      assert CellFilled(g, key, t, dp, choice, i, j);
    }
  }

  /** What the walk has collected, together with the cell it stands on, makes up the corner. */
  ghost predicate OnTheWay(g: Grid, key: real -> real, t: Table, a: Pairing, i: nat, j: nat)
    requires g.Valid()
  {
    && InTable(g, i, j) && (0, 0) in t && (i, j) in t
    && IsPairing(g, a) && (forall k :: k in a ==> k < i && a[k] < j)
    && t[(0, 0)].value.count == CountFrom(g, a, 0) + t[(i, j)].value.count
    && t[(0, 0)].value.total == TotalFrom(g, a, 0) + t[(i, j)].value.total
  }

  /**
   Walks the table from its top left corner. The walk takes at most one step per row and column,
   and the pairing it collects realises the corner's value.
   */
  method Align(g: Grid, key: real -> real) returns (a: Pairing, ghost t: Table, ghost steps: nat)
    requires g.Valid()
    ensures Solved(g, key, t) && IsPairing(g, a)
    ensures (0, 0) in t && t[(0, 0)].value == Cell(|a|, Total(g, a))
    ensures steps <= g.rows + g.columns
  {
    var choice;
    choice, t := FillTable(g, key);
    a := map[];
    steps := 0;
    var i: nat, j: nat := 0, 0;
    assert CellSolved(g, key, t, 0, 0);
    NothingPaired(g, 0);
    while i < g.rows || j < g.columns
      invariant OnTheWay(g, key, t, a, i, j) && steps <= i + j
      modifies {}
      decreases g.rows - i + g.columns - j
    {
      assert CellSolved(g, key, t, i, j);
      DecisionFits(g, key, t, i, j);
      var decision := choice[i, j];
      assert decision == t[(i, j)].choice;
      steps := steps + 1;
      match decision
      case Pair =>
        StepPair(g, key, t, a, i, j);
        a := a[i := j];
        i, j := i + 1, j + 1;
      case SkipRow =>
        i := i + 1;
      case SkipColumn =>
        j := j + 1;
      case Done =>
        break;
    }
    assert CellSolved(g, key, t, g.rows, g.columns);
    CountIsSize(g, a, 0);
  }

  lemma StepPair(g: Grid, key: real -> real, t: Table, a: Pairing, i: nat, j: nat)
    requires g.Valid() && OnTheWay(g, key, t, a, i, j)
    requires i < g.rows && j < g.columns && g.allowed[i][j] && (i + 1, j + 1) in t
    requires t[(i, j)].value.count == t[(i + 1, j + 1)].value.count + 1
    requires t[(i, j)].value.total == t[(i + 1, j + 1)].value.total + g.score[i][j]
    ensures OnTheWay(g, key, t, a[i := j], i + 1, j + 1)
  {
    ExtendFrom(g, a, i, j, 0);
  }

  lemma {:induction false} NothingPaired(g: Grid, i: nat)
    requires g.Valid() && i <= g.rows
    ensures CountFrom(g, map[], i) == 0 && TotalFrom(g, map[], i) == 0.0
    decreases g.rows - i
  {
    if i < g.rows {
      NothingPaired(g, i + 1);
    }
  }

  lemma {:induction false} ExtendFrom(g: Grid, a: Pairing, i: nat, j: nat, k: nat)
    requires g.Valid() && k <= i < g.rows && j < g.columns && i !in a
    ensures CountFrom(g, a[i := j], k) == CountFrom(g, a, k) + 1
    ensures TotalFrom(g, a[i := j], k) == TotalFrom(g, a, k) + g.score[i][j]
    decreases i - k
  {
    if k < i {
      ExtendFrom(g, a, i, j, k + 1);
    } else {
      AgreeingPairings(g, a, a[i := j], i + 1);
    }
  }
}
