/** Rounding a real to a whole number, half to even, as Python's `round` does. */
module Rounding {

  function RoundToInt(y: real): (n: int)
    ensures y - 0.5 <= n as real <= y + 0.5
    ensures y.Floor as real == y ==> n == y.Floor
    ensures y - y.Floor as real == 0.5 ==> n % 2 == 0
  {
    var below := y.Floor;
    var rest := y - below as real;
    if rest < 0.5 then below
    else if rest > 0.5 then below + 1
    else if below % 2 == 0 then below else below + 1
  }

  lemma RoundToIntIsMonotone(x: real, y: real)
    requires x <= y
    ensures RoundToInt(x) <= RoundToInt(y)
  {
    assert x.Floor <= y.Floor;
  }
}
