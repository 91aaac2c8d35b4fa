/**
 * `Math.round` of ECMAScript (section 15.8.2.15 of ECMA-262 5.1) over exact
 * reals: the integer closest to x, ties going toward +infinity.
 */
module JsMath {

  /** The number `Math.round(x)` returns, for a finite x. */
  function Round(x: real): (n: int)
    ensures n as real - 0.5 <= x < n as real + 0.5
  {
    (x + 0.5).Floor
  }

  /** The bound in Round's contract determines the result: it is exactly the
      "closest integer, ties upward" of the standard. */
  lemma RoundUnique(x: real, n: int)
    requires n as real - 0.5 <= x < n as real + 0.5
    ensures Round(x) == n
  {
    var m := Round(x);
    assert m as real - 0.5 <= x < m as real + 0.5;
    assert m as real < n as real + 1.0 && n as real < m as real + 1.0;
  }

  /** Integers are left unchanged. */
  lemma RoundOfInteger(n: int)
    ensures Round(n as real) == n
  {
    RoundUnique(n as real, n);
  }

  /** Rounding agrees with ordering: a larger input never rounds lower. */
  lemma RoundMonotone(x: real, y: real)
    requires x <= y
    ensures Round(x) <= Round(y)
  {
    var a, b := Round(x), Round(y);
    assert a as real - 0.5 <= x <= y < b as real + 0.5;
  }

  /** 42.6 rounds to 43, and a tie goes upward on both signs: 2.5 to 3 and
      -2.5 to -2. */
  lemma RoundExamples()
    ensures Round(42.6) == 43
    ensures Round(2.5) == 3
    ensures Round(-2.5) == -2
    ensures Round(-2.6) == -3
  {
    RoundUnique(42.6, 43);
    RoundUnique(2.5, 3);
    RoundUnique(-2.5, -2);
    RoundUnique(-2.6, -3);
  }
}
