/** The multiply-with-carry generator: two states, each stepped as a * low half + high half. */
module Multiply {
  const HALF := 0x1_0000
  const UINT32 := 0x1_0000_0000
  const Z_FACTOR := 36969
  const W_FACTOR := 18000

  type uint32 = x: int | 0 <= x < UINT32

  /** One step of a state with factor a. */
  function Step(a: int, x: int): (v: int) {
    a * (x % HALF) + x / HALF
  }

  function Modulus(a: int): (v: int) { a * HALF - 1 }

  function Iterate(a: int, x: int, n: nat): (v: int) {
    if n == 0 then x else Step(a, Iterate(a, x, n - 1))
  }

  /** HALF to the power n. */
  function Shift(n: nat): (v: int) {
    if n == 0 then 1 else HALF * Shift(n - 1)
  }

  // ---------- one step ----------

  /** No step overflows 32 bits. */
  lemma StepFits(a: int, x: int)
    requires 0 < a < HALF && 0 <= x < UINT32
    ensures 0 <= Step(a, x) < UINT32
  {
  }

  lemma MulLe(a: int, x: int, y: int)
    requires 0 <= a && 0 <= x <= y
    ensures 0 <= a * x <= a * y
  {
  }

  /** A step divides by HALF modulo the modulus. */
  lemma StepDivides(a: int, x: int)
    ensures Step(a, x) * HALF == x + Modulus(a) * (x % HALF)
  {
  }

  /** A step multiplies by the factor modulo the modulus. */
  lemma StepMultiplies(a: int, x: int)
    ensures a * x == Step(a, x) + Modulus(a) * (x / HALF)
  {
  }

  ghost predicate Multiple(m: int, x: int) {
    exists k :: x == m * k
  }

  lemma MultipleSum(m: int, x: int, k: int, sign: int)
    requires Multiple(m, x)
    ensures Multiple(m, x + m * k) && Multiple(m, x - m * k) && Multiple(m, sign * x)
  {
    var j :| x == m * j;
    assert x + m * k == m * (j + k);
    assert x - m * k == m * (j - k);
    assert sign * x == m * (sign * j);
  }

  /** The step leaves the multiples of the modulus, the only states it cannot leave, exactly to themselves. */
  lemma DegenerateIff(a: int, x: int)
    ensures Multiple(Modulus(a), Step(a, x)) <==> Multiple(Modulus(a), x)
  {
    StepDivides(a, x);
    StepMultiplies(a, x);
    if Multiple(Modulus(a), x) {
      MultipleSum(Modulus(a), x, 0, a);
      MultipleSum(Modulus(a), a * x, x / HALF, 1);
    }
    if Multiple(Modulus(a), Step(a, x)) {
      MultipleSum(Modulus(a), Step(a, x), 0, HALF);
      MultipleSum(Modulus(a), HALF * Step(a, x), x % HALF, 1);
    }
  }

  /** Below the modulus the step is one-to-one and stays below it, so the states run in cycles. */
  lemma StepPermutes(a: int, x: int, y: int)
    requires 0 < a < HALF && 0 <= x < Modulus(a) && 0 <= y < Modulus(a)
    ensures 0 <= Step(a, x) < Modulus(a)
    ensures Step(a, x) == Step(a, y) ==> x == y
  {
    hide Step, Modulus;
    StepBelow(a, x);
    StepDivides(a, x);
    StepDivides(a, y);
    if Step(a, x) == Step(a, y) {
      Distributes(Modulus(a), y % HALF, x % HALF);
      SameResidue(Modulus(a), x, y, y % HALF - x % HALF);
    }
  }

  lemma Distributes(m: int, u: int, v: int)
    ensures m * u - m * v == m * (u - v)
  {
  }

  lemma SameResidue(m: int, x: int, y: int, d: int)
    requires 0 <= x < m && 0 <= y < m && x - y == m * d
    ensures x == y
  {
  }

  lemma StepBelow(a: int, x: int)
    requires 0 < a < HALF && 0 <= x < Modulus(a)
    ensures 0 <= Step(a, x) < Modulus(a)
  {
    var lo, hi := x % HALF, x / HALF;
    MulLe(a, lo, HALF - 1);
    assert a * (HALF - 1) == a * HALF - a;
    assert hi <= a - 1;
    if lo < HALF - 1 {
      MulLe(a, lo, HALF - 2);
      assert a * (HALF - 2) == a * HALF - 2 * a;
    }
  }

  /** A non-zero state steps to a non-zero state. */
  lemma StaysNonZero(a: int, x: int)
    requires 0 < a && 0 < x
    ensures 0 < Step(a, x)
  {
  }

  // ---------- any number of steps ----------

  lemma Chain(z: int, y: int, s: int, m: int, lo: int)
    requires z * HALF == y + m * lo
    ensures z * (HALF * s) == y * s + m * (lo * s)
  {
  }

  lemma BelowIsNoMultiple(m: int, x: int)
    requires 0 < x < m
    ensures !Multiple(m, x)
  {
  }

  /** From the seeds the source gives, neither state ever becomes zero or degenerate. */
  lemma SeedsNeverDegenerate(n: nat)
    ensures 0 < Iterate(36969, 362436069, n) < UINT32
    ensures !Multiple(36969 * 0x1_0000 - 1, Iterate(36969, 362436069, n))
    ensures 0 < Iterate(18000, 521288629, n) < UINT32
    ensures !Multiple(18000 * 0x1_0000 - 1, Iterate(18000, 521288629, n))
  {
    hide Multiple, Iterate;
    AfterSteps(Z_FACTOR, 362436069, n);
    AfterSteps(W_FACTOR, 521288629, n);
    BelowIsNoMultiple(Modulus(Z_FACTOR), 362436069);
    BelowIsNoMultiple(Modulus(W_FACTOR), 521288629);
  }

  /** After n steps, the state times 2 to the 16n is the first state modulo the modulus; the state fits 32 bits and
      is still non-zero and not degenerate. */
  lemma {:induction false} AfterSteps(a: int, x: int, n: nat)
    requires 0 < a < HALF && 0 < x < UINT32
    ensures 0 < Iterate(a, x, n) < UINT32
    ensures Multiple(Modulus(a), Iterate(a, x, n) * Shift(n) - x)
    ensures Multiple(Modulus(a), Iterate(a, x, n)) <==> Multiple(Modulus(a), x)
  {
    var m := Modulus(a);
    if n == 0 {
      assert Iterate(a, x, 0) * Shift(0) - x == m * 0;
    } else {
      AfterSteps(a, x, n - 1);
      var y, s := Iterate(a, x, n - 1), Shift(n - 1);
      StepFits(a, y);
      StaysNonZero(a, y);
      DegenerateIff(a, y);
      StepDivides(a, y);
      Chain(Step(a, y), y, s, m, y % HALF);
      MultipleSum(m, y * s - x, (y % HALF) * s, 1);
    }
  }

  lemma ShiftedUp(z: uint32, w: uint32)
    ensures var r := z * HALF % UINT32 + w % HALF; 0 <= r < UINT32 && r / HALF == z % HALF && r % HALF == w % HALF
  {
  }

  // ---------- the generator ----------

  class RandomGenerator {
    var w: uint32
    var z: uint32

    constructor ()
      ensures w == 521288629 && z == 362436069
    {
      w, z := 521288629, 362436069;
    }

    method MwcRandom() returns (r: uint32)
      modifies this
      ensures z == Step(36969, old(z)) && w == Step(18000, old(w))
      ensures r / 0x1_0000 == z % 0x1_0000 && r % 0x1_0000 == w % 0x1_0000
    {
      StepFits(Z_FACTOR, z);
      StepFits(W_FACTOR, w);
      z := Z_FACTOR * (z % HALF) + z / HALF;
      w := W_FACTOR * (w % HALF) + w / HALF;
      ShiftedUp(z, w);
      r := z * HALF % UINT32 + w % HALF;
    }
  }
}
