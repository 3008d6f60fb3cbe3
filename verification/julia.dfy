/** The Julia escape rule: iterate z <- z*z + c from z = p and report the
    first index at which |z| > 2, or maxIters when no iterate below that index
    escapes. */
module Julia {
  import opened ComplexNumbers

  /** The escape test abs(z) > 2, stated without a square root: both sides
      are non-negative, so it is the same as AbsSq(z) > 4. */
  predicate Escaped(z: Complex) {
    AbsSq(z) > 4.0
  }

  /** The origin never escapes. */
  lemma ZeroNotEscaped()
    ensures !Escaped(Zero)
  {
  }

  /** One step of the Julia recurrence. */
  function Step(z: Complex, c: Complex): Complex {
    Add(Mul(z, z), c)
  }

  /** The n-th iterate: z_0 = p and z_{n+1} = z_n * z_n + c. */
  function Iterate(p: Complex, c: Complex, n: nat): Complex {
    if n == 0 then p else Step(Iterate(p, c, n - 1), c)
  }

  /** None of the iterates z_lo .. z_{hi-1} escapes. */
  ghost predicate NoneEscape(p: Complex, c: Complex, lo: int, hi: int) {
    forall j: nat :: lo <= j < hi ==> !Escaped(Iterate(p, c, j))
  }

  /** Reference definition of the escape time: `k` is the first index below
      `maxIters` whose iterate escapes, or `maxIters` itself when there is
      none (for a non-positive budget that is `maxIters`, since the loop
      never runs). */
  ghost predicate IsEscapeTime(p: Complex, c: Complex, maxIters: int, k: int) {
    || (0 <= k < maxIters && Escaped(Iterate(p, c, k)) && NoneEscape(p, c, 0, k))
    || (k == maxIters && NoneEscape(p, c, 0, maxIters))
  }

  /** The escape search continued from index `i`, the earlier iterates
      having stayed within radius 2. */
  function EscapeFrom(p: Complex, c: Complex, maxIters: int, i: nat): (k: int)
    requires NoneEscape(p, c, 0, i)
    ensures IsEscapeTime(p, c, maxIters, k)
    ensures maxIters <= i ==> k == maxIters
    ensures maxIters > i ==> i <= k <= maxIters
    decreases maxIters - i
  {
    if i >= maxIters then maxIters
    else if Escaped(Iterate(p, c, i)) then i
    else EscapeFrom(p, c, maxIters, i + 1)
  }

  /** escapeCount(p) for the Julia set of `c` with budget `maxIters`. */
  function EscapeCount(p: Complex, c: Complex, maxIters: int): (k: int)
    ensures IsEscapeTime(p, c, maxIters, k)
    ensures 0 <= maxIters ==> 0 <= k <= maxIters
    ensures maxIters < 0 ==> k == maxIters
  {
    EscapeFrom(p, c, maxIters, 0)
  }

  /** The loop of escapeCount as written: it walks the iterates with a local
      copy of p and of c and leaves at the first escape. */
  method ComputeEscapeCount(p: Complex, c: Complex, maxIters: int) returns (k: int)
    ensures k == EscapeCount(p, c, maxIters)
    ensures 0 <= k < maxIters ==> Escaped(Iterate(p, c, k)) && NoneEscape(p, c, 0, k)
    ensures k == maxIters ==> NoneEscape(p, c, 0, maxIters)
  {
    var z := Copy(p);
    var cc := Copy(c);
    var i := 0;
    while i < maxIters
      invariant 0 <= i
      invariant maxIters >= 0 ==> i <= maxIters
      invariant z == Iterate(p, c, i) && cc == c
      invariant NoneEscape(p, c, 0, i)
    {
      if Escaped(z) {
        EscapeTimeUnique(p, c, maxIters, i, EscapeCount(p, c, maxIters));
        return i;
      }
      z := Step(z, cc);
      i := i + 1;
    }
    EscapeTimeUnique(p, c, maxIters, maxIters, EscapeCount(p, c, maxIters));
    k := maxIters;
  }

  /** There is exactly one escape time for each point and budget. */
  lemma EscapeTimeUnique(p: Complex, c: Complex, maxIters: int, k1: int, k2: int)
    requires IsEscapeTime(p, c, maxIters, k1)
    requires IsEscapeTime(p, c, maxIters, k2)
    ensures k1 == k2
  {
  }

  /** escapeCount agrees with the reference definition, in both directions:
      the result is k exactly when k is the first escaping index (or the
      budget, when nothing escapes). */
  lemma EscapeCountIff(p: Complex, c: Complex, maxIters: int, k: int)
    ensures EscapeCount(p, c, maxIters) == k <==> IsEscapeTime(p, c, maxIters, k)
  {
    if IsEscapeTime(p, c, maxIters, k) {
      EscapeTimeUnique(p, c, maxIters, k, EscapeCount(p, c, maxIters));
    }
  }

  /** A start point already outside radius 2 has escape count 0. */
  lemma EscapesAtOnce(p: Complex, c: Complex, maxIters: int)
    requires maxIters >= 0
    requires Escaped(p)
    ensures EscapeCount(p, c, maxIters) == 0
  {
    assert Iterate(p, c, 0) == p;
  }

  /** The result is maxIters exactly when none of z_0 .. z_{maxIters-1}
      escapes. */
  lemma BudgetReachedIff(p: Complex, c: Complex, maxIters: int)
    ensures EscapeCount(p, c, maxIters) == maxIters <==> NoneEscape(p, c, 0, maxIters)
  {
    EscapeCountIff(p, c, maxIters, maxIters);
  }

  /** A larger budget does not change an escape found within a smaller one,
      and cannot find one when the smaller budget was used up. */
  lemma EscapeCountBudget(p: Complex, c: Complex, m: int, m': int)
    requires 0 <= m <= m'
    ensures EscapeCount(p, c, m) < m ==> EscapeCount(p, c, m') == EscapeCount(p, c, m)
    ensures EscapeCount(p, c, m) == m ==> EscapeCount(p, c, m') >= m
  {
    var k := EscapeCount(p, c, m);
    if k < m {
      EscapeCountIff(p, c, m', k);
    } else {
      var k' := EscapeCount(p, c, m');
      assert k' >= m;
    }
  }

  /** With c = 0 the origin is a fixed point of the recurrence. */
  lemma {:induction false} OriginFixed(n: nat)
    ensures Iterate(Zero, Zero, n) == Zero
  {
    if n > 0 {
      OriginFixed(n - 1);
    }
  }

  /** p = (0,0) with c = (0,0) never escapes: the result is the budget. */
  lemma OriginNeverEscapes(maxIters: int)
    ensures EscapeCount(Zero, Zero, maxIters) == maxIters
  {
    forall j: nat | 0 <= j < maxIters
      ensures !Escaped(Iterate(Zero, Zero, j))
    {
      OriginFixed(j);
      ZeroNotEscaped();
    }
    BudgetReachedIff(Zero, Zero, maxIters);
  }
}
