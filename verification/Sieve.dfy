/** The arithmetic of sieving odd numbers in a window. Index i of a window with
    offset `base` stands for the odd number base + 2*i + 3. */
module Sieve {
  import opened Arithmetic
  import opened Primes

  function Number(base: int, i: int): int {
    base + 2 * i + 3
  }

  /** Every entry tells whether its number is prime. */
  ghost predicate Sieved(a: seq<bool>, base: int) {
    forall i :: 0 <= i < |a| ==> (a[i] <==> Prime(Number(base, i)))
  }

  /** d's turn strikes m. */
  ghost predicate Hit(d: int, m: int) {
    3 <= d && Prime(d) && d * d <= m && Divides(d, m)
  }

  /** Some prime below `bound` has struck m. */
  ghost predicate Struck(m: int, bound: int) {
    exists d :: 3 <= d < bound && Hit(d, m)
  }

  /** Entries say which numbers no prime below `bound` has struck. */
  ghost predicate SievedTo(a: seq<bool>, base: int, bound: int) {
    forall i :: 0 <= i < |a| ==> (a[i] <==> !Struck(Number(base, i), bound))
  }

  /** An odd product has odd factors. */
  lemma OddFactors(m: int, q: int, d: int)
    requires m == q * d && m % 2 == 1
    ensures q % 2 == 1 && d % 2 == 1
  {
    EvenFactor(q, d);
    EvenFactor(d, q);
  }

  lemma EvenFactor(q: int, d: int)
    ensures q % 2 == 0 ==> q * d % 2 == 0
  {
    if q % 2 == 0 {
      assert q * d == q / 2 * d * 2 by { assert q == q / 2 * 2; }
      DivModUnique(q * d, 2, q / 2 * d, 0);
    }
  }

  /** An odd number is prime exactly when no prime up to its square root struck it. */
  lemma PrimeIffNotStruck(m: int, bound: int)
    requires 3 <= m && m % 2 == 1 && 3 <= bound
    requires forall d :: Hit(d, m) ==> d < bound
    ensures Prime(m) <==> !Struck(m, bound)
  {
    if !Prime(m) {
      var p := SmallFactor(m);
      var q := DividesElim(p, m);
      OddFactors(m, q, p);
      assert Hit(p, m);
    }
    if Struck(m, bound) {
      var d :| 3 <= d < bound && Hit(d, m);
      MulMono(3, d, d);
    }
  }

  lemma HitBelow(d: int, m: int, s: int)
    requires Hit(d, m) && 0 <= s && m < s * s
    ensures d < s
  {
    SquareLess(d, s);
  }

  lemma StruckStep(m: int, d: int)
    requires 3 <= d
    ensures Struck(m, d + 2) <==> Struck(m, d) || Hit(d, m) || Hit(d + 1, m)
  {
    if Struck(m, d + 2) {
      var e :| 3 <= e < d + 2 && Hit(e, m);
      if e < d { assert Struck(m, d); }
    }
  }

  lemma EvenNotPrime(q: int)
    requires 2 < q && q % 2 == 0
    ensures !Prime(q)
  {
    assert Divides(2, q);
  }

  lemma NotPrimeNotHit(d: int, m: int)
    requires !Prime(d)
    ensures !Hit(d, m)
  {
  }

  /** Between two odd multiples d*k and d*(k+2) there is no odd multiple of d. */
  lemma NoMultipleBetween(d: int, k: int, m: int)
    requires 0 < d && k % 2 == 1 && m % 2 == 1 && d * k < m < d * (k + 2)
    ensures !Divides(d, m)
  {
    if Divides(d, m) {
      var q := DividesElim(d, m);
      if q <= k { MulMono(q, k, d); }
      if q >= k + 2 { MulMono(k + 2, q, d); }
      OddFactors(m, q, d);
    }
  }

  lemma NoHitBetween(d: int, k: int, m: int)
    requires 0 < d && k % 2 == 1 && m % 2 == 1 && d * k < m < d * (k + 2)
    ensures !Hit(d, m)
  {
    NoMultipleBetween(d, k, m);
  }

  /** The least odd k with d*k > low that is not below d itself. */
  function FirstMultiplier(d: int, low: nat): (k: int)
    requires 0 < d && d % 2 == 1
    ensures k % 2 == 1 && d <= k
  {
    var j := low / d + 1;
    var k := if j % 2 == 0 then j + 1 else j;
    if k <= d then d else k
  }

  lemma FirstMultiple(d: int, low: nat)
    requires 3 <= d && d % 2 == 1
    ensures low < d * FirstMultiplier(d, low) && d * FirstMultiplier(d, low) % 2 == 1
  {
    var k := FirstMultiplier(d, low);
    assert low == low / d * d + low % d;
    MulMono(low / d + 1, k, d);
    OddProduct(d, k);
  }

  lemma OddProduct(d: int, k: int)
    requires d % 2 == 1 && k % 2 == 1
    ensures d * k % 2 == 1
  {
    var a, b := d / 2, k / 2;
    assert d == 2 * a + 1 && k == 2 * b + 1;
    assert (2 * a + 1) * (2 * b + 1) == (2 * (a * b) + a + b) * 2 + 1;
    DivModUnique(d * k, 2, 2 * (a * b) + a + b, 1);
  }

  /** Nothing in the window is hit before the first multiple. */
  lemma NoHitBefore(d: int, low: nat, m: int)
    requires 3 <= d && d % 2 == 1 && low < m < d * FirstMultiplier(d, low) && m % 2 == 1
    ensures !Hit(d, m)
  {
    if Hit(d, m) {
      var q := DividesElim(d, m);
      OddFactors(m, q, d);
      MultiplierAtLeast(d, low, q);
      MulMono(FirstMultiplier(d, low), q, d);
    }
  }

  lemma MultiplierAtLeast(d: int, low: nat, q: int)
    requires 3 <= d && d % 2 == 1 && q % 2 == 1 && low < q * d && d * d <= q * d
    ensures FirstMultiplier(d, low) <= q
  {
    if q < d { MulMono(q + 1, d, d); }
    assert low / d < q by {
      if q <= low / d {
        MulMono(q, low / d, d);
      }
    }
  }
}
