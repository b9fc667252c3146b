/** MillerWitness: one round of the Miller-Rabin compositeness test. */
module MillerRabin {
  import opened Arithmetic
  import opened Primes

  /** MakeOdd: the factor 2^k taken out of n, and the odd rest. */
  function MakeOdd(n: nat): (r: (nat, nat))
    requires 0 < n
    ensures r.1 * Pow2(r.0) == n && r.1 % 2 == 1
    ensures n % 2 == 0 ==> 0 < r.0
  {
    if n % 2 == 1 then (0, n)
    else
      var (k, m) := MakeOdd(n / 2);
      assert m * Pow2(k + 1) == 2 * (m * Pow2(k));
      (k + 1, m)
  }

  /** x^(m * 2^j) modulo n, the value of z after j squarings. */
  function Val(n: int, x: int, m: nat, j: nat): int
    requires 0 < n
  {
    MulNonNeg(m, Pow2(j));
    Pow(x, m * Pow2(j)) % n
  }

  lemma ValStep(n: int, x: int, m: nat, j: nat)
    requires 0 < n
    ensures Val(n, x, m, j + 1) == Val(n, x, m, j) * Val(n, x, m, j) % n
  {
    var e := m * Pow2(j);
    assert m * Pow2(j + 1) == e + e;
    PowAdd(x, e, e);
    CongMod(Pow(x, e), n);
    CongMul(Pow(x, e) % n, Pow(x, e), Pow(x, e) % n, Pow(x, e), n);
  }

  /** n - 1 = m * 2^k, and x^m = 1 or one of x^(m*2^j) with j < k is -1. */
  ghost predicate StrongProbablePrime(n: int, x: int)
    requires 3 <= n
  {
    var (k, m) := MakeOdd(n - 1);
    Val(n, x, m, 0) == 1 || exists j :: 0 <= j < k && Val(n, x, m, j) == n - 1
  }

  lemma StrongIs(n: int, x: int, k: nat, m: nat)
    requires 3 <= n && (k, m) == MakeOdd(n - 1)
    ensures StrongProbablePrime(n, x) <==>
      Val(n, x, m, 0) == 1 || exists j :: 0 <= j < k && Val(n, x, m, j) == n - 1
  {
    hide Val;
  }

  lemma ValBelow(n: int, x: int, m: nat, j: nat)
    requires 0 < n
    ensures 0 <= Val(n, x, m, j) < n
  {
  }

  /** A number that passes also passes Fermat's test for the base. */
  lemma PassesFermat(n: int, x: int)
    requires 3 <= n && StrongProbablePrime(n, x)
    ensures Cong(Pow(x, n - 1), 1, n)
  {
    var (k, m) := MakeOdd(n - 1);
    if Val(n, x, m, 0) == 1 {
      StaysOne(n, x, m, 0, k);
    } else {
      var j :| 0 <= j < k && Val(n, x, m, j) == n - 1;
      MinusOneSquares(n, x, m, j);
      StaysOne(n, x, m, j + 1, k);
    }
    CongMod(Pow(x, n - 1), n);
  }

  /** The loop of squarings decides the strong test exactly: the result is 0
      just when x is 0 or n passes it. */
  method MillerWitness(n: int, x: int) returns (r: int)
    requires 3 <= n && n % 2 == 1
    ensures r == 0 || r == 1
    ensures r == 0 <==> x == 0 || StrongProbablePrime(n, x)
    ensures r == 0 && x != 0 ==> Cong(Pow(x, n - 1), 1, n)
  {
    var (k, m) := MakeOdd(n - 1);
    assert 0 < k;
    hide Val, Pow, StrongProbablePrime, Cong, Pow2;
    if StrongProbablePrime(n, x) { PassesFermat(n, x); }
    if x == 0 { return 0; }
    StrongIs(n, x, k, m);
    var z := Val(n, x, m, 0);
    if z == 1 { return 0; }
    var j, y := 0, z;
    while true
      invariant 0 <= j < k && z == Val(n, x, m, j) && z != 1
      invariant forall i :: 0 <= i <= j ==> Val(n, x, m, i) != 1
      decreases k - j
    {
      y := z;
      ValStep(n, x, m, j);
      ValBelow(n, x, m, j);
      z := y * y % n;
      j := j + 1;
      if !(j != k && z != 1) { break; }
    }
    if z != 1 {
      // no value up to k - 1 is -1: its square would be 1
      forall i | 0 <= i < k ensures Val(n, x, m, i) != n - 1 {
        if Val(n, x, m, i) == n - 1 { MinusOneSquares(n, x, m, i); }
      }
      return 1;
    }
    if y + 1 != n {
      forall i | 0 <= i < k ensures Val(n, x, m, i) != n - 1 {
        if Val(n, x, m, i) == n - 1 {
          MinusOneSquares(n, x, m, i);
          if i >= j { StaysOne(n, x, m, j, i); }
        }
      }
      return 1;
    }
    return 0;
  }

  lemma MinusOneSquares(n: int, x: int, m: nat, j: nat)
    requires 3 <= n && Val(n, x, m, j) == n - 1
    ensures Val(n, x, m, j + 1) == 1
  {
    ValStep(n, x, m, j);
    assert (n - 1) * (n - 1) == (n - 2) * n + 1;
    DivModUnique((n - 1) * (n - 1), n, n - 2, 1);
  }

  lemma {:induction false} StaysOne(n: int, x: int, m: nat, i: nat, j: nat)
    requires 3 <= n && i <= j && Val(n, x, m, i) == 1
    ensures Val(n, x, m, j) == 1
  {
    if i < j {
      StaysOne(n, x, m, i, j - 1);
      ValStep(n, x, m, j - 1);
      DivModUnique(1, n, 0, 1);
    }
  }

  /** Modulo a prime the only square roots of 1 are 1 and -1. */
  lemma RootsOfOne(p: int, y: int)
    requires Prime(p) && 0 <= y < p && y * y % p == 1
    ensures y == 1 || y == p - 1
  {
    DivModUnique(1, p, 0, 1);
    assert (y - 1) * (y + 1) == y * y - 1;
    CongAdd(y * y, 1, 1, 1, p);
    Euclid(p, y - 1, y + 1);
    if Cong(y - 1, 0, p) {
      CongAdd(y - 1, 0, 1, 1, p);
      CongSmall(y, 1, p);
    } else {
      CongIntro(p, 0, 1, p);
      CongAdd(y + 1, 0, 1, 1, p);
      CongAdd(p, 0, 1, 1, p);
      CongSmall(y, p - 1, p);
    }
  }

  /** Going back from a 1 at step i modulo a prime. */
  lemma {:induction false} BackFromOne(p: int, x: int, m: nat, i: nat)
    requires Prime(p) && 3 <= p && Val(p, x, m, i) == 1
    ensures Val(p, x, m, 0) == 1 || exists j :: 0 <= j < i && Val(p, x, m, j) == p - 1
  {
    if i > 0 {
      ValStep(p, x, m, i - 1);
      CongMod(Pow(x, m * Pow2(i - 1)), p);
      RootsOfOne(p, Val(p, x, m, i - 1));
      if Val(p, x, m, i - 1) == 1 { BackFromOne(p, x, m, i - 1); }
    }
  }

  /** An odd prime passes for every base it does not divide. */
  lemma PrimePasses(p: int, x: int)
    requires Prime(p) && 3 <= p && x % p != 0
    ensures StrongProbablePrime(p, x)
  {
    var (k, m) := MakeOdd(p - 1);
    Fermat(p, x);
    DivModUnique(1, p, 0, 1);
    BackFromOne(p, x, m, k);
  }

  /** So a base from 1 to n-1 for which MillerWitness answers 1 proves n composite. */
  lemma WitnessProvesComposite(n: int, x: int)
    requires 3 <= n && 1 <= x < n && !StrongProbablePrime(n, x)
    ensures !Prime(n)
  {
    DivModUnique(x, n, 0, x);
    if Prime(n) { PrimePasses(n, x); }
  }
}
