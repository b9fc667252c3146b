/** Primality and Fermat's little theorem. */
module Primes {
  import opened Arithmetic

  ghost predicate Divides(d: int, n: int)
    requires 0 < d
  {
    n % d == 0
  }

  ghost predicate Prime(n: int) {
    2 <= n && forall d :: 2 <= d < n ==> !Divides(d, n)
  }

  lemma DividesIntro(d: int, n: int, q: int)
    requires 0 < d && n == q * d
    ensures Divides(d, n)
  {
    DivModUnique(n, d, q, 0);
  }

  lemma DividesElim(d: int, n: int) returns (q: int)
    requires 0 < d && Divides(d, n)
    ensures n == q * d
  {
    q := n / d;
  }

  lemma DividesTrans(c: int, d: int, n: int)
    requires 0 < c && 0 < d && Divides(c, d) && Divides(d, n)
    ensures Divides(c, n)
  {
    var a := DividesElim(c, d);
    var b := DividesElim(d, n);
    assert b * (a * c) == b * a * c;
    DividesIntro(c, n, b * a);
  }

  /** The other factor of a proper divisor is a proper divisor. */
  lemma OtherFactor(p: int, n: int) returns (q: int)
    requires 2 <= p < n && Divides(p, n)
    ensures 2 <= q < n && Divides(q, n) && n == q * p
  {
    q := DividesElim(p, n);
    if q <= 1 { MulMono(q, 1, p); }
    MulMono(2, p, q);
    DividesIntro(q, n, p);
  }

  /** Every composite number has a prime factor that is at most its square root. */
  lemma SmallFactor(n: int) returns (p: int)
    requires 2 <= n && !Prime(n)
    ensures Prime(p) && Divides(p, n) && p * p <= n && p < n
  {
    var m :| 2 <= m < n && Divides(m, n);
    p := LeastFactor(n, m);
    forall d | 2 <= d < p ensures !Divides(d, p) {
      if Divides(d, p) { DividesTrans(d, p, n); }
    }
    var q := OtherFactor(p, n);
    MulMono(p, q, p);
  }

  lemma LeastFactor(n: int, m: int) returns (p: int)
    requires 2 <= m < n && Divides(m, n)
    ensures 2 <= p <= m && Divides(p, n) && forall d :: 2 <= d < p ==> !Divides(d, n)
    decreases m
  {
    if e :| 2 <= e < m && Divides(e, n) {
      p := LeastFactor(n, e);
    } else {
      p := m;
    }
  }

  // ---------- Euclid's lemma ----------

  /** A prime dividing r*b with 0 < r < p divides b. */
  lemma {:induction false} PrimeCancels(p: int, r: int, b: int)
    requires Prime(p) && 0 < r < p && Cong(r * b, 0, p)
    ensures Cong(b, 0, p)
    decreases r
  {
    if r > 1 {
      var q, t := p / r, p % r;
      assert !Divides(r, p);
      assert t * b == p * b - q * (r * b) by { assert p == q * r + t; }
      CongIntro(p * b, 0, b, p);
      CongMul(q, q, r * b, 0, p);
      CongAdd(p * b, 0, q * (r * b), 0, p);
      PrimeCancels(p, t, b);
    }
  }

  lemma Euclid(p: int, a: int, b: int)
    requires Prime(p) && Cong(a * b, 0, p)
    ensures Cong(a, 0, p) || Cong(b, 0, p)
  {
    var r := a % p;
    CongMod(a, p);
    if r != 0 {
      CongMul(r, a, b, b, p);
      PrimeCancels(p, r, b);
    }
  }

  // ---------- binomials ----------

  function Choose(n: nat, k: nat): nat {
    if k == 0 then 1
    else if n == 0 then 0
    else Choose(n - 1, k - 1) + Choose(n - 1, k)
  }

  lemma {:induction false} ChooseAbove(n: nat, k: nat)
    requires n < k
    ensures Choose(n, k) == 0
  {
    if n > 0 {
      ChooseAbove(n - 1, k - 1);
      ChooseAbove(n - 1, k);
    }
  }

  lemma {:induction false} ChooseSelf(n: nat)
    ensures Choose(n, n) == 1
  {
    if n > 0 {
      ChooseSelf(n - 1);
      ChooseAbove(n - 1, n);
    }
  }

  lemma {:induction false} Absorption(n: nat, k: nat)
    requires 1 <= n && 1 <= k
    ensures k * Choose(n, k) == n * Choose(n - 1, k - 1)
    decreases n
  {
    if n == 1 {
      if k > 1 { ChooseAbove(1, k); ChooseAbove(0, k - 1); }
    } else if k == 1 {
      Absorption(n - 1, 1);
    } else {
      Absorption(n - 1, k - 1);
      Absorption(n - 1, k);
      AbsorptionStep(n, k, Choose(n - 1, k), Choose(n - 2, k - 2), Choose(n - 2, k - 1));
    }
  }

  lemma AbsorptionStep(n: int, k: int, b: int, c: int, d: int)
    requires (k - 1) * (c + d) == (n - 1) * c && k * b == (n - 1) * d
    ensures k * (c + d + b) == n * (c + d)
  {
    assert k * (c + d + b) == (k - 1) * (c + d) + k * b + (c + d);
    assert n * (c + d) == (n - 1) * c + (n - 1) * d + (c + d);
  }

  /** Sum of Choose(n, i) * x^i for i <= j. */
  function BinomialSum(n: nat, x: int, j: nat): int {
    if j == 0 then 1 else BinomialSum(n, x, j - 1) + Choose(n, j) * Pow(x, j)
  }

  lemma {:induction false} PascalSum(n: nat, x: int, j: nat)
    requires 1 <= n && 1 <= j
    ensures BinomialSum(n, x, j) == BinomialSum(n - 1, x, j) + x * BinomialSum(n - 1, x, j - 1)
    decreases j
  {
    if j == 1 {
      assert Pow(x, 0) == 1 && Pow(x, 1) == x * Pow(x, 0);
    } else {
      PascalSum(n, x, j - 1);
      PascalStep(x, Pow(x, j - 1), Choose(n - 1, j - 1), Choose(n - 1, j), BinomialSum(n - 1, x, j - 2));
    }
  }

  lemma PascalStep(x: int, y: int, a: int, b: int, s: int)
    ensures (a + b) * (x * y) + x * s == b * (x * y) + x * (s + a * y)
  {
  }

  lemma {:induction false} BinomialTheorem(n: nat, x: int)
    ensures Pow(x + 1, n) == BinomialSum(n, x, n)
  {
    if n > 0 {
      BinomialTheorem(n - 1, x);
      PascalSum(n, x, n);
      ChooseAbove(n - 1, n);
      assert BinomialSum(n - 1, x, n) == BinomialSum(n - 1, x, n - 1);
      assert (x + 1) * Pow(x + 1, n - 1) == Pow(x + 1, n - 1) + x * Pow(x + 1, n - 1);
    }
  }

  // ---------- Fermat ----------

  lemma PrimeDividesChoose(p: int, k: nat)
    requires Prime(p) && 0 < k < p
    ensures Cong(Choose(p, k), 0, p)
  {
    Absorption(p, k);
    CongIntro(k * Choose(p, k), 0, Choose(p - 1, k - 1), p);
    PrimeCancels(p, k, Choose(p, k));
  }

  lemma {:induction false} MiddleTermsVanish(p: int, x: int, j: nat)
    requires Prime(p) && j < p
    ensures Cong(BinomialSum(p, x, j), 1, p)
  {
    if j > 0 {
      MiddleTermsVanish(p, x, j - 1);
      PrimeDividesChoose(p, j);
      CongMul(Choose(p, j), 0, Pow(x, j), Pow(x, j), p);
      CongAdd(BinomialSum(p, x, j - 1), 1, Choose(p, j) * Pow(x, j), 0, p);
    }
  }

  lemma {:induction false} FermatPower(p: int, x: nat)
    requires Prime(p)
    ensures Cong(Pow(x, p), x, p)
  {
    if x == 0 {
      assert Pow(0, p) == 0 * Pow(0, p - 1);
    } else {
      FermatPower(p, x - 1);
      BinomialTheorem(p, x - 1);
      MiddleTermsVanish(p, x - 1, p - 1);
      ChooseSelf(p);
      CongAdd(BinomialSum(p, x - 1, p - 1), 1, Pow(x - 1, p), x - 1, p);
    }
  }

  /** Fermat's little theorem. */
  lemma Fermat(p: int, x: int)
    requires Prime(p) && x % p != 0
    ensures Cong(Pow(x, p - 1), 1, p)
  {
    var r := x % p;
    CongMod(x, p);
    FermatPower(p, r);
    var y := Pow(r, p - 1);
    assert Cong(r * (y - 1), 0, p) by {
      assert r * (y - 1) == r * y - r;
      CongAdd(r * y, r, r, r, p);
    }
    PrimeCancels(p, r, y - 1);
    CongAdd(y - 1, 0, 1, 1, p);
    CongPow(x, r, p - 1, p);
  }
}
