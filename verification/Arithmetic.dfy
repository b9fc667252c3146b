/** Integer arithmetic shared by the models: truncation-free division facts,
    congruences, powers, and the bit view of a non-negative integer that
    GMP's shift and test-bit operations give. */
module Arithmetic {

  // ---------- division ----------

  /** Euclidean division is the only way to split `a` into a multiple of `m`
      and a remainder below `m`. */
  lemma DivModUnique(a: int, m: int, q: int, r: int)
    requires 0 <= r < m && a == q * m + r
    ensures a / m == q && a % m == r
  {
    var d := a / m - q;
    assert d * m == r - a % m by {
      assert a == m * (a / m) + a % m;
      assert (a / m - q) * m == (a / m) * m - q * m;
    }
    if d >= 1 {
      MulMono(1, d, m);
    } else if d <= -1 {
      MulMono(d, -1, m);
    }
  }

  lemma MulMono(a: int, b: int, c: int)
    requires a <= b && 0 <= c
    ensures a * c <= b * c && c * a <= c * b
  {
    assert 0 <= (b - a) * c;
  }

  lemma MulNonNeg(a: int, b: int)
    requires 0 <= a && 0 <= b
    ensures 0 <= a * b
  {
  }

  lemma MulPos(a: int, b: int)
    requires 0 < a && 0 < b
    ensures 0 < a * b && a <= a * b && b <= a * b
  {
    MulMono(1, a, b);
    MulMono(1, b, a);
  }

  /** A square root of a smaller number is smaller. */
  lemma SquareLess(a: int, b: int)
    requires 0 <= b && a * a < b * b
    ensures a < b
  {
    if a >= b {
      MulMono(b, a, a);
      MulMono(b, a, b);
    }
  }

  lemma SquareLessEq(a: int, b: int)
    requires 0 <= b && a * a <= b * b
    ensures a <= b
  {
    if a > b {
      MulMono(b, a, b);
      MulPos(a, a - b);
    }
  }

  lemma SquareMono(a: int, b: int)
    requires 0 <= a <= b
    ensures a * a <= b * b
  {
    MulMono(a, b, a);
    MulMono(a, b, b);
  }

  lemma DivMono(a: int, b: int, m: int)
    requires 0 < m && a <= b
    ensures a / m <= b / m
  {
    var d := a / m - b / m;
    assert d * m == a - a % m - (b - b % m);
    if d >= 1 {
      MulMono(1, d, m);
    }
  }

  lemma Quotient(m: nat, s: nat)
    requires 0 < s
    ensures 0 <= m / s && m / s * s <= m < m / s * s + s
  {
    assert m == m / s * s + m % s;
    if m / s < 0 { MulMono(m / s, -1, s); }
  }

  // ---------- congruence ----------

  /** `a` and `b` leave the same remainder modulo `m`. */
  predicate Cong(a: int, b: int, m: int)
    requires 0 < m
  {
    a % m == b % m
  }

  lemma CongIntro(a: int, b: int, k: int, m: int)
    requires 0 < m && a == b + k * m
    ensures Cong(a, b, m)
  {
    assert a == (b / m + k) * m + b % m by {
      assert b == m * (b / m) + b % m;
      assert (b / m + k) * m == (b / m) * m + k * m;
    }
    DivModUnique(a, m, b / m + k, b % m);
  }

  lemma CongElim(a: int, b: int, m: int) returns (k: int)
    requires 0 < m && Cong(a, b, m)
    ensures a == b + k * m
  {
    k := a / m - b / m;
    assert a == m * (a / m) + a % m && b == m * (b / m) + b % m;
    assert k * m == (a / m) * m - (b / m) * m;
  }

  lemma CongMod(a: int, m: int)
    requires 0 < m
    ensures Cong(a % m, a, m) && 0 <= a % m < m
  {
    assert a % m == a + (-(a / m)) * m;
    CongIntro(a % m, a, -(a / m), m);
  }

  lemma CongAdd(a: int, b: int, c: int, d: int, m: int)
    requires 0 < m && Cong(a, b, m) && Cong(c, d, m)
    ensures Cong(a + c, b + d, m) && Cong(a - c, b - d, m)
  {
    var k := CongElim(a, b, m);
    var l := CongElim(c, d, m);
    assert k * m + l * m == (k + l) * m && k * m - l * m == (k - l) * m;
    CongIntro(a + c, b + d, k + l, m);
    CongIntro(a - c, b - d, k - l, m);
  }

  lemma CongMul(a: int, b: int, c: int, d: int, m: int)
    requires 0 < m && Cong(a, b, m) && Cong(c, d, m)
    ensures Cong(a * c, b * d, m)
  {
    var k := CongElim(a, b, m);
    var l := CongElim(c, d, m);
    assert a * c == b * d + (b * l + k * d + k * l * m) * m by {
      assert (b + k * m) * (d + l * m) == b * d + b * (l * m) + k * m * d + k * m * (l * m);
      assert b * (l * m) == b * l * m && k * m * d == k * d * m && k * m * (l * m) == k * l * m * m;
    }
    CongIntro(a * c, b * d, b * l + k * d + k * l * m, m);
  }

  /** Reduced representatives are unique. */
  lemma CongSmall(a: int, b: int, m: int)
    requires 0 <= a < m && 0 <= b < m && Cong(a, b, m)
    ensures a == b
  {
    DivModUnique(a, m, 0, a);
    DivModUnique(b, m, 0, b);
  }

  // ---------- powers ----------

  function Pow(b: int, e: nat): int {
    if e == 0 then 1 else b * Pow(b, e - 1)
  }

  lemma {:induction false} PowAdd(b: int, e: nat, f: nat)
    ensures Pow(b, e + f) == Pow(b, e) * Pow(b, f)
  {
    if e > 0 {
      PowAdd(b, e - 1, f);
      assert b * (Pow(b, e - 1) * Pow(b, f)) == b * Pow(b, e - 1) * Pow(b, f);
    }
  }

  lemma {:induction false} PowMulExp(b: int, e: nat, f: nat)
    ensures 0 <= e * f && Pow(Pow(b, e), f) == Pow(b, e * f)
  {
    MulNonNeg(e, f);
    if f == 0 {
    } else {
      PowMulExp(b, e, f - 1);
      assert e * f == e + e * (f - 1);
      PowAdd(b, e, e * (f - 1));
    }
  }

  lemma MulSwap(a: int, b: int, x: int, y: int)
    ensures a * b * (x * y) == a * x * (b * y)
  {
    assert a * b * (x * y) == a * b * x * y;
    assert a * b * x == a * x * b;
  }

  lemma {:induction false} PowMulBase(a: int, b: int, e: nat)
    ensures Pow(a * b, e) == Pow(a, e) * Pow(b, e)
  {
    if e > 0 {
      PowMulBase(a, b, e - 1);
      MulSwap(a, b, Pow(a, e - 1), Pow(b, e - 1));
    }
  }

  lemma {:induction false} PowOne(e: nat)
    ensures Pow(1, e) == 1
  {
    if e > 0 { PowOne(e - 1); }
  }

  lemma {:induction false} CongPow(a: int, b: int, e: nat, m: int)
    requires 0 < m && Cong(a, b, m)
    ensures Cong(Pow(a, e), Pow(b, e), m)
  {
    if e > 0 {
      CongPow(a, b, e - 1, m);
      CongMul(a, b, Pow(a, e - 1), Pow(b, e - 1), m);
    }
  }

  // ---------- bits ----------

  function Pow2(n: nat): (r: nat)
    ensures 0 < r
  {
    if n == 0 then 1 else 2 * Pow2(n - 1)
  }

  lemma {:induction false} Pow2Add(a: nat, b: nat)
    ensures Pow2(a + b) == Pow2(a) * Pow2(b)
  {
    if a > 0 { Pow2Add(a - 1, b); }
  }

  lemma {:induction false} Pow2Mono(a: nat, b: nat)
    requires a <= b
    ensures Pow2(a) <= Pow2(b)
  {
    if a < b { Pow2Mono(a, b - 1); }
  }

  /** `n >> k` of a non-negative number: one halving per dropped bit. */
  function Shr(n: nat, k: nat): nat {
    if k == 0 then n else Shr(n, k - 1) / 2
  }

  /** The k-th binary digit, as mpz_tstbit gives it for n >= 0. */
  function Bit(n: nat, k: nat): (b: nat)
    ensures b < 2
  {
    Shr(n, k) % 2
  }

  /** The number of significant bits, 0 for 0. */
  function NumBits(n: nat): nat {
    if n == 0 then 0 else 1 + NumBits(n / 2)
  }

  lemma {:induction false} NumBitsBound(n: nat)
    ensures n < Pow2(NumBits(n))
    ensures n > 0 ==> Pow2(NumBits(n) - 1) <= n
  {
    if n > 0 {
      NumBitsBound(n / 2);
    }
  }

  lemma {:induction false} NumBitsLeast(n: nat, k: nat)
    requires n < Pow2(k)
    ensures NumBits(n) <= k
  {
    if n > 0 {
      NumBitsBound(n);
      if NumBits(n) > k { Pow2Mono(k, NumBits(n) - 1); }
    }
  }

  lemma {:induction false} ShrShr(n: nat, a: nat, b: nat)
    ensures Shr(Shr(n, a), b) == Shr(n, a + b)
  {
    if b > 0 { ShrShr(n, a, b - 1); }
  }

  /** Shifting right by k is division by 2^k: what is dropped is below 2^k. */
  lemma {:induction false} ShrIsDiv(n: nat, k: nat)
    ensures Shr(n, k) * Pow2(k) <= n < Shr(n, k) * Pow2(k) + Pow2(k)
  {
    if k > 0 {
      ShrIsDiv(n, k - 1);
      HalfStep(n, Shr(n, k - 1), Pow2(k - 1));
    }
  }

  lemma HalfStep(n: nat, q: nat, d: nat)
    requires q * d <= n < q * d + d
    ensures q / 2 * (2 * d) <= n < q / 2 * (2 * d) + 2 * d
  {
    assert q == 2 * (q / 2) + q % 2;
    assert q * d == q / 2 * (2 * d) + q % 2 * d;
    if q % 2 == 0 { assert q % 2 * d == 0; } else { assert q % 2 * d == d; }
  }

  /** Dropping one more bit leaves twice the rest plus that bit. */
  lemma ShrStep(n: nat, k: nat)
    ensures Shr(n, k) == 2 * Shr(n, k + 1) + Bit(n, k)
  {
  }

  lemma {:induction false} ShrBound(n: nat, a: nat, b: nat)
    requires n < Pow2(a + b)
    ensures Shr(n, b) < Pow2(a)
    decreases b
  {
    if b > 0 { ShrBound(n, a + 1, b - 1); }
  }

  lemma ShrSmall(n: nat, k: nat)
    requires n < Pow2(k)
    ensures Shr(n, k) == 0
  {
    ShrBound(n, 0, k);
  }

  /** The bits from position NumBits(n) on are all zero. */
  lemma ShrAll(n: nat, k: nat)
    requires NumBits(n) <= k
    ensures Shr(n, k) == 0
  {
    NumBitsBound(n);
    Pow2Mono(NumBits(n), k);
    ShrSmall(n, k);
  }

  /** `n & mask` for a mask of k ones. */
  function LowBits(n: nat, k: nat): (low: nat)
    ensures low < Pow2(k)
  {
    ShrIsDiv(n, k);
    n - Shr(n, k) * Pow2(k)
  }

  /** Taking in b more bits above the lowest a. */
  lemma LowBitsAdd(n: nat, a: nat, b: nat)
    ensures LowBits(n, a + b) == LowBits(n, a) + LowBits(Shr(n, a), b) * Pow2(a)
  {
    ShrShr(n, a, b);
    Pow2Add(a, b);
    SplitLow(n, Shr(n, a), Shr(n, a + b), Pow2(a), Pow2(b));
  }

  lemma SplitLow(n: int, x: int, h: int, p: int, q: int)
    ensures n - h * (p * q) == n - x * p + (x - h * q) * p
  {
  }

  lemma LowBitsAll(n: nat, k: nat)
    requires NumBits(n) <= k
    ensures LowBits(n, k) == n
  {
    ShrAll(n, k);
  }
}
