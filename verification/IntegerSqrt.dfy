/** FourSquares::isqrt: an integer square root that doubles its precision from
    a machine-size start, and recurses above 2^1024. */
module IntegerSqrt {
  import opened Arithmetic

  const MAXINT: nat := 0x7fff_ffff

  /** 1 << 1024, the bound up to which iteration is used instead of recursion. */
  function IterBetter(): nat { Pow2(1024) }

  ghost predicate IsFloorSqrt(s: int, n: int) {
    0 <= s && s * s <= n < (s + 1) * (s + 1)
  }

  lemma FloorSqrtUnique(s: int, t: int, n: int)
    requires IsFloorSqrt(s, n) && IsFloorSqrt(t, n)
    ensures s == t
  {
    SquareLess(s, t + 1);
    SquareLess(t, s + 1);
  }

  /** mpz_sqrt: the exact integer square root. */
  function SqrRoot(n: nat): (s: nat)
    ensures IsFloorSqrt(s, n)
  {
    if n == 0 then 0
    else
      var s := SqrRoot(n - 1);
      if (s + 1) * (s + 1) <= n then s + 1 else s
  }

  /** C++ and mpz_class division: truncates toward zero. */
  function TruncDiv(a: int, b: int): int
    requires 0 < b
  {
    if 0 <= a then a / b else -(-a / b)
  }

  lemma TruncDivBound(a: int, b: int)
    requires 0 < b
    ensures var q := TruncDiv(a, b);
      var r := a - q * b;
      -b < r < b && (0 <= a ==> 0 <= q && 0 <= r) && (a < 0 ==> q <= 0 && r <= 0)
  {
    if 0 <= a {
      assert a == a / b * b + a % b;
      if a / b < 0 { MulMono(a / b, -1, b); }
    } else {
      var c := -a;
      assert c == c / b * b + c % b;
      if c / b < 0 { MulMono(c / b, -1, b); }
    }
  }

  // ---------- the iteration ----------

  /** Newton's step (s + m/s) / 2 from s toward the root of m. */
  function Average(m: nat, s: nat): (t: nat)
    requires 2 <= s
    ensures 0 < t
  {
    Quotient(m, s);
    (s + m / s) / 2
  }

  lemma Pow2AtLeastTwo(q: nat)
    requires 0 < q
    ensures 2 <= Pow2(q)
  {
  }

  /** One precision-doubling step toward the root of `n >> 2*d`. */
  function NewtonStep(n: nat, s: nat, d: nat, q: nat): (t: nat)
    requires 0 < s && 0 < q <= d
    ensures 0 < t
  {
    Pow2AtLeastTwo(q);
    MulPos(s, Pow2(q));
    Average(Shr(n, 2 * (d - q)), s * Pow2(q))
  }

  /** The remaining iterations of the loop, from approximation s with 2*d bits
      of n not yet looked at and precision q. */
  function Refine(n: nat, s: nat, d: nat, q: nat): (t: nat)
    requires 0 < s && 0 < q
    ensures 0 < t
    decreases d
  {
    if d == 0 then s
    else
      var e := if q > d then d else q;
      Refine(n, NewtonStep(n, s, d, e), d - e, 2 * e)
  }

  function StartDepth(log2n: nat): nat
    requires 14 <= log2n
  {
    7 * (log2n / 14 - 1)
  }

  /** Newton's step from s1 for the root f of m: never below f, and at most one
      above it when s1 is within e of f and f is at least e^2. */
  lemma NewtonBound(m: nat, f: nat, s1: nat, e: nat)
    requires IsFloorSqrt(f, m) && 2 <= s1 && 0 < e
    requires f - s1 < e && s1 - f <= e && e * e <= f
    ensures f <= Average(m, s1) <= f + 1
  {
    Quotient(m, s1);
    NewtonNotBelow(m, f, s1, m / s1);
    NewtonNotAbove(m, f, s1, m / s1, e);
  }

  lemma NewtonNotBelow(m: nat, f: nat, s1: nat, t: nat)
    requires f * f <= m && m < t * s1 + s1 && 0 < s1
    ensures 2 * f <= s1 + t
  {
    if s1 + t < 2 * f {
      MulMono(t + 1, 2 * f - s1, s1);
      BelowIdentity(f, s1);
    }
  }

  lemma BelowIdentity(f: int, s1: int)
    ensures (2 * f - s1) * s1 == f * f - (f - s1) * (f - s1)
    ensures (2 * f - s1) * s1 <= f * f
  {
  }

  lemma NewtonNotAbove(m: nat, f: nat, s1: nat, t: nat, e: nat)
    requires m < (f + 1) * (f + 1) && t * s1 <= m && 0 < e
    requires f - s1 < e && s1 - f <= e && e * e <= f
    ensures s1 + t <= 2 * f + 3
  {
    if s1 + t > 2 * f + 3 {
      MulMono(2 * (f + 2) - s1, t, s1);
      BelowIdentity(f + 2, s1);
      var g := f + 2 - s1;
      assert g * g <= (e + 1) * (e + 1) by {
        if g >= 0 { SquareMono(g, e + 1); } else { SquareMono(-g, e + 1); NegSquare(g); }
      }
      GapIdentity(f, e);
    }
  }

  lemma NegSquare(g: int)
    ensures -g * -g == g * g
  {
  }

  lemma GapIdentity(f: int, e: int)
    requires e * e <= f
    ensures (f + 1) * (f + 1) + (e + 1) * (e + 1) <= (f + 2) * (f + 2)
  {
    assert (f + 2) * (f + 2) - (f + 1) * (f + 1) == 2 * f + 3;
    assert (e + 1) * (e + 1) == e * e + 2 * e + 1;
    assert e * e - 2 * e + 1 == (e - 1) * (e - 1);
  }

  /** Taking 2*q more bits multiplies the root by about 2^q. */
  lemma RootOfMoreBits(n: nat, k: nat, q: nat, f: nat, g: nat)
    requires IsFloorSqrt(f, Shr(n, k + 2 * q)) && IsFloorSqrt(g, Shr(n, k))
    ensures f * Pow2(q) <= g < (f + 1) * Pow2(q)
  {
    ShrShr(n, k, 2 * q);
    ShrIsDiv(Shr(n, k), 2 * q);
    Pow2Add(q, q);
    ScaledRoot(Shr(n, k + 2 * q), Shr(n, k), Pow2(q), f, g);
  }

  lemma ScaledRoot(h: nat, m: nat, p: nat, f: nat, g: nat)
    requires h * (p * p) <= m < h * (p * p) + p * p
    requires IsFloorSqrt(f, h) && IsFloorSqrt(g, m)
    ensures f * p <= g < (f + 1) * p
  {
    var p2 := p * p;
    assert (f * p) * (f * p) < (g + 1) * (g + 1) by {
      ScaledSquare(f, p);
      MulMono(f * f, h, p2);
    }
    SquareLess(f * p, g + 1);
    assert g * g < ((f + 1) * p) * ((f + 1) * p) by {
      ScaledSquare(f + 1, p);
      MulMono(h + 1, (f + 1) * (f + 1), p2);
    }
    MulNonNeg(f + 1, p);
    SquareLess(g, (f + 1) * p);
  }

  lemma ScaledSquare(f: int, p: int)
    ensures (f * p) * (f * p) == f * f * (p * p)
  {
  }

  /** What the loop keeps: s is the root of the bits seen so far or one more,
      and that root has at least q bits of precision. */
  ghost predicate Precise(n: nat, s: int, d: nat, q: nat) {
    var f := SqrRoot(Shr(n, 2 * d));
    f <= s <= f + 1 && Pow2(q) <= f
  }

  lemma NewtonKeepsPrecise(n: nat, s: nat, d: nat, q: nat, e: nat)
    requires 0 < s && 0 < e <= d && e <= q && Precise(n, s, d, q)
    ensures Precise(n, NewtonStep(n, s, d, e), d - e, 2 * e)
  {
    var f, g, p := SqrRoot(Shr(n, 2 * d)), SqrRoot(Shr(n, 2 * (d - e))), Pow2(e);
    RootOfMoreBits(n, 2 * (d - e), e, f, g);
    Pow2Mono(e, q);
    Pow2Add(e, e);
    Pow2AtLeastTwo(e);
    MulPos(s, p);
    ScaledDistance(f, g, s, p);
    NewtonBound(Shr(n, 2 * (d - e)), g, s * p, p);
  }

  lemma ScaledDistance(f: nat, g: nat, s: nat, p: nat)
    requires f <= s <= f + 1 && 0 < p <= f && f * p <= g < (f + 1) * p
    ensures g - s * p < p && s * p - g <= p && p * p <= g
  {
    MulMono(p, f, p);
    assert (f + 1) * p == f * p + p;
  }

  lemma {:induction false} RefineIsPrecise(n: nat, s: nat, d: nat, q: nat)
    requires 0 < s && 0 < q && Precise(n, s, d, q)
    ensures SqrRoot(n) <= Refine(n, s, d, q) <= SqrRoot(n) + 1
    decreases d
  {
    if d > 0 {
      var e := if q > d then d else q;
      NewtonKeepsPrecise(n, s, d, q, e);
      RefineIsPrecise(n, NewtonStep(n, s, d, e), d - e, 2 * e);
    }
  }

  lemma StartIsPrecise(n: nat, log2n: nat)
    requires Pow2(log2n) <= n && 14 <= log2n
    ensures Precise(n, SqrRoot(Shr(n, 2 * StartDepth(log2n))), StartDepth(log2n), 7)
    ensures 0 < SqrRoot(Shr(n, 2 * StartDepth(log2n)))
  {
    var h := Shr(n, 2 * StartDepth(log2n));
    StartEnough(log2n);
    FourteenBits(n, 2 * StartDepth(log2n), log2n);
    assert Pow2(7) == 128;
    SquareLess(128, SqrRoot(h) + 1);
  }

  lemma FourteenBits(n: nat, k: nat, log2n: nat)
    requires Pow2(log2n) <= n && 14 + k <= log2n
    ensures 128 * 128 <= Shr(n, k)
  {
    ShrIsDiv(n, k);
    Pow2Add(14, k);
    Pow2Mono(14 + k, log2n);
    assert Pow2(14) == 128 * 128;
    Scaled(Shr(n, k), 128 * 128, Pow2(k));
  }

  lemma StartEnough(log2n: nat)
    requires 14 <= log2n
    ensures 14 + 2 * StartDepth(log2n) <= log2n
  {
  }

  lemma Scaled(h: int, a: int, p: nat)
    requires a * p < h * p + p
    ensures a <= h
  {
    if h < a { MulMono(h + 1, a, p); }
  }

  // ---------- the recursion above 2^1024 ----------

  /** A root s and remainder r with s^2 + r = n; r is negative when s is too large. */
  datatype Root = Root(s: int, r: int)

  /** A root together with what is left of n. */
  function WithRemainder(n: int, s: int): Root {
    Root(s, n - s * s)
  }

  /** Extends a root of the high bits by b bits, from the next two b-bit digits. */
  function Extend(inner: Root, n1: nat, n0: nat, p: nat): Root
    requires 0 < inner.s
  {
    var todiv := inner.r * p + n1;
    var diver := 2 * inner.s;
    var q := TruncDiv(todiv, diver);
    Root(inner.s * p + q, (todiv - q * diver) * p + n0 - q * q)
  }

  /** One level of the recursion: b more bits of the root of n. */
  function ExtendBy(n: nat, b: nat, inner: Root): Root
    requires 0 < inner.s
  {
    Extend(inner, LowBits(Shr(n, b), b), LowBits(n, b), Pow2(b))
  }

  /** What every root computed above MAXINT satisfies. The remainder is never
      too large; it may be negative, but the root stays far from 0. */
  ghost predicate Balanced(x: Root) {
    16 <= x.s && -(x.s * x.s) <= 2 * x.r && x.r <= 2 * x.s
  }

  lemma ExtendBalanced(x: Root, n1: nat, n0: nat, p: nat)
    requires Balanced(x) && 16 <= p && n1 < p && n0 < p
    ensures Balanced(Extend(x, n1, n0, p))
  {
    var todiv := x.r * p + n1;
    var q := TruncDiv(todiv, 2 * x.s);
    TruncDivBound(todiv, 2 * x.s);
    BalancedDigit(x.s, x.r, p, n1, n0, q, todiv - q * (2 * x.s));
  }

  lemma BalancedDigit(s: int, r: int, p: nat, n1: nat, n0: nat, q: int, rem: int)
    requires Balanced(Root(s, r)) && 16 <= p && n1 < p && n0 < p
    requires q * (2 * s) + rem == r * p + n1 && -2 * s < rem < 2 * s
    requires 0 <= q || rem <= 0
    ensures Balanced(Root(s * p + q, rem * p + n0 - q * q))
  {
    assert 16 * p <= s * p && 16 * s <= s * p by { MulMono(16, s, p); MulMono(16, p, s); }
    DigitBounds(s, r, p, n1, q, rem);
    RemainderBounds(s, p, rem);
    NewBalanced(s * p, p, q, rem * p, n0);
  }

  lemma DigitBounds(s: int, r: int, p: nat, n1: nat, q: int, rem: int)
    requires Balanced(Root(s, r)) && 16 <= p && n1 < p && 16 * p <= s * p && 16 * s <= s * p
    requires q * (2 * s) + rem == r * p + n1 && -2 * s < rem < 2 * s
    ensures -(s * p) <= 3 * q <= s * p
  {
    ScaledRemainder(s, r, p);
    assert q * (2 * s) == 2 * (q * s);
    QuotientUpper(s * p, p, s, q);
    QuotientLower(s * p, s, q);
  }

  lemma RemainderBounds(s: int, p: nat, rem: int)
    requires -2 * s < rem < 2 * s
    ensures -2 * (s * p) <= rem * p <= 2 * (s * p) - p
    ensures rem <= 0 ==> rem * p <= 0
  {
    MulMono(-2 * s, rem, p);
    MulMono(rem, 2 * s - 1, p);
    assert (2 * s - 1) * p == 2 * (s * p) - p && -2 * s * p == -2 * (s * p);
    if rem <= 0 { MulMono(rem, 0, p); }
  }

  lemma ScaledRemainder(s: int, r: int, p: int)
    requires 0 <= p && -(s * s) <= 2 * r <= 4 * s
    ensures -(s * (s * p)) <= 2 * (r * p) <= 4 * (s * p)
  {
    MulMono(-(s * s), 2 * r, p);
    MulMono(2 * r, 4 * s, p);
    assert -(s * s) * p == -(s * (s * p));
  }

  lemma QuotientUpper(big: int, p: int, s: int, q: int)
    requires 16 <= s && 0 < p && 16 * p <= big && 16 * s <= big
    requires 2 * (q * s) <= 2 * big + p + 2 * s
    ensures 3 * q <= big
  {
    assert 3 * q * s == 3 * (q * s);
    MulMono(16, s, big);
    if 3 * q > big { MulMono(big, 3 * q, s); }
  }

  lemma QuotientLower(big: int, s: int, q: int)
    requires 16 <= s && 256 <= big
    requires -(s * big) - 4 * s <= 4 * (q * s)
    ensures -big <= 3 * q
  {
    assert 3 * q * s == 3 * (q * s) && (-big - 1) * s == -(s * big) - s;
    MulMono(256, big, s);
    if 3 * q < -big { MulMono(3 * q, -big - 1, s); }
  }

  lemma NewBalanced(big: int, p: int, q: int, remP: int, n0: int)
    requires 256 <= big && 16 * p <= big && 0 <= n0 < p && -big <= 3 * q <= big
    requires -2 * big <= remP <= 2 * big - p && (0 <= q || remP <= 0)
    ensures Balanced(Root(big + q, remP + n0 - q * q))
  {
    var t := big + q;
    assert 4 * (big * big) <= 9 * (t * t) by {
      SquareMono(2 * big, 3 * t);
      ScaledSquare(big, 2);
      ScaledSquare(t, 3);
    }
    assert 9 * (q * q) <= big * big by {
      if q >= 0 { SquareMono(3 * q, big); } else { SquareMono(-3 * q, big); }
      ScaledSquare(q, 3);
      ScaledSquare(q, -3);
    }
    MulMono(256, big, big);
    assert 0 <= q * q;
  }

  /** s^2 + r = n is kept by every extension. */
  lemma ExtendIdentity(x: Root, n1: nat, n0: nat, p: nat)
    requires 0 < x.s
    ensures var y := Extend(x, n1, n0, p);
      y.s * y.s + y.r == ((x.s * x.s + x.r) * p + n1) * p + n0
  {
    var q := TruncDiv(x.r * p + n1, 2 * x.s);
    RootIdentity(x.s, x.r, p, n1, n0, q);
  }

  lemma RootIdentity(s: int, r: int, p: int, n1: int, n0: int, q: int)
    ensures (s * p + q) * (s * p + q) + ((r * p + n1 - q * (2 * s)) * p + n0 - q * q)
         == ((s * s + r) * p + n1) * p + n0
  {
  }

  /** From an exact inner root the extension is exact or one too large. */
  lemma ExtendWithinOne(x: Root, n1: nat, n0: nat, p: nat)
    requires 0 < p <= x.s && 0 <= x.r <= 2 * x.s && n1 < p && n0 < p
    ensures var y := Extend(x, n1, n0, p);
      0 < y.s && -2 * y.s + 1 <= y.r <= 2 * y.s
  {
    var todiv := x.r * p + n1;
    var q := TruncDiv(todiv, 2 * x.s);
    MulNonNeg(x.r, p);
    TruncDivBound(todiv, 2 * x.s);
    ExactDigit(x.s, x.r, p, n1, n0, q, todiv - q * (2 * x.s));
  }

  lemma ExactDigit(s: int, r: int, p: nat, n1: nat, n0: nat, q: int, rem: int)
    requires 0 < p <= s && 0 <= r <= 2 * s && n1 < p && n0 < p
    requires q * (2 * s) + rem == r * p + n1 && 0 <= rem < 2 * s && 0 <= q
    ensures 0 < s * p + q
    ensures -2 * (s * p + q) + 1 <= rem * p + n0 - q * q <= 2 * (s * p + q)
  {
    assert q <= p by { DigitAtMost(s, r, p, n1, q, rem); }
    assert q * q <= s * p by { SquareMono(q, p); MulMono(p, s, p); }
    assert 0 <= rem * p by { MulNonNeg(rem, p); }
    RemainderBounds(s, p, rem);
    assert 0 < s * p by { MulPos(s, p); }
    assert 0 <= q * q;
  }

  lemma DigitAtMost(s: int, r: int, p: nat, n1: nat, q: int, rem: int)
    requires 0 < p <= s && 0 <= r <= 2 * s && n1 < p
    requires q * (2 * s) + rem == r * p + n1 && 0 <= rem < 2 * s
    ensures q <= p
  {
    MulMono(r, 2 * s, p);
    if q > p { DigitTooLarge(q, s, p); }
  }

  lemma DigitTooLarge(q: int, s: int, p: int)
    requires p < q && 0 < p <= s
    ensures 2 * (s * p) + p < q * (2 * s)
  {
    MulMono(p + 1, q, 2 * s);
    assert (p + 1) * (2 * s) == 2 * (s * p) + 2 * s;
  }

  // ---------- isqrtInternal and isqrt ----------

  /** The approximation that the iterative branch computes. */
  function Iterated(n: nat, log2n: nat): nat
    requires Pow2(log2n) <= n && 14 <= log2n
  {
    StartIsPrecise(n, log2n);
    Refine(n, SqrRoot(Shr(n, 2 * StartDepth(log2n))), StartDepth(log2n), 7)
  }

  /** isqrtInternal, with its own precondition: log2n is the position of the
      highest set bit of n. */
  function Internal(n: nat, log2n: nat): (x: Root)
    requires Pow2(log2n) <= n < Pow2(log2n + 1)
    ensures 0 < x.s
    ensures MAXINT < n ==> Balanced(x)
    decreases log2n
  {
    if n <= MAXINT then
      WithRemainder(n, SqrRoot(n))
    else
      BitsAboveMaxInt(n, log2n);
      if n <= IterBetter() then
        IteratedBalanced(n, log2n);
        WithRemainder(n, Iterated(n, log2n))
      else
        var b := log2n / 4;
        BitsAboveIterBetter(n, log2n);
        HighBits(n, log2n, 2 * b);
        Pow2Mono(4, b);
        var x := Internal(Shr(n, 2 * b), log2n - 2 * b);
        ExtendBalanced(x, LowBits(Shr(n, b), b), LowBits(n, b), Pow2(b));
        ExtendBy(n, b, x)
  }

  lemma MaxIntBits()
    ensures Pow2(31) == MAXINT + 1
  {
    assert Pow2(8) == 256;
    assert Pow2(15) == 0x8000;
    Pow2Add(8, 8);
    Pow2Add(15, 16);
  }

  lemma IterBetterBits()
    ensures MAXINT < Pow2(64) <= IterBetter()
  {
    MaxIntBits();
    Pow2Mono(31, 64);
    Pow2Mono(64, 1024);
    Pow2Add(31, 33);
    Pow2Add(31, 2);
  }

  lemma BitsAboveMaxInt(n: nat, log2n: nat)
    requires MAXINT < n < Pow2(log2n + 1)
    ensures 31 <= log2n
  {
    MaxIntBits();
    if log2n < 31 { Pow2Mono(log2n + 1, 31); }
  }

  /** Enough bits for the recursion: the inner call stays above MAXINT. */
  lemma BitsAboveIterBetter(n: nat, log2n: nat)
    requires IterBetter() < n < Pow2(log2n + 1)
    ensures 64 <= log2n && MAXINT < n
  {
    IterBetterBits();
    if log2n < 64 { Pow2Mono(log2n + 1, 64); }
  }

  lemma HighBits(n: nat, log2n: nat, k: nat)
    requires Pow2(log2n) <= n < Pow2(log2n + 1) && k <= log2n
    ensures Pow2(log2n - k) <= Shr(n, k) < Pow2(log2n - k + 1)
    ensures 31 <= log2n - k ==> MAXINT < Shr(n, k)
  {
    ShrBound(n, log2n - k + 1, k);
    ShrIsDiv(n, k);
    Pow2Add(log2n - k, k);
    Scaled(Shr(n, k), Pow2(log2n - k), Pow2(k));
    if 31 <= log2n - k {
      Pow2Mono(31, log2n - k);
      MaxIntBits();
    }
  }

  /** A root that is exact or one too large has a remainder within 2*s of 0. */
  lemma OneOffRemainder(n: nat, f: nat, s: nat)
    requires IsFloorSqrt(f, n) && f <= s <= f + 1
    ensures -2 * s <= n - s * s <= 2 * s
    ensures 0 < s ==> -2 * s + 1 <= n - s * s
  {
    assert (f + 1) * (f + 1) == f * f + 2 * f + 1;
  }

  lemma IteratedWithinOne(n: nat, log2n: nat)
    requires Pow2(log2n) <= n && 14 <= log2n
    ensures SqrRoot(n) <= Iterated(n, log2n) <= SqrRoot(n) + 1
  {
    StartIsPrecise(n, log2n);
    RefineIsPrecise(n, SqrRoot(Shr(n, 2 * StartDepth(log2n))), StartDepth(log2n), 7);
  }

  lemma IteratedBalanced(n: nat, log2n: nat)
    requires Pow2(log2n) <= n && 31 <= log2n && MAXINT < n
    ensures Balanced(WithRemainder(n, Iterated(n, log2n)))
  {
    IteratedWithinOne(n, log2n);
    OneOffBalanced(n, SqrRoot(n), Iterated(n, log2n));
  }

  lemma OneOffBalanced(n: nat, f: nat, s: nat)
    requires IsFloorSqrt(f, n) && f <= s <= f + 1 && MAXINT < n
    ensures Balanced(WithRemainder(n, s))
  {
    OneOffRemainder(n, f, s);
    SquareLess(16, f + 1);
    MulMono(16, s, s);
  }

  /** The correction of a root that is one too large. */
  function Corrected(x: Root): Root {
    if x.r < 0 then Root(x.s - 1, x.r + 2 * x.s - 1) else x
  }

  lemma CorrectedRoot(x: Root, n: nat)
    requires 0 < x.s && x.s * x.s + x.r == n && x.r <= 2 * x.s
    ensures var y := Corrected(x); y.s * y.s + y.r == n
    ensures IsFloorSqrt(Corrected(x).s, n) <==> -2 * x.s + 1 <= x.r
  {
    assert (x.s - 1) * (x.s - 1) == x.s * x.s - 2 * x.s + 1;
    assert (x.s + 1) * (x.s + 1) == x.s * x.s + 2 * x.s + 1;
  }

  /** isqrt: isqrtInternal with its correction. */
  function Isqrt(n: nat): Root {
    if n <= MAXINT then
      WithRemainder(n, SqrRoot(n))
    else
      NumBitsBound(n);
      Corrected(Internal(n, NumBits(n) - 1))
  }

  /** The postcondition that isqrt promises. */
  ghost predicate IsqrtMeets(n: nat) {
    var x := Isqrt(n);
    IsFloorSqrt(x.s, n) && x.s * x.s + x.r == n
  }

  /** Square and remainder always add up to n, whatever the size of n. */
  lemma {:induction false} InternalIdentity(n: nat, log2n: nat)
    requires Pow2(log2n) <= n < Pow2(log2n + 1)
    ensures var x := Internal(n, log2n); x.s * x.s + x.r == n
    decreases log2n
  {
    if MAXINT < n {
      BitsAboveMaxInt(n, log2n);
      if IterBetter() < n {
        var b := log2n / 4;
        BitsAboveIterBetter(n, log2n);
        HighBits(n, log2n, 2 * b);
        InternalIdentity(Shr(n, 2 * b), log2n - 2 * b);
        ExtendDigits(n, b, Internal(Shr(n, 2 * b), log2n - 2 * b));
      }
    }
  }

  lemma ExtendDigits(n: nat, b: nat, x: Root)
    requires 0 < x.s && x.s * x.s + x.r == Shr(n, 2 * b)
    ensures var y := ExtendBy(n, b, x); y.s * y.s + y.r == n
  {
    ExtendIdentity(x, LowBits(Shr(n, b), b), LowBits(n, b), Pow2(b));
    ShrShr(n, b, b);
    assert (x.s * x.s + x.r) * Pow2(b) + LowBits(Shr(n, b), b) == Shr(n, b);
  }

  lemma IsqrtIdentity(n: nat)
    ensures var x := Isqrt(n); x.s * x.s + x.r == n
  {
    if MAXINT < n {
      NumBitsBound(n);
      InternalIdentity(n, NumBits(n) - 1);
      CorrectedRoot(Internal(n, NumBits(n) - 1), n);
    }
  }

  /** Above MAXINT isqrt is exact exactly when isqrtInternal is at most one too large. */
  lemma ExactWhenWithinOne(n: nat, log2n: nat)
    requires MAXINT < n && log2n == NumBits(n) - 1 && Pow2(log2n) <= n < Pow2(log2n + 1)
    ensures IsqrtMeets(n) <==> -2 * Internal(n, log2n).s + 1 <= Internal(n, log2n).r
  {
    InternalIdentity(n, log2n);
    CorrectedRoot(Internal(n, log2n), n);
  }

  /** isqrt meets its postcondition for every n up to 2^1024. */
  lemma IsqrtExact(n: nat)
    requires n <= IterBetter()
    ensures IsqrtMeets(n)
  {
    if MAXINT < n {
      NumBitsBound(n);
      var l := NumBits(n) - 1;
      BitsAboveMaxInt(n, l);
      IteratedWithinOne(n, l);
      assert Internal(n, l).s == Iterated(n, l);
      InternalIdentity(n, l);
      OneOffRemainder(n, SqrRoot(n), Iterated(n, l));
      ExactWhenWithinOne(n, l);
    }
  }

  /** The inner call of the recursive branch. */
  function InnerRoot(n: nat): Root
    requires IterBetter() < n
  {
    NumBitsBound(n);
    var l := NumBits(n) - 1;
    BitsAboveIterBetter(n, l);
    HighBits(n, l, 2 * (l / 4));
    Internal(Shr(n, 2 * (l / 4)), l - 2 * (l / 4))
  }

  /** Above 2^1024, isqrt meets its postcondition whenever the recursive call
      did not return a root that was too large. */
  lemma IsqrtExactAbove(n: nat)
    requires IterBetter() < n && 0 <= InnerRoot(n).r
    ensures IsqrtMeets(n)
  {
    hide Pow2, Shr;
    NumBitsBound(n);
    var l := NumBits(n) - 1;
    var b := l / 4;
    BitsAboveIterBetter(n, l);
    HighBits(n, l, 2 * b);
    InternalIdentity(Shr(n, 2 * b), l - 2 * b);
    RootNotBelowDigit(Shr(n, 2 * b), l - 2 * b, b, InnerRoot(n));
    ExtendByWithinOne(n, b, InnerRoot(n));
    ExactWhenWithinOne(n, l);
  }

  lemma ExtendByWithinOne(n: nat, b: nat, x: Root)
    requires Pow2(b) <= x.s && 0 <= x.r <= 2 * x.s
    ensures var y := ExtendBy(n, b, x); 0 < y.s && -2 * y.s + 1 <= y.r <= 2 * y.s
  {
    ExtendWithinOne(x, LowBits(Shr(n, b), b), LowBits(n, b), Pow2(b));
  }

  lemma RootNotBelowDigit(m: nat, l: nat, b: nat, x: Root)
    requires 2 * b <= l && Pow2(l) <= m && x.s * x.s + x.r == m && 0 < x.s && x.r <= 2 * x.s
    ensures Pow2(b) <= x.s
  {
    Pow2Add(b, b);
    Pow2Mono(2 * b, l);
    RootAtLeast(Pow2(b), m, x);
  }

  lemma RootAtLeast(p: nat, m: nat, x: Root)
    requires p * p <= m && x.s * x.s + x.r == m && 0 < x.s && x.r <= 2 * x.s
    ensures p <= x.s
  {
    assert (x.s + 1) * (x.s + 1) == x.s * x.s + 2 * x.s + 1;
    SquareLess(p, x.s + 1);
  }

  // ---------- the code ----------

  method IsqrtIterate(n: nat, log2n: nat) returns (s: nat)
    requires Pow2(log2n) <= n && 14 <= log2n
    ensures s == Iterated(n, log2n)
  {
    var d, q := 7 * (log2n / 14 - 1), 7;
    StartIsPrecise(n, log2n);
    s := SqrRoot(Shr(n, 2 * d));
    while d > 0
      invariant 0 <= d && 0 < q && 0 < s
      invariant Refine(n, s, d, q) == Iterated(n, log2n)
    {
      if q > d { q := d; }
      Pow2AtLeastTwo(q);
      MulPos(s, Pow2(q));
      s := s * Pow2(q);
      d := d - q;
      q := 2 * q;
      s := Average(Shr(n, 2 * d), s);
    }
  }

  method IsqrtInternal(n: nat, log2n: nat) returns (x: Root)
    requires Pow2(log2n) <= n < Pow2(log2n + 1)
    ensures x == Internal(n, log2n)
    decreases log2n, 1
  {
    if n <= MAXINT {
      var s := SqrRoot(n);
      return WithRemainder(n, s);
    }
    BitsAboveMaxInt(n, log2n);
    if n <= IterBetter() {
      var s := IsqrtIterate(n, log2n);
      return WithRemainder(n, s);
    }
    x := IsqrtRecurse(n, log2n, log2n / 4);
  }

  method IsqrtRecurse(n: nat, log2n: nat, log2b: nat) returns (x: Root)
    requires Pow2(log2n) <= n < Pow2(log2n + 1)
    requires IterBetter() < n && log2b == log2n / 4
    ensures x == Internal(n, log2n)
    decreases log2n, 0
  {
    BitsAboveIterBetter(n, log2n);
    HighBits(n, log2n, 2 * log2b);
    x := IsqrtInternal(Shr(n, 2 * log2b), log2n - 2 * log2b);
    x := ExtendBy(n, log2b, x);
  }

  method ISqrt(n: nat) returns (x: Root)
    ensures x == Isqrt(n)
  {
    if n <= MAXINT {
      var s := SqrRoot(n);
      return WithRemainder(n, s);
    }
    NumBitsBound(n);
    var sr := IsqrtInternal(n, NumBits(n) - 1);
    if sr.r < 0 {
      return Root(sr.s - 1, sr.r + 2 * sr.s - 1);
    }
    x := sr;
  }
}
