/** Where FourSquares::isqrt misses its postcondition. Above 2^1024 the inner
    call may return a root that is one too large, with a negative remainder;
    the division that follows truncates toward zero, so the next digit can be
    too large by more than the one that isqrt corrects. */
module IsqrtLimit {
  import opened Arithmetic
  import opened IntegerSqrt

  /** The number of bits that the last level of the recursion adds. */
  function Digit(n: nat): nat {
    if n == 0 then 0 else (NumBits(n) - 1) / 4
  }

  /** The next digit from a root that is too large: 2*s*lack - spare is what
      the negative remainder and the next b bits of n come to. */
  ghost predicate Lacks(x: Root, n1: nat, p: nat, lack: int, spare: int) {
    x.r * p + n1 == spare - 2 * x.s * lack - 2 * x.s && 0 < spare <= 2 * x.s
  }

  /** What is left to spare covers the square of the digit that was taken away. */
  ghost predicate Covered(n0: nat, p: nat, lack: int, spare: int) {
    (lack + 1) * (lack + 1) <= spare * p + n0
  }

  /** The extension of a root that is too large is at most one too large
      exactly when the spare part covers the next square. */
  lemma ExtendLacking(x: Root, n1: nat, n0: nat, p: nat, lack: int, spare: int)
    requires 0 < x.s && 0 <= lack && x.r < 0 && n1 < p && Lacks(x, n1, p, lack, spare)
    ensures var y := Extend(x, n1, n0, p);
      y.s == x.s * p - lack && (-2 * y.s + 1 <= y.r <==> Covered(n0, p, lack, spare))
  {
    var todiv, diver := x.r * p + n1, 2 * x.s;
    assert todiv < 0 by { MulMono(x.r, -1, p); }
    DivModUnique(-todiv, diver, lack, diver - spare);
    var y := Extend(x, n1, n0, p);
    assert y == Root(x.s * p - lack, (spare - diver) * p + n0 - lack * lack) by {
      assert TruncDiv(todiv, diver) == -lack;
      assert todiv - (-lack) * diver == spare - diver;
      assert (-lack) * (-lack) == lack * lack;
    }
    LackingBound(x.s, p, n0, lack, spare);
  }

  lemma LackingBound(s: int, p: int, n0: int, lack: int, spare: int)
    ensures (spare - 2 * s) * p + n0 - lack * lack - (-2 * (s * p - lack) + 1)
         == spare * p + n0 - (lack + 1) * (lack + 1)
  {
  }

  /** The part of a digit that a remainder below 0 takes away. */
  function Lack(x: Root, n1: nat, p: nat): int
    requires 0 < x.s
  {
    -(x.r * p + n1) / (2 * x.s)
  }

  function Spare(x: Root, n1: nat, p: nat): int
    requires 0 < x.s
  {
    2 * x.s - -(x.r * p + n1) % (2 * x.s)
  }

  lemma LacksByDivision(x: Root, n1: nat, p: nat)
    requires 0 < x.s && x.r < 0 && n1 < p
    ensures 0 <= Lack(x, n1, p) && Lacks(x, n1, p, Lack(x, n1, p), Spare(x, n1, p))
  {
    MulMono(x.r, -1, p);
    LacksForm(x.r * p + n1, 2 * x.s);
  }

  lemma LacksForm(todiv: int, diver: int)
    requires todiv < 0 < diver
    ensures 0 <= -todiv / diver && todiv == (diver - -todiv % diver) - diver * (-todiv / diver) - diver
  {
    Quotient(-todiv, diver);
    assert -todiv == diver * (-todiv / diver) + -todiv % diver;
  }

  /** Above 2^1024, with x the result of the inner call and n1, n0 the next two
      digits: exactly when isqrt meets its postcondition. */
  lemma IsqrtMeetsIff(n: nat)
    requires IterBetter() < n
    ensures var x, b := InnerRoot(n), Digit(n);
      var n1, n0, p := LowBits(Shr(n, b), b), LowBits(n, b), Pow2(b);
      0 < x.s
      && (IsqrtMeets(n) <==> 0 <= x.r || Covered(n0, p, Lack(x, n1, p), Spare(x, n1, p)))
  {
    hide Covered, Lack, Spare, Extend, IsqrtMeets, Pow2, Shr, LowBits, NumBits;
    NumBitsBound(n);
    var l, b := NumBits(n) - 1, Digit(n);
    BitsAboveIterBetter(n, l);
    var x := InnerRoot(n);
    HighBits(n, l, 2 * b);
    if 0 <= x.r {
      IsqrtExactAbove(n);
    } else {
      var n1, n0, p := LowBits(Shr(n, b), b), LowBits(n, b), Pow2(b);
      LacksByDivision(x, n1, p);
      ExtendLacking(x, n1, n0, p, Lack(x, n1, p), Spare(x, n1, p));
      ExactWhenWithinOne(n, l);
    }
  }

  // ---------- one level of recursion ----------

  /** The approximation, with all bits, that the last averaging step starts from. */
  function LastBefore(n: nat, s: nat, d: nat, q: nat): (t: nat)
    requires 0 < s && 0 < q && 0 < d
    ensures 2 <= t
    decreases d
  {
    var e := if q > d then d else q;
    Pow2AtLeastTwo(e);
    MulPos(s, Pow2(e));
    MulMono(1, s, Pow2(e));
    if e == d then s * Pow2(e) else LastBefore(n, NewtonStep(n, s, d, e), d - e, 2 * e)
  }

  lemma {:induction false} RefineAverages(n: nat, s: nat, d: nat, q: nat)
    requires 0 < s && 0 < q && 0 < d
    ensures Refine(n, s, d, q) == Average(n, LastBefore(n, s, d, q))
    decreases d
  {
    hide Average, Pow2;
    var e := if q > d then d else q;
    if e == d {
      RefineEnds(n, s, d, q);
    } else {
      RefineAverages(n, NewtonStep(n, s, d, e), d - e, 2 * e);
    }
  }

  lemma RefineEnds(n: nat, s: nat, d: nat, q: nat)
    requires 0 < s && 0 < d <= q
    ensures 2 <= s * Pow2(d) && Refine(n, s, d, q) == Average(n, s * Pow2(d))
  {
    hide Average, Pow2;
    Pow2AtLeastTwo(d);
    MulMono(1, s, Pow2(d));
    assert Shr(n, 0) == n;
  }

  /** An average of t and m/t is above the root g of m exactly when t is at least as far from
      g + 1 as the next square is from m. */
  lemma AverageAbove(m: nat, g: nat, t: nat)
    requires IsFloorSqrt(g, m) && 2 <= t
    ensures g < Average(m, t) <==> (g + 1) * (g + 1) - m <= (t - (g + 1)) * (t - (g + 1))
  {
    Quotient(m, t);
    assert g < Average(m, t) <==> 2 * g + 2 - t <= m / t;
    if 2 * g + 2 - t <= m / t {
      MulMono(2 * g + 2 - t, m / t, t);
    } else {
      MulMono(m / t + 1, 2 * g + 2 - t, t);
      assert (m / t + 1) * t == m / t * t + t;
    }
    AwayFrom(g + 1, t);
  }

  lemma AwayFrom(h: int, t: int)
    ensures (t - h) * (t - h) == h * h - (2 * h - t) * t
  {
  }

  /** The high part of n, which the inner call gets. */
  function HighPart(n: nat): nat {
    Shr(n, 2 * Digit(n))
  }

  /** The position of its highest bit. */
  function HighLog(n: nat): int {
    NumBits(n) - 1 - 2 * Digit(n)
  }

  lemma HighPartBits(n: nat)
    requires IterBetter() < n
    ensures 31 <= HighLog(n) && Pow2(HighLog(n)) <= HighPart(n) < Pow2(HighLog(n) + 1) && MAXINT < HighPart(n)
  {
    hide Pow2, Shr, IterBetter;
    NumBitsBound(n);
    BitsAboveIterBetter(n, NumBits(n) - 1);
    HighBits(n, NumBits(n) - 1, 2 * Digit(n));
  }

  /** The approximation that the last averaging step of the inner call starts from. */
  function LastApproximation(n: nat): nat
    requires IterBetter() < n
  {
    HighPartBits(n);
    var m, l := HighPart(n), HighLog(n);
    StartIsPrecise(m, l);
    LastBefore(m, SqrRoot(Shr(m, 2 * StartDepth(l))), StartDepth(l), 7)
  }

  /** What the inner call gives: the root of the high part, or one more. */
  lemma InnerIs(n: nat)
    requires IterBetter() < n && HighPart(n) <= IterBetter()
    ensures var m, t := HighPart(n), LastApproximation(n);
      var g := SqrRoot(m);
      InnerRoot(n) == WithRemainder(m, if (g + 1) * (g + 1) - m <= (t - (g + 1)) * (t - (g + 1)) then g + 1 else g)
  {
    hide Pow2, Shr, IterBetter, SqrRoot, Average, LastBefore, HighLog;
    HighPartBits(n);
    var m, l := HighPart(n), HighLog(n);
    InnerIterates(n, l);
    IteratedWithinOne(m, l);
    StartIsPrecise(m, l);
    RefineAverages(m, SqrRoot(Shr(m, 2 * StartDepth(l))), StartDepth(l), 7);
    AverageAbove(m, SqrRoot(m), LastApproximation(n));
  }

  lemma InnerIterates(n: nat, l: nat)
    requires IterBetter() < n && HighPart(n) <= IterBetter() && l == HighLog(n) && 31 <= l
    requires Pow2(l) <= HighPart(n) < Pow2(l + 1) && MAXINT < HighPart(n)
    ensures InnerRoot(n) == WithRemainder(HighPart(n), Iterated(HighPart(n), l))
  {
    hide Pow2, Shr, IterBetter, Iterated, NumBits;
    NumBitsBound(n);
  }

  /** With one level of recursion: isqrt meets its postcondition exactly when the last
      approximation is closer to the root of the high part than that part is to the next
      square, or the two low digits cover what is taken away for the root plus one. */
  lemma OneLevelMeetsIff(n: nat)
    requires IterBetter() < n && HighPart(n) <= IterBetter()
    ensures var m, b, t := HighPart(n), Digit(n), LastApproximation(n);
      var n1, n0, p, g := LowBits(Shr(n, b), b), LowBits(n, b), Pow2(b), SqrRoot(m);
      var above := WithRemainder(m, g + 1);
      IsqrtMeets(n) <==> (t - (g + 1)) * (t - (g + 1)) < (g + 1) * (g + 1) - m
                         || Covered(n0, p, Lack(above, n1, p), Spare(above, n1, p))
  {
    hide *;
    InnerIs(n);
    IsqrtMeetsIff(n);
    RootSigns(HighPart(n));
    WithRemainderIs(HighPart(n), SqrRoot(HighPart(n)));
    WithRemainderIs(HighPart(n), SqrRoot(HighPart(n)) + 1);
  }

  lemma RootSigns(m: nat)
    ensures SqrRoot(m) * SqrRoot(m) <= m < (SqrRoot(m) + 1) * (SqrRoot(m) + 1)
  {
  }

  lemma WithRemainderIs(m: int, s: int)
    ensures WithRemainder(m, s).s == s && WithRemainder(m, s).r == m - s * s
  {
  }

  // ---------- a number on which isqrt fails ----------

  /** 2^224. */
  function Y(): nat { Pow2(224) }

  /** 2^448. */
  function P(): nat { Pow2(448) }

  /** The high half: (y^2 + y - 2)^2 - (y - 2)^2 for y = 2^224. */
  function High(): nat { P() * P() + Low() }

  function Low(): nat {
    LargeY();
    MulPos(Y() - 2, P());
    2 * ((Y() - 2) * P())
  }

  /** The next 448 bits. */
  function Middle(): nat {
    LargeY();
    MulMono(20, Y(), Y());
    Y() * Y() - 20 * Y() + 21
  }

  /** A number of 1793 bits. */
  function Failing(): nat { (High() * P() + Middle()) * P() }

  lemma LargeY()
    ensures 256 <= Pow2(224) && Pow2(448) == Pow2(224) * Pow2(224) && Pow2(224) % 2 == 0
  {
    assert Pow2(8) == 256;
    hide Pow2;
    Pow2Mono(8, 224);
    Pow2Add(224, 224);
    Pow2Add(223, 1);
    Twice(Pow2(223));
  }

  lemma Twice(a: nat)
    ensures Pow2(1) == 2 && a * 2 % 2 == 0
  {
  }

  lemma Doubles(k: nat)
    ensures Pow2(k + 1) == 2 * Pow2(k)
  {
  }

  /** A power of two stays what it is when an average with little more than its
      square divided by it is taken. */
  lemma AverageKeeps(s: nat, low: nat)
    requires 2 <= s && low < 2 * s
    ensures Average(s * s + low, s) == s
  {
    DivModUnique(s * s + low, s, if low < s then s else s + 1, if low < s then low else low - s);
    assert (s + 1) * s == s * s + s;
  }

  /** Down to depth 224 the approximation is the power of two it started as. */
  lemma KeepsPower(d: nat, q: nat)
    requires 0 < q <= d <= 441 && 224 <= d - q
    ensures NewtonStep(High(), Pow2(448 - d), d, q) == Pow2(448 - (d - q))
  {
    hide Pow2, Shr, Average, Low;
    var k, e := 2 * (d - q), 448 - (d - q);
    Pow2Add(448 - d, q);
    Pow2AtLeastTwo(e);
    HighShifted(d - q);
    Pow2Add(e, e);
    AverageKeeps(Pow2(e), Shr(High(), k) - Pow2(2 * e));
  }

  lemma HighShifted(d: nat)
    requires 224 <= d <= 448
    ensures Pow2(2 * (448 - d)) <= Shr(High(), 2 * d) < Pow2(2 * (448 - d)) + 2 * Pow2(448 - d)
  {
    hide Pow2, Shr, Low;
    LowBound();
    Pow2Add(448, 448);
    Pow2Add(2 * (448 - d), 2 * d);
    Pow2Add(448 - d, 2 * d);
    Pow2Mono(672, 448 + d);
    ShrIsDiv(High(), 2 * d);
    Between(Shr(High(), 2 * d), Pow2(2 * (448 - d)), 2 * Pow2(448 - d), Pow2(2 * d));
  }

  lemma Between(q: int, a: int, b: int, p: int)
    requires 0 < p && a * p < q * p + p && q * p < a * p + b * p
    ensures a <= q < a + b
  {
    assert (q + 1) * p == q * p + p && (a + b) * p == a * p + b * p;
    if q < a { MulMono(q + 1, a, p); }
    if a + b <= q { MulMono(a + b, q, p); }
  }

  lemma LowBound()
    ensures Low() < 2 * Pow2(672)
  {
    hide Pow2;
    LargeY();
    Pow2Add(224, 448);
    assert (Y() - 2) * P() == Y() * P() - 2 * P();
  }

  /** So does one round of the loop. */
  lemma Round(d: nat, q: nat)
    requires 0 < q <= d <= 441 && 224 <= d - q
    ensures Refine(High(), Pow2(448 - d), d, q) == Refine(High(), Pow2(448 - (d - q)), d - q, 2 * q)
  {
    hide Pow2, High, NewtonStep;
    KeepsPower(d, q);
  }

  /** The last round goes from 2^224 straight to one above the root. */
  lemma LastRound()
    ensures Refine(High(), Y(), 224, 224) == P() + Y() - 2
  {
    hide Pow2, High, Average, Shr, Low;
    LargeY();
    HighAgain();
    LastAverage(P(), Y());
    assert NewtonStep(High(), Y(), 224, 224) == P() + Y() - 2;
  }

  lemma HighAgain()
    ensures Shr(High(), 0) == P() * P() + 2 * ((Y() - 2) * P())
  {
  }

  lemma LastAverage(p: nat, y: nat)
    requires 2 <= y && 2 <= p
    ensures Average(p * p + 2 * ((y - 2) * p), p) == p + y - 2
  {
    assert p * p + 2 * ((y - 2) * p) == (p + 2 * (y - 2)) * p;
    DivModUnique(p * p + 2 * ((y - 2) * p), p, p + 2 * (y - 2), 0);
  }

  lemma StartsAtPower()
    ensures SqrRoot(Shr(High(), 882)) == Pow2(7)
  {
    hide *;
    Pow2Seven();
    HighShifted(441);
    Pow2Add(7, 7);
    RootOfAtLeast(Shr(High(), 882), 128);
  }

  lemma Pow2Seven()
    ensures Pow2(7) == 128
  {
    hide SqrRoot, NumBits, Shr;
  }

  lemma RootOfAtLeast(n: nat, s: nat)
    requires s * s <= n < s * s + 2 * s
    ensures SqrRoot(n) == s
  {
    hide SqrRoot;
    assert (s + 1) * (s + 1) == s * s + 2 * s + 1;
    FloorSqrtUnique(SqrRoot(n), s, n);
  }

  lemma HighBounds()
    ensures Pow2(896) <= High() < Pow2(897) && MAXINT < High() <= IterBetter()
  {
    hide Pow2, Low;
    LowBound();
    Pow2Add(448, 448);
    Doubles(896);
    Doubles(895);
    Pow2Mono(672, 894);
    Doubles(894);
    Pow2Mono(897, 1024);
    Pow2Mono(64, 896);
    IterBetterBits();
  }

  /** The inner call is one too large. */
  lemma InnerTooLarge()
    requires Pow2(896) <= High() < Pow2(897)
    ensures Internal(High(), 896) == Root(P() + Y() - 2, -((Y() - 2) * (Y() - 2)))
  {
    hide Pow2, Shr, High, NewtonStep, Refine, SqrRoot;
    HighBounds();
    StartsAtPower();
    Round(441, 7);
    Round(434, 14);
    Round(420, 28);
    Round(392, 56);
    Round(336, 112);
    LastRound();
    assert StartDepth(896) == 441;
    assert Iterated(High(), 896) == P() + Y() - 2;
    HighIs();
  }

  lemma HighIs()
    ensures High() - (P() + Y() - 2) * (P() + Y() - 2) == -((Y() - 2) * (Y() - 2))
  {
    hide Pow2;
    LargeY();
  }

  lemma FailingBits()
    ensures NumBits(Failing()) == 1793 && IterBetter() < Failing()
    ensures Shr(Failing(), 896) == High()
    ensures LowBits(Shr(Failing(), 448), 448) == Middle() && LowBits(Failing(), 448) == 0
  {
    hide Pow2, Shr, High, Middle, NumBits;
    MiddleBound();
    SplitDigits(High(), Middle(), 448);
    ShrShr(Failing(), 448, 448);
    HighBounds();
    FailingSize();
    BitsFromBounds(Failing(), 1792);
    Pow2Mono(1024, 1792);
    Pow2Mono(897, 1024);
    Pow2Strict(1024, 1792);
  }

  lemma Pow2Strict(a: nat, b: nat)
    requires a < b
    ensures Pow2(a) < Pow2(b)
  {
    Pow2Mono(a, b - 1);
  }

  lemma MiddleBound()
    ensures Middle() < P()
  {
    hide Pow2;
    LargeY();
  }

  lemma SplitDigits(high: nat, middle: nat, k: nat)
    requires middle < Pow2(k)
    ensures var n := (high * Pow2(k) + middle) * Pow2(k);
      Shr(n, k) == high * Pow2(k) + middle && LowBits(n, k) == 0
      && Shr(high * Pow2(k) + middle, k) == high && LowBits(high * Pow2(k) + middle, k) == middle
  {
    hide *;
    ShiftedDigit(high, middle, k);
    ShiftedDigit(high * Pow2(k) + middle, 0, k);
  }

  lemma ShiftedDigit(a: nat, r: nat, k: nat)
    requires r < Pow2(k)
    ensures 0 <= a * Pow2(k) + r && Shr(a * Pow2(k) + r, k) == a && LowBits(a * Pow2(k) + r, k) == r
  {
    hide Pow2, Shr;
    var n := a * Pow2(k) + r;
    ShrIsDiv(n, k);
    SameQuotient(Shr(n, k), a, r, Pow2(k));
  }

  lemma SameQuotient(q: int, a: int, r: int, p: int)
    requires 0 <= r < p && q * p <= a * p + r < q * p + p
    ensures q == a
  {
    DivModUnique(a * p + r, p, a, r);
    DivModUnique(a * p + r, p, q, a * p + r - q * p);
  }

  lemma FailingSize()
    requires Pow2(896) <= High() < Pow2(897) && Middle() < P()
    ensures Pow2(1792) <= Failing() < Pow2(1793)
  {
    hide Pow2, High, Middle;
    Pow2Add(896, 448);
    Pow2Add(1344, 448);
    Pow2Add(897, 448);
    Pow2Add(1345, 448);
    Scale(High(), Middle(), Pow2(896), Pow2(897), P());
  }

  lemma Scale(h: int, m: int, a: int, b: int, p: int)
    requires a <= h < b && 0 <= m < p
    ensures a * p * p <= (h * p + m) * p < b * p * p
  {
    MulMono(a, h, p);
    MulMono(h + 1, b, p);
    assert (h + 1) * p == h * p + p;
    MulMono(a * p, h * p + m, p);
    MulMono(h * p + m + 1, b * p, p);
    assert (h * p + m + 1) * p == (h * p + m) * p + p;
  }

  lemma BitsFromBounds(n: nat, k: nat)
    requires Pow2(k) <= n < Pow2(k + 1)
    ensures NumBits(n) == k + 1
  {
    NumBitsLeast(n, k + 1);
    NumBitsBound(n);
    if NumBits(n) < k + 1 { Pow2Mono(NumBits(n), k); }
  }

  /** The digit that the outer level takes away: 2*z^2 - 5*z + 4 for y = 2*z. */
  lemma DigitIdentity(z: int)
    ensures var y, lack := 2 * z, 2 * (z * z) - 5 * z + 4;
      var s := y * y + y - 2;
      -((y - 2) * (y - 2)) * (y * y) + (y * y - 20 * y + 21) == 1 - 2 * s * lack - 2 * s
  {
    var y := 2 * z;
    assert y * y == 4 * (z * z);
    assert (y - 2) * (y - 2) == 4 * (z * z) - 8 * z + 4;
    SquareTerms(z, z * z);
  }

  lemma SquareTerms(z: int, w: int)
    ensures (4 * w - 8 * z + 4) * (4 * w) == 16 * (w * w) - 32 * (z * w) + 16 * w
    ensures (4 * w + 2 * z - 2) * (2 * w - 5 * z + 4) == 8 * (w * w) - 16 * (z * w) + 12 * w - 10 * (z * z) + 18 * z - 8
  {
  }

  /** isqrt misses its postcondition on a number of 1793 bits. */
  lemma IsqrtFails()
    ensures !IsqrtMeets(Failing())
  {
    hide Pow2, Shr, High, Middle, NumBits, IterBetter, Failing, IsqrtMeets, Internal, Extend;
    FailingBits();
    HighBounds();
    InnerTooLarge();
    OuterFails();
    NumBitsBound(Failing());
    BitsAboveIterBetter(Failing(), 1792);
    ExactWhenWithinOne(Failing(), 1792);
    OuterIs();
  }

  lemma OuterIs()
    requires Pow2(1792) <= Failing() < Pow2(1793) && Pow2(896) <= High() < Pow2(897)
    requires Shr(Failing(), 896) == High() && IterBetter() < Failing()
    requires LowBits(Shr(Failing(), 448), 448) == Middle() && LowBits(Failing(), 448) == 0
    ensures 0 < Internal(High(), 896).s
    ensures Internal(Failing(), 1792) == Extend(Internal(High(), 896), Middle(), 0, P())
  {
    hide Pow2, Shr, High, Middle, IterBetter, Failing, LowBits, Extend, Internal;
    RecursionStep(Failing(), 1792, 448, High());
  }

  /** The recursive branch. */
  lemma RecursionStep(n: nat, l: nat, b: nat, m: nat)
    requires Pow2(l) <= n < Pow2(l + 1) && IterBetter() < n
    requires b == l / 4 && m == Shr(n, 2 * b) && Pow2(l - 2 * b) <= m < Pow2(l - 2 * b + 1)
    ensures Internal(n, l) == Extend(Internal(m, l - 2 * b), LowBits(Shr(n, b), b), LowBits(n, b), Pow2(b))
  {
    BitsAboveIterBetter(n, l);
    hide Pow2, Shr, IterBetter, LowBits, Extend, Iterated;
  }

  lemma OuterFails()
    ensures var y := Extend(Root(P() + Y() - 2, -((Y() - 2) * (Y() - 2))), Middle(), 0, P());
      !(-2 * y.s + 1 <= y.r)
  {
    hide Pow2, Extend, Lacks, Covered;
    LargeY();
    MiddleBound();
    var z := Y() / 2;
    var lack := 2 * (z * z) - 5 * z + 4;
    var x := Root(P() + Y() - 2, -((Y() - 2) * (Y() - 2)));
    DigitIdentity(z);
    TakesAway(x, lack);
    MulPos(Y() - 2, Y() - 2);
    LackLarge(z);
    ExtendLacking(x, Middle(), 0, P(), lack, 1);
    NotCovered(z, lack);
  }

  lemma TakesAway(x: Root, lack: int)
    requires x == Root(P() + Y() - 2, -((Y() - 2) * (Y() - 2))) && P() == Y() * Y() && 256 <= Y()
    requires -((Y() - 2) * (Y() - 2)) * (Y() * Y()) + (Y() * Y() - 20 * Y() + 21)
          == 1 - 2 * (Y() * Y() + Y() - 2) * lack - 2 * (Y() * Y() + Y() - 2)
    ensures Lacks(x, Middle(), P(), lack, 1)
  {
    hide Pow2;
  }

  lemma LackLarge(z: int)
    requires 128 <= z
    ensures 2 * z < 2 * (z * z) - 5 * z + 4
  {
    MulMono(128, z, z);
  }

  lemma NotCovered(z: int, lack: int)
    requires 128 <= z && 2 * z < lack && P() == 2 * z * (2 * z)
    ensures !Covered(0, P(), lack, 1)
  {
    hide Pow2;
    SquareMono(2 * z, lack);
    assert (lack + 1) * (lack + 1) == lack * lack + 2 * lack + 1;
  }
}
