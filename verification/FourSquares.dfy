/** FourSquares: writing a non-negative integer as a sum of four squares. The
    primality tests and the imaginary unit are oracles: no result here depends
    on a number really being prime. */
module FourSquares {
  import opened Arithmetic
  import opened IntegerSqrt
  import TwoSquares

  /** The outside calls: the two probable-prime tests, and iunit, whose second
      component is true for the flag ONE. */
  datatype Oracles = Oracles(
    probPrime: int -> bool,
    isProbablePrime: int -> bool,
    iunit: int -> (int, bool))

  /** What iunit returns whatever its input is: with flag ZERO a square root of
      p, with flag ONE a residue modulo p. For p = 1 it always takes the exit
      with flag ZERO. */
  ghost predicate IUnitOk(o: Oracles) {
    forall p :: 0 < p ==>
      && (o.iunit(p).1 ==> 1 < p && 0 <= o.iunit(p).0 < p)
      && (!o.iunit(p).1 ==> 0 <= o.iunit(p).0 && o.iunit(p).0 * o.iunit(p).0 == p)
  }

  /** What iunit returns is of use: a square root of p, or one of -1 modulo p. */
  predicate GoodRoot(p: int, o: Oracles)
    requires p != 0
  {
    !o.iunit(p).1 || (o.iunit(p).0 * o.iunit(p).0 + 1) % p == 0
  }

  datatype Pair = Pair(a: int, b: int, ok: bool)

  ghost predicate IsPair(p: int, z: Pair) {
    if z.ok then 0 <= z.a && 0 <= z.b && (p != 2 ==> z.a * z.a + z.b * z.b == p)
    else z == Pair(0, 0, false)
  }

  /** The Euclidean descent from a square root of -1 modulo p. It never divides
      by zero, and its two remainders are right for every p but 2. */
  method Descend(p: int, root: int) returns (x: int, y: int)
    requires 1 < p && 0 < root < p && (root * root + 1) % p == 0
    ensures 0 <= x && 0 <= y
    ensures x * x + y * y == p <==> p != 2
  {
    var a, b := p, root;
    ghost var k := TwoSquares.DescentStart(p, b);
    ghost var u, v, s, ta, tb := 0, 1, 1, 1, 0;
    while b * b > p
      invariant TwoSquares.Descent(p, root, k, a, b, u, v, s, ta, tb)
      decreases b
    {
      TwoSquares.DescentStep(p, root, k, a, b, u, v, s, ta, tb);
      u, v, s, ta, tb := -v, -(u + a / b * v), -s, tb, ta - a / b * tb;
      var t := a % b;
      a := b;
      b := t;
    }
    TwoSquares.DescentResult(p, root, k, a, b, u, v, s, ta, tb);
    x, y := a % b, b;
  }

  /** Two squares for p. The check of b*b + 1 is the only gate before the descent. */
  method DecomposePrime(p: int, o: Oracles) returns (z: Pair)
    requires 0 < p && IUnitOk(o)
    ensures IsPair(p, z) && (z.ok <==> GoodRoot(p, o))
  {
    var sr := o.iunit(p);
    var b := sr.0;
    if !sr.1 {
      return Pair(0, b, true);
    }
    if (b * b + 1) % p != 0 {
      return Pair(0, 0, false);
    }
    if b == 0 { DivModUnique(1, p, 0, 1); }
    var x, y := Descend(p, b);
    z := Pair(x, y, true);
  }

  // ---------- residues of squares ----------

  /** Squares are 0, 1 or 4 modulo 8. */
  lemma SquareResidue(x: int) returns (k: int)
    ensures x % 2 == 1 ==> x * x == 8 * k + 1
    ensures x % 4 == 0 ==> x * x == 8 * k
    ensures x % 4 == 2 ==> x * x == 8 * k + 4
  {
    var w := ShiftedSquare(x / 8, x % 8);
    var j := SmallSquare(x % 8);
    k := w + j;
  }

  lemma SmallSquare(c: int) returns (j: int)
    requires 0 <= c < 8
    ensures c % 2 == 1 ==> c * c == 8 * j + 1
    ensures c % 4 == 0 ==> c * c == 8 * j
    ensures c % 4 == 2 ==> c * c == 8 * j + 4
  {
    j := [0, 0, 0, 1, 2, 3, 4, 6][c];
    if c == 0 {} else if c == 1 {} else if c == 2 {} else if c == 3 {}
    else if c == 4 {} else if c == 5 {} else if c == 6 {} else { assert c == 7; }
  }

  lemma ShiftedSquare(k: int, c: int) returns (w: int)
    ensures (8 * k + c) * (8 * k + c) == 8 * w + c * c
  {
    w := 8 * (k * k) + 2 * (k * c);
  }

  // What the bit tests of the source say about residues.

  lemma LowTwoBits(n: nat)
    ensures Bit(n, 0) == n % 2
    ensures n % 4 == Bit(n, 0) + 2 * Bit(n, 1)
    ensures n % 4 == 0 ==> (n - 1) % 4 != 0
  {
    hide Shr, Pow2, Bit;
    BitsOfLow(n);
    FourDigits(n);
  }

  lemma BitsOfLow(n: nat)
    ensures Bit(n, 0) == n % 2 && Bit(n, 1) == n / 2 % 2
  {
  }

  lemma FourDigits(n: nat)
    ensures n % 4 == n % 2 + 2 * (n / 2 % 2)
    ensures n % 4 == 0 ==> (n - 1) % 4 != 0
  {
  }

  lemma LowThreeBits(n: nat)
    ensures n % 8 == Bit(n, 0) + 2 * Bit(n, 1) + 4 * Bit(n, 2)
  {
    assert Shr(n, 0) == n;
    assert Shr(n, 1) == n / 2;
    assert Shr(n, 2) == n / 2 / 2;
  }

  /** With n neither 0 mod 4 nor 7 mod 8, the two low bits tell the cases apart. */
  lemma CaseBits(n: nat)
    requires n % 4 != 0 && n % 8 != 7
    ensures if Bit(n, 0) == 1 && Bit(n, 1) == 1 then n % 8 == 3 else n % 4 == 1 || n % 4 == 2
  {
    LowTwoBits(n);
  }

  lemma OtherParity(n: int, s: int)
    ensures if (n - s) % 2 == 1 then s % 2 == (n + 1) % 2 else (s - 1) % 2 == (n + 1) % 2
  {
  }

  lemma StillOneModFour(p: int, x: int)
    requires p % 4 == 1
    ensures (p + 4 * x) % 4 == 1 && (x % 2 == 1 ==> (p + 2 * (x + 1)) % 4 == 1)
  {
  }

  // ---------- the power of four ----------

  method GetLowestSetBit(n: nat) returns (i: nat)
    ensures forall j :: 0 <= j < i ==> Bit(n, j) == 0
    ensures 0 < n ==> Bit(n, i) == 1
  {
    i := 0;
    while i < NumBits(n)
      invariant i <= NumBits(n)
      invariant forall j :: 0 <= j < i ==> Bit(n, j) == 0
    {
      if Bit(n, i) == 1 { return; }
      i := i + 1;
    }
    if 0 < n {
      LowZeros(n, i);
      ShrAll(n, i);
    }
  }

  lemma {:induction false} LowZeros(n: nat, k: nat)
    requires forall j :: 0 <= j < k ==> Bit(n, j) == 0
    ensures n == Shr(n, k) * Pow2(k)
  {
    if k > 0 {
      LowZeros(n, k - 1);
      assert Bit(n, k - 1) == 0;
      assert Shr(n, k - 1) == 2 * Shr(n, k);
      assert 2 * Shr(n, k) * Pow2(k - 1) == Shr(n, k) * (2 * Pow2(k - 1));
    }
  }

  /** n without its factors of four: the number that isqrt is asked first. */
  function ReducedArg(n: nat): (m: nat)
    ensures m <= n && (0 < n ==> 0 < m && m % 4 != 0)
  {
    if 0 < n && n % 4 == 0 then ReducedArg(n / 4) else n
  }

  lemma {:induction false} ReducedArgIs(n: nat, m: nat, k: nat)
    requires 0 < m && m % 4 != 0 && n == m * Pow2(2 * k)
    ensures ReducedArg(n) == m
  {
    if k > 0 {
      var p := Pow2(2 * k - 2);
      assert Pow2(2 * k) == 4 * p by { assert Pow2(2 * k) == 2 * Pow2(2 * k - 1); }
      assert 2 * (k - 1) == 2 * k - 2;
      hide Pow2;
      QuarterOf(n, m, p);
      MulPos(m, p);
      ReducedArgIs(n / 4, m, k - 1);
    }
  }

  lemma QuarterOf(n: nat, m: nat, p: nat)
    requires n == m * (4 * p)
    ensures n % 4 == 0 && n / 4 == m * p
  {
    assert m * (4 * p) == 4 * (m * p);
  }

  lemma PowerOfFour(n: nat, i: nat, k: nat)
    requires 0 < n && k == i / 2 && Bit(n, i) == 1
    requires forall j :: 0 <= j < i ==> Bit(n, j) == 0
    ensures n == Shr(n, 2 * k) * (Pow2(k) * Pow2(k))
    ensures Shr(n, 2 * k) % 4 != 0 && 0 < Shr(n, 2 * k) <= n
    ensures Shr(n, 2 * k) == ReducedArg(n)
  {
    LowZeros(n, 2 * k);
    Pow2Add(k, k);
    assert Bit(n, i) == 1;
    assert Bit(n, 2 * k) == Shr(n, 2 * k) % 2 && Bit(n, 2 * k + 1) == Shr(n, 2 * k) / 2 % 2;
    FactorAtMost(n, Shr(n, 2 * k), Pow2(2 * k));
    ReducedArgIs(n, Shr(n, 2 * k), k);
  }

  lemma FactorAtMost(n: nat, m: nat, p: nat)
    requires 0 < n && n == m * p
    ensures 0 < m <= n
  {
    if m > 0 { if p > 0 { MulPos(m, p); } }
  }

  // ---------- decompose ----------

  /** Four numbers and the success flag, `result[0..4]`. */
  datatype Four = Four(a: int, b: int, c: int, d: int, ok: bool)

  /** The postcondition of decompose: on success four non-negative numbers
      whose squares add up to n, on failure zeros. */
  ghost predicate IsDecomposition(n: int, r: Four) {
    if r.ok then
      0 <= r.a && 0 <= r.b && 0 <= r.c && 0 <= r.d &&
      r.a * r.a + r.b * r.b + r.c * r.c + r.d * r.d == n
    else
      r == Four(0, 0, 0, 0, false)
  }

  datatype Triple = NoTriple | Triple(x: int, y: int, z: int)

  ghost predicate IsTriple(n: int, t: Triple) {
    t.Triple? ==> 0 <= t.x && 0 <= t.y && 0 <= t.z && t.x * t.x + t.y * t.y + t.z * t.z == n
  }

  /** The numbers that the searches cannot handle. */
  const SPECIAL: set<int> := {2, 3, 10, 34, 58, 85, 130, 214, 226, 370, 526, 706, 730, 1414, 1906, 2986, 9634}

  /** The look-up table for these. */
  function SpecialCase(n: int): (t: Triple)
    ensures t.Triple? <==> n in SPECIAL
    ensures IsTriple(n, t)
  {
    if n == 9634 then Triple(56, 57, 57)
    else if n == 2986 then Triple(21, 32, 39)
    else if n == 1906 then Triple(13, 21, 36)
    else if n == 1414 then Triple(6, 17, 33)
    else if n == 730 then Triple(0, 1, 27)
    else if n == 706 then Triple(15, 15, 16)
    else if n == 526 then Triple(6, 7, 21)
    else if n == 370 then Triple(8, 9, 15)
    else if n == 226 then Triple(8, 9, 9)
    else if n == 214 then Triple(3, 6, 13)
    else if n == 130 then Triple(0, 3, 11)
    else if n == 85 then Triple(0, 6, 7)
    else if n == 58 then Triple(0, 3, 7)
    else if n == 34 then Triple(3, 3, 4)
    else if n == 10 then Triple(0, 1, 3)
    else if n == 3 then Triple(1, 1, 1)
    else if n == 2 then Triple(0, 1, 1)
    else NoTriple
  }

  /** x^2 with what is left of n. */
  ghost predicate Leaves(n: int, x: int, rest: int) {
    0 <= x && 0 <= rest && x * x + rest == n
  }

  /** Both the root of n and the number below it leave a non-negative rest. */
  lemma RootLeaves(x: Root, n: nat)
    requires 0 < n && IsFloorSqrt(x.s, n) && x.s * x.s + x.r == n
    ensures 0 < x.s && Leaves(n, x.s, x.r) && Leaves(n, x.s - 1, x.r + 2 * x.s - 1)
  {
    assert (x.s - 1) * (x.s - 1) == x.s * x.s - 2 * x.s + 1;
  }

  /** Two lower for x is 4*(x - 1) more for the rest. */
  lemma TwoBelow(n: nat, x: int, rest: int)
    requires Leaves(n, x, rest) && 2 <= x
    ensures Leaves(n, x - 2, rest + 4 * (x - 1))
  {
    assert (x - 2) * (x - 2) == x * x - 4 * (x - 1);
  }

  lemma FoundPrime(n: nat, x: int, p: int, z: Pair)
    requires Leaves(n, x, p) && z.ok && IsPair(p, z) && p != 2
    ensures IsTriple(n, Triple(x, z.a, z.b))
  {
  }

  lemma FoundTwicePrime(n: nat, x: int, p: int, z: Pair)
    requires Leaves(n, x, 2 * p) && z.ok && IsPair(p, z) && p != 2
    ensures IsTriple(n, Triple(x, z.a + z.b, Abs(z.a - z.b)))
  {
    SumAndDifference(z.a, z.b);
  }

  function Abs(x: int): nat {
    if x < 0 then -x else x
  }

  // What is left of n after subtracting the square of x.

  lemma TwicePrimeLeft(n: nat, x: int, rest: int)
    requires n % 8 == 3 && x % 2 == 1 && Leaves(n, x, rest)
    ensures 0 < rest / 2 && rest / 2 % 4 == 1 && rest == 2 * (rest / 2)
  {
    var k := SquareResidue(x);
    Residue(rest, n / 8 - k, 8, 2);
  }

  lemma PrimeLeft(n: nat, x: int, rest: int)
    requires n % 4 == 1 || n % 4 == 2
    requires x % 2 == (n + 1) % 2 && Leaves(n, x, rest)
    ensures 0 < rest && rest % 4 == 1
  {
    var k := SquareModFour(x);
    Residue(rest, n / 4 - k, 4, 1);
  }

  lemma SquareModFour(x: int) returns (k: int)
    ensures x * x == 4 * k + x % 2
  {
    var h, c := x / 2, x % 2;
    DoubledSquare(h, c);
    k := h * h + h * c;
    assert c * c == c;
  }

  lemma DoubledSquare(h: int, c: int)
    ensures (2 * h + c) * (2 * h + c) == 4 * (h * h + h * c) + c * c
  {
  }

  lemma SevenLeft(n: nat, x: int, rest: int)
    requires n % 8 == 7 && x % 4 != 0 && Leaves(n, x, rest)
    ensures rest % 4 != 0 && rest % 8 != 7
  {
    var k := SquareResidue(x);
    if x % 2 == 1 { Residue(rest, n / 8 - k, 8, 6); } else { Residue(rest, n / 8 - k, 8, 3); }
  }

  lemma Residue(a: int, q: int, m: int, r: int)
    requires 0 <= r < m && a == m * q + r
    ensures a % m == r
  {
    DivModUnique(a, m, q, r);
  }

  // ---------- the searches ----------

  /** A number that both tests of the search accept. */
  predicate Accepted(p: int, o: Oracles)
    requires p != 0
  {
    o.probPrime(p) && GoodRoot(p, o)
  }

  /** x is a number whose square leaves an accepted number, or twice one. */
  ghost predicate Hit(n: nat, x: nat, o: Oracles) {
    && x * x < n
    && if n % 8 == 3 then x % 2 == 1 && 0 < (n - x * x) / 2 && Accepted((n - x * x) / 2, o)
       else x % 2 == (n + 1) % 2 && Accepted(n - x * x, o)
  }

  /** Nothing from x on is one. */
  ghost predicate NoHitFrom(n: nat, x: int, o: Oracles) {
    forall y: nat :: x <= y ==> !Hit(n, y, o)
  }

  /** The result of a search: the largest number whose square leaves an accepted one,
      with two more for what is left, and nothing exactly when there is no such number. */
  ghost predicate Searched(n: nat, t: Triple, o: Oracles) {
    && IsTriple(n, t)
    && match t
       case NoTriple => NoHitFrom(n, 0, o)
       case Triple(x, _, _) => 0 <= x && Hit(n, x, o) && NoHitFrom(n, x + 1, o)
  }

  /** Above the root, or the number below it for the other parity, nothing can be found. */
  lemma NothingAbove(n: nat, x: nat, o: Oracles)
    requires n % 8 == 3 || n % 4 == 1 || n % 4 == 2
    requires n < (x + 2) * (x + 2)
    requires if n % 8 == 3 then x % 2 == 1 else x % 2 == (n + 1) % 2
    ensures NoHitFrom(n, x + 1, o)
  {
    forall y: nat | x + 1 <= y ensures !Hit(n, y, o) {
      if y > x + 1 { SquareMono(x + 2, y); }
    }
  }

  lemma NoneBetween(n: nat, x: nat, o: Oracles)
    requires n % 8 == 3 || n % 4 == 1 || n % 4 == 2
    requires if n % 8 == 3 then x % 2 == 1 else x % 2 == (n + 1) % 2
    requires NoHitFrom(n, x + 1, o) && !Hit(n, x, o)
    ensures 2 <= x ==> NoHitFrom(n, x - 1, o)
    ensures x < 2 ==> NoHitFrom(n, 0, o)
  {
    hide Hit;
    forall y: nat | x - 1 <= y ensures !Hit(n, y, o) {
      if y == x - 1 { HitParity(n, y, o); }
    }
  }

  lemma HitParity(n: nat, y: nat, o: Oracles)
    ensures Hit(n, y, o) ==> y % 2 == if n % 8 == 3 then 1 else (n + 1) % 2
  {
    hide Accepted;
  }

  lemma SquareAboveRoot(s: nat, n: nat)
    requires n < (s + 1) * (s + 1)
    ensures n < (s + 2) * (s + 2)
  {
    SquareMono(s + 1, s + 2);
  }

  lemma IsHit(n: nat, x: nat, rest: int, o: Oracles)
    requires Leaves(n, x, rest) && 0 < rest
    requires if n % 8 == 3 then x % 2 == 1 && rest == 2 * (rest / 2) else x % 2 == (n + 1) % 2
    ensures Hit(n, x, o) <==> Accepted(if n % 8 == 3 then rest / 2 else rest, o)
  {
  }

  /** Case n = 3 mod 8: search for n = x^2 + 2*p with p = 1 mod 4 accepted. */
  method SearchTwicePrime(n: nat, s: int, r: int, o: Oracles) returns (t: Triple)
    requires IUnitOk(o) && n % 8 == 3
    requires 0 < s && Leaves(n, s, r) && Leaves(n, s - 1, r + 2 * s - 1) && n < (s + 1) * (s + 1)
    ensures Searched(n, t, o)
  {
    hide *;
    if s % 2 == 1 {
      SquareAboveRoot(s, n);
      t := TwicePrimeLoop(n, s, r, o);
    } else {
      t := TwicePrimeLoop(n, s - 1, r + 2 * s - 1, o);
    }
  }

  /** What the loop keeps: p is half of what the square of x leaves, and nothing above x
      was a hit. */
  ghost predicate TwiceState(n: nat, x: int, p: int, o: Oracles) {
    0 <= x && x % 2 == 1 && 0 < p && p % 4 == 1 && Leaves(n, x, 2 * p) && NoHitFrom(n, x + 1, o)
  }

  method TwicePrimeLoop(n: nat, x0: int, rest: int, o: Oracles) returns (t: Triple)
    requires IUnitOk(o) && n % 8 == 3 && x0 % 2 == 1 && Leaves(n, x0, rest) && n < (x0 + 2) * (x0 + 2)
    ensures Searched(n, t, o)
  {
    hide *;
    TwiceStart(n, x0, rest, o);
    var x, p := x0, rest / 2;
    while true
      invariant TwiceState(n, x, p, o)
      decreases x
    {
      TwiceHas(n, x, p, o);
      if o.probPrime(p) {
        var z := DecomposePrime(p, o);
        if z.ok {
          TwiceFound(n, x, p, z, o);
          return Triple(x, z.a + z.b, Abs(z.a - z.b));
        }
      }
      TwiceNext(n, x, p, o);
      x := x - 2;
      if x < 0 { return NoTriple; }
      p := p + 2 * (x + 1);
    }
  }

  lemma TwiceStart(n: nat, x: int, rest: int, o: Oracles)
    requires n % 8 == 3 && x % 2 == 1 && Leaves(n, x, rest) && n < (x + 2) * (x + 2)
    ensures TwiceState(n, x, rest / 2, o)
  {
    hide NoHitFrom;
    TwicePrimeLeft(n, x, rest);
    NothingAbove(n, x, o);
  }

  lemma TwiceHas(n: nat, x: int, p: int, o: Oracles)
    requires TwiceState(n, x, p, o)
    ensures 0 <= x && 0 < p && p != 2
  {
  }

  lemma TwiceFound(n: nat, x: int, p: int, z: Pair, o: Oracles)
    requires TwiceState(n, x, p, o) && n % 8 == 3 && o.probPrime(p) && GoodRoot(p, o) && IsPair(p, z) && z.ok
    ensures Searched(n, Triple(x, z.a + z.b, Abs(z.a - z.b)), o)
  {
    hide Hit, NoHitFrom, GoodRoot;
    FoundTwicePrime(n, x, p, z);
    IsHit(n, x, 2 * p, o);
  }

  lemma TwiceNext(n: nat, x: int, p: int, o: Oracles)
    requires TwiceState(n, x, p, o) && n % 8 == 3 && !(o.probPrime(p) && GoodRoot(p, o))
    ensures if x < 2 then Searched(n, NoTriple, o) else TwiceState(n, x - 2, p + 2 * (x - 1), o)
  {
    hide Hit, NoHitFrom, GoodRoot;
    IsHit(n, x, 2 * p, o);
    NoneBetween(n, x, o);
    if x >= 2 {
      TwoBelow(n, x, 2 * p);
      StillOneModFour(p, x - 2);
    }
  }

  /** Case n = 1 or 2 mod 4: search for n = x^2 + p with p = 1 mod 4 accepted. */
  method SearchPrime(n: nat, s: int, r: int, o: Oracles) returns (t: Triple)
    requires IUnitOk(o) && (n % 4 == 1 || n % 4 == 2)
    requires 0 < s && Leaves(n, s, r) && Leaves(n, s - 1, r + 2 * s - 1) && n < (s + 1) * (s + 1)
    ensures Searched(n, t, o)
  {
    hide *;
    OtherParity(n, s);
    if (n - s) % 2 == 1 {
      SquareAboveRoot(s, n);
      t := PrimeLoop(n, s, r, o);
    } else {
      t := PrimeLoop(n, s - 1, r + 2 * s - 1, o);
    }
  }

  ghost predicate PrimeState(n: nat, x: int, p: int, o: Oracles) {
    0 <= x && x % 2 == (n + 1) % 2 && 0 < p && p % 4 == 1 && Leaves(n, x, p) && NoHitFrom(n, x + 1, o)
  }

  method PrimeLoop(n: nat, x0: int, rest: int, o: Oracles) returns (t: Triple)
    requires IUnitOk(o) && (n % 4 == 1 || n % 4 == 2)
    requires x0 % 2 == (n + 1) % 2 && Leaves(n, x0, rest) && n < (x0 + 2) * (x0 + 2)
    ensures Searched(n, t, o)
  {
    hide *;
    PrimeStart(n, x0, rest, o);
    var x, p := x0, rest;
    while true
      invariant PrimeState(n, x, p, o)
      decreases x
    {
      PrimeHas(n, x, p, o);
      if o.probPrime(p) {
        var z := DecomposePrime(p, o);
        if z.ok {
          PrimeFound(n, x, p, z, o);
          return Triple(x, z.a, z.b);
        }
      }
      PrimeNext(n, x, p, o);
      x := x - 2;
      if x < 0 { return NoTriple; }
      p := p + 4 * (x + 1);
    }
  }

  lemma PrimeStart(n: nat, x: int, rest: int, o: Oracles)
    requires (n % 4 == 1 || n % 4 == 2) && x % 2 == (n + 1) % 2 && Leaves(n, x, rest) && n < (x + 2) * (x + 2)
    ensures PrimeState(n, x, rest, o)
  {
    hide NoHitFrom;
    PrimeLeft(n, x, rest);
    NothingAbove(n, x, o);
  }

  lemma PrimeHas(n: nat, x: int, p: int, o: Oracles)
    requires PrimeState(n, x, p, o)
    ensures 0 <= x && 0 < p && p != 2
  {
  }

  lemma PrimeFound(n: nat, x: int, p: int, z: Pair, o: Oracles)
    requires PrimeState(n, x, p, o) && (n % 4 == 1 || n % 4 == 2)
    requires o.probPrime(p) && GoodRoot(p, o) && IsPair(p, z) && z.ok
    ensures Searched(n, Triple(x, z.a, z.b), o)
  {
    hide Hit, NoHitFrom, GoodRoot;
    FoundPrime(n, x, p, z);
    IsHit(n, x, p, o);
  }

  lemma PrimeNext(n: nat, x: int, p: int, o: Oracles)
    requires PrimeState(n, x, p, o) && (n % 4 == 1 || n % 4 == 2) && !(o.probPrime(p) && GoodRoot(p, o))
    ensures if x < 2 then Searched(n, NoTriple, o) else PrimeState(n, x - 2, p + 4 * (x - 1), o)
  {
    hide Hit, NoHitFrom, GoodRoot;
    IsHit(n, x, p, o);
    NoneBetween(n, x, o);
    if x >= 2 {
      TwoBelow(n, x, p);
      StillOneModFour(p, x - 1);
    }
  }

  lemma SumAndDifference(a: int, b: int)
    ensures (a + b) * (a + b) + (a - b) * (a - b) == 2 * (a * a + b * b)
    ensures (a - b) * (a - b) == -(a - b) * -(a - b)
  {
  }

  /** When three squares are found. */
  ghost predicate ThreeFound(n: nat, o: Oracles) {
    n in SPECIAL || exists x: nat :: Hit(n, x, o)
  }

  /** A three-square search with the branch on n mod 4 and the table before it. */
  method ThreeSquares(n: nat, sq: Root, o: Oracles) returns (t: Triple)
    requires IUnitOk(o) && n % 4 != 0 && n % 8 != 7
    requires IsFloorSqrt(sq.s, n) && sq.s * sq.s + sq.r == n
    ensures IsTriple(n, t) && (t.Triple? <==> ThreeFound(n, o))
    ensures n !in SPECIAL ==> Searched(n, t, o)
  {
    CaseBits(n);
    RootLeaves(sq, n);
    if SpecialCase(n).Triple? {
      t := SpecialCase(n);
    } else if Bit(n, 0) == 1 && Bit(n, 1) == 1 {
      t := SearchTwicePrime(n, sq.s, sq.r, o);
    } else {
      t := SearchPrime(n, sq.s, sq.r, o);
    }
  }

  /** Case n = 7 mod 8: the square to subtract first, and what is left. */
  method SubtractSquare(n: nat, sq: Root) returns (delta: nat, rest: nat)
    requires n % 8 == 7 && IsqrtMeets(n) && sq == Isqrt(n)
    ensures Leaves(n, delta, rest) && rest % 4 != 0 && rest % 8 != 7
    ensures rest == RestArg(n)
  {
    hide Isqrt;
    RootLeaves(sq, n);
    LowTwoBits(sq.s);
    if Bit(sq.s, 0) == 1 || Bit(sq.s, 1) == 1 {
      SevenLeft(n, sq.s, sq.r);
      return sq.s, sq.r;
    }
    SevenLeft(n, sq.s - 1, sq.r + 2 * sq.s - 1);
    return sq.s - 1, sq.r + 2 * sq.s - 1;
  }

  lemma Scaled4(v: int, m: int, a: int, b: int, c: int, d: int)
    requires a * a + b * b + c * c + d * d == m
    ensures (v * a) * (v * a) + (v * b) * (v * b) + (v * c) * (v * c) + (v * d) * (v * d) == m * (v * v)
  {
    ScaledSquare(a, v);
    ScaledSquare(b, v);
    ScaledSquare(c, v);
    ScaledSquare(d, v);
    assert (a * a + b * b + c * c + d * d) * (v * v)
        == a * a * (v * v) + b * b * (v * v) + c * c * (v * v) + d * d * (v * v);
  }

  /** Scales a decomposition of m to one of m * v^2. */
  function Scale(m: int, v: nat, a: int, b: int, c: int, d: int): (r: Four)
    requires 0 <= a && 0 <= b && 0 <= c && 0 <= d
    requires a * a + b * b + c * c + d * d == m
    ensures IsDecomposition(m * (v * v), r)
  {
    Scaled4(v, m, a, b, c, d);
    MulNonNeg(v, a);
    MulNonNeg(v, b);
    MulNonNeg(v, c);
    MulNonNeg(v, d);
    Four(v * a, v * b, v * c, v * d, true)
  }

  lemma LeavesBelow(m: nat, x: nat, rest: int)
    requires Leaves(m, x, rest)
    ensures 0 <= rest <= m
  {
    MulNonNeg(x, x);
  }

  /** The number that isqrt is asked next when m is 7 mod 8: m without the largest
      square of a number that is not 0 mod 4. */
  ghost function RestArg(m: nat): (rest: nat)
    requires m % 8 == 7 && IsqrtMeets(m)
    ensures rest <= m && rest % 8 != 7
  {
    var sq := Isqrt(m);
    RestFits(m, sq);
    if sq.s % 4 != 0 then sq.r else sq.r + 2 * sq.s - 1
  }

  lemma RestFits(m: nat, sq: Root)
    requires m % 8 == 7 && IsFloorSqrt(sq.s, m) && sq.s * sq.s + sq.r == m
    ensures var rest := if sq.s % 4 != 0 then sq.r else sq.r + 2 * sq.s - 1;
      0 <= rest <= m && rest % 8 != 7
  {
    RootLeaves(sq, m);
    if sq.s % 4 != 0 {
      SevenLeft(m, sq.s, sq.r);
      LeavesBelow(m, sq.s, sq.r);
    } else {
      SevenLeft(m, sq.s - 1, sq.r + 2 * sq.s - 1);
      LeavesBelow(m, sq.s - 1, sq.r + 2 * sq.s - 1);
    }
  }

  /** isqrt meets its postcondition on the one or two numbers that it is asked for m. */
  ghost predicate RootsMeet(m: nat) {
    IsqrtMeets(m) && (m % 8 == 7 ==> IsqrtMeets(RestArg(m)))
  }

  /** So it does for every n up to 2^1024. */
  lemma RootsMeetBelow(n: nat)
    requires n <= IterBetter()
    ensures RootsMeet(ReducedArg(n))
  {
    hide IsqrtMeets, IterBetter;
    var m := ReducedArg(n);
    IsqrtExact(m);
    if m % 8 == 7 { IsqrtExact(RestArg(m)); }
  }

  ghost predicate IsSquare(m: nat) {
    exists s: nat :: s * s == m
  }

  lemma SquareWithoutRest(m: nat, x: Root)
    requires IsFloorSqrt(x.s, m) && x.s * x.s + x.r == m
    ensures x.r == 0 <==> IsSquare(m)
  {
    if IsSquare(m) {
      var s: nat :| s * s == m;
      FloorSqrtUnique(s, x.s, m);
    }
    if x.r == 0 { assert x.s * x.s == m; }
  }

  /** The number that is left for three squares. */
  ghost function ThreeArg(m: nat): nat
    requires RootsMeet(m)
  {
    if m % 8 == 7 then RestArg(m) else m
  }

  /** When a number that is not 0 mod 4 is decomposed. */
  ghost predicate ReducedFound(m: nat, o: Oracles)
    requires RootsMeet(m)
  {
    || IsSquare(m)
    || (m % 4 == 1 && o.isProbablePrime(m) && GoodRoot(m, o))
    || ThreeFound(ThreeArg(m), o)
  }

  /** The part of _decompose after the division by 4^k: m is not 0 mod 4. */
  method DecomposeReduced(m: nat, v: nat, o: Oracles) returns (r: Four)
    requires IUnitOk(o) && RootsMeet(m) && 0 < m && m % 4 != 0
    ensures IsDecomposition(m * (v * v), r) && (r.ok <==> ReducedFound(m, o))
  {
    hide Isqrt, SqrRoot, Shr, RestArg, IsSquare, ThreeFound, GoodRoot, ThreeArg;
    var sq := ISqrt(m);
    assert IsqrtMeets(m);
    SquareWithoutRest(m, sq);
    LowTwoBits(m);
    // Case 1: a perfect square
    if sq.r == 0 {
      r := Scale(m, v, 0, 0, 0, sq.s);
      return;
    }
    // Case 2: a prime that is 1 mod 4
    if Bit(m, 0) == 1 && Bit(m, 1) == 0 && o.isProbablePrime(m) {
      var z := DecomposePrime(m, o);
      if z.ok {
        r := Scale(m, v, 0, 0, z.a, z.b);
        return;
      }
    }
    r := DecomposeRest(m, v, sq, o);
  }

  /** The remaining cases: up to one square first, then three more. */
  method DecomposeRest(m: nat, v: nat, sq0: Root, o: Oracles) returns (r: Four)
    requires IUnitOk(o) && RootsMeet(m) && 0 < m && m % 4 != 0 && sq0 == Isqrt(m)
    ensures IsDecomposition(m * (v * v), r) && (r.ok <==> ThreeFound(ThreeArg(m), o))
  {
    hide Isqrt, RestArg, ThreeFound;
    var delta, n, sq := 0, m, sq0;
    if Bit(m, 0) == 1 && Bit(m, 1) == 1 && Bit(m, 2) == 1 {
      SevenByBits(m);
      delta, n := SubtractSquare(m, sq);
      sq := ISqrt(n);
      assert IsqrtMeets(n);
    } else {
      NotSevenByBits(m);
    }
    var t := ThreeSquares(n, sq, o);
    if t.NoTriple? { return Four(0, 0, 0, 0, false); }
    AddSquare(m, delta, n, t);
    r := Scale(m, v, delta, t.x, t.y, t.z);
  }

  lemma SevenByBits(m: nat)
    requires Bit(m, 0) == 1 && Bit(m, 1) == 1 && Bit(m, 2) == 1
    ensures m % 8 == 7
  {
    LowThreeBits(m);
  }

  lemma NotSevenByBits(m: nat)
    requires !(Bit(m, 0) == 1 && Bit(m, 1) == 1 && Bit(m, 2) == 1)
    ensures m % 8 != 7
  {
    LowThreeBits(m);
  }

  lemma AddSquare(m: nat, delta: nat, n: nat, t: Triple)
    requires t.Triple? && IsTriple(n, t) && ((delta == 0 && n == m) || Leaves(m, delta, n))
    ensures 0 <= t.x && 0 <= t.y && 0 <= t.z
    ensures delta * delta + t.x * t.x + t.y * t.y + t.z * t.z == m
  {
  }

  ghost predicate Found(n: nat, o: Oracles)
    requires RootsMeet(ReducedArg(n))
  {
    n <= 1 || ReducedFound(ReducedArg(n), o)
  }

  lemma FoundIs(n: nat, o: Oracles)
    requires RootsMeet(ReducedArg(n))
    ensures Found(n, o) <==> n <= 1 || ReducedFound(ReducedArg(n), o)
  {
    hide ReducedFound, RootsMeet, ReducedArg;
  }

  lemma SmallDecomposition(n: nat)
    requires n <= 1
    ensures IsDecomposition(n, Four(0, 0, 0, n, true))
  {
  }

  /** _decompose: on success, four squares that add up to n. It succeeds exactly when n
      is below 2, or without its factors of four is a square, an accepted number, or a
      number with an accepted one left by some square. */
  method Decompose(n: nat, o: Oracles) returns (r: Four)
    requires IUnitOk(o) && RootsMeet(ReducedArg(n))
    ensures IsDecomposition(n, r) && (r.ok <==> Found(n, o))
    ensures n <= 1 ==> r == Four(0, 0, 0, n, true)
  {
    hide *;
    FoundIs(n, o);
    if n <= 1 {
      SmallDecomposition(n);
      return Four(0, 0, 0, n, true);
    }
    var i := GetLowestSetBit(n);
    var k := i / 2;
    PowerOfFour(n, i, k);
    r := DecomposeReduced(Shr(n, 2 * k), Pow2(k), o);
  }

  /** decompose with its cache of earlier results. */
  class FourSquares {
    var decompCache: map<nat, Four>

    ghost predicate Valid()
      reads this
    {
      forall n :: n in decompCache ==> IsDecomposition(n, decompCache[n])
    }

    constructor ()
      ensures Valid() && decompCache == map[]
    {
      decompCache := map[];
    }

    /** The oracles are asked at most once for each number; whatever they answer
        later, the first result is returned again. */
    method CachedDecompose(n: nat, o: Oracles) returns (r: Four)
      requires Valid() && IUnitOk(o) && (n !in decompCache ==> RootsMeet(ReducedArg(n)))
      modifies this
      ensures Valid() && IsDecomposition(n, r)
      ensures n in old(decompCache) ==> r == old(decompCache)[n]
      ensures n !in old(decompCache) ==> (r.ok <==> Found(n, o))
      ensures decompCache == old(decompCache)[n := r]
    {
      if n !in decompCache {
        var d := Decompose(n, o);
        decompCache := decompCache[n := d];
      }
      r := decompCache[n];
    }
  }
}
