/** The Euclidean descent of FourSquares::decomposePrime: from a square root
    of -1 modulo p it reaches two squares that add up to p. Nothing here needs
    p to be prime. */
module TwoSquares {
  import opened Arithmetic

  /** What the descent keeps about two consecutive remainders a > b. With
      root^2 + 1 = k*p: a and b are the combinations -u*root + ta*p and
      v*root + tb*p; u and v have alternating signs, and their sizes satisfy
      |v|*a + |u|*b = p. `s` is the sign of v. */
  ghost predicate Descent(p: int, root: int, k: int, a: int, b: int,
                          u: int, v: int, s: int, ta: int, tb: int)
  {
    && root * root + 1 == k * p
    && (s == 1 || s == -1)
    && 0 < b < a && 0 <= s * u && 1 <= s * v
    && s * v * a + s * u * b == p
    && p < a * a
    && a == -u * root + ta * p
    && b == v * root + tb * p
  }

  lemma DescentStart(p: int, root: int) returns (k: int)
    requires 1 < p && 0 < root < p && (root * root + 1) % p == 0
    ensures Descent(p, root, k, p, root, 0, 1, 1, 1, 0)
  {
    k := CongElim(root * root + 1, 0, p);
    MulPos(p, p - 1);
  }

  // Polynomial identities used below.

  lemma StepIdentity(u: int, v: int, root: int, ta: int, tb: int, p: int, q: int)
    ensures -u * root + ta * p - q * (v * root + tb * p) == -(u + q * v) * root + (ta - q * tb) * p
  {
  }

  lemma SizeIdentity(u: int, v: int, q: int, b: int, t: int)
    ensures (u + q * v) * b + v * t == v * (q * b + t) + u * b
  {
  }

  lemma RootIdentity(w: int, root: int, t: int, p: int)
    ensures (w * root + t * p) * root + w == w * (root * root + 1) + t * root * p
  {
  }

  lemma SquareIdentity(v: int, root: int, t: int, p: int)
    ensures (v * root + t * p) * (v * root + t * p) + v * v
         == v * v * (root * root + 1) + p * (v * (root * t) + t * (v * root + t * p))
  {
  }

  /** One division step. The remainder cannot be 0 while b*b > p. */
  lemma DescentStep(p: int, root: int, k: int, a: int, b: int,
                    u: int, v: int, s: int, ta: int, tb: int)
    requires Descent(p, root, k, a, b, u, v, s, ta, tb) && 1 < p < b * b
    ensures Descent(p, root, k, b, a % b, -v, -(u + a / b * v), -s, tb, ta - a / b * tb)
  {
    var q, t := a / b, a % b;
    var w, tt := u + q * v, ta - q * tb;
    QuotientPositive(a, b);
    StepIdentity(u, v, root, ta, tb, p, q);
    assert t == -w * root + tt * p;
    SizeStep(u, v, s, q, a, b, t, p);
    if t == 0 {
      NoZeroRemainder(p, root, k, b, w, s, tt);
    }
  }

  lemma QuotientPositive(a: int, b: int)
    requires 0 < b < a
    ensures 1 <= a / b && a == a / b * b + a % b && 0 <= a % b < b
  {
    if a / b <= 0 { MulMono(a / b, 0, b); }
  }

  lemma SizeStep(u: int, v: int, s: int, q: int, a: int, b: int, t: int, p: int)
    requires (s == 1 || s == -1) && 0 <= s * u && 1 <= s * v && 1 <= q
    requires a == q * b + t && s * v * a + s * u * b == p
    ensures 1 <= s * (u + q * v) && s * (u + q * v) * b + s * v * t == p
  {
    SizeIdentity(u, v, q, b, t);
    if s == 1 { MulPos(q, v); } else { MulPos(q, -v); assert q * -v == -(q * v); }
  }

  lemma NoZeroRemainder(p: int, root: int, k: int, b: int, w: int, s: int, t: int)
    requires root * root + 1 == k * p && (s == 1 || s == -1) && 1 <= s * w && 1 < p && 0 < b
    requires s * w * b == p && 0 == -w * root + t * p
    ensures b * b <= p
  {
    // multiplying the combination by root shows that p divides w
    RootIdentity(-w, root, t, p);
    var m := s * (w * k - t * root);
    assert (-w * root + t * p) * root == 0;
    assert s * w == m * p by { DividesSize(p, root, k, w, s, t); }
    if m <= 0 { MulMono(m, 0, p); }
    MulMono(1, m, p);
    if b >= 2 { MulMono(2, b, s * w); }
  }

  lemma DividesSize(p: int, root: int, k: int, w: int, s: int, t: int)
    requires root * root + 1 == k * p && -w * (root * root + 1) + t * root * p == -w
    ensures s * w == s * (w * k - t * root) * p
  {
    assert w == w * (k * p) - t * root * p;
    assert w * (k * p) == w * k * p;
    assert (w * k - t * root) * p == w;
  }

  /** The first remainder not above sqrt(p) and the next one are the answer,
      for every p but 2. */
  lemma DescentEnd(p: int, root: int, k: int, a: int, b: int,
                   u: int, v: int, s: int, ta: int, tb: int)
    requires Descent(p, root, k, a, b, u, v, s, ta, tb) && 2 < p && b * b <= p
    ensures a % b == s * v && (s * v) * (s * v) + b * b == p
  {
    SumIdentity(p, root, k, b, v, tb);
    var x := v * k + root * tb;
    if s == 1 {
      PositiveEnd(p, a, b, u, v, x, tb);
    } else {
      NegateBoth(v, x);
      NegateBoth(v, v);
      PositiveEnd(p, a, b, -u, -v, -x, tb);
    }
  }

  /** For p = 2 the descent ends with 0 and 1. */
  lemma DescentResult(p: int, root: int, k: int, a: int, b: int,
                      u: int, v: int, s: int, ta: int, tb: int)
    requires Descent(p, root, k, a, b, u, v, s, ta, tb) && 1 < p && b * b <= p
    ensures 0 <= a % b < b && ((a % b) * (a % b) + b * b == p <==> p != 2)
  {
    if p == 2 {
      if b >= 2 { SquareMono(2, b); }
      DivModUnique(a, 1, a, 0);
    } else {
      DescentEnd(p, root, k, a, b, u, v, s, ta, tb);
    }
  }

  lemma NegateBoth(a: int, b: int)
    ensures -a * -b == a * b
  {
  }

  lemma PositiveEnd(p: int, a: int, b: int, u: int, v: int, x: int, y: int)
    requires 2 < p < a * a && 0 < b < a && b * b <= p && 0 <= u && 1 <= v
    requires v * a + u * b == p
    requires b * b + v * v == p * (v * x + y * b)
    ensures a % b == v && v * v + b * b == p
  {
    MulNonNeg(u, b);
    SmallerRemainder(p, a, b, u, v);
    OneCofactor(p, b, v, v * x + y * b);
    Remainder(p, a, b, u, v, x, y);
  }

  lemma SmallerRemainder(p: int, a: int, b: int, u: int, v: int)
    requires p < a * a && 0 < a && 0 < b && 0 <= u && 1 <= v && 0 <= u * b && v * a + u * b == p
    ensures v < a && v * v < p
  {
    Bounded(p, a, v);
  }

  lemma OneCofactor(p: int, b: int, v: int, one: int)
    requires 0 < b && 1 <= v && b * b <= p && v * v < p && b * b + v * v == p * one
    ensures one == 1
  {
    MulPos(b, b);
    MulPos(v, v);
    OnlyMultiple(p, b * b + v * v, one);
  }

  lemma SumIdentity(p: int, root: int, k: int, b: int, v: int, tb: int)
    requires root * root + 1 == k * p && b == v * root + tb * p
    ensures b * b + v * v == p * (v * (v * k + root * tb) + tb * b)
  {
    SquareIdentity(v, root, tb, p);
    assert v * v * (k * p) == p * (v * (v * k));
    Distribute(p, v * (v * k), v * (root * tb) + tb * b);
    Distribute(v, v * k, root * tb);
  }

  lemma Distribute(a: int, b: int, c: int)
    ensures a * (b + c) == a * b + a * c
  {
  }

  /** v is below a, so v*v is below p. */
  lemma Bounded(p: int, a: int, v: int)
    requires 0 < a && 1 <= v && v * a <= p < a * a
    ensures v < a && v * v < p
  {
    if v >= a { MulMono(a, v, a); }
    MulPos(v, a - v);
    Distribute(v, a, -v);
  }

  /** The sum of the two squares is a positive multiple of p below 2p. */
  lemma OnlyMultiple(p: int, sum: int, one: int)
    requires 0 < sum < 2 * p && sum == p * one
    ensures one == 1
  {
    if one <= 0 { MulMono(one, 0, p); } else if one >= 2 { MulMono(2, one, p); }
  }

  /** With v and b coprime, v*(a - v) = b*(b - u) makes b divide a - v. */
  lemma Remainder(p: int, a: int, b: int, u: int, v: int, x: int, y: int)
    requires 2 < p && 0 < b && 1 <= v < a && 0 <= u
    requires v * a + u * b == p == b * b + v * v
    requires v * x + y * b == 1
    ensures a % b == v
  {
    var m := x * (b - u) + y * (a - v);
    assert v * (a - v) == b * (b - u) by { Distribute(v, a, -v); Distribute(b, b, -u); }
    assert a - v == b * m by { BezoutIdentity(v, x, y, b, a - v, b - u); }
    assert v * m == b - u by { Cancel(b, v * m, b - u); }
    if m <= 0 { MulMono(m, 0, b); }
    MulMono(1, m, v);
    if v == b { UnitDivisor(b, x + y); }
    DivModUnique(a, b, m, v);
  }

  lemma BezoutIdentity(v: int, x: int, y: int, b: int, d: int, e: int)
    requires v * d == b * e && v * x + y * b == 1
    ensures d == b * (x * e + y * d) && b * (v * (x * e + y * d)) == b * e
  {
    assert (v * x + y * b) * d == x * (v * d) + b * (y * d);
    assert b * (x * e + y * d) == x * (b * e) + b * (y * d);
    assert b * (v * (x * e + y * d)) == v * (b * (x * e + y * d));
  }

  lemma Cancel(b: int, c: int, d: int)
    requires 0 < b && b * c == b * d
    ensures c == d
  {
    if c < d { MulPos(b, d - c); Distribute(b, d, -c); }
    if c > d { MulPos(b, c - d); Distribute(b, c, -d); }
  }

  lemma UnitDivisor(b: int, c: int)
    requires 0 < b && b * c == 1
    ensures b == 1
  {
    if c <= 0 { MulMono(c, 0, b); }
    MulPos(b, c);
  }
}
