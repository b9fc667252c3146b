/** Commitments g^a * h^b, and what equations between them say about exponents. */
module Pedersen {
  import opened Arithmetic
  import opened ModExp
  import opened Group

  predicate Bases(g: int, h: int, m: int)
  {
    1 < m && Unit(g, m) && Unit(h, m)
  }

  /** The commitment to a with randomness b. */
  function Com(g: int, h: int, a: int, b: int, m: int): (c: int)
    requires 1 < m
    ensures 0 <= c < m
  {
    Product([g, h], [a, b], m)
  }

  lemma ComIs(g: int, h: int, a: int, b: int, m: int)
    requires 1 < m
    ensures Com(g, h, a, b, m) == MulMod(PowerMod(g, a, m), PowerMod(h, b, m), m)
  {
    assert [g, h][..1] == [g] && [a, b][..1] == [a] && [g][..0] == [] && [a][..0] == [];
    assert Product([g], [a], m) == MulMod(1, PowerMod(g, a, m), m);
    DivModUnique(PowerMod(g, a, m), m, 0, PowerMod(g, a, m));
    hide PowerMod;
  }

  /** The order of the two factors does not matter. */
  lemma ComSwap(g: int, h: int, a: int, b: int, m: int)
    requires 1 < m
    ensures Com(g, h, a, b, m) == Com(h, g, b, a, m)
  {
    ComIs(g, h, a, b, m);
    ComIs(h, g, b, a, m);
    hide Com, PowerMod;
    MulCommute(PowerMod(g, a, m), PowerMod(h, b, m));
  }

  lemma UnitBases(g: int, h: int, a: int, b: int, m: int)
    requires Bases(g, h, m)
    ensures AllUnits([g, h], m) && Unit(Com(g, h, a, b, m), m)
  {
    ProductUnit([g, h], [a, b], m);
  }

  /** Commitments combine with their exponents. */
  lemma ComCombine(g: int, h: int, a: int, b: int, c: int, x: int, y: int, m: int)
    requires Bases(g, h, m)
    ensures Com(g, h, a + c * x, b + c * y, m)
         == MulMod(Com(g, h, a, b, m), PowerMod(Com(g, h, x, y, m), c, m), m)
  {
    UnitBases(g, h, a, b, m);
    assert Combine([a, b], c, [x, y]) == [a + c * x, b + c * y];
    hide Product, PowerMod, MulMod;
    ProductCombine([g, h], [a, b], c, [x, y], m);
  }

  lemma ComMul(g: int, h: int, a: int, b: int, x: int, y: int, m: int)
    requires Bases(g, h, m)
    ensures Com(g, h, a + x, b + y, m) == MulMod(Com(g, h, a, b, m), Com(g, h, x, y, m), m)
  {
    ComCombine(g, h, a, b, 1, x, y, m);
    PowerOne(Com(g, h, x, y, m), m);
    var c := Com(g, h, x, y, m);
    hide Product, Com, PowerMod, Bases;
    DivModUnique(c, m, 0, c);
  }

  /** X^e * h^f for a commitment X to a is a commitment to e*a. */
  lemma PowerOfCom(g: int, h: int, x: int, a: int, b: int, e: int, f: int, m: int)
    requires Bases(g, h, m) && Cong(x, Com(g, h, a, b, m), m)
    ensures Com(x, h, e, f, m) == Com(g, h, e * a, f + e * b, m)
  {
    UnitBases(g, h, a, b, m);
    ComCombine(g, h, 0, f, e, a, b, m);
    ComIs(x, h, e, f, m);
    ComIs(g, h, 0, f, m);
    PowerZero(g, m);
    hide Product, Com, Bases;
    UnitCong(Com(g, h, a, b, m), x, m);
    PowerCong(x, Com(g, h, a, b, m), e, m);
    OneTimes(PowerMod(h, f, m), m);
    MulCommute(PowerMod(x, e, m), PowerMod(h, f, m));
  }

  lemma OneTimes(p: int, m: int)
    requires 1 < m && 0 <= p < m
    ensures MulMod(1, p, m) == p && MulMod(p, 1, m) == p
  {
    DivModUnique(p, m, 0, p);
  }

  lemma MulCommute(a: int, b: int)
    ensures a * b == b * a
  {
  }

  /** Equal commitments with different openings give a relation between the bases. */
  lemma Relation(g: int, h: int, a: int, b: int, x: int, y: int, m: int)
    requires Bases(g, h, m) && Com(g, h, a, b, m) == Com(g, h, x, y, m)
    ensures Com(g, h, a - x, b - y, m) == 1
  {
    var c, d := Com(g, h, a - x, b - y, m), Com(g, h, x, y, m);
    ComMul(g, h, a - x, b - y, x, y, m);
    UnitBases(g, h, x, y, m);
    hide Product, Com, Bases;
    MulCommute(c, d);
    CongMod(d * c, m);
    DivModUnique(d, m, 0, d);
    Cancel(d, c, 1, m);
    DivModUnique(1, m, 0, 1);
    CongSmall(c, 1, m);
  }

  /** g^a * c^k for a commitment c to x is a commitment to a + k*x. */
  lemma ComOver(g: int, h: int, c: int, a: int, k: int, x: int, r: int, m: int)
    requires Bases(g, h, m) && Cong(c, Com(g, h, x, r, m), m)
    ensures Com(g, c, a, k, m) == Com(g, h, a + k * x, k * r, m)
  {
    UnitBases(g, h, x, r, m);
    ComCombine(g, h, a, 0, k, x, r, m);
    ComIs(g, c, a, k, m);
    ComIs(g, h, a, 0, m);
    PowerZero(h, m);
    hide Product, Com, Bases;
    UnitCong(Com(g, h, x, r, m), c, m);
    PowerCong(c, Com(g, h, x, r, m), k, m);
    OneTimes(PowerMod(g, a, m), m);
  }

  // ---------- products and squares ----------

  /** The description of a product, c = c_a^b * h^(r - b*r_a), holds of honest
      commitments to a and to a*b with randomness r_a and r. */
  lemma ProductHolds(g: int, h: int, ca: int, a: int, ra: int, b: int, r: int, m: int)
    requires Bases(g, h, m) && Cong(ca, Com(g, h, a, ra, m), m)
    ensures Com(ca, h, b, r - b * ra, m) == Com(g, h, a * b, r, m)
  {
    PowerOfCom(g, h, ca, a, ra, b, r - b * ra, m);
    MulCommute(a, b);
  }

  /** The descriptions of a square say that the commitment is one to d*d. */
  lemma SquareSays(g: int, h: int, base: int, square: int, d: int, rho: int, e: int, m: int)
    requires Bases(g, h, m) && Cong(base, Com(g, h, d, rho, m), m) && Cong(square, Com(base, h, d, e, m), m)
    ensures Cong(square, Com(g, h, d * d, e + d * rho, m), m)
  {
    PowerOfCom(g, h, base, d, rho, d, e, m);
  }

  /** The product that the verifier forms of some commitments, starting from 1. */
  function ProductOf(cs: seq<int>, m: int): (p: int)
    requires 1 < m
    ensures 0 <= p < m
  {
    if |cs| == 0 then 1 else MulMod(ProductOf(cs[..|cs| - 1], m), cs[|cs| - 1], m)
  }

  function Sum(xs: seq<int>): int {
    if |xs| == 0 then 0 else Sum(xs[..|xs| - 1]) + xs[|xs| - 1]
  }

  ghost predicate Commits(g: int, h: int, cs: seq<int>, xs: seq<int>, rs: seq<int>, m: int)
    requires 1 < m
  {
    |cs| == |xs| == |rs| && forall i :: 0 <= i < |cs| ==> Cong(cs[i], Com(g, h, xs[i], rs[i], m), m)
  }

  /** The product of commitments is a commitment to the sum. */
  lemma {:induction false} ProductOfComs(g: int, h: int, cs: seq<int>, xs: seq<int>, rs: seq<int>, m: int)
    requires Bases(g, h, m) && Commits(g, h, cs, xs, rs, m)
    ensures ProductOf(cs, m) == Com(g, h, Sum(xs), Sum(rs), m)
  {
    hide Product, Com, PowerMod, Unit;
    if |cs| == 0 {
      ComIs(g, h, 0, 0, m);
      PowerZero(g, m);
      PowerZero(h, m);
      OneTimes(1, m);
    } else {
      var n := |cs| - 1;
      ProductOfComs(g, h, cs[..n], xs[..n], rs[..n], m);
      ComMul(g, h, Sum(xs[..n]), Sum(rs[..n]), xs[n], rs[n], m);
      var p := Com(g, h, Sum(xs[..n]), Sum(rs[..n]), m);
      CongMul(p, p, cs[n], Com(g, h, xs[n], rs[n], m), m);
    }
  }

  // ---------- ranges ----------

  /** From the verifier's own commitment g^high * c^-1 opened to b: c is a commitment
      to high - b. */
  lemma RangeOpening(g: int, h: int, c: int, high: int, hiX: int, b: int, s: int, m: int)
    requires Bases(g, h, m) && 1 < m && Unit(c, m)
    requires hiX == Com(g, c, high, -1, m) && Cong(hiX, Com(g, h, b, s, m), m)
    ensures Cong(c, Com(g, h, high - b, -s, m), m)
  {
    ComMul(g, c, 0, 1, high, -1, m);
    ComIs(g, c, 0, 1, m);
    PowerZero(g, m);
    PowerOne(c, m);
    CongMod(c, m);
    OneTimes(c % m, m);
    ComMul(g, h, high - b, -s, b, s, m);
    ComIs(g, c, high, 0, m);
    ComIs(g, h, high, 0, m);
    PowerZero(c, m);
    PowerZero(h, m);
    UnitBases(g, h, b, s, m);
    var x, y := Com(g, h, high - b, -s, m), Com(g, h, b, s, m);
    hide Product, Com, Bases, PowerMod;
    CongSmall(hiX, y, m);
    MulCommute(c % m, y);
    MulCommute(x, y);
    Cancel(y, c % m, x, m);
  }

  /** By how much the product of the distances to the bounds differs from the sum of
      the squares: 0 for an honest witness. */
  function Excess(x: int, low: int, high: int, ds: seq<int>): int {
    (x - low) * (high - x) - Sum(Squares(ds))
  }

  /** The exponents of h in the squares' commitments. */
  function SquareRands(ds: seq<int>, rhos: seq<int>, es: seq<int>): (s: seq<int>)
    requires |ds| == |rhos| == |es|
    ensures |s| == |ds|
  {
    seq(|ds|, i requires 0 <= i < |ds| => es[i] + ds[i] * rhos[i])
  }

  /** The exponent of h that is left of the product's commitment without those of the
      squares. */
  function Blinding(b: int, s: int, e: int, ds: seq<int>, rhos: seq<int>, es: seq<int>): int
    requires |ds| == |rhos| == |es|
  {
    e + b * -s - Sum(SquareRands(ds, rhos, es))
  }

  /** Soundness of a range proof, on values. b, s open the commitment to high - x; e is
      the exponent of the product's description; ds, rhos and es those of the squares.
      Then c commits to x = high - b, and the witness itself gives the relation
      g^Excess * h^Blinding = 1: either Excess is 0, so x is in the range, or the two
      bases are related by exponents that can be computed from the witness. */
  lemma RangeSays(g: int, h: int, c: int, low: int, high: int, xLo: int, hiX: int, p: int,
                  b: int, s: int, e: int, bases: seq<int>, squares: seq<int>,
                  ds: seq<int>, rhos: seq<int>, es: seq<int>, m: int)
    requires Bases(g, h, m) && Unit(c, m)
    requires xLo == Com(g, c, -low, 1, m) && hiX == Com(g, c, high, -1, m)
    requires Cong(hiX, Com(g, h, b, s, m), m) && Cong(p, Com(xLo, h, b, e, m), m)
    requires |bases| == |squares| == |ds| == |rhos| == |es|
    requires forall i :: 0 <= i < |ds| ==>
      Cong(bases[i], Com(g, h, ds[i], rhos[i], m), m) && Cong(squares[i], Com(bases[i], h, ds[i], es[i], m), m)
    requires ProductOf(squares, m) == p
    ensures Cong(c, Com(g, h, high - b, -s, m), m)
    ensures Com(g, h, Excess(high - b, low, high, ds), Blinding(b, s, e, ds, rhos, es), m) == 1
    ensures Excess(high - b, low, high, ds) == 0 ==> low <= high - b <= high || high <= high - b <= low
  {
    var x := high - b;
    hide Product, Com, Bases, PowerMod;
    RangeOpening(g, h, c, high, hiX, b, s, m);
    ComOver(g, h, c, -low, 1, x, -s, m);
    ReflCong(xLo, m);
    PowerOfCom(g, h, xLo, x - low, -s, b, e, m);
    var rs := SquareRands(ds, rhos, es);
    forall i | 0 <= i < |ds| ensures Cong(squares[i], Com(g, h, Squares(ds)[i], rs[i], m), m) {
      SquareSays(g, h, bases[i], squares[i], ds[i], rhos[i], es[i], m);
    }
    ProductOfComs(g, h, squares, Squares(ds), rs, m);
    var q := Com(g, h, b * (x - low), e + b * -s, m);
    CongSmall(p, q, m);
    Relation(g, h, b * (x - low), e + b * -s, Sum(Squares(ds)), Sum(rs), m);
    MulCommute(b, x - low);
    SquaresNonNegative(ds);
    if Excess(x, low, high, ds) == 0 { Between(x, low, high); }
  }

  function Squares(ds: seq<int>): (s: seq<int>)
    ensures |s| == |ds|
  {
    seq(|ds|, i requires 0 <= i < |ds| => ds[i] * ds[i])
  }

  lemma ReflCong(a: int, m: int)
    requires 0 < m
    ensures Cong(a, a, m)
  {
  }

  lemma {:induction false} SquaresNonNegative(ds: seq<int>)
    ensures 0 <= Sum(Squares(ds))
  {
    if |ds| > 0 {
      var n := |ds| - 1;
      SquaresNonNegative(ds[..n]);
      assert Squares(ds)[..n] == Squares(ds[..n]);
      NonNegative(ds[n]);
    }
  }

  lemma NonNegative(d: int)
    ensures 0 <= d * d
  {
  }

  lemma Between(x: int, low: int, high: int)
    requires 0 <= (x - low) * (high - x)
    ensures low <= x <= high || high <= x <= low
  {
    if x < low && x < high { Negative(low - x, high - x); }
    if x > high && x > low { Negative(x - low, x - high); }
  }

  lemma Negative(a: int, b: int)
    requires 0 < a && 0 < b
    ensures 0 < a * b && -a * b == -(a * b) && a * -b == -(a * b)
  {
  }
}
