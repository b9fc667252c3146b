/** The laws of integer exponents for invertible residues: what the proof system
    needs from a group. */
module Group {
  import opened Arithmetic
  import opened ModExp

  /** c is an inverse of b modulo m. */
  ghost predicate Inverse(b: int, c: int, m: int)
    requires 1 < m
  {
    Cong(b * c, 1, m)
  }

  lemma InverseExists(b: int, c: int, m: int)
    requires 1 < m && Inverse(b, c, m)
    ensures Unit(b, m)
  {
    DivModUnique(1, m, 0, 1);
    var d := c % m;
    CongMod(c, m);
    CongMul(b, b, d, c, m);
    if d == 0 { DivModUnique(0, m, 0, 0); }
  }

  lemma UnitInverse(b: int, m: int)
    requires 1 < m && Unit(b, m)
    ensures Inverse(b, InvMod(b, m), m)
  {
    DivModUnique(1, m, 0, 1);
  }

  lemma OneIsUnit(m: int)
    requires 1 < m
    ensures Unit(1, m)
  {
    InverseExists(1, 1, m);
  }

  lemma UnitProduct(a: int, b: int, m: int)
    requires 1 < m && Unit(a, m) && Unit(b, m)
    ensures Unit(a * b, m) && Unit(MulMod(a, b, m), m)
  {
    var c, d := InvMod(a, m), InvMod(b, m);
    UnitInverse(a, m);
    UnitInverse(b, m);
    CongMul(a * c, 1, b * d, 1, m);
    MulSwap(a, b, c, d);
    InverseExists(a * b, c * d, m);
    CongMod(a * b, m);
    UnitCong(a * b, MulMod(a, b, m), m);
  }

  lemma UnitCong(a: int, b: int, m: int)
    requires 1 < m && Unit(a, m) && Cong(a, b, m)
    ensures Unit(b, m)
  {
    UnitInverse(a, m);
    CongMul(a, b, InvMod(a, m), InvMod(a, m), m);
    InverseExists(b, InvMod(a, m), m);
  }

  lemma Cancel(a: int, x: int, y: int, m: int)
    requires 1 < m && Unit(a, m) && Cong(a * x, a * y, m)
    ensures Cong(x, y, m)
  {
    var c := InvMod(a, m);
    UnitInverse(a, m);
    CongMul(c, c, a * x, a * y, m);
    assert c * (a * x) == a * c * x && c * (a * y) == a * c * y;
    CongMul(a * c, 1, x, x, m);
    CongMul(a * c, 1, y, y, m);
  }

  // ---------- integer exponents ----------

  /** A power with exponent e, written with non-negative exponents of b and its
      inverse c only. */
  lemma PowerForm(b: int, c: int, e: int, n: nat, m: int)
    requires 1 < m && Unit(b, m) && c == InvMod(b, m) && 0 <= e + n
    ensures Cong(PowerMod(b, e, m), Pow(b, e + n) * Pow(c, n), m)
  {
    UnitInverse(b, m);
    if 0 <= e {
      PowAdd(b, e, n);
      Vanish(b, c, n, Pow(b, e), m);
      assert Pow(b, e) * (Pow(b, n) * Pow(c, n)) == Pow(b, e) * Pow(b, n) * Pow(c, n);
      CongMod(Pow(b, e), m);
    } else {
      PowAdd(c, -e, e + n);
      Vanish(b, c, e + n, Pow(c, -e), m);
      assert Pow(c, -e) * (Pow(b, e + n) * Pow(c, e + n)) == Pow(b, e + n) * (Pow(c, -e) * Pow(c, e + n));
      CongMod(Pow(c, -e), m);
    }
  }

  /** b^n * c^n = 1 when c is an inverse of b. */
  lemma Vanish(b: int, c: int, n: nat, x: int, m: int)
    requires 1 < m && Inverse(b, c, m)
    ensures Cong(x * (Pow(b, n) * Pow(c, n)), x, m)
  {
    PowMulBase(b, c, n);
    CongPow(b * c, 1, n, m);
    PowOne(n);
    CongMul(x, x, Pow(b, n) * Pow(c, n), 1, m);
  }

  lemma PowerAdd(b: int, e: int, f: int, m: int)
    requires 1 < m && Unit(b, m)
    ensures PowerMod(b, e + f, m) == MulMod(PowerMod(b, e, m), PowerMod(b, f, m), m)
  {
    var c := InvMod(b, m);
    var n, k := if e < 0 then -e else 0, if f < 0 then -f else 0;
    PowerForm(b, c, e, n, m);
    PowerForm(b, c, f, k, m);
    PowerForm(b, c, e + f, n + k, m);
    PowAdd(b, e + n, f + k);
    PowAdd(c, n, k);
    MulSwap(Pow(b, e + n), Pow(b, f + k), Pow(c, n), Pow(c, k));
    MulModCong(PowerMod(b, e, m), PowerMod(b, f, m), Pow(b, e + n) * Pow(c, n), Pow(b, f + k) * Pow(c, k), m);
    CongSmall(PowerMod(b, e + f, m), MulMod(PowerMod(b, e, m), PowerMod(b, f, m), m), m);
  }

  lemma PowerZero(b: int, m: int)
    requires 1 < m
    ensures PowerMod(b, 0, m) == 1
  {
    DivModUnique(1, m, 0, 1);
  }

  lemma PowerOne(b: int, m: int)
    requires 1 < m
    ensures PowerMod(b, 1, m) == b % m
  {
    assert Pow(b, 1) == b * Pow(b, 0) == b;
  }

  /** Powers of a unit are units: b^e * b^-e = 1. */
  lemma PowerUnit(b: int, e: int, m: int)
    requires 1 < m && Unit(b, m)
    ensures Cong(PowerMod(b, e, m) * PowerMod(b, -e, m), 1, m) && Unit(PowerMod(b, e, m), m)
  {
    PowerAdd(b, e, -e, m);
    PowerZero(b, m);
    CongMod(PowerMod(b, e, m) * PowerMod(b, -e, m), m);
    InverseExists(PowerMod(b, e, m), PowerMod(b, -e, m), m);
  }

  lemma {:induction false} PowerMulNat(b: int, e: int, f: nat, m: int)
    requires 1 < m && Unit(b, m)
    ensures PowerMod(PowerMod(b, e, m), f, m) == PowerMod(b, e * f, m)
  {
    var x := PowerMod(b, e, m);
    if f == 0 {
      PowerZero(b, m);
      PowerZero(x, m);
    } else {
      PowerMulNat(b, e, f - 1, m);
      PowerUnit(b, e, m);
      PowerAdd(x, f - 1, 1, m);
      PowerOne(x, m);
      DivModUnique(x, m, 0, x);
      assert e * f == e * (f - 1) + e;
      PowerAdd(b, e * (f - 1), e, m);
    }
  }

  lemma PowerMul(b: int, e: int, f: int, m: int)
    requires 1 < m && Unit(b, m)
    ensures PowerMod(PowerMod(b, e, m), f, m) == PowerMod(b, e * f, m)
  {
    if 0 <= f {
      PowerMulNat(b, e, f, m);
    } else {
      var x := PowerMod(b, e, m);
      PowerUnit(b, e, m);
      PowerMulNat(b, e, -f, m);
      assert e * -f == -(e * f);
      PowerUnit(x, -f, m);
      PowerUnit(b, -(e * f), m);
      Cancel(PowerMod(x, -f, m), PowerMod(x, f, m), PowerMod(b, e * f, m), m);
      CongSmall(PowerMod(x, f, m), PowerMod(b, e * f, m), m);
    }
  }

  lemma PowerCong(a: int, b: int, e: int, m: int)
    requires 1 < m && Unit(a, m) && Cong(a, b, m)
    ensures Unit(b, m) && PowerMod(a, e, m) == PowerMod(b, e, m)
  {
    UnitCong(a, b, m);
    if 0 <= e {
      CongPow(a, b, e, m);
    } else {
      var c, d := InvMod(a, m), InvMod(b, m);
      UnitInverse(a, m);
      UnitInverse(b, m);
      CongMul(a, b, d, d, m);
      Cancel(a, c, d, m);
      CongPow(c, d, -e, m);
    }
  }

  lemma PowerMulBase(a: int, b: int, e: int, m: int)
    requires 1 < m && Unit(a, m) && Unit(b, m)
    ensures Unit(MulMod(a, b, m), m)
    ensures PowerMod(MulMod(a, b, m), e, m) == MulMod(PowerMod(a, e, m), PowerMod(b, e, m), m)
  {
    UnitProduct(a, b, m);
    CongMod(a * b, m);
    PowerCong(a * b, MulMod(a, b, m), e, m);
    var c, d := InvMod(a, m), InvMod(b, m);
    var n := if e < 0 then -e else 0;
    PowerForm(a, c, e, n, m);
    PowerForm(b, d, e, n, m);
    var i := InvMod(a * b, m);
    PowerForm(a * b, i, e, n, m);
    InverseOfProduct(a, b, m);
    CongPow(i, c * d, n, m);
    CongMul(Pow(a * b, e + n), Pow(a * b, e + n), Pow(i, n), Pow(c * d, n), m);
    PowMulBase(a, b, e + n);
    PowMulBase(c, d, n);
    MulSwap(Pow(a, e + n), Pow(b, e + n), Pow(c, n), Pow(d, n));
    MulModCong(PowerMod(a, e, m), PowerMod(b, e, m), Pow(a, e + n) * Pow(c, n), Pow(b, e + n) * Pow(d, n), m);
    CongSmall(PowerMod(a * b, e, m), MulMod(PowerMod(a, e, m), PowerMod(b, e, m), m), m);
  }

  lemma InverseOfProduct(a: int, b: int, m: int)
    requires 1 < m && Unit(a, m) && Unit(b, m) && Unit(a * b, m)
    ensures Cong(InvMod(a * b, m), InvMod(a, m) * InvMod(b, m), m)
  {
    var c, d := InvMod(a, m), InvMod(b, m);
    UnitInverse(a, m);
    UnitInverse(b, m);
    UnitInverse(a * b, m);
    CongMul(a * c, 1, b * d, 1, m);
    MulSwap(a, b, c, d);
    Cancel(a * b, InvMod(a * b, m), c * d, m);
  }

  // ---------- products of powers ----------

  ghost predicate AllUnits(bs: seq<int>, m: int)
    requires 1 < m
  {
    forall i :: 0 <= i < |bs| ==> Unit(bs[i], m)
  }

  /** es + c * fs, exponent by exponent. */
  function Combine(es: seq<int>, c: int, fs: seq<int>): (gs: seq<int>)
    requires |es| == |fs|
    ensures |gs| == |es| && forall i :: 0 <= i < |gs| ==> gs[i] == es[i] + c * fs[i]
  {
    seq(|es|, i requires 0 <= i < |es| => es[i] + c * fs[i])
  }

  lemma {:induction false} ProductUnit(bs: seq<int>, es: seq<int>, m: int)
    requires 1 < m && |bs| == |es| && AllUnits(bs, m)
    ensures Unit(Product(bs, es, m), m)
  {
    var n := |bs| - 1;
    if n < 0 {
      OneIsUnit(m);
    } else {
      ProductUnit(bs[..n], es[..n], m);
      PowerUnit(bs[n], es[n], m);
      UnitProduct(Product(bs[..n], es[..n], m), PowerMod(bs[n], es[n], m), m);
    }
  }

  /** The product with exponents es + c*fs is the product for es times the c-th
      power of the product for fs. */
  lemma {:induction false} ProductCombine(bs: seq<int>, es: seq<int>, c: int, fs: seq<int>, m: int)
    requires 1 < m && |bs| == |es| == |fs| && AllUnits(bs, m)
    ensures Product(bs, Combine(es, c, fs), m) == MulMod(Product(bs, es, m), PowerMod(Product(bs, fs, m), c, m), m)
  {
    var n := |bs| - 1;
    if n < 0 {
      OnePower(c, m);
      DivModUnique(1, m, 0, 1);
    } else {
      var p, q := Product(bs[..n], es[..n], m), Product(bs[..n], fs[..n], m);
      var b, e, f := bs[n], es[n], fs[n];
      assert Combine(es, c, fs)[..n] == Combine(es[..n], c, fs[..n]);
      ProductCombine(bs[..n], es[..n], c, fs[..n], m);
      ProductUnit(bs[..n], fs[..n], m);
      PowerUnit(b, f, m);
      PowerMulBase(q, PowerMod(b, f, m), c, m);
      PowerMul(b, f, c, m);
      PowerAdd(b, e, c * f, m);
      assert f * c == c * f;
      Regroup(p, PowerMod(q, c, m), PowerMod(b, e, m), PowerMod(b, c * f, m), m);
    }
  }

  lemma OnePower(c: int, m: int)
    requires 1 < m
    ensures PowerMod(1, c, m) == 1
  {
    OneIsUnit(m);
    DivModUnique(1, m, 0, 1);
    PowerZero(1, m);
    PowerMul(1, 0, c, m);
  }

  /** (p*q) * (x*y) = (p*x) * (q*y) modulo m. */
  lemma Regroup(p: int, q: int, x: int, y: int, m: int)
    requires 1 < m
    ensures MulMod(MulMod(p, q, m), MulMod(x, y, m), m) == MulMod(MulMod(p, x, m), MulMod(q, y, m), m)
  {
    CongMod(p * q, m);
    CongMod(x * y, m);
    CongMod(p * x, m);
    CongMod(q * y, m);
    MulModCong(MulMod(p, q, m), MulMod(x, y, m), p * q, x * y, m);
    MulModCong(MulMod(p, x, m), MulMod(q, y, m), p * x, q * y, m);
    MulSwap(p, q, x, y);
  }
}
