/** The modular arithmetic of the NTL layer, and products of powers: what every
    fast exponentiation in the library has to compute. */
module ModExp {
  import opened Arithmetic

  function MulMod(a: int, b: int, m: int): int
    requires 0 < m
  {
    a * b % m
  }

  /** The least c from `from` on with b*c = 1 modulo m, or 0 when there is none. */
  function InverseFrom(b: int, m: int, from: nat): (c: int)
    requires 1 < m && from <= m
    ensures c != 0 ==> from <= c < m && b * c % m == 1
    ensures c == 0 ==> forall d :: from <= d < m && d != 0 ==> b * d % m != 1
    decreases m - from
  {
    if from == m then 0
    else if from != 0 && b * from % m == 1 then from
    else InverseFrom(b, m, from + 1)
  }

  /** mpz_invert, with 0 for a number that has no inverse. */
  function InvMod(b: int, m: int): int
    requires 1 < m
  {
    InverseFrom(b, m, 0)
  }

  /** b can be raised to negative powers modulo m. */
  predicate Unit(b: int, m: int)
    requires 1 < m
  {
    InvMod(b, m) != 0
  }

  /** mpz_powm: a negative exponent means a power of the inverse. */
  function PowerMod(b: int, e: int, m: int): (r: int)
    requires 1 < m
    ensures 0 <= r < m
  {
    if 0 <= e then Pow(b, e) % m else Pow(InvMod(b, m), -e) % m
  }

  /** The product of bs[j]^es[j] as an integer. */
  function Plain(bs: seq<int>, es: seq<nat>): int
    requires |bs| == |es|
  {
    if |bs| == 0 then 1
    else Plain(bs[..|bs| - 1], es[..|bs| - 1]) * Pow(bs[|bs| - 1], es[|bs| - 1])
  }

  /** The product of bs[j]^es[j] modulo m, multiplied up from left to right. */
  function Product(bs: seq<int>, es: seq<int>, m: int): (r: int)
    requires |bs| == |es| && 1 < m
    ensures 0 <= r < m
  {
    if |bs| == 0 then 1
    else MulMod(Product(bs[..|bs| - 1], es[..|bs| - 1], m), PowerMod(bs[|bs| - 1], es[|bs| - 1], m), m)
  }

  /** For non-negative exponents the modular product is the plain one, reduced. */
  lemma {:induction false} ProductIsPlain(bs: seq<int>, es: seq<nat>, m: int)
    requires |bs| == |es| && 1 < m
    ensures Product(bs, es, m) == Plain(bs, es) % m
  {
    var n := |bs| - 1;
    if n < 0 {
      DivModUnique(1, m, 0, 1);
    } else {
      ProductIsPlain(bs[..n], es[..n], m);
      CongMod(Plain(bs[..n], es[..n]), m);
      CongMod(Pow(bs[n], es[n]), m);
      CongMul(Product(bs[..n], es[..n], m), Plain(bs[..n], es[..n]), PowerMod(bs[n], es[n], m), Pow(bs[n], es[n]), m);
    }
  }

  /** Multiplication modulo m respects congruence. */
  lemma MulModCong(a: int, b: int, c: int, d: int, m: int)
    requires 1 < m && Cong(a, c, m) && Cong(b, d, m)
    ensures MulMod(a, b, m) == c * d % m && Cong(MulMod(a, b, m), c * d, m)
  {
    CongMul(a, c, b, d, m);
    CongMod(a * b, m);
  }

  // ---------- laws of the plain product ----------

  ghost predicate IsSum(gs: seq<nat>, es: seq<nat>, fs: seq<nat>) {
    |gs| == |es| == |fs| && forall j :: 0 <= j < |gs| ==> gs[j] == es[j] + fs[j]
  }

  lemma {:induction false} PlainAdd(bs: seq<int>, gs: seq<nat>, es: seq<nat>, fs: seq<nat>)
    requires |bs| == |gs| && IsSum(gs, es, fs)
    ensures Plain(bs, gs) == Plain(bs, es) * Plain(bs, fs)
  {
    var n := |bs| - 1;
    if n >= 0 {
      PlainAdd(bs[..n], gs[..n], es[..n], fs[..n]);
      PowAdd(bs[n], es[n], fs[n]);
      MulSwap(Plain(bs[..n], es[..n]), Plain(bs[..n], fs[..n]), Pow(bs[n], es[n]), Pow(bs[n], fs[n]));
    }
  }

  /** Doubling every exponent squares the product. */
  lemma PlainDouble(bs: seq<int>, gs: seq<nat>, es: seq<nat>)
    requires |bs| == |gs| == |es| && forall j :: 0 <= j < |gs| ==> gs[j] == 2 * es[j]
    ensures Plain(bs, gs) == Plain(bs, es) * Plain(bs, es)
  {
    PlainAdd(bs, gs, es, es);
  }

  lemma {:induction false} PlainZero(bs: seq<int>, es: seq<nat>)
    requires |bs| == |es| && forall j :: 0 <= j < |es| ==> es[j] == 0
    ensures Plain(bs, es) == 1
  {
    if |bs| > 0 {
      PlainZero(bs[..|bs| - 1], es[..|bs| - 1]);
    }
  }

  /** Multiplying every exponent by c raises the product to the power c. */
  lemma {:induction false} PlainScale(bs: seq<int>, gs: seq<nat>, es: seq<nat>, c: nat)
    requires |bs| == |gs| == |es| && forall j :: 0 <= j < |gs| ==> gs[j] == es[j] * c
    ensures Plain(bs, gs) == Pow(Plain(bs, es), c)
  {
    var n := |bs| - 1;
    if n < 0 {
      PowOne(c);
    } else {
      PlainScale(bs[..n], gs[..n], es[..n], c);
      PowMulExp(bs[n], es[n], c);
      PowMulBase(Plain(bs[..n], es[..n]), Pow(bs[n], es[n]), c);
    }
  }

  // ---------- setting bits ----------

  /** Shifting out fewer bits than a multiple of 2^j has zeros. */
  lemma {:induction false} ShrPlusMultiple(x: nat, c: nat, j: nat, k: nat)
    requires k <= j
    ensures 0 <= c * Pow2(j) && 0 <= c * Pow2(j - k)
    ensures Shr(x + c * Pow2(j), k) == Shr(x, k) + c * Pow2(j - k)
  {
    MulNonNeg(c, Pow2(j));
    MulNonNeg(c, Pow2(j - k));
    if k > 0 {
      ShrPlusMultiple(x, c, j, k - 1);
      var y := c * Pow2(j - k);
      assert c * Pow2(j - k + 1) == 2 * y;
      assert (Shr(x, k - 1) + 2 * y) / 2 == Shr(x, k - 1) / 2 + y;
    }
  }

  /** `x | (1 << q)`. */
  function SetBit(x: nat, q: nat): nat {
    if Bit(x, q) == 1 then x else x + Pow2(q)
  }

  lemma SetBitBits(x: nat, q: nat, k: nat)
    ensures Bit(SetBit(x, q), k) == if k == q then 1 else Bit(x, k)
  {
    if Bit(x, q) == 0 {
      assert Pow2(q) == 1 * Pow2(q);
      ShrPlusMultiple(x, 1, q, if k < q then k else q);
      if k < q {
        assert Pow2(q - k) == 2 * Pow2(q - k - 1);
      } else if k > q {
        HigherBitsUnchanged(x, x + Pow2(q), q, k);
      }
    }
  }

  lemma {:induction false} HigherBitsUnchanged(x: nat, y: nat, q: nat, k: nat)
    requires q < k && Shr(y, q) == Shr(x, q) + 1 && Bit(x, q) == 0
    ensures Shr(y, k) == Shr(x, k)
  {
    if k > q + 1 { HigherBitsUnchanged(x, y, q, k - 1); }
  }

  /** Setting a bit below position n keeps the number below 2^n. */
  lemma SetBitBound(x: nat, q: nat, n: nat)
    requires x < Pow2(n) && q < n
    ensures SetBit(x, q) < Pow2(n)
  {
    if Bit(x, q) == 0 {
      assert Pow2(q) == 1 * Pow2(q);
      ShrPlusMultiple(x, 1, q, q);
      ShrSmall(x, n);
      HigherBitsUnchanged(x, x + Pow2(q), q, n);
      ShrIsDiv(x + Pow2(q), n);
    }
  }

  /** Numbers with the same low k bits have the same remainder modulo 2^k. */
  lemma {:induction false} LowBitsEqual(x: nat, y: nat, k: nat)
    requires forall j :: 0 <= j < k ==> Bit(x, j) == Bit(y, j)
    ensures x - Shr(x, k) * Pow2(k) == y - Shr(y, k) * Pow2(k)
  {
    if k > 0 {
      LowBitsEqual(x, y, k - 1);
      LowBitsStep(x, k - 1);
      LowBitsStep(y, k - 1);
      assert Bit(x, k - 1) == Bit(y, k - 1);
    }
  }

  /** The low k+1 bits are the low k bits and bit k. */
  lemma LowBitsStep(x: nat, k: nat)
    ensures x - Shr(x, k + 1) * Pow2(k + 1) == x - Shr(x, k) * Pow2(k) + Bit(x, k) * Pow2(k)
  {
    ShrStep(x, k);
    assert (2 * Shr(x, k + 1) + Bit(x, k)) * Pow2(k) == Shr(x, k + 1) * (2 * Pow2(k)) + Bit(x, k) * Pow2(k);
  }

  lemma ProductOne(b: int, e: int, m: int)
    requires 1 < m
    ensures Product([b], [e], m) == PowerMod(b, e, m)
  {
    var p := PowerMod(b, e, m);
    assert [b][..0] == [] && [e][..0] == [];
    DivModUnique(p, m, 0, p);
  }
}
