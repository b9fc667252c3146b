/** MultiExp: products of up to four powers by simultaneous exponentiation with
    cached tables of subset products, and the plain loop for everything else. */
module MultiExp {
  import opened Arithmetic
  import opened ModExp

  /** A value, the exception about sizes, or a failed assertion. */
  datatype Result<+T> = Ok(value: T) | SizeError | AssertionFails

  /** The lowest n bits of s as exponents 0 and 1. */
  function BitsOf(s: nat, n: nat): (es: seq<nat>)
    ensures |es| == n && forall j :: 0 <= j < n ==> es[j] == Bit(s, j)
  {
    seq(n, j requires 0 <= j => Bit(s, j))
  }

  /** Entry s of a table is the product of the bases whose bit is set in s. */
  ghost predicate IsEntry(g: int, bs: seq<int>, s: nat, m: int)
    requires 1 < m
  {
    Cong(g, Plain(bs, BitsOf(s, |bs|)), m)
  }

  ghost predicate IsTable(G: seq<int>, bs: seq<int>, m: int)
    requires 1 < m
  {
    |G| == Pow2(|bs|) && forall s :: 0 <= s < |G| ==> IsEntry(G[s], bs, s, m)
  }

  function UnitVector(n: nat, j: nat): (es: seq<nat>)
    ensures |es| == n && forall i :: 0 <= i < n ==> es[i] == if i == j then 1 else 0
  {
    seq(n, i => if i == j then 1 else 0)
  }

  lemma {:induction false} PlainUnit(bs: seq<int>, j: nat)
    requires j < |bs|
    ensures Plain(bs, UnitVector(|bs|, j)) == bs[j]
  {
    var n := |bs| - 1;
    var es := UnitVector(|bs|, j);
    if j == n {
      PlainZero(bs[..n], es[..n]);
      assert Pow(bs[n], 1) == bs[n] * Pow(bs[n], 0);
    } else {
      assert es[..n] == UnitVector(n, j);
      PlainUnit(bs[..n], j);
      assert Pow(bs[n], 0) == 1;
    }
  }

  /** Entry 0 is 1. */
  lemma EmptyEntry(bs: seq<int>, m: int)
    requires 1 < m
    ensures IsEntry(1, bs, 0, m)
  {
    forall j | 0 <= j < |bs| ensures BitsOf(0, |bs|)[j] == 0 { ShrAll(0, j); }
    PlainZero(bs, BitsOf(0, |bs|));
  }

  /** Multiplying an entry by a base that is not in it. */
  lemma AddBase(g: int, bs: seq<int>, s: nat, j: nat, t: nat, m: int)
    requires 1 < m && j < |bs| && IsEntry(g, bs, s, m) && Bit(s, j) == 0 && t == s + Pow2(j)
    ensures IsEntry(MulMod(bs[j], g, m), bs, t, m) && IsEntry(bs[j] * g, bs, t, m)
  {
    var n := |bs|;
    assert t == SetBit(s, j);
    forall i | 0 <= i < n ensures BitsOf(t, n)[i] == UnitVector(n, j)[i] + BitsOf(s, n)[i] {
      SetBitBits(s, j, i);
    }
    PlainAdd(bs, BitsOf(t, n), UnitVector(n, j), BitsOf(s, n));
    PlainUnit(bs, j);
    MulModCong(bs[j], g, bs[j], Plain(bs, BitsOf(s, n)), m);
    CongMul(bs[j], bs[j], g, Plain(bs, BitsOf(s, n)), m);
  }

  /** A base itself is the entry of its bit. */
  lemma SingleBase(bs: seq<int>, j: nat, m: int)
    requires 1 < m && j < |bs|
    ensures IsEntry(bs[j], bs, Pow2(j), m)
  {
    EmptyEntry(bs, m);
    ShrAll(0, j);
    AddBase(1, bs, 0, j, Pow2(j), m);
  }

  /** The bits of the table indices that the hand-written products rely on. */
  lemma SmallPowers()
    ensures Pow2(0) == 1 && Pow2(1) == 2 && Pow2(2) == 4 && Pow2(3) == 8 && Pow2(4) == 16
    ensures Bit(2, 0) == Bit(4, 0) == Bit(4, 1) == Bit(6, 0) == 0
    ensures Bit(8, 0) == Bit(8, 1) == Bit(8, 2) == Bit(10, 0) == Bit(12, 0) == Bit(12, 1) == Bit(14, 0) == 0
  {
  }

  /** The table G_i, entry by entry as the source writes it. */
  method Precompute(bases: seq<int>, m: int) returns (G: seq<int>)
    requires 1 < m && 2 <= |bases| <= 4
    ensures IsTable(G, bases, m)
  {
    hide IsEntry, MulMod, Pow2, Bit;
    SmallPowers();
    var blen := |bases|;
    G := [1, bases[0], bases[1], MulMod(bases[0], bases[1], m)];
    EmptyEntry(bases, m);
    SingleBase(bases, 0, m);
    SingleBase(bases, 1, m);
    AddBase(G[2], bases, 2, 0, 3, m);
    if blen > 2 {
      var g4 := bases[2];
      var g5 := MulMod(bases[0], g4, m);
      var g6 := MulMod(bases[1], g4, m);
      var g7 := MulMod(bases[0], g6, m);
      SingleBase(bases, 2, m);
      AddBase(g4, bases, 4, 0, 5, m);
      AddBase(g4, bases, 4, 1, 6, m);
      AddBase(g6, bases, 6, 0, 7, m);
      G := G + [g4, g5, g6, g7];
    }
    if blen > 3 {
      var g8 := bases[3];
      var g9 := MulMod(bases[0], g8, m);
      var g10 := MulMod(bases[1], g8, m);
      var g11 := MulMod(bases[0], g10, m);
      var g12 := MulMod(bases[2], g8, m);
      var g13 := MulMod(bases[0], g12, m);
      var g14 := MulMod(bases[1], g12, m);
      var g15 := MulMod(bases[0], g14, m);
      SingleBase(bases, 3, m);
      AddBase(g8, bases, 8, 0, 9, m);
      AddBase(g8, bases, 8, 1, 10, m);
      AddBase(g10, bases, 10, 0, 11, m);
      AddBase(g8, bases, 8, 2, 12, m);
      AddBase(g12, bases, 12, 0, 13, m);
      AddBase(g12, bases, 12, 1, 14, m);
      AddBase(g14, bases, 14, 0, 15, m);
      G := G + [g8, g9, g10, g11, g12, g13, g14, g15];
    }
  }

  class MultiExpCacher {
    var cache: map<(seq<int>, int), seq<int>>

    ghost predicate Valid()
      reads this
    {
      forall k :: k in cache ==> 1 < k.1 && IsTable(cache[k], k.0, k.1)
    }

    constructor ()
      ensures Valid() && cache == map[]
    {
      cache := map[];
    }

    /** The table for these bases, from the cache or computed now. */
    method Table(bases: seq<int>, m: int) returns (G: seq<int>)
      requires Valid() && 1 < m && 2 <= |bases| <= 4
      modifies this
      ensures Valid() && IsTable(G, bases, m)
      ensures cache == old(cache)[(bases, m) := G]
      ensures (bases, m) in old(cache) ==> G == old(cache)[(bases, m)]
    {
      if (bases, m) !in cache {
        var Gi := Precompute(bases, m);
        cache := cache[(bases, m) := Gi];
      }
      G := cache[(bases, m)];
      assert cache == old(cache)[(bases, m) := G];
    }

    /** Simultaneous exponentiation: one squaring and at most one table
        multiplication for each bit position, from the most significant down. */
    method Exp(bases: seq<int>, exponents: seq<nat>, m: int) returns (A: int)
      requires Valid() && 1 < m && 2 <= |bases| <= 4 && |exponents| == |bases|
      modifies this
      ensures Valid()
      ensures A == Plain(bases, exponents) % m
    {
      var G := Table(bases, m);
      var t := MaxBits(exponents);
      A := 1;
      AllShiftedOut(bases, exponents, t, m);
      var i := 1;
      while i <= t
        invariant Valid() && 1 <= i <= t + 1
        invariant A == Plain(bases, ShiftedBy(exponents, t + 1 - i)) % m
      {
        A := MulMod(A, A, m);
        var expcol := Column(exponents, t - i);
        if expcol != 0 {
          A := MulMod(A, G[expcol], m);
        }
        OneBit(bases, exponents, t - i, expcol, G, m);
        i := i + 1;
      }
      assert ShiftedBy(exponents, 0) == exponents;
    }

    /** MultiExp: every path returns the product of the powers modulo m, whatever
        was computed and cached before. */
    method Call(bases: seq<int>, exponents: seq<int>, m: int, cacheBases: bool) returns (r: Result<int>)
      requires Valid() && 1 < m
      modifies this
      ensures Valid()
      ensures r == if |bases| != |exponents| then SizeError else Ok(Product(bases, exponents, m))
    {
      if |bases| != |exponents| { return SizeError; }
      if |bases| == 1 {
        SinglePower(bases, exponents, m);
        return Ok(PowerMod(bases[0], exponents[0], m));
      }
      var multiexpOk := 2 <= |bases| <= 4 && cacheBases;
      if multiexpOk {
        var i := 0;
        while i < |exponents| && multiexpOk
          invariant Valid() && 0 <= i <= |exponents|
          invariant multiexpOk ==> forall j :: 0 <= j < i ==> 0 <= exponents[j]
        {
          if exponents[i] < 0 { multiexpOk := false; }
          i := i + 1;
        }
      }
      var result := 1;
      if multiexpOk {
        result := Exp(bases, exponents, m);
        ProductIsPlain(bases, exponents, m);
      } else {
        var i := 0;
        while i < |bases|
          invariant Valid() && 0 <= i <= |bases|
          invariant result == Product(bases[..i], exponents[..i], m)
        {
          assert bases[..i + 1][..i] == bases[..i] && exponents[..i + 1][..i] == exponents[..i];
          result := MulMod(result, PowerMod(bases[i], exponents[i], m), m);
          i := i + 1;
        }
        assert bases[..|bases|] == bases && exponents[..|bases|] == exponents;
      }
      r := Ok(result);
    }
  }

  lemma SinglePower(bases: seq<int>, exponents: seq<int>, m: int)
    requires 1 < m && |bases| == |exponents| == 1
    ensures Product(bases, exponents, m) == PowerMod(bases[0], exponents[0], m)
  {
    var r := PowerMod(bases[0], exponents[0], m);
    DivModUnique(1 * r, m, 0, r);
  }

  // ---------- the pieces of the loop ----------

  /** The largest bit length, `t`. */
  method MaxBits(es: seq<nat>) returns (t: nat)
    ensures forall j :: 0 <= j < |es| ==> NumBits(es[j]) <= t
    ensures t == 0 || exists j :: 0 <= j < |es| && NumBits(es[j]) == t
  {
    t := 0;
    var i := 0;
    while i < |es|
      invariant 0 <= i <= |es|
      invariant t == 0 || exists j :: 0 <= j < i && NumBits(es[j]) == t
      invariant forall j :: 0 <= j < i ==> NumBits(es[j]) <= t
    {
      if t < NumBits(es[i]) { t := NumBits(es[i]); }
      i := i + 1;
    }
  }

  /** Every exponent without its r low bits. */
  function ShiftedBy(es: seq<nat>, r: nat): (fs: seq<nat>)
    ensures |fs| == |es| && forall j :: 0 <= j < |es| ==> fs[j] == Shr(es[j], r)
  {
    seq(|es|, j requires 0 <= j < |es| => Shr(es[j], r))
  }

  lemma AllShiftedOut(bs: seq<int>, es: seq<nat>, t: nat, m: int)
    requires 1 < m && |bs| == |es| && forall j :: 0 <= j < |es| ==> NumBits(es[j]) <= t
    ensures Plain(bs, ShiftedBy(es, t)) % m == 1
  {
    forall j | 0 <= j < |es| ensures ShiftedBy(es, t)[j] == 0 { ShrAll(es[j], t); }
    PlainZero(bs, ShiftedBy(es, t));
    DivModUnique(1, m, 0, 1);
  }

  /** `expcol`: bit j is bit r of the j-th exponent. */
  method Column(es: seq<nat>, r: nat) returns (col: nat)
    ensures col < Pow2(|es|)
    ensures forall j :: 0 <= j < |es| ==> Bit(col, j) == Bit(es[j], r)
  {
    col := 0;
    var j := 0;
    Pow2Mono(0, |es|);
    forall k: nat ensures Bit(0, k) == 0 { ShrAll(0, k); }
    while j < |es|
      invariant 0 <= j <= |es| && col < Pow2(|es|)
      invariant forall k :: 0 <= k < j ==> Bit(col, k) == Bit(es[k], r)
      invariant forall k :: j <= k < |es| ==> Bit(col, k) == 0
    {
      if Bit(es[j], r) == 1 {
        forall k: nat ensures Bit(SetBit(col, j), k) == if k == j then 1 else Bit(col, k) {
          SetBitBits(col, j, k);
        }
        SetBitBound(col, j, |es|);
        col := SetBit(col, j);
      }
      j := j + 1;
    }
  }

  /** Taking in one more bit of every exponent: square, then multiply by the column's entry. */
  lemma OneBit(bs: seq<int>, es: seq<nat>, r: nat, col: nat, G: seq<int>, m: int)
    requires 1 < m && |bs| == |es| && IsTable(G, bs, m) && col < |G|
    requires forall j :: 0 <= j < |es| ==> Bit(col, j) == Bit(es[j], r)
    ensures var sq := MulMod(Plain(bs, ShiftedBy(es, r + 1)) % m, Plain(bs, ShiftedBy(es, r + 1)) % m, m);
      (if col == 0 then sq else MulMod(sq, G[col], m)) == Plain(bs, ShiftedBy(es, r)) % m
  {
    var hi, lo := ShiftedBy(es, r + 1), BitsOf(col, |bs|);
    var twice: seq<nat> := seq(|es|, j requires 0 <= j < |es| => 2 * hi[j]);
    forall j | 0 <= j < |es| ensures ShiftedBy(es, r)[j] == twice[j] + lo[j] {
      ShrStep(es[j], r);
    }
    PlainDouble(bs, twice, hi);
    PlainAdd(bs, ShiftedBy(es, r), twice, lo);
    var h := Plain(bs, hi);
    CongMod(h, m);
    MulModCong(h % m, h % m, h, h, m);
    if col == 0 {
      forall j | 0 <= j < |bs| ensures lo[j] == 0 { ShrAll(0, j); }
      PlainZero(bs, lo);
    } else {
      assert IsEntry(G[col], bs, col, m);
      MulModCong(MulMod(h % m, h % m, m), G[col], h * h, Plain(bs, lo), m);
    }
  }
}
