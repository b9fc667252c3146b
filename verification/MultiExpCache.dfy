/** MultiExpCache: products of powers from tables that cover `width` bits of
    every exponent at a time. */
module MultiExpCache {
  import opened Arithmetic
  import opened ModExp
  import MultiExp

  /** The place of bit s of the k-th window in a column index. */
  function Pos(width: nat, k: nat, s: nat): nat {
    MulNonNeg(width, k);
    width * k + s
  }

  lemma PosUnique(width: nat, k: nat, s: nat, l: nat, t: nat)
    requires s < width && t < width
    ensures Pos(width, k, s) == Pos(width, l, t) <==> k == l && s == t
  {
    DivModUnique(Pos(width, k, s), width, k, s);
    if Pos(width, k, s) == Pos(width, l, t) { DivModUnique(Pos(width, k, s), width, l, t); }
  }

  lemma PosBound(width: nat, k: nat, s: nat, n: nat)
    requires s < width && k < n
    ensures Pos(width, k, s) < Pos(width, n, 0)
  {
    MulMono(k + 1, n, width);
  }

  lemma PosNext(width: nat, k: nat)
    ensures Pos(width, k + 1, 0) == Pos(width, k, 0) + width
  {
  }

  lemma PosStart(width: nat)
    ensures Pos(width, 0, 0) == 0
  {
  }

  /** `width * n`, the number of bits in a column index. */
  function ColumnBits(width: nat, n: nat): nat {
    Pos(width, n, 0)
  }

  /** The n digits of `width` bits in a column index. */
  function Digits(i: nat, width: nat, n: nat): (es: seq<nat>)
    ensures |es| == n && forall j :: 0 <= j < n ==> es[j] == LowBits(Shr(i, Pos(width, j, 0)), width)
  {
    seq(n, j requires 0 <= j => LowBits(Shr(i, Pos(width, j, 0)), width))
  }

  // ---------- the tables ----------

  /** struct multiexp_table. */
  datatype Table = Table(blen: nat, width: nat, mod: int, table: seq<seq<int>>)

  /** Entry i of row `row`: the product of the bases to the digits of i, to the
      power 2^(width*row). */
  ghost predicate IsEntry(g: int, bs: seq<int>, i: nat, width: nat, row: nat, m: int)
    requires 1 < m
  {
    Cong(g, Pow(Plain(bs, Digits(i, width, |bs|)), Pow2(Pos(width, row, 0))), m)
  }

  ghost predicate IsRow(g: seq<int>, bs: seq<int>, width: nat, row: nat, m: int)
    requires 1 < m
  {
    |g| == Pow2(ColumnBits(width, |bs|)) && forall i :: 0 <= i < |g| ==> IsEntry(g[i], bs, i, width, row, m)
  }

  ghost predicate IsTable(t: Table, bs: seq<int>) {
    && 1 < t.mod && 1 <= t.width && t.blen == |bs|
    && forall row :: 0 <= row < |t.table| ==> IsRow(t.table[row], bs, t.width, row, t.mod)
  }

  /** The first row: every base to its digit. */
  method FirstRow(bases: seq<int>, m: int, width: nat) returns (g: seq<int>)
    requires 1 < m && 1 <= width
    ensures IsRow(g, bases, width, 0, m)
  {
    hide Digits;
    var tabsz := Pow2(ColumnBits(width, |bases|));
    g := [];
    while |g| < tabsz
      invariant |g| <= tabsz
      invariant forall k :: 0 <= k < |g| ==> IsEntry(g[k], bases, k, width, 0, m)
    {
      var i := |g|;
      var e, j := 1, 0;
      ghost var ds := Digits(i, width, |bases|);
      DivModUnique(1, m, 0, 1);
      while j < |bases|
        invariant 0 <= j <= |bases|
        invariant e == Plain(bases[..j], ds[..j]) % m
      {
        var bpow := LowBits(Shr(i, Pos(width, j, 0)), width);
        assert bases[..j + 1][..j] == bases[..j] && ds[..j + 1][..j] == ds[..j];
        CongMod(Plain(bases[..j], ds[..j]), m);
        CongMod(Pow(bases[j], bpow), m);
        MulModCong(e, PowerMod(bases[j], bpow, m), Plain(bases[..j], ds[..j]), Pow(bases[j], bpow), m);
        e := MulMod(e, PowerMod(bases[j], bpow, m), m);
        j := j + 1;
      }
      assert bases[..|bases|] == bases && ds[..|bases|] == ds;
      CongMod(Plain(bases, ds), m);
      FirstEntry(e, bases, i, width, m);
      g := g + [e];
    }
  }

  lemma FirstEntry(e: int, bs: seq<int>, i: nat, width: nat, m: int)
    requires 1 < m && Cong(e, Plain(bs, Digits(i, width, |bs|)), m)
    ensures IsEntry(e, bs, i, width, 0, m)
  {
    var x := Plain(bs, Digits(i, width, |bs|));
    assert Pos(width, 0, 0) == 0 && Pow2(0) == 1;
    assert Pow(x, 1) == x * Pow(x, 0) == x;
  }

  /** A further row raises the row before to the power 2^width. */
  lemma NextEntry(e: int, bs: seq<int>, i: nat, width: nat, row: nat, m: int)
    requires 1 < m && IsEntry(e, bs, i, width, row, m)
    ensures IsEntry(PowerMod(e, Pow2(width), m), bs, i, width, row + 1, m)
  {
    hide Pow, Pow2, Plain, Digits, Pos, PowerMod, Cong;
    var x, a := Plain(bs, Digits(i, width, |bs|)), Pos(width, row, 0);
    NextPos(width, row);
    Pow2Add(a, width);
    RaisedPower(e, x, Pow2(a), Pow2(width), m);
  }

  lemma RaisedPower(e: int, x: int, a: nat, b: nat, m: int)
    requires 1 < m && Cong(e, Pow(x, a), m)
    ensures 0 <= a * b && Cong(PowerMod(e, b, m), Pow(x, a * b), m)
  {
    hide Pow;
    MulNonNeg(a, b);
    PowMulExp(x, a, b);
    CongPow(e, Pow(x, a), b, m);
    CongMod(Pow(e, b), m);
  }

  lemma NextPos(width: nat, row: nat)
    ensures Pos(width, row + 1, 0) == Pos(width, row, 0) + width
  {
  }

  method NextRow(prev: seq<int>, ghost bases: seq<int>, m: int, width: nat, ghost row: nat) returns (g: seq<int>)
    requires 1 < m && IsRow(prev, bases, width, row, m)
    ensures IsRow(g, bases, width, row + 1, m)
  {
    hide IsEntry;
    g := [];
    while |g| < |prev|
      invariant |g| <= |prev|
      invariant forall k :: 0 <= k < |g| ==> IsEntry(g[k], bases, k, width, row + 1, m)
    {
      NextEntry(prev[|g|], bases, |g|, width, row, m);
      g := g + [PowerMod(prev[|g|], Pow2(width), m)];
    }
  }

  /** precomp. Its callers give it at least one exponent bit, and its own check
      bounds width * blen by the bits of an unsigned int. */
  method Precomp(bases: seq<int>, m: int, width: nat, maxlen: nat) returns (t: Table)
    requires 1 < m && 1 <= width && 1 <= maxlen && ColumnBits(width, |bases|) <= 32
    ensures IsTable(t, bases) && t.mod == m && t.width == width
    ensures |t.table| == (maxlen + width - 1) / width
  {
    var rows := (maxlen + width - 1) / width;
    AtLeastOneRow(maxlen, width);
    var first := FirstRow(bases, m, width);
    var table := [first];
    while |table| < rows
      invariant 1 <= |table| <= rows
      invariant forall row :: 0 <= row < |table| ==> IsRow(table[row], bases, width, row, m)
    {
      var next := NextRow(table[|table| - 1], bases, m, width, |table| - 1);
      table := table + [next];
    }
    t := Table(|bases|, width, m, table);
  }

  lemma AtLeastOneRow(maxlen: nat, width: nat)
    requires 1 <= width && 1 <= maxlen
    ensures 1 <= (maxlen + width - 1) / width
  {
    DivMono(width, maxlen + width - 1, width);
    DivModUnique(width, width, 1, 0);
  }

  // ---------- exponentiation ----------

  /** The column index for bits i .. i+width-1 of the exponents. */
  ghost predicate IsColumn(col: nat, es: seq<nat>, i: nat, width: nat) {
    && col < Pow2(ColumnBits(width, |es|))
    && forall k, s :: 0 <= k < |es| && 0 <= s < width ==> Bit(col, Pos(width, k, s)) == Bit(es[k], i + s)
  }

  /** What has been filled in of a column: all windows up to bit j, and bit j of
      the first l windows. */
  ghost predicate PartColumn(col: nat, es: seq<nat>, i: nat, width: nat, j: nat, l: nat) {
    && col < Pow2(ColumnBits(width, |es|))
    && forall k, s :: 0 <= k < |es| && 0 <= s < width ==>
         Bit(col, Pos(width, k, s)) == if s < j || (s == j && k < l) then Bit(es[k], i + s) else 0
  }

  lemma PartStart(es: seq<nat>, i: nat, width: nat)
    ensures PartColumn(0, es, i, width, 0, 0)
  {
    forall k: nat ensures Bit(0, k) == 0 { ShrAll(0, k); }
  }

  lemma PartStep(col: nat, es: seq<nat>, i: nat, width: nat, j: nat, l: nat)
    requires PartColumn(col, es, i, width, j, l) && j < width && l < |es|
    ensures PartColumn(if Bit(es[l], i + j) == 1 then SetBit(col, Pos(width, l, j)) else col, es, i, width, j, l + 1)
  {
    var p := Pos(width, l, j);
    PosBound(width, l, j, |es|);
    SetBitBound(col, p, ColumnBits(width, |es|));
    assert Bit(col, p) == 0;
    forall k, s | 0 <= k < |es| && 0 <= s < width
      ensures Bit(if Bit(es[l], i + j) == 1 then SetBit(col, p) else col, Pos(width, k, s))
           == if s < j || (s == j && k < l + 1) then Bit(es[k], i + s) else 0
    {
      PosUnique(width, k, s, l, j);
      SetBitBits(col, p, Pos(width, k, s));
    }
  }

  method Column(es: seq<nat>, i: nat, width: nat) returns (col: nat)
    ensures IsColumn(col, es, i, width)
  {
    col := 0;
    PartStart(es, i, width);
    var j := 0;
    while j < width
      invariant 0 <= j <= width && PartColumn(col, es, i, width, j, 0)
    {
      var l := 0;
      while l < |es|
        invariant 0 <= l <= |es| && PartColumn(col, es, i, width, j, l)
      {
        PartStep(col, es, i, width, j, l);
        if Bit(es[l], i + j) == 1 { col := SetBit(col, Pos(width, l, j)); }
        l := l + 1;
      }
      j := j + 1;
    }
  }

  /** The digits of a column are the windows of the exponents. */
  lemma ColumnDigits(col: nat, es: seq<nat>, i: nat, width: nat, k: nat)
    requires IsColumn(col, es, i, width) && k < |es|
    ensures Digits(col, width, |es|)[k] == LowBits(Shr(es[k], i), width)
  {
    var p := Pos(width, k, 0);
    forall s | 0 <= s < width ensures Bit(Shr(col, p), s) == Bit(Shr(es[k], i), s) {
      ShrShr(col, p, s);
      ShrShr(es[k], i, s);
      assert Pos(width, k, s) == p + s;
    }
    LowBitsEqual(Shr(col, p), Shr(es[k], i), width);
  }

  /** Every exponent's lowest i bits. */
  function LowParts(es: seq<nat>, i: nat): (fs: seq<nat>)
    ensures |fs| == |es| && forall j :: 0 <= j < |es| ==> fs[j] == LowBits(es[j], i)
  {
    seq(|es|, j requires 0 <= j < |es| => LowBits(es[j], i))
  }

  /** One window: the product over the low i bits times the entry of the column
      is the product over the low i + width bits. */
  lemma OneWindow(bs: seq<int>, es: seq<nat>, i: nat, width: nat, row: nat, col: nat, g: int, m: int)
    requires 1 < m && |bs| == |es| && i == Pos(width, row, 0) && IsColumn(col, es, i, width)
    requires IsEntry(g, bs, col, width, row, m)
    ensures var a := Plain(bs, LowParts(es, i)) % m;
      (if col == 0 then a else MulMod(a, g, m)) == Plain(bs, LowParts(es, i + width)) % m
  {
    var lo, ds := LowParts(es, i), Digits(col, width, |bs|);
    var scaled: seq<nat> := seq(|es|, j requires 0 <= j < |es| => ScaledDigit(ds[j], i));
    forall j | 0 <= j < |es| ensures LowParts(es, i + width)[j] == lo[j] + scaled[j] {
      ColumnDigits(col, es, i, width, j);
      LowBitsAdd(es[j], i, width);
    }
    PlainAdd(bs, LowParts(es, i + width), lo, scaled);
    PlainScale(bs, scaled, ds, Pow2(i));
    CongMod(Plain(bs, lo), m);
    MulModCong(Plain(bs, lo) % m, g, Plain(bs, lo), Plain(bs, scaled), m);
    if col == 0 {
      forall j | 0 <= j < |es| ensures scaled[j] == 0 { ZeroDigit(width, j); }
      PlainZero(bs, scaled);
    }
  }

  function ScaledDigit(d: nat, i: nat): nat {
    MulNonNeg(d, Pow2(i));
    d * Pow2(i)
  }

  lemma ZeroDigit(width: nat, j: nat)
    ensures LowBits(Shr(0, Pos(width, j, 0)), width) == 0
  {
    ShrAll(0, Pos(width, j, 0));
    ShrAll(0, width);
  }

  /** The exponents fit the rows of a table. */
  ghost predicate RowsFit(t: Table, es: seq<nat>) {
    forall j :: 0 <= j < |es| ==> NumBits(es[j]) <= Pos(t.width, |t.table|, 0)
  }

  /** multiexp_2, multiexp_3 and multiexp_4, which differ only in the number of
      exponents: the product of the powers exactly when the assertions about sizes,
      modulus and rows hold. A column index must fit an unsigned short. */
  method Exponentiate(t: Table, ghost bases: seq<int>, es: seq<nat>, m: int) returns (r: MultiExp.Result<int>)
    requires IsTable(t, bases) && ColumnBits(t.width, t.blen) <= 16
    ensures r == if |es| == |bases| && m == t.mod && RowsFit(t, es) then MultiExp.Ok(Plain(bases, es) % m)
                 else MultiExp.AssertionFails
  {
    hide IsColumn, IsEntry, Plain, Pos;
    if |es| != t.blen || m != t.mod { return MultiExp.AssertionFails; }
    PosStart(t.width);
    var width := t.width;
    var bits := MultiExp.MaxBits(es);
    RowsNeeded(width, bits, |t.table|);
    if (bits + width - 1) / width > |t.table| { return MultiExp.AssertionFails; }
    var A := 1;
    StartWindow(bases, es, m);
    RowsEnough(es, width, 0, |t.table|, bits);
    var i, row := 0, 0;
    while i < bits
      invariant 0 <= row && i == Pos(width, row, 0)
      invariant A == Plain(bases, LowParts(es, i)) % m
      invariant i < bits ==> row < |t.table|
      decreases |t.table| - row
    {
      var expcol := Column(es, i, width);
      ColumnFits(expcol, es, i, width);
      OneWindow(bases, es, i, width, row, expcol, t.table[row][expcol], m);
      if expcol != 0 {
        A := MulMod(A, t.table[row][expcol], m);
      }
      PosNext(width, row);
      i, row := i + width, row + 1;
      RowsEnough(es, width, row, |t.table|, bits);
    }
    WholeExponents(es, i, bits);
    r := MultiExp.Ok(A);
  }

  lemma RowsNeeded(width: nat, bits: nat, rows: nat)
    requires 1 <= width
    ensures (bits + width - 1) / width <= rows <==> bits <= Pos(width, rows, 0)
  {
    var q := (bits + width - 1) / width;
    Quotient(bits + width - 1, width);
    if q <= rows { MulMono(q, rows, width); } else { MulMono(rows, q - 1, width); }
  }

  lemma StartWindow(bs: seq<int>, es: seq<nat>, m: int)
    requires 1 < m && |bs| == |es|
    ensures Plain(bs, LowParts(es, 0)) % m == 1
  {
    PlainZero(bs, LowParts(es, 0));
    DivModUnique(1, m, 0, 1);
  }

  /** A column index is below the table size, and below 2^16 when that is. */
  lemma ColumnFits(col: nat, es: seq<nat>, i: nat, width: nat)
    requires IsColumn(col, es, i, width) && ColumnBits(width, |es|) <= 16
    ensures col < Pow2(ColumnBits(width, |es|)) <= 0x1_0000
  {
    Pow2Mono(ColumnBits(width, |es|), 16);
    assert Pow2(8) == 256;
    Pow2Add(8, 8);
  }

  lemma RowsEnough(es: seq<nat>, width: nat, row: nat, rows: nat, bits: nat)
    requires 1 <= width && bits <= Pos(width, rows, 0)
    ensures Pos(width, row, 0) < bits ==> row < rows
  {
    if rows <= row { MulMono(rows, row, width); }
  }

  lemma WholeExponents(es: seq<nat>, i: nat, bits: nat)
    requires bits <= i && forall j :: 0 <= j < |es| ==> NumBits(es[j]) <= bits
    ensures LowParts(es, i) == es
  {
    forall j | 0 <= j < |es| ensures LowParts(es, i)[j] == es[j] { LowBitsAll(es[j], i); }
  }

  // ---------- the cache of tables ----------

  class Cache<N(==, !new)> {
    var cache: map<seq<N>, Table>
    /** The bases that each table was computed from. */
    ghost var stored: map<seq<N>, seq<int>>

    ghost predicate Valid()
      reads this
    {
      && stored.Keys == cache.Keys
      && forall names :: names in cache ==> IsTable(cache[names], stored[names])
    }

    constructor ()
      ensures Valid() && cache == map[] && stored == map[]
    {
      cache, stored := map[], map[];
    }

    /** A table for these names is computed at most once: a later call with the
        same names changes nothing, whatever its bases are. */
    method Store(names: seq<N>, bases: seq<int>, m: int, width: nat, maxlen: nat)
      requires Valid() && 1 < m && 1 <= width && 1 <= maxlen && ColumnBits(width, |bases|) <= 32
      modifies this
      ensures Valid() && names in cache && cache.Keys == old(cache.Keys) + {names}
      ensures names in old(cache) ==> cache == old(cache) && stored == old(stored)
      ensures names !in old(cache) ==>
        && stored == old(stored)[names := bases] && cache == old(cache)[names := cache[names]]
        && cache[names].mod == m && cache[names].width == width
        && |cache[names].table| == (maxlen + width - 1) / width
    {
      if names in cache { return; }
      var t := Precomp(bases, m, width, maxlen);
      cache := cache[names := t];
      stored := stored[names := bases];
    }

    /** A column index of every table fits an unsigned short. */
    ghost predicate Narrow()
      reads this
    {
      forall names :: names in cache ==> ColumnBits(cache[names].width, cache[names].blen) <= 16
    }

    /** What modPow comes to for names that have a table: for two, three or four names
        the product of powers of the bases stored first, if the assertions hold, and
        MultiExp of the given bases for other sizes. */
    ghost function ProductOf(names: seq<N>, bases: seq<int>, exps: seq<nat>, m: int): MultiExp.Result<int>
      requires Valid() && names in cache && 1 < m
      reads this
    {
      if |names| != |exps| then MultiExp.AssertionFails
      else if |names| < 2 || |names| > 4 then
        if |bases| != |exps| then MultiExp.SizeError else MultiExp.Ok(Product(bases, exps, m))
      else if |exps| == |stored[names]| && m == cache[names].mod && RowsFit(cache[names], exps) then
        MultiExp.Ok(Product(stored[names], exps, m))
      else MultiExp.AssertionFails
    }

    method ModPow(names: seq<N>, bases: seq<int>, exps: seq<nat>, m: int,
                  cacher: MultiExp.MultiExpCacher) returns (r: MultiExp.Result<int>)
      requires Valid() && Narrow() && cacher.Valid() && 1 < m && names in cache
      modifies cacher
      ensures Valid() && cacher.Valid()
      ensures r == ProductOf(names, bases, exps, m)
    {
      if |names| != |exps| { return MultiExp.AssertionFails; }
      if 2 <= |names| <= 4 {
        r := Exponentiate(cache[names], stored[names], exps, m);
        if |exps| == |stored[names]| { ProductIsPlain(stored[names], exps, m); }
      } else {
        r := cacher.Call(bases, exps, m, true);
      }
    }
  }
}
