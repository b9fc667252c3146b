/** PowerCache: powers of one fixed base from tables for k bits at a time. */
module PowerCache {
  import opened Arithmetic
  import opened ModExp

  /** k * row, the number of low bits below a row. */
  function Below(k: nat, row: nat): nat {
    MulNonNeg(k, row);
    k * row
  }

  lemma BelowNext(k: nat, row: nat)
    ensures Below(k, row + 1) == Below(k, row) + k
  {
  }

  /** j * 2^a. */
  function Scaled(j: nat, a: nat): nat {
    MulNonNeg(j, Pow2(a));
    j * Pow2(a)
  }

  lemma ScaledFacts(j: nat, a: nat, k: nat)
    ensures Scaled(0, a) == 0 && Scaled(1, 0) == 1
    ensures Scaled(j + 1, a) == Scaled(1, a) + Scaled(j, a)
    ensures Scaled(Pow2(k), a) == Scaled(1, a + k)
  {
    Pow2Add(k, a);
  }

  /** struct Table. */
  datatype Table = Table(k: nat, bits: nat, mod: int, table: seq<seq<int>>)

  /** Row i, entry j: the base to the power j * 2^(k*i). */
  ghost predicate IsEntry(g: int, base: int, k: nat, row: nat, j: nat, m: int)
    requires 1 < m
  {
    Cong(g, Pow(base, Scaled(j, Below(k, row))), m)
  }

  ghost predicate IsRow(g: seq<int>, base: int, k: nat, row: nat, m: int)
    requires 1 < m
  {
    |g| == Pow2(k) && forall j :: 0 <= j < |g| ==> IsEntry(g[j], base, k, row, j, m)
  }

  ghost predicate IsTable(t: Table, base: int) {
    && 1 < t.mod && 1 <= t.k && |t.table| == t.bits / t.k + 1
    && forall row :: 0 <= row < |t.table| ==> IsRow(t.table[row], base, t.k, row, t.mod)
  }

  lemma EntryZero(base: int, k: nat, row: nat, m: int)
    requires 1 < m
    ensures IsEntry(1, base, k, row, 0, m)
  {
    ScaledFacts(0, Below(k, row), k);
  }

  lemma EntryNext(g: int, multiplier: int, base: int, k: nat, row: nat, j: nat, m: int)
    requires 1 < m && IsEntry(g, base, k, row, j, m) && IsEntry(multiplier, base, k, row, 1, m)
    ensures IsEntry(MulMod(multiplier, g, m), base, k, row, j + 1, m)
  {
    var a := Below(k, row);
    ScaledFacts(j, a, k);
    PowAdd(base, Scaled(1, a), Scaled(j, a));
    MulModCong(multiplier, g, Pow(base, Scaled(1, a)), Pow(base, Scaled(j, a)), m);
  }

  /** The last entry times the multiplier is the next row's multiplier. */
  lemma NextMultiplier(g: int, base: int, k: nat, row: nat, m: int)
    requires 1 < m && IsEntry(g, base, k, row, Pow2(k), m)
    ensures IsEntry(g, base, k, row + 1, 1, m)
  {
    BelowNext(k, row);
    ScaledFacts(0, Below(k, row), k);
  }

  lemma FirstMultiplier(base: int, k: nat, m: int)
    requires 1 < m
    ensures IsEntry(base, base, k, 0, 1, m)
  {
    ScaledFacts(0, 0, k);
    assert Pow(base, 1) == base * Pow(base, 0) == base;
  }

  /** One row of the table, and the multiplier for the next one. */
  method Row(multiplier: int, ghost base: int, k: nat, ghost row: nat, m: int) returns (lookup: seq<int>, next: int)
    requires 1 < m && IsEntry(multiplier, base, k, row, 1, m)
    ensures IsRow(lookup, base, k, row, m) && IsEntry(next, base, k, row + 1, 1, m)
  {
    hide IsEntry;
    EntryZero(base, k, row, m);
    lookup := [1];
    var j := 1;
    while j < Pow2(k)
      invariant 1 <= j == |lookup| <= Pow2(k)
      invariant forall l :: 0 <= l < j ==> IsEntry(lookup[l], base, k, row, l, m)
    {
      EntryNext(lookup[j - 1], multiplier, base, k, row, j - 1, m);
      lookup := lookup + [MulMod(multiplier, lookup[j - 1], m)];
      j := j + 1;
    }
    EntryNext(lookup[j - 1], multiplier, base, k, row, j - 1, m);
    next := MulMod(multiplier, lookup[j - 1], m);
    NextMultiplier(next, base, k, row, m);
  }

  /** The table that store builds for a base. */
  method Build(base: int, m: int, bits: nat, k: nat) returns (t: Table)
    requires 1 < m && 1 <= k
    ensures IsTable(t, base) && t.mod == m && t.bits == bits && t.k == k
  {
    hide IsRow, IsEntry;
    var numLookups := bits / k + 1;
    FirstMultiplier(base, k, m);
    var multiplier, tab := base, [];
    while |tab| < numLookups
      invariant |tab| <= numLookups && IsEntry(multiplier, base, k, |tab|, 1, m)
      invariant forall row :: 0 <= row < |tab| ==> IsRow(tab[row], base, k, row, m)
    {
      var lookup, next := Row(multiplier, base, k, |tab|, m);
      tab := tab + [lookup];
      multiplier := next;
    }
    t := Table(k, bits, m, tab);
  }

  // ---------- looking up a power ----------

  /** The word of k bits at a row, collected bit by bit. */
  method Word(n: nat, k: nat, row: nat) returns (word: nat)
    ensures word == LowBits(Shr(n, Below(k, row)), k)
  {
    var x := Shr(n, Below(k, row));
    word := 0;
    var s := 0;
    while s < k
      invariant 0 <= s <= k && word == LowBits(x, s)
    {
      LowBitsStep(x, s);
      ShrShr(n, Below(k, row), s);
      if Bit(n, Below(k, row) + s) == 1 { word := word + Pow2(s); }
      s := s + 1;
    }
  }

  lemma OneWord(base: int, n: nat, k: nat, row: nat, word: nat, g: int, m: int)
    requires 1 < m && word == LowBits(Shr(n, Below(k, row)), k) && IsEntry(g, base, k, row, word, m)
    ensures MulMod(Pow(base, LowBits(n, Below(k, row))) % m, g, m) == Pow(base, LowBits(n, Below(k, row + 1))) % m
  {
    var b := Below(k, row);
    BelowNext(k, row);
    LowBitsAdd(n, b, k);
    ScaledFacts(0, b, 0);
    PowAdd(base, LowBits(n, b), Scaled(word, b));
    CongMod(Pow(base, LowBits(n, b)), m);
    MulModCong(Pow(base, LowBits(n, b)) % m, g, Pow(base, LowBits(n, b)), Pow(base, Scaled(word, b)), m);
  }

  lemma ZeroWord(n: nat, k: nat, row: nat)
    requires LowBits(Shr(n, Below(k, row)), k) == 0
    ensures LowBits(n, Below(k, row + 1)) == LowBits(n, Below(k, row))
  {
    BelowNext(k, row);
    LowBitsAdd(n, Below(k, row), k);
  }

  /** The exponent bits that the rows of a table cover. They are more than `bits`
      even when k divides `bits`. */
  function Covered(t: Table): nat
    requires 1 <= t.k
  {
    Quotient(t.bits, t.k);
    Below(t.k, t.bits / t.k + 1)
  }

  /** So an exponent of at most `bits` bits is covered. */
  lemma DeclaredBitsCovered(t: Table, n: nat)
    requires 1 <= t.k && NumBits(n) <= t.bits
    ensures NumBits(n) <= Covered(t)
  {
    RowsCover(t.bits, t.k);
  }

  /** What looking up a power comes to: the power, the failed assertion about the
      modulus, or an access outside the table. */
  datatype Outcome = Power(value: int) | AssertionFails | OutsideTable

  /** modPow on a table: base^n mod m exactly for the n that the rows cover. Rows are
      read only where n has a word that is not zero, so the bound is that of the bits,
      not of the number of rows that n asks for. */
  method TablePow(t: Table, ghost base: int, n: nat) returns (r: Outcome)
    requires IsTable(t, base)
    ensures r == if NumBits(n) <= Covered(t) then Power(Pow(base, n) % t.mod) else OutsideTable
  {
    hide IsEntry, Pow, Below, LowBits, NumBits, Covered;
    PowerZero(base, t.mod);
    if n == 0 {
      NothingCovered(t);
      return Power(1);
    }
    var result := 1;
    var numLookups := NumBits(n) / t.k + 1;
    Quotient(NumBits(n), t.k);
    Start(base, n, t.k);
    FirstRows(n, t, 0);
    var row := 0;
    while row < numLookups
      invariant 0 <= row <= numLookups
      invariant result == Pow(base, LowBits(n, Below(t.k, row))) % t.mod
      invariant LowBits(n, Below(t.k, row)) < Pow2(Covered(t))
    {
      var word := Word(n, t.k, row);
      if word > 0 {
        if row >= |t.table| {
          WordOutside(n, t, row);
          return OutsideTable;
        }
        assert IsRow(t.table[row], base, t.k, row, t.mod);
        OneWord(base, n, t.k, row, word, t.table[row][word], t.mod);
        FirstRows(n, t, row + 1);
        result := MulMod(result, t.table[row][word], t.mod);
      } else {
        ZeroWord(n, t.k, row);
      }
      row := row + 1;
    }
    AllWords(n, t.k, numLookups);
    NumBitsLeast(n, Covered(t));
    r := Power(result);
  }

  lemma NothingCovered(t: Table)
    requires 1 <= t.k
    ensures NumBits(0) <= Covered(t)
  {
  }

  /** The bits below a row of the table, or below its end, are covered. */
  lemma FirstRows(n: nat, t: Table, row: nat)
    requires 1 <= t.k && |t.table| == t.bits / t.k + 1 && row <= |t.table|
    ensures LowBits(n, Below(t.k, row)) < Pow2(Covered(t))
  {
    MulMono(row, |t.table|, t.k);
    Pow2Mono(Below(t.k, row), Covered(t));
  }

  /** A word beyond the last row that is not zero shows that n is too long. */
  lemma WordOutside(n: nat, t: Table, row: nat)
    requires 1 <= t.k && |t.table| == t.bits / t.k + 1 && |t.table| <= row
    requires LowBits(Shr(n, Below(t.k, row)), t.k) > 0
    ensures NumBits(n) > Covered(t)
  {
    MulMono(|t.table|, row, t.k);
    if NumBits(n) <= Covered(t) {
      LowBitsAll(n, Below(t.k, row));
      ShortShift(n, Below(t.k, row), t.k);
    }
  }

  lemma ShortShift(n: nat, a: nat, k: nat)
    requires LowBits(n, a) == n
    ensures LowBits(Shr(n, a), k) == 0
  {
  }

  lemma PowerZero(base: int, m: int)
    requires 1 < m
    ensures Pow(base, 0) % m == 1
  {
    DivModUnique(1, m, 0, 1);
  }

  lemma Start(base: int, n: nat, k: nat)
    ensures LowBits(n, Below(k, 0)) == 0
  {
  }

  lemma AllWords(n: nat, k: nat, rows: nat)
    requires 1 <= k && rows == NumBits(n) / k + 1
    ensures LowBits(n, Below(k, rows)) == n
  {
    RowsCover(NumBits(n), k);
    LowBitsAll(n, Below(k, rows));
  }

  lemma RowsCover(b: nat, k: nat)
    requires 1 <= k
    ensures 0 <= b / k && b <= Below(k, b / k + 1)
  {
    Quotient(b, k);
    assert Below(k, b / k + 1) == b / k * k + k;
  }

  class Cache<N(==, !new)> {
    var cache: map<N, Table>
    /** The base that each table was computed from. */
    ghost var stored: map<N, int>

    ghost predicate Valid()
      reads this
    {
      && stored.Keys == cache.Keys
      && forall name :: name in cache ==> IsTable(cache[name], stored[name])
    }

    constructor ()
      ensures Valid() && cache == map[] && stored == map[]
    {
      cache, stored := map[], map[];
    }

    /** store: a later table for the same name replaces the earlier one. */
    method Store(name: N, base: int, m: int, bits: nat, k: nat)
      requires Valid() && 1 < m && 1 <= k
      modifies this
      ensures Valid() && name in cache
      ensures cache == old(cache)[name := cache[name]] && stored == old(stored)[name := base]
      ensures cache[name].mod == m && cache[name].bits == bits && cache[name].k == k
    {
      var t := Build(base, m, bits, k);
      cache := cache[name := t];
      stored := stored[name := base];
    }

    /** What modPow comes to for a name that has a table: the power of the base that
        was stored last for it, if the modulus is the table's and the rows cover n. */
    ghost function PowerOf(name: N, n: nat, m: int): Outcome
      requires Valid() && name in cache
      reads this
    {
      if m != cache[name].mod then AssertionFails
      else if NumBits(n) > Covered(cache[name]) then OutsideTable
      else Power(Pow(stored[name], n) % m)
    }

    method ModPow(name: N, n: nat, m: int) returns (r: Outcome)
      requires Valid() && name in cache
      ensures r == PowerOf(name, n, m)
    {
      if m != cache[name].mod { return AssertionFails; }
      r := TablePow(cache[name], stored[name], n);
    }
  }
}
