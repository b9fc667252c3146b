/** Environment::modPow and multiExp, which choose between the caches and direct
    computation, and Interpreter::cachePowers, which fills the caches. */
module Environment {
  import opened Arithmetic
  import opened ModExp
  import ME = MultiExp
  import MultiExpCache
  import PowerCache

  const MAX_EXPLEN: nat := 2048

  /** A description as cachePowers sees it: its base names and its modulus. */
  datatype Description<N> = Description(bases: seq<N>, modulus: int)

  /** The values of some names, or nothing when one of them has none. */
  function Values<N(==)>(variables: map<N, int>, names: seq<N>): (r: seq<int>)
    ensures |r| <= |names|
    ensures |r| == |names| <==> forall i :: 0 <= i < |names| ==> names[i] in variables
    ensures |r| == |names| ==> forall i :: 0 <= i < |names| ==> r[i] == variables[names[i]]
  {
    if |names| == 0 then []
    else
      var rest := Values(variables, names[..|names| - 1]);
      var last := names[|names| - 1];
      if last in variables then rest + [variables[last]] else rest
  }

  /** The window width chosen for a number of bases, 0 for no table. */
  function WidthFor(n: nat): (width: nat)
    ensures width != 0 <==> 2 <= n <= 4
  {
    match n
    case 2 => 4
    case 3 => 3
    case 4 => 2
    case _ => 0
  }

  /** The modulus of the power table for a name: that of the last description over
      this name alone, 0 for no table. */
  ghost function PowerModulus<N>(variables: map<N, int>, ds: seq<Description<N>>, name: N): int {
    if |ds| == 0 then 0
    else
      var d := ds[|ds| - 1];
      if d.bases == [name] && name in variables then d.modulus
      else PowerModulus(variables, ds[..|ds| - 1], name)
  }

  /** The modulus of the table for some names: that of the first description over them,
      0 for no table. */
  ghost function MultiModulus<N>(variables: map<N, int>, ds: seq<Description<N>>, names: seq<N>): int {
    if |ds| == 0 then 0
    else
      var first := MultiModulus(variables, ds[..|ds| - 1], names);
      var d := ds[|ds| - 1];
      if first != 0 || d.bases != names || !HasTable(variables, names) then first else d.modulus
  }

  /** The lists of names that get a table: two to four names that have values. */
  ghost predicate HasTable<N>(variables: map<N, int>, names: seq<N>) {
    WidthFor(|names|) != 0 && forall i :: 0 <= i < |names| ==> names[i] in variables
  }

  /** The exponent bits that the power table of one base covers: not only the
      MAX_EXPLEN it is made for. */
  function PowerCapacity(): (r: nat)
    ensures r == 2050
  {
    PowerCache.Covered(PowerCache.Table(5, MAX_EXPLEN, 0, []))
  }

  /** The exponent bits that a table for n bases covers, 683 windows of three bits for
      three bases. */
  function Capacity(n: nat): (r: nat)
    requires WidthFor(n) != 0
    ensures r == if n == 3 then 2049 else 2048
  {
    var width := WidthFor(n);
    MultiExpCache.Pos(width, (MAX_EXPLEN + width - 1) / width, 0)
  }

  /** The power tables after cachePowers over these descriptions: exactly the single
      bases that had values have tables, each from the value at that time, with the
      modulus that the order says and for MAX_EXPLEN bits, 5 at a time. */
  ghost predicate PowersMatch<N(!new)>(variables: map<N, int>, ds: seq<Description<N>>,
                                       cache: map<N, PowerCache.Table>, stored: map<N, int>) {
    && stored.Keys == cache.Keys
    && (forall name :: name in cache <==> PowerModulus(variables, ds, name) != 0)
    && (forall name :: name in cache ==>
          && name in variables && stored[name] == variables[name]
          && cache[name].bits == MAX_EXPLEN && cache[name].k == 5
          && cache[name].mod == PowerModulus(variables, ds, name))
  }

  /** The tables for lists of names after cachePowers over these descriptions, likewise;
      their columns fit 16 bits. */
  ghost predicate MultisMatch<N(!new)>(variables: map<N, int>, ds: seq<Description<N>>,
                                       cache: map<seq<N>, MultiExpCache.Table>, stored: map<seq<N>, seq<int>>) {
    && stored.Keys == cache.Keys
    && (forall names :: names in cache <==> MultiModulus(variables, ds, names) != 0)
    && (forall names :: names in cache ==>
          && cache[names].mod == MultiModulus(variables, ds, names)
          && MultiEntryOk(variables, names, cache[names], stored[names]))
  }

  ghost predicate MultiEntryOk<N>(variables: map<N, int>, names: seq<N>, t: MultiExpCache.Table, bases: seq<int>) {
    && HasTable(variables, names) && bases == Values(variables, names) && |bases| == |names|
    && t.blen == |names| && MultiExpCache.ColumnBits(t.width, |names|) <= 16
    && MultiExpCache.Pos(t.width, |t.table|, 0) == Capacity(|names|)
  }

  class Environment<N(==, !new)> {
    var variables: map<N, int>
    var cache: PowerCache.Cache?<N>
    var multiCache: MultiExpCache.Cache?<N>

    ghost predicate Valid()
      reads this, cache, multiCache
    {
      && (cache != null ==> cache.Valid())
      && (multiCache != null ==> multiCache.Valid() && multiCache.Narrow())
    }

    constructor (vars: map<N, int>)
      ensures Valid() && variables == vars && cache == null && multiCache == null
    {
      variables, cache, multiCache := vars, null, null;
    }

    /** What modPow comes to for exponents of either sign, with a table or without. */
    ghost function PowerOf(name: N, base: int, e: int, m: int): PowerCache.Outcome
      requires Valid() && 1 < m
      reads this, cache, multiCache
    {
      if cache != null && name in cache.cache && 0 <= e then cache.PowerOf(name, e, m)
      else PowerCache.Power(PowerMod(base, e, m))
    }

    method ModPow(name: N, base: int, e: int, m: int) returns (r: PowerCache.Outcome)
      requires Valid() && 1 < m
      ensures r == PowerOf(name, base, e, m)
    {
      if cache != null && name in cache.cache {
        if e >= 0 {
          r := cache.ModPow(name, e, m);
        } else {
          r := PowerCache.Power(PowerMod(base, e, m));
        }
      } else {
        r := PowerCache.Power(PowerMod(base, e, m));
      }
    }

    /** modPow computes this power as it should. */
    ghost predicate PowerFits(name: N, base: int, e: int, m: int)
      requires Valid() && 1 < m
      reads this, cache, multiCache
    {
      PowerOf(name, base, e, m) == PowerCache.Power(PowerMod(base, e, m))
    }

    /** What multiExp comes to on every path: the windowed tables, MultiExp for a
        negative exponent, and MultiExp without a table. */
    ghost function ProductOf(names: seq<N>, bs: seq<int>, es: seq<int>, m: int): ME.Result<int>
      requires Valid() && 1 < m
      reads this, cache, multiCache
    {
      if multiCache != null && names in multiCache.cache && NoneNegative(es) then
        multiCache.ProductOf(names, bs, es, m)
      else Multiplied(bs, es, m)
    }

    /** multiExp computes this product as it should. */
    ghost predicate MultiFits(names: seq<N>, bs: seq<int>, es: seq<int>, m: int)
      requires Valid() && 1 < m
      reads this, cache, multiCache
    {
      ProductOf(names, bs, es, m) == Multiplied(bs, es, m)
    }

    method MultiExp(names: seq<N>, bs: seq<int>, es: seq<int>, m: int,
                    cacher: ME.MultiExpCacher) returns (r: ME.Result<int>)
      requires Valid() && cacher.Valid() && 1 < m
      modifies cacher
      ensures cacher.Valid() && r == ProductOf(names, bs, es, m)
    {
      if multiCache != null && names in multiCache.cache {
        var negative, i := false, 0;
        while i < |es|
          invariant 0 <= i <= |es|
          invariant negative <==> exists j :: 0 <= j < i && es[j] < 0
        {
          if es[i] < 0 { negative := true; }
          i := i + 1;
        }
        if !negative {
          r := multiCache.ModPow(names, bs, es, m, cacher);
        } else {
          r := cacher.Call(bs, es, m, true);
        }
      } else {
        r := cacher.Call(bs, es, m, true);
      }
    }

    /** The caches are those that cachePowers makes for these descriptions. */
    ghost predicate CachesMatch(ds: seq<Description<N>>)
      reads this, cache, multiCache
    {
      && cache != null && multiCache != null && Valid()
      && PowersMatch(variables, ds, cache.cache, cache.stored)
      && MultisMatch(variables, ds, multiCache.cache, multiCache.stored)
    }

    /** cachePowers over the descriptions. */
    method CachePowers(descriptions: seq<Description<N>>)
      requires ModuliOk(descriptions)
      modifies this
      ensures variables == old(variables) && CachesMatch(descriptions)
    {
      hide PowersMatch, MultisMatch;
      cache := new PowerCache.Cache();
      multiCache := new MultiExpCache.Cache();
      NothingStored(variables);
      var i := 0;
      while i < |descriptions|
        invariant 0 <= i <= |descriptions| && variables == old(variables)
        invariant CachesMatch(descriptions[..i]) && fresh(cache) && fresh(multiCache)
      {
        CacheOne(descriptions[i], descriptions[..i]);
        assert descriptions[..i] + [descriptions[i]] == descriptions[..i + 1];
        i := i + 1;
      }
      assert descriptions[..i] == descriptions;
    }

    method CacheOne(d: Description<N>, ghost before: seq<Description<N>>)
      requires CachesMatch(before) && 1 < d.modulus
      modifies cache, multiCache
      ensures CachesMatch(before + [d])
    {
      hide WidthFor, PowersMatch, MultisMatch, Values;
      ghost var powers, bases := cache.cache, cache.stored;
      ghost var multis, lists := multiCache.cache, multiCache.stored;
      var vals := Values(variables, d.bases);
      if |vals| == |d.bases| && |d.bases| == 1 {
        cache.Store(d.bases[0], vals[0], d.modulus, MAX_EXPLEN, 5);
        PowerStored(variables, before, d, powers, bases, cache.cache[d.bases[0]]);
        OneHasNone(variables, d.bases);
        MultisKept(variables, before, d, multis, lists);
      } else {
        PowersKept(variables, before, d, powers, bases);
        var width := WidthFor(|d.bases|);
        if |vals| == |d.bases| && width != 0 {
          WidthFits(|d.bases|, width);
          assert HasTable(variables, d.bases);
          multiCache.Store(d.bases, vals, d.modulus, width, MAX_EXPLEN);
          if d.bases in multis {
            MultisKept(variables, before, d, multis, lists);
          } else {
            MultiStored(variables, before, d, multis, lists, multiCache.cache[d.bases], width);
          }
        } else {
          MultisKept(variables, before, d, multis, lists);
        }
      }
    }

    /** With the caches filled, a power of a name with its value at that time is
        computed as it should be exactly when there is no table for the name, or its
        modulus is the one asked for and the rows cover the exponent. Otherwise the
        assertion about the modulus fails, or a row is read outside the table. */
    lemma PowerFitsIff(ds: seq<Description<N>>, name: N, e: nat, m: int)
      requires CachesMatch(ds) && name in variables && 1 < m
      ensures var t := PowerModulus(variables, ds, name);
        && (PowerFits(name, variables[name], e, m) <==> t == 0 || (t == m && NumBits(e) <= PowerCapacity()))
        && (!PowerFits(name, variables[name], e, m) ==>
              PowerOf(name, variables[name], e, m) == if t == m then PowerCache.OutsideTable else PowerCache.AssertionFails)
    {
      hide PowerModulus;
    }

    /** Powers for all descriptions over one name are computed as they should be
        exactly when there are none, or these descriptions have the same modulus and
        the rows cover the exponent. */
    lemma PowersFitIff(ds: seq<Description<N>>, name: N, e: nat)
      requires CachesMatch(ds) && ModuliOk(ds) && name in variables
      ensures (forall i :: 0 <= i < |ds| && ds[i].bases == [name] ==>
                PowerFits(name, variables[name], e, ds[i].modulus))
         <==> NoneOver(ds, [name]) || (OneModulus(ds, [name]) && NumBits(e) <= PowerCapacity())
    {
      hide PowersMatch, MultisMatch, PowerModulus, PowerCapacity;
      PowerModulusIs(variables, ds, name);
      forall m | 1 < m { PowerFitsIff(ds, name, e, m); }
      hide PowerFits;
    }

    /** The lists of names that have a table. */
    ghost function MultiNames(): set<seq<N>>
      reads this, multiCache
    {
      if multiCache == null then {} else multiCache.cache.Keys
    }

    lemma Filled(ds: seq<Description<N>>)
      requires CachesMatch(ds)
      ensures Valid()
    {
    }

    lemma NamesHaveTables(ds: seq<Description<N>>, names: seq<N>)
      requires CachesMatch(ds) && names in MultiNames()
      ensures HasTable(variables, names)
    {
      hide MultiModulus, HasTable, PowersMatch;
    }

    /** Likewise for lists of two to four names and exponents that are not negative;
        otherwise an assertion fails. */
    lemma MultiFitsIff(ds: seq<Description<N>>, names: seq<N>, es: seq<nat>, m: int)
      requires CachesMatch(ds) && HasTable(variables, names) && |es| == |names| && 1 < m
      ensures var t := MultiModulus(variables, ds, names);
        && (MultiFits(names, Values(variables, names), es, m)
            <==> t == 0 || (t == m && forall j :: 0 <= j < |es| ==> NumBits(es[j]) <= Capacity(|names|)))
        && (!MultiFits(names, Values(variables, names), es, m) ==>
              ProductOf(names, Values(variables, names), es, m) == ME.AssertionFails)
    {
      hide MultiModulus, Capacity;
    }

    /** So where a table has the modulus asked for, a product of powers is computed as it
        should be exactly when one of the exponents is negative, and the table not used,
        or none of them is too long. */
    lemma ProductIs(ds: seq<Description<N>>, names: seq<N>, bs: seq<int>, es: seq<int>, m: int)
      requires CachesMatch(ds) && 1 < m && |bs| == |es| == |names|
      requires HasTable(variables, names) ==> bs == Values(variables, names) && MultiModulus(variables, ds, names) == m
      ensures Valid()
      ensures ProductOf(names, bs, es, m)
           == if Allows(variables, names, es) then ME.Ok(Product(bs, es, m)) else ME.AssertionFails
    {
      hide MultiModulus, Capacity, PowersMatch, Product;
      if HasTable(variables, names) && NoneNegative(es) {
        MultiFitsIff(ds, names, es, m);
      } else if names in MultiNames() {
        NamesHaveTables(ds, names);
      }
    }

    lemma MultisFitIff(ds: seq<Description<N>>, names: seq<N>, es: seq<nat>)
      requires CachesMatch(ds) && ModuliOk(ds) && HasTable(variables, names) && |es| == |names|
      ensures (forall i :: 0 <= i < |ds| && ds[i].bases == names ==>
                MultiFits(names, Values(variables, names), es, ds[i].modulus))
         <==> NoneOver(ds, names)
              || (OneModulus(ds, names) && forall j :: 0 <= j < |es| ==> NumBits(es[j]) <= Capacity(|names|))
    {
      hide PowersMatch, MultisMatch, MultiModulus, Capacity;
      MultiModulusIs(variables, ds, names);
      forall m | 1 < m { MultiFitsIff(ds, names, es, m); }
      hide MultiFits, HasTable;
    }
  }

  /** Some exponent is negative, or all are short enough for the table, if there is one. */
  ghost predicate Allows<N>(bound: map<N, int>, names: seq<N>, es: seq<int>) {
    HasTable(bound, names) && NoneNegative(es) ==> forall j :: 0 <= j < |es| ==> NumBits(es[j]) <= Capacity(|names|)
  }

  predicate NoneNegative(es: seq<int>) {
    forall j :: 0 <= j < |es| ==> 0 <= es[j]
  }

  /** What MultiExp comes to: the product of the powers. */
  function Multiplied(bs: seq<int>, es: seq<int>, m: int): ME.Result<int>
    requires 1 < m
  {
    if |bs| == |es| then ME.Ok(Product(bs, es, m)) else ME.SizeError
  }

  ghost predicate ModuliOk<N>(ds: seq<Description<N>>) {
    forall i :: 0 <= i < |ds| ==> 1 < ds[i].modulus
  }

  /** All descriptions over these bases have the same modulus. */
  ghost predicate OneModulus<N>(ds: seq<Description<N>>, names: seq<N>) {
    forall i, j :: 0 <= i < |ds| && 0 <= j < |ds| && ds[i].bases == names && ds[j].bases == names ==>
      ds[i].modulus == ds[j].modulus
  }

  ghost predicate NoneOver<N>(ds: seq<Description<N>>, names: seq<N>) {
    forall i :: 0 <= i < |ds| ==> ds[i].bases != names
  }

  lemma {:induction false} PowerModulusIs<N>(variables: map<N, int>, ds: seq<Description<N>>, name: N)
    requires ModuliOk(ds) && name in variables
    ensures var m := PowerModulus(variables, ds, name);
      if m == 0 then NoneOver(ds, [name])
      else exists i :: 0 <= i < |ds| && ds[i].bases == [name] && ds[i].modulus == m
  {
    if |ds| > 0 {
      var n := |ds| - 1;
      PowerModulusIs(variables, ds[..n], name);
      assert forall i :: 0 <= i < n ==> ds[..n][i] == ds[i];
    }
  }

  lemma {:induction false} MultiModulusIs<N>(variables: map<N, int>, ds: seq<Description<N>>, names: seq<N>)
    requires ModuliOk(ds) && HasTable(variables, names)
    ensures var m := MultiModulus(variables, ds, names);
      if m == 0 then NoneOver(ds, names)
      else exists i :: 0 <= i < |ds| && ds[i].bases == names && ds[i].modulus == m
  {
    if |ds| > 0 {
      var n := |ds| - 1;
      MultiModulusIs(variables, ds[..n], names);
      assert forall i :: 0 <= i < n ==> ds[..n][i] == ds[i];
    }
  }

  lemma OneHasNone<N>(variables: map<N, int>, names: seq<N>)
    requires |names| == 1
    ensures !HasTable(variables, names)
  {
  }

  lemma PowerNext<N>(variables: map<N, int>, before: seq<Description<N>>, d: Description<N>, name: N)
    ensures PowerModulus(variables, before + [d], name)
         == if d.bases == [name] && name in variables then d.modulus else PowerModulus(variables, before, name)
  {
    assert (before + [d])[..|before + [d]| - 1] == before;
  }

  lemma MultiNext<N>(variables: map<N, int>, before: seq<Description<N>>, d: Description<N>, names: seq<N>)
    ensures var first := MultiModulus(variables, before, names);
      MultiModulus(variables, before + [d], names)
        == if first != 0 || d.bases != names || !HasTable(variables, names) then first else d.modulus
  {
    assert (before + [d])[..|before + [d]| - 1] == before;
  }

  lemma NothingStored<N(!new)>(variables: map<N, int>)
    ensures PowersMatch(variables, [], map[], map[]) && MultisMatch(variables, [], map[], map[])
  {
  }

  lemma PowersKept<N(!new)>(variables: map<N, int>, before: seq<Description<N>>, d: Description<N>,
                            cache: map<N, PowerCache.Table>, stored: map<N, int>)
    requires PowersMatch(variables, before, cache, stored)
    requires |d.bases| == 1 ==> d.bases[0] !in variables
    ensures PowersMatch(variables, before + [d], cache, stored)
  {
    hide PowerModulus;
    forall name: N ensures PowerModulus(variables, before + [d], name) == PowerModulus(variables, before, name) {
      PowerNext(variables, before, d, name);
    }
  }

  lemma PowerStored<N(!new)>(variables: map<N, int>, before: seq<Description<N>>, d: Description<N>,
                             cache: map<N, PowerCache.Table>, stored: map<N, int>, t: PowerCache.Table)
    requires PowersMatch(variables, before, cache, stored)
    requires |d.bases| == 1 && d.bases[0] in variables && t.mod == d.modulus && 1 < d.modulus
    requires t.bits == MAX_EXPLEN && t.k == 5
    ensures PowersMatch(variables, before + [d], cache[d.bases[0] := t], stored[d.bases[0] := variables[d.bases[0]]])
  {
    hide PowerModulus;
    assert d.bases == [d.bases[0]];
    forall name: N
      ensures PowerModulus(variables, before + [d], name)
           == if name == d.bases[0] then d.modulus else PowerModulus(variables, before, name)
    {
      PowerNext(variables, before, d, name);
    }
  }

  lemma MultisKept<N(!new)>(variables: map<N, int>, before: seq<Description<N>>, d: Description<N>,
                            cache: map<seq<N>, MultiExpCache.Table>, stored: map<seq<N>, seq<int>>)
    requires MultisMatch(variables, before, cache, stored) && (d.bases in cache || !HasTable(variables, d.bases))
    ensures MultisMatch(variables, before + [d], cache, stored)
  {
    hide MultiModulus, HasTable, MultiEntryOk;
    forall names: seq<N>
      ensures MultiModulus(variables, before + [d], names) == MultiModulus(variables, before, names)
    {
      MultiNext(variables, before, d, names);
    }
  }

  lemma MultiEntryMade<N>(variables: map<N, int>, names: seq<N>, t: MultiExpCache.Table, width: nat)
    requires HasTable(variables, names) && t.blen == |names|
    requires width == WidthFor(|names|) && t.width == width && |t.table| == (MAX_EXPLEN + width - 1) / width
    ensures MultiEntryOk(variables, names, t, Values(variables, names))
  {
    WidthFits(|names|, width);
  }

  lemma MultiStored<N(!new)>(variables: map<N, int>, before: seq<Description<N>>, d: Description<N>,
                             cache: map<seq<N>, MultiExpCache.Table>, stored: map<seq<N>, seq<int>>,
                             t: MultiExpCache.Table, width: nat)
    requires MultisMatch(variables, before, cache, stored) && d.bases !in cache && HasTable(variables, d.bases)
    requires width == WidthFor(|d.bases|) && t.width == width && |t.table| == (MAX_EXPLEN + width - 1) / width
    requires t.blen == |d.bases| && t.mod == d.modulus && 1 < d.modulus
    ensures MultisMatch(variables, before + [d], cache[d.bases := t], stored[d.bases := Values(variables, d.bases)])
  {
    MultiEntryMade(variables, d.bases, t, width);
    hide MultiModulus, HasTable, MultiEntryOk, Values, WidthFor;
    forall names: seq<N>
      ensures MultiModulus(variables, before + [d], names)
           == if names == d.bases then d.modulus else MultiModulus(variables, before, names)
    {
      MultiNext(variables, before, d, names);
    }
  }

  /** The chosen widths keep a column index within 9 bits and cover 2048 bits. */
  lemma WidthFits(n: nat, width: nat)
    requires width == WidthFor(n) != 0
    ensures 1 <= width && MultiExpCache.ColumnBits(width, n) <= 16
    ensures MAX_EXPLEN <= MultiExpCache.Pos(width, (MAX_EXPLEN + width - 1) / width, 0)
  {
  }
}
