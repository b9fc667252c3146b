/** Several ranges in one program: the prover's values, the verifier's checks, and the
    protocol over all their descriptions. */
module Ranges {
  import opened Ast
  import opened Translator
  import opened Interpreters
  import opened RangeProofs
  import opened RangeTables
  import opened RangeEvaluation
  import opened RangeRun
  import opened RangeTranslation
  import Arithmetic
  import E = Environment
  import Group
  import ME = MultiExp
  import ModExp
  import Pedersen
  import Sigma

  /** The tables of ranges with different products. */
  ghost predicate Holding(t: Tables, ps: seq<RangeProof>, counter: nat) {
    Tidy(t, counter) && AllHeld(t, ps, counter) && OnlyTheirs(t, ps)
  }

  lemma EnteredHolds(t: Tables, ps: seq<RangeProof>, d: Program, counter: nat)
    requires Entered(t, ps, d, counter) && AllDifferent(ps)
    ensures Holding(t, ps, counter)
  {
    hide *;
    EnteredHas(t, ps, d, counter);
    IsHolding(t, ps, counter);
  }

  lemma IsHolding(t: Tables, ps: seq<RangeProof>, counter: nat)
    requires Tidy(t, counter) && AllHeld(t, ps, counter) && OnlyTheirs(t, ps)
    ensures Holding(t, ps, counter)
  {
    hide Tidy, OnlyTheirs, AllHeld;
  }

  lemma HoldingHas(t: Tables, ps: seq<RangeProof>, counter: nat)
    requires Holding(t, ps, counter)
    ensures Tidy(t, counter) && OnlyTheirs(t, ps) && AllHeld(t, ps, counter)
    ensures forall i :: 0 <= i < |ps| ==> Held(t, ps[i], counter)
  {
    hide Tidy, OnlyTheirs, Held;
  }

  // ---------- the tables ----------

  /** Ranges over the same bases are in groups with the same modulus, and the program's
      commitments to what the ranges are about have no values when the tables are made. */
  ghost predicate TablesReady(ps: seq<RangeProof>, groups: map<string, int>, bound: Values) {
    && (forall i :: 0 <= i < |ps| ==> ps[i].s.group in groups && 1 < groups[ps[i].s.group])
    && (forall i, j :: 0 <= i < |ps| && 0 <= j < |ps| && ps[i].s.g == ps[j].s.g && ps[i].s.h == ps[j].s.h ==>
          groups[ps[i].s.group] == groups[ps[j].s.group])
    && (forall i :: 0 <= i < |ps| && Declared(ps[i]) ==> ps[i].c !in bound)
  }

  /** The tables that cachePowers makes for the ranges' descriptions from the values bound. */
  ghost predicate TablesMade(powers: E.Environment<Text>, ds: seq<E.Description<Text>>, descriptions: map<DLR, DLR>,
                             ps: seq<RangeProof>, groups: map<string, int>)
    reads powers, powers.cache, powers.multiCache
  {
    var env := Sigma.Env(powers.variables, groups, descriptions);
    && powers.CachesMatch(ds) && Within(powers.variables, {}, {}) && TablesReady(ps, groups, powers.variables)
    && Describes(descriptions, ps) && Sigma.GroupsKnown(env) && Sigma.Lists(ds, env) && E.ModuliOk(ds)
  }

  lemma RangeGroups(descriptions: map<DLR, DLR>, ps: seq<RangeProof>, groups: map<string, int>, bound: Values)
    requires Describes(descriptions, ps) && TablesReady(ps, groups, bound)
    ensures Sigma.GroupsKnown(Sigma.Env(bound, groups, descriptions))
  {
    hide IsDescription;
    forall k | k in descriptions ensures descriptions[k].group in groups && 1 < groups[descriptions[k].group] {
      assert DescribedBy(k, ps);
      var i :| 0 <= i < |ps| && IsDescription(k, ps[i]);
      DescriptionElements(k, ps[i]);
    }
  }

  /** Fills the tables, at the time when only the values bound are known. */
  method MakeTables(descriptions: map<DLR, DLR>, ghost ps: seq<RangeProof>, groups: map<string, int>, bound: Values)
    returns (powers: E.Environment<Text>, ghost ds: seq<E.Description<Text>>)
    requires Describes(descriptions, ps) && TablesReady(ps, groups, bound) && Within(bound, {}, {})
    ensures fresh(powers) && powers.variables == bound && TablesMade(powers, ds, descriptions, ps, groups)
  {
    hide *;
    RangeGroups(descriptions, ps, groups, bound);
    powers := new E.Environment(bound);
    var list := Sigma.Listed(Sigma.Env(bound, groups, descriptions));
    powers.CachePowers(list);
    ds := list;
    AreMade(powers, ds, descriptions, ps, groups);
  }

  lemma AreMade(powers: E.Environment<Text>, ds: seq<E.Description<Text>>, descriptions: map<DLR, DLR>,
                ps: seq<RangeProof>, groups: map<string, int>)
    requires powers.CachesMatch(ds) && Within(powers.variables, {}, {}) && TablesReady(ps, groups, powers.variables)
    requires Describes(descriptions, ps) && E.ModuliOk(ds)
    requires Sigma.GroupsKnown(Sigma.Env(powers.variables, groups, descriptions))
    requires Sigma.Lists(ds, Sigma.Env(powers.variables, groups, descriptions))
    ensures TablesMade(powers, ds, descriptions, ps, groups)
  {
    hide E.Environment.CachesMatch, Within, TablesReady, Describes, E.ModuliOk, Sigma.GroupsKnown, Sigma.Lists;
  }

  lemma MadeHas(powers: E.Environment<Text>, ds: seq<E.Description<Text>>, descriptions: map<DLR, DLR>,
                ps: seq<RangeProof>, groups: map<string, int>)
    requires TablesMade(powers, ds, descriptions, ps, groups)
    ensures powers.CachesMatch(ds) && Within(powers.variables, {}, {}) && TablesReady(ps, groups, powers.variables)
    ensures Describes(descriptions, ps) && E.ModuliOk(ds) && powers.Valid()
    ensures Sigma.GroupsKnown(Sigma.Env(powers.variables, groups, descriptions))
    ensures Sigma.Lists(ds, Sigma.Env(powers.variables, groups, descriptions))
  {
    powers.Filled(ds);
    hide E.Environment.CachesMatch, Within, TablesReady, Describes, E.ModuliOk, Sigma.GroupsKnown, Sigma.Lists;
  }

  /** The tables are right for whoever still has the values bound. */
  lemma RightForAll(powers: E.Environment<Text>, ds: seq<E.Description<Text>>, descriptions: map<DLR, DLR>,
                    ps: seq<RangeProof>, groups: map<string, int>)
    requires TablesMade(powers, ds, descriptions, ps, groups)
    ensures powers.Valid() && forall w: Values :: Extended(powers.variables, w) ==> RightTables(powers, w)
  {
    hide E.Environment.CachesMatch, RightTables, Describes, TablesReady, Sigma.Lists, UserName;
    powers.Filled(ds);
    forall w: Values | Extended(powers.variables, w) ensures RightTables(powers, w) {
      TablesAreRight(powers, ds, w);
    }
  }

  /** A description over a name of the program's alone is over the range's bases. */
  lemma OverProgramNames(d: DLR, p: RangeProof)
    requires IsDescription(d, p) && |d.bases| == 2 && UserName(d.bases[0])
    ensures d.group == p.s.group && d.bases == [p.s.g, p.s.h]
  {
    if d != p.ProdProof() && d != p.HiXDLR() {
      var i: nat :| i < 4 && OfSquare(d, p, i);
    }
  }

  lemma SomeOverBases(descriptions: map<DLR, DLR>, ps: seq<RangeProof>, i: nat)
    requires Describes(descriptions, ps) && i < |ps|
    ensures var d := BaseDLR(ps[i].s, ps[i].k + 1);
      d in descriptions && descriptions[d] == d && d.group == ps[i].s.group && d.bases == [ps[i].s.g, ps[i].s.h]
  {
    var d := BaseDLR(ps[i].s, ps[i].k + 1);
    assert OfSquare(d, ps[i], 0) && IsDescription(d, ps[i]);
    assert DescribedBy(d, ps);
  }

  /** All descriptions over bases that have a table are in groups with the same modulus. */
  lemma SameModulus(descriptions: map<DLR, DLR>, ps: seq<RangeProof>, groups: map<string, int>, bound: Values, d: DLR, i: nat)
    requires Describes(descriptions, ps) && TablesReady(ps, groups, bound) && d in descriptions && i < |ps|
    requires Within(bound, {}, {}) && d.bases == [ps[i].s.g, ps[i].s.h] && E.HasTable(bound, d.bases)
    ensures d.group in groups && groups[d.group] == groups[ps[i].s.group]
  {
    hide IsDescription;
    assert DescribedBy(d, ps);
    var l :| 0 <= l < |ps| && IsDescription(d, ps[l]);
    assert d.bases[0] in bound && UserName(d.bases[0]);
    OverProgramNames(d, ps[l]);
  }

  /** So the table for a range's bases has the range's modulus. */
  lemma TableModulus(powers: E.Environment<Text>, ds: seq<E.Description<Text>>, descriptions: map<DLR, DLR>,
                     ps: seq<RangeProof>, groups: map<string, int>, i: nat)
    requires TablesMade(powers, ds, descriptions, ps, groups) && i < |ps|
    requires E.HasTable(powers.variables, [ps[i].s.g, ps[i].s.h])
    ensures ps[i].s.group in groups
    ensures E.MultiModulus(powers.variables, ds, [ps[i].s.g, ps[i].s.h]) == groups[ps[i].s.group]
  {
    MadeHas(powers, ds, descriptions, ps, groups);
    hide TablesMade, E.Environment.CachesMatch, Within, Describes, E.HasTable, E.MultiModulus;
    var bound, names := powers.variables, [ps[i].s.g, ps[i].s.h];
    var env := Sigma.Env(bound, groups, descriptions);
    var d := BaseDLR(ps[i].s, ps[i].k + 1);
    SomeOverBases(descriptions, ps, i);
    E.MultiModulusIs(bound, ds, names);
    assert Sigma.Bases(env, d) in ds;
    var j :| 0 <= j < |ds| && ds[j].bases == names && ds[j].modulus == E.MultiModulus(bound, ds, names);
    assert ds[j] in ds;
    var k :| k in descriptions && ds[j] == Sigma.Bases(env, descriptions[k]);
    DescribesItself(descriptions, ps, k);
    SameModulus(descriptions, ps, groups, bound, k, i);
  }

  lemma DescribesItself(descriptions: map<DLR, DLR>, ps: seq<RangeProof>, k: DLR)
    requires Describes(descriptions, ps) && k in descriptions
    ensures descriptions[k] == k
  {
    hide DescribedBy;
  }

  /** Exponents of the prover's commitments that are used with tables are short enough. */
  ghost predicate ComsShort(coms: map<Text, DLR>, bound: Values, v: Values, groups: map<string, int>) {
    forall c :: c in coms && ValueOf(coms[c], v, groups).Some? ==> ComShort(coms[c], bound, v)
  }

  ghost predicate ComShort(d: DLR, bound: Values, v: Values)
    requires Exponents(d.exps, v).Some?
  {
    E.Allows(bound, d.bases, Exponents(d.exps, v).value)
  }

  lemma OneFitting(powers: E.Environment<Text>, ds: seq<E.Description<Text>>, descriptions: map<DLR, DLR>,
                   ps: seq<RangeProof>, groups: map<string, int>, d: DLR, v: Values)
    requires TablesMade(powers, ds, descriptions, ps, groups) && Extended(powers.variables, v)
    requires OverBases(d, ps) && ValueOf(d, v, groups).Some?
    ensures powers.Valid() && (Through(d, v, groups, powers).Some? <==> ComShort(d, powers.variables, v))
  {
    MadeHas(powers, ds, descriptions, ps, groups);
    var i :| 0 <= i < |ps| && OverBasesOf(d, ps[i]);
    var bs, es, m := Exponents(d.bases, v).value, Exponents(d.exps, v).value, groups[d.group];
    ExponentsLength(d.bases, v);
    ExponentsLength(d.exps, v);
    hide TablesMade, E.Environment.CachesMatch, E.Environment.ProductOf, E.Environment.Valid, Describes, E.MultiModulus, Exponents,
         E.Allows, E.HasTable, ModExp.Product, Sigma.Lists, E.ModuliOk, Sigma.GroupsKnown, UserName, TablesReady, Extended, Within;
    if E.HasTable(powers.variables, d.bases) {
      TableValues(powers.variables, d.bases, v);
      TableModulus(powers, ds, descriptions, ps, groups, i);
    }
    powers.ProductIs(ds, d.bases, bs, es, m);
  }

  lemma TableValues(bound: Values, names: seq<Text>, v: Values)
    requires E.HasTable(bound, names) && Extended(bound, v) && Within(bound, {}, {})
    ensures Exponents(names, v) == Some(E.Values(bound, names))
  {
    hide Exponents, E.Values, UserName;
    ValuesAreExponents(bound, names, v);
  }

  /** The tables fit the prover's commitments exactly when these are short enough. */
  lemma FittingIff(powers: E.Environment<Text>, ds: seq<E.Description<Text>>, descriptions: map<DLR, DLR>,
                   ps: seq<RangeProof>, groups: map<string, int>, coms: map<Text, DLR>, v: Values)
    requires TablesMade(powers, ds, descriptions, ps, groups) && Extended(powers.variables, v) && ComsOver(coms, ps)
    ensures powers.Valid() && (Fitting(coms, v, groups, powers) <==> ComsShort(coms, powers.variables, v, groups))
  {
    MadeHas(powers, ds, descriptions, ps, groups);
    hide TablesMade, Extended, ValueOf, Through, ComShort, OverBases;
    forall c | c in coms && ValueOf(coms[c], v, groups).Some?
      ensures Exponents(coms[c].exps, v).Some?
      ensures Through(coms[c], v, groups, powers).Some? <==> ComShort(coms[c], powers.variables, v)
    {
      ValueParts(coms[c], v, groups);
      OneFitting(powers, ds, descriptions, ps, groups, coms[c], v);
    }
  }

  lemma ValueParts(d: DLR, v: Values, groups: map<string, int>)
    requires ValueOf(d, v, groups).Some?
    ensures Exponents(d.exps, v).Some?
  {
  }

  // ---------- the prover ----------

  /** The inputs of all ranges, with x in each of them. */
  ghost predicate AllInputs(ps: seq<RangeProof>, groups: map<string, int>, v: Values) {
    forall i :: 0 <= i < |ps| ==> Inputs(ps[i], groups, v) && InRange(ps[i], v)
  }

  /** low <= x <= high, all three with values. */
  ghost predicate InRange(p: RangeProof, v: Values) {
    && Exponent(p.x, v).Some? && Exponent(p.low, v).Some? && Exponent(p.high, v).Some?
    && Exponent(p.low, v).value <= Exponent(p.x, v).value <= Exponent(p.high, v).value
  }

  lemma ProductHasValue(p: RangeProof, groups: map<string, int>, v0: Values, w: Values)
    requires Inputs(p, groups, v0) && Extended(v0, w)
    ensures Has(p.x, w) && Has(p.low, w) && Has(p.high, w) && Has(p.Prod(), w)
  {
    hide *;
    InputsHave(p, groups, v0);
    BoundsHaveValues(p, v0, w);
    ProdIs(p);
    HasOps(p.x, p.low, w);
    HasOps(p.high, p.x, w);
    HasOps(p.XLo(), p.HiX(), w);
  }

  lemma ProdIs(p: RangeProof)
    ensures p.XLo() == SubText(p.x, p.low) && p.HiX() == SubText(p.high, p.x) && p.Prod() == MulText(p.XLo(), p.HiX())
  {
  }

  lemma BecomesReady(t: Tables, p: RangeProof, counter: nat, groups: map<string, int>, v0: Values, w: Values)
    requires Held(t, p, counter) && Inputs(p, groups, v0) && Extended(v0, w) && HasRandoms(t, w) && HasSquares(t, w)
    ensures RangeReady(p, w, groups)
  {
    hide *;
    HeldHas(t, p, counter);
    InputsHave(p, groups, v0);
    ProductHas(t, p);
    ProductHasValue(p, groups, v0, w);
    RandomsFrom(t, p, w);
    SquaresFrom(t, p.Prod(), p.k + 1, w);
    ReadyFromNames(p, w);
    BlindingHas(t, p, groups, v0, w);
    KnownIn(p.s, groups, v0, w);
    BoundsReadyFrom(p, w);
    IsReady(p, w, groups);
  }

  /** The commitment's randomness is a random number, or a value of the program's. */
  lemma BlindingHas(t: Tables, p: RangeProof, groups: map<string, int>, v0: Values, w: Values)
    requires XCommitted(t, p) && Inputs(p, groups, v0) && Extended(v0, w) && HasRandoms(t, w)
    ensures Has(p.r, w)
  {
    hide HasRandoms, UserText, Pedersen.Com, Pedersen.Bases, Exponent;
    if NewCommitted(t, p) { RandomHas(t, p, w); } else { NameValue(p.r, w); }
  }

  lemma KnownIn(s: Setting, groups: map<string, int>, v0: Values, w: Values)
    requires Extended(v0, w) && s.g.Id? && s.h.Id? && s.g in v0 && s.h in v0 && s.group in groups && 1 < groups[s.group]
    ensures Known(s, w, groups)
  {
  }

  lemma IsReady(p: RangeProof, w: Values, groups: map<string, int>)
    requires Known(p.s, w, groups) && BoundsReady(p, w) && SquaresReady(p.R1(), p.k + 1, w)
    ensures RangeReady(p, w, groups)
  {
    hide Known, BoundsReady, SquaresReady;
  }

  /** Nothing is missing when the prover computes its values. */
  lemma ListEvaluable(t: Tables, ps: seq<RangeProof>, counter: nat, groups: map<string, int>, v0: Values)
    requires Holding(t, ps, counter) && Works(t, ps) && AllInputs(ps, groups, v0)
    ensures Evaluable(t, v0, groups)
  {
    hide Held, Tidy, Inputs, Extended, HasRandoms, HasSquares, AllHaveValues, RangeReady, Exponent, RangeProof.Prod;
    forall w: Values | Extended(v0, w) && HasRandoms(t, w) ensures AllEvaluate(t.decompositions.Keys, w) {
      forall e | e in t.decompositions ensures Exponent(e, w).Some? {
        var i :| 0 <= i < |ps| && e == ps[i].Prod();
        ProductHasValue(ps[i], groups, v0, w);
        assert Has(e, w);
      }
    }
    forall w: Values | Extended(v0, w) && HasRandoms(t, w) && HasSquares(t, w)
      ensures AllEvaluate(t.expressions, w) && AllHaveValues(t.comsToCompute, w, groups)
    {
      forall i | 0 <= i < |ps| ensures RangeReady(ps[i], w, groups) {
        assert Held(t, ps[i], counter) && Inputs(ps[i], groups, v0);
        BecomesReady(t, ps[i], counter, groups, v0, w);
      }
      assert AllReady(ps, w, groups);
    }
  }

  /** Every product of a value in its range is decomposed. */
  lemma SumsRight(t: Tables, ps: seq<RangeProof>, groups: map<string, int>, v0: Values, v: Values, fourSquares: int -> seq<int>)
    requires OnlyTheirs(t, ps) && AllInputs(ps, groups, v0) && Extended(v0, v) && Decomposes(fourSquares)
    requires forall e :: e in t.decompositions ==> e in v && Exponent(e, v) == Some(v[e])
    ensures forall e :: e in t.decompositions ==> Pedersen.Sum(Pedersen.Squares(fourSquares(v[e]))) == v[e]
  {
    hide Exponent, Extended, Pedersen.Sum, Pedersen.Squares, Inputs, RangeProof.Prod;
    forall e | e in t.decompositions ensures 0 <= v[e] {
      var i :| 0 <= i < |ps| && e == ps[i].Prod();
      assert Inputs(ps[i], groups, v0) && InRange(ps[i], v0);
      ProductNotNegative(ps[i], groups, v0, v);
    }
  }

  lemma ProductNotNegative(p: RangeProof, groups: map<string, int>, v0: Values, v: Values)
    requires Inputs(p, groups, v0) && Extended(v0, v)
    requires InRange(p, v0)
    ensures Exponent(p.Prod(), v).Some? && 0 <= Exponent(p.Prod(), v).value
  {
    hide Exponent, Extended;
    ExponentExtends(p.x, v0, v);
    ExponentExtends(p.low, v0, v);
    ExponentExtends(p.high, v0, v);
    ProductValue(p, v);
    NonNegativeProduct(Exponent(p.x, v).value, Exponent(p.low, v).value, Exponent(p.high, v).value);
  }

  ghost predicate AllProved(ps: seq<RangeProof>, t: Tables, v: Values, groups: map<string, int>) {
    forall i :: 0 <= i < |ps| ==> Ready(ps[i], t, v, groups)
  }

  /** The prover's exponents: the random numbers, and the four squares of what is decomposed. */
  ghost predicate HonestValues(t: Tables, v: Values, random: Text -> int, fourSquares: int -> seq<int>) {
    && (forall r :: r in t.randoms ==> r in v && v[r] == random(r))
    && Mapping(t.decompositions, fourSquares, v)
  }

  lemma AreHonest(t: Tables, v: Values, random: Text -> int, fourSquares: int -> seq<int>)
    requires (forall r :: r in t.randoms ==> r in v && v[r] == random(r)) && Mapping(t.decompositions, fourSquares, v)
    ensures HonestValues(t, v, random, fourSquares)
  {
    hide Mapping;
  }

  /** The prover's values for the translated ranges. They are all there exactly when the
      products differ and the tables fit: where two products are the same, a number of the
      first range's decomposition, which the second range has replaced, is missing. */
  method Prove(t: Tables, ghost ps: seq<RangeProof>, ghost d: Program, ghost counter: nat, groups: map<string, int>,
               v0: Values, fourSquares: int -> seq<int>, random: Text -> int, powers: E.Environment<Text>)
    returns (ok: bool, v: Values)
    requires Entered(t, ps, d, counter) && Works(t, ps) && AllInputs(ps, groups, v0) && Within(v0, {}, {})
    requires Decomposes(fourSquares)
    requires powers.Valid() && forall w: Values :: Extended(v0, w) ==> RightTables(powers, w)
    ensures ok <==> AllDifferent(ps) && Fitting(t.comsToCompute, v, groups, powers)
    ensures Extended(v0, v) && (ok ==> AllProved(ps, t, v, groups))
    ensures AllDifferent(ps) ==> HonestValues(t, v, random, fourSquares)
  {
    hide *;
    EnteredHas(t, ps, d, counter);
    FourEach(fourSquares);
    if AllDifferent(ps) {
      EnteredHolds(t, ps, d, counter);
      ListEvaluable(t, ps, counter, groups, v0);
    } else {
      OneReplaced(t, ps, counter, v0);
    }
    var prover := new InterpreterProver(v0);
    var cacher := new ME.MultiExpCacher();
    ok := prover.ComputeIntermediateValues(t, groups, random, fourSquares, powers, cacher, counter);
    v := prover.variables;
    IsExtended(v0, v);
    if AllDifferent(ps) { AreHonest(t, v, random, fourSquares); }
    if ok {
      SumsRight(t, ps, groups, v0, v, fourSquares);
      AllAreProved(t, ps, counter, groups, v0, v);
    }
  }

  /** When two ranges have the same product, no decomposition has the first one's names. */
  lemma OneReplaced(t: Tables, ps: seq<RangeProof>, counter: nat, v0: Values)
    requires Tidy(t, counter) && Latest(t, ps, counter) && Within(v0, {}, {}) && !AllDifferent(ps)
    ensures !Supplied(t, v0)
  {
    hide Tidy, Within, RangeProof.Prod, RootTerm, Supplied;
    var i, j :| 0 <= i < j < |ps| && ps[i].Prod() == ps[j].Prod();
    RootReplaced(t, ps, counter, i, j);
    RootMissing(t, ps[i], counter, v0);
  }

  lemma RootReplaced(t: Tables, ps: seq<RangeProof>, counter: nat, i: nat, j: nat)
    requires Latest(t, ps, counter) && i < j < |ps| && ps[i].Prod() == ps[j].Prod()
    ensures !OfDecomposition(Decomp(ps[i].k + 1), t.decompositions) && RootTerm(ps[i]) in t.expressions
  {
    hide RangeProof.Prod, RootTerm, FourNames, NamedBy, Decomp;
    var n := Decomp(ps[i].k + 1);
    forall e, k: nat | e in t.decompositions && t.decompositions[e] == FourNames(k, 4) ensures !NamedBy(n, k) {
      assert OfLast(e, t.decompositions[e], ps);
      var l: nat :| LastWith(e, ps, l) && t.decompositions[e] == FourNames(ps[l].k + 1, 4);
      SameNames(k, ps[l].k + 1);
      assert l != i;
      OtherBlock(ps[i].k + 1, k);
    }
  }

  lemma SameNames(k: nat, l: nat)
    requires FourNames(k, 4) == FourNames(l, 4)
    ensures k == l
  {
    assert FourNames(k, 4)[0].decomp == Decomp(k) && FourNames(l, 4)[0].decomp == Decomp(l);
  }

  lemma OtherBlock(j: nat, k: nat)
    requires j < k || k + 4 <= j
    ensures !NamedBy(Decomp(j), k)
  {
    SquareKinds();
  }

  lemma RootMissing(t: Tables, p: RangeProof, counter: nat, v0: Values)
    requires Tidy(t, counter) && Within(v0, {}, {}) && RootTerm(p) in t.expressions
    requires !OfDecomposition(Decomp(p.k + 1), t.decompositions)
    ensures !Supplied(t, v0)
  {
    KindsApart();
    var n := Decomp(p.k + 1);
    assert n in Leaves(n) && Leaves(MulText(n, RandDecomp(p.k + 1))) == Leaves(n) + Leaves(RandDecomp(p.k + 1));
    assert n in Leaves(RootTerm(p));
    assert OfKind(n, SQUARES) && !UserName(n);
    hide Leaves, OfDecomposition, Blocks, FreeOf, Reads, RootTerm;
  }

  lemma AllAreProved(t: Tables, ps: seq<RangeProof>, counter: nat, groups: map<string, int>, v0: Values, v: Values)
    requires AllHeld(t, ps, counter) && AllInputs(ps, groups, v0) && Extended(v0, v) && Computed(t, v, groups)
    ensures AllProved(ps, t, v, groups)
  {
    hide Held, Inputs, Computed, Ready, Extended, Exponent;
    forall i | 0 <= i < |ps| ensures Ready(ps[i], t, v, groups) {
      assert Held(t, ps[i], counter) && Inputs(ps[i], groups, v0);
      HeldHas(t, ps[i], counter);
      ProverReady(t, ps[i], v0, v, groups);
    }
  }

  // ---------- the verifier ----------

  /** The public part of a range's inputs: both generators, the names of the bounds, and
      a commitment of the program's. */
  ghost predicate PublicOf(p: RangeProof, known: Values, v0: Values) {
    && p.s.g in known && p.s.h in known && (Declared(p) ==> p.c in known)
    && Exponent(p.low, known) == Exponent(p.low, v0) && Exponent(p.high, known) == Exponent(p.high, v0)
  }

  ghost predicate AllPublic(ps: seq<RangeProof>, known: Values, v0: Values) {
    Extended(known, v0) && forall i :: 0 <= i < |ps| ==> PublicOf(ps[i], known, v0)
  }

  lemma AreOwn(t: Tables, ps: seq<RangeProof>, counter: nat)
    requires Holding(t, ps, counter)
    ensures OnlyOwn(t)
  {
    hide Tidy, Held;
    forall c | c in t.rangeComs ensures OfKind(c, OWN) {
      assert IsOwn(c, ps);
    }
  }

  lemma OwnFrom(t: Tables, p: RangeProof, counter: nat)
    requires Held(t, p, counter) && OnlyOwn(t)
    ensures OwnComs(t, p)
  {
    hide Contains, XCommitted, SquareAt, OfKind;
  }

  /** The verifier computes nothing from its own commitments. */
  lemma OwnReads(p: RangeProof, groups: map<string, int>, v0: Values)
    requires Inputs(p, groups, v0) && (FreshX(p) || Declared(p))
    ensures forall n :: n in Reads(p.VerifierLo()) || n in Reads(p.VerifierHi()) ==> !OfKind(n, OWN)
  {
    InputsHave(p, groups, v0);
    hide Exponent;
    NotOwn(p, p.k);
    UserNameText(p.s.g);
    ReadsOf(p.VerifierLo(), p.s.g, p.c, Neg(p.low), Int(1));
    ReadsOf(p.VerifierHi(), p.s.g, p.c, p.high, Neg(Int(1)));
    assert Leaves(Neg(p.low)) == Leaves(p.low) && Leaves(Int(1)) == {} && Leaves(Neg(Int(1))) == {} && Leaves(p.c) == {p.c};
    UserNotOwn(p.s.g);
    UserNotOwn(p.low);
    UserNotOwn(p.high);
    assert !OfKind(p.c, OWN);
    hide Reads, Leaves, OfKind, UserName;
  }

  lemma UserNotOwn(e: Text)
    requires UserText(e)
    ensures forall n :: n in Leaves(e) ==> !OfKind(n, OWN)
  {
    hide Leaves;
  }

  lemma XNamed(t: Tables, p: RangeProof)
    requires XCommitted(t, p)
    ensures p.c.Id? && (FreshX(p) || Declared(p))
  {
  }

  lemma RangeComsApart(t: Tables, ps: seq<RangeProof>, counter: nat, groups: map<string, int>, v0: Values)
    requires Holding(t, ps, counter) && AllInputs(ps, groups, v0) && OnlyOwn(t)
    ensures forall c, d :: c in t.rangeComs && d in t.rangeComs ==> c !in Reads(t.rangeComs[d])
  {
    hide Tidy, Held, Inputs, InRange, Reads, OfKind, RangeProof.XLoCom, RangeProof.HiXCom;
    forall c, d | c in t.rangeComs && d in t.rangeComs ensures c !in Reads(t.rangeComs[d]) {
      assert IsOwn(d, ps);
      var i :| 0 <= i < |ps| && (d == ps[i].XLoCom() || d == ps[i].HiXCom());
      assert Held(t, ps[i], counter) && Inputs(ps[i], groups, v0);
      OwnFrom(t, ps[i], counter);
      HeldHas(t, ps[i], counter);
      XNamed(t, ps[i]);
      OwnReads(ps[i], groups, v0);
    }
  }

  /** What the verifier starts from: the public values and the prover's commitments. */
  ghost predicate Starts(t: Tables, v: Values, known: Values, start: Values) {
    && start == known + Published(t, v) && Within(known, {}, {})
    && forall n :: n in Published(t, v) ==> OfKind(n, COMMITMENTS)
  }

  lemma StartsFrom(t: Tables, counter: nat, v: Values, known: Values, v0: Values)
    requires Tidy(t, counter) && Extended(known, v0) && Within(v0, {}, {})
    ensures Starts(t, v, known, known + Published(t, v))
  {
    hide Tidy, Published;
    KnownWithin(known, v0);
    PublishedKinds(t, v, counter);
  }

  lemma KnownNotOwn(t: Tables, v: Values, known: Values, start: Values)
    requires Starts(t, v, known, start) && OnlyOwn(t)
    ensures forall n :: n in known ==> n !in t.rangeComs && n !in Published(t, v) && !OfKind(n, COMMITMENTS)
  {
    hide Published;
  }

  /** The verifier gets the commitment to x: from the prover, or from the program. */
  lemma XShared(t: Tables, p: RangeProof, groups: map<string, int>, v: Values, v0: Values, known: Values, w: Values)
    requires Ready(p, t, v, groups) && XCommitted(t, p) && OnlyOwn(t) && PublicOf(p, known, v0)
    requires Extended(known, v0) && Extended(v0, v)
    requires Extended(known, w) && forall n :: n in Published(t, v) ==> n in w && w[n] == v[n]
    ensures p.c.Id? && p.c in v && p.c in w && w[p.c] == v[p.c]
  {
    NotOwn(p, p.k);
    hide Contains, ContainsChecks, Computed, Grounded, Exponent, Pedersen.Com, OfKind;
    if NewCommitted(t, p) { assert p.c in Published(t, v); }
  }

  lemma OwnValues(t: Tables, p: RangeProof, groups: map<string, int>, v: Values, v0: Values, known: Values, w: Values)
    requires Inputs(p, groups, v0) && PublicOf(p, known, v0) && OwnComs(t, p) && Ready(p, t, v, groups) && XCommitted(t, p)
    requires Extended(known, v0) && Extended(v0, v)
    requires Extended(known, w) && forall n :: n in Published(t, v) ==> n in w && w[n] == v[n]
    ensures ValueOf(t.rangeComs[p.XLoCom()], w, groups).Some? && ValueOf(t.rangeComs[p.HiXCom()], w, groups).Some?
  {
    InputsHave(p, groups, v0);
    OwnIs(t, p);
    XShared(t, p, groups, v, v0, known, w);
    hide Exponent, ValueOf, Published, Ready, Extended, OwnComs, RangeProof.XLoCom, RangeProof.HiXCom;
    ExponentExtends(p.low, known, w);
    ExponentExtends(p.high, known, w);
    ExtendedHas(known, w);
    NameValue(p.s.g, w);
    NameValue(p.c, w);
    VerifierValues(p, w, groups);
  }

  lemma OwnIs(t: Tables, p: RangeProof)
    requires OwnComs(t, p)
    ensures p.XLoCom() in t.rangeComs && t.rangeComs[p.XLoCom()] == p.VerifierLo()
    ensures p.HiXCom() in t.rangeComs && t.rangeComs[p.HiXCom()] == p.VerifierHi() && OnlyOwn(t)
  {
    hide OnlyOwn;
  }

  /** The verifier can compute its own commitments. */
  lemma OwnCanBeComputed(t: Tables, ps: seq<RangeProof>, counter: nat, groups: map<string, int>, v0: Values, v: Values,
                         known: Values, start: Values)
    requires Holding(t, ps, counter) && AllInputs(ps, groups, v0) && AllPublic(ps, known, v0) && AllProved(ps, t, v, groups)
    requires Starts(t, v, known, start) && OnlyOwn(t) && Extended(v0, v)
    ensures RangeComsWork(t, start, groups)
  {
    hide Tidy, Held, Inputs, InRange, Ready, ValueOf, Published, Exponent, PublicOf, OnlyOwn, Starts, Extended, RangeProof.XLoCom, RangeProof.HiXCom;
    forall w: Values | ExtendedBut(start, w, t.rangeComs.Keys) ensures AllHaveValues(t.rangeComs, w, groups) {
      StillKnown(t, v, known, start, w);
      forall c | c in t.rangeComs ensures ValueOf(t.rangeComs[c], w, groups).Some? {
        assert IsOwn(c, ps);
        var i :| 0 <= i < |ps| && (c == ps[i].XLoCom() || c == ps[i].HiXCom());
        assert Held(t, ps[i], counter) && Inputs(ps[i], groups, v0) && PublicOf(ps[i], known, v0) && Ready(ps[i], t, v, groups);
        HeldHas(t, ps[i], counter);
        OwnFrom(t, ps[i], counter);
        OwnValues(t, ps[i], groups, v, v0, known, w);
      }
    }
  }

  lemma StillKnown(t: Tables, v: Values, known: Values, start: Values, w: Values)
    requires Starts(t, v, known, start) && OnlyOwn(t) && ExtendedBut(start, w, t.rangeComs.Keys)
    ensures Extended(known, w) && forall n :: n in Published(t, v) ==> n in w && w[n] == v[n]
  {
    KnownNotOwn(t, v, known, start);
    PublishedNotOwn(t, v);
    hide Starts, OfKind, OnlyOwn;
    StartsHas(t, v, known, start);
  }

  lemma StartsHas(t: Tables, v: Values, known: Values, start: Values)
    requires Starts(t, v, known, start)
    ensures start == known + Published(t, v)
  {
    hide Published, Within;
  }

  lemma PublishedNotOwn(t: Tables, v: Values)
    ensures forall n :: n in Published(t, v) ==> n in v && n !in t.rangeComs && Published(t, v)[n] == v[n]
  {
  }

  /** The verifier's values after computeIntermediateValues. */
  ghost predicate Verifies(t: Tables, start: Values, w: Values, groups: map<string, int>) {
    && ExtendedBut(start, w, t.rangeComs.Keys)
    && forall c :: c in t.rangeComs ==> c in w && ValueOf(t.rangeComs[c], w, groups) == Some(w[c])
  }

  lemma VerifierGets(t: Tables, p: RangeProof, counter: nat, groups: map<string, int>, v0: Values, v: Values,
                     known: Values, start: Values, w: Values)
    requires Held(t, p, counter) && Inputs(p, groups, v0) && Extended(known, v0) && PublicOf(p, known, v0)
    requires Extended(v0, v) && Ready(p, t, v, groups)
    requires Starts(t, v, known, start) && OnlyOwn(t) && Verifies(t, start, w, groups)
    ensures VerifierHas(p, t, v, w, groups)
  {
    hide *;
    InputsHave(p, groups, v0);
    PublicOfHas(p, known, v0);
    HeldHas(t, p, counter);
    VerifiesHas(t, start, w, groups);
    StillKnown(t, v, known, start, w);
    XShared(t, p, groups, v, v0, known, w);
    OwnFrom(t, p, counter);
    ExponentExtends(p.low, v0, v);
    ExponentExtends(p.high, v0, v);
    ExponentExtends(p.low, known, w);
    ExponentExtends(p.high, known, w);
    SharedFrom(p.s.g, known, v0, v, w);
    SharedFrom(p.s.h, known, v0, v, w);
    HasFrom(t, p, v, w, groups);
  }

  lemma PublicOfHas(p: RangeProof, known: Values, v0: Values)
    requires PublicOf(p, known, v0)
    ensures p.s.g in known && p.s.h in known
    ensures Exponent(p.low, known) == Exponent(p.low, v0) && Exponent(p.high, known) == Exponent(p.high, v0)
  {
    hide Exponent;
  }

  lemma VerifiesHas(t: Tables, start: Values, w: Values, groups: map<string, int>)
    requires Verifies(t, start, w, groups)
    ensures ExtendedBut(start, w, t.rangeComs.Keys)
    ensures forall c :: c in t.rangeComs ==> c in w && ValueOf(t.rangeComs[c], w, groups) == Some(w[c])
  {
    hide ValueOf, ExtendedBut;
  }

  lemma SharedFrom(n: Text, known: Values, v0: Values, v: Values, w: Values)
    requires n in known && Extended(known, v0) && Extended(v0, v) && Extended(known, w)
    ensures n in v && n in w && w[n] == v[n]
  {
  }

  lemma HasFrom(t: Tables, p: RangeProof, v: Values, w: Values, groups: map<string, int>)
    requires forall n :: n in Published(t, v) ==> n in w && w[n] == v[n]
    requires p.s.g in v && p.s.g in w && w[p.s.g] == v[p.s.g] && p.s.h in v && p.s.h in w && w[p.s.h] == v[p.s.h]
    requires p.s.g.Id? && p.s.h.Id? && p.c.Id? && p.c in v && p.c in w && w[p.c] == v[p.c]
    requires Exponent(p.low, w) == Exponent(p.low, v) && Exponent(p.high, w) == Exponent(p.high, v) && OwnComs(t, p)
    requires forall c :: c in t.rangeComs ==> c in w && ValueOf(t.rangeComs[c], w, groups) == Some(w[c])
    ensures VerifierHas(p, t, v, w, groups)
  {
    hide Published, Exponent, OwnComs, ValueOf;
  }

  ghost predicate AllHave(ps: seq<RangeProof>, t: Tables, v: Values, w: Values, groups: map<string, int>) {
    forall i :: 0 <= i < |ps| ==> VerifierHas(ps[i], t, v, w, groups)
  }

  lemma VerifierGetsAll(t: Tables, ps: seq<RangeProof>, counter: nat, groups: map<string, int>, v0: Values, v: Values,
                        known: Values, start: Values, w: Values)
    requires AllHeld(t, ps, counter) && AllInputs(ps, groups, v0) && AllPublic(ps, known, v0)
    requires Extended(v0, v) && AllProved(ps, t, v, groups)
    requires Starts(t, v, known, start) && OnlyOwn(t) && Verifies(t, start, w, groups)
    ensures AllHave(ps, t, v, w, groups)
  {
    hide Held, Inputs, InRange, Ready, Starts, OnlyOwn, Verifies, VerifierHas, PublicOf, Extended;
    forall i | 0 <= i < |ps| ensures VerifierHas(ps[i], t, v, w, groups) {
      assert Held(t, ps[i], counter) && Inputs(ps[i], groups, v0) && PublicOf(ps[i], known, v0) && Ready(ps[i], t, v, groups);
      VerifierGets(t, ps[i], counter, groups, v0, v, known, start, w);
    }
  }

  lemma OneCheckable(t: Tables, p: RangeProof, counter: nat, v: Values, w: Values, groups: map<string, int>)
    requires Held(t, p, counter) && Ready(p, t, v, groups) && OnlyOwn(t) && forall n :: n in Published(t, v) ==> n in w
    ensures p.Prod() in t.decompositions && Checkable(p.Prod(), t.decompositions[p.Prod()], t, w, groups)
  {
    hide *;
    HeldHas(t, p, counter);
    OwnFrom(t, p, counter);
    ProductHas(t, p);
    ReadyHas(p, t, v, groups);
    GroundedBases(p.s, v, groups);
    ComsPublished(p, t, v, groups);
    ChecksKnown(p, t);
    SquareComsIn(p, w);
    FourKnown(p, t, w);
    CheckableFrom(p, t, w, groups);
  }

  lemma CheckableFrom(p: RangeProof, t: Tables, w: Values, groups: map<string, int>)
    requires SquaresKnown(p, t) && HasSquareComs(p, w) && p.ProdCom() in w && p.s.group in groups && 1 < groups[p.s.group]
    requires CommitmentValues(FourNames(p.k + 1, 4), t, w) == Some(SquareComs(p, w))
    ensures Checkable(p.Prod(), FourNames(p.k + 1, 4), t, w, groups)
  {
    var names := FourNames(p.k + 1, 4);
    assert names[0] == DecompNames(Decomp(p.k + 1), Square(p.k + 1));
    hide CommitmentValues, SquareComs, FourNames;
  }

  /** Nothing that the verifier's checks look up is missing. */
  lemma ListCheckable(t: Tables, ps: seq<RangeProof>, counter: nat, v: Values, w: Values, groups: map<string, int>)
    requires Holding(t, ps, counter) && AllProved(ps, t, v, groups) && OnlyOwn(t)
    requires forall n :: n in Published(t, v) ==> n in w
    ensures AllCheckable(t, w, groups)
  {
    hide Tidy, Held, Ready, OnlyOwn, Published, Checkable, RangeProof.Prod;
    forall e | e in t.decompositions ensures Checkable(e, t.decompositions[e], t, w, groups) {
      var i :| 0 <= i < |ps| && e == ps[i].Prod();
      assert Held(t, ps[i], counter) && Ready(ps[i], t, v, groups);
      OneCheckable(t, ps[i], counter, v, w, groups);
    }
  }

  lemma OneMatches(t: Tables, p: RangeProof, counter: nat, v: Values, w: Values, groups: map<string, int>)
    requires Held(t, p, counter) && Ready(p, t, v, groups) && VerifierHas(p, t, v, w, groups)
    ensures p.Prod() in t.decompositions && SquaresMatch(p.Prod(), t.decompositions[p.Prod()], t, w, groups)
  {
    hide *;
    HeldHas(t, p, counter);
    ProductHas(t, p);
    SquaresDoMatch(p, t, v, w, groups);
  }

  /** No commitment is bad. */
  lemma NoMismatch(t: Tables, ps: seq<RangeProof>, counter: nat, v: Values, w: Values, groups: map<string, int>)
    requires Holding(t, ps, counter) && AllProved(ps, t, v, groups) && AllHave(ps, t, v, w, groups)
    ensures !Mismatch(t.decompositions.Keys, t, w, groups)
  {
    hide Tidy, Held, Ready, VerifierHas, SquaresMatch, RangeProof.Prod;
    forall e | e in t.decompositions ensures SquaresMatch(e, t.decompositions[e], t, w, groups) {
      assert IsProduct(e, ps);
      var i :| 0 <= i < |ps| && e == ps[i].Prod();
      assert Held(t, ps[i], counter) && Ready(ps[i], t, v, groups) && VerifierHas(ps[i], t, v, w, groups);
      OneMatches(t, ps[i], counter, v, w, groups);
    }
  }

  lemma FourNamesEach(t: Tables, ps: seq<RangeProof>, counter: nat)
    requires Holding(t, ps, counter)
    ensures forall e :: e in t.decompositions ==> |t.decompositions[e]| == 4
  {
    hide Tidy, Held, RangeProof.Prod, FourNames;
    forall e | e in t.decompositions ensures |t.decompositions[e]| == 4 {
      var i :| 0 <= i < |ps| && e == ps[i].Prod();
      assert Held(t, ps[i], counter);
      HeldHas(t, ps[i], counter);
      ProductHas(t, ps[i]);
    }
  }

  lemma IsVerified(t: Tables, start: Values, w: Values, groups: map<string, int>)
    requires forall n :: n in start && n !in t.rangeComs ==> n in w && w[n] == start[n]
    requires forall c :: c in t.rangeComs ==> c in w && ValueOf(t.rangeComs[c], w, groups) == Some(w[c])
    ensures Verifies(t, start, w, groups) && ExtendedBut(start, w, t.rangeComs.Keys)
  {
    hide ValueOf;
  }

  /** No table is for the bases of the verifier's own commitments. */
  lemma OwnFit(powers: E.Environment<Text>, ds: seq<E.Description<Text>>, descriptions: map<DLR, DLR>,
               t: Tables, ps: seq<RangeProof>, counter: nat, groups: map<string, int>, w: Values)
    requires TablesMade(powers, ds, descriptions, ps, groups) && AllHeld(t, ps, counter) && OnlyTheirs(t, ps)
    ensures powers.Valid() && Fitting(t.rangeComs, w, groups, powers)
  {
    hide *;
    MadeHas(powers, ds, descriptions, ps, groups);
    forall c | c in t.rangeComs && ValueOf(t.rangeComs[c], w, groups).Some?
      ensures Through(t.rangeComs[c], w, groups, powers).Some?
    {
      var i := OwnIndex(t, ps, counter, c);
      OneOwnFits(powers, ds, t, ps, counter, groups, w, i, c);
    }
    IsFitting(t.rangeComs, w, groups, powers);
  }

  lemma OwnIndex(t: Tables, ps: seq<RangeProof>, counter: nat, c: Text) returns (i: nat)
    requires AllHeld(t, ps, counter) && OnlyTheirs(t, ps) && c in t.rangeComs
    ensures i < |ps| && (c == ps[i].XLoCom() || c == ps[i].HiXCom()) && Held(t, ps[i], counter)
  {
    hide Held, RangeProof.XLoCom, RangeProof.HiXCom;
    assert IsOwn(c, ps);
    i :| 0 <= i < |ps| && (c == ps[i].XLoCom() || c == ps[i].HiXCom());
  }

  lemma IsFitting(coms: map<Text, DLR>, w: Values, groups: map<string, int>, powers: E.Environment<Text>)
    requires powers.Valid()
    requires forall c :: c in coms && ValueOf(coms[c], w, groups).Some? ==> Through(coms[c], w, groups, powers).Some?
    ensures Fitting(coms, w, groups, powers)
  {
    hide ValueOf, Through;
  }

  lemma OneOwnFits(powers: E.Environment<Text>, ds: seq<E.Description<Text>>, t: Tables, ps: seq<RangeProof>, counter: nat,
                   groups: map<string, int>, w: Values, i: nat, c: Text)
    requires powers.CachesMatch(ds) && Within(powers.variables, {}, {}) && TablesReady(ps, groups, powers.variables)
    requires i < |ps| && (c == ps[i].XLoCom() || c == ps[i].HiXCom()) && Held(t, ps[i], counter)
    requires c in t.rangeComs && ValueOf(t.rangeComs[c], w, groups).Some?
    ensures powers.Valid() && Through(t.rangeComs[c], w, groups, powers).Some?
  {
    hide *;
    powers.Filled(ds);
    HeldHas(t, ps[i], counter);
    XNotBound(t, ps[i], powers.variables, groups, ps, i);
    OwnBases(t, ps[i], c);
    ThroughWithout(t.rangeComs[c], w, groups, powers, ds);
  }

  lemma XNotBound(t: Tables, p: RangeProof, bound: Values, groups: map<string, int>, ps: seq<RangeProof>, i: nat)
    requires XCommitted(t, p) && Within(bound, {}, {}) && TablesReady(ps, groups, bound) && i < |ps| && ps[i] == p
    ensures p.c !in bound
  {
  }

  lemma OwnBases(t: Tables, p: RangeProof, c: Text)
    requires ContainsChecks(t, p) && (c == p.XLoCom() || c == p.HiXCom())
    ensures c in t.rangeComs && t.rangeComs[c].bases == [p.s.g, p.c]
  {
    hide SquareAt;
  }

  lemma ThroughWithout(d: DLR, w: Values, groups: map<string, int>, powers: E.Environment<Text>, ds: seq<E.Description<Text>>)
    requires powers.CachesMatch(ds) && |d.bases| == 2 && d.bases[1] !in powers.variables && ValueOf(d, w, groups).Some?
    ensures powers.Valid() && Through(d, w, groups, powers).Some?
  {
    powers.Filled(ds);
    hide E.Environment.CachesMatch, Exponents, ModExp.Product;
    ExponentsLength(d.bases, w);
    ExponentsLength(d.exps, w);
    if d.bases in powers.MultiNames() { powers.NamesHaveTables(ds, d.bases); }
  }

  /** The tables stay right for the verifier while it computes its own commitments. */
  lemma RightForVerifier(powers: E.Environment<Text>, t: Tables, v: Values, known: Values, start: Values)
    requires powers.Valid() && Extended(powers.variables, known) && Starts(t, v, known, start) && OnlyOwn(t)
    requires forall w: Values :: Extended(powers.variables, w) ==> RightTables(powers, w)
    ensures forall w: Values :: ExtendedBut(start, w, t.rangeComs.Keys) ==> RightTables(powers, w)
  {
    hide RightTables, Starts, OnlyOwn, Published, ExtendedBut;
    forall w: Values | ExtendedBut(start, w, t.rangeComs.Keys) ensures RightTables(powers, w) {
      StillKnown(t, v, known, start, w);
      ExtendedTrans(powers.variables, known, w);
    }
  }

  /** The verifier's values and its verdict on the commitments. */
  method Check(t: Tables, ghost ps: seq<RangeProof>, ghost counter: nat, groups: map<string, int>, ghost v0: Values,
               v: Values, known: Values, powers: E.Environment<Text>, ghost ds: seq<E.Description<Text>>,
               ghost descriptions: map<DLR, DLR>) returns (w: Values, badComs: bool)
    requires Holding(t, ps, counter) && AllInputs(ps, groups, v0) && AllPublic(ps, known, v0) && Within(v0, {}, {})
    requires AllProved(ps, t, v, groups) && Extended(v0, v)
    requires TablesMade(powers, ds, descriptions, ps, groups) && Extended(powers.variables, known)
    ensures AllHave(ps, t, v, w, groups) && !badComs && Extended(known, w)
  {
    hide *;
    HoldingHas(t, ps, counter);
    AreOwn(t, ps, counter);
    PublicHas(ps, known, v0);
    var start := known + Published(t, v);
    StartsFrom(t, counter, v, known, v0);
    RightForAll(powers, ds, descriptions, ps, groups);
    RightForVerifier(powers, t, v, known, start);
    var verifier := new InterpreterVerifier(start);
    var cacher := new ME.MultiExpCacher();
    RangeComsApart(t, ps, counter, groups, v0);
    FourNamesEach(t, ps, counter);
    OwnCanBeComputed(t, ps, counter, groups, v0, v, known, start);
    var ok := verifier.ComputeIntermediateValues(t, groups, powers, cacher);
    w, badComs := verifier.variables, verifier.badComs;
    IsExtendedBut(start, w, t.rangeComs.Keys);
    StillKnown(t, v, known, start, w);
    ListCheckable(t, ps, counter, v, w, groups);
    OwnFit(powers, ds, descriptions, t, ps, counter, groups, w);
    IsVerified(t, start, w, groups);
    VerifierGetsAll(t, ps, counter, groups, v0, v, known, start, w);
    NoMismatch(t, ps, counter, v, w, groups);
  }

  lemma PublicHas(ps: seq<RangeProof>, known: Values, v0: Values)
    requires AllPublic(ps, known, v0)
    ensures Extended(known, v0)
  {
    hide Extended, PublicOf;
  }

  lemma IsExtendedBut(v: Values, w: Values, names: set<Text>)
    requires forall n :: n in v && n !in names ==> n in w && w[n] == v[n]
    ensures ExtendedBut(v, w, names)
  {
  }

  // ---------- the protocol ----------

  /** What holds of every range opens all descriptions. */
  lemma RangesOpen(env: Sigma.Env, ps: seq<RangeProof>, w: Values)
    requires Describes(env.descriptions, ps)
    requires forall i :: 0 <= i < |ps| ==> RangeHolds(ps[i], env.variables, w, env.groups)
    ensures Sigma.WellFormed(env) && Sigma.Opens(env, w)
  {
    hide Holds, IsDescription, RangeHolds;
    forall d | d in env.descriptions ensures Holds(d, env.variables, w, env.groups) {
      assert DescribedBy(d, ps);
      var i :| 0 <= i < |ps| && IsDescription(d, ps[i]);
      DescriptionHolds(ps[i], d, env.variables, w, env.groups);
    }
    HoldsOpens(env, w);
  }

  /** Conversely, exponents that open all descriptions satisfy every range. */
  lemma OpensRanges(env: Sigma.Env, ps: seq<RangeProof>, w: Values, i: nat)
    requires Describes(env.descriptions, ps) && i < |ps| && Sigma.WellFormed(env) && Sigma.Opens(env, w)
    ensures RangeHolds(ps[i], env.variables, w, env.groups)
    ensures forall d :: IsDescription(d, ps[i]) ==> d in env.descriptions && env.descriptions[d] == d
  {
    hide IsDescription, RangeHolds, Sigma.Opens, Sigma.WellFormed;
    forall d | IsDescription(d, ps[i]) ensures d in env.descriptions && env.descriptions[d] == d {
      assert DescribedBy(d, ps);
    }
    OpensRange(ps[i], env, w);
  }

  lemma RangesInGroup(env: Sigma.Env, ps: seq<RangeProof>)
    requires Describes(env.descriptions, ps) && Sigma.WellFormed(env)
    requires forall i :: 0 <= i < |ps| ==> UnitsOf(ps[i], env)
    ensures Sigma.InGroup(env)
  {
    hide IsDescription, UnitsOf;
    forall k | k in env.descriptions
      ensures var d := env.descriptions[k];
        Sigma.DLRWellFormed(env, d) && UnitsIn(env, d)
    {
      assert DescribedBy(k, ps);
      var i :| 0 <= i < |ps| && IsDescription(k, ps[i]);
      assert Sigma.DLRWellFormed(env, env.descriptions[k]) && UnitsOf(ps[i], env);
      OneInGroup(env, ps[i], k);
    }
    hide Sigma.DLRWellFormed;
  }

  ghost predicate UnitsOf(p: RangeProof, env: Sigma.Env) {
    p.s.group in env.groups && 1 < env.groups[p.s.group] && UnitElements(p, env.variables, env.groups[p.s.group])
  }

  ghost predicate UnitsIn(env: Sigma.Env, d: DLR)
    requires Sigma.DLRWellFormed(env, d)
  {
    Group.AllUnits(Sigma.Lookup(env.variables, d.bases), env.groups[d.group])
    && ModExp.Unit(env.variables[d.left], env.groups[d.group])
  }

  lemma OneInGroup(env: Sigma.Env, p: RangeProof, d: DLR)
    requires Sigma.DLRWellFormed(env, d) && IsDescription(d, p) && UnitsOf(p, env)
    ensures UnitsIn(env, d)
  {
    DescriptionElements(d, p);
    hide IsDescription, ElementNames, ModExp.Unit;
  }

  lemma RangesSeen(env: Sigma.Env, seen: Sigma.Env, ps: seq<RangeProof>)
    requires Describes(env.descriptions, ps) && Sigma.WellFormed(env)
    requires seen.groups == env.groups && seen.descriptions == env.descriptions
    requires forall i :: 0 <= i < |ps| ==> AllShared(ps[i], env.variables, seen.variables)
    ensures Sigma.SameElements(env, seen)
  {
    hide IsDescription, AllShared;
    forall k | k in env.descriptions
      ensures var d := env.descriptions[k];
        Sigma.DLRWellFormed(env, d) && Sigma.DLRWellFormed(seen, d)
        && seen.variables[d.left] == env.variables[d.left]
        && Sigma.Lookup(seen.variables, d.bases) == Sigma.Lookup(env.variables, d.bases)
    {
      assert DescribedBy(k, ps);
      var i :| 0 <= i < |ps| && IsDescription(k, ps[i]);
      assert Sigma.DLRWellFormed(env, env.descriptions[k]) && AllShared(ps[i], env.variables, seen.variables);
      OneSeen(env, seen, ps[i], k);
    }
  }

  ghost predicate AllShared(p: RangeProof, v: Values, w: Values) {
    forall n :: n in ElementNames(p) ==> SharedName(n, v, w)
  }

  lemma OneSeen(env: Sigma.Env, seen: Sigma.Env, p: RangeProof, d: DLR)
    requires Sigma.DLRWellFormed(env, d) && IsDescription(d, p) && AllShared(p, env.variables, seen.variables)
    requires seen.groups == env.groups
    ensures Sigma.DLRWellFormed(seen, d) && seen.variables[d.left] == env.variables[d.left]
    ensures Sigma.Lookup(seen.variables, d.bases) == Sigma.Lookup(env.variables, d.bases)
  {
    DescriptionElements(d, p);
    hide IsDescription, ElementNames;
  }

  /** An honest range satisfies its descriptions with elements that both sides share. */
  lemma HonestOne(t: Tables, p: RangeProof, v: Values, w: Values, groups: map<string, int>, env: Sigma.Env)
    requires Ready(p, t, v, groups) && VerifierHas(p, t, v, w, groups) && env.variables == v && env.groups == groups
    ensures RangeHolds(p, v, v, groups) && UnitsOf(p, env) && AllShared(p, v, w)
  {
    hide *;
    ReadyHas(p, t, v, groups);
    var x, low, high, r := Exponent(p.x, v).value, Exponent(p.low, v).value, Exponent(p.high, v).value, Exponent(p.r, v).value;
    RangeComplete(p, t, v, groups, x, low, high, r);
    GroundedBases(p.s, v, groups);
    ElementsAreUnits(p, t, v, groups, x, low, high, r);
    ElementsAreSame(p, t, v, w, groups);
    AreUnits(p, env);
    AreShared(p, v, w);
  }

  lemma AreUnits(p: RangeProof, env: Sigma.Env)
    requires p.s.group in env.groups && 1 < env.groups[p.s.group] && UnitElements(p, env.variables, env.groups[p.s.group])
    ensures UnitsOf(p, env)
  {
    hide UnitElements;
  }

  lemma AreShared(p: RangeProof, v: Values, w: Values)
    requires forall n :: n in ElementNames(p) ==> SharedName(n, v, w)
    ensures AllShared(p, v, w)
  {
    hide ElementNames, SharedName;
  }

  lemma ProtocolReady(t: Tables, ps: seq<RangeProof>, v: Values, w: Values, groups: map<string, int>,
                      env: Sigma.Env, seen: Sigma.Env)
    requires AllProved(ps, t, v, groups) && AllHave(ps, t, v, w, groups) && Describes(env.descriptions, ps)
    requires env.variables == v && env.groups == groups
    requires seen.variables == w && seen.groups == groups && seen.descriptions == env.descriptions
    ensures Sigma.WellFormed(env) && Sigma.InGroup(env) && Sigma.Opens(env, env.variables) && Sigma.SameElements(env, seen)
  {
    hide Ready, VerifierHas, RangeHolds, UnitsOf, AllShared, Describes, Sigma.Opens, Sigma.WellFormed, Sigma.InGroup, Sigma.SameElements;
    forall i | 0 <= i < |ps|
      ensures RangeHolds(ps[i], v, v, groups) && UnitsOf(ps[i], env) && AllShared(ps[i], v, w)
    {
      assert Ready(ps[i], t, v, groups) && VerifierHas(ps[i], t, v, w, groups);
      HonestOne(t, ps[i], v, w, groups, env);
    }
    RangesOpen(env, ps, v);
    RangesInGroup(env, ps);
    RangesSeen(env, seen, ps);
  }

  // ---------- a whole run ----------

  /** What a request needs of the groups and of the prover's and the public values, with
      x in the range; a commitment of the program's has a value that commits to x. */
  ghost predicate Given(p: RangeProof, groups: map<string, int>, v0: Values, known: Values) {
    && p.s.group in groups && 1 < groups[p.s.group]
    && p.s.g in v0 && p.s.h in v0 && Pedersen.Bases(v0[p.s.g], v0[p.s.h], groups[p.s.group])
    && InRange(p, v0) && (Declared(p) ==> DeclaredRight(p, groups, v0)) && PublicOf(p, known, v0)
  }

  ghost predicate AllGiven(rs: seq<Request>, d: Program, groups: map<string, int>, v0: Values, known: Values) {
    forall i :: 0 <= i < |rs| ==> Stated(rs[i], d) && Given(ProofOf(rs[i], d, 6 * i), groups, v0, known)
  }

  lemma AllStated(rs: seq<Request>, d: Program, groups: map<string, int>, v0: Values, known: Values)
    requires AllGiven(rs, d, groups, v0, known)
    ensures forall i :: 0 <= i < |rs| ==> Stated(rs[i], d) && Translatable(rs[i], d)
  {
    hide Given, ProofOf, UserText;
  }

  lemma GivenToAll(ps: seq<RangeProof>, rs: seq<Request>, d: Program, groups: map<string, int>, v0: Values, known: Values)
    requires forall i :: 0 <= i < |rs| ==> Translatable(rs[i], d)
    requires ps == Proofs(rs, d) && Extended(known, v0) && AllGiven(rs, d, groups, v0, known)
    ensures AllInputs(ps, groups, v0) && AllPublic(ps, known, v0)
  {
    hide Stated, Given, Inputs, InRange, PublicOf, Extended, Answers, ProofOf, Translatable;
    forall i | 0 <= i < |ps| ensures Inputs(ps[i], groups, v0) && InRange(ps[i], v0) && PublicOf(ps[i], known, v0) {
      ProofAnswers(rs[i], d, 6 * i);
      GivenTo(ps[i], rs[i], d, groups, v0, known);
    }
  }

  lemma GivenTo(p: RangeProof, r: Request, d: Program, groups: map<string, int>, v0: Values, known: Values)
    requires Answers(p, r, d) && Stated(r, d) && Given(p, groups, v0, known)
    ensures Inputs(p, groups, v0) && InRange(p, v0) && PublicOf(p, known, v0)
  {
    AnswerIsNew(p, r, d);
    hide Exponent, Pedersen.Bases, UserText, Answers, Stated, Pedersen.Com;
  }

  /** All exponents of the prover's commitments, and of both sides of the protocol, are short
      enough for the tables where these are used. */
  ghost predicate TablesAllow(coms: map<Text, DLR>, env: Sigma.Env, bound: Values, nonces: Text -> int, challenge: int) {
    && ComsShort(coms, bound, env.variables, env.groups)
    && Sigma.Short(env, bound, nonces) && Sigma.Short(env, bound, Sigma.Answer(env, nonces, challenge))
  }

  /** Without tables nothing is too long. */
  lemma NothingTooLong(coms: map<Text, DLR>, env: Sigma.Env, nonces: Text -> int, challenge: int)
    ensures TablesAllow(coms, env, map[], nonces, challenge)
  {
    hide ValueOf, Exponents, Sigma.Answer;
    var none: Values := map[];
    forall names: seq<Text> ensures !E.HasTable(none, names) {
      assert E.WidthFor(0) == 0 && (|names| > 0 ==> names[0] !in none);
    }
    hide E.HasTable;
    forall c | c in coms && ValueOf(coms[c], env.variables, env.groups).Some? ensures Exponents(coms[c].exps, env.variables).Some? {
      ValueParts(coms[c], env.variables, env.groups);
    }
  }

  /** Descriptions over bases that have tables are in groups with the same modulus. */
  lemma GroupsAgree(env: Sigma.Env, ps: seq<RangeProof>, bound: Values)
    requires Describes(env.descriptions, ps) && TablesReady(ps, env.groups, bound) && Within(bound, {}, {})
    requires Sigma.WellFormed(env)
    ensures Sigma.TablesAgree(env, bound)
  {
    hide IsDescription, E.HasTable, TablesReady, Within, Sigma.WellFormed;
    forall k, l | k in env.descriptions && l in env.descriptions
                  && Sigma.SameTable(bound, env.descriptions[k], env.descriptions[l])
      ensures Sigma.DLRWellFormed(env, env.descriptions[k]) && Sigma.DLRWellFormed(env, env.descriptions[l])
        && env.groups[env.descriptions[k].group] == env.groups[env.descriptions[l].group]
    {
      WellFormedOne(env, k);
      WellFormedOne(env, l);
      assert DescribedBy(k, ps);
      var i :| 0 <= i < |ps| && IsDescription(k, ps[i]);
      DescriptionElements(k, ps[i]);
      TableNames(bound, k);
      OverProgramNames(k, ps[i]);
      SameModulus(env.descriptions, ps, env.groups, bound, l, i);
    }
    hide Sigma.DLRWellFormed;
  }

  lemma WellFormedOne(env: Sigma.Env, k: DLR)
    requires Sigma.WellFormed(env) && k in env.descriptions
    ensures Sigma.DLRWellFormed(env, env.descriptions[k])
  {
    hide Sigma.DLRWellFormed;
  }

  lemma TableNames(bound: Values, d: DLR)
    requires E.HasTable(bound, d.bases) && Within(bound, {}, {}) && |d.bases| == 2
    ensures UserName(d.bases[0])
  {
  }

  lemma StillTheSame(bound: Values, env: Sigma.Env)
    requires Extended(bound, env.variables)
    ensures Sigma.StillBound(bound, env)
  {
  }

  lemma BoundWithin(bound: Values, v: Values)
    requires Extended(bound, v) && Within(v, {}, {})
    ensures Within(bound, {}, {})
  {
    hide UserName;
  }

  /** A whole run for any number of ranges, in any groups, over commitments of the program's
      or new ones: translation, tables from the values bound at that time, the prover, the
      verifier and the protocol. Values in their ranges are accepted, whatever the randomness,
      the nonces and the challenge, exactly when no two ranges have the same product and no
      exponent that is used with a table is too long for it. The ghost results are what this
      is about: the tables, and the environment with the prover's values. */
  method HonestRanges(rs: seq<Request>, d: Program, groups: map<string, int>, v0: Values, known: Values, bound: Values,
                      fourSquares: int -> seq<int>, random: Text -> int, nonces: Text -> int, challenge: int)
    returns (accepted: bool, ghost t: Tables, ghost env: Sigma.Env)
    requires Apart(rs) && Decomposes(fourSquares) && Within(v0, {}, {}) && Extended(known, v0) && Extended(bound, known)
    requires AllGiven(rs, d, groups, v0, known) && TablesReady(Proofs(rs, d), groups, bound)
    ensures accepted <==> DifferentProducts(rs) && TablesAllow(t.comsToCompute, env, bound, nonces, challenge)
    ensures Entered(t, Proofs(rs, d), d, 6 * |rs|) && Describes(env.descriptions, Proofs(rs, d))
    ensures env.groups == groups && Extended(v0, env.variables)
    ensures DifferentProducts(rs) ==> HonestValues(t, env.variables, random, fourSquares)
    ensures bound == map[] ==> (accepted <==> DifferentProducts(rs))
  {
    hide *;
    AllStated(rs, d, groups, v0, known);
    ghost var ps, counter := Proofs(rs, d), 6 * |rs|;
    var tables, descriptions := Translate(rs, d);
    t := tables;
    GivenToAll(ps, rs, d, groups, v0, known);
    ProofsAnswer(rs, d);
    SameProducts(ps, rs, d);
    ExtendedTrans(bound, known, v0);
    BoundWithin(bound, v0);
    ghost var ds;
    var powers;
    powers, ds := MakeTables(descriptions, ps, groups, bound);
    RightForAll(powers, ds, descriptions, ps, groups);
    RightForProver(powers, v0);
    var proved, v := Prove(tables, ps, d, counter, groups, v0, fourSquares, random, powers);
    env := Sigma.Env(v, groups, descriptions);
    ExtendedTrans(bound, v0, v);
    EnteredHas(t, ps, d, counter);
    FittingIff(powers, ds, descriptions, ps, groups, t.comsToCompute, v);
    AllowIs(t.comsToCompute, env, bound, nonces, challenge);
    if bound == map[] { NothingTooLong(t.comsToCompute, env, nonces, challenge); }
    if !proved { return false, t, env; }
    EnteredHolds(t, ps, d, counter);
    var w, badComs := Check(tables, ps, counter, groups, v0, v, known, powers, ds, descriptions);
    if badComs { return false, t, env; }
    var mine, seen := Sigma.Env(v, groups, descriptions), Sigma.Env(w, groups, descriptions);
    ProtocolReady(t, ps, v, w, groups, mine, seen);
    ExtendedTrans(bound, known, w);
    StillTheSame(bound, mine);
    StillTheSame(bound, seen);
    GroupsAgree(mine, ps, bound);
    accepted := Sigma.HonestRun(mine, seen, bound, nonces, challenge);
  }

  lemma AllowIs(coms: map<Text, DLR>, env: Sigma.Env, bound: Values, nonces: Text -> int, challenge: int)
    ensures TablesAllow(coms, env, bound, nonces, challenge) <==>
      ComsShort(coms, bound, env.variables, env.groups)
      && Sigma.Short(env, bound, nonces) && Sigma.Short(env, bound, Sigma.Answer(env, nonces, challenge))
  {
    hide ComsShort, Sigma.Short, Sigma.Answer;
  }

  lemma RightForProver(powers: E.Environment<Text>, v0: Values)
    requires powers.Valid() && Extended(powers.variables, v0)
    requires forall w: Values :: Extended(powers.variables, w) ==> RightTables(powers, w)
    ensures forall w: Values :: Extended(v0, w) ==> RightTables(powers, w)
  {
    hide RightTables;
    forall w: Values | Extended(v0, w) ensures RightTables(powers, w) {
      ExtendedTrans(powers.variables, v0, w);
    }
  }

  /** Soundness for any number of ranges: two accepted challenges after one first message
      open the commitment of every range to a number between its bounds, or relate its
      bases, all with the same extracted exponents. */
  lemma RangesExtracted(t: Tables, ps: seq<RangeProof>, counter: nat, i: nat, env: Sigma.Env, ts: map<DLR, int>,
                        c1: int, r1: map<Text, int>, c2: int, r2: map<Text, int>, q: int, inv: int, turns: int,
                        low: int, high: int)
    requires AllHeld(t, ps, counter) && Describes(env.descriptions, ps) && i < |ps|
    requires Sigma.WellFormed(env) && Sigma.InGroup(env) && (c1 - c2) * inv == 1 + turns * q && Sigma.OrdersDivide(env, q)
    requires Sigma.Accepted(env, ts, c1, r1) && Sigma.Accepted(env, ts, c2, r2)
    requires !Mismatch(t.decompositions.Keys, t, env.variables, env.groups)
    requires forall c :: c in t.rangeComs ==>
      c in env.variables && ValueOf(t.rangeComs[c], env.variables, env.groups) == Some(env.variables[c])
    requires Grounded(ps[i].s, env.variables, env.groups) && 1 < env.groups[ps[i].s.group] && ps[i].ProdCom() in env.variables
    requires ps[i].c in env.variables && Exponent(ps[i].c, env.variables) == Some(env.variables[ps[i].c])
    requires ModExp.Unit(env.variables[ps[i].c], env.groups[ps[i].s.group])
    requires Exponent(ps[i].low, env.variables) == Some(low) && Exponent(ps[i].high, env.variables) == Some(high)
    ensures var xs := Sigma.Extracted(r1, r2, inv);
      && Sigma.Opens(env, xs) && HasWitness(ps[i], xs) && Says(ps[i], env.variables, xs, env.groups, low, high)
      && (low <= high && !(low <= OpenedTo(ps[i], xs, high) <= high) ==> GExponent(ps[i], xs, low, high) != 0)
  {
    hide Sigma.Opens, Sigma.Accepted, Sigma.InGroup, Sigma.WellFormed, Sigma.OrdersDivide, Held, Describes,
         Mismatch, Exponent, ValueOf, Grounded, ModExp.Unit, Says, HasWitness, OpenedTo, GExponent;
    assert Held(t, ps[i], counter);
    HeldHas(t, ps[i], counter);
    TheyDescribe(env.descriptions, ps, i);
    RangeExtracted(ps[i], t, env, ts, c1, r1, c2, r2, q, inv, turns, low, high);
  }

  lemma TheyDescribe(output: map<DLR, DLR>, ps: seq<RangeProof>, i: nat)
    requires Describes(output, ps) && i < |ps|
    ensures forall d :: IsDescription(d, ps[i]) ==> d in output && output[d] == d
  {
    hide IsDescription;
    forall d | IsDescription(d, ps[i]) ensures d in output && output[d] == d {
      assert DescribedBy(d, ps);
    }
  }
}
