/** That nothing is missing when the values of a translated range are computed. */
module RangeEvaluation {
  import opened Ast
  import opened Translator
  import opened Interpreters
  import opened RangeProofs
  import opened RangeTables
  import Pedersen
  import Sigma

  ghost predicate Has(e: Text, w: Values) {
    Exponent(e, w).Some?
  }

  lemma HasOps(a: Text, b: Text, w: Values)
    requires Has(a, w) && Has(b, w)
    ensures Has(SubText(a, b), w) && Has(AddText(a, b), w) && Has(MulText(a, b), w) && Has(Neg(a), w)
  {
    hide Exponent;
    SubValue(a, b, w);
    AddValue(a, b, w);
    MulValue(a, b, w);
    NegValue(a, w);
  }

  /** The compound parts of a description evaluate when its exponents do. */
  lemma PartsEvaluate(d: DLR, w: Values)
    requires |d.bases| == 2 && |d.exps| == 2 && d.bases[0].Id? && d.bases[1].Id? && Has(d.exps[0], w) && Has(d.exps[1], w)
    ensures AllEvaluate(Parts(d), w)
  {
    hide Exponent;
    forall e | e in Parts(d) ensures Exponent(e, w).Some? {
      assert e in d.exps;
      assert e == d.exps[0] || e == d.exps[1];
    }
  }

  lemma MoreEvaluate(a: set<Text>, b: set<Text>, w: Values)
    requires AllEvaluate(a, w) && AllEvaluate(b, w)
    ensures AllEvaluate(a + b, w)
  {
    hide Exponent;
  }

  /** A commitment can be computed when its bases and exponents have values. */
  lemma ComHasValue(s: Setting, left: Text, a: Text, b: Text, w: Values, groups: map<string, int>)
    requires s.group in groups && 1 < groups[s.group] && Has(s.g, w) && Has(s.h, w) && Has(a, w) && Has(b, w)
    ensures ValueOf(Com(s, left, a, b), w, groups).Some?
  {
    hide Exponent, ValueOf, Pedersen.Com;
    PairValue(left, s.group, s.g, s.h, a, b, w, groups);
  }

  lemma MoreValues(coms: map<Text, DLR>, c: Text, d: DLR, w: Values, groups: map<string, int>)
    requires AllHaveValues(coms, w, groups) && ValueOf(d, w, groups).Some?
    ensures AllHaveValues(coms[c := d], w, groups)
  {
    hide ValueOf;
  }

  /** The setting's bases and the group are known. */
  ghost predicate Known(s: Setting, w: Values, groups: map<string, int>) {
    && s.group in groups && 1 < groups[s.group] && s.g.Id? && s.h.Id? && Has(s.g, w) && Has(s.h, w)
  }

  /** The names of a square have values. */
  ghost predicate SquareReady(r: Text, k: nat, i: nat, w: Values) {
    Has(Decomp(k + i), w) && Has(RandDecomp(k + i), w) && Has(Square(k + i), w) && Has(SquareRand(r, k, i), w)
  }

  lemma SquareWorks(t: Tables, s: Setting, r: Text, k: nat, i: nat, w: Values, groups: map<string, int>)
    requires AllEvaluate(t.expressions, w) && AllHaveValues(t.comsToCompute, w, groups)
    requires Known(s, w, groups) && SquareReady(r, k, i, w)
    ensures var u := WithSquare(t, s, r, k, i); AllEvaluate(u.expressions, w) && AllHaveValues(u.comsToCompute, w, groups)
  {
    hide Has, WithSquare, AllEvaluate, AllHaveValues, SquareRand, Decomp, RandDecomp, Square, DecompCom, SquareCom;
    var d, b, j := SquareProof(s, r, k, i), BaseDLR(s, k + i), k + i;
    ComNameIs(j);
    HasOps(Decomp(j), RandDecomp(j), w);
    HasOps(SquareRand(r, k, i), MulText(Decomp(j), RandDecomp(j)), w);
    PartsEvaluate(d, w);
    PartsEvaluate(b, w);
    SquareParts(t, s, r, k, i);
    MoreEvaluate(t.expressions, Parts(d), w);
    MoreEvaluate(t.expressions + Parts(d), Parts(b), w);
    SquareFields(t, s, r, k, i);
    ComHasValue(s, DecompCom(j), Decomp(j), RandDecomp(j), w, groups);
    ComHasValue(s, SquareCom(j), Square(j), SquareRand(r, k, i), w, groups);
    MoreValues(t.comsToCompute, DecompCom(j), b, w, groups);
    MoreValues(t.comsToCompute[DecompCom(j) := b], SquareCom(j), SquareDLR(s, r, k, i), w, groups);
  }

  lemma ComNameIs(j: nat)
    ensures DecompCom(j).Id?
  {
  }

  lemma {:induction false} SquaresWork(t: Tables, s: Setting, r: Text, k: nat, n: nat, w: Values, groups: map<string, int>)
    requires AllEvaluate(t.expressions, w) && AllHaveValues(t.comsToCompute, w, groups) && Known(s, w, groups)
    requires forall i :: 0 <= i < n ==> SquareReady(r, k, i, w)
    ensures var u := WithSquares(t, s, r, k, n); AllEvaluate(u.expressions, w) && AllHaveValues(u.comsToCompute, w, groups)
  {
    hide AllEvaluate, AllHaveValues, WithSquare, Known, SquareReady;
    if n > 0 {
      SquaresWork(t, s, r, k, n - 1, w, groups);
      SquareWorks(WithSquares(t, s, r, k, n - 1), s, r, k, n - 1, w, groups);
    }
  }

  /** x, the bounds and the randomness have values. */
  ghost predicate BoundsReady(p: RangeProof, w: Values) {
    Has(p.x, w) && Has(p.low, w) && Has(p.high, w) && Has(p.r, w) && Has(p.R1(), w)
  }

  lemma BoundsWork(t: Tables, p: RangeProof, w: Values, groups: map<string, int>)
    requires AllEvaluate(t.expressions, w) && AllHaveValues(t.comsToCompute, w, groups)
    requires Known(p.s, w, groups) && BoundsReady(p, w)
    ensures var u := BeforeSquares(t, p); AllEvaluate(u.expressions, w) && AllHaveValues(u.comsToCompute, w, groups)
    ensures Has(p.Prod(), w)
  {
    hide Has, AllHaveValues, AllEvaluate, BeforeSquares;
    HasOps(p.x, p.low, w);
    HasOps(p.high, p.x, w);
    HasOps(p.XLo(), p.HiX(), w);
    HasOps(p.r, p.r, w);
    HasOps(p.HiX(), p.r, w);
    HasOps(p.R1(), MulText(p.HiX(), p.r), w);
    BoundsFields(t, p);
    PartsEvaluate(p.ProdProof(), w);
    PartsEvaluate(p.HiXDLR(), w);
    FourEvaluate(p.XLo(), p.HiX(), p.Prod(), p.NegR(), w);
    MoreEvaluate(t.expressions, {p.XLo(), p.HiX(), p.Prod(), p.NegR()}, w);
    MoreEvaluate(t.expressions + {p.XLo(), p.HiX(), p.Prod(), p.NegR()}, Parts(p.ProdProof()), w);
    MoreEvaluate(t.expressions + {p.XLo(), p.HiX(), p.Prod(), p.NegR()} + Parts(p.ProdProof()), Parts(p.HiXDLR()), w);
    ComHasValue(p.s, p.XLoCom(), p.XLo(), p.r, w, groups);
    ComHasValue(p.s, p.HiXCom(), p.HiX(), p.NegR(), w, groups);
    ComHasValue(p.s, p.ProdCom(), p.Prod(), p.R1(), w, groups);
    MoreValues(t.comsToCompute, p.XLoCom(), p.XLoDLR(), w, groups);
    MoreValues(t.comsToCompute[p.XLoCom() := p.XLoDLR()], p.HiXCom(), p.HiXDLR(), w, groups);
    MoreValues(t.comsToCompute[p.XLoCom() := p.XLoDLR()][p.HiXCom() := p.HiXDLR()], p.ProdCom(), p.ProdDLR(), w, groups);
  }

  lemma FourEvaluate(a: Text, b: Text, c: Text, d: Text, w: Values)
    requires Has(a, w) && Has(b, w) && Has(c, w) && Has(d, w)
    ensures AllEvaluate({a, b, c, d}, w)
  {
    hide Exponent;
  }

  ghost predicate SquaresReady(r: Text, k: nat, w: Values) {
    SquareReady(r, k, 0, w) && SquareReady(r, k, 1, w) && SquareReady(r, k, 2, w) && SquareReady(r, k, 3, w)
  }

  lemma EachReady(r: Text, k: nat, i: nat, w: Values)
    requires SquaresReady(r, k, w) && i < 4
    ensures SquareReady(r, k, i, w)
  {
    hide SquareReady;
    assert i == 0 || i == 1 || i == 2 || i == 3;
  }

  /** All expressions and commitments of a translated range can be computed. */
  lemma TranslatedWorks(t: Tables, p: RangeProof, w: Values, groups: map<string, int>)
    requires AllEvaluate(t.expressions, w) && AllHaveValues(t.comsToCompute, w, groups)
    requires Known(p.s, w, groups) && BoundsReady(p, w)
    requires SquaresReady(p.R1(), p.k + 1, w)
    ensures var u := p.Translated(t); AllEvaluate(u.expressions, w) && AllHaveValues(u.comsToCompute, w, groups)
  {
    hide *;
    var r, k := p.R1(), p.k + 1;
    forall i: nat | i < 4 ensures SquareReady(r, k, i, w) {
      EachReady(r, k, i, w);
    }
    BoundsWork(t, p, w, groups);
    SquaresWork(BeforeSquares(t, p), p.s, p.R1(), p.k + 1, 4, w, groups);
    TranslatedIs(t, p);
  }

  // ---------- names with values ----------

  /** The randoms of a range. */
  ghost predicate RandomsIn(p: RangeProof, w: Values) {
    var k := p.k + 1;
    && p.R1() in w && RandDecomp(k) in w && RandDecomp(k + 1) in w && RandDecomp(k + 2) in w && RandDecomp(k + 3) in w
    && RandSquare(k) in w && RandSquare(k + 1) in w && RandSquare(k + 2) in w
  }

  lemma RandomsFrom(t: Tables, p: RangeProof, w: Values)
    requires Contains(t, p) && HasRandoms(t, w)
    ensures RandomsIn(p, w)
  {
    assert ContainsSquare(t, p, 0) && ContainsSquare(t, p, 1) && ContainsSquare(t, p, 2) && ContainsSquare(t, p, 3);
    RandomsListed(t, p);
    hide Contains, ContainsSquare;
  }

  lemma RandomsListed(t: Tables, p: RangeProof)
    requires Contains(t, p)
    ensures var k := p.k + 1;
      p.R1() in t.randoms && RandDecomp(k) in t.randoms && RandDecomp(k + 1) in t.randoms && RandDecomp(k + 2) in t.randoms
      && RandDecomp(k + 3) in t.randoms && RandSquare(k) in t.randoms && RandSquare(k + 1) in t.randoms
      && RandSquare(k + 2) in t.randoms
  {
    assert ContainsSquare(t, p, 0) && ContainsSquare(t, p, 1) && ContainsSquare(t, p, 2) && ContainsSquare(t, p, 3);
  }

  /** The numbers and squares of a decomposition. */
  ghost predicate SquaresHave(k: nat, w: Values) {
    && Decomp(k) in w && Decomp(k + 1) in w && Decomp(k + 2) in w && Decomp(k + 3) in w
    && Square(k) in w && Square(k + 1) in w && Square(k + 2) in w && Square(k + 3) in w
  }

  lemma SquaresFrom(t: Tables, e: Text, k: nat, w: Values)
    requires e in t.decompositions && t.decompositions[e] == FourNames(k, 4) && HasSquares(t, w)
    ensures SquaresHave(k, w)
  {
    var names := FourNames(k, 4);
    assert HasNames(names, w);
    assert names[0] == DecompNames(Decomp(k), Square(k)) && names[1] == DecompNames(Decomp(k + 1), Square(k + 1));
    assert names[2] == DecompNames(Decomp(k + 2), Square(k + 2)) && names[3] == DecompNames(Decomp(k + 3), Square(k + 3));
    assert names[0].decomp in w && names[1].decomp in w && names[2].decomp in w && names[3].decomp in w;
  }

  lemma ReadyFromNames(p: RangeProof, w: Values)
    requires RandomsIn(p, w) && SquaresHave(p.k + 1, w)
    ensures SquaresReady(p.R1(), p.k + 1, w) && Has(p.R1(), w)
  {
    var k := p.k + 1;
    NamesHave(p, w);
    hide Has, RandomsIn, SquaresHave;
    HasOps(RandSquare(k), RandSquare(k + 1), w);
    HasOps(AddText(RandSquare(k), RandSquare(k + 1)), RandSquare(k + 2), w);
    HasOps(p.R1(), AddText(AddText(RandSquare(k), RandSquare(k + 1)), RandSquare(k + 2)), w);
  }

  lemma NamesHave(p: RangeProof, w: Values)
    requires RandomsIn(p, w) && SquaresHave(p.k + 1, w)
    ensures var k := p.k + 1;
      Has(p.R1(), w) && Has(RandDecomp(k), w) && Has(RandDecomp(k + 1), w) && Has(RandDecomp(k + 2), w)
      && Has(RandDecomp(k + 3), w) && Has(RandSquare(k), w) && Has(RandSquare(k + 1), w) && Has(RandSquare(k + 2), w)
    ensures var k := p.k + 1;
      Has(Decomp(k), w) && Has(Decomp(k + 1), w) && Has(Decomp(k + 2), w) && Has(Decomp(k + 3), w)
      && Has(Square(k), w) && Has(Square(k + 1), w) && Has(Square(k + 2), w) && Has(Square(k + 3), w)
  {
  }
}
