/** What a translated range proof proves: for every value in the range the prover's
    values satisfy all descriptions and the verifier's checks, and whatever satisfies
    them is in the range. */
module RangeProofs {
  import opened Ast
  import opened Translator
  import opened Interpreters
  import opened Arithmetic
  import opened ModExp
  import Group
  import Pedersen
  import Sigma

  /** A description holds of the values of elements and exponents. */
  ghost predicate Holds(d: DLR, elements: Values, exps: Values, groups: map<string, int>) {
    && d.group in groups && 1 < groups[d.group] && |d.bases| == |d.exps| && d.left in elements
    && Sigma.Defined(elements, d.bases) && Sigma.Defined(exps, d.exps)
    && Cong(elements[d.left], Product(Sigma.Lookup(elements, d.bases), Sigma.Lookup(exps, d.exps), groups[d.group]),
            groups[d.group])
  }

  /** The descriptions of a range proof: of the product, of high - x, and for each of
      the four squares of the square and of its root. */
  ghost predicate RangeHolds(p: RangeProof, elements: Values, exps: Values, groups: map<string, int>) {
    && Holds(p.ProdProof(), elements, exps, groups) && Holds(p.HiXDLR(), elements, exps, groups)
    && forall i :: 0 <= i < 4 ==> SquareHolds(p, i, elements, exps, groups)
  }

  ghost predicate SquareHolds(p: RangeProof, i: nat, elements: Values, exps: Values, groups: map<string, int>) {
    && Holds(SquareProof(p.s, p.R1(), p.k + 1, i), elements, exps, groups)
    && Holds(BaseDLR(p.s, p.k + 1 + i), elements, exps, groups)
  }

  /** All of a range proof's entries are in the tables. */
  ghost predicate Contains(t: Tables, p: RangeProof) {
    && {p.XLo(), p.HiX(), p.Prod(), p.NegR(), p.ProdProof().exps[1]} <= t.expressions
    && p.R1() in t.randoms
    && p.XLoCom() in t.comsToCompute && t.comsToCompute[p.XLoCom()] == p.XLoDLR()
    && p.HiXCom() in t.comsToCompute && t.comsToCompute[p.HiXCom()] == p.HiXDLR()
    && p.ProdCom() in t.comsToCompute && t.comsToCompute[p.ProdCom()] == p.ProdDLR()
    && p.Prod() in t.decompositions && t.decompositions[p.Prod()] == FourNames(p.k + 1, 4)
    && forall i :: 0 <= i < 4 ==> ContainsSquare(t, p, i)
  }

  ghost predicate ContainsSquare(t: Tables, p: RangeProof, i: nat) {
    && SquareProof(p.s, p.R1(), p.k + 1, i).exps[1] in t.expressions
    && RandDecomp(p.k + 1 + i) in t.randoms && (i < 3 ==> RandSquare(p.k + 1 + i) in t.randoms)
    && DecompCom(p.k + 1 + i) in t.comsToCompute && t.comsToCompute[DecompCom(p.k + 1 + i)] == BaseDLR(p.s, p.k + 1 + i)
    && SquareCom(p.k + 1 + i) in t.comsToCompute
    && t.comsToCompute[SquareCom(p.k + 1 + i)] == SquareDLR(p.s, p.R1(), p.k + 1, i)
  }

  // ---------- completeness ----------

  /** The setting's bases are units with values. */
  ghost predicate Grounded(s: Setting, v: Values, groups: map<string, int>) {
    && s.group in groups && s.g in v && s.h in v && Pedersen.Bases(v[s.g], v[s.h], groups[s.group])
    && Exponent(s.g, v) == Some(v[s.g]) && Exponent(s.h, v) == Some(v[s.h])
  }

  lemma PairExponents(a: Text, b: Text, v: Values)
    requires Exponent(a, v).Some? && Exponent(b, v).Some?
    ensures Exponents([a, b], v) == Some([Exponent(a, v).value, Exponent(b, v).value])
  {
    hide Exponent;
    OneExponent(a, v);
    assert [a, b][..1] == [a] && [a, b][1] == b;
    assert [Exponent(a, v).value] + [Exponent(b, v).value] == [Exponent(a, v).value, Exponent(b, v).value];
  }

  lemma OneExponent(a: Text, v: Values)
    requires Exponent(a, v).Some?
    ensures Exponents([a], v) == Some([Exponent(a, v).value])
  {
    hide Exponent;
    assert [a][..0] == [] && [a][0] == a;
    assert Exponents([], v) == Some([]);
    assert [] + [Exponent(a, v).value] == [Exponent(a, v).value];
  }

  lemma OpValue(op: Op, a: Text, b: Text, v: Values)
    requires Exponent(a, v).Some? && Exponent(b, v).Some?
    ensures Exponent(Bin(op, a, b), v) == Operate(op, Exponent(a, v).value, Exponent(b, v).value)
  {
    hide Operate;
  }

  lemma SubValue(a: Text, b: Text, v: Values)
    requires Exponent(a, v).Some? && Exponent(b, v).Some?
    ensures Exponent(SubText(a, b), v) == Some(Exponent(a, v).value - Exponent(b, v).value)
  {
    hide Exponent;
    OpValue(Subtract, a, b, v);
  }

  lemma AddValue(a: Text, b: Text, v: Values)
    requires Exponent(a, v).Some? && Exponent(b, v).Some?
    ensures Exponent(AddText(a, b), v) == Some(Exponent(a, v).value + Exponent(b, v).value)
  {
    hide Exponent;
    OpValue(Add, a, b, v);
  }

  lemma MulValue(a: Text, b: Text, v: Values)
    requires Exponent(a, v).Some? && Exponent(b, v).Some?
    ensures Exponent(MulText(a, b), v) == Some(Exponent(a, v).value * Exponent(b, v).value)
  {
    hide Exponent;
    OpValue(Mul, a, b, v);
  }

  lemma NegValue(a: Text, v: Values)
    requires Exponent(a, v).Some?
    ensures Exponent(Neg(a), v) == Some(-Exponent(a, v).value)
  {
    hide Operate;
  }

  lemma NameValue(a: Text, v: Values)
    requires a.Id? && a in v
    ensures Exponent(a, v) == Some(v[a])
  {
  }

  lemma ExpressionValue(t: Tables, e: Text, v: Values, groups: map<string, int>)
    requires Computed(t, v, groups) && e in t.expressions
    ensures e in v && Exponent(e, v) == Some(v[e])
  {
    hide Exponent, Decomposed, ValueOf;
  }

  lemma RandomValue(t: Tables, e: Text, v: Values, groups: map<string, int>)
    requires Computed(t, v, groups) && e in t.randoms && e.Id?
    ensures e in v && Exponent(e, v) == Some(v[e])
  {
    hide Exponent, Decomposed, ValueOf;
    NameValue(e, v);
  }

  /** A description with two bases and two exponents has the value of a commitment. */
  lemma PairValue(left: Text, group: string, g: Text, h: Text, a: Text, b: Text, v: Values, groups: map<string, int>)
    requires group in groups && 1 < groups[group]
    requires Exponent(g, v).Some? && Exponent(h, v).Some? && Exponent(a, v).Some? && Exponent(b, v).Some?
    ensures ValueOf(Sigma.DLR(left, group, [g, h], [a, b]), v, groups)
         == Some(Pedersen.Com(Exponent(g, v).value, Exponent(h, v).value,
                              Exponent(a, v).value, Exponent(b, v).value, groups[group]))
  {
    hide Exponent, Exponents, Product;
    PairExponents(g, h, v);
    PairExponents(a, b, v);
  }

  /** A description with two bases and exponents holds when its left side is congruent
      to the commitment. */
  lemma PairHolds(left: Text, group: string, g: Text, h: Text, a: Text, b: Text,
                  elements: Values, exps: Values, groups: map<string, int>)
    requires group in groups && 1 < groups[group] && left in elements && g in elements && h in elements
    requires a in exps && b in exps
    ensures Holds(Sigma.DLR(left, group, [g, h], [a, b]), elements, exps, groups)
       <==> Cong(elements[left], Pedersen.Com(elements[g], elements[h], exps[a], exps[b], groups[group]), groups[group])
  {
    assert Sigma.Lookup(elements, [g, h]) == [elements[g], elements[h]];
    assert Sigma.Lookup(exps, [a, b]) == [exps[a], exps[b]];
    hide Product;
  }

  lemma ComputedCom(t: Tables, s: Setting, left: Text, a: Text, b: Text, v: Values, groups: map<string, int>)
    requires Computed(t, v, groups) && Grounded(s, v, groups)
    requires left in t.comsToCompute && t.comsToCompute[left] == Com(s, left, a, b)
    requires Exponent(a, v).Some? && Exponent(b, v).Some?
    ensures left in v
    ensures v[left] == Pedersen.Com(v[s.g], v[s.h], Exponent(a, v).value, Exponent(b, v).value, groups[s.group])
  {
    hide Exponent, ValueOf, Decomposed, Pedersen.Com;
    PairValue(left, s.group, s.g, s.h, a, b, v, groups);
  }

  /** The values of a range proof's exponents. */
  ghost predicate BoundsHave(p: RangeProof, v: Values, x: int, low: int, high: int, r: int) {
    && p.R1() in v && p.XLo() in v && p.HiX() in v && p.Prod() in v && p.NegR() in v && p.ProdProof().exps[1] in v
    && v[p.XLo()] == x - low && v[p.HiX()] == high - x && v[p.Prod()] == (x - low) * (high - x)
    && v[p.NegR()] == -r && v[p.ProdProof().exps[1]] == v[p.R1()] - (high - x) * r
    && Exponent(p.XLo(), v) == Some(x - low) && Exponent(p.HiX(), v) == Some(high - x)
    && Exponent(p.Prod(), v) == Some((x - low) * (high - x)) && Exponent(p.NegR(), v) == Some(-r)
    && Exponent(p.r, v) == Some(r) && Exponent(p.R1(), v) == Some(v[p.R1()])
  }

  lemma BoundValues(p: RangeProof, t: Tables, v: Values, groups: map<string, int>, x: int, low: int, high: int, r: int)
    requires Contains(t, p) && Computed(t, v, groups)
    requires Exponent(p.x, v) == Some(x) && Exponent(p.low, v) == Some(low) && Exponent(p.high, v) == Some(high)
    requires Exponent(p.r, v) == Some(r)
    ensures BoundsHave(p, v, x, low, high, r)
  {
    hide Contains, Computed, Exponent;
    BoundsThere(t, p);
    RandomValue(t, p.R1(), v, groups);
    ExpressionValue(t, p.XLo(), v, groups);
    ExpressionValue(t, p.HiX(), v, groups);
    ExpressionValue(t, p.Prod(), v, groups);
    ExpressionValue(t, p.NegR(), v, groups);
    ExpressionValue(t, SubText(p.R1(), MulText(p.HiX(), p.r)), v, groups);
    SubValue(p.x, p.low, v);
    SubValue(p.high, p.x, v);
    MulValue(p.XLo(), p.HiX(), v);
    NegValue(p.r, v);
    MulValue(p.HiX(), p.r, v);
    SubValue(p.R1(), MulText(p.HiX(), p.r), v);
  }

  lemma BoundsThere(t: Tables, p: RangeProof)
    requires Contains(t, p)
    ensures p.R1() in t.randoms && p.XLo() in t.expressions && p.HiX() in t.expressions && p.Prod() in t.expressions
    ensures p.NegR() in t.expressions && SubText(p.R1(), MulText(p.HiX(), p.r)) in t.expressions
  {
    hide ContainsSquare;
  }

  /** The commitments that the prover computes for the bounds and their product. */
  ghost predicate BoundComs(p: RangeProof, v: Values, m: int, x: int, low: int, high: int, r: int)
    requires 1 < m && p.s.g in v && p.s.h in v && p.R1() in v
  {
    var g, h := v[p.s.g], v[p.s.h];
    && p.XLoCom() in v && v[p.XLoCom()] == Pedersen.Com(g, h, x - low, r, m)
    && p.HiXCom() in v && v[p.HiXCom()] == Pedersen.Com(g, h, high - x, -r, m)
    && p.ProdCom() in v && v[p.ProdCom()] == Pedersen.Com(g, h, (x - low) * (high - x), v[p.R1()], m)
  }

  lemma BoundCommitments(p: RangeProof, t: Tables, v: Values, groups: map<string, int>, x: int, low: int, high: int, r: int)
    requires Contains(t, p) && Computed(t, v, groups) && Grounded(p.s, v, groups) && BoundsHave(p, v, x, low, high, r)
    ensures BoundComs(p, v, groups[p.s.group], x, low, high, r)
  {
    hide Computed, Grounded, ContainsSquare, Pedersen.Com, Exponent;
    ComputedCom(t, p.s, p.XLoCom(), p.XLo(), p.r, v, groups);
    ComputedCom(t, p.s, p.HiXCom(), p.HiX(), p.NegR(), v, groups);
    ComputedCom(t, p.s, p.ProdCom(), p.Prod(), p.R1(), v, groups);
  }

  lemma ProductComplete(p: RangeProof, v: Values, groups: map<string, int>, x: int, low: int, high: int, r: int)
    requires Grounded(p.s, v, groups) && BoundsHave(p, v, x, low, high, r)
    requires BoundComs(p, v, groups[p.s.group], x, low, high, r)
    ensures Holds(p.ProdProof(), v, v, groups) && Holds(p.HiXDLR(), v, v, groups)
  {
    hide Exponent, Pedersen.Com, Holds;
    var m, g, h := groups[p.s.group], v[p.s.g], v[p.s.h];
    Pedersen.ReflCong(v[p.XLoCom()], m);
    Pedersen.ProductHolds(g, h, v[p.XLoCom()], x - low, r, high - x, v[p.R1()], m);
    PairHolds(p.ProdCom(), p.s.group, p.XLoCom(), p.s.h, p.HiX(), p.ProdProof().exps[1], v, v, groups);
    PairHolds(p.HiXCom(), p.s.group, p.s.g, p.s.h, p.HiX(), p.NegR(), v, v, groups);
  }

  /** The value of the i-th square's randomness. */
  function RandValue(p: RangeProof, v: Values, i: nat): Option<int> {
    Exponent(SquareRand(p.R1(), p.k + 1, i), v)
  }

  ghost predicate SquareHas(p: RangeProof, v: Values, m: int, i: nat)
    requires 1 < m && p.s.g in v && p.s.h in v
  {
    var j, g, h := p.k + 1 + i, v[p.s.g], v[p.s.h];
    var e := SquareProof(p.s, p.R1(), p.k + 1, i).exps[1];
    && Decomp(j) in v && RandDecomp(j) in v && Square(j) in v && RandValue(p, v, i).Some? && e in v
    && v[Square(j)] == v[Decomp(j)] * v[Decomp(j)]
    && v[e] == RandValue(p, v, i).value - v[Decomp(j)] * v[RandDecomp(j)]
    && DecompCom(j) in v && v[DecompCom(j)] == Pedersen.Com(g, h, v[Decomp(j)], v[RandDecomp(j)], m)
    && SquareCom(j) in v && v[SquareCom(j)] == Pedersen.Com(g, h, v[Square(j)], RandValue(p, v, i).value, m)
  }

  lemma RandKnown(p: RangeProof, t: Tables, v: Values, groups: map<string, int>, i: nat)
    requires Contains(t, p) && Computed(t, v, groups) && i < 4
    ensures RandValue(p, v, i).Some? && p.R1() in v
    ensures RandSquare(p.k + 1) in v && RandSquare(p.k + 2) in v && RandSquare(p.k + 3) in v
    ensures i < 3 ==> RandValue(p, v, i) == Some(v[RandSquare(p.k + 1 + i)])
    ensures i == 3 ==> RandValue(p, v, i) == Some(v[p.R1()]
      - (v[RandSquare(p.k + 1)] + v[RandSquare(p.k + 2)] + v[RandSquare(p.k + 3)]))
  {
    hide Contains, Computed, Exponent;
    BoundsThere(t, p);
    RandsThere(t, p);
    RandomValue(t, p.R1(), v, groups);
    RandomValue(t, RandSquare(p.k + 1), v, groups);
    RandomValue(t, RandSquare(p.k + 2), v, groups);
    RandomValue(t, RandSquare(p.k + 3), v, groups);
    if i == 3 {
      var a := AddText(RandSquare(p.k + 1), RandSquare(p.k + 2));
      AddValue(RandSquare(p.k + 1), RandSquare(p.k + 2), v);
      AddValue(a, RandSquare(p.k + 3), v);
      SubValue(p.R1(), AddText(a, RandSquare(p.k + 3)), v);
    }
  }

  lemma RandsThere(t: Tables, p: RangeProof)
    requires Contains(t, p)
    ensures RandSquare(p.k + 1) in t.randoms && RandSquare(p.k + 2) in t.randoms && RandSquare(p.k + 3) in t.randoms
  {
    assert ContainsSquare(t, p, 0) && ContainsSquare(t, p, 1) && ContainsSquare(t, p, 2);
  }

  lemma SquareValues(p: RangeProof, t: Tables, v: Values, groups: map<string, int>, i: nat)
    requires Contains(t, p) && Computed(t, v, groups) && Grounded(p.s, v, groups) && i < 4
    ensures SquareHas(p, v, groups[p.s.group], i)
  {
    hide Contains, ContainsSquare, Computed, Grounded, SquareRand, Decomposed, ValueOf, Pedersen.Com, Exponent;
    var j := p.k + 1 + i;
    RandKnown(p, t, v, groups, i);
    SquareThere(t, p, i);
    RootValue(t, p, v, groups, i);
    SquareExponent(p, t, v, groups, i);
    SquareCommitments(p, t, v, groups, i);
  }

  lemma SquareThere(t: Tables, p: RangeProof, i: nat)
    requires Contains(t, p) && i < 4
    ensures ContainsSquare(t, p, i)
  {
  }

  lemma RootValue(t: Tables, p: RangeProof, v: Values, groups: map<string, int>, i: nat)
    requires Contains(t, p) && Computed(t, v, groups) && i < 4
    ensures var j := p.k + 1 + i;
      Decomp(j) in v && Square(j) in v && v[Square(j)] == v[Decomp(j)] * v[Decomp(j)]
  {
    hide ContainsSquare, ValueOf, Exponent;
    assert Decomposed(p.Prod(), FourNames(p.k + 1, 4), v);
    assert FourNames(p.k + 1, 4)[i] == DecompNames(Decomp(p.k + 1 + i), Square(p.k + 1 + i));
  }

  lemma SquareCommitments(p: RangeProof, t: Tables, v: Values, groups: map<string, int>, i: nat)
    requires ContainsSquare(t, p, i) && Computed(t, v, groups) && Grounded(p.s, v, groups) && RandValue(p, v, i).Some?
    requires Decomp(p.k + 1 + i) in v && RandDecomp(p.k + 1 + i) in v && Square(p.k + 1 + i) in v
    ensures var j, g, h, m := p.k + 1 + i, v[p.s.g], v[p.s.h], groups[p.s.group];
      DecompCom(j) in v && v[DecompCom(j)] == Pedersen.Com(g, h, v[Decomp(j)], v[RandDecomp(j)], m)
      && SquareCom(j) in v && v[SquareCom(j)] == Pedersen.Com(g, h, v[Square(j)], RandValue(p, v, i).value, m)
  {
    var j := p.k + 1 + i;
    NameValue(Decomp(j), v);
    NameValue(RandDecomp(j), v);
    NameValue(Square(j), v);
    hide Computed, SquareRand, Pedersen.Com, Exponent;
    ComputedCom(t, p.s, DecompCom(j), Decomp(j), RandDecomp(j), v, groups);
    ComputedCom(t, p.s, SquareCom(j), Square(j), SquareRand(p.R1(), p.k + 1, i), v, groups);
  }

  lemma SquareExponent(p: RangeProof, t: Tables, v: Values, groups: map<string, int>, i: nat)
    requires Computed(t, v, groups) && ContainsSquare(t, p, i)
    requires RandValue(p, v, i).Some? && Decomp(p.k + 1 + i) in v
    ensures RandDecomp(p.k + 1 + i) in v
    ensures var e := SquareProof(p.s, p.R1(), p.k + 1, i).exps[1];
      e in v && v[e] == RandValue(p, v, i).value - v[Decomp(p.k + 1 + i)] * v[RandDecomp(p.k + 1 + i)]
  {
    var j, rs := p.k + 1 + i, SquareRand(p.R1(), p.k + 1, i);
    assert SubText(rs, MulText(Decomp(j), RandDecomp(j))) in t.expressions && RandDecomp(j) in t.randoms;
    hide Computed, Exponent, SquareRand, ContainsSquare;
    RandomValue(t, RandDecomp(j), v, groups);
    NameValue(Decomp(j), v);
    ExpressionValue(t, SubText(rs, MulText(Decomp(j), RandDecomp(j))), v, groups);
    MulValue(Decomp(j), RandDecomp(j), v);
    SubValue(rs, MulText(Decomp(j), RandDecomp(j)), v);
  }

  lemma SquareComplete(p: RangeProof, v: Values, groups: map<string, int>, i: nat)
    requires Grounded(p.s, v, groups) && SquareHas(p, v, groups[p.s.group], i)
    ensures SquareHolds(p, i, v, v, groups)
  {
    hide Exponent, Pedersen.Com, Holds, SquareRand;
    var m, g, h, j := groups[p.s.group], v[p.s.g], v[p.s.h], p.k + 1 + i;
    var d, rho, rs := v[Decomp(j)], v[RandDecomp(j)], RandValue(p, v, i).value;
    Pedersen.ReflCong(v[DecompCom(j)], m);
    Pedersen.ProductHolds(g, h, v[DecompCom(j)], d, rho, d, rs, m);
    PairHolds(SquareCom(j), p.s.group, DecompCom(j), p.s.h, Decomp(j), SquareProof(p.s, p.R1(), p.k + 1, i).exps[1], v, v, groups);
    PairHolds(DecompCom(j), p.s.group, p.s.g, p.s.h, Decomp(j), RandDecomp(j), v, v, groups);
  }

  /** Every description of a range proof holds of the prover's values: x, low, high and
      the randomness are arbitrary, only the product must have been decomposed. */
  lemma RangeComplete(p: RangeProof, t: Tables, v: Values, groups: map<string, int>, x: int, low: int, high: int, r: int)
    requires Contains(t, p) && Computed(t, v, groups) && Grounded(p.s, v, groups)
    requires Exponent(p.x, v) == Some(x) && Exponent(p.low, v) == Some(low) && Exponent(p.high, v) == Some(high)
    requires Exponent(p.r, v) == Some(r)
    ensures RangeHolds(p, v, v, groups)
  {
    hide Contains, Computed, Grounded, Exponent, Holds, BoundsHave, BoundComs, SquareHas;
    BoundValues(p, t, v, groups, x, low, high, r);
    BoundCommitments(p, t, v, groups, x, low, high, r);
    ProductComplete(p, v, groups, x, low, high, r);
    forall i | 0 <= i < 4 ensures SquareHolds(p, i, v, v, groups) {
      SquareValues(p, t, v, groups, i);
      SquareComplete(p, v, groups, i);
    }
  }

  // ---------- what the verifier computes ----------

  /** The values of the four square commitments. */
  function SquareComs(p: RangeProof, v: Values): (s: seq<int>)
    requires HasSquareComs(p, v)
    ensures |s| == 4
  {
    [v[SquareCom(p.k + 1)], v[SquareCom(p.k + 2)], v[SquareCom(p.k + 3)], v[SquareCom(p.k + 4)]]
  }

  predicate HasSquareComs(p: RangeProof, v: Values) {
    SquareCom(p.k + 1) in v && SquareCom(p.k + 2) in v && SquareCom(p.k + 3) in v && SquareCom(p.k + 4) in v
  }

  /** The verifier's own commitments to x - low and high - x are the prover's, and the
      square commitments multiply to the product's. */
  lemma ChecksPass(p: RangeProof, t: Tables, v: Values, groups: map<string, int>, x: int, low: int, high: int, r: int)
    requires Contains(t, p) && Computed(t, v, groups) && Grounded(p.s, v, groups)
    requires Exponent(p.x, v) == Some(x) && Exponent(p.low, v) == Some(low) && Exponent(p.high, v) == Some(high)
    requires Exponent(p.r, v) == Some(r) && p.c in v && Exponent(p.c, v) == Some(v[p.c])
    requires Cong(v[p.c], Pedersen.Com(v[p.s.g], v[p.s.h], x, r, groups[p.s.group]), groups[p.s.group])
    ensures p.XLoCom() in v && ValueOf(p.VerifierLo(), v, groups) == Some(v[p.XLoCom()])
    ensures p.HiXCom() in v && ValueOf(p.VerifierHi(), v, groups) == Some(v[p.HiXCom()])
    ensures p.ProdCom() in v && HasSquareComs(p, v)
    ensures Pedersen.ProductOf(SquareComs(p, v), groups[p.s.group]) == v[p.ProdCom()]
  {
    hide Contains, Computed, Exponent, Pedersen.Com, ValueOf, BoundsHave, Grounded, Pedersen.Bases;
    GroundedBases(p.s, v, groups);
    BoundProduct(p, t, v, groups, x, low, high, r);
    GroundedValues(p.s, v, groups);
    var m, g, h := groups[p.s.group], v[p.s.g], v[p.s.h];
    BoundValues(p, t, v, groups, x, low, high, r);
    BoundCommitments(p, t, v, groups, x, low, high, r);
    VerifierExponents(p, v, low, high);
    PairValue(p.XLoCom(), p.s.group, p.s.g, p.c, Neg(p.low), Int(1), v, groups);
    PairValue(p.HiXCom(), p.s.group, p.s.g, p.c, p.high, Neg(Int(1)), v, groups);
    Pedersen.ComOver(g, h, v[p.c], -low, 1, x, r, m);
    Pedersen.ComOver(g, h, v[p.c], high, -1, x, r, m);
    SquaresMultiply(p, t, v, groups);
  }

  /** The square commitments multiply to the commitment to the product. */
  lemma SquaresMultiply(p: RangeProof, t: Tables, v: Values, groups: map<string, int>)
    requires Contains(t, p) && Computed(t, v, groups) && Grounded(p.s, v, groups)
    ensures p.R1() in v && p.Prod() in v && HasSquareComs(p, v)
    ensures Pedersen.ProductOf(SquareComs(p, v), groups[p.s.group])
         == Pedersen.Com(v[p.s.g], v[p.s.h], v[p.Prod()], v[p.R1()], groups[p.s.group])
  {
    hide Contains, Computed, Exponent, Pedersen.Com, Pedersen.Sum, RandValue, Grounded, Pedersen.Bases;
    var k := p.k + 1;
    RandKnown(p, t, v, groups, 0); RandKnown(p, t, v, groups, 1);
    RandKnown(p, t, v, groups, 2); RandKnown(p, t, v, groups, 3);
    SquareComIs(p, t, v, groups, 0, k); SquareComIs(p, t, v, groups, 1, k + 1);
    SquareComIs(p, t, v, groups, 2, k + 2); SquareComIs(p, t, v, groups, 3, k + 3);
    RootsSum(p, t, v, groups);
    var a, b, c := v[RandSquare(k)], v[RandSquare(k + 1)], v[RandSquare(k + 2)];
    GroundedBases(p.s, v, groups);
    FourCommitments(v[p.s.g], v[p.s.h], SquareComs(p, v), v[Square(k)], v[Square(k + 1)], v[Square(k + 2)],
                    v[Square(k + 3)], a, b, c, v[p.R1()] - (a + b + c), groups[p.s.group]);
  }

  lemma GroundedBases(s: Setting, v: Values, groups: map<string, int>)
    requires Grounded(s, v, groups)
    ensures s.group in groups && s.g in v && s.h in v && 1 < groups[s.group]
    ensures Pedersen.Bases(v[s.g], v[s.h], groups[s.group])
  {
  }

  lemma SquareComIs(p: RangeProof, t: Tables, v: Values, groups: map<string, int>, i: nat, j: nat)
    requires Contains(t, p) && Computed(t, v, groups) && Grounded(p.s, v, groups) && i < 4 && j == p.k + 1 + i
    ensures RandValue(p, v, i).Some? && Square(j) in v && SquareCom(j) in v
    ensures v[SquareCom(j)] == Pedersen.Com(v[p.s.g], v[p.s.h], v[Square(j)], RandValue(p, v, i).value, groups[p.s.group])
  {
    hide Contains, Computed, Exponent, Pedersen.Com, RandValue, Grounded, SquareProof;
    GroundedBases(p.s, v, groups);
    SquareValues(p, t, v, groups, i);
  }

  lemma FourCommitments(g: int, h: int, cs: seq<int>, x: int, y: int, z: int, w: int, a: int, b: int, c: int, d: int, m: int)
    requires Pedersen.Bases(g, h, m)
    requires cs == [Pedersen.Com(g, h, x, a, m), Pedersen.Com(g, h, y, b, m),
                    Pedersen.Com(g, h, z, c, m), Pedersen.Com(g, h, w, d, m)]
    ensures Pedersen.ProductOf(cs, m) == Pedersen.Com(g, h, x + y + z + w, a + b + c + d, m)
  {
    hide Pedersen.Com, Pedersen.Sum, Pedersen.ProductOf;
    FourSum(x, y, z, w);
    FourSum(a, b, c, d);
    Pedersen.ProductOfComs(g, h, cs, [x, y, z, w], [a, b, c, d], m);
  }

  lemma FourSum(a: int, b: int, c: int, d: int)
    ensures Pedersen.Sum([a, b, c, d]) == a + b + c + d
  {
    assert [a, b, c, d][..3] == [a, b, c] && [a, b, c][..2] == [a, b] && [a, b][..1] == [a] && [a][..0] == [];
    assert Pedersen.Sum([]) == 0;
    assert Pedersen.Sum([a]) == a;
    assert Pedersen.Sum([a, b]) == a + b;
    assert Pedersen.Sum([a, b, c]) == a + b + c;
  }

  lemma RootsSum(p: RangeProof, t: Tables, v: Values, groups: map<string, int>)
    requires Contains(t, p) && Computed(t, v, groups)
    ensures var k := p.k + 1;
      p.Prod() in v && Square(k) in v && Square(k + 1) in v && Square(k + 2) in v && Square(k + 3) in v
      && v[Square(k)] + v[Square(k + 1)] + v[Square(k + 2)] + v[Square(k + 3)] == v[p.Prod()]
  {
    hide Contains, Computed, Exponent, Decomposed;
    var k := p.k + 1;
    RootValue(t, p, v, groups, 0); RootValue(t, p, v, groups, 1);
    RootValue(t, p, v, groups, 2); RootValue(t, p, v, groups, 3);
    ProdDecomposed(p, t, v, groups);
    FourRoots(p.Prod(), k, v);
  }

  lemma ProdDecomposed(p: RangeProof, t: Tables, v: Values, groups: map<string, int>)
    requires Contains(t, p) && Computed(t, v, groups)
    ensures Decomposed(p.Prod(), FourNames(p.k + 1, 4), v)
  {
    hide ContainsSquare, Decomposed, Exponent, ValueOf;
  }

  lemma FourRoots(e: Text, k: nat, v: Values)
    requires Decomposed(e, FourNames(k, 4), v)
    requires Square(k) in v && Square(k + 1) in v && Square(k + 2) in v && Square(k + 3) in v
    ensures e in v && v[Square(k)] + v[Square(k + 1)] + v[Square(k + 2)] + v[Square(k + 3)] == v[e]
  {
    hide Exponent, Pedersen.Sum;
    var names := FourNames(k, 4);
    assert names[0].decompSquare == Square(k) && names[1].decompSquare == Square(k + 1)
        && names[2].decompSquare == Square(k + 2) && names[3].decompSquare == Square(k + 3);
    var squares := Pedersen.Squares(Roots(names, v));
    assert squares == [v[Square(k)], v[Square(k + 1)], v[Square(k + 2)], v[Square(k + 3)]];
    FourSum(v[Square(k)], v[Square(k + 1)], v[Square(k + 2)], v[Square(k + 3)]);
  }

  lemma GroundedValues(s: Setting, v: Values, groups: map<string, int>)
    requires Grounded(s, v, groups)
    ensures Exponent(s.g, v) == Some(v[s.g]) && Exponent(s.h, v) == Some(v[s.h])
  {
  }

  lemma BoundProduct(p: RangeProof, t: Tables, v: Values, groups: map<string, int>, x: int, low: int, high: int, r: int)
    requires Contains(t, p) && Computed(t, v, groups)
    requires Exponent(p.x, v) == Some(x) && Exponent(p.low, v) == Some(low) && Exponent(p.high, v) == Some(high)
    requires Exponent(p.r, v) == Some(r)
    ensures p.Prod() in v && v[p.Prod()] == (x - low) * (high - x) && p.R1() in v
  {
    hide Contains, Computed, Exponent;
    BoundValues(p, t, v, groups, x, low, high, r);
  }

  lemma VerifierExponents(p: RangeProof, v: Values, low: int, high: int)
    requires Exponent(p.low, v) == Some(low) && Exponent(p.high, v) == Some(high)
    ensures Exponent(Neg(p.low), v) == Some(-low) && Exponent(Int(1), v) == Some(1)
    ensures Exponent(Neg(Int(1)), v) == Some(-1)
  {
  }

  // ---------- soundness ----------

  /** The verifier's own computation of x - low and high - x, and its check of the
      square commitments. */
  ghost predicate Checked(p: RangeProof, v: Values, groups: map<string, int>) {
    && p.XLoCom() in v && ValueOf(p.VerifierLo(), v, groups) == Some(v[p.XLoCom()])
    && p.HiXCom() in v && ValueOf(p.VerifierHi(), v, groups) == Some(v[p.HiXCom()])
    && p.ProdCom() in v && HasSquareComs(p, v) && p.s.group in groups && 1 < groups[p.s.group]
    && Pedersen.ProductOf(SquareComs(p, v), groups[p.s.group]) == v[p.ProdCom()]
  }

  function FourDecomps(p: RangeProof, w: Values): (s: seq<int>)
    requires HasDecomps(p, w)
    ensures |s| == 4
  {
    [w[Decomp(p.k + 1)], w[Decomp(p.k + 2)], w[Decomp(p.k + 3)], w[Decomp(p.k + 4)]]
  }

  predicate HasDecomps(p: RangeProof, w: Values) {
    Decomp(p.k + 1) in w && Decomp(p.k + 2) in w && Decomp(p.k + 3) in w && Decomp(p.k + 4) in w
  }

  /** A witness has all exponents of a range proof. */
  predicate HasWitness(p: RangeProof, w: Values) {
    && p.HiX() in w && p.NegR() in w && p.ProdProof().exps[1] in w && HasDecomps(p, w)
    && HasSquareExps(p, w)
  }

  predicate HasSquareExps(p: RangeProof, w: Values) {
    && RandDecomp(p.k + 1) in w && RandDecomp(p.k + 2) in w && RandDecomp(p.k + 3) in w && RandDecomp(p.k + 4) in w
    && SquareExp(p, 0) in w && SquareExp(p, 1) in w && SquareExp(p, 2) in w && SquareExp(p, 3) in w
  }

  /** The number that a witness opens the commitment to. */
  function OpenedTo(p: RangeProof, w: Values, high: int): int
    requires HasWitness(p, w)
  {
    high - w[p.HiX()]
  }

  /** The exponent of g in the relation that a witness gives. */
  function GExponent(p: RangeProof, w: Values, low: int, high: int): int
    requires HasWitness(p, w)
  {
    Pedersen.Excess(OpenedTo(p, w, high), low, high, FourDecomps(p, w))
  }

  /** The exponent of h in the relation that a witness gives. */
  function HExponent(p: RangeProof, w: Values): int
    requires HasWitness(p, w)
  {
    Pedersen.Blinding(w[p.HiX()], w[p.NegR()], w[p.ProdProof().exps[1]], FourDecomps(p, w), FourRands(p, w), FourExps(p, w))
  }

  function FourRands(p: RangeProof, w: Values): (s: seq<int>)
    requires HasSquareExps(p, w)
    ensures |s| == 4
  {
    [w[RandDecomp(p.k + 1)], w[RandDecomp(p.k + 2)], w[RandDecomp(p.k + 3)], w[RandDecomp(p.k + 4)]]
  }

  function FourExps(p: RangeProof, w: Values): (s: seq<int>)
    requires HasSquareExps(p, w)
    ensures |s| == 4
  {
    [w[SquareExp(p, 0)], w[SquareExp(p, 1)], w[SquareExp(p, 2)], w[SquareExp(p, 3)]]
  }

  /** What a witness says about a checked range proof: it opens the commitment to
      OpenedTo, and its own exponents relate the bases, g^GExponent * h^HExponent = 1.
      When the relation is trivial in g, the number opened lies between the bounds. */
  ghost predicate Says(p: RangeProof, elements: Values, w: Values, groups: map<string, int>, low: int, high: int)
    requires HasWitness(p, w) && p.c in elements && p.s.g in elements && p.s.h in elements
    requires p.s.group in groups && 1 < groups[p.s.group]
  {
    var g, h, m := elements[p.s.g], elements[p.s.h], groups[p.s.group];
    var x := OpenedTo(p, w, high);
    && Cong(elements[p.c], Pedersen.Com(g, h, x, -w[p.NegR()], m), m)
    && Pedersen.Com(g, h, GExponent(p, w, low, high), HExponent(p, w), m) == 1
    && (GExponent(p, w, low, high) == 0 ==> low <= x <= high || high <= x <= low)
  }

  /** Soundness: whatever exponents satisfy the descriptions of a checked range proof
      open the commitment to a number between the bounds, or they relate the bases. */
  lemma RangeSound(p: RangeProof, elements: Values, exps: Values, groups: map<string, int>, low: int, high: int)
    requires RangeHolds(p, elements, exps, groups) && Grounded(p.s, elements, groups) && Checked(p, elements, groups)
    requires p.c in elements && Exponent(p.c, elements) == Some(elements[p.c])
    requires Unit(elements[p.c], groups[p.s.group])
    requires Exponent(p.low, elements) == Some(low) && Exponent(p.high, elements) == Some(high)
    ensures HasWitness(p, exps) && Says(p, elements, exps, groups, low, high)
  {
    hide Exponent, ValueOf, Holds, Pedersen.Com, Pedersen.ProductOf, Pedersen.Bases, Unit, Pedersen.Excess, Pedersen.Blinding;
    var m, g, h := groups[p.s.group], elements[p.s.g], elements[p.s.h];
    OwnCommitments(p, elements, groups, low, high);
    ProductSays(p, elements, exps, groups);
    SquareSaysAt(p, elements, exps, groups, 0, p.k + 1);
    SquareSaysAt(p, elements, exps, groups, 1, p.k + 2);
    SquareSaysAt(p, elements, exps, groups, 2, p.k + 3);
    SquareSaysAt(p, elements, exps, groups, 3, p.k + 4);
    var bases := [elements[DecompCom(p.k + 1)], elements[DecompCom(p.k + 2)],
                  elements[DecompCom(p.k + 3)], elements[DecompCom(p.k + 4)]];
    Pedersen.RangeSays(g, h, elements[p.c], low, high, elements[p.XLoCom()], elements[p.HiXCom()],
                       elements[p.ProdCom()], exps[p.HiX()], exps[p.NegR()], exps[p.ProdProof().exps[1]],
                       bases, SquareComs(p, elements), FourDecomps(p, exps), FourRands(p, exps), FourExps(p, exps), m);
  }

  /** The prover's own values are a witness that opens the commitment to x, with a
      trivial relation. */
  lemma HonestWitness(p: RangeProof, t: Tables, v: Values, groups: map<string, int>, x: int, low: int, high: int, r: int)
    requires Contains(t, p) && Computed(t, v, groups) && Grounded(p.s, v, groups)
    requires Exponent(p.x, v) == Some(x) && Exponent(p.low, v) == Some(low) && Exponent(p.high, v) == Some(high)
    requires Exponent(p.r, v) == Some(r)
    ensures HasWitness(p, v) && OpenedTo(p, v, high) == x && GExponent(p, v, low, high) == 0
  {
    hide *;
    RangeComplete(p, t, v, groups, x, low, high, r);
    HoldsHas(p, v, groups);
    BoundValues(p, t, v, groups, x, low, high, r);
    ProdDecomposed(p, t, v, groups);
    RootsAre(p, v);
    OpensTo(p, v, x, low, high, r);
  }

  lemma HoldsHas(p: RangeProof, v: Values, groups: map<string, int>)
    requires RangeHolds(p, v, v, groups)
    ensures HasWitness(p, v)
  {
    hide Holds;
    ProductSays(p, v, v, groups);
    SquareSaysAt(p, v, v, groups, 0, p.k + 1);
    SquareSaysAt(p, v, v, groups, 1, p.k + 2);
    SquareSaysAt(p, v, v, groups, 2, p.k + 3);
    SquareSaysAt(p, v, v, groups, 3, p.k + 4);
    hide *;
    WitnessFrom(p, v);
  }

  lemma WitnessFrom(p: RangeProof, w: Values)
    requires p.HiX() in w && p.NegR() in w && p.ProdProof().exps[1] in w
    requires Decomp(p.k + 1) in w && Decomp(p.k + 2) in w && Decomp(p.k + 3) in w && Decomp(p.k + 4) in w
    requires RandDecomp(p.k + 1) in w && RandDecomp(p.k + 2) in w && RandDecomp(p.k + 3) in w && RandDecomp(p.k + 4) in w
    requires SquareExp(p, 0) in w && SquareExp(p, 1) in w && SquareExp(p, 2) in w && SquareExp(p, 3) in w
    ensures HasWitness(p, w)
  {
    hide SquareExp;
  }

  lemma RootsAre(p: RangeProof, v: Values)
    requires HasWitness(p, v) && Decomposed(p.Prod(), FourNames(p.k + 1, 4), v)
    ensures p.Prod() in v && Pedersen.Sum(Pedersen.Squares(FourDecomps(p, v))) == v[p.Prod()]
  {
    hide Exponent, Pedersen.Sum, Pedersen.Squares, SquareExp;
    var names, k := FourNames(p.k + 1, 4), p.k + 1;
    assert names[0].decomp == Decomp(k) && names[1].decomp == Decomp(k + 1)
        && names[2].decomp == Decomp(k + 2) && names[3].decomp == Decomp(k + 3);
    assert Roots(names, v) == FourDecomps(p, v);
  }

  lemma OpensTo(p: RangeProof, v: Values, x: int, low: int, high: int, r: int)
    requires HasWitness(p, v) && p.Prod() in v && BoundsHave(p, v, x, low, high, r)
    requires Pedersen.Sum(Pedersen.Squares(FourDecomps(p, v))) == v[p.Prod()]
    ensures OpenedTo(p, v, high) == x && GExponent(p, v, low, high) == 0
  {
    hide HasWitness, FourDecomps, Exponent;
  }

  function SquareExp(p: RangeProof, i: nat): Text {
    SquareProof(p.s, p.R1(), p.k + 1, i).exps[1]
  }

  lemma OwnCommitments(p: RangeProof, v: Values, groups: map<string, int>, low: int, high: int)
    requires Grounded(p.s, v, groups) && Checked(p, v, groups) && p.c in v && Exponent(p.c, v) == Some(v[p.c])
    requires Exponent(p.low, v) == Some(low) && Exponent(p.high, v) == Some(high)
    ensures v[p.XLoCom()] == Pedersen.Com(v[p.s.g], v[p.c], -low, 1, groups[p.s.group])
    ensures v[p.HiXCom()] == Pedersen.Com(v[p.s.g], v[p.c], high, -1, groups[p.s.group])
  {
    VerifierExponents(p, v, low, high);
    hide Exponent, ValueOf, Pedersen.Com, Pedersen.ProductOf;
    PairValue(p.XLoCom(), p.s.group, p.s.g, p.c, Neg(p.low), Int(1), v, groups);
    PairValue(p.HiXCom(), p.s.group, p.s.g, p.c, p.high, Neg(Int(1)), v, groups);
  }

  lemma ProductSays(p: RangeProof, v: Values, w: Values, groups: map<string, int>)
    requires Holds(p.ProdProof(), v, w, groups) && Holds(p.HiXDLR(), v, w, groups)
    ensures p.ProdCom() in v && p.XLoCom() in v && p.HiXCom() in v && p.s.g in v && p.s.h in v
    ensures p.s.group in groups && 1 < groups[p.s.group]
    ensures p.HiX() in w && p.NegR() in w && p.ProdProof().exps[1] in w
    ensures var m := groups[p.s.group];
      Cong(v[p.HiXCom()], Pedersen.Com(v[p.s.g], v[p.s.h], w[p.HiX()], w[p.NegR()], m), m)
      && Cong(v[p.ProdCom()], Pedersen.Com(v[p.XLoCom()], v[p.s.h], w[p.HiX()], w[p.ProdProof().exps[1]], m), m)
  {
    NamesThere(p.ProdProof(), v, w, groups);
    NamesThere(p.HiXDLR(), v, w, groups);
    hide Holds, Pedersen.Com;
    PairHolds(p.ProdCom(), p.s.group, p.XLoCom(), p.s.h, p.HiX(), p.ProdProof().exps[1], v, w, groups);
    PairHolds(p.HiXCom(), p.s.group, p.s.g, p.s.h, p.HiX(), p.NegR(), v, w, groups);
  }

  lemma NamesThere(d: DLR, v: Values, w: Values, groups: map<string, int>)
    requires Holds(d, v, w, groups) && |d.bases| == 2
    ensures d.left in v && d.bases[0] in v && d.bases[1] in v && d.exps[0] in w && d.exps[1] in w
    ensures d.group in groups && 1 < groups[d.group]
  {
    hide Product;
  }

  lemma SquareSaysAt(p: RangeProof, v: Values, w: Values, groups: map<string, int>, i: nat, j: nat)
    requires RangeHolds(p, v, w, groups) && i < 4 && j == p.k + 1 + i
    ensures Decomp(j) in w && RandDecomp(j) in w && SquareExp(p, i) in w && DecompCom(j) in v && SquareCom(j) in v
    ensures p.s.g in v && p.s.h in v && p.s.group in groups && 1 < groups[p.s.group]
    ensures var m := groups[p.s.group];
      Cong(v[DecompCom(j)], Pedersen.Com(v[p.s.g], v[p.s.h], w[Decomp(j)], w[RandDecomp(j)], m), m)
      && Cong(v[SquareCom(j)], Pedersen.Com(v[DecompCom(j)], v[p.s.h], w[Decomp(j)], w[SquareExp(p, i)], m), m)
  {
    hide Holds, Pedersen.Com, SquareRand;
    assert SquareHolds(p, i, v, w, groups);
    NamesThere(SquareProof(p.s, p.R1(), p.k + 1, i), v, w, groups);
    NamesThere(BaseDLR(p.s, j), v, w, groups);
    PairHolds(SquareCom(j), p.s.group, DecompCom(j), p.s.h, Decomp(j), SquareExp(p, i), v, w, groups);
    PairHolds(DecompCom(j), p.s.group, p.s.g, p.s.h, Decomp(j), RandDecomp(j), v, w, groups);
  }

  // ---------- products of numbers that the program commits to ----------

  /** A commitment over g and h to the number at the i-th place holds of some values. */
  ghost predicate CommitmentHolds(d: DLR, group: string, g: Text, h: Text, i: nat, v: Values, groups: map<string, int>)
    requires Two(d) && i < 2
  {
    d.group == group && d.bases[i] == g && d.bases[1 - i] == h && Holds(d, v, v, groups)
  }

  lemma CommitmentSays(d: DLR, group: string, g: Text, h: Text, i: nat, v: Values, groups: map<string, int>)
    requires Two(d) && i < 2 && CommitmentHolds(d, group, g, h, i, v, groups)
    ensures d.left in v && g in v && h in v && d.exps[i] in v && d.exps[1 - i] in v && group in groups && 1 < groups[group]
    ensures Cong(v[d.left], Pedersen.Com(v[g], v[h], v[d.exps[i]], v[d.exps[1 - i]], groups[group]), groups[group])
  {
    NamesThere(d, v, v, groups);
    hide Holds, Pedersen.Com;
    assert d == Sigma.DLR(d.left, d.group, [d.bases[0], d.bases[1]], [d.exps[0], d.exps[1]]);
    PairHolds(d.left, d.group, d.bases[0], d.bases[1], d.exps[0], d.exps[1], v, v, groups);
    Pedersen.ComSwap(v[g], v[h], v[d.exps[i]], v[d.exps[1 - i]], groups[group]);
  }

  /** The description of x = a*b holds of honest commitments to a and to x, whichever of
      its two exponents each commitment names first. */
  lemma DeclaredProduct(product: DLR, factor1: DLR, factor2: DLR, t: Tables, x: Text, a: Text, b: Text,
                        i: nat, j: nat, k: nat, g: Text, h: Text, v: Values, groups: map<string, int>)
    requires CommittedAt(product, x, t.commitments, i) && CommittedAt(factor1, a, t.commitments, j)
    requires CommittedAt(factor2, b, t.commitments, k)
    requires CommitmentHolds(product, product.group, g, h, i, v, groups) && CommitmentHolds(factor1, product.group, g, h, j, v, groups)
    requires Pedersen.Bases(v[g], v[h], groups[product.group]) && b in v && v[x] == v[a] * v[b]
    requires var e := SubText(product.exps[1 - i], MulText(b, factor1.exps[1 - j]));
      e in v && v[e] == v[product.exps[1 - i]] - v[b] * v[factor1.exps[1 - j]]
    ensures Holds(ProductDescription(product, factor1, factor2, t), v, v, groups)
  {
    var e := SubText(product.exps[1 - i], MulText(b, factor1.exps[1 - j]));
    ProductByPlace(product, factor1, factor2, t, x, a, b, i, j, k);
    CommitmentSays(product, product.group, g, h, i, v, groups);
    CommitmentSays(factor1, product.group, g, h, j, v, groups);
    hide Holds, Pedersen.Com, ProductDescription, Pedersen.Bases;
    var m := groups[product.group];
    Pedersen.ProductHolds(v[g], v[h], v[factor1.left], v[a], v[factor1.exps[1 - j]], v[b], v[product.exps[1 - i]], m);
    PairHolds(product.left, product.group, factor1.left, h, b, e, v, v, groups);
  }
}
