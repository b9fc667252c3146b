/** A whole range proof: translation, the prover's values, the verifier's checks, and
    the protocol between them. */
module RangeRun {
  import opened Ast
  import opened Translator
  import opened Interpreters
  import opened RangeProofs
  import opened RangeTables
  import opened RangeEvaluation
  import opened Arithmetic
  import opened ModExp
  import Group
  import Pedersen
  import Sigma

  // ---------- the verifier's checks ----------

  /** When nothing is missing and no commitment is bad, a range proof has been checked. */
  lemma ChecksMade(p: RangeProof, t: Tables, v: Values, groups: map<string, int>)
    requires ContainsChecks(t, p) && p.s.group in groups && 1 < groups[p.s.group] && p.ProdCom() in v
    requires forall c :: c in t.rangeComs ==> c in v && ValueOf(t.rangeComs[c], v, groups) == Some(v[c])
    requires !Mismatch(t.decompositions.Keys, t, v, groups)
    ensures Checked(p, v, groups)
  {
    hide *;
    SquaresThere(t, p);
    ProductCompared(p, t, v, groups);
    ProductMatches(p, t, v, groups);
    BoundsRecomputed(p, t, v, groups);
    AllChecked(p, v, groups);
  }

  lemma ProductCompared(p: RangeProof, t: Tables, v: Values, groups: map<string, int>)
    requires ContainsChecks(t, p) && !Mismatch(t.decompositions.Keys, t, v, groups)
    ensures SquaresMatch(p.Prod(), FourNames(p.k + 1, 4), t, v, groups)
  {
    hide SquaresMatch, FourNames, SquareAt, RangeProof.Prod, RangeProof.VerifierLo, RangeProof.VerifierHi;
  }

  lemma BoundsRecomputed(p: RangeProof, t: Tables, v: Values, groups: map<string, int>)
    requires ContainsChecks(t, p)
    requires forall c :: c in t.rangeComs ==> c in v && ValueOf(t.rangeComs[c], v, groups) == Some(v[c])
    ensures p.XLoCom() in v && ValueOf(p.VerifierLo(), v, groups) == Some(v[p.XLoCom()])
    ensures p.HiXCom() in v && ValueOf(p.VerifierHi(), v, groups) == Some(v[p.HiXCom()])
  {
    hide ValueOf, FourNames, SquareAt, RangeProof.XLoCom, RangeProof.HiXCom, RangeProof.VerifierLo, RangeProof.VerifierHi;
  }

  lemma AllChecked(p: RangeProof, v: Values, groups: map<string, int>)
    requires p.XLoCom() in v && ValueOf(p.VerifierLo(), v, groups) == Some(v[p.XLoCom()])
    requires p.HiXCom() in v && ValueOf(p.VerifierHi(), v, groups) == Some(v[p.HiXCom()])
    requires p.s.group in groups && 1 < groups[p.s.group] && p.ProdCom() in v && HasSquareComs(p, v)
    requires Pedersen.ProductOf(SquareComs(p, v), groups[p.s.group]) == v[p.ProdCom()]
    ensures Checked(p, v, groups)
  {
    hide ValueOf, HasSquareComs, SquareComs, Pedersen.ProductOf, RangeProof.XLoCom, RangeProof.HiXCom, RangeProof.VerifierLo, RangeProof.VerifierHi;
  }

  /** The squares of a range, as its check looks them up. */
  ghost predicate SquaresIn(t: Tables, p: RangeProof) {
    && p.Prod() in t.commitments && t.commitments[p.Prod()] == p.ProdCom()
    && (forall i :: p.k + 1 <= i < p.k + 5 ==> Square(i) in t.commitments && t.commitments[Square(i)] == SquareCom(i))
    && SquareCom(p.k + 1) in t.discreteLogs && t.discreteLogs[SquareCom(p.k + 1)].group == p.s.group
  }

  lemma SquaresThere(t: Tables, p: RangeProof)
    requires ContainsChecks(t, p)
    ensures SquaresIn(t, p)
  {
    forall i | p.k + 1 <= i < p.k + 5 ensures Square(i) in t.commitments && t.commitments[Square(i)] == SquareCom(i) {
      assert SquareAt(t, p, i - (p.k + 1));
    }
    assert SquareAt(t, p, 0);
  }

  lemma ProductMatches(p: RangeProof, t: Tables, v: Values, groups: map<string, int>)
    requires SquaresIn(t, p) && p.s.group in groups && 1 < groups[p.s.group] && p.ProdCom() in v
    requires SquaresMatch(p.Prod(), FourNames(p.k + 1, 4), t, v, groups)
    ensures HasSquareComs(p, v) && Pedersen.ProductOf(SquareComs(p, v), groups[p.s.group]) == v[p.ProdCom()]
  {
    FourValues(p.k + 1, t, v);
    assert FourNames(p.k + 1, 4)[0].decompSquare == Square(p.k + 1);
    hide CommitmentValues, Pedersen.ProductOf, RangeProof.Prod, RangeProof.ProdCom;
  }

  /** The values that the check multiplies. */
  lemma FourValues(k: nat, t: Tables, v: Values)
    requires CommitmentValues(FourNames(k, 4), t, v).Some?
    requires forall i :: k <= i < k + 4 ==> Square(i) in t.commitments && t.commitments[Square(i)] == SquareCom(i)
    ensures SquareCom(k) in v && SquareCom(k + 1) in v && SquareCom(k + 2) in v && SquareCom(k + 3) in v
    ensures CommitmentValues(FourNames(k, 4), t, v)
         == Some([v[SquareCom(k)], v[SquareCom(k + 1)], v[SquareCom(k + 2)], v[SquareCom(k + 3)]])
  {
    hide FourNames, CommitmentValues, Square, SquareCom, Decomp;
    StepValues(k, 4, t, v);
    StepValues(k, 3, t, v);
    StepValues(k, 2, t, v);
    StepValues(k, 1, t, v);
    var a, b, c, d := v[SquareCom(k)], v[SquareCom(k + 1)], v[SquareCom(k + 2)], v[SquareCom(k + 3)];
    assert CommitmentValues(FourNames(k, 2), t, v).value == [a] + [b];
    assert [a] + [b] + [c] + [d] == [a, b, c, d];
  }

  lemma StepValues(k: nat, n: nat, t: Tables, v: Values)
    requires n > 0 && CommitmentValues(FourNames(k, n), t, v).Some?
    requires Square(k + n - 1) in t.commitments && t.commitments[Square(k + n - 1)] == SquareCom(k + n - 1)
    ensures CommitmentValues(FourNames(k, n - 1), t, v).Some? && SquareCom(k + n - 1) in v
    ensures CommitmentValues(FourNames(k, n), t, v).value
         == CommitmentValues(FourNames(k, n - 1), t, v).value + [v[SquareCom(k + n - 1)]]
    ensures n == 1 ==> CommitmentValues(FourNames(k, n), t, v).value == [v[SquareCom(k + n - 1)]]
  {
    NamesPrefix(k, n);
    hide FourNames, Square, SquareCom, Decomp;
    if n == 1 {
      assert CommitmentValues(FourNames(k, 0), t, v) == Some([]);
    }
  }

  lemma NamesPrefix(k: nat, n: nat)
    requires n > 0
    ensures FourNames(k, n)[..n - 1] == FourNames(k, n - 1)
    ensures FourNames(k, n)[n - 1] == DecompNames(Decomp(k + n - 1), Square(k + n - 1))
    ensures |FourNames(k, n)| == n && |FourNames(k, n - 1)| == n - 1
  {
  }

  // ---------- descriptions and the protocol ----------

  /** The descriptions of a range proof. */
  ghost predicate IsDescription(d: DLR, p: RangeProof) {
    d == p.ProdProof() || d == p.HiXDLR()
    || exists i: nat :: i < 4 && OfSquare(d, p, i)
  }

  /** One of the two descriptions of the i-th square. */
  ghost predicate OfSquare(d: DLR, p: RangeProof, i: nat) {
    d == SquareProof(p.s, p.R1(), p.k + 1, i) || d == BaseDLR(p.s, p.k + 1 + i)
  }

  lemma {:induction false} DescribedSquaresAre(output: map<DLR, DLR>, p: RangeProof, n: nat)
    requires n <= 4
    ensures var o := DescribedSquares(output, p.s, p.R1(), p.k + 1, n);
      forall d :: d in o <==> d in output || exists i: nat :: i < n && OfSquare(d, p, i)
    ensures var o := DescribedSquares(output, p.s, p.R1(), p.k + 1, n);
      (forall d :: d in output ==> output[d] == d) ==> forall d :: d in o ==> o[d] == d
  {
    hide SquareProof, BaseDLR;
    if n > 0 {
      DescribedSquaresAre(output, p, n - 1);
      var before, o := DescribedSquares(output, p.s, p.R1(), p.k + 1, n - 1),
                       DescribedSquares(output, p.s, p.R1(), p.k + 1, n);
      forall d ensures d in o <==> d in output || exists i: nat :: i < n && OfSquare(d, p, i) {
        if OfSquare(d, p, n - 1) {
          assert d in o;
        }
        if d in o && d !in before {
          assert OfSquare(d, p, n - 1);
        }
      }
    }
  }

  /** What describing a range adds to the translator's output. */
  lemma DescribedAdds(output: map<DLR, DLR>, p: RangeProof)
    ensures forall d :: d in p.Described(output) <==> d in output || IsDescription(d, p)
    ensures (forall d :: d in output ==> output[d] == d) ==>
      forall d :: d in p.Described(output) ==> p.Described(output)[d] == d
  {
    hide OfSquare;
    DescribedSquaresAre(output[p.ProdProof() := p.ProdProof()][p.HiXDLR() := p.HiXDLR()], p, 4);
  }

  /** Each description of a range proof that holds holds by itself. */
  lemma DescriptionHolds(p: RangeProof, d: DLR, v: Values, w: Values, groups: map<string, int>)
    requires RangeHolds(p, v, w, groups) && IsDescription(d, p)
    ensures Holds(d, v, w, groups)
  {
    hide Holds;
    if d != p.ProdProof() && d != p.HiXDLR() {
      var i: nat :| i < 4 && OfSquare(d, p, i);
      assert SquareHolds(p, i, v, w, groups);
    }
  }

  lemma HoldsOpens(env: Sigma.Env, w: Values)
    requires forall d :: d in env.descriptions ==> env.descriptions[d] == d && Holds(d, env.variables, w, env.groups)
    ensures Sigma.WellFormed(env) && Sigma.Opens(env, w)
  {
    hide Product;
  }

  /** Conversely, exponents that open everything described satisfy the range proof. */
  lemma OpensRange(p: RangeProof, env: Sigma.Env, w: Values)
    requires Sigma.WellFormed(env) && Sigma.Opens(env, w)
    requires forall d :: IsDescription(d, p) ==> d in env.descriptions && env.descriptions[d] == d
    ensures RangeHolds(p, env.variables, w, env.groups)
  {
    hide SquareProof, BaseDLR, Product;
    forall d | IsDescription(d, p) ensures Holds(d, env.variables, w, env.groups) {
      assert d in env.descriptions && env.descriptions[d] == d;
      assert Sigma.DLRWellFormed(env, d);
    }
    hide Holds;
    forall i: nat | i < 4 ensures SquareHolds(p, i, env.variables, w, env.groups) {
      assert OfSquare(SquareProof(p.s, p.R1(), p.k + 1, i), p, i) && OfSquare(BaseDLR(p.s, p.k + 1 + i), p, i);
    }
  }

  // ---------- elements ----------

  /** The names of the elements that a range proof's descriptions are about. */
  function ElementNames(p: RangeProof): set<Text> {
    {p.s.g, p.s.h, p.XLoCom(), p.HiXCom(), p.ProdCom(),
     DecompCom(p.k + 1), DecompCom(p.k + 2), DecompCom(p.k + 3), DecompCom(p.k + 4),
     SquareCom(p.k + 1), SquareCom(p.k + 2), SquareCom(p.k + 3), SquareCom(p.k + 4)}
  }

  lemma DescriptionElements(d: DLR, p: RangeProof)
    requires IsDescription(d, p)
    ensures d.group == p.s.group && |d.bases| == 2 && |d.exps| == 2 && d.left in ElementNames(p)
    ensures d.bases[0] in ElementNames(p) && d.bases[1] in ElementNames(p)
  {
    if d != p.ProdProof() && d != p.HiXDLR() {
      var i: nat :| i < 4 && OfSquare(d, p, i);
      assert i == 0 || i == 1 || i == 2 || i == 3;
    }
  }

  ghost predicate UnitElements(p: RangeProof, v: Values, m: int)
    requires 1 < m
  {
    forall n :: n in ElementNames(p) ==> n in v && Unit(v[n], m)
  }

  /** The elements that the prover computes are units. */
  lemma ElementsAreUnits(p: RangeProof, t: Tables, v: Values, groups: map<string, int>, x: int, low: int, high: int, r: int)
    requires Contains(t, p) && Computed(t, v, groups) && Grounded(p.s, v, groups)
    requires Exponent(p.x, v) == Some(x) && Exponent(p.low, v) == Some(low) && Exponent(p.high, v) == Some(high)
    requires Exponent(p.r, v) == Some(r)
    ensures 1 < groups[p.s.group] && UnitElements(p, v, groups[p.s.group])
  {
    hide Contains, Computed, Grounded, Exponent, BoundsHave, Pedersen.Com, Unit, Pedersen.Bases, SquareHas, BoundComs;
    GroundedBases(p.s, v, groups);
    var m := groups[p.s.group];
    BoundProduct(p, t, v, groups, x, low, high, r);
    BasesAreUnits(v[p.s.g], v[p.s.h], m);
    BoundValues(p, t, v, groups, x, low, high, r);
    BoundCommitments(p, t, v, groups, x, low, high, r);
    BoundUnits(p, v, m, x, low, high, r);
    SquareUnits(p, t, v, groups, 0, p.k + 1);
    SquareUnits(p, t, v, groups, 1, p.k + 2);
    SquareUnits(p, t, v, groups, 2, p.k + 3);
    SquareUnits(p, t, v, groups, 3, p.k + 4);
  }

  lemma BasesAreUnits(g: int, h: int, m: int)
    requires Pedersen.Bases(g, h, m)
    ensures Unit(g, m) && Unit(h, m)
  {
  }

  lemma BoundUnits(p: RangeProof, v: Values, m: int, x: int, low: int, high: int, r: int)
    requires 1 < m && p.s.g in v && p.s.h in v && p.R1() in v && Pedersen.Bases(v[p.s.g], v[p.s.h], m)
    requires BoundComs(p, v, m, x, low, high, r)
    ensures p.XLoCom() in v && p.HiXCom() in v && p.ProdCom() in v
    ensures Unit(v[p.XLoCom()], m) && Unit(v[p.HiXCom()], m) && Unit(v[p.ProdCom()], m)
  {
    hide Pedersen.Com, Unit, Pedersen.Bases;
    Pedersen.UnitBases(v[p.s.g], v[p.s.h], x - low, r, m);
    Pedersen.UnitBases(v[p.s.g], v[p.s.h], high - x, -r, m);
    Pedersen.UnitBases(v[p.s.g], v[p.s.h], (x - low) * (high - x), v[p.R1()], m);
  }

  lemma SquareUnits(p: RangeProof, t: Tables, v: Values, groups: map<string, int>, i: nat, j: nat)
    requires Contains(t, p) && Computed(t, v, groups) && Grounded(p.s, v, groups) && i < 4 && j == p.k + 1 + i
    ensures DecompCom(j) in v && SquareCom(j) in v
    ensures Unit(v[DecompCom(j)], groups[p.s.group]) && Unit(v[SquareCom(j)], groups[p.s.group])
  {
    hide Contains, Computed, Grounded, Exponent, Pedersen.Com, Unit, Pedersen.Bases, RandValue, SquareProof;
    SquareValues(p, t, v, groups, i);
    GroundedBases(p.s, v, groups);
    var m := groups[p.s.group];
    Pedersen.UnitBases(v[p.s.g], v[p.s.h], v[Decomp(j)], v[RandDecomp(j)], m);
    Pedersen.UnitBases(v[p.s.g], v[p.s.h], v[Square(j)], RandValue(p, v, i).value, m);
  }

  /** Soundness of a whole range proof: from a verifier that found no bad commitment
      and accepted two challenges for one first message, the exponents extracted from
      the two responses open the commitment to a number between the bounds, or they
      relate the commitment's bases. The group's order need not be prime, as it is not
      in the RSA groups that ranges are proved in. */
  lemma RangeExtracted(p: RangeProof, t: Tables, env: Sigma.Env, ts: map<DLR, int>, c1: int, r1: map<Text, int>,
                       c2: int, r2: map<Text, int>, q: int, inv: int, turns: int, low: int, high: int)
    requires Sigma.WellFormed(env) && Sigma.InGroup(env) && (c1 - c2) * inv == 1 + turns * q
    requires Sigma.OrdersDivide(env, q)
    requires Sigma.Accepted(env, ts, c1, r1) && Sigma.Accepted(env, ts, c2, r2)
    requires forall d :: IsDescription(d, p) ==> d in env.descriptions && env.descriptions[d] == d
    requires ContainsChecks(t, p) && !Mismatch(t.decompositions.Keys, t, env.variables, env.groups)
    requires forall c :: c in t.rangeComs ==>
      c in env.variables && ValueOf(t.rangeComs[c], env.variables, env.groups) == Some(env.variables[c])
    requires Grounded(p.s, env.variables, env.groups) && 1 < env.groups[p.s.group] && p.ProdCom() in env.variables
    requires p.c in env.variables && Exponent(p.c, env.variables) == Some(env.variables[p.c])
    requires Unit(env.variables[p.c], env.groups[p.s.group])
    requires Exponent(p.low, env.variables) == Some(low) && Exponent(p.high, env.variables) == Some(high)
    ensures var xs := Sigma.Extracted(r1, r2, inv);
      && Sigma.Opens(env, xs) && HasWitness(p, xs) && Says(p, env.variables, xs, env.groups, low, high)
      && (low <= high && !(low <= OpenedTo(p, xs, high) <= high) ==> GExponent(p, xs, low, high) != 0)
  {
    hide Sigma.Opens, Sigma.Accepted, Sigma.InGroup, Sigma.WellFormed, Sigma.OrdersDivide, IsDescription;
    hide ContainsChecks, Mismatch, Exponent, ValueOf, Grounded, Checked, RangeHolds, Pedersen.Com, Unit, HasWitness;
    var xs := Sigma.Extracted(r1, r2, inv);
    Sigma.ExtractedOpens(env, ts, c1, r1, c2, r2, q, inv, turns);
    OpensRange(p, env, xs);
    InItsGroup(p, env);
    ChecksMade(p, t, env.variables, env.groups);
    RangeSound(p, env.variables, xs, env.groups, low, high);
  }

  lemma InItsGroup(p: RangeProof, env: Sigma.Env)
    requires Grounded(p.s, env.variables, env.groups)
    ensures p.s.group in env.groups && p.s.g in env.variables && p.s.h in env.variables
  {
  }

  // ---------- a new commitment to x ----------

  /** A commitment to x that translation has made stays in the tables. */
  lemma NewCommitment(t: Tables, p: RangeProof)
    requires p.c == Fresh("__x_commitment__", p.k) && p.r == Fresh("__randx_com__", p.k)
    ensures var u := p.Translated(WithX(t, p.s, p.x, p.k));
      p.r in u.randoms && p.c in u.comsToCompute && u.comsToCompute[p.c] == Com(p.s, p.c, p.x, p.r)
  {
    hide *;
    var t1 := WithX(t, p.s, p.x, p.k);
    var u := BeforeSquares(t1, p);
    var w := WithSquares(u, p.s, p.R1(), p.k + 1, 4);
    WithXHas(t, p);
    BoundsFields(t1, p);
    XNameApart(p);
    SquaresKeepTables(u, p.s, p.R1(), p.k + 1, 4);
    TranslatedIs(t1, p);
    XKept(t1, u, w, p);
  }

  lemma WithXHas(t: Tables, p: RangeProof)
    requires p.c == Fresh("__x_commitment__", p.k) && p.r == Fresh("__randx_com__", p.k)
    ensures var t1 := WithX(t, p.s, p.x, p.k);
      p.r in t1.randoms && p.c in t1.comsToCompute && t1.comsToCompute[p.c] == Com(p.s, p.c, p.x, p.r)
  {
  }

  lemma XNameApart(p: RangeProof)
    requires p.c == Fresh("__x_commitment__", p.k)
    ensures p.c != p.XLoCom() && p.c != p.HiXCom() && p.c != p.ProdCom() && AllElsewhere(p.c, p.k + 1, 4)
  {
    assert |"__x_commitment__"| == 16 && |"__xLo_commitment__"| == 18 && |"__hiX_commitment__"| == 18;
    assert |"__prod_commitment__"| == 19 && |"__decomp_com__"| == 14 && |"__square_com__"| == 14;
  }

  lemma XKept(t1: Tables, u: Tables, w: Tables, p: RangeProof)
    requires p.r in t1.randoms && p.c in t1.comsToCompute && t1.comsToCompute[p.c] == Com(p.s, p.c, p.x, p.r)
    requires p.c != p.XLoCom() && p.c != p.HiXCom() && p.c != p.ProdCom() && AllElsewhere(p.c, p.k + 1, 4)
    requires u.comsToCompute == t1.comsToCompute[p.XLoCom() := p.XLoDLR()][p.HiXCom() := p.HiXDLR()][p.ProdCom() := p.ProdDLR()]
    requires u.randoms == t1.randoms + [p.R1()] && Kept(u, w, p.k + 1, 4)
    ensures p.r in w.randoms && p.c in w.comsToCompute && w.comsToCompute[p.c] == Com(p.s, p.c, p.x, p.r)
  {
    hide Com, AllElsewhere, Fresh;
  }

  lemma WithXTidy(t: Tables, p: RangeProof)
    requires Tidy(t, p.k) && UserText(p.x) && Clear(p.s.g) && Clear(p.s.h)
    requires p.c == Fresh("__x_commitment__", p.k) && p.r == Fresh("__randx_com__", p.k)
    ensures Tidy(WithX(t, p.s, p.x, p.k), p.k) && Clear(p.r)
  {
    KindsApart();
    ClearName(p.r, RANDOMS);
    UserClear(p.x);
    ClearCom(p.s, p.c, p.x, p.r);
    assert OfKind(p.c, COMMITMENTS) && RandomNames([p.r]);
    hide Clear, ClearExpressions, Reads, FreeOf, Decomposable, Blocks, RandomNames, ClearComs, Tidy, UserText;
    TidyIs(t, p.k);
    MoreComs(t.comsToCompute, p.c, Com(p.s, p.c, p.x, p.r));
    MoreRandoms(t.randoms, [p.r]);
    TidyIs(WithX(t, p.s, p.x, p.k), p.k);
  }

  // ---------- completeness of a whole run ----------

  /** More values change nothing that has a value. */
  lemma {:induction false} ExponentExtends(e: Text, v: Values, w: Values)
    requires Extended(v, w) && Exponent(e, v).Some?
    ensures Exponent(e, w) == Exponent(e, v)
  {
    match e
    case Int(_) =>
    case Id(_) =>
    case Neg(x) => ExponentExtends(x, v, w);
    case Bin(_, l, r) => ExponentExtends(l, v, w); ExponentExtends(r, v, w);
  }

  /** The commitment to x is one that the program declares. */
  predicate Declared(p: RangeProof) {
    UserName(p.c) && UserName(p.r)
  }

  /** It has values as a commitment to x has. */
  ghost predicate DeclaredRight(p: RangeProof, groups: map<string, int>, v: Values)
    requires p.s.group in groups && p.s.g in v && p.s.h in v && Pedersen.Bases(v[p.s.g], v[p.s.h], groups[p.s.group])
    requires Exponent(p.x, v).Some?
  {
    p.c in v && p.r in v
    && Cong(v[p.c], Pedersen.Com(v[p.s.g], v[p.s.h], Exponent(p.x, v).value, v[p.r], groups[p.s.group]), groups[p.s.group])
  }

  /** The inputs of a range proof: bases that are units, and x and bounds in terms of the
      program's names that have values. A commitment of the program's is one to x. */
  ghost predicate Inputs(p: RangeProof, groups: map<string, int>, v: Values) {
    && p.s.group in groups && 1 < groups[p.s.group] && UserName(p.s.g) && UserName(p.s.h)
    && UserText(p.x) && UserText(p.low) && UserText(p.high)
    && p.s.g in v && p.s.h in v && Pedersen.Bases(v[p.s.g], v[p.s.h], groups[p.s.group])
    && Exponent(p.x, v).Some? && Exponent(p.low, v).Some? && Exponent(p.high, v).Some?
    && (Declared(p) ==> DeclaredRight(p, groups, v))
  }

  /** Four squares of every number that is not negative. */
  ghost predicate Decomposes(fourSquares: int -> seq<int>) {
    forall n :: |fourSquares(n)| == 4 && (0 <= n ==> Pedersen.Sum(Pedersen.Squares(fourSquares(n))) == n)
  }

  lemma UserNameText(g: Text)
    requires UserName(g)
    ensures UserText(g)
  {
  }

  lemma InputsClear(p: RangeProof)
    requires UserText(p.x) && UserText(p.low) && UserText(p.high) && Clear(p.r) && Clear(p.s.g) && Clear(p.s.h)
    ensures ClearRange(p)
  {
    hide Clear, UserText;
  }

  /** The prover's values of a range. */
  ghost predicate Ready(p: RangeProof, t: Tables, v: Values, groups: map<string, int>) {
    && Contains(t, p) && ContainsChecks(t, p) && Computed(t, v, groups) && Grounded(p.s, v, groups)
    && Exponent(p.x, v).Some? && Exponent(p.low, v).Some? && Exponent(p.high, v).Some? && Exponent(p.r, v).Some?
    && p.c in v && Exponent(p.c, v) == Some(v[p.c])
    && Cong(v[p.c], Pedersen.Com(v[p.s.g], v[p.s.h], Exponent(p.x, v).value, Exponent(p.r, v).value, groups[p.s.group]),
            groups[p.s.group])
  }

  lemma ProverReady(t: Tables, p: RangeProof, v0: Values, v: Values, groups: map<string, int>)
    requires Inputs(p, groups, v0) && Extended(v0, v) && Computed(t, v, groups)
    requires Contains(t, p) && ContainsChecks(t, p) && (NewCommitted(t, p) || Declared(p))
    ensures Ready(p, t, v, groups)
  {
    hide *;
    InputsHave(p, groups, v0);
    ExponentExtends(p.x, v0, v);
    ExponentExtends(p.low, v0, v);
    ExponentExtends(p.high, v0, v);
    GroundedFrom(p.s, groups, v0, v);
    if NewCommitted(t, p) {
      NewCommittedHas(t, p);
      FreshNames(p);
      NewCommitmentValue(p, t, v, groups);
    } else {
      DeclaredValue(p, v0, v, groups);
    }
    ReadyFrom(p, t, v, groups);
  }

  /** A new commitment to x is in the tables. */
  ghost predicate NewCommitted(t: Tables, p: RangeProof) {
    && p.c == Fresh("__x_commitment__", p.k) && p.r == Fresh("__randx_com__", p.k) && p.r in t.randoms
    && p.c in t.comsToCompute && t.comsToCompute[p.c] == Com(p.s, p.c, p.x, p.r)
  }

  lemma NewCommittedHas(t: Tables, p: RangeProof)
    requires NewCommitted(t, p)
    ensures p.c == Fresh("__x_commitment__", p.k) && p.r == Fresh("__randx_com__", p.k) && p.r in t.randoms
    ensures p.c in t.comsToCompute && t.comsToCompute[p.c] == Com(p.s, p.c, p.x, p.r)
  {
  }

  lemma InputsHave(p: RangeProof, groups: map<string, int>, v: Values)
    requires Inputs(p, groups, v)
    ensures p.s.group in groups && 1 < groups[p.s.group] && UserName(p.s.g) && UserName(p.s.h) && p.s.g.Id? && p.s.h.Id?
    ensures UserText(p.x) && UserText(p.low) && UserText(p.high)
    ensures p.s.g in v && p.s.h in v && Pedersen.Bases(v[p.s.g], v[p.s.h], groups[p.s.group])
    ensures Exponent(p.x, v).Some? && Exponent(p.low, v).Some? && Exponent(p.high, v).Some?
  {
    hide Exponent, Pedersen.Bases, UserText;
  }

  lemma GroundedFrom(s: Setting, groups: map<string, int>, v0: Values, v: Values)
    requires Extended(v0, v) && s.g.Id? && s.h.Id? && s.g in v0 && s.h in v0 && s.group in groups
    requires Pedersen.Bases(v0[s.g], v0[s.h], groups[s.group])
    ensures Grounded(s, v, groups)
  {
    hide Pedersen.Bases;
  }

  lemma FreshNames(p: RangeProof)
    requires p.c == Fresh("__x_commitment__", p.k) && p.r == Fresh("__randx_com__", p.k)
    ensures p.c.Id? && p.r.Id?
  {
  }

  lemma ReadyFrom(p: RangeProof, t: Tables, v: Values, groups: map<string, int>)
    requires Contains(t, p) && ContainsChecks(t, p) && Computed(t, v, groups) && Grounded(p.s, v, groups)
    requires Exponent(p.x, v).Some? && Exponent(p.low, v).Some? && Exponent(p.high, v).Some? && Exponent(p.r, v).Some?
    requires p.c in v && Exponent(p.c, v) == Some(v[p.c])
    requires 1 < groups[p.s.group] && Cong(v[p.c],
      Pedersen.Com(v[p.s.g], v[p.s.h], Exponent(p.x, v).value, Exponent(p.r, v).value, groups[p.s.group]), groups[p.s.group])
    ensures Ready(p, t, v, groups)
  {
    hide Contains, ContainsChecks, Computed, Exponent, Pedersen.Com;
  }

  lemma ProductValue(p: RangeProof, v: Values)
    requires Exponent(p.x, v).Some? && Exponent(p.low, v).Some? && Exponent(p.high, v).Some?
    ensures Exponent(p.Prod(), v) == Some((Exponent(p.x, v).value - Exponent(p.low, v).value)
                                          * (Exponent(p.high, v).value - Exponent(p.x, v).value))
  {
    hide Exponent;
    SubValue(p.x, p.low, v);
    SubValue(p.high, p.x, v);
    MulValue(p.XLo(), p.HiX(), v);
  }

  lemma NonNegativeProduct(x: int, low: int, high: int)
    requires low <= x <= high
    ensures 0 <= (x - low) * (high - x)
  {
  }

  lemma NewCommitmentValue(p: RangeProof, t: Tables, v: Values, groups: map<string, int>)
    requires Computed(t, v, groups) && Grounded(p.s, v, groups) && Exponent(p.x, v).Some?
    requires p.c.Id? && p.r.Id? && p.r in t.randoms
    requires p.c in t.comsToCompute && t.comsToCompute[p.c] == Com(p.s, p.c, p.x, p.r)
    ensures Exponent(p.r, v).Some? && p.c in v && Exponent(p.c, v) == Some(v[p.c])
    ensures 1 < groups[p.s.group] && Cong(v[p.c],
      Pedersen.Com(v[p.s.g], v[p.s.h], Exponent(p.x, v).value, Exponent(p.r, v).value, groups[p.s.group]), groups[p.s.group])
  {
    hide Computed, Grounded, Exponent, Pedersen.Com;
    RandomValue(t, p.r, v, groups);
    GroundedBases(p.s, v, groups);
    ComputedCom(t, p.s, p.c, p.x, p.r, v, groups);
    NameValue(p.c, v);
    Pedersen.ReflCong(v[p.c], groups[p.s.group]);
  }

  lemma DeclaredValue(p: RangeProof, v0: Values, v: Values, groups: map<string, int>)
    requires Inputs(p, groups, v0) && Extended(v0, v) && Declared(p)
    requires Grounded(p.s, v, groups) && Exponent(p.x, v) == Exponent(p.x, v0)
    ensures Exponent(p.r, v).Some? && p.c in v && Exponent(p.c, v) == Some(v[p.c])
    ensures 1 < groups[p.s.group] && Cong(v[p.c],
      Pedersen.Com(v[p.s.g], v[p.s.h], Exponent(p.x, v).value, Exponent(p.r, v).value, groups[p.s.group]), groups[p.s.group])
  {
    hide UserText, Pedersen.Com, Pedersen.Bases, Cong;
    NameValue(p.c, v);
    NameValue(p.r, v);
    hide Exponent, UserName;
  }

  // ---------- the verifier's values ----------

  const OWN: set<string> := {"__xLo_commitment__", "__hiX_commitment__"}

  /** The verifier computes the commitments to x - low and high - x itself, and no others. */
  ghost predicate OwnComs(t: Tables, p: RangeProof) {
    && p.XLoCom() in t.rangeComs && t.rangeComs[p.XLoCom()] == p.VerifierLo()
    && p.HiXCom() in t.rangeComs && t.rangeComs[p.HiXCom()] == p.VerifierHi()
    && OnlyOwn(t)
  }

  ghost predicate OnlyOwn(t: Tables) {
    forall c :: c in t.rangeComs ==> OfKind(c, OWN)
  }

  lemma NotOwn(p: RangeProof, j: nat)
    ensures !OfKind(p.ProdCom(), OWN) && !OfKind(DecompCom(j), OWN) && !OfKind(SquareCom(j), OWN)
    ensures !OfKind(Fresh("__x_commitment__", j), OWN)
  {
    assert |"__x_commitment__"| == 16 && |"__xLo_commitment__"| == 18 && |"__hiX_commitment__"| == 18;
    assert |"__prod_commitment__"| == 19 && |"__decomp_com__"| == 14 && |"__square_com__"| == 14;
  }

  /** The commitments that the prover publishes: all but those of x - low and high - x. */
  function Published(t: Tables, v: Values): Values {
    map c | c in t.comsToCompute && c in v && c !in t.rangeComs :: v[c]
  }

  /** The verifier has the prover's commitments and the public names, and has computed
      its own range commitments. */
  ghost predicate VerifierHas(p: RangeProof, t: Tables, v: Values, w: Values, groups: map<string, int>) {
    && (forall n :: n in Published(t, v) ==> n in w && w[n] == v[n])
    && p.s.g in v && p.s.g in w && w[p.s.g] == v[p.s.g] && p.s.h in v && p.s.h in w && w[p.s.h] == v[p.s.h]
    && p.s.g.Id? && p.s.h.Id? && p.c.Id? && p.c in v && p.c in w && w[p.c] == v[p.c]
    && Exponent(p.low, w) == Exponent(p.low, v) && Exponent(p.high, w) == Exponent(p.high, v)
    && OwnComs(t, p)
    && forall c :: c in t.rangeComs ==> c in w && ValueOf(t.rangeComs[c], w, groups) == Some(w[c])
  }

  /** The verifier's own commitments are the prover's. */
  lemma OwnAreSame(p: RangeProof, t: Tables, v: Values, w: Values, groups: map<string, int>)
    requires Ready(p, t, v, groups) && VerifierHas(p, t, v, w, groups)
    ensures p.XLoCom() in v && p.XLoCom() in w && w[p.XLoCom()] == v[p.XLoCom()]
    ensures p.HiXCom() in v && p.HiXCom() in w && w[p.HiXCom()] == v[p.HiXCom()]
  {
    hide Contains, ContainsChecks, Computed, Exponent, Pedersen.Com, ValueOf, Grounded, Pedersen.Bases;
    var x, low, high, r := Exponent(p.x, v).value, Exponent(p.low, v).value, Exponent(p.high, v).value, Exponent(p.r, v).value;
    GroundedBases(p.s, v, groups);
    var m := groups[p.s.group];
    ChecksPass(p, t, v, groups, x, low, high, r);
    RangeExponents(p, v, w);
    GroundedValues(p.s, v, groups);
    NameValue(p.s.g, w);
    NameValue(p.c, w);
    SameValue(p.XLoCom(), p.s, p.c, Neg(p.low), Int(1), v, w, groups);
    SameValue(p.HiXCom(), p.s, p.c, p.high, Neg(Int(1)), v, w, groups);
    assert p.XLoCom() in t.rangeComs && p.HiXCom() in t.rangeComs;
    RangeNamesApart(p, 0);
  }

  lemma RangeExponents(p: RangeProof, v: Values, w: Values)
    requires Exponent(p.low, v).Some? && Exponent(p.high, v).Some?
    requires Exponent(p.low, w) == Exponent(p.low, v) && Exponent(p.high, w) == Exponent(p.high, v)
    ensures Exponent(Neg(p.low), v).Some? && Exponent(Neg(p.low), w) == Exponent(Neg(p.low), v)
    ensures Exponent(Neg(Int(1)), v).Some? && Exponent(Neg(Int(1)), w) == Exponent(Neg(Int(1)), v)
    ensures Exponent(Int(1), v).Some? && Exponent(Int(1), w) == Exponent(Int(1), v)
  {
  }

  lemma SameValue(left: Text, s: Setting, c: Text, a: Text, b: Text, v: Values, w: Values, groups: map<string, int>)
    requires s.group in groups && 1 < groups[s.group]
    requires Exponent(s.g, v).Some? && Exponent(s.g, w) == Exponent(s.g, v)
    requires Exponent(c, v).Some? && Exponent(c, w) == Exponent(c, v)
    requires Exponent(a, v).Some? && Exponent(a, w) == Exponent(a, v)
    requires Exponent(b, v).Some? && Exponent(b, w) == Exponent(b, v)
    ensures ValueOf(Sigma.DLR(left, s.group, [s.g, c], [a, b]), w, groups)
         == ValueOf(Sigma.DLR(left, s.group, [s.g, c], [a, b]), v, groups)
  {
    hide Exponent, ValueOf, Pedersen.Com;
    PairValue(left, s.group, s.g, c, a, b, v, groups);
    PairValue(left, s.group, s.g, c, a, b, w, groups);
  }

  /** The verifier has all elements of the descriptions, with the prover's values. */
  lemma ElementsAreSame(p: RangeProof, t: Tables, v: Values, w: Values, groups: map<string, int>)
    requires Ready(p, t, v, groups) && VerifierHas(p, t, v, w, groups)
    ensures forall n :: n in ElementNames(p) ==> SharedName(n, v, w)
  {
    hide Contains, ContainsChecks, Computed, Grounded, Exponent, Pedersen.Com, Ready, VerifierHas, Published, ElementNames,
         RangeProof.XLoCom, RangeProof.HiXCom, RangeProof.ProdCom, DecompCom, SquareCom;
    OwnAreSame(p, t, v, w, groups);
    ReadyHas(p, t, v, groups);
    HasPublished(p, t, v, w, groups);
    ComsPublished(p, t, v, groups);
    ElementsAre(p, v, w);
  }

  lemma ReadyHas(p: RangeProof, t: Tables, v: Values, groups: map<string, int>)
    requires Ready(p, t, v, groups)
    ensures Contains(t, p) && ContainsChecks(t, p) && Computed(t, v, groups) && Grounded(p.s, v, groups)
    ensures Exponent(p.x, v).Some? && Exponent(p.low, v).Some? && Exponent(p.high, v).Some? && Exponent(p.r, v).Some?
  {
    hide Contains, ContainsChecks, Computed, Grounded, Exponent, Pedersen.Com;
  }

  lemma HasPublished(p: RangeProof, t: Tables, v: Values, w: Values, groups: map<string, int>)
    requires VerifierHas(p, t, v, w, groups)
    ensures forall n :: n in Published(t, v) ==> n in w && w[n] == v[n]
    ensures p.s.g in v && p.s.g in w && w[p.s.g] == v[p.s.g] && p.s.h in v && p.s.h in w && w[p.s.h] == v[p.s.h]
    ensures OwnComs(t, p)
  {
    hide Published, ValueOf, Exponent;
  }

  /** A name with the same value on both sides. */
  predicate SharedName(n: Text, v: Values, w: Values) {
    n in v && n in w && w[n] == v[n]
  }

  lemma ElementsAre(p: RangeProof, v: Values, w: Values)
    requires SharedName(p.s.g, v, w) && SharedName(p.s.h, v, w)
    requires SharedName(p.XLoCom(), v, w) && SharedName(p.HiXCom(), v, w) && SharedName(p.ProdCom(), v, w)
    requires SharedName(DecompCom(p.k + 1), v, w) && SharedName(DecompCom(p.k + 2), v, w)
    requires SharedName(DecompCom(p.k + 3), v, w) && SharedName(DecompCom(p.k + 4), v, w)
    requires SharedName(SquareCom(p.k + 1), v, w) && SharedName(SquareCom(p.k + 2), v, w)
    requires SharedName(SquareCom(p.k + 3), v, w) && SharedName(SquareCom(p.k + 4), v, w)
    ensures forall n :: n in ElementNames(p) ==> SharedName(n, v, w)
  {
    hide SharedName;
  }

  lemma ComsPublished(p: RangeProof, t: Tables, v: Values, groups: map<string, int>)
    requires Contains(t, p) && Computed(t, v, groups)
    requires OwnComs(t, p)
    ensures p.ProdCom() in Published(t, v)
    ensures DecompCom(p.k + 1) in Published(t, v) && DecompCom(p.k + 2) in Published(t, v)
    ensures DecompCom(p.k + 3) in Published(t, v) && DecompCom(p.k + 4) in Published(t, v)
    ensures SquareCom(p.k + 1) in Published(t, v) && SquareCom(p.k + 2) in Published(t, v)
    ensures SquareCom(p.k + 3) in Published(t, v) && SquareCom(p.k + 4) in Published(t, v)
    ensures forall n :: n in Published(t, v) ==> n in v && Published(t, v)[n] == v[n]
  {
    NotOwn(p, p.k + 1); NotOwn(p, p.k + 2); NotOwn(p, p.k + 3); NotOwn(p, p.k + 4);
    ComsThere(p, t);
    hide Contains, ValueOf, Exponent, Decomposed, ContainsSquare, OfKind;
  }

  lemma ComsThere(p: RangeProof, t: Tables)
    requires Contains(t, p)
    ensures p.ProdCom() in t.comsToCompute
    ensures DecompCom(p.k + 1) in t.comsToCompute && DecompCom(p.k + 2) in t.comsToCompute
    ensures DecompCom(p.k + 3) in t.comsToCompute && DecompCom(p.k + 4) in t.comsToCompute
    ensures SquareCom(p.k + 1) in t.comsToCompute && SquareCom(p.k + 2) in t.comsToCompute
    ensures SquareCom(p.k + 3) in t.comsToCompute && SquareCom(p.k + 4) in t.comsToCompute
  {
    assert ContainsSquare(t, p, 0) && ContainsSquare(t, p, 1) && ContainsSquare(t, p, 2) && ContainsSquare(t, p, 3);
  }

  lemma StepKnown(k: nat, n: nat, t: Tables, v: Values)
    requires n > 0 && CommitmentValues(FourNames(k, n - 1), t, v).Some?
    requires Square(k + n - 1) in t.commitments && t.commitments[Square(k + n - 1)] == SquareCom(k + n - 1)
    requires SquareCom(k + n - 1) in v
    ensures CommitmentValues(FourNames(k, n), t, v).Some?
  {
    NamesPrefix(k, n);
    hide FourNames, Square, SquareCom, Decomp;
  }

  /** The square commitments of a checked range. */
  ghost predicate SquaresKnown(p: RangeProof, t: Tables) {
    && (forall i :: p.k + 1 <= i < p.k + 5 ==> Square(i) in t.commitments && t.commitments[Square(i)] == SquareCom(i))
    && p.Prod() in t.commitments && t.commitments[p.Prod()] == p.ProdCom()
    && SquareCom(p.k + 1) in t.discreteLogs && t.discreteLogs[SquareCom(p.k + 1)].group == p.s.group
  }

  lemma ChecksKnown(p: RangeProof, t: Tables)
    requires ContainsChecks(t, p)
    ensures SquaresKnown(p, t)
  {
    forall i | p.k + 1 <= i < p.k + 5 ensures Square(i) in t.commitments && t.commitments[Square(i)] == SquareCom(i) {
      assert SquareAt(t, p, i - (p.k + 1));
    }
    assert SquareAt(t, p, 0);
  }

  lemma FourKnown(p: RangeProof, t: Tables, w: Values)
    requires SquaresKnown(p, t) && HasSquareComs(p, w)
    ensures CommitmentValues(FourNames(p.k + 1, 4), t, w) == Some(SquareComs(p, w))
  {
    var k := p.k + 1;
    hide FourNames, CommitmentValues, Square, SquareCom, Decomp, RangeProof.Prod, RangeProof.ProdCom;
    NoNames(k, t, w);
    StepKnown(k, 1, t, w);
    StepKnown(k, 2, t, w);
    StepKnown(k, 3, t, w);
    StepKnown(k, 4, t, w);
    FourValues(k, t, w);
  }

  lemma NoNames(k: nat, t: Tables, w: Values)
    ensures CommitmentValues(FourNames(k, 0), t, w) == Some([])
  {
  }

  /** An honest range passes the verifier's check. */
  lemma SquaresDoMatch(p: RangeProof, t: Tables, v: Values, w: Values, groups: map<string, int>)
    requires Ready(p, t, v, groups) && VerifierHas(p, t, v, w, groups)
    ensures SquaresMatch(p.Prod(), FourNames(p.k + 1, 4), t, w, groups)
  {
    hide Contains, ContainsChecks, Computed, Grounded, Exponent, Pedersen.Com, Pedersen.ProductOf, VerifierHas, Published,
         CommitmentValues, FourNames, Square, SquareCom, ValueOf, Pedersen.Bases, SquaresMatch, SharedName, HasSquareComs, SquareComs;
    ReadyHas(p, t, v, groups);
    GroundedBases(p.s, v, groups);
    ChecksKnown(p, t);
    ElementsAreSame(p, t, v, w, groups);
    SquaresShared(p, v, w);
    FourKnown(p, t, w);
    ChecksPass(p, t, v, groups, Exponent(p.x, v).value, Exponent(p.low, v).value, Exponent(p.high, v).value, Exponent(p.r, v).value);
    MatchFrom(p, t, w, groups);
  }

  lemma SquaresShared(p: RangeProof, v: Values, w: Values)
    requires forall n :: n in ElementNames(p) ==> SharedName(n, v, w)
    ensures HasSquareComs(p, v) && HasSquareComs(p, w) && SquareComs(p, w) == SquareComs(p, v)
    ensures p.ProdCom() in v && p.ProdCom() in w && w[p.ProdCom()] == v[p.ProdCom()]
  {
    assert SharedName(p.ProdCom(), v, w) && SharedName(SquareCom(p.k + 1), v, w) && SharedName(SquareCom(p.k + 2), v, w)
        && SharedName(SquareCom(p.k + 3), v, w) && SharedName(SquareCom(p.k + 4), v, w);
  }

  lemma MatchFrom(p: RangeProof, t: Tables, w: Values, groups: map<string, int>)
    requires SquaresKnown(p, t) && HasSquareComs(p, w) && p.ProdCom() in w
    requires CommitmentValues(FourNames(p.k + 1, 4), t, w) == Some(SquareComs(p, w))
    requires p.s.group in groups && 1 < groups[p.s.group]
    requires Pedersen.ProductOf(SquareComs(p, w), groups[p.s.group]) == w[p.ProdCom()]
    ensures SquaresMatch(p.Prod(), FourNames(p.k + 1, 4), t, w, groups)
  {
    var names := FourNames(p.k + 1, 4);
    assert names[0] == DecompNames(Decomp(p.k + 1), Square(p.k + 1));
    hide CommitmentValues, Pedersen.ProductOf, SquareComs, FourNames;
  }

  // ---------- names and values ----------

  lemma ReadsOf(d: DLR, x: Text, y: Text, a: Text, b: Text)
    requires d.bases == [x, y] && d.exps == [a, b]
    ensures Reads(d) == Leaves(x) + Leaves(y) + (Leaves(a) + Leaves(b))
  {
    hide Leaves, LeavesOf;
    LeavesOfPair(x, y);
    LeavesOfPair(a, b);
  }

  lemma FourEach(fourSquares: int -> seq<int>)
    requires Decomposes(fourSquares)
    ensures forall n :: |fourSquares(n)| == 4
  {
    hide Pedersen.Sum;
  }

  lemma PublishedKinds(t: Tables, v: Values, counter: nat)
    requires Tidy(t, counter)
    ensures forall n :: n in Published(t, v) ==> OfKind(n, COMMITMENTS)
  {
    hide Reads, Leaves, FreeOf, Blocks;
  }

  lemma BoundsHaveValues(p: RangeProof, v0: Values, w: Values)
    requires Extended(v0, w) && Exponent(p.x, v0).Some? && Exponent(p.low, v0).Some? && Exponent(p.high, v0).Some?
    ensures Has(p.x, w) && Has(p.low, w) && Has(p.high, w)
  {
    hide Extended, Exponent;
    ExponentExtends(p.x, v0, w);
    ExponentExtends(p.low, v0, w);
    ExponentExtends(p.high, v0, w);
  }

  lemma RandomHas(t: Tables, p: RangeProof, w: Values)
    requires p.r in t.randoms && HasRandoms(t, w) && p.r == Fresh("__randx_com__", p.k)
    ensures Has(p.r, w)
  {
  }

  lemma BoundsReadyFrom(p: RangeProof, w: Values)
    requires Has(p.x, w) && Has(p.low, w) && Has(p.high, w) && Has(p.r, w) && Has(p.R1(), w)
    ensures BoundsReady(p, w)
  {
    hide Has;
  }

  lemma VerifierValues(p: RangeProof, w: Values, groups: map<string, int>)
    requires p.s.group in groups && 1 < groups[p.s.group] && Exponent(p.s.g, w).Some? && Exponent(p.c, w).Some?
    requires Exponent(p.low, w).Some? && Exponent(p.high, w).Some?
    ensures ValueOf(p.VerifierLo(), w, groups).Some? && ValueOf(p.VerifierHi(), w, groups).Some?
  {
    VerifierExponents(p, w, Exponent(p.low, w).value, Exponent(p.high, w).value);
    hide Exponent, ValueOf, Pedersen.Com;
    PairValue(p.XLoCom(), p.s.group, p.s.g, p.c, Neg(p.low), Int(1), w, groups);
    PairValue(p.HiXCom(), p.s.group, p.s.g, p.c, p.high, Neg(Int(1)), w, groups);
  }

  lemma SquareComsIn(p: RangeProof, w: Values)
    requires SquareCom(p.k + 1) in w && SquareCom(p.k + 2) in w && SquareCom(p.k + 3) in w && SquareCom(p.k + 4) in w
    ensures HasSquareComs(p, w)
  {
  }

  lemma KnownWithin(known: Values, v0: Values)
    requires Extended(known, v0) && Within(v0, {}, {})
    ensures Within(known, {}, {})
  {
    hide UserName;
  }
}
