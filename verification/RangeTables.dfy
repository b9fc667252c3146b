/** That translating a range enters everything the proof needs into the tables, and
    keeps them tidy. */
module RangeTables {
  import opened Ast
  import opened Translator
  import opened Interpreters
  import opened RangeProofs
  import Pedersen
  import Sigma

  // ---------- one square ----------

  /** A later square overwrites nothing of an earlier commitment. */
  predicate Elsewhere(c: Text, j: nat) {
    c != DecompCom(j) && c != SquareCom(j)
  }

  /** What one square adds to each table. */
  lemma SquareFields(t: Tables, s: Setting, r: Text, k: nat, i: nat)
    ensures var u, j := WithSquare(t, s, r, k, i), k + i;
      u.comsToCompute == t.comsToCompute[DecompCom(j) := BaseDLR(s, j)][SquareCom(j) := SquareDLR(s, r, k, i)]
      && u.discreteLogs == t.discreteLogs[DecompCom(j) := BaseDLR(s, j)][SquareCom(j) := SquareDLR(s, r, k, i)]
      && u.commitments == t.commitments[Decomp(j) := DecompCom(j)][Square(j) := SquareCom(j)]
    ensures var u, j := WithSquare(t, s, r, k, i), k + i;
      u.randoms == t.randoms + [RandDecomp(j)] + (if i != 3 then [RandSquare(j)] else [])
      && u.expressions == t.expressions + Compound(SquareProof(s, r, k, i).bases) + Compound(SquareProof(s, r, k, i).exps)
                        + Compound(BaseDLR(s, j).bases) + Compound(BaseDLR(s, j).exps)
      && u.rangeComs == t.rangeComs && u.decompositions == t.decompositions && u.generators == t.generators
  {
    hide SquareProof, BaseDLR, SquareDLR, Compound, Decomp, DecompCom, Square, SquareCom, RandDecomp, RandSquare;
  }

  lemma SquareKeepsTables(t: Tables, s: Setting, r: Text, k: nat, i: nat)
    ensures var u := WithSquare(t, s, r, k, i);
      t.expressions <= u.expressions && (forall e :: e in t.randoms ==> e in u.randoms)
      && u.rangeComs == t.rangeComs && u.decompositions == t.decompositions && u.generators == t.generators
    ensures var u := WithSquare(t, s, r, k, i);
      forall c :: c in t.comsToCompute && Elsewhere(c, k + i) ==>
        c in u.comsToCompute && u.comsToCompute[c] == t.comsToCompute[c]
    ensures var u := WithSquare(t, s, r, k, i);
      forall e :: e in t.commitments && e != Decomp(k + i) && e != Square(k + i) ==>
        e in u.commitments && u.commitments[e] == t.commitments[e]
    ensures var u := WithSquare(t, s, r, k, i);
      forall c :: c in t.discreteLogs && Elsewhere(c, k + i) ==>
        c in u.discreteLogs && u.discreteLogs[c] == t.discreteLogs[c]
  {
    hide WithSquare, SquareProof, BaseDLR, SquareDLR, Compound, Decomp, DecompCom, Square, SquareCom, RandDecomp, RandSquare;
    SquareFields(t, s, r, k, i);
  }

  /** The entries of the i-th square. */
  ghost predicate SquareIn(u: Tables, s: Setting, r: Text, k: nat, i: nat) {
    && SquareProof(s, r, k, i).exps[1] in u.expressions
    && RandDecomp(k + i) in u.randoms && (i != 3 ==> RandSquare(k + i) in u.randoms)
    && DecompCom(k + i) in u.comsToCompute && u.comsToCompute[DecompCom(k + i)] == BaseDLR(s, k + i)
    && SquareCom(k + i) in u.comsToCompute && u.comsToCompute[SquareCom(k + i)] == SquareDLR(s, r, k, i)
    && Square(k + i) in u.commitments && u.commitments[Square(k + i)] == SquareCom(k + i)
    && SquareCom(k + i) in u.discreteLogs && u.discreteLogs[SquareCom(k + i)] == SquareDLR(s, r, k, i)
  }

  lemma SquareEnters(t: Tables, s: Setting, r: Text, k: nat, i: nat)
    ensures SquareIn(WithSquare(t, s, r, k, i), s, r, k, i)
  {
    ComsDiffer(k + i);
    SquareExpression(s, r, k, i);
    hide WithSquare, SquareProof, BaseDLR, SquareDLR, Compound, Decomp, DecompCom, Square, SquareCom, RandDecomp, RandSquare;
    SquareFields(t, s, r, k, i);
  }

  lemma ComsDiffer(j: nat)
    ensures DecompCom(j) != SquareCom(j)
  {
    assert "__decomp_com__"[2] == 'd' && "__square_com__"[2] == 's';
  }

  lemma SquareExpression(s: Setting, r: Text, k: nat, i: nat)
    ensures SquareProof(s, r, k, i).exps[1] in Compound(SquareProof(s, r, k, i).exps)
  {
    hide SquareRand;
    assert SquareProof(s, r, k, i).exps[1] in SquareProof(s, r, k, i).exps;
  }

  lemma SquareNamesApart(k: nat, i: nat, j: nat)
    requires i != j
    ensures Elsewhere(DecompCom(k + i), k + j) && Elsewhere(SquareCom(k + i), k + j)
    ensures Square(k + i) != Decomp(k + j) && Square(k + i) != Square(k + j)
  {
    assert "__decomp_com__"[2] == 'd' && "__square_com__"[2] == 's';
    assert "__decomp__"[2] == 'd' && "__square__"[2] == 's';
  }

  /** All squares' entries are in the tables at the end. */
  lemma {:induction false} SquaresEnter(t: Tables, s: Setting, r: Text, k: nat, n: nat)
    ensures forall i :: 0 <= i < n ==> SquareIn(WithSquares(t, s, r, k, n), s, r, k, i)
  {
    hide SquareProof, BaseDLR, SquareDLR, WithSquare;
    if n > 0 {
      var before := WithSquares(t, s, r, k, n - 1);
      SquaresEnter(t, s, r, k, n - 1);
      SquareEnters(before, s, r, k, n - 1);
      SquareKeepsTables(before, s, r, k, n - 1);
      forall i | 0 <= i < n - 1 ensures SquareIn(WithSquares(t, s, r, k, n), s, r, k, i) {
        assert SquareIn(before, s, r, k, i);
        SquareNamesApart(k, i, n - 1);
        SquareStays(before, s, r, k, i, n - 1);
      }
    }
  }

  lemma SquareStays(t: Tables, s: Setting, r: Text, k: nat, i: nat, j: nat)
    requires SquareIn(t, s, r, k, i) && i != j
    ensures SquareIn(WithSquare(t, s, r, k, j), s, r, k, i)
  {
    hide SquareProof, BaseDLR, SquareDLR, WithSquare, Elsewhere;
    SquareNamesApart(k, i, j);
    SquareKeepsTables(t, s, r, k, j);
  }

  /** u has t's entries, except for commitments that the squares are stored under. */
  ghost predicate Kept(t: Tables, u: Tables, k: nat, n: nat) {
    && t.expressions <= u.expressions && (forall e :: e in t.randoms ==> e in u.randoms)
    && u.rangeComs == t.rangeComs && u.decompositions == t.decompositions
    && (forall c :: c in t.comsToCompute && AllElsewhere(c, k, n) ==>
          c in u.comsToCompute && u.comsToCompute[c] == t.comsToCompute[c])
    && (forall e :: e in t.commitments && !OfKind(e, SQUARES) ==>
          e in u.commitments && u.commitments[e] == t.commitments[e])
  }

  ghost predicate AllElsewhere(c: Text, k: nat, n: nat) {
    forall j :: k <= j < k + n ==> Elsewhere(c, j)
  }

  /** The squares overwrite nothing that was there. */
  lemma {:induction false} SquaresKeepTables(t: Tables, s: Setting, r: Text, k: nat, n: nat)
    ensures Kept(t, WithSquares(t, s, r, k, n), k, n)
  {
    hide WithSquare, Elsewhere;
    if n > 0 {
      SquaresKeepTables(t, s, r, k, n - 1);
      SquareKeepsTables(WithSquares(t, s, r, k, n - 1), s, r, k, n - 1);
      forall c | AllElsewhere(c, k, n) ensures AllElsewhere(c, k, n - 1) && Elsewhere(c, k + (n - 1)) {}
    }
  }

  // ---------- a range ----------

  lemma RangeNamesApart(p: RangeProof, j: nat)
    ensures Elsewhere(p.XLoCom(), j) && Elsewhere(p.HiXCom(), j) && Elsewhere(p.ProdCom(), j)
    ensures p.XLoCom() != p.HiXCom() && p.XLoCom() != p.ProdCom() && p.HiXCom() != p.ProdCom()
  {
    assert "__decomp_com__"[2] == 'd' && "__square_com__"[2] == 's' && "__xLo_commitment__"[2] == 'x';
    assert "__hiX_commitment__"[2] == 'h' && "__prod_commitment__"[2] == 'p';
  }

  /** What the verifier needs of a range proof is in the tables. */
  ghost predicate ContainsChecks(t: Tables, p: RangeProof) {
    && p.XLoCom() in t.rangeComs && t.rangeComs[p.XLoCom()] == p.VerifierLo()
    && p.HiXCom() in t.rangeComs && t.rangeComs[p.HiXCom()] == p.VerifierHi()
    && p.Prod() in t.commitments && t.commitments[p.Prod()] == p.ProdCom()
    && p.Prod() in t.decompositions && t.decompositions[p.Prod()] == FourNames(p.k + 1, 4)
    && forall i :: 0 <= i < 4 ==> SquareAt(t, p, i)
  }

  ghost predicate SquareAt(t: Tables, p: RangeProof, i: nat) {
    SquareIn(t, p.s, p.R1(), p.k + 1, i)
  }

  /** The tables before the squares. */
  function BeforeSquares(t: Tables, p: RangeProof): Tables {
    WithCompound(WithCompound(p.WithBounds(t), p.ProdProof()), p.HiXDLR())
  }

  lemma BoundsEnter(t: Tables, p: RangeProof)
    ensures BoundsIn(BeforeSquares(t, p), p)
  {
    hide BeforeSquares, Elsewhere, Compound;
    RangeNamesApart(p, 0);
    BoundsFields(t, p);
    ProofExpression(p);
    var u := BeforeSquares(t, p);
    assert p.R1() in [p.R1()] && p.R1() in u.randoms;
  }

  lemma ProofExpression(p: RangeProof)
    ensures p.ProdProof().exps[1] in Parts(p.ProdProof())
  {
    assert p.ProdProof().exps[1] in p.ProdProof().exps;
  }

  /** Translating a range enters all that its proof needs. */
  lemma TranslatedContains(t: Tables, p: RangeProof)
    ensures Contains(p.Translated(t), p) && ContainsChecks(p.Translated(t), p)
  {
    hide BeforeSquares, WithSquares, Elsewhere, Kept, SquareIn;
    var u, k := BeforeSquares(t, p), p.k + 1;
    var w := WithSquares(u, p.s, p.R1(), k, 4);
    BoundsEnter(t, p);
    SquaresEnter(u, p.s, p.R1(), k, 4);
    SquaresKeepTables(u, p.s, p.R1(), k, 4);
    forall j ensures Elsewhere(p.XLoCom(), j) && Elsewhere(p.HiXCom(), j) && Elsewhere(p.ProdCom(), j) {
      RangeNamesApart(p, j);
    }
    forall i | 0 <= i < 4 ensures SquareAt(w, p, i) {
      assert SquareIn(w, p.s, p.R1(), k, i);
    }
    TranslatedIs(t, p);
    EntersAll(u, w, p);
  }

  lemma TranslatedIs(t: Tables, p: RangeProof)
    ensures p.Translated(t) == WithSquares(BeforeSquares(t, p), p.s, p.R1(), p.k + 1, 4)
      .(decompositions := BeforeSquares(t, p).decompositions[p.Prod() := FourNames(p.k + 1, 4)])
  {
    hide WithSquares, WithCompound;
  }

  /** The tables with the bounds' entries and all squares'. */
  ghost predicate BoundsIn(u: Tables, p: RangeProof) {
    && {p.XLo(), p.HiX(), p.Prod(), p.NegR(), p.ProdProof().exps[1]} <= u.expressions && p.R1() in u.randoms
    && p.XLoCom() in u.rangeComs && u.rangeComs[p.XLoCom()] == p.VerifierLo()
    && p.HiXCom() in u.rangeComs && u.rangeComs[p.HiXCom()] == p.VerifierHi()
    && p.Prod() in u.commitments && u.commitments[p.Prod()] == p.ProdCom()
    && p.XLoCom() in u.comsToCompute && u.comsToCompute[p.XLoCom()] == p.XLoDLR()
    && p.HiXCom() in u.comsToCompute && u.comsToCompute[p.HiXCom()] == p.HiXDLR()
    && p.ProdCom() in u.comsToCompute && u.comsToCompute[p.ProdCom()] == p.ProdDLR()
  }

  lemma EntersAll(u: Tables, w: Tables, p: RangeProof)
    requires BoundsIn(u, p) && Kept(u, w, p.k + 1, 4)
    requires forall j :: Elsewhere(p.XLoCom(), j) && Elsewhere(p.HiXCom(), j) && Elsewhere(p.ProdCom(), j)
    requires forall i :: 0 <= i < 4 ==> SquareAt(w, p, i)
    ensures var t := w.(decompositions := u.decompositions[p.Prod() := FourNames(p.k + 1, 4)]);
      Contains(t, p) && ContainsChecks(t, p)
  {
    hide Elsewhere, SquareRand;
    var t := w.(decompositions := u.decompositions[p.Prod() := FourNames(p.k + 1, 4)]);
    assert AllElsewhere(p.XLoCom(), p.k + 1, 4) && AllElsewhere(p.HiXCom(), p.k + 1, 4) && AllElsewhere(p.ProdCom(), p.k + 1, 4);
    assert BoundsIn(t, p) by { hide *; KeptBounds(u, w, t, p); }
    forall i | 0 <= i < 4 ensures SquareAt(t, p, i) {
      assert SquareAt(w, p, i);
    }
    forall i | 0 <= i < 4 ensures ContainsSquare(t, p, i) {
      assert SquareAt(t, p, i);
    }
    hide ContainsSquare, SquareIn, BoundsIn;
    ContainsFrom(t, p);
    ChecksFrom(t, p);
  }

  lemma ContainsFrom(t: Tables, p: RangeProof)
    requires BoundsIn(t, p) && p.Prod() in t.decompositions && t.decompositions[p.Prod()] == FourNames(p.k + 1, 4)
    requires forall i :: 0 <= i < 4 ==> ContainsSquare(t, p, i)
    ensures Contains(t, p)
  {
    hide ContainsSquare;
  }

  lemma ChecksFrom(t: Tables, p: RangeProof)
    requires BoundsIn(t, p) && p.Prod() in t.decompositions && t.decompositions[p.Prod()] == FourNames(p.k + 1, 4)
    requires forall i :: 0 <= i < 4 ==> SquareAt(t, p, i)
    ensures ContainsChecks(t, p)
  {
    hide SquareAt, SquareIn;
  }

  lemma KeptBounds(u: Tables, w: Tables, t: Tables, p: RangeProof)
    requires BoundsIn(u, p) && Kept(u, w, p.k + 1, 4)
    requires AllElsewhere(p.XLoCom(), p.k + 1, 4) && AllElsewhere(p.HiXCom(), p.k + 1, 4) && AllElsewhere(p.ProdCom(), p.k + 1, 4)
    requires t == w.(decompositions := t.decompositions)
    ensures BoundsIn(t, p)
  {
    hide Elsewhere, AllElsewhere;
    assert !p.Prod().Id?;
  }

  // ---------- tables stay tidy ----------

  /** No commitment is named in the expression. */
  ghost predicate Clear(e: Text) {
    FreeOf(Leaves(e), COMMITMENTS)
  }

  lemma ClearOps(op: Op, a: Text, b: Text)
    requires Clear(a) && Clear(b)
    ensures Clear(Bin(op, a, b)) && Clear(Neg(a))
  {
  }

  lemma ClearName(e: Text, kinds: set<string>)
    requires OfKind(e, kinds) && kinds !! COMMITMENTS
    ensures Clear(e)
  {
  }

  ghost predicate ClearExpressions(es: set<Text>) {
    forall e :: e in es ==> !e.Id? && Clear(e)
  }

  ghost predicate ClearComs(coms: map<Text, DLR>) {
    forall c :: c in coms ==> OfKind(c, COMMITMENTS) && FreeOf(Reads(coms[c]), COMMITMENTS)
  }

  ghost predicate RandomNames(rs: seq<Text>) {
    forall r :: r in rs ==> OfKind(r, RANDOMS)
  }

  ghost predicate Decomposable(ds: map<Text, seq<DecompNames>>) {
    forall e :: e in ds ==> !e.Id? && FreeOf(Leaves(e), COMMITMENTS + SQUARES)
  }

  lemma TidyIs(t: Tables, counter: nat)
    ensures Tidy(t, counter) <==>
      RandomNames(t.randoms) && ClearExpressions(t.expressions)
      && Decomposable(t.decompositions) && ClearComs(t.comsToCompute) && Blocks(t.decompositions, counter)
  {
    hide Leaves, Reads, FreeOf, Blocks, OfKind;
  }

  /** A commitment of a tidy table has clear bases and exponents. */
  lemma ClearCom(s: Setting, left: Text, a: Text, b: Text)
    requires Clear(s.g) && Clear(s.h) && Clear(a) && Clear(b)
    ensures FreeOf(Reads(Com(s, left, a, b)), COMMITMENTS)
    ensures ClearExpressions(Compound(Com(s, left, a, b).bases) + Compound(Com(s, left, a, b).exps))
  {
    hide Leaves, OfKind, LeavesOf;
    LeavesOfPair(s.g, s.h);
    LeavesOfPair(a, b);
    var d := Com(s, left, a, b);
    assert Reads(d) == Leaves(s.g) + Leaves(s.h) + (Leaves(a) + Leaves(b));
    forall e | e in d.bases || e in d.exps ensures Clear(e) {
    }
  }

  lemma ClearParts(left: Text, group: string, x: Text, h: Text, a: Text, b: Text)
    requires x.Id? && Clear(h) && Clear(a) && Clear(b)
    ensures var d := Sigma.DLR(left, group, [x, h], [a, b]); ClearExpressions(Compound(d.bases) + Compound(d.exps))
  {
    hide Leaves, FreeOf;
  }

  lemma MoreExpressions(a: set<Text>, b: set<Text>)
    requires ClearExpressions(a) && ClearExpressions(b)
    ensures ClearExpressions(a + b)
  {
    hide Clear;
  }

  lemma MoreComs(coms: map<Text, DLR>, c: Text, d: DLR)
    requires ClearComs(coms) && OfKind(c, COMMITMENTS) && FreeOf(Reads(d), COMMITMENTS)
    ensures ClearComs(coms[c := d])
  {
    hide FreeOf, Reads;
  }

  lemma ClearSquareParts(r: Text, k: nat, i: nat)
    requires Clear(r)
    ensures Clear(Decomp(k + i)) && Clear(RandDecomp(k + i)) && Clear(Square(k + i)) && Clear(SquareRand(r, k, i))
    ensures Clear(SubText(SquareRand(r, k, i), MulText(Decomp(k + i), RandDecomp(k + i))))
    ensures OfKind(DecompCom(k + i), COMMITMENTS) && OfKind(SquareCom(k + i), COMMITMENTS)
    ensures OfKind(RandDecomp(k + i), RANDOMS) && OfKind(RandSquare(k + i), RANDOMS)
  {
    KindsApart();
    ClearName(Decomp(k + i), SQUARES);
    ClearName(Square(k + i), SQUARES);
    ClearName(RandDecomp(k + i), RANDOMS);
    ClearName(RandSquare(k + i), RANDOMS);
    ClearName(RandSquare(k), RANDOMS); ClearName(RandSquare(k + 1), RANDOMS); ClearName(RandSquare(k + 2), RANDOMS);
    hide Clear;
    ClearOps(Add, RandSquare(k), RandSquare(k + 1));
    ClearOps(Add, AddText(RandSquare(k), RandSquare(k + 1)), RandSquare(k + 2));
    ClearOps(Subtract, r, AddText(AddText(RandSquare(k), RandSquare(k + 1)), RandSquare(k + 2)));
    ClearOps(Mul, Decomp(k + i), RandDecomp(k + i));
    ClearOps(Subtract, SquareRand(r, k, i), MulText(Decomp(k + i), RandDecomp(k + i)));
  }

  function Parts(d: DLR): set<Text> {
    Compound(d.bases) + Compound(d.exps)
  }

  /** The descriptions and commitments of a square are clear. */
  lemma ClearSquare(s: Setting, r: Text, k: nat, i: nat)
    requires Clear(s.g) && Clear(s.h) && Clear(r)
    ensures ClearExpressions(Parts(SquareProof(s, r, k, i))) && ClearExpressions(Parts(BaseDLR(s, k + i)))
    ensures FreeOf(Reads(BaseDLR(s, k + i)), COMMITMENTS) && FreeOf(Reads(SquareDLR(s, r, k, i)), COMMITMENTS)
  {
    hide Clear, ClearExpressions, FreeOf, Reads, Compound, SquareRand;
    var j := k + i;
    ClearSquareParts(r, k, i);
    ClearParts(SquareCom(j), s.group, DecompCom(j), s.h, Decomp(j), SquareProof(s, r, k, i).exps[1]);
    ClearCom(s, DecompCom(j), Decomp(j), RandDecomp(j));
    ClearCom(s, SquareCom(j), Square(j), SquareRand(r, k, i));
  }

  lemma MoreRandoms(rs: seq<Text>, qs: seq<Text>)
    requires RandomNames(rs) && RandomNames(qs)
    ensures RandomNames(rs + qs)
  {
    hide OfKind;
  }

  lemma SquareRandoms(k: nat, i: nat)
    ensures RandomNames([RandDecomp(k + i)]) && RandomNames(if i != 3 then [RandSquare(k + i)] else [])
  {
  }

  lemma SquareTidy(t: Tables, s: Setting, r: Text, k: nat, i: nat, counter: nat)
    requires Tidy(t, counter) && Clear(s.g) && Clear(s.h) && Clear(r)
    ensures Tidy(WithSquare(t, s, r, k, i), counter)
  {
    hide *;
    var d, b, q, j := SquareProof(s, r, k, i), BaseDLR(s, k + i), SquareDLR(s, r, k, i), k + i;
    var u := WithSquare(t, s, r, k, i);
    TidyIs(t, counter);
    SquareFields(t, s, r, k, i);
    SquareParts(t, s, r, k, i);
    ClearSquare(s, r, k, i);
    ClearSquareParts(r, k, i);
    SquareRandoms(k, i);
    MoreExpressions(t.expressions, Parts(d));
    MoreExpressions(t.expressions + Parts(d), Parts(b));
    MoreComs(t.comsToCompute, DecompCom(j), b);
    MoreComs(t.comsToCompute[DecompCom(j) := b], SquareCom(j), q);
    MoreRandoms(t.randoms, [RandDecomp(j)]);
    MoreRandoms(t.randoms + [RandDecomp(j)], if i != 3 then [RandSquare(j)] else []);
    TidyIs(u, counter);
  }

  lemma SquareParts(t: Tables, s: Setting, r: Text, k: nat, i: nat)
    ensures WithSquare(t, s, r, k, i).expressions
         == t.expressions + Parts(SquareProof(s, r, k, i)) + Parts(BaseDLR(s, k + i))
  {
    hide WithSquare, SquareProof, BaseDLR, Compound;
    SquareFields(t, s, r, k, i);
  }

  lemma {:induction false} SquaresTidy(t: Tables, s: Setting, r: Text, k: nat, n: nat, counter: nat)
    requires Tidy(t, counter) && Clear(s.g) && Clear(s.h) && Clear(r)
    ensures Tidy(WithSquares(t, s, r, k, n), counter)
  {
    hide Tidy, Clear, WithSquare;
    if n > 0 {
      SquaresTidy(t, s, r, k, n - 1, counter);
      SquareTidy(WithSquares(t, s, r, k, n - 1), s, r, k, n - 1, counter);
    }
  }

  /** What a range proof is about names nothing that its squares or commitments do. */
  ghost predicate ClearRange(p: RangeProof) {
    && UserText(p.x) && UserText(p.low) && UserText(p.high) && Clear(p.r) && Clear(p.s.g) && Clear(p.s.h)
  }

  lemma ClearBounds(p: RangeProof)
    requires ClearRange(p)
    ensures Clear(p.x) && Clear(p.low) && Clear(p.high)
    ensures Clear(p.XLo()) && Clear(p.HiX()) && Clear(p.Prod()) && Clear(p.NegR()) && Clear(p.R1())
    ensures Clear(SubText(p.R1(), MulText(p.HiX(), p.r)))
    ensures FreeOf(Leaves(p.Prod()), COMMITMENTS + SQUARES)
  {
    KindsApart();
    ClearName(p.R1(), RANDOMS);
    UserClear(p.x); UserClear(p.low); UserClear(p.high);
    ProdFree(p);
    hide Clear, FreeOf, Leaves, UserText;
    ClearOps(Subtract, p.x, p.low);
    ClearOps(Subtract, p.high, p.x);
    ClearOps(Mul, p.XLo(), p.HiX());
    ClearOps(Subtract, p.r, p.r);
    ClearOps(Mul, p.HiX(), p.r);
    ClearOps(Subtract, p.R1(), MulText(p.HiX(), p.r));
  }

  lemma UserClear(e: Text)
    requires UserText(e)
    ensures Clear(e) && FreeOf(Leaves(e), COMMITMENTS + SQUARES)
  {
    hide Leaves;
  }

  lemma ProdFree(p: RangeProof)
    requires UserText(p.x) && UserText(p.low) && UserText(p.high)
    ensures FreeOf(Leaves(p.Prod()), COMMITMENTS + SQUARES)
  {
    UserClear(p.x); UserClear(p.low); UserClear(p.high);
    assert Leaves(p.Prod()) == Leaves(p.x) + Leaves(p.low) + Leaves(p.high);
  }

  /** What the bounds add to each table. */
  lemma BoundsFields(t: Tables, p: RangeProof)
    ensures var u := BeforeSquares(t, p);
      u.comsToCompute == t.comsToCompute[p.XLoCom() := p.XLoDLR()][p.HiXCom() := p.HiXDLR()][p.ProdCom() := p.ProdDLR()]
      && u.randoms == t.randoms + [p.R1()]
      && u.commitments == t.commitments[p.XLo() := p.XLoCom()][p.HiX() := p.HiXCom()][p.Prod() := p.ProdCom()]
      && u.expressions == t.expressions + {p.XLo(), p.HiX(), p.Prod(), p.NegR()} + Parts(p.ProdProof()) + Parts(p.HiXDLR())
      && u.decompositions == t.decompositions && u.generators == t.generators
      && u.rangeComs == t.rangeComs[p.XLoCom() := p.VerifierLo()][p.HiXCom() := p.VerifierHi()]
      && u.discreteLogs == t.discreteLogs[p.XLoCom() := p.XLoDLR()][p.HiXCom() := p.HiXDLR()][p.ProdCom() := p.ProdDLR()]
  {
    hide Compound;
  }

  lemma BoundsTidy(t: Tables, p: RangeProof, counter: nat)
    requires Tidy(t, counter) && ClearRange(p)
    ensures Tidy(BeforeSquares(t, p), counter)
  {
    ClearBounds(p);
    BoundTexts(p);
    hide *;
    TidyIs(t, counter);
    BoundsFields(t, p);
    BoundDescriptions(p);
    MoreExpressions(t.expressions, {p.XLo(), p.HiX(), p.Prod(), p.NegR()});
    MoreExpressions(t.expressions + {p.XLo(), p.HiX(), p.Prod(), p.NegR()}, Parts(p.ProdProof()));
    MoreExpressions(t.expressions + {p.XLo(), p.HiX(), p.Prod(), p.NegR()} + Parts(p.ProdProof()), Parts(p.HiXDLR()));
    MoreComs(t.comsToCompute, p.XLoCom(), p.XLoDLR());
    MoreComs(t.comsToCompute[p.XLoCom() := p.XLoDLR()], p.HiXCom(), p.HiXDLR());
    MoreComs(t.comsToCompute[p.XLoCom() := p.XLoDLR()][p.HiXCom() := p.HiXDLR()], p.ProdCom(), p.ProdDLR());
    MoreRandoms(t.randoms, [p.R1()]);
    TidyIs(BeforeSquares(t, p), counter);
  }

  lemma BoundTexts(p: RangeProof)
    requires Clear(p.XLo()) && Clear(p.HiX()) && Clear(p.Prod()) && Clear(p.NegR())
    ensures ClearExpressions({p.XLo(), p.HiX(), p.Prod(), p.NegR()}) && RandomNames([p.R1()])
    ensures OfKind(p.XLoCom(), COMMITMENTS) && OfKind(p.HiXCom(), COMMITMENTS) && OfKind(p.ProdCom(), COMMITMENTS)
  {
    hide Clear;
  }

  lemma BoundDescriptions(p: RangeProof)
    requires ClearRange(p)
    ensures ClearExpressions(Parts(p.ProdProof())) && ClearExpressions(Parts(p.HiXDLR()))
    ensures FreeOf(Reads(p.XLoDLR()), COMMITMENTS) && FreeOf(Reads(p.HiXDLR()), COMMITMENTS)
    ensures FreeOf(Reads(p.ProdDLR()), COMMITMENTS)
  {
    ClearBounds(p);
    hide Clear, ClearExpressions, FreeOf, Reads, Compound, UserText;
    ClearParts(p.ProdCom(), p.s.group, p.XLoCom(), p.s.h, p.HiX(), p.ProdProof().exps[1]);
    ClearCom(p.s, p.XLoCom(), p.XLo(), p.r);
    ClearCom(p.s, p.HiXCom(), p.HiX(), p.NegR());
    ClearCom(p.s, p.ProdCom(), p.Prod(), p.R1());
  }

  lemma MoreBlocks(ds: map<Text, seq<DecompNames>>, e: Text, k: nat)
    requires Blocks(ds, k)
    ensures Blocks(ds[e := FourNames(k + 1, 4)], k + 6)
  {
    var fs := ds[e := FourNames(k + 1, 4)];
    forall f | f in fs ensures exists l: nat :: fs[f] == FourNames(l, 4) && l + 4 <= k + 6 {
      if f == e {
        assert fs[f] == FourNames(k + 1, 4) && k + 1 + 4 <= k + 6;
      } else {
        var l: nat :| ds[f] == FourNames(l, 4) && l + 4 <= k;
      }
    }
    forall f, g, i, j | f in fs && g in fs && f != g && 0 <= i < |fs[f]| && 0 <= j < |fs[g]|
      ensures fs[f][i].decomp != fs[g][j].decomp && fs[f][i].decompSquare != fs[g][j].decompSquare
    {
      if f == e {
        BlockBefore(ds, g, k, j);
        assert fs[f][i] == DecompNames(Decomp(k + 1 + i), Square(k + 1 + i));
      } else if g == e {
        BlockBefore(ds, f, k, i);
        assert fs[g][j] == DecompNames(Decomp(k + 1 + j), Square(k + 1 + j));
      }
    }
  }

  lemma BlockBefore(ds: map<Text, seq<DecompNames>>, f: Text, k: nat, i: nat)
    requires Blocks(ds, k) && f in ds && i < |ds[f]|
    ensures exists l: nat :: l < k && ds[f][i] == DecompNames(Decomp(l), Square(l))
  {
    var l: nat :| ds[f] == FourNames(l, 4) && l + 4 <= k;
    assert ds[f][i] == DecompNames(Decomp(l + i), Square(l + i));
  }

  /** Translating a range keeps the tables tidy. */
  lemma TranslatedTidy(t: Tables, p: RangeProof)
    requires Tidy(t, p.k) && ClearRange(p)
    ensures Tidy(p.Translated(t), p.k + 6)
  {
    hide *;
    var u := BeforeSquares(t, p);
    var w := WithSquares(u, p.s, p.R1(), p.k + 1, 4);
    var ds := t.decompositions[p.Prod() := FourNames(p.k + 1, 4)];
    ClearBounds(p);
    ClearRangeHas(p);
    BoundsTidy(t, p, p.k);
    SquaresTidy(u, p.s, p.R1(), p.k + 1, 4, p.k);
    TidyIs(t, p.k);
    MoreBlocks(t.decompositions, p.Prod(), p.k);
    MoreDecomposable(t.decompositions, p.Prod(), FourNames(p.k + 1, 4));
    TidyWith(w, ds, p.k, p.k + 6);
    BoundsFields(t, p);
    TranslatedIs(t, p);
  }

  lemma TidyWith(t: Tables, ds: map<Text, seq<DecompNames>>, counter: nat, next: nat)
    requires Tidy(t, counter) && Decomposable(ds) && Blocks(ds, next)
    ensures Tidy(t.(decompositions := ds), next)
  {
    hide *;
    TidyIs(t, counter);
    TidyIs(t.(decompositions := ds), next);
  }

  lemma ClearRangeHas(p: RangeProof)
    requires ClearRange(p)
    ensures Clear(p.s.g) && Clear(p.s.h) && !p.Prod().Id?
  {
    hide Clear, UserText;
  }

  lemma MoreDecomposable(ds: map<Text, seq<DecompNames>>, e: Text, names: seq<DecompNames>)
    requires Decomposable(ds) && !e.Id? && FreeOf(Leaves(e), COMMITMENTS + SQUARES)
    ensures Decomposable(ds[e := names])
  {
    hide FreeOf, Leaves;
  }

  // ---------- what a later range leaves alone ----------

  /** A name that was made up with a counter below k. */
  predicate Older(c: Text, k: nat) {
    c.Id? && c.name.sub.Num? && c.name.sub.n < k
  }

  /** u has all that t has under older names. */
  ghost predicate KeptOld(t: Tables, u: Tables, k: nat) {
    && t.expressions <= u.expressions && (forall e :: e in t.randoms ==> e in u.randoms) && u.generators == t.generators
    && OldKept(t.comsToCompute, u.comsToCompute, k) && OldKept(t.discreteLogs, u.discreteLogs, k)
    && OldKept(t.rangeComs, u.rangeComs, k)
    && (forall e :: e in t.commitments && Older(e, k) ==> e in u.commitments && u.commitments[e] == t.commitments[e])
  }

  ghost predicate OldKept(a: map<Text, DLR>, b: map<Text, DLR>, k: nat) {
    forall c :: c in a && Older(c, k) ==> c in b && b[c] == a[c]
  }

  lemma KeptOldTrans(t: Tables, u: Tables, w: Tables, k: nat)
    requires KeptOld(t, u, k) && KeptOld(u, w, k)
    ensures KeptOld(t, w, k)
  {
    hide Older;
  }

  lemma SquareKeepsOld(t: Tables, s: Setting, r: Text, k: nat, i: nat)
    ensures KeptOld(t, WithSquare(t, s, r, k, i), k)
  {
    NotOlder(k + i, k);
    hide WithSquare, SquareProof, BaseDLR, SquareDLR, Compound, Decomp, DecompCom, Square, SquareCom, RandDecomp, RandSquare,
         Older, OldKept;
    var j := k + i;
    SquareFields(t, s, r, k, i);
    TwoKept(t.comsToCompute, DecompCom(j), BaseDLR(s, j), SquareCom(j), SquareDLR(s, r, k, i), k);
    TwoKept(t.discreteLogs, DecompCom(j), BaseDLR(s, j), SquareCom(j), SquareDLR(s, r, k, i), k);
    NoneKept(t.rangeComs, k);
  }

  lemma TwoKept(a: map<Text, DLR>, c: Text, d: DLR, e: Text, f: DLR, k: nat)
    requires !Older(c, k) && !Older(e, k)
    ensures OldKept(a, a[c := d][e := f], k)
  {
    hide Older;
  }

  lemma NoneKept(a: map<Text, DLR>, k: nat)
    ensures OldKept(a, a, k)
  {
    hide Older;
  }

  lemma NotOlder(j: nat, k: nat)
    requires k <= j
    ensures !Older(Decomp(j), k) && !Older(DecompCom(j), k) && !Older(Square(j), k) && !Older(SquareCom(j), k)
  {
  }

  lemma {:induction false} SquaresKeepOld(t: Tables, s: Setting, r: Text, k: nat, n: nat)
    ensures KeptOld(t, WithSquares(t, s, r, k, n), k)
  {
    hide WithSquare, Older;
    if n > 0 {
      SquaresKeepOld(t, s, r, k, n - 1);
      SquareKeepsOld(WithSquares(t, s, r, k, n - 1), s, r, k, n - 1);
      KeptOldTrans(t, WithSquares(t, s, r, k, n - 1), WithSquares(t, s, r, k, n), k);
    }
  }

  lemma BoundsKeepOld(t: Tables, p: RangeProof)
    ensures KeptOld(t, BeforeSquares(t, p), p.k)
  {
    BoundsNotOlder(p);
    hide BeforeSquares, Compound, Older, RangeProof.XLoCom, RangeProof.HiXCom, RangeProof.ProdCom;
    BoundsFields(t, p);
  }

  lemma BoundsNotOlder(p: RangeProof)
    ensures !Older(p.XLoCom(), p.k) && !Older(p.HiXCom(), p.k) && !Older(p.ProdCom(), p.k)
    ensures !Older(p.XLo(), p.k) && !Older(p.HiX(), p.k) && !Older(p.Prod(), p.k)
  {
  }

  /** Translating a range changes nothing under older names. */
  lemma RangeKeepsOld(t: Tables, p: RangeProof)
    ensures KeptOld(t, p.Translated(t), p.k)
  {
    hide *;
    var u := BeforeSquares(t, p);
    var w := WithSquares(u, p.s, p.R1(), p.k + 1, 4);
    BoundsKeepOld(t, p);
    SquaresKeepOld(u, p.s, p.R1(), p.k + 1, 4);
    OlderStill(u, w, p.k);
    KeptOldTrans(t, u, w, p.k);
    TranslatedIs(t, p);
    KeptOldBut(t, w, p.Translated(t), p.k);
  }

  lemma OlderStill(t: Tables, u: Tables, k: nat)
    requires KeptOld(t, u, k + 1)
    ensures KeptOld(t, u, k)
  {
    OlderMono(k);
    hide Older;
  }

  lemma OlderMono(k: nat)
    ensures forall c :: Older(c, k) ==> Older(c, k + 1)
  {
  }

  lemma KeptOldBut(t: Tables, w: Tables, u: Tables, k: nat)
    requires KeptOld(t, w, k) && exists ds :: u == w.(decompositions := ds)
    ensures KeptOld(t, u, k)
  {
    hide Older, OldKept;
  }

  lemma WithXKeepsOld(t: Tables, s: Setting, x: Text, k: nat)
    ensures KeptOld(t, WithX(t, s, x, k), k)
  {
  }

  /** Which decompositions and commitments of compound expressions a range changes. */
  lemma RangeKeepsCompound(t: Tables, p: RangeProof)
    ensures p.Translated(t).decompositions == t.decompositions[p.Prod() := FourNames(p.k + 1, 4)]
    ensures forall e :: e in t.commitments && !OfKind(e, SQUARES) && e != p.XLo() && e != p.HiX() && e != p.Prod() ==>
      e in p.Translated(t).commitments && p.Translated(t).commitments[e] == t.commitments[e]
  {
    hide *;
    TranslatedIs(t, p);
    BoundsFields(t, p);
    SquaresKeepTables(BeforeSquares(t, p), p.s, p.R1(), p.k + 1, 4);
    CompoundKept(t, BeforeSquares(t, p), WithSquares(BeforeSquares(t, p), p.s, p.R1(), p.k + 1, 4), p);
  }

  lemma CompoundKept(t: Tables, u: Tables, w: Tables, p: RangeProof)
    requires u.commitments == t.commitments[p.XLo() := p.XLoCom()][p.HiX() := p.HiXCom()][p.Prod() := p.ProdCom()]
    requires Kept(u, w, p.k + 1, 4)
    ensures w.decompositions == u.decompositions
    ensures forall e :: e in t.commitments && !OfKind(e, SQUARES) && e != p.XLo() && e != p.HiX() && e != p.Prod() ==>
      e in w.commitments && w.commitments[e] == t.commitments[e]
  {
    hide AllElsewhere, OfKind;
  }

  /** The entries of an older range stay. */
  lemma ContainsKept(t: Tables, u: Tables, p: RangeProof, k: nat)
    requires Contains(t, p) && KeptOld(t, u, k) && p.k + 5 <= k
    requires p.Prod() in u.decompositions && u.decompositions[p.Prod()] == FourNames(p.k + 1, 4)
    ensures Contains(u, p)
  {
    BoundsOlder(p, k);
    forall i | 0 <= i < 4 ensures ContainsSquare(u, p, i) {
      assert ContainsSquare(t, p, i);
      SquareOlder(p.k + 1 + i, k);
      hide Older, SquareProof, SquareDLR, BaseDLR;
    }
    hide Older, ContainsSquare;
  }

  lemma BoundsOlder(p: RangeProof, k: nat)
    requires p.k < k
    ensures Older(p.XLoCom(), k) && Older(p.HiXCom(), k) && Older(p.ProdCom(), k)
  {
  }

  lemma SquareOlder(j: nat, k: nat)
    requires j < k
    ensures Older(DecompCom(j), k) && Older(SquareCom(j), k) && Older(Square(j), k)
  {
  }

  lemma ChecksKept(t: Tables, u: Tables, p: RangeProof, k: nat)
    requires ContainsChecks(t, p) && KeptOld(t, u, k) && p.k + 5 <= k
    requires p.Prod() in u.decompositions && u.decompositions[p.Prod()] == FourNames(p.k + 1, 4)
    requires p.Prod() in u.commitments && u.commitments[p.Prod()] == p.ProdCom()
    ensures ContainsChecks(u, p)
  {
    BoundsOlder(p, k);
    forall i | 0 <= i < 4 ensures SquareAt(u, p, i) {
      assert SquareAt(t, p, i);
      SquareOlder(p.k + 1 + i, k);
      hide Older, SquareProof, SquareDLR, BaseDLR;
    }
    hide Older, SquareAt;
  }

  /** A range proof's entries survive the translation of a later range exactly when
      the two ranges are about different products: the decompositions and the
      commitment to the product are kept under the product's text. */
  lemma SurvivesIff(t: Tables, p: RangeProof, q: RangeProof)
    requires Contains(t, p) && ContainsChecks(t, p) && p.k + 6 <= q.k
    ensures Contains(q.Translated(t), p) && ContainsChecks(q.Translated(t), p) <==> p.Prod() != q.Prod()
  {
    hide Contains, ContainsChecks, RangeProof.Translated, KeptOld;
    var u := q.Translated(t);
    if p.Prod() == q.Prod() {
      TranslatedContains(t, q);
      OtherNames(u, p, q);
    } else {
      RangeKeepsOld(t, q);
      RangeKeepsCompound(t, q);
      ProductHas(t, p);
      ProductKept(t, u, p, q);
      ContainsKept(t, u, p, q.k);
      ChecksKept(t, u, p, q.k);
    }
  }

  lemma ProductHas(t: Tables, p: RangeProof)
    requires ContainsChecks(t, p)
    ensures p.Prod() in t.decompositions && t.decompositions[p.Prod()] == FourNames(p.k + 1, 4)
    ensures p.Prod() in t.commitments && t.commitments[p.Prod()] == p.ProdCom()
  {
    hide SquareAt;
  }

  lemma ProductKept(t: Tables, u: Tables, p: RangeProof, q: RangeProof)
    requires p.Prod() in t.decompositions && p.Prod() in t.commitments && p.Prod() != q.Prod()
    requires u.decompositions == t.decompositions[q.Prod() := FourNames(q.k + 1, 4)]
    requires forall e :: e in t.commitments && !OfKind(e, SQUARES) && e != q.XLo() && e != q.HiX() && e != q.Prod() ==>
      e in u.commitments && u.commitments[e] == t.commitments[e]
    ensures p.Prod() in u.decompositions && u.decompositions[p.Prod()] == t.decompositions[p.Prod()]
    ensures p.Prod() in u.commitments && u.commitments[p.Prod()] == t.commitments[p.Prod()]
  {
    assert !OfKind(p.Prod(), SQUARES) && p.Prod() != q.XLo() && p.Prod() != q.HiX();
    hide OfKind, FourNames;
  }

  lemma OtherNames(u: Tables, p: RangeProof, q: RangeProof)
    requires Contains(u, q) && p.Prod() == q.Prod() && p.k != q.k
    ensures !Contains(u, p)
  {
    assert FourNames(p.k + 1, 4)[0] == DecompNames(Decomp(p.k + 1), Square(p.k + 1));
    assert FourNames(q.k + 1, 4)[0] == DecompNames(Decomp(q.k + 1), Square(q.k + 1));
    hide ContainsSquare, SquareProof;
  }
}
