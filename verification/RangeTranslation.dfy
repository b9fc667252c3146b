/** Translation of several ranges, one after the other, into one set of tables. */
module RangeTranslation {
  import opened Ast
  import opened Translator
  import opened Interpreters
  import opened RangeProofs
  import opened RangeTables
  import opened RangeEvaluation
  import opened RangeRun
  import Sigma

  /** What a program declares: generators of its groups, and commitments with their
      descriptions. */
  datatype Program = Program(
    generators: map<string, seq<Text>>,
    commitments: map<Text, Text>,
    discreteLogs: map<Text, DLR>)

  /** A range as the program states it. */
  datatype Request = Request(x: Text, low: Text, high: Text, group: string)

  function ProductText(r: Request): Text {
    MulText(SubText(r.x, r.low), SubText(r.high, r.x))
  }

  /** The expressions that a range commits to. */
  predicate IsBound(e: Text, r: Request) {
    e == SubText(r.x, r.low) || e == SubText(r.high, r.x) || e == ProductText(r)
  }

  /** No range is about an expression that an earlier one commits to. */
  ghost predicate Apart(rs: seq<Request>) {
    forall i, j :: 0 <= i < j < |rs| ==> !IsBound(rs[j].x, rs[i])
  }

  /** No two ranges have the same product. */
  ghost predicate DifferentProducts(rs: seq<Request>) {
    forall i, j :: 0 <= i < j < |rs| ==> ProductText(rs[i]) != ProductText(rs[j])
  }

  /** The tables before the first range. */
  function Start(d: Program): Tables {
    Tables(d.generators, d.commitments, d.discreteLogs, map[], map[], map[], [], {})
  }

  /** The program's commitment to what a range is about. */
  function CommitmentOf(r: Request, d: Program): DLR
    requires HasCommitment(Start(d), r.x, r.group)
  {
    d.discreteLogs[d.commitments[r.x]]
  }

  /** The names of a commitment to x that translation makes. */
  predicate FreshX(p: RangeProof) {
    p.c == Fresh("__x_commitment__", p.k) && p.r == Fresh("__randx_com__", p.k)
  }

  /** Nothing that a request's translation looks up is missing. */
  predicate Translatable(r: Request, d: Program) {
    if HasCommitment(Start(d), r.x, r.group) then
      var c := CommitmentOf(r, d); |c.bases| == 2 && |c.exps| == 2
    else r.group in d.generators && |d.generators[r.group]| >= 2
  }

  /** The range proof that a request is translated into with a counter: over the program's
      commitment to x in the group, with x's own base first and the other exponent for the
      randomness, or over a new one with the group's first two generators. */
  function ProofOf(r: Request, d: Program, k: nat): RangeProof
    requires Translatable(r, d)
  {
    if HasCommitment(Start(d), r.x, r.group) then
      var c := CommitmentOf(r, d);
      if c.exps[0] == r.x then
        RangeProof(Setting(r.group, c.bases[0], c.bases[1]), c.left, r.x, c.exps[1], r.low, r.high, k)
      else
        RangeProof(Setting(r.group, c.bases[1], c.bases[0]), c.left, r.x, c.exps[0], r.low, r.high, k)
    else
      var s := Setting(r.group, d.generators[r.group][0], d.generators[r.group][1]);
      RangeProof(s, Fresh("__x_commitment__", k), r.x, Fresh("__randx_com__", k), r.low, r.high, k)
  }

  /** The range proofs of a program: each range takes six counters. */
  function Proofs(rs: seq<Request>, d: Program): (ps: seq<RangeProof>)
    requires forall i :: 0 <= i < |rs| ==> Translatable(rs[i], d)
    ensures |ps| == |rs| && forall i :: 0 <= i < |ps| ==> ps[i] == ProofOf(rs[i], d, 6 * i)
  {
    seq(|rs|, i requires 0 <= i < |rs| => ProofOf(rs[i], d, 6 * i))
  }

  predicate Answers(p: RangeProof, r: Request, d: Program) {
    Translatable(r, d) && p == ProofOf(r, d, p.k)
  }

  ghost predicate AllAnswer(ps: seq<RangeProof>, rs: seq<Request>, d: Program) {
    |ps| <= |rs| && forall i :: 0 <= i < |ps| ==> Answers(ps[i], rs[i], d)
  }

  /** A description of a commitment with two of the program's names as exponents: x, at
      either place, and another one. */
  ghost predicate CommitsTo(c: DLR, x: Text, d: Program) {
    && Two(c) && UserName(c.left) && UserName(c.bases[0]) && UserName(c.bases[1])
    && UserName(c.exps[0]) && UserName(c.exps[1])
    && (c.exps[0] == x || (c.exps[1] == x && c.exps[0] !in d.commitments))
  }

  /** A range in terms of the program's names, with a commitment to x or two generators. */
  ghost predicate Stated(r: Request, d: Program) {
    && UserText(r.x) && UserText(r.low) && UserText(r.high) && Translatable(r, d)
    && (r.x in d.commitments ==> UserName(d.commitments[r.x]) && d.commitments[r.x] in d.discreteLogs)
    && if HasCommitment(Start(d), r.x, r.group) then CommitsTo(CommitmentOf(r, d), r.x, d)
       else UserName(d.generators[r.group][0]) && UserName(d.generators[r.group][1])
  }

  // ---------- what translation has entered ----------

  /** A commitment to x that translation has made, or one of the program's. */
  ghost predicate XCommitted(t: Tables, p: RangeProof) {
    NewCommitted(t, p) || Declared(p)
  }

  /** All of a range is in the tables. */
  ghost predicate Held(t: Tables, p: RangeProof, counter: nat) {
    Contains(t, p) && ContainsChecks(t, p) && XCommitted(t, p) && p.k + 6 <= counter
  }

  ghost predicate AllHeld(t: Tables, ps: seq<RangeProof>, counter: nat) {
    forall i :: 0 <= i < |ps| ==> Held(t, ps[i], counter)
  }

  ghost predicate IsProduct(e: Text, ps: seq<RangeProof>) {
    exists i :: 0 <= i < |ps| && e == ps[i].Prod()
  }

  ghost predicate IsCommitted(e: Text, ps: seq<RangeProof>) {
    exists i :: 0 <= i < |ps| && (e == ps[i].XLo() || e == ps[i].HiX() || e == ps[i].Prod())
  }

  ghost predicate IsOwn(c: Text, ps: seq<RangeProof>) {
    exists i :: 0 <= i < |ps| && (c == ps[i].XLoCom() || c == ps[i].HiXCom())
  }

  /** Nothing else has been entered for the verifier. */
  ghost predicate OnlyTheirs(t: Tables, ps: seq<RangeProof>) {
    && (forall e :: e in t.decompositions ==> IsProduct(e, ps))
    && (forall c :: c in t.rangeComs ==> IsOwn(c, ps))
  }

  /** What the program has declared is as it was. */
  ghost predicate Unchanged(t: Tables, ps: seq<RangeProof>, d: Program) {
    && t.generators == d.generators
    && (forall e :: UserText(e) && !IsCommitted(e, ps) ==> SameAt(e, d.commitments, t.commitments))
    && (forall c :: UserName(c) ==> SameAt(c, d.discreteLogs, t.discreteLogs))
  }

  predicate SameAt<V(==)>(e: Text, a: map<Text, V>, b: map<Text, V>) {
    (e in a <==> e in b) && (e in a ==> b[e] == a[e])
  }

  ghost predicate AllDifferent(ps: seq<RangeProof>) {
    forall i, j :: 0 <= i < j < |ps| ==> ps[i].Prod() != ps[j].Prod()
  }

  /** An expression that needs the first number of a range's decomposition. */
  function RootTerm(p: RangeProof): Text {
    SubText(SquareRand(p.R1(), p.k + 1, 0), MulText(Decomp(p.k + 1), RandDecomp(p.k + 1)))
  }

  ghost predicate LastWith(e: Text, ps: seq<RangeProof>, i: nat) {
    i < |ps| && e == ps[i].Prod() && forall j :: i < j < |ps| ==> ps[j].Prod() != e
  }

  /** Each decomposition is that of the last range with its product, and each range's
      counters are its own. */
  ghost predicate Latest(t: Tables, ps: seq<RangeProof>, counter: nat) {
    && (forall i :: 0 <= i < |ps| ==> ps[i].k + 6 <= counter && RootTerm(ps[i]) in t.expressions)
    && (forall i, j :: 0 <= i < j < |ps| ==> ps[i].k + 6 <= ps[j].k)
    && (forall e :: e in t.decompositions ==> OfLast(e, t.decompositions[e], ps))
  }

  ghost predicate OfLast(e: Text, names: seq<DecompNames>, ps: seq<RangeProof>) {
    exists i: nat :: LastWith(e, ps, i) && names == FourNames(ps[i].k + 1, 4)
  }

  /** A commitment over a range's bases. */
  predicate OverBasesOf(d: DLR, p: RangeProof) {
    d.group == p.s.group && d.bases == [p.s.g, p.s.h] && |d.exps| == 2
  }

  ghost predicate OverBases(d: DLR, ps: seq<RangeProof>) {
    exists i :: 0 <= i < |ps| && OverBasesOf(d, ps[i])
  }

  ghost predicate ComsOver(coms: map<Text, DLR>, ps: seq<RangeProof>) {
    forall c :: c in coms ==> OverBases(coms[c], ps)
  }

  /** The tables after translating some ranges with counters below `counter`: everything
      about each of them is there when their products differ. */
  ghost predicate Entered(t: Tables, ps: seq<RangeProof>, d: Program, counter: nat) {
    && Tidy(t, counter) && OnlyTheirs(t, ps) && Latest(t, ps, counter) && Unchanged(t, ps, d) && ComsOver(t.comsToCompute, ps)
    && (AllDifferent(ps) ==> AllHeld(t, ps, counter))
  }

  /** What a range is computed from has values. */
  ghost predicate RangeReady(p: RangeProof, w: Values, groups: map<string, int>) {
    Known(p.s, w, groups) && BoundsReady(p, w) && SquaresReady(p.R1(), p.k + 1, w)
  }

  ghost predicate AllReady(ps: seq<RangeProof>, w: Values, groups: map<string, int>) {
    forall i :: 0 <= i < |ps| ==> RangeReady(ps[i], w, groups)
  }

  /** Everything entered can be computed from what the ranges are computed from. */
  ghost predicate Works(t: Tables, ps: seq<RangeProof>) {
    forall w: Values, groups: map<string, int> :: AllReady(ps, w, groups) ==>
      AllEvaluate(t.expressions, w) && AllHaveValues(t.comsToCompute, w, groups)
  }

  /** The translator's output is the ranges' descriptions. */
  ghost predicate Describes(output: map<DLR, DLR>, ps: seq<RangeProof>) {
    && (forall d :: d in output <==> DescribedBy(d, ps))
    && forall d :: d in output ==> output[d] == d
  }

  ghost predicate DescribedBy(d: DLR, ps: seq<RangeProof>) {
    exists i :: 0 <= i < |ps| && IsDescription(d, ps[i])
  }

  // ---------- one more range ----------

  /** A range of the program's with a commitment to x of one kind or the other. */
  ghost predicate IsNew(p: RangeProof) {
    && (FreshX(p) || Declared(p))
    && UserText(p.x) && UserText(p.low) && UserText(p.high) && UserName(p.s.g) && UserName(p.s.h)
  }

  lemma IsNewHas(p: RangeProof)
    requires IsNew(p)
    ensures !Declared(p) ==> FreshX(p)
    ensures UserText(p.x) && UserText(p.low) && UserText(p.high) && Clear(p.s.g) && Clear(p.s.h)
  {
    UserNameText(p.s.g);
    UserNameText(p.s.h);
    UserClear(p.s.g);
    UserClear(p.s.h);
    hide Clear, UserText, UserName;
  }

  /** The tables with a commitment to x. */
  function Base(t: Tables, p: RangeProof): Tables {
    if Declared(p) then t else WithX(t, p.s, p.x, p.k)
  }

  function Added(t: Tables, p: RangeProof): Tables {
    p.Translated(Base(t, p))
  }

  lemma AddedIs(t: Tables, p: RangeProof)
    ensures Added(t, p) == p.Translated(Base(t, p))
    ensures Declared(p) ==> Base(t, p) == t
    ensures !Declared(p) ==> Base(t, p) == WithX(t, p.s, p.x, p.k)
  {
    hide WithX, Declared, RangeProof.Translated;
  }

  lemma BaseFields(t: Tables, p: RangeProof)
    ensures var u, c, r := Base(t, p), Fresh("__x_commitment__", p.k), Fresh("__randx_com__", p.k);
      && u.decompositions == t.decompositions && u.rangeComs == t.rangeComs && u.commitments == t.commitments
      && u.expressions == t.expressions && u.generators == t.generators
      && u.discreteLogs == (if Declared(p) then t.discreteLogs else t.discreteLogs[c := Com(p.s, c, p.x, r)])
      && u.comsToCompute == (if Declared(p) then t.comsToCompute else t.comsToCompute[c := Com(p.s, c, p.x, r)])
  {
    hide Declared;
  }

  lemma HeldHas(t: Tables, p: RangeProof, counter: nat)
    requires Held(t, p, counter)
    ensures Contains(t, p) && ContainsChecks(t, p) && XCommitted(t, p) && p.k + 6 <= counter
  {
    hide Contains, ContainsChecks, XCommitted;
  }

  lemma IsHeld(t: Tables, p: RangeProof, counter: nat)
    requires Contains(t, p) && ContainsChecks(t, p) && XCommitted(t, p) && p.k + 6 <= counter
    ensures Held(t, p, counter)
  {
    hide Contains, ContainsChecks, XCommitted;
  }

  lemma XCommittedKept(t: Tables, u: Tables, p: RangeProof, k: nat)
    requires XCommitted(t, p) && KeptOld(t, u, k) && p.k < k
    ensures XCommitted(u, p)
  {
    if NewCommitted(t, p) {
      assert Older(p.c, k);
      hide Older;
    }
  }

  lemma BaseKeepsOld(t: Tables, p: RangeProof)
    ensures KeptOld(t, Base(t, p), p.k)
  {
    hide *;
    AddedIs(t, p);
    if Declared(p) { NothingChanged(t, p.k); } else { WithXKeepsOld(t, p.s, p.x, p.k); }
  }

  lemma NothingChanged(t: Tables, k: nat)
    ensures KeptOld(t, t, k)
  {
  }

  /** The commitment to x of the next range leaves the others alone. */
  lemma HeldBase(t: Tables, p: RangeProof, q: RangeProof)
    requires Held(t, p, q.k)
    ensures Held(Base(t, q), p, q.k)
  {
    hide *;
    var u := Base(t, q);
    HeldHas(t, p, q.k);
    BaseKeepsOld(t, q);
    BaseFields(t, q);
    ProductHas(t, p);
    ContainsKept(t, u, p, q.k);
    ChecksKept(t, u, p, q.k);
    XCommittedKept(t, u, p, q.k);
    IsHeld(u, p, q.k);
  }

  /** So does the rest of the next range, when it is about another product. */
  lemma HeldTranslated(t: Tables, p: RangeProof, q: RangeProof)
    requires Held(t, p, q.k) && p.Prod() != q.Prod()
    ensures Held(q.Translated(t), p, q.k + 6)
  {
    hide *;
    HeldHas(t, p, q.k);
    SurvivesIff(t, p, q);
    RangeKeepsOld(t, q);
    XCommittedKept(t, q.Translated(t), p, q.k);
    IsHeld(q.Translated(t), p, q.k + 6);
  }

  lemma NewIsHeld(t: Tables, p: RangeProof)
    requires IsNew(p)
    ensures Held(Added(t, p), p, p.k + 6)
  {
    hide *;
    IsNewHas(p);
    AddedIs(t, p);
    TranslatedContains(Base(t, p), p);
    NewIsCommitted(t, p);
    IsHeld(Added(t, p), p, p.k + 6);
  }

  lemma NewIsCommitted(t: Tables, p: RangeProof)
    requires FreshX(p) || Declared(p)
    ensures XCommitted(Added(t, p), p)
  {
    hide WithX, RangeProof.Translated;
    if !Declared(p) { NewCommitment(t, p); }
  }

  lemma BaseTidy(t: Tables, p: RangeProof)
    requires Tidy(t, p.k) && IsNew(p)
    ensures Tidy(Base(t, p), p.k) && ClearRange(p)
  {
    hide *;
    IsNewHas(p);
    AddedIs(t, p);
    if Declared(p) { DeclaredClear(p); } else { WithXIsTidy(t, p); }
    InputsClear(p);
  }

  lemma WithXIsTidy(t: Tables, p: RangeProof)
    requires Tidy(t, p.k) && UserText(p.x) && Clear(p.s.g) && Clear(p.s.h) && FreshX(p)
    ensures Tidy(WithX(t, p.s, p.x, p.k), p.k) && Clear(p.r)
  {
    hide Tidy, WithX, Clear, UserText;
    WithXTidy(t, p);
  }

  lemma DeclaredClear(p: RangeProof)
    requires Declared(p)
    ensures Clear(p.r)
  {
    UserNameText(p.r);
    UserClear(p.r);
  }

  /** Translating one more range keeps all that is there, if its product is none of
      theirs, and enters its own. */
  lemma AddRange(t: Tables, ps: seq<RangeProof>, d: Program, p: RangeProof)
    requires Entered(t, ps, d, p.k) && IsNew(p)
    ensures Entered(Added(t, p), ps + [p], d, p.k + 6)
  {
    hide *;
    EnteredHas(t, ps, d, p.k);
    BaseTidy(t, p);
    TranslatedTidy(Base(t, p), p);
    AddedIs(t, p);
    AddTheirs(t, ps, p);
    AddLatest(t, ps, p);
    AddUnchanged(t, ps, d, p);
    AddComs(t, ps, p);
    if AllDifferent(ps + [p]) {
      StillDifferent(ps, p);
      AddHeld(t, ps, p);
    }
    IsEntered(Added(t, p), ps + [p], d, p.k + 6);
  }

  lemma EnteredHas(t: Tables, ps: seq<RangeProof>, d: Program, counter: nat)
    requires Entered(t, ps, d, counter)
    ensures Tidy(t, counter) && OnlyTheirs(t, ps) && Latest(t, ps, counter) && Unchanged(t, ps, d) && ComsOver(t.comsToCompute, ps)
    ensures AllDifferent(ps) ==> AllHeld(t, ps, counter)
  {
    hide Tidy, OnlyTheirs, Latest, Unchanged, ComsOver, AllDifferent, AllHeld;
  }

  lemma IsEntered(t: Tables, ps: seq<RangeProof>, d: Program, counter: nat)
    requires Tidy(t, counter) && OnlyTheirs(t, ps) && Latest(t, ps, counter) && Unchanged(t, ps, d) && ComsOver(t.comsToCompute, ps)
    requires AllDifferent(ps) ==> AllHeld(t, ps, counter)
    ensures Entered(t, ps, d, counter)
  {
    hide Tidy, OnlyTheirs, Latest, Unchanged, ComsOver, AllDifferent, AllHeld;
  }

  lemma StillDifferent(ps: seq<RangeProof>, p: RangeProof)
    requires AllDifferent(ps + [p])
    ensures AllDifferent(ps) && forall i :: 0 <= i < |ps| ==> ps[i].Prod() != p.Prod()
  {
    hide RangeProof.Prod;
    var qs := ps + [p];
    assert qs[|ps|] == p && forall i :: 0 <= i < |ps| ==> qs[i] == ps[i];
  }

  lemma AddHeld(t: Tables, ps: seq<RangeProof>, p: RangeProof)
    requires AllHeld(t, ps, p.k) && IsNew(p) && forall i :: 0 <= i < |ps| ==> ps[i].Prod() != p.Prod()
    ensures AllHeld(Added(t, p), ps + [p], p.k + 6)
  {
    hide Held, IsNew, Added, Base, RangeProof.Prod, RangeProof.Translated;
    AddedIs(t, p);
    NewIsHeld(t, p);
    forall i | 0 <= i < |ps| ensures Held(Added(t, p), ps[i], p.k + 6) {
      HeldBase(t, ps[i], p);
      HeldTranslated(Base(t, p), ps[i], p);
    }
  }

  /** The decompositions and the expressions after one more range. */
  lemma AddedTables(t: Tables, p: RangeProof)
    ensures Added(t, p).decompositions == t.decompositions[p.Prod() := FourNames(p.k + 1, 4)]
    ensures t.expressions <= Added(t, p).expressions && RootTerm(p) in Added(t, p).expressions
  {
    hide *;
    AddedIs(t, p);
    BaseFields(t, p);
    RangeKeepsCompound(Base(t, p), p);
    RangeKeepsOld(Base(t, p), p);
    TranslatedContains(Base(t, p), p);
    KeptHasMore(Base(t, p), Added(t, p), p.k);
    HasRootTerm(Added(t, p), p);
  }

  lemma KeptHasMore(t: Tables, u: Tables, k: nat)
    requires KeptOld(t, u, k)
    ensures t.expressions <= u.expressions && u.generators == t.generators
  {
    hide Older, OldKept;
  }

  lemma HasRootTerm(t: Tables, p: RangeProof)
    requires Contains(t, p)
    ensures RootTerm(p) in t.expressions
  {
    assert ContainsSquare(t, p, 0);
  }

  lemma AddLatest(t: Tables, ps: seq<RangeProof>, p: RangeProof)
    requires Latest(t, ps, p.k)
    ensures Latest(Added(t, p), ps + [p], p.k + 6)
  {
    AddedTables(t, p);
    hide Added, RootTerm, RangeProof.Prod, FourNames;
    var qs, u := ps + [p], Added(t, p);
    assert qs[|ps|] == p && forall i :: 0 <= i < |ps| ==> qs[i] == ps[i];
    forall e | e in u.decompositions ensures OfLast(e, u.decompositions[e], qs) {
      if e == p.Prod() {
        assert LastWith(e, qs, |ps|);
      } else {
        var i: nat :| LastWith(e, ps, i) && t.decompositions[e] == FourNames(ps[i].k + 1, 4);
        assert LastWith(e, qs, i);
      }
    }
  }

  /** What a range adds for the verifier is its own. */
  lemma AddTheirs(t: Tables, ps: seq<RangeProof>, p: RangeProof)
    requires OnlyTheirs(t, ps)
    ensures OnlyTheirs(Added(t, p), ps + [p])
  {
    hide *;
    var u := BeforeSquares(Base(t, p), p);
    var w := WithSquares(u, p.s, p.R1(), p.k + 1, 4);
    BaseFields(t, p);
    BoundsFields(Base(t, p), p);
    SquaresKeepTables(u, p.s, p.R1(), p.k + 1, 4);
    KeptHas(u, w, p.k + 1, 4);
    RangeKeepsCompound(Base(t, p), p);
    TranslatedIs(Base(t, p), p);
    AddedIs(t, p);
    TheirsFrom(t, Added(t, p), ps, p);
  }

  lemma KeptHas(t: Tables, u: Tables, k: nat, n: nat)
    requires Kept(t, u, k, n)
    ensures u.rangeComs == t.rangeComs && u.decompositions == t.decompositions
  {
  }

  lemma TheirsFrom(t: Tables, u: Tables, ps: seq<RangeProof>, p: RangeProof)
    requires OnlyTheirs(t, ps)
    requires u.decompositions == t.decompositions[p.Prod() := FourNames(p.k + 1, 4)]
    requires u.rangeComs == t.rangeComs[p.XLoCom() := p.VerifierLo()][p.HiXCom() := p.VerifierHi()]
    ensures OnlyTheirs(u, ps + [p])
  {
    var qs := ps + [p];
    hide FourNames, RangeProof.XLoCom, RangeProof.HiXCom, RangeProof.Prod;
    assert qs[|ps|] == p && forall i :: 0 <= i < |ps| ==> qs[i] == ps[i];
    forall e | IsProduct(e, ps) ensures IsProduct(e, qs) {
      var i :| 0 <= i < |ps| && e == ps[i].Prod();
      assert qs[i] == ps[i];
    }
    forall c | IsOwn(c, ps) ensures IsOwn(c, qs) {
      var i :| 0 <= i < |ps| && (c == ps[i].XLoCom() || c == ps[i].HiXCom());
      assert qs[i] == ps[i];
    }
  }

  // ---------- what the program declares stays ----------

  /** Names that a range makes up, and expressions it commits to, are none of the program's. */
  lemma MadeUp(p: RangeProof, j: nat)
    ensures !UserName(p.XLoCom()) && !UserName(p.HiXCom()) && !UserName(p.ProdCom())
    ensures !UserName(DecompCom(j)) && !UserName(SquareCom(j)) && !UserName(Fresh("__x_commitment__", j))
    ensures !UserText(Decomp(j)) && !UserText(Square(j))
  {
    assert Decomp(j) in Leaves(Decomp(j)) && Square(j) in Leaves(Square(j));
  }

  ghost predicate LogsKept(a: map<Text, DLR>, b: map<Text, DLR>) {
    forall c :: UserName(c) ==> SameAt(c, a, b)
  }

  ghost predicate CommitmentsKept(a: map<Text, Text>, b: map<Text, Text>, p: RangeProof) {
    forall e :: UserText(e) && e != p.XLo() && e != p.HiX() && e != p.Prod() ==> SameAt(e, a, b)
  }

  lemma MoreLogs(a: map<Text, DLR>, c: Text, d: DLR)
    requires !UserName(c)
    ensures LogsKept(a, a[c := d])
  {
    hide UserName;
  }

  lemma LogsTrans(a: map<Text, DLR>, b: map<Text, DLR>, c: map<Text, DLR>)
    requires LogsKept(a, b) && LogsKept(b, c)
    ensures LogsKept(a, c)
  {
    hide UserName;
  }

  lemma TwoLogs(a: map<Text, DLR>, c: Text, d: DLR, e: Text, f: DLR)
    requires !UserName(c) && !UserName(e)
    ensures LogsKept(a, a[c := d][e := f])
  {
    hide UserName;
  }

  lemma TwoCommitments(a: map<Text, Text>, c: Text, x: Text, e: Text, y: Text, p: RangeProof)
    requires !UserText(c) && !UserText(e)
    ensures CommitmentsKept(a, a[c := x][e := y], p)
  {
    hide UserText, RangeProof.XLo, RangeProof.HiX, RangeProof.Prod;
  }

  lemma CommitmentsTrans(a: map<Text, Text>, b: map<Text, Text>, c: map<Text, Text>, p: RangeProof)
    requires CommitmentsKept(a, b, p) && CommitmentsKept(b, c, p)
    ensures CommitmentsKept(a, c, p)
  {
    hide UserText, RangeProof.XLo, RangeProof.HiX, RangeProof.Prod;
  }

  lemma SquareKeepsDeclared(t: Tables, p: RangeProof, i: nat)
    ensures var u := WithSquare(t, p.s, p.R1(), p.k + 1, i);
      LogsKept(t.discreteLogs, u.discreteLogs) && CommitmentsKept(t.commitments, u.commitments, p)
  {
    hide *;
    var j := p.k + 1 + i;
    SquareFields(t, p.s, p.R1(), p.k + 1, i);
    MadeUp(p, j);
    TwoLogs(t.discreteLogs, DecompCom(j), BaseDLR(p.s, j), SquareCom(j), SquareDLR(p.s, p.R1(), p.k + 1, i));
    TwoCommitments(t.commitments, Decomp(j), DecompCom(j), Square(j), SquareCom(j), p);
  }

  lemma {:induction false} SquaresKeepDeclared(t: Tables, p: RangeProof, n: nat)
    ensures var u := WithSquares(t, p.s, p.R1(), p.k + 1, n);
      LogsKept(t.discreteLogs, u.discreteLogs) && CommitmentsKept(t.commitments, u.commitments, p)
  {
    hide WithSquare, LogsKept, CommitmentsKept;
    if n == 0 {
      TheSame(t, p);
    } else {
      var before, after := WithSquares(t, p.s, p.R1(), p.k + 1, n - 1), WithSquares(t, p.s, p.R1(), p.k + 1, n);
      SquaresKeepDeclared(t, p, n - 1);
      SquareKeepsDeclared(before, p, n - 1);
      LogsTrans(t.discreteLogs, before.discreteLogs, after.discreteLogs);
      CommitmentsTrans(t.commitments, before.commitments, after.commitments, p);
    }
  }

  lemma TheSame(t: Tables, p: RangeProof)
    ensures LogsKept(t.discreteLogs, t.discreteLogs) && CommitmentsKept(t.commitments, t.commitments, p)
  {
    hide UserName, UserText, RangeProof.XLo, RangeProof.HiX, RangeProof.Prod;
  }

  lemma BoundsKeepDeclared(t: Tables, p: RangeProof)
    ensures var u := BeforeSquares(t, p);
      LogsKept(t.discreteLogs, u.discreteLogs) && CommitmentsKept(t.commitments, u.commitments, p)
  {
    hide *;
    MadeUp(p, 0);
    BoundsFields(t, p);
    var a, b := t.discreteLogs, t.discreteLogs[p.XLoCom() := p.XLoDLR()][p.HiXCom() := p.HiXDLR()];
    TwoLogs(a, p.XLoCom(), p.XLoDLR(), p.HiXCom(), p.HiXDLR());
    MoreLogs(b, p.ProdCom(), p.ProdDLR());
    LogsTrans(a, b, b[p.ProdCom() := p.ProdDLR()]);
    OwnCommitments(t.commitments, p);
  }

  lemma OwnCommitments(a: map<Text, Text>, p: RangeProof)
    ensures CommitmentsKept(a, a[p.XLo() := p.XLoCom()][p.HiX() := p.HiXCom()][p.Prod() := p.ProdCom()], p)
  {
    hide UserText, RangeProof.XLo, RangeProof.HiX, RangeProof.Prod;
  }

  lemma BaseKeepsDeclared(t: Tables, p: RangeProof)
    ensures LogsKept(t.discreteLogs, Base(t, p).discreteLogs) && Base(t, p).commitments == t.commitments
  {
    MadeUp(p, p.k);
    BaseFields(t, p);
    hide Base, UserName, Fresh;
  }

  lemma AddUnchanged(t: Tables, ps: seq<RangeProof>, d: Program, p: RangeProof)
    requires Unchanged(t, ps, d)
    ensures Unchanged(Added(t, p), ps + [p], d)
  {
    hide *;
    var b := Base(t, p);
    var u := BeforeSquares(b, p);
    var w := WithSquares(u, p.s, p.R1(), p.k + 1, 4);
    BaseKeepsDeclared(t, p);
    BaseFields(t, p);
    BoundsKeepDeclared(b, p);
    SquaresKeepDeclared(u, p, 4);
    RangeKeepsOld(b, p);
    AddedIs(t, p);
    KeptHasMore(b, Added(t, p), p.k);
    TranslatedIs(b, p);
    LogsTrans(t.discreteLogs, b.discreteLogs, u.discreteLogs);
    LogsTrans(t.discreteLogs, u.discreteLogs, w.discreteLogs);
    CommitmentsTrans(t.commitments, u.commitments, w.commitments, p);
    UnchangedFrom(t, Added(t, p), ps, d, p);
  }

  lemma UnchangedFrom(t: Tables, u: Tables, ps: seq<RangeProof>, d: Program, p: RangeProof)
    requires Unchanged(t, ps, d) && u.generators == t.generators
    requires LogsKept(t.discreteLogs, u.discreteLogs) && CommitmentsKept(t.commitments, u.commitments, p)
    ensures Unchanged(u, ps + [p], d)
  {
    hide UserText, UserName, IsCommitted, RangeProof.XLo, RangeProof.HiX, RangeProof.Prod;
    forall e | UserText(e) && !IsCommitted(e, ps + [p]) ensures SameAt(e, d.commitments, u.commitments) {
      MoreCommitted(e, ps, p);
    }
  }

  lemma MoreCommitted(e: Text, ps: seq<RangeProof>, p: RangeProof)
    ensures IsCommitted(e, ps + [p]) <==> IsCommitted(e, ps) || e == p.XLo() || e == p.HiX() || e == p.Prod()
  {
    hide RangeProof.XLo, RangeProof.HiX, RangeProof.Prod;
    var qs := ps + [p];
    assert qs[|ps|] == p && forall i :: 0 <= i < |ps| ==> qs[i] == ps[i];
    if IsCommitted(e, ps) {
      var i :| 0 <= i < |ps| && (e == ps[i].XLo() || e == ps[i].HiX() || e == ps[i].Prod());
      assert qs[i] == ps[i];
    }
  }

  // ---------- the bases of all commitments ----------

  lemma MoreRanges(coms: map<Text, DLR>, ps: seq<RangeProof>, p: RangeProof)
    requires ComsOver(coms, ps)
    ensures ComsOver(coms, ps + [p])
  {
    hide OverBasesOf;
    var qs := ps + [p];
    assert forall i :: 0 <= i < |ps| ==> qs[i] == ps[i];
    forall c | c in coms ensures OverBases(coms[c], qs) {
      var i :| 0 <= i < |ps| && OverBasesOf(coms[c], ps[i]);
      assert OverBasesOf(coms[c], qs[i]);
    }
  }

  lemma OneMoreOver(coms: map<Text, DLR>, qs: seq<RangeProof>, p: RangeProof, c: Text, a: Text, b: Text)
    requires ComsOver(coms, qs) && |qs| > 0 && qs[|qs| - 1] == p
    ensures ComsOver(coms[c := Com(p.s, c, a, b)], qs)
  {
    assert OverBasesOf(Com(p.s, c, a, b), qs[|qs| - 1]);
    hide OverBasesOf, Com;
  }

  lemma BoundsOver(t: Tables, qs: seq<RangeProof>, p: RangeProof)
    requires ComsOver(t.comsToCompute, qs) && |qs| > 0 && qs[|qs| - 1] == p
    ensures ComsOver(BeforeSquares(t, p).comsToCompute, qs)
  {
    BoundComsAre(p);
    hide *;
    BoundsFields(t, p);
    var coms := t.comsToCompute;
    OneMoreOver(coms, qs, p, p.XLoCom(), p.XLo(), p.r);
    OneMoreOver(coms[p.XLoCom() := p.XLoDLR()], qs, p, p.HiXCom(), p.HiX(), p.NegR());
    OneMoreOver(coms[p.XLoCom() := p.XLoDLR()][p.HiXCom() := p.HiXDLR()], qs, p, p.ProdCom(), p.Prod(), p.R1());
  }

  lemma BoundComsAre(p: RangeProof)
    ensures p.XLoDLR() == Com(p.s, p.XLoCom(), p.XLo(), p.r) && p.HiXDLR() == Com(p.s, p.HiXCom(), p.HiX(), p.NegR())
    ensures p.ProdDLR() == Com(p.s, p.ProdCom(), p.Prod(), p.R1())
  {
  }

  lemma {:induction false} SquaresOver(t: Tables, qs: seq<RangeProof>, p: RangeProof, n: nat)
    requires ComsOver(t.comsToCompute, qs) && |qs| > 0 && qs[|qs| - 1] == p
    ensures ComsOver(WithSquares(t, p.s, p.R1(), p.k + 1, n).comsToCompute, qs)
  {
    hide WithSquare, ComsOver;
    if n > 0 {
      SquaresOver(t, qs, p, n - 1);
      SquareOver(WithSquares(t, p.s, p.R1(), p.k + 1, n - 1), qs, p, n - 1);
    }
  }

  lemma SquareOver(t: Tables, qs: seq<RangeProof>, p: RangeProof, i: nat)
    requires ComsOver(t.comsToCompute, qs) && |qs| > 0 && qs[|qs| - 1] == p
    ensures ComsOver(WithSquare(t, p.s, p.R1(), p.k + 1, i).comsToCompute, qs)
  {
    SquareComsAre(p, i);
    hide *;
    var j := p.k + 1 + i;
    SquareFields(t, p.s, p.R1(), p.k + 1, i);
    OneMoreOver(t.comsToCompute, qs, p, DecompCom(j), Decomp(j), RandDecomp(j));
    OneMoreOver(t.comsToCompute[DecompCom(j) := BaseDLR(p.s, j)], qs, p, SquareCom(j), Square(j), SquareRand(p.R1(), p.k + 1, i));
  }

  lemma SquareComsAre(p: RangeProof, i: nat)
    ensures var j := p.k + 1 + i;
      BaseDLR(p.s, j) == Com(p.s, DecompCom(j), Decomp(j), RandDecomp(j))
      && SquareDLR(p.s, p.R1(), p.k + 1, i) == Com(p.s, SquareCom(j), Square(j), SquareRand(p.R1(), p.k + 1, i))
  {
  }

  lemma AddComs(t: Tables, ps: seq<RangeProof>, p: RangeProof)
    requires ComsOver(t.comsToCompute, ps)
    ensures ComsOver(Added(t, p).comsToCompute, ps + [p])
  {
    hide *;
    var qs, c, r := ps + [p], Fresh("__x_commitment__", p.k), Fresh("__randx_com__", p.k);
    var u := BeforeSquares(Base(t, p), p);
    MoreRanges(t.comsToCompute, ps, p);
    BaseFields(t, p);
    if !Declared(p) { OneMoreOver(t.comsToCompute, qs, p, c, p.x, r); }
    BoundsOver(Base(t, p), qs, p);
    SquaresOver(u, qs, p, 4);
    TranslatedIs(Base(t, p), p);
    AddedIs(t, p);
  }

  // ---------- values and descriptions of one more range ----------

  /** What one more range is computed from is enough for what it adds. */
  lemma AddWorks(t: Tables, ps: seq<RangeProof>, p: RangeProof)
    requires Works(t, ps) && IsNew(p)
    ensures Works(Added(t, p), ps + [p])
  {
    hide AllEvaluate, AllHaveValues, RangeReady, Added, IsNew;
    forall w: Values, groups: map<string, int> | AllReady(ps + [p], w, groups)
      ensures AllEvaluate(Added(t, p).expressions, w) && AllHaveValues(Added(t, p).comsToCompute, w, groups)
    {
      assert forall i :: 0 <= i < |ps| ==> (ps + [p])[i] == ps[i];
      assert AllReady(ps, w, groups);
      assert RangeReady((ps + [p])[|ps|], w, groups);
      OneWorks(t, p, w, groups);
    }
  }

  lemma OneWorks(t: Tables, p: RangeProof, w: Values, groups: map<string, int>)
    requires AllEvaluate(t.expressions, w) && AllHaveValues(t.comsToCompute, w, groups) && RangeReady(p, w, groups) && IsNew(p)
    ensures AllEvaluate(Added(t, p).expressions, w) && AllHaveValues(Added(t, p).comsToCompute, w, groups)
  {
    hide *;
    RangeReadyHas(p, w, groups);
    IsNewHas(p);
    BaseFields(t, p);
    if !Declared(p) {
      FreshXHas(p);
      ComHasValue(p.s, p.c, p.x, p.r, w, groups);
      MoreValues(t.comsToCompute, p.c, Com(p.s, p.c, p.x, p.r), w, groups);
    }
    TranslatedWorks(Base(t, p), p, w, groups);
    AddedIs(t, p);
  }

  lemma FreshXHas(p: RangeProof)
    requires FreshX(p)
    ensures p.c == Fresh("__x_commitment__", p.k) && p.r == Fresh("__randx_com__", p.k)
  {
    hide Fresh;
  }

  lemma RangeReadyHas(p: RangeProof, w: Values, groups: map<string, int>)
    requires RangeReady(p, w, groups)
    ensures Known(p.s, w, groups) && BoundsReady(p, w) && SquaresReady(p.R1(), p.k + 1, w)
    ensures p.s.group in groups && 1 < groups[p.s.group] && Has(p.s.g, w) && Has(p.s.h, w) && Has(p.x, w) && Has(p.r, w)
  {
    hide Has, SquaresReady;
  }

  lemma AddDescriptions(output: map<DLR, DLR>, ps: seq<RangeProof>, p: RangeProof)
    requires Describes(output, ps)
    ensures Describes(p.Described(output), ps + [p])
  {
    hide IsDescription, RangeProof.Described;
    DescribedAdds(output, p);
    var qs := ps + [p];
    assert qs[|ps|] == p && forall i :: 0 <= i < |ps| ==> qs[i] == ps[i];
    forall d ensures DescribedBy(d, qs) <==> DescribedBy(d, ps) || IsDescription(d, p) {
      if DescribedBy(d, ps) {
        var i :| 0 <= i < |ps| && IsDescription(d, ps[i]);
        assert IsDescription(d, qs[i]);
      }
      if IsDescription(d, p) {
        assert IsDescription(d, qs[|ps|]);
      }
      if DescribedBy(d, qs) {
        var i :| 0 <= i < |qs| && IsDescription(d, qs[i]);
        assert i < |ps| ==> IsDescription(d, ps[i]);
      }
    }
  }

  // ---------- translation ----------

  lemma StartEntered(d: Program)
    ensures Entered(Start(d), [], d, 0) && Works(Start(d), []) && Describes(map[], [])
  {
    hide Leaves, Reads, FreeOf, IsDescription;
  }

  /** The commitment that is found is the program's, with the program's bases. */
  lemma SameCommitment(t: Tables, ps: seq<RangeProof>, rs: seq<Request>, d: Program, n: nat)
    requires Unchanged(t, ps, d) && AllAnswer(ps, rs, d) && |ps| == n < |rs| && Apart(rs) && Stated(rs[n], d)
    ensures var r := rs[n];
      && Committable(t, r.x, r.group) && t.generators == d.generators
      && (HasCommitment(t, r.x, r.group) <==> HasCommitment(Start(d), r.x, r.group))
      && (HasCommitment(t, r.x, r.group) ==> t.discreteLogs[t.commitments[r.x]] == CommitmentOf(r, d))
  {
    NotTheirs(ps, rs, d, n);
    hide UserText, UserName, IsCommitted, CommitsTo;
    assert SameAt(rs[n].x, d.commitments, t.commitments);
    if rs[n].x in t.commitments {
      assert SameAt(t.commitments[rs[n].x], d.discreteLogs, t.discreteLogs);
    }
    if HasCommitment(t, rs[n].x, rs[n].group) { CommitsToTwo(CommitmentOf(rs[n], d), rs[n].x, d); }
  }

  lemma CommitsToTwo(c: DLR, x: Text, d: Program)
    requires CommitsTo(c, x, d)
    ensures |c.bases| == 2 && |c.exps| == 2
  {
  }

  /** Where x stands in the program's commitment depends on the program alone. */
  lemma SamePlace(t: Tables, ps: seq<RangeProof>, d: Program, c: DLR, x: Text)
    requires Unchanged(t, ps, d) && CommitsTo(c, x, d) && x in t.commitments
    ensures CommittedAt(c, x, t.commitments, if c.exps[0] == x then 0 else 1)
  {
    UserNameText(c.exps[0]);
    assert !IsCommitted(c.exps[0], ps);
    hide UserText;
    assert SameAt(c.exps[0], d.commitments, t.commitments);
  }

  lemma NotTheirs(ps: seq<RangeProof>, rs: seq<Request>, d: Program, n: nat)
    requires AllAnswer(ps, rs, d) && |ps| == n < |rs| && Apart(rs)
    ensures !IsCommitted(rs[n].x, ps)
  {
    hide RangeProof.XLo, RangeProof.HiX, RangeProof.Prod, Answers;
    forall i | 0 <= i < |ps| ensures rs[n].x != ps[i].XLo() && rs[n].x != ps[i].HiX() && rs[n].x != ps[i].Prod() {
      assert Answers(ps[i], rs[i], d);
      SameBounds(ps[i], rs[i], d);
      assert !IsBound(rs[n].x, rs[i]);
    }
  }

  lemma SameBounds(p: RangeProof, r: Request, d: Program)
    requires Answers(p, r, d)
    ensures p.XLo() == SubText(r.x, r.low) && p.HiX() == SubText(r.high, r.x) && p.Prod() == ProductText(r)
  {
  }

  /** The products of the ranges differ as those of the requests do. */
  lemma SameProducts(ps: seq<RangeProof>, rs: seq<Request>, d: Program)
    requires AllAnswer(ps, rs, d) && |ps| == |rs|
    ensures AllDifferent(ps) <==> DifferentProducts(rs)
  {
    hide RangeProof.Prod, Answers, ProductText;
    forall i | 0 <= i < |ps| ensures ps[i].Prod() == ProductText(rs[i]) {
      assert Answers(ps[i], rs[i], d);
      SameBounds(ps[i], rs[i], d);
    }
  }

  lemma AnswerIsNew(p: RangeProof, r: Request, d: Program)
    requires Answers(p, r, d) && Stated(r, d)
    ensures IsNew(p)
  {
    hide UserText;
  }

  /** So the range that is made answers the request, and its tables are as stated. */
  lemma NextAnswers(t: Tables, ps: seq<RangeProof>, rs: seq<Request>, d: Program, n: nat, p: RangeProof, u: Tables)
    requires Unchanged(t, ps, d) && AllAnswer(ps, rs, d) && |ps| == n < |rs| && Apart(rs) && Stated(rs[n], d)
    requires p.s.group == rs[n].group && p.x == rs[n].x && p.low == rs[n].low && p.high == rs[n].high
    requires HasCommitment(t, p.x, p.s.group) ==>
      var c := t.discreteLogs[t.commitments[p.x]];
      Two(c) && p.c == c.left && OpenedBy(c, p.x, p.s, p.r, t.commitments)
      && u == p.Translated(t)
    requires !HasCommitment(t, p.x, p.s.group) ==>
      FreshX(p) && p.s.group in t.generators && |t.generators[p.s.group]| >= 2
      && p.s.g == t.generators[p.s.group][0] && p.s.h == t.generators[p.s.group][1]
      && u == p.Translated(WithX(t, p.s, p.x, p.k))
    ensures Answers(p, rs[n], d) && IsNew(p) && u == Added(t, p)
  {
    hide RangeProof.Translated, WithX, UserText, Unchanged, AllAnswer, Apart;
    SameCommitment(t, ps, rs, d, n);
    if HasCommitment(t, p.x, p.s.group) { SamePlace(t, ps, d, CommitmentOf(rs[n], d), p.x); } else { FreshNotDeclared(p); }
    AnswerIsNew(p, rs[n], d);
  }

  lemma FreshNotDeclared(p: RangeProof)
    requires FreshX(p)
    ensures !Declared(p)
  {
  }

  /** Translation of a program's ranges, one after the other. */
  method Translate(rs: seq<Request>, d: Program) returns (t: Tables, descriptions: map<DLR, DLR>)
    requires Apart(rs) && forall i :: 0 <= i < |rs| ==> Translatable(rs[i], d) && Stated(rs[i], d)
    ensures Entered(t, Proofs(rs, d), d, 6 * |rs|) && Works(t, Proofs(rs, d)) && Describes(descriptions, Proofs(rs, d))
  {
    hide *;
    ghost var ps := Proofs(rs, d);
    ProofsAnswer(rs, d);
    var translator := new Translator(Start(d));
    StartEntered(d);
    assert ps[..0] == [];
    var i := 0;
    while i < |rs|
      invariant 0 <= i <= |rs| && translator.counter == 6 * i
      invariant Entered(translator.env, ps[..i], d, 6 * i) && Works(translator.env, ps[..i])
      invariant Describes(translator.output, ps[..i])
    {
      ghost var before, output := translator.env, translator.output;
      EnteredHas(before, ps[..i], d, 6 * i);
      FirstAnswer(ps, rs, d, i);
      SameCommitment(before, ps[..i], rs, d, i);
      var ok;
      ghost var p;
      ok, p := translator.DescribeRange(rs[i].x, rs[i].group, rs[i].low, rs[i].high);
      IsFreshX(p);
      NextAnswers(before, ps[..i], rs, d, i, p, translator.env);
      AnswersIs(p, rs[i], d);
      AddRange(before, ps[..i], d, p);
      AddWorks(before, ps[..i], p);
      AddDescriptions(output, ps[..i], p);
      assert ps[..i] + [p] == ps[..i + 1];
      i := i + 1;
    }
    assert ps[..i] == ps;
    t, descriptions := translator.env, translator.output;
  }

  lemma ProofsAnswer(rs: seq<Request>, d: Program)
    requires forall i :: 0 <= i < |rs| ==> Translatable(rs[i], d)
    ensures AllAnswer(Proofs(rs, d), rs, d)
  {
    hide Translatable;
    forall i | 0 <= i < |rs| ensures Answers(Proofs(rs, d)[i], rs[i], d) {
      ProofAnswers(rs[i], d, 6 * i);
    }
    hide Answers;
  }

  lemma ProofAnswers(r: Request, d: Program, k: nat)
    requires Translatable(r, d)
    ensures Answers(ProofOf(r, d, k), r, d)
  {
  }

  lemma AnswersIs(p: RangeProof, r: Request, d: Program)
    requires Answers(p, r, d)
    ensures Translatable(r, d) && p == ProofOf(r, d, p.k)
  {
    hide ProofOf;
  }

  lemma FirstAnswer(ps: seq<RangeProof>, rs: seq<Request>, d: Program, n: nat)
    requires AllAnswer(ps, rs, d) && n <= |ps|
    ensures AllAnswer(ps[..n], rs, d)
  {
    hide Answers;
  }

  lemma IsFreshX(p: RangeProof)
    ensures p.c == Fresh("__x_commitment__", p.k) && p.r == Fresh("__randx_com__", p.k) ==> FreshX(p)
  {
    hide Fresh;
  }
}
