/** Translation of products, squares, non-negative values and ranges into
    discrete-log descriptions and the tables of values to be computed for them. */
module Translator {
  import opened Ast
  import Sigma

  type Text = Sigma.Text
  type DLR = Sigma.DLR

  /** The names of one of the four squares: the number and its square. */
  datatype DecompNames = DecompNames(decomp: Text, decompSquare: Text)

  /** The environment's tables that translation writes. */
  datatype Tables = Tables(
    generators: map<string, seq<Text>>,
    commitments: map<Text, Text>,
    discreteLogs: map<Text, DLR>,
    comsToCompute: map<Text, DLR>,
    rangeComs: map<Text, DLR>,
    decompositions: map<Text, seq<DecompNames>>,
    randoms: seq<Text>,
    expressions: set<Text>)

  /** A description of one commitment: two bases and two exponents. */
  ghost predicate Two(d: DLR) {
    |d.bases| == 2 && |d.exps| == 2
  }

  /** The exponent that is not committed to: the first one unless it has a commitment. */
  function RandIndex(d: DLR, commitments: map<Text, Text>): (i: nat)
    requires |d.exps| == 2
    ensures i < 2
    ensures (d.exps[0] in commitments <==> d.exps[1] !in commitments) ==> d.exps[i] !in commitments
  {
    if d.exps[0] !in commitments then 0 else 1
  }

  function RandExp(d: DLR, t: Tables): Text
    requires |d.exps| == 2
  {
    d.exps[RandIndex(d, t.commitments)]
  }

  function CommitExp(d: DLR, t: Tables): Text
    requires |d.exps| == 2
  {
    d.exps[(RandIndex(d, t.commitments) + 1) % 2]
  }

  function RandBase(d: DLR, t: Tables): Text
    requires |d.exps| == 2 && |d.bases| == 2
  {
    d.bases[RandIndex(d, t.commitments)]
  }

  function CommitBase(d: DLR, t: Tables): Text
    requires |d.exps| == 2 && |d.bases| == 2
  {
    d.bases[(RandIndex(d, t.commitments) + 1) % 2]
  }

  /** The place of a number in a commitment to it: its name is there and is committed to,
      and when it comes second, nothing is committed to with the first exponent's name. */
  ghost predicate CommittedAt(d: DLR, x: Text, commitments: map<Text, Text>, i: nat) {
    Two(d) && i < 2 && x in commitments && d.exps[i] == x && (i == 1 ==> d.exps[0] !in commitments)
  }

  /** Whichever place that is, the other exponent is the randomness, with its own base. */
  lemma ByPlace(d: DLR, x: Text, t: Tables, i: nat)
    requires CommittedAt(d, x, t.commitments, i)
    ensures CommitExp(d, t) == x && CommitBase(d, t) == d.bases[i]
    ensures RandExp(d, t) == d.exps[1 - i] && RandBase(d, t) == d.bases[1 - i]
  {
  }

  /** So the code takes the right exponent for the value if and only if x has such a place. */
  lemma PlaceIff(d: DLR, x: Text, t: Tables)
    requires Two(d) && x in t.commitments
    ensures CommitExp(d, t) == x <==> CommittedAt(d, x, t.commitments, 0) || CommittedAt(d, x, t.commitments, 1)
  {
    if CommittedAt(d, x, t.commitments, 0) { ByPlace(d, x, t, 0); }
    if CommittedAt(d, x, t.commitments, 1) { ByPlace(d, x, t, 1); }
  }

  /** A setting and a randomness are those of a commitment, wherever the number stands. */
  ghost predicate OpenedBy(d: DLR, x: Text, s: Setting, r: Text, commitments: map<Text, Text>) {
    forall i :: 0 <= i < 2 && CommittedAt(d, x, commitments, i) ==>
      s.g == d.bases[i] && s.h == d.bases[1 - i] && r == d.exps[1 - i]
  }

  lemma PlaceOpens(d: DLR, x: Text, group: string, t: Tables)
    requires Two(d)
    ensures OpenedBy(d, x, Setting(group, CommitBase(d, t), RandBase(d, t)), RandExp(d, t), t.commitments)
  {
    forall i | 0 <= i < 2 && CommittedAt(d, x, t.commitments, i)
      ensures CommitBase(d, t) == d.bases[i] && RandBase(d, t) == d.bases[1 - i] && RandExp(d, t) == d.exps[1 - i]
    {
      ByPlace(d, x, t, i);
    }
  }

  /** The parts of a description that are no plain names. */
  function Compound(es: seq<Text>): set<Text> {
    set e | e in es && !e.Id?
  }

  function WithCompound(t: Tables, d: DLR): Tables {
    t.(expressions := t.expressions + Compound(d.bases) + Compound(d.exps))
  }

  function MulText(a: Text, b: Text): Text { Bin(Mul, a, b) }

  function SubText(a: Text, b: Text): Text { Bin(Subtract, a, b) }

  function AddText(a: Text, b: Text): Text { Bin(Add, a, b) }

  /** For x = a*b: c_x = c_a^b * h^(r_x - b*r_a). */
  function ProductDescription(product: DLR, factor1: DLR, factor2: DLR, t: Tables): DLR
    requires Two(product) && Two(factor1) && Two(factor2)
  {
    var newExp := SubText(RandExp(product, t), MulText(CommitExp(factor2, t), RandExp(factor1, t)));
    Sigma.DLR(product.left, product.group, [factor1.left, RandBase(factor1, t)], [CommitExp(factor2, t), newExp])
  }

  /** The description by the places of a, b and a*b in the three commitments. */
  lemma ProductByPlace(product: DLR, factor1: DLR, factor2: DLR, t: Tables, x: Text, a: Text, b: Text, i: nat, j: nat, k: nat)
    requires CommittedAt(product, x, t.commitments, i) && CommittedAt(factor1, a, t.commitments, j)
    requires CommittedAt(factor2, b, t.commitments, k)
    ensures var e := SubText(product.exps[1 - i], MulText(b, factor1.exps[1 - j]));
      ProductDescription(product, factor1, factor2, t)
      == Sigma.DLR(product.left, product.group, [factor1.left, factor1.bases[1 - j]], [b, e])
  {
    ByPlace(product, x, t, i);
    ByPlace(factor1, a, t, j);
    ByPlace(factor2, b, t, k);
  }

  function WithMultiplication(t: Tables, product: DLR, factor1: DLR, factor2: DLR): Tables
    requires Two(product) && Two(factor1) && Two(factor2)
  {
    WithCompound(WithCompound(t, ProductDescription(product, factor1, factor2, t)), factor2)
  }

  // ---------- the names of a decomposition ----------

  /** A name that translation makes up with its counter. */
  function Fresh(kind: string, k: nat): Text {
    Id(Name(kind, Num(k)))
  }

  function Decomp(k: nat): Text { Fresh("__decomp__", k) }
  function RandDecomp(k: nat): Text { Fresh("__randdecomp__", k) }
  function DecompCom(k: nat): Text { Fresh("__decomp_com__", k) }
  function Square(k: nat): Text { Fresh("__square__", k) }
  function RandSquare(k: nat): Text { Fresh("__randsquare__", k) }
  function SquareCom(k: nat): Text { Fresh("__square_com__", k) }

  /** The group and the two bases of a proof's commitments. */
  datatype Setting = Setting(group: string, g: Text, h: Text)

  function Com(s: Setting, left: Text, value: Text, rand: Text): DLR {
    Sigma.DLR(left, s.group, [s.g, s.h], [value, rand])
  }

  /** The randomness of the i-th square: random for the first three, and what makes the
      sum come out as r for the last. */
  function SquareRand(r: Text, k: nat, i: nat): Text {
    if i < 3 then RandSquare(k + i)
    else SubText(r, AddText(AddText(RandSquare(k), RandSquare(k + 1)), RandSquare(k + 2)))
  }

  function BaseDLR(s: Setting, k: nat): DLR {
    Com(s, DecompCom(k), Decomp(k), RandDecomp(k))
  }

  function SquareDLR(s: Setting, r: Text, k: nat, i: nat): DLR {
    Com(s, SquareCom(k + i), Square(k + i), SquareRand(r, k, i))
  }

  /** The description that the i-th square is one. */
  function SquareProof(s: Setting, r: Text, k: nat, i: nat): DLR {
    Sigma.DLR(SquareCom(k + i), s.group, [DecompCom(k + i), s.h],
              [Decomp(k + i), SubText(SquareRand(r, k, i), MulText(Decomp(k + i), RandDecomp(k + i)))])
  }

  function WithCommitted(t: Tables, name: Text, com: Text, d: DLR): Tables {
    t.(commitments := t.commitments[name := com],
       discreteLogs := t.discreteLogs[com := d],
       comsToCompute := t.comsToCompute[com := d])
  }

  function WithRandom(t: Tables, name: Text): Tables {
    t.(randoms := t.randoms + [name])
  }

  /** The tables after the i-th square has been described. */
  function WithSquare(t: Tables, s: Setting, r: Text, k: nat, i: nat): Tables {
    var t1 := WithCommitted(t, Decomp(k + i), DecompCom(k + i), BaseDLR(s, k + i));
    var t2 := WithCommitted(t1, Square(k + i), SquareCom(k + i), SquareDLR(s, r, k, i));
    var t3 := WithRandom(t2, RandDecomp(k + i));
    var t4 := if i != 3 then WithRandom(t3, RandSquare(k + i)) else t3;
    WithCompound(WithCompound(t4, SquareProof(s, r, k, i)), BaseDLR(s, k + i))
  }

  function WithSquares(t: Tables, s: Setting, r: Text, k: nat, n: nat): Tables {
    if n == 0 then t else WithSquare(WithSquares(t, s, r, k, n - 1), s, r, k, n - 1)
  }

  function DescribedSquares(output: map<DLR, DLR>, s: Setting, r: Text, k: nat, n: nat): map<DLR, DLR> {
    if n == 0 then output
    else
      var o, p, b := DescribedSquares(output, s, r, k, n - 1), SquareProof(s, r, k, n - 1), BaseDLR(s, k + n - 1);
      o[p := p][b := b]
  }

  function FourNames(k: nat, n: nat): (names: seq<DecompNames>)
    ensures |names| == n
  {
    seq(n, i requires 0 <= i < n => DecompNames(Decomp(k + i), Square(k + i)))
  }

  // ---------- a range ----------

  /** What a range proof is about: a commitment c to x with randomness r, the bounds,
      and the counter its names are made with. */
  datatype RangeProof = RangeProof(s: Setting, c: Text, x: Text, r: Text, low: Text, high: Text, k: nat) {
    function XLo(): Text { SubText(x, low) }
    function HiX(): Text { SubText(high, x) }
    function Prod(): Text { MulText(XLo(), HiX()) }
    function NegR(): Text { Neg(r) }
    function XLoCom(): Text { Fresh("__xLo_commitment__", k) }
    function HiXCom(): Text { Fresh("__hiX_commitment__", k) }
    function ProdCom(): Text { Fresh("__prod_commitment__", k) }
    function R1(): Text { Fresh("__randExp__", k) }
    function XLoDLR(): DLR { Com(s, XLoCom(), XLo(), r) }
    function HiXDLR(): DLR { Com(s, HiXCom(), HiX(), NegR()) }
    function ProdDLR(): DLR { Com(s, ProdCom(), Prod(), R1()) }

    /** c_(x-low) = c_x * g^-low, as the verifier computes it. */
    function VerifierLo(): DLR { Sigma.DLR(XLoCom(), s.group, [s.g, c], [Neg(low), Int(1)]) }

    /** c_(high-x) = g^high * c_x^-1, as the verifier computes it. */
    function VerifierHi(): DLR { Sigma.DLR(HiXCom(), s.group, [s.g, c], [high, Neg(Int(1))]) }

    /** The description that the product is one. */
    function ProdProof(): DLR {
      Sigma.DLR(ProdCom(), s.group, [XLoCom(), s.h], [HiX(), SubText(R1(), MulText(HiX(), r))])
    }

    /** The tables with the three values committed to, from those with c in them. */
    function WithBounds(t: Tables): Tables {
      var t1 := t.(expressions := t.expressions + {XLo(), HiX(), Prod(), NegR()},
                   rangeComs := t.rangeComs[XLoCom() := VerifierLo()][HiXCom() := VerifierHi()]);
      var t2 := WithCommitted(WithRandom(t1, R1()), XLo(), XLoCom(), XLoDLR());
      var t3 := WithCommitted(t2, HiX(), HiXCom(), HiXDLR());
      WithCommitted(t3, Prod(), ProdCom(), ProdDLR())
    }

    /** The tables after the range has been described. */
    function Translated(t: Tables): Tables {
      var t5 := WithCompound(WithCompound(WithBounds(t), ProdProof()), HiXDLR());
      var t6 := WithSquares(t5, s, R1(), k + 1, 4);
      t6.(decompositions := t5.decompositions[Prod() := FourNames(k + 1, 4)])
    }

    function Described(output: map<DLR, DLR>): map<DLR, DLR> {
      DescribedSquares(output[ProdProof() := ProdProof()][HiXDLR() := HiXDLR()], s, R1(), k + 1, 4)
    }
  }

  /** A new commitment to x for a range proof. */
  function WithX(t: Tables, s: Setting, x: Text, k: nat): Tables {
    var c, rand := Fresh("__x_commitment__", k), Fresh("__randx_com__", k);
    WithRandom(t, rand).(discreteLogs := t.discreteLogs[c := Com(s, c, x, rand)],
                         comsToCompute := t.comsToCompute[c := Com(s, c, x, rand)])
  }

  /** The commitment to x that is there in the group of a range proof, if there is one. */
  predicate HasCommitment(t: Tables, x: Text, group: string) {
    x in t.commitments && t.commitments[x] in t.discreteLogs
    && t.discreteLogs[t.commitments[x]].group == group
  }

  /** A range proof can get a commitment to x. */
  predicate Committable(t: Tables, x: Text, group: string) {
    && (x in t.commitments ==> t.commitments[x] in t.discreteLogs)
    && if HasCommitment(t, x, group) then
         var d := t.discreteLogs[t.commitments[x]]; |d.bases| == 2 && |d.exps| == 2
       else group in t.generators && |t.generators[group]| >= 2
  }

  // ---------- the code ----------

  class Translator {
    var env: Tables
    var output: map<DLR, DLR>
    var counter: nat

    constructor (t: Tables)
      ensures env == t && output == map[] && counter == 0
    {
      env, output, counter := t, map[], 0;
    }

    /** Adds a description, and its parts that are no names to the expressions that
        have to be evaluated. */
    method DescribeDLR(c: DLR)
      requires |c.bases| == |c.exps|
      modifies this
      ensures env == WithCompound(old(env), c) && output == old(output)[c := c] && counter == old(counter)
    {
      var i := 0;
      while i < |c.bases|
        invariant 0 <= i <= |c.bases| && output == old(output) && counter == old(counter)
        invariant env == old(env).(expressions := old(env).expressions + Compound(c.bases[..i]) + Compound(c.exps[..i]))
      {
        assert c.bases[..i + 1] == c.bases[..i] + [c.bases[i]] && c.exps[..i + 1] == c.exps[..i] + [c.exps[i]];
        if !c.bases[i].Id? {
          env := env.(expressions := env.expressions + {c.bases[i]});
        }
        if !c.exps[i].Id? {
          env := env.(expressions := env.expressions + {c.exps[i]});
        }
        i := i + 1;
      }
      assert c.bases[..i] == c.bases && c.exps[..i] == c.exps;
      output := output[c := c];
    }

    method DescribeMultiplication(product: DLR, factor1: DLR, factor2: DLR)
      requires Two(product) && Two(factor1) && Two(factor2)
      modifies this
      ensures env == WithMultiplication(old(env), product, factor1, factor2) && counter == old(counter)
      ensures var d := ProductDescription(product, factor1, factor2, old(env));
        output == old(output)[d := d][factor2 := factor2]
    {
      var first := MulText(CommitExp(factor2, env), RandExp(factor1, env));
      var newExp := SubText(RandExp(product, env), first);
      var newDLR := Sigma.DLR(product.left, product.group,
                              [factor1.left, RandBase(factor1, env)], [CommitExp(factor2, env), newExp]);
      ghost var t := env;
      env := env.(expressions := env.expressions + {newExp});
      assert newDLR == ProductDescription(product, factor1, factor2, t);
      assert newExp in newDLR.exps;
      DescribeDLR(newDLR);
      assert env == WithCompound(t, newDLR);
      DescribeDLR(factor2);
    }

    method DescribeSquare(product: DLR, factor: DLR)
      requires Two(product) && Two(factor)
      modifies this
      ensures env == WithMultiplication(old(env), product, factor, factor) && counter == old(counter)
      ensures var d := ProductDescription(product, factor, factor, old(env));
        output == old(output)[d := d][factor := factor]
    {
      DescribeMultiplication(product, factor, factor);
    }

    /** One round of the loop below: commits to a number and to its square and
        describes that the latter is one. */
    method DescribeOneSquare(c: DLR, bs: seq<Text>, i: nat, randExp: Text, ghost s: Setting, ghost r: Text, ghost k: nat)
      returns (names: DecompNames)
      requires |bs| == 2 && s == Setting(c.group, bs[0], bs[1])
      requires counter == k + i && i < 4 && randExp == SquareRand(r, k, i)
      modifies this
      ensures counter == old(counter) + 1 && names == DecompNames(Decomp(k + i), Square(k + i))
      ensures env == WithSquare(old(env), s, r, k, i)
      ensures output == old(output)[SquareProof(s, r, k, i) := SquareProof(s, r, k, i)][BaseDLR(s, k + i) := BaseDLR(s, k + i)]
    {
      names := DecompNames(Decomp(counter), Square(counter));
      var rand_decomp, rand_square := RandDecomp(counter), RandSquare(counter);
      var baseCom, squareCom := DecompCom(counter), SquareCom(counter);
      counter := counter + 1;
      var baseDLR := Sigma.DLR(baseCom, c.group, bs, [names.decomp, rand_decomp]);
      var squareDLR := Sigma.DLR(squareCom, c.group, bs, [names.decompSquare, randExp]);
      assert baseDLR == BaseDLR(s, k + i) && squareDLR == SquareDLR(s, r, k, i);
      env := WithCommitted(env, names.decomp, baseCom, baseDLR);
      env := WithCommitted(env, names.decompSquare, squareCom, squareDLR);
      env := WithRandom(env, rand_decomp);
      if i != 3 {
        env := WithRandom(env, rand_square);
      }
      SquareDescribed(env, s, r, k, i);
      hide BaseDLR, SquareDLR, SquareProof, WithCompound, ProductDescription, WithMultiplication;
      DescribeSquare(squareDLR, baseDLR);
    }

    /** Commits to four numbers and their squares and describes that the latter are
        squares. The last square's randomness is what is left of c's randomness. */
    method DescribeNonNegative(c: DLR)
      requires Two(c) && c.exps[0] in env.commitments
      modifies this
      ensures var s := Setting(c.group, c.bases[0], c.bases[1]);
        env == WithSquares(old(env), s, c.exps[1], old(counter), 4)
               .(decompositions := old(env).decompositions[c.exps[0] := FourNames(old(counter), 4)])
        && output == DescribedSquares(old(output), s, c.exps[1], old(counter), 4)
      ensures counter == old(counter) + 5
    {
      hide WithSquare, SquareProof, BaseDLR, Decomp, Square, RandSquare;
      var decomps: seq<DecompNames> := [];
      var bs := [CommitBase(c, env), RandBase(c, env)];
      var randSquareExps: seq<Text> := [];
      ghost var s, k := Setting(c.group, c.bases[0], c.bases[1]), counter;
      var i := 0;
      while i < 4
        invariant 0 <= i <= 4 && counter == k + i
        invariant env == WithSquares(old(env), s, c.exps[1], k, i)
        invariant output == DescribedSquares(old(output), s, c.exps[1], k, i)
        invariant old(env).commitments.Keys <= env.commitments.Keys && env.decompositions == old(env).decompositions
        invariant decomps == FourNames(k, i)
        invariant |randSquareExps| == (if i < 3 then i else 3)
        invariant forall j :: 0 <= j < |randSquareExps| ==> randSquareExps[j] == RandSquare(k + j)
      {
        var randExp;
        if i != 3 {
          randSquareExps := randSquareExps + [RandSquare(counter)];
          randExp := RandSquare(counter);
        } else {
          var a := AddText(randSquareExps[0], randSquareExps[1]);
          randExp := SubText(RandExp(c, env), AddText(a, randSquareExps[2]));
        }
        SquareGrows(env, s, c.exps[1], k, i);
        var names := DescribeOneSquare(c, bs, i, randExp, s, c.exps[1], k);
        decomps := decomps + [names];
        i := i + 1;
      }
      env := env.(decompositions := env.decompositions[CommitExp(c, env) := decomps]);
      counter := counter + 1;
    }

    /** The setting of a range proof: an existing commitment to x in the group, or a new
        one with two generators of the group. Fails without two of them, and on a
        commitment that has not got exactly two exponents. */
    method CommitmentTo(x: Text, group: string) returns (ok: bool, s: Setting, c: Text, r: Text)
      modifies this
      ensures counter == old(counter) && output == old(output)
      ensures ok <==> Committable(old(env), x, group)
      ensures ok && HasCommitment(old(env), x, group) ==>
        var d := old(env).discreteLogs[old(env).commitments[x]];
        env == old(env) && Two(d) && c == d.left && r == RandExp(d, env)
        && s == Setting(group, CommitBase(d, env), RandBase(d, env)) && OpenedBy(d, x, s, r, env.commitments)
      ensures ok && !HasCommitment(old(env), x, group) ==>
        c == Fresh("__x_commitment__", counter) && r == Fresh("__randx_com__", counter)
        && group in env.generators && |env.generators[group]| >= 2
        && s == Setting(group, env.generators[group][0], env.generators[group][1])
        && env == WithX(old(env), s, x, counter)
    {
      ok, s, c, r := false, Setting(group, x, x), x, x;
      if x in env.commitments && env.commitments[x] !in env.discreteLogs { return; }
      if HasCommitment(env, x, group) {
        var d := env.discreteLogs[env.commitments[x]];
        if |d.exps| != 2 || |d.bases| != 2 { return; }
        PlaceOpens(d, x, group, env);
        return true, Setting(group, CommitBase(d, env), RandBase(d, env)), d.left, RandExp(d, env);
      }
      if group !in env.generators || |env.generators[group]| < 2 { return; }
      s := Setting(group, env.generators[group][0], env.generators[group][1]);
      c, r := Fresh("__x_commitment__", counter), Fresh("__randx_com__", counter);
      var d := Com(s, c, x, r);
      env := WithRandom(env, r);
      env := env.(discreteLogs := env.discreteLogs[c := d], comsToCompute := env.comsToCompute[c := d]);
      ok := true;
    }

    /** describeRange: commitments to x - low, high - x and their product, the
        description of the product, and that it is a sum of four squares. */
    method DescribeRange(x: Text, group: string, low: Text, high: Text) returns (ok: bool, ghost p: RangeProof)
      modifies this
      ensures ok <==> Committable(old(env), x, group)
      ensures ok ==> p.s.group == group && p.x == x && p.low == low && p.high == high && p.k == old(counter)
      ensures ok && HasCommitment(old(env), x, group) ==>
        var d := old(env).discreteLogs[old(env).commitments[x]];
        Two(d) && p.c == d.left && p.r == RandExp(d, old(env))
        && p.s.g == CommitBase(d, old(env)) && p.s.h == RandBase(d, old(env)) && OpenedBy(d, x, p.s, p.r, old(env).commitments)
        && env == p.Translated(old(env))
      ensures ok && !HasCommitment(old(env), x, group) ==>
        p.c == Fresh("__x_commitment__", p.k) && p.r == Fresh("__randx_com__", p.k)
        && group in old(env).generators && |old(env).generators[group]| >= 2
        && p.s.g == old(env).generators[group][0] && p.s.h == old(env).generators[group][1]
        && env == p.Translated(WithX(old(env), p.s, x, p.k))
      ensures ok ==> output == p.Described(old(output)) && counter == old(counter) + 6
    {
      var s, c, r;
      ok, s, c, r := CommitmentTo(x, group);
      p := RangeProof(s, c, x, r, low, high, counter);
      hide WithX, RandIndex;
      if ok { DescribeBounded(x, low, high, s, c, r, p); }
    }

    /** The rest of describeRange, with the commitment to x at hand. */
    method DescribeBounded(x: Text, low: Text, high: Text, s: Setting, c: Text, r: Text, ghost p: RangeProof)
      requires p == RangeProof(s, c, x, r, low, high, counter)
      modifies this
      ensures env == p.Translated(old(env)) && output == p.Described(old(output)) && counter == old(counter) + 6
    {
      hide WithSquares, DescribedSquares, WithCompound, FourNames, WithMultiplication, ProductDescription;
      var prodComDLR, xLoComDLR, hiXComDLR := CommitToBounds(x, low, high, s, c, r, p);
      counter := counter + 1;
      BoundsCommitted(old(env), p);
      hide RangeProof.WithBounds;
      ProductDescribed(env, p);
      DescribeMultiplication(prodComDLR, xLoComDLR, hiXComDLR);
      DescribeNonNegative(prodComDLR);
    }

    /** Enters the commitments to x - low, high - x and their product, and how the
        verifier computes the first two. */
    method CommitToBounds(x: Text, low: Text, high: Text, s: Setting, c: Text, r: Text, ghost p: RangeProof)
      returns (prodComDLR: DLR, xLoComDLR: DLR, hiXComDLR: DLR)
      requires p == RangeProof(s, c, x, r, low, high, counter)
      modifies this
      ensures env == p.WithBounds(old(env)) && output == old(output) && counter == old(counter)
      ensures prodComDLR == p.ProdDLR() && xLoComDLR == p.XLoDLR() && hiXComDLR == p.HiXDLR()
    {
      var xLoSubExp, hiXSubExp := SubText(x, low), SubText(high, x);
      var prodExp := MulText(xLoSubExp, hiXSubExp);
      env := env.(expressions := env.expressions + {xLoSubExp, hiXSubExp, prodExp});
      var bs := [s.g, s.h];
      var xLoCom := Fresh("__xLo_commitment__", counter);
      xLoComDLR := Sigma.DLR(xLoCom, s.group, bs, [xLoSubExp, r]);
      var verifierLoDLR := Sigma.DLR(xLoCom, s.group, [s.g, c], [Neg(low), Int(1)]);
      env := env.(rangeComs := env.rangeComs[xLoCom := verifierLoDLR]);
      var negRX := Neg(r);
      env := env.(expressions := env.expressions + {negRX});
      var hiXCom := Fresh("__hiX_commitment__", counter);
      hiXComDLR := Sigma.DLR(hiXCom, s.group, bs, [hiXSubExp, negRX]);
      var verifierHiDLR := Sigma.DLR(hiXCom, s.group, [s.g, c], [high, Neg(Int(1))]);
      env := env.(rangeComs := env.rangeComs[hiXCom := verifierHiDLR]);
      var r1, prodCom := Fresh("__randExp__", counter), Fresh("__prod_commitment__", counter);
      prodComDLR := Sigma.DLR(prodCom, s.group, bs, [prodExp, r1]);
      env := WithRandom(env, r1);
      env := WithCommitted(env, xLoSubExp, xLoCom, xLoComDLR);
      env := WithCommitted(env, hiXSubExp, hiXCom, hiXComDLR);
      env := WithCommitted(env, prodExp, prodCom, prodComDLR);
    }
  }

  lemma BoundsCommitted(t: Tables, p: RangeProof)
    ensures var c := p.WithBounds(t).commitments; p.XLo() in c && p.HiX() in c && p.Prod() in c
  {
  }

  /** The product's description, with all three values committed to. */
  lemma ProductDescribed(t: Tables, p: RangeProof)
    requires p.XLo() in t.commitments && p.HiX() in t.commitments && p.Prod() in t.commitments
    ensures ProductDescription(p.ProdDLR(), p.XLoDLR(), p.HiXDLR(), t) == p.ProdProof()
    ensures var u := WithMultiplication(t, p.ProdDLR(), p.XLoDLR(), p.HiXDLR());
      u == WithCompound(WithCompound(t, p.ProdProof()), p.HiXDLR()) && u.commitments == t.commitments
  {
  }

  lemma SquareGrows(t: Tables, s: Setting, r: Text, k: nat, i: nat)
    ensures t.commitments.Keys <= WithSquare(t, s, r, k, i).commitments.Keys
    ensures WithSquare(t, s, r, k, i).decompositions == t.decompositions
  {
  }

  /** With the committed names in the tables, the description of a square is made with
      the second base and exponent as the random ones. */
  lemma SquareDescribed(t: Tables, s: Setting, r: Text, k: nat, i: nat)
    requires Decomp(k + i) in t.commitments && Square(k + i) in t.commitments
    ensures ProductDescription(SquareDLR(s, r, k, i), BaseDLR(s, k + i), BaseDLR(s, k + i), t) == SquareProof(s, r, k, i)
    ensures WithMultiplication(t, SquareDLR(s, r, k, i), BaseDLR(s, k + i), BaseDLR(s, k + i))
         == WithCompound(WithCompound(t, SquareProof(s, r, k, i)), BaseDLR(s, k + i))
  {
  }
}
