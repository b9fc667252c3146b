/** Products flattened into vectors of bases and exponents, and their value computed
    with one multi-exponentiation instead of recursive evaluation. */
module DescribeRelations {
  import opened Arithmetic
  import opened Ast
  import opened ModExp
  import E = Environment
  import ME = MultiExp

  // ---------- products of powers ----------

  /** The products of two lists of powers multiply to the product of both. */
  lemma {:induction false} ProductConcat(bs: seq<int>, es: seq<int>, cs: seq<int>, fs: seq<int>, m: int)
    requires |bs| == |es| && |cs| == |fs| && 1 < m
    ensures Cong(Product(bs + cs, es + fs, m), Product(bs, es, m) * Product(cs, fs, m), m)
    decreases |cs|
  {
    hide Product, PowerMod, MulMod;
    if |cs| == 0 {
      assert bs + cs == bs && es + fs == es && cs == [] && fs == [];
      ProductEmpty(m);
    } else {
      var n := |cs| - 1;
      var cs', fs' := cs[..n], fs[..n];
      ProductConcat(bs, es, cs', fs', m);
      ProductStep(bs + cs', es + fs', cs[n], fs[n], m);
      ProductStep(cs', fs', cs[n], fs[n], m);
      assert bs + cs == bs + cs' + [cs[n]] && es + fs == es + fs' + [fs[n]];
      assert cs == cs' + [cs[n]] && fs == fs' + [fs[n]];
      Extend(Product(bs + cs', es + fs', m), Product(bs, es, m), Product(cs', fs', m), PowerMod(cs[n], fs[n], m), m);
    }
  }

  lemma ProductEmpty(m: int)
    requires 1 < m
    ensures Product([], [], m) == 1
  {
  }

  lemma ProductStep(bs: seq<int>, es: seq<int>, b: int, e: int, m: int)
    requires |bs| == |es| && 1 < m
    ensures Product(bs + [b], es + [e], m) == MulMod(Product(bs, es, m), PowerMod(b, e, m), m)
  {
    assert (bs + [b])[..|bs|] == bs && (es + [e])[..|bs|] == es;
    hide PowerMod, MulMod;
  }

  lemma Extend(p: int, q: int, f: int, c: int, m: int)
    requires 1 < m && Cong(p, q * f, m)
    ensures Cong(MulMod(p, c, m), q * MulMod(f, c, m), m)
  {
    CongMul(p, q * f, c, c, m);
    CongMod(p * c, m);
    CongMod(f * c, m);
    CongMul(q, q, MulMod(f, c, m), f * c, m);
    Associate(q, f, c);
  }

  lemma Associate(q: int, f: int, c: int)
    ensures q * f * c == q * (f * c)
  {
  }

  // ---------- flattening ----------

  datatype Factors = Factors(bases: seq<Expr>, exps: seq<Expr>)

  predicate IsMul(e: Expr) { e.Bin? && e.op == Mul }

  predicate IsPow(e: Expr) { e.Bin? && e.op == Pow }

  /** The powers of a product: of its right side, then of its left side; what is no
      power counts as its first power. */
  function Split(e: Expr): (f: Factors)
    ensures |f.bases| == |f.exps| && 0 < |f.bases|
  {
    if IsPow(e) then Factors([e.lhs], [e.rhs])
    else if IsMul(e) then
      var r, l := Split(e.rhs), Split(e.lhs);
      Factors(r.bases + l.bases, r.exps + l.exps)
    else Factors([e], [Int(1)])
  }

  /** splitExprHelper: appends a product's bases and exponents to two vectors. */
  method SplitExprHelper(bases: seq<Expr>, exponents: seq<Expr>, mult: Expr) returns (bs: seq<Expr>, es: seq<Expr>)
    requires IsMul(mult)
    ensures bs == bases + Split(mult).bases && es == exponents + Split(mult).exps
    decreases mult
  {
    hide Split;
    SplitMul(mult);
    SplitSide(mult.rhs);
    SplitSide(mult.lhs);
    bs, es := bases, exponents;
    if IsPow(mult.rhs) {
      bs, es := bs + [mult.rhs.lhs], es + [mult.rhs.rhs];
    } else if IsMul(mult.rhs) {
      bs, es := SplitExprHelper(bs, es, mult.rhs);
    } else {
      bs, es := bs + [mult.rhs], es + [Int(1)];
    }
    assert bs == bases + Split(mult.rhs).bases && es == exponents + Split(mult.rhs).exps;
    if IsPow(mult.lhs) {
      bs, es := bs + [mult.lhs.lhs], es + [mult.lhs.rhs];
    } else if IsMul(mult.lhs) {
      bs, es := SplitExprHelper(bs, es, mult.lhs);
    } else {
      bs, es := bs + [mult.lhs], es + [Int(1)];
    }
  }

  lemma SplitMul(e: Expr)
    requires IsMul(e)
    ensures Split(e).bases == Split(e.rhs).bases + Split(e.lhs).bases
    ensures Split(e).exps == Split(e.rhs).exps + Split(e.lhs).exps
  {
  }

  lemma SplitSide(e: Expr)
    ensures IsPow(e) ==> Split(e) == Factors([e.lhs], [e.rhs])
    ensures !IsPow(e) && !IsMul(e) ==> Split(e) == Factors([e], [Int(1)])
  {
  }

  /** splitExpr of an equation's right side, a power or a product. */
  method SplitExpr(rhs: Expr) returns (f: Factors)
    requires IsPow(rhs) || IsMul(rhs)
    ensures f == Split(rhs)
  {
    if IsPow(rhs) {
      return Factors([rhs.lhs], [rhs.rhs]);
    }
    var bs, es := SplitExprHelper([], [], rhs);
    return Factors(bs, es);
  }

  /** The right factor comes first: of a commitment g^x * h^r, the randomness and its base. */
  lemma CommitmentFactors(g: Expr, x: Expr, h: Expr, r: Expr)
    ensures Split(Bin(Mul, Bin(Pow, g, x), Bin(Pow, h, r))) == Factors([h, g], [r, x])
  {
    assert Split(Bin(Pow, g, x)) == Factors([g], [x]) && Split(Bin(Pow, h, r)) == Factors([h], [r]);
  }

  // ---------- the value of a representation ----------

  /** The values of expressions, or the first failure. */
  function EvalPairs(f: Factors, n: nat, env: Env): Result<(seq<int>, seq<int>)>
    requires n <= |f.bases| == |f.exps|
  {
    if n == 0 then Ok(([], []))
    else
      var p :- EvalPairs(f, n - 1, env);
      var b :- Eval(f.bases[n - 1], env);
      var e :- Eval(f.exps[n - 1], env);
      Ok((p.0 + [b], p.1 + [e]))
  }

  lemma {:induction false} EvalPairsLength(f: Factors, n: nat, env: Env)
    requires n <= |f.bases| == |f.exps| && EvalPairs(f, n, env).Ok?
    ensures |EvalPairs(f, n, env).value.0| == n && |EvalPairs(f, n, env).value.1| == n
  {
    hide Eval;
    if n > 0 { EvalPairsLength(f, n - 1, env); }
  }

  /** The value of a flattened product in a group. */
  function FactorsValue(f: Factors, group: string, env: Env): Result<int>
    requires |f.bases| == |f.exps|
  {
    var g :- At(env.groups, group);
    if !HasModulus(g) then Undefined else
    var p :- EvalPairs(f, |f.bases|, env);
    EvalPairsLength(f, |f.bases|, env);
    Ok(Product(p.0, p.1, g.modulus))
  }

  /** The tables for the bases of some factors, if there are any, fit their values. */
  ghost predicate FactorsFit(f: Factors, group: string, env: Env, powers: E.Environment<Expr>)
    requires powers.Valid() && |f.bases| == |f.exps|
    reads powers, powers.cache, powers.multiCache
  {
    var p := EvalPairs(f, |f.bases|, env);
    p.Ok? && group in env.groups && HasModulus(env.groups[group]) ==>
      var (bs, es) := p.value;
      if |f.bases| == |bs| == |es| == 1 then powers.PowerFits(f.bases[0], bs[0], es[0], env.groups[group].modulus)
      else powers.MultiFits(f.bases, bs, es, env.groups[group].modulus)
  }

  /** DLRepresentation::computeValue. The single power goes to Environment::modPow
      and more to Environment::multiExp. */
  method ComputeValue(f: Factors, group: string, env: Env, powers: E.Environment<Expr>, cacher: ME.MultiExpCacher)
    returns (r: Result<int>)
    requires |f.bases| == |f.exps|
    requires powers.Valid() && cacher.Valid() && FactorsFit(f, group, env, powers)
    modifies cacher
    ensures cacher.Valid()
    ensures FactorsValue(f, group, env).Ok? ==> r == FactorsValue(f, group, env)
    ensures FactorsValue(f, group, env).IsFailure() ==> r.IsFailure()
  {
    hide Eval;
    var g :- At(env.groups, group);
    if !HasModulus(g) { return Undefined; }
    var mod := g.modulus;
    var bs: seq<int>, es: seq<int> := [], [];
    var i := 0;
    while i < |f.bases|
      invariant 0 <= i <= |f.bases| && |bs| == |es| == i && cacher.Valid()
      invariant EvalPairs(f, i, env) == Ok((bs, es))
    {
      var b, e := Eval(f.bases[i], env), Eval(f.exps[i], env);
      if b.IsFailure() || e.IsFailure() { PairsFail(f, i, |f.bases|, env); }
      var b' :- b;
      var e' :- e;
      bs, es := bs + [b'], es + [e'];
      i := i + 1;
    }
    if |f.bases| == 1 {
      ProductOne(bs[0], es[0], mod);
      assert bs == [bs[0]] && es == [es[0]];
      var power := powers.ModPow(f.bases[0], bs[0], es[0], mod);
      return Ok(power.value);
    }
    var product := powers.MultiExp(f.bases, bs, es, mod, cacher);
    return Ok(product.value);
  }

  lemma {:induction false} PairsFail(f: Factors, i: nat, n: nat, env: Env)
    requires i < n <= |f.bases| == |f.exps|
    requires Eval(f.bases[i], env).IsFailure() || Eval(f.exps[i], env).IsFailure()
    ensures EvalPairs(f, n, env).IsFailure()
    decreases n
  {
    hide Eval;
    if i < n - 1 { PairsFail(f, i, n - 1, env); }
  }

  // ---------- flattening preserves the value ----------

  /** What the interpreter guarantees of the groups and types it evaluates with:
      the name of no group is bound to the null group, integers are in no group. */
  ghost predicate Grounded(env: Env) {
    && NO_GROUP in env.groups && env.groups[NO_GROUP] == NullGroup
    && forall n :: n in env.types && env.types[n].kind == INTEGER ==> env.types[n] == INT
  }

  lemma {:induction false} IntegerType(e: Expr, env: Env)
    requires Grounded(env) && TypeOf(e, env).Ok? && TypeOf(e, env).value.kind == INTEGER
    ensures TypeOf(e, env).value == INT
  {
    match e
    case Int(_) =>
    case Id(_) =>
    case Neg(x) => IntegerType(x, env);
    case Bin(op, l, r) =>
      if TypeOf(l, env).value.kind == INTEGER { IntegerType(l, env); }
      if TypeOf(r, env).value.kind == INTEGER { IntegerType(r, env); }
    case For(_, _, _, _, _) =>
  }

  /** Elements and moduli of this type belong to the group. */
  predicate InGroup(t: VarInfo, group: string) {
    t.kind == ELEMENT || t.kind == MODULUS ==> t.group == group
  }

  /** No factor of the product is the modulus of another group. */
  predicate ModuliIn(e: Expr, group: string, env: Env) {
    TypeOf(e, env).Ok? && InGroup(TypeOf(e, env).value, group) &&
    (IsMul(e) ==> ModuliIn(e.lhs, group, env) && ModuliIn(e.rhs, group, env))
  }

  ghost predicate FactorsMean(f: Factors, v: int, m: int, env: Env)
    requires |f.bases| == |f.exps| && 1 < m
  {
    var p := EvalPairs(f, |f.bases|, env);
    p.Ok? && |p.value.0| == |p.value.1| && Cong(Product(p.value.0, p.value.1, m), v, m)
  }

  lemma OneFactor(b: Expr, e: Expr, v: int, m: int, env: Env)
    requires Eval(b, env).Ok? && Eval(e, env).Ok? && 1 < m
    requires Cong(PowerMod(Eval(b, env).value, Eval(e, env).value, m), v, m)
    ensures FactorsMean(Factors([b], [e]), v, m, env)
  {
    var f := Factors([b], [e]);
    var x, y := Eval(b, env).value, Eval(e, env).value;
    ProductOne(x, y, m);
    hide Eval, Product, PowerMod;
    EvalOne(b, e, env);
  }

  lemma EvalOne(b: Expr, e: Expr, env: Env)
    requires Eval(b, env).Ok? && Eval(e, env).Ok?
    ensures EvalPairs(Factors([b], [e]), 1, env) == Ok(([Eval(b, env).value], [Eval(e, env).value]))
  {
    hide Eval;
    var f := Factors([b], [e]);
    assert f.bases[0] == b && f.exps[0] == e;
    var x, y := Eval(b, env).value, Eval(e, env).value;
    var p := EvalPairs(f, 0, env).value;
    assert p.0 + [x] == [x] && p.1 + [y] == [y];
  }

  lemma {:induction false} EvalPairsConcat(f: Factors, g: Factors, n: nat, env: Env)
    requires |f.bases| == |f.exps| && n <= |g.bases| == |g.exps|
    requires EvalPairs(f, |f.bases|, env).Ok? && EvalPairs(g, n, env).Ok?
    ensures var p, q := EvalPairs(f, |f.bases|, env).value, EvalPairs(g, n, env).value;
      EvalPairs(Factors(f.bases + g.bases, f.exps + g.exps), |f.bases| + n, env) == Ok((p.0 + q.0, p.1 + q.1))
    decreases n
  {
    hide Eval;
    var h := Factors(f.bases + g.bases, f.exps + g.exps);
    if n > 0 {
      EvalPairsConcat(f, g, n - 1, env);
      assert h.bases[|f.bases| + n - 1] == g.bases[n - 1] && h.exps[|f.bases| + n - 1] == g.exps[n - 1];
      var p, q := EvalPairs(f, |f.bases|, env).value, EvalPairs(g, n - 1, env).value;
      var x, y := Eval(g.bases[n - 1], env).value, Eval(g.exps[n - 1], env).value;
      assert p.0 + q.0 + [x] == p.0 + (q.0 + [x]) && p.1 + q.1 + [y] == p.1 + (q.1 + [y]);
    } else {
      EvalPairsPrefix(f, g, |f.bases|, env);
      var p, q := EvalPairs(f, |f.bases|, env).value, EvalPairs(g, 0, env).value;
      assert p.0 + q.0 == p.0 && p.1 + q.1 == p.1;
    }
  }

  lemma {:induction false} EvalPairsPrefix(f: Factors, g: Factors, n: nat, env: Env)
    requires n <= |f.bases| == |f.exps| && |g.bases| == |g.exps|
    ensures EvalPairs(Factors(f.bases + g.bases, f.exps + g.exps), n, env) == EvalPairs(f, n, env)
    decreases n
  {
    hide Eval;
    if n > 0 {
      EvalPairsPrefix(f, g, n - 1, env);
    }
  }

  /** The factors of two expressions together multiply to the product. */
  lemma FactorsConcat(f: Factors, v: int, g: Factors, w: int, m: int, env: Env)
    requires |f.bases| == |f.exps| && |g.bases| == |g.exps| && 1 < m
    requires FactorsMean(f, v, m, env) && FactorsMean(g, w, m, env)
    ensures FactorsMean(Factors(f.bases + g.bases, f.exps + g.exps), w * v, m, env)
  {
    hide EvalPairs, Product;
    var p, q := EvalPairs(f, |f.bases|, env).value, EvalPairs(g, |g.bases|, env).value;
    EvalPairsConcat(f, g, |g.bases|, env);
    ProductConcat(p.0, p.1, q.0, q.1, m);
    CongMul(Product(p.0, p.1, m), v, Product(q.0, q.1, m), w, m);
    Commute(v, w);
  }

  lemma Commute(v: int, w: int)
    ensures v * w == w * v
  {
  }

  /** A power's value is congruent to the modular power of its parts. */
  lemma PowMeaning(e: Expr, group: string, env: Env)
    requires Grounded(env) && group in env.groups && HasModulus(env.groups[group])
    requires IsPow(e) && ModuliIn(e, group, env) && Eval(e, env).Ok?
    ensures FactorsMean(Split(e), Eval(e, env).value, env.groups[group].modulus, env)
  {
    var m := env.groups[group].modulus;
    var t := TypeOf(e.lhs, env).value;
    if t.kind == INTEGER { IntegerType(e.lhs, env); }
    var a, b := Eval(e.lhs, env).value, Eval(e.rhs, env).value;
    hide MulMod, InvMod, Arithmetic.Pow;
    if env.groups[t.group] == NullGroup || t.kind == EXPONENT {
      CongMod(Arithmetic.Pow(a, b), m);
    } else {
      assert t.group == group;
    }
    OneFactor(e.lhs, e.rhs, Eval(e, env).value, m, env);
  }

  lemma OtherMeaning(e: Expr, m: int, env: Env)
    requires Eval(e, env).Ok? && 1 < m && !IsPow(e) && !IsMul(e)
    ensures FactorsMean(Split(e), Eval(e, env).value, m, env)
  {
    var v := Eval(e, env).value;
    assert Arithmetic.Pow(v, 1) == v;
    CongMod(v, m);
    assert Eval(Int(1), env) == Ok(1);
    hide Eval, Arithmetic.Pow;
    OneFactor(e, Int(1), v, m, env);
  }

  lemma MulParts(e: Expr, group: string, env: Env)
    requires Grounded(env) && group in env.groups && HasModulus(env.groups[group])
    requires IsMul(e) && ModuliIn(e, group, env) && Eval(e, env).Ok?
    ensures Eval(e.lhs, env).Ok? && Eval(e.rhs, env).Ok?
    ensures Cong(Eval(e, env).value, Eval(e.lhs, env).value * Eval(e.rhs, env).value, env.groups[group].modulus)
  {
    var tl, tr := TypeOf(e.lhs, env).value, TypeOf(e.rhs, env).value;
    if tl.kind == INTEGER { IntegerType(e.lhs, env); }
    if tr.kind == INTEGER { IntegerType(e.rhs, env); }
    CongMod(Eval(e.lhs, env).value * Eval(e.rhs, env).value, env.groups[group].modulus);
    hide ModuliIn;
    if OnElements(tl, tr) { ElementJoin(tl, tr, group, env); }
  }

  lemma ElementJoin(tl: VarInfo, tr: VarInfo, group: string, env: Env)
    requires Grounded(env) && group in env.groups && HasModulus(env.groups[group])
    requires InGroup(tl, group) && InGroup(tr, group) && JoinTypes(tl, tr).Ok? && OnElements(tl, tr)
    requires (tl.kind == INTEGER ==> tl == INT) && (tr.kind == INTEGER ==> tr == INT)
    ensures GroupOf(tl, tr, env) == Ok(env.groups[group])
  {
  }

  /** The factors of an expression that has a type and a value evaluate, and their
      product is congruent to the value. */
  lemma {:induction false} SplitMeaning(e: Expr, group: string, env: Env)
    requires Grounded(env) && group in env.groups && HasModulus(env.groups[group])
    requires ModuliIn(e, group, env) && Eval(e, env).Ok?
    ensures FactorsMean(Split(e), Eval(e, env).value, env.groups[group].modulus, env)
  {
    if IsPow(e) {
      PowMeaning(e, group, env);
    } else if IsMul(e) {
      MulParts(e, group, env);
      SplitMeaning(e.rhs, group, env);
      SplitMeaning(e.lhs, group, env);
      var m := env.groups[group].modulus;
      var a, b := Eval(e.lhs, env).value, Eval(e.rhs, env).value;
      FactorsConcat(Split(e.rhs), b, Split(e.lhs), a, m, env);
      SplitMul(e);
      hide Eval, Split, FactorsMean, ModuliIn;
      FactorsCong(Split(e), a * b, Eval(e, env).value, m, env);
    } else {
      OtherMeaning(e, env.groups[group].modulus, env);
    }
  }

  lemma FactorsCong(f: Factors, v: int, w: int, m: int, env: Env)
    requires |f.bases| == |f.exps| && 1 < m && FactorsMean(f, v, m, env) && Cong(w, v, m)
    ensures FactorsMean(f, w, m, env)
  {
  }

  /** Flattening preserves meaning: one multi-exponentiation over the vectors gives
      the value of recursive evaluation, reduced by the group's modulus. */
  lemma ValueIsEval(e: Expr, group: string, env: Env)
    requires Grounded(env) && group in env.groups && HasModulus(env.groups[group])
    requires ModuliIn(e, group, env) && Eval(e, env).Ok?
    ensures FactorsValue(Split(e), group, env) == Ok(Eval(e, env).value % env.groups[group].modulus)
  {
    SplitMeaning(e, group, env);
    var m := env.groups[group].modulus;
    var f := Split(e);
    var p := EvalPairs(f, |f.bases|, env).value;
    hide Eval, Split, EvalPairs, ModuliIn;
    var x := Product(p.0, p.1, m);
    DivModUnique(x, m, 0, x);
  }

  /** A description left = product of powers says the same as the equation that it
      came from. */
  lemma DescriptionIsEquation(left: int, e: Expr, group: string, env: Env)
    requires Grounded(env) && group in env.groups && HasModulus(env.groups[group])
    requires ModuliIn(e, group, env) && Eval(e, env).Ok?
    ensures FactorsValue(Split(e), group, env).Ok?
    ensures Cong(left, FactorsValue(Split(e), group, env).value, env.groups[group].modulus)
       <==> Cong(left, Eval(e, env).value, env.groups[group].modulus)
  {
    ValueIsEval(e, group, env);
    CongMod(Eval(e, env).value, env.groups[group].modulus);
  }

  // ---------- computing declared variables ----------

  /** The value that is stored for `id := rhs`. */
  function Computed(id: Name, rhs: Expr, env: Env): Result<int> {
    if IsMul(rhs) then
      var t :- At(env.types, id);
      FactorsValue(Split(rhs), t.group, env)
    else Eval(rhs, env)
  }

  class ComputationVisitor {
    const types: map<Name, VarInfo>
    const groups: map<string, Group>
    var variables: map<Name, int>

    constructor (variables: map<Name, int>, types: map<Name, VarInfo>, groups: map<string, Group>)
      ensures this.variables == variables && this.types == types && this.groups == groups
    {
      this.variables, this.types, this.groups := variables, types, groups;
    }

    /** applyASTDeclEqual. */
    method ApplyDeclEqual(id: Name, rhs: Expr, powers: E.Environment<Expr>, cacher: ME.MultiExpCacher)
      returns (r: Result<int>)
      requires powers.Valid() && cacher.Valid()
      requires IsMul(rhs) && id in types ==> FactorsFit(Split(rhs), types[id].group, Env(variables, types, groups), powers)
      modifies this, cacher
      ensures cacher.Valid()
      ensures Computed(id, rhs, old(Env(variables, types, groups))).Ok?
          ==> r == Computed(id, rhs, old(Env(variables, types, groups)))
      ensures Computed(id, rhs, old(Env(variables, types, groups))).IsFailure() ==> r.IsFailure()
      ensures variables == if r.Ok? then old(variables)[id := r.value] else old(variables)
    {
      hide Eval, Split, FactorsValue, FactorsFit;
      var env := Env(variables, types, groups);
      if IsMul(rhs) {
        var t :- At(types, id);
        var f := SplitExpr(rhs);
        var v :- ComputeValue(f, t.group, env, powers, cacher);
        variables := variables[id := v];
        return Ok(v);
      }
      var v :- Eval(rhs, env);
      variables := variables[id := v];
      return Ok(v);
    }
  }

  /** A product is stored reduced by the modulus of the variable's group. That is its
      value exactly when the value is reduced already, as every product of group
      elements is; a product of exponents need not be. */
  lemma ComputedIsEval(id: Name, rhs: Expr, env: Env)
    requires Grounded(env) && id in env.types && env.types[id].group in env.groups
    requires HasModulus(env.groups[env.types[id].group])
    requires ModuliIn(rhs, env.types[id].group, env) && Eval(rhs, env).Ok?
    ensures Computed(id, rhs, env) == Eval(rhs, env)
       <==> !IsMul(rhs) || 0 <= Eval(rhs, env).value < env.groups[env.types[id].group].modulus
    ensures TypeOf(rhs, env).value.kind == ELEMENT ==> Computed(id, rhs, env) == Eval(rhs, env)
  {
    if IsMul(rhs) {
      var m, v := env.groups[env.types[id].group].modulus, Eval(rhs, env).value;
      ValueIsEval(rhs, env.types[id].group, env);
      CongMod(v, m);
      if 0 <= v < m { DivModUnique(v, m, 0, v); }
      if TypeOf(rhs, env).value.kind == ELEMENT {
        ElementReduced(rhs, env.types[id].group, env);
      }
    }
  }

  lemma ElementReduced(e: Expr, group: string, env: Env)
    requires Grounded(env) && group in env.groups && HasModulus(env.groups[group])
    requires IsMul(e) && ModuliIn(e, group, env) && Eval(e, env).Ok? && TypeOf(e, env).value.kind == ELEMENT
    ensures 0 <= Eval(e, env).value < env.groups[group].modulus
  {
    var tl, tr := TypeOf(e.lhs, env).value, TypeOf(e.rhs, env).value;
    if tl.kind == INTEGER { IntegerType(e.lhs, env); }
    if tr.kind == INTEGER { IntegerType(e.rhs, env); }
    ElementJoin(tl, tr, group, env);
    CongMod(Eval(e.lhs, env).value * Eval(e.rhs, env).value, env.groups[group].modulus);
  }

  /** A product of two exponents larger than the modulus is stored differently. */
  lemma ExponentProductReduced()
    ensures var g, x, y, z := "G", Name("x", NoSub), Name("y", NoSub), Name("z", NoSub);
      var t := VarInfo(g, EXPONENT);
      var env := Env(map[x := 5, y := 6], map[x := t, y := t, z := t],
                     map[NO_GROUP := NullGroup, g := PrimeOrder(23, 11)]);
      var e := Bin(Mul, Id(x), Id(y));
      Eval(e, env) == Ok(30) && Computed(z, e, env) == Ok(7)
  {
    var g, x, y, z := "G", Name("x", NoSub), Name("y", NoSub), Name("z", NoSub);
    var t := VarInfo(g, EXPONENT);
    var env := Env(map[x := 5, y := 6], map[x := t, y := t, z := t],
                   map[NO_GROUP := NullGroup, g := PrimeOrder(23, 11)]);
    var e := Bin(Mul, Id(x), Id(y));
    assert x != y && y != z && x != z && g != NO_GROUP;
    assert TypeOf(Id(x), env) == Ok(t) && TypeOf(Id(y), env) == Ok(t);
    assert Eval(Id(x), env) == Ok(5) && Eval(Id(y), env) == Ok(6);
    ExponentProduct(Id(x), Id(y), t, env);
    ValueIsEval(e, g, env);
  }

  lemma ExponentProduct(l: Expr, r: Expr, t: VarInfo, env: Env)
    requires TypeOf(l, env) == Ok(t) && TypeOf(r, env) == Ok(t) && t.kind == EXPONENT
    requires l.Id? && r.Id? && Eval(l, env).Ok? && Eval(r, env).Ok?
    ensures Eval(Bin(Mul, l, r), env) == Ok(Eval(l, env).value * Eval(r, env).value)
    ensures ModuliIn(Bin(Mul, l, r), t.group, env)
  {
  }
}
