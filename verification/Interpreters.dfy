/** What the prover and the verifier compute from the translated tables:
    InterpreterProver and InterpreterVerifier::computeIntermediateValues. */
module Interpreters {
  import opened Ast
  import opened Translator
  import Arithmetic
  import E = Environment
  import ME = MultiExp
  import ModExp
  import Pedersen
  import Sigma

  type Values = map<Text, int>

  // ---------- evaluation ----------

  function Operate(op: Op, a: int, b: int): Option<int> {
    match op
    case Add => Some(a + b)
    case Subtract => Some(a - b)
    case Mul => Some(a * b)
    case Pow => if 0 <= b && FitsLong(b) then Some(Arithmetic.Pow(a, b)) else None
    case Div => None
  }

  /** The value of an exponent expression over the integers, None when a name has no
      value or the operation is none that translation makes. */
  function Exponent(e: Text, v: Values): Option<int> {
    match e
    case Int(n) => Some(n)
    case Id(_) => if e in v then Some(v[e]) else None
    case Neg(x) => var a := Exponent(x, v); if a.Some? then Some(-a.value) else None
    case Bin(op, l, r) =>
      var a, b := Exponent(l, v), Exponent(r, v);
      if a.Some? && b.Some? then Operate(op, a.value, b.value) else None
    case For(_, _, _, _, _) => None
  }

  /** Sums, differences, products and powers to integers, of names of one group's exponents
      and of integers. */
  predicate IsExponent(e: Text, group: string, env: Env) {
    match e
    case Int(_) => true
    case Id(n) => n in env.types && (env.types[n] == INT || env.types[n] == VarInfo(group, EXPONENT))
    case Neg(x) => IsExponent(x, group, env)
    case Bin(op, l, r) =>
      && op != Div && IsExponent(l, group, env) && IsExponent(r, group, env)
      && (op == Pow ==> TypeOf(r, env) == Ok(INT))
    case For(_, _, _, _, _) => false
  }

  /** Such an expression has the value that the evaluation of expressions gives it, and has
      none in the same cases. */
  lemma {:induction false} ExponentIsEval(e: Text, v: Values, group: string, env: Env)
    requires IsExponent(e, group, env) && group in env.groups && NO_GROUP in env.groups && env.groups[NO_GROUP] == NullGroup
    requires forall n: Name :: (Id(n) in v <==> n in env.variables) && (Id(n) in v ==> v[Id(n)] == env.variables[n])
    ensures !HasFor(e) && (TypeOf(e, env) == Ok(INT) || TypeOf(e, env) == Ok(VarInfo(group, EXPONENT)))
    ensures Exponent(e, v).Some? <==> Eval(e, env).Ok?
    ensures Exponent(e, v).Some? ==> Eval(e, env) == Ok(Exponent(e, v).value)
  {
    hide Arithmetic.Pow, ModExp.PowerMod, ModExp.MulMod, ModExp.InvMod, Quot;
    match e
    case Int(_) =>
    case Id(n) => assert Id(n) in v <==> n in env.variables;
    case Neg(x) => ExponentIsEval(x, v, group, env);
    case Bin(_, l, r) =>
      ExponentIsEval(l, v, group, env);
      ExponentIsEval(r, v, group, env);
  }

  function Exponents(es: seq<Text>, v: Values): Option<seq<int>> {
    if |es| == 0 then Some([])
    else
      var init, last := Exponents(es[..|es| - 1], v), Exponent(es[|es| - 1], v);
      if init.Some? && last.Some? then Some(init.value + [last.value]) else None
  }

  lemma {:induction false} ExponentsLength(es: seq<Text>, v: Values)
    ensures Exponents(es, v).Some? ==> |Exponents(es, v).value| == |es|
  {
    if |es| > 0 { ExponentsLength(es[..|es| - 1], v); }
  }

  /** The value of a description, None when one of its parts has none. */
  function ValueOf(d: DLR, v: Values, groups: map<string, int>): Option<int> {
    if d.group in groups && 1 < groups[d.group] && |d.bases| == |d.exps|
       && Exponents(d.bases, v).Some? && Exponents(d.exps, v).Some? then
      ExponentsLength(d.bases, v);
      ExponentsLength(d.exps, v);
      Some(ModExp.Product(Exponents(d.bases, v).value, Exponents(d.exps, v).value, groups[d.group]))
    else None
  }

  /** The names in an expression. */
  function Leaves(e: Text): set<Text> {
    match e
    case Int(_) => {}
    case Id(_) => {e}
    case Neg(x) => Leaves(x)
    case Bin(_, l, r) => Leaves(l) + Leaves(r)
    case For(_, lo, hi, _, body) => Leaves(lo) + Leaves(hi) + Leaves(body)
  }

  function LeavesOf(es: seq<Text>): set<Text> {
    if |es| == 0 then {} else LeavesOf(es[..|es| - 1]) + Leaves(es[|es| - 1])
  }

  /** The names that the value of a description depends on. */
  function Reads(d: DLR): set<Text> {
    LeavesOf(d.bases) + LeavesOf(d.exps)
  }

  lemma LeavesOfPair(a: Text, b: Text)
    ensures LeavesOf([a, b]) == Leaves(a) + Leaves(b)
  {
    hide Leaves;
    assert [a, b][..1] == [a] && [a][..0] == [];
    assert LeavesOf([a]) == {} + Leaves(a);
  }

  /** w has all of v's names of a set, with the same values. */
  ghost predicate Agree(names: set<Text>, v: Values, w: Values) {
    forall n :: n in names ==> (n in v <==> n in w) && (n in v ==> w[n] == v[n])
  }

  lemma {:induction false} ExponentFrame(e: Text, v: Values, w: Values)
    requires Agree(Leaves(e), v, w)
    ensures Exponent(e, w) == Exponent(e, v)
  {
    match e
    case Int(_) =>
    case Id(_) => assert e in Leaves(e);
    case Neg(x) => ExponentFrame(x, v, w);
    case Bin(_, l, r) => ExponentFrame(l, v, w); ExponentFrame(r, v, w);
    case For(_, _, _, _, _) =>
  }

  lemma {:induction false} ExponentsFrame(es: seq<Text>, v: Values, w: Values)
    requires Agree(LeavesOf(es), v, w)
    ensures Exponents(es, w) == Exponents(es, v)
  {
    hide Exponent, Leaves;
    if |es| > 0 {
      ExponentsFrame(es[..|es| - 1], v, w);
      ExponentFrame(es[|es| - 1], v, w);
    }
  }

  lemma ValueFrame(d: DLR, v: Values, w: Values, groups: map<string, int>)
    requires Agree(Reads(d), v, w)
    ensures ValueOf(d, w, groups) == ValueOf(d, v, groups)
  {
    hide LeavesOf, Exponents;
    ExponentsFrame(d.bases, v, w);
    ExponentsFrame(d.exps, v, w);
  }

  // ---------- values by way of the environment ----------

  /** What computeValue comes to: a power by way of modPow, a product by way of multiExp;
      None when a part has no value or a table does not fit. */
  ghost function Through(d: DLR, v: Values, groups: map<string, int>, powers: E.Environment<Text>): Option<int>
    requires powers.Valid()
    reads powers, powers.cache, powers.multiCache
  {
    if ValueOf(d, v, groups).None? then None
    else
      var bs, es, m := Exponents(d.bases, v).value, Exponents(d.exps, v).value, groups[d.group];
      ExponentsLength(d.bases, v);
      ExponentsLength(d.exps, v);
      if |d.bases| == 1 then
        var p := powers.PowerOf(d.bases[0], bs[0], es[0], m);
        if p.Power? then Some(p.value) else None
      else
        var p := powers.ProductOf(d.bases, bs, es, m);
        if p.Ok? then Some(p.value) else None
  }

  method ComputeValue(d: DLR, v: Values, groups: map<string, int>, powers: E.Environment<Text>, cacher: ME.MultiExpCacher)
    returns (r: Option<int>)
    requires powers.Valid() && cacher.Valid()
    modifies cacher
    ensures cacher.Valid() && r == Through(d, v, groups, powers)
  {
    hide Exponents, E.Environment.PowerOf, E.Environment.ProductOf, ModExp.Product;
    if ValueOf(d, v, groups).None? { return None; }
    var bs, es, m := Exponents(d.bases, v).value, Exponents(d.exps, v).value, groups[d.group];
    ExponentsLength(d.bases, v);
    ExponentsLength(d.exps, v);
    if |d.bases| == 1 {
      var p := powers.ModPow(d.bases[0], bs[0], es[0], m);
      return if p.Power? then Some(p.value) else None;
    }
    var p := powers.MultiExp(d.bases, bs, es, m, cacher);
    return if p.Ok? then Some(p.value) else None;
  }

  /** The tables are for the values that their names have. */
  ghost predicate RightTables(powers: E.Environment<Text>, v: Values)
    requires powers.Valid()
    reads powers, powers.cache, powers.multiCache
  {
    && (powers.cache != null ==> forall n :: n in powers.cache.cache && Exponent(n, v).Some? ==>
          powers.cache.stored[n] == Exponent(n, v).value)
    && (powers.multiCache != null ==> forall ns :: ns in powers.multiCache.cache && Exponents(ns, v).Some? ==>
          powers.multiCache.stored[ns] == Exponents(ns, v).value)
  }

  /** Then what computeValue comes to, if anything, is the value. */
  lemma ThroughIsValue(d: DLR, v: Values, groups: map<string, int>, powers: E.Environment<Text>)
    requires powers.Valid() && RightTables(powers, v) && Through(d, v, groups, powers).Some?
    ensures Through(d, v, groups, powers) == ValueOf(d, v, groups)
  {
    var bs, es, m := Exponents(d.bases, v).value, Exponents(d.exps, v).value, groups[d.group];
    ExponentsLength(d.bases, v);
    ExponentsLength(d.exps, v);
    if |d.bases| == 1 {
      SingleBase(d.bases, v);
      hide Exponents;
      ModExp.ProductOne(bs[0], es[0], m);
      assert bs == [bs[0]] && es == [es[0]];
      hide ModExp.Product;
    }
    hide Exponents, ModExp.Product;
  }

  lemma SingleBase(es: seq<Text>, v: Values)
    requires |es| == 1 && Exponents(es, v).Some?
    ensures |Exponents(es, v).value| == 1 && Exponent(es[0], v) == Some(Exponents(es, v).value[0])
  {
    hide Exponent;
    assert es[..0] == [];
  }

  lemma ThroughFrame(d: DLR, v: Values, w: Values, groups: map<string, int>, powers: E.Environment<Text>)
    requires powers.Valid() && Agree(Reads(d), v, w)
    ensures Through(d, w, groups, powers) == Through(d, v, groups, powers)
  {
    hide LeavesOf, Exponents, E.Environment.PowerOf, E.Environment.ProductOf, ModExp.Product;
    ExponentsFrame(d.bases, v, w);
    ExponentsFrame(d.exps, v, w);
  }

  /** Then the values are right: the tables of cachePowers are, while the names that had
      values at that time have the same ones. */
  lemma TablesAreRight(powers: E.Environment<Text>, ds: seq<E.Description<Text>>, w: Values)
    requires powers.CachesMatch(ds) && forall n :: n in powers.variables ==> n.Id? && n in w && w[n] == powers.variables[n]
    ensures powers.Valid() && RightTables(powers, w)
  {
    hide E.PowerModulus, E.MultiModulus, Exponents, E.Values, E.Capacity, E.WidthFor;
    forall ns | ns in powers.multiCache.cache && Exponents(ns, w).Some?
      ensures powers.multiCache.stored[ns] == Exponents(ns, w).value
    {
      assert E.MultiEntryOk(powers.variables, ns, powers.multiCache.cache[ns], powers.multiCache.stored[ns]);
      ValuesAreExponents(powers.variables, ns, w);
    }
  }

  lemma {:induction false} ValuesAreExponents(bound: Values, ns: seq<Text>, w: Values)
    requires forall i :: 0 <= i < |ns| ==> ns[i] in bound && ns[i].Id? && ns[i] in w && w[ns[i]] == bound[ns[i]]
    ensures Exponents(ns, w) == Some(E.Values(bound, ns))
  {
    if |ns| > 0 {
      ValuesAreExponents(bound, ns[..|ns| - 1], w);
    }
  }

  /** The tables fit all descriptions that have values. */
  ghost predicate Fitting(coms: map<Text, DLR>, v: Values, groups: map<string, int>, powers: E.Environment<Text>)
    requires powers.Valid()
    reads powers, powers.cache, powers.multiCache
  {
    forall c :: c in coms && ValueOf(coms[c], v, groups).Some? ==> Through(coms[c], v, groups, powers).Some?
  }

  // ---------- kinds of names ----------

  const COMMITMENTS: set<string> := {"__decomp_com__", "__square_com__", "__xLo_commitment__",
                                     "__hiX_commitment__", "__prod_commitment__", "__x_commitment__"}

  const SQUARES: set<string> := {"__decomp__", "__square__"}

  const RANDOMS: set<string> := {"__randdecomp__", "__randsquare__", "__randExp__", "__randx_com__"}

  predicate OfKind(e: Text, kinds: set<string>) {
    e.Id? && e.name.base in kinds
  }

  /** A name of the program, which translation has not made up. */
  predicate UserName(e: Text) {
    e.Id? && e.name.base !in COMMITMENTS + SQUARES + RANDOMS
  }

  ghost predicate UserText(e: Text) {
    forall n :: n in Leaves(e) ==> UserName(n)
  }

  ghost predicate FreeOf(names: set<Text>, kinds: set<string>) {
    forall n :: n in names ==> !OfKind(n, kinds)
  }

  /** What translation keeps of its tables: made-up names are used for one purpose
      each, so that values can be computed in phases. */
  ghost predicate Tidy(t: Tables, counter: nat) {
    && (forall r :: r in t.randoms ==> OfKind(r, RANDOMS))
    && (forall e :: e in t.expressions ==> !e.Id? && FreeOf(Leaves(e), COMMITMENTS))
    && (forall e :: e in t.decompositions ==> !e.Id? && FreeOf(Leaves(e), COMMITMENTS + SQUARES))
    && (forall c :: c in t.comsToCompute ==> OfKind(c, COMMITMENTS) && FreeOf(Reads(t.comsToCompute[c]), COMMITMENTS))
    && Blocks(t.decompositions, counter)
  }

  /** The four names of each decomposition are made with counters of its own. */
  ghost predicate Blocks(ds: map<Text, seq<DecompNames>>, counter: nat) {
    && (forall e :: e in ds ==> exists k: nat :: ds[e] == FourNames(k, 4) && k + 4 <= counter)
    && forall e, f, i, j :: e in ds && f in ds && e != f && 0 <= i < |ds[e]| && 0 <= j < |ds[f]| ==>
         ds[e][i].decomp != ds[f][j].decomp && ds[e][i].decompSquare != ds[f][j].decompSquare
  }

  // ---------- what the prover computes ----------

  /** The roots and the squares of a decomposition have values, which sum up to the
      value that was decomposed. */
  ghost predicate Decomposed(e: Text, names: seq<DecompNames>, v: Values) {
    && e in v && Exponent(e, v) == Some(v[e])
    && (forall i :: 0 <= i < |names| ==> names[i].decomp in v && names[i].decompSquare in v)
    && (forall i :: 0 <= i < |names| ==> v[names[i].decompSquare] == v[names[i].decomp] * v[names[i].decomp])
    && Pedersen.Sum(Pedersen.Squares(Roots(names, v))) == v[e]
  }

  function Roots(names: seq<DecompNames>, v: Values): (s: seq<int>)
    requires forall i :: 0 <= i < |names| ==> names[i].decomp in v
    ensures |s| == |names|
  {
    seq(|names|, i requires 0 <= i < |names| => v[names[i].decomp])
  }

  /** The prover's values after computeIntermediateValues. */
  ghost predicate Computed(t: Tables, v: Values, groups: map<string, int>) {
    && (forall r :: r in t.randoms ==> r in v)
    && (forall e :: e in t.expressions ==> e in v && Exponent(e, v) == Some(v[e]))
    && (forall e :: e in t.decompositions ==> Decomposed(e, t.decompositions[e], v))
    && (forall c :: c in t.comsToCompute ==> c in v && ValueOf(t.comsToCompute[c], v, groups) == Some(v[c]))
  }

  lemma {:induction false} LeavesAreNames(e: Text)
    ensures forall n :: n in Leaves(e) ==> n.Id?
  {
    match e
    case Int(_) =>
    case Id(_) =>
    case Neg(x) => LeavesAreNames(x);
    case Bin(_, l, r) => LeavesAreNames(l); LeavesAreNames(r);
    case For(_, lo, hi, _, body) => LeavesAreNames(lo); LeavesAreNames(hi); LeavesAreNames(body);
  }

  /** A new value changes no expression that does not name it. */
  lemma ExponentUnchanged(e: Text, v: Values, k: Text, x: int)
    requires k !in Leaves(e)
    ensures Exponent(e, v[k := x]) == Exponent(e, v)
  {
    ExponentFrame(e, v, v[k := x]);
  }

  /** Compound expressions have the values that they evaluate to. */
  ghost predicate Consistent(v: Values) {
    forall e :: e in v && !e.Id? ==> Exponent(e, v) == Some(v[e])
  }

  /** What the names that have values are, and which expressions have one. */
  ghost predicate Within(v: Values, kinds: set<string>, compound: set<Text>) {
    forall e :: e in v ==> if e.Id? then UserName(e) || OfKind(e, kinds) else e in compound
  }

  lemma ConsistentExpression(v: Values, e: Text, x: int)
    requires Consistent(v) && !e.Id? && Exponent(e, v) == Some(x)
    ensures Consistent(v[e := x])
  {
    hide Exponent, Leaves;
    forall f | f in v[e := x] && !f.Id? ensures Exponent(f, v[e := x]) == Some(v[e := x][f]) {
      LeavesAreNames(f);
      ExponentUnchanged(f, v, e, x);
    }
  }

  /** All expressions of a set evaluate. */
  ghost predicate AllEvaluate(es: set<Text>, v: Values) {
    forall e :: e in es ==> Exponent(e, v).Some?
  }

  ghost predicate AllHaveValues(coms: map<Text, DLR>, v: Values, groups: map<string, int>) {
    forall c :: c in coms ==> ValueOf(coms[c], v, groups).Some?
  }

  /** All values are still there, except for some names. */
  ghost predicate ExtendedBut(v: Values, w: Values, names: set<Text>) {
    forall n :: n in v && n !in names ==> n in w && w[n] == v[n]
  }

  /** All values are still there. */
  ghost predicate Extended(v: Values, w: Values) {
    forall n :: n in v ==> n in w && w[n] == v[n]
  }

  /** No look-up can fail: expressions evaluate wherever the names that are made up for
      them have values. */
  ghost predicate Evaluable(t: Tables, v: Values, groups: map<string, int>) {
    && (forall w: Values :: Extended(v, w) && HasRandoms(t, w) ==> AllEvaluate(t.decompositions.Keys, w))
    && (forall w: Values :: Extended(v, w) && HasRandoms(t, w) && HasSquares(t, w) ==>
          AllEvaluate(t.expressions, w) && AllHaveValues(t.comsToCompute, w, groups))
  }

  ghost predicate HasRandoms(t: Tables, w: Values) {
    forall r :: r in t.randoms ==> r in w
  }

  ghost predicate HasSquares(t: Tables, w: Values) {
    forall e :: e in t.decompositions ==> HasNames(t.decompositions[e], w)
  }

  ghost predicate HasNames(names: seq<DecompNames>, w: Values) {
    forall i :: 0 <= i < |names| ==> names[i].decomp in w && names[i].decompSquare in w
  }

  /** One of the eight names of a decomposition. */
  ghost predicate OfDecomposition(n: Text, ds: map<Text, seq<DecompNames>>) {
    exists e, k: nat :: e in ds && ds[e] == FourNames(k, 4) && NamedBy(n, k)
  }

  /** All names in the expressions have values once the randoms and the decompositions
      have theirs. */
  ghost predicate Supplied(t: Tables, v: Values) {
    forall e, n :: e in t.expressions && n in Leaves(e) ==> n in v || n in t.randoms || OfDecomposition(n, t.decompositions)
  }

  class InterpreterProver {
    var variables: Values

    constructor (v: Values)
      ensures variables == v
    {
      variables := v;
    }

    /** A random value for every name that needs one. */
    method FormRandomExponents(randoms: seq<Text>, random: Text -> int)
      requires forall r :: r in randoms ==> OfKind(r, RANDOMS)
      requires Within(variables, {}, {})
      modifies this
      ensures Within(variables, RANDOMS, {}) && forall r :: r in randoms ==> r in variables && variables[r] == random(r)
      ensures forall n :: n in old(variables) ==> n in variables && variables[n] == old(variables)[n]
      ensures forall n :: n in variables ==> n in old(variables) || n in randoms
    {
      var i := 0;
      while i < |randoms|
        invariant 0 <= i <= |randoms| && Within(variables, RANDOMS, {})
        invariant forall j :: 0 <= j < i ==> randoms[j] in variables && variables[randoms[j]] == random(randoms[j])
        invariant forall n :: n in variables ==> n in old(variables) || n in randoms
        invariant forall n :: n in old(variables) ==> n in variables && variables[n] == old(variables)[n]
      {
        assert randoms[i] in randoms;
        variables := variables[randoms[i] := random(randoms[i])];
        i := i + 1;
      }
    }

    /** The expressions that have no value yet; false when one cannot be evaluated. */
    method EvaluateExpressions(expressions: set<Text>, ghost kinds: set<string>, ghost compound: set<Text>) returns (ok: bool)
      requires Consistent(variables) && Within(variables, kinds, compound) && forall e :: e in expressions ==> !e.Id?
      modifies this
      ensures Consistent(variables) && Within(variables, kinds, compound + expressions)
      ensures forall n :: n in old(variables) ==> n in variables && variables[n] == old(variables)[n]
      ensures forall n :: n in variables && n.Id? ==> n in old(variables)
      ensures ok ==> forall e :: e in expressions ==> e in variables
      ensures (forall w: Values :: Extended(old(variables), w) ==> AllEvaluate(expressions, w)) ==> ok
    {
      hide Exponent, UserName;
      var left := expressions;
      while left != {}
        invariant left <= expressions
        invariant Consistent(variables) && Within(variables, kinds, compound + expressions)
        invariant forall n :: n in old(variables) ==> n in variables && variables[n] == old(variables)[n]
        invariant forall n :: n in variables && n.Id? ==> n in old(variables)
        invariant forall e :: e in expressions && e !in left ==> e in variables
        decreases left
      {
        var e :| e in left;
        if e !in variables {
          var x := Exponent(e, variables);
          if x.None? {
            assert Extended(old(variables), variables) && !AllEvaluate(expressions, variables);
            return false;
          }
          ConsistentExpression(variables, e, x.value);
          variables := variables[e := x.value];
        }
        left := left - {e};
      }
      ok := true;
    }

    /** The names of one decomposition get the numbers and their squares. */
    method MapNames(names: seq<DecompNames>, fs: seq<int>, ghost k: nat)
      requires names == FourNames(k, 4) && |fs| == 4
      modifies this
      ensures Mapped(names, fs, variables)
      ensures Renamed(old(variables), variables, k)
    {
      hide NamedBy;
      var i := 0;
      while i < 4
        invariant 0 <= i <= 4
        invariant forall j :: 0 <= j < i ==> names[j].decomp in variables && variables[names[j].decomp] == fs[j]
        invariant forall j :: 0 <= j < i ==>
          names[j].decompSquare in variables && variables[names[j].decompSquare] == fs[j] * fs[j]
        invariant forall j :: 0 <= j < i ==> names[j].decomp in variables && names[j].decompSquare in variables
        invariant forall n :: n in variables ==> n in old(variables) || NamedBy(n, k)
        invariant forall n :: n in old(variables) ==> n in variables
        invariant forall n :: n in old(variables) && !NamedBy(n, k) ==> variables[n] == old(variables)[n]
      {
        NamesAre(k, i);
        NamesDistinct(k, i);
        variables := variables[names[i].decomp := fs[i]];
        variables := variables[names[i].decompSquare := fs[i] * fs[i]];
        i := i + 1;
      }
      AllNamed(k, names, variables);
    }

    /** Four squares for every value that is to be decomposed, evaluating it first where
        that has not been done; false when it cannot be evaluated. */
    method Decompose(ds: map<Text, seq<DecompNames>>, fourSquares: int -> seq<int>, ghost counter: nat) returns (ok: bool)
      requires Blocks(ds, counter) && forall n :: |fourSquares(n)| == 4
      requires forall e :: e in ds ==> !e.Id? && FreeOf(Leaves(e), COMMITMENTS + SQUARES)
      requires Consistent(variables) && Within(variables, RANDOMS, {})
      modifies this
      ensures Consistent(variables) && Within(variables, RANDOMS + SQUARES, ds.Keys)
      ensures forall n :: n in old(variables) ==> n in variables && variables[n] == old(variables)[n]
      ensures forall n :: n in variables && n.Id? ==> n in old(variables) || OfDecomposition(n, ds)
      ensures ok ==> forall e :: e in ds ==> e in variables && Mapped(ds[e], fourSquares(variables[e]), variables)
      ensures (forall w: Values :: Extended(old(variables), w) ==> AllEvaluate(ds.Keys, w)) ==> ok
    {
      hide Exponent, Leaves, UserName, Mapped, FreeOf, Consistent, OfDecomposition;
      var left := ds.Keys;
      while left != {}
        invariant forall n :: |fourSquares(n)| == 4
        invariant left <= ds.Keys && Consistent(variables) && Within(variables, RANDOMS + SQUARES, ds.Keys)
        invariant forall n :: n in old(variables) ==> n in variables && variables[n] == old(variables)[n]
        invariant forall n :: n in variables && n.Id? ==> n in old(variables) || OfDecomposition(n, ds)
        invariant forall e :: e in ds && e !in left ==> e in variables && Mapped(ds[e], fourSquares(variables[e]), variables)
        decreases left
      {
        var e :| e in left;
        if e !in variables {
          var x := Exponent(e, variables);
          if x.None? {
            assert Extended(old(variables), variables) && !AllEvaluate(ds.Keys, variables);
            return false;
          }
          ConsistentExpression(variables, e, x.value);
          forall f | f in ds && f !in left ensures Mapped(ds[f], fourSquares(variables[f]), variables[e := x.value]) {
            MappedAdds(ds, counter, f, fourSquares(variables[f]), variables, e, x.value);
          }
          variables := variables[e := x.value];
        }
        ghost var k: nat :| ds[e] == FourNames(k, 4) && k + 4 <= counter;
        ghost var middle := variables;
        assert ds[e] == FourNames(k, 4) && |fourSquares(variables[e])| == 4;
        MapNames(ds[e], fourSquares(variables[e]), k);
        MapKeeps(ds, middle, variables, k);
        MapAdds(ds, middle, variables, e, k);
        forall f | f in ds && f !in left ensures f in variables && Mapped(ds[f], fourSquares(variables[f]), variables) {
          MappedKeeps(ds, counter, e, f, fourSquares(middle[f]), middle, variables, k);
        }
        left := left - {e};
      }
      ok := true;
    }

    /** The values of all commitments, by way of the environment; false when one cannot be
        computed or a table does not fit. */
    method ComputeCommitments(coms: map<Text, DLR>, groups: map<string, int>, powers: E.Environment<Text>,
                              cacher: ME.MultiExpCacher) returns (ok: bool)
      requires forall c :: c in coms ==> OfKind(c, COMMITMENTS) && FreeOf(Reads(coms[c]), COMMITMENTS)
      requires powers.Valid() && cacher.Valid()
      requires forall w: Values :: ExtendedBut(variables, w, coms.Keys) ==> RightTables(powers, w)
      modifies this, cacher
      ensures cacher.Valid()
      ensures forall n :: n in variables ==> n in old(variables) || n in coms
      ensures forall n :: n in old(variables) && n !in coms ==> n in variables && variables[n] == old(variables)[n]
      ensures ok ==> forall c :: c in coms ==> c in variables && ValueOf(coms[c], variables, groups) == Some(variables[c])
      ensures ok ==> Fitting(coms, variables, groups, powers)
      ensures (forall w: Values :: ExtendedBut(old(variables), w, coms.Keys) ==> AllHaveValues(coms, w, groups))
          ==> Fitting(coms, variables, groups, powers) ==> ok
    {
      hide ValueOf, Reads, Through, RightTables;
      ghost var start := variables;
      var left := coms.Keys;
      while left != {}
        invariant left <= coms.Keys && cacher.Valid()
        invariant forall n :: n in variables ==> n in start || n in coms
        invariant forall n :: n in start && n !in coms ==> n in variables && variables[n] == start[n]
        invariant forall c :: c in coms && c !in left ==> c in variables && ValueOf(coms[c], variables, groups) == Some(variables[c])
        invariant forall c :: c in coms && c !in left ==> Through(coms[c], variables, groups, powers).Some?
        decreases left
      {
        var c :| c in left;
        assert ExtendedBut(start, variables, coms.Keys);
        var x := ComputeValue(coms[c], variables, groups, powers, cacher);
        if x.None? {
          assert !AllHaveValues(coms, variables, groups) || !Fitting(coms, variables, groups, powers);
          return false;
        }
        ThroughIsValue(coms[c], variables, groups, powers);
        forall d | d in coms
          ensures ValueOf(coms[d], variables[c := x.value], groups) == ValueOf(coms[d], variables, groups)
          ensures Through(coms[d], variables[c := x.value], groups, powers) == Through(coms[d], variables, groups, powers)
        {
          assert !OfKind(c, COMMITMENTS) || c !in Reads(coms[d]);
          ValueFrame(coms[d], variables, variables[c := x.value], groups);
          ThroughFrame(coms[d], variables, variables[c := x.value], groups, powers);
        }
        variables := variables[c := x.value];
        left := left - {c};
      }
      ok := true;
    }

    /** computeIntermediateValues: with tidy tables, values of the program's own names,
        and four squares for what is decomposed, everything translated gets its value. */
    method ComputeIntermediateValues(t: Tables, groups: map<string, int>, random: Text -> int,
                                     fourSquares: int -> seq<int>, powers: E.Environment<Text>,
                                     cacher: ME.MultiExpCacher, ghost counter: nat) returns (ok: bool)
      requires Tidy(t, counter) && Within(variables, {}, {}) && forall n :: |fourSquares(n)| == 4
      requires powers.Valid() && cacher.Valid()
      requires forall w: Values :: Extended(variables, w) ==> RightTables(powers, w)
      modifies this, cacher
      ensures cacher.Valid()
      ensures forall n :: n in old(variables) ==> n in variables && variables[n] == old(variables)[n]
      ensures ok ==> forall e :: e in t.decompositions ==> e in variables && Exponent(e, variables) == Some(variables[e])
      ensures ok && (forall e :: e in t.decompositions ==> Pedersen.Sum(Pedersen.Squares(fourSquares(variables[e]))) == variables[e])
          ==> Computed(t, variables, groups)
      ensures Evaluable(t, old(variables), groups) && Fitting(t.comsToCompute, variables, groups, powers) ==> ok
      ensures ok ==> Fitting(t.comsToCompute, variables, groups, powers)
      ensures ok ==> Supplied(t, old(variables))
      ensures forall r :: r in t.randoms ==> r in variables && variables[r] == random(r)
      ensures Evaluable(t, old(variables), groups) ==> Mapping(t.decompositions, fourSquares, variables)
    {
      hide *;
      TidyHas(t, counter);
      ghost var v0 := variables;
      FormRandomExponents(t.randoms, random);
      NothingCompound(variables, RANDOMS);
      ghost var v1 := variables;
      IsExtended(v0, v1);
      RandomsThere(t, v1);
      if Evaluable(t, v0, groups) { DecomposeWorks(t, v0, v1, groups); }
      ok := Decompose(t.decompositions, fourSquares, counter);
      ghost var v2 := variables;
      IsExtended(v1, v2);
      ExtendedTrans(v0, v1, v2);
      ExtendedHas(v0, v2);
      ExtendedHas(v1, v2);
      if !ok { return; }
      IsMapping(t.decompositions, fourSquares, v2);
      SquaresThere(t, fourSquares, v2);
      RandomsStay(t, v1, v2);
      if Evaluable(t, v0, groups) { EvaluationWorks(t, v0, v2, groups); }
      ok := EvaluateExpressions(t.expressions, RANDOMS + SQUARES, t.decompositions.Keys);
      ghost var v3 := variables;
      IsExtended(v2, v3);
      ExtendedTrans(v1, v2, v3);
      ExtendedHas(v1, v3);
      ExtendedTrans(v0, v2, v3);
      ExtendedHas(v0, v3);
      if !ok { return; }
      NamesSupplied(t, v0, v1, v2, v3);
      CommitmentsAbsent(t, counter, v3);
      if Evaluable(t, v0, groups) { CommitmentsWork(t, v0, v2, v3, groups); }
      RightLater(t, v0, v3, powers);
      ok := ComputeCommitments(t.comsToCompute, groups, powers, cacher);
      ghost var v4 := variables;
      CommitmentsExtend(t, counter, v3, v4);
      ExtendedTrans(v2, v3, v4);
      MappingStays(t.decompositions, fourSquares, v2, v4);
      ExtendedTrans(v1, v2, v4);
      ExtendedHas(v1, v4);
      ExtendedTrans(v0, v3, v4);
      ExtendedHas(v0, v4);
      if !ok { return; }
      AllComputed(t, counter, groups, fourSquares, v1, v2, v3, v4);
    }
  }

  // ---------- what the phases need ----------

  lemma TidyHas(t: Tables, counter: nat)
    requires Tidy(t, counter)
    ensures (forall r :: r in t.randoms ==> OfKind(r, RANDOMS)) && Blocks(t.decompositions, counter)
    ensures forall e :: e in t.expressions ==> !e.Id?
    ensures forall e :: e in t.decompositions ==> !e.Id? && FreeOf(Leaves(e), COMMITMENTS + SQUARES)
    ensures forall c :: c in t.comsToCompute ==> OfKind(c, COMMITMENTS) && FreeOf(Reads(t.comsToCompute[c]), COMMITMENTS)
  {
    hide Leaves, Reads, FreeOf, Blocks, OfKind;
  }

  lemma {:induction false} LeavesHaveValues(e: Text, v: Values)
    requires Exponent(e, v).Some?
    ensures forall n :: n in Leaves(e) ==> n in v
  {
    match e
    case Int(_) =>
    case Id(_) =>
    case Neg(x) => LeavesHaveValues(x, v);
    case Bin(_, l, r) => LeavesHaveValues(l, v); LeavesHaveValues(r, v);
  }

  /** When the expressions could be evaluated, every name in them had a value. */
  lemma NamesSupplied(t: Tables, v0: Values, v1: Values, v2: Values, v3: Values)
    requires forall n :: n in v1 ==> n in v0 || n in t.randoms
    requires forall n :: n in v2 && n.Id? ==> n in v1 || OfDecomposition(n, t.decompositions)
    requires forall n :: n in v3 && n.Id? ==> n in v2
    requires Consistent(v3) && forall e :: e in t.expressions ==> !e.Id? && e in v3
    ensures Supplied(t, v0)
  {
    hide Exponent, Leaves, OfDecomposition;
    forall e, n | e in t.expressions && n in Leaves(e)
      ensures n in v0 || n in t.randoms || OfDecomposition(n, t.decompositions)
    {
      LeavesHaveValues(e, v3);
      LeavesAreNames(e);
    }
  }

  // ---------- no phase fails ----------

  lemma RandomsThere(t: Tables, v: Values)
    requires forall r :: r in t.randoms ==> r in v
    ensures HasRandoms(t, v)
  {
  }

  lemma RandomsStay(t: Tables, v: Values, w: Values)
    requires HasRandoms(t, v) && Extended(v, w)
    ensures HasRandoms(t, w)
  {
  }

  lemma SquaresThere(t: Tables, fourSquares: int -> seq<int>, v: Values)
    requires Mapping(t.decompositions, fourSquares, v)
    ensures HasSquares(t, v)
  {
    forall e | e in t.decompositions ensures HasNames(t.decompositions[e], v) {
      assert Mapped(t.decompositions[e], fourSquares(v[e]), v);
    }
  }

  lemma SquaresStay(t: Tables, v: Values, w: Values)
    requires HasSquares(t, v) && Extended(v, w)
    ensures HasSquares(t, w)
  {
    forall e | e in t.decompositions ensures HasNames(t.decompositions[e], w) {
      assert HasNames(t.decompositions[e], v);
    }
  }

  lemma DecomposeWorks(t: Tables, v0: Values, v1: Values, groups: map<string, int>)
    requires Evaluable(t, v0, groups) && Extended(v0, v1) && HasRandoms(t, v1)
    ensures forall w: Values :: Extended(v1, w) ==> AllEvaluate(t.decompositions.Keys, w)
  {
    hide AllEvaluate, AllHaveValues, Extended, HasRandoms, HasSquares;
    forall w: Values | Extended(v1, w) ensures AllEvaluate(t.decompositions.Keys, w) {
      ExtendedTrans(v0, v1, w);
      RandomsStay(t, v1, w);
    }
  }

  lemma EvaluationWorks(t: Tables, v0: Values, v2: Values, groups: map<string, int>)
    requires Evaluable(t, v0, groups) && Extended(v0, v2) && HasRandoms(t, v2) && HasSquares(t, v2)
    ensures forall w: Values :: Extended(v2, w) ==>
      AllEvaluate(t.expressions, w) && AllHaveValues(t.comsToCompute, w, groups)
  {
    hide AllEvaluate, AllHaveValues, Extended, HasRandoms, HasSquares;
    forall w: Values | Extended(v2, w)
      ensures AllEvaluate(t.expressions, w) && AllHaveValues(t.comsToCompute, w, groups)
    {
      ExtendedTrans(v0, v2, w);
      RandomsStay(t, v2, w);
      SquaresStay(t, v2, w);
    }
  }

  lemma CommitmentsAbsent(t: Tables, counter: nat, v: Values)
    requires Tidy(t, counter) && Within(v, RANDOMS + SQUARES, t.decompositions.Keys + t.expressions)
    ensures forall n :: n in v ==> n !in t.comsToCompute
  {
    KindsApart();
    hide Reads, Leaves, Blocks, FreeOf;
    assert forall c :: c in t.comsToCompute ==> OfKind(c, COMMITMENTS);
  }

  lemma CommitmentsWork(t: Tables, v0: Values, v2: Values, v3: Values, groups: map<string, int>)
    requires Evaluable(t, v0, groups) && Extended(v0, v2) && HasRandoms(t, v2) && HasSquares(t, v2) && Extended(v2, v3)
    requires forall n :: n in v3 ==> n !in t.comsToCompute
    ensures forall w: Values :: ExtendedBut(v3, w, t.comsToCompute.Keys) ==> AllHaveValues(t.comsToCompute, w, groups)
  {
    hide AllEvaluate, AllHaveValues, HasRandoms, HasSquares, Evaluable;
    EvaluationWorks(t, v0, v2, groups);
    forall w: Values | ExtendedBut(v3, w, t.comsToCompute.Keys) ensures AllHaveValues(t.comsToCompute, w, groups) {
      assert Extended(v3, w);
      ExtendedTrans(v2, v3, w);
    }
  }

  lemma RightLater(t: Tables, v0: Values, v3: Values, powers: E.Environment<Text>)
    requires powers.Valid() && Extended(v0, v3) && forall n :: n in v3 ==> n !in t.comsToCompute
    requires forall w: Values :: Extended(v0, w) ==> RightTables(powers, w)
    ensures forall w: Values :: ExtendedBut(v3, w, t.comsToCompute.Keys) ==> RightTables(powers, w)
  {
    hide RightTables;
    forall w: Values | ExtendedBut(v3, w, t.comsToCompute.Keys) ensures RightTables(powers, w) {
      assert Extended(v3, w);
      ExtendedTrans(v0, v3, w);
    }
  }

  // ---------- the phases together ----------

  lemma IsExtended(v: Values, w: Values)
    requires forall n :: n in v ==> n in w && w[n] == v[n]
    ensures Extended(v, w)
  {
  }

  lemma ExtendedHas(v: Values, w: Values)
    requires Extended(v, w)
    ensures forall n :: n in v ==> n in w && w[n] == v[n]
  {
  }

  lemma ExtendedTrans(u: Values, v: Values, w: Values)
    requires Extended(u, v) && Extended(v, w)
    ensures Extended(u, w)
  {
  }

  lemma NothingCompound(v: Values, kinds: set<string>)
    requires Within(v, kinds, {})
    ensures Consistent(v)
  {
  }

  ghost predicate Mapping(ds: map<Text, seq<DecompNames>>, fourSquares: int -> seq<int>, v: Values) {
    forall e :: e in ds ==> e in v && Mapped(ds[e], fourSquares(v[e]), v)
  }

  lemma IsMapping(ds: map<Text, seq<DecompNames>>, fourSquares: int -> seq<int>, v: Values)
    requires forall e :: e in ds ==> e in v && Mapped(ds[e], fourSquares(v[e]), v)
    ensures Mapping(ds, fourSquares, v)
  {
  }

  lemma MappingStays(ds: map<Text, seq<DecompNames>>, fourSquares: int -> seq<int>, v: Values, w: Values)
    requires Mapping(ds, fourSquares, v) && Extended(v, w)
    ensures Mapping(ds, fourSquares, w)
  {
    forall e | e in ds ensures e in w && Mapped(ds[e], fourSquares(w[e]), w) {
      assert Mapped(ds[e], fourSquares(v[e]), v);
    }
  }

  /** Before the commitments are computed none of them has a value. */
  lemma CommitmentsExtend(t: Tables, counter: nat, v: Values, w: Values)
    requires Tidy(t, counter) && Within(v, RANDOMS + SQUARES, t.decompositions.Keys + t.expressions)
    requires forall n :: n in v && n !in t.comsToCompute ==> n in w && w[n] == v[n]
    ensures Extended(v, w)
  {
    KindsApart();
    hide Reads, Leaves, Blocks, FreeOf;
    assert forall c :: c in t.comsToCompute ==> OfKind(c, COMMITMENTS);
    assert forall n :: n in v ==> n !in t.comsToCompute;
  }

  lemma AllComputed(t: Tables, counter: nat, groups: map<string, int>, fourSquares: int -> seq<int>,
                    v1: Values, v2: Values, v3: Values, v4: Values)
    requires Tidy(t, counter) && Extended(v1, v2) && Extended(v2, v3) && Extended(v3, v4)
    requires forall r :: r in t.randoms ==> r in v1
    requires Mapping(t.decompositions, fourSquares, v2) && forall n :: |fourSquares(n)| == 4
    requires Consistent(v3) && forall e :: e in t.expressions ==> e in v3
    requires forall n :: n in v4 ==> n in v3 || n in t.comsToCompute
    requires forall c :: c in t.comsToCompute ==> c in v4 && ValueOf(t.comsToCompute[c], v4, groups) == Some(v4[c])
    ensures forall e :: e in t.decompositions ==> e in v4 && Exponent(e, v4) == Some(v4[e])
    ensures (forall e :: e in t.decompositions ==> Pedersen.Sum(Pedersen.Squares(fourSquares(v4[e]))) == v4[e])
        ==> Computed(t, v4, groups)
  {
    hide Exponent, ValueOf, Reads, Leaves, Blocks, Pedersen.Sum, Mapped;
    forall e | e in v3 && !e.Id? && FreeOf(Leaves(e), COMMITMENTS) ensures e in v4 && Exponent(e, v4) == Some(v4[e]) {
      StillEvaluates(t, counter, e, v3, v4);
    }
    forall e | e in t.decompositions ensures e in v4 && Exponent(e, v4) == Some(v4[e]) {
      assert e in v2 && !e.Id? && FreeOf(Leaves(e), COMMITMENTS + SQUARES);
      FewerKinds(Leaves(e));
    }
    if forall e :: e in t.decompositions ==> Pedersen.Sum(Pedersen.Squares(fourSquares(v4[e]))) == v4[e] {
      forall e | e in t.decompositions ensures Decomposed(e, t.decompositions[e], v4) {
        assert e in v2 && v3[e] == v2[e] && v4[e] == v2[e];
        FewerKinds(Leaves(e));
        MappedDecomposed(e, t.decompositions[e], fourSquares(v4[e]), v2, v4);
      }
    }
  }

  lemma FewerKinds(names: set<Text>)
    ensures FreeOf(names, COMMITMENTS + SQUARES) ==> FreeOf(names, COMMITMENTS)
  {
  }

  lemma StillEvaluates(t: Tables, counter: nat, e: Text, v: Values, w: Values)
    requires Tidy(t, counter) && Extended(v, w) && Consistent(v) && e in v && !e.Id? && FreeOf(Leaves(e), COMMITMENTS)
    requires forall n :: n in w ==> n in v || n in t.comsToCompute
    ensures e in w && Exponent(e, w) == Some(w[e])
  {
    hide Exponent, Reads, Leaves, Blocks;
    forall n | n in Leaves(e) ensures n in w ==> n in v {
      assert !OfKind(n, COMMITMENTS);
    }
    ExponentFrame(e, v, w);
  }

  lemma MappedDecomposed(e: Text, names: seq<DecompNames>, fs: seq<int>, v: Values, w: Values)
    requires Mapped(names, fs, v) && Extended(v, w) && e in w && Exponent(e, w) == Some(w[e])
    requires Pedersen.Sum(Pedersen.Squares(fs)) == w[e]
    ensures Decomposed(e, names, w)
  {
    hide Exponent, Pedersen.Sum;
    assert forall i :: 0 <= i < |names| ==> names[i].decomp in v && names[i].decompSquare in v;
    assert Roots(names, w) == fs;
  }

  /** Only the eight names have changed. */
  ghost predicate Renamed(v: Values, w: Values, k: nat) {
    && (forall n :: n in w <==> n in v || NamedBy(n, k))
    && (forall n :: n in v && !NamedBy(n, k) ==> w[n] == v[n])
  }

  lemma NamedKind(n: Text, k: nat)
    requires NamedBy(n, k)
    ensures OfKind(n, SQUARES)
  {
  }

  lemma MapKeeps(ds: map<Text, seq<DecompNames>>, v: Values, w: Values, k: nat)
    requires Renamed(v, w, k) && Consistent(v) && Within(v, RANDOMS + SQUARES, ds.Keys)
    requires forall e :: e in ds ==> !e.Id? && FreeOf(Leaves(e), COMMITMENTS + SQUARES)
    ensures Consistent(w) && Within(w, RANDOMS + SQUARES, ds.Keys)
    ensures forall n :: n in v && (!n.Id? || OfKind(n, RANDOMS) || UserName(n)) ==> n in w && w[n] == v[n]
  {
    KindsApart();
    hide NamedBy, Exponent, Leaves;
    forall n ensures NamedBy(n, k) ==> OfKind(n, SQUARES) {
      if NamedBy(n, k) { NamedKind(n, k); }
    }
    forall n | n in v && (!n.Id? || OfKind(n, RANDOMS) || UserName(n)) ensures n in w && w[n] == v[n] {
      assert !OfKind(n, SQUARES);
    }
    forall e | e in w && !e.Id? ensures Exponent(e, w) == Some(w[e]) {
      assert e in v && w[e] == v[e] && FreeOf(Leaves(e), COMMITMENTS + SQUARES);
      forall n | n in Leaves(e) ensures !NamedBy(n, k) {
        assert !OfKind(n, COMMITMENTS + SQUARES);
      }
      ExponentFrame(e, v, w);
    }
  }

  lemma MapAdds(ds: map<Text, seq<DecompNames>>, v: Values, w: Values, e: Text, k: nat)
    requires Renamed(v, w, k) && e in ds && ds[e] == FourNames(k, 4)
    ensures forall n :: n in w ==> n in v || OfDecomposition(n, ds)
  {
    hide NamedBy;
  }

  lemma MappedAdds(ds: map<Text, seq<DecompNames>>, counter: nat, f: Text, fs: seq<int>, v: Values, e: Text, x: int)
    requires Blocks(ds, counter) && f in ds && Mapped(ds[f], fs, v) && !e.Id?
    ensures Mapped(ds[f], fs, v[e := x])
  {
    forall j | 0 <= j < |ds[f]| ensures ds[f][j].decomp.Id? && ds[f][j].decompSquare.Id? {
      var l: nat :| ds[f] == FourNames(l, 4) && l + 4 <= counter;
      assert ds[f][j] == DecompNames(Decomp(l + j), Square(l + j));
    }
  }

  /** Mapping one decomposition leaves the others as they are. */
  lemma MappedKeeps(ds: map<Text, seq<DecompNames>>, counter: nat, e: Text, f: Text, fs: seq<int>,
                    v: Values, w: Values, k: nat)
    requires Renamed(v, w, k) && Blocks(ds, counter) && e in ds && ds[e] == FourNames(k, 4)
    requires f in ds && f != e && Mapped(ds[f], fs, v)
    ensures Mapped(ds[f], fs, w)
  {
    KindsApart();
    forall j | 0 <= j < |ds[f]| ensures !NamedBy(ds[f][j].decomp, k) && !NamedBy(ds[f][j].decompSquare, k) {
      var l: nat :| ds[f] == FourNames(l, 4) && l + 4 <= counter;
      assert ds[f][j] == DecompNames(Decomp(l + j), Square(l + j));
      assert ds[e][0] == DecompNames(Decomp(k), Square(k)) && ds[e][1] == DecompNames(Decomp(k + 1), Square(k + 1));
      assert ds[e][2] == DecompNames(Decomp(k + 2), Square(k + 2)) && ds[e][3] == DecompNames(Decomp(k + 3), Square(k + 3));
      assert ds[f][j].decomp.name.base == "__decomp__" && ds[f][j].decompSquare.name.base == "__square__";
    }
  }

  /** The eight names of a decomposition. */
  ghost predicate NamedBy(n: Text, k: nat) {
    n in {Decomp(k), Decomp(k + 1), Decomp(k + 2), Decomp(k + 3), Square(k), Square(k + 1), Square(k + 2), Square(k + 3)}
  }

  lemma SquareKinds()
    ensures "__decomp__" != "__square__" && forall s :: s in SQUARES ==> |s| == 10
  {
    assert "__decomp__"[2] == 'd' && "__square__"[2] == 's';
  }

  lemma RandomKinds()
    ensures forall s :: s in RANDOMS ==> |s| >= 11 && s[2] == 'r'
  {
    assert "__randdecomp__"[2] == 'r' && "__randsquare__"[2] == 'r' && "__randExp__"[2] == 'r' && "__randx_com__"[2] == 'r';
  }

  lemma CommitmentKinds()
    ensures forall s :: s in COMMITMENTS ==> |s| >= 14 && s[2] != 'r'
  {
    assert "__decomp_com__"[2] == 'd' && "__square_com__"[2] == 's' && "__xLo_commitment__"[2] == 'x';
    assert "__hiX_commitment__"[2] == 'h' && "__prod_commitment__"[2] == 'p' && "__x_commitment__"[2] == 'x';
  }

  lemma KindsApart()
    ensures "__decomp__" != "__square__"
    ensures SQUARES !! RANDOMS && SQUARES !! COMMITMENTS && RANDOMS !! COMMITMENTS
  {
    SquareKinds();
    RandomKinds();
    CommitmentKinds();
    hide *;
  }

  lemma NamesDistinct(k: nat, i: nat)
    requires i < 4
    ensures forall j :: 0 <= j < i ==>
      && FourNames(k, 4)[j].decomp != FourNames(k, 4)[i].decomp
      && FourNames(k, 4)[j].decompSquare != FourNames(k, 4)[i].decompSquare
    ensures forall j :: 0 <= j < 4 ==>
      && FourNames(k, 4)[j].decomp != FourNames(k, 4)[i].decompSquare
      && FourNames(k, 4)[j].decompSquare != FourNames(k, 4)[i].decomp
  {
    SquareKinds();
    var names := FourNames(k, 4);
    forall j | 0 <= j < 4
      ensures names[j].decomp != names[i].decompSquare && names[j].decompSquare != names[i].decomp
      ensures j < i ==> names[j].decomp != names[i].decomp && names[j].decompSquare != names[i].decompSquare
    {
      assert names[j] == DecompNames(Decomp(k + j), Square(k + j)) && names[i] == DecompNames(Decomp(k + i), Square(k + i));
      assert names[j].decomp.name.base == "__decomp__" && names[i].decompSquare.name.base == "__square__";
      assert names[i].decomp.name.base == "__decomp__" && names[j].decompSquare.name.base == "__square__";
    }
  }

  lemma NamesAre(k: nat, i: nat)
    requires i < 4
    ensures FourNames(k, 4)[i] == DecompNames(Decomp(k + i), Square(k + i))
    ensures NamedBy(Decomp(k + i), k) && NamedBy(Square(k + i), k)
  {
  }

  lemma AllNamed(k: nat, names: seq<DecompNames>, v: Values)
    requires names == FourNames(k, 4) && forall j :: 0 <= j < 4 ==> names[j].decomp in v && names[j].decompSquare in v
    ensures forall n :: NamedBy(n, k) ==> n in v
  {
    assert names[0].decomp in v && names[1].decomp in v && names[2].decomp in v && names[3].decomp in v;
  }

  ghost predicate Mapped(names: seq<DecompNames>, fs: seq<int>, v: Values)
  {
    |names| == |fs| && forall j :: 0 <= j < |names| ==>
      && names[j].decomp in v && v[names[j].decomp] == fs[j]
      && names[j].decompSquare in v && v[names[j].decompSquare] == fs[j] * fs[j]
  }

  // ---------- what the verifier computes ----------

  /** The value of the commitment to something, None when it has none. */
  function CommitmentValue(name: Text, t: Tables, v: Values): Option<int> {
    if name in t.commitments && t.commitments[name] in v then Some(v[t.commitments[name]]) else None
  }

  function CommitmentValues(names: seq<DecompNames>, t: Tables, v: Values): Option<seq<int>> {
    if |names| == 0 then Some([])
    else
      var init, last := CommitmentValues(names[..|names| - 1], t, v),
                        CommitmentValue(names[|names| - 1].decompSquare, t, v);
      if init.Some? && last.Some? then Some(init.value + [last.value]) else None
  }

  /** The modulus of a decomposition's group, None when it is not known. */
  function ModulusFor(names: seq<DecompNames>, t: Tables, groups: map<string, int>): (m: Option<int>)
    requires |names| > 0
    ensures m.Some? ==> 1 < m.value
  {
    var name := names[0].decompSquare;
    if name in t.commitments && t.commitments[name] in t.discreteLogs then
      var group := t.discreteLogs[t.commitments[name]].group;
      if group in groups && 1 < groups[group] then Some(groups[group]) else None
    else None
  }

  /** The square commitments of a decomposition multiply to the commitment to the
      decomposed value. */
  predicate SquaresMatch(e: Text, names: seq<DecompNames>, t: Tables, v: Values, groups: map<string, int>)
  {
    |names| > 0 && ModulusFor(names, t, groups).Some? && CommitmentValues(names, t, v).Some?
    && CommitmentValue(e, t, v)
       == Some(ProductOfValues(CommitmentValues(names, t, v).value, ModulusFor(names, t, groups).value))
  }

  /** Nothing that the check of a decomposition looks up is missing. */
  predicate Checkable(e: Text, names: seq<DecompNames>, t: Tables, v: Values, groups: map<string, int>) {
    |names| > 0 && ModulusFor(names, t, groups).Some? && CommitmentValues(names, t, v).Some? && CommitmentValue(e, t, v).Some?
  }

  /** The verifier's own commitments can be computed, whatever they were before. */
  ghost predicate RangeComsWork(t: Tables, v: Values, groups: map<string, int>) {
    forall w: Values :: ExtendedBut(v, w, t.rangeComs.Keys) ==> AllHaveValues(t.rangeComs, w, groups)
  }

  ghost predicate AllCheckable(t: Tables, v: Values, groups: map<string, int>) {
    forall e :: e in t.decompositions ==> Checkable(e, t.decompositions[e], t, v, groups)
  }

  lemma {:induction false} ValuesPrefix(names: seq<DecompNames>, i: nat, t: Tables, v: Values)
    requires i <= |names| && CommitmentValues(names, t, v).Some?
    ensures CommitmentValues(names[..i], t, v).Some?
    ensures i < |names| ==> CommitmentValue(names[i].decompSquare, t, v).Some?
    decreases |names|
  {
    hide CommitmentValue;
    if i < |names| {
      var init := names[..|names| - 1];
      ValuesPrefix(init, i, t, v);
      assert init[..i] == names[..i];
      if i < |init| { assert init[i] == names[i]; }
    } else {
      assert names[..i] == names;
    }
  }

  ghost predicate Mismatch(es: set<Text>, t: Tables, v: Values, groups: map<string, int>) {
    exists e :: e in es && e in t.decompositions && !SquaresMatch(e, t.decompositions[e], t, v, groups)
  }

  function ProductOfValues(cs: seq<int>, m: int): int {
    if 1 < m then Pedersen.ProductOf(cs, m) else 0
  }

  class InterpreterVerifier {
    var variables: Values
    var badComs: bool

    constructor (v: Values)
      ensures variables == v && !badComs
    {
      variables, badComs := v, false;
    }

    /** The verifier's own commitments, then the check of every decomposition; false
        when a value is missing. */
    method ComputeIntermediateValues(t: Tables, groups: map<string, int>, powers: E.Environment<Text>,
                                     cacher: ME.MultiExpCacher) returns (ok: bool)
      requires powers.Valid() && cacher.Valid()
      requires forall w: Values :: ExtendedBut(variables, w, t.rangeComs.Keys) ==> RightTables(powers, w)
      requires forall c, d :: c in t.rangeComs && d in t.rangeComs ==> c !in Reads(t.rangeComs[d])
      requires forall e :: e in t.decompositions ==> |t.decompositions[e]| == 4
      modifies this, cacher
      ensures cacher.Valid()
      ensures forall n :: n in old(variables) && n !in t.rangeComs ==> n in variables && variables[n] == old(variables)[n]
      ensures forall n :: n in variables ==> n in old(variables) || n in t.rangeComs
      ensures ok ==> forall c :: c in t.rangeComs ==>
        c in variables && ValueOf(t.rangeComs[c], variables, groups) == Some(variables[c])
      ensures ok ==> (badComs <==> Mismatch(t.decompositions.Keys, t, variables, groups))
      ensures RangeComsWork(t, old(variables), groups) && Fitting(t.rangeComs, variables, groups, powers)
          ==> AllCheckable(t, variables, groups) ==> ok
    {
      hide ValueOf, Reads, SquaresMatch, Checkable, ExtendedBut, AllHaveValues, RightTables, Fitting;
      ok := ComputeRangeComs(t.rangeComs, groups, powers, cacher);
      if !ok { return; }
      badComs := false;
      var left := t.decompositions.Keys;
      while left != {}
        invariant left <= t.decompositions.Keys && ok && cacher.Valid()
        invariant forall n :: n in old(variables) && n !in t.rangeComs ==> n in variables && variables[n] == old(variables)[n]
        invariant forall n :: n in variables ==> n in old(variables) || n in t.rangeComs
        invariant forall c :: c in t.rangeComs ==>
          c in variables && ValueOf(t.rangeComs[c], variables, groups) == Some(variables[c])
        invariant badComs <==> Mismatch(t.decompositions.Keys - left, t, variables, groups)
        decreases left
      {
        var e :| e in left;
        var matches;
        ok, matches := Check(e, t.decompositions[e], t, groups);
        if !ok {
          assert !Checkable(e, t.decompositions[e], t, variables, groups);
          return;
        }
        if !matches {
          badComs := true;
        }
        left := left - {e};
      }
    }

    method ComputeRangeComs(coms: map<Text, DLR>, groups: map<string, int>, powers: E.Environment<Text>,
                            cacher: ME.MultiExpCacher) returns (ok: bool)
      requires forall c, d :: c in coms && d in coms ==> c !in Reads(coms[d])
      requires powers.Valid() && cacher.Valid()
      requires forall w: Values :: ExtendedBut(variables, w, coms.Keys) ==> RightTables(powers, w)
      modifies this`variables, cacher
      ensures cacher.Valid()
      ensures forall n :: n in old(variables) && n !in coms ==> n in variables && variables[n] == old(variables)[n]
      ensures forall n :: n in variables ==> n in old(variables) || n in coms
      ensures ok ==> forall c :: c in coms ==> c in variables && ValueOf(coms[c], variables, groups) == Some(variables[c])
      ensures (forall w: Values :: ExtendedBut(old(variables), w, coms.Keys) ==> AllHaveValues(coms, w, groups))
          ==> Fitting(coms, variables, groups, powers) ==> ok
    {
      hide ValueOf, Reads, Through, RightTables;
      var left := coms.Keys;
      while left != {}
        invariant left <= coms.Keys && cacher.Valid()
        invariant forall n :: n in old(variables) && n !in coms ==> n in variables && variables[n] == old(variables)[n]
        invariant forall n :: n in variables ==> n in old(variables) || n in coms
        invariant forall c :: c in coms && c !in left ==> c in variables && ValueOf(coms[c], variables, groups) == Some(variables[c])
        decreases left
      {
        var c :| c in left;
        assert ExtendedBut(old(variables), variables, coms.Keys);
        var x := ComputeValue(coms[c], variables, groups, powers, cacher);
        if x.None? {
          assert !AllHaveValues(coms, variables, groups) || !Fitting(coms, variables, groups, powers);
          return false;
        }
        ThroughIsValue(coms[c], variables, groups, powers);
        forall d | d in coms ensures ValueOf(coms[d], variables[c := x.value], groups) == ValueOf(coms[d], variables, groups) {
          ValueFrame(coms[d], variables, variables[c := x.value], groups);
        }
        variables := variables[c := x.value];
        left := left - {c};
      }
      ok := true;
    }

    /** Multiplies the square commitments up and compares. */
    method Check(e: Text, names: seq<DecompNames>, t: Tables, groups: map<string, int>) returns (ok: bool, matches: bool)
      requires |names| == 4
      ensures ok <==> Checkable(e, names, t, variables, groups)
      ensures ok ==> (matches <==> SquaresMatch(e, names, t, variables, groups))
    {
      hide CommitmentValue, ModulusFor, Pedersen.ProductOf;
      matches := false;
      var mod := ModulusFor(names, t, groups);
      if mod.None? { return false, false; }
      var squareProd := 1;
      ghost var cs: seq<int> := [];
      NothingMultiplied(mod.value);
      var i := 0;
      while i < 4
        invariant 0 <= i <= 4 && CommitmentValues(names[..i], t, variables) == Some(cs)
        invariant squareProd == Pedersen.ProductOf(cs, mod.value)
      {
        assert names[..i + 1][..i] == names[..i];
        var c := CommitmentValue(names[i].decompSquare, t, variables);
        if CommitmentValues(names, t, variables).Some? { ValuesPrefix(names, i, t, variables); }
        if c.None? { return false, false; }
        assert (cs + [c.value])[..|cs|] == cs;
        MultipliedUp(cs, c.value, mod.value);
        squareProd := ModExp.MulMod(squareProd, c.value, mod.value);
        cs := cs + [c.value];
        i := i + 1;
      }
      assert names[..4] == names;
      var com := CommitmentValue(e, t, variables);
      if com.None? { return false, false; }
      return true, squareProd == com.value;
    }
  }

  lemma NothingMultiplied(m: int)
    requires 1 < m
    ensures Pedersen.ProductOf([], m) == 1
  {
  }

  lemma MultipliedUp(cs: seq<int>, c: int, m: int)
    requires 1 < m
    ensures Pedersen.ProductOf(cs + [c], m) == ModExp.MulMod(Pedersen.ProductOf(cs, m), c, m)
  {
    assert (cs + [c])[..|cs|] == cs;
  }
}
