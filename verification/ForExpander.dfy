/** Expansion of loops: the body for every index value, joined by pairing queue
    items until one tree is left. */
module ForExpander {
  import opened Ast
  import opened ModExp

  // ---------- sums and products in any order ----------

  predicate IsLoopOp(op: Op) {
    op == Add || op == Mul
  }

  /** The name of no group is bound to the null group, as Interpreter::check does. */
  predicate NoGroupIsNull(env: Env) {
    NO_GROUP in env.groups && env.groups[NO_GROUP] == NullGroup
  }

  /** The modulus of an element type, 0 when there is none. */
  function ModulusOf(t: VarInfo, env: Env): int {
    if t.kind == ELEMENT && t.group in env.groups && HasModulus(env.groups[t.group])
    then env.groups[t.group].modulus else 0
  }

  function Reduce(v: int, m: int): int {
    if 0 < m then v % m else v
  }

  function Plainly(op: Op, a: int, b: int): int {
    if op == Add then a + b else a * b
  }

  predicate Fits(t: Result<VarInfo>, env: Env) {
    t.Ok? && (t.value.kind == ELEMENT ==> ModulusOf(t.value, env) != 0)
  }

  /** On regular values the operation is the integer one, reduced by the modulus of
      the common type when that is an element type. */
  lemma LiftIs(op: Op, x: Option<Value>, y: Option<Value>, env: Env)
    requires IsLoopOp(op) && Regular(x) && Regular(y) && NoGroupIsNull(env)
    ensures Lift(op, x, y, env).Some? <==> Fits(JoinTypes(x.value.info, y.value.info), env)
    ensures Lift(op, x, y, env).Some? ==>
      var t := JoinTypes(x.value.info, y.value.info).value;
      Lift(op, x, y, env).value == Value(t, Reduce(Plainly(op, x.value.v, y.value.v), ModulusOf(t, env)))
  {
  }

  predicate RegularOrNone(x: Option<Value>) {
    x.None? || Regular(x)
  }

  lemma LiftCommutes(op: Op, x: Option<Value>, y: Option<Value>, env: Env)
    requires IsLoopOp(op) && RegularOrNone(x) && RegularOrNone(y) && NoGroupIsNull(env)
    ensures Lift(op, x, y, env) == Lift(op, y, x, env) && RegularOrNone(Lift(op, x, y, env))
  {
    if x.Some? && y.Some? {
      LiftIs(op, x, y, env);
      LiftIs(op, y, x, env);
      MulCommutes(x.value.v, y.value.v);
      hide Lift, Reduce, ModulusOf;
    }
  }

  lemma MulCommutes(a: int, b: int)
    ensures a * b == b * a
  {
  }

  /** Reducing a partial result by a modulus that agrees changes nothing. */
  lemma ReduceTwice(op: Op, d: int, c: int, m: int, p: int)
    requires p == 0 || p == m
    ensures Reduce(Plainly(op, Reduce(d, p), c), m) == Reduce(Plainly(op, d, c), m)
  {
    if 0 < m && p == m {
      Arithmetic.CongMod(d, m);
      Arithmetic.CongAdd(d % m, d, c, c, m);
      Arithmetic.CongMul(d % m, d, c, c, m);
    }
  }

  lemma PlainlyLaws(op: Op, a: int, b: int, c: int)
    ensures Plainly(op, a, b) == Plainly(op, b, a)
    ensures Plainly(op, Plainly(op, a, b), c) == Plainly(op, a, Plainly(op, b, c))
  {
    MulCommutes(a, b);
    assert a * b * c == a * (b * c);
  }

  lemma JoinAssociates(x: VarInfo, y: VarInfo, z: VarInfo, env: Env)
    requires Regular(Some(Value(x, 0))) && Regular(Some(Value(y, 0))) && Regular(Some(Value(z, 0)))
    ensures var xy, yz := JoinTypes(x, y), JoinTypes(y, z);
      var left, right := Fits(xy, env) && Fits(JoinTypes(xy.value, z), env),
                         Fits(yz, env) && Fits(JoinTypes(x, yz.value), env);
      (left <==> right)
      && (left ==> JoinTypes(xy.value, z) == JoinTypes(x, yz.value))
      && (left ==> var m := ModulusOf(JoinTypes(xy.value, z).value, env);
                   (ModulusOf(xy.value, env) == 0 || ModulusOf(xy.value, env) == m)
                   && (ModulusOf(yz.value, env) == 0 || ModulusOf(yz.value, env) == m))
  {
  }

  lemma LiftAssociates(op: Op, x: Option<Value>, y: Option<Value>, z: Option<Value>, env: Env)
    requires IsLoopOp(op) && RegularOrNone(x) && RegularOrNone(y) && RegularOrNone(z) && NoGroupIsNull(env)
    ensures Lift(op, Lift(op, x, y, env), z, env) == Lift(op, x, Lift(op, y, z, env), env)
  {
    if x.Some? && y.Some? && z.Some? {
      LiftIs(op, x, y, env);
      LiftIs(op, y, z, env);
      LiftCommutes(op, x, y, env);
      LiftCommutes(op, y, z, env);
      var xy, yz := Lift(op, x, y, env), Lift(op, y, z, env);
      if xy.Some? { LiftIs(op, xy, z, env); }
      if yz.Some? { LiftIs(op, x, yz, env); }
      JoinAssociates(x.value.info, y.value.info, z.value.info, env);
      var a, b, c := x.value.v, y.value.v, z.value.v;
      if xy.Some? && Lift(op, xy, z, env).Some? {
        var m := ModulusOf(JoinTypes(xy.value.info, z.value.info).value, env);
        ReduceTwice(op, Plainly(op, a, b), c, m, ModulusOf(xy.value.info, env));
        ReduceTwice(op, Plainly(op, b, c), a, m, ModulusOf(yz.value.info, env));
        PlainlyLaws(op, a, b, c);
        PlainlyLaws(op, a, Plainly(op, b, c), 0);
        PlainlyLaws(op, a, Reduce(Plainly(op, b, c), ModulusOf(yz.value.info, env)), 0);
      }
      hide Lift, Reduce, ModulusOf, Plainly, JoinTypes, Fits;
    } else {
      NoneAbsorbs(op, x, y, env);
      NoneAbsorbs(op, y, z, env);
      NoneAbsorbs(op, Lift(op, x, y, env), z, env);
      NoneAbsorbs(op, x, Lift(op, y, z, env), env);
      hide Lift;
    }
  }

  lemma NoneAbsorbs(op: Op, x: Option<Value>, y: Option<Value>, env: Env)
    ensures x.None? || y.None? ==> Lift(op, x, y, env) == None
  {
  }

  ghost predicate AllRegularOrNone(items: seq<Option<Value>>) {
    forall k :: 0 <= k < |items| ==> RegularOrNone(items[k])
  }

  lemma {:induction false} FoldRegular(op: Op, s: seq<Option<Value>>, env: Env)
    requires IsLoopOp(op) && |s| > 0 && AllRegularOrNone(s) && NoGroupIsNull(env)
    ensures RegularOrNone(FoldLeft(op, s, env))
  {
    if |s| > 1 {
      FoldRegular(op, s[..|s| - 1], env);
      LiftCommutes(op, FoldLeft(op, s[..|s| - 1], env), s[|s| - 1], env);
      hide Lift, RegularOrNone;
    }
  }

  lemma {:induction false} FoldConcat(op: Op, s: seq<Option<Value>>, t: seq<Option<Value>>, env: Env)
    requires IsLoopOp(op) && |s| > 0 && |t| > 0 && AllRegularOrNone(s) && AllRegularOrNone(t) && NoGroupIsNull(env)
    ensures FoldLeft(op, s + t, env) == Lift(op, FoldLeft(op, s, env), FoldLeft(op, t, env), env)
    decreases |t|
  {
    var t', last := t[..|t| - 1], t[|t| - 1];
    assert (s + t)[..|s + t| - 1] == s + t';
    hide Lift, RegularOrNone;
    if |t| > 1 {
      FoldConcat(op, s, t', env);
      FoldRegular(op, s, env);
      FoldRegular(op, t', env);
      LiftAssociates(op, FoldLeft(op, s, env), FoldLeft(op, t', env), last, env);
    } else {
      assert s + t' == s;
    }
  }

  lemma FoldTwo(op: Op, x: Option<Value>, y: Option<Value>, env: Env)
    ensures FoldLeft(op, [x], env) == x && FoldLeft(op, [x, y], env) == Lift(op, x, y, env)
    ensures FoldLeft(op, [Lift(op, x, y, env)], env) == Lift(op, x, y, env)
  {
    hide Lift;
    assert [x, y][..1] == [x];
  }

  /** Joining the first two items and moving the result to the end keeps the fold. */
  lemma FoldRotates(op: Op, x: Option<Value>, y: Option<Value>, rest: seq<Option<Value>>, env: Env)
    requires IsLoopOp(op) && AllRegularOrNone([x, y] + rest) && NoGroupIsNull(env)
    ensures FoldLeft(op, rest + [Lift(op, x, y, env)], env) == FoldLeft(op, [x, y] + rest, env)
    ensures AllRegularOrNone(rest + [Lift(op, x, y, env)])
  {
    hide Lift, RegularOrNone, FoldLeft;
    FirstTwo(x, y, rest);
    LiftCommutes(op, x, y, env);
    FoldTwo(op, x, y, env);
    var xy := Lift(op, x, y, env);
    if |rest| == 0 {
      assert rest + [xy] == [xy] && [x, y] + rest == [x, y];
    } else {
      FoldConcat(op, rest, [xy], env);
      FoldConcat(op, [x, y], rest, env);
      FoldRegular(op, rest, env);
      LiftCommutes(op, FoldLeft(op, rest, env), xy, env);
    }
  }

  lemma FirstTwo(x: Option<Value>, y: Option<Value>, rest: seq<Option<Value>>)
    requires AllRegularOrNone([x, y] + rest)
    ensures RegularOrNone(x) && RegularOrNone(y) && AllRegularOrNone(rest) && AllRegularOrNone([x, y])
  {
    hide RegularOrNone;
    var items := [x, y] + rest;
    assert items[0] == x && items[1] == y && forall k :: 0 <= k < |rest| ==> rest[k] == items[k + 2];
  }

  // ---------- the queue ----------

  /** The tree that the queue ends with: the first two items are popped and their
      join is pushed at the back, until one item is left. */
  function QueueTree(op: Op, queue: seq<Expr>): Expr
    requires |queue| > 0
    decreases |queue|
  {
    if |queue| == 1 then queue[0]
    else QueueTree(op, queue[2..] + [Bin(op, queue[0], queue[1])])
  }

  function Dens(es: seq<Expr>, env: Env): (s: seq<Option<Value>>)
    ensures |s| == |es|
  {
    seq(|es|, k requires 0 <= k < |es| => Den(es[k], NO_SUBS, env))
  }

  /** The queue's tree has the value of the left-to-right fold, although it joins its
      operands in another order. */
  lemma {:induction false} QueueTreeMeaning(op: Op, queue: seq<Expr>, env: Env)
    requires IsLoopOp(op) && |queue| > 0 && AllRegularOrNone(Dens(queue, env)) && NoGroupIsNull(env)
    ensures Den(QueueTree(op, queue), NO_SUBS, env) == FoldLeft(op, Dens(queue, env), env)
    decreases |queue|
  {
    if |queue| > 1 {
      var a, b, rest := queue[0], queue[1], queue[2..];
      var next := rest + [Bin(op, a, b)];
      assert Den(Bin(op, a, b), NO_SUBS, env) == Lift(op, Den(a, NO_SUBS, env), Den(b, NO_SUBS, env), env);
      hide Lift, Den, RegularOrNone;
      assert Dens(queue, env) == [Den(a, NO_SUBS, env), Den(b, NO_SUBS, env)] + Dens(rest, env);
      FoldRotates(op, Den(a, NO_SUBS, env), Den(b, NO_SUBS, env), Dens(rest, env), env);
      assert Dens(next, env) == Dens(rest, env) + [Den(Bin(op, a, b), NO_SUBS, env)];
      QueueTreeMeaning(op, next, env);
    }
  }

  // ---------- bounds ----------

  function Int32(v: int): int {
    (v + 0x8000_0000) % 0x1_0000_0000 - 0x8000_0000
  }

  function ToInt(v: int): Result<int> {
    if FitsLong(v) then Ok(Int32(v)) else CashError
  }

  /** lookupBound: an index of an enclosing loop, a literal, or an operation on
      literals. The environment it falls back on is empty. */
  function LookupBound(e: Expr, indexToCur: map<Name, int>): Result<int> {
    match e
    case Id(n) => At(indexToCur, n)
    case Int(v) => ToInt(v)
    case Bin(_, _, _) => var v :- Eval(e, EMPTY); ToInt(v)
    case _ => CashError
  }

  /** Sums, differences and products of literals. */
  predicate Closed(e: Expr) {
    match e
    case Int(_) => true
    case Id(_) => false
    case Neg(x) => Closed(x)
    case Bin(op, l, r) => op != Pow && op != Div && Closed(l) && Closed(r)
    case For(_, _, _, _, _) => false
  }

  /** These are what evaluates in the empty environment. */
  lemma {:induction false} ClosedIff(e: Expr)
    ensures Closed(e) <==> Eval(e, EMPTY).Ok?
  {
    match e
    case Int(_) =>
    case Id(_) =>
    case Neg(x) => ClosedIff(x);
    case Bin(op, l, r) =>
      ClosedIff(l);
      ClosedIff(r);
      if Eval(e, EMPTY).Ok? { ClosedBin(op, l, r); }
      if Closed(e) { ClosedOperation(op, l, r); }
    case For(_, _, _, _, _) =>
  }

  lemma ClosedOperation(op: Op, l: Expr, r: Expr)
    requires op != Pow && op != Div && Eval(l, EMPTY).Ok? && Eval(r, EMPTY).Ok?
    ensures Eval(Bin(op, l, r), EMPTY).Ok?
  {
    ClosedEval(l, NO_SUBS, EMPTY);
    ClosedEval(r, NO_SUBS, EMPTY);
  }

  /** What a bound can be: an index in scope, a literal, or an operation on literals. */
  predicate BoundForm(e: Expr, names: set<Name>) {
    match e
    case Id(n) => n in names
    case Int(_) => true
    case Bin(_, _, _) => Closed(e)
    case _ => false
  }

  /** What evaluates in the empty environment is an integer in every environment. */
  lemma {:induction false} ClosedEval(e: Expr, subs: map<Name, int>, env: Env)
    requires Eval(e, EMPTY).Ok?
    ensures !HasFor(e) && TypeOf(e, EMPTY) == Ok(INT)
    ensures Den(e, subs, env) == Some(Value(INT, Eval(e, EMPTY).value))
  {
    match e
    case Int(_) =>
    case Id(_) =>
    case Neg(x) => ClosedEval(x, subs, env);
    case Bin(op, l, r) =>
      ClosedBin(op, l, r);
      ClosedEval(l, subs, env);
      ClosedEval(r, subs, env);
    case For(_, _, _, _, _) =>
  }

  lemma ClosedBin(op: Op, l: Expr, r: Expr)
    requires Eval(Bin(op, l, r), EMPTY).Ok?
    ensures op != Pow && op != Div && Eval(l, EMPTY).Ok? && Eval(r, EMPTY).Ok?
  {
  }

  /** A bound that is found is the bound's meaning, if that is an int at all. */
  lemma BoundMeaning(e: Expr, subs: map<Name, int>, env: Env)
    requires LookupBound(e, subs).Ok?
    ensures Den(e, subs, env).Some?
    ensures -0x8000_0000 <= Den(e, subs, env).value.v < 0x8000_0000
        ==> LookupBound(e, subs).value == Den(e, subs, env).value.v
  {
    if e.Bin? {
      ClosedEval(e, subs, env);
    }
  }

  /** Bounds of that form, and no others, are found, when their meaning fits a long. */
  lemma BoundIff(e: Expr, subs: map<Name, int>, env: Env)
    ensures BoundForm(e, subs.Keys) ==> Den(e, subs, env).Some?
    ensures LookupBound(e, subs).Ok?
       <==> BoundForm(e, subs.Keys) && (e.Id? || FitsLong(Den(e, subs, env).value.v))
  {
    ClosedIff(e);
    if Closed(e) { ClosedEval(e, subs, env); }
  }

  // ---------- expansion ----------

  /** The expression with all loops expanded, when indices have given values. */
  function Expanded(e: Expr, subs: map<Name, int>): Result<Expr>
    decreases e, 0
  {
    match e
    case Int(_) => Ok(e)
    case Id(n) => Ok(Id(Resolve(n, subs)))
    case Neg(x) => var y :- Expanded(x, subs); Ok(Neg(y))
    case Bin(op, l, r) =>
      var x :- Expanded(l, subs);
      var y :- Expanded(r, subs);
      Ok(Bin(op, x, y))
    case For(index, lo, hi, op, body) =>
      var lb :- LookupBound(lo, subs);
      var ub :- LookupBound(hi, subs);
      if !LoopRange(lb, ub) then Undefined else
      var items :- ExpandedItems(index, body, lb, ub - lb + 1, subs);
      if |items| > 1 && !IsLoopOp(op) then CashError else Ok(QueueTree(op, items))
  }

  function ExpandedItems(index: string, body: Expr, lo: int, n: nat, subs: map<Name, int>): (r: Result<seq<Expr>>)
    ensures r.Ok? ==> |r.value| == n
    decreases body, n + 1
  {
    if n == 0 then Ok([])
    else
      var items :- ExpandedItems(index, body, lo, n - 1, subs);
      var item :- Expanded(body, subs[Name(index, NoSub) := lo + n - 1]);
      Ok(items + [item])
  }

  /** Index names are used as subscripts and as bounds of inner loops only, no loop
      reuses the index of a loop around it, and no index is used outside its loop. */
  predicate Scoped(e: Expr, bound: set<Name>, all: set<Name>) {
    match e
    case Int(_) => true
    case Id(n) => n !in all && ScopedName(n, bound, all)
    case Neg(x) => Scoped(x, bound, all)
    case Bin(_, l, r) => Scoped(l, bound, all) && Scoped(r, bound, all)
    case For(index, lo, hi, _, body) =>
      && Name(index, NoSub) in all && Name(index, NoSub) !in bound
      && ScopedBound(lo, bound, all) && ScopedBound(hi, bound, all)
      && Scoped(body, bound + {Name(index, NoSub)}, all)
  }

  predicate ScopedName(n: Name, bound: set<Name>, all: set<Name>) {
    n.sub.Var? && Name(n.sub.id, NoSub) in all ==> Name(n.sub.id, NoSub) in bound
  }

  predicate ScopedBound(e: Expr, bound: set<Name>, all: set<Name>) {
    e.Id? && e.name in all ==> e.name in bound
  }

  lemma {:induction false} QueueTreeLoopFree(op: Op, queue: seq<Expr>)
    requires |queue| > 0 && forall k :: 0 <= k < |queue| ==> !HasFor(queue[k])
    ensures !HasFor(QueueTree(op, queue))
    decreases |queue|
  {
    if |queue| > 1 {
      QueueTreeLoopFree(op, queue[2..] + [Bin(op, queue[0], queue[1])]);
    }
  }

  lemma ResolvedMeaning(n: Name, subs: map<Name, int>, env: Env)
    requires n !in subs
    ensures Den(Id(Resolve(n, subs)), NO_SUBS, env) == Den(Id(n), subs, env)
  {
  }

  lemma BinMeaning(op: Op, l: Expr, r: Expr, x: Expr, y: Expr, subs: map<Name, int>, env: Env)
    requires Den(l, subs, env).Some? ==> Den(x, NO_SUBS, env) == Den(l, subs, env)
    requires Den(r, subs, env).Some? ==> Den(y, NO_SUBS, env) == Den(r, subs, env)
    ensures Den(Bin(op, l, r), subs, env).Some?
        ==> Den(Bin(op, x, y), NO_SUBS, env) == Den(Bin(op, l, r), subs, env)
  {
    hide Lift;
    NoneAbsorbs(op, Den(l, subs, env), Den(r, subs, env), env);
  }

  lemma BinExpanded(op: Op, l: Expr, r: Expr, subs: map<Name, int>)
    requires Expanded(Bin(op, l, r), subs).Ok?
    ensures Expanded(l, subs).Ok? && Expanded(r, subs).Ok?
    ensures Expanded(Bin(op, l, r), subs).value == Bin(op, Expanded(l, subs).value, Expanded(r, subs).value)
  {
  }

  /** Expansion preserves meaning: an expression that has a meaning, and expands, has
      the same meaning afterwards, and no loop is left. */
  lemma {:induction false} ExpandedMeaning(e: Expr, subs: map<Name, int>, all: set<Name>, env: Env)
    requires NoGroupIsNull(env) && Scoped(e, subs.Keys, all) && subs.Keys <= all && Expanded(e, subs).Ok?
    ensures !HasFor(Expanded(e, subs).value)
    ensures Den(e, subs, env).Some? ==> Den(Expanded(e, subs).value, NO_SUBS, env) == Den(e, subs, env)
    decreases e, 0
  {
    hide Lift, FoldLeft, BodyDens, ExpandedItems, QueueTree, LookupBound, Resolve;
    match e
    case Int(_) =>
    case Id(n) => ResolvedMeaning(n, subs, env);
    case Neg(x) => ExpandedMeaning(x, subs, all, env);
    case Bin(op, l, r) =>
      BinExpanded(op, l, r, subs);
      ExpandedMeaning(l, subs, all, env);
      ExpandedMeaning(r, subs, all, env);
      BinMeaning(op, l, r, Expanded(l, subs).value, Expanded(r, subs).value, subs, env);
      hide Den, Expanded;
    case For(index, lo, hi, op, body) =>
      LoopExpanded(index, lo, hi, op, body, subs);
      var lb, ub := LookupBound(lo, subs).value, LookupBound(hi, subs).value;
      assert Scoped(body, subs.Keys + {Name(index, NoSub)}, all) && Name(index, NoSub) in all;
      hide Den, Expanded, ExpandedItems, LookupBound, Scoped;
      ItemsMeaning(index, body, lb, ub - lb + 1, subs, all, env);
      LoopMeaning(index, lo, hi, op, body, ExpandedItems(index, body, lb, ub - lb + 1, subs).value, subs, env);
  }

  ghost predicate ItemsMean(items: seq<Expr>, values: seq<Option<Value>>, env: Env) {
    |items| == |values| && forall k :: 0 <= k < |items| ==>
      !HasFor(items[k]) && (values[k].Some? ==> Den(items[k], NO_SUBS, env) == values[k])
  }

  lemma ItemsMeanNext(items: seq<Expr>, values: seq<Option<Value>>, item: Expr, env: Env)
    requires |values| == |items| + 1 && ItemsMean(items, values[..|items|], env)
    requires !HasFor(item) && (values[|items|].Some? ==> Den(item, NO_SUBS, env) == values[|items|])
    ensures ItemsMean(items + [item], values, env)
  {
    hide Den, HasFor;
  }

  lemma BodyDensNext(index: string, body: Expr, lo: int, n: nat, subs: map<Name, int>, env: Env)
    requires n > 0
    ensures BodyDens(index, body, lo, n, subs, env)[..n - 1] == BodyDens(index, body, lo, n - 1, subs, env)
    ensures BodyDens(index, body, lo, n, subs, env)[n - 1] == Den(body, subs[Name(index, NoSub) := lo + n - 1], env)
  {
    hide Den;
  }

  lemma ItemsExpanded(index: string, body: Expr, lo: int, n: nat, subs: map<Name, int>)
    requires n > 0 && ExpandedItems(index, body, lo, n, subs).Ok?
    ensures ExpandedItems(index, body, lo, n - 1, subs).Ok?
    ensures Expanded(body, subs[Name(index, NoSub) := lo + n - 1]).Ok?
    ensures ExpandedItems(index, body, lo, n, subs).value
         == ExpandedItems(index, body, lo, n - 1, subs).value
          + [Expanded(body, subs[Name(index, NoSub) := lo + n - 1]).value]
  {
    hide Expanded;
  }

  lemma {:induction false} ItemsMeaning(index: string, body: Expr, lo: int, n: nat, subs: map<Name, int>,
                                        all: set<Name>, env: Env)
    requires NoGroupIsNull(env) && Scoped(body, subs.Keys + {Name(index, NoSub)}, all)
    requires subs.Keys <= all && Name(index, NoSub) in all && ExpandedItems(index, body, lo, n, subs).Ok?
    ensures ItemsMean(ExpandedItems(index, body, lo, n, subs).value, BodyDens(index, body, lo, n, subs, env), env)
    decreases body, n + 1
  {
    hide Den, Expanded, Scoped, HasFor, ExpandedItems, BodyDens;
    if n > 0 {
      var next := subs[Name(index, NoSub) := lo + n - 1];
      assert next.Keys == subs.Keys + {Name(index, NoSub)};
      ItemsExpanded(index, body, lo, n, subs);
      ItemsMeaning(index, body, lo, n - 1, subs, all, env);
      ExpandedMeaning(body, next, all, env);
      BodyDensNext(index, body, lo, n, subs, env);
      ItemsMeanNext(ExpandedItems(index, body, lo, n - 1, subs).value, BodyDens(index, body, lo, n, subs, env),
                    Expanded(body, next).value, env);
    }
  }

  lemma LoopExpanded(index: string, lo: Expr, hi: Expr, op: Op, body: Expr, subs: map<Name, int>)
    requires Expanded(For(index, lo, hi, op, body), subs).Ok?
    ensures LookupBound(lo, subs).Ok? && LookupBound(hi, subs).Ok?
    ensures var lb, ub := LookupBound(lo, subs).value, LookupBound(hi, subs).value;
      LoopRange(lb, ub) && ExpandedItems(index, body, lb, ub - lb + 1, subs).Ok?
      && Expanded(For(index, lo, hi, op, body), subs).value
         == QueueTree(op, ExpandedItems(index, body, lb, ub - lb + 1, subs).value)
  {
    hide LookupBound, ExpandedItems, QueueTree;
  }

  lemma DenLoop(index: string, lo: Expr, hi: Expr, op: Op, body: Expr, subs: map<Name, int>, env: Env)
    requires Den(For(index, lo, hi, op, body), subs, env).Some?
    ensures Den(lo, subs, env).Some? && Den(hi, subs, env).Some? && IsLoopOp(op)
    ensures var a, b := Den(lo, subs, env).value.v, Den(hi, subs, env).value.v;
      LoopRange(a, b)
      && AllRegular(BodyDens(index, body, a, b - a + 1, subs, env))
      && Den(For(index, lo, hi, op, body), subs, env)
         == FoldLeft(op, BodyDens(index, body, a, b - a + 1, subs, env), env)
  {
    hide BodyDens, FoldLeft;
  }

  lemma LoopMeaning(index: string, lo: Expr, hi: Expr, op: Op, body: Expr, items: seq<Expr>,
                    subs: map<Name, int>, env: Env)
    requires NoGroupIsNull(env) && LookupBound(lo, subs).Ok? && LookupBound(hi, subs).Ok?
    requires var lb, ub := LookupBound(lo, subs).value, LookupBound(hi, subs).value;
      lb <= ub && ItemsMean(items, BodyDens(index, body, lb, ub - lb + 1, subs, env), env)
    ensures !HasFor(QueueTree(op, items))
    ensures Den(For(index, lo, hi, op, body), subs, env).Some?
        ==> Den(QueueTree(op, items), NO_SUBS, env) == Den(For(index, lo, hi, op, body), subs, env)
  {
    hide Den, LookupBound, HasFor, QueueTree, BodyDens, Regular;
    QueueTreeLoopFree(op, items);
    if Den(For(index, lo, hi, op, body), subs, env).Some? {
      DenLoop(index, lo, hi, op, body, subs, env);
      BoundMeaning(lo, subs, env);
      BoundMeaning(hi, subs, env);
      var lb, ub := LookupBound(lo, subs).value, LookupBound(hi, subs).value;
      var values := BodyDens(index, body, lb, ub - lb + 1, subs, env);
      SameItems(items, values, env);
      QueueTreeMeaning(op, items, env);
    }
  }

  lemma SameItems(items: seq<Expr>, values: seq<Option<Value>>, env: Env)
    requires ItemsMean(items, values, env) && AllRegular(values)
    ensures Dens(items, env) == values && AllRegularOrNone(values)
  {
    hide Den, HasFor;
    forall k | 0 <= k < |items| ensures Dens(items, env)[k] == values[k] && RegularOrNone(values[k]) {
      assert Regular(values[k]);
    }
  }

  // ---------- when expressions expand ----------

  /** All loops in an expression have bounds of the right form. */
  predicate HasBounds(e: Expr, names: set<Name>) {
    match e
    case Int(_) => true
    case Id(_) => true
    case Neg(x) => HasBounds(x, names)
    case Bin(_, l, r) => HasBounds(l, names) && HasBounds(r, names)
    case For(index, lo, hi, _, body) =>
      BoundForm(lo, names) && BoundForm(hi, names) && HasBounds(body, names + {Name(index, NoSub)})
  }

  /** An expression with a meaning expands exactly when its loops have such bounds. */
  lemma {:induction false} ExpandsIff(e: Expr, subs: map<Name, int>, env: Env)
    requires Den(e, subs, env).Some?
    ensures Expanded(e, subs).Ok? <==> HasBounds(e, subs.Keys)
    decreases e, 0
  {
    hide Lift, FoldLeft, BodyDens, ExpandedItems, QueueTree, LookupBound, Resolve, BoundForm;
    match e
    case Int(_) =>
    case Id(_) =>
    case Neg(x) => ExpandsIff(x, subs, env);
    case Bin(op, l, r) =>
      BothHaveMeaning(op, Den(l, subs, env), Den(r, subs, env), env);
      ExpandsIff(l, subs, env);
      ExpandsIff(r, subs, env);
    case For(index, lo, hi, op, body) =>
      LoopExpandsIff(index, lo, hi, op, body, subs, env);
      var a, b := Den(lo, subs, env).value.v, Den(hi, subs, env).value.v;
      ItemsExpandIff(index, body, a, b - a + 1, subs, env);
  }

  lemma LoopExpandsIff(index: string, lo: Expr, hi: Expr, op: Op, body: Expr, subs: map<Name, int>, env: Env)
    requires Den(For(index, lo, hi, op, body), subs, env).Some?
    ensures Den(lo, subs, env).Some? && Den(hi, subs, env).Some?
    ensures var a, b := Den(lo, subs, env).value.v, Den(hi, subs, env).value.v;
      a <= b && AllRegular(BodyDens(index, body, a, b - a + 1, subs, env))
      && (Expanded(For(index, lo, hi, op, body), subs).Ok?
          <==> BoundForm(lo, subs.Keys) && BoundForm(hi, subs.Keys) && ExpandedItems(index, body, a, b - a + 1, subs).Ok?)
  {
    hide Den, LookupBound, BoundForm, BodyDens, ExpandedItems, QueueTree, AllRegular, Expanded, FoldLeft;
    DenLoop(index, lo, hi, op, body, subs, env);
    BoundFound(lo, subs, env);
    BoundFound(hi, subs, env);
    ExpandedLoop(index, lo, hi, op, body, subs);
  }

  lemma BothHaveMeaning(op: Op, x: Option<Value>, y: Option<Value>, env: Env)
    requires Lift(op, x, y, env).Some?
    ensures x.Some? && y.Some?
  {
  }

  /** A bound whose meaning is an int is found exactly when it has the right form. */
  lemma BoundFound(e: Expr, subs: map<Name, int>, env: Env)
    requires Den(e, subs, env).Some? && -0x8000_0000 <= Den(e, subs, env).value.v < 0x8000_0000
    ensures LookupBound(e, subs).Ok? <==> BoundForm(e, subs.Keys)
    ensures LookupBound(e, subs).Ok? ==> LookupBound(e, subs).value == Den(e, subs, env).value.v
  {
    hide Den, LookupBound, BoundForm;
    BoundIff(e, subs, env);
    if LookupBound(e, subs).Ok? { BoundMeaning(e, subs, env); }
  }

  lemma FirstRegular(items: seq<Option<Value>>)
    requires |items| > 0 && AllRegular(items)
    ensures AllRegular(items[..|items| - 1]) && items[|items| - 1].Some?
  {
    assert Regular(items[|items| - 1]);
  }

  lemma {:induction false} ItemsExpandIff(index: string, body: Expr, lo: int, n: nat, subs: map<Name, int>, env: Env)
    requires AllRegular(BodyDens(index, body, lo, n, subs, env))
    ensures ExpandedItems(index, body, lo, n, subs).Ok? <==> n == 0 || HasBounds(body, subs.Keys + {Name(index, NoSub)})
    decreases body, n + 1
  {
    hide Den, Expanded, HasBounds, BodyDens;
    if n > 0 {
      var next := subs[Name(index, NoSub) := lo + n - 1];
      assert next.Keys == subs.Keys + {Name(index, NoSub)};
      BodyDensNext(index, body, lo, n, subs, env);
      FirstRegular(BodyDens(index, body, lo, n, subs, env));
      ItemsExpandIff(index, body, lo, n - 1, subs, env);
      ExpandsIff(body, next, env);
    }
  }

  // ---------- relations ----------

  /** A relation with its names resolved and its loops expanded. Only equations may
      be a loop as a whole. */
  function ExpandedRelation(rel: Relation, subs: map<Name, int>): Result<Relation> {
    match rel
    case Equal(id, e) => var x :- Expanded(e, subs); Ok(Equal(Resolve(id, subs), x))
    case DeclEqual(id, e) => var x :- Expanded(e, subs); Ok(DeclEqual(Resolve(id, subs), x))
    case Commitment(coms, id, e) =>
      var x :- ExpandedInside(e, subs);
      Ok(Commitment(ResolveAll(coms, subs), Resolve(id, subs), x))
    case Range(group, lower, ls, center, us, upper) =>
      var x :- ExpandedInside(lower, subs);
      var y :- ExpandedInside(center, subs);
      var z :- ExpandedInside(upper, subs);
      Ok(Range(group, x, ls, y, us, z))
  }

  /** The expansion of an expression that may not be a loop as a whole. */
  function ExpandedInside(e: Expr, subs: map<Name, int>): Result<Expr> {
    var x :- Expanded(e, subs);
    if e.For? then CashError else Ok(x)
  }

  function ResolveAll(names: seq<Name>, subs: map<Name, int>): (r: seq<Name>)
    ensures |r| == |names| && forall k :: 0 <= k < |r| ==> r[k] == Resolve(names[k], subs)
  {
    seq(|names|, k requires 0 <= k < |names| => Resolve(names[k], subs))
  }

  /** A relation without its expressions: its kind and the names that it is about. */
  function RelShape(rel: Relation, subs: map<Name, int>): Relation {
    match rel
    case Equal(id, _) => Equal(Resolve(id, subs), Int(0))
    case DeclEqual(id, _) => DeclEqual(Resolve(id, subs), Int(0))
    case Commitment(coms, id, _) => Commitment(ResolveAll(coms, subs), Resolve(id, subs), Int(0))
    case Range(group, _, ls, _, us, _) => Range(group, Int(0), ls, Int(0), us, Int(0))
  }

  lemma ResolveNothing(names: seq<Name>)
    ensures ResolveAll(names, NO_SUBS) == names
  {
  }

  /** Expansion keeps a relation's kind, its group and which bounds are strict, and puts
      indices into its names. */
  lemma ExpandedShape(rel: Relation, subs: map<Name, int>)
    requires ExpandedRelation(rel, subs).Ok?
    ensures RelShape(ExpandedRelation(rel, subs).value, NO_SUBS) == RelShape(rel, subs)
  {
    hide Expanded, ExpandedInside, ResolveAll;
    if rel.Commitment? { ResolveNothing(ResolveAll(rel.coms, subs)); }
  }

  /** Whether a relation holds of the values, None when a part has no meaning. */
  function RelHolds(rel: Relation, subs: map<Name, int>, env: Env): Option<bool> {
    match rel
    case Equal(id, e) => EquationHolds(id, e, subs, env)
    case DeclEqual(id, e) => EquationHolds(id, e, subs, env)
    case Commitment(_, id, e) => EquationHolds(id, e, subs, env)
    case Range(_, lower, ls, center, us, upper) =>
      var x, y, z := Den(lower, subs, env), Den(center, subs, env), Den(upper, subs, env);
      if x.Some? && y.Some? && z.Some? then
        Some((if ls then x.value.v < y.value.v else x.value.v <= y.value.v)
             && (if us then y.value.v < z.value.v else y.value.v <= z.value.v))
      else None
  }

  function EquationHolds(id: Name, e: Expr, subs: map<Name, int>, env: Env): Option<bool> {
    var x := Den(e, subs, env);
    if x.Some? && Resolve(id, subs) in env.variables then Some(env.variables[Resolve(id, subs)] == x.value.v) else None
  }

  predicate ScopedRelation(rel: Relation, bound: set<Name>, all: set<Name>) {
    match rel
    case Equal(id, e) => ScopedName(id, bound, all) && Scoped(e, bound, all)
    case DeclEqual(id, e) => ScopedName(id, bound, all) && Scoped(e, bound, all)
    case Commitment(coms, id, e) =>
      && (forall k :: 0 <= k < |coms| ==> ScopedName(coms[k], bound, all))
      && ScopedName(id, bound, all) && Scoped(e, bound, all)
    case Range(_, lower, _, center, _, upper) =>
      Scoped(lower, bound, all) && Scoped(center, bound, all) && Scoped(upper, bound, all)
  }

  lemma ExpandedRelationHolds(rel: Relation, subs: map<Name, int>, all: set<Name>, env: Env)
    requires NoGroupIsNull(env) && ScopedRelation(rel, subs.Keys, all) && subs.Keys <= all
    requires ExpandedRelation(rel, subs).Ok? && RelHolds(rel, subs, env).Some?
    ensures RelHolds(ExpandedRelation(rel, subs).value, NO_SUBS, env) == RelHolds(rel, subs, env)
  {
    hide Den, Expanded, Scoped;
    match rel
    case Equal(id, e) => ExpandedMeaning(e, subs, all, env);
    case DeclEqual(id, e) => ExpandedMeaning(e, subs, all, env);
    case Commitment(_, id, e) => ExpandedMeaning(e, subs, all, env);
    case Range(_, lower, _, center, _, upper) =>
      ExpandedMeaning(lower, subs, all, env);
      ExpandedMeaning(center, subs, all, env);
      ExpandedMeaning(upper, subs, all, env);
  }

  /** The parts of a relation have bounds of the right form, and only equations are a loop
      as a whole. */
  predicate RelBounds(rel: Relation, names: set<Name>) {
    match rel
    case Equal(_, e) => HasBounds(e, names)
    case DeclEqual(_, e) => HasBounds(e, names)
    case Commitment(_, _, e) => InsideBounds(e, names)
    case Range(_, lower, _, center, _, upper) =>
      InsideBounds(lower, names) && InsideBounds(center, names) && InsideBounds(upper, names)
  }

  predicate InsideBounds(e: Expr, names: set<Name>) {
    HasBounds(e, names) && !e.For?
  }

  lemma RelationExpandsIff(rel: Relation, subs: map<Name, int>, env: Env)
    requires RelHolds(rel, subs, env).Some?
    ensures ExpandedRelation(rel, subs).Ok? <==> RelBounds(rel, subs.Keys)
  {
    hide Den, Expanded, HasBounds;
    match rel
    case Equal(_, e) => ExpandsIff(e, subs, env);
    case DeclEqual(_, e) => ExpandsIff(e, subs, env);
    case Commitment(_, _, e) => ExpandsIff(e, subs, env);
    case Range(_, lower, _, center, _, upper) =>
      ExpandsIff(lower, subs, env);
      ExpandsIff(center, subs, env);
      ExpandsIff(upper, subs, env);
  }

  // ---------- lists of relations ----------

  /** The bounds that a loop over relations can run through; it may be empty. */
  predicate RelRange(lo: int, hi: int) {
    -0x8000_0000 <= lo <= hi + 1 && -0x8000_0000 <= hi < 0x7fff_ffff && hi - lo < 0x7fff_ffff
  }

  /** A number that an int holds. */
  predicate IsInt(v: int) {
    Int32(v) == v
  }

  /** These are the bounds for which the counter never leaves an int, and the number of
      values is one too, and not negative; a loop over terms needs at least one. */
  lemma RangesIff(lo: int, hi: int)
    ensures RelRange(lo, hi) <==> IsInt(lo) && IsInt(hi) && IsInt(hi + 1) && IsInt(hi - lo + 1) && 0 <= hi - lo + 1
    ensures LoopRange(lo, hi) <==> RelRange(lo, hi) && 1 <= hi - lo + 1
  {
    IntIff(lo);
    IntIff(hi);
    IntIff(hi + 1);
    IntIff(hi - lo + 1);
    hide IsInt;
  }

  lemma IntIff(v: int)
    ensures IsInt(v) <==> -0x8000_0000 <= v < 0x8000_0000
  {
  }

  function ExpandedForRel(index: string, rel: Relation, lo: int, n: nat, subs: map<Name, int>): (r: Result<seq<Relation>>)
    ensures r.Ok? ==> |r.value| == n
  {
    if n == 0 then Ok([])
    else
      var rels :- ExpandedForRel(index, rel, lo, n - 1, subs);
      var last :- ExpandedRelation(rel, subs[Name(index, NoSub) := lo + n - 1]);
      Ok(rels + [last])
  }

  /** One line's relations. */
  function ExpandedLine(line: Line): Result<seq<Relation>> {
    match line
    case Single(rel) => var r :- ExpandedRelation(rel, NO_SUBS); Ok([r])
    case ForRel(index, lo, hi, rel) =>
      var lb :- LookupBound(lo, NO_SUBS);
      var ub :- LookupBound(hi, NO_SUBS);
      if !RelRange(lb, ub) then Undefined else ExpandedForRel(index, rel, lb, ub - lb + 1, NO_SUBS)
  }

  datatype Lists = Lists(kept: seq<Relation>, added: seq<Relation>)

  /** The relations of a list: those of single lines, and those of loops, which move
      behind them. */
  function ExpandedLines(lines: seq<Line>): Result<Lists> {
    if |lines| == 0 then Ok(Lists([], []))
    else
      var before :- ExpandedLines(lines[..|lines| - 1]);
      var rels :- ExpandedLine(lines[|lines| - 1]);
      Ok(if lines[|lines| - 1].Single? then Lists(before.kept + rels, before.added)
         else Lists(before.kept, before.added + rels))
  }

  /** Whether a line holds: a loop's relation for every value of its index. */
  function LineHolds(line: Line, env: Env): Option<bool> {
    match line
    case Single(rel) => RelHolds(rel, NO_SUBS, env)
    case ForRel(index, lo, hi, rel) =>
      var a, b := Den(lo, NO_SUBS, env), Den(hi, NO_SUBS, env);
      if a.Some? && b.Some? && RelRange(a.value.v, b.value.v) then
        ForRelHolds(index, rel, a.value.v, b.value.v - a.value.v + 1, env)
      else None
  }

  function ForRelHolds(index: string, rel: Relation, lo: int, n: nat, env: Env): Option<bool> {
    if n == 0 then Some(true)
    else
      var init, last := ForRelHolds(index, rel, lo, n - 1, env),
                        RelHolds(rel, map[Name(index, NoSub) := lo + n - 1], env);
      if init.Some? && last.Some? then Some(init.value && last.value) else None
  }

  predicate ScopedLine(line: Line, all: set<Name>) {
    match line
    case Single(rel) => ScopedRelation(rel, {}, all)
    case ForRel(index, lo, hi, rel) =>
      && Name(index, NoSub) in all && ScopedBound(lo, {}, all) && ScopedBound(hi, {}, all)
      && ScopedRelation(rel, {Name(index, NoSub)}, all)
  }

  /** All relations have a meaning and hold. */
  ghost predicate AllHold(rels: seq<Relation>, env: Env) {
    forall k :: 0 <= k < |rels| ==> RelHolds(rels[k], NO_SUBS, env) == Some(true)
  }

  lemma AllHoldConcat(s: seq<Relation>, t: seq<Relation>, env: Env)
    ensures AllHold(s + t, env) <==> AllHold(s, env) && AllHold(t, env)
  {
    hide RelHolds;
    if AllHold(s + t, env) {
      forall k | 0 <= k < |t| ensures RelHolds(t[k], NO_SUBS, env) == Some(true) {
        assert (s + t)[|s| + k] == t[k];
      }
      forall k | 0 <= k < |s| ensures RelHolds(s[k], NO_SUBS, env) == Some(true) {
        assert (s + t)[k] == s[k];
      }
    }
  }

  lemma {:induction false} ForRelMeaning(index: string, rel: Relation, lo: int, n: nat, all: set<Name>, env: Env)
    requires NoGroupIsNull(env) && Name(index, NoSub) in all && ScopedRelation(rel, {Name(index, NoSub)}, all)
    requires ExpandedForRel(index, rel, lo, n, NO_SUBS).Ok? && ForRelHolds(index, rel, lo, n, env).Some?
    ensures AllHold(ExpandedForRel(index, rel, lo, n, NO_SUBS).value, env)
       <==> ForRelHolds(index, rel, lo, n, env).value
  {
    hide RelHolds, ExpandedRelation, ScopedRelation, AllHold;
    if n == 0 {
      NothingHolds(env);
    } else {
      var subs := map[Name(index, NoSub) := lo + n - 1];
      ForRelMeaning(index, rel, lo, n - 1, all, env);
      assert subs.Keys == {Name(index, NoSub)} && NO_SUBS[Name(index, NoSub) := lo + n - 1] == subs;
      ExpandedRelationHolds(rel, subs, all, env);
      var last := ExpandedRelation(rel, subs).value;
      OneHolds(last, env);
      AllHoldConcat(ExpandedForRel(index, rel, lo, n - 1, NO_SUBS).value, [last], env);
    }
  }

  lemma OneHolds(rel: Relation, env: Env)
    ensures AllHold([rel], env) <==> RelHolds(rel, NO_SUBS, env) == Some(true)
  {
    hide RelHolds;
    assert [rel][0] == rel;
  }

  lemma LineMeaning(line: Line, all: set<Name>, env: Env)
    requires NoGroupIsNull(env) && ScopedLine(line, all) && ExpandedLine(line).Ok? && LineHolds(line, env).Some?
    ensures AllHold(ExpandedLine(line).value, env) <==> LineHolds(line, env).value
  {
    hide RelHolds, ExpandedRelation, ScopedRelation, LookupBound, Den, ForRelHolds, ExpandedForRel, AllHold;
    match line
    case Single(rel) =>
      assert NO_SUBS.Keys == {};
      ExpandedRelationHolds(rel, NO_SUBS, all, env);
      OneHolds(ExpandedRelation(rel, NO_SUBS).value, env);
    case ForRel(index, lo, hi, rel) =>
      BoundMeaning(lo, NO_SUBS, env);
      BoundMeaning(hi, NO_SUBS, env);
      var lb, ub := LookupBound(lo, NO_SUBS).value, LookupBound(hi, NO_SUBS).value;
      ForRelMeaning(index, rel, lb, ub - lb + 1, all, env);
  }

  /** A loop's relations come in the order of its index. */
  lemma {:induction false} RelationsInOrder(index: string, rel: Relation, lo: int, n: nat, subs: map<Name, int>, k: nat)
    requires k < n && ExpandedForRel(index, rel, lo, n, subs).Ok?
    ensures ExpandedRelation(rel, subs[Name(index, NoSub) := lo + k]) == Ok(ExpandedForRel(index, rel, lo, n, subs).value[k])
  {
    hide ExpandedRelation;
    if k < n - 1 { RelationsInOrder(index, rel, lo, n - 1, subs, k); }
  }

  /** Where a line's relations go: a single one behind those of the single lines before
      it, a loop's behind those of the loops before it, and nothing in between. */
  lemma {:induction false} LinesInOrder(lines: seq<Line>, k: nat)
    requires k < |lines| && ExpandedLines(lines).Ok?
    ensures ExpandedLines(lines[..k]).Ok? && ExpandedLine(lines[k]).Ok?
    ensures var before, rels, all := ExpandedLines(lines[..k]).value, ExpandedLine(lines[k]).value, ExpandedLines(lines).value;
      && (if lines[k].Single? then before.kept + rels <= all.kept && before.added <= all.added
          else before.kept <= all.kept && before.added + rels <= all.added)
      && (k == |lines| - 1 ==> |all.kept| + |all.added| == |before.kept| + |before.added| + |rels|)
  {
    hide ExpandedLine;
    var n := |lines| - 1;
    if k < n {
      assert lines[..n][..k] == lines[..k];
      LinesInOrder(lines[..n], k);
    }
  }

  /** Expanding a list of relations preserves their conjunction, although the
      relations of loops move to the end. */
  lemma {:induction false} LinesMeaning(lines: seq<Line>, all: set<Name>, env: Env)
    requires NoGroupIsNull(env) && ExpandedLines(lines).Ok?
    requires forall k :: 0 <= k < |lines| ==> ScopedLine(lines[k], all) && LineHolds(lines[k], env).Some?
    ensures AllHold(ExpandedLines(lines).value.kept + ExpandedLines(lines).value.added, env)
       <==> forall k :: 0 <= k < |lines| ==> LineHolds(lines[k], env) == Some(true)
  {
    hide ScopedLine, LineHolds, ExpandedLine, AllHold;
    var out := ExpandedLines(lines).value;
    AllHoldConcat(out.kept, out.added, env);
    if |lines| == 0 {
      assert AllHold([], env) by { NothingHolds(env); }
    } else {
      var before, last := lines[..|lines| - 1], lines[|lines| - 1];
      LinesMeaning(before, all, env);
      LineMeaning(last, all, env);
      var b := ExpandedLines(before).value;
      var rels := ExpandedLine(last).value;
      AllHoldConcat(b.kept, b.added, env);
      AllHoldConcat(b.kept, rels, env);
      AllHoldConcat(b.added, rels, env);
    }
  }

  /** A line's bounds have the right form, and so have its relation's, unless there is no
      value for the index. */
  predicate LineBounds(line: Line) {
    match line
    case Single(rel) => RelBounds(rel, {})
    case ForRel(index, lo, hi, rel) =>
      BoundForm(lo, {}) && BoundForm(hi, {}) && (NoValues(lo, hi) || RelBounds(rel, {Name(index, NoSub)}))
  }

  predicate NoValues(lo: Expr, hi: Expr) {
    var lb, ub := LookupBound(lo, NO_SUBS), LookupBound(hi, NO_SUBS);
    lb.Ok? && ub.Ok? && ub.value < lb.value
  }

  lemma {:induction false} ForRelExpandsIff(index: string, rel: Relation, lo: int, n: nat, env: Env)
    requires ForRelHolds(index, rel, lo, n, env).Some?
    ensures ExpandedForRel(index, rel, lo, n, NO_SUBS).Ok? <==> n == 0 || RelBounds(rel, {Name(index, NoSub)})
  {
    hide RelHolds, ExpandedRelation, RelBounds;
    if n > 0 {
      var subs := map[Name(index, NoSub) := lo + n - 1];
      ForRelExpandsIff(index, rel, lo, n - 1, env);
      assert subs.Keys == {Name(index, NoSub)} && NO_SUBS[Name(index, NoSub) := lo + n - 1] == subs;
      RelationExpandsIff(rel, subs, env);
    }
  }

  lemma LineExpandsIff(line: Line, env: Env)
    requires LineHolds(line, env).Some?
    ensures ExpandedLine(line).Ok? <==> LineBounds(line)
  {
    hide RelHolds, ExpandedRelation, RelBounds, LookupBound, Den, ForRelHolds, ExpandedForRel, BoundForm;
    assert NO_SUBS.Keys == {};
    match line
    case Single(rel) => RelationExpandsIff(rel, NO_SUBS, env);
    case ForRel(index, lo, hi, rel) =>
      BoundFound(lo, NO_SUBS, env);
      BoundFound(hi, NO_SUBS, env);
      var a, b := Den(lo, NO_SUBS, env).value.v, Den(hi, NO_SUBS, env).value.v;
      ForRelExpandsIff(index, rel, a, b - a + 1, env);
  }

  /** A list of relations with meanings expands exactly when all bounds have the right form. */
  lemma {:induction false} LinesExpandIff(lines: seq<Line>, env: Env)
    requires forall k :: 0 <= k < |lines| ==> LineHolds(lines[k], env).Some?
    ensures ExpandedLines(lines).Ok? <==> forall k :: 0 <= k < |lines| ==> LineBounds(lines[k])
  {
    hide LineHolds, ExpandedLine, LineBounds;
    if |lines| > 0 {
      var before, last := lines[..|lines| - 1], lines[|lines| - 1];
      assert forall k :: 0 <= k < |before| ==> before[k] == lines[k];
      LinesExpandIff(before, env);
      LineExpandsIff(last, env);
    }
  }

  lemma NothingHolds(env: Env)
    ensures AllHold([], env)
  {
  }

  // ---------- the code ----------

  lemma ResolveAgrees(n: Name, indexToCur: map<Name, int>, cur: map<Name, int>, all: set<Name>)
    requires ScopedName(n, cur.Keys, all) && cur.Keys <= indexToCur.Keys <= all
    requires forall m :: m in cur ==> indexToCur[m] == cur[m]
    ensures Resolve(n, indexToCur) == Resolve(n, cur)
  {
  }

  lemma BoundAgrees(e: Expr, indexToCur: map<Name, int>, cur: map<Name, int>, all: set<Name>)
    requires ScopedBound(e, cur.Keys, all) && cur.Keys <= indexToCur.Keys <= all
    requires forall m :: m in cur ==> indexToCur[m] == cur[m]
    ensures LookupBound(e, indexToCur) == LookupBound(e, cur)
  {
    hide Eval;
  }

  /** A failing body fails the whole loop. */
  lemma {:induction false} FirstFailure(index: string, body: Expr, lo: int, k: nat, n: nat, subs: map<Name, int>)
    requires k < n && ExpandedItems(index, body, lo, k, subs).Ok?
    requires Expanded(body, subs[Name(index, NoSub) := lo + k]).IsFailure()
    ensures ExpandedItems(index, body, lo, n, subs)
         == Expanded(body, subs[Name(index, NoSub) := lo + k]).PropagateFailure()
    decreases n
  {
    hide Expanded;
    if k < n - 1 {
      FirstFailure(index, body, lo, k, n - 1, subs);
    } else {
      assert lo + n - 1 == lo + k;
    }
  }

  /** How the loop's result comes about, failures included. */
  lemma ExpandedLoop(index: string, lo: Expr, hi: Expr, op: Op, body: Expr, subs: map<Name, int>)
    ensures var r, lb, ub := Expanded(For(index, lo, hi, op, body), subs), LookupBound(lo, subs), LookupBound(hi, subs);
      if lb.IsFailure() then r == lb.PropagateFailure()
      else if ub.IsFailure() then r == ub.PropagateFailure()
      else if !LoopRange(lb.value, ub.value) then r == Undefined
      else
        var items := ExpandedItems(index, body, lb.value, ub.value - lb.value + 1, subs);
        if items.IsFailure() then r == items.PropagateFailure()
        else if |items.value| > 1 && !IsLoopOp(op) then r == CashError
        else r == Ok(QueueTree(op, items.value))
  {
    hide LookupBound, ExpandedItems, QueueTree;
  }

  lemma ScopedLoop(index: string, lo: Expr, hi: Expr, op: Op, body: Expr, bound: set<Name>, all: set<Name>)
    requires Scoped(For(index, lo, hi, op, body), bound, all)
    ensures Name(index, NoSub) in all && Name(index, NoSub) !in bound
    ensures ScopedBound(lo, bound, all) && ScopedBound(hi, bound, all)
    ensures Scoped(body, bound + {Name(index, NoSub)}, all)
  {
  }

  lemma {:induction false} FirstRelFailure(index: string, rel: Relation, lo: int, k: nat, n: nat, subs: map<Name, int>)
    requires k < n && ExpandedForRel(index, rel, lo, k, subs).Ok?
    requires ExpandedRelation(rel, subs[Name(index, NoSub) := lo + k]).IsFailure()
    ensures ExpandedForRel(index, rel, lo, n, subs)
         == ExpandedRelation(rel, subs[Name(index, NoSub) := lo + k]).PropagateFailure()
    decreases n
  {
    hide ExpandedRelation;
    if k < n - 1 {
      FirstRelFailure(index, rel, lo, k, n - 1, subs);
    } else {
      assert lo + n - 1 == lo + k;
    }
  }

  lemma {:induction false} LinesFail(lines: seq<Line>, x: nat)
    requires x < |lines| && ExpandedLine(lines[x]).IsFailure()
    ensures ExpandedLines(lines).IsFailure()
  {
    hide ExpandedLine;
    if x < |lines| - 1 {
      LinesFail(lines[..|lines| - 1], x);
    }
  }

  lemma SingleLine(rel: Relation, all: set<Name>)
    requires ScopedLine(Single(rel), all)
    ensures ScopedRelation(rel, NO_SUBS.Keys, all)
    ensures ExpandedRelation(rel, NO_SUBS).Ok? ==> ExpandedLine(Single(rel)) == Ok([ExpandedRelation(rel, NO_SUBS).value])
    ensures ExpandedRelation(rel, NO_SUBS).IsFailure() ==> ExpandedLine(Single(rel)).IsFailure()
  {
    hide ExpandedRelation;
    assert NO_SUBS.Keys == {};
  }

  class ForExpander {
    /** The current value of each index met so far. It outlives the index's loop. */
    var indexToCur: map<Name, int>

    constructor ()
      ensures indexToCur == map[]
    {
      indexToCur := map[];
    }

    /** All indices of enclosing loops have their values; other entries are left
        over from loops already done. */
    ghost predicate Agrees(cur: map<Name, int>, all: set<Name>)
      reads this
    {
      && cur.Keys <= indexToCur.Keys <= all
      && forall n :: n in cur ==> indexToCur[n] == cur[n]
    }

    /** The rewriting of an expression, loops included. Left-over entries make no
        difference to a scoped expression. */
    method Visit(e: Expr, ghost cur: map<Name, int>, ghost all: set<Name>) returns (r: Result<Expr>)
      requires Scoped(e, cur.Keys, all) && Agrees(cur, all)
      modifies this
      ensures Agrees(cur, all)
      ensures r == Expanded(e, cur)
      decreases e, 0
    {
      match e
      case Int(_) => r := Ok(e);
      case Id(n) =>
        ResolveAgrees(n, indexToCur, cur, all);
        r := Ok(Id(Resolve(n, indexToCur)));
      case Neg(x) =>
        var y :- Visit(x, cur, all);
        r := Ok(Neg(y));
      case Bin(op, l, r') =>
        var x :- Visit(l, cur, all);
        var y :- Visit(r', cur, all);
        r := Ok(Bin(op, x, y));
      case For(index, lo, hi, op, body) =>
        r := ReplaceFor(index, lo, hi, op, body, cur, all);
    }

    /** Replaces a loop by the tree of its expanded bodies. */
    method ReplaceFor(index: string, lo: Expr, hi: Expr, op: Op, body: Expr,
                      ghost cur: map<Name, int>, ghost all: set<Name>) returns (r: Result<Expr>)
      requires Scoped(For(index, lo, hi, op, body), cur.Keys, all) && Agrees(cur, all)
      modifies this
      ensures Agrees(cur, all)
      ensures r == Expanded(For(index, lo, hi, op, body), cur)
      decreases body, 2
    {
      hide Expanded, LookupBound, Scoped, QueueTree;
      ScopedLoop(index, lo, hi, op, body, cur.Keys, all);
      ExpandedLoop(index, lo, hi, op, body, cur);
      BoundAgrees(lo, indexToCur, cur, all);
      BoundAgrees(hi, indexToCur, cur, all);
      var lb :- LookupBound(lo, indexToCur);
      var ub :- LookupBound(hi, indexToCur);
      if !LoopRange(lb, ub) { return Undefined; }
      var toTree :- ExpandRange(index, body, lb, ub, cur, all);
      r := JoinQueue(op, toTree);
    }

    /** The bodies of a loop for all values of its index, in order. */
    method ExpandRange(index: string, body: Expr, lb: int, ub: int,
                       ghost cur: map<Name, int>, ghost all: set<Name>) returns (r: Result<seq<Expr>>)
      requires lb <= ub && Name(index, NoSub) in all && Name(index, NoSub) !in cur && Agrees(cur, all)
      requires Scoped(body, cur.Keys + {Name(index, NoSub)}, all)
      modifies this
      ensures Agrees(cur, all)
      ensures r == ExpandedItems(index, body, lb, ub - lb + 1, cur)
      decreases body, 1
    {
      hide Expanded, Scoped;
      var toTree: seq<Expr> := [];
      var x := lb;
      while x <= ub
        invariant lb <= x <= ub + 1 && Agrees(cur, all)
        invariant ExpandedItems(index, body, lb, x - lb, cur) == Ok(toTree)
      {
        indexToCur := indexToCur[Name(index, NoSub) := x];
        ghost var next := cur[Name(index, NoSub) := x];
        assert next.Keys == cur.Keys + {Name(index, NoSub)};
        var item := Visit(body, next, all);
        if item.IsFailure() {
          FirstFailure(index, body, lb, x - lb, ub - lb + 1, cur);
        }
        var tree :- item;
        toTree := toTree + [tree];
        x := x + 1;
      }
      return Ok(toTree);
    }

    /** Joins the queue's items into one tree. */
    method JoinQueue(op: Op, items: seq<Expr>) returns (r: Result<Expr>)
      requires |items| > 0
      ensures r == if |items| > 1 && !IsLoopOp(op) then CashError else Ok(QueueTree(op, items))
    {
      var toTree := items;
      while |toTree| != 1
        invariant |toTree| > 0 && (|toTree| == |items| || (IsLoopOp(op) && |toTree| < |items|))
        invariant QueueTree(op, toTree) == QueueTree(op, items)
      {
        var first := toTree[0];
        toTree := toTree[1..];
        var second := toTree[0];
        toTree := toTree[1..];
        if !IsLoopOp(op) { return CashError; }
        toTree := toTree + [Bin(op, first, second)];
      }
      return Ok(toTree[0]);
    }

    /** A relation's names and expressions. */
    method VisitRelation(rel: Relation, ghost cur: map<Name, int>, ghost all: set<Name>) returns (r: Result<Relation>)
      requires ScopedRelation(rel, cur.Keys, all) && Agrees(cur, all)
      modifies this
      ensures Agrees(cur, all)
      ensures r == ExpandedRelation(rel, cur)
    {
      hide Expanded, Scoped;
      match rel
      case Equal(id, e) =>
        ResolveAgrees(id, indexToCur, cur, all);
        var name := Resolve(id, indexToCur);
        var x :- Visit(e, cur, all);
        r := Ok(Equal(name, x));
      case DeclEqual(id, e) =>
        ResolveAgrees(id, indexToCur, cur, all);
        var name := Resolve(id, indexToCur);
        var x :- Visit(e, cur, all);
        r := Ok(DeclEqual(name, x));
      case Commitment(coms, id, e) =>
        forall k | 0 <= k < |coms| ensures Resolve(coms[k], indexToCur) == Resolve(coms[k], cur) {
          ResolveAgrees(coms[k], indexToCur, cur, all);
        }
        ResolveAgrees(id, indexToCur, cur, all);
        var names, name := ResolveAll(coms, indexToCur), Resolve(id, indexToCur);
        assert names == ResolveAll(coms, cur);
        var x :- VisitInside(e, cur, all);
        r := Ok(Commitment(names, name, x));
      case Range(group, lower, ls, center, us, upper) =>
        var x :- VisitInside(lower, cur, all);
        var y :- VisitInside(center, cur, all);
        var z :- VisitInside(upper, cur, all);
        r := Ok(Range(group, x, ls, y, us, z));
    }

    method VisitInside(e: Expr, ghost cur: map<Name, int>, ghost all: set<Name>) returns (r: Result<Expr>)
      requires Scoped(e, cur.Keys, all) && Agrees(cur, all)
      modifies this
      ensures Agrees(cur, all)
      ensures r == ExpandedInside(e, cur)
    {
      var x :- Visit(e, cur, all);
      r := if e.For? then CashError else Ok(x);
    }

    /** The relations of a loop, one for each value of its index. */
    method ReplaceForRel(index: string, lo: Expr, hi: Expr, rel: Relation, ghost all: set<Name>)
      returns (r: Result<seq<Relation>>)
      requires ScopedLine(ForRel(index, lo, hi, rel), all) && Agrees(NO_SUBS, all)
      modifies this
      ensures Agrees(NO_SUBS, all)
      ensures r == ExpandedLine(ForRel(index, lo, hi, rel))
    {
      hide LookupBound, ExpandedRelation, ScopedRelation;
      BoundAgrees(lo, indexToCur, NO_SUBS, all);
      BoundAgrees(hi, indexToCur, NO_SUBS, all);
      var lb :- LookupBound(lo, indexToCur);
      var ub :- LookupBound(hi, indexToCur);
      if !RelRange(lb, ub) { return Undefined; }
      var relations: seq<Relation> := [];
      var x := lb;
      while x <= ub
        invariant lb <= x <= ub + 1 && Agrees(NO_SUBS, all)
        invariant ExpandedForRel(index, rel, lb, x - lb, NO_SUBS) == Ok(relations)
      {
        indexToCur := indexToCur[Name(index, NoSub) := x];
        ghost var next := map[Name(index, NoSub) := x];
        assert next.Keys == {Name(index, NoSub)} && NO_SUBS[Name(index, NoSub) := x] == next;
        var item := VisitRelation(rel, next, all);
        if item.IsFailure() {
          FirstRelFailure(index, rel, lb, x - lb, ub - lb + 1, NO_SUBS);
        }
        var relation :- item;
        relations := relations + [relation];
        x := x + 1;
      }
      return Ok(relations);
    }

    /** A list's single relations, then those of its loops. */
    method ApplyListRelation(lines: seq<Line>, ghost all: set<Name>) returns (r: Result<seq<Relation>>)
      requires forall k :: 0 <= k < |lines| ==> ScopedLine(lines[k], all)
      requires Agrees(NO_SUBS, all)
      modifies this
      ensures Agrees(NO_SUBS, all)
      ensures ExpandedLines(lines).Ok? ==> r == Ok(ExpandedLines(lines).value.kept + ExpandedLines(lines).value.added)
      ensures ExpandedLines(lines).IsFailure() ==> r.IsFailure()
    {
      hide ExpandedLine, ScopedLine, Agrees;
      var newList: seq<Relation>, toAdd: seq<Relation> := [], [];
      var x := 0;
      while x < |lines|
        invariant 0 <= x <= |lines| && Agrees(NO_SUBS, all)
        invariant ExpandedLines(lines[..x]) == Ok(Lists(newList, toAdd))
      {
        assert lines[..x + 1][..x] == lines[..x];
        match lines[x] {
          case ForRel(index, lo, hi, rel) =>
            var item := ReplaceForRel(index, lo, hi, rel, all);
            if item.IsFailure() { LinesFail(lines, x); }
            var rels :- item;
            toAdd := toAdd + rels;
          case Single(rel) =>
            SingleLine(rel, all);
            var item := VisitRelation(rel, NO_SUBS, all);
            if item.IsFailure() { LinesFail(lines, x); }
            var relation :- item;
            newList := newList + [relation];
        }
        x := x + 1;
      }
      assert lines[..x] == lines;
      return Ok(newList + toAdd);
    }
  }
}
