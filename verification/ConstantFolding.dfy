/** Substitution of constants and folding, run to a fixpoint before loops are
    expanded: ConstantSub, ConstantProp and the loop of Interpreter::check. */
module ConstantFolding {
  import opened Ast
  import FE = ForExpander

  /** A line of a program: declared names, a range of names, random values, or a line
      of relations. */
  datatype Stmt =
    | Decl(names: seq<Name>)
    | DeclIDRange(base: string, lo: Expr, hi: Expr)
    | RandomBnd(lo: Expr, hi: Expr, ids: seq<Name>)
    | RandomPrime(length: Expr, ids: seq<Name>)
    | Rel(line: Line)

  // ---------- substitution ----------

  /** An expression with the inputs put in, as whole names or as subscripts. */
  function SubExpr(e: Expr, inputs: map<Name, int>): Expr {
    match e
    case Int(_) => e
    case Id(n) => if n in inputs then Int(inputs[n]) else Id(Resolve(n, inputs))
    case Neg(x) => Neg(SubExpr(x, inputs))
    case Bin(op, l, r) => Bin(op, SubExpr(l, inputs), SubExpr(r, inputs))
    case For(i, lo, hi, op, body) =>
      For(i, SubExpr(lo, inputs), SubExpr(hi, inputs), op, SubExpr(body, inputs))
  }

  predicate IsConstant(e: Expr, inputs: map<Name, int>) {
    e.Id? && e.name in inputs
  }

  /** Substitution reports a new constant only for operands of binary operators. */
  predicate Finds(e: Expr, inputs: map<Name, int>) {
    match e
    case Int(_) => false
    case Id(_) => false
    case Neg(x) => Finds(x, inputs)
    case Bin(_, l, r) => IsConstant(l, inputs) || IsConstant(r, inputs) || Finds(l, inputs) || Finds(r, inputs)
    case For(_, lo, hi, _, body) => Finds(lo, inputs) || Finds(hi, inputs) || Finds(body, inputs)
  }

  /** The operands of an expression's binary operators. */
  function Operands(e: Expr): set<Expr> {
    match e
    case Int(_) => {}
    case Id(_) => {}
    case Neg(x) => Operands(x)
    case Bin(_, l, r) => {l, r} + Operands(l) + Operands(r)
    case For(_, lo, hi, _, body) => Operands(lo) + Operands(hi) + Operands(body)
  }

  /** The flag of a visit: it is set if and only if some operand is a constant. */
  lemma {:induction false} FindsIff(e: Expr, inputs: map<Name, int>)
    ensures Finds(e, inputs) <==> exists x :: x in Operands(e) && IsConstant(x, inputs)
  {
    match e
    case Int(_) =>
    case Id(_) =>
    case Neg(x) => FindsIff(x, inputs);
    case Bin(_, l, r) =>
      FindsIff(l, inputs);
      FindsIff(r, inputs);
      assert l in Operands(e) && r in Operands(e);
    case For(_, lo, hi, _, body) =>
      FindsIff(lo, inputs);
      FindsIff(hi, inputs);
      FindsIff(body, inputs);
  }

  function SubRelation(rel: Relation, inputs: map<Name, int>): Relation {
    match rel
    case Equal(id, e) => Equal(id, SubExpr(e, inputs))
    case DeclEqual(id, e) => DeclEqual(id, SubExpr(e, inputs))
    case Commitment(coms, id, e) => Commitment(coms, id, SubExpr(e, inputs))
    case Range(g, lower, ls, center, us, upper) =>
      Range(g, SubExpr(lower, inputs), ls, SubExpr(center, inputs), us, SubExpr(upper, inputs))
  }

  function SubLine(line: Line, inputs: map<Name, int>): Line {
    match line
    case Single(rel) => Single(SubRelation(rel, inputs))
    case ForRel(i, lo, hi, rel) => ForRel(i, SubExpr(lo, inputs), SubExpr(hi, inputs), SubRelation(rel, inputs))
  }

  function SubStmt(s: Stmt, inputs: map<Name, int>): Stmt {
    match s
    case Decl(names) => Decl(FE.ResolveAll(names, inputs))
    case DeclIDRange(b, lo, hi) => DeclIDRange(b, SubExpr(lo, inputs), SubExpr(hi, inputs))
    case RandomBnd(lo, hi, ids) => RandomBnd(SubExpr(lo, inputs), SubExpr(hi, inputs), ids)
    case RandomPrime(length, ids) => RandomPrime(SubExpr(length, inputs), ids)
    case Rel(line) => Rel(SubLine(line, inputs))
  }

  /** x := c for a known c makes x a constant too. */
  predicate Learns(s: Stmt, inputs: map<Name, int>) {
    s.Rel? && s.line.rel.DeclEqual? && IsConstant(s.line.rel.e, inputs)
  }

  function Learn(s: Stmt, inputs: map<Name, int>): map<Name, int> {
    if Learns(s, inputs) then inputs[s.line.rel.id := inputs[s.line.rel.e.name]] else inputs
  }

  /** The expressions of a statement. */
  function Exprs(s: Stmt): seq<Expr> {
    match s
    case Decl(_) => []
    case DeclIDRange(_, lo, hi) => [lo, hi]
    case RandomBnd(lo, hi, _) => [lo, hi]
    case RandomPrime(length, _) => [length]
    case Rel(Single(rel)) => RelExprs(rel)
    case Rel(ForRel(_, lo, hi, rel)) => [lo, hi] + RelExprs(rel)
  }

  function RelExprs(rel: Relation): seq<Expr> {
    match rel
    case Equal(_, e) => [e]
    case DeclEqual(_, e) => [e]
    case Commitment(_, _, e) => [e]
    case Range(_, lower, _, center, _, upper) => [lower, center, upper]
  }

  predicate AnyFinds(es: seq<Expr>, inputs: map<Name, int>) {
    exists k :: 0 <= k < |es| && Finds(es[k], inputs)
  }

  /** Whether a statement makes the pass report a new constant. */
  predicate StmtFinds(s: Stmt, inputs: map<Name, int>) {
    Learns(s, inputs) || AnyFinds(Exprs(s), inputs)
  }

  datatype Pass = Pass(out: seq<Stmt>, inputs: map<Name, int>, found: bool)

  /** One pass over a program; what a statement teaches is used from the next one on. */
  function SubPass(prog: seq<Stmt>, inputs: map<Name, int>): (p: Pass)
    ensures |p.out| == |prog|
  {
    if |prog| == 0 then Pass([], inputs, false)
    else
      var p, s := SubPass(prog[..|prog| - 1], inputs), prog[|prog| - 1];
      Pass(p.out + [SubStmt(s, p.inputs)], Learn(s, p.inputs), p.found || StmtFinds(s, p.inputs))
  }

  class ConstantSub {
    var inputs: map<Name, int>
    var newConstant: bool

    constructor (inputs: map<Name, int>)
      ensures this.inputs == inputs && newConstant
    {
      this.inputs, newConstant := inputs, true;
    }

    method Reset()
      modifies this
      ensures inputs == old(inputs) && !newConstant
    {
      newConstant := false;
    }

    /** A place that holds an expression: a constant is replaced there. */
    method Slot(e: Expr) returns (r: Expr)
      modifies this
      ensures r == SubExpr(e, inputs) && inputs == old(inputs)
      ensures newConstant == (old(newConstant) || Finds(e, inputs))
      decreases e, 1
    {
      if e.Id? && e.name in inputs {
        return Int(inputs[e.name]);
      }
      r := Visit(e);
    }

    method Visit(e: Expr) returns (r: Expr)
      requires !IsConstant(e, inputs)
      modifies this
      ensures r == SubExpr(e, inputs) && inputs == old(inputs)
      ensures newConstant == (old(newConstant) || Finds(e, inputs))
      decreases e, 0
    {
      match e
      case Int(_) => r := e;
      case Id(n) => r := Id(Resolve(n, inputs));
      case Neg(x) =>
        var y := Slot(x);
        r := Neg(y);
      case Bin(op, lhs, rhs) =>
        var x := Slot(lhs);
        if IsConstant(lhs, inputs) { newConstant := true; }
        var y := Slot(rhs);
        if IsConstant(rhs, inputs) { newConstant := true; }
        r := Bin(op, x, y);
      case For(i, lo, hi, op, body) =>
        var x := Slot(lo);
        var y := Slot(hi);
        var z := Slot(body);
        r := For(i, x, y, op, z);
    }

    method ApplyRelation(rel: Relation) returns (r: Relation)
      modifies this
      ensures r == SubRelation(rel, old(inputs))
      ensures inputs == Learn(Rel(Single(rel)), old(inputs))
      ensures newConstant == (old(newConstant) || Learns(Rel(Single(rel)), old(inputs))
                              || AnyFinds(RelExprs(rel), old(inputs)))
    {
      hide Finds;
      match rel
      case Equal(id, e) =>
        var x := Slot(e);
        OneFinds(e, inputs);
        r := Equal(id, x);
      case DeclEqual(id, e) =>
        OneFinds(e, inputs);
        var x := Slot(e);
        if IsConstant(e, inputs) {
          inputs := inputs[id := inputs[e.name]];
          newConstant := true;
        }
        r := DeclEqual(id, x);
      case Commitment(coms, id, e) =>
        var x := Slot(e);
        OneFinds(e, inputs);
        r := Commitment(coms, id, x);
      case Range(g, lower, ls, center, us, upper) =>
        ThreeFind(lower, center, upper, inputs);
        var x := Slot(lower);
        var y := Slot(center);
        var z := Slot(upper);
        r := Range(g, x, ls, y, us, z);
    }

    method ApplyStmt(s: Stmt) returns (r: Stmt)
      modifies this
      ensures r == SubStmt(s, old(inputs))
      ensures inputs == Learn(s, old(inputs))
      ensures newConstant == (old(newConstant) || StmtFinds(s, old(inputs)))
    {
      hide Finds;
      match s
      case Decl(names) => r := Decl(FE.ResolveAll(names, inputs));
      case DeclIDRange(b, lo, hi) =>
        TwoFind(lo, hi, inputs);
        var x := Slot(lo);
        var y := Slot(hi);
        r := DeclIDRange(b, x, y);
      case RandomBnd(lo, hi, ids) =>
        TwoFind(lo, hi, inputs);
        var x := Slot(lo);
        var y := Slot(hi);
        r := RandomBnd(x, y, ids);
      case RandomPrime(length, ids) =>
        OneFinds(length, inputs);
        var x := Slot(length);
        r := RandomPrime(x, ids);
      case Rel(Single(rel)) =>
        var x := ApplyRelation(rel);
        r := Rel(Single(x));
      case Rel(ForRel(i, lo, hi, rel)) =>
        TwoFind(lo, hi, inputs);
        FindsConcat([lo, hi], RelExprs(rel), inputs);
        var x := Slot(lo);
        var y := Slot(hi);
        var z := ApplyRelation(rel);
        r := Rel(ForRel(i, x, y, z));
    }

    /** One pass over a program. */
    method Apply(prog: seq<Stmt>) returns (out: seq<Stmt>)
      modifies this
      ensures out == SubPass(prog, old(inputs)).out && inputs == SubPass(prog, old(inputs)).inputs
      ensures newConstant == (old(newConstant) || SubPass(prog, old(inputs)).found)
    {
      hide SubStmt, Learn, StmtFinds;
      out := [];
      var i := 0;
      while i < |prog|
        invariant 0 <= i <= |prog|
        invariant out == SubPass(prog[..i], old(inputs)).out && inputs == SubPass(prog[..i], old(inputs)).inputs
        invariant newConstant == (old(newConstant) || SubPass(prog[..i], old(inputs)).found)
      {
        assert prog[..i + 1][..i] == prog[..i];
        var s := ApplyStmt(prog[i]);
        out := out + [s];
        i := i + 1;
      }
      assert prog[..i] == prog;
    }
  }

  lemma OneFinds(e: Expr, inputs: map<Name, int>)
    ensures AnyFinds([e], inputs) <==> Finds(e, inputs)
  {
    hide Finds;
    assert [e][0] == e;
  }

  lemma TwoFind(a: Expr, b: Expr, inputs: map<Name, int>)
    ensures AnyFinds([a, b], inputs) <==> Finds(a, inputs) || Finds(b, inputs)
  {
    hide Finds;
    assert [a, b][0] == a && [a, b][1] == b;
  }

  lemma ThreeFind(a: Expr, b: Expr, c: Expr, inputs: map<Name, int>)
    ensures AnyFinds([a, b, c], inputs) <==> Finds(a, inputs) || Finds(b, inputs) || Finds(c, inputs)
  {
    hide Finds;
    assert [a, b, c][0] == a && [a, b, c][1] == b && [a, b, c][2] == c;
  }

  lemma FindsConcat(s: seq<Expr>, t: seq<Expr>, inputs: map<Name, int>)
    ensures AnyFinds(s + t, inputs) <==> AnyFinds(s, inputs) || AnyFinds(t, inputs)
  {
    hide Finds;
    if AnyFinds(t, inputs) {
      var k :| 0 <= k < |t| && Finds(t[k], inputs);
      assert (s + t)[|s| + k] == t[k];
    }
    if AnyFinds(s, inputs) {
      var k :| 0 <= k < |s| && Finds(s[k], inputs);
      assert (s + t)[k] == s[k];
    }
  }

  // ---------- folding ----------

  /** An expression at a place that folding reaches: its value if it evaluates without
      an environment; otherwise, when a look-up failed, its parts are folded. Any
      other exception ends the compilation. */
  function PropSlot(e: Expr): Result<Expr>
    decreases e, 1
  {
    match Eval(e, EMPTY)
    case Ok(v) => Ok(Int(v))
    case OutOfRange => PropVisit(e)
    case CashError => CashError
    case Undefined => Undefined
  }

  function PropVisit(e: Expr): Result<Expr>
    decreases e, 0
  {
    match e
    case Int(_) => Ok(e)
    case Id(_) => Ok(e)
    case Neg(x) => var y :- PropSlot(x); Ok(Neg(y))
    case Bin(op, l, r) =>
      var x :- PropSlot(l);
      var y :- PropSlot(r);
      Ok(Bin(op, x, y))
    case For(i, lo, hi, op, body) =>
      var x :- PropSlot(lo);
      var y :- PropSlot(hi);
      var z :- PropSlot(body);
      Ok(For(i, x, y, op, z))
  }

  /** Folding reaches the bounds of name ranges and of loops over relations only. */
  function PropStmt(s: Stmt): Result<Stmt> {
    match s
    case DeclIDRange(b, lo, hi) =>
      var x :- PropSlot(lo);
      var y :- PropSlot(hi);
      Ok(DeclIDRange(b, x, y))
    case Rel(ForRel(i, lo, hi, rel)) =>
      var x :- PropSlot(lo);
      var y :- PropSlot(hi);
      Ok(Rel(ForRel(i, x, y, rel)))
    case _ => Ok(s)
  }

  class ConstantProp {
    var newConstant: bool

    constructor ()
      ensures newConstant
    {
      newConstant := true;
    }

    method Reset()
      modifies this
      ensures !newConstant
    {
      newConstant := false;
    }

    method Slot(e: Expr) returns (r: Result<Expr>)
      ensures r == PropSlot(e)
      decreases e, 1
    {
      match Eval(e, EMPTY)
      case Ok(v) => r := Ok(Int(v));
      case OutOfRange => r := Visit(e);
      case CashError => r := CashError;
      case Undefined => r := Undefined;
    }

    method Visit(e: Expr) returns (r: Result<Expr>)
      ensures r == PropVisit(e)
      decreases e, 0
    {
      hide Eval;
      match e
      case Int(_) => r := Ok(e);
      case Id(_) => r := Ok(e);
      case Neg(x) =>
        var y :- Slot(x);
        r := Ok(Neg(y));
      case Bin(op, lhs, rhs) =>
        var x :- Slot(lhs);
        var y :- Slot(rhs);
        r := Ok(Bin(op, x, y));
      case For(i, lo, hi, op, body) =>
        var x :- Slot(lo);
        var y :- Slot(hi);
        var z :- Slot(body);
        r := Ok(For(i, x, y, op, z));
    }

    method Apply(prog: seq<Stmt>) returns (r: Result<seq<Stmt>>)
      ensures r.Ok? <==> forall k :: 0 <= k < |prog| ==> PropStmt(prog[k]).Ok?
      ensures r.Ok? ==> |r.value| == |prog| && forall k :: 0 <= k < |prog| ==> PropStmt(prog[k]) == Ok(r.value[k])
    {
      hide PropSlot, PropVisit;
      var out: seq<Stmt> := [];
      for i := 0 to |prog|
        invariant |out| == i
        invariant forall k :: 0 <= k < i ==> PropStmt(prog[k]) == Ok(out[k])
      {
        match prog[i] {
          case DeclIDRange(b, lo, hi) =>
            var x :- Slot(lo);
            var y :- Slot(hi);
            out := out + [DeclIDRange(b, x, y)];
          case Rel(ForRel(index, lo, hi, rel)) =>
            var x :- Slot(lo);
            var y :- Slot(hi);
            out := out + [Rel(ForRel(index, x, y, rel))];
          case _ => out := out + [prog[i]];
        }
      }
      return Ok(out);
    }
  }

  // ---------- identifiers become fewer ----------

  /** The identifiers of an expression. */
  function Ids(e: Expr): nat {
    match e
    case Int(_) => 0
    case Id(_) => 1
    case Neg(x) => Ids(x)
    case Bin(_, l, r) => Ids(l) + Ids(r)
    case For(_, lo, hi, _, body) => Ids(lo) + Ids(hi) + Ids(body)
  }

  function ExprsIds(es: seq<Expr>): nat {
    if |es| == 0 then 0 else ExprsIds(es[..|es| - 1]) + Ids(es[|es| - 1])
  }

  function ProgIds(prog: seq<Stmt>): nat {
    if |prog| == 0 then 0 else ProgIds(prog[..|prog| - 1]) + ExprsIds(Exprs(prog[|prog| - 1]))
  }

  lemma {:induction false} SubExprIds(e: Expr, inputs: map<Name, int>)
    ensures Ids(SubExpr(e, inputs)) <= Ids(e)
    ensures Finds(e, inputs) || IsConstant(e, inputs) ==> Ids(SubExpr(e, inputs)) < Ids(e)
  {
    match e
    case Int(_) =>
    case Id(_) =>
    case Neg(x) => SubExprIds(x, inputs);
    case Bin(_, l, r) => SubExprIds(l, inputs); SubExprIds(r, inputs);
    case For(_, lo, hi, _, body) => SubExprIds(lo, inputs); SubExprIds(hi, inputs); SubExprIds(body, inputs);
  }

  /** Each expression of t is no larger than that of s. */
  lemma {:induction false} ExprsIdsLess(s: seq<Expr>, t: seq<Expr>)
    requires |s| == |t| && forall k :: 0 <= k < |s| ==> Ids(t[k]) <= Ids(s[k])
    ensures ExprsIds(t) <= ExprsIds(s)
    ensures (exists k :: 0 <= k < |s| && Ids(t[k]) < Ids(s[k])) ==> ExprsIds(t) < ExprsIds(s)
  {
    hide Ids;
    if |s| > 0 {
      ExprsIdsLess(s[..|s| - 1], t[..|t| - 1]);
      if k :| 0 <= k < |s| && Ids(t[k]) < Ids(s[k]) {
        if k < |s| - 1 {
          assert s[..|s| - 1][k] == s[k] && t[..|t| - 1][k] == t[k];
        }
      }
    }
  }

  /** Substitution acts on each expression of a statement. */
  lemma SubStmtExprs(s: Stmt, inputs: map<Name, int>)
    ensures |Exprs(SubStmt(s, inputs))| == |Exprs(s)|
    ensures forall k :: 0 <= k < |Exprs(s)| ==> Exprs(SubStmt(s, inputs))[k] == SubExpr(Exprs(s)[k], inputs)
  {
    hide SubExpr;
  }

  lemma StmtIds(s: Stmt, inputs: map<Name, int>)
    ensures ExprsIds(Exprs(SubStmt(s, inputs))) <= ExprsIds(Exprs(s))
    ensures StmtFinds(s, inputs) ==> ExprsIds(Exprs(SubStmt(s, inputs))) < ExprsIds(Exprs(s))
  {
    var es, fs := Exprs(s), Exprs(SubStmt(s, inputs));
    SubStmtExprs(s, inputs);
    forall k | 0 <= k < |es|
      ensures Ids(fs[k]) <= Ids(es[k])
      ensures Finds(es[k], inputs) || IsConstant(es[k], inputs) ==> Ids(fs[k]) < Ids(es[k])
    {
      SubExprIds(es[k], inputs);
    }
    if Learns(s, inputs) {
      LearnExpr(s);
    }
    hide Exprs, SubStmt, Finds, Ids, SubExpr;
    ExprsIdsLess(es, fs);
  }

  lemma LearnExpr(s: Stmt)
    requires s.Rel? && s.line.rel.DeclEqual?
    ensures var n := |Exprs(s)|; n > 0 && Exprs(s)[n - 1] == s.line.rel.e
  {
  }

  /** A pass that reports a new constant leaves fewer identifiers, and no pass adds any. */
  lemma {:induction false} PassIds(prog: seq<Stmt>, inputs: map<Name, int>)
    ensures ProgIds(SubPass(prog, inputs).out) <= ProgIds(prog)
    ensures SubPass(prog, inputs).found ==> ProgIds(SubPass(prog, inputs).out) < ProgIds(prog)
  {
    if |prog| > 0 {
      var before, s := prog[..|prog| - 1], prog[|prog| - 1];
      var p := SubPass(before, inputs);
      PassIds(before, inputs);
      StmtIds(s, p.inputs);
      hide Exprs, SubStmt, StmtFinds, Learn;
      assert (p.out + [SubStmt(s, p.inputs)])[..|p.out|] == p.out;
    }
  }

  lemma {:induction false} PropIds(e: Expr)
    ensures PropSlot(e).Ok? ==> Ids(PropSlot(e).value) <= Ids(e)
    ensures PropVisit(e).Ok? ==> Ids(PropVisit(e).value) <= Ids(e)
  {
    hide Eval;
    match e
    case Int(_) =>
    case Id(_) =>
    case Neg(x) => PropIds(x);
    case Bin(_, l, r) => PropIds(l); PropIds(r);
    case For(_, lo, hi, _, body) => PropIds(lo); PropIds(hi); PropIds(body);
  }

  // ---------- meaning of expressions ----------

  ghost predicate SubMap(m: map<Name, int>, n: map<Name, int>) {
    m.Keys <= n.Keys && forall k :: k in m ==> n[k] == m[k]
  }

  /** The constants, with values for loop indices as well. */
  ghost predicate Extends(subs: map<Name, int>, consts: map<Name, int>) {
    SubMap(consts, subs) && forall n :: n in subs && n !in consts ==> n.sub.NoSub?
  }

  /** An environment in which the constants are integer variables of their values. */
  ghost predicate Holds(env: Env, consts: map<Name, int>) {
    forall n :: n in consts ==>
      n in env.variables && env.variables[n] == consts[n] && n in env.types && env.types[n] == INT
  }

  /** Names with one reading: no loop index is a constant, and a subscripted name whose
      subscript is a constant is itself a constant only if it was given as an input. */
  predicate Clean(e: Expr, keys: set<Name>, first: set<Name>) {
    match e
    case Int(_) => true
    case Id(n) => n.sub.Var? && Name(n.sub.id, NoSub) in keys && n in keys ==> n in first
    case Neg(x) => Clean(x, keys, first)
    case Bin(_, l, r) => Clean(l, keys, first) && Clean(r, keys, first)
    case For(i, lo, hi, _, body) =>
      Name(i, NoSub) !in keys && Clean(lo, keys, first) && Clean(hi, keys, first) && Clean(body, keys, first)
  }

  lemma IdMeaning(n: Name, inputs: map<Name, int>, consts: map<Name, int>, first: set<Name>,
                  subs: map<Name, int>, env: Env)
    requires first <= inputs.Keys && SubMap(inputs, consts) && Clean(Id(n), consts.Keys, first)
    requires Extends(subs, consts) && Holds(env, consts)
    ensures Den(SubExpr(Id(n), inputs), subs, env) == Den(Id(n), subs, env)
    ensures Clean(SubExpr(Id(n), inputs), consts.Keys, first)
  {
  }

  lemma ExtendsIndex(subs: map<Name, int>, consts: map<Name, int>, i: string, x: int)
    requires Extends(subs, consts) && Name(i, NoSub) !in consts
    ensures Extends(subs[Name(i, NoSub) := x], consts)
  {
  }

  /** A loop body at one value of its index. */
  function BodyAt(i: string, body: Expr, x: int, subs: map<Name, int>, env: Env): Option<Value> {
    Den(body, subs[Name(i, NoSub) := x], env)
  }

  /** The meanings of parts determine the meaning. */
  lemma NegSame(x: Expr, y: Expr, s: map<Name, int>, t: map<Name, int>, env: Env)
    requires Den(x, s, env) == Den(y, t, env)
    ensures Den(Neg(x), s, env) == Den(Neg(y), t, env)
  {
  }

  lemma BinSame(op: Op, l: Expr, r: Expr, x: Expr, y: Expr, s: map<Name, int>, t: map<Name, int>, env: Env)
    requires Den(l, s, env) == Den(x, t, env) && Den(r, s, env) == Den(y, t, env)
    ensures Den(Bin(op, l, r), s, env) == Den(Bin(op, x, y), t, env)
  {
    hide Lift;
  }

  lemma ForSame(i: string, op: Op, lo: Expr, hi: Expr, body: Expr, lo': Expr, hi': Expr, body': Expr,
                s: map<Name, int>, t: map<Name, int>, env: Env)
    requires Den(lo, s, env) == Den(lo', t, env) && Den(hi, s, env) == Den(hi', t, env)
    requires forall x :: BodyAt(i, body, x, s, env) == BodyAt(i, body', x, t, env)
    ensures Den(For(i, lo, hi, op, body), s, env) == Den(For(i, lo', hi', op, body'), t, env)
  {
    DenForIs(i, op, lo, hi, body, s, env);
    DenForIs(i, op, lo', hi', body', t, env);
    hide Den, FoldLeft, BodyDens, AllRegular, BodyAt, LoopRange;
    var a, b := Den(lo, s, env), Den(hi, s, env);
    if a.Some? && b.Some? && LoopRange(a.value.v, b.value.v) {
      RangeOrdered(a.value.v, b.value.v);
      BodiesSame(i, body, body', a.value.v, b.value.v - a.value.v + 1, s, t, env);
    }
  }

  lemma RangeOrdered(a: int, b: int)
    requires LoopRange(a, b)
    ensures a <= b
  {
  }

  lemma DenForIs(i: string, op: Op, lo: Expr, hi: Expr, body: Expr, s: map<Name, int>, env: Env)
    ensures var d, a, b := Den(For(i, lo, hi, op, body), s, env), Den(lo, s, env), Den(hi, s, env);
      if a.Some? && b.Some? && LoopRange(a.value.v, b.value.v) && FE.IsLoopOp(op) then
        var items := BodyDens(i, body, a.value.v, b.value.v - a.value.v + 1, s, env);
        d == if AllRegular(items) then FoldLeft(op, items, env) else None
      else d == None
  {
    hide FoldLeft, BodyDens, AllRegular;
  }

  lemma BodiesSame(i: string, body: Expr, body': Expr, lo: int, n: nat, s: map<Name, int>, t: map<Name, int>, env: Env)
    requires forall x :: BodyAt(i, body, x, s, env) == BodyAt(i, body', x, t, env)
    ensures BodyDens(i, body, lo, n, s, env) == BodyDens(i, body', lo, n, t, env)
  {
    hide Den;
    forall k | 0 <= k < n
      ensures BodyDens(i, body, lo, n, s, env)[k] == BodyDens(i, body', lo, n, t, env)[k]
    {
      assert BodyAt(i, body, lo + k, s, env) == BodyAt(i, body', lo + k, t, env);
    }
  }

  /** Substitution preserves meaning in every environment that has the constants. */
  lemma {:induction false} SubMeaning(e: Expr, inputs: map<Name, int>, consts: map<Name, int>, first: set<Name>,
                                      subs: map<Name, int>, env: Env)
    requires first <= inputs.Keys && SubMap(inputs, consts) && Clean(e, consts.Keys, first)
    requires Extends(subs, consts) && Holds(env, consts)
    ensures Den(SubExpr(e, inputs), subs, env) == Den(e, subs, env)
    ensures Clean(SubExpr(e, inputs), consts.Keys, first)
    decreases e
  {
    hide Den, Extends, Holds, SubMap, Resolve;
    match e
    case Int(_) =>
    case Id(n) => IdMeaning(n, inputs, consts, first, subs, env);
    case Neg(x) =>
      SubMeaning(x, inputs, consts, first, subs, env);
      NegSame(SubExpr(x, inputs), x, subs, subs, env);
    case Bin(op, l, r) =>
      SubMeaning(l, inputs, consts, first, subs, env);
      SubMeaning(r, inputs, consts, first, subs, env);
      BinSame(op, SubExpr(l, inputs), SubExpr(r, inputs), l, r, subs, subs, env);
    case For(i, lo, hi, op, body) =>
      SubMeaning(lo, inputs, consts, first, subs, env);
      SubMeaning(hi, inputs, consts, first, subs, env);
      SubMeaning(body, inputs, consts, first, subs, env);
      forall x ensures BodyAt(i, SubExpr(body, inputs), x, subs, env) == BodyAt(i, body, x, subs, env) {
        ExtendsIndex(subs, consts, i, x);
        SubMeaning(body, inputs, consts, first, subs[Name(i, NoSub) := x], env);
      }
      ForSame(i, op, SubExpr(lo, inputs), SubExpr(hi, inputs), SubExpr(body, inputs), lo, hi, body, subs, subs, env);
  }

  /** Folding preserves meaning in every environment. */
  lemma {:induction false} PropMeaning(e: Expr, subs: map<Name, int>, env: Env)
    ensures PropSlot(e).Ok? ==> Den(PropSlot(e).value, subs, env) == Den(e, subs, env)
    ensures PropVisit(e).Ok? ==> Den(PropVisit(e).value, subs, env) == Den(e, subs, env)
    decreases e, 1
  {
    if PropVisit(e).Ok? { PropParts(e, subs, env); }
    if Eval(e, EMPTY).Ok? {
      FE.ClosedEval(e, subs, env);
      LiteralMeaning(Eval(e, EMPTY).value, subs, env);
    }
    hide Eval, Den, PropVisit;
  }

  lemma LiteralMeaning(v: int, subs: map<Name, int>, env: Env)
    ensures Den(Int(v), subs, env) == Some(Value(INT, v))
  {
  }

  lemma {:induction false} PropParts(e: Expr, subs: map<Name, int>, env: Env)
    requires PropVisit(e).Ok?
    ensures Den(PropVisit(e).value, subs, env) == Den(e, subs, env)
    decreases e, 0
  {
    hide Eval, Den, PropSlot;
    match e
    case Int(_) =>
    case Id(_) =>
    case Neg(x) =>
      PropMeaning(x, subs, env);
      NegSame(PropSlot(x).value, x, subs, subs, env);
    case Bin(op, l, r) =>
      PropMeaning(l, subs, env);
      PropMeaning(r, subs, env);
      BinSame(op, PropSlot(l).value, PropSlot(r).value, l, r, subs, subs, env);
    case For(i, lo, hi, op, body) =>
      PropMeaning(lo, subs, env);
      PropMeaning(hi, subs, env);
      forall x ensures BodyAt(i, PropSlot(body).value, x, subs, env) == BodyAt(i, body, x, subs, env) {
        PropMeaning(body, subs[Name(i, NoSub) := x], env);
      }
      ForSame(i, op, PropSlot(lo).value, PropSlot(hi).value, PropSlot(body).value, lo, hi, body, subs, subs, env);
  }

  lemma {:induction false} PropClean(e: Expr, keys: set<Name>, first: set<Name>)
    requires Clean(e, keys, first)
    ensures PropSlot(e).Ok? ==> Clean(PropSlot(e).value, keys, first)
    ensures PropVisit(e).Ok? ==> Clean(PropVisit(e).value, keys, first)
  {
    hide Eval;
    match e
    case Int(_) =>
    case Id(_) =>
    case Neg(x) => PropClean(x, keys, first);
    case Bin(_, l, r) => PropClean(l, keys, first); PropClean(r, keys, first);
    case For(_, lo, hi, _, body) =>
      PropClean(lo, keys, first);
      PropClean(hi, keys, first);
      PropClean(body, keys, first);
  }

  // ---------- nothing is left to substitute ----------

  /** No constant is left as a subscript, and none as a whole name, except a name that
      a substituted subscript has only just made one. */
  predicate Done(e: Expr, keys: set<Name>) {
    match e
    case Int(_) => true
    case Id(n) => !(n.sub.Var? && Name(n.sub.id, NoSub) in keys) && (n in keys ==> n.sub.Num?)
    case Neg(x) => Done(x, keys)
    case Bin(_, l, r) => Done(l, keys) && Done(r, keys)
    case For(_, lo, hi, _, body) => Done(lo, keys) && Done(hi, keys) && Done(body, keys)
  }

  lemma {:induction false} SubDone(e: Expr, inputs: map<Name, int>)
    ensures Done(SubExpr(e, inputs), inputs.Keys)
  {
    match e
    case Int(_) =>
    case Id(_) =>
    case Neg(x) => SubDone(x, inputs);
    case Bin(_, l, r) => SubDone(l, inputs); SubDone(r, inputs);
    case For(_, lo, hi, _, body) => SubDone(lo, inputs); SubDone(hi, inputs); SubDone(body, inputs);
  }

  lemma {:induction false} PropDone(e: Expr, keys: set<Name>)
    requires Done(e, keys)
    ensures PropSlot(e).Ok? ==> Done(PropSlot(e).value, keys)
    ensures PropVisit(e).Ok? ==> Done(PropVisit(e).value, keys)
  {
    hide Eval;
    match e
    case Int(_) =>
    case Id(_) =>
    case Neg(x) => PropDone(x, keys);
    case Bin(_, l, r) => PropDone(l, keys); PropDone(r, keys);
    case For(_, lo, hi, _, body) => PropDone(lo, keys); PropDone(hi, keys); PropDone(body, keys);
  }

  lemma DoneId(n: Name, consts: map<Name, int>, idx: map<Name, int>, env: Env)
    requires Done(Id(n), consts.Keys) && Holds(env, consts)
    requires forall m :: m in idx ==> m.sub.NoSub? && m !in consts
    ensures Den(Id(n), consts + idx, env) == Den(Id(n), idx, env)
  {
  }

  /** What is done means the same without the constants. */
  lemma {:induction false} DoneMeaning(e: Expr, consts: map<Name, int>, first: set<Name>, idx: map<Name, int>, env: Env)
    requires Done(e, consts.Keys) && Clean(e, consts.Keys, first) && Holds(env, consts)
    requires forall m :: m in idx ==> m.sub.NoSub? && m !in consts
    ensures Den(e, consts + idx, env) == Den(e, idx, env)
    decreases e
  {
    hide Den, Holds, Resolve;
    var both := consts + idx;
    match e
    case Int(v) =>
      LiteralMeaning(v, both, env);
      LiteralMeaning(v, idx, env);
    case Id(n) => DoneId(n, consts, idx, env);
    case Neg(x) =>
      DoneMeaning(x, consts, first, idx, env);
      NegSame(x, x, both, idx, env);
    case Bin(op, l, r) =>
      DoneMeaning(l, consts, first, idx, env);
      DoneMeaning(r, consts, first, idx, env);
      BinSame(op, l, r, l, r, both, idx, env);
    case For(i, lo, hi, op, body) =>
      DoneMeaning(lo, consts, first, idx, env);
      DoneMeaning(hi, consts, first, idx, env);
      forall x ensures BodyAt(i, body, x, both, env) == BodyAt(i, body, x, idx, env) {
        var next := idx[Name(i, NoSub) := x];
        assert both[Name(i, NoSub) := x] == consts + next;
        DoneMeaning(body, consts, first, next, env);
      }
      ForSame(i, op, lo, hi, body, lo, hi, body, both, idx, env);
  }

  // ---------- meaning of programs ----------

  /** Two expressions with the same meaning wherever the constants hold. */
  ghost predicate Same(e: Expr, f: Expr, consts: map<Name, int>) {
    forall subs: map<Name, int>, env: Env ::
      Extends(subs, consts) && Holds(env, consts) ==> Den(f, subs, env) == Den(e, subs, env)
  }

  /** A statement without its expressions, its declared names resolved. */
  function Skeleton(s: Stmt, consts: map<Name, int>): Stmt {
    match s
    case Decl(names) => Decl(FE.ResolveAll(names, consts))
    case DeclIDRange(b, _, _) => DeclIDRange(b, Int(0), Int(0))
    case RandomBnd(_, _, ids) => RandomBnd(Int(0), Int(0), ids)
    case RandomPrime(_, ids) => RandomPrime(Int(0), ids)
    case Rel(Single(rel)) => Rel(Single(FE.RelShape(rel, NO_SUBS)))
    case Rel(ForRel(i, _, _, rel)) => Rel(ForRel(i, Int(0), Int(0), FE.RelShape(rel, NO_SUBS)))
  }

  /** A statement is its skeleton and its expressions: nothing is left out of either. */
  lemma ExprsDetermine(s: Stmt, t: Stmt)
    requires Skeleton(s, NO_SUBS) == Skeleton(t, NO_SUBS) && Exprs(s) == Exprs(t)
    ensures s == t
  {
    if s.Decl? {
      FE.ResolveNothing(s.names);
      FE.ResolveNothing(t.names);
    } else if s.Rel? {
      if s.line.ForRel? {
        assert RelExprs(s.line.rel) == Exprs(s)[2..] && RelExprs(t.line.rel) == Exprs(t)[2..];
        assert s.line.lo == Exprs(s)[0] && s.line.hi == Exprs(s)[1];
        assert t.line.lo == Exprs(t)[0] && t.line.hi == Exprs(t)[1];
      }
      RelExprsDetermine(s.line.rel, t.line.rel);
    } else if s.DeclIDRange? || s.RandomBnd? {
      assert s.lo == Exprs(s)[0] && s.hi == Exprs(s)[1] && t.lo == Exprs(t)[0] && t.hi == Exprs(t)[1];
    } else {
      assert s.length == Exprs(s)[0] && t.length == Exprs(t)[0];
    }
  }

  lemma RelExprsDetermine(r: Relation, q: Relation)
    requires FE.RelShape(r, NO_SUBS) == FE.RelShape(q, NO_SUBS) && RelExprs(r) == RelExprs(q)
    ensures r == q
  {
    if r.Commitment? {
      FE.ResolveNothing(r.coms);
      FE.ResolveNothing(q.coms);
    }
    if r.Range? {
      assert r.lower == RelExprs(r)[0] && r.center == RelExprs(r)[1] && r.upper == RelExprs(r)[2];
      assert q.lower == RelExprs(q)[0] && q.center == RelExprs(q)[1] && q.upper == RelExprs(q)[2];
    } else {
      assert r.e == RelExprs(r)[0] && q.e == RelExprs(q)[0];
    }
  }

  /** Two statements that differ in their expressions only, all with the same meaning. */
  ghost predicate SameStmt(s: Stmt, t: Stmt, consts: map<Name, int>) {
    && Skeleton(s, consts) == Skeleton(t, consts)
    && |Exprs(s)| == |Exprs(t)|
    && forall k :: 0 <= k < |Exprs(s)| ==> Same(Exprs(s)[k], Exprs(t)[k], consts)
  }

  predicate CleanStmt(s: Stmt, keys: set<Name>, first: set<Name>) {
    && (forall k :: 0 <= k < |Exprs(s)| ==> Clean(Exprs(s)[k], keys, first))
    && (s.Rel? && s.line.ForRel? ==> Name(s.line.index, NoSub) !in keys)
  }

  lemma SubStmtSame(s: Stmt, inputs: map<Name, int>, consts: map<Name, int>, first: set<Name>)
    requires first <= inputs.Keys && SubMap(inputs, consts) && CleanStmt(s, consts.Keys, first)
    ensures SameStmt(s, SubStmt(s, inputs), consts) && CleanStmt(SubStmt(s, inputs), consts.Keys, first)
  {
    SubStmtExprs(s, inputs);
    SubSkeleton(s, inputs, consts);
    hide Exprs, SubStmt, Skeleton, SubExpr, Clean, SubMap, Den;
    forall k | 0 <= k < |Exprs(s)|
      ensures Same(Exprs(s)[k], Exprs(SubStmt(s, inputs))[k], consts)
      ensures Clean(Exprs(SubStmt(s, inputs))[k], consts.Keys, first)
    {
      SubSame(Exprs(s)[k], inputs, consts, first);
    }
  }

  lemma SubSkeleton(s: Stmt, inputs: map<Name, int>, consts: map<Name, int>)
    requires SubMap(inputs, consts)
    ensures Skeleton(SubStmt(s, inputs), consts) == Skeleton(s, consts)
    ensures SubStmt(s, inputs).Rel? <==> s.Rel?
    ensures s.Rel? ==> (SubStmt(s, inputs).line.ForRel? <==> s.line.ForRel?)
    ensures s.Rel? && s.line.ForRel? ==> SubStmt(s, inputs).line.index == s.line.index
  {
    hide SubExpr;
    if s.Decl? {
      assert FE.ResolveAll(FE.ResolveAll(s.names, inputs), consts) == FE.ResolveAll(s.names, consts);
    }
  }

  lemma SubSame(e: Expr, inputs: map<Name, int>, consts: map<Name, int>, first: set<Name>)
    requires first <= inputs.Keys && SubMap(inputs, consts) && Clean(e, consts.Keys, first)
    ensures Same(e, SubExpr(e, inputs), consts) && Clean(SubExpr(e, inputs), consts.Keys, first)
  {
    hide Den, Clean, SubExpr, SubMap, Extends, Holds;
    forall subs: map<Name, int>, env: Env | Extends(subs, consts) && Holds(env, consts)
      ensures Den(SubExpr(e, inputs), subs, env) == Den(e, subs, env)
    {
      SubMeaning(e, inputs, consts, first, subs, env);
    }
    SubClean(e, inputs, consts, first);
  }

  lemma {:induction false} SubClean(e: Expr, inputs: map<Name, int>, consts: map<Name, int>, first: set<Name>)
    requires SubMap(inputs, consts) && Clean(e, consts.Keys, first)
    ensures Clean(SubExpr(e, inputs), consts.Keys, first)
  {
    match e
    case Int(_) =>
    case Id(_) =>
    case Neg(x) => SubClean(x, inputs, consts, first);
    case Bin(_, l, r) => SubClean(l, inputs, consts, first); SubClean(r, inputs, consts, first);
    case For(_, lo, hi, _, body) =>
      SubClean(lo, inputs, consts, first);
      SubClean(hi, inputs, consts, first);
      SubClean(body, inputs, consts, first);
  }

  lemma PropSame(e: Expr, consts: map<Name, int>)
    requires PropSlot(e).Ok?
    ensures Same(e, PropSlot(e).value, consts)
  {
    hide Den, PropSlot;
    forall subs: map<Name, int>, env: Env ensures Den(PropSlot(e).value, subs, env) == Den(e, subs, env) {
      PropMeaning(e, subs, env);
    }
  }

  lemma SameRefl(e: Expr, consts: map<Name, int>)
    ensures Same(e, e, consts)
  {
  }

  lemma PropStmtSame(s: Stmt, consts: map<Name, int>, keys: set<Name>, first: set<Name>)
    requires PropStmt(s).Ok? && CleanStmt(s, keys, first)
    ensures SameStmt(s, PropStmt(s).value, consts) && CleanStmt(PropStmt(s).value, keys, first)
    ensures ExprsIds(Exprs(PropStmt(s).value)) <= ExprsIds(Exprs(s))
  {
    var t := PropStmt(s).value;
    PropExprs(s);
    PropSkeleton(s, consts);
    hide Same, PropSlot, Clean, Ids, ExprsIds, PropStmt, Exprs, Skeleton;
    forall k | 0 <= k < |Exprs(s)|
      ensures Same(Exprs(s)[k], Exprs(t)[k], consts) && Clean(Exprs(t)[k], keys, first)
      ensures Ids(Exprs(t)[k]) <= Ids(Exprs(s)[k])
    {
      var e := Exprs(s)[k];
      assert Clean(e, keys, first);
      if PropSlot(e).Ok? && Exprs(t)[k] == PropSlot(e).value {
        PropSame(e, consts);
        PropClean(e, keys, first);
        PropIds(e);
      } else {
        SameRefl(e, consts);
      }
    }
    ExprsIdsLess(Exprs(s), Exprs(t));
  }

  lemma PropSkeleton(s: Stmt, consts: map<Name, int>)
    requires PropStmt(s).Ok?
    ensures var t := PropStmt(s).value;
      Skeleton(t, consts) == Skeleton(s, consts)
      && (t.Rel? <==> s.Rel?) && (s.Rel? ==> (t.line.ForRel? <==> s.line.ForRel?))
      && (s.Rel? && s.line.ForRel? ==> t.line.index == s.line.index)
  {
    hide PropSlot;
  }

  /** Folding leaves each expression of a statement or replaces it by its fold. */
  lemma PropExprs(s: Stmt)
    requires PropStmt(s).Ok?
    ensures var t := PropStmt(s).value;
      |Exprs(t)| == |Exprs(s)|
      && (forall k :: 0 <= k < |Exprs(s)| ==>
            Exprs(t)[k] == Exprs(s)[k] || PropSlot(Exprs(s)[k]) == Ok(Exprs(t)[k]))
  {
    hide PropSlot;
  }

  lemma SameTrans(s: Stmt, t: Stmt, u: Stmt, consts: map<Name, int>)
    requires SameStmt(s, t, consts) && SameStmt(t, u, consts)
    ensures SameStmt(s, u, consts)
  {
    hide Exprs, Skeleton, Den, Extends, Holds;
    forall k | 0 <= k < |Exprs(s)| ensures Same(Exprs(s)[k], Exprs(u)[k], consts) {
      assert Same(Exprs(s)[k], Exprs(t)[k], consts) && Same(Exprs(t)[k], Exprs(u)[k], consts);
    }
  }

  ghost predicate SameProg(p: seq<Stmt>, q: seq<Stmt>, consts: map<Name, int>) {
    |p| == |q| && forall k :: 0 <= k < |p| ==> SameStmt(p[k], q[k], consts)
  }

  ghost predicate CleanProg(p: seq<Stmt>, keys: set<Name>, first: set<Name>) {
    forall k :: 0 <= k < |p| ==> CleanStmt(p[k], keys, first)
  }

  lemma SameProgTrans(p: seq<Stmt>, q: seq<Stmt>, r: seq<Stmt>, consts: map<Name, int>)
    requires SameProg(p, q, consts) && SameProg(q, r, consts)
    ensures SameProg(p, r, consts)
  {
    hide SameStmt;
    forall k | 0 <= k < |p| ensures SameStmt(p[k], r[k], consts) {
      SameTrans(p[k], q[k], r[k], consts);
    }
  }

  // ---------- declared constants ----------

  function DeclId(s: Stmt): Option<Name> {
    if s.Rel? && s.line.rel.DeclEqual? then Some(s.line.rel.id) else None
  }

  function DeclNames(prog: seq<Stmt>): set<Name> {
    set k | 0 <= k < |prog| && DeclId(prog[k]).Some? :: DeclId(prog[k]).value
  }

  /** No name is declared twice. */
  ghost predicate Distinct(prog: seq<Stmt>) {
    forall i, j :: 0 <= i < j < |prog| && DeclId(prog[i]).Some? && DeclId(prog[j]).Some? ==>
      DeclId(prog[i]) != DeclId(prog[j])
  }

  predicate SettledStmt(s: Stmt, inputs: map<Name, int>) {
    DeclId(s).Some? && DeclId(s).value in inputs ==> s.line.rel.e.Int?
  }

  /** A declaration whose name is a constant has its value already. */
  ghost predicate Settled(prog: seq<Stmt>, inputs: map<Name, int>) {
    forall k :: 0 <= k < |prog| ==> SettledStmt(prog[k], inputs)
  }

  lemma SubDecl(s: Stmt, inputs: map<Name, int>)
    ensures DeclId(SubStmt(s, inputs)) == DeclId(s)
    ensures DeclId(s).Some? && s.line.rel.e.Int? ==> SubStmt(s, inputs).line.rel.e.Int?
    ensures Learns(s, inputs) ==> DeclId(s).Some? && !s.line.rel.e.Int? && SubStmt(s, inputs).line.rel.e.Int?
    ensures Learns(s, inputs) ==> Learn(s, inputs).Keys == inputs.Keys + {DeclId(s).value}
    ensures Learns(s, inputs) ==> forall n :: n in inputs && n != DeclId(s).value ==> Learn(s, inputs)[n] == inputs[n]
    ensures !Learns(s, inputs) ==> Learn(s, inputs) == inputs
  {
  }

  ghost predicate SameDecls(p: seq<Stmt>, q: seq<Stmt>) {
    |p| == |q| && forall k :: 0 <= k < |p| ==> DeclId(q[k]) == DeclId(p[k])
  }

  /** Over a pass the constants only become more, and only by declared names. */
  lemma {:induction false} PassGrows(prog: seq<Stmt>, inputs: map<Name, int>)
    requires Distinct(prog) && Settled(prog, inputs)
    ensures var p := SubPass(prog, inputs);
      SubMap(inputs, p.inputs) && SameDecls(prog, p.out) && Settled(p.out, p.inputs)
      && p.inputs.Keys <= inputs.Keys + DeclNames(prog)
  {
    hide SubStmt, Learn, Learns, DeclId, StmtFinds;
    if |prog| > 0 {
      var before, s := prog[..|prog| - 1], prog[|prog| - 1];
      var p, q := SubPass(before, inputs), SubPass(prog, inputs);
      PassGrows(before, inputs);
      SubDecl(s, p.inputs);
      assert forall k :: 0 <= k < |before| ==> before[k] == prog[k];
      LastSettled(prog, inputs);
      if Learns(s, p.inputs) {
        forall k | 0 <= k < |q.out| ensures SettledStmt(q.out[k], q.inputs) {
          if k < |before| {
            assert SettledStmt(p.out[k], p.inputs);
            assert DeclId(prog[k]).Some? ==> DeclId(prog[k]) != DeclId(s);
          }
        }
      }
    }
  }

  lemma LastSettled(prog: seq<Stmt>, inputs: map<Name, int>)
    requires |prog| > 0 && Distinct(prog) && Settled(prog, inputs)
    ensures DeclNames(prog[..|prog| - 1]) <= DeclNames(prog)
    ensures DeclId(prog[|prog| - 1]).Some? ==> DeclId(prog[|prog| - 1]).value in DeclNames(prog)
    ensures DeclId(prog[|prog| - 1]).Some? && !prog[|prog| - 1].line.rel.e.Int? ==>
      DeclId(prog[|prog| - 1]).value !in inputs.Keys + DeclNames(prog[..|prog| - 1])
  {
    hide DeclId;
    forall k | 0 <= k < |prog| - 1 && DeclId(prog[k]).Some? ensures DeclId(prog[k]).value in DeclNames(prog) {}
    assert SettledStmt(prog[|prog| - 1], inputs);
  }

  /** A pass preserves the meaning of every statement. */
  lemma {:induction false} PassSame(prog: seq<Stmt>, inputs: map<Name, int>, consts: map<Name, int>, first: set<Name>)
    requires Distinct(prog) && Settled(prog, inputs) && first <= inputs.Keys
    requires SubMap(SubPass(prog, inputs).inputs, consts) && CleanProg(prog, consts.Keys, first)
    ensures SameProg(prog, SubPass(prog, inputs).out, consts)
    ensures CleanProg(SubPass(prog, inputs).out, consts.Keys, first)
  {
    hide SubStmt, Learn, Learns, DeclId, StmtFinds, SameStmt, CleanStmt;
    if |prog| > 0 {
      var before, s := prog[..|prog| - 1], prog[|prog| - 1];
      var p := SubPass(before, inputs);
      PassGrows(before, inputs);
      StepGrows(prog, inputs);
      assert forall k :: 0 <= k < |before| ==> before[k] == prog[k];
      PassSame(before, inputs, consts, first);
      SubStmtSame(s, p.inputs, consts, first);
    }
  }

  lemma StepGrows(prog: seq<Stmt>, inputs: map<Name, int>)
    requires |prog| > 0 && Distinct(prog) && Settled(prog, inputs)
    ensures SubMap(SubPass(prog[..|prog| - 1], inputs).inputs, SubPass(prog, inputs).inputs)
  {
    hide SubStmt, Learn, Learns, DeclId, StmtFinds;
    var before, s := prog[..|prog| - 1], prog[|prog| - 1];
    var p := SubPass(before, inputs);
    assert forall k :: 0 <= k < |before| ==> before[k] == prog[k];
    PassGrows(before, inputs);
    LastSettled(prog, inputs);
    SubDecl(s, p.inputs);
  }

  ghost predicate AllDone(prog: seq<Stmt>, keys: set<Name>) {
    forall k :: 0 <= k < |prog| ==> DoneStmt(prog[k], keys)
  }

  predicate DoneStmt(s: Stmt, keys: set<Name>) {
    forall j :: 0 <= j < |Exprs(s)| ==> Done(Exprs(s)[j], keys)
  }

  /** After a pass that finds no new constant nothing is left to substitute. */
  lemma {:induction false} QuietPass(prog: seq<Stmt>, inputs: map<Name, int>)
    requires !SubPass(prog, inputs).found
    ensures SubPass(prog, inputs).inputs == inputs && AllDone(SubPass(prog, inputs).out, inputs.Keys)
  {
    if |prog| > 0 {
      var before, s := prog[..|prog| - 1], prog[|prog| - 1];
      var p := SubPass(before, inputs);
      QuietPass(before, inputs);
      SubDecl(s, inputs);
      SubStmtDone(s, inputs);
      hide SubStmt, Learn, DoneStmt;
    }
  }

  lemma SubStmtDone(s: Stmt, inputs: map<Name, int>)
    ensures DoneStmt(SubStmt(s, inputs), inputs.Keys)
  {
    SubStmtExprs(s, inputs);
    hide Exprs, SubStmt, SubExpr, Done;
    forall j | 0 <= j < |Exprs(s)| ensures Done(Exprs(SubStmt(s, inputs))[j], inputs.Keys) {
      SubDone(Exprs(s)[j], inputs);
    }
  }

  lemma PropStmtDone(s: Stmt, keys: set<Name>)
    requires PropStmt(s).Ok? && DoneStmt(s, keys)
    ensures DoneStmt(PropStmt(s).value, keys) && DeclId(PropStmt(s).value) == DeclId(s)
    ensures DeclId(s).Some? ==> PropStmt(s).value.line.rel == s.line.rel
  {
    PropExprs(s);
    PropDecl(s);
    hide Exprs, PropStmt, PropSlot, Done, DeclId;
    forall j | 0 <= j < |Exprs(s)| ensures Done(Exprs(PropStmt(s).value)[j], keys) {
      PropDone(Exprs(s)[j], keys);
    }
  }

  lemma PropDecl(s: Stmt)
    requires PropStmt(s).Ok?
    ensures DeclId(PropStmt(s).value) == DeclId(s)
    ensures DeclId(s).Some? ==> PropStmt(s).value.line.rel == s.line.rel
  {
    hide PropSlot;
  }

  ghost predicate Propped(p: seq<Stmt>, q: seq<Stmt>) {
    |p| == |q| && forall k :: 0 <= k < |p| ==> PropStmt(p[k]) == Ok(q[k])
  }

  lemma PropPass(p: seq<Stmt>, q: seq<Stmt>, inputs: map<Name, int>)
    requires Propped(p, q)
    ensures SameDecls(p, q) && (Settled(p, inputs) ==> Settled(q, inputs))
    ensures AllDone(p, inputs.Keys) ==> AllDone(q, inputs.Keys)
  {
    hide PropStmt, DeclId, DoneStmt;
    forall k | 0 <= k < |p|
      ensures DeclId(q[k]) == DeclId(p[k]) && (SettledStmt(p[k], inputs) ==> SettledStmt(q[k], inputs))
      ensures DoneStmt(p[k], inputs.Keys) ==> DoneStmt(q[k], inputs.Keys)
    {
      assert PropStmt(p[k]) == Ok(q[k]);
      PropDecl(p[k]);
      if DoneStmt(p[k], inputs.Keys) { PropStmtDone(p[k], inputs.Keys); }
    }
  }

  lemma PropPassSame(p: seq<Stmt>, q: seq<Stmt>, consts: map<Name, int>, first: set<Name>)
    requires Propped(p, q) && CleanProg(p, consts.Keys, first)
    ensures SameProg(p, q, consts) && CleanProg(q, consts.Keys, first)
  {
    hide PropStmt, SameStmt, CleanStmt;
    forall k | 0 <= k < |p| ensures SameStmt(p[k], q[k], consts) && CleanStmt(q[k], consts.Keys, first) {
      assert PropStmt(p[k]) == Ok(q[k]);
      PropStmtSame(p[k], consts, consts.Keys, first);
    }
  }

  lemma {:induction false} PropPassIds(p: seq<Stmt>, q: seq<Stmt>)
    requires Propped(p, q)
    ensures ProgIds(q) <= ProgIds(p)
  {
    if |p| > 0 {
      var n := |p| - 1;
      PropPassIds(p[..n], q[..n]);
      assert PropStmt(p[n]) == Ok(q[n]);
      PropStmtIds(p[n]);
      hide PropStmt, Exprs, ExprsIds;
    }
  }

  lemma PropStmtIds(s: Stmt)
    requires PropStmt(s).Ok?
    ensures ExprsIds(Exprs(PropStmt(s).value)) <= ExprsIds(Exprs(s))
  {
    var t := PropStmt(s).value;
    PropExprs(s);
    hide PropSlot, Ids, ExprsIds, PropStmt, Exprs;
    forall k | 0 <= k < |Exprs(s)| ensures Ids(Exprs(t)[k]) <= Ids(Exprs(s)[k]) {
      PropIds(Exprs(s)[k]);
    }
    ExprsIdsLess(Exprs(s), Exprs(t));
  }

  // ---------- the fixpoint ----------

  /** Every name has one reading: declared names are declared once and are no inputs,
      and all expressions are clean for inputs and declared names together. */
  ghost predicate WellNamed(prog: seq<Stmt>, inputs: map<Name, int>) {
    && Distinct(prog) && DeclNames(prog) !! inputs.Keys
    && CleanProg(prog, inputs.Keys + DeclNames(prog), inputs.Keys)
  }

  /** What the passes have done so far to a well-named program. */
  ghost predicate Reached(prog: seq<Stmt>, inputs: map<Name, int>, now: seq<Stmt>, known: map<Name, int>) {
    && SameDecls(prog, now) && Settled(now, known)
    && SubMap(inputs, known) && known.Keys <= inputs.Keys + DeclNames(prog) && Taught(prog, now, known)
    && forall consts: map<Name, int> :: SubMap(known, consts) && consts.Keys <= inputs.Keys + DeclNames(prog) ==>
         SameProg(prog, now, consts) && CleanProg(now, consts.Keys, inputs.Keys)
  }

  lemma {:induction false} CleanFewer(e: Expr, keys: set<Name>, fewer: set<Name>, first: set<Name>)
    requires Clean(e, keys, first) && fewer <= keys
    ensures Clean(e, fewer, first)
  {
    match e
    case Int(_) =>
    case Id(_) =>
    case Neg(x) => CleanFewer(x, keys, fewer, first);
    case Bin(_, l, r) => CleanFewer(l, keys, fewer, first); CleanFewer(r, keys, fewer, first);
    case For(_, lo, hi, _, body) =>
      CleanFewer(lo, keys, fewer, first);
      CleanFewer(hi, keys, fewer, first);
      CleanFewer(body, keys, fewer, first);
  }

  lemma CleanProgFewer(prog: seq<Stmt>, keys: set<Name>, fewer: set<Name>, first: set<Name>)
    requires CleanProg(prog, keys, first) && fewer <= keys
    ensures CleanProg(prog, fewer, first)
  {
    hide Clean, Exprs;
    forall k | 0 <= k < |prog| ensures CleanStmt(prog[k], fewer, first) {
      assert CleanStmt(prog[k], keys, first);
      forall j | 0 <= j < |Exprs(prog[k])| ensures Clean(Exprs(prog[k])[j], fewer, first) {
        CleanFewer(Exprs(prog[k])[j], keys, fewer, first);
      }
    }
  }

  lemma SameProgRefl(prog: seq<Stmt>, consts: map<Name, int>)
    ensures SameProg(prog, prog, consts)
  {
    hide Exprs, Skeleton, Same;
    forall k, j | 0 <= k < |prog| && 0 <= j < |Exprs(prog[k])| ensures Same(Exprs(prog[k])[j], Exprs(prog[k])[j], consts) {
      SameRefl(Exprs(prog[k])[j], consts);
    }
  }

  lemma Starts(prog: seq<Stmt>, inputs: map<Name, int>)
    requires WellNamed(prog, inputs)
    ensures Reached(prog, inputs, prog, inputs)
  {
    hide DeclId, CleanStmt, SameStmt;
    forall k | 0 <= k < |prog| ensures SettledStmt(prog[k], inputs) && TaughtBy(prog[k], prog[k], inputs) {
      if DeclId(prog[k]).Some? {
        assert DeclId(prog[k]).value in DeclNames(prog);
      }
    }
    forall consts: map<Name, int> | SubMap(inputs, consts) && consts.Keys <= inputs.Keys + DeclNames(prog)
      ensures SameProg(prog, prog, consts) && CleanProg(prog, consts.Keys, inputs.Keys)
    {
      SameProgRefl(prog, consts);
      CleanProgFewer(prog, inputs.Keys + DeclNames(prog), consts.Keys, inputs.Keys);
    }
  }

  lemma DeclsSame(p: seq<Stmt>, q: seq<Stmt>)
    requires SameDecls(p, q)
    ensures DeclNames(q) == DeclNames(p) && (Distinct(p) ==> Distinct(q))
  {
    hide DeclId;
    forall n ensures n in DeclNames(q) <==> n in DeclNames(p) {
      if n in DeclNames(p) {
        var k :| 0 <= k < |p| && DeclId(p[k]).Some? && DeclId(p[k]).value == n;
        assert DeclId(q[k]) == DeclId(p[k]);
      }
    }
  }

  /** One round of substitution and folding. */
  lemma Continues(prog: seq<Stmt>, inputs: map<Name, int>, now: seq<Stmt>, known: map<Name, int>, next: seq<Stmt>)
    requires WellNamed(prog, inputs) && Reached(prog, inputs, now, known)
    requires Propped(SubPass(now, known).out, next)
    ensures Reached(prog, inputs, next, SubPass(now, known).inputs)
  {
    hide SubPass, DeclId, CleanProg, SameProg, DeclNames, SettledStmt, PropStmt, Distinct, Taught;
    DeclsSame(prog, now);
    PassGrows(now, known);
    var p := SubPass(now, known);
    PropPass(p.out, next, p.inputs);
    PassTeaches(prog, now, known);
    PropTeaches(prog, p.out, next, p.inputs);
    forall consts: map<Name, int> | SubMap(p.inputs, consts) && consts.Keys <= inputs.Keys + DeclNames(prog)
      ensures SameProg(prog, next, consts) && CleanProg(next, consts.Keys, inputs.Keys)
    {
      assert SubMap(known, consts);
      PassSame(now, known, consts, inputs.Keys);
      PropPassSame(p.out, next, consts, inputs.Keys);
      SameProgTrans(prog, now, p.out, consts);
      SameProgTrans(prog, p.out, next, consts);
    }
  }

  // ---------- what is learned ----------

  /** Of a statement as it was and as it is now: the name that it declares is a constant if
      and only if its expression has become a number, and then it is that number. */
  predicate TaughtBy(s: Stmt, now: Stmt, known: map<Name, int>) {
    DeclId(s).Some? ==>
      && DeclId(now) == DeclId(s)
      && (DeclId(s).value in known <==> !s.line.rel.e.Int? && now.line.rel.e.Int?)
      && (DeclId(s).value in known ==> now.line.rel.e == Int(known[DeclId(s).value]))
      && (s.line.rel.e.Int? ==> now.line.rel.e == s.line.rel.e)
  }

  ghost predicate Taught(prog: seq<Stmt>, now: seq<Stmt>, known: map<Name, int>) {
    |now| == |prog| && forall k :: 0 <= k < |prog| ==> TaughtBy(prog[k], now[k], known)
  }

  /** One statement's step, from constants among which its name is as before. */
  lemma StepTeaches(s: Stmt, now: Stmt, before: map<Name, int>, inputs: map<Name, int>)
    requires TaughtBy(s, now, before) && (DeclId(s).Some? ==> SameAt(DeclId(s).value, before, inputs))
    ensures TaughtBy(s, SubStmt(now, inputs), Learn(now, inputs))
  {
    SubDecl(now, inputs);
  }

  ghost predicate SameAt(n: Name, a: map<Name, int>, b: map<Name, int>) {
    (n in a <==> n in b) && (n in a ==> a[n] == b[n])
  }

  lemma OtherStays(s: Stmt, now: Stmt, inputs: map<Name, int>, last: Stmt)
    requires TaughtBy(s, now, inputs)
    requires DeclId(s).Some? && DeclId(last).Some? ==> DeclId(last) != DeclId(s)
    ensures TaughtBy(s, now, Learn(last, inputs))
  {
    SubDecl(last, inputs);
  }

  lemma {:induction false} PassTeaches(prog: seq<Stmt>, now: seq<Stmt>, known: map<Name, int>)
    requires Taught(prog, now, known) && SameDecls(prog, now) && Distinct(now) && Settled(now, known)
    ensures Taught(prog, SubPass(now, known).out, SubPass(now, known).inputs)
  {
    hide SubStmt, Learn, Learns, DeclId, StmtFinds, TaughtBy;
    if |now| > 0 {
      var n := |now| - 1;
      var p := SubPass(now[..n], known);
      assert forall k :: 0 <= k < n ==> now[..n][k] == now[k] && prog[..n][k] == prog[k];
      PassTeaches(prog[..n], now[..n], known);
      PassGrows(now[..n], known);
      LastUnlearned(now, known);
      StepTeaches(prog[n], now[n], known, p.inputs);
      forall k | 0 <= k < n ensures TaughtBy(prog[k], SubPass(now, known).out[k], SubPass(now, known).inputs) {
        assert TaughtBy(prog[..n][k], p.out[k], p.inputs);
        OtherStays(prog[k], p.out[k], p.inputs, now[n]);
      }
    }
  }

  lemma LastUnlearned(now: seq<Stmt>, known: map<Name, int>)
    requires |now| > 0 && Distinct(now) && Settled(now, known)
    ensures var n := |now| - 1;
      DeclId(now[n]).Some? ==> SameAt(DeclId(now[n]).value, known, SubPass(now[..n], known).inputs)
  {
    hide SubPass, DeclId, StmtFinds;
    var n := |now| - 1;
    assert forall k :: 0 <= k < n ==> now[..n][k] == now[k];
    PassGrows(now[..n], known);
    if DeclId(now[n]).Some? {
      forall k | 0 <= k < n && DeclId(now[k]).Some? ensures DeclId(now[k]) != DeclId(now[n]) {}
      assert DeclId(now[n]).value !in DeclNames(now[..n]);
    }
  }

  lemma PropTeaches(prog: seq<Stmt>, p: seq<Stmt>, q: seq<Stmt>, known: map<Name, int>)
    requires Taught(prog, p, known) && Propped(p, q)
    ensures Taught(prog, q, known)
  {
    hide PropStmt;
    forall k | 0 <= k < |prog| ensures TaughtBy(prog[k], q[k], known) {
      assert TaughtBy(prog[k], p[k], known) && PropStmt(p[k]) == Ok(q[k]);
      PropDecl(p[k]);
    }
  }

  // ---------- when folding fails ----------

  lemma {:induction false} EmptyEval(e: Expr)
    requires !HasFor(e)
    ensures TypeOf(e, EMPTY) == Ok(INT) || TypeOf(e, EMPTY) == OutOfRange
    ensures Eval(e, EMPTY).Ok? || Eval(e, EMPTY) == OutOfRange
  {
    match e
    case Int(_) =>
    case Id(_) =>
    case Neg(x) => EmptyEval(x);
    case Bin(_, l, r) => EmptyEval(l); EmptyEval(r);
  }

  /** Folding fails exactly on expressions with a loop in them. */
  lemma {:induction false} PropSlotIff(e: Expr)
    ensures PropSlot(e).Ok? <==> !HasFor(e)
    ensures PropSlot(e).Ok? ==> !HasFor(PropSlot(e).value)
    decreases e
  {
    if !HasFor(e) { EmptyEval(e); }
    if Eval(e, EMPTY).Ok? { FE.ClosedEval(e, NO_SUBS, EMPTY); }
    match e
    case Int(_) =>
    case Id(_) =>
    case Neg(x) => PropSlotIff(x);
    case Bin(_, l, r) => PropSlotIff(l); PropSlotIff(r);
    case For(_, _, _, _, _) =>
  }

  /** So visiting an expression fails exactly on those with a loop in one of their parts. */
  lemma PropVisitIff(e: Expr)
    ensures PropVisit(e).Ok? <==>
      match e
      case Int(_) => true
      case Id(_) => true
      case Neg(x) => !HasFor(x)
      case Bin(_, l, r) => !HasFor(l) && !HasFor(r)
      case For(_, lo, hi, _, body) => !HasFor(lo) && !HasFor(hi) && !HasFor(body)
  {
    hide PropSlot, HasFor;
    match e
    case Int(_) =>
    case Id(_) =>
    case Neg(x) => PropSlotIff(x);
    case Bin(_, l, r) => PropSlotIff(l); PropSlotIff(r);
    case For(_, lo, hi, _, body) => PropSlotIff(lo); PropSlotIff(hi); PropSlotIff(body);
  }

  /** Nothing is left to compute: no operation on literals only. */
  predicate Reduced(e: Expr) {
    match e
    case Int(_) => true
    case Id(_) => true
    case Neg(x) => !FE.Closed(e) && Reduced(x)
    case Bin(_, l, r) => !FE.Closed(e) && Reduced(l) && Reduced(r)
    case For(_, lo, hi, _, body) => Reduced(lo) && Reduced(hi) && Reduced(body)
  }

  /** Folding turns sums, differences and products of literals into their values, and
      leaves nothing else to compute. */
  lemma {:induction false} PropReduces(e: Expr)
    requires !HasFor(e)
    ensures PropSlot(e).Ok? && Reduced(PropSlot(e).value)
    ensures FE.Closed(e) ==> Eval(e, EMPTY).Ok? && PropSlot(e) == Ok(Int(Eval(e, EMPTY).value))
    ensures !FE.Closed(e) ==> !FE.Closed(PropSlot(e).value)
    decreases e
  {
    FE.ClosedIff(e);
    PropSlotIff(e);
    EmptyEval(e);
    match e
    case Int(_) =>
    case Id(_) =>
    case Neg(x) => PropReduces(x);
    case Bin(_, l, r) =>
      PropReduces(l);
      PropReduces(r);
  }

  /** No loop within the bounds that folding reaches. */
  predicate BoundsLoopFree(s: Stmt) {
    match s
    case DeclIDRange(_, lo, hi) => !HasFor(lo) && !HasFor(hi)
    case Rel(ForRel(_, lo, hi, _)) => !HasFor(lo) && !HasFor(hi)
    case _ => true
  }

  lemma {:induction false} SubHasFor(e: Expr, inputs: map<Name, int>)
    ensures HasFor(SubExpr(e, inputs)) <==> HasFor(e)
  {
    match e
    case Int(_) =>
    case Id(_) =>
    case Neg(x) => SubHasFor(x, inputs);
    case Bin(_, l, r) => SubHasFor(l, inputs); SubHasFor(r, inputs);
    case For(_, _, _, _, _) =>
  }

  lemma PropStmtIff(s: Stmt, inputs: map<Name, int>)
    ensures PropStmt(s).Ok? <==> BoundsLoopFree(s)
    ensures PropStmt(s).Ok? ==> BoundsLoopFree(PropStmt(s).value)
    ensures BoundsLoopFree(SubStmt(s, inputs)) <==> BoundsLoopFree(s)
  {
    hide PropSlot, SubExpr, HasFor;
    match s
    case DeclIDRange(_, lo, hi) =>
      PropSlotIff(lo); PropSlotIff(hi); SubHasFor(lo, inputs); SubHasFor(hi, inputs);
    case Rel(ForRel(_, lo, hi, _)) =>
      PropSlotIff(lo); PropSlotIff(hi); SubHasFor(lo, inputs); SubHasFor(hi, inputs);
    case _ =>
  }

  ghost predicate LoopFreeBounds(prog: seq<Stmt>) {
    forall k :: 0 <= k < |prog| ==> BoundsLoopFree(prog[k])
  }

  lemma {:induction false} PassLoopFree(prog: seq<Stmt>, inputs: map<Name, int>)
    ensures LoopFreeBounds(SubPass(prog, inputs).out) <==> LoopFreeBounds(prog)
  {
    hide SubStmt, BoundsLoopFree, Learn, StmtFinds;
    if |prog| > 0 {
      var n := |prog| - 1;
      var p := SubPass(prog[..n], inputs);
      var out := SubPass(prog, inputs).out;
      PassLoopFree(prog[..n], inputs);
      PropStmtIff(prog[n], p.inputs);
      assert out[n] == SubStmt(prog[n], p.inputs);
      assert forall k :: 0 <= k < n ==> out[k] == p.out[k] && prog[..n][k] == prog[k];
    }
  }

  lemma PropsIff(prog: seq<Stmt>)
    ensures (forall k :: 0 <= k < |prog| ==> PropStmt(prog[k]).Ok?) <==> LoopFreeBounds(prog)
  {
    hide PropStmt, BoundsLoopFree;
    forall k | 0 <= k < |prog| ensures PropStmt(prog[k]).Ok? <==> BoundsLoopFree(prog[k]) {
      PropStmtIff(prog[k], NO_SUBS);
    }
  }

  lemma ProppedLoopFree(p: seq<Stmt>, q: seq<Stmt>)
    requires Propped(p, q)
    ensures LoopFreeBounds(p) && LoopFreeBounds(q)
  {
    hide PropStmt, BoundsLoopFree;
    forall k | 0 <= k < |p| ensures BoundsLoopFree(p[k]) && BoundsLoopFree(q[k]) {
      assert PropStmt(p[k]) == Ok(q[k]);
      PropStmtIff(p[k], NO_SUBS);
    }
  }

  /** The bounds that folding reaches have nothing left to compute. */
  predicate ReducedStmt(s: Stmt) {
    match s
    case DeclIDRange(_, lo, hi) => Reduced(lo) && Reduced(hi)
    case Rel(ForRel(_, lo, hi, _)) => Reduced(lo) && Reduced(hi)
    case _ => true
  }

  ghost predicate AllReduced(prog: seq<Stmt>) {
    forall k :: 0 <= k < |prog| ==> ReducedStmt(prog[k])
  }

  lemma PropStmtReduces(s: Stmt)
    requires PropStmt(s).Ok?
    ensures ReducedStmt(PropStmt(s).value)
  {
    hide PropSlot, HasFor, Reduced;
    PropStmtIff(s, NO_SUBS);
    match s
    case DeclIDRange(_, lo, hi) => PropReduces(lo); PropReduces(hi);
    case Rel(ForRel(_, lo, hi, _)) => PropReduces(lo); PropReduces(hi);
    case _ =>
  }

  lemma ProppedReduced(p: seq<Stmt>, q: seq<Stmt>)
    requires Propped(p, q)
    ensures AllReduced(q)
  {
    hide PropStmt, ReducedStmt;
    forall k | 0 <= k < |q| ensures ReducedStmt(q[k]) {
      assert PropStmt(p[k]) == Ok(q[k]);
      PropStmtReduces(p[k]);
    }
  }

  /** The loop of Interpreter::check: it ends for every program. Of a well-named
      program it preserves the meaning of every expression in every environment that
      extends the inputs and what `x := c` adds to them, learns exactly the declared names
      whose expressions become numbers, and leaves nothing to substitute. */
  method Check(prog: seq<Stmt>, inputs: map<Name, int>) returns (r: Result<seq<Stmt>>, known: map<Name, int>)
    ensures r.Ok? <==> LoopFreeBounds(prog)
    ensures WellNamed(prog, inputs) ==> SubMap(inputs, known) && known.Keys <= inputs.Keys + DeclNames(prog)
    ensures WellNamed(prog, inputs) && r.Ok? ==>
      SameProg(prog, r.value, known) && CleanProg(r.value, known.Keys, inputs.Keys) && Taught(prog, r.value, known)
    ensures r.Ok? ==> AllDone(r.value, known.Keys) && AllReduced(r.value)
  {
    hide WellNamed, SubPass, SameProg, CleanProg, AllDone, Taught, PropStmt, DeclNames, LoopFreeBounds, AllReduced;
    if WellNamed(prog, inputs) { Starts(prog, inputs); }
    var sub := new ConstantSub(inputs);
    var prop := new ConstantProp();
    var n := prog;
    while prop.newConstant || sub.newConstant
      invariant WellNamed(prog, inputs) ==> Reached(prog, inputs, n, sub.inputs)
      invariant LoopFreeBounds(n) <==> LoopFreeBounds(prog)
      invariant prop.newConstant || sub.newConstant || (AllDone(n, sub.inputs.Keys) && LoopFreeBounds(n) && AllReduced(n))
      modifies sub, prop
      decreases ProgIds(n) + if prop.newConstant || sub.newConstant then 1 else 0
    {
      sub.Reset();
      ghost var before := sub.inputs;
      var substituted := sub.Apply(n);
      prop.Reset();
      PassIds(n, before);
      if !sub.newConstant { QuietPass(n, before); }
      var folded := prop.Apply(substituted);
      known := sub.inputs;
      PassLoopFree(n, before);
      PropsIff(substituted);
      if WellNamed(prog, inputs) && folded.IsFailure() { StillNamed(prog, inputs, n, before); }
      var next :- folded;
      PropPassIds(substituted, next);
      PropPass(substituted, next, sub.inputs);
      ProppedLoopFree(substituted, next);
      ProppedReduced(substituted, next);
      if WellNamed(prog, inputs) { Continues(prog, inputs, n, before, next); }
      n := next;
    }
    known := sub.inputs;
    return Ok(n), known;
  }

  lemma StillNamed(prog: seq<Stmt>, inputs: map<Name, int>, now: seq<Stmt>, known: map<Name, int>)
    requires WellNamed(prog, inputs) && Reached(prog, inputs, now, known)
    ensures var p := SubPass(now, known); SubMap(inputs, p.inputs) && p.inputs.Keys <= inputs.Keys + DeclNames(prog)
  {
    hide SubPass, DeclId, CleanProg, SameProg, DeclNames, SettledStmt, Distinct;
    DeclsSame(prog, now);
    PassGrows(now, known);
  }

  /** From an expression of the program to what the code computes: an expression with a
      meaning, substituted and folded, expands exactly when the bounds of its loops are
      indices in scope or arithmetic on literals, and then evaluates to the meaning. */
  lemma CompiledMeaning(e: Expr, f: Expr, consts: map<Name, int>, first: set<Name>, all: set<Name>, env: Env)
    requires Same(e, f, consts) && Done(f, consts.Keys) && Clean(f, consts.Keys, first)
    requires Holds(env, consts) && FE.NoGroupIsNull(env)
    requires FE.Scoped(f, {}, all) && Den(e, consts, env).Some?
    ensures FE.Expanded(f, NO_SUBS).Ok? <==> FE.HasBounds(f, {})
    ensures FE.HasBounds(f, {}) ==>
      var g := FE.Expanded(f, NO_SUBS).value;
      !HasFor(g) && TypeOf(g, env) == Ok(Den(e, consts, env).value.info)
      && Eval(g, env) == Ok(Den(e, consts, env).value.v)
  {
    hide Den, Eval, TypeOf, HasFor, Done, Clean, FE.Expanded, FE.Scoped, FE.HasBounds, Holds;
    assert Extends(consts, consts);
    assert Den(f, consts, env) == Den(e, consts, env);
    assert consts + NO_SUBS == consts && NO_SUBS.Keys == {};
    DoneMeaning(f, consts, first, NO_SUBS, env);
    FE.ExpandsIff(f, NO_SUBS, env);
    if FE.HasBounds(f, {}) {
      FE.ExpandedMeaning(f, NO_SUBS, all, env);
      DenIsEval(FE.Expanded(f, NO_SUBS).value, env);
    }
  }
}
