/** Expressions of the proof language: names, types, the evaluation of the code,
    and the meaning of loops, which the code cannot evaluate before expanding them. */
module Ast {
  import opened ModExp
  import Arithmetic

  // ---------- names and expressions ----------

  /** A subscript: none, an identifier such as the i of x_i, or a number. */
  datatype Sub = NoSub | Var(id: string) | Num(n: int)

  datatype Name = Name(base: string, sub: Sub)

  datatype Op = Add | Subtract | Mul | Div | Pow

  datatype Expr =
    | Int(v: int)
    | Id(name: Name)
    | Neg(e: Expr)
    | Bin(op: Op, lhs: Expr, rhs: Expr)
    | For(index: string, lo: Expr, hi: Expr, loopOp: Op, body: Expr)

  /** How the code can fail: an exception of a map lookup, any other exception, or
      behaviour that the language leaves undefined. */
  datatype Result<+T> = Ok(value: T) | OutOfRange | CashError | Undefined {
    predicate IsFailure() { !Ok? }

    function PropagateFailure<U>(): Result<U>
      requires IsFailure()
    {
      match this
      case OutOfRange => OutOfRange
      case CashError => CashError
      case Undefined => Undefined
    }

    function Extract(): T
      requires !IsFailure()
    {
      value
    }
  }

  predicate HasFor(e: Expr) {
    match e
    case Int(_) => false
    case Id(_) => false
    case Neg(x) => HasFor(x)
    case Bin(_, l, r) => HasFor(l) || HasFor(r)
    case For(_, _, _, _, _) => true
  }

  /** A relation, in a computation or in a proof. */
  datatype Relation =
    | Equal(id: Name, e: Expr)
    | DeclEqual(id: Name, e: Expr)
    | Commitment(coms: seq<Name>, id: Name, e: Expr)
    | Range(group: string, lower: Expr, lowerStrict: bool, center: Expr, upperStrict: bool, upper: Expr)

  /** A relation of a list, possibly for every value of an index. */
  datatype Line = Single(rel: Relation) | ForRel(index: string, lo: Expr, hi: Expr, rel: Relation)

  // ---------- environments ----------

  datatype Kind = ELEMENT | EXPONENT | INTEGER | MODULUS

  datatype VarInfo = VarInfo(group: string, kind: Kind)

  const NO_GROUP: string := ""

  const INT: VarInfo := VarInfo(NO_GROUP, INTEGER)

  /** A group as evaluation sees it; the null pointer stands for no group. */
  datatype Group = NullGroup | PrimeOrder(modulus: int, order: int) | Rsa(modulus: int, order: int)

  datatype Env = Env(variables: map<Name, int>, types: map<Name, VarInfo>, groups: map<string, Group>)

  /** The environment of constant folding, which knows nothing. */
  const EMPTY: Env := Env(map[], map[], map[])

  function At<K, V>(m: map<K, V>, k: K): Result<V> {
    if k in m then Ok(m[k]) else OutOfRange
  }

  // ---------- types ----------

  /** The type of a sum, difference, product or quotient. */
  function JoinTypes(l: VarInfo, r: VarInfo): Result<VarInfo> {
    if l.kind == INTEGER || l.kind == MODULUS then Ok(r)
    else if r.kind == INTEGER || r.kind == MODULUS then Ok(l)
    else if l == r then Ok(l)
    else CashError
  }

  function PowType(l: VarInfo, r: VarInfo): Result<VarInfo> {
    if l.kind == ELEMENT && r.kind != ELEMENT then Ok(l)
    else if l.kind == EXPONENT && r.kind == INTEGER then Ok(l)
    else if l.kind == INTEGER && r.kind == EXPONENT then Ok(VarInfo(r.group, ELEMENT))
    else if l.kind == INTEGER && r.kind == INTEGER then Ok(l)
    else CashError
  }

  function BinType(op: Op, l: VarInfo, r: VarInfo): Result<VarInfo> {
    if op == Pow then PowType(l, r) else JoinTypes(l, r)
  }

  /** getExprType. A loop below an operator fails when the operand's text is asked
      for, which comes first. */
  function TypeOf(e: Expr, env: Env): Result<VarInfo> {
    match e
    case Int(_) => Ok(INT)
    case Id(n) => At(env.types, n)
    case Neg(x) => if HasFor(x) then CashError else TypeOf(x, env)
    case Bin(op, l, r) =>
      if HasFor(l) then CashError else
      var tl :- TypeOf(l, env);
      if HasFor(r) then CashError else
      var tr :- TypeOf(r, env);
      BinType(op, tl, tr)
    case For(_, _, _, _, _) => CashError
  }

  // ---------- evaluation ----------

  /** The group of an operation on two types: the left one unless it is null. */
  function GroupOf(l: VarInfo, r: VarInfo, env: Env): Result<Group> {
    var lg :- At(env.groups, l.group);
    var rg :- At(env.groups, r.group);
    Ok(if lg != NullGroup then lg else rg)
  }

  predicate OnElements(l: VarInfo, r: VarInfo) {
    l.kind == ELEMENT || r.kind == ELEMENT
  }

  /** The group an operation has to look up before it evaluates its operands. */
  function NeededGroup(op: Op, l: VarInfo, r: VarInfo, env: Env): Result<Group> {
    match op
    case Pow => At(env.groups, l.group)
    case Div => GroupOf(l, r, env)
    case _ => if OnElements(l, r) then GroupOf(l, r, env) else Ok(NullGroup)
  }

  predicate HasModulus(g: Group) {
    g != NullGroup && 1 < g.modulus
  }

  /** Division of integers, towards zero. */
  function Quot(a: int, b: int): int
    requires b != 0
  {
    if (0 <= a) == (0 < b) then (if 0 <= a then a else -a) / (if 0 < b then b else -b)
    else -((if 0 <= a then a else -a) / (if 0 < b then b else -b))
  }

  predicate FitsLong(v: int) {
    -0x8000_0000_0000_0000 <= v < 0x8000_0000_0000_0000
  }

  /** One operation on evaluated operands, given their types and its group. */
  function Compute(op: Op, l: VarInfo, r: VarInfo, g: Group, a: int, b: int): Result<int> {
    match op
    case Add =>
      if !OnElements(l, r) then Ok(a + b)
      else if HasModulus(g) then Ok((a + b) % g.modulus) else Undefined
    case Subtract =>
      if !OnElements(l, r) then Ok(a - b)
      else if HasModulus(g) then Ok((a - b) % g.modulus) else Undefined
    case Mul =>
      if !OnElements(l, r) then Ok(a * b)
      else if HasModulus(g) then Ok(MulMod(a, b, g.modulus)) else Undefined
    case Div =>
      if g == NullGroup || l.kind == MODULUS || r.kind == MODULUS then
        (if b == 0 then Undefined else Ok(Quot(a, b)))
      else if l.kind == EXPONENT || r.kind == EXPONENT then
        if g.PrimeOrder? || g.order != 0 then
          (if 1 < g.order then Ok(a * InvMod(b, g.order)) else Undefined)
        else CashError
      else if HasModulus(g) then Ok(MulMod(a, InvMod(b, g.modulus), g.modulus)) else Undefined
    case Pow =>
      if g == NullGroup || l.kind == EXPONENT then
        (if FitsLong(b) && 0 <= b then Ok(Arithmetic.Pow(a, b)) else CashError)
      else if HasModulus(g) then Ok(PowerMod(a, b, g.modulus)) else Undefined
  }

  /** eval. A power looks only at its base's type. */
  function Eval(e: Expr, env: Env): Result<int> {
    match e
    case Int(v) => Ok(v)
    case Id(n) => At(env.variables, n)
    case Neg(x) => var a :- Eval(x, env); Ok(-a)
    case Bin(op, l, r) =>
      if HasFor(l) then CashError else
      var tl :- TypeOf(l, env);
      var tr :- if op == Pow then Ok(INT) else if HasFor(r) then CashError else TypeOf(r, env);
      var g :- NeededGroup(op, tl, tr, env);
      var a :- Eval(l, env);
      var b :- Eval(r, env);
      Compute(op, tl, tr, g, a, b)
    case For(_, _, _, _, _) => CashError
  }

  // ---------- meaning ----------

  datatype Option<+T> = None | Some(value: T)

  /** The values of constants and indices where there are none. */
  const NO_SUBS: map<Name, int> := map[]

  /** A value with its type. */
  datatype Value = Value(info: VarInfo, v: int)

  /** The name that x_i stands for once i is known. */
  function Resolve(n: Name, subs: map<Name, int>): Name {
    if n.sub.Var? && Name(n.sub.id, NoSub) in subs then Name(n.base, Num(subs[Name(n.sub.id, NoSub)]))
    else n
  }

  /** An operation on operands that have values, when its types fit. */
  function Lift(op: Op, x: Option<Value>, y: Option<Value>, env: Env): Option<Value> {
    if x.Some? && y.Some? then
      var l, r := x.value.info, y.value.info;
      var t, g := BinType(op, l, r), NeededGroup(op, l, r, env);
      if t.Ok? && g.Ok? then
        var c := Compute(op, l, r, g.value, x.value.v, y.value.v);
        if c.Ok? then Some(Value(t.value, c.value)) else None
      else None
    else None
  }

  /** The operands from left to right. */
  function FoldLeft(op: Op, items: seq<Option<Value>>, env: Env): Option<Value>
    requires |items| > 0
  {
    if |items| == 1 then items[0]
    else Lift(op, FoldLeft(op, items[..|items| - 1], env), items[|items| - 1], env)
  }

  /** A loop value that is not a bare modulus, so that types combine in any order. */
  predicate Regular(x: Option<Value>) {
    x.Some? && x.value.info.kind != MODULUS && (x.value.info.kind == INTEGER ==> x.value.info == INT)
  }

  /** Bounds that a loop over 32-bit integers can run through: not empty, not past
      the last integer, and with a length that is an integer again. */
  predicate LoopRange(lo: int, hi: int) {
    -0x8000_0000 <= lo <= hi < 0x7fff_ffff && hi - lo < 0x7fff_ffff
  }

  /** The meaning of an expression when some names stand for constants (inputs and
      loop indices): a loop is the left-to-right sum or product over its range. */
  function Den(e: Expr, subs: map<Name, int>, env: Env): Option<Value>
    decreases e, 0
  {
    match e
    case Int(v) => Some(Value(INT, v))
    case Id(n) =>
      if n in subs then Some(Value(INT, subs[n]))
      else
        var m := Resolve(n, subs);
        if m in env.variables && m in env.types then Some(Value(env.types[m], env.variables[m])) else None
    case Neg(x) =>
      var a := Den(x, subs, env);
      if a.Some? then Some(Value(a.value.info, -a.value.v)) else None
    case Bin(op, l, r) => Lift(op, Den(l, subs, env), Den(r, subs, env), env)
    case For(index, lo, hi, op, body) =>
      var a, b := Den(lo, subs, env), Den(hi, subs, env);
      if a.Some? && b.Some? && LoopRange(a.value.v, b.value.v) && (op == Add || op == Mul) then
        var items := BodyDens(index, body, a.value.v, b.value.v - a.value.v + 1, subs, env);
        if AllRegular(items) then FoldLeft(op, items, env) else None
      else None
  }

  predicate AllRegular(items: seq<Option<Value>>) {
    forall k :: 0 <= k < |items| ==> Regular(items[k])
  }

  /** The meanings of a loop body for n values of the index. */
  function BodyDens(index: string, body: Expr, lo: int, n: nat, subs: map<Name, int>, env: Env): (s: seq<Option<Value>>)
    ensures |s| == n
    decreases body, 1
  {
    seq(n, k requires 0 <= k < n => Den(body, subs[Name(index, NoSub) := lo + k], env))
  }

  /** Without constants and loops, the meaning is the type and the value that the
      code computes. */
  lemma {:induction false} DenIsEval(e: Expr, env: Env)
    requires !HasFor(e)
    ensures Den(e, NO_SUBS, env).Some? <==> TypeOf(e, env).Ok? && Eval(e, env).Ok?
    ensures Den(e, NO_SUBS, env).Some? ==>
      Den(e, NO_SUBS, env).value == Value(TypeOf(e, env).value, Eval(e, env).value)
  {
    match e
    case Int(_) =>
    case Id(_) =>
    case Neg(x) => DenIsEval(x, env);
    case Bin(op, l, r) =>
      DenIsEval(l, env);
      DenIsEval(r, env);
      PowIgnoresRight(TypeOf(l, env), TypeOf(r, env), env);
      hide Compute, NeededGroup, BinType;
  }

  lemma PowIgnoresRight(l: Result<VarInfo>, r: Result<VarInfo>, env: Env)
    ensures l.Ok? && r.Ok? ==>
      NeededGroup(Pow, l.value, r.value, env) == NeededGroup(Pow, l.value, INT, env)
    ensures l.Ok? && r.Ok? ==> forall g: Group, a: int, b: int ::
      Compute(Pow, l.value, r.value, g, a, b) == Compute(Pow, l.value, INT, g, a, b)
  {
    hide MulMod, PowerMod, InvMod, Arithmetic.Pow;
  }
}
