/** Laws of the operations on values with types: differences undo sums, quotients undo
    products, and powers of one base multiply by adding their exponents. */
module Evaluation {
  import opened Arithmetic
  import opened Ast
  import opened ModExp
  import FE = ForExpander
  import G = Group

  /** Division of integers leaves a remainder smaller than the divisor, with the sign of
      the dividend. */
  lemma QuotTruncates(a: int, b: int)
    requires b != 0
    ensures var r := a - Quot(a, b) * b;
      (if 0 < b then -b < r < b else b < r < -b) && (r == 0 || (r < 0 <==> a < 0))
  {
    var c, d := if 0 <= a then a else -a, if 0 < b then b else -b;
    assert c == c / d * d + c % d;
    SignsMove(c / d, d);
  }

  lemma SignsMove(q: int, d: int)
    ensures -q * d == -(q * d) && q * -d == -(q * d) && -q * -d == q * d
  {
  }

  lemma QuotExact(a: int, b: int)
    requires b != 0
    ensures Quot(a * b, b) == a
  {
    QuotTruncates(a * b, b);
    var q := Quot(a * b, b);
    assert a * b - q * b == (a - q) * b;
    hide Quot;
    if a != q { Multiple(a - q, b); }
  }

  lemma Multiple(k: int, b: int)
    requires k != 0 && b != 0
    ensures if 0 < b then k * b <= -b || b <= k * b else k * b <= b || -b <= k * b
  {
    if 0 < b {
      if 0 < k { MulMono(1, k, b); } else { MulMono(k, -1, b); }
    } else {
      SignsMove(k, b);
      if 0 < k { MulMono(1, k, -b); } else { MulMono(k, -1, -b); }
    }
  }

  /** A difference undoes a sum, up to the modulus of the sum's type. */
  lemma DifferenceUndoesSum(x: Option<Value>, y: Option<Value>, env: Env)
    requires Regular(x) && Regular(y) && FE.NoGroupIsNull(env) && Lift(Add, x, y, env).Some?
    ensures var s := Lift(Add, x, y, env);
      Lift(Subtract, s, y, env) == Some(Value(s.value.info, FE.Reduce(x.value.v, FE.ModulusOf(s.value.info, env))))
  {
    FE.LiftIs(Add, x, y, env);
    var s := Lift(Add, x, y, env);
    var m, a, b := FE.ModulusOf(s.value.info, env), x.value.v, y.value.v;
    if 0 < m {
      CongMod(a + b, m);
      CongAdd((a + b) % m, a + b, -b, -b, m);
    }
  }

  /** The order that exponents of a group are inverted by, 0 when there is none. */
  function OrderOf(t: VarInfo, env: Env): int {
    if t.kind == EXPONENT && t.group in env.groups && env.groups[t.group] != NullGroup && 1 < env.groups[t.group].order
    then env.groups[t.group].order else 0
  }

  predicate OverIntegers(t: VarInfo, env: Env) {
    t.kind != ELEMENT && t.group in env.groups && env.groups[t.group] == NullGroup
  }

  /** A quotient undoes a product: exactly over the integers, where only 0 does not divide;
      for exponents modulo the group's order, if that is known, and for elements modulo the
      modulus, by what is invertible there. */
  lemma QuotientUndoesProduct(x: Option<Value>, y: Option<Value>, env: Env)
    requires Regular(x) && Regular(y) && FE.NoGroupIsNull(env) && Lift(Mul, x, y, env).Some?
    ensures var p := Lift(Mul, x, y, env);
      var t, b, q := p.value.info, y.value.v, Lift(Div, p, y, env);
      && (q.Some? <==> if OverIntegers(t, env) then b != 0 else t.kind == EXPONENT ==> 1 < OrderOf(t, env))
      && (OverIntegers(t, env) ==> q == if b == 0 then None else Some(Value(t, x.value.v)))
      && (1 < OrderOf(t, env) && Unit(b, OrderOf(t, env)) ==>
            q.Some? && q.value.info == t && Cong(q.value.v, x.value.v, OrderOf(t, env)))
      && (1 < FE.ModulusOf(t, env) && Unit(b, FE.ModulusOf(t, env)) ==>
            q == Some(Value(t, x.value.v % FE.ModulusOf(t, env))))
  {
    FE.LiftIs(Mul, x, y, env);
    var p := Lift(Mul, x, y, env);
    var t, a, b := p.value.info, x.value.v, y.value.v;
    var m, n := FE.ModulusOf(t, env), OrderOf(t, env);
    if b != 0 { QuotExact(a, b); }
    if 1 < n && Unit(b, n) { DivideBack(a, b, n); }
    if 1 < m && Unit(b, m) { DivideBack(a, b, m); }
    hide Quot, InvMod, Unit, Cong, PowerMod;
  }

  lemma DivideBack(a: int, b: int, m: int)
    requires 1 < m && Unit(b, m)
    ensures Cong(a * b * InvMod(b, m), a, m) && MulMod(a * b % m, InvMod(b, m), m) == a % m
  {
    var c := InvMod(b, m);
    G.UnitInverse(b, m);
    CongMul(a, a, b * c, 1, m);
    assert a * b * c == a * (b * c);
    CongMod(a * b, m);
    CongMul(a * b % m, a * b, c, c, m);
  }

  /** A power of an element is taken modulo the group's modulus and is one again; any other
      base has non-negative exponents over the integers. */
  lemma PowIs(x: Option<Value>, y: Option<Value>, env: Env)
    requires Regular(x) && Regular(y) && FE.NoGroupIsNull(env) && Lift(Pow, x, y, env).Some?
    ensures var t, u, p, m := x.value.info, y.value.info, Lift(Pow, x, y, env).value, FE.ModulusOf(x.value.info, env);
      if t.kind == ELEMENT && 1 < m then u.kind != ELEMENT && p == Value(t, PowerMod(x.value.v, y.value.v, m))
      else
        && 0 <= y.value.v && p.v == Arithmetic.Pow(x.value.v, y.value.v)
        && (if t.kind == INTEGER && u.kind == EXPONENT then p.info == VarInfo(u.group, ELEMENT)
            else p.info == t && u.kind != ELEMENT && (t.kind == ELEMENT || u == INT))
  {
    hide Arithmetic.Pow, PowerMod, InvMod, Quot, MulMod;
  }

  /** When a power has a value: elements have any exponents in a group with a modulus, and
      all other bases those that a long holds; an exponent is only raised to integers. */
  lemma PowerHasValueIff(x: Option<Value>, y: Option<Value>, env: Env)
    requires Regular(x) && Regular(y) && FE.NoGroupIsNull(env)
    ensures var t, u, e := x.value.info, y.value.info, y.value.v;
      Lift(Pow, x, y, env).Some? <==>
        && t.group in env.groups && u.kind != ELEMENT && (t.kind == EXPONENT ==> u.kind == INTEGER)
        && (if t.kind == ELEMENT && env.groups[t.group] != NullGroup then 1 < env.groups[t.group].modulus
            else 0 <= e < 0x8000_0000_0000_0000)
  {
    hide Arithmetic.Pow, PowerMod, InvMod, Quot, MulMod;
  }

  lemma PowersReduced(a: int, e: int, f: int, m: int)
    requires 0 <= e && 0 <= f
    ensures FE.Reduce(FE.Reduce(Arithmetic.Pow(a, e) * Arithmetic.Pow(a, f), m), m) == FE.Reduce(Arithmetic.Pow(a, e + f), m)
  {
    PowAdd(a, e, f);
    if 0 < m { CongMod(Arithmetic.Pow(a, e + f), m); }
  }

  /** Powers of one base multiply by adding their exponents: with the same type, and the
      same value modulo the modulus of that type. */
  lemma PowersMultiply(x: Option<Value>, y: Option<Value>, z: Option<Value>, env: Env)
    requires Regular(x) && Regular(y) && Regular(z) && FE.NoGroupIsNull(env)
    requires Lift(Pow, x, y, env).Some? && Lift(Pow, x, z, env).Some? && Lift(Add, y, z, env).Some?
    requires var p, q := Lift(Mul, Lift(Pow, x, y, env), Lift(Pow, x, z, env), env), Lift(Pow, x, Lift(Add, y, z, env), env);
      p.Some? && q.Some?
    requires var m := FE.ModulusOf(x.value.info, env); 1 < m ==> Unit(x.value.v, m)
    ensures var p, q := Lift(Mul, Lift(Pow, x, y, env), Lift(Pow, x, z, env), env).value, Lift(Pow, x, Lift(Add, y, z, env), env).value;
      var m := FE.ModulusOf(p.info, env);
      p.info == q.info && FE.Reduce(p.v, m) == FE.Reduce(q.v, m)
  {
    hide Lift, PowType, FE.ModulusOf, FE.Fits, FE.Reduce, FE.NoGroupIsNull, Arithmetic.Pow, PowerMod, Unit;
    var a, e, f := x.value.v, y.value.v, z.value.v;
    var m, s := FE.ModulusOf(x.value.info, env), Lift(Add, y, z, env);
    var u, v := Lift(Pow, x, y, env), Lift(Pow, x, z, env);
    SumIs(y, z, env);
    PowIs(x, y, env);
    PowIs(x, z, env);
    PowIs(x, s, env);
    FE.LiftIs(Mul, u, v, env);
    var n := FE.ModulusOf(Lift(Pow, x, s, env).value.info, env);
    if x.value.info.kind == ELEMENT && 1 < m {
      G.PowerAdd(a, e, f, m);
      ReducedOnce(PowerMod(a, e, m) * PowerMod(a, f, m), m);
    } else {
      PowersReduced(a, e, f, n);
    }
  }

  /** Exponents add up without being reduced. */
  lemma SumIs(y: Option<Value>, z: Option<Value>, env: Env)
    requires Regular(y) && Regular(z) && FE.NoGroupIsNull(env) && Lift(Add, y, z, env).Some?
    ensures var s := Lift(Add, y, z, env);
      && Regular(s) && JoinTypes(y.value.info, z.value.info) == Ok(s.value.info)
      && (s.value.info.kind != ELEMENT ==> s.value.v == y.value.v + z.value.v)
  {
    FE.LiftIs(Add, y, z, env);
  }

  lemma ReducedOnce(v: int, m: int)
    requires 1 < m
    ensures FE.Reduce(FE.Reduce(v, m), m) == v % m == FE.Reduce(v % m, m)
  {
    CongMod(v, m);
  }
}
