/** The sigma protocol for a set of discrete-log descriptions whose exponents are
    shared by name: EqualityProver, EqualityVerifier, and the randomness that
    InterpreterProver draws for them. */
module Sigma {
  import opened Arithmetic
  import opened ModExp
  import opened Group
  import opened Primes
  import Ast
  import E = Environment
  import ME = MultiExp

  /** What variables are looked up by: the text of an expression, for which the
      expression stands. */
  type Text = Ast.Expr

  /** A DLRepresentation: left = bases[0]^exps[0] * bases[1]^exps[1] * ... in the
      group. A description is stored under its own text. */
  datatype DLR = DLR(left: Text, group: string, bases: seq<Text>, exps: seq<Text>)

  /** The parts of the environment that the two parties read. */
  datatype Env = Env(
    variables: map<Text, int>,
    groups: map<string, int>,
    descriptions: map<DLR, DLR>)

  /** Every look-up in the environment that the protocol makes succeeds. */
  ghost predicate WellFormed(env: Env) {
    forall k :: k in env.descriptions ==> DLRWellFormed(env, env.descriptions[k])
  }

  ghost predicate DLRWellFormed(env: Env, d: DLR) {
    && |d.bases| == |d.exps|
    && d.group in env.groups && 1 < env.groups[d.group]
    && d.left in env.variables
    && forall i :: 0 <= i < |d.bases| ==> d.bases[i] in env.variables
  }

  /** All names of a list have a value. */
  predicate Defined(vals: map<Text, int>, names: seq<Text>) {
    forall i :: 0 <= i < |names| ==> names[i] in vals
  }

  function Lookup(vals: map<Text, int>, names: seq<Text>): (r: seq<int>)
    requires Defined(vals, names)
    ensures |r| == |names| && forall i :: 0 <= i < |r| ==> r[i] == vals[names[i]]
  {
    seq(|names|, i requires 0 <= i < |names| => vals[names[i]])
  }

  /** The value of the right-hand side of a description for given exponents. */
  ghost function Rhs(env: Env, d: DLR, exps: map<Text, int>): int
    requires DLRWellFormed(env, d) && Defined(exps, d.exps)
  {
    Product(Lookup(env.variables, d.bases), Lookup(exps, d.exps), env.groups[d.group])
  }

  /** The verifier's equation: t * left^c = the product of the bases to the responses. */
  ghost predicate Equation(env: Env, d: DLR, t: int, c: int, response: map<Text, int>)
    requires DLRWellFormed(env, d) && Defined(response, d.exps)
  {
    var m := env.groups[d.group];
    MulMod(t, PowerMod(env.variables[d.left], c, m), m) == Rhs(env, d, response)
  }

  /** The exponents open every description. */
  ghost predicate Opens(env: Env, exps: map<Text, int>)
    requires WellFormed(env)
  {
    forall k :: k in env.descriptions ==>
      var d := env.descriptions[k];
      Defined(exps, d.exps) && Cong(env.variables[d.left], Rhs(env, d, exps), env.groups[d.group])
  }

  ghost predicate AllDefined(env: Env, exps: map<Text, int>) {
    forall k :: k in env.descriptions ==> Defined(exps, env.descriptions[k].exps)
  }

  ghost predicate Accepted(env: Env, ts: map<DLR, int>, c: int, response: map<Text, int>)
    requires WellFormed(env)
  {
    && env.descriptions.Keys <= ts.Keys && AllDefined(env, response)
    && forall k :: k in env.descriptions ==> Equation(env, env.descriptions[k], ts[k], c, response)
  }

  /** The bases and left-hand sides of every description are group elements. */
  ghost predicate InGroup(env: Env)
    requires WellFormed(env)
  {
    forall k :: k in env.descriptions ==>
      var d := env.descriptions[k];
      var m := env.groups[d.group];
      AllUnits(Lookup(env.variables, d.bases), m) && Unit(env.variables[d.left], m)
  }

  /** The loop that collects the base and exponent vectors of a description. */
  method Vectors(variables: map<Text, int>, vals: map<Text, int>, d: DLR) returns (bases: seq<int>, exps: seq<int>)
    requires |d.bases| == |d.exps| && Defined(variables, d.bases) && Defined(vals, d.exps)
    ensures bases == Lookup(variables, d.bases) && exps == Lookup(vals, d.exps)
  {
    bases, exps := [], [];
    var j := 0;
    while j < |d.bases|
      invariant 0 <= j <= |d.bases|
      invariant bases == Lookup(variables, d.bases)[..j] && exps == Lookup(vals, d.exps)[..j]
    {
      bases := bases + [variables[d.bases[j]]];
      exps := exps + [vals[d.exps[j]]];
      j := j + 1;
    }
  }

  // ---------- powers through the caches ----------

  /** What computing the right-hand side of a description comes to. */
  ghost function Side(powers: E.Environment<Text>, env: Env, d: DLR, exps: map<Text, int>): ME.Result<int>
    requires powers.Valid() && DLRWellFormed(env, d) && Defined(exps, d.exps)
    reads powers, powers.cache, powers.multiCache
  {
    powers.ProductOf(d.bases, Lookup(env.variables, d.bases), Lookup(exps, d.exps), env.groups[d.group])
  }

  /** All right-hand sides that have their exponents are computed. */
  ghost predicate AllSides(powers: E.Environment<Text>, env: Env, exps: map<Text, int>)
    requires powers.Valid() && WellFormed(env)
    reads powers, powers.cache, powers.multiCache
  {
    forall k :: k in env.descriptions && Defined(exps, env.descriptions[k].exps) ==>
      Side(powers, env, env.descriptions[k], exps).Ok?
  }

  /** The verifier's equation, with the right-hand side that is computed. */
  ghost predicate SideEquation(powers: E.Environment<Text>, env: Env, d: DLR, t: int, c: int, response: map<Text, int>)
    requires powers.Valid() && DLRWellFormed(env, d) && Defined(response, d.exps)
    reads powers, powers.cache, powers.multiCache
  {
    var m := env.groups[d.group];
    Side(powers, env, d, response) == ME.Ok(MulMod(t, PowerMod(env.variables[d.left], c, m), m))
  }

  ghost predicate Passes(powers: E.Environment<Text>, env: Env, ts: map<DLR, int>, c: int, response: map<Text, int>)
    requires powers.Valid() && WellFormed(env)
    reads powers, powers.cache, powers.multiCache
  {
    forall k :: k in env.descriptions ==> PassesOne(powers, env, k, ts, c, response)
  }

  ghost predicate PassesOne(powers: E.Environment<Text>, env: Env, k: DLR, ts: map<DLR, int>, c: int, response: map<Text, int>)
    requires powers.Valid() && k in env.descriptions && DLRWellFormed(env, env.descriptions[k])
    reads powers, powers.cache, powers.multiCache
  {
    k in ts && Defined(response, env.descriptions[k].exps)
    && SideEquation(powers, env, env.descriptions[k], ts[k], c, response)
  }

  /** The tables give the right values or none: what is computed of a right-hand side, if
      anything, is its value. */
  ghost predicate RightSides(powers: E.Environment<Text>, env: Env, exps: map<Text, int>)
    requires powers.Valid() && WellFormed(env)
    reads powers, powers.cache, powers.multiCache
  {
    forall k :: k in env.descriptions && Defined(exps, env.descriptions[k].exps) ==>
      RightSide(powers, env, env.descriptions[k], exps)
  }

  ghost predicate RightSide(powers: E.Environment<Text>, env: Env, d: DLR, exps: map<Text, int>)
    requires powers.Valid() && DLRWellFormed(env, d) && Defined(exps, d.exps)
    reads powers, powers.cache, powers.multiCache
  {
    Side(powers, env, d, exps).Ok? ==> Side(powers, env, d, exps) == ME.Ok(Rhs(env, d, exps))
  }

  /** What cachePowers sees of a description. */
  function Bases(env: Env, d: DLR): E.Description<Text>
    requires d.group in env.groups
  {
    E.Description(d.bases, env.groups[d.group])
  }

  /** The groups of all descriptions are known. */
  ghost predicate GroupsKnown(env: Env) {
    forall k :: k in env.descriptions ==> env.descriptions[k].group in env.groups && 1 < env.groups[env.descriptions[k].group]
  }

  lemma WellFormedGroups(env: Env)
    requires WellFormed(env)
    ensures GroupsKnown(env)
  {
    forall k | k in env.descriptions
      ensures env.descriptions[k].group in env.groups && 1 < env.groups[env.descriptions[k].group]
    {
      assert DLRWellFormed(env, env.descriptions[k]);
    }
  }

  ghost predicate Lists(ds: seq<E.Description<Text>>, env: Env)
    requires GroupsKnown(env)
  {
    forall x :: x in ds <==> exists k :: k in env.descriptions && x == Bases(env, env.descriptions[k])
  }

  /** The descriptions in some order. */
  method Listed(env: Env) returns (ds: seq<E.Description<Text>>)
    requires GroupsKnown(env)
    ensures Lists(ds, env) && E.ModuliOk(ds)
  {
    ds := [];
    var left := env.descriptions.Keys;
    while left != {}
      invariant left <= env.descriptions.Keys && E.ModuliOk(ds)
      invariant forall x :: x in ds <==>
        exists k :: k in env.descriptions && k !in left && x == Bases(env, env.descriptions[k])
      decreases left
    {
      var k :| k in left;
      ds := ds + [Bases(env, env.descriptions[k])];
      left := left - {k};
    }
  }

  /** Descriptions over the same bases that have tables are in groups with the same
      modulus. */
  ghost predicate TablesAgree(env: Env, bound: map<Text, int>)
    requires WellFormed(env)
  {
    forall k, l :: k in env.descriptions && l in env.descriptions && SameTable(bound, env.descriptions[k], env.descriptions[l])
      ==> env.groups[env.descriptions[k].group] == env.groups[env.descriptions[l].group]
  }

  ghost predicate SameTable(bound: map<Text, int>, d: DLR, e: DLR) {
    d.bases == e.bases && E.HasTable(bound, d.bases)
  }

  /** Where there is a table for a description, one of its exponents is negative, so that
      the table is not used, or all are short enough for it. */
  ghost predicate Short(env: Env, bound: map<Text, int>, exps: Text -> int) {
    forall k :: k in env.descriptions ==> ShortFor(bound, env.descriptions[k], exps)
  }

  ghost predicate ShortFor(bound: map<Text, int>, d: DLR, exps: Text -> int) {
    E.Allows(bound, d.bases, seq(|d.exps|, i requires 0 <= i < |d.exps| => exps(d.exps[i])))
  }

  /** The values that were bound when the tables were made are those of now. */
  ghost predicate StillBound(bound: map<Text, int>, env: Env) {
    forall n :: n in bound && n in env.variables ==> env.variables[n] == bound[n]
  }

  /** Where nothing was bound there are no tables. */
  lemma NothingBound(env: Env, exps: Text -> int)
    requires WellFormed(env)
    ensures StillBound(map[], env) && TablesAgree(env, map[]) && Short(env, map[], exps)
  {
    var none: map<Text, int> := map[];
    forall names: seq<Text> ensures !E.HasTable(none, names) {
      assert E.WidthFor(0) == 0 && (|names| > 0 ==> names[0] !in none);
    }
  }

  /** So with the tables that cachePowers makes for the descriptions, exactly the right-hand
      sides with short exponents are computed, and they are right. */
  lemma TablesFit(powers: E.Environment<Text>, ds: seq<E.Description<Text>>, env: Env, exps: map<Text, int>, f: Text -> int)
    requires WellFormed(env) && GroupsKnown(env) && Lists(ds, env) && E.ModuliOk(ds) && powers.CachesMatch(ds)
    requires TablesAgree(env, powers.variables) && StillBound(powers.variables, env)
    requires AllDefined(env, exps) && forall n :: n in exps ==> exps[n] == f(n)
    ensures powers.Valid() && (AllSides(powers, env, exps) <==> Short(env, powers.variables, f))
    ensures RightSides(powers, env, exps)
  {
    hide Side, ShortFor, RightSide;
    powers.Filled(ds);
    forall k | k in env.descriptions
      ensures DLRWellFormed(env, env.descriptions[k]) && Defined(exps, env.descriptions[k].exps)
        && (Side(powers, env, env.descriptions[k], exps).Ok? <==> ShortFor(powers.variables, env.descriptions[k], f))
        && RightSide(powers, env, env.descriptions[k], exps)
    {
      assert DLRWellFormed(env, env.descriptions[k]);
      OneFits(powers, ds, env, k, exps, f);
    }
  }

  lemma OneFits(powers: E.Environment<Text>, ds: seq<E.Description<Text>>, env: Env, k: DLR, exps: map<Text, int>, f: Text -> int)
    requires WellFormed(env) && GroupsKnown(env) && Lists(ds, env) && E.ModuliOk(ds) && powers.CachesMatch(ds)
    requires TablesAgree(env, powers.variables) && StillBound(powers.variables, env)
    requires forall n :: n in exps ==> exps[n] == f(n)
    requires k in env.descriptions && DLRWellFormed(env, env.descriptions[k]) && Defined(exps, env.descriptions[k].exps)
    ensures powers.Valid()
    ensures Side(powers, env, env.descriptions[k], exps).Ok? <==> ShortFor(powers.variables, env.descriptions[k], f)
    ensures RightSide(powers, env, env.descriptions[k], exps)
  {
    hide E.Environment.CachesMatch, E.Environment.ProductOf, E.Environment.Valid, E.MultiModulus, E.Allows, TablesAgree,
         Lists, StillBound, E.HasTable, WellFormed, GroupsKnown, E.ModuliOk, Product;
    var d := env.descriptions[k];
    var bound := powers.variables;
    var bs, es := Lookup(env.variables, d.bases), Lookup(exps, d.exps);
    assert es == seq(|d.exps|, i requires 0 <= i < |d.exps| => f(d.exps[i]));
    if E.HasTable(bound, d.bases) {
      ValuesAre(bound, env, d);
      ModulusShared(bound, ds, env, k);
    }
    powers.ProductIs(ds, d.bases, bs, es, env.groups[d.group]);
  }

  lemma ValuesAre(bound: map<Text, int>, env: Env, d: DLR)
    requires DLRWellFormed(env, d) && StillBound(bound, env) && E.HasTable(bound, d.bases)
    ensures Lookup(env.variables, d.bases) == E.Values(bound, d.bases)
  {
  }

  lemma ModulusShared(bound: map<Text, int>, ds: seq<E.Description<Text>>, env: Env, k: DLR)
    requires WellFormed(env) && GroupsKnown(env) && Lists(ds, env) && E.ModuliOk(ds) && TablesAgree(env, bound)
    requires k in env.descriptions && DLRWellFormed(env, env.descriptions[k]) && E.HasTable(bound, env.descriptions[k].bases)
    ensures E.MultiModulus(bound, ds, env.descriptions[k].bases) == env.groups[env.descriptions[k].group]
  {
    hide E.MultiModulus, E.HasTable;
    var d := env.descriptions[k];
    E.MultiModulusIs(bound, ds, d.bases);
    assert Bases(env, d) in ds;
    var i :| 0 <= i < |ds| && ds[i] == Bases(env, d);
    var j :| 0 <= j < |ds| && ds[j].bases == d.bases && ds[j].modulus == E.MultiModulus(bound, ds, d.bases);
    assert ds[j] in ds;
    var l :| l in env.descriptions && ds[j] == Bases(env, env.descriptions[l]);
    assert SameTable(bound, d, env.descriptions[l]);
  }

  /** The right-hand side of a description by way of Environment::multiExp. */
  method ComputeSide(env: Env, d: DLR, vals: map<Text, int>, powers: E.Environment<Text>, cacher: ME.MultiExpCacher)
    returns (r: ME.Result<int>)
    requires powers.Valid() && cacher.Valid() && DLRWellFormed(env, d) && Defined(vals, d.exps)
    modifies cacher
    ensures cacher.Valid() && r == Side(powers, env, d, vals)
  {
    hide E.Environment.ProductOf;
    var bases, exps := Vectors(env.variables, vals, d);
    r := powers.MultiExp(d.bases, bases, exps, env.groups[d.group], cacher);
  }

  // ---------- the prover ----------

  /** A name that some description uses as an exponent. */
  ghost predicate ExponentName(env: Env, n: Text) {
    exists k :: k in env.descriptions && n in env.descriptions[k].exps
  }

  /** makeRandomizedExponents: a random value for every exponent name. `random`
      is the group's source of exponents. */
  method MakeRandomizedExponents(env: Env, random: Text -> int) returns (r: map<Text, int>)
    ensures AllDefined(env, r) && forall n :: n in r ==> ExponentName(env, n) && r[n] == random(n)
  {
    r := map[];
    var left := env.descriptions.Keys;
    while left != {}
      invariant left <= env.descriptions.Keys
      invariant forall k :: k in env.descriptions && k !in left ==> Defined(r, env.descriptions[k].exps)
      invariant forall n :: n in r ==> ExponentName(env, n) && r[n] == random(n)
      decreases left
    {
      var k :| k in left;
      var d, i := env.descriptions[k], 0;
      while i < |d.exps|
        invariant 0 <= i <= |d.exps| && Defined(r, d.exps[..i])
        invariant forall l :: l in env.descriptions && l !in left ==> Defined(r, env.descriptions[l].exps)
        invariant forall n :: n in r ==> ExponentName(env, n) && r[n] == random(n)
      {
        r := r[d.exps[i] := random(d.exps[i])];
        assert forall j :: 0 <= j < i ==> d.exps[..i][j] == d.exps[j];
        i := i + 1;
      }
      assert d.exps[..i] == d.exps;
      left := left - {k};
    }
  }

  class EqualityProver {
    const env: Env
    const randExps: map<Text, int>

    constructor (e: Env, r: map<Text, int>)
      ensures env == e && randExps == r
    {
      env, randExps := e, r;
    }

    /** computeCommitments: the right-hand sides, for the openings (`indicator`)
        or for the random exponents; false when a table does not fit. */
    method ComputeCommitments(indicator: bool, powers: E.Environment<Text>, cacher: ME.MultiExpCacher)
      returns (ok: bool, r: map<DLR, int>)
      requires WellFormed(env) && AllDefined(env, if indicator then env.variables else randExps)
      requires powers.Valid() && cacher.Valid()
      modifies cacher
      ensures cacher.Valid()
      ensures ok <==> AllSides(powers, env, if indicator then env.variables else randExps)
      ensures ok ==> r.Keys == env.descriptions.Keys && forall k :: k in r ==>
        ME.Ok(r[k]) == Side(powers, env, env.descriptions[k], if indicator then env.variables else randExps)
    {
      hide Side;
      r := map[];
      var left := env.descriptions.Keys;
      while left != {}
        invariant left <= env.descriptions.Keys && r.Keys == env.descriptions.Keys - left
        invariant cacher.Valid()
        invariant forall k :: k in r ==>
          ME.Ok(r[k]) == Side(powers, env, env.descriptions[k], if indicator then env.variables else randExps)
        decreases left
      {
        var k :| k in left;
        var d := env.descriptions[k];
        assert DLRWellFormed(env, d);
        var result := ComputeSide(env, d, if indicator then env.variables else randExps, powers, cacher);
        if !result.Ok? { return false, r; }
        r := r[k := result.value];
        left := left - {k};
      }
      ok := true;
    }

    /** respond: r + c*x for every random exponent. */
    method Respond(challenge: int) returns (response: map<Text, int>)
      requires randExps.Keys <= env.variables.Keys
      ensures response.Keys == randExps.Keys
      ensures forall n :: n in response ==> response[n] == randExps[n] + challenge * env.variables[n]
    {
      response := map[];
      var left := randExps.Keys;
      while left != {}
        invariant left <= randExps.Keys && response.Keys == randExps.Keys - left
        invariant forall n :: n in response ==> response[n] == randExps[n] + challenge * env.variables[n]
        decreases left
      {
        var n :| n in left;
        response := response[n := randExps[n] + challenge * env.variables[n]];
        left := left - {n};
      }
    }
  }

  // ---------- the verifier ----------

  class EqualityVerifier {
    const env: Env
    const rProof: map<DLR, int>
    var challenge: int

    constructor (rProofs: map<DLR, int>, e: Env)
      ensures env == e && rProof == rProofs
    {
      env, rProof := e, rProofs;
      challenge := 0;
    }

    method SetChallenge(c: int)
      modifies this
      ensures challenge == c
    {
      challenge := c;
    }

    /** verify accepts exactly when every value is there and every equation holds.
        A missing value or a table that does not fit, an exception or a failed assertion
        in the source, counts as not accepting. */
    method Verify(response: map<Text, int>, powers: E.Environment<Text>, cacher: ME.MultiExpCacher) returns (ok: bool)
      requires WellFormed(env) && powers.Valid() && cacher.Valid()
      modifies cacher
      ensures cacher.Valid()
      ensures ok <==> Passes(powers, env, rProof, challenge, response)
    {
      hide Side;
      var left := env.descriptions.Keys;
      while left != {}
        invariant left <= env.descriptions.Keys && cacher.Valid()
        invariant forall k :: k in env.descriptions && k !in left ==> PassesOne(powers, env, k, rProof, challenge, response)
        decreases left
      {
        var k :| k in left;
        var cd := env.descriptions[k];
        assert DLRWellFormed(env, cd);
        if k !in rProof || !Defined(response, cd.exps) {
          assert !PassesOne(powers, env, k, rProof, challenge, response);
          return false;
        }
        var m := env.groups[cd.group];
        var rCom := PowerMod(env.variables[cd.left], challenge, m);
        var leftSide := MulMod(rProof[k], rCom, m);
        var rightSide := ComputeSide(env, cd, response, powers, cacher);
        if rightSide != ME.Ok(leftSide) {
          assert !PassesOne(powers, env, k, rProof, challenge, response);
          return false;
        }
        left := left - {k};
      }
      return true;
    }
  }

  /** With tables that give the right values or none, exactly the responses are accepted
      whose equations hold and whose right-hand sides are all computed. */
  lemma PassesIff(powers: E.Environment<Text>, env: Env, ts: map<DLR, int>, c: int, response: map<Text, int>)
    requires WellFormed(env) && powers.Valid() && RightSides(powers, env, response)
    ensures Passes(powers, env, ts, c, response) <==> Accepted(env, ts, c, response) && AllSides(powers, env, response)
  {
    hide Side, Rhs;
    forall k | k in env.descriptions
      ensures DLRWellFormed(env, env.descriptions[k])
        && (PassesOne(powers, env, k, ts, c, response) <==>
              && k in ts && Defined(response, env.descriptions[k].exps)
              && Side(powers, env, env.descriptions[k], response).Ok? && Equation(env, env.descriptions[k], ts[k], c, response))
    {
      assert DLRWellFormed(env, env.descriptions[k]);
      if Defined(response, env.descriptions[k].exps) { assert RightSide(powers, env, env.descriptions[k], response); }
    }
    hide PassesOne, Equation, RightSides;
  }

  // ---------- completeness ----------

  /** An honest response satisfies the equation of an opened description. */
  lemma HonestEquation(env: Env, d: DLR, r: map<Text, int>, c: int, response: map<Text, int>)
    requires DLRWellFormed(env, d) && Defined(r, d.exps) && Defined(env.variables, d.exps) && Defined(response, d.exps)
    requires AllUnits(Lookup(env.variables, d.bases), env.groups[d.group])
    requires Cong(env.variables[d.left], Rhs(env, d, env.variables), env.groups[d.group])
    requires forall i :: 0 <= i < |d.exps| ==> response[d.exps[i]] == r[d.exps[i]] + c * env.variables[d.exps[i]]
    ensures Equation(env, d, Rhs(env, d, r), c, response)
  {
    var m := env.groups[d.group];
    var bs, rs, xs := Lookup(env.variables, d.bases), Lookup(r, d.exps), Lookup(env.variables, d.exps);
    assert Lookup(response, d.exps) == Combine(rs, c, xs);
    ProductCombine(bs, rs, c, xs, m);
    ProductUnit(bs, xs, m);
    PowerCong(Product(bs, xs, m), env.variables[d.left], c, m);
  }

  /** Another party has the same descriptions, and the same values of their elements. */
  ghost predicate SameElements(env: Env, seen: Env)
    requires WellFormed(env)
  {
    && seen.groups == env.groups && seen.descriptions == env.descriptions && WellFormed(seen)
    && forall k :: k in env.descriptions ==>
         var d := env.descriptions[k];
         DLRWellFormed(env, d) && DLRWellFormed(seen, d)
         && seen.variables[d.left] == env.variables[d.left]
         && Lookup(seen.variables, d.bases) == Lookup(env.variables, d.bases)
  }

  lemma SameEquation(env: Env, seen: Env, k: DLR, t: int, c: int, response: map<Text, int>)
    requires WellFormed(env) && SameElements(env, seen) && k in env.descriptions
    requires Defined(response, env.descriptions[k].exps)
    ensures DLRWellFormed(env, env.descriptions[k]) && DLRWellFormed(seen, env.descriptions[k])
    ensures Equation(seen, env.descriptions[k], t, c, response) <==> Equation(env, env.descriptions[k], t, c, response)
  {
    hide Product, PowerMod, MulMod;
  }

  /** What the prover answers for an exponent name. */
  function Answer(env: Env, random: Text -> int, challenge: int): Text -> int {
    n => if n in env.variables then random(n) + challenge * env.variables[n] else 0
  }

  /** Completeness, with all powers from the tables that cachePowers made when `bound`
      were the values known: a prover whose values open every description is accepted,
      by a verifier that has the same elements, for exactly those random exponents and
      challenges for which the exponents on both sides are short enough for the tables.
      Without bound values there are no tables, and no such condition. */
  method HonestRun(env: Env, seen: Env, bound: map<Text, int>, random: Text -> int, challenge: int) returns (ok: bool)
    requires WellFormed(env) && InGroup(env) && Opens(env, env.variables) && SameElements(env, seen)
    requires StillBound(bound, env) && StillBound(bound, seen) && TablesAgree(env, bound)
    ensures ok <==> Short(env, bound, random) && Short(env, bound, Answer(env, random, challenge))
  {
    hide *;
    AllOpen(env);
    ghost var randExps;
    var rProofs, response;
    ok, randExps, rProofs, response := HonestProve(env, bound, random, challenge);
    if !ok { return; }
    ok := HonestVerify(env, seen, bound, random, challenge, randExps, rProofs, response);
  }

  lemma AllOpen(env: Env)
    requires WellFormed(env) && Opens(env, env.variables)
    ensures AllDefined(env, env.variables)
  {
    hide Rhs;
  }

  /** The prover's part of an honest run. */
  method HonestProve(env: Env, bound: map<Text, int>, random: Text -> int, challenge: int)
    returns (ok: bool, ghost randExps: map<Text, int>, rProofs: map<DLR, int>, response: map<Text, int>)
    requires WellFormed(env) && AllDefined(env, env.variables) && StillBound(bound, env) && TablesAgree(env, bound)
    ensures ok <==> Short(env, bound, random)
    ensures AllDefined(env, randExps) && randExps.Keys <= env.variables.Keys
    ensures forall n :: n in randExps ==> randExps[n] == random(n)
    ensures ok ==> response.Keys == randExps.Keys && rProofs.Keys == env.descriptions.Keys
    ensures ok ==> forall n :: n in response ==> response[n] == randExps[n] + challenge * env.variables[n]
    ensures ok ==> forall k :: k in rProofs ==> rProofs[k] == Rhs(env, env.descriptions[k], randExps)
  {
    hide *;
    response := map[];
    WellFormedGroups(env);
    var ds := Listed(env);
    var powers := new E.Environment(bound);
    powers.CachePowers(ds);
    powers.Filled(ds);
    var cacher := new ME.MultiExpCacher();
    var exps := MakeRandomizedExponents(env, random);
    randExps := exps;
    NamesHaveValues(env, exps);
    TablesFit(powers, ds, env, exps, random);
    var prover := new EqualityProver(env, exps);
    ok, rProofs := prover.ComputeCommitments(false, powers, cacher);
    if !ok { return; }
    SidesAreRight(powers, env, exps, rProofs);
    response := prover.Respond(challenge);
  }

  lemma NamesHaveValues(env: Env, exps: map<Text, int>)
    requires AllDefined(env, env.variables) && forall n :: n in exps ==> ExponentName(env, n)
    ensures exps.Keys <= env.variables.Keys
  {
  }

  lemma SidesAreRight(powers: E.Environment<Text>, env: Env, exps: map<Text, int>, r: map<DLR, int>)
    requires WellFormed(env) && AllDefined(env, exps) && powers.Valid() && RightSides(powers, env, exps)
    requires r.Keys == env.descriptions.Keys
    requires forall k :: k in r ==> ME.Ok(r[k]) == Side(powers, env, env.descriptions[k], exps)
    ensures forall k :: k in r ==> r[k] == Rhs(env, env.descriptions[k], exps)
  {
    hide Side, Rhs;
    forall k | k in r ensures r[k] == Rhs(env, env.descriptions[k], exps) {
      assert RightSide(powers, env, env.descriptions[k], exps);
    }
  }

  /** The verifier's part of an honest run, with its own tables. */
  method HonestVerify(env: Env, seen: Env, bound: map<Text, int>, ghost random: Text -> int, challenge: int,
                      ghost randExps: map<Text, int>, rProofs: map<DLR, int>, response: map<Text, int>)
    returns (ok: bool)
    requires WellFormed(env) && InGroup(env) && Opens(env, env.variables) && SameElements(env, seen)
    requires StillBound(bound, seen) && TablesAgree(env, bound)
    requires AllDefined(env, randExps) && response.Keys == randExps.Keys <= env.variables.Keys
    requires forall n :: n in randExps ==> randExps[n] == random(n)
    requires forall n :: n in response ==> response[n] == randExps[n] + challenge * env.variables[n]
    requires rProofs.Keys == env.descriptions.Keys
    requires forall k :: k in rProofs ==> rProofs[k] == Rhs(env, env.descriptions[k], randExps)
    ensures ok <==> Short(env, bound, Answer(env, random, challenge))
  {
    hide *;
    SeenAlike(env, seen, bound, random, challenge);
    WellFormedGroups(seen);
    var ds := Listed(seen);
    var powers := new E.Environment(bound);
    powers.CachePowers(ds);
    var cacher := new ME.MultiExpCacher();
    Answers(env, random, challenge, randExps, response);
    HonestAccepted(env, seen, challenge, randExps, rProofs, response);
    AcceptedHas(seen, rProofs, challenge, response);
    TablesFit(powers, ds, seen, response, Answer(env, random, challenge));
    powers.Filled(ds);
    var verifier := new EqualityVerifier(rProofs, seen);
    verifier.SetChallenge(challenge);
    PassesIff(powers, seen, rProofs, challenge, response);
    ok := verifier.Verify(response, powers, cacher);
  }

  lemma AcceptedHas(env: Env, ts: map<DLR, int>, c: int, response: map<Text, int>)
    requires WellFormed(env) && Accepted(env, ts, c, response)
    ensures AllDefined(env, response)
  {
    hide AllDefined, Equation;
  }

  lemma SeenAlike(env: Env, seen: Env, bound: map<Text, int>, random: Text -> int, challenge: int)
    requires WellFormed(env) && SameElements(env, seen) && TablesAgree(env, bound)
    ensures WellFormed(seen) && TablesAgree(seen, bound)
    ensures Short(seen, bound, Answer(env, random, challenge)) <==> Short(env, bound, Answer(env, random, challenge))
  {
    hide ShortFor, SameTable, Answer;
  }

  lemma Answers(env: Env, random: Text -> int, challenge: int, randExps: map<Text, int>, response: map<Text, int>)
    requires response.Keys == randExps.Keys <= env.variables.Keys
    requires forall n :: n in randExps ==> randExps[n] == random(n)
    requires forall n :: n in response ==> response[n] == randExps[n] + challenge * env.variables[n]
    ensures forall n :: n in response ==> response[n] == Answer(env, random, challenge)(n)
  {
  }

  /** The equations of an honest run hold. */
  lemma HonestAccepted(env: Env, seen: Env, challenge: int, randExps: map<Text, int>, rProofs: map<DLR, int>,
                       response: map<Text, int>)
    requires WellFormed(env) && InGroup(env) && Opens(env, env.variables) && SameElements(env, seen)
    requires AllDefined(env, randExps) && response.Keys == randExps.Keys <= env.variables.Keys
    requires forall n :: n in response ==> response[n] == randExps[n] + challenge * env.variables[n]
    requires rProofs.Keys == env.descriptions.Keys
    requires forall k :: k in rProofs ==> rProofs[k] == Rhs(env, env.descriptions[k], randExps)
    ensures WellFormed(seen) && Accepted(seen, rProofs, challenge, response)
  {
    hide Rhs, Equation;
    forall k | k in env.descriptions
      ensures Defined(response, env.descriptions[k].exps)
        && Equation(seen, env.descriptions[k], rProofs[k], challenge, response)
    {
      var d := env.descriptions[k];
      assert DLRWellFormed(env, d);
      HonestEquation(env, d, randExps, challenge, response);
      SameEquation(env, seen, k, rProofs[k], challenge, response);
    }
  }

  // ---------- special soundness ----------

  /** The exponents computed from two accepting responses to the same first
      message, one for each name. */
  function Extracted(r1: map<Text, int>, r2: map<Text, int>, inv: int): map<Text, int> {
    map n | n in r1 && n in r2 :: (r1[n] - r2[n]) * inv
  }

  /** An inverse modulo a prime of a number it does not divide. */
  lemma PrimeInverse(q: int, a: int) returns (inv: int, k: int)
    requires Prime(q) && a % q != 0
    ensures a * inv == 1 + k * q
  {
    Fermat(q, a);
    inv := Pow(a, q - 2);
    k := CongElim(a * inv, 1, q);
  }

  /** Two accepted equations determine an opening of the left-hand side. */
  lemma EquationSoundness(env: Env, d: DLR, t: int, c1: int, r1: map<Text, int>,
                          c2: int, r2: map<Text, int>, inv: int, k: int, q: int)
    requires DLRWellFormed(env, d) && Defined(r1, d.exps) && Defined(r2, d.exps)
    requires Equation(env, d, t, c1, r1) && Equation(env, d, t, c2, r2)
    requires AllUnits(Lookup(env.variables, d.bases), env.groups[d.group])
    requires Unit(env.variables[d.left], env.groups[d.group])
    requires PowerMod(env.variables[d.left], q, env.groups[d.group]) == 1
    requires (c1 - c2) * inv == 1 + k * q
    ensures Cong(env.variables[d.left], Rhs(env, d, Extracted(r1, r2, inv)), env.groups[d.group])
  {
    var xs := Extracted(r1, r2, inv);
    OpeningFromTwo(Lookup(env.variables, d.bases), Lookup(r1, d.exps), Lookup(r2, d.exps), Lookup(xs, d.exps),
                   t, env.variables[d.left], c1, c2, inv, k, q, env.groups[d.group]);
  }

  lemma OpeningFromTwo(bs: seq<int>, z1: seq<int>, z2: seq<int>, ws: seq<int>, t: int, left: int,
                       c1: int, c2: int, inv: int, k: int, q: int, m: int)
    requires 1 < m && |bs| == |z1| == |z2| == |ws| && AllUnits(bs, m) && Unit(left, m)
    requires MulMod(t, PowerMod(left, c1, m), m) == Product(bs, z1, m)
    requires MulMod(t, PowerMod(left, c2, m), m) == Product(bs, z2, m)
    requires PowerMod(left, q, m) == 1 && (c1 - c2) * inv == 1 + k * q
    requires forall i :: 0 <= i < |ws| ==> ws[i] == (z1[i] - z2[i]) * inv
    ensures Cong(left, Product(bs, ws, m), m)
  {
    hide PowerMod, Product, MulMod, Unit;
    var zs := Combine(z1, -1, z2);
    Difference(bs, z1, z2, t, left, c1, c2, m);
    Scaled(bs, zs, inv, ws, m);
    PowerMul(left, c1 - c2, inv, m);
    OrderRemoved(left, k, q, m);
    CongMod(left, m);
  }

  /** Multiplying every exponent by c raises the product to the power c. */
  lemma Scaled(bs: seq<int>, zs: seq<int>, c: int, ws: seq<int>, m: int)
    requires 1 < m && |bs| == |zs| == |ws| && AllUnits(bs, m)
    requires forall i :: 0 <= i < |ws| ==> ws[i] == zs[i] * c
    ensures Product(bs, ws, m) == PowerMod(Product(bs, zs, m), c, m)
  {
    hide Product, PowerMod, MulMod, AllUnits;
    var zeros: seq<int> := seq(|bs|, i => 0);
    ZeroPlus(zeros, c, zs, ws);
    ProductCombine(bs, zeros, c, zs, m);
    ProductZero(bs, zeros, m);
    TimesOne(PowerMod(Product(bs, zs, m), c, m), m);
  }

  lemma ZeroPlus(zeros: seq<int>, c: int, zs: seq<int>, ws: seq<int>)
    requires |zeros| == |zs| == |ws| && forall i :: 0 <= i < |ws| ==> zeros[i] == 0 && ws[i] == zs[i] * c
    ensures ws == Combine(zeros, c, zs)
  {
  }

  lemma TimesOne(p: int, m: int)
    requires 0 <= p < m && 1 < m
    ensures MulMod(1, p, m) == p && MulMod(p, 1, m) == p
  {
    DivModUnique(p, m, 0, p);
  }

  lemma ProductZero(bs: seq<int>, zeros: seq<int>, m: int)
    requires 1 < m && |bs| == |zeros| && forall i :: 0 <= i < |zeros| ==> zeros[i] == 0
    ensures Product(bs, zeros, m) == 1
  {
    ProductIsPlain(bs, zeros, m);
    PlainZero(bs, zeros);
    DivModUnique(1, m, 0, 1);
  }

  /** left^(1 + k*q) = left in a group where left^q = 1. */
  lemma OrderRemoved(left: int, k: int, q: int, m: int)
    requires 1 < m && Unit(left, m) && PowerMod(left, q, m) == 1
    ensures PowerMod(left, 1 + k * q, m) == left % m
  {
    PowerAdd(left, 1, k * q, m);
    PowerMul(left, q, k, m);
    assert q * k == k * q;
    OnePower(k, m);
    PowerOne(left, m);
    CongMod(left, m);
    DivModUnique(left % m * 1, m, 0, left % m);
  }

  /** Dividing one equation by the other. */
  lemma Difference(bs: seq<int>, z1: seq<int>, z2: seq<int>, t: int, left: int, c1: int, c2: int, m: int)
    requires 1 < m && |bs| == |z1| == |z2| && AllUnits(bs, m) && Unit(left, m)
    requires MulMod(t, PowerMod(left, c1, m), m) == Product(bs, z1, m)
    requires MulMod(t, PowerMod(left, c2, m), m) == Product(bs, z2, m)
    ensures PowerMod(left, c1 - c2, m) == Product(bs, Combine(z1, -1, z2), m)
  {
    var zs := Combine(z1, -1, z2);
    assert z1 == Combine(zs, 1, z2);
    ProductCombine(bs, zs, 1, z2, m);
    PowerOne(Product(bs, z2, m), m);
    DivModUnique(Product(bs, z2, m), m, 0, Product(bs, z2, m));
    PowerAdd(left, c1 - c2, c2, m);
    ProductUnit(bs, z2, m);
    DivideOut(t, PowerMod(left, c1 - c2, m), PowerMod(left, c2, m), Product(bs, zs, m), m);
  }

  /** From t*(w*x) = p*(t*x) with t*x invertible, w = p. */
  lemma DivideOut(t: int, w: int, x: int, p: int, m: int)
    requires 1 < m && 0 <= w < m && 0 <= p < m && Unit(MulMod(t, x, m), m)
    requires MulMod(t, MulMod(w, x, m), m) == MulMod(p, MulMod(t, x, m), m)
    ensures w == p
  {
    CongMod(t * x, m);
    CongMod(w * x, m);
    MulModCong(t, MulMod(w, x, m), t, w * x, m);
    MulModCong(p, MulMod(t, x, m), p, t * x, m);
    UnitCong(MulMod(t, x, m), t * x, m);
    Reorder(t, w, x, p);
    hide Unit, MulMod;
    Cancel(t * x, w, p, m);
    CongSmall(w, p, m);
  }

  lemma Reorder(t: int, w: int, x: int, p: int)
    ensures t * (w * x) == t * x * w && p * (t * x) == t * x * p
  {
  }

  /** Special soundness: when the difference of the challenges has an inverse modulo
      q, and every left-hand side has an order that divides q, two accepting
      responses to the same first message give one assignment of exponents by name
      that opens every description at once. */
  lemma ExtractedOpens(env: Env, ts: map<DLR, int>, c1: int, r1: map<Text, int>,
                       c2: int, r2: map<Text, int>, q: int, inv: int, k: int)
    requires WellFormed(env) && InGroup(env) && (c1 - c2) * inv == 1 + k * q
    requires OrdersDivide(env, q)
    requires Accepted(env, ts, c1, r1) && Accepted(env, ts, c2, r2)
    ensures Opens(env, Extracted(r1, r2, inv))
  {
    var xs := Extracted(r1, r2, inv);
    forall n | n in env.descriptions
      ensures var d := env.descriptions[n];
        Defined(xs, d.exps) && Cong(env.variables[d.left], Rhs(env, d, xs), env.groups[d.group])
    {
      var d := env.descriptions[n];
      assert DLRWellFormed(env, d);
      EquationSoundness(env, d, ts[n], c1, r1, c2, r2, inv, k, q);
    }
  }

  ghost predicate OrdersDivide(env: Env, q: int)
    requires WellFormed(env)
  {
    forall n :: n in env.descriptions ==>
      var d := env.descriptions[n]; PowerMod(env.variables[d.left], q, env.groups[d.group]) == 1
  }

  /** So in groups of prime order q for challenges that differ modulo q. */
  lemma SpecialSoundness(env: Env, ts: map<DLR, int>, c1: int, r1: map<Text, int>,
                         c2: int, r2: map<Text, int>, q: int) returns (inv: int)
    requires WellFormed(env) && InGroup(env) && Prime(q) && (c1 - c2) % q != 0
    requires OrdersDivide(env, q)
    requires Accepted(env, ts, c1, r1) && Accepted(env, ts, c2, r2)
    ensures Cong((c1 - c2) * inv, 1, q) && Opens(env, Extracted(r1, r2, inv))
  {
    hide Opens, Accepted, InGroup, OrdersDivide, WellFormed;
    var k: int;
    inv, k := PrimeInverse(q, c1 - c2);
    CongIntro((c1 - c2) * inv, 1, k, q);
    ExtractedOpens(env, ts, c1, r1, c2, r2, q, inv, k);
  }
}
