/** PrimeSeq: the primes up to (2*bnd+1)^2 in order, from a sieve of bnd odd
    numbers that is moved along the number line. */
module PrimeSequence {
  import opened Arithmetic
  import opened Primes
  import opened Sieve
  import opened IntegerSqrt

  /** Index j0 stands for d*k0, an odd multiple, and nothing before it is hit. */
  ghost predicate StrikesFrom(base: int, d: int, j0: int, k0: int) {
    && Number(base, j0) == d * k0 && k0 % 2 == 1 && d <= k0
    && forall t :: 0 <= t < j0 ==> !Hit(d, Number(base, t))
  }

  /** The inner loop of both sieves: strikes the odd multiples of the prime d
      from index j0 on. */
  method Strike(p: array<bool>, base: nat, d: int, j0: nat, ghost k0: int)
    requires 3 <= d && Prime(d) && d % 2 == 1 && base % 2 == 0
    requires StrikesFrom(base, d, j0, k0)
    modifies p
    ensures forall t :: 0 <= t < p.Length ==> (p[t] <==> old(p[t]) && !Hit(d, Number(base, t)))
  {
    hide Hit, Prime;
    var j := j0;
    ghost var k := k0;
    while j < p.Length
      invariant 0 <= j && Number(base, j) == d * k && k % 2 == 1 && d <= k
      invariant forall t :: 0 <= t < j && t < p.Length ==> (p[t] <==> old(p[t]) && !Hit(d, Number(base, t)))
      invariant forall t :: j <= t < p.Length ==> p[t] == old(p[t])
      invariant j >= p.Length ==> forall t :: 0 <= t < p.Length ==> (p[t] <==> old(p[t]) && !Hit(d, Number(base, t)))
      decreases p.Length - j
    {
      p[j] := false;
      FirstHit(d, k);
      NoneBetween(d, k, base, j);
      j := j + d;
      k := k + 2;
    }
  }

  lemma NextOddMultiple(d: int, k: int)
    ensures d * (k + 2) == d * k + 2 * d
  {
  }

  lemma NoneBetween(d: int, k: int, base: nat, j: int)
    requires 3 <= d && k % 2 == 1 && base % 2 == 0 && Number(base, j) == d * k
    ensures Number(base, j + d) == d * (k + 2)
    ensures forall t :: j < t < j + d ==> !Hit(d, Number(base, t))
  {
    hide Hit;
    NextOddMultiple(d, k);
    forall t | j < t < j + d ensures !Hit(d, Number(base, t)) {
      NoHitBetween(d, k, Number(base, t));
    }
  }

  lemma FirstHit(d: int, k: int)
    requires 3 <= d <= k && Prime(d)
    ensures Hit(d, d * k)
  {
    MulMono(d, k, d);
    DividesIntro(d, d * k, k);
  }

  /** One prime's turn extends the sieve by that prime; a composite d has none. */
  lemma AfterTurn(before: seq<bool>, after: seq<bool>, base: nat, d: int)
    requires |before| == |after| && 3 <= d && d % 2 == 1
    requires SievedTo(before, base, d)
    requires forall t :: 0 <= t < |after| ==> (after[t] <==> before[t] && !Hit(d, Number(base, t)))
    ensures SievedTo(after, base, d + 2)
  {
    EvenNotPrime(d + 1);
    forall t | 0 <= t < |after| ensures after[t] <==> !Struck(Number(base, t), d + 2) {
      StruckStep(Number(base, t), d);
      NotPrimeNotHit(d + 1, Number(base, t));
    }
  }

  lemma NoTurn(a: seq<bool>, base: nat, d: int)
    requires 3 <= d && d % 2 == 1 && !Prime(d) && SievedTo(a, base, d)
    ensures SievedTo(a, base, d + 2)
  {
    forall t | 0 <= t < |a| ensures !Hit(d, Number(base, t)) { NotPrimeNotHit(d, Number(base, t)); }
    AfterTurn(a, a, base, d);
  }

  /** When every possible striker has had its turn, what is left is prime. */
  lemma SieveDone(a: seq<bool>, base: nat, bound: int)
    requires SievedTo(a, base, bound) && base % 2 == 0 && 3 <= bound
    requires forall i, d :: 0 <= i < |a| && Hit(d, Number(base, i)) ==> d < bound
    ensures Sieved(a, base)
  {
    forall i | 0 <= i < |a| ensures a[i] <==> Prime(Number(base, i)) {
      PrimeIffNotStruck(Number(base, i), bound);
    }
  }

  lemma FreshSieve(a: seq<bool>, base: nat)
    requires forall i :: 0 <= i < |a| ==> a[i]
    ensures SievedTo(a, base, 3)
  {
  }

  // ---------- the low sieve ----------

  /** The last index whose number can still strike, `(SqrRoot(2*bnd+1) - 3) / 2`. */
  function LastStriker(bnd: nat): int {
    TruncDiv(SqrRoot(2 * bnd + 1) - 3, 2)
  }

  lemma LastStrikerBounds(bnd: nat)
    requires 1 <= bnd
    ensures -1 <= LastStriker(bnd) < bnd
    ensures SqrRoot(2 * bnd + 1) < 2 * LastStriker(bnd) + 5
  {
    var s := SqrRoot(2 * bnd + 1);
    if s >= 3 { MulMono(3, s, s); }
    SquareLess(1, s + 1);
  }

  lemma LowSieveDone(a: seq<bool>, bnd: nat)
    requires 1 <= bnd == |a| && SievedTo(a, 0, 2 * LastStriker(bnd) + 5)
    ensures Sieved(a, 0)
  {
    LastStrikerBounds(bnd);
    forall i, d | 0 <= i < |a| && Hit(d, Number(0, i)) ensures d < 2 * LastStriker(bnd) + 5 {
      HitBelow(d, Number(0, i), SqrRoot(2 * bnd + 1) + 1);
    }
    SieveDone(a, 0, 2 * LastStriker(bnd) + 5);
  }

  /** While the low sieve is built, its own entry already tells whether the next
      striker is prime. */
  lemma OwnEntry(a: seq<bool>, i: nat)
    requires i < |a| && SievedTo(a, 0, 2 * i + 3)
    ensures a[i] <==> Prime(2 * i + 3)
  {
    var m := Number(0, i);
    forall d | Hit(d, m) ensures d < m { MulMono(3, d, d); }
    PrimeIffNotStruck(m, m);
  }

  /** One round of a sieve: strikes for d if d is prime. */
  method Turn(p: array<bool>, base: nat, d: int, isPrime: bool, j0: nat, ghost k0: int)
    requires 3 <= d && d % 2 == 1 && base % 2 == 0 && (isPrime <==> Prime(d))
    requires SievedTo(p[..], base, d)
    requires isPrime ==> StrikesFrom(base, d, j0, k0)
    modifies p
    ensures SievedTo(p[..], base, d + 2)
  {
    ghost var before := p[..];
    if isPrime {
      Strike(p, base, d, j0, k0);
      AfterTurn(before, p[..], base, d);
    } else {
      NoTurn(before, base, d);
    }
  }

  /** PrimeSeq::start. */
  method Start(bnd: nat) returns (p: array<bool>)
    requires 1 <= bnd
    ensures fresh(p) && p.Length == bnd && Sieved(p[..], 0)
  {
    p := new bool[bnd](_ => true);
    FreshSieve(p[..], 0);
    LastStrikerBounds(bnd);
    StrikeUpTo(p, LastStriker(bnd));
    LowSieveDone(p[..], bnd);
  }

  /** The loop of PrimeSeq::start over the strikers 3, 5, ..., 2*ibnd + 3. */
  method StrikeUpTo(p: array<bool>, ibnd: int)
    requires -1 <= ibnd < p.Length && SievedTo(p[..], 0, 3)
    modifies p
    ensures SievedTo(p[..], 0, 2 * ibnd + 5)
  {
    hide StrikesFrom, SievedTo;
    var jstep, jstart, i := 1, -1, 0;
    while i <= ibnd
      invariant 0 <= i <= ibnd + 1
      invariant jstep == 2 * i + 1 && IsSquareIndex(jstart, jstep)
      invariant SievedTo(p[..], 0, 2 * i + 3)
    {
      OwnEntry(p[..], i);
      assert p[..][i] == p[i];
      NextStriker(jstep, jstart);
      jstep := jstep + 2;
      jstart := jstart + 2 * (jstep - 1);
      Turn(p, 0, jstep, p[i], jstart, jstep);
      i := i + 1;
    }
  }

  /** Index j stands for d^2. */
  ghost predicate IsSquareIndex(j: int, d: int) {
    Number(0, j) == d * d
  }

  /** The square index moves by 2*(d + 1) from d to d + 2. */
  lemma NextStriker(d: int, j: int)
    requires 1 <= d && d % 2 == 1 && IsSquareIndex(j, d)
    ensures IsSquareIndex(j + 2 * (d + 1), d + 2)
    ensures 0 <= j + 2 * (d + 1) && StrikesFrom(0, d + 2, j + 2 * (d + 1), d + 2)
  {
    assert (d + 2) * (d + 2) == d * d + 4 * (d + 1);
    NothingBeforeSquare(d + 2, j + 2 * (d + 1));
  }

  lemma NothingBeforeSquare(d: int, j: int)
    requires 3 <= d && d % 2 == 1 && Number(0, j) == d * d
    ensures 0 <= j && StrikesFrom(0, d, j, d)
  {
    MulMono(3, d, d);
  }

  // ---------- a window further on ----------

  lemma WindowHits(base: nat, bnd: nat, jstep: int, d: int, i: int)
    requires base + 2 * bnd + 1 < jstep * jstep && 0 <= jstep && 0 <= i < bnd && Hit(d, Number(base, i))
    ensures d < jstep
  {
    HitBelow(d, Number(base, i), jstep);
  }

  method SetAll(p: array<bool>)
    modifies p
    ensures forall t :: 0 <= t < p.Length ==> p[..][t]
  {
    var f := 0;
    while f < p.Length
      invariant 0 <= f <= p.Length
      invariant forall t :: 0 <= t < f ==> p[t]
    {
      p[f] := true;
      f := f + 1;
    }
  }

  /** The sieving loop of PrimeSeq::shift for a window that starts above 0. */
  method SieveWindow(p: array<bool>, base: nat, low: array<bool>)
    requires 1 <= p.Length == low.Length && p != low && base % 2 == 0
    requires Sieved(low[..], 0)
    requires base + 2 * p.Length + 1 <= (2 * p.Length + 1) * (2 * p.Length + 1)
    modifies p
    ensures Sieved(p[..], base)
  {
    hide StrikesFrom, SievedTo, Hit, FirstMultiplier, Prime, Divides;
    var bnd := p.Length;
    SetAll(p);
    FreshSieve(p[..], base);
    var jstep, i := 3, 0;
    var ibound := base + 2 * bnd + 1;
    while jstep * jstep <= ibound
      invariant 0 <= i && jstep == 2 * i + 3
      invariant SievedTo(p[..], base, jstep)
      invariant low[..] == old(low[..])
      decreases ibound - jstep
    {
      SquareLessEq(jstep, 2 * bnd + 1);
      assert low[..][i] == low[i];
      var jstart := WindowStart(jstep, base);
      Turn(p, base, jstep, low[i], jstart, FirstMultiplier(jstep, base + 2));
      jstep := jstep + 2;
      i := i + 1;
      MulMono(1, jstep, jstep);
    }
    forall j, d | 0 <= j < bnd && Hit(d, Number(base, j)) ensures d < jstep {
      WindowHits(base, bnd, jstep, d, j);
    }
    SieveDone(p[..], base, jstep);
  }

  /** `jstart` of the window: the index of the first multiple. */
  function WindowStart(d: int, base: nat): (j: int)
    requires 3 <= d && d % 2 == 1 && base % 2 == 0
    ensures 0 <= j && StrikesFrom(base, d, j, FirstMultiplier(d, base + 2))
  {
    var k := FirstMultiplier(d, base + 2);
    FirstMultiple(d, base + 2);
    IndexOf(d * k, base);
    NothingBefore(d, base, (d * k - base - 3) / 2);
    (d * k - base - 3) / 2
  }

  lemma IndexOf(m: int, base: nat)
    requires base % 2 == 0 && m % 2 == 1 && base + 2 < m
    ensures 0 <= (m - base - 3) / 2 && Number(base, (m - base - 3) / 2) == m
  {
  }

  lemma NothingBefore(d: int, base: nat, j: int)
    requires 3 <= d && d % 2 == 1 && base % 2 == 0
    requires Number(base, j) <= d * FirstMultiplier(d, base + 2)
    ensures forall t :: 0 <= t < j ==> !Hit(d, Number(base, t))
  {
    hide Hit, FirstMultiplier;
    forall t | 0 <= t < j ensures !Hit(d, Number(base, t)) {
      NoHitBefore(d, base + 2, Number(base, t));
    }
  }

  // ---------- the sequence ----------

  /** The largest number the sequence can reach. */
  function Limit(bnd: nat): nat {
    (2 * bnd + 1) * (2 * bnd + 1)
  }

  /** The primes from lo on that the sequence can still deliver. */
  ghost function PrimesFrom(lo: int, bnd: nat): set<int> {
    set q | lo <= q <= Limit(bnd) && Prime(q)
  }

  lemma SameRest(lo: int, hi: int, bnd: nat)
    requires lo <= hi && forall q :: lo <= q < hi ==> !Prime(q)
    ensures PrimesFrom(lo, bnd) == PrimesFrom(hi, bnd)
  {
  }

  lemma TakeLeast(lo: int, r: int, hi: int, bnd: nat)
    requires lo <= r < hi && Prime(r) && r <= Limit(bnd)
    requires forall q :: lo <= q < hi && q != r ==> !Prime(q)
    ensures r in PrimesFrom(lo, bnd) && (forall q :: q in PrimesFrom(lo, bnd) ==> r <= q)
    ensures PrimesFrom(hi, bnd) == PrimesFrom(lo, bnd) - {r}
  {
  }

  lemma MembersOf(lo: int, bnd: nat)
    ensures forall q :: q in PrimesFrom(lo, bnd) ==> lo <= q && Prime(q)
  {
  }

  /** The offset of the row-th window. */
  function RowStart(bnd: nat, row: nat): nat {
    MulNonNeg(2 * bnd, row);
    2 * bnd * row
  }

  /** The largest offset a window may have. */
  function LastStart(bnd: nat): nat {
    2 * bnd * (2 * bnd + 1)
  }

  lemma RowBounds(bnd: nat, row: nat)
    requires 1 <= bnd && row <= 2 * bnd + 1
    ensures RowStart(bnd, row) + 2 * bnd + 1 <= Limit(bnd)
    ensures RowStart(bnd, row) % 2 == 0
    ensures RowStart(bnd, 0) == 0
  {
    MulMono(row, 2 * bnd + 1, 2 * bnd);
    assert Limit(bnd) == 2 * bnd * (2 * bnd + 1) + 2 * bnd + 1;
    EvenFactor(2 * bnd, row);
  }

  lemma WindowNumbers(bnd: nat, row: nat)
    requires 1 <= bnd && row <= 2 * bnd + 1
    ensures forall i :: 0 <= i < bnd ==> Number(RowStart(bnd, row), i) % 2 == 1 && Number(RowStart(bnd, row), i) <= Limit(bnd)
  {
    RowBounds(bnd, row);
  }

  /** The window after a row is a row again, or starts beyond the limit. */
  lemma NextRow(bnd: nat, row: nat)
    requires 1 <= bnd && row <= 2 * bnd + 1
    ensures RowStart(bnd, row) + 2 * bnd == RowStart(bnd, row + 1)
    ensures RowStart(bnd, row + 1) <= LastStart(bnd) ==> row + 1 <= 2 * bnd + 1
    ensures RowStart(bnd, row + 1) > LastStart(bnd) ==> Limit(bnd) <= RowStart(bnd, row + 1) + 1
  {
    if row + 1 <= 2 * bnd + 1 {
      MulMono(row + 1, 2 * bnd + 1, 2 * bnd);
    } else {
      assert Limit(bnd) == 2 * bnd * (2 * bnd + 2) + 1;
    }
  }

  class PrimeSeq {
    const bnd: nat
    var lowsieve: array?<bool>
    var movesieve: array?<bool>
    var movesieveMem: array?<bool>
    var pindex: int
    var pshift: int
    var exhausted: bool
    /** The number of the window at pshift. */
    ghost var row: nat

    ghost function Repr(): set<object>
      reads this
    {
      {this}
      + (if lowsieve != null then {lowsieve} else {})
      + (if movesieveMem != null then {movesieveMem} else {})
    }

    ghost predicate Valid()
      reads this, Repr()
    {
      && 1 <= bnd
      && (lowsieve != null ==> lowsieve.Length == bnd && Sieved(lowsieve[..], 0))
      && (movesieveMem != null ==> movesieveMem.Length == bnd && movesieveMem != lowsieve)
      && -1 <= pindex < bnd
      && (pshift != -1 ==>
            && lowsieve != null
            && pshift == RowStart(bnd, row) && row <= 2 * bnd + 1
            && movesieve == (if pshift == 0 then lowsieve else movesieveMem)
            && movesieve != null && Sieved(movesieve[..], pshift))
    }

    /** Every number below this bound has been delivered or passed over. */
    ghost function Position(): int
      reads this
    {
      if exhausted then Limit(bnd) + 1
      else if pshift < 0 then 2
      else Number(pshift, pindex + 1)
    }

    /** What successive calls of Next still deliver. */
    ghost function Pending(): set<int>
      reads this
    {
      PrimesFrom(Position(), bnd)
    }

    constructor (bound: nat)
      requires 1 <= bound
      ensures Valid() && bnd == bound && Pending() == PrimesFrom(2, bound)
      ensures fresh(Repr())
    {
      bnd := bound;
      lowsieve, movesieve, movesieveMem := null, null, null;
      pindex, pshift, exhausted, row := -1, -1, false, 0;
    }

    /** Moves the window to newshift, or before the prime 2 for a negative one. */
    method Shift(newshift: int, ghost newRow: nat)
      requires Valid()
      requires newshift == -1 || (newshift == RowStart(bnd, newRow) && newRow <= 2 * bnd + 1)
      modifies Repr()
      ensures Valid() && fresh(Repr() - old(Repr()))
      ensures pindex == -1 && pshift == newshift && !exhausted
      ensures newshift != -1 ==> row == newRow
    {
      if lowsieve == null {
        lowsieve := Start(bnd);
      }
      pindex := -1;
      exhausted := false;
      if newshift < 0 {
        pshift := -1;
        return;
      }
      RowBounds(bnd, newRow);
      if newshift == pshift {
        row := newRow;
        return;
      }
      pshift := newshift;
      row := newRow;
      if pshift == 0 {
        movesieve := lowsieve;
      } else {
        if movesieveMem == null {
          movesieveMem := new bool[bnd];
        }
        movesieve := movesieveMem;
        SieveWindow(movesieveMem, pshift, lowsieve);
      }
    }

    /** The scan for the next entry that is set, bnd when there is none. */
    method Scan() returns (i: int)
      requires Valid() && 0 <= pshift
      ensures pindex < i <= bnd
      ensures forall q :: Number(pshift, pindex + 1) <= q < Number(pshift, i) ==> !Prime(q)
      ensures i < bnd ==> Prime(Number(pshift, i)) && Number(pshift, i) % 2 == 1 && Number(pshift, i) <= Limit(bnd)
    {
      hide Prime, RowStart, Limit;
      WindowNumbers(bnd, row);
      i := pindex + 1;
      while i < bnd
        invariant pindex < i <= bnd
        invariant forall q :: Number(pshift, pindex + 1) <= q < Number(pshift, i) ==> !Prime(q)
      {
        NextEven(Number(pshift, i));
        assert movesieve[..][i] == movesieve[i];
        if movesieve[i] { return; }
        i := i + 1;
      }
    }

    /** Delivers the least pending prime, or 0 when there is none left. */
    method Next() returns (r: int)
      requires Valid()
      modifies Repr()
      ensures Valid() && fresh(Repr() - old(Repr()))
      ensures old(Pending()) == {} ==> r == 0 && Pending() == {}
      ensures old(Pending()) != {} ==>
        && r in old(Pending()) && (forall q :: q in old(Pending()) ==> r <= q)
        && Pending() == old(Pending()) - {r}
    {
      hide Prime, PrimesFrom, Limit, Sieved, RowStart, LastStart;
      ghost var lo := Position();
      EmptyBeyond(bnd);
      if exhausted { return 0; }
      if pshift < 0 {
        RowBounds(bnd, 0);
        Shift(0, 0);
        TwoIsFirst(bnd);
        return 2;
      }
      while true
        invariant Valid() && fresh(Repr() - old(Repr()))
        invariant 0 <= pshift && !exhausted && lo <= Position()
        invariant forall q :: lo <= q < Position() ==> !Prime(q)
        decreases 2 * bnd + 2 - row
      {
        var i := Scan();
        if i < bnd {
          pindex := i;
          r := pshift + 2 * i + 3;
          NextEven(r);
          TakeLeast(lo, r, r + 2, bnd);
          return;
        }
        var newshift := pshift + 2 * bnd;
        NextRow(bnd, row);
        if newshift > LastStart(bnd) {
          exhausted := true;
          NoneLeft(lo, bnd);
          return 0;
        }
        Shift(newshift, row + 1);
      }
    }

    /** Makes the next prime the smallest one that is not below b. */
    method Reset(b: int)
      requires Valid()
      modifies Repr()
      ensures Valid() && fresh(Repr() - old(Repr()))
      ensures Pending() == PrimesFrom(if b <= 2 then 2 else b, bnd)
    {
      if b > Limit(bnd) {
        exhausted := true;
        NothingBeyond(b, bnd);
        return;
      }
      if b <= 2 {
        Shift(-1, 0);
        return;
      }
      hide Prime, PrimesFrom, Limit, Sieved, RowStart;
      var c := NextOdd(b, bnd);
      var q := (c - 3) / (2 * bnd);
      ResetRow(bnd, c, q);
      Shift(q * (2 * bnd), q);
      pindex := (c - pshift - 3) / 2 - 1;
    }
  }

  /** b, or the odd number after an even b: no prime is skipped. */
  function NextOdd(b: int, bnd: nat): (c: int)
    requires 2 < b <= Limit(bnd)
    ensures 3 <= c <= Limit(bnd) && c % 2 == 1
    ensures PrimesFrom(b, bnd) == PrimesFrom(c, bnd)
  {
    OddProduct(2 * bnd + 1, 2 * bnd + 1);
    if b % 2 == 0 then
      EvenNotPrime(b);
      SameRest(b, b + 1, bnd);
      b + 1
    else b
  }

  lemma NextEven(m: int)
    requires 3 <= m && m % 2 == 1
    ensures !Prime(m + 1)
  {
    EvenNotPrime(m + 1);
  }

  lemma NoneLeft(lo: int, bnd: nat)
    requires forall q :: lo <= q <= Limit(bnd) ==> !Prime(q)
    ensures PrimesFrom(lo, bnd) == {}
  {
  }

  lemma EmptyBeyond(bnd: nat)
    ensures PrimesFrom(Limit(bnd) + 1, bnd) == {}
  {
  }

  lemma NothingBeyond(b: int, bnd: nat)
    requires Limit(bnd) < b
    ensures PrimesFrom(Limit(bnd) + 1, bnd) == PrimesFrom(b, bnd)
  {
  }

  lemma TwoIsFirst(bnd: nat)
    requires 1 <= bnd
    ensures 2 in PrimesFrom(2, bnd) && (forall q :: q in PrimesFrom(2, bnd) ==> 2 <= q)
    ensures PrimesFrom(3, bnd) == PrimesFrom(2, bnd) - {2}
  {
    assert 4 <= Limit(bnd) by { SquareMono(2, 2 * bnd + 1); }
    TakeLeast(2, 2, 3, bnd);
  }

  /** The window that holds the odd number c, and c's place in it. */
  lemma ResetRow(bnd: nat, c: int, q: int)
    requires 1 <= bnd && 3 <= c <= Limit(bnd) && c % 2 == 1 && q == (c - 3) / (2 * bnd)
    ensures 0 <= q <= 2 * bnd + 1 && q * (2 * bnd) == RowStart(bnd, q)
    ensures 0 <= (c - RowStart(bnd, q) - 3) / 2 < bnd
    ensures Number(RowStart(bnd, q), (c - RowStart(bnd, q) - 3) / 2) == c
  {
    RowOf(2 * bnd, c, q);
    RowBounds(bnd, q);
    HalfOf(c, RowStart(bnd, q), bnd);
  }

  lemma RowOf(w: int, c: int, q: int)
    requires 2 <= w && 3 <= c <= (w + 1) * (w + 1) && q == (c - 3) / w
    ensures 0 <= q <= w + 1 && 0 <= c - 3 - q * w < w
  {
    Quotient(c - 3, w);
    assert (w + 1) * (w + 1) == (w + 2) * w + 1;
    if q >= w + 2 { MulMono(w + 2, q, w); }
  }

  lemma HalfOf(c: int, start: nat, bnd: nat)
    requires c % 2 == 1 && start % 2 == 0 && 0 <= c - 3 - start < 2 * bnd
    ensures 0 <= (c - start - 3) / 2 < bnd
    ensures Number(start, (c - start - 3) / 2) == c
  {
  }

  // ---------- trial division for a Germain prime ----------

  /** r == p - r - 1 for r = n mod p is the test that p divides 2*n + 1. */
  lemma TwiceTest(n: nat, p: int)
    requires 3 <= p && !Divides(p, n) && p % 2 == 1
    ensures n % p == p - n % p - 1 <==> Divides(p, 2 * n + 1)
  {
    var r, q := n % p, n / p;
    assert n == q * p + r;
    assert 2 * n + 1 == 2 * q * p + (2 * r + 1);
    if 2 * r + 1 < p {
      DivModUnique(2 * n + 1, p, 2 * q, 2 * r + 1);
    } else {
      assert 2 * n + 1 == (2 * q + 1) * p + (2 * r + 1 - p);
      DivModUnique(2 * n + 1, p, 2 * q + 1, 2 * r + 1 - p);
    }
  }

  /** The two tests on r = n mod p. */
  predicate SurvivesDivision(n: nat, p: int)
    requires 3 <= p && p % 2 == 1
    ensures SurvivesDivision(n, p) <==> !Divides(p, n) && !Divides(p, 2 * n + 1)
  {
    var r := n % p;
    if r == 0 then false
    else
      TwiceTest(n, p);
      r != p - r - 1
  }

  /** No prime of the set below hi and primeBnd divides n or 2*n + 1. */
  ghost predicate NoSmallDivisor(n: nat, primes: set<int>, hi: int, primeBnd: int) {
    forall q :: q in primes && 2 < q < hi && q < primeBnd ==> !Divides(q, n) && !Divides(q, 2 * n + 1)
  }

  /** The sieving loop of GenGermainPrime: n passes exactly when no odd prime of
      the sequence below primeBnd divides n or 2*n + 1. */
  method GermainSieve(s: PrimeSeq, n: nat, primeBnd: int) returns (passed: bool)
    requires s.Valid()
    modifies s.Repr()
    ensures s.Valid() && fresh(s.Repr() - old(s.Repr()))
    ensures passed <==> NoSmallDivisor(n, PrimesFrom(3, s.bnd), primeBnd, primeBnd)
  {
    hide Prime, PrimesFrom, Divides, SurvivesDivision, PrimeSeq.Valid, PrimeSeq.Pending;
    passed := true;
    s.Reset(3);
    ghost var all := s.Pending();
    MembersOf(3, s.bnd);
    var p := s.Next();
    while p != 0 && p < primeBnd
      invariant s.Valid() && fresh(s.Repr() - old(s.Repr()))
      invariant passed && all == PrimesFrom(3, s.bnd)
      invariant p == 0 ==> NoSmallDivisor(n, all, primeBnd, primeBnd)
      invariant p != 0 ==> p in all && NoSmallDivisor(n, all, p, primeBnd)
      invariant p != 0 ==> forall q :: q in all ==> (q in s.Pending() <==> p < q)
      invariant s.Pending() <= all
      decreases s.Pending(), p != 0
    {
      OddPrime(p);
      if !SurvivesDivision(n, p) {
        return false;
      }
      p := s.Next();
    }
  }

  lemma OddPrime(p: int)
    requires Prime(p) && 2 < p
    ensures p % 2 == 1
  {
    if p % 2 == 0 { EvenNotPrime(p); }
  }
}
