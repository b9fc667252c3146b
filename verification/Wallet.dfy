/** Wallet: the order in which coin indices are spent, and coins put back. */
module Wallet {

  datatype Option<+T> = None | Some(value: T)

  /** The indices of a wallet of n coins, in order. */
  function Indices(n: int): (s: seq<int>)
    ensures |s| == (if n < 0 then 0 else n)
    ensures forall i :: 0 <= i < |s| ==> s[i] == i
  {
    if n <= 0 then [] else Indices(n - 1) + [n - 1]
  }

  ghost predicate Distinct(s: seq<int>) {
    forall i, j :: 0 <= i < j < |s| ==> s[i] != s[j]
  }

  ghost predicate InRange(s: seq<int>, n: int) {
    forall i :: 0 <= i < |s| ==> 0 <= s[i] < n
  }

  /** What every state of a wallet of n coins satisfies of its unspent indices. */
  ghost predicate Unique(s: seq<int>, n: int) {
    Distinct(s) && InRange(s, n)
  }

  // ---------- sets of indices ----------

  ghost function Elements(s: seq<int>): set<int> {
    set x | x in s
  }

  lemma {:induction false} DistinctCount(s: seq<int>)
    requires Distinct(s)
    ensures |Elements(s)| == |s|
  {
    if |s| > 0 {
      var t, last := s[..|s| - 1], s[|s| - 1];
      DistinctCount(t);
      assert s == t + [last];
      assert Elements(s) == Elements(t) + {last};
    }
  }

  lemma {:induction false} CountAtMost(a: set<int>, n: nat)
    requires forall x :: x in a ==> 0 <= x < n
    ensures |a| <= n
  {
    if n == 0 {
      assert forall x :: x !in a;
      assert a == {};
    } else {
      CountAtMost(a - {n - 1}, n - 1);
    }
  }

  /** n different indices below n are all of them. */
  lemma Pigeonhole(s: seq<int>, n: int, x: int)
    requires Unique(s, n) && |s| == n && 0 <= x < n
    ensures x in s
  {
    var a := Elements(s);
    DistinctCount(s);
    if x !in s {
      Squeeze(a, n, x);
    }
  }

  /** A set of numbers below n that misses x has fewer than n elements. */
  lemma Squeeze(a: set<int>, n: nat, x: int)
    requires (forall y :: y in a ==> 0 <= y < n) && x !in a && 0 <= x < n
    ensures |a| < n
  {
    CountAtMost(a + {x}, n);
  }

  /** A rearrangement of the indices below n consists of different ones. */
  lemma PermutationUnique(s: seq<int>, n: int)
    requires multiset(s) == multiset(Indices(n))
    ensures Unique(s, n) && |s| == |Indices(n)|
  {
    assert |multiset(s)| == |s| && |multiset(Indices(n))| == |Indices(n)|;
    forall i | 0 <= i < |s| ensures 0 <= s[i] < n {
      assert s[i] in multiset(s);
      assert s[i] in Indices(n);
    }
    forall i, j | 0 <= i < j < |s| ensures s[i] != s[j] {
      if s[i] == s[j] {
        CountTwice(s, i, j);
        IndexOnce(n, s[i]);
      }
    }
  }

  lemma CountTwice(s: seq<int>, i: int, j: int)
    requires 0 <= i < j < |s| && s[i] == s[j]
    ensures multiset(s)[s[i]] >= 2
  {
    assert s == s[..i] + [s[i]] + s[i + 1..j] + [s[j]] + s[j + 1..];
  }

  lemma {:induction false} IndexOnce(n: int, x: int)
    ensures multiset(Indices(n))[x] <= 1
  {
    if n > 0 {
      IndexOnce(n - 1, x);
      if x == n - 1 {
        assert x !in Indices(n - 1);
      }
    }
  }

  // ---------- the shuffle ----------

  function Swapped(s: seq<int>, i: nat, j: nat): (t: seq<int>)
    requires i < |s| && j < |s|
    ensures |t| == |s| && t[i] == s[j] && t[j] == s[i]
    ensures forall k :: 0 <= k < |s| && k != i && k != j ==> t[k] == s[k]
  {
    s[i := s[j]][j := s[i]]
  }

  /** The order after the first k positions have been swapped with the given ones. */
  function Shuffled(n: nat, positions: int -> int, k: nat): (s: seq<int>)
    requires k <= n && forall i :: 0 <= i < n ==> 0 <= positions(i) < n
    ensures |s| == n
  {
    if k == 0 then Indices(n) else Swapped(Shuffled(n, positions, k - 1), k - 1, positions(k - 1))
  }

  lemma {:induction false} ShuffledKeeps(n: nat, positions: int -> int, k: nat)
    requires k <= n && forall i :: 0 <= i < n ==> 0 <= positions(i) < n
    ensures multiset(Shuffled(n, positions, k)) == multiset(Indices(n))
  {
    hide Indices, Swapped;
    if k > 0 {
      ShuffledKeeps(n, positions, k - 1);
      SwappedKeeps(Shuffled(n, positions, k - 1), k - 1, positions(k - 1));
    }
  }

  lemma SwappedKeeps(s: seq<int>, i: nat, j: nat)
    requires i < |s| && j < |s|
    ensures multiset(Swapped(s, i, j)) == multiset(s)
  {
    SwapKeeps(s, i, j);
  }

  /** The shuffle depends only on the positions used so far. */
  lemma {:induction false} SamePositions(n: nat, p: int -> int, q: int -> int, k: nat)
    requires k <= n && forall i :: 0 <= i < n ==> 0 <= p(i) < n && 0 <= q(i) < n
    requires forall i :: 0 <= i < k ==> p(i) == q(i)
    ensures Shuffled(n, p, k) == Shuffled(n, q, k)
  {
    if k > 0 { SamePositions(n, p, q, k - 1); }
  }

  /** Positions that bring about the first k places of an order. */
  lemma {:induction false} PositionsFor(order: seq<int>, k: nat) returns (positions: int -> int)
    requires multiset(order) == multiset(Indices(|order|)) && k <= |order|
    ensures forall i :: 0 <= i < |order| ==> 0 <= positions(i) < |order|
    ensures Shuffled(|order|, positions, k)[..k] == order[..k]
  {
    hide Indices, Swapped;
    if k == 0 {
      positions := i => if 0 <= i < |order| then i else 0;
    } else {
      var n := |order|;
      var before := PositionsFor(order, k - 1);
      ShuffledKeeps(n, before, k - 1);
      var j := NotYetPlaced(order, Shuffled(n, before, k - 1), k - 1);
      positions := i => if i == k - 1 then j else before(i);
      SamePositions(n, before, positions, k - 1);
      OneMorePlace(order, Shuffled(n, before, k - 1), k - 1, j);
    }
  }

  lemma OneMorePlace(order: seq<int>, s: seq<int>, k: nat, j: nat)
    requires k <= j < |s| == |order| && s[..k] == order[..k] && s[j] == order[k]
    ensures Swapped(s, k, j)[..k + 1] == order[..k + 1]
  {
    var t := Swapped(s, k, j);
    forall i | 0 <= i < k ensures t[i] == order[i] {
      assert s[..k][i] == order[..k][i];
    }
  }

  /** What comes next in an order is among the places that are not settled. */
  lemma NotYetPlaced(order: seq<int>, s: seq<int>, k: nat) returns (j: nat)
    requires k < |order| == |s| && multiset(order) == multiset(s) && s[..k] == order[..k]
    ensures k <= j < |s| && s[j] == order[k]
  {
    SameRest(order, s, k);
    assert order[k..][0] == order[k] && order[k] in multiset(order[k..]);
    assert order[k] in s[k..];
    j :| k <= j < |s| && s[j] == order[k];
  }

  lemma SameRest(a: seq<int>, b: seq<int>, k: nat)
    requires k <= |a| == |b| && multiset(a) == multiset(b) && a[..k] == b[..k]
    ensures multiset(a[k..]) == multiset(b[k..])
  {
    assert multiset(a) == multiset(a[..k]) + multiset(a[k..]) by { assert a == a[..k] + a[k..]; }
    assert multiset(b) == multiset(b[..k]) + multiset(b[k..]) by { assert b == b[..k] + b[k..]; }
    forall x ensures multiset(a[k..])[x] == multiset(b[k..])[x] {
      assert multiset(a)[x] == multiset(b)[x];
    }
  }

  /** Every order of the coins can come about. */
  lemma EveryOrder(order: seq<int>) returns (positions: int -> int)
    requires multiset(order) == multiset(Indices(|order|))
    ensures forall i :: 0 <= i < |order| ==> 0 <= positions(i) < |order|
    ensures Shuffled(|order|, positions, |order|) == order
  {
    positions := PositionsFor(order, |order|);
    var s := Shuffled(|order|, positions, |order|);
    assert s[..|order|] == s && order[..|order|] == order;
  }

  lemma StartOrder(size: int, random: int -> int)
    requires forall i :: 0 <= i < size ==> 0 <= random(i) < size
    ensures if size < 0 then Indices(size) == Indices(0) == [] else Shuffled(size, random, 0) == Indices(size)
  {
  }

  lemma NextIndex(i: nat)
    ensures Indices(0) == [] && Indices(i + 1) == Indices(i) + [i]
  {
  }

  lemma NextSwap(n: nat, random: int -> int, i: nat)
    requires i < n && forall i :: 0 <= i < n ==> 0 <= random(i) < n
    ensures var s := Shuffled(n, random, i);
      Shuffled(n, random, i + 1) == s[i := s[random(i)]][random(i) := s[i]]
  {
    hide Indices;
  }

  lemma OrderKeeps(size: int, random: int -> int, order: seq<int>)
    requires forall i :: 0 <= i < size ==> 0 <= random(i) < size
    requires if size < 0 then order == [] else order == Shuffled(size, random, size)
    ensures multiset(order) == multiset(Indices(size)) && |order| == |Indices(size)| && Unique(order, size)
  {
    if 0 <= size { ShuffledKeeps(size, random, size); } else { assert Indices(size) == []; }
    PermutationUnique(order, size);
  }

  class Wallet {
    const walletSize: int
    var numCoinsUsed: int
    var spendOrder: seq<int>

    ghost predicate Valid()
      reads this
    {
      && |spendOrder| == |Indices(walletSize)|
      && 0 <= numCoinsUsed <= |spendOrder|
      && Unique(Unspent(), walletSize)
    }

    /** The indices still to be spent, in spending order. */
    ghost function Unspent(): seq<int>
      requires 0 <= numCoinsUsed <= |spendOrder|
      reads this
    {
      spendOrder[numCoinsUsed..]
    }

    /** Fills the spend order and shuffles it by one swap for each position, with
        any source of positions. */
    constructor (size: int, random: int -> int)
      requires forall i :: 0 <= i < size ==> 0 <= random(i) < size
      ensures Valid() && walletSize == size && numCoinsUsed == 0
      ensures multiset(Unspent()) == multiset(Indices(size))
      ensures Unspent() == if size < 0 then [] else Shuffled(size, random, size)
    {
      walletSize := size;
      numCoinsUsed := 0;
      hide *;
      var order := [];
      NextIndex(0);
      var i := 0;
      while i < size
        invariant order == Indices(i) && 0 <= i && (if 0 <= size then i <= size else i == 0)
      {
        NextIndex(i);
        order := order + [i];
        i := i + 1;
      }
      StartOrder(size, random);
      i := 0;
      while i < size
        invariant 0 <= i && (if size < 0 then order == [] && i == 0 else i <= size && order == Shuffled(size, random, i))
      {
        var index := random(i);
        NextSwap(size, random, i);
        var temp := order[i];
        order := order[i := order[index]];
        order := order[index := temp];
        i := i + 1;
      }
      spendOrder := order;
      OrderKeeps(size, random, order);
      new;
      IsFresh();
    }

    /** Before the first coin is spent the whole order is unspent. */
    lemma IsFresh()
      requires numCoinsUsed == 0 && |spendOrder| == |Indices(walletSize)| && Unique(spendOrder, walletSize)
      ensures Valid() && Unspent() == spendOrder
    {
      assert spendOrder[0..] == spendOrder;
    }

    /** The next unspent index, None (an exception in the source) when there is none. */
    method NextCoinIndex() returns (r: Option<int>)
      requires Valid()
      modifies this
      ensures Valid()
      ensures if old(Unspent()) == [] then r == None && Unspent() == []
              else r == Some(old(Unspent())[0]) && Unspent() == old(Unspent())[1..]
      ensures Unspent() == Apply(walletSize, old(Unspent()), Next).unspent
    {
      if numCoinsUsed >= walletSize { return None; }
      r := Some(spendOrder[numCoinsUsed]);
      numCoinsUsed := numCoinsUsed + 1;
    }

    /** Puts an index back in front, unless it is no index of the wallet or still
        unspent. The count of used coins cannot go below 0: with no coin used,
        every index is unspent. */
    method ReplaceCoin(index: int) returns (ok: bool)
      requires Valid()
      modifies this
      ensures Valid()
      ensures ok <==> 0 <= index < walletSize && index !in old(Unspent())
      ensures Unspent() == if ok then [index] + old(Unspent()) else old(Unspent())
      ensures Unspent() == Apply(walletSize, old(Unspent()), Replace(index)).unspent
    {
      if index < 0 || index >= walletSize { return false; }
      var i := numCoinsUsed;
      while i < |spendOrder|
        invariant numCoinsUsed <= i <= |spendOrder| && Valid()
        invariant Unspent() == old(Unspent()) && spendOrder == old(spendOrder)
        invariant forall j :: numCoinsUsed <= j < i ==> spendOrder[j] != index
      {
        if spendOrder[i] == index {
          assert Unspent()[i - numCoinsUsed] == index;
          return false;
        }
        i := i + 1;
      }
      assert index !in Unspent();
      if numCoinsUsed == 0 {
        Pigeonhole(Unspent(), walletSize, index);
      }
      numCoinsUsed := numCoinsUsed - 1;
      spendOrder := spendOrder[numCoinsUsed := index];
      assert Unspent() == [index] + old(Unspent());
      return true;
    }
  }

  lemma SwapKeeps(s: seq<int>, i: int, j: int)
    requires 0 <= i < |s| && 0 <= j < |s|
    ensures multiset(s[i := s[j]][j := s[i]]) == multiset(s)
  {
  }

  // ---------- whole runs ----------

  /** A call on the wallet. */
  datatype Op = Next | Replace(index: int)

  /** The effect of one call on the unspent indices, and the index it issues or
      takes back. */
  datatype Step = Step(unspent: seq<int>, issued: seq<int>, returned: seq<int>)

  function Apply(n: int, u: seq<int>, op: Op): Step {
    match op
    case Next => if u == [] then Step(u, [], []) else Step(u[1..], [u[0]], [])
    case Replace(index) =>
      if 0 <= index < n && index !in u then Step([index] + u, [], [index]) else Step(u, [], [])
  }

  function Run(n: int, u: seq<int>, ops: seq<Op>): Step {
    if |ops| == 0 then Step(u, [], [])
    else
      var before := Run(n, u, ops[..|ops| - 1]);
      var last := Apply(n, before.unspent, ops[|ops| - 1]);
      Step(last.unspent, before.issued + last.issued, before.returned + last.returned)
  }

  lemma ApplyKeeps(n: int, u: seq<int>, op: Op)
    requires Unique(u, n)
    ensures Unique(Apply(n, u, op).unspent, n)
    ensures multiset(Apply(n, u, op).issued) + multiset(Apply(n, u, op).unspent)
         == multiset(u) + multiset(Apply(n, u, op).returned)
  {
    ApplyUnique(n, u, op);
    hide Unique;
    if op.Next? && u != [] {
      assert u == [u[0]] + u[1..];
    }
  }

  lemma ApplyUnique(n: int, u: seq<int>, op: Op)
    requires Unique(u, n)
    ensures Unique(Apply(n, u, op).unspent, n)
  {
  }

  /** Over every run, the unspent indices stay different and in range, there are
      never more than n of them, and what was issued and not taken back together
      with what is unspent is what there was at the start. */
  lemma {:induction false} RunKeeps(n: int, u: seq<int>, ops: seq<Op>)
    requires 0 <= n && Unique(u, n)
    ensures Unique(Run(n, u, ops).unspent, n)
    ensures |Run(n, u, ops).unspent| <= n
    ensures multiset(Run(n, u, ops).issued) + multiset(Run(n, u, ops).unspent)
         == multiset(u) + multiset(Run(n, u, ops).returned)
  {
    hide Unique, Elements, Distinct, Apply;
    if |ops| > 0 {
      var before := Run(n, u, ops[..|ops| - 1]);
      var last := Apply(n, before.unspent, ops[|ops| - 1]);
      RunKeeps(n, u, ops[..|ops| - 1]);
      ApplyKeeps(n, before.unspent, ops[|ops| - 1]);
      Conserve(before, last, u);
      assert Run(n, u, ops)
          == Step(last.unspent, before.issued + last.issued, before.returned + last.returned);
    }
    RangeCount(Run(n, u, ops).unspent, n);
  }

  lemma RangeCount(w: seq<int>, n: nat)
    requires Unique(w, n)
    ensures |w| <= n
  {
    DistinctCount(w);
    CountAtMost(Elements(w), n);
  }

  lemma Conserve(before: Step, last: Step, u: seq<int>)
    requires multiset(before.issued) + multiset(before.unspent)
          == multiset(u) + multiset(before.returned)
    requires multiset(last.issued) + multiset(last.unspent)
          == multiset(before.unspent) + multiset(last.returned)
    ensures multiset(before.issued + last.issued) + multiset(last.unspent)
         == multiset(u) + multiset(before.returned + last.returned)
  {
    calc {
      multiset(before.issued + last.issued) + multiset(last.unspent);
      multiset(before.issued) + (multiset(last.issued) + multiset(last.unspent));
      (multiset(before.issued) + multiset(before.unspent)) + multiset(last.returned);
      multiset(u) + multiset(before.returned + last.returned);
    }
  }

  /** Without replacements a full wallet issues its unspent indices in order, all
      n of them and each once, and then nothing. */
  lemma {:induction false} RunWithoutReplacing(n: int, u: seq<int>, ops: seq<Op>)
    requires forall i :: 0 <= i < |ops| ==> ops[i] == Next
    ensures Run(n, u, ops).issued == (if |ops| <= |u| then u[..|ops|] else u)
    ensures Run(n, u, ops).unspent == (if |ops| <= |u| then u[|ops|..] else [])
  {
    if |ops| > 0 {
      RunWithoutReplacing(n, u, ops[..|ops| - 1]);
    }
  }

  /** A fresh wallet asked at least n times issues each of its n indices exactly
      once. */
  lemma FreshIssuesAll(n: nat, u: seq<int>, ops: seq<Op>)
    requires multiset(u) == multiset(Indices(n))
    requires n <= |ops| && forall i :: 0 <= i < |ops| ==> ops[i] == Next
    ensures multiset(Run(n, u, ops).issued) == multiset(Indices(n))
    ensures Distinct(Run(n, u, ops).issued) && |Run(n, u, ops).issued| == n
    ensures Run(n, u, ops).unspent == []
  {
    PermutationUnique(u, n);
    RunDrains(n, u, ops);
    hide Run, Distinct, InRange;
  }

  lemma RunDrains(n: int, u: seq<int>, ops: seq<Op>)
    requires |u| <= |ops| && forall i :: 0 <= i < |ops| ==> ops[i] == Next
    ensures Run(n, u, ops).issued == u && Run(n, u, ops).unspent == []
  {
    RunWithoutReplacing(n, u, ops);
    hide Run;
    assert u[..|u|] == u && u[|u|..] == [];
  }

  /** An index issued twice in a run was taken back at least once. */
  lemma IssuedTwice(n: int, u: seq<int>, ops: seq<Op>, x: int)
    requires 0 <= n && Unique(u, n) && multiset(Run(n, u, ops).issued)[x] >= 2
    ensures x in Run(n, u, ops).returned
  {
    RunKeeps(n, u, ops);
    DistinctOnce(u, x);
    hide Unique, Run;
    var r := Run(n, u, ops);
    assert (multiset(r.issued) + multiset(r.unspent))[x] == (multiset(u) + multiset(r.returned))[x];
    assert x in multiset(r.returned);
  }

  lemma {:induction false} DistinctOnce(u: seq<int>, x: int)
    requires Distinct(u)
    ensures multiset(u)[x] <= 1
  {
    if |u| > 0 {
      var t, last := u[..|u| - 1], u[|u| - 1];
      DistinctOnce(t, x);
      assert u == t + [last] && last !in t;
      assert multiset(u) == multiset(t) + multiset{last};
      if x == last {
        assert x !in multiset(t);
      }
    }
  }
}
