/**
 The metrics of treecheck: node heights, the post-order pass that caches
 every node's balance factor, and the in-order statistics fold that threads
 running minimum, maximum, sum and count accumulators.
 */
module Metrics {
  import opened Trees

  function Max(a: int, b: int): int { if a < b then b else a }

  function Min(a: int, b: int): int { if a < b then a else b }

  /** Height of a tree: 0 for the empty tree, else one more than the taller child. */
  function Height(t: Tree): (h: nat)
    ensures h <= Size(t)
    ensures h == 0 <==> t == Leaf
  {
    match t
    case Leaf => 0
    case Node(_, l, r, _) => 1 + Max(Height(l), Height(r))
  }

  function Pow2(n: nat): nat
  {
    if n == 0 then 1 else 2 * Pow2(n - 1)
  }

  lemma {:induction false} Pow2Monotone(a: nat, b: nat)
    requires a <= b
    ensures Pow2(a) <= Pow2(b)
  {
    if a < b {
      Pow2Monotone(a, b - 1);
    }
  }

  /** A tree of height h has fewer than 2^h nodes. */
  lemma {:induction false} HeightBounds(t: Tree)
    ensures Size(t) < Pow2(Height(t))
  {
    match t
    case Leaf =>
    case Node(_, l, r, _) =>
      HeightBounds(l);
      HeightBounds(r);
      var h := Height(t);
      Pow2Monotone(Height(l), h - 1);
      Pow2Monotone(Height(r), h - 1);
  }

  /** A longest root-to-leaf walk of `t`. */
  function LongestPath(t: Tree): (p: seq<int>)
    ensures |p| == Height(t)
    ensures t.Node? ==> DownPath(t, p)
  {
    match t
    case Leaf => []
    case Node(k, l, r, _) =>
      var pl, pr := LongestPath(l), LongestPath(r);
      var p := if Height(l) < Height(r) then [k] + pr else [k] + pl;
      assert p[1..] == (if Height(l) < Height(r) then pr else pl);
      p
  }

  /** The height is the number of keys on a longest downward walk. */
  lemma {:induction false} HeightIsLongestPath(t: Tree, p: seq<int>)
    requires DownPath(t, p)
    ensures |p| <= Height(t)
  {
    match t
    case Node(_, l, r, _) =>
      if |p| > 1 {
        if DownPath(l, p[1..]) {
          HeightIsLongestPath(l, p[1..]);
        } else {
          HeightIsLongestPath(r, p[1..]);
        }
      }
  }

  /** The height depends on the shape only, never on cached balance factors. */
  lemma {:induction false} HeightIgnoresBalance(a: Tree, b: Tree)
    requires Erase(a) == Erase(b)
    ensures Height(a) == Height(b)
  {
    match a
    case Leaf =>
    case Node(_, l, r, _) =>
      HeightIgnoresBalance(l, b.left);
      HeightIgnoresBalance(r, b.right);
  }

  /** Every node caches height(right) - height(left). */
  ghost predicate BalanceFactorsCorrect(t: Tree)
  {
    match t
    case Leaf => true
    case Node(_, l, r, b) =>
      b == Height(r) - Height(l) && BalanceFactorsCorrect(l) && BalanceFactorsCorrect(r)
  }

  /** The post-order balance-factor pass, returning the updated tree. */
  function ComputeBalanceFactors(t: Tree): (r: Tree)
    ensures Erase(r) == Erase(t)
    ensures Height(r) == Height(t)
    ensures BalanceFactorsCorrect(r)
  {
    match t
    case Leaf => Leaf
    case Node(k, l, rt, _) =>
      var l', r' := ComputeBalanceFactors(l), ComputeBalanceFactors(rt);
      Node(k, l', r', Height(r') - Height(l'))
  }

  /** Balance-factor correctness, stated node by node. */
  lemma {:induction false} BalanceFactorsCorrectAtEveryNode(t: Tree)
    ensures BalanceFactorsCorrect(t) <==>
      forall n :: n in Nodes(t) ==> n.bf == Height(n.right) - Height(n.left)
  {
    match t
    case Leaf =>
    case Node(_, l, r, _) =>
      BalanceFactorsCorrectAtEveryNode(l);
      BalanceFactorsCorrectAtEveryNode(r);
  }

  /** Two trees of the same shape and keys whose balance factors are both
      correct are equal: the cached values are determined by the shape. */
  lemma {:induction false} CorrectBalanceFactorsAreUnique(a: Tree, b: Tree)
    requires Erase(a) == Erase(b)
    requires BalanceFactorsCorrect(a) && BalanceFactorsCorrect(b)
    ensures a == b
  {
    match a
    case Leaf =>
    case Node(_, l, r, _) =>
      CorrectBalanceFactorsAreUnique(l, b.left);
      CorrectBalanceFactorsAreUnique(r, b.right);
  }

  /** The pass leaves a tree whose balance factors are already correct alone. */
  lemma {:induction false} ComputeBalanceFactorsFixesCorrectTree(t: Tree)
    requires BalanceFactorsCorrect(t)
    ensures ComputeBalanceFactors(t) == t
  {
    CorrectBalanceFactorsAreUnique(ComputeBalanceFactors(t), t);
  }

  /** Running the pass twice gives the same tree as running it once. */
  lemma {:induction false} ComputeBalanceFactorsIdempotent(t: Tree)
    ensures ComputeBalanceFactors(ComputeBalanceFactors(t)) == ComputeBalanceFactors(t)
  {
    ComputeBalanceFactorsFixesCorrectTree(ComputeBalanceFactors(t));
  }

  /** The pass keeps the keys, their in-order sequence and the search order. */
  lemma {:induction false} ComputeBalanceFactorsKeepsKeys(t: Tree)
    ensures Keys(ComputeBalanceFactors(t)) == Keys(t)
    ensures InOrder(ComputeBalanceFactors(t)) == InOrder(t)
    ensures IsBst(ComputeBalanceFactors(t)) == IsBst(t)
  {
    EraseKeepsKeysAndOrder(t);
    EraseKeepsKeysAndOrder(ComputeBalanceFactors(t));
  }

  /** The four accumulators the statistics pass threads by reference. */
  datatype Stats = Stats(min: int, max: int, sum: int, count: int)

  /** Smallest and largest values of a 32-bit `int`: the caller's starting
      minimum and maximum. */
  const IntMax: int := 0x7fff_ffff
  const IntMin: int := -0x8000_0000

  /** One visited key folded into the accumulators. */
  function Visit(acc: Stats, k: int): Stats
  {
    Stats(Min(acc.min, k), Max(acc.max, k), acc.sum + k, acc.count + 1)
  }

  /** Visiting the keys of `s` from first to last. */
  function VisitAll(s: seq<int>, acc: Stats): Stats
  {
    if |s| == 0 then acc else VisitAll(s[1..], Visit(acc, s[0]))
  }

  function Sum(s: seq<int>): int
  {
    if |s| == 0 then 0 else s[0] + Sum(s[1..])
  }

  lemma {:induction false} SumConcat(a: seq<int>, b: seq<int>)
    ensures Sum(a + b) == Sum(a) + Sum(b)
  {
    if |a| > 0 {
      assert (a + b)[0] == a[0] && (a + b)[1..] == a[1..] + b;
      SumConcat(a[1..], b);
    } else {
      assert a + b == b;
    }
  }

  /** The in-order statistics pass over `t` starting from `acc`. */
  function Statistics(t: Tree, acc: Stats): (r: Stats)
    ensures r.count == acc.count + Size(t)
    ensures r.sum == acc.sum + Sum(InOrder(t))
    ensures r.min <= acc.min && forall x :: x in Keys(t) ==> r.min <= x
    ensures r.min == acc.min || r.min in Keys(t)
    ensures r.max >= acc.max && forall x :: x in Keys(t) ==> x <= r.max
    ensures r.max == acc.max || r.max in Keys(t)
  {
    match t
    case Leaf => acc
    case Node(k, l, rt, _) =>
      SumConcat(InOrder(l) + [k], InOrder(rt));
      SumConcat(InOrder(l), [k]);
      Statistics(rt, Visit(Statistics(l, acc), k))
  }

  lemma {:induction false} VisitAllConcat(a: seq<int>, b: seq<int>, acc: Stats)
    ensures VisitAll(a + b, acc) == VisitAll(b, VisitAll(a, acc))
  {
    if |a| > 0 {
      assert (a + b)[0] == a[0] && (a + b)[1..] == a[1..] + b;
      VisitAllConcat(a[1..], b, Visit(acc, a[0]));
    } else {
      assert a + b == b;
    }
  }

  /** The statistics pass visits the keys in in-order sequence. */
  lemma {:induction false} StatisticsVisitsInOrder(t: Tree, acc: Stats)
    ensures Statistics(t, acc) == VisitAll(InOrder(t), acc)
  {
    match t
    case Leaf =>
    case Node(k, l, r, _) =>
      StatisticsVisitsInOrder(l, acc);
      var mid := Visit(Statistics(l, acc), k);
      StatisticsVisitsInOrder(r, mid);
      VisitAllConcat(InOrder(l) + [k], InOrder(r), acc);
      VisitAllConcat(InOrder(l), [k], acc);
  }

  /** On an empty tree the accumulators come back unchanged. */
  lemma StatisticsOfEmptyTree(acc: Stats)
    ensures Statistics(Leaf, acc) == acc
  {
  }

  /** Started from the caller's sentinels on a non-empty tree of 32-bit keys,
      the pass reports the smallest and largest key and the node count. */
  lemma StatisticsFromSentinels(t: Tree)
    requires t.Node?
    requires forall x :: x in Keys(t) ==> IntMin <= x <= IntMax
    ensures var r := Statistics(t, Stats(IntMax, IntMin, 0, 0));
      && r.min in Keys(t) && (forall x :: x in Keys(t) ==> r.min <= x)
      && r.max in Keys(t) && (forall x :: x in Keys(t) ==> x <= r.max)
      && r.count == Size(t)
  {
    var r := Statistics(t, Stats(IntMax, IntMin, 0, 0));
    assert t.key in Keys(t);
  }
}
