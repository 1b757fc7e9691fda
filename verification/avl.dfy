/**
 The AVL verifier: the recursive check that every cached balance factor lies
 in [-1, 1], and the balance report, modelled as the sequence of lines it
 emits (key, balance factor, violation flag) in the order it emits them.
 */
module Avl {
  import opened Trees
  import opened Metrics

  function Abs(x: int): nat { if x < 0 then -x else x }

  /** main.cpp's `isAVL`, reading the cached balance factors: it holds exactly
      when every node's factor lies in [-1, 1]. */
  function IsAvl(t: Tree): (r: bool)
    ensures r <==> forall n :: n in Nodes(t) ==> -1 <= n.bf <= 1
  {
    match t
    case Leaf => true
    case Node(_, l, r, b) => Abs(b) <= 1 && IsAvl(l) && IsAvl(r)
  }

  /** Height balance read off the shape alone, without cached factors. */
  ghost predicate HeightBalanced(t: Tree)
  {
    match t
    case Leaf => true
    case Node(_, l, r, _) =>
      -1 <= Height(r) - Height(l) <= 1 && HeightBalanced(l) && HeightBalanced(r)
  }

  lemma {:induction false} IsAvlOfCorrectFactors(t: Tree)
    requires BalanceFactorsCorrect(t)
    ensures IsAvl(t) <==> HeightBalanced(t)
  {
    match t
    case Leaf =>
    case Node(_, l, r, _) =>
      IsAvlOfCorrectFactors(l);
      IsAvlOfCorrectFactors(r);
  }

  lemma {:induction false} HeightBalancedIgnoresBalance(a: Tree, b: Tree)
    requires Erase(a) == Erase(b)
    ensures HeightBalanced(a) <==> HeightBalanced(b)
  {
    match a
    case Leaf =>
    case Node(_, l, r, _) =>
      HeightBalancedIgnoresBalance(l, b.left);
      HeightBalancedIgnoresBalance(r, b.right);
      HeightIgnoresBalance(l, b.left);
      HeightIgnoresBalance(r, b.right);
  }

  /** Once the balance factors are computed, the verdict says whether the tree
      is height-balanced. */
  lemma {:induction false} IsAvlAfterComputeIffHeightBalanced(t: Tree)
    ensures IsAvl(ComputeBalanceFactors(t)) <==> HeightBalanced(t)
  {
    IsAvlOfCorrectFactors(ComputeBalanceFactors(t));
    HeightBalancedIgnoresBalance(ComputeBalanceFactors(t), t);
  }

  /** Before the factors are computed every node holds the sentinel -1, so the
      verdict is "yes" for any tree, balanced or not. */
  lemma {:induction false} UnsetTreePassesAvlCheck(t: Tree)
    requires AllUnset(t)
    ensures IsAvl(t)
  {
    match t
    case Leaf =>
    case Node(_, l, r, _) =>
      UnsetTreePassesAvlCheck(l);
      UnsetTreePassesAvlCheck(r);
  }

  /** One line of the balance report. */
  datatype Line = Line(key: int, bf: int, violation: bool)

  /** The line printed for key `k` with factor `b`, flagged "(AVL violation!)"
      when the factor is outside [-1, 1]. */
  function LineOf(k: int, b: int): (line: Line)
    ensures line.key == k && line.bf == b
    ensures line.violation <==> Abs(b) > 1
  {
    Line(k, b, b > 1 || b < -1)
  }

  /** The report lines listed node-first, left before right (pre-order). */
  function PreOrderLines(t: Tree): seq<Line>
  {
    match t
    case Leaf => []
    case Node(k, l, r, b) => [LineOf(k, b)] + PreOrderLines(l) + PreOrderLines(r)
  }

  function Reverse<T>(s: seq<T>): (r: seq<T>)
    ensures |r| == |s|
    ensures forall i :: 0 <= i < |s| ==> r[i] == s[|s| - 1 - i]
  {
    if |s| == 0 then [] else Reverse(s[1..]) + [s[0]]
  }

  lemma {:induction false} ReverseConcat<T>(a: seq<T>, b: seq<T>)
    ensures Reverse(a + b) == Reverse(b) + Reverse(a)
  {
    var x, y := Reverse(a + b), Reverse(b) + Reverse(a);
    assert |x| == |y|;
    forall i | 0 <= i < |x| ensures x[i] == y[i] {
      if i < |b| {
        assert x[i] == (a + b)[|a| + |b| - 1 - i];
      } else {
        assert x[i] == (a + b)[|a| + |b| - 1 - i];
      }
    }
  }

  /** The report lines in the order `printBalanceFactors` prints them:
      right subtree, then left subtree, then the node itself. That is the
      pre-order listing read backwards, one line per node. */
  function Report(t: Tree): (lines: seq<Line>)
    ensures |lines| == Size(t)
    ensures lines == Reverse(PreOrderLines(t))
  {
    match t
    case Leaf => []
    case Node(k, l, r, b) =>
      ReverseConcat([LineOf(k, b)] + PreOrderLines(l), PreOrderLines(r));
      ReverseConcat([LineOf(k, b)], PreOrderLines(l));
      Report(r) + Report(l) + [LineOf(k, b)]
  }

  predicate NoneFlagged(lines: seq<Line>)
  {
    forall i :: 0 <= i < |lines| ==> !lines[i].violation
  }

  lemma NoneFlaggedConcat(a: seq<Line>, b: seq<Line>)
    ensures NoneFlagged(a + b) <==> NoneFlagged(a) && NoneFlagged(b)
  {
    if NoneFlagged(a + b) {
      forall i | 0 <= i < |a| ensures !a[i].violation { assert (a + b)[i] == a[i]; }
      forall i | 0 <= i < |b| ensures !b[i].violation { assert (a + b)[|a| + i] == b[i]; }
    }
  }

  /** The report flags no line exactly when the verdict is "yes". */
  lemma {:induction false} ReportFlagsIffNotAvl(t: Tree)
    ensures IsAvl(t) <==> NoneFlagged(Report(t))
  {
    match t
    case Leaf =>
    case Node(k, l, r, b) =>
      ReportFlagsIffNotAvl(l);
      ReportFlagsIffNotAvl(r);
      NoneFlaggedConcat(Report(r) + Report(l), [LineOf(k, b)]);
      NoneFlaggedConcat(Report(r), Report(l));
      assert NoneFlagged([LineOf(k, b)]) <==> Abs(b) <= 1 by {
        assert [LineOf(k, b)][0] == LineOf(k, b);
      }
  }
}
