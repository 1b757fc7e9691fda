/**
 The pattern matcher: the structural match of a pattern tree against a tree
 (`isSameStructure`, `isSubtree`) and the single-key path lookup
 (`findNodePath`), both as main.cpp writes them.
 */
module Patterns {
  import opened Trees

  /** main.cpp's `isSameStructure`. An empty pattern matches anything; a
      pattern node matches a tree node with the same key whose children match
      the pattern's children; when that fails the same pattern is tried again
      against each child of the tree. */
  function IsSameStructure(t: Tree, p: Tree): (r: bool)
    ensures p == Leaf ==> r
    ensures r && p.Node? ==> t.Node? && Keys(p) <= Keys(t) && Size(p) <= Size(t)
  {
    if p == Leaf then true
    else if t == Leaf then false
    else if t.key == p.key && IsSameStructure(t.left, p.left) && IsSameStructure(t.right, p.right) then true
    else IsSameStructure(t.left, p) || IsSameStructure(t.right, p)
  }

  /** `p` embeds in `t`: each pattern node goes to some node of `t` with the
      same key, its left child somewhere in that node's left subtree and its
      right child somewhere in that node's right subtree. */
  ghost predicate Embeds(t: Tree, p: Tree)
    decreases p
  {
    match p
    case Leaf => true
    case Node(pk, pl, pr, _) =>
      exists n :: n in Nodes(t) && n.key == pk && Embeds(n.left, pl) && Embeds(n.right, pr)
  }

  lemma {:induction false} NodesOfSubtree(t: Tree, n: Tree)
    requires n in Nodes(t)
    ensures Nodes(n) <= Nodes(t)
  {
    match t
    case Node(_, l, r, _) =>
      if n != t {
        if n in Nodes(l) {
          NodesOfSubtree(l, n);
        } else {
          NodesOfSubtree(r, n);
        }
      }
  }

  /** The structural match is exactly the embedding of the pattern. */
  lemma {:induction false} SameStructureIffEmbeds(t: Tree, p: Tree)
    ensures IsSameStructure(t, p) <==> Embeds(t, p)
    decreases t
  {
    match t
    case Leaf =>
    case Node(k, l, r, _) =>
      if p.Node? {
        SameStructureIffEmbeds(l, p);
        SameStructureIffEmbeds(r, p);
        SameStructureIffEmbeds(l, p.left);
        SameStructureIffEmbeds(r, p.right);
        if IsSameStructure(t, p) {
          if k == p.key && IsSameStructure(l, p.left) && IsSameStructure(r, p.right) {
            assert t in Nodes(t);
          } else if IsSameStructure(l, p) {
            var n :| n in Nodes(l) && n.key == p.key && Embeds(n.left, p.left) && Embeds(n.right, p.right);
            assert n in Nodes(t);
          } else {
            var n :| n in Nodes(r) && n.key == p.key && Embeds(n.left, p.left) && Embeds(n.right, p.right);
            assert n in Nodes(t);
          }
        }
        if Embeds(t, p) {
          var n :| n in Nodes(t) && n.key == p.key && Embeds(n.left, p.left) && Embeds(n.right, p.right);
          if n == t {
          } else if n in Nodes(l) {
            assert Embeds(l, p);
          } else {
            assert Embeds(r, p);
          }
        }
      }
  }

  /** A one-node pattern matches exactly the trees that hold its key. */
  lemma {:induction false} SingleNodePatternMatchesKey(t: Tree, x: int, b: int)
    ensures IsSameStructure(t, Node(x, Leaf, Leaf, b)) <==> x in Keys(t)
  {
    match t
    case Leaf =>
    case Node(_, l, r, _) =>
      SingleNodePatternMatchesKey(l, x, b);
      SingleNodePatternMatchesKey(r, x, b);
  }

  /** A copy of a tree (balance factors aside) matches it; in particular every
      tree matches itself. */
  lemma {:induction false} CopyMatches(t: Tree, p: Tree)
    requires Erase(t) == Erase(p)
    ensures IsSameStructure(t, p)
  {
    match t
    case Leaf =>
    case Node(_, l, r, _) =>
      CopyMatches(l, p.left);
      CopyMatches(r, p.right);
  }

  /** main.cpp's `isSubtree`: some node of `t` matches `p`. Because a match at
      a child already is a match at its parent, for a non-empty pattern this is
      the match at the root, and for the empty pattern it is non-emptiness. */
  function IsSubtree(t: Tree, p: Tree): (r: bool)
    ensures p.Node? ==> (r <==> IsSameStructure(t, p))
    ensures p == Leaf ==> (r <==> t.Node?)
  {
    t.Node? && (IsSameStructure(t, p) || IsSubtree(t.left, p) || IsSubtree(t.right, p))
  }

  /** main.cpp's `findNodePath`: a left-first search of the whole tree that
      returns the keys from the root down to the node holding `x` and the
      updated `found` flag. The flag is threaded through like the reference
      parameter; the caller passes `false`. */
  function FindNodePath(t: Tree, x: int, found: bool): (res: (seq<int>, bool))
    ensures found ==> res.1
    ensures !found ==> (res.1 <==> x in Keys(t))
    ensures !found && res.1 ==> DownPath(t, res.0) && res.0[|res.0| - 1] == x
    ensures !found && !res.1 ==> res.0 == []
  {
    match t
    case Leaf => ([], found)
    case Node(k, l, r, _) =>
      if k == x then ([x], true)
      else
        var (lp, lf) := FindNodePath(l, x, found);
        if lf then
          assert ([k] + lp)[1..] == lp;
          ([k] + lp, lf)
        else
          var (rp, rf) := FindNodePath(r, x, lf);
          if rf then
            assert ([k] + rp)[1..] == rp;
            ([k] + rp, rf)
          else ([], rf)
  }

  /** When the key is in the left subtree the search never looks right, even
      if the key occurs there as well. */
  lemma FindNodePathPrefersLeft(t: Tree, x: int)
    requires t.Node? && t.key != x && x in Keys(t.left)
    ensures FindNodePath(t, x, false).0 == [t.key] + FindNodePath(t.left, x, false).0
  {
  }

  /** The root-to-node path an ordered descent of a search tree follows;
      empty when the key is absent. */
  function SearchPath(t: Tree, x: int): seq<int>
  {
    match t
    case Leaf => []
    case Node(k, l, r, _) =>
      if x == k then [k]
      else
        var sub := if x < k then SearchPath(l, x) else SearchPath(r, x);
        if sub == [] then [] else [k] + sub
  }

  /** On a search tree the exhaustive search returns the same path as an
      ordered descent. */
  lemma {:induction false} FindNodePathFollowsSearchOrder(t: Tree, x: int)
    requires IsBst(t)
    ensures FindNodePath(t, x, false) == (SearchPath(t, x), x in Keys(t))
  {
    match t
    case Leaf =>
    case Node(k, l, r, _) =>
      FindNodePathFollowsSearchOrder(l, x);
      FindNodePathFollowsSearchOrder(r, x);
      if x < k {
        assert x !in Keys(r);
      } else if x > k {
        assert x !in Keys(l);
      }
  }

  /** Exact shape-and-key equality, balance factors aside. */
  function EqualStructure(a: Tree, b: Tree): (r: bool)
    ensures r <==> Erase(a) == Erase(b)
  {
    match (a, b)
    case (Leaf, Leaf) => true
    case (Node(ka, la, ra, _), Node(kb, lb, rb, _)) =>
      ka == kb && EqualStructure(la, lb) && EqualStructure(ra, rb)
    case _ => false
  }

  /** Containment with an exact match at the point of occurrence: some node's
      subtree is a copy of the pattern. */
  function ContainsExact(t: Tree, p: Tree): (r: bool)
    ensures r ==> p.Node? && Keys(p) <= Keys(t) && Size(p) <= Size(t)
  {
    EraseKeepsKeysAndOrder(t);
    EraseKeepsKeysAndOrder(p);
    t.Node? && (EqualStructure(t, p) || ContainsExact(t.left, p) || ContainsExact(t.right, p))
  }

  lemma {:induction false} ContainsExactIffCopyOccurs(t: Tree, p: Tree)
    ensures ContainsExact(t, p) <==> exists n :: n in Nodes(t) && Erase(n) == Erase(p)
  {
    match t
    case Leaf =>
    case Node(_, l, r, _) =>
      ContainsExactIffCopyOccurs(l, p);
      ContainsExactIffCopyOccurs(r, p);
      if ContainsExact(t, p) {
        if EqualStructure(t, p) {
          assert t in Nodes(t);
        } else if ContainsExact(l, p) {
          var n :| n in Nodes(l) && Erase(n) == Erase(p);
          assert n in Nodes(t);
        } else {
          var n :| n in Nodes(r) && Erase(n) == Erase(p);
          assert n in Nodes(t);
        }
      }
  }

  /** Every exact occurrence of a non-empty pattern is also accepted by the
      loose match. */
  lemma ExactOccurrenceIsMatched(t: Tree, p: Tree)
    requires p.Node? && ContainsExact(t, p)
    ensures IsSubtree(t, p)
  {
    ContainsExactIffCopyOccurs(t, p);
    var n :| n in Nodes(t) && Erase(n) == Erase(p);
    CopyMatches(n, p);
    SameStructureIffEmbeds(n, p);
    NodesOfSubtree(t, n);
    SameStructureIffEmbeds(t, p);
  }

  /** Node `k` with no children, as insertion creates it. */
  function Single(k: int): Tree
  {
    Node(k, Leaf, Leaf, UnsetBalance)
  }

  /** The tree read from 5 3 8 1 4 7 9, written out. */
  function Example(): Tree
  {
    Node(5, Node(3, Single(1), Single(4), -1), Node(8, Single(7), Single(9), -1), -1)
  }

  lemma ExampleTree()
    ensures Build([5, 3, 8, 1, 4, 7, 9]) == Example()
  {
  }

  /** Proof step for `ExamplePaths`, on the written-out tree. */
  lemma PathsInExample()
    ensures FindNodePath(Example(), 1, false) == ([5, 3, 1], true)
    ensures FindNodePath(Example(), 6, false) == ([], false)
  {
    assert FindNodePath(Single(1), 1, false) == ([1], true);
    assert [3] + [1] == [3, 1];
    assert [5] + [3, 1] == [5, 3, 1];
  }

  /** Path lookups on the example tree: 1 is reached through 5 and 3, and 6
      is absent. */
  lemma ExamplePaths()
    ensures FindNodePath(Build([5, 3, 8, 1, 4, 7, 9]), 1, false) == ([5, 3, 1], true)
    ensures FindNodePath(Build([5, 3, 8, 1, 4, 7, 9]), 6, false) == ([], false)
  {
    ExampleTree();
    PathsInExample();
  }

  /** Proof step for `ExampleSubtrees`, on the written-out tree. */
  lemma SubtreesInExample()
    ensures IsSubtree(Example(), Node(3, Single(1), Single(4), -1))
    ensures !IsSubtree(Example(), Node(3, Single(1), Single(5), -1))
  {
    var t, p, q := Example(), Node(3, Single(1), Single(4), -1), Node(3, Single(1), Single(5), -1);
    CopyMatches(t.left, p);
    assert IsSameStructure(t, p);
    SingleNodePatternMatchesKey(Single(4), 5, -1);
    assert !IsSameStructure(t.left, q);
    SameStructureIffEmbeds(t.right, q);
    assert 3 !in Keys(t.right);
  }

  /** Pattern queries on the example tree: the pattern read from 3 1 4 is
      found at node 3, the one read from 3 1 5 is not. */
  lemma ExampleSubtrees()
    ensures IsSubtree(Build([5, 3, 8, 1, 4, 7, 9]), Build([3, 1, 4]))
    ensures !IsSubtree(Build([5, 3, 8, 1, 4, 7, 9]), Build([3, 1, 5]))
  {
    ExampleTree();
    assert Build([3, 1, 4]) == Node(3, Single(1), Single(4), -1);
    assert Build([3, 1, 5]) == Node(3, Single(1), Single(5), -1);
    SubtreesInExample();
  }

  /** Proof step for `LooseMatchAcceptsNonCopy`, on the written-out tree. */
  lemma LooseMatchInExample()
    ensures IsSubtree(Example(), Node(5, Single(1), Leaf, -1))
    ensures !ContainsExact(Example(), Node(5, Single(1), Leaf, -1))
  {
    var t, p := Example(), Node(5, Single(1), Leaf, -1);
    SingleNodePatternMatchesKey(t.left, 1, -1);
    assert IsSameStructure(t, p);
    assert !ContainsExact(t.left, p) && !ContainsExact(t.right, p);
    assert !EqualStructure(t, p);
  }

  /** The loose match accepts a pattern that occurs nowhere as an exact copy:
      in the tree read from 5 3 8 1 4 7 9, the pattern read from 5 1 (node 5
      with left child 1) is reported found, although 1 is a grandchild of 5. */
  lemma LooseMatchAcceptsNonCopy()
    ensures IsSubtree(Build([5, 3, 8, 1, 4, 7, 9]), Build([5, 1]))
    ensures !ContainsExact(Build([5, 3, 8, 1, 4, 7, 9]), Build([5, 1]))
  {
    ExampleTree();
    assert Build([5, 1]) == Node(5, Single(1), Leaf, -1);
    LooseMatchInExample();
  }
}
