/**
 The tree of treecheck: an unbalanced binary search tree over integer keys,
 built by repeated ordered insertion. Every node caches a balance factor that
 holds the sentinel -1 until the balance factors are computed (see Metrics).
 */
module Trees {

  /** A node owns its two subtrees; `Leaf` is the absent (null) child. */
  datatype Tree = Leaf | Node(key: int, left: Tree, right: Tree, bf: int)

  /** Balance factor a freshly inserted node carries before it is computed. */
  const UnsetBalance: int := -1

  function Keys(t: Tree): set<int>
  {
    match t
    case Leaf => {}
    case Node(k, l, r, _) => Keys(l) + {k} + Keys(r)
  }

  function Size(t: Tree): nat
  {
    match t
    case Leaf => 0
    case Node(_, l, r, _) => Size(l) + 1 + Size(r)
  }

  /** The non-empty subtrees of `t`, `t` itself included: one per node. */
  function Nodes(t: Tree): (ns: set<Tree>)
    ensures forall n :: n in ns ==> n.Node?
  {
    match t
    case Leaf => {}
    case Node(_, l, r, _) => {t} + Nodes(l) + Nodes(r)
  }

  /** Keys in left-node-right order. */
  function InOrder(t: Tree): seq<int>
  {
    match t
    case Leaf => []
    case Node(k, l, r, _) => InOrder(l) + [k] + InOrder(r)
  }

  /** The tree with every cached balance factor cleared: keys and shape only. */
  function Erase(t: Tree): Tree
  {
    match t
    case Leaf => Leaf
    case Node(k, l, r, _) => Node(k, Erase(l), Erase(r), 0)
  }

  /** Search-tree order: left keys below the node's key, right keys above. */
  predicate IsBst(t: Tree)
  {
    match t
    case Leaf => true
    case Node(k, l, r, _) =>
      && (forall x :: x in Keys(l) ==> x < k)
      && (forall x :: x in Keys(r) ==> k < x)
      && IsBst(l)
      && IsBst(r)
  }

  predicate StrictlyAscending(s: seq<int>)
  {
    forall i, j :: 0 <= i < j < |s| ==> s[i] < s[j]
  }

  /** Clearing the cached balance factors keeps keys, order and size. */
  lemma {:induction false} EraseKeepsKeysAndOrder(t: Tree)
    ensures Keys(Erase(t)) == Keys(t)
    ensures InOrder(Erase(t)) == InOrder(t)
    ensures Size(Erase(t)) == Size(t)
    ensures IsBst(Erase(t)) == IsBst(t)
  {
    match t
    case Leaf =>
    case Node(_, l, r, _) =>
      EraseKeepsKeysAndOrder(l);
      EraseKeepsKeysAndOrder(r);
  }

  /** `p` is a sequence of keys read off a walk that starts at the root of `t`
      and steps from a node to one of its children. */
  ghost predicate DownPath(t: Tree, p: seq<int>)
  {
    match t
    case Leaf => false
    case Node(k, l, r, _) =>
      && |p| > 0
      && p[0] == k
      && (|p| == 1 || DownPath(l, p[1..]) || DownPath(r, p[1..]))
  }

  /** Every balance factor still holds the insertion sentinel. */
  predicate AllUnset(t: Tree)
  {
    match t
    case Leaf => true
    case Node(_, l, r, b) => b == UnsetBalance && AllUnset(l) && AllUnset(r)
  }

  /** `r` is `t` with one empty slot replaced by a fresh node holding `x`;
      every node of `t`, balance factor included, is kept. */
  ghost predicate AddsLeaf(t: Tree, r: Tree, x: int)
  {
    match t
    case Leaf => r == Node(x, Leaf, Leaf, UnsetBalance)
    case Node(k, l, rt, b) =>
      && r.Node?
      && r.key == k
      && r.bf == b
      && ((AddsLeaf(l, r.left, x) && r.right == rt) || (r.left == l && AddsLeaf(rt, r.right, x)))
  }

  /** Ordered insertion; an equal key met on the way down is dropped. */
  function Insert(t: Tree, x: int): (r: Tree)
    ensures Keys(r) == Keys(t) + {x}
    ensures r == t || AddsLeaf(t, r, x)
    ensures x !in Keys(t) ==> AddsLeaf(t, r, x)
    ensures IsBst(t) ==> IsBst(r)
    ensures IsBst(t) && x in Keys(t) ==> r == t
    ensures AllUnset(t) ==> AllUnset(r)
  {
    match t
    case Leaf => Node(x, Leaf, Leaf, UnsetBalance)
    case Node(k, l, rt, b) =>
      if x < k then Node(k, Insert(l, x), rt, b)
      else if x > k then Node(k, l, Insert(rt, x), b)
      else t
  }

  lemma {:induction false} AddsLeafGrowsByOne(t: Tree, r: Tree, x: int)
    requires AddsLeaf(t, r, x)
    ensures Size(r) == Size(t) + 1
    ensures Keys(r) == Keys(t) + {x}
  {
    match t
    case Leaf =>
    case Node(k, l, rt, b) =>
      if AddsLeaf(l, r.left, x) && r.right == rt {
        AddsLeafGrowsByOne(l, r.left, x);
      } else {
        AddsLeafGrowsByOne(rt, r.right, x);
      }
  }

  /** Inserting a key that is not yet present adds exactly one node. */
  lemma {:induction false} InsertNewKeyAddsOneNode(t: Tree, x: int)
    requires x !in Keys(t)
    ensures Size(Insert(t, x)) == Size(t) + 1
  {
    AddsLeafGrowsByOne(t, Insert(t, x), x);
  }

  function Elements(xs: seq<int>): set<int>
  {
    set x | x in xs
  }

  /** Inserting the keys of `xs` one after another, first to last. */
  function InsertAll(t: Tree, xs: seq<int>): (r: Tree)
    ensures Keys(r) == Keys(t) + Elements(xs)
    ensures IsBst(t) ==> IsBst(r)
    ensures AllUnset(t) ==> AllUnset(r)
    decreases |xs|
  {
    if |xs| == 0 then t
    else
      assert Elements(xs) == {xs[0]} + Elements(xs[1..]);
      InsertAll(Insert(t, xs[0]), xs[1..])
  }

  /** The tree read from an input sequence, starting from the empty tree. */
  function Build(xs: seq<int>): (t: Tree)
    ensures IsBst(t)
    ensures Keys(t) == Elements(xs)
    ensures AllUnset(t)
  {
    InsertAll(Leaf, xs)
  }

  lemma {:induction false} InOrderHasKeys(t: Tree)
    ensures forall x :: x in InOrder(t) <==> x in Keys(t)
    ensures |InOrder(t)| == Size(t)
  {
    match t
    case Leaf =>
    case Node(_, l, r, _) =>
      InOrderHasKeys(l);
      InOrderHasKeys(r);
  }

  /** Search-tree order holds exactly when the in-order key sequence is
      strictly ascending. */
  lemma {:induction false} BstIffInOrderAscending(t: Tree)
    ensures IsBst(t) <==> StrictlyAscending(InOrder(t))
  {
    match t
    case Leaf =>
    case Node(k, l, r, _) =>
      BstIffInOrderAscending(l);
      BstIffInOrderAscending(r);
      InOrderHasKeys(l);
      InOrderHasKeys(r);
      var a, b := InOrder(l), InOrder(r);
      var s := a + [k] + b;
      assert s == InOrder(t);
      if IsBst(t) {
        forall i, j | 0 <= i < j < |s|
          ensures s[i] < s[j]
        {
          if j < |a| {
          } else if i < |a| {
            assert s[i] in a;
            if j > |a| { assert s[j] == b[j - |a| - 1]; assert s[j] in b; }
          } else if i == |a| {
            assert s[j] == b[j - |a| - 1];
            assert s[j] in b;
          } else {
            assert s[i] == b[i - |a| - 1] && s[j] == b[j - |a| - 1];
          }
        }
      }
      if StrictlyAscending(s) {
        assert StrictlyAscending(a) by {
          forall i, j | 0 <= i < j < |a| ensures a[i] < a[j] { assert s[i] == a[i] && s[j] == a[j]; }
        }
        assert StrictlyAscending(b) by {
          forall i, j | 0 <= i < j < |b| ensures b[i] < b[j] {
            assert s[|a| + 1 + i] == b[i] && s[|a| + 1 + j] == b[j];
          }
        }
        forall x | x in Keys(l) ensures x < k {
          var i :| 0 <= i < |a| && a[i] == x;
          assert s[i] == x && s[|a|] == k;
        }
        forall x | x in Keys(r) ensures k < x {
          var i :| 0 <= i < |b| && b[i] == x;
          assert s[|a| + 1 + i] == x && s[|a|] == k;
        }
      }
  }

  /** In a search tree every key occupies exactly one node. */
  lemma {:induction false} BstSizeIsKeyCount(t: Tree)
    requires IsBst(t)
    ensures Size(t) == |Keys(t)|
  {
    match t
    case Leaf =>
    case Node(k, l, r, _) =>
      BstSizeIsKeyCount(l);
      BstSizeIsKeyCount(r);
      assert Keys(l) !! {k};
      forall x | x in Keys(r) ensures x !in Keys(l) + {k} {
        assert k < x;
      }
  }

  /** A tree built from any input lists its distinct input keys, each once,
      in ascending order, and has one node per distinct key. */
  lemma BuildIsSortedDistinct(xs: seq<int>)
    ensures StrictlyAscending(InOrder(Build(xs)))
    ensures forall x :: x in InOrder(Build(xs)) <==> x in xs
    ensures Size(Build(xs)) == |Elements(xs)|
  {
    var t := Build(xs);
    BstIffInOrderAscending(t);
    InOrderHasKeys(t);
    BstSizeIsKeyCount(t);
  }
}
