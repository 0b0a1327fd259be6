/** The tree shape shared by every part of the engine: the node record, the
    key multiset, size and height, the three traversals and the ordering
    invariant of a binary search tree. */
module Trees {

  /** Drawing coordinates of a node; the source stores them as floats, but
      every value the layout writes is an integer (see module Positions). */
  datatype Pos = Pos(x: int, y: int)

  /** The coordinates a freshly created node carries before layout. */
  const ORIGIN := Pos(0, 0)

  /** A node owns its two children; `Nil` is an absent child slot. */
  datatype Tree = Nil | Node(left: Tree, key: int, right: Tree, pos: Pos)

  /** A new node, as the node constructor makes it: no children, origin position. */
  function Leaf(k: int): (t: Tree)
    ensures t.Node? && t.left == Nil && t.right == Nil && t.key == k
  {
    Node(Nil, k, Nil, ORIGIN)
  }

  /** The multiset of keys stored in a tree. */
  function Keys(t: Tree): multiset<int>
  {
    match t
    case Nil => multiset{}
    case Node(l, k, r, _) => Keys(l) + multiset{k} + Keys(r)
  }

  /** Number of nodes. */
  function Count(t: Tree): (n: nat)
    ensures n == 0 <==> t == Nil
  {
    match t
    case Nil => 0
    case Node(l, _, r, _) => 1 + Count(l) + Count(r)
  }

  /** Number of levels: 0 for the empty tree, 1 + the taller subtree otherwise. */
  function Height(t: Tree): (h: nat)
    ensures h == 0 <==> t == Nil
  {
    match t
    case Nil => 0
    case Node(l, _, r, _) => 1 + Max(Height(l), Height(r))
  }

  function Max(a: int, b: int): int
  {
    if a < b then b else a
  }

  /** The node count is the number of stored keys, duplicates included. */
  lemma {:induction false} CountIsSize(t: Tree)
    ensures Count(t) == |Keys(t)|
  {
    match t
    case Nil =>
    case Node(l, _, r, _) =>
      CountIsSize(l);
      CountIsSize(r);
  }

  /** A tree has at most as many levels as nodes. */
  lemma {:induction false} HeightAtMostCount(t: Tree)
    ensures Height(t) <= Count(t)
  {
    match t
    case Nil =>
    case Node(l, _, r, _) =>
      HeightAtMostCount(l);
      HeightAtMostCount(r);
  }

  /** Left subtree, node, right subtree. */
  function Inorder(t: Tree): (s: seq<int>)
    ensures |s| == Count(t)
  {
    match t
    case Nil => []
    case Node(l, k, r, _) => Inorder(l) + [k] + Inorder(r)
  }

  /** Node, left subtree, right subtree. */
  function Preorder(t: Tree): (s: seq<int>)
    ensures |s| == Count(t)
  {
    match t
    case Nil => []
    case Node(l, k, r, _) => [k] + Preorder(l) + Preorder(r)
  }

  /** Left subtree, right subtree, node. */
  function Postorder(t: Tree): (s: seq<int>)
    ensures |s| == Count(t)
  {
    match t
    case Nil => []
    case Node(l, k, r, _) => Postorder(l) + Postorder(r) + [k]
  }

  /** Each traversal lists every stored key exactly as often as it is
      stored, so its length is the node count. */
  lemma {:induction false} InorderKeys(t: Tree)
    ensures multiset(Inorder(t)) == Keys(t) && |Inorder(t)| == Count(t)
  {
    match t
    case Nil =>
    case Node(l, k, r, _) =>
      InorderKeys(l);
      InorderKeys(r);
  }

  lemma {:induction false} PreorderKeys(t: Tree)
    ensures multiset(Preorder(t)) == Keys(t) && |Preorder(t)| == Count(t)
  {
    match t
    case Nil =>
    case Node(l, k, r, _) =>
      PreorderKeys(l);
      PreorderKeys(r);
  }

  lemma {:induction false} PostorderKeys(t: Tree)
    ensures multiset(Postorder(t)) == Keys(t) && |Postorder(t)| == Count(t)
  {
    match t
    case Nil =>
    case Node(l, k, r, _) =>
      PostorderKeys(l);
      PostorderKeys(r);
  }

  /** The invariant the engine keeps under either duplicate policy: keys in
      a left subtree are smaller than the node, keys in a right subtree are
      at least the node (equal keys are routed right). */
  ghost predicate Ordered(t: Tree)
  {
    match t
    case Nil => true
    case Node(l, k, r, _) =>
      && Ordered(l) && Ordered(r)
      && AllBelow(Keys(l), k) && AllAtLeast(Keys(r), k)
  }

  /** The invariant without duplicates: left keys < node < right keys. */
  ghost predicate StrictlyOrdered(t: Tree)
  {
    match t
    case Nil => true
    case Node(l, k, r, _) =>
      && StrictlyOrdered(l) && StrictlyOrdered(r)
      && AllBelow(Keys(l), k) && AllAbove(Keys(r), k)
  }

  ghost predicate AllBelow(m: multiset<int>, k: int)
  {
    forall x | x in m :: x < k
  }

  ghost predicate AllAtLeast(m: multiset<int>, k: int)
  {
    forall x | x in m :: k <= x
  }

  ghost predicate AllAbove(m: multiset<int>, k: int)
  {
    forall x | x in m :: k < x
  }

  /** Every key occurs at most once. */
  ghost predicate Distinct(m: multiset<int>)
  {
    forall x | x in m :: m[x] == 1
  }

  predicate NonDecreasing(s: seq<int>)
  {
    forall i, j | 0 <= i < j < |s| :: s[i] <= s[j]
  }

  predicate Ascending(s: seq<int>)
  {
    forall i, j | 0 <= i < j < |s| :: s[i] < s[j]
  }

  /** Two trees with the same links and keys, whatever their positions. */
  predicate SameShape(a: Tree, b: Tree)
  {
    match a
    case Nil => b == Nil
    case Node(l, k, r, _) =>
      b.Node? && b.key == k && SameShape(l, b.left) && SameShape(r, b.right)
  }

  /** Without duplicates the weak invariant holds and every key occurs once. */
  lemma {:induction false} StrictImpliesDistinct(t: Tree)
    requires StrictlyOrdered(t)
    ensures Ordered(t) && Distinct(Keys(t))
  {
    match t
    case Nil =>
    case Node(l, k, r, _) =>
      StrictImpliesDistinct(l);
      StrictImpliesDistinct(r);
      var m := Keys(t);
      forall x | x in m ensures m[x] == 1 {
        assert m[x] == Keys(l)[x] + multiset{k}[x] + Keys(r)[x];
        if x < k {
          assert x !in Keys(r);
        } else if x > k {
          assert x !in Keys(l);
        } else {
          assert x !in Keys(l) && x !in Keys(r);
        }
      }
  }

  lemma DistinctSum(a: multiset<int>, b: multiset<int>)
    requires Distinct(a + b)
    ensures Distinct(a) && Distinct(b)
    ensures forall x | x in a :: x !in b
  {
    forall x | x in a ensures a[x] == 1 && x !in b {
      assert (a + b)[x] == a[x] + b[x];
    }
    forall x | x in b ensures b[x] == 1 {
      assert (a + b)[x] == a[x] + b[x];
    }
  }

  /** The keys of a node with distinct keys split into two distinct parts,
      neither of which holds the node's key. */
  lemma DistinctParts(l: Tree, k: int, r: Tree, p: Pos)
    requires Distinct(Keys(Node(l, k, r, p)))
    ensures Distinct(Keys(l)) && Distinct(Keys(r)) && k !in Keys(r)
  {
    DistinctSum(Keys(l) + multiset{k}, Keys(r));
    DistinctSum(Keys(l), multiset{k});
    assert k in Keys(l) + multiset{k};
  }

  /** Conversely, the weak invariant over distinct keys is the strict one. */
  lemma {:induction false} DistinctImpliesStrict(t: Tree)
    requires Ordered(t) && Distinct(Keys(t))
    ensures StrictlyOrdered(t)
  {
    match t
    case Nil =>
    case Node(l, k, r, p) =>
      DistinctParts(l, k, r, p);
      forall x | x in Keys(r) ensures k < x {
        assert k <= x && x != k;
      }
      DistinctImpliesStrict(l);
      DistinctImpliesStrict(r);
  }

  lemma JoinNonDecreasing(a: seq<int>, k: int, b: seq<int>)
    requires NonDecreasing(a) && NonDecreasing(b)
    requires forall i | 0 <= i < |a| :: a[i] <= k
    requires forall i | 0 <= i < |b| :: k <= b[i]
    ensures NonDecreasing(a + [k] + b)
  {
    var s := a + [k] + b;
    forall i, j | 0 <= i < j < |s| ensures s[i] <= s[j] {
      if j < |a| {
        assert s[i] == a[i] && s[j] == a[j];
      } else if i < |a| {
        assert s[i] == a[i] <= k;
        assert j == |a| || s[j] == b[j - |a| - 1];
      } else if i == |a| {
        assert s[j] == b[j - |a| - 1];
      } else {
        assert s[i] == b[i - |a| - 1] && s[j] == b[j - |a| - 1];
      }
    }
  }

  lemma JoinAscending(a: seq<int>, k: int, b: seq<int>)
    requires Ascending(a) && Ascending(b)
    requires forall i | 0 <= i < |a| :: a[i] < k
    requires forall i | 0 <= i < |b| :: k < b[i]
    ensures Ascending(a + [k] + b)
  {
    var s := a + [k] + b;
    forall i, j | 0 <= i < j < |s| ensures s[i] < s[j] {
      if j < |a| {
        assert s[i] == a[i] && s[j] == a[j];
      } else if i < |a| {
        assert s[i] == a[i] < k;
        assert j == |a| || s[j] == b[j - |a| - 1];
      } else if i == |a| {
        assert s[j] == b[j - |a| - 1];
      } else {
        assert s[i] == b[i - |a| - 1] && s[j] == b[j - |a| - 1];
      }
    }
  }

  /** In-order lists the keys of an ordered tree non-decreasing. */
  lemma {:induction false} InorderNonDecreasing(t: Tree)
    requires Ordered(t)
    ensures NonDecreasing(Inorder(t))
  {
    match t
    case Nil =>
    case Node(l, k, r, _) =>
      InorderNonDecreasing(l);
      InorderNonDecreasing(r);
      InorderKeys(l);
      InorderKeys(r);
      var sl, sr := Inorder(l), Inorder(r);
      forall i | 0 <= i < |sl| ensures sl[i] <= k {
        assert sl[i] in multiset(sl);
      }
      forall i | 0 <= i < |sr| ensures k <= sr[i] {
        assert sr[i] in multiset(sr);
      }
      JoinNonDecreasing(sl, k, sr);
  }

  /** Without duplicates in-order is strictly ascending. */
  lemma {:induction false} InorderAscending(t: Tree)
    requires StrictlyOrdered(t)
    ensures Ascending(Inorder(t))
  {
    match t
    case Nil =>
    case Node(l, k, r, _) =>
      InorderAscending(l);
      InorderAscending(r);
      InorderKeys(l);
      InorderKeys(r);
      var sl, sr := Inorder(l), Inorder(r);
      forall i | 0 <= i < |sl| ensures sl[i] < k {
        assert sl[i] in multiset(sl);
      }
      forall i | 0 <= i < |sr| ensures k < sr[i] {
        assert sr[i] in multiset(sr);
      }
      JoinAscending(sl, k, sr);
  }

  /** Trees of the same shape answer every query alike; only positions differ. */
  lemma {:induction false} SameShapeQueries(a: Tree, b: Tree)
    requires SameShape(a, b)
    ensures Keys(a) == Keys(b) && Count(a) == Count(b) && Height(a) == Height(b)
  {
    match a
    case Nil =>
    case Node(l, k, r, _) =>
      SameShapeQueries(l, b.left);
      SameShapeQueries(r, b.right);
  }

  /** Trees of the same shape list the same keys in every traversal order. */
  lemma {:induction false} SameShapeTraversals(a: Tree, b: Tree)
    requires SameShape(a, b)
    ensures Inorder(a) == Inorder(b) && Preorder(a) == Preorder(b) && Postorder(a) == Postorder(b)
  {
    match a
    case Nil =>
    case Node(l, k, r, _) =>
      SameShapeTraversals(l, b.left);
      SameShapeTraversals(r, b.right);
  }

  /** Both ordering invariants depend on the shape alone. */
  lemma {:induction false} SameShapeOrdered(a: Tree, b: Tree)
    requires SameShape(a, b)
    ensures Ordered(a) == Ordered(b) && StrictlyOrdered(a) == StrictlyOrdered(b)
  {
    match a
    case Nil =>
    case Node(l, k, r, _) =>
      SameShapeQueries(l, b.left);
      SameShapeQueries(r, b.right);
      assert Keys(l) == Keys(b.left) && Keys(r) == Keys(b.right);
      SameShapeOrdered(l, b.left);
      SameShapeOrdered(r, b.right);
  }
}
