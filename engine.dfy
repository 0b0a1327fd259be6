/** The tree engine: search, insertion under either duplicate policy, and
    deletion with successor promotion, each returning the steps it took. */
module Engine {
  import opened Trees
  import opened Trace

  // ---------------------------------------------------------------- search

  /** Descends from `t` comparing `k` with each node; `from` names where `t`
      hangs, for the trace. */
  function Search(t: Tree, k: int, from: Position): (r: Traced<bool>)
    ensures r.steps != []
    ensures r.value ==> k in Keys(t) && Last(r.steps).Found? && Last(r.steps).key == k
    ensures !r.value ==> Last(r.steps) == NotFound(k)
    decreases t
  {
    match t
    case Nil => Traced(false, [NotFound(k)])
    case Node(l, v, rt, _) =>
      var visit := [Visit(from, v)];
      if k == v then
        Traced(true, visit + [Found(k, from)])
      else if k < v then
        var sub := Search(l, k, LeftOf(v));
        LastAppend(visit + [SearchLeft(k, v)], sub.steps);
        Traced(sub.value, visit + [SearchLeft(k, v)] + sub.steps)
      else
        var sub := Search(rt, k, RightOf(v));
        LastAppend(visit + [SearchRight(k, v)], sub.steps);
        Traced(sub.value, visit + [SearchRight(k, v)] + sub.steps)
  }

  /** In an ordered tree a stored key other than the node's lies on the side
      the comparison picks, and both subtrees are ordered. */
  lemma Descend(t: Tree, k: int)
    requires t.Node? && Ordered(t)
    ensures Ordered(t.left) && Ordered(t.right)
    ensures k < t.key ==> (k in Keys(t) <==> k in Keys(t.left))
    ensures k > t.key ==> (k in Keys(t) <==> k in Keys(t.right))
  {
    if k < t.key {
      assert k !in Keys(t.right);
    } else if k > t.key {
      assert k !in Keys(t.left);
    }
  }

  /** On an ordered tree the descent finds `k` exactly when `k` is stored. */
  lemma {:induction false} SearchFindsStoredKey(t: Tree, k: int, from: Position)
    requires Ordered(t)
    ensures Search(t, k, from).value <==> k in Keys(t)
  {
    match t
    case Nil =>
    case Node(l, v, rt, _) =>
      Descend(t, k);
      SearchFollows(t, k, from);
      if k < v {
        SearchFindsStoredKey(l, k, LeftOf(v));
      } else if k > v {
        SearchFindsStoredKey(rt, k, RightOf(v));
      }
  }

  /** One level of the descent: the answer is the node's own when the keys
      match, and the answer from the chosen child otherwise. */
  lemma SearchFollows(t: Tree, k: int, from: Position)
    requires t.Node?
    ensures k == t.key ==> Search(t, k, from).value
    ensures k < t.key ==> Search(t, k, from).value == Search(t.left, k, LeftOf(t.key)).value
    ensures k > t.key ==> Search(t, k, from).value == Search(t.right, k, RightOf(t.key)).value
  {
  }

  // ---------------------------------------------------------------- insert

  /** `r` is `t` with exactly one absent child slot filled by a new leaf
      holding `k`; every other node, key and position is kept. */
  ghost predicate AddsLeaf(t: Tree, r: Tree, k: int)
    decreases t
  {
    match t
    case Nil => r == Leaf(k)
    case Node(l, v, rt, p) =>
      && r.Node? && r.key == v && r.pos == p
      && ((r.right == rt && AddsLeaf(l, r.left, k)) || (r.left == l && AddsLeaf(rt, r.right, k)))
  }

  lemma {:induction false} AddsLeafGrows(t: Tree, r: Tree, k: int)
    requires AddsLeaf(t, r, k)
    ensures Keys(r) == Keys(t) + multiset{k}
    ensures Count(r) == Count(t) + 1
  {
    match t
    case Nil =>
    case Node(l, v, rt, p) =>
      if r.right == rt && AddsLeaf(l, r.left, k) {
        AddsLeafGrows(l, r.left, k);
      } else {
        AddsLeafGrows(rt, r.right, k);
      }
  }

  /** The recursive insertion below a non-empty subtree `t`. Smaller keys go
      left, larger keys right; an equal key goes right when `dup` holds and
      is refused otherwise. A leaf is created at the first absent slot. */
  function InsertAt(t: Tree, k: int, dup: bool, from: Position): (r: Traced<Tree>)
    requires t.Node?
    ensures r.steps != [] && r.value.Node? && r.value.key == t.key
    decreases t
  {
    var Node(l, v, rt, p) := t;
    if k < v then
      var go := [GoLeft(k, v, from)];
      if l == Nil then
        Traced(Node(Leaf(k), v, rt, p), go + [InsertedLeft(k, v)])
      else
        var sub := InsertAt(l, k, dup, LeftOf(v));
        Traced(Node(sub.value, v, rt, p), go + sub.steps)
    else if k > v then
      var go := [GoRight(k, v, from)];
      if rt == Nil then
        Traced(Node(l, v, Leaf(k), p), go + [InsertedRight(k, v)])
      else
        var sub := InsertAt(rt, k, dup, RightOf(v));
        Traced(Node(l, v, sub.value, p), go + sub.steps)
    else if dup then
      var go := [DuplicateGoRight(k)];
      if rt == Nil then
        Traced(Node(l, v, Leaf(k), p), go + [InsertedDuplicateRight(k, v)])
      else
        var sub := InsertAt(rt, k, dup, RightOf(v));
        Traced(Node(l, v, sub.value, p), go + sub.steps)
    else
      Traced(t, [DuplicateRejected(k)])
  }

  /** The descent decides alone: a leaf is added unless duplicates are
      refused and the descent meets `k`, in which case nothing changes and
      the trace ends with the rejection. */
  lemma {:induction false} InsertAtOutcome(t: Tree, k: int, dup: bool, from: Position)
    requires t.Node?
    ensures var r := InsertAt(t, k, dup, from);
            if dup || !Search(t, k, from).value
            then AddsLeaf(t, r.value, k) && IsInsertion(Last(r.steps)) && Last(r.steps).key == k
            else r.value == t && Last(r.steps) == DuplicateRejected(k)
  {
    var Node(l, v, rt, p) := t;
    var r := InsertAt(t, k, dup, from);
    if k < v {
      if l == Nil {
        assert r.value == Node(Leaf(k), v, rt, p);
        LastAppend([GoLeft(k, v, from)], [InsertedLeft(k, v)]);
      } else {
        var sub := InsertAt(l, k, dup, LeftOf(v));
        InsertAtOutcome(l, k, dup, LeftOf(v));
        assert r.value == Node(sub.value, v, rt, p);
        LastAppend([GoLeft(k, v, from)], sub.steps);
        assert Search(t, k, from).value == Search(l, k, LeftOf(v)).value;
      }
    } else if k > v || dup {
      if rt == Nil {
        assert r.value == Node(l, v, Leaf(k), p);
        if k > v {
          LastAppend([GoRight(k, v, from)], [InsertedRight(k, v)]);
        } else {
          LastAppend([DuplicateGoRight(k)], [InsertedDuplicateRight(k, v)]);
        }
      } else {
        var sub := InsertAt(rt, k, dup, RightOf(v));
        InsertAtOutcome(rt, k, dup, RightOf(v));
        assert r.value == Node(l, v, sub.value, p);
        if k > v {
          LastAppend([GoRight(k, v, from)], sub.steps);
          assert Search(t, k, from).value == Search(rt, k, RightOf(v)).value;
        } else {
          LastAppend([DuplicateGoRight(k)], sub.steps);
        }
      }
    } else {
      assert Search(t, k, from).value;
    }
  }

  /** Insertion from the root: an empty tree gets `k` as its root. */
  function Insert(t: Tree, k: int, dup: bool): (r: Traced<Tree>)
    ensures r.steps != [] && r.value.Node?
    ensures t == Nil ==> r.steps == [CreateRoot(k)] && r.value == Leaf(k)
  {
    if t == Nil then Traced(Leaf(k), [CreateRoot(k)])
    else InsertAt(t, k, dup, Root)
  }

  /** Whatever the outcome, insertion adds no key other than `k`. */
  lemma InsertAtKeys(t: Tree, k: int, dup: bool, from: Position)
    requires t.Node?
    ensures Keys(InsertAt(t, k, dup, from).value) <= Keys(t) + multiset{k}
  {
    var r := InsertAt(t, k, dup, from).value;
    InsertAtOutcome(t, k, dup, from);
    if r != t {
      AddsLeafGrows(t, r, k);
    }
  }

  /** Replacing the left subtree by one with keys from the old subtree and
      `k` keeps the node ordered, when `k` belongs on the left. */
  lemma GrowLeftOrdered(l: Tree, sub: Tree, v: int, rt: Tree, p: Pos, k: int)
    requires Ordered(Node(l, v, rt, p)) && Ordered(sub) && k < v
    requires Keys(sub) <= Keys(l) + multiset{k}
    ensures Ordered(Node(sub, v, rt, p))
  {
    forall x | x in Keys(sub) ensures x < v {
      assert x in Keys(l) || x == k;
    }
  }

  /** Likewise on the right, when `k` is at least the node's key. */
  lemma GrowRightOrdered(l: Tree, v: int, rt: Tree, sub: Tree, p: Pos, k: int)
    requires Ordered(Node(l, v, rt, p)) && Ordered(sub) && v <= k
    requires Keys(sub) <= Keys(rt) + multiset{k}
    ensures Ordered(Node(l, v, sub, p))
  {
    forall x | x in Keys(sub) ensures v <= x {
      assert x in Keys(rt) || x == k;
    }
  }

  lemma GrowLeftStrictlyOrdered(l: Tree, sub: Tree, v: int, rt: Tree, p: Pos, k: int)
    requires StrictlyOrdered(Node(l, v, rt, p)) && StrictlyOrdered(sub) && k < v
    requires Keys(sub) <= Keys(l) + multiset{k}
    ensures StrictlyOrdered(Node(sub, v, rt, p))
  {
    forall x | x in Keys(sub) ensures x < v {
      assert x in Keys(l) || x == k;
    }
  }

  lemma GrowRightStrictlyOrdered(l: Tree, v: int, rt: Tree, sub: Tree, p: Pos, k: int)
    requires StrictlyOrdered(Node(l, v, rt, p)) && StrictlyOrdered(sub) && v < k
    requires Keys(sub) <= Keys(rt) + multiset{k}
    ensures StrictlyOrdered(Node(l, v, sub, p))
  {
    forall x | x in Keys(sub) ensures v < x {
      assert x in Keys(rt) || x == k;
    }
  }

  lemma {:induction false} InsertAtOrdered(t: Tree, k: int, dup: bool, from: Position)
    requires t.Node? && Ordered(t)
    ensures Ordered(InsertAt(t, k, dup, from).value)
  {
    var Node(l, v, rt, p) := t;
    var r := InsertAt(t, k, dup, from).value;
    if k < v {
      if l == Nil {
        GrowLeftOrdered(l, Leaf(k), v, rt, p, k);
      } else {
        InsertAtOrdered(l, k, dup, LeftOf(v));
        InsertAtKeys(l, k, dup, LeftOf(v));
        GrowLeftOrdered(l, r.left, v, rt, p, k);
      }
    } else if k > v || dup {
      if rt == Nil {
        GrowRightOrdered(l, v, rt, Leaf(k), p, k);
      } else {
        InsertAtOrdered(rt, k, dup, RightOf(v));
        InsertAtKeys(rt, k, dup, RightOf(v));
        GrowRightOrdered(l, v, rt, r.right, p, k);
      }
    }
  }

  /** One level of the strict-order proof: the rebuilt node is strictly
      ordered once the rebuilt child is. */
  lemma InsertLeftStrict(t: Tree, k: int, dup: bool, from: Position)
    requires t.Node? && t.left.Node? && k < t.key && StrictlyOrdered(t)
    requires StrictlyOrdered(InsertAt(t.left, k, dup, LeftOf(t.key)).value)
    ensures StrictlyOrdered(InsertAt(t, k, dup, from).value)
  {
    var sub := InsertAt(t.left, k, dup, LeftOf(t.key)).value;
    InsertAtKeys(t.left, k, dup, LeftOf(t.key));
    GrowLeftStrictlyOrdered(t.left, sub, t.key, t.right, t.pos, k);
  }

  lemma InsertRightStrict(t: Tree, k: int, dup: bool, from: Position)
    requires t.Node? && t.right.Node? && t.key < k && StrictlyOrdered(t)
    requires StrictlyOrdered(InsertAt(t.right, k, dup, RightOf(t.key)).value)
    ensures StrictlyOrdered(InsertAt(t, k, dup, from).value)
  {
    var sub := InsertAt(t.right, k, dup, RightOf(t.key)).value;
    InsertAtKeys(t.right, k, dup, RightOf(t.key));
    GrowRightStrictlyOrdered(t.left, t.key, t.right, sub, t.pos, k);
  }

  lemma {:induction false} InsertAtStrictlyOrdered(t: Tree, k: int, dup: bool, from: Position)
    requires t.Node? && StrictlyOrdered(t) && (!dup || k !in Keys(t))
    ensures StrictlyOrdered(InsertAt(t, k, dup, from).value)
  {
    var Node(l, v, rt, p) := t;
    if k < v {
      if l == Nil {
        GrowLeftStrictlyOrdered(l, Leaf(k), v, rt, p, k);
      } else {
        InsertAtStrictlyOrdered(l, k, dup, LeftOf(v));
        InsertLeftStrict(t, k, dup, from);
      }
    } else if k > v {
      if rt == Nil {
        GrowRightStrictlyOrdered(l, v, rt, Leaf(k), p, k);
      } else {
        InsertAtStrictlyOrdered(rt, k, dup, RightOf(v));
        InsertRightStrict(t, k, dup, from);
      }
    } else {
      assert k in Keys(t);
    }
  }

  /** Insertion keeps the weak invariant always, and the strict one when no
      duplicate is admitted. */
  lemma InsertOrdered(t: Tree, k: int, dup: bool)
    requires Ordered(t)
    ensures Ordered(Insert(t, k, dup).value)
    ensures StrictlyOrdered(t) && (!dup || k !in Keys(t)) ==> StrictlyOrdered(Insert(t, k, dup).value)
  {
    if t != Nil {
      InsertAtOrdered(t, k, dup, Root);
      if StrictlyOrdered(t) && (!dup || k !in Keys(t)) {
        InsertAtStrictlyOrdered(t, k, dup, Root);
      }
    }
  }

  /** On an ordered tree: an absent key, or any key when duplicates are
      allowed, is added as exactly one new leaf; a present key under the
      no-duplicates policy leaves the tree as it was, ending the trace with
      the rejection. */
  lemma InsertOutcome(t: Tree, k: int, dup: bool)
    requires Ordered(t)
    ensures var r := Insert(t, k, dup);
            if dup || k !in Keys(t)
            then AddsLeaf(t, r.value, k) && Keys(r.value) == Keys(t) + multiset{k}
                 && Count(r.value) == Count(t) + 1 && IsInsertion(Last(r.steps))
            else r.value == t && Last(r.steps) == DuplicateRejected(k)
  {
    SearchFindsStoredKey(t, k, Root);
    if t != Nil {
      InsertAtOutcome(t, k, dup, Root);
    }
    var r := Insert(t, k, dup);
    if dup || k !in Keys(t) {
      AddsLeafGrows(t, r.value, k);
    }
  }

  // ---------------------------------------------------------------- delete

  /** The key of the leftmost node: the in-order successor candidate. */
  function Leftmost(t: Tree): (m: int)
    requires t.Node?
    ensures m in Keys(t)
    decreases t
  {
    if t.left == Nil then t.key else Leftmost(t.left)
  }

  /** In an ordered tree the leftmost key is the least one. */
  lemma {:induction false} LeftmostIsMin(t: Tree)
    requires t.Node? && Ordered(t)
    ensures AllAtLeast(Keys(t), Leftmost(t))
  {
    if t.left != Nil {
      LeftmostIsMin(t.left);
    }
  }

  /** Walks left links from the root of `t` to its leftmost node. */
  method FindMin(t: Tree) returns (m: int)
    requires t.Node?
    ensures m == Leftmost(t) && m in Keys(t)
  {
    var node := t;
    while node.left != Nil
      invariant node.Node?
      invariant Leftmost(node) == Leftmost(t)
      decreases node
    {
      node := node.left;
    }
    m := node.key;
  }

  /** Deletion of one node holding `k`, found by the same descent as search.
      A node without a left child is replaced by its right child, one
      without a right child by its left child; a node with two children
      takes its successor's key and the successor is deleted from the right
      subtree. */
  function Delete(t: Tree, k: int): (r: Traced<Tree>)
    ensures r.steps != []
    decreases t
  {
    match t
    case Nil => Traced(Nil, [DeleteNotFound(k)])
    case Node(l, v, rt, p) =>
      if k < v then
        var sub := Delete(l, k);
        Traced(Node(sub.value, v, rt, p), [SeekLeft(k, v)] + sub.steps)
      else if k > v then
        var sub := Delete(rt, k);
        Traced(Node(l, v, sub.value, p), [SeekRight(k, v)] + sub.steps)
      else
        var found := [TargetFound(k)];
        if l == Nil then
          Traced(rt, found + [ReplaceWithRight(k)])
        else if rt == Nil then
          Traced(l, found + [ReplaceWithLeft(k)])
        else
          var s := Leftmost(rt);
          var sub := Delete(rt, s);
          Traced(Node(l, s, sub.value, p),
                 found + [TwoChildren(k), SuccessorFound(s), KeyReplaced(k, s)] + sub.steps)
  }

  /** The recursive deletion as the engine runs it. It follows `Delete`
      branch for branch; its one purpose is to locate the successor with
      the loop in FindMin rather than with the function `Leftmost`. */
  method DeleteNode(t: Tree, k: int) returns (r: Tree, steps: seq<Step>)
    ensures Traced(r, steps) == Delete(t, k)
    decreases t
  {
    match t
    case Nil =>
      r, steps := Nil, [DeleteNotFound(k)];
    case Node(l, v, rt, p) =>
      if k < v {
        var sub, subSteps := DeleteNode(l, k);
        r, steps := Node(sub, v, rt, p), [SeekLeft(k, v)] + subSteps;
      } else if k > v {
        var sub, subSteps := DeleteNode(rt, k);
        r, steps := Node(l, v, sub, p), [SeekRight(k, v)] + subSteps;
      } else {
        var found := [TargetFound(k)];
        if l == Nil {
          r, steps := rt, found + [ReplaceWithRight(k)];
        } else if rt == Nil {
          r, steps := l, found + [ReplaceWithLeft(k)];
        } else {
          var s := FindMin(rt);
          var sub, subSteps := DeleteNode(rt, s);
          r := Node(l, s, sub, p);
          steps := found + [TwoChildren(k), SuccessorFound(s), KeyReplaced(k, s)] + subSteps;
        }
      }
  }

  lemma RemoveLeftKeys(l: Tree, sub: Tree, v: int, rt: Tree, p: Pos, k: int)
    requires k in Keys(l) && Keys(sub) == Keys(l) - multiset{k}
    ensures Keys(Node(sub, v, rt, p)) == Keys(Node(l, v, rt, p)) - multiset{k}
  {
  }

  lemma RemoveRightKeys(l: Tree, v: int, rt: Tree, sub: Tree, p: Pos, k: int)
    requires k in Keys(rt) && Keys(sub) == Keys(rt) - multiset{k}
    ensures Keys(Node(l, v, sub, p)) == Keys(Node(l, v, rt, p)) - multiset{k}
  {
  }

  lemma PromoteKeys(l: Tree, v: int, rt: Tree, p: Pos, s: int, sub: Tree)
    requires s in Keys(rt) && Keys(sub) == Keys(rt) - multiset{s}
    ensures Keys(Node(l, s, sub, p)) == Keys(Node(l, v, rt, p)) - multiset{v}
  {
  }

  /** Deleting an absent key leaves the tree as it was; the trace ends with
      the descent running out of nodes. */
  lemma {:induction false} DeleteAbsent(t: Tree, k: int)
    requires k !in Keys(t)
    ensures Delete(t, k).value == t && Last(Delete(t, k).steps) == DeleteNotFound(k)
  {
    match t
    case Nil =>
    case Node(l, v, rt, p) =>
      if k < v {
        DeleteAbsent(l, k);
        LastAppend([SeekLeft(k, v)], Delete(l, k).steps);
      } else if k > v {
        DeleteAbsent(rt, k);
        LastAppend([SeekRight(k, v)], Delete(rt, k).steps);
      }
  }

  /** Deleting a stored key from an ordered tree removes exactly one copy of
      it. */
  lemma {:induction false} DeleteRemovesOne(t: Tree, k: int)
    requires Ordered(t) && k in Keys(t)
    ensures Keys(Delete(t, k).value) == Keys(t) - multiset{k}
  {
    var Node(l, v, rt, p) := t;
    Descend(t, k);
    if k < v {
      DeleteRemovesOne(l, k);
      RemoveLeftKeys(l, Delete(l, k).value, v, rt, p, k);
    } else if k > v {
      DeleteRemovesOne(rt, k);
      RemoveRightKeys(l, v, rt, Delete(rt, k).value, p, k);
    } else if l != Nil && rt != Nil {
      var s := Leftmost(rt);
      DeleteRemovesOne(rt, s);
      PromoteKeys(l, v, rt, p, s, Delete(rt, s).value);
    }
  }

  /** ... and the descent reaches it: the trace holds the target event. */
  lemma {:induction false} DeleteReportsTarget(t: Tree, k: int)
    requires Ordered(t) && k in Keys(t)
    ensures TargetFound(k) in Delete(t, k).steps
  {
    var Node(l, v, rt, p) := t;
    Descend(t, k);
    if k < v {
      DeleteReportsTarget(l, k);
      InAppend([SeekLeft(k, v)], Delete(l, k).steps, TargetFound(k));
    } else if k > v {
      DeleteReportsTarget(rt, k);
      InAppend([SeekRight(k, v)], Delete(rt, k).steps, TargetFound(k));
    } else {
      var found := [TargetFound(k)];
      assert TargetFound(k) in found;
      if l == Nil {
        InPrefix(found, [ReplaceWithRight(k)], TargetFound(k));
      } else if rt == Nil {
        InPrefix(found, [ReplaceWithLeft(k)], TargetFound(k));
      } else {
        var s := Leftmost(rt);
        var head := [TwoChildren(k), SuccessorFound(s), KeyReplaced(k, s)];
        InPrefix(found, head, TargetFound(k));
        InPrefix(found + head, Delete(rt, s).steps, TargetFound(k));
      }
    }
  }

  /** Deleting a stored key from an ordered tree removes exactly one copy of
      it and one node, keeps the tree ordered, and the trace reports the
      target. */
  lemma DeletePresent(t: Tree, k: int)
    requires Ordered(t) && k in Keys(t)
    ensures var r := Delete(t, k);
            && Keys(r.value) == Keys(t) - multiset{k}
            && Count(r.value) == Count(t) - 1
            && Ordered(r.value)
            && TargetFound(k) in r.steps
  {
    DeleteRemovesOne(t, k);
    DeleteReportsTarget(t, k);
    DeleteOrdered(t, k);
    CountIsSize(t);
    CountIsSize(Delete(t, k).value);
  }

  /** Deletion never adds a key. */
  lemma DeleteKeysShrink(t: Tree, k: int)
    requires Ordered(t)
    ensures Keys(Delete(t, k).value) <= Keys(t)
  {
    if k in Keys(t) {
      DeleteRemovesOne(t, k);
    } else {
      DeleteAbsent(t, k);
    }
  }

  lemma ShrinkLeftOrdered(l: Tree, sub: Tree, v: int, rt: Tree, p: Pos)
    requires Ordered(Node(l, v, rt, p)) && Ordered(sub) && Keys(sub) <= Keys(l)
    ensures Ordered(Node(sub, v, rt, p))
  {
  }

  lemma ShrinkRightOrdered(l: Tree, v: int, rt: Tree, sub: Tree, p: Pos)
    requires Ordered(Node(l, v, rt, p)) && Ordered(sub) && Keys(sub) <= Keys(rt)
    ensures Ordered(Node(l, v, sub, p))
  {
  }

  /** A node may take the least key `s` of its right subtree when that
      subtree then loses keys only. */
  lemma PromoteOrdered(l: Tree, v: int, rt: Tree, p: Pos, s: int, sub: Tree)
    requires Ordered(Node(l, v, rt, p)) && s in Keys(rt) && AllAtLeast(Keys(rt), s)
    requires Ordered(sub) && Keys(sub) <= Keys(rt)
    ensures Ordered(Node(l, s, sub, p))
  {
    assert v <= s;
  }

  /** Deletion keeps the ordering invariant. */
  lemma {:induction false} DeleteOrdered(t: Tree, k: int)
    requires Ordered(t)
    ensures Ordered(Delete(t, k).value)
  {
    match t
    case Nil =>
    case Node(l, v, rt, p) =>
      var r := Delete(t, k).value;
      if k < v {
        DeleteOrdered(l, k);
        DeleteKeysShrink(l, k);
        ShrinkLeftOrdered(l, Delete(l, k).value, v, rt, p);
      } else if k > v {
        DeleteOrdered(rt, k);
        DeleteKeysShrink(rt, k);
        ShrinkRightOrdered(l, v, rt, Delete(rt, k).value, p);
      } else if l != Nil && rt != Nil {
        var s := Leftmost(rt);
        LeftmostIsMin(rt);
        DeleteOrdered(rt, s);
        DeleteKeysShrink(rt, s);
        PromoteOrdered(l, v, rt, p, s, Delete(rt, s).value);
      }
  }

  /** Deleting a node with two children keeps the node where it is, with
      its left subtree and position, gives it the least key of its right
      subtree, and removes one copy of that key from the right subtree. */
  lemma DeleteTwoChildren(t: Tree)
    requires Ordered(t) && t.Node? && t.left.Node? && t.right.Node?
    ensures var r := Delete(t, t.key);
            && r.value.Node? && r.value.left == t.left && r.value.pos == t.pos
            && r.value.key in Keys(t.right) && AllAtLeast(Keys(t.right), r.value.key)
            && Keys(r.value.right) == Keys(t.right) - multiset{r.value.key}
            && SuccessorFound(r.value.key) in r.steps
  {
    LeftmostIsMin(t.right);
    DeletePresent(t.right, Leftmost(t.right));
    assert Delete(t, t.key).value.right == Delete(t.right, Leftmost(t.right)).value;
  }

  /** Without duplicates, deletion keeps the strict invariant. */
  lemma DeleteStrictlyOrdered(t: Tree, k: int)
    requires StrictlyOrdered(t)
    ensures StrictlyOrdered(Delete(t, k).value)
  {
    if k in Keys(t) {
      StrictImpliesDistinct(t);
      DeletePresent(t, k);
      DeleteOrdered(t, k);
      var r := Delete(t, k).value;
      assert Keys(r) <= Keys(t);
      DistinctImpliesStrict(r);
    } else {
      DeleteAbsent(t, k);
    }
  }
}
