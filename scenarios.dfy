/** The "Sample Data" action and the concrete behaviour it shows. */
module Scenarios {
  import opened Trees
  import opened Trace
  import opened Positions
  import Engine

  const SAMPLE: seq<int> := [50, 30, 70, 20, 40, 60, 80]

  /** Inserts the keys in order, laying the tree out after each insert, as
      the host does for the sample data. */
  function InsertAll(t: Tree, ks: seq<int>, dup: bool): (r: Tree)
    ensures ks != [] ==> r.Node? && LaidOut(r)
    decreases |ks|
  {
    if ks == [] then t
    else InsertAll(Layout(Engine.Insert(t, ks[0], dup).value), ks[1..], dup)
  }

  /** One accepted insert followed by a layout adds exactly `k` and keeps
      the tree ordered. */
  lemma InsertLaidOut(t: Tree, k: int, dup: bool)
    requires Ordered(t) && (dup || k !in Keys(t))
    ensures var v := Layout(Engine.Insert(t, k, dup).value);
            Keys(v) == Keys(t) + multiset{k} && Count(v) == Count(t) + 1 && Ordered(v)
  {
    var u := Engine.Insert(t, k, dup).value;
    Engine.InsertOutcome(t, k, dup);
    Engine.InsertOrdered(t, k, dup);
    SameShapeQueries(Layout(u), u);
    SameShapeOrdered(Layout(u), u);
  }

  /** Without duplicates one insert followed by a layout keeps the keys
      distinct and adds `k` if it was absent. */
  lemma InsertLaidOutStrict(t: Tree, k: int)
    requires StrictlyOrdered(t)
    ensures var v := Layout(Engine.Insert(t, k, false).value);
            StrictlyOrdered(v) && forall x :: x in Keys(v) <==> x in Keys(t) || x == k
  {
    var u := Engine.Insert(t, k, false).value;
    StrictImpliesDistinct(t);
    Engine.InsertOutcome(t, k, false);
    Engine.InsertOrdered(t, k, false);
    SameShapeQueries(Layout(u), u);
    SameShapeOrdered(Layout(u), u);
  }

  lemma AddFirstThenRest(before: multiset<int>, ks: seq<int>, mid: multiset<int>, after: multiset<int>)
    requires ks != []
    requires mid == before + multiset{ks[0]} && after == mid + multiset(ks[1..])
    ensures after == before + multiset(ks)
  {
    assert ks == [ks[0]] + ks[1..];
  }

  /** With duplicates allowed every insert is accepted: the keys grow by
      exactly the inserted multiset. */
  lemma {:induction false} InsertAllWithDuplicates(t: Tree, ks: seq<int>)
    requires Ordered(t)
    ensures Keys(InsertAll(t, ks, true)) == Keys(t) + multiset(ks)
    decreases |ks|
  {
    if ks != [] {
      var k, rest := ks[0], ks[1..];
      var v := Layout(Engine.Insert(t, k, true).value);
      InsertLaidOut(t, k, true);
      var r := InsertAll(v, rest, true);
      assert InsertAll(t, ks, true) == r;
      InsertAllWithDuplicates(v, rest);
      AddFirstThenRest(Keys(t), ks, Keys(v), Keys(r));
    }
  }

  /** Under either policy the fold keeps the tree ordered. */
  lemma {:induction false} InsertAllOrdered(t: Tree, ks: seq<int>, dup: bool)
    requires Ordered(t)
    ensures Ordered(InsertAll(t, ks, dup))
    decreases |ks|
  {
    if ks != [] {
      var u := Engine.Insert(t, ks[0], dup).value;
      Engine.InsertOrdered(t, ks[0], dup);
      SameShapeOrdered(Layout(u), u);
      InsertAllOrdered(Layout(u), ks[1..], dup);
    }
  }

  /** ... so the node count grows by the number of keys inserted. */
  lemma InsertAllCountWithDuplicates(t: Tree, ks: seq<int>)
    requires Ordered(t)
    ensures Count(InsertAll(t, ks, true)) == Count(t) + |ks|
  {
    InsertAllWithDuplicates(t, ks);
    CountIsSize(t);
    CountIsSize(InsertAll(t, ks, true));
  }

  /** Without duplicates the keys stay distinct and the tree holds exactly
      the keys it held plus those inserted. */
  lemma {:induction false} InsertAllWithoutDuplicates(t: Tree, ks: seq<int>)
    requires StrictlyOrdered(t)
    ensures StrictlyOrdered(InsertAll(t, ks, false))
    ensures forall x :: x in Keys(InsertAll(t, ks, false)) <==> x in Keys(t) || x in ks
    decreases |ks|
  {
    if ks != [] {
      var v := Layout(Engine.Insert(t, ks[0], false).value);
      InsertLaidOutStrict(t, ks[0]);
      InsertAllWithoutDuplicates(v, ks[1..]);
      assert forall x :: x in ks <==> x == ks[0] || x in ks[1..];
    }
  }

  /** A node with its position written out, for the concrete trees below. */
  function Placed(l: Tree, k: int, r: Tree, x: int, y: int): Tree
  {
    Node(l, k, r, Pos(x, y))
  }

  /** The trees after each insert of the sample data and its layout. The
      height grows at the second and the fourth insert, which widens the
      layout and moves every node placed before. */
  const T1: Tree := Placed(Nil, 50, Nil, 1, 0)
  const T2: Tree := Placed(Placed(Nil, 30, Nil, 1, 0), 50, Nil, 2, 1)
  const T3: Tree := Placed(Placed(Nil, 30, Nil, 1, 0), 50, Placed(Nil, 70, Nil, 3, 0), 2, 1)
  const T4: Tree := Placed(Placed(Placed(Nil, 20, Nil, 1, 0), 30, Nil, 2, 1), 50, Placed(Nil, 70, Nil, 6, 1), 4, 2)
  const T5: Tree := Placed(Placed(Placed(Nil, 20, Nil, 1, 0), 30, Placed(Nil, 40, Nil, 3, 0), 2, 1),
                        50, Placed(Nil, 70, Nil, 6, 1), 4, 2)
  const T6: Tree := Placed(Placed(Placed(Nil, 20, Nil, 1, 0), 30, Placed(Nil, 40, Nil, 3, 0), 2, 1),
                        50, Placed(Placed(Nil, 60, Nil, 5, 0), 70, Nil, 6, 1), 4, 2)
  const LEFT_SUBTREE: Tree := Placed(Placed(Nil, 20, Nil, 1, 0), 30, Placed(Nil, 40, Nil, 3, 0), 2, 1)
  const RIGHT_SUBTREE: Tree := Placed(Placed(Nil, 60, Nil, 5, 0), 70, Placed(Nil, 80, Nil, 7, 0), 6, 1)
  const SAMPLE_TREE: Tree := Placed(LEFT_SUBTREE, 50, RIGHT_SUBTREE, 4, 2)

  /** Each step of the sample build, split at the tree the insert returns,
      whose new leaf still sits at the origin, and the layout of that tree. */
  lemma Build1()
    ensures Layout(Engine.Insert(Nil, 50, false).value) == T1
  {
    var u := Leaf(50);
    assert Engine.Insert(Nil, 50, false).value == u;
    assert Height(u) == 1;
    assert Layout(u) == Assign(u, 0, 2, 0);
  }

  lemma Build2()
    ensures Layout(Engine.Insert(T1, 30, false).value) == T2
  {
    var u := Placed(Leaf(30), 50, Nil, 1, 0);
    assert Engine.Insert(T1, 30, false).value == u;
    assert Height(u) == 2;
    assert Layout(u) == Assign(u, 0, 4, 1);
  }

  lemma Build3()
    ensures Layout(Engine.Insert(T2, 70, false).value) == T3
  {
    var u := Placed(Placed(Nil, 30, Nil, 1, 0), 50, Leaf(70), 2, 1);
    assert Engine.Insert(T2, 70, false).value == u;
    assert Height(u) == 2;
    assert Layout(u) == Assign(u, 0, 4, 1);
  }

  lemma Build4()
    ensures Layout(Engine.Insert(T3, 20, false).value) == T4
  {
    var u := Placed(Placed(Leaf(20), 30, Nil, 1, 0), 50, Placed(Nil, 70, Nil, 3, 0), 2, 1);
    assert Engine.Insert(T3, 20, false).value == u;
    assert Height(u) == 3;
    assert Layout(u) == Assign(u, 0, 8, 2);
  }

  lemma Build5()
    ensures Layout(Engine.Insert(T4, 40, false).value) == T5
  {
    var u := Placed(Placed(Placed(Nil, 20, Nil, 1, 0), 30, Leaf(40), 2, 1), 50, Placed(Nil, 70, Nil, 6, 1), 4, 2);
    assert Engine.Insert(T4, 40, false).value == u;
    assert Height(u) == 3;
    assert Layout(u) == Assign(u, 0, 8, 2);
  }

  lemma Build6()
    ensures Layout(Engine.Insert(T5, 60, false).value) == T6
  {
    var u := Placed(LEFT_SUBTREE, 50, Placed(Leaf(60), 70, Nil, 6, 1), 4, 2);
    assert Engine.Insert(T5, 60, false).value == u;
    assert Height(u) == 3;
    assert Layout(u) == Assign(u, 0, 8, 2);
  }

  lemma Build7()
    ensures Layout(Engine.Insert(T6, 80, false).value) == SAMPLE_TREE
  {
    var u := Placed(LEFT_SUBTREE, 50, Placed(Placed(Nil, 60, Nil, 5, 0), 70, Leaf(80), 6, 1), 4, 2);
    assert Engine.Insert(T6, 80, false).value == u;
    assert Height(u) == 3;
    assert Layout(u) == Assign(u, 0, 8, 2);
  }

  lemma Chain6() ensures InsertAll(T6, [80], false) == SAMPLE_TREE { Build7(); }
  lemma Chain5() ensures InsertAll(T5, [60, 80], false) == SAMPLE_TREE
  { Build6(); Chain6(); assert [60, 80][1..] == [80]; }
  lemma Chain4() ensures InsertAll(T4, [40, 60, 80], false) == SAMPLE_TREE
  { Build5(); Chain5(); assert [40, 60, 80][1..] == [60, 80]; }
  lemma Chain3() ensures InsertAll(T3, [20, 40, 60, 80], false) == SAMPLE_TREE
  { Build4(); Chain4(); assert [20, 40, 60, 80][1..] == [40, 60, 80]; }
  lemma Chain2() ensures InsertAll(T2, [70, 20, 40, 60, 80], false) == SAMPLE_TREE
  { Build3(); Chain3(); assert [70, 20, 40, 60, 80][1..] == [20, 40, 60, 80]; }
  lemma Chain1() ensures InsertAll(T1, [30, 70, 20, 40, 60, 80], false) == SAMPLE_TREE
  { Build2(); Chain2(); assert [30, 70, 20, 40, 60, 80][1..] == [70, 20, 40, 60, 80]; }

  /** The sample data builds SAMPLE_TREE. */
  lemma SampleBuild()
    ensures InsertAll(Nil, SAMPLE, false) == SAMPLE_TREE
  {
    Build1(); Chain1();
    assert SAMPLE[1..] == [30, 70, 20, 40, 60, 80];
  }

  lemma LeafTraversals(a: int, pa: Pos)
    ensures Inorder(Node(Nil, a, Nil, pa)) == [a]
    ensures Preorder(Node(Nil, a, Nil, pa)) == [a]
    ensures Postorder(Node(Nil, a, Nil, pa)) == [a]
  {
  }

  lemma SubtreeInorder(a: int, pa: Pos, k: int, p: Pos, b: int, pb: Pos)
    ensures Inorder(Node(Node(Nil, a, Nil, pa), k, Node(Nil, b, Nil, pb), p)) == [a, k, b]
  {
    LeafTraversals(a, pa); LeafTraversals(b, pb);
    assert [a] + [k] + [b] == [a, k, b];
  }

  lemma SubtreePreorder(a: int, pa: Pos, k: int, p: Pos, b: int, pb: Pos)
    ensures Preorder(Node(Node(Nil, a, Nil, pa), k, Node(Nil, b, Nil, pb), p)) == [k, a, b]
  {
    LeafTraversals(a, pa); LeafTraversals(b, pb);
    assert [k] + [a] + [b] == [k, a, b];
  }

  lemma SubtreePostorder(a: int, pa: Pos, k: int, p: Pos, b: int, pb: Pos)
    ensures Postorder(Node(Node(Nil, a, Nil, pa), k, Node(Nil, b, Nil, pb), p)) == [a, b, k]
  {
    LeafTraversals(a, pa); LeafTraversals(b, pb);
    assert [a] + [b] + [k] == [a, b, k];
  }

  /** The sample tree's in-order traversal is its keys sorted. */
  lemma SampleInorder()
    ensures Inorder(SAMPLE_TREE) == [20, 30, 40, 50, 60, 70, 80]
  {
    SubtreeInorder(20, Pos(1, 0), 30, Pos(2, 1), 40, Pos(3, 0));
    SubtreeInorder(60, Pos(5, 0), 70, Pos(6, 1), 80, Pos(7, 0));
    assert [20, 30, 40] + [50] + [60, 70, 80] == [20, 30, 40, 50, 60, 70, 80];
  }

  lemma PreorderOf(l: Tree, k: int, r: Tree, p: Pos, sl: seq<int>, sr: seq<int>)
    requires Preorder(l) == sl && Preorder(r) == sr
    ensures Preorder(Node(l, k, r, p)) == [k] + sl + sr
  {
  }

  lemma SamplePreorderParts()
    ensures Preorder(SAMPLE_TREE) == [50] + [30, 20, 40] + [70, 60, 80]
  {
    assert Preorder(LEFT_SUBTREE) == [30, 20, 40] by {
      SubtreePreorder(20, Pos(1, 0), 30, Pos(2, 1), 40, Pos(3, 0));
    }
    assert Preorder(RIGHT_SUBTREE) == [70, 60, 80] by {
      SubtreePreorder(60, Pos(5, 0), 70, Pos(6, 1), 80, Pos(7, 0));
    }
    PreorderOf(LEFT_SUBTREE, 50, RIGHT_SUBTREE, Pos(4, 2), [30, 20, 40], [70, 60, 80]);
  }

  lemma SamplePreorder()
    ensures Preorder(SAMPLE_TREE) == [50, 30, 20, 40, 70, 60, 80]
  {
    SamplePreorderParts();
    assert [50] + [30, 20, 40] + [70, 60, 80] == [50, 30, 20, 40, 70, 60, 80];
  }

  lemma SamplePostorder()
    ensures Postorder(SAMPLE_TREE) == [20, 40, 30, 60, 80, 70, 50]
  {
    SubtreePostorder(20, Pos(1, 0), 30, Pos(2, 1), 40, Pos(3, 0));
    SubtreePostorder(60, Pos(5, 0), 70, Pos(6, 1), 80, Pos(7, 0));
    assert [20, 40, 30] + [60, 80, 70] + [50] == [20, 40, 30, 60, 80, 70, 50];
  }

  /** The sample tree has height 3 and seven nodes. */
  lemma SampleSize()
    ensures Height(SAMPLE_TREE) == 3 && Count(SAMPLE_TREE) == 7
  {
    assert Height(LEFT_SUBTREE) == 2 && Count(LEFT_SUBTREE) == 3;
    assert Height(RIGHT_SUBTREE) == 2 && Count(RIGHT_SUBTREE) == 3;
  }

  /** It is laid out on the x coordinates 1..7, with the root at (4, 2). */
  lemma SampleXs()
    ensures SAMPLE_TREE.pos == Pos(4, 2)
    ensures Xs(SAMPLE_TREE) == [1, 2, 3, 4, 5, 6, 7]
  {
    assert Xs(LEFT_SUBTREE) == [1, 2, 3];
    assert Xs(RIGHT_SUBTREE) == [5, 6, 7];
    assert [1, 2, 3] + [4] + [5, 6, 7] == [1, 2, 3, 4, 5, 6, 7];
  }

  /** Searching 60 visits 50, then 70, then 60. */
  lemma SampleSearch()
    ensures var r := Engine.Search(SAMPLE_TREE, 60, Root);
            && r.value
            && r.steps == [Visit(Root, 50), SearchRight(60, 50),
                           Visit(RightOf(50), 70), SearchLeft(60, 70),
                           Visit(LeftOf(70), 60), Found(60, LeftOf(70))]
  {
  }

  /** Deleting 50 promotes its successor 60 to the root; the successor's old
      node, a leaf, disappears. */
  lemma SampleDeleteRoot()
    ensures Engine.Delete(SAMPLE_TREE, 50).value
            == Placed(LEFT_SUBTREE, 60, Placed(Nil, 70, Placed(Nil, 80, Nil, 7, 0), 6, 1), 4, 2)
  {
    assert Engine.Leftmost(RIGHT_SUBTREE) == 60;
    assert Engine.Delete(RIGHT_SUBTREE, 60).value == Placed(Nil, 70, Placed(Nil, 80, Nil, 7, 0), 6, 1);
  }

  /** Deleting an absent key changes nothing and reports it. */
  lemma SampleDeleteAbsent()
    ensures var r := Engine.Delete(SAMPLE_TREE, 999);
            r.value == SAMPLE_TREE && Last(r.steps) == DeleteNotFound(999)
  {
    assert 999 !in Keys(SAMPLE_TREE);
    Engine.DeleteAbsent(SAMPLE_TREE, 999);
  }

  const D1: Tree := Placed(Nil, 10, Nil, 1, 0)
  const D2: Tree := Placed(Nil, 10, Placed(Nil, 10, Nil, 3, 0), 2, 1)

  lemma Dup1()
    ensures Layout(Engine.Insert(Nil, 10, true).value) == D1
  {
    var u := Leaf(10);
    assert Engine.Insert(Nil, 10, true).value == u;
    assert Height(u) == 1;
    assert Layout(u) == Assign(u, 0, 2, 0);
  }

  lemma Dup2()
    ensures Layout(Engine.Insert(D1, 10, true).value) == D2
  {
    var u := Placed(Nil, 10, Leaf(10), 1, 0);
    assert Engine.Insert(D1, 10, true).value == u;
    assert Height(u) == 2;
    assert Layout(u) == Assign(u, 0, 4, 1);
  }

  /** With duplicates allowed, a second 10 becomes the root's right child. */
  lemma DuplicateTen()
    ensures InsertAll(Nil, [10, 10], true) == D2
  {
    Dup1(); Dup2();
    assert InsertAll(D1, [10], true) == D2;
    assert [10, 10][1..] == [10];
  }
}
