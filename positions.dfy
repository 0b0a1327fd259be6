/** The layout calculator: every node gets the midpoint of a horizontal
    interval as its x and its level as its y. The root of a tree of height
    H gets [0, 2^H] and level H-1, and each child gets one half of its
    parent's interval one level lower. The interval at depth d has width
    2^(H-d) >= 2, so every midpoint is an integer and the model uses `int`. */
module Positions {
  import opened Trees

  function Pow2(n: nat): (p: nat)
    ensures p >= 1
  {
    if n == 0 then 1 else 2 * Pow2(n - 1)
  }

  /** Every node of `t` sits at the exact midpoint of the interval its
      parent handed down, at `level` minus its depth below `t`. */
  ghost predicate PlacedIn(t: Tree, lo: int, hi: int, level: int)
  {
    match t
    case Nil => true
    case Node(l, _, r, p) =>
      && 2 * p.x == lo + hi && p.y == level
      && PlacedIn(l, lo, p.x, level - 1) && PlacedIn(r, p.x, hi, level - 1)
  }

  /** The positions a whole tree has right after a recomputation. */
  ghost predicate LaidOut(t: Tree)
  {
    t == Nil || PlacedIn(t, 0, Pow2(Height(t)), Height(t) - 1)
  }

  /** Overwrites the position of every node below `t`, which is handed the
      interval [lo, hi] at `level`. The interval is wide enough for the
      subtree: twice 2^level, with level + 1 at least the height. */
  function Assign(t: Tree, lo: int, hi: int, level: int): (r: Tree)
    requires Height(t) <= level + 1
    requires t.Node? ==> level >= 0 && hi - lo == 2 * Pow2(level)
    ensures PlacedIn(r, lo, hi, level)
    ensures SameShape(r, t)
    decreases t
  {
    match t
    case Nil => Nil
    case Node(l, k, rt, _) =>
      assert lo + hi == 2 * (lo + Pow2(level));
      var x := (lo + hi) / 2;
      var nl := if l.Node? then Assign(l, lo, x, level - 1) else l;
      var nr := if rt.Node? then Assign(rt, x, hi, level - 1) else rt;
      Node(nl, k, nr, Pos(x, level))
  }

  /** Recomputes every position of a non-empty tree from its height; an
      empty tree is left as it is. */
  function Layout(t: Tree): (r: Tree)
    ensures LaidOut(r)
    ensures SameShape(r, t)
  {
    if t == Nil then t
    else
      var h := Height(t);
      var r := Assign(t, 0, Pow2(h), h - 1);
      SameShapeQueries(r, t);
      r
  }

  /** The node reached from the root of `t` by following `path`
      (false = left, true = right), or Nil when the path leaves the tree. */
  function At(t: Tree, path: seq<bool>): Tree
    decreases |path|
  {
    if path == [] then t
    else match t
      case Nil => Nil
      case Node(l, _, r, _) => At(if path[0] then r else l, path[1..])
  }

  /** The x coordinates in in-order. */
  function Xs(t: Tree): (s: seq<int>)
    ensures |s| == Count(t)
  {
    match t
    case Nil => []
    case Node(l, _, r, p) => Xs(l) + [p.x] + Xs(r)
  }

  /** A node at depth d below a placed subtree has y == level - d, which is
      non-negative when the level leaves room for the height; its x lies
      strictly inside the subtree's interval. */
  lemma {:induction false} PlacedAt(t: Tree, lo: int, hi: int, level: int, path: seq<bool>)
    requires PlacedIn(t, lo, hi, level) && lo < hi && At(t, path).Node?
    ensures At(t, path).pos.y == level - |path|
    ensures |path| < Height(t)
    ensures lo < At(t, path).pos.x < hi
    decreases |path|
  {
    if path != [] {
      var Node(l, _, r, p) := t;
      if path[0] {
        PlacedAt(r, p.x, hi, level - 1, path[1..]);
      } else {
        PlacedAt(l, lo, p.x, level - 1, path[1..]);
      }
    }
  }

  /** In a placed subtree every x lies strictly inside the interval, and the
      x coordinates strictly increase in in-order: left-subtree x < node
      x < right-subtree x, so no two nodes share an x. */
  lemma {:induction false} PlacedXsAscending(t: Tree, lo: int, hi: int, level: int)
    requires PlacedIn(t, lo, hi, level) && lo < hi
    ensures forall i | 0 <= i < |Xs(t)| :: lo < Xs(t)[i] < hi
    ensures Ascending(Xs(t))
  {
    match t
    case Nil =>
    case Node(l, _, r, p) =>
      PlacedXsAscending(l, lo, p.x, level - 1);
      PlacedXsAscending(r, p.x, hi, level - 1);
      JoinAscending(Xs(l), p.x, Xs(r));
  }

  /** Recomputing the layout of a tree that is already laid out changes
      nothing. */
  lemma {:induction false} AssignKeepsPlaced(t: Tree, lo: int, hi: int, level: int)
    requires Height(t) <= level + 1
    requires t.Node? ==> level >= 0 && hi - lo == 2 * Pow2(level)
    requires PlacedIn(t, lo, hi, level)
    ensures Assign(t, lo, hi, level) == t
  {
    match t
    case Nil =>
    case Node(l, k, rt, p) =>
      assert lo + hi == 2 * (lo + Pow2(level));
      if l.Node? {
        AssignKeepsPlaced(l, lo, p.x, level - 1);
      }
      if rt.Node? {
        AssignKeepsPlaced(rt, p.x, hi, level - 1);
      }
  }

  lemma LayoutKeepsLaidOut(t: Tree)
    requires LaidOut(t)
    ensures Layout(t) == t
  {
    if t != Nil {
      AssignKeepsPlaced(t, 0, Pow2(Height(t)), Height(t) - 1);
    }
  }

  /** After a recomputation on a non-empty tree of height H, the node at
      depth d has y == H - 1 - d >= 0, x values are distinct and strictly
      inside [0, 2^H], ordered like the keys in in-order. */
  lemma LaidOutGeometry(t: Tree)
    requires LaidOut(t) && t.Node?
    ensures forall path | At(t, path).Node? ::
              At(t, path).pos.y == Height(t) - 1 - |path| && 0 <= At(t, path).pos.y
    ensures forall i | 0 <= i < |Xs(t)| :: 0 < Xs(t)[i] < Pow2(Height(t))
    ensures Ascending(Xs(t))
  {
    var h := Height(t);
    assert Pow2(h) == 2 * Pow2(h - 1);
    forall path | At(t, path).Node?
      ensures At(t, path).pos.y == h - 1 - |path| && 0 <= At(t, path).pos.y
    {
      PlacedAt(t, 0, Pow2(h), h - 1, path);
    }
    PlacedXsAscending(t, 0, Pow2(h), h - 1);
  }
}
