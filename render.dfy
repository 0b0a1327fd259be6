/** What the renderer extracts from a laid-out tree before drawing: one
    record per node and one edge per parent-child link. */
module Render {
  import opened Trees
  import opened Positions

  datatype NodeView = NodeView(pos: Pos, key: int)

  /** A connector from a parent's position to a child's position. */
  datatype Edge = Edge(from: Pos, to: Pos)

  datatype Drawing = Drawing(nodes: seq<NodeView>, edges: seq<Edge>)

  /** Visits the tree in pre-order; at each node records the node, then for
      each existing child the edge to it followed by the child's subtree. */
  function Collect(t: Tree): (d: Drawing)
    ensures |d.nodes| == Count(t)
    ensures |d.edges| == if t == Nil then 0 else Count(t) - 1
  {
    match t
    case Nil => Drawing([], [])
    case Node(l, k, r, p) =>
      var dl := if l.Node? then Collect(l) else Drawing([], []);
      var dr := if r.Node? then Collect(r) else Drawing([], []);
      var el := if l.Node? then [Edge(p, l.pos)] + dl.edges else [];
      var er := if r.Node? then [Edge(p, r.pos)] + dr.edges else [];
      Drawing([NodeView(p, k)] + dl.nodes + dr.nodes, el + er)
  }

  /** The keys of a node list, in order. */
  function KeysOf(vs: seq<NodeView>): (s: seq<int>)
    ensures |s| == |vs|
  {
    if vs == [] then [] else [vs[0].key] + KeysOf(vs[1..])
  }

  lemma {:induction false} KeysOfAppend(a: seq<NodeView>, b: seq<NodeView>)
    ensures KeysOf(a + b) == KeysOf(a) + KeysOf(b)
  {
    if a == [] {
      assert a + b == b;
    } else {
      assert (a + b)[0] == a[0] && (a + b)[1..] == a[1..] + b;
      KeysOfAppend(a[1..], b);
      calc {
        KeysOf(a + b);
        [a[0].key] + KeysOf(a[1..] + b);
        [a[0].key] + (KeysOf(a[1..]) + KeysOf(b));
        ([a[0].key] + KeysOf(a[1..])) + KeysOf(b);
      }
    }
  }

  /** The node records come out in pre-order. */
  lemma {:induction false} CollectPreorder(t: Tree)
    ensures KeysOf(Collect(t).nodes) == Preorder(t)
  {
    match t
    case Nil =>
    case Node(l, k, r, p) =>
      CollectPreorder(l);
      CollectPreorder(r);
      var nl, nr := Collect(l).nodes, Collect(r).nodes;
      KeysOfAppend([NodeView(p, k)], nl);
      KeysOfAppend([NodeView(p, k)] + nl, nr);
      assert Collect(t).nodes == [NodeView(p, k)] + nl + nr;
  }

  /** `e` joins the node at some path to its child one step further down. */
  ghost predicate IsLink(t: Tree, e: Edge)
  {
    exists path: seq<bool>, dir: bool ::
      && At(t, path).Node? && At(t, path + [dir]).Node?
      && e == Edge(At(t, path).pos, At(t, path + [dir]).pos)
  }

  /** `v` records the position and key of the node at some path. */
  ghost predicate IsNodeRecord(t: Tree, v: NodeView)
  {
    exists path: seq<bool> :: At(t, path).Node? && v == NodeView(At(t, path).pos, At(t, path).key)
  }

  /** One step down from a node: a path that starts with `dir` continues
      in the child `dir` selects. */
  lemma AtStep(t: Tree, dir: bool, path: seq<bool>)
    requires t.Node?
    ensures At(t, [dir] + path) == At(if dir then t.right else t.left, path)
  {
    assert ([dir] + path)[0] == dir && ([dir] + path)[1..] == path;
  }

  lemma LinkBelow(t: Tree, dir: bool, e: Edge)
    requires t.Node? && IsLink(if dir then t.right else t.left, e)
    ensures IsLink(t, e)
  {
    var c := if dir then t.right else t.left;
    var path, d :| At(c, path).Node? && At(c, path + [d]).Node?
                   && e == Edge(At(c, path).pos, At(c, path + [d]).pos);
    AtStep(t, dir, path);
    AtStep(t, dir, path + [d]);
    assert [dir] + path + [d] == [dir] + (path + [d]);
    assert At(t, [dir] + path + [d]) == At(c, path + [d]);
  }

  lemma RecordBelow(t: Tree, dir: bool, v: NodeView)
    requires t.Node? && IsNodeRecord(if dir then t.right else t.left, v)
    ensures IsNodeRecord(t, v)
  {
    var c := if dir then t.right else t.left;
    var path :| At(c, path).Node? && v == NodeView(At(c, path).pos, At(c, path).key);
    AtStep(t, dir, path);
  }

  /** Every collected edge runs from a node's position to the position of
      one of its children. */
  lemma {:induction false} CollectEdgesAreLinks(t: Tree)
    ensures forall e | e in Collect(t).edges :: IsLink(t, e)
  {
    match t
    case Nil =>
    case Node(l, k, r, p) =>
      CollectEdgesAreLinks(l);
      CollectEdgesAreLinks(r);
      var dl, dr := Collect(l), Collect(r);
      forall e | e in Collect(t).edges
        ensures IsLink(t, e)
      {
        if l.Node? && e == Edge(p, l.pos) {
          assert [] + [false] == [false];
          assert At(t, [] + [false]) == l;
        } else if r.Node? && e == Edge(p, r.pos) {
          assert [] + [true] == [true];
          assert At(t, [] + [true]) == r;
        } else if l.Node? && e in dl.edges {
          LinkBelow(t, false, e);
        } else {
          LinkBelow(t, true, e);
        }
      }
  }

  /** Conversely, every link from a node to a child yields an edge. */
  lemma {:induction false} LinksAreCollected(t: Tree, path: seq<bool>, dir: bool)
    requires At(t, path).Node? && At(t, path + [dir]).Node?
    ensures Edge(At(t, path).pos, At(t, path + [dir]).pos) in Collect(t).edges
    decreases |path|
  {
    var Node(l, k, r, p) := t;
    if path == [] {
      assert path + [dir] == [dir];
    } else {
      var c := if path[0] then r else l;
      assert (path + [dir])[0] == path[0] && (path + [dir])[1..] == path[1..] + [dir];
      LinksAreCollected(c, path[1..], dir);
    }
  }

  /** Every node record carries the position and key of a node of the tree. */
  lemma {:induction false} CollectRecordsAreNodes(t: Tree)
    ensures forall v | v in Collect(t).nodes :: IsNodeRecord(t, v)
  {
    match t
    case Nil =>
    case Node(l, k, r, p) =>
      CollectRecordsAreNodes(l);
      CollectRecordsAreNodes(r);
      forall v | v in Collect(t).nodes
        ensures IsNodeRecord(t, v)
      {
        if v == NodeView(p, k) {
          assert At(t, []) == t;
        } else if l.Node? && v in Collect(l).nodes {
          RecordBelow(t, false, v);
        } else {
          RecordBelow(t, true, v);
        }
      }
  }

  /** Conversely, every node of the tree is recorded with its position and key. */
  lemma {:induction false} NodesAreCollected(t: Tree, path: seq<bool>)
    requires At(t, path).Node?
    ensures NodeView(At(t, path).pos, At(t, path).key) in Collect(t).nodes
    decreases |path|
  {
    var Node(l, k, r, p) := t;
    if path != [] {
      NodesAreCollected(if path[0] then r else l, path[1..]);
    }
  }

  /** On a placed tree every edge goes down exactly one level and to a
      different x. ChildSides below says which way each link points. */
  lemma {:induction false} EdgesStepDown(t: Tree, lo: int, hi: int, level: int)
    requires PlacedIn(t, lo, hi, level) && lo < hi
    ensures forall e | e in Collect(t).edges :: e.to.y == e.from.y - 1 && e.to.x != e.from.x
  {
    match t
    case Nil =>
    case Node(l, k, r, p) =>
      if l.Node? {
        EdgesStepDown(l, lo, p.x, level - 1);
      }
      if r.Node? {
        EdgesStepDown(r, p.x, hi, level - 1);
      }
  }

  /** On a placed tree a left child sits one level below its parent and to
      its left, and a right child one level below and to its right. */
  lemma {:induction false} ChildSides(t: Tree, lo: int, hi: int, level: int, path: seq<bool>, dir: bool)
    requires PlacedIn(t, lo, hi, level) && lo < hi
    requires At(t, path).Node? && At(t, path + [dir]).Node?
    ensures At(t, path + [dir]).pos.y == At(t, path).pos.y - 1
    ensures if dir then At(t, path).pos.x < At(t, path + [dir]).pos.x
            else At(t, path + [dir]).pos.x < At(t, path).pos.x
    decreases |path|
  {
    var Node(l, k, r, p) := t;
    if path == [] {
      assert path + [dir] == [dir];
    } else {
      assert (path + [dir])[0] == path[0] && (path + [dir])[1..] == path[1..] + [dir];
      if path[0] {
        ChildSides(r, p.x, hi, level - 1, path[1..], dir);
      } else {
        ChildSides(l, lo, p.x, level - 1, path[1..], dir);
      }
    }
  }
}
