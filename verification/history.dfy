/**
 Sequences of mutations and the modification counter. The counter is the
 source's way for callers to detect that the graph changed: it never goes
 down, it moves exactly when a mutation has an effect, and an unchanged
 counter across any history means an unchanged graph.
 */
module History {
  import opened Options
  import opened NodeInfo
  import opened Adjacency
  import opened WGraph
  import opened Mutations

  datatype Op =
    | AddNodeOp(key: int)
    | ConnectOp(a: int, b: int, w: real)
    | RemoveEdgeOp(a: int, b: int)
    | RemoveNodeOp(key: int)

  /** One public mutation. */
  function Apply(g: Graph, op: Op): (r: Graph)
    requires Valid(g)
    ensures Valid(r)
    ensures GetMC(r) >= GetMC(g)
    ensures GetMC(r) == GetMC(g) <==> r == g
  {
    match op
    case AddNodeOp(key) => AddNode(g, key)
    case ConnectOp(a, b, w) => Connect(g, a, b, w)
    case RemoveEdgeOp(a, b) => RemoveEdge(g, a, b)
    case RemoveNodeOp(key) => NodeRemoved(g, key)
  }

  /** A history of mutations, applied left to right. */
  function Run(g: Graph, ops: seq<Op>): (r: Graph)
    requires Valid(g)
    ensures Valid(r)
    ensures GetMC(r) >= GetMC(g)
    ensures GetMC(r) == GetMC(g) ==> r == g
    decreases |ops|
  {
    if ops == [] then g else Run(Apply(g, ops[0]), ops[1..])
  }

  /** Running two histories one after the other is running their concatenation. */
  lemma {:induction false} RunAppend(g: Graph, xs: seq<Op>, ys: seq<Op>)
    requires Valid(g)
    ensures Run(g, xs + ys) == Run(Run(g, xs), ys)
    decreases |xs|
  {
    if xs == [] {
      assert xs + ys == ys;
    } else {
      assert (xs + ys)[0] == xs[0];
      assert (xs + ys)[1..] == xs[1..] + ys;
      RunAppend(Apply(g, xs[0]), xs[1..], ys);
    }
  }

  /** Every graph reachable from the empty graph satisfies the class invariant. */
  lemma Reachable(ops: seq<Op>)
    ensures Valid(Run(Empty(), ops))
    ensures GetMC(Run(Empty(), ops)) == 0 ==> NodeSize(Run(Empty(), ops)) == 0 && EdgeSize(Run(Empty(), ops)) == 0
  {
  }

  /** Adding the same vertex twice is adding it once: same counts, same counter. */
  lemma AddNodeIdempotent(g: Graph, key: int)
    requires Valid(g)
    ensures AddNode(AddNode(g, key), key) == AddNode(g, key)
  {
  }

  /** Repeating a connect with the same weight changes nothing further. */
  lemma ConnectIdempotent(g: Graph, a: int, b: int, w: real)
    requires Valid(g)
    ensures Connect(Connect(g, a, b, w), a, b, w) == Connect(g, a, b, w)
  {
    var r := Connect(g, a, b, w);
    if Accepts(g, a, b, w) {
      assert HasEdge(r, a, b) && GetEdge(r, a, b) == w;
    }
  }

  /** Removing a freshly connected edge restores every edge query and both counts. */
  lemma ConnectThenRemoveEdge(g: Graph, a: int, b: int, w: real)
    requires Valid(g) && Accepts(g, a, b, w) && !HasEdge(g, a, b)
    ensures var r := RemoveEdge(Connect(g, a, b, w), a, b);
      && (forall x, y :: GetEdge(r, x, y) == GetEdge(g, x, y))
      && (forall k :: GetNode(r, k) == GetNode(g, k))
      && NodeSize(r) == NodeSize(g) && EdgeSize(r) == EdgeSize(g)
      && GetMC(r) == GetMC(g) + 2
  {
    var c := Connect(g, a, b, w);
    var r := RemoveEdge(c, a, b);
    forall x, y
      ensures GetEdge(r, x, y) == GetEdge(g, x, y)
    {
      if (x == a && y == b) || (x == b && y == a) {
        EdgeSymmetry(r, a, b);
        EdgeSymmetry(g, a, b);
      }
    }
  }

  /** Removing a freshly added vertex restores every vertex and edge query and both counts. */
  lemma AddNodeThenRemoveNode(g: Graph, key: int)
    requires Valid(g) && GetNode(g, key).None?
    ensures var r := NodeRemoved(AddNode(g, key), key);
      && (forall k :: GetNode(r, k) == GetNode(g, k))
      && (forall x, y :: GetEdge(r, x, y) == GetEdge(g, x, y))
      && NodeSize(r) == NodeSize(g) && EdgeSize(r) == EdgeSize(g)
      && GetMC(r) == GetMC(g) + 2
  {
    var a := AddNode(g, key);
    var r := NodeRemoved(a, key);
    forall b
      ensures b !in Neighbours(a.adj, key)
    {
      HasEdgeIsArc(a, key, b);
    }
    assert Neighbours(a.adj, key) == {};
    forall x, y
      ensures GetEdge(r, x, y) == GetEdge(g, x, y)
    {
      if x == key || y == key {
        HasEdgeIsArc(g, x, y);
      }
    }
  }

}
