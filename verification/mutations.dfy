/**
 The operations that change the graph. Each takes a valid graph and returns
 the graph after the call; a call the source silently ignores (bad weight,
 unknown vertex, self-loop, repeated insertion, missing edge) returns its
 argument unchanged. Every effective change bumps the modification counter.
 */
module Mutations {
  import opened Options
  import opened NodeInfo
  import opened Adjacency
  import opened WGraph

  /**
   Adds a vertex with the given key, empty info and tag zero; a key already
   present leaves the graph as it is.
   */
  function AddNode(g: Graph, key: int): (r: Graph)
    requires Valid(g)
    ensures Valid(r)
    ensures GetNode(g, key).Some? ==> r == g
    ensures GetNode(g, key).None? ==>
              && GetNode(r, key) == Some(Node(key, "", 0.0))
              && NodeSize(r) == NodeSize(g) + 1
              && EdgeSize(r) == EdgeSize(g)
              && GetMC(r) == GetMC(g) + 1
    ensures forall k :: k != key ==> GetNode(r, k) == GetNode(g, k)
    ensures forall a, b :: HasEdge(r, a, b) == HasEdge(g, a, b)
    ensures forall a, b :: GetEdge(r, a, b) == GetEdge(g, a, b)
  {
    if GetNode(g, key).None? then
      g.(vertices := g.vertices[key := NewNode(key)], vSize := g.vSize + 1, mc := g.mc + 1)
    else
      g
  }

  /** The arguments connect accepts: a non-negative weight between two distinct present vertices. */
  predicate Accepts(g: Graph, a: int, b: int, w: real)
  {
    w >= 0.0 && GetNode(g, a).Some? && GetNode(g, b).Some? && a != b
  }

  /** Linking two distinct present vertices with a non-negative weight keeps the graph well formed. */
  lemma LinkValid(g: Graph, a: int, b: int, w: real, r: Graph)
    requires Valid(g) && Accepts(g, a, b, w)
    requires r.vertices == g.vertices && r.vSize == g.vSize && r.adj == Link(g.adj, a, b, w)
    requires r.eSize == if HasArc(g.adj, a, b) then g.eSize else g.eSize + 1
    ensures Valid(r)
    ensures forall x, y :: HasArc(r.adj, x, y) <==> HasArc(g.adj, x, y) || (x == a && y == b) || (x == b && y == a)
    ensures r.adj[a][b] == w && r.adj[b][a] == w
    ensures forall x, y :: HasArc(g.adj, x, y) && !(x == a && y == b) && !(x == b && y == a) ==> r.adj[x][y] == g.adj[x][y]
  {
    assert NoSelfLoops(r.adj);
    assert Symmetric(r.adj);
    assert LiveEndpoints(r);
    assert NonNegativeWeights(r.adj);
    LinkPairs(g.adj, r.adj, a, b);
    EdgePairsMember(g.adj, Norm(a, b).0, Norm(a, b).1);
  }

  /**
   Connects a and b with weight w. Rejected (no change) for a negative
   weight, an absent endpoint or a self-loop. A new edge is stored in both
   directions and counted; an existing edge with a different weight is
   overwritten in both directions; the same weight again is a no-op.
   */
  function Connect(g: Graph, a: int, b: int, w: real): (r: Graph)
    requires Valid(g)
    ensures Valid(r)
    ensures !Accepts(g, a, b, w) ==> r == g
    ensures Accepts(g, a, b, w) && !HasEdge(g, a, b) ==>
              && HasEdge(r, a, b)
              && GetEdge(r, a, b) == w && GetEdge(r, b, a) == w
              && EdgeSize(r) == EdgeSize(g) + 1
              && GetMC(r) == GetMC(g) + 1
    ensures Accepts(g, a, b, w) && HasEdge(g, a, b) && GetEdge(g, a, b) != w ==>
              && GetEdge(r, a, b) == w && GetEdge(r, b, a) == w
              && EdgeSize(r) == EdgeSize(g)
              && GetMC(r) == GetMC(g) + 1
    ensures HasEdge(g, a, b) && GetEdge(g, a, b) == w ==> r == g
    ensures forall k :: GetNode(r, k) == GetNode(g, k)
    ensures NodeSize(r) == NodeSize(g)
    ensures forall x, y :: !(x == a && y == b) && !(x == b && y == a) ==> GetEdge(r, x, y) == GetEdge(g, x, y)
  {
    if w < 0.0 then g
    else if GetNode(g, a).None? || GetNode(g, b).None? then g
    else if GetNode(g, a) == GetNode(g, b) then g
    else if !HasEdge(g, a, b) then
      var r := g.(adj := Link(g.adj, a, b, w), eSize := g.eSize + 1, mc := g.mc + 1);
      HasEdgeIsArc(g, a, b);
      LinkValid(g, a, b, w, r);
      r
    else if w != GetEdge(g, a, b) then
      var r := g.(adj := Link(g.adj, a, b, w), mc := g.mc + 1);
      HasEdgeIsArc(g, a, b);
      LinkValid(g, a, b, w, r);
      r
    else
      g
  }

  /**
   Deletes the edge {a, b}. Equal keys and a missing edge leave the graph as
   it is; otherwise both arcs go, the edge count drops and the counter rises.
   */
  function RemoveEdge(g: Graph, a: int, b: int): (r: Graph)
    requires Valid(g)
    ensures Valid(r)
    ensures !HasEdge(g, a, b) ==> r == g
    ensures HasEdge(g, a, b) ==>
              && !HasEdge(r, a, b) && !HasEdge(r, b, a)
              && EdgeSize(r) == EdgeSize(g) - 1
              && GetMC(r) == GetMC(g) + 1
    ensures forall k :: GetNode(r, k) == GetNode(g, k)
    ensures NodeSize(r) == NodeSize(g)
    ensures forall x, y :: !(x == a && y == b) && !(x == b && y == a) ==> GetEdge(r, x, y) == GetEdge(g, x, y)
  {
    if a == b then g
    else if !HasEdge(g, a, b) then g
    else
      HasEdgeIsArc(g, a, b);
      var r := g.(adj := Unlink(g.adj, a, b), eSize := g.eSize - 1, mc := g.mc + 1);
      UnlinkValid(g, a, b, r);
      r
  }

  /** Unlinking a stored edge keeps the graph well formed. */
  lemma UnlinkValid(g: Graph, a: int, b: int, r: Graph)
    requires Valid(g) && HasArc(g.adj, a, b)
    requires r.vertices == g.vertices && r.vSize == g.vSize
    requires r.adj == Unlink(g.adj, a, b) && r.eSize == g.eSize - 1
    ensures Valid(r)
    ensures forall x, y :: HasArc(r.adj, x, y) <==> HasArc(g.adj, x, y) && !(x == a && y == b) && !(x == b && y == a)
    ensures forall x, y :: HasArc(r.adj, x, y) ==> r.adj[x][y] == g.adj[x][y]
  {
    assert NoSelfLoops(r.adj);
    assert Symmetric(r.adj);
    assert LiveEndpoints(r);
    assert NonNegativeWeights(r.adj);
    UnlinkPairs(g.adj, r.adj, a, b);
    EdgePairsMember(g.adj, Norm(a, b).0, Norm(a, b).1);
  }

  /**
   The graph after removing vertex key: every edge at key is gone, then the
   vertex itself. Each edge removal bumps the counter, and so does the
   vertex removal. An unknown key leaves the graph as it is.
   */
  function NodeRemoved(g: Graph, key: int): (r: Graph)
    requires Valid(g)
    ensures Valid(r)
    ensures GetNode(g, key).None? ==> r == g
    ensures GetNode(g, key).Some? ==>
              && GetNode(r, key).None?
              && NodeSize(r) == NodeSize(g) - 1
              && EdgeSize(r) == EdgeSize(g) - Degree(g, key)
              && GetMC(r) == GetMC(g) + Degree(g, key) + 1
    ensures forall b :: !HasEdge(r, key, b) && !HasEdge(r, b, key)
    ensures forall k :: k != key ==> GetNode(r, k) == GetNode(g, k)
    ensures forall x, y :: x != key && y != key ==> GetEdge(r, x, y) == GetEdge(g, x, y)
  {
    if GetNode(g, key).None? then g
    else
      var d := Degree(g, key);
      var r := Graph(g.vertices - {key}, Detach(g.adj, key), g.vSize - 1, g.eSize - d, g.mc + d + 1);
      DetachValid(g, key, r);
      r
  }

  /** Detaching a present vertex and dropping its record keeps the graph well formed. */
  lemma DetachValid(g: Graph, key: int, r: Graph)
    requires Valid(g) && key in g.vertices
    requires r.vertices == g.vertices - {key} && r.vSize == g.vSize - 1
    requires r.adj == Detach(g.adj, key) && r.eSize == g.eSize - Degree(g, key)
    ensures Valid(r)
  {
    DetachShape(g, key, r);
    DetachCount(g, key, r.adj);
  }

  lemma DetachShape(g: Graph, key: int, r: Graph)
    requires Valid(g)
    requires r.vertices == g.vertices - {key}
    requires r.adj == Detach(g.adj, key)
    ensures KeyedRecords(r) && NoSelfLoops(r.adj) && Symmetric(r.adj)
    ensures LiveEndpoints(r) && NonNegativeWeights(r.adj)
  {
  }

  /** Detaching key removes exactly Degree(g, key) edges. */
  lemma DetachCount(g: Graph, key: int, r: Adj)
    requires Valid(g)
    requires r == Detach(g.adj, key)
    ensures |EdgePairs(r)| == |EdgePairs(g.adj)| - Degree(g, key)
  {
    DetachPairs(g.adj, r, key);
    IncidentSize(g.adj, key);
    var e := EdgePairs(g.adj);
    var i := Incident(g.adj, key);
    assert (e - i) + i == e;
  }

  /** After the first edges at k are gone, the index lacks exactly their arcs. */
  ghost predicate DetachedFrom(adj: Adj, r: Adj, k: int, done: set<int>)
  {
    && r.Keys == adj.Keys
    && (forall x, y :: HasArc(r, x, y) <==> HasArc(adj, x, y) && !(x == k && y in done) && !(y == k && x in done))
    && (forall x, y :: HasArc(r, x, y) ==> r[x][y] == adj[x][y])
  }

  /**
   Removes vertex key the way the source does: strip the edges at key, then
   drop the record and return it; an unknown key returns None and changes
   nothing.
   */
  method RemoveNode(g: Graph, key: int) returns (r: Graph, removed: Option<Node>)
    requires Valid(g)
    ensures r == NodeRemoved(g, key)
    ensures removed == GetNode(g, key)
  {
    if GetNode(g, key).None? {
      return g, None;
    }
    r := RemoveIncident(g, key);
    removed := GetNode(r, key);
    r := r.(vertices := r.vertices - {key}, vSize := r.vSize - 1, mc := r.mc + 1);
  }

  /**
   The edge-stripping loop of vertex removal: walk the neighbours of key and
   remove each edge (neighbour, key) in turn, one counter bump per edge.
   */
  method RemoveIncident(g: Graph, key: int) returns (r: Graph)
    requires Valid(g) && key in g.vertices
    ensures Valid(r)
    ensures r.vertices == g.vertices && r.vSize == g.vSize
    ensures r.adj == Detach(g.adj, key)
    ensures r.eSize == g.eSize - Degree(g, key) && r.mc == g.mc + Degree(g, key)
  {
    var ns := GetV(g, key);
    r := g;
    var i := 0;
    while i < |ns|
      invariant 0 <= i <= |ns|
      invariant Valid(r)
      invariant r.vertices == g.vertices
      invariant r.eSize == g.eSize - i && r.mc == g.mc + i
      invariant DetachedFrom(g.adj, r.adj, key, KeysOf(ns[..i]))
    {
      RemoveIncidentStep(g, key, ns, i, r);
      r := RemoveEdge(r, ns[i].key, key);
      i := i + 1;
    }
    assert ns[..|ns|] == ns;
    DetachedAll(g, key, r.adj);
  }

  /** One turn of the removal loop removes exactly one more edge at key. */
  lemma RemoveIncidentStep(g: Graph, key: int, ns: seq<Node>, i: nat, r: Graph)
    requires Valid(g) && Valid(r) && key in g.vertices
    requires KeysOf(ns) == Neighbours(g.adj, key)
    requires forall i, j :: 0 <= i < j < |ns| ==> ns[i].key != ns[j].key
    requires i < |ns|
    requires r.vertices == g.vertices
    requires DetachedFrom(g.adj, r.adj, key, KeysOf(ns[..i]))
    ensures HasEdge(r, ns[i].key, key)
    ensures DetachedFrom(g.adj, RemoveEdge(r, ns[i].key, key).adj, key, KeysOf(ns[..i + 1]))
  {
    var n := ns[i].key;
    NextNeighbour(g, key, ns, i);
    assert HasArc(r.adj, n, key);
    RemoveEdgeUnlinks(r, n, key);
    UnlinkDetached(g.adj, r.adj, key, KeysOf(ns[..i]), n);
  }

  /** The next neighbour in the listing is a neighbour not yet handled; listing it extends the handled set. */
  lemma NextNeighbour(g: Graph, key: int, ns: seq<Node>, i: nat)
    requires Valid(g)
    requires KeysOf(ns) == Neighbours(g.adj, key)
    requires forall i, j :: 0 <= i < j < |ns| ==> ns[i].key != ns[j].key
    requires i < |ns|
    ensures ns[i].key !in KeysOf(ns[..i])
    ensures HasArc(g.adj, ns[i].key, key)
    ensures KeysOf(ns[..i + 1]) == KeysOf(ns[..i]) + {ns[i].key}
  {
    PrefixExcludes(ns, i);
    assert ns[i].key in Neighbours(g.adj, key) by {
      assert ns[i] in ns;
    }
    assert ns[..i + 1] == ns[..i] + [ns[i]];
    KeysOfAppend(ns[..i], ns[i]);
  }

  /** On a stored edge, RemoveEdge deletes exactly its two arcs. */
  lemma RemoveEdgeUnlinks(g: Graph, a: int, b: int)
    requires Valid(g) && HasArc(g.adj, a, b)
    ensures HasEdge(g, a, b)
    ensures RemoveEdge(g, a, b).adj == Unlink(g.adj, a, b)
  {
    HasEdgeIsArc(g, a, b);
  }

  /** Unlinking one more neighbour n of k extends the set of detached neighbours by n. */
  lemma UnlinkDetached(adj: Adj, r: Adj, k: int, done: set<int>, n: int)
    requires DetachedFrom(adj, r, k, done)
    requires n in r && k in r
    ensures DetachedFrom(adj, Unlink(r, n, k), k, done + {n})
  {
  }

  /** In a duplicate-free listing, the key at position i is not among the keys before it. */
  lemma PrefixExcludes(ns: seq<Node>, i: nat)
    requires forall i, j :: 0 <= i < j < |ns| ==> ns[i].key != ns[j].key
    requires i < |ns|
    ensures ns[i].key !in KeysOf(ns[..i])
  {
  }

  /** Once every neighbour of key is done, the index is the detached index. */
  lemma DetachedAll(g: Graph, key: int, r: Adj)
    requires Valid(g)
    requires DetachedFrom(g.adj, r, key, Neighbours(g.adj, key))
    ensures r == Detach(g.adj, key)
  {
    SameArcsSameIndex(r, Detach(g.adj, key));
  }

}
