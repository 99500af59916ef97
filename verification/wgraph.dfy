/**
 The state of the undirected weighted graph, its class invariant and its
 read-only queries. The state mirrors the source's fields one to one: the
 vertex store, the adjacency index and the three counters (vertex count,
 edge count and the modification counter). Queries never change the state.
 */
module WGraph {
  import opened Options
  import opened NodeInfo
  import opened Adjacency

  datatype Graph = Graph(vertices: map<int, Node>, adj: Adj, vSize: int, eSize: int, mc: nat)

  /** Every stored record carries the key it is stored under. */
  ghost predicate KeyedRecords(g: Graph)
  {
    forall k :: k in g.vertices ==> g.vertices[k].key == k
  }

  /** Both ends of every stored arc are present vertices. */
  ghost predicate LiveEndpoints(g: Graph)
  {
    forall x, y :: HasArc(g.adj, x, y) ==> x in g.vertices && y in g.vertices
  }

  /**
   The class invariant. The adjacency index may still hold an empty inner map
   for a removed vertex (removal never deletes it), so the invariant speaks
   about stored arcs rather than about the keys of the index.
   */
  ghost predicate Valid(g: Graph)
  {
    && KeyedRecords(g)
    && NoSelfLoops(g.adj)
    && Symmetric(g.adj)
    && LiveEndpoints(g)
    && NonNegativeWeights(g.adj)
    && g.vSize == |g.vertices|
    && g.eSize == |EdgePairs(g.adj)|
  }

  /** The freshly constructed graph: no vertices, no edges, counters at zero. */
  function Empty(): (g: Graph)
    ensures Valid(g)
    ensures g.vertices == map[] && forall x, y :: !HasArc(g.adj, x, y)
    ensures g.vSize == 0 && g.eSize == 0 && g.mc == 0
  {
    var g := Graph(map[], map[], 0, 0, 0);
    assert EdgePairs(g.adj) == {};
    g
  }

  /** The vertex stored under key, or None. */
  function GetNode(g: Graph, key: int): Option<Node>
  {
    if key in g.vertices then Some(g.vertices[key]) else None
  }

  /** In a valid graph, a lookup finds the record of exactly the key asked for. */
  lemma GetNodeByKey(g: Graph, key: int)
    requires Valid(g)
    ensures GetNode(g, key).Some? <==> key in g.vertices
    ensures GetNode(g, key).Some? ==> GetNode(g, key).value.key == key
  {
  }

  /**
   Whether {a, b} is an edge. The guards follow the source: equal keys, two
   absent vertices (two identical lookups) and one absent vertex all say no;
   otherwise the arc b→a is consulted.
   */
  function HasEdge(g: Graph, a: int, b: int): (r: bool)
    ensures a == b || GetNode(g, a).None? || GetNode(g, b).None? ==> !r
  {
    if a == b then false
    else if GetNode(g, a) == GetNode(g, b) then false
    else if GetNode(g, a).None? || GetNode(g, b).None? then false
    else if a in g.adj || b in g.adj then
      a in g.adj && b in g.adj && a in g.adj[b]
    else false
  }

  /** In a valid graph, HasEdge is exactly "the arc a→b is stored". */
  lemma HasEdgeIsArc(g: Graph, a: int, b: int)
    requires Valid(g)
    ensures HasEdge(g, a, b) <==> HasArc(g.adj, a, b)
  {
  }

  /** The weight of edge {a, b}, or the sentinel -1 when there is no such edge. */
  function GetEdge(g: Graph, a: int, b: int): (r: real)
    requires Valid(g)
    ensures r == -1.0 <==> !HasEdge(g, a, b)
    ensures HasEdge(g, a, b) ==> HasArc(g.adj, a, b) && r == g.adj[a][b] && r >= 0.0
  {
    if GetNode(g, a) == GetNode(g, b) || a == b then -1.0
    else if !HasEdge(g, a, b) then -1.0
    else g.adj[a][b]
  }

  /** Edges are undirected: both queries are symmetric in their arguments. */
  lemma EdgeSymmetry(g: Graph, a: int, b: int)
    requires Valid(g)
    ensures HasEdge(g, a, b) == HasEdge(g, b, a)
    ensures GetEdge(g, a, b) == GetEdge(g, b, a)
  {
  }

  /** No vertex is ever adjacent to itself. */
  lemma NoSelfEdge(g: Graph, a: int)
    requires Valid(g)
    ensures !HasEdge(g, a, a) && GetEdge(g, a, a) == -1.0
  {
  }

  /** The number of vertices. */
  function NodeSize(g: Graph): (r: int)
    requires Valid(g)
    ensures r == |g.vertices|
  {
    g.vSize
  }

  /** The number of undirected edges, each counted once. */
  function EdgeSize(g: Graph): (r: int)
    requires Valid(g)
    ensures r == |EdgePairs(g.adj)|
  {
    g.eSize
  }

  /** The modification counter. */
  function GetMC(g: Graph): nat
  {
    g.mc
  }

  /** The pairs EdgeSize counts are exactly the edges, smaller key first. */
  lemma EdgePairsAreEdges(g: Graph, x: int, y: int)
    requires Valid(g)
    ensures (x, y) in EdgePairs(g.adj) <==> x < y && HasEdge(g, x, y)
  {
    EdgePairsMember(g.adj, x, y);
  }

  /** The number of edges at key. */
  function Degree(g: Graph, key: int): nat
  {
    |Neighbours(g.adj, key)|
  }

  /** The keys of a sequence of vertex records. */
  function KeysOf(ns: seq<Node>): set<int>
  {
    set n | n in ns :: n.key
  }

  lemma KeysOfAppend(ns: seq<Node>, n: Node)
    ensures KeysOf(ns + [n]) == KeysOf(ns) + {n.key}
  {
    forall k | k in KeysOf(ns + [n])
      ensures k in KeysOf(ns) + {n.key}
    {
      var m :| m in ns + [n] && m.key == k;
      if m != n {
        assert m in ns;
      }
    }
  }

  /**
   The neighbours of key as vertex records, in no particular order (the
   source walks the key set of a hash map); empty when key has no edges or
   is not a vertex.
   */
  method GetV(g: Graph, key: int) returns (ns: seq<Node>)
    requires Valid(g)
    ensures KeysOf(ns) == Neighbours(g.adj, key)
    ensures |ns| == Degree(g, key)
    ensures forall b :: b in KeysOf(ns) <==> HasEdge(g, key, b)
    ensures forall i :: 0 <= i < |ns| ==> GetNode(g, ns[i].key) == Some(ns[i])
    ensures forall i, j :: 0 <= i < j < |ns| ==> ns[i].key != ns[j].key
  {
    NeighboursAreEdges(g, key);
    ns := RecordsOf(g.vertices, Neighbours(g.adj, key));
  }

  /** Looks up the record of every key in keys, one record per key, in any order. */
  method RecordsOf(vertices: map<int, Node>, keys: set<int>) returns (ns: seq<Node>)
    requires forall k :: k in keys ==> k in vertices && vertices[k].key == k
    ensures KeysOf(ns) == keys
    ensures |ns| == |keys|
    ensures forall i :: 0 <= i < |ns| ==> ns[i].key in vertices && vertices[ns[i].key] == ns[i]
    ensures forall i, j :: 0 <= i < j < |ns| ==> ns[i].key != ns[j].key
  {
    var rest := keys;
    ns := [];
    while rest != {}
      invariant rest <= keys
      invariant KeysOf(ns) == keys - rest
      invariant |ns| == |keys| - |rest|
      invariant forall i :: 0 <= i < |ns| ==> ns[i].key in vertices && vertices[ns[i].key] == ns[i]
      invariant forall i, j :: 0 <= i < j < |ns| ==> ns[i].key != ns[j].key
      decreases rest
    {
      HasMember(rest);
      var n :| n in rest;
      var rec := vertices[n];
      ExtendRecords(vertices, ns, rec, keys - rest);
      ns := ns + [rec];
      rest := rest - {n};
    }
  }

  /** Appending the record of a key not yet listed keeps the listing duplicate-free. */
  lemma ExtendRecords(vertices: map<int, Node>, ns: seq<Node>, rec: Node, done: set<int>)
    requires KeysOf(ns) == done && rec.key !in done
    requires rec.key in vertices && vertices[rec.key] == rec
    requires forall i :: 0 <= i < |ns| ==> ns[i].key in vertices && vertices[ns[i].key] == ns[i]
    requires forall i, j :: 0 <= i < j < |ns| ==> ns[i].key != ns[j].key
    ensures KeysOf(ns + [rec]) == done + {rec.key}
    ensures forall i :: 0 <= i < |ns + [rec]| ==> (ns + [rec])[i].key in vertices && vertices[(ns + [rec])[i].key] == (ns + [rec])[i]
    ensures forall i, j :: 0 <= i < j < |ns + [rec]| ==> (ns + [rec])[i].key != (ns + [rec])[j].key
  {
    KeysOfAppend(ns, rec);
    forall i | 0 <= i < |ns|
      ensures ns[i].key != rec.key
    {
      assert ns[i] in ns;
    }
  }

  /** The recorded neighbours of key are exactly the vertices sharing an edge with it. */
  lemma NeighboursAreEdges(g: Graph, key: int)
    requires Valid(g)
    ensures forall b :: b in Neighbours(g.adj, key) <==> HasEdge(g, key, b)
    ensures forall b :: b in Neighbours(g.adj, key) ==> b in g.vertices
  {
    forall b
      ensures b in Neighbours(g.adj, key) <==> HasEdge(g, key, b)
    {
      HasEdgeIsArc(g, key, b);
    }
  }

}
