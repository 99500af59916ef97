/**
 The adjacency index: for every vertex key that has ever carried an edge, a
 map from neighbour key to edge weight. An undirected edge {x, y} is stored
 as the two arcs x→y and y→x. This module defines the shape invariants of
 the index, the two primitive updates the graph performs on it, and how the
 set of undirected edges (each counted once) changes under them.
 */
module Adjacency {

  type Adj = map<int, map<int, real>>

  /** The arc x→y is stored. */
  predicate HasArc(adj: Adj, x: int, y: int)
  {
    x in adj && y in adj[x]
  }

  /** The keys recorded as neighbours of x (empty when x has no entry). */
  function Neighbours(adj: Adj, x: int): set<int>
  {
    if x in adj then adj[x].Keys else {}
  }

  ghost predicate NoSelfLoops(adj: Adj)
  {
    forall x, y :: HasArc(adj, x, y) ==> x != y
  }

  /** Every arc has its reverse arc, with the same weight. */
  ghost predicate Symmetric(adj: Adj)
  {
    forall x, y :: HasArc(adj, x, y) ==> HasArc(adj, y, x) && adj[y][x] == adj[x][y]
  }

  ghost predicate NonNegativeWeights(adj: Adj)
  {
    forall x, y :: HasArc(adj, x, y) ==> adj[x][y] >= 0.0
  }

  /** The undirected edge {x, y} as an ordered pair, smaller key first. */
  function Norm(x: int, y: int): (int, int)
  {
    if x < y then (x, y) else (y, x)
  }

  /** The undirected edges, each named once by its ordered pair. */
  ghost function EdgePairs(adj: Adj): set<(int, int)>
  {
    set x, y | x in adj && y in adj[x] && x < y :: (x, y)
  }

  /** The undirected edges that touch vertex k. */
  ghost function Incident(adj: Adj, k: int): set<(int, int)>
  {
    set p | p in EdgePairs(adj) && (p.0 == k || p.1 == k)
  }

  lemma EdgePairsMember(adj: Adj, x: int, y: int)
    ensures (x, y) in EdgePairs(adj) <==> HasArc(adj, x, y) && x < y
  {
    if HasArc(adj, x, y) && x < y {
      assert (x, y) == (x, y);
    }
  }

  /**
   Writes the single arc x→y with weight w, creating the inner map of x when
   x has none yet; nothing else in the index changes.
   */
  function ConnectDirection(adj: Adj, x: int, y: int, w: real): (r: Adj)
    ensures r.Keys == adj.Keys + {x}
    ensures HasArc(r, x, y) && r[x][y] == w
    ensures forall a, b :: HasArc(r, a, b) <==> HasArc(adj, a, b) || (a == x && b == y)
    ensures forall a, b :: HasArc(adj, a, b) && !(a == x && b == y) ==> HasArc(r, a, b) && r[a][b] == adj[a][b]
  {
    if x !in adj then adj[x := map[y := w]] else adj[x := adj[x][y := w]]
  }

  /**
   Deletes the single arc x→y from the inner map of x (which must exist);
   every key keeps its entry, possibly now empty.
   */
  function RemoveArc(adj: Adj, x: int, y: int): (r: Adj)
    requires x in adj
    ensures r.Keys == adj.Keys
    ensures forall a, b :: HasArc(r, a, b) <==> HasArc(adj, a, b) && !(a == x && b == y)
    ensures forall a, b :: HasArc(r, a, b) ==> HasArc(adj, a, b) && r[a][b] == adj[a][b]
  {
    adj[x := adj[x] - {y}]
  }

  /** Writes both arcs of the undirected edge {x, y} with weight w. */
  function Link(adj: Adj, x: int, y: int, w: real): (r: Adj)
    requires x != y
    ensures forall a, b :: HasArc(r, a, b) <==> HasArc(adj, a, b) || (a == x && b == y) || (a == y && b == x)
    ensures HasArc(r, x, y) && HasArc(r, y, x) && r[x][y] == w && r[y][x] == w
    ensures forall a, b :: HasArc(adj, a, b) && !(a == x && b == y) && !(a == y && b == x) ==> HasArc(r, a, b) && r[a][b] == adj[a][b]
  {
    ConnectDirection(ConnectDirection(adj, x, y, w), y, x, w)
  }

  /** Deletes both arcs of the undirected edge {x, y}; both inner maps must exist. */
  function Unlink(adj: Adj, x: int, y: int): (r: Adj)
    requires x in adj && y in adj
    ensures r.Keys == adj.Keys
    ensures forall a, b :: HasArc(r, a, b) <==> HasArc(adj, a, b) && !(a == x && b == y) && !(a == y && b == x)
    ensures forall a, b :: HasArc(r, a, b) ==> HasArc(adj, a, b) && r[a][b] == adj[a][b]
  {
    RemoveArc(RemoveArc(adj, x, y), y, x)
  }

  /**
   Drops every arc at k. The inner map of k, when there is one, stays as an
   empty map, just as the source leaves it behind.
   */
  function Detach(adj: Adj, k: int): (r: Adj)
    ensures r.Keys == adj.Keys
    ensures forall a, b :: HasArc(r, a, b) <==> HasArc(adj, a, b) && a != k && b != k
    ensures forall a, b :: HasArc(r, a, b) ==> HasArc(adj, a, b) && r[a][b] == adj[a][b]
  {
    map x | x in adj :: if x == k then map[] else adj[x] - {k}
  }

  /** Two indexes with the same keys, the same arcs and the same weights are equal. */
  lemma SameArcsSameIndex(m1: Adj, m2: Adj)
    requires m1.Keys == m2.Keys
    requires forall a, b :: HasArc(m1, a, b) <==> HasArc(m2, a, b)
    requires forall a, b :: HasArc(m1, a, b) ==> HasArc(m2, a, b) && m1[a][b] == m2[a][b]
    ensures m1 == m2
  {
    forall x | x in m1
      ensures m1[x] == m2[x]
    {
      assert m1[x].Keys == m2[x].Keys by {
        forall y ensures y in m1[x] <==> y in m2[x] {
          assert HasArc(m1, x, y) <==> HasArc(m2, x, y);
        }
      }
      forall y | y in m1[x]
        ensures m1[x][y] == m2[x][y]
      {
        assert HasArc(m1, x, y);
      }
    }
  }

  /** Adding the two arcs of {x, y} adds exactly that edge to the edge set. */
  lemma LinkPairs(adj: Adj, r: Adj, x: int, y: int)
    requires x != y
    requires forall a, b :: HasArc(r, a, b) <==> HasArc(adj, a, b) || (a == x && b == y) || (a == y && b == x)
    ensures EdgePairs(r) == EdgePairs(adj) + {Norm(x, y)}
  {
    forall p | p in EdgePairs(r)
      ensures p in EdgePairs(adj) + {Norm(x, y)}
    {
      EdgePairsMember(r, p.0, p.1);
      EdgePairsMember(adj, p.0, p.1);
    }
    forall p | p in EdgePairs(adj) + {Norm(x, y)}
      ensures p in EdgePairs(r)
    {
      EdgePairsMember(r, p.0, p.1);
      EdgePairsMember(adj, p.0, p.1);
    }
  }

  /** Removing the two arcs of {x, y} removes exactly that edge from the edge set. */
  lemma UnlinkPairs(adj: Adj, r: Adj, x: int, y: int)
    requires forall a, b :: HasArc(r, a, b) <==> HasArc(adj, a, b) && !(a == x && b == y) && !(a == y && b == x)
    ensures EdgePairs(r) == EdgePairs(adj) - {Norm(x, y)}
  {
    forall p | p in EdgePairs(r)
      ensures p in EdgePairs(adj) - {Norm(x, y)}
    {
      EdgePairsMember(r, p.0, p.1);
      EdgePairsMember(adj, p.0, p.1);
    }
    forall p | p in EdgePairs(adj) - {Norm(x, y)}
      ensures p in EdgePairs(r)
    {
      EdgePairsMember(r, p.0, p.1);
      EdgePairsMember(adj, p.0, p.1);
    }
  }

  /** Dropping every arc at k removes exactly the edges incident to k. */
  lemma DetachPairs(adj: Adj, r: Adj, k: int)
    requires forall a, b :: HasArc(r, a, b) <==> HasArc(adj, a, b) && a != k && b != k
    ensures EdgePairs(r) == EdgePairs(adj) - Incident(adj, k)
  {
    forall p | p in EdgePairs(r)
      ensures p in EdgePairs(adj) - Incident(adj, k)
    {
      EdgePairsMember(r, p.0, p.1);
      EdgePairsMember(adj, p.0, p.1);
    }
    forall p | p in EdgePairs(adj) - Incident(adj, k)
      ensures p in EdgePairs(r)
    {
      EdgePairsMember(r, p.0, p.1);
      EdgePairsMember(adj, p.0, p.1);
    }
  }

  /** A non-empty set has a member to pick. */
  lemma HasMember(s: set<int>)
    requires s != {}
    ensures exists x :: x in s
  {
    if forall x :: x !in s {
      assert false;
    }
  }

  /** Distinct neighbours of k name distinct undirected edges. */
  lemma {:induction false} NormImageSize(k: int, s: set<int>)
    ensures |set n | n in s :: Norm(k, n)| == |s|
    decreases |s|
  {
    var image := set m | m in s :: Norm(k, m);
    if s == {} {
      assert image == {};
    } else {
      HasMember(s);
      var x :| x in s;
      var rest := s - {x};
      NormImageSize(k, rest);
      var restImage := set m | m in rest :: Norm(k, m);
      assert image == restImage + {Norm(k, x)};
      assert Norm(k, x) !in restImage;
    }
  }

  /** In a well-formed index, the number of edges at k is the number of neighbours of k. */
  lemma IncidentSize(adj: Adj, k: int)
    requires NoSelfLoops(adj) && Symmetric(adj)
    ensures |Incident(adj, k)| == |Neighbours(adj, k)|
  {
    var image := set n | n in Neighbours(adj, k) :: Norm(k, n);
    forall p | p in Incident(adj, k)
      ensures p in image
    {
      EdgePairsMember(adj, p.0, p.1);
      if p.0 == k {
        assert Norm(k, p.1) == p;
      } else {
        assert HasArc(adj, p.1, p.0);
        assert Norm(k, p.0) == p;
      }
    }
    forall p | p in image
      ensures p in Incident(adj, k)
    {
      var n :| n in Neighbours(adj, k) && p == Norm(k, n);
      assert HasArc(adj, k, n) && HasArc(adj, n, k);
      EdgePairsMember(adj, p.0, p.1);
    }
    assert Incident(adj, k) == image;
    NormImageSize(k, Neighbours(adj, k));
  }

}
