/**
 Structural equality of two graphs as the source defines it: equal vertex
 counts, equal edge counts, and every edge of the first graph has the
 identical weight in the second. The check walks the first graph only and
 never compares vertex keys.
 */
module Equality {
  import opened Options
  import opened NodeInfo
  import opened Adjacency
  import opened WGraph
  import opened Mutations

  /** The equality test, one-directional as written. */
  function Equals(g1: Graph, g2: Graph): bool
    requires Valid(g1) && Valid(g2)
  {
    if g1.eSize == g2.eSize && g1.vSize == g2.vSize then
      forall n | n in g1.vertices ::
        forall m | m in Neighbours(g1.adj, n) :: GetEdge(g2, n, m) == GetEdge(g1, n, m)
    else
      false
  }

  /** The weighted edge set: every undirected edge, smaller key first, with its weight. */
  ghost function EdgeWeights(g: Graph): map<(int, int), real>
    requires Valid(g)
  {
    map p | p in EdgePairs(g.adj) :: GetEdge(g, p.0, p.1)
  }

  lemma SubsetSameSize(a: set<(int, int)>, b: set<(int, int)>)
    requires a <= b && |a| == |b|
    ensures a == b
  {
    assert b == a + (b - a);
    assert |b - a| == 0;
  }

  /** The edge sets of graphs that pass the test coincide. */
  lemma EqualsSameEdgePairs(g1: Graph, g2: Graph)
    requires Valid(g1) && Valid(g2) && Equals(g1, g2)
    ensures EdgePairs(g1.adj) == EdgePairs(g2.adj)
  {
    forall p | p in EdgePairs(g1.adj)
      ensures p in EdgePairs(g2.adj)
    {
      EdgePairsMember(g1.adj, p.0, p.1);
      assert p.1 in Neighbours(g1.adj, p.0);
      HasEdgeIsArc(g1, p.0, p.1);
      EdgePairsAreEdges(g2, p.0, p.1);
    }
    SubsetSameSize(EdgePairs(g1.adj), EdgePairs(g2.adj));
  }

  /**
   Although the test looks at the first graph's edges only, the equal edge
   counts make it exactly "same number of vertices and same weighted edges".
   */
  lemma EqualsIffSameEdges(g1: Graph, g2: Graph)
    requires Valid(g1) && Valid(g2)
    ensures Equals(g1, g2) <==> NodeSize(g1) == NodeSize(g2) && EdgeWeights(g1) == EdgeWeights(g2)
  {
    if Equals(g1, g2) {
      EqualsGivesSameEdges(g1, g2);
    }
    if NodeSize(g1) == NodeSize(g2) && EdgeWeights(g1) == EdgeWeights(g2) {
      SameEdgesGiveEquals(g1, g2);
    }
  }

  lemma EqualsGivesSameEdges(g1: Graph, g2: Graph)
    requires Valid(g1) && Valid(g2) && Equals(g1, g2)
    ensures NodeSize(g1) == NodeSize(g2) && EdgeWeights(g1) == EdgeWeights(g2)
  {
    EqualsSameEdgePairs(g1, g2);
    forall p | p in EdgePairs(g1.adj)
      ensures GetEdge(g1, p.0, p.1) == GetEdge(g2, p.0, p.1)
    {
      EdgePairsMember(g1.adj, p.0, p.1);
      assert p.1 in Neighbours(g1.adj, p.0);
    }
  }

  lemma SameEdgesGiveEquals(g1: Graph, g2: Graph)
    requires Valid(g1) && Valid(g2)
    requires NodeSize(g1) == NodeSize(g2) && EdgeWeights(g1) == EdgeWeights(g2)
    ensures Equals(g1, g2)
  {
    assert EdgePairs(g1.adj) == EdgeWeights(g1).Keys == EdgeWeights(g2).Keys == EdgePairs(g2.adj);
    forall n, m | n in g1.vertices && m in Neighbours(g1.adj, n)
      ensures GetEdge(g2, n, m) == GetEdge(g1, n, m)
    {
      SameEdgeAt(g1, g2, n, m);
    }
  }

  /** Under equal weighted edge sets, each stored arc of g1 has the same weight in g2. */
  lemma SameEdgeAt(g1: Graph, g2: Graph, n: int, m: int)
    requires Valid(g1) && Valid(g2) && EdgeWeights(g1) == EdgeWeights(g2)
    requires HasArc(g1.adj, n, m)
    ensures GetEdge(g2, n, m) == GetEdge(g1, n, m)
  {
    var p := Norm(n, m);
    EdgePairsMember(g1.adj, p.0, p.1);
    assert p in EdgeWeights(g1);
    assert EdgeWeights(g1)[p] == EdgeWeights(g2)[p];
    EdgeSymmetry(g1, n, m);
    EdgeSymmetry(g2, n, m);
  }

  /** Hence the test is symmetric. */
  lemma EqualsSymmetric(g1: Graph, g2: Graph)
    requires Valid(g1) && Valid(g2)
    ensures Equals(g1, g2) == Equals(g2, g1)
  {
    EqualsIffSameEdges(g1, g2);
    EqualsIffSameEdges(g2, g1);
  }

  /**
   The test does not look at vertex keys: a graph with the single vertex 1
   equals a graph with the single vertex 2.
   */
  lemma EqualsIgnoresVertexKeys()
    ensures var g1 := AddNode(Empty(), 1);
            var g2 := AddNode(Empty(), 2);
            Equals(g1, g2) && GetNode(g1, 1).Some? && GetNode(g2, 1).None?
  {
    var g1 := AddNode(Empty(), 1);
    var g2 := AddNode(Empty(), 2);
    forall n | n in g1.vertices
      ensures Neighbours(g1.adj, n) == {}
    {
      forall m
        ensures m !in Neighbours(g1.adj, n)
      {
        HasEdgeIsArc(g1, n, m);
      }
    }
  }

}
