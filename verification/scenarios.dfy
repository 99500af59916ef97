/** Two concrete call sequences on a small graph and what the queries answer after them. */
module Scenarios {
  import opened Options
  import opened NodeInfo
  import opened Adjacency
  import opened WGraph
  import opened Mutations

  /**
   Add vertices 1 and 2, connect them with weight 5.0, reconnect with 7.5,
   then remove vertex 1.
   */
  lemma ConnectUpdateRemove()
    ensures var g2 := AddNode(AddNode(Empty(), 1), 2);
            var g3 := Connect(g2, 1, 2, 5.0);
            var g4 := Connect(g3, 1, 2, 7.5);
            var g5 := NodeRemoved(g4, 1);
            && EdgeSize(g3) == 1 && GetEdge(g3, 1, 2) == 5.0 && GetEdge(g3, 2, 1) == 5.0
            && EdgeSize(g4) == 1 && GetEdge(g4, 1, 2) == 7.5
            && EdgeSize(g5) == 0 && NodeSize(g5) == 1 && !HasEdge(g5, 1, 2)
  {
    var g0 := Empty();
    var g1 := AddNode(g0, 1);
    var g2 := AddNode(g1, 2);
    var g3 := Connect(g2, 1, 2, 5.0);
    var g4 := Connect(g3, 1, 2, 7.5);
    var g5 := NodeRemoved(g4, 1);
    assert !HasEdge(g2, 1, 2);
    forall x, y
      ensures !HasEdge(g5, x, y)
    {
      if x != 1 && y != 1 {
        assert GetEdge(g5, x, y) == GetEdge(g4, x, y) == GetEdge(g3, x, y) == GetEdge(g2, x, y);
      }
    }
    forall p | p in EdgePairs(g5.adj)
      ensures false
    {
      EdgePairsAreEdges(g5, p.0, p.1);
    }
    assert EdgePairs(g5.adj) == {};
  }

  /** A negative weight between two present vertices is silently rejected. */
  lemma NegativeWeightRejected()
    ensures var g2 := AddNode(AddNode(Empty(), 1), 2);
            var g3 := Connect(g2, 1, 2, -3.0);
            !HasEdge(g3, 1, 2) && EdgeSize(g3) == 0 && GetMC(g3) == GetMC(g2)
  {
  }

}
