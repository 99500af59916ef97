# WGraph_DS — a verified model of an undirected weighted graph

This project models `WGraph_DS`, a mutable, undirected, weighted graph. The graph
keeps four pieces of state:

- a vertex store mapping each key to a node record (key, info text, numeric tag);
- an adjacency index mapping each key to a map from neighbour key to edge weight;
- a vertex count and an edge count;
- a modification counter `mc`.

Each undirected edge is stored as two directed entries, called arcs here. Bad
input never raises an error: a negative weight, an unknown vertex, a self-loop,
a repeated insertion or a missing edge makes the call do nothing.

The model is functional. A `Graph` value holds exactly the source's fields.
Each mutation is a function from a valid graph to the graph after the call.
`Valid` is the class invariant. It says:

- every record sits under its own key;
- there are no self-loops;
- every arc has a reverse arc with the same weight;
- both ends of every arc are live vertices;
- weights are non-negative;
- the vertex count equals the number of vertices;
- the edge count equals the number of unordered edge pairs.

Contracts are stated through the public queries (`GetNode`, `HasEdge`,
`GetEdge`, `NodeSize`, `EdgeSize`, `GetMC`). Each mutation's contract says what
changes and that nothing else does.

Modules, one per file:

- `Options` (`options.dfy`): the optional value that stands for the source's `null`.
- `NodeInfo` (`node_info.dfy`): the vertex record.
- `Adjacency` (`adjacency.dfy`): the adjacency index, its shape invariants, the
  primitive updates `ConnectDirection` and `RemoveArc`, and the counting of
  undirected edges.
- `WGraph` (`wgraph.dfy`): the state, `Valid`, and the queries, including
  `getV(int)` as the loop `GetV`.
- `Mutations` (`mutations.dfy`): `addNode`, `connect`, `removeEdge` and
  `removeNode`. `removeNode` is modelled twice. The method `RemoveNode` follows the
  source's loop. The function `NodeRemoved` is the reference result, and the
  method is proved to produce it.
- `History` (`history.dfy`): sequences of mutations and the modification counter.
- `Equality` (`equality.dfy`): `equals`, as written.
- `Scenarios` (`scenarios.dfy`): two concrete call sequences.

Queries are pure functions of the state, so "a query changes nothing" holds by
construction. `GetMC` reads the counter; its behaviour is stated by the
mutation contracts and by `History.Apply` and `History.Run`.

Points where the model keeps the code's exact behaviour:

- **Removed vertex keeps an empty map.** `removeNode` never deletes the removed
  vertex's inner adjacency map. The index can therefore keep an empty map under
  a dead key. The invariant says "every stored arc has live endpoints", not
  "every index key is live". `Adjacency.Detach` leaves that empty map in place.
- **`hasEdge` checks one direction.** It only tests the arc `node2→node1`, plus
  the existence of `node1`'s map. The model keeps exactly these guards. Under
  the invariant, `WGraph.HasEdgeIsArc` shows the check equals "the arc
  `node1→node2` is stored".
- **`removeNode` bumps `mc` once per removed edge plus once for the vertex.**
  Each incident edge goes through `removeEdge`, which bumps the counter.
- **`equals` ignores vertex keys.** It never checks that the two graphs have the
  same vertex keys. `Equality.EqualsIgnoresVertexKeys` exhibits two graphs with
  different vertices that compare equal. The one-directional edge walk is kept
  as written. `Equality.EqualsIffSameEdges` shows it still means "same vertex
  count and same weighted edge set", because the edge counts must match.

## Model

| member | source | states |
|---|---|---|
| WGraph.Empty | src/ex1/src/WGraph_DS.java:17-28 | A new graph is valid: no vertices, no arcs, all three counters zero. |
| WGraph.GetNodeByKey | src/ex1/src/WGraph_DS.java:127-130 | `getNode` returns a record exactly when the key is a vertex, and that record carries the key asked for. |
| WGraph.HasEdge | src/ex1/src/WGraph_DS.java:140-150 | `hasEdge` is false for equal keys and whenever either endpoint is absent. |
| WGraph.HasEdgeIsArc | src/ex1/src/WGraph_DS.java:140-150 | In a valid graph, `hasEdge(a, b)` holds iff the arc a→b is stored. Both directions are proved. |
| WGraph.GetEdge | src/ex1/src/WGraph_DS.java:162-166 | `getEdge` returns -1 exactly when `hasEdge` is false. Otherwise it returns the stored non-negative weight. |
| WGraph.EdgeSymmetry | src/ex1/src/WGraph_DS.java:140-166 | `hasEdge` and `getEdge` are symmetric in their two arguments. |
| WGraph.NoSelfEdge | src/ex1/src/WGraph_DS.java:140-141 | No vertex has an edge to itself, and its self-weight is -1. |
| WGraph.NodeSize | src/ex1/src/WGraph_DS.java:288-290 | The vertex counter equals the number of vertices. |
| WGraph.EdgeSize | src/ex1/src/WGraph_DS.java:299-301 | The edge counter equals the number of undirected edge pairs. |
| WGraph.EdgePairsAreEdges | src/ex1/src/WGraph_DS.java:292-301 | The pairs counted by `edgeSize` are exactly the pairs (x, y) with x < y and `hasEdge(x, y)`. |
| WGraph.NeighboursAreEdges | src/ex1/src/WGraph_DS.java:235-243 | The recorded neighbours of a key are exactly the live vertices that share an edge with it. |
| WGraph.GetV | src/ex1/src/WGraph_DS.java:235-243 | `getV(key)` lists each neighbour's record exactly once, in any order; it has degree-many entries and is empty when the key has no edges. |
| WGraph.RecordsOf | src/ex1/src/WGraph_DS.java:236-242 | The listing loop returns one record per requested key, with no duplicates, each equal to the stored record. |
| Adjacency.ConnectDirection | src/ex1/src/WGraph_DS.java:207-213 | `connectDirection` stores exactly the arc x→y with weight w, creating x's map if missing. Every other arc and weight is unchanged. |
| Adjacency.RemoveArc | src/ex1/src/WGraph_DS.java:275-276 | Removing one arc deletes exactly that arc. Every key keeps its entry, and all other weights are unchanged. |
| Adjacency.Link | src/ex1/src/WGraph_DS.java:194-201 | Writing both directions adds exactly the arcs x→y and y→x, with weight w. Other arcs keep their weights. |
| Adjacency.Unlink | src/ex1/src/WGraph_DS.java:272-279 | Deleting both directions removes exactly the arcs x→y and y→x. |
| Adjacency.Detach | src/ex1/src/WGraph_DS.java:254-262 | After vertex removal the index has exactly the arcs not touching k, and the same keys, so k's empty map stays. |
| Adjacency.LinkPairs | src/ex1/src/WGraph_DS.java:194-198 | Adding the two arcs of {x, y} adds exactly one undirected pair, which is why `e_size` goes up by one. |
| Adjacency.UnlinkPairs | src/ex1/src/WGraph_DS.java:272-279 | Removing the two arcs of {x, y} removes exactly that undirected pair. |
| Adjacency.DetachPairs | src/ex1/src/WGraph_DS.java:256-258 | Dropping every arc at k removes exactly the pairs incident to k. |
| Adjacency.IncidentSize | src/ex1/src/WGraph_DS.java:256-258 | The number of edges at k equals the number of neighbours of k. |
| Mutations.AddNode | src/ex1/src/WGraph_DS.java:176-182 | On an absent key: inserts the record (key, "", 0); vertex count and `mc` rise by 1; edge count unchanged. On a present key: the graph is unchanged. Other vertices and all edges are untouched. Validity is preserved. |
| Mutations.Connect | src/ex1/src/WGraph_DS.java:190-204 | A negative weight, an absent endpoint or equal keys leaves the graph unchanged. A new edge stores w both ways; edge count and `mc` rise by 1. An existing edge with a different weight is overwritten both ways; `mc` rises by 1 and the edge count is unchanged. The same weight again is a no-op. No other edge and no vertex changes. Validity is preserved. |
| Mutations.LinkValid | src/ex1/src/WGraph_DS.java:194-203 | Writing both arcs between two distinct live vertices keeps the invariant, including the edge count. |
| Mutations.RemoveEdge | src/ex1/src/WGraph_DS.java:272-279 | No-op for equal keys or a missing edge. Otherwise the edge is gone both ways, the edge count drops by 1 and `mc` rises by 1. No other edge and no vertex changes. Validity is preserved. |
| Mutations.UnlinkValid | src/ex1/src/WGraph_DS.java:272-279 | Deleting both arcs of a stored edge keeps the invariant, including the edge count. |
| Mutations.NodeRemoved | src/ex1/src/WGraph_DS.java:254-262 | An absent key changes nothing. Otherwise: the vertex is gone and no edge touches it; edge count drops by the vertex's degree; vertex count drops by 1; `mc` rises by degree + 1. Edges between other vertices are preserved. |
| Mutations.DetachValid | src/ex1/src/WGraph_DS.java:254-262 | Stripping a vertex's edges and dropping its record keeps the invariant. |
| Mutations.RemoveNode | src/ex1/src/WGraph_DS.java:254-262 | The source's removal procedure returns exactly the `NodeRemoved` graph. It returns the removed record, or None for an absent key. |
| Mutations.RemoveIncident | src/ex1/src/WGraph_DS.java:256-258 | Calling `removeEdge(neighbour, key)` for every neighbour leaves exactly the arcs not touching key. The edge count drops by the degree and `mc` rises by it. |
| History.Apply | src/ex1/src/WGraph_DS.java:303-312 | Any single mutation preserves validity. `mc` never decreases, and it stays the same exactly when the graph is unchanged. |
| History.Run | src/ex1/src/WGraph_DS.java:303-312 | Over any sequence of mutations: validity holds, `mc` never decreases, and an unchanged `mc` means an unchanged graph. |
| History.Reachable | src/ex1/src/WGraph_DS.java:17-28 | Every graph built from the empty graph by public mutations is valid. If its `mc` is still 0, it has no vertices and no edges. |
| History.AddNodeIdempotent | src/ex1/src/WGraph_DS.java:168-182 | Adding a vertex twice gives the same graph, counters included, as adding it once. |
| History.ConnectIdempotent | src/ex1/src/WGraph_DS.java:199-203 | Repeating a connect with the same weight changes nothing further. |
| History.ConnectThenRemoveEdge | src/ex1/src/WGraph_DS.java:272-279 | `removeEdge` undoes a fresh `connect`: every edge query, every vertex and both counts are restored, and `mc` is up by 2. |
| History.AddNodeThenRemoveNode | src/ex1/src/WGraph_DS.java:254-262 | `removeNode` undoes a fresh `addNode`: every vertex and edge query and both counts are restored, and `mc` is up by 2. |
| Equality.EqualsIffSameEdges | src/ex1/src/WGraph_DS.java:315-330 | `equals` holds iff the vertex counts match and the weighted edge sets are identical. Both directions are proved. |
| Equality.EqualsSymmetric | src/ex1/src/WGraph_DS.java:315-330 | `equals` is symmetric even though it walks only the first graph. |
| Equality.EqualsIgnoresVertexKeys | src/ex1/src/WGraph_DS.java:320-329 | A graph with only vertex 1 equals a graph with only vertex 2. |
| Scenarios.ConnectUpdateRemove | src/ex1/src/WGraph_DS.java:176-262 | Add 1 and 2, connect with 5.0: one edge, weight 5.0 both ways. Reconnect with 7.5: still one edge, weight 7.5. Remove vertex 1: no edges, one vertex, no edge 1–2. |
| Scenarios.NegativeWeightRejected | src/ex1/src/WGraph_DS.java:190-191 | Connecting two present vertices with weight -3.0 adds no edge and leaves `mc` unchanged. |

## Left out

- `toString` of the graph and of the node record: debug text built from
  floating-point formatting.
- `hashCode`: depends on Java's hashing of hash maps.
- `Serializable`, and the `weighted_graph` and `node_info` interfaces: Java
  plumbing; the interface files are not part of this model.
- The no-argument `NodeInfo` constructor and its `count` field: the graph never
  uses them.
- `compareTo` on tags: an ordering for external priority queues that the graph
  itself never consults.
- `getV()`: returns a live view of the vertex store. The model exposes the
  `vertices` map itself.
- `setInfo` and `setTag`: plain field writes that do not touch `mc`.
- The O(1) and O(degree) cost notes: not functional behaviour.
- Counter overflow: `v_size`, `e_size` and `mc` are Java `int`. They are
  unbounded here, so wrap-around after 2^31 - 1 increments of `mc` is not
  modelled. `History.Run`'s "never decreases" relies on this.
- Special doubles: weights are reals, so NaN and -0.0 are not modelled. Under
  NaN, `w < 0` is false and `w != getEdge(...)` is always true, so every
  reconnect with NaN would bump `mc`.
- Aliasing and object identity: `equals` short-circuits on `this == o` and
  checks `getClass()`. Graphs here are values and the check is typed. The
  shortcut never changes the answer, because a graph always passes its own
  test (`Equality.EqualsIffSameEdges`).
- Identity test in `hasEdge`: it compares the node objects from two lookups.
  The model compares the optional records instead. Under the invariant both
  compare equal only when both lookups fail.
- `WGraph.GetEdge`: requires the invariant. With only one direction of an edge
  stored, the source would throw a `NullPointerException` when unboxing. No
  sequence of public calls can reach that state.
