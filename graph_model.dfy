/**
 * The graph store of prim2.c as a value: a dense symmetric weight matrix in
 * which 0 means "no edge", and the counter of edges. The three mutators are
 * functions from one state to the next; the class GraphStore.Graph is proved
 * to follow them, and the lemmas here state what they promise.
 */
module GraphModel {

  /** INT_MAX of prim2.c; the Prim run uses it as "infinity". */
  const INT_MAX: int := 2147483647

  type Matrix = seq<seq<int>>

  /** num_nodes, adj_matrix and num_edges of the C struct GRAPH. */
  datatype GraphState = GraphState(n: nat, adj: Matrix, numEdges: int)

  predicate Square(m: Matrix, n: nat)
  {
    |m| == n && forall i :: 0 <= i < n ==> |m[i]| == n
  }

  /** The edges, each once, as (smaller end, larger end), 0-based. */
  ghost function EdgeSet(m: Matrix, n: nat): set<(int, int)>
    requires Square(m, n)
  {
    set i, j | 0 <= i < j < n && m[i][j] > 0 :: (i, j)
  }

  ghost predicate Symmetric(m: Matrix, n: nat)
    requires Square(m, n)
  {
    forall i, j :: 0 <= i < n && 0 <= j < n ==> m[i][j] == m[j][i]
  }

  /** Representation invariant: symmetric, no self-loop, every cell a
      non-negative C int, and the counter equal to the number of edges. */
  ghost predicate Valid(g: GraphState)
  {
    && Square(g.adj, g.n)
    && Symmetric(g.adj, g.n)
    && (forall i :: 0 <= i < g.n ==> g.adj[i][i] == 0)
    && (forall i, j :: 0 <= i < g.n && 0 <= j < g.n ==> 0 <= g.adj[i][j] <= INT_MAX)
    && g.numEdges == |EdgeSet(g.adj, g.n)|
  }

  /** The graph main builds: n vertices, all cells 0, no edges. */
  function Empty(n: nat): (g: GraphState)
    ensures g.n == n && g.numEdges == 0 && Valid(g)
    ensures forall i, j :: 0 <= i < n && 0 <= j < n ==> g.adj[i][j] == 0
  {
    var g := GraphState(n, seq(n, i => seq(n, j => 0)), 0);
    assert EdgeSet(g.adj, n) == {};
    g
  }

  /** What the callers of the mutators guarantee: 1-based ids in range,
      two distinct ends. */
  predicate Endpoints(n: nat, src: int, dest: int)
  {
    1 <= src <= n && 1 <= dest <= n && src != dest
  }

  /** The 0-based weight between two 1-based ids. */
  function Weight(g: GraphState, src: int, dest: int): int
    requires Square(g.adj, g.n) && Endpoints(g.n, src, dest)
  {
    g.adj[src - 1][dest - 1]
  }

  /** Writes w into cells [i][j] and [j][i]. */
  function SetMirrored(m: Matrix, n: nat, i: int, j: int, w: int): (r: Matrix)
    requires Square(m, n) && 0 <= i < n && 0 <= j < n && i != j
    ensures Square(r, n)
  {
    m[i := m[i][j := w]][j := m[j][i := w]]
  }

  /** insertEdge: first insertion wins. */
  function InsertEdge(g: GraphState, src: int, dest: int, weight: int): (r: GraphState)
    requires Square(g.adj, g.n) && Endpoints(g.n, src, dest)
    ensures r.n == g.n && Square(r.adj, r.n)
  {
    var s, d := src - 1, dest - 1;
    if g.adj[s][d] == 0 then GraphState(g.n, SetMirrored(g.adj, g.n, s, d, weight), g.numEdges + 1)
    else g
  }

  /** changeWeight: only an existing edge is rewritten. */
  function ChangeWeight(g: GraphState, src: int, dest: int, weight: int): (r: GraphState)
    requires Square(g.adj, g.n) && Endpoints(g.n, src, dest)
    ensures r.n == g.n && Square(r.adj, r.n)
  {
    var s, d := src - 1, dest - 1;
    if g.adj[s][d] > 0 then GraphState(g.n, SetMirrored(g.adj, g.n, s, d, weight), g.numEdges)
    else g
  }

  /** deleteEdge: only an existing edge is removed. */
  function DeleteEdge(g: GraphState, src: int, dest: int): (r: GraphState)
    requires Square(g.adj, g.n) && Endpoints(g.n, src, dest)
    ensures r.n == g.n && Square(r.adj, r.n)
  {
    var s, d := src - 1, dest - 1;
    if g.adj[s][d] > 0 then GraphState(g.n, SetMirrored(g.adj, g.n, s, d, 0), g.numEdges - 1)
    else g
  }

  // ---------------------------------------------------------------------------
  // Edge bookkeeping

  /** Writing a positive weight over an absent edge adds exactly that edge. */
  lemma EdgeSetAdd(m: Matrix, n: nat, i: int, j: int, w: int)
    requires Square(m, n) && Symmetric(m, n) && 0 <= i < n && 0 <= j < n && i != j
    requires m[i][j] == 0 && w > 0
    ensures var e := if i < j then (i, j) else (j, i);
      && e !in EdgeSet(m, n)
      && EdgeSet(SetMirrored(m, n, i, j, w), n) == EdgeSet(m, n) + {e}
      && |EdgeSet(SetMirrored(m, n, i, j, w), n)| == |EdgeSet(m, n)| + 1
  {
    var r := SetMirrored(m, n, i, j, w);
    var e := if i < j then (i, j) else (j, i);
    forall p | p in EdgeSet(r, n) ensures p in EdgeSet(m, n) + {e} {
      var a, b := p.0, p.1;
      assert r[a][b] > 0;
      if p != e {
        assert m[a][b] == r[a][b];
      }
    }
    forall p | p in EdgeSet(m, n) + {e} ensures p in EdgeSet(r, n) {
      var a, b := p.0, p.1;
      if p != e {
        assert m[a][b] > 0;
        assert r[a][b] == m[a][b];
      } else {
        assert r[a][b] == w;
      }
    }
    assert EdgeSet(r, n) == EdgeSet(m, n) + {e};
  }

  /** Zeroing an existing edge removes exactly that edge. */
  lemma EdgeSetRemove(m: Matrix, n: nat, i: int, j: int)
    requires Square(m, n) && Symmetric(m, n) && 0 <= i < n && 0 <= j < n && i != j
    requires m[i][j] > 0
    ensures var e := if i < j then (i, j) else (j, i);
      && e in EdgeSet(m, n)
      && EdgeSet(SetMirrored(m, n, i, j, 0), n) == EdgeSet(m, n) - {e}
      && |EdgeSet(SetMirrored(m, n, i, j, 0), n)| == |EdgeSet(m, n)| - 1
  {
    var r := SetMirrored(m, n, i, j, 0);
    var e := if i < j then (i, j) else (j, i);
    assert m[e.0][e.1] > 0;
    forall p | p in EdgeSet(r, n) ensures p in EdgeSet(m, n) - {e} {
      var a, b := p.0, p.1;
      assert r[a][b] > 0;
      assert m[a][b] == r[a][b];
    }
    forall p | p in EdgeSet(m, n) - {e} ensures p in EdgeSet(r, n) {
      var a, b := p.0, p.1;
      assert m[a][b] > 0;
      assert r[a][b] == m[a][b];
    }
    assert EdgeSet(r, n) == EdgeSet(m, n) - {e};
  }

  /** Rewriting an existing edge with a positive weight keeps the edge set. */
  lemma EdgeSetKeep(m: Matrix, n: nat, i: int, j: int, w: int)
    requires Square(m, n) && Symmetric(m, n) && 0 <= i < n && 0 <= j < n && i != j
    requires m[i][j] > 0 && w > 0
    ensures EdgeSet(SetMirrored(m, n, i, j, w), n) == EdgeSet(m, n)
  {
    var r := SetMirrored(m, n, i, j, w);
    forall p | p in EdgeSet(r, n) ensures p in EdgeSet(m, n) {
      var a, b := p.0, p.1;
      assert r[a][b] > 0;
      assert m[a][b] > 0;
    }
    forall p | p in EdgeSet(m, n) ensures p in EdgeSet(r, n) {
      var a, b := p.0, p.1;
      assert m[a][b] > 0;
      assert r[a][b] > 0;
    }
  }

  // ---------------------------------------------------------------------------
  // What each mutator promises

  /** Writing the mirrored pair keeps symmetry, the empty diagonal and the
      range of the cells, and touches nothing else. */
  lemma MirroredCells(m: Matrix, n: nat, i: int, j: int, w: int)
    requires Square(m, n) && Symmetric(m, n) && 0 <= i < n && 0 <= j < n && i != j
    requires forall a :: 0 <= a < n ==> m[a][a] == 0
    requires forall a, b :: 0 <= a < n && 0 <= b < n ==> 0 <= m[a][b] <= INT_MAX
    requires 0 <= w <= INT_MAX
    ensures var r := SetMirrored(m, n, i, j, w);
      && Symmetric(r, n)
      && (forall a :: 0 <= a < n ==> r[a][a] == 0)
      && (forall a, b :: 0 <= a < n && 0 <= b < n ==> 0 <= r[a][b] <= INT_MAX)
      && SameOutside(m, r, n, i, j)
      && r[i][j] == w && r[j][i] == w
  {
  }

  /** The cells outside the mirrored pair (i, j), (j, i) are equal in m and r. */
  ghost predicate SameOutside(m: Matrix, r: Matrix, n: nat, i: int, j: int)
    requires Square(m, n) && Square(r, n)
  {
    forall a, b :: 0 <= a < n && 0 <= b < n && !(a == i && b == j) && !(a == j && b == i) ==>
      r[a][b] == m[a][b]
  }

  /** insertEdge on an absent edge writes the weight both ways and counts one
      more edge; on a present edge it changes nothing (first write wins). No
      other cell is touched and the invariant is kept. */
  lemma InsertEdgeSpec(g: GraphState, src: int, dest: int, weight: int)
    requires Valid(g) && Endpoints(g.n, src, dest) && 0 < weight <= INT_MAX
    ensures var r := InsertEdge(g, src, dest, weight);
      && Valid(r)
      && SameOutside(g.adj, r.adj, g.n, src - 1, dest - 1)
      && (Weight(g, src, dest) == 0 ==>
            && Weight(r, src, dest) == weight && Weight(r, dest, src) == weight
            && r.numEdges == g.numEdges + 1)
      && (Weight(g, src, dest) != 0 ==> r == g)
  {
    var s, d := src - 1, dest - 1;
    if g.adj[s][d] == 0 {
      MirroredCells(g.adj, g.n, s, d, weight);
      EdgeSetAdd(g.adj, g.n, s, d, weight);
    }
  }

  /** changeWeight rewrites both cells of an existing edge and is a no-op on an
      absent one; the edge count never changes and the invariant is kept. */
  lemma ChangeWeightSpec(g: GraphState, src: int, dest: int, weight: int)
    requires Valid(g) && Endpoints(g.n, src, dest) && 0 < weight <= INT_MAX
    ensures var r := ChangeWeight(g, src, dest, weight);
      && Valid(r)
      && r.numEdges == g.numEdges
      && EdgeSet(r.adj, r.n) == EdgeSet(g.adj, g.n)
      && SameOutside(g.adj, r.adj, g.n, src - 1, dest - 1)
      && (Weight(g, src, dest) > 0 ==> Weight(r, src, dest) == weight && Weight(r, dest, src) == weight)
      && (Weight(g, src, dest) == 0 ==> r == g)
  {
    var s, d := src - 1, dest - 1;
    if g.adj[s][d] > 0 {
      MirroredCells(g.adj, g.n, s, d, weight);
      EdgeSetKeep(g.adj, g.n, s, d, weight);
    }
  }

  /** deleteEdge zeroes both cells of an existing edge and counts one edge
      less; on an absent edge it changes nothing. The invariant is kept. */
  lemma DeleteEdgeSpec(g: GraphState, src: int, dest: int)
    requires Valid(g) && Endpoints(g.n, src, dest)
    ensures var r := DeleteEdge(g, src, dest);
      && Valid(r)
      && SameOutside(g.adj, r.adj, g.n, src - 1, dest - 1)
      && Weight(r, src, dest) == 0 && Weight(r, dest, src) == 0
      && (Weight(g, src, dest) > 0 ==> r.numEdges == g.numEdges - 1)
      && (Weight(g, src, dest) == 0 ==> r == g)
  {
    var s, d := src - 1, dest - 1;
    if g.adj[s][d] > 0 {
      MirroredCells(g.adj, g.n, s, d, 0);
      EdgeSetRemove(g.adj, g.n, s, d);
    }
  }

  /** The graph is undirected: the order of the two ids does not matter. */
  lemma MutatorsUndirected(g: GraphState, src: int, dest: int, weight: int)
    requires Valid(g) && Endpoints(g.n, src, dest)
    ensures InsertEdge(g, src, dest, weight) == InsertEdge(g, dest, src, weight)
    ensures ChangeWeight(g, src, dest, weight) == ChangeWeight(g, dest, src, weight)
    ensures DeleteEdge(g, src, dest) == DeleteEdge(g, dest, src)
  {
    var s, d := src - 1, dest - 1;
    assert g.adj[s][d] == g.adj[d][s];
    assert forall w :: SetMirrored(g.adj, g.n, s, d, w) == SetMirrored(g.adj, g.n, d, s, w);
  }

  /** Deleting an edge just inserted gives back the graph before the insertion. */
  lemma InsertThenDelete(g: GraphState, src: int, dest: int, weight: int)
    requires Valid(g) && Endpoints(g.n, src, dest) && 0 < weight
    requires Weight(g, src, dest) == 0
    ensures DeleteEdge(InsertEdge(g, src, dest, weight), src, dest) == g
  {
    var s, d := src - 1, dest - 1;
    var m := g.adj;
    assert m[d][s] == 0;
    var r := SetMirrored(SetMirrored(m, g.n, s, d, weight), g.n, s, d, 0);
    assert r[s] == m[s];
    assert r[d] == m[d];
    assert r == m;
  }

  /** Re-inserting a deleted edge with its old weight gives back the graph. */
  lemma DeleteThenInsert(g: GraphState, src: int, dest: int)
    requires Valid(g) && Endpoints(g.n, src, dest)
    requires Weight(g, src, dest) > 0
    ensures InsertEdge(DeleteEdge(g, src, dest), src, dest, Weight(g, src, dest)) == g
  {
    var s, d := src - 1, dest - 1;
    var m, w := g.adj, g.adj[s][d];
    assert m[d][s] == w;
    var r := SetMirrored(SetMirrored(m, g.n, s, d, 0), g.n, s, d, w);
    assert r[s] == m[s];
    assert r[d] == m[d];
    assert r == m;
  }

  /** Changing a weight and changing it back gives back the graph. */
  lemma ChangeWeightBack(g: GraphState, src: int, dest: int, weight: int)
    requires Valid(g) && Endpoints(g.n, src, dest) && 0 < weight
    ensures ChangeWeight(ChangeWeight(g, src, dest, weight), src, dest, Weight(g, src, dest)) == g
  {
    var s, d := src - 1, dest - 1;
    var m, w := g.adj, g.adj[s][d];
    if w > 0 {
      assert m[d][s] == w;
      var r := SetMirrored(SetMirrored(m, g.n, s, d, weight), g.n, s, d, w);
      assert r[s] == m[s];
      assert r[d] == m[d];
      assert r == m;
    }
  }
}
