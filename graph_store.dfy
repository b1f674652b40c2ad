/**
 * The graph of prim2.c as the program keeps it: a struct with the vertex
 * count, the edge counter and an n-by-n matrix that the three mutators
 * update in place. Each mutator is proved to take the store from one value
 * of GraphModel to the value the corresponding function gives, so the
 * lemmas of GraphModel describe what it does.
 */
module GraphStore {
  import opened GraphModel

  class Graph {
    const n: nat             // num_nodes
    const adj: array2<int>   // adj_matrix, 0 = no edge
    var numEdges: int        // num_edges

    /** The cells of the matrix as a value. */
    ghost function Cells(): Matrix
      reads adj
    {
      seq(adj.Length0, i requires 0 <= i < adj.Length0 reads adj =>
        seq(adj.Length1, j requires 0 <= j < adj.Length1 reads adj => adj[i, j]))
    }

    /** The value the store holds. */
    ghost function Abs(): GraphState
      reads this, adj
    {
      GraphState(n, Cells(), numEdges)
    }

    ghost predicate Valid()
      reads this, adj
    {
      adj.Length0 == n && adj.Length1 == n && GraphModel.Valid(Abs())
    }

    /** The cells of Abs() are those of the array. */
    lemma AbsCells()
      requires adj.Length0 == n && adj.Length1 == n
      ensures Square(Abs().adj, n)
      ensures forall i, j :: 0 <= i < n && 0 <= j < n ==> Abs().adj[i][j] == adj[i, j]
    {
    }

    /** The two assignments every mutator makes: w into [i][j] and [j][i]. */
    method SetPair(i: int, j: int, w: int)
      requires adj.Length0 == n && adj.Length1 == n && 0 <= i < n && 0 <= j < n && i != j
      modifies adj
      ensures Cells() == SetMirrored(old(Cells()), n, i, j, w)
    {
      ghost var before := Cells();
      AbsCells();
      adj[i, j] := w;
      adj[j, i] := w;
      AbsCells();
      MatrixEquality(Cells(), SetMirrored(before, n, i, j, w), n);
    }

    /** The graph main builds before reading instructions: every cell 0. */
    constructor (numNodes: nat)
      ensures Valid() && Abs() == Empty(numNodes) && fresh(adj)
    {
      n := numNodes;
      numEdges := 0;
      var m := new int[numNodes, numNodes];
      for i := 0 to numNodes
        invariant forall a, b :: 0 <= a < i && 0 <= b < numNodes ==> m[a, b] == 0
      {
        for j := 0 to numNodes
          invariant forall a, b :: 0 <= a < i && 0 <= b < numNodes ==> m[a, b] == 0
          invariant forall b :: 0 <= b < j ==> m[i, b] == 0
        {
          m[i, j] := 0;
        }
      }
      adj := m;
      new;
      MatrixEquality(Abs().adj, Empty(numNodes).adj, numNodes);
    }

    /** insertEdge: 1-based ids; only a zero cell is overwritten. */
    method InsertEdge(src: int, dest: int, weight: int)
      requires Valid() && Endpoints(n, src, dest) && 0 < weight <= INT_MAX
      modifies this, adj
      ensures Valid() && Abs() == GraphModel.InsertEdge(old(Abs()), src, dest, weight)
    {
      ghost var before := Abs();
      ghost var after := GraphModel.InsertEdge(before, src, dest, weight);
      assert GraphModel.Valid(after) by {
        InsertEdgeSpec(before, src, dest, weight);
      }
      if adj[src - 1, dest - 1] == 0 {
        SetPair(src - 1, dest - 1, weight);
        assert Cells() == after.adj;
        numEdges := numEdges + 1;
        assert Abs() == after;
      }
    }

    /** changeWeight: only a positive cell is overwritten. */
    method ChangeWeight(src: int, dest: int, weight: int)
      requires Valid() && Endpoints(n, src, dest) && 0 < weight <= INT_MAX
      modifies this, adj
      ensures Valid() && Abs() == GraphModel.ChangeWeight(old(Abs()), src, dest, weight)
    {
      ghost var before := Abs();
      ghost var after := GraphModel.ChangeWeight(before, src, dest, weight);
      assert GraphModel.Valid(after) by {
        ChangeWeightSpec(before, src, dest, weight);
      }
      if adj[src - 1, dest - 1] > 0 {
        SetPair(src - 1, dest - 1, weight);
        assert Cells() == after.adj;
        assert Abs() == after;
      }
    }

    /** deleteEdge: only a positive cell is zeroed. */
    method DeleteEdge(src: int, dest: int)
      requires Valid() && Endpoints(n, src, dest)
      modifies this, adj
      ensures Valid() && Abs() == GraphModel.DeleteEdge(old(Abs()), src, dest)
    {
      ghost var before := Abs();
      ghost var after := GraphModel.DeleteEdge(before, src, dest);
      assert GraphModel.Valid(after) by {
        DeleteEdgeSpec(before, src, dest);
      }
      if adj[src - 1, dest - 1] > 0 {
        SetPair(src - 1, dest - 1, 0);
        assert Cells() == after.adj;
        numEdges := numEdges - 1;
        assert Abs() == after;
      }
    }
  }

  /** Two square matrices with the same cells are equal. */
  lemma MatrixEquality(a: Matrix, b: Matrix, n: nat)
    requires Square(a, n) && Square(b, n)
    requires forall i, j :: 0 <= i < n && 0 <= j < n ==> a[i][j] == b[i][j]
    ensures a == b
  {
    forall i | 0 <= i < n ensures a[i] == b[i] {
      assert forall j :: 0 <= j < n ==> a[i][j] == b[i][j];
    }
  }
}
