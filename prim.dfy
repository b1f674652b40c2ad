/**
 * The MST engine of prim2.c: one run of Prim's algorithm over the graph
 * store with the indexed heap (prim, lines 120-171), and findMST's mapping
 * of its -1 result to "Disconnected" (lines 197-209).
 *
 * The vertex records of a run are parallel arrays by vertex name: key,
 * inMST and parent (-1 where the C record has a NULL parent) live in the
 * run, sort_key in the heap that orders by it. total_weight is a local of
 * Prim, as in the C function. The loop invariant is PrimInvariant's, stated
 * on State(), the value of the run.
 */
module PrimEngine {
  import opened GraphModel
  import opened GraphStore
  import opened MinHeap
  import opened Trees
  import opened PrimInvariant
  import opened Optimality

  /** The records and heap of one call of prim over the graph g. */
  class PrimRun {
    const g: Graph
    const n: nat
    const heap: IndexedHeap
    const key: array<int>
    const inMST: array<bool>
    const parent: array<int>
    /** The adjacency matrix of g, which the run only reads. */
    ghost const m: Matrix

    ghost predicate Shape()
      reads heap
    {
      && g.n == n && heap.n == n && n >= 1
      && key.Length == n && inMST.Length == n && parent.Length == n
      && heap.Shaped()
      && key != parent
      && key != heap.slots && key != heap.pos && key != heap.sortKey
      && parent != heap.slots && parent != heap.pos && parent != heap.sortKey
    }

    /** m holds the cells of g's matrix. */
    ghost predicate Reads()
      reads g.adj
    {
      && g.adj.Length0 == n && g.adj.Length1 == n && Square(m, n)
      && forall i, j :: 0 <= i < n && 0 <= j < n ==> m[i][j] == g.adj[i, j]
    }

    /** The run as a value. */
    ghost function State(): Run
      reads heap, heap.slots, heap.pos, heap.sortKey, key, inMST, parent
    {
      Run(heap.slots[..], heap.pos[..], heap.size, heap.sortKey[..], key[..], inMST[..], parent[..])
    }

    ghost predicate Valid()
      reads g.adj, heap, heap.slots, heap.pos, heap.sortKey, key, inMST, parent
    {
      Shape() && Reads() && heap.Valid() && Sized(n, State())
    }

    /** The seeding of prim (lines 125-144): initHeap, every record with key
        and sort_key INT_MAX, no parent, not in the tree, then the root with
        keys 0 and inMST set; every vertex is in the heap. */
    constructor (graph: Graph)
      requires graph.Valid() && graph.n >= 1
      ensures Valid() && g == graph && n == graph.n && m == graph.Abs().adj && Symmetric(m, n)
      ensures Seeded(n, State())
      ensures fresh(heap) && fresh(heap.slots) && fresh(heap.pos) && fresh(heap.sortKey)
      ensures fresh(key) && fresh(inMST) && fresh(parent)
    {
      var nn := graph.n;
      var h := new IndexedHeap(nn);
      var k, t, p := NewRecords(nn);
      g, n, heap, key, inMST, parent := graph, nn, h, k, t, p;
      m := graph.Abs().adj;
      graph.AbsCells();
      new;
      assert Seeded(n, State());
    }

    /** The records of the seeding loop (lines 128-135): key INT_MAX, not in
        the tree, no parent; then the root's (lines 138-141): key 0, in the
        tree. */
    static method NewRecords(nn: nat) returns (k: array<int>, t: array<bool>, p: array<int>)
      requires nn >= 1
      ensures fresh(k) && fresh(t) && fresh(p) && k != p && k.Length == nn && t.Length == nn && p.Length == nn
      ensures forall v :: 0 <= v < nn ==> k[v] == (if v == 0 then 0 else INT_MAX) && t[v] == (v == 0) && p[v] == -1
    {
      k := new int[nn];
      t := new bool[nn];
      p := new int[nn];
      for i := 0 to nn
        invariant forall v :: 0 <= v < i ==> k[v] == INT_MAX && !t[v] && p[v] == -1
      {
        k[i] := INT_MAX;
        t[i] := false;
        p[i] := -1;
      }
      k[0] := 0;
      t[0] := true;
    }

    /** extractMin and the inMST mark of lines 147-149, as a step of the run. */
    method ExtractRoot() returns (u: int)
      requires Valid() && heap.size > 0
      modifies heap, heap.slots, heap.pos, heap.sortKey, inMST
      ensures Valid() && ExtractStep(n, old(State()), State(), u) && u == old(heap.slots[0])
    {
      var res := heap.ExtractMin();
      u := res.value;
      inMST[u] := true;
    }

    /** Lines 147-149 keep the invariant, given the ledgers of the run. */
    method Settle(ghost cut: Option<(set<int>, int)>, ghost contrib: seq<int>, ghost trail: seq<int>,
                  ghost total: int) returns (u: int)
      requires Valid() && heap.size > 0
      requires Good(m, n, State(), cut, contrib, trail, total) && KeysBelowCut(m, n, State(), -1, 0)
      modifies heap, heap.slots, heap.pos, heap.sortKey, inMST
      ensures Valid() && ExtractStep(n, old(State()), State(), u) && u == old(heap.slots[0])
      ensures Good(m, n, State(), NextCut(n, old(State()), u, cut), contrib[u := key[u]],
                   trail + [key[u]], total + key[u])
      ensures KeysBelowCut(m, n, State(), u, 0) && heap.pos[u] >= heap.size
    {
      ghost var r0 := State();
      u := ExtractRoot();
      SettleKeeps(m, n, r0, State(), u, cut, contrib, trail, total);
    }

    /** The update of lines 155-158 for vertex v when the test of line 154
        holds, as a step of the run. */
    method RelaxOne(u: int, v: int)
      requires Valid() && HeapKeys(n, State()) && 0 <= u < n && 0 <= v < n
      modifies heap.slots, heap.pos, heap.sortKey, key, parent
      ensures Valid() && RelaxStep(m, n, old(State()), State(), u, v)
    {
      var w := g.adj[u, v];
      if !inMST[v] && heap.pos[v] < heap.size && w > 0 && w < key[v] {
        parent[v] := u;
        key[v] := w;
        heap.ChangeKey(v, w);
      }
    }

    /** One pass of the inner loop keeps the invariant, given the ledgers. */
    method Relax(u: int, v: int, ghost cut: Option<(set<int>, int)>, ghost contrib: seq<int>,
                 ghost trail: seq<int>, ghost total: int)
      requires Valid() && Good(m, n, State(), cut, contrib, trail, total)
      requires 0 <= u < n && 0 <= v < n && heap.pos[u] >= heap.size && KeysBelowCut(m, n, State(), u, v)
      modifies heap.slots, heap.pos, heap.sortKey, key, parent
      ensures Valid() && RelaxStep(m, n, old(State()), State(), u, v)
      ensures Good(m, n, State(), cut, contrib, trail, total)
      ensures KeysBelowCut(m, n, State(), u, v + 1) && heap.pos[u] >= heap.size
    {
      ghost var r0 := State();
      RelaxOne(u, v);
      RelaxKeeps(m, n, r0, State(), u, v, cut, contrib, trail, total);
    }

    /** The inner loop of lines 152-160 over every vertex. Exactly the
        vertices the test of line 154 accepts get u as parent and the edge
        weight as key; every other record keeps its parent and key. */
    method RelaxNeighbours(u: int, ghost cut: Option<(set<int>, int)>, ghost contrib: seq<int>,
                           ghost trail: seq<int>, ghost total: int)
      requires Valid() && Good(m, n, State(), cut, contrib, trail, total)
      requires 0 <= u < n && heap.pos[u] >= heap.size && KeysBelowCut(m, n, State(), u, 0)
      modifies heap.slots, heap.pos, heap.sortKey, key, parent
      ensures Valid() && RelaxedUpTo(m, n, old(State()), State(), u, n)
      ensures Good(m, n, State(), cut, contrib, trail, total) && KeysBelowCut(m, n, State(), -1, 0)
    {
      ghost var r0 := State();
      RelaxedNothing(m, n, r0, u);
      for v := 0 to n
        invariant Valid() && Good(m, n, State(), cut, contrib, trail, total)
        invariant KeysBelowCut(m, n, State(), u, v) && heap.pos[u] >= heap.size
        invariant RelaxedUpTo(m, n, r0, State(), u, v)
      {
        ghost var r := State();
        Relax(u, v, cut, contrib, trail, total);
        RelaxedOneMore(m, n, r0, r, State(), u, v);
      }
    }

    /** One round of the loop of lines 146-161: extract u, whose key w is
        added to total_weight, then relax every vertex against u. The ghost
        results are the invariant's records after the round. */
    method Round(ghost cut: Option<(set<int>, int)>, ghost contrib: seq<int>, ghost trail: seq<int>,
                 ghost total: int, ghost order: seq<int>)
      returns (u: int, w: int, ghost cut': Option<(set<int>, int)>, ghost contrib': seq<int>,
               ghost trail': seq<int>, ghost order': seq<int>)
      requires Valid() && heap.size > 0 && Good(m, n, State(), cut, contrib, trail, total)
      requires KeysBelowCut(m, n, State(), -1, 0) && Order(n, State(), order)
      modifies heap, heap.slots, heap.pos, heap.sortKey, key, inMST, parent
      ensures Valid() && heap.size == old(heap.size) - 1
      ensures Good(m, n, State(), cut', contrib', trail', total + w)
      ensures KeysBelowCut(m, n, State(), -1, 0) && Order(n, State(), order')
      ensures RoundOf(n, old(State()), State(), u) && w == key[u] && order' == order + [u]
    {
      ghost var r0 := State();
      u := Settle(cut, contrib, trail, total);
      ghost var r1 := State();
      w := key[u];
      cut', contrib', trail' := NextCut(n, r0, u, cut), contrib[u := w], trail + [w];
      RelaxNeighbours(u, cut', contrib', trail', total + w);
      ghost var r2 := State();
      RoundExtracts(m, n, r0, r1, r2, u);
      RoundKeepsOrder(m, n, r0, r1, r2, u, order);
      assert w == r2.key[u];
      order' := order + [u];
    }

    /** The loop of lines 146-161 from the seeded records until the heap is
        empty; it returns total_weight, and (as ghosts) the cut the run found
        if any, the ledgers of total_weight and the order of extraction. */
    method Loop() returns (total: int, ghost cut: Option<(set<int>, int)>, ghost contrib: seq<int>,
                           ghost trail: seq<int>, ghost order: seq<int>)
      requires Valid() && Seeded(n, State())
      modifies heap, heap.slots, heap.pos, heap.sortKey, key, inMST, parent
      ensures Valid() && heap.size == 0
      ensures Good(m, n, State(), cut, contrib, trail, total) && IsExtractionOrder(n, order)
      ensures Order(n, State(), order)
    {
      total := 0;
      cut := None;
      contrib := seq(n, v => 0);
      SeedInvariant(m, n, State(), contrib);
      trail := [];
      order := [];
      while heap.size != 0
        invariant Valid() && Good(m, n, State(), cut, contrib, trail, total)
        invariant KeysBelowCut(m, n, State(), -1, 0) && Order(n, State(), order)
        decreases heap.size
      {
        var u, w;
        u, w, cut, contrib, trail, order := Round(cut, contrib, trail, total, order);
        total := total + w;
      }
      FinishedOrder(m, n, State(), order);
    }

    /** Lines 163-170 after the loop: -1 when some vertex other than the
        root got no parent, which happens exactly when the graph is not
        connected; total_weight otherwise, the weight of the tree the
        parent links form. */
    method Finish(total: int, ghost cut: Option<(set<int>, int)>, ghost contrib: seq<int>,
                  ghost trail: seq<int>, ghost order: seq<int>) returns (result: int, ghost tree: seq<int>)
      requires Valid() && Symmetric(m, n) && heap.size == 0 && Good(m, n, State(), cut, contrib, trail, total)
      requires Order(n, State(), order)
      ensures result == -1 <==> !Connected(m, n)
      ensures result != -1 ==>
        && MinimumTree(m, n, tree)
        && (forall v :: 0 < v < n ==> Usable(m, n, tree[v], v))
        && result == TreeWeight(m, n, tree)
      ensures result != -1 ==> GrownInOrder(n, tree, order) && result == Sum(ExtractedWeights(m, n, tree, order))
    {
      Concludes(m, n, State(), cut, contrib, trail, total);
      var spanning := AllHaveParents();
      if spanning {
        result := total;
        tree := parent[..];
        FinishedGrowth(m, n, State(), cut, contrib, trail, total, order);
      } else {
        result := -1;
        tree := [];
      }
    }

    /** Lines 146-170 on the seeded records: the loop, then the verdict. */
    method Execute() returns (result: int, ghost tree: seq<int>, ghost order: seq<int>)
      requires Valid() && Symmetric(m, n) && Seeded(n, State())
      modifies heap, heap.slots, heap.pos, heap.sortKey, key, inMST, parent
      ensures result == -1 <==> !Connected(m, n)
      ensures result != -1 ==>
        && MinimumTree(m, n, tree)
        && (forall v :: 0 < v < n ==> Usable(m, n, tree[v], v))
        && result == TreeWeight(m, n, tree)
      ensures IsExtractionOrder(n, order)
      ensures result != -1 ==> GrownInOrder(n, tree, order) && result == Sum(ExtractedWeights(m, n, tree, order))
    {
      var total;
      ghost var cut, contrib, trail;
      total, cut, contrib, trail, order := Loop();
      result, tree := Finish(total, cut, contrib, trail, order);
    }

    /** The check of lines 164-168, walking the heap array: does every
        vertex but the root have a parent? */
    method AllHaveParents() returns (b: bool)
      requires Shape() && IsInverse(heap.slots[..], heap.pos[..], n)
      ensures b == HasParents(n, parent[..])
    {
      for i := 0 to n
        invariant forall j :: 0 <= j < i && heap.slots[j] != 0 ==> parent[heap.slots[j]] != -1
      {
        if parent[heap.slots[i]] == -1 && heap.slots[i] != 0 {
          assert !HasParents(n, parent[..]) by {
            assert parent[..][heap.slots[i]] == -1;
          }
          return false;
        }
      }
      forall v | 0 < v < n ensures parent[v] != -1 {
        assert heap.slots[heap.pos[v]] == v;
      }
      assert HasParents(n, parent[..]);
      return true;
    }
  }

  /** prim (lines 120-171): -1 for a graph without edges or one whose
      vertices are not all reachable from vertex 0 over edges lighter than
      INT_MAX; otherwise the weight of the spanning tree its parent links
      form. Every vertex leaves the heap exactly once; the graph is not
      changed. */
  method Prim(graph: Graph) returns (result: int, ghost tree: seq<int>, ghost order: seq<int>)
    requires graph.Valid()
    ensures result == -1 <==> graph.numEdges == 0 || !Connected(graph.Abs().adj, graph.n)
    ensures result != -1 ==>
      && MinimumTree(graph.Abs().adj, graph.n, tree)
      && (forall v :: 0 < v < graph.n ==> Usable(graph.Abs().adj, graph.n, tree[v], v))
      && result == TreeWeight(graph.Abs().adj, graph.n, tree)
    ensures graph.numEdges != 0 ==> IsExtractionOrder(graph.n, order)
    ensures result != -1 ==>
      && GrownInOrder(graph.n, tree, order)
      && result == Sum(ExtractedWeights(graph.Abs().adj, graph.n, tree, order))
  {
    if graph.numEdges == 0 {
      return -1, [], [];
    }
    EdgesNeedTwoVertices(graph.Abs());
    var run := new PrimRun(graph);
    result, tree, order := run.Execute();
  }

  /** What findMST writes. */
  datatype Outcome = Disconnected | Weight(w: int)

  /** findMST (lines 197-209): "Disconnected" exactly when the graph has no
      edge or is not connected over edges lighter than INT_MAX, otherwise the
      weight of a spanning tree over such edges. */
  method FindMST(graph: Graph) returns (out: Outcome, ghost tree: seq<int>)
    requires graph.Valid()
    ensures out == Disconnected <==> graph.numEdges == 0 || !Connected(graph.Abs().adj, graph.n)
    ensures out.Weight? ==>
      && MinimumTree(graph.Abs().adj, graph.n, tree)
      && (forall v :: 0 < v < graph.n ==> Usable(graph.Abs().adj, graph.n, tree[v], v))
      && out.w == TreeWeight(graph.Abs().adj, graph.n, tree)
  {
    var mstWeight;
    ghost var order;
    mstWeight, tree, order := Prim(graph);
    if mstWeight == -1 {
      out := Disconnected;
    } else {
      out := Weight(mstWeight);
    }
  }

  /** A graph with an edge has at least two vertices. */
  lemma EdgesNeedTwoVertices(g: GraphState)
    requires Valid(g) && g.numEdges != 0
    ensures g.n >= 2
  {
  }
}
