/**
 * Why the tree prim2.c builds is a minimum spanning tree. A finished run
 * leaves every vertex with a rank (its final slot in the heap array: a
 * larger slot is an earlier extraction), every non-root vertex with a parent
 * ranked above it, and the greedy choice: the key of each vertex, the weight
 * of its parent edge, is at most the weight of any edge from a vertex ranked
 * above it to one ranked at or below it.
 *
 * The proof is the exchange argument. Any spanning tree is turned, one
 * vertex at a time in the order of extraction, into the greedy tree, and no
 * step makes it heavier. The tree in between is a list of n edge slots
 * (slot 0 unused) that joins every vertex to the root; the step for vertex u
 * puts u's parent edge into slot u and moves the edge it displaces into the
 * slot of the edge it throws out, an edge that crosses from the vertices
 * extracted before u to the others and so weighs at least u's key.
 */
module Optimality {
  import opened GraphModel
  import opened MinHeap
  import opened Trees

  type Edge = (int, int)

  /** The facts a finished run leaves about its parent links, ranked by pos. */
  ghost predicate GreedyTree(m: Matrix, n: nat, parent: seq<int>, slots: seq<int>, pos: seq<int>)
    requires Square(m, n)
  {
    && n >= 1 && IsInverse(slots, pos, n) && |parent| == n && parent[0] == -1
    && (forall v :: 0 < v < n ==> 0 <= parent[v] < n && pos[parent[v]] > pos[v] && m[parent[v]][v] > 0)
    && (forall u, a, b ::
          (&& 0 < u < n && 0 <= a < n && 0 <= b < n
           && pos[a] > pos[u] && pos[b] <= pos[u] && m[a][b] > 0) ==> m[parent[u]][u] <= m[a][b])
  }

  /** t is a spanning tree no other spanning tree is lighter than. */
  ghost predicate MinimumTree(m: Matrix, n: nat, t: seq<int>)
    requires Square(m, n)
  {
    && ParentTree(m, n, t)
    && forall t' :: ParentTree(m, n, t') ==> TreeWeight(m, n, t) <= TreeWeight(m, n, t')
  }

  // ---------------------------------------------------------------------------
  // Edge lists

  /** Slots 1 to n-1 each hold an edge of the graph. */
  ghost predicate EdgeList(m: Matrix, n: nat, e: seq<Edge>)
    requires Square(m, n)
  {
    |e| == n && forall i :: 1 <= i < n ==> 0 <= e[i].0 < n && 0 <= e[i].1 < n && m[e[i].0][e[i].1] > 0
  }

  /** Some slot joins a and b, in either direction. */
  ghost predicate Links(e: seq<Edge>, a: int, b: int)
  {
    exists i :: 1 <= i < |e| && (e[i] == (a, b) || e[i] == (b, a))
  }

  ghost predicate Walk(e: seq<Edge>, n: nat, w: seq<int>)
  {
    && |w| >= 1
    && (forall k :: 0 <= k < |w| ==> 0 <= w[k] < n)
    && (forall k :: 0 <= k < |w| - 1 ==> Links(e, w[k], w[k + 1]))
  }

  ghost predicate Attached(e: seq<Edge>, n: nat, v: int)
  {
    exists w :: Walk(e, n, w) && w[0] == v && w[|w| - 1] == 0
  }

  /** The edges join every vertex to the root. */
  ghost predicate Spans(e: seq<Edge>, n: nat)
  {
    forall v :: 0 <= v < n ==> Attached(e, n, v)
  }

  ghost function ListWeights(m: Matrix, n: nat, e: seq<Edge>): (w: seq<int>)
    requires Square(m, n) && EdgeList(m, n, e)
    ensures |w| == n && (n >= 1 ==> w[0] == 0)
  {
    seq(n, i requires 0 <= i < n => if i == 0 then 0 else m[e[i].0][e[i].1])
  }

  /** Slots of vertices ranked above p hold their parent edges. */
  ghost predicate Agrees(n: nat, parent: seq<int>, pos: seq<int>, e: seq<Edge>, p: int)
    requires |parent| == n && |pos| == n && |e| == n
  {
    forall v :: 0 < v < n && pos[v] > p ==> e[v] == (parent[v], v)
  }

  lemma AttachedStep(e: seq<Edge>, n: nat, a: int, b: int)
    requires 0 <= a < n && Links(e, a, b) && Attached(e, n, b)
    ensures Attached(e, n, a)
  {
    var w :| Walk(e, n, w) && w[0] == b && w[|w| - 1] == 0;
    var w' := [a] + w;
    forall k | 0 <= k < |w'| - 1 ensures Links(e, w'[k], w'[k + 1]) {
      if k > 0 {
        assert w'[k] == w[k - 1] && w'[k + 1] == w[k];
      }
    }
    assert Walk(e, n, w');
  }

  // ---------------------------------------------------------------------------
  // Facts about the greedy tree

  /** The root is extracted before every other vertex. */
  lemma {:induction false} RootFirst(m: Matrix, n: nat, parent: seq<int>, slots: seq<int>, pos: seq<int>, v: int)
    requires Square(m, n) && GreedyTree(m, n, parent, slots, pos) && 0 < v < n
    ensures pos[0] > pos[v]
    decreases n - pos[v]
  {
    if parent[v] != 0 {
      RootFirst(m, n, parent, slots, pos, parent[v]);
    }
  }

  /** A vertex whose parent chain runs through agreeing slots is attached. */
  lemma {:induction false} ChainAttached(m: Matrix, n: nat, parent: seq<int>, slots: seq<int>, pos: seq<int>,
                                         e: seq<Edge>, p: int, v: int)
    requires Square(m, n) && GreedyTree(m, n, parent, slots, pos) && |e| == n
    requires Agrees(n, parent, pos, e, p) && 0 <= v < n && (v == 0 || pos[v] > p)
    ensures Attached(e, n, v)
    decreases n - pos[v]
  {
    if v == 0 {
      assert Walk(e, n, [0]);
    } else {
      var q := parent[v];
      ChainAttached(m, n, parent, slots, pos, e, p, q);
      assert Links(e, v, q) by {
        assert e[v] == (q, v);
      }
      AttachedStep(e, n, v, q);
    }
  }

  // ---------------------------------------------------------------------------
  // One exchange

  /** A walk from a vertex ranked at or below p to one ranked above it has
      a first step across. */
  lemma {:induction false} FirstExit(n: nat, pos: seq<int>, w: seq<int>, p: int) returns (k: int)
    requires |pos| == n && |w| >= 1 && (forall i :: 0 <= i < |w| ==> 0 <= w[i] < n)
    requires pos[w[0]] <= p && pos[w[|w| - 1]] > p
    ensures 0 <= k < |w| - 1 && pos[w[k + 1]] > p
    ensures forall i :: 0 <= i <= k ==> pos[w[i]] <= p
    decreases |w|
  {
    if pos[w[1]] > p {
      k := 0;
    } else {
      var k' := FirstExit(n, pos, w[1..], p);
      k := k' + 1;
      forall i | 0 <= i <= k ensures pos[w[i]] <= p {
        if i > 0 {
          assert w[i] == w[1..][i - 1];
        }
      }
    }
  }

  /** Slots other than j and u are kept and slot j takes u's old edge: every
      link but the one slot j held survives. */
  lemma KeptLink(e: seq<Edge>, e': seq<Edge>, n: nat, j: int, u: int, a: int, b: int)
    requires |e| == n && |e'| == n && 1 <= j < n && 1 <= u < n
    requires forall i :: 1 <= i < n && i != j && i != u ==> e'[i] == e[i]
    requires u != j ==> e'[j] == e[u]
    requires Links(e, a, b) && e[j] != (a, b) && e[j] != (b, a)
    ensures Links(e', a, b)
  {
    var i :| 1 <= i < |e| && (e[i] == (a, b) || e[i] == (b, a));
    if i == u && u != j {
      assert e'[j] == e[i];
    } else {
      assert e'[i] == e[i];
    }
  }

  /** The part of a walk before its first step across stays attached. */
  lemma {:induction false} PrefixAttached(n: nat, pos: seq<int>, e: seq<Edge>, e': seq<Edge>,
                                          j: int, u: int, w: seq<int>, p: int, i: int)
    requires |pos| == n && |e| == n && |e'| == n && 1 <= j < n && 1 <= u < n
    requires forall i :: 1 <= i < n && i != j && i != u ==> e'[i] == e[i]
    requires u != j ==> e'[j] == e[u]
    requires 0 <= e[j].0 < n && 0 <= e[j].1 < n && (pos[e[j].0] > p || pos[e[j].1] > p)
    requires Walk(e, n, w) && w[0] == u && Attached(e', n, u)
    requires 0 <= i < |w| && forall h :: 0 <= h <= i ==> pos[w[h]] <= p
    ensures Attached(e', n, w[i])
    decreases i
  {
    if i > 0 {
      PrefixAttached(n, pos, e, e', j, u, w, p, i - 1);
      var a, b := w[i], w[i - 1];
      assert Links(e, b, a);
      var wit :| 1 <= wit < |e| && (e[wit] == (b, a) || e[wit] == (a, b));
      assert Links(e, a, b);
      KeptLink(e, e', n, j, u, a, b);
      AttachedStep(e', n, a, b);
    }
  }

  /** Every vertex of a walk to the root stays attached, once both ends of
      the edge slot j held are. */
  lemma {:induction false} SuffixAttached(n: nat, e: seq<Edge>, e': seq<Edge>, j: int, u: int,
                                          w: seq<int>, i: int)
    requires |e| == n && |e'| == n && 1 <= j < n && 1 <= u < n
    requires forall i :: 1 <= i < n && i != j && i != u ==> e'[i] == e[i]
    requires u != j ==> e'[j] == e[u]
    requires Attached(e', n, e[j].0) && Attached(e', n, e[j].1)
    requires Walk(e, n, w) && w[|w| - 1] == 0 && 0 <= i < |w|
    ensures Attached(e', n, w[i])
    decreases |w| - i
  {
    if i == |w| - 1 {
      assert Walk(e', n, [0]);
    } else {
      SuffixAttached(n, e, e', j, u, w, i + 1);
      var a, b := w[i], w[i + 1];
      if e[j] == (a, b) || e[j] == (b, a) {
        assert a == e[j].0 || a == e[j].1;
      } else {
        KeptLink(e, e', n, j, u, a, b);
        AttachedStep(e', n, a, b);
      }
    }
  }

  /** The weights of the list after the exchange: slot j takes slot u's
      weight, slot u the weight of u's parent edge. */
  lemma ExchangeWeights(ws: seq<int>, ws': seq<int>, j: int, u: int, key: int)
    requires |ws'| == |ws| && 0 <= j < |ws| && 0 <= u < |ws|
    requires forall i :: 0 <= i < |ws| && i != j && i != u ==> ws'[i] == ws[i]
    requires u != j ==> ws'[j] == ws[u]
    requires ws'[u] == key
    ensures Sum(ws') == Sum(ws) - ws[j] + key
  {
    if u == j {
      assert ws' == ws[u := key];
      SumUpdate(ws, u, key);
    } else {
      var mid := ws[j := ws[u]];
      assert ws' == mid[u := key];
      SumUpdate(ws, j, ws[u]);
      SumUpdate(mid, u, key);
    }
  }

  /** For a vertex u ranked p, other than the root: a walk from u to the
      root, its first step k across to the vertices ranked above p, and a
      slot j holding the edge of that step, which is not an agreeing slot. */
  lemma Crossing(m: Matrix, n: nat, parent: seq<int>, slots: seq<int>, pos: seq<int>, e: seq<Edge>,
                 p: int, u: int) returns (w: seq<int>, k: int, j: int)
    requires Square(m, n) && GreedyTree(m, n, parent, slots, pos)
    requires |e| == n && Spans(e, n) && Agrees(n, parent, pos, e, p)
    requires 0 < u < n && pos[u] == p
    ensures Walk(e, n, w) && w[0] == u && 0 <= k < |w| - 1
    ensures pos[w[k + 1]] > p && forall h :: 0 <= h <= k ==> pos[w[h]] <= p
    ensures 1 <= j < n && (j == u || pos[j] < p) && (e[j] == (w[k], w[k + 1]) || e[j] == (w[k + 1], w[k]))
  {
    RootFirst(m, n, parent, slots, pos, u);
    assert Attached(e, n, u);
    w :| Walk(e, n, w) && w[0] == u && w[|w| - 1] == 0;
    k := FirstExit(n, pos, w, p);
    assert Links(e, w[k], w[k + 1]);
    j :| 1 <= j < |e| && (e[j] == (w[k], w[k + 1]) || e[j] == (w[k + 1], w[k]));
    assert pos[j] <= p;
    assert j != u ==> pos[j] != pos[u];
  }

  /** The list after the exchange at u, whose edge displaces the one in
      slot j. */
  lemma Swapped(e: seq<Edge>, n: nat, j: int, u: int, pe: Edge) returns (e': seq<Edge>)
    requires |e| == n && 1 <= j < n && 1 <= u < n
    ensures |e'| == n && e'[u] == pe && (u != j ==> e'[j] == e[u])
    ensures forall i :: 0 <= i < n && i != j && i != u ==> e'[i] == e[i]
  {
    e' := if j == u then e[u := pe] else e[j := e[u]][u := pe];
  }

  /** The exchange keeps an edge list and makes slot u agree. */
  lemma SwapAgrees(m: Matrix, n: nat, parent: seq<int>, slots: seq<int>, pos: seq<int>, e: seq<Edge>,
                   e': seq<Edge>, j: int, u: int, p: int)
    requires Square(m, n) && EdgeList(m, n, e) && |parent| == n && IsInverse(slots, pos, n) && |e'| == n
    requires 1 <= j < n && 1 <= u < n && pos[u] == p && (j == u || pos[j] < p) && 0 <= parent[u] < n && m[parent[u]][u] > 0
    requires Agrees(n, parent, pos, e, p)
    requires e'[u] == (parent[u], u) && (u != j ==> e'[j] == e[u])
    requires forall i :: 0 <= i < n && i != j && i != u ==> e'[i] == e[i]
    ensures EdgeList(m, n, e') && Agrees(n, parent, pos, e', p - 1)
  {
    forall v | 0 < v < n && pos[v] > p - 1 ensures e'[v] == (parent[v], v) {
      if v != u {
        assert slots[pos[v]] == v;
      }
    }
  }

  /** The edge thrown out crosses from the vertices extracted before u to
      the others, so it weighs at least u's key: the list gets no heavier. */
  lemma SwapWeight(m: Matrix, n: nat, parent: seq<int>, slots: seq<int>, pos: seq<int>,
                   e: seq<Edge>, e': seq<Edge>, j: int, u: int, x: int, y: int)
    requires Square(m, n) && Symmetric(m, n) && GreedyTree(m, n, parent, slots, pos)
    requires EdgeList(m, n, e) && EdgeList(m, n, e') && 1 <= j < n && 1 <= u < n
    requires e'[u] == (parent[u], u) && (u != j ==> e'[j] == e[u])
    requires forall i :: 0 <= i < n && i != j && i != u ==> e'[i] == e[i]
    requires (e[j] == (x, y) || e[j] == (y, x)) && 0 <= x < n && 0 <= y < n
    requires pos[y] > pos[u] && pos[x] <= pos[u]
    ensures Sum(ListWeights(m, n, e')) <= Sum(ListWeights(m, n, e))
  {
    var ws, ws' := ListWeights(m, n, e), ListWeights(m, n, e');
    assert ws[j] == m[y][x];
    ExchangeWeights(ws, ws', j, u, m[parent[u]][u]);
  }

  /** The exchange keeps every vertex joined to the root. */
  lemma SwapSpans(m: Matrix, n: nat, parent: seq<int>, slots: seq<int>, pos: seq<int>,
                  e: seq<Edge>, e': seq<Edge>, j: int, u: int, w: seq<int>, k: int, p: int)
    requires Square(m, n) && GreedyTree(m, n, parent, slots, pos)
    requires |e| == n && Spans(e, n) && |e'| == n && Agrees(n, parent, pos, e', p - 1)
    requires 1 <= j < n && 1 <= u < n && pos[u] == p
    requires u != j ==> e'[j] == e[u]
    requires forall i :: 0 <= i < n && i != j && i != u ==> e'[i] == e[i]
    requires Walk(e, n, w) && w[0] == u && 0 <= k < |w| - 1
    requires pos[w[k + 1]] > p && forall h :: 0 <= h <= k ==> pos[w[h]] <= p
    requires e[j] == (w[k], w[k + 1]) || e[j] == (w[k + 1], w[k])
    ensures Spans(e', n)
  {
    ChainAttached(m, n, parent, slots, pos, e', p - 1, w[k + 1]);
    ChainAttached(m, n, parent, slots, pos, e', p - 1, u);
    PrefixAttached(n, pos, e, e', j, u, w, p, k);
    forall z | 0 <= z < n ensures Attached(e', n, z) {
      assert Attached(e, n, z);
      var wz :| Walk(e, n, wz) && wz[0] == z && wz[|wz| - 1] == 0;
      SuffixAttached(n, e, e', j, u, wz, 0);
    }
  }

  /** The step for the vertex in slot p: afterwards the slots of the
      vertices ranked at or above p hold their parent edges, every vertex is
      still joined to the root, and the list is no heavier. */
  lemma Exchange(m: Matrix, n: nat, parent: seq<int>, slots: seq<int>, pos: seq<int>, e: seq<Edge>, p: int)
    returns (e': seq<Edge>)
    requires Square(m, n) && Symmetric(m, n) && GreedyTree(m, n, parent, slots, pos)
    requires EdgeList(m, n, e) && Spans(e, n) && 0 <= p < n && Agrees(n, parent, pos, e, p)
    ensures EdgeList(m, n, e') && Spans(e', n) && Agrees(n, parent, pos, e', p - 1)
    ensures Sum(ListWeights(m, n, e')) <= Sum(ListWeights(m, n, e))
  {
    var u := slots[p];
    if u == 0 {
      return e;
    }
    var w, k, j := Crossing(m, n, parent, slots, pos, e, p, u);
    e' := Swapped(e, n, j, u, (parent[u], u));
    SwapAgrees(m, n, parent, slots, pos, e, e', j, u, p);
    SwapWeight(m, n, parent, slots, pos, e, e', j, u, w[k], w[k + 1]);
    SwapSpans(m, n, parent, slots, pos, e, e', j, u, w, k, p);
  }

  /** Exchanging for every vertex ranked at or below p ends at the greedy
      tree, no heavier than the list it started from. */
  lemma {:induction false} ExchangeAll(m: Matrix, n: nat, parent: seq<int>, slots: seq<int>, pos: seq<int>,
                                       e: seq<Edge>, p: int)
    requires Square(m, n) && Symmetric(m, n) && GreedyTree(m, n, parent, slots, pos)
    requires EdgeList(m, n, e) && Spans(e, n) && -1 <= p < n && Agrees(n, parent, pos, e, p)
    ensures TreeWeight(m, n, parent) <= Sum(ListWeights(m, n, e))
    decreases p + 1
  {
    if p == -1 {
      assert ListWeights(m, n, e) == ParentEdgeWeights(m, n, parent);
    } else {
      var e' := Exchange(m, n, parent, slots, pos, e, p);
      ExchangeAll(m, n, parent, slots, pos, e', p - 1);
    }
  }

  /** The edges of a parent tree join every vertex to the root. */
  lemma {:induction false} TreeAttached(n: nat, t: seq<int>, e: seq<Edge>, v: int, fuel: nat)
    requires |t| == n && |e| == n && 0 <= v < n && ReachesRoot(t, v, fuel)
    requires forall x :: 0 < x < n ==> e[x] == (t[x], x)
    ensures Attached(e, n, v)
    decreases fuel
  {
    if v == 0 {
      assert Walk(e, n, [0]);
    } else {
      TreeAttached(n, t, e, t[v], fuel - 1);
      assert Links(e, v, t[v]) by {
        assert e[v] == (t[v], v);
      }
      AttachedStep(e, n, v, t[v]);
    }
  }

  /** The greedy tree weighs no more than any spanning tree. */
  lemma GreedyTreeIsMinimum(m: Matrix, n: nat, parent: seq<int>, slots: seq<int>, pos: seq<int>)
    requires Square(m, n) && Symmetric(m, n) && GreedyTree(m, n, parent, slots, pos)
    requires forall v :: 0 <= v < n ==> ReachesRoot(parent, v, n)
    ensures MinimumTree(m, n, parent)
  {
    forall t | ParentTree(m, n, t) ensures TreeWeight(m, n, parent) <= TreeWeight(m, n, t) {
      var e := seq(n, v requires 0 <= v < n => (t[v], v));
      forall v | 0 <= v < n ensures Attached(e, n, v) {
        TreeAttached(n, t, e, v, n);
      }
      assert ListWeights(m, n, e) == ParentEdgeWeights(m, n, t);
      ExchangeAll(m, n, parent, slots, pos, e, n - 1);
    }
  }
}
