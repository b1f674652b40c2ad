/**
 * The state of one run of prim (prim2.c:120-171) as values: the heap array
 * and positions, the active size, and the vertex records by name. The
 * invariant of the main loop is stated on these values, and each step of the
 * loop (an extraction, one relaxation) is proved to keep it; the class in
 * PrimEngine performs the steps in place and calls these lemmas.
 */
module PrimInvariant {
  import opened GraphModel
  import opened MinHeap
  import opened Trees
  import opened Optimality

  /** The run at one moment: heap->vertex (as names), heap->pos,
      heap->size, and sort_key, key, inMST and parent of each record
      (parent -1 for NULL). */
  datatype Run = Run(slots: seq<int>, pos: seq<int>, size: int, sortKey: seq<int>,
                     key: seq<int>, inMST: seq<bool>, parent: seq<int>)

  ghost predicate Sized(n: nat, r: Run)
  {
    && |r.sortKey| == n && |r.key| == n && |r.inMST| == n && |r.parent| == n
    && 0 <= r.size <= n && IsInverse(r.slots, r.pos, n)
  }

  /** A vertex is in the tree exactly when it has left the heap, except the
      root, marked from the start. */
  ghost predicate InTree(n: nat, r: Run)
    requires Sized(n, r)
  {
    forall v :: 0 <= v < n ==> (r.inMST[v] <==> v == 0 || r.pos[v] >= r.size)
  }

  /** The heap orders the vertices still in it by their key. */
  ghost predicate HeapKeys(n: nat, r: Run)
    requires Sized(n, r)
  {
    forall v :: 0 <= v < n && r.pos[v] < r.size ==> r.sortKey[v] == r.key[v]
  }

  /** The root has key 0 and no parent, and is the first to leave. */
  ghost predicate Rooted(n: nat, r: Run)
    requires Sized(n, r)
  {
    && n >= 1 && r.key[0] == 0 && r.parent[0] == -1
    && (r.size < n ==> r.pos[0] >= r.size)
  }

  /** A non-root vertex has no parent and key INT_MAX, or a parent that
      left the heap before it, joined to it by a usable edge whose weight is
      its key. */
  ghost predicate Linked(m: Matrix, n: nat, r: Run, v: int)
    requires Square(m, n) && Sized(n, r) && 0 <= v < n
  {
    || (r.parent[v] == -1 && r.key[v] == INT_MAX)
    || (&& 0 <= r.parent[v] < n && r.pos[r.parent[v]] >= r.size
        && r.pos[r.parent[v]] > r.pos[v]
        && r.key[v] == m[r.parent[v]][v] && 0 < r.key[v] < INT_MAX)
  }

  ghost predicate ParentLinks(m: Matrix, n: nat, r: Run)
    requires Square(m, n) && Sized(n, r)
  {
    forall v :: 0 < v < n ==> Linked(m, n, r, v)
  }

  /** The greedy choice: when u left the heap, its key was at most the
      weight of every edge from a vertex that left before it to one that had
      not. Positions at or past size record the order of extraction: a
      larger position is an earlier extraction. */
  ghost predicate Greedy(m: Matrix, n: nat, r: Run)
    requires Square(m, n) && Sized(n, r)
  {
    forall u, a, b ::
      (&& 0 <= u < n && 0 <= a < n && 0 <= b < n && r.pos[u] >= r.size
       && r.pos[a] > r.pos[u] && r.pos[b] <= r.pos[u] && m[a][b] > 0) ==> r.key[u] <= m[a][b]
  }

  ghost predicate RunInv(m: Matrix, n: nat, r: Run)
  {
    && Square(m, n) && Sized(n, r)
    && InTree(n, r) && HeapKeys(n, r) && Rooted(n, r) && ParentLinks(m, n, r) && Greedy(m, n, r)
  }

  /** The key of a vertex in the heap is at most the weight of any edge to
      it from a vertex out of the heap, except the edges from skip to the
      vertices from upTo on, which the relaxation loop has not reached. */
  ghost predicate KeysBelowCut(m: Matrix, n: nat, r: Run, skip: int, upTo: int)
    requires Square(m, n) && Sized(n, r)
  {
    forall a, b ::
      (&& 0 <= a < n && 0 <= b < n && r.pos[a] >= r.size && r.pos[b] < r.size
       && m[a][b] > 0 && !(a == skip && b >= upTo)) ==> r.key[b] <= m[a][b]
  }

  /** The ghost ledgers behind total_weight: by vertex, the key of each
      extracted vertex (0 for the others); by time, the keys in the order the
      vertices were extracted. */
  ghost predicate Ledger(n: nat, r: Run, contrib: seq<int>, trail: seq<int>)
    requires Sized(n, r)
  {
    && |contrib| == n
    && (forall v :: 0 <= v < n ==> contrib[v] == if r.pos[v] >= r.size then r.key[v] else 0)
    && |trail| == n - r.size
    && (forall j :: 0 <= j < |trail| ==> trail[j] == r.key[r.slots[n - 1 - j]])
  }

  /** Evidence for the -1 result: once a non-root vertex w leaves the heap
      without a parent, the set s of vertices that left before it contains
      the root, misses w, and no usable edge leaves it. */
  ghost predicate CutWitness(m: Matrix, n: nat, r: Run, cut: Option<(set<int>, int)>)
    requires Square(m, n) && Sized(n, r)
  {
    match cut
    case None => forall v :: 0 < v < n && r.pos[v] >= r.size ==> r.parent[v] != -1
    case Some((s, w)) =>
      && 0 in s && 0 < w < n && w !in s && r.parent[w] == -1 && r.pos[w] >= r.size
      && Closed(m, n, s)
  }

  // ---------------------------------------------------------------------------
  // Seeding

  /** The run after the seeding loop of lines 128-142: slot i holds vertex
      i, all in the heap; the root has keys 0, is marked in the tree and has
      no parent; every other vertex has keys INT_MAX, no mark and no parent. */
  ghost predicate Seeded(n: nat, r: Run)
  {
    && |r.slots| == n && |r.pos| == n && |r.sortKey| == n && |r.key| == n
    && |r.inMST| == n && |r.parent| == n && r.size == n && n >= 1
    && (forall v :: 0 <= v < n ==> r.slots[v] == v && r.pos[v] == v && r.parent[v] == -1)
    && (forall v :: 0 <= v < n ==> r.inMST[v] == (v == 0))
    && (forall v :: 0 <= v < n ==> r.key[v] == r.sortKey[v] == if v == 0 then 0 else INT_MAX)
  }

  /** The seeded records satisfy the loop invariant, with nothing added to
      total_weight yet and nothing extracted. */
  lemma SeedInvariant(m: Matrix, n: nat, r: Run, zeros: seq<int>)
    requires Square(m, n) && Seeded(n, r)
    requires |zeros| == n && forall v :: 0 <= v < n ==> zeros[v] == 0
    ensures Good(m, n, r, None, zeros, [], 0) && KeysBelowCut(m, n, r, -1, 0) && Order(n, r, [])
  {
    ZeroSum(zeros);
  }

  lemma {:induction false} ZeroSum(s: seq<int>)
    requires forall i :: 0 <= i < |s| ==> s[i] == 0
    ensures Sum(s) == 0
    decreases |s|
  {
    if s != [] {
      ZeroSum(s[..|s| - 1]);
    }
  }

  // ---------------------------------------------------------------------------
  // Extraction (lines 147-150)

  /** What extractMin does to the run, as IndexedHeap.ExtractMin promises,
      and the inMST mark of line 149. */
  ghost predicate ExtractStep(n: nat, r: Run, r': Run, u: int)
  {
    && Sized(n, r) && Sized(n, r')
    && 0 <= u < n && r.pos[u] < r.size && r'.size == r.size - 1 && r'.pos[u] == r'.size
    && (forall x :: 0 <= x < n && r.pos[x] < r.size ==> r.sortKey[u] <= r.sortKey[x])
    && (forall x :: 0 <= x < n ==> (r'.pos[x] >= r'.size <==> x == u || r.pos[x] >= r.size))
    && (forall x :: 0 <= x < n && r.pos[x] >= r.size ==> r'.pos[x] == r.pos[x])
    && r'.slots[r.size..] == r.slots[r.size..]
    && r'.sortKey == r.sortKey[u := INT_MAX]
    && r'.key == r.key && r'.parent == r.parent && r'.inMST == r.inMST[u := true]
  }

  /** The extracted vertex has a minimum key among those in the heap; it is
      the root on the first round and never the root afterwards. */
  lemma ExtractedIsMinimum(m: Matrix, n: nat, r: Run, r': Run, u: int)
    requires RunInv(m, n, r) && ExtractStep(n, r, r', u)
    ensures forall x :: 0 <= x < n && r.pos[x] < r.size ==> r.key[u] <= r.key[x]
    ensures u != 0 ==> r.pos[0] >= r.size
  {
    if u != 0 {
      assert Linked(m, n, r, u);
    }
  }

  lemma ExtractKeepsRecords(m: Matrix, n: nat, r: Run, r': Run, u: int)
    requires RunInv(m, n, r) && ExtractStep(n, r, r', u)
    requires forall x :: 0 <= x < n && r.pos[x] < r.size ==> r.key[u] <= r.key[x]
    requires u != 0 ==> r.pos[0] >= r.size
    ensures InTree(n, r') && HeapKeys(n, r') && Rooted(n, r') && ParentLinks(m, n, r')
  {
    forall v | 0 < v < n ensures Linked(m, n, r', v) {
      assert Linked(m, n, r, v);
    }
  }

  lemma ExtractKeepsCut(m: Matrix, n: nat, r: Run, r': Run, u: int)
    requires RunInv(m, n, r) && KeysBelowCut(m, n, r, -1, 0) && ExtractStep(n, r, r', u)
    requires forall x :: 0 <= x < n && r.pos[x] < r.size ==> r.key[u] <= r.key[x]
    ensures KeysBelowCut(m, n, r', u, 0) && Greedy(m, n, r')
  {
    forall u0, a, b | 0 <= u0 < n && 0 <= a < n && 0 <= b < n && r'.pos[u0] >= r'.size
      && r'.pos[a] > r'.pos[u0] && r'.pos[b] <= r'.pos[u0] && m[a][b] > 0
      ensures r'.key[u0] <= m[a][b]
    {
      if u0 == u {
        assert r.pos[a] >= r.size;
        assert b == u || r.pos[b] < r.size;
      } else {
        assert r.pos[u0] >= r.size && r'.pos[u0] == r.pos[u0];
        assert r'.pos[a] == r.pos[a];
        assert r.pos[b] <= r.pos[u0];
      }
    }
  }

  /** The next cut witness: recorded at the first non-root vertex that
      leaves the heap without a parent. */
  ghost function NextCut(n: nat, r: Run, u: int, cut: Option<(set<int>, int)>): Option<(set<int>, int)>
    requires Sized(n, r) && 0 <= u < n
  {
    if cut.None? && u != 0 && r.parent[u] == -1 then Some(((set x | 0 <= x < n && r.pos[x] >= r.size), u))
    else cut
  }

  lemma ExtractKeepsWitness(m: Matrix, n: nat, r: Run, r': Run, u: int, cut: Option<(set<int>, int)>)
    requires RunInv(m, n, r) && KeysBelowCut(m, n, r, -1, 0) && ExtractStep(n, r, r', u)
    requires CutWitness(m, n, r, cut)
    requires forall x :: 0 <= x < n && r.pos[x] < r.size ==> r.key[u] <= r.key[x]
    requires u != 0 ==> r.pos[0] >= r.size
    ensures CutWitness(m, n, r', NextCut(n, r, u, cut))
  {
    if cut.None? && u != 0 && r.parent[u] == -1 {
      var s := set x | 0 <= x < n && r.pos[x] >= r.size;
      assert Linked(m, n, r, u);
      forall a, b | 0 <= a < n && 0 <= b < n && a in s && b !in s
        ensures !Usable(m, n, a, b)
      {
        if m[a][b] > 0 {
          assert r.key[u] <= r.key[b] <= m[a][b];
        }
      }
    }
  }

  lemma ExtractKeepsLedger(n: nat, r: Run, r': Run, u: int, contrib: seq<int>, trail: seq<int>)
    requires ExtractStep(n, r, r', u) && Ledger(n, r, contrib, trail)
    ensures Ledger(n, r', contrib[u := r.key[u]], trail + [r.key[u]])
    ensures contrib[u] == 0
  {
    assert r'.slots[r'.size] == u;
    SuffixSlots(n, r, r');
  }

  // ---------------------------------------------------------------------------
  // Relaxation (lines 152-159)

  /** The test of line 154 on the run r: v is still in the heap and the edge
      from u to it is present and lighter than its key. */
  ghost predicate Improves(m: Matrix, n: nat, r: Run, u: int, v: int)
    requires Square(m, n) && Sized(n, r) && 0 <= u < n && 0 <= v < n
  {
    !r.inMST[v] && r.pos[v] < r.size && m[u][v] > 0 && m[u][v] < r.key[v]
  }

  /** One pass of the inner loop for vertex v, as Relax performs it. */
  ghost predicate RelaxStep(m: Matrix, n: nat, r: Run, r': Run, u: int, v: int)
    requires Square(m, n)
  {
    && Sized(n, r) && Sized(n, r') && 0 <= u < n && 0 <= v < n
    && r'.size == r.size && r'.inMST == r.inMST
    && r'.slots[r.size..] == r.slots[r.size..]
    && (forall x :: 0 <= x < n ==> (r'.pos[x] >= r'.size <==> r.pos[x] >= r.size))
    && (forall x :: 0 <= x < n && r.pos[x] >= r.size ==> r'.pos[x] == r.pos[x])
    && if Improves(m, n, r, u, v) then
         && r'.parent == r.parent[v := u] && r'.key == r.key[v := m[u][v]]
         && r'.sortKey == r.sortKey[v := m[u][v]]
       else
         r'.parent == r.parent && r'.key == r.key && r'.sortKey == r.sortKey
  }

  lemma RelaxKeepsRecords(m: Matrix, n: nat, r: Run, r': Run, u: int, v: int)
    requires RunInv(m, n, r) && RelaxStep(m, n, r, r', u, v) && r.pos[u] >= r.size
    ensures InTree(n, r') && HeapKeys(n, r') && Rooted(n, r') && ParentLinks(m, n, r')
  {
    forall x | 0 < x < n ensures Linked(m, n, r', x) {
      assert Linked(m, n, r, x);
    }
  }

  lemma RelaxKeepsCut(m: Matrix, n: nat, r: Run, r': Run, u: int, v: int)
    requires RunInv(m, n, r) && RelaxStep(m, n, r, r', u, v)
    requires KeysBelowCut(m, n, r, u, v) && r.pos[u] >= r.size
    ensures KeysBelowCut(m, n, r', u, v + 1) && Greedy(m, n, r')
  {
    forall u0, a, b | 0 <= u0 < n && 0 <= a < n && 0 <= b < n && r'.pos[u0] >= r'.size
      && r'.pos[a] > r'.pos[u0] && r'.pos[b] <= r'.pos[u0] && m[a][b] > 0
      ensures r'.key[u0] <= m[a][b]
    {
      assert r.pos[b] <= r.pos[u0];
    }
  }

  lemma RelaxKeepsWitness(m: Matrix, n: nat, r: Run, r': Run, u: int, v: int, cut: Option<(set<int>, int)>)
    requires RunInv(m, n, r) && RelaxStep(m, n, r, r', u, v) && CutWitness(m, n, r, cut)
    ensures CutWitness(m, n, r', cut)
  {
    if Improves(m, n, r, u, v) {
      assert forall x :: 0 <= x < n && x != v ==> r'.parent[x] == r.parent[x];
    }
  }

  lemma RelaxKeepsLedger(m: Matrix, n: nat, r: Run, r': Run, u: int, v: int, contrib: seq<int>, trail: seq<int>)
    requires RunInv(m, n, r) && RelaxStep(m, n, r, r', u, v) && Ledger(n, r, contrib, trail)
    ensures Ledger(n, r', contrib, trail)
  {
    SuffixSlots(n, r, r');
    if Improves(m, n, r, u, v) {
      assert forall x :: 0 <= x < n && x != v ==> r'.key[x] == r.key[x];
    }
  }

  /** Slots from the old size on are the same in both runs. */
  lemma SuffixSlots(n: nat, r: Run, r': Run)
    requires Sized(n, r) && Sized(n, r') && r'.slots[r.size..] == r.slots[r.size..]
    ensures forall k :: r.size <= k < n ==> r'.slots[k] == r.slots[k]
  {
    forall k | r.size <= k < n ensures r'.slots[k] == r.slots[k] {
      assert r'.slots[r.size..][k - r.size] == r.slots[r.size..][k - r.size];
    }
  }

  /** After the inner loop has run over the vertices below upTo, starting
      from r0: the heap keeps its size, its extracted slots and which
      vertices are in it; the vertices below upTo that the test of line 154
      accepted on r0 have u as parent and the edge weight as key, and every
      other record keeps its parent and key. */
  ghost predicate RelaxedUpTo(m: Matrix, n: nat, r0: Run, r: Run, u: int, upTo: int)
    requires Square(m, n)
  {
    && Sized(n, r0) && Sized(n, r) && 0 <= u < n
    && r.size == r0.size && r.inMST == r0.inMST
    && r.slots[r.size..] == r0.slots[r.size..]
    && (forall x :: 0 <= x < n ==> (r.pos[x] >= r.size <==> r0.pos[x] >= r0.size))
    && (forall x :: 0 <= x < n ==>
          if x < upTo && Improves(m, n, r0, u, x) then r.parent[x] == u && r.key[x] == m[u][x]
          else r.parent[x] == r0.parent[x] && r.key[x] == r0.key[x])
  }

  lemma RelaxedNothing(m: Matrix, n: nat, r: Run, u: int)
    requires Square(m, n) && Sized(n, r) && 0 <= u < n
    ensures RelaxedUpTo(m, n, r, r, u, 0)
  {
  }

  /** The test on v sees the record of v as it was before the loop, since
      the earlier passes only touched their own vertices. */
  lemma RelaxedOneMore(m: Matrix, n: nat, r0: Run, r: Run, r': Run, u: int, v: int)
    requires Square(m, n) && RelaxedUpTo(m, n, r0, r, u, v) && RelaxStep(m, n, r, r', u, v)
    ensures RelaxedUpTo(m, n, r0, r', u, v + 1)
  {
    assert Improves(m, n, r, u, v) == Improves(m, n, r0, u, v);
    SuffixSlots(n, r, r');
    SuffixSlots(n, r0, r);
    assert r'.slots[r'.size..] == r0.slots[r'.size..];
  }

  // ---------------------------------------------------------------------------
  // The whole invariant and the two steps

  /** The invariant of the run together with its ledgers and cut witness,
      and total_weight equal to both sums. */
  ghost predicate Good(m: Matrix, n: nat, r: Run, cut: Option<(set<int>, int)>,
                       contrib: seq<int>, trail: seq<int>, total: int)
  {
    && RunInv(m, n, r) && CutWitness(m, n, r, cut) && Ledger(n, r, contrib, trail)
    && total == Sum(contrib) && total == Sum(trail)
  }

  /** Lines 147-150 keep the invariant: the extracted key is added to the
      total, and the keys of the remaining vertices are bounded by every
      edge from the tree except those from u, not yet relaxed. */
  lemma SettleKeeps(m: Matrix, n: nat, r: Run, r': Run, u: int, cut: Option<(set<int>, int)>,
                    contrib: seq<int>, trail: seq<int>, total: int)
    requires Good(m, n, r, cut, contrib, trail, total) && KeysBelowCut(m, n, r, -1, 0)
    requires ExtractStep(n, r, r', u)
    ensures Good(m, n, r', NextCut(n, r, u, cut), contrib[u := r.key[u]], trail + [r.key[u]], total + r.key[u])
    ensures KeysBelowCut(m, n, r', u, 0) && r'.pos[u] >= r'.size
  {
    ExtractedIsMinimum(m, n, r, r', u);
    ExtractKeepsRecords(m, n, r, r', u);
    ExtractKeepsCut(m, n, r, r', u);
    ExtractKeepsWitness(m, n, r, r', u, cut);
    ExtractKeepsLedger(n, r, r', u, contrib, trail);
    SumUpdate(contrib, u, r.key[u]);
    AppendSum(trail, r.key[u]);
  }

  /** One pass of lines 153-159 keeps the invariant and extends the bound
      on keys to the edge from u to v. */
  lemma RelaxKeeps(m: Matrix, n: nat, r: Run, r': Run, u: int, v: int, cut: Option<(set<int>, int)>,
                   contrib: seq<int>, trail: seq<int>, total: int)
    requires Good(m, n, r, cut, contrib, trail, total) && RelaxStep(m, n, r, r', u, v)
    requires KeysBelowCut(m, n, r, u, v) && r.pos[u] >= r.size
    ensures Good(m, n, r', cut, contrib, trail, total)
    ensures KeysBelowCut(m, n, r', u, v + 1) && r'.pos[u] >= r'.size
  {
    RelaxKeepsRecords(m, n, r, r', u, v);
    RelaxKeepsCut(m, n, r, r', u, v);
    RelaxKeepsWitness(m, n, r, r', u, v, cut);
    RelaxKeepsLedger(m, n, r, r', u, v, contrib, trail);
  }

  // ---------------------------------------------------------------------------
  // The order of extraction

  /** order lists the vertices in the order they left the heap: each one is
      parked in the last active slot, so the j-th is at slot n-1-j. */
  ghost predicate Order(n: nat, r: Run, order: seq<int>)
    requires Sized(n, r)
  {
    && |order| == n - r.size
    && forall j :: 0 <= j < |order| ==> order[j] == r.slots[n - 1 - j]
  }

  /** One round of the loop appends the extracted vertex. */
  lemma RoundKeepsOrder(m: Matrix, n: nat, r0: Run, r1: Run, r2: Run, u: int, order: seq<int>)
    requires Square(m, n) && ExtractStep(n, r0, r1, u) && RelaxedUpTo(m, n, r1, r2, u, n)
    requires Order(n, r0, order)
    ensures Order(n, r2, order + [u])
  {
    SuffixSlots(n, r0, r1);
    SuffixSlots(n, r1, r2);
    assert r1.slots[r1.size] == u;
  }

  /** Every vertex is extracted exactly once. */
  ghost predicate IsExtractionOrder(n: nat, order: seq<int>)
  {
    && |order| == n
    && (forall j :: 0 <= j < n ==> 0 <= order[j] < n)
    && (forall i, j :: 0 <= i < j < n ==> order[i] != order[j])
    && (forall v :: 0 <= v < n ==> v in order)
  }

  lemma FinishedOrder(m: Matrix, n: nat, r: Run, order: seq<int>)
    requires Sized(n, r) && r.size == 0 && Order(n, r, order)
    ensures IsExtractionOrder(n, order)
  {
    forall i, j | 0 <= i < j < n ensures order[i] != order[j] {
      assert r.pos[order[i]] == n - 1 - i && r.pos[order[j]] == n - 1 - j;
    }
    forall v | 0 <= v < n ensures v in order {
      assert order[n - 1 - r.pos[v]] == v;
    }
  }

  /** What one round of the loop does with the vertex u it extracts: u was
      in the heap with a least key, and after the round it sits in the slot
      just past the shrunken heap with that key unchanged. */
  ghost predicate RoundOf(n: nat, r: Run, r': Run, u: int)
  {
    && Sized(n, r) && Sized(n, r') && 0 <= u < n
    && r.pos[u] < r.size && r'.size == r.size - 1
    && (forall x :: 0 <= x < n && r.pos[x] < r.size ==> r.key[u] <= r.key[x])
    && r'.slots[r'.size] == u && r'.key[u] == r.key[u]
  }

  /** An extraction followed by the relaxations against u is a round that
      extracts a vertex of least key, which the relaxations leave alone. */
  lemma RoundExtracts(m: Matrix, n: nat, r0: Run, r1: Run, r2: Run, u: int)
    requires RunInv(m, n, r0) && ExtractStep(n, r0, r1, u) && RelaxedUpTo(m, n, r1, r2, u, n)
    ensures RoundOf(n, r0, r2, u)
  {
    ExtractedIsMinimum(m, n, r0, r1, u);
    SuffixSlots(n, r1, r2);
    assert r1.slots[r1.size] == u;
    assert !Improves(m, n, r1, u, u);
  }

  /** The order in which a tree was grown: each vertex but the root joins
      through its parent, which left the heap before it. */
  ghost predicate GrownInOrder(n: nat, tree: seq<int>, order: seq<int>)
  {
    && |tree| == n && |order| == n
    && forall j :: 0 <= j < n && 0 <= order[j] < n && order[j] != 0 ==> tree[order[j]] in order[..j]
  }

  /** The amounts added to total_weight, in the order of extraction: the
      weight of the edge joining each extracted vertex to its parent, 0 for
      a vertex without one. */
  ghost function ExtractedWeights(m: Matrix, n: nat, tree: seq<int>, order: seq<int>): (w: seq<int>)
    requires Square(m, n)
    ensures |w| == |order|
    ensures forall j :: 0 <= j < |order| && 0 <= order[j] < n && order[j] < |tree| && 0 <= tree[order[j]] < n ==>
      w[j] == m[tree[order[j]]][order[j]]
  {
    seq(|order|, j requires 0 <= j < |order| =>
      if 0 <= order[j] < n && order[j] < |tree| && 0 <= tree[order[j]] < n then m[tree[order[j]]][order[j]] else 0)
  }

  /** When the heap is empty and every vertex but the root has a parent,
      the vertices were extracted parent first, and total_weight is the sum,
      in the order of extraction, of the parent-edge weights. */
  lemma FinishedGrowth(m: Matrix, n: nat, r: Run, cut: Option<(set<int>, int)>, contrib: seq<int>,
                       trail: seq<int>, total: int, order: seq<int>)
    requires Good(m, n, r, cut, contrib, trail, total) && r.size == 0 && Order(n, r, order)
    requires HasParents(n, r.parent)
    ensures GrownInOrder(n, r.parent, order)
    ensures total == Sum(ExtractedWeights(m, n, r.parent, order))
  {
    ParentsFirst(m, n, r, order);
    TrailWeights(m, n, r, contrib, trail, order);
  }

  /** Parents leave the heap before their children. */
  lemma ParentsFirst(m: Matrix, n: nat, r: Run, order: seq<int>)
    requires Square(m, n) && Sized(n, r) && r.size == 0 && ParentLinks(m, n, r)
    requires HasParents(n, r.parent) && Order(n, r, order)
    ensures GrownInOrder(n, r.parent, order)
  {
    forall j | 0 <= j < n && 0 <= order[j] < n && order[j] != 0 ensures r.parent[order[j]] in order[..j] {
      var v := order[j];
      assert Linked(m, n, r, v);
      var p := r.parent[v];
      assert r.pos[v] == n - 1 - j;
      var i := n - 1 - r.pos[p];
      assert order[i] == p;
      assert order[..j][i] == p;
    }
  }

  /** The ledger by time holds the parent-edge weights in the order of
      extraction. */
  lemma TrailWeights(m: Matrix, n: nat, r: Run, contrib: seq<int>, trail: seq<int>, order: seq<int>)
    requires Square(m, n) && Sized(n, r) && r.size == 0 && Rooted(n, r) && ParentLinks(m, n, r)
    requires HasParents(n, r.parent) && Order(n, r, order) && Ledger(n, r, contrib, trail)
    ensures trail == ExtractedWeights(m, n, r.parent, order)
  {
    var w := ExtractedWeights(m, n, r.parent, order);
    forall j | 0 <= j < n ensures trail[j] == w[j] {
      var v := order[j];
      if v != 0 {
        assert Linked(m, n, r, v);
      }
    }
  }

  // ---------------------------------------------------------------------------
  // The end of the loop (lines 163-170)

  /** The part of the invariant that speaks about the end of the run. */
  ghost predicate Settled(m: Matrix, n: nat, r: Run)
  {
    Square(m, n) && Sized(n, r) && r.size == 0 && Rooted(n, r) && ParentLinks(m, n, r)
  }

  /** With the heap empty and no cut recorded, the parent links form a
      spanning tree over usable edges and the graph is connected. */
  lemma FinishedTree(m: Matrix, n: nat, r: Run)
    requires Settled(m, n, r) && CutWitness(m, n, r, None)
    ensures ParentTree(m, n, r.parent)
    ensures forall v :: 0 < v < n ==> Usable(m, n, r.parent[v], v)
    ensures Connected(m, n)
  {
    forall v | 0 < v < n
      ensures 0 <= r.parent[v] < n && Usable(m, n, r.parent[v], v) && r.pos[r.parent[v]] > r.pos[v]
    {
      assert Linked(m, n, r, v);
    }
    forall v | 0 <= v < n ensures ReachesRoot(r.parent, v, n) {
      RankedParentsReachRoot(r.parent, r.pos, n, v, n);
    }
    ParentTreeConnects(m, n, r.parent);
  }

  /** Once every vertex has left the heap with a parent, the ledger by
      vertex holds the weights of the tree edges. */
  lemma FinishedLedger(m: Matrix, n: nat, r: Run, contrib: seq<int>, trail: seq<int>)
    requires Settled(m, n, r) && CutWitness(m, n, r, None) && Ledger(n, r, contrib, trail)
    requires forall v :: 0 < v < n ==> 0 <= r.parent[v] < n
    ensures contrib == ParentEdgeWeights(m, n, r.parent)
  {
    var w := ParentEdgeWeights(m, n, r.parent);
    forall v | 0 <= v < n ensures contrib[v] == w[v] {
      if v != 0 {
        assert Linked(m, n, r, v);
      }
    }
  }

  /** With the heap empty and no cut recorded, the parent links and heap
      positions are a greedy tree: each vertex's key is the weight of its
      parent edge and at most the weight of every edge that crossed the cut
      when it left the heap. */
  lemma FinishedGreedy(m: Matrix, n: nat, r: Run)
    requires Settled(m, n, r) && Greedy(m, n, r) && CutWitness(m, n, r, None)
    ensures GreedyTree(m, n, r.parent, r.slots, r.pos)
  {
    forall v | 0 < v < n
      ensures 0 <= r.parent[v] < n && r.pos[r.parent[v]] > r.pos[v] && r.key[v] == m[r.parent[v]][v] > 0
    {
      assert Linked(m, n, r, v);
    }
  }

  /** With the heap empty and no cut recorded, the parent links form a
      minimum spanning tree. */
  lemma FinishedMinimum(m: Matrix, n: nat, r: Run)
    requires Settled(m, n, r) && Symmetric(m, n) && Greedy(m, n, r) && CutWitness(m, n, r, None)
    ensures MinimumTree(m, n, r.parent)
  {
    FinishedTree(m, n, r);
    FinishedGreedy(m, n, r);
    GreedyTreeIsMinimum(m, n, r.parent, r.slots, r.pos);
  }

  /** A recorded cut shows the graph is not connected, and leaves a non-root
      vertex without a parent. */
  lemma FinishedCut(m: Matrix, n: nat, r: Run, s: set<int>, w: int)
    requires Square(m, n) && Sized(n, r) && CutWitness(m, n, r, Some((s, w)))
    ensures !Connected(m, n) && 0 < w < n && r.parent[w] == -1
  {
    ClosedSetDisconnects(m, n, s, w);
  }

  /** Every vertex but the root has a parent. */
  ghost predicate HasParents(n: nat, parent: seq<int>)
    requires |parent| == n
  {
    forall v :: 0 < v < n ==> parent[v] != -1
  }

  /** With no cut recorded, every vertex but the root has a parent, the
      graph is connected, and total_weight is the weight of the minimum
      spanning tree the parent links form. */
  lemma ConcludesTree(m: Matrix, n: nat, r: Run, contrib: seq<int>, trail: seq<int>, total: int)
    requires Settled(m, n, r) && CutWitness(m, n, r, None) && Ledger(n, r, contrib, trail)
    requires Symmetric(m, n) && Greedy(m, n, r) && total == Sum(contrib)
    requires forall v :: 0 <= v < n ==> r.parent[v] < n
    ensures HasParents(n, r.parent) && Connected(m, n) && MinimumTree(m, n, r.parent)
    ensures forall v :: 0 < v < n ==> Usable(m, n, r.parent[v], v)
    ensures total == TreeWeight(m, n, r.parent) && total >= 0
  {
    assert Connected(m, n) && forall v :: 0 < v < n ==> Usable(m, n, r.parent[v], v) by {
      FinishedTree(m, n, r);
    }
    assert HasParents(n, r.parent) by {
      assert forall v :: 0 < v < n ==> Linked(m, n, r, v);
    }
    assert MinimumTree(m, n, r.parent) by {
      FinishedMinimum(m, n, r);
    }
    LedgerTotal(m, n, r, contrib, trail, total);
  }

  /** total_weight, the sum of the keys of the extracted vertices, is the
      weight of the tree and not negative. */
  lemma LedgerTotal(m: Matrix, n: nat, r: Run, contrib: seq<int>, trail: seq<int>, total: int)
    requires Settled(m, n, r) && CutWitness(m, n, r, None) && Ledger(n, r, contrib, trail)
    requires total == Sum(contrib) && forall v :: 0 <= v < n ==> r.parent[v] < n
    ensures total == TreeWeight(m, n, r.parent) && total >= 0
  {
    forall v | 0 < v < n ensures 0 <= r.parent[v] < n && r.key[v] > 0 {
      assert Linked(m, n, r, v);
    }
    FinishedLedger(m, n, r, contrib, trail);
    SumNonNegative(contrib);
  }

  /** Lines 163-170: when the heap is empty, every vertex but the root has a
      parent exactly when the graph is connected, and then total_weight is
      the weight of the tree the parent links form, a minimum spanning
      tree. */
  lemma Concludes(m: Matrix, n: nat, r: Run, cut: Option<(set<int>, int)>,
                  contrib: seq<int>, trail: seq<int>, total: int)
    requires Settled(m, n, r) && CutWitness(m, n, r, cut) && Ledger(n, r, contrib, trail)
    requires Symmetric(m, n) && Greedy(m, n, r) && total == Sum(contrib)
    ensures forall v :: 0 <= v < n ==> r.parent[v] < n
    ensures HasParents(n, r.parent) <==> Connected(m, n)
    ensures Connected(m, n) ==>
      && MinimumTree(m, n, r.parent)
      && (forall v :: 0 < v < n ==> Usable(m, n, r.parent[v], v))
      && total == TreeWeight(m, n, r.parent) && total >= 0
  {
    forall v | 0 <= v < n ensures r.parent[v] < n {
      if v > 0 {
        assert Linked(m, n, r, v);
      }
    }
    if cut.Some? {
      FinishedCut(m, n, r, cut.value.0, cut.value.1);
    } else {
      ConcludesTree(m, n, r, contrib, trail, total);
    }
  }
}
