/**
 * What the result of prim is about: paths and connectivity over the edges
 * Prim can take, spanning trees given by a parent per vertex (the parent
 * links prim2.c leaves in its vertex records), and their weight.
 */
module Trees {
  import opened GraphModel

  /** An edge the relaxation of prim2.c can take: present, and lighter than
      the INT_MAX every key starts at (the test there is a strict <). */
  ghost predicate Usable(m: Matrix, n: nat, a: int, b: int)
    requires Square(m, n) && 0 <= a < n && 0 <= b < n
  {
    0 < m[a][b] < INT_MAX
  }

  /** A walk along usable edges. */
  ghost predicate IsPath(m: Matrix, n: nat, p: seq<int>)
    requires Square(m, n)
  {
    && |p| >= 1
    && (forall i :: 0 <= i < |p| ==> 0 <= p[i] < n)
    && (forall i :: 0 <= i < |p| - 1 ==> Usable(m, n, p[i], p[i + 1]))
  }

  /** Vertex v can be reached from the root, vertex 0. */
  ghost predicate Reaches(m: Matrix, n: nat, v: int)
    requires Square(m, n)
  {
    exists p :: IsPath(m, n, p) && p[0] == 0 && p[|p| - 1] == v
  }

  ghost predicate Connected(m: Matrix, n: nat)
    requires Square(m, n)
  {
    forall v :: 0 <= v < n ==> Reaches(m, n, v)
  }

  /** No usable edge leaves the set s. */
  ghost predicate Closed(m: Matrix, n: nat, s: set<int>)
    requires Square(m, n)
  {
    forall a, b :: 0 <= a < n && 0 <= b < n && a in s && b !in s ==> !Usable(m, n, a, b)
  }

  /** A path that starts in a closed set never leaves it. */
  lemma {:induction false} PathStaysInside(m: Matrix, n: nat, p: seq<int>, s: set<int>)
    requires Square(m, n) && IsPath(m, n, p) && Closed(m, n, s) && p[0] in s
    ensures p[|p| - 1] in s
    decreases |p|
  {
    if |p| > 1 {
      var q := p[..|p| - 1];
      assert IsPath(m, n, q);
      PathStaysInside(m, n, q, s);
      assert p[|p| - 2] == q[|q| - 1];
    }
  }

  /** A closed set that holds the root but misses a vertex shows the graph
      is not connected. */
  lemma ClosedSetDisconnects(m: Matrix, n: nat, s: set<int>, v: int)
    requires Square(m, n) && Closed(m, n, s) && 0 in s && 0 <= v < n && v !in s
    ensures !Connected(m, n)
  {
    if Connected(m, n) {
      assert Reaches(m, n, v);
      var p :| IsPath(m, n, p) && p[0] == 0 && p[|p| - 1] == v;
      PathStaysInside(m, n, p, s);
    }
  }

  // ---------------------------------------------------------------------------
  // Parent trees

  /** Following parent links from v reaches vertex 0 within fuel steps. */
  ghost predicate ReachesRoot(parent: seq<int>, v: int, fuel: nat)
    requires 0 <= v < |parent|
    decreases fuel
  {
    v == 0 || (fuel > 0 && 0 <= parent[v] < |parent| && ReachesRoot(parent, parent[v], fuel - 1))
  }

  /** The parent links form a spanning tree rooted at 0: the root has no
      parent (-1), every other vertex has a parent joined to it by an edge,
      and following parents from any vertex ends at the root. */
  ghost predicate ParentTree(m: Matrix, n: nat, parent: seq<int>)
    requires Square(m, n)
  {
    && n >= 1 && |parent| == n && parent[0] == -1
    && (forall v :: 0 < v < n ==> 0 <= parent[v] < n && m[parent[v]][v] > 0)
    && (forall v :: 0 <= v < n ==> ReachesRoot(parent, v, n))
  }

  function Sum(s: seq<int>): int
  {
    if s == [] then 0 else Sum(s[..|s| - 1]) + s[|s| - 1]
  }

  /** Changing one entry changes the sum by the difference. */
  lemma {:induction false} SumUpdate(s: seq<int>, i: int, x: int)
    requires 0 <= i < |s|
    ensures Sum(s[i := x]) == Sum(s) - s[i] + x
    decreases |s|
  {
    var t := s[i := x];
    if i < |s| - 1 {
      assert t[..|t| - 1] == s[..|s| - 1][i := x];
      SumUpdate(s[..|s| - 1], i, x);
    } else {
      assert t[..|t| - 1] == s[..|s| - 1];
    }
  }

  lemma AppendSum(s: seq<int>, x: int)
    ensures Sum(s + [x]) == Sum(s) + x
  {
    assert (s + [x])[..|s|] == s;
  }

  /** A sum of non-negative numbers is non-negative. */
  lemma {:induction false} SumNonNegative(s: seq<int>)
    requires forall i :: 0 <= i < |s| ==> s[i] >= 0
    ensures Sum(s) >= 0
    decreases |s|
  {
    if s != [] {
      SumNonNegative(s[..|s| - 1]);
    }
  }

  /** The weight of each vertex's parent edge (0 for the root). */
  ghost function ParentEdgeWeights(m: Matrix, n: nat, parent: seq<int>): (w: seq<int>)
    requires Square(m, n) && |parent| == n
    requires forall v :: 0 <= v < n ==> parent[v] < n
    ensures |w| == n
  {
    seq(n, v requires 0 <= v < n => if parent[v] < 0 then 0 else m[parent[v]][v])
  }

  /** The total weight of the tree the parent links describe. */
  ghost function TreeWeight(m: Matrix, n: nat, parent: seq<int>): int
    requires Square(m, n) && |parent| == n
    requires forall v :: 0 <= v < n ==> parent[v] < n
  {
    Sum(ParentEdgeWeights(m, n, parent))
  }

  /** A vertex whose parent chain reaches the root is reachable from it,
      when every parent edge is usable. */
  lemma {:induction false} ParentChainReaches(m: Matrix, n: nat, parent: seq<int>, v: int, fuel: nat)
    requires Square(m, n) && |parent| == n && 0 <= v < n
    requires forall x :: 0 < x < n ==> 0 <= parent[x] < n && Usable(m, n, parent[x], x)
    requires ReachesRoot(parent, v, fuel)
    ensures Reaches(m, n, v)
    decreases fuel
  {
    if v == 0 {
      assert IsPath(m, n, [0]);
    } else {
      var u := parent[v];
      ParentChainReaches(m, n, parent, u, fuel - 1);
      var p :| IsPath(m, n, p) && p[0] == 0 && p[|p| - 1] == u;
      var q := p + [v];
      assert IsPath(m, n, q);
      assert q[0] == 0 && q[|q| - 1] == v;
    }
  }

  /** A parent tree over usable edges connects the graph. */
  lemma ParentTreeConnects(m: Matrix, n: nat, parent: seq<int>)
    requires Square(m, n) && ParentTree(m, n, parent)
    requires forall x :: 0 < x < n ==> Usable(m, n, parent[x], x)
    ensures Connected(m, n)
  {
    forall v | 0 <= v < n ensures Reaches(m, n, v) {
      ParentChainReaches(m, n, parent, v, n);
    }
  }

  /** Parent links that lead to a vertex placed strictly later by some rank
      reach the root; rank is the slot index in prim2.c's heap array. */
  lemma {:induction false} RankedParentsReachRoot(parent: seq<int>, rank: seq<int>, n: nat, v: int, fuel: nat)
    requires |parent| == n && |rank| == n && 0 <= v < n
    requires forall x :: 0 <= x < n ==> 0 <= rank[x] < n
    requires forall x :: 0 < x < n ==> 0 <= parent[x] < n && rank[parent[x]] > rank[x]
    requires fuel >= n - rank[v]
    ensures ReachesRoot(parent, v, fuel)
    decreases n - rank[v]
  {
    if v != 0 {
      RankedParentsReachRoot(parent, rank, n, parent[v], fuel - 1);
    }
  }
}
