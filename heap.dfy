/**
 * The indexed binary min-heap of prim2.c. Slot i holds a vertex name
 * (heap->vertex[i]->name), pos maps a name back to its slot (heap->pos), and
 * the ordering key of each vertex record (sort_key) is kept here indexed by
 * name. Only the prefix [0, size) is the heap; slots at and beyond size hold
 * the vertices already extracted.
 *
 * The first half states heap order and the slot/position inverse on
 * sequences and proves the steps of the two sift loops; the class
 * IndexedHeap runs them in place.
 */
module MinHeap {
  import opened GraphModel

  datatype Option<T> = None | Some(value: T)

  function Parent(i: int): int
  {
    (i - 1) / 2
  }

  /** Exchange of two entries, what swap_vertex and swap_int do. */
  function Swap(s: seq<int>, i: int, j: int): (r: seq<int>)
    requires 0 <= i < |s| && 0 <= j < |s|
    ensures |r| == |s| && r[i] == s[j] && r[j] == s[i]
    ensures forall k :: 0 <= k < |s| && k != i && k != j ==> r[k] == s[k]
  {
    s[i := s[j]][j := s[i]]
  }

  /** slots is a permutation of the names 0..n-1 and pos is its inverse. */
  ghost predicate IsInverse(slots: seq<int>, pos: seq<int>, n: nat)
  {
    && |slots| == n && |pos| == n
    && (forall i :: 0 <= i < n ==> 0 <= slots[i] < n && pos[slots[i]] == i)
    && (forall x :: 0 <= x < n ==> 0 <= pos[x] < n && slots[pos[x]] == x)
  }

  /** Every slot holds a name that has a key. */
  ghost predicate Keyed(slots: seq<int>, key: seq<int>)
  {
    forall i :: 0 <= i < |slots| ==> 0 <= slots[i] < |key|
  }

  /** Heap order on the active prefix [0, size). */
  ghost predicate HeapOrdered(slots: seq<int>, key: seq<int>, size: int)
    requires Keyed(slots, key) && size <= |slots|
  {
    forall i :: 0 < i < size ==> key[slots[Parent(i)]] <= key[slots[i]]
  }

  /** Heap order except between slot k and its children, while k's parent is
      still no larger than k's children: the state heapifyDown(k) expects. */
  ghost predicate OrderedBelow(slots: seq<int>, key: seq<int>, size: int, k: int)
    requires Keyed(slots, key) && size <= |slots| && 0 <= k
  {
    && (forall i :: 0 < i < size && Parent(i) != k ==> key[slots[Parent(i)]] <= key[slots[i]])
    && (forall i :: 0 < i < size && Parent(i) == k && 0 < k ==> key[slots[Parent(k)]] <= key[slots[i]])
  }

  /** Heap order except between slot k and its parent, while k's parent is
      no larger than k's children: the state heapifyUp(k) expects. */
  ghost predicate OrderedAbove(slots: seq<int>, key: seq<int>, size: int, k: int)
    requires Keyed(slots, key) && size <= |slots| && 0 <= k < size
  {
    && (forall i :: 0 < i < size && i != k ==> key[slots[Parent(i)]] <= key[slots[i]])
    && (forall i :: 0 < i < size && Parent(i) == k && 0 < k ==> key[slots[Parent(k)]] <= key[slots[i]])
  }

  /** Swapping two slots and the two positions of the names in them keeps
      pos the inverse of slots. */
  lemma SwapKeepsInverse(slots: seq<int>, pos: seq<int>, n: nat, i: int, j: int)
    requires IsInverse(slots, pos, n) && 0 <= i < n && 0 <= j < n
    ensures var s := Swap(slots, i, j);
      IsInverse(s, Swap(pos, s[i], s[j]), n)
  {
    var s := Swap(slots, i, j);
    var p := Swap(pos, s[i], s[j]);
    forall k | 0 <= k < n ensures 0 <= s[k] < n && p[s[k]] == k {
      if k == i {
      } else if k == j {
      } else {
        assert s[k] != slots[i] && s[k] != slots[j];
      }
    }
    forall x | 0 <= x < n ensures 0 <= p[x] < n && s[p[x]] == x {
      if x == slots[i] {
      } else if x == slots[j] {
      } else {
        assert pos[x] != i && pos[x] != j;
      }
    }
  }

  /** One step of heapifyDown: swapping slot k with its smaller child m,
      when that child is smaller than k, moves the exception down to m. */
  lemma SiftDownStep(slots: seq<int>, key: seq<int>, size: int, k: int, m: int)
    requires Keyed(slots, key) && size <= |slots| && 0 <= k
    requires OrderedBelow(slots, key, size, k)
    requires m == 2 * k + 1 || m == 2 * k + 2
    requires m < size && key[slots[m]] < key[slots[k]]
    requires forall c :: (c == 2 * k + 1 || c == 2 * k + 2) && c < size ==> key[slots[m]] <= key[slots[c]]
    ensures Keyed(Swap(slots, k, m), key)
    ensures OrderedBelow(Swap(slots, k, m), key, size, m)
  {
    var s := Swap(slots, k, m);
    forall i | 0 < i < size && Parent(i) != m
      ensures key[s[Parent(i)]] <= key[s[i]]
    {
      if Parent(i) == k {
        assert key[slots[m]] <= key[slots[i]];
      } else if i == k {
        assert key[slots[Parent(k)]] <= key[slots[m]];
      } else {
        assert i != m;
        assert key[slots[Parent(i)]] <= key[slots[i]];
      }
    }
    forall i | 0 < i < size && Parent(i) == m && 0 < m
      ensures key[s[Parent(m)]] <= key[s[i]]
    {
      assert Parent(m) == k;
      assert key[slots[Parent(i)]] <= key[slots[i]];
    }
  }

  /** heapifyDown stops when no child of k is smaller: then the heap is ordered. */
  lemma SiftDownDone(slots: seq<int>, key: seq<int>, size: int, k: int)
    requires Keyed(slots, key) && size <= |slots| && 0 <= k
    requires OrderedBelow(slots, key, size, k)
    requires forall c :: (c == 2 * k + 1 || c == 2 * k + 2) && c < size ==> key[slots[k]] <= key[slots[c]]
    ensures HeapOrdered(slots, key, size)
  {
    forall i | 0 < i < size ensures key[slots[Parent(i)]] <= key[slots[i]] {
      if Parent(i) == k {
        assert i == 2 * k + 1 || i == 2 * k + 2;
      }
    }
  }

  /** One step of heapifyUp: swapping slot k with its larger parent moves
      the exception up to the parent. */
  lemma SiftUpStep(slots: seq<int>, key: seq<int>, size: int, k: int)
    requires Keyed(slots, key) && size <= |slots| && 0 < k < size
    requires OrderedAbove(slots, key, size, k)
    requires key[slots[Parent(k)]] > key[slots[k]]
    ensures Keyed(Swap(slots, k, Parent(k)), key)
    ensures OrderedAbove(Swap(slots, k, Parent(k)), key, size, Parent(k))
  {
    var q := Parent(k);
    var s := Swap(slots, k, q);
    forall i | 0 < i < size && i != q
      ensures key[s[Parent(i)]] <= key[s[i]]
    {
      if i == k {
      } else if Parent(i) == q {
        // the sibling of k
        assert key[slots[q]] <= key[slots[i]];
      } else if Parent(i) == k {
        assert key[slots[Parent(k)]] <= key[slots[i]];
      } else {
        assert key[slots[Parent(i)]] <= key[slots[i]];
      }
    }
    forall i | 0 < i < size && Parent(i) == q && 0 < q
      ensures key[s[Parent(q)]] <= key[s[i]]
    {
      assert key[slots[Parent(q)]] <= key[slots[q]];
      if i != k {
        assert key[slots[q]] <= key[slots[i]];
      }
    }
  }

  /** heapifyUp stops at the root or below a parent that is no larger. */
  lemma SiftUpDone(slots: seq<int>, key: seq<int>, size: int, k: int)
    requires Keyed(slots, key) && size <= |slots| && 0 <= k < size
    requires OrderedAbove(slots, key, size, k)
    requires k == 0 || key[slots[Parent(k)]] <= key[slots[k]]
    ensures HeapOrdered(slots, key, size)
  {
  }

  /** In an ordered heap slot 0 holds a minimum of the active prefix. */
  lemma {:induction false} RootIsMinimum(slots: seq<int>, key: seq<int>, size: int, i: int)
    requires Keyed(slots, key) && size <= |slots| && HeapOrdered(slots, key, size)
    requires 0 <= i < size
    ensures key[slots[0]] <= key[slots[i]]
    decreases i
  {
    if i > 0 {
      RootIsMinimum(slots, key, size, Parent(i));
    }
  }

  /** The same, by name: no active vertex has a smaller key than the one in slot 0. */
  lemma RootIsMinimumAll(slots: seq<int>, pos: seq<int>, n: nat, key: seq<int>, size: int)
    requires IsInverse(slots, pos, n) && |key| == n && 0 < size <= n && HeapOrdered(slots, key, size)
    ensures forall x :: 0 <= x < n && pos[x] < size ==> key[slots[0]] <= key[x]
  {
    forall x | 0 <= x < n && pos[x] < size ensures key[slots[0]] <= key[x] {
      RootIsMinimum(slots, key, size, pos[x]);
    }
  }

  /** Lowering the key of the name in an active slot k leaves only the edge
      above k to repair, which is what changeKey hands to heapifyUp. */
  lemma LowerKeyOrderedAbove(slots: seq<int>, pos: seq<int>, n: nat, key: seq<int>, size: int, k: int, newKey: int)
    requires IsInverse(slots, pos, n) && |key| == n && size <= n
    requires HeapOrdered(slots, key, size)
    requires 0 <= k < size && newKey <= key[slots[k]]
    ensures OrderedAbove(slots, key[slots[k] := newKey], size, k)
  {
    var key' := key[slots[k] := newKey];
    forall i | 0 < i < size && i != k
      ensures key'[slots[Parent(i)]] <= key'[slots[i]]
    {
      assert slots[i] != slots[k];
    }
    forall i | 0 < i < size && Parent(i) == k && 0 < k
      ensures key'[slots[Parent(k)]] <= key'[slots[i]]
    {
      assert slots[i] != slots[k] && slots[Parent(k)] != slots[k];
    }
  }

  /** extractMin's first steps (the old root gets key INT_MAX and trades
      places with the last active slot, which leaves the heap) leave only the
      edges below slot 0 to repair, which is what heapifyDown(0) does. */
  lemma ExtractOrderedBelow(slots: seq<int>, pos: seq<int>, n: nat, key: seq<int>, size: int)
    requires IsInverse(slots, pos, n) && |key| == n && 0 < size <= n
    requires HeapOrdered(slots, key, size)
    ensures OrderedBelow(Swap(slots, 0, size - 1), key[slots[0] := INT_MAX], size - 1, 0)
  {
    var s := Swap(slots, 0, size - 1);
    var key' := key[slots[0] := INT_MAX];
    forall i | 0 < i < size - 1 && Parent(i) != 0
      ensures key'[s[Parent(i)]] <= key'[s[i]]
    {
      assert s[i] == slots[i] && s[Parent(i)] == slots[Parent(i)];
      assert slots[i] != slots[0] && slots[Parent(i)] != slots[0];
    }
  }

  /** Swapping two slots below size leaves the slots from size on alone. */
  lemma SwapKeepsSuffix(s: seq<int>, i: int, j: int, size: int)
    requires 0 <= i < size && 0 <= j < size && size <= |s|
    ensures Swap(s, i, j)[size..] == s[size..]
  {
  }

  /** When the slots from size on are the same in two states, so are the
      positions of the names held there. */
  lemma SuffixKeepsPositions(s0: seq<int>, p0: seq<int>, s1: seq<int>, p1: seq<int>, n: nat, size: int)
    requires IsInverse(s0, p0, n) && IsInverse(s1, p1, n) && 0 <= size <= n
    requires s1[size..] == s0[size..]
    ensures forall x :: 0 <= x < n && p0[x] >= size ==> p1[x] == p0[x]
  {
    forall x | 0 <= x < n && p0[x] >= size ensures p1[x] == p0[x] {
      assert s1[p0[x]] == s0[size..][p0[x] - size] == x;
    }
  }

  /** When the slots from size on are the same in two states, a name is in
      that suffix in one state exactly when it is in the other. */
  lemma SuffixKeepsStatus(s0: seq<int>, p0: seq<int>, s1: seq<int>, p1: seq<int>, n: nat, size: int)
    requires IsInverse(s0, p0, n) && IsInverse(s1, p1, n) && 0 <= size <= n
    requires s1[size..] == s0[size..]
    ensures forall x :: 0 <= x < n && p0[x] >= size ==> p1[x] == p0[x]
    ensures forall x :: 0 <= x < n ==> (p1[x] >= size <==> p0[x] >= size)
  {
    SuffixKeepsPositions(s0, p0, s1, p1, n, size);
    SuffixKeepsPositions(s1, p1, s0, p0, n, size);
  }

  /** After extractMin: the suffix from the new size holds the extracted
      name followed by the old suffix. */
  lemma ExtractStatus(s0: seq<int>, p0: seq<int>, s2: seq<int>, p2: seq<int>, n: nat, size: int, min: int)
    requires IsInverse(s0, p0, n) && IsInverse(s2, p2, n) && 0 <= size < n
    requires s2[size] == min && s2[size + 1..] == s0[size + 1..]
    ensures forall x :: 0 <= x < n && p0[x] >= size + 1 ==> p2[x] == p0[x]
    ensures forall x :: 0 <= x < n ==> (p2[x] >= size <==> x == min || p0[x] >= size + 1)
  {
    assert s2[size + 1..] == s0[size + 1..];
    SuffixKeepsStatus(s0, p0, s2, p2, n, size + 1);
    forall x | 0 <= x < n ensures p2[x] >= size <==> x == min || p0[x] >= size + 1 {
      if p2[x] == size {
        assert x == min;
      }
    }
  }

  // ---------------------------------------------------------------------------
  // The heap object

  class IndexedHeap {
    const n: nat
    const slots: array<int>    // heap->vertex, by slot: the name of the vertex there
    const pos: array<int>      // heap->pos, by name: the slot of that vertex
    const sortKey: array<int>  // sort_key of each vertex record, by name
    var size: int

    /** Shape: lengths, distinct arrays, 0 <= size <= n, pos inverse of slots. */
    ghost predicate Shaped()
      reads this
    {
      && slots.Length == n && pos.Length == n && sortKey.Length == n
      && slots != pos && slots != sortKey && pos != sortKey
      && 0 <= size <= n
    }

    ghost predicate Valid()
      reads this, slots, pos, sortKey
    {
      && Shaped()
      && IsInverse(slots[..], pos[..], n)
      && HeapOrdered(slots[..], sortKey[..], size)
    }

    /** initHeap together with the seeding of sort_key in prim: slot i holds
        vertex i, the root has key 0 and every other vertex INT_MAX, the
        whole array is active. */
    constructor (numNodes: nat)
      ensures Valid() && n == numNodes && size == numNodes
      ensures fresh(slots) && fresh(pos) && fresh(sortKey)
      ensures forall i :: 0 <= i < numNodes ==> slots[i] == i && pos[i] == i
      ensures forall i :: 0 <= i < numNodes ==> sortKey[i] == if i == 0 then 0 else INT_MAX
    {
      n := numNodes;
      size := numNodes;
      var vs := new int[numNodes];
      var ps := new int[numNodes];
      var ks := new int[numNodes];
      for i := 0 to numNodes
        invariant forall j :: 0 <= j < i ==> vs[j] == j && ps[j] == j && ks[j] == INT_MAX
      {
        vs[i] := i;
        ks[i] := INT_MAX;
        ps[i] := i;
      }
      if numNodes > 0 {
        ks[0] := 0;
      }
      slots, pos, sortKey := vs, ps, ks;
    }

    /** swap_vertex of two slots followed by swap_int of the positions of the
        two names now in them. */
    method SwapSlots(i: int, j: int)
      requires Shaped() && IsInverse(slots[..], pos[..], n)
      requires 0 <= i < n && 0 <= j < n
      modifies slots, pos
      ensures IsInverse(slots[..], pos[..], n)
      ensures slots[..] == Swap(old(slots[..]), i, j)
      ensures pos[..] == Swap(old(pos[..]), old(slots[j]), old(slots[i]))
    {
      SwapKeepsInverse(slots[..], pos[..], n, i, j);
      slots[i], slots[j] := slots[j], slots[i];
      var a, b := slots[i], slots[j];
      pos[a], pos[b] := pos[b], pos[a];
    }

    /** heapifyDown: sift slot index down, recursively. */
    method HeapifyDown(index: int)
      requires Shaped() && IsInverse(slots[..], pos[..], n) && 0 <= index
      requires OrderedBelow(slots[..], sortKey[..], size, index)
      modifies slots, pos
      ensures Valid()
      ensures slots[size..] == old(slots[size..])
      decreases size - index
    {
      var left := index * 2 + 1;
      var right := index * 2 + 2;
      var min := index;
      if left < size && sortKey[slots[left]] < sortKey[slots[min]] {
        min := left;
      }
      if right < size && sortKey[slots[right]] < sortKey[slots[min]] {
        min := right;
      }
      ghost var s0, p0, k0 := slots[..], pos[..], sortKey[..];
      assert forall c :: (c == left || c == right) && c < size ==> k0[s0[min]] <= k0[s0[c]];
      if min != index {
        SiftDownStep(s0, k0, size, index, min);
        SwapSlots(index, min);
        SwapKeepsSuffix(s0, index, min, size);
        assert slots[..] == Swap(s0, index, min) && sortKey[..] == k0;
        HeapifyDown(min);
      } else {
        SiftDownDone(s0, k0, size, index);
      }
    }

    /** heapifyUp: sift slot index up while its parent has a larger key. */
    method HeapifyUp(index: int)
      requires Shaped() && IsInverse(slots[..], pos[..], n) && 0 <= index < size
      requires OrderedAbove(slots[..], sortKey[..], size, index)
      modifies slots, pos
      ensures Valid()
      ensures slots[size..] == old(slots[size..])
    {
      var k := index;
      while k > 0 && sortKey[slots[(k - 1) / 2]] > sortKey[slots[k]]
        invariant 0 <= k < size
        invariant IsInverse(slots[..], pos[..], n)
        invariant OrderedAbove(slots[..], sortKey[..], size, k)
        invariant slots[size..] == old(slots[size..])
      {
        SiftUpStep(slots[..], sortKey[..], size, k);
        SwapSlots(k, (k - 1) / 2);
        k := (k - 1) / 2;
      }
      SiftUpDone(slots[..], sortKey[..], size, k);
    }

    /** changeKey: lower the key of an active vertex and restore heap order. */
    method ChangeKey(name: int, key: int)
      requires Valid() && 0 <= name < n && pos[name] < size && key <= sortKey[name]
      modifies slots, pos, sortKey
      ensures Valid()
      ensures sortKey[..] == old(sortKey[..])[name := key]
      ensures slots[size..] == old(slots[size..])
      ensures forall x :: 0 <= x < n ==> (pos[x] >= size <==> old(pos[x]) >= size)
      ensures forall x :: 0 <= x < n && old(pos[x]) >= size ==> pos[x] == old(pos[x])
    {
      ghost var s0, p0 := slots[..], pos[..];
      var index := pos[name];
      LowerKeyOrderedAbove(slots[..], pos[..], n, sortKey[..], size, index, key);
      sortKey[slots[index]] := key;
      HeapifyUp(index);
      SuffixKeepsStatus(s0, p0, slots[..], pos[..], n, size);
    }

    /** The first half of extractMin on a non-empty heap: the vertex of slot
        0 gets key INT_MAX and trades places with the last active slot, which
        then leaves the heap. */
    method DetachRoot() returns (min: int)
      requires Valid() && size > 0
      modifies this, slots, pos, sortKey
      ensures Shaped() && IsInverse(slots[..], pos[..], n)
      ensures size == old(size) - 1 && min == old(slots[0])
      ensures sortKey[..] == old(sortKey[..])[min := INT_MAX]
      ensures OrderedBelow(slots[..], sortKey[..], size, 0)
      ensures slots[..] == Swap(old(slots[..]), 0, size)
      ensures forall x :: 0 <= x < n && old(pos[x]) < old(size) ==> old(sortKey[min]) <= old(sortKey[x])
    {
      RootIsMinimumAll(slots[..], pos[..], n, sortKey[..], size);
      min := slots[0];
      ExtractOrderedBelow(slots[..], pos[..], n, sortKey[..], size);
      sortKey[min] := INT_MAX;
      SwapSlots(0, size - 1);
      size := size - 1;
    }

    /** extractMin: None on an empty heap; otherwise the vertex of slot 0,
        a minimum of the active keys, whose key becomes INT_MAX and which is
        parked in the last active slot as size shrinks by one. */
    method ExtractMin() returns (r: Option<int>)
      requires Valid()
      modifies this, slots, pos, sortKey
      ensures Valid()
      ensures old(size) == 0 ==> r == None && size == 0 && unchanged(slots, pos, sortKey)
      ensures old(size) > 0 ==>
        && r.Some? && r.value == old(slots[0])
        && (forall x :: 0 <= x < n && old(pos[x]) < old(size) ==> old(sortKey[r.value]) <= old(sortKey[x]))
        && size == old(size) - 1
        && sortKey[..] == old(sortKey[..])[r.value := INT_MAX]
        && slots[size] == r.value && pos[r.value] == size
      ensures slots[old(size)..] == old(slots[size..])
      ensures forall x :: 0 <= x < n && old(pos[x]) >= old(size) ==> pos[x] == old(pos[x])
      ensures forall x :: 0 <= x < n ==>
        (pos[x] >= size <==> (old(size) > 0 && x == r.value) || old(pos[x]) >= old(size))
    {
      if size == 0 {
        return None;
      }
      ghost var s0, p0 := slots[..], pos[..];
      var min := DetachRoot();
      ghost var s1 := slots[..];
      HeapifyDown(0);
      r := Some(min);
      assert slots[size..] == s1[size..];
      ExtractStatus(s0, p0, slots[..], pos[..], n, size, min);
    }
  }
}
