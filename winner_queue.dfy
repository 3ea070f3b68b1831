/** WinnerPriorityQueue of src/scheduleMatches.cpp: a binary max-heap of at most
    MaxSize entries in a fixed array, ordered by stage wins and then by the
    player's total points. */
module WinnerQueue {
  import opened Base

  /** A heap node: the player (an index into the roster), the wins it was
      enqueued with, and the player's totalPointsScored. The source reads the
      points through the player pointer at every comparison; no player is
      updated while a queue is in use, so the value is taken at enqueue time. */
  datatype Entry = Entry(player: nat, wins: int, points: int)

  /** The source's comparison: a ranks strictly above b. */
  predicate Above(a: Entry, b: Entry) {
    a.wins > b.wins || (a.wins == b.wins && a.points > b.points)
  }

  /** a ranks at least as high as b: more wins, or as many and at least as many points. */
  predicate AtLeast(a: Entry, b: Entry) {
    !Above(b, a)
  }

  /** Capacity of the heap array. */
  const MaxSize: int := 50

  /** Node i ranks no higher than its parent. */
  ghost predicate ParentOk(s: seq<Entry>, i: int)
    requires 0 < i < |s|
  {
    AtLeast(s[(i - 1) / 2], s[i])
  }

  /** Every node ranks at least as high as its children. */
  ghost predicate IsHeap(s: seq<Entry>) {
    forall i :: 0 < i < |s| ==> ParentOk(s, i)
  }

  /** The heap property except between k and its parent (inside heapifyUp). */
  ghost predicate HeapExceptUp(s: seq<Entry>, k: int) {
    forall i :: 0 < i < |s| && i != k ==> ParentOk(s, i)
  }

  /** The heap property except between k and its children (inside heapifyDown). */
  ghost predicate HeapExceptDown(s: seq<Entry>, k: int) {
    forall i :: 0 < i < |s| && (i - 1) / 2 != k ==> ParentOk(s, i)
  }

  /** Node a ranks at least as high as node b. */
  ghost predicate RanksOver(s: seq<Entry>, a: int, b: int)
    requires 0 <= a < |s| && 0 <= b < |s|
  {
    AtLeast(s[a], s[b])
  }

  /** Node g ranks at least as high as the children of k. */
  ghost predicate OverChildren(s: seq<Entry>, g: int, k: int)
    requires 0 <= g < |s|
  {
    forall c :: 0 < c < |s| && (c - 1) / 2 == k ==> RanksOver(s, g, c)
  }

  /** The parent of k ranks at least as high as the children of k. */
  ghost predicate BridgesChildren(s: seq<Entry>, k: int)
    requires 0 <= k < |s|
  {
    k > 0 ==> OverChildren(s, (k - 1) / 2, k)
  }

  function Swap(s: seq<Entry>, i: nat, j: nat): (r: seq<Entry>)
    requires i < |s| && j < |s|
    ensures |r| == |s| && r[i] == s[j] && r[j] == s[i]
    ensures forall k :: 0 <= k < |s| && k != i && k != j ==> r[k] == s[k]
    ensures multiset(r) == multiset(s)
  {
    s[i := s[j]][j := s[i]]
  }

  /** A new last node leaves the heap property broken at most above it. */
  lemma Extend(s: seq<Entry>, x: Entry)
    requires IsHeap(s)
    ensures HeapExceptUp(s + [x], |s|) && BridgesChildren(s + [x], |s|)
  {
    forall i | 0 < i < |s| ensures ParentOk(s + [x], i) {
      assert ParentOk(s, i);
    }
  }

  /** Moving the last node to the root leaves the heap property broken at
      most below the root. */
  lemma ReplaceRoot(s: seq<Entry>)
    requires IsHeap(s) && |s| > 1
    ensures HeapExceptDown(s[..|s| - 1][0 := s[|s| - 1]], 0)
    ensures BridgesChildren(s[..|s| - 1][0 := s[|s| - 1]], 0)
  {
    var t := s[..|s| - 1][0 := s[|s| - 1]];
    forall i | 0 < i < |t| && (i - 1) / 2 != 0 ensures ParentOk(t, i) {
      assert ParentOk(s, i);
    }
  }

  /** One step of heapifyUp: swapping k with the parent it outranks moves
      the hole up to the parent. */
  lemma SwapUp(s: seq<Entry>, k: int)
    requires 0 < k < |s| && HeapExceptUp(s, k) && BridgesChildren(s, k)
    requires Above(s[k], s[(k - 1) / 2])
    ensures HeapExceptUp(Swap(s, k, (k - 1) / 2), (k - 1) / 2)
    ensures BridgesChildren(Swap(s, k, (k - 1) / 2), (k - 1) / 2)
  {
    var p := (k - 1) / 2;
    var t := Swap(s, k, p);
    forall i | 0 < i < |t| && i != p ensures ParentOk(t, i) {
      var q := (i - 1) / 2;
      if i == k {
      } else if q == k {
        assert RanksOver(s, p, i);
      } else if q == p {
        assert ParentOk(s, i);
      } else {
        assert ParentOk(s, i);
        assert t[q] == s[q] && t[i] == s[i];
      }
    }
    if p > 0 {
      var g := (p - 1) / 2;
      forall c | 0 < c < |t| && (c - 1) / 2 == p ensures RanksOver(t, g, c) {
        assert ParentOk(s, p);
        if c != k {
          assert ParentOk(s, c);
        }
      }
    }
  }

  /** One step of heapifyDown: swapping k with the child chosen for it moves
      the hole down to that child. */
  lemma SwapDown(s: seq<Entry>, k: int, m: int)
    requires 0 <= k < m < |s| && (m - 1) / 2 == k
    requires HeapExceptDown(s, k) && BridgesChildren(s, k)
    requires Above(s[m], s[k])
    requires OverChildren(s, m, k)
    ensures HeapExceptDown(Swap(s, k, m), m) && BridgesChildren(Swap(s, k, m), m)
  {
    var t := Swap(s, k, m);
    forall i | 0 < i < |t| && (i - 1) / 2 != m ensures ParentOk(t, i) {
      var q := (i - 1) / 2;
      if i == m {
      } else if q == k {
        assert RanksOver(s, m, i);
      } else if i == k {
        assert RanksOver(s, q, m);
      } else {
        assert ParentOk(s, i);
        assert t[q] == s[q] && t[i] == s[i];
      }
    }
    var g := (m - 1) / 2;
    forall c | 0 < c < |t| && (c - 1) / 2 == m ensures RanksOver(t, g, c) {
      assert ParentOk(s, c);
    }
  }

  /** heapifyDown's choice m among k and its children ranks at least as high
      as every child of k; when m is k itself the heap is whole again. */
  lemma ChildChoice(s: seq<Entry>, k: int, m: int)
    requires 0 <= k < |s| && HeapExceptDown(s, k)
    requires m == k || (m == 2 * k + 1 && m < |s|) || (m == 2 * k + 2 && m < |s|)
    requires 2 * k + 1 < |s| && m != 2 * k + 1 ==> !Above(s[2 * k + 1], s[m])
    requires 2 * k + 2 < |s| && m != 2 * k + 2 ==> !Above(s[2 * k + 2], s[m])
    requires m == 2 * k + 2 ==> Above(s[m], s[k])
    requires m == 2 * k + 1 ==> Above(s[m], s[k])
    ensures OverChildren(s, m, k)
    ensures m == k ==> IsHeap(s)
  {
    forall c | 0 < c < |s| && (c - 1) / 2 == k ensures RanksOver(s, m, c) {
      assert c == 2 * k + 1 || c == 2 * k + 2;
    }
    if m == k {
      forall i | 0 < i < |s| ensures ParentOk(s, i) {
        if (i - 1) / 2 == k {
          assert RanksOver(s, m, i);
        }
      }
    }
  }

  /** The entries left after the root is replaced by the last node. */
  lemma ReplaceRootContents(s: seq<Entry>)
    requires |s| > 1
    ensures multiset(s[..|s| - 1][0 := s[|s| - 1]]) == multiset(s) - multiset{s[0]}
  {
    var n := |s| - 1;
    assert s == s[..n] + [s[n]];
    assert s[..n] == [s[0]] + s[1..n];
    assert s[..n][0 := s[n]] == [s[n]] + s[1..n];
  }

  /** The root of a heap ranks at least as high as every node. */
  lemma {:induction false} RootIsMaximal(s: seq<Entry>, i: nat)
    requires IsHeap(s) && i < |s|
    ensures AtLeast(s[0], s[i])
  {
    if i > 0 {
      assert ParentOk(s, i);
      RootIsMaximal(s, (i - 1) / 2);
    }
  }

  lemma RootIsMaximalInContents(s: seq<Entry>)
    requires IsHeap(s) && |s| > 0
    ensures forall y :: y in multiset(s) ==> AtLeast(s[0], y)
  {
    forall y | y in multiset(s) ensures AtLeast(s[0], y) {
      var i :| 0 <= i < |s| && s[i] == y;
      RootIsMaximal(s, i);
    }
  }

  class WinnerPriorityQueue {
    const heap: array<Entry>
    var size: int

    ghost predicate Valid()
      reads this, heap
    {
      heap.Length == MaxSize && 0 <= size <= MaxSize && IsHeap(heap[..size])
    }

    /** The entries currently queued. */
    ghost function Contents(): multiset<Entry>
      reads this, heap
      requires Valid()
    {
      multiset(heap[..size])
    }

    constructor ()
      ensures Valid() && Contents() == multiset{} && fresh(heap)
    {
      heap := new Entry[MaxSize](_ => Entry(0, 0, 0));
      size := 0;
    }

    method IsEmpty() returns (b: bool)
      requires Valid()
      ensures b <==> Contents() == multiset{}
    {
      b := size == 0;
    }

    method GetSize() returns (n: int)
      requires Valid()
      ensures n == |Contents()|
    {
      n := size;
    }

    /** enqueue: at capacity nothing happens; otherwise the entry goes into the
        first free slot and is sifted up. */
    method Enqueue(player: nat, wins: int, points: int)
      requires Valid()
      modifies this, heap
      ensures Valid()
      ensures old(size) < MaxSize ==> Contents() == old(Contents()) + multiset{Entry(player, wins, points)}
      ensures old(size) >= MaxSize ==> Contents() == old(Contents())
      ensures size == if old(size) < MaxSize then old(size) + 1 else old(size)
    {
      if size >= MaxSize {
        return;
      }
      ghost var before := heap[..size];
      heap[size] := Entry(player, wins, points);
      assert heap[..size + 1] == before + [Entry(player, wins, points)];
      Extend(before, Entry(player, wins, points));
      HeapifyUp(size);
      size := size + 1;
    }

    /** heapifyUp: the entry at index climbs while it outranks its parent. */
    method HeapifyUp(index: int)
      requires heap.Length == MaxSize && 0 <= size < MaxSize && 0 <= index <= size
      requires HeapExceptUp(heap[..size + 1], index) && BridgesChildren(heap[..size + 1], index)
      modifies heap
      ensures IsHeap(heap[..size + 1])
      ensures multiset(heap[..size + 1]) == old(multiset(heap[..size + 1]))
    {
      var n := size + 1;
      var k := index;
      while k > 0
        invariant 0 <= k < n
        invariant HeapExceptUp(heap[..n], k) && BridgesChildren(heap[..n], k)
        invariant multiset(heap[..n]) == old(multiset(heap[..size + 1]))
      {
        var p := (k - 1) / 2;
        if Above(heap[k], heap[p]) {
          ghost var s := heap[..n];
          SwapUp(s, k);
          SwapSlots(k, p, n);
          k := p;
        } else {
          break;
        }
      }
    }

    /** dequeue: None on an empty queue; otherwise the root, a maximal entry,
        leaves, the last entry takes its place and is sifted down. */
    method Dequeue() returns (r: Option<nat>, ghost top: Entry)
      requires Valid()
      modifies this, heap
      ensures Valid()
      ensures old(size) == 0 ==> r.None? && size == 0 && Contents() == old(Contents())
      ensures old(size) > 0 ==>
                && r == Some(top.player)
                && top in old(Contents())
                && (forall y :: y in old(Contents()) ==> AtLeast(top, y))
                && Contents() == old(Contents()) - multiset{top}
                && size == old(size) - 1
    {
      if size == 0 {
        return None, Entry(0, 0, 0);
      }
      ghost var before := heap[..size];
      RootIsMaximalInContents(before);
      var root := heap[0];
      assert root == before[0];
      top := root;
      heap[0] := heap[size - 1];
      size := size - 1;
      if size > 0 {
        ghost var rest := before[..|before| - 1][0 := before[|before| - 1]];
        assert forall j :: 0 <= j < size ==> heap[j] == rest[j];
        assert heap[..size] == rest;
        ReplaceRoot(before);
        ReplaceRootContents(before);
        HeapifyDown(0);
      } else {
        assert before == [root];
      }
      r := Some(root.player);
    }

    /** std::swap of two slots among the first n. */
    method SwapSlots(i: int, j: int, ghost n: int)
      requires 0 <= i < n <= heap.Length && 0 <= j < n
      modifies heap
      ensures heap[..n] == Swap(old(heap[..n]), i, j)
    {
      heap[i], heap[j] := heap[j], heap[i];
    }

    /** heapifyDown: the entry at index swaps with its higher-ranking child
        until it outranks both children. */
    method HeapifyDown(index: int)
      requires heap.Length == MaxSize && 0 <= index < size <= MaxSize
      requires HeapExceptDown(heap[..size], index) && BridgesChildren(heap[..size], index)
      modifies heap
      ensures IsHeap(heap[..size])
      ensures multiset(heap[..size]) == old(multiset(heap[..size]))
      decreases size - index
    {
      ghost var s := heap[..size];
      var maxIndex := index;
      var left := 2 * index + 1;
      var right := 2 * index + 2;
      if left < size && Above(heap[left], heap[maxIndex]) {
        maxIndex := left;
      }
      if right < size && Above(heap[right], heap[maxIndex]) {
        maxIndex := right;
      }
      ChildChoice(s, index, maxIndex);
      if index != maxIndex {
        SwapDown(s, index, maxIndex);
        SwapSlots(index, maxIndex, size);
        HeapifyDown(maxIndex);
      }
    }
  }
}
