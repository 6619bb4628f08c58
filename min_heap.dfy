/** The array-backed binary min-heap of `Node`s keyed by frequency
    (`MinHeap` in src/lib.rs). */
module MinHeaps {
  import opened Nodes

  /** Rust's `a / 2` on a signed integer: it truncates toward zero, unlike
      Dafny's Euclidean division, so the remainder takes the sign of `a` and
      `HalfTowardZero(-1)` is 0. */
  function HalfTowardZero(a: int): (q: int)
    ensures a >= 0 ==> 0 <= a - 2 * q < 2
    ensures a < 0 ==> -2 < a - 2 * q <= 0
  {
    if a >= 0 then a / 2 else -((-a) / 2)
  }

  /** Slot `k` is a child of slot `i` in the packed complete binary tree
      (equivalently, `i == (k - 1) / 2` for `k > 0`). */
  predicate ChildOf(k: int, i: int) {
    k == 2 * i + 1 || k == 2 * i + 2
  }

  /** Heap order over the packed tree: no slot has a smaller frequency than
      its parent slot. */
  ghost predicate HeapOrdered(s: seq<Node>) {
    forall i, k :: 0 <= i < k < |s| && ChildOf(k, i) ==> s[i].f <= s[k].f
  }

  /** Heap order on every edge except those out of slot `p`. */
  ghost predicate OrderedBelowExcept(s: seq<Node>, p: int) {
    forall i, k :: 0 <= i < k < |s| && ChildOf(k, i) && i != p ==> s[i].f <= s[k].f
  }

  /** The parent of slot `p` is no larger than the children of `p`. */
  ghost predicate BridgesOver(s: seq<Node>, p: int) {
    forall i, k :: 0 <= i < p && ChildOf(p, i) && 0 <= k < |s| && ChildOf(k, p) ==> s[i].f <= s[k].f
  }

  /** Heap order on every edge except the one into slot `c`. */
  ghost predicate OrderedAboveExcept(s: seq<Node>, c: int) {
    forall i, k :: 0 <= i < k < |s| && ChildOf(k, i) && k != c ==> s[i].f <= s[k].f
  }

  /** The parent of slot `c` is no larger than the children of `c`. */
  ghost predicate BridgesUnder(s: seq<Node>, c: int) {
    forall i, k :: 0 <= i < c && ChildOf(c, i) && 0 <= k < |s| && ChildOf(k, c) ==> s[i].f <= s[k].f
  }

  /** One sift-up step: swapping `c` with its parent `p`, when the parent is
      strictly larger, moves the single defect from `c` to `p`. */
  lemma SiftUpStep(s: seq<Node>, p: nat, c: nat)
    requires p < c < |s| && ChildOf(c, p) && s[c].f < s[p].f
    requires OrderedAboveExcept(s, c) && BridgesUnder(s, c)
    ensures OrderedAboveExcept(s[p := s[c]][c := s[p]], p)
    ensures BridgesUnder(s[p := s[c]][c := s[p]], p)
  {
  }

  /** Sift-up stops at the root, or once slot `c` is no smaller than its
      parent; the whole sequence is then heap-ordered. */
  lemma SiftUpDone(s: seq<Node>, c: nat)
    requires c < |s| && OrderedAboveExcept(s, c)
    requires c > 0 ==> s[HalfTowardZero(c - 1)].f <= s[c].f
    ensures HeapOrdered(s)
  {
  }

  /** `c` is a child of `p` with the least frequency among `p`'s children. */
  predicate SmallerChild(s: seq<Node>, p: nat, c: nat) {
    ChildOf(c, p) && c < |s| &&
    (2 * p + 1 < |s| ==> s[c].f <= s[2 * p + 1].f) &&
    (2 * p + 2 < |s| ==> s[c].f <= s[2 * p + 2].f)
  }

  /** One sift-down step: swapping `p` with its smaller child `c`, when that
      child is strictly smaller, moves the single defect from `p` to `c`. */
  lemma SiftDownStep(s: seq<Node>, p: nat, c: nat)
    requires SmallerChild(s, p, c) && s[c].f < s[p].f
    requires OrderedBelowExcept(s, p) && BridgesOver(s, p)
    ensures OrderedBelowExcept(s[p := s[c]][c := s[p]], c)
    ensures BridgesOver(s[p := s[c]][c := s[p]], c)
  {
  }

  /** Sift-down stops once `p` is no larger than any of its children; the
      whole sequence is then heap-ordered. */
  lemma SiftDownDone(s: seq<Node>, p: nat)
    requires OrderedBelowExcept(s, p)
    requires 2 * p + 1 < |s| ==> s[p].f <= s[2 * p + 1].f
    requires 2 * p + 2 < |s| ==> s[p].f <= s[2 * p + 2].f
    ensures HeapOrdered(s)
  {
  }

  /** In a heap-ordered sequence the root has the least frequency. */
  lemma {:induction false} RootIsMin(s: seq<Node>, k: nat)
    requires HeapOrdered(s) && k < |s|
    ensures s[0].f <= s[k].f
    decreases k
  {
    if k > 0 {
      RootIsMin(s, (k - 1) / 2);
    }
  }

  /** Every element of a non-empty heap-ordered sequence is at least as
      large as its root. */
  lemma RootIsLeast(s: seq<Node>)
    requires HeapOrdered(s) && |s| > 0
    ensures forall x :: x in s ==> s[0].f <= x.f
  {
    forall x | x in s
      ensures s[0].f <= x.f
    {
      var k :| 0 <= k < |s| && s[k] == x;
      RootIsMin(s, k);
    }
  }

  /** Moving the last element of a heap-ordered sequence of two or more
      elements onto its root removes exactly the old root, and leaves a
      sequence whose only defects are the edges out of the root. */
  lemma LastToRoot(s: seq<Node>)
    requires HeapOrdered(s) && |s| >= 2
    ensures var t := s[..|s| - 1][0 := s[|s| - 1]];
      multiset(t) + multiset{s[0]} == multiset(s) &&
      OrderedBelowExcept(t, 0) && BridgesOver(t, 0)
  {
    var t := s[..|s| - 1][0 := s[|s| - 1]];
    assert s == [s[0]] + s[1..|s| - 1] + [s[|s| - 1]];
    assert t == [s[|s| - 1]] + s[1..|s| - 1];
  }

  class MinHeap {
    var heap: seq<Node>

    ghost predicate Valid()
      reads this
    {
      HeapOrdered(heap)
    }

    /** `MinHeap::new`: an empty heap. */
    constructor ()
      ensures Valid() && heap == []
    {
      heap := [];
    }

    /** `MinHeap::size`: the number of elements held. */
    function Size(): (n: nat)
      reads this
      ensures n == |heap|
    {
      |heap|
    }

    /** `MinHeap::swap`: exchanges slots `i` and `j`; nothing else changes. */
    method Swap(i: nat, j: nat)
      requires i < |heap| && j < |heap|
      modifies this
      ensures heap == old(heap)[i := old(heap[j])][j := old(heap[i])]
      ensures multiset(heap) == multiset(old(heap))
    {
      var tmp := heap[i];
      heap := heap[i := heap[j]];
      heap := heap[j := tmp];
    }

    /** `MinHeap::push`: appends `node` and sifts it up toward the root. */
    method Push(node: Node)
      requires Valid()
      modifies this
      ensures Valid()
      ensures |heap| == |old(heap)| + 1
      ensures multiset(heap) == multiset(old(heap)) + multiset{node}
      ensures old(heap) == [] ==> heap == [node]
    {
      heap := heap + [node];
      SiftUp();
    }

    /** The sift-up loop of `MinHeap::push`, run from the last slot. */
    method SiftUp()
      requires |heap| > 0 && OrderedAboveExcept(heap, |heap| - 1)
      modifies this
      ensures Valid()
      ensures |heap| == |old(heap)|
      ensures multiset(heap) == multiset(old(heap))
      ensures |heap| == 1 ==> heap == old(heap)
    {
      var child: int := |heap| - 1;
      while true
        invariant 0 <= child < |heap| == |old(heap)|
        invariant multiset(heap) == multiset(old(heap))
        // heap order holds on every edge except the one into `child` ...
        invariant OrderedAboveExcept(heap, child)
        // ... and `child`'s parent is no larger than `child`'s own children
        invariant BridgesUnder(heap, child)
        // a single element is never moved: it is compared with itself
        invariant |heap| == 1 ==> heap == old(heap)
        decreases child
      {
        // for `child == 0` this is `(0 - 1) / 2 == 0`, so the root is
        // compared with itself and the loop stops
        var parent := HalfTowardZero(child - 1);
        if Le(heap[parent], heap[child]) {
          SiftUpDone(heap, child);
          return;
        }
        SiftUpStep(heap, parent, child);
        Swap(parent, child);
        child := parent;
        if child <= 0 {
          SiftUpDone(heap, child);
          return;
        }
      }
    }

    /** `MinHeap::pop`: removes and returns the root, moves the last element
        to the root and sifts it down. */
    method Pop() returns (node: Node)
      requires Valid() && |heap| > 0
      modifies this
      ensures Valid()
      ensures node == old(heap[0])
      ensures forall x :: x in old(heap) ==> node.f <= x.f
      ensures |heap| == |old(heap)| - 1
      ensures multiset(heap) + multiset{node} == multiset(old(heap))
    {
      node := heap[0];
      RootIsLeast(heap);
      if |heap| >= 2 {
        LastToRoot(heap);
      }
      var last := heap[|heap| - 1];
      heap := heap[..|heap| - 1];
      if |heap| == 0 {
        return;
      }
      heap := heap[0 := last];
      SiftDown();
    }

    /** The sift-down loop of `MinHeap::pop`, run from the root. */
    method SiftDown()
      requires OrderedBelowExcept(heap, 0)
      modifies this
      ensures Valid()
      ensures |heap| == |old(heap)|
      ensures multiset(heap) == multiset(old(heap))
    {
      var parent := 0;
      var child := 2 * parent + 1;
      while child < |heap|
        invariant child == 2 * parent + 1
        invariant |heap| == |old(heap)| && (|heap| > 0 ==> parent < |heap|)
        invariant multiset(heap) == multiset(old(heap))
        // heap order holds on every edge except those out of `parent` ...
        invariant OrderedBelowExcept(heap, parent)
        // ... and `parent`'s own parent is no larger than `parent`'s children
        invariant BridgesOver(heap, parent)
        decreases |heap| - parent
      {
        // the right child is preferred only when strictly smaller
        if child + 1 < |heap| && Lt(heap[child + 1], heap[child]) {
          child := child + 1;
        }
        assert SmallerChild(heap, parent, child);
        if Le(heap[parent], heap[child]) {
          SiftDownDone(heap, parent);
          return;
        }
        SiftDownStep(heap, parent, child);
        Swap(parent, child);
        parent := child;
        child := 2 * child + 1;
      }
      SiftDownDone(heap, parent);
    }
  }
}
