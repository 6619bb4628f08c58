/** Huffman tree construction, `make_tree` (src/main.rs). */
module HuffmanTree {
  import opened Common
  import opened Nodes
  import opened MinHeaps
  import opened Freqs

  /** The leaf made for one map entry. */
  function Leaf(e: Entry): Node {
    Node(e.key, e.freq, None, None)
  }

  /** The entries of a tree's leaves, left to right. */
  function LeafEntries(n: Node): seq<Entry> {
    if IsLeaf(n) then [Entry(n.c, n.f)]
    else
      (if n.l.Some? then LeafEntries(n.l.value) else []) +
      (if n.r.Some? then LeafEntries(n.r.value) else [])
  }

  /** The number of internal (non-leaf) nodes of a tree. */
  function InternalCount(n: Node): nat {
    if IsLeaf(n) then 0
    else
      1 + (if n.l.Some? then InternalCount(n.l.value) else 0) +
          (if n.r.Some? then InternalCount(n.r.value) else 0)
  }

  /** A tree built by merging: every internal node has both children, the
      first-popped (no larger) child on the left, its frequency is the sum
      of theirs and its symbol string the concatenation of theirs. */
  ghost predicate Merged(n: Node) {
    IsLeaf(n) ||
    (n.l.Some? && n.r.Some? &&
     Merged(n.l.value) && Merged(n.r.value) &&
     n.l.value.f <= n.r.value.f &&
     n.f == n.l.value.f + n.r.value.f &&
     n.c == n.l.value.c + n.r.value.c)
  }

  function SumFreq(m: seq<Entry>): nat {
    if m == [] then 0 else m[0].freq + SumFreq(m[1..])
  }

  function Symbols(m: seq<Entry>): string {
    if m == [] then [] else m[0].key + Symbols(m[1..])
  }

  lemma {:induction false} SumFreqAppend(a: seq<Entry>, b: seq<Entry>)
    ensures SumFreq(a + b) == SumFreq(a) + SumFreq(b)
    ensures Symbols(a + b) == Symbols(a) + Symbols(b)
  {
    if a != [] {
      assert (a + b)[1..] == a[1..] + b;
      SumFreqAppend(a[1..], b);
    } else {
      assert a + b == b;
    }
  }

  /** When `a` and `b` are permutations of each other, `b` splits around an
      occurrence of `a[0]` into two parts that together permute `a[1..]`. */
  lemma SplitAtFirst<T>(a: seq<T>, b: seq<T>) returns (left: seq<T>, right: seq<T>)
    requires a != [] && multiset(a) == multiset(b)
    ensures b == left + ([a[0]] + right)
    ensures multiset(a[1..]) == multiset(left + right)
  {
    assert a[0] in multiset(b);
    var j :| 0 <= j < |b| && b[j] == a[0];
    left, right := b[..j], b[j + 1..];
    SplitBag(b, j);
    HeadBag(a);
  }

  /** Cutting a sequence around position `j`. */
  lemma SplitBag<T>(b: seq<T>, j: nat)
    requires j < |b|
    ensures b == b[..j] + ([b[j]] + b[j + 1..])
    ensures multiset(b) - multiset{b[j]} == multiset(b[..j] + b[j + 1..])
  {
    assert b == b[..j] + ([b[j]] + b[j + 1..]);
    assert multiset(b) == multiset(b[..j]) + multiset{b[j]} + multiset(b[j + 1..]);
    assert multiset(b[..j] + b[j + 1..]) == multiset(b[..j]) + multiset(b[j + 1..]);
  }

  lemma HeadBag<T>(a: seq<T>)
    requires a != []
    ensures multiset(a[1..]) == multiset(a) - multiset{a[0]}
  {
    assert a == [a[0]] + a[1..];
    assert multiset(a) == multiset{a[0]} + multiset(a[1..]);
  }

  /** The total frequency does not depend on the order of the entries. */
  lemma {:induction false} SumFreqPermutation(a: seq<Entry>, b: seq<Entry>)
    requires multiset(a) == multiset(b)
    ensures SumFreq(a) == SumFreq(b)
    decreases |a|
  {
    if a == [] {
      assert |multiset(b)| == 0;
    } else {
      var x := a[0];
      var left, right := SplitAtFirst(a, b);
      SumFreqPermutation(a[1..], left + right);
      SumFreqAppend(left, [x] + right);
      SumFreqAppend(left, right);
      SumFreqAppend([x], right);
    }
  }

  /** A merged tree's frequency is the total of its leaves', its symbol
      string lists its leaves' symbols in order, and it has one internal
      node fewer than it has leaves. */
  lemma {:induction false} MergedTotals(n: Node)
    requires Merged(n)
    ensures n.f == SumFreq(LeafEntries(n))
    ensures n.c == Symbols(LeafEntries(n))
    ensures InternalCount(n) + 1 == |LeafEntries(n)|
  {
    if !IsLeaf(n) {
      var l, r := n.l.value, n.r.value;
      MergedTotals(l);
      MergedTotals(r);
      SumFreqAppend(LeafEntries(l), LeafEntries(r));
    } else {
      assert Symbols([Entry(n.c, n.f)]) == n.c + Symbols([]);
    }
  }

  /** The leaf entries of a sequence of trees, as one multiset. */
  function LeafBag(s: seq<Node>): multiset<Entry> {
    if s == [] then multiset{} else multiset(LeafEntries(s[0])) + LeafBag(s[1..])
  }

  lemma {:induction false} LeafBagAppend(a: seq<Node>, b: seq<Node>)
    ensures LeafBag(a + b) == LeafBag(a) + LeafBag(b)
  {
    if a != [] {
      assert (a + b)[1..] == a[1..] + b;
      LeafBagAppend(a[1..], b);
    } else {
      assert a + b == b;
    }
  }

  /** The leaves of a forest do not depend on the order of its trees. */
  lemma {:induction false} LeafBagPermutation(a: seq<Node>, b: seq<Node>)
    requires multiset(a) == multiset(b)
    ensures LeafBag(a) == LeafBag(b)
    decreases |a|
  {
    if a == [] {
      assert |multiset(b)| == 0;
    } else {
      var x := a[0];
      var left, right := SplitAtFirst(a, b);
      LeafBagPermutation(a[1..], left + right);
      LeafBagAppend(left, [x] + right);
      LeafBagAppend(left, right);
      LeafBagAppend([x], right);
    }
  }

  /** What removing one tree from a forest (a `pop`) does to its leaves. */
  lemma Shrink(before: seq<Node>, after: seq<Node>, n: Node)
    requires multiset(after) + multiset{n} == multiset(before)
    ensures n in before && forall x :: x in after ==> x in before
    ensures LeafBag(before) == LeafBag(after) + multiset(LeafEntries(n))
  {
    assert n in multiset(before);
    forall x | x in after
      ensures x in before
    {
      assert x in multiset(after);
      assert x in multiset(after) + multiset{n};
    }
    assert multiset(before) == multiset(after + [n]);
    LeafBagPermutation(before, after + [n]);
    LeafBagAppend(after, [n]);
    assert LeafBag([n]) == multiset(LeafEntries(n)) + LeafBag([]);
  }

  /** What adding one tree to a forest (a `push`) does to its leaves. */
  lemma Grow(before: seq<Node>, after: seq<Node>, n: Node)
    requires multiset(after) == multiset(before) + multiset{n}
    ensures forall x :: x in after ==> x in before || x == n
    ensures LeafBag(after) == LeafBag(before) + multiset(LeafEntries(n))
  {
    forall x | x in after
      ensures x in before || x == n
    {
      assert x in multiset(after);
    }
    assert multiset(after) == multiset(before + [n]);
    LeafBagPermutation(after, before + [n]);
    LeafBagAppend(before, [n]);
    assert LeafBag([n]) == multiset(LeafEntries(n)) + LeafBag([]);
  }

  /** Every tree of a forest was built by merging. */
  ghost predicate AllMerged(s: seq<Node>) {
    forall x :: x in s ==> Merged(x)
  }

  /** The node `make_tree` builds from the two trees it popped, the first
      on the left. */
  function Merge(first: Node, second: Node): Node {
    Node(first.c + second.c, first.f + second.f, Some(first), Some(second))
  }

  /** One round of the merge loop: the forest it starts from and the two
      trees it pops. */
  datatype Round = Round(forest: multiset<Node>, first: Node, second: Node)

  /** The round is greedy: it pops a least frequent tree of the forest, then
      a least frequent tree of what remains. */
  ghost predicate Greedy(r: Round) {
    r.first in r.forest && (forall x :: x in r.forest ==> r.first.f <= x.f) &&
    r.second in r.forest - multiset{r.first} &&
    (forall x :: x in r.forest - multiset{r.first} ==> r.second.f <= x.f)
  }

  /** The forest after a round: its two trees replaced by their merge. */
  function After(r: Round): multiset<Node> {
    r.forest - multiset{r.first, r.second} + multiset{Merge(r.first, r.second)}
  }

  /** `trace` is a run of greedy rounds from the forest `start`, each round
      starting from the forest the previous one left. */
  ghost predicate GreedyRun(start: multiset<Node>, trace: seq<Round>) {
    AllGreedy(trace) && Chained(start, trace)
  }

  ghost predicate AllGreedy(trace: seq<Round>) {
    forall k :: 0 <= k < |trace| ==> Greedy(trace[k])
  }

  ghost predicate Chained(start: multiset<Node>, trace: seq<Round>) {
    (trace != [] ==> trace[0].forest == start) &&
    (forall k :: 0 < k < |trace| ==> trace[k].forest == After(trace[k - 1]))
  }

  /** The forest a run of rounds leaves. */
  function Final(start: multiset<Node>, trace: seq<Round>): multiset<Node> {
    if trace == [] then start else After(trace[|trace| - 1])
  }

  /** A greedy round from the forest a run left extends the run. */
  lemma RunExtends(start: multiset<Node>, trace: seq<Round>, r: Round)
    requires GreedyRun(start, trace) && Greedy(r) && r.forest == Final(start, trace)
    ensures GreedyRun(start, trace + [r]) && Final(start, trace + [r]) == After(r)
  {
    GreedyExtends(trace, r);
    ChainExtends(start, trace, r);
  }

  lemma GreedyExtends(trace: seq<Round>, r: Round)
    requires AllGreedy(trace) && Greedy(r)
    ensures AllGreedy(trace + [r])
  {
    var t := trace + [r];
    forall k | 0 <= k < |t|
      ensures Greedy(t[k])
    {
      if k < |trace| {
        assert t[k] == trace[k];
      }
    }
  }

  lemma ChainExtends(start: multiset<Node>, trace: seq<Round>, r: Round)
    requires Chained(start, trace) && r.forest == Final(start, trace)
    ensures Chained(start, trace + [r]) && Final(start, trace + [r]) == After(r)
  {
    var t := trace + [r];
    forall k | 0 < k < |t|
      ensures t[k].forest == After(t[k - 1])
    {
      if k < |trace| {
        assert t[k] == trace[k] && t[k - 1] == trace[k - 1];
      }
    }
  }

  /** The leaves of the first `n` entries, as a forest. */
  function LeafForest(freq: seq<Entry>): multiset<Node> {
    if freq == [] then multiset{} else LeafForest(freq[..|freq| - 1]) + multiset{Leaf(freq[|freq| - 1])}
  }

  /** `make_tree`: one leaf per entry, pushed in key order, then the two
      least frequent trees are merged until one remains. The entry map must
      be non-empty (the final `pop` panics otherwise) and its total must fit
      in a `u32` (the addition in the merge would overflow otherwise).
      `trace` records the rounds of the merge loop. */
  method MakeTree(freq: seq<Entry>) returns (root: Node, ghost trace: seq<Round>)
    requires |freq| > 0 && Ascending(freq)
    requires SumFreq(freq) < 0x1_0000_0000
    ensures Merged(root)
    ensures multiset(LeafEntries(root)) == multiset(freq)
    ensures root.f == SumFreq(freq)
    ensures InternalCount(root) == |freq| - 1
    ensures |freq| == 1 ==> root == Leaf(freq[0])
    ensures GreedyRun(LeafForest(freq), trace) && |trace| == |freq| - 1
    ensures Final(LeafForest(freq), trace) == multiset{root}
  {
    var heap := new MinHeap();
    PushLeaves(heap, freq);
    trace := MergeAll(heap);
    ghost var last := heap.heap;
    root := heap.Pop();
    LastTree(last, root, freq);
  }

  /** The first loop of `make_tree`: a leaf per entry, in key order. */
  method PushLeaves(heap: MinHeap, freq: seq<Entry>)
    modifies heap
    requires heap.Valid() && heap.heap == []
    ensures heap.Valid() && |heap.heap| == |freq|
    ensures multiset(heap.heap) == LeafForest(freq)
    ensures LeafBag(heap.heap) == multiset(freq) && AllMerged(heap.heap)
    ensures |freq| == 1 ==> heap.heap == [Leaf(freq[0])]
  {
    for i := 0 to |freq|
      invariant heap.Valid() && |heap.heap| == i
      invariant multiset(heap.heap) == LeafForest(freq[..i])
      invariant LeafBag(heap.heap) == multiset(freq[..i]) && AllMerged(heap.heap)
      invariant i == 1 ==> heap.heap == [Leaf(freq[0])]
    {
      ghost var before := heap.heap;
      heap.Push(Leaf(freq[i]));
      LeafStep(before, heap.heap, freq, i);
      LeafForestStep(freq, i);
    }
    assert freq[..|freq|] == freq;
  }

  lemma LeafForestStep(freq: seq<Entry>, i: nat)
    requires i < |freq|
    ensures LeafForest(freq[..i + 1]) == LeafForest(freq[..i]) + multiset{Leaf(freq[i])}
  {
    assert freq[..i + 1][..i] == freq[..i];
  }

  lemma PrefixBag<T>(s: seq<T>, i: nat)
    requires i < |s|
    ensures multiset(s[..i + 1]) == multiset(s[..i]) + multiset{s[i]}
  {
    assert s[..i + 1] == s[..i] + [s[i]];
  }

  /** One round of the leaf loop adds the next entry's leaf to the forest. */
  lemma LeafStep(before: seq<Node>, after: seq<Node>, freq: seq<Entry>, i: nat)
    requires i < |freq| && |before| == i
    requires LeafBag(before) == multiset(freq[..i]) && AllMerged(before)
    requires multiset(after) == multiset(before) + multiset{Leaf(freq[i])}
    ensures LeafBag(after) == multiset(freq[..i + 1]) && AllMerged(after)
    ensures i == 0 ==> after == [Leaf(freq[0])]
  {
    var leaf := Leaf(freq[i]);
    Grow(before, after, leaf);
    assert Merged(leaf);
    assert LeafEntries(leaf) == [freq[i]];
    PrefixBag(freq, i);
    if i == 0 {
      assert |after| == |multiset(after)| == 1;
      assert after[0] in multiset(after);
    }
  }

  /** The second loop of `make_tree`: pop the two least frequent trees, push
      their merge, until one tree remains. `trace` records the rounds. */
  method MergeAll(heap: MinHeap) returns (ghost trace: seq<Round>)
    modifies heap
    requires heap.Valid() && |heap.heap| >= 1 && AllMerged(heap.heap)
    ensures heap.Valid() && |heap.heap| == 1 && AllMerged(heap.heap)
    ensures LeafBag(heap.heap) == old(LeafBag(heap.heap))
    ensures |old(heap.heap)| == 1 ==> heap.heap == old(heap.heap)
    ensures GreedyRun(old(multiset(heap.heap)), trace)
    ensures multiset(heap.heap) == Final(old(multiset(heap.heap)), trace)
    ensures |trace| == |old(heap.heap)| - 1
  {
    trace := [];
    while heap.Size() > 1
      invariant heap.Valid() && |heap.heap| >= 1 && AllMerged(heap.heap)
      invariant LeafBag(heap.heap) == old(LeafBag(heap.heap))
      invariant |old(heap.heap)| == 1 ==> heap.heap == old(heap.heap)
      invariant GreedyRun(old(multiset(heap.heap)), trace)
      invariant multiset(heap.heap) == Final(old(multiset(heap.heap)), trace)
      // two pops and one push: one tree fewer per round
      invariant |trace| + |heap.heap| == |old(heap.heap)|
      decreases |heap.heap|
    {
      ghost var h0 := heap.heap;
      var n1 := heap.Pop();
      ghost var h1 := heap.heap;
      var n2 := heap.Pop();
      ghost var h2 := heap.heap;
      var n := Node(n1.c + n2.c, n1.f + n2.f, Some(n1), Some(n2));
      heap.Push(n);
      MergeStep(h0, h1, h2, heap.heap, n1, n2);
      RunExtends(old(multiset(heap.heap)), trace, Round(multiset(h0), n1, n2));
      trace := trace + [Round(multiset(h0), n1, n2)];
    }
  }

  /** One round of the merge loop is greedy, keeps every tree merged and
      leaves the leaves of the forest unchanged. */
  lemma MergeStep(h0: seq<Node>, h1: seq<Node>, h2: seq<Node>, h3: seq<Node>, n1: Node, n2: Node)
    requires AllMerged(h0)
    requires multiset(h1) + multiset{n1} == multiset(h0)
    requires multiset(h2) + multiset{n2} == multiset(h1)
    requires forall x :: x in h0 ==> n1.f <= x.f
    requires forall x :: x in h1 ==> n2.f <= x.f
    requires multiset(h3) == multiset(h2) + multiset{Merge(n1, n2)}
    ensures AllMerged(h3)
    ensures LeafBag(h3) == LeafBag(h0)
    ensures Greedy(Round(multiset(h0), n1, n2))
    ensures multiset(h3) == After(Round(multiset(h0), n1, n2))
  {
    var n := Merge(n1, n2);
    Shrink(h0, h1, n1);
    Shrink(h1, h2, n2);
    Grow(h2, h3, n);
    assert Merged(n);
    PopsGreedy(h0, h1, h2, n1, n2);
  }

  /** Two pops of a min-heap make a greedy round. */
  lemma PopsGreedy(h0: seq<Node>, h1: seq<Node>, h2: seq<Node>, n1: Node, n2: Node)
    requires multiset(h1) + multiset{n1} == multiset(h0)
    requires multiset(h2) + multiset{n2} == multiset(h1)
    requires forall x :: x in h0 ==> n1.f <= x.f
    requires forall x :: x in h1 ==> n2.f <= x.f
    ensures Greedy(Round(multiset(h0), n1, n2))
    ensures After(Round(multiset(h0), n1, n2)) == multiset(h2) + multiset{Merge(n1, n2)}
  {
    TwoRemoved(multiset(h0), multiset(h1), multiset(h2), n1, n2);
    LeastOfBag(h0, n1);
    LeastOfBag(h1, n2);
  }

  lemma TwoRemoved<T>(m0: multiset<T>, m1: multiset<T>, m2: multiset<T>, a: T, b: T)
    requires m1 + multiset{a} == m0 && m2 + multiset{b} == m1
    ensures a in m0 && m0 - multiset{a} == m1
    ensures b in m1 && m0 - multiset{a, b} == m2
  {
    assert m0 - multiset{a, b} == (m0 - multiset{a}) - multiset{b};
  }

  lemma LeastOfBag(s: seq<Node>, n: Node)
    requires forall x :: x in s ==> n.f <= x.f
    ensures forall x :: x in multiset(s) ==> n.f <= x.f
  {
  }

  /** The tree left in a one-tree forest holds all of its leaves. */
  lemma LastTree(last: seq<Node>, root: Node, freq: seq<Entry>)
    requires multiset(last) == multiset{root}
    requires AllMerged(last) && LeafBag(last) == multiset(freq)
    ensures Merged(root)
    ensures multiset(LeafEntries(root)) == multiset(freq)
    ensures root.f == SumFreq(freq)
    ensures InternalCount(root) == |freq| - 1
  {
    Singleton(last, root);
    assert LeafBag(last) == multiset(LeafEntries(root)) + LeafBag([]);
    MergedTotals(root);
    SumFreqPermutation(LeafEntries(root), freq);
    assert |multiset(LeafEntries(root))| == |freq|;
  }

  lemma Singleton<T>(s: seq<T>, x: T)
    requires multiset(s) == multiset{x}
    ensures s == [x]
  {
    assert x in multiset(s);
    assert |s| == |multiset(s)| == 1;
  }

  /** A merged tree with one internal node and two leaves of different
      frequencies has the less frequent one on the left. */
  lemma TwoLeafTree(root: Node, big: Entry, small: Entry)
    requires Merged(root) && InternalCount(root) == 1
    requires multiset(LeafEntries(root)) == multiset{big, small}
    requires small.freq < big.freq
    ensures root == Node(small.key + big.key, small.freq + big.freq, Some(Leaf(small)), Some(Leaf(big)))
  {
    var l, r := root.l.value, root.r.value;
    assert IsLeaf(l) && IsLeaf(r);
    var x, y := Entry(l.c, l.f), Entry(r.c, r.f);
    assert LeafEntries(root) == [x, y];
    assert x in multiset{big, small} && y in multiset{big, small};
    assert x == small && y == big;
  }

  /** `make_tree` on {A: 3, B: 1}: B, popped first, becomes the left child. */
  method TwoEntries() returns (root: Node)
    ensures root == Node("BA", 4, Some(Leaf(Entry("B", 1))), Some(Leaf(Entry("A", 3))))
  {
    var freq := [Entry("A", 3), Entry("B", 1)];
    assert Less("A", "B");
    ghost var trace;
    root, trace := MakeTree(freq);
    TwoLeafTree(root, Entry("A", 3), Entry("B", 1));
  }
}
