# huffman_minheap in Dafny

A model of the Huffman decoder in `huffman_minheap`. The program reads a
hexadecimal string that holds a frequency table and a packed bit string.
It rebuilds the Huffman tree with a binary min-heap, then decodes the bits
back to text. The model covers these pieces:

- `common.dfy`, module `Common`. Holds `Option`, `Result`, and the `byte`
  and `u32` ranges.
- `nodes.dfy`, module `Nodes`. Defines the tree `Node`, with symbol string
  `c`, frequency `f` and optional children `l` and `r`, and its two
  comparisons `lt` and `le`.
- `min_heap.dfy`, module `MinHeaps`. Models `MinHeap` as a class over the
  sequence `heap`:
  - `Swap`, `Push` and `Pop` update that sequence in place.
  - The sift-up and sift-down loops are proved against a heap-order
    predicate and a multiset footprint.
- `hex.dfy`, module `Hex`. Models `hex_to_bytes`, including the leading `+`
  that `u8::from_str_radix` accepts. `ToHex` is an independent inverse, and
  a round-trip lemma links the two.
- `freqs.dfy`, module `Freqs`. Covers the frequency table:
  - `BTreeMap<String, u32>` is a key-ascending sequence of entries under
    `Insert`.
  - The little-endian `u32` layout (`<I`) has round-trip lemmas in both
    directions.
  - `get_freqs` is a loop that advances through the input. Its result is
    tied to `Table`, the map after inserting the first n entries. Lemmas
    about `Table` show that a later duplicate key overwrites an earlier one.
- `tree.dfy`, module `HuffmanTree`. Models `make_tree`:
  - It pushes one leaf per entry in key order.
  - It then merges the two least frequent trees until one remains.
  - It is proved to return a merged tree. That tree has exactly the
    entries as leaves, the total frequency at the root, and n - 1
    internal nodes.
  - A ghost trace of the merge rounds shows that every round is greedy.
    It pops a least frequent tree, then a least frequent tree of the rest,
    and replaces the two with their merge.
- `decode.dfy`, module `BitDecoder`. Models `decode`:
  - The bits are read most significant first and cut to `packed_bits`.
  - The nested loops are a method.
  - The method is proved equal to a functional decoder, `DecodeFrom`.
  - `DecodeFrom` is proved sound and complete against code paths: a
    result exists exactly when the bits are a concatenation of
    root-to-leaf codes, and it is the list of their symbols.

Two behaviours of the code deserve a statement:

- When the tree's root is a leaf, which happens for a one-entry table, `decode` fails on any non-empty bit string. The root has no child to step to, so no bit decodes to its symbol (`BitDecoder.LeafRootFails`).
- A `packed_bits` larger than the number of packed bits is not an error by itself. `truncate` then keeps every bit, and decoding proceeds on those bits (`BitDecoder.Truncate`).

## Model

| member | source | states |
|---|---|---|
| Nodes.Le | src/lib.rs:16-22 | `le(a, b)` holds exactly when `lt(b, a)` does not; both compare only `f` |
| Nodes.OrderIgnoresPayload | src/lib.rs:16-22 | nodes with equal frequencies compare the same way, whatever their symbols and children |
| Nodes.LeIsTotalPreorder | src/lib.rs:20-22 | `le` is reflexive, transitive and total |
| MinHeaps.HalfTowardZero | src/lib.rs:49 | signed `/ 2` truncates toward zero: the remainder has the sign of the dividend, so `(0 - 1) / 2` is 0 |
| MinHeaps.MinHeap.Size | src/lib.rs:34-36 | `size` is the number of nodes held |
| MinHeaps.MinHeap.constructor | src/lib.rs:30-32 | `new` gives an empty heap, which is heap-ordered |
| MinHeaps.MinHeap.Swap | src/lib.rs:38-42 | slots `i` and `j` are exchanged, every other slot and the length are unchanged, and the multiset of nodes is kept |
| MinHeaps.MinHeap.Push | src/lib.rs:44-63 | heap order is preserved, the size grows by exactly 1, the contents are the old contents plus `node` as a multiset, and pushing onto an empty heap gives `[node]` |
| MinHeaps.MinHeap.SiftUp | src/lib.rs:46-62 | from a single defect at the last slot, the loop restores heap order by swaps only, and never moves a lone element |
| MinHeaps.SiftUpStep | src/lib.rs:53-58 | swapping a child with a strictly larger parent moves the only order defect up to the parent slot |
| MinHeaps.SiftUpDone | src/lib.rs:49-61 | at the root, or once the parent is no larger than the child, the whole heap is ordered |
| MinHeaps.MinHeap.Pop | src/lib.rs:65-97 | needs a non-empty heap; returns the old root, whose `f` is no larger than any element's; the size drops by 1; the rest is the old multiset minus the returned node; heap order is preserved |
| MinHeaps.LastToRoot | src/lib.rs:66-76 | after removal of the root and the move of the last element to slot 0, the multiset is the old one minus the root, and the order holds everywhere except below slot 0 |
| MinHeaps.MinHeap.SiftDown | src/lib.rs:78-96 | from a single defect at the root, the loop restores heap order by swaps only, keeping the length and the multiset of nodes |
| MinHeaps.SiftDownStep | src/lib.rs:81-93 | swapping a parent with its smaller child, when that child is strictly smaller, moves the only order defect down to that child |
| MinHeaps.SiftDownDone | src/lib.rs:80-89 | once the parent is no larger than its smaller child, or it has no child, the whole heap is ordered |
| MinHeaps.RootIsMin | src/lib.rs:66 | in an ordered heap every slot's frequency is at least the root's (induction up the parent chain) |
| MinHeaps.RootIsLeast | src/lib.rs:66 | the root's frequency is no larger than that of any node in the heap |
| Hex.HexToBytes | src/lib.rs:100-105 | for an even-length ASCII string, the result is `Ok` exactly when every pair parses, and it then has `len / 2` bytes, byte k being the value of pair k |
| Hex.ParseByte | src/lib.rs:103 | `u8::from_str_radix` in base 16 on two characters: it succeeds exactly when the second is a digit and the first is a digit or `+`; the value is `16 * high + low`, or the single digit after `+` |
| Hex.PairOfDigits | src/lib.rs:103 | two hex digits parse to `16 * high + low` |
| Hex.HexRoundTrip | src/lib.rs:100-105 | the hexadecimal text of any byte string parses back to those bytes |
| Freqs.LessIrreflexive | src/main.rs:36 | the key order of the map is irreflexive |
| Freqs.LessTransitive | src/main.rs:36 | the key order of the map is transitive |
| Freqs.LessTotal | src/main.rs:36 | any two distinct keys are ordered one way or the other |
| Freqs.InsertSpec | src/main.rs:36 | `insert` keeps the keys ascending; afterwards the map holds the new binding and every old binding of another key, and nothing else |
| Freqs.LE32OfEncode | src/main.rs:21-28 | reading back the four little-endian bytes of a `u32` gives that `u32` |
| Freqs.EncodeOfLE32 | src/main.rs:21-28 | the little-endian bytes of the `u32` read at an offset are the four bytes read |
| Freqs.EntryAt | src/main.rs:27-35 | entry i's key is one character and its frequency fits in a `u32`; both are read from the 8 bytes at `12 + 8 * i` |
| Freqs.TableAscending | src/main.rs:19-37 | the map built from any input is key-ascending |
| Freqs.TableStep | src/main.rs:36 | the map after n entries is the map after n - 1 entries, with entry n - 1 added and any older binding of its key dropped |
| Freqs.LatestInTable | src/main.rs:26-37 | an entry that no later entry overwrites is in the map |
| Freqs.TableHoldsLatest | src/main.rs:26-37 | every binding in the map is some entry that no later entry overwrites |
| Freqs.GetFreqs | src/main.rs:16-40 | `read` is `12 + 8 * chars`, and the map is the one that results from inserting the announced entries in order |
| HuffmanTree.MakeTree | src/main.rs:42-61 | needs a non-empty map; returns a merged tree whose leaves are exactly the map's entries, each once, whose root frequency is the total and which has n - 1 internal nodes; a one-entry map gives its leaf unchanged; the returned trace is a run of n - 1 greedy rounds from the leaves that leaves only the root |
| HuffmanTree.PushLeaves | src/main.rs:43-46 | after the first loop the heap holds one leaf per entry and nothing else; a one-entry map gives `[leaf]` |
| HuffmanTree.LeafStep | src/main.rs:44-45 | pushing entry i's leaf adds exactly that entry to the forest's leaves |
| HuffmanTree.MergeAll | src/main.rs:48-58 | the merge loop runs one round fewer than there are trees; every round pops a least frequent tree and then a least frequent tree of the rest, and the next round starts from the forest with those two replaced by their merge; it ends with one tree, keeps every tree merged and the forest's leaves unchanged, and does nothing to a one-tree heap |
| HuffmanTree.PopsGreedy | src/main.rs:49-50 | two pops of a min-heap take a least frequent tree, then a least frequent tree of the rest |
| HuffmanTree.RunExtends | src/main.rs:48-58 | a greedy round from the forest a run left extends the run, and the run then leaves that round's result |
| HuffmanTree.MergeStep | src/main.rs:49-57 | the node built from two pops has the first popped (no larger) node on the left, `f = l.f + r.f` and `c = l.c + r.c`; the round is greedy, its result is the forest with the two trees replaced by their merge, and it keeps the forest's leaves unchanged |
| HuffmanTree.LastTree | src/main.rs:60 | the last tree popped holds all leaves, has the total frequency and has one internal node fewer than there are entries |
| HuffmanTree.MergedTotals | src/main.rs:51-56 | in a merged tree, the frequency is the sum of the leaf frequencies, the symbol string is the left-to-right concatenation of the leaf symbols, and there is one internal node fewer than there are leaves |
| HuffmanTree.SumFreqPermutation | src/main.rs:53 | the total frequency does not depend on the order of the leaves |
| HuffmanTree.TwoLeafTree | src/main.rs:49-56 | a merged tree with two leaves of different frequencies has the less frequent one on the left |
| HuffmanTree.TwoEntries | src/main.rs:42-61 | `{A: 3, B: 1}` gives the root `"BA"` with frequency 4, left child B and right child A |
| BitDecoder.BitsOf | src/main.rs:64 | there are 8 bits per byte; bit k is bit `k % 8` of byte `k / 8`, counted from the most significant bit |
| BitDecoder.MostSignificantFirst | src/main.rs:64 | the first bit of each byte's group of eight is its top bit, and the last is its bottom bit |
| BitDecoder.Truncate | src/main.rs:65 | keeps a prefix of length `min(k, len)` |
| BitDecoder.Walk | src/main.rs:72-93 | a successful walk ends at a leaf, after at least one bit and within the bits |
| BitDecoder.WalkFollows | src/main.rs:72-93 | the bits a successful walk consumed are a route from its start to the leaf it reached |
| BitDecoder.FollowWalks | src/main.rs:72-93 | a route to a leaf written at `pos` is what the walk follows: it reaches that leaf, just after the route |
| BitDecoder.Decode | src/main.rs:63-98 | the nested loops return exactly the functional decoder's result: `Err` when it fails, the joined symbols otherwise |
| BitDecoder.OneFails | src/main.rs:73-86 | a walk that runs out of bits or misses a child makes the whole decoding `Err` |
| BitDecoder.OneDecoded | src/main.rs:89-94 | a walk that reaches a leaf contributes that leaf's symbol before the rest |
| BitDecoder.DecodeSound | src/main.rs:67-97 | a successful decoding's symbols each have a code, and those codes concatenate to exactly the remaining bits |
| BitDecoder.DecodeComplete | src/main.rs:67-97 | bits that are a concatenation of codes decode to exactly those codes' symbols |
| BitDecoder.DecodedSound | src/main.rs:63-98 | an `Ok(s)` result is the join of symbols whose codes concatenate to exactly the first `packed_bits` bits |
| BitDecoder.DecodedComplete | src/main.rs:63-98 | when the first `packed_bits` bits are a concatenation of codes, the result is the join of their symbols, so `Err` means no such split exists |
| BitDecoder.NoBitsNoSymbols | src/main.rs:64-97 | zero announced bits give `Ok("")` |
| BitDecoder.TwoSymbolDecoding | src/main.rs:63-98 | with the tree built for {A: 3, B: 1}, the single bit 0 decodes to "B" and the single bit 1 to "A" |
| BitDecoder.LeafRootFails | src/main.rs:77-86 | a tree whose root is a leaf fails on any non-empty bit string |

## Left out

- `main` and `from_string` (src/main.rs:9-14, 100-115) are not modelled. They hold a hard-coded input and `println!`, and `from_string` only chains parse, `make_tree` and `decode`.
- The `structure!` and `byteio` macros are replaced by the fixed layouts they denote: `<3I`, `<I` and `<B3x`. The `.unwrap()` panics on short input are the precondition `HeaderFits` of `Freqs.GetFreqs`.
- The first two header words, which `get_freqs` reads and discards, are not named. The header words that `from_string` reads after the table are not modelled either.
- `BitVec` is a sequence of booleans. `BitsOf` is `from_bytes` and `Truncate` is `truncate`.
- Frequencies are unbounded `nat`s. The `u32` overflow of `n1.f + n2.f` is excluded by the precondition of `HuffmanTree.MakeTree` that the total fits in a `u32`.
- Hex.HexToBytes: it requires an even-length ASCII string, so that every pair is two characters. On other strings the source panics on some inputs. On others it returns `Err`: an odd-length string with an earlier bad pair (`"zz0"`), or a non-ASCII character whose slice lands on character boundaries (`"é00"`). Those strings are not modelled. Other quirks of `u8::from_str_radix` are not modelled beyond the leading `+` and the rejection of non-digits.
- A symbol byte is a one-character string. UTF-8 encoding of bytes at or above 0x80 is not modelled, and neither are `Clone` and `Box` allocation.
- Two arms of the source are dead and are not modelled:
  - the `-1` arm of `push` (src/lib.rs:50), because `(child_index - 1) / 2` is never -1;
  - the `None` arm of `pop` (src/lib.rs:74), because `heap[0]` is indexed first.
- The sift-up and sift-down loops of `push` and `pop` are separate methods, `SiftUp` and `SiftDown`. Likewise, the two loops of `make_tree` are `PushLeaves` and `MergeAll`.
- MinHeaps.MinHeap.Push: its contract gives the new contents as a multiset with heap order, not the exact slot of each node. The method body does reproduce the source's slot arrangement, and with it the tie-breaking between equal frequencies.
- MinHeaps.MinHeap.Pop: its contract gives the new contents as a multiset with heap order, not the exact slot of each node. The method body does reproduce the source's slot arrangement.
- MinHeaps.MinHeap.SiftDown: its contract gives the new contents as a multiset with heap order, not the exact slot of each node. The strict preference for the left child on a tie is in the method body only.
- HuffmanTree.MakeTree: when several trees tie for least frequent, its contract does not say which of them a round pops. So it does not fix which side tied trees end up on. That each round merges two least frequent trees is stated.
