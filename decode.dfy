/** The bit decoder, `decode` (src/main.rs): the packed bytes are read as a
    bit string, most significant bit first, cut to the announced length, and
    the Huffman tree is walked from the root once per symbol, 0 going left
    and 1 going right, a symbol being emitted at each leaf. */
module BitDecoder {
  import opened Common
  import opened Nodes

  function Pow2(n: nat): (p: nat)
    ensures p > 0
  {
    if n == 0 then 1 else 2 * Pow2(n - 1)
  }

  /** Bit `j` of a byte, counting from the most significant one (j = 0). */
  function BitOf(b: byte, j: nat): bool
    requires j < 8
  {
    (b / Pow2(7 - j)) % 2 == 1
  }

  /** The bits of a byte string, most significant bit of each byte first
      (`BitVec::from_bytes`). */
  function BitsOf(bytes: seq<byte>): (bits: seq<bool>)
    ensures |bits| == 8 * |bytes|
    ensures forall k :: 0 <= k < |bits| ==> bits[k] == BitOf(bytes[k / 8], k % 8)
  {
    if bytes == [] then []
    else
      var rest := BitsOf(bytes[1..]);
      var first := seq(8, j requires 0 <= j < 8 => BitOf(bytes[0], j));
      assert forall k :: 8 <= k < 8 * |bytes| ==> (first + rest)[k] == rest[k - 8];
      first + rest
  }

  /** `BitVec::truncate`: keep the first `k` bits, or all of them when there
      are fewer than `k`. */
  function Truncate(bits: seq<bool>, k: nat): (r: seq<bool>)
    ensures |r| == if k < |bits| then k else |bits|
    ensures r <= bits
  {
    if k < |bits| then bits[..k] else bits
  }

  /** One pass of the inner loop of `decode`: from node `n`, follow the bits
      from `pos` on until a leaf is reached. The result is that leaf and the
      position after its last bit, or `Err` when the bits run out or a
      needed child is missing. */
  function Walk(n: Node, bits: seq<bool>, pos: nat): (w: Result<(Node, nat)>)
    ensures w.Ok? ==> pos < w.value.1 <= |bits| && IsLeaf(w.value.0)
    decreases |bits| - pos
  {
    if pos >= |bits| then Err
    else
      var child := if bits[pos] then n.r else n.l;
      if child.None? then Err
      else if IsLeaf(child.value) then Ok((child.value, pos + 1))
      else Walk(child.value, bits, pos + 1)
  }

  /** The symbols the outer loop of `decode` collects from `pos` on. */
  function DecodeFrom(tree: Node, bits: seq<bool>, pos: nat): Result<seq<string>>
    decreases |bits| - pos
  {
    if pos >= |bits| then Ok([])
    else
      match Walk(tree, bits, pos)
      case Err => Err
      case Ok((leaf, next)) =>
        match DecodeFrom(tree, bits, next)
        case Err => Err
        case Ok(rest) => Ok([leaf.c] + rest)
  }

  /** `join("")`. */
  function Concat(ss: seq<string>): string {
    if ss == [] then [] else ss[0] + Concat(ss[1..])
  }

  /** The result `decode(tree, packed, packed_bits)` returns. */
  function Decoded(tree: Node, packed: seq<byte>, packedBits: u32): Result<string> {
    match DecodeFrom(tree, Truncate(BitsOf(packed), packedBits), 0)
    case Err => Err
    case Ok(syms) => Ok(Concat(syms))
  }

  /** Symbols already collected, in front of those still to come. */
  function Prepend(front: seq<string>, r: Result<seq<string>>): Result<seq<string>> {
    if r.Ok? then Ok(front + r.value) else Err
  }

  /** `decode`: the nested loops advance a cursor `pos` over the bits and
      push every leaf's symbol onto `unpacked`. */
  method Decode(tree: Node, packed: seq<byte>, packedBits: u32) returns (r: Result<string>)
    ensures r == Decoded(tree, packed, packedBits)
  {
    var bits := Truncate(BitsOf(packed), packedBits);
    var unpacked: seq<string> := [];
    var pos: nat := 0;
    PrependNothing(DecodeFrom(tree, bits, 0));
    while pos < |bits|
      invariant pos <= |bits|
      invariant DecodeFrom(tree, bits, 0) == Prepend(unpacked, DecodeFrom(tree, bits, pos))
      decreases |bits| - pos
    {
      var node := tree;
      ghost var start := pos;
      while true
        invariant start <= pos <= |bits|
        invariant Walk(tree, bits, start) == Walk(node, bits, pos)
        decreases |bits| - pos
      {
        if pos >= |bits| {
          OneFails(tree, bits, start);
          return Err;
        }
        if bits[pos] {
          if node.r.None? {
            OneFails(tree, bits, start);
            return Err;
          }
          node := node.r.value;
        } else {
          if node.l.None? {
            OneFails(tree, bits, start);
            return Err;
          }
          node := node.l.value;
        }
        pos := pos + 1;
        if IsLeaf(node) {
          assert Walk(tree, bits, start) == Ok((node, pos));
          break;
        }
      }
      OneDecoded(tree, bits, start, unpacked);
      unpacked := unpacked + [node.c];
    }
    assert unpacked + [] == unpacked;
    r := Ok(Concat(unpacked));
  }

  lemma PrependNothing(r: Result<seq<string>>)
    ensures Prepend([], r) == r
  {
    if r.Ok? {
      assert [] + r.value == r.value;
    }
  }

  /** A walk that fails makes the whole decoding fail. */
  lemma OneFails(tree: Node, bits: seq<bool>, start: nat)
    requires start < |bits| && Walk(tree, bits, start).Err?
    ensures DecodeFrom(tree, bits, start) == Err
  {
  }

  /** A walk that reaches a leaf contributes that leaf's symbol. */
  lemma OneDecoded(tree: Node, bits: seq<bool>, start: nat, front: seq<string>)
    requires start < |bits| && Walk(tree, bits, start).Ok?
    ensures Prepend(front, DecodeFrom(tree, bits, start)) ==
            Prepend(front + [Walk(tree, bits, start).value.0.c], DecodeFrom(tree, bits, Walk(tree, bits, start).value.1))
  {
    var w := Walk(tree, bits, start).value;
    var rest := DecodeFrom(tree, bits, w.1);
    if rest.Ok? {
      assert front + ([w.0.c] + rest.value) == front + [w.0.c] + rest.value;
    }
  }

  /** The node reached from `n` along `path`, if every step has its child. */
  function Follow(n: Node, path: seq<bool>): Option<Node>
    decreases |path|
  {
    if path == [] then Some(n)
    else
      var child := if path[0] then n.r else n.l;
      if child.None? then None else Follow(child.value, path[1..])
  }

  /** `path` is the code of symbol `sym` in `tree`: a non-empty route from the
      root to a leaf carrying `sym`. */
  ghost predicate IsCode(tree: Node, path: seq<bool>, sym: string) {
    |path| > 0 && Follow(tree, path).Some? &&
    IsLeaf(Follow(tree, path).value) && Follow(tree, path).value.c == sym
  }

  function Flatten(codes: seq<seq<bool>>): seq<bool> {
    if codes == [] then [] else codes[0] + Flatten(codes[1..])
  }

  /** A walk that reaches a leaf has followed a route to that leaf. */
  lemma {:induction false} WalkFollows(n: Node, bits: seq<bool>, pos: nat)
    requires Walk(n, bits, pos).Ok?
    ensures Follow(n, bits[pos..Walk(n, bits, pos).value.1]) == Some(Walk(n, bits, pos).value.0)
    decreases |bits| - pos
  {
    var child := if bits[pos] then n.r else n.l;
    var q := Walk(n, bits, pos).value.1;
    assert bits[pos..q][1..] == bits[pos + 1..q];
    if !IsLeaf(child.value) {
      WalkFollows(child.value, bits, pos + 1);
    }
  }

  /** A route to a leaf, written at `pos`, is what the walk follows. */
  lemma {:induction false} FollowWalks(n: Node, bits: seq<bool>, pos: nat, path: seq<bool>)
    requires |path| > 0 && pos + |path| <= |bits| && bits[pos..pos + |path|] == path
    requires Follow(n, path).Some? && IsLeaf(Follow(n, path).value)
    ensures Walk(n, bits, pos) == Ok((Follow(n, path).value, pos + |path|))
    decreases |path|
  {
    assert bits[pos] == path[0];
    var child := if path[0] then n.r else n.l;
    if |path| > 1 {
      assert bits[pos + 1..pos + |path|] == path[1..];
      if !IsLeaf(child.value) {
        FollowWalks(child.value, bits, pos + 1, path[1..]);
      }
    }
  }

  /** Soundness: when decoding succeeds, the bits from `pos` on are the
      concatenation of the codes of the decoded symbols. */
  lemma {:induction false} DecodeSound(tree: Node, bits: seq<bool>, pos: nat) returns (codes: seq<seq<bool>>)
    requires pos <= |bits| && DecodeFrom(tree, bits, pos).Ok?
    ensures |codes| == |DecodeFrom(tree, bits, pos).value|
    ensures forall i :: 0 <= i < |codes| ==> IsCode(tree, codes[i], DecodeFrom(tree, bits, pos).value[i])
    ensures Flatten(codes) == bits[pos..]
    decreases |bits| - pos
  {
    if pos == |bits| {
      codes := [];
    } else {
      var w := Walk(tree, bits, pos).value;
      var q := w.1;
      WalkFollows(tree, bits, pos);
      var more := DecodeSound(tree, bits, q);
      codes := [bits[pos..q]] + more;
      assert codes[1..] == more;
      assert bits[pos..] == bits[pos..q] + bits[q..];
      forall i | 0 <= i < |codes|
        ensures IsCode(tree, codes[i], DecodeFrom(tree, bits, pos).value[i])
      {
        if i > 0 {
          assert codes[i] == more[i - 1];
        }
      }
    }
  }

  /** Completeness: bits that are a concatenation of codes decode to exactly
      the symbols of those codes. */
  lemma {:induction false} DecodeComplete(tree: Node, bits: seq<bool>, pos: nat, codes: seq<seq<bool>>, syms: seq<string>)
    requires pos <= |bits| && Flatten(codes) == bits[pos..]
    requires |codes| == |syms| && forall i :: 0 <= i < |codes| ==> IsCode(tree, codes[i], syms[i])
    ensures DecodeFrom(tree, bits, pos) == Ok(syms)
    decreases |codes|
  {
    if codes == [] {
      assert |bits[pos..]| == 0;
    } else {
      var p := codes[0];
      assert IsCode(tree, codes[0], syms[0]);
      assert bits[pos..] == p + Flatten(codes[1..]);
      assert bits[pos..pos + |p|] == p;
      FollowWalks(tree, bits, pos, p);
      assert bits[pos + |p|..] == Flatten(codes[1..]);
      forall i | 0 <= i < |codes[1..]|
        ensures IsCode(tree, codes[1..][i], syms[1..][i])
      {
        assert IsCode(tree, codes[i + 1], syms[i + 1]);
      }
      DecodeComplete(tree, bits, pos + |p|, codes[1..], syms[1..]);
      assert syms == [syms[0]] + syms[1..];
    }
  }

  /** A tree that is a single leaf has no code: any bits make `decode` fail. */
  lemma LeafRootFails(tree: Node, bits: seq<bool>, pos: nat)
    requires IsLeaf(tree) && pos < |bits|
    ensures DecodeFrom(tree, bits, pos) == Err
  {
    assert Walk(tree, bits, pos) == Err;
  }

  /** What a successful `decode` returns: the symbols of a list of codes
      whose concatenation is exactly the first `packed_bits` bits. */
  lemma DecodedSound(tree: Node, packed: seq<byte>, packedBits: u32) returns (codes: seq<seq<bool>>, syms: seq<string>)
    requires Decoded(tree, packed, packedBits).Ok?
    ensures Decoded(tree, packed, packedBits) == Ok(Concat(syms))
    ensures |codes| == |syms| && forall i :: 0 <= i < |codes| ==> IsCode(tree, codes[i], syms[i])
    ensures Flatten(codes) == Truncate(BitsOf(packed), packedBits)
  {
    var bits := Truncate(BitsOf(packed), packedBits);
    syms := DecodeFrom(tree, bits, 0).value;
    codes := DecodeSound(tree, bits, 0);
    assert bits[0..] == bits;
  }

  /** Conversely, bits made of codes are decoded, so `decode` fails exactly
      when the bits are not a concatenation of codes. */
  lemma DecodedComplete(tree: Node, packed: seq<byte>, packedBits: u32, codes: seq<seq<bool>>, syms: seq<string>)
    requires Flatten(codes) == Truncate(BitsOf(packed), packedBits)
    requires |codes| == |syms| && forall i :: 0 <= i < |codes| ==> IsCode(tree, codes[i], syms[i])
    ensures Decoded(tree, packed, packedBits) == Ok(Concat(syms))
  {
    var bits := Truncate(BitsOf(packed), packedBits);
    assert bits[0..] == bits;
    DecodeComplete(tree, bits, 0, codes, syms);
  }

  /** With zero announced bits the result is the empty string, whatever the
      packed bytes hold. */
  lemma NoBitsNoSymbols(tree: Node, packed: seq<byte>)
    ensures Decoded(tree, packed, 0) == Ok("")
  {
    assert Truncate(BitsOf(packed), 0) == [];
  }

  /** The first bit of a byte is its top bit, the last its bottom bit. */
  lemma ByteEnds(b: byte)
    ensures BitOf(b, 0) <==> b >= 0x80
    ensures BitOf(b, 7) <==> b % 2 == 1
  {
    assert Pow2(7) == 0x80 by {
      assert Pow2(1) == 2 && Pow2(2) == 4 && Pow2(3) == 8;
      assert Pow2(4) == 16 && Pow2(5) == 32 && Pow2(6) == 64;
    }
    assert Pow2(0) == 1;
    assert b / 0x80 == if b >= 0x80 then 1 else 0;
  }

  /** Bits are taken most significant first: the first bit of each byte's
      group of eight is its top bit, the last one its bottom bit. */
  lemma MostSignificantFirst(bytes: seq<byte>, i: nat)
    requires i < |bytes|
    ensures BitsOf(bytes)[8 * i] <==> bytes[i] >= 0x80
    ensures BitsOf(bytes)[8 * i + 7] <==> bytes[i] % 2 == 1
  {
    var bits := BitsOf(bytes);
    assert (8 * i) / 8 == i && (8 * i) % 8 == 0;
    assert (8 * i + 7) / 8 == i && (8 * i + 7) % 8 == 7;
    assert bits[8 * i] == BitOf(bytes[i], 0);
    assert bits[8 * i + 7] == BitOf(bytes[i], 7);
    ByteEnds(bytes[i]);
  }

  /** The tree `make_tree` builds for {A: 3, B: 1} decodes bit 0 to "B" and
      bit 1 to "A"; the seven padding bits of the byte are ignored. */
  lemma TwoSymbolDecoding()
    ensures Decoded(Node("BA", 4, Some(Node("B", 1, None, None)), Some(Node("A", 3, None, None))), [0x00], 1) == Ok("B")
    ensures Decoded(Node("BA", 4, Some(Node("B", 1, None, None)), Some(Node("A", 3, None, None))), [0x80], 1) == Ok("A")
  {
    var tree := Node("BA", 4, Some(Node("B", 1, None, None)), Some(Node("A", 3, None, None)));
    ByteEnds(0x00);
    ByteEnds(0x80);
    var zero, one := Truncate(BitsOf([0x00]), 1), Truncate(BitsOf([0x80]), 1);
    assert zero == [false] && one == [true];
    var b, a := Node("B", 1, None, None), Node("A", 3, None, None);
    assert Walk(tree, zero, 0) == Ok((b, 1)) && DecodeFrom(tree, zero, 1) == Ok([]);
    assert Walk(tree, one, 0) == Ok((a, 1)) && DecodeFrom(tree, one, 1) == Ok([]);
    assert [b.c] + [] == ["B"] && [a.c] + [] == ["A"];
    assert DecodeFrom(tree, zero, 0) == Ok(["B"]);
    assert DecodeFrom(tree, one, 0) == Ok(["A"]);
    assert Concat([]) == [] && "B" + [] == "B" && "A" + [] == "A";
    assert Concat(["B"]) == "B" + Concat([]) == "B";
    assert Concat(["A"]) == "A" + Concat([]) == "A";
  }
}
