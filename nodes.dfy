/** The tree and heap element of the Huffman decoder (`Node` in src/lib.rs). */
module Nodes {
  import opened Common

  /** A node carries a symbol string `c`, a frequency `f` and two optional
      children. Both children are kept as independent options, as in the
      source: a node is a leaf exactly when both are absent. */
  datatype Node = Node(c: string, f: nat, l: Option<Node>, r: Option<Node>)

  predicate IsLeaf(n: Node) {
    n.l.None? && n.r.None?
  }

  /** `Node::lt`: strict comparison by frequency only. */
  function Lt(a: Node, b: Node): bool {
    a.f < b.f
  }

  /** `Node::le`: the non-strict comparison; it is the complement of `Lt`
      with the arguments exchanged. */
  function Le(a: Node, b: Node): (r: bool)
    ensures r == !Lt(b, a)
  {
    a.f <= b.f
  }

  /** The ordering consults the frequency alone: nodes that agree on `f`
      compare the same whatever their symbols and children. */
  lemma OrderIgnoresPayload(a: Node, a': Node, b: Node, b': Node)
    requires a.f == a'.f && b.f == b'.f
    ensures Lt(a, b) == Lt(a', b') && Le(a, b) == Le(a', b')
  {
  }

  /** `Le` is a total preorder: reflexive, transitive and total. */
  lemma LeIsTotalPreorder(a: Node, b: Node, d: Node)
    ensures Le(a, a)
    ensures Le(a, b) && Le(b, d) ==> Le(a, d)
    ensures Le(a, b) || Le(b, a)
  {
  }
}
