/** The tree node of node.py. A node with a key is a leaf holding one byte
    and its frequency; a node without a key is an internal node with two
    children. Nodes compare by their `value` alone. */
module HuffmanNode {
  import opened Common

  datatype Node =
    | Leaf(key: Byte, value: nat)
    | Internal(value: nat, left: Node, right: Node)

  /** `a > b` (`__gt__`). */
  predicate Gt(a: Node, b: Node) { a.value > b.value }

  /** `a < b` (`__lt__`), the comparison `heapq` uses. */
  predicate Lt(a: Node, b: Node) { a.value < b.value }

  /** `a >= b` (`__ge__`). */
  predicate Ge(a: Node, b: Node) { a.value >= b.value }

  /** `a <= b` (`__le__`). */
  predicate Le(a: Node, b: Node) { a.value <= b.value }

  /** `<=` is the negation of `>`, `>=` the negation of `<`, and two nodes of
      equal value are neither smaller nor greater than each other. */
  lemma ComparisonDuality(a: Node, b: Node)
    ensures Le(a, b) <==> !Gt(a, b)
    ensures Ge(a, b) <==> !Lt(a, b)
    ensures Lt(a, b) <==> Gt(b, a)
    ensures a.value == b.value ==> !Lt(a, b) && !Gt(a, b) && Le(a, b) && Ge(a, b)
  {
  }

  /** Comparisons ignore the key and the children: nodes with the same
      values compare the same way. */
  lemma ComparisonByValueOnly(a: Node, b: Node, a': Node, b': Node)
    requires a.value == a'.value && b.value == b'.value
    ensures Lt(a, b) == Lt(a', b') && Gt(a, b) == Gt(a', b')
    ensures Le(a, b) == Le(a', b') && Ge(a, b) == Ge(a', b')
  {
  }

  /** The keys of the leaves, left to right. */
  function LeafKeys(t: Node): (ks: seq<Byte>)
    ensures |ks| >= 1
    ensures t.Leaf? <==> |ks| == 1
  {
    match t
    case Leaf(k, _) => [k]
    case Internal(_, l, r) => LeafKeys(l) + LeafKeys(r)
  }

  /** Every internal node weighs the sum of its children. */
  predicate WeightsAdd(t: Node) {
    match t
    case Leaf(_, _) => true
    case Internal(v, l, r) => v == l.value + r.value && WeightsAdd(l) && WeightsAdd(r)
  }

  /** Every leaf carries the frequency `freq` gives its key. */
  predicate LeavesCarry(t: Node, freq: map<Byte, nat>) {
    match t
    case Leaf(k, v) => k in freq && v == freq[k]
    case Internal(_, l, r) => LeavesCarry(l, freq) && LeavesCarry(r, freq)
  }
}
