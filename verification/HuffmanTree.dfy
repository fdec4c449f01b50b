/** `get_huffman_tree` of huffman.py: one leaf per byte, then repeated
    merging of two nodes into a new internal node until one node is left.

    The source keeps the nodes in a list that `heapq` treats as a heap, but
    it puts each merged node back with `list.append` instead of
    `heapq.heappush`, so after the first merge the two popped nodes are not
    guaranteed to be the lightest. The model therefore lets each pop take
    any remaining node; everything proved here holds whichever nodes are
    merged. */
module HuffmanTree {
  import opened Common
  import opened OrderedDict
  import opened HuffmanNode

  /** `[Node(key, val) for key, val in d.items()]`. */
  function LeafNodes(keys: seq<Byte>, freq: map<Byte, nat>): (nodes: seq<Node>)
    requires forall k :: k in keys ==> k in freq
    ensures |nodes| == |keys|
    ensures forall i :: 0 <= i < |nodes| ==> nodes[i] == Leaf(keys[i], freq[keys[i]])
  {
    seq(|keys|, i requires 0 <= i < |keys| => Leaf(keys[i], freq[keys[i]]))
  }

  /** The leaf keys of a list of trees, tree after tree. */
  function ForestKeys(nodes: seq<Node>): seq<Byte> {
    if nodes == [] then [] else ForestKeys(nodes[..|nodes| - 1]) + LeafKeys(nodes[|nodes| - 1])
  }

  /** The summed weight of a list of trees. */
  function ForestWeight(nodes: seq<Node>): nat {
    if nodes == [] then 0 else ForestWeight(nodes[..|nodes| - 1]) + nodes[|nodes| - 1].value
  }

  lemma {:induction false} ForestAppend(a: seq<Node>, b: seq<Node>)
    ensures ForestKeys(a + b) == ForestKeys(a) + ForestKeys(b)
    ensures ForestWeight(a + b) == ForestWeight(a) + ForestWeight(b)
  {
    if b == [] {
      assert a + b == a;
    } else {
      var b' := b[..|b| - 1];
      assert (a + b)[..|a + b| - 1] == a + b';
      ForestAppend(a, b');
    }
  }

  /** The leaves built from a frequency dict carry its keys, in order, and
      weigh its total count. */
  lemma {:induction false} LeafNodesForest(keys: seq<Byte>, freq: map<Byte, nat>)
    requires forall k :: k in keys ==> k in freq
    ensures ForestKeys(LeafNodes(keys, freq)) == keys
    ensures ForestWeight(LeafNodes(keys, freq)) == Total(keys, freq)
  {
    if keys != [] {
      var init := keys[..|keys| - 1];
      LeafNodesForest(init, freq);
      assert LeafNodes(keys, freq)[..|keys| - 1] == LeafNodes(init, freq);
      assert keys == init + [keys[|keys| - 1]];
    }
  }

  /** `s` without its element at `i`. */
  function RemoveAt<T>(s: seq<T>, i: nat): (r: seq<T>)
    requires i < |s|
    ensures |r| == |s| - 1
    ensures forall k :: 0 <= k < |r| ==> r[k] == s[if k < i then k else k + 1]
  {
    s[..i] + s[i + 1..]
  }

  /** Taking a tree out of the list takes its leaves and its weight out of
      the list's totals. */
  lemma {:induction false} RemoveAtForest(nodes: seq<Node>, i: nat)
    requires i < |nodes|
    ensures multiset(ForestKeys(nodes)) == multiset(ForestKeys(RemoveAt(nodes, i))) + multiset(LeafKeys(nodes[i]))
    ensures ForestWeight(nodes) == ForestWeight(RemoveAt(nodes, i)) + nodes[i].value
  {
    var pre, post := nodes[..i], nodes[i + 1..];
    assert nodes == pre + [nodes[i]] + post;
    ForestAppend(pre + [nodes[i]], post);
    ForestAppend(pre, [nodes[i]]);
    ForestAppend(pre, post);
    SingletonForest([nodes[i]]);
  }

  lemma SingletonForest(nodes: seq<Node>)
    requires |nodes| == 1
    ensures ForestKeys(nodes) == LeafKeys(nodes[0])
    ensures ForestWeight(nodes) == nodes[0].value
  {
    assert nodes[..0] == [];
  }

  /** A list of trees as the merge loop keeps it: together the trees hold
      each byte of the dict once as a leaf with its frequency, every
      internal node weighs the sum of its children, and the list weighs the
      total frequency. */
  ghost predicate ForestOf(nodes: seq<Node>, freq: Dict<nat>)
    requires freq.Valid()
  {
    && multiset(ForestKeys(nodes)) == multiset(freq.keys)
    && (forall i :: 0 <= i < |nodes| ==> WeightsAdd(nodes[i]) && LeavesCarry(nodes[i], freq.vals))
    && ForestWeight(nodes) == Total(freq.keys, freq.vals)
  }

  /** One step of the loop: pop the node at `i`, then the node at `j` of
      what remains, and append their merge. */
  lemma {:induction false} MergeKeepsForest(nodes: seq<Node>, freq: Dict<nat>, i: nat, j: nat, rest: seq<Node>,
                                            a: Node, b: Node, rest': seq<Node>, next: seq<Node>)
    requires freq.Valid() && ForestOf(nodes, freq)
    requires i < |nodes| && a == nodes[i] && rest == RemoveAt(nodes, i)
    requires j < |rest| && b == rest[j] && rest' == RemoveAt(rest, j)
    requires next == rest' + [Internal(a.value + b.value, a, b)]
    ensures ForestOf(next, freq)
  {
    MergeTotals(nodes, i, j, rest, next);
    MergeTrees(nodes, freq, i, j, rest, next);
  }

  lemma MergeTotals(nodes: seq<Node>, i: nat, j: nat, rest: seq<Node>, next: seq<Node>)
    requires i < |nodes| && rest == RemoveAt(nodes, i) && j < |rest|
    requires next == RemoveAt(rest, j) + [Internal(nodes[i].value + rest[j].value, nodes[i], rest[j])]
    ensures multiset(ForestKeys(next)) == multiset(ForestKeys(nodes))
    ensures ForestWeight(next) == ForestWeight(nodes)
  {
    var m := Internal(nodes[i].value + rest[j].value, nodes[i], rest[j]);
    RemoveAtForest(nodes, i);
    RemoveAtForest(rest, j);
    ForestAppend(RemoveAt(rest, j), [m]);
    SingletonForest([m]);
    assert LeafKeys(m) == LeafKeys(nodes[i]) + LeafKeys(rest[j]);
    MergeKeys(ForestKeys(nodes), ForestKeys(rest), ForestKeys(RemoveAt(rest, j)), ForestKeys(next),
              LeafKeys(nodes[i]), LeafKeys(rest[j]));
  }

  /** The multiset bookkeeping of one merge: the merged node's leaves are
      exactly the leaves of the two nodes taken out. */
  lemma MergeKeys(kn: seq<Byte>, kr: seq<Byte>, kr': seq<Byte>, kx: seq<Byte>, la: seq<Byte>, lb: seq<Byte>)
    requires multiset(kn) == multiset(kr) + multiset(la)
    requires multiset(kr) == multiset(kr') + multiset(lb)
    requires kx == kr' + (la + lb)
    ensures multiset(kx) == multiset(kn)
  {
    calc {
      multiset(kx);
      multiset(kr') + multiset(la + lb);
      multiset(kr') + multiset(lb) + multiset(la);
      multiset(kn);
    }
  }

  lemma {:induction false} MergeTrees(nodes: seq<Node>, freq: Dict<nat>, i: nat, j: nat, rest: seq<Node>, next: seq<Node>)
    requires forall k :: 0 <= k < |nodes| ==> WeightsAdd(nodes[k]) && LeavesCarry(nodes[k], freq.vals)
    requires i < |nodes| && rest == RemoveAt(nodes, i) && j < |rest|
    requires next == RemoveAt(rest, j) + [Internal(nodes[i].value + rest[j].value, nodes[i], rest[j])]
    ensures forall k :: 0 <= k < |next| ==> WeightsAdd(next[k]) && LeavesCarry(next[k], freq.vals)
  {
    var a, b := nodes[i], rest[j];
    var rest' := RemoveAt(rest, j);
    var j' := if j < i then j else j + 1;
    assert b == nodes[j'];
    forall k | 0 <= k < |next|
      ensures WeightsAdd(next[k]) && LeavesCarry(next[k], freq.vals)
    {
      if k < |rest'| {
        var k' := if k < j then k else k + 1;
        var k'' := if k' < i then k' else k' + 1;
        assert next[k] == rest[k'] == nodes[k''];
      }
    }
  }

  /** `get_huffman_tree` on a non-empty frequency dict: the root's leaves
      are exactly the dict's keys, each once, carrying their frequencies;
      every internal node weighs the sum of its children, so the root weighs
      the total frequency; and the root is a leaf exactly when the dict has
      one key. */
  method GetHuffmanTree(freq: Dict<nat>) returns (root: Node)
    requires freq.Valid() && |freq.keys| > 0
    ensures multiset(LeafKeys(root)) == multiset(freq.keys)
    ensures Distinct(LeafKeys(root))
    ensures LeavesCarry(root, freq.vals)
    ensures WeightsAdd(root)
    ensures root.value == Total(freq.keys, freq.vals)
    ensures root.Leaf? <==> |freq.keys| == 1
  {
    var nodes := LeafNodes(freq.keys, freq.vals);
    LeafForest(freq);
    while |nodes| > 1
      invariant 1 <= |nodes|
      invariant ForestOf(nodes, freq)
      decreases |nodes|
    {
      ghost var before := nodes;
      var i :| 0 <= i < |nodes|;
      var minElem1 := nodes[i];
      nodes := RemoveAt(nodes, i);
      ghost var rest := nodes;
      var j :| 0 <= j < |nodes|;
      var minElem2 := nodes[j];
      nodes := RemoveAt(nodes, j);
      ghost var rest' := nodes;
      nodes := nodes + [Internal(minElem1.value + minElem2.value, minElem1, minElem2)];
      MergeKeepsForest(before, freq, i, j, rest, minElem1, minElem2, rest', nodes);
    }
    root := nodes[0];
    SingletonForest(nodes);
    RootOfForest(root, freq);
  }

  /** The leaves built from the dict form a forest of it. */
  lemma LeafForest(freq: Dict<nat>)
    requires freq.Valid()
    ensures ForestOf(LeafNodes(freq.keys, freq.vals), freq)
  {
    LeafNodesForest(freq.keys, freq.vals);
  }

  /** What the single remaining tree inherits from the loop invariant. */
  lemma RootOfForest(root: Node, freq: Dict<nat>)
    requires freq.Valid()
    requires multiset(LeafKeys(root)) == multiset(freq.keys)
    ensures Distinct(LeafKeys(root))
    ensures root.Leaf? <==> |freq.keys| == 1
  {
    SameMultisetDistinct(LeafKeys(root), freq.keys);
    assert |LeafKeys(root)| == |freq.keys| by {
      assert |multiset(LeafKeys(root))| == |multiset(freq.keys)|;
    }
  }
}
