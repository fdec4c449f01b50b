/** `build_huffman_codes_dict` and `get_huffman_codes_dict` of huffman.py:
    every leaf's code is its path from the root, 0 for a step to the left
    child and 1 for a step to the right child; a tree that is a single leaf
    gives its byte the code `0`. */
module HuffmanCodes {
  import opened Common
  import opened OrderedDict
  import opened HuffmanNode
  import opened HuffmanTree

  /** The (key, code) pairs the depth-first walk from `t` writes, in the
      order it writes them, when the path to `t` is `prefix`. */
  function PathCodes(t: Node, prefix: Bits): seq<(Byte, Bits)> {
    match t
    case Leaf(k, _) => [(k, prefix)]
    case Internal(_, l, r) => PathCodes(l, prefix + [false]) + PathCodes(r, prefix + [true])
  }

  /** No code of the list is a prefix of another entry's code. */
  predicate PrefixFreeEntries(es: seq<(Byte, Bits)>) {
    forall i, j :: 0 <= i < |es| && 0 <= j < |es| && i != j ==> !IsPrefix(es[i].1, es[j].1)
  }

  /** The walk meets the leaves left to right. */
  lemma {:induction false} PathCodesKeys(t: Node, prefix: Bits)
    ensures Firsts(PathCodes(t, prefix)) == LeafKeys(t)
  {
    match t
    case Leaf(_, _) =>
    case Internal(_, l, r) =>
      PathCodesKeys(l, prefix + [false]);
      PathCodesKeys(r, prefix + [true]);
      FirstsAppend(PathCodes(l, prefix + [false]), PathCodes(r, prefix + [true]));
  }

  lemma ExtendsBit(prefix: Bits, b: bool, c: Bits)
    requires IsPrefix(prefix + [b], c)
    ensures IsPrefix(prefix, c) && |c| > |prefix| && c[|prefix|] == b
  {
    assert c[..|prefix|] == c[..|prefix| + 1][..|prefix|];
  }

  /** Every code extends the path to the subtree and, below an internal
      node, is longer than it by at least one and at most
      (number of leaves - 1) bits. */
  lemma {:induction false} PathCodesLengths(t: Node, prefix: Bits)
    ensures forall i :: 0 <= i < |PathCodes(t, prefix)| ==>
      IsPrefix(prefix, PathCodes(t, prefix)[i].1)
      && |PathCodes(t, prefix)[i].1| <= |prefix| + |LeafKeys(t)| - 1
      && (t.Internal? ==> |PathCodes(t, prefix)[i].1| > |prefix|)
  {
    match t
    case Leaf(_, _) =>
    case Internal(_, l, r) =>
      var pl, pr := prefix + [false], prefix + [true];
      var L, R := PathCodes(l, pl), PathCodes(r, pr);
      PathCodesLengths(l, pl);
      PathCodesLengths(r, pr);
      var es: seq<(Byte, Bits)> := L + R;
      forall i | 0 <= i < |es|
        ensures IsPrefix(prefix, es[i].1) && |es[i].1| <= |prefix| + |LeafKeys(t)| - 1
        ensures |es[i].1| > |prefix|
      {
        if i < |L| {
          ExtendsBit(prefix, false, L[i].1);
        } else {
          ExtendsBit(prefix, true, R[i - |L|].1);
        }
      }
  }

  /** No code the walk writes is a prefix of another. */
  lemma {:induction false} PathCodesPrefixFree(t: Node, prefix: Bits)
    ensures PrefixFreeEntries(PathCodes(t, prefix))
  {
    match t
    case Leaf(_, _) =>
    case Internal(_, l, r) =>
      var pl, pr := prefix + [false], prefix + [true];
      var L, R := PathCodes(l, pl), PathCodes(r, pr);
      PathCodesPrefixFree(l, pl);
      PathCodesPrefixFree(r, pr);
      PathCodesLengths(l, pl);
      PathCodesLengths(r, pr);
      var es := L + R;
      forall i, j | 0 <= i < |es| && 0 <= j < |es| && i != j
        ensures !IsPrefix(es[i].1, es[j].1)
      {
        if i < |L| && j < |L| {
          assert es[i] == L[i] && es[j] == L[j];
        } else if i >= |L| && j >= |L| {
          assert es[i] == R[i - |L|] && es[j] == R[j - |L|];
        } else {
          var (x, y) := if i < |L| then (L[i].1, R[j - |L|].1) else (R[i - |L|].1, L[j].1);
          assert es[i].1 == x && es[j].1 == y;
          if i < |L| {
            ExtendsBit(prefix, false, x);
            ExtendsBit(prefix, true, y);
          } else {
            ExtendsBit(prefix, true, x);
            ExtendsBit(prefix, false, y);
          }
          assert x[|prefix|] != y[|prefix|];
        }
      }
  }

  /** `build_huffman_codes_dict(node, code, d)`: writes the codes of the
      leaves below `node` into `d` in depth-first order. The dict is
      threaded through the calls instead of shared. */
  method BuildHuffmanCodesDict(node: Node, code: Bits, d: Dict<Bits>) returns (d': Dict<Bits>)
    ensures d' == SetAll(d, PathCodes(node, code))
    decreases node
  {
    match node
    case Leaf(k, _) =>
      d' := d.Set(k, code);
    case Internal(_, l, r) =>
      var d1 := BuildHuffmanCodesDict(l, code + [false], d);
      d' := BuildHuffmanCodesDict(r, code + [true], d1);
      SetAllAppend(d, PathCodes(l, code + [false]), PathCodes(r, code + [true]));
  }

  /** No code of the table is a prefix of another byte's code. */
  predicate PrefixFree(t: Dict<Bits>) {
    forall a, b :: a in t.vals && b in t.vals && a != b ==> !IsPrefix(t.vals[a], t.vals[b])
  }

  /** A table the decoder can use: a prefix code of non-empty codes that fit
      the one-byte length field of the container. */
  ghost predicate UsableTable(t: Dict<Bits>) {
    t.Valid() && PrefixFree(t) && forall k :: k in t.vals ==> 1 <= |t.vals[k]| <= 255
  }

  /** The table the walk from the root builds, as a dict: keys in leaf
      order, each mapped to its path. */
  lemma RootTable(root: Node)
    requires Distinct(LeafKeys(root))
    ensures SetAll(Empty(), PathCodes(root, [])).Valid()
    ensures SetAll(Empty(), PathCodes(root, [])).keys == LeafKeys(root)
    ensures forall i :: 0 <= i < |PathCodes(root, [])| ==>
      PathCodes(root, [])[i].0 in SetAll(Empty(), PathCodes(root, [])).vals &&
      SetAll(Empty(), PathCodes(root, [])).vals[PathCodes(root, [])[i].0] == PathCodes(root, [])[i].1
  {
    PathCodesKeys(root, []);
    SetAllDistinct(PathCodes(root, []), LeafKeys(root));
  }

  /** That table is a prefix code whose codes are at most
      (number of leaves - 1) bits long and, below an internal root,
      non-empty. */
  lemma RootTableCodes(root: Node)
    requires Distinct(LeafKeys(root))
    ensures var t := SetAll(Empty(), PathCodes(root, []));
      && PrefixFree(t)
      && (forall k :: k in t.vals ==> |t.vals[k]| <= |LeafKeys(root)| - 1)
      && (root.Internal? ==> forall k :: k in t.vals ==> |t.vals[k]| >= 1)
  {
    var es := PathCodes(root, []);
    var t := SetAll(Empty(), es);
    PathCodesLengths(root, []);
    PathCodesPrefixFree(root, []);
    forall k | k in t.vals
      ensures |t.vals[k]| <= |LeafKeys(root)| - 1
      ensures root.Internal? ==> |t.vals[k]| >= 1
    {
      var i := RootTableIndex(root, k);
    }
    forall a, b | a in t.vals && b in t.vals && a != b
      ensures !IsPrefix(t.vals[a], t.vals[b])
    {
      var i := RootTableIndex(root, a);
      var j := RootTableIndex(root, b);
    }
  }

  /** Each key of the root table is the key of one entry of the walk, and
      maps to that entry's code. */
  lemma RootTableIndex(root: Node, k: Byte) returns (i: nat)
    requires Distinct(LeafKeys(root))
    requires k in SetAll(Empty(), PathCodes(root, [])).vals
    ensures i < |PathCodes(root, [])| && PathCodes(root, [])[i].0 == k
    ensures SetAll(Empty(), PathCodes(root, [])).vals[k] == PathCodes(root, [])[i].1
  {
    var es := PathCodes(root, []);
    RootTable(root);
    PathCodesKeys(root, []);
    var t := SetAll(Empty(), es);
    i :| 0 <= i < |t.keys| && t.keys[i] == k;
    assert es[i].0 == k;
  }

  lemma SingleLeafTable(root: Node, k: Byte)
    requires LeafKeys(root) == [k]
    ensures SetAll(Empty(), PathCodes(root, [])) == Dict([k], map[k := []])
  {
    assert PathCodes(root, []) == [(k, [])];
  }

  /** `get_huffman_codes_dict` on a non-empty frequency dict. Every byte of
      the dict gets exactly one code. With one byte the table is that byte
      with the code `0`. With two or more bytes the table lists the bytes
      in the order of the tree's leaves, each with its root-to-leaf path, and
      every code is non-empty, at most (number of bytes - 1) bits long and
      not a prefix of any other. Either way the table is usable by the
      decoder. */
  method GetHuffmanCodesDict(freq: Dict<nat>) returns (table: Dict<Bits>, ghost root: Node)
    requires freq.Valid() && |freq.keys| > 0
    ensures table.Valid()
    ensures multiset(table.keys) == multiset(freq.keys)
    ensures |freq.keys| == 1 ==> table == Dict(freq.keys, map[freq.keys[0] := [false]])
    ensures |freq.keys| >= 2 ==>
      && multiset(LeafKeys(root)) == multiset(freq.keys) && WeightsAdd(root) && LeavesCarry(root, freq.vals)
      && table == SetAll(Empty(), PathCodes(root, []))
      && PrefixFree(table)
      && forall k :: k in table.vals ==> 1 <= |table.vals[k]| <= |freq.keys| - 1
    ensures UsableTable(table)
  {
    var tree := GetHuffmanTree(freq);
    root := tree;
    table := BuildHuffmanCodesDict(tree, [], Empty());
    if |table.keys| == 1 {
      table := table.Set(table.keys[0], [false]);
    }
    CodesDictFacts(freq, tree, table);
  }

  /** The facts `GetHuffmanCodesDict` promises, from those of the tree. */
  lemma CodesDictFacts(freq: Dict<nat>, root: Node, table: Dict<Bits>)
    requires freq.Valid() && |freq.keys| > 0
    requires multiset(LeafKeys(root)) == multiset(freq.keys) && Distinct(LeafKeys(root))
    requires root.Leaf? <==> |freq.keys| == 1
    requires var t := SetAll(Empty(), PathCodes(root, []));
      table == if |t.keys| == 1 then t.Set(t.keys[0], [false]) else t
    ensures table.Valid()
    ensures multiset(table.keys) == multiset(freq.keys)
    ensures |freq.keys| == 1 ==> table == Dict(freq.keys, map[freq.keys[0] := [false]])
    ensures |freq.keys| >= 2 ==>
      && table == SetAll(Empty(), PathCodes(root, []))
      && PrefixFree(table)
      && forall k :: k in table.vals ==> 1 <= |table.vals[k]| <= |freq.keys| - 1
    ensures UsableTable(table)
  {
    RootTable(root);
    RootTableCodes(root);
    var n := |freq.keys|;
    assert |LeafKeys(root)| == n by {
      assert |multiset(LeafKeys(root))| == |multiset(freq.keys)|;
    }
    if n == 1 {
      var k := LeafKeys(root)[0];
      assert LeafKeys(root) == [k];
      assert freq.keys == [k] by {
        assert k in multiset(freq.keys);
      }
      SingleLeafTable(root, k);
    } else {
      DistinctBytesBound(LeafKeys(root));
    }
  }
}
