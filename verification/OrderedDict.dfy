/** A Python `dict` keyed by single bytes. Python dicts remember the order in
    which keys were first inserted, and the codec serialises its code table
    in that order, so the model keeps the key order beside the mapping. */
module OrderedDict {
  import opened Common

  predicate Distinct<T(==)>(s: seq<T>) {
    forall i, j :: 0 <= i < j < |s| ==> s[i] != s[j]
  }

  datatype Dict<V> = Dict(keys: seq<Byte>, vals: map<Byte, V>) {

    /** Every key occurs once in the order and the order lists exactly the
        mapped keys. */
    ghost predicate Valid() {
      Distinct(keys) && forall k :: k in vals <==> k in keys
    }

    /** `d[k] = v`: a new key goes to the end of the order, an existing key
        keeps its place. */
    function Set(k: Byte, v: V): (d: Dict<V>)
      ensures d.vals == vals[k := v]
      ensures d.keys == if k in vals then keys else keys + [k]
      ensures Valid() ==> d.Valid()
    {
      if k in vals then Dict(keys, vals[k := v]) else Dict(keys + [k], vals[k := v])
    }
  }

  function Empty<V>(): (d: Dict<V>)
    ensures d.Valid() && d.keys == []
  {
    Dict([], map[])
  }

  /** The keys of a list of entries, in order. */
  function Firsts<V>(entries: seq<(Byte, V)>): (r: seq<Byte>)
    ensures |r| == |entries|
    ensures forall i :: 0 <= i < |entries| ==> r[i] == entries[i].0
  {
    if entries == [] then [] else [entries[0].0] + Firsts(entries[1..])
  }

  lemma {:induction false} FirstsAppend<V>(a: seq<(Byte, V)>, b: seq<(Byte, V)>)
    ensures Firsts(a + b) == Firsts(a) + Firsts(b)
  {
    var r := Firsts(a) + Firsts(b);
    assert |Firsts(a + b)| == |r|;
    forall i | 0 <= i < |r|
      ensures Firsts(a + b)[i] == r[i]
    {
      if i < |a| {
        assert (a + b)[i] == a[i];
      } else {
        assert (a + b)[i] == b[i - |a|];
      }
    }
  }

  /** Inserting a list of entries one after the other, `d[k] = v` for each. */
  function SetAll<V>(d: Dict<V>, entries: seq<(Byte, V)>): Dict<V>
    decreases |entries|
  {
    if entries == [] then d else SetAll(d.Set(entries[0].0, entries[0].1), entries[1..])
  }

  lemma {:induction false} SetAllAppend<V>(d: Dict<V>, a: seq<(Byte, V)>, b: seq<(Byte, V)>)
    ensures SetAll(d, a + b) == SetAll(SetAll(d, a), b)
    decreases |a|
  {
    if a == [] {
      assert a + b == b;
    } else {
      assert (a + b)[0] == a[0] && (a + b)[1..] == a[1..] + b;
      SetAllAppend(d.Set(a[0].0, a[0].1), a[1..], b);
    }
  }

  /** Inserting entries with distinct keys into a dict that holds none of
      them appends the keys in order and maps each key to its own entry. */
  lemma {:induction false} SetAllFresh<V>(d: Dict<V>, entries: seq<(Byte, V)>)
    requires d.Valid() && Distinct(d.keys + Firsts(entries))
    ensures SetAll(d, entries).Valid()
    ensures SetAll(d, entries).keys == d.keys + Firsts(entries)
    ensures forall k :: k in d.vals ==> k in SetAll(d, entries).vals && SetAll(d, entries).vals[k] == d.vals[k]
    ensures forall i :: 0 <= i < |entries| ==>
      entries[i].0 in SetAll(d, entries).vals && SetAll(d, entries).vals[entries[i].0] == entries[i].1
    decreases |entries|
  {
    if entries == [] {
      assert d.keys + Firsts(entries) == d.keys;
    } else {
      var k, v := entries[0].0, entries[0].1;
      var keys := d.keys + Firsts(entries);
      assert Firsts(entries) == [k] + Firsts(entries[1..]);
      assert keys == (d.keys + [k]) + Firsts(entries[1..]);
      forall j | 0 <= j < |d.keys|
        ensures d.keys[j] != k
      {
        assert keys[j] == d.keys[j] && keys[|d.keys|] == k;
      }
      assert k !in d.vals;
      var d' := d.Set(k, v);
      assert d'.keys == d.keys + [k];
      SetAllFresh(d', entries[1..]);
      var r := SetAll(d', entries[1..]);
      assert r == SetAll(d, entries);
      forall i | 0 <= i < |entries|
        ensures entries[i].0 in r.vals && r.vals[entries[i].0] == entries[i].1
      {
        if i > 0 {
          assert entries[i] == entries[1..][i - 1];
        }
      }
    }
  }

  /** Inserting entries with distinct keys into an empty dict lists the
      keys in order and maps each key to its own entry. */
  lemma SetAllDistinct<V>(entries: seq<(Byte, V)>, keys: seq<Byte>)
    requires Firsts(entries) == keys && Distinct(keys)
    ensures SetAll(Empty(), entries).Valid() && SetAll(Empty(), entries).keys == keys
    ensures forall i :: 0 <= i < |entries| ==>
      entries[i].0 in SetAll(Empty(), entries).vals && SetAll(Empty(), entries).vals[entries[i].0] == entries[i].1
  {
    var e: Dict<V> := Empty();
    assert e.keys + Firsts(entries) == keys by {
      assert e.keys == [];
    }
    SetAllFresh(e, entries);
  }

  /** The entries of a valid dict in key order, `d.items()`. */
  function Entries<V>(d: Dict<V>): (es: seq<(Byte, V)>)
    requires d.Valid()
    ensures |es| == |d.keys|
    ensures forall i :: 0 <= i < |es| ==> es[i] == (d.keys[i], d.vals[d.keys[i]])
  {
    seq(|d.keys|, i requires 0 <= i < |d.keys| => (d.keys[i], d.vals[d.keys[i]]))
  }

  /** A valid dict is rebuilt exactly by inserting its own entries, in order,
      into an empty dict. */
  lemma SetAllOwnEntries<V>(d: Dict<V>)
    requires d.Valid()
    ensures SetAll(Empty(), Entries(d)) == d
  {
    var es := Entries(d);
    FirstsEntries(d);
    var r := SetAll(Empty(), es);
    SetAllFresh(Empty(), es);
    SameEntriesSameVals(d, r);
  }

  lemma FirstsEntries<V>(d: Dict<V>)
    requires d.Valid()
    ensures Empty<V>().keys + Firsts(Entries(d)) == d.keys
  {
    assert Firsts(Entries(d)) == d.keys;
  }

  /** A dict holding every entry of `d` under the same keys has `d`'s
      mapping. */
  lemma SameEntriesSameVals<V>(d: Dict<V>, r: Dict<V>)
    requires d.Valid() && r.Valid() && r.keys == d.keys
    requires forall i :: 0 <= i < |Entries(d)| ==> r.vals[Entries(d)[i].0] == Entries(d)[i].1
    ensures r == d
  {
    forall k | k in d.vals
      ensures r.vals[k] == d.vals[k]
    {
      var i :| 0 <= i < |d.keys| && d.keys[i] == k;
      assert Entries(d)[i].0 == k;
    }
    assert r.vals == d.vals;
  }

  /** The sum of the values of `keys` in `m`. */
  function Total(keys: seq<Byte>, m: map<Byte, nat>): nat
    requires forall k :: k in keys ==> k in m
  {
    if keys == [] then 0 else Total(keys[..|keys| - 1], m) + m[keys[|keys| - 1]]
  }

  /** The total depends only on the values of the listed keys. */
  lemma {:induction false} TotalFrame(keys: seq<Byte>, m: map<Byte, nat>, m': map<Byte, nat>)
    requires forall k :: k in keys ==> k in m && k in m' && m[k] == m'[k]
    ensures Total(keys, m) == Total(keys, m')
  {
    if keys != [] {
      TotalFrame(keys[..|keys| - 1], m, m');
    }
  }

  /** Adding one to the value of a listed key adds one to the total. */
  lemma {:induction false} TotalIncrement(keys: seq<Byte>, m: map<Byte, nat>, b: Byte)
    requires Distinct(keys) && b in keys
    requires forall k :: k in keys ==> k in m
    ensures Total(keys, m[b := m[b] + 1]) == Total(keys, m) + 1
  {
    var init := keys[..|keys| - 1];
    var last := keys[|keys| - 1];
    if last == b {
      forall j | 0 <= j < |init|
        ensures init[j] != b
      {
        assert init[j] == keys[j];
      }
      TotalFrame(init, m, m[b := m[b] + 1]);
    } else {
      assert keys == init + [last];
      assert b in init;
      TotalIncrement(init, m, b);
    }
  }

  /** A list of distinct bytes has at most 256 elements. */
  lemma DistinctBytesBound(s: seq<Byte>)
    requires Distinct(s)
    ensures |s| <= 256
  {
    DistinctBelow(s, 256);
  }

  lemma {:induction false} DistinctBelow(s: seq<int>, n: nat)
    requires Distinct(s)
    requires forall i :: 0 <= i < |s| ==> 0 <= s[i] < n
    ensures |s| <= n
    decreases n
  {
    if s != [] {
      assert s[0] < n;
      var t := Without(s, n - 1);
      WithoutProps(s, n - 1);
      forall i | 0 <= i < |t|
        ensures 0 <= t[i] < n - 1
      {
        assert t[i] in t;
      }
      DistinctBelow(t, n - 1);
    }
  }

  /** `s` with every occurrence of `x` removed. */
  function Without<T(==)>(s: seq<T>, x: T): seq<T>
  {
    if s == [] then [] else (if s[0] == x then [] else [s[0]]) + Without(s[1..], x)
  }

  lemma {:induction false} WithoutProps<T>(s: seq<T>, x: T)
    requires Distinct(s)
    ensures Distinct(Without(s, x))
    ensures forall y :: y in Without(s, x) <==> y in s && y != x
    ensures |Without(s, x)| == if x in s then |s| - 1 else |s|
  {
    if s != [] {
      WithoutProps(s[1..], x);
      var t := Without(s[1..], x);
      forall j | 0 <= j < |s[1..]|
        ensures s[1..][j] != s[0]
      {
        assert s[1..][j] == s[j + 1];
      }
      assert s == [s[0]] + s[1..];
      if s[0] != x {
        assert Without(s, x) == [s[0]] + t;
        assert s[0] !in t;
      }
    }
  }

  /** A list is free of repetitions exactly when no element occurs twice
      in its multiset. */
  lemma {:induction false} DistinctMultiset<T>(s: seq<T>)
    ensures Distinct(s) <==> forall x :: multiset(s)[x] <= 1
  {
    if s != [] {
      DistinctMultiset(s[1..]);
      assert s == [s[0]] + s[1..];
      assert multiset(s) == multiset{s[0]} + multiset(s[1..]);
      if Distinct(s) {
        assert Distinct(s[1..]) by {
          forall i, j | 0 <= i < j < |s[1..]| ensures s[1..][i] != s[1..][j] {
            assert s[1..][i] == s[i + 1] && s[1..][j] == s[j + 1];
          }
        }
        assert s[0] !in s[1..] by {
          forall j | 0 <= j < |s[1..]| ensures s[1..][j] != s[0] {
            assert s[1..][j] == s[j + 1];
          }
        }
      } else {
        var i, j :| 0 <= i < j < |s| && s[i] == s[j];
        if i == 0 {
          assert s[0] in s[1..] by { assert s[1..][j - 1] == s[j]; }
          assert multiset(s)[s[0]] >= 2;
        } else {
          assert s[1..][i - 1] == s[1..][j - 1];
          assert !Distinct(s[1..]);
          var x :| multiset(s[1..])[x] > 1;
          assert multiset(s)[x] > 1;
        }
      }
    }
  }

  /** Two lists with the same elements, counted with multiplicity, are
      both repetition-free or both not. */
  lemma SameMultisetDistinct<T>(a: seq<T>, b: seq<T>)
    requires multiset(a) == multiset(b) && Distinct(b)
    ensures Distinct(a)
  {
    DistinctMultiset(a);
    DistinctMultiset(b);
  }
}
