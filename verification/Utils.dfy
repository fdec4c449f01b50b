/** The frequency counter of utils.py: how often each byte occurs in a file. */
module Utils {
  import opened Common
  import opened OrderedDict

  /** The distinct bytes of `s`, in the order of their first occurrence. */
  function FirstOccurrences(s: seq<Byte>): (r: seq<Byte>)
    ensures Distinct(r)
    ensures forall b :: b in r <==> b in s
  {
    if s == [] then []
    else
      var p := FirstOccurrences(s[..|s| - 1]);
      var b := s[|s| - 1];
      assert s == s[..|s| - 1] + [b];
      if b in p then p else p + [b]
  }

  /** `d` is the frequency dict of `s`: each byte of `s` maps to its
      number of occurrences, keys in order of first occurrence, and the
      counts add up to the length of `s`. */
  ghost predicate CountsOf(d: Dict<nat>, s: seq<Byte>) {
    && d.Valid()
    && d.keys == FirstOccurrences(s)
    && (forall b :: b in d.vals ==> d.vals[b] == multiset(s)[b])
    && Total(d.keys, d.vals) == |s|
  }

  /** `d[b] += 1` on a `defaultdict(int)`. */
  function Increment(d: Dict<nat>, b: Byte): (r: Dict<nat>)
    ensures d.Valid() ==> r.Valid()
    ensures b in d.vals ==> r.keys == d.keys && b in r.vals && r.vals[b] == d.vals[b] + 1
    ensures b !in d.vals ==> r.keys == d.keys + [b] && b in r.vals && r.vals[b] == 1
    ensures forall c :: c != b ==> (c in r.vals <==> c in d.vals) && (c in d.vals ==> r.vals[c] == d.vals[c])
  {
    d.Set(b, (if b in d.vals then d.vals[b] else 0) + 1)
  }

  /** Counting one more byte keeps the dict the frequency dict of the
      longer input. */
  lemma IncrementCounts(d: Dict<nat>, s: seq<Byte>, b: Byte)
    requires CountsOf(d, s)
    ensures CountsOf(Increment(d, b), s + [b])
  {
    FirstOccurrencesSnoc(s, b);
    IncrementMultiset(d, s, b);
    IncrementTotal(d, b);
  }

  lemma FirstOccurrencesSnoc(s: seq<Byte>, b: Byte)
    ensures FirstOccurrences(s + [b])
         == if b in FirstOccurrences(s) then FirstOccurrences(s) else FirstOccurrences(s) + [b]
  {
    var s' := s + [b];
    assert s'[..|s'| - 1] == s;
  }

  lemma IncrementMultiset(d: Dict<nat>, s: seq<Byte>, b: Byte)
    requires forall c :: c in d.vals ==> d.vals[c] == multiset(s)[c]
    requires forall c :: c in s ==> c in d.vals
    ensures forall c :: c in Increment(d, b).vals ==> Increment(d, b).vals[c] == multiset(s + [b])[c]
  {
    assert multiset(s + [b]) == multiset(s) + multiset{b};
  }

  lemma IncrementTotal(d: Dict<nat>, b: Byte)
    requires d.Valid()
    requires forall k :: k in d.keys ==> k in d.vals
    ensures Total(Increment(d, b).keys, Increment(d, b).vals) == Total(d.keys, d.vals) + 1
  {
    if b in d.vals {
      TotalIncrement(d.keys, d.vals, b);
    } else {
      TotalFrame(d.keys, d.vals, d.vals[b := 1]);
    }
  }

  /** `get_frequency_dict_from_byte_representation`: a `defaultdict(int)`
      incremented once per byte. Each byte that occurs maps to its number of
      occurrences (so at least 1), no other byte is a key, the keys come in
      order of first occurrence and the counts add up to the length of the
      input. */
  method GetFrequencyDict(bytes: seq<Byte>) returns (d: Dict<nat>)
    ensures d.Valid()
    ensures d.keys == FirstOccurrences(bytes)
    ensures forall b :: b in d.vals <==> b in bytes
    ensures forall b :: b in d.vals ==> d.vals[b] == multiset(bytes)[b] >= 1
    ensures Total(d.keys, d.vals) == |bytes|
    ensures bytes == [] <==> d.keys == []
  {
    d := Empty();
    for i := 0 to |bytes|
      invariant CountsOf(d, bytes[..i])
    {
      IncrementCounts(d, bytes[..i], bytes[i]);
      TakeSnoc(bytes, i);
      d := Increment(d, bytes[i]);
    }
    assert bytes[..|bytes|] == bytes;
    CountsOfFacts(d, bytes);
  }

  /** What being the frequency dict of `s` says about keys and counts. */
  lemma CountsOfFacts(d: Dict<nat>, s: seq<Byte>)
    requires CountsOf(d, s)
    ensures forall b :: b in d.vals <==> b in s
    ensures forall b :: b in d.vals ==> d.vals[b] == multiset(s)[b] >= 1
    ensures s == [] <==> d.keys == []
  {
    assert s != [] ==> s[0] in d.keys;
  }
}
