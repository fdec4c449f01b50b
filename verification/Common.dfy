/** Shared vocabulary of the model: bytes, bit strings, Python-style
    exceptions as a result type, and Python's slice arithmetic. */
module Common {

  /** One byte of a file (a length-1 `bytes` object in the source). */
  type Byte = b: int | 0 <= b < 256

  /** A `bitarray` in its default big-endian order: element 0 is the most
      significant bit of the first byte. `false` is bit 0, `true` is bit 1. */
  type Bits = seq<bool>

  /** The exceptions the modelled code can raise. */
  datatype Error =
    | KeyError          // a dictionary lookup of a missing key
    | IndexError        // indexing past the end of a list or bytes object
    | OverflowError     // `int.to_bytes(n, length=1)` with n outside 0..255
    | DecodeError       // `bitarray.decode` on bits that are not a sequence of codes
    | UnicodeError      // `str.encode` of a lone surrogate (UnicodeEncodeError) or
                        // `bytes.decode()` of bytes that are not UTF-8 (UnicodeDecodeError)

  datatype Result<T> = Ok(value: T) | Err(error: Error)

  datatype Option<T> = None | Some(value: T)

  function Min(a: int, b: int): int { if a <= b then a else b }

  /** `a` is a prefix of `b` (possibly equal to it). */
  predicate IsPrefix(a: Bits, b: Bits) {
    |a| <= |b| && a == b[..|a|]
  }

  /** `n` zero bits, `bitarray('0' * n)`. */
  function Zeros(n: nat): (r: Bits)
    ensures |r| == n
    ensures forall i :: 0 <= i < n ==> !r[i]
  {
    seq(n, _ => false)
  }

  /** The end index that the Python slice `s[:e]` uses on a sequence of
      length `len`: a negative `e` counts from the end, and the result is
      clipped to 0..len. */
  function SliceEnd(len: nat, e: int): (r: nat)
    ensures r <= len
    ensures 0 <= e ==> r == Min(e, len)
    ensures e < 0 ==> r == (if len + e < 0 then 0 else len + e)
  {
    if 0 <= e then Min(e, len)
    else if len + e < 0 then 0
    else len + e
  }

  /** The Python slice `s[from:]` for a non-negative `from`: empty when
      `from` lies past the end. */
  function Drop<T>(s: seq<T>, from: nat): (r: seq<T>)
    ensures from <= |s| ==> r == s[from..]
    ensures |s| <= from ==> r == []
  {
    if from <= |s| then s[from..] else []
  }

  /** The Python slice `s[from:to]` for non-negative bounds. */
  function Slice<T>(s: seq<T>, from: nat, to: nat): (r: seq<T>)
    ensures to <= |s| && from <= to ==> r == s[from..to]
    ensures |r| == (if Min(to, |s|) <= from then 0 else Min(to, |s|) - from)
  {
    var hi := Min(to, |s|);
    if hi <= from then [] else s[from..hi]
  }

  lemma TakeSnoc<T>(s: seq<T>, i: nat)
    requires i < |s|
    ensures s[..i + 1] == s[..i] + [s[i]]
  {}

  lemma SplitThree<T>(s: seq<T>, a: nat, b: nat)
    requires a <= b <= |s|
    ensures s == s[..a] + s[a..b] + s[b..]
  {
  }

  lemma MiddleSlice<T>(x: seq<T>, y: seq<T>, z: seq<T>)
    ensures (x + y + z)[|x|..|x| + |y|] == y
  {
  }

  lemma AppendPrefix<T>(a: seq<T>, b: seq<T>)
    ensures a <= a + b
  {
    assert (a + b)[..|a|] == a;
  }

  lemma DropAppend<T>(a: seq<T>, b: seq<T>)
    ensures Drop(a + b, |a|) == b
  {
    assert (a + b)[|a|..] == b;
  }

  lemma AppendAssoc<T>(a: seq<T>, b: seq<T>, c: seq<T>)
    ensures a + b + c == a + (b + c)
  {}

  /** A slice holding `x + y` splits into a slice holding `x` and one
      holding `y`. */
  lemma SubsliceSplit<T>(s: seq<T>, a: nat, b: nat, c: nat, x: seq<T>, y: seq<T>)
    requires a <= b <= c <= |s| && b - a == |x|
    requires s[a..c] == x + y
    ensures s[a..b] == x && s[b..c] == y
  {
    assert s[a..b] == s[a..c][..b - a];
    assert s[b..c] == s[a..c][b - a..];
  }
}
