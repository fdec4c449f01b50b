/** The part of the `bitarray` library the codec relies on: turning bytes
    into bits (`frombytes`) and byte-aligned bits back into bytes
    (`bytes(bitarray)`), both big-endian, plus the padding rule the codec
    applies before converting. */
module BitArray {
  import opened Common

  function Pow2(n: nat): (r: nat)
    ensures r >= 1
  {
    if n == 0 then 1 else 2 * Pow2(n - 1)
  }

  /** The `w` low bits of `n`, most significant first. */
  function NatToBits(n: nat, w: nat): (r: Bits)
    ensures |r| == w
  {
    if w == 0 then [] else NatToBits(n / 2, w - 1) + [n % 2 == 1]
  }

  /** The number a bit string denotes, most significant bit first. */
  function BitsToNat(bs: Bits): (n: nat)
    ensures n < Pow2(|bs|)
  {
    if bs == [] then 0
    else 2 * BitsToNat(bs[..|bs| - 1]) + (if bs[|bs| - 1] then 1 else 0)
  }

  lemma {:induction false} NatToBitsToNat(n: nat, w: nat)
    requires n < Pow2(w)
    ensures BitsToNat(NatToBits(n, w)) == n
  {
    if w > 0 {
      var bs := NatToBits(n, w);
      assert bs[..w - 1] == NatToBits(n / 2, w - 1);
      NatToBitsToNat(n / 2, w - 1);
    }
  }

  lemma {:induction false} BitsToNatToBits(bs: Bits)
    ensures NatToBits(BitsToNat(bs), |bs|) == bs
  {
    if bs != [] {
      var init := bs[..|bs| - 1];
      BitsToNatToBits(init);
      assert bs == init + [bs[|bs| - 1]];
    }
  }

  /** The eight bits of one byte, `bitarray().frombytes(b)`. */
  function ByteToBits(b: Byte): (r: Bits)
    ensures |r| == 8
  {
    NatToBits(b, 8)
  }

  /** `frombytes` applied to a whole byte string: the bits of every byte,
      in order. */
  function FromBytes(bytes: seq<Byte>): (r: Bits)
    ensures |r| == 8 * |bytes|
  {
    if bytes == [] then [] else ByteToBits(bytes[0]) + FromBytes(bytes[1..])
  }

  /** `bytes(bitarray)` for a byte-aligned bit string: each group of eight
      bits, most significant first, becomes one byte. */
  function ToBytes(bits: Bits): (r: seq<Byte>)
    requires |bits| % 8 == 0
    ensures 8 * |r| == |bits|
  {
    if bits == [] then []
    else
      assert BitsToNat(bits[..8]) < Pow2(8) == 256;
      [BitsToNat(bits[..8])] + ToBytes(bits[8..])
  }

  lemma {:induction false} FromBytesAppend(a: seq<Byte>, b: seq<Byte>)
    ensures FromBytes(a + b) == FromBytes(a) + FromBytes(b)
  {
    if a != [] {
      assert (a + b)[0] == a[0];
      assert (a + b)[1..] == a[1..] + b;
      FromBytesAppend(a[1..], b);
    } else {
      assert a + b == b;
    }
  }

  /** The bits of a run of bytes sit at eight times its offsets in the
      bits of the whole string. */
  lemma FromBytesSlice(bytes: seq<Byte>, a: nat, b: nat)
    requires a <= b <= |bytes|
    ensures FromBytes(bytes[a..b]) == FromBytes(bytes)[8 * a..8 * b]
  {
    var p, m, q := bytes[..a], bytes[a..b], bytes[b..];
    SplitThree(bytes, a, b);
    FromBytesAppend(p + m, q);
    FromBytesAppend(p, m);
    var fp, fm := FromBytes(p), FromBytes(m);
    assert |fp| == 8 * a && |fp| + |fm| == 8 * b;
    MiddleSlice(fp, fm, FromBytes(q));
  }

  /** Unpacking the bytes that packing produced gives the bits back. */
  lemma {:induction false} FromBytesToBytes(bits: Bits)
    requires |bits| % 8 == 0
    ensures FromBytes(ToBytes(bits)) == bits
  {
    if bits != [] {
      BitsToNatToBits(bits[..8]);
      FromBytesToBytes(bits[8..]);
      assert bits == bits[..8] + bits[8..];
    }
  }

  /** Packing the bits of some bytes gives the bytes back. */
  lemma {:induction false} ToBytesFromBytes(bytes: seq<Byte>)
    ensures ToBytes(FromBytes(bytes)) == bytes
  {
    if bytes != [] {
      var bits := FromBytes(bytes);
      assert bits[..8] == ByteToBits(bytes[0]);
      assert bits[8..] == FromBytes(bytes[1..]);
      NatToBitsToNat(bytes[0], 8);
      ToBytesFromBytes(bytes[1..]);
    }
  }

  /** How many bits of the last byte of an `n`-bit string are significant:
      `n % 8`, except that a whole last byte (and the empty string) counts
      as 8. */
  function SignificantBits(n: nat): (c: nat)
    ensures 1 <= c <= 8
    ensures (n + 8 - c) % 8 == 0
  {
    if n % 8 == 0 then 8 else n % 8
  }

  /** `bits` followed by the zero bits that fill its last byte. */
  function PadToByte(bits: Bits): (r: Bits)
    ensures |r| % 8 == 0
    ensures |r| == 8 * ((|bits| + 7) / 8)
    ensures IsPrefix(bits, r)
    ensures forall i :: |bits| <= i < |r| ==> !r[i]
  {
    bits + Zeros(8 - SignificantBits(|bits|))
  }
}
