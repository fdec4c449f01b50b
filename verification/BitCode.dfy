/** The payload of huffman.py: the input bytes mapped through the code table
    (`get_huffman_bit_code`), padded to whole bytes behind a byte that says
    how many bits of the last byte count (`encode_huffman_bit_code`), and
    the way back (`decode_huffman_bit_code`). */
module BitCode {
  import opened Common
  import opened BitArray
  import opened OrderedDict
  import opened HuffmanCodes

  /** The codes of `s` concatenated in input order. */
  function Encoded(s: seq<Byte>, codes: map<Byte, Bits>): Bits
    requires forall i :: 0 <= i < |s| ==> s[i] in codes
  {
    if s == [] then [] else codes[s[0]] + Encoded(s[1..], codes)
  }

  /** The total length of the codes of `s`. */
  function CodeLengths(s: seq<Byte>, codes: map<Byte, Bits>): nat
    requires forall i :: 0 <= i < |s| ==> s[i] in codes
  {
    if s == [] then 0 else |codes[s[0]]| + CodeLengths(s[1..], codes)
  }

  /** Encoding one more byte appends its code, and the length of an encoding
      is the sum of its code lengths. */
  lemma {:induction false} EncodedSnoc(s: seq<Byte>, b: Byte, codes: map<Byte, Bits>)
    requires forall i :: 0 <= i < |s| ==> s[i] in codes
    requires b in codes
    ensures Encoded(s + [b], codes) == Encoded(s, codes) + codes[b]
    ensures CodeLengths(s + [b], codes) == CodeLengths(s, codes) + |codes[b]|
    ensures |Encoded(s, codes)| == CodeLengths(s, codes)
  {
    if s == [] {
      assert s + [b] == [b];
    } else {
      assert (s + [b])[1..] == s[1..] + [b];
      EncodedSnoc(s[1..], b, codes);
    }
  }

  /** `get_huffman_bit_code`: the codes of the input bytes concatenated in
      input order, so its length is the sum of their code lengths; a byte
      without a code raises `KeyError`. */
  method GetHuffmanBitCode(bytes: seq<Byte>, table: Dict<Bits>) returns (r: Result<Bits>)
    ensures r.Ok? <==> forall i :: 0 <= i < |bytes| ==> bytes[i] in table.vals
    ensures r.Ok? ==> r.value == Encoded(bytes, table.vals)
    ensures r.Ok? ==> |r.value| == CodeLengths(bytes, table.vals)
    ensures r.Err? ==> r.error == KeyError
  {
    var bitCode: Bits := [];
    for i := 0 to |bytes|
      invariant forall j :: 0 <= j < i ==> bytes[j] in table.vals
      invariant bitCode == Encoded(bytes[..i], table.vals)
      invariant |bitCode| == CodeLengths(bytes[..i], table.vals)
    {
      if bytes[i] !in table.vals {
        return Err(KeyError);
      }
      EncodedSnoc(bytes[..i], bytes[i], table.vals);
      assert bytes[..i + 1] == bytes[..i] + [bytes[i]];
      bitCode := bitCode + table.vals[bytes[i]];
    }
    assert bytes[..|bytes|] == bytes;
    return Ok(bitCode);
  }

  /** `encode_huffman_bit_code` on `n` bits: `1 + ceil(n/8)` bytes. The first
      is `n % 8`, or 8 when `n` is a multiple of 8, so it lies in 1..8; the
      others hold the bits most significant first and zero bits after
      them. */
  function EncodeHuffmanBitCode(bits: Bits): (r: seq<Byte>)
    ensures |r| == 1 + (|bits| + 7) / 8
    ensures 1 <= r[0] <= 8 && r[0] % 8 == |bits| % 8
    ensures IsPrefix(bits, FromBytes(r[1..]))
    ensures forall i :: |bits| <= i < |FromBytes(r[1..])| ==> !FromBytes(r[1..])[i]
  {
    var padded := PadToByte(bits);
    var r := [SignificantBits(|bits|)] + ToBytes(padded);
    FromBytesToBytes(padded);
    assert r[1..] == ToBytes(padded);
    r
  }

  /** The bits `decode_huffman_bit_code` hands to the prefix decoder: the
      bits of every byte after the first, with the `8 - first` trailing
      padding bits cut off unless the first byte is 8. The cut is Python's
      slice `[:-(8 - first)]`. An empty payload raises `IndexError`. */
  function PayloadBits(payload: seq<Byte>): Result<Bits> {
    if |payload| == 0 then Err(IndexError)
    else
      var bits := FromBytes(payload[1..]);
      var finish: int := if payload[0] != 8 then -(8 - payload[0]) else |bits|;
      Ok(bits[..SliceEnd(|bits|, finish)])
  }

  /** Unpacking recovers exactly the bits that were packed, whatever their
      number. */
  lemma PayloadBitsRoundTrip(bits: Bits)
    ensures PayloadBits(EncodeHuffmanBitCode(bits)) == Ok(bits)
  {
    var r := EncodeHuffmanBitCode(bits);
    var all := FromBytes(r[1..]);
    assert |all| == |PadToByte(bits)|;
    assert all[..|bits|] == bits;
  }

  /** The first byte whose (non-empty) code starts `bits`, searching `keys`
      in order. */
  function MatchCode(bits: Bits, keys: seq<Byte>, codes: map<Byte, Bits>): (r: Option<Byte>)
    requires forall k :: k in keys ==> k in codes
    ensures r.Some? ==> r.value in keys && |codes[r.value]| > 0 && IsPrefix(codes[r.value], bits)
  {
    if keys == [] then None
    else if |codes[keys[0]]| > 0 && IsPrefix(codes[keys[0]], bits) then Some(keys[0])
    else MatchCode(bits, keys[1..], codes)
  }

  /** Splitting `bits` into codes from the left, one byte per code; bits that
      do not split exactly raise an error. */
  function DecodeCodes(bits: Bits, table: Dict<Bits>): Result<seq<Byte>>
    requires table.Valid()
    decreases |bits|
  {
    if bits == [] then Ok([])
    else
      match MatchCode(bits, table.keys, table.vals)
      case None => Err(DecodeError)
      case Some(k) =>
        match DecodeCodes(bits[|table.vals[k]|..], table)
        case Err(e) => Err(e)
        case Ok(rest) => Ok([k] + rest)
  }

  /** Decoding splits the bits exactly: every decoded byte has a code,
      and the codes of the decoded bytes, concatenated, are the bits. The
      only error is `DecodeError`. */
  lemma {:induction false} DecodeCodesEncoded(bits: Bits, table: Dict<Bits>)
    requires table.Valid()
    ensures DecodeCodes(bits, table).Err? ==> DecodeCodes(bits, table).error == DecodeError
    ensures DecodeCodes(bits, table).Ok? ==>
      && (forall i :: 0 <= i < |DecodeCodes(bits, table).value| ==> DecodeCodes(bits, table).value[i] in table.vals)
      && Encoded(DecodeCodes(bits, table).value, table.vals) == bits
    decreases |bits|
  {
    if bits != [] {
      var m := MatchCode(bits, table.keys, table.vals);
      if m.Some? {
        var k := m.value;
        var code := table.vals[k];
        var tail := bits[|code|..];
        DecodeCodesEncoded(tail, table);
        var rest := DecodeCodes(tail, table);
        if rest.Ok? {
          var out := [k] + rest.value;
          assert out[1..] == rest.value;
          assert bits == code + tail;
        }
      }
    }
  }

  /** `bitarray.decode(table)` followed by `b"".join(...)`: the library
      refuses an empty table, an empty code and a table that is not a
      prefix code, and otherwise decodes code by code. */
  function DecodeBitarray(bits: Bits, table: Dict<Bits>): Result<seq<Byte>>
    requires table.Valid()
  {
    if table.keys == [] || !PrefixFree(table) || exists k :: k in table.vals && |table.vals[k]| == 0
    then Err(DecodeError)
    else DecodeCodes(bits, table)
  }

  /** In a prefix code, the code at the front of the bits is the only one
      that matches. */
  lemma {:induction false} MatchCodeUnique(bits: Bits, keys: seq<Byte>, t: Dict<Bits>, k: Byte)
    requires t.Valid() && PrefixFree(t)
    requires forall x :: x in keys ==> x in t.vals
    requires k in keys && |t.vals[k]| > 0 && IsPrefix(t.vals[k], bits)
    ensures MatchCode(bits, keys, t.vals) == Some(k)
  {
    var k0 := keys[0];
    if k0 != k {
      PrefixesComparable(t.vals[k0], t.vals[k], bits);
      MatchCodeUnique(bits, keys[1..], t, k);
    }
  }

  /** Two prefixes of the same bits are prefixes of each other. */
  lemma PrefixesComparable(a: Bits, b: Bits, bits: Bits)
    ensures IsPrefix(a, bits) && IsPrefix(b, bits) ==> IsPrefix(a, b) || IsPrefix(b, a)
  {
    if IsPrefix(a, bits) && IsPrefix(b, bits) {
      if |a| <= |b| {
        assert b[..|a|] == bits[..|a|];
      } else {
        assert a[..|b|] == bits[..|b|];
      }
    }
  }

  /** Decoding the concatenated codes of `s` with a prefix code of
      non-empty codes gives `s` back. */
  lemma {:induction false} DecodeEncoded(s: seq<Byte>, t: Dict<Bits>)
    requires t.Valid() && PrefixFree(t)
    requires forall k :: k in t.vals ==> |t.vals[k]| > 0
    requires forall i :: 0 <= i < |s| ==> s[i] in t.vals
    ensures DecodeCodes(Encoded(s, t.vals), t) == Ok(s)
  {
    if s != [] {
      var bits := Encoded(s, t.vals);
      var c := t.vals[s[0]];
      assert bits == c + Encoded(s[1..], t.vals);
      assert bits[..|c|] == c;
      MatchCodeUnique(bits, t.keys, t, s[0]);
      assert bits[|c|..] == Encoded(s[1..], t.vals);
      DecodeEncoded(s[1..], t);
      assert s == [s[0]] + s[1..];
    }
  }

  /** `decode_huffman_bit_code`: the payload's bits, collected byte by byte
      and cut as `PayloadBits` says, decoded with the table. */
  method DecodeHuffmanBitCode(payload: seq<Byte>, table: Dict<Bits>) returns (r: Result<seq<Byte>>)
    requires table.Valid()
    ensures r == DecodeBitCode(payload, table)
  {
    if |payload| == 0 {
      return Err(IndexError);
    }
    var cntBitsOfLastByte: int := payload[0];
    var bitCode: Bits := [];
    for i := 1 to |payload|
      invariant bitCode == FromBytes(payload[1..i])
    {
      FromBytesAppend(payload[1..i], [payload[i]]);
      assert payload[1..i + 1] == payload[1..i] + [payload[i]];
      assert FromBytes([payload[i]]) == ByteToBits(payload[i]);
      bitCode := bitCode + ByteToBits(payload[i]);
    }
    assert payload[1..|payload|] == payload[1..];
    var finishBit: int := |bitCode|;
    if cntBitsOfLastByte != 8 {
      finishBit := -(8 - cntBitsOfLastByte);
    }
    r := DecodeBitarray(bitCode[..SliceEnd(|bitCode|, finishBit)], table);
  }

  /** What `decode_huffman_bit_code` returns for a payload. */
  function DecodeBitCode(payload: seq<Byte>, table: Dict<Bits>): Result<seq<Byte>>
    requires table.Valid()
  {
    match PayloadBits(payload)
    case Err(e) => Err(e)
    case Ok(bits) => DecodeBitarray(bits, table)
  }

  /** What `decode_huffman_bit_code` returns, re-encoded with the same
      table, gives back the bits of the payload: an empty payload raises
      `IndexError`, and every decoded byte has a code. */
  lemma DecodeBitCodeEncoded(payload: seq<Byte>, table: Dict<Bits>)
    requires table.Valid()
    ensures |payload| == 0 ==> DecodeBitCode(payload, table) == Err(IndexError)
    ensures DecodeBitCode(payload, table).Ok? ==>
      && PayloadBits(payload).Ok?
      && (forall i :: 0 <= i < |DecodeBitCode(payload, table).value| ==> DecodeBitCode(payload, table).value[i] in table.vals)
      && Encoded(DecodeBitCode(payload, table).value, table.vals) == PayloadBits(payload).value
  {
    if PayloadBits(payload).Ok? {
      DecodeCodesEncoded(PayloadBits(payload).value, table);
    }
  }

  /** For a usable table that has a code for every byte of `s`, decoding the
      packed codes of `s` gives `s` back. */
  lemma PayloadRoundTrip(s: seq<Byte>, t: Dict<Bits>)
    requires UsableTable(t) && t.keys != []
    requires forall i :: 0 <= i < |s| ==> s[i] in t.vals
    ensures DecodeBitCode(EncodeHuffmanBitCode(Encoded(s, t.vals)), t) == Ok(s)
  {
    PayloadBitsRoundTrip(Encoded(s, t.vals));
    DecodeEncoded(s, t);
  }
}
