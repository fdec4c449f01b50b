/** The code-table block of the container (`encode_huffman_codes_dict` and
    `decode_huffman_codes_dict` of huffman.py): a byte holding the number of
    entries minus one, then per entry the byte, the code length in bits,
    and the code packed most significant bit first, zero-padded to whole
    bytes. */
module CodeTable {
  import opened Common
  import opened BitArray
  import opened OrderedDict
  import opened HuffmanCodes

  /** One serialised entry: byte, code length, packed code. */
  function EntryBytes(k: Byte, code: Bits): (r: seq<Byte>)
    requires |code| <= 255
    ensures |r| == 2 + (|code| + 7) / 8
  {
    [k] + [|code|] + ToBytes(PadToByte(code))
  }

  /** The entries serialised one after the other. */
  function TableBytes(es: seq<(Byte, Bits)>): (r: seq<Byte>)
    requires CodesFit(es)
    ensures |r| == EntriesSize(es)
  {
    if es == [] then [] else EntryBytes(es[0].0, es[0].1) + TableBytes(es[1..])
  }

  /** The sum over the entries of `2 + ceil(len(code) / 8)`. */
  function EntriesSize(es: seq<(Byte, Bits)>): nat {
    if es == [] then 0 else 2 + (|es[0].1| + 7) / 8 + EntriesSize(es[1..])
  }

  lemma {:induction false} TableBytesSnoc(es: seq<(Byte, Bits)>, e: (Byte, Bits))
    requires CodesFit(es)
    requires |e.1| <= 255
    ensures TableBytes(es + [e]) == TableBytes(es) + EntryBytes(e.0, e.1)
  {
    if es == [] {
      assert es + [e] == [e];
    } else {
      assert (es + [e])[1..] == es[1..] + [e];
      TableBytesSnoc(es[1..], e);
    }
  }

  /** Every code fits the one-byte length field. */
  predicate CodesFit(es: seq<(Byte, Bits)>) {
    forall j :: 0 <= j < |es| ==> |es[j].1| <= 255
  }

  /** `encode_huffman_codes_dict`: the count byte `len(d) - 1`, then the
      entries in the dict's order. `int.to_bytes(..., length=1)` raises
      `OverflowError` for an empty dict (count -1) and for a code longer
      than 255 bits; a dict of bytes has at most 256 keys, so the count
      always fits otherwise. */
  method EncodeHuffmanCodesDict(t: Dict<Bits>) returns (r: Result<seq<Byte>>)
    requires t.Valid()
    ensures r.Ok? <==> |t.keys| >= 1 && forall k :: k in t.vals ==> |t.vals[k]| <= 255
    ensures r.Err? ==> r.error == OverflowError
    ensures r.Ok? ==> r.value == [|t.keys| - 1] + TableBytes(Entries(t))
  {
    if |t.keys| == 0 {
      return Err(OverflowError);
    }
    DistinctBytesBound(t.keys);
    var items := Entries(t);
    EntriesFit(t, items);
    r := EncodeEntries(items, [|items| - 1]);
  }

  /** The loop of `encode_huffman_codes_dict` over `d.items()`: appends each
      entry to `head`, stopping at the first code too long for its length
      byte. */
  method EncodeEntries(items: seq<(Byte, Bits)>, head: seq<Byte>) returns (r: Result<seq<Byte>>)
    ensures r.Ok? <==> CodesFit(items)
    ensures r.Err? ==> r.error == OverflowError
    ensures r.Ok? ==> r.value == head + TableBytes(items)
  {
    var dictBytes := head;
    for i := 0 to |items|
      invariant CodesFit(items[..i])
      invariant dictBytes == head + TableBytes(items[..i])
    {
      var (k, v) := items[i];
      if |v| > 255 {
        assert !CodesFit(items) by { assert items[i].1 == v; }
        return Err(OverflowError);
      }
      var cntBitsOfLastByte := |v| % 8;
      if cntBitsOfLastByte == 0 {
        cntBitsOfLastByte := 8;
      }
      var tmp := v + Zeros(8 - cntBitsOfLastByte);
      EncodeStep(items, i, head, dictBytes, cntBitsOfLastByte, tmp);
      dictBytes := dictBytes + ([k] + [|v|] + ToBytes(tmp));
    }
    assert items[..|items|] == items;
    return Ok(dictBytes);
  }

  /** The dict's codes all fit exactly when its entries' codes do. */
  lemma EntriesFit(t: Dict<Bits>, es: seq<(Byte, Bits)>)
    requires t.Valid() && es == Entries(t)
    ensures CodesFit(es) <==> forall k :: k in t.vals ==> |t.vals[k]| <= 255
  {
    if CodesFit(es) {
      forall k | k in t.vals
        ensures |t.vals[k]| <= 255
      {
        var j :| 0 <= j < |t.keys| && t.keys[j] == k;
        assert es[j].1 == t.vals[k];
      }
    }
  }

  /** One turn of the encoding loop appends the serialised entry `i`. */
  lemma EncodeStep(es: seq<(Byte, Bits)>, i: nat, head: seq<Byte>, acc: seq<Byte>, cnt: nat, tmp: Bits)
    requires i < |es| && |es[i].1| <= 255 && CodesFit(es[..i])
    requires acc == head + TableBytes(es[..i])
    requires cnt == if |es[i].1| % 8 == 0 then 8 else |es[i].1| % 8
    requires cnt <= 8 && tmp == es[i].1 + Zeros(8 - cnt)
    ensures |tmp| % 8 == 0
    ensures CodesFit(es[..i + 1])
    ensures acc + ([es[i].0] + [|es[i].1|] + ToBytes(tmp)) == head + TableBytes(es[..i + 1])
  {
    var k, v := es[i].0, es[i].1;
    assert cnt == SignificantBits(|v|);
    assert tmp == PadToByte(v);
    var entry := [k] + [|v|] + ToBytes(tmp);
    assert entry == EntryBytes(k, v);
    TakeSnoc(es, i);
    TableBytesSnoc(es[..i], es[i]);
    AppendAssoc(head, TableBytes(es[..i]), entry);
  }

  /** `len // 8 + (len % 8 != 0)`: the number of bytes a code of `len`
      bits is packed into. */
  function CeilBytes(len: nat): nat {
    len / 8 + (if len % 8 != 0 then 1 else 0)
  }

  lemma CeilBytesPacked(len: nat)
    ensures CeilBytes(len) == (len + 7) / 8
  {}

  /** The number of bytes the entry at offset `i` takes: its byte, its
      length byte and the packed code. */
  function EntrySize(data: seq<Byte>, i: nat): (n: nat)
    requires i + 1 < |data|
    ensures n >= 2
  {
    2 + CeilBytes(data[i + 1])
  }

  /** The code of the entry at offset `i`. Packed code bytes past the end
      of the data are silently missing (Python slices clip), so the code
      then comes out shorter than its length byte says. */
  function CodeAt(data: seq<Byte>, i: nat): Bits
    requires i + 1 < |data|
  {
    var len := data[i + 1];
    var hi := Min(i + 2 + CeilBytes(len), |data|);
    var bits := if hi <= i + 2 then [] else FromBytes(data)[8 * (i + 2)..8 * hi];
    bits[..Min(len, |bits|)]
  }

  /** What the loop of `decode_huffman_codes_dict` returns when it starts
      at offset `i` with `count` entries still to read and the dict `d`
      filled so far: it stops after `count` entries or once the offset
      reaches the end of the data, and a length byte past the end raises
      `IndexError`. Each entry is stored under its byte, so a repeated
      byte keeps its first place and its last code. */
  function ReadFrom(data: seq<Byte>, i: nat, count: int, d: Dict<Bits>): Result<(Dict<Bits>, nat)>
    decreases |data| - i
  {
    if |data| <= i || count <= 0 then Ok((d, i))
    else if |data| <= i + 1 then Err(IndexError)
    else ReadFrom(data, i + EntrySize(data, i), count - 1, d.Set(data[i], CodeAt(data, i)))
  }

  /** Reading entries into a valid dict gives a valid dict. */
  lemma {:induction false} ReadFromValid(data: seq<Byte>, i: nat, count: int, d: Dict<Bits>)
    requires d.Valid()
    ensures ReadFrom(data, i, count, d).Ok? ==> ReadFrom(data, i, count, d).value.0.Valid()
    decreases |data| - i
  {
    if i + 1 < |data| && count > 0 {
      var next := d.Set(data[i], CodeAt(data, i));
      var j := i + EntrySize(data, i);
      assert ReadFrom(data, i, count, d) == ReadFrom(data, j, count - 1, next);
      ReadFromValid(data, j, count - 1, next);
    }
  }

  /** What `decode_huffman_codes_dict(data, count)` returns: the dict read
      and the offset reached. */
  function DecodeTable(data: seq<Byte>, count: int): (r: Result<(Dict<Bits>, nat)>)
    ensures r.Ok? ==> r.value.0.Valid()
  {
    ReadFromValid(data, 0, count, Empty());
    ReadFrom(data, 0, count, Empty())
  }

  /** `decode_huffman_codes_dict`: reads entries from offset 0 while there
      are bytes left and fewer than `count` entries have been read; returns
      the dict and the offset reached. */
  method DecodeHuffmanCodesDict(data: seq<Byte>, count: int) returns (r: Result<(Dict<Bits>, nat)>)
    ensures r == DecodeTable(data, count)
  {
    var huffmanCodesDict := Empty();
    var i: nat := 0;
    var cntOfDictElems := 0;
    while i < |data| && cntOfDictElems < count
      invariant DecodeTable(data, count) == ReadFrom(data, i, count - cntOfDictElems, huffmanCodesDict)
      decreases |data| - i
    {
      cntOfDictElems := cntOfDictElems + 1;
      var byteVal := data[i];
      if i + 1 >= |data| {
        return Err(IndexError);
      }
      var byteCode, size := ReadEntry(data, i);
      ReadStep(data, i, count - cntOfDictElems + 1, huffmanCodesDict, byteCode, i + size, count - cntOfDictElems);
      huffmanCodesDict := huffmanCodesDict.Set(byteVal, byteCode);
      i := i + size;
    }
    return Ok((huffmanCodesDict, i));
  }

  /** One turn of the loop reads the entry at `i` into the dict. */
  lemma ReadStep(data: seq<Byte>, i: nat, c: int, d: Dict<Bits>, code: Bits, i': nat, c': int)
    requires i + 1 < |data| && c > 0 && code == CodeAt(data, i)
    requires i' == i + EntrySize(data, i) && c' == c - 1
    ensures ReadFrom(data, i, c, d) == ReadFrom(data, i', c', d.Set(data[i], code))
  {}

  /** The body of the loop of `decode_huffman_codes_dict` once the
      length byte is known to be there: the code cut to its length and the
      number of bytes the entry takes. */
  method ReadEntry(data: seq<Byte>, i: nat) returns (byteCode: Bits, size: nat)
    requires i + 1 < |data|
    ensures byteCode == CodeAt(data, i) && size == EntrySize(data, i)
  {
    var lenByteCodeInBits := data[i + 1];
    var cntOfBytes := lenByteCodeInBits / 8 + (if lenByteCodeInBits % 8 != 0 then 1 else 0);
    byteCode := UnpackBytes(Slice(data, i + 2, i + 2 + cntOfBytes));
    if i + 2 < Min(i + 2 + cntOfBytes, |data|) {
      FromBytesSlice(data, i + 2, Min(i + 2 + cntOfBytes, |data|));
    }
    byteCode := byteCode[..Min(lenByteCodeInBits, |byteCode|)];
    size := 2 + cntOfBytes;
  }

  /** The inner loop of `decode_huffman_codes_dict`: the bits of the bytes,
      one byte after the other. */
  method UnpackBytes(chunk: seq<Byte>) returns (bits: Bits)
    ensures bits == FromBytes(chunk)
  {
    bits := [];
    for j := 0 to |chunk|
      invariant bits == FromBytes(chunk[..j])
    {
      FromBytesAppend(chunk[..j], [chunk[j]]);
      TakeSnoc(chunk, j);
      assert FromBytes([chunk[j]]) == ByteToBits(chunk[j]);
      bits := bits + ByteToBits(chunk[j]);
    }
    assert chunk[..|chunk|] == chunk;
  }

  /** The entry serialised at offset `i` reads back as itself. */
  lemma EntryAtSerialised(data: seq<Byte>, i: nat, k: Byte, code: Bits)
    requires |code| <= 255
    requires i + |EntryBytes(k, code)| <= |data|
    requires data[i..i + |EntryBytes(k, code)|] == EntryBytes(k, code)
    ensures i + 1 < |data| && data[i] == k
    ensures CodeAt(data, i) == code && EntrySize(data, i) == |EntryBytes(k, code)|
  {
    var entry := EntryBytes(k, code);
    var padded := PadToByte(code);
    var packed := ToBytes(padded);
    assert data[i] == entry[0] == k;
    assert data[i + 1] == entry[1] == |code|;
    CeilBytesPacked(|code|);
    assert |packed| == CeilBytes(|code|);
    assert data[i + 2..i + |entry|] == entry[2..] == packed;
    FromBytesToBytes(padded);
    FromBytesSlice(data, i + 2, i + |entry|);
  }

  /** Reading serialised entries at their offset into a dict stores
      exactly those entries, in order, and stops at their end. */
  lemma {:induction false} ReadEntries(data: seq<Byte>, i: nat, end: nat, es: seq<(Byte, Bits)>, d: Dict<Bits>)
    requires CodesFit(es)
    requires i <= end <= |data| && data[i..end] == TableBytes(es)
    ensures ReadFrom(data, i, |es|, d) == Ok((SetAll(d, es), end))
    decreases |es|
  {
    if es == [] {
      assert end == i by { assert |data[i..end]| == 0; }
    } else {
      var j := FirstEntry(data, i, end, es);
      ReadEntries(data, j, end, es[1..], d.Set(es[0].0, es[0].1));
      ReadCons(data, i, j, end, es, d);
    }
  }

  /** Reading the first entry and then the others reads all of them. */
  lemma ReadCons(data: seq<Byte>, i: nat, j: nat, end: nat, es: seq<(Byte, Bits)>, d: Dict<Bits>)
    requires es != [] && i + 1 < |data| && data[i] == es[0].0 && CodeAt(data, i) == es[0].1
    requires j == i + EntrySize(data, i)
    requires ReadFrom(data, j, |es[1..]|, d.Set(es[0].0, es[0].1)) == Ok((SetAll(d.Set(es[0].0, es[0].1), es[1..]), end))
    ensures ReadFrom(data, i, |es|, d) == Ok((SetAll(d, es), end))
  {
    ReadStep(data, i, |es|, d, es[0].1, j, |es| - 1);
  }

  /** The first of the serialised entries reads back as itself and ends
      where the others begin. */
  lemma FirstEntry(data: seq<Byte>, i: nat, end: nat, es: seq<(Byte, Bits)>) returns (j: nat)
    requires CodesFit(es) && es != []
    requires i <= end <= |data| && data[i..end] == TableBytes(es)
    ensures i + 1 < |data| && data[i] == es[0].0 && CodeAt(data, i) == es[0].1
    ensures j == i + EntrySize(data, i) && j <= end
    ensures CodesFit(es[1..]) && data[j..end] == TableBytes(es[1..])
  {
    var k, code := es[0].0, es[0].1;
    var entry := EntryBytes(k, code);
    j := i + |entry|;
    assert TableBytes(es) == entry + TableBytes(es[1..]);
    SubsliceSplit(data, i, j, end, entry, TableBytes(es[1..]));
    EntryAtSerialised(data, i, k, code);
  }

  /** Table round trip: decoding the serialised entries of a dict with its
      number of entries gives the same dict back, and the offset reached is
      the sum over the entries of `2 + ceil(len(code) / 8)`. */
  lemma TableRoundTrip(t: Dict<Bits>, rest: seq<Byte>)
    requires t.Valid()
    requires forall k :: k in t.vals ==> |t.vals[k]| <= 255
    ensures DecodeTable(TableBytes(Entries(t)) + rest, |t.keys|) == Ok((t, EntriesSize(Entries(t))))
  {
    var es := Entries(t);
    EntriesFit(t, es);
    var data := TableBytes(es) + rest;
    assert data[0..|TableBytes(es)|] == TableBytes(es);
    ReadEntries(data, 0, |TableBytes(es)|, es, Empty());
    SetAllOwnEntries(t);
  }
}
