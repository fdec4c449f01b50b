/** The container as `encode` and `decode` of huffman.py assemble and parse
    it (lines 159-168 and 184-194): the extension block, then, for a
    non-empty input only, the code-table block and the payload block. Reading
    and writing the files, the output path and the reports around these
    lines are not part of this model. */
module Container {
  import opened Common
  import opened OrderedDict
  import opened Utils
  import opened HuffmanNode
  import opened HuffmanCodes
  import opened BitCode
  import opened CodeTable
  import Utf8
  import opened Extension

  /** What `decode` recovers from the container: the input bytes and the
      extension. An empty container raises `IndexError` at the length byte;
      an extension that is not UTF-8 raises `UnicodeDecodeError`; when no
      byte follows the extension the input was empty; otherwise the table
      is read after the count byte and the payload starts where the table
      ends. Slices past the end are empty, as in Python. */
  function DecodeContainer(data: seq<Byte>): Result<(seq<Byte>, seq<CodePoint>)> {
    if |data| == 0 then Err(IndexError)
    else
      var lenFileExtension: int := data[0];
      match Utf8.Decode(Slice(data, 1, 1 + lenFileExtension))
      case Err(e) => Err(e)
      case Ok(ext) =>
        match DecodeBlocks(data, 1 + lenFileExtension)
        case Err(e) => Err(e)
        case Ok(bytes) => Ok((bytes, ext))
  }

  /** The input bytes recovered from the blocks after the extension, which
      start at `start`: none when the container ends there; otherwise the
      count byte, the table and the payload. */
  function DecodeBlocks(data: seq<Byte>, start: nat): Result<seq<Byte>> {
    if |data| <= start then Ok([])
    else
      var count: int := data[start] as int + 1;
      var t := DecodeTable(Drop(data, start + 1), count);
      if t.Err? then Err(t.error)
      else DecodeBitCode(Drop(data, start + 1 + t.value.1), t.value.0)
  }

  /** Lines 184-194 of `decode`. */
  method Decode(listOfBytes: seq<Byte>) returns (r: Result<(seq<Byte>, seq<CodePoint>)>)
    ensures r == DecodeContainer(listOfBytes)
  {
    if |listOfBytes| == 0 {
      return Err(IndexError);
    }
    var lenFileExtension: int := listOfBytes[0];
    var fileExtension := DecodeFileExtension(Slice(listOfBytes, 1, 1 + lenFileExtension));
    if fileExtension.Err? {
      return Err(fileExtension.error);
    }
    var bytesOfUnzipFile := DecodeAfterExtension(listOfBytes, 1 + lenFileExtension);
    if bytesOfUnzipFile.Err? {
      return Err(bytesOfUnzipFile.error);
    }
    return Ok((bytesOfUnzipFile.value, fileExtension.value));
  }

  /** Lines 189-194 of `decode`: the table and the payload, when any byte
      follows the extension block. */
  method DecodeAfterExtension(listOfBytes: seq<Byte>, start: nat) returns (r: Result<seq<Byte>>)
    ensures r == DecodeBlocks(listOfBytes, start)
  {
    if |listOfBytes| <= start {
      return Ok([]);
    }
    var lenOfHuffmanCodesDict: int := listOfBytes[start] as int + 1;
    var decoded := DecodeHuffmanCodesDict(Drop(listOfBytes, start + 1), lenOfHuffmanCodesDict);
    BlocksAfterTable(listOfBytes, start, decoded);
    if decoded.Err? {
      return Err(decoded.error);
    }
    var (huffmanCodesDict, byteSizeOfDict) := decoded.value;
    r := DecodeHuffmanBitCode(Drop(listOfBytes, start + 1 + byteSizeOfDict), huffmanCodesDict);
  }

  /** Lines 159-168 of `encode`. The only error is the extension's; the
      container decodes to the input and the extension without its dot; an
      empty input gives the extension block alone; otherwise the table
      holds a code for exactly the bytes of the input (the code `0` when
      the input repeats one byte, codes of at most (number of distinct
      bytes - 1) bits otherwise), and the container is
      the extension block, the count byte, the table's entries and the
      packed codes of the input, in that order. */
  method Encode(listOfBytes: seq<Byte>, fileExtension: seq<CodePoint>) returns (r: Result<seq<Byte>>, ghost table: Dict<Bits>)
    ensures r.Ok? <==> EncodeFileExtension(fileExtension).Ok?
    ensures r.Err? || listOfBytes == [] ==> r == EncodeFileExtension(fileExtension)
    ensures r.Ok? ==> DecodeContainer(r.value) == Ok((listOfBytes, StripDot(fileExtension)))
    ensures r.Ok? && listOfBytes != [] ==>
      && UsableTable(table)
      && (forall b :: b in table.vals <==> b in listOfBytes)
      && EncodeFileExtension(fileExtension).value <= r.value
    ensures r.Ok? && listOfBytes != [] ==>
      && (|table.keys| == 1 <==> forall i :: 0 <= i < |listOfBytes| ==> listOfBytes[i] == listOfBytes[0])
      && (|table.keys| == 1 ==> table == Dict([listOfBytes[0]], map[listOfBytes[0] := [false]]))
      && (|table.keys| >= 2 ==> forall k :: k in table.vals ==> |table.vals[k]| <= |table.keys| - 1)
    ensures r.Ok? && listOfBytes != [] ==>
      r.value == EncodeFileExtension(fileExtension).value
                 + ([|table.keys| - 1] + TableBytes(Entries(table))
                    + EncodeHuffmanBitCode(Encoded(listOfBytes, table.vals)))
  {
    var huffmanCodesDict: Dict<Bits> := Empty();
    var huffmanCodeBitarray: Bits := [];
    if |listOfBytes| > 0 {
      ghost var freq, root;
      huffmanCodesDict, huffmanCodeBitarray, freq, root := CodeInput(listOfBytes);
    }
    table := huffmanCodesDict;
    var allBytes := EncodeFileExtension(fileExtension);
    if allBytes.Err? || |listOfBytes| == 0 {
      if allBytes.Ok? {
        EmptyRoundTrip(allBytes.value, StripDot(fileExtension));
      }
      return allBytes, table;
    }
    var assembled := AppendBlocks(allBytes.value, StripDot(fileExtension), huffmanCodesDict, huffmanCodeBitarray, listOfBytes);
    r := Ok(assembled);
  }

  /** Lines 165-168 of `encode`: the count byte and the table, then the
      payload, appended to the extension block. The result parses back to
      the input and the extension: it is the extension block, the count
      byte, the table's entries and the payload, in that order. */
  method AppendBlocks(block: seq<Byte>, ghost ext: seq<CodePoint>, table: Dict<Bits>, bits: Bits,
                      ghost listOfBytes: seq<Byte>) returns (allBytes: seq<Byte>)
    requires |block| >= 1 && block[0] == |block| - 1 && Utf8.Decode(block[1..]) == Ok(ext)
    requires UsableTable(table) && |table.keys| >= 1
    requires forall i :: 0 <= i < |listOfBytes| ==> listOfBytes[i] in table.vals
    requires bits == Encoded(listOfBytes, table.vals)
    ensures DecodeContainer(allBytes) == Ok((listOfBytes, ext))
    ensures block <= allBytes
    ensures allBytes == block + ([|table.keys| - 1] + TableBytes(Entries(table)) + EncodeHuffmanBitCode(bits))
  {
    DistinctBytesBound(table.keys);
    EntriesFit(table, Entries(table));
    var bytesOfHuffmanCodesDict := EncodeHuffmanCodesDict(table);
    var bytesOfHuffmanCode := EncodeHuffmanBitCode(bits);
    allBytes := block + (bytesOfHuffmanCodesDict.value + bytesOfHuffmanCode);
    AppendPrefix(block, bytesOfHuffmanCodesDict.value + bytesOfHuffmanCode);
    var c: Byte := |table.keys| - 1;
    var tb := TableBytes(Entries(table));
    assert bytesOfHuffmanCodesDict.value == [c] + tb;
    TableBlockReads(table, c, tb, bytesOfHuffmanCode);
    PayloadBlockReads(table, listOfBytes, bytesOfHuffmanCode);
    ParseContainer(block, ext, c, tb, bytesOfHuffmanCode, table, listOfBytes);
  }

  /** Lines 160-162 of `encode`: count the bytes, derive the code table and
      encode the input with it. `freq` is the frequency dict of line 160 and
      `root` the tree `get_huffman_codes_dict` builds from it. The table has
      a code for exactly the bytes of the input and is usable by the
      decoder. An input of one repeated byte gets the table holding that
      byte with the code `0`; otherwise each byte's code is its path in the
      tree, at most (number of distinct bytes - 1) bits long. */
  method CodeInput(listOfBytes: seq<Byte>) returns (table: Dict<Bits>, bits: Bits, ghost freq: Dict<nat>, ghost root: Node)
    requires |listOfBytes| > 0
    ensures CountsOf(freq, listOfBytes)
    ensures multiset(table.keys) == multiset(freq.keys)
    ensures UsableTable(table) && |table.keys| >= 1
    ensures forall b :: b in table.vals <==> b in listOfBytes
    ensures forall i :: 0 <= i < |listOfBytes| ==> listOfBytes[i] in table.vals
    ensures |table.keys| == 1 <==> forall i :: 0 <= i < |listOfBytes| ==> listOfBytes[i] == listOfBytes[0]
    ensures |table.keys| == 1 ==> table == Dict([listOfBytes[0]], map[listOfBytes[0] := [false]])
    ensures |table.keys| >= 2 ==>
      && multiset(LeafKeys(root)) == multiset(freq.keys) && WeightsAdd(root) && LeavesCarry(root, freq.vals)
      && table == SetAll(Empty(), PathCodes(root, []))
      && forall k :: k in table.vals ==> |table.vals[k]| <= |table.keys| - 1
    ensures bits == Encoded(listOfBytes, table.vals)
  {
    var byteToFrequencyDict := GetFrequencyDict(listOfBytes);
    freq := byteToFrequencyDict;
    table, root := GetHuffmanCodesDict(byteToFrequencyDict);
    SameKeys(table, byteToFrequencyDict);
    forall i | 0 <= i < |listOfBytes|
      ensures listOfBytes[i] in table.vals
    {
      assert listOfBytes[i] in byteToFrequencyDict.vals;
    }
    assert |table.keys| == |freq.keys| by {
      assert |multiset(table.keys)| == |multiset(freq.keys)|;
    }
    OneSymbol(table.keys, listOfBytes);
    var bitCode := GetHuffmanBitCode(listOfBytes, table);
    bits := bitCode.value;
  }

  /** The distinct bytes of a non-empty input are a single byte exactly
      when the input repeats its first byte. */
  lemma OneSymbol(keys: seq<Byte>, s: seq<Byte>)
    requires Distinct(keys) && s != []
    requires forall b :: b in keys <==> b in s
    ensures |keys| == 1 <==> forall i :: 0 <= i < |s| ==> s[i] == s[0]
    ensures |keys| == 1 ==> keys == [s[0]]
  {
    assert s[0] in keys;
    assert |keys| >= 2 ==> keys[0] != keys[1];
    if |keys| == 1 {
      forall i | 0 <= i < |s|
        ensures s[i] == s[0]
      {
        assert s[i] in keys;
      }
    }
    if forall i :: 0 <= i < |s| ==> s[i] == s[0] {
      forall j | 0 <= j < |keys|
        ensures keys[j] == s[0]
      {
        assert keys[j] in s;
      }
    }
  }

  /** Two valid dicts with the same keys map the same bytes. */
  lemma SameKeys<V, W>(a: Dict<V>, b: Dict<W>)
    requires a.Valid() && b.Valid() && multiset(a.keys) == multiset(b.keys)
    ensures forall k :: k in a.vals <==> k in b.vals
  {
    forall k
      ensures k in a.vals <==> k in b.vals
    {
      assert k in a.keys <==> k in multiset(a.keys);
      assert k in b.keys <==> k in multiset(b.keys);
    }
  }

  /** A container that is an extension block alone decodes to no bytes and
      that extension. */
  lemma EmptyRoundTrip(block: seq<Byte>, ext: seq<CodePoint>)
    requires |block| >= 1 && block[0] == |block| - 1 && Utf8.Decode(block[1..]) == Ok(ext)
    ensures DecodeContainer(block) == Ok(([], ext))
  {
    assert Slice(block, 1, |block|) == block[1..];
  }

  /** The table block of a usable table reads back as that table, ending
      where the payload starts. */
  lemma TableBlockReads(table: Dict<Bits>, c: Byte, tb: seq<Byte>, payload: seq<Byte>)
    requires UsableTable(table) && c == |table.keys| - 1 && CodesFit(Entries(table))
    requires tb == TableBytes(Entries(table))
    ensures DecodeTable(tb + payload, c + 1) == Ok((table, |tb|))
  {
    TableReadsAt(table, payload, tb + payload, c + 1, |tb|);
  }

  /** `TableRoundTrip` for data, count and size given as plain values. */
  lemma TableReadsAt(table: Dict<Bits>, payload: seq<Byte>, data: seq<Byte>, count: int, size: nat)
    requires table.Valid() && CodesFit(Entries(table))
    requires data == TableBytes(Entries(table)) + payload
    requires count == |table.keys| && size == EntriesSize(Entries(table))
    ensures DecodeTable(data, count) == Ok((table, size))
  {
    TableRoundTrip(table, payload);
  }

  /** The payload block of an input decodes to it with a usable table that
      codes all its bytes. */
  lemma PayloadBlockReads(table: Dict<Bits>, bytes: seq<Byte>, payload: seq<Byte>)
    requires UsableTable(table) && table.keys != []
    requires forall i :: 0 <= i < |bytes| ==> bytes[i] in table.vals
    requires payload == EncodeHuffmanBitCode(Encoded(bytes, table.vals))
    ensures DecodeBitCode(payload, table) == Ok(bytes)
  {
    PayloadRoundTrip(bytes, table);
  }

  /** The parse of lines 184-194 on an extension block, a count byte, table
      bytes that read back as `table` ending where the payload starts, and a
      payload that decodes to `bytes`. */
  lemma ParseContainer(block: seq<Byte>, ext: seq<CodePoint>, c: Byte, tb: seq<Byte>, payload: seq<Byte>,
                       table: Dict<Bits>, bytes: seq<Byte>)
    requires |block| >= 1 && block[0] == |block| - 1 && Utf8.Decode(block[1..]) == Ok(ext)
    requires table.Valid()
    requires DecodeTable(tb + payload, c + 1) == Ok((table, |tb|))
    requires DecodeBitCode(payload, table) == Ok(bytes)
    ensures DecodeContainer(block + ([c] + tb + payload)) == Ok((bytes, ext))
  {
    var data := block + ([c] + tb + payload);
    var head := block + [c];
    AppendAssoc([c], tb, payload);
    AppendAssoc(block, [c], tb + payload);
    assert data == head + (tb + payload);
    AppendAssoc(head, tb, payload);
    DropAppend(head, tb + payload);
    DropAppend(head + tb, payload);
    var start := |block|;
    assert |head| == start + 1 && |head + tb| == start + 1 + |tb|;
    assert data[start] as int + 1 == c + 1;
    ParseBlocks(data, start, c + 1, tb + payload, table, |tb|, payload);
    assert Slice(data, 1, |block|) == block[1..];
  }

  /** `DecodeBlocks` once the table after the count byte has been read:
      its error, or the payload decoded from where the table ends. */
  lemma BlocksAfterTable(data: seq<Byte>, start: nat, t: Result<(Dict<Bits>, nat)>)
    requires start < |data|
    requires t == DecodeTable(Drop(data, start + 1), data[start] as int + 1)
    ensures t.Err? ==> DecodeBlocks(data, start) == Err(t.error)
    ensures t.Ok? ==> DecodeBlocks(data, start) == DecodeBitCode(Drop(data, start + 1 + t.value.1), t.value.0)
  {
  }

  /** `DecodeBlocks` when the table after the count byte reads: the
      payload decoded from where the table ends. */
  lemma ParseBlocks(data: seq<Byte>, start: nat, count: int, rest: seq<Byte>,
                    table: Dict<Bits>, size: nat, payload: seq<Byte>)
    requires start < |data| && count == data[start] as int + 1
    requires rest == Drop(data, start + 1) && payload == Drop(data, start + 1 + size)
    requires DecodeTable(rest, count) == Ok((table, size))
    ensures DecodeBlocks(data, start) == DecodeBitCode(payload, table)
  {
    BlocksAfterTable(data, start, Ok((table, size)));
  }

  /** The finding on the extension block, at the level of the container:
      the source's block for `.é` of an empty file makes the decoder fail
      on the single byte 0xC3, while the corrected block decodes back to
      the extension. */
  lemma NonAsciiExtensionContainer()
    ensures EncodeFileExtensionAsWritten(['.' as CodePoint, 0xE9]) == Ok([1, 0xC3, 0xA9])
    ensures DecodeContainer([1, 0xC3, 0xA9]) == Err(UnicodeError)
    ensures EncodeFileExtension(['.' as CodePoint, 0xE9]) == Ok([2, 0xC3, 0xA9])
    ensures DecodeContainer([2, 0xC3, 0xA9]) == Ok(([], [0xE9]))
  {
    NonAsciiLengthByte();
    var asWritten: seq<Byte> := [1, 0xC3, 0xA9];
    assert Slice(asWritten, 1, 2) == [0xC3];
    var corrected: seq<Byte> := [2, 0xC3, 0xA9];
    var fe: seq<CodePoint> := ['.' as CodePoint, 0xE9];
    assert StripDot(fe) == [0xE9];
    EmptyRoundTrip(corrected, StripDot(fe));
  }
}
