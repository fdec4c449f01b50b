# Huffman file codec, modelled in Dafny

This project models the core of a static Huffman compressor written in
Python. The compressor does five things:

- it counts how often each byte occurs (`utils.py`);
- it builds a Huffman tree of `Node`s by merging nodes until one root is
  left (`node.py`, `huffman.py`);
- it derives a code table from the root-to-leaf paths, with the code `0`
  when there is a single byte;
- it packs the codes of the input into whole bytes behind a byte that says
  how many bits of the last byte count;
- it writes a container: an extension block, a code-table block and the
  payload.

Decoding reverses each step.

Bits are `seq<bool>`, most significant bit first, as `bitarray` stores
them. Bytes are the subset type `Byte` (0..255). A Python `dict` is
`OrderedDict.Dict`: a map plus the order in which keys were first
inserted, because the table is written in that order. Every Python
exception the core can raise on the inputs `encode` and `decode` pass it
becomes an `Err` of `Common.Result`:
`KeyError`, `IndexError`, `OverflowError`, `UnicodeEncodeError` or
`UnicodeDecodeError` (`UnicodeError` here), and the library's decode
failures (`DecodeError`).

Loops of the source are methods with loop invariants. Each method is
proved against a specification function, and the round trips are lemmas
about those functions:

- packing, then unpacking, gives the bits back;
- decoding the packed codes gives the input back;
- the serialised table reads back as the same dict, and the reader
  consumes exactly the table's bytes;
- decoding the container gives back the input bytes and the extension.

Modules, one per file:

- `Common`: bytes, `Result`, and Python's slice semantics.
- `BitArray`: `frombytes` and `bytes(bitarray)`.
- `OrderedDict`: insertion-ordered dicts.
- `Utils`: frequency counting.
- `HuffmanNode`: the node and its comparisons.
- `HuffmanTree`: the merge loop.
- `HuffmanCodes`: the code table.
- `BitCode`: the payload.
- `CodeTable`: the table block.
- `Utf8`: the strict UTF-8 codec that `str.encode` and `bytes.decode` use.
- `Extension`: the extension block.
- `Container`: the assembly and parse inside `encode` and `decode`.

The UTF-8 model follows table 3-7 of section 3.9 of the Unicode Standard.
A code point may be a lone surrogate, as in a Python `str`, and encoding
refuses one.

The extension block departs from the source; see Findings. The source
writes the number of characters of the extension, but the container
layout, like the decoder, counts UTF-8 bytes. The container model uses the
byte count. The source's version is modelled beside it, and the two are
proved equal on ASCII extensions.

## Model

| member | source | states |
|---|---|---|
| Utils.GetFrequencyDict | utils.py:43-46 | The result is a valid dict whose keys are the distinct input bytes in order of first occurrence. Each key maps to its number of occurrences, which is at least 1. The counts add up to the input length. The dict is empty exactly when the input is. |
| Utils.Increment | utils.py:45 | `d[b] += 1` on a `defaultdict(int)`: a key already present gets its count plus one and keeps its place; a new key is appended with count 1. No other key changes, and validity is kept. |
| Utils.IncrementCounts | utils.py:44-45 | One `d[b] += 1` step keeps the dict the frequency dict of the input read so far, one byte longer. This is the loop invariant. |
| Utils.FirstOccurrences | utils.py:44-45 | The key order has no repeats and holds exactly the bytes of the input. |
| Utils.FirstOccurrencesSnoc | utils.py:45 | A byte seen for the first time goes to the end of the key order. A byte already seen leaves the order unchanged. |
| Utils.CountsOfFacts | utils.py:43-46 | Only bytes that occur are keys, every count is at least 1, and an empty input gives an empty dict. |
| OrderedDict.Dict.Set | huffman.py:150 | `d[k] = v` maps `k` to `v`. A new key is appended to the key order; an existing key keeps its place. Validity is preserved. |
| OrderedDict.TotalIncrement | utils.py:45 | Adding one to a key's count adds one to the total. |
| OrderedDict.Entries | huffman.py:119 | `d.items()` lists one (key, value) pair per key, in key order. |
| OrderedDict.SetAllOwnEntries | huffman.py:119 | Inserting a dict's own items in order into an empty dict rebuilds exactly that dict: same keys, same order, same values. |
| OrderedDict.SetAllFresh | huffman.py:150 | Inserting entries with distinct new keys appends the keys in order, keeps the old values and maps each new key to its entry. |
| OrderedDict.DistinctBytesBound | huffman.py:118 | A dict keyed by bytes has at most 256 keys, so `len(d) - 1` fits in one byte. |
| HuffmanNode.Gt | node.py:12-14 | `a > b` compares the values only. |
| HuffmanNode.Lt | node.py:16-18 | `a < b` compares the values only. |
| HuffmanNode.Ge | node.py:20-22 | `a >= b` compares the values only. |
| HuffmanNode.Le | node.py:24-26 | `a <= b` compares the values only. |
| HuffmanNode.ComparisonDuality | node.py:12-26 | `<=` is the negation of `>`, `>=` the negation of `<`, and `a < b` iff `b > a`. Two nodes of equal value are neither `<` nor `>` each other. |
| HuffmanNode.ComparisonByValueOnly | node.py:12-26 | All four comparisons depend on `value` alone; key and children are ignored. |
| HuffmanTree.LeafNodes | huffman.py:24 | One leaf per dict item, in dict order, carrying that key's frequency. |
| HuffmanTree.RemoveAt | huffman.py:30-31 | Popping a node removes exactly that node. The others stay in their list order; that order is the model's own, not `heappop`'s, which moves the last element to the front and sifts it down (see the `GetHuffmanTree` line under Left out). |
| HuffmanTree.LeafForest | huffman.py:24-26 | The initial list meets the loop invariant. Its leaves are the dict's keys, each once, and the weights add up to the total frequency. |
| HuffmanTree.MergeKeepsForest | huffman.py:30-34 | Merging any two nodes keeps the invariant. The leaf keys are the same multiset, the total weight is unchanged, every internal node weighs the sum of its children, and every leaf carries its key's frequency. |
| HuffmanTree.MergeTotals | huffman.py:30-34 | A merge keeps the multiset of leaf keys and the total weight. |
| HuffmanTree.RootOfForest | huffman.py:35 | The last node's leaves are the dict's keys without repeats. It is a leaf exactly when the dict has one key. |
| HuffmanTree.GetHuffmanTree | huffman.py:21-36 | On a non-empty dict the loop ends with one root. Its leaves are exactly the keys, each once, carrying their frequencies. Internal nodes weigh the sum of their children. The root weighs the total frequency. It is a leaf exactly when there is one key. |
| HuffmanCodes.BuildHuffmanCodesDict | huffman.py:39-48 | The recursive walk writes into the dict the leaves' (key, path) pairs in depth-first order: 0 for left, 1 for right. |
| HuffmanCodes.PathCodes | huffman.py:44-48 | The (key, path) pairs the recursion writes, left subtree before right, with `0` appended going left and `1` going right. Its properties are the `PathCodes…` lemmas. |
| HuffmanCodes.PathCodesKeys | huffman.py:44-48 | The walk writes the leaf keys left to right. |
| HuffmanCodes.PathCodesLengths | huffman.py:44-48 | Every code extends the path to the subtree. Below an internal node it is at least one bit longer and at most (leaves - 1) bits longer. |
| HuffmanCodes.PathCodesPrefixFree | huffman.py:44-48 | No code the walk writes is a prefix of another entry's code. |
| HuffmanCodes.RootTable | huffman.py:53-55 | The table built from the root holds the leaf keys in leaf order, each mapped to its path. |
| HuffmanCodes.RootTableCodes | huffman.py:53-55 | That table is prefix-free. Its codes are at most (keys - 1) bits, and non-empty below an internal root. |
| HuffmanCodes.RootTableIndex | huffman.py:44-48 | Each key of the table is the key of one entry of the walk and maps to that entry's code. |
| HuffmanCodes.SingleLeafTable | huffman.py:44-48 | A single-leaf tree gives its key the empty path. |
| HuffmanCodes.CodesDictFacts | huffman.py:53-58 | From the tree's properties: the table's keys are the dict's keys. With one key, the table is that key with the code `0`. With two or more keys, every code is the key's path, non-empty, at most (keys - 1) bits and not a prefix of another. Either way the table is usable for decoding. |
| HuffmanCodes.GetHuffmanCodesDict | huffman.py:51-58 | As `CodesDictFacts`, for the tree `get_huffman_tree` builds. |
| BitCode.EncodedSnoc | huffman.py:63-64 | Each loop step appends the next byte's code. The length is the sum of the code lengths. |
| BitCode.GetHuffmanBitCode | huffman.py:61-65 | Succeeds iff every input byte has a code. The result is then the codes concatenated in input order, with the sum of their lengths as its length. Otherwise it fails with `KeyError`. |
| BitArray.SignificantBits | huffman.py:74-76 | The count byte is `n % 8`, or 8 for a multiple of 8. It lies in 1..8 and fills `n` to a byte boundary. |
| BitArray.PadToByte | huffman.py:77 | Padding keeps the bits as a prefix, adds only zero bits, and reaches `8 * ceil(n/8)` bits. |
| BitArray.FromBytes | huffman.py:87-90 | `frombytes` on `k` bytes gives `8k` bits. |
| BitArray.FromBytesAppend | huffman.py:87-90 | Unpacking byte by byte equals unpacking the whole string. |
| BitArray.ToBytes | huffman.py:81 | `bytes(bitarray)` of `8k` bits is `k` bytes. |
| BitArray.FromBytesToBytes | huffman.py:81 | Unpacking the packed bytes gives the byte-aligned bits back. |
| BitArray.ToBytesFromBytes | huffman.py:89 | Packing the unpacked bits gives the bytes back. |
| BitArray.NatToBitsToNat | huffman.py:80 | A byte value written as 8 bits, most significant first, reads back as the same value. |
| BitArray.BitsToNatToBits | huffman.py:81 | Eight bits read as a number and written back give the same bits. |
| BitCode.EncodeHuffmanBitCode | huffman.py:68-81 | `n` bits give `1 + ceil(n/8)` bytes. The first byte is in 1..8 and equals `n` modulo 8. The remaining bytes hold the `n` bits, most significant first, followed only by zero bits. |
| BitCode.PayloadBitsRoundTrip | huffman.py:85-93 | Dropping `8 - first` bits unless the first byte is 8 recovers exactly the packed bits. |
| BitCode.MatchCode | huffman.py:94 | A match is a key of the table whose non-empty code starts the bits. |
| BitCode.MatchCodeUnique | huffman.py:94 | In a prefix-free table, the code at the front of the bits is the one found. |
| BitCode.DecodeEncoded | huffman.py:94 | Prefix-decoding the concatenated codes of an input with a prefix-free table of non-empty codes gives the input. |
| BitCode.PayloadBits | huffman.py:85-93 | The bits of the bytes after the first, cut with Python's negative slice end to drop `8 - first` bits unless the first byte is 8. An empty payload raises `IndexError` at `list_of_bytes[0]`. |
| BitCode.DecodeCodes | huffman.py:94 | Splits the bits into codes from the left, one byte per code. Bits that do not split exactly raise `DecodeError`. |
| BitCode.DecodeCodesEncoded | huffman.py:94-95 | The only error of the split is `DecodeError`. A successful split yields bytes that all have codes, and their codes concatenated are exactly the bits. |
| BitCode.DecodeBitarray | huffman.py:94-95 | `bitarray.decode` refuses an empty table, an empty code or a table that is not prefix-free; those and bits left over all become `DecodeError`. Otherwise it is the split, and `join` keeps the bytes in order. |
| BitCode.DecodeBitCode | huffman.py:84-96 | The cut bits, then `DecodeBitarray`; the error of either step is passed on. |
| BitCode.DecodeBitCodeEncoded | huffman.py:84-96 | An empty payload raises `IndexError`. A payload that decodes holds exactly the codes of the decoded bytes, each of which has a code. |
| BitCode.DecodeHuffmanBitCode | huffman.py:84-96 | The loop collects exactly the bits of the bytes after the first, and the result is the cut-and-decode of `DecodeBitCode`. An empty payload raises `IndexError`. |
| BitCode.PayloadRoundTrip | huffman.py:84-96 | For a usable table that codes every input byte, decoding the packed code of the input gives the input. |
| CodeTable.EntryBytes | huffman.py:120-131 | An entry is `2 + ceil(len/8)` bytes. |
| CodeTable.TableBytes | huffman.py:119-131 | The entries take the sum of their sizes. |
| CodeTable.TableBytesSnoc | huffman.py:119-131 | Each loop step appends one entry's bytes. |
| CodeTable.EncodeEntries | huffman.py:119-131 | The loop appends every entry's key, length byte and padded code. A code longer than 255 bits raises `OverflowError`. |
| CodeTable.EncodeStep | huffman.py:120-131 | One step of the loop, with its padding and packing, appends exactly the entry's serialised bytes. |
| CodeTable.EntriesFit | huffman.py:121 | All length bytes fit iff every code has at most 255 bits. |
| CodeTable.EncodeHuffmanCodesDict | huffman.py:116-132 | Succeeds iff the dict is non-empty and every code has at most 255 bits; otherwise `OverflowError`. The result is the byte `len - 1`, then the entries in dict order. |
| CodeTable.CeilBytesPacked | huffman.py:143 | `len // 8 + (len % 8 != 0)` is `ceil(len/8)`. |
| CodeTable.EntrySize | huffman.py:142-151 | The reader advances by at least 2 bytes per entry. |
| CodeTable.CodeAt | huffman.py:142-149 | The entry's code: the bits of the `ceil(len/8)` bytes after the length byte, cut to `len`. Bytes past the end are missing, as a Python slice clips, so the code can come out shorter than `len`. |
| CodeTable.ReadFrom | huffman.py:139-151 | The while loop: stops after `count` entries or once the offset reaches the end of the data; a length byte past the end raises `IndexError`. A repeated byte keeps its first place and takes its last code. The offset advances by `2 + ceil(len/8)` even when the bytes ran out, so it may end past the data. |
| CodeTable.ReadEntry | huffman.py:141-149 | Reads an entry's code (the bits of its packed bytes cut to the length byte) and its size. |
| CodeTable.UnpackBytes | huffman.py:145-148 | The inner loop unpacks exactly the bits of the chunk. |
| CodeTable.ReadStep | huffman.py:139-151 | One iteration stores the entry and moves to the next one with one entry fewer to read. |
| CodeTable.ReadFromValid | huffman.py:139-151 | Reading entries into a valid dict leaves it valid. |
| CodeTable.DecodeTable | huffman.py:135-152 | The dict read is valid. |
| CodeTable.DecodeHuffmanCodesDict | huffman.py:135-152 | The while loop reads until bytes run out or `count` entries have been read, as `DecodeTable` describes. A length byte past the end raises `IndexError`. |
| CodeTable.EntryAtSerialised | huffman.py:141-149 | Reading the bytes `encode_huffman_codes_dict` wrote for an entry gives back its key, its code and its size. |
| CodeTable.ReadEntries | huffman.py:139-152 | Reading serialised entries inserts them in order and stops exactly at the end of their bytes. |
| CodeTable.TableRoundTrip | huffman.py:116-152 | A table whose codes fit reads back, whatever follows it, as the same dict, with the same key order. The offset returned is the sum of `2 + ceil(len/8)` over its entries. |
| Utf8.EncodeChar | huffman.py:105 | One code point takes 1 to 4 bytes, and 1 exactly below U+0080. |
| Utf8.Encode | huffman.py:105 | Encoding succeeds iff there is no lone surrogate, and otherwise raises `UnicodeEncodeError`. The result is at least as long as the string. |
| Utf8.Decode | huffman.py:113 | `bytes.decode()`: reads one well-formed sequence at a time; a byte that starts none raises `UnicodeDecodeError`. |
| Utf8.DecodeChar | huffman.py:113 | A well-formed sequence at the front gives a non-surrogate code point and its length. |
| Utf8.DecodeEncodeChar | huffman.py:113 | Decoding the encoding of a code point gives the code point and its length. |
| Utf8.EncodeDecodeChar | huffman.py:113 | A well-formed sequence is exactly the encoding of the code point it decodes to. |
| Utf8.DecodeEncode | huffman.py:113 | Strict decoding of an encoded string gives the string back. |
| Utf8.EncodeDecode | huffman.py:113 | Bytes that decode are the encoding of what they decode to, so no two byte strings decode alike. |
| Utf8.EncodeAscii | huffman.py:104-105 | Characters below U+0080 are their own single bytes. |
| Extension.StripDot | huffman.py:101-102 | A non-empty extension loses exactly its first character (the dot); an empty one stays empty. |
| Extension.EncodeFileExtension | huffman.py:99-106 | The dot is dropped. Errors: `UnicodeEncodeError` for a lone surrogate, `OverflowError` for more than 255 bytes. Otherwise the first byte counts the bytes that follow, and those bytes decode back to the extension (corrected version, see Findings). |
| Extension.EncodeFileExtensionAsWritten | huffman.py:99-106 | The source's block. It succeeds iff the extension has at most 255 characters and encodes. It then holds the character count, then the UTF-8 bytes. More than 255 characters raise `OverflowError`, checked before encoding; otherwise a lone surrogate raises `UnicodeEncodeError`. |
| Extension.AsciiExtensionAgrees | huffman.py:104-105 | On an ASCII extension the source's block and the corrected one are equal. |
| Extension.NonAsciiLengthByte | huffman.py:104-105 | For `.é` the source writes `[1, 0xC3, 0xA9]`, and its one-byte slice `[0xC3]` does not decode. The corrected block is `[2, 0xC3, 0xA9]`. |
| Extension.DecodeFileExtension | huffman.py:109-113 | The loop joins the bytes and the result is their strict UTF-8 decoding. |
| Container.CodeInput | huffman.py:159-162 | For a non-empty input, the table is usable, has a code for exactly the bytes that occur, and the bits are the input's codes in order. It has one key iff the input repeats one byte, and that byte then has the code `0`. With two or more keys, the table is the path table of a tree whose leaves are the input's distinct bytes carrying their counts, and every code has at most (keys - 1) bits. |
| Container.OneSymbol | huffman.py:56-57 | The distinct bytes of a non-empty input are one byte iff every byte of the input equals the first. |
| Container.AppendBlocks | huffman.py:165-167 | The assembled container is the extension block, then the count byte `len - 1`, the table's entries in key order and the packed payload. It parses back to the input and the extension. |
| Container.Encode | huffman.py:159-168 | The only error is the extension block's. An empty input gives the extension block alone. Every container produced decodes to the input and the extension without its dot. For a non-empty input, the table codes exactly the input's bytes; it is the single code `0` iff the input repeats one byte, and otherwise its codes have at most (keys - 1) bits. The container is the extension block, the count byte, that table's entries and the input's codes packed by `EncodeHuffmanBitCode`. With `TableBlockReads` this places the payload right after the table's entries. |
| Container.EmptyRoundTrip | huffman.py:184-189 | A container that is only an extension block decodes to no bytes and that extension. |
| Container.TableBlockReads | huffman.py:190-192 | The table block of a usable table reads back as the table, ending where the payload starts. |
| Container.PayloadBlockReads | huffman.py:194 | The payload block decodes to the input. |
| Container.DecodeContainer | huffman.py:184-194 | `decode`'s parse: an empty container raises `IndexError`; the extension is the UTF-8 decoding of the clipped slice after the length byte; then the blocks. |
| Container.DecodeBlocks | huffman.py:189-194 | No bytes after the extension block give no output. Otherwise the count byte plus one is the number of entries to read, and the payload starts where the table's reader stopped. |
| Container.BlocksAfterTable | huffman.py:190-194 | A table error is the blocks' error; otherwise the blocks decode the payload that starts at the reader's offset with the table read. |
| Container.ParseBlocks | huffman.py:190-194 | When the table after the count byte reads, the blocks decode the bytes after its entries with that table. |
| Container.ParseContainer | huffman.py:184-194 | An extension block, a count byte, a table that reads back, and a payload that decodes parse back to the input and the extension. |
| Container.DecodeAfterExtension | huffman.py:189-194 | With no bytes after the extension block the output is empty. Otherwise the count byte, the table and the payload are read at the offsets `DecodeBlocks` gives. |
| Container.Decode | huffman.py:184-194 | An empty container raises `IndexError`, an extension that is not UTF-8 raises `UnicodeDecodeError`, and otherwise the result is what `DecodeContainer` parses. |
| Container.NonAsciiExtensionContainer | huffman.py:184-186 | The container the source writes for an empty file named `x.é` fails to decode with `UnicodeDecodeError`. The corrected one decodes to no bytes and the extension `é`. |

## Left out

- File reading and writing, printing, timing, `main.py`, the mode switch and the output path (`.zmh`, `_new`) are not part of this model.
- `os.path.splitext`: the extension is taken as a given input, including its dot.
- HuffmanNode.Node: a default `Node()` has no key and no children, which a `Leaf`/`Internal` datatype cannot represent; the tree builder never creates one.
- HuffmanTree.GetHuffmanTree: does not model heap order, tie-breaking or optimal code length. Line 34 appends instead of pushing onto the heap, so the popped nodes need not be the lightest; the model lets each pop take any remaining node, and every property holds whichever nodes are merged.
- HuffmanCodes.BuildHuffmanCodesDict: the shared dict is passed in and returned rather than mutated in place; no caller sees the difference.
- BitCode.EncodeHuffmanBitCode: the source pads its argument in place (line 77); the model returns a new value, and no caller reuses the argument.
- BitCode.DecodeBitCode: `bitarray.decode` is modelled as left-to-right prefix matching. The library's own exceptions (empty table, empty code, a code table that is not prefix-free, bits left over) all become one `DecodeError`.
- HuffmanTree.GetHuffmanTree, HuffmanCodes.GetHuffmanCodesDict: an empty frequency dict makes `heappop` raise `IndexError` (huffman.py:35). The model requires at least one key instead, because `encode` calls these only for a non-empty input (huffman.py:159).
- Container.Decode: a Python `bytes` element of the input list is modelled as its integer value, so `ord(...)` disappears.
- Utf8.Decode: surrogate-escaping decoders are not modelled, only the strict default of `bytes.decode()`.

## Findings

| source | as written | input that shows it | evidently intended | confidence | as-written member | corrected member |
|---|---|---|---|---|---|---|
| huffman.py:104 | The length byte is `len(file_extension)`, a count of characters, while line 105 writes UTF-8 bytes and line 185 reads as many bytes as the length byte says | a file named `x.é` (empty or not): the block is `[1, 0xC3, 0xA9]`, the decoder reads `[0xC3]` and raises `UnicodeDecodeError` | the length byte counts the UTF-8 bytes of the extension, so the block reads back | not executed | Extension.EncodeFileExtensionAsWritten | Extension.EncodeFileExtension |
