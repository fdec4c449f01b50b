/** The extension block of the container (`encode_file_extension` and
    `decode_file_extension` of huffman.py): one byte giving the length of
    the extension, then the extension in UTF-8, without its leading dot.

    huffman.py:104 writes the number of CHARACTERS of the extension, but
    huffman.py:105 writes its UTF-8 BYTES and the decoder (huffman.py:185)
    reads as many bytes as the length byte says. The two counts differ for
    every extension with a character above U+007F. `EncodeFileExtension`
    writes the byte count, which is what the decoder reads;
    `EncodeFileExtensionAsWritten` keeps the character count, and the two
    agree on ASCII extensions. */
module Extension {
  import opened Common
  import Utf8

  type CodePoint = Utf8.CodePoint

  /** Lines 101-102: the extension `os.path.splitext` returns, without the
      dot it starts with when it is not empty. */
  function StripDot(fileExtension: seq<CodePoint>): (r: seq<CodePoint>)
    ensures |fileExtension| == 0 ==> r == []
    ensures |fileExtension| > 0 ==> [fileExtension[0]] + r == fileExtension
  {
    if |fileExtension| != 0 then fileExtension[1..] else fileExtension
  }

  /** `encode_file_extension` with the length byte counting the bytes of
      the encoded extension. An extension with a lone surrogate raises
      `UnicodeEncodeError`; one whose encoding is longer than 255 bytes
      raises `OverflowError` in `int.to_bytes`. Otherwise the first byte
      says how many bytes follow, and those bytes decode to the extension. */
  function EncodeFileExtension(fileExtension: seq<CodePoint>): (r: Result<seq<Byte>>)
    ensures r.Ok? <==> Utf8.Encode(StripDot(fileExtension)).Ok? && |Utf8.Encode(StripDot(fileExtension)).value| <= 255
    ensures r.Err? ==> r.error == if Utf8.Encode(StripDot(fileExtension)).Err? then UnicodeError else OverflowError
    ensures r.Ok? ==> 1 <= |r.value| <= 256 && r.value[0] == |r.value| - 1
    ensures r.Ok? ==> Utf8.Decode(r.value[1..]) == Ok(StripDot(fileExtension))
  {
    var ext := StripDot(fileExtension);
    match Utf8.Encode(ext)
    case Err(e) => Err(e)
    case Ok(b) =>
      if |b| > 255 then Err(OverflowError)
      else
        var r := [|b|] + b;
        assert r[1..] == b;
        Utf8.DecodeEncode(ext);
        Ok(r)
  }

  /** `encode_file_extension` as huffman.py:103-105 write it: the length
      byte is the number of characters, checked by `int.to_bytes` before
      the extension is encoded, so an extension of more than 255 characters
      raises `OverflowError` even when it also holds a lone surrogate. */
  function EncodeFileExtensionAsWritten(fileExtension: seq<CodePoint>): (r: Result<seq<Byte>>)
    ensures r.Ok? <==> |StripDot(fileExtension)| <= 255 && Utf8.Encode(StripDot(fileExtension)).Ok?
    ensures r.Err? ==> r.error == if |StripDot(fileExtension)| > 255 then OverflowError else UnicodeError
    ensures r.Ok? ==> |r.value| >= 1 && r.value[0] == |StripDot(fileExtension)|
    ensures r.Ok? ==> r.value[1..] == Utf8.Encode(StripDot(fileExtension)).value
  {
    var ext := StripDot(fileExtension);
    if |ext| > 255 then Err(OverflowError)
    else
      match Utf8.Encode(ext)
      case Err(e) => Err(e)
      case Ok(b) =>
        var r := [|ext|] + b;
        assert r[1..] == b;
        Ok(r)
  }

  /** On an extension of characters below U+0080 the character count is the
      byte count, so the source's block and the corrected one coincide. */
  lemma AsciiExtensionAgrees(fileExtension: seq<CodePoint>)
    requires forall i :: 0 <= i < |StripDot(fileExtension)| ==> StripDot(fileExtension)[i] < 0x80
    ensures EncodeFileExtensionAsWritten(fileExtension) == EncodeFileExtension(fileExtension)
  {
    Utf8.EncodeAscii(StripDot(fileExtension));
  }

  /** For the extension `.é` the source writes the length 1 before the two
      UTF-8 bytes of `é`, so the decoder reads the single byte 0xC3, which
      is not UTF-8 on its own; the corrected block writes the length 2. */
  lemma NonAsciiLengthByte()
    ensures EncodeFileExtensionAsWritten(['.' as CodePoint, 0xE9]) == Ok([1, 0xC3, 0xA9])
    ensures Utf8.Decode([0xC3]) == Err(UnicodeError)
    ensures EncodeFileExtension(['.' as CodePoint, 0xE9]) == Ok([2, 0xC3, 0xA9])
  {
    var fe: seq<CodePoint> := ['.' as CodePoint, 0xE9];
    var e: seq<CodePoint> := [0xE9];
    assert StripDot(fe) == e;
    assert e[1..] == [];
    assert Utf8.Encode(e[1..]) == Ok([]);
    var u: seq<Byte> := [0xC3, 0xA9];
    assert Utf8.EncodeChar(e[0]) == u;
    assert u + [] == u;
    assert Utf8.Encode(e) == Ok(u);
    var b: seq<Byte> := [0xC3];
    assert Utf8.DecodeChar(b) == None;
    var w1: seq<Byte> := [1, 0xC3, 0xA9];
    var w2: seq<Byte> := [2, 0xC3, 0xA9];
    assert [1] + u == w1 && [2] + u == w2;
    assert EncodeFileExtensionAsWritten(fe) == Ok(w1);
    assert EncodeFileExtension(fe) == Ok(w2);
  }

  /** `decode_file_extension`: the bytes joined one after the other, then
      decoded as strict UTF-8. */
  method DecodeFileExtension(listOfBytes: seq<Byte>) returns (r: Result<seq<CodePoint>>)
    ensures r == Utf8.Decode(listOfBytes)
  {
    var allBytes: seq<Byte> := [];
    for i := 0 to |listOfBytes|
      invariant allBytes == listOfBytes[..i]
    {
      TakeSnoc(listOfBytes, i);
      allBytes := allBytes + [listOfBytes[i]];
    }
    assert listOfBytes[..|listOfBytes|] == listOfBytes;
    r := Utf8.Decode(allBytes);
  }
}
