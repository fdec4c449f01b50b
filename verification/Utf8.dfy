/** UTF-8 as Python's `str.encode('utf-8')` and strict `bytes.decode()` use
    it: a Python string is a sequence of code points, any of which may be a
    lone surrogate (file names decoded with `surrogateescape` hold them);
    encoding refuses surrogates, and decoding accepts exactly the
    well-formed byte sequences of table 3-7 of the Unicode Standard,
    section 3.9. */
module Utf8 {
  import opened Common

  /** A Unicode code point, the element of a Python `str`. */
  type CodePoint = c: int | 0 <= c < 0x11_0000

  predicate IsSurrogate(c: CodePoint) { 0xD800 <= c < 0xE000 }

  /** A continuation byte, `10xxxxxx`. */
  predicate IsCont(b: Byte) { 0x80 <= b < 0xC0 }

  /** The UTF-8 bytes of one code point: 1 to 4 bytes, the first one
      announcing the length, the others continuation bytes holding 6 bits
      each. */
  function EncodeChar(c: CodePoint): (r: seq<Byte>)
    requires !IsSurrogate(c)
    ensures 1 <= |r| <= 4
    ensures |r| == 1 <==> c < 0x80
  {
    if c < 0x80 then [c]
    else if c < 0x800 then [0xC0 + c / 64, 0x80 + c % 64]
    else if c < 0x1_0000 then [0xE0 + c / 4096, 0x80 + (c / 64) % 64, 0x80 + c % 64]
    else [0xF0 + c / 262144, 0x80 + (c / 4096) % 64, 0x80 + (c / 64) % 64, 0x80 + c % 64]
  }

  /** `s.encode('utf-8')`: a lone surrogate raises `UnicodeEncodeError`. */
  function Encode(s: seq<CodePoint>): (r: Result<seq<Byte>>)
    ensures r.Ok? <==> forall i :: 0 <= i < |s| ==> !IsSurrogate(s[i])
    ensures r.Err? ==> r.error == UnicodeError
    ensures r.Ok? ==> |r.value| >= |s|
  {
    if s == [] then Ok([])
    else if IsSurrogate(s[0]) then Err(UnicodeError)
    else
      match Encode(s[1..])
      case Err(e) => Err(e)
      case Ok(rest) =>
        assert forall i :: 1 <= i < |s| ==> s[i] == s[1..][i - 1];
        Ok(EncodeChar(s[0]) + rest)
  }

  /** The code point at the front of `b` and the number of bytes it takes,
      if `b` starts with a well-formed sequence: no overlong form, no
      surrogate, nothing above U+10FFFF, no missing continuation byte. */
  function DecodeChar(b: seq<Byte>): (r: Option<(CodePoint, nat)>)
    requires |b| > 0
    ensures r.Some? ==> 1 <= r.value.1 <= |b| && !IsSurrogate(r.value.0)
  {
    var b0: int := b[0];
    if b0 < 0x80 then Some((b0, 1))
    else if 0xC2 <= b0 < 0xE0 then
      if |b| >= 2 && IsCont(b[1]) then Some((Join2(b0 - 0xC0, b[1]), 2)) else None
    else if 0xE0 <= b0 < 0xF0 then
      var lo := if b0 == 0xE0 then 0xA0 else 0x80;
      var hi := if b0 == 0xED then 0xA0 else 0xC0;
      if |b| >= 3 && lo <= b[1] < hi && IsCont(b[2])
      then Some((Join3(b0 - 0xE0, b[1], b[2]), 3))
      else None
    else if 0xF0 <= b0 < 0xF5 then
      var lo := if b0 == 0xF0 then 0x90 else 0x80;
      var hi := if b0 == 0xF4 then 0x90 else 0xC0;
      if |b| >= 4 && lo <= b[1] < hi && IsCont(b[2]) && IsCont(b[3])
      then Some((Join4(b0 - 0xF0, b[1], b[2], b[3]), 4))
      else None
    else None
  }

  /** The payload bits of a lead byte followed by continuation bytes. */
  function Join2(x0: int, b1: Byte): int { x0 * 64 + (b1 - 0x80) }
  function Join3(x0: int, b1: Byte, b2: Byte): int { Join2(x0, b1) * 64 + (b2 - 0x80) }
  function Join4(x0: int, b1: Byte, b2: Byte, b3: Byte): int { Join3(x0, b1, b2) * 64 + (b3 - 0x80) }

  /** `b.decode()` with the strict UTF-8 codec: any byte that does not
      belong to a well-formed sequence raises `UnicodeDecodeError`. */
  function Decode(b: seq<Byte>): Result<seq<CodePoint>>
    decreases |b|
  {
    if b == [] then Ok([])
    else
      match DecodeChar(b)
      case None => Err(UnicodeError)
      case Some((c, n)) =>
        match Decode(b[n..])
        case Err(e) => Err(e)
        case Ok(rest) => Ok([c] + rest)
  }

  /** The encoding of a code point decodes to that code point. */
  lemma DecodeEncodeChar(c: CodePoint, rest: seq<Byte>)
    requires !IsSurrogate(c)
    ensures DecodeChar(EncodeChar(c) + rest) == Some((c, |EncodeChar(c)|))
  {
    if c < 0x80 {
    } else if c < 0x800 {
      DecodeEncode2(c, rest);
    } else if c < 0x1_0000 {
      DecodeEncode3(c, rest);
    } else {
      DecodeEncode4(c, rest);
    }
  }

  lemma DecodeEncode2(c: CodePoint, rest: seq<Byte>)
    requires 0x80 <= c < 0x800
    ensures DecodeChar(EncodeChar(c) + rest) == Some((c, 2))
  {
    var b := EncodeChar(c) + rest;
    assert b[0] == 0xC0 + c / 64 && b[1] == 0x80 + c % 64;
    assert Join2(c / 64, b[1]) == c;
  }

  lemma DecodeEncode3(c: CodePoint, rest: seq<Byte>)
    requires 0x800 <= c < 0x1_0000 && !IsSurrogate(c)
    ensures DecodeChar(EncodeChar(c) + rest) == Some((c, 3))
  {
    var b := EncodeChar(c) + rest;
    assert b[0] == 0xE0 + c / 4096 && b[1] == 0x80 + (c / 64) % 64 && b[2] == 0x80 + c % 64;
    assert Join2(c / 4096, b[1]) == c / 64;
    assert Join3(c / 4096, b[1], b[2]) == c;
  }

  lemma DecodeEncode4(c: CodePoint, rest: seq<Byte>)
    requires 0x1_0000 <= c
    ensures DecodeChar(EncodeChar(c) + rest) == Some((c, 4))
  {
    var b := EncodeChar(c) + rest;
    assert b[0] == 0xF0 + c / 262144 && b[1] == 0x80 + (c / 4096) % 64;
    assert b[2] == 0x80 + (c / 64) % 64 && b[3] == 0x80 + c % 64;
    assert Join2(c / 262144, b[1]) == c / 4096;
    assert Join3(c / 262144, b[1], b[2]) == c / 64;
    assert Join4(c / 262144, b[1], b[2], b[3]) == c;
  }

  /** A well-formed sequence at the front of `b` is the encoding of the code
      point it decodes to. */
  lemma EncodeDecodeChar(b: seq<Byte>, c: CodePoint, n: nat)
    requires |b| > 0 && DecodeChar(b) == Some((c, n))
    ensures n <= |b| && !IsSurrogate(c) && b[..n] == EncodeChar(c)
  {
    if n == 1 {
      assert b[..1] == [b[0]];
    } else if n == 2 {
      EncodeDecode2(b[0], b[1]);
      assert b[..2] == [b[0], b[1]];
    } else if n == 3 {
      EncodeDecode3(b[0], b[1], b[2]);
      assert b[..3] == [b[0], b[1], b[2]];
    } else {
      EncodeDecode4(b[0], b[1], b[2], b[3]);
      assert b[..4] == [b[0], b[1], b[2], b[3]];
    }
  }

  lemma EncodeDecode2(b0: Byte, b1: Byte)
    requires 0xC2 <= b0 < 0xE0 && IsCont(b1)
    ensures 0x80 <= Join2(b0 - 0xC0, b1) < 0x800
    ensures EncodeChar(Join2(b0 - 0xC0, b1)) == [b0, b1]
  {
    SplitJoin2(b0 - 0xC0, b1);
  }

  lemma EncodeDecode3(b0: Byte, b1: Byte, b2: Byte)
    requires 0xE0 <= b0 < 0xF0 && IsCont(b1) && IsCont(b2)
    requires b0 == 0xE0 ==> 0xA0 <= b1
    requires b0 == 0xED ==> b1 < 0xA0
    ensures 0x800 <= Join3(b0 - 0xE0, b1, b2) < 0x1_0000 && !IsSurrogate(Join3(b0 - 0xE0, b1, b2))
    ensures EncodeChar(Join3(b0 - 0xE0, b1, b2)) == [b0, b1, b2]
  {
    SplitJoin3(b0 - 0xE0, b1, b2);
  }

  lemma EncodeDecode4(b0: Byte, b1: Byte, b2: Byte, b3: Byte)
    requires 0xF0 <= b0 < 0xF5 && IsCont(b1) && IsCont(b2) && IsCont(b3)
    requires b0 == 0xF0 ==> 0x90 <= b1
    requires b0 == 0xF4 ==> b1 < 0x90
    ensures 0x1_0000 <= Join4(b0 - 0xF0, b1, b2, b3) < 0x11_0000
    ensures EncodeChar(Join4(b0 - 0xF0, b1, b2, b3)) == [b0, b1, b2, b3]
  {
    SplitJoin4(b0 - 0xF0, b1, b2, b3);
  }

  lemma SplitJoin2(x0: nat, b1: Byte)
    requires IsCont(b1)
    ensures Join2(x0, b1) / 64 == x0 && Join2(x0, b1) % 64 == b1 - 0x80
  {}

  lemma SplitJoin3(x0: nat, b1: Byte, b2: Byte)
    requires IsCont(b1) && IsCont(b2)
    ensures Join3(x0, b1, b2) / 4096 == x0
    ensures (Join3(x0, b1, b2) / 64) % 64 == b1 - 0x80 && Join3(x0, b1, b2) % 64 == b2 - 0x80
  {
    SplitJoin2(Join2(x0, b1), b2);
    SplitJoin2(x0, b1);
  }

  lemma SplitJoin4(x0: nat, b1: Byte, b2: Byte, b3: Byte)
    requires IsCont(b1) && IsCont(b2) && IsCont(b3)
    ensures Join4(x0, b1, b2, b3) / 262144 == x0
    ensures (Join4(x0, b1, b2, b3) / 4096) % 64 == b1 - 0x80
    ensures (Join4(x0, b1, b2, b3) / 64) % 64 == b2 - 0x80 && Join4(x0, b1, b2, b3) % 64 == b3 - 0x80
  {
    var j4 := Join4(x0, b1, b2, b3);
    SplitJoin2(Join3(x0, b1, b2), b3);
    SplitJoin3(x0, b1, b2);
    DivSplit(j4);
  }

  /** Dividing by 4096 or 262144 is dividing by 64 first. */
  lemma DivSplit(n: nat)
    ensures n / 4096 == n / 64 / 64 && n / 262144 == n / 64 / 4096
  {
  }

  /** Decoding undoes encoding: a string without lone surrogates comes back
      from its UTF-8 bytes unchanged. */
  lemma {:induction false} DecodeEncode(s: seq<CodePoint>)
    requires Encode(s).Ok?
    ensures Decode(Encode(s).value) == Ok(s)
  {
    if s != [] {
      var rest := Encode(s[1..]).value;
      var e := EncodeChar(s[0]);
      assert Encode(s).value == e + rest;
      DecodeEncodeChar(s[0], rest);
      assert (e + rest)[|e|..] == rest;
      DecodeEncode(s[1..]);
      assert s == [s[0]] + s[1..];
    }
  }

  /** Encoding undoes decoding: bytes that decode are the UTF-8 encoding of
      what they decode to, so no two byte strings decode to the same
      string. */
  lemma {:induction false} EncodeDecode(b: seq<Byte>)
    requires Decode(b).Ok?
    ensures Encode(Decode(b).value) == Ok(b)
    decreases |b|
  {
    if b != [] {
      var c, n, tail := DecodeCons(b);
      EncodeDecode(b[n..]);
      EncodeDecodeStep(b, c, n, tail);
    }
  }

  lemma EncodeDecodeStep(b: seq<Byte>, c: CodePoint, n: nat, tail: seq<CodePoint>)
    requires |b| > 0 && DecodeChar(b) == Some((c, n))
    requires Encode(tail) == Ok(b[n..])
    ensures Encode([c] + tail) == Ok(b)
  {
    EncodeDecodeChar(b, c, n);
    EncodeCons(c, tail, b[n..]);
    assert b == b[..n] + b[n..];
  }

  /** A non-empty byte string that decodes starts with one well-formed
      sequence, and the rest decodes too. */
  lemma DecodeCons(b: seq<Byte>) returns (c: CodePoint, n: nat, tail: seq<CodePoint>)
    requires b != [] && Decode(b).Ok?
    ensures DecodeChar(b) == Some((c, n)) && 1 <= n <= |b| && !IsSurrogate(c)
    ensures Decode(b[n..]) == Ok(tail) && Decode(b).value == [c] + tail
  {
    c, n := DecodeChar(b).value.0, DecodeChar(b).value.1;
    tail := Decode(b[n..]).value;
  }

  lemma EncodeCons(c: CodePoint, s: seq<CodePoint>, rest: seq<Byte>)
    requires !IsSurrogate(c) && Encode(s) == Ok(rest)
    ensures Encode([c] + s) == Ok(EncodeChar(c) + rest)
  {
    assert ([c] + s)[1..] == s;
  }

  /** Code points below 0x80 are their own single byte. */
  lemma {:induction false} EncodeAscii(s: seq<CodePoint>)
    requires forall i :: 0 <= i < |s| ==> s[i] < 0x80
    ensures Encode(s) == Ok(s)
  {
    if s != [] {
      EncodeAscii(s[1..]);
      assert s == [s[0]] + s[1..];
    }
  }
}
