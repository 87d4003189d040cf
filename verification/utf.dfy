/** Java's "modified UTF-8", the string encoding of `DataOutput.writeUTF`:
    U+0001..U+007F take one byte, U+0000 and U+0080..U+07FF take two bytes,
    everything above U+07FF takes three bytes (surrogates are encoded one code
    unit at a time). */
module Utf {
  import opened JStrings
  import opened Wrappers

  /** A byte value as written to a stream. */
  type Byte = b: int | 0 <= b < 256

  /** Encoded width of one code unit. */
  function CharUtfLength(c: JChar): nat
  {
    if 0x0001 <= c <= 0x007F then 1
    else if c > 0x07FF then 3
    else 2
  }

  /** `UtfEncoder.getUTFLength`: the number of bytes `writeUTF` emits after its
      two-byte length prefix. */
  function UtfLength(s: JString): (n: nat)
    ensures |s| <= n <= 3 * |s|
  {
    if |s| == 0 then 0 else CharUtfLength(s[0]) + UtfLength(s[1..])
  }

  /** The counting loop of `getUTFLength`, left to right. */
  method GetUtfLength(str: JString) returns (utflen: nat)
    ensures utflen == UtfLength(str)
    ensures |str| <= utflen <= 3 * |str|
  {
    utflen := 0;
    var i := 0;
    while i < |str|
      invariant 0 <= i <= |str|
      invariant utflen == UtfLength(str[..i])
    {
      var c := str[i];
      assert str[..i + 1] == str[..i] + [c];
      UtfLengthAppend(str[..i], [c]);
      if 0x0001 <= c && c <= 0x007F {
        utflen := utflen + 1;
      } else if c > 0x07FF {
        utflen := utflen + 3;
      } else {
        utflen := utflen + 2;
      }
      i := i + 1;
    }
    assert str[..i] == str;
  }

  /** The encoded length is additive over concatenation. */
  lemma {:induction false} UtfLengthAppend(a: JString, b: JString)
    ensures UtfLength(a + b) == UtfLength(a) + UtfLength(b)
  {
    if |a| > 0 {
      var ab := a + b;
      assert ab[1..] == a[1..] + b;
      UtfLengthAppend(a[1..], b);
    } else {
      assert a + b == b;
    }
  }

  /** A string of code units U+0001..U+007F encodes to exactly one byte per unit. */
  lemma {:induction false} AsciiUtfLength(s: JString)
    requires forall i :: 0 <= i < |s| ==> 0x0001 <= s[i] <= 0x007F
    ensures UtfLength(s) == |s|
  {
    if |s| > 0 {
      AsciiUtfLength(s[1..]);
    }
  }

  /** The width of a single code unit by class; NUL is not a one-byte character. */
  lemma CharWidths(c: JChar)
    ensures UtfLength([c]) == 1 <==> 0x0001 <= c <= 0x007F
    ensures UtfLength([c]) == 2 <==> c == 0 || 0x0080 <= c <= 0x07FF
    ensures UtfLength([c]) == 3 <==> c > 0x07FF
    ensures UtfLength([0]) == 2
  {
    assert [c][1..] == [];
    assert [0 as JChar][1..] == [];
  }

  /** The bytes `writeUTF` emits for one code unit. */
  function EncodeChar(c: JChar): (r: seq<Byte>)
    ensures |r| == CharUtfLength(c)
  {
    if 0x0001 <= c <= 0x007F then [c]
    else if c > 0x07FF then [0xE0 + c / 4096, 0x80 + (c / 64) % 64, 0x80 + c % 64]
    else [0xC0 + c / 64, 0x80 + c % 64]
  }

  /** The encoded body of `writeUTF` (without the length prefix). */
  function EncodeUtf(s: JString): seq<Byte>
  {
    if |s| == 0 then [] else EncodeChar(s[0]) + EncodeUtf(s[1..])
  }

  /** The capacity accounting uses exactly the length the encoder produces. */
  lemma {:induction false} EncodeUtfLength(s: JString)
    ensures |EncodeUtf(s)| == UtfLength(s)
  {
    if |s| > 0 {
      EncodeUtfLength(s[1..]);
    }
  }

  /** The decoding loop of `DataInput.readUTF` over the `utflen` body bytes;
      `None` is a `UTFDataFormatException` (malformed or partial character). */
  function DecodeUtf(b: seq<Byte>): Option<JString>
    decreases |b|
  {
    if |b| == 0 then Some([])
    else
      var c := b[0];
      if c / 16 <= 7 then
        match DecodeUtf(b[1..])
        case None => None
        case Some(rest) => Some([c] + rest)
      else if c / 16 == 12 || c / 16 == 13 then
        if |b| < 2 || b[1] / 64 != 2 then None
        else
          match DecodeUtf(b[2..])
          case None => None
          case Some(rest) => Some([(c % 32) * 64 + b[1] % 64] + rest)
      else if c / 16 == 14 then
        if |b| < 3 || b[1] / 64 != 2 || b[2] / 64 != 2 then None
        else
          match DecodeUtf(b[3..])
          case None => None
          case Some(rest) => Some([(c % 16) * 4096 + (b[1] % 64) * 64 + b[2] % 64] + rest)
      else None
  }

  lemma DecodeTwoBytes(c: JChar)
    requires c == 0 || 0x80 <= c <= 0x7FF
    ensures (0xC0 + c / 64) / 16 == 12 || (0xC0 + c / 64) / 16 == 13
    ensures (0x80 + c % 64) / 64 == 2
    ensures ((0xC0 + c / 64) % 32) * 64 + (0x80 + c % 64) % 64 == c
  {
    var q := c / 64;
    var r := c % 64;
    assert c == q * 64 + r;
    assert q < 32;
    assert (0xC0 + q) % 32 == q;
    assert (0x80 + r) % 64 == r;
  }

  lemma DecodeThreeBytes(c: JChar)
    requires c > 0x7FF
    ensures (0xE0 + c / 4096) / 16 == 14
    ensures (0x80 + (c / 64) % 64) / 64 == 2
    ensures (0x80 + c % 64) / 64 == 2
    ensures ((0xE0 + c / 4096) % 16) * 4096 + ((0x80 + (c / 64) % 64) % 64) * 64 + (0x80 + c % 64) % 64 == c
  {
    var q := c / 64;
    var r := c % 64;
    assert c == q * 64 + r;
    var q2 := q / 64;
    var r2 := q % 64;
    assert q == q2 * 64 + r2;
    assert c / 4096 == q2;
    assert q2 < 16;
    assert (0xE0 + q2) % 16 == q2;
    assert (0x80 + r2) % 64 == r2;
    assert (0x80 + r) % 64 == r;
  }

  /** Decoding one encoded code unit followed by more input. */
  lemma DecodeEncodeChar(c: JChar, rest: seq<Byte>)
    ensures DecodeUtf(EncodeChar(c) + rest) ==
      match DecodeUtf(rest)
      case None => None
      case Some(r) => Some([c] + r)
  {
    var e := EncodeChar(c);
    if 0x0001 <= c <= 0x007F {
      assert (e + rest)[1..] == rest;
    } else if c > 0x7FF {
      DecodeThreeBytes(c);
      assert (e + rest)[3..] == rest;
    } else {
      DecodeTwoBytes(c);
      assert (e + rest)[2..] == rest;
    }
  }

  /** `readUTF` inverts `writeUTF`'s body encoding. */
  lemma {:induction false} DecodeEncodeUtf(s: JString)
    ensures DecodeUtf(EncodeUtf(s)) == Some(s)
  {
    if |s| > 0 {
      DecodeEncodeUtf(s[1..]);
      DecodeEncodeChar(s[0], EncodeUtf(s[1..]));
      assert [s[0]] + s[1..] == s;
    }
  }
}
