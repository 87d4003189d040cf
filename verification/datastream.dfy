/** The big-endian primitives of `java.io.DataOutputStream` and `DataInputStream`
    (also used by `RandomAccessFile`), over byte sequences. A reader returns the
    value and the bytes after it; running out of bytes is an `EOFException`. */
module DataStream {
  import opened JStrings
  import opened Utf
  import opened Wrappers

  /** The I/O failures the core can raise or observe. */
  datatype IoError =
    | EndOfFile            // EOFException
    | MalformedUtf         // UTFDataFormatException while reading
    | UtfTooLong           // UTFDataFormatException: encoded string longer than 65535 bytes
    | NegativeSeek         // IOException from seek(negative)
    | ShortPageRead        // fewer than pageSize bytes read for a page
    | WrongPageType(tag: int)
    | BadMagic
    | NegativeArraySize    // `new byte[n]` with n < 0

  /** A decoded value together with the unread remainder. */
  type Parsed<T> = Result<(T, seq<Byte>), IoError>

  const TWO_16: int := 0x1_0000
  const TWO_32: int := 0x1_0000_0000
  const TWO_64: int := 0x1_0000_0000_0000_0000

  predicate IsInt16(v: int) { -0x8000 <= v < 0x8000 }
  predicate IsInt32(v: int) { -0x8000_0000 <= v < 0x8000_0000 }
  predicate IsInt64(v: int) { -0x8000_0000_0000_0000 <= v < 0x8000_0000_0000_0000 }

  function Pow256(n: nat): (p: nat)
    ensures p >= 1
  {
    if n == 0 then 1 else 256 * Pow256(n - 1)
  }

  /** The `n` low-order bytes of `u`, most significant first. */
  function BigEndian(n: nat, u: int): (r: seq<Byte>)
    ensures |r| == n
  {
    if n == 0 then [] else BigEndian(n - 1, u / 256) + [u % 256]
  }

  /** The unsigned big-endian value of a byte sequence. */
  function Unsigned(bs: seq<Byte>): nat
  {
    if |bs| == 0 then 0 else Unsigned(bs[..|bs| - 1]) * 256 + bs[|bs| - 1]
  }

  lemma {:induction false} UnsignedBound(bs: seq<Byte>)
    ensures Unsigned(bs) < Pow256(|bs|)
  {
    if |bs| > 0 {
      UnsignedBound(bs[..|bs| - 1]);
    }
  }

  lemma {:induction false} UnsignedBigEndian(n: nat, u: int)
    requires 0 <= u < Pow256(n)
    ensures Unsigned(BigEndian(n, u)) == u
  {
    if n > 0 {
      var q := u / 256;
      assert u == 256 * q + u % 256;
      assert q < Pow256(n - 1);
      UnsignedBigEndian(n - 1, q);
      var bs := BigEndian(n, u);
      assert bs[..|bs| - 1] == BigEndian(n - 1, q);
    }
  }

  /** Two's-complement reading of an unsigned value below `2 * half`. */
  function Signed(u: int, half: int): int
  {
    if u >= half then u - 2 * half else u
  }

  function WriteByte(v: int): seq<Byte> { BigEndian(1, v % 256) }
  function WriteShort(v: int): seq<Byte> { BigEndian(2, v % TWO_16) }
  function WriteInt(v: int): seq<Byte> { BigEndian(4, v % TWO_32) }
  function WriteLong(v: int): seq<Byte> { BigEndian(8, v % TWO_64) }

  /** `writeUTF`: a two-byte length then the modified UTF-8 body; strings whose
      body exceeds 65535 bytes are rejected before anything is written. */
  function WriteUtf(s: JString): (r: Result<seq<Byte>, IoError>)
    ensures r.Ok? <==> UtfLength(s) <= 65535
    ensures r.Ok? ==> |r.value| == 2 + UtfLength(s)
  {
    if UtfLength(s) > 65535 then Err(UtfTooLong)
    else
      EncodeUtfLength(s);
      Ok(WriteShort(UtfLength(s)) + EncodeUtf(s))
  }

  function ReadFixed(bs: seq<Byte>, n: nat): Parsed<nat>
  {
    if |bs| < n then Err(EndOfFile) else Ok((Unsigned(bs[..n]), bs[n..]))
  }

  /** `readByte`: signed. */
  function ReadByte(bs: seq<Byte>): Parsed<int>
  {
    var (u, rest) :- ReadFixed(bs, 1);
    Ok((Signed(u, 0x80), rest))
  }

  function ReadUnsignedShort(bs: seq<Byte>): Parsed<int>
  {
    var (u, rest) :- ReadFixed(bs, 2);
    Ok((u, rest))
  }

  /** `readShort`: signed. */
  function ReadShort(bs: seq<Byte>): Parsed<int>
  {
    var (u, rest) :- ReadFixed(bs, 2);
    Ok((Signed(u, 0x8000), rest))
  }

  function ReadInt(bs: seq<Byte>): Parsed<int>
  {
    var (u, rest) :- ReadFixed(bs, 4);
    Ok((Signed(u, 0x8000_0000), rest))
  }

  function ReadLong(bs: seq<Byte>): Parsed<int>
  {
    var (u, rest) :- ReadFixed(bs, 8);
    Ok((Signed(u, 0x8000_0000_0000_0000), rest))
  }

  /** `readUTF`: length prefix, `readFully` of the body, then decoding. */
  function ReadUtf(bs: seq<Byte>): Parsed<JString>
  {
    var (n, rest) :- ReadUnsignedShort(bs);
    if |rest| < n then Err(EndOfFile)
    else
      match DecodeUtf(rest[..n])
      case None => Err(MalformedUtf)
      case Some(s) => Ok((s, rest[n..]))
  }

  lemma ReadFixedBigEndian(n: nat, u: int, rest: seq<Byte>)
    requires 0 <= u < Pow256(n)
    ensures ReadFixed(BigEndian(n, u) + rest, n) == Ok((u, rest))
  {
    var bs := BigEndian(n, u) + rest;
    assert bs[..n] == BigEndian(n, u);
    assert bs[n..] == rest;
    UnsignedBigEndian(n, u);
  }

  lemma ReadWriteByte(v: int, rest: seq<Byte>)
    requires -0x80 <= v < 0x80
    ensures ReadByte(WriteByte(v) + rest) == Ok((v, rest))
  {
    ReadFixedBigEndian(1, v % 256, rest);
  }

  lemma ReadWriteShort(v: int, rest: seq<Byte>)
    requires IsInt16(v)
    ensures ReadShort(WriteShort(v) + rest) == Ok((v, rest))
  {
    ReadFixedBigEndian(2, v % TWO_16, rest);
  }

  lemma ReadWriteUnsignedShort(v: int, rest: seq<Byte>)
    requires 0 <= v < TWO_16
    ensures ReadUnsignedShort(WriteShort(v) + rest) == Ok((v, rest))
  {
    ReadFixedBigEndian(2, v % TWO_16, rest);
  }

  lemma ReadWriteInt(v: int, rest: seq<Byte>)
    requires IsInt32(v)
    ensures ReadInt(WriteInt(v) + rest) == Ok((v, rest))
  {
    ReadFixedBigEndian(4, v % TWO_32, rest);
  }

  lemma ReadWriteLong(v: int, rest: seq<Byte>)
    requires IsInt64(v)
    ensures ReadLong(WriteLong(v) + rest) == Ok((v, rest))
  {
    var u := v % TWO_64;
    assert u == if v >= 0 then v else v + TWO_64;
    Pow256Eight();
    ReadFixedBigEndian(8, u, rest);
    assert Signed(u, 0x8000_0000_0000_0000) == v;
  }

  lemma Pow256Eight()
    ensures Pow256(8) == TWO_64
  {
    assert Pow256(4) == TWO_32;
  }

  /** `readUTF` inverts `writeUTF`. */
  lemma ReadWriteUtf(s: JString, rest: seq<Byte>)
    requires UtfLength(s) <= 65535
    ensures ReadUtf(WriteUtf(s).value + rest) == Ok((s, rest))
  {
    var n := UtfLength(s);
    EncodeUtfLength(s);
    var body := EncodeUtf(s);
    assert WriteUtf(s).value + rest == WriteShort(n) + (body + rest);
    ReadWriteUnsignedShort(n, body + rest);
    assert (body + rest)[..n] == body;
    assert (body + rest)[n..] == rest;
    DecodeEncodeUtf(s);
  }
}
