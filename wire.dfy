/**
 * The byte-level encodings the tuple codec is built on: Java's signed bytes,
 * Hadoop's zero-compressed variable-length integers (WritableUtils.writeVLong,
 * WritableComparator.readVLong / readVInt, WritableUtils.decodeVIntSize) and
 * fixed-width big-endian words (DataOutput.writeInt / writeLong).
 */
module Wire {
  import opened Results

  /** A Java byte: signed, two's complement. */
  type Byte = b: int | -128 <= b < 128

  const MAX_INT: int := 0x7fff_ffff
  const MAX_LONG: int := 0x7fff_ffff_ffff_ffff

  /** Java's int and long. */
  type Int32 = x: int | -0x8000_0000 <= x <= 0x7fff_ffff
  type Int64 = x: int | -0x8000_0000_0000_0000 <= x <= 0x7fff_ffff_ffff_ffff

  /** Why reading a field out of a byte array failed. */
  datatype DecodeError =
    | OutOfBounds(index: int)                      // an index outside the array
    | ShortVarInt(start: int)                      // readVLong: "Not enough number of bytes"
    | NegativeLength(length: int)                  // a string length prefix below zero
    | UnknownEnum(enumClass: string)               // no cached constants for the enum class
    | OrdinalOutOfRange(enumClass: string, ordinal: int)

  /** `b & 0xFF` */
  function Unsigned(b: Byte): (u: nat)
    ensures u < 256
    ensures u < 128 <==> b >= 0
  {
    if b < 0 then b + 256 else b
  }

  /** `(byte) u` for an unsigned byte value u. */
  function ToByte(u: int): (b: Byte)
    requires 0 <= u < 256
    ensures Unsigned(b) == u
  {
    if u < 128 then u else u - 256
  }

  function Pow256(n: nat): (p: nat)
    ensures p >= 1
  {
    if n == 0 then 1 else 256 * Pow256(n - 1)
  }

  /** The low n bytes of u, most significant first. */
  function BigEndian(u: nat, n: nat): (s: seq<Byte>)
    ensures |s| == n
  {
    if n == 0 then [] else BigEndian(u / 256, n - 1) + [ToByte(u % 256)]
  }

  /** The unsigned number a big-endian byte sequence denotes. */
  function FromBigEndian(s: seq<Byte>): (u: nat)
    ensures u < Pow256(|s|)
  {
    if s == [] then 0
    else
      var high := FromBigEndian(s[..|s| - 1]);
      assert high * 256 <= (Pow256(|s| - 1) - 1) * 256;
      high * 256 + Unsigned(s[|s| - 1])
  }

  lemma {:induction false} BigEndianRoundTrip(u: nat, n: nat)
    requires u < Pow256(n)
    ensures FromBigEndian(BigEndian(u, n)) == u
  {
    if n > 0 {
      var s := BigEndian(u, n);
      assert s[..n - 1] == BigEndian(u / 256, n - 1);
      BigEndianRoundTrip(u / 256, n - 1);
    }
  }

  /** The number of significant bytes of u (the length loop of writeVLong). */
  function ByteLength(u: nat): nat
  {
    if u == 0 then 0 else 1 + ByteLength(u / 256)
  }

  lemma {:induction false} ByteLengthAtMost(u: nat, k: nat)
    requires u < Pow256(k)
    ensures ByteLength(u) <= k
    ensures u < Pow256(ByteLength(u))
  {
    if u > 0 {
      assert k > 0;
      ByteLengthAtMost(u / 256, k - 1);
    }
  }

  /** Two's complement wrap of a non-negative number into a Java long. */
  function ToLong(u: nat): Int64
  {
    var w := u % 0x1_0000_0000_0000_0000;
    if w > MAX_LONG then w - 0x1_0000_0000_0000_0000 else w
  }

  /** Java's `(int)` cast of a long: keep the low 32 bits. */
  function ToInt(l: int): Int32
  {
    var w := l % 0x1_0000_0000;
    if w > MAX_INT then w - 0x1_0000_0000 else w
  }

  /** WritableUtils.decodeVIntSize: the total length of a vint from its first byte. */
  function DecodeVIntSize(first: Byte): (n: int)
    ensures 1 <= n <= 9
  {
    if first >= -112 then 1
    else if first < -120 then -119 - first
    else -111 - first
  }

  /** WritableUtils.isNegativeVInt */
  predicate IsNegativeVInt(first: Byte)
  {
    first < -120 || (-112 <= first < 0)
  }

  /**
   * WritableUtils.writeVLong (and writeVInt, which widens its argument):
   * values in -112..127 are one byte; any other value is a marker byte giving
   * the sign and the number of magnitude bytes, then the magnitude, big-endian,
   * one's-complemented first when the value is negative.
   */
  function EncodeVLong(v: Int64): (s: seq<Byte>)
    ensures 1 <= |s| <= 9
    ensures |s| == 1 <==> -112 <= v <= 127
    ensures DecodeVIntSize(s[0]) == |s|
    ensures IsNegativeVInt(s[0]) <==> v < 0
  {
    if -112 <= v <= 127 then [v]
    else
      var negative := v < 0;
      var u: nat := if negative then -(v as int) - 1 else v as int;
      assert Pow256(8) == 0x1_0000_0000_0000_0000;
      ByteLengthAtMost(u, 8);
      var n := ByteLength(u);
      [(if negative then -120 else -112) - n as int] + BigEndian(u, n)
  }

  /**
   * WritableComparator.readVLong(bytes, start): a successful read lies wholly
   * inside the array.
   */
  function ReadVLong(bytes: seq<Byte>, start: int): (r: Result<Int64, DecodeError>)
    ensures r.Ok? ==> 0 <= start < |bytes| && start + DecodeVIntSize(bytes[start]) <= |bytes|
  {
    if !(0 <= start < |bytes|) then Err(OutOfBounds(start))
    else
      var first := bytes[start];
      if first >= -112 then Ok(first)
      else
        var negative := first < -120;
        var len := if negative then -(first + 120) else -(first + 112);
        if start + 1 + len > |bytes| then Err(ShortVarInt(start))
        else
          var l := ToLong(FromBigEndian(bytes[start + 1..start + 1 + len]));
          Ok(if negative then -(l as int) - 1 else l)
  }

  /** WritableComparator.readVInt: readVLong narrowed to an int. */
  function ReadVInt(bytes: seq<Byte>, start: int): (r: Result<Int32, DecodeError>)
    ensures r.Ok? ==> 0 <= start < |bytes| && start + DecodeVIntSize(bytes[start]) <= |bytes|
  {
    var l :- ReadVLong(bytes, start);
    Ok(ToInt(l))
  }

  /** A long written with writeVLong reads back with readVLong, wherever it sits in the array. */
  lemma VLongRoundTrip(v: Int64, pre: seq<Byte>, post: seq<Byte>)
    ensures ReadVLong(pre + EncodeVLong(v) + post, |pre|) == Ok(v)
  {
    var s := EncodeVLong(v);
    var bytes := pre + s + post;
    assert bytes[|pre|] == s[0];
    if !(-112 <= v <= 127) {
      var negative := v < 0;
      var u: nat := if negative then -(v as int) - 1 else v as int;
      assert Pow256(8) == 0x1_0000_0000_0000_0000;
      ByteLengthAtMost(u, 8);
      var n := ByteLength(u);
      assert s == [(if negative then -120 else -112) - n as int] + BigEndian(u, n);
      MultiByteRead(bytes, |pre|, negative, u, n);
    }
  }

  /** The marker-then-magnitude form of a value of magnitude u reads back as that value. */
  lemma MultiByteRead(bytes: seq<Byte>, start: nat, negative: bool, u: nat, n: nat)
    requires 1 <= n <= 8 && u < Pow256(n) && u <= MAX_LONG
    requires start + 1 + n <= |bytes|
    requires bytes[start] == (if negative then -120 else -112) - n as int
    requires bytes[start + 1..start + 1 + n] == BigEndian(u, n)
    ensures ReadVLong(bytes, start) == Ok(if negative then -(u as int) - 1 else u as int)
  {
    BigEndianRoundTrip(u, n);
    assert FromBigEndian(bytes[start + 1..start + 1 + n]) == u;
    assert ToLong(u) == u;
  }

  /** An int written with writeVInt reads back with readVInt. */
  lemma VIntRoundTrip(v: Int32, pre: seq<Byte>, post: seq<Byte>)
    ensures ReadVInt(pre + EncodeVLong(v) + post, |pre|) == Ok(v)
  {
    VLongRoundTrip(v, pre, post);
  }
}
