/**
 * SingleFieldDeserializer: reads one field, of a known type, out of a byte
 * array at a given offset, in the format the tuple serializer writes, and keeps
 * a reusable instance for strings and custom objects.
 */
module FieldDeserializer {
  import opened Results
  import opened Wire
  import opened Tuples
  import opened Serializer

  /** The index a read of n bytes from offset fails on, when they are not all in an array of length len. */
  function FirstOutside(offset: int, len: nat): int
  {
    if offset < 0 || offset >= len then offset else len
  }

  /**
   * The static `deserialize`: dispatch on the field type. Numbers and enum
   * ordinals are vints, floats and doubles are 4 and 8 big-endian bytes,
   * booleans one byte that is true when positive, strings and custom objects a
   * vint length and then that many bytes; a negative object length stands for null.
   */
  function DeserializeField(bytes: seq<Byte>, offset: int, t: FieldType, enums: EnumCache, codec: ObjectCodec): (r: Result<Value, DecodeError>)
    ensures r.Ok? ==> 0 <= offset < |bytes|
  {
    match t
    case IntType =>
      (match ReadVInt(bytes, offset)
        case Err(e) => Err(e)
        case Ok(i) => Ok(IntValue(i)))
    case StringType =>
      (match ReadVInt(bytes, offset)
        case Err(e) => Err(e)
        case Ok(length) =>
          var start := offset + DecodeVIntSize(bytes[offset]);
          if length < 0 then Err(NegativeLength(length))
          else if start + length > |bytes| then Err(OutOfBounds(|bytes|))
          else Ok(StringValue(bytes[start..start + length])))
    case LongType =>
      (match ReadVLong(bytes, offset)
        case Err(e) => Err(e)
        case Ok(l) => Ok(LongValue(l)))
    case EnumType(c) =>
      (match ReadVInt(bytes, offset)
        case Err(e) => Err(e)
        case Ok(ordinal) =>
          if c !in enums then Err(UnknownEnum(c))
          else if !(0 <= ordinal < |enums[c]|) then Err(OrdinalOutOfRange(c, ordinal))
          else Ok(enums[c][ordinal]))
    case FloatType =>
      if !(0 <= offset && offset + 4 <= |bytes|) then Err(OutOfBounds(FirstOutside(offset, |bytes|)))
      else
        assert Pow256(4) == 0x1_0000_0000;
        Ok(FloatValue(FromBigEndian(bytes[offset..offset + 4])))
    case DoubleType =>
      if !(0 <= offset && offset + 8 <= |bytes|) then Err(OutOfBounds(FirstOutside(offset, |bytes|)))
      else
        assert Pow256(8) == 0x1_0000_0000_0000_0000;
        Ok(DoubleValue(FromBigEndian(bytes[offset..offset + 8])))
    case BooleanType =>
      if !(0 <= offset < |bytes|) then Err(OutOfBounds(offset))
      else Ok(BoolValue(bytes[offset] > 0))
    case ObjectType(c) =>
      (match ReadVInt(bytes, offset)
        case Err(e) => Err(e)
        case Ok(length) =>
          var start := offset + DecodeVIntSize(bytes[offset]);
          if length < 0 then Ok(Null)
          else if start + length > |bytes| then Err(OutOfBounds(|bytes|))
          else Ok(codec.deser(c, bytes[start..start + length])))
  }

  /**
   * What a successful read yields: a value of the field's class, except that a
   * custom object field yields whatever the codec returns, or null.
   */
  lemma DeserializedType(bytes: seq<Byte>, offset: int, t: FieldType, enums: EnumCache, codec: ObjectCodec)
    requires EnumCacheValid(enums)
    requires DeserializeField(bytes, offset, t, enums, codec).Ok?
    ensures !t.ObjectType? ==> HasType(DeserializeField(bytes, offset, t, enums, codec).value, t)
  {
    if t.EnumType? {
      var ordinal := ReadVInt(bytes, offset).value;
      assert enums[t.enumClass][ordinal] == EnumValue(t.enumClass, ordinal);
    }
  }

  /**
   * A negative length prefix: a string field fails, as no string has a
   * negative length, while a custom object field reads as null, the marker
   * the serializer writes for one.
   */
  lemma NegativeLengthRead(bytes: seq<Byte>, offset: int, t: FieldType, enums: EnumCache, codec: ObjectCodec, n: Int32)
    requires ReadVInt(bytes, offset) == Ok(n) && n < 0
    ensures t == StringType ==> DeserializeField(bytes, offset, t, enums, codec) == Err(NegativeLength(n))
    ensures t.ObjectType? ==> DeserializeField(bytes, offset, t, enums, codec) == Ok(Null)
  {
  }

  /** The length a string or object prefix announces, counting a null object's negative one as none. */
  function PrefixedLength(bytes: seq<Byte>, offset: int): nat
  {
    match ReadVInt(bytes, offset)
    case Ok(n) => if n < 0 then 0 else n
    case Err(_) => 0
  }

  /** How many bytes the field at offset occupies: the distance to the next field of a record. */
  function FieldSize(bytes: seq<Byte>, offset: int, t: FieldType): (size: nat)
    requires 0 <= offset < |bytes|
    ensures size >= 1
  {
    match t
    case IntType => DecodeVIntSize(bytes[offset])
    case LongType => DecodeVIntSize(bytes[offset])
    case EnumType(_) => DecodeVIntSize(bytes[offset])
    case FloatType => 4
    case DoubleType => 8
    case BooleanType => 1
    case StringType => DecodeVIntSize(bytes[offset]) + PrefixedLength(bytes, offset)
    case ObjectType(_) => DecodeVIntSize(bytes[offset]) + PrefixedLength(bytes, offset)
  }

  /** A field that reads successfully lies wholly inside the array. */
  lemma FieldInBounds(bytes: seq<Byte>, offset: int, t: FieldType, enums: EnumCache, codec: ObjectCodec)
    requires DeserializeField(bytes, offset, t, enums, codec).Ok?
    ensures 0 <= offset && offset + FieldSize(bytes, offset, t) <= |bytes|
  {
  }

  /** A vint written at the end of pre reads back, and so does its size, whatever follows it. */
  lemma VarIntFieldRoundTrip(v: Int32, pre: seq<Byte>, post: seq<Byte>)
    ensures var bytes := pre + EncodeVLong(v) + post;
            && ReadVInt(bytes, |pre|) == Ok(v)
            && DecodeVIntSize(bytes[|pre|]) == |EncodeVLong(v)|
  {
    VIntRoundTrip(v, pre, post);
    assert (pre + EncodeVLong(v) + post)[|pre|] == EncodeVLong(v)[0];
  }

  /** A vint length followed by a payload: the length, its size and the payload all read back. */
  lemma PrefixedRoundTrip(n: Int32, payload: seq<Byte>, pre: seq<Byte>, post: seq<Byte>)
    ensures var bytes := pre + (EncodeVLong(n) + payload) + post;
            var start := |pre| + DecodeVIntSize(bytes[|pre|]);
            && ReadVInt(bytes, |pre|) == Ok(n)
            && start == |pre| + |EncodeVLong(n)|
            && start + |payload| <= |bytes|
            && bytes[start..start + |payload|] == payload
  {
    var bytes := pre + (EncodeVLong(n) + payload) + post;
    assert bytes == pre + EncodeVLong(n) + (payload + post);
    VarIntFieldRoundTrip(n, pre, payload + post);
    var start := |pre| + |EncodeVLong(n)|;
    assert bytes[start..start + |payload|] == payload;
  }

  /** A fixed-width big-endian word reads back. */
  lemma WordRoundTrip(u: nat, n: nat, pre: seq<Byte>, post: seq<Byte>)
    requires u < Pow256(n)
    ensures var bytes := pre + BigEndian(u, n) + post;
            && |pre| + n <= |bytes|
            && FromBigEndian(bytes[|pre|..|pre| + n]) == u
  {
    var bytes := pre + BigEndian(u, n) + post;
    assert bytes[|pre|..|pre| + n] == BigEndian(u, n);
    BigEndianRoundTrip(u, n);
  }

  /** The encoding of v for field f, put between pre and post, reads back as v and spans exactly the encoding. */
  ghost predicate ReadsBackBetween(f: Field, v: Value, enums: EnumCache, codec: ObjectCodec, pre: seq<Byte>, post: seq<Byte>)
  {
    && EncodeField(f, v, codec).Ok?
    && var enc := EncodeField(f, v, codec).value;
       var bytes := pre + enc + post;
       && DeserializeField(bytes, |pre|, f.ftype, enums, codec) == Ok(v)
       && FieldSize(bytes, |pre|, f.ftype) == |enc|
  }

  /**
   * Every value the serializer writes for a field reads back as itself, and
   * occupies exactly the bytes written, wherever it sits in the array.
   */
  lemma FieldRoundTrip(f: Field, v: Value, enums: EnumCache, codec: ObjectCodec, pre: seq<Byte>, post: seq<Byte>)
    requires EnumCacheValid(enums)
    requires Decodable(v, f.ftype, enums, codec)
    ensures EncodeField(f, v, codec).Ok?
    ensures var enc := EncodeField(f, v, codec).value;
            var bytes := pre + enc + post;
            && DeserializeField(bytes, |pre|, f.ftype, enums, codec) == Ok(v)
            && FieldSize(bytes, |pre|, f.ftype) == |enc|
  {
    match f.ftype
    case IntType => IntFieldRoundTrip(f, v, enums, codec, pre, post);
    case LongType => LongFieldRoundTrip(f, v, enums, codec, pre, post);
    case EnumType(c) => EnumFieldRoundTrip(f, v, enums, codec, pre, post);
    case FloatType => FloatFieldRoundTrip(f, v, enums, codec, pre, post);
    case DoubleType => DoubleFieldRoundTrip(f, v, enums, codec, pre, post);
    case BooleanType => BooleanFieldRoundTrip(f, v, enums, codec, pre, post);
    case StringType => StringFieldRoundTrip(f, v, enums, codec, pre, post);
    case ObjectType(c) =>
      if v.Null? {
        NullFieldRoundTrip(f, v, enums, codec, pre, post);
      } else {
        ObjectFieldRoundTrip(f, v, enums, codec, pre, post);
      }
  }

  lemma IntFieldRoundTrip(f: Field, v: Value, enums: EnumCache, codec: ObjectCodec, pre: seq<Byte>, post: seq<Byte>)
    requires f.ftype == IntType && v.IntValue?
    ensures ReadsBackBetween(f, v, enums, codec, pre, post)
  {
    VarIntFieldRoundTrip(v.i, pre, post);
  }

  lemma LongFieldRoundTrip(f: Field, v: Value, enums: EnumCache, codec: ObjectCodec, pre: seq<Byte>, post: seq<Byte>)
    requires f.ftype == LongType && v.LongValue?
    ensures ReadsBackBetween(f, v, enums, codec, pre, post)
  {
    VLongRoundTrip(v.l, pre, post);
    assert (pre + EncodeVLong(v.l) + post)[|pre|] == EncodeVLong(v.l)[0];
  }

  /** An enum field whose vint reads as an ordinal the cache holds reads that cached constant. */
  lemma EnumFieldRead(bytes: seq<Byte>, offset: int, t: FieldType, enums: EnumCache, codec: ObjectCodec, ordinal: Int32)
    requires t.EnumType? && t.enumClass in enums && 0 <= ordinal < |enums[t.enumClass]|
    requires ReadVInt(bytes, offset) == Ok(ordinal)
    ensures DeserializeField(bytes, offset, t, enums, codec) == Ok(enums[t.enumClass][ordinal])
    ensures FieldSize(bytes, offset, t) == DecodeVIntSize(bytes[offset])
  {
  }

  lemma EnumFieldRoundTrip(f: Field, v: Value, enums: EnumCache, codec: ObjectCodec, pre: seq<Byte>, post: seq<Byte>)
    requires f.ftype.EnumType? && EnumCacheValid(enums) && Decodable(v, f.ftype, enums, codec)
    ensures ReadsBackBetween(f, v, enums, codec, pre, post)
  {
    var enc := EncodeVLong(v.ordinal);
    assert EncodeField(f, v, codec) == Ok(enc);
    VarIntFieldRoundTrip(v.ordinal, pre, post);
    EnumFieldRead(pre + enc + post, |pre|, f.ftype, enums, codec, v.ordinal);
    assert enums[v.enumClass][v.ordinal] == v;
  }

  lemma FloatFieldRoundTrip(f: Field, v: Value, enums: EnumCache, codec: ObjectCodec, pre: seq<Byte>, post: seq<Byte>)
    requires f.ftype == FloatType && v.FloatValue?
    ensures ReadsBackBetween(f, v, enums, codec, pre, post)
  {
    assert Pow256(4) == 0x1_0000_0000;
    WordRoundTrip(v.floatBits, 4, pre, post);
  }

  lemma DoubleFieldRoundTrip(f: Field, v: Value, enums: EnumCache, codec: ObjectCodec, pre: seq<Byte>, post: seq<Byte>)
    requires f.ftype == DoubleType && v.DoubleValue?
    ensures ReadsBackBetween(f, v, enums, codec, pre, post)
  {
    assert Pow256(8) == 0x1_0000_0000_0000_0000;
    WordRoundTrip(v.doubleBits, 8, pre, post);
  }

  lemma BooleanFieldRoundTrip(f: Field, v: Value, enums: EnumCache, codec: ObjectCodec, pre: seq<Byte>, post: seq<Byte>)
    requires f.ftype == BooleanType && v.BoolValue?
    ensures ReadsBackBetween(f, v, enums, codec, pre, post)
  {
    assert (pre + [if v.b then 1 else 0] + post)[|pre|] == if v.b then 1 else 0;
  }

  /** A string or custom object field whose length prefix reads as n, with n bytes after it, reads those bytes. */
  lemma PrefixedFieldRead(bytes: seq<Byte>, offset: int, t: FieldType, enums: EnumCache, codec: ObjectCodec, n: Int32, payload: seq<Byte>)
    requires t == StringType || t.ObjectType?
    requires ReadVInt(bytes, offset) == Ok(n) && n == |payload|
    requires var start := offset + DecodeVIntSize(bytes[offset]);
             start + n <= |bytes| && bytes[start..start + n] == payload
    ensures DeserializeField(bytes, offset, t, enums, codec)
         == Ok(if t == StringType then StringValue(payload) else codec.deser(t.objectClass, payload))
    ensures FieldSize(bytes, offset, t) == DecodeVIntSize(bytes[offset]) + n
  {
  }

  lemma StringFieldRoundTrip(f: Field, v: Value, enums: EnumCache, codec: ObjectCodec, pre: seq<Byte>, post: seq<Byte>)
    requires f.ftype == StringType && v.StringValue?
    ensures ReadsBackBetween(f, v, enums, codec, pre, post)
  {
    var enc := EncodeVLong(|v.utf8|) + v.utf8;
    assert EncodeField(f, v, codec) == Ok(enc);
    PrefixedRoundTrip(|v.utf8|, v.utf8, pre, post);
    PrefixedFieldRead(pre + enc + post, |pre|, f.ftype, enums, codec, |v.utf8|, v.utf8);
  }

  lemma NullFieldRoundTrip(f: Field, v: Value, enums: EnumCache, codec: ObjectCodec, pre: seq<Byte>, post: seq<Byte>)
    requires f.ftype.ObjectType? && v.Null?
    ensures ReadsBackBetween(f, v, enums, codec, pre, post)
  {
    VarIntFieldRoundTrip(NULL_LENGTH, pre, post);
  }

  lemma ObjectFieldRoundTrip(f: Field, v: Value, enums: EnumCache, codec: ObjectCodec, pre: seq<Byte>, post: seq<Byte>)
    requires f.ftype.ObjectType? && !v.Null? && Decodable(v, f.ftype, enums, codec)
    ensures ReadsBackBetween(f, v, enums, codec, pre, post)
  {
    var blob := codec.ser(v);
    var enc := EncodeVLong(|blob|) + blob;
    assert EncodeField(f, v, codec) == Ok(enc);
    PrefixedRoundTrip(|blob|, blob, pre, post);
    PrefixedFieldRead(pre + enc + post, |pre|, f.ftype, enums, codec, |blob|, blob);
  }

  /** A read that also says where the next field starts: just past the bytes this field occupies. */
  function ReadField(bytes: seq<Byte>, offset: int, t: FieldType, enums: EnumCache, codec: ObjectCodec): (r: Result<(Value, int), DecodeError>)
    ensures r.Ok? ==> 0 <= offset < r.value.1 <= |bytes|
  {
    match DeserializeField(bytes, offset, t, enums, codec)
    case Err(e) => Err(e)
    case Ok(v) => Ok((v, offset + FieldSize(bytes, offset, t)))
  }

  /** Something that reads one field of a given type at an offset: its value and the offset just past it. */
  type FieldReader = (seq<Byte>, int, FieldType) -> Result<(Value, int), DecodeError>

  /** The field reader of a deserializer with this enum cache and codec. */
  function Reader(enums: EnumCache, codec: ObjectCodec): FieldReader
  {
    (bytes: seq<Byte>, offset: int, t: FieldType) => ReadField(bytes, offset, t, enums, codec)
  }

  /** The field at offset reads as v, and the next field starts at next. */
  ghost predicate FieldReads(read: FieldReader, bytes: seq<Byte>, offset: int, t: FieldType, v: Value, next: int)
  {
    read(bytes, offset, t) == Ok((v, next))
  }

  /**
   * The first n fields of a schema read one after another from offset: their
   * values and the offset just past them.
   */
  function DecodeFields(bytes: seq<Byte>, offset: int, fields: seq<Field>, read: FieldReader, n: nat)
    : Result<(seq<Value>, int), DecodeError>
    requires n <= |fields|
  {
    if n == 0 then Ok(([], offset))
    else
      match DecodeFields(bytes, offset, fields, read, n - 1)
      case Err(e) => Err(e)
      case Ok((vs, at)) =>
        (match read(bytes, at, fields[n - 1].ftype)
          case Err(e) => Err(e)
          case Ok((v, next)) => Ok((vs + [v], next)))
  }

  /** A slice holding a + b holds a, then b. */
  lemma SliceSplit<T>(s: seq<T>, start: nat, a: seq<T>, b: seq<T>)
    requires start + |a| + |b| <= |s| && s[start..start + |a| + |b|] == a + b
    ensures s[start..start + |a|] == a
    ensures s[start + |a|..start + |a| + |b|] == b
  {
    assert s[start..start + |a|] == (a + b)[..|a|];
    assert s[start + |a|..start + |a| + |b|] == (a + b)[|a|..];
  }

  /** A slice holding r holds every prefix of r. */
  lemma SlicePrefix<T>(s: seq<T>, start: nat, r: seq<T>, p: seq<T>)
    requires start + |r| <= |s| && s[start..start + |r|] == r
    requires p <= r
    ensures start + |p| <= |s| && s[start..start + |p|] == p
  {
    assert s[start..start + |p|] == r[..|p|];
  }

  /** The array holds record from start on. */
  ghost predicate RecordAt(bytes: seq<Byte>, start: nat, record: seq<Byte>)
  {
    start + |record| <= |bytes| && bytes[start..start + |record|] == record
  }

  /** A field that deserializes, over size bytes, reads up to size bytes further. */
  lemma FieldReadsIntro(bytes: seq<Byte>, offset: int, t: FieldType, enums: EnumCache, codec: ObjectCodec, v: Value, size: int, next: int)
    requires DeserializeField(bytes, offset, t, enums, codec) == Ok(v)
    requires 0 <= offset < |bytes| ==> FieldSize(bytes, offset, t) == size
    requires next == offset + size
    ensures ReadField(bytes, offset, t, enums, codec) == Ok((v, next))
  {
  }

  /** FieldRoundTrip for a field found at some offset of a larger array: it reads up to where its encoding ends. */
  lemma FieldRoundTripAt(f: Field, v: Value, enums: EnumCache, codec: ObjectCodec, bytes: seq<Byte>, offset: nat, next: int)
    requires EnumCacheValid(enums)
    requires Decodable(v, f.ftype, enums, codec)
    requires EncodeField(f, v, codec).Ok?
    requires var enc := EncodeField(f, v, codec).value;
             RecordAt(bytes, offset, enc) && next == offset + |enc|
    ensures ReadField(bytes, offset, f.ftype, enums, codec) == Ok((v, next))
  {
    var enc := EncodeField(f, v, codec).value;
    assert bytes == bytes[..offset] + enc + bytes[offset + |enc|..];
    FieldRoundTrip(f, v, enums, codec, bytes[..offset], bytes[offset + |enc|..]);
    FieldReadsIntro(bytes, offset, f.ftype, enums, codec, v, |enc|, next);
  }

  /**
   * The encoder writes v for field f without raising, and wherever those bytes
   * sit in an array the reader reads them back as v, stopping just past them.
   */
  ghost predicate ReadsBack(enc: FieldEncoder, read: FieldReader, f: Field, v: Value)
  {
    && enc(f, v).Ok?
    && forall bytes: seq<Byte>, offset: nat | RecordAt(bytes, offset, enc(f, v).value)
         :: FieldReads(read, bytes, offset, f.ftype, v, offset + |enc(f, v).value|)
  }

  /** ReadsBack for the serializer's encoder and a deserializer's reader, from what ReadField does. */
  lemma ReadsBackIntro(f: Field, v: Value, enums: EnumCache, codec: ObjectCodec, e: seq<Byte>)
    requires EncodeField(f, v, codec) == Ok(e)
    requires forall bytes: seq<Byte>, offset: nat | RecordAt(bytes, offset, e)
               :: ReadField(bytes, offset, f.ftype, enums, codec) == Ok((v, offset + |e|))
    ensures ReadsBack(Encoder(codec), Reader(enums, codec), f, v)
  {
    assert Encoder(codec)(f, v) == Ok(e);
    forall bytes: seq<Byte>, offset: nat | RecordAt(bytes, offset, e)
      ensures FieldReads(Reader(enums, codec), bytes, offset, f.ftype, v, offset + |e|)
    {
      assert Reader(enums, codec)(bytes, offset, f.ftype) == ReadField(bytes, offset, f.ftype, enums, codec);
    }
  }

  /** The serializer's encoder and the deserializer's reader agree on every value the reader can rebuild. */
  lemma FieldReadsBack(f: Field, v: Value, enums: EnumCache, codec: ObjectCodec)
    requires EnumCacheValid(enums)
    requires Decodable(v, f.ftype, enums, codec)
    ensures ReadsBack(Encoder(codec), Reader(enums, codec), f, v)
  {
    assert EncodeField(f, v, codec).Ok? by {
      FieldRoundTrip(f, v, enums, codec, [], []);
    }
    var e := EncodeField(f, v, codec).value;
    forall bytes: seq<Byte>, offset: nat | RecordAt(bytes, offset, e)
      ensures ReadField(bytes, offset, f.ftype, enums, codec) == Ok((v, offset + |e|))
    {
      FieldRoundTripAt(f, v, enums, codec, bytes, offset, offset + |e|);
    }
    ReadsBackIntro(f, v, enums, codec, e);
  }

  /** A field encoded right after prev, in an array holding prev and then it from start on, reads back from the end of prev. */
  lemma FieldReadsAfter(enc: FieldEncoder, read: FieldReader, f: Field, v: Value, bytes: seq<Byte>, start: nat, prev: seq<Byte>, record: seq<Byte>)
    requires ReadsBack(enc, read, f, v)
    requires record == prev + enc(f, v).value
    requires RecordAt(bytes, start, record)
    ensures FieldReads(read, bytes, start + |prev|, f.ftype, v, start + |record|)
  {
    SliceSplit(bytes, start, prev, enc(f, v).value);
    assert RecordAt(bytes, start + |prev|, enc(f, v).value);
  }

  /** A successful write of n fields is the write of the first n - 1 followed by the encoding of the last. */
  lemma LastFieldWritten(fields: seq<Field>, values: seq<Value>, table: seq<int>, enc: FieldEncoder, n: nat)
    requires 0 < n <= |fields| == |table|
    requires 0 <= table[n - 1] < |values|
    requires WriteFields(fields, values, table, enc, n).error.None?
    ensures enc(fields[n - 1], values[table[n - 1]]).Ok?
    ensures WriteFields(fields, values, table, enc, n).bytes
         == WriteFields(fields, values, table, enc, n - 1).bytes + enc(fields[n - 1], values[table[n - 1]]).value
  {
    WriteFieldsPrefix(fields, values, table, enc, n - 1, n);
    WriteFieldsStep(fields, values, table, enc, n - 1);
    assert FieldWrite(fields, values, table, enc, n - 1) == enc(fields[n - 1], values[table[n - 1]]);
  }

  /** The first m fields of a record written at start lie at start too. */
  lemma RecordPrefix(fields: seq<Field>, values: seq<Value>, table: seq<int>, enc: FieldEncoder, m: nat, n: nat, bytes: seq<Byte>, start: nat)
    requires m <= n <= |fields| == |table|
    requires WriteFields(fields, values, table, enc, n).error.None?
    requires RecordAt(bytes, start, WriteFields(fields, values, table, enc, n).bytes)
    ensures WriteFields(fields, values, table, enc, m).error.None?
    ensures RecordAt(bytes, start, WriteFields(fields, values, table, enc, m).bytes)
  {
    WriteFieldsPrefix(fields, values, table, enc, m, n);
    SlicePrefix(bytes, start, WriteFields(fields, values, table, enc, n).bytes, WriteFields(fields, values, table, enc, m).bytes);
  }

  /** Field i of a record written at start reads back, from where the fields before it end to where it ends. */
  lemma RecordFieldReads(fields: seq<Field>, values: seq<Value>, table: seq<int>, enc: FieldEncoder, read: FieldReader,
                         n: nat, bytes: seq<Byte>, start: nat, i: nat)
    requires i < n <= |fields| == |table|
    requires 0 <= table[i] < |values| && ReadsBack(enc, read, fields[i], values[table[i]])
    requires WriteFields(fields, values, table, enc, n).error.None?
    requires RecordAt(bytes, start, WriteFields(fields, values, table, enc, n).bytes)
    ensures FieldReads(read, bytes, start + |WriteFields(fields, values, table, enc, i).bytes|, fields[i].ftype,
                       values[table[i]], start + |WriteFields(fields, values, table, enc, i + 1).bytes|)
  {
    RecordPrefix(fields, values, table, enc, i + 1, n, bytes, start);
    LastFieldWritten(fields, values, table, enc, i + 1);
    FieldReadsAfter(enc, read, fields[i], values[table[i]], bytes, start, WriteFields(fields, values, table, enc, i).bytes,
                    WriteFields(fields, values, table, enc, i + 1).bytes);
  }

  /** Where field i of a record starts, given where each field ends. */
  function StartOf(start: int, ends: seq<int>, i: nat): int
    requires i <= |ends|
  {
    if i == 0 then start else ends[i - 1]
  }

  /** Reading one more field: when the fields before it and the field itself read, so do all of them. */
  lemma DecodeFieldsStep(bytes: seq<Byte>, start: int, fields: seq<Field>, read: FieldReader, n: nat,
                         vs: seq<Value>, at: int, v: Value, next: int)
    requires 0 < n <= |fields|
    requires DecodeFields(bytes, start, fields, read, n - 1) == Ok((vs, at))
    requires FieldReads(read, bytes, at, fields[n - 1].ftype, v, next)
    ensures DecodeFields(bytes, start, fields, read, n) == Ok((vs + [v], next))
  {
  }

  /** Fields that each read, one right after another, read together as a record (here its first k fields). */
  lemma {:induction false} DecodeLayout(bytes: seq<Byte>, start: int, fields: seq<Field>, read: FieldReader,
                                        n: nat, vs: seq<Value>, ends: seq<int>, k: nat)
    requires k <= n <= |fields| && |vs| == n && |ends| == n
    requires forall i {:trigger vs[i]} | 0 <= i < n :: FieldReads(read, bytes, StartOf(start, ends, i), fields[i].ftype, vs[i], ends[i])
    ensures DecodeFields(bytes, start, fields, read, k) == Ok((vs[..k], StartOf(start, ends, k)))
  {
    if k > 0 {
      DecodeLayout(bytes, start, fields, read, n, vs, ends, k - 1);
      assert FieldReads(read, bytes, StartOf(start, ends, k - 1), fields[k - 1].ftype, vs[k - 1], ends[k - 1]);
      DecodeFieldsStep(bytes, start, fields, read, k, vs[..k - 1], StartOf(start, ends, k - 1), vs[k - 1], ends[k - 1]);
      assert vs[..k] == vs[..k - 1] + [vs[k - 1]];
    }
  }

  /** Where each of the first n fields of a record written at start ends. */
  function RecordEnds(fields: seq<Field>, values: seq<Value>, table: seq<int>, enc: FieldEncoder, start: int, n: nat): (r: seq<int>)
    requires n <= |fields| == |table|
    ensures |r| == n
  {
    if n == 0 then [] else RecordEnds(fields, values, table, enc, start, n - 1) + [start + |WriteFields(fields, values, table, enc, n).bytes|]
  }

  /** Field i ends where the write of the first i + 1 fields does. */
  lemma {:induction false} RecordEndsAt(fields: seq<Field>, values: seq<Value>, table: seq<int>, enc: FieldEncoder, start: int, n: nat, i: nat)
    requires i < n <= |fields| == |table|
    ensures RecordEnds(fields, values, table, enc, start, n)[i] == start + |WriteFields(fields, values, table, enc, i + 1).bytes|
  {
    if i < n - 1 {
      RecordEndsAt(fields, values, table, enc, start, n - 1, i);
    }
  }

  /** Field i starts where the write of the first i fields ends. */
  lemma RecordStartAt(fields: seq<Field>, values: seq<Value>, table: seq<int>, enc: FieldEncoder, start: int, n: nat, i: nat)
    requires i <= n <= |fields| == |table|
    ensures StartOf(start, RecordEnds(fields, values, table, enc, start, n), i) == start + |WriteFields(fields, values, table, enc, i).bytes|
  {
    if i == 0 {
      assert WriteFields(fields, values, table, enc, 0).bytes == [];
    } else {
      RecordEndsAt(fields, values, table, enc, start, n, i - 1);
    }
  }

  /** RecordFieldReads in the terms of the record layout. */
  lemma RecordFieldAt(fields: seq<Field>, values: seq<Value>, table: seq<int>, enc: FieldEncoder, read: FieldReader,
                      n: nat, bytes: seq<Byte>, start: nat, i: nat)
    requires i < n <= |fields| == |table|
    requires forall j | 0 <= j < n :: 0 <= table[j] < |values|
    requires ReadsBack(enc, read, fields[i], values[table[i]])
    requires WriteFields(fields, values, table, enc, n).error.None?
    requires RecordAt(bytes, start, WriteFields(fields, values, table, enc, n).bytes)
    ensures FieldReads(read, bytes, StartOf(start, RecordEnds(fields, values, table, enc, start, n), i), fields[i].ftype,
                       Project(values, table, n)[i], RecordEnds(fields, values, table, enc, start, n)[i])
  {
    RecordStartAt(fields, values, table, enc, start, n, i);
    RecordEndsAt(fields, values, table, enc, start, n, i);
    RecordFieldReads(fields, values, table, enc, read, n, bytes, start, i);
  }

  /**
   * A record written field by field reads back field by field, wherever it
   * sits in an array, given a reader that reads back each field's encoding:
   * the values decoded are the tuple values the translation table picked, and
   * reading ends exactly where the record does.
   */
  lemma RecordRoundTrip(fields: seq<Field>, values: seq<Value>, table: seq<int>, enc: FieldEncoder, read: FieldReader,
                        n: nat, bytes: seq<Byte>, start: nat)
    requires n <= |fields| == |table|
    requires forall i | 0 <= i < n :: 0 <= table[i] < |values| && ReadsBack(enc, read, fields[i], values[table[i]])
    requires WriteFields(fields, values, table, enc, n).error.None?
    requires RecordAt(bytes, start, WriteFields(fields, values, table, enc, n).bytes)
    ensures DecodeFields(bytes, start, fields, read, n)
         == Ok((Project(values, table, n), start + |WriteFields(fields, values, table, enc, n).bytes|))
  {
    var ends := RecordEnds(fields, values, table, enc, start, n);
    var vs := Project(values, table, n);
    forall i {:trigger vs[i]} | 0 <= i < n
      ensures FieldReads(read, bytes, StartOf(start, ends, i), fields[i].ftype, vs[i], ends[i])
    {
      RecordFieldAt(fields, values, table, enc, read, n, bytes, start, i);
    }
    DecodeLayout(bytes, start, fields, read, n, vs, ends, n);
    assert vs[..n] == vs;
    RecordStartAt(fields, values, table, enc, start, n, n);
  }

  /**
   * A record written with an encoder the reader reads back, field by field,
   * is written without error, and reads back after any prefix.
   */
  lemma RecordWrittenReadsBack(fields: seq<Field>, values: seq<Value>, table: seq<int>, enc: FieldEncoder, read: FieldReader,
                               pre: seq<Byte>, post: seq<Byte>)
    requires |fields| == |table|
    requires forall i | 0 <= i < |fields| :: 0 <= table[i] < |values| && ReadsBack(enc, read, fields[i], values[table[i]])
    ensures WriteFields(fields, values, table, enc, |fields|).error.None?
    ensures var record := WriteFields(fields, values, table, enc, |fields|).bytes;
            DecodeFields(pre + record + post, |pre|, fields, read, |fields|)
              == Ok((Project(values, table, |fields|), |pre| + |record|))
  {
    var n := |fields|;
    WriteFieldsSucceeds(fields, values, table, enc, n);
    var record := WriteFields(fields, values, table, enc, n).bytes;
    assert (pre + record + post)[|pre|..|pre| + |record|] == record;
    RecordRoundTrip(fields, values, table, enc, read, n, pre + record + post, |pre|);
  }

  /**
   * What the serializer writes for a translation table, after any prefix,
   * the deserializer reads back from the end of that prefix: every field
   * value the table picks, in order, ending where the record ends.
   */
  lemma RecordReadsBack(fields: seq<Field>, values: seq<Value>, table: seq<int>, codec: ObjectCodec,
                        enums: EnumCache, pre: seq<Byte>, post: seq<Byte>)
    requires |fields| == |table|
    requires EnumCacheValid(enums)
    requires forall i | 0 <= i < |fields| :: 0 <= table[i] < |values| && Decodable(values[table[i]], fields[i].ftype, enums, codec)
    ensures WriteFields(fields, values, table, Encoder(codec), |fields|).error.None?
    ensures var record := WriteFields(fields, values, table, Encoder(codec), |fields|).bytes;
            DecodeFields(pre + record + post, |pre|, fields, Reader(enums, codec), |fields|)
              == Ok((Project(values, table, |fields|), |pre| + |record|))
  {
    forall i | 0 <= i < |fields|
      ensures ReadsBack(Encoder(codec), Reader(enums, codec), fields[i], values[table[i]])
    {
      FieldReadsBack(fields[i], values[table[i]], enums, codec);
    }
    RecordWrittenReadsBack(fields, values, table, Encoder(codec), Reader(enums, codec), pre, post);
  }

  /**
   * instanceType together with the constructor's newInstance: strings get a
   * reusable Utf8, custom objects a blank instance of their own class, every
   * other type none.
   */
  function NewInstance(t: FieldType): (r: Option<Value>)
    ensures r.Some? <==> t.StringType? || t.ObjectType?
    ensures r.Some? ==> HasType(r.value, t) && !r.value.Null?
  {
    match t
    case StringType => Some(StringValue([]))
    case ObjectType(c) => Some(ObjectValue(c, []))
    case _ => None
  }

  /** Whether a successful read leaves its result in the reusable instance. */
  predicate ReusesInstance(t: FieldType, v: Value)
  {
    t.StringType? || (t.ObjectType? && !v.Null?)
  }

  /** SingleFieldDeserializer: a field type, the enum cache and codec, and the reusable instance. */
  class SingleFieldDeserializer {
    const fieldType: FieldType
    const cachedEnums: EnumCache
    const codec: ObjectCodec
    /** The instance reused across calls: a Utf8 for strings, a blank object for custom objects. */
    var instance: Option<Value>

    constructor (codec: ObjectCodec, cachedEnums: EnumCache, fieldType: FieldType)
      ensures this.codec == codec && this.cachedEnums == cachedEnums && this.fieldType == fieldType
      ensures instance == NewInstance(fieldType)
    {
      this.codec := codec;
      this.cachedEnums := cachedEnums;
      this.fieldType := fieldType;
      instance := NewInstance(fieldType);
    }

    /** The instance `deserialize`: the static one with this deserializer's instance. */
    method Deserialize(bytes: seq<Byte>, offset: int) returns (r: Result<Value, DecodeError>)
      modifies this
      ensures r == DeserializeField(bytes, offset, fieldType, cachedEnums, codec)
      ensures instance == if r.Ok? && ReusesInstance(fieldType, r.value) then Some(r.value) else old(instance)
    {
      r := DeserializeField(bytes, offset, fieldType, cachedEnums, codec);
      if r.Ok? && ReusesInstance(fieldType, r.value) {
        instance := Some(r.value);
      }
    }
  }
}
