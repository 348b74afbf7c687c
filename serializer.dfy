/**
 * PangoolSerializer: writes a tuple field by field, in destination-schema
 * order, each value taken from the tuple position its translation table names.
 * With two or more intermediate schemas a record is the common fields, then the
 * source id as a vint, then that source's specific fields.
 */
module Serializer {
  import opened Results
  import opened Wire
  import opened Tuples

  /** PangoolSerialization.NULL_LENGTH: the length prefix of a null custom object. */
  const NULL_LENGTH: Int32 := -1

  /** The IOExceptions the serializer raises. */
  datatype SerError =
    | NullValue(field: Field)                        // "... can't contain null value"
    | WrongType(field: Field, value: Value)          // "... can't contain '<value>' which is <class>"
    | EnumClassMismatch(field: Field, value: Value)  // "Field '<name>' contains '<value>' ... The expected type is ..."
    | NoSuchPosition(field: Field, position: int)    // the tuple has no position translationTable[i]
    | UnknownSchema(name: string)                    // "... is not a valid intermediate schema"

  /** What a write put on the stream before it returned or threw. */
  datatype Written = Written(bytes: seq<Byte>, error: Option<SerError>)

  /**
   * The error for a value of the wrong class in a non-object field: a null
   * fails on unboxing or on getClass() and is reported as a null value; any
   * other object fails its cast.
   */
  function Mistyped(f: Field, v: Value): SerError
  {
    if v.Null? then NullValue(f) else WrongType(f, v)
  }

  /** writeCustomObject: vint(NULL_LENGTH) for null, otherwise vint(blob length) and the blob. */
  function EncodeObject(v: Value, codec: ObjectCodec): seq<Byte>
  {
    if v.Null? then EncodeVLong(NULL_LENGTH)
    else
      var blob := codec.ser(v);
      EncodeVLong(|blob|) + blob
  }

  /**
   * The bytes one field contributes, or the error it raises. Only a custom
   * object field accepts any value; every other field accepts exactly the
   * values of its declared class, and a null in it is a null-value error.
   */
  function EncodeField(f: Field, v: Value, codec: ObjectCodec): Result<seq<Byte>, SerError>
  {
    match f.ftype
    case IntType => if v.IntValue? then Ok(EncodeVLong(v.i)) else Err(Mistyped(f, v))
    case LongType => if v.LongValue? then Ok(EncodeVLong(v.l)) else Err(Mistyped(f, v))
    case DoubleType => if v.DoubleValue? then Ok(BigEndian(v.doubleBits, 8)) else Err(Mistyped(f, v))
    case FloatType => if v.FloatValue? then Ok(BigEndian(v.floatBits, 4)) else Err(Mistyped(f, v))
    case StringType => if v.StringValue? then Ok(EncodeVLong(|v.utf8|) + v.utf8) else Err(Mistyped(f, v))
    case BooleanType => if v.BoolValue? then Ok([if v.b then 1 else 0]) else Err(Mistyped(f, v))
    case EnumType(c) =>
      if !v.EnumValue? then Err(Mistyped(f, v))
      else if v.enumClass != c then Err(EnumClassMismatch(f, v))
      else Ok(EncodeVLong(v.ordinal))
    case ObjectType(_) => Ok(EncodeObject(v, codec))
  }

  /**
   * Which values a field accepts and which error it raises otherwise: only a
   * custom object field accepts any value (null included); every other field
   * accepts exactly the values of its declared class, a null in it is a
   * null-value error, an enum constant of another class is a class-mismatch
   * error, and any other value is a type error.
   */
  lemma EncodeFieldOutcome(f: Field, v: Value, codec: ObjectCodec)
    ensures EncodeField(f, v, codec).Ok? <==> f.ftype.ObjectType? || HasType(v, f.ftype)
    ensures v.Null? && !f.ftype.ObjectType? ==> EncodeField(f, v, codec) == Err(NullValue(f))
    ensures f.ftype.EnumType? && v.EnumValue? && v.enumClass != f.ftype.enumClass
            ==> EncodeField(f, v, codec) == Err(EnumClassMismatch(f, v))
    ensures !f.ftype.ObjectType? && !v.Null? && !HasType(v, f.ftype) && !(f.ftype.EnumType? && v.EnumValue?)
            ==> EncodeField(f, v, codec) == Err(WrongType(f, v))
    ensures f.ftype.BooleanType? && v.BoolValue? ==> EncodeField(f, v, codec) == Ok([if v.b then 1 else 0])
  {
  }

  /** How one field's value is written: its bytes, or the error it raises. */
  type FieldEncoder = (Field, Value) -> Result<seq<Byte>, SerError>

  /** The serializer's own field encoder, with its custom-object codec. */
  function Encoder(codec: ObjectCodec): FieldEncoder
  {
    (f: Field, v: Value) => EncodeField(f, v, codec)
  }

  /** What destination field i contributes: the tuple must have position table[i], and its value must encode. */
  function FieldWrite(fields: seq<Field>, values: seq<Value>, table: seq<int>, enc: FieldEncoder, i: nat): Result<seq<Byte>, SerError>
    requires i < |fields| == |table|
  {
    var pos := table[i];
    if !(0 <= pos < |values|) then Err(NoSuchPosition(fields[i], pos))
    else enc(fields[i], values[pos])
  }

  /** The outcomes of the first n destination fields, in destination order. */
  function FieldWrites(fields: seq<Field>, values: seq<Value>, table: seq<int>, enc: FieldEncoder, n: nat): (r: seq<Result<seq<Byte>, SerError>>)
    requires n <= |fields| == |table|
    ensures |r| == n
  {
    if n == 0 then [] else FieldWrites(fields, values, table, enc, n - 1) + [FieldWrite(fields, values, table, enc, n - 1)]
  }

  /** The i-th outcome is field i's. */
  lemma {:induction false} FieldWritesAt(fields: seq<Field>, values: seq<Value>, table: seq<int>, enc: FieldEncoder, n: nat, i: nat)
    requires i < n <= |fields| == |table|
    ensures FieldWrites(fields, values, table, enc, n)[i] == FieldWrite(fields, values, table, enc, i)
  {
    if i < n - 1 {
      FieldWritesAt(fields, values, table, enc, n - 1, i);
    }
  }

  /** Run the first n steps in order: append each step's bytes, stop at the first error. */
  function Chain(steps: seq<Result<seq<Byte>, SerError>>, n: nat): Written
    requires n <= |steps|
  {
    if n == 0 then Written([], None)
    else
      var prev := Chain(steps, n - 1);
      if prev.error.Some? then prev
      else
        match steps[n - 1]
        case Ok(b) => Written(prev.bytes + b, None)
        case Err(e) => Written(prev.bytes, Some(e))
  }

  /** A chain of steps succeeds exactly when none of its steps fails. */
  lemma {:induction false} ChainSucceeds(steps: seq<Result<seq<Byte>, SerError>>, n: nat)
    requires n <= |steps|
    ensures Chain(steps, n).error.None? <==> forall i | 0 <= i < n :: steps[i].Ok?
  {
    if n > 0 {
      ChainSucceeds(steps, n - 1);
    }
  }

  /** Once a step has failed, further steps change nothing. */
  lemma {:induction false} ChainErrorSticks(steps: seq<Result<seq<Byte>, SerError>>, k: nat, n: nat)
    requires k <= n <= |steps|
    requires Chain(steps, k).error.Some?
    ensures Chain(steps, n) == Chain(steps, k)
  {
    if n > k {
      ChainErrorSticks(steps, k, n - 1);
    }
  }

  /** A successful chain of n steps begins with the chain of any fewer of them. */
  lemma {:induction false} ChainPrefix(steps: seq<Result<seq<Byte>, SerError>>, m: nat, n: nat)
    requires m <= n <= |steps|
    requires Chain(steps, n).error.None?
    ensures Chain(steps, m).error.None?
    ensures Chain(steps, m).bytes <= Chain(steps, n).bytes
  {
    if m < n {
      ChainPrefix(steps, m, n - 1);
    }
  }

  /** `write`: the first n destination fields, stopping at the first one that raises. */
  function WriteFields(fields: seq<Field>, values: seq<Value>, table: seq<int>, enc: FieldEncoder, n: nat): Written
    requires n <= |fields| == |table|
  {
    Chain(FieldWrites(fields, values, table, enc, |fields|), n)
  }

  /** Writing one more field appends its bytes, or reports its error, after those of the fields before it. */
  lemma WriteFieldsStep(fields: seq<Field>, values: seq<Value>, table: seq<int>, enc: FieldEncoder, i: nat)
    requires i < |fields| == |table|
    requires WriteFields(fields, values, table, enc, i).error.None?
    ensures var prev := WriteFields(fields, values, table, enc, i).bytes;
            var step := FieldWrite(fields, values, table, enc, i);
            WriteFields(fields, values, table, enc, i + 1)
              == if step.Ok? then Written(prev + step.value, None) else Written(prev, Some(step.error))
  {
    FieldWritesAt(fields, values, table, enc, |fields|, i);
  }

  /** Within a successful write, field i succeeds and its bytes follow those of the fields before it. */
  lemma WriteFieldsAppend(fields: seq<Field>, values: seq<Value>, table: seq<int>, enc: FieldEncoder, i: nat, n: nat)
    requires i < n <= |fields| == |table|
    requires WriteFields(fields, values, table, enc, n).error.None?
    ensures FieldWrite(fields, values, table, enc, i).Ok?
    ensures WriteFields(fields, values, table, enc, i + 1).bytes
         == WriteFields(fields, values, table, enc, i).bytes + FieldWrite(fields, values, table, enc, i).value
    ensures WriteFields(fields, values, table, enc, i + 1).bytes <= WriteFields(fields, values, table, enc, n).bytes
  {
    WriteFieldsPrefix(fields, values, table, enc, i, n);
    WriteFieldsPrefix(fields, values, table, enc, i + 1, n);
    WriteFieldsStep(fields, values, table, enc, i);
  }

  /** Writing n fields succeeds exactly when none of them raises. */
  lemma WriteFieldsSucceeds(fields: seq<Field>, values: seq<Value>, table: seq<int>, enc: FieldEncoder, n: nat)
    requires n <= |fields| == |table|
    ensures WriteFields(fields, values, table, enc, n).error.None?
        <==> forall i | 0 <= i < n :: FieldWrite(fields, values, table, enc, i).Ok?
  {
    var steps := FieldWrites(fields, values, table, enc, |fields|);
    ChainSucceeds(steps, n);
    forall i | 0 <= i < n
      ensures steps[i] == FieldWrite(fields, values, table, enc, i)
    {
      FieldWritesAt(fields, values, table, enc, |fields|, i);
    }
  }

  /**
   * When field k is the first to raise, its error is the one reported and the
   * bytes of the fields before it are already on the stream.
   */
  lemma FirstFailureReported(fields: seq<Field>, values: seq<Value>, table: seq<int>, enc: FieldEncoder, k: nat, n: nat)
    requires k < n <= |fields| == |table|
    requires WriteFields(fields, values, table, enc, k).error.None?
    requires FieldWrite(fields, values, table, enc, k).Err?
    ensures WriteFields(fields, values, table, enc, n)
         == Written(WriteFields(fields, values, table, enc, k).bytes, Some(FieldWrite(fields, values, table, enc, k).error))
  {
    var steps := FieldWrites(fields, values, table, enc, |fields|);
    FieldWritesAt(fields, values, table, enc, |fields|, k);
    ChainErrorSticks(steps, k + 1, n);
  }

  /** A successful write of n fields begins with the write of any fewer of them. */
  lemma WriteFieldsPrefix(fields: seq<Field>, values: seq<Value>, table: seq<int>, enc: FieldEncoder, m: nat, n: nat)
    requires m <= n <= |fields| == |table|
    requires WriteFields(fields, values, table, enc, n).error.None?
    ensures WriteFields(fields, values, table, enc, m).error.None?
    ensures WriteFields(fields, values, table, enc, m).bytes <= WriteFields(fields, values, table, enc, n).bytes
  {
    ChainPrefix(FieldWrites(fields, values, table, enc, |fields|), m, n);
  }

  /**
   * `serialize`: the record the serializer writes for a tuple. With fewer than
   * two intermediate schemas only the common fields are written, through source
   * 0's table, and the tuple's schema is not consulted. Otherwise only a
   * tuple of a configured schema can succeed.
   */
  function SerializeRecord(info: SerializationInfo, enc: FieldEncoder, t: Tuple): (r: Written)
    requires info.Valid()
    ensures r.error.None? ==> info.NumSchemas() < 2 || t.schema.name in info.schemaIds
  {
    var common := info.commonSchema.fields;
    if info.NumSchemas() < 2 then
      WriteFields(common, t.values, info.commonTranslation[0], enc, |common|)
    else if t.schema.name !in info.schemaIds then
      Written([], Some(UnknownSchema(t.schema.name)))
    else
      var id := info.schemaIds[t.schema.name];
      var c := WriteFields(common, t.values, info.commonTranslation[id], enc, |common|);
      if c.error.Some? then c
      else
        var specific := info.specificSchemas[id].fields;
        var s := WriteFields(specific, t.values, info.specificTranslation[id], enc, |specific|);
        Written(c.bytes + EncodeVLong(id) + s.bytes, s.error)
  }

  /**
   * Whatever is written for a tuple the serializer accepts, even when a field
   * fails, begins with the common part written through the common table of
   * the tuple's source (source 0 with one intermediate schema).
   */
  lemma CommonPartLeads(info: SerializationInfo, enc: FieldEncoder, t: Tuple)
    requires info.Valid() && (info.NumSchemas() < 2 || t.schema.name in info.schemaIds)
    ensures var id := if info.NumSchemas() < 2 then 0 else info.schemaIds[t.schema.name];
            var common := info.commonSchema.fields;
            WriteFields(common, t.values, info.commonTranslation[id], enc, |common|).bytes <= SerializeRecord(info, enc, t).bytes
  {
  }

  /** Appending a record made of three parts is appending the parts in turn. */
  lemma AppendThree(before: seq<Byte>, a: seq<Byte>, b: seq<Byte>, c: seq<Byte>)
    ensures before + (a + b + c) == before + a + b + c
  {
  }

  /** The record of a tuple of a configured source: its common part, and when that succeeds the id and the specific part. */
  lemma KnownSourceRecord(info: SerializationInfo, enc: FieldEncoder, t: Tuple)
    requires info.Valid() && info.NumSchemas() >= 2 && t.schema.name in info.schemaIds
    ensures var id := info.schemaIds[t.schema.name];
            var common := WriteFields(info.commonSchema.fields, t.values, info.commonTranslation[id], enc, |info.commonSchema.fields|);
            var specific := WriteFields(info.specificSchemas[id].fields, t.values, info.specificTranslation[id], enc, |info.specificSchemas[id].fields|);
            SerializeRecord(info, enc, t) == if common.error.Some? then common else Written(common.bytes + EncodeVLong(id) + specific.bytes, specific.error)
  {
  }

  /** With one intermediate schema the record depends only on the tuple's values, not its schema. */
  lemma SingleSourceIgnoresSchema(info: SerializationInfo, enc: FieldEncoder, t1: Tuple, t2: Tuple)
    requires info.Valid() && info.NumSchemas() < 2
    requires t1.values == t2.values
    ensures SerializeRecord(info, enc, t1) == SerializeRecord(info, enc, t2)
  {
  }

  /** A tuple of an unconfigured schema is rejected before any byte is written. */
  lemma UnknownSchemaRejected(info: SerializationInfo, enc: FieldEncoder, t: Tuple)
    requires info.Valid() && info.NumSchemas() >= 2
    requires t.schema.name !in info.schemaIds
    ensures SerializeRecord(info, enc, t) == Written([], Some(UnknownSchema(t.schema.name)))
  {
  }

  /**
   * With several intermediate schemas a serialized record is the common part,
   * then the source id (which reads back with readVInt right after the common
   * part), then the specific part, each written through that source's tables.
   */
  lemma MultiSourceLayout(info: SerializationInfo, enc: FieldEncoder, t: Tuple)
    requires info.Valid() && info.NumSchemas() >= 2
    requires SerializeRecord(info, enc, t).error.None?
    ensures t.schema.name in info.schemaIds
    ensures var id := info.schemaIds[t.schema.name];
            var common := WriteFields(info.commonSchema.fields, t.values, info.commonTranslation[id], enc, |info.commonSchema.fields|).bytes;
            var specific := WriteFields(info.specificSchemas[id].fields, t.values, info.specificTranslation[id], enc, |info.specificSchemas[id].fields|).bytes;
            && SerializeRecord(info, enc, t).bytes == common + EncodeVLong(id) + specific
            && ReadVInt(SerializeRecord(info, enc, t).bytes, |common|) == Ok(id)
  {
    var id := info.schemaIds[t.schema.name];
    var common := WriteFields(info.commonSchema.fields, t.values, info.commonTranslation[id], enc, |info.commonSchema.fields|).bytes;
    var specific := WriteFields(info.specificSchemas[id].fields, t.values, info.specificTranslation[id], enc, |info.specificSchemas[id].fields|).bytes;
    VIntRoundTrip(id, common, specific);
  }

  /** PangoolSerializer: an output stream, a reused scratch buffer and the configuration. */
  class PangoolSerializer {
    const info: SerializationInfo
    const codec: ObjectCodec
    /** How this serializer writes one field. */
    const encoder: FieldEncoder
    const isMultipleSources: bool
    /** The bytes written to the output stream so far. */
    var out: seq<Byte>
    /** tmpOutputBuffer: where a custom object is serialized before its length is known. */
    var tmpOutputBuffer: seq<Byte>

    ghost predicate Valid()
    {
      info.Valid() && isMultipleSources == (info.NumSchemas() >= 2) && encoder == Encoder(codec)
    }

    constructor (codec: ObjectCodec, info: SerializationInfo)
      requires info.Valid()
      ensures Valid()
      ensures this.info == info && this.codec == codec
      ensures isMultipleSources == (info.NumSchemas() >= 2)
      ensures out == [] && tmpOutputBuffer == []
    {
      this.codec := codec;
      this.encoder := Encoder(codec);
      this.info := info;
      this.isMultipleSources := info.NumSchemas() >= 2;
      out := [];
      tmpOutputBuffer := [];
    }

    method Serialize(tuple: Tuple) returns (error: Option<SerError>)
      requires Valid()
      modifies this
      ensures out == old(out) + SerializeRecord(info, encoder, tuple).bytes
      ensures error == SerializeRecord(info, encoder, tuple).error
    {
      if isMultipleSources {
        error := MultipleSourcesSerialization(tuple);
      } else {
        error := OneSourceSerialization(tuple);
      }
    }

    method OneSourceSerialization(tuple: Tuple) returns (error: Option<SerError>)
      requires Valid() && !isMultipleSources
      modifies this
      ensures out == old(out) + SerializeRecord(info, encoder, tuple).bytes
      ensures error == SerializeRecord(info, encoder, tuple).error
    {
      var commonTranslation := info.commonTranslation[0];
      error := Write(info.commonSchema, tuple, commonTranslation);
    }

    method MultipleSourcesSerialization(tuple: Tuple) returns (error: Option<SerError>)
      requires Valid() && isMultipleSources
      modifies this
      ensures out == old(out) + SerializeRecord(info, encoder, tuple).bytes
      ensures error == SerializeRecord(info, encoder, tuple).error
    {
      var sourceName := tuple.schema.name;
      if sourceName !in info.schemaIds {
        return Some(UnknownSchema(sourceName));
      }
      var sourceId := info.schemaIds[sourceName];
      var commonSchema := info.commonSchema;
      var specificSchema := info.specificSchemas[sourceId];
      var commonTable := info.commonTranslation[sourceId];
      var specificTable := info.specificTranslation[sourceId];
      ghost var common := WriteFields(commonSchema.fields, tuple.values, commonTable, encoder, |commonSchema.fields|);
      ghost var specific := WriteFields(specificSchema.fields, tuple.values, specificTable, encoder, |specificSchema.fields|);
      KnownSourceRecord(info, encoder, tuple);
      error := Write(commonSchema, tuple, commonTable);
      if error.Some? {
        return;
      }
      ghost var afterCommon := out;
      WriteVLong(sourceId);
      error := Write(specificSchema, tuple, specificTable);
      assert out == afterCommon + EncodeVLong(sourceId) + specific.bytes;
      AppendThree(old(out), common.bytes, EncodeVLong(sourceId), specific.bytes);
    }

    /** WritableUtils.writeVLong / writeVInt on the output stream. */
    method WriteVLong(v: Int64)
      modifies this
      ensures out == old(out) + EncodeVLong(v)
      ensures tmpOutputBuffer == old(tmpOutputBuffer)
    {
      out := out + EncodeVLong(v);
    }

    /** `write`: every field of the destination schema, in order, until one raises. */
    method Write(schema: Schema, tuple: Tuple, table: seq<int>) returns (error: Option<SerError>)
      requires Valid()
      requires |table| == |schema.fields|
      modifies this
      ensures out == old(out) + WriteFields(schema.fields, tuple.values, table, encoder, |schema.fields|).bytes
      ensures error == WriteFields(schema.fields, tuple.values, table, encoder, |schema.fields|).error
    {
      var fields := schema.fields;
      ghost var steps := FieldWrites(fields, tuple.values, table, encoder, |fields|);
      var i := 0;
      while i < |fields|
        invariant 0 <= i <= |fields|
        invariant Chain(steps, i).error.None?
        invariant out == old(out) + Chain(steps, i).bytes
      {
        error := WriteTranslated(fields, tuple, table, i, steps);
        if error.Some? {
          ChainErrorSticks(steps, i + 1, |fields|);
          assert WriteFields(fields, tuple.values, table, encoder, |fields|) == Chain(steps, i + 1);
          return;
        }
        i := i + 1;
      }
      assert WriteFields(fields, tuple.values, table, encoder, |fields|) == Chain(steps, i);
      error := None;
    }

    /** One iteration of `write`'s loop: look up `tuple.get(translationTable[i])` and write it. */
    method WriteTranslated(fields: seq<Field>, tuple: Tuple, table: seq<int>, i: nat, ghost steps: seq<Result<seq<Byte>, SerError>>)
      returns (error: Option<SerError>)
      requires Valid()
      requires i < |fields| == |table|
      requires steps == FieldWrites(fields, tuple.values, table, encoder, |fields|)
      modifies this
      ensures error == (if steps[i].Err? then Some(steps[i].error) else None)
      ensures out == old(out) + (if steps[i].Ok? then steps[i].value else [])
    {
      FieldWritesAt(fields, tuple.values, table, encoder, |fields|, i);
      var field := fields[i];
      var position := table[i];
      if !(0 <= position < |tuple.values|) {
        error := Some(NoSuchPosition(field, position));
      } else {
        error := WriteField(field, tuple.values[position]);
      }
    }

    /** The body of `write`'s loop for one field: the switch on the field's type. */
    method WriteField(field: Field, element: Value) returns (error: Option<SerError>)
      modifies this
      ensures error == (if EncodeField(field, element, codec).Err? then Some(EncodeField(field, element, codec).error) else None)
      ensures out == old(out) + (if error.None? then EncodeField(field, element, codec).value else [])
    {
      ghost var r := EncodeField(field, element, codec);
      error := None;
      match field.ftype {
        case IntType =>
          if element.IntValue? { WriteVLong(element.i); } else { error := Some(Mistyped(field, element)); }
        case LongType =>
          if element.LongValue? { WriteVLong(element.l); } else { error := Some(Mistyped(field, element)); }
        case DoubleType =>
          if element.DoubleValue? { out := out + BigEndian(element.doubleBits, 8); } else { error := Some(Mistyped(field, element)); }
        case FloatType =>
          if element.FloatValue? { out := out + BigEndian(element.floatBits, 4); } else { error := Some(Mistyped(field, element)); }
        case StringType =>
          if element.StringValue? {
            WriteVLong(|element.utf8|);
            out := out + element.utf8;
          } else {
            error := Some(Mistyped(field, element));
          }
        case BooleanType =>
          if element.BoolValue? { out := out + [if element.b then 1 else 0]; } else { error := Some(Mistyped(field, element)); }
        case EnumType(_) =>
          if element.EnumValue? || element.Null? {
            error := WriteEnum(element, field);
          } else {
            error := Some(WrongType(field, element));
          }
        case ObjectType(_) =>
          WriteCustomObject(element);
      }
    }

    /** writeCustomObject: refill the scratch buffer with the blob, then write its length and the blob. */
    method WriteCustomObject(element: Value)
      modifies this
      ensures out == old(out) + EncodeObject(element, codec)
      ensures tmpOutputBuffer == if element.Null? then old(tmpOutputBuffer) else codec.ser(element)
    {
      if element.Null? {
        WriteVLong(NULL_LENGTH);
      } else {
        ghost var before := out;
        ghost var blob := codec.ser(element);
        tmpOutputBuffer := [];
        tmpOutputBuffer := tmpOutputBuffer + codec.ser(element);
        assert tmpOutputBuffer == blob;
        WriteVLong(|tmpOutputBuffer|);
        out := out + tmpOutputBuffer;
        assert out == before + (EncodeVLong(|blob|) + blob);
      }
    }

    /** writeEnum: the ordinal as a vint, after checking the constant's class against the field's. */
    method WriteEnum(element: Value, field: Field) returns (error: Option<SerError>)
      requires field.ftype.EnumType?
      requires element.EnumValue? || element.Null?
      modifies this
      ensures error == (if EncodeField(field, element, codec).Err? then Some(EncodeField(field, element, codec).error) else None)
      ensures out == old(out) + (if error.None? then EncodeVLong(element.ordinal) else [])
      ensures tmpOutputBuffer == old(tmpOutputBuffer)
    {
      if element.Null? {
        return Some(NullValue(field));
      }
      if element.enumClass != field.ftype.enumClass {
        return Some(EnumClassMismatch(field, element));
      }
      WriteVLong(element.ordinal);
      error := None;
    }
  }
}
