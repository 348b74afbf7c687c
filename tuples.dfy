/**
 * The tuple data model: typed, named, ordered fields; positional tuples whose
 * values are Java objects; and the serialization information that the
 * configuration builder derives (common schema, per-source specific schemas and
 * index-translation tables), taken here as given.
 */
module Tuples {
  import opened Wire

  /** Schema.Field.Type: the field types a tuple can carry. */
  datatype FieldType =
    | IntType
    | LongType
    | FloatType
    | DoubleType
    | StringType
    | BooleanType
    | EnumType(enumClass: string)
    | ObjectType(objectClass: string)

  datatype Field = Field(name: string, ftype: FieldType)

  datatype Schema = Schema(name: string, fields: seq<Field>)

  /** A byte array whose length fits a Java int. */
  type Bytes = s: seq<Byte> | |s| <= 0x7fff_ffff

  /** IEEE-754 bit patterns, carried opaquely. */
  type Bits32 = x: int | 0 <= x < 0x1_0000_0000
  type Bits64 = x: int | 0 <= x < 0x1_0000_0000_0000_0000

  type Ordinal = x: int | 0 <= x <= 0x7fff_ffff

  /**
   * The Java object held at one tuple position. Strings are their UTF-8 bytes;
   * an enum constant is its class and ordinal; a custom object is its class and
   * an abstract state; Null is Java's null.
   */
  datatype Value =
    | IntValue(i: Int32)
    | LongValue(l: Int64)
    | FloatValue(floatBits: Bits32)
    | DoubleValue(doubleBits: Bits64)
    | StringValue(utf8: Bytes)
    | BoolValue(b: bool)
    | EnumValue(enumClass: string, ordinal: Ordinal)
    | ObjectValue(objectClass: string, state: seq<int>)
    | Null

  /** ITuple: a schema plus the values at its positions. */
  datatype Tuple = Tuple(schema: Schema, values: seq<Value>)

  /** Whether a value's runtime class is the one a field of type t declares. */
  predicate HasType(v: Value, t: FieldType)
  {
    match t
    case IntType => v.IntValue?
    case LongType => v.LongValue?
    case FloatType => v.FloatValue?
    case DoubleType => v.DoubleValue?
    case StringType => v.StringValue?
    case BooleanType => v.BoolValue?
    case EnumType(c) => v.EnumValue? && v.enumClass == c
    case ObjectType(c) => v.Null? || (v.ObjectValue? && v.objectClass == c)
  }

  /**
   * The pluggable serialization of custom objects (HadoopSerialization's ser and
   * deser): ser writes a blob, deser reads one back for the declared class.
   */
  datatype ObjectCodec = ObjectCodec(ser: Value -> Bytes, deser: (string, seq<Byte>) -> Value)

  /** The per-class arrays of enum constants, built once per configuration. */
  type EnumCache = map<string, seq<Value>>

  /** The cache's k-th constant of a class is the constant of that class with ordinal k. */
  ghost predicate EnumCacheValid(enums: EnumCache)
  {
    forall c | c in enums ::
      |enums[c]| <= 0x8000_0000 && forall k | 0 <= k < |enums[c]| :: enums[c][k] == EnumValue(c, k)
  }

  /**
   * A value that reads back as itself: it has the field's type, an enum
   * constant is in the cache, and a custom object survives its codec.
   */
  ghost predicate Decodable(v: Value, t: FieldType, enums: EnumCache, codec: ObjectCodec)
  {
    && HasType(v, t)
    && (v.EnumValue? ==> v.enumClass in enums && v.ordinal < |enums[v.enumClass]|)
    && (v.ObjectValue? ==> codec.deser(v.objectClass, codec.ser(v)) == v)
  }

  /**
   * The serialization information: the common schema, the intermediate schema
   * names with their source ids, and per source id the common-schema
   * translation table, the specific schema and its translation table.
   */
  datatype SerializationInfo = SerializationInfo(
    commonSchema: Schema,
    schemaIds: map<string, nat>,
    commonTranslation: seq<seq<int>>,
    specificSchemas: seq<Schema>,
    specificTranslation: seq<seq<int>>)
  {
    function NumSchemas(): nat
    {
      |commonTranslation|
    }

    /** Every source id has its tables, and each table is as long as its schema. */
    ghost predicate Valid()
    {
      && 1 <= |commonTranslation| <= MAX_INT
      && |specificSchemas| == |commonTranslation|
      && |specificTranslation| == |commonTranslation|
      && (forall n | n in schemaIds :: schemaIds[n] < |commonTranslation|)
      && (forall s | 0 <= s < |commonTranslation| ::
            |commonTranslation[s]| == |commonSchema.fields|
            && |specificTranslation[s]| == |specificSchemas[s].fields|)
    }
  }

  /** The values a translation table picks out, in destination order: `tuple.get(table[i])`. */
  function Project(values: seq<Value>, table: seq<int>, n: nat): (r: seq<Value>)
    requires n <= |table|
    requires forall i | 0 <= i < n :: 0 <= table[i] < |values|
    ensures |r| == n
    ensures forall i | 0 <= i < n :: r[i] == values[table[i]]
  {
    if n == 0 then [] else Project(values, table, n - 1) + [values[table[n - 1]]]
  }
}
