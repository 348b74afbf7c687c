# Pangool tuple codec, group comparator and rollup reducer in Dafny

This project models four pieces of Pangool, a tuple-oriented layer over
Hadoop MapReduce:

- **Tuple serialization** (`PangoolSerializer`). A tuple is written as
  the fields of the common schema, translated through the schema's
  translation table. With two or more intermediate schemas, the common
  fields are followed by the schema's source id, as a variable-length
  integer, and then by the schema's specific fields. Each field is
  encoded by its declared type:
  - int, long and enum ordinals are variable-length integers;
  - floats and doubles are fixed-width words;
  - strings are a length prefix followed by the UTF-8 bytes;
  - booleans are one byte;
  - objects are a length prefix (the null sentinel for null) followed
    by the external serializer's bytes.

  Writing stops at the first field that fails. A null in a non-object
  field, a value of the wrong type, an enum of another class and an
  unknown schema are distinct errors.
- **Field deserialization** (`SingleFieldDeserializer`). This reads one
  field of a given type at an offset. The model proves that every field
  the serializer writes reads back to the same value, at any position
  and in any context, and that a whole record written by the serializer
  decodes back to the projected tuple.
- **Group comparison** (`GroupComparator`). The group criteria are the
  first `n` elements of the common sort criteria. Comparison is
  lexicographic over the criteria, either on tuple objects or on
  serialized records. The model proves:
  - the comparison is antisymmetric whenever the per-field comparators
    are;
  - two keys that are equal under the sort criteria are equal under the
    group criteria;
  - comparing the serialized bytes gives the same answer as comparing
    the tuples they were written from.
- **Rollup** (`RollupReducer`). For each group the reducer finds the
  first group-by depth (between the partitioner depth and the deepest
  group-by field) at which the key differs from the previous group's
  last key. It closes the open groups from the deepest depth up to that
  depth, opens groups from that depth down to the deepest one, hands
  the elements over, and finally drains the group's iterator. The end
  of the run closes everything still open. The model proves, over a
  whole run of consecutive groups that differ on the rollup depths:
  - opens and closes nest properly;
  - every open group is closed at the end;
  - every group is handed over exactly once.

  The scan for the mismatch calls `equals` on the previous key, so a
  null there, at a depth the scan reaches, makes the group fail. With no
  partitioner fields the partitioner depth is -1, and the first group (or
  the end of an empty run) fails on the field lookup at depth -1.

Values are `datatype`s and each Java object that updates its fields in
place is a `class`: `PangoolSerializer` appends to an output buffer,
`SingleFieldDeserializer` keeps a reusable instance, `GroupComparator`
keeps its group criteria, and `RollupReducer` keeps its first-iteration
flag, current key and the event log of handler calls. Each class method
is proved against a specification function, and the properties are
proved as lemmas about those functions.

Files:
- `results.dfy`: the Result type.
- `wire.dfy`: the Hadoop variable-length integer codec and big-endian
  words.
- `tuples.dfy`: schemas, values, tuples and the serialization info.
- `serializer.dfy`: `PangoolSerializer`.
- `fielddeserializer.dfy`: `SingleFieldDeserializer` and the record
  round trip.
- `comparison.dfy`: `GroupComparator`.
- `rollup.dfy`: `RollupReducer`.

Pangool's documentation presents the serialized form as one that sorts
bytewise; the code does not, and the model follows the code:
- Integers use Hadoop's plain variable-length encoding as written. This
  encoding does not preserve numeric order bytewise for negative
  values. The model therefore compares serialized records by decoding
  them, not by comparing raw bytes, and proves that this decoding
  comparison agrees with comparing the tuples.
- The rollup reducer is modelled with its behaviour as written in its
  edge cases, each stated as a lemma (`MismatchOutsideRangeFails`,
  `EmptyRunClosesUnopened`, `NullInPreviousKeyFails`,
  `NoPartitionerFieldsFails`, `PartitionerBeyondGroupBy`). Three of them:
  - When two consecutive groups agree on every depth from the
    partitioner depth to the deepest group-by field, `indexMismatch`
    returns -1. The reducer then closes every depth from the deepest
    down to 0 and fails on the field lookup at index -1.
  - A run with no groups still closes every depth from the deepest to
    the partitioner depth, with no current key, although none was
    opened.
  - With more partitioner fields than group-by fields nothing is ever
    opened. A second group still closes every depth from the deepest
    down to 0, because `indexMismatch` scans an empty range and returns
    -1, and then fails on the field lookup at index -1.

## Model

| member | source | states |
|---|---|---|
| Wire.EncodeVLong | core/src/main/java/com/datasalt/pangool/serialization/tuples/PangoolSerializer.java:124-127 | the variable-length encoding takes 1 to 9 bytes, exactly one byte iff the value is in -112..127, its first byte announces its total size, and the first byte marks the sign |
| Wire.VLongRoundTrip | core/src/main/java/com/datasalt/pangool/serialization/tuples/SingleFieldDeserializer.java:118-120 | reading a long back at the position it was written gives the same value, whatever bytes surround it |
| Wire.VIntRoundTrip | core/src/main/java/com/datasalt/pangool/serialization/tuples/SingleFieldDeserializer.java:109-111 | reading an int back at the position it was written gives the same value, whatever bytes surround it |
| Wire.DecodeVIntSize | core/src/main/java/com/datasalt/pangool/serialization/tuples/SingleFieldDeserializer.java:115 | the total length of a variable-length integer, read from its first byte, is between 1 and 9 bytes |
| Wire.ReadVLong | core/src/main/java/com/datasalt/pangool/serialization/tuples/SingleFieldDeserializer.java:118-120 | a long is read only when its first byte and every byte it announces lie inside the array; otherwise the read fails |
| Wire.ReadVInt | core/src/main/java/com/datasalt/pangool/serialization/tuples/SingleFieldDeserializer.java:109-111 | an int (the long read narrowed to 32 bits) is read only when all its bytes lie inside the array; otherwise the read fails |
| Wire.BigEndianRoundTrip | core/src/main/java/com/datasalt/pangool/serialization/tuples/SingleFieldDeserializer.java:125-130 | a fixed-width word written big-endian reads back as the same number |
| Tuples.Project | core/src/main/java/com/datasalt/pangool/serialization/tuples/PangoolSerializer.java:121 | the i-th serialized field is the tuple's value at the translation table's i-th position |
| Serializer.EncodeFieldOutcome | core/src/main/java/com/datasalt/pangool/serialization/tuples/PangoolSerializer.java:122-190 | a field encodes iff it is an object field or the value has the declared type; otherwise null gives the null error, an enum of another class the enum-class error, and any other value the wrong-type error; a boolean encodes as the single byte 1 or 0 |
| Serializer.WriteFieldsSucceeds | core/src/main/java/com/datasalt/pangool/serialization/tuples/PangoolSerializer.java:115-158 | writing a schema's fields succeeds iff every field write succeeds |
| Serializer.FirstFailureReported | core/src/main/java/com/datasalt/pangool/serialization/tuples/PangoolSerializer.java:152-155 | the error reported is that of the first failing field, and the bytes already written are those of the fields before it |
| Serializer.WriteFieldsAppend | core/src/main/java/com/datasalt/pangool/serialization/tuples/PangoolSerializer.java:117-151 | in a successful write each field's bytes follow those of the fields before it, and every earlier state of the output is a prefix of the final one |
| Serializer.WriteFieldsPrefix | core/src/main/java/com/datasalt/pangool/serialization/tuples/PangoolSerializer.java:117-121 | if writing n fields succeeds, writing the first m succeeds too and its output is a prefix |
| Serializer.SerializeRecord | core/src/main/java/com/datasalt/pangool/serialization/tuples/PangoolSerializer.java:66-97 | with two or more intermediate schemas, only a tuple of a configured schema can be serialized without error |
| Serializer.CommonPartLeads | core/src/main/java/com/datasalt/pangool/serialization/tuples/PangoolSerializer.java:75-90 | whatever is written for an accepted tuple, even when a later field fails, begins with its common fields written through its source's common table |
| Serializer.SingleSourceIgnoresSchema | core/src/main/java/com/datasalt/pangool/serialization/tuples/PangoolSerializer.java:75-79 | with one intermediate schema, the record depends only on the tuple's values, not on its schema name |
| Serializer.UnknownSchemaRejected | core/src/main/java/com/datasalt/pangool/serialization/tuples/PangoolSerializer.java:82-86 | with several schemas, a tuple whose schema is not configured writes nothing and reports the unknown-schema error |
| Serializer.MultiSourceLayout | core/src/main/java/com/datasalt/pangool/serialization/tuples/PangoolSerializer.java:81-97 | with several schemas, a successful record is the common fields, then the schema's id, then the specific fields, and the id reads back right after the common part |
| Serializer.PangoolSerializer.constructor | core/src/main/java/com/datasalt/pangool/serialization/tuples/PangoolSerializer.java:50-56 | the serializer keeps the codec and serialization info, starts with empty buffers, and is multi-source iff there are two or more schemas |
| Serializer.PangoolSerializer.Serialize | core/src/main/java/com/datasalt/pangool/serialization/tuples/PangoolSerializer.java:66-73 | appends exactly the record's bytes to the output and reports its error |
| Serializer.PangoolSerializer.OneSourceSerialization | core/src/main/java/com/datasalt/pangool/serialization/tuples/PangoolSerializer.java:75-79 | appends the common fields translated through the first table |
| Serializer.PangoolSerializer.MultipleSourcesSerialization | core/src/main/java/com/datasalt/pangool/serialization/tuples/PangoolSerializer.java:81-97 | appends common fields, source id and specific fields, and stops at the first error |
| Serializer.PangoolSerializer.WriteVLong | core/src/main/java/com/datasalt/pangool/serialization/tuples/PangoolSerializer.java:91 | appends the variable-length encoding of the source id |
| Serializer.PangoolSerializer.Write | core/src/main/java/com/datasalt/pangool/serialization/tuples/PangoolSerializer.java:115-158 | the loop appends the fields' bytes in schema order up to the first failing field and reports that field's error |
| Serializer.PangoolSerializer.WriteTranslated | core/src/main/java/com/datasalt/pangool/serialization/tuples/PangoolSerializer.java:117-121 | one loop step appends the i-th field's bytes or reports its error |
| Serializer.PangoolSerializer.WriteField | core/src/main/java/com/datasalt/pangool/serialization/tuples/PangoolSerializer.java:122-156 | writing one field appends its encoding, or nothing and the field's error |
| Serializer.PangoolSerializer.WriteCustomObject | core/src/main/java/com/datasalt/pangool/serialization/tuples/PangoolSerializer.java:160-170 | a null object is written as the null length alone; otherwise the external serializer's bytes go through the temporary buffer and are appended after their length |
| Serializer.PangoolSerializer.WriteEnum | core/src/main/java/com/datasalt/pangool/serialization/tuples/PangoolSerializer.java:172-181 | an enum of the declared class is written as its ordinal; another class or null is an error and writes nothing |
| FieldDeserializer.DeserializeField | core/src/main/java/com/datasalt/pangool/serialization/tuples/SingleFieldDeserializer.java:107-143 | a field is read successfully only at an offset inside the buffer; every type reads its first byte there |
| FieldDeserializer.NegativeLengthRead | core/src/main/java/com/datasalt/pangool/serialization/tuples/SingleFieldDeserializer.java:112-139 | a negative length prefix makes a string field fail with the negative-length error and makes a custom object field read as null |
| FieldDeserializer.DeserializedType | core/src/main/java/com/datasalt/pangool/serialization/tuples/SingleFieldDeserializer.java:107-142 | a successfully read non-object field has the declared type |
| FieldDeserializer.FieldInBounds | core/src/main/java/com/datasalt/pangool/serialization/tuples/SingleFieldDeserializer.java:107-142 | a successful read lies entirely inside the buffer |
| FieldDeserializer.IntFieldRoundTrip | core/src/main/java/com/datasalt/pangool/serialization/tuples/SingleFieldDeserializer.java:109-111 | an int field reads back as written, with the size of its encoding |
| FieldDeserializer.LongFieldRoundTrip | core/src/main/java/com/datasalt/pangool/serialization/tuples/SingleFieldDeserializer.java:118-120 | a long field reads back as written |
| FieldDeserializer.StringFieldRoundTrip | core/src/main/java/com/datasalt/pangool/serialization/tuples/SingleFieldDeserializer.java:112-117 | a string field reads back as its length-prefixed bytes |
| FieldDeserializer.EnumFieldRoundTrip | core/src/main/java/com/datasalt/pangool/serialization/tuples/SingleFieldDeserializer.java:121-124 | an enum field reads back through the enum cache as the same constant |
| FieldDeserializer.FloatFieldRoundTrip | core/src/main/java/com/datasalt/pangool/serialization/tuples/SingleFieldDeserializer.java:125-127 | a float field reads back as the same 4-byte word |
| FieldDeserializer.DoubleFieldRoundTrip | core/src/main/java/com/datasalt/pangool/serialization/tuples/SingleFieldDeserializer.java:128-130 | a double field reads back as the same 8-byte word |
| FieldDeserializer.BooleanFieldRoundTrip | core/src/main/java/com/datasalt/pangool/serialization/tuples/SingleFieldDeserializer.java:131-133 | a boolean field reads back as written |
| FieldDeserializer.NullFieldRoundTrip | core/src/main/java/com/datasalt/pangool/serialization/tuples/SingleFieldDeserializer.java:134-141 | a null object field reads back as null from its length sentinel |
| FieldDeserializer.ObjectFieldRoundTrip | core/src/main/java/com/datasalt/pangool/serialization/tuples/SingleFieldDeserializer.java:134-141 | a non-null object reads back through the external deserializer when that serializer round-trips |
| FieldDeserializer.FieldRoundTrip | core/src/main/java/com/datasalt/pangool/serialization/tuples/SingleFieldDeserializer.java:107-142 | every encodable field of every type reads back to the same value, consuming exactly its encoded bytes, whatever surrounds it |
| FieldDeserializer.FieldReadsBack | core/src/main/java/com/datasalt/pangool/serialization/tuples/SingleFieldDeserializer.java:107-142 | the field reader inverts the field writer at any offset where the encoding appears |
| FieldDeserializer.RecordRoundTrip | core/src/test/java/com/datasalt/pangool/io/tuple/TestPangoolSerialization.java:53-63 | for any field writer and reader that round-trip each field, decoding a written record yields the projected tuple values and ends exactly at the record's end |
| FieldDeserializer.RecordReadsBack | core/src/test/java/com/datasalt/pangool/io/tuple/TestPangoolSerialization.java:53-63 | a schema's fields written by the serializer decode back, field by field, to the tuple's projected values |
| FieldDeserializer.NewInstance | core/src/main/java/com/datasalt/pangool/serialization/tuples/SingleFieldDeserializer.java:64-73 | a reusable instance exists exactly for string and object fields, and it is a non-null value of that type |
| FieldDeserializer.SingleFieldDeserializer.constructor | core/src/main/java/com/datasalt/pangool/serialization/tuples/SingleFieldDeserializer.java:53-62 | keeps the codec, enum cache and field type and creates the reusable instance |
| FieldDeserializer.SingleFieldDeserializer.Deserialize | core/src/main/java/com/datasalt/pangool/serialization/tuples/SingleFieldDeserializer.java:82-84 | returns the static deserialization of the field and keeps the value read as the new instance for reusable types |
| Comparison.CompareFromMeaning | core/src/main/java/com/datasalt/pangool/mapreduce/GroupComparator.java:24-30 | the criteria comparison returns 0 iff every criterion compares equal, and otherwise the result of the first criterion that does not |
| Comparison.CompareFromAntisymmetric | core/src/test/java/com/datasalt/pangool/mapreduce/TestComparators.java:164-172 | swapping the two tuples negates the sign of the comparison when every per-field comparator is antisymmetric |
| Comparison.GroupRefinesSort | core/src/main/java/com/datasalt/pangool/mapreduce/GroupComparator.java:46-51 | a nonzero group comparison equals the sort comparison, so keys equal under the sort criteria are equal under the group criteria |
| Comparison.SourceKey | core/src/main/java/com/datasalt/pangool/mapreduce/GroupComparator.java:24-30 | the compared key exists iff the tuple's schema is known and its common positions are in range, and then it holds the tuple's values at those positions |
| Comparison.TuplesAntisymmetric | core/src/test/java/com/datasalt/pangool/mapreduce/TestComparators.java:164-172 | comparing two tuples in either order fails or succeeds together, with opposite signs |
| Comparison.RawAntisymmetric | core/src/test/java/com/datasalt/pangool/mapreduce/TestComparators.java:174-181 | comparing two serialized records in either order fails or succeeds together, with opposite signs |
| Comparison.RawAgrees | core/src/main/java/com/datasalt/pangool/mapreduce/GroupComparator.java:33-40 | comparing records field by field from their bytes gives the comparison of the values decoded from them |
| Comparison.KeyLayout | core/src/main/java/com/datasalt/pangool/mapreduce/GroupComparator.java:33-40 | the first fields of a serialized record decode, in order, to the tuple's common key |
| Comparison.BytesAgreeWithObjects | core/src/test/java/com/datasalt/pangool/mapreduce/TestComparators.java:140-159 | comparing two serialized tuples gives the same result as comparing the tuples themselves |
| Comparison.CompareObjectsExamples | core/src/test/java/com/datasalt/pangool/mapreduce/TestComparators.java:269-275 | a custom comparator decides the order when present and natural order is used otherwise, on concrete values |
| Comparison.CustomComparatorOverrides | core/src/test/java/com/datasalt/pangool/mapreduce/TestComparators.java:284-296 | a reversing comparator on an int criterion reverses the criteria comparison |
| Comparison.GroupComparator.constructor | core/src/main/java/com/datasalt/pangool/mapreduce/GroupComparator.java:21 | starts with no group criteria |
| Comparison.GroupComparator.SetConf | core/src/main/java/com/datasalt/pangool/mapreduce/GroupComparator.java:43-54 | the group criteria are exactly the first numGroupByFields common sort criteria |
| Comparison.GroupComparator.Compare | core/src/main/java/com/datasalt/pangool/mapreduce/GroupComparator.java:24-30 | compares the group key of each tuple with the group criteria, failing iff a key cannot be formed |
| Comparison.GroupComparator.CompareBytes | core/src/main/java/com/datasalt/pangool/mapreduce/GroupComparator.java:33-40 | compares the serialized records from their starts with the group criteria |
| Rollup.FirstMismatch | core/src/main/java/com/datasalt/pangool/mapreduce/RollupReducer.java:165-173 | the first depth where two keys differ is -1 or lies in the scanned range |
| Rollup.FirstMismatchSpec | core/src/main/java/com/datasalt/pangool/mapreduce/RollupReducer.java:165-173 | the first mismatch is -1 iff the keys agree on every depth in range; otherwise the keys differ there and agree before it |
| Rollup.ScanMismatch | core/src/main/java/com/datasalt/pangool/mapreduce/RollupReducer.java:165-173 | the scan as written returns -1 or a depth in the scanned range, which is then non-negative, or throws |
| Rollup.ScanMismatchSpec | core/src/main/java/com/datasalt/pangool/mapreduce/RollupReducer.java:165-173 | the scan throws iff it reaches a null in the previous key, every earlier depth being equal; otherwise it returns the first mismatch |
| Rollup.ScanAgreeing | core/src/main/java/com/datasalt/pangool/mapreduce/RollupReducer.java:165-173 | keys agreeing on every scanned depth make the scan return -1 when the previous key holds no null there, and throw otherwise |
| Rollup.ReduceStep | core/src/main/java/com/datasalt/pangool/mapreduce/RollupReducer.java:126-128 | after any group the run is no longer in its first iteration and its state stays well formed |
| Rollup.ReduceAll | core/src/main/java/com/datasalt/pangool/mapreduce/RollupReducer.java:102-104 | after any number of groups the run's state stays well formed |
| Rollup.ReduceAllPosition | core/src/main/java/com/datasalt/pangool/mapreduce/RollupReducer.java:149-153 | after n successful groups the run is in its first iteration iff n is 0, and the current key is the last key of the last group |
| Rollup.ReduceStepNests | core/src/main/java/com/datasalt/pangool/mapreduce/RollupReducer.java:126-147 | a group whose key differs from the previous one within the rollup depths, the previous one holding no null there, keeps every depth open after its closes, opens and hand-over |
| Rollup.ReduceAllNests | core/src/main/java/com/datasalt/pangool/mapreduce/RollupReducer.java:102-104 | over consecutive groups that differ within the rollup depths, with no null there in the earlier one's last key, no step fails and all depths stay open |
| Rollup.RunNests | core/src/main/java/com/datasalt/pangool/mapreduce/RollupReducer.java:98-115 | a whole non-empty run of such groups, with at least one partitioner field, nests its opens and closes properly and ends with nothing open |
| Rollup.CloseRunFirst | core/src/main/java/com/datasalt/pangool/mapreduce/RollupReducer.java:131-134 | closing starts at the deepest depth |
| Rollup.EmptyRunClosesUnopened | core/src/main/java/com/datasalt/pangool/mapreduce/RollupReducer.java:98-115 | a run with no groups closes every rollup depth with no key, and these closes do not nest because nothing was opened |
| Rollup.MismatchOutsideRangeFails | core/src/main/java/com/datasalt/pangool/mapreduce/RollupReducer.java:129-135 | a group agreeing with the previous key on every rollup depth fails; it first closes every depth down to 0 when the previous key holds no null there, and closes nothing otherwise |
| Rollup.NullInPreviousKeyFails | core/src/main/java/com/datasalt/pangool/mapreduce/RollupReducer.java:165-168 | a null in the previous key at a depth the scan reaches makes the group fail before any close or open |
| Rollup.NoPartitionerFieldsFails | core/src/main/java/com/datasalt/pangool/mapreduce/RollupReducer.java:98-139 | with no partitioner fields the run fails: on the first group's first open, with no event, or, with no group, after closing every depth down to 0 |
| Rollup.FirstGroupFailsWithoutPartitioner | core/src/main/java/com/datasalt/pangool/mapreduce/RollupReducer.java:126-139 | with no partitioner fields the first group fails before any event |
| Rollup.PartitionerBeyondGroupBy | core/src/main/java/com/datasalt/pangool/mapreduce/RollupReducer.java:98-173 | with more partitioner than group-by fields nothing is ever opened and the first group is handed over; a run of one group ends there with no close; a second group finds no mismatch, so it closes the deepest depth down to 0 with the first group's last key and then fails, and the run ends in that state whatever groups follow; the run fails iff there is a second group |
| Rollup.ReduceStepHandsOne | core/src/main/java/com/datasalt/pangool/mapreduce/RollupReducer.java:145-147 | each successful group hands its elements over exactly once |
| Rollup.ReduceAllHandsEachGroup | core/src/main/java/com/datasalt/pangool/mapreduce/RollupReducer.java:102-104 | after n successful groups the elements have been handed over n times |
| Rollup.RunHandsEachGroup | core/src/main/java/com/datasalt/pangool/mapreduce/RollupReducer.java:98-115 | a successful run hands over each group exactly once |
| Rollup.FailureSticks | core/src/main/java/com/datasalt/pangool/mapreduce/RollupReducer.java:98-115 | once a group fails, later groups change nothing, as the exception ends the run |
| Rollup.RollupReducer.constructor | core/src/main/java/com/datasalt/pangool/mapreduce/RollupReducer.java:67-70 | for any field lists, the deepest depth is the last group-by field and the shallowest rollup depth is the last partitioner field (-1 with none); the run starts in its first iteration with no key and no events |
| Rollup.RollupReducer.IndexMismatch | core/src/main/java/com/datasalt/pangool/mapreduce/RollupReducer.java:165-173 | the loop returns what the scan as written returns: the first depth in range where the keys differ, -1 when there is none, or a failure on a negative depth or a null in the previous key |
| Rollup.RollupReducer.CloseDepths | core/src/main/java/com/datasalt/pangool/mapreduce/RollupReducer.java:129-135 | closes from the deepest depth up to the given depth, in order, and fails iff that depth is -1, after closing down to 0 |
| Rollup.RollupReducer.OpenDepths | core/src/main/java/com/datasalt/pangool/mapreduce/RollupReducer.java:137-139 | opens from the mismatch depth down to the deepest, in order, and fails with no open when that depth is -1 |
| Rollup.RollupReducer.Drain | core/src/main/java/com/datasalt/pangool/mapreduce/RollupReducer.java:149-153 | after draining, the current key is the group's last key |
| Rollup.RollupReducer.Reduce | core/src/main/java/com/datasalt/pangool/mapreduce/RollupReducer.java:118-157 | one reduce call changes the reducer's state exactly as the step function says |
| Rollup.RollupReducer.Run | core/src/main/java/com/datasalt/pangool/mapreduce/RollupReducer.java:98-115 | the whole run, including the final closes, produces exactly the events and state of the run function |

## Left out

- Schema projection, the construction of the translation tables and the serialization info are not modelled. The tables are parameters, well formed by `SerializationInfo.Valid`.
- `PangoolSerialization`, the stream wrapper around the serializer, is not part of this model: its open/close and its `DataOutput` buffering are not modelled. The null length sentinel is -1.
- Float and double values are opaque 32- and 64-bit words. IEEE-754 arithmetic and conversions are not modelled.
- Strings are their UTF-8 bytes. `Utf8`, `Text` and helper-text transcoding are not modelled.
- The external object serializer and deserializer are functions in `ObjectCodec`. Object fields round-trip only for values on which that codec round-trips (`Decodable`).
- The sort comparator's comparison of floats, doubles, custom objects, nulls and values of different classes is a parameter (`other`, or a custom comparator). Ints, longs, booleans, strings (by their UTF-8 bytes) and enums of one class are compared by natural order.
- A translation-table entry outside the tuple is a `NoSuchPosition` error in the model, where Java would throw an index exception.
- Serializer.PangoolSerializer.WriteField: the Java catch of `NullPointerException` and `ClassCastException` is modelled by explicit null and type checks, not by exceptions.
- FieldDeserializer.SingleFieldDeserializer.Deserialize: the reusable instance is kept as a value. In-place mutation of a shared `Utf8` or object instance, and the aliasing it causes, is not modelled.
- The reducer's Hadoop context, collector, setup/cleanup, configuration loading and reflective handler instantiation are not modelled. Handler calls are recorded as events in a log.
- Rollup.RollupReducer.Drain: the iterator over a group's values is modelled by a count of values already consumed. The values themselves are not modelled.
- Rollup.ReduceStep: its own contract only states that the state stays well formed. Nesting and hand-over are stated by `ReduceStepNests` and `ReduceStepHandsOne`.
- Rollup.ReduceAll: its own contract only states that the state stays well formed. Nesting, position and hand-over are stated by `ReduceAllNests`, `ReduceAllPosition` and `ReduceAllHandsEachGroup`.
- Rollup.RollupReducer.IndexMismatch: two non-null values at one depth are compared by structural equality. A custom class's own `equals`, or identity for a class without one, is not modelled.
- JSON configuration, the examples, the benchmarks and the `ITuple` implementations beyond their schema and values are not part of this model.
