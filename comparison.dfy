/**
 * Sorting and grouping of tuples: a criteria list compared lexicographically
 * (SortComparator's behaviour), tuples seen through their source's common-schema
 * translation, serialized records compared field by field as they are read,
 * and the GroupComparator, whose criteria are a prefix of the common sort
 * criteria.
 */
module Comparison {
  import opened Results
  import opened Wire
  import opened Tuples
  import opened Serializer
  import opened FieldDeserializer

  datatype Order = Asc | Desc

  /** A custom comparator's object comparison (RawComparator.compare on objects). */
  type Comparator = (Value, Value) -> int

  /**
   * Criteria.SortElement: a field name, its order and an optional custom
   * comparator. The criterion at depth i compares field i of the common schema.
   */
  datatype SortElement = SortElement(name: string, order: Order, custom: Option<Comparator>)

  /** Why two tuples could not be compared. */
  datatype CompareError =
    | UnknownSource(schemaName: string)   // getSourceIdByName found no source of that schema
    | PositionOutside(position: int)      // a translation table points outside the tuple

  function Sign(x: int): (s: int)
    ensures s == -1 || s == 0 || s == 1
    ensures (s < 0 <==> x < 0) && (s == 0 <==> x == 0) && (s > 0 <==> x > 0)
  {
    if x < 0 then -1 else if x == 0 then 0 else 1
  }

  /** Unsigned lexicographic order of two byte strings, a proper prefix first: the sign of WritableComparator.compareBytes. */
  function LexCompare(a: seq<Byte>, b: seq<Byte>): (r: int)
    ensures r == -1 || r == 0 || r == 1
    ensures r == 0 <==> a == b
    decreases |a|
  {
    if a == [] && b == [] then 0
    else if a == [] then -1
    else if b == [] then 1
    else if a[0] != b[0] then Sign(Unsigned(a[0]) - Unsigned(b[0]))
    else
      var r := LexCompare(a[1..], b[1..]);
      assert r == 0 ==> a == [a[0]] + a[1..] == [b[0]] + b[1..] == b;
      r
  }

  /**
   * The natural order of two values of one field: numbers by value, false
   * before true, strings by their UTF-8 bytes, enum constants of one class by
   * ordinal. Floating-point numbers, custom objects, nulls and values of
   * different classes are ordered by the given comparator.
   */
  function NaturalCompare(a: Value, b: Value, other: Comparator): int
  {
    match (a, b)
    case (IntValue(x), IntValue(y)) => Sign(x - y)
    case (LongValue(x), LongValue(y)) => Sign(x - y)
    case (BoolValue(x), BoolValue(y)) => if x == y then 0 else if x then 1 else -1
    case (StringValue(x), StringValue(y)) => LexCompare(x, y)
    case (EnumValue(c, x), EnumValue(d, y)) => if c == d then x - y else other(a, b)
    case _ => other(a, b)
  }

  /** compareObjects: the custom comparator when the criterion has one, natural order otherwise. */
  function CompareObjects(a: Value, b: Value, custom: Option<Comparator>, other: Comparator): int
  {
    match custom
    case Some(c) => c(a, b)
    case None => NaturalCompare(a, b, other)
  }

  /** One criterion: compareObjects, negated for a descending order. */
  function CompareAt(e: SortElement, a: Value, b: Value, other: Comparator): int
  {
    var c := CompareObjects(a, b, e.custom, other);
    if e.order == Asc then c else -c
  }

  /**
   * The criteria from depth d on, compared lexicographically: the result of
   * the first criterion that does not tie, or zero when all tie.
   */
  function CompareFrom(criteria: seq<SortElement>, xs: seq<Value>, ys: seq<Value>, other: Comparator, d: nat): int
    requires d <= |criteria| <= |xs| && |criteria| <= |ys|
    decreases |criteria| - d
  {
    if d == |criteria| then 0
    else
      var c := CompareAt(criteria[d], xs[d], ys[d], other);
      if c != 0 then c else CompareFrom(criteria, xs, ys, other, d + 1)
  }

  /**
   * CompareFrom is a lexicographic comparison: zero exactly when every
   * criterion from d on ties, and otherwise the result of the first criterion
   * that does not.
   */
  lemma {:induction false} CompareFromMeaning(criteria: seq<SortElement>, xs: seq<Value>, ys: seq<Value>, other: Comparator, d: nat)
    requires d <= |criteria| <= |xs| && |criteria| <= |ys|
    ensures var r := CompareFrom(criteria, xs, ys, other, d);
            r == 0 <==> forall i | d <= i < |criteria| :: CompareAt(criteria[i], xs[i], ys[i], other) == 0
    ensures var r := CompareFrom(criteria, xs, ys, other, d);
            r != 0 ==> exists j | d <= j < |criteria| ::
              && r == CompareAt(criteria[j], xs[j], ys[j], other)
              && forall i | d <= i < j :: CompareAt(criteria[i], xs[i], ys[i], other) == 0
    decreases |criteria| - d
  {
    if d < |criteria| && CompareAt(criteria[d], xs[d], ys[d], other) == 0 {
      CompareFromMeaning(criteria, xs, ys, other, d + 1);
    }
  }

  /** SortComparator.compare(schema, criteria, ...): the values at each depth, compared under the criteria. */
  function CompareValues(criteria: seq<SortElement>, xs: seq<Value>, ys: seq<Value>, other: Comparator): int
    requires |criteria| <= |xs| && |criteria| <= |ys|
  {
    CompareFrom(criteria, xs, ys, other, 0)
  }

  ghost predicate SignAntisymmetric(c: Comparator)
  {
    forall a, b :: Sign(c(a, b)) == -Sign(c(b, a))
  }

  ghost predicate Reflexive(c: Comparator)
  {
    forall a :: c(a, a) == 0
  }

  /** Every comparator the criteria use swaps sign when its arguments are swapped. */
  ghost predicate CriteriaAntisymmetric(criteria: seq<SortElement>, other: Comparator)
  {
    && SignAntisymmetric(other)
    && forall i | 0 <= i < |criteria| :: criteria[i].custom.Some? ==> SignAntisymmetric(criteria[i].custom.value)
  }

  /** Every comparator the criteria use finds a value equal to itself. */
  ghost predicate CriteriaReflexive(criteria: seq<SortElement>, other: Comparator)
  {
    && Reflexive(other)
    && forall i | 0 <= i < |criteria| :: criteria[i].custom.Some? ==> Reflexive(criteria[i].custom.value)
  }

  /** Swapping two byte strings swaps their order. */
  lemma {:induction false} LexAntisymmetric(a: seq<Byte>, b: seq<Byte>)
    ensures LexCompare(a, b) == -LexCompare(b, a)
    decreases |a|
  {
    if a != [] && b != [] && a[0] == b[0] {
      LexAntisymmetric(a[1..], b[1..]);
    }
  }

  /** Natural order swaps sign with its arguments. */
  lemma NaturalAntisymmetric(a: Value, b: Value, other: Comparator)
    requires SignAntisymmetric(other)
    ensures Sign(NaturalCompare(a, b, other)) == -Sign(NaturalCompare(b, a, other))
  {
    if a.StringValue? && b.StringValue? {
      LexAntisymmetric(a.utf8, b.utf8);
    }
  }

  /** Two values of one naturally ordered class: numbers, booleans, strings, or enum constants of one class. */
  predicate NaturallyOrdered(a: Value, b: Value)
  {
    || (a.IntValue? && b.IntValue?)
    || (a.LongValue? && b.LongValue?)
    || (a.BoolValue? && b.BoolValue?)
    || (a.StringValue? && b.StringValue?)
    || (a.EnumValue? && b.EnumValue? && a.enumClass == b.enumClass)
  }

  /** In natural order two values of one class tie exactly when they are equal, and the sign says which is smaller. */
  lemma NaturalZeroIffEqual(a: Value, b: Value, other: Comparator)
    requires NaturallyOrdered(a, b)
    ensures NaturalCompare(a, b, other) == 0 <==> a == b
    ensures a.IntValue? ==> (NaturalCompare(a, b, other) < 0 <==> a.i < b.i)
    ensures a.LongValue? ==> (NaturalCompare(a, b, other) < 0 <==> a.l < b.l)
    ensures a.EnumValue? ==> (NaturalCompare(a, b, other) < 0 <==> a.ordinal < b.ordinal)
    ensures a.BoolValue? ==> (NaturalCompare(a, b, other) < 0 <==> !a.b && b.b)
  {
  }

  /** One criterion swaps sign with its arguments, in either order. */
  lemma CompareAtAntisymmetric(e: SortElement, a: Value, b: Value, other: Comparator)
    requires SignAntisymmetric(other)
    requires e.custom.Some? ==> SignAntisymmetric(e.custom.value)
    ensures Sign(CompareAt(e, a, b, other)) == -Sign(CompareAt(e, b, a, other))
  {
    if e.custom.None? {
      NaturalAntisymmetric(a, b, other);
    }
  }

  /**
   * compare(t1, t2) and compare(t2, t1) never have the same strict sign: with
   * antisymmetric comparators they have opposite signs, and tie together.
   */
  lemma {:induction false} CompareFromAntisymmetric(criteria: seq<SortElement>, xs: seq<Value>, ys: seq<Value>, other: Comparator, d: nat)
    requires d <= |criteria| <= |xs| && |criteria| <= |ys|
    requires CriteriaAntisymmetric(criteria, other)
    ensures Sign(CompareFrom(criteria, xs, ys, other, d)) == -Sign(CompareFrom(criteria, ys, xs, other, d))
    decreases |criteria| - d
  {
    if d < |criteria| {
      CompareAtAntisymmetric(criteria[d], xs[d], ys[d], other);
      CompareFromAntisymmetric(criteria, xs, ys, other, d + 1);
    }
  }

  /** A tuple compares equal to itself when every comparator used finds a value equal to itself. */
  lemma CompareValuesReflexive(criteria: seq<SortElement>, xs: seq<Value>, other: Comparator)
    requires |criteria| <= |xs|
    requires CriteriaReflexive(criteria, other)
    ensures CompareValues(criteria, xs, xs, other) == 0
  {
    forall i | 0 <= i < |criteria|
      ensures CompareAt(criteria[i], xs[i], xs[i], other) == 0
    {
      if criteria[i].custom.None? && xs[i].StringValue? {
        assert LexCompare(xs[i].utf8, xs[i].utf8) == 0;
      }
    }
    CompareFromMeaning(criteria, xs, xs, other, 0);
  }

  /**
   * Grouping refines sorting: the group criteria being a prefix of the sort
   * criteria, tuples the group comparator tells apart are ordered the same way
   * by the sort comparator, and tuples the sort comparator ties are in one group.
   */
  lemma {:induction false} GroupRefinesSort(criteria: seq<SortElement>, k: nat, xs: seq<Value>, ys: seq<Value>, other: Comparator, d: nat)
    requires d <= k <= |criteria| <= |xs| && |criteria| <= |ys|
    ensures CompareFrom(criteria[..k], xs, ys, other, d) != 0
        ==> CompareFrom(criteria, xs, ys, other, d) == CompareFrom(criteria[..k], xs, ys, other, d)
    ensures CompareFrom(criteria, xs, ys, other, d) == 0 ==> CompareFrom(criteria[..k], xs, ys, other, d) == 0
    decreases k - d
  {
    if d < k {
      var group := criteria[..k];
      assert group[d] == criteria[d];
      var c := CompareAt(criteria[d], xs[d], ys[d], other);
      assert CompareFrom(group, xs, ys, other, d) == if c != 0 then c else CompareFrom(group, xs, ys, other, d + 1);
      assert CompareFrom(criteria, xs, ys, other, d) == if c != 0 then c else CompareFrom(criteria, xs, ys, other, d + 1);
      GroupRefinesSort(criteria, k, xs, ys, other, d + 1);
    }
  }

  /** The common-schema translation of the tuple's own source, found by its schema name. */
  function KeyTable(info: SerializationInfo, t: Tuple): (table: seq<int>)
    requires info.Valid() && t.schema.name in info.schemaIds
    ensures |table| == |info.commonSchema.fields|
  {
    info.commonTranslation[info.schemaIds[t.schema.name]]
  }

  /**
   * The values a tuple is compared on at the first k depths: its positions
   * that its source's common-schema translation names, or the error of a
   * tuple of no known source.
   */
  function SourceKey(info: SerializationInfo, t: Tuple, k: nat): (r: Result<seq<Value>, CompareError>)
    requires info.Valid() && k <= |info.commonSchema.fields|
    ensures r.Ok? <==> t.schema.name in info.schemaIds && forall i | 0 <= i < k :: 0 <= KeyTable(info, t)[i] < |t.values|
    ensures r.Ok? ==> |r.value| == k && forall i | 0 <= i < k :: r.value[i] == t.values[KeyTable(info, t)[i]]
  {
    if t.schema.name !in info.schemaIds then Err(UnknownSource(t.schema.name))
    else
      var table := KeyTable(info, t);
      if forall i | 0 <= i < k :: 0 <= table[i] < |t.values| then Ok(Project(t.values, table, k))
      else Err(PositionOutside(FirstOutOfRange(table, |t.values|, k)))
  }

  /** A translated position outside the tuple, among the first k. */
  function FirstOutOfRange(table: seq<int>, size: int, k: nat): (pos: int)
    requires k <= |table|
    requires exists i | 0 <= i < k :: !(0 <= table[i] < size)
    ensures exists i | 0 <= i < k :: pos == table[i] && !(0 <= pos < size)
  {
    if !(0 <= table[k - 1] < size) then table[k - 1] else FirstOutOfRange(table, size, k - 1)
  }

  /** GroupComparator.compare(w1, w2): each tuple read through its own source's translation. */
  function CompareTuples(info: SerializationInfo, criteria: seq<SortElement>, other: Comparator, w1: Tuple, w2: Tuple)
    : Result<int, CompareError>
    requires info.Valid() && |criteria| <= |info.commonSchema.fields|
  {
    match SourceKey(info, w1, |criteria|)
    case Err(e) => Err(e)
    case Ok(xs) =>
      match SourceKey(info, w2, |criteria|)
      case Err(e) => Err(e)
      case Ok(ys) => Ok(CompareValues(criteria, xs, ys, other))
  }

  /** The object comparison is antisymmetric, and succeeds for both orders or neither. */
  lemma TuplesAntisymmetric(info: SerializationInfo, criteria: seq<SortElement>, other: Comparator, w1: Tuple, w2: Tuple)
    requires info.Valid() && |criteria| <= |info.commonSchema.fields|
    requires CriteriaAntisymmetric(criteria, other)
    ensures CompareTuples(info, criteria, other, w1, w2).Ok? == CompareTuples(info, criteria, other, w2, w1).Ok?
    ensures CompareTuples(info, criteria, other, w1, w2).Ok? ==>
              Sign(CompareTuples(info, criteria, other, w1, w2).value) == -Sign(CompareTuples(info, criteria, other, w2, w1).value)
  {
    var k1 := SourceKey(info, w1, |criteria|);
    var k2 := SourceKey(info, w2, |criteria|);
    if k1.Ok? && k2.Ok? {
      CompareFromAntisymmetric(criteria, k1.value, k2.value, other, 0);
    }
  }

  /**
   * The raw comparison from depth d on: field d of each record is read at its
   * offset, and the first criterion that does not tie decides; fields after
   * it are not read.
   */
  function CompareRawFrom(read: FieldReader, fields: seq<Field>, criteria: seq<SortElement>, other: Comparator,
                          b1: seq<Byte>, o1: int, b2: seq<Byte>, o2: int, d: nat): Result<int, DecodeError>
    requires d <= |criteria| <= |fields|
    decreases |criteria| - d
  {
    if d == |criteria| then Ok(0)
    else
      match read(b1, o1, fields[d].ftype)
      case Err(e) => Err(e)
      case Ok((v1, next1)) =>
        match read(b2, o2, fields[d].ftype)
        case Err(e) => Err(e)
        case Ok((v2, next2)) =>
          var c := CompareAt(criteria[d], v1, v2, other);
          if c != 0 then Ok(c) else CompareRawFrom(read, fields, criteria, other, b1, next1, b2, next2, d + 1)
  }

  /**
   * GroupComparator.compare on bytes: the records at s1 and s2 compared over
   * the common schema under the criteria.
   */
  function CompareRecords(info: SerializationInfo, enums: EnumCache, codec: ObjectCodec, criteria: seq<SortElement>, other: Comparator,
                          b1: seq<Byte>, s1: int, b2: seq<Byte>, s2: int): Result<int, DecodeError>
    requires |criteria| <= |info.commonSchema.fields|
  {
    CompareRawFrom(Reader(enums, codec), info.commonSchema.fields, criteria, other, b1, s1, b2, s2, 0)
  }

  /** Swapping two records swaps the sign of their raw comparison, and a failing read fails both orders. */
  lemma {:induction false} RawAntisymmetric(read: FieldReader, fields: seq<Field>, criteria: seq<SortElement>, other: Comparator,
                                            b1: seq<Byte>, o1: int, b2: seq<Byte>, o2: int, d: nat)
    requires d <= |criteria| <= |fields|
    requires CriteriaAntisymmetric(criteria, other)
    ensures CompareRawFrom(read, fields, criteria, other, b1, o1, b2, o2, d).Ok?
         == CompareRawFrom(read, fields, criteria, other, b2, o2, b1, o1, d).Ok?
    ensures CompareRawFrom(read, fields, criteria, other, b1, o1, b2, o2, d).Ok? ==>
              Sign(CompareRawFrom(read, fields, criteria, other, b1, o1, b2, o2, d).value)
              == -Sign(CompareRawFrom(read, fields, criteria, other, b2, o2, b1, o1, d).value)
    decreases |criteria| - d
  {
    if d < |criteria| {
      var r1 := read(b1, o1, fields[d].ftype);
      var r2 := read(b2, o2, fields[d].ftype);
      if r1.Ok? && r2.Ok? {
        CompareAtAntisymmetric(criteria[d], r1.value.0, r2.value.0, other);
        RawAntisymmetric(read, fields, criteria, other, b1, r1.value.1, b2, r2.value.1, d + 1);
      }
    }
  }

  /**
   * Records whose fields each read one after another as given values compare,
   * raw, exactly as those values do.
   */
  lemma {:induction false} RawAgrees(read: FieldReader, fields: seq<Field>, criteria: seq<SortElement>, other: Comparator,
                                     b1: seq<Byte>, s1: int, ends1: seq<int>, xs: seq<Value>,
                                     b2: seq<Byte>, s2: int, ends2: seq<int>, ys: seq<Value>, d: nat)
    requires d <= |criteria| <= |fields|
    requires |xs| == |ends1| == |criteria| && |ys| == |ends2| == |criteria|
    requires forall i {:trigger xs[i]} | 0 <= i < |criteria| :: FieldReads(read, b1, StartOf(s1, ends1, i), fields[i].ftype, xs[i], ends1[i])
    requires forall i {:trigger ys[i]} | 0 <= i < |criteria| :: FieldReads(read, b2, StartOf(s2, ends2, i), fields[i].ftype, ys[i], ends2[i])
    ensures CompareRawFrom(read, fields, criteria, other, b1, StartOf(s1, ends1, d), b2, StartOf(s2, ends2, d), d)
         == Ok(CompareFrom(criteria, xs, ys, other, d))
    decreases |criteria| - d
  {
    if d < |criteria| {
      assert FieldReads(read, b1, StartOf(s1, ends1, d), fields[d].ftype, xs[d], ends1[d]);
      assert FieldReads(read, b2, StartOf(s2, ends2, d), fields[d].ftype, ys[d], ends2[d]);
      RawAgrees(read, fields, criteria, other, b1, s1, ends1, xs, b2, s2, ends2, ys, d + 1);
    }
  }

  /** The tuple's key values decode back: each one's field type, enum cache and codec read it back as itself. */
  ghost predicate KeyDecodable(info: SerializationInfo, enums: EnumCache, codec: ObjectCodec, k: nat, t: Tuple)
    requires info.Valid() && k <= |info.commonSchema.fields|
  {
    && t.schema.name in info.schemaIds
    && forall i | 0 <= i < k :: 0 <= KeyTable(info, t)[i] < |t.values| ==>
         Decodable(t.values[KeyTable(info, t)[i]], info.commonSchema.fields[i].ftype, enums, codec)
  }

  /** A serialized record begins with its common fields, written through its own source's translation. */
  lemma CommonPartFirst(info: SerializationInfo, codec: ObjectCodec, t: Tuple, bytes: seq<Byte>, start: nat)
    requires info.Valid() && t.schema.name in info.schemaIds
    requires SerializeRecord(info, Encoder(codec), t).error.None?
    requires RecordAt(bytes, start, SerializeRecord(info, Encoder(codec), t).bytes)
    ensures var common := info.commonSchema.fields;
            var w := WriteFields(common, t.values, KeyTable(info, t), Encoder(codec), |common|);
            w.error.None? && RecordAt(bytes, start, w.bytes)
  {
    var common := info.commonSchema.fields;
    var w := WriteFields(common, t.values, KeyTable(info, t), Encoder(codec), |common|);
    if info.NumSchemas() >= 2 {
      MultiSourceLayout(info, Encoder(codec), t);
      SlicePrefix(bytes, start, SerializeRecord(info, Encoder(codec), t).bytes, w.bytes);
    }
  }

  /**
   * The first k common fields of a serialized record read back, one after
   * another, as the tuple's key values.
   */
  lemma KeyLayout(info: SerializationInfo, codec: ObjectCodec, enums: EnumCache, k: nat, t: Tuple, bytes: seq<Byte>, start: nat)
    requires info.Valid() && k <= |info.commonSchema.fields|
    requires EnumCacheValid(enums)
    requires KeyDecodable(info, enums, codec, k, t)
    requires SerializeRecord(info, Encoder(codec), t).error.None?
    requires RecordAt(bytes, start, SerializeRecord(info, Encoder(codec), t).bytes)
    ensures SourceKey(info, t, k).Ok?
    ensures var common := info.commonSchema.fields;
            var ends := RecordEnds(common, t.values, KeyTable(info, t), Encoder(codec), start, k);
            var xs := SourceKey(info, t, k).value;
            forall i {:trigger xs[i]} | 0 <= i < k ::
              FieldReads(Reader(enums, codec), bytes, StartOf(start, ends, i), common[i].ftype, xs[i], ends[i])
  {
    var common := info.commonSchema.fields;
    var table := KeyTable(info, t);
    CommonPartFirst(info, codec, t, bytes, start);
    RecordPrefix(common, t.values, table, Encoder(codec), k, |common|, bytes, start);
    WriteFieldsSucceeds(common, t.values, table, Encoder(codec), k);
    forall i | 0 <= i < k
      ensures 0 <= table[i] < |t.values|
    {
      assert FieldWrite(common, t.values, table, Encoder(codec), i).Ok?;
    }
    var xs := SourceKey(info, t, k).value;
    forall i | 0 <= i < k
      ensures FieldReads(Reader(enums, codec), bytes, StartOf(start, RecordEnds(common, t.values, table, Encoder(codec), start, k), i),
                         common[i].ftype, xs[i], RecordEnds(common, t.values, table, Encoder(codec), start, k)[i])
    {
      FieldReadsBack(common[i], t.values[table[i]], enums, codec);
      RecordFieldAt(common, t.values, table, Encoder(codec), Reader(enums, codec), k, bytes, start, i);
    }
  }

  /**
   * Comparing the serialized forms of two tuples gives exactly what comparing
   * the tuples as objects gives, for any criteria over the common schema.
   */
  lemma BytesAgreeWithObjects(info: SerializationInfo, codec: ObjectCodec, enums: EnumCache, criteria: seq<SortElement>, other: Comparator,
                              t1: Tuple, b1: seq<Byte>, s1: nat, t2: Tuple, b2: seq<Byte>, s2: nat)
    requires info.Valid() && |criteria| <= |info.commonSchema.fields|
    requires EnumCacheValid(enums)
    requires KeyDecodable(info, enums, codec, |criteria|, t1) && KeyDecodable(info, enums, codec, |criteria|, t2)
    requires SerializeRecord(info, Encoder(codec), t1).error.None? && RecordAt(b1, s1, SerializeRecord(info, Encoder(codec), t1).bytes)
    requires SerializeRecord(info, Encoder(codec), t2).error.None? && RecordAt(b2, s2, SerializeRecord(info, Encoder(codec), t2).bytes)
    ensures CompareTuples(info, criteria, other, t1, t2).Ok?
    ensures CompareRecords(info, enums, codec, criteria, other, b1, s1, b2, s2) == Ok(CompareTuples(info, criteria, other, t1, t2).value)
  {
    var k := |criteria|;
    var common := info.commonSchema.fields;
    KeyLayout(info, codec, enums, k, t1, b1, s1);
    KeyLayout(info, codec, enums, k, t2, b2, s2);
    var ends1 := RecordEnds(common, t1.values, KeyTable(info, t1), Encoder(codec), s1, k);
    var ends2 := RecordEnds(common, t2.values, KeyTable(info, t2), Encoder(codec), s2, k);
    RawAgrees(Reader(enums, codec), common, criteria, other, b1, s1, ends1, SourceKey(info, t1, k).value,
              b2, s2, ends2, SourceKey(info, t2, k).value, 0);
  }

  /** The reverse comparator of the tests: the opposite of the natural order of ints. */
  function ReverseInts(): Comparator
  {
    (a: Value, b: Value) => if a.IntValue? && b.IntValue? then -Sign(a.i - b.i) else 0
  }

  /** compareObjects on ints, with no custom comparator and with the reverse one. */
  lemma CompareObjectsExamples(other: Comparator)
    ensures CompareObjects(IntValue(1), IntValue(2), Some(ReverseInts()), other) == 1
    ensures CompareObjects(IntValue(2), IntValue(2), Some(ReverseInts()), other) == 0
    ensures CompareObjects(IntValue(3), IntValue(2), Some(ReverseInts()), other) == -1
    ensures CompareObjects(IntValue(1), IntValue(2), None, other) == -1
    ensures CompareObjects(IntValue(2), IntValue(2), None, other) == 0
    ensures CompareObjects(IntValue(3), IntValue(2), None, other) == 1
  {
  }

  /** An ascending criterion with a custom comparator follows the comparator, not the natural order. */
  lemma CustomComparatorOverrides(other: Comparator)
    ensures CompareValues([SortElement("int", Asc, Some(ReverseInts()))], [IntValue(1)], [IntValue(2)], other) > 0
    ensures CompareValues([SortElement("int", Asc, None)], [IntValue(1)], [IntValue(2)], other) < 0
  {
  }

  /** GroupComparator: the serialization information, and the group criteria set up by setConf. */
  class GroupComparator {
    const info: SerializationInfo
    const enums: EnumCache
    const codec: ObjectCodec
    /** The order of values natural order does not cover. */
    const other: Comparator
    var groupSortBy: seq<SortElement>

    ghost predicate Valid()
      reads this
    {
      info.Valid() && |groupSortBy| <= |info.commonSchema.fields|
    }

    constructor(info: SerializationInfo, enums: EnumCache, codec: ObjectCodec, other: Comparator)
      requires info.Valid()
      ensures Valid()
      ensures this.info == info && this.enums == enums && this.codec == codec && this.other == other
      ensures groupSortBy == []
    {
      this.info := info;
      this.enums := enums;
      this.codec := codec;
      this.other := other;
      groupSortBy := [];
    }

    /**
     * setConf: the group criteria are a copy of the common sort criteria cut
     * down to as many entries as there are group-by fields.
     */
    method SetConf(commonCriteria: seq<SortElement>, numGroupByFields: nat)
      requires info.Valid()
      requires numGroupByFields <= |commonCriteria| && numGroupByFields <= |info.commonSchema.fields|
      modifies this
      ensures Valid()
      ensures |groupSortBy| == numGroupByFields
      ensures forall i | 0 <= i < numGroupByFields :: groupSortBy[i] == commonCriteria[i]
    {
      var groupSortElements := commonCriteria;
      groupSortElements := groupSortElements[..numGroupByFields];
      groupSortBy := groupSortElements;
    }

    /** compare(ITuple, ITuple): the tuples compared under the group criteria. */
    function Compare(w1: Tuple, w2: Tuple): (r: Result<int, CompareError>)
      reads this
      requires Valid()
      ensures r.Ok? <==> SourceKey(info, w1, |groupSortBy|).Ok? && SourceKey(info, w2, |groupSortBy|).Ok?
      ensures r.Ok? ==> r.value == CompareValues(groupSortBy, SourceKey(info, w1, |groupSortBy|).value,
                                                 SourceKey(info, w2, |groupSortBy|).value, other)
    {
      CompareTuples(info, groupSortBy, other, w1, w2)
    }

    /** compare(byte[], ...): the records at s1 and s2 compared under the group criteria, over the common schema. */
    function CompareBytes(b1: seq<Byte>, s1: int, b2: seq<Byte>, s2: int): (r: Result<int, DecodeError>)
      reads this
      requires Valid()
      ensures r == CompareRawFrom(Reader(enums, codec), info.commonSchema.fields, groupSortBy, other, b1, s1, b2, s2, 0)
    {
      CompareRecords(info, enums, codec, groupSortBy, other, b1, s1, b2, s2)
    }
  }
}
