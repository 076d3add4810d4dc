/** The Java runtime values that flow through rows, statements and the
    configuration: one constructor per Java class the code tests with
    `instanceof`, plus Java's fixed-width integer arithmetic. */
module JavaValues {

  import opened Wrappers

  /** A Java `byte`. */
  newtype int8 = x: int | -128 <= x < 128

  const TWO_8: int := 0x100
  const TWO_32: int := 0x1_0000_0000
  const TWO_64: int := 0x1_0000_0000_0000_0000

  /** A Java `Object` as the mapping layer sees it. */
  datatype Value =
    | Null                       // null, and org.json's JSONObject.NULL
    | Bool(b: bool)              // java.lang.Boolean
    | Int(i: int)                // java.lang.Integer
    | Long(n: int)            // java.lang.Long
    | Str(s: string)           // java.lang.String
    | Bytes(bytes: seq<int8>)    // byte[]
    | ByteData(data: seq<int8>)  // de.yanwittmann.gallery.db.dao.ByteData
    | Timestamp(millis: int)     // java.sql.Timestamp
    | SqlDate(millis: int)       // java.sql.Date
    | UtilDate(millis: int)      // java.util.Date
    | List(items: seq<Value>)    // java.util.List (any java.util.Collection)
    | JsonArray(items: seq<Value>) // org.json.JSONArray
    | Other(className: string)   // an object of any other class

  /** The declared type of a reference-typed Java field: `Object`, one of
      the classes above, or another class by name. */
  datatype JavaType =
    | ObjectType
    | BooleanType
    | IntegerType
    | LongType
    | StringType
    | ByteArrayType
    | ByteDataType
    | TimestampType
    | SqlDateType
    | DateType        // java.util.Date, whose subclasses include java.sql.Date and Timestamp
    | ListType
    | JsonArrayType
    | ClassType(name: string)

  /** Whether `Field.set` accepts `v` for a field of type `t`: null always,
      otherwise an instance of `t` or of one of its subclasses. */
  predicate InstanceOf(v: Value, t: JavaType)
  {
    v.Null? ||
    match t
    case ObjectType => true
    case BooleanType => v.Bool?
    case IntegerType => v.Int?
    case LongType => v.Long?
    case StringType => v.Str?
    case ByteArrayType => v.Bytes?
    case ByteDataType => v.ByteData?
    case TimestampType => v.Timestamp?
    case SqlDateType => v.SqlDate?
    case DateType => v.UtilDate? || v.SqlDate? || v.Timestamp?
    case ListType => v.List?
    case JsonArrayType => v.JsonArray?
    case ClassType(name) => v.Other? && v.className == name
  }

  /** `Objects.equals(a, b)`: both null, or `a.equals(b)` by the class of
      `a`. A `java.util.Date` or `java.sql.Date` equals any date with the
      same time, `Timestamp` included, while a `Timestamp` equals only a
      `Timestamp`; a `List` equals a list of equal elements; `Integer` and
      `Long` never equal each other. The relation is not symmetric. */
  function JavaEquals(a: Value, b: Value): (r: bool)
    ensures a == b ==> r
    ensures a.Null? || b.Null? ==> (r <==> a == b)
    ensures r && !a.List? && !IsDate(a) ==> a == b
  {
    match a
    case Null => b.Null?
    case UtilDate(m) => IsDate(b) && b.millis == m
    case SqlDate(m) => IsDate(b) && b.millis == m
    case Timestamp(m) => b.Timestamp? && b.millis == m
    case List(xs) =>
      && b.List? && |xs| == |b.items|
      && forall i :: 0 <= i < |xs| ==> JavaEquals(xs[i], b.items[i])
    case _ => a == b
  }

  /** An instance of `java.util.Date`, subclasses included. */
  predicate IsDate(v: Value)
  {
    v.UtilDate? || v.SqlDate? || v.Timestamp?
  }

  /** `equals` is not symmetric across the date classes: a `Date` equals a
      `Timestamp` of the same time but not the other way round. */
  lemma DateEqualsAsymmetric(m: int)
    ensures JavaEquals(UtilDate(m), Timestamp(m)) && JavaEquals(SqlDate(m), Timestamp(m))
    ensures !JavaEquals(Timestamp(m), UtilDate(m)) && !JavaEquals(Timestamp(m), SqlDate(m))
    ensures JavaEquals(UtilDate(m), SqlDate(m)) && JavaEquals(SqlDate(m), UtilDate(m))
    ensures !JavaEquals(Int(m), Long(m)) && !JavaEquals(Long(m), Int(m))
  {
  }

  /** Two values of the same class outside the date classes and lists are
      equal exactly when they are the same value. */
  lemma JavaEqualsSameClass(a: Value, b: Value, t: JavaType)
    requires t in {BooleanType, IntegerType, LongType, StringType, TimestampType}
    requires InstanceOf(a, t) && InstanceOf(b, t)
    ensures JavaEquals(a, b) <==> a == b
  {
  }

  /** `Timestamp.valueOf(String)`: it parses in the local time zone, which is
      outside this model, so callers supply it; `None` is the
      IllegalArgumentException it throws on a malformed string. */
  type TimestampParser = string -> Option<int>

  /** Two's-complement wrap of an integer into Java `long`. */
  function WrapLong(x: int): (r: int)
    ensures -TWO_64 / 2 <= r < TWO_64 / 2
    ensures (x - r) % TWO_64 == 0
  {
    var u := x % TWO_64;
    if u < TWO_64 / 2 then u else u - TWO_64
  }

  /** Two's-complement wrap of an integer into Java `int`. */
  function WrapInt(x: int): (r: int)
    ensures -TWO_32 / 2 <= r < TWO_32 / 2
    ensures (x - r) % TWO_32 == 0
  {
    var u := x % TWO_32;
    if u < TWO_32 / 2 then u else u - TWO_32
  }

  /** The `(byte)` cast: keep the low eight bits, read them as signed. */
  function WrapByte(x: int): (r: int8)
    ensures (x - r as int) % TWO_8 == 0
  {
    var u := x % TWO_8;
    if u < 128 then u as int8 else (u - TWO_8) as int8
  }
}
