/** `DatabaseToFieldMapper`: how a value read from a result set becomes the
    value of a row field. */
module DatabaseToFieldMappers {

  import opened Wrappers
  import opened JavaValues
  import ByteDataHex

  /** The enum constants `IDENTITY`, `BYTE_DATA` and `TIMESTAMP`. */
  datatype DatabaseToFieldMapper = FromIdentity | FromByteData | FromTimestamp

  /** `getMapper().apply(o)`. `Err` is an exception the mapper throws: a
      NullPointerException when `BYTE_DATA` or `TIMESTAMP` is given null (their
      fall-through branch logs `o.getClass()`), a failed hex decode, or a
      string `Timestamp.valueOf` rejects. An input of any other type is logged
      and mapped to null. */
  function FromStorage(m: DatabaseToFieldMapper, o: Value, parse: TimestampParser): Result<Value>
  {
    match m
    case FromIdentity => Ok(o)
    case FromByteData =>
      if o.Bytes? then Ok(ByteData(o.bytes))
      else if o.ByteData? then Ok(o)
      else if o.Str? then
        (match ByteDataHex.DecodeHex(o.s)
         case Some(b) => Ok(ByteData(b))
         case None => Err("StringIndexOutOfBoundsException"))
      else if o.Null? then Err("NullPointerException")
      else Ok(Null)
    case FromTimestamp =>
      if o.Timestamp? then Ok(o)
      else if o.SqlDate? then Ok(Timestamp(o.millis))
      else if o.UtilDate? then Ok(Timestamp(o.millis))
      else if o.Long? then Ok(Timestamp(o.n))
      else if o.Str? then
        (match parse(o.s)
         case Some(ms) => Ok(Timestamp(ms))
         case None => Err("IllegalArgumentException"))
      else if o.Null? then Err("NullPointerException")
      else Ok(Null)
  }

  /** `IDENTITY` hands back its input unchanged. */
  lemma IdentityUnchanged(o: Value, parse: TimestampParser)
    ensures FromStorage(FromIdentity, o, parse) == Ok(o)
  {
  }

  /** `BYTE_DATA` wraps raw bytes, keeps a `ByteData`, hex-decodes a string
      and maps any other non-null value to null. */
  lemma ByteDataCases(o: Value, parse: TimestampParser)
    ensures o.Bytes? ==> FromStorage(FromByteData, o, parse) == Ok(ByteData(o.bytes))
    ensures o.ByteData? ==> FromStorage(FromByteData, o, parse) == Ok(o)
    ensures o.Str? && ByteDataHex.DecodeHex(o.s).Some? ==>
              FromStorage(FromByteData, o, parse) == Ok(ByteData(ByteDataHex.DecodeHex(o.s).value))
    ensures !(o.Bytes? || o.ByteData? || o.Str? || o.Null?) ==>
              FromStorage(FromByteData, o, parse) == Ok(Null)
  {
  }

  /** The four non-string forms of one instant all map to the same
      `Timestamp`. */
  lemma TimestampForms(ms: int, parse: TimestampParser)
    ensures FromStorage(FromTimestamp, Timestamp(ms), parse) == Ok(Timestamp(ms))
    ensures FromStorage(FromTimestamp, SqlDate(ms), parse) == Ok(Timestamp(ms))
    ensures FromStorage(FromTimestamp, UtilDate(ms), parse) == Ok(Timestamp(ms))
    ensures FromStorage(FromTimestamp, Long(ms), parse) == Ok(Timestamp(ms))
  {
  }

  /** An unrecognised type is logged and yields null instead of an
      exception; an `Integer` is such a type (only `Long` is accepted). */
  lemma TimestampUnrecognised(o: Value, parse: TimestampParser)
    requires !(o.Timestamp? || o.SqlDate? || o.UtilDate? || o.Long? || o.Str? || o.Null?)
    ensures FromStorage(FromTimestamp, o, parse) == Ok(Null)
  {
  }
}
