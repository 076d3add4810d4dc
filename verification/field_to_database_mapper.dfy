/** `FieldToDatabaseMapper`: how a row field value is bound as a statement
    parameter. */
module FieldToDatabaseMappers {

  import opened Wrappers
  import opened JavaValues
  import ByteDataHex
  import opened DatabaseToFieldMappers

  /** The enum constants `IDENTITY` and `BYTE_DATA`. */
  datatype FieldToDatabaseMapper = ToIdentity | ToByteData

  /** `getMapper().apply(o)`: `BYTE_DATA` unwraps a `ByteData` to its byte
      array and turns everything else, null included, into null. */
  function ToStorage(m: FieldToDatabaseMapper, o: Value): Value
  {
    match m
    case ToIdentity => o
    case ToByteData => if o.ByteData? then Bytes(o.data) else Null
  }

  /** What `BYTE_DATA` binds is never anything but a byte array or null. */
  lemma ToByteDataCases(o: Value)
    ensures o.ByteData? ==> ToStorage(ToByteData, o) == Bytes(o.data)
    ensures !o.ByteData? ==> ToStorage(ToByteData, o) == Null
  {
  }

  /** Raw bytes read through `BYTE_DATA` are written back as the same bytes. */
  lemma BytesRoundTrip(bytes: seq<int8>, parse: TimestampParser)
    ensures FromStorage(FromByteData, Bytes(bytes), parse).Ok?
    ensures ToStorage(ToByteData, FromStorage(FromByteData, Bytes(bytes), parse).value) == Bytes(bytes)
  {
  }

  /** Hex text read through `BYTE_DATA` is written back as the bytes it
      encodes, whether or not it carries the `\x` prefix. */
  lemma HexRoundTrip(bytes: seq<int8>, parse: TimestampParser)
    ensures FromStorage(FromByteData, Str(ByteDataHex.EncodeHex(bytes)), parse).Ok?
    ensures ToStorage(ToByteData, FromStorage(FromByteData, Str(ByteDataHex.EncodeHex(bytes)), parse).value)
            == Bytes(bytes)
    ensures ToStorage(ToByteData, FromStorage(FromByteData, Str("\\x" + ByteDataHex.EncodeHex(bytes)), parse).value)
            == Bytes(bytes)
  {
    ByteDataHex.DecodeEncoded(bytes);
  }
}
