/** `ByteData`: binary column contents held as a Java byte array, decoded
    from the hexadecimal text form (`\x0a1b…`) a database may return. */
module ByteDataHex {

  import opened Wrappers
  import opened JavaValues
  import opened JavaStrings

  /** `Character.digit(c, 16)`: the value of a hexadecimal digit, ASCII or
      fullwidth (U+FF10..U+FF19, U+FF21..U+FF26, U+FF41..U+FF46), of either
      case; -1 for anything else. The decimal digits of other scripts are
      not modelled. */
  function HexDigit(c: char): (d: int)
    ensures -1 <= d < 16
    ensures d >= 0 <==> ('0' <= c <= '9' || 'a' <= c <= 'f' || 'A' <= c <= 'F'
                         || '\U{FF10}' <= c <= '\U{FF19}' || '\U{FF41}' <= c <= '\U{FF46}' || '\U{FF21}' <= c <= '\U{FF26}')
    ensures '0' <= c <= '9' ==> d == c as int - '0' as int
    ensures 'a' <= c <= 'f' ==> d == c as int - 'a' as int + 10
    ensures 'A' <= c <= 'F' ==> d == c as int - 'A' as int + 10
  {
    if '0' <= c <= '9' then c as int - '0' as int
    else if 'a' <= c <= 'f' then c as int - 'a' as int + 10
    else if 'A' <= c <= 'F' then c as int - 'A' as int + 10
    else if '\U{FF10}' <= c <= '\U{FF19}' then c as int - 0xFF10
    else if '\U{FF41}' <= c <= '\U{FF46}' then c as int - 0xFF41 + 10
    else if '\U{FF21}' <= c <= '\U{FF26}' then c as int - 0xFF21 + 10
    else -1
  }

  /** The hexadecimal text without its `\x` prefix, if it has one. */
  function Unprefixed(hex: string): (r: string)
    ensures StartsWith(hex, "\\x") ==> hex == "\\x" + r
    ensures !StartsWith(hex, "\\x") ==> r == hex
  {
    if StartsWith(hex, "\\x") then hex[2..] else hex
  }

  /** Byte `k` of the decoded text: `(digit << 4) + digit`, cast to `byte`.
      A non-hexadecimal character counts as digit -1, as the Java code
      computes it. */
  function ByteAt(n: string, k: nat): int8
    requires 2 * k + 1 < |n|
  {
    WrapByte(HexDigit(n[2 * k]) * 16 + HexDigit(n[2 * k + 1]))
  }

  /** What `ByteData.toByteArray` returns; `None` is the
      StringIndexOutOfBoundsException it throws when the unprefixed text
      has odd length (its last step reads one character past the end). */
  function DecodeHex(hex: string): Option<seq<int8>>
  {
    var n := Unprefixed(hex);
    if |n| % 2 == 1 then None
    else Some(seq(|n| / 2, k requires 0 <= k < |n| / 2 => ByteAt(n, k)))
  }

  /** `ByteData.toByteArray`: fill a new array two characters at a time. */
  method ToByteArray(hex: string) returns (r: Option<seq<int8>>)
    ensures r == DecodeHex(hex)
  {
    var n := if StartsWith(hex, "\\x") then hex[2..] else hex;
    var len := |n|;
    var data := new int8[len / 2];
    var i := 0;
    while i < len
      invariant 0 <= i <= len && i % 2 == 0
      invariant forall k :: 0 <= k < i / 2 ==> data[k] == ByteAt(n, k)
    {
      if i + 1 >= len {
        assert len % 2 == 1 && n == Unprefixed(hex);
        return None;
      }
      data[i / 2] := WrapByte(HexDigit(n[i]) * 16 + HexDigit(n[i + 1]));
      i := i + 2;
    }
    assert n == Unprefixed(hex) && len % 2 == 0;
    assert data[..] == seq(len / 2, k requires 0 <= k < len / 2 => ByteAt(n, k));
    r := Some(data[..]);
  }

  /** `ByteData.equals`: true exactly for another `ByteData` holding the same
      bytes in the same order. */
  function Equals(data: seq<int8>, other: Value): (r: bool)
    ensures r <==> other.ByteData? && |other.data| == |data|
                   && forall i :: 0 <= i < |data| ==> other.data[i] == data[i]
  {
    other.ByteData? && other.data == data
  }

  // ---- the reference encoder the decoder is checked against ----

  function LowerHexChar(d: nat): (c: char)
    requires d < 16
    ensures HexDigit(c) == d
  {
    if d < 10 then (d + '0' as int) as char else (d - 10 + 'a' as int) as char
  }

  /** Two lower-case hexadecimal digits per byte, of its unsigned value. */
  function EncodeHex(bytes: seq<int8>): (r: string)
    ensures |r| == 2 * |bytes|
    ensures forall i :: 0 <= i < |r| ==> HexDigit(r[i]) >= 0
  {
    if bytes == [] then ""
    else
      var u := (bytes[0] as int + 256) % 256;
      [LowerHexChar(u / 16), LowerHexChar(u % 16)] + EncodeHex(bytes[1..])
  }

  /** The first two characters the encoder writes decode to the first byte. */
  lemma EncodeHexFirst(bytes: seq<int8>)
    requires |bytes| > 0
    ensures ByteAt(EncodeHex(bytes), 0) == bytes[0]
  {
    var b := bytes[0] as int;
    var u := (b + 256) % 256;
    var e := EncodeHex(bytes);
    assert e[0] == LowerHexChar(u / 16) && e[1] == LowerHexChar(u % 16);
    assert HexDigit(e[0]) * 16 + HexDigit(e[1]) == u by {
      assert (u / 16) * 16 + u % 16 == u;
    }
    UnsignedByteWraps(b);
  }

  /** A byte's unsigned value wraps back to the byte. */
  lemma UnsignedByteWraps(b: int)
    requires -128 <= b < 128
    ensures WrapByte((b + 256) % 256) as int == b
  {
    var u := (b + 256) % 256;
    WrapByteValue(u);
    if b < 0 {
      assert u == b + 256;
    } else {
      assert u == b;
    }
  }

  /** Byte `k + 1` of a text is byte `k` of the text without its first two
      characters. */
  lemma ByteAtShift(n: string, k: nat)
    requires 2 * k + 3 < |n|
    ensures ByteAt(n, k + 1) == ByteAt(n[2..], k)
  {
    assert n[2..][2 * k] == n[2 * k + 2] && n[2..][2 * k + 1] == n[2 * k + 3];
  }

  lemma {:induction false} EncodeHexAt(bytes: seq<int8>, k: nat)
    requires k < |bytes|
    ensures ByteAt(EncodeHex(bytes), k) == bytes[k]
  {
    if k == 0 {
      EncodeHexFirst(bytes);
    } else {
      EncodeHexAt(bytes[1..], k - 1);
      assert EncodeHex(bytes)[2..] == EncodeHex(bytes[1..]);
      ByteAtShift(EncodeHex(bytes), k - 1);
    }
  }

  /** Decoding what the reference encoder writes gives the bytes back, with
      or without the `\x` prefix. */
  lemma DecodeEncoded(bytes: seq<int8>)
    ensures DecodeHex(EncodeHex(bytes)) == Some(bytes)
    ensures DecodeHex("\\x" + EncodeHex(bytes)) == Some(bytes)
  {
    var e := EncodeHex(bytes);
    assert !StartsWith(e, "\\x") by {
      if |e| >= 2 { assert HexDigit(e[0]) >= 0; }
    }
    assert Unprefixed(e) == e;
    assert StartsWith("\\x" + e, "\\x");
    assert ("\\x" + e)[2..] == e;
    assert Unprefixed("\\x" + e) == e;
    var decoded := seq(|e| / 2, k requires 0 <= k < |e| / 2 => ByteAt(e, k));
    forall k | 0 <= k < |bytes|
      ensures decoded[k] == bytes[k]
    {
      EncodeHexAt(bytes, k);
    }
    assert decoded == bytes;
  }

  /** The length of the result is half that of the unprefixed text, and
      byte `k` is made of characters `2k` and `2k+1`. */
  lemma DecodeShape(hex: string)
    requires |Unprefixed(hex)| % 2 == 0
    ensures DecodeHex(hex).Some?
    ensures |DecodeHex(hex).value| == |Unprefixed(hex)| / 2
    ensures forall k :: 0 <= k < |Unprefixed(hex)| / 2 ==>
              DecodeHex(hex).value[k] as int ==
                (16 * HexDigit(Unprefixed(hex)[2 * k]) + HexDigit(Unprefixed(hex)[2 * k + 1]) + 128) % 256 - 128
  {
    var n := Unprefixed(hex);
    forall k | 0 <= k < |n| / 2
      ensures DecodeHex(hex).value[k] as int == (16 * HexDigit(n[2 * k]) + HexDigit(n[2 * k + 1]) + 128) % 256 - 128
    {
      assert DecodeHex(hex).value[k] == ByteAt(n, k);
      WrapByteValue(16 * HexDigit(n[2 * k]) + HexDigit(n[2 * k + 1]));
    }
  }

  /** The Java `(byte)` cast as one formula. */
  lemma WrapByteValue(x: int)
    ensures WrapByte(x) as int == (x + 128) % 256 - 128
  {
  }

  /** The empty text decodes to no bytes, with or without the prefix. */
  lemma DecodeEmpty()
    ensures DecodeHex("") == Some([])
    ensures DecodeHex("\\x") == Some([])
  {
    assert !StartsWith("", "\\x") && Unprefixed("") == "";
    assert StartsWith("\\x", "\\x") && Unprefixed("\\x") == "";
    assert |DecodeHex("").value| == 0;
  }
}
