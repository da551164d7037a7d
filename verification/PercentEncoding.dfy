/** Percent encoding of paths (sections 2.1 and 2.3 of RFC 3986) and its decoding. */
module PercentEncoding {
  import opened Text
  import opened Utf8

  /** Unreserved bytes and the path separator stand for themselves. */
  predicate IsPlain(b: Byte) {
    || '0' as int <= b <= '9' as int || 'A' as int <= b <= 'Z' as int || 'a' as int <= b <= 'z' as int
    || b == '-' as int || b == '_' as int || b == '.' as int || b == '~' as int || b == '/' as int
  }

  function HexDigit(n: int): char
    requires 0 <= n < 16
  {
    if n < 10 then ('0' as int + n) as char else ('A' as int + n - 10) as char
  }

  function HexValue(b: Byte): Option<int> {
    if '0' as int <= b <= '9' as int then Some(b - '0' as int)
    else if 'A' as int <= b <= 'F' as int then Some(b - 'A' as int + 10)
    else if 'a' as int <= b <= 'f' as int then Some(b - 'a' as int + 10)
    else None
  }

  function EncodeByte(b: Byte): string {
    if IsPlain(b) then [b as char] else ['%', HexDigit(b / 16), HexDigit(b % 16)]
  }

  function EncodeBytes(bytes: seq<Byte>): string {
    if bytes == [] then "" else EncodeByte(bytes[0]) + EncodeBytes(bytes[1..])
  }

  /** `StoragePath::url_encode`. */
  function UrlEncode(path: string): string {
    EncodeBytes(Encode(path))
  }

  /** A `%` with two hexadecimal digits is that byte; any other byte is itself. */
  function DecodeBytes(bytes: seq<Byte>): seq<Byte> {
    if bytes == [] then []
    else if IsEscape(bytes) then
      [HexValue(bytes[1]).value * 16 + HexValue(bytes[2]).value] + DecodeBytes(bytes[3..])
    else [bytes[0]] + DecodeBytes(bytes[1..])
  }

  predicate IsEscape(bytes: seq<Byte>) {
    |bytes| >= 3 && bytes[0] == '%' as int && HexValue(bytes[1]).Some? && HexValue(bytes[2]).Some?
  }

  /** `percent_decode_str(..).decode_utf8()`: fails when the bytes are not UTF-8. */
  function UrlDecode(text: string): Option<string> {
    Decode(DecodeBytes(Encode(text)))
  }

  lemma EncodeByteIsAscii(b: Byte)
    ensures IsAscii(EncodeByte(b))
  {
  }

  lemma DecodePlain(b: Byte, rest: seq<Byte>)
    requires b != '%' as int
    ensures DecodeBytes([b] + rest) == [b] + DecodeBytes(rest)
  {
    assert ([b] + rest)[1..] == rest;
  }

  lemma DecodeEscape(escape: seq<Byte>, rest: seq<Byte>)
    requires |escape| == 3 && IsEscape(escape)
    ensures DecodeBytes(escape + rest) ==
            [HexValue(escape[1]).value * 16 + HexValue(escape[2]).value] + DecodeBytes(rest)
  {
    assert (escape + rest)[3..] == rest;
    assert (escape + rest)[..3] == escape;
  }

  lemma HexValueOfDigit(n: int)
    requires 0 <= n < 16
    ensures HexValue(HexDigit(n) as int) == Some(n)
  {
  }

  lemma DecodeEncodedByte(b: Byte, rest: seq<Byte>)
    requires IsAscii(EncodeByte(b))
    ensures DecodeBytes(Ascii(EncodeByte(b)) + rest) == [b] + DecodeBytes(rest)
  {
    var coded := Ascii(EncodeByte(b));
    if IsPlain(b) {
      assert coded == [b];
      DecodePlain(b, rest);
    } else {
      HexValueOfDigit(b / 16);
      HexValueOfDigit(b % 16);
      DecodeEscape(coded, rest);
    }
  }

  lemma {:induction false} DecodeEncodeBytes(bytes: seq<Byte>)
    ensures DecodeBytes(Encode(EncodeBytes(bytes))) == bytes
  {
    if bytes != [] {
      var text, rest := EncodeByte(bytes[0]), EncodeBytes(bytes[1..]);
      EncodeByteIsAscii(bytes[0]);
      EncodeConcat(text, rest);
      EncodeAscii(text);
      DecodeEncodedByte(bytes[0], Encode(rest));
      DecodeEncodeBytes(bytes[1..]);
      assert bytes == [bytes[0]] + bytes[1..];
    }
  }

  /** Decoding the encoded form gives every string back, literal percent signs included. */
  lemma UrlRoundTrip(path: string)
    ensures UrlDecode(UrlEncode(path)) == Some(path)
  {
    DecodeEncodeBytes(Encode(path));
    DecodeEncode(path);
  }

  predicate IsPlainText(s: string) {
    IsAscii(s) && forall i | 0 <= i < |s| :: IsPlain(s[i] as int)
  }

  lemma {:induction false} PlainPrefixOfBytes(bytes: seq<Byte>, prefix: string)
    requires IsPlainText(prefix)
    ensures StartsWith(EncodeBytes(bytes), prefix) <==> Ascii(prefix) <= bytes
  {
    if prefix != "" && bytes != [] {
      var head, rest := EncodeByte(bytes[0]), EncodeBytes(bytes[1..]);
      var text := head + rest;
      PrefixByHead(prefix, text);
      PrefixByHead(Ascii(prefix), bytes);
      assert Ascii(prefix)[1..] == Ascii(prefix[1..]);
      TailOfAppend(head, rest);
      PlainHead(bytes[0], prefix[0]);
      if bytes[0] == prefix[0] as int {
        AppendEmpty(rest);
        PlainPrefixOfBytes(bytes[1..], prefix[1..]);
      }
    }
  }

  lemma PlainHead(b: Byte, c: char)
    requires c as int < 256 && IsPlain(c as int)
    ensures EncodeByte(b)[0] == c <==> b == c as int
    ensures b == c as int ==> EncodeByte(b)[1..] == []
  {
  }

  /** Encoding neither adds nor hides a prefix of plain characters. */
  lemma PlainPrefix(path: string, prefix: string)
    requires IsPlainText(prefix)
    ensures StartsWith(UrlEncode(path), prefix) <==> StartsWith(path, prefix)
  {
    PlainPrefixOfBytes(Encode(path), prefix);
    AsciiPrefix(path, prefix);
  }

  lemma {:induction false} DecodeWithoutEscapes(bytes: seq<Byte>)
    requires '%' as int !in bytes
    ensures DecodeBytes(bytes) == bytes
  {
    if bytes != [] {
      DecodeWithoutEscapes(bytes[1..]);
      assert bytes == [bytes[0]] + bytes[1..];
    }
  }

  lemma {:induction false} PercentOnlyFromPercent(s: string)
    requires '%' !in s
    ensures '%' as int !in Encode(s)
  {
    if s != "" {
      assert s[0] != '%';
      PercentOnlyFromPercent(s[1..]);
    }
  }

  lemma DecodeWithoutPercent(s: string)
    requires '%' !in s
    ensures UrlDecode(s) == Some(s)
  {
    PercentOnlyFromPercent(s);
    DecodeWithoutEscapes(Encode(s));
    DecodeEncode(s);
  }

  // ---- Which characters stand for themselves

  /** Letters, digits and `-`, `.`, `_`, `~`, the unreserved characters of section 2.3 of RFC 3986, and `/`. */
  predicate StandsForItself(code: int) {
    || 0x41 <= code <= 0x5A || 0x61 <= code <= 0x7A || 0x30 <= code <= 0x39
    || code == 0x2D || code == 0x2E || code == 0x5F || code == 0x7E || code == 0x2F
  }

  /** A hexadecimal digit, upper case. */
  predicate IsHex(c: char, n: int) {
    0 <= n < 16 && c as int == if n < 10 then 0x30 + n else 0x41 + (n - 10)
  }

  /** What one byte becomes: itself, or `%` and its two hexadecimal digits, high one first. */
  lemma EncodeByteIs(b: Byte)
    ensures StandsForItself(b) ==> EncodeByte(b) == [b as char]
    ensures !StandsForItself(b) ==>
              && |EncodeByte(b)| == 3 && EncodeByte(b)[0] == '%'
              && IsHex(EncodeByte(b)[1], b / 16) && IsHex(EncodeByte(b)[2], b % 16)
  {
  }

  /** Texts are encoded byte by byte, in order. */
  lemma UrlEncodeConcat(a: string, b: string)
    ensures UrlEncode(a + b) == UrlEncode(a) + UrlEncode(b)
  {
    EncodeConcat(a, b);
    EncodeBytesConcat(Encode(a), Encode(b));
  }

  lemma {:induction false} EncodeBytesConcat(a: seq<Byte>, b: seq<Byte>)
    ensures EncodeBytes(a + b) == EncodeBytes(a) + EncodeBytes(b)
  {
    if a == [] {
      AppendEmpty(b);
    } else {
      TailOfAppend(a, b);
      EncodeBytesConcat(a[1..], b);
      AppendAssociates(EncodeByte(a[0]), EncodeBytes(a[1..]), EncodeBytes(b));
    }
  }

  /** A hexadecimal digit of either case, by its code. */
  predicate IsHexCode(code: int, n: int) {
    || (0x30 <= code <= 0x39 && n == code - 0x30)
    || (0x41 <= code <= 0x46 && n == code - 0x41 + 10)
    || (0x61 <= code <= 0x66 && n == code - 0x61 + 10)
  }

  lemma HexValueIs(b: Byte, n: int)
    ensures HexValue(b) == Some(n) <==> IsHexCode(b, n)
  {
  }

  /** Decoding reads `%` with two hexadecimal digits, of either case, as one byte, and anything else as it stands. */
  lemma DecodeIs(bytes: seq<Byte>, high: int, low: int)
    requires bytes != []
    ensures |bytes| >= 3 && bytes[0] == 0x25 && IsHexCode(bytes[1], high) && IsHexCode(bytes[2], low) ==>
              0 <= high * 16 + low < 256 && DecodeBytes(bytes) == [high * 16 + low] + DecodeBytes(bytes[3..])
    ensures (|bytes| < 3 || bytes[0] != 0x25 || HexValue(bytes[1]).None? || HexValue(bytes[2]).None?) ==>
              DecodeBytes(bytes) == [bytes[0]] + DecodeBytes(bytes[1..])
  {
    if |bytes| >= 3 {
      HexValueIs(bytes[1], high);
      HexValueIs(bytes[2], low);
    }
  }
}
