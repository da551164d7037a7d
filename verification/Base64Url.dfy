/** Unpadded base64url (section 5 of RFC 4648) as the `URL_SAFE_NO_PAD` engine encodes and strictly decodes it. */
module Base64Url {
  import opened Text
  import Utf8

  type Byte = Utf8.Byte

  function Digit(n: int): char
    requires 0 <= n < 64
  {
    if n < 26 then ('A' as int + n) as char
    else if n < 52 then ('a' as int + n - 26) as char
    else if n < 62 then ('0' as int + n - 52) as char
    else if n == 62 then '-'
    else '_'
  }

  function Value(c: char): (r: Option<int>)
    ensures r.Some? ==> 0 <= r.value < 64
  {
    if 'A' <= c <= 'Z' then Some(c as int - 'A' as int)
    else if 'a' <= c <= 'z' then Some(c as int - 'a' as int + 26)
    else if '0' <= c <= '9' then Some(c as int - '0' as int + 52)
    else if c == '-' then Some(62)
    else if c == '_' then Some(63)
    else None
  }

  lemma ValueOfDigit(n: int)
    requires 0 <= n < 64
    ensures Value(Digit(n)) == Some(n)
  {
  }

  lemma DigitOfValue(c: char)
    requires Value(c).Some?
    ensures Digit(Value(c).value) == c
  {
  }

  type Sextet = n: int | 0 <= n < 64

  /** Three bytes are four sextets; a rest of one or two bytes is filled up with zero bits. */
  function Pack(bytes: seq<Byte>): (sextets: seq<Sextet>)
    requires |bytes| <= 3
    ensures |sextets| == (4 * |bytes| + 2) / 3
  {
    if bytes == [] then []
    else if |bytes| == 1 then [bytes[0] / 4, bytes[0] % 4 * 16]
    else if |bytes| == 2 then [bytes[0] / 4, bytes[0] % 4 * 16 + bytes[1] / 16, bytes[1] % 16 * 4]
    else [bytes[0] / 4, bytes[0] % 4 * 16 + bytes[1] / 16, bytes[1] % 16 * 4 + bytes[2] / 64, bytes[2] % 64]
  }

  /** Stray bits and a single left-over sextet are refused. */
  function Unpack(sextets: seq<Sextet>): Option<seq<Byte>>
    requires |sextets| <= 4
  {
    if sextets == [] then Some([])
    else if |sextets| == 1 then None
    else
      var first := sextets[0] as int * 4 + sextets[1] / 16;
      if |sextets| == 2 then
        if sextets[1] % 16 == 0 then Some([first]) else None
      else
        var second := sextets[1] as int % 16 * 16 + sextets[2] / 4;
        if |sextets| == 3 then
          if sextets[2] % 4 == 0 then Some([first, second]) else None
        else
          Some([first, second, sextets[2] as int % 4 * 64 + sextets[3]])
  }

  lemma UnpackPack(bytes: seq<Byte>)
    requires |bytes| <= 3
    ensures Unpack(Pack(bytes)) == Some(bytes)
  {
    if |bytes| == 1 {
      assert bytes == [bytes[0]];
    } else if |bytes| == 2 {
      var second := Pack(bytes)[1];
      assert second / 16 == bytes[0] % 4 && second % 16 == bytes[1] / 16;
      assert bytes == [bytes[0], bytes[1]];
    } else if |bytes| == 3 {
      var second, third := Pack(bytes)[1], Pack(bytes)[2];
      assert second / 16 == bytes[0] % 4 && second % 16 == bytes[1] / 16;
      assert third / 4 == bytes[1] % 16 && third % 4 == bytes[2] / 64;
      assert bytes == [bytes[0], bytes[1], bytes[2]];
    }
  }

  lemma PackUnpack(sextets: seq<Sextet>)
    requires |sextets| <= 4 && Unpack(sextets).Some?
    ensures |Unpack(sextets).value| <= 3 && Pack(Unpack(sextets).value) == sextets
    ensures |sextets| == 4 ==> |Unpack(sextets).value| == 3
  {
    var bytes := Unpack(sextets).value;
    if |sextets| >= 2 {
      assert bytes[0] / 4 == sextets[0] && bytes[0] % 4 == sextets[1] / 16;
      if |sextets| == 2 {
        assert sextets == [sextets[0], sextets[1]];
      } else {
        assert bytes[1] / 16 == sextets[1] % 16 && bytes[1] % 16 == sextets[2] / 4;
        if |sextets| == 3 {
          assert sextets == [sextets[0], sextets[1], sextets[2]];
        } else {
          assert bytes[2] / 64 == sextets[2] % 4 && bytes[2] % 64 == sextets[3];
          assert sextets == [sextets[0], sextets[1], sextets[2], sextets[3]];
        }
      }
    }
  }

  function Digits(sextets: seq<Sextet>): (s: string)
    ensures |s| == |sextets| && forall i | 0 <= i < |s| :: s[i] == Digit(sextets[i])
  {
    seq(|sextets|, i requires 0 <= i < |sextets| => Digit(sextets[i]))
  }

  predicate AreDigits(s: string) {
    forall i | 0 <= i < |s| :: Value(s[i]).Some?
  }

  function Values(s: string): (sextets: seq<Sextet>)
    requires AreDigits(s)
    ensures |sextets| == |s| && forall i | 0 <= i < |s| :: Value(s[i]) == Some(sextets[i])
  {
    seq(|s|, i requires 0 <= i < |s| => Value(s[i]).value)
  }

  lemma ValuesOfDigits(sextets: seq<Sextet>)
    ensures AreDigits(Digits(sextets)) && Values(Digits(sextets)) == sextets
  {
    forall i | 0 <= i < |sextets|
      ensures Value(Digits(sextets)[i]) == Some(sextets[i])
    {
      ValueOfDigit(sextets[i]);
    }
  }

  lemma DigitsOfValues(s: string)
    requires AreDigits(s)
    ensures Digits(Values(s)) == s
  {
    forall i | 0 <= i < |s|
      ensures Digits(Values(s))[i] == s[i]
    {
      DigitOfValue(s[i]);
    }
  }

  function Encode(bytes: seq<Byte>): string {
    if |bytes| <= 3 then Digits(Pack(bytes)) else Digits(Pack(bytes[..3])) + Encode(bytes[3..])
  }

  function DecodeGroup(s: string): Option<seq<Byte>>
    requires |s| <= 4
  {
    if AreDigits(s) then Unpack(Values(s)) else None
  }

  function Decode(s: string): Option<seq<Byte>> {
    if |s| <= 4 then DecodeGroup(s)
    else
      var head, rest := DecodeGroup(s[..4]), Decode(s[4..]);
      if head.Some? && rest.Some? then Some(head.value + rest.value) else None
  }

  lemma DecodeEncodeGroup(bytes: seq<Byte>)
    requires |bytes| <= 3
    ensures |Encode(bytes)| <= 4 && AreDigits(Encode(bytes)) && DecodeGroup(Encode(bytes)) == Some(bytes)
  {
    ValuesOfDigits(Pack(bytes));
    UnpackPack(bytes);
  }

  lemma EncodeDecodeGroup(s: string)
    requires |s| <= 4 && DecodeGroup(s).Some?
    ensures |DecodeGroup(s).value| <= 3 && Encode(DecodeGroup(s).value) == s
    ensures |s| == 4 ==> |DecodeGroup(s).value| == 3
  {
    PackUnpack(Values(s));
    DigitsOfValues(s);
  }

  lemma EncodeAppendGroup(group: seq<Byte>, rest: seq<Byte>)
    requires |group| == 3
    ensures Encode(group + rest) == Encode(group) + Encode(rest)
  {
    assert (group + rest)[..3] == group && (group + rest)[3..] == rest;
    if rest == [] {
      assert group + rest == group;
    }
  }

  /** Decoding undoes encoding. */
  lemma {:induction false} DecodeEncode(bytes: seq<Byte>)
    ensures Decode(Encode(bytes)) == Some(bytes)
  {
    if |bytes| <= 3 {
      DecodeEncodeGroup(bytes);
    } else {
      var group, rest := bytes[..3], bytes[3..];
      assert bytes == group + rest;
      EncodeAppendGroup(group, rest);
      DecodeEncodeGroup(group);
      DecodeEncode(rest);
      var s := Encode(bytes);
      EncodedLength(rest);
      assert s[..4] == Encode(group) && s[4..] == Encode(rest);
    }
  }

  /** What decodes at all is the encoding of what it decodes to: every byte string has one spelling. */
  lemma {:induction false} EncodeOfDecoded(s: string)
    requires Decode(s).Some?
    ensures Encode(Decode(s).value) == s
  {
    if |s| <= 4 {
      EncodeDecodeGroup(s);
    } else {
      EncodeDecodeGroup(s[..4]);
      EncodeOfDecoded(s[4..]);
      EncodeAppendGroup(DecodeGroup(s[..4]).value, Decode(s[4..]).value);
      assert s == s[..4] + s[4..];
    }
  }

  /** Two bits short of a digit per byte: 16, 32 and 64 bytes take 22, 43 and 86 digits. */
  lemma {:induction false} EncodedLength(bytes: seq<Byte>)
    ensures |Encode(bytes)| == (4 * |bytes| + 2) / 3
  {
    if |bytes| > 3 {
      EncodedLength(bytes[3..]);
    }
  }

  lemma {:induction false} EncodedIsDigits(bytes: seq<Byte>)
    ensures AreDigits(Encode(bytes))
  {
    if |bytes| <= 3 {
      ValuesOfDigits(Pack(bytes));
    } else {
      ValuesOfDigits(Pack(bytes[..3]));
      EncodedIsDigits(bytes[3..]);
    }
  }

  /** The digits are ASCII, and the dot is not among them. */
  lemma EncodedIsAsciiWithoutDot(bytes: seq<Byte>)
    ensures Utf8.IsAscii(Encode(bytes)) && '.' !in Encode(bytes)
    ensures |Utf8.Encode(Encode(bytes))| == |Encode(bytes)|
  {
    EncodedIsDigits(bytes);
    var s := Encode(bytes);
    assert forall i | 0 <= i < |s| :: Value(s[i]).Some?;
    Utf8.EncodeAscii(s);
  }

  // ---- The text form of a 32-byte secret

  /** `deserialize` for readable formats: the length is checked before and after decoding. */
  function DecodeSecret(text: string): Option<seq<Byte>> {
    if |Utf8.Encode(text)| != 43 then None
    else
      match Decode(text)
      case None => None
      case Some(bytes) => if |bytes| == 32 then Some(bytes) else None
  }

  /** A text denotes a secret exactly when it is that secret's encoding. */
  lemma SecretTextIff(text: string, secret: seq<Byte>)
    requires |secret| == 32
    ensures DecodeSecret(text) == Some(secret) <==> text == Encode(secret)
  {
    if text == Encode(secret) {
      EncodedLength(secret);
      EncodedIsAsciiWithoutDot(secret);
      DecodeEncode(secret);
    }
    if DecodeSecret(text) == Some(secret) {
      EncodeOfDecoded(text);
    }
  }

  // ---- The alphabet and the bits

  /** The URL-safe alphabet of section 5 of RFC 4648: `A` to `Z`, `a` to `z`, `0` to `9`, `-`, `_`. */
  lemma DigitIs(n: int)
    requires 0 <= n < 64
    ensures Digit(n) as int ==
            if n < 26 then 0x41 + n else if n < 52 then 0x61 + (n - 26) else if n < 62 then 0x30 + (n - 52)
            else if n == 62 then 0x2D else 0x5F
  {
  }

  /** Digits of a number, most significant first. */
  function Number(digits: seq<int>, base: int): int {
    if digits == [] then 0 else Number(digits[..|digits| - 1], base) * base + Last(digits)
  }

  /** The bytes of a group, read as one number, are its sextets read as one number, filled up with zeros. */
  lemma PackKeepsBits(bytes: seq<Byte>)
    requires 1 <= |bytes| <= 3
    ensures Number(Pack(bytes), 64) ==
            Number(bytes, 256) * (if |bytes| == 1 then 16 else if |bytes| == 2 then 4 else 1)
  {
    var s := Pack(bytes);
    NumberOf(bytes, 256);
    NumberOf(s, 64);
  }

  lemma NumberOf(d: seq<int>, base: int)
    requires 1 <= |d| <= 4
    ensures Number(d, base) ==
            if |d| == 1 then d[0]
            else if |d| == 2 then d[0] * base + d[1]
            else if |d| == 3 then (d[0] * base + d[1]) * base + d[2]
            else ((d[0] * base + d[1]) * base + d[2]) * base + d[3]
  {
    assert d[..1][..0] == [];
    if |d| > 1 {
      assert d[..2][..1] == d[..1];
    }
    if |d| > 2 {
      assert d[..3][..2] == d[..2];
    }
    assert Number(d[..1], base) == d[0];
  }
}
