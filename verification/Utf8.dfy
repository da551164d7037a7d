/** UTF-8 as section 3 of RFC 3629 defines it. Byte limits, key labels and URLs all count in it. */
module Utf8 {
  import opened Text

  type Byte = b: int | 0 <= b < 256

  function EncodeChar(c: char): (bytes: seq<Byte>)
    ensures 1 <= |bytes| <= 4
  {
    var n := c as int;
    var m := n / 64;
    var k := m / 64;
    if n < 0x80 then [n]
    else if n < 0x800 then [0xC0 + m, 0x80 + n % 64]
    else if n < 0x1_0000 then [0xE0 + k, 0x80 + m % 64, 0x80 + n % 64]
    else [0xF0 + k / 64, 0x80 + k % 64, 0x80 + m % 64, 0x80 + n % 64]
  }

  function Encode(s: string): seq<Byte> {
    if s == [] then [] else EncodeChar(s[0]) + Encode(s[1..])
  }

  predicate Continuation(bytes: seq<Byte>, i: nat) {
    i < |bytes| && 0x80 <= bytes[i] < 0xC0
  }

  predicate IsScalar(n: int) {
    0 <= n < 0xD800 || 0xE000 <= n < 0x11_0000
  }

  /** Six more bits from a continuation byte. */
  function Append(high: int, continuation: Byte): int {
    high * 64 + (continuation as int - 0x80)
  }

  /** Strict decoding of the first character: no overlong form, surrogate or stray byte. */
  function DecodeChar(bytes: seq<Byte>): (r: Option<(char, nat)>)
    requires bytes != []
    ensures r.Some? ==> 1 <= r.value.1 <= |bytes|
  {
    var b: int := bytes[0];
    if b < 0x80 then Some((b as char, 1))
    else if 0xC0 <= b < 0xE0 && Continuation(bytes, 1) then
      var n := Append(b - 0xC0, bytes[1]);
      if 0x80 <= n then Some((n as char, 2)) else None
    else if 0xE0 <= b < 0xF0 && Continuation(bytes, 1) && Continuation(bytes, 2) then
      var n := Append(Append(b - 0xE0, bytes[1]), bytes[2]);
      if 0x800 <= n && IsScalar(n) then Some((n as char, 3)) else None
    else if 0xF0 <= b < 0xF8 && Continuation(bytes, 1) && Continuation(bytes, 2) && Continuation(bytes, 3) then
      var n := Append(Append(Append(b - 0xF0, bytes[1]), bytes[2]), bytes[3]);
      if 0x1_0000 <= n && IsScalar(n) then Some((n as char, 4)) else None
    else None
  }

  function Decode(bytes: seq<Byte>): Option<string> {
    if bytes == [] then Some([])
    else
      match DecodeChar(bytes)
      case None => None
      case Some((c, width)) =>
        match Decode(bytes[width..])
        case None => None
        case Some(rest) => Some([c] + rest)
  }

  lemma DecodeEncodeChar(c: char, tail: seq<Byte>)
    ensures DecodeChar(EncodeChar(c) + tail) == Some((c, |EncodeChar(c)|))
  {
    assert c as int as char == c;
  }

  /** Decoding undoes encoding, whatever the characters. */
  lemma {:induction false} DecodeEncode(s: string)
    ensures Decode(Encode(s)) == Some(s)
  {
    if s != [] {
      var head, tail := EncodeChar(s[0]), Encode(s[1..]);
      DecodeEncodeChar(s[0], tail);
      assert (head + tail)[|head|..] == tail;
      DecodeEncode(s[1..]);
      assert [s[0]] + s[1..] == s;
    }
  }

  /** Two strings with the same bytes are the same string. */
  lemma EncodeInjective(a: string, b: string)
    requires Encode(a) == Encode(b)
    ensures a == b
  {
    DecodeEncode(a);
    DecodeEncode(b);
  }

  lemma {:induction false} EncodeConcat(a: string, b: string)
    ensures Encode(a + b) == Encode(a) + Encode(b)
  {
    if a == [] {
      assert a + b == b;
    } else {
      TailOfAppend(a, b);
      EncodeConcat(a[1..], b);
      AppendAssociates(EncodeChar(a[0]), Encode(a[1..]), Encode(b));
    }
  }

  predicate IsAscii(s: string) {
    forall i | 0 <= i < |s| :: s[i] as int < 0x80
  }

  /** The bytes of a Rust byte-string literal. */
  function Ascii(s: string): (bytes: seq<Byte>)
    requires IsAscii(s)
    ensures |bytes| == |s| && forall i | 0 <= i < |s| :: bytes[i] == s[i] as int
  {
    seq(|s|, i requires 0 <= i < |s| => s[i] as int)
  }

  lemma {:induction false} EncodeAscii(s: string)
    requires IsAscii(s)
    ensures Encode(s) == Ascii(s)
  {
    if s != [] {
      EncodeAscii(s[1..]);
      assert Ascii(s) == [s[0] as int] + Ascii(s[1..]);
    }
  }

  lemma FirstByteIsAscii(s: string, c: char)
    requires s != [] && c as int < 0x80 && Encode(s)[0] == c as int
    ensures s[0] == c && Encode(s)[1..] == Encode(s[1..])
  {
    assert EncodeChar(s[0])[0] == c as int;
    assert EncodeChar(s[0]) == [c as int];
  }

  lemma PrefixOfCons<T>(x: T, a: seq<T>, b: seq<T>)
    ensures [x] + a <= [x] + b <==> a <= b
  {
    if a <= b {
      assert b == a + b[|a|..];
      assert [x] + b == [x] + a + b[|a|..];
    }
    if [x] + a <= [x] + b {
      assert a == ([x] + a)[1..] && b == ([x] + b)[1..];
    }
  }

  lemma {:induction false} AsciiPrefixOfBytes(s: string, prefix: string)
    requires IsAscii(prefix) && Ascii(prefix) <= Encode(s)
    ensures StartsWith(s, prefix)
  {
    if prefix != [] {
      var head, rest := prefix[0], prefix[1..];
      assert Encode(s)[0] == Ascii(prefix)[0];
      assert s != [];
      FirstByteIsAscii(s, head);
      assert Ascii(prefix) == [head as int] + Ascii(rest);
      assert Encode(s) == [head as int] + Encode(s[1..]);
      PrefixOfCons(head as int, Ascii(rest), Encode(s[1..]));
      AsciiPrefixOfBytes(s[1..], rest);
      assert prefix == [head] + rest && s == [head] + s[1..];
      PrefixOfCons(head, rest, s[1..]);
    }
  }

  /** An ASCII prefix of the bytes is a prefix of the characters. */
  lemma AsciiPrefix(s: string, prefix: string)
    requires IsAscii(prefix)
    ensures StartsWith(s, prefix) <==> Ascii(prefix) <= Encode(s)
  {
    if StartsWith(s, prefix) {
      assert s == prefix + s[|prefix|..];
      EncodeConcat(prefix, s[|prefix|..]);
      EncodeAscii(prefix);
    }
    if Ascii(prefix) <= Encode(s) {
      AsciiPrefixOfBytes(s, prefix);
    }
  }

  // ---- The bits

  /** One to four bytes by the size of the code, the first marking how many, the rest six bits each. */
  lemma EncodeCharIs(c: char)
    ensures var n, b := c as int, EncodeChar(c);
            && |b| == (if n < 0x80 then 1 else if n < 0x800 then 2 else if n < 0x1_0000 then 3 else 4)
            && (forall i | 1 <= i < |b| :: 0x80 <= b[i] < 0xC0)
            && n == Number(b[1..], b[0] as int - (if |b| == 1 then 0 else if |b| == 2 then 0xC0
                                                  else if |b| == 3 then 0xE0 else 0xF0))
  {
    var b := EncodeChar(c);
    var mark := if |b| == 1 then 0 else if |b| == 2 then 0xC0 else if |b| == 3 then 0xE0 else 0xF0;
    NumberIs(b[1..], b[0] as int - mark);
    assert forall i | 1 <= i < |b| :: b[1..][i - 1] == b[i];
  }

  lemma NumberIs(t: seq<Byte>, high: int)
    requires |t| <= 3
    ensures Number(t, high) ==
            if |t| == 0 then high
            else if |t| == 1 then high * 0x40 + (t[0] as int - 0x80)
            else if |t| == 2 then (high * 0x40 + (t[0] as int - 0x80)) * 0x40 + (t[1] as int - 0x80)
            else ((high * 0x40 + (t[0] as int - 0x80)) * 0x40 + (t[1] as int - 0x80)) * 0x40 + (t[2] as int - 0x80)
  {
    if |t| == 2 {
      assert t[1..][1..] == [];
    } else if |t| == 3 {
      assert t[1..][1..] == t[2..] && t[2..][1..] == [];
      assert Number(t[2..], (high * 0x40 + (t[0] as int - 0x80)) * 0x40 + (t[1] as int - 0x80)) ==
             ((high * 0x40 + (t[0] as int - 0x80)) * 0x40 + (t[1] as int - 0x80)) * 0x40 + (t[2] as int - 0x80);
    }
  }

  /** Six more bits for each byte. */
  function Number(bytes: seq<Byte>, high: int): int {
    if bytes == [] then high else Number(bytes[1..], high * 0x40 + (bytes[0] as int - 0x80))
  }
}
