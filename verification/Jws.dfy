/** Compact JWS (section 7.1 of RFC 7515): signing, strict parsing, and random identifiers. */
module Jws {
  import opened Text
  import opened Utf8
  import Base64Url

  const MAX_JWS_HEADER_LEN: nat := 512
  const ED25519_SIGNATURE_B64_LEN: nat := 86
  const RANDOM_ID_MAX_LENGTH: nat := 22

  datatype Header = Header(alg: string, typ: string)

  datatype ParsedJws = ParsedJws(signingInput: string, payload: seq<Byte>, signature: seq<Byte>)

  datatype ParseError = MalformedCredential | UnsupportedHeader

  /** JSON decoding of a header, left open. */
  type ReadHeader = seq<Byte> -> Option<Header>

  // ---- Signing

  function SigningInput(header: seq<Byte>, payload: seq<Byte>): string {
    Base64Url.Encode(header) + ['.'] + Base64Url.Encode(payload)
  }

  function FinishJws(signingInput: string, signature: seq<Byte>): string {
    signingInput + ['.'] + Base64Url.Encode(signature)
  }

  function SignJws(sign: seq<Byte> -> seq<Byte>, header: seq<Byte>, payload: seq<Byte>): string {
    var signingInput := SigningInput(header, payload);
    FinishJws(signingInput, sign(Encode(signingInput)))
  }

  // ---- Parsing

  /** The order of the checks decides which error is reported. */
  function ParseJws(read: ReadHeader, compact: string, typ: string): Result<ParsedJws, ParseError> {
    var parts := Split(compact, '.');
    if |parts| != 3 || parts[0] == "" || |Encode(parts[0])| > MAX_JWS_HEADER_LEN || parts[1] == "" ||
       |Encode(parts[2])| != ED25519_SIGNATURE_B64_LEN
    then Err(MalformedCredential)
    else
      match Base64Url.Decode(parts[0])
      case None => Err(MalformedCredential)
      case Some(header) =>
        if read(header) != Some(Header("EdDSA", typ)) then Err(UnsupportedHeader)
        else
          match Base64Url.Decode(parts[2])
          case None => Err(MalformedCredential)
          case Some(signature) =>
            if |signature| != 64 then Err(MalformedCredential)
            else
              match Base64Url.Decode(parts[1])
              case None => Err(MalformedCredential)
              case Some(payload) => Ok(ParsedJws(parts[0] + ['.'] + parts[1], payload, signature))
  }

  lemma JoinThree(a: string, b: string, c: string)
    ensures Join([a, b, c], '.') == a + ['.'] + b + ['.'] + c
  {
    assert [a, b, c][1..] == [b, c] && [b, c][1..] == [c];
    assert Join([b, c], '.') == b + ['.'] + c;
    assert a + ['.'] + (b + ['.'] + c) == a + ['.'] + b + ['.'] + c;
  }

  lemma CompactHasThreeParts(header: seq<Byte>, payload: seq<Byte>, signature: seq<Byte>)
    ensures Split(FinishJws(SigningInput(header, payload), signature), '.') ==
            [Base64Url.Encode(header), Base64Url.Encode(payload), Base64Url.Encode(signature)]
  {
    Base64Url.EncodedIsAsciiWithoutDot(header);
    Base64Url.EncodedIsAsciiWithoutDot(payload);
    Base64Url.EncodedIsAsciiWithoutDot(signature);
    var h, p, s := Base64Url.Encode(header), Base64Url.Encode(payload), Base64Url.Encode(signature);
    JoinThree(h, p, s);
    SplitJoin([h, p, s], '.');
  }

  predicate IsAcceptedHeader(read: ReadHeader, header: seq<Byte>, typ: string) {
    read(header) == Some(Header("EdDSA", typ)) && header != [] && (4 * |header| + 2) / 3 <= MAX_JWS_HEADER_LEN
  }

  /** What was signed is what is parsed. */
  lemma ParseOfSigned(read: ReadHeader, typ: string, header: seq<Byte>, payload: seq<Byte>, signature: seq<Byte>)
    requires IsAcceptedHeader(read, header, typ) && payload != [] && |signature| == 64
    ensures var signingInput := SigningInput(header, payload);
            ParseJws(read, FinishJws(signingInput, signature), typ) == Ok(ParsedJws(signingInput, payload, signature))
  {
    CompactHasThreeParts(header, payload, signature);
    Base64Url.EncodedLength(header);
    Base64Url.EncodedLength(payload);
    Base64Url.EncodedLength(signature);
    Base64Url.EncodedIsAsciiWithoutDot(header);
    Base64Url.EncodedIsAsciiWithoutDot(signature);
    Base64Url.DecodeEncode(header);
    Base64Url.DecodeEncode(payload);
    Base64Url.DecodeEncode(signature);
  }

  lemma JoinOfThree(compact: string)
    requires |Split(compact, '.')| == 3
    ensures var parts := Split(compact, '.');
            compact == parts[0] + ['.'] + parts[1] + ['.'] + parts[2]
  {
    var parts := Split(compact, '.');
    JoinSplit(compact, '.');
    assert parts == [parts[0], parts[1], parts[2]];
    JoinThree(parts[0], parts[1], parts[2]);
  }

  /** What is parsed can only have been written one way. */
  lemma ParsedWasWritten(read: ReadHeader, compact: string, typ: string) returns (header: seq<Byte>)
    requires ParseJws(read, compact, typ).Ok?
    ensures var jws := ParseJws(read, compact, typ).value;
            && IsAcceptedHeader(read, header, typ) && jws.payload != [] && |jws.signature| == 64
            && jws.signingInput == SigningInput(header, jws.payload)
            && compact == FinishJws(jws.signingInput, jws.signature)
  {
    var parts := Split(compact, '.');
    header := Base64Url.Decode(parts[0]).value;
    JoinOfThree(compact);
    Base64Url.EncodeOfDecoded(parts[0]);
    Base64Url.EncodeOfDecoded(parts[1]);
    Base64Url.EncodeOfDecoded(parts[2]);
    Base64Url.EncodedIsAsciiWithoutDot(header);
    Base64Url.EncodedLength(header);
    Base64Url.EncodedLength(Base64Url.Decode(parts[1]).value);
  }

  /** The accepted texts are exactly the signed forms. */
  lemma AcceptedIffWritten(read: ReadHeader, compact: string, typ: string, jws: ParsedJws)
    ensures ParseJws(read, compact, typ) == Ok(jws) <==>
            exists header ::
              && IsAcceptedHeader(read, header, typ) && jws.payload != [] && |jws.signature| == 64
              && jws.signingInput == SigningInput(header, jws.payload)
              && compact == FinishJws(jws.signingInput, jws.signature)
  {
    if ParseJws(read, compact, typ) == Ok(jws) {
      var header := ParsedWasWritten(read, compact, typ);
    }
    if header :|
      && IsAcceptedHeader(read, header, typ) && jws.payload != [] && |jws.signature| == 64
      && jws.signingInput == SigningInput(header, jws.payload)
      && compact == FinishJws(jws.signingInput, jws.signature)
    {
      ParseOfSigned(read, typ, header, jws.payload, jws.signature);
    }
  }

  /** A text of one type is never accepted as another. */
  lemma TypesAreSeparate(read: ReadHeader, compact: string, typ: string, typ': string)
    requires ParseJws(read, compact, typ).Ok? && ParseJws(read, compact, typ').Ok?
    ensures typ == typ'
  {
  }

  // ---- Reading a payload without verification

  /** `decode_jws_payload`: only the second part is decoded; what follows the second dot is not looked at. */
  function PayloadBytes(compact: string): Option<seq<Byte>> {
    var parts := Split(compact, '.');
    if |parts| < 3 then None else Base64Url.Decode(parts[1])
  }

  lemma PayloadOfSigned(header: seq<Byte>, payload: seq<Byte>, signature: seq<Byte>)
    ensures PayloadBytes(FinishJws(SigningInput(header, payload), signature)) == Some(payload)
  {
    CompactHasThreeParts(header, payload, signature);
    Base64Url.DecodeEncode(payload);
  }

  // ---- Random identifiers

  predicate IsRandomId(s: string) {
    s != "" && |Encode(s)| <= RANDOM_ID_MAX_LENGTH && Base64Url.AreDigits(s)
  }

  /** Generated identifiers are accepted, and distinct bytes give distinct identifiers. */
  lemma GeneratedIdIsValid(bytes: seq<Byte>, bytes': seq<Byte>)
    requires |bytes| == 16 && |bytes'| == 16
    ensures IsRandomId(Base64Url.Encode(bytes)) && |Base64Url.Encode(bytes)| == 22
    ensures Base64Url.Encode(bytes) == Base64Url.Encode(bytes') ==> bytes == bytes'
  {
    Base64Url.EncodedLength(bytes);
    Base64Url.EncodedIsDigits(bytes);
    Base64Url.EncodedIsAsciiWithoutDot(bytes);
    Base64Url.DecodeEncode(bytes);
    Base64Url.DecodeEncode(bytes');
  }

  // ---- The limits in numbers

  /** The shape that is checked before anything is decoded. */
  predicate HasShape(parts: seq<string>) {
    && |parts| == 3 && parts[0] != "" && |Encode(parts[0])| <= 512 && parts[1] != "" && |Encode(parts[2])| == 86
  }

  /** A header that decodes but is not the expected one is unsupported; every other failure is malformed. */
  lemma ParseErrorIff(read: ReadHeader, compact: string, typ: string)
    ensures var r, parts := ParseJws(read, compact, typ), Split(compact, '.');
            && (r == Err(UnsupportedHeader) <==>
                && HasShape(parts) && Base64Url.Decode(parts[0]).Some?
                && read(Base64Url.Decode(parts[0]).value) != Some(Header("EdDSA", typ)))
            && (r.Ok? <==>
                && HasShape(parts) && Base64Url.Decode(parts[0]).Some?
                && read(Base64Url.Decode(parts[0]).value) == Some(Header("EdDSA", typ))
                && Base64Url.Decode(parts[1]).Some?
                && Base64Url.Decode(parts[2]).Some? && |Base64Url.Decode(parts[2]).value| == 64)
            && (r.Err? && r != Err(UnsupportedHeader) ==> r == Err(MalformedCredential))
  {
  }

  /** An identifier has 1 to 22 characters, each a letter, a digit, `-` or `_`. */
  lemma RandomIdIff(s: string)
    ensures IsRandomId(s) <==>
            && 1 <= |Encode(s)| <= 22
            && forall i | 0 <= i < |s| ::
                 || 'a' <= s[i] <= 'z' || 'A' <= s[i] <= 'Z' || '0' <= s[i] <= '9' || s[i] == '-' || s[i] == '_'
  {
  }
}
