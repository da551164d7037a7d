/** Offline verification of a custom proof against its grant. */
module CustomPop {
  import opened Text
  import opened Utf8
  import opened Jws

  const GRANT_JWS_TYP: string := "pubky-grant"
  const CUSTOM_POP_JWS_TYP: string := "pubky-custom-pop-v1"

  const U64_MAX: int := 0xFFFF_FFFF_FFFF_FFFF

  type U64 = n: int | 0 <= n <= U64_MAX

  /** `K` is the type of public keys, `R` the claims that verification only passes on. */
  datatype Grant<K, R> = Grant(iss: K, cnf: K, jti: string, iat: U64, exp: U64, rest: R)

  datatype Proof<D> = Proof(gid: string, iat: U64, nonce: string, data: D)

  datatype Verified<K, R, D> = Verified(grant: Grant<K, R>, iat: U64, nonce: string, data: D)

  datatype Credentials = Credentials(grant: string, pop: string)

  datatype PopError =
    | Parse(error: ParseError)
    | InvalidGrantSignature
    | InvalidProofSignature
    | InvalidGrant
    | GrantExpired
    | GrantNotYetValid
    | ProofNotYetValid
    | ProofOutsideGrantValidity
    | GrantMismatch

  // ---- Time

  function SaturatingAdd(a: U64, b: U64): U64 {
    if a as int + b as int > U64_MAX then U64_MAX else a + b
  }

  /** The checks on the clock, in order. */
  function TimeFault(grantIat: U64, exp: U64, proofIat: U64, now: U64, skew: U64): Option<PopError> {
    if grantIat >= exp then Some(InvalidGrant)
    else if now >= exp then Some(GrantExpired)
    else if SaturatingAdd(now, skew) < grantIat then Some(GrantNotYetValid)
    else if SaturatingAdd(now, skew) < proofIat then Some(ProofNotYetValid)
    else if SaturatingAdd(proofIat, skew) < grantIat || proofIat >= exp then Some(ProofOutsideGrantValidity)
    else None
  }

  /** The same verdict with unbounded integers. */
  predicate InTime(grantIat: int, exp: int, proofIat: int, now: int, skew: int) {
    && grantIat < exp && now < exp
    && grantIat <= now + skew && proofIat <= now + skew
    && grantIat <= proofIat + skew && proofIat < exp
  }

  /** Saturating sums change neither the verdict nor the error: each error means the same with unbounded integers. */
  lemma SaturationIsHarmless(grantIat: U64, exp: U64, proofIat: U64, now: U64, skew: U64)
    ensures var fault := TimeFault(grantIat, exp, proofIat, now, skew);
            var current := grantIat < exp && now < exp;
            && (fault.None? <==> InTime(grantIat, exp, proofIat, now, skew))
            && (fault == Some(InvalidGrant) <==> exp <= grantIat)
            && (fault == Some(GrantExpired) <==> grantIat < exp <= now)
            && (fault == Some(GrantNotYetValid) <==> current && now as int + skew as int < grantIat)
            && (fault == Some(ProofNotYetValid) <==> current && grantIat <= now as int + skew as int < proofIat)
            && (fault == Some(ProofOutsideGrantValidity) <==>
                && current && grantIat <= now as int + skew as int && proofIat <= now as int + skew as int
                && (proofIat as int + skew as int < grantIat || exp <= proofIat))
  {
  }

  /** When the accepting times begin. */
  function Start(grantIat: int, proofIat: int, skew: int): int {
    (if grantIat < proofIat then proofIat else grantIat) - skew
  }

  /** The accepting times are the interval from `Start` to just before expiry, or none at all. */
  lemma AcceptingTimesAreAnInterval(grantIat: U64, exp: U64, proofIat: U64, skew: U64, now: U64)
    ensures TimeFault(grantIat, exp, proofIat, now, skew).None? <==>
            && grantIat < exp && proofIat < exp && grantIat <= proofIat + skew
            && Start(grantIat, proofIat, skew) <= now < exp
  {
    SaturationIsHarmless(grantIat, exp, proofIat, now, skew);
  }

  /** More allowance accepts no less, and never past expiry. */
  lemma SkewOnlyWidens(grantIat: U64, exp: U64, proofIat: U64, now: U64, skew: U64, skew': U64)
    requires skew <= skew' && TimeFault(grantIat, exp, proofIat, now, skew).None?
    ensures TimeFault(grantIat, exp, proofIat, now, skew').None? && now < exp
  {
    SaturationIsHarmless(grantIat, exp, proofIat, now, skew);
    SaturationIsHarmless(grantIat, exp, proofIat, now, skew');
  }

  // ---- Verification

  /** What the verifier is given: JSON decoding and signature checking. */
  datatype Verifier<!K, !R, !D> = Verifier(
    readHeader: ReadHeader,
    readGrant: seq<Byte> -> Option<Grant<K, R>>,
    readProof: seq<Byte> -> Option<Proof<D>>,
    verify: (K, seq<Byte>, seq<Byte>) -> bool)

  function VerifyAt<K, R, D>(v: Verifier<K, R, D>, credentials: Credentials, now: U64, skew: U64)
    : Result<Verified<K, R, D>, PopError>
  {
    match ParseJws(v.readHeader, credentials.grant, GRANT_JWS_TYP)
    case Err(error) => Err(Parse(error))
    case Ok(grantJws) =>
      match v.readGrant(grantJws.payload)
      case None => Err(Parse(MalformedCredential))
      case Some(grant) =>
        if !v.verify(grant.iss, Encode(grantJws.signingInput), grantJws.signature) then Err(InvalidGrantSignature)
        else
          match ParseJws(v.readHeader, credentials.pop, CUSTOM_POP_JWS_TYP)
          case Err(error) => Err(Parse(error))
          case Ok(proofJws) =>
            if !v.verify(grant.cnf, Encode(proofJws.signingInput), proofJws.signature) then Err(InvalidProofSignature)
            else
              match v.readProof(proofJws.payload)
              case None => Err(Parse(MalformedCredential))
              case Some(proof) => CheckClaims(grant, proof, now, skew)
  }

  /** The checks on the claims themselves. */
  function CheckClaims<K, R, D>(grant: Grant<K, R>, proof: Proof<D>, now: U64, skew: U64)
    : Result<Verified<K, R, D>, PopError>
  {
    if proof.gid != grant.jti then Err(GrantMismatch)
    else
      match TimeFault(grant.iat, grant.exp, proof.iat, now, skew)
      case Some(fault) => Err(fault)
      case None => Ok(Verified(grant, proof.iat, proof.nonce, proof.data))
  }

  // ---- Completeness and soundness, signatures symbolic

  datatype Signer<!S, !K> = Signer(public: S -> K, sign: (S, seq<Byte>) -> seq<Byte>)

  /** Some holder of the key made the signature. */
  ghost predicate IsMadeFor<S(!new), K>(signer: Signer<S, K>, key: K, message: seq<Byte>, signature: seq<Byte>) {
    exists secret :: signer.public(secret) == key && signature == signer.sign(secret, message)
  }

  /** A signature verifies under a public key exactly when a holder of that key made it. */
  ghost predicate IsIdeal<S(!new), K(!new), R, D>(signer: Signer<S, K>, v: Verifier<K, R, D>) {
    forall key, message, signature ::
      v.verify(key, message, signature) <==> IsMadeFor(signer, key, message, signature)
  }

  /** The text a holder of `secret` signs. */
  function Signed<S, K>(signer: Signer<S, K>, secret: S, header: seq<Byte>, payload: seq<Byte>): string {
    SignJws(message => signer.sign(secret, message), header, payload)
  }

  /** One text, as its holder would have made it. */
  ghost predicate IsSignedBy<S, K>(signer: Signer<S, K>, secret: S, read: ReadHeader, typ: string, text: string,
                                   header: seq<Byte>, payload: seq<Byte>) {
    && IsAcceptedHeader(read, header, typ)
    && payload != []
    && |signer.sign(secret, Encode(SigningInput(header, payload)))| == 64
    && text == Signed(signer, secret, header, payload)
  }

  lemma SignedTextVerifies<S(!new), K(!new), R, D>(signer: Signer<S, K>, v: Verifier<K, R, D>, secret: S, typ: string,
                                                   text: string, header: seq<Byte>, payload: seq<Byte>)
    requires IsIdeal(signer, v)
    requires IsSignedBy(signer, secret, v.readHeader, typ, text, header, payload)
    ensures var parsed := ParseJws(v.readHeader, text, typ);
            && parsed.Ok? && parsed.value.payload == payload
            && v.verify(signer.public(secret), Encode(parsed.value.signingInput), parsed.value.signature)
  {
    var signature := signer.sign(secret, Encode(SigningInput(header, payload)));
    ParseOfSigned(v.readHeader, typ, header, payload, signature);
    assert IsMadeFor(signer, signer.public(secret), Encode(SigningInput(header, payload)), signature);
  }

  lemma VerifiedTextWasSigned<S(!new), K(!new), R, D>(signer: Signer<S, K>, v: Verifier<K, R, D>, key: K, typ: string,
                                                      text: string)
    returns (secret: S, header: seq<Byte>)
    requires IsIdeal(signer, v)
    requires ParseJws(v.readHeader, text, typ).Ok?
    requires var jws := ParseJws(v.readHeader, text, typ).value;
             v.verify(key, Encode(jws.signingInput), jws.signature)
    ensures signer.public(secret) == key
    ensures IsSignedBy(signer, secret, v.readHeader, typ, text, header, ParseJws(v.readHeader, text, typ).value.payload)
  {
    var jws := ParseJws(v.readHeader, text, typ).value;
    assert IsMadeFor(signer, key, Encode(jws.signingInput), jws.signature);
    secret :| signer.public(secret) == key && jws.signature == signer.sign(secret, Encode(jws.signingInput));
    header := ParsedWasWritten(v.readHeader, text, typ);
  }

  /** Grant and proof texts made by their holders, and claims that fit together and are in time. */
  ghost predicate IsHonest<S, K, R, D>(signer: Signer<S, K>, v: Verifier<K, R, D>, root: S, client: S,
                                       credentials: Credentials, now: U64, skew: U64,
                                       grant: Grant<K, R>, proof: Proof<D>)
  {
    && grant.iss == signer.public(root) && grant.cnf == signer.public(client)
    && (exists header, payload ::
          IsSignedBy(signer, root, v.readHeader, GRANT_JWS_TYP, credentials.grant, header, payload) &&
          v.readGrant(payload) == Some(grant))
    && (exists header, payload ::
          IsSignedBy(signer, client, v.readHeader, CUSTOM_POP_JWS_TYP, credentials.pop, header, payload) &&
          v.readProof(payload) == Some(proof))
    && proof.gid == grant.jti
    && InTime(grant.iat, grant.exp, proof.iat, now, skew)
  }

  /** Texts made by the holders are judged by their claims alone. */
  lemma SignedTextsAreJudgedByClaims<S(!new), K(!new), R, D>(
    signer: Signer<S, K>, v: Verifier<K, R, D>, root: S, client: S, credentials: Credentials, now: U64, skew: U64,
    grant: Grant<K, R>, h1: seq<Byte>, p1: seq<Byte>, proof: Proof<D>, h2: seq<Byte>, p2: seq<Byte>)
    requires IsIdeal(signer, v)
    requires grant.iss == signer.public(root) && grant.cnf == signer.public(client)
    requires IsSignedBy(signer, root, v.readHeader, GRANT_JWS_TYP, credentials.grant, h1, p1)
    requires v.readGrant(p1) == Some(grant)
    requires IsSignedBy(signer, client, v.readHeader, CUSTOM_POP_JWS_TYP, credentials.pop, h2, p2)
    requires v.readProof(p2) == Some(proof)
    ensures VerifyAt(v, credentials, now, skew) == CheckClaims(grant, proof, now, skew)
  {
    SignedTextVerifies(signer, v, root, GRANT_JWS_TYP, credentials.grant, h1, p1);
    SignedTextVerifies(signer, v, client, CUSTOM_POP_JWS_TYP, credentials.pop, h2, p2);
  }

  /** Honest credentials are accepted, with exactly the claims that were signed. */
  lemma HonestIsAccepted<S(!new), K(!new), R, D>(signer: Signer<S, K>, v: Verifier<K, R, D>, root: S, client: S,
                                                 credentials: Credentials, now: U64, skew: U64,
                                                 grant: Grant<K, R>, proof: Proof<D>)
    requires IsIdeal(signer, v)
    requires IsHonest(signer, v, root, client, credentials, now, skew, grant, proof)
    ensures VerifyAt(v, credentials, now, skew) == Ok(Verified(grant, proof.iat, proof.nonce, proof.data))
  {
    var h1, p1 :| IsSignedBy(signer, root, v.readHeader, GRANT_JWS_TYP, credentials.grant, h1, p1) &&
                  v.readGrant(p1) == Some(grant);
    var h2, p2 :| IsSignedBy(signer, client, v.readHeader, CUSTOM_POP_JWS_TYP, credentials.pop, h2, p2) &&
                  v.readProof(p2) == Some(proof);
    SignedTextsAreJudgedByClaims(signer, v, root, client, credentials, now, skew, grant, h1, p1, proof, h2, p2);
    SaturationIsHarmless(grant.iat, grant.exp, proof.iat, now, skew);
  }

  /** Accepted credentials are honest: holders of the issuer's and the client's key signed grant and proof. */
  lemma AcceptedIsHonest<S(!new), K(!new), R, D>(signer: Signer<S, K>, v: Verifier<K, R, D>,
                                                 credentials: Credentials, now: U64, skew: U64)
    returns (root: S, client: S, proof: Proof<D>)
    requires IsIdeal(signer, v)
    requires VerifyAt(v, credentials, now, skew).Ok?
    ensures var verified := VerifyAt(v, credentials, now, skew).value;
            && verified == Verified(verified.grant, proof.iat, proof.nonce, proof.data)
            && IsHonest(signer, v, root, client, credentials, now, skew, verified.grant, proof)
  {
    var grant := VerifyAt(v, credentials, now, skew).value.grant;
    var grantJws := ParseJws(v.readHeader, credentials.grant, GRANT_JWS_TYP).value;
    var proofJws := ParseJws(v.readHeader, credentials.pop, CUSTOM_POP_JWS_TYP).value;
    proof := v.readProof(proofJws.payload).value;
    var h1, h2;
    root, h1 := VerifiedTextWasSigned(signer, v, grant.iss, GRANT_JWS_TYP, credentials.grant);
    client, h2 := VerifiedTextWasSigned(signer, v, grant.cnf, CUSTOM_POP_JWS_TYP, credentials.pop);
    SaturationIsHarmless(grant.iat, grant.exp, proof.iat, now, skew);
  }

  /** The assumptions can be met: for any claims that fit there is an ideal scheme and honest texts under it. */
  lemma HonestCredentialsExist<K(!new), R, D>(grant: Grant<K, R>, proof: Proof<D>, now: U64, skew: U64)
    returns (signer: Signer<K, K>, v: Verifier<K, R, D>, credentials: Credentials)
    requires proof.gid == grant.jti && InTime(grant.iat, grant.exp, proof.iat, now, skew)
    ensures IsIdeal(signer, v)
    ensures IsHonest(signer, v, grant.iss, grant.cnf, credentials, now, skew, grant, proof)
  {
    var blank: seq<Byte> := seq(64, _ => 0);
    var h1: seq<Byte>, h2: seq<Byte>, payload: seq<Byte> := [1], [2], [0];
    signer := Signer((key: K) => key, (key: K, message: seq<Byte>) => blank);
    v := Verifier(
      (h: seq<Byte>) => Some(Header("EdDSA", if h == h1 then GRANT_JWS_TYP else CUSTOM_POP_JWS_TYP)),
      (p: seq<Byte>) => Some(grant),
      (p: seq<Byte>) => Some(proof),
      (key: K, message: seq<Byte>, signature: seq<Byte>) => signature == blank);
    credentials := Credentials(Signed(signer, grant.iss, h1, payload), Signed(signer, grant.cnf, h2, payload));
    forall key: K, message: seq<Byte>, signature: seq<Byte>
      ensures v.verify(key, message, signature) <==> IsMadeFor(signer, key, message, signature)
    {
      assert signer.public(key) == key;
    }
    assert h1 != h2;
    assert IsSignedBy(signer, grant.iss, v.readHeader, GRANT_JWS_TYP, credentials.grant, h1, payload);
    assert IsSignedBy(signer, grant.cnf, v.readHeader, CUSTOM_POP_JWS_TYP, credentials.pop, h2, payload);
  }

  // ---- Which error

  /** The grant text parses under its type, its payload is a grant, and it is signed by its issuer. */
  ghost predicate IsReadableGrant<K, R, D>(v: Verifier<K, R, D>, text: string, grant: Grant<K, R>) {
    var parsed := ParseJws(v.readHeader, text, "pubky-grant");
    parsed.Ok? && v.readGrant(parsed.value.payload) == Some(grant)
  }

  ghost predicate IsSignedGrant<K, R, D>(v: Verifier<K, R, D>, text: string, grant: Grant<K, R>) {
    var parsed := ParseJws(v.readHeader, text, "pubky-grant");
    && IsReadableGrant(v, text, grant)
    && v.verify(grant.iss, Encode(parsed.value.signingInput), parsed.value.signature)
  }

  ghost predicate IsSignedProof<K, R, D>(v: Verifier<K, R, D>, text: string, grant: Grant<K, R>) {
    var parsed := ParseJws(v.readHeader, text, "pubky-custom-pop-v1");
    && parsed.Ok?
    && v.verify(grant.cnf, Encode(parsed.value.signingInput), parsed.value.signature)
  }

  /** Each error of the verifier, for any credentials: the grant first, then the proof, then what they claim. */
  lemma VerificationErrorIff<K(!new), R(!new), D(!new)>(v: Verifier<K, R, D>, credentials: Credentials,
                                                        now: U64, skew: U64)
    ensures var r := VerifyAt(v, credentials, now, skew);
            var proofJws := ParseJws(v.readHeader, credentials.pop, "pubky-custom-pop-v1");
            && (r == Err(InvalidGrantSignature) <==>
                exists grant ::
                  IsReadableGrant(v, credentials.grant, grant) && !IsSignedGrant(v, credentials.grant, grant))
            && (r == Err(InvalidProofSignature) <==>
                exists grant ::
                  && IsSignedGrant(v, credentials.grant, grant) && proofJws.Ok?
                  && !IsSignedProof(v, credentials.pop, grant))
            && (r == Err(GrantMismatch) <==>
                exists grant ::
                  && IsSignedGrant(v, credentials.grant, grant) && IsSignedProof(v, credentials.pop, grant)
                  && v.readProof(proofJws.value.payload).Some?
                  && v.readProof(proofJws.value.payload).value.gid != grant.jti)
  {
    var grantJws := ParseJws(v.readHeader, credentials.grant, "pubky-grant");
    if grantJws.Ok? && v.readGrant(grantJws.value.payload).Some? {
      var grant := v.readGrant(grantJws.value.payload).value;
      assert IsReadableGrant(v, credentials.grant, grant);
    }
  }

  /** Everything else that is refused before the claims is refused as the texts parse. */
  lemma UnreadableErrorIs<K, R, D>(v: Verifier<K, R, D>, credentials: Credentials, now: U64, skew: U64)
    ensures var r := VerifyAt(v, credentials, now, skew);
            var grantJws := ParseJws(v.readHeader, credentials.grant, "pubky-grant");
            var proofJws := ParseJws(v.readHeader, credentials.pop, "pubky-custom-pop-v1");
            && (grantJws.Err? ==> r == Err(Parse(grantJws.error)))
            && (grantJws.Ok? && v.readGrant(grantJws.value.payload).None? ==> r == Err(Parse(MalformedCredential)))
            && (forall grant | IsSignedGrant(v, credentials.grant, grant) && proofJws.Err? ::
                  r == Err(Parse(proofJws.error)))
            && (forall grant | IsSignedGrant(v, credentials.grant, grant) && IsSignedProof(v, credentials.pop, grant) &&
                               v.readProof(proofJws.value.payload).None? ::
                  r == Err(Parse(MalformedCredential)))
  {
  }
}
