/** The token engine (class `net.kuralab.jose.JsonWebToken`): a builder that
    signs and assembles a three-segment token, and a parser that splits a token,
    reads its header and payload and runs an ordered chain of checks.

    What the engine calls but does not define is a parameter of type
    `Environment`: the platform charset, the JSON library, the URL-safe codec
    and the MAC. The clock is the `now` parameter, in seconds. */
module JsonWebTokens {
  import opened JavaTypes
  import Base64
  import opened TokenText

  // ---------------------------------------------------------------------------
  // Values
  // ---------------------------------------------------------------------------

  /** A Java `long`. */
  type Long = x: int | -0x8000_0000_0000_0000 <= x < 0x8000_0000_0000_0000

  /** Java `long` arithmetic keeps the low 64 bits, read as a signed number. */
  function WrapLong(x: int): (r: Long)
    ensures -0x8000_0000_0000_0000 <= x < 0x8000_0000_0000_0000 ==> r == x
    ensures x >= 0x8000_0000_0000_0000 && x < 0x1_0000_0000_0000_0000 ==> r == x - 0x1_0000_0000_0000_0000
    ensures x < -0x8000_0000_0000_0000 && x >= -0x1_0000_0000_0000_0000 ==> r == x + 0x1_0000_0000_0000_0000
  {
    var m := x % 0x1_0000_0000_0000_0000;
    if m < 0x8000_0000_0000_0000 then m else m - 0x1_0000_0000_0000_0000
  }

  /** `JsonWebToken.HS256`: the MAC algorithm `verify` signs with. */
  const HS256: string := "hmacSHA256"

  /** The initial `issuedAtLimit`, in seconds. */
  const ISSUED_AT_LIMIT: Long := 600

  /** The header object: the claims `verify` reads from it. */
  datatype Header = Header(typ: string, alg: string)

  /** The payload object: the claims `encode` writes and `verify` reads. */
  datatype Payload = Payload(iss: string, aud: seq<string>, exp: Long, iat: Long, nonce: string)

  /** The code the engine calls but does not define. */
  datatype Environment = Environment(
    // `String.getBytes()` in the platform charset
    getBytes: string -> seq<JByte>,
    // `JsonObject.toString()` of the header and payload objects
    headerText: Header -> string,
    payloadText: Payload -> string,
    // `Base64.encodeUrlSafe` and `Base64.decodeUrlSafe`
    encodeUrlSafe: seq<JByte> -> string,
    decodeUrlSafe: string -> seq<JByte>,
    // the UTF-8 text of the bytes read by `JsonReader.readObject`; None when it throws
    readHeader: seq<JByte> -> Option<Header>,
    readPayload: seq<JByte> -> Option<Payload>,
    // `Mac.doFinal(data)` after `init` with the key bytes, for an algorithm name
    mac: (seq<JByte>, seq<JByte>, string) -> seq<JByte>)

  /** The URL-safe codec never emits the segment separator. */
  ghost predicate UrlSafeDotFree(env: Environment)
  {
    forall b :: '.' !in env.encodeUrlSafe(b)
  }

  // ---------------------------------------------------------------------------
  // Signing
  // ---------------------------------------------------------------------------

  /** The bytes the MAC computes over `data` with key `secret`. */
  function MacBytes(data: string, secret: string, algorithm: string, env: Environment): seq<JByte>
  {
    env.mac(env.getBytes(data), env.getBytes(secret), algorithm)
  }

  /** What `generateSignature(data, secret, algorithm)` returns: the codec's
      Base64 text of the MAC bytes, or the exception the codec throws on a MAC
      byte below 0x10. */
  function SignatureOf(data: string, secret: string, algorithm: string, env: Environment): (r: Result<string>)
    ensures r.Success? <==> Base64.Encodable(MacBytes(data, secret, algorithm, env))
    ensures r.Failure? ==> r.error == StringIndexOutOfBounds
  {
    Base64.Encoded(MacBytes(data, secret, algorithm, env))
  }

  /** A signature text decodes back to the MAC bytes it was made from. */
  lemma SignatureDecodes(data: string, secret: string, algorithm: string, env: Environment)
    requires SignatureOf(data, secret, algorithm, env).Success?
    ensures Base64.Decoded(SignatureOf(data, secret, algorithm, env).value)
         == MacBytes(data, secret, algorithm, env)
  {
    Base64.RoundTrip(MacBytes(data, secret, algorithm, env));
  }

  /** `JsonWebToken.generateSignature`: MAC the data, then Base64-encode. */
  method GenerateSignature(data: string, secret: string, algorithm: string, env: Environment)
    returns (r: Result<string>)
    ensures r == SignatureOf(data, secret, algorithm, env)
  {
    var result := env.mac(env.getBytes(data), env.getBytes(secret), algorithm);
    r := Base64.Encode(result);
  }

  // ---------------------------------------------------------------------------
  // Assembly
  // ---------------------------------------------------------------------------

  /** The header `encode` writes: `alg` is "HS256" whatever algorithm signs. */
  const TOKEN_HEADER: Header := Header("JWT", "HS256")

  /** What `encode(secret, algorithm)` returns for the builder fields at time
      `now`: header segment, '.', payload segment, '.', signature segment; or
      the exception thrown on a missing field or an unencodable MAC. */
  function SignedToken(issuer: Option<string>, audience: Option<seq<string>>, expiration: Long,
                       nonce: Option<string>, secret: string, algorithm: string, now: Long,
                       env: Environment): (r: Result<string>)
    ensures r.Failure? <==>
      (issuer.None? || audience.None? || nonce.None?
       || !Base64.Encodable(MacBytes(env.headerText(TOKEN_HEADER)
            + env.payloadText(Payload(issuer.value, audience.value, expiration, now, nonce.value)),
            secret, algorithm, env)))
    ensures r.Failure? && (issuer.None? || audience.None? || nonce.None?) ==> r.error == NullPointer
  {
    if audience.None? || issuer.None? || nonce.None? then Failure(NullPointer)
    else
      var headerText := env.headerText(TOKEN_HEADER);
      var payloadText := env.payloadText(Payload(issuer.value, audience.value, expiration, now, nonce.value));
      match SignatureOf(headerText + payloadText, secret, algorithm, env)
      case Failure(e) => Failure(e)
      case Success(signature) =>
        Success(Join([env.encodeUrlSafe(env.getBytes(headerText)),
                      env.encodeUrlSafe(env.getBytes(payloadText)),
                      env.encodeUrlSafe(env.getBytes(signature))]))
  }

  /** The three segments of a signed token, in order: the URL-safe encoding of
      the header text, of the payload text, and of the signature text, which
      is itself Base64 (encoded twice). The signature covers the two JSON
      texts written one after the other, with no '.' between. */
  lemma SignedTokenSegments(issuer: string, audience: seq<string>, expiration: Long, nonce: string,
                            secret: string, algorithm: string, now: Long, env: Environment)
    requires SignedToken(Some(issuer), Some(audience), expiration, Some(nonce), secret, algorithm, now, env).Success?
    ensures var headerText := env.headerText(TOKEN_HEADER);
      var payloadText := env.payloadText(Payload(issuer, audience, expiration, now, nonce));
      var signature := SignatureOf(headerText + payloadText, secret, algorithm, env);
      signature.Success?
      && SignedToken(Some(issuer), Some(audience), expiration, Some(nonce), secret, algorithm, now, env).value
         == env.encodeUrlSafe(env.getBytes(headerText)) + "."
            + env.encodeUrlSafe(env.getBytes(payloadText)) + "."
            + env.encodeUrlSafe(env.getBytes(signature.value))
  {
    var headerText := env.headerText(TOKEN_HEADER);
    var payloadText := env.payloadText(Payload(issuer, audience, expiration, now, nonce));
    var signature := SignatureOf(headerText + payloadText, secret, algorithm, env);
    JoinThree(env.encodeUrlSafe(env.getBytes(headerText)), env.encodeUrlSafe(env.getBytes(payloadText)),
              env.encodeUrlSafe(env.getBytes(signature.value)));
  }

  /** Only the signature segment depends on the requested algorithm: two
      tokens signed with different algorithms share the header segment, the
      payload segment and both separators, and the header segment carries the
      same `alg` either way. */
  lemma HeaderIgnoresAlgorithm(issuer: Option<string>, audience: Option<seq<string>>, expiration: Long,
                               nonce: Option<string>, secret: string, algorithm1: string,
                               algorithm2: string, now: Long, env: Environment)
    requires SignedToken(issuer, audience, expiration, nonce, secret, algorithm1, now, env).Success?
    requires SignedToken(issuer, audience, expiration, nonce, secret, algorithm2, now, env).Success?
    ensures var prefix := env.encodeUrlSafe(env.getBytes(env.headerText(TOKEN_HEADER))) + "."
                          + env.encodeUrlSafe(env.getBytes(env.payloadText(
                              Payload(issuer.value, audience.value, expiration, now, nonce.value)))) + ".";
      var t1 := SignedToken(issuer, audience, expiration, nonce, secret, algorithm1, now, env).value;
      var t2 := SignedToken(issuer, audience, expiration, nonce, secret, algorithm2, now, env).value;
      |prefix| <= |t1| && |prefix| <= |t2| && t1[..|prefix|] == prefix && t2[..|prefix|] == prefix
  {
    SignedTokenSegments(issuer.value, audience.value, expiration, nonce.value, secret, algorithm1, now, env);
    SignedTokenSegments(issuer.value, audience.value, expiration, nonce.value, secret, algorithm2, now, env);
  }

  /** Three dot-free segments joined with '.' split back into the three when
      the last is non-empty; the first piece is the first segment whenever
      that segment is non-empty. */
  lemma TokenSplitsIntoSegments(first: string, second: string, third: string)
    requires '.' !in first && '.' !in second && '.' !in third
    ensures first != "" ==>
      |JavaSplit(Join([first, second, third]))| >= 1 && JavaSplit(Join([first, second, third]))[0] == first
    ensures third != "" ==> JavaSplit(Join([first, second, third])) == [first, second, third]
  {
    var parts := [first, second, third];
    assert DotFree(parts);
    if first != "" {
      JavaSplitFirst(parts);
    }
    if third != "" {
      JavaSplitJoin(parts);
    }
  }

  // ---------------------------------------------------------------------------
  // The checks of verify
  // ---------------------------------------------------------------------------

  /** Why `verify` rejected a token, with the values its detail message quotes. */
  datatype Rejection =
    | InvalidType(typ: string)
    | UnsupportedAlgorithm(alg: string)
    | InvalidIssuer(foundIssuer: string, expectedIssuer: string)
    | InvalidAudience(audiences: seq<string>, expectedAudience: string)
    | ExpiredToken(expiration: Long)
    | ExpiredIssuedAt(limit: Long)
    | InvalidNonce(foundNonce: string, expectedNonce: string)
    | InvalidSignature(storedSignature: string, computedSignature: string)

  /** The position of the check that produces a rejection, 0 to 7. */
  function Step(rejection: Rejection): (k: nat)
    ensures k < 8
  {
    match rejection
    case InvalidType(_) => 0
    case UnsupportedAlgorithm(_) => 1
    case InvalidIssuer(_, _) => 2
    case InvalidAudience(_, _) => 3
    case ExpiredToken(_) => 4
    case ExpiredIssuedAt(_) => 5
    case InvalidNonce(_, _) => 6
    case InvalidSignature(_, _) => 7
  }

  /** The `verifyError` codes, in the order the checks run. */
  const ERROR_CODES: seq<string> := ["invalid_type", "unsupported_algorithm", "invalid_issuer",
    "invalid_audience", "expired_token", "expired_issued_at", "invalid_nonce", "invalid_signature"]

  /** The `verifyError` code of a rejection: the code of the check it comes from. */
  function ErrorCode(rejection: Rejection): (code: string)
    ensures code == ERROR_CODES[Step(rejection)]
  {
    match rejection
    case InvalidType(_) => "invalid_type"
    case UnsupportedAlgorithm(_) => "unsupported_algorithm"
    case InvalidIssuer(_, _) => "invalid_issuer"
    case InvalidAudience(_, _) => "invalid_audience"
    case ExpiredToken(_) => "expired_token"
    case ExpiredIssuedAt(_) => "expired_issued_at"
    case InvalidNonce(_, _) => "invalid_nonce"
    case InvalidSignature(_, _) => "invalid_signature"
  }

  /** The eight codes are distinct: the code names the check that failed. */
  lemma ErrorCodeNamesStep(a: Rejection, b: Rejection)
    ensures ErrorCode(a) == ErrorCode(b) <==> Step(a) == Step(b)
  {
  }

  /** How the audience scan compares the expected audience with an element of
      the token's `aud` array. */
  datatype AudienceComparison =
    | AsWritten  // `String.equals(JsonValue)`: a JsonValue is never a String
    | ByContent  // the text of the element equals the expected audience

  predicate AudienceMatches(expected: string, element: string, comparison: AudienceComparison)
  {
    match comparison
    case AsWritten => false
    case ByContent => expected == element
  }

  /** Some element of the `aud` array matches. */
  predicate AudienceListed(expected: string, audiences: seq<string>, comparison: AudienceComparison)
  {
    exists i :: 0 <= i < |audiences| && AudienceMatches(expected, audiences[i], comparison)
  }

  /** As written, the audience scan never finds the expected audience, whatever
      the token lists. */
  lemma AudienceNeverListedAsWritten(expected: string, audiences: seq<string>)
    ensures !AudienceListed(expected, audiences, AsWritten)
  {
  }

  /** Compared by content, the scan finds exactly the audiences the token lists. */
  lemma AudienceListedByContent(expected: string, audiences: seq<string>)
    ensures AudienceListed(expected, audiences, ByContent) <==> expected in audiences
  {
    if expected in audiences {
      var i :| 0 <= i < |audiences| && audiences[i] == expected;
      assert AudienceMatches(expected, audiences[i], ByContent);
    }
  }

  /** The scan of `verify` over the `aud` array: a flag set at the first match,
      then `break`. */
  method ScanAudience(expected: string, audiences: seq<string>, comparison: AudienceComparison)
    returns (existAudience: bool)
    ensures existAudience == AudienceListed(expected, audiences, comparison)
  {
    existAudience := false;
    var i := 0;
    while i < |audiences|
      invariant 0 <= i <= |audiences|
      invariant forall j :: 0 <= j < i ==> !AudienceMatches(expected, audiences[j], comparison)
    {
      if AudienceMatches(expected, audiences[i], comparison) {
        existAudience := true;
        break;
      }
      i := i + 1;
    }
  }

  /** What `verify` compares: the parsed objects, the stored signature segment,
      the caller's expectations, the clock and the issued-at limit. */
  datatype Evidence = Evidence(
    header: Header, payload: Payload, storedSignature: string,
    issuer: string, audience: string, nonce: string, now: Long, issuedAtLimit: Long)

  /** Claim check `k` of `verify` passes (0 type, 1 algorithm, 2 issuer,
      3 audience, 4 expiry, 5 issued-at, 6 nonce), each stated on its own.
      The expiry check passes at `exp == now`; the issued-at check compares a
      64-bit difference. */
  predicate ClaimPasses(k: nat, e: Evidence, comparison: AudienceComparison)
  {
    if k == 0 then e.header.typ == "JWT"
    else if k == 1 then e.header.alg == "HS256"
    else if k == 2 then e.issuer == e.payload.iss
    else if k == 3 then AudienceListed(e.audience, e.payload.aud, comparison)
    else if k == 4 then !(e.payload.exp < e.now)
    else if k == 5 then !(WrapLong(e.now - e.payload.iat) > e.issuedAtLimit)
    else if k == 6 then e.nonce == e.payload.nonce
    else true
  }

  /** Check `k` of `verify` passes: the seven claim checks, then (7) the
      signature check, which passes when the stored segment DIFFERS from the
      recomputed signature. */
  predicate Passes(k: nat, e: Evidence, comparison: AudienceComparison, computed: string)
  {
    if k < 7 then ClaimPasses(k, e, comparison) else k > 7 || e.storedSignature != computed
  }

  /** The rejection claim check `k` reports. */
  function ClaimRejected(k: nat, e: Evidence): (r: Rejection)
    requires k < 7
    ensures Step(r) == k
  {
    if k == 0 then InvalidType(e.header.typ)
    else if k == 1 then UnsupportedAlgorithm(e.header.alg)
    else if k == 2 then InvalidIssuer(e.payload.iss, e.issuer)
    else if k == 3 then InvalidAudience(e.payload.aud, e.audience)
    else if k == 4 then ExpiredToken(e.payload.exp)
    else if k == 5 then ExpiredIssuedAt(e.issuedAtLimit)
    else InvalidNonce(e.payload.nonce, e.nonce)
  }

  /** The rejection check `k` reports. */
  function Rejected(k: nat, e: Evidence, computed: string): (r: Rejection)
    requires k < 8
    ensures Step(r) == k
  {
    if k < 7 then ClaimRejected(k, e) else InvalidSignature(e.storedSignature, computed)
  }

  /** Checks 0 to 6 of `verify`, in order: no rejection exactly when all seven
      pass, and otherwise the rejection of the first that fails. */
  function ClaimsCheck(e: Evidence, comparison: AudienceComparison): (r: Option<Rejection>)
    ensures r.None? ==> forall k :: 0 <= k < 7 ==> ClaimPasses(k, e, comparison)
    ensures r.Some? ==>
      Step(r.value) < 7 && r.value == ClaimRejected(Step(r.value), e)
      && !ClaimPasses(Step(r.value), e, comparison)
      && forall j :: 0 <= j < Step(r.value) ==> ClaimPasses(j, e, comparison)
  {
    var h, p := e.header, e.payload;
    if h.typ != "JWT" then Some(InvalidType(h.typ))
    else if h.alg != "HS256" then Some(UnsupportedAlgorithm(h.alg))
    else if e.issuer != p.iss then Some(InvalidIssuer(p.iss, e.issuer))
    else if !AudienceListed(e.audience, p.aud, comparison) then Some(InvalidAudience(p.aud, e.audience))
    else if p.exp < e.now then Some(ExpiredToken(p.exp))
    else if WrapLong(e.now - p.iat) > e.issuedAtLimit then Some(ExpiredIssuedAt(e.issuedAtLimit))
    else if e.nonce != p.nonce then Some(InvalidNonce(p.nonce, e.nonce))
    else None
  }

  /** Check 7 of `verify`, inverted as written: it rejects exactly when the
      stored signature EQUALS the recomputed one. */
  function SignatureCheck(stored: string, computed: string): (r: Option<Rejection>)
    ensures r.Some? <==> stored == computed
    ensures r.Some? ==> Step(r.value) == 7 && ErrorCode(r.value) == "invalid_signature"
  {
    if stored == computed then Some(InvalidSignature(stored, computed)) else None
  }

  /** The verdict of all eight checks for a given recomputed signature: no
      rejection exactly when all eight pass, and otherwise the rejection of the
      first check that fails. */
  function Verdict(e: Evidence, comparison: AudienceComparison, computed: string): (r: Option<Rejection>)
    ensures r.None? ==> forall k :: 0 <= k < 8 ==> Passes(k, e, comparison, computed)
    ensures r.Some? ==>
      r.value == Rejected(Step(r.value), e, computed)
      && !Passes(Step(r.value), e, comparison, computed)
      && forall j :: 0 <= j < Step(r.value) ==> Passes(j, e, comparison, computed)
  {
    match ClaimsCheck(e, comparison)
    case Some(rejection) => Some(rejection)
    case None => SignatureCheck(e.storedSignature, computed)
  }

  /** First failure wins, read from the check's side: when check `k` is the
      first to fail, the verdict is the rejection check `k` reports. */
  lemma FirstFailureWins(e: Evidence, comparison: AudienceComparison, computed: string, k: nat)
    requires k < 8 && !Passes(k, e, comparison, computed)
    requires forall j :: 0 <= j < k ==> Passes(j, e, comparison, computed)
    ensures Verdict(e, comparison, computed) == Some(Rejected(k, e, computed))
  {
  }

  /** As written, no token passes the checks: the audience check rejects every
      token that reaches it. */
  lemma NothingPassesAsWritten(e: Evidence, computed: string)
    ensures Verdict(e, AsWritten, computed).Some?
    ensures Step(Verdict(e, AsWritten, computed).value) <= 3
  {
  }

  /** The expiry check: a token is still good in the second it expires. When
      checks 0 to 3 pass, the verdict is `ExpiredToken` exactly when `exp` is
      before `now`. */
  lemma ExpiryBoundary(e: Evidence, comparison: AudienceComparison, computed: string)
    requires forall k :: 0 <= k < 4 ==> Passes(k, e, comparison, computed)
    ensures Verdict(e, comparison, computed) == Some(ExpiredToken(e.payload.exp)) <==> e.payload.exp < e.now
  {
    assert Passes(0, e, comparison, computed) && Passes(1, e, comparison, computed);
    assert Passes(2, e, comparison, computed) && Passes(3, e, comparison, computed);
  }

  /** The issued-at check, for times that are not negative: it rejects exactly
      when more than `issuedAtLimit` seconds have passed since `iat`. */
  lemma IssuedAtBoundary(e: Evidence, comparison: AudienceComparison, computed: string)
    requires 0 <= e.payload.iat && 0 <= e.now
    ensures Passes(5, e, comparison, computed) <==> e.now - e.payload.iat <= e.issuedAtLimit
  {
  }

  /** The issued-at difference is a 64-bit `long` and wraps around: a token
      whose `iat` is the least `long` passes the issued-at check at every
      positive time, although far more than the limit has passed since. */
  lemma IssuedAtWrapsAround(e: Evidence, comparison: AudienceComparison, computed: string)
    requires e.payload.iat == -0x8000_0000_0000_0000 && 0 < e.now && 0 <= e.issuedAtLimit
    ensures e.now - e.payload.iat > e.issuedAtLimit
    ensures Passes(5, e, comparison, computed)
  {
  }

  /** What `verify` concludes once the objects are at hand: a rejection, no
      rejection, or the exception signing throws. The signature is recomputed
      only when checks 0 to 6 pass, with HS256, over the two encoded segments
      written one after the other with no '.' between. */
  function Conclusion(e: Evidence, comparison: AudienceComparison, signingInput: string,
                      secret: string, env: Environment): (r: Result<Option<Rejection>>)
    ensures ClaimsCheck(e, comparison).Some? ==> r == Success(ClaimsCheck(e, comparison))
    ensures r.Failure? ==> r.error == StringIndexOutOfBounds
  {
    match ClaimsCheck(e, comparison)
    case Some(rejection) => Success(Some(rejection))
    case None =>
      match SignatureOf(signingInput, secret, HS256, env)
      case Failure(error) => Failure(error)
      case Success(computed) => Success(SignatureCheck(e.storedSignature, computed))
  }

  /** `Conclusion` is the verdict of the eight checks for the signature that
      HS256 yields over the signing input, and it throws only when that
      signature cannot be encoded and checks 0 to 6 all pass. */
  lemma ConclusionIsVerdict(e: Evidence, comparison: AudienceComparison, signingInput: string,
                            secret: string, env: Environment)
    ensures var signature := SignatureOf(signingInput, secret, HS256, env);
      var r := Conclusion(e, comparison, signingInput, secret, env);
      (signature.Success? ==> r == Success(Verdict(e, comparison, signature.value)))
      && (r.Failure? <==> signature.Failure? && ClaimsCheck(e, comparison).None?)
  {
  }

  /** Checks 0 to 6 as `verify` runs them: one test after another, the
      audience by a scan of the `aud` array with the given comparison, the
      clock read once. */
  method CheckClaims(e: Evidence, comparison: AudienceComparison) returns (rejection: Option<Rejection>)
    ensures rejection == ClaimsCheck(e, comparison)
  {
    var h, p := e.header, e.payload;
    if h.typ != "JWT" {
      return Some(InvalidType(h.typ));
    }
    if h.alg != "HS256" {
      return Some(UnsupportedAlgorithm(h.alg));
    }
    if e.issuer != p.iss {
      return Some(InvalidIssuer(p.iss, e.issuer));
    }
    var existAudience := ScanAudience(e.audience, p.aud, comparison);
    if !existAudience {
      return Some(InvalidAudience(p.aud, e.audience));
    }
    var currentTime := e.now;
    if p.exp < currentTime {
      return Some(ExpiredToken(p.exp));
    }
    if WrapLong(currentTime - p.iat) > e.issuedAtLimit {
      return Some(ExpiredIssuedAt(e.issuedAtLimit));
    }
    if e.nonce != p.nonce {
      return Some(InvalidNonce(p.nonce, e.nonce));
    }
    return None;
  }

  // ---------------------------------------------------------------------------
  // decode
  // ---------------------------------------------------------------------------

  /** The fields `decode` writes. */
  datatype Parsed = Parsed(
    header: Option<string>, payload: Option<string>, signature: Option<string>,
    headerJsonObject: Option<Header>, payloadJsonObject: Option<Payload>)

  /** A stored signature segment comes with stored header and payload segments. */
  predicate Consistent(p: Parsed)
  {
    p.signature.Some? ==> p.header.Some? && p.payload.Some?
  }

  /** The fields after `decode` and how it ended. */
  datatype Decoding = Decoding(fields: Parsed, outcome: Result<()>)

  /** What `decode` does to the fields `before`: split the token with
      `split("\\.")`, store the pieces one by one (so fewer than three pieces
      throw after storing those there are, and pieces after the third are
      ignored), then read the header and the payload object in turn. */
  function DecodeStep(token: Option<string>, before: Parsed, env: Environment): (d: Decoding)
    ensures Consistent(before) ==> Consistent(d.fields)
    ensures d.outcome.Success? ==>
      d.fields.header.Some? && d.fields.payload.Some? && d.fields.signature.Some?
      && d.fields.headerJsonObject.Some? && d.fields.payloadJsonObject.Some?
    ensures d.outcome.Success? <==>
      token.Some? && |JavaSplit(token.value)| >= 3
      && env.readHeader(env.decodeUrlSafe(JavaSplit(token.value)[0])).Some?
      && env.readPayload(env.decodeUrlSafe(JavaSplit(token.value)[1])).Some?
  {
    if token.None? then Decoding(before, Failure(NullPointer))
    else
      var parts := JavaSplit(token.value);
      if |parts| == 0 then Decoding(before, Failure(ArrayIndexOutOfBounds))
      else if |parts| == 1 then Decoding(before.(header := Some(parts[0])), Failure(ArrayIndexOutOfBounds))
      else if |parts| == 2 then
        Decoding(before.(header := Some(parts[0]), payload := Some(parts[1])), Failure(ArrayIndexOutOfBounds))
      else
        var segments := before.(header := Some(parts[0]), payload := Some(parts[1]), signature := Some(parts[2]));
        match env.readHeader(env.decodeUrlSafe(parts[0]))
        case None => Decoding(segments, Failure(JsonParsing))
        case Some(h) =>
          match env.readPayload(env.decodeUrlSafe(parts[1]))
          case None => Decoding(segments.(headerJsonObject := Some(h)), Failure(JsonParsing))
          case Some(p) =>
            Decoding(segments.(headerJsonObject := Some(h), payloadJsonObject := Some(p)), Success(()))
  }

  /** `decode` of a token: the first three pieces land in the segment fields,
      verbatim and in order, whatever follows them; fewer pieces fail. */
  lemma DecodeStoresPieces(token: string, before: Parsed, env: Environment)
    ensures var parts := JavaSplit(token);
      var d := DecodeStep(Some(token), before, env);
      (|parts| < 3 ==> d.outcome == Failure(ArrayIndexOutOfBounds))
      && (|parts| >= 1 ==> d.fields.header == Some(parts[0]))
      && (|parts| >= 2 ==> d.fields.payload == Some(parts[1]))
      && (|parts| >= 3 ==> d.fields.signature == Some(parts[2]))
      && (|parts| < 3 ==> (d.fields.signature == before.signature
                             && d.fields.headerJsonObject == before.headerJsonObject
                             && d.fields.payloadJsonObject == before.payloadJsonObject))
  {
  }

  /** `decode` of a token `encode` produced stores its three segments. */
  lemma DecodeSignedToken(issuer: string, audience: seq<string>, expiration: Long, nonce: string,
                          secret: string, algorithm: string, now: Long, env: Environment, before: Parsed)
    requires UrlSafeDotFree(env)
    requires SignedToken(Some(issuer), Some(audience), expiration, Some(nonce), secret, algorithm, now, env).Success?
    ensures var headerText := env.headerText(TOKEN_HEADER);
      var payloadText := env.payloadText(Payload(issuer, audience, expiration, now, nonce));
      var signature := SignatureOf(headerText + payloadText, secret, algorithm, env).value;
      var token := SignedToken(Some(issuer), Some(audience), expiration, Some(nonce), secret, algorithm, now, env).value;
      var d := DecodeStep(Some(token), before, env);
      env.encodeUrlSafe(env.getBytes(signature)) != "" ==>
        d.fields.header == Some(env.encodeUrlSafe(env.getBytes(headerText)))
        && d.fields.payload == Some(env.encodeUrlSafe(env.getBytes(payloadText)))
        && d.fields.signature == Some(env.encodeUrlSafe(env.getBytes(signature)))
  {
    var headerText := env.headerText(TOKEN_HEADER);
    var payloadText := env.payloadText(Payload(issuer, audience, expiration, now, nonce));
    var signature := SignatureOf(headerText + payloadText, secret, algorithm, env).value;
    TokenSplitsIntoSegments(env.encodeUrlSafe(env.getBytes(headerText)),
      env.encodeUrlSafe(env.getBytes(payloadText)), env.encodeUrlSafe(env.getBytes(signature)));
  }

  // ---------------------------------------------------------------------------
  // The token object
  // ---------------------------------------------------------------------------

  class JsonWebToken {
    var issuer: Option<string>
    var audience: Option<seq<string>>
    var expiration: Long
    var nonce: Option<string>

    var jsonWebTokenString: Option<string>
    var header: Option<string>
    var payload: Option<string>
    var headerJsonObject: Option<Header>
    var payloadJsonObject: Option<Payload>
    var signature: Option<string>
    var verifyError: Option<string>
    /** The rejection the detail message describes. */
    var verifyErrorDetail: Option<Rejection>
    var issuedAtLimit: Long

    /** The fields `decode` writes. */
    function Fields(): Parsed
      reads this
    {
      Parsed(header, payload, signature, headerJsonObject, payloadJsonObject)
    }

    /** `decode` stores the signature segment after the header and payload
        segments. */
    predicate Valid()
      reads this
    {
      Consistent(Fields())
    }

    /** `createObjectBuilder()`: an empty builder. */
    constructor CreateObjectBuilder()
      ensures issuer.None? && audience.None? && expiration == 0 && nonce.None?
      ensures jsonWebTokenString.None?
      ensures Fields() == Parsed(None, None, None, None, None)
      ensures verifyError.None? && verifyErrorDetail.None?
      ensures issuedAtLimit == ISSUED_AT_LIMIT
      ensures Valid()
    {
      issuer, audience, expiration, nonce := None, None, 0, None;
      jsonWebTokenString := None;
      header, payload, signature := None, None, None;
      headerJsonObject, payloadJsonObject := None, None;
      verifyError, verifyErrorDetail := None, None;
      issuedAtLimit := ISSUED_AT_LIMIT;
    }

    /** `new JsonWebToken(jsonWebTokenString)`: a token to decode and verify. */
    constructor (jsonWebTokenString: string)
      ensures issuer.None? && audience.None? && expiration == 0 && nonce.None?
      ensures this.jsonWebTokenString == Some(jsonWebTokenString)
      ensures Fields() == Parsed(None, None, None, None, None)
      ensures verifyError.None? && verifyErrorDetail.None?
      ensures issuedAtLimit == ISSUED_AT_LIMIT
      ensures Valid()
    {
      issuer, audience, expiration, nonce := None, None, 0, None;
      this.jsonWebTokenString := Some(jsonWebTokenString);
      header, payload, signature := None, None, None;
      headerJsonObject, payloadJsonObject := None, None;
      verifyError, verifyErrorDetail := None, None;
      issuedAtLimit := ISSUED_AT_LIMIT;
    }

    method SetIssuer(issuer: string) returns (self: JsonWebToken)
      modifies this`issuer
      ensures self == this && this.issuer == Some(issuer)
    {
      this.issuer := Some(issuer);
      return this;
    }

    /** The varargs array is copied into a sequence. */
    method SetAudience(audience: seq<string>) returns (self: JsonWebToken)
      modifies this`audience
      ensures self == this && this.audience == Some(audience)
    {
      this.audience := Some(audience);
      return this;
    }

    method SetExpiration(expiration: Long) returns (self: JsonWebToken)
      modifies this`expiration
      ensures self == this && this.expiration == expiration
    {
      this.expiration := expiration;
      return this;
    }

    method SetNonce(nonce: string) returns (self: JsonWebToken)
      modifies this`nonce
      ensures self == this && this.nonce == Some(nonce)
    {
      this.nonce := Some(nonce);
      return this;
    }

    /** `encode(secret, algorithm)` at time `now`: the header with the literal
        `alg` "HS256", the payload with `iat` = `now`, the signature over both
        JSON texts, then the three URL-safe segments joined with '.'. */
    method Encode(secret: string, algorithm: string, now: Long, env: Environment) returns (r: Result<string>)
      ensures r == SignedToken(issuer, audience, expiration, nonce, secret, algorithm, now, env)
    {
      var header := TOKEN_HEADER;
      if audience.None? {
        // the for-each loop over a null array
        return Failure(NullPointer);
      }
      var audienceJsonArray: seq<string> := [];
      for i := 0 to |audience.value|
        invariant audienceJsonArray == audience.value[..i]
      {
        audienceJsonArray := audienceJsonArray + [audience.value[i]];
      }
      assert audience.value[..|audience.value|] == audience.value;
      if issuer.None? || nonce.None? {
        // JsonObjectBuilder.add with a null value
        return Failure(NullPointer);
      }
      var payload := Payload(issuer.value, audienceJsonArray, expiration, now, nonce.value);
      var signature := GenerateSignature(env.headerText(header) + env.payloadText(payload), secret, algorithm, env);
      if signature.Failure? {
        return Failure(signature.error);
      }
      var buffer := env.encodeUrlSafe(env.getBytes(env.headerText(header)));
      buffer := buffer + ".";
      buffer := buffer + env.encodeUrlSafe(env.getBytes(env.payloadText(payload)));
      buffer := buffer + ".";
      buffer := buffer + env.encodeUrlSafe(env.getBytes(signature.value));
      SignedTokenSegments(issuer.value, audience.value, expiration, nonce.value, secret, algorithm, now, env);
      return Success(buffer);
    }

    /** `decode()`: split the token string and read the header and payload
        objects, as `DecodeStep` describes. */
    method Decode(env: Environment) returns (r: Result<()>)
      modifies this`header, this`payload, this`signature, this`headerJsonObject, this`payloadJsonObject
      ensures Decoding(Fields(), r) == DecodeStep(jsonWebTokenString, old(Fields()), env)
    {
      if jsonWebTokenString.None? {
        return Failure(NullPointer);
      }
      var parts := JavaSplit(jsonWebTokenString.value);
      if |parts| < 1 {
        return Failure(ArrayIndexOutOfBounds);
      }
      header := Some(parts[0]);
      if |parts| < 2 {
        return Failure(ArrayIndexOutOfBounds);
      }
      payload := Some(parts[1]);
      if |parts| < 3 {
        return Failure(ArrayIndexOutOfBounds);
      }
      signature := Some(parts[2]);
      var headerObject := env.readHeader(env.decodeUrlSafe(header.value));
      if headerObject.None? {
        return Failure(JsonParsing);
      }
      headerJsonObject := headerObject;
      var payloadObject := env.readPayload(env.decodeUrlSafe(payload.value));
      if payloadObject.None? {
        return Failure(JsonParsing);
      }
      payloadJsonObject := payloadObject;
      return Success(());
    }

    function GetHeader(): Option<Header>
      reads this
    {
      headerJsonObject
    }

    function GetPayload(): Option<Payload>
      reads this
    {
      payloadJsonObject
    }

    function GetSignature(): Option<string>
      reads this
    {
      signature
    }

    function GetVerifyError(): Option<string>
      reads this
    {
      verifyError
    }

    function GetVerifyErrorDetail(): Option<Rejection>
      reads this
    {
      verifyErrorDetail
    }

    /** Record a rejection in the error fields. */
    method Reject(rejection: Rejection)
      modifies this`verifyError, this`verifyErrorDetail
      ensures verifyError == Some(ErrorCode(rejection)) && verifyErrorDetail == Some(rejection)
    {
      verifyError := Some(ErrorCode(rejection));
      verifyErrorDetail := Some(rejection);
    }

    /** What `verify` compares once the objects are at hand. */
    function EvidenceFor(issuer: string, audience: string, nonce: string, now: Long): Evidence
      requires headerJsonObject.Some? && payloadJsonObject.Some? && signature.Some?
      reads this
    {
      Evidence(headerJsonObject.value, payloadJsonObject.value, signature.value,
               issuer, audience, nonce, now, issuedAtLimit)
    }

    /** `verify(secret, issuer, audience, nonce)` at time `now`: decode unless
        both objects and the signature are present; then run the eight checks
        in order. The first failing check sets `verifyError` and its detail and
        yields false; when all pass the error fields keep their old values and
        the result is true. An exception from `decode` or from signing
        escapes. With `comparison` = `AsWritten` the audience scan is the
        source's `String.equals(JsonValue)`; with `ByContent` it is the
        corrected comparison of the element's text. */
    method Verify(secret: string, issuer: string, audience: string, nonce: string, now: Long,
                  env: Environment, comparison: AudienceComparison) returns (r: Result<bool>)
      requires Valid()
      modifies this`header, this`payload, this`signature, this`headerJsonObject, this`payloadJsonObject
      modifies this`verifyError, this`verifyErrorDetail
      ensures Valid()
      ensures var needsDecode := old(headerJsonObject.None? || payloadJsonObject.None? || signature.None?);
        var decoding := if needsDecode then DecodeStep(jsonWebTokenString, old(Fields()), env)
                        else Decoding(old(Fields()), Success(()));
        Fields() == decoding.fields
        && (decoding.outcome.Failure? ==>
              (r == Failure(decoding.outcome.error)
               && verifyError == old(verifyError) && verifyErrorDetail == old(verifyErrorDetail)))
        && (decoding.outcome.Success? ==>
              var conclusion := Conclusion(EvidenceFor(issuer, audience, nonce, now), comparison,
                                           header.value + payload.value, secret, env);
              (conclusion.Failure? ==>
                 (r == Failure(conclusion.error)
                  && verifyError == old(verifyError) && verifyErrorDetail == old(verifyErrorDetail)))
              && (conclusion.Success? && conclusion.value.None? ==>
                 (r == Success(true)
                  && verifyError == old(verifyError) && verifyErrorDetail == old(verifyErrorDetail)))
              && (conclusion.Success? && conclusion.value.Some? ==>
                 (r == Success(false)
                  && verifyError == Some(ErrorCode(conclusion.value.value))
                  && verifyErrorDetail == conclusion.value)))
    {
      if headerJsonObject.None? || payloadJsonObject.None? || signature.None? {
        var decoded := Decode(env);
        if decoded.Failure? {
          return Failure(decoded.error);
        }
      }
      var rejection := CheckClaims(EvidenceFor(issuer, audience, nonce, now), comparison);
      if rejection.Some? {
        Reject(rejection.value);
        return Success(false);
      }
      var sig := GenerateSignature(header.value + payload.value, secret, HS256, env);
      if sig.Failure? {
        return Failure(sig.error);
      }
      if signature.value == sig.value {
        Reject(InvalidSignature(signature.value, sig.value));
        return Success(false);
      }
      return Success(true);
    }
  }
}
