/** The verifier over a fixed key set: which presented tokens it accepts. */
module Verifiers {
  import opened Wrappers
  import opened Base64Url
  import opened Scopes
  import opened Text
  import opened WorkContexts

  const ED25519_PUBLIC_KEY_SIZE: nat := 32
  const MAX_CLOCK_SKEW: real := 60.0

  type KeySet = map<string, seq<Byte>>

  /**
   * What the cryptography and protobuf runtimes answer: whether a signature over a payload verifies
   * under a raw public key, and the claims a payload is the canonical encoding of.
   */
  datatype Primitives = Primitives(
    checkSignature: (seq<Byte>, seq<Byte>, seq<Byte>) -> bool,
    parsePayload: seq<Byte> -> Option<WorkContext>)

  datatype Refusal =
    | MalformedToken | MalformedPayload | UnknownKey | BadSignature | InvalidClaims | OutsideWindow | Unexpected

  /** An empty string or an absent value leaves the claim unconstrained. */
  datatype Expectations = Expectations(
    issuer: string, audience: string, tenantId: string, ownerPrincipalId: string, taskId: string, sessionId: string,
    parentSessionId: Option<string>, authorizationRevision: Option<int>)

  datatype Verifier = Verifier(keys: KeySet, clockSkew: real)

  // ----- Construction -----

  predicate ValidKey(id: string, raw: seq<Byte>) {
    Bounded(id, MAX_KIND_BYTES, true) && |raw| == ED25519_PUBLIC_KEY_SIZE
  }

  predicate ValidSkew(clockSkew: real) {
    0.0 <= clockSkew <= MAX_CLOCK_SKEW
  }

  predicate Buildable(keys: KeySet, clockSkew: real) {
    && keys != map[]
    && (forall id | id in keys :: ValidKey(id, keys[id]))
    && ValidSkew(clockSkew)
  }

  /** What a verifier can be built from, with its limits. */
  lemma BuildableExactly(keys: KeySet, clockSkew: real)
    ensures Buildable(keys, clockSkew) <==>
            && |keys| > 0 && 0.0 <= clockSkew <= 60.0
            && (forall id | id in keys :: Fits(id, 128) && |keys[id]| == 32)
  {
    forall id | id in keys ensures ValidKey(id, keys[id]) <==> Fits(id, 128) && |keys[id]| == 32 {
      BoundedExactly(id, 128);
    }
  }

  method NewVerifier(publicKeys: KeySet, clockSkew: real) returns (verifier: Option<Verifier>)
    ensures verifier == if Buildable(publicKeys, clockSkew) then Some(Verifier(publicKeys, clockSkew)) else None
  {
    if publicKeys == map[] {
      return None;
    }
    var keys: KeySet := map[];
    var remaining := publicKeys.Keys;
    while remaining != {}
      invariant remaining <= publicKeys.Keys && keys.Keys == publicKeys.Keys - remaining
      invariant forall id | id in keys :: keys[id] == publicKeys[id] && ValidKey(id, keys[id])
      decreases |remaining|
    {
      var id :| id in remaining;
      if !ValidKey(id, publicKeys[id]) {
        return None;
      }
      keys := keys[id := publicKeys[id]];
      remaining := remaining - {id};
    }
    assert keys == publicKeys;
    if !ValidSkew(clockSkew) {
      return None;
    }
    return Some(Verifier(keys, clockSkew));
  }

  // ----- Verification -----

  /** The key id a payload names, read before any signature is checked. */
  function ProbeKeyId(p: Primitives, payload: seq<Byte>): Option<string> {
    match p.parsePayload(payload)
    case Some(context) => if Bounded(context.keyId, MAX_KIND_BYTES, true) then Some(context.keyId) else None
    case None => None
  }

  function TokenKeyId(p: Primitives, encoded: string): Result<string, Refusal> {
    match DecodeToken(encoded)
    case None => Failure(MalformedToken)
    case Some((payload, _)) =>
      match ProbeKeyId(p, payload)
      case None => Failure(MalformedPayload)
      case Some(keyId) => Success(keyId)
  }

  predicate InWindow(c: WorkContext, now: real, clockSkew: real) {
    && c.notBeforeUnix as real - clockSkew <= now
    && c.issuedAtUnix as real <= now + clockSkew
    && now <= c.expiresAtUnix as real + clockSkew
  }

  predicate Matches(c: WorkContext, e: Expectations) {
    && (e.issuer != "" ==> c.issuer == e.issuer)
    && (e.audience != "" ==> c.audience == e.audience)
    && (e.tenantId != "" ==> c.tenantId == e.tenantId)
    && (e.ownerPrincipalId != "" ==> c.ownerPrincipalId == e.ownerPrincipalId)
    && (e.taskId != "" ==> c.taskId == e.taskId)
    && (e.sessionId != "" ==> c.sessionId == e.sessionId)
    && (e.parentSessionId.Some? ==>
          e.parentSessionId.value == if c.parentSessionId.Some? then c.parentSessionId.value else "")
    && (e.authorizationRevision.Some? ==> c.authorizationRevision == e.authorizationRevision.value)
  }

  /** The first check that fails names the refusal. */
  ghost function Verify(p: Primitives, v: Verifier, now: real, encoded: string, e: Expectations)
    : Result<WorkContext, Refusal>
  {
    match TokenKeyId(p, encoded)
    case Failure(refusal) => Failure(refusal)
    case Success(keyId) =>
      var (payload, signature) := DecodeToken(encoded).value;
      var claims := p.parsePayload(payload).value;
      if keyId !in v.keys then Failure(UnknownKey)
      else if !p.checkSignature(v.keys[keyId], payload, signature) then Failure(BadSignature)
      else if !ValidWorkContext(claims) then Failure(InvalidClaims)
      else if !InWindow(claims, now, v.clockSkew) then Failure(OutsideWindow)
      else if !Matches(claims, e) then Failure(Unexpected)
      else Success(claims)
  }

  method VerifyToken(p: Primitives, v: Verifier, now: real, encoded: string, expected: Expectations)
    returns (result: Result<WorkContext, Refusal>)
    ensures result == Verify(p, v, now, encoded, expected)
  {
    var decoded := DecodeToken(encoded);
    if decoded.None? {
      return Failure(MalformedToken);
    }
    var (payload, signature) := decoded.value;
    var keyId := ProbeKeyId(p, payload);
    if keyId.None? {
      return Failure(MalformedPayload);
    }
    if keyId.value !in v.keys {
      return Failure(UnknownKey);
    }
    if !p.checkSignature(v.keys[keyId.value], payload, signature) {
      return Failure(BadSignature);
    }
    var context := p.parsePayload(payload).value;
    var valid := ValidateWorkContext(context);
    if !valid {
      return Failure(InvalidClaims);
    }
    if !InWindow(context, now, v.clockSkew) {
      return Failure(OutsideWindow);
    }
    if !Matches(context, expected) {
      return Failure(Unexpected);
    }
    return Success(context);
  }

  // ----- What the answers mean -----

  ghost predicate InTime(c: WorkContext, now: real, skew: real) {
    && c.notBeforeUnix as real - skew <= now <= c.expiresAtUnix as real + skew
    && c.issuedAtUnix as real <= now + skew
  }

  ghost predicate Constrains(wanted: string, got: string) {
    wanted != "" && got != wanted
  }

  /** Some field that the callee set differs; an absent parent session compares as the empty string. */
  ghost predicate Contradicts(c: WorkContext, e: Expectations) {
    || Constrains(e.issuer, c.issuer) || Constrains(e.audience, c.audience) || Constrains(e.tenantId, c.tenantId)
    || Constrains(e.ownerPrincipalId, c.ownerPrincipalId) || Constrains(e.taskId, c.taskId)
    || Constrains(e.sessionId, c.sessionId)
    || (e.parentSessionId.Some? && c.parentSessionId.None? && e.parentSessionId.value != "")
    || (e.parentSessionId.Some? && c.parentSessionId.Some? && e.parentSessionId != c.parentSessionId)
    || (e.authorizationRevision.Some? && e.authorizationRevision.value != c.authorizationRevision)
  }

  /** The token is the one encoding of a payload of claims `c`, which name key `c.keyId`, and of a 64-byte signature. */
  ghost predicate Presents(p: Primitives, encoded: string, payload: seq<Byte>, signature: seq<Byte>, c: WorkContext) {
    && encoded == Token(payload, signature) && |signature| == 64 && |encoded| <= 32768
    && p.parsePayload(payload) == Some(c) && Fits(c.keyId, 128)
  }

  lemma PresentedExactly(p: Primitives, encoded: string, payload: seq<Byte>, signature: seq<Byte>, c: WorkContext)
    ensures Presents(p, encoded, payload, signature, c) <==>
            && TokenKeyId(p, encoded) == Success(c.keyId)
            && DecodeToken(encoded) == Some((payload, signature)) && p.parsePayload(payload) == Some(c)
  {
    TokenExactly(encoded, payload, signature);
    BoundedExactly(c.keyId, 128);
  }

  /** A presented token is refused for the first reason that applies, in the documented order of trust. */
  lemma JudgedExactly(p: Primitives, v: Verifier, now: real, encoded: string, e: Expectations,
                      payload: seq<Byte>, signature: seq<Byte>, c: WorkContext)
    requires Presents(p, encoded, payload, signature, c)
    ensures Verify(p, v, now, encoded, e) ==
            if c.keyId !in v.keys then Failure(UnknownKey)
            else if !p.checkSignature(v.keys[c.keyId], payload, signature) then Failure(BadSignature)
            else if !ValidWorkContext(c) then Failure(InvalidClaims)
            else if !InTime(c, now, v.clockSkew) then Failure(OutsideWindow)
            else if Contradicts(c, e) then Failure(Unexpected)
            else Success(c)
  {
    PresentedExactly(p, encoded, payload, signature, c);
  }

  /** Text that is no token, and a payload that is no claims naming a key, are refused before any key is looked at. */
  lemma MalformedExactly(p: Primitives, v: Verifier, now: real, encoded: string, e: Expectations)
    ensures Verify(p, v, now, encoded, e) == Failure(MalformedToken) <==>
            !exists payload, signature ::
              encoded == Token(payload, signature) && |signature| == 64 && |encoded| <= 32768
    ensures (exists payload, signature, c :: Presents(p, encoded, payload, signature, c)) <==>
            && Verify(p, v, now, encoded, e) != Failure(MalformedToken)
            && Verify(p, v, now, encoded, e) != Failure(MalformedPayload)
  {
    forall payload, signature
      ensures DecodeToken(encoded) == Some((payload, signature)) <==>
              encoded == Token(payload, signature) && |signature| == 64 && |encoded| <= 32768
    {
      TokenExactly(encoded, payload, signature);
    }
    forall payload, signature, c | Presents(p, encoded, payload, signature, c) ensures TokenKeyId(p, encoded).Success? {
      PresentedExactly(p, encoded, payload, signature, c);
    }
    if TokenKeyId(p, encoded).Success? {
      var (payload, signature) := DecodeToken(encoded).value;
      PresentedExactly(p, encoded, payload, signature, p.parsePayload(payload).value);
    }
  }

  /**
   * Acceptance in terms of the wire: the token is the one encoding of a payload of these claims and of a
   * 64-byte signature over exactly that payload, under the key the claims themselves name; the claims are valid,
   * the reading lies in their window, and nothing the callee expects contradicts them.
   */
  lemma AcceptedExactly(p: Primitives, v: Verifier, now: real, encoded: string, e: Expectations, c: WorkContext)
    ensures Verify(p, v, now, encoded, e) == Success(c) <==>
            exists payload, signature ::
              && Presents(p, encoded, payload, signature, c)
              && c.keyId in v.keys && p.checkSignature(v.keys[c.keyId], payload, signature)
              && ValidWorkContext(c)
              && c.notBeforeUnix as real - v.clockSkew <= now <= c.expiresAtUnix as real + v.clockSkew
              && c.issuedAtUnix as real <= now + v.clockSkew
              && !Contradicts(c, e)
  {
    if Verify(p, v, now, encoded, e) == Success(c) {
      var (payload, signature) := DecodeToken(encoded).value;
      PresentedExactly(p, encoded, payload, signature, c);
      JudgedExactly(p, v, now, encoded, e, payload, signature, c);
    }
    forall payload, signature | Presents(p, encoded, payload, signature, c)
      ensures Verify(p, v, now, encoded, e) == Success(c) <==>
              && c.keyId in v.keys && p.checkSignature(v.keys[c.keyId], payload, signature)
              && ValidWorkContext(c) && InTime(c, now, v.clockSkew) && !Contradicts(c, e)
    {
      JudgedExactly(p, v, now, encoded, e, payload, signature, c);
    }
  }

  /** Only the key a token names can influence how it is judged. */
  lemma OnlyNamedKeyMatters(p: Primitives, v: Verifier, w: Verifier, now: real, encoded: string, e: Expectations,
                            keyId: string)
    requires TokenKeyId(p, encoded) == Success(keyId) && v.clockSkew == w.clockSkew
    requires keyId in v.keys <==> keyId in w.keys
    requires keyId in v.keys ==> v.keys[keyId] == w.keys[keyId]
    ensures Verify(p, v, now, encoded, e) == Verify(p, w, now, encoded, e)
  {
  }

  /** A verified token authorizes nothing its owner does not hold. */
  lemma VerifiedNeverExceedsOwner(
    p: Primitives, v: Verifier, now: real, encoded: string, e: Expectations, c: WorkContext, r: ScopeRequirement)
    requires Verify(p, v, now, encoded, e) == Success(c)
    requires WellFormed(r) && Grants(c.EffectiveScopes(), r)
    ensures Grants(c.authorityScopes, r.(requireExplicitResource := false))
  {
    AuthorizedIsHeldByEveryHop(c, r, 0);
  }
}
