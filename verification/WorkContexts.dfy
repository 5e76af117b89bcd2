/** Work Context claims: structural validation, the actor chain, and authorization against it. */
module WorkContexts {
  import opened Wrappers
  import opened Text
  import opened Scopes

  const WORK_CONTEXT_TYPE := "codefly.work-context/v1"
  const WORK_CONTEXT_ALGORITHM := "Ed25519"
  const REPLAY_IDEMPOTENT := "idempotent"
  const REPLAY_SINGLE_USE := "single-use"
  const MAX_TTL_SECONDS: int := 900
  const MAX_ACTOR_DEPTH: nat := 16

  datatype WorkActor = WorkActor(
    principalId: string, principalKind: string, delegationId: string, grantedScopes: seq<WorkScope>)

  datatype WorkContext = WorkContext(
    typ: string, algorithm: string, keyId: string, issuer: string, audience: string,
    notBeforeUnix: int, issuedAtUnix: int, expiresAtUnix: int,
    nonce: string, authorizationRevision: int, replayPolicy: string,
    tenantId: string, ownerPrincipalId: string, taskId: string, sessionId: string, parentSessionId: Option<string>,
    authorityScopes: seq<WorkScope>, actorChain: seq<WorkActor>, attributionTeamIds: seq<string>,
    workspaceId: Option<string>, projectId: Option<string>)
  {
    /** The scopes of the current hop. */
    function EffectiveScopes(): seq<WorkScope> {
      if actorChain != [] then actorChain[|actorChain| - 1].grantedScopes else authorityScopes
    }

    /** Hop 0 is the owner; hop i is the i-th actor of the chain. */
    function Level(i: nat): seq<WorkScope>
      requires i <= |actorChain|
    {
      if i == 0 then authorityScopes else actorChain[i - 1].grantedScopes
    }
  }

  // ----- Structural validation -----

  predicate OptionalBounded(value: Option<string>) {
    value.Some? ==> Bounded(value.value, MAX_ID_BYTES, true)
  }

  /** Every check that looks at one field or at the time stamps. */
  predicate ValidFields(c: WorkContext) {
    && c.typ == WORK_CONTEXT_TYPE && c.algorithm == WORK_CONTEXT_ALGORITHM
    && Bounded(c.keyId, MAX_KIND_BYTES, true)
    && (forall value |
          value in [c.issuer, c.audience, c.nonce, c.tenantId, c.ownerPrincipalId, c.taskId, c.sessionId] ::
          Bounded(value, MAX_ID_BYTES, true))
    && OptionalBounded(c.parentSessionId) && OptionalBounded(c.workspaceId) && OptionalBounded(c.projectId)
    && c.parentSessionId != Some(c.sessionId)
    && c.replayPolicy in [REPLAY_IDEMPOTENT, REPLAY_SINGLE_USE]
    && c.notBeforeUnix <= c.expiresAtUnix
    && 0 < c.expiresAtUnix - c.issuedAtUnix <= MAX_TTL_SECONDS
  }

  predicate ValidActorFields(actor: WorkActor) {
    && Bounded(actor.principalId, MAX_ID_BYTES, true)
    && Bounded(actor.principalKind, MAX_KIND_BYTES, true)
    && Bounded(actor.delegationId, MAX_ID_BYTES, true)
  }

  ghost predicate WellFormedHop(c: WorkContext, i: nat)
    requires 0 < i <= |c.actorChain|
  {
    ValidActorFields(c.actorChain[i - 1]) && ValidScopes(c.Level(i))
  }

  /** The hop is well formed and holds no more than the hop before it. */
  ghost predicate ValidHop(c: WorkContext, i: nat)
    requires 0 < i <= |c.actorChain|
  {
    WellFormedHop(c, i) && Attenuates(c.Level(i - 1), c.Level(i))
  }

  ghost predicate ValidChain(c: WorkContext) {
    forall i | 0 < i <= |c.actorChain| :: ValidHop(c, i)
  }

  ghost predicate ValidWorkContext(c: WorkContext) {
    && ValidFields(c)
    && |c.actorChain| <= MAX_ACTOR_DEPTH
    && |c.attributionTeamIds| <= MAX_SCOPE_ENTRIES
    && ValidEntries(c.attributionTeamIds, MAX_ID_BYTES)
    && ValidScopes(c.authorityScopes)
    && ValidChain(c)
  }

  ghost predicate PresentFits(value: Option<string>) {
    value.Some? ==> Fits(value.value, 512)
  }

  /** Every check on single fields and on the time stamps, with its limits. */
  lemma ValidFieldsExactly(c: WorkContext)
    ensures ValidFields(c) <==>
            && c.typ == "codefly.work-context/v1" && c.algorithm == "Ed25519"
            && Fits(c.keyId, 128) && Fits(c.issuer, 512) && Fits(c.audience, 512) && Fits(c.nonce, 512)
            && Fits(c.tenantId, 512) && Fits(c.ownerPrincipalId, 512) && Fits(c.taskId, 512) && Fits(c.sessionId, 512)
            && PresentFits(c.parentSessionId) && PresentFits(c.workspaceId) && PresentFits(c.projectId)
            && (c.parentSessionId.Some? ==> c.parentSessionId.value != c.sessionId)
            && (c.replayPolicy == "idempotent" || c.replayPolicy == "single-use")
            && c.notBeforeUnix <= c.expiresAtUnix && c.issuedAtUnix < c.expiresAtUnix <= c.issuedAtUnix + 900
  {
    BoundedExactly(c.keyId, 128);
    var required := [c.issuer, c.audience, c.nonce, c.tenantId, c.ownerPrincipalId, c.taskId, c.sessionId];
    forall value | value in required ensures Bounded(value, 512, true) <==> Fits(value, 512) {
      BoundedExactly(value, 512);
    }
    assert forall i | 0 <= i < 7 :: required[i] in required;
    PresentExactly(c.parentSessionId);
    PresentExactly(c.workspaceId);
    PresentExactly(c.projectId);
  }

  lemma PresentExactly(value: Option<string>)
    ensures OptionalBounded(value) <==> PresentFits(value)
  {
    if value.Some? {
      BoundedExactly(value.value, 512);
    }
  }

  /** Actor `i` is within bounds and holds no more than the actor before it, or than the owner. */
  ghost predicate FitActor(c: WorkContext, i: nat)
    requires i < |c.actorChain|
  {
    var actor := c.actorChain[i];
    && Fits(actor.principalId, 512) && Fits(actor.principalKind, 128) && Fits(actor.delegationId, 512)
    && ValidScopes(actor.grantedScopes)
    && Attenuates(if i == 0 then c.authorityScopes else c.actorChain[i - 1].grantedScopes, actor.grantedScopes)
  }

  lemma FitActorExactly(c: WorkContext, i: nat)
    requires i < |c.actorChain|
    ensures FitActor(c, i) <==> ValidHop(c, i + 1)
  {
    BoundedExactly(c.actorChain[i].principalId, 512);
    BoundedExactly(c.actorChain[i].principalKind, 128);
    BoundedExactly(c.actorChain[i].delegationId, 512);
  }

  lemma ValidChainExactly(c: WorkContext)
    ensures ValidChain(c) <==> forall i | 0 <= i < |c.actorChain| :: FitActor(c, i)
  {
    forall i | 0 <= i < |c.actorChain| ensures FitActor(c, i) <==> ValidHop(c, i + 1) {
      FitActorExactly(c, i);
    }
    if forall i | 0 <= i < |c.actorChain| :: FitActor(c, i) {
      forall i | 0 < i <= |c.actorChain| ensures ValidHop(c, i) {
        assert FitActor(c, i - 1);
      }
    }
  }

  /** And every check on lists and on the chain. */
  lemma ValidWorkContextExactly(c: WorkContext)
    ensures ValidWorkContext(c) <==>
            && ValidFields(c) && |c.actorChain| <= 16
            && |c.attributionTeamIds| <= 256 && ValidEntries(c.attributionTeamIds, 512)
            && ValidScopes(c.authorityScopes)
            && (forall i | 0 <= i < |c.actorChain| :: FitActor(c, i))
  {
    ValidChainExactly(c);
  }

  method ValidateFields(c: WorkContext) returns (ok: bool)
    ensures ok <==> ValidFields(c)
  {
    if c.typ != WORK_CONTEXT_TYPE || c.algorithm != WORK_CONTEXT_ALGORITHM {
      return false;
    }
    if !Bounded(c.keyId, MAX_KIND_BYTES, true) {
      return false;
    }
    var required := [c.issuer, c.audience, c.nonce, c.tenantId, c.ownerPrincipalId, c.taskId, c.sessionId];
    for i := 0 to |required|
      invariant forall k | 0 <= k < i :: Bounded(required[k], MAX_ID_BYTES, true)
    {
      if !Bounded(required[i], MAX_ID_BYTES, true) {
        assert required[i] in required;
        return false;
      }
    }
    var optional := [c.parentSessionId, c.workspaceId, c.projectId];
    for i := 0 to |optional|
      invariant forall k | 0 <= k < i :: OptionalBounded(optional[k])
    {
      if optional[i].Some? && !Bounded(optional[i].value, MAX_ID_BYTES, true) {
        return false;
      }
    }
    assert OptionalBounded(optional[0]) && OptionalBounded(optional[1]) && OptionalBounded(optional[2]);
    if c.parentSessionId.Some? && c.parentSessionId.value == c.sessionId {
      return false;
    }
    if c.replayPolicy !in [REPLAY_IDEMPOTENT, REPLAY_SINGLE_USE] {
      return false;
    }
    if c.notBeforeUnix > c.expiresAtUnix || c.issuedAtUnix > c.expiresAtUnix {
      return false;
    }
    var ttl := c.expiresAtUnix - c.issuedAtUnix;
    return 0 < ttl <= MAX_TTL_SECONDS;
  }

  method ValidateChain(c: WorkContext) returns (ok: bool)
    ensures ok <==> ValidChain(c)
  {
    var previous := c.authorityScopes;
    for i := 0 to |c.actorChain|
      invariant previous == c.Level(i)
      invariant forall k | 0 < k <= i :: ValidHop(c, k)
    {
      var actor := c.actorChain[i];
      assert c.Level(i + 1) == actor.grantedScopes;
      if !ValidActorFields(actor) {
        assert !ValidHop(c, i + 1);
        return false;
      }
      var scopesOk := ValidateScopes(actor.grantedScopes);
      if !scopesOk {
        assert !ValidHop(c, i + 1);
        return false;
      }
      var attenuates := ScopesAttenuate(previous, actor.grantedScopes);
      if !attenuates {
        assert !ValidHop(c, i + 1);
        return false;
      }
      previous := actor.grantedScopes;
    }
    return true;
  }

  method ValidateWorkContext(c: WorkContext) returns (ok: bool)
    ensures ok <==> ValidWorkContext(c)
  {
    var fieldsOk := ValidateFields(c);
    if !fieldsOk || |c.actorChain| > MAX_ACTOR_DEPTH || |c.attributionTeamIds| > MAX_SCOPE_ENTRIES {
      return false;
    }
    var teamsOk := ValidateSortedUnique(c.attributionTeamIds, MAX_ID_BYTES);
    if !teamsOk {
      return false;
    }
    var authorityOk := ValidateScopes(c.authorityScopes);
    if !authorityOk {
      return false;
    }
    ok := ValidateChain(c);
  }

  // ----- No hop widens authority -----

  lemma LevelsAreValid(c: WorkContext, i: nat)
    requires ValidWorkContext(c) && i <= |c.actorChain|
    ensures ValidScopes(c.Level(i))
  {
    if i > 0 {
      assert ValidHop(c, i);
    }
  }

  /** Checking neighbours is enough: every earlier hop holds whatever a later hop holds. */
  lemma {:induction false} EarlierHopAttenuates(c: WorkContext, i: nat, j: nat)
    requires ValidWorkContext(c) && i <= j <= |c.actorChain|
    ensures Attenuates(c.Level(i), c.Level(j))
    decreases j
  {
    LevelsAreValid(c, i);
    LevelsAreValid(c, j);
    if i == j {
      AttenuationReflexive(c.Level(i));
    } else {
      LevelsAreValid(c, j - 1);
      EarlierHopAttenuates(c, i, j - 1);
      assert ValidHop(c, j);
      AttenuationTransitive(c.Level(i), c.Level(j - 1), c.Level(j));
    }
  }

  lemma NoHopWidens(c: WorkContext, i: nat, j: nat)
    requires ValidWorkContext(c) && i <= j <= |c.actorChain|
    ensures Contains(c.Level(i), c.Level(j))
  {
    EarlierHopAttenuates(c, i, j);
    AttenuatesThenContains(c.Level(i), c.Level(j));
  }

  /** For well-formed hops, the neighbour checks accept exactly the chains on which authority only shrinks. */
  lemma ChainAcceptedIffMonotone(c: WorkContext)
    requires ValidScopes(c.authorityScopes)
    requires forall i | 0 < i <= |c.actorChain| :: WellFormedHop(c, i)
    ensures ValidChain(c) <==>
            forall i, j | 0 <= i <= j <= |c.actorChain| :: Contains(c.Level(i), c.Level(j))
  {
    forall i | 0 <= i <= |c.actorChain| ensures ValidScopes(c.Level(i)) {
      assert i > 0 ==> WellFormedHop(c, i);
    }
    if ValidChain(c) {
      forall i, j | 0 <= i <= j <= |c.actorChain| ensures Contains(c.Level(i), c.Level(j)) {
        ChainContains(c, i, j);
      }
    }
    if forall i, j | 0 <= i <= j <= |c.actorChain| :: Contains(c.Level(i), c.Level(j)) {
      forall i | 0 < i <= |c.actorChain| ensures ValidHop(c, i) {
        AttenuationIsContainment(c.Level(i - 1), c.Level(i));
      }
    }
  }

  lemma {:induction false} ChainContains(c: WorkContext, i: nat, j: nat)
    requires ValidChain(c) && i <= j <= |c.actorChain|
    ensures Contains(c.Level(i), c.Level(j))
    decreases j
  {
    if i < j {
      ChainContains(c, i, j - 1);
      assert ValidHop(c, j);
      AttenuatesThenContains(c.Level(j - 1), c.Level(j));
    }
  }

  // ----- Authorization -----

  datatype Decision = Authorized | ScopeDenied | Malformed

  /** Claims are validated again before the effective scopes are searched. */
  method RequireScope(claims: WorkContext, r: ScopeRequirement) returns (decision: Decision)
    ensures decision == Malformed <==> !ValidWorkContext(claims) || !WellFormed(r)
    ensures decision == Authorized <==> ValidWorkContext(claims) && WellFormed(r) && Grants(claims.EffectiveScopes(), r)
  {
    var ok := ValidateWorkContext(claims);
    if !ok {
      return Malformed;
    }
    if !Bounded(r.resourceKind, MAX_KIND_BYTES, true) || !Bounded(r.action, MAX_KIND_BYTES, true) {
      return Malformed;
    }
    if !Bounded(r.resourceId, MAX_ID_BYTES, r.requireExplicitResource) {
      return Malformed;
    }
    var granted := FindGrant(claims.EffectiveScopes(), r);
    return if granted then Authorized else ScopeDenied;
  }

  /** The bounds on a requirement: kind and action as in a scope, and an ID unless one may be missing. */
  lemma WellFormedExactly(r: ScopeRequirement)
    ensures WellFormed(r) <==>
            && Fits(r.resourceKind, 128) && Fits(r.action, 128) && |Utf8Encode(r.resourceId)| <= 512
            && (r.requireExplicitResource ==> r.resourceId != "")
  {
    BoundedExactly(r.resourceKind, 128);
    BoundedExactly(r.action, 128);
    BoundedExactly(r.resourceId, 512);
    EmptyFits(r.resourceId);
  }

  /** The effective scopes are those of the last actor, or the owner's without one. */
  lemma EffectiveExactly(c: WorkContext, chain: seq<WorkActor>, last: WorkActor)
    ensures c.(actorChain := chain + [last]).EffectiveScopes() == last.grantedScopes
    ensures c.(actorChain := []).EffectiveScopes() == c.authorityScopes
  {
  }

  /** Whatever the last hop is authorized for, the owner and every actor before it hold as well. */
  lemma AuthorizedIsHeldByEveryHop(c: WorkContext, r: ScopeRequirement, i: nat)
    requires ValidWorkContext(c) && WellFormed(r) && i <= |c.actorChain|
    requires Grants(c.EffectiveScopes(), r)
    ensures Grants(c.Level(i), r.(requireExplicitResource := false))
  {
    var plain := r.(requireExplicitResource := false);
    var effective := c.EffectiveScopes();
    assert effective == c.Level(|c.actorChain|);
    var k :| 0 <= k < |effective| && ScopeGrants(effective[k], r);
    assert ScopeGrants(effective[k], plain);
    NoHopWidens(c, i, |c.actorChain|);
  }

  /**
   * With the explicit flag kept, the same holds between two hops exactly when the later one lists no IDs
   * where the earlier one held the wildcard.
   */
  lemma ExplicitAuthorityAlongChain(c: WorkContext, i: nat, j: nat)
    requires ValidWorkContext(c) && i <= j <= |c.actorChain|
    ensures ContainsExplicit(c.Level(i), c.Level(j)) <==> !NarrowsWildcard(c.Level(i), c.Level(j))
  {
    LevelsAreValid(c, i);
    LevelsAreValid(c, j);
    EarlierHopAttenuates(c, i, j);
    ExplicitMonotoneIffNoWildcardNarrowed(c.Level(i), c.Level(j));
  }
}
