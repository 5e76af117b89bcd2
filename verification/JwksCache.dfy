/** The lock-protected cache itself. Each method is one critical section. */
module JwksCache {
  import opened Text
  import opened Wrappers
  import opened WorkContexts
  import opened Verifiers
  import H = JwksHistory
  import T = JwksThreads

  datatype CallError = Refused(refusal: Refusal) | KeysUnavailable(reason: string)

  /** How a caller sees the judgement of the keys in force. */
  function JudgedAs(judged: Result<WorkContext, Refusal>): Result<WorkContext, CallError> {
    match judged
    case Success(claims) => Success(claims)
    case Failure(refusal) => Failure(Refused(refusal))
  }

  /** The caller sees the claims judged valid, or the refusal. */
  ghost predicate Answers(result: Result<WorkContext, CallError>, judged: Result<WorkContext, Refusal>) {
    && (judged.Success? ==> result == Success(judged.value))
    && (judged.Failure? ==> result == Failure(Refused(judged.error)))
  }

  /** The endpoint's URL, split into its parts. */
  datatype Url = Url(scheme: string, hostname: Option<string>, username: Option<string>, password: Option<string>,
                     query: string, fragment: string)

  predicate PublicEndpoint(url: Url) {
    && url.scheme in ["http", "https"]
    && url.hostname.Some? && url.hostname.value != ""
    && url.username.None? && url.password.None?
    && url.query == "" && url.fragment == ""
  }

  /** What the fields say when the history is `h`. */
  ghost predicate Tells(h: seq<H.Fetch>, cacheTtl: real, verifier: Option<Verifier>, keyIds: set<string>,
                        expiresAt: real, generation: nat, retryAfter: real, lastError: Option<string>)
  {
    && generation == H.Generation(h)
    && verifier == (if generation > 0 then Some(H.VerifierOf(h, generation)) else None)
    && keyIds == (if generation > 0 then H.VerifierOf(h, generation).keys.Keys else {})
    && expiresAt == (if generation > 0 then H.InstallOf(h, generation).end + cacheTtl else 0.0)
    && (if h != [] && H.Last(h).outcome.Failed? then
          lastError == Some(H.Last(h).outcome.reason) && retryAfter == H.Last(h).end + H.FAILED_REFRESH_BACKOFF
        else
          lastError == None && retryAfter == 0.0)
  }

  lemma TellsAfterInstall(h: seq<H.Fetch>, f: H.Fetch, cacheTtl: real)
    requires f.outcome.Installed?
    ensures Tells(h + [f], cacheTtl, Some(f.outcome.verifier), f.outcome.verifier.keys.Keys, f.end + cacheTtl,
                  H.Generation(h) + 1, 0.0, None)
  {
    H.InstallTakesOver(h, f);
  }

  lemma TellsAfterFailure(h: seq<H.Fetch>, f: H.Fetch, cacheTtl: real, verifier: Option<Verifier>, keyIds: set<string>,
                          expiresAt: real, generation: nat, retryAfter: real, lastError: Option<string>)
    requires f.outcome.Failed? && Tells(h, cacheTtl, verifier, keyIds, expiresAt, generation, retryAfter, lastError)
    ensures Tells(h + [f], cacheTtl, verifier, keyIds, expiresAt, generation,
                  f.end + H.FAILED_REFRESH_BACKOFF, Some(f.outcome.reason))
  {
    H.FailureLeavesInstall(h, f);
  }

  /** The keys of a reply are fit for a verifier. */
  ghost predicate Fit(reply: H.Reply) {
    reply.Fetched? && |reply.keys| > 0 && forall id | id in reply.keys :: Fits(id, 128) && |reply.keys[id]| == 32
  }

  /** A call on an empty cache whose first fetch brings its key is judged with exactly what was fetched. */
  lemma FirstCallServes(ttl: real, call: T.Call, end: real, reply: H.Reply, clockSkew: real,
                        start2: real, end2: real, outcome2: H.Outcome)
    requires Fit(reply) && call.keyId in reply.keys && ValidSkew(clockSkew)
    ensures var (h, move) := T.Gather(ttl, [], call, end, H.OutcomeOf(reply, clockSkew), start2, end2, outcome2);
            move == T.Goes(T.Judging(call, 1, H.Snapshot(Verifier(reply.keys, clockSkew), reply.keys.Keys, 1)))
  {
    var f := H.Fetch(H.Scheduled, call.first, end, H.OutcomeOf(reply, clockSkew));
    H.OutcomeExactly(reply, clockSkew, Verifier(reply.keys, clockSkew));
    H.InstallTakesOver([], f);
  }

  class JwksVerifier {
    const cacheTtl: real
    const clockSkew: real
    var verifier: Option<Verifier>
    var keyIds: set<string>
    var expiresAt: real
    var generation: nat
    var unknownRefreshGeneration: nat
    var retryAfter: real
    var lastError: Option<string>
    ghost var history: seq<H.Fetch>

    /**
     * Every field but the unknown-key reservation is what the history says it is, and the verifier in force was
     * built under the skew of this object.
     */
    ghost predicate Consistent()
      reads this
    {
      && H.MIN_CACHE_TTL <= cacheTtl <= H.MAX_CACHE_TTL && ValidSkew(clockSkew)
      && (forall f | f in history :: 0.0 <= f.end)
      && (verifier.Some? ==> verifier.value.clockSkew == clockSkew)
      && Tells(history, cacheTtl, verifier, keyIds, expiresAt, generation, retryAfter, lastError)
    }

    ghost predicate Valid()
      reads this
    {
      Consistent() && unknownRefreshGeneration == if H.RefreshSpent(history) then generation else 0
    }

    constructor (cacheTtl: real, clockSkew: real)
      requires H.MIN_CACHE_TTL <= cacheTtl <= H.MAX_CACHE_TTL && ValidSkew(clockSkew)
      ensures Valid() && history == [] && this.cacheTtl == cacheTtl && this.clockSkew == clockSkew
    {
      this.cacheTtl, this.clockSkew := cacheTtl, clockSkew;
      verifier, keyIds, expiresAt, generation, unknownRefreshGeneration := None, {}, 0.0, 0, 0;
      retryAfter, lastError := 0.0, None;
      history := [];
    }

    /** An unfit endpoint and out-of-range settings are refused at construction. */
    static method New(url: Url, cacheTtl: real, requestTimeout: real, clockSkew: real) returns (created: JwksVerifier?)
      ensures created != null <==>
              && (url.scheme == "http" || url.scheme == "https") && url.hostname.Some? && url.hostname.value != ""
              && url.username == url.password == None && url.query == url.fragment == ""
              && 1.0 <= cacheTtl <= 86400.0 && 0.001 <= requestTimeout <= 30.0 && 0.0 <= clockSkew <= 60.0
      ensures created != null ==> fresh(created) && created.Valid() && created.history == []
      ensures created != null ==> created.cacheTtl == cacheTtl && created.clockSkew == clockSkew
    {
      if !PublicEndpoint(url) {
        return null;
      }
      if cacheTtl < H.MIN_CACHE_TTL || cacheTtl > H.MAX_CACHE_TTL {
        return null;
      }
      if requestTimeout < 0.001 || requestTimeout > 30.0 {
        return null;
      }
      if !ValidSkew(clockSkew) {
        return null;
      }
      created := new JwksVerifier(cacheTtl, clockSkew);
    }

    /** What is built from a reply, or why nothing is. */
    method Build(reply: H.Reply) returns (built: Option<Verifier>, reason: string)
      requires ValidSkew(clockSkew)
      ensures H.OutcomeOf(reply, clockSkew) == if built.Some? then H.Installed(built.value) else H.Failed(reason)
      ensures built.Some? <==> Fit(reply)
      ensures built.Some? ==> built.value == Verifier(reply.keys, clockSkew)
      ensures reply.Unreachable? ==> reason == reply.reason
    {
      if reply.Fetched? {
        H.OutcomeExactly(reply, clockSkew, Verifier(reply.keys, clockSkew));
      }
      built, reason := None, H.UNUSABLE;
      match reply {
        case Fetched(keys) => built := NewVerifier(keys, clockSkew);
        case Unreachable(why) => reason := why;
      }
    }

    /** A failure touches nothing but the two backoff fields. */
    method RecordFailure(ghost fetch: H.Fetch, end: real, reason: string)
      requires Consistent() && fetch.outcome == H.Failed(reason) && 0.0 <= fetch.end == end
      modifies this`history, this`retryAfter, this`lastError
      ensures Consistent() && history == old(history) + [fetch]
      ensures retryAfter == end + 5.0 && lastError == Some(reason)
    {
      TellsAfterFailure(history, fetch, cacheTtl, verifier, keyIds, expiresAt, generation, retryAfter, lastError);
      history := history + [fetch];
      retryAfter := end + H.FAILED_REFRESH_BACKOFF;
      lastError := Some(reason);
    }

    /** A success replaces everything but the unknown-key reservation. */
    method Install(ghost fetch: H.Fetch, end: real, built: Verifier)
      requires Consistent() && fetch.outcome == H.Installed(built) && 0.0 <= fetch.end == end
      requires built.clockSkew == clockSkew
      modifies this`history, this`verifier, this`keyIds, this`expiresAt, this`generation
      modifies this`retryAfter, this`lastError
      ensures Consistent() && history == old(history) + [fetch]
      ensures verifier == Some(built) && keyIds == built.keys.Keys && expiresAt == end + cacheTtl
      ensures generation == old(generation) + 1 && retryAfter == 0.0 && lastError == None
    {
      TellsAfterInstall(history, fetch, cacheTtl);
      history := history + [fetch];
      verifier := Some(built);
      keyIds := built.keys.Keys;
      expiresAt := end + cacheTtl;
      retryAfter := 0.0;
      lastError := None;
      generation := generation + 1;
    }

    /** One fetch. */
    method RefreshLocked(ghost trigger: H.Trigger, ghost start: real, reply: H.Reply, end: real)
      returns (response: H.Response)
      requires Consistent() && 0.0 <= end
      modifies this
      ensures Consistent() && unknownRefreshGeneration == old(unknownRefreshGeneration)
      ensures history == old(history) + [H.Fetch(trigger, start, end, H.OutcomeOf(reply, clockSkew))]
      ensures response == H.Answer(history)
      ensures response.Ready? <==> Fit(reply)
      ensures response.Ready? ==>
                && verifier == Some(Verifier(reply.keys, clockSkew)) && keyIds == reply.keys.Keys
                && expiresAt == end + cacheTtl && generation == old(generation) + 1
      ensures response.Unavailable? ==>
                && verifier == old(verifier) && keyIds == old(keyIds) && expiresAt == old(expiresAt)
                && generation == old(generation) && retryAfter == end + 5.0 && lastError == Some(response.reason)
      ensures reply.Unreachable? ==> response == H.Unavailable(reply.reason)
    {
      var built, reason := Build(reply);
      ghost var fetch := H.Fetch(trigger, start, end, H.OutcomeOf(reply, clockSkew));
      if built.None? {
        H.FailureLeavesInstall(history, fetch);
        RecordFailure(fetch, end, reason);
        return H.Unavailable(reason);
      }
      H.InstallTakesOver(history, fetch);
      Install(fetch, end, built.value);
      return H.Ready(H.Snapshot(built.value, keyIds, generation));
    }

    /** The explicit refresh; the error, if any, is returned. */
    method Refresh(ghost start: real, reply: H.Reply, end: real) returns (error: Option<string>)
      requires Valid() && 0.0 <= end
      modifies this
      ensures Valid()
      ensures history == old(history) + [H.Fetch(H.Explicit, start, end, H.OutcomeOf(reply, clockSkew))]
      ensures error == match H.Answer(history) case Ready(_) => None case Unavailable(reason) => Some(reason)
    {
      H.SpentStep(history, H.Fetch(H.Explicit, start, end, H.OutcomeOf(reply, clockSkew)));
      var response := RefreshLocked(H.Explicit, start, reply, end);
      if response.Unavailable? {
        return Some(response.reason);
      }
      unknownRefreshGeneration := 0;
      return None;
    }

    method Current(now: real, reply: H.Reply, end: real) returns (response: H.Response)
      requires Valid() && 0.0 <= now && 0.0 <= end
      modifies this
      ensures Valid()
      ensures (history, response) == H.Current(old(history), cacheTtl, now, end, H.OutcomeOf(reply, clockSkew))
    {
      if verifier.Some? && now < expiresAt {
        return H.Ready(H.Snapshot(verifier.value, keyIds, generation));
      }
      if now < retryAfter {
        return H.Unavailable(lastError.value);
      }
      H.SpentStep(history, H.Fetch(H.Scheduled, now, end, H.OutcomeOf(reply, clockSkew)));
      response := RefreshLocked(H.Scheduled, now, reply, end);
      if response.Unavailable? {
        return;
      }
      unknownRefreshGeneration := 0;
    }

    method RefreshUnknown(observedGeneration: nat, ghost start: real, reply: H.Reply, end: real)
      returns (response: H.Response)
      requires Valid() && 0.0 <= end
      modifies this
      ensures Valid()
      ensures (history, response) ==
              H.RefreshUnknown(old(history), observedGeneration, start, end, H.OutcomeOf(reply, clockSkew))
    {
      if verifier.Some? && generation != observedGeneration {
        return H.Ready(H.Snapshot(verifier.value, keyIds, generation));
      }
      if verifier.Some? && unknownRefreshGeneration == generation {
        return H.Ready(H.Snapshot(verifier.value, keyIds, generation));
      }
      H.SpentStep(history, H.Fetch(H.ForUnknownKey, start, end, H.OutcomeOf(reply, clockSkew)));
      unknownRefreshGeneration := generation;
      response := RefreshLocked(H.ForUnknownKey, start, reply, end);
      if response.Unavailable? {
        return;
      }
      unknownRefreshGeneration := response.snapshot.generation;
    }

    /** The keys a verify call judges with on an otherwise idle cache, and the generation it saw first. */
    method KeysFor(ghost call: T.Call, keyId: string, now: real, reply: H.Reply, end: real,
                   ghost start2: real, reply2: H.Reply, end2: real)
      returns (response: H.Response, observed: nat)
      requires Valid() && 0.0 <= now && 0.0 <= end && 0.0 <= end2 && call.keyId == keyId && call.first == now
      modifies this
      ensures Valid()
      ensures (history, match response
                        case Ready(s) => T.Goes(T.Judging(call, observed, s))
                        case Unavailable(reason) => T.Ends(T.NoKeys(call, reason)))
              == T.Gather(cacheTtl, old(history), call, end, H.OutcomeOf(reply, clockSkew),
                          start2, end2, H.OutcomeOf(reply2, clockSkew))
    {
      observed := 0;
      response := Current(now, reply, end);
      if response.Unavailable? {
        return;
      }
      observed := response.snapshot.generation;
      if keyId in response.snapshot.keyIds {
        return;
      }
      response := RefreshUnknown(observed, start2, reply2, end2);
    }

    /**
     * The whole call on an otherwise idle cache. `reply` and `end` belong to the fetch its first section may
     * make, `reply2` and `end2` to the one for an unknown key, and `at` is the reading it judges with.
     */
    method Verify(p: Primitives, encoded: string, expected: Expectations, now: real, reply: H.Reply, end: real,
                  ghost start2: real, reply2: H.Reply, end2: real, at: real)
      returns (result: Result<WorkContext, CallError>)
      requires Valid() && 0.0 <= now && 0.0 <= end && 0.0 <= end2
      modifies this
      ensures Valid()
      ensures match TokenKeyId(p, encoded)
              case Failure(refusal) => history == old(history) && result == Failure(Refused(refusal))
              case Success(keyId) =>
                var (h, move) := T.Gather(cacheTtl, old(history), T.Call(encoded, expected, keyId, now), end,
                                          H.OutcomeOf(reply, clockSkew), start2, end2, H.OutcomeOf(reply2, clockSkew));
                && history == h
                && match move
                   case Ends(verdict) => verdict.NoKeys? && result == Failure(KeysUnavailable(verdict.reason))
                   case Goes(pc) =>
                     pc.Judging? && Answers(result, Verifiers.Verify(p, pc.snapshot.verifier, at, encoded, expected))
      ensures var keyId := TokenKeyId(p, encoded);
              old(history) == [] && keyId.Success? && Fit(reply) && keyId.value in reply.keys ==>
                Answers(result, Verifiers.Verify(p, Verifier(reply.keys, clockSkew), at, encoded, expected))
    {
      ghost var before := history;
      var probed := TokenKeyId(p, encoded);
      if probed.Failure? {
        return Failure(Refused(probed.error));
      }
      var keyId := probed.value;
      ghost var call := T.Call(encoded, expected, keyId, now);
      if before == [] && Fit(reply) && keyId in reply.keys {
        FirstCallServes(cacheTtl, call, end, reply, clockSkew, start2, end2, H.OutcomeOf(reply2, clockSkew));
      }
      var response, observed := KeysFor(call, keyId, now, reply, end, start2, reply2, end2);
      if response.Unavailable? {
        return Failure(KeysUnavailable(response.reason));
      }
      var judged := VerifyToken(p, response.snapshot.verifier, at, encoded, expected);
      return JudgedAs(judged);
    }
  }
}
