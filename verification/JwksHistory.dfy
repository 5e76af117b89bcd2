/**
 * The key cache told through its history: every fetch of the key set, in lock order. Which keys are
 * held, whether they are fresh, whether a failure is still being served and whether the unknown-key
 * refresh is spent are all questions about that history.
 */
module JwksHistory {
  import opened Text
  import opened Wrappers
  import opened Verifiers

  const FAILED_REFRESH_BACKOFF: real := 5.0
  const MIN_CACHE_TTL: real := 1.0
  const MAX_CACHE_TTL: real := 86400.0

  datatype Trigger = Scheduled | ForUnknownKey | Explicit

  /** What one request to the endpoint yields. */
  datatype Reply = Fetched(keys: KeySet) | Unreachable(reason: string)

  datatype Outcome = Installed(verifier: Verifier) | Failed(reason: string)

  /** `start` and `end` are the clock when the fetch begins and the reading taken right after it. */
  datatype Fetch = Fetch(trigger: Trigger, start: real, end: real, outcome: Outcome)

  const UNUSABLE := "unusable key set"

  /** A key set no verifier can be built from counts as an unavailable authority. */
  function OutcomeOf(reply: Reply, clockSkew: real): Outcome {
    match reply
    case Unreachable(reason) => Failed(reason)
    case Fetched(keys) => if Buildable(keys, clockSkew) then Installed(Verifier(keys, clockSkew)) else Failed(UNUSABLE)
  }

  /** A reply installs exactly the keys it brings, under the skew of the cache, if they are fit for a verifier. */
  lemma OutcomeExactly(reply: Reply, clockSkew: real, v: Verifier)
    ensures OutcomeOf(reply, clockSkew) == Installed(v) <==>
            && reply.Fetched? && v.keys == reply.keys && v.clockSkew == clockSkew
            && |reply.keys| > 0 && 0.0 <= clockSkew <= 60.0
            && (forall id | id in reply.keys :: Fits(id, 128) && |reply.keys[id]| == 32)
    ensures reply.Unreachable? ==> OutcomeOf(reply, clockSkew) == Failed(reply.reason)
  {
    if reply.Fetched? {
      BuildableExactly(reply.keys, clockSkew);
    }
  }

  // ----- Reading a history -----

  function Last(h: seq<Fetch>): Fetch
    requires h != []
  {
    h[|h| - 1]
  }

  function Generation(h: seq<Fetch>): nat {
    if h == [] then 0 else Generation(h[..|h| - 1]) + if Last(h).outcome.Installed? then 1 else 0
  }

  /** The fetch that installed generation `g`. */
  function InstallOf(h: seq<Fetch>, g: nat): (f: Fetch)
    requires 1 <= g <= Generation(h)
    ensures f in h && f.outcome.Installed?
  {
    if Last(h).outcome.Installed? && Generation(h) == g then Last(h) else InstallOf(h[..|h| - 1], g)
  }

  function VerifierOf(h: seq<Fetch>, g: nat): Verifier
    requires 1 <= g <= Generation(h)
  {
    InstallOf(h, g).outcome.verifier
  }

  predicate Fresh(h: seq<Fetch>, ttl: real, now: real) {
    Generation(h) > 0 && now < InstallOf(h, Generation(h)).end + ttl
  }

  predicate BackingOff(h: seq<Fetch>, now: real) {
    h != [] && Last(h).outcome.Failed? && now < Last(h).end + FAILED_REFRESH_BACKOFF
  }

  /** Some unknown-key fetch left the cache at generation `g`: it installed `g` or failed to replace it. */
  ghost predicate RefreshedForUnknown(h: seq<Fetch>, g: nat) {
    exists i | 0 <= i < |h| :: h[i].trigger == ForUnknownKey && Generation(h[..i + 1]) == g
  }

  ghost predicate RefreshSpent(h: seq<Fetch>) {
    RefreshedForUnknown(h, Generation(h))
  }

  // ----- What the critical sections do to a history -----

  datatype Snapshot = Snapshot(verifier: Verifier, keyIds: set<string>, generation: nat)

  datatype Response = Ready(snapshot: Snapshot) | Unavailable(reason: string)

  function Held(h: seq<Fetch>): Snapshot
    requires Generation(h) > 0
  {
    var v := VerifierOf(h, Generation(h));
    Snapshot(v, v.keys.Keys, Generation(h))
  }

  /** The answer given right after the last fetch of `h`. */
  function Answer(h: seq<Fetch>): Response
    requires h != []
  {
    match Last(h).outcome
    case Installed(_) => Ready(Held(h))
    case Failed(reason) => Unavailable(reason)
  }

  /** Serve fresh keys, or a recent failure, or fetch. */
  function Current(h: seq<Fetch>, ttl: real, now: real, end: real, outcome: Outcome): (seq<Fetch>, Response) {
    if Fresh(h, ttl, now) then (h, Ready(Held(h)))
    else if BackingOff(h, now) then (h, Unavailable(Last(h).outcome.reason))
    else
      var h' := h + [Fetch(Scheduled, now, end, outcome)];
      (h', Answer(h'))
  }

  /** Fetch for an unknown key only in the generation the caller saw, and only if none was made for it yet. */
  ghost function RefreshUnknown(h: seq<Fetch>, observed: nat, start: real, end: real, outcome: Outcome)
    : (seq<Fetch>, Response)
  {
    if Generation(h) > 0 && (Generation(h) != observed || RefreshSpent(h)) then (h, Ready(Held(h)))
    else
      var h' := h + [Fetch(ForUnknownKey, start, end, outcome)];
      (h', Answer(h'))
  }

  // ----- Lemmas about growing histories -----

  lemma GenerationStep(h: seq<Fetch>, f: Fetch)
    ensures Generation(h + [f]) == Generation(h) + if f.outcome.Installed? then 1 else 0
  {
    assert (h + [f])[..|h|] == h;
  }

  lemma {:induction false} GenerationGrows(h: seq<Fetch>, i: nat)
    requires i <= |h|
    ensures Generation(h[..i]) <= Generation(h)
  {
    if i < |h| {
      GenerationGrows(h[..|h| - 1], i);
      assert h[..|h| - 1][..i] == h[..i];
    } else {
      assert h[..i] == h;
    }
  }

  lemma InstallStays(h: seq<Fetch>, f: Fetch, g: nat)
    requires 1 <= g <= Generation(h)
    ensures g <= Generation(h + [f]) && InstallOf(h + [f], g) == InstallOf(h, g)
  {
    GenerationStep(h, f);
    assert (h + [f])[..|h|] == h;
  }

  /** A successful fetch starts a generation and takes over. */
  lemma InstallTakesOver(h: seq<Fetch>, f: Fetch)
    requires f.outcome.Installed?
    ensures Generation(h + [f]) == Generation(h) + 1 && InstallOf(h + [f], Generation(h) + 1) == f
    ensures Answer(h + [f]) == Ready(Snapshot(f.outcome.verifier, f.outcome.verifier.keys.Keys, Generation(h) + 1))
  {
    GenerationStep(h, f);
    assert Last(h + [f]) == f;
  }

  /** A failed one leaves the generation and its installation as they were. */
  lemma FailureLeavesInstall(h: seq<Fetch>, f: Fetch)
    requires f.outcome.Failed?
    ensures Generation(h + [f]) == Generation(h)
    ensures Generation(h) > 0 ==> InstallOf(h + [f], Generation(h)) == InstallOf(h, Generation(h))
    ensures Answer(h + [f]) == Unavailable(f.outcome.reason)
  {
    GenerationStep(h, f);
    assert Last(h + [f]) == f;
    if Generation(h) > 0 {
      InstallStays(h, f, Generation(h));
    }
  }

  lemma GenerationAt(h: seq<Fetch>, f: Fetch, i: nat)
    requires i < |h|
    ensures Generation((h + [f])[..i + 1]) == Generation(h[..i + 1]) <= Generation(h)
  {
    assert (h + [f])[..i + 1] == h[..i + 1];
    GenerationGrows(h, i + 1);
  }

  /** A fetch for an unknown key spends the refresh; only another successful fetch restores it. */
  lemma SpentStep(h: seq<Fetch>, f: Fetch)
    ensures RefreshSpent(h + [f]) <==> f.trigger == ForUnknownKey || (f.outcome.Failed? && RefreshSpent(h))
  {
    var h' := h + [f];
    GenerationStep(h, f);
    assert h'[..|h| + 1] == h';
    if f.trigger == ForUnknownKey {
      assert h'[|h|].trigger == ForUnknownKey && Generation(h'[..|h| + 1]) == Generation(h');
    } else if RefreshSpent(h) && f.outcome.Failed? {
      RefreshedStays(h, f, Generation(h));
    } else if RefreshSpent(h') {
      var i :| 0 <= i < |h'| && h'[i].trigger == ForUnknownKey && Generation(h'[..i + 1]) == Generation(h');
      GenerationAt(h, f, i);
    }
  }

  lemma RefreshedStays(h: seq<Fetch>, f: Fetch, g: nat)
    requires RefreshedForUnknown(h, g)
    ensures RefreshedForUnknown(h + [f], g)
  {
    var h' := h + [f];
    var i :| 0 <= i < |h| && h[i].trigger == ForUnknownKey && Generation(h[..i + 1]) == g;
    GenerationAt(h, f, i);
    assert h'[i].trigger == ForUnknownKey && Generation(h'[..i + 1]) == g;
  }
}
