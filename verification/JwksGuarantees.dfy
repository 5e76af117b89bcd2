/** What every run of any number of threads guarantees. */
module JwksGuarantees {
  import opened Wrappers
  import opened WorkContexts
  import opened Verifiers
  import opened JwksHistory
  import opened JwksThreads
  import opened JwksArrivals

  // ----- Fetch budget -----

  function Count(h: seq<Fetch>, trigger: Trigger): nat {
    if h == [] then 0 else Count(h[..|h| - 1], trigger) + if Last(h).trigger == trigger then 1 else 0
  }

  /** Successful fetches other than those forced by an unknown key. */
  function Earned(h: seq<Fetch>): nat {
    if h == [] then 0
    else Earned(h[..|h| - 1]) + if Last(h).outcome.Installed? && Last(h).trigger != ForUnknownKey then 1 else 0
  }

  lemma {:induction false} BudgetOfHistory(cfg: Config, t0: real, h: seq<Fetch>)
    requires Lawful(cfg, t0, h)
    ensures Count(h, ForUnknownKey) + (if Generation(h) > 0 && !RefreshSpent(h) then 1 else 0) <= Earned(h)
  {
    if h != [] {
      var before := h[..|h| - 1];
      BudgetOfHistory(cfg, t0, before);
      assert h == before + [Last(h)];
      SpentStep(before, Last(h));
    }
  }

  /** Unknown key ids never force more fetches than there were successful scheduled and explicit ones. */
  lemma {:induction false} UnknownKeyFetchBudget(cfg: Config, t0: real, run: seq<Step>, s: State)
    requires ValidConfig(cfg) && Reaches(cfg, t0, run, s)
    ensures Count(s.history, ForUnknownKey) <= Earned(s.history)
  {
    EveryRunKeepsInv(cfg, t0, run, s);
    BudgetOfHistory(cfg, t0, s.history);
  }

  /** While the refresh is available again, the generation has moved on from where it was last spent. */
  lemma SpentUntilReplaced(h: seq<Fetch>, i: nat)
    requires i < |h| && h[i].trigger == ForUnknownKey && !RefreshSpent(h)
    ensures Generation(h[..i + 1]) < Generation(h)
  {
    GenerationGrows(h, i + 1);
    assert h[i].trigger == ForUnknownKey && Generation(h[..i + 1]) == Generation(h) ==> RefreshSpent(h);
  }

  /** No generation sees two fetches for unknown keys, and one installed by such a fetch sees none. */
  lemma {:induction false} OneUnknownKeyFetchPerGeneration(cfg: Config, t0: real, run: seq<Step>, s: State, i: nat,
                                                           j: nat)
    requires ValidConfig(cfg) && Reaches(cfg, t0, run, s)
    requires i < j < |s.history|
    requires s.history[i].trigger == ForUnknownKey && s.history[j].trigger == ForUnknownKey
    ensures Generation(s.history[..i]) <= Generation(s.history[..i + 1]) < Generation(s.history[..j])
  {
    EveryRunKeepsInv(cfg, t0, run, s);
    var h := s.history;
    PrefixLawful(cfg, t0, h, j);
    PrefixLawful(cfg, t0, h, i);
    assert h[..j][i] == h[i] && h[..j][..i + 1] == h[..i + 1];
    SpentUntilReplaced(h[..j], i);
    assert h[..i + 1][..i] == h[..i];
    GenerationGrows(h[..i + 1], i);
  }

  lemma {:induction false} PrefixLawful(cfg: Config, t0: real, h: seq<Fetch>, n: nat)
    requires Lawful(cfg, t0, h) && n <= |h|
    ensures Lawful(cfg, t0, h[..n])
    ensures n < |h| ==> Permitted(cfg, h[..n], h[n]) && EndOf(t0, h[..n]) <= h[n].start
    ensures EndOf(t0, h[..n]) <= EndOf(t0, h)
  {
    if n == |h| {
      assert h[..n] == h;
    } else if n < |h| - 1 {
      PrefixLawful(cfg, t0, h[..|h| - 1], n);
      assert h[..|h| - 1][..n] == h[..n];
    }
  }

  // ----- Fetch rate -----

  lemma {:induction false} OutcomesAreValid(cfg: Config, t0: real, h: seq<Fetch>)
    requires Lawful(cfg, t0, h)
    ensures forall f | f in h :: ValidOutcome(cfg, f.outcome)
  {
    if h != [] {
      OutcomesAreValid(cfg, t0, h[..|h| - 1]);
      assert h == h[..|h| - 1] + [Last(h)];
    }
  }

  /** The shorter of the two quiet periods. */
  function Quiet(cfg: Config): real {
    if cfg.cacheTtl < FAILED_REFRESH_BACKOFF then cfg.cacheTtl else FAILED_REFRESH_BACKOFF
  }

  /** A scheduled fetch starts at least the quiet period after every earlier fetch of any kind ended. */
  lemma {:induction false} ScheduledFetchesAreSpaced(cfg: Config, t0: real, run: seq<Step>, s: State, i: nat, j: nat)
    requires ValidConfig(cfg) && Reaches(cfg, t0, run, s)
    requires i < j < |s.history| && s.history[j].trigger == Scheduled
    ensures s.history[i].end + Quiet(cfg) <= s.history[j].start
  {
    EveryRunKeepsInv(cfg, t0, run, s);
    PrefixLawful(cfg, t0, s.history, j);
    EndsInOrder(cfg, t0, s.history[..j], i);
    QuietAfterLast(cfg, s.history[..j], s.history[j].start);
  }

  lemma EndsInOrder(cfg: Config, t0: real, h: seq<Fetch>, i: nat)
    requires Lawful(cfg, t0, h) && i < |h|
    ensures h[i].end <= Last(h).end
  {
    PrefixLawful(cfg, t0, h, i + 1);
    assert Last(h[..i + 1]) == h[i];
  }

  lemma QuietAfterLast(cfg: Config, h: seq<Fetch>, now: real)
    requires h != [] && !Fresh(h, cfg.cacheTtl, now) && !BackingOff(h, now)
    ensures Last(h).end + Quiet(cfg) <= now
  {
    if Last(h).outcome.Installed? {
      assert Generation(h) > 0 && InstallOf(h, Generation(h)) == Last(h);
    }
  }

  /** The time the scheduled fetches take up, a quiet period each. */
  function TimeTaken(h: seq<Fetch>, m: real): real {
    if h == [] then 0.0 else TimeTaken(h[..|h| - 1], m) + if Last(h).trigger == Scheduled then m else 0.0
  }

  lemma OneMore(n: nat, m: real)
    ensures (n + 1) as real * m == n as real * m + m
  {
  }

  lemma {:induction false} TimeIsProduct(h: seq<Fetch>, m: real)
    ensures TimeTaken(h, m) == Count(h, Scheduled) as real * m
  {
    if h != [] {
      TimeIsProduct(h[..|h| - 1], m);
      OneMore(Count(h[..|h| - 1], Scheduled), m);
    }
  }

  /** What one more fetch adds to that time. */
  lemma ScheduledFitsAfter(cfg: Config, t0: real, h: seq<Fetch>, f: Fetch, taken: real)
    requires ValidConfig(cfg) && t0 <= EndOf(t0, h) <= f.start <= f.end && Permitted(cfg, h, f)
    requires taken <= EndOf(t0, h) - t0 + Quiet(cfg) && (h == [] ==> taken == 0.0)
    ensures taken + (if f.trigger == Scheduled then Quiet(cfg) else 0.0) <= f.end - t0 + Quiet(cfg)
  {
    if f.trigger == Scheduled && h != [] {
      QuietAfterLast(cfg, h, f.start);
    }
  }

  lemma {:induction false} ScheduledFitInTime(cfg: Config, t0: real, h: seq<Fetch>)
    requires ValidConfig(cfg) && Lawful(cfg, t0, h)
    ensures t0 <= EndOf(t0, h)
    ensures TimeTaken(h, Quiet(cfg)) <= EndOf(t0, h) - t0 + Quiet(cfg)
  {
    if h != [] {
      var before := h[..|h| - 1];
      ScheduledFitInTime(cfg, t0, before);
      ScheduledFitsAfter(cfg, t0, before, Last(h), TimeTaken(before, Quiet(cfg)));
    }
  }

  lemma PositiveFactor(x: real, m: real)
    requires m > 0.0 && x * m > 0.0
    ensures x > 0.0
  {
    assert x == (x * m) / m;
  }

  lemma FewerThan(n: nat, k: nat, m: real, taken: real, room: real)
    requires m > 0.0 && taken == n as real * m && room == k as real * m && taken < room + m
    ensures n <= k
  {
    var slack := k as real + 1.0 - n as real;
    assert slack * m == room + m - taken;
    PositiveFactor(slack, m);
  }

  lemma {:induction false} TriggersPartition(h: seq<Fetch>)
    ensures |h| == Count(h, Scheduled) + Count(h, ForUnknownKey) + Count(h, Explicit)
    ensures Earned(h) <= Count(h, Scheduled) + Count(h, Explicit)
  {
    if h != [] {
      TriggersPartition(h[..|h| - 1]);
    }
  }

  lemma CountInTime(h: seq<Fetch>, m: real, k: nat, room: real)
    requires m > 0.0 && room == k as real * m && TimeTaken(h, m) < room + m
    ensures Count(h, Scheduled) <= k
  {
    TimeIsProduct(h, m);
    FewerThan(Count(h, Scheduled), k, m, TimeTaken(h, m), room);
  }

  lemma ScheduledBound(cfg: Config, t0: real, h: seq<Fetch>, room: real)
    requires ValidConfig(cfg) && Lawful(cfg, t0, h) && EndOf(t0, h) - t0 < room
    ensures Quiet(cfg) > 0.0 && TimeTaken(h, Quiet(cfg)) < room + Quiet(cfg)
  {
    ScheduledFitInTime(cfg, t0, h);
  }

  lemma FetchesByTrigger(cfg: Config, t0: real, h: seq<Fetch>)
    requires Lawful(cfg, t0, h)
    ensures |h| <= 2 * (Count(h, Scheduled) + Count(h, Explicit))
  {
    BudgetOfHistory(cfg, t0, h);
    TriggersPartition(h);
  }

  /**
   * Within k quiet periods of construction there are at most k scheduled fetches, and at most 2 k fetches in
   * all beside two for every explicit refresh.
   */
  lemma {:induction false} FetchRateBound(cfg: Config, t0: real, run: seq<Step>, s: State, m: real, k: nat)
    requires ValidConfig(cfg) && Reaches(cfg, t0, run, s)
    requires m == if cfg.cacheTtl < 5.0 then cfg.cacheTtl else 5.0
    requires s.clock - t0 < k as real * m
    ensures Count(s.history, Scheduled) <= k
    ensures |s.history| <= 2 * (k + Count(s.history, Explicit))
  {
    EveryRunKeepsInv(cfg, t0, run, s);
    var room := k as real * m;
    ScheduledBound(cfg, t0, s.history, room);
    CountInTime(s.history, m, k, room);
    FetchesByTrigger(cfg, t0, s.history);
  }

  // ----- Freshness and revocation -----

  /**
   * Every judged call was judged with the keys of one successful fetch, no older than the TTL at the call's
   * first clock reading, and exactly as the fixed verifier over those keys judges.
   */
  lemma JudgedWithFreshKeys(cfg: Config, t0: real, run: seq<Step>, s: State, v: Verdict)
    requires ValidConfig(cfg) && Reaches(cfg, t0, run, s)
    requires v in s.verdicts && v.Judged?
    ensures 1 <= v.observed <= v.generation <= Generation(s.history)
    ensures var f := InstallOf(s.history, v.generation);
            && f in s.history && v.call.first - f.end < cfg.cacheTtl && f.outcome.verifier.clockSkew == cfg.clockSkew
            && v.result == Verify(cfg.primitives, f.outcome.verifier, v.at, v.call.encoded, v.call.expected)
  {
    EveryRunKeepsInv(cfg, t0, run, s);
    var i :| 0 <= i < |s.verdicts| && s.verdicts[i] == v;
    OutcomesAreValid(cfg, t0, s.history);
    assert VerdictInv(cfg, s.history, s.verdicts[i]);
  }

  /** Once no fetch after time `r` brings key `k`, no call starting a TTL later accepts a token naming it. */
  lemma {:induction false} RevokedKeyDiesWithinTtl(cfg: Config, t0: real, run: seq<Step>, s: State, k: string, r: real,
                                                   v: Verdict)
    requires ValidConfig(cfg) && Reaches(cfg, t0, run, s)
    requires forall f | f in s.history :: f.outcome.Installed? && f.end > r ==> k !in f.outcome.verifier.keys
    requires v in s.verdicts && v.Judged? && v.call.keyId == k && r + cfg.cacheTtl <= v.call.first
    ensures v.result == Failure(Refusal.UnknownKey)
  {
    JudgedWithFreshKeys(cfg, t0, run, s, v);
    EveryRunKeepsInv(cfg, t0, run, s);
    var i :| 0 <= i < |s.verdicts| && s.verdicts[i] == v;
    assert VerdictInv(cfg, s.history, s.verdicts[i]);
  }

  /**
   * While every fetch ending after time `r` brings key `k`, no call starting a TTL later is told that it is
   * unknown.
   */
  lemma {:induction false} KeptKeyStaysKnown(cfg: Config, t0: real, run: seq<Step>, s: State, k: string, r: real,
                                             v: Verdict)
    requires ValidConfig(cfg) && Reaches(cfg, t0, run, s)
    requires forall f | f in s.history :: f.outcome.Installed? && f.end > r ==> k in f.outcome.verifier.keys
    requires v in s.verdicts && v.Judged? && v.call.keyId == k && r + cfg.cacheTtl <= v.call.first
    ensures v.result != Failure(Refusal.UnknownKey)
  {
    JudgedWithFreshKeys(cfg, t0, run, s, v);
    EveryRunKeepsInv(cfg, t0, run, s);
    var i :| 0 <= i < |s.verdicts| && s.verdicts[i] == v;
    assert VerdictInv(cfg, s.history, s.verdicts[i]);
  }

  /** A key is called unknown only by keys newer than those first seen, or after the refresh was spent on them. */
  lemma {:induction false} UnknownOnlyAfterRefresh(cfg: Config, t0: real, run: seq<Step>, s: State, v: Verdict)
    requires ValidConfig(cfg) && Reaches(cfg, t0, run, s)
    requires v in s.verdicts && v.Judged? && v.result == Failure(Refusal.UnknownKey)
    ensures v.observed < v.generation || RefreshedForUnknown(s.history, v.generation)
  {
    EveryRunKeepsInv(cfg, t0, run, s);
    var i :| 0 <= i < |s.verdicts| && s.verdicts[i] == v;
    assert VerdictInv(cfg, s.history, s.verdicts[i]);
  }

  // ----- Agreement with the fixed verifier -----

  /** While the endpoint always serves the same keys, the cache cannot be told from the verifier over them. */
  lemma {:induction false} SteadyKeysRefineVerifier(cfg: Config, t0: real, run: seq<Step>, s: State, fixed: Verifier,
                                                    v: Verdict)
    requires ValidConfig(cfg) && Reaches(cfg, t0, run, s)
    requires forall f | f in s.history :: f.outcome == Installed(fixed)
    requires v in s.verdicts
    ensures match v
            case Rejected(encoded, refusal) =>
              forall now, expected :: Verify(cfg.primitives, fixed, now, encoded, expected) == Failure(refusal)
            case NoKeys(_, _) => false
            case Judged(call, _, _, at, result) =>
              result == Verify(cfg.primitives, fixed, at, call.encoded, call.expected)
  {
    EveryRunKeepsInv(cfg, t0, run, s);
    var i :| 0 <= i < |s.verdicts| && s.verdicts[i] == v;
    assert VerdictInv(cfg, s.history, s.verdicts[i]);
  }

  // ----- Failing closed -----

  ghost predicate OnlyFailuresSince(h: seq<Fetch>, n: nat) {
    n <= |h| && forall i | n <= i < |h| :: h[i].outcome.Failed?
  }

  /** However many fetches fail in a row, generation, keys and freshness stay what they were before them. */
  lemma {:induction false} FailuresReplaceNothing(cfg: Config, h: seq<Fetch>, n: nat, now: real)
    requires OnlyFailuresSince(h, n)
    ensures Generation(h) == Generation(h[..n])
    ensures Generation(h) > 0 ==>
            InstallOf(h, Generation(h)) == InstallOf(h[..n], Generation(h)) && Held(h) == Held(h[..n])
    ensures Fresh(h, cfg.cacheTtl, now) <==> Fresh(h[..n], cfg.cacheTtl, now)
    decreases |h|
  {
    if n == |h| {
      assert h[..n] == h;
    } else {
      var shorter := h[..|h| - 1];
      assert h == shorter + [Last(h)] && shorter[..n] == h[..n];
      FailuresReplaceNothing(cfg, shorter, n, now);
      FailureLeavesInstall(shorter, Last(h));
    }
  }

  lemma {:induction false} InstallOfPrefix(h: seq<Fetch>, n: nat, g: nat)
    requires n <= |h| && 1 <= g <= Generation(h[..n])
    ensures g <= Generation(h) && InstallOf(h, g) == InstallOf(h[..n], g)
    decreases |h|
  {
    if n == |h| {
      assert h[..n] == h;
    } else {
      var shorter := h[..|h| - 1];
      assert h == shorter + [Last(h)] && shorter[..n] == h[..n];
      InstallOfPrefix(shorter, n, g);
      InstallStays(shorter, Last(h), g);
    }
  }

  /**
   * Fetch `j` brought the call's key, has not expired at its first reading, and only failures followed before it
   * arrived.
   */
  ghost predicate StillServes(cfg: Config, h: seq<Fetch>, j: nat, n: nat, call: Call) {
    && j < n <= |h| && h[j].outcome.Installed? && OnlyFailuresSince(h[..n], j + 1)
    && call.first < h[j].end + cfg.cacheTtl && call.keyId in h[j].outcome.verifier.keys
  }

  ghost predicate JudgedBy(cfg: Config, f: Fetch, v: Verdict) {
    && f.outcome.Installed? && v.Judged?
    && v.result == Verify(cfg.primitives, f.outcome.verifier, v.at, v.call.encoded, v.call.expected)
  }

  lemma ServingFetchIsInForce(cfg: Config, h: seq<Fetch>, j: nat, n: nat, call: Call)
    requires StillServes(cfg, h, j, n, call)
    ensures HasKey(cfg, h[..n], call) && Generation(h[..n]) <= Generation(h) && InstallOf(h, Generation(h[..n])) == h[j]
  {
    var upTo := h[..j + 1];
    assert h[..n][..j + 1] == upTo && Last(upTo) == h[j];
    FailuresReplaceNothing(cfg, h[..n], j + 1, call.first);
    assert InstallOf(upTo, Generation(upTo)) == h[j];
    InstallOfPrefix(h, n, Generation(h[..n]));
  }

  /** The moment a call arrived, and what the history made of it. */
  lemma {:induction false} ArrivalOf(cfg: Config, t0: real, run: seq<Step>, s: State, v: Verdict) returns (n: nat)
    requires ValidConfig(cfg) && Reaches(cfg, t0, run, s)
    requires v in s.verdicts && !v.Rejected?
    ensures Explains(cfg, t0, s.history, n, v.call, Ended(v))
  {
    EveryCallIsExplained(cfg, t0, run, s);
    var i :| 0 <= i < |s.verdicts| && s.verdicts[i] == v;
    assert MoveExplained(cfg, t0, s.history, s.clock, Ends(s.verdicts[i]));
    n :| Explains(cfg, t0, s.history, n, v.call, Ended(v));
  }

  /**
   * Through any number of failed fetches of any kind, a call that arrives before the keys expire and names one
   * of them is judged by exactly those keys.
   */
  lemma {:induction false} HeldKeysServeUntilExpiry(cfg: Config, t0: real, run: seq<Step>, s: State, v: Verdict)
    requires ValidConfig(cfg) && Reaches(cfg, t0, run, s)
    requires v in s.verdicts && !v.Rejected?
    ensures exists n: nat ::
              && ArrivesAt(t0, s.history, n, v.call)
              && forall j: nat | StillServes(cfg, s.history, j, n, v.call) :: JudgedBy(cfg, s.history[j], v)
  {
    var n := ArrivalOf(cfg, t0, run, s, v);
    forall j: nat | StillServes(cfg, s.history, j, n, v.call) ensures JudgedBy(cfg, s.history[j], v) {
      ServingFetchIsInForce(cfg, s.history, j, n, v.call);
      JudgedWithFreshKeys(cfg, t0, run, s, v);
    }
  }

  /** A call that finds the keys expired within the backoff of the last fetch is refused with that fetch's error. */
  lemma {:induction false} BackoffServesTheFailure(cfg: Config, t0: real, run: seq<Step>, s: State, v: Verdict)
    requires ValidConfig(cfg) && Reaches(cfg, t0, run, s)
    requires v in s.verdicts && !v.Rejected?
    ensures exists n: nat ::
              && ArrivesAt(t0, s.history, n, v.call)
              && (ServesFailure(cfg, s.history[..n], v.call) ==>
                    v == NoKeys(v.call, Last(s.history[..n]).outcome.reason))
  {
    var n := ArrivalOf(cfg, t0, run, s, v);
  }

  lemma DueExactly(cfg: Config, h: seq<Fetch>, f: Fetch)
    requires Permitted(cfg, h, f) && f.trigger == Scheduled
    ensures !Fresh(h, cfg.cacheTtl, f.start) && (h != [] && Last(h).outcome.Failed? ==> Last(h).end + 5.0 <= f.start)
  {
  }

  /** Nobody fetches while keys are fresh or a failure is served, nor for an unknown key whose refresh is spent. */
  lemma {:induction false} FetchesAreDue(cfg: Config, t0: real, run: seq<Step>, s: State, i: nat)
    requires ValidConfig(cfg) && Reaches(cfg, t0, run, s) && i < |s.history|
    ensures match s.history[i].trigger
            case Scheduled =>
              && !Fresh(s.history[..i], cfg.cacheTtl, s.history[i].start)
              && (i > 0 && s.history[i - 1].outcome.Failed? ==> s.history[i - 1].end + 5.0 <= s.history[i].start)
            case ForUnknownKey => Generation(s.history[..i]) > 0 && !RefreshSpent(s.history[..i])
            case Explicit => true
  {
    EveryRunKeepsInv(cfg, t0, run, s);
    PrefixLawful(cfg, t0, s.history, i);
    if s.history[i].trigger == Scheduled {
      DueExactly(cfg, s.history[..i], s.history[i]);
    }
    assert i > 0 ==> Last(s.history[..i]) == s.history[i - 1];
  }

  /**
   * A call is refused for want of keys only if it found no fresh keys with its own, and then with the error of
   * the failure being served or of a scheduled or unknown-key fetch that failed after it arrived.
   */
  lemma {:induction false} UnavailableOnlyAfterFailure(cfg: Config, t0: real, run: seq<Step>, s: State, v: Verdict)
    requires ValidConfig(cfg) && Reaches(cfg, t0, run, s)
    requires v in s.verdicts && v.NoKeys?
    ensures exists n: nat ::
              && ArrivesAt(t0, s.history, n, v.call) && !HasKey(cfg, s.history[..n], v.call)
              && (|| (ServesFailure(cfg, s.history[..n], v.call) && v.reason == Last(s.history[..n]).outcome.reason)
                  || FailedSince(s.history, n, v.reason))
    ensures exists f | f in s.history :: f.outcome == Failed(v.reason) && v.call.first < f.end + 5.0
  {
    var n := ArrivalOf(cfg, t0, run, s, v);
    EveryRunKeepsInv(cfg, t0, run, s);
    var i :| 0 <= i < |s.verdicts| && s.verdicts[i] == v;
    assert VerdictInv(cfg, s.history, s.verdicts[i]);
  }

  /**
   * Only a fetch that took no time, at the very first reading, leaves open whether a call arrived before or after
   * it.
   */
  lemma {:induction false} ArrivalIsUnique(cfg: Config, t0: real, run: seq<Step>, s: State, call: Call, n: nat, m: nat)
    requires ValidConfig(cfg) && Reaches(cfg, t0, run, s)
    requires n < m && ArrivesAt(t0, s.history, n, call) && ArrivesAt(t0, s.history, m, call)
    ensures s.history[n].start == s.history[n].end == call.first
  {
    EveryRunKeepsInv(cfg, t0, run, s);
    PrefixLawful(cfg, t0, s.history, m);
    PrefixLawful(cfg, t0, s.history, n + 1);
    EndsInOrder(cfg, t0, s.history[..m], n);
    assert Last(s.history[..n + 1]) == s.history[n];
  }

  // ----- When an unknown key forces a fetch -----

  /**
   * A renewing call fetches exactly in the generation it observed, and only if no unknown-key fetch left the cache
   * there.
   */
  lemma {:induction false} RenewFetchesExactly(cfg: Config, t0: real, run: seq<Step>, s: State, step: Step)
    requires ValidConfig(cfg) && Reaches(cfg, t0, run, s) && step.Renew? && Enabled(cfg, s, step)
    ensures Apply(cfg, s, step).history != s.history <==>
            && s.threads[step.thread].generation == Generation(s.history)
            && !RefreshedForUnknown(s.history, Generation(s.history))
  {
    EveryRunKeepsInv(cfg, t0, run, s);
    assert PcInv(cfg, s.history, s.clock, s.threads[step.thread]);
  }

  lemma ReachesNext(cfg: Config, t0: real, run: seq<Step>, s: State, step: Step)
    requires Reaches(cfg, t0, run, s) && Enabled(cfg, s, step)
    ensures Reaches(cfg, t0, run + [step], Apply(cfg, s, step))
  {
    var longer := run + [step];
    assert longer[..|longer| - 1] == run && StepsTo(cfg, s, step, Apply(cfg, s, step));
  }

  lemma OneGeneration(f: Fetch)
    requires f.outcome.Installed? && f.trigger != ForUnknownKey
    ensures Generation([f]) == 1 && InstallOf([f], 1) == f && !RefreshSpent([f])
  {
    assert [] + [f] == [f];
    InstallTakesOver([], f);
    SpentStep([], f);
  }

  lemma TwoGenerations(f: Fetch, g: Fetch)
    requires g.outcome.Installed? && g.trigger == ForUnknownKey && Generation([f]) == 1
    ensures Generation([f, g]) == 2 && InstallOf([f, g], 2) == g && RefreshSpent([f, g])
  {
    assert [f] + [g] == [f, g];
    InstallTakesOver([f], g);
    SpentStep([f], g);
  }

  /** The first call installs generation 1 and finds its key unknown. */
  lemma FirstCallObserves(cfg: Config, t0: real, call: Call, before: Verifier) returns (run: seq<Step>, s: State)
    requires TokenKeyId(cfg.primitives, call.encoded) == Success(call.keyId) && call.first == t0
    requires ValidOutcome(cfg, Installed(before)) && call.keyId !in before.keys
    ensures Reaches(cfg, t0, run, s) && |run| == 1
    ensures s == State([Fetch(Scheduled, t0, t0, Installed(before))], t0, map[0 := Observed(call, 1)], [])
  {
    var f := Fetch(Scheduled, t0, t0, Installed(before));
    OneGeneration(f);
    assert [] + [f] == [f];
    var s0, begin := State([], t0, map[], []), Begin(0, call.encoded, call.expected, t0, t0, f.outcome);
    ReachesNext(cfg, t0, [], s0, begin);
    run, s := [] + [begin], Apply(cfg, s0, begin);
  }

  /** It then rotates the keys, still without its own. */
  lemma FirstCallRotates(cfg: Config, t0: real, call: Call, before: Verifier, rotated: Verifier)
    returns (run: seq<Step>, s: State)
    requires TokenKeyId(cfg.primitives, call.encoded) == Success(call.keyId) && call.first == t0
    requires ValidOutcome(cfg, Installed(before)) && ValidOutcome(cfg, Installed(rotated))
    requires call.keyId !in before.keys
    ensures Reaches(cfg, t0, run, s) && |run| == 2 && s.clock == t0 && 1 !in s.threads
    ensures s.history == [Fetch(Scheduled, t0, t0, Installed(before)), Fetch(ForUnknownKey, t0, t0, Installed(rotated))]
  {
    var run1, s1 := FirstCallObserves(cfg, t0, call, before);
    var f, g := s1.history[0], Fetch(ForUnknownKey, t0, t0, Installed(rotated));
    OneGeneration(f);
    assert [f] + [g] == [f, g];
    var renew := Renew(0, t0, t0, g.outcome);
    ReachesNext(cfg, t0, run1, s1, renew);
    run, s := run1 + [renew], Apply(cfg, s1, renew);
  }

  /**
   * A run in which a call observes a generation, finds its key unknown and makes no fetch: the generation was
   * itself installed by an unknown-key fetch.
   */
  lemma UnrefreshedGeneration(cfg: Config, t0: real, encoded: string, expected: Expectations, keyId: string,
                              before: Verifier, rotated: Verifier)
    returns (run: seq<Step>, s: State)
    requires ValidConfig(cfg) && TokenKeyId(cfg.primitives, encoded) == Success(keyId)
    requires ValidOutcome(cfg, Installed(before)) && ValidOutcome(cfg, Installed(rotated))
    requires keyId !in before.keys && keyId !in rotated.keys
    ensures Reaches(cfg, t0, run, s)
    ensures |s.history| == Generation(s.history) == 2 && s.history[1].trigger == ForUnknownKey
    ensures |run| == 4 && run[2].Begin? && run[3].Renew? && run[2].thread == run[3].thread == 1
    ensures 1 in s.threads && s.threads[1].Judging? && s.threads[1].observed == s.threads[1].snapshot.generation == 2
    ensures s.threads[1].call.keyId == keyId && keyId !in s.threads[1].snapshot.keyIds
  {
    var call := Call(encoded, expected, keyId, t0);
    var run2, s2 := FirstCallRotates(cfg, t0, call, before, rotated);
    OneGeneration(s2.history[0]);
    TwoGenerations(s2.history[0], s2.history[1]);
    var begin, renew := Begin(1, encoded, expected, t0, t0, Installed(rotated)), Renew(1, t0, t0, Installed(rotated));
    var s3 := Apply(cfg, s2, begin);
    assert s3 == s2.(threads := s2.threads[1 := Observed(call, 2)]);
    ReachesNext(cfg, t0, run2, s2, begin);
    ReachesNext(cfg, t0, run2 + [begin], s3, renew);
    run, s := run2 + [begin] + [renew], Apply(cfg, s3, renew);
  }

  // ----- What each section does to its call -----

  /** The call is left with the keys of generation `g` to be judged with; nothing else changed. */
  ghost predicate NowJudging(s: State, after: State, t: nat, call: Call, observed: nat, v: Verifier, g: nat) {
    && after.threads == s.threads[t := Judging(call, observed, Snapshot(v, v.keys.Keys, g))]
    && after.verdicts == s.verdicts
  }

  /** The call is over for want of keys; nothing else changed. */
  ghost predicate NowRefused(s: State, after: State, t: nat, call: Call, reason: string) {
    after.threads == s.threads - {t} && after.verdicts == s.verdicts + [NoKeys(call, reason)]
  }

  /** A renewing call whose generation was replaced, or whose refresh is spent, is judged with the keys held. */
  lemma {:induction false} RenewServes(cfg: Config, t0: real, run: seq<Step>, s: State, step: Step)
    requires ValidConfig(cfg) && Reaches(cfg, t0, run, s) && step.Renew? && Enabled(cfg, s, step)
    requires var g := Generation(s.history); s.threads[step.thread].generation != g || RefreshedForUnknown(s.history, g)
    ensures var pc, after, g := s.threads[step.thread], Apply(cfg, s, step), Generation(s.history);
            && after.history == s.history && g > 0
            && NowJudging(s, after, step.thread, pc.call, pc.generation, VerifierOf(s.history, g), g)
  {
    EveryRunKeepsInv(cfg, t0, run, s);
    assert PcInv(cfg, s.history, s.clock, s.threads[step.thread]);
    RefreshUnknownExactly(s.history, s.threads[step.thread].generation, step.start, step.end, step.outcome);
  }

  /** Any other fetches: a failure ends it, even while keys are held; otherwise it is judged with what it fetched. */
  lemma {:induction false} RenewFetches(cfg: Config, t0: real, run: seq<Step>, s: State, step: Step)
    requires ValidConfig(cfg) && Reaches(cfg, t0, run, s) && step.Renew? && Enabled(cfg, s, step)
    requires s.threads[step.thread].generation == Generation(s.history)
    requires !RefreshedForUnknown(s.history, Generation(s.history))
    ensures var pc, after := s.threads[step.thread], Apply(cfg, s, step);
            && after.history == s.history + [Fetch(ForUnknownKey, step.start, step.end, step.outcome)]
            && match step.outcome
               case Failed(reason) => NowRefused(s, after, step.thread, pc.call, reason)
               case Installed(v) =>
                 NowJudging(s, after, step.thread, pc.call, pc.generation, v, Generation(s.history) + 1)
  {
    HasGeneration(cfg, t0, run, s, step.thread);
    RenewFetchStep(cfg, s, step);
  }

  lemma {:induction false} HasGeneration(cfg: Config, t0: real, run: seq<Step>, s: State, t: nat)
    requires ValidConfig(cfg) && Reaches(cfg, t0, run, s) && t in s.threads
    ensures Generation(s.history) > 0
  {
    EveryRunKeepsInv(cfg, t0, run, s);
    assert PcInv(cfg, s.history, s.clock, s.threads[t]);
  }

  lemma RenewFetchStep(cfg: Config, s: State, step: Step)
    requires step.Renew? && Enabled(cfg, s, step) && Generation(s.history) > 0
    requires s.threads[step.thread].generation == Generation(s.history)
    requires !RefreshedForUnknown(s.history, Generation(s.history))
    ensures var pc, after := s.threads[step.thread], Apply(cfg, s, step);
            && after.history == s.history + [Fetch(ForUnknownKey, step.start, step.end, step.outcome)]
            && match step.outcome
               case Failed(reason) => NowRefused(s, after, step.thread, pc.call, reason)
               case Installed(v) =>
                 NowJudging(s, after, step.thread, pc.call, pc.generation, v, Generation(s.history) + 1)
  {
    RefreshUnknownExactly(s.history, s.threads[step.thread].generation, step.start, step.end, step.outcome);
    match step.outcome
    case Failed(_) =>
    case Installed(_) =>
  }


  lemma RefreshUnknownExactly(h: seq<Fetch>, observed: nat, start: real, end: real, outcome: Outcome)
    requires Generation(h) > 0
    ensures var g, f := Generation(h), Fetch(ForUnknownKey, start, end, outcome);
            RefreshUnknown(h, observed, start, end, outcome) ==
            if observed != g || RefreshedForUnknown(h, g) then
              (h, Ready(Snapshot(VerifierOf(h, g), VerifierOf(h, g).keys.Keys, g)))
            else
              (h + [f], match outcome
                        case Failed(reason) => Unavailable(reason)
                        case Installed(v) => Ready(Snapshot(v, v.keys.Keys, g + 1)))
    ensures h + [Fetch(ForUnknownKey, start, end, outcome)] != h
  {
    SectionExactly(h, Fetch(ForUnknownKey, start, end, outcome));
  }

  lemma SectionExactly(h: seq<Fetch>, f: Fetch)
    ensures h + [f] != h
    ensures Answer(h + [f]) == match f.outcome
                               case Failed(reason) => Unavailable(reason)
                               case Installed(v) => Ready(Snapshot(v, v.keys.Keys, Generation(h) + 1))
  {
    assert |h + [f]| == |h| + 1;
    match f.outcome
    case Installed(_) => InstallTakesOver(h, f);
    case Failed(_) => FailureLeavesInstall(h, f);
  }

  /** What a call goes on with when it gets these keys: judgement if they name its key, else a renewal. */
  ghost predicate GoesOn(s: State, after: State, t: nat, call: Call, v: Verifier, g: nat) {
    && after.threads == s.threads[t := if call.keyId in v.keys then Judging(call, g, Snapshot(v, v.keys.Keys, g))
                                       else Observed(call, g)]
    && after.verdicts == s.verdicts
  }

  /** A beginning call whose token names no key ends at once and touches nothing. */
  lemma BeginRejects(cfg: Config, s: State, step: Step)
    requires step.Begin? && Enabled(cfg, s, step) && TokenKeyId(cfg.primitives, step.encoded).Failure?
    ensures Apply(cfg, s, step) ==
            s.(verdicts := s.verdicts + [Rejected(step.encoded, TokenKeyId(cfg.primitives, step.encoded).error)])
  {
  }

  /** Any other is served without a fetch while keys are fresh, or within five seconds of a failed last fetch. */
  lemma BeginServes(cfg: Config, s: State, step: Step, call: Call)
    requires step.Begin? && Enabled(cfg, s, step) && TokenKeyId(cfg.primitives, step.encoded) == Success(call.keyId)
    requires call == Call(step.encoded, step.expected, call.keyId, step.start)
    ensures var h, after := s.history, Apply(cfg, s, step);
            if Fresh(h, cfg.cacheTtl, step.start) then
              && after.history == h
              && GoesOn(s, after, step.thread, call, VerifierOf(h, Generation(h)), Generation(h))
            else
              h != [] && Last(h).outcome.Failed? && step.start < Last(h).end + 5.0 ==>
                after.history == h && NowRefused(s, after, step.thread, call, Last(h).outcome.reason)
  {
  }

  /** And otherwise fetches, and goes on or ends with what that brings. */
  lemma BeginFetches(cfg: Config, s: State, step: Step, call: Call)
    requires step.Begin? && Enabled(cfg, s, step) && TokenKeyId(cfg.primitives, step.encoded) == Success(call.keyId)
    requires call == Call(step.encoded, step.expected, call.keyId, step.start)
    requires !Fresh(s.history, cfg.cacheTtl, step.start)
    requires s.history != [] && Last(s.history).outcome.Failed? ==> Last(s.history).end + 5.0 <= step.start
    ensures var after := Apply(cfg, s, step);
            && after.history == s.history + [Fetch(Scheduled, step.start, step.end, step.outcome)]
            && match step.outcome
               case Failed(reason) => NowRefused(s, after, step.thread, call, reason)
               case Installed(v) => GoesOn(s, after, step.thread, call, v, Generation(s.history) + 1)
  {
    SectionExactly(s.history, Fetch(Scheduled, step.start, step.end, step.outcome));
  }

  /** Fetch `i` installed keys, nothing replaced them since, and the TTL after its last reading is not over. */
  ghost predicate FreshFrom(h: seq<Fetch>, i: nat, ttl: real, now: real) {
    i < |h| && h[i].outcome.Installed? && OnlyFailuresSince(h, i + 1) && now < h[i].end + ttl
  }

  lemma {:induction false} FreshExactly(h: seq<Fetch>, ttl: real, now: real)
    ensures Fresh(h, ttl, now) <==> exists i: nat :: FreshFrom(h, i, ttl, now)
    decreases |h|
  {
    if h != [] {
      var shorter := h[..|h| - 1];
      assert h == shorter + [Last(h)];
      if Last(h).outcome.Failed? {
        FreshExactly(shorter, ttl, now);
        FailureLeavesInstall(shorter, Last(h));
        forall i: nat ensures FreshFrom(h, i, ttl, now) <==> FreshFrom(shorter, i, ttl, now) {
          assert forall k | 0 <= k < |shorter| :: h[k] == shorter[k];
        }
      } else {
        assert FreshFrom(h, |h| - 1, ttl, now) <==> now < Last(h).end + ttl;
        forall i: nat | FreshFrom(h, i, ttl, now) ensures i == |h| - 1 {
        }
      }
    }
  }

  // ----- The sequential call is a run of the machine -----

  /** The state after the two critical sections of one call, taken back to back. */
  lemma SectionsAreARun(cfg: Config, s: State, t: nat, call: Call, end: real, outcome: Outcome,
                        start2: real, end2: real, outcome2: Outcome, s1: State, s2: State)
    requires t !in s.threads && s.clock <= call.first <= end <= start2 <= end2
    requires ValidOutcome(cfg, outcome) && ValidOutcome(cfg, outcome2)
    requires TokenKeyId(cfg.primitives, call.encoded) == Success(call.keyId)
    requires StepsTo(cfg, s, Begin(t, call.encoded, call.expected, call.first, end, outcome), s1)
    requires if t in s1.threads && s1.threads[t].Observed? then
               StepsTo(cfg, s1, Renew(t, start2, end2, outcome2), s2)
             else s2 == s1
    ensures var (h, move) := Gather(cfg.cacheTtl, s.history, call, end, outcome, start2, end2, outcome2);
            && s2.history == h
            && match move
               case Goes(pc) => t in s2.threads && s2.threads[t] == pc && s2.verdicts == s.verdicts
               case Ends(v) => t !in s2.threads && s2.verdicts == s.verdicts + [v]
  {
    var (h1, response) := Current(s.history, cfg.cacheTtl, call.first, end, outcome);
    assert s1 == Advance(Section(s, h1, call.first, end), t, AfterCurrent(call, response));
  }

  /** A call nobody interferes with ends as the machine ends it. */
  lemma AloneIsARun(cfg: Config, s: State, t: nat, call: Call, end: real, outcome: Outcome,
                    start2: real, end2: real, outcome2: Outcome, at: real, s1: State, s2: State, s3: State)
    requires t !in s.threads && s.clock <= call.first <= end <= start2 <= end2
    requires ValidOutcome(cfg, outcome) && ValidOutcome(cfg, outcome2)
    requires TokenKeyId(cfg.primitives, call.encoded) == Success(call.keyId)
    requires StepsTo(cfg, s, Begin(t, call.encoded, call.expected, call.first, end, outcome), s1)
    requires if t in s1.threads && s1.threads[t].Observed? then
               StepsTo(cfg, s1, Renew(t, start2, end2, outcome2), s2)
             else s2 == s1
    requires if t in s2.threads then StepsTo(cfg, s2, Judge(t, at), s3) else s3 == s2
    ensures var (h, move) := Gather(cfg.cacheTtl, s.history, call, end, outcome, start2, end2, outcome2);
            var verdict := match move case Ends(v) => v case Goes(pc) => Judgement(cfg, pc, at);
            s3.history == h && s3.verdicts == s.verdicts + [verdict] && t !in s3.threads
  {
    SectionsAreARun(cfg, s, t, call, end, outcome, start2, end2, outcome2, s1, s2);
  }
}
