/**
 * Any number of threads verifying through one shared cache. A critical section is one step; between
 * its two critical sections, and while it judges, a verify call holds no lock.
 */
module JwksThreads {
  import opened Wrappers
  import opened WorkContexts
  import opened Verifiers
  import opened JwksHistory

  datatype Config = Config(cacheTtl: real, clockSkew: real, primitives: Primitives)

  predicate ValidConfig(cfg: Config) {
    MIN_CACHE_TTL <= cfg.cacheTtl <= MAX_CACHE_TTL && ValidSkew(cfg.clockSkew)
  }

  /** A verify call whose token names `keyId`; `first` is its first clock reading. */
  datatype Call = Call(encoded: string, expected: Expectations, keyId: string, first: real)

  /** Where a thread stands between steps; an idle thread has no entry. */
  datatype Pc =
    | Observed(call: Call, generation: nat)
    | Judging(call: Call, observed: nat, snapshot: Snapshot)

  datatype Verdict =
    | Rejected(encoded: string, refusal: Refusal)
    | NoKeys(call: Call, reason: string)
    | Judged(call: Call, observed: nat, generation: nat, at: real, result: Result<WorkContext, Refusal>)

  datatype Move = Goes(pc: Pc) | Ends(verdict: Verdict)

  // ----- One verify call -----

  function AfterCurrent(call: Call, response: Response): Move {
    match response
    case Unavailable(reason) => Ends(NoKeys(call, reason))
    case Ready(s) =>
      if call.keyId in s.keyIds then Goes(Judging(call, s.generation, s)) else Goes(Observed(call, s.generation))
  }

  function AfterRefresh(call: Call, observed: nat, response: Response): Move {
    match response
    case Unavailable(reason) => Ends(NoKeys(call, reason))
    case Ready(s) => Goes(Judging(call, observed, s))
  }

  ghost function Judgement(cfg: Config, pc: Pc, at: real): Verdict
    requires pc.Judging?
  {
    Judged(pc.call, pc.observed, pc.snapshot.generation, at,
           Verify(cfg.primitives, pc.snapshot.verifier, at, pc.call.encoded, pc.call.expected))
  }

  /** The two critical sections of a call nobody interferes with: it has keys to judge with, or ends. */
  ghost function Gather(ttl: real, h: seq<Fetch>, call: Call, end: real, outcome: Outcome,
                        start2: real, end2: real, outcome2: Outcome): (gathered: (seq<Fetch>, Move))
    ensures match gathered.1
            case Goes(pc) => pc.Judging? && pc.call == call
            case Ends(verdict) => verdict.NoKeys? && verdict.call == call
  {
    var (h1, response) := Current(h, ttl, call.first, end, outcome);
    match AfterCurrent(call, response)
    case Ends(verdict) => (h1, Ends(verdict))
    case Goes(Judging(c, o, s)) => (h1, Goes(Judging(c, o, s)))
    case Goes(Observed(_, g)) =>
      var (h2, response2) := RefreshUnknown(h1, g, start2, end2, outcome2);
      (h2, AfterRefresh(call, g, response2))
  }

  // ----- The machine -----

  datatype State = State(history: seq<Fetch>, clock: real, threads: map<nat, Pc>, verdicts: seq<Verdict>)

  datatype Step =
    | Begin(thread: nat, encoded: string, expected: Expectations, start: real, end: real, outcome: Outcome)
    | Renew(thread: nat, start: real, end: real, outcome: Outcome)
    | Judge(thread: nat, at: real)
    | Refresh(start: real, end: real, outcome: Outcome)

  predicate ValidOutcome(cfg: Config, outcome: Outcome) {
    outcome.Installed? ==>
      Buildable(outcome.verifier.keys, cfg.clockSkew) && outcome.verifier.clockSkew == cfg.clockSkew
  }

  /** Whatever the endpoint replies, what comes of it is an outcome of the machine. */
  lemma RepliesAreValid(cfg: Config, reply: Reply)
    ensures ValidOutcome(cfg, OutcomeOf(reply, cfg.clockSkew))
  {
  }

  /** An outcome of the machine installs a fit key set under the configured skew. */
  lemma ValidOutcomeExactly(cfg: Config, outcome: Outcome)
    ensures ValidOutcome(cfg, outcome) <==>
            (outcome.Installed? ==> exists reply :: OutcomeOf(reply, cfg.clockSkew) == outcome)
  {
    if outcome.Installed? && ValidOutcome(cfg, outcome) {
      assert OutcomeOf(Fetched(outcome.verifier.keys), cfg.clockSkew) == outcome;
    }
  }

  /** The lock serializes the sections, so their clock readings never decrease; a judging thread reads freely. */
  predicate Enabled(cfg: Config, s: State, step: Step) {
    match step
    case Begin(t, _, _, start, end, outcome) => t !in s.threads && s.clock <= start <= end && ValidOutcome(cfg, outcome)
    case Renew(t, start, end, outcome) =>
      t in s.threads && s.threads[t].Observed? && s.clock <= start <= end && ValidOutcome(cfg, outcome)
    case Judge(t, _) => t in s.threads && s.threads[t].Judging?
    case Refresh(start, end, outcome) => s.clock <= start <= end && ValidOutcome(cfg, outcome)
  }

  function Advance(s: State, thread: nat, move: Move): State {
    match move
    case Goes(pc) => s.(threads := s.threads[thread := pc])
    case Ends(verdict) => s.(threads := s.threads - {thread}, verdicts := s.verdicts + [verdict])
  }

  function Section(s: State, history: seq<Fetch>, start: real, end: real): State {
    s.(history := history, clock := if history == s.history then start else end)
  }

  ghost function Apply(cfg: Config, s: State, step: Step): State
    requires Enabled(cfg, s, step)
  {
    match step
    case Begin(t, encoded, expected, start, end, outcome) =>
      (match TokenKeyId(cfg.primitives, encoded)
       case Failure(refusal) => Advance(s, t, Ends(Rejected(encoded, refusal)))
       case Success(keyId) =>
         var (h, response) := Current(s.history, cfg.cacheTtl, start, end, outcome);
         Advance(Section(s, h, start, end), t, AfterCurrent(Call(encoded, expected, keyId, start), response)))
    case Renew(t, start, end, outcome) =>
      var pc := s.threads[t];
      var (h, response) := RefreshUnknown(s.history, pc.generation, start, end, outcome);
      Advance(Section(s, h, start, end), t, AfterRefresh(pc.call, pc.generation, response))
    case Judge(t, at) => Advance(s, t, Ends(Judgement(cfg, s.threads[t], at)))
    case Refresh(start, end, outcome) =>
      Section(s, s.history + [Fetch(Explicit, start, end, outcome)], start, end)
  }

  ghost predicate StepsTo(cfg: Config, before: State, step: Step, after: State) {
    Enabled(cfg, before, step) && after == Apply(cfg, before, step)
  }

  /** `s` is reached from construction at time `t0` by the steps of `run`. */
  ghost predicate Reaches(cfg: Config, t0: real, run: seq<Step>, s: State)
    decreases |run|
  {
    if run == [] then
      s == State([], t0, map[], [])
    else
      var earlier, last := run[..|run| - 1], run[|run| - 1];
      exists before :: Reaches(cfg, t0, earlier, before) && StepsTo(cfg, before, last, s)
  }

  // ----- What every run keeps -----

  function EndOf(t0: real, h: seq<Fetch>): real {
    if h == [] then t0 else Last(h).end
  }

  ghost predicate Permitted(cfg: Config, h: seq<Fetch>, f: Fetch) {
    match f.trigger
    case Scheduled => !Fresh(h, cfg.cacheTtl, f.start) && !BackingOff(h, f.start)
    case ForUnknownKey => Generation(h) > 0 && !RefreshSpent(h)
    case Explicit => true
  }

  /** Fetches follow one another in time, and each was permitted by those before it. */
  ghost predicate Lawful(cfg: Config, t0: real, h: seq<Fetch>) {
    h == [] ||
    var before := h[..|h| - 1];
    && Lawful(cfg, t0, before)
    && EndOf(t0, before) <= Last(h).start <= Last(h).end
    && ValidOutcome(cfg, Last(h).outcome)
    && Permitted(cfg, before, Last(h))
  }

  /** Generation `g` was installed less than the TTL before the call's first clock reading, or after it. */
  predicate FreshFor(cfg: Config, h: seq<Fetch>, g: nat, call: Call) {
    1 <= g <= Generation(h) && call.first < InstallOf(h, g).end + cfg.cacheTtl
  }

  /**
   * A call may be judged with generation `g` although its key is not in it only when `g` replaced the
   * generation it had observed, or when an unknown-key fetch was already spent on `g`.
   */
  ghost predicate Judgeable(cfg: Config, h: seq<Fetch>, call: Call, observed: nat, g: nat) {
    && 1 <= observed <= g
    && FreshFor(cfg, h, g, call)
    && TokenKeyId(cfg.primitives, call.encoded) == Success(call.keyId)
    && (call.keyId in VerifierOf(h, g).keys || observed < g || RefreshedForUnknown(h, g))
  }

  ghost predicate PcInv(cfg: Config, h: seq<Fetch>, clock: real, pc: Pc) {
    match pc
    case Observed(call, g) =>
      && call.first <= clock && FreshFor(cfg, h, g, call)
      && TokenKeyId(cfg.primitives, call.encoded) == Success(call.keyId)
      && call.keyId !in VerifierOf(h, g).keys
    case Judging(call, observed, s) =>
      Judgeable(cfg, h, call, observed, s.generation) && s.verifier == VerifierOf(h, s.generation)
  }

  /** Some fetch really failed this way, less than the backoff before the call's first reading or after it. */
  ghost predicate FailedLately(h: seq<Fetch>, call: Call, reason: string) {
    exists f | f in h :: f.outcome == Failed(reason) && call.first < f.end + FAILED_REFRESH_BACKOFF
  }

  ghost predicate VerdictInv(cfg: Config, h: seq<Fetch>, v: Verdict) {
    match v
    case Rejected(encoded, refusal) => TokenKeyId(cfg.primitives, encoded) == Failure(refusal)
    case NoKeys(call, reason) =>
      TokenKeyId(cfg.primitives, call.encoded) == Success(call.keyId) && FailedLately(h, call, reason)
    case Judged(call, observed, g, at, result) =>
      && Judgeable(cfg, h, call, observed, g)
      && result == Verify(cfg.primitives, VerifierOf(h, g), at, call.encoded, call.expected)
  }

  ghost predicate MoveInv(cfg: Config, h: seq<Fetch>, clock: real, move: Move) {
    match move
    case Goes(pc) => PcInv(cfg, h, clock, pc)
    case Ends(v) => VerdictInv(cfg, h, v)
  }

  ghost predicate Inv(cfg: Config, t0: real, s: State) {
    && Lawful(cfg, t0, s.history)
    && EndOf(t0, s.history) <= s.clock
    && (forall t | t in s.threads :: PcInv(cfg, s.history, s.clock, s.threads[t]))
    && (forall i | 0 <= i < |s.verdicts| :: VerdictInv(cfg, s.history, s.verdicts[i]))
  }

  // ----- The invariant is inductive -----

  /** Later generations were installed later. */
  lemma {:induction false} InstallsInOrder(cfg: Config, t0: real, h: seq<Fetch>, a: nat, b: nat)
    requires Lawful(cfg, t0, h) && 1 <= a <= b <= Generation(h)
    ensures InstallOf(h, a).end <= InstallOf(h, b).end <= Last(h).end
  {
    var before := h[..|h| - 1];
    if b <= Generation(before) {
      InstallsInOrder(cfg, t0, before, a, b);
    } else if a <= Generation(before) {
      InstallsInOrder(cfg, t0, before, a, a);
    }
  }

  lemma FreshForStays(cfg: Config, h: seq<Fetch>, f: Fetch, g: nat, call: Call)
    requires FreshFor(cfg, h, g, call)
    ensures FreshFor(cfg, h + [f], g, call) && VerifierOf(h + [f], g) == VerifierOf(h, g)
  {
    InstallStays(h, f, g);
  }

  lemma JudgeableStays(cfg: Config, h: seq<Fetch>, f: Fetch, call: Call, observed: nat, g: nat)
    requires Judgeable(cfg, h, call, observed, g)
    ensures Judgeable(cfg, h + [f], call, observed, g) && VerifierOf(h + [f], g) == VerifierOf(h, g)
  {
    FreshForStays(cfg, h, f, g, call);
    if RefreshedForUnknown(h, g) {
      RefreshedStays(h, f, g);
    }
  }

  lemma PcInvStays(cfg: Config, h: seq<Fetch>, clock: real, f: Fetch, pc: Pc)
    requires PcInv(cfg, h, clock, pc) && clock <= f.end
    ensures PcInv(cfg, h + [f], f.end, pc)
  {
    match pc
    case Observed(call, g) => FreshForStays(cfg, h, f, g, call);
    case Judging(call, observed, s) => JudgeableStays(cfg, h, f, call, observed, s.generation);
  }

  lemma VerdictInvStays(cfg: Config, h: seq<Fetch>, f: Fetch, v: Verdict)
    requires VerdictInv(cfg, h, v)
    ensures VerdictInv(cfg, h + [f], v)
  {
    match v
    case Rejected(_, _) =>
    case NoKeys(call, reason) =>
      var g :| g in h && g.outcome == Failed(reason) && call.first < g.end + FAILED_REFRESH_BACKOFF;
      assert g in h + [f];
    case Judged(call, observed, g, _, _) => JudgeableStays(cfg, h, f, call, observed, g);
  }

  /** Appending a permitted fetch keeps the invariant of everything that is already there. */
  lemma SectionKeepsInv(cfg: Config, t0: real, s: State, f: Fetch)
    requires Inv(cfg, t0, s)
    requires s.clock <= f.start <= f.end && ValidOutcome(cfg, f.outcome) && Permitted(cfg, s.history, f)
    ensures Inv(cfg, t0, Section(s, s.history + [f], f.start, f.end))
  {
    var h := s.history + [f];
    assert h[..|h| - 1] == s.history;
    forall t | t in s.threads ensures PcInv(cfg, h, f.end, s.threads[t]) {
      PcInvStays(cfg, s.history, s.clock, f, s.threads[t]);
    }
    forall i | 0 <= i < |s.verdicts| ensures VerdictInv(cfg, h, s.verdicts[i]) {
      VerdictInvStays(cfg, s.history, f, s.verdicts[i]);
    }
  }

  lemma AdvanceKeepsInv(cfg: Config, t0: real, s: State, t: nat, move: Move)
    requires Inv(cfg, t0, s)
    requires MoveInv(cfg, s.history, s.clock, move)
    ensures Inv(cfg, t0, Advance(s, t, move))
  {
  }

  /** A call served without a fetch: fresh keys go on, a recent failure ends it. */
  lemma ServedOnArrival(cfg: Config, h: seq<Fetch>, call: Call, clock: real)
    requires TokenKeyId(cfg.primitives, call.encoded) == Success(call.keyId) && call.first <= clock
    ensures Fresh(h, cfg.cacheTtl, call.first) ==> MoveInv(cfg, h, clock, AfterCurrent(call, Ready(Held(h))))
    ensures BackingOff(h, call.first) ==>
            MoveInv(cfg, h, clock, AfterCurrent(call, Unavailable(Last(h).outcome.reason)))
  {
    assert h != [] ==> Last(h) in h;
  }

  /** A call answered by the fetch `f` it made. */
  lemma ServedByOwnFetch(cfg: Config, h: seq<Fetch>, f: Fetch, call: Call)
    requires ValidConfig(cfg) && TokenKeyId(cfg.primitives, call.encoded) == Success(call.keyId)
    requires call.first <= f.end
    ensures MoveInv(cfg, h + [f], f.end, AfterCurrent(call, Answer(h + [f])))
  {
    GenerationStep(h, f);
    assert Last(h + [f]) == f && f in h + [f];
  }

  lemma BeginKeepsInv(cfg: Config, t0: real, s: State, call: Call, end: real, outcome: Outcome)
    requires ValidConfig(cfg) && Inv(cfg, t0, s)
    requires s.clock <= call.first <= end && ValidOutcome(cfg, outcome)
    requires TokenKeyId(cfg.primitives, call.encoded) == Success(call.keyId)
    ensures var (h, response) := Current(s.history, cfg.cacheTtl, call.first, end, outcome);
            var after := Section(s, h, call.first, end);
            Inv(cfg, t0, after) && MoveInv(cfg, h, after.clock, AfterCurrent(call, response))
  {
    var h := s.history;
    if Fresh(h, cfg.cacheTtl, call.first) || BackingOff(h, call.first) {
      ServedOnArrival(cfg, h, call, call.first);
      TickKeepsInv(cfg, t0, s, call.first);
    } else {
      var f := Fetch(Scheduled, call.first, end, outcome);
      SectionKeepsInv(cfg, t0, s, f);
      ServedByOwnFetch(cfg, h, f, call);
    }
  }

  lemma TickKeepsInv(cfg: Config, t0: real, s: State, now: real)
    requires Inv(cfg, t0, s) && s.clock <= now
    ensures Inv(cfg, t0, s.(clock := now))
  {
  }

  /** A thread whose generation was replaced, or whose refresh is spent, is judged with what is held now. */
  lemma ServedFromCache(cfg: Config, t0: real, h: seq<Fetch>, clock: real, call: Call, observed: nat)
    requires Lawful(cfg, t0, h) && PcInv(cfg, h, clock, Observed(call, observed))
    requires Generation(h) != observed || RefreshSpent(h)
    ensures PcInv(cfg, h, clock, Judging(call, observed, Held(h)))
  {
    InstallsInOrder(cfg, t0, h, observed, Generation(h));
  }

  /** A thread that spends the refresh is judged with what it fetched, or learns of its failure. */
  lemma ServedByRefresh(cfg: Config, h: seq<Fetch>, clock: real, f: Fetch, call: Call, observed: nat)
    requires PcInv(cfg, h, clock, Observed(call, observed)) && observed == Generation(h) && f.trigger == ForUnknownKey
    requires InstallOf(h, observed).end <= f.end && call.first <= f.end
    ensures MoveInv(cfg, h + [f], f.end, AfterRefresh(call, observed, Answer(h + [f])))
  {
    GenerationStep(h, f);
    assert Last(h + [f]) == f && f in h + [f];
  }

  lemma RenewKeepsInv(cfg: Config, t0: real, s: State, call: Call, observed: nat, start: real, end: real,
                      outcome: Outcome)
    requires ValidConfig(cfg) && Inv(cfg, t0, s) && PcInv(cfg, s.history, s.clock, Observed(call, observed))
    requires s.clock <= start <= end && ValidOutcome(cfg, outcome)
    ensures var (h, response) := RefreshUnknown(s.history, observed, start, end, outcome);
            var after := Section(s, h, start, end);
            Inv(cfg, t0, after) && MoveInv(cfg, h, after.clock, AfterRefresh(call, observed, response))
  {
    var h := s.history;
    if Generation(h) != observed || RefreshSpent(h) {
      ServedFromCache(cfg, t0, h, s.clock, call, observed);
      TickKeepsInv(cfg, t0, s, start);
    } else {
      var f := Fetch(ForUnknownKey, start, end, outcome);
      SectionKeepsInv(cfg, t0, s, f);
      InstallsInOrder(cfg, t0, h, observed, observed);
      ServedByRefresh(cfg, h, s.clock, f, call, observed);
    }
  }

  lemma StepKeepsInv(cfg: Config, t0: real, s: State, step: Step)
    requires ValidConfig(cfg) && Inv(cfg, t0, s) && Enabled(cfg, s, step)
    ensures Inv(cfg, t0, Apply(cfg, s, step))
  {
    match step
    case Begin(t, encoded, expected, start, end, outcome) =>
      match TokenKeyId(cfg.primitives, encoded) {
        case Failure(_) =>
        case Success(keyId) =>
          var call := Call(encoded, expected, keyId, start);
          var (h, response) := Current(s.history, cfg.cacheTtl, start, end, outcome);
          BeginKeepsInv(cfg, t0, s, call, end, outcome);
          AdvanceKeepsInv(cfg, t0, Section(s, h, start, end), t, AfterCurrent(call, response));
      }
    case Renew(t, start, end, outcome) =>
      var pc := s.threads[t];
      var (h, response) := RefreshUnknown(s.history, pc.generation, start, end, outcome);
      RenewKeepsInv(cfg, t0, s, pc.call, pc.generation, start, end, outcome);
      AdvanceKeepsInv(cfg, t0, Section(s, h, start, end), t, AfterRefresh(pc.call, pc.generation, response));
    case Judge(t, at) =>
      AdvanceKeepsInv(cfg, t0, s, t, Ends(Judgement(cfg, s.threads[t], at)));
    case Refresh(start, end, outcome) =>
      SectionKeepsInv(cfg, t0, s, Fetch(Explicit, start, end, outcome));
  }

  lemma {:induction false} EveryRunKeepsInv(cfg: Config, t0: real, run: seq<Step>, s: State)
    requires ValidConfig(cfg) && Reaches(cfg, t0, run, s)
    ensures Inv(cfg, t0, s)
    decreases |run|
  {
    if run != [] {
      var earlier, last := run[..|run| - 1], run[|run| - 1];
      var before :| Reaches(cfg, t0, earlier, before) && StepsTo(cfg, before, last, s);
      EveryRunKeepsInv(cfg, t0, earlier, before);
      StepKeepsInv(cfg, t0, before, last);
    }
  }
}
