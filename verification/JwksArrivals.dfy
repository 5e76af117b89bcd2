/**
 * How the history at the moment a call arrives decides what becomes of it, over every run: held keys
 * serve it, a recent failure refuses it, and otherwise its own fetch answers it.
 */
module JwksArrivals {
  import opened Wrappers
  import opened Verifiers
  import opened JwksHistory
  import opened JwksThreads

  /** Where a call stands: still to renew, with the keys of a generation, or refused for want of keys. */
  datatype Standing = Waiting | Holding(generation: nat) | Refused(reason: string)

  function StandingOf(pc: Pc): Standing {
    match pc
    case Observed(_, _) => Waiting
    case Judging(_, _, s) => Holding(s.generation)
  }

  function Ended(v: Verdict): Standing
    requires !v.Rejected?
  {
    match v
    case NoKeys(_, reason) => Refused(reason)
    case Judged(_, _, g, _, _) => Holding(g)
  }

  /** The call's first clock reading lies after the first `n` fetches and before the others. */
  ghost predicate ArrivesAt(t0: real, h: seq<Fetch>, n: nat, call: Call) {
    n <= |h| && EndOf(t0, h[..n]) <= call.first && (n < |h| ==> call.first <= h[n].start)
  }

  predicate HasKey(cfg: Config, h: seq<Fetch>, call: Call) {
    Fresh(h, cfg.cacheTtl, call.first) && call.keyId in VerifierOf(h, Generation(h)).keys
  }

  predicate ServesFailure(cfg: Config, h: seq<Fetch>, call: Call) {
    !Fresh(h, cfg.cacheTtl, call.first) && BackingOff(h, call.first)
  }

  /** Fetch `n` is the call's own: a failure refuses it, keys that name its key serve it. */
  predicate OwnFetch(h: seq<Fetch>, n: nat, call: Call, standing: Standing) {
    && n < |h| && h[n].trigger == Scheduled && h[n].start == call.first
    && match h[n].outcome
       case Failed(reason) => standing == Refused(reason)
       case Installed(v) => call.keyId in v.keys ==> standing == Holding(Generation(h[..n]) + 1)
  }

  ghost predicate FailedSince(h: seq<Fetch>, n: nat, reason: string) {
    exists m | n <= m < |h| :: h[m].trigger != Explicit && h[m].outcome == Failed(reason)
  }

  /** What the first `n` fetches make of a call that arrives after them. */
  ghost predicate Decides(cfg: Config, h: seq<Fetch>, n: nat, call: Call, standing: Standing)
    requires n <= |h|
  {
    var before := h[..n];
    && (HasKey(cfg, before, call) ==> standing == Holding(Generation(before)))
    && (ServesFailure(cfg, before, call) ==> standing == Refused(Last(before).outcome.reason))
    && (!Fresh(before, cfg.cacheTtl, call.first) && !BackingOff(before, call.first) ==> OwnFetch(h, n, call, standing))
    && (standing.Refused? ==> ServesFailure(cfg, before, call) || FailedSince(h, n, standing.reason))
  }

  ghost predicate Explains(cfg: Config, t0: real, h: seq<Fetch>, n: nat, call: Call, standing: Standing) {
    ArrivesAt(t0, h, n, call) && Decides(cfg, h, n, call, standing)
  }

  ghost predicate Explained(cfg: Config, t0: real, h: seq<Fetch>, clock: real, call: Call, standing: Standing) {
    call.first <= clock && exists n: nat :: Explains(cfg, t0, h, n, call, standing)
  }

  ghost predicate MoveExplained(cfg: Config, t0: real, h: seq<Fetch>, clock: real, move: Move) {
    match move
    case Goes(pc) => Explained(cfg, t0, h, clock, pc.call, StandingOf(pc))
    case Ends(v) => !v.Rejected? ==> Explained(cfg, t0, h, clock, v.call, Ended(v))
  }

  /** Every pending call and every verdict is explained by the moment its call arrived. */
  ghost predicate AllExplained(cfg: Config, t0: real, s: State) {
    && (forall t | t in s.threads :: MoveExplained(cfg, t0, s.history, s.clock, Goes(s.threads[t])))
    && (forall i | 0 <= i < |s.verdicts| :: MoveExplained(cfg, t0, s.history, s.clock, Ends(s.verdicts[i])))
  }

  // ----- Later fetches change nothing about an earlier arrival -----

  lemma DecidesStays(cfg: Config, h: seq<Fetch>, f: Fetch, n: nat, call: Call, standing: Standing)
    requires n <= |h| && Decides(cfg, h, n, call, standing)
    ensures Decides(cfg, h + [f], n, call, standing)
  {
    var h' := h + [f];
    assert h'[..n] == h[..n];
    if standing.Refused? && FailedSince(h, n, standing.reason) {
      var m :| n <= m < |h| && h[m].trigger != Explicit && h[m].outcome == Failed(standing.reason);
      assert h'[m] == h[m];
    }
  }

  lemma ExplainedStays(cfg: Config, t0: real, h: seq<Fetch>, clock: real, f: Fetch, call: Call, standing: Standing)
    requires Explained(cfg, t0, h, clock, call, standing) && clock <= f.start <= f.end
    ensures Explained(cfg, t0, h + [f], f.end, call, standing)
  {
    var n: nat :| Explains(cfg, t0, h, n, call, standing);
    assert (h + [f])[..n] == h[..n];
    DecidesStays(cfg, h, f, n, call, standing);
    assert Explains(cfg, t0, h + [f], n, call, standing);
  }

  lemma SectionKeepsExplained(cfg: Config, t0: real, s: State, f: Fetch)
    requires AllExplained(cfg, t0, s) && s.clock <= f.start <= f.end
    ensures AllExplained(cfg, t0, Section(s, s.history + [f], f.start, f.end))
  {
    var h := s.history + [f];
    assert h != s.history;
    forall t | t in s.threads ensures MoveExplained(cfg, t0, h, f.end, Goes(s.threads[t])) {
      ExplainedStays(cfg, t0, s.history, s.clock, f, s.threads[t].call, StandingOf(s.threads[t]));
    }
    forall i | 0 <= i < |s.verdicts| ensures MoveExplained(cfg, t0, h, f.end, Ends(s.verdicts[i])) {
      assert MoveExplained(cfg, t0, s.history, s.clock, Ends(s.verdicts[i]));
      if !s.verdicts[i].Rejected? {
        ExplainedStays(cfg, t0, s.history, s.clock, f, s.verdicts[i].call, Ended(s.verdicts[i]));
      }
    }
  }

  lemma TickKeepsExplained(cfg: Config, t0: real, s: State, now: real)
    requires AllExplained(cfg, t0, s) && s.clock <= now
    ensures AllExplained(cfg, t0, s.(clock := now))
  {
    forall i | 0 <= i < |s.verdicts| ensures MoveExplained(cfg, t0, s.history, now, Ends(s.verdicts[i])) {
      assert MoveExplained(cfg, t0, s.history, s.clock, Ends(s.verdicts[i]));
    }
    forall t | t in s.threads ensures MoveExplained(cfg, t0, s.history, now, Goes(s.threads[t])) {
      assert MoveExplained(cfg, t0, s.history, s.clock, Goes(s.threads[t]));
    }
  }

  lemma AdvanceKeepsExplained(cfg: Config, t0: real, s: State, t: nat, move: Move)
    requires AllExplained(cfg, t0, s) && MoveExplained(cfg, t0, s.history, s.clock, move)
    ensures AllExplained(cfg, t0, Advance(s, t, move))
  {
  }

  // ----- The steps of a call -----

  lemma ExplainedOnArrival(cfg: Config, t0: real, h: seq<Fetch>, call: Call)
    requires EndOf(t0, h) <= call.first
    ensures Fresh(h, cfg.cacheTtl, call.first) ==>
              MoveExplained(cfg, t0, h, call.first, AfterCurrent(call, Ready(Held(h))))
    ensures ServesFailure(cfg, h, call) ==>
              MoveExplained(cfg, t0, h, call.first, AfterCurrent(call, Unavailable(Last(h).outcome.reason)))
  {
    var n := |h|;
    assert h[..n] == h && ArrivesAt(t0, h, n, call);
    if Fresh(h, cfg.cacheTtl, call.first) {
      var pc := AfterCurrent(call, Ready(Held(h))).pc;
      assert Explains(cfg, t0, h, n, call, StandingOf(pc));
    } else if BackingOff(h, call.first) {
      assert Explains(cfg, t0, h, n, call, Refused(Last(h).outcome.reason));
    }
  }

  lemma ExplainedByOwnFetch(cfg: Config, t0: real, h: seq<Fetch>, f: Fetch, call: Call)
    requires EndOf(t0, h) <= call.first == f.start <= f.end && f.trigger == Scheduled
    requires !Fresh(h, cfg.cacheTtl, call.first) && !BackingOff(h, call.first)
    ensures MoveExplained(cfg, t0, h + [f], f.end, AfterCurrent(call, Answer(h + [f])))
  {
    var h', n := h + [f], |h|;
    assert h'[..n] == h && h'[n] == f && ArrivesAt(t0, h', n, call);
    match f.outcome {
      case Installed(_) =>
        InstallTakesOver(h, f);
        assert Explains(cfg, t0, h', n, call, StandingOf(AfterCurrent(call, Answer(h')).pc));
      case Failed(reason) =>
        assert FailedSince(h', n, reason);
        assert Explains(cfg, t0, h', n, call, Refused(reason));
    }
  }

  lemma BeginKeepsExplained(cfg: Config, t0: real, s: State, call: Call, end: real, outcome: Outcome)
    requires AllExplained(cfg, t0, s) && EndOf(t0, s.history) <= s.clock <= call.first <= end
    ensures var (h, response) := Current(s.history, cfg.cacheTtl, call.first, end, outcome);
            var after := Section(s, h, call.first, end);
            AllExplained(cfg, t0, after) && MoveExplained(cfg, t0, h, after.clock, AfterCurrent(call, response))
  {
    var h := s.history;
    if Fresh(h, cfg.cacheTtl, call.first) || BackingOff(h, call.first) {
      ExplainedOnArrival(cfg, t0, h, call);
      TickKeepsExplained(cfg, t0, s, call.first);
    } else {
      var f := Fetch(Scheduled, call.first, end, outcome);
      SectionKeepsExplained(cfg, t0, s, f);
      ExplainedByOwnFetch(cfg, t0, h, f, call);
    }
  }

  /** The arrival left a waiting call open, so whatever becomes of it fits. */
  lemma WaitingIsOpen(cfg: Config, h: seq<Fetch>, n: nat, call: Call, standing: Standing)
    requires n <= |h| && Decides(cfg, h, n, call, Waiting)
    requires standing.Refused? ==> FailedSince(h, n, standing.reason)
    ensures Decides(cfg, h, n, call, standing)
  {
  }

  lemma ExplainedFromCache(cfg: Config, t0: real, h: seq<Fetch>, clock: real, now: real, call: Call, g: nat)
    requires Explained(cfg, t0, h, clock, call, Waiting) && clock <= now
    ensures Explained(cfg, t0, h, now, call, Holding(g))
  {
    var n: nat :| Explains(cfg, t0, h, n, call, Waiting);
    WaitingIsOpen(cfg, h, n, call, Holding(g));
    assert Explains(cfg, t0, h, n, call, Holding(g));
  }

  lemma ExplainedByRefresh(cfg: Config, t0: real, h: seq<Fetch>, clock: real, f: Fetch, call: Call, observed: nat)
    requires Explained(cfg, t0, h, clock, call, Waiting) && clock <= f.start <= f.end && f.trigger == ForUnknownKey
    ensures MoveExplained(cfg, t0, h + [f], f.end, AfterRefresh(call, observed, Answer(h + [f])))
  {
    var h' := h + [f];
    ExplainedStays(cfg, t0, h, clock, f, call, Waiting);
    match f.outcome {
      case Installed(_) =>
        InstallTakesOver(h, f);
        ExplainedFromCache(cfg, t0, h', f.end, f.end, call, Generation(h) + 1);
      case Failed(reason) =>
        var n: nat :| Explains(cfg, t0, h, n, call, Waiting);
        DecidesStays(cfg, h, f, n, call, Waiting);
        assert h'[..n] == h[..n] && h'[|h|] == f;
        assert FailedSince(h', n, reason);
        WaitingIsOpen(cfg, h', n, call, Refused(reason));
        assert Explains(cfg, t0, h', n, call, Refused(reason));
    }
  }

  lemma RenewKeepsExplained(cfg: Config, t0: real, s: State, call: Call, observed: nat, start: real, end: real,
                            outcome: Outcome)
    requires AllExplained(cfg, t0, s) && Explained(cfg, t0, s.history, s.clock, call, Waiting)
    requires s.clock <= start <= end
    ensures var (h, response) := RefreshUnknown(s.history, observed, start, end, outcome);
            var after := Section(s, h, start, end);
            && AllExplained(cfg, t0, after)
            && MoveExplained(cfg, t0, h, after.clock, AfterRefresh(call, observed, response))
  {
    var h := s.history;
    if Generation(h) > 0 && (Generation(h) != observed || RefreshSpent(h)) {
      ExplainedFromCache(cfg, t0, h, s.clock, start, call, Generation(h));
      TickKeepsExplained(cfg, t0, s, start);
    } else {
      var f := Fetch(ForUnknownKey, start, end, outcome);
      SectionKeepsExplained(cfg, t0, s, f);
      ExplainedByRefresh(cfg, t0, h, s.clock, f, call, observed);
    }
  }

  lemma StepKeepsExplained(cfg: Config, t0: real, s: State, step: Step)
    requires Inv(cfg, t0, s) && AllExplained(cfg, t0, s) && Enabled(cfg, s, step)
    ensures AllExplained(cfg, t0, Apply(cfg, s, step))
  {
    match step
    case Begin(t, encoded, expected, start, end, outcome) =>
      match TokenKeyId(cfg.primitives, encoded) {
        case Failure(refusal) =>
          AdvanceKeepsExplained(cfg, t0, s, t, Ends(Rejected(encoded, refusal)));
        case Success(keyId) =>
          var call := Call(encoded, expected, keyId, start);
          var (h, response) := Current(s.history, cfg.cacheTtl, start, end, outcome);
          BeginKeepsExplained(cfg, t0, s, call, end, outcome);
          AdvanceKeepsExplained(cfg, t0, Section(s, h, start, end), t, AfterCurrent(call, response));
      }
    case Renew(t, start, end, outcome) =>
      var pc := s.threads[t];
      assert MoveExplained(cfg, t0, s.history, s.clock, Goes(pc));
      var (h, response) := RefreshUnknown(s.history, pc.generation, start, end, outcome);
      RenewKeepsExplained(cfg, t0, s, pc.call, pc.generation, start, end, outcome);
      AdvanceKeepsExplained(cfg, t0, Section(s, h, start, end), t, AfterRefresh(pc.call, pc.generation, response));
    case Judge(t, at) =>
      assert MoveExplained(cfg, t0, s.history, s.clock, Goes(s.threads[t]));
      AdvanceKeepsExplained(cfg, t0, s, t, Ends(Judgement(cfg, s.threads[t], at)));
    case Refresh(start, end, outcome) =>
      SectionKeepsExplained(cfg, t0, s, Fetch(Explicit, start, end, outcome));
  }

  lemma {:induction false} EveryCallIsExplained(cfg: Config, t0: real, run: seq<Step>, s: State)
    requires ValidConfig(cfg) && Reaches(cfg, t0, run, s)
    ensures AllExplained(cfg, t0, s)
    decreases |run|
  {
    if run != [] {
      var earlier, last := run[..|run| - 1], run[|run| - 1];
      var before :| Reaches(cfg, t0, earlier, before) && StepsTo(cfg, before, last, s);
      EveryRunKeepsInv(cfg, t0, earlier, before);
      EveryCallIsExplained(cfg, t0, earlier, before);
      StepKeepsExplained(cfg, t0, before, last);
    }
  }
}
