/**
 * What the log of a run can hold: facts about pairs of arbitrations, however far apart
 * (`crates/chronos-core/src/containment.rs`).
 */
module Arbitration {
  import opened Words
  import opened Correction
  import opened Containment
  import opened Ledger

  /** A log entry was arbitrated in this state, which became that one. */
  predicate Arbitrated(H: Hash, e: Entry, s: State, after: State) {
    e.decision == Step(H, s, e.event).0 && after == Commit(s, Step(H, s, e.event).1)
  }

  /** The last operation of a run moves up the order and adds at most one entry to the log. */
  lemma RunStep(H: Hash, p: Params, ops: seq<Op>)
    requires ops != []
    ensures var before := ops[..|ops| - 1];
            var log, log' := Log(H, p, before), Log(H, p, ops);
            var s, s' := Run(H, p, before).state, Run(H, p, ops).state;
            Reachable(p, s) && Reachable(p, s') && Precedes(s, s')
            && (log' == log || (|log'| == |log| + 1 && log'[..|log|] == log && Arbitrated(H, log'[|log|], s, s')))
  {
    var before, op := ops[..|ops| - 1], ops[|ops| - 1];
    RunReachable(H, p, before);
    RunReachable(H, p, ops);
    RunAscends(H, p, ops, |ops| - 1);
    if op.Submit? { LogSnoc(H, p, ops); }
  }

  /** No run admits a score above the whole threshold, whatever was corrected before. */
  lemma {:induction false} AdmittedScoresFit(H: Hash, p: Params, ops: seq<Op>, i: nat)
    requires i < |Log(H, p, ops)|
    requires Log(H, p, ops)[i].event.Infer? && Log(H, p, ops)[i].decision == Admit
    ensures Log(H, p, ops)[i].event.uncertaintyScore <= p.threshold
  {
    var before := ops[..|ops| - 1];
    RunStep(H, p, ops);
    if i < |Log(H, p, before)| {
      AdmittedScoresFit(H, p, before, i);
    } else {
      var s, event := Run(H, p, before).state, Log(H, p, ops)[i].event;
      if event.uncertaintyScore > s.threshold { OversizedScoreDenied(H, s, event); }
    }
  }

  predicate Started(e: Entry) {
    e.event.MissionInit? && e.decision == Admit
  }

  lemma {:induction false} StartedLeavesArmed(H: Hash, p: Params, ops: seq<Op>, i: nat)
    requires i < |Log(H, p, ops)| && Started(Log(H, p, ops)[i])
    ensures Run(H, p, ops).state.phase != Armed
  {
    var before := ops[..|ops| - 1];
    RunStep(H, p, ops);
    if i < |Log(H, p, before)| {
      StartedLeavesArmed(H, p, before, i);
    } else {
      StepPrecedes(H, Run(H, p, before).state, MissionInit);
    }
  }

  /** No run admits two starts. */
  lemma {:induction false} StartsOnce(H: Hash, p: Params, ops: seq<Op>, i: nat, j: nat)
    requires i < j < |Log(H, p, ops)| && Started(Log(H, p, ops)[i])
    ensures !Started(Log(H, p, ops)[j])
  {
    var before := ops[..|ops| - 1];
    RunStep(H, p, ops);
    if j < |Log(H, p, before)| {
      StartsOnce(H, p, before, i, j);
    } else {
      StartedLeavesArmed(H, p, before, i);
    }
  }

  lemma {:induction false} ErasureStays(H: Hash, p: Params, ops: seq<Op>, i: nat)
    requires i < |Log(H, p, ops)| && Log(H, p, ops)[i].event.Erases()
    ensures Run(H, p, ops).state.phase == Erased
  {
    var before := ops[..|ops| - 1];
    RunStep(H, p, ops);
    if i < |Log(H, p, before)| {
      ErasureStays(H, p, before, i);
    } else {
      StepReachable(H, p, Run(H, p, before).state, Log(H, p, ops)[i].event);
    }
  }

  lemma ErasedAdmits(H: Hash, p: Params, s: State, e: Entry, after: State)
    requires Reachable(p, s) && s.phase == Erased && Arbitrated(H, e, s, after)
    ensures e.decision == Admit <==> e.event.Erases() || e.event.ErasureAttest?
  {
    ErasedAbsorbs(H, s, e.event);
  }

  /** After an erasing event exactly erasure and the erasure attestation are admitted. */
  lemma {:induction false} OnlyErasureAfterErasure(H: Hash, p: Params, ops: seq<Op>, i: nat, j: nat)
    requires i < j < |Log(H, p, ops)| && Log(H, p, ops)[i].event.Erases()
    ensures var e := Log(H, p, ops)[j];
            e.decision == Admit <==> e.event.Erases() || e.event.ErasureAttest?
  {
    var before := ops[..|ops| - 1];
    RunStep(H, p, ops);
    if j < |Log(H, p, before)| {
      OnlyErasureAfterErasure(H, p, before, i, j);
    } else {
      ErasureStays(H, p, before, i);
      ErasedAdmits(H, p, Run(H, p, before).state, Log(H, p, ops)[j], Run(H, p, ops).state);
    }
  }

  // ── Every verdict, from the history alone ────────────────────────────────

  /** In a run the capabilities are a matter of the phase. */
  predicate GrantsFit(s: State) {
    s.granted == match s.phase
                 case Armed => ALL
                 case Active => RUNNING
                 case Locked => RUNNING
                 case Erased => ERASURE_ATTEST
  }

  lemma GrantsStep(H: Hash, p: Params, s: State, event: Event)
    requires Reachable(p, s) && GrantsFit(s)
    ensures GrantsFit(Commit(s, Step(H, s, event).1))
  {
    StepReachable(H, p, s, event);
    StepPrecedes(H, s, event);
    assert Revoke(ALL, MISSION_INIT) == RUNNING;
  }

  lemma {:induction false} RunGrants(H: Hash, p: Params, ops: seq<Op>)
    ensures GrantsFit(Run(H, p, ops).state)
  {
    if ops != [] {
      var before, op := ops[..|ops| - 1], ops[|ops| - 1];
      RunGrants(H, p, before);
      RunReachable(H, p, before);
      if op.Submit? { GrantsStep(H, p, Run(H, p, before).state, op.event); }
    }
  }

  lemma GrantsSuffice()
    ensures Contains(ALL, MISSION_INIT) && Contains(RUNNING, INFER) && Contains(RUNNING, IDENTITY_ATTEST)
    ensures Contains(RUNNING, HUMAN_INTERACTION) && Contains(RUNNING, ERASURE_ATTEST)
    ensures Contains(ERASURE_ATTEST, ERASURE_ATTEST)
  {
  }

  /**
   * The verdict on every event but an inference, after every run, from the phase and the anchor
   * alone. The capability check never decides: no run ends in a revoked capability.
   */
  lemma VerdictByPhase(H: Hash, p: Params, ops: seq<Op>, event: Event)
    requires !event.Infer?
    ensures var s := Run(H, p, ops).state;
            var phases := match event
              case MissionInit => {Armed}
              case KeyReleased => {Active}
              case IdentityAttest => {Active, Locked}
              case ErasureAttest => {Locked, Erased}
              case RequestHumanVeto => {Active}
              case HumanCorrection(_) => {Active}
              case _ => {Armed, Active, Locked, Erased};
            Step(H, s, event).0
            == if s.phase !in phases then Deny(WrongPhase)
               else if event.HumanCorrection? && !Authorises(H, event.grant, s.anchor) then Deny(CorrectionUnauthorized)
               else Admit
  {
    RunGrants(H, p, ops);
    GrantsSuffice();
  }

  predicate ToldAt(ops: seq<Op>, i: nat, elapsed: u64)
    requires i < |ops|
  {
    ops[i].Clock? && ops[i].elapsed == elapsed
  }

  /** No operation told the run a later time, and one told it this one unless it is still 0. */
  predicate LatestTold(ops: seq<Op>, elapsed: u64) {
    (forall i, t: u64 :: 0 <= i < |ops| && ToldAt(ops, i, t) ==> t <= elapsed)
    && (elapsed == 0 || exists i :: 0 <= i < |ops| && ToldAt(ops, i, elapsed))
  }

  lemma LatestStep(ops: seq<Op>, elapsed: u64, elapsed': u64)
    requires ops != [] && LatestTold(ops[..|ops| - 1], elapsed)
    requires var op := ops[|ops| - 1]; elapsed' == if op.Clock? && op.elapsed > elapsed then op.elapsed else elapsed
    ensures LatestTold(ops, elapsed')
  {
    var last := |ops| - 1;
    var before := ops[..last];
    forall i, t: u64 | 0 <= i < |ops| && ToldAt(ops, i, t) ensures t <= elapsed' {
      if i < last { assert ToldAt(before, i, t); }
    }
    if elapsed' == elapsed && elapsed != 0 {
      var i :| 0 <= i < |before| && ToldAt(before, i, elapsed);
      assert ToldAt(ops, i, elapsed);
    } else if elapsed' != elapsed {
      assert ToldAt(ops, last, elapsed');
    }
  }

  /** The clock shows the latest time the run was told, whatever order the times came in. */
  lemma {:induction false} ClockIsLatest(H: Hash, p: Params, ops: seq<Op>)
    ensures LatestTold(ops, Run(H, p, ops).state.elapsed)
  {
    if ops != [] {
      var before, op := ops[..|ops| - 1], ops[|ops| - 1];
      ClockIsLatest(H, p, before);
      var s := Run(H, p, before).state;
      if op.Submit? { StepKeepsClock(H, s, op.event); }
      LatestStep(ops, s.elapsed, Run(H, p, ops).state.elapsed);
    }
  }

  lemma StepKeepsClock(H: Hash, s: State, event: Event)
    ensures Commit(s, Step(H, s, event).1).elapsed == s.elapsed
  {
  }

  /** What is on record as incurred is the sum of the admitted scores, up to saturation. */
  lemma {:induction false} IncurredIsSum(H: Hash, p: Params, ops: seq<Op>)
    ensures Run(H, p, ops).state.incurred == Min(ScoreSum(Log(H, p, ops)), U64_MAX)
  {
    if ops != [] {
      var before, op := ops[..|ops| - 1], ops[|ops| - 1];
      IncurredIsSum(H, p, before);
      if op.Submit? {
        LogSnoc(H, p, ops);
        RunReachable(H, p, before);
        IncurredStep(H, p, Run(H, p, before).state, op.event);
      }
    }
  }

  lemma IncurredStep(H: Hash, p: Params, s: State, event: Event)
    requires Reachable(p, s)
    ensures var (decision, next) := Step(H, s, event);
            Commit(s, next).incurred
            == SatAdd(s.incurred, if event.Infer? && decision == Admit then event.uncertaintyScore else 0)
  {
    StepPrecedes(H, s, event);
  }

  /** The verdict on an inference, from what the run has admitted so far and its clock. */
  lemma InferenceVerdict(H: Hash, p: Params, ops: seq<Op>, secs: u64, bits: u64, score: u64)
    ensures var s, log := Run(H, p, ops).state, Log(H, p, ops);
            Step(H, s, Infer(secs, bits, score)).0
            == if s.phase != Active then Deny(WrongPhase)
               else if Inferences(log) >= p.opBudget then Deny(BudgetExhausted)
               else if BitsReleased(log) + bits > p.disclosureBudget then Deny(DisclosureBudgetExceeded)
               else if p.deadline < U64_MAX && s.elapsed + secs > p.deadline then Deny(DeadlineExceeded)
               else if p.threshold < U64_MAX && s.Net() + score > p.threshold then Deny(UncertaintyTooHigh)
               else Admit
  {
    RunGrants(H, p, ops);
    GrantsSuffice();
    RunReachable(H, p, ops);
    BudgetsConserved(H, p, ops);
  }

  /** The lifecycle of every run: which submissions move the phase, and to where. */
  lemma PhaseMoves(H: Hash, p: Params, ops: seq<Op>, event: Event)
    ensures var s, next := Run(H, p, ops).state, Run(H, p, ops + [Submit(event)]).state;
            next.phase == if event.Erases() then Erased
                          else if event.MissionInit? && s.phase == Armed then Active
                          else if event.KeyReleased? && s.phase == Active then Locked
                          else s.phase
  {
    var s := Run(H, p, ops).state;
    var all := ops + [Submit(event)];
    assert all[..|all| - 1] == ops;
    RunReachable(H, p, ops);
    RunGrants(H, p, ops);
    GrantsSuffice();
    StepPrecedes(H, s, event);
    StepReachable(H, p, s, event);
  }

  /** Attestations and the veto are recorded and change nothing else. */
  lemma OnlyRecorded(H: Hash, p: Params, ops: seq<Op>, event: Event)
    requires event.IdentityAttest? || event.ErasureAttest? || event.RequestHumanVeto?
    ensures Run(H, p, ops + [Submit(event)]).state == Run(H, p, ops).state
    ensures |Run(H, p, ops + [Submit(event)]).records| == |Run(H, p, ops).records| + 1
  {
    var all := ops + [Submit(event)];
    assert all[..|all| - 1] == ops;
  }

  /** Equal chain digests mean the same kinds of events with the same verdicts, in the same order. */
  lemma DigestTellsVerdicts(H: Hash, p: Params, a: seq<Op>, q: Params, b: seq<Op>, i: nat)
    requires Run(H, p, a).digest == Run(H, q, b).digest && i < |Log(H, p, a)|
    ensures (i < |Log(H, q, b)| && Log(H, p, a)[i].decision == Log(H, q, b)[i].decision
             && SameKind(Log(H, p, a)[i].event, Log(H, q, b)[i].event))
         || Collides(H, ChainMessages(H, p.Start(), Run(H, p, a).records),
                        ChainMessages(H, q.Start(), Run(H, q, b).records))
  {
    EqualDigestsSameRun(H, p, a, q, b);
    RunKeepsBooks(H, p, a);
    RunKeepsBooks(H, q, b);
    if i < |Log(H, q, b)| && Run(H, p, a).records == Run(H, q, b).records {
      var e, f := Log(H, p, a)[i], Log(H, q, b)[i];
      assert RecordMatches(Run(H, p, a).records[i], i, e) && RecordMatches(Run(H, q, b).records[i], i, f);
      CodesTell(e.event, f.event, e.decision, f.decision);
    }
  }

  /** At this position the run admitted an inference, which took the net figure to this level. */
  predicate ReachedAt(H: Hash, p: Params, ops: seq<Op>, k: nat, level: u64)
    requires k < |ops|
  {
    ops[k].Submit? && ops[k].event.Infer?
    && var s := Run(H, p, ops[..k]).state;
       Step(H, s, ops[k].event).0 == Admit && SatAdd(s.Net(), ops[k].event.uncertaintyScore) == level
  }

  lemma PeakStep(H: Hash, p: Params, s: State, event: Event)
    requires Reachable(p, s)
    ensures Commit(s, Step(H, s, event).1).peak
         == if event.Infer? && Step(H, s, event).0 == Admit then Max(s.peak, SatAdd(s.Net(), event.uncertaintyScore))
            else s.peak
  {
    StepPrecedes(H, s, event);
  }

  /** The recorded peak is the highest level any admitted inference of the run took the net figure to. */
  lemma {:induction false} PeakIsHighest(H: Hash, p: Params, ops: seq<Op>)
    ensures var peak := Run(H, p, ops).state.peak;
            (forall k, level: u64 :: 0 <= k < |ops| && ReachedAt(H, p, ops, k, level) ==> level <= peak)
            && (peak == 0 || exists k :: 0 <= k < |ops| && ReachedAt(H, p, ops, k, peak))
  {
    if ops != [] {
      var last := |ops| - 1;
      var before := ops[..last];
      PeakIsHighest(H, p, before);
      RunReachable(H, p, before);
      var s, peak := Run(H, p, before).state, Run(H, p, ops).state.peak;
      if ops[last].Submit? { PeakStep(H, p, s, ops[last].event); }
      forall k, level: u64 | 0 <= k < |ops| && ReachedAt(H, p, ops, k, level) ensures level <= peak {
        if k < last { ReachedBefore(H, p, ops, k, level); }
      }
      if peak == s.peak {
        if peak != 0 {
          var k :| 0 <= k < |before| && ReachedAt(H, p, before, k, peak);
          ReachedBefore(H, p, ops, k, peak);
        }
      } else {
        assert ReachedAt(H, p, ops, last, peak);
      }
    }
  }

  lemma ReachedBefore(H: Hash, p: Params, ops: seq<Op>, k: nat, level: u64)
    requires k < |ops| - 1
    ensures ReachedAt(H, p, ops, k, level) <==> ReachedAt(H, p, ops[..|ops| - 1], k, level)
  {
    assert ops[..|ops| - 1][..k] == ops[..k];
  }

  /** Field by field, what never comes back between two points of a run. */
  lemma NothingComesBack(H: Hash, p: Params, ops: seq<Op>, k: nat)
    requires k <= |ops|
    ensures var s, later := Run(H, p, ops[..k]).state, Run(H, p, ops).state;
            later.granted & s.granted == later.granted
            && later.opBudget <= s.opBudget && later.disclosureBudget <= s.disclosureBudget
            && s.phase.Rank() <= later.phase.Rank() && s.elapsed <= later.elapsed
            && s.incurred <= later.incurred && s.resolved <= later.resolved && s.peak <= later.peak
            && s.consumed <= later.consumed && (later.anchor != s.anchor ==> s.consumed < later.consumed)
            && later.deadline == s.deadline == p.deadline && later.threshold == s.threshold == p.threshold
  {
    RunAscends(H, p, ops, k);
    RunReachable(H, p, ops);
  }

  // ── Denials leave no trace in the state ──────────────────────────────────

  /** The run without the submissions that were denied. */
  function Effective(H: Hash, p: Params, ops: seq<Op>): seq<Op> {
    if ops == [] then []
    else
      var before, op := ops[..|ops| - 1], ops[|ops| - 1];
      if op.Submit? && AdmitEvent(H, Run(H, p, before), op.event).1.Deny? then Effective(H, p, before)
      else Effective(H, p, before) + [op]
  }

  function AdmittedOnly(log: seq<Entry>): seq<Entry> {
    if log == [] then []
    else
      var k := |log| - 1;
      AdmittedOnly(log[..k]) + (if log[k].decision == Admit then [log[k]] else [])
  }

  /** Striking out every denied submission changes neither the state nor the rest of the log. */
  lemma {:induction false} DenialsErasable(H: Hash, p: Params, ops: seq<Op>)
    ensures Run(H, p, Effective(H, p, ops)).state == Run(H, p, ops).state
    ensures Log(H, p, Effective(H, p, ops)) == AdmittedOnly(Log(H, p, ops))
  {
    if ops != [] {
      var before, op := ops[..|ops| - 1], ops[|ops| - 1];
      DenialsErasable(H, p, before);
      var kept := Effective(H, p, before);
      assert (kept + [op])[..|kept|] == kept;
      if op.Submit? {
        LogSnoc(H, p, ops);
        var s := Run(H, p, before).state;
        if Step(H, s, op.event).0.Deny? {
          DenialChangesNothing(H, s, op.event);
        } else {
          LogSnoc(H, p, kept + [op]);
          var log := Log(H, p, kept + [op]);
          assert log == log[..|log| - 1] + [log[|log| - 1]];
        }
      }
    }
  }
}
