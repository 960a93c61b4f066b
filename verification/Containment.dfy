/**
 * The containment monitor: state, transition function and order
 * (`crates/chronos-core/src/containment.rs`). The axioms the startup check enumerates over an
 * abstraction are proved here for every state of `u64` fields.
 */
module Containment {
  import opened Words
  import opened Correction

  datatype Phase = Armed | Active | Locked | Erased
  {
    /** The discriminant; it is also the lattice order. */
    function Rank(): (r: u64)
      ensures r <= 3
    {
      match this
      case Armed => 0
      case Active => 1
      case Locked => 2
      case Erased => 3
    }
  }

  // ── Capabilities ─────────────────────────────────────────────────────────

  type Capabilities = bv8

  const MISSION_INIT: Capabilities := 0x01
  const INFER: Capabilities := 0x02
  const IDENTITY_ATTEST: Capabilities := 0x04
  const ERASURE_ATTEST: Capabilities := 0x08
  const HUMAN_INTERACTION: Capabilities := 0x10
  const ALL: Capabilities := 0x1F
  /** What is left once the mission has started. */
  const RUNNING: Capabilities := 0x1E

  predicate Contains(c: Capabilities, other: Capabilities) {
    c & other == other
  }

  predicate IsSubsetOf(c: Capabilities, other: Capabilities) {
    c & other == c
  }

  function Revoke(c: Capabilities, other: Capabilities): Capabilities {
    c & !other
  }

  /** Revoked on erasure: everything but the erasure attestation. */
  const ERASE_MASK: Capabilities := MISSION_INIT | INFER | IDENTITY_ATTEST | HUMAN_INTERACTION

  // ── Events ───────────────────────────────────────────────────────────────

  datatype Event =
    | MissionInit
    | Infer(declaredSecs: u64, disclosureBits: u64, uncertaintyScore: u64)
    | KeyReleased
    | IdentityAttest
    | ErasureAttest
    | RequestHumanVeto
    | HumanCorrection(grant: Grant)
    | Erase
    | WatchdogExpiry
  {
    function Code(): u64 {
      match this
      case MissionInit => 1
      case Infer(_, _, _) => 2
      case KeyReleased => 3
      case IdentityAttest => 4
      case ErasureAttest => 5
      case RequestHumanVeto => 6
      case HumanCorrection(_) => 7
      case Erase => 8
      case WatchdogExpiry => 9
    }

    predicate Erases() {
      Erase? || WatchdogExpiry?
    }
  }

  datatype DenyReason =
    | WrongPhase | CapabilityRevoked | BudgetExhausted | DisclosureBudgetExceeded
    | DeadlineExceeded | UncertaintyTooHigh | CorrectionUnauthorized

  datatype Decision = Admit | Deny(reason: DenyReason)
  {
    function Code(): u64 {
      match this
      case Admit => 0
      case Deny(WrongPhase) => 1
      case Deny(CapabilityRevoked) => 2
      case Deny(BudgetExhausted) => 3
      case Deny(DisclosureBudgetExceeded) => 4
      case Deny(DeadlineExceeded) => 5
      case Deny(UncertaintyTooHigh) => 6
      case Deny(CorrectionUnauthorized) => 7
    }
  }

  /** An event's code tells its kind, and a verdict's code the verdict. */
  lemma CodesTell(e: Event, f: Event, d: Decision, c: Decision)
    ensures e.Code() == f.Code() <==> SameKind(e, f)
    ensures d.Code() == c.Code() <==> d == c
  {
    if d.Deny? && c.Deny? { ReasonsTell(d.reason, c.reason); }
  }

  lemma ReasonsTell(r: DenyReason, q: DenyReason)
    ensures Deny(r).Code() == Deny(q).Code() <==> r == q
  {
  }

  predicate SameKind(e: Event, f: Event) {
    (e.MissionInit? <==> f.MissionInit?) && (e.Infer? <==> f.Infer?) && (e.KeyReleased? <==> f.KeyReleased?)
    && (e.IdentityAttest? <==> f.IdentityAttest?) && (e.ErasureAttest? <==> f.ErasureAttest?)
    && (e.RequestHumanVeto? <==> f.RequestHumanVeto?) && (e.HumanCorrection? <==> f.HumanCorrection?)
    && (e.Erase? <==> f.Erase?)
  }

  // ── State and transition ─────────────────────────────────────────────────

  datatype State = State(
    phase: Phase,
    granted: Capabilities,
    opBudget: u64,
    disclosureBudget: u64,
    elapsed: u64,
    deadline: u64,
    incurred: u64,
    resolved: u64,
    peak: u64,
    threshold: u64,
    anchor: Digest,
    consumed: u64)
  {
    /** Net uncertainty, floored at zero. */
    function Net(): u64 {
      SatSub(incurred, resolved)
    }
  }

  /** `ContainmentState::new`. */
  function New(opBudget: u64, disclosureBudget: u64, deadline: u64, threshold: u64, anchor: Digest): State {
    State(Armed, ALL, opBudget, disclosureBudget, 0, deadline, 0, 0, 0, threshold, anchor, 0)
  }

  function WithElapsed(s: State, elapsed: u64): State {
    s.(elapsed := if elapsed > s.elapsed then elapsed else s.elapsed)
  }

  predicate Precedes(s: State, next: State) {
    && IsSubsetOf(next.granted, s.granted)
    && next.opBudget <= s.opBudget
    && next.disclosureBudget <= s.disclosureBudget
    && next.phase.Rank() >= s.phase.Rank()
    && next.elapsed >= s.elapsed
    && next.deadline == s.deadline
    && next.incurred >= s.incurred
    && next.resolved >= s.resolved
    && next.peak >= s.peak
    && next.peak >= next.Net()
    && next.threshold == s.threshold
    && next.consumed >= s.consumed
    && (next.anchor == s.anchor || next.consumed > s.consumed)
  }

  function Step(H: Hash, s: State, event: Event): (Decision, State) {
    match event
    case Erase => (Admit, EraseState(s))
    case WatchdogExpiry => (Admit, EraseState(s))
    case MissionInit =>
      if s.phase != Armed then (Deny(WrongPhase), s)
      else if !Contains(s.granted, MISSION_INIT) then (Deny(CapabilityRevoked), s)
      else (Admit, s.(phase := Active, granted := Revoke(s.granted, MISSION_INIT)))
    case KeyReleased =>
      if s.phase != Active then (Deny(WrongPhase), s)
      else (Admit, s.(phase := Locked))
    case Infer(declaredSecs, disclosureBits, score) =>
      if s.phase != Active then (Deny(WrongPhase), s)
      else if !Contains(s.granted, INFER) then (Deny(CapabilityRevoked), s)
      else if s.opBudget == 0 then (Deny(BudgetExhausted), s)
      else if disclosureBits > s.disclosureBudget then (Deny(DisclosureBudgetExceeded), s)
      else if SatAdd(s.elapsed, declaredSecs) > s.deadline then (Deny(DeadlineExceeded), s)
      else if SatAdd(s.Net(), score) > s.threshold then (Deny(UncertaintyTooHigh), s)
      else (Admit, s.(opBudget := s.opBudget - 1,
                      disclosureBudget := s.disclosureBudget - disclosureBits,
                      incurred := SatAdd(s.incurred, score),
                      peak := Max(s.peak, SatAdd(s.Net(), score))))
    case RequestHumanVeto =>
      if s.phase != Active then (Deny(WrongPhase), s)
      else if !Contains(s.granted, HUMAN_INTERACTION) then (Deny(CapabilityRevoked), s)
      else (Admit, s)
    case HumanCorrection(grant) =>
      if s.phase != Active then (Deny(WrongPhase), s)
      else if !Contains(s.granted, HUMAN_INTERACTION) then (Deny(CapabilityRevoked), s)
      else if !Authorises(H, grant, s.anchor) then (Deny(CorrectionUnauthorized), s)
      else (Admit, s.(resolved := SatAdd(s.resolved, grant.amount),
                      anchor := grant.nextAnchor,
                      consumed := SatAdd(s.consumed, 1)))
    case IdentityAttest =>
      if s.phase != Active && s.phase != Locked then (Deny(WrongPhase), s)
      else if !Contains(s.granted, IDENTITY_ATTEST) then (Deny(CapabilityRevoked), s)
      else (Admit, s)
    case ErasureAttest =>
      if s.phase != Locked && s.phase != Erased then (Deny(WrongPhase), s)
      else if !Contains(s.granted, ERASURE_ATTEST) then (Deny(CapabilityRevoked), s)
      else (Admit, s)
  }

  function EraseState(s: State): State {
    s.(phase := Erased, granted := Revoke(s.granted, ERASE_MASK), opBudget := 0, disclosureBudget := 0)
  }

  // ── The axioms over all states ───────────────────────────────────────────

  /** The state invariant behind A6: the high-water mark dominates the net figure. */
  predicate PeakDominates(s: State) {
    s.Net() <= s.peak
  }

  predicate WithinThreshold(s: State) {
    s.peak <= s.threshold
  }

  lemma SubsetReflexive(c: Capabilities)
    ensures IsSubsetOf(c, c)
  {
  }

  lemma RevokeShrinks(c: Capabilities, m: Capabilities)
    ensures IsSubsetOf(Revoke(c, m), c)
  {
  }

  lemma SubsetTransitive(a: Capabilities, b: Capabilities, c: Capabilities)
    requires IsSubsetOf(a, b) && IsSubsetOf(b, c)
    ensures IsSubsetOf(a, c)
  {
  }

  /** A correction that would move the anchor, presented when the consumption count is saturated. */
  predicate CountSaturated(H: Hash, s: State, event: Event) {
    event.HumanCorrection? && s.phase == Active && Contains(s.granted, HUMAN_INTERACTION)
    && Authorises(H, event.grant, s.anchor)
    && s.consumed == U64_MAX && event.grant.nextAnchor != s.anchor
  }

  lemma InferPrecedes(H: Hash, s: State, event: Event)
    requires PeakDominates(s) && event.Infer?
    ensures var next := Step(H, s, event).1;
            PeakDominates(next) && (WithinThreshold(s) ==> WithinThreshold(next)) && Precedes(s, next)
  {
    SubsetReflexive(s.granted);
  }

  lemma CorrectionPrecedes(H: Hash, s: State, event: Event)
    requires PeakDominates(s) && event.HumanCorrection?
    ensures var next := Step(H, s, event).1;
            PeakDominates(next) && (WithinThreshold(s) ==> WithinThreshold(next))
            && (Precedes(s, next) <==> !CountSaturated(H, s, event))
  {
    SubsetReflexive(s.granted);
  }

  lemma PlainPrecedes(H: Hash, s: State, event: Event)
    requires PeakDominates(s) && !event.Infer? && !event.HumanCorrection?
    ensures var next := Step(H, s, event).1;
            PeakDominates(next) && (WithinThreshold(s) ==> WithinThreshold(next)) && Precedes(s, next)
  {
    SubsetReflexive(s.granted);
    RevokeShrinks(s.granted, MISSION_INIT);
    RevokeShrinks(s.granted, ERASE_MASK);
  }

  /**
   * A1, A2, A3, A6 and A7 in one: from a state whose mark dominates, the successor is a legal
   * one exactly when the consumption count is not saturated under an admitted correction.
   */
  lemma StepPrecedes(H: Hash, s: State, event: Event)
    requires PeakDominates(s)
    ensures var next := Step(H, s, event).1;
            PeakDominates(next) && (WithinThreshold(s) ==> WithinThreshold(next))
            && (Precedes(s, next) <==> !CountSaturated(H, s, event))
  {
    if event.Infer? {
      InferPrecedes(H, s, event);
    } else if event.HumanCorrection? {
      CorrectionPrecedes(H, s, event);
    } else {
      PlainPrecedes(H, s, event);
    }
  }

  /** The order composes, so it relates the ends of a run and not only neighbours. */
  lemma PrecedesTransitive(a: State, b: State, c: State)
    requires Precedes(a, b) && Precedes(b, c)
    ensures Precedes(a, c)
  {
    SubsetTransitive(c.granted, b.granted, a.granted);
  }

  lemma PrecedesReflexive(s: State)
    ensures Precedes(s, s) <==> PeakDominates(s)
  {
    SubsetReflexive(s.granted);
  }

  /**
   * Admission of an inference in unbounded integers: A4 and A6 are exact, except that a bound
   * of `u64::MAX` bounds nothing because the compared sum saturates.
   */
  lemma InferAdmission(H: Hash, s: State, event: Event)
    requires event.Infer?
    ensures Step(H, s, event).0 == Admit <==>
            && s.phase == Active && Contains(s.granted, INFER) && s.opBudget >= 1
            && event.disclosureBits <= s.disclosureBudget
            && (s.deadline == U64_MAX || s.elapsed + event.declaredSecs <= s.deadline)
            && (s.threshold == U64_MAX || s.Net() + event.uncertaintyScore <= s.threshold)
  {
  }

  /**
   * An admitted inference raises the net figure by its score exactly when nothing was resolved
   * beyond what was incurred and the accumulator has room; otherwise part of it goes unseen.
   */
  lemma NetRisesByScore(H: Hash, s: State, event: Event)
    requires event.Infer? && Step(H, s, event).0 == Admit
    ensures Step(H, s, event).1.Net() == s.Net() + event.uncertaintyScore
       <==> event.uncertaintyScore == 0
            || (s.resolved <= s.incurred && s.incurred + event.uncertaintyScore <= U64_MAX)
  {
  }

  /** A score above the whole threshold is never admitted, whatever was corrected before it. */
  lemma OversizedScoreDenied(H: Hash, s: State, event: Event)
    requires event.Infer? && event.uncertaintyScore > s.threshold
    ensures Step(H, s, event).0.Deny?
  {
  }

  /** A5: erasure is admitted from every state and lands in the terminal phase. */
  lemma EraseAlwaysAdmitted(H: Hash, s: State, event: Event)
    requires event.Erases()
    ensures Step(H, s, event).0 == Admit && Step(H, s, event).1.phase == Erased
    ensures Precedes(s, Step(H, s, event).1) <==> PeakDominates(s)
  {
    RevokeShrinks(s.granted, ERASE_MASK);
  }

  /** A7: net uncertainty falls only through a grant that opens the anchor, which then moves on. */
  lemma OnlyGrantsResolve(H: Hash, s: State, event: Event)
    ensures var next := Step(H, s, event).1;
            (next.resolved > s.resolved || next.anchor != s.anchor || next.consumed != s.consumed)
            ==> event.HumanCorrection? && Authorises(H, event.grant, s.anchor)
                && next.anchor == event.grant.nextAnchor
  {
  }

  /** A denial leaves the state as it was. */
  lemma DenialChangesNothing(H: Hash, s: State, event: Event)
    requires Step(H, s, event).0.Deny?
    ensures Step(H, s, event).1 == s
  {
  }

  /** Erased is absorbing, and in it exactly erasure and the erasure attestation are admitted. */
  lemma ErasedAbsorbs(H: Hash, s: State, event: Event)
    requires s.phase == Erased
    ensures Step(H, s, event).1.phase == Erased
    ensures Step(H, s, event).0 == Admit <==>
              event.Erases() || (event.ErasureAttest? && Contains(s.granted, ERASURE_ATTEST))
  {
  }

  /** A mission starts at most once: the capability is spent by the first start. */
  lemma InitSpendsCapability(H: Hash, s: State)
    requires Step(H, s, MissionInit).0 == Admit
    ensures !Contains(Step(H, s, MissionInit).1.granted, MISSION_INIT)
    ensures Step(H, Step(H, s, MissionInit).1, MissionInit).0 == Deny(WrongPhase)
  {
  }
}
