/**
 * Exactly when the uncertainty an operator's grants allow is bounded by the threshold plus the
 * amounts granted, over every run and every operation budget
 * (`crates/chronos-core/src/containment.rs`).
 */
module ScoreBound {
  import opened Words
  import opened Correction
  import opened Containment
  import opened Ledger
  import opened Humility

  /** In no run that spends exactly these grants do the admitted scores pass threshold plus amounts. */
  ghost predicate BoundHolds(H: Hash, threshold: u64, anchor: Digest, gs: seq<Grant>) {
    forall p: Params, ops: seq<Op> ::
      p.threshold == threshold && p.anchor == anchor && GrantsUsed(Log(H, p, ops)) == gs
      ==> ScoreSum(Log(H, p, ops)) <= threshold + AmountSum(gs)
  }

  /** The sum stays below saturation, or the largest operation budget cannot get past it. */
  predicate Bounded(threshold: u64, total: nat) {
    (threshold < U64_MAX && threshold + total <= U64_MAX) || U64_MAX * threshold <= threshold + total
  }

  // ── Why the bound holds ──────────────────────────────────────────────────

  /** Every admitted score is within the threshold, so the sum is within budget times threshold. */
  lemma {:induction false} ScoresWithinBudget(H: Hash, p: Params, ops: seq<Op>)
    ensures ScoreSum(Log(H, p, ops)) <= Inferences(Log(H, p, ops)) * p.threshold
  {
    if ops != [] {
      var before, op := ops[..|ops| - 1], ops[|ops| - 1];
      ScoresWithinBudget(H, p, before);
      if op.Submit? {
        LogSnoc(H, p, ops);
        RunReachable(H, p, before);
        var s := Run(H, p, before).state;
        if op.event.Infer? && op.event.uncertaintyScore > s.threshold { OversizedScoreDenied(H, s, op.event); }
        OneMore(Inferences(Log(H, p, before)), p.threshold);
      }
    }
  }

  lemma OneMore(n: nat, t: nat)
    ensures (n + 1) * t == n * t + t
  {
  }

  lemma ProductGrows(m: nat, n: nat, t: nat)
    requires m <= n
    ensures m * t <= n * t
  {
  }

  lemma BoundedHolds(H: Hash, threshold: u64, anchor: Digest, gs: seq<Grant>)
    requires Bounded(threshold, AmountSum(gs))
    ensures BoundHolds(H, threshold, anchor, gs)
  {
    forall p: Params, ops: seq<Op> |
      p.threshold == threshold && p.anchor == anchor && GrantsUsed(Log(H, p, ops)) == gs
      ensures ScoreSum(Log(H, p, ops)) <= threshold + AmountSum(gs)
    {
      if threshold < U64_MAX && threshold + AmountSum(gs) <= U64_MAX {
        ScoresBounded(H, p, ops);
      } else {
        ScoresWithinBudget(H, p, ops);
        BudgetsConserved(H, p, ops);
        ProductGrows(Inferences(Log(H, p, ops)), U64_MAX, threshold);
      }
    }
  }

  // ── The runs that pass it ────────────────────────────────────────────────

  /** Start the mission and spend the grants. */
  function SpendAll(gs: seq<Grant>): seq<Op> {
    if gs == [] then [Submit(MissionInit)]
    else SpendAll(gs[..|gs| - 1]) + [Submit(HumanCorrection(gs[|gs| - 1]))]
  }

  /** A mission running with the initial capabilities, its clock at zero. */
  predicate Fresh(p: Params, s: State) {
    s.phase == Active && s.granted == RUNNING && s.elapsed == 0 && s.threshold == p.threshold && s.deadline == p.deadline
  }

  lemma {:induction false} SpendAllRuns(H: Hash, p: Params, gs: seq<Grant>)
    requires SpendsFrom(H, p.anchor, gs) && |gs| <= U64_MAX
    ensures var s, log := Run(H, p, SpendAll(gs)).state, Log(H, p, SpendAll(gs));
            Fresh(p, s) && s.opBudget == p.opBudget && s.incurred == 0 && s.resolved == Min(AmountSum(gs), U64_MAX)
            && s.anchor == AnchorAfter(p.anchor, gs) && s.consumed == |gs|
            && GrantsUsed(log) == gs && ScoreSum(log) == 0
  {
    if gs == [] {
      StartMission(H, p);
      assert [Entry(MissionInit, Admit)][..0] == [];
    } else {
      var front, g := gs[..|gs| - 1], gs[|gs| - 1];
      assert gs == front + [g];
      SpendsSnoc(H, p.anchor, front, g);
      SpendAllRuns(H, p, front);
      SpendOne(H, p, SpendAll(front), g);
    }
  }

  lemma SpendOne(H: Hash, p: Params, ops: seq<Op>, g: Grant)
    requires var s := Run(H, p, ops).state;
             Fresh(p, s) && Authorises(H, g, s.anchor) && s.consumed < U64_MAX
    ensures var s, ops' := Run(H, p, ops).state, ops + [Submit(HumanCorrection(g))];
            Run(H, p, ops').state
            == s.(resolved := SatAdd(s.resolved, g.amount), anchor := g.nextAnchor, consumed := s.consumed + 1)
            && GrantsUsed(Log(H, p, ops')) == GrantsUsed(Log(H, p, ops)) + [g]
            && ScoreSum(Log(H, p, ops')) == ScoreSum(Log(H, p, ops))
  {
    var s := Run(H, p, ops).state;
    RunSnoc(H, p, ops, HumanCorrection(g));
    RunReachable(H, p, ops);
    assert Contains(RUNNING, HUMAN_INTERACTION);
    StepPrecedes(H, s, HumanCorrection(g));
    var log, log' := Log(H, p, ops), Log(H, p, ops + [Submit(HumanCorrection(g))]);
    assert log'[..|log|] == log && log'[|log|] == Entry(HumanCorrection(g), Admit);
  }

  /** The sum of `k` equal scores. */
  function Total(score: nat, k: nat): nat {
    if k == 0 then 0 else Total(score, k - 1) + score
  }

  lemma {:induction false} TotalIsProduct(score: nat, k: nat)
    ensures Total(score, k) == k * score
  {
    if k > 0 {
      TotalIsProduct(score, k - 1);
      OneMore(k - 1, score);
    }
  }

  lemma {:induction false} TotalGrows(score: nat, i: nat, k: nat)
    requires i <= k
    ensures Total(score, i) <= Total(score, k)
  {
    if i < k { TotalGrows(score, i, k - 1); }
  }

  /** What has accumulated after `i` of them. */
  function Level(incurred: u64, score: u64, i: nat): (l: u64)
  {
    Min(incurred + Total(score, i), U64_MAX)
  }

  /** The score is admitted at every level met on the way. */
  ghost predicate FitsAlong(s: State, score: u64, k: nat) {
    forall i: nat :: i < k ==> SatAdd(SatSub(Level(s.incurred, score, i), s.resolved), score) <= s.threshold
  }

  /** The state after `k` more of the same score. */
  predicate Ahead(p: Params, s: State, s': State, score: u64, k: nat) {
    Fresh(p, s') && s'.opBudget == s.opBudget - k && s'.resolved == s.resolved
    && s'.incurred == Level(s.incurred, score, k)
  }

  predicate ScoreFits(p: Params, s: State, score: u64) {
    Fresh(p, s) && s.opBudget > 0 && SatAdd(s.Net(), score) <= s.threshold
  }

  lemma AheadFits(p: Params, s: State, s': State, score: u64, k: nat, i: nat)
    requires Fresh(p, s) && FitsAlong(s, score, k) && Ahead(p, s, s', score, i) && i < k <= s.opBudget
    ensures ScoreFits(p, s', score)
  {
    assert SatAdd(SatSub(Level(s.incurred, score, i), s.resolved), score) <= s.threshold;
  }

  lemma AheadNext(p: Params, s: State, s': State, next: State, score: u64, i: nat)
    requires Ahead(p, s, s', score, i) && Fresh(p, next)
    requires next.opBudget == s'.opBudget - 1 && next.resolved == s'.resolved
    requires next.incurred == SatAdd(s'.incurred, score)
    ensures Ahead(p, s, next, score, i + 1)
  {
  }

  lemma ScoredOnce(H: Hash, p: Params, ops: seq<Op>, score: u64)
    requires ScoreFits(p, Run(H, p, ops).state, score)
    ensures var ops' := ops + [Submit(Infer(0, 0, score))];
            var s, s' := Run(H, p, ops).state, Run(H, p, ops').state;
            Fresh(p, s') && s'.opBudget == s.opBudget - 1 && s'.resolved == s.resolved
            && s'.incurred == SatAdd(s.incurred, score)
            && ScoreSum(Log(H, p, ops')) == ScoreSum(Log(H, p, ops)) + score
            && GrantsUsed(Log(H, p, ops')) == GrantsUsed(Log(H, p, ops))
  {
    ScoreStep(H, p, ops, score);
  }

  /** A run in which that state, sum and those grants are what it comes to. */
  predicate ComesTo(H: Hash, p: Params, ops: seq<Op>, s: State, sum: nat, gs: seq<Grant>) {
    Run(H, p, ops).state == s && ScoreSum(Log(H, p, ops)) == sum && GrantsUsed(Log(H, p, ops)) == gs
  }

  lemma ScoreMore(H: Hash, p: Params, ops: seq<Op>, s: State, sum: nat, gs: seq<Grant>, score: u64)
    returns (ops': seq<Op>, next: State)
    requires ComesTo(H, p, ops, s, sum, gs) && ScoreFits(p, s, score)
    ensures ComesTo(H, p, ops', next, sum + score, gs)
    ensures Fresh(p, next) && next.opBudget == s.opBudget - 1 && next.resolved == s.resolved
    ensures next.incurred == SatAdd(s.incurred, score)
  {
    ScoredOnce(H, p, ops, score);
    ops' := ops + [Submit(Infer(0, 0, score))];
    next := Run(H, p, ops').state;
  }

  lemma {:induction false} ScoredRuns(H: Hash, p: Params, ops: seq<Op>, s: State, sum: nat, gs: seq<Grant>,
                                      score: u64, k: nat)
    returns (ops': seq<Op>, s': State)
    requires ComesTo(H, p, ops, s, sum, gs) && Fresh(p, s) && s.opBudget >= k && FitsAlong(s, score, k)
    ensures Ahead(p, s, s', score, k) && ComesTo(H, p, ops', s', sum + Total(score, k), gs)
  {
    if k == 0 {
      ops', s' := ops, s;
    } else {
      var front, before := ScoredRuns(H, p, ops, s, sum, gs, score, k - 1);
      AheadFits(p, s, before, score, k, k - 1);
      ops', s' := ScoreMore(H, p, front, before, sum + Total(score, k - 1), gs, score);
      AheadNext(p, s, before, s', score, k - 1);
    }
  }

  lemma PassedBy(H: Hash, p: Params, ops: seq<Op>, s: State, sum: nat, gs: seq<Grant>)
    requires ComesTo(H, p, ops, s, sum, gs) && sum > p.threshold + AmountSum(gs)
    ensures !BoundHolds(H, p.threshold, p.anchor, gs)
  {
    assert ScoreSum(Log(H, p, ops)) == sum;
  }

  /** The mission started and the grants spent. */
  lemma SpentRun(H: Hash, p: Params, gs: seq<Grant>) returns (ops: seq<Op>, s: State)
    requires SpendsFrom(H, p.anchor, gs) && |gs| <= U64_MAX
    ensures ComesTo(H, p, ops, s, 0, gs) && Fresh(p, s) && s.opBudget == p.opBudget
    ensures s.incurred == 0 && s.resolved == Min(AmountSum(gs), U64_MAX)
  {
    SpendAllRuns(H, p, gs);
    ops := SpendAll(gs);
    s := Run(H, p, ops).state;
  }

  /** One score repeated to the end of the largest budget. */
  lemma PassesByRepeating(H: Hash, threshold: u64, anchor: Digest, gs: seq<Grant>)
    requires SpendsFrom(H, anchor, gs) && |gs| <= U64_MAX
    requires threshold == U64_MAX || AmountSum(gs) >= U64_MAX
    requires U64_MAX * threshold > threshold + AmountSum(gs)
    ensures !BoundHolds(H, threshold, anchor, gs)
  {
    var p := Params(U64_MAX, 0, 0, threshold, anchor);
    var spent, s := SpentRun(H, p, gs);
    var ops, s' := ScoredRuns(H, p, spent, s, 0, gs, threshold, U64_MAX);
    TotalIsProduct(threshold, U64_MAX);
    PassedBy(H, p, ops, s', Total(threshold, U64_MAX), gs);
  }

  lemma QuotientSmall(total: nat, t: nat, j: nat, rest: nat)
    requires t >= 2 && total == j * t + rest
    ensures j > 0 ==> j + rest + 1 <= total
  {
    if j > 0 { assert j * t >= j * 2; }
  }

  /** How often the threshold fits into the amounts, what remains, and that a budget suffices. */
  lemma BudgetSuffices(threshold: nat, total: nat) returns (j: nat, rest: nat)
    requires threshold < U64_MAX && total < U64_MAX && threshold + total > U64_MAX
    ensures Total(threshold, j) + rest == total && rest < threshold && j + rest + 2 <= U64_MAX
  {
    j, rest := total / threshold, total % threshold;
    QuotientSmall(total, threshold, j, rest);
    TotalIsProduct(threshold, j);
    assert j == 0 ==> rest == total;
  }

  lemma FitsWhileCovered(s: State, threshold: u64, total: u64, j: nat)
    requires s.incurred == 0 && s.resolved == total && s.threshold == threshold && Total(threshold, j) <= total
    ensures FitsAlong(s, threshold, j + 1)
  {
    forall i: nat | i < j + 1 ensures SatAdd(SatSub(Level(0, threshold, i), total), threshold) <= threshold {
      TotalGrows(threshold, i, j);
    }
  }

  /** What saturation leaves of the threshold fits at any level. */
  lemma LeftFits(s: State, left: u64, k: nat)
    requires s.resolved + s.threshold == U64_MAX + left
    ensures FitsAlong(s, left, k)
  {
  }

  /** The whole threshold while the grants still cover it, then what saturation leaves, each time. */
  lemma PassesBySaturating(H: Hash, threshold: u64, anchor: Digest, gs: seq<Grant>)
    requires SpendsFrom(H, anchor, gs) && |gs| <= U64_MAX
    requires threshold < U64_MAX && AmountSum(gs) < U64_MAX && threshold + AmountSum(gs) > U64_MAX
    ensures !BoundHolds(H, threshold, anchor, gs)
  {
    var j, rest := BudgetSuffices(threshold, AmountSum(gs));
    var p := Params(U64_MAX, 0, 0, threshold, anchor);
    var k, more := j + 1, rest + 1;
    var left: u64 := threshold + AmountSum(gs) - U64_MAX;
    var spent, s := SpentRun(H, p, gs);
    FitsWhileCovered(s, threshold, AmountSum(gs), j);
    var covered, s1 := ScoredRuns(H, p, spent, s, 0, gs, threshold, k);
    LeftFits(s1, left, more);
    var ops, s2 := ScoredRuns(H, p, covered, s1, Total(threshold, k), gs, left, more);
    TotalAtLeast(left, more);
    assert Total(threshold, k) == Total(threshold, j) + threshold;
    PassedBy(H, p, ops, s2, Total(threshold, k) + Total(left, more), gs);
  }

  lemma {:induction false} TotalAtLeast(score: nat, k: nat)
    requires score >= 1
    ensures Total(score, k) >= k
  {
    if k > 0 { TotalAtLeast(score, k - 1); }
  }

  /**
   * For all thresholds and grants spendable from the anchor, the admitted scores stay within
   * threshold plus amounts in every run exactly when that sum is below saturation, or no
   * operation budget is large enough to get past it.
   */
  lemma BoundHoldsExactly(H: Hash, threshold: u64, anchor: Digest, gs: seq<Grant>)
    requires SpendsFrom(H, anchor, gs) && |gs| <= U64_MAX
    ensures BoundHolds(H, threshold, anchor, gs) <==> Bounded(threshold, AmountSum(gs))
  {
    if Bounded(threshold, AmountSum(gs)) {
      BoundedHolds(H, threshold, anchor, gs);
    } else if threshold == U64_MAX || AmountSum(gs) >= U64_MAX {
      PassesByRepeating(H, threshold, anchor, gs);
    } else {
      PassesBySaturating(H, threshold, anchor, gs);
    }
  }
}
