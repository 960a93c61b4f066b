/**
 * Whole-run consequences of A6 and A7: which grants a run can spend, and how much reported
 * uncertainty it can incur (`crates/chronos-core/src/containment.rs`, `correction.rs`).
 */
module Humility {
  import opened Words
  import opened Correction
  import opened Containment
  import opened Ledger

  lemma {:induction false} MessagesSnoc(gs: seq<Grant>, g: Grant)
    ensures Messages(gs + [g]) == Messages(gs) + [LinkMessage(g)]
  {
    if gs != [] {
      assert (gs + [g])[1..] == gs[1..] + [g];
      MessagesSnoc(gs[1..], g);
    } else {
      assert (gs + [g])[1..] == [];
    }
  }

  lemma CollidesSnoc(H: Hash, ms: seq<bytes>, gs: seq<Grant>, g: Grant)
    requires Collides(H, ms, Messages(gs))
    ensures Collides(H, ms, Messages(gs + [g]))
  {
    MessagesSnoc(gs, g);
    CollidesMore(H, ms, Messages(gs), ms, Messages(gs + [g]));
  }

  /** The run has spent a prefix of the issued grants and its state shows exactly that prefix. */
  ghost predicate FollowsChain(H: Hash, specs: seq<Spec>, s: State, gs: seq<Grant>) {
    && SpendsFrom(H, Anchor(H, specs), gs)
    && gs <= Issued(H, specs)
    && s.anchor == AnchorAfter(Anchor(H, specs), gs)
    && s.consumed == |gs|
    && s.resolved == Min(AmountSum(gs), U64_MAX)
  }

  /** One admitted correction extends the prefix by one issued grant, or exhibits a collision. */
  lemma CorrectionExtends(H: Hash, specs: seq<Spec>, s: State, gs: seq<Grant>, g: Grant)
    requires |specs| <= U64_MAX && PeakDominates(s) && FollowsChain(H, specs, s, gs)
    requires Step(H, s, HumanCorrection(g)).0 == Admit
    ensures FollowsChain(H, specs, Commit(s, Step(H, s, HumanCorrection(g)).1), gs + [g])
         || Collides(H, Messages(Issued(H, specs)), Messages(gs + [g]))
  {
    var gs' := gs + [g];
    SpendsSnoc(H, Anchor(H, specs), gs, g);
    SpentIsPrefix(H, specs, gs');
    StepPrecedes(H, s, HumanCorrection(g));
    assert gs'[..|gs|] == gs;
    assert AmountSum(gs') == AmountSum(gs) + g.amount;
  }

  /**
   * A7 over a run: starting from a published anchor, the admitted grants are in order a prefix
   * of the issued ones, and anchor, count and saturated sum are those of the prefix; otherwise
   * an issued and an admitted message are different and hash alike.
   */
  lemma {:induction false} GrantsFollowChain(H: Hash, p: Params, specs: seq<Spec>, ops: seq<Op>)
    requires p.anchor == Anchor(H, specs) && |specs| <= U64_MAX
    ensures var gs := GrantsUsed(Log(H, p, ops));
            FollowsChain(H, specs, Run(H, p, ops).state, gs)
            || Collides(H, Messages(Issued(H, specs)), Messages(gs))
  {
    if ops != [] {
      var before, op := ops[..|ops| - 1], ops[|ops| - 1];
      GrantsFollowChain(H, p, specs, before);
      if op.Submit? {
        LogSnoc(H, p, ops);
        var s, gs := Run(H, p, before).state, GrantsUsed(Log(H, p, before));
        if op.event.HumanCorrection? && Step(H, s, op.event).0 == Admit {
          if FollowsChain(H, specs, s, gs) {
            RunReachable(H, p, before);
            CorrectionExtends(H, specs, s, gs, op.event.grant);
          } else {
            CollidesSnoc(H, Messages(Issued(H, specs)), gs, op.event.grant);
          }
        } else {
          OnlyGrantsResolve(H, s, op.event);
          ResolvedKept(H, s, op.event);
          assert GrantsUsed(Log(H, p, ops)) == gs;
        }
      }
    }
  }

  lemma ResolvedKept(H: Hash, s: State, event: Event)
    requires !(event.HumanCorrection? && Step(H, s, event).0 == Admit)
    ensures var c := Commit(s, Step(H, s, event).1);
            c.resolved == s.resolved && c.anchor == s.anchor && c.consumed == s.consumed
  {
  }

  /** No grant value is admitted twice in a run, unless the hash is broken on a known message. */
  lemma GrantsSpentOnce(H: Hash, p: Params, specs: seq<Spec>, ops: seq<Op>, i: nat, j: nat)
    requires p.anchor == Anchor(H, specs) && |specs| <= U64_MAX
    requires i < j < |GrantsUsed(Log(H, p, ops))|
    requires GrantsUsed(Log(H, p, ops))[i] == GrantsUsed(Log(H, p, ops))[j]
    ensures var issued := Messages(Issued(H, specs));
            HitsEnd(H, issued) || Collides(H, issued, issued)
            || Collides(H, issued, Messages(GrantsUsed(Log(H, p, ops))))
  {
    GrantsFollowChain(H, p, specs, ops);
    var gs, issued := GrantsUsed(Log(H, p, ops)), Issued(H, specs);
    if gs <= issued {
      assert issued[i] == gs[i] && issued[j] == gs[j];
      IssuedDistinct(H, specs, i, j);
    }
  }

  // ── The true sum of scores ───────────────────────────────────────────────

  /** An inference admitted under bounds that leave room does not saturate the accumulator. */
  lemma InferenceExact(H: Hash, s: State, event: Event, credit: nat)
    requires event.Infer? && Step(H, s, event).0 == Admit && PeakDominates(s)
    requires s.threshold < U64_MAX && s.resolved <= credit && s.threshold + credit <= U64_MAX
    requires s.incurred <= s.resolved + s.threshold
    ensures Commit(s, Step(H, s, event).1).incurred == s.incurred + event.uncertaintyScore
  {
    StepPrecedes(H, s, event);
    InferAdmission(H, s, event);
  }

  lemma IncurredKept(H: Hash, s: State, event: Event)
    requires !(event.Infer? && Step(H, s, event).0 == Admit)
    ensures Commit(s, Step(H, s, event).1).incurred == s.incurred
  {
  }

  /**
   * The true sum of admitted scores, not the saturated one, stays within the threshold plus
   * what the admitted grants resolved, as long as that bound is itself a `u64` below the
   * saturation point.
   */
  lemma {:induction false} ScoresBounded(H: Hash, p: Params, ops: seq<Op>)
    requires p.threshold < U64_MAX && p.threshold + AmountSum(GrantsUsed(Log(H, p, ops))) <= U64_MAX
    ensures var s, log := Run(H, p, ops).state, Log(H, p, ops);
            s.incurred == ScoreSum(log) && s.resolved <= AmountSum(GrantsUsed(log))
            && ScoreSum(log) <= p.threshold + AmountSum(GrantsUsed(log))
  {
    UncertaintyBounded(H, p, ops);
    if ops != [] {
      var before, op := ops[..|ops| - 1], ops[|ops| - 1];
      if op.Submit? {
        LogSnoc(H, p, ops);
        var s, gs := Run(H, p, before).state, GrantsUsed(Log(H, p, before));
        assert gs <= GrantsUsed(Log(H, p, ops));
        AmountSumPrefix(gs, GrantsUsed(Log(H, p, ops)));
        ScoresBounded(H, p, before);
        UncertaintyBounded(H, p, before);
        RunReachable(H, p, before);
        if op.event.Infer? && Step(H, s, op.event).0 == Admit {
          InferenceExact(H, s, op.event, AmountSum(gs));
          ResolvedKept(H, s, op.event);
        } else {
          IncurredKept(H, s, op.event);
          CreditStep(H, s, op.event, gs);
        }
      } else {
        ScoresBounded(H, p, before);
      }
    }
  }

  lemma CreditStep(H: Hash, s: State, event: Event, gs: seq<Grant>)
    requires s.resolved <= AmountSum(gs)
    ensures var admitted := event.HumanCorrection? && Step(H, s, event).0 == Admit;
            Commit(s, Step(H, s, event).1).resolved
            <= AmountSum(gs + (if admitted then [event.grant] else []))
  {
    if event.HumanCorrection? && Step(H, s, event).0 == Admit {
      ResolvedGrows(H, s, event.grant);
      assert (gs + [event.grant])[..|gs|] == gs;
    } else {
      ResolvedKept(H, s, event);
      assert gs + [] == gs;
    }
  }

  lemma ResolvedGrows(H: Hash, s: State, g: Grant)
    ensures Commit(s, Step(H, s, HumanCorrection(g)).1).resolved <= s.resolved + g.amount
  {
  }

  /** With a published chain the operator fixes that bound in advance, absent a collision. */
  lemma ScoresBoundedByChain(H: Hash, p: Params, specs: seq<Spec>, ops: seq<Op>)
    requires p.anchor == Anchor(H, specs) && |specs| <= U64_MAX
    requires p.threshold < U64_MAX && p.threshold + AmountSum(Issued(H, specs)) <= U64_MAX
    ensures ScoreSum(Log(H, p, ops)) <= p.threshold + AmountSum(Issued(H, specs))
         || Collides(H, Messages(Issued(H, specs)), Messages(GrantsUsed(Log(H, p, ops))))
  {
    GrantsFollowChain(H, p, specs, ops);
    if FollowsChain(H, specs, Run(H, p, ops).state, GrantsUsed(Log(H, p, ops))) {
      AmountSumPrefix(GrantsUsed(Log(H, p, ops)), Issued(H, specs));
      ScoresBounded(H, p, ops);
    }
  }

  // ── Where the stronger readings fail ─────────────────────────────────────

  lemma RunSnoc(H: Hash, p: Params, ops: seq<Op>, event: Event)
    ensures var l := Run(H, p, ops);
            Run(H, p, ops + [Submit(event)]) == AdmitEvent(H, l, event).0
            && Log(H, p, ops + [Submit(event)]) == Log(H, p, ops) + [Entry(event, Step(H, l.state, event).0)]
  {
    var all := ops + [Submit(event)];
    assert all[..|all| - 1] == ops;
  }

  lemma StartMission(H: Hash, p: Params)
    ensures var ops := [Submit(MissionInit)];
            Run(H, p, ops).state == p.Start().(phase := Active, granted := RUNNING)
            && Log(H, p, ops) == [Entry(MissionInit, Admit)]
  {
    RunSnoc(H, p, [], MissionInit);
    assert Revoke(ALL, MISSION_INIT) == RUNNING && Contains(ALL, MISSION_INIT);
    StepPrecedes(H, p.Start(), MissionInit);
    assert [] + [Submit(MissionInit)] == [Submit(MissionInit)];
  }

  /** One inference of the given score, admitted and committed. */
  lemma ScoreStep(H: Hash, p: Params, ops: seq<Op>, score: u64)
    requires var s := Run(H, p, ops).state;
             s.phase == Active && s.granted == RUNNING && s.opBudget > 0 && s.elapsed <= s.deadline
             && SatAdd(s.Net(), score) <= s.threshold
    ensures var s, ops' := Run(H, p, ops).state, ops + [Submit(Infer(0, 0, score))];
            Run(H, p, ops').state == s.(opBudget := s.opBudget - 1, incurred := SatAdd(s.incurred, score),
                                        peak := Max(s.peak, SatAdd(s.Net(), score)))
            && ScoreSum(Log(H, p, ops')) == ScoreSum(Log(H, p, ops)) + score
            && GrantsUsed(Log(H, p, ops')) == GrantsUsed(Log(H, p, ops))
  {
    var event := Infer(0, 0, score);
    var s := Run(H, p, ops).state;
    RunSnoc(H, p, ops, event);
    RunReachable(H, p, ops);
    assert Contains(RUNNING, INFER);
    StepPrecedes(H, s, event);
    var log, log' := Log(H, p, ops), Log(H, p, ops + [Submit(event)]);
    assert log'[..|log|] == log && log'[|log|] == Entry(event, Admit);
  }

  /** With the deadline `u64::MAX` A4 as stated fails one second into a mission. */
  lemma DeadlineMaxAdmitsOverrun(H: Hash)
    ensures var p := Params(1, 0, U64_MAX, 0, CHAIN_END);
            var s := Run(H, p, [Submit(MissionInit)] + [Clock(1)]).state;
            Step(H, s, Infer(U64_MAX, 0, 0)).0 == Admit && s.elapsed + U64_MAX > s.deadline
  {
    var p := Params(1, 0, U64_MAX, 0, CHAIN_END);
    var ops := [Submit(MissionInit)] + [Clock(1)];
    StartMission(H, p);
    assert ops[..1] == [Submit(MissionInit)] && ops[1] == Clock(1);
    assert Contains(RUNNING, INFER);
  }

  /** With the threshold `u64::MAX` the sum has no bound: it passes the threshold in two steps. */
  lemma ThresholdMaxBoundsNothing(H: Hash)
    ensures var p := Params(2, 0, 0, U64_MAX, CHAIN_END);
            var ops := [Submit(MissionInit)] + [Submit(Infer(0, 0, U64_MAX))] + [Submit(Infer(0, 0, 1))];
            GrantsUsed(Log(H, p, ops)) == [] && ScoreSum(Log(H, p, ops)) == p.threshold + 1
  {
    var p := Params(2, 0, 0, U64_MAX, CHAIN_END);
    var one := [Submit(MissionInit)];
    StartMission(H, p);
    assert [Entry(MissionInit, Admit)][..0] == [];
    ScoreStep(H, p, one, U64_MAX);
    ScoreStep(H, p, one + [Submit(Infer(0, 0, U64_MAX))], 1);
  }

  /**
   * A correction of uncertainty that was never incurred does buy headroom: with threshold 100,
   * after a grant of 50 inferences of 100 and 50 are admitted, 150 in all; and the mark then
   * stands at 100 although the net figure after the first of them was 50.
   */
  lemma OverCorrectionBuysHeadroom(H: Hash, g: Grant)
    requires g.amount == 50 && Link(H, g) != CHAIN_END
    ensures var p := Params(2, 0, 0, 100, Link(H, g));
            var first := [Submit(MissionInit)] + [Submit(HumanCorrection(g))] + [Submit(Infer(0, 0, 100))];
            var ops := first + [Submit(Infer(0, 0, 50))];
            Run(H, p, first).state.Net() == 50 && Run(H, p, first).state.peak == 100
            && Run(H, p, ops).state.incurred == 150 && Run(H, p, ops).state.opBudget == 0
  {
    var p := Params(2, 0, 0, 100, Link(H, g));
    var one := [Submit(MissionInit)];
    var two := one + [Submit(HumanCorrection(g))];
    var three := two + [Submit(Infer(0, 0, 100))];
    StartMission(H, p);
    assert Contains(RUNNING, HUMAN_INTERACTION);
    RunSnoc(H, p, one, HumanCorrection(g));
    StepPrecedes(H, Run(H, p, one).state, HumanCorrection(g));
    ScoreStep(H, p, two, 100);
    ScoreStep(H, p, three, 50);
  }
}
