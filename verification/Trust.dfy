/**
 The proposal machine together with the rules that issue the proposals and learn from them
 (layer6/manager.go, layer6/rule_engine.go:144-150, layer6/learning.go:69-123): evaluations and
 tunings fall anywhere between the steps of approvals, rejections and executions.
 */
module Trust {
  import opened Rules
  import opened RuleEngines
  import P = Proposals

  /** `settings` are the rules as they were last tuned; their counts are the tallies of the machine. */
  datatype State = State(machine: P.State, settings: seq<RuleView>)

  datatype Step =
    | Evaluate(rule: nat, id: string)
    | Act(step: P.Step)
    | TuneAll

  ghost predicate Valid(s: State) {
    |s.settings| == |s.machine.tallies| && P.InRange(s.machine)
  }

  function WithCounts(v: RuleView, t: Tally): RuleView {
    v.(successCount := t.successes, failureCount := t.failures)
  }

  /** Rule number `k` as it is now. */
  function ViewAt(s: State, k: nat): RuleView
    requires k < |s.settings| && k < |s.machine.tallies|
  {
    WithCounts(s.settings[k], s.machine.tallies[k])
  }

  /** An evaluation is won by some rule; what the rule looks like decides whether approval is required. */
  function ProcessStep(s: State, k: nat, id: string): P.Step
    requires k < |s.settings| && k < |s.machine.tallies|
  {
    P.Process(id, s.machine.tallies[k].ruleID, RequiresApproval(ViewAt(s, k)))
  }

  function Next(hasExecutor: bool, s: State, step: Step): State
    requires Valid(s)
  {
    match step
    case Evaluate(k, id) =>
      if k >= |s.settings| then s else s.(machine := P.Next(hasExecutor, s.machine, ProcessStep(s, k, id)))
    case Act(step) =>
      if step.Process? then s else s.(machine := P.Next(hasExecutor, s.machine, step))
    case TuneAll =>
      s.(settings := seq(|s.settings|, k requires 0 <= k < |s.settings| => Tuned(ViewAt(s, k))))
  }

  /** The outcomes recorded for a rule, in order. */
  function OutcomesOf(log: seq<P.LogEntry>, ruleID: string): seq<bool> {
    if log == [] then []
    else
      var n := |log| - 1;
      OutcomesOf(log[..n], ruleID)
        + if log[n].ruleID == ruleID && log[n].event.OutcomeEvent? then [log[n].event.ok] else []
  }

  lemma {:induction false} OutcomesCounted(log: seq<P.LogEntry>, ruleID: string)
    ensures Count(OutcomesOf(log, ruleID), true) == P.OutcomesFor(log, ruleID, true)
    ensures Count(OutcomesOf(log, ruleID), false) == P.OutcomesFor(log, ruleID, false)
  {
    if log != [] {
      var n := |log| - 1;
      OutcomesCounted(log[..n], ruleID);
      var before, e := OutcomesOf(log[..n], ruleID), log[n];
      if e.ruleID == ruleID && e.event.OutcomeEvent? {
        CountAppend(before, e.event.ok);
      } else {
        assert before + [] == before;
      }
    }
  }

  lemma {:induction false} OutcomesExtend(log: seq<P.LogEntry>, more: seq<P.LogEntry>, ruleID: string)
    ensures OutcomesOf(log, ruleID) <= OutcomesOf(log + more, ruleID)
  {
    if more == [] {
      assert log + more == log;
    } else {
      var n := |more| - 1;
      OutcomesExtend(log, more[..n], ruleID);
      assert (log + more)[..|log + more| - 1] == log + more[..n];
    }
  }

  lemma TenStay(v: RuleView, early: seq<bool>, late: seq<bool>)
    requires FirstTenSucceeded(v, early) && early <= late
    ensures FirstTenSucceeded(v, late)
  {
    forall i | 0 <= i < |late| && v.successCount + i < 10 ensures late[i] {
      assert early[i];
    }
  }

  // ---------- Invariant ----------

  /** The rules at the start: one tally for each, with ids of their own. */
  ghost predicate Rulebook(tallies: seq<Tally>, settings: seq<RuleView>) {
    && |settings| == |tallies|
    && (forall k :: 0 <= k < |tallies| ==> tallies[k].ruleID != "")
    && forall i, j :: 0 <= i < j < |tallies| ==> tallies[i].ruleID != tallies[j].ruleID
  }

  /** Rule `k` was set to approve by itself, or has ten successes at the beginning of its record. */
  ghost predicate Earned(tallies: seq<Tally>, settings: seq<RuleView>, log: seq<P.LogEntry>, k: int) {
    && 0 <= k < |tallies| && k < |settings|
    && (settings[k].autoApprove
        || FirstTenSucceeded(WithCounts(settings[k], tallies[k]), OutcomesOf(log, tallies[k].ruleID)))
  }

  ghost predicate Inv(tallies: seq<Tally>, settings: seq<RuleView>, s: State) {
    && Rulebook(tallies, settings) && Valid(s) && |s.settings| == |settings|
    && P.Accounted(tallies, s.machine)
    && (forall k :: 0 <= k < |s.settings| && s.settings[k].autoApprove ==> Earned(tallies, settings, s.machine.log, k))
    && forall i :: 0 <= i < |s.machine.proposals| && !s.machine.proposals[i].requiresApproval ==>
         Issued(tallies, settings, s.machine, i)
  }

  /** Proposal `i` is of a rule that has earned its trust. */
  ghost predicate Issued(tallies: seq<Tally>, settings: seq<RuleView>, m: P.State, i: int)
    requires 0 <= i < |m.proposals|
  {
    exists k :: Earned(tallies, settings, m.log, k) && m.proposals[i].ruleID == tallies[k].ruleID
  }

  /** The tallies now, rule by rule. */
  lemma TalliesNow(tallies: seq<Tally>, settings: seq<RuleView>, m: P.State, k: nat)
    requires Rulebook(tallies, settings) && P.Accounted(tallies, m) && k < |tallies|
    ensures |m.tallies| == |tallies| && m.tallies[k].ruleID == tallies[k].ruleID
    ensures var outcomes := OutcomesOf(m.log, tallies[k].ruleID);
      && m.tallies[k].successes == tallies[k].successes + Count(outcomes, true)
      && m.tallies[k].failures == tallies[k].failures + Count(outcomes, false)
  {
    P.TallyGrowth(tallies, m.log, k);
    OutcomesCounted(m.log, tallies[k].ruleID);
  }

  /** A tuning that promotes a rule finds ten successes at the beginning of its record. */
  lemma PromotionEarned(tallies: seq<Tally>, settings: seq<RuleView>, m: P.State, k: nat)
    requires Rulebook(tallies, settings) && P.Accounted(tallies, m) && k < |tallies|
    requires |m.tallies| == |tallies| && m.tallies[k].successes >= 10 && m.tallies[k].failures == 0
    ensures Earned(tallies, settings, m.log, k)
  {
    TalliesNow(tallies, settings, m, k);
    CountFacts(OutcomesOf(m.log, tallies[k].ruleID));
  }

  lemma EarnedStays(tallies: seq<Tally>, settings: seq<RuleView>, log: seq<P.LogEntry>, after: seq<P.LogEntry>, k: int)
    requires Earned(tallies, settings, log, k) && log <= after
    ensures Earned(tallies, settings, after, k)
  {
    if !settings[k].autoApprove {
      OutcomesExtend(log, after[|log|..], tallies[k].ruleID);
      assert log + after[|log|..] == after;
      TenStay(WithCounts(settings[k], tallies[k]), OutcomesOf(log, tallies[k].ruleID), OutcomesOf(after, tallies[k].ruleID));
    }
  }

  // ---------- Steps ----------

  lemma TuneKeeps(hasExecutor: bool, tallies: seq<Tally>, settings: seq<RuleView>, s: State)
    requires Inv(tallies, settings, s)
    ensures Inv(tallies, settings, Next(hasExecutor, s, TuneAll))
  {
    hide Tuned, FirstTenSucceeded, Earned, Issued, P.Accounted;
    var r := Next(hasExecutor, s, TuneAll);
    forall k | 0 <= k < |r.settings| && r.settings[k].autoApprove ensures Earned(tallies, settings, r.machine.log, k) {
      TunedKeeps(ViewAt(s, k));
      if !s.settings[k].autoApprove {
        PromotionEarned(tallies, settings, s.machine, k);
      }
    }
  }

  /** What a step of the proposal machine does to proposals, history and the number of tallies. */
  lemma MachineGrows(hasExecutor: bool, m: P.State, step: P.Step)
    requires P.InRange(m) && !step.Process?
    ensures var r := P.Next(hasExecutor, m, step);
      && m.log <= r.log && |r.proposals| == |m.proposals|
      && forall i :: 0 <= i < |m.proposals| ==>
           r.proposals[i].ruleID == m.proposals[i].ruleID && r.proposals[i].requiresApproval == m.proposals[i].requiresApproval
  {
    hide BumpFirst, P.Find;
    match step
    case Approve(id) => P.NextDecides(hasExecutor, m, id, P.Find(m.proposals, id));
    case Reject(id) => P.NextDecides(hasExecutor, m, id, P.Find(m.proposals, id));
    case Advance(k, ok) => if k < |m.tasks| { P.AdvancedFacts(hasExecutor, m, k, ok); }
  }

  lemma ActKeeps(hasExecutor: bool, tallies: seq<Tally>, settings: seq<RuleView>, s: State, step: P.Step)
    requires Inv(tallies, settings, s) && !step.Process?
    ensures Inv(tallies, settings, Next(hasExecutor, s, Act(step)))
  {
    hide Earned, Issued, P.Next, P.Accounted;
    var m, r := s.machine, P.Next(hasExecutor, s.machine, step);
    MachineGrows(hasExecutor, m, step);
    P.StepAccounted(hasExecutor, tallies, m, step);
    SameLength(tallies, settings, r);
    forall k | 0 <= k < |s.settings| && s.settings[k].autoApprove ensures Earned(tallies, settings, r.log, k) {
      EarnedStays(tallies, settings, m.log, r.log, k);
    }
    forall i | 0 <= i < |r.proposals| && !r.proposals[i].requiresApproval ensures Issued(tallies, settings, r, i) {
      IssuedStays(tallies, settings, m, r, i);
    }
  }

  lemma SameLength(tallies: seq<Tally>, settings: seq<RuleView>, m: P.State)
    requires Rulebook(tallies, settings) && P.Accounted(tallies, m)
    ensures |m.tallies| == |tallies|
  {
    if tallies == [] {
      NothingReplayed(m.log);
    } else {
      TalliesNow(tallies, settings, m, 0);
    }
  }

  lemma {:induction false} NothingReplayed(log: seq<P.LogEntry>)
    ensures P.Replay([], log) == []
  {
    if log != [] {
      NothingReplayed(log[..|log| - 1]);
    }
  }

  lemma IssuedStays(tallies: seq<Tally>, settings: seq<RuleView>, m: P.State, r: P.State, i: nat)
    requires i < |m.proposals| && Issued(tallies, settings, m, i)
    requires m.log <= r.log && i < |r.proposals| && r.proposals[i].ruleID == m.proposals[i].ruleID
    ensures Issued(tallies, settings, r, i)
  {
    var k :| Earned(tallies, settings, m.log, k) && m.proposals[i].ruleID == tallies[k].ruleID;
    EarnedStays(tallies, settings, m.log, r.log, k);
  }

  lemma EvaluateKeeps(hasExecutor: bool, tallies: seq<Tally>, settings: seq<RuleView>, s: State, k: nat, id: string)
    requires Inv(tallies, settings, s) && k < |s.settings|
    ensures Inv(tallies, settings, Next(hasExecutor, s, Evaluate(k, id)))
  {
    hide Earned, P.Accounted, SuccessRate;
    var m, step := s.machine, ProcessStep(s, k, id);
    var r := P.Next(hasExecutor, m, step);
    P.StepAccounted(hasExecutor, tallies, m, step);
    TalliesNow(tallies, settings, m, k);
    forall i | 0 <= i < |r.proposals| && !r.proposals[i].requiresApproval ensures Issued(tallies, settings, r, i) {
      if i < |m.proposals| {
        IssuedStays(tallies, settings, m, r, i);
      } else {
        assert Earned(tallies, settings, r.log, k);
      }
    }
  }

  function Run(hasExecutor: bool, tallies: seq<Tally>, settings: seq<RuleView>, steps: seq<Step>): (s: State)
    requires |settings| == |tallies|
    ensures Valid(s)
  {
    if steps == [] then State(P.Start(tallies), settings)
    else
      var before := Run(hasExecutor, tallies, settings, steps[..|steps| - 1]);
      NextValid(hasExecutor, before, steps[|steps| - 1]);
      Next(hasExecutor, before, steps[|steps| - 1])
  }

  /** Counting changes no number of rules. */
  lemma NextValid(hasExecutor: bool, s: State, step: Step)
    requires Valid(s)
    ensures Valid(Next(hasExecutor, s, step))
  {
    forall m: P.State, i, ok | 0 <= i < |m.proposals| ensures |P.Recorded(m, i, ok).tallies| == |m.tallies| {
      BumpedLength(m.tallies, m.proposals[i].ruleID, ok);
    }
  }

  lemma {:induction false} BumpedLength(ts: seq<Tally>, id: string, ok: bool)
    ensures |BumpFirst(ts, id, ok)| == |ts|
  {
    if ts != [] {
      BumpedLength(ts[1..], id, ok);
    }
  }

  lemma {:induction false} RunKeeps(hasExecutor: bool, tallies: seq<Tally>, settings: seq<RuleView>, steps: seq<Step>)
    requires Rulebook(tallies, settings)
    ensures Inv(tallies, settings, Run(hasExecutor, tallies, settings, steps))
  {
    if steps != [] {
      var step := steps[|steps| - 1];
      var s := Run(hasExecutor, tallies, settings, steps[..|steps| - 1]);
      RunKeeps(hasExecutor, tallies, settings, steps[..|steps| - 1]);
      match step
      case Evaluate(k, id) => if k < |s.settings| { EvaluateKeeps(hasExecutor, tallies, settings, s, k, id); }
      case Act(step) => if !step.Process? { ActKeeps(hasExecutor, tallies, settings, s, step); }
      case TuneAll => TuneKeeps(hasExecutor, tallies, settings, s);
    }
  }

  /**
   In every interleaving of evaluations, decisions, executions and tunings a proposal skips
   approval only if its rule was set so at the start, or the rule's record begins with ten
   successes: those on record at the start and the outcomes recorded since, in order.
   */
  lemma SkippingApprovalIsEarned(hasExecutor: bool, tallies: seq<Tally>, settings: seq<RuleView>, steps: seq<Step>, i: nat)
    requires Rulebook(tallies, settings)
    requires i < |Run(hasExecutor, tallies, settings, steps).machine.proposals|
    requires !Run(hasExecutor, tallies, settings, steps).machine.proposals[i].requiresApproval
    ensures var m := Run(hasExecutor, tallies, settings, steps).machine;
      exists k :: 0 <= k < |tallies| && m.proposals[i].ruleID == tallies[k].ruleID
        && (settings[k].autoApprove
            || FirstTenSucceeded(WithCounts(settings[k], tallies[k]), OutcomesOf(m.log, tallies[k].ruleID)))
  {
    RunKeeps(hasExecutor, tallies, settings, steps);
    var m := Run(hasExecutor, tallies, settings, steps).machine;
    assert Issued(tallies, settings, m, i);
    var k :| Earned(tallies, settings, m.log, k) && m.proposals[i].ruleID == tallies[k].ruleID;
  }
}
