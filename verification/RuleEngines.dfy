/** The rule engine and the learning engine as objects (layer6/rule_engine.go, layer6/learning.go). */
module RuleEngines {
  import opened Common
  import opened Rules

  class Rule {
    const id: string
    const action: string
    const actionEntity: string
    var conditions: seq<Condition>
    var autoApprove: bool
    var priority: int
    var enabled: bool
    var successCount: nat
    var failureCount: nat

    constructor (id: string, action: string, actionEntity: string, v: RuleView)
      ensures this.id == id && this.action == action && this.actionEntity == actionEntity && View() == v
    {
      this.id, this.action, this.actionEntity := id, action, actionEntity;
      conditions, autoApprove, priority, enabled := v.conditions, v.autoApprove, v.priority, v.enabled;
      successCount, failureCount := v.successCount, v.failureCount;
    }

    function View(): RuleView
      reads this
    {
      RuleView(conditions, autoApprove, priority, enabled, successCount, failureCount)
    }

    method MatchesSummary(s: SystemSummary) returns (b: bool)
      ensures b <==> Rules.MatchesSummary(conditions, s)
    {
      for i := 0 to |conditions|
        invariant forall j :: 0 <= j < i ==> HoldsForSummary(conditions[j], s)
      {
        var cond := conditions[i];
        if cond.eventType != "" {
          return false;
        }
        if cond.metric != "" {
          var val := MetricOf(s, cond.metric);
          if val.None? || !EvalOperator(val.value, cond.operator, cond.value) {
            return false;
          }
        }
      }
      return |conditions| > 0;
    }

    method MatchesEvent(e: SystemEvent, folded: (string, string) -> bool) returns (b: bool)
      ensures b <==> Rules.MatchesEvent(conditions, e, folded)
    {
      for i := 0 to |conditions|
        invariant forall j :: 0 <= j < i ==> HoldsForEvent(conditions[j], e, folded)
      {
        var cond := conditions[i];
        if cond.eventType != "" && e.eventType != cond.eventType {
          return false;
        }
        if cond.contains != "" && !folded(e.description, cond.contains) && !folded(e.eventType, cond.contains) {
          return false;
        }
        if cond.metric != "" {
          if cond.metric !in e.metrics || !EvalOperator(e.metrics[cond.metric], cond.operator, cond.value) {
            return false;
          }
        }
      }
      return |conditions| > 0;
    }

    /** The tuning of one rule: thresholds first, then promotion. */
    method Tune()
      modifies this`conditions, this`autoApprove
      ensures View() == Tuned(old(View())) && Learned(old(View()), View())
    {
      hide SuccessRate, TunedCondition, Learned;
      TuningFromCounts(View());
      ghost var v := View();
      if successCount + failureCount < 5 {
        return;
      }
      var rate, total := SuccessRate(View()), successCount + failureCount;
      for i := 0 to |conditions|
        invariant |conditions| == |v.conditions| && View() == v.(conditions := conditions)
        invariant forall j :: 0 <= j < i ==> conditions[j] == TunedCondition(v.conditions[j], v)
        invariant forall j :: i <= j < |conditions| ==> conditions[j] == v.conditions[j]
      {
        var value := TuneThreshold(conditions[i], rate, total, v);
        conditions := conditions[i := conditions[i].(value := value)];
      }
      assert conditions == TunedConditions(v.conditions, v);
      if !autoApprove && successCount >= 10 && failureCount == 0 {
        autoApprove := true;
      }
    }

    static method TuneThreshold(cond: Condition, rate: real, total: nat, ghost v: RuleView) returns (value: real)
      requires rate == SuccessRate(v) && total == Total(v)
      ensures cond.(value := value) == TunedCondition(cond, v)
    {
      value := cond.value;
      if cond.metric == "" || cond.value == 0.0 {
        return;
      }
      if rate < 0.70 && total >= 10 {
        if cond.operator == ">" || cond.operator == ">=" {
          value := cond.value * 0.95;
        } else {
          value := cond.value * 1.05;
        }
      } else if rate > 0.85 && total >= 20 {
        if cond.operator == ">" || cond.operator == ">=" {
          value := cond.value * 1.02;
        } else {
          value := cond.value * 0.98;
        }
      }
    }
  }

  datatype Draft = Draft(ruleID: string, action: string, entityID: string, priority: int,
                         confidence: real, requiresApproval: bool)

  function Confidence(v: RuleView): real {
    if Total(v) == 0 then 0.75 else SuccessRate(v)
  }

  /** The counts kept for one rule. */
  datatype Tally = Tally(ruleID: string, successes: nat, failures: nat)

  function Bump(t: Tally, succeeded: bool): Tally {
    if succeeded then t.(successes := t.successes + 1) else t.(failures := t.failures + 1)
  }

  /** One more outcome for the first rule with that id, if there is one. */
  function BumpFirst(ts: seq<Tally>, id: string, succeeded: bool): seq<Tally> {
    if ts == [] then []
    else if ts[0].ruleID == id then [Bump(ts[0], succeeded)] + ts[1..]
    else [ts[0]] + BumpFirst(ts[1..], id, succeeded)
  }

  lemma {:induction false} BumpFirstAt(ts: seq<Tally>, id: string, succeeded: bool, i: nat)
    requires i < |ts| && ts[i].ruleID == id && forall j :: 0 <= j < i ==> ts[j].ruleID != id
    ensures BumpFirst(ts, id, succeeded) == ts[i := Bump(ts[i], succeeded)]
  {
    if i > 0 {
      BumpFirstAt(ts[1..], id, succeeded, i - 1);
    }
  }

  lemma {:induction false} BumpFirstAbsent(ts: seq<Tally>, id: string, succeeded: bool)
    requires forall j :: 0 <= j < |ts| ==> ts[j].ruleID != id
    ensures BumpFirst(ts, id, succeeded) == ts
  {
    if ts != [] {
      BumpFirstAbsent(ts[1..], id, succeeded);
    }
  }

  class RuleEngine {
    var rules: seq<Rule>

    ghost predicate Valid()
      reads this
    {
      forall i, j :: 0 <= i < j < |rules| ==> rules[i].id != rules[j].id
    }

    ghost function Tallies(): seq<Tally>
      reads this, rules
    {
      seq(|rules|, i requires 0 <= i < |rules| reads this, rules => Tally(rules[i].id, rules[i].successCount, rules[i].failureCount))
    }

    constructor ()
      ensures Valid() && rules == []
    {
      rules := [];
    }

    /** A rule with a known id takes the place of the old one; a new one comes last. */
    method AddRule(rule: Rule)
      requires Valid()
      modifies this
      ensures Valid()
      ensures forall i :: 0 <= i < |old(rules)| && old(rules)[i].id == rule.id ==> rules == old(rules)[i := rule]
      ensures (forall r :: r in old(rules) ==> r.id != rule.id) ==> rules == old(rules) + [rule]
    {
      for i := 0 to |rules|
        invariant rules == old(rules)
        invariant forall j :: 0 <= j < i ==> rules[j].id != rule.id
      {
        if rules[i].id == rule.id {
          rules := rules[i := rule];
          assert old(rules)[i] in old(rules);
          return;
        }
      }
      rules := rules + [rule];
    }

    /** The rule with the id goes; the others keep their order. */
    method RemoveRule(id: string)
      requires Valid()
      modifies this
      ensures Valid()
      ensures forall i :: 0 <= i < |old(rules)| && old(rules)[i].id == id ==> rules == old(rules)[..i] + old(rules)[i + 1..]
      ensures (forall r :: r in old(rules) ==> r.id != id) ==> rules == old(rules)
    {
      for i := 0 to |rules|
        invariant rules == old(rules)
        invariant forall j :: 0 <= j < i ==> rules[j].id != id
      {
        if rules[i].id == id {
          assert old(rules)[i] in old(rules);
          rules := rules[..i] + rules[i + 1..];
          return;
        }
      }
    }

    /** Counts one outcome for the rule, if there is such a rule. */
    method UpdateStats(id: string, succeeded: bool)
      requires Valid()
      modifies rules
      ensures Valid() && rules == old(rules)
      ensures Tallies() == BumpFirst(old(Tallies()), id, succeeded)
      ensures forall r :: r in rules ==>
        r.View() == if r.id != id then old(r.View()) else NextRule(old(r.View()), RecordOutcome(succeeded))
    {
      hide BumpFirst;
      ghost var before := Tallies();
      for i := 0 to |rules|
        invariant rules == old(rules)
        invariant forall j :: 0 <= j < i ==> rules[j].id != id
        invariant forall r :: r in rules ==> r.View() == old(r.View())
        invariant Tallies() == before
      {
        if rules[i].id == id {
          BumpFirstAt(before, id, succeeded, i);
          var r := rules[i];
          if succeeded {
            r.successCount := r.successCount + 1;
          } else {
            r.failureCount := r.failureCount + 1;
          }
          assert forall j :: 0 <= j < |rules| && j != i ==> rules[j].id != id;
          assert Tallies() == before[i := Bump(before[i], succeeded)];
          return;
        }
      }
      BumpFirstAbsent(before, id, succeeded);
    }

    function DraftFor(rule: Rule, entityID: string): Draft
      reads rule
    {
      Draft(rule.id, rule.action, entityID, rule.priority, Confidence(rule.View()), RequiresApproval(rule.View()))
    }

    /** The draft names rule, action and priority of the rule, and is judged by its record. */
    ghost predicate Drafted(d: Draft, rule: Rule, entityID: string)
      reads rule
    {
      var s, total := rule.successCount, rule.successCount + rule.failureCount;
      && d.ruleID == rule.id && d.action == rule.action && d.entityID == entityID && d.priority == rule.priority
      && (if total == 0 then d.confidence == 0.75 else d.confidence * total as real == s as real)
      && (d.requiresApproval <==> !rule.autoApprove || (total > 5 && 10 * s < 7 * total))
    }

    lemma DraftIsDrafted(rule: Rule, entityID: string)
      ensures Drafted(DraftFor(rule, entityID), rule, entityID)
    {
      var v := rule.View();
      if Total(v) > 0 { RateBelow(v); }
    }

    method BuildProposal(rule: Rule, entityID: string) returns (d: Draft)
      ensures d == DraftFor(rule, entityID) && Drafted(d, rule, entityID)
    {
      DraftIsDrafted(rule, entityID);
      var requiresApproval := !rule.autoApprove;
      if rule.autoApprove && SuccessRate(rule.View()) < 0.7 && rule.successCount + rule.failureCount > 5 {
        requiresApproval := true;
      }
      d := Draft(rule.id, rule.action, entityID, rule.priority, Confidence(rule.View()), requiresApproval);
    }

    /** The rule that answers an event: matching, enabled, of the highest priority, and the first such. */
    ghost predicate Winner(k: int, e: SystemEvent, folded: (string, string) -> bool)
      requires 0 <= k < |rules|
      reads this, rules
    {
      && rules[k].enabled && Rules.MatchesEvent(rules[k].conditions, e, folded)
      && (forall j :: 0 <= j < |rules| && rules[j].enabled && Rules.MatchesEvent(rules[j].conditions, e, folded) ==>
            rules[j].priority < rules[k].priority || (rules[j].priority == rules[k].priority && k <= j))
    }

    method Evaluate(e: SystemEvent, folded: (string, string) -> bool) returns (d: Option<Draft>)
      ensures d.None? <==> forall j :: 0 <= j < |rules| && rules[j].enabled ==> !Rules.MatchesEvent(rules[j].conditions, e, folded)
      ensures d.Some? ==> exists k :: 0 <= k < |rules| && Winner(k, e, folded)
                                      && d.value == DraftFor(rules[k], e.entityID) && Drafted(d.value, rules[k], e.entityID)
    {
      var best: Option<nat> := None;
      for i := 0 to |rules|
        invariant best.Some? ==> best.value < i && rules[best.value].enabled
                                 && Rules.MatchesEvent(rules[best.value].conditions, e, folded)
        invariant best.None? ==> forall j :: 0 <= j < i && rules[j].enabled ==> !Rules.MatchesEvent(rules[j].conditions, e, folded)
        invariant best.Some? ==> forall j :: 0 <= j < i && rules[j].enabled && Rules.MatchesEvent(rules[j].conditions, e, folded) ==>
          rules[j].priority < rules[best.value].priority || (rules[j].priority == rules[best.value].priority && best.value <= j)
      {
        if rules[i].enabled {
          var b := rules[i].MatchesEvent(e, folded);
          if b && (best.None? || rules[i].priority > rules[best.value].priority) {
            best := Some(i);
          }
        }
      }
      if best.None? {
        return None;
      }
      assert Winner(best.value, e, folded);
      var draft := BuildProposal(rules[best.value], e.entityID);
      return Some(draft);
    }

    /** `places` are the enabled rules among the first `n` that match, in order. */
    ghost predicate Firing(places: seq<nat>, s: SystemSummary, n: nat)
      requires n <= |rules|
      reads this, rules
    {
      && (forall x, y :: 0 <= x < y < |places| ==> places[x] < places[y])
      && (forall x :: 0 <= x < |places| ==> places[x] < n)
      && forall k: nat :: k < n ==> (k in places <==> rules[k].enabled && Rules.MatchesSummary(rules[k].conditions, s))
    }

    /** One draft for each of them, about the entity of the action or else about the system. */
    ghost predicate DraftedFor(ds: seq<Draft>, places: seq<nat>)
      reads this, rules
    {
      && |ds| == |places|
      && forall x :: 0 <= x < |ds| ==>
           && places[x] < |rules|
           && Drafted(ds[x], rules[places[x]], if rules[places[x]].actionEntity == "" then "system" else rules[places[x]].actionEntity)
    }

    lemma NoneFiring(s: SystemSummary)
      ensures Firing([], s, 0)
    {
    }

    lemma FiringNext(places: seq<nat>, s: SystemSummary, n: nat)
      requires n < |rules| && Firing(places, s, n)
      ensures Firing(if rules[n].enabled && Rules.MatchesSummary(rules[n].conditions, s) then places + [n] else places, s, n + 1)
    {
      hide Rules.MatchesSummary;
      assert n !in places;
    }

    method EvaluateSummary(s: SystemSummary) returns (ds: seq<Draft>)
      ensures exists places :: Firing(places, s, |rules|) && DraftedFor(ds, places)
    {
      hide Firing, Rules.MatchesSummary, Drafted;
      ds := [];
      ghost var places: seq<nat> := [];
      NoneFiring(s);
      for i := 0 to |rules|
        invariant Firing(places, s, i) && DraftedFor(ds, places)
      {
        FiringNext(places, s, i);
        if rules[i].enabled {
          var b := rules[i].MatchesSummary(s);
          if b {
            var entityID := if rules[i].actionEntity == "" then "system" else rules[i].actionEntity;
            var d := BuildProposal(rules[i], entityID);
            ds := ds + [d];
            places := places + [i];
          }
        }
      }
    }

    /** Tunes every rule. */
    method TuneThresholds()
      requires Valid()
      modifies rules
      ensures Valid() && rules == old(rules)
      ensures forall r :: r in rules ==> r.View() == Tuned(old(r.View())) && Learned(old(r.View()), r.View())
    {
      hide Learned, Tuned;
      for i := 0 to |rules|
        invariant rules == old(rules)
        invariant forall j :: 0 <= j < i ==>
          rules[j].View() == Tuned(old(rules[j].View())) && Learned(old(rules[j].View()), rules[j].View())
        invariant forall j :: i <= j < |rules| ==> rules[j].View() == old(rules[j].View())
      {
        rules[i].Tune();
        assert forall j :: 0 <= j < |rules| && j != i ==> rules[j] != rules[i];
      }
    }
  }
}
