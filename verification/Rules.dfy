/**
 Detection rules, how they match, and how they learn from outcomes (layer6/rule.go,
 layer6/rule_engine.go:126-278, layer6/learning.go:66-123), as values and functions.
 */
module Rules {
  import opened Common

  datatype Condition = Condition(metric: string, operator: string, value: real, eventType: string, contains: string)

  datatype RuleView = RuleView(
    conditions: seq<Condition>, autoApprove: bool, priority: int, enabled: bool,
    successCount: nat, failureCount: nat)

  datatype SystemSummary = SystemSummary(
    memoryUsage: real, cpuUsage: real, diskUsage: real, failedContainers: int, unhealthyEntities: int,
    averageLoad: real, metrics: map<string, real>)

  datatype SystemEvent = SystemEvent(
    id: string, eventType: string, entityID: string, description: string, metrics: map<string, real>)

  // ---------- Matching ----------

  predicate EvalOperator(val: real, op: string, threshold: real) {
    if op == ">" then val > threshold
    else if op == ">=" then val >= threshold
    else if op == "<" then val < threshold
    else if op == "<=" then val <= threshold
    else if op == "==" then val == threshold
    else if op == "!=" then val != threshold
    else false
  }

  function MetricOf(s: SystemSummary, metric: string): Option<real> {
    if metric == "memory_usage" then Some(s.memoryUsage)
    else if metric == "cpu_usage" then Some(s.cpuUsage)
    else if metric == "disk_usage" then Some(s.diskUsage)
    else if metric == "failed_containers" then Some(s.failedContainers as real)
    else if metric == "unhealthy_entities" then Some(s.unhealthyEntities as real)
    else if metric == "average_load" then Some(s.averageLoad)
    else if metric in s.metrics then Some(s.metrics[metric])
    else None
  }

  predicate HoldsForSummary(c: Condition, s: SystemSummary) {
    c.eventType == "" &&
    (c.metric != "" ==> MetricOf(s, c.metric).Some? && EvalOperator(MetricOf(s, c.metric).value, c.operator, c.value))
  }

  /** All conditions hold, and there is at least one. */
  ghost predicate MatchesSummary(conditions: seq<Condition>, s: SystemSummary) {
    conditions != [] && forall i :: 0 <= i < |conditions| ==> HoldsForSummary(conditions[i], s)
  }

  /** `folded(a, b)`: `b` occurs in `a` when case is ignored. */
  predicate HoldsForEvent(c: Condition, e: SystemEvent, folded: (string, string) -> bool) {
    && (c.eventType != "" ==> e.eventType == c.eventType)
    && (c.contains != "" ==> folded(e.description, c.contains) || folded(e.eventType, c.contains))
    && (c.metric != "" ==> c.metric in e.metrics && EvalOperator(e.metrics[c.metric], c.operator, c.value))
  }

  ghost predicate MatchesEvent(conditions: seq<Condition>, e: SystemEvent, folded: (string, string) -> bool) {
    conditions != [] && forall i :: 0 <= i < |conditions| ==> HoldsForEvent(conditions[i], e, folded)
  }

  lemma OperatorsCompare(x: real, t: real)
    ensures EvalOperator(x, ">", t) <==> x > t
    ensures EvalOperator(x, ">=", t) <==> x >= t
    ensures EvalOperator(x, "<", t) <==> x < t
    ensures EvalOperator(x, "<=", t) <==> x <= t
    ensures EvalOperator(x, "==", t) <==> x == t
    ensures EvalOperator(x, "!=", t) <==> x != t
  {
  }

  /** A rule about one metric. */
  function About(metric: string, op: string, t: real): seq<Condition> {
    [Condition(metric, op, t, "", "")]
  }

  /** It compares the reading of that name. */
  lemma MetricsAreRead(s: SystemSummary, op: string, t: real, name: string)
    ensures MatchesSummary(About("memory_usage", op, t), s) <==> EvalOperator(s.memoryUsage, op, t)
    ensures MatchesSummary(About("cpu_usage", op, t), s) <==> EvalOperator(s.cpuUsage, op, t)
    ensures MatchesSummary(About("disk_usage", op, t), s) <==> EvalOperator(s.diskUsage, op, t)
    ensures MatchesSummary(About("failed_containers", op, t), s) <==> EvalOperator(s.failedContainers as real, op, t)
    ensures MatchesSummary(About("unhealthy_entities", op, t), s) <==> EvalOperator(s.unhealthyEntities as real, op, t)
    ensures MatchesSummary(About("average_load", op, t), s) <==> EvalOperator(s.averageLoad, op, t)
    ensures name !in BUILT_IN && name != "" ==>
      (MatchesSummary(About(name, op, t), s) <==> name in s.metrics && EvalOperator(s.metrics[name], op, t))
  {
    forall metric: string | metric != ""
      ensures MatchesSummary(About(metric, op, t), s) <==> HoldsForSummary(Condition(metric, op, t, "", ""), s)
    {
      assert About(metric, op, t)[0] == Condition(metric, op, t, "", "");
    }
  }

  /** A rule about one metric of an event compares the metric of that name, if the event has it. */
  lemma EventMetricsAreRead(e: SystemEvent, folded: (string, string) -> bool, op: string, t: real, name: string)
    requires name != ""
    ensures MatchesEvent(About(name, op, t), e, folded) <==> name in e.metrics && EvalOperator(e.metrics[name], op, t)
  {
    assert About(name, op, t)[0] == Condition(name, op, t, "", "");
  }

  /** A rule about a type wants exactly that type; one about a text wants it in the description or the type. */
  lemma EventTextsAreRead(e: SystemEvent, s: SystemSummary, folded: (string, string) -> bool, text: string)
    requires text != ""
    ensures MatchesEvent([Condition("", "", 0.0, text, "")], e, folded) <==> e.eventType == text
    ensures MatchesEvent([Condition("", "", 0.0, "", text)], e, folded) <==> folded(e.description, text) || folded(e.eventType, text)
    ensures !MatchesSummary([Condition("", "", 0.0, text, "")], s) && MatchesSummary([Condition("", "", 0.0, "", text)], s)
  {
    var typed, worded := [Condition("", "", 0.0, text, "")], [Condition("", "", 0.0, "", text)];
    assert typed[0] == Condition("", "", 0.0, text, "") && worded[0] == Condition("", "", 0.0, "", text);
  }

  /** A rule holds if all its parts do; one without conditions never does. */
  lemma RulesAreConjunctions(a: seq<Condition>, b: seq<Condition>, s: SystemSummary, e: SystemEvent, folded: (string, string) -> bool)
    requires a != [] && b != []
    ensures MatchesSummary(a + b, s) <==> MatchesSummary(a, s) && MatchesSummary(b, s)
    ensures MatchesEvent(a + b, e, folded) <==> MatchesEvent(a, e, folded) && MatchesEvent(b, e, folded)
    ensures !MatchesSummary([], s) && !MatchesEvent([], e, folded)
  {
    var all := a + b;
    forall i | 0 <= i < |all| ensures all[i] == if i < |a| then a[i] else b[i - |a|] {
    }
    assert forall i :: 0 <= i < |a| ==> a[i] == all[i];
    assert forall i :: 0 <= i < |b| ==> b[i] == all[|a| + i];
  }

  const BUILT_IN := {"memory_usage", "cpu_usage", "disk_usage", "failed_containers", "unhealthy_entities", "average_load"}

  // ---------- Success rates ----------

  function Total(v: RuleView): nat {
    v.successCount + v.failureCount
  }

  /** One until something is known. */
  function SuccessRate(v: RuleView): real {
    if Total(v) == 0 then 1.0 else v.successCount as real / Total(v) as real
  }

  predicate RequiresApproval(v: RuleView) {
    !v.autoApprove || (SuccessRate(v) < 0.7 && Total(v) > 5)
  }

  lemma RateBelow(v: RuleView)
    requires Total(v) > 0
    ensures SuccessRate(v) < 0.7 <==> 3 * v.successCount < 7 * v.failureCount
  {
    RateAgainst(v, 0.7);
    var s, f := v.successCount as real, v.failureCount as real;
    assert Total(v) as real == s + f;
    assert (3 * v.successCount) as real == 3.0 * s && (7 * v.failureCount) as real == 7.0 * f;
  }

  /** Comparing the rate is comparing the counts. */
  lemma RateAgainst(v: RuleView, b: real)
    requires Total(v) > 0
    ensures SuccessRate(v) < b <==> v.successCount as real < b * Total(v) as real
    ensures SuccessRate(v) > b <==> v.successCount as real > b * Total(v) as real
  {
    var s, t, r := v.successCount as real, Total(v) as real, SuccessRate(v);
    assert r * t == s;
    if r < b { Shrink(r, b, t); } else { Grow(r, b, t); }
    if b < r { Shrink(b, r, t); } else { Grow(b, r, t); }
  }

  lemma Shrink(a: real, b: real, t: real)
    requires a < b && t > 0.0
    ensures a * t < b * t
  {
    assert (b - a) * t > 0.0;
  }

  lemma Grow(a: real, b: real, t: real)
    requires a >= b && t > 0.0
    ensures a * t >= b * t
  {
    assert (a - b) * t >= 0.0;
  }

  // ---------- Tuning ----------

  predicate Above(op: string) {
    op == ">" || op == ">="
  }

  predicate Below(op: string) {
    op == "<" || op == "<="
  }

  predicate Tightening(v: RuleView) {
    Total(v) >= 10 && SuccessRate(v) < 0.7
  }

  predicate Relaxing(v: RuleView) {
    Total(v) >= 20 && SuccessRate(v) > 0.85
  }

  function Tightened(c: Condition): Condition {
    if c.metric == "" then c else c.(value := if Above(c.operator) then c.value * 0.95 else c.value * 1.05)
  }

  function Relaxed(c: Condition): Condition {
    if c.metric == "" then c else c.(value := if Above(c.operator) then c.value * 1.02 else c.value * 0.98)
  }

  /** A condition without a metric or with a zero threshold is left alone. */
  function TunedCondition(c: Condition, v: RuleView): Condition {
    if c.metric == "" || c.value == 0.0 then c
    else if Tightening(v) then Tightened(c)
    else if Relaxing(v) then Relaxed(c)
    else c
  }

  function TunedConditions(cs: seq<Condition>, v: RuleView): seq<Condition> {
    seq(|cs|, i requires 0 <= i < |cs| => TunedCondition(cs[i], v))
  }

  function Tuned(v: RuleView): RuleView {
    if Total(v) < 5 then v
    else v.(conditions := TunedConditions(v.conditions, v),
            autoApprove := v.autoApprove || (v.successCount >= 10 && v.failureCount == 0))
  }

  /** Every reading that satisfies the first condition satisfies the second. */
  ghost predicate Implies(c: Condition, d: Condition) {
    forall val :: EvalOperator(val, c.operator, c.value) ==> EvalOperator(val, d.operator, d.value)
  }

  predicate KnownOperator(op: string) {
    Above(op) || Below(op) || op == "==" || op == "!="
  }

  /** For which conditions tightening only ever adds readings: positive thresholds of an order. */
  predicate Ordered(c: Condition) {
    c.metric == "" || c.value == 0.0 || !KnownOperator(c.operator)
    || ((Above(c.operator) || Below(c.operator)) && c.value > 0.0)
  }

  lemma TightenedImpliedIff(c: Condition)
    ensures Implies(c, Tightened(c)) <==> Ordered(c)
  {
    var d := Tightened(c);
    if !Ordered(c) {
      var v := c.value;
      // a reading that the old threshold accepts and the new one does not
      var reading := if c.operator == ">" || c.operator == "<" then (v + d.value) / 2.0
                     else if c.operator == "!=" then d.value else v;
      assert EvalOperator(reading, c.operator, v) && !EvalOperator(reading, d.operator, d.value);
    }
  }

  lemma RelaxedImpliesIff(c: Condition)
    ensures Implies(Relaxed(c), c) <==> Ordered(c)
  {
    var d := Relaxed(c);
    if !Ordered(c) {
      var v := c.value;
      var reading := if c.operator == ">" || c.operator == "<" then (v + d.value) / 2.0
                     else if c.operator == "!=" then v else d.value;
      assert EvalOperator(reading, d.operator, d.value) && !EvalOperator(reading, c.operator, v);
    }
  }

  /** Tightening loses no matching summary and relaxing gains none, when all conditions are ordered. */
  lemma TuningDirection(v: RuleView, s: SystemSummary)
    requires forall i :: 0 <= i < |v.conditions| ==> Ordered(v.conditions[i])
    ensures Tightening(v) && MatchesSummary(v.conditions, s) ==> MatchesSummary(Tuned(v).conditions, s)
    ensures Relaxing(v) && MatchesSummary(Tuned(v).conditions, s) ==> MatchesSummary(v.conditions, s)
  {
    forall i | 0 <= i < |v.conditions|
      ensures Tightening(v) && HoldsForSummary(v.conditions[i], s) ==> HoldsForSummary(TunedCondition(v.conditions[i], v), s)
      ensures Relaxing(v) && HoldsForSummary(TunedCondition(v.conditions[i], v), s) ==> HoldsForSummary(v.conditions[i], s)
    {
      TightenedImpliedIff(v.conditions[i]);
      RelaxedImpliesIff(v.conditions[i]);
    }
    forall i | 0 <= i < |Tuned(v).conditions| && (Tightening(v) || Relaxing(v))
      ensures Tuned(v).conditions[i] == TunedCondition(v.conditions[i], v)
    {
    }
    if Relaxing(v) && MatchesSummary(Tuned(v).conditions, s) {
      forall i | 0 <= i < |v.conditions| ensures HoldsForSummary(v.conditions[i], s) {
        assert HoldsForSummary(Tuned(v).conditions[i], s);
      }
    }
  }

  // ---------- When thresholds move, from the counts ----------

  /** At least ten outcomes, fewer than seven in ten of them successes. */
  predicate OftenFails(v: RuleView) {
    var total := v.successCount + v.failureCount;
    total >= 10 && 10 * v.successCount < 7 * total
  }

  /** At least twenty outcomes, more than 85 in a hundred of them successes. */
  predicate OftenSucceeds(v: RuleView) {
    var total := v.successCount + v.failureCount;
    total >= 20 && 100 * v.successCount > 85 * total
  }

  /** By what a threshold is multiplied: five percent towards firing earlier, two towards firing later. */
  function Factor(v: RuleView, operator: string): real {
    var upper := operator == ">" || operator == ">=";
    if OftenFails(v) then (if upper then 0.95 else 1.05)
    else if OftenSucceeds(v) then (if upper then 1.02 else 0.98)
    else 1.0
  }

  /** `w` is `v` with its thresholds multiplied, and promoted after ten successes and no failure. */
  ghost predicate Learned(v: RuleView, w: RuleView) {
    && w == v.(conditions := w.conditions, autoApprove := v.autoApprove || (v.successCount >= 10 && v.failureCount == 0))
    && |w.conditions| == |v.conditions|
    && forall i :: 0 <= i < |v.conditions| ==>
         var c := v.conditions[i];
         w.conditions[i] == if c.metric == "" then c else c.(value := c.value * Factor(v, c.operator))
  }

  lemma GuardsFromCounts(v: RuleView)
    ensures Tightening(v) <==> OftenFails(v)
    ensures Relaxing(v) <==> OftenSucceeds(v)
  {
    if Total(v) > 0 {
      RateAgainst(v, 0.7);
      RateAgainst(v, 0.85);
      var s, t := v.successCount, Total(v);
      assert s as real < 0.7 * t as real <==> 10 * s < 7 * t by {
        assert (10 * s) as real == 10.0 * s as real && (7 * t) as real == 7.0 * t as real;
      }
      assert s as real > 0.85 * t as real <==> 100 * s > 85 * t by {
        assert (100 * s) as real == 100.0 * s as real && (85 * t) as real == 85.0 * t as real;
      }
    }
  }

  /** What tuning does, said by the counts alone. */
  lemma TuningFromCounts(v: RuleView)
    ensures Learned(v, Tuned(v))
  {
    GuardsFromCounts(v);
    TunedKeeps(v);
    hide SuccessRate, Tightening, Relaxing;
    var w := Tuned(v);
    forall i | 0 <= i < |v.conditions|
      ensures var c := v.conditions[i];
        w.conditions[i] == if c.metric == "" then c else c.(value := c.value * Factor(v, c.operator))
    {
    }
  }

  /** A rule that often fails loses no matching summary, and one that often succeeds gains none. */
  lemma LearningDirection(v: RuleView, w: RuleView, s: SystemSummary)
    requires Learned(v, w) && forall i :: 0 <= i < |v.conditions| ==> Ordered(v.conditions[i])
    ensures OftenFails(v) && MatchesSummary(v.conditions, s) ==> MatchesSummary(w.conditions, s)
    ensures OftenSucceeds(v) && MatchesSummary(w.conditions, s) ==> MatchesSummary(v.conditions, s)
  {
    TuningFromCounts(v);
    GuardsFromCounts(v);
    assert w.conditions == Tuned(v).conditions;
    TuningDirection(v, s);
  }

  // ---------- Runs of one rule ----------

  datatype RuleStep = RecordOutcome(succeeded: bool) | Tune | Propose

  function NextRule(v: RuleView, step: RuleStep): RuleView {
    match step
    case RecordOutcome(true) => v.(successCount := v.successCount + 1)
    case RecordOutcome(false) => v.(failureCount := v.failureCount + 1)
    case Tune => Tuned(v)
    case Propose => v
  }

  function RunRule(v: RuleView, steps: seq<RuleStep>): RuleView {
    if steps == [] then v else NextRule(RunRule(v, steps[..|steps| - 1]), steps[|steps| - 1])
  }

  function Tunings(steps: seq<RuleStep>): nat {
    if steps == [] then 0 else Tunings(steps[..|steps| - 1]) + if steps[|steps| - 1] == Tune then 1 else 0
  }

  function Outcomes(steps: seq<RuleStep>): seq<bool> {
    if steps == [] then []
    else
      var n := |steps| - 1;
      Outcomes(steps[..n]) + if steps[n].RecordOutcome? then [steps[n].succeeded] else []
  }

  function Power(b: real, n: nat): real {
    if n == 0 then 1.0 else b * Power(b, n - 1)
  }

  lemma TunedValue(c: Condition, v: RuleView, lo: real, hi: real)
    requires 0.0 < lo <= c.value <= hi
    ensures var d := TunedCondition(c, v);
      d == c.(value := d.value) && 0.95 * lo <= d.value <= 1.05 * hi && lo * 0.95 <= c.value <= hi * 1.05
  {
  }

  /** `d` is `c` with a threshold that may have moved by n tunings. */
  ghost predicate Within(c: Condition, d: Condition, n: nat) {
    && d == c.(value := d.value)
    && 0.0 < c.value * Power(0.95, n) <= d.value <= c.value * Power(1.05, n)
  }

  lemma TuneOnce(c: Condition, d: Condition, n: nat, v: RuleView)
    requires c.value > 0.0 && Within(c, d, n)
    ensures Within(c, TunedCondition(d, v), n + 1) && Within(c, d, n + 1)
  {
    var lo, hi := c.value * Power(0.95, n), c.value * Power(1.05, n);
    TunedValue(d, v, lo, hi);
    Regroup(c.value, 0.95, Power(0.95, n));
    Regroup(c.value, 1.05, Power(1.05, n));
    assert c.value * Power(0.95, n + 1) == 0.95 * lo && c.value * Power(1.05, n + 1) == 1.05 * hi;
  }

  /** After n tunings a positive threshold is positive and within factors 0.95^n and 1.05^n of the first. */
  lemma {:induction false} ThresholdsBounded(v: RuleView, steps: seq<RuleStep>, i: nat)
    requires i < |v.conditions| && v.conditions[i].value > 0.0
    ensures var after := RunRule(v, steps).conditions;
      |after| == |v.conditions| && Within(v.conditions[i], after[i], Tunings(steps))
  {
    if steps != [] {
      var before := steps[..|steps| - 1];
      ThresholdsBounded(v, before, i);
      var now := RunRule(v, before);
      TunedKeeps(now);
      TuneOnce(v.conditions[i], now.conditions[i], Tunings(before), now);
      hide Tuned, Within, TunedCondition;
    }
  }

  lemma Regroup(a: real, b: real, c: real)
    ensures b * (a * c) == a * (b * c)
  {
  }

  // ---------- Trust ----------

  function Count(outcomes: seq<bool>, b: bool): nat {
    if outcomes == [] then 0
    else Count(outcomes[..|outcomes| - 1], b) + if outcomes[|outcomes| - 1] == b then 1 else 0
  }

  ghost predicate AllTrue(outcomes: seq<bool>) {
    forall i :: 0 <= i < |outcomes| ==> outcomes[i]
  }

  lemma {:induction false} CountFacts(outcomes: seq<bool>)
    ensures Count(outcomes, true) + Count(outcomes, false) == |outcomes|
    ensures Count(outcomes, false) == 0 <==> AllTrue(outcomes)
  {
    if outcomes != [] {
      var n := |outcomes| - 1;
      CountFacts(outcomes[..n]);
      assert outcomes == outcomes[..n] + [outcomes[n]];
      if AllTrue(outcomes[..n]) && outcomes[n] {
        forall i | 0 <= i < |outcomes| ensures outcomes[i] {
          assert i < n ==> outcomes[i] == outcomes[..n][i];
        }
      }
      if AllTrue(outcomes) {
        forall i | 0 <= i < n ensures outcomes[..n][i] {
          assert outcomes[..n][i] == outcomes[i];
        }
      }
    }
  }

  /** A tuning took place when ten successes and no failure were on record, those at the start included. */
  ghost predicate PromotedAt(v: RuleView, steps: seq<RuleStep>, k: int) {
    && 0 <= k < |steps| && steps[k] == Tune
    && v.successCount + Count(Outcomes(steps[..k]), true) >= 10
    && v.failureCount + Count(Outcomes(steps[..k]), false) == 0
  }

  ghost predicate Promoted(v: RuleView, steps: seq<RuleStep>) {
    exists k :: PromotedAt(v, steps, k)
  }

  /** What tuning does not touch, and when it promotes. */
  lemma TunedKeeps(v: RuleView)
    ensures Tuned(v).successCount == v.successCount && Tuned(v).failureCount == v.failureCount
    ensures Tuned(v).autoApprove <==> v.autoApprove || (v.successCount >= 10 && v.failureCount == 0)
    ensures |Tuned(v).conditions| == |v.conditions|
    ensures forall i :: 0 <= i < |v.conditions| ==>
      Tuned(v).conditions[i] == if Total(v) < 5 then v.conditions[i] else TunedCondition(v.conditions[i], v)
  {
  }

  lemma {:induction false} RunCounts(v: RuleView, steps: seq<RuleStep>)
    ensures RunRule(v, steps).successCount == v.successCount + Count(Outcomes(steps), true)
    ensures RunRule(v, steps).failureCount == v.failureCount + Count(Outcomes(steps), false)
  {
    hide Count;
    if steps != [] {
      var n := |steps| - 1;
      RunCounts(v, steps[..n]);
      TunedKeeps(RunRule(v, steps[..n]));
      assert RunRule(v, steps) == NextRule(RunRule(v, steps[..n]), steps[n]);
      if steps[n].RecordOutcome? {
        CountAppend(Outcomes(steps[..n]), steps[n].succeeded);
      } else {
        assert Outcomes(steps) == Outcomes(steps[..n]);
      }
    } else {
      NothingCounted();
    }
  }

  lemma NothingCounted()
    ensures Count([], true) == 0 && Count([], false) == 0
  {
  }

  lemma CountAppend(outcomes: seq<bool>, b: bool)
    ensures Count(outcomes + [b], true) == Count(outcomes, true) + if b then 1 else 0
    ensures Count(outcomes + [b], false) == Count(outcomes, false) + if b then 0 else 1
  {
    assert (outcomes + [b])[..|outcomes|] == outcomes;
  }

  lemma {:induction false} RunPromotes(v: RuleView, steps: seq<RuleStep>)
    ensures RunRule(v, steps).autoApprove <==> v.autoApprove || Promoted(v, steps)
  {
    if steps != [] {
      var n := |steps| - 1;
      RunPromotes(v, steps[..n]);
      RunCounts(v, steps[..n]);
      forall k | 0 <= k < n ensures PromotedAt(v, steps, k) <==> PromotedAt(v, steps[..n], k) {
        assert steps[..n][..k] == steps[..k];
      }
      assert PromotedAt(v, steps, n) <==>
        steps[n] == Tune && RunRule(v, steps[..n]).successCount >= 10 && RunRule(v, steps[..n]).failureCount == 0;
    }
  }

  lemma {:induction false} OutcomesGrow(steps: seq<RuleStep>, k: nat)
    requires k <= |steps|
    ensures Outcomes(steps[..k]) <= Outcomes(steps)
    decreases |steps|
  {
    if k < |steps| {
      var n := |steps| - 1;
      OutcomesGrow(steps[..n], k);
      assert steps[..n][..k] == steps[..k];
    } else {
      assert steps[..k] == steps;
    }
  }

  /** Ten successes in a row stand at the beginning, those on record at the start included. */
  ghost predicate FirstTenSucceeded(v: RuleView, outcomes: seq<bool>) {
    && v.failureCount == 0 && v.successCount + |outcomes| >= 10
    && forall i :: 0 <= i < |outcomes| && v.successCount + i < 10 ==> outcomes[i]
  }

  /**
   When a rule proposes without asking for approval: exactly when it was set so or promoted by a
   tuning, and its record has three successes for every seven failures or at most five entries.
   A rule that was not set so has ten successes at the beginning of its record.
   */
  lemma TrustIsEarned(v: RuleView, steps: seq<RuleStep>)
    ensures var after := RunRule(v, steps);
      && (!RequiresApproval(after) <==> (v.autoApprove || Promoted(v, steps))
                                        && (3 * after.successCount >= 7 * after.failureCount || Total(after) <= 5))
      && (!RequiresApproval(after) && !v.autoApprove ==> FirstTenSucceeded(v, Outcomes(steps)))
  {
    hide RunRule, SuccessRate, PromotedAt;
    var after := RunRule(v, steps);
    RunPromotes(v, steps);
    if Total(after) > 0 { RateBelow(after); }
    if Promoted(v, steps) {
      var k :| PromotedAt(v, steps, k);
      PromotionProves(v, steps, k);
    }
  }

  lemma PromotionProves(v: RuleView, steps: seq<RuleStep>, k: int)
    requires PromotedAt(v, steps, k)
    ensures FirstTenSucceeded(v, Outcomes(steps))
  {
    var early, all := Outcomes(steps[..k]), Outcomes(steps);
    OutcomesGrow(steps, k);
    CountFacts(early);
    forall i | 0 <= i < |all| && v.successCount + i < 10 ensures all[i] {
      assert early[i] && all[i] == early[i];
    }
  }
}
