/** Policies and how requests are decided (policy/engine.go, policy/types.go). */
module PolicyEngines {
  import opened RateLimits

  const ALLOW := "allow"
  const DENY := "deny"

  datatype Condition = Condition(field: string, operator: string, value: string)

  datatype PolicyRule = PolicyRule(
    actions: seq<string>, resources: seq<string>, actors: seq<string>, effect: string, conditions: seq<Condition>)

  datatype Policy = Policy(id: string, name: string, rules: seq<PolicyRule>, priority: int, enabled: bool, tenantID: string)

  datatype Request = Request(actor: string, action: string, resource: string, context: map<string, string>)

  datatype EvalResult = EvalResult(allowed: bool, effect: string, policyID: string, ruleIdx: nat, reason: string)

  /** Library string tests: glob match, equality up to case, membership in a comma-separated list. */
  datatype Matchers = Matchers(glob: (string, string) -> bool, equalFold: (string, string) -> bool, inList: (string, string) -> bool)

  // ---------- One policy ----------

  ghost predicate MatchesAny(t: Matchers, patterns: seq<string>, value: string) {
    exists i :: 0 <= i < |patterns| && (patterns[i] == "*" || t.glob(patterns[i], value) || t.equalFold(patterns[i], value))
  }

  /** An operator other than eq, ne and in asks only that the field is there. */
  predicate ConditionHolds(t: Matchers, c: Condition, ctx: map<string, string>) {
    c.field in ctx &&
    (if c.operator == "eq" then ctx[c.field] == c.value
     else if c.operator == "ne" then ctx[c.field] != c.value
     else if c.operator == "in" then t.inList(c.value, ctx[c.field])
     else true)
  }

  ghost predicate RuleApplies(t: Matchers, r: PolicyRule, req: Request) {
    && (r.actions == [] || MatchesAny(t, r.actions, req.action))
    && (r.resources == [] || MatchesAny(t, r.resources, req.resource))
    && (r.actors == [] || MatchesAny(t, r.actors, req.actor))
    && forall i :: 0 <= i < |r.conditions| ==> ConditionHolds(t, r.conditions[i], req.context)
  }

  function TenantOf(req: Request): string {
    if "tenant_id" in req.context then req.context["tenant_id"] else ""
  }

  predicate InScope(p: Policy, req: Request) {
    p.enabled && (p.tenantID == "" || TenantOf(req) == "" || p.tenantID == TenantOf(req))
  }

  /** The first applying rule from number `i` on, or the number of rules. */
  ghost function FirstRule(t: Matchers, p: Policy, req: Request, i: nat): (k: nat)
    requires i <= |p.rules|
    ensures i <= k <= |p.rules|
    decreases |p.rules| - i
  {
    if i == |p.rules| || RuleApplies(t, p.rules[i], req) then i else FirstRule(t, p, req, i + 1)
  }

  ghost predicate Applies(t: Matchers, p: Policy, req: Request) {
    InScope(p, req) && FirstRule(t, p, req, 0) < |p.rules|
  }

  ghost function VerdictOf(t: Matchers, p: Policy, req: Request): EvalResult
    requires Applies(t, p, req)
  {
    var k := FirstRule(t, p, req, 0);
    EvalResult(p.rules[k].effect == ALLOW, p.rules[k].effect, p.id, k, p.name + ": rule matched")
  }

  const DEFAULT_DENY := EvalResult(false, DENY, "", 0, "no matching policy (default deny)")

  const RATE_LIMITED := EvalResult(false, DENY, "", 0, "rate limit exceeded")

  // ---------- A list of policies ----------

  /** The first policy that applies decides. */
  ghost function Decide(t: Matchers, ps: seq<Policy>, req: Request): EvalResult {
    if ps == [] then DEFAULT_DENY
    else if Applies(t, ps[0], req) then VerdictOf(t, ps[0], req)
    else Decide(t, ps[1..], req)
  }

  ghost predicate Descending(ps: seq<Policy>) {
    forall i, j :: 0 <= i < j < |ps| ==> ps[i].priority >= ps[j].priority
  }

  ghost predicate UniqueIds(ps: seq<Policy>) {
    forall i, j :: 0 <= i < j < |ps| ==> ps[i].id != ps[j].id
  }

  function Elements(ps: seq<Policy>): set<Policy> {
    set p | p in ps
  }

  /** A list the engine may hold for a set of policies: the sort decides nothing among equal priorities. */
  ghost predicate Arrangement(s: set<Policy>, ps: seq<Policy>) {
    Elements(ps) == s && UniqueIds(ps) && Descending(ps)
  }

  /** Applicable, and no applicable policy has a higher priority. */
  ghost predicate Top(t: Matchers, s: set<Policy>, p: Policy, req: Request) {
    p in s && Applies(t, p, req) && forall q :: q in s && Applies(t, q, req) ==> q.priority <= p.priority
  }

  lemma {:induction false} FirstApplicable(t: Matchers, ps: seq<Policy>, req: Request) returns (k: nat)
    ensures k <= |ps| && forall j :: 0 <= j < k ==> !Applies(t, ps[j], req)
    ensures k < |ps| ==> Applies(t, ps[k], req) && Decide(t, ps, req) == VerdictOf(t, ps[k], req)
    ensures k == |ps| ==> Decide(t, ps, req) == DEFAULT_DENY
  {
    if ps == [] || Applies(t, ps[0], req) {
      k := 0;
    } else {
      k := FirstApplicable(t, ps[1..], req);
      k := k + 1;
    }
  }

  /** A request is decided by an applicable policy of maximal priority, or denied if none applies. */
  lemma DecidedByTop(t: Matchers, s: set<Policy>, ps: seq<Policy>, req: Request)
    requires Arrangement(s, ps)
    ensures if exists p :: p in s && Applies(t, p, req)
            then exists p :: Top(t, s, p, req) && Decide(t, ps, req) == VerdictOf(t, p, req)
            else Decide(t, ps, req) == DEFAULT_DENY
  {
    var k := FirstApplicable(t, ps, req);
    if k < |ps| {
      forall q | q in s && Applies(t, q, req) ensures q.priority <= ps[k].priority {
        var j :| 0 <= j < |ps| && ps[j] == q;
      }
      assert ps[k] in s && Top(t, s, ps[k], req);
    } else {
      forall p | p in s ensures !Applies(t, p, req) {
        var j :| 0 <= j < |ps| && ps[j] == p;
      }
    }
  }

  lemma NoElements(ps: seq<Policy>)
    ensures Elements(ps) == {} <==> ps == []
  {
    if ps != [] {
      assert ps[0] in Elements(ps);
    }
  }

  ghost predicate DistinctPriorities(s: set<Policy>) {
    forall p, q :: p in s && q in s && p != q ==> p.priority != q.priority
  }

  /** With distinct priorities there is only one list. */
  lemma {:induction false} ArrangementUnique(s: set<Policy>, a: seq<Policy>, b: seq<Policy>)
    requires Arrangement(s, a) && Arrangement(s, b) && DistinctPriorities(s)
    ensures a == b
    decreases |a|
  {
    hide Arrangement, DistinctPriorities;
    EmptyTogether(s, a, b);
    if a != [] {
      SameHead(s, a, b);
      TailArrangement(s, a);
      TailArrangement(s, b);
      FewerDistinct(s, a[0]);
      ArrangementUnique(s - {a[0]}, a[1..], b[1..]);
      assert a == [a[0]] + a[1..] && b == [b[0]] + b[1..];
    }
  }

  lemma EmptyTogether(s: set<Policy>, a: seq<Policy>, b: seq<Policy>)
    requires Arrangement(s, a) && Arrangement(s, b)
    ensures a == [] <==> b == []
  {
    NoElements(a);
    NoElements(b);
  }

  lemma FewerDistinct(s: set<Policy>, p: Policy)
    requires DistinctPriorities(s)
    ensures DistinctPriorities(s - {p})
  {
  }

  lemma SameHead(s: set<Policy>, a: seq<Policy>, b: seq<Policy>)
    requires Arrangement(s, a) && Arrangement(s, b) && DistinctPriorities(s) && a != [] && b != []
    ensures a[0] == b[0]
  {
    assert a[0] in Elements(a) && b[0] in Elements(b);
    var i :| 0 <= i < |b| && b[i] == a[0];
    var j :| 0 <= j < |a| && a[j] == b[0];
    assert a[0].priority >= a[j].priority && b[0].priority >= b[i].priority;
  }

  lemma TailArrangement(s: set<Policy>, ps: seq<Policy>)
    requires Arrangement(s, ps) && ps != []
    ensures Arrangement(s - {ps[0]}, ps[1..])
  {
    forall p ensures p in ps[1..] <==> p in ps && p != ps[0] {
      if p in ps && p != ps[0] {
        var i :| 0 <= i < |ps| && ps[i] == p;
        assert ps[1..][i - 1] == p;
      }
      if p in ps[1..] {
        var i :| 0 <= i < |ps[1..]| && ps[1..][i] == p;
        assert ps[i + 1] == p;
      }
    }
  }

  /** Whatever the order among equal priorities, the request gets the same effect. */
  ghost predicate Settled(t: Matchers, s: set<Policy>, req: Request) {
    forall a, b :: Arrangement(s, a) && Arrangement(s, b) ==> Decide(t, a, req).effect == Decide(t, b, req).effect
  }

  ghost predicate TopsAgree(t: Matchers, s: set<Policy>, req: Request) {
    forall p, q :: Top(t, s, p, req) && Top(t, s, q, req) ==> VerdictOf(t, p, req).effect == VerdictOf(t, q, req).effect
  }

  /** The effect is settled exactly when the applicable policies of the highest priority agree on it. */
  lemma SettledIff(t: Matchers, ps: seq<Policy>, req: Request)
    requires UniqueIds(ps) && Descending(ps)
    ensures Settled(t, Elements(ps), req) <==> TopsAgree(t, Elements(ps), req)
  {
    var s := Elements(ps);
    if TopsAgree(t, s, req) {
      forall a, b | Arrangement(s, a) && Arrangement(s, b) ensures Decide(t, a, req).effect == Decide(t, b, req).effect {
        DecidedByTop(t, s, a, req);
        DecidedByTop(t, s, b, req);
      }
    }
    if Settled(t, s, req) {
      forall p, q | Top(t, s, p, req) && Top(t, s, q, req)
        ensures VerdictOf(t, p, req).effect == VerdictOf(t, q, req).effect
      {
        var a := Promote(t, ps, p, req);
        var b := Promote(t, ps, q, req);
      }
    }
  }

  /** A list in which a given top policy comes before the others of its priority, and so decides. */
  lemma Promote(t: Matchers, ps: seq<Policy>, p: Policy, req: Request) returns (a: seq<Policy>)
    requires UniqueIds(ps) && Descending(ps) && Top(t, Elements(ps), p, req)
    ensures Arrangement(Elements(ps), a) && Decide(t, a, req) == VerdictOf(t, p, req)
  {
    hide Arrangement, MovedUp, Applies;
    var k :| 0 <= k < |ps| && ps[k] == p;
    var j := StartOfClass(ps, k);
    a := MovedUp(ps, j, k);
    Moved(ps, j, k);
    MovedAt(ps, j, k);
    forall i | 0 <= i < j ensures !Applies(t, a[i], req) {
      assert a[i] == ps[i] && ps[i] in Elements(ps);
    }
    assert a[j] == p;
    var f := FirstApplicable(t, a, req);
  }

  /** The first place with the same priority. */
  lemma {:induction false} StartOfClass(ps: seq<Policy>, k: nat) returns (j: nat)
    requires Descending(ps) && k < |ps|
    ensures j <= k && ps[j].priority == ps[k].priority
    ensures forall i :: 0 <= i < j ==> ps[i].priority > ps[k].priority
  {
    if k == 0 || ps[k - 1].priority > ps[k].priority {
      j := k;
    } else {
      j := StartOfClass(ps, k - 1);
    }
  }

  function MovedUp(ps: seq<Policy>, j: nat, k: nat): seq<Policy>
    requires j <= k < |ps|
  {
    ps[..j] + [ps[k]] + ps[j..k] + ps[k + 1..]
  }

  lemma Moved(ps: seq<Policy>, j: nat, k: nat)
    requires UniqueIds(ps) && Descending(ps) && j <= k < |ps| && ps[j].priority == ps[k].priority
    ensures Arrangement(Elements(ps), MovedUp(ps, j, k))
  {
    hide MovedUp;
    var a := MovedUp(ps, j, k);
    MovedAt(ps, j, k);
    forall q ensures q in a <==> q in ps {
      if q in ps {
        var i :| 0 <= i < |ps| && ps[i] == q;
        assert a[if i == k then j else if j <= i < k then i + 1 else i] == q;
      }
    }
    forall x, y | 0 <= x < y < |a| ensures a[x].id != a[y].id && a[x].priority >= a[y].priority {
      var u, v := From(j, k, x), From(j, k, y);
      assert a[x] == ps[u] && a[y] == ps[v];
      if u < v { assert ps[u].id != ps[v].id; } else { assert ps[v].id != ps[u].id; }
    }
  }

  lemma MovedAt(ps: seq<Policy>, j: nat, k: nat)
    requires j <= k < |ps|
    ensures |MovedUp(ps, j, k)| == |ps|
    ensures forall i :: 0 <= i < |ps| ==> From(j, k, i) < |ps| && MovedUp(ps, j, k)[i] == ps[From(j, k, i)]
  {
  }

  /** Where element `i` of the list with `k` moved up to `j` comes from. */
  function From(j: nat, k: nat, i: nat): nat {
    if i == j then k else if j < i <= k then i - 1 else i
  }

  // ---------- Sets of policies ----------

  /** Adding replaces the policy with the same id. */
  function Added(s: set<Policy>, p: Policy): set<Policy> {
    (set q | q in s && q.id != p.id) + {p}
  }

  function AddedAll(calls: seq<Policy>): set<Policy> {
    if calls == [] then {} else Added(AddedAll(calls[..|calls| - 1]), calls[|calls| - 1])
  }

  lemma {:induction false} DistinctAddsKept(calls: seq<Policy>)
    requires UniqueIds(calls)
    ensures AddedAll(calls) == Elements(calls)
  {
    if calls != [] {
      var n := |calls| - 1;
      DistinctAddsKept(calls[..n]);
      assert calls == calls[..n] + [calls[n]];
      forall q | q in calls[..n] ensures q.id != calls[n].id {
        var i :| 0 <= i < n && calls[i] == q;
      }
    }
  }

  /**
   Adding the same policies in another order, with distinct ids and priorities, gives the same
   list and so the same answer to every request.
   */
  lemma AddOrderDoesNotMatter(calls1: seq<Policy>, calls2: seq<Policy>, a: seq<Policy>, b: seq<Policy>)
    requires UniqueIds(calls1) && multiset(calls1) == multiset(calls2)
    requires DistinctPriorities(Elements(calls1))
    requires Arrangement(AddedAll(calls1), a) && Arrangement(AddedAll(calls2), b)
    ensures a == b
  {
    assert UniqueIds(calls2) by { PermutedIds(calls1, calls2); }
    DistinctAddsKept(calls1);
    DistinctAddsKept(calls2);
    forall p ensures p in calls1 <==> p in calls2 {
      assert p in multiset(calls1) <==> p in multiset(calls2);
    }
    assert Elements(calls1) == Elements(calls2);
    ArrangementUnique(Elements(calls1), a, b);
  }

  lemma PermutedIds(a: seq<Policy>, b: seq<Policy>)
    requires UniqueIds(a) && multiset(a) == multiset(b)
    ensures UniqueIds(b)
  {
    forall i, j | 0 <= i < j < |b| ensures b[i].id != b[j].id {
      assert b[i] in multiset(b) && b[j] in multiset(b);
      var k :| 0 <= k < |a| && a[k] == b[i];
      var l :| 0 <= l < |a| && a[l] == b[j];
      if k == l {
        Twice(b, i, j);
        Once(a, k);
      }
    }
  }

  lemma Twice(s: seq<Policy>, i: nat, j: nat)
    requires i < j < |s| && s[i] == s[j]
    ensures multiset(s)[s[i]] >= 2
  {
    assert s == s[..i] + [s[i]] + s[i + 1..j] + [s[j]] + s[j + 1..];
  }

  lemma Once(s: seq<Policy>, k: nat)
    requires UniqueIds(s) && k < |s|
    ensures multiset(s)[s[k]] == 1
  {
    assert s == s[..k] + [s[k]] + s[k + 1..];
    assert s[k] !in s[..k] && s[k] !in s[k + 1..];
  }

  /** Among equal priorities the answer can hang on the order: one policy allows, the other denies. */
  lemma TieUnsettled(t: Matchers, req: Request)
    ensures var everything := (effect: string) => PolicyRule([], [], [], effect, []);
      var yes, no := Policy("yes", "", [everything(ALLOW)], 0, true, ""), Policy("no", "", [everything(DENY)], 0, true, "");
      !Settled(t, {yes, no}, req)
  {
    var yes := Policy("yes", "", [PolicyRule([], [], [], ALLOW, [])], 0, true, "");
    var no := Policy("no", "", [PolicyRule([], [], [], DENY, [])], 0, true, "");
    assert RuleApplies(t, yes.rules[0], req) && RuleApplies(t, no.rules[0], req);
    assert FirstRule(t, yes, req, 0) == 0 && FirstRule(t, no, req, 0) == 0;
    assert Arrangement({yes, no}, [yes, no]) && Arrangement({yes, no}, [no, yes]);
    assert Decide(t, [yes, no], req).effect == ALLOW && Decide(t, [no, yes], req).effect == DENY;
  }

  // ---------- What a decision means ----------

  /** Rule `j` is the first of the policy to apply. */
  ghost predicate Hits(t: Matchers, p: Policy, req: Request, j: int) {
    0 <= j < |p.rules| && RuleApplies(t, p.rules[j], req) && forall i :: 0 <= i < j ==> !RuleApplies(t, p.rules[i], req)
  }

  ghost predicate Silent(t: Matchers, p: Policy, req: Request) {
    InScope(p, req) ==> forall j :: 0 <= j < |p.rules| ==> !RuleApplies(t, p.rules[j], req)
  }

  /** Policy `k` is the first in scope with a rule that applies, and rule `j` is its first. */
  ghost predicate Decisive(t: Matchers, ps: seq<Policy>, req: Request, k: int, j: int) {
    && 0 <= k < |ps| && InScope(ps[k], req) && Hits(t, ps[k], req, j)
    && forall i :: 0 <= i < k ==> Silent(t, ps[i], req)
  }

  /** The answer names the decisive policy and rule, and allows exactly what that rule allows. */
  ghost predicate Obeys(t: Matchers, ps: seq<Policy>, req: Request, r: EvalResult) {
    && (forall k, j :: Decisive(t, ps, req, k, j) ==>
          && r.policyID == ps[k].id && r.ruleIdx == j && r.effect == ps[k].rules[j].effect
          && (r.allowed <==> ps[k].rules[j].effect == "allow") && r.reason == ps[k].name + ": rule matched")
    && ((forall i :: 0 <= i < |ps| ==> Silent(t, ps[i], req)) ==> Denied(r, "no matching policy (default deny)"))
  }

  /** A denial that no policy made. */
  predicate Denied(r: EvalResult, reason: string) {
    !r.allowed && r.effect == "deny" && r.policyID == "" && r.reason == reason
  }

  lemma {:induction false} FirstRuleHits(t: Matchers, p: Policy, req: Request, i: nat)
    requires i <= |p.rules| && forall j :: 0 <= j < i ==> !RuleApplies(t, p.rules[j], req)
    ensures var k := FirstRule(t, p, req, i);
      if k < |p.rules| then Hits(t, p, req, k) else forall j :: 0 <= j < |p.rules| ==> !RuleApplies(t, p.rules[j], req)
    decreases |p.rules| - i
  {
    if i < |p.rules| && !RuleApplies(t, p.rules[i], req) {
      FirstRuleHits(t, p, req, i + 1);
    }
  }

  lemma {:induction false} DecisionObeys(t: Matchers, ps: seq<Policy>, req: Request)
    ensures Obeys(t, ps, req, Decide(t, ps, req))
    ensures (exists k, j :: Decisive(t, ps, req, k, j)) || forall i :: 0 <= i < |ps| ==> Silent(t, ps[i], req)
  {
    var k := FirstApplicable(t, ps, req);
    forall i | 0 <= i < k ensures Silent(t, ps[i], req) {
      SilentIff(t, ps[i], req);
    }
    if k < |ps| {
      SilentIff(t, ps[k], req);
      var j := FirstRule(t, ps[k], req, 0);
      assert Decisive(t, ps, req, k, j);
      forall k2, j2 | Decisive(t, ps, req, k2, j2) ensures k2 == k && j2 == j {
        SameHit(t, ps, req, k, j, k2, j2);
      }
    }
  }

  lemma SilentIff(t: Matchers, p: Policy, req: Request)
    ensures Silent(t, p, req) <==> !Applies(t, p, req)
    ensures Applies(t, p, req) ==> Hits(t, p, req, FirstRule(t, p, req, 0))
  {
    FirstRuleHits(t, p, req, 0);
  }

  lemma SameHit(t: Matchers, ps: seq<Policy>, req: Request, k: int, j: int, k2: int, j2: int)
    requires Decisive(t, ps, req, k, j) && Decisive(t, ps, req, k2, j2)
    ensures k == k2 && j == j2
  {
    hide RuleApplies, InScope, Silent;
    HitIsLoud(t, ps[k], req, j);
    HitIsLoud(t, ps[k2], req, j2);
  }

  lemma HitIsLoud(t: Matchers, p: Policy, req: Request, j: int)
    requires InScope(p, req) && Hits(t, p, req, j)
    ensures !Silent(t, p, req)
  {
  }

  /** A rule for actions looks at the action, one for resources at the resource, one for actors at the actor. */
  lemma PatternsAreFor(t: Matchers, pattern: string, effect: string, req: Request)
    ensures RuleApplies(t, PolicyRule([pattern], [], [], effect, []), req) <==> Fits(t, pattern, req.action)
    ensures RuleApplies(t, PolicyRule([], [pattern], [], effect, []), req) <==> Fits(t, pattern, req.resource)
    ensures RuleApplies(t, PolicyRule([], [], [pattern], effect, []), req) <==> Fits(t, pattern, req.actor)
    ensures RuleApplies(t, PolicyRule([], [], [], effect, []), req)
  {
    forall value: string ensures MatchesAny(t, [pattern], value) <==> Fits(t, pattern, value) {
      assert [pattern][0] == pattern;
    }
  }

  predicate Fits(t: Matchers, pattern: string, value: string) {
    pattern == "*" || t.glob(pattern, value) || t.equalFold(pattern, value)
  }

  /** A rule with one condition applies if the field is there and has, or has not, the value. */
  lemma ConditionsAreFor(t: Matchers, field: string, value: string, effect: string, req: Request)
    ensures var on := (operator: string) => PolicyRule([], [], [], effect, [Condition(field, operator, value)]);
      && (RuleApplies(t, on("eq"), req) <==> field in req.context && req.context[field] == value)
      && (RuleApplies(t, on("ne"), req) <==> field in req.context && req.context[field] != value)
      && (RuleApplies(t, on("in"), req) <==> field in req.context && t.inList(value, req.context[field]))
  {
    var on := (operator: string) => PolicyRule([], [], [], effect, [Condition(field, operator, value)]);
    forall operator: string
      ensures RuleApplies(t, on(operator), req) <==> ConditionHolds(t, Condition(field, operator, value), req.context)
    {
      assert on(operator).conditions[0] == Condition(field, operator, value);
    }
  }

  /** A policy of one tenant has no say over requests of another, nor one that is disabled over any. */
  lemma TenantsApart(t: Matchers, ps: seq<Policy>, req: Request, k: int, j: int)
    requires Decisive(t, ps, req, k, j)
    ensures ps[k].enabled
    ensures "tenant_id" in req.context && req.context["tenant_id"] != "" && ps[k].tenantID != "" ==>
      ps[k].tenantID == req.context["tenant_id"]
  {
  }

  // ---------- Runs of evaluations ----------

  /** A request with the policies the engine holds when it comes. */
  datatype Evaluation = Evaluation(policies: seq<Policy>, req: Request, now: int)

  function CallOf(e: Evaluation): Call {
    Call(e.req.actor, e.req.action, e.now)
  }

  function CallsOf(evals: seq<Evaluation>): seq<Call> {
    seq(|evals|, i requires 0 <= i < |evals| => CallOf(evals[i]))
  }

  /** The rate limit is asked first; only a request it lets through can be allowed. */
  ghost function Answer(t: Matchers, l: Limiter, e: Evaluation): EvalResult {
    if Allowed(l, CallOf(e)) then Decide(t, e.policies, e.req) else RATE_LIMITED
  }

  /** How many requests of an actor for an action are allowed in the closed interval. */
  ghost function Permits(t: Matchers, limits: map<string, int>, evals: seq<Evaluation>, actor: string, action: string,
                         from: int, to: int): nat
  {
    if evals == [] then 0
    else
      var n := |evals| - 1;
      var e := evals[n];
      Permits(t, limits, evals[..n], actor, action, from, to)
      + if e.req.actor == actor && e.req.action == action && from <= e.now <= to
           && Answer(t, RateLimits.Run(limits, CallsOf(evals[..n])), e).allowed then 1 else 0
  }

  lemma {:induction false} PermitsAreGrants(t: Matchers, limits: map<string, int>, evals: seq<Evaluation>,
                                            actor: string, action: string, from: int, to: int)
    ensures Permits(t, limits, evals, actor, action, from, to) <= Grants(limits, CallsOf(evals), actor, action, from, to)
  {
    if evals != [] {
      var n := |evals| - 1;
      PermitsAreGrants(t, limits, evals[..n], actor, action, from, to);
      assert CallsOf(evals)[..n] == CallsOf(evals[..n]);
    }
  }

  /**
   Whatever policies come and go, with a limit of M an actor is allowed an action at most 2M - 1
   times in any closed interval of one minute.
   */
  lemma PermitBound(t: Matchers, limits: map<string, int>, evals: seq<Evaluation>, actor: string, action: string, from: int)
    requires action in limits && limits[action] > 0 && ClockRuns(CallsOf(evals))
    ensures Permits(t, limits, evals, actor, action, from, from + MINUTE) <= 2 * limits[action] - 1
  {
    PermitsAreGrants(t, limits, evals, actor, action, from, from + MINUTE);
    GrantBounds(limits, CallsOf(evals), actor, action, from);
  }

  // ---------- The engine ----------

  method MatchAny(t: Matchers, patterns: seq<string>, value: string) returns (b: bool)
    ensures b <==> MatchesAny(t, patterns, value)
  {
    for i := 0 to |patterns|
      invariant forall j :: 0 <= j < i ==>
        patterns[j] != "*" && !t.glob(patterns[j], value) && !t.equalFold(patterns[j], value)
    {
      if patterns[i] == "*" || t.glob(patterns[i], value) || t.equalFold(patterns[i], value) {
        return true;
      }
    }
    return false;
  }

  method MatchRule(t: Matchers, r: PolicyRule, req: Request) returns (b: bool)
    ensures b <==> RuleApplies(t, r, req)
  {
    var action := MatchAny(t, r.actions, req.action);
    var resource := MatchAny(t, r.resources, req.resource);
    var actor := MatchAny(t, r.actors, req.actor);
    if !((|r.actions| == 0 || action) && (|r.resources| == 0 || resource) && (|r.actors| == 0 || actor)) {
      return false;
    }
    for i := 0 to |r.conditions|
      invariant forall j :: 0 <= j < i ==> ConditionHolds(t, r.conditions[j], req.context)
    {
      if !ConditionHolds(t, r.conditions[i], req.context) {
        return false;
      }
    }
    return true;
  }

  /** Stands for the library sort, which need not be stable: any arrangement by priority. */
  method SortByPriority(ps: seq<Policy>) returns (r: seq<Policy>)
    requires UniqueIds(ps)
    ensures Arrangement(Elements(ps), r)
  {
    r := [];
    for i := 0 to |ps|
      invariant Arrangement(Elements(ps[..i]), r)
    {
      var j := 0;
      while j < |r| && r[j].priority >= ps[i].priority
        invariant j <= |r| && forall k :: 0 <= k < j ==> r[k].priority >= ps[i].priority
      {
        j := j + 1;
      }
      assert ps[..i + 1] == ps[..i] + [ps[i]];
      InsertKeeps(Elements(ps[..i]), r, ps[i], j);
      r := r[..j] + [ps[i]] + r[j..];
    }
    assert ps[..|ps|] == ps;
  }

  lemma InsertKeeps(s: set<Policy>, r: seq<Policy>, p: Policy, j: nat)
    requires Arrangement(s, r) && j <= |r| && (forall q :: q in s ==> q.id != p.id)
    requires forall k :: 0 <= k < j ==> r[k].priority >= p.priority
    requires j < |r| ==> r[j].priority < p.priority
    ensures Arrangement(s + {p}, r[..j] + [p] + r[j..])
  {
    var a := r[..j] + [p] + r[j..];
    forall k | 0 <= k < |r| ensures r[k].id != p.id {
      assert r[k] in Elements(r);
    }
    Inserted(r, p, j);
    assert Elements(a) == s + {p};
  }

  lemma Inserted(r: seq<Policy>, p: Policy, j: nat)
    requires j <= |r|
    ensures var a := r[..j] + [p] + r[j..];
      && (forall q :: q in a <==> q in r || q == p)
      && forall k :: 0 <= k < |a| ==> a[k] == if k < j then r[k] else if k == j then p else r[k - 1]
  {
    assert r == r[..j] + r[j..];
  }

  class Engine {
    var policies: seq<Policy>
    const limiter: RateLimiter

    ghost predicate Valid()
      reads this
    {
      Arrangement(Elements(policies), policies)
    }

    constructor ()
      ensures Valid() && policies == [] && fresh(limiter)
    {
      policies := [];
      limiter := new RateLimiter();
    }

    method AddPolicy(p: Policy)
      requires Valid()
      modifies this`policies
      ensures Valid() && Elements(policies) == Added(Elements(old(policies)), p)
    {
      for i := 0 to |policies|
        invariant policies == old(policies)
        invariant forall j :: 0 <= j < i ==> policies[j].id != p.id
      {
        if policies[i].id == p.id {
          Replaced(policies, i, p);
          policies := SortByPriority(policies[i := p]);
          return;
        }
      }
      Appended(policies, p);
      policies := SortByPriority(policies + [p]);
    }

    method RemovePolicy(id: string)
      requires Valid()
      modifies this`policies
      ensures Valid() && Elements(policies) == set q | q in old(policies) && q.id != id
      ensures forall i :: 0 <= i < |old(policies)| && old(policies)[i].id == id ==>
        policies == old(policies)[..i] + old(policies)[i + 1..]
    {
      for i := 0 to |policies|
        invariant policies == old(policies)
        invariant forall j :: 0 <= j < i ==> policies[j].id != id
      {
        if policies[i].id == id {
          Dropped(policies, i);
          policies := policies[..i] + policies[i + 1..];
          return;
        }
      }
    }

    /** One step of a run of evaluations. */
    method Evaluate(t: Matchers, req: Request, now: int) returns (r: EvalResult)
      modifies limiter`buckets
      ensures limiter.View() == After(old(limiter.View()), Call(req.actor, req.action, now))
      ensures r == Answer(t, old(limiter.View()), Evaluation(policies, req, now))
      ensures if Allowed(old(limiter.View()), Call(req.actor, req.action, now)) then Obeys(t, policies, req, r) else Denied(r, "rate limit exceeded")
      ensures r.allowed <==>
        && Allowed(old(limiter.View()), Call(req.actor, req.action, now))
        && exists k, j :: Decisive(t, policies, req, k, j) && policies[k].rules[j].effect == "allow"
    {
      DecisionObeys(t, policies, req);
      hide Decisive, Silent;
      var ok := limiter.Allow(req.actor, req.action, now);
      if !ok {
        return RATE_LIMITED;
      }
      ghost var decision, counted := Decide(t, policies, req), limiter.View();
      for i := 0 to |policies|
        invariant limiter.View() == counted
        invariant decision == Decide(t, policies[i..], req)
      {
        var p := policies[i];
        assert policies[i..][0] == p && policies[i..][1..] == policies[i + 1..];
        if InScope(p, req) {
          for k := 0 to |p.rules|
            invariant limiter.View() == counted
            invariant FirstRule(t, p, req, 0) == FirstRule(t, p, req, k)
          {
            var matched := MatchRule(t, p.rules[k], req);
            if matched {
              return EvalResult(p.rules[k].effect == ALLOW, p.rules[k].effect, p.id, k, p.name + ": rule matched");
            }
          }
        }
      }
      return DEFAULT_DENY;
    }
  }

  lemma Replaced(ps: seq<Policy>, i: nat, p: Policy)
    requires UniqueIds(ps) && i < |ps| && ps[i].id == p.id
    ensures UniqueIds(ps[i := p]) && Elements(ps[i := p]) == Added(Elements(ps), p)
  {
    var a := ps[i := p];
    forall q ensures q in a <==> (q in ps && q.id != p.id) || q == p {
      if q in ps && q.id != p.id {
        var j :| 0 <= j < |ps| && ps[j] == q;
        assert a[j] == q;
      }
      if q in a && q != p {
        var j :| 0 <= j < |a| && a[j] == q;
        assert ps[j] == q;
      }
      assert a[i] == p;
    }
  }

  lemma Appended(ps: seq<Policy>, p: Policy)
    requires UniqueIds(ps) && forall j :: 0 <= j < |ps| ==> ps[j].id != p.id
    ensures UniqueIds(ps + [p]) && Elements(ps + [p]) == Added(Elements(ps), p)
  {
  }

  lemma Dropped(ps: seq<Policy>, i: nat)
    requires UniqueIds(ps) && Descending(ps) && i < |ps|
    ensures var a := ps[..i] + ps[i + 1..];
      Arrangement((set q | q in ps && q.id != ps[i].id), a)
  {
    var a := ps[..i] + ps[i + 1..];
    forall k | 0 <= k < |a| ensures a[k] == ps[if k < i then k else k + 1] {
    }
    forall q ensures q in a <==> q in ps && q.id != ps[i].id {
      if q in ps && q.id != ps[i].id {
        var j :| 0 <= j < |ps| && ps[j] == q;
        assert a[if j < i then j else j - 1] == q;
      }
    }
  }
}
