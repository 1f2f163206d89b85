/**
 The per-minute rate limiter (policy/rate_limiter.go): a counter per actor and action that starts
 over when a call comes more than a minute after it was last started.
 */
module RateLimits {

  const MINUTE: int := 60_000_000_000

  datatype Bucket = Bucket(lastReset: int, count: nat)

  /** `limits` maps an action to its maximum per minute; zero and less mean no maximum. */
  datatype Limiter = Limiter(limits: map<string, int>, buckets: map<string, Bucket>)

  datatype Call = Call(actor: string, action: string, now: int)

  function Key(c: Call): string {
    c.actor + ":" + c.action
  }

  predicate Limited(limits: map<string, int>, c: Call) {
    c.action in limits
  }

  /** The counter starts with this call. */
  predicate Resets(l: Limiter, c: Call) {
    Key(c) !in l.buckets || c.now - l.buckets[Key(c)].lastReset > MINUTE
  }

  /** The counter as the call finds it, after a start if that is due. */
  function Found(l: Limiter, c: Call): Bucket {
    if Resets(l, c) then Bucket(c.now, 0) else l.buckets[Key(c)]
  }

  predicate Allowed(l: Limiter, c: Call) {
    !Limited(l.limits, c) || l.limits[c.action] <= 0 || Found(l, c).count < l.limits[c.action]
  }

  function After(l: Limiter, c: Call): Limiter {
    if !Limited(l.limits, c) then l
    else
      var b := Found(l, c);
      l.(buckets := l.buckets[Key(c) := if Allowed(l, c) then b.(count := b.count + 1) else b])
  }

  class RateLimiter {
    var limits: map<string, int>
    var buckets: map<string, Bucket>

    ghost function View(): Limiter
      reads this
    {
      Limiter(limits, buckets)
    }

    constructor ()
      ensures View() == Limiter(map[], map[])
    {
      limits, buckets := map[], map[];
    }

    method SetLimit(action: string, maxPerMin: int)
      modifies this`limits
      ensures View() == old(View()).(limits := old(limits)[action := maxPerMin])
    {
      limits := limits[action := maxPerMin];
    }

    method Allow(actor: string, action: string, now: int) returns (ok: bool)
      modifies this`buckets
      ensures ok == Allowed(old(View()), Call(actor, action, now))
      ensures View() == After(old(View()), Call(actor, action, now))
    {
      if action !in limits {
        return true;
      }
      var limit := limits[action];
      var key := actor + ":" + action;
      var b: Bucket;
      if key !in buckets {
        b := Bucket(now, 0);
        buckets := buckets[key := b];
      } else {
        b := buckets[key];
      }
      if now - b.lastReset > MINUTE {
        b := Bucket(now, 0);
        buckets := buckets[key := b];
      }
      if limit > 0 && b.count >= limit {
        return false;
      }
      buckets := buckets[key := b.(count := b.count + 1)];
      return true;
    }
  }

  // ---------- Runs ----------

  ghost predicate ClockRuns(calls: seq<Call>) {
    forall i, j :: 0 <= i < j < |calls| ==> calls[i].now <= calls[j].now
  }

  function Run(limits: map<string, int>, calls: seq<Call>): Limiter {
    if calls == [] then Limiter(limits, map[]) else After(Run(limits, calls[..|calls| - 1]), calls[|calls| - 1])
  }

  predicate GrantedLast(limits: map<string, int>, calls: seq<Call>, actor: string, action: string)
    requires calls != []
  {
    var c := calls[|calls| - 1];
    c.actor == actor && c.action == action && Allowed(Run(limits, calls[..|calls| - 1]), c)
  }

  /** Grants to an actor for an action in the closed interval from `t` to `u`. */
  function Grants(limits: map<string, int>, calls: seq<Call>, actor: string, action: string, t: int, u: int): nat {
    if calls == [] then 0
    else
      Grants(limits, calls[..|calls| - 1], actor, action, t, u)
      + if GrantedLast(limits, calls, actor, action) && t <= calls[|calls| - 1].now <= u then 1 else 0
  }

  /** Grants to an actor for an action since their counter was last started. */
  function SinceReset(limits: map<string, int>, calls: seq<Call>, actor: string, action: string): nat {
    if calls == [] then 0
    else
      var c, before := calls[|calls| - 1], calls[..|calls| - 1];
      var prior := SinceReset(limits, before, actor, action);
      if !Limited(limits, c) || Key(c) != Key(Call(actor, action, 0)) then prior
      else (if Resets(Run(limits, before), c) then 0 else prior) + if GrantedLast(limits, calls, actor, action) then 1 else 0
  }

  /** What is kept about the interval of a minute from `t`, for a limit of `max`. */
  ghost predicate WindowInv(limits: map<string, int>, calls: seq<Call>, actor: string, action: string, t: int) {
    var l := Run(limits, calls);
    var key := Key(Call(actor, action, 0));
    var max := if action in limits then limits[action] else 0;
    var since := SinceReset(limits, calls, actor, action);
    var grants := Grants(limits, calls, actor, action, t, t + MINUTE);
    && l.limits == limits
    && since <= max && grants <= 2 * max - 1
    && (calls != [] && calls[|calls| - 1].now < t ==> grants == 0)
    && (key !in l.buckets ==> since == 0 && grants == 0)
    && (key in l.buckets ==>
          var b := l.buckets[key];
          && since <= b.count && b.count >= 1
          && calls != [] && b.lastReset <= calls[|calls| - 1].now
          && (calls[|calls| - 1].now <= t + MINUTE ==>
                if b.lastReset < t then grants <= max - 1 && grants <= b.count - 1 else grants <= max - 1 + since))
  }

  lemma WindowStep(limits: map<string, int>, calls: seq<Call>, actor: string, action: string, t: int)
    requires action in limits && limits[action] > 0
    requires calls != [] && WindowInv(limits, calls[..|calls| - 1], actor, action, t)
    requires |calls| > 1 ==> calls[|calls| - 2].now <= calls[|calls| - 1].now
    ensures WindowInv(limits, calls, actor, action, t)
  {
    var before, c := calls[..|calls| - 1], calls[|calls| - 1];
    var l := Run(limits, before);
    assert before != [] ==> before[|before| - 1] == calls[|calls| - 2];
    if Limited(limits, c) && Key(c) == Key(Call(actor, action, 0)) {
      assert Run(limits, calls).buckets[Key(c)] == (if Allowed(l, c) then Found(l, c).(count := Found(l, c).count + 1) else Found(l, c));
      assert Found(l, c).count == 0 ==> Allowed(l, c);
    } else {
      assert !(c.actor == actor && c.action == action);
    }
  }

  lemma {:induction false} WindowInvHolds(limits: map<string, int>, calls: seq<Call>, actor: string, action: string, t: int)
    requires action in limits && limits[action] > 0 && ClockRuns(calls)
    ensures WindowInv(limits, calls, actor, action, t)
  {
    if calls != [] {
      WindowInvHolds(limits, calls[..|calls| - 1], actor, action, t);
      WindowStep(limits, calls, actor, action, t);
    }
  }

  /**
   In any run with a limit of M, an actor is granted an action at most M times between two starts
   of the counter and at most 2M - 1 times in any closed interval of one minute, even if other
   actors and actions share the counter.
   */
  lemma GrantBounds(limits: map<string, int>, calls: seq<Call>, actor: string, action: string, t: int)
    requires action in limits && limits[action] > 0 && ClockRuns(calls)
    ensures SinceReset(limits, calls, actor, action) <= limits[action]
    ensures Grants(limits, calls, actor, action, t, t + MINUTE) <= 2 * limits[action] - 1
  {
    WindowInvHolds(limits, calls, actor, action, t);
  }

  // ---------- The bound is attained ----------

  function Repeated(c: Call, n: nat): seq<Call> {
    seq(n, _ => c)
  }

  /** A call within the minute is granted while the counter lasts. */
  lemma FurtherGrant(limits: map<string, int>, before: seq<Call>, c: Call, b: Bucket, t: int)
    requires Limited(limits, c) && Run(limits, before).limits == limits
    requires Key(c) in Run(limits, before).buckets && Run(limits, before).buckets[Key(c)] == b
    requires b.count < limits[c.action] && c.now - b.lastReset <= MINUTE && t <= c.now <= t + MINUTE
    ensures var calls := before + [c];
      && Run(limits, calls).limits == limits
      && Key(c) in Run(limits, calls).buckets && Run(limits, calls).buckets[Key(c)] == b.(count := b.count + 1)
      && Grants(limits, calls, c.actor, c.action, t, t + MINUTE) == Grants(limits, before, c.actor, c.action, t, t + MINUTE) + 1
  {
    assert (before + [c])[..|before|] == before;
  }

  /** Calls within the minute are granted while the counter lasts. */
  lemma {:induction false} RepeatedGrants(limits: map<string, int>, before: seq<Call>, c: Call, k: nat, b: Bucket, t: int)
    requires Limited(limits, c) && Run(limits, before).limits == limits
    requires Key(c) in Run(limits, before).buckets && Run(limits, before).buckets[Key(c)] == b
    requires b.count + k <= limits[c.action] && c.now - b.lastReset <= MINUTE && t <= c.now <= t + MINUTE
    ensures var calls := before + Repeated(c, k);
      && Run(limits, calls).limits == limits
      && Key(c) in Run(limits, calls).buckets && Run(limits, calls).buckets[Key(c)] == b.(count := b.count + k)
      && Grants(limits, calls, c.actor, c.action, t, t + MINUTE) == Grants(limits, before, c.actor, c.action, t, t + MINUTE) + k
  {
    hide Run, Grants;
    var calls := before + Repeated(c, k);
    if k == 0 {
      assert calls == before;
    } else {
      RepeatedGrants(limits, before, c, k - 1, b, t);
      FurtherGrant(limits, before + Repeated(c, k - 1), c, b.(count := b.count + (k - 1)), t);
      assert calls == before + Repeated(c, k - 1) + [c];
    }
  }

  /** One call, M - 1 more a minute later, and M more right after the counter starts again. */
  function Burst(actor: string, action: string, max: nat): seq<Call>
    requires max >= 1
  {
    [Call(actor, action, 0)]
    + Repeated(Call(actor, action, MINUTE), max - 1)
    + [Call(actor, action, MINUTE + 1)]
    + Repeated(Call(actor, action, MINUTE + 1), max - 1)
  }

  /** A call that starts the counter is granted. */
  lemma OpeningGrant(limits: map<string, int>, before: seq<Call>, c: Call, t: int)
    requires Limited(limits, c) && limits[c.action] > 0 && Run(limits, before).limits == limits && Resets(Run(limits, before), c)
    ensures var calls := before + [c];
      && Run(limits, calls).limits == limits
      && Key(c) in Run(limits, calls).buckets && Run(limits, calls).buckets[Key(c)] == Bucket(c.now, 1)
      && Grants(limits, calls, c.actor, c.action, t, t + MINUTE)
         == Grants(limits, before, c.actor, c.action, t, t + MINUTE) + if t <= c.now <= t + MINUTE then 1 else 0
  {
    assert (before + [c])[..|before|] == before;
  }

  lemma BurstClock(actor: string, action: string, max: nat)
    requires max >= 1
    ensures ClockRuns(Burst(actor, action, max))
  {
    var calls := Burst(actor, action, max);
    forall i | 0 <= i < |calls| ensures calls[i].now == if i == 0 then 0 else if i < max then MINUTE else MINUTE + 1 {
    }
  }

  lemma NoCalls(limits: map<string, int>, actor: string, action: string, t: int)
    ensures Run(limits, []) == Limiter(limits, map[]) && Grants(limits, [], actor, action, t, t + MINUTE) == 0
  {
  }

  /** For every limit M there is a run with 2M - 1 grants within one minute. */
  lemma BoundAttained(actor: string, action: string, max: nat)
    requires max >= 1
    ensures var calls := Burst(actor, action, max);
      ClockRuns(calls) && Grants(map[action := max], calls, actor, action, 1, 1 + MINUTE) == 2 * max - 1
  {
    hide Run, Grants, ClockRuns;
    var limits := map[action := max];
    var c0, c1, c2 := Call(actor, action, 0), Call(actor, action, MINUTE), Call(actor, action, MINUTE + 1);
    BurstClock(actor, action, max);
    NoCalls(limits, actor, action, 1);
    OpeningGrant(limits, [], c0, 1);
    assert [] + [c0] == [c0];
    RepeatedGrants(limits, [c0], c1, max - 1, Bucket(0, 1), 1);
    var p1 := [c0] + Repeated(c1, max - 1);
    OpeningGrant(limits, p1, c2, 1);
    RepeatedGrants(limits, p1 + [c2], c2, max - 1, Bucket(MINUTE + 1, 1), 1);
    assert p1 + [c2] + Repeated(c2, max - 1) == Burst(actor, action, max);
  }
}
