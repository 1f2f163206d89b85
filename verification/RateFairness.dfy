/**
 When the rate limiter refuses (policy/rate_limiter.go:37-65). The counter of a call is found under
 actor + ":" + action, so it belongs to one actor and one action as long as no limited action ends
 in ":" and another limited action.
 */
module RateFairness {
  import opened RateLimits

  /** No limited action ends in a colon and another limited action, unless neither has a maximum. */
  ghost predicate Separate(limits: map<string, int>) {
    forall a, b, x :: a in limits && b in limits && a == x + ":" + b ==> limits[a] <= 0 && limits[b] <= 0
  }

  lemma PlainActionsSeparate(limits: map<string, int>)
    requires forall a :: a in limits ==> ':' !in a
    ensures Separate(limits)
  {
    forall x: string, b: string ensures ':' in x + ":" + b {
      assert (x + ":" + b)[|x|] == ':';
    }
  }

  /** Calls with a maximum share a counter only with calls of the same actor for the same action. */
  lemma OwnCounter(limits: map<string, int>, c: Call, d: Call)
    requires Separate(limits) && c.action in limits && d.action in limits && limits[c.action] > 0
    requires Key(c) == Key(d)
    ensures c.actor == d.actor && c.action == d.action
  {
    if |c.action| == |d.action| {
      SplitAt(c.actor, c.action, d.actor, d.action);
    } else if |c.action| > |d.action| {
      var x := LongerTail(c.actor, c.action, d.actor, d.action);
      assert false;
    } else {
      var x := LongerTail(d.actor, d.action, c.actor, c.action);
      assert false;
    }
  }

  lemma SplitAt(p: string, a: string, q: string, b: string)
    requires p + ":" + a == q + ":" + b && |a| == |b|
    ensures p == q && a == b
  {
    var s := p + ":" + a;
    assert s[..|s| - |a| - 1] == p && s[|s| - |a|..] == a;
    assert s == q + ":" + b;
    assert s[..|s| - |b| - 1] == q && s[|s| - |b|..] == b;
  }

  lemma LongerTail(p: string, a: string, q: string, b: string) returns (x: string)
    requires p + ":" + a == q + ":" + b && |a| > |b|
    ensures a == x + ":" + b
  {
    var s := p + ":" + a;
    x := a[..|a| - |b| - 1];
    assert s[|s| - |a|..] == a;
    assert s == q + ":" + b;
    assert s[|s| - |b|..] == b && s[|s| - |b| - 1] == ':';
    assert a[|a| - |b|..] == b && a[|a| - |b| - 1] == ':';
    assert a == a[..|a| - |b| - 1] + [a[|a| - |b| - 1]] + a[|a| - |b|..];
  }

  // ---------- A refusal is justified ----------

  /** The last call of the run was refused. */
  predicate Refused(limits: map<string, int>, calls: seq<Call>)
    requires calls != []
  {
    var c := calls[|calls| - 1];
    !GrantedLast(limits, calls, c.actor, c.action)
  }

  lemma {:induction false} GrantsWiden(limits: map<string, int>, calls: seq<Call>, actor: string, action: string,
                                       t: int, u: int, t': int, u': int)
    requires t' <= t && u <= u'
    ensures Grants(limits, calls, actor, action, t, u) <= Grants(limits, calls, actor, action, t', u')
  {
    if calls != [] {
      GrantsWiden(limits, calls[..|calls| - 1], actor, action, t, u, t', u');
    }
  }

  /** The counter of an actor and an action is at most what they were granted since it was started. */
  ghost predicate Backed(limits: map<string, int>, calls: seq<Call>, actor: string, action: string) {
    var l, key := Run(limits, calls), Key(Call(actor, action, 0));
    && l.limits == limits
    && (key in l.buckets ==>
          && calls != [] && l.buckets[key].lastReset <= calls[|calls| - 1].now
          && l.buckets[key].count <= Grants(limits, calls, actor, action, l.buckets[key].lastReset, calls[|calls| - 1].now))
  }

  lemma BackedStep(limits: map<string, int>, calls: seq<Call>, actor: string, action: string)
    requires Separate(limits) && action in limits && limits[action] > 0
    requires calls != [] && Backed(limits, calls[..|calls| - 1], actor, action)
    requires |calls| > 1 ==> calls[|calls| - 2].now <= calls[|calls| - 1].now
    ensures Backed(limits, calls, actor, action)
  {
    hide Separate;
    var before, c := calls[..|calls| - 1], calls[|calls| - 1];
    var l, key := Run(limits, before), Key(Call(actor, action, 0));
    assert before != [] ==> before[|before| - 1] == calls[|calls| - 2];
    if key in l.buckets {
      var b := l.buckets[key];
      GrantsWiden(limits, before, actor, action, b.lastReset, before[|before| - 1].now, b.lastReset, c.now);
    }
    if Limited(limits, c) && Key(c) == key {
      OwnCounter(limits, Call(actor, action, 0), c);
      assert Found(l, c).count == 0 ==> Allowed(l, c);
    }
  }

  lemma {:induction false} BackedHolds(limits: map<string, int>, calls: seq<Call>, actor: string, action: string)
    requires Separate(limits) && action in limits && limits[action] > 0 && ClockRuns(calls)
    ensures Backed(limits, calls, actor, action)
  {
    if calls != [] {
      BackedHolds(limits, calls[..|calls| - 1], actor, action);
      BackedStep(limits, calls, actor, action);
    }
  }

  /** A refused call has a maximum, and that many grants to the same actor for the same action in the minute before it. */
  ghost predicate Justified(limits: map<string, int>, calls: seq<Call>)
    requires calls != []
  {
    var c := calls[|calls| - 1];
    && c.action in limits && limits[c.action] > 0
    && Grants(limits, calls[..|calls| - 1], c.actor, c.action, c.now - MINUTE, c.now) >= limits[c.action]
  }

  lemma RefusalJustified(limits: map<string, int>, calls: seq<Call>)
    requires Separate(limits) && ClockRuns(calls) && calls != [] && Refused(limits, calls)
    ensures Justified(limits, calls)
  {
    var before, c := calls[..|calls| - 1], calls[|calls| - 1];
    LimitsStay(limits, before);
    BackedHolds(limits, before, c.actor, c.action);
    var b := Run(limits, before).buckets[Key(c)];
    assert before[|before| - 1] == calls[|calls| - 2];
    GrantsWiden(limits, before, c.actor, c.action, b.lastReset, before[|before| - 1].now, c.now - MINUTE, c.now);
  }

  lemma {:induction false} LimitsStay(limits: map<string, int>, calls: seq<Call>)
    ensures Run(limits, calls).limits == limits
  {
    if calls != [] {
      LimitsStay(limits, calls[..|calls| - 1]);
    }
  }

  // ---------- Without separate actions it need not be ----------

  function Times(c: Call, n: nat): seq<Call> {
    seq(n, _ => c)
  }

  /** The counter after `n` granted calls at one moment, and what someone else was granted. */
  lemma {:induction false} TimesCounted(limits: map<string, int>, c: Call, n: nat, actor: string, action: string)
    requires c.action in limits && (limits[c.action] <= 0 || n <= limits[c.action]) && (actor, action) != (c.actor, c.action)
    ensures var l := Run(limits, Times(c, n));
      l.limits == limits && (n > 0 ==> Key(c) in l.buckets && l.buckets[Key(c)] == Bucket(c.now, n))
      && (n == 0 ==> l.buckets == map[])
    ensures Grants(limits, Times(c, n), actor, action, c.now - MINUTE, c.now) == 0
  {
    if n > 0 {
      TimesCounted(limits, c, n - 1, actor, action);
      assert Times(c, n)[..n - 1] == Times(c, n - 1);
    }
  }

  /** Two calls that share a counter: enough of the first make the second fail at once. */
  lemma SharedRefusal(limits: map<string, int>, c: Call, d: Call)
    requires c.action in limits && d.action in limits && limits[d.action] > 0
    requires limits[c.action] <= 0 || limits[c.action] >= limits[d.action]
    requires Key(c) == Key(d) && (c.actor, c.action) != (d.actor, d.action) && c.now == d.now
    ensures var calls := Times(c, limits[d.action]) + [d];
      ClockRuns(calls) && Refused(limits, calls) && !Justified(limits, calls)
  {
    var n := limits[d.action];
    var calls := Times(c, n) + [d];
    TimesCounted(limits, c, n, d.actor, d.action);
    assert calls[..|calls| - 1] == Times(c, n);
  }

  /** Every refusal in every run is justified if and only if the limited actions are separate. */
  lemma RefusalsJustifiedIff(limits: map<string, int>)
    ensures (forall calls :: calls != [] && ClockRuns(calls) && Refused(limits, calls) ==> Justified(limits, calls))
       <==> Separate(limits)
  {
    if Separate(limits) {
      forall calls | calls != [] && ClockRuns(calls) && Refused(limits, calls) ensures Justified(limits, calls) {
        RefusalJustified(limits, calls);
      }
    } else {
      var a, b, x :| a in limits && b in limits && a == x + ":" + b && !(limits[a] <= 0 && limits[b] <= 0);
      var c, d := Call("", a, 0), Call(":" + x, b, 0);
      assert Key(c) == Key(d);
      assert |a| > |b|;
      if limits[b] > 0 && (limits[a] <= 0 || limits[a] >= limits[b]) {
        SharedRefusal(limits, c, d);
      } else {
        SharedRefusal(limits, d, c);
      }
    }
  }

  // ---------- Others do not matter ----------

  /** The calls of an actor for an action. */
  function Only(calls: seq<Call>, actor: string, action: string): seq<Call> {
    if calls == [] then []
    else
      var n := |calls| - 1;
      Only(calls[..n], actor, action) + if calls[n].actor == actor && calls[n].action == action then [calls[n]] else []
  }

  lemma {:induction false} SameCounter(limits: map<string, int>, calls: seq<Call>, actor: string, action: string)
    requires Separate(limits) && action in limits && limits[action] > 0
    ensures var l, m, key := Run(limits, calls), Run(limits, Only(calls, actor, action)), Key(Call(actor, action, 0));
      && l.limits == limits && m.limits == limits
      && (key in l.buckets <==> key in m.buckets) && (key in l.buckets ==> l.buckets[key] == m.buckets[key])
  {
    hide Separate;
    if calls != [] {
      var n := |calls| - 1;
      var c, own := calls[n], Only(calls[..n], actor, action);
      SameCounter(limits, calls[..n], actor, action);
      if c.actor == actor && c.action == action {
        assert (own + [c])[..|own|] == own;
      } else {
        assert own + [] == own;
        if Limited(limits, c) && Key(c) == Key(Call(actor, action, 0)) {
          OwnCounter(limits, Call(actor, action, 0), c);
        }
      }
    }
  }

  /** The answer to a call is what it would be had there been no calls of others and for other actions. */
  lemma OthersDoNotMatter(limits: map<string, int>, calls: seq<Call>, c: Call)
    requires Separate(limits)
    ensures Refused(limits, calls + [c]) <==> Refused(limits, Only(calls, c.actor, c.action) + [c])
  {
    var own := Only(calls, c.actor, c.action);
    assert (calls + [c])[..|calls|] == calls && (own + [c])[..|own|] == own;
    LimitsStay(limits, calls);
    LimitsStay(limits, own);
    if c.action in limits && limits[c.action] > 0 {
      SameCounter(limits, calls, c.actor, c.action);
    }
  }

  /** A call for an action without a maximum is granted. */
  lemma UnlimitedGranted(limits: map<string, int>, calls: seq<Call>, c: Call)
    requires c.action !in limits || limits[c.action] <= 0
    ensures !Refused(limits, calls + [c])
  {
    assert (calls + [c])[..|calls|] == calls;
    LimitsStay(limits, calls);
  }
}
