/**
 Z-score anomaly detection (layer3/trace_propagation.go:87-190), over the reals.

 The square root is avoided: for a positive standard deviation s, |z| > t with t >= 0 is the same
 as z^2 > t^2, and z^2 is the squared distance from the mean divided by the variance.
 */
module TracePropagation {
  import opened Common

  datatype Metric = Metric(name: string, value: real, timestamp: int)

  datatype Severity = Low | Medium | High | Critical

  datatype AnomalyResult = AnomalyResult(
    entityID: string, metric: string, value: real, mean: real, variance: real, zSquared: real,
    timestamp: int, severity: Severity)

  datatype QueryResult = Rows(metrics: seq<Metric>) | QueryError

  // ---------- Sums ----------

  function Sum(s: seq<real>): real {
    if s == [] then 0.0 else Sum(s[..|s| - 1]) + s[|s| - 1]
  }

  function Squares(s: seq<real>): real {
    if s == [] then 0.0 else Squares(s[..|s| - 1]) + s[|s| - 1] * s[|s| - 1]
  }

  function Deviations(s: seq<real>, m: real): seq<real> {
    seq(|s|, i requires 0 <= i < |s| => s[i] - m)
  }

  function Mean(s: seq<real>): real {
    if s == [] then 0.0 else Sum(s) / |s| as real
  }

  /** The mean squared distance from the mean. */
  function Variance(s: seq<real>): real {
    if s == [] then 0.0 else Squares(Deviations(s, Mean(s))) / |s| as real
  }

  function ZSquared(s: seq<real>, x: real): real
    requires Variance(s) != 0.0
  {
    (x - Mean(s)) * (x - Mean(s)) / Variance(s)
  }

  /** |z| > t, for a z whose square is `zSquared`. */
  predicate Exceeds(zSquared: real, t: real) {
    t < 0.0 || zSquared > t * t
  }

  function Band(zSquared: real): Severity {
    if Exceeds(zSquared, 4.0) then Critical
    else if Exceeds(zSquared, 3.5) then High
    else if Exceeds(zSquared, 3.0) then Medium
    else Low
  }

  function Abs(x: real): real {
    if x < 0.0 then -x else x
  }

  /** Comparing squares is comparing the z-score itself. */
  lemma ExceedsMeans(z: real, t: real)
    ensures Exceeds(z * z, t) <==> Abs(z) > t
  {
    var a := Abs(z);
    assert z * z == a * a;
    if t >= 0.0 {
      if a > t {
        SquareGreater(a, t);
      } else if a < t {
        SquareGreater(t, a);
      }
    }
  }

  lemma ProductPositive(x: real, y: real, p: real)
    requires x > 0.0 && y > 0.0 && p == x * y
    ensures p > 0.0
  {
  }

  lemma SquareGreater(x: real, y: real)
    requires x > y >= 0.0
    ensures x * x > y * y
  {
    ScaleGreater(x, x, y);
    assert x * y == y * x;
    if y > 0.0 {
      ScaleGreater(y, x, y);
    } else {
      ProductPositive(x, x, x * x);
    }
  }

  /** The severities as the program draws them. */
  lemma BandMeans(z: real)
    ensures Band(z * z) == if Abs(z) > 4.0 then Critical else if Abs(z) > 3.5 then High else if Abs(z) > 3.0 then Medium else Low
  {
    ExceedsMeans(z, 4.0);
    ExceedsMeans(z, 3.5);
    ExceedsMeans(z, 3.0);
  }

  lemma {:induction false} SumConcat(a: seq<real>, b: seq<real>)
    ensures Sum(a + b) == Sum(a) + Sum(b) && Squares(a + b) == Squares(a) + Squares(b)
  {
    if b == [] {
      assert a + b == a;
    } else {
      assert (a + b)[..|a + b| - 1] == a + b[..|b| - 1];
      SumConcat(a, b[..|b| - 1]);
    }
  }

  lemma {:induction false} SquaresNonNegative(s: seq<real>)
    ensures Squares(s) >= 0.0
  {
    if s != [] {
      SquaresNonNegative(s[..|s| - 1]);
      assert s[|s| - 1] * s[|s| - 1] >= 0.0;
    }
  }

  lemma {:induction false} SumDeviations(s: seq<real>, m: real)
    ensures Sum(Deviations(s, m)) == Sum(s) - |s| as real * m
  {
    if s != [] {
      assert Deviations(s, m)[..|s| - 1] == Deviations(s[..|s| - 1], m);
      SumDeviations(s[..|s| - 1], m);
      Scale(|s|, m);
    }
  }

  lemma Scale(n: nat, m: real)
    requires n > 0
    ensures n as real * m == (n - 1) as real * m + m
  {
    assert n as real == (n - 1) as real + 1.0;
  }

  /** The Cauchy-Schwarz inequality against the all-ones vector. */
  lemma {:induction false} SquareOfSum(s: seq<real>)
    ensures Sum(s) * Sum(s) <= |s| as real * Squares(s)
  {
    if s != [] {
      var r, a := s[..|s| - 1], s[|s| - 1];
      SquareOfSum(r);
      SquaresNonNegative(r);
      CauchyStep(|r| as real, Sum(r), Squares(r), a);
      assert |s| as real == |r| as real + 1.0;
    }
  }

  lemma CauchyStep(k: real, sum: real, sq: real, a: real)
    requires k >= 0.0 && sq >= 0.0 && sum * sum <= k * sq
    requires k == 0.0 || k >= 1.0
    ensures (sum + a) * (sum + a) <= (k + 1.0) * (sq + a * a)
  {
    if k == 0.0 {
      if sum != 0.0 {
        SquarePositive(sum);
      }
    } else {
      var d := sum - k * a;
      assert d * d >= 0.0;
      assert d * d == sum * sum - 2.0 * (k * (sum * a)) + k * (k * (a * a));
      // k * 2ab <= ab-square plus k^2 a^2 <= k * (sq + k * a^2)
      assert k * (2.0 * (sum * a)) <= k * (sq + k * (a * a));
      CancelFactor(k, 2.0 * (sum * a), sq + k * (a * a));
      assert (sum + a) * (sum + a) == sum * sum + 2.0 * (sum * a) + a * a;
      assert (k + 1.0) * (sq + a * a) == k * sq + sq + k * (a * a) + a * a;
    }
  }

  lemma CancelFactor(k: real, x: real, y: real)
    requires k > 0.0 && k * x <= k * y
    ensures x <= y
  {
    if x > y {
      ScaleGreater(k, x, y);
    }
  }

  lemma ScaleGreater(k: real, x: real, y: real)
    requires k > 0.0 && x > y
    ensures k * x > k * y
  {
    assert k * (x - y) > 0.0;
  }

  lemma SquarePositive(x: real)
    requires x != 0.0
    ensures x * x > 0.0
  {
  }

  // ---------- The bound ----------

  /** A member of a group of n values is at most sqrt(n - 1) standard deviations from its mean. */
  lemma ZBound(values: seq<real>, x: real)
    requires x in values && Variance(values) != 0.0
    ensures ZSquared(values, x) <= (|values| - 1) as real
  {
    hide Variance, Mean, Sum, Squares, Deviations;
    var d, j := Centred(values, x);
    VarianceNonNegative(values);
    DeviationBound(d, j, Variance(values));
    assert ZSquared(values, x) == d[j] * d[j] / Variance(values);
  }

  /** The deviations of a group from its mean, and where that of `x` stands. */
  lemma Centred(values: seq<real>, x: real) returns (d: seq<real>, j: nat)
    requires x in values
    ensures |d| == |values| && j < |d| && d[j] == x - Mean(values)
    ensures Sum(d) == 0.0 && Variance(values) == Squares(d) / |d| as real
  {
    var m := Mean(values);
    d := Deviations(values, m);
    j :| 0 <= j < |values| && values[j] == x;
    SumDeviations(values, m);
    assert |values| as real * m == Sum(values);
  }

  lemma DeviationBound(d: seq<real>, j: nat, v: real)
    requires j < |d| && Sum(d) == 0.0 && v > 0.0 && v == Squares(d) / |d| as real
    ensures d[j] * d[j] / v <= (|d| - 1) as real
  {
    hide Sum, Squares;
    var rest := d[..j] + d[j + 1..];
    TakeOut(d, j);
    SquareOfSum(rest);
    BoundFromSquares(|d|, d[j], Sum(rest), Squares(rest), Squares(d), v);
  }

  lemma TakeOut(d: seq<real>, j: nat)
    requires j < |d|
    ensures Sum(d) == Sum(d[..j] + d[j + 1..]) + d[j]
    ensures Squares(d) == Squares(d[..j] + d[j + 1..]) + d[j] * d[j]
  {
    hide Sum, Squares;
    assert d == (d[..j] + [d[j]]) + d[j + 1..];
    SumConcat(d[..j] + [d[j]], d[j + 1..]);
    SumConcat(d[..j], [d[j]]);
    SumConcat(d[..j], d[j + 1..]);
    Singleton(d[j]);
  }

  lemma Singleton(a: real)
    ensures Sum([a]) == a && Squares([a]) == a * a
  {
    assert [a][..0] == [];
  }

  lemma VarianceNonNegative(values: seq<real>)
    ensures Variance(values) >= 0.0
  {
    if values != [] {
      SquaresNonNegative(Deviations(values, Mean(values)));
    }
  }

  lemma BoundFromSquares(n: nat, d: real, sum: real, sq: real, q: real, v: real)
    requires n >= 1 && v > 0.0 && v == q / n as real
    requires sum == -d && q == sq + d * d && sum * sum <= (n - 1) as real * sq
    ensures d * d / v <= (n - 1) as real
  {
    assert sum * sum == d * d;
    var k := n as real;
    assert (n - 1) as real == k - 1.0;
    assert q == v * k;
    assert d * d * k <= (k - 1.0) * q;
    assert k * (d * d) <= k * ((k - 1.0) * v);
    CancelFactor(k, d * d, (k - 1.0) * v);
    if d * d / v > k - 1.0 {
      assert (d * d / v) * v > (k - 1.0) * v;
    }
  }

  /** `n - 1` zeros and a one. */
  function Spike(n: nat): seq<real>
    requires n >= 1
  {
    seq(n - 1, _ => 0.0) + [1.0]
  }

  lemma {:induction false} Constant(n: nat, c: real)
    ensures Sum(seq(n, _ => c)) == n as real * c && Squares(seq(n, _ => c)) == n as real * (c * c)
  {
    if n > 0 {
      assert seq(n, _ => c)[..n - 1] == seq(n - 1, _ => c);
      Constant(n - 1, c);
      Scale(n, c);
      Scale(n, c * c);
    }
  }

  /** The bound is attained. */
  lemma SpikeAttains(n: nat)
    requires n >= 2
    ensures Variance(Spike(n)) != 0.0 && ZSquared(Spike(n), 1.0) == (n - 1) as real
  {
    var s, k := Spike(n), n as real;
    Constant(n - 1, 0.0);
    Singleton(1.0);
    SumConcat(seq(n - 1, _ => 0.0), [1.0]);
    var m := Mean(s);
    assert m == 1.0 / k;
    var d := Deviations(s, m);
    assert d == seq(n - 1, _ => -m) + [1.0 - m];
    Constant(n - 1, -m);
    Singleton(1.0 - m);
    SumConcat(seq(n - 1, _ => -m), [1.0 - m]);
    SpikeArithmetic(k, m, Squares(d), Variance(s));
  }

  lemma SpikeArithmetic(k: real, m: real, q: real, v: real)
    requires k >= 2.0 && m == 1.0 / k && v == q / k
    requires q == (k - 1.0) * ((-m) * (-m)) + (1.0 - m) * (1.0 - m)
    ensures v != 0.0 && (1.0 - m) * (1.0 - m) / v == k - 1.0
  {
    var a := (k - 1.0) * m;
    assert m * k == 1.0 && 1.0 - m == a;
    assert a * a == (k - 1.0) * (a * m);
    assert m * m + a * m == m;
    assert q == (k - 1.0) * m by {
      assert q == (k - 1.0) * (m * m) + (k - 1.0) * (a * m) == (k - 1.0) * (m * m + a * m);
    }
    SpikeVariance(k, m, q, v);
    assert a * a == (k - 1.0) * v;
    SquarePositive(m);
    ScaleGreater(k - 1.0, m * m, 0.0);
    assert (1.0 - m) * (1.0 - m) == (k - 1.0) * v;
    DivideOut((1.0 - m) * (1.0 - m), k - 1.0, v);
  }

  lemma DivideOut(x: real, k: real, v: real)
    requires v != 0.0 && x == k * v
    ensures x / v == k
  {
    CancelEqual(v, x / v, k);
  }

  lemma SpikeVariance(k: real, m: real, q: real, v: real)
    requires k >= 2.0 && m * k == 1.0 && v == q / k && q == (k - 1.0) * m
    ensures v == (k - 1.0) * (m * m) && v == ((k - 1.0) * m) * m
  {
    assert v * k == q;
    assert ((k - 1.0) * (m * m)) * k == (k - 1.0) * (m * (m * k)) == q;
    CancelEqual(k, v, (k - 1.0) * (m * m));
  }

  lemma CancelEqual(k: real, x: real, y: real)
    requires k != 0.0 && x * k == y * k
    ensures x == y
  {
    assert (x - y) * k == 0.0;
  }

  /** Some member of some group of `n` values is more than `t` standard deviations off the mean. */
  ghost predicate Possible(n: nat, t: real) {
    exists values: seq<real>, x ::
      |values| == n && x in values && Variance(values) != 0.0 && Exceeds(ZSquared(values, x), t)
  }

  /** Whatever the data, a distance of `t` can be exceeded exactly by groups with n - 1 > t^2. */
  lemma PossibleIff(n: nat, t: real)
    requires n >= 2 && t >= 0.0
    ensures Possible(n, t) <==> (n - 1) as real > t * t
  {
    if Possible(n, t) {
      var values: seq<real>, x :|
        |values| == n && x in values && Variance(values) != 0.0 && Exceeds(ZSquared(values, x), t);
      ZBound(values, x);
    }
    if (n - 1) as real > t * t {
      SpikeAttains(n);
      assert 1.0 == Spike(n)[n - 1] && 1.0 in Spike(n);
    }
  }

  // ---------- The detector ----------

  /** The values of one metric, in order. */
  function Values(metrics: seq<Metric>, name: string): seq<real> {
    if metrics == [] then []
    else
      var n := |metrics| - 1;
      Values(metrics[..n], name) + if metrics[n].name == name then [metrics[n].value] else []
  }

  /** The first of the metrics of that name with the greatest timestamp. */
  ghost predicate IsLatest(metrics: seq<Metric>, name: string, m: Metric) {
    exists i :: 0 <= i < |metrics| && metrics[i] == m && m.name == name && FirstGreatest(metrics, i)
  }

  ghost predicate FirstGreatest(metrics: seq<Metric>, i: int)
    requires 0 <= i < |metrics|
  {
    && (forall j :: 0 <= j < |metrics| && metrics[j].name == metrics[i].name ==> metrics[j].timestamp <= metrics[i].timestamp)
    && (forall j :: 0 <= j < i && metrics[j].name == metrics[i].name ==> metrics[j].timestamp < metrics[i].timestamp)
  }

  lemma LatestUnique(metrics: seq<Metric>, name: string, m1: Metric, m2: Metric)
    requires IsLatest(metrics, name, m1) && IsLatest(metrics, name, m2)
    ensures m1 == m2
  {
  }

  lemma {:induction false} ValueListed(metrics: seq<Metric>, i: nat)
    requires i < |metrics|
    ensures metrics[i].value in Values(metrics, metrics[i].name)
  {
    if i < |metrics| - 1 {
      assert metrics[..|metrics| - 1][i] == metrics[i];
      ValueListed(metrics[..|metrics| - 1], i);
    }
  }

  method MeanVariance(values: seq<real>) returns (mean: real, variance: real)
    ensures mean == Mean(values) && variance == Variance(values)
  {
    if |values| == 0 {
      return 0.0, 0.0;
    }
    var n := |values| as real;
    var sum := 0.0;
    for i := 0 to |values|
      invariant sum == Sum(values[..i])
    {
      assert values[..i + 1][..i] == values[..i];
      sum := sum + values[i];
    }
    assert values[..|values|] == values;
    mean := sum / n;
    ghost var d := Deviations(values, mean);
    var squares := 0.0;
    for i := 0 to |values|
      invariant squares == Squares(d[..i])
    {
      assert d[..i + 1][..i] == d[..i];
      var diff := values[i] - mean;
      squares := squares + diff * diff;
    }
    assert d[..|d|] == d;
    variance := squares / n;
  }

  /** Grouping by name, with the latest metric of every group. */
  method Group(metrics: seq<Metric>) returns (groups: map<string, seq<real>>, latest: map<string, Metric>)
    ensures groups.Keys == latest.Keys == set i | 0 <= i < |metrics| :: metrics[i].name
    ensures forall name :: name in groups ==> groups[name] == Values(metrics, name) && IsLatest(metrics, name, latest[name])
  {
    hide IsLatest, Values;
    groups, latest := map[], map[];
    NoValues(metrics);
    for k := 0 to |metrics|
      invariant groups.Keys == latest.Keys
      invariant forall name :: name !in groups ==> Values(metrics[..k], name) == []
      invariant groups.Keys == set i | 0 <= i < k :: metrics[i].name
      invariant forall name :: name in groups ==>
        groups[name] == Values(metrics[..k], name) && IsLatest(metrics[..k], name, latest[name])
    {
      var m := metrics[k];
      ghost var before, after := metrics[..k], metrics[..k + 1];
      assert after == before + [m];
      ValuesExtend(before, m);
      ghost var prior := latest;
      if m.name !in groups { LatestFirst(before, m); }
      groups := groups[m.name := (if m.name in groups then groups[m.name] else []) + [m.value]];
      if m.name !in latest || m.timestamp > latest[m.name].timestamp {
        latest := latest[m.name := m];
      }
      forall name | name in prior ensures IsLatest(after, name, latest[name]) {
        LatestExtends(before, m, name, prior[name]);
      }
    }
    assert metrics[..|metrics|] == metrics;
  }

  lemma NoValues(metrics: seq<Metric>)
    ensures forall name :: Values(metrics[..0], name) == []
  {
  }

  lemma ValuesExtend(before: seq<Metric>, m: Metric)
    ensures forall name ::
      Values(before + [m], name) == Values(before, name) + if m.name == name then [m.value] else []
  {
    assert (before + [m])[..|before|] == before;
  }

  lemma LatestExtends(before: seq<Metric>, m: Metric, name: string, cur: Metric)
    requires IsLatest(before, name, cur)
    ensures IsLatest(before + [m], name, if m.name == name && m.timestamp > cur.timestamp then m else cur)
  {
    var after := before + [m];
    var i :| 0 <= i < |before| && before[i] == cur && cur.name == name && FirstGreatest(before, i);
    if m.name == name && m.timestamp > cur.timestamp {
      assert after[|before|] == m && FirstGreatest(after, |before|);
    } else {
      assert after[i] == cur && FirstGreatest(after, i);
    }
  }

  lemma LatestFirst(before: seq<Metric>, m: Metric)
    requires forall i :: 0 <= i < |before| ==> before[i].name != m.name
    ensures IsLatest(before + [m], m.name, m)
  {
    var after := before + [m];
    assert after[|before|] == m && FirstGreatest(after, |before|);
  }

  function Threshold(threshold: real): real {
    if threshold == 0.0 then 2.5 else threshold
  }

  /** The group of `name` is large enough, varies, and its latest value is too far off. */
  ghost predicate Flagged(metrics: seq<Metric>, name: string, threshold: real) {
    var values := Values(metrics, name);
    |values| >= 10 && Variance(values) != 0.0
    && exists m :: IsLatest(metrics, name, m) && Exceeds(ZSquared(values, m.value), Threshold(threshold))
  }

  ghost predicate Reports(a: AnomalyResult, metrics: seq<Metric>, entityID: string) {
    var values := Values(metrics, a.metric);
    && a.entityID == entityID
    && (exists m :: IsLatest(metrics, a.metric, m) && m.value == a.value && m.timestamp == a.timestamp)
    && a.mean == Mean(values) && a.variance == Variance(values) && a.variance != 0.0
    && a.zSquared == ZSquared(values, a.value) && a.severity == Band(a.zSquared)
  }

  /** One group: an anomaly if it is flagged. */
  method Score(ghost metrics: seq<Metric>, entityID: string, name: string, values: seq<real>, m: Metric, threshold: real)
    returns (a: Option<AnomalyResult>)
    requires values == Values(metrics, name) && IsLatest(metrics, name, m)
    ensures a.Some? <==> Flagged(metrics, name, threshold)
    ensures a.Some? ==> a.value.metric == name && Reports(a.value, metrics, entityID) && Plausible(a.value, |values|)
  {
    hide IsLatest, Flagged, Reports, Plausible, Values, Variance, Mean;
    FlaggedNeeds(metrics, name, threshold);
    if |values| < 10 {
      return None;
    }
    var mean, variance := MeanVariance(values);
    if variance == 0.0 {
      return None;
    }
    var diff := m.value - mean;
    var zSquared := diff * diff / variance;
    FlaggedIff(metrics, name, threshold, m);
    if !Exceeds(zSquared, Threshold(threshold)) {
      return None;
    }
    var r := AnomalyResult(entityID, name, m.value, mean, variance, zSquared, m.timestamp, Band(zSquared));
    Reported(r, metrics, m);
    return Some(r);
  }

  /** Groups are visited in any order; every flagged one is reported once, and no other. */
  method DetectAnomalies(queried: QueryResult, entityID: string, threshold: real)
    returns (anomalies: seq<AnomalyResult>, err: bool)
    ensures err == queried.QueryError?
    ensures err ==> anomalies == []
    ensures !err ==>
      && (forall i :: 0 <= i < |anomalies| ==>
            Flagged(queried.metrics, anomalies[i].metric, threshold) && Reports(anomalies[i], queried.metrics, entityID))
      && (forall name :: Flagged(queried.metrics, name, threshold) ==> exists i :: 0 <= i < |anomalies| && anomalies[i].metric == name)
      && (forall i, j :: 0 <= i < j < |anomalies| ==> anomalies[i].metric != anomalies[j].metric)
    ensures !err ==> forall i :: 0 <= i < |anomalies| ==> Plausible(anomalies[i], |Values(queried.metrics, anomalies[i].metric)|)
  {
    hide IsLatest, Flagged, Reports, Plausible, Values, Variance, Mean;
    anomalies := [];
    if queried.QueryError? {
      return [], true;
    }
    err := false;
    var metrics := queried.metrics;
    var groups, latest := Group(metrics);
    var todo := groups.Keys;
    while todo != {}
      invariant todo <= groups.Keys
      invariant forall i :: 0 <= i < |anomalies| ==>
        && anomalies[i].metric in groups.Keys - todo
        && Flagged(metrics, anomalies[i].metric, threshold) && Reports(anomalies[i], metrics, entityID)
        && Plausible(anomalies[i], |Values(metrics, anomalies[i].metric)|)
      invariant forall name :: name in groups.Keys - todo && Flagged(metrics, name, threshold) ==>
        exists i :: 0 <= i < |anomalies| && anomalies[i].metric == name
      invariant forall i, j :: 0 <= i < j < |anomalies| ==> anomalies[i].metric != anomalies[j].metric
      decreases todo
    {
      var name :| name in todo;
      todo := todo - {name};
      ghost var before := anomalies;
      var a := Score(metrics, entityID, name, groups[name], latest[name], threshold);
      if a.Some? {
        anomalies := anomalies + [a.value];
        assert anomalies[|before|].metric == name;
      }
      forall other | other in groups.Keys - todo && Flagged(metrics, other, threshold)
        ensures exists i :: 0 <= i < |anomalies| && anomalies[i].metric == other
      {
        if other != name {
          var i :| 0 <= i < |before| && before[i].metric == other;
          assert anomalies[i].metric == other;
        }
      }
    }
    forall name | Flagged(metrics, name, threshold) ensures name in groups {
      FlaggedOccurs(metrics, name, threshold);
    }
  }

  /** What a reported anomaly says about the size of its group. */
  ghost predicate Plausible(a: AnomalyResult, n: nat) {
    && n >= 10 && a.zSquared <= (n - 1) as real
    && (a.severity != Low ==> n >= 11)
    && (a.severity == High || a.severity == Critical ==> n >= 14)
    && (a.severity == Critical ==> n >= 18)
  }

  lemma Reported(a: AnomalyResult, metrics: seq<Metric>, m: Metric)
    requires IsLatest(metrics, a.metric, m) && m.value == a.value && m.timestamp == a.timestamp
    requires var values := Values(metrics, a.metric);
      && |values| >= 10 && Variance(values) != 0.0
      && a.mean == Mean(values) && a.variance == Variance(values)
      && a.zSquared == ZSquared(values, a.value) && a.severity == Band(a.zSquared)
    ensures Reports(a, metrics, a.entityID) && Plausible(a, |Values(metrics, a.metric)|)
  {
    LatestInGroup(metrics, a.metric, m);
    ZBound(Values(metrics, a.metric), a.value);
  }

  lemma FlaggedNeeds(metrics: seq<Metric>, name: string, threshold: real)
    ensures Flagged(metrics, name, threshold) ==>
      |Values(metrics, name)| >= 10 && Variance(Values(metrics, name)) != 0.0
  {
  }

  lemma FlaggedOccurs(metrics: seq<Metric>, name: string, threshold: real)
    requires Flagged(metrics, name, threshold)
    ensures exists i :: 0 <= i < |metrics| && metrics[i].name == name
  {
    var m :| IsLatest(metrics, name, m);
    var i :| 0 <= i < |metrics| && metrics[i] == m && m.name == name && FirstGreatest(metrics, i);
  }

  lemma LatestInGroup(metrics: seq<Metric>, name: string, m: Metric)
    requires IsLatest(metrics, name, m)
    ensures m.value in Values(metrics, name)
  {
    var i :| 0 <= i < |metrics| && metrics[i] == m && m.name == name && FirstGreatest(metrics, i);
    ValueListed(metrics, i);
  }

  lemma FlaggedIff(metrics: seq<Metric>, name: string, threshold: real, m: Metric)
    requires IsLatest(metrics, name, m)
    requires |Values(metrics, name)| >= 10 && Variance(Values(metrics, name)) != 0.0
    ensures Flagged(metrics, name, threshold) <==> Exceeds(ZSquared(Values(metrics, name), m.value), Threshold(threshold))
  {
    if Flagged(metrics, name, threshold) {
      var m' :| IsLatest(metrics, name, m') && Exceeds(ZSquared(Values(metrics, name), m'.value), Threshold(threshold));
      LatestUnique(metrics, name, m, m');
    }
  }

  /** The latest value is more than `t` deviations off the mean, the deviation being the root of the variance. */
  ghost predicate FarOff(values: seq<real>, x: real, deviation: real, t: real)
    requires deviation > 0.0
  {
    Abs((x - Mean(values)) / deviation) > t
  }

  /** With the threshold zero, two and a half standard deviations count; any other threshold counts as it is. */
  lemma FlaggedMeans(metrics: seq<Metric>, name: string, threshold: real, m: Metric, deviation: real)
    requires IsLatest(metrics, name, m) && deviation > 0.0
    requires Variance(Values(metrics, name)) == deviation * deviation
    ensures Flagged(metrics, name, threshold)
       <==> |Values(metrics, name)| >= 10 && FarOff(Values(metrics, name), m.value, deviation, if threshold == 0.0 then 2.5 else threshold)
  {
    FlaggedNeeds(metrics, name, threshold);
    hide IsLatest, Flagged, Values, Variance, Mean, Exceeds, Abs;
    var values := Values(metrics, name);
    var d := m.value - Mean(values);
    var z := d / deviation;
    QuotientSquared(d, deviation, Variance(values));
    if |values| >= 10 { FlaggedIff(metrics, name, threshold, m); }
    ExceedsMeans(z, Threshold(threshold));
    assert ZSquared(values, m.value) == z * z;
  }

  lemma QuotientSquared(d: real, s: real, v: real)
    requires s > 0.0 && v == s * s
    ensures v != 0.0 && d * d / v == (d / s) * (d / s)
  {
    ProductPositive(s, s, v);
    var z := d / s;
    SquareOfProduct(z, s);
    assert z * s == d;
    DivideOut(d * d, z * z, v);
  }

  lemma SquareOfProduct(x: real, y: real)
    ensures (x * y) * (x * y) == (x * x) * (y * y)
  {
    var p := x * y;
    assert p * p == p * x * y == x * p * y == x * x * y * y;
  }

  /** A threshold in force of at least sqrt(n - 1) silences a group of n values for good. */
  lemma SilentThreshold(metrics: seq<Metric>, name: string, threshold: real)
    requires !Exceeds((|Values(metrics, name)| - 1) as real, Threshold(threshold))
    ensures !Flagged(metrics, name, threshold)
  {
    hide Variance, Mean, Values, IsLatest;
    var values := Values(metrics, name);
    forall m | IsLatest(metrics, name, m) && Variance(values) != 0.0
      ensures !Exceeds(ZSquared(values, m.value), Threshold(threshold))
    {
      LatestInGroup(metrics, name, m);
      ZBound(values, m.value);
    }
  }
}
