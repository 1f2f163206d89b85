/**
 Which severities the detector can report for groups of which size (layer3/trace_propagation.go:130-152).
 That a band is out of reach follows from the bound on z-scores; that it is in reach is shown with
 data whose latest value lies in it.
 */
module AnomalyBands {
  import opened TracePropagation

  // ---------- From values to query results ----------

  const NAME := "m"

  /** Rows with these values in which the last is the latest. */
  function RowsOf(values: seq<real>): seq<Metric> {
    seq(|values|, i requires 0 <= i < |values| => Metric(NAME, values[i], i))
  }

  lemma {:induction false} RowsHold(values: seq<real>)
    ensures Values(RowsOf(values), NAME) == values
  {
    if values != [] {
      var n := |values| - 1;
      RowsHold(values[..n]);
      assert RowsOf(values)[..n] == RowsOf(values[..n]);
      assert values == values[..n] + [values[n]];
    }
  }

  lemma LastIsLatest(values: seq<real>)
    requires values != []
    ensures IsLatest(RowsOf(values), NAME, RowsOf(values)[|values| - 1])
  {
    assert FirstGreatest(RowsOf(values), |values| - 1);
  }

  // ---------- What can be flagged ----------

  ghost predicate CanFlag(n: nat, threshold: real) {
    exists metrics, name :: |Values(metrics, name)| == n && Flagged(metrics, name, threshold)
  }

  /** Some group of `n` values is flagged if and only if n - 1 is above the square of the threshold in force. */
  lemma CanFlagIff(n: nat, threshold: real)
    requires n >= 10
    ensures CanFlag(n, threshold) <==> Exceeds((n - 1) as real, Threshold(threshold))
  {
    hide Values, IsLatest, Variance;
    if CanFlag(n, threshold) {
      var metrics, name :| |Values(metrics, name)| == n && Flagged(metrics, name, threshold);
      var m :| IsLatest(metrics, name, m) && Exceeds(ZSquared(Values(metrics, name), m.value), Threshold(threshold));
      LatestInGroup(metrics, name, m);
      ZBound(Values(metrics, name), m.value);
    }
    if Exceeds((n - 1) as real, Threshold(threshold)) {
      SpikeAttains(n);
      LastIsLatest(Spike(n));
      RowsHold(Spike(n));
      assert Flagged(RowsOf(Spike(n)), NAME, threshold);
    }
  }

  // ---------- Which bands occur ----------

  /** With the default threshold some group of `n` values is reported with that severity. */
  ghost predicate Occurs(n: nat, severity: Severity) {
    exists metrics, name, m ::
      && |Values(metrics, name)| == n && IsLatest(metrics, name, m) && Flagged(metrics, name, 0.0)
      && Band(ZSquared(Values(metrics, name), m.value)) == severity
  }

  /** A group that ends in its latest value 1 and lies in the band. */
  ghost predicate Shows(values: seq<real>, severity: Severity) {
    && |values| >= 10 && values[|values| - 1] == 1.0 && Variance(values) != 0.0
    && Exceeds(ZSquared(values, 1.0), 2.5) && Band(ZSquared(values, 1.0)) == severity
  }

  lemma ShownOccurs(values: seq<real>, severity: Severity)
    requires Shows(values, severity)
    ensures Occurs(|values|, severity)
  {
    hide Values, IsLatest, Variance, Mean, Band;
    LastIsLatest(values);
    RowsHold(values);
    var rows := RowsOf(values);
    assert IsLatest(rows, NAME, rows[|values| - 1]) && Flagged(rows, NAME, 0.0);
    assert Band(ZSquared(Values(rows, NAME), rows[|values| - 1].value)) == severity;
  }

  /** Four values of -1/4 and `q` pairs of 2/5 and -2/5 beside the one, the rest zeros: the mean is zero. */
  function Mixed(n: nat, q: nat): seq<real>
    requires 5 + 2 * q <= n
  {
    seq(n - 5 - 2 * q, _ => 0.0) + seq(4, _ => -0.25) + seq(q, _ => 0.4) + seq(q, _ => -0.4) + [1.0]
  }

  lemma MixedSums(n: nat, q: nat)
    requires 5 + 2 * q <= n
    ensures Sum(Mixed(n, q)) == 0.0 && Squares(Mixed(n, q)) == 1.25 + 0.32 * q as real
  {
    hide Sum, Squares;
    var zeros, quarters, ups, downs := seq(n - 5 - 2 * q, _ => 0.0), seq(4, _ => -0.25), seq(q, _ => 0.4), seq(q, _ => -0.4);
    Constant(n - 5 - 2 * q, 0.0);
    Constant(4, -0.25);
    Constant(q, 0.4);
    Constant(q, -0.4);
    Singleton(1.0);
    SumConcat(zeros, quarters);
    SumConcat(zeros + quarters, ups);
    SumConcat(zeros + quarters + ups, downs);
    SumConcat(zeros + quarters + ups + downs, [1.0]);
  }

  lemma MixedZ(n: nat, q: nat)
    requires 5 + 2 * q <= n
    ensures Variance(Mixed(n, q)) != 0.0
    ensures ZSquared(Mixed(n, q), 1.0) * (1.25 + 0.32 * q as real) == n as real
  {
    hide Sum, Squares;
    var s := Mixed(n, q);
    MixedSums(n, q);
    assert Mean(s) == 0.0;
    assert Deviations(s, 0.0) == s;
    Inverse(n as real, 1.25 + 0.32 * q as real, Variance(s));
  }

  lemma Inverse(n: real, k: real, v: real)
    requires n > 0.0 && k > 0.0 && v == k / n
    ensures v != 0.0 && 1.0 / v * k == n
  {
    assert v * n == k;
    var x := 1.0 / v;
    assert x * v == 1.0;
    assert x * k == x * (v * n) == (x * v) * n;
  }

  /** The z-score of a mixed group from its sum of squares. */
  lemma MixedBetween(n: nat, q: nat, lo: real, hi: real)
    requires 5 + 2 * q <= n && lo > 0.0 && hi > 0.0
    requires lo * (1.25 + 0.32 * q as real) < n as real <= hi * (1.25 + 0.32 * q as real)
    ensures Variance(Mixed(n, q)) != 0.0 && lo < ZSquared(Mixed(n, q), 1.0) <= hi
  {
    hide Variance;
    MixedZ(n, q);
    Between(ZSquared(Mixed(n, q), 1.0), 1.25 + 0.32 * q as real, lo, hi);
  }

  lemma Between(z: real, k: real, lo: real, hi: real)
    requires k > 0.0 && lo * k < z * k <= hi * k
    ensures lo < z <= hi
  {
    SignOf(z - lo, k);
    SignOf(hi - z, k);
    assert (z - lo) * k == z * k - lo * k && (hi - z) * k == hi * k - z * k;
  }

  lemma SignOf(x: real, k: real)
    requires k > 0.0
    ensures x * k > 0.0 ==> x > 0.0
    ensures x * k >= 0.0 ==> x >= 0.0
  {
  }

  /** How many pairs bring the score of `n` values just down to the upper end of a band. */
  lemma LowOccurs(n: nat)
    requires n >= 10
    ensures Occurs(n, Low)
  {
    if n == 10 {
      SpikeShows(n, Low);
    } else {
      var q := if 100 * n <= 1125 then 0 else (100 * n - 838) / 288;
      MixedShows(n, q, 6.25, 9.0, Low);
    }
  }

  lemma MediumOccurs(n: nat)
    requires n >= 11
    ensures Occurs(n, Medium)
  {
    if n == 11 {
      SpikeShows(n, Medium);
    } else {
      var q := if 400 * n <= 6125 then 0 else (400 * n - 4558) / 1568;
      MixedShows(n, q, 9.0, 12.25, Medium);
    }
  }

  lemma HighOccurs(n: nat)
    requires n >= 14
    ensures Occurs(n, High)
  {
    if n <= 15 {
      SpikeShows(n, High);
    } else {
      var q := if 25 * n <= 500 then 0 else (25 * n - 373) / 128;
      MixedShows(n, q, 12.25, 16.0, High);
    }
  }

  lemma SpikeShows(n: nat, severity: Severity)
    requires n >= 10 && Band((n - 1) as real) == severity
    ensures Occurs(n, severity)
  {
    SpikeAttains(n);
    ShownOccurs(Spike(n), severity);
  }

  lemma MixedShows(n: nat, q: nat, lo: real, hi: real, severity: Severity)
    requires n >= 10 && 5 + 2 * q <= n && lo >= 6.25 && hi > 0.0
    requires lo * (1.25 + 0.32 * q as real) < n as real <= hi * (1.25 + 0.32 * q as real)
    requires forall z :: lo < z <= hi ==> Band(z) == severity
    ensures Occurs(n, severity)
  {
    MixedBetween(n, q, lo, hi);
    ShownOccurs(Mixed(n, q), severity);
  }

  /** A severity occurs for groups of a size exactly from 10, 11, 14 and 18 values on. */
  lemma BandOccursIff(n: nat)
    ensures Occurs(n, Low) <==> n >= 10
    ensures Occurs(n, Medium) <==> n >= 11
    ensures Occurs(n, High) <==> n >= 14
    ensures Occurs(n, Critical) <==> n >= 18
  {
    if n >= 10 { LowOccurs(n); }
    if n >= 11 { MediumOccurs(n); }
    if n >= 14 { HighOccurs(n); }
    if n >= 18 { SpikeShows(n, Critical); }
    forall severity: Severity | Occurs(n, severity)
      ensures n >= 10 && Exceeds((n - 1) as real, Edge(severity))
    {
      OccursNeeds(n, severity);
    }
  }

  /** The lower end of a band, as a distance. */
  function Edge(severity: Severity): real {
    match severity
    case Low => 2.5
    case Medium => 3.0
    case High => 3.5
    case Critical => 4.0
  }

  lemma OccursNeeds(n: nat, severity: Severity)
    requires Occurs(n, severity)
    ensures n >= 10 && Exceeds((n - 1) as real, Edge(severity))
  {
    hide Values, IsLatest, Variance, Mean;
    var metrics, name, m :|
      && |Values(metrics, name)| == n && IsLatest(metrics, name, m) && Flagged(metrics, name, 0.0)
      && Band(ZSquared(Values(metrics, name), m.value)) == severity;
    FlaggedIff(metrics, name, 0.0, m);
    LatestInGroup(metrics, name, m);
    ZBound(Values(metrics, name), m.value);
  }
}
