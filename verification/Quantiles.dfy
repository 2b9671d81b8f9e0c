// Latency percentiles from a sampled log: rows kept by chance stand for more
// requests than themselves, so the nearest rank is found by cumulative weight.
module Quantiles {
  // A logged duration, and whether it was kept by chance.
  datatype LogRow = LogRow(ms: nat, sampled: bool)

  datatype Point = Point(ms: nat, w: real)

  function EffectiveRate(sampleRate: real): (rate: real)
    ensures rate > 0.0
  {
    if sampleRate <= 0.0 then 1.0 else sampleRate
  }

  function Weighted(row: LogRow, rate: real): (p: Point)
    requires rate > 0.0
    ensures p.w > 0.0 && p.ms == row.ms
  {
    Point(row.ms, if row.sampled then 1.0 / rate else 1.0)
  }

  predicate Positive(points: seq<Point>) {
    forall i :: 0 <= i < |points| ==> points[i].w > 0.0
  }

  // ORDER BY duration_ms
  predicate Ascending(points: seq<Point>) {
    forall i, j :: 0 <= i < j < |points| ==> points[i].ms <= points[j].ms
  }

  function Total(points: seq<Point>): real {
    if points == [] then 0.0 else Total(points[..|points| - 1]) + points[|points| - 1].w
  }

  // The weight of the requests that took at most ms.
  function WeightUpTo(points: seq<Point>, ms: nat): real {
    if points == [] then 0.0 else
    WeightUpTo(points[..|points| - 1], ms)
      + (if points[|points| - 1].ms <= ms then points[|points| - 1].w else 0.0)
  }

  predicate IsMax(points: seq<Point>, max: nat) {
    (forall i :: 0 <= i < |points| ==> points[i].ms <= max) && (points == [] ==> max == 0)
    && (points != [] ==> exists i :: 0 <= i < |points| && points[i].ms == max)
  }

  // The least duration in the sample whose requests, with all faster ones, weigh
  // at least this much.
  predicate Reaches(points: seq<Point>, target: real, ms: nat) {
    && (exists i :: 0 <= i < |points| && points[i].ms == ms)
    && WeightUpTo(points, ms) >= target
    && forall i :: 0 <= i < |points| && points[i].ms < ms ==> WeightUpTo(points, points[i].ms) < target
  }

  function Share(total: real, q: real): real {
    total * q
  }

  predicate IsQuantile(points: seq<Point>, q: real, ms: nat) {
    Reaches(points, Share(Total(points), q), ms)
  }

  // ------------------------------------------------------------ weights

  lemma {:induction false} TotalGrows(points: seq<Point>, n: nat)
    requires Positive(points) && n <= |points|
    ensures 0.0 <= Total(points[..n]) <= Total(points)
    ensures 0 < n ==> Total(points[..n]) > 0.0
    ensures n < |points| ==> Total(points[..n]) < Total(points)
    decreases |points|
  {
    var last := |points| - 1;
    if n == |points| {
      assert points[..n] == points;
      if n > 0 {
        TotalGrows(points[..last], last);
        assert points[..last][..last] == points[..last];
      }
    } else {
      TotalGrows(points[..last], n);
      assert points[..last][..n] == points[..n];
    }
  }

  // On ordered points, those up to a duration include every point before one
  // that is slower, and none from the first slower one on.
  lemma {:induction false} WeightIsPrefix(points: seq<Point>, n: nat, ms: nat)
    requires Positive(points) && n <= |points|
    requires forall i :: 0 <= i < n ==> points[i].ms <= ms
    ensures WeightUpTo(points, ms) >= Total(points[..n])
    ensures (forall i :: n <= i < |points| ==> points[i].ms > ms) ==> WeightUpTo(points, ms) == Total(points[..n])
    decreases |points|
  {
    var last := |points| - 1;
    if n == |points| {
      assert points[..n] == points;
      if n > 0 {
        WeightIsPrefix(points[..last], last, ms);
        assert points[..last][..last] == points[..last];
      }
    } else {
      WeightIsPrefix(points[..last], n, ms);
      assert points[..last][..n] == points[..n];
    }
  }

  lemma PrefixStep(points: seq<Point>, i: nat)
    requires i < |points|
    ensures Total(points[..i + 1]) == Total(points[..i]) + points[i].w
  {
    assert points[..i + 1][..i] == points[..i];
  }

  // The first point whose running weight reaches the target.
  lemma FirstToReach(points: seq<Point>, target: real, i: nat)
    requires Positive(points) && Ascending(points) && i < |points|
    requires Total(points[..i]) < target <= Total(points[..i + 1])
    ensures Reaches(points, target, points[i].ms)
  {
    WeightIsPrefix(points, i + 1, points[i].ms);
    forall j | 0 <= j < |points| && points[j].ms < points[i].ms ensures WeightUpTo(points, points[j].ms) < target {
      SlowerThan(points, points[j].ms, i);
    }
  }

  lemma {:induction false} SlowerThan(points: seq<Point>, ms: nat, i: nat)
    requires Positive(points) && Ascending(points) && i < |points| && ms < points[i].ms
    ensures WeightUpTo(points, ms) <= Total(points[..i])
    decreases |points|
  {
    var last := |points| - 1;
    if i < last {
      SlowerThan(points[..last], ms, i);
      assert points[..last][..i] == points[..i];
    } else {
      UpToAtMostTotal(points[..last], ms);
    }
  }

  lemma {:induction false} UpToAtMostTotal(points: seq<Point>, ms: nat)
    requires Positive(points)
    ensures WeightUpTo(points, ms) <= Total(points)
  {
    if points != [] {
      UpToAtMostTotal(points[..|points| - 1], ms);
    }
  }

  // -------------------------------------------------------------- the walk

  // The walk itself: the fallback is reached only by a target above the total.
  method Walk(points: seq<Point>, target: real, max: nat) returns (ms: nat)
    requires Positive(points) && Ascending(points) && points != [] && target > 0.0
    ensures target <= Total(points) ==> Reaches(points, target, ms)
    ensures target > Total(points) ==> ms == max
  {
    var cum := 0.0;
    assert points[..|points|] == points;
    for i := 0 to |points|
      invariant cum == Total(points[..i]) < target
    {
      PrefixStep(points, i);
      cum := cum + points[i].w;
      if cum >= target {
        TotalGrows(points, i + 1);
        FirstToReach(points, target, i);
        return points[i].ms;
      }
    }
    return max;
  }

  method Quantile(points: seq<Point>, total: real, max: nat, q: real) returns (ms: nat)
    requires Positive(points) && Ascending(points) && total == Total(points) && 0.0 < q
    ensures points == [] ==> ms == 0
    ensures points != [] && q <= 1.0 ==> IsQuantile(points, q, ms)
    ensures points != [] && q > 1.0 ==> ms == max
  {
    hide WeightUpTo;
    TotalGrows(points, |points|);
    assert points[..|points|] == points;
    if total == 0.0 {
      return 0;
    }
    ShareBounds(total, q);
    hide Share;
    ms := Walk(points, Share(total, q), max);
  }

  lemma ShareBounds(total: real, q: real)
    requires total > 0.0 && q > 0.0
    ensures 0.0 < Share(total, q)
    ensures q <= 1.0 ==> Share(total, q) <= total
    ensures q > 1.0 ==> Share(total, q) > total
  {
  }

  datatype LatencySummary = LatencySummary(p50: nat, p90: nat, p99: nat, max: nat, sampleRows: nat)

  predicate OrderedRows(rows: seq<LogRow>) {
    forall i, j :: 0 <= i < j < |rows| ==> rows[i].ms <= rows[j].ms
  }

  function PointsOf(rows: seq<LogRow>, rate: real): (points: seq<Point>)
    requires rate > 0.0
    ensures |points| == |rows| && Positive(points)
    ensures forall i :: 0 <= i < |rows| ==> points[i].ms == rows[i].ms
  {
    seq(|rows|, i requires 0 <= i < |rows| => Weighted(rows[i], rate))
  }

  // A row kept by chance at rate r stands for 1/r requests, any other for one.
  lemma RowsStandFor(rows: seq<LogRow>, sampleRate: real, i: nat)
    requires i < |rows|
    ensures
      var p := PointsOf(rows, EffectiveRate(sampleRate))[i];
      p.ms == rows[i].ms && p.w == if rows[i].sampled && sampleRate > 0.0 then 1.0 / sampleRate else 1.0
  {
    var p := PointsOf(rows, EffectiveRate(sampleRate))[i];
    assert p == Weighted(rows[i], EffectiveRate(sampleRate));
  }

  method Latency(rows: seq<LogRow>, sampleRate: real) returns (s: LatencySummary)
    requires OrderedRows(rows)
    ensures
      var points := PointsOf(rows, EffectiveRate(sampleRate));
      && IsMax(points, s.max) && s.sampleRows == |rows|
      && (rows == [] ==> s == LatencySummary(0, 0, 0, 0, 0))
      && (rows != [] ==>
            IsQuantile(points, 0.5, s.p50) && IsQuantile(points, 0.9, s.p90) && IsQuantile(points, 0.99, s.p99))
    ensures s.p50 <= s.p90 <= s.p99 <= s.max
  {
    var rate := EffectiveRate(sampleRate);
    var points: seq<Point>, total, max := [], 0.0, 0;
    ghost var all := PointsOf(rows, rate);
    for i := 0 to |rows|
      invariant points == all[..i] && total == Total(points) && IsMax(points, max)
    {
      var p := Weighted(rows[i], rate);
      assert all[..i + 1] == all[..i] + [p];
      PrefixStep(all, i);
      total := total + p.w;
      if p.ms > max {
        max := p.ms;
      }
      MaxStep(points, p, max);
      points := points + [p];
    }
    assert points == all;
    var p50 := Quantile(points, total, max, 0.5);
    var p90 := Quantile(points, total, max, 0.9);
    var p99 := Quantile(points, total, max, 0.99);
    if rows != [] {
      QuantilesAscend(points, 0.5, 0.9, p50, p90);
      QuantilesAscend(points, 0.9, 0.99, p90, p99);
    }
    return LatencySummary(p50, p90, p99, max, |points|);
  }

  lemma MaxStep(points: seq<Point>, p: Point, max: nat)
    requires exists old_ :: IsMax(points, old_) && max == if p.ms > old_ then p.ms else old_
    ensures IsMax(points + [p], max)
  {
    var old_ :| IsMax(points, old_) && max == if p.ms > old_ then p.ms else old_;
    var all := points + [p];
    if p.ms >= old_ {
      assert all[|points|].ms == max;
    } else {
      var i :| 0 <= i < |points| && points[i].ms == old_;
      assert all[i].ms == max;
    }
  }

  // The same walk over one operation's rows, with its slowest as the fallback,
  // which is never taken.
  method OperationP95(points: seq<Point>) returns (p95: nat)
    requires Positive(points) && Ascending(points) && points != []
    ensures IsQuantile(points, 0.95, p95)
  {
    var total := 0.0;
    for i := 0 to |points|
      invariant total == Total(points[..i])
    {
      PrefixStep(points, i);
      total := total + points[i].w;
    }
    assert points[..|points|] == points;
    p95 := Quantile(points, total, points[|points| - 1].ms, 0.95);
  }

  // A larger share is never reached sooner.
  lemma QuantilesAscend(points: seq<Point>, q1: real, q2: real, m1: nat, m2: nat)
    requires Positive(points) && points != [] && 0.0 < q1 <= q2
    requires IsQuantile(points, q1, m1) && IsQuantile(points, q2, m2)
    ensures m1 <= m2
  {
    TotalGrows(points, |points|);
    assert points[..|points|] == points;
    ShareGrows(Total(points), q1, q2);
    hide Share;
    ReachesAscend(points, Share(Total(points), q1), Share(Total(points), q2), m1, m2);
  }

  lemma ReachesAscend(points: seq<Point>, t1: real, t2: real, m1: nat, m2: nat)
    requires t1 <= t2 && Reaches(points, t1, m1) && Reaches(points, t2, m2)
    ensures m1 <= m2
  {
  }

  lemma ShareGrows(total: real, q1: real, q2: real)
    requires total >= 0.0 && q1 <= q2
    ensures Share(total, q1) <= Share(total, q2)
  {
  }

  lemma QuantileIsUnique(points: seq<Point>, q: real, m1: nat, m2: nat)
    requires IsQuantile(points, q, m1) && IsQuantile(points, q, m2)
    ensures m1 == m2
  {
  }

  // ------------------------------------------------------ no sampling

  lemma {:induction false} UnitTotal(points: seq<Point>)
    requires forall i :: 0 <= i < |points| ==> points[i].w == 1.0
    ensures Total(points) == |points| as real
  {
    if points != [] {
      UnitTotal(points[..|points| - 1]);
    }
  }

  // At rate 1 every row is one request, and the quantile q of n rows is the one
  // at the rank nearest above q times n, and no other duration.
  lemma RateOneIsNearestRank(rows: seq<LogRow>, q: real, k: nat)
    requires OrderedRows(rows) && k < |rows|
    requires k as real < |rows| as real * q <= k as real + 1.0
    ensures forall ms :: IsQuantile(PointsOf(rows, 1.0), q, ms) <==> ms == rows[k].ms
  {
    var points := PointsOf(rows, 1.0);
    assert Share(|rows| as real, q) == |rows| as real * q;
    hide Share, Total, WeightUpTo;
    assert forall i :: 0 <= i < |points| ==> points[i].w == 1.0;
    UnitTotal(points);
    UnitTotal(points[..k]);
    UnitTotal(points[..k + 1]);
    FirstToReach(points, Share(Total(points), q), k);
    forall ms | IsQuantile(points, q, ms) ensures ms == rows[k].ms {
      QuantileIsUnique(points, q, ms, rows[k].ms);
    }
  }
}
