/** The metric queries of the database layer (database.py), over the `data`
    table given as a sequence of rows: the subreddit row filter and order of
    `get_rows_for_subreddit`, and the nearest-row selection and weighting of
    `get_interpolated_data`. Times are whole seconds. */
module Database {
  import opened Collections

  /** The four metrics of a row: subscribers, submissions, comment rate, mentions. */
  datatype Metrics = Metrics(subscribers: real, submissions: real, commentRate: real, mentions: real)

  /** Names the four metrics, to state a fact about each of them at once. */
  datatype Metric = Subscribers | Submissions | CommentRate | Mentions

  function Get(m: Metrics, f: Metric): real {
    match f
    case Subscribers => m.subscribers
    case Submissions => m.submissions
    case CommentRate => m.commentRate
    case Mentions => m.mentions
  }

  /** A row of the `data` table. */
  datatype Row = Row(subreddit: string, startTime: int, endTime: int, metrics: Metrics)

  /** Neither a newer nor an older row (the source then slices `None` and raises
      `TypeError`), or only a newer one (`ValueError`). */
  datatype InterpolationError = NoRows | CannotInterpolate

  function Scale(w: real, m: Metrics): Metrics {
    Metrics(w * m.subscribers, w * m.submissions, w * m.commentRate, w * m.mentions)
  }

  function Add(a: Metrics, b: Metrics): Metrics {
    Metrics(a.subscribers + b.subscribers, a.submissions + b.submissions,
            a.commentRate + b.commentRate, a.mentions + b.mentions)
  }

  // ---------------------------------------------------------------------------
  // get_rows_for_subreddit

  predicate InWindow(r: Row, subreddit: string, start: int, end: int) {
    r.subreddit == subreddit && r.endTime < end && r.startTime > start
  }

  /** The rows of the subreddit that end before `end` and start after `start`, in table order. */
  function RowsInWindow(table: seq<Row>, subreddit: string, start: int, end: int): (rows: seq<Row>)
    ensures forall r :: r in rows ==> InWindow(r, subreddit, start, end)
    ensures forall r :: multiset(rows)[r] == if InWindow(r, subreddit, start, end) then multiset(table)[r] else 0
  {
    if |table| == 0 then []
    else
      var init := table[..|table| - 1];
      var last := table[|table| - 1];
      assert table == init + [last];
      if InWindow(last, subreddit, start, end) then RowsInWindow(init, subreddit, start, end) + [last]
      else RowsInWindow(init, subreddit, start, end)
  }

  predicate EndTimeDescending(rows: seq<Row>) {
    forall i, j :: 0 <= i < j < |rows| ==> rows[i].endTime >= rows[j].endTime
  }

  /** Inserts a row into rows ordered by descending end time, after the rows that end no earlier. */
  function InsertByEndTime(r: Row, rows: seq<Row>): (out: seq<Row>)
    requires EndTimeDescending(rows)
    ensures EndTimeDescending(out)
    ensures multiset(out) == multiset(rows) + multiset{r}
  {
    if |rows| == 0 then [r]
    else if rows[0].endTime <= r.endTime then
      ConsDescending(r, rows);
      [r] + rows
    else
      var rest := InsertByEndTime(r, rows[1..]);
      assert rows == [rows[0]] + rows[1..];
      EndsNoLaterThan(rest, rows[1..], r, rows[0].endTime);
      ConsDescending(rows[0], rest);
      [rows[0]] + rest
  }

  /** A row that ends no earlier than the head of descending rows keeps them descending in front. */
  lemma ConsDescending(x: Row, rows: seq<Row>)
    requires EndTimeDescending(rows)
    requires forall i :: 0 <= i < |rows| ==> rows[i].endTime <= x.endTime
    ensures EndTimeDescending([x] + rows)
  {
    var out := [x] + rows;
    forall i, j | 0 <= i < j < |out|
      ensures out[i].endTime >= out[j].endTime
    {
      if i > 0 {
        assert out[i] == rows[i - 1] && out[j] == rows[j - 1];
      } else {
        assert out[j] == rows[j - 1];
      }
    }
  }

  /** A reordering of `tail` plus `r` ends no later than `bound` when they all do. */
  lemma EndsNoLaterThan(rest: seq<Row>, tail: seq<Row>, r: Row, bound: int)
    requires multiset(rest) == multiset(tail) + multiset{r}
    requires forall i :: 0 <= i < |tail| ==> tail[i].endTime <= bound
    requires r.endTime <= bound
    ensures forall i :: 0 <= i < |rest| ==> rest[i].endTime <= bound
  {
    forall i | 0 <= i < |rest|
      ensures rest[i].endTime <= bound
    {
      assert rest[i] in multiset(rest);
      assert rest[i] in tail || rest[i] == r;
    }
  }

  /** `ORDER BY end_time DESC`. */
  function SortByEndTimeDesc(rows: seq<Row>): (out: seq<Row>)
    ensures EndTimeDescending(out)
    ensures multiset(out) == multiset(rows)
  {
    if |rows| == 0 then []
    else
      assert rows == [rows[0]] + rows[1..];
      InsertByEndTime(rows[0], SortByEndTimeDesc(rows[1..]))
  }

  /** `get_rows_for_subreddit`: start defaults to the epoch and end to the current
      time `now`. */
  function RowsForSubreddit(table: seq<Row>, subreddit: string, start: Option<int>, end: Option<int>, now: int): (rows: seq<Row>)
    ensures EndTimeDescending(rows)
    ensures forall r :: multiset(rows)[r] ==
              if InWindow(r, subreddit, if start.None? then 0 else start.value, if end.None? then now else end.value)
              then multiset(table)[r] else 0
  {
    var s := if start.None? then 0 else start.value;
    var e := if end.None? then now else end.value;
    SortByEndTimeDesc(RowsInWindow(table, subreddit, s, e))
  }

  // ---------------------------------------------------------------------------
  // get_interpolated_data

  /** The subreddit's row with the smallest end time after `t`; of several, the
      first in table order. */
  function NextNewer(table: seq<Row>, subreddit: string, t: int): (r: Option<Row>)
    ensures r.None? <==> forall i :: 0 <= i < |table| ==> !(table[i].subreddit == subreddit && table[i].endTime > t)
    ensures r.Some? ==> r.value in table && r.value.subreddit == subreddit && r.value.endTime > t
    ensures r.Some? ==> forall i :: 0 <= i < |table| && table[i].subreddit == subreddit && table[i].endTime > t
                          ==> r.value.endTime <= table[i].endTime
  {
    if |table| == 0 then None
    else
      var init := table[..|table| - 1];
      var last := table[|table| - 1];
      assert forall i :: 0 <= i < |init| ==> init[i] == table[i];
      var best := NextNewer(init, subreddit, t);
      if last.subreddit == subreddit && last.endTime > t && (best.None? || last.endTime < best.value.endTime)
      then Some(last) else best
  }

  /** The subreddit's row with the largest end time before `t`; of several, the
      first in table order. */
  function NextOlder(table: seq<Row>, subreddit: string, t: int): (r: Option<Row>)
    ensures r.None? <==> forall i :: 0 <= i < |table| ==> !(table[i].subreddit == subreddit && table[i].endTime < t)
    ensures r.Some? ==> r.value in table && r.value.subreddit == subreddit && r.value.endTime < t
    ensures r.Some? ==> forall i :: 0 <= i < |table| && table[i].subreddit == subreddit && table[i].endTime < t
                          ==> r.value.endTime >= table[i].endTime
  {
    if |table| == 0 then None
    else
      var init := table[..|table| - 1];
      var last := table[|table| - 1];
      assert forall i :: 0 <= i < |init| ==> init[i] == table[i];
      var best := NextOlder(init, subreddit, t);
      if last.subreddit == subreddit && last.endTime < t && (best.None? || last.endTime > best.value.endTime)
      then Some(last) else best
  }

  /** The weight the source gives the newer row: `(newer_t - t) / interval`. It is
      1 at the older row's end time, 0 at the newer row's, and strictly between
      the two in between. */
  function WeightNewer(newer: Row, older: Row, t: int): (w: real)
    requires newer.endTime != older.endTime
    ensures t == older.endTime ==> w == 1.0
    ensures t == newer.endTime ==> w == 0.0
    ensures older.endTime < t < newer.endTime ==> 0.0 < w < 1.0
  {
    var w := (newer.endTime - t) as real / (newer.endTime - older.endTime) as real;
    // The branch only brings the lemma, which needs t strictly between the rows, into scope.
    if older.endTime < t < newer.endTime then
      FractionBounds((newer.endTime - t) as real, (newer.endTime - older.endTime) as real);
      w
    else
      w
  }

  /** A fraction of a larger positive number lies strictly between 0 and 1. */
  lemma FractionBounds(a: real, b: real)
    requires 0.0 < a < b
    ensures 0.0 < a / b < 1.0
  {
    var q := a / b;
    assert q * b == a;
    if q >= 1.0 {
      assert false;
    }
    if q <= 0.0 {
      assert false;
    }
  }

  /** The weight the source gives the older row: `(t - older_t) / interval`, the
      complement of the newer row's weight. */
  function WeightOlder(newer: Row, older: Row, t: int): (w: real)
    requires newer.endTime != older.endTime
    ensures w == 1.0 - WeightNewer(newer, older, t)
  {
    var interval := (newer.endTime - older.endTime) as real;
    var a, b := (newer.endTime - t) as real, (t - older.endTime) as real;
    assert a / interval + b / interval == (a + b) / interval == 1.0;
    b / interval
  }

  /** Between the two rows both weights lie strictly between 0 and 1 and sum to 1. */
  lemma WeightsAreConvex(newer: Row, older: Row, t: int)
    requires older.endTime < t < newer.endTime
    ensures 0.0 < WeightNewer(newer, older, t) < 1.0 && 0.0 < WeightOlder(newer, older, t) < 1.0
    ensures WeightNewer(newer, older, t) + WeightOlder(newer, older, t) == 1.0
  {
    var interval := (newer.endTime - older.endTime) as real;
    var a := (newer.endTime - t) as real;
    var b := (t - older.endTime) as real;
    assert a + b == interval;
    assert a / interval + b / interval == (a + b) / interval;
    assert a / interval < interval / interval;
    assert b / interval < interval / interval;
  }

  /** `x` lies between `a` and `b`, in either order. */
  predicate Between(x: real, a: real, b: real) {
    (a <= x <= b) || (b <= x <= a)
  }

  /** Every metric of `m` lies between the same metric of `a` and of `b`. */
  predicate Within(m: Metrics, a: Metrics, b: Metrics) {
    Between(m.subscribers, a.subscribers, b.subscribers) && Between(m.submissions, a.submissions, b.submissions)
    && Between(m.commentRate, a.commentRate, b.commentRate) && Between(m.mentions, a.mentions, b.mentions)
  }

  /** A mix of two numbers with weights in (0, 1) that sum to 1 lies between them. */
  lemma MixBetween(w: real, v: real, x: real, a: real, b: real)
    requires 0.0 < w < 1.0 && v == 1.0 - w && x == w * a + v * b
    ensures Between(x, a, b)
  {
    var d := a - b;
    assert x - b == w * d;
    assert a - x == v * d;
    if d >= 0.0 {
      assert w * d >= 0.0;
      assert v * d >= 0.0;
    } else {
      var e := -d;
      assert w * e >= 0.0 && w * d == -(w * e);
      assert v * e >= 0.0 && v * d == -(v * e);
    }
  }

  /** A mix of two rows' metrics with weights in (0, 1) that sum to 1 lies
      between them, metric by metric. */
  lemma MixWithin(w: real, v: real, a: Metrics, b: Metrics)
    requires 0.0 < w < 1.0 && v == 1.0 - w
    ensures Within(Add(Scale(w, a), Scale(v, b)), a, b)
  {
    var m := Add(Scale(w, a), Scale(v, b));
    MixBetween(w, v, m.subscribers, a.subscribers, b.subscribers);
    MixBetween(w, v, m.submissions, a.submissions, b.submissions);
    MixBetween(w, v, m.commentRate, a.commentRate, b.commentRate);
    MixBetween(w, v, m.mentions, a.mentions, b.mentions);
  }

  /** `weight_newer * newer[1:] + weight_older * older[1:]`, as written: strictly
      between the two rows every metric lies between the rows' values. */
  function Combined(newer: Row, older: Row, t: int): (m: Metrics)
    requires newer.endTime != older.endTime
    ensures older.endTime < t < newer.endTime ==> Within(m, newer.metrics, older.metrics)
  {
    var w, v := WeightNewer(newer, older, t), WeightOlder(newer, older, t);
    var m := Add(Scale(w, newer.metrics), Scale(v, older.metrics));
    // The branch only brings the lemma, which needs weights in (0, 1), into scope.
    if older.endTime < t < newer.endTime then
      MixWithin(w, v, newer.metrics, older.metrics);
      m
    else
      m
  }

  /** `get_interpolated_data`, as written. */
  function InterpolatedData(table: seq<Row>, subreddit: string, t: int): (r: Result<Metrics, InterpolationError>)
    ensures r == Failure(NoRows) <==> NextNewer(table, subreddit, t).None? && NextOlder(table, subreddit, t).None?
    ensures r == Failure(CannotInterpolate) <==> NextNewer(table, subreddit, t).Some? && NextOlder(table, subreddit, t).None?
    ensures NextNewer(table, subreddit, t).None? && NextOlder(table, subreddit, t).Some? ==>
              r == Success(NextOlder(table, subreddit, t).value.metrics)
  {
    match (NextNewer(table, subreddit, t), NextOlder(table, subreddit, t))
    case (None, None) => Failure(NoRows)
    case (None, Some(older)) => Success(older.metrics)
    case (Some(_), None) => Failure(CannotInterpolate)
    case (Some(newer), Some(older)) => Success(Combined(newer, older, t))
  }

  /** With rows on both sides, the result is a combination of the two rows'
      metrics whose weights are convex; the weight of the newer row is the
      distance from `t` to the newer row's end time. */
  lemma InterpolatedBetweenRows(table: seq<Row>, subreddit: string, t: int)
    requires NextNewer(table, subreddit, t).Some? && NextOlder(table, subreddit, t).Some?
    ensures var newer := NextNewer(table, subreddit, t).value;
            var older := NextOlder(table, subreddit, t).value;
            older.endTime < t < newer.endTime
            && InterpolatedData(table, subreddit, t) == Success(Combined(newer, older, t))
            && WeightNewer(newer, older, t) + WeightOlder(newer, older, t) == 1.0
            && 0.0 < WeightNewer(newer, older, t) < 1.0
  {
    var newer := NextNewer(table, subreddit, t).value;
    var older := NextOlder(table, subreddit, t).value;
    WeightsAreConvex(newer, older, t);
  }

  /** The weights as written are swapped: at the older row's end time the formula
      gives the newer row's metrics, and at the newer row's end time the older
      row's. */
  lemma CombinedEndpointsSwapped(newer: Row, older: Row)
    requires older.endTime < newer.endTime
    ensures Combined(newer, older, older.endTime) == newer.metrics
    ensures Combined(newer, older, newer.endTime) == older.metrics
  {
    var interval := (newer.endTime - older.endTime) as real;
    assert WeightNewer(newer, older, older.endTime) == 1.0 && WeightOlder(newer, older, older.endTime) == 0.0;
    assert WeightNewer(newer, older, newer.endTime) == 0.0 && WeightOlder(newer, older, newer.endTime) == 1.0;
  }

  /** The rows of the concrete case below: mentions 0 at time 0 and 10 at time 10. */
  function ExampleOlder(): Row { Row("r", 0, 0, Metrics(0.0, 0.0, 0.0, 0.0)) }
  function ExampleNewer(): Row { Row("r", 0, 10, Metrics(0.0, 0.0, 0.0, 10.0)) }

  /** The weights of the concrete case below at time 1. */
  lemma ExampleWeights()
    ensures WeightNewer(ExampleNewer(), ExampleOlder(), 1) == 0.9
    ensures WeightOlder(ExampleNewer(), ExampleOlder(), 1) == 0.1
  {
    var newer, older := ExampleNewer(), ExampleOlder();
    assert (newer.endTime - 1) as real == 9.0 && (1 - older.endTime) as real == 1.0;
    assert (newer.endTime - older.endTime) as real == 10.0;
  }

  /** A concrete case: mentions 0 at time 0 and 10 at time 10 give 9 at time 1 as
      written, where linear interpolation gives 1. */
  lemma CombinedCounterexample()
    ensures Combined(ExampleNewer(), ExampleOlder(), 1) == Metrics(0.0, 0.0, 0.0, 9.0)
    ensures LinearCombined(ExampleNewer(), ExampleOlder(), 1) == Metrics(0.0, 0.0, 0.0, 1.0)
  {
    ExampleWeights();
    var newer, older := ExampleNewer(), ExampleOlder();
    var wn, wo := WeightNewer(newer, older, 1), WeightOlder(newer, older, 1);
    assert Scale(wn, newer.metrics) == Metrics(0.0, 0.0, 0.0, 9.0);
    assert Scale(wo, older.metrics) == Metrics(0.0, 0.0, 0.0, 0.0);
    assert Scale(wo, newer.metrics) == Metrics(0.0, 0.0, 0.0, 1.0);
    assert Scale(wn, older.metrics) == Metrics(0.0, 0.0, 0.0, 0.0);
  }

  /** The table of the two example rows. */
  function ExampleTable(): seq<Row> { [ExampleOlder(), ExampleNewer()] }

  /** In the example table, the two rows are the ones on either side of time 1. */
  lemma ExampleLookup(table: seq<Row>)
    requires table == ExampleTable()
    ensures NextNewer(table, "r", 1) == Some(ExampleNewer())
    ensures NextOlder(table, "r", 1) == Some(ExampleOlder())
  {
    assert table[..1] == [ExampleOlder()] && table[..1][..0] == [];
  }

  /** The same case through the table lookup, as written: 9 mentions at time 1. */
  lemma InterpolatedCounterexample(table: seq<Row>)
    requires table == ExampleTable()
    ensures InterpolatedData(table, "r", 1) == Success(Metrics(0.0, 0.0, 0.0, 9.0))
  {
    ExampleLookup(table);
    CombinedCounterexample();
  }

  /** The same case through the table lookup, corrected: 1 mention at time 1. */
  lemma LinearInterpolatedExample(table: seq<Row>)
    requires table == ExampleTable()
    ensures LinearInterpolatedData(table, "r", 1) == Success(Metrics(0.0, 0.0, 0.0, 1.0))
  {
    ExampleLookup(table);
    CombinedCounterexample();
  }

  /** Linear interpolation between the two rows: each row weighted by the
      closeness of `t` to it. */
  function LinearCombined(newer: Row, older: Row, t: int): Metrics
    requires newer.endTime != older.endTime
  {
    Add(Scale(WeightOlder(newer, older, t), newer.metrics), Scale(WeightNewer(newer, older, t), older.metrics))
  }

  /** `get_interpolated_data` with the weights each applied to the row they measure closeness to. */
  function LinearInterpolatedData(table: seq<Row>, subreddit: string, t: int): (r: Result<Metrics, InterpolationError>)
    ensures r.Failure? <==> InterpolatedData(table, subreddit, t).Failure?
    ensures NextNewer(table, subreddit, t).None? ==> r == InterpolatedData(table, subreddit, t)
  {
    match (NextNewer(table, subreddit, t), NextOlder(table, subreddit, t))
    case (None, None) => Failure(NoRows)
    case (None, Some(older)) => Success(older.metrics)
    case (Some(_), None) => Failure(CannotInterpolate)
    case (Some(newer), Some(older)) => Success(LinearCombined(newer, older, t))
  }

  /** The corrected combination meets each row at that row's end time, and every
      metric moves by the same amount for every second in between: one over the
      interval times the difference between the rows. */
  lemma LinearCombinedIsLinear(newer: Row, older: Row, t: int)
    requires older.endTime < newer.endTime
    ensures LinearCombined(newer, older, older.endTime) == older.metrics
    ensures LinearCombined(newer, older, newer.endTime) == newer.metrics
    ensures forall f :: Get(LinearCombined(newer, older, t + 1), f) - Get(LinearCombined(newer, older, t), f)
                        == (1.0 / (newer.endTime - older.endTime) as real) * (Get(newer.metrics, f) - Get(older.metrics, f))
  {
    LinearCombinedEndpoints(newer, older);
    LinearCombinedStep(newer, older, t);
  }

  /** The corrected combination is each row's metrics at that row's end time. */
  lemma LinearCombinedEndpoints(newer: Row, older: Row)
    requires older.endTime < newer.endTime
    ensures LinearCombined(newer, older, older.endTime) == older.metrics
    ensures LinearCombined(newer, older, newer.endTime) == newer.metrics
  {
    assert WeightNewer(newer, older, older.endTime) == 1.0 && WeightOlder(newer, older, older.endTime) == 0.0;
    assert WeightNewer(newer, older, newer.endTime) == 0.0 && WeightOlder(newer, older, newer.endTime) == 1.0;
  }

  /** One second later every metric of the corrected combination has moved by one
      over the interval times the difference between the rows. */
  lemma LinearCombinedStep(newer: Row, older: Row, t: int)
    requires older.endTime < newer.endTime
    ensures forall f :: Get(LinearCombined(newer, older, t + 1), f) - Get(LinearCombined(newer, older, t), f)
                        == (1.0 / (newer.endTime - older.endTime) as real) * (Get(newer.metrics, f) - Get(older.metrics, f))
  {
    WeightStep(newer, older, t);
    var wo, wn := WeightOlder(newer, older, t), WeightNewer(newer, older, t);
    var wo', wn' := WeightOlder(newer, older, t + 1), WeightNewer(newer, older, t + 1);
    MixStep(wo, wn, wo', wn', 1.0 / (newer.endTime - older.endTime) as real, newer.metrics, older.metrics,
            LinearCombined(newer, older, t + 1), LinearCombined(newer, older, t));
  }

  /** One second later the older row's weight grows, and the newer row's shrinks,
      by one over the interval. */
  lemma WeightStep(newer: Row, older: Row, t: int)
    requires older.endTime < newer.endTime
    ensures var step := 1.0 / (newer.endTime - older.endTime) as real;
            WeightOlder(newer, older, t + 1) == WeightOlder(newer, older, t) + step
            && WeightNewer(newer, older, t + 1) == WeightNewer(newer, older, t) - step
  {
    var interval := (newer.endTime - older.endTime) as real;
    var b := (t - older.endTime) as real;
    assert (b + 1.0) / interval == b / interval + 1.0 / interval;
  }

  /** Moving `step` of weight from `o` to `n` changes every metric of the mix by
      `step` times the two rows' difference in it. */
  lemma MixStep(wo: real, wn: real, wo': real, wn': real, step: real, n: Metrics, o: Metrics, next: Metrics, now: Metrics)
    requires wo' == wo + step && wn' == wn - step
    requires next == Add(Scale(wo', n), Scale(wn', o)) && now == Add(Scale(wo, n), Scale(wn, o))
    ensures forall f :: Get(next, f) - Get(now, f) == step * (Get(n, f) - Get(o, f))
  {
    forall f
      ensures Get(next, f) - Get(now, f) == step * (Get(n, f) - Get(o, f))
    {
      MixStepAt(wo, wn, wo', wn', step, n, o, f);
    }
  }

  /** Moving `step` of weight from `o` to `n` changes a metric of the mix by
      `step` times the two rows' difference in it. */
  lemma MixStepAt(wo: real, wn: real, wo': real, wn': real, step: real, n: Metrics, o: Metrics, f: Metric)
    requires wo' == wo + step && wn' == wn - step
    ensures Get(Add(Scale(wo', n), Scale(wn', o)), f) - Get(Add(Scale(wo, n), Scale(wn, o)), f)
            == step * (Get(n, f) - Get(o, f))
  {
    var next, now := Get(Add(Scale(wo', n), Scale(wn', o)), f), Get(Add(Scale(wo, n), Scale(wn, o)), f);
    MixFieldAt(wo', wn', n, o, f);
    MixFieldAt(wo, wn, n, o, f);
    StepDifference(wo, wn, wo', wn', step, Get(n, f), Get(o, f), next, now);
  }

  /** A metric of a mix is the mix of that metric. */
  lemma MixFieldAt(w: real, v: real, n: Metrics, o: Metrics, f: Metric)
    ensures Get(Add(Scale(w, n), Scale(v, o)), f) == w * Get(n, f) + v * Get(o, f)
  {
  }

  /** Moving `step` of weight from one value to the other changes the mix by
      `step` times their difference. */
  lemma StepDifference(wo: real, wn: real, wo': real, wn': real, step: real, n: real, o: real, next: real, now: real)
    requires wo' == wo + step && wn' == wn - step
    requires next == wo' * n + wn' * o && now == wo * n + wn * o
    ensures next - now == step * (n - o)
  {
  }
}
