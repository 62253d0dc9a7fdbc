/** The window engine behind the dashboard: the lookback table, the
    timestamp filter, the last test, the 24-hour averages and the chart
    axis bounds. Everything here is a pure function of the records read
    from the log, the selected lookback and the current time. */
module Window {
  import opened Records

  const Minute: int := 60
  const Hour: int := 60 * Minute
  const Day: int := 24 * Hour

  /** The selectable lookbacks: a key is a number of minutes written in
      decimal, the value is the duration in seconds. */
  const Lookbacks: map<string, int> := map[
    "15" := 15 * Minute,
    "30" := 30 * Minute,
    "60" := 1 * Hour,
    "360" := 6 * Hour,
    "720" := 12 * Hour,
    "1440" := 1 * Day,
    "4320" := 3 * Day,
    "7200" := 5 * Day,
    "10080" := 7 * Day,
    "20160" := 14 * Day,
    "43200" := 30 * Day,
    "86400" := 60 * Day,
    "129600" := 90 * Day,
    "172800" := 120 * Day,
    "525600" := 365 * Day,
    "1051200" := 730 * Day
  ]

  /** The key used when the request carries no `interval` parameter. */
  const DefaultInterval: string := "60"

  /** Percentage of the value spread added above and below a chart's data. */
  const BufferPercent: real := 10.0

  // ---------------------------------------------------------------------
  // Lookback selection

  /** The key a request selects: the `interval` parameter when given,
      otherwise the default, which is always in the table. */
  function IntervalKey(interval: Option<string>): (key: string)
    ensures interval.None? ==> key == DefaultInterval && key in Lookbacks
    ensures interval.Some? ==> key == interval.value
  {
    match interval
    case None => DefaultInterval
    case Some(key) => key
  }

  /** The lookback duration for a request's `interval` parameter. A key
      outside the table is an error carrying that key; only a missing
      parameter falls back to the default. */
  function Lookback(interval: Option<string>): (r: Result<int, string>)
    ensures interval.None? ==> r == Ok(Hour)
    ensures interval.Some? ==> (r.Ok? <==> interval.value in Lookbacks)
    ensures r.Err? ==> r.error == interval.value && r.error !in Lookbacks
    ensures r.Ok? ==> 15 * Minute <= r.value <= 730 * Day
    ensures r.Ok? ==> r.value == Numeral(IntervalKey(interval)) * Minute
  {
    var key := IntervalKey(interval);
    if key in Lookbacks then
      LookbackKeyIsMinutes(key);
      Ok(Lookbacks[key])
    else Err(key)
  }

  function DigitValue(c: char): int
  {
    c as int - '0' as int
  }

  /** The number written by the first `n` characters of `s`, read as decimal digits. */
  function ParsePrefix(s: string, n: nat): int
    requires n <= |s|
  {
    if n == 0 then 0 else ParsePrefix(s, n - 1) * 10 + DigitValue(s[n - 1])
  }

  /** The number a string of decimal digits stands for. */
  function Numeral(s: string): int
  {
    ParsePrefix(s, |s|)
  }

  lemma ShortNumerals()
    ensures Numeral("15") == 15
      && Numeral("30") == 30
      && Numeral("60") == 60
      && Numeral("360") == 360
      && Numeral("720") == 720
  {
    assert ParsePrefix("15", 1) == 1;
    assert ParsePrefix("30", 1) == 3;
    assert ParsePrefix("60", 1) == 6;
    assert ParsePrefix("360", 1) == 3;
    assert ParsePrefix("360", 2) == 36;
    assert ParsePrefix("720", 1) == 7;
    assert ParsePrefix("720", 2) == 72;
  }

  lemma DayNumerals()
    ensures Numeral("1440") == 1440
      && Numeral("4320") == 4320
      && Numeral("7200") == 7200
      && Numeral("10080") == 10080
      && Numeral("20160") == 20160
  {
    assert ParsePrefix("1440", 1) == 1;
    assert ParsePrefix("1440", 2) == 14;
    assert ParsePrefix("1440", 3) == 144;
    assert ParsePrefix("4320", 1) == 4;
    assert ParsePrefix("4320", 2) == 43;
    assert ParsePrefix("4320", 3) == 432;
    assert ParsePrefix("7200", 1) == 7;
    assert ParsePrefix("7200", 2) == 72;
    assert ParsePrefix("7200", 3) == 720;
    assert ParsePrefix("10080", 1) == 1;
    assert ParsePrefix("10080", 2) == 10;
    assert ParsePrefix("10080", 3) == 100;
    assert ParsePrefix("10080", 4) == 1008;
    assert ParsePrefix("20160", 1) == 2;
    assert ParsePrefix("20160", 2) == 20;
    assert ParsePrefix("20160", 3) == 201;
    assert ParsePrefix("20160", 4) == 2016;
  }

  lemma MonthNumerals()
    ensures Numeral("43200") == 43200
      && Numeral("86400") == 86400
      && Numeral("129600") == 129600
      && Numeral("172800") == 172800
  {
    assert ParsePrefix("43200", 1) == 4;
    assert ParsePrefix("43200", 2) == 43;
    assert ParsePrefix("43200", 3) == 432;
    assert ParsePrefix("43200", 4) == 4320;
    assert ParsePrefix("86400", 1) == 8;
    assert ParsePrefix("86400", 2) == 86;
    assert ParsePrefix("86400", 3) == 864;
    assert ParsePrefix("86400", 4) == 8640;
    assert ParsePrefix("129600", 1) == 1;
    assert ParsePrefix("129600", 2) == 12;
    assert ParsePrefix("129600", 3) == 129;
    assert ParsePrefix("129600", 4) == 1296;
    assert ParsePrefix("129600", 5) == 12960;
    assert ParsePrefix("172800", 1) == 1;
    assert ParsePrefix("172800", 2) == 17;
    assert ParsePrefix("172800", 3) == 172;
    assert ParsePrefix("172800", 4) == 1728;
    assert ParsePrefix("172800", 5) == 17280;
  }

  lemma YearNumerals()
    ensures Numeral("525600") == 525600
      && Numeral("1051200") == 1051200
  {
    assert ParsePrefix("525600", 1) == 5;
    assert ParsePrefix("525600", 2) == 52;
    assert ParsePrefix("525600", 3) == 525;
    assert ParsePrefix("525600", 4) == 5256;
    assert ParsePrefix("525600", 5) == 52560;
    assert ParsePrefix("1051200", 1) == 1;
    assert ParsePrefix("1051200", 2) == 10;
    assert ParsePrefix("1051200", 3) == 105;
    assert ParsePrefix("1051200", 4) == 1051;
    assert ParsePrefix("1051200", 5) == 10512;
    assert ParsePrefix("1051200", 6) == 105120;
  }

  /** Every key of the table is its own duration counted in minutes. */
  lemma LookbackKeysAreMinutes()
    ensures forall key :: key in Lookbacks ==> Lookbacks[key] == Numeral(key) * Minute
  {
    ShortNumerals();
    DayNumerals();
    MonthNumerals();
    YearNumerals();
    assert Lookbacks.Keys == {"15", "30", "60", "360", "720", "1440", "4320", "7200", "10080", "20160", "43200", "86400", "129600", "172800", "525600", "1051200"};
  }

  /** One key of the table is its own duration counted in minutes. */
  lemma LookbackKeyIsMinutes(key: string)
    requires key in Lookbacks
    ensures Lookbacks[key] == Numeral(key) * Minute
  {
    LookbackKeysAreMinutes();
  }

  // ---------------------------------------------------------------------
  // Filtering by timestamp

  /** `a` can be obtained from `b` by deleting elements: it keeps their order. */
  ghost predicate Subsequence<T>(a: seq<T>, b: seq<T>)
    decreases |b|
  {
    if a == [] then true
    else if b == [] then false
    else (a[|a| - 1] == b[|b| - 1] && Subsequence(a[..|a| - 1], b[..|b| - 1]))
         || Subsequence(a, b[..|b| - 1])
  }

  /** The rows of `s` stamped strictly after `t`, in log order (a boolean
      mask `df[df['Timestamp'] > t]`). A row stamped exactly `t` is dropped. */
  function After(s: seq<Record>, t: int): (r: seq<Record>)
    ensures forall i :: 0 <= i < |r| ==> r[i].ts > t
  {
    if s == [] then []
    else
      var kept := After(s[..|s| - 1], t);
      if s[|s| - 1].ts > t then kept + [s[|s| - 1]] else kept
  }

  /** Unfolding `After` at the last row. */
  lemma AfterSnoc(init: seq<Record>, x: Record, t: int)
    ensures After(init + [x], t) == After(init, t) + (if x.ts > t then [x] else [])
  {
    assert (init + [x])[..|init|] == init;
  }

  /** The filter keeps every row stamped after `t`, as often as the log
      holds it, and no other row. */
  lemma {:induction false} AfterKeepsExactly(s: seq<Record>, t: int)
    ensures forall x :: multiset(After(s, t))[x] == if x.ts > t then multiset(s)[x] else 0
  {
    if s != [] {
      var init, x := s[..|s| - 1], s[|s| - 1];
      assert s == init + [x];
      AfterKeepsExactly(init, t);
      AfterSnoc(init, x, t);
    }
  }

  /** The filter keeps the log order. */
  lemma {:induction false} AfterKeepsOrder(s: seq<Record>, t: int)
    ensures Subsequence(After(s, t), s)
  {
    if s != [] {
      var init, x := s[..|s| - 1], s[|s| - 1];
      assert s == init + [x];
      AfterKeepsOrder(init, t);
      AfterSnoc(init, x, t);
      var kept := After(init, t);
      if x.ts > t {
        assert (kept + [x])[..|kept|] == kept;
      } else if kept != [] {
        assert kept[|kept| - 1].ts > t;
      }
    }
  }

  /** Filtering twice is filtering once by the later of the two bounds. */
  lemma {:induction false} AfterAfter(s: seq<Record>, a: int, b: int)
    ensures After(After(s, a), b) == After(s, if a >= b then a else b)
  {
    if s != [] {
      var init, x := s[..|s| - 1], s[|s| - 1];
      assert s == init + [x];
      AfterAfter(init, a, b);
      AfterSnoc(init, x, a);
      AfterSnoc(init, x, if a >= b then a else b);
      if x.ts > a {
        AfterSnoc(After(init, a), x, b);
      }
    }
  }

  // ---------------------------------------------------------------------
  // Last test

  /** The final row (`df.iloc[-1]`), absent when there is none. */
  function Last(s: seq<Record>): (r: Option<Record>)
    ensures r.None? <==> s == []
    ensures r.Some? ==> r.value == s[|s| - 1]
  {
    if s == [] then None else Some(s[|s| - 1])
  }

  /** A window's last test is absent exactly when no row is stamped after
      the bound. */
  lemma {:induction false} LastOfAfterAbsent(s: seq<Record>, t: int)
    ensures Last(After(s, t)).None? <==> forall i :: 0 <= i < |s| ==> s[i].ts <= t
  {
    if s != [] {
      var init, x := s[..|s| - 1], s[|s| - 1];
      assert s == init + [x];
      AfterSnoc(init, x, t);
      LastOfAfterAbsent(init, t);
    }
  }

  /** A window's last test is the LAST row of the log (in log order)
      stamped after the bound, whatever the timestamps of earlier rows. */
  lemma {:induction false} LastOfAfter(s: seq<Record>, t: int, i: int)
    requires 0 <= i < |s| && s[i].ts > t
    requires forall j :: i < j < |s| ==> s[j].ts <= t
    ensures Last(After(s, t)) == Some(s[i])
  {
    var init, x := s[..|s| - 1], s[|s| - 1];
    assert s == init + [x];
    AfterSnoc(init, x, t);
    if i < |s| - 1 {
      LastOfAfter(init, t, i);
    }
  }

  /** When the log's timestamps never go backwards, the last test is also a
      latest row of the window. */
  lemma {:induction false} LastIsLatestWhenOrdered(s: seq<Record>, t: int)
    requires forall i, j :: 0 <= i < j < |s| ==> s[i].ts <= s[j].ts
    ensures Last(After(s, t)).Some? ==>
      forall k :: 0 <= k < |After(s, t)| ==> After(s, t)[k].ts <= Last(After(s, t)).value.ts
  {
    if s != [] {
      var init, x := s[..|s| - 1], s[|s| - 1];
      assert s == init + [x];
      AfterSnoc(init, x, t);
      if x.ts > t {
        var w := After(init, t);
        AfterKeepsExactly(init, t);
        forall k | 0 <= k < |w|
          ensures w[k].ts <= x.ts
        {
          assert multiset(w)[w[k]] > 0;
          assert w[k] in init;
        }
      } else {
        LastIsLatestWhenOrdered(init, t);
      }
    }
  }

  // ---------------------------------------------------------------------
  // Averages

  /** The total of a column; a column without negative values has a
      non-negative total. */
  function Sum(xs: seq<real>): (total: real)
    ensures (forall i :: 0 <= i < |xs| ==> 0.0 <= xs[i]) ==> 0.0 <= total
  {
    if xs == [] then 0.0 else Sum(xs[..|xs| - 1]) + xs[|xs| - 1]
  }

  /** The smallest value (Python `min`). */
  function Min(xs: seq<real>): (m: real)
    requires xs != []
    ensures forall i :: 0 <= i < |xs| ==> m <= xs[i]
  {
    if |xs| == 1 then xs[0]
    else
      var m := Min(xs[..|xs| - 1]);
      if xs[|xs| - 1] < m then xs[|xs| - 1] else m
  }

  /** The largest value (Python `max`). */
  function Max(xs: seq<real>): (m: real)
    requires xs != []
    ensures forall i :: 0 <= i < |xs| ==> xs[i] <= m
  {
    if |xs| == 1 then xs[0]
    else
      var m := Max(xs[..|xs| - 1]);
      if xs[|xs| - 1] > m then xs[|xs| - 1] else m
  }

  /** The smallest value is one of the values. */
  lemma {:induction false} MinIn(xs: seq<real>)
    requires xs != []
    ensures Min(xs) in xs
  {
    if |xs| > 1 {
      var init := xs[..|xs| - 1];
      MinIn(init);
      assert Min(init) in xs by { assert init <= xs; }
    }
  }

  /** The largest value is one of the values. */
  lemma {:induction false} MaxIn(xs: seq<real>)
    requires xs != []
    ensures Max(xs) in xs
  {
    if |xs| > 1 {
      var init := xs[..|xs| - 1];
      MaxIn(init);
      assert Max(init) in xs by { assert init <= xs; }
    }
  }

  /** `x` added to itself `n` times. */
  function Times(n: nat, x: real): real
  {
    if n == 0 then 0.0 else Times(n - 1, x) + x
  }

  /** Adding `x` to itself `n` times is multiplying it by `n`. */
  lemma {:induction false} TimesIsProduct(n: nat, x: real)
    ensures Times(n, x) == n as real * x
  {
    if n > 0 {
      TimesIsProduct(n - 1, x);
    }
  }

  /** Bounds on a sum from bounds on its terms. */
  lemma {:induction false} SumBounds(xs: seq<real>, lo: real, hi: real)
    requires forall i :: 0 <= i < |xs| ==> lo <= xs[i] <= hi
    ensures Times(|xs|, lo) <= Sum(xs) <= Times(|xs|, hi)
  {
    if xs != [] {
      SumBounds(xs[..|xs| - 1], lo, hi);
    }
  }

  /** Dividing a total that lies between `n` times `lo` and `n` times `hi`
      by `n`. */
  lemma QuotientBounds(total: real, n: nat, lo: real, hi: real)
    requires n > 0 && Times(n, lo) <= total <= Times(n, hi)
    ensures lo <= total / n as real <= hi
  {
    TimesIsProduct(n, lo);
    TimesIsProduct(n, hi);
    var q := total / n as real;
    assert total == n as real * q;
  }

  /** The arithmetic mean (pandas `mean()`), absent for an empty column
      instead of a division by zero; it lies between the column's
      smallest and largest value. */
  function Mean(xs: seq<real>): (m: Option<real>)
    ensures m.None? <==> xs == []
    ensures m.Some? ==> Min(xs) <= m.value <= Max(xs)
  {
    if xs == [] then None
    else
      MeanBounds(xs);
      Some(Sum(xs) / |xs| as real)
  }

  /** The total divided by the count lies between the smallest and the
      largest value. */
  lemma MeanBounds(xs: seq<real>)
    requires xs != []
    ensures Min(xs) <= Sum(xs) / |xs| as real <= Max(xs)
  {
    SumBounds(xs, Min(xs), Max(xs));
    QuotientBounds(Sum(xs), |xs|, Min(xs), Max(xs));
  }

  // ---------------------------------------------------------------------
  // Chart axis bounds

  datatype Range = Range(lo: real, hi: real)

  /** The y-axis range of a chart (`set_y_range`): `[0, 1]` without data;
      otherwise the data's extent widened by a tenth of its spread on both
      sides, with the lower bound clamped at 0. Every non-negative value
      lies inside the range. */
  function YRange(values: seq<real>): (r: Range)
    ensures values == [] ==> r == Range(0.0, 1.0)
    ensures values != [] ==>
      var spread := Max(values) - Min(values);
      0.0 <= r.lo && r.hi == Max(values) + spread / 10.0 &&
      (r.lo == 0.0 || r.lo == Min(values) - spread / 10.0)
    ensures forall i :: 0 <= i < |values| && 0.0 <= values[i] ==> r.lo <= values[i] <= r.hi
    ensures values != [] && 0.0 <= Min(values) ==> r.lo <= Min(values) && r.lo <= r.hi
  {
    if values == [] then Range(0.0, 1.0)
    else
      var lo, hi := Min(values), Max(values);
      var buffer := (hi - lo) * (BufferPercent / 100.0);
      Range(if 0.0 >= lo - buffer then 0.0 else lo - buffer, hi + buffer)
  }

  // ---------------------------------------------------------------------
  // The whole window

  /** What the dashboard shows: the lookback start, the window, its last
      test and the rows the 24-hour averages are taken over. The averages
      and the chart ranges are computed from these rows. */
  datatype View = View(start: int, window: seq<Record>, last: Option<Record>, slice: seq<Record>)
  {
    /** The 24-hour average of metric `m`. */
    function Average(m: Metric): (a: Option<real>)
      ensures a.None? <==> slice == []
      ensures a.Some? ==> Min(Column(slice, m)) <= a.value <= Max(Column(slice, m))
    {
      Mean(Column(slice, m))
    }

    /** The y-axis range of the chart of metric `m`. */
    function AxisRange(m: Metric): (r: Range)
      ensures window == [] ==> r == Range(0.0, 1.0)
      ensures forall i :: 0 <= i < |window| && 0.0 <= Value(window[i], m) ==> r.lo <= Value(window[i], m) <= r.hi
    {
      YRange(Column(window, m))
    }
  }

  /** The rows averaged as "the last 24 hours": taken from the window,
      which is already cut at the lookback. */
  function Slice24h(window: seq<Record>, now: int): (slice: seq<Record>)
    ensures forall i :: 0 <= i < |slice| ==> slice[i].ts > now - Day
    ensures Subsequence(slice, window)
  {
    AfterKeepsOrder(window, now - Day);
    After(window, now - Day)
  }

  /** The 24-hour slice holds exactly the rows after the later of the
      lookback start and one day ago, in log order: with a lookback under a
      day it is the lookback window itself. */
  lemma SliceIsClipped(s: seq<Record>, duration: int, now: int)
    ensures Slice24h(After(s, now - duration), now) == After(s, if duration <= Day then now - duration else now - Day)
    ensures duration <= Day ==> Slice24h(After(s, now - duration), now) == After(s, now - duration)
  {
    AfterAfter(s, now - duration, now - Day);
  }

  /** What the dashboard shows for `records` with a lookback of `duration`
      seconds at time `now`. */
  function Summarize(records: seq<Record>, duration: int, now: int): (v: View)
    ensures v.start == now - duration
    ensures forall i :: 0 <= i < |v.window| ==> v.window[i].ts > v.start
    ensures forall i :: 0 <= i < |v.slice| ==> v.slice[i].ts > now - Day
  {
    var start := now - duration;
    var window := After(records, start);
    View(start, window, Last(window), Slice24h(window, now))
  }

  /** The window keeps the log order. */
  lemma SummaryWindowOrder(records: seq<Record>, duration: int, now: int)
    ensures Subsequence(Summarize(records, duration, now).window, records)
  {
    AfterKeepsOrder(records, now - duration);
  }

  /** The window holds exactly the rows stamped after the lookback start,
      as often as the log holds them. */
  lemma SummaryWindowRows(records: seq<Record>, duration: int, now: int)
    ensures var w := Summarize(records, duration, now).window;
      forall x :: multiset(w)[x] == if x.ts > now - duration then multiset(records)[x] else 0
  {
    AfterKeepsExactly(records, now - duration);
  }

  /** The last test is the last row of the log stamped after the lookback
      start. */
  lemma SummaryLastTest(records: seq<Record>, duration: int, now: int, i: int)
    requires 0 <= i < |records| && records[i].ts > now - duration
    requires forall j :: i < j < |records| ==> records[j].ts <= now - duration
    ensures Summarize(records, duration, now).last == Some(records[i])
  {
    LastOfAfter(records, now - duration, i);
  }

  /** The last test is absent exactly when no row is after the lookback start. */
  lemma SummaryNoLastTest(records: seq<Record>, duration: int, now: int)
    ensures Summarize(records, duration, now).last.None? <==>
      forall i :: 0 <= i < |records| ==> records[i].ts <= now - duration
  {
    LastOfAfterAbsent(records, now - duration);
  }

  /** The 24-hour averages are taken over the rows after the later of the
      lookback start and one day ago, and each is absent exactly when there
      is no such row. */
  lemma SummaryAverages(records: seq<Record>, duration: int, now: int, m: Metric)
    ensures var v := Summarize(records, duration, now);
      var bound := if duration <= Day then now - duration else now - Day;
      v.slice == After(records, bound) &&
      (v.Average(m).None? <==> forall i :: 0 <= i < |records| ==> records[i].ts <= bound)
  {
    var bound := if duration <= Day then now - duration else now - Day;
    SliceIsClipped(records, duration, now);
    LastOfAfterAbsent(records, bound);
  }

  /** Every non-negative value in the window lies inside its chart's range. */
  lemma SummaryRanges(records: seq<Record>, duration: int, now: int, m: Metric, i: int)
    requires var v := Summarize(records, duration, now);
      0 <= i < |v.window| && 0.0 <= Value(v.window[i], m)
    ensures var v := Summarize(records, duration, now);
      v.AxisRange(m).lo <= Value(v.window[i], m) <= v.AxisRange(m).hi
  {
  }
}
