/** Worked examples on small logs: the boundary of the lookback, the empty
    log, an unknown interval, the 24-hour averages under two lookbacks, and
    the job and the handler writing to one log. */
module Scenarios {
  import opened Records
  import opened Window
  import opened ResultLog
  import opened Monitor

  /** A test logged at 10:00 is not in the one-hour window at 11:00: the
      filter is strictly after the lookback start. */
  lemma BoundaryRowExcluded()
    ensures var a := Record(10 * Hour, 50.0, 10.0, 20.0, "A");
      var v := Summarize([a], Hour, 11 * Hour);
      v.window == [] && v.last == None && v.Average(Ping) == None && v.AxisRange(Ping) == Range(0.0, 1.0)
  {
    var a := Record(10 * Hour, 50.0, 10.0, 20.0, "A");
    assert [a] == [] + [a];
    AfterSnoc([], a, 11 * Hour - Hour);
  }

  /** A log holding only its header gives an empty dashboard with the
      default one-hour lookback: no last test, no averages, and the default
      chart range. */
  lemma HeaderOnlyPage(now: int, m: Metric)
    ensures var page := Index(true, [Header], None, now);
      page.Ok? && page.value.start == now - Hour && page.value.window == [] && page.value.last == None &&
      page.value.Average(m) == None && page.value.AxisRange(m) == Range(0.0, 1.0)
  {
    assert [Header][1..] == [];
  }

  /** An interval outside the table is an error, but only once the log
      could be read. */
  lemma UnknownIntervalPage(now: int)
    ensures Index(true, [Header], Some("45"), now) == Err(UnknownInterval("45"))
    ensures Index(false, [], Some("45"), now) == Err(LogUnreadable(Missing))
  {
    assert "45" !in Lookbacks;
    assert [Header][1..] == [];
  }

  /** With a one-hour lookback at time 10000, only the row stamped 9000 is
      averaged, although the row stamped 3000 is less than a day old too. */
  lemma HourLookbackAverage()
    ensures var a, b := Record(3000, 10.0, 1.0, 5.0, "A"), Record(9000, 30.0, 1.0, 5.0, "A");
      Summarize([a, b], Hour, 10000).Average(Download) == Some(30.0)
  {
    var a, b := Record(3000, 10.0, 1.0, 5.0, "A"), Record(9000, 30.0, 1.0, 5.0, "A");
    assert [a, b] == [a] + [b];
    assert [a] == [] + [a];
    assert [b] == [] + [b];
    AfterSnoc([], a, 10000 - Hour);
    AfterSnoc([a], b, 10000 - Hour);
    AfterSnoc([], b, 10000 - Day);
    assert Column([b], Download) == [30.0] by { assert [b][..0] == []; }
    assert Mean([30.0]) == Some(30.0) by { assert [30.0][..0] == []; }
  }

  /** On the same log and at the same time, a sixty-day lookback averages
      both rows: the 24-hour averages depend on the lookback. */
  lemma SixtyDayLookbackAverage()
    ensures var a, b := Record(3000, 10.0, 1.0, 5.0, "A"), Record(9000, 30.0, 1.0, 5.0, "A");
      Summarize([a, b], 60 * Day, 10000).Average(Download) == Some(20.0)
  {
    var a, b := Record(3000, 10.0, 1.0, 5.0, "A"), Record(9000, 30.0, 1.0, 5.0, "A");
    BothKept(a, b, 10000 - 60 * Day);
    BothKept(a, b, 10000 - Day);
    assert Column([a, b], Download) == [10.0, 30.0] by {
      assert [a, b][..1] == [a];
      assert [a][..0] == [];
    }
    MeanOfTwo();
  }

  /** Two rows both stamped after `t` both stay. */
  lemma BothKept(a: Record, b: Record, t: int)
    requires a.ts > t && b.ts > t
    ensures After([a, b], t) == [a, b]
  {
    assert [a, b] == [a] + [b];
    assert [a] == [] + [a];
    AfterSnoc([], a, t);
    AfterSnoc([a], b, t);
  }

  /** The mean of 10 and 30. */
  lemma MeanOfTwo()
    ensures Mean([10.0, 30.0]) == Some(20.0)
  {
    assert [10.0, 30.0][..1] == [10.0];
    assert [10.0][..0] == [];
  }

  /** The scheduled job and the handler share the log: a failed job run
      writes nothing, and two measurements read back in the order they were
      logged. */
  method JobThenHandler() returns (env: Envelope, read: Result<seq<Record>, ReadError>)
    ensures env.status == 200 && env.success
    ensures read == Ok([Record(100, 90.0, 20.0, 12.0, "A"), Record(200, 80.0, 25.0, 15.0, "B")])
  {
    var log := new LogFile(false, []);
    RunAndLog(log, Failed(Network("timed out")), 50);
    assert !log.present && log.rows == [];
    var first, second := Record(100, 90.0, 20.0, 12.0, "A"), Record(200, 80.0, 25.0, 15.0, "B");
    ReadAfterAppend(false, [], first);
    RunAndLog(log, Measured(90.0, 20.0, 12.0, "A"), 100);
    assert ReadLog(log.present, log.rows) == Ok([] + [first]);
    ReadAfterAppend(true, log.rows, second);
    env := RunTest(log, Measured(80.0, 25.0, 15.0, "B"), 200);
    read := ReadLog(log.present, log.rows);
    assert [] + [first] + [second] == [first, second];
  }
}
