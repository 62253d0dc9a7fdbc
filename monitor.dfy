/** The scheduled job and the two HTTP handlers, built on the probe, the
    result log and the window engine. */
module Monitor {
  import opened Records
  import opened Window
  import opened ResultLog

  // ---------------------------------------------------------------------
  // The probe

  /** Why a speed test failed. Each kind carries the exception's text. */
  datatype ProbeError =
    | ConfigRetrieval(detail: string)
    | NoMatchedServers(detail: string)
    | BestServerFailure(detail: string)
    | Network(detail: string)
    | Unexpected(detail: string)

  /** The outcome of one run of the speed test. The test itself is outside
      the model: the job and the handler receive its outcome. Throughput is
      in Mbps and latency in ms. */
  datatype Probe =
    | Measured(download: real, upload: real, ping: real, server: string)
    | Failed(error: ProbeError)

  /** The log record a successful probe at clock reading `now` produces. */
  function Logged(probe: Probe, now: int): (r: Record)
    requires probe.Measured?
    ensures EncodeRow(r) == [Stamp(now), Number(probe.download), Number(probe.upload), Number(probe.ping), Text(probe.server)]
  {
    Record(now, probe.download, probe.upload, probe.ping, probe.server)
  }

  // ---------------------------------------------------------------------
  // The scheduled job

  /** `run_and_log`: run the probe and log its result. A failed probe is
      swallowed and leaves the log as it was; a measured one appends one
      row, stamped `now`, after every earlier row. */
  method RunAndLog(log: LogFile, probe: Probe, now: int)
    requires log.Valid()
    modifies log
    ensures log.Valid()
    ensures probe.Failed? ==> log.present == old(log.present) && log.rows == old(log.rows)
    ensures probe.Measured? ==> log.present && log.rows == Appended(old(log.present), old(log.rows), Logged(probe, now))
  {
    match probe
    case Measured(download, upload, ping, server) =>
      log.LogResults(now, download, upload, ping, server);
    case Failed(_) =>
  }

  // ---------------------------------------------------------------------
  // POST /run-test

  /** The measured values the success response reports. */
  datatype Data = Data(download: real, upload: real, ping: real, server: string)

  /** A JSON response together with its HTTP status. */
  datatype Envelope = Envelope(status: int, success: bool, message: string, data: Option<Data>)

  const SuccessMessage: string := "Speed test completed successfully"

  const ErrorPrefix: string := "An error occurred: "

  /** The response for a probe outcome: success, status 200 and the four
      values exactly for a measurement; otherwise status 500, the error text
      after a fixed prefix, and no data. */
  function Response(probe: Probe): (env: Envelope)
    ensures env.success <==> probe.Measured?
    ensures env.data.Some? <==> env.success
    ensures env.status == (if env.success then 200 else 500)
    ensures probe.Measured? ==>
      env.data == Some(Data(probe.download, probe.upload, probe.ping, probe.server)) && env.message == SuccessMessage
    ensures probe.Failed? ==> env.message == ErrorPrefix + probe.error.detail
  {
    match probe
    case Measured(download, upload, ping, server) =>
      Envelope(200, true, SuccessMessage, Some(Data(download, upload, ping, server)))
    case Failed(error) =>
      Envelope(500, false, ErrorPrefix + error.detail, None)
  }

  /** The message alone tells a success from a failure: only failure
      messages begin with the error prefix. */
  lemma MessageTellsOutcome(probe: Probe)
    ensures Response(probe).success <==> !(ErrorPrefix <= Response(probe).message)
  {
    if probe.Measured? {
      assert SuccessMessage[0] != ErrorPrefix[0];
    }
  }

  /** `run_test`: run the probe, log a measurement, and answer with the
      response for the outcome. A failed probe leaves the log as it was. */
  method RunTest(log: LogFile, probe: Probe, now: int) returns (env: Envelope)
    requires log.Valid()
    modifies log
    ensures log.Valid()
    ensures env == Response(probe)
    ensures probe.Failed? ==> log.present == old(log.present) && log.rows == old(log.rows)
    ensures probe.Measured? ==> log.present && log.rows == Appended(old(log.present), old(log.rows), Logged(probe, now))
  {
    match probe
    case Measured(download, upload, ping, server) =>
      log.LogResults(now, download, upload, ping, server);
      env := Envelope(200, true, SuccessMessage, Some(Data(download, upload, ping, server)));
    case Failed(error) =>
      env := Envelope(500, false, ErrorPrefix + error.detail, None);
  }

  // ---------------------------------------------------------------------
  // GET /

  /** Why the dashboard cannot be built: the log cannot be read, or the
      requested interval is not in the table. */
  datatype PageError = LogUnreadable(reason: ReadError) | UnknownInterval(key: string)

  /** The dashboard for the log (`present`, `rows`) and the request's
      `interval` at time `now`. The log is read before the interval is
      looked up, so an unreadable log is reported first. The lookback is
      the interval's key read as a number of minutes. */
  function Index(present: bool, rows: seq<Row>, interval: Option<string>, now: int): (page: Result<View, PageError>)
    ensures ReadLog(present, rows).Err? ==> page == Err(LogUnreadable(ReadLog(present, rows).error))
    ensures ReadLog(present, rows).Ok? ==> (page.Ok? <==> IntervalKey(interval) in Lookbacks)
    ensures page.Err? && page.error.UnknownInterval? ==> page.error.key == IntervalKey(interval) && page.error.key !in Lookbacks
    ensures page.Ok? ==>
      page.value == Summarize(ReadLog(present, rows).value, Numeral(IntervalKey(interval)) * Minute, now)
  {
    match ReadLog(present, rows)
    case Err(e) => Err(LogUnreadable(e))
    case Ok(records) =>
      match Lookback(interval)
      case Err(key) => Err(UnknownInterval(key))
      case Ok(duration) => Ok(Summarize(records, duration, now))
  }

  /** A test just logged at `now` is the dashboard's last test at `now`,
      whatever the interval, and every 24-hour average is present. */
  lemma LoggedTestIsShown(present: bool, rows: seq<Row>, r: Record, interval: Option<string>, m: Metric)
    requires present ==> ReadLog(present, rows).Ok?
    requires IntervalKey(interval) in Lookbacks
    ensures var page := Index(true, Appended(present, rows, r), interval, r.ts);
      page.Ok? && page.value.last == Some(r) && page.value.Average(m).Some?
  {
    ReadAfterAppend(present, rows, r);
    var records := ReadLog(true, Appended(present, rows, r)).value;
    var duration := Lookbacks[IntervalKey(interval)];
    var i := |records| - 1;
    assert records[i] == r;
    SummaryLastTest(records, duration, r.ts, i);
    SummaryAverages(records, duration, r.ts, m);
  }
}
