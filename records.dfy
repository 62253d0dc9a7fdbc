/** Values shared by the result log, the window engine and the HTTP handlers. */
module Records {

  datatype Option<+T> = None | Some(value: T)

  datatype Result<+T, +E> = Ok(value: T) | Err(error: E)

  /** One completed measurement, as a row of the result log reads back.
      `ts` is the local wall-clock time in whole seconds; throughput is in
      Mbps and latency in ms. */
  datatype Record = Record(ts: int, download: real, upload: real, ping: real, server: string)

  /** The three numeric columns of the log. */
  datatype Metric = Download | Upload | Ping

  /** The value a record holds in the column of metric `m`. */
  function Value(r: Record, m: Metric): (v: real)
    ensures m == Download ==> v == r.download
    ensures m == Upload ==> v == r.upload
    ensures m == Ping ==> v == r.ping
  {
    match m
    case Download => r.download
    case Upload => r.upload
    case Ping => r.ping
  }

  /** The column of metric `m`, row by row. */
  function Column(s: seq<Record>, m: Metric): (c: seq<real>)
    ensures |c| == |s|
    ensures forall i :: 0 <= i < |s| ==> c[i] == Value(s[i], m)
  {
    if s == [] then [] else Column(s[..|s| - 1], m) + [Value(s[|s| - 1], m)]
  }
}
