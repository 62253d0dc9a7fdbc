/** The result log `network_log.csv`: a header row written when the file
    is first created, then one row per completed measurement, appended and
    never rewritten. */
module ResultLog {
  import opened Records

  /** One CSV field. Timestamps and numbers are kept as values: their text
      form (`%Y-%m-%d %H:%M:%S`, two decimals) is not part of this model. */
  datatype Cell = Text(text: string) | Stamp(time: int) | Number(x: real)

  type Row = seq<Cell>

  /** The column names, in the order every data row follows. */
  const Header: Row := [Text("Timestamp"), Text("Download (Mbps)"), Text("Upload (Mbps)"), Text("Ping (ms)"), Text("Server")]

  /** The row `log_results` writes for one measurement: timestamp,
      download, upload, ping, server. */
  function EncodeRow(r: Record): (row: Row)
    ensures |row| == |Header| && row != Header
  {
    [Stamp(r.ts), Number(r.download), Number(r.upload), Number(r.ping), Text(r.server)]
  }

  /** Reading one data row back; a row of another shape is rejected. */
  function DecodeRow(row: Row): (r: Option<Record>)
    ensures r.Some? ==> EncodeRow(r.value) == row
    ensures r.None? <==> !(|row| == 5 && row[0].Stamp? && row[1].Number? && row[2].Number? && row[3].Number? && row[4].Text?)
  {
    if |row| == 5 && row[0].Stamp? && row[1].Number? && row[2].Number? && row[3].Number? && row[4].Text? then
      Some(Record(row[0].time, row[1].x, row[2].x, row[3].x, row[4].text))
    else
      None
  }

  /** Every record reads back as itself, and the header never reads as a
      record. */
  lemma DecodeEncode(r: Record)
    ensures DecodeRow(EncodeRow(r)) == Some(r)
    ensures DecodeRow(Header) == None
    ensures EncodeRow(r) != Header
  {
  }

  /** The rows written for a series of records, one per record. */
  function EncodeRows(rs: seq<Record>): (rows: seq<Row>)
    ensures |rows| == |rs|
    ensures forall i :: 0 <= i < |rs| ==> rows[i] == EncodeRow(rs[i])
  {
    if rs == [] then [] else EncodeRows(rs[..|rs| - 1]) + [EncodeRow(rs[|rs| - 1])]
  }

  /** Reading a series of data rows; one malformed row fails the read. */
  function DecodeRows(rows: seq<Row>): (r: Option<seq<Record>>)
    ensures rows == [] ==> r == Some([])
    ensures r.Some? ==> |r.value| == |rows|
  {
    if rows == [] then Some([])
    else
      match (DecodeRows(rows[..|rows| - 1]), DecodeRow(rows[|rows| - 1]))
      case (Some(rs), Some(x)) => Some(rs + [x])
      case _ => None
  }

  /** Data rows read back row for row, and a read fails exactly when some
      row does not have the data-row shape. */
  lemma {:induction false} DecodeRowsSpec(rows: seq<Row>)
    ensures DecodeRows(rows).None? <==> exists i :: 0 <= i < |rows| && DecodeRow(rows[i]).None?
    ensures DecodeRows(rows).Some? ==>
      |DecodeRows(rows).value| == |rows| &&
      forall i :: 0 <= i < |rows| ==> DecodeRow(rows[i]) == Some(DecodeRows(rows).value[i])
  {
    if rows != [] {
      var init := rows[..|rows| - 1];
      DecodeRowsSpec(init);
      assert forall i :: 0 <= i < |init| ==> rows[i] == init[i];
    }
  }

  /** Encoding records row by row and reading them back gives the records. */
  lemma {:induction false} DecodeEncodeRows(rs: seq<Record>)
    ensures DecodeRows(EncodeRows(rs)) == Some(rs)
  {
    if rs != [] {
      var init := rs[..|rs| - 1];
      DecodeEncodeRows(init);
      DecodeEncode(rs[|rs| - 1]);
      assert EncodeRows(rs)[..|rs| - 1] == EncodeRows(init);
      assert init + [rs[|rs| - 1]] == rs;
    }
  }

  /** Why a read of the log (`pd.read_csv`) fails. */
  datatype ReadError = Missing | Empty | BadHeader | BadRow

  /** The records of the log, in file order: a missing or empty file, a
      first row other than the header, or a malformed data row is an error. */
  function ReadLog(present: bool, rows: seq<Row>): (r: Result<seq<Record>, ReadError>)
    ensures r.Ok? <==> present && rows != [] && rows[0] == Header && DecodeRows(rows[1..]).Some?
  {
    if !present then Err(Missing)
    else if rows == [] then Err(Empty)
    else if rows[0] != Header then Err(BadHeader)
    else
      match DecodeRows(rows[1..])
      case None => Err(BadRow)
      case Some(rs) => Ok(rs)
  }

  /** The rows after one call of `log_results` for `r`: the header first if
      the file did not exist, then the new row after every earlier one. */
  function Appended(present: bool, rows: seq<Row>, r: Record): (after: seq<Row>)
    ensures present ==> |after| == |rows| + 1 && after[..|rows|] == rows
    ensures !present ==> after == [Header, EncodeRow(r)]
    ensures after[|after| - 1] == EncodeRow(r)
  {
    (if present then rows else [Header]) + [EncodeRow(r)]
  }

  /** After an append the log reads back as before, with the new record at
      the end; a log that did not exist reads back as just that record. */
  lemma ReadAfterAppend(present: bool, rows: seq<Row>, r: Record)
    requires present ==> ReadLog(present, rows).Ok?
    ensures ReadLog(true, Appended(present, rows, r)) ==
      Ok((if present then ReadLog(present, rows).value else []) + [r])
  {
    var after := Appended(present, rows, r);
    DecodeEncode(r);
    if present {
      var data := rows[1..];
      assert after[1..] == data + [EncodeRow(r)];
      assert (data + [EncodeRow(r)])[..|data|] == data;
    } else {
      assert after == [Header, EncodeRow(r)];
      assert after[1..] == [EncodeRow(r)];
      assert [EncodeRow(r)][..0] == [];
      assert DecodeRows([EncodeRow(r)]) == Some([] + [r]);
    }
  }

  /** The rows after `log_results` has been called once for each record of
      `rs`, in order, starting from the file state (`present`, `rows`). */
  function LogAll(present: bool, rows: seq<Row>, rs: seq<Record>): (after: seq<Row>)
    ensures |after| == (if !present && rs != [] then 1 else |rows|) + |rs|
  {
    if rs == [] then rows
    else Appended(present || |rs| > 1, LogAll(present, rows, rs[..|rs| - 1]), rs[|rs| - 1])
  }

  /** Appending to an existing file only ever adds data rows after the
      existing ones. */
  lemma {:induction false} LogAllExisting(rows: seq<Row>, rs: seq<Record>)
    ensures LogAll(true, rows, rs) == rows + EncodeRows(rs)
  {
    if rs != [] {
      LogAllExisting(rows, rs[..|rs| - 1]);
    }
  }

  /** Starting without a file, a non-empty series of calls writes the
      header and then one row per call. */
  lemma {:induction false} LogAllFromNothingRows(rs: seq<Record>)
    requires rs != []
    ensures LogAll(false, [], rs) == [Header] + EncodeRows(rs)
  {
    var init := rs[..|rs| - 1];
    if init != [] {
      LogAllFromNothingRows(init);
    } else {
      assert EncodeRows(rs) == [EncodeRow(rs[0])];
    }
  }

  /** Starting without a file, any non-empty series of calls leaves exactly
      one header, at the top, followed by one row per call in call order,
      and the file reads back as the records logged. */
  lemma LogAllFromNothing(rs: seq<Record>)
    requires rs != []
    ensures var rows := LogAll(false, [], rs);
      rows[0] == Header && multiset(rows)[Header] == 1 && ReadLog(true, rows) == Ok(rs)
  {
    LogAllFromNothingRows(rs);
    var data := EncodeRows(rs);
    forall i | 0 <= i < |data|
      ensures data[i] != Header
    {
      DecodeEncode(rs[i]);
    }
    assert multiset(data)[Header] == 0;
    assert multiset([Header] + data) == multiset{Header} + multiset(data);
    assert ([Header] + data)[1..] == data;
    DecodeEncodeRows(rs);
  }

  /** The log file: whether it exists, and its rows when it does. */
  class LogFile {
    var present: bool
    var rows: seq<Row>

    /** A file that does not exist has no rows. This only records the
        file system's own rule; no operation depends on it, since the first
        append replaces the rows of a missing file by the header. */
    predicate Valid()
      reads this
    {
      present || rows == []
    }

    constructor (present: bool, rows: seq<Row>)
      requires present || rows == []
      ensures Valid() && this.present == present && this.rows == rows
    {
      this.present := present;
      this.rows := rows;
    }

    /** `log_results`: create the file with its header if it does not
        exist, then append one row; `now` is the clock reading. */
    method LogResults(now: int, download: real, upload: real, ping: real, server: string)
      requires Valid()
      modifies this
      ensures Valid() && present
      ensures rows == Appended(old(present), old(rows), Record(now, download, upload, ping, server))
      ensures old(present) ==> |rows| == |old(rows)| + 1 && rows[..|old(rows)|] == old(rows)
      ensures old(!present || ReadLog(present, rows).Ok?) ==>
        ReadLog(present, rows) ==
          Ok(old(if present then ReadLog(present, rows).value else []) + [Record(now, download, upload, ping, server)])
    {
      if !present || ReadLog(present, rows).Ok? {
        ReadAfterAppend(present, rows, Record(now, download, upload, ping, server));
      }
      if !present {
        rows := [Header];
        present := true;
      }
      rows := rows + [EncodeRow(Record(now, download, upload, ping, server))];
    }
  }
}
