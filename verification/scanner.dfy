/**
 The row scanner of `b2fa.rb`: a two-state machine over the rows of the bank
 export. A flag starts unset; a row whose first field is `Transaction Date`
 sets it and is skipped (every such row, not only the first); once the flag
 is set every other row is normalised and appended to the transaction list.
 Rows before the first marker are discarded.

 The CSV reader is opened with `headers: true`, so it consumes the first
 physical line of the file itself and yields only lines 2..n. The input
 `rows` of this module is that tail, each row already split into fields.
 */
module Scanner {
  import opened Seqs
  import opened Normalize

  /** The first field of the row that precedes the transaction rows. */
  const HeaderMarker: string := "Transaction Date"

  /** `row[0] == 'Transaction Date'`; a row with no fields has a nil first
      field in Ruby, which is not the marker. */
  predicate IsMarker(row: Row) {
    |row| > 0 && row[0] == HeaderMarker
  }

  /** The test "is not a marker row", for filtering. */
  function NotMarker(): Row -> bool {
    row => !IsMarker(row)
  }

  /** Some row of `rows` is a marker row. */
  predicate HasMarker(rows: seq<Row>) {
    exists i :: 0 <= i < |rows| && IsMarker(rows[i])
  }

  /** The index of the first marker row. */
  function FirstMarker(rows: seq<Row>): (k: nat)
    requires HasMarker(rows)
    ensures k < |rows| && IsMarker(rows[k])
    ensures forall j :: 0 <= j < k ==> !IsMarker(rows[j])
    decreases |rows|
  {
    if IsMarker(rows[0]) then 0
    else
      assert HasMarker(rows[1..]) by {
        var i :| 0 <= i < |rows| && IsMarker(rows[i]);
        assert rows[1..][i - 1] == rows[i];
      }
      1 + FirstMarker(rows[1..])
  }

  /** Any index holding a marker with no marker before it is the first marker. */
  lemma FirstMarkerUnique(rows: seq<Row>, k: nat)
    requires k < |rows| && IsMarker(rows[k])
    requires forall j :: 0 <= j < k ==> !IsMarker(rows[j])
    ensures HasMarker(rows) && FirstMarker(rows) == k
  {
  }

  /** Reference definition of the rows that become transactions: the rows
      after the first marker row that are not marker rows themselves, in
      input order; none when there is no marker row. */
  function DataRows(rows: seq<Row>): seq<Row> {
    if HasMarker(rows) then Filter(NotMarker(), rows[FirstMarker(rows) + 1..]) else []
  }

  /** What the source needs of its input: every row it normalises has the
      six fields it reads (indices 0 to 5). Rows it discards or skips may
      have any number of fields. */
  predicate FieldsPresent(rows: seq<Row>) {
    forall row :: row in DataRows(rows) ==> |row| >= Columns
  }

  /** The scanner's state: the `header_found` flag and the transactions
      collected so far. */
  datatype ScanState = ScanState(headerFound: bool, transactions: seq<Transaction>)

  /** The state before the first row: no marker seen, nothing collected. */
  const Start: ScanState := ScanState(false, [])

  /** The rows of `rows` still to be normalised, in a state whose flag is
      `headerFound`. */
  function Pending(headerFound: bool, rows: seq<Row>): seq<Row> {
    if headerFound then Filter(NotMarker(), rows) else DataRows(rows)
  }

  /** Every row still to be normalised is one `normalize` accepts. */
  ghost predicate Ready(normalize: Row --> Transaction, headerFound: bool, rows: seq<Row>) {
    forall row :: row in Pending(headerFound, rows) ==> normalize.requires(row)
  }

  /** Consuming one row: it is pending exactly when the flag is set and the
      row is not a marker; the flag is set afterwards when it was already or
      the row is a marker. */
  lemma PendingCons(headerFound: bool, rows: seq<Row>)
    requires |rows| > 0
    ensures Pending(headerFound, rows) == Emitted(headerFound, rows[0]) + Pending(headerFound || IsMarker(rows[0]), rows[1..])
  {
    var row, rest := rows[0], rows[1..];
    if headerFound {
    } else if IsMarker(row) {
      FirstMarkerUnique(rows, 0);
    } else if HasMarker(rest) {
      var k := FirstMarker(rest);
      assert rows[k + 1] == rest[k];
      forall j | 0 <= j < k + 1
        ensures !IsMarker(rows[j])
      {
        if j > 0 {
          assert rows[j] == rest[j - 1];
        }
      }
      FirstMarkerUnique(rows, k + 1);
      assert rows[k + 2..] == rest[k + 1..];
    } else {
      assert !HasMarker(rows) by {
        forall j | 0 <= j < |rows|
          ensures !IsMarker(rows[j])
        {
          if j > 0 {
            assert rows[j] == rest[j - 1];
          }
        }
      }
    }
  }

  /** One iteration of the loop body, with the row normaliser as a
      parameter: the scan does not depend on what normalisation does. */
  function Step(normalize: Row --> Transaction, st: ScanState, row: Row): (r: ScanState)
    requires st.headerFound && !IsMarker(row) ==> normalize.requires(row)
    ensures r.headerFound == (st.headerFound || IsMarker(row))
  {
    if IsMarker(row) then ScanState(true, st.transactions)
    else if st.headerFound then ScanState(true, st.transactions + [normalize(row)])
    else st
  }

  /** A sequence of rows has a marker exactly when its head is one or its
      tail has one. */
  lemma HasMarkerCons(rows: seq<Row>)
    requires |rows| > 0
    ensures HasMarker(rows) <==> IsMarker(rows[0]) || HasMarker(rows[1..])
  {
    var rest := rows[1..];
    if HasMarker(rest) {
      var i :| 0 <= i < |rest| && IsMarker(rest[i]);
      assert rows[i + 1] == rest[i];
    }
    if HasMarker(rows) && !IsMarker(rows[0]) {
      var i :| 0 <= i < |rows| && IsMarker(rows[i]);
      assert rest[i - 1] == rows[i];
    }
  }

  /** The rows a step appends: the row itself when the flag is set and it
      is not a marker, nothing otherwise. */
  function Emitted(headerFound: bool, row: Row): seq<Row> {
    if headerFound && !IsMarker(row) then [row] else []
  }

  /** What `Step` appends is the normalisation of what it emits. */
  lemma StepAppends(normalize: Row --> Transaction, st: ScanState, row: Row)
    requires st.headerFound && !IsMarker(row) ==> normalize.requires(row)
    ensures forall i :: 0 <= i < |Emitted(st.headerFound, row)| ==> normalize.requires(Emitted(st.headerFound, row)[i])
    ensures Step(normalize, st, row).transactions == st.transactions + Map(normalize, Emitted(st.headerFound, row))
  {
    if st.headerFound && !IsMarker(row) {
      assert Map(normalize, [row]) == [normalize(row)];
    } else {
      assert Map(normalize, []) == [];
    }
  }

  /** One step of the fold keeps the remaining work ready and the final
      transaction list unchanged: what the step appends is exactly what the
      first row contributes to the pending rows. */
  lemma StepPending(normalize: Row --> Transaction, st: ScanState, rows: seq<Row>)
    requires |rows| > 0 && Ready(normalize, st.headerFound, rows)
    ensures st.headerFound && !IsMarker(rows[0]) ==> normalize.requires(rows[0])
    ensures var next := Step(normalize, st, rows[0]);
      && Ready(normalize, next.headerFound, rows[1..])
      && next.transactions + Map(normalize, Pending(next.headerFound, rows[1..]))
         == st.transactions + Map(normalize, Pending(st.headerFound, rows))
  {
    var row, rest := rows[0], rows[1..];
    var now := Emitted(st.headerFound, row);
    var flag := st.headerFound || IsMarker(row);
    var later := Pending(flag, rest);
    var pending := Pending(st.headerFound, rows);
    PendingCons(st.headerFound, rows);
    assert pending == now + later;
    assert Ready(normalize, flag, rest) by {
      forall r | r in later
        ensures normalize.requires(r)
      {
        assert r in pending;
      }
    }
    assert st.headerFound && !IsMarker(row) ==> row in pending;
    StepAppends(normalize, st, row);
    MapAppend(normalize, now, later);
  }

  /** The loop over the remaining rows, as a left fold of `Step`. It ends
      with the flag set exactly when it was set or some row was a marker,
      and with the normalised images of the pending rows, in order,
      appended to what had been collected. */
  function Scan(normalize: Row --> Transaction, st: ScanState, rows: seq<Row>): (r: ScanState)
    requires Ready(normalize, st.headerFound, rows)
    ensures r.headerFound == (st.headerFound || HasMarker(rows))
    ensures r.transactions == st.transactions + Map(normalize, Pending(st.headerFound, rows))
    decreases |rows|
  {
    if |rows| == 0 then st
    else
      StepPending(normalize, st, rows);
      HasMarkerCons(rows);
      Scan(normalize, Step(normalize, st, rows[0]), rows[1..])
  }

  /** The whole conversion loop of `b2fa.rb`: the transactions it collects
      are exactly the normalised data rows, in input order. */
  function Convert(rows: seq<Row>): (ts: seq<Transaction>)
    requires FieldsPresent(rows)
    ensures ts == NormalizeAll(DataRows(rows))
  {
    Scan(NormalizeRow, Start, rows).transactions
  }

  /** The data rows are rows of the input, in input order, and none of them
      is a marker row. */
  lemma DataRowsShape(rows: seq<Row>)
    ensures IsSubsequence(DataRows(rows), rows)
    ensures forall row :: row in DataRows(rows) ==> row in rows && !IsMarker(row)
  {
    if HasMarker(rows) {
      var k := FirstMarker(rows);
      FilterSubsequence(NotMarker(), rows[k + 1..]);
      SubsequenceOfSuffix(DataRows(rows), rows, k + 1);
      forall row | row in DataRows(rows)
        ensures row in rows && !IsMarker(row)
      {
        FilterMembers(NotMarker(), rows[k + 1..], row);
      }
    }
    SubsequenceEmpty(rows);
  }

  /** A data row occurs at an index that follows a marker row and is not
      itself a marker row. */
  lemma DataRowsIndicesForward(rows: seq<Row>, row: Row)
    requires row in DataRows(rows)
    ensures exists i :: 0 <= i < |rows| && rows[i] == row && !IsMarker(row) && HasMarker(rows[..i])
  {
    var k := FirstMarker(rows);
    var tail := rows[k + 1..];
    FilterMembers(NotMarker(), tail, row);
    var j :| 0 <= j < |tail| && tail[j] == row;
    var i := k + 1 + j;
    assert rows[i] == row;
    assert rows[..i][k] == rows[k];
  }

  /** A non-marker row at an index that follows a marker row is a data row. */
  lemma DataRowsIndicesBackward(rows: seq<Row>, row: Row, i: nat)
    requires i < |rows| && rows[i] == row && !IsMarker(row) && HasMarker(rows[..i])
    ensures row in DataRows(rows)
  {
    var m :| 0 <= m < i && IsMarker(rows[..i][m]);
    assert IsMarker(rows[m]);
    var k := FirstMarker(rows);
    assert k <= m;
    assert rows[k + 1..][i - k - 1] == row;
    FilterMembers(NotMarker(), rows[k + 1..], row);
  }

  /** A row is a data row exactly when it occurs at some index that follows a
      marker row and is not itself a marker row. */
  lemma DataRowsIndices(rows: seq<Row>, row: Row)
    ensures row in DataRows(rows)
        <==> exists i :: 0 <= i < |rows| && rows[i] == row && !IsMarker(row) && HasMarker(rows[..i])
  {
    if row in DataRows(rows) {
      DataRowsIndicesForward(rows, row);
    }
    if exists i :: 0 <= i < |rows| && rows[i] == row && !IsMarker(row) && HasMarker(rows[..i]) {
      var i :| 0 <= i < |rows| && rows[i] == row && !IsMarker(row) && HasMarker(rows[..i]);
      DataRowsIndicesBackward(rows, row, i);
    }
  }

  /** The output depends on the input only through its data rows. */
  lemma SameDataRowsSameOutput(a: seq<Row>, b: seq<Row>)
    requires DataRows(a) == DataRows(b)
    ensures FieldsPresent(a) <==> FieldsPresent(b)
    ensures FieldsPresent(a) ==> Convert(a) == Convert(b)
  {
  }

  /** Without a marker row the transaction list is empty. */
  lemma NoMarkerNoOutput(rows: seq<Row>)
    requires !HasMarker(rows)
    ensures FieldsPresent(rows) && Convert(rows) == []
  {
  }

  /** Rows before the first marker row have no effect on the output. */
  lemma PreambleIgnored(preamble: seq<Row>, rows: seq<Row>)
    requires !HasMarker(preamble)
    ensures DataRows(preamble + rows) == DataRows(rows)
    ensures FieldsPresent(preamble + rows) <==> FieldsPresent(rows)
    ensures FieldsPresent(rows) ==> Convert(preamble + rows) == Convert(rows)
  {
    assert DataRows(preamble + rows) == DataRows(rows) by {
      var all := preamble + rows;
      if HasMarker(rows) {
        var k := FirstMarker(rows);
        assert all[|preamble| + k] == rows[k];
        forall j | 0 <= j < |preamble| + k
          ensures !IsMarker(all[j])
        {
          if j < |preamble| {
            assert all[j] == preamble[j];
          } else {
            assert all[j] == rows[j - |preamble|];
          }
        }
        FirstMarkerUnique(all, |preamble| + k);
        assert all[|preamble| + k + 1..] == rows[k + 1..];
      } else {
        assert !HasMarker(all) by {
          forall j | 0 <= j < |all|
            ensures !IsMarker(all[j])
          {
            if j < |preamble| {
              assert all[j] == preamble[j];
            } else {
              assert all[j] == rows[j - |preamble|];
            }
          }
        }
      }
    }
    SameDataRowsSameOutput(preamble + rows, rows);
  }

  /** A marker row after the first one is skipped: removing it changes
      neither the data rows nor the output. */
  lemma RepeatedMarkerSkipped(before: seq<Row>, marker: Row, after: seq<Row>)
    requires HasMarker(before) && IsMarker(marker)
    ensures DataRows(before + [marker] + after) == DataRows(before + after)
    ensures FieldsPresent(before + [marker] + after) <==> FieldsPresent(before + after)
    ensures FieldsPresent(before + after) ==> Convert(before + [marker] + after) == Convert(before + after)
  {
    assert DataRows(before + [marker] + after) == DataRows(before + after) by {
      var k := FirstMarker(before);
      var with, without := before + [marker] + after, before + after;
      assert with[k] == before[k] && without[k] == before[k];
      assert forall j :: 0 <= j < k ==> with[j] == before[j] && without[j] == before[j];
      FirstMarkerUnique(with, k);
      FirstMarkerUnique(without, k);
      var mid := before[k + 1..];
      assert with[k + 1..] == mid + [marker] + after;
      assert without[k + 1..] == mid + after;
      FilterAppend(NotMarker(), mid + [marker], after);
      FilterAppend(NotMarker(), mid, [marker]);
      FilterAppend(NotMarker(), mid, after);
      assert Filter(NotMarker(), [marker]) == [];
    }
    SameDataRowsSameOutput(before + [marker] + after, before + after);
  }

  /** The i-th transaction is the normalisation of the i-th data row, which
      is a non-marker row of the input; there are as many transactions as
      data rows. */
  lemma ConvertOutputs(rows: seq<Row>)
    requires FieldsPresent(rows)
    ensures |Convert(rows)| == |DataRows(rows)|
    ensures forall i :: 0 <= i < |Convert(rows)| ==>
              && DataRows(rows)[i] in rows
              && !IsMarker(DataRows(rows)[i])
              && Convert(rows)[i] == NormalizeRow(DataRows(rows)[i])
  {
    var ts, data := Convert(rows), DataRows(rows);
    assert ts == Map(NormalizeRow, data);
    DataRowsShape(rows);
  }
}
