/** The row loop common to both loaders, as a specification: rows are decoded one at a
    time, in order; a row is kept, skipped (its timestamp did not parse), or stops the
    run (any other exception escapes the loop). */
module RowScan {
  import opened JavaLang

  /** A kept row: the raw vehicle-id text and the message built from the row. */
  datatype Entry<M> = Entry(rawId: string, msg: M)

  /** What the loop body does with one row. */
  datatype RowOutcome<M> = Accept(entry: Entry<M>) | Skip | Abort(exc: Exc)

  /** The row at which the run stopped, and the exception that stopped it. */
  datatype Stop = Stop(row: nat, exc: Exc)

  /** The rows kept so far, and whether the run has stopped. */
  datatype Scan<M> = Scan(accepted: seq<Entry<M>>, stop: Option<Stop>)

  /** How a run of `processCsv` ends: after the last row, or with an exception at a row. */
  datatype RunOutcome = Completed | Aborted(row: nat, exc: Exc)

  /** The loop over `rows`, defined row by row from the first: once a row throws, the
      rows after it are never read. */
  function ScanRows<M>(decode: seq<string> -> RowOutcome<M>, rows: seq<seq<string>>): (r: Scan<M>)
    ensures |r.accepted| <= |rows|
    ensures r.stop.Some? ==> r.stop.value.row < |rows|
    decreases |rows|
  {
    if rows == [] then Scan([], None)
    else
      var prev := ScanRows(decode, rows[..|rows| - 1]);
      if prev.stop.Some? then prev
      else
        match decode(rows[|rows| - 1])
        case Skip => prev
        case Abort(e) => Scan(prev.accepted, Some(Stop(|rows| - 1, e)))
        case Accept(entry) => Scan(prev.accepted + [entry], None)
  }

  /** The run stops exactly when some row throws, and then at the first such row, with
      that row's exception. */
  lemma {:induction false} ScanStops<M>(decode: seq<string> -> RowOutcome<M>, rows: seq<seq<string>>)
    ensures var r := ScanRows(decode, rows);
            && (r.stop.None? <==> forall j :: 0 <= j < |rows| ==> !decode(rows[j]).Abort?)
            && (r.stop.Some? ==>
                  && decode(rows[r.stop.value.row]).Abort?
                  && decode(rows[r.stop.value.row]).exc == r.stop.value.exc
                  && forall j :: 0 <= j < r.stop.value.row ==> !decode(rows[j]).Abort?)
    decreases |rows|
  {
    if rows != [] {
      var init := rows[..|rows| - 1];
      ScanStops(decode, init);
      assert forall j :: 0 <= j < |init| ==> init[j] == rows[j];
    }
  }

  /** Reading one more row, while the loop has not stopped. */
  lemma ScanExtend<M>(decode: seq<string> -> RowOutcome<M>, rows: seq<seq<string>>, i: nat)
    requires i < |rows| && ScanRows(decode, rows[..i]).stop.None?
    ensures var prev := ScanRows(decode, rows[..i]);
            ScanRows(decode, rows[..i + 1]) ==
              match decode(rows[i])
              case Skip => prev
              case Abort(e) => Scan(prev.accepted, Some(Stop(i, e)))
              case Accept(entry) => Scan(prev.accepted + [entry], None)
  {
    assert rows[..i + 1][..i] == rows[..i];
  }

  /** How a scan ends, as the run reports it. */
  function Outcome<M>(scan: Scan<M>): (r: RunOutcome)
    ensures r.Completed? <==> scan.stop.None?
    ensures r.Aborted? ==> r.row == scan.stop.value.row && r.exc == scan.stop.value.exc
  {
    match scan.stop
    case None => Completed
    case Some(s) => Aborted(s.row, s.exc)
  }

  /** The number of rows the loop read: all of them, or up to the one that threw. */
  function RowsRead<M>(scan: Scan<M>, n: nat): nat
  {
    if scan.stop.Some? then scan.stop.value.row else n
  }

  /** The entry a single row contributes when it is kept. */
  function KeptOne<M>(decode: seq<string> -> RowOutcome<M>, row: seq<string>): seq<Entry<M>>
  {
    if decode(row).Accept? then [decode(row).entry] else []
  }

  /** An independent reference: the order-preserving filter of `rows` by the decoder,
      defined from the front and ignoring aborts. */
  function Kept<M>(decode: seq<string> -> RowOutcome<M>, rows: seq<seq<string>>): seq<Entry<M>>
  {
    if rows == [] then [] else KeptOne(decode, rows[0]) + Kept(decode, rows[1..])
  }

  lemma {:induction false} KeptAppend<M>(decode: seq<string> -> RowOutcome<M>, rows: seq<seq<string>>, row: seq<string>)
    ensures Kept(decode, rows + [row]) == Kept(decode, rows) + KeptOne(decode, row)
  {
    if rows != [] {
      assert (rows + [row])[1..] == rows[1..] + [row];
      KeptAppend(decode, rows[1..], row);
    }
  }

  /** The loop is an order-preserving filter: the entries it keeps are exactly the kept
      rows among those it read, in input order. */
  lemma {:induction false} ScanIsFilter<M>(decode: seq<string> -> RowOutcome<M>, rows: seq<seq<string>>)
    ensures var scan := ScanRows(decode, rows);
            scan.accepted == Kept(decode, rows[..RowsRead(scan, |rows|)])
  {
    if rows != [] {
      var init := rows[..|rows| - 1];
      var prev := ScanRows(decode, init);
      ScanIsFilter(decode, init);
      if prev.stop.None? {
        var last := rows[|rows| - 1];
        assert rows == init + [last];
        assert rows[..|init|] == init;
        assert rows[..|rows|] == rows;
        assert init[..|init|] == init;
        KeptAppend(decode, init, last);
        match decode(last)
        case Skip =>
        case Abort(e) =>
        case Accept(entry) =>
      } else {
        assert rows[..prev.stop.value.row] == init[..prev.stop.value.row];
      }
    }
  }

  /** Once the loop has stopped at some row, the rows after it change nothing. */
  lemma {:induction false} ScanAfterStop<M>(decode: seq<string> -> RowOutcome<M>, rows: seq<seq<string>>, k: nat)
    requires k <= |rows| && ScanRows(decode, rows[..k]).stop.Some?
    ensures ScanRows(decode, rows) == ScanRows(decode, rows[..k])
    decreases |rows|
  {
    if k < |rows| {
      var init := rows[..|rows| - 1];
      assert init[..k] == rows[..k];
      ScanAfterStop(decode, init, k);
    } else {
      assert rows[..k] == rows;
    }
  }

  /** Reading more rows only appends: the entries kept from a prefix of the rows are a
      prefix of the entries kept from all of them. */
  lemma {:induction false} ScanPrefix<M>(decode: seq<string> -> RowOutcome<M>, rows: seq<seq<string>>, k: nat)
    requires k <= |rows|
    ensures var p, r := ScanRows(decode, rows[..k]).accepted, ScanRows(decode, rows).accepted;
            |p| <= |r| && r[..|p|] == p
    decreases |rows|
  {
    if k < |rows| {
      var init := rows[..|rows| - 1];
      assert init[..k] == rows[..k];
      ScanPrefix(decode, init, k);
      var p, q := ScanRows(decode, rows[..k]).accepted, ScanRows(decode, init).accepted;
      var r := ScanRows(decode, rows).accepted;
      assert r == q || r == q + [r[|r| - 1]];
      if r != q {
        assert r[..|p|] == q[..|p|];
      }
    } else {
      assert rows[..k] == rows;
    }
  }

  /** Every kept entry satisfies whatever the decoder guarantees of the entries it accepts. */
  lemma {:induction false} ScanKeeps<M>(decode: seq<string> -> RowOutcome<M>, rows: seq<seq<string>>, p: Entry<M> -> bool)
    requires forall row :: decode(row).Accept? ==> p(decode(row).entry)
    ensures forall i :: 0 <= i < |ScanRows(decode, rows).accepted| ==> p(ScanRows(decode, rows).accepted[i])
  {
    if rows != [] {
      ScanKeeps(decode, rows[..|rows| - 1], p);
    }
  }

  /** The messages of the kept entries, in order. */
  function Messages<M>(es: seq<Entry<M>>): (r: seq<M>)
    ensures |r| == |es|
    ensures forall i :: 0 <= i < |es| ==> r[i] == es[i].msg
  {
    if es == [] then [] else Messages(es[..|es| - 1]) + [es[|es| - 1].msg]
  }

  /** Keeping one more entry adds its message at the end. */
  lemma MessagesAppend<M>(es: seq<Entry<M>>, entry: Entry<M>)
    ensures Messages(es + [entry]) == Messages(es) + [entry.msg]
  {
    assert (es + [entry])[..|es|] == es;
  }
}
