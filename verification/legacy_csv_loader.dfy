/** The older loader (src/com/conveyal/traffic/loader/CsvLoader.java): timestamps are
    split at the fraction and parsed to epoch microseconds, the fraction must be followed
    by a '+' offset, vehicle ids must fit a `long`, and every kept row is posted on its
    own, as soon as it is read. */
module LegacyCsvLoader {
  import opened JavaLang
  import opened FractionSnip
  import opened RowScan

  /** One vehicle position, tagged with the run's source id: `VehicleMessage` with a
      single `VehicleLocation`. */
  datatype VehicleMessage = VehicleMessage(sourceId: Long, vehicleId: Long, lat: Float64, lon: Float64, timestamp: Long)

  // ---------------------------------------------------------------------------
  // Timestamps

  /** `parseTimeStrToMicros`: the fraction runs from the first '.' to the first '+'
      (`indexOf` gives -1 when there is none); cut it out, then parse both parts. */
  function ParseTimeStrToMicros(lib: Libraries, timeStr: string): (r: Result<Long>)
    ensures r == Fail(IndexOutOfBounds) <==>
              '.' in timeStr && ('+' !in timeStr || IndexOf(timeStr, '+') < IndexOf(timeStr, '.'))
    ensures '.' !in timeStr ==> r == ParseSnippedMicros(lib, Snipped(timeStr, "0.0"))
  {
    match CutFraction(timeStr, IndexOf(timeStr, '+'))
    case Fail(e) => Fail(e)
    case Ok(sn) => ParseSnippedMicros(lib, sn)
  }

  /** Parse the whole seconds, then the fraction; the milliseconds are multiplied by 1000
      and the fraction scaled to microseconds is added, both in `long` arithmetic, which
      comes to the exact sum wrapped once. */
  function ParseSnippedMicros(lib: Libraries, sn: Snipped): (r: Result<Long>)
    ensures r == Fail(ParseException) <==> lib.parseDate(sn.whole).None?
    ensures r.Ok? <==> lib.parseDate(sn.whole).Some? && lib.parseDouble(sn.fraction).Some?
    ensures r.Ok? ==> r.value == ToLong(lib.parseDate(sn.whole).value * 1000
                                        + lib.scaleToLong(lib.parseDouble(sn.fraction).value, 1000000))
  {
    match lib.parseDate(sn.whole)
    case None => Fail(ParseException)
    case Some(timeMillis) =>
      match lib.parseDouble(sn.fraction)
      case None => Fail(NumberFormat)
      case Some(d) =>
        var micros := lib.scaleToLong(d, 1000000);
        ToLongOfSum(timeMillis * 1000, micros);
        Ok(ToLong(ToLong(timeMillis * 1000) + micros))
  }

  /** Without a '.', the date parser sees the text unchanged and the result is its
      milliseconds times 1000, wrapped to 64 bits; or a ParseException. */
  lemma TimeWithoutFraction(lib: Libraries, t: string)
    requires ZeroIsExact(lib) && '.' !in t
    ensures lib.parseDate(t).None? ==> ParseTimeStrToMicros(lib, t) == Fail(ParseException)
    ensures lib.parseDate(t).Some? ==> ParseTimeStrToMicros(lib, t) == Ok(ToLong(lib.parseDate(t).value * 1000))
  {
  }

  /** With a '.' at `s` and the first '+' at `e >= s`, the cut loses nothing: the
      fraction parser sees "0" + t[s..e), and putting that fraction back at `s` in the
      text the date parser sees rebuilds the timestamp. */
  lemma TimeWithFraction(lib: Libraries, t: string)
    requires '.' in t && '+' in t && IndexOf(t, '.') <= IndexOf(t, '+')
    ensures var s, e, c := IndexOf(t, '.'), IndexOf(t, '+'), CutFraction(t, IndexOf(t, '+'));
            && c.Ok?
            && ParseTimeStrToMicros(lib, t) == ParseSnippedMicros(lib, c.value)
            && |c.value.fraction| >= 2 && c.value.fraction[..2] == "0."
            && c.value.fraction[1..] == t[s..e]
            && s <= |c.value.whole| && '.' !in c.value.whole[..s]
            && c.value.whole[..s] + c.value.fraction[1..] + c.value.whole[s..] == t
  {
    CutFractionSegment(t, IndexOf(t, '+'));
    CutFractionReassembles(t, IndexOf(t, '+'));
  }

  /** A fraction with no '+' after it, as in "2015-01-01 10:00:00.5Z", makes `substring`
      throw an index error (the end index is -1); so does a '+' before the '.'. Neither is
      a ParseException, so the row is not skipped. */
  lemma TimeWithoutOffset(lib: Libraries, t: string)
    requires '.' in t && ('+' !in t || IndexOf(t, '+') < IndexOf(t, '.'))
    ensures ParseTimeStrToMicros(lib, t) == Fail(IndexOutOfBounds)
  {
  }

  // ---------------------------------------------------------------------------
  // Rows

  /** The body of the row loop up to the post: fields 0..3 are read (an index error if the
      row is shorter), then lat from field 3 and lon from field 2, then the timestamp (a
      ParseException skips the row), then the vehicle id from field 1 by `Long.parseLong`. */
  function DecodeRow(lib: Libraries, sourceId: Long, row: seq<string>): RowOutcome<VehicleMessage>
  {
    if |row| < 4 then Abort(IndexOutOfBounds)
    else
      var timeStr, vehicleIdStr, lonStr, latStr := row[0], row[1], row[2], row[3];
      match lib.parseDouble(latStr)
      case None => Abort(NumberFormat)
      case Some(lat) =>
        match lib.parseDouble(lonStr)
        case None => Abort(NumberFormat)
        case Some(lon) =>
          match ParseTimeStrToMicros(lib, timeStr)
          case Fail(ParseException) => Skip
          case Fail(e) => Abort(e)
          case Ok(time) =>
            match ParseLong(vehicleIdStr)
            case Fail(e) => Abort(e)
            case Ok(vehicleId) => Accept(Entry(vehicleIdStr, VehicleMessage(sourceId, vehicleId, lat, lon, time)))
  }

  /** A row is kept, skipped or stops the run exactly as the loop body decides. */
  lemma DecodeRowCases(lib: Libraries, sourceId: Long, row: seq<string>)
    ensures |row| < 4 ==> DecodeRow(lib, sourceId, row) == Abort(IndexOutOfBounds)
    ensures DecodeRow(lib, sourceId, row).Skip? <==>
              && |row| >= 4
              && lib.parseDouble(row[3]).Some? && lib.parseDouble(row[2]).Some?
              && ParseTimeStrToMicros(lib, row[0]) == Fail(ParseException)
    ensures DecodeRow(lib, sourceId, row).Accept? <==>
              && |row| >= 4
              && lib.parseDouble(row[3]).Some? && lib.parseDouble(row[2]).Some?
              && ParseTimeStrToMicros(lib, row[0]).Ok?
              && ParseLong(row[1]).Ok?
    ensures DecodeRow(lib, sourceId, row).Accept? ==>
              DecodeRow(lib, sourceId, row).entry == Entry(row[1], VehicleMessage(sourceId, ParseLong(row[1]).value,
                                                      lib.parseDouble(row[3]).value,
                                                      lib.parseDouble(row[2]).value,
                                                      ParseTimeStrToMicros(lib, row[0]).value))
  {
  }

  function Decoder(lib: Libraries, sourceId: Long): seq<string> -> RowOutcome<VehicleMessage>
  {
    row => DecodeRow(lib, sourceId, row)
  }

  /** The row loop of `processCsv` over `rows`, as a specification. */
  function Run(lib: Libraries, sourceId: Long, rows: seq<seq<string>>): Scan<VehicleMessage>
  {
    ScanRows(Decoder(lib, sourceId), rows)
  }

  /** Reading row `i` of a run that has not stopped. */
  lemma RunStep(lib: Libraries, sourceId: Long, rows: seq<seq<string>>, i: nat)
    requires i < |rows| && Run(lib, sourceId, rows[..i]).stop.None?
    ensures DecodeRow(lib, sourceId, rows[i]).Skip? ==> Run(lib, sourceId, rows[..i + 1]) == Run(lib, sourceId, rows[..i])
    ensures DecodeRow(lib, sourceId, rows[i]).Accept? ==>
              Run(lib, sourceId, rows[..i + 1]) ==
                Scan(Run(lib, sourceId, rows[..i]).accepted + [DecodeRow(lib, sourceId, rows[i]).entry], None)
    ensures DecodeRow(lib, sourceId, rows[i]).Abort? ==>
              Run(lib, sourceId, rows) ==
                Scan(Run(lib, sourceId, rows[..i]).accepted, Some(Stop(i, DecodeRow(lib, sourceId, rows[i]).exc)))
  {
    ScanExtend(Decoder(lib, sourceId), rows, i);
    assert Decoder(lib, sourceId)(rows[i]) == DecodeRow(lib, sourceId, rows[i]);
    if DecodeRow(lib, sourceId, rows[i]).Abort? {
      ScanAfterStop(Decoder(lib, sourceId), rows, i + 1);
    }
  }

  /** A row whose timestamp has a fraction but no '+' offset after it ends the whole run:
      the loader cannot read UTC timestamps written with 'Z' and fractional seconds. */
  lemma FractionWithoutOffsetStopsRun(lib: Libraries, sourceId: Long, rows: seq<seq<string>>, j: nat)
    requires j < |rows| && |rows[j]| >= 1
    requires '.' in rows[j][0] && '+' !in rows[j][0]
    ensures Run(lib, sourceId, rows).stop.Some? && Run(lib, sourceId, rows).stop.value.row <= j
  {
    TimeWithoutOffset(lib, rows[j][0]);
    ScanStops(Decoder(lib, sourceId), rows);
    assert Decoder(lib, sourceId)(rows[j]).Abort?;
  }

  /** Where the current loader wraps an id outside the `long` range, this one throws and
      ends the run. */
  lemma LongIdStopsRun(lib: Libraries, sourceId: Long, rows: seq<seq<string>>, j: nat)
    requires j < |rows| && |rows[j]| >= 4
    requires lib.parseDouble(rows[j][3]).Some? && lib.parseDouble(rows[j][2]).Some?
    requires ParseTimeStrToMicros(lib, rows[j][0]).Ok?
    requires ParseDecimal(rows[j][1]).Some? && !(MinLong <= ParseDecimal(rows[j][1]).value <= MaxLong)
    ensures Run(lib, sourceId, rows).stop.Some? && Run(lib, sourceId, rows).stop.value.row <= j
  {
    ScanStops(Decoder(lib, sourceId), rows);
    assert Decoder(lib, sourceId)(rows[j]).Abort?;
  }

  /** Every message the run keeps carries the run's source id and the id its row gave. */
  lemma RunTagsSource(lib: Libraries, sourceId: Long, rows: seq<seq<string>>)
    ensures forall i :: 0 <= i < |Run(lib, sourceId, rows).accepted| ==>
              var e := Run(lib, sourceId, rows).accepted[i];
              e.msg.sourceId == sourceId && ParseLong(e.rawId) == Ok(e.msg.vehicleId)
  {
    var p := (e: Entry<VehicleMessage>) => e.msg.sourceId == sourceId && ParseLong(e.rawId) == Ok(e.msg.vehicleId);
    ScanKeeps(Decoder(lib, sourceId), rows, p);
  }

  // ---------------------------------------------------------------------------
  // Posting

  /** The HTTP side: each POST of one message either delivers it or throws an
      IOException. Which attempts fail is not up to the loader, so it is a parameter:
      `failures` holds the numbers of the attempts that throw, counting from 0. */
  class Poster {
    const url: string
    const failures: set<nat>
    var attempts: nat
    ghost var delivered: seq<VehicleMessage>

    constructor (url: string, failures: set<nat>)
      ensures this.url == url && this.failures == failures
      ensures attempts == 0 && delivered == []
    {
      this.url := url;
      this.failures := failures;
      attempts := 0;
      delivered := [];
    }

    /** `client.execute(httpPost)` with the message as the body. */
    method Post(m: VehicleMessage) returns (ioError: bool)
      modifies this
      ensures ioError == (old(attempts) in failures)
      ensures attempts == old(attempts) + 1
      ensures delivered == if ioError then old(delivered) else old(delivered) + [m]
    {
      ioError := attempts in failures;
      if !ioError {
        delivered := delivered + [m];
      }
      attempts := attempts + 1;
    }
  }

  /** How many of `n` posts, starting at attempt `first`, go through before the first one
      that fails. */
  function PostsBeforeFailure(failures: set<nat>, first: nat, n: nat): (k: nat)
    ensures k <= n
    ensures forall a :: first <= a < first + k ==> a !in failures
    ensures k < n ==> first + k in failures
  {
    if n == 0 then 0
    else
      var k := PostsBeforeFailure(failures, first, n - 1);
      if k < n - 1 || first + (n - 1) in failures then k else n
  }

  /** The count of posts that go through is the only one with those two properties. */
  lemma PostsBeforeFailureUnique(failures: set<nat>, first: nat, n: nat, k: nat)
    requires k <= n
    requires forall a :: first <= a < first + k ==> a !in failures
    requires k < n ==> first + k in failures
    ensures PostsBeforeFailure(failures, first, n) == k
  {
  }

  /** The loop tracks: the rows read so far keep `es`, every one of them was posted and
      delivered, in order, and the attempts used so far all went through. */
  ghost predicate Posted(es: seq<Entry<VehicleMessage>>, first: nat, failures: set<nat>, attempts: nat,
                         delivered0: seq<VehicleMessage>, delivered: seq<VehicleMessage>)
  {
    && delivered == delivered0 + Messages(es)
    && attempts == first + |es|
    && forall a :: first <= a < first + |es| ==> a !in failures
  }

  /** Posting the next kept entry: if the attempt goes through, the tracked state now
      covers that entry too; if it throws, nothing more was delivered and the attempt
      used was a failing one. */
  method PostEntry(poster: Poster, ghost es: seq<Entry<VehicleMessage>>, entry: Entry<VehicleMessage>,
                   ghost first: nat, ghost delivered0: seq<VehicleMessage>)
    returns (ioError: bool)
    requires Posted(es, first, poster.failures, poster.attempts, delivered0, poster.delivered)
    modifies poster
    ensures !ioError ==> Posted(es + [entry], first, poster.failures, poster.attempts, delivered0, poster.delivered)
    ensures ioError ==> && poster.delivered == delivered0 + Messages(es)
                        && poster.attempts == first + |es| + 1
                        && first + |es| in poster.failures
                        && forall a :: first <= a < first + |es| ==> a !in poster.failures
  {
    ioError := poster.Post(entry.msg);
    if !ioError {
      MessagesAppend(es, entry);
    }
  }

  /** If row `i` is kept after the rows before it kept `es`, the whole run keeps `es`
      and then that row's entry, and perhaps more. */
  lemma RunKeepsNext(lib: Libraries, sourceId: Long, rows: seq<seq<string>>, i: nat,
                     es: seq<Entry<VehicleMessage>>, entry: Entry<VehicleMessage>)
    requires i < |rows| && Run(lib, sourceId, rows[..i]) == Scan(es, None)
    requires DecodeRow(lib, sourceId, rows[i]) == Accept(entry)
    ensures Run(lib, sourceId, rows[..i + 1]) == Scan(es + [entry], None)
    ensures var all := Run(lib, sourceId, rows).accepted;
            |es| < |all| && all[..|es|] == es && all[..|es| + 1] == es + [entry]
  {
    RunStep(lib, sourceId, rows, i);
    ScanPrefix(Decoder(lib, sourceId), rows, i + 1);
    var all := Run(lib, sourceId, rows).accepted;
    var kept := es + [entry];
    assert all[..|kept|] == kept;
    PrefixOfPrefix(all, kept, |es|);
    assert kept[..|es|] == es;
  }

  /** Row `row` is the one that keeps the entry after the first `k` of `all`: the rows
      before it keep `all[..k]` and do not stop the run, and with it they keep one more. */
  ghost predicate KeepsNextAt(lib: Libraries, sourceId: Long, rows: seq<seq<string>>, row: nat,
                              all: seq<Entry<VehicleMessage>>, k: nat)
  {
    && k < |all| && row < |rows|
    && Run(lib, sourceId, rows[..row]) == Scan(all[..k], None)
    && Run(lib, sourceId, rows[..row + 1]) == Scan(all[..k + 1], None)
  }

  /** What a run of `processCsv` leaves behind, given the scan of its rows and which post
      attempts fail: with `k` the number of kept messages posted before the first failing
      attempt,
      - the first `k` messages are delivered, in order, and nothing else;
      - one attempt is made per delivered message, plus the failing one if any;
      - when no post fails, the run ends as the row loop does (completed, or at the first
        row that throws, with that row's exception);
      - when a post fails, the run ends with an IOException at the row that keeps the
        (k+1)-th message. */
  ghost predicate Reported(lib: Libraries, sourceId: Long, rows: seq<seq<string>>, scan: Scan<VehicleMessage>,
                           failures: set<nat>, first: nat, delivered0: seq<VehicleMessage>,
                           delivered: seq<VehicleMessage>, attempts: nat, outcome: RunOutcome)
  {
    var ms := Messages(scan.accepted);
    var k := PostsBeforeFailure(failures, first, |ms|);
    && delivered == delivered0 + ms[..k]
    && attempts == first + (if k < |ms| then k + 1 else k)
    && (k == |ms| ==> outcome == Outcome(scan))
    && (k < |ms| ==>
          && outcome.Aborted? && outcome.exc == IOException
          && KeepsNextAt(lib, sourceId, rows, outcome.row, scan.accepted, k))
  }

  /** Every post went through and the loop ended as the row scan did. */
  lemma ReportAllPosted(lib: Libraries, sourceId: Long, rows: seq<seq<string>>, scan: Scan<VehicleMessage>,
                        failures: set<nat>, first: nat, delivered0: seq<VehicleMessage>,
                        delivered: seq<VehicleMessage>, attempts: nat)
    requires forall a :: first <= a < first + |scan.accepted| ==> a !in failures
    requires delivered == delivered0 + Messages(scan.accepted) && attempts == first + |scan.accepted|
    ensures Reported(lib, sourceId, rows, scan, failures, first, delivered0, delivered, attempts, Outcome(scan))
  {
    var es := scan.accepted;
    PostsBeforeFailureUnique(failures, first, |es|, |es|);
    assert Messages(es)[..|es|] == Messages(es);
  }

  /** Leaving the loop because the post for row `i` failed after the posts for the
      entries `es` went through. */
  lemma ReportPostFailure(lib: Libraries, sourceId: Long, rows: seq<seq<string>>, i: nat,
                          es: seq<Entry<VehicleMessage>>, entry: Entry<VehicleMessage>, failures: set<nat>, first: nat,
                          delivered0: seq<VehicleMessage>, delivered: seq<VehicleMessage>, attempts: nat)
    requires i < |rows| && Run(lib, sourceId, rows[..i]) == Scan(es, None)
    requires DecodeRow(lib, sourceId, rows[i]) == Accept(entry)
    requires forall a :: first <= a < first + |es| ==> a !in failures
    requires first + |es| in failures
    requires delivered == delivered0 + Messages(es) && attempts == first + |es| + 1
    ensures Reported(lib, sourceId, rows, Run(lib, sourceId, rows), failures, first, delivered0, delivered, attempts,
                     Aborted(i, IOException))
  {
    RunKeepsNext(lib, sourceId, rows, i, es, entry);
    var all := Run(lib, sourceId, rows).accepted;
    assert KeepsNextAt(lib, sourceId, rows, i, all, |es|);
    PostFailureReported(lib, sourceId, rows, i, Run(lib, sourceId, rows), es, failures, first, delivered0, delivered, attempts);
  }

  /** The bookkeeping half of `ReportPostFailure`, on the scan as a value. */
  lemma PostFailureReported(lib: Libraries, sourceId: Long, rows: seq<seq<string>>, i: nat, scan: Scan<VehicleMessage>,
                            es: seq<Entry<VehicleMessage>>, failures: set<nat>, first: nat,
                            delivered0: seq<VehicleMessage>, delivered: seq<VehicleMessage>, attempts: nat)
    requires KeepsNextAt(lib, sourceId, rows, i, scan.accepted, |es|) && scan.accepted[..|es|] == es
    requires forall a :: first <= a < first + |es| ==> a !in failures
    requires first + |es| in failures
    requires delivered == delivered0 + Messages(es) && attempts == first + |es| + 1
    ensures Reported(lib, sourceId, rows, scan, failures, first, delivered0, delivered, attempts, Aborted(i, IOException))
  {
    var ms := Messages(scan.accepted);
    assert PostsBeforeFailure(failures, first, |ms|) == |es|;
    MessagesPrefix(scan.accepted, |es|);
  }

  lemma MessagesPrefix<M>(es: seq<Entry<M>>, k: nat)
    requires k <= |es|
    ensures Messages(es[..k]) == Messages(es)[..k]
  {
  }

  lemma PrefixOfPrefix<T>(s: seq<T>, p: seq<T>, k: nat)
    requires |p| <= |s| && s[..|p|] == p && k < |p|
    ensures s[..k] == p[..k] && s[k] == p[k]
  {
    assert s[..k] == s[..|p|][..k];
  }

  /** One pass of the loop body on row `i`: decode it and, if it is kept, post it. Either
      the loop goes on, having read one more row and posted what it kept, or the run ends
      here, with what it leaves behind as `Reported` states. */
  method ReadRow(lib: Libraries, sourceId: Long, rows: seq<seq<string>>, i: nat, poster: Poster,
                 ghost accepted: seq<Entry<VehicleMessage>>, ghost first: nat, ghost delivered0: seq<VehicleMessage>)
    returns (done: Option<RunOutcome>, ghost accepted': seq<Entry<VehicleMessage>>)
    requires i < |rows| && Run(lib, sourceId, rows[..i]) == Scan(accepted, None)
    requires Posted(accepted, first, poster.failures, poster.attempts, delivered0, poster.delivered)
    modifies poster
    ensures done.None? ==> && Run(lib, sourceId, rows[..i + 1]) == Scan(accepted', None)
                           && Posted(accepted', first, poster.failures, poster.attempts, delivered0, poster.delivered)
    ensures done.Some? ==> Reported(lib, sourceId, rows, Run(lib, sourceId, rows), poster.failures, first,
                                    delivered0, poster.delivered, poster.attempts, done.value)
  {
    RunStep(lib, sourceId, rows, i);
    accepted' := accepted;
    match DecodeRow(lib, sourceId, rows[i]) {
      case Abort(e) =>
        done := Some(Aborted(i, e));
        ReportAllPosted(lib, sourceId, rows, Run(lib, sourceId, rows), poster.failures, first,
                        delivered0, poster.delivered, poster.attempts);
      case Skip =>
        done := None;
      case Accept(entry) =>
        var ioError := PostEntry(poster, accepted, entry, first, delivered0);
        if ioError {
          done := Some(Aborted(i, IOException));
          ReportPostFailure(lib, sourceId, rows, i, accepted, entry, poster.failures, first,
                            delivered0, poster.delivered, poster.attempts);
        } else {
          done := None;
          accepted' := accepted + [entry];
        }
    }
  }

  /** `processCsv` from the first row to the last, given the rows the CSV parser yields.
      Each kept row is posted before the next row is read. An IOException from a post is
      caught: the run ends there and reports it as `Aborted(row, IOException)`. Any other
      exception from a row escapes and is reported as `Aborted(row, e)`. */
  method ProcessCsv(lib: Libraries, sourceId: Long, rows: seq<seq<string>>, poster: Poster)
    returns (outcome: RunOutcome)
    modifies poster
    ensures Reported(lib, sourceId, rows, Run(lib, sourceId, rows), poster.failures, old(poster.attempts),
                     old(poster.delivered), poster.delivered, poster.attempts, outcome)
  {
    ghost var accepted: seq<Entry<VehicleMessage>> := [];
    assert rows[..0] == [];
    for i := 0 to |rows|
      invariant Run(lib, sourceId, rows[..i]) == Scan(accepted, None)
      invariant Posted(accepted, old(poster.attempts), poster.failures, poster.attempts, old(poster.delivered), poster.delivered)
    {
      var done;
      done, accepted := ReadRow(lib, sourceId, rows, i, poster, accepted, old(poster.attempts), old(poster.delivered));
      if done.Some? {
        outcome := done.value;
        return;
      }
    }
    assert rows[..|rows|] == rows;
    outcome := Completed;
    ReportAllPosted(lib, sourceId, rows, Run(lib, sourceId, rows), poster.failures, old(poster.attempts),
                    old(poster.delivered), poster.delivered, poster.attempts);
  }

  /** When no post fails, everything the run keeps is delivered, in input order: one
      message per kept row among the rows read. */
  lemma AllPostsDelivered(lib: Libraries, sourceId: Long, rows: seq<seq<string>>, failures: set<nat>, first: nat)
    requires var scan := Run(lib, sourceId, rows);
             PostsBeforeFailure(failures, first, |scan.accepted|) == |scan.accepted|
    ensures var scan := Run(lib, sourceId, rows);
            var ms := Messages(scan.accepted);
            ms[..PostsBeforeFailure(failures, first, |ms|)] ==
              Messages(Kept(Decoder(lib, sourceId), rows[..RowsRead(scan, |rows|)]))
  {
    var scan := Run(lib, sourceId, rows);
    ScanIsFilter(Decoder(lib, sourceId), rows);
    var ms := Messages(scan.accepted);
    assert ms[..|ms|] == ms;
  }
}
