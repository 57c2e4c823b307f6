/** The current loader (src/main/java/com/conveyal/traffic/loader/CsvLoader.java):
    timestamps are split at the fraction and parsed to epoch milliseconds, vehicle ids are
    read as arbitrary-precision decimals and wrapped to 64 bits, and the kept rows are
    sent in envelopes of 10001 messages, with one final envelope after the last row. */
module CsvLoader {
  import opened JavaLang
  import opened FractionSnip
  import opened RowScan
  import opened Batches

  /** One vehicle position: `VehicleMessage` with a single `VehicleLocation`. */
  datatype VehicleMessage = VehicleMessage(vehicleId: Long, lat: Float64, lon: Float64, timestamp: Long)

  /** What one `sendData` call posts: `VehicleMessageEnvelope`. */
  datatype Envelope = Envelope(sourceId: Long, messages: seq<VehicleMessage>)

  /** One progress line: the record count `count` (never incremented by the loader), the
      number of distinct raw vehicle-id strings and the number of distinct `long` ids. */
  datatype Progress = Progress(recordsLoaded: int, uniqueVehicles: nat, uniqueIds: nat)

  // ---------------------------------------------------------------------------
  // Timestamps

  /** Where the fractional seconds end: the first '+', else the first 'Z', else the end. */
  function FractionEnd(t: string): (e: nat)
    ensures e <= |t|
    ensures '+' in t ==> e < |t| && t[e] == '+' && '+' !in t[..e]
    ensures '+' !in t && 'Z' in t ==> e < |t| && t[e] == 'Z' && 'Z' !in t[..e]
    ensures '+' !in t && 'Z' !in t ==> e == |t|
  {
    var plus := IndexOf(t, '+');
    if plus != -1 then plus
    else
      var zulu := IndexOf(t, 'Z');
      if zulu != -1 then zulu else |t|
  }

  /** `parseTimeStrToMilli`: cut the fraction out, then parse both parts. */
  function ParseTimeStrToMilli(lib: Libraries, timeStr: string): (r: Result<Long>)
    ensures r == Fail(IndexOutOfBounds) <==> '.' in timeStr && FractionEnd(timeStr) < IndexOf(timeStr, '.')
    ensures '.' !in timeStr ==> r == ParseSnippedMilli(lib, Snipped(timeStr, "0.0"))
  {
    match CutFraction(timeStr, FractionEnd(timeStr))
    case Fail(e) => Fail(e)
    case Ok(sn) => ParseSnippedMilli(lib, sn)
  }

  /** Parse the whole seconds with the pattern `yyyy-MM-dd HH:mm:ssX`, then the fraction,
      and add the fraction scaled to milliseconds in `long` arithmetic. */
  function ParseSnippedMilli(lib: Libraries, sn: Snipped): (r: Result<Long>)
    ensures r == Fail(ParseException) <==> lib.parseDate(sn.whole).None?
    ensures r.Ok? <==> lib.parseDate(sn.whole).Some? && lib.parseDouble(sn.fraction).Some?
    ensures r.Ok? ==> r.value == ToLong(lib.parseDate(sn.whole).value
                                        + lib.scaleToLong(lib.parseDouble(sn.fraction).value, 1000))
  {
    match lib.parseDate(sn.whole)
    case None => Fail(ParseException)
    case Some(timeMillis) =>
      match lib.parseDouble(sn.fraction)
      case None => Fail(NumberFormat)
      case Some(d) => Ok(ToLong(timeMillis + lib.scaleToLong(d, 1000)))
  }

  /** Without a '.', the text goes to the date parser unchanged and the fraction "0.0"
      adds nothing: the result is the parsed milliseconds, or a ParseException. */
  lemma TimeWithoutFraction(lib: Libraries, t: string)
    requires ZeroIsExact(lib) && '.' !in t
    ensures lib.parseDate(t).None? ==> ParseTimeStrToMilli(lib, t) == Fail(ParseException)
    ensures lib.parseDate(t).Some? ==> ParseTimeStrToMilli(lib, t) == Ok(lib.parseDate(t).value)
  {
  }

  /** With a '.' at `s` and the terminator at `e >= s`, the cut loses nothing: the
      fraction parser sees "0" + t[s..e), and putting that fraction back at `s` in the
      text the date parser sees rebuilds the timestamp. */
  lemma TimeWithFraction(lib: Libraries, t: string)
    requires '.' in t && IndexOf(t, '.') <= FractionEnd(t)
    ensures var s, e, c := IndexOf(t, '.'), FractionEnd(t), CutFraction(t, FractionEnd(t));
            && c.Ok?
            && ParseTimeStrToMilli(lib, t) == ParseSnippedMilli(lib, c.value)
            && |c.value.fraction| >= 2 && c.value.fraction[..2] == "0."
            && c.value.fraction[1..] == t[s..e]
            && s <= |c.value.whole| && '.' !in c.value.whole[..s]
            && c.value.whole[..s] + c.value.fraction[1..] + c.value.whole[s..] == t
  {
    CutFractionSegment(t, FractionEnd(t));
    CutFractionReassembles(t, FractionEnd(t));
  }

  /** A terminator before the '.' (say "+01 10:00:00.5") makes `substring` throw an index
      error, which is not a ParseException. */
  lemma TimeTerminatorBeforeDot(lib: Libraries, t: string)
    requires '.' in t && FractionEnd(t) < IndexOf(t, '.')
    ensures ParseTimeStrToMilli(lib, t) == Fail(IndexOutOfBounds)
  {
  }

  // ---------------------------------------------------------------------------
  // Rows

  /** The body of the row loop up to the buffer: fields 0..3 are read (an index error if
      the row is shorter), then lat from field 3 and lon from field 2, then the timestamp
      (a ParseException skips the row), then the vehicle id from field 1. */
  function DecodeRow(lib: Libraries, row: seq<string>): (r: RowOutcome<VehicleMessage>)
    ensures |row| < 4 ==> r == Abort(IndexOutOfBounds)
    ensures r.Skip? <==>
              && |row| >= 4
              && lib.parseDouble(row[3]).Some? && lib.parseDouble(row[2]).Some?
              && ParseTimeStrToMilli(lib, row[0]) == Fail(ParseException)
    ensures r.Accept? <==>
              && |row| >= 4
              && lib.parseDouble(row[3]).Some? && lib.parseDouble(row[2]).Some?
              && ParseTimeStrToMilli(lib, row[0]).Ok?
              && BigIntegerLongValue(row[1]).Ok?
    ensures r.Accept? ==>
              r.entry == Entry(row[1], VehicleMessage(BigIntegerLongValue(row[1]).value,
                                                      lib.parseDouble(row[3]).value,
                                                      lib.parseDouble(row[2]).value,
                                                      ParseTimeStrToMilli(lib, row[0]).value))
  {
    if |row| < 4 then Abort(IndexOutOfBounds)
    else
      var timeStr, vehicleIdStr, lonStr, latStr := row[0], row[1], row[2], row[3];
      match lib.parseDouble(latStr)
      case None => Abort(NumberFormat)
      case Some(lat) =>
        match lib.parseDouble(lonStr)
        case None => Abort(NumberFormat)
        case Some(lon) =>
          match ParseTimeStrToMilli(lib, timeStr)
          case Fail(ParseException) => Skip
          case Fail(e) => Abort(e)
          case Ok(time) =>
            match BigIntegerLongValue(vehicleIdStr)
            case Fail(e) => Abort(e)
            case Ok(vehicleId) => Accept(Entry(vehicleIdStr, VehicleMessage(vehicleId, lat, lon, time)))
  }

  function Decoder(lib: Libraries): seq<string> -> RowOutcome<VehicleMessage>
  {
    row => DecodeRow(lib, row)
  }

  /** The row loop of `processCsv` over `rows`, as a specification. */
  function Run(lib: Libraries, rows: seq<seq<string>>): Scan<VehicleMessage>
  {
    ScanRows(Decoder(lib), rows)
  }

  /** Reading row `i` of a run that has not stopped: a skipped row changes nothing, a kept
      row is appended, and a throwing row ends the run there. */
  lemma RunStep(lib: Libraries, rows: seq<seq<string>>, i: nat)
    requires i < |rows| && Run(lib, rows[..i]).stop.None?
    ensures DecodeRow(lib, rows[i]).Skip? ==> Run(lib, rows[..i + 1]) == Run(lib, rows[..i])
    ensures DecodeRow(lib, rows[i]).Accept? ==>
              Run(lib, rows[..i + 1]) == Scan(Run(lib, rows[..i]).accepted + [DecodeRow(lib, rows[i]).entry], None)
    ensures DecodeRow(lib, rows[i]).Abort? ==>
              Run(lib, rows) == Scan(Run(lib, rows[..i]).accepted, Some(Stop(i, DecodeRow(lib, rows[i]).exc)))
  {
    ScanExtend(Decoder(lib), rows, i);
    assert Decoder(lib)(rows[i]) == DecodeRow(lib, rows[i]);
    if DecodeRow(lib, rows[i]).Abort? {
      ScanAfterStop(Decoder(lib), rows, i + 1);
    }
  }

  /** A row with fewer than four fields throws out of the loop once it is reached. */
  lemma ShortRowStopsRun(lib: Libraries, rows: seq<seq<string>>, j: nat)
    requires j < |rows| && |rows[j]| < 4
    ensures Run(lib, rows).stop.Some? && Run(lib, rows).stop.value.row <= j
  {
    ScanStops(Decoder(lib), rows);
    assert Decoder(lib)(rows[j]).Abort?;
  }

  // ---------------------------------------------------------------------------
  // Distinct-id counters

  /** `uniqueVehicles`: the raw id strings of the kept rows. */
  function RawIds(es: seq<Entry<VehicleMessage>>): set<string>
  {
    if es == [] then {} else RawIds(es[..|es| - 1]) + {es[|es| - 1].rawId}
  }

  /** `uniqueVehIds`: the narrowed ids of the kept rows. */
  function VehicleIds(es: seq<Entry<VehicleMessage>>): set<Long>
  {
    if es == [] then {} else VehicleIds(es[..|es| - 1]) + {es[|es| - 1].msg.vehicleId}
  }

  /** The two sets hold exactly the raw id strings and the narrowed ids of the kept rows. */
  lemma {:induction false} IdSetsMembers(es: seq<Entry<VehicleMessage>>)
    ensures forall raw :: raw in RawIds(es) <==> exists j :: 0 <= j < |es| && es[j].rawId == raw
    ensures forall id :: id in VehicleIds(es) <==> exists j :: 0 <= j < |es| && es[j].msg.vehicleId == id
  {
    if es != [] {
      var init := es[..|es| - 1];
      IdSetsMembers(init);
      assert forall j :: 0 <= j < |init| ==> init[j] == es[j];
    }
  }

  /** Each kept row's id is the narrowing of its raw string. */
  predicate IdsNarrowed(es: seq<Entry<VehicleMessage>>)
  {
    forall i :: 0 <= i < |es| ==> BigIntegerLongValue(es[i].rawId) == Ok(es[i].msg.vehicleId)
  }

  lemma RunIdsNarrowed(lib: Libraries, rows: seq<seq<string>>)
    ensures IdsNarrowed(Run(lib, rows).accepted)
  {
    var p := (e: Entry<VehicleMessage>) => BigIntegerLongValue(e.rawId) == Ok(e.msg.vehicleId);
    ScanKeeps(Decoder(lib), rows, p);
  }

  lemma {:induction false} RawIdHasEntry(es: seq<Entry<VehicleMessage>>, raw: string) returns (j: nat)
    requires raw in RawIds(es)
    ensures j < |es| && es[j].rawId == raw
  {
    var init := es[..|es| - 1];
    if raw in RawIds(init) {
      j := RawIdHasEntry(init, raw);
    } else {
      j := |es| - 1;
    }
  }

  lemma {:induction false} EntryHasVehicleId(es: seq<Entry<VehicleMessage>>, j: nat)
    requires j < |es|
    ensures es[j].msg.vehicleId in VehicleIds(es)
  {
    var init := es[..|es| - 1];
    if j < |init| {
      EntryHasVehicleId(init, j);
    }
  }

  /** Because the narrowed id is a function of the raw string, there are never more
      distinct narrowed ids than distinct raw ids. */
  lemma {:induction false} VehicleIdsAtMostRawIds(es: seq<Entry<VehicleMessage>>)
    requires IdsNarrowed(es)
    ensures |VehicleIds(es)| <= |RawIds(es)|
  {
    if es != [] {
      var init, last := es[..|es| - 1], es[|es| - 1];
      assert IdsNarrowed(init);
      VehicleIdsAtMostRawIds(init);
      if last.rawId in RawIds(init) {
        var j := RawIdHasEntry(init, last.rawId);
        EntryHasVehicleId(init, j);
        assert init[j] == es[j];
        assert BigIntegerLongValue(es[j].rawId) == Ok(es[j].msg.vehicleId);
        assert BigIntegerLongValue(last.rawId) == Ok(last.msg.vehicleId);
        assert RawIds(es) == RawIds(init);
        assert VehicleIds(es) == VehicleIds(init);
      }
    }
  }

  /** The progress lines printed after each flush inside the loop, for the kept rows. */
  function ProgressLines(es: seq<Entry<VehicleMessage>>): seq<Progress>
  {
    if es == [] then []
    else
      ProgressLines(es[..|es| - 1])
      + if |es| % BatchSize == 0 then [Progress(0, |RawIds(es)|, |VehicleIds(es)|)] else []
  }

  /** Line k is printed once the kept rows reach (k + 1) * 10001, and reports the sizes
      of the two id sets at that moment. */
  lemma {:induction false} ProgressLinesAt(es: seq<Entry<VehicleMessage>>)
    ensures |ProgressLines(es)| == |es| / BatchSize
    ensures forall k :: 0 <= k < |ProgressLines(es)| ==>
              (k + 1) * BatchSize <= |es| &&
              ProgressLines(es)[k] == Progress(0, |RawIds(es[..(k + 1) * BatchSize])|, |VehicleIds(es[..(k + 1) * BatchSize])|)
  {
    if es != [] {
      var init := es[..|es| - 1];
      ProgressLinesAt(init);
      var lines, prev := ProgressLines(es), ProgressLines(init);
      CountStep(|init|);
      forall k | 0 <= k < |lines|
        ensures (k + 1) * BatchSize <= |es|
        ensures lines[k] == Progress(0, |RawIds(es[..(k + 1) * BatchSize])|, |VehicleIds(es[..(k + 1) * BatchSize])|)
      {
        if k < |prev| {
          assert init[..(k + 1) * BatchSize] == es[..(k + 1) * BatchSize];
        } else {
          assert es[..|es|] == es;
        }
      }
    }
  }

  /** One progress line per full batch; each reports 0 records, because `count` is never
      incremented, and never more distinct ids than distinct raw strings. */
  lemma ProgressLinesReport(es: seq<Entry<VehicleMessage>>)
    requires IdsNarrowed(es)
    ensures |ProgressLines(es)| == |es| / BatchSize
    ensures forall k :: 0 <= k < |ProgressLines(es)| ==>
              ProgressLines(es)[k] == Progress(0, |RawIds(es[..(k + 1) * BatchSize])|, |VehicleIds(es[..(k + 1) * BatchSize])|)
    ensures forall k :: 0 <= k < |ProgressLines(es)| ==>
              ProgressLines(es)[k].recordsLoaded == 0 &&
              ProgressLines(es)[k].uniqueIds <= ProgressLines(es)[k].uniqueVehicles
  {
    ProgressLinesAt(es);
    forall k | 0 <= k < |ProgressLines(es)|
      ensures ProgressLines(es)[k].uniqueIds <= ProgressLines(es)[k].uniqueVehicles
    {
      var upto := es[..(k + 1) * BatchSize];
      assert IdsNarrowed(upto);
      VehicleIdsAtMostRawIds(upto);
    }
  }

  /** What keeping one more row does to the state the loop tracks. */
  lemma PushEntry(es: seq<Entry<VehicleMessage>>, entry: Entry<VehicleMessage>)
    ensures RawIds(es + [entry]) == RawIds(es) + {entry.rawId}
    ensures VehicleIds(es + [entry]) == VehicleIds(es) + {entry.msg.vehicleId}
  {
    assert (es + [entry])[..|es|] == es;
  }

  lemma PushProgress(es: seq<Entry<VehicleMessage>>, entry: Entry<VehicleMessage>)
    ensures ProgressLines(es + [entry]) ==
              ProgressLines(es) + if (|es| + 1) % BatchSize == 0
                                  then [Progress(0, |RawIds(es + [entry])|, |VehicleIds(es + [entry])|)]
                                  else []
  {
    assert (es + [entry])[..|es|] == es;
  }

  lemma FlushCondition(es: seq<Entry<VehicleMessage>>)
    ensures (|es| + 1) % BatchSize == 0 <==> |Leftover(Messages(es))| + 1 > FlushThreshold
  {
    CountStep(|es|);
  }

  // ---------------------------------------------------------------------------
  // Sending

  /** The sender: every `sendData` call is recorded, in order, in a ghost log. The HTTP
      status and any IOException are only logged by `sendData`, so they do not affect
      the loader. */
  class Sink {
    const url: string
    ghost var sent: seq<Envelope>

    constructor (url: string)
      ensures this.url == url && sent == []
    {
      this.url := url;
      sent := [];
    }

    /** `sendData(url, sourceId, messages)`: post one envelope. */
    method SendData(sourceId: Long, messages: seq<VehicleMessage>)
      modifies this
      ensures sent == old(sent) + [Envelope(sourceId, messages)]
    {
      sent := sent + [Envelope(sourceId, messages)];
    }
  }

  /** The envelopes for a sequence of batches, all with the run's source id. */
  function Envelopes(sourceId: Long, bs: seq<seq<VehicleMessage>>): (r: seq<Envelope>)
    ensures |r| == |bs|
    ensures forall i :: 0 <= i < |bs| ==> r[i] == Envelope(sourceId, bs[i])
  {
    if bs == [] then [] else Envelopes(sourceId, bs[..|bs| - 1]) + [Envelope(sourceId, bs[|bs| - 1])]
  }

  lemma EnvelopesAppend(sourceId: Long, bs: seq<seq<VehicleMessage>>, b: seq<VehicleMessage>)
    ensures Envelopes(sourceId, bs + [b]) == Envelopes(sourceId, bs) + [Envelope(sourceId, b)]
  {
    assert (bs + [b])[..|bs|] == bs;
  }

  /** Everything the loop tracks after keeping one more row: the buffer either grows or,
      once it holds more than `FlushThreshold` messages, is sent as one more envelope and
      a progress line is printed. */
  lemma KeepStep(sourceId: Long, es: seq<Entry<VehicleMessage>>, entry: Entry<VehicleMessage>)
    ensures RawIds(es + [entry]) == RawIds(es) + {entry.rawId}
    ensures VehicleIds(es + [entry]) == VehicleIds(es) + {entry.msg.vehicleId}
    ensures var ms, ms' := Messages(es), Messages(es + [entry]);
            if |Leftover(ms) + [entry.msg]| > FlushThreshold then
              && Leftover(ms') == []
              && Envelopes(sourceId, FullBatches(ms')) ==
                   Envelopes(sourceId, FullBatches(ms)) + [Envelope(sourceId, Leftover(ms) + [entry.msg])]
              && ProgressLines(es + [entry]) ==
                   ProgressLines(es) + [Progress(0, |RawIds(es + [entry])|, |VehicleIds(es + [entry])|)]
            else
              && Leftover(ms') == Leftover(ms) + [entry.msg]
              && FullBatches(ms') == FullBatches(ms)
              && ProgressLines(es + [entry]) == ProgressLines(es)
  {
    var ms := Messages(es);
    MessagesAppend(es, entry);
    PushEntry(es, entry);
    PushProgress(es, entry);
    FlushCondition(es);
    PushMessage(ms, entry.msg);
    EnvelopesAppend(sourceId, FullBatches(ms), Leftover(ms) + [entry.msg]);
  }

  /** The batches a run hands to `sendData`: the full batches flushed inside the loop,
      then, only if the loop ran to the end, whatever is left in the buffer. */
  function SentBatches(scan: Scan<VehicleMessage>): seq<seq<VehicleMessage>>
  {
    var ms := Messages(scan.accepted);
    FullBatches(ms) + if scan.stop.None? then [Leftover(ms)] else []
  }

  /** What the loop's local state holds after the kept entries `es`: the buffer is what
      has not been flushed, the sink has received one envelope per full batch (after the
      envelopes `sent0` it held before the run), the two sets hold the ids seen, and one
      progress line has been printed per flush. */
  ghost predicate Tracked(sourceId: Long, sent0: seq<Envelope>, es: seq<Entry<VehicleMessage>>, messages: seq<VehicleMessage>,
                          sent: seq<Envelope>, uniqueVehicles: set<string>, uniqueVehIds: set<Long>, progress: seq<Progress>)
  {
    && messages == Leftover(Messages(es))
    && sent == sent0 + Envelopes(sourceId, FullBatches(Messages(es)))
    && uniqueVehicles == RawIds(es) && uniqueVehIds == VehicleIds(es)
    && progress == ProgressLines(es)
  }

  /** The loop body for a row that was kept: record both ids, buffer the message, and once
      the buffer holds more than 10000 messages send it, clear it and print a progress
      line with `count`. */
  method KeepRecord(sourceId: Long, sink: Sink, ghost sent0: seq<Envelope>, ghost es: seq<Entry<VehicleMessage>>,
                    entry: Entry<VehicleMessage>, count: int, messages: seq<VehicleMessage>,
                    uniqueVehicles: set<string>, uniqueVehIds: set<Long>, progress: seq<Progress>)
    returns (messages': seq<VehicleMessage>, uniqueVehicles': set<string>, uniqueVehIds': set<Long>, progress': seq<Progress>)
    requires count == 0
    requires Tracked(sourceId, sent0, es, messages, sink.sent, uniqueVehicles, uniqueVehIds, progress)
    modifies sink
    ensures Tracked(sourceId, sent0, es + [entry], messages', sink.sent, uniqueVehicles', uniqueVehIds', progress')
    ensures |messages'| <= FlushThreshold
  {
    KeepStep(sourceId, es, entry);
    uniqueVehicles' := uniqueVehicles + {entry.rawId};
    uniqueVehIds' := uniqueVehIds + {entry.msg.vehicleId};
    messages' := messages + [entry.msg];
    progress' := progress;
    if |messages'| > FlushThreshold {
      sink.SendData(sourceId, messages');
      messages' := [];
      progress' := progress' + [Progress(count, |uniqueVehicles'|, |uniqueVehIds'|)];
    }
  }

  /** `processCsv` from the first row to the last, given the rows the CSV parser yields.
      It returns how the run ended and the progress lines it printed. */
  method ProcessCsv(lib: Libraries, sourceId: Long, rows: seq<seq<string>>, sink: Sink)
    returns (outcome: RunOutcome, progress: seq<Progress>)
    modifies sink
    ensures outcome == Outcome(Run(lib, rows))
    ensures sink.sent == old(sink.sent) + Envelopes(sourceId, SentBatches(Run(lib, rows)))
    ensures progress == ProgressLines(Run(lib, rows).accepted)
  {
    var count := 0;
    var uniqueVehicles: set<string> := {};
    var uniqueVehIds: set<Long> := {};
    var messages: seq<VehicleMessage> := [];
    ghost var accepted: seq<Entry<VehicleMessage>> := [];
    progress := [];
    assert rows[..0] == [];
    for i := 0 to |rows|
      invariant Run(lib, rows[..i]) == Scan(accepted, None)
      invariant Tracked(sourceId, old(sink.sent), accepted, messages, sink.sent, uniqueVehicles, uniqueVehIds, progress)
    {
      RunStep(lib, rows, i);
      match DecodeRow(lib, rows[i]) {
        case Abort(e) =>
          outcome := Aborted(i, e);
          return;
        case Skip =>
        case Accept(entry) =>
          messages, uniqueVehicles, uniqueVehIds, progress :=
            KeepRecord(sourceId, sink, old(sink.sent), accepted, entry, count, messages, uniqueVehicles, uniqueVehIds, progress);
          accepted := accepted + [entry];
      }
    }
    assert rows[..|rows|] == rows;
    EnvelopesAppend(sourceId, FullBatches(Messages(accepted)), messages);
    sink.SendData(sourceId, messages);
    outcome := Completed;
  }

  // ---------------------------------------------------------------------------
  // What a run delivers

  /** A run that reaches the end sends, across all its envelopes and in input order, one
      message per row that was kept, and calls `sendData` once more than the number of
      full batches, even when the last batch is empty. */
  lemma CompletedRunSendsKeptRows(lib: Libraries, rows: seq<seq<string>>)
    requires Run(lib, rows).stop.None?
    ensures Flatten(SentBatches(Run(lib, rows))) == Messages(Kept(Decoder(lib), rows))
    ensures |SentBatches(Run(lib, rows))| == |Kept(Decoder(lib), rows)| / BatchSize + 1
    ensures forall k :: 0 <= k < |SentBatches(Run(lib, rows))| - 1 ==> |SentBatches(Run(lib, rows))[k]| == BatchSize
    ensures |SentBatches(Run(lib, rows))[|SentBatches(Run(lib, rows))| - 1]| <= FlushThreshold
  {
    var scan := Run(lib, rows);
    ScanIsFilter(Decoder(lib), rows);
    assert rows[..|rows|] == rows;
    AllBatchesCoverStream(Messages(scan.accepted));
  }

  /** A run that stops at a row never makes the final `sendData` call: only full batches
      of the rows kept before it are sent, and the messages still in the buffer, fewer
      than a batch, are lost. */
  lemma AbortedRunLosesBuffer(lib: Libraries, rows: seq<seq<string>>)
    requires Run(lib, rows).stop.Some?
    ensures var kept := Messages(Kept(Decoder(lib), rows[..Run(lib, rows).stop.value.row]));
            && Flatten(SentBatches(Run(lib, rows))) + Leftover(kept) == kept
            && |Leftover(kept)| < BatchSize
            && forall k :: 0 <= k < |SentBatches(Run(lib, rows))| ==> |SentBatches(Run(lib, rows))[k]| == BatchSize
  {
    var scan := Run(lib, rows);
    ScanIsFilter(Decoder(lib), rows);
    var ms := Messages(scan.accepted);
    BatchesCoverStream(ms);
    assert SentBatches(scan) == FullBatches(ms);
  }
}
