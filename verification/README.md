# opentraffic csv-loader, modelled in Dafny

The csv-loader streams GPS probe records from a CSV file to a traffic-engine server. Each row
holds a timestamp, a vehicle id, a longitude and a latitude. The loader decodes each row into
a `VehicleMessage` and posts the messages over HTTP. The repository holds two versions of
the loader, and this project models the logic of both:

- **The current loader** (`src/main/java/com/conveyal/traffic/loader/CsvLoader.java`):
  - `parseTimeStrToMilli` cuts the fractional seconds out of the timestamp. The fraction
    runs from the first `.` to the first `+`, else the first `Z`, else the end. The rest is
    parsed as whole seconds and the fraction is added back in milliseconds.
  - The vehicle id is read with `new BigInteger(s).longValue()`, which wraps modulo 2^64.
  - The row loop buffers the messages. As soon as the buffer holds more than 10000
    messages, it is sent as one envelope tagged with the run's source id and then cleared,
    and a progress line is printed. After the last row the buffer is sent once more.
  - The loop also keeps two sets: the distinct raw id strings and the distinct narrowed ids.
- **The older loader** (`src/com/conveyal/traffic/loader/CsvLoader.java`):
  - `parseTimeStrToMicros` looks for `+` only as the fraction's terminator, and gives
    microseconds.
  - The id is read with `Long.parseLong`, which refuses values outside the `long` range.
  - Every kept row is posted at once, as its own message carrying the source id.
  - An IOException from a post ends the run.

Modules:

- `JavaLang` (`java_lang.dfy`): the Java behaviour the loaders rely on:
  - `long` wrap-around;
  - decimal parsing by `BigInteger` and `Long.parseLong`, with a reference printer that
    states their meaning on every integer;
  - `StringBuilder.indexOf`;
  - the exceptions;
  - the libraries kept abstract (`SimpleDateFormat.parse`, `Double.parseDouble`, the
    double-to-long cast). These are total functions in a `Libraries` value passed to
    every operation.
- `FractionSnip` (`fraction_snip.dfy`): the `substring`/`delete` cut both loaders share.
- `RowScan` (`row_scan.dfy`): the row loop as a specification. Each row is kept, skipped
  (only on a ParseException from the timestamp) or ends the run (any other exception).
  It also gives an independent front-to-back filter, `Kept`, to compare against.
- `Batches` (`batches.dfy`): which batches the buffer-and-flush loop forms. Full batches
  hold exactly 10001 messages, followed by a leftover.
- `CsvLoader` (`csv_loader.dfy`): the current loader.
  - `ProcessCsv` is an imperative loop over the rows.
  - It sends through a `Sink` object whose ghost log records every `sendData` call.
- `LegacyCsvLoader` (`legacy_csv_loader.dfy`): the older loader.
  - `ProcessCsv` posts through a `Poster` object.
  - Which post attempts throw is given as a set of attempt numbers, because the network
    decides that, not the loader.

Behaviour of both loaders that the model keeps:

- Neither loader retries a failed send. The current one logs and carries on; the older
  one's IOException ends the run.
- Latitude and longitude always come from fields 3 and 2, whatever the row's width.
- Only a timestamp ParseException skips a row; every other error ends the run.
- Each loader tries the single date pattern `yyyy-MM-dd HH:mm:ssX`.
- The fraction is scaled by a truncating cast, not rounded.
- The progress line reports `count`, which is never incremented.

## Model

| member | source | states |
|---|---|---|
| JavaLang.ToLong | src/main/java/com/conveyal/traffic/loader/CsvLoader.java:130 | the narrowed value is a `long` congruent to the exact value modulo 2^64, and equal to it when it is already in range |
| JavaLang.ToLongUnique | src/main/java/com/conveyal/traffic/loader/CsvLoader.java:130 | only one `long` is congruent to a given integer modulo 2^64, so the narrowing is well defined |
| JavaLang.ToLongOfSum | src/com/conveyal/traffic/loader/CsvLoader.java:192 | wrapping an operand before a `long` addition gives the same result as wrapping the exact sum once, so `timeMillis*1000 + micros` is the exact sum wrapped once |
| JavaLang.ParseDecimal | src/main/java/com/conveyal/traffic/loader/CsvLoader.java:130 | the text is accepted exactly when it is an optional sign followed by one or more decimal digits; a negative value needs a `-` |
| JavaLang.BigIntegerLongValue | src/main/java/com/conveyal/traffic/loader/CsvLoader.java:130 | `new BigInteger(s).longValue()` fails with NumberFormat exactly on non-decimal text; otherwise the id is congruent to the decimal value modulo 2^64, and equal to it when in range |
| JavaLang.ParseLong | src/com/conveyal/traffic/loader/CsvLoader.java:131 | `Long.parseLong` succeeds exactly on a decimal inside the `long` range, and otherwise fails with NumberFormat |
| JavaLang.ParseLongAgreesInRange | src/com/conveyal/traffic/loader/CsvLoader.java:131 | the two loaders read the same id wherever `parseLong` accepts it; their results differ exactly on well-formed decimals outside the `long` range |
| JavaLang.ParseDecimalRoundTrip | src/main/java/com/conveyal/traffic/loader/CsvLoader.java:130 | every integer printed in decimal parses back to itself |
| JavaLang.BigIntegerLongValueOfAnyInteger | src/main/java/com/conveyal/traffic/loader/CsvLoader.java:130 | for every integer v written in decimal, the current loader's id is the wrap of v modulo 2^64, and v itself when v is in range |
| JavaLang.ParseLongOfAnyInteger | src/com/conveyal/traffic/loader/CsvLoader.java:131 | for every integer v written in decimal, the older loader's id is v when v is in range, and a NumberFormat failure otherwise (no wrap-around) |
| JavaLang.ShortIdsAreExact | src/com/conveyal/traffic/loader/CsvLoader.java:131 | an id of at most 18 digits is always accepted, read exactly, and read the same way by both loaders |
| JavaLang.IndexOf | src/main/java/com/conveyal/traffic/loader/CsvLoader.java:211-212 | the result is -1 exactly when the character is absent; otherwise it is the position of its first occurrence |
| FractionSnip.CutFraction | src/main/java/com/conveyal/traffic/loader/CsvLoader.java:220-225 | the cut fails, with an index error and not a ParseException, exactly when there is a `.` and the terminator lies before it; without a `.` the text is untouched and the fraction is "0.0" |
| FractionSnip.CutFractionReassembles | src/main/java/com/conveyal/traffic/loader/CsvLoader.java:220-224 | nothing is lost: the fraction starts with "0.", and putting it back (without its "0") at the first `.` of the remaining text rebuilds the original timestamp |
| RowScan.ScanRows | src/main/java/com/conveyal/traffic/loader/CsvLoader.java:109-127 | the loop keeps at most one entry per row, and a stop is at a row that exists |
| RowScan.ScanStops | src/main/java/com/conveyal/traffic/loader/CsvLoader.java:109-127 | the loop stops exactly when some row throws; it stops at the first such row, with that row's exception |
| RowScan.Outcome | src/main/java/com/conveyal/traffic/loader/CsvLoader.java:109-152 | a run is reported complete exactly when the loop did not stop; an aborted run reports the row and the exception the loop stopped with |
| RowScan.ScanIsFilter | src/main/java/com/conveyal/traffic/loader/CsvLoader.java:109-127 | the loop is an order-preserving filter: it keeps exactly the accepted rows among those it read, in input order, as the independent front-to-back `Kept` defines them |
| RowScan.ScanAfterStop | src/main/java/com/conveyal/traffic/loader/CsvLoader.java:109-127 | once a row throws, the rows after it change nothing |
| RowScan.ScanPrefix | src/main/java/com/conveyal/traffic/loader/CsvLoader.java:109-127 | reading more rows only appends: the entries kept from a prefix of the rows are a prefix of the entries kept from all of them |
| RowScan.ScanKeeps | src/main/java/com/conveyal/traffic/loader/CsvLoader.java:109-140 | every kept entry has whatever property the decoder guarantees for the rows it accepts |
| RowScan.Messages | src/main/java/com/conveyal/traffic/loader/CsvLoader.java:142 | the message list has one message per kept entry, in the same order |
| RowScan.MessagesAppend | src/main/java/com/conveyal/traffic/loader/CsvLoader.java:142 | keeping one more entry appends exactly its message to the stream |
| Batches.FullBatches | src/main/java/com/conveyal/traffic/loader/CsvLoader.java:142-146 | there are n / 10001 flushed batches for n messages, each of exactly 10001 messages |
| Batches.Leftover | src/main/java/com/conveyal/traffic/loader/CsvLoader.java:142-146 | what is left in the buffer is n mod 10001 messages, so never more than 10000 |
| Batches.BatchesCoverStream | src/main/java/com/conveyal/traffic/loader/CsvLoader.java:142-146 | the flushed batches followed by the leftover are exactly the message stream: nothing lost, duplicated or reordered |
| Batches.AllBatchesCoverStream | src/main/java/com/conveyal/traffic/loader/CsvLoader.java:142-152 | with the final flush, the batches sent, laid end to end, are the message stream |
| Batches.FullBatchesArePrefix | src/main/java/com/conveyal/traffic/loader/CsvLoader.java:142-146 | without the final flush, the batches sent are the stream up to its last full batch |
| Batches.CountStep | src/main/java/com/conveyal/traffic/loader/CsvLoader.java:144 | one more message completes a batch exactly when the buffer held 10000 |
| Batches.PushMessage | src/main/java/com/conveyal/traffic/loader/CsvLoader.java:142-146 | appending a message to a buffer of 10000 flushes the buffer plus that message as one more batch and leaves it empty; otherwise the buffer grows by that message |
| CsvLoader.FractionEnd | src/main/java/com/conveyal/traffic/loader/CsvLoader.java:212-218 | the fraction ends at the first `+`, else at the first `Z`, else at the end of the text |
| CsvLoader.ParseTimeStrToMilli | src/main/java/com/conveyal/traffic/loader/CsvLoader.java:209-235 | the timestamp fails with an index error (not a ParseException) exactly when there is a `.` and the terminator lies before it; without a `.` the whole text goes to the date parser with fraction "0.0"; the other cases are stated by `TimeWithoutFraction` and `TimeWithFraction` |
| CsvLoader.ParseSnippedMilli | src/main/java/com/conveyal/traffic/loader/CsvLoader.java:227-234 | a ParseException exactly when the date does not parse; a value exactly when both the date and the fraction parse, and then it is the milliseconds plus the scaled fraction, wrapped to `long` |
| CsvLoader.TimeWithoutFraction | src/main/java/com/conveyal/traffic/loader/CsvLoader.java:220-234 | without a `.`, the date parser sees the text unchanged and the result is its milliseconds, or a ParseException |
| CsvLoader.TimeWithFraction | src/main/java/com/conveyal/traffic/loader/CsvLoader.java:211-229 | with a `.` at s and the terminator at e >= s, the cut succeeds and loses nothing: the fraction parser sees "0." followed by t[s+1..e), the date parser sees the rest, and putting the fraction back at s rebuilds the timestamp; the result is what the two parsers give for those two parts |
| CsvLoader.TimeTerminatorBeforeDot | src/main/java/com/conveyal/traffic/loader/CsvLoader.java:221-223 | a terminator before the `.` makes the timestamp fail with an index error, not a ParseException |
| CsvLoader.DecodeRow | src/main/java/com/conveyal/traffic/loader/CsvLoader.java:110-140 | fewer than 4 fields throws an index error; the row is skipped exactly when the coordinates parse and the timestamp fails with a ParseException; it is kept exactly when lat (field 3), lon (field 2), the timestamp (field 0) and the id (field 1) all parse, and the message holds those values |
| CsvLoader.RunStep | src/main/java/com/conveyal/traffic/loader/CsvLoader.java:109-140 | reading row i: a skipped row changes nothing, a kept row's entry is appended, and a throwing row ends the run there |
| CsvLoader.ShortRowStopsRun | src/main/java/com/conveyal/traffic/loader/CsvLoader.java:110-113 | a row with fewer than four fields ends the run, at that row or earlier |
| CsvLoader.RunIdsNarrowed | src/main/java/com/conveyal/traffic/loader/CsvLoader.java:130 | every kept row's id is the `BigInteger.longValue` narrowing of its raw id text |
| CsvLoader.RawIds | src/main/java/com/conveyal/traffic/loader/CsvLoader.java:103-131 | the `uniqueVehicles` set; `IdSetsMembers` states that it holds exactly the raw id strings of the kept rows |
| CsvLoader.VehicleIds | src/main/java/com/conveyal/traffic/loader/CsvLoader.java:104-132 | the `uniqueVehIds` set; `IdSetsMembers` states that it holds exactly the narrowed ids of the kept rows, and `VehicleIdsAtMostRawIds` that it is never larger than `uniqueVehicles` |
| CsvLoader.IdSetsMembers | src/main/java/com/conveyal/traffic/loader/CsvLoader.java:131-132 | a string is in `uniqueVehicles` exactly when some kept row has it as raw id, and an id is in `uniqueVehIds` exactly when some kept row's message carries it |
| CsvLoader.VehicleIdsAtMostRawIds | src/main/java/com/conveyal/traffic/loader/CsvLoader.java:131-132 | because the narrowed id is a function of the raw string, there are never more distinct ids than distinct raw strings |
| CsvLoader.ProgressLines | src/main/java/com/conveyal/traffic/loader/CsvLoader.java:144-148 | the progress lines printed inside the loop; `ProgressLinesReport` states how many there are and what each reports |
| CsvLoader.ProgressLinesAt | src/main/java/com/conveyal/traffic/loader/CsvLoader.java:144-148 | there is one progress line per 10001 kept rows; line k is printed once the kept rows reach (k+1)*10001 and reports the sizes of the two id sets over exactly those rows |
| CsvLoader.ProgressLinesReport | src/main/java/com/conveyal/traffic/loader/CsvLoader.java:148 | one progress line per flush inside the loop; line k reports 0 records (`count` is never incremented) and the sizes of `uniqueVehicles` and `uniqueVehIds` over the first (k+1)*10001 kept rows, so never more distinct ids than distinct raw strings |
| CsvLoader.FlushCondition | src/main/java/com/conveyal/traffic/loader/CsvLoader.java:144 | `messages.size() > 10000` after the append holds exactly when the kept count reaches a multiple of 10001 |
| CsvLoader.Sink.SendData | src/main/java/com/conveyal/traffic/loader/CsvLoader.java:179-207 | one `sendData` call records one envelope with the source id and the messages, after the earlier ones |
| CsvLoader.Envelopes | src/main/java/com/conveyal/traffic/loader/CsvLoader.java:186-189 | one envelope per batch, in order, each with the run's source id |
| CsvLoader.KeepStep | src/main/java/com/conveyal/traffic/loader/CsvLoader.java:131-149 | keeping a row: if the buffer then exceeds 10000, it is sent as one more envelope, emptied, and a progress line is added; otherwise it just grows; the id sets gain the row's ids either way |
| CsvLoader.KeepRecord | src/main/java/com/conveyal/traffic/loader/CsvLoader.java:131-149 | the loop body for a kept row keeps the buffer, the sink's log, both id sets and the progress lines equal to their specifications, and the buffer at no more than 10000 messages |
| CsvLoader.ProcessCsv | src/main/java/com/conveyal/traffic/loader/CsvLoader.java:101-152 | the run ends as the row scan does; the sink receives one envelope per full batch, plus the final envelope only when the loop completes; the progress lines are those of the kept rows |
| CsvLoader.CompletedRunSendsKeptRows | src/main/java/com/conveyal/traffic/loader/CsvLoader.java:109-152 | a completed run sends, across its envelopes and in input order, exactly one message per kept row; it makes one more `sendData` call than the number of full batches, even when the last batch is empty; every batch but the last holds 10001 messages and the last at most 10000 |
| CsvLoader.AbortedRunLosesBuffer | src/main/java/com/conveyal/traffic/loader/CsvLoader.java:109-152 | a run that throws skips the final `sendData`: only full batches of the rows kept before that row are sent, and the buffered remainder, fewer than 10001 messages, is lost |
| LegacyCsvLoader.ParseTimeStrToMicros | src/com/conveyal/traffic/loader/CsvLoader.java:175-194 | the timestamp fails with an index error (not a ParseException) exactly when there is a `.` and the first `+` is missing or lies before it; without a `.` the whole text goes to the date parser with fraction "0.0"; the other cases are stated by `TimeWithoutFraction` and `TimeWithFraction` |
| LegacyCsvLoader.ParseSnippedMicros | src/com/conveyal/traffic/loader/CsvLoader.java:186-193 | a ParseException exactly when the date does not parse; a value exactly when both parts parse, and then it is milliseconds x 1000 plus the fraction in microseconds, wrapped to `long` |
| LegacyCsvLoader.TimeWithoutFraction | src/com/conveyal/traffic/loader/CsvLoader.java:179-192 | without a `.`, the result is exactly the parsed milliseconds x 1000 (wrapped to `long`), or a ParseException |
| LegacyCsvLoader.TimeWithFraction | src/com/conveyal/traffic/loader/CsvLoader.java:177-190 | with a `.` at s and the first `+` at e >= s, the cut succeeds and loses nothing: the fraction parser sees "0." followed by t[s+1..e), the date parser sees the rest, and putting the fraction back at s rebuilds the timestamp; the result is what the two parsers give for those two parts |
| LegacyCsvLoader.TimeWithoutOffset | src/com/conveyal/traffic/loader/CsvLoader.java:178-181 | a `.` with no `+` after it (including a `Z` timestamp) fails with an index error, not a ParseException |
| LegacyCsvLoader.DecodeRow | src/com/conveyal/traffic/loader/CsvLoader.java:111-140 | the loop body up to the post; its cases are stated by `DecodeRowCases` |
| LegacyCsvLoader.DecodeRowCases | src/com/conveyal/traffic/loader/CsvLoader.java:111-140 | fewer than 4 fields throws an index error; the row is skipped exactly when the coordinates parse and the timestamp fails with a ParseException; it is kept exactly when lat (field 3), lon (field 2), the timestamp and `parseLong` of the id all succeed, and the message carries the source id and those values |
| LegacyCsvLoader.RunStep | src/com/conveyal/traffic/loader/CsvLoader.java:109-140 | reading row i: a skipped row changes nothing, a kept row's entry is appended, and a throwing row ends the run there |
| LegacyCsvLoader.FractionWithoutOffsetStopsRun | src/com/conveyal/traffic/loader/CsvLoader.java:122-128 | a row whose timestamp has a fraction but no `+` ends the whole run, at that row or earlier |
| LegacyCsvLoader.LongIdStopsRun | src/com/conveyal/traffic/loader/CsvLoader.java:131 | a well-formed row whose id is outside the `long` range ends the run, at that row or earlier |
| LegacyCsvLoader.RunTagsSource | src/com/conveyal/traffic/loader/CsvLoader.java:133-140 | every kept message carries the run's source id and the `parseLong` value of its row's id |
| LegacyCsvLoader.Poster.Post | src/com/conveyal/traffic/loader/CsvLoader.java:142-147 | a post throws exactly when its attempt number is a failing one; it uses one attempt, and delivers the message only when it does not throw |
| LegacyCsvLoader.PostsBeforeFailure | src/com/conveyal/traffic/loader/CsvLoader.java:142-147 | the number of posts that go through is at most the number tried, all of them succeed, and the next one, if tried, fails |
| LegacyCsvLoader.PostsBeforeFailureUnique | src/com/conveyal/traffic/loader/CsvLoader.java:142-147 | that count is the only one with those properties |
| LegacyCsvLoader.PostEntry | src/com/conveyal/traffic/loader/CsvLoader.java:142-147 | posting a kept entry either extends the delivered log by its message or throws at a failing attempt with nothing more delivered |
| LegacyCsvLoader.RunKeepsNext | src/com/conveyal/traffic/loader/CsvLoader.java:109-147 | if row i is kept after earlier rows kept `es`, the whole run keeps `es`, then that row's entry, then perhaps more |
| LegacyCsvLoader.ReportAllPosted | src/com/conveyal/traffic/loader/CsvLoader.java:109-149 | when every post went through, the run has delivered all kept messages, used one attempt each, and ends as the row scan does |
| LegacyCsvLoader.ReportPostFailure | src/com/conveyal/traffic/loader/CsvLoader.java:142-172 | when the post for row i throws, the run ends with an IOException at that row, which keeps the first message not delivered; the earlier kept messages were all delivered |
| LegacyCsvLoader.PostFailureReported | src/com/conveyal/traffic/loader/CsvLoader.java:164-172 | a failed post after k delivered messages ends the run with an IOException at the row of message k+1 |
| LegacyCsvLoader.ReadRow | src/com/conveyal/traffic/loader/CsvLoader.java:111-147 | one loop body either reads one more row, posting what it keeps, or ends the run with what it leaves behind |
| LegacyCsvLoader.ProcessCsv | src/com/conveyal/traffic/loader/CsvLoader.java:109-172 | with k the number of kept messages before the first failing post: exactly those k are delivered, in order; one attempt is used per delivered message plus the failing one; the run ends as the row scan does when no post fails, and otherwise with an IOException at the row of message k+1 |
| LegacyCsvLoader.AllPostsDelivered | src/com/conveyal/traffic/loader/CsvLoader.java:109-149 | when no post fails, the delivered messages are one per kept row among the rows read, in input order |

## Left out

- Command-line parsing, `main` and the random source id (a UUID's low bits). The source id
  is a parameter of `ProcessCsv`.
- Opening the file (plain, `.zip` first entry, `.gz`) and closing the streams. The outer
  `catch (IOException)` for those is left out too. This is I/O; the rows arrive as a
  `seq<seq<string>>`.
- CSV field splitting (RFC 4180, delegated to Apache Commons CSV). Rows are given already
  split. IOExceptions raised while the parser reads are not modelled.
- `SimpleDateFormat("yyyy-MM-dd HH:mm:ssX").parse`, `Double.parseDouble` and the cast
  `(long)(d * k)`. These are parameters, because the model does not define floating point
  or calendar arithmetic. Only the exact "0.0" to 0 case is assumed, through `ZeroIsExact`.
- Java accepts non-ASCII Unicode digits in `new BigInteger` and `Long.parseLong`. The model
  accepts ASCII digits only.
- Protobuf encoding of `VehicleMessage`/`VehicleMessageEnvelope` (`toByteArray`). Messages
  and envelopes are kept as values, because the generated code is not part of this model.
- `sendData`'s HTTP status check and its caught IOException only print. They do not affect
  the loader, so `Sink.SendData` only records the envelope.
- The text of the progress lines and the "Unable to parse taxi time" diagnostic (console
  output). Progress lines are modelled as their three numbers.
- The older loader reads all records with `getRecords()` before the loop. Only the order of
  rows is modelled, not when they are read.
