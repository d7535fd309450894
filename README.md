# ADS-B ingestion core in Dafny

This project models the data path of an ADS-B tracker:

- An SBS-1 (BaseStation) text feed is read line by line.
- The lines are grouped into class 1, 3 and 4 triplets, and each triplet is decoded into one aircraft record.
- The records are bulk-inserted into a current-view table in Postgres.
- Each cycle first copies the current view into a history table, keyed on `(icao, timestamp)`.

The read side is modelled as well:

- the windows the current view is pruned and queried by;
- the history lookup by icao;
- the GeoJSON encoders;
- the URL and query validator of the REST handlers;
- the three list helpers of the web front end.

## Scope

Every module follows one source file:

- `Convert` models `convert.go`; `Converter` models `converter/time.go`.
- `SbsProcessing` models `sbs/sbsProcessing.go`; `AdsbHub` models its earlier revision `adsbhub.go`.
- `Database` models `db/database.go`; `SbsService` models `sbsService/sbsService.go`.
- `GeoJson` models `geoJSON/geoJSON.go`; `ApiUtility` models `apiUtility.go`.
- `AircraftUtils` models `aircraftUtils.js`.

Supporting modules:

- `Models` holds the record types (`models.go`).
- `Wrappers` holds `Option` and `Result`.
- `Strings` holds the Go `strings` functions the core calls (`Split`, `Join`, `Replace`, `TrimSuffix`).
- `Numbers` holds `strconv.Atoi`, `strconv.ParseFloat` and the `int(float)` conversion.
- `DateTime` holds the canonical `YYYY-MM-DD HH:MM:SS[.f{1,6}]` text of a Postgres `TIMESTAMP`, the form the feed's timestamps take.
- `SbsFormat` holds the SBS line layout the feed sends.

Imperative code stays imperative:

- The stream loops, the chunked bulk insert and the row scans are methods with loops. Each is proved against a recursive function that defines its result.
- `AdsbDB` is a class whose fields are the two tables and the log of statements sent.
- The transaction sequencing of `sbsService` runs on a `Store` class with snapshot transactions: Begin saves the current table, Rollback restores it, Commit drops the copy.

I/O and clocks become parameters:

- The socket is a sequence of lines, and a dial error is an `Option`.
- The `sbs` read timer is `cutoff`, the index of the first line read after the waiting time. Elapsed time only grows, so every later line is late too.
- The `adsbhub` per-Scan timer is `slow`, the set of line indices whose Scan took longer than 4 seconds.
- `path.Clean` is the function `clean`.
- `Math.random()` is `random`, the draw for the k-th element.
- Whether a store call fails is the store's `failure` oracle.

## Model

| member | source | states |
|---|---|---|
| Convert.MakeTimeStamp | backend/internal/utility/convert/convert.go:15-19 | every `/` of the date becomes `-` and every other date character is kept; then one space; then the time with at most one trailing `.000` removed; the length drops by 4 exactly when the suffix was there |
| Convert.MakeTimeStampExample | backend/internal/utility/convert/convert.go:15-19 | the feed's `2024/03/29` and `11:45:05.000` give `2024-03-29 11:45:05` |
| Convert.MakeTimeStampDatePart | backend/internal/utility/convert/convert.go:16 | the date part of the result is the date with all slashes replaced |
| Convert.SbsToAircraftCurrentSpec | backend/internal/utility/convert/convert.go:75-127 | the decode succeeds iff all six numeric fields parse; on success icao, callsign and timestamp come from msg1 fields 4, 10, 8 and 9, altitude from `Atoi(msg3[11])`, latitude and longitude from msg3 fields 14 and 15, speed and track are `msg4[12]` and `msg4[13]` truncated toward zero, and the vertical rate is `Atoi(msg4[16])`; on failure the error is the first failing parse in source order (altitude, lat, long, speed, track, vspeed), so no record is ever partly filled |
| Convert.CurrentModelToGeoJson | backend/internal/utility/convert/convert.go:22-46 | never errors; one Point feature per row, in order, with coordinates `[Latitude, Longitude]` and the properties copied; the result is a valid FeatureCollection |
| Convert.HistoryModelToGeoJson | backend/internal/utility/convert/convert.go:49-72 | fewer than two rows gives the "at least 2 items" error and the zero collection; otherwise exactly one LineString feature with the first row's icao and one `[Longitude, Latitude]` position per row, in order |
| Converter.MakeTimeStamp | backend/internal/utility/converter/time.go:7-12 | the date keeps its length with each `/` turned into `-`; one separating space; a time ending in `.000` loses exactly that suffix and any other time passes unchanged; the length is `len(date) + 1 + len(time)` minus 4 when stripped |
| Converter.MakeTimeStampAgrees | backend/internal/utility/converter/time.go:7-12 | agrees with `Convert.MakeTimeStamp` on every input |
| Strings.IndexOf | backend/internal/sbs/sbsProcessing.go:38 | the position of the first occurrence of the separator |
| Strings.SplitCount | backend/internal/sbs/sbsProcessing.go:38 | `strings.Split` on a character gives one more field than there are separators |
| Strings.SplitPieces | backend/internal/sbs/sbsProcessing.go:38 | no field of a split contains the separator |
| Strings.JoinSplit | backend/internal/sbs/sbsProcessing.go:38 | joining the fields back with the separator gives the line |
| Strings.SplitJoin | backend/internal/sbs/sbsProcessing.go:38 | splitting a join of separator-free fields gives the fields back |
| Strings.TrimSuffixSpec | backend/internal/utility/convert/convert.go:17 | `TrimSuffix` removes the suffix exactly when present, and leaves the text unchanged otherwise |
| Numbers.Atoi | backend/internal/utility/convert/convert.go:86-89 | a success is within int64 and comes from a text that starts with a digit or a sign; a negative value has a `-`; a failure is a `NumError` for `Atoi` naming the input |
| Numbers.AtoiItoa | backend/internal/utility/convert/convert.go:86 | every int64 printed in decimal reads back as itself |
| Numbers.ParseFloat | backend/internal/utility/convert/convert.go:90-93 | a failure is a `NumError` for `ParseFloat` naming the input |
| Numbers.ParseFloatNeedsDigit | backend/internal/utility/convert/convert.go:90 | a text with no digit (the empty field included) never parses |
| Numbers.ParseFloatItoa | backend/internal/utility/convert/convert.go:103 | an integer written in decimal parses as that value |
| Numbers.ParseFloatFixed | backend/internal/utility/convert/convert.go:90-110 | a fixed-point decimal with `d` places (the SBS coordinate and speed fields) parses as the scaled integer divided by `10^d` |
| Numbers.TruncToInt | backend/internal/utility/convert/convert.go:122-123 | `int(x)` rounds toward zero: the result lies within 1 of `x` on the side of zero |
| Numbers.Digits | backend/internal/db/database.go:135-136 | the decimal text of a natural has digits only, no leading zero, and reads back as that value |
| SbsFormat.SplitFields | backend/internal/sbs/sbsProcessing_test.go:165-167 | a report written as the three feed lines splits back into its message fields |
| SbsFormat.Msg1Positions | backend/internal/sbs/sbsProcessing_test.go:165 | the class-1 line has 22 fields with icao, date, time and callsign at 4, 8, 9 and 10 |
| SbsFormat.Msg3Positions | backend/internal/sbs/sbsProcessing_test.go:166 | the class-3 line has 22 fields with altitude, latitude and longitude at 11, 14 and 15 |
| SbsFormat.Msg4Positions | backend/internal/sbs/sbsProcessing_test.go:167 | the class-4 line has 22 fields with speed, track and vertical rate at 12, 13 and 16 |
| SbsFormat.DecodeLines | backend/internal/utility/convert/convert.go:75-127 | the decoder applied to the three written lines gives back the record of the report |
| SbsProcessing.Scan | backend/internal/sbs/sbsProcessing.go:31-65 | the records the loop appends from line i on number at most a third of the remaining lines |
| SbsProcessing.OutcomeOf | backend/internal/sbs/sbsProcessing.go:59-62 | a group that passes the three field-count guards yields what `SbsToAircraftCurrent` makes of it, and a decode error yields nothing |
| SbsProcessing.Starts | backend/internal/sbs/sbsProcessing.go:31-64 | every decoded group starts before the cutoff on a line that passes all three guards, and consecutive groups are at least three lines apart |
| SbsProcessing.ScanStarts | backend/internal/sbs/sbsProcessing.go:31-64 | the k-th record is the decode of the group at the k-th start, so records keep stream order and each comes from three consecutive lines |
| SbsProcessing.ReadGroup | backend/internal/sbs/sbsProcessing.go:32-64 | one loop iteration: the timer or the end of input inside a group stops the loop and a stop yields no record; otherwise a first line under 11 fields moves on by one line, a second line under 16 fields by two, and a whole group by three, so a short line never resynchronises; a decoded group appends its record; the rest of the batch is what the loop makes of the lines from `next` on |
| SbsProcessing.ProcessSbsStream | backend/internal/sbs/sbsProcessing.go:13-68 | a dial error returns no aircraft and that error; once connected the error is nil and the aircraft are `Batch(lines, cutoff)`; never more than a third of the lines |
| SbsProcessing.BatchProvenance | backend/internal/sbs/sbsProcessing.go:31-64 | every record of the batch is the decode of three consecutive lines that pass the guards, before the cutoff |
| SbsProcessing.AlignedStream | backend/internal/sbs/sbsProcessing.go:31-67 | a feed of well-formed triplets read before the cutoff gives exactly their records, in order |
| AdsbHub.HubDecodeAgrees | backend/internal/utility/adsbhub/adsbhub.go:59-85 | this revision's inline decode, which parses every field before checking any error, gives a record exactly when `Convert.SbsToAircraftCurrent` succeeds, and the same record |
| AdsbHub.SplitEmpty | backend/internal/utility/adsbhub/adsbhub.go:39 | the text after the end of input splits into one empty field, so the guard at line 41 refuses it |
| AdsbHub.StepAt | backend/internal/utility/adsbhub/adsbhub.go:33-89 | a step that reads a whole triplet has its three lines in the input |
| AdsbHub.ReadTriplet | backend/internal/utility/adsbhub/adsbhub.go:34-69 | one iteration of the loop is exactly the step `StepAt` assigns to that line |
| AdsbHub.ProcessSBSstream | backend/internal/utility/adsbhub/adsbhub.go:22-94 | a dial error returns an empty slice and that error; otherwise the run is what the loop collects: the records up to the timer break, the refusal, or the panic of an unchecked index |
| AdsbHub.CollectBound | backend/internal/utility/adsbhub/adsbhub.go:33-93 | a finished read holds at most a third of the lines |
| AdsbHub.OnlyTimerSucceeds | backend/internal/utility/adsbhub/adsbhub.go:33-93 | a read only returns its records when some Scan ran over the timer |
| AdsbHub.EndAfterFirstLinePanics | backend/internal/utility/adsbhub/adsbhub.go:47-57 | a valid first line that is the last line of the input makes the unchecked `line[11]` index panic |
| AdsbHub.EmptyLineRefuses | backend/internal/utility/adsbhub/adsbhub.go:41-89 | an empty line in time aborts the read with "could not connect to stream" and an empty slice, dropping what was collected |
| AdsbHub.HubStepAt | backend/internal/utility/adsbhub/adsbhub.go:41-85 | a well-formed triplet read in time is decoded into its report's record |
| AdsbHub.HubStream | backend/internal/utility/adsbhub/adsbhub.go:22-94 | well-formed triplets read in time, then a timer break, return exactly their records, in order, with a nil error |
| Database.RowsOfConcat | backend/internal/db/database.go:138-139 | the rows of two batches are the rows of each, in order |
| Database.AcceptableConcat | backend/internal/db/database.go:61-71 | two batches together are accepted exactly when each is |
| Database.FirstRefusal | backend/internal/db/database.go:61-71 | no refusal exactly when every row fits the column types: icao of at most 6 and callsign of at most 10 characters, the INT columns within 32 bits, and a timestamp in the canonical `YYYY-MM-DD HH:MM:SS[.f{1,6}]` text |
| Database.AddRowsSpec | backend/internal/db/database.go:71-147 | a plain INSERT succeeds iff every `(icao, timestamp)` key of the table and the new rows is distinct; it then appends the rows, and otherwise fails with a duplicate key |
| Database.InsertRowsSpec | backend/internal/db/database.go:61-147 | an insert statement succeeds iff the rows fit the columns and all keys are distinct, and the table is then the old table followed by the rows |
| Database.ValidAppend | backend/internal/db/database.go:61-71 | appending accepted rows with fresh keys keeps the table well formed |
| Database.ChunksPartition | backend/internal/db/database.go:123-128 | the chunks, concatenated, are the input in order; each holds 1 to 7281 rows and all but the last hold exactly 7281 |
| Database.ChunksCount | backend/internal/db/database.go:123-128 | n rows make ⌈n/7281⌉ chunks, so an empty input sends nothing |
| Database.MaxAircraftFits | backend/internal/db/database.go:119-121 | 7281 is `65535 / 9`: the largest chunk whose nine parameters per row stay within the limit |
| Database.OneOverTheLimit | backend/internal/db/database_test.go:166-186 | 7282 rows make two statements, of 7281 rows and 1 row |
| Database.ParametersFit | backend/internal/db/database.go:119-128 | no statement binds more than 65529 parameters |
| Database.AllParamsNumbering | backend/internal/db/database.go:134-136 | row j's placeholders are `$9j+1` to `$9j+9`, so a chunk's placeholders number 1 to `9 · rows` in order |
| Database.DecodeValues | backend/internal/db/database.go:138-139 | the bound values are nine per row in column order, and reading them back nine at a time gives the chunk |
| Database.BuildInsert | backend/internal/db/database.go:134-140 | the inner loop builds exactly the placeholder list and the value list of the whole chunk |
| Database.ExecuteStatementOf | backend/internal/db/database.go:142-147 | executing a chunk's statement is inserting that chunk |
| Database.ExecuteMismatch | backend/internal/db/database.go:142-144 | a value list that is not nine per row is refused |
| Database.ApplyChunksSent | backend/internal/db/database.go:123-148 | the statements sent are the chunks' statements in order, one per chunk, up to the first that fails |
| Database.ApplyChunksDone | backend/internal/db/database.go:123-150 | without an error every chunk is sent and the table is the old table followed by every row |
| Database.ApplyChunksStopped | backend/internal/db/database.go:144-147 | the first failing chunk stops the loop with its error; the chunks before it stay inserted, since there is no transaction |
| Database.ApplyChunksValid | backend/internal/db/database.go:123-148 | the bulk insert keeps the current table well formed |
| Database.Latest | backend/internal/db/database.go:171-193 | `max(timestamp)` is absent exactly for an empty table |
| Database.LatestIsMax | backend/internal/db/database.go:171-193 | the latest timestamp bounds every row and belongs to some row |
| Database.RetainedSpec | backend/internal/db/database.go:171-176 | the delete keeps exactly the rows no older than `max(timestamp) − (WaitingTime+2)` seconds |
| Database.VisibleSpec | backend/internal/db/database.go:191-195 | the select returns exactly the rows newer than `max(timestamp) − (WaitingTime+2)` seconds |
| Database.OnTheBoundary | backend/internal/db/database_test.go:282-322 | a row exactly on the boundary is neither deleted nor returned |
| Database.LatestVisible | backend/internal/db/database.go:191-193 | the newest row is always returned |
| Database.LatestRetained | backend/internal/db/database.go:171-173 | deleting old rows keeps the newest timestamp |
| Database.RetainedIdempotent | backend/internal/db/database.go:164-185 | deleting old rows twice is deleting them once |
| Database.VisibleAfterCleanup | backend/internal/db/database.go:164-193 | the prune never changes what the select returns |
| Database.SinceTwice | backend/internal/db/database.go:171-193 | filtering with the inclusive bound and then with the same bound is filtering once |
| Database.RetainedValid | backend/internal/db/database.go:164-185 | the delete keeps the current table well formed |
| Database.CarryKeepsHistory | backend/internal/db/database.go:153-161 | the upsert keeps every existing history row, unchanged and in place, so the stored lat/long of a clashing key stay |
| Database.CarryCoversCurrent | backend/internal/db/database.go:153-161 | after the copy every current row's key is in the history |
| Database.CarryRowsFrom | backend/internal/db/database.go:154-156 | every history row was there before or is the (icao, lat, long, timestamp) of a current row |
| Database.CarryDistinct | backend/internal/db/database.go:157-158 | the history stays keyed on `(icao, timestamp)` |
| Database.CarryNoNewKeys | backend/internal/db/database.go:157-158 | when every current key is already in the history, the copy changes nothing |
| Database.CarryIdempotent | backend/internal/db/database.go:153-161 | repeating the copy is idempotent |
| Database.CarryCount | backend/internal/db/database.go:153-161 | copying rows with fresh and distinct keys adds one history row per current row |
| Database.CarryIntoEmpty | backend/internal/db/database_test.go:214-239 | one copy into an empty history gives as many history rows as current rows |
| Database.MatchingMembers | backend/internal/db/database.go:218 | the lookup keeps exactly the history rows whose icao equals the search text |
| Database.MatchingNone | backend/internal/db/database_test.go:355-370 | an icao that no stored row has gives no rows |
| Database.QuerySpec | backend/internal/db/database.go:217-238 | one row per match, in order, with the icao and with the stored longitude in `Latitude` and the stored latitude in `Longitude`, as the scan order puts them; no match gives no rows |
| Database.QuerySwapInvisible | backend/internal/db/database.go:218-229 | the scanned rows equal the stored (icao, latitude, longitude) exactly when every matching row has equal latitude and longitude |
| Database.QuerySwapBack | backend/internal/db/database.go:218-229 | exchanging the two position fields of each result gives the matching stored row's icao, latitude and longitude back |
| Database.RenderedRow | backend/internal/db/database.go:205-206 | a stored row reads back with every column as inserted except the timestamp; the stored instant is the one the inserted text names, and a whole-second `YYYY-MM-DD HH:MM:SS` text comes back with `T` for the space and `Z` appended |
| Database.RenderedAllAt | backend/internal/db/database.go:203-212 | the k-th scanned record is the k-th selected row |
| Database.AdsbDB.constructor | backend/internal/db/database.go:61-71 | both tables start empty and nothing has been sent |
| Database.AdsbDB.Exec | backend/internal/db/database.go:144 | the statement is logged; the current table becomes the result of the insert, or stays as it was with the error |
| Database.AdsbDB.BulkInsertCurrentTimeAircraftTable | backend/internal/db/database.go:118-151 | the table, the error and the statements sent are those of applying the chunks in order; the history is unchanged and the table stays well formed |
| Database.AdsbDB.AddHistoryFromCurrent | backend/internal/db/database.go:153-161 | the history becomes the upsert of the current rows into it; the current table is unchanged |
| Database.AdsbDB.DeleteOldCurrentAircraft | backend/internal/db/database.go:164-185 | the current table keeps exactly the retained rows, the delete is sent with the argument `WaitingTime+2`, and the history is unchanged |
| Database.AdsbDB.GetAllCurrentAircraft | backend/internal/db/database.go:188-215 | the scan loop returns the visible rows, read back in selection order |
| Database.AdsbDB.GetHistoryByIcao | backend/internal/db/database.go:217-238 | the scan loop returns the lookup's rows, fields as scanned |
| DateTime.MicrosMonotone | backend/internal/db/database.go:70 | a later civil time is a later instant, so the window comparisons order rows by time |
| DateTime.MicrosInjective | backend/internal/db/database.go:70-71 | two timestamps are the same instant exactly when they are equal, so the key compares instants |
| DateTime.ParseTimestamp | backend/internal/db/database.go:70 | a text in the canonical `YYYY-MM-DD HH:MM:SS[.f{1,6}]` form that parses names a valid calendar date and time |
| DateTime.Instant | backend/internal/db/database.go:70 | a timestamp has an instant exactly when it parses |
| DateTime.ParseFormat | backend/internal/utility/convert/convert.go:15-19 | the text `YYYY-MM-DD HH:MM:SS` of a timestamp parses back to that timestamp |
| DateTime.TrimZeros | backend/internal/db/database.go:205-206 | trailing zeros of the fraction are removed and nothing else |
| DateTime.Rfc3339OfFormat | backend/internal/db/database.go:205-206 | a whole-second timestamp scans as its stored text with the space replaced by `T` and a `Z` appended |
| SbsService.FirstFailingSpec | backend/internal/service/sbsService/sbsService.go:92-110 | every call before the first failing one succeeds, and that one fails |
| SbsService.Store.Begin | backend/internal/service/sbsService/sbsService.go:82 | a successful Begin saves a snapshot of the current table |
| SbsService.Store.Commit | backend/internal/service/sbsService/sbsService.go:61-107 | a successful Commit drops the snapshot and keeps the changes |
| SbsService.Store.Rollback | backend/internal/service/sbsService/sbsService.go:45-90 | Rollback restores the snapshot of an open transaction, and does nothing without one |
| SbsService.SbsImpl.InsertNewSbsData | backend/internal/service/sbsService/sbsService.go:76-113 | the calls are carry-forward, Begin, drop, create, bulk insert and Commit, in that order, up to the first failure; a failure in carry-forward or Begin returns that error with no Rollback; a later failure returns that error, makes no later step call and rolls back once, leaving the current table as before while the carry-forward stays; success replaces the current table by the batch; no transaction is left open |
| SbsService.SbsImpl.CreateAdsbTables | backend/internal/service/sbsService/sbsService.go:39-72 | the calls are Begin, the current table, its index and Commit, then the history table; the first failure returns its error and rolls back, also when it is the history table after Commit, when the committed current table and index stay |
| SbsService.SbsImpl.StartScheduler | backend/internal/service/sbsService/sbsService.go:119-125 | no scheduler gives `CronSchedulerIsNotInitialized`; otherwise the scheduler is started and nil is returned |
| SbsService.SbsImpl.CleanupJob | backend/internal/service/sbsService/sbsService.go:127-132 | exactly one `DeleteOldHistory(MaxDaysHistory)` call, whose error is dropped |
| SbsService.SbsImpl.ScheduleCleanUpJob | backend/internal/service/sbsService/sbsService.go:136-141 | no scheduler gives `CronSchedulerIsNotInitialized`; otherwise `ScheduleJob`'s result is returned unchanged, and on success the scheduler holds the `Cleanup` job under that schedule |
| GeoJson.ConvertCurrentModelToGeoJson | backend/internal/global/geoJSON/geoJSON.go:57-84 | never errors; an empty input gives the zero collection; otherwise a valid FeatureCollection with one Point feature per aircraft, in order, coordinates `[Longitude, Latitude]` as RFC 7946 section 3.1.1 orders them, properties copied, so each aircraft reads back from its feature |
| GeoJson.ConvertHistoryModelToGeoJson | backend/internal/global/geoJSON/geoJSON.go:86-108 | never errors; an empty input gives the zero collection; otherwise exactly one LineString feature with the first row's icao and `[Latitude, Longitude]` per row, in order; it is a valid LineString (section 3.1.4 of RFC 7946) exactly when there are at least two rows |
| ApiUtility.ValidateURL | backend/internal/utility/apiUtility/apiUtility.go:30-52 | the guard loop returns exactly the verdict on the cleaned path, whose length is measured in UTF-8 bytes as Go's `len` does |
| ApiUtility.TooLongFirst | backend/internal/utility/apiUtility/apiUtility.go:31-34 | a cleaned path of more bytes than the limit is refused as too long, before any parameter check |
| ApiUtility.AsciiLength | backend/internal/utility/apiUtility/apiUtility.go:32-34 | for an ASCII path the byte limit is a character limit |
| ApiUtility.MultiByteTooLong | backend/internal/utility/apiUtility/apiUtility.go:32-34 | `/aircraft/hist` with an o-umlaut and `ry` is 17 characters but 18 bytes, so a limit of 17 refuses it as too long |
| Strings.ByteLength | backend/internal/utility/apiUtility/apiUtility.go:32 | Go's `len` of a string takes one to four bytes per character |
| Strings.ByteLengthAscii | backend/internal/utility/apiUtility/apiUtility.go:32 | an ASCII text has one byte per character |
| Strings.ByteLengthConcat | backend/internal/utility/apiUtility/apiUtility.go:32 | byte lengths add up over concatenation |
| ApiUtility.SameCleanSameVerdict | backend/internal/utility/apiUtility/apiUtility.go:31 | the length is judged after cleaning, so paths that clean alike are judged alike |
| ApiUtility.NoParamsAnyQuery | backend/internal/utility/apiUtility/apiUtility.go:36-38 | without parameters a path passes iff its byte length is within the limit, whatever the query |
| ApiUtility.PassesExactly | backend/internal/utility/apiUtility/apiUtility.go:40-51 | with distinct parameters a query passes iff its keys are exactly the parameters and each has a non-empty first value; every other query gets the invalid-parameters text followed by the parameters joined with ", " |
| ApiUtility.FirstValueOnly | backend/internal/utility/apiUtility/apiUtility.go:44-49 | only the first value of each parameter is inspected |
| AircraftUtils.InBoundsExactly | frontend/src/utils/aircraft/aircraftUtils.js:3-14 | null or undefined aircraft or bounds is never in bounds; with two coordinates, in bounds iff `sw.lat ≤ coords[0] ≤ ne.lat` and `sw.lng ≤ coords[1] ≤ ne.lng`, edges included |
| AircraftUtils.NoCoordinatesInBounds | frontend/src/utils/aircraft/aircraftUtils.js:7-13 | a feature without coordinates fails none of the comparisons, so it counts as in bounds |
| AircraftUtils.FirstMatchSpec | frontend/src/utils/aircraft/aircraftUtils.js:18-27 | the index found matches on icao or callsign and no earlier element does; no index means no element matches |
| AircraftUtils.FindAircraftByIcaoOrCallsign | frontend/src/utils/aircraft/aircraftUtils.js:18-27 | a null list gives null; an undefined list throws a TypeError at the `for ... of`; an array gives the first match in list order, or null |
| AircraftUtils.TrimSpec | frontend/src/utils/aircraft/aircraftUtils.js:31-49 | null stays null and any list gives a list; at most 500 elements are returned unchanged; a longer list gives an order-preserving sub-list, sampled at the threshold for its length |
| AircraftUtils.SampleSubsequence | frontend/src/utils/aircraft/aircraftUtils.js:34-44 | the random filter keeps an order-preserving sub-list |
| AircraftUtils.SampleAllOrNone | frontend/src/utils/aircraft/aircraftUtils.js:34-44 | it keeps everything when every draw beats the threshold, and nothing when none does |
| AircraftUtils.ThresholdMonotone | frontend/src/utils/aircraft/aircraftUtils.js:33-45 | the threshold never falls as the list grows past 500 |

## Left out

- The TCP connection, `bufio.Scanner` and the wall-clock timers are not modelled. The model takes the lines, the dial error and the timer outcome (`cutoff`, `slow`) as inputs.
- Closing the connection is not modelled. It has no effect on the returned values.
- The Go nil slice is not told apart from an empty one: the batch of a failed dial is `[]`.
- `float32` is modelled as an exact real. `Numbers.ParseFloat` reads an exact decimal, not the nearest `float32`. No claim is made about that rounding or about the stored `DECIMAL` columns.
- Numbers.ParseFloat: does not model Go's range errors, infinities, NaN, hexadecimal forms or underscores. Those inputs are either refused or read as exact decimals.
- Numbers.Atoi: a failure does not say whether it was a syntax or a range error. The model keeps only the `NumError` naming the function and the input.
- The connection setup, the DDL of `database.go` and the `InitDB` code are not modelled. The `AdsbDB` constructor starts from empty tables that exist.
- Execution errors other than the modelled refusals are not modelled: connection loss, failed server-side transactions, Rollback and Commit of the delete, and `rows.Scan` errors.
- `SELECT` row order is taken to be insertion order. Postgres does not promise any order.
- Timestamps are limited to years 1 to 9999 and have no time zone.
- DateTime.ParseTimestamp: reads only the canonical `YYYY-MM-DD HH:MM:SS[.f{1,6}]` text. Postgres also stores other forms: unpadded fields (`2024-3-29 11:45:05`), a `T` separator, a zone offset (which a `TIMESTAMP` column ignores) and more than six fraction digits (rounded). The model refuses these with `InvalidTimestamp`.
- Database.InsertRows: when several rows of one chunk are bad, it reports the first row's column refusal (`ValueTooLong`, `IntegerOutOfRange`, `InvalidTimestamp`) before any key clash. Postgres reports out-of-range integers and bad timestamp texts when it binds the parameters, and VARCHAR lengths and duplicate keys row by row after that, so its error kind can differ. The table is left unchanged either way.
- Database.Refusal: judges each value as given. An icao over 6 or a callsign over 10 characters is `ValueTooLong` even when the excess is only spaces, which Postgres truncates and stores; a timestamp text other than the canonical form is `InvalidTimestamp`.
- Database.FirstRefusal: refuses an icao over 6 or a callsign over 10 characters even when the excess is only spaces, which Postgres silently truncates. It also refuses every timestamp text other than the canonical form, as `DateTime.ParseTimestamp` above does. Both kinds of value come from raw feed text, so such rows can reach the insert; for them the model reports an error where Postgres stores the row.
- `DeleteOldHistory` and the `Database` implementation behind `sbsService` are not part of this model. `Store` is a snapshot model of their intent.
- `DeleteOldHistory` leaves the store's tables as they are. The rows it deletes are not modelled.
- SbsService.Store.Rollback: the model does not return Rollback's own error, since the deferred closure drops it.
- In `trimAircraftList`, the distribution of `Math.random()` is a parameter. The test's "fewer than 900" and "shorter" checks hold only with high probability, so they are not claimed.
- The superseded `backend/internal/service/sbsService.go` is not part of this model. It is replaced by `sbsService/sbsService.go`.
- The rest of the repository is not modelled:
  - the HTTP handlers, the JSON encoding and the REST service;
  - the cron library, the logger, configuration and `main`;
  - the mocks and test utilities;
  - the React components.
- A duplicate `(icao, timestamp)` in one batch fails the chunk with `DuplicateKey`, because the code issues a plain `INSERT` on a table keyed on that pair.
- History and replace failures pass the store's error through unchanged.
- The error text for a missing scheduler is defined in a file that is not part of this model. The model uses the error constructor `CronSchedulerIsNotInitialized`.
- The two GeoJSON revisions disagree, and each is modelled as written:
  - `convert.go` writes Points as `[Latitude, Longitude]` and refuses a single history row;
  - `geoJSON.go` writes `[Longitude, Latitude]` Points and `[Latitude, Longitude]` line positions, and accepts a single row.
