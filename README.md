# Load-test tooling and record services, modelled in Dafny

This project models three sequential pieces of the `Pt3` load-testing repository and proves what they promise.

- **The load-test driver and its statistics** (`testing/test_speed.py`). The model covers:
  - the result record that `make_request` builds, including how it derives `user_id`;
  - the filter that collects the user ids created by the initial load, and the abort when there are none;
  - the read/write plan of the mixed workload;
  - `calculate_statistics`: per operation type it keeps count, successes, errors, the 409 `conflicts` key, the latency list and its total;
  - the summary printed per type: average, minimum, maximum and the rank-selected p50/p90/p95/p99.

  The network, the clock and the random source are parameters. Each request gets an `Outcome` (a status or an exception, with a latency) and each mixed operation gets a `Draw`.
- **The container-stats log parser** (`testing/parse_load_data.py`). The model covers:
  - `parse_mem` with its GiB/MiB/KiB conversion;
  - `parse_cpu`;
  - the `parse_file` loop, which walks the lines in timestamp/stat pairs, skips what does not fit and lets the `parse_cpu`/`parse_mem` exceptions escape.

  The Python `str` builtins these rely on are modelled in `PyStr`: `strip()`, `split(sep)`, `split(sep)[-1]`, `replace(c, '')` and `int()`.
- **The record services**. There are two `RecordController`s: the one of `docker-sqlcipher-service` (insert or 409) and the one of `docker-sqlcipher-service-insecure` (upsert, and a transactional batch insert). The insecure service's route table is modelled as well.
  - The `records` table is a map from `user_id`, its primary key, to a row. Its schema is `database.service.ts` lines 31-38.
  - An `INSERT` checks the NOT NULL columns in column order before the primary key. An upsert overwrites the row on a key conflict.
  - Request bodies keep JavaScript's distinction between a missing property and `null`. So a `null` timestamp passes the handlers' guard and then fails the NOT NULL constraint with a 500. The number `0` passes the guard too.
  - A string `notes` is stored as its UTF-8 bytes. The model proves that these bytes decode back to the text.

Each controller is a `class` whose `table` field its write methods update. Each write method is proved against a pure outcome function of the old table, and the source's promises are lemmas about those functions. The main ones:

- the batch is all-or-nothing;
- a `user_id` that is already stored, or repeated within a batch, gives 409;
- the upsert never gives 409;
- only a 201 changes the table, and then only the rows under the keys just written.

Python's `float()` is the parameter `fl` (a text's value, or `None` for the ValueError). Database faults that the schema does not explain are parameters too.

## Model

| member | source | states |
|---|---|---|
| PyStr.StripLeftSpec | Pt3/testing/parse_load_data.py:31 | `strip()` removes exactly a leading run of whitespace: the result is a suffix, what was removed is all whitespace, and the result starts with a non-space |
| PyStr.Strip | Pt3/testing/parse_load_data.py:31-32 | `strip()`; no contract of its own, `StripSpec` states what it leaves |
| PyStr.StripRightSpec | Pt3/testing/parse_load_data.py:32 | the same for the trailing run |
| PyStr.StripSpec | Pt3/testing/parse_load_data.py:31-32 | `strip()` leaves the slice between a leading and a trailing whitespace run, with no whitespace at either end, and is empty exactly when the line is all whitespace |
| PyStr.StripEmpty | Pt3/testing/parse_load_data.py:31-36 | a line strips to the empty string if and only if it is all whitespace |
| PyStr.StripIdempotent | Pt3/testing/parse_load_data.py:31-39 | stripping an already stripped line (as `int()` does) changes nothing |
| PyStr.SplitSpec | Pt3/testing/parse_load_data.py:44 | `split(sep)` gives one more piece than there are separators, no piece contains the separator, and joining the pieces with it gives the input back |
| PyStr.Split | Pt3/testing/parse_load_data.py:44 | `split(sep)` always gives at least one piece; `SplitSpec` states the rest |
| PyStr.SplitJoinBack | Pt3/testing/parse_load_data.py:44 | joining the pieces of a split with the separator gives the input back |
| PyStr.SplitAround | Pt3/testing/parse_load_data.py:7 | splitting `a + sep + b` is splitting `a` followed by splitting `b` |
| PyStr.SplitJoin | Pt3/testing/parse_load_data.py:44 | splitting a join of separator-free pieces gives the pieces back |
| PyStr.SplitFree | Pt3/testing/parse_load_data.py:7 | a separator-free string splits into itself alone |
| PyStr.LastPieceIsSuffix | Pt3/testing/test_speed.py:62 | the last piece of a split is a suffix of the joined string |
| PyStr.LastField | Pt3/testing/test_speed.py:62 | `url.split("/")[-1]` contains no `/` and is a suffix of the URL |
| PyStr.LastFieldAfter | Pt3/testing/test_speed.py:62 | the last field of `prefix + "/" + tail` is `tail` when `tail` has no `/` |
| PyStr.RemoveAllSpec | Pt3/testing/parse_load_data.py:23 | `replace('%', '')` leaves no `%`, keeps every other character with its multiplicity, and leaves a string without `%` unchanged |
| PyStr.NatDigits | Pt3/testing/parse_load_data.py:39 | the decimal digits of a natural number are non-empty digits with no leading zero |
| PyStr.DigitsValueOfNatDigits | Pt3/testing/parse_load_data.py:39 | the digits read back as the number |
| PyStr.ParseShowInt | Pt3/testing/parse_load_data.py:39 | `int(str(n)) == n` for every integer, negative ones included |
| PyStr.ParseSignedShowInt | Pt3/testing/parse_load_data.py:39 | the same without surrounding whitespace |
| PyStr.ParseInt | Pt3/testing/parse_load_data.py:39 | `int()` on a line; no contract of its own, `ParseShowInt` and `ParseIntBlank` state what it accepts and rejects |
| PyStr.StripNoEdgeSpace | Pt3/testing/parse_load_data.py:31-32 | a line with non-space ends is left as it is by `strip()` |
| PyStr.ParseIntBlank | Pt3/testing/parse_load_data.py:38-42 | a blank or all-whitespace line is never an integer, so it takes the ValueError path |
| LoadTest.MakeResult | Pt3/testing/test_speed.py:57-88 | the result has the request's type and the measured latency. Its status is the HTTP status, or the `ClientError`/`Exception` tag. Its `user_id` is the body's when there is a body; otherwise, for a GET that got a response, the last `/`-segment of the URL; otherwise none |
| LoadTest.ReadResultUserId | Pt3/testing/test_speed.py:62 | a read of `API_BASE_URL/<id>` that got a response reports exactly `<id>` when the id has no `/` |
| LoadTest.CreatedIds | Pt3/testing/test_speed.py:112-116 | the ids the filter collects; no contract of its own, the lemmas below state them |
| LoadTest.CreatedIdsAppend | Pt3/testing/test_speed.py:112-116 | the filter distributes over concatenation, so ids come out in result order |
| LoadTest.CreatedIdsMembers | Pt3/testing/test_speed.py:115-116 | an id is collected if and only if some result had status 201 and that truthy `user_id` |
| LoadTest.CreatedIdsNonEmpty | Pt3/testing/test_speed.py:115 | no collected id is empty |
| LoadTest.CollectInitial | Pt3/testing/test_speed.py:112-116 | the loop keeps every initial result and collects exactly `CreatedIds` of them, in order |
| LoadTest.MixedRequest | Pt3/testing/test_speed.py:129-134 | a roll below `WRITE_PERCENTAGE` is a POST of the new record tagged `mixed_write`; any other roll is a GET of some created id tagged `mixed_read` |
| LoadTest.MixedReadTargetsCreated | Pt3/testing/test_speed.py:133-134 | a mixed read that got a response is recorded under an id created by the initial load |
| LoadTest.InitialCreatedIds | Pt3/testing/test_speed.py:101-116 | after `gather` over the initial POSTs, an id is collected if and only if it is non-empty and some generated record with that id was answered 201 |
| LoadTest.RunScenario | Pt3/testing/test_speed.py:92-146 | with no created id, only the initial results are returned and nothing more is issued. Otherwise there is one mixed request per draw, and the results are the initial ones followed by the mixed ones |
| LoadTest.NoCreatedWithout201 | Pt3/testing/test_speed.py:115-122 | with no 201 in the initial load, the created ids are empty, so the run aborts |
| Statistics.CalculateStatistics | Pt3/testing/test_speed.py:149-164 | the counting loop builds exactly `Tally` of the results |
| Statistics.Record | Pt3/testing/test_speed.py:153-164 | one loop iteration on a bucket; no contract of its own, `BucketOfSnoc` and `TallyStep` state it |
| Statistics.Tally | Pt3/testing/test_speed.py:150-164 | the dictionary after the loop; no contract of its own, `TallyIsBucketOf` and `TallyBuckets` state it |
| Statistics.TallyStep | Pt3/testing/test_speed.py:152-164 | one more result adds one `Record` to the bucket of its type, starting from the factory's empty bucket for a new type |
| Statistics.OfType | Pt3/testing/test_speed.py:153 | the results of one type, each of that type |
| Statistics.CountsBounded | Pt3/testing/test_speed.py:157-164 | successes and 409s are disjoint, so together they never exceed the results |
| Statistics.TallyIsBucketOf | Pt3/testing/test_speed.py:150-164 | the dictionary has a key for exactly the types that occur, and each bucket is the closed form `BucketOf` of its type's results |
| Statistics.BucketOfSnoc | Pt3/testing/test_speed.py:153-164 | one more result updates the closed form exactly as one loop iteration does |
| Statistics.BucketOfWellFormed | Pt3/testing/test_speed.py:154-164 | a bucket's counts satisfy the invariants below |
| Statistics.TallyBuckets | Pt3/testing/test_speed.py:152-164 | every bucket has `count == success + errors` and `len(latencies) == count`. Its total is the sum of its latencies and its count is the number of results of its type. It has a `conflicts` key if and only if one of them was a 409, and then `1 <= conflicts <= errors` |
| Statistics.TotalCountRemove | Pt3/testing/test_speed.py:152-154 | the counts of a dictionary sum to one bucket's count plus the rest |
| Statistics.TallyCountsAll | Pt3/testing/test_speed.py:152-154 | the counts of all buckets add up to the number of results |
| Statistics.AllConflicts | Pt3/testing/test_speed.py:157-164 | when every result is a 409, each type has no success, all errors, and `conflicts == count` |
| Statistics.OnlyConflicts | Pt3/testing/test_speed.py:157-164 | the same, on the closed form |
| Statistics.Insert | Pt3/testing/test_speed.py:181 | inserting into a sorted list keeps it sorted and adds exactly that element |
| Statistics.SortAscending | Pt3/testing/test_speed.py:181 | `sorted` is ascending and a permutation of its input |
| Statistics.MinOf | Pt3/testing/test_speed.py:178 | `min` is an element and no element is below it |
| Statistics.MaxOf | Pt3/testing/test_speed.py:179 | `max` is an element and no element is above it |
| Statistics.PercentileIndex | Pt3/testing/test_speed.py:182-185 | the rank selected for a percentile below 100 is a valid index of a non-empty list |
| Statistics.PercentileIndexMonotone | Pt3/testing/test_speed.py:182-185 | a higher percentile never selects a lower rank |
| Statistics.SortedWithinBounds | Pt3/testing/test_speed.py:178-185 | each selected latency is a recorded one, between the minimum and the maximum |
| Statistics.SumBounds | Pt3/testing/test_speed.py:177 | the total lies between `n * min` and `n * max` |
| Statistics.AverageBounds | Pt3/testing/test_speed.py:177 | so the average lies between the minimum and the maximum |
| Statistics.Summarize | Pt3/testing/test_speed.py:176-195 | the "no latency data" branch is taken exactly when there are no latencies, so the division never has a zero count. Otherwise the average is the sum of the latencies over their number. The minimum and the maximum are recorded latencies that bound every latency. Each percentile is the latency of rank `int(n * q)` (`HasRank`). And min <= p50 <= p90 <= p95 <= p99 <= max, with min <= avg <= max |
| Statistics.CountBelow | Pt3/testing/test_speed.py:181-185 | the number of latencies below a value, or at or below it, is at most their number |
| Statistics.HasRankUnique | Pt3/testing/test_speed.py:181-185 | a rank names at most one latency, so `HasRank` determines each percentile |
| Statistics.CountBelowMonotone | Pt3/testing/test_speed.py:181-185 | everything at or below a value is below any larger value |
| Statistics.CountBelowAppend | Pt3/testing/test_speed.py:181 | the count distributes over concatenation |
| Statistics.CountBelowPermutation | Pt3/testing/test_speed.py:181 | the count is the same for any permutation, so for the sorted copy |
| Statistics.RemoveAtMultiset | Pt3/testing/test_speed.py:181 | dropping one entry removes one copy of it from the multiset |
| Statistics.CountBelowRemoveAt | Pt3/testing/test_speed.py:181 | dropping one entry lowers the count by whether it was counted |
| Statistics.CountBelowExtremes | Pt3/testing/test_speed.py:181-185 | none of a list is below its lower bound, and all of it is at or below its upper bound |
| Statistics.SortedHasRank | Pt3/testing/test_speed.py:181-185 | entry `k` of the sorted copy has rank `k` among the latencies |
| Statistics.SortedBelow | Pt3/testing/test_speed.py:181-185 | at most `k` entries of a sorted list are below entry `k` |
| Statistics.SortedAtOrBelow | Pt3/testing/test_speed.py:181-185 | more than `k` entries of a sorted list are at or below entry `k` |
| Statistics.EveryBucketSummarized | Pt3/testing/test_speed.py:176-195 | every bucket the loop creates has latency data, so the "no latency data" branch is never reached |
| ContainerStats.ToMibUnits | Pt3/testing/parse_load_data.py:10-18 | `xGiB` is `x * 1024` MiB, `xMiB` is `x`, `xKiB` is `x / 1024`, and a number without a unit is itself |
| ContainerStats.ToMib | Pt3/testing/parse_load_data.py:10-18 | `to_mib`; no contract of its own, `ToMibUnits` states each unit |
| ContainerStats.ParseMem | Pt3/testing/parse_load_data.py:5-19 | a memory text without exactly one `/` raises the unpacking ValueError |
| ContainerStats.ParseMemSides | Pt3/testing/parse_load_data.py:7-19 | with one `/`, the two sides are stripped and converted independently, the used side first, and the pair is returned |
| ContainerStats.RemoveAllAppend | Pt3/testing/parse_load_data.py:23 | removing `%` distributes over concatenation |
| ContainerStats.ParseCpu | Pt3/testing/parse_load_data.py:21-23 | `parse_cpu`; no contract of its own, `ParseCpuPercent` states what it reads |
| ContainerStats.ParseCpuPercent | Pt3/testing/parse_load_data.py:21-23 | a CPU field `x%` with any whitespace before and any whitespace after reads as the number `x` |
| ContainerStats.StripLeftPadded | Pt3/testing/parse_load_data.py:23 | leading whitespace before a non-space is exactly what `strip()` removes on the left |
| ContainerStats.StripRightPadded | Pt3/testing/parse_load_data.py:23 | trailing whitespace after a non-space is exactly what it removes on the right |
| ContainerStats.PairStep | Pt3/testing/parse_load_data.py:31-50 | the decision of one loop iteration; no contract of its own, `PairStepCases` states it |
| ContainerStats.PairStepCases | Pt3/testing/parse_load_data.py:31-50 | a blank line, or a timestamp line that is not an integer, moves on one line, if and only if. A stat line without exactly three comma fields moves on two. A row comes only from a good pair, with its integer timestamp and its first field as the container. An exception comes only from the CPU or the memory field |
| ContainerStats.ReadPair | Pt3/testing/parse_load_data.py:31-50 | the body of the loop takes exactly the decision `PairStep` describes on the pair of lines |
| ContainerStats.Walk | Pt3/testing/parse_load_data.py:29-58 | the loop from index `i`; no contract of its own, `WalkRows`, `WalkError` and `WalkStep` state it |
| ContainerStats.Scan | Pt3/testing/parse_load_data.py:25-59 | `parse_file`; no contract of its own, `ScanRows` and `ScanError` state it |
| ContainerStats.WalkRows | Pt3/testing/parse_load_data.py:29-58 | every row comes from an emitting pair at or after the start. Rows are in line order and two lines apart, so at most half the remaining lines become rows |
| ContainerStats.WalkError | Pt3/testing/parse_load_data.py:48-50 | an exception of the walk is raised by some pair at or after the start |
| ContainerStats.ScanRows | Pt3/testing/parse_load_data.py:29-59 | `2 * len(rows) <= len(lines)`. Rows appear in input order, each read from its own good pair (`RowFrom`) |
| ContainerStats.ScanError | Pt3/testing/parse_load_data.py:48-50 | `parse_file` raises only from a pair with an integer timestamp and three fields whose CPU or memory field does not parse |
| ContainerStats.WalkStep | Pt3/testing/parse_load_data.py:33-58 | each skip and each emitted row advances the walk exactly as the loop's index does |
| ContainerStats.ParseFile | Pt3/testing/parse_load_data.py:25-59 | the `while` loop returns exactly the rows `Scan` describes, or the first exception |
| Records.EncodeChar | Pt3/docker-sqlcipher-service/src/controllers/record.controller.ts:25 | a character takes one to four UTF-8 bytes |
| Records.DecodeEncodeChar | Pt3/docker-sqlcipher-service/src/controllers/record.controller.ts:25 | decoding a character's UTF-8 bytes gives back the character and its length |
| Records.DecodeTwo | Pt3/docker-sqlcipher-service/src/controllers/record.controller.ts:25 | the same for two-byte characters |
| Records.DecodeThree | Pt3/docker-sqlcipher-service/src/controllers/record.controller.ts:25 | the same for three-byte characters |
| Records.DecodeFour | Pt3/docker-sqlcipher-service/src/controllers/record.controller.ts:25 | the same for four-byte characters |
| Records.Utf8RoundTrip | Pt3/docker-sqlcipher-service/src/controllers/record.controller.ts:25 | `Buffer.from(s, 'utf-8')` decodes back to `s` |
| Records.Utf8Length | Pt3/docker-sqlcipher-service/src/controllers/record.controller.ts:25 | the encoding has at least one and at most four bytes per character |
| Records.NotesBlob | Pt3/docker-sqlcipher-service/src/controllers/record.controller.ts:25 | the stored notes; no contract of its own, `NotesBlobSpec` states them |
| Records.NotesBlobSpec | Pt3/docker-sqlcipher-service/src/controllers/record.controller.ts:25 | stored notes are NULL exactly when notes were missing, `null` or `""`. Text is stored as bytes that decode back to it, and a Buffer (even an empty one) is stored as is |
| Records.ParamsOf | Pt3/docker-sqlcipher-service/src/controllers/record.controller.ts:27-34 | the bound parameters violate no NOT NULL column exactly when the entry is complete, and the row is then keyed by the entry's `user_id` |
| Records.NullColumn | Pt3/docker-sqlcipher-service-secure/src/services/database.service.ts:31-36 | no NOT NULL column is violated exactly when `user_id`, `timestamp`, `heart_rate` and `blood_pressure` are all bound |
| Records.InsertSpec | Pt3/docker-sqlcipher-service-secure/src/services/database.service.ts:31-38 | both statements fail with the first NOT NULL violation when there is one. Otherwise an `INSERT` fails with the primary-key violation if and only if the key is stored, and an upsert never fails. A success stores the row under its key, adds no other key and changes no other row |
| Records.InsertKeepsKeys | Pt3/docker-sqlcipher-service-secure/src/services/database.service.ts:37 | both statements keep every row under its own `user_id` |
| Records.MissingFields | Pt3/docker-sqlcipher-service/src/controllers/record.controller.ts:17-19 | the 400 guard; no contract of its own, `InsertOutcomeSpec` and `UpsertOutcomeSpec` state its effect |
| Records.GetOutcome | Pt3/docker-sqlcipher-service/src/controllers/record.controller.ts:46-66 | the lookup; no contract of its own, `GetOutcomeSpec` states it |
| Records.GetOutcomeSpec | Pt3/docker-sqlcipher-service/src/controllers/record.controller.ts:46-66 | without a fault, a lookup answers 200 if and only if the key is stored (then with that row, whose `user_id` is the key) and 404 if and only if it is not. A fault answers 500 with its message |
| Service.InsertOutcome | Pt3/docker-sqlcipher-service/src/controllers/record.controller.ts:13-44 | the single insert; no contract of its own, `InsertOutcomeSpec` states it |
| Service.InsertOutcomeSpec | Pt3/docker-sqlcipher-service/src/controllers/record.controller.ts:13-44 | 400 if and only if a required field is missing or empty. For complete input, 201 with `userId` and exactly that row added if and only if the key is new, and 409 if and only if it is stored and there is no fault. A `null` timestamp or heart rate gets 500, and so does a fault, with its message. Every answer but 201 leaves the table unchanged |
| Service.ArrayBodyRejected | Pt3/docker-sqlcipher-service/src/controllers/record.controller.ts:15-19 | an array body gets the missing-fields 400 |
| Service.RecordController.constructor | Pt3/docker-sqlcipher-service/src/controllers/record.controller.ts:9-11 | the controller starts on the given table |
| Service.RecordController.InsertRecord | Pt3/docker-sqlcipher-service/src/controllers/record.controller.ts:13-44 | the response and new table are `InsertOutcome` of the old table, and rows stay keyed by their `user_id` |
| Service.RecordController.GetRecordByUserId | Pt3/docker-sqlcipher-service/src/controllers/record.controller.ts:46-66 | read-only lookup; a 200 returns the row whose `user_id` was asked for |
| InsecureService.UpsertOutcomeSpec | Pt3/docker-sqlcipher-service-insecure/src/controllers/record.controller.ts:13-45 | the same 400 guard. Without a fault, complete input writes the new row under its `user_id` (overwriting), answers 201, and keeps every other key's row. A fault answers 500 with its message. 409 never occurs. Every answer but 201 leaves the table unchanged |
| InsecureService.UpsertOutcome | Pt3/docker-sqlcipher-service-insecure/src/controllers/record.controller.ts:13-45 | the upsert; no contract of its own, `UpsertOutcomeSpec` states it |
| InsecureService.BatchOutcome | Pt3/docker-sqlcipher-service-insecure/src/controllers/record.controller.ts:67-101 | the batch; no contract of its own, the lemmas below state it |
| InsecureService.InsertFromSucceeds | Pt3/docker-sqlcipher-service-insecure/src/controllers/record.controller.ts:77-84 | the batch inserts succeed only with no fault, every record complete, and keys distinct and new |
| InsecureService.InsertFromStores | Pt3/docker-sqlcipher-service-insecure/src/controllers/record.controller.ts:77-84 | after successful inserts the table holds each record's row under its key and every old row unchanged, and no other key |
| InsecureService.InsertFromStep | Pt3/docker-sqlcipher-service-insecure/src/controllers/record.controller.ts:77-84 | one successful insert of the loop had no fault, a complete record and a new key, and the next insert starts from the table with that row stored |
| InsecureService.InsertFromFresh | Pt3/docker-sqlcipher-service-insecure/src/controllers/record.controller.ts:77-84 | conversely, such a batch succeeds |
| InsecureService.InsertFromDuplicate | Pt3/docker-sqlcipher-service-insecure/src/controllers/record.controller.ts:77-97 | among complete records, a `user_id` already stored or repeated in the batch fails with the primary-key violation |
| InsecureService.InsertFromNotNull | Pt3/docker-sqlcipher-service-insecure/src/controllers/record.controller.ts:77-99 | among distinct new keys, an incomplete record fails with a NOT NULL violation |
| InsecureService.BatchAllOrNothing | Pt3/docker-sqlcipher-service-insecure/src/controllers/record.controller.ts:67-101 | every answer but 201 leaves the table as it was, the 400 for a non-array or empty body included. A 201 reports `records.length` and adds every record under its distinct new key, keeping every old row |
| InsecureService.BatchConflicts | Pt3/docker-sqlcipher-service-insecure/src/controllers/record.controller.ts:77-99 | without faults, complete records get 201 when their keys are distinct and new, and 409 otherwise. An incomplete record among distinct new keys gets 500, since there is no per-record validation |
| InsecureService.BatchFaultAnswers500 | Pt3/docker-sqlcipher-service-insecure/src/controllers/record.controller.ts:74-99 | a fault at `BEGIN`, at the first insert or at `COMMIT` answers 500 with that fault's message and leaves the table unchanged |
| InsecureService.RecordController.constructor | Pt3/docker-sqlcipher-service-insecure/src/controllers/record.controller.ts:9-11 | the controller starts on the given table |
| InsecureService.RecordController.InsertRecord | Pt3/docker-sqlcipher-service-insecure/src/controllers/record.controller.ts:13-45 | the response and new table are `UpsertOutcome` of the old table |
| InsecureService.RecordController.GetRecordByUserId | Pt3/docker-sqlcipher-service-insecure/src/controllers/record.controller.ts:47-65 | read-only lookup; a 200 returns the row whose `user_id` was asked for |
| InsecureService.RecordController.InsertRecordsBatch | Pt3/docker-sqlcipher-service-insecure/src/controllers/record.controller.ts:67-101 | `BEGIN`, the inserts in order, `COMMIT`, and a rollback to the snapshot on the first error. The response and new table are `BatchOutcome` of the old table |
| InsecureRoutes.Route | Pt3/docker-sqlcipher-service-insecure/src/routes/item.routes.ts:8-18 | a POST goes to the batch handler if and only if its body is an array, and to the single handler if and only if it is an object. A GET goes to the lookup with the path parameter as the key. Every request has exactly one handler |
| InsecureRoutes.Serve | Pt3/docker-sqlcipher-service-insecure/src/routes/item.routes.ts:8-18 | the service's answer to one request; no contract of its own, the lemmas below state it |
| InsecureRoutes.EmptyArrayRejected | Pt3/docker-sqlcipher-service-insecure/src/routes/item.routes.ts:10-11 | an empty array gets the batch's "non-empty array" 400 with the table unchanged, not the missing-fields 400 |
| InsecureRoutes.SingleNeverConflicts | Pt3/docker-sqlcipher-service-insecure/src/routes/item.routes.ts:12-18 | a POST of one object never answers 409, and a GET never changes the table |
| InsecureRoutes.Handle | Pt3/docker-sqlcipher-service-insecure/src/routes/item.routes.ts:6-19 | serving a request on the controller calls exactly the routed handler, giving `Serve`'s response and table |

## Left out

- Concurrency of `run_test_scenario` (the semaphore, `ensure_future`, done-callbacks): the model produces the list `gather` returns, one result per request in request order.
- HTTP I/O and timing of `make_request`: each request's status or exception and its latency are given as an `Outcome`. The `url` and `response_body` fields of a result are not modelled, since nothing downstream reads them.
- Randomness:
  - the generated records are parameters;
  - `random.random()` is `Draw.roll`;
  - `random.choice` is `Draw.pick` reduced modulo the number of created ids.
- Floating point:
  - latencies are integers of milliseconds;
  - the average is an exact division over `real`;
  - throughput (requests per second) is not modelled;
  - the percentile ranks are computed in integer arithmetic, `n * q / 100`, where Python computes `int(n * 0.9)` and the like in binary floating point. The two agree for every list shorter than 10^13 latencies. When `n * q / 100` is an integer, that integer is the double nearest the product. Otherwise the product's rounding error is below 0.01, the smallest distance from `n * q / 100` to the next integer.
- PyStr.ParseInt: accepts an optional sign followed by ASCII digits. Python's `int()` also accepts `_` separators between digits and non-ASCII decimal digits; the model does not. It also accepts any number of digits, while Python's `int()` raises a ValueError for more than 4300 digits.
- Python's `float()` grammar: `float` is the parameter `fl` of every parsing member. Its values are `real`s, so `nan` and `inf`, which `float()` accepts, cannot be represented.
- All printing and report formatting, and the script's main block.
- `get_container_stats.py` (a poll loop over the Docker API) and `write_csv`/`plot_stats` (CSV and plot output).
- Reading the log file: the input is the list of its lines.
- SQLCipher and SQLite mechanics, beyond the schema:
  - opening the database, the PRAGMAs and the key;
  - database errors that the schema does not explain, which are parameters (`fault`, `BatchFaults`).
- A failing `ROLLBACK`: it is logged and swallowed in the batch handler, and the model assumes the rollback restores the table.
- Records.IsDuplicateUserId: tests the kind of error rather than searching the message for `UNIQUE constraint failed: records.user_id`. Of the errors this schema can raise, only the primary-key violation has that message. A fault is a message that the schema does not explain, so it is never taken for a duplicate.
- JSON body values outside the record's declared types: booleans, non-integer numbers, strings where numbers are expected, nested objects. Also array elements that are not objects, where a `null` element raises a TypeError that ends in the same rollback and 500.
- The JSON serialisation of a returned row (a Buffer becomes `{type, data}`).
- Interleaving of other requests between the awaits of one handler: in particular, requests that would run inside an open batch transaction.
- Strings holding lone UTF-16 surrogates (which `Buffer.from` replaces by U+FFFD): model strings are sequences of Unicode scalar values.
- `app.ts`, the route file of `docker-sqlcipher-service` and `test_functionality.py`: wiring or one-shot scripts.
- A combined summary across operation types: `calculate_statistics` computes per-type summaries only, so the model has no combined read/write summary.
