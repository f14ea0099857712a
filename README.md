# Megaverse challenge drivers, modelled in Dafny

The repository fills a remote "Megaverse" grid with astral objects: Polyanets,
Soloons of a color and Comeths of a direction. This project models and proves
the logic that surrounds the HTTP client:

- **Goal-map parser** (`parse_goal_map`). A grid of text labels turns into a list
  of object records in row-major order. Null and `SPACE` cells are skipped,
  `POLYANET` is taken literally, and `<COLOR>_SOLOON` and `<DIRECTION>_COMETH`
  are checked against fixed vocabularies.
- **Creation driver** (`create_objects_from_goal`, `log_created_object`). Each
  record gets one create call of its type. The record is appended to the
  creation log only when that call returns. A failure does not stop the run,
  and a dry run makes no call and writes nothing.
- **Cleanup driver** (`cleanup_from_log`). Every logged record gets the delete
  call of its type. Only errors whose text contains `429` are retried, up to
  `max_retries` attempts. The log is then rewritten to hold exactly the records
  that could not be deleted, in their order.
- **Cross pattern** (`PatternGenerator.generate_cross`, `create_cross_pattern`)
  and the request payloads of the object classes (`to_api_payload`).

The remote service is an outcome oracle. A run receives `outcomes: seq<Outcome>`,
and the call numbered `k` (calls are numbered in the order they are made)
returns when `outcomes[k]` is `Ok`, or raises `Err(message)`. A call past the
end of the sequence returns. The calls a run makes are returned as a trace
`seq<Call>`. A log file is `Option<seq<Record>>`, where `None` means the file
does not exist. A record is the parser's dictionary `{row, column, type,
color?, direction?}`, with an absent key as `None`.

The core functions that loop (`parse_goal_map`, `create_objects_from_goal`,
`cleanup_from_log`, `generate_cross` and `create_cross_pattern`) are Dafny
methods (`ParseGoalMap`, `CreateObjectsFromGoal`, `CleanupFromLog`,
`GenerateCross` and `CreateCrossPattern`) with the same loops and branches.
Each is proved equal to a specification function (`ParseGoal`, `CreateRun`,
`CleanupRun`, `Cross`), and the lemmas state the properties of those
functions. `log_created_object`, which only appends a line, is the function
`LogCreatedObject` from the log before to the log after. The run functions are defined over prefixes ("the run over
the first `i + 1` records is the run over the first `i`, then record `i`"),
which is what the loop invariants use.

Modules: `Wrappers` (Option and Result), `Sequences` (order-preserving
subsequences), `Models`, `Remote` (calls, outcomes, `"429" in text`),
`GoalParser`, `Creation`, `Cleanup`, `Patterns` and `CrossPattern`.

Where the documentation and the code disagree, the model follows the code:

- The docstring of challenge2_cleanup.py:9 says objects are deleted in reverse
  order. The loop at challenge2_cleanup.py:49 goes through the log in file
  order, so `CleanupRun` works in log order.
- The test `test_error_handling` (tests/test_challenge2.py:52-59) expects a
  failing `get_goal_map` to be handled. The call at challenge2.py:54 is outside
  the `try` block, so the exception leaves `create_objects_from_goal`.
  `CreateObjectsFromGoal` returns it as `raised`, making no call and leaving
  the log untouched.

## Model

| member | source | states |
|---|---|---|
| `Models.BasePayload` | megaverse/models.py:27-32 | The base class's payload: a new dictionary with `row`, `column` and `candidateId`. It is a definition with no contract of its own; `BasePayloadShape` states its keys and values. |
| `Models.ToApiPayload` | megaverse/models.py:27-56 | Each class's payload: the base payload, plus `color` for a Soloon or `direction` for a Cometh. It is a definition with no contract of its own; `PayloadExtendsBase` and `PayloadInjective` state its properties. |
| `Models.PositionEquality` | megaverse/models.py:4-7 | Two positions are equal exactly when their rows and their columns are equal. |
| `Models.BasePayloadShape` | megaverse/models.py:27-32 | The base payload has exactly the keys `row`, `column` and `candidateId`. Their values are the position's row and column and the candidate id. |
| `Models.PayloadExtendsBase` | megaverse/models.py:34-56 | Every payload agrees with the base payload on the base keys. A Polyanet payload is the base payload. A Soloon payload adds only `color` and a Cometh payload adds only `direction`, each holding the object's value. |
| `Models.PayloadInjective` | megaverse/models.py:27-56 | Two equal payloads come from the same object and the same candidate id. |
| `Remote.Contains` | challenge2_cleanup.py:70 | Python's `sub in s` on strings: `sub` is a prefix of `s` or of one of its suffixes. It is a definition with no contract of its own; `ContainsAt` proves it equal to an occurrence at some offset. |
| `Remote.IsRateLimited` | challenge2_cleanup.py:68-70 | An exception counts as a rate limit when its text contains "429". It is a definition with no contract of its own; `AttemptsShape` and `RateLimitErrorIsRateLimited` are stated with it. |
| `Remote.ContainsAt` | challenge2_cleanup.py:70 | `"429" in text` holds exactly when "429" occurs at some offset of the text. |
| `GoalParser.EndsWith` | challenge2_goal_parser.py:71-80 | `cell.endswith(suffix)`: the last characters of the text are the suffix. It is a definition with no contract of its own; `EndsWithSplit` states its meaning. |
| `GoalParser.EndsWithSplit` | challenge2_goal_parser.py:71-80 | `s.endswith(suffix)` holds exactly when `s` is some string followed by `suffix`. |
| `GoalParser.Lower` | challenge2_goal_parser.py:72-81 | `.lower()` keeps the length. Each ASCII capital becomes the letter 32 code points higher, every other character is kept, and no capital remains. |
| `GoalParser.LowerIdempotent` | challenge2_goal_parser.py:72-81 | Lower-casing a lower-cased string changes nothing. |
| `GoalParser.FirstSegment` | challenge2_goal_parser.py:72 | `s.split("_")[0]` is a prefix of `s` without an underscore, and an underscore follows it unless it is all of `s`. |
| `GoalParser.FirstSegmentUnique` | challenge2_goal_parser.py:72 | The first segment is the only underscore-free prefix that an underscore follows. |
| `GoalParser.Rows` | challenge2_goal_parser.py:56 | `goal_map.get("goal", [])`: the grid, or no rows when the key is missing. It is a definition with no contract of its own; `EmptyGoal` is stated with it. |
| `GoalParser.ParseRow` | challenge2_goal_parser.py:57-86 | The records of one row: those of its first cells, then what its last cell yields. It is a definition with no contract of its own; `ParseRowSound`, `ParseRowOrdered`, `ParseRowComplete` and `RowLengthBound` state its properties. |
| `GoalParser.ParseRows` | challenge2_goal_parser.py:56-86 | The records of a grid, row after row. It is a definition with no contract of its own; `ParseFromCell`, `ParseRowMajor` and `ParseComplete` state its properties. |
| `GoalParser.ParseGoal` | challenge2_goal_parser.py:55-88 | The list `parse_goal_map` returns: the records of the goal map's rows. It is a definition with no contract of its own; `ParseGoalMap` is proved equal to it, and the parser lemmas state its properties. |
| `GoalParser.ParseGoalMap` | challenge2_goal_parser.py:55-88 | The nested scan returns the specification result `ParseGoal` of the goal map. |
| `GoalParser.ParseRowCells` | challenge2_goal_parser.py:57-86 | The inner loop produces the records of one row, cell by cell, in column order. |
| `GoalParser.AppendCell` | challenge2_goal_parser.py:58-86 | The body of the inner loop appends the record its cell describes, or nothing. |
| `GoalParser.ParseCell` | challenge2_goal_parser.py:59-86 | The if-chain applied to one cell, giving the record it yields or nothing. It is a definition with no contract of its own; `ParseCellShape`, `PolyanetLabel`, `SoloonLabel`, `ComethLabel` and `OtherLabelDropped` state its cases. |
| `GoalParser.ParseCellShape` | challenge2_goal_parser.py:59-86 | Null and SPACE cells yield nothing. A record a cell yields carries the cell's row and column, and its fields match its type. |
| `GoalParser.PolyanetLabel` | challenge2_goal_parser.py:66-68 | A cell yields a POLYANET record with no color and no direction exactly when its label is POLYANET. |
| `GoalParser.OtherLabelDropped` | challenge2_goal_parser.py:65-86 | A label that is not POLYANET and ends in neither `_SOLOON` nor `_COMETH` yields nothing. |
| `GoalParser.SoloonLabel` | challenge2_goal_parser.py:71-77 | A label yields a SOLOON of a color exactly when it ends in `_SOLOON`, the color is blue, red, purple or white, and the label's first `_` segment lower-cases to it. |
| `GoalParser.ComethLabel` | challenge2_goal_parser.py:80-86 | A label yields a COMETH of a direction exactly when it ends in `_COMETH`, the direction is up, down, left or right, and the first `_` segment lower-cases to it. |
| `GoalParser.UnderscoreIsFollowed` | challenge2_goal_parser.py:71-72 | A label ending in `_SOLOON` or `_COMETH` has an underscore right after its first segment. |
| `GoalParser.ParseRowSound` | challenge2_goal_parser.py:57-63 | Every record of a row has that row and a column within the row, and it is what the cell at that column yields. |
| `GoalParser.ParseRowOrdered` | challenge2_goal_parser.py:57 | The records of one row come out in strictly increasing column order. |
| `GoalParser.ParseRowComplete` | challenge2_goal_parser.py:57-86 | Every cell of a row that yields a record contributes it to the row's result. |
| `GoalParser.ParseFromCell` | challenge2_goal_parser.py:56-63 | Every record's row and column index a cell of the grid, and that cell yields exactly this record. |
| `GoalParser.ParseRowMajor` | challenge2_goal_parser.py:56-57 | Records come out in row-major scan order: by row, then by column, with no position twice. |
| `GoalParser.ParseComplete` | challenge2_goal_parser.py:55-88 | Every cell of the grid that yields a record contributes it to the result. |
| `GoalParser.ParseSkipsBlankCells` | challenge2_goal_parser.py:59-60 | No record comes from a null or SPACE cell, and every record is well formed. |
| `GoalParser.ParseLengthBound` | challenge2_goal_parser.py:55-88 | The result is no longer than the number of non-blank cells, which is no more than the number of cells. |
| `GoalParser.RowLengthBound` | challenge2_goal_parser.py:57-86 | A row yields no more records than it has non-blank cells, and no more than it has cells. |
| `GoalParser.EmptyGoal` | challenge2_goal_parser.py:56 | An empty goal grid and a goal map without a `goal` key both give no records. |
| `GoalParser.SampleGoal` | tests/test_challenge2_parse_goal.py:5-19 | The sample 3x3 grid gives POLYANET at (0,1), a red SOLOON at (1,0) and an up COMETH at (1,2), in that order. |
| `GoalParser.InvalidLabels` | tests/test_challenge2_parse_goal.py:126-136 | INVALID_OBJECT, UNKNOWN_SOLOON, WRONG_COMETH and SPACE cells give no records. |
| `Creation.LogCreatedObject` | challenge2.py:25-34 | Appending creates the log if it is missing and adds the record as one more line at the end, keeping every earlier line. |
| `Creation.AppendAllStep` | challenge2.py:33-34 | Appending records one at a time gives the log followed by all of them. |
| `Creation.CreateRun` | challenge2.py:61-90 | The calls made and the records logged over a list of records, each record's call numbered after those before it. It is a definition with no contract of its own; `CreateObjectsFromGoal` is proved equal to it, and the `CreateRun` lemmas state its properties. |
| `Creation.CreateObjectsFromGoal` | challenge2.py:36-90 | A failed fetch propagates, with no call and the log untouched. A dry run makes no call and leaves the log untouched. Otherwise the calls and the new log are those of `CreateRun` over the parsed records. |
| `Creation.CreateDispatch` | challenge2.py:74-84 | What the try block does for one record: the create call of its type, no call for an unknown type, or a KeyError when a SOLOON lacks its color or a COMETH its direction. It is a definition with no contract of its own; `WellFormedIsSent` and `DeleteUndoesCreate` state its properties. |
| `Creation.Step` | challenge2.py:74-90 | One record's contribution: its create call, if any, and the record logged when that call returned (or at once for an unknown type). It is a definition with no contract of its own; `CreateRunLast`, `CreateRunLogsSuccesses` and `CreateRunLogsOnlySuccesses` state its properties. |
| `Creation.WellFormedIsSent` | challenge2.py:76-84 | A parsed record always leads to the create call of its own type, with its position and its color or direction. |
| `Creation.CreateRunCalls` | challenge2.py:61-84 | Over parsed records there is exactly one create call per record, and the i-th call creates the i-th record. |
| `Creation.CreateRunLast` | challenge2.py:74-90 | The last parsed record adds its create call as call number n, and it is logged exactly when that call returned. |
| `Creation.CreateRunInOrder` | challenge2.py:86-87 | The logged records are some of the records processed, kept in their order. |
| `Creation.CreateRunLogsSuccesses` | challenge2.py:86-90 | A record whose create call returned is logged, whatever happened to the calls before it. |
| `Creation.CreateRunLogsOnlySuccesses` | challenge2.py:86-90 | A logged record is a parsed record whose own create call returned. |
| `Creation.CreateRunCreatedIndices` | challenge2.py:61-90 | Over parsed records the log gains the records at exactly the positions whose create call returned. There is one entry per such position, in creation order, so a record processed twice and created twice is logged twice. |
| `Creation.CreateRunAllSucceed` | challenge2.py:61-87 | When every call returns, every parsed record is logged, in order. |
| `Creation.TestGoalRecords` | tests/test_challenge2.py:13-19 | The test's goal map parses to its three records. |
| `Creation.CreateTestRecords` | challenge2.py:74-90 | Over the three test records the calls are create POLYANET (0,1), create SOLOON (1,0) "red" and create COMETH (1,2) "up". Each record is logged exactly when its own call returned. |
| `Creation.CreateTestGoal` | tests/test_challenge2.py:10-50 | With every call returning, the test goal gives one call of each type with the expected arguments and logs the three records. |
| `Creation.CreateTestGoalSoloonFails` | challenge2.py:89-90 | When the SOLOON creation fails, it is not logged, and the COMETH after it is still created and logged. |
| `Cleanup.Budget` | challenge2_cleanup.py:55 | The number of attempts `range(max_retries)` allows: none when `max_retries` is not positive. It is a definition with no contract of its own. |
| `Cleanup.CleanupStep` | challenge2_cleanup.py:50-80 | One record's contribution: its delete calls as `Attempts` makes them, and the record itself when the loop did not succeed. It is a definition with no contract of its own; `CleanupStepShape` and `UnknownKindCountsAsDeleted` state its properties. |
| `Cleanup.CleanupRun` | challenge2_cleanup.py:49-80 | The calls made and the records kept over the log, each record's attempts numbered after the calls before it. It is a definition with no contract of its own; `CleanupFromLog` is proved equal to it, and the `CleanupRun` lemmas state its properties. |
| `Cleanup.CleanupFromLog` | challenge2_cleanup.py:24-94 | A missing log makes no call and leaves the file missing. Otherwise the calls are those of `CleanupRun`, and the file is rewritten to hold exactly its failed records (an empty file when none failed). |
| `Cleanup.DeleteWithRetries` | challenge2_cleanup.py:53-80 | The retry loop for one record makes the delete call of its type as `Attempts` prescribes, and its success flag is the one `Attempts` gives. |
| `Cleanup.DeleteCallFor` | challenge2_cleanup.py:57-63 | The delete call for a logged record, chosen by its type, and none for any other type. It is a definition with no contract of its own; `DeleteUndoesCreate` states its properties. |
| `Cleanup.Attempts` | challenge2_cleanup.py:55-76 | The retry loop for one record, from a given attempt and call number on: the number of calls made and whether it ended in success. It is a definition with no contract of its own; `AttemptsShape` states its properties. |
| `Cleanup.AttemptsShape` | challenge2_cleanup.py:55-76 | A record with a delete call gets at most `max_retries` attempts, and at least one when any remain. Every call but the last was rate limited. The loop succeeds exactly when its last call returned. It stops with attempts to spare only on an error that is not a 429. |
| `Cleanup.UnknownKindCountsAsDeleted` | challenge2_cleanup.py:58-66 | A record of unknown type makes no call, and it counts as deleted unless `max_retries` is not positive. |
| `Cleanup.CleanupStepShape` | challenge2_cleanup.py:55-80 | One record takes at most `max_retries` calls, all of them its own delete call. It is dropped or kept. With `max_retries` not positive it gets no call and is kept. |
| `Cleanup.NoAttemptStep` | challenge2_cleanup.py:55 | With `max_retries` not positive a record gets no call and is kept. |
| `Cleanup.CleanupRunFailedIndices` | challenge2_cleanup.py:49-80 | The rewritten log is the log restricted to the positions whose deletion failed. The positions are strictly increasing, the rewritten log has one entry per position, and entry j is the record at position j. A position is among them exactly when its record's retry loop did not succeed. So a record logged twice and kept twice appears twice. |
| `Cleanup.CleanupRunInOrder` | challenge2_cleanup.py:79-90 | The rewritten log is a subsequence of the log: its records keep their log order. |
| `Cleanup.CleanupRunFailed` | challenge2_cleanup.py:78-80 | A record is in the rewritten log exactly when one of its occurrences in the log was not deleted. |
| `Cleanup.CleanupRunCalls` | challenge2_cleanup.py:49-76 | Every call is a delete call of some logged record, and there are at most the number of records times `max_retries` calls in all. |
| `Cleanup.CleanupRunPrefix` | challenge2_cleanup.py:49-76 | The calls made for the first i records are the first calls of the whole run. |
| `Cleanup.CleanupRunPerRecord` | challenge2_cleanup.py:53-76 | Record i's calls are the run's calls from `StartOf(i)` up to `StartOf(i + 1)`. There are at most `max_retries` of them, and each is record i's own delete call. |
| `Cleanup.CleanupRunCovered` | challenge2_cleanup.py:49 | These per-record slices start at call 0 and end at the run's last call, so together they cover every call. |
| `Cleanup.CleanupRunNoAttempts` | challenge2_cleanup.py:55 | With `max_retries` not positive no call is made and the whole log is kept. |
| `Cleanup.CleanupRunAllDeleted` | challenge2_cleanup.py:85-94 | When every call returns, each record's delete call is made once, in log order, and the log is cleared. |
| `Cleanup.CleanupResume` | challenge2_cleanup.py:84-91 | A second cleanup over the rewritten log touches only records the first run could not delete. It keeps none that the first run dropped, and the log never grows. |
| `Cleanup.DeleteUndoesCreate` | challenge2_cleanup.py:58-63 | A record that leads to a create call leads to the delete call of the same type and position. Exactly the records of unknown type lead to neither. |
| `Cleanup.WellFormedIsUndone` | challenge2_cleanup.py:58-63 | A parsed record's create call has a delete call that undoes it. |
| `Cleanup.DeleteCallsUndo` | challenge2_cleanup.py:58-63 | Over parsed records there is one delete call per record, and the i-th undoes the i-th record's create call. |
| `Cleanup.CreateThenCleanup` | challenge2_cleanup.py:49-94 | The log a creation run leaves, cleaned up while every call returns, gives one delete call per logged object, each undoing that object's creation, and an empty log. |
| `Cleanup.RateLimitErrorIsRateLimited` | tests/test_challenge2_cleanup.py:32-35 | The mock's "429 Client Error: Too Many Requests" counts as a rate limit. |
| `Cleanup.DeletedAtOnce` | challenge2_cleanup.py:56-66 | A delete that returns at the first attempt makes one call, and the record is dropped. |
| `Cleanup.DeletedOnRetry` | challenge2_cleanup.py:70-74 | A 429 and then a return, with `max_retries` at least 2, make two calls, and the record is dropped. |
| `Cleanup.RetriesExhausted` | challenge2_cleanup.py:70-80 | Two 429s with `max_retries` = 2 make two calls, and the record is kept. |
| `Cleanup.CleanupTestLog` | tests/test_challenge2_cleanup.py:6-51 | The three-record log gives one POLYANET, two SOLOON and one COMETH delete, at the logged positions, and an empty log. |
| `Cleanup.CleanupTestFailedDeletion` | tests/test_challenge2_cleanup.py:53-88 | When every SOLOON delete is rate limited, the SOLOON is tried twice and the rewritten log holds it alone. |
| `Patterns.Cross` | megaverse/patterns.py:15-32 | The list `generate_cross` builds for an odd size. It is a definition with no contract of its own; `CrossLayout`, `CrossOnX`, `XInCross` and `CrossPositions` state its shape. |
| `Patterns.GenerateCross` | megaverse/patterns.py:6-34 | `generate_cross` fails exactly for an even size. Otherwise it returns the cross, built distance by distance. |
| `Patterns.CrossLayout` | megaverse/patterns.py:19-32 | The cross has 13 objects. For d = 2, 3, 4 in turn come the top-left, bottom-right, top-right and bottom-left Polyanets at distance d, and the centre comes last. |
| `Patterns.CrossAllPolyanets` | megaverse/patterns.py:24-32 | Every generated object is a Polyanet. |
| `Patterns.CrossOnX` | megaverse/patterns.py:15-32 | Every generated position is the centre (c, c) or (c±d, c±d) for d in {2, 3, 4}, where c = size // 2. |
| `Patterns.XInCross` | megaverse/patterns.py:15-32 | Every such cell of the X is generated. |
| `Patterns.CrossPositions` | megaverse/patterns.py:15-32 | The generated positions are exactly the cells of the X, and no position is generated twice. |
| `Patterns.CrossInGrid` | megaverse/patterns.py:7-15 | For an odd size of at least 9, every position lies inside the size x size grid. |
| `Patterns.CrossOfEleven` | tests/test_cross_pattern.py:7-28 | For the default size 11, the position set is the one the test expects. |
| `CrossPattern.CreateCrossPattern` | challenge1_cross.py:8-20 | There is one `create_astral_object` call per generated object, in generation order, 13 in all, each with a Polyanet. The exception handler lets the loop go on whatever a call does, so the model takes no outcomes. |

## Left out

- The HTTP client `MegaverseAPI` (megaverse/api.py) is not part of this model. Its calls are the `Call` values of a trace, and what they do is the outcome sequence.
- The tests' mocks give each API method its own list of side effects. The model uses one outcome sequence in global call order, which is the same thing once the calls are interleaved.
- `time.sleep` pacing and `retry_delay` are left out: they wait, and they change no outcome.
- Progress output (`print`), `load_dotenv`, environment lookups and the `main` functions are left out.
- `PatternGenerator.generate_logo` (megaverse/patterns.py:37-65) is left out: it fetches from the network.
- The dataclasses `Polyanet`, `Soloon` and `Cometh` (megaverse/models.py:9-21) are left out: none of the modelled code uses them.
- JSON encoding of log lines is left out. The log holds the records themselves, so a line that fails to decode, or lacks `row`, `column` or `type`, does not arise.
- `Lower` covers ASCII letters only. Python's `str.lower` also folds other Unicode letters, but no label in the vocabularies needs that.
- `CreateObjectsFromGoal` does not model the dry run's printing. Printing `obj['color'].upper()` would raise KeyError on a SOLOON without a color, but parsed records always carry one.
- The inner loop bodies are separate methods (`AppendCell`, `ParseRowCells` and `DeleteWithRetries`). This follows the source's branches one for one, and only the nesting differs.
- Integer widths: Python integers are unbounded, as Dafny's are. `size // 2` and `size % 2` agree with Dafny's `/` and `%` for the divisor 2, negative sizes included.
