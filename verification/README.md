# q-logic work-distribution core in Dafny

This project models the back end of q-logic, a work-distribution system for a
contact centre. Data sources are provisioned as tables of records. Their
records are queued. Agents reserve, complete and skip records, and move
through the states AVAILABLE, IN_TASK, BREAK and WRAP_UP. Supervisors read
handle-time and queue analytics.

Each Python service becomes one Dafny module of pure state transformers over
immutable datatypes:

- `Queue` (queue.dfy) is the record queue: enqueue, reserve-next, complete,
  skip, stats and depth.
- `Employees` (employees.dfy) is the employee state engine and its task
  ledger.
- `Analytics` (analytics.dfy) holds team AHT, the state distribution, the
  leaderboard and the all-source queue statistics.
- `Provisioning` (provisioning.dfy) holds identifier sanitising, the table
  name, the type whitelist and the column-definition plan.
- `Inference` (inference.dfy) holds the type lattice, the primary-key
  heuristic, display-name slugging and the sampling loop.
- `DataLoader` (data_loader.dfy) holds converters, header matching, row
  acceptance, the capped error list and batching.
- `Workspace` (workspace.dfy) holds screen-pop URL resolution.
- Support modules:
  - `Wrappers` provides Option and Result.
  - `Text` provides the Python string builtins the services use: `strip`,
    `lower`, `upper`, `replace` and `re.sub` runs.
  - `Sources` provides the registry's source and column rows.
  - `Parsers` provides the foreign parsers as parameters.

Modelling conventions:

- Rows that the database identifies by UUID are positions in append-only
  sequences. The core never deletes a row.
- The clock is a `now: nat` argument in seconds.
- A transaction is one function call, so callers that race under row locks
  are modelled as a serial order of calls.
- `int()`, `float()` and `dateutil.parser.parse` are total functions that
  callers supply (`Parsers.Parsers`). Every property holds whatever they
  accept.
- AHT is a pair of total seconds and count. The Python float average appears
  only as `Employees.AverageSeconds`, over reals.

## Model

| member | source | states |
|---|---|---|
| Queue.FreshIds | backend/app/services/queue_manager.py:24-45 | the ids to queue are exactly the table ids not already queued for the source, without repeats when the table ids have none |
| Queue.Enqueue | backend/app/services/queue_manager.py:13-49 | existing entries are kept as they are; the new entries are PENDING, priority 0, stamped `now`, and are exactly the table ids not yet queued for the source; the count is the number of new entries |
| Queue.EnqueueIdempotent | backend/app/services/queue_manager.py:17-37 | a second enqueue of an unchanged table adds nothing and returns 0 |
| Queue.EnqueuePreservesUniqueness | backend/app/services/queue_manager.py:35-47 | with table ids a primary key, enqueue keeps (source, record id) unique |
| Queue.EnqueueCount | backend/app/services/queue_manager.py:24-49 | the returned count is the number of distinct table ids not yet queued |
| Queue.NewEntriesCount | backend/app/services/queue_manager.py:35-45 | one new entry per distinct table id that is not yet queued |
| Queue.PickNext | backend/app/services/queue_manager.py:62-69 | finds a PENDING entry of the source that ranks at least as high as every other: higher priority first, then older creation time; none exactly when no entry is PENDING |
| Queue.ReserveNext | backend/app/services/queue_manager.py:52-85 | no entry exactly when the source has nothing PENDING, and then the store is unchanged; otherwise a best-ranked PENDING entry becomes ASSIGNED to the employee at `now`, and every other entry is untouched |
| Queue.NoDoubleReservation | backend/app/services/queue_manager.py:65-82 | an entry just reserved is never handed out by the next reservation, for any source or employee |
| Queue.StrictlyBestIsReserved | backend/app/services/queue_manager.py:62-69 | an entry that strictly outranks every other PENDING entry of the source is the one reserved |
| Queue.PriorityThenArrivalOrder | backend/app/services/queue_manager.py:62-69 | entries A (priority 5), then B and C (priority 0, B older) are served in the order A, B, C |
| Queue.ReserveLowersDepth | backend/app/services/queue_manager.py:79-82 | each successful reservation lowers the depth by exactly one |
| Queue.ExclusiveReservations | backend/app/services/queue_manager.py:52-85 | with at least K PENDING entries, K callers in turn receive K distinct entries, each PENDING in that source beforehand, and the depth drops by K |
| Queue.DrainedQueueReservesNothing | backend/app/services/queue_manager.py:74-77 | once the callers have drained every PENDING entry, the next caller gets none |
| Queue.Complete | backend/app/services/queue_manager.py:88-97 | an unknown id fails; otherwise the entry becomes COMPLETED at `now` whatever its status was; its assignment and its work stay as they were, and no other entry changes |
| Queue.Skip | backend/app/services/queue_manager.py:100-110 | an unknown id fails; otherwise the entry becomes SKIPPED with its assignment cleared and its completion time kept, and no other entry changes |
| Queue.UpdatesPreserveUniqueness | backend/app/services/queue_manager.py:79-107 | reserve, complete and skip keep (source, record id) unique |
| Queue.CountStatus | backend/app/services/queue_manager.py:117-124 | the number of the source's entries with a given status; zero exactly when there is none |
| Queue.CountStatusUpdate | backend/app/services/queue_manager.py:79-107 | rewriting one entry moves each status count by that entry's old and new contribution only |
| Queue.GroupByStatus | backend/app/services/queue_manager.py:117-129 | the per-status tally matches the status counts, and the four counts add up to the source's size |
| Queue.Stats | backend/app/services/queue_manager.py:113-130 | all four statuses are reported, zero when absent; the total is their sum and equals the number of entries of the source; the pending count is the depth |
| Queue.Depth | backend/app/services/queue_manager.py:133-143 | zero exactly when the source has no PENDING entry |
| Employees.OpenCount | backend/app/services/employee.py:42-55 | counts an employee's open state intervals; zero exactly when there is none |
| Employees.LatestOpen | backend/app/services/employee.py:43-55 | among an employee's open intervals, one with the latest entry time; none exactly when there is no open interval |
| Employees.CreateEmployee | backend/app/services/employee.py:13-21 | the create as the code evidently intends it (see Findings): a duplicate e-mail is refused; otherwise a new AVAILABLE employee is appended with one open AVAILABLE interval from `now`, and nothing else changes |
| Employees.FlushNewEmployee | backend/app/services/employee.py:17-19 | the commit stores the employee and its log iff the e-mail is new and the log carries an employee id; a duplicate e-mail is reported before a missing id, and nothing is stored on either |
| Employees.CreateEmployeeAsWritten | backend/app/services/employee.py:13-21 | as written the create never succeeds: it fails with the duplicate e-mail exactly when the address is taken, and otherwise with the NOT NULL violation of the unlinked log |
| Employees.CreateEmployeeSetsTheId | backend/app/services/employee.py:17 | the intended create is the same commit with the new employee's id set on the initial log |
| Employees.CreateEmployeeAsWrittenFails | backend/app/services/employee.py:17-19 | a fresh e-mail address is accepted by the intended create and refused with the NOT NULL violation as written |
| Employees.CreatePreservesValid | backend/app/services/employee.py:13-21 | the roster invariant holds after a create, and the new interval is the only log of the new employee |
| Employees.Transition | backend/app/services/employee.py:40-63 | closes the latest open interval at `now` (if any) and opens a new one in the new state at the same instant, even for a self-transition; the current state becomes the new state and nothing else changes |
| Employees.ChangeState | backend/app/services/employee.py:33-66 | an unknown employee fails and nothing changes; otherwise the transition above |
| Employees.TransitionPreservesValid | backend/app/services/employee.py:42-63 | with exactly one open interval per employee, in its current state, before the change, the same holds after, and the appended interval is the employee's only open one |
| Employees.TransitionCounts | backend/app/services/employee.py:42-63 | after a transition every employee has exactly one open interval |
| Employees.TransitionStates | backend/app/services/employee.py:58-63 | after a transition every open interval is in its employee's current state |
| Employees.OtherOpenUnchanged | backend/app/services/employee.py:43-52 | a transition closes no other employee's interval |
| Employees.ChangeStatePreservesValid | backend/app/services/employee.py:33-66 | change_state keeps the roster invariant |
| Employees.AssignTask | backend/app/services/employee.py:69-88 | an unknown employee fails; otherwise an open task is appended; the employee moves to IN_TASK with a new interval unless already IN_TASK, in which case no interval is logged |
| Employees.CompleteTask | backend/app/services/employee.py:91-104 | an unknown task fails; otherwise the task is stamped completed at `now`, again if it already was, and its employee moves to WRAP_UP whatever the previous state |
| Employees.AssignAndCompletePreserveValid | backend/app/services/employee.py:69-104 | assign_task and complete_task keep the roster invariant |
| Employees.CompleteKnownTaskSucceeds | backend/app/services/employee.py:91-104 | in a valid roster, completing a known task never fails |
| Employees.HandleTime | backend/app/services/employee.py:115-126 | the AHT aggregate counts only completed tasks that pass the employee and source filters; zero seconds over zero tasks when none pass |
| Employees.AverageSeconds | backend/app/services/employee.py:116-135 | the mean times the count gives the total; zero when nothing was counted |
| Employees.GetAht | backend/app/services/employee.py:107-137 | an unknown employee fails; otherwise the employee's completed tasks are counted, optionally in one source only, and zero when none match |
| Employees.HandleTimeIgnoresOpenTask | backend/app/services/employee.py:120-123 | an open task adds nothing to any handle time |
| Employees.HandleTimeComplete | backend/app/services/employee.py:93-100 | completing an open task that passes the filters adds exactly its duration and one to the count; any other filter sees no change |
| Employees.AssignTaskKeepsAht | backend/app/services/employee.py:69-88 | assigning a task changes nobody's handle time |
| Employees.CompleteTaskAddsToAht | backend/app/services/employee.py:91-104 | completing an employee's open task raises that employee's count by one and total by the task's duration |
| Employees.AhtOfTwoTasks | backend/app/services/employee.py:111-136 | two completed tasks of 60 and 120 seconds give 180 seconds over 2, an average of 90 |
| Analytics.TeamAht | backend/app/services/analytics.py:12-31 | counts only completed tasks, optionally in one source; zero seconds over zero tasks when none match |
| Analytics.TeamAhtIsSumOfAgents | backend/app/services/analytics.py:16-31 | with every task owned by a known agent, the team figure is the sum of the per-agent figures |
| Analytics.TeamAhtAddsUp | backend/app/services/analytics.py:12-31 | in a valid roster the team AHT is the sum over the agents |
| Analytics.InState | backend/app/services/analytics.py:34-45 | the number of employees in a state; zero exactly when nobody is in it |
| Analytics.Tally | backend/app/services/analytics.py:36-45 | the GROUP BY tally gives each state its head count, and the four add up to the number of employees |
| Analytics.StateDistribution | backend/app/services/analytics.py:34-45 | all four states are present, zero-filled; the total equals the number of employees |
| Analytics.InStateUpdate | backend/app/services/analytics.py:36-45 | one employee's change moves one head from the old state to the new |
| Analytics.ChangeStateShiftsDistribution | backend/app/services/analytics.py:34-45 | after change_state the total is unchanged, the new state has at least one agent, and every state's count shifts by exactly the one move |
| Analytics.Insert | backend/app/services/analytics.py:72-74 | inserting into a ranking keeps it ranked and adds exactly the new row |
| Analytics.Rank | backend/app/services/analytics.py:72-74 | orders rows by task count, highest first, as a permutation of the input; ties may come in any order |
| Analytics.RankKeepsDistinct | backend/app/services/analytics.py:72-74 | ranking keeps one row per agent |
| Analytics.JoinedRows | backend/app/services/analytics.py:52-70 | the outer join gives one row per employee without a source filter; with one, exactly the employees with a completed task in that source |
| Analytics.Leaderboard | backend/app/services/analytics.py:48-86 | rows are ranked by task count and name each agent at most once; without a filter every employee has a row, idle ones with zero; with a filter exactly those with a completed task in the source; each row's figures are what get_aht reports |
| Analytics.SourceTally | backend/app/services/analytics.py:100-120 | each source's total is the sum of its four status counts |
| Analytics.SourceTallyIsStats | backend/app/services/analytics.py:100-120 | the per-source tally agrees with get_queue_stats for that source |
| Analytics.AllQueueStats | backend/app/services/analytics.py:89-122 | one row per source, in registry order, with its id and name; each row carries exactly the counts `get_queue_stats` reports for that source: pending, assigned, completed and skipped entries and their total |
| Analytics.EmptySourceReportsZeros | backend/app/services/analytics.py:100-120 | a source with no queue entries reports all zeros |
| Provisioning.Slug | backend/app/services/provisioning.py:27 | the slug holds only identifier characters, has no underscore at either end and none twice in a row, and keeps every letter and digit of the lower-cased name, in order |
| Provisioning.SlugHead | backend/app/services/provisioning.py:27-28 | the slug is empty exactly when the name has no letter or digit; otherwise it starts with the first one |
| Provisioning.SlugValid | backend/app/services/provisioning.py:22-28 | the slug matches `^[a-z][a-z0-9_]*$` exactly when the name's first letter or digit exists and is a letter |
| Provisioning.TruncationKeepsValid | backend/app/services/provisioning.py:30 | cutting a valid identifier short keeps it valid |
| Provisioning.Sanitize | backend/app/services/provisioning.py:25-30 | refuses names with no letter or digit, or whose first one is a digit; otherwise a valid identifier of at most 63 characters with no doubled underscore, whose letters and digits begin the name's own, and are all of them for names of at most 63 characters |
| Provisioning.LongNamesFillTheLimit | backend/app/services/provisioning.py:30 | a name with at least 63 letters and digits, starting with a letter, sanitises to exactly 63 characters |
| Provisioning.SanitizeRefusesLeadingDigit | backend/app/services/provisioning.py:28-29 | "123abc" is refused |
| Provisioning.SanitizeRefusesNoAlphanumerics | backend/app/services/provisioning.py:28-29 | "!!!" and the empty name are refused |
| Provisioning.SanitizeAcceptsHelloWorld | backend/app/services/provisioning.py:25-30 | "Hello World" gives "hello_world" |
| Provisioning.TwoWords | backend/app/services/provisioning.py:27 | two words of lower-case letters and digits joined by a space become the two words joined by one underscore |
| Provisioning.Prefixed | backend/app/services/provisioning.py:34 | "src_" in front of a valid identifier is still valid, and the identifier follows the prefix unchanged |
| Provisioning.MakeTableNameAsWritten | backend/app/services/provisioning.py:33-34 | refuses as the sanitiser does; otherwise "src_" and the whole sanitised name, which can run to 67 characters |
| Provisioning.TableNameTooLong | backend/app/services/provisioning.py:33-34 | a 70-letter project name yields a 67-character table name, longer than the registry's 63 |
| Provisioning.TableName | backend/app/services/provisioning.py:33-34 | refuses as the sanitiser does; otherwise a valid "src_" name of at most 63 characters whose tail is a prefix of the sanitised name, and equal to the as-written name when that fits |
| Provisioning.Lookup | backend/app/services/provisioning.py:59 | `dict.get`: a value exactly when some pair has the key, and then that pair's value |
| Provisioning.SqlType | backend/app/services/provisioning.py:13-19 | accepts a type exactly when its upper case is a key of the whitelist, and then gives one of the whitelisted SQL types; refuses any other |
| Provisioning.SqlTypeKeys | backend/app/services/provisioning.py:13-19 | exactly STRING, INTEGER, FLOAT, BOOLEAN and DATE are accepted, in any case, mapping to TEXT, BIGINT, DOUBLE PRECISION, BOOLEAN and TIMESTAMP |
| Provisioning.SqlTypeIgnoresCase | backend/app/services/provisioning.py:59 | lower-casing a type name changes neither acceptance nor the SQL type |
| Provisioning.InferredTypesAreProvisionable | backend/app/services/provisioning.py:13-19 | every type that inference proposes is on the whitelist |
| Provisioning.CheckColumn | backend/app/services/provisioning.py:57-66 | a column is accepted exactly when its name sanitises and its type is whitelisted, the name checked first; an accepted column gets a valid identifier, a whitelisted type, and a registry row with the upper-cased type |
| Provisioning.PlanColumns | backend/app/services/provisioning.py:54-66 | accepted exactly when every column is; then the id column comes first, followed by one definition per column in order, plus one registry row per column; otherwise the first refusal |
| Provisioning.PlanWith | backend/app/services/provisioning.py:54-66 | the column-definition loop for any per-column check: all or the first refusal |
| Provisioning.PlanIsSafe | backend/app/services/provisioning.py:54-68 | every definition after the id column has a valid identifier and a whitelisted type |
| Provisioning.PlanTable | backend/app/services/provisioning.py:51-66 | the table name is checked first, then the columns in order; the first refusal is the result; an accepted plan carries the table name cut to fit 63 characters (`TableName`) and the column part |
| Inference.CountWhere | backend/app/services/inference.py:57-69 | counts the elements that pass; zero exactly when none does, the length exactly when all do |
| Inference.InferType | backend/app/services/inference.py:51-73 | an empty sample is STRING; BOOLEAN exactly when every value is a boolean token; INTEGER, FLOAT or DATE only when their tests pass (DATE at 60%); STRING on a non-empty sample means fewer than 60% dates |
| Inference.InferTypeOrder | backend/app/services/inference.py:57-73 | read downwards, each type is chosen exactly when every type above it fails and its own test passes |
| Inference.MostlyDatesInIntegers | backend/app/services/inference.py:69-71 | the 60% date test is exactly `5 * dates >= 3 * values` |
| Inference.RatioThreshold | backend/app/services/inference.py:70 | `d / n >= 0.6` exactly when `5 d >= 3 n` |
| Inference.ZeroAndOneAreBoolean | backend/app/services/inference.py:19-24 | "0" and "1" are boolean tokens |
| Inference.ZeroOneColumnIsBoolean | backend/app/services/inference.py:57-58 | a column of zeros and ones is BOOLEAN, not INTEGER |
| Inference.CardinalityIsDistinctness | backend/app/services/inference.py:90 | `len(values) == len(set(values))` holds exactly when no value repeats |
| Inference.PrimaryKeyCandidateMeaning | backend/app/services/inference.py:85-91 | a candidate exactly when the lower-cased name holds a hint and the values are pairwise distinct and none is blank |
| Inference.AccountIdHasHint | backend/app/services/inference.py:87-89 | "account_id" carries the hint "id" |
| Inference.SplitCamelInsertsSpaces | backend/app/services/inference.py:81 | camel splitting inserts exactly one space inside every lower-case-then-upper-case pair and nothing else: the length grows by the number of pairs, every character keeps its order, and a space follows the lower-case letter of each pair |
| Inference.Title | backend/app/services/inference.py:82 | `str.title`: a letter is upper-cased exactly when no letter precedes it, otherwise lower-cased; other characters stay |
| Inference.TitleShape | backend/app/services/inference.py:82 | title-casing keeps letters letters and makes a letter capital exactly at the start of a word |
| Inference.Slugify | backend/app/services/inference.py:76-82 | a display name has no underscore or hyphen, no space at either end, and each word starts with a capital; with its spaces removed it is the name without underscores, hyphens and spaces, up to letter case |
| Inference.SlugifyStages | backend/app/services/inference.py:79-82 | after the dash runs, the camel split and the strip, the text has no dash and no padding |
| Inference.SnakeCaseDisplayName | backend/app/services/inference.py:79-82 | two lower-case words joined by "_" give the two words capitalised, joined by a space |
| Inference.CamelCaseDisplayName | backend/app/services/inference.py:81-82 | a lower-case word followed by a capitalised one gives the two words capitalised, joined by a space |
| Inference.FirstNameDisplay | backend/app/services/inference.py:76-82 | "first_name" gives "First Name" |
| Inference.LastNameDisplay | backend/app/services/inference.py:76-82 | "lastName" gives "Last Name" |
| Inference.InferSchema | backend/app/services/inference.py:94-128 | samples min(rows, max_rows) rows, none when max_rows is not positive; proposes one column per header, in header order, each inferred from its header's sample |
| Inference.SampleRow | backend/app/services/inference.py:110-113 | each header position adds the row's stripped, non-empty cell to that header's sample |
| Inference.SamplesAreStripped | backend/app/services/inference.py:111-113 | every sampled value is non-empty with no whitespace at either end |
| Inference.SamplesOfHeader | backend/app/services/inference.py:105-113 | a header that appears once is sampled from exactly its non-empty cells; a name that is not a header has an empty sample |
| Inference.RowSamplesRepeat | backend/app/services/inference.py:110-113 | a header repeated in the header row adds its cell once per position |
| Inference.NoSampleIsString | backend/app/services/inference.py:116-126 | with no sampled rows every column is STRING, and the key flag rests on the name hint alone |
| Parsers.NumericText | backend/app/services/data_loader.py:24-35 | the text handed to `int()` and `float()` is the stripped value with every comma removed and every other character kept in order |
| DataLoader.ConverterFor | backend/app/services/data_loader.py:52-58 | picks the integer, float, boolean or timestamp converter for exactly its type name, case-sensitively, and text for any other |
| DataLoader.ToBooleanValue | backend/app/services/data_loader.py:38-44 | true exactly for the five true tokens and false exactly for the five false tokens, ignoring case and surrounding whitespace |
| DataLoader.ToBooleanAgrees | backend/app/services/data_loader.py:38-44 | the loader reads a value as boolean exactly when inference calls it boolean, with the same true and false tokens |
| DataLoader.ConvertAgreesWithInference | backend/app/services/data_loader.py:20-51 | each converter accepts exactly the values that the matching inference test accepts |
| DataLoader.InferredTypeLoadsSample | backend/app/services/data_loader.py:20-51 | a column whose inferred type is not DATE loads every value of the sample it was inferred from |
| DataLoader.RecordError | backend/app/services/data_loader.py:71-74 | every failure is counted; its message is kept only while fewer than 50 are stored |
| DataLoader.Capped | backend/app/services/data_loader.py:72 | at most 50 errors, a prefix of the full list |
| DataLoader.RecordingKeepsFirstFifty | backend/app/services/data_loader.py:71-74 | recording failures one by one from a fresh result counts all of them and keeps the first 50 messages |
| DataLoader.RecordCapped | backend/app/services/data_loader.py:72-73 | one more failure extends the kept list exactly when it has room |
| DataLoader.LocalSanitize | backend/app/services/data_loader.py:126-128 | the loader's sanitiser yields at most 63 characters |
| DataLoader.LocalSanitizeAgrees | backend/app/services/data_loader.py:126-128 | agrees with provisioning on every name it accepts; on any other name the result is not a valid identifier |
| DataLoader.IdentifierWordSanitizesToItself | backend/app/services/data_loader.py:126-128 | a lower-case identifier word of at most 63 characters sanitises to itself in both sanitisers |
| DataLoader.ColumnLookup | backend/app/services/data_loader.py:130-133 | maps exactly the physical names of the columns, each to a column bearing that name |
| DataLoader.LookupKeepsLast | backend/app/services/data_loader.py:130-133 | a later column with the same physical name replaces an earlier one |
| DataLoader.Matches | backend/app/services/data_loader.py:140-153 | every header whose key names a column is matched once, to that column, and nothing else is matched; the matches follow the headers' first appearances, as the dictionary's insertion order does |
| DataLoader.MatchMeansSameIdentifier | backend/app/services/data_loader.py:140-145 | a header loads into a provisioned column exactly when provisioning would sanitise it to that column's physical name |
| DataLoader.ConvertRow | backend/app/services/data_loader.py:164-185 | a row converts exactly when every mapped cell does, the parameters are then in header order; otherwise the error names the first failing cell by position, header, text and the type of the column it was meant for |
| DataLoader.CellOutcome | backend/app/services/data_loader.py:170-175 | a blank cell is NULL without its converter; any other cell is accepted exactly when its converter reads it |
| DataLoader.RowAcceptance | backend/app/services/data_loader.py:164-188 | a row is accepted exactly when every non-blank mapped cell converts |
| DataLoader.Outcomes | backend/app/services/data_loader.py:164-188 | one outcome per data row, in file order |
| DataLoader.EveryRowCounted | backend/app/services/data_loader.py:164-190 | every row is either accepted or rejected |
| DataLoader.LoadCsvInBatches | backend/app/services/data_loader.py:186-200 | with `BATCH_SIZE` = 500 every flushed batch holds 1 to 500 rows and the loaded rows take ceil(loaded / 500) flushes |
| DataLoader.BatchCount | backend/app/services/data_loader.py:190-200 | full batches and a final partial one number the row count over the batch size, rounded up |
| DataLoader.FlushSize | backend/app/services/data_loader.py:192 | `len(batch) >= BATCH_SIZE` fires at a positive size no smaller than the batch size |
| DataLoader.LoadOutcomes | backend/app/services/data_loader.py:164-197 | the flushed rows are the accepted rows in file order; loaded plus failed is the number of rows; the kept errors are the first 50 failures; no batch is empty or over the batch size, and all but the last are full |
| DataLoader.FlushRest | backend/app/services/data_loader.py:196-198 | the final flush completes the accounting that the loop invariant carries |
| DataLoader.LoadCsv | backend/app/services/data_loader.py:140-200 | with no matching header, 0 loaded, 0 failed and the one error; otherwise the flushed rows are the accepted rows, loaded plus failed is the number of rows whatever the batch size, the kept errors are the first 50 failures, and no batch is over the batch size; a rejected row's error names the type of the column its failing header was matched to |
| DataLoader.ErrorTypeAsWritten | backend/app/services/data_loader.py:177-181 | the type named in an error, as written: the column at the failing header's position among the matched headers, and none (IndexError) past the last column |
| DataLoader.ErrorNamesAnotherColumnsType | backend/app/services/data_loader.py:177-181 | against columns name (STRING) and active (BOOLEAN), a CSV holding only `active` with "maybe" fails on BOOLEAN, yet the message names STRING |
| DataLoader.ErrorTypeLookupOverruns | backend/app/services/data_loader.py:177-181 | two headers sanitising to one BOOLEAN column: a failure on the second looks up a column that does not exist |
| DataLoader.FlagHeadersCollide | backend/app/services/data_loader.py:126-128 | "flag" and "Flag" both sanitise to "flag" |
| Workspace.FirstUniqueColumn | backend/app/services/workspace.py:63-67 | the first column flagged as the unique id, by position; none exactly when no column is flagged |
| Workspace.ValueText | backend/app/services/workspace.py:72-73 | a missing column gives "", NULL gives "None", and any other value is its text |
| Workspace.ResolveScreenPopUrl | backend/app/services/workspace.py:55-73 | no link exactly when the template is absent or empty or no column is flagged; otherwise the template with every placeholder replaced by the first flagged column's value |
| Workspace.UniqueValue | backend/app/services/workspace.py:63-72 | a value exactly when some column is flagged |
| Workspace.TemplateWithoutPlaceholderUnchanged | backend/app/services/workspace.py:73 | a template without `{unique_id}` is the link unchanged, whatever the record holds |
| Workspace.LinkLength | backend/app/services/workspace.py:73 | each placeholder trades its 11 characters for the value's |
| Workspace.LinkDiffersWhenPlaceholderPresent | backend/app/services/workspace.py:73 | a template holding the placeholder yields a different link unless the value is the placeholder itself |
| Workspace.EveryPlaceholderFilled | backend/app/services/workspace.py:73 | a template written as literal pieces around placeholders, with no other brace, yields those pieces around the value |

## Left out

- Database I/O is not modelled: sessions, commits, refreshes, raw SQL, the DDL run by `provision_table`, the registry inserts and the batch INSERTs. The flushed batches are returned instead.
- Concurrency is not modelled. `FOR UPDATE SKIP LOCKED` is a serial order of reservations (`Queue.ReserveEach`).
- Clocks are a `now` argument in whole seconds. UUIDs are positions in append-only sequences.
- CSV decoding is not modelled: `csv.DictReader` and `utf-8-sig`. Rows are maps from header to cell, and a missing cell reads as "".
- `int()`, `float()` and `dateutil.parser.parse` are foreign code. They are supplied as total functions; floats are bit patterns and timestamps are microseconds.
- Floating-point averages are not modelled: AHT is integer seconds over a count. `Employees.AverageSeconds` is a real number.
- `str.lower`, `str.upper` and `str.title` are modelled on ASCII letters only, because Unicode case tables are out of scope.
- The record fetch functions and project listing in workspace.py are not modelled, because they are database reads. `Workspace.ValueText` takes each value's `str()` text as given, and rendering non-text values is left to the caller.
- Authentication, routes, middleware, configuration and the Angular front end are not modelled: they are transport and UI.
- Employees.CreateEmployee: the source builds the initial log from `emp.id` while it is still None, because the `uuid.uuid4` default is applied only at flush. `employee_state_logs.employee_id` is NOT NULL, so the commit fails and nothing is stored (see Findings). The model creates the employee and its log, as the code evidently intends; `Employees.CreateEmployeeAsWritten` gives the source's outcome.
- Queue.Complete: `complete_record` sets only the status and `completed_at` (queue_manager.py:93-94), so the assignment stays. `skip_record` clears only the assignment (queue_manager.py:105-107), so a completion time stays. These fields do not follow the status, and the model promises no such tie.
- Queue.EnqueuePreservesUniqueness: the unique index on (source, record id) exists only in the migration. It is stated as a model invariant that assumes distinct table ids.
- Provisioning.PlanColumns: two columns that sanitise to the same physical name are accepted here. The database would refuse the duplicate column; that refusal is not modelled.
- Provisioning.PlanTable: the plan names the table with `Provisioning.TableName`, which cuts the name to 63 characters. `provision_table` uses `_make_table_name`, which does not cut it, so a project name whose sanitised form is longer than 59 characters gets a longer name there (see Findings). `Provisioning.MakeTableNameAsWritten` gives the source's name.
- Analytics.AllQueueStats: rows follow the order of the given source list, while the SQL query promises no order.
- DataLoader.LoadCsv: when a source arrives with no columns loaded, the loader re-reads its columns first. That re-read is not modelled; the columns are a parameter.
- DataLoader.LoadCsv: the error of a rejected row names the type of the column the failing header was matched to. The source names `source.columns[i].data_type`, where `i` counts matched headers, so it can name another column's type or raise IndexError (see Findings). The model loads with the corrected type; `DataLoader.ErrorTypeAsWritten` gives the source's.

## Findings

| source | as written | input that shows it | evidently intended | confidence | as-written member | corrected member |
|---|---|---|---|---|---|---|
| backend/app/services/provisioning.py:33-34 | the table name is "src_" and the sanitised name of up to 63 characters, up to 67 in total | a project name of 70 letters gives a 67-character table name, but the registry column `table_name` is String(63) and PostgreSQL truncates identifiers to 63 | a table name of at most 63 characters | not executed | Provisioning.MakeTableNameAsWritten, Provisioning.TableNameTooLong | Provisioning.TableName |
| backend/app/services/data_loader.py:169-181 | the error message's type is `source.columns[i].data_type`, where `i` is the position among the matched headers, not among the columns | columns name (STRING) then active (BOOLEAN) and a CSV holding only `active` = "maybe": the message says STRING; two headers "flag" and "Flag" against one BOOLEAN column `flag`, "" then "maybe": IndexError | the type of the column the failing header was matched to | not executed | DataLoader.ErrorTypeAsWritten, DataLoader.ErrorNamesAnotherColumnsType, DataLoader.ErrorTypeLookupOverruns | DataLoader.ConvertRow |
| backend/app/services/employee.py:17 | the initial state log is built with `employee_id=emp.id` before the session has flushed the employee, so the id is still None | any call with a fresh e-mail: the log's `employee_id` is NULL, the column is NOT NULL (models/employee.py:54, alembic/versions/001_initial_schema.py:95-100), and the commit fails | the log carries the new employee's id | not executed | Employees.CreateEmployeeAsWritten, Employees.CreateEmployeeAsWrittenFails | Employees.CreateEmployee |
