# Verified model of the database component

A Dafny 4.11 model, with machine-checked proofs, of the database component of llbc_comps and of the
inline code in the vendored MySQL headers it builds on.

| file | models |
|---|---|
| `CText.dfy` | C strings, `snprintf` (section 7.21.6.5 of ISO/IEC 9899:2011), decimal text, fixed-width integers |
| `Escape.dfy` | `mysql_escape_string` and `mysql_real_escape_string` (section 9.1.1 of the MySQL 5.7 Reference Manual) |
| `Fields.dfy` | column types, `FieldFactory::CreateField`, integer conversions |
| `SqlText.dfy`, `SqlUtil.dfy` | the statement text as functions, and `SqlUtil` writing it through character buffers |
| `WorkBuffer.dfy`, `WholeText.dfy` | the single-pass sizing of the work buffer, and when it leaves the text whole |
| `SqlParser.dfy`, `SqlRoundTrip.dfy` | a reader of SQL statements, print/parse round trips |
| `SqlReading.dfy`, `CutList.dfy` | what the statements that are sent read as, whole or cut by their buffers |
| `SqlMeaning.dfy`, `EndToEnd.dfy` | execution on an abstract table; building, reading and executing in one call |
| `TaskQueue.dfy`, `AsyncTaskQueue.dfy` | the task queue as an interleaved machine of any number of threads, and its operations run alone |
| `QueueCalls.dfy` | the machine against the calls that are made: what is pushed, who sleeps, when nothing is returned |
| `QueueProgress.dfy` | that the queue's operations come to an end with nobody asleep on a task |
| `AsyncFlush.dfy`, `AsyncDestroy.dfy` | `MysqlDB::Flush` and the end of `MysqlDB::Destroy` against the worker threads |
| `DbManager.dfy` | `DBMgr`: the registry of databases |
| `RwLock.dfy` | the Windows reader/writer lock and its flag, interleaved and run alone |
| `SkipSpace.dfy` | both variants of `skip_trailing_space` |
| `ByteOrder.dfy` | little-endian stores and loads |
| `Timespec.dfy` | deadlines in 100 ns units, nanoseconds and milliseconds |

`dafny verify dfyconfig.toml` checks everything.

## How the parts fit

**Statements.** A record is a table name, a sequence of fields and two key indexes. The methods of
`SqlUtil` are proved to leave exactly the text that the functions of `SqlText` describe, cuts
included. The reader in `SqlParser` is written from the SQL grammar, with WHERE and the row limit
optional and a bare column as a condition, but without boolean operators. `SqlMeaning` executes what it
reads: the printed update sets exactly the record's changed columns in the record's row, for every
record and every table with a unique key, when the text is whole and the key literal is faithful. Both
conditions are exact: `OperationWholeExact`, `ConditionFaithfulExact`, `UpdateTextMeansExact`,
`InsertTextMeansExact`, `DeleteTextMeansExact`. A record whose fields pass simple field-by-field
conditions meets them (`ModestRecordsAreWhole`). `EndToEnd` runs builder, reader and execution on one
record, with the key column named by the record's own indexes.

**Queue.** A state is the lock owner, the queued tasks, each thread's position and the history of
completed critical sections. One label is one atomic step of one thread; a run is any sequence of
labels. Four invariants are kept by every step: lock ownership, results, the FIFO history and the
wake-up count. Testing for work and taking it are separate steps under the lock, so between the two the
wake-up count includes the one lock holder that has tested; with the lock free it is pushers yet to
notify plus roused threads yet to test, and nothing else. `QueueCalls` follows the labels of a run:
every position belongs to its thread's last call, each task is pushed as often as it was passed to a
call, and a timed pop returns nothing only after its wait timed out. A measure that every step of a
running operation decreases shows that the operations come to an end by themselves.

**Flush.** One main thread that pushes and flushes, any number of workers. A worker's drain is one step,
because it is one critical section of the queue.

**Reader/writer lock.** As for the queue. A release that does not match what the caller holds would set
`broken`; it is proved that no run sets it.

Calls that can leave defined behaviour carry that as their precondition (`Workable`, `FormatSafe`):
the staging array of a string and the unbounded escape of a blob must stay inside their arrays, and
the work buffer must have a positive size that fits an int.

## Where code and comments differ, or the code falls short of its purpose

- The guard `keyIdx < 0 && keyIdx >= fieldNum` (SqlUtil.cpp:44, 151) compares a sint32 with a uint32, so a
  negative index counts as large and the guard does refuse a record without a key column:
  `SqlText.KeyRejectedExact`.
- The sizing loop doubles a column length only when it exceeds the running maximum, so a later, longer
  column can be cut: `SizingCanCut`; exactly when: `OperationWholeExact` for a record,
  `SchemaWholeByLengths` for a schema.
- Doubling a length of 2^30 or more leaves 32 bits. The running maximum covers every string and blob
  column if and only if that never happens, as long as numeric columns are narrow:
  `SizingCoversExact`. For the largest blob length the buffer has 126 bytes: `LongBlobBuffer`.
- The staging array of a string has no room for the terminator when every byte needs escaping:
  `StagingArrayExact`.
- `MysqlDB::Flush` can return before a task pushed earlier has been executed, because a worker's
  test `Empty()` reads a counter that no operation updates and so never holds it back:
  `PushAfterTimeoutIsMissed`; exactly when: `FlushExact`. Calling it twice is enough:
  `SecondFlushCompletes`.
- A delete that does not fit its buffer is sent cut. Depending on where the cut falls it deletes all
  rows, the rows whose key is not zero, the row of a shorter number, or nothing: `CutDeleteReads`,
  `CutToTableDeletesAll`. With a number key that takes names far beyond 64 characters: `NumberKeysFit`.
- `MysqlDB::Destroy` sets its stop flag before it clears its counter: a worker that leaves in between is
  not counted, and the wait never ends: `DestroyReturnsExact`, `DestroyCanHang`.
- A record whose key column is itself changed updates the row that already has the new key, if any:
  `UpdateMeaning`, `UpdateMissingRow`.
- The key value in the WHERE clause is not escaped and an unsigned key is printed as signed, so a record
  can be taken for another: `KeyReadsAs`, `DoubledQuoteReadsAs`, `OtherRowMeant`,
  `HugeKeyUpdatesNothing`; exactly when: `ConditionFaithfulExact`.
- The initialisation loop never ends by its test when the configured number is the largest uint32; it
  then always returns false: `Config.Accepted` and `OnInitialize`.

## Model

| member | source | states |
|---|---|---|
| Escape.EscapeTextFacts | comps/database/src/SqlUtil.cpp:80-84 | for every byte string the escaped text has one extra byte per special byte, no NUL, newline, carriage return or Ctrl-Z, and no quote a reader would stop at, so `%s` and `<<` never cut it |
| Escape.EscapeTable | comps/database/src/SqlUtil.cpp:80-84 | seven bytes have an escape sequence of two characters, each its own, and every other byte stands for itself |
| Escape.StagingArrayExact | comps/database/src/SqlUtil.cpp:80-83 | the staging array of twice the length holds text and terminator if and only if some byte is not special |
| Escape.EscapeInto | comps/database/src/SqlUtil.cpp:131-135 | writes exactly the escaped text and a NUL at the offset, keeps what is before it, returns the length |
| SqlParser.EscapeRoundTrip | comps/database/src/SqlUtil.cpp:83-84 | an escaped string between quotes reads back as itself, for every byte string |
| Fields.CreateField | comps/database/src/FieldFactory.cpp:25-102 | an integer column of 1, 2, 4 or 8 bytes gets the class whose values are exactly the integers of that width and sign; every type with a print case gets a class whose getter that case may call; exactly TIMESTAMP and NEWDECIMAL get a class without a print case |
| Fields.NumericTypes | comps/database/src/SqlUtil.cpp:163-164 | a type counts as numeric for the sizing exactly when it is INT24 or YEAR, or the factory stores it as a number and it is neither TIMESTAMP nor NEWDECIMAL |
| Fields.SupportedColumns | comps/database/src/SqlUtil.cpp:65-142 | the printer covers every integer column with any value of its width and sign, and every string and blob column with any bytes |
| Fields.IntegerFidelity | comps/database/src/SqlUtil.cpp:94-125 | every value of the chosen C++ integer type survives widening to sint64, the cast and the decimal text, for 32-bit and 64-bit long and for unsigned values from 2^63 up |
| CText.DecRoundTrip | comps/database/src/SqlUtil.cpp:97-123 | decimal text reads back as its number, whatever non-digit follows |
| CText.Snprintf | comps/database/src/SqlUtil.cpp:213-217 | the buffer's C string is the text cut to size - 1 |
| SqlText.KeyRejectedExact | comps/database/src/SqlUtil.cpp:40-45 | the guard refuses a record if and only if both key indexes are negative; otherwise the index is valid |
| SqlText.KeyChoice | comps/database/src/SqlUtil.cpp:40-45 | the auto-increment column is the key wherever there is one, whatever the key index says; else the key index; else the record is refused |
| SqlText.AssignTextFacts | comps/database/src/SqlUtil.cpp:65-137 | an assignment is a non-empty C string of exactly name + 3 + digits, or name + 5 + bytes + bytes to escape, and an integer's value takes at most 20 |
| SqlText.FormatSafeExact | comps/database/src/SqlUtil.cpp:65-137 | a string stays inside its staging array, and a blob inside the work buffer, exactly when escaped text and NUL fit |
| SqlText.ChangedFieldsMembers | comps/database/src/SqlUtil.cpp:156-169 | the kept fields are exactly the changed ones, and there are none if and only if nothing changed |
| SqlText.ChangedFieldsInOrder | comps/database/src/SqlUtil.cpp:156-169 | the kept fields of two lists one after the other are those of the first, then those of the second |
| WorkBuffer.SizingCovers | comps/database/src/SqlUtil.cpp:154-170 | with doublings in range the maximum is at least every changed string or blob length |
| WorkBuffer.SizingNeverDecreases | comps/database/src/SqlUtil.cpp:163-167 | with doublings in range the maximum never decreases over the loop |
| WorkBuffer.SizingCoversExact | comps/database/src/SqlUtil.cpp:163-167 | the maximum covers every changed string or blob column if no executed doubling leaves 32 bits, and only if, unless a numeric column has a length of 2^30 or more |
| WorkBuffer.WideNumberRecovers | comps/database/src/SqlUtil.cpp:163-167 | with such a numeric column a maximum that wrapped can wrap back over the column it lost |
| WorkBuffer.SizingClosedForm | comps/database/src/SqlUtil.cpp:158-170 | the loop's result is twice the last length that exceeded the running maximum; with none, 20 if there is a number and 0 if not |
| WorkBuffer.LastDoubledSizing | comps/database/src/SqlUtil.cpp:163-167 | if a column exceeds the running maximum and no later one exceeds its double, the result is that double |
| WorkBuffer.SizingBound | comps/database/src/SqlUtil.cpp:163-176 | with lengths up to 2^30 - 65 the maximum is at most max(20, twice the longest) and the buffer size is a positive int |
| WorkBuffer.OrderMatters | comps/database/src/SqlUtil.cpp:164-167 | of two columns in one order the longer is doubled, in the other it is not |
| WorkBuffer.WorkBufferSuffices | comps/database/src/SqlUtil.cpp:154-184 | in any field order, a value within its column with at most 122 - name bytes to escape, and an integer with a name up to 106, is formatted whole; such blobs stay in the buffer |
| WorkBuffer.ModestMeans | comps/database/src/SqlUtil.cpp:175-184 | those conditions are exactly that value and assignment fit beside the slack of 128 |
| SqlUtil.BuildFormatSql | comps/database/src/SqlUtil.cpp:65-142 | the buffer's C string is the field's assignment, cut to the buffer |
| SqlUtil.BuildBlobSql | comps/database/src/SqlUtil.cpp:126-136 | head, escaped bytes and closing quote written behind each other give the whole assignment |
| SqlUtil.CollectChanged | comps/database/src/SqlUtil.cpp:154-170 | the loop gathers exactly the changed fields in index order and their sizing |
| SqlUtil.BuildOperation | comps/database/src/SqlUtil.cpp:144-196 | refused without a key, untouched without changes, else the comma-joined cut assignments of the changed fields |
| SqlUtil.BuildCondition | comps/database/src/SqlUtil.cpp:38-63 | true exactly when one of the two indexes is not negative; the condition is that of the auto-increment field if there is one, else of the key field, unescaped and cut to 1022 characters |
| SqlUtil.BuildUpdateSql | comps/database/src/SqlUtil.cpp:198-220 | false without a key; true and `sql` untouched without changes; else the complete statement for any table, condition and assignment list |
| SqlUtil.BuildDelSql | comps/database/src/SqlUtil.cpp:222-233 | false without a key, else the delete statement cut to 1022 characters |
| SqlUtil.BuildInsertSql | comps/database/src/SqlUtil.cpp:235-253 | true exactly with a key and a change, then the complete statement; else `sql` untouched |
| SqlText.OperationEmptyExact | comps/database/src/SqlUtil.cpp:172-195 | the operation text is empty if and only if no field changed, and is a C string |
| SqlRoundTrip.OperationWholeExact | comps/database/src/SqlUtil.cpp:175-194 | the operation text is complete if and only if every changed assignment's length, in name, digits and bytes to escape, is below the buffer's |
| SqlRoundTrip.OperationRoundTrip | comps/database/src/SqlUtil.cpp:179-195 | complete text parses back to exactly the changed fields, in index order, with their stored values |
| SqlRoundTrip.AssignsRoundTrip | comps/database/src/SqlUtil.cpp:181-193 | joined assignments read back one per field, whatever commas, quotes, backslashes or NULs the values hold |
| SqlRoundTrip.PlainLiteralMeaning | comps/database/src/SqlUtil.cpp:56-60 | a key string is faithful unescaped when it has no quote, no NUL and no backslash except before `%` or `_` |
| SqlRoundTrip.ConditionFaithfulExact | comps/database/src/SqlUtil.cpp:47-61 | the printed condition parses to "key column = key value" if and only if the key is below 2^63 or a plain string, and the text is under 1023 |
| SqlText.ConditionVerbatim | comps/database/src/SqlUtil.cpp:56-60 | a string key stands in the condition byte for byte between two quotes, whatever the bytes |
| SqlRoundTrip.ConditionPrefixExact | comps/database/src/SqlUtil.cpp:51-61 | a prefix of the condition and ` limit 1` that still reads as the key before ` limit 1` is all of it, and the key is faithful |
| WholeText.ModestRecordsAreWhole | comps/database/src/SqlUtil.cpp:144-196 | field-by-field conditions a caller can check give defined behaviour and the whole text |
| WholeText.SchemaWholeExact | comps/database/src/SqlUtil.cpp:154-194 | every permitted value of every changed string and blob column is formatted whole if and only if each column's longest assignment is below the buffer size |
| WholeText.SchemaWholeByLengths | comps/database/src/SqlUtil.cpp:163-184 | the same where some column exceeds the running maximum: the bound is twice the last length that did, plus 128 |
| WholeText.SchemaWholeNoneDoubled | comps/database/src/SqlUtil.cpp:163-184 | the same where none does: the bound is 148 with a number among the columns, 128 without |
| WholeText.SizingCanCut | comps/database/src/SqlUtil.cpp:164-167 | a family of records, each value within its column, whose text the single-pass buffer cuts |
| WholeText.LongBlobBuffer | comps/database/src/SqlUtil.cpp:166-176 | a blob column of length 2^32 - 1 gets 126 bytes, and is written in bounds exactly when it fits them |
| SqlReading.UpdateTextMeans | comps/database/src/SqlUtil.cpp:211-217 | the update statement parses to table, changed fields and key |
| SqlMeaning.UpdateMeaning | comps/database/src/SqlUtil.cpp:198-220 | on a table with a unique key, whatever else the record's row holds, executing the parsed update sets exactly the changed columns of that row and changes no other row; a row that agreed with the record elsewhere then agrees with it everywhere |
| CutList.UpdateTextMeansExact | comps/database/src/SqlUtil.cpp:200-217 | the update parses to the intended statement if and only if no assignment was cut, the key literal is faithful and the condition uncut |
| CutList.InsertTextMeansExact | comps/database/src/SqlUtil.cpp:235-253 | the insert parses to the intended statement if and only if no assignment was cut |
| CutList.OperationReadsExact | comps/database/src/SqlUtil.cpp:172-195 | the operation text parses back to the changed fields if and only if no assignment was cut |
| CutList.CutListReads | comps/database/src/SqlUtil.cpp:175-194 | a cut list reads as the changed fields only before a text with fewer quotes or fewer backticks than the one that followed it |
| SqlMeaning.UpdateMissingRow | comps/database/src/SqlUtil.cpp:198-220 | with no row of that key the update changes nothing |
| SqlMeaning.HugeKeyUpdatesNothing | comps/database/src/SqlUtil.cpp:52-54 | an unsigned key from 2^63 up gives an update that parses and changes no table of unsigned keys |
| SqlMeaning.OtherRowMeant | comps/database/src/SqlUtil.cpp:56-60 | a key whose literal reads as another value updates and deletes the row of that value |
| SqlReading.DeleteWholeExact | comps/database/src/SqlUtil.cpp:228-231 | the delete text is whole if and only if 29 + table + condition is at most 1022 |
| SqlReading.DeleteTextMeansExact | comps/database/src/SqlUtil.cpp:222-233 | with L = 29 + table + condition, the delete that is sent names the record's key if and only if the key can be reached and L is at most 1022 (with its limit), 1029 or 1030 (without) |
| SqlReading.DeleteStaysOnKeyColumn | comps/database/src/SqlUtil.cpp:222-233 | with a faithful key the delete names no other table and no other column, whatever was cut |
| SqlReading.CutDeleteReads | comps/database/src/SqlUtil.cpp:228-231 | any other delete with a faithful key: cut right after the table name it means all rows, after the column name the rows where it is not zero, between the digits of a number that shorter number; cut anywhere else it does not parse |
| SqlReading.KeyReadsAs | comps/database/src/SqlUtil.cpp:47-61 | whatever value the key's literal reads as, the whole update and the whole delete are about that value |
| SqlReading.DoubledQuoteReadsAs | comps/database/src/SqlUtil.cpp:56-60 | the key `a''b` reads as `a'b`, for all plain `a` and `b` |
| SqlReading.NumberKeysFit | comps/database/src/SqlUtil.cpp:52-54 | with identifiers of at most 64 characters a number key is never cut |
| SqlMeaning.DeleteMeaning | comps/database/src/SqlUtil.cpp:222-233 | a delete that is whole, or lacks only its limit, removes exactly the record's row |
| SqlMeaning.CutToTableDeletesAll | comps/database/src/SqlUtil.cpp:228-231 | a delete cut right after its table name deletes every row |
| SqlMeaning.InsertMeaning | comps/database/src/SqlUtil.cpp:235-253 | the insert appends one row holding exactly the changed columns |
| EndToEnd.UpdateRecord | comps/database/src/SqlUtil.cpp:198-220 | for a record identified by its auto-increment field, or by its key field if it has none: the update that is built, read and executed sets exactly the changed columns, in exactly the row with the value of that field |
| EndToEnd.DeleteRecord | comps/database/src/SqlUtil.cpp:222-233 | for such a record the delete removes exactly the row with the value of that field |
| EndToEnd.InsertRecord | comps/database/src/SqlUtil.cpp:235-253 | for such a record the insert appends one row with exactly the changed columns |
| TaskQueue.InvKept | comps/database/src/AsyncTaskQueue.cpp:24-96 | every step of any thread keeps lock ownership, results, FIFO history and wake-up count |
| TaskQueue.NoLostWakeUp | comps/database/src/AsyncTaskQueue.cpp:24-96 | in every reachable state with a sleeper, queued tasks are at most pushers yet to notify, roused threads yet to test, and the one taker; with none of these the queue is empty |
| TaskQueue.RefinesAtomicFifo | comps/database/src/AsyncTaskQueue.cpp:24-96 | in every reachable state the completed operations in lock order are operations of one atomic FIFO; taken, in hand, queued is pushed |
| TaskQueue.EmptyResultOnlyIfEmpty | comps/database/src/AsyncTaskQueue.cpp:40-41 | a null or empty result is fixed only while `_tasks` is empty under that call's lock |
| TaskQueue.LockReleased | comps/database/src/AsyncTaskQueue.cpp:49-76 | a thread outside a critical section, so after any return, does not own the lock |
| QueueCalls.PushedIsCalled | comps/database/src/AsyncTaskQueue.cpp:24-27 | over every run each task is pushed as often as it was passed to `Push`, but for the calls that have not reached the queue yet |
| QueueCalls.CallsFit | comps/database/src/AsyncTaskQueue.cpp:24-96 | over every run each thread is at a position of its last call: its task, its kind, and a wait only for a timed pop |
| QueueCalls.OnlyTimedPopsSleep | comps/database/src/AsyncTaskQueue.cpp:33-38 | only the caller of a timed pop ever sleeps, and only while its wait has not timed out |
| QueueCalls.EmptyTimedPopTimedOut | comps/database/src/AsyncTaskQueue.cpp:38-41 | a timed pop about to return nothing has had its wait time out since it was called |
| QueueCalls.CallOfMeans | comps/database/src/AsyncTaskQueue.cpp:24-96 | the last call of a thread and its timeout, in terms of the labels of the run |
| QueueProgress.NobodySleepsOnATask | comps/database/src/AsyncTaskQueue.cpp:24-96 | from any reachable state, without new calls, timeouts or spurious wake-ups, every run ends within a bound, and where it ends all threads are idle or asleep and, if one sleeps, no task is queued |
| QueueProgress.QuietEndExists | comps/database/src/AsyncTaskQueue.cpp:24-96 | and some such run does come to its end |
| QueueProgress.QuietDecreases | comps/database/src/AsyncTaskQueue.cpp:24-96 | every step of an operation under way decreases one measure of threads and tasks |
| AsyncFlush.FlushExact | comps/database/include/IDB.h:132-133 | a flush (`MysqlDB::Flush`, Database.cpp:147-174) is sure to execute every task pushed before it if and only if each worker, at the call, has nothing queued or has yet to drain its queue |
| AsyncFlush.SecondFlushCompletes | comps/database/include/IDB.h:132-133 | two flushes with no push between them always execute every task pushed before them, whatever the workers do meanwhile |
| AsyncFlush.PushAfterTimeoutIsMissed | comps/database/src/AsyncTaskQueue.cpp:78-101 | a push right after a worker's wait timed out, then a flush: some run returns with the task still queued (`MysqlDB::AsyncWorkFunc`, Database.cpp:326-350) |
| AsyncFlush.FlushCanReturn | comps/database/include/IDB.h:132-133 | from any call some run of the threads lets the flush return (Database.cpp:147-174) |
| AsyncFlush.InvKept | comps/database/src/AsyncTaskQueue.cpp:78-96 | every step of any thread keeps, for each worker, executed then in hand then queued equal to what was pushed, in order (Database.cpp:319-350) |
| AsyncFlush.PushedIsCalled | comps/database/include/IDB.h:132-133 | over any run a worker's record of pushed tasks is what callers pushed to it, in order |
| AsyncFlush.FlagsStayPut | comps/database/include/IDB.h:132-133 | without a flush no worker ever raises or clears its flag (Database.cpp:326-350) |
| AsyncFlush.OneMainThread | comps/database/include/IDB.h:132-133 | outside a flush one can always be started; inside, only the flush and the workers move (Database.cpp:147-174) |
| AsyncDestroy.DestroyReturnsExact | comps/database/src/DBMgr.cpp:88-95 | when `MysqlDB::Destroy` (Database.cpp:98-145) is about to reset its counter it can still return if and only if no worker has counted itself yet; else no run of the threads ends its wait |
| AsyncDestroy.DestroyCanHang | comps/database/src/DBMgr.cpp:88-95 | from the call some run returns, and with at least one worker some run hangs: a worker leaves between the two assignments |
| AsyncDestroy.DestroyReaches | comps/database/src/DBMgr.cpp:88-95 | from the call on no worker leaves before the stop flag is set, and when the counter is about to be reset it counts exactly the workers that have left |
| AsyncTasks.AsyncTaskQueue.Push | comps/database/src/AsyncTaskQueue.cpp:24-31 | appends the task and leaves the lock free |
| AsyncTasks.AsyncTaskQueue.TryPop | comps/database/src/AsyncTaskQueue.cpp:49-63 | takes the front task, null exactly on an empty queue, and leaves the lock free |
| AsyncTasks.AsyncTaskQueue.TimePop | comps/database/src/AsyncTaskQueue.cpp:33-47 | run alone, the same result as `TryPop` |
| AsyncTasks.AsyncTaskQueue.PopAll | comps/database/src/AsyncTaskQueue.cpp:65-76 | appends what `TryPop` until null would return and empties the queue |
| AsyncTasks.AsyncTaskQueue.TimePopAll | comps/database/src/AsyncTaskQueue.cpp:78-96 | run alone, the same as `PopAll` |
| AsyncTasks.PopUntilNullDrains | comps/database/src/AsyncTaskQueue.cpp:49-63 | repeated `TryPop` returns the whole queue in order and leaves it empty |
| AsyncTasks.PopAllAlone | comps/database/src/AsyncTaskQueue.cpp:65-96 | the machine's uninterrupted bulk pop is one atomic drain with that result |
| AsyncTasks.PopOneAlone | comps/database/src/AsyncTaskQueue.cpp:33-63 | the machine's uninterrupted single pop is one atomic pop |
| AsyncTasks.PushAlone | comps/database/src/AsyncTaskQueue.cpp:24-31 | an uninterrupted push of the machine queues the caller's task last and wakes one sleeper if there is any |
| AsyncTasks.TimedPopSleeps | comps/database/src/AsyncTaskQueue.cpp:37-38 | a timed pop on an empty queue goes to sleep and gives up the lock |
| AsyncTasks.RousedSleepsAgain | comps/database/src/AsyncTaskQueue.cpp:38 | roused without a timeout it sleeps again while the queue is empty |
| AsyncTasks.TimeoutReturnsNothing | comps/database/src/AsyncTaskQueue.cpp:38-41 | timed out on an empty queue it returns nothing and leaves the queue as it was |
| AsyncTasks.WokenTakes | comps/database/src/AsyncTaskQueue.cpp:38-46 | woken with tasks queued, timed out or not, it takes the front task, or all of them in order |
| DbManager.DBMgr.OnInitialize | comps/database/src/DBMgr.cpp:25-86 | on a fresh manager, true if and only if every section exists and opens, names are distinct, exactly one is marked and the number is not the largest uint32; then the map and the default are exactly those; below 2^31 sections all of it is said of the sections `Database1` to `Database<num>` themselves |
| DbManager.SectionNameReads | comps/database/src/DBMgr.cpp:35-38 | section i is named `Database` and the decimal text of i as a signed 32-bit number |
| DbManager.AcceptedPlainly | comps/database/src/DBMgr.cpp:35-86 | below 2^31 sections a configuration is accepted if and only if `Database1` to `Database<num>` exist, open, have distinct names and exactly one is marked |
| DbManager.Refused | comps/database/src/DBMgr.cpp:40-72 | each early return of the loop is on a configuration that is not accepted |
| DbManager.LoopNext | comps/database/src/DBMgr.cpp:35-77 | a round that does not return keeps map and default exact, and cannot be a second round on section 1 |
| DbManager.DBMgr.CreateMysqlDB | comps/database/src/DBMgr.cpp:166-176 | a new database of that name, null exactly when the connection fails |
| DbManager.DBMgr.CreateDatabase | comps/database/src/DBMgr.cpp:147-164 | null and no change for a known name or failed connection, else one new binding |
| DbManager.DBMgr.GetDatabase | comps/database/src/DBMgr.cpp:121-127 | the bound database or null, and the map does not grow |
| DbManager.DBMgr.OnUpdate | comps/database/src/DBMgr.cpp:109-113 | every owned database is updated exactly once |
| DbManager.DBMgr.Flush | comps/database/src/DBMgr.cpp:115-119 | every owned database is flushed exactly once |
| DbManager.DBMgr.OneOwner | comps/database/src/DBMgr.h:59-61 | no database is owned under two names |
| DbManager.RunCalls | comps/database/src/DBMgr.cpp:109-164 | any sequence of calls keeps every binding and the default, returns at each call the binding current then, and refines the simple form of names and counters |
| DbManager.OneCall | comps/database/src/DBMgr.cpp:109-164 | any one call does what the simple form says |
| DbManager.NamesOfRun | comps/database/src/DBMgr.cpp:121-164 | only a creation that connects adds a name; lookups, updates and flushes never grow the map |
| DbManager.CountsOfRun | comps/database/src/DBMgr.cpp:109-119 | from any point of a run on, a database that is there is reached by every later update and flush exactly once |
| DbManager.CreatedFresh | comps/database/src/DBMgr.cpp:147-164 | a creation succeeds exactly when it connects and the name is new, and then starts uncounted |
| RwLock.InvKept | 3rds/mysql/include/mysql/thr_rwlock.h:52-131 | every step keeps position, ownership and flag in agreement for every thread |
| RwLock.UnlockPicksTheRightRelease | 3rds/mysql/include/mysql/thr_rwlock.h:117-128 | an exclusive owner finds the flag true, a shared owner finds it false, and nobody releases what it does not hold |
| RwLock.WriterAlone | 3rds/mysql/include/mysql/thr_rwlock.h:94-115 | from its acquire to its release a writer never coexists with a reader or another writer |
| RwLock.FlagRaceFree | 3rds/mysql/include/mysql/thr_rwlock.h:98-125 | every flag write is under exclusive ownership and no other thread may touch the flag then |
| RwLock.AccessesAnnounced | 3rds/mysql/include/mysql/thr_rwlock.h:94-128 | whichever step writes or reads the flag, its thread was at a position that counts as about to do so |
| RwLock.IdleSteps | 3rds/mysql/include/mysql/thr_rwlock.h:73-115 | a shared acquire is possible if and only if nobody owns the lock exclusively, whoever else reads; an exclusive one if and only if nobody owns it; a try fails exactly where the other would block |
| RwLock.BusyCanStep | 3rds/mysql/include/mysql/thr_rwlock.h:94-131 | a thread that owns the lock never has to wait |
| RwLock.WrongReleaseRecorded | 3rds/mysql/include/mysql/thr_rwlock.h:117-128 | a release of a lock the caller does not hold that way is recorded for good |
| RwLock.QuietIsInit | 3rds/mysql/include/mysql/thr_rwlock.h:52-57 | with all threads outside, the lock and flag are as initialised |
| RwLock.UnlockUndoesWrLock | 3rds/mysql/include/mysql/thr_rwlock.h:94-131 | unlock after a write lock restores the state |
| RwLock.UnlockUndoesRdLock | 3rds/mysql/include/mysql/thr_rwlock.h:73-131 | unlock after a read lock restores the state, whoever else reads |
| RwLock.NativeRwLock.Init | 3rds/mysql/include/mysql/thr_rwlock.h:52-57 | the free lock with the flag false |
| RwLock.NativeRwLock.RdLock | 3rds/mysql/include/mysql/thr_rwlock.h:73-81 | once its acquire succeeds, one more reader and nothing else |
| RwLock.NativeRwLock.WrLock | 3rds/mysql/include/mysql/thr_rwlock.h:94-103 | once its acquire succeeds, the one writer with the flag set |
| RwLock.NativeRwLock.TryRdLock | 3rds/mysql/include/mysql/thr_rwlock.h:83-92 | EBUSY and no change exactly when a writer holds it |
| RwLock.NativeRwLock.TryWrLock | 3rds/mysql/include/mysql/thr_rwlock.h:105-115 | EBUSY and no change exactly when anyone holds it, else the flag is set |
| RwLock.NativeRwLock.Unlock | 3rds/mysql/include/mysql/thr_rwlock.h:117-131 | gives back what the caller holds and nothing else |
| SkipSpace.ByteLoopExact | 3rds/mysql/include/mysql/m_string.h:326-328 | the byte loop finds the one end with only spaces after it and none before it |
| SkipSpace.SkipTrailingSpace | 3rds/mysql/include/mysql/m_string.h:317-329 | the 8-byte variant returns that end for every buffer, reading only inside it |
| SkipSpace.SkipTrailingSpaceAligned | 3rds/mysql/include/mysql/m_string.h:280-310 | the aligned-word variant does too, for every start address, word size 4 or 8 and byte order |
| SkipSpace.SpaceWordExact | 3rds/mysql/include/mysql/m_string.h:322 | a word equals the word of spaces if and only if all its bytes are spaces |
| ByteOrder.StoreThenLoad | 3rds/mysql/include/mysql/my_byteorder.h:45-101 | storing any number n of bytes and loading them gives the value modulo 256^n |
| ByteOrder.LoadThenStore | 3rds/mysql/include/mysql/my_byteorder.h:45-101 | loading bytes and storing them restores the bytes |
| ByteOrder.KorrIsDecode | 3rds/mysql/include/mysql/byte_order_generic.h:20-74 | every byte-by-byte load is the base-256 value of its bytes, signed or not |
| ByteOrder.Sint3Inverse | 3rds/mysql/include/mysql/my_byteorder.h:31-43 | the signed 3-byte load inverts the 3-byte store on all of [-2^23, 2^23) |
| ByteOrder.X86LoadsAgree | 3rds/mysql/include/mysql/byte_order_generic_x86.h:22-38 | the single-word loads compute what the generic loads compute, on any bytes long enough for the load |
| ByteOrder.Int3Store | 3rds/mysql/include/mysql/my_byteorder.h:77-82 | writes the 3-byte encoding and no other byte |
| ByteOrder.Int5Store | 3rds/mysql/include/mysql/my_byteorder.h:84-91 | writes the 5-byte encoding and no other byte |
| ByteOrder.Int6Store | 3rds/mysql/include/mysql/my_byteorder.h:93-101 | writes the 6-byte encoding and no other byte |
| ByteOrder.Int2Store | 3rds/mysql/include/mysql/byte_order_generic.h:76-81 | writes the 2-byte encoding and no other byte |
| ByteOrder.Int4Store | 3rds/mysql/include/mysql/byte_order_generic.h:83-89 | writes the 4-byte encoding and no other byte |
| ByteOrder.Int8Store | 3rds/mysql/include/mysql/byte_order_generic.h:91-97 | two word stores write the 8-byte encoding and no other byte |
| ByteOrder.WordStore | 3rds/mysql/include/mysql/byte_order_generic_x86.h:40-56 | the single-word stores write the same encoding as the generic ones |
| ByteOrder.StoredLoads | 3rds/mysql/include/mysql/my_byteorder.h:45-101 | after any store, of any value, the matching unsigned load returns the value modulo 256^n and the signed load its two's complement reading |
| ByteOrder.StoredDecodes | 3rds/mysql/include/mysql/my_byteorder.h:77-101 | the same for the base-256 value of any n bytes, and every other byte is as before |
| ByteOrder.Sint3OrIsSum | 3rds/mysql/include/mysql/my_byteorder.h:31-43 | the shifts and bitwise ors of the signed 3-byte load are a sum |
| ByteOrder.OrHasBits | 3rds/mysql/include/mysql/my_byteorder.h:31-43 | a bit is in the bitwise or exactly when it is in one of the two, or in both |
| Timespec.TimespecCell.SetTimespecNsec | 3rds/mysql/include/mysql/my_global.h:688-698 | nanoseconds are in range, and the instant is exactly 100*clock + nsec if and only if the 64-bit sum does not overflow and, for a `time_t` below 64 bits, the seconds need no clamping; otherwise the sum wraps at 2^64, or the seconds are exactly 2^31 - 1 |
| Timespec.TimespecCell.SetTimespec | 3rds/mysql/include/mysql/my_global.h:712-715 | exact if and only if neither the product nor the sum overflows and no clamping is needed |
| Timespec.CmpIsOrder | 3rds/mysql/include/mysql/my_global.h:724-740 | on normal times the comparison is the order of the instants |
| Timespec.DiffIsDistance | 3rds/mysql/include/mysql/my_global.h:742-750 | the difference is the distance of the instants if and only if that is in [0, 2^64), and congruent to it modulo 2^64 always |
| Timespec.MillisecondsLeft | 3rds/mysql/include/mysql/thr_cond.h:84-95 | within 1 ms of the time left, zero once the deadline has come, not increasing in the clock, while the result fits 32 bits |
| Timespec.MillisecondsExact | 3rds/mysql/include/mysql/thr_cond.h:89-94 | the 32-bit result is right if and only if the wait fits, and else the wait modulo 2^32 |
| Timespec.SetAndWait | 3rds/mysql/include/mysql/thr_cond.h:119-127 | a timeout set at one clock and waited for at a later one ends within 1 ms of its time |

## Left out

- FLOAT and DOUBLE columns: `%f` loses digits, so their text has no round trip to state; TIMESTAMP, NEWDECIMAL, INT24 and YEAR columns have no print case and stop at an assertion.
- `AsyncTaskQueue::Empty` and `Size`: they read a counter that no operation updates, so that `Empty` is always true.
- `MysqlDB::Init`, and what `Destroy` does after its wait: the flush proofs are about a database that is running, the shutdown proofs about the wait.
- `DBMgr::DestroyDatabase` and `OnDestroy`: the first tests for the opposite of what it needs; the second leaves the default pointer set, so the registry invariant ends before it.
- What a statement means whose key literal is not faithful and does not read as one value: the reader has no boolean operators, so such a text does not parse here; it is proved only that it is not the intended statement.
- What else a cut assignment list reads as: it is proved never to be the changed fields, and its other readings depend on every byte of the values.
- Real MySQL execution, collations, character sets and connections: a table is a sequence of rows with exact equality, and a string as a condition counts as the integer it starts with; whether a connection opens is part of a section.
- Sequence of waiting in `native_cond_timedwait` and wall-clock time: a timeout is a step that may happen at any time.
- The pthread branches of `thr_rwlock.h` and the branches without `HAVE_STRUCT_TIMESPEC`: they hand over to the system, or are not built.
- Fairness: no proof says that a given thread is scheduled; `QueueProgress` says what holds once the operations under way have run to their end.
- `Record`, `BaseField` and `FieldTemplate` as mutable objects: the builders only read them, so a record is a value; `GetInt` and `GetStr` are the stored value.
