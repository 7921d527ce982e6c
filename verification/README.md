# A model of the SA-MP MySQL plugin

The plugin lets game scripts run SQL queries without blocking the game. A script hands a query to a connection handle;
a worker thread sends it to the server; the game thread later calls the script back with the outcome. The scripts then
fetch rows through a character stream that each handle keeps. This project models that machinery in Dafny and proves
what scripts may rely on, in every interleaving of the two threads and over every history of calls. Where the code does
not keep a promise, a lemma gives the input, and another lemma says exactly when it does keep it.

`dafny verify dfyconfig.toml` checks everything.

## The parts

- **The pipeline of a handle** (`trace.dfy`, `pipeline.dfy`, `guarantees.dfy`). The worker (`ProcessQueryThread`, which
  holds the mutex), the delivery loop (`ProcessTick`, which does not) and the natives of the game thread each have a
  program counter; every read of a flag, every queue operation and every command to the server is one step, and steps
  interleave freely. The server is an oracle. A ghost history records what an observer could write down, and `Books` are
  the lists kept from that history. One invariant (the handshake on `m_bQueryProcessing`, what every program counter
  knows, the balance of the books, the pace of the worker) is kept by every step; conservation, order, overtaking and
  result ownership follow from it over all runs.
- **Passes** (`passes.dfy`). One worker iteration, one tick iteration or one native as a single function, each proved
  equal to its run of atomic steps. Draining in rounds, of a handle and of the whole plugin, is proved at this grain.
- **Connections** (`connection.dfy`). How natives that give up and open connections interleave with the worker.
- **Draining** (`draining.dfy`). A measure on atomic steps: however the steps of the two loops interleave, the load falls.
- **The whole plugin** (`system.dfy`). One worker, one game thread and a vector of handles that grows and shrinks; each
  handle is proved to behave as a run of the machine of one handle, so its guarantees hold for all at once.
- **Scheduling** (`scheduling.dfy`). A sweep of the worker and a tick reach every handle, whatever the game thread does
  meanwhile; enough moves of the two loops, in any order, drain the whole plugin; and what the moves of the game thread
  change.
- **Records and deliveries** (`records.dfy`, `deliveries.dfy`). What an error record says of the query that failed, in
  every run, and which scripts a tick calls with what.
- **Rows** (`stream.dfy`, `rows.dfy`, `fetching.dfy`). The `std::stringstream` with its get position and its flags, after
  sections 21.4.8.9 and 27.7.2.1.3 of ISO/IEC 14882:2011; rendering, joining and splitting of rows; the row cursor;
  `mysql_fetch_int`. `retrieving.dfy` says, of the rows of the result themselves, which row and which field each fetch hands
  out.
- **The registry** (`registry.dfy`): ids, keys and what a close does to other ids. **Locks** (`locks.dfy`): the depth of the
  mutex.
- **The objects** (`handler.dfy`, `plugin.dfy`). `CMutex`, `CMySQLHandler`, the natives and the loops of `main.cpp` as
  classes whose methods update the source's fields. Every method is proved against the functions above: `View()` is the
  handle as the pipeline sees it, `Rows()` the row cursor, `registry` the ids, `mutex.ops` the lock operations. A handler
  is valid only while `View()` is reachable by the pipeline machine and `Rows()` is settled.
- **Bundled MySQL headers** (`byteorder.dfy`, `trailing.dfy`, `timespec.dfy`): byte order, `skip_trailing_space` and
  `timespec` arithmetic.

## What the code does not keep

- An error can be overtaken by the callback of a later query (`Passes.ErrorsCanBeOvertaken`), exactly when a worker
  record is queued behind the first error (`Passes.TickOvertakesExactly`, `Guarantees.ErrorsAreOvertakenExactly`); a
  success cannot be overtaken (`Guarantees.SuccessIsNotOvertaken`).
- A synchronous query between an execution and its callback takes the result away (`Passes.SyncQueryTakesTheResult`); so
  does a change of the character set. `Guarantees.CallbackOwnsTheResult` gives the exact condition.
- The worker tests `m_bIsConnected` before it pings, so a handle that one attempt failed to bring back is never dialled
  again by the worker (`Guarantees.QueueIsFrozenWhileDown`).
- On POSIX systems the mutex is created with default attributes and is not recursive. The destructor locks it again
  inside `mysql_close` of a connected handle, so that call waits for itself (`Locks.LockDiscipline`). On Windows the
  mutex is recursive and the depth reaches two.
- Newlines in a field break `FetchRow` and `FetchField` (`Fetching.RunIsExact`, `Fetching.FieldText`) and can leave text
  behind that comes out with the next row (`Fetching.NextRowBleeds`, `Fetching.DelimiterIsLeft`); what any run returns is
  given in full (`Fetching.AnyRun`). They can also make `mysql_fetch_int` return a number for
  a text (`Fetching.NewlinePassesForAnInteger`).
- A row that renders to nothing, or to a newline followed by white space, leaves a clean stream stuck, and no other row does
  (`Fetching.RowSticksExactly`); after it, rows are consumed unseen (`Fetching.StuckStreamSwallowsRows`).
- A disconnect never closes a connection that the worker is using (`Guarantees.DisconnectIsAlone`), but `mysql_connect` and
  `mysql_reconnect` dial without the mutex and can replace a connection that the worker is using, exactly when the handle
  is live with queries waiting (`Connections.NativesMeetTheWorkerExactly`).
- `m_bIsConnected` is tested before the mutex is taken. So a query can join the queue of a handle that has just gone down
  (`Connections.QueryJoinsADeadHandle`; `Guarantees.QueueWhileDown` is the exact rule), and a reconnect can drop the queue
  of a handle that has just gone down (`Connections.ReconnectClearsADeadHandle`; `Guarantees.ReconnectDropsExactly`).
- `mysql_fetch_row_format` returns 0, as at the end of a result, for rows that read `NULL` once cut and for rows of which
  nothing is read back (`Fetching.NullRowLooksLikeTheEnd`).
- A text that `mysql_fetch_int` could not take for an integer stays in `m_szResult` and is handed out by a later
  `mysql_fetch_field_row` that finds no row, even after the result has been freed (`Retrieving.StaleText`).
- A row that is only an SQL NULL reads as the end of the result (`Retrieving.MissingValueLooksLikeTheEnd`).
- A number of 2^31 or more in a column is returned as 2^31 - 1 (`Fetching.FetchIntRoundTrip`).
- The row text is a join only for delimiters of one character (`Rows.CutIsJoin`).
- The id check is exact only below 2^31 handles (`Registry.IdCheckIsExact`).
- `diff_timespec` of the Unix form is unsigned; only read as a signed number is it the difference
  (`Timespec.DifferenceIsExact`).

The comment above `skip_trailing_space` (`mysql_rel/mysql_include/m_string.h:271-294`) says that a pointer to the last
non-space character is returned; the code returns the position after it, and so does the model.

## Model

| member | source | states |
|---|---|---|
| `Trace.BooksDrops` | mysql_rel/source/CMySQLHandler.cpp:242-245 | Discarding a queue books every entry as resolved and dropped, in queue order, and nothing else. |
| `Trace.WellPacedDrops` | mysql_rel/source/CMySQLHandler.cpp:242-245 | Discarding a queue does not disturb the pace of deliveries. |
| `Pipeline.FreshInv` | mysql_rel/source/CMySQLHandler.cpp:31-44 | A newly built handle satisfies the invariant, whether or not its connection attempt succeeds. |
| `Pipeline.WorkerKeepsControl` | mysql_rel/main.cpp:152-187 | Every atomic step of the worker keeps the handshake on the processing flag and what all program counters know, while tick and natives stand anywhere. |
| `Pipeline.TickKeepsControl` | mysql_rel/main.cpp:94-135 | Every atomic step of the unlocked delivery loop keeps them, while the worker stands anywhere in its critical section. |
| `Pipeline.NativeKeepsControl` | mysql_rel/source/CMySQLHandler.cpp:148-253 | Every atomic step of a native keeps them: enqueuing, a synchronous query, a disconnect, a reconnect. |
| `Pipeline.WorkerOnlyAdds` | mysql_rel/main.cpp:159-178 | The worker only appends to the queues that the tick delivers from and leaves the tick and the running native alone. |
| `Pipeline.NativeOnlyAdds` | mysql_rel/source/CMySQLHandler.cpp:148-253 | A native only appends to the error queue, keeps the waiting callbacks and leaves the tick alone. |
| `Pipeline.WorkerKeepsAccounts` | mysql_rel/main.cpp:159-187 | Every step of the worker keeps the books balanced against queues and entries in flight, and keeps the pace. |
| `Pipeline.TickKeepsAccounts` | mysql_rel/main.cpp:94-135 | Every step of the delivery loop keeps the books balanced and the pace. |
| `Pipeline.NativeKeepsAccounts` | mysql_rel/source/CMySQLHandler.cpp:148-253 | Every step of a native keeps the books balanced and the pace, dropped queues included. |
| `Pipeline.NextKeepsInv` | mysql_rel/main.cpp:89-195 | One step of any actor, with any answer of the server, keeps the whole invariant. |
| `Pipeline.RunKeepsInv` | mysql_rel/main.cpp:89-195 | The invariant holds in every state that any interleaving reaches. |
| `Pipeline.ReachableInv` | mysql_rel/main.cpp:89-195 | The invariant holds in every state reachable from a new handle. |
| `Guarantees.QueriesAreConserved` | mysql_rel/main.cpp:152-178 | In every reachable state the submitted queries are exactly the executed, the dropped and the waiting ones, each once; executed followed by waiting is the submission order with the dropped ones deleted. |
| `Guarantees.OutcomesAreConserved` | mysql_rel/main.cpp:94-135 | Successes are the delivered ones followed by at most one on its way; error records are reported in the order queued and are exactly those that failed commands owe. |
| `Guarantees.FlagTracksTheCallback` | mysql_rel/main.cpp:152-178 | At most one callback waits, and `m_bQueryProcessing` holds exactly while the worker is between raising it and its outcome, a callback waits, or the tick is between its pop and its clear. |
| `Guarantees.DeliveredBeforeNextAct` | mysql_rel/main.cpp:117-135 | In a well-paced history, between a successful execution and the next act of the worker on the handle lies the delivery of exactly that query. |
| `Guarantees.SuccessIsNotOvertaken` | mysql_rel/main.cpp:117-178 | In every run the callback of a success comes before any later threaded query of the handle is even executed. |
| `Guarantees.LastWhere` | mysql_rel/main.cpp:161 | The position is that of the last event of a kind, or -1 if there is none. |
| `Guarantees.RunKeepsOwns` | mysql_rel/main.cpp:159-163 | In every run, whoever waits in the callback queue is what the worker executed last. |
| `Guarantees.CallbackOwnsTheResult` | mysql_rel/source/CMySQLHandler.cpp:290-303 | While the callback of q waits or runs, the last act of the worker on the connection is its successful execution of q; the last statement on the connection is that execution if and only if the game thread has since sent no statement (a synchronous query, a character set) and opened no connection. |
| `Guarantees.EarlierErrorsAreQueued` | mysql_rel/main.cpp:94-135 | While a callback waits, the failures of the queries executed before its own are, in order, the worker records already reported followed by those still queued. |
| `Guarantees.ErrorsAreOvertakenExactly` | mysql_rel/main.cpp:94-135 | When the tick is about to call the scripts for q, a failure of a query executed before q is still unreported if and only if a record of the worker is still queued. |
| `Guarantees.QueueIsFrozenWhileDown` | mysql_rel/main.cpp:152 | A handle that is down with no native running on it keeps its queue and stays down until a native dials it again, whatever else the scripts issue and however the steps interleave; its history goes on with calls into the scripts only. |
| `Guarantees.QueueWhileDown` | mysql_rel/source/CMySQLHandler.cpp:148-165 | With any native running that is not on its way to dial, the same, and the queue grows exactly by the query of a native that had already passed its live test, once it gets the mutex. |
| `Guarantees.OnlyReconnectDrops` | mysql_rel/source/CMySQLHandler.cpp:240-246 | No step outside a reconnect drops a query, from any state and in any interleaving. |
| `Guarantees.ReconnectDropsExactly` | mysql_rel/source/CMySQLHandler.cpp:232-253 | Over every interleaving, a reconnect drops exactly the queue that it finds at its clearing, and it comes to clear if and only if its live test saw a live handle. |
| `Guarantees.QueriesAreRetained` | mysql_rel/main.cpp:179-187 | In every run without a reconnect the submitted queries are exactly the executed ones followed by the waiting ones, however many pings, dials and queries fail. |
| `Guarantees.DisconnectIsAlone` | mysql_rel/source/CMySQLHandler.cpp:240-251 | Whenever a disconnect is about to close the connection, the queue is empty and the worker is not at work on this handle, in every interleaving. |
| `Passes.WorkerPassIsRun` | mysql_rel/main.cpp:152-188 | One worker iteration at rest equals its run of 2 to 12 atomic steps, in each of its branches. |
| `Passes.TickPassIsRun` | mysql_rel/main.cpp:94-135 | One iteration of the delivery loop equals its run of atomic steps. |
| `Passes.SubmitPassIsRun` | mysql_rel/source/CMySQLHandler.cpp:148-165 | A threaded query as one step equals its run of atomic steps. |
| `Passes.SyncPassIsRun` | mysql_rel/source/CMySQLHandler.cpp:185-206 | A synchronous query as one step equals its run of atomic steps, with and without an error. |
| `Passes.ConnectPassIsRun` | mysql_rel/source/CScripting.cpp:80-81 | A `mysql_connect` that finds the handle equals its run of atomic steps. |
| `Passes.ReconnectPassIsRun` | mysql_rel/source/CScripting.cpp:102-112 | A reconnect as one step equals its run of atomic steps, on a live and on a dead handle. |
| `Passes.WorkerPassIsSound` | mysql_rel/main.cpp:152-188 | A worker iteration leads from a reachable state at rest to a reachable state at rest. |
| `Passes.TickPassIsSound` | mysql_rel/main.cpp:94-135 | So does an iteration of the delivery loop. |
| `Passes.ReconnectPassIsSound` | mysql_rel/source/CScripting.cpp:102-112 | So does a reconnect. |
| `Passes.FlagAtRest` | mysql_rel/main.cpp:134-160 | Between passes the processing flag says exactly that one callback waits, and no synchronous query is marked. |
| `Passes.BooksAtRest` | mysql_rel/main.cpp:89-195 | Between passes the queues alone account for everything that has not been executed, dropped, delivered or reported. |
| `Passes.ReconnectKeepsOutcomes` | mysql_rel/source/CScripting.cpp:102-112 | A reconnect that nobody interrupts keeps the queue of a dead handle and drops exactly the queue of a live one; waiting callbacks, errors and the processing flag survive. |
| `Passes.PassesReduceWork` | mysql_rel/main.cpp:91-136 | With good pings, every pass that changes anything reduces 2 x queued + callbacks + errors; with nothing to change on a live handle that sum is 0. |
| `Passes.RoundPaysDebt` | mysql_rel/main.cpp:89-195 | A worker sweep and a tick reduce the queued queries plus the longer outcome queue; by exactly one if the query fails. |
| `Passes.DebtAfter` | mysql_rel/main.cpp:89-195 | The debt after any number of rounds: zero once as many have passed, and with failing queries exactly what is left. |
| `Passes.HandleDrains` | mysql_rel/main.cpp:89-195 | A live handle with good pings is empty after as many rounds as its debt; if every query fails, not one round earlier. |
| `Passes.PluginDrains` | mysql_rel/main.cpp:89-195 | With live handles and good pings, all queues of all handles are empty after as many sweeps and ticks as the largest debt; if every query fails, not one round earlier. |
| `Draining.RunProgresses` | mysql_rel/main.cpp:89-195 | In every interleaving of the two loops with good pings the load never grows, and while it stays the loop whose turn it is comes closer to reducing it with each of its steps. |
| `Draining.FairReducesLoad` | mysql_rel/main.cpp:89-195 | Any stretch with 11 steps of the worker and 6 of the tick, in any order, reduces the load. |
| `Draining.FairRunsDrain` | mysql_rel/main.cpp:89-195 | A live handle with good pings has nothing left to run, deliver or report after as many such stretches as its load, from any point of the two loops. |
| `Draining.ReachableHandleDrains` | mysql_rel/main.cpp:89-195 | From a reachable handle at rest, after 2 x (2 x queued + callbacks + errors) such stretches. |
| `Passes.TickOvertakesExactly` | mysql_rel/main.cpp:94-135 | For every reachable handle with a waiting callback: the next tick delivers it ahead of the error of an earlier query if and only if a record of the worker stands behind the first entry of the error queue. |
| `Passes.ErrorsCanBeOvertaken` | mysql_rel/main.cpp:94-135 | A concrete history in which the error of an earlier query still waits when the callback of a later one has been called. |
| `Passes.SyncQueryTakesTheResult` | mysql_rel/source/CMySQLHandler.cpp:186-187 | A concrete history in which a callback comes next but the last statement is a synchronous one. |
| `Records.RejectedQueryIsRecorded` | mysql_rel/main.cpp:167-175 | A rejected query of a ready handle adds one record behind the others: its query, result id and callback, the text and the number that the server reported, and no extra id. |
| `Records.RejectedSyncIsRecorded` | mysql_rel/source/CMySQLHandler.cpp:190-197 | A rejected synchronous query adds one record: its text, the error, the callback NULL, and -1 for both ids. |
| `Records.RecordsDescribeRejections` | mysql_rel/main.cpp:159-178 | In every run the k-th record of the worker describes the k-th rejected execution, and each rejected execution has its record but for the one about to be queued; the same for the synchronous queries. |
| `Records.ReportsDescribeRejections` | mysql_rel/main.cpp:94-116 | In every run the k-th worker record with which the scripts have been called describes the k-th rejected execution; the same for the synchronous queries. |
| `Connections.NativesMeetTheWorkerExactly` | mysql_rel/source/CScripting.cpp:80-112 | From any handle at rest, a `mysql_connect` that finds it or a `mysql_reconnect` can come to replace the connection while the worker is using it if and only if the handle is live and has queries waiting. |
| `Connections.MeetingHasAQueue` | mysql_rel/main.cpp:152 | In every reachable state in which that happens there are queries waiting. |
| `Connections.ConnectMeetsTheWorker` | mysql_rel/source/CScripting.cpp:80-81 | For every query there is a reachable state in which `mysql_connect` is about to replace the connection on which the worker is sending it. |
| `Connections.QueryJoinsADeadHandle` | mysql_rel/source/CMySQLHandler.cpp:150-161 | From every ready handle a state is reachable in which the handle is down and the next step of a waiting native still appends a query to its queue. |
| `Connections.ReconnectClearsADeadHandle` | mysql_rel/source/CMySQLHandler.cpp:234-246 | From every ready handle a state is reachable in which the handle is down and the next step of a reconnect still drops its whole queue. |
| `Connections.SyncHoldsTheWorkerOff` | mysql_rel/main.cpp:152 | While a synchronous query is marked, a worker that has not got past its test of the mark neither pings nor executes nor dials on this handle, however the two loops go on. |
| `Connections.MarkTracksTheSyncQuery` | mysql_rel/source/CMySQLHandler.cpp:186-204 | In every reachable state the mark is up exactly while a synchronous query is on its way. |
| `Connections.StatementsAreSeen` | mysql_rel/source/CMySQLHandler.cpp:186-262 | Every statement of the game thread on a live handle is in the history, rejected or not; a change of the character set changes nothing else. |
| `Connections.LostConnectionIsDialled` | mysql_rel/main.cpp:180-186 | A worker that finds the connection of a ready handle lost dials once; the flag becomes the outcome and the queue stays. |
| `PluginSystem.SystemKeepsInv` | mysql_rel/main.cpp:145-195 | Safety only: over any moves of the plugin, handles opening and closing included, each handle stays reachable by its own machine and each actor is at most at the handle that its index names. That every handle has its turn is `Scheduling.SweepReachesEveryHandle`. |
| `PluginSystem.EveryHandleIsARun` | mysql_rel/main.cpp:89-195 | Every handle of every reachable plugin state is the end of a run of the machine of one handle. |
| `PluginSystem.PluginIsSafe` | mysql_rel/main.cpp:89-195 | For every handle of every reachable plugin state: conservation and order of queries, outcomes and owed error records, the pace, the handshake, result ownership with its exact condition, the errors that a callback overtakes, and a disconnect that is alone. |
| `PluginSystem.PluginRetainsQueries` | mysql_rel/main.cpp:149-190 | Over any moves of the plugin without a reconnect, no open handle has lost a query. |
| `PluginSystem.MutexExcludesTheWorker` | mysql_rel/main.cpp:148-191 | While the worker does not hold the mutex it is in the middle of no handle, so what the game thread does under the mutex never meets it there. |
| `Scheduling.SweepReachesEveryHandle` | mysql_rel/main.cpp:148-191 | Between taking the mutex and giving it back the worker completes an iteration over every handle, whatever the game thread does meanwhile short of opening and closing handles. |
| `Scheduling.TickReachesEveryHandle` | mysql_rel/main.cpp:89-138 | A tick completes an iteration over every handle, whatever the worker and the natives of the called scripts do meanwhile. |
| `Scheduling.HandleRuns` | mysql_rel/main.cpp:89-195 | Under any moves of the two loops with good pings a handle makes exactly the steps that those moves make on it. |
| `Scheduling.SweepsMakeSteps` | mysql_rel/main.cpp:149-190 | k complete sweeps make at least 2k - 2 worker steps on every handle. |
| `Scheduling.TicksMakeSteps` | mysql_rel/main.cpp:91-136 | k complete ticks make at least 3k - 3 tick steps on every handle. |
| `Scheduling.MovesMakeSweeps` | mysql_rel/main.cpp:145-195 | Over n handles k(12n + 2) moves of the worker, among any moves of the tick, complete at least k sweeps. |
| `Scheduling.MovesMakeTicks` | mysql_rel/main.cpp:89-138 | Over n handles k(10n + 2) moves of the tick, among any moves of the worker, complete at least k ticks. |
| `Scheduling.FairToEveryHandle` | mysql_rel/main.cpp:89-195 | A stretch with 7(12n + 2) moves of the worker and 3(10n + 2) of the tick, in any order, is a fair stretch on every handle. |
| `Scheduling.FairMovesReduceLoads` | mysql_rel/main.cpp:89-195 | Such a stretch reduces the load of every handle that has one, with live handles and good pings. |
| `Scheduling.LoopsDrainThePlugin` | mysql_rel/main.cpp:89-195 | As many such stretches as the largest load leave no handle with anything to run, deliver or report, from any points of the two loops. |
| `Scheduling.ReachablePluginDrains` | mysql_rel/main.cpp:89-195 | So from every reachable state of the plugin with live handles, no native running and no connection found lost. |
| `Scheduling.ClosingKeepsTheOthers` | mysql_rel/source/CScripting.cpp:210-224 | Closing a handle keeps all others, in order. |
| `Scheduling.OpeningAppends` | mysql_rel/source/CScripting.cpp:87-98 | Opening a handle appends a new one, between ticks and from inside a called script. |
| `Scheduling.ScriptSubmits` | mysql_rel/source/CMySQLHandler.cpp:148-165 | A threaded query of a script on a live handle is at the end of its queue two moves later if the worker does not hold the mutex; no other handle changes. |
| `Scheduling.ScriptBegins` | mysql_rel/source/CScripting.cpp:102-130 | Any native of a script on a live handle begins, between ticks and from inside a called script. |
| `Scheduling.TheMutexGuardsTheQueues` | mysql_rel/source/CScripting.cpp:215-222 | While the worker holds the mutex, no native and no closing changes any queue. |
| `Scheduling.NativesKeepToTheirHandle` | mysql_rel/source/CScripting.cpp:102-130 | No step of a native changes another handle. |
| `CharStream.ReadBackWhole` | mysql_rel/source/CMySQLHandler.cpp:110-111 | Unread text without a newline is read back whole: the extraction after the line fails, keeps the line and leaves the stream consumed. |
| `CharStream.ReadBackBroken` | mysql_rel/source/CMySQLHandler.cpp:110-111 | Unread text with a newline comes back shorter than the text, never whole. |
| `CharStream.ReadBackSalvages` | mysql_rel/source/CMySQLHandler.cpp:110-111 | What comes back of it is the first word after the newline, or the line before when only white space follows; everything after that word stays unread, and the extraction fails exactly when only white space follows. |
| `CharStream.SalvagedNothing` | mysql_rel/source/CMySQLHandler.cpp:110-112 | Nothing comes back of it exactly when the newline is first and only white space follows. |
| `CharStream.ReadBackIs` | mysql_rel/source/CMySQLHandler.cpp:110-111 | Any readable stream: what comes back, what stays unread, and exactly when nothing comes back. |
| `CharStream.ReadBackStuck` | mysql_rel/source/CMySQLHandler.cpp:69-70 | A stream with a flag set reads nothing and the target keeps its old value. |
| `Rows.CutIsJoin` | mysql_rel/source/CMySQLHandler.cpp:107-117 | The rendered row without its last character is the join of the fields if and only if the delimiter has exactly one character. |
| `Rows.SplitJoin` | mysql_rel/source/CMySQLHandler.cpp:107-117 | Splitting a join at its delimiter gives back fields that do not contain the delimiter. |
| `Rows.InsertRowStep` | mysql_rel/source/CMySQLHandler.cpp:107-109 | Inserting one more field and its delimiter extends the inserted part of the row by that field, in every state of the stream. |
| `Rows.Column` | mysql_rel/source/CMySQLHandler.cpp:63-68 | The first column with the name, or the number of columns if there is none. |
| `Rows.CPrefix` | mysql_rel/source/CScripting.cpp:341-350 | The longest prefix without a NUL: the C string at the start of a std::string. |
| `Fetching.PerformKeepsSettled` | mysql_rel/source/CScripting.cpp:161-396 | Every fetch, store, free or lost-connection step keeps row, fields and field count from one unfreed result, the stream readable or stuck with an empty text, and no text that could pass for an integer. |
| `Fetching.Performed` | mysql_rel/source/CScripting.cpp:161-396 | That holds after any run of those natives on a live or dead connection. |
| `Fetching.NoRowNoInteger` | mysql_rel/source/CScripting.cpp:361-375 | `mysql_fetch_int` returns -1 whenever there is no row to fetch, whatever ran before. |
| `Fetching.AnyRow` | mysql_rel/source/CMySQLHandler.cpp:94-128 | Any row from any stream: the text returned, the text kept, and what the stream holds for the next row. |
| `Fetching.RowText` | mysql_rel/source/CMySQLHandler.cpp:94-128 | From a clean stream, `FetchRow` returns the rendered row minus its last character if and only if the row has no newline, and then leaves the stream clean, one row further. |
| `Fetching.BrokenRowIs` | mysql_rel/source/CMySQLHandler.cpp:110-119 | A row with a newline in full: the text returned, the text kept, what stays unread in the stream, and whether the stream can be read on. |
| `Fetching.RowTextIsTheJoin` | mysql_rel/source/CMySQLHandler.cpp:94-128 | The text is the join of the fields exactly for one-character delimiters, and splits back into fields free of the delimiter. |
| `Fetching.LeftoverBleeds` | mysql_rel/source/CMySQLHandler.cpp:107-119 | What is unread and the next row are delivered together; when they hold no newline the leftover comes out in front, and the row is right exactly when nothing was left. |
| `Fetching.NextRowBleeds` | mysql_rel/source/CMySQLHandler.cpp:107-119 | Any two rows from a clean stream: the second delivers itself together with what the first has left, or NULL if the first one sticks; when these hold no newline, it is right if and only if nothing was left. |
| `Fetching.DelimiterIsLeft` | mysql_rel/source/CMySQLHandler.cpp:107-119 | A field of two lines, the second one word, leaves the delimiter unread in a stream that was clean. |
| `Fetching.OneRow` | mysql_rel/source/CMySQLHandler.cpp:94-128 | One call takes the first remaining row and leaves a clean stream; at the end it returns NULL. |
| `Fetching.LaterRows` | mysql_rel/source/CMySQLHandler.cpp:94-128 | After k calls exactly the first k rows are gone and the stream is clean. |
| `Fetching.RunOfRows` | mysql_rel/source/CMySQLHandler.cpp:94-128 | Over any run of calls the k-th text is the k-th row, rendered and cut, when the rows up to it are non-empty and free of newlines; NULL after the last row. |
| `Fetching.AnyRun` | mysql_rel/source/CMySQLHandler.cpp:94-128 | Any run of calls over any rows from any stream: the k-th text is what the k-th row delivers together with what the rows before it have left; NULL after the last row. |
| `Fetching.RunIsExact` | mysql_rel/source/CMySQLHandler.cpp:94-128 | From a clean stream the first n texts are the first n rows, rendered and cut, if and only if each of those rows renders to a non-empty text without a newline. |
| `Fetching.RowSticksExactly` | mysql_rel/source/CMySQLHandler.cpp:112-114 | A row leaves a clean stream stuck if and only if it renders to nothing or to a newline followed by white space; it is then consumed and NULL is returned. |
| `Fetching.StuckStreamSwallowsRows` | mysql_rel/source/CMySQLHandler.cpp:107-114 | On a stuck stream every call returns NULL and consumes its row, for ever. |
| `Fetching.FetchFieldUnsticks` | mysql_rel/source/CMySQLHandler.cpp:69-73 | Fetching a field of a current row always makes the stream readable again. |
| `Fetching.AnyField` | mysql_rel/source/CMySQLHandler.cpp:53-74 | Any field from any stream: the text handed out and what the stream holds for the next fetch. |
| `Fetching.NullRowLooksLikeTheEnd` | mysql_rel/source/CScripting.cpp:233-239 | With a row at hand and any stream, `mysql_fetch_row_format` returns 0 exactly when the stream is stuck, when nothing is read back, or when the cut text is the word NULL; otherwise it hands out the cut text. |
| `Fetching.FieldText` | mysql_rel/source/CMySQLHandler.cpp:53-74 | From a clean stream, `mysql_fetch_field_row` returns the value of the first column of the name (empty if none) if and only if the value has no newline; what stays unread is given in full. |
| `Fetching.FetchIntIsWorth` | mysql_rel/source/CScripting.cpp:361-375 | For a row without a newline the result is the value of a single column of digits, capped at the largest cell, and -1 for any other row. |
| `Fetching.AnyInt` | mysql_rel/source/CScripting.cpp:361-375 | Any row from any stream: the result is what the kept text is worth as a run of digits. |
| `Fetching.FetchIntIsExact` | mysql_rel/source/CScripting.cpp:361-375 | For every row from a clean stream, that is the result if and only if the row does not have a newline of which two characters or more come back that are digits up to the last one. |
| `Fetching.NewlinePassesForAnInteger` | mysql_rel/source/CScripting.cpp:361-375 | A text of two lines, the second of digits, is returned as that number without its last digit. |
| `Fetching.DecimalOfText` | mysql_rel/source/CScripting.cpp:352-359 | Reading the decimal text of n gives n. |
| `Fetching.LeadingZeros` | mysql_rel/source/CScripting.cpp:352-359 | Leading zeros do not change the number read. |
| `Fetching.FetchIntRoundTrip` | mysql_rel/source/CScripting.cpp:341-375 | A single column holding n in decimal, leading zeros allowed, makes `mysql_fetch_int` return n if n is below 2^31, and 2^31 - 1 otherwise. |
| `Retrieving.RowTextInFull` | mysql_rel/source/CMySQLHandler.cpp:107-120 | From a clean stream the text of a row without a newline is its values, with the word NULL for each missing one, joined at the delimiter, exactly for one-character delimiters; it splits back into them when none contains the delimiter. |
| `Retrieving.MissingValueLooksLikeTheEnd` | mysql_rel/source/CScripting.cpp:232-239 | A row that is only a missing value makes `mysql_fetch_row_format` return 0, for every one-character delimiter but the newline. |
| `Retrieving.RetrievedField` | mysql_rel/source/CScripting.cpp:242-262 | After `mysql_retrieve_row` on a clean stream, `mysql_fetch_field_row` hands out the value, or the word NULL, of the retrieved row in the first column of the name, if and only if it has no newline. |
| `Retrieving.RetrievedRows` | mysql_rel/source/CMySQLHandler.cpp:137-145 | k calls of `mysql_retrieve_row` take exactly the first k remaining rows and leave the stream alone. |
| `Retrieving.FieldOfTheKthRow` | mysql_rel/source/CMySQLHandler.cpp:63-73 | After k + 1 calls of `mysql_retrieve_row` the field is that of row k of what was left of the result. |
| `Retrieving.FieldAfterFetchRow` | mysql_rel/source/CMySQLHandler.cpp:63-106 | After `mysql_fetch_row_format` on a row that printed, the field is that of that row. |
| `Retrieving.RowsRunOut` | mysql_rel/source/CMySQLHandler.cpp:104-146 | Behind the last row both fetches leave no row and no field, and the result stays. |
| `Retrieving.StoredRowsComeNext` | mysql_rel/source/CMySQLHandler.cpp:290-303 | After a store the rows to fetch are those of the incoming result, from its first unread one on, under its column names; the row that was current stays so. |
| `Retrieving.NothingStored` | mysql_rel/source/CMySQLHandler.cpp:296-300 | When there is no result to store, there is no row to fetch, but the row that was current stays so. |
| `Retrieving.FreedResultIsGone` | mysql_rel/source/CMySQLHandler.cpp:273-288 | After a free there is no result, row or field, and exactly the current result has been freed. |
| `Retrieving.LostResultIsGone` | mysql_rel/main.cpp:182-185 | After a lost connection there is no row to fetch; an unread result has been freed and no other result has. |
| `Retrieving.DeadHandleFetchesNothing` | mysql_rel/source/CMySQLHandler.cpp:94-146 | On a dead handle nothing is fetched, stored or freed, and the cursor stays. |
| `Retrieving.LeftTextIsHandedOut` | mysql_rel/source/CScripting.cpp:249-252 | Without a current row `mysql_fetch_field_row` hands out whatever text was left, and clears it. |
| `Retrieving.HandedOutIsCleared` | mysql_rel/source/CScripting.cpp:234-252 | A text or a number that has been handed out is not kept. |
| `Retrieving.IntLeavesText` | mysql_rel/source/CScripting.cpp:367-374 | `mysql_fetch_int` returns -1 for a text that is no number and leaves it as the kept text. |
| `Retrieving.StaleText` | mysql_rel/source/CScripting.cpp:242-375 | That text comes out of the next `mysql_fetch_field_row` even after the result has been freed, for every column name. |
| `Retrieving.CharacterClasses` | mysql_rel/source/CScripting.cpp:341-350 | The digits are those of `IsNumeric`; the characters that end a word are those of `isspace` in the C locale. |
| `Registry.IdCheckIsExact` | mysql_rel/main.h:71-75 | The unsigned check of `params - 1` lets exactly the ids 1 to size through, zero and negative cells included, if and only if there are fewer than 2^31 handles. |
| `Registry.HistoryKeepsUnique` | mysql_rel/source/CScripting.cpp:69-98 | After any connects and closes all handles have pairwise distinct connection data. |
| `Registry.ConnectIsIdempotent` | mysql_rel/source/CScripting.cpp:58-100 | `mysql_connect` returns the id of the one handle with the data; asked again it changes nothing; it grows the vector exactly when no handle had the data. |
| `Registry.CloseAnswers` | mysql_rel/source/CScripting.cpp:210-224 | `mysql_close` returns 1 and takes one handle out exactly for the ids from 1 to the number of handles; otherwise it returns 0 and changes nothing. |
| `Registry.ErasingMovesId` | mysql_rel/source/CScripting.cpp:221 | Erasing a position lowers the ids behind it by one, ends the erased one and leaves the others. |
| `Registry.HistoryMovesId` | mysql_rel/source/CScripting.cpp:58-100 | Over any history the id of a handle is the one that a script computes from the operations alone. |
| `Registry.IdsCanBeFollowed` | mysql_rel/source/CScripting.cpp:210-224 | An issued handle is gone once its own id is closed; otherwise its id is the issued one minus the number of closes of ids smaller at the time. |
| `Locks.LockDiscipline` | mysql_rel/source/CScripting.cpp:210-224 | Which calls take the mutex at all; every call returns at the depth it entered; depth two is reached exactly by closing a valid connected handle, which is exactly the call that never returns with a non-recursive mutex. |
| `Handlers.MySQLHandler.constructor` | mysql_rel/source/CMySQLHandler.cpp:31-44 | A new handler is the fresh handle of the pipeline with an empty row cursor. |
| `Handlers.MySQLHandler.Connect` | mysql_rel/source/CMySQLHandler.cpp:209-230 | Returns false at once on a live handle; otherwise the flag becomes the outcome of one attempt. Queues and rows stay. |
| `Handlers.MySQLHandler.ClearQueue` | mysql_rel/source/CMySQLHandler.cpp:244 | The loop empties the queue and drops every entry in order; callable only under the mutex. |
| `Handlers.MySQLHandler.Disconnect` | mysql_rel/source/CMySQLHandler.cpp:232-253 | The disconnect of the pipeline, with one lock and unlock exactly on a live handle. |
| `Handlers.MySQLHandler.Destroy` | mysql_rel/source/CMySQLHandler.cpp:46-51 | The destructor frees the result, if connected, and disconnects. |
| `Handlers.MySQLHandler.Query` | mysql_rel/source/CMySQLHandler.cpp:148-165 | A live handle queues the query and returns its result id; a dead one returns 0 and queues nothing. |
| `Handlers.MySQLHandler.OldQuery` | mysql_rel/source/CMySQLHandler.cpp:167-207 | With a result id, the same with OnQueryFinish; with -1, a synchronous query whose failure queues an error record and returns 0. |
| `Handlers.MySQLHandler.RunSync` | mysql_rel/source/CMySQLHandler.cpp:186-206 | The synchronous branch; the mark it raises is lowered on both paths. |
| `Handlers.MySQLHandler.MysqlFreeResult` | mysql_rel/source/CMySQLHandler.cpp:282 | A result is only ever freed while it is live, so never twice. |
| `Handlers.MySQLHandler.FreeResult` | mysql_rel/source/CMySQLHandler.cpp:273-288 | Frees the current result once and resets it and the row; a dead handle changes nothing. |
| `Handlers.MySQLHandler.StoreResult` | mysql_rel/source/CMySQLHandler.cpp:290-303 | Binds the incoming result, or NULL when there is none, and keeps the handler valid. |
| `Handlers.MySQLHandler.DiscardResult` | mysql_rel/main.cpp:182-185 | The worker stores and frees an unread result at once; the current result ends NULL and the cursor coherent. |
| `Handlers.MySQLHandler.NextRow` | mysql_rel/source/CMySQLHandler.cpp:104-106 | Row, fields and field count move together to the next row of the current result. |
| `Handlers.MySQLHandler.RetrieveRow` | mysql_rel/source/CMySQLHandler.cpp:130-146 | Moves to the next row and says whether there is one. |
| `Handlers.MySQLHandler.InsertFields` | mysql_rel/source/CMySQLHandler.cpp:107-109 | The loop inserts the whole row into a good stream and nothing into any other. |
| `Handlers.MySQLHandler.TakeText` | mysql_rel/source/CMySQLHandler.cpp:110-119 | The end of `FetchRow`: read back, then cut and clear the flags unless empty. |
| `Handlers.MySQLHandler.FetchRow` | mysql_rel/source/CMySQLHandler.cpp:94-128 | The method computes `Rows.FetchRow` on every branch; what that hands out is said of the rows themselves by `Retrieving.RowTextInFull` and, for every row and stream, by `Fetching.AnyRow`. |
| `Handlers.MySQLHandler.InsertField` | mysql_rel/source/CMySQLHandler.cpp:63-68 | The loop inserts the value of the first column of the name, if any; every index is in range. |
| `Handlers.MySQLHandler.FetchField` | mysql_rel/source/CMySQLHandler.cpp:53-74 | The method computes `Rows.FetchField` on every branch; that it reads the row fetched last is `Retrieving.RetrievedField` and `Retrieving.FieldOfTheKthRow`. |
| `Plugins.UnloadUndoesLoad` | mysql_rel/main.cpp:232-247 | Unloading a script that was not loaded before restores the list. |
| `Deliveries.UnloadKeepsTheOthers` | mysql_rel/main.cpp:238-247 | Unloading a script keeps those on both sides of its first occurrence, in order. |
| `Deliveries.UnloadOfAnother` | mysql_rel/main.cpp:238-247 | Unloading a script that is not loaded changes nothing. |
| `Plugins.ScriptHost.AmxUnload` | mysql_rel/main.cpp:238-247 | The loop removes the first occurrence of the script and nothing else. |
| `Plugins.ScriptHost.CallOnError` | mysql_rel/main.cpp:99-114 | The loop makes the calls of `Plugins.ErrorCalls`, about which `Deliveries.ErrorCallsAre` says which they are. |
| `Plugins.ScriptHost.CallOnResult` | mysql_rel/main.cpp:121-132 | The loop makes the calls of `Plugins.ResultCalls`, about which `Deliveries.ResultCallsAre` says which they are. |
| `Deliveries.ResultCallsAre` | mysql_rel/main.cpp:121-132 | For a callback, exactly the scripts that have the public named by the query are called, once each, in load order, with this handle and this query. |
| `Deliveries.ErrorCallsAre` | mysql_rel/main.cpp:99-114 | For an error, exactly the scripts that have OnQueryError are called, once each, in load order, with this handle and this record. |
| `Deliveries.TickCallsAre` | mysql_rel/main.cpp:94-135 | The calls of a tick for a handle: those for its oldest error, then those for its callback, and no others. |
| `Plugins.Plugin.constructor` | mysql_rel/main.cpp:33 | An empty plugin is valid. |
| `Plugins.Plugin.WorkerIteration` | mysql_rel/main.cpp:152-188 | One iteration is the worker pass of the pipeline on the queues and flags, and touches the rows only when the ping fails. |
| `Plugins.Plugin.RunFront` | mysql_rel/main.cpp:159-178 | The front is sent, its outcome goes to one queue, the flag follows, the front is removed, under the mutex; what a record contains is `Records.RejectedQueryIsRecorded`. |
| `Plugins.Plugin.LoseConnection` | mysql_rel/main.cpp:180-186 | The handle goes down, an unread result is dropped and one attempt to connect is made. |
| `Plugins.Plugin.WorkerSweep` | mysql_rel/main.cpp:148-191 | A sweep is the sweep of module Passes: one worker pass on every handle, each exactly once; a row cursor changes only where a ping failed. |
| `Deliveries.SweepOnRows` | mysql_rel/main.cpp:152-186 | The sweep takes the current result from a handle exactly when it looks for a query there and finds the connection lost; otherwise rows stay as they are. |
| `Plugins.Plugin.TickIteration` | mysql_rel/main.cpp:94-135 | At most the oldest error and the waiting callback are delivered, in this order. |
| `Plugins.Plugin.ProcessTick` | mysql_rel/main.cpp:89-138 | With scripts that issue no natives while they are called, a tick is the tick of module Passes on every handle and makes, per handle, exactly the calls due, passing index plus one; rows are unchanged. |
| `Plugins.Plugin.MysqlQuery` | mysql_rel/source/CScripting.cpp:114-121 | An invalid id returns 0 and changes nothing; otherwise the handle is queried and no other handle changes. |
| `Plugins.Plugin.MysqlQueryCallback` | mysql_rel/source/CScripting.cpp:123-130 | The same for a query with a callback of its own. |
| `Plugins.Plugin.MysqlReconnect` | mysql_rel/source/CScripting.cpp:102-112 | The reconnect pass on the handle; its queue survives exactly if it was dead, its callbacks and errors always. |
| `Plugins.Plugin.MysqlConnect` | mysql_rel/source/CScripting.cpp:58-100 | Refines the registry: a handle with the data is dialled again and keeps its queues and rows, otherwise one new handle is appended; all other handles are unchanged. |
| `Deliveries.ConnectAlwaysDials` | mysql_rel/source/CScripting.cpp:80-81 | A `mysql_connect` that finds the handle dials once, live or not, and the flag becomes the outcome. |
| `Plugins.Plugin.FindHandle` | mysql_rel/source/CScripting.cpp:71-86 | The loop finds the first handle with the connection data. |
| `Plugins.Plugin.MysqlClose` | mysql_rel/source/CScripting.cpp:210-224 | Refines the registry: the handle is cleared, destroyed and erased under the mutex and the rest keep their order; the lock operations are those of Locks. |
| `Deliveries.ClosedHandleIsSettled` | mysql_rel/source/CScripting.cpp:215-220 | A closed handle is down, and all that was submitted to it has been executed or dropped; what the closing drops is exactly its queue. |
| `Plugins.Plugin.TearDown` | mysql_rel/source/CScripting.cpp:216-220 | The queue is dropped and the destructor runs, so no query of a closed handle is executed. |
| `Plugins.Plugin.MysqlPing` | mysql_rel/source/CScripting.cpp:264-284 | 1 with queued queries or a good ping of a live handle, -1 otherwise, 0 for an invalid id; nothing but the mutex is touched. |
| `Plugins.Plugin.MysqlStoreResult` | mysql_rel/source/CScripting.cpp:170-177 | Stores into the handle of the id and into no other. |
| `Plugins.Plugin.MysqlFreeResult` | mysql_rel/source/CScripting.cpp:161-168 | Frees the result of the handle of the id and no other. |
| `Plugins.Plugin.MysqlRetrieveRow` | mysql_rel/source/CScripting.cpp:255-262 | Moves the row cursor of the handle of the id and no other. |
| `Plugins.Plugin.MysqlFetchRowFormat` | mysql_rel/source/CScripting.cpp:226-240 | The script gets the row text, or 0 when it is the word NULL; the kept text is cleared exactly when it is handed out. |
| `Plugins.Plugin.MysqlFetchFieldRow` | mysql_rel/source/CScripting.cpp:242-253 | The script gets the field text, which is then cleared; the result is 1 for every valid id. |
| `Plugins.Plugin.IsNumeric` | mysql_rel/source/CScripting.cpp:341-350 | True exactly when the C string at the start of the text consists of digits. |
| `Plugins.Plugin.MysqlFetchInt` | mysql_rel/source/CScripting.cpp:361-375 | The method computes `Rows.FetchInt`, about which module Fetching proves the round trip, and keeps the plugin valid. |
| `ByteOrder.ValueOfBytes` | mysql_rel/mysql_include/byte_order_generic.h:76-97 | The n low bytes of v stand for v modulo 256^n, for every n. |
| `ByteOrder.BytesOfValue` | mysql_rel/mysql_include/byte_order_generic.h:38-69 | Different byte strings of one width stand for different numbers. |
| `ByteOrder.Uint2Korr` | mysql_rel/mysql_include/byte_order_generic.h:38-44 | The little-endian number of two bytes: no partial sum wraps. |
| `ByteOrder.Sint2Korr` | mysql_rel/mysql_include/byte_order_generic.h:20-26 | Its two's complement reading. |
| `ByteOrder.Uint3Korr` | mysql_rel/mysql_include/my_byteorder.h:45-52 | The little-endian number of three bytes. |
| `ByteOrder.Sint3Korr` | mysql_rel/mysql_include/my_byteorder.h:31-43 | The two's complement reading of three bytes, by extension of bit 23. |
| `ByteOrder.Uint4Korr` | mysql_rel/mysql_include/byte_order_generic.h:46-54 | The little-endian number of four bytes: no 32-bit partial sum wraps. |
| `ByteOrder.Sint4Korr` | mysql_rel/mysql_include/byte_order_generic.h:28-36 | Its two's complement reading. |
| `ByteOrder.Uint5Korr` | mysql_rel/mysql_include/my_byteorder.h:54-63 | The little-endian number of five bytes. |
| `ByteOrder.Uint6Korr` | mysql_rel/mysql_include/my_byteorder.h:65-75 | The little-endian number of six bytes. |
| `ByteOrder.Uint8Korr` | mysql_rel/mysql_include/byte_order_generic.h:56-69 | The little-endian number of eight bytes: no 32-bit or 64-bit partial sum wraps. |
| `ByteOrder.Sint8Korr` | mysql_rel/mysql_include/byte_order_generic.h:71-74 | Its two's complement reading. |
| `ByteOrder.Int2Store` | mysql_rel/mysql_include/byte_order_generic.h:76-81 | Writes the two low bytes at the offset and no other byte. |
| `ByteOrder.Int3Store` | mysql_rel/mysql_include/my_byteorder.h:77-82 | Writes the three low bytes and no other. |
| `ByteOrder.Int4Store` | mysql_rel/mysql_include/byte_order_generic.h:83-89 | Writes the four low bytes and no other. |
| `ByteOrder.Int5Store` | mysql_rel/mysql_include/my_byteorder.h:84-91 | Writes the five low bytes and no other. |
| `ByteOrder.Int6Store` | mysql_rel/mysql_include/my_byteorder.h:93-101 | Writes the six low bytes and no other. |
| `ByteOrder.Int8Store` | mysql_rel/mysql_include/byte_order_generic.h:91-97 | The two halves, stored one after the other, are the eight bytes of the whole. |
| `ByteOrder.StoreThenRead` | mysql_rel/mysql_include/byte_order_generic.h:38-97 | Reading what was stored, at any offset of any buffer, gives the value modulo 256^n, for every width. |
| `ByteOrder.ReadThenStore` | mysql_rel/mysql_include/byte_order_generic.h:38-97 | Storing what was read leaves the buffer as it was. |
| `ByteOrder.SignedRoundTrip2` | mysql_rel/mysql_include/byte_order_generic.h:20-81 | `sint2korr` undoes `int2store` on every signed 16-bit number. |
| `ByteOrder.SignedRoundTrip3` | mysql_rel/mysql_include/my_byteorder.h:31-82 | `sint3korr` undoes `int3store` on [-2^23, 2^23). |
| `ByteOrder.SignedRoundTrip4` | mysql_rel/mysql_include/byte_order_generic.h:28-89 | `sint4korr` undoes `int4store` on every signed 32-bit number. |
| `ByteOrder.SignedRoundTrip8` | mysql_rel/mysql_include/byte_order_generic.h:71-97 | `sint8korr` undoes `int8store` on every signed 64-bit number. |
| `TrailingSpace.Trimmed` | mysql_rel/mysql_include/m_string.h:343-345 | All bytes from the result on are spaces and the byte before it is not. |
| `TrailingSpace.SpaceWordLittle` | mysql_rel/mysql_include/m_string.h:339 | A little-endian word of any width equals the word of spaces exactly when each of its bytes is a space. |
| `TrailingSpace.SpaceWordBig` | mysql_rel/mysql_include/m_string.h:321 | The same for a big-endian word. |
| `TrailingSpace.SkipTrailingSpace` | mysql_rel/mysql_include/m_string.h:334-346 | The form with eight-byte reads returns the trimmed length of every text and reads only inside it. |
| `TrailingSpace.SkipTrailingSpaceAligned` | mysql_rel/mysql_include/m_string.h:297-327 | The form with machine words returns the same for every text, every address and both word sizes; every word load is aligned and inside the text. |
| `Timespec.UnixIsExact` | mysql_rel/mysql_include/my_pthread.h:271-276 | Always normalised; the exact instant if and only if the sum fits 64 bits. |
| `Timespec.WindowsRoundsDown` | mysql_rel/mysql_include/my_pthread.h:81-84 | For every signed time and unsigned addend: the same instant rounded down to 100 ns if and only if the addend and the sum fit 63 bits. |
| `Timespec.CompareIsTheSign` | mysql_rel/mysql_include/my_pthread.h:289-293 | On normalised times the comparison is the sign of the exact difference. |
| `Timespec.DifferenceIsExact` | mysql_rel/mysql_include/my_pthread.h:297-298 | Read as a signed number, the Unix difference is exact if and only if it fits 64 bits, and then has the sign of the comparison. |
| `Timespec.WindowsDifferenceIsExact` | mysql_rel/mysql_include/my_pthread.h:101-106 | The same for the Windows form. |

## Left out

- Pipeline.WorkerNext: steps are atomic accesses to flags and queues; data races below that grain (the internals of `std::queue` and of the vector, and what the library does when `Connect` replaces the pointer or a statement of the game thread runs while the worker uses the connection) are not modelled.
- PluginSystem.Stepped: a callback that closes a handle shifts the vector under the running tick, so closing is only possible between ticks; a `push_back` by `mysql_connect` moves the vector without the mutex and is one step here.
- Plugins.Plugin.ProcessTick: its scripts issue no natives; natives issued from inside a callback are covered by the machines of Pipeline and PluginSystem, not by the classes.
- Guarantees.CallbackOwnsTheResult: a synchronous query does not look at the processing flag and the worker does not look again at the mark of a synchronous query, so no mutual exclusion of the two is claimed.
- Registry.IdsCanBeFollowed: for fewer than 2^31 handles at a time and 32-bit ids, as Registry.IdCheckIsExact shows to be necessary.
- Rows.StoreResult: the result that is replaced without being freed leaks in the source; results are numbered here and a leaked one just stays live.
- Fetching.FetchFloat: the number that `mysql_fetch_float` parses is not modelled, only what it does to the cursor.
- TrailingSpace.SkipTrailingSpaceAligned: word loads are big-endian, as on the machines that use this form; addresses do not wrap around.
- Timespec.SetWindows: the field `max_timeout_msec` is not modelled, nor the conversion of the time to a narrower `time_t`.
- ByteOrder.Sint4Korr: the signed shift into bit 31 is taken as two's complement, and the forms for x86 processors that load through a cast pointer are not modelled.
- libmysql and the AMX machine are oracles: the answers to a ping, a statement, a connection attempt and a request for a result, and the set of publics of a script, are inputs.
- A failing `mysql_init`, the error number kept for `mysql_errno`, and the arguments pushed for a call beyond the record and the handle id are not modelled.
- `Unload` erases from the vector while it iterates over it and is not modelled.
- `FetchFieldName` frees a pointer that belongs to the library and is not modelled.
- `mysql_set_charset` is a statement of the game thread in the machines and is not a method of the classes.
- The escape-string buffer, statistics, counters and the remaining natives would only add easy members; none of them sends an SQL statement.
- Thread creation, sleeping, debug logging and the lazily created singletons have no part in what is proved.
- The old connection object that a reconnect or a second connect abandons leaks in the source and is not tracked.
