# tinykeeper, modelled and proved

tinykeeper is a single-node ZooKeeper server: a tree of nodes with sessions, ephemeral nodes and
one-shot watches, driven by requests and made durable by a segmented write-ahead log. This project
models its state machine, its log down to the bytes, the start-up that replays the log, and the wire
form of `multi`.

There are two layers. Pure functions say what a step means: `LivePath.Live` is one step on a value,
`Recovery.ReplayLog` is the separately written interpreter of the log, `Runs.Run` is a whole run with
restarts, and `History` reads a node's stat off the list of events without looking at how the server
maintains it. Classes (`SessionExpiryQueue`, `SessionState`, `WatchState`, `KeeperStorage`,
`SegmentWriter`, `WalStore`, `KeeperServer`) do the work in place as the server does it, and each method
is proved equal to its step function. `Serving` is the join: a server given any calls is, in state, log
and watch tables, where the run of those calls is.

Hash sets list their elements in no particular order. A step that closes a session carries that order,
as it carries the reading of the clock, and the theorems hold for every order.

| file | content |
|---|---|
| `Base`, `Names` | integers and byte orders; paths, sequential suffixes, segment file names |
| `Tree`, `History` | the tree, its events and invariant; what every stat field means |
| `Store`, `Reaping` | the replayed state and its ephemeral index; deleting a session's nodes in any order |
| `Sessions`, `Watches`, `Storage` | the in-place classes |
| `Requests`, `LivePath`, `Recovery`, `Replayed` | steps, transactions, replay, and the states it reaches |
| `Answers`, `Notices` | what clients are told, what it means, and who hears of which change |
| `Runs`, `Reachable`, `Promises` | whole runs, and what holds in all of them |
| `Stale`, `Anomalies` | runs whose replayed index lags behind, and runs that go wrong |
| `Record`, `Wal` | record framing, segments, reopening, crashes |
| `Server`, `Serving`, `Durability` | the handlers and start-up; whole runs in place; from bytes back to the live state |
| `Wire` | the `multi` request and response streams |

## Where the code does less than one would expect

Each point is proved; where the server falls short of a property, the exact condition is given.

- Replay equals the live state at every point of a run if and only if every step meets its guard
  (`Recovery.Guard`, `Runs.GuardedIff`). At a single point the two can agree again by accident. The guards
  exclude four cases: a create that storage refuses after it was logged (a parent that is ephemeral, a
  sequential name that exists), a delete of `/`, a delete of an ephemeral node, and the Close request of
  a session that exists. Transactions, writes, session creation and expiry are always guarded.
- Close leaves no record. A restart brings the session and its nodes back, and takes back the count that
  numbers sequential names. If the closing session owned k nodes below a parent and m names were given
  there afterwards, the restart loses the last min(k, m) of the answered nodes; the other answered names
  then stand for nodes that other requests created; and the next creates give answered names out again
  (`Anomalies.NamesRepeatIff`, an exact account for every k and m; `Anomalies.NameGivenTwice`). With k = 0
  nothing of this happens. While no restart changes the state, which guarded runs ensure, names never
  repeat (`Reachable.NamesNeverRepeat`).
- A single delete of an ephemeral node is replayed without removing the path from the index. Replay keeps
  the index exact after every record if and only if this never happens (`Replayed.AlwaysExactIff`). The
  entry stays stale until the path is created again for the same owner. Stale entries alone do no harm;
  the expiry of their session does (`Stale.WeaklyGuardedIff`). If a stale path is missing then, or has a
  node below it that is neither stale nor the session's, every later start fails. Otherwise deletions
  in some order succeed, and a server that starts has silently lost the stale paths: nodes created and
  answered since, which the running server still has (`Stale.ExpiryDamages`, `Anomalies.DeletedEphemeralBlocksStart`,
  `Anomalies.RecreatedNodeIsLost`).
- With such an index the clean-up after a session can depend on the order of a hash set. Deletions succeed
  in some order if and only if everything below the paths is among them, and in every order if and only
  if they are leaves (`Reaping.SomeOrderIff`, `Reaping.EveryOrderIff`).
- `delete` of the childless root is logged, answered Ok and announced to watchers although storage
  refuses it.
- `//x` has parent `/` and name `x`, like `/x`. The tree invariant survives this everywhere but in the
  child set of the root, and there exactly until one of the two is deleted (`Tree.RootDeleteExact`).
- A sequential create whose requested path exists is refused when sent alone and accepted inside a
  transaction (`LivePath.MultiMatchesSingles`).
- Reopening does not cut off a torn tail. Start-up is right (`Durability.CrashRecovery`), but what is
  appended afterwards can be swallowed (`Record.TornTailSwallows`) or make the log unreadable
  (`Record.TornTailCorrupts`), so the store is claimed to be ready
  for appending only when nothing is torn. The comment at src/changelog/wal_store.rs:117 promises every
  record ever written; the code is followed.
- Recovered sessions have no deadline until their first request, so one that stays silent never expires
  (`Serving.Reopen`, `Serving.Serve`), and recovery restores no watches.
- Expiry fires and clears no watches; Close clears the session's own and fires none.

## Model

| member | source | states |
|---|---|---|
| Runs.ReplayEqualsLive | src/keeper_server.rs:80-161 | replaying the log of any guarded run, restarts included, from the empty state gives exactly the live node map, stats, last zxid, ephemeral index, session timeouts and next session id, in whatever orders hash sets come |
| Runs.GuardIsNecessary | src/keeper_server.rs:80-161 | a guarded run extended by one step still replays to its live state if and only if that step meets its guard |
| Runs.GuardedIff | src/keeper_server.rs:80-161 | a run is guarded if and only if replaying its log gives its live state at every point of it |
| Recovery.StepReplaysIff | src/keeper_server.rs:693-839 | for every request, expiry and session creation: replaying the record it logged (or none) from the state before gives the state after, if and only if the guard holds |
| Recovery.MultiReplays | src/keeper_server.rs:125-159 | the record of a committed transaction replays without any failed `expect` to the staged image, although checks were dropped and sequential creates were logged without suffix |
| Recovery.LiveMultiReplays | src/keeper_server.rs:477-494 | every transaction, committed or aborted, satisfies replay-equals-live with no guard at all |
| Recovery.CreateReplaysIff | src/keeper_server.rs:715-818 | a logged create replays to the live state if storage accepts it, and fails if storage refused it after it was logged |
| Recovery.RemoveReplaysIff | src/keeper_server.rs:104-108 | a logged delete replays to the live state if and only if it named neither the root nor an ephemeral node; the root fails the start, an ephemeral node differs in the ephemeral index alone |
| Recovery.CloseIdleIff | src/keeper_server.rs:272-288 | the unlogged Close changes nothing of the replayed state if and only if the session is in neither the timeout table nor the ephemeral index |
| Recovery.StaleIndexStopsRecovery | src/keeper_server.rs:117-124 | an expiry that follows the delete of an ephemeral node at once leaves the live server sound, and a log whose replay fails in every order of deletions; for every later expiry see Stale.ExpiryIff |
| Recovery.ReplayConcat | src/keeper_server.rs:80-161 | replaying two logs one after the other is replaying their concatenation |
| Runs.EveryRun | src/keeper_server.rs:216-304 | in every reachable state, after any steps and any successful restarts: the tree invariant, the tree is the fold of its trace of events, event zxids are ordered, and the log is numbered 1 to last_zxid |
| Runs.EveryIndex | src/keeper_server.rs:104-108 | the ephemeral index is exact in every reachable state unless the server was started from a log in which a single Delete names an ephemeral node |
| Runs.TraceGrows | src/keeper_server.rs:80-161 | while no restart changes the state, the trace only grows |
| Runs.TraceIsAll | src/keeper_server.rs:80-161 | and then it is all that ever happened |
| Replayed.LogFollows | src/keeper_server.rs:80-161 | whenever a log replays, guarded or not, the result satisfies the tree invariant, stands at the last index, and is the fold of the replayed events in the order of their zxids |
| Replayed.EntryFollows | src/keeper_server.rs:81-160 | the same for one record; an exact index stays exact if and only if the record is not a single Delete of an ephemeral node |
| Replayed.AlwaysExactIff | src/keeper_server.rs:104-108 | replay keeps the ephemeral index exact after every record if and only if no single Delete record names a node that is ephemeral at that point |
| Reachable.EveryStat | src/storage.rs:182-236 | in every reachable state each stat field and the data are those read off the trace; czxid <= mzxid, pzxid <= last_zxid; cversion minus the number of children is twice the child deletes |
| Reachable.EveryTree | src/storage.rs:152-298 | over paths without a double slash every reachable tree is well formed, the root included |
| Reachable.Lifetime | src/storage.rs:186-256 | one node at two points of a run, neither deleted nor created in between and no restart changing the state: it is still there, czxid, ctime and owner are equal, mzxid, pzxid and (below overflow) both counters have not decreased |
| Reachable.OneWritePerVersion | src/keeper_server.rs:918-977 | over the trace of a whole run, alone or inside transactions, at most one write conditioned on one version of one lifetime of a node is applied (below i32 overflow) |
| Reachable.OneWriteEver | src/keeper_server.rs:918-977 | the same of all writes that ever happened, while no restart changes the state; Promises.AtMostOneOk says it of requests and answers |
| Reachable.SequentialOverRuns | src/storage.rs:182-210 | over the trace of a whole run, two sequential creates in one lifetime of a parent get ten-digit suffixes that increase strictly |
| Reachable.NamesNeverRepeat | src/storage.rs:182-210 | while no restart changes the state, no sequential name is given twice in a lifetime of its parent, of all that ever happened |
| Reachable.SessionIdsNeverRepeat | src/storage.rs:44-47 | over any run with any restarts the next session id is one more than the number of handshakes so far, so no id is given twice |
| Reachable.WatchesOverRuns | src/watch_state.rs:70-209 | over any run, distinct watches registered equal notices delivered plus watches cleared, lost at a restart, and outstanding; that changes do fire is Notices.EveryWatchIsTold |
| Stale.StepFollows | src/keeper_server.rs:80-161 | from a replayed state that differs from the live one by stale index entries alone, every weakly guarded step replays, in every order, to a state that differs by exactly the stale entries told from the run |
| Stale.WeakGuardIff | src/keeper_server.rs:80-161 | such a step replays to the live state in all but the ephemeral index if and only if it meets the weak guard |
| Stale.ExpiryIff | src/keeper_server.rs:117-124 | the expiry of a session with stale entries replays, in some order, if and only if every stale path exists again with nothing foreign below it; and then the replayed tree lacks exactly those paths, which the live tree keeps |
| Stale.ExpiryDamages | src/keeper_server.rs:117-124 | the same over whole runs: every later start fails for good, or it succeeds and has lost exactly the stale paths; in every order if they and the owned nodes are leaves |
| Stale.RunLags | src/keeper_server.rs:80-161 | after every weakly guarded run replay succeeds with everything but the stale entries |
| Stale.WeaklyGuardedIff | src/keeper_server.rs:80-161 | a run whose restarts change nothing can be started again at every point with all but the index intact if and only if it is weakly guarded |
| Stale.GuardedHasNothingStale | src/keeper_server.rs:80-161 | guarded runs are weakly guarded and have no stale entries |
| Anomalies.DeletedEphemeralBlocksStart | src/keeper_server.rs:1079-1083 | from every guarded run that has an ephemeral node, deleting it and letting its session expire at once leaves a sound live server, and no log that continues this one ever replays |
| Anomalies.RecreatedNodeIsLost | src/keeper_server.rs:104-124 | if before the expiry another session creates the path again and is answered, the start succeeds in every order and has lost that node |
| Anomalies.FirstEphemeral | src/keeper_server.rs:804-818 | such runs exist: two handshakes and one ephemeral create |
| Anomalies.NamesRepeatIff | src/keeper_server.rs:272-288 | a session that owns k nodes below a parent closes, m sequential creates are answered, and the server restarts: the i-th name answered is still there if and only if i + k < m and then holds the data of the (i + k)-th create, and the n-th later create is answered it again if and only if m + n = k + i |
| Anomalies.NameGivenTwice | src/keeper_server.rs:272-288 | a concrete run of seven steps in which one name is given twice and an answered node is lost |
| Serving.Serve | src/keeper_server.rs:170-304 | the in-place server given any handshakes, expiries and messages goes where the run goes, in state, log and watch tables, delivers exactly the run's notices, and has each session due one timeout, rounded up to the interval, after it was last heard of |
| Serving.ServeFresh | src/keeper_server.rs:75-304 | the same from a start in an empty directory; without a restart every registered session has a deadline, and log files are cut at the size limit |
| Serving.Reopen | src/keeper_server.rs:75-168 | a restart on the server's own disk leads where the run with a restart leads, with every restored session without a deadline, and fails only after an unguarded run |
| Serving.Answer | src/keeper_server.rs:216-304 | one call performs one action of the run; sessions without a deadline stay so unless heard of |
| Serving.ListExpired | src/keeper_server.rs:208-214 | of the sessions heard of, none is listed as expired before its timeout has passed, and each is listed at most one interval later |
| Serving.CrashAndReopen | src/keeper_server.rs:75-168 | after a crash in the middle of a step the server that starts is where the run with or without that step leads, restarted, and can go on serving unless part of the record, but not all, was kept |
| Server.KeeperServer.GetExpiredSessions | src/keeper_server.rs:208-214 | lists exactly the sessions whose deadline has come, all registered, none twice |
| Durability.CrashRecovery | src/changelog/wal_store.rs:117-138 | a crash in the middle of a step that keeps any byte prefix of the record: the directory reads back as the log of the run with or without that step, with it just when the record is whole; after a guarded run replaying it gives that run's state, so no answered step is lost |
| Durability.CrashAndStart | src/keeper_server.rs:75-168 | end to end in place: a running server that crashes in the middle of a step and is started again from its disk serves the replay of the log of the run with or without that step; after a guarded run the start succeeds in that run's state |
| Durability.CrashLeavesStartable | src/changelog/wal_store.rs:37-138 | what any crash leaves meets everything start-up expects, for the log of the surviving run, with nothing torn if none or all of the record was kept |
| Durability.StartableLog | src/keeper_server.rs:170-190 | the log of every run is gapless, numbered up to last_zxid, and names only genuine sessions |
| Durability.CleanRestart | src/keeper_server.rs:75-168 | after a clean stop the bytes read back as the log, and after a guarded run a restart changes nothing |
| Durability.NextRecord | src/keeper_server.rs:784-789 | every step logs at most one record, under the next index |
| Answers.CreateAnswers | src/keeper_server.rs:715-818 | the exact condition for each answer to a create: NodeExists, NoNode, BadArguments, Ok |
| Answers.CreateEffect | src/keeper_server.rs:804-839 | a create is answered Ok exactly if it made one node, new, at the path answered, with this data, time and owner, its parent told and nothing else changed; otherwise the tree is unchanged, and logged only if storage refused late |
| Answers.SetAnswers | src/keeper_server.rs:920-994 | a write at the version asked for changes exactly that node and answers its new stat; a missing node is answered NoNode and another version BadVersion, with no effect, record or notice |
| Answers.RemoveAnswers | src/keeper_server.rs:1017-1098 | the same for a delete, with NotEmpty for children; the childless root is answered Ok and logged, and stays |
| Answers.CloseAnswers | src/keeper_server.rs:272-288 | Close takes exactly the nodes the session owns, its timeout and its index entry, without record or zxid, and clears its watches |
| Answers.ExpireAnswers | src/keeper_server.rs:190-206 | expiry takes the same, with one record and one zxid, and says nothing to any watch |
| Answers.OtherAnswers | src/keeper_server.rs:170-188 | handshakes add one session under the next id and one record; reads register at most the watch asked for and answer Ok exactly if the node exists; heartbeats do nothing |
| Answers.OpVerdict | src/keeper_server.rs:340-442 | inside a transaction: the exact condition for the success and for each failure code of each kind of operation |
| Answers.OpEffect | src/keeper_server.rs:340-442 | what each successful operation does to the staging copy, answers and logs; a check changes nothing |
| Answers.Committed | src/keeper_server.rs:477-509 | a committed transaction: every operation succeeded on the copy the earlier ones left; one zxid, one record, one answer an operation, in order |
| Answers.ChecksHold | src/keeper_server.rs:341-350 | at each check of a committed transaction the node was there with the version asked for; a transaction fails at a check only if not, and the code says which |
| Answers.FailuresMatch | src/keeper_server.rs:380-441 | an operation that fails inside a transaction is refused alone with the same code and no effect, if and only if it is none of the named exceptions |
| Notices.StepAnnounces | src/keeper_server.rs:820-822 | which calls into the watch tables every step makes: one firing for each change of the tree, in order, at its path and of its kind; none for Expiry; the clearing for Close; one more for an accepted delete of the root |
| Notices.EveryWatchIsTold | src/keeper_server.rs:1085 | in any run a watch that a change concerns is told of the first such change and used up; every other stays |
| Notices.EveryNoticeIsOwed | src/watch_state.rs:147-209 | and nothing is sent that an outstanding watch was not owed |
| Notices.ConcernsIff | src/watch_state.rs:147-202 | whom a firing wakes: data watches on the path; for creates and deletes list watches on the parent; for deletes also on the path |
| Notices.ClosedWatches | src/keeper_server.rs:278 | Close clears exactly the watches of its session; expiry clears none; neither sends anything |
| Promises.AtMostOneOk | src/keeper_server.rs:935-947 | over a run whose restarts change nothing: of the writes, alone or inside transactions, that ask for one version of one lifetime of a node, at most one is answered Ok |
| Promises.SetMeetsHistory | src/keeper_server.rs:920-947 | in any run a write is answered Ok exactly if the node exists and the version asked for is the number of its writes in this lifetime |
| Promises.ChecksMeetHistory | src/keeper_server.rs:341-350 | the same for the checks of a transaction, its own earlier writes included, with the code of a failure |
| LivePath.AbortedMultiChangesNothing | src/keeper_server.rs:446-473 | an aborted transaction leaves state, log and watches as they were and fires nothing; the answers are Error(Ok) before the failing operation, its code there and RuntimeInconsistency after it, and it is the first that fails in order |
| LivePath.AbortPoint | src/keeper_server.rs:444-446 | the operations before the reported index all succeed on the staging copy and the one at the index fails with the reported code |
| LivePath.AbortSticks | src/keeper_server.rs:469-473 | once an operation has failed, what follows it does not matter |
| LivePath.MultiMatchesSingles | src/keeper_server.rs:339-442 | an operation that succeeds inside a transaction does what the single request does at that zxid, in state, events, notifications and answer, if and only if it is not a create whose requested path exists (possible only for a sequential one); which operations succeed is Answers.OpVerdict |
| LivePath.MultiFoldSound | src/keeper_server.rs:326-339 | a committed transaction keeps the invariants, is the fold of its events at one fresh zxid, and answers once an operation |
| LivePath.StepSound | src/keeper_server.rs:216-304 | every step keeps the tree invariant and the exactness of the index, changes the tree by exactly its events at the state's zxid, and takes one zxid if it logs and none if it does not |
| History.HistoryDeterminesTree | src/storage.rs:152-298 | which paths exist, their data and all nine stat fields are functions of the history of creates, writes and deletes |
| History.StatZxidsOrdered | src/storage.rs:186-256 | czxid <= mzxid <= last and czxid <= pzxid <= last in every state of an ordered history |
| History.VersionsGuardWrites | src/storage.rs:247-256 | two applied writes of one lifetime cannot have been conditioned on the same version |
| History.SequentialNamesIncrease | src/storage.rs:182-210 | sequential suffixes under one parent strictly increase as strings, whatever other creates and deletes intervene |
| History.ChildrenConserved | src/storage.rs:227-236 | a node has exactly as many children as child creates exceed child deletes in its lifetime; for the root this needs paths without a double slash |
| Tree.ApplyKeepsTreeInv | src/storage.rs:216-234 | every create, write and delete keeps the tree invariant, whatever the path |
| Tree.EphemeralsAreLeaves | src/storage.rs:179-181 | ephemeral nodes have no children |
| Tree.LeafDeletable | src/storage.rs:287-295 | a childless node other than the root can be deleted, and no path hangs below it |
| Tree.RootStaysExact | src/storage.rs:216-234 | creates and writes keep a well-formed tree well formed |
| Tree.RootDeleteExact | src/storage.rs:287-292 | a delete keeps the tree well formed if and only if no twin spelling (`/x`, `//x`) of the node is present |
| Tree.ReachableTree | src/storage.rs:121-298 | the invariant holds after every history, and full well-formedness over paths without a double slash |
| Store.CreateEvent | src/storage.rs:160-214 | what `create` accepts is an applicable create under the requested parent, at the current zxid, owned by the session just when the flag says so |
| Store.DeleteNeverPanics | src/storage.rs:278-291 | the `unwrap` on the parent never fails, and `delete` accepts exactly the childless nodes other than the root |
| Store.IndexDetermined | src/storage.rs:62-89 | an exact ephemeral index is a function of the tree: there is only one |
| Store.PerformKeepsIndex | src/storage.rs:219-225 | create, write and delete keep the ephemeral index exact: under each owner precisely its nodes, and no empty entry |
| Store.PerformKeepsInv | src/storage.rs:152-298 | the two invariants are kept together |
| Store.ReapStep | src/storage.rs:287-295 | deleting one more leaf moves from one closed form of the reaped tree to the next |
| Store.ReapAnyOrder | src/keeper_server.rs:202-205 | deleting a set of leaves one by one succeeds at every step in any order and always ends in the same tree |
| Reaping.SuccessfulOrder | src/keeper_server.rs:117-124 | whenever deleting some paths succeeds in some order, the result is the closed form that mentions no order, and everything below those paths was among them |
| Reaping.SomeOrderIff | src/keeper_server.rs:117-124 | some order of deletions succeeds if and only if every path exists and everything below these paths is among them |
| Reaping.EveryOrderIff | src/keeper_server.rs:117-124 | every order succeeds if and only if the paths are leaves |
| Reaping.CloseAnyOrder | src/keeper_server.rs:202-205 | with an exact index the live clean-up, which ignores failures, has one result in every order |
| Store.OwnedAreLeaves | src/storage.rs:82-89 | the paths a closed session owned are leaves whose parents stay |
| Store.CloseExact | src/keeper_server.rs:274-277 | closing a session removes exactly the nodes it owns |
| Store.CloseKeepsInv | src/keeper_server.rs:202-205 | and keeps both invariants |
| Names.SplitUnique | src/storage.rs:160-163 | `rsplit_once` finds the only split whose last part has no slash |
| Names.PathFixed | src/storage.rs:160-173 | parent and child name fix a path, except directly below the root, where `/x` and `//x` share both |
| Names.SuffixKeepsParent | src/storage.rs:206-210 | the sequential suffix moves neither the parent nor the split |
| Names.SeqSuffixOrder | src/storage.rs:206-207 | suffixes of non-negative counters have ten digits and sort as strings as the counters do |
| Names.SeqSuffixValue | src/storage.rs:206-207 | the suffix is the counter in decimal, after its sign |
| Names.SegmentNameRoundTrip | src/changelog/wal_store.rs:144-153 | parsing a segment file name gives back the index that made it, if and only if that fits a u64 |
| Names.SegmentNameInjective | src/changelog/wal_store.rs:144-146 | no two indexes share a file name |
| Base.WrapTwice | src/storage.rs:232-233 | wrapping increments add up: a counter is its true count modulo 2^32 |
| Sessions.BucketWindow | src/session_expiry_queue.rs:32-34 | a deadline is a multiple of the interval and lies in [t, t + interval) if and only if t + interval - 1 is non-negative or t - 1 is a multiple of the interval (i64 division truncates) |
| Sessions.SessionExpiryQueue.Touch | src/session_expiry_queue.rs:21-40 | on the plain map from id to deadline: sets one deadline and nothing else, both indexes staying inverse with no empty bucket |
| Sessions.SessionExpiryQueue.Remove | src/session_expiry_queue.rs:44-55 | removes one deadline and tells whether there was one |
| Sessions.SessionExpiryQueue.GetExpired | src/session_expiry_queue.rs:57-62 | lists, without duplicates and earliest first, exactly the ids whose deadline is at most now |
| Sessions.SessionState.CreateSession | src/storage.rs:44-50 | the next id, in neither table before, registered and queued |
| Sessions.SessionState.TouchSession | src/storage.rs:54-59 | refreshes the deadline of a registered session; an unknown one gets none |
| Sessions.SessionState.AddEphemeral | src/storage.rs:62-64 | adds one path under one owner and nothing else |
| Sessions.SessionState.RemoveEphemeral | src/storage.rs:67-74 | removes one path under one owner and the entry when it empties |
| Sessions.SessionState.CloseSession | src/storage.rs:82-89 | removes the session from all three tables and lists, without duplicates, exactly the paths it owned |
| Sessions.SessionState.GetExpired | src/storage.rs:91-93 | lists exactly the due sessions, and only registered ones |
| Sessions.SessionState.IsAlive | src/storage.rs:95-97 | a session that is not alive has no deadline, so it is never listed for expiry; an id not yet given is not alive |
| Sessions.SessionState.RestoreSession | src/storage.rs:99-104 | restores timeout and next id, but no deadline: recovered sessions do not expire until touched |
| Watches.WatchesConserved | src/watch_state.rs:70-209 | over every list of register, clear and fire calls and losses of the tables, distinct registrations made equal notices delivered plus registrations cleared, lost and outstanding |
| Watches.DeliveredCounts | src/watch_state.rs:147-209 | the deliveries so counted are the notices sent |
| Watches.OpConserves | src/watch_state.rs:70-209 | the same balance for each single call |
| Watches.OneNoticeEach | src/watch_state.rs:147-209 | a firing yields exactly one notice for each registration it wakes |
| Watches.WokenStep | src/watch_state.rs:115-143 | draining the woken watches one after another adds up to the reference set of notices, none twice |
| Watches.WatchState.Register | src/watch_state.rs:70-88 | adds one registration to the relation, both indexes agreeing |
| Watches.WatchState.Clear | src/watch_state.rs:90-111 | removes exactly the session's registrations from both indexes, leaving no empty bucket |
| Watches.WatchState.FireOneshot | src/watch_state.rs:115-143 | removes exactly the registrations of one path and type and notifies each once |
| Watches.WatchState.Fire | src/watch_state.rs:147-209 | notifies and removes exactly the registrations that the event wakes under the reference semantics; all others stay |
| Storage.KeeperStorage.constructor | src/storage.rs:121-137 | the empty state: a root alone, no sessions, no watches |
| Storage.KeeperStorage.Clone | src/storage.rs:107-118 | the copy equals the original in every part and shares none |
| Storage.KeeperStorage.NextZxid | src/storage.rs:143-146 | one more, and nothing else changes |
| Storage.KeeperStorage.SetLastZxid | src/storage.rs:148-150 | sets the zxid alone |
| Storage.KeeperStorage.Create | src/storage.rs:152-237 | in place: a refusal changes nothing; otherwise node, index and parent change exactly as one create event |
| Storage.KeeperStorage.Set | src/storage.rs:247-260 | in place: exactly one write event, or NotFound and no change |
| Storage.KeeperStorage.Delete | src/storage.rs:262-298 | in place: exactly one delete event on the tree, the index untouched; a refusal changes nothing |
| Storage.KeeperStorage.DeleteIndexed | src/keeper_server.rs:1079-1083 | a delete with its ephemeral bookkeeping keeps the index exact |
| Storage.KeeperStorage.Reap | src/keeper_server.rs:202-205 | the cleanup loop, in whatever order: the tree is that of the deletions tried in that order, and ok tells exactly whether all succeeded |
| Storage.KeeperStorage.CloseSession | src/keeper_server.rs:274-277 | the session is gone from every table, and its nodes were deleted in the order its set was listed |
| Storage.KeeperStorage.StageOp | src/keeper_server.rs:340-442 | one operation of a transaction in place on the staging copy: exactly the step that Answers.OpVerdict and OpEffect describe, with its notices |
| Storage.KeeperStorage.StageAll | src/keeper_server.rs:339-475 | the loop of a transaction: on success everything the fold of its operations says, on failure the index and code |
| Storage.KeeperStorage.ReplayWrite | src/keeper_server.rs:131-157 | one logged write, or a failed `expect` |
| Storage.KeeperStorage.ReplayClose | src/keeper_server.rs:117-124 | a logged close, in whatever order: success only if the paths were prunable, always with the same result, and certain for leaves |
| Storage.KeeperStorage.ReplayRecord | src/keeper_server.rs:81-160 | one record interpreted in place: success only with the interpreter's state, so false in every order where the interpreter answers None; certain where the order cannot matter |
| Storage.CreateAccepted | src/storage.rs:175-214 | when no check refuses, the create is this event, with this path, owner and effect |
| Record.Encode | src/changelog/record.rs:43-67 | appends exactly one framed record, the checksum patched over header and payload |
| Record.DecodeRecord | src/changelog/record.rs:75-120 | the three outcomes; the buffer advances on a complete record only |
| Record.RecordLayout | src/changelog/record.rs:22-40 | where each field of a record is, and that the checksum covers all that follows it |
| Record.DecodeEncoded | src/changelog/record.rs:43-120 | decoding an encoded record followed by anything returns it and exactly the rest, if and only if index, term and payload length fit their fields |
| Record.TornRecord | src/changelog/record.rs:76-90 | every proper prefix of a record reads as incomplete, never as a record or as corruption |
| Record.DecodeAllEncoded | src/changelog/wal_store.rs:126-134 | the decode loop over encoded records and an incomplete tail returns those records in order |
| Record.CrashPrefix | src/changelog/record.rs:76-90 | any byte prefix of unflushed records is some whole records, in order, and an incomplete one |
| Record.CrashRecords | src/changelog/wal_store.rs:122-135 | after a crash the loop returns the flushed records and then the unflushed ones that survived whole |
| Record.TornTailSwallows | src/changelog/wal_store.rs:62-65 | records appended after a torn tail are never read again while they do not make up the missing bytes: of the record if its header is whole, of a header if not |
| Record.TornTailCorrupts | src/changelog/record.rs:92-97 | once they fill the gap behind a whole header, the log reads as corrupt and is refused, unless the checksums of the true and the mixed payload agree |
| Record.DecodeFile | src/changelog/wal_store.rs:126-134 | the loop computes the decode fold and stops at corruption |
| Wal.SegmentWriter.Append | src/changelog/segment_writer.rs:56-60 | one record more in the buffer, counted in bytes |
| Wal.SegmentWriter.Flush | src/changelog/segment_writer.rs:63-71 | the whole buffer moves to the end of the file, nothing else changes |
| Wal.ChainIncreasing | src/changelog/wal_store.rs:82-115 | indexes increase strictly over all segments |
| Wal.ChainLookup | src/changelog/wal_store.rs:23-25 | each record's index is at least its segment's key and below the next key |
| Wal.KeysOrdered | src/changelog/wal_store.rs:106-115 | segment keys increase strictly |
| Wal.PlaceAppend | src/changelog/wal_store.rs:82-86 | appending a larger index keeps the log well placed |
| Wal.PlaceRotate | src/changelog/wal_store.rs:106-115 | rotation finds a key above every key and index there is, also after reopening on an empty last segment |
| Wal.BeginSegment | src/changelog/wal_store.rs:106-115 | after the new file is created every older segment still holds exactly its records |
| Wal.ReadBackWhole | src/changelog/wal_store.rs:118-138 | files that hold their segments read back as the concatenated log |
| Wal.ReadLeftBehind | src/changelog/wal_store.rs:118-138 | a directory with a torn last record reads back as exactly its whole records in order |
| Wal.StoreLeavesBehind | src/changelog/wal_store.rs:96-115 | a running store with an empty buffer has exactly its log on disk, segment by segment, nothing torn |
| Wal.CrashLeavesBehind | src/changelog/segment_writer.rs:63-71 | a crash that keeps any prefix of the buffer leaves a directory of whole records and one torn tail |
| Wal.ScannedAll | src/changelog/wal_store.rs:40-49 | the directory scan finds exactly the segments, and its greatest key is the newest one |
| Wal.LeastIsNext | src/changelog/wal_store.rs:122 | the next unread segment is the one with the least key |
| Wal.WalStore.Open | src/changelog/wal_store.rs:37-80 | reopening succeeds on every directory a server leaves, with the last index right and the store ready when nothing is torn |
| Wal.WalStore.OpenAndRead | src/changelog/wal_store.rs:37-138 | opening and reading returns exactly the whole records on disk |
| Wal.WalStore.Replay | src/changelog/wal_store.rs:118-138 | reads the segments in key order and fails on the first corrupt one |
| Wal.WalStore.Append | src/changelog/wal_store.rs:82-86 | the log grows by one record, which is pending |
| Wal.WalStore.Flush | src/changelog/wal_store.rs:96-104 | nothing is lost and nothing stays in the buffer; below the size limit the records join the newest segment, and at the limit that segment is closed with them and an empty one begins at the next index; afterwards the newest file is below the limit, and every file closed since opening reached it with its last flush |
| Wal.WalStore.Rotate | src/changelog/wal_store.rs:106-115 | a new empty segment above all others; nothing else changes |
| Server.Start | src/keeper_server.rs:75-168 | start-up from any directory a server or a crash left behind: a server that starts is in the state the whole records replay to, with no watches and no deadlines; a log that does not replay never starts, and one that replays in every order always does |
| Server.ReplayRecords | src/keeper_server.rs:80-161 | the start-up loop ends in the interpreter's state or fails; it never succeeds on a log the interpreter rejects and always on one that replays in every order |
| Server.KeeperServer.WriteAhead | src/keeper_server.rs:788-802 | when it returns the record is on disk, and it is the next of the log |
| Server.KeeperServer.Commit | src/keeper_server.rs:786-802 | takes one zxid, logs under it, changes nothing else |
| Server.KeeperServer.Apply | src/keeper_server.rs:216-304 | every request in place: state, log, reply, watch tables and notices are those of the step function; the deadline of the session alone is refreshed, or dropped by Close |
| Server.KeeperServer.HandleCreate | src/keeper_server.rs:693-839 | in place: exactly the step whose answers and effects Answers.CreateAnswers and CreateEffect give |
| Server.KeeperServer.HandleSet | src/keeper_server.rs:899-994 | in place: exactly the step that Answers.SetAnswers describes |
| Server.KeeperServer.HandleDelete | src/keeper_server.rs:996-1098 | in place: exactly the step that Answers.RemoveAnswers describes |
| Server.KeeperServer.HandleMulti | src/keeper_server.rs:306-510 | clone, stage, then one record and the swap, or nothing at all |
| Server.KeeperServer.AbortMulti | src/keeper_server.rs:446-473 | the answer of a transaction that failed, with state, log and watches as they were |
| Server.KeeperServer.RolledBack | src/keeper_server.rs:446-458 | fill, push and resize produce the answers of an aborted transaction |
| Server.KeeperServer.SwapIn | src/keeper_server.rs:477-495 | one durable record, then the copy replaces tree, sessions, deadlines and watches together |
| Server.KeeperServer.HandleClose | src/keeper_server.rs:272-288 | closes the session without a record or a zxid and clears its watches |
| Server.KeeperServer.HandleRead | src/keeper_server.rs:511-560 | a read changes nothing but one watch registration |
| Server.KeeperServer.CreateSession | src/keeper_server.rs:170-188 | the next id, in no table before, one record, one deadline |
| Server.KeeperServer.CloseSession | src/keeper_server.rs:190-206 | logged first, then applied; fires and clears no watch |
| Wire.RequestRoundTrip | src/protocol.rs:553-581 | parsing an encoded list of operations followed by any bytes returns the list, access control lists dropped, and leaves exactly those bytes |
| Wire.MultiRequestFromBytes | src/protocol.rs:553-581 | the loop ends, computes the recursive parser, and leaves the buffer untouched unless it succeeds |
| Wire.HeadersConsumed | src/protocol.rs:559-577 | every operation consumes at least nine bytes, and so does the end |
| Wire.HeadersDecide | src/protocol.rs:559-575 | only a full sentinel ends a request; an odd done byte, an error field other than -1 and an unknown operation are refused |
| Wire.ParseHeader | src/protocol.rs:464-485 | a header takes nine bytes or yields None, and never panics |
| Wire.ParseCheck | src/protocol.rs:506-527 | the checked sub-request never panics |
| Wire.CreateFromBytes | src/protocol.rs:150-176 | the in-place parser, access control list included, computes the recursive one |
| Wire.EncodeInto | src/protocol.rs:605-672 | appends exactly one encoded response |
| Wire.MultiResponseToBytes | src/protocol.rs:684-699 | one entry a response, then the footer |
| Wire.ResponsesRoundTrip | src/protocol.rs:603-700 | a reference decoder, which requires the error field of each header to agree with its body, recovers every response list, whatever follows it |
| Wire.ResponsesPrefixFree | src/protocol.rs:603-700 | no encoding of a response list is a prefix of another |
| Wire.StatRoundTrip | src/protocol.rs:109-126 | a stat can be read back from its 68 bytes |
| Wire.CodeRoundTrip | src/protocol.rs:64-74 | distinct error codes stay distinct on the wire |
| Base.LERoundTrip | src/changelog/record.rs:58-61 | a little-endian field reads back when the value fits it |
| Base.ByteOrders | src/changelog/record.rs:53-61 | the two byte orders are reverse, and the little-endian one begins with the low byte |
| Base.I32RoundTrip | src/protocol.rs:457-498 | `to_be_bytes` and `get_i32` are inverse on the whole range |
| Base.I64RoundTrip | src/protocol.rs:109-126 | and so for 64 bits |

## Left out

- Failed flushes and rotations: every flush succeeds. The handlers' answers to a failed flush are not modelled.
- Concurrency: one request, one expiry or one handshake is one atomic step, as under the storage lock. That the dispatcher lists expired sessions and closes them under separate locks is not modelled.
- The network, the dispatcher's channels, configuration, and the clock: time is a parameter of each step.
- The payload codec and the checksum: both are parameters. Decoding is assumed to undo encoding for the operations of the log; nothing is assumed of the checksum, and no detection of corruption is claimed.
- `fsync` and directory order: flushed bytes persist, unflushed bytes survive as a prefix.
- i64 overflow of zxids, session ids and times. The i32 counters wrap, as they do in a release build.
- Corrupt or foreign directories: `Wal.LeftBehind` describes the directories that a server or one crash of it leaves.
- Appending after a torn tail, beyond the lemma that shows what is lost.
- The order of the notices of one call: they are compared as multisets. Their byte form is not modelled.
- The bodies of read replies, and everything about reads but the watch they register and the zxid and code of the reply.
- Connection of `Wire` to `Server`: the wire model has paths as bytes with an abstract UTF-8 predicate, the server has strings. Request headers, the xid, unimplemented opcodes and short frames are not modelled.
- The single-request parsers outside `multi`, which reuse the sub-request parsers.
- Creating the directory, compaction (not written yet), persistent watches (never fired), access control, Raft.
- Wal.WalStore.Open: promises a store ready to append only when nothing is torn, because reopening does not cut off a torn tail.
- Reachable.OneWritePerVersion: the trace after a restart that changed the state is that of the replay, and the log does not say which version a write was conditioned on, so writes before such a restart count as unconditioned.
- Stale.WeaklyGuardedIff: for runs whose restarts change nothing. After a restart with stale entries the live index is itself inexact, and the live clean-up of such a session depends on the order of a hash set.
- Record.TornTailSwallows: says nothing of a tail torn inside the header once later bytes complete that header, because what it then reads as a length is arbitrary.
- Promises.AtMostOneOk: for runs whose restarts change nothing. What a restart that changes the state does to versions is not followed.
- A restart from a log that does not replay: such a server does not start, and the run ends there.
- Watches.WatchState.Fire: does not fix the order of the notices, because the source takes it from a hash set.
- Wire.StatRoundTrip: for stats that fit their wire fields; zxids and times beyond 64 bits do not occur in the server.
