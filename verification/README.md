# Verified model of the diff, job, streaming and container code

This project models, in Dafny 4.11, the parts of the C++ utility library that carry an algorithm or a
protocol, and proves what they promise for every input, every run and every interleaving. Run
`dafny verify dfyconfig.toml` to check it.

| file | models |
|---|---|
| `FixedWidth.dfy` | the 16-bit `IndexT`, its conversions, and facts about index and division |
| `EditGraph.dfy` | the specification of diffing: reachable points, longest common subsequence, edit scripts and their minimality |
| `Frontier.dfy` | the furthest-reaching recursion of the Myers search, its optimality, and the walk back |
| `Myers.dfy` | `diff/myers_diff.hpp`: both searches over the in-place wrapped cost array, the flattened trace, the backtrace, the script |
| `GreedyScript.dfy` | which of the shortest scripts the search returns: the rule that decides every edit, and its uniqueness |
| `Listing.dfy` | the positions of a set in increasing order |
| `DiffMessage.dfy` | `diff/src/msg.cpp`: batching, the windowed message, and the message as a patch |
| `MessageLimits.dfy` | how long the inputs of `safe_diff_msg` may be: exact conditions a caller can test |
| `Outcomes.dfy` | optional values and call statuses |
| `JobSequence.dfy` | `jobs/sequence.hpp` as interleaved atomic steps |
| `Streaming.dfy` | the streaming server call, the streaming client handler, the channel between them and the pool of calls |
| `Retry.dfy` | the retry chain of `egrpc/client_async.hpp` and its shared promise |
| `UniqueList.dfy` | `estd/hashlist.hpp` |
| `Fmts.dfy` | `split`, `join`, escaping and pair printing of `fmts` |

## How the model is built

- **Diff.** The specification is the edit graph: `Reach(x, y, d)` says a point is reachable with exactly d
  edits, on a quadrant that extends beyond the box because the search steps outside it. The methods keep
  the source's cost array, its indexing modulo `2(n+m)+1`, its flattened trace and its loops. `IndexT` is
  a 16-bit range checked at every store, so that the verified methods contain the proof that no counter
  or coordinate overflows. The comparator is arbitrary where the source's is a template argument.
- **Jobs, streams, retries.** State is a value and every atomic region of a thread, or every completion
  event, is a step; classes with the source's fields implement the steps, each method equated with its
  step. Safety is proved for every finite run; that a
  stream ends, and when a destructor can, by a bound on the steps left and the absence of deadlock. Clocks, threads, promises and gRPC are state: a stop
  signal, a FIFO channel that completes each posted operation once, a broken-connection flag.
- **Containers and strings.** A `std::list` iterator is a node object; the container holds a sequence of
  nodes and a map to them.

## Where the code and its comments differ

- `diff/myers_diff.hpp:83-87` puts diagonal 0 at index n+m of a row and gives the trace min_edits rows. In
  the code diagonal 0 is slot 0, negative diagonals wrap to the end, and there are min_edits+1 rows. The
  model follows the code.
- `diff/msg.hpp:30-31` speaks of a limit on the product of the sizes. What limits `myers_diff` is the row
  width `2(n+m)+1` held in an `IndexT` (`diff/myers_diff.hpp:144`): for 16384 <= n+m <= 32767 it turns
  negative, the row count becomes 0 and the script is empty. `MyersScriptSound`, `BatchedSoundIff` and
  `DiffMsgMeaning` state this as an exact condition. So a `batch_limit` up to 8191 is safe for all inputs,
  and the default of 32767 is not.
- `to_string` counts rows in an `IndexT` (`diff/src/msg.cpp:13`): a script of 65536 rows prints nothing
  (`LongScriptVanishes`). `CountedIsWholeIff` says for each script when its message is whole, and
  `PrintsWholeIff` and `PrintsPatchIff` for which sizes of the two lists `safe_diff_msg` can be relied on:
  fewer than 32768 lines together, and a first batch of at most 16383.
- `jobs/sequence.hpp:110` promises that join waits for all jobs. After a stop that found a job in the queue
  it does not (`JoinAfterStopIsEarly`); `JoinCompletesIff` gives the exact condition.
- `~Sequence` joins the worker (`jobs/sequence.hpp:60-66`), but `stop()` notifies it before the exit signal is
  up and nothing notifies it afterwards. A worker that tests its condition in between goes to sleep for good
  (`DestructorMayHang`); `DestructorEndsIff` gives the exact condition.

## Model

| member | source | states |
|---|---|---|
| EditGraph.LcsIsLength | diff/myers_diff.hpp:31-33 | the length used in the edit distance is that of a longest common subsequence: one exists, none is longer |
| EditGraph.ReachBound | diff/myers_diff.hpp:40-77 | no path with d edits gets beyond x + y = n + m - distance + d, also outside the box |
| EditGraph.EditDistanceIsMinimal | diff/myers_diff.hpp:31-33 | no sequence of actions that turns orig into updated, under any comparator, has fewer edits than n + m - 2 LCS |
| EditGraph.AnyScriptHasDistanceEdits | diff/myers_diff.hpp:211-213 | with equality as comparator, any rows whose EQ+DEL values are orig and EQ+ADD values are updated contain at least that many edits |
| EditGraph.ScriptProjections | diff/myers_diff.hpp:191-206 | EQ+DEL rows list orig in order at positions 0, 1, 2, ...; EQ+ADD rows carry updated positions 0, 1, 2, ...; the unused position is -1; EQ pairs satisfy the comparator |
| EditGraph.ScriptAfter | diff/myers_diff.hpp:191-206 | with equality as comparator the EQ+ADD rows spell out updated |
| Frontier.StartReached | diff/myers_diff.hpp:111-120 | every point where the search starts following diagonals is reachable with the edits of its round |
| Frontier.FurthestReached | diff/myers_diff.hpp:107-129 | every point the search records is reachable with the edits of its round |
| Frontier.FurthestIsMaximal | diff/myers_diff.hpp:107-129 | the greedy choice is optimal: no path of d edits gets further along its diagonal |
| Frontier.FurthestIsFurthest | diff/myers_diff.hpp:107-129 | the value computed for a diagonal is the largest reachable x there, and nothing else is |
| Frontier.SearchStaysInside | diff/myers_diff.hpp:104-132 | until the goal is met no coordinate exceeds n+m; past both ends means exactly the goal, in exactly the round that is the distance and on its diagonal |
| Frontier.PathBackChain | diff/myers_diff.hpp:151-180 | walking back from a furthest point inside the box gives unit moves, diagonals only along matches, to the origin with exactly d edits |
| Myers.Index | diff/myers_diff.hpp:109-110 | the modulo index of a diagonal is its own slot; only a one-slot array wraps onto another |
| Myers.SearchableIff | diff/myers_diff.hpp:40-77 | the inputs on which no counter of a running search leaves 16 bits: n+m <= 32766, or n+m = 32767 with something in common |
| Myers.RowStep | diff/myers_diff.hpp:129 | storing a result in place advances the round by one diagonal and changes no other diagonal's slot |
| Myers.NeighboursFromRoundBefore | diff/myers_diff.hpp:109-118 | the slots read for k-1 and k+1 still hold the results of the round before wherever that visited them, and the choice made from what was read, wrapped or not, is the right one |
| Myers.RowIsFurthest | diff/myers_diff.hpp:104-132 | after round d each visited diagonal's slot holds the largest x reachable with exactly d edits |
| Myers.Advance | diff/myers_diff.hpp:51-71 | one diagonal of one round on the real array, without 16-bit overflow |
| Myers.MyersDiffMinEdit | diff/myers_diff.hpp:32-81 | the trace-free search returns the edit distance on all searchable inputs |
| Myers.MyersDiffTrace | diff/myers_diff.hpp:89-134 | the trace has distance+1 rows; each slot of each row holds the last result of its diagonal before that round, or zero |
| Myers.TraceRead | diff/myers_diff.hpp:155-156 | every trace read of the backtrace is in range and yields the frontier of the round before |
| Myers.BranchRetraced | diff/myers_diff.hpp:153-163 | the branch chosen walking back is the branch the search took |
| Myers.RowsSeen | diff/myers_diff.hpp:144-150 | the number of rows the backtrace counts is the true one up to n+m = 16383 and 0 from there to 32767 |
| Myers.GoalChain | diff/myers_diff.hpp:140-182 | the backtrace is a chain of unit moves inside the box from (n,m) to (0,0) with distance many edits |
| Myers.MyersDiffBacktrace | diff/myers_diff.hpp:140-182 | the method returns that chain, or nothing where the row width does not fit |
| Myers.ScriptBackIsScript | diff/myers_diff.hpp:213-251 | the rows made of a chain with d edits are an edit script with d edits |
| Myers.MyersDiff | diff/myers_diff.hpp:213-251 | the method returns the script of that chain (MyersScriptIsTheGreedyOne says which of the shortest scripts it is) |
| Myers.MyersScriptSound | diff/myers_diff.hpp:213-251 | the result is an edit script of its inputs if and only if n+m <= 16383, and then has distance many edits; it is empty above |
| Myers.MyersScriptMinimal | diff/myers_diff.hpp:211-213 | no list of actions that turns orig into updated has fewer edits than the script returned |
| Myers.SearchesAgree | diff/myers_diff.hpp:31-251 | the two searches and the script agree on the number of edits |
| Myers.TraceHolds | diff/myers_diff.hpp:83-104 | at its literal index in the flattened trace each diagonal of row d has the largest x reachable with d-1 edits, or with d-2 where it was not visited last, or zero |
| GreedyScript.GreedyPath | diff/myers_diff.hpp:107-129 | the path back from any furthest point decides every edit by the rule: it leaves its diagonal at the furthest reachable point, and is an insertion unless a deletion enters the next diagonal further on |
| GreedyScript.GreedyUnique | diff/myers_diff.hpp:111-118 | two scripts with equally many edits to the same point that both follow the rule are the same |
| GreedyScript.MyersScriptIsTheGreedyOne | diff/myers_diff.hpp:213-251 | of all lists of rows, the one returned is exactly the shortest script that follows the rule, so that every tie is settled |
| GreedyScript.DisjointSequences | diff/test/main.cpp:60-77 | for any two sequences with nothing in common: all of orig as DEL rows in order, then all of updated as ADD rows |
| GreedyScript.MyersDeletesBeforeItInserts | diff/myers_diff.hpp:111-118 | for every input, no ADD row of the script returned is directly followed by a DEL row |
| DiffMessage.CutBehindLastMatch | diff/src/msg.cpp:97-110 | a batch is cut at c if and only if no row from c on is EQ and the row before c is, or c is the end where no row is EQ |
| DiffMessage.BatchedStep | diff/src/msg.cpp:90-121 | for inputs longer than a batch: the rows of the first batch up to behind its last EQ, followed by the batched rows of exactly the lines those leave; a batch too large for the backtrace is skipped without rows |
| DiffMessage.CutIsExact | diff/src/msg.cpp:97-110 | the rows kept of a batch project to exactly the lines skipped, and a non-empty batch skips at least one line |
| DiffMessage.SafeDiffMsgHelper | diff/src/msg.cpp:71-121 | the recursive helper terminates and appends the batched script to what was there (BatchedStep and BatchedEdits say which rows those are) |
| DiffMessage.BatchedProjects | diff/src/msg.cpp:71-121 | cutting after the last match and recursing loses and invents no line: the script projects to exactly both inputs |
| DiffMessage.BatchedSoundIff | diff/src/msg.cpp:79-121 | it does so if and only if the first batch holds at most 16383 lines, hence always for batch_limit <= 8191 |
| DiffMessage.BatchedEdits | diff/src/msg.cpp:79-88 | a batched script has at least the optimal number of edits, and is the unbatched script when both inputs fit in one batch |
| DiffMessage.MarkShown | diff/src/msg.cpp:13-25 | the show buffer marks exactly the rows within three rows of an edit |
| DiffMessage.ToString | diff/src/msg.cpp:11-51 | the printed rows are the message of the rows counted through IndexT, which are all rows up to 32767 |
| DiffMessage.MessageShows | diff/src/msg.cpp:16-34 | a row is printed if and only if an edit lies within three rows of it |
| DiffMessage.MessageInOrder | diff/src/msg.cpp:29-49 | the printed rows are the rows near an edit, in script order and each once |
| DiffMessage.MessageIsPatch | diff/src/msg.cpp:26-49 | the printed rows, at the printed positions, turn the first list into the second and agree with it on every context row |
| DiffMessage.MessageEmptyIff | diff/src/msg.cpp:11-51 | a message is empty if and only if its script has no edit |
| DiffMessage.DiffMsg | diff/src/msg.cpp:123-129 | the method returns the message of the script |
| DiffMessage.DiffMsgMeaning | diff/msg.hpp:28-34 | for different lists the message is non-empty if and only if n+m <= 16383, for equal ones it is empty, and where the width fits it is a patch |
| DiffMessage.SafeDiffMsg | diff/src/msg.cpp:131-139 | the method returns the message of the batched script |
| DiffMessage.BatchedMessageMeaning | diff/msg.hpp:36-40 | however long the lists and however they are cut, the whole message of the batched script is empty if and only if they are equal, and is a patch from one to the other |
| DiffMessage.RowCountFits | diff/src/msg.cpp:13 | lists of together fewer than 32768 lines give a row count that fits, which is what safe_diff_msg needs |
| DiffMessage.SafeDiffMsgMeaning | diff/msg.hpp:36-40 | for such lists with a first batch of at most 16383 lines the returned message is empty if and only if they are equal, and is a patch from one to the other |
| MessageLimits.CountedIsWholeIff | diff/src/msg.cpp:13-50 | to_string prints the whole message of a script if and only if its rows number fewer than 32768 or no edit is among those not counted and the last three counted |
| MessageLimits.PrintsWholeIff | diff/src/msg.cpp:131-139 | where batches are sound, safe_diff_msg prints the whole message of all lists of n and m lines if and only if n + m < 32768 |
| MessageLimits.PrintsPatchIff | diff/src/msg.cpp:131-139 | safe_diff_msg returns a patch for all lists of n and m lines if and only if their first batch has at most 16383 lines and n + m < 32768 |
| MessageLimits.LongScriptVanishes | diff/src/msg.cpp:13 | an instance that fails: 65536 inserted lines print the empty message |
| JobSequence.EveryRunIsSafe | jobs/sequence.hpp:31-130 | every interleaving of attach, worker, stop and destructor steps keeps order, conservation, one call at a time, gapless attempt numbers and at most one attempt per job after the stop signal |
| JobSequence.OrderKept | jobs/sequence.hpp:48-57 | jobs are started in the order of attachment, ahead of all queued ones |
| JobSequence.CallsKept | jobs/sequence.hpp:75-89 | a job is called only when no call is open, each return answers the open call, and a job is called again only directly after it returned false |
| JobSequence.EndingsKept | jobs/sequence.hpp:78-88 | the end recorded of a job is what its last call came back with: true, an exception, or false and then the stop signal |
| JobSequence.AttemptsKept | jobs/sequence.hpp:77-88 | each step keeps the attempts of each job numbered 0, 1, 2, ... without gaps, at least one for a finished job and none for an unstarted one |
| JobSequence.CallsOfEveryRun | jobs/sequence.hpp:75-89 | in every run each job is called with 0, 1, 2, ... in turn, at least once if it has finished, and at most once after the stop signal |
| JobSequence.AttachedCounts | jobs/sequence.hpp:90-100 | no accepted job is lost: every run records one job for each attach step before the destruction, whatever the worker is doing, and no other |
| JobSequence.SignalsRaised | jobs/sequence.hpp:60-66 | stop, refusal and exit signal are up exactly if a step raised them, and stay up |
| JobSequence.WorkCounts | jobs/sequence.hpp:35-57 | every job taken is one job started, every call is in the history, and only stop drops jobs |
| JobSequence.QueuedJobIsServed | jobs/sequence.hpp:35-57 | while a job is queued the worker is awake and can take a step |
| JobSequence.AwakeWorkerExits | jobs/managed_job.hpp:33-39 | a worker that is awake when the exit signal is up exits within five of its own steps and is never stuck before |
| JobSequence.DestructorEndsIff | jobs/sequence.hpp:60-66 | the destructor can end without an accidental wake-up or another stop if and only if the worker is not asleep when the exit signal is raised |
| JobSequence.DestructorMayHang | jobs/sequence.hpp:120-130 | an instance that fails: the worker tests its condition between the notification of stop and the exit signal, and sleeps |
| JobSequence.EachJobInOnePlace | jobs/sequence.hpp:31-130 | each attached job is exactly once in exactly one of queued, running, finished, dropped |
| JobSequence.StartedInAttachmentOrder | jobs/sequence.hpp:48-101 | while nothing is dropped, started jobs followed by queued ones are all jobs in attachment order |
| JobSequence.NothingLeftAfterExit | jobs/sequence.hpp:60-66 | when the worker has exited every attached job has finished or been dropped, and none starts afterwards |
| JobSequence.JoinMeansAllFinished | jobs/sequence.hpp:110-117 | while nothing has been dropped, join returns if and only if every job attached so far has finished, in order |
| JobSequence.JoinBlocksIff | jobs/sequence.hpp:110-117 | join blocks exactly while the job attached last is queued or running; not before anything was attached or after a refusal |
| JobSequence.JoinCompletesIff | jobs/sequence.hpp:110-130 | when join returns, every job attached so far has finished if and only if no stop has found a job in the queue |
| JobSequence.JoinLeavesAtMostTheRunningJob | jobs/sequence.hpp:110-130 | whatever was stopped before, nothing is queued when join returns, and a job can still be running only if the last attached job was dropped |
| JobSequence.JoinAfterStopIsEarly | jobs/sequence.hpp:110-130 | an instance that fails: after a stop join can return while a job is in the middle of an attempt |
| JobSequence.Sequence.AttachJob | jobs/sequence.hpp:90-100 | it is refused exactly after destruction has begun; when accepted the queue grows at its end by the new job, the last future is that job's, and a sleeping worker is woken |
| JobSequence.Sequence.Wake | jobs/sequence.hpp:35-54 | waking takes the first queued job, or none if the queue is empty |
| JobSequence.Sequence.TestStop | jobs/sequence.hpp:86-88 | the do-while condition ends the job exactly when the stop signal is up |
| JobSequence.Sequence.StopJobs | jobs/sequence.hpp:120-130 | stop drops the whole queue, raises the signal and wakes a sleeping worker |
| Streaming.RepliesInOrder | egrpc/server_async_stream.hpp:84-89 | the replies are those of exactly the elements that have something to write, in the order of the range |
| Streaming.SkipUnwritten | egrpc/server_async_stream.hpp:84-89 | the inner loop finds the first remaining element that has something to write and moves past it |
| Streaming.AsyncServerStreamCall.Serve | egrpc/server_async_stream.hpp:58-108 | serving is the serve step; it spawns a listening call exactly when it serves a request |
| Streaming.ServeKeepsInv | egrpc/server_async_stream.hpp:58-108 | each completion makes a call post exactly one more operation or, after its finish, go; posted replies are those of the range so far |
| Streaming.AsyncClientStreamHandler.Handle | egrpc/client_async_stream.hpp:23-75 | a successful start or read is answered by a read, a failed one by the finish and nothing else; only a successful read is handed on; the finish leaves the error and ends the handler |
| Streaming.HandleKeepsInv | egrpc/client_async_stream.hpp:23-75 | each completion makes a handler post exactly one more operation or, after its finish, go; all it ever posts is the start, one read more than replies, and the finish after a failed start or read |
| Streaming.HandledIsPrefix | egrpc/client_async_stream.hpp:44-73 | handled replies are a prefix of the replies of the range, all of them on a clean finish; an unbroken connection reports the server's status |
| Streaming.PoolInvKept | egrpc/server_async_stream.hpp:62-65 | exactly one call is listening after every step |
| Streaming.StreamingIsSafe | egrpc/server_async_stream.hpp:58-108 | all of this for every run of any number of calls from the first listening one, with one operation outstanding per machine and one finish each, and at most three client events more than replies |
| Streaming.NotStuck | egrpc/server_async_stream.hpp:58-108 | until call and handler are both gone some step other than a failure is possible |
| Streaming.EveryStreamEnds | egrpc/client_async_stream.hpp:23-75 | every order of steps of a new stream is, breaks not counted, at most 4 * range + 15 long, and where none is possible any more both machines are gone |
| Streaming.CleanRunExists | egrpc/client_async_stream.hpp:51-73 | for every service there is a run in which the client handles all replies, finishes with the status of the call, and both machines go |
| Retry.EveryRunIsSafe | egrpc/client_async.hpp:29-60 | for all statuses, all patterns of synchronous handling and any number of completions: at most nretries+1 attempts, all but the last failed, callback at most once and only on success, promise unset while a handler lives and set once after |
| Retry.PromiseSetExactlyOnce | egrpc/iclient_async.hpp:31-37 | after nretries+1 completions the promise has been set exactly once, to null if and only if one of the first nretries+1 attempts succeeds |
| Retry.EventsMatchAttempts | egrpc/client_async.hpp:20-60 | attempts handled on the spot use no completion event and every other one uses one: with a live handler the waiting attempts are one more than the events |
| Retry.AsyncClientHandler.Make | egrpc/client_async.hpp:20-27 | constructing a handler is the create step, including a synchronous init |
| Retry.AsyncClientHandler.HandleCompletion | egrpc/client_async.hpp:29-60 | handling, retrying and deleting objects is the handle step |
| UniqueList.DedupKeepsFirsts | estd/hashlist.hpp:27-34 | the range constructor keeps exactly the first occurrences, in order, without duplicates |
| UniqueList.RemoveAt | estd/hashlist.hpp:140-148 | erasing a value removes its position and nothing else |
| UniqueList.EraseUndoes | estd/hashlist.hpp:106-148 | erase undoes push_back and insert of a new value |
| UniqueList.PopBackUndoes | estd/hashlist.hpp:106-127 | pop_back undoes push_back of a new value, and pushing the last value again undoes pop_back |
| UniqueList.InsertAgrees | estd/hashlist.hpp:129-138 | inserting a node and indexing it keeps list and index in agreement |
| UniqueList.EraseAgrees | estd/hashlist.hpp:140-148 | erasing a node and its key keeps list and index in agreement and every other node in the list |
| UniqueList.HashList.FromRange | estd/hashlist.hpp:27-34 | the constructor's contents are the first occurrences of the range |
| UniqueList.HashList.PushBack | estd/hashlist.hpp:106-117 | appends a new value in a new node, or returns the old node and changes nothing |
| UniqueList.HashList.PopBack | estd/hashlist.hpp:119-127 | the old list is the new one followed by its old last node, whose key alone leaves the index; nothing on an empty list |
| UniqueList.HashList.Insert | estd/hashlist.hpp:129-138 | inserts a new value before the position in a new node, or returns the old node and changes nothing |
| UniqueList.HashList.Erase | estd/hashlist.hpp:140-148 | removes the value's node and no other |
| UniqueList.HashList.Clear | estd/hashlist.hpp:150-154 | empties list and index |
| Fmts.Split | fmts/src/fmts.cpp:77-90 | the loop returns the pieces of repeated leftmost search |
| Fmts.Join | fmts/fmts.hpp:105-118 | the loop returns the parts with the delimiter between them |
| Fmts.JoinedConcat | fmts/fmts.hpp:105-118 | whatever the parts contain: two lists join as the first, the delimiter, the second; one part joins as itself |
| Fmts.PiecesEndAtFirst | fmts/src/fmts.cpp:77-90 | no delimiter begins inside a piece, even together with the delimiter behind it: every cut is leftmost |
| Fmts.JoinUndoesSplit | fmts/src/fmts.cpp:77-90 | joining the pieces of a string gives the string |
| Fmts.PiecesAreFree | fmts/src/fmts.cpp:77-90 | no piece contains the delimiter |
| Fmts.SplitUndoesJoinIff | fmts/fmts.hpp:155-161 | splitting gives back joined parts if and only if there are parts, the first delimiter after each is the one put there, and the last has none |
| Fmts.EscapeInPlace | fmts/fmts.hpp:42-59 | the in-place loop escapes exactly the four symbols |
| Fmts.EscapedAt | fmts/fmts.hpp:42-59 | each bracket, backslash and colon stands right behind a backslash, every other character by itself, and nothing else is there |
| Fmts.UnescapeUndoesEscape | fmts/fmts.hpp:42-59 | an escaped string can be read back |
| Fmts.ReadPairUndoesPrint | fmts/fmts.hpp:89-95 | a printed pair of Strings determines both raw strings |

## Left out

- MyersDiffMinEdit: inputs with n+m = 32767 and nothing in common, on which a 16-bit counter of a running search wraps round, and inputs with n+m > 32767, on which n+m itself does.
- MyersDiffTrace: the same inputs; the backtrace, the script and diff_msg inherit the bound.
- SafeDiffMsg: batches of more than 32766 lines in all, and scripts whose row count is negative as an IndexT, since the source sizes a stack buffer with it (RowCountFits and PrintsPatchIff say which inputs are safe); batch_limit 0, on which the recursion would not progress.
- SafeDiffMsgHelper: the reference parameter that collects rows is an in-parameter and an out-parameter.
- Split: the empty delimiter, on which the source does not terminate.
- JobSequence.EveryRunIsSafe: concurrent attaching threads are not modelled, because last_future_ is written outside the lock.
- JobSequence.DestructorEndsIff: every call of a job is taken to return at some time.
- Streaming.StreamingIsSafe: runs without AsyncServerStreamCall::shutdown during a stream; write_call_ is a function of the element that does not move the iterator and leaves the reply alone when it writes nothing.
- JobSequence.JoinCompletesIff: says nothing of join after an attachment that was refused because destruction had begun; its future is ready at once.
- Retry.EveryRunIsSafe: the completion callback is present and does not throw.
- Sequence::is_running, which tells whether a future is valid rather than whether a job runs.
- Reading lines from streams and the literal text of a printed line: rows are records of what is printed.
- A round trip for printed arrays: the array delimiter is also the escape symbol, so different lists can print alike.
- HashList copies, whose index points into the other list, and changes of elements through references; references passed to erase that point into the list itself.
- White-space trimming and stripping, sprintf, logging text, flags, errors, configuration, ManagedJob beyond its loop, ScopeGuard and the scripts: they would only add easy members.
