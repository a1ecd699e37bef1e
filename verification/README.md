# Verified model of the rl libraries

A Dafny model of six small C libraries: the tracing allocator `rlmem`, the log writer `rllog`, the HTTP time
reader in `rltime`, the in-place string edits of `rlstr`, the command runner `rlcmd` and the CPU usage tracker in
`rlsys`. Code that works in place is written in place here (linked nodes, character arrays, loops, classes whose
methods update their fields) and each method is proved to do what a function on values says. The promises are then
lemmas about those functions: for every run, every interleaving, every pattern of answers from the system.

## How it is laid out

| files | what they hold |
|---|---|
| CTypes, Bags, CText, DecimalText | C integers and return codes, bags over sequences, NUL-terminated text and searching, decimal text |
| MemLedger | the ledger list, its three critical sections, its two counters, its map view |
| MemSession, MemSessionProofs, MemSessionTheorems | sequential runs of the allocator over a C heap that answers as it likes |
| MemCalls | what each single call promises its caller, tracing on or off |
| MemTracer | the allocator with real list nodes, refining MemSession call by call |
| MemThreads, MemThreadsProofs, MemThreadsTheorems | the same critical sections under any interleaving of any number of threads, and the way from one thread to many and back |
| MemThreadsAlone | an uninterrupted thread does what the sequential call does |
| MemThreadsSizes | which size is recorded for which block under threads, and exactly when that goes wrong |
| MemDrift | by how much the recorded bytes are off, and which lookups move that |
| MemPhases, MemPhasesTheorems | whole histories: calls, threaded phases, deinits and inits in any order, and what holds of all of them |
| LogLine, LogWriter, Logger, LoggerTheorems | the text and length of a line; threads and short writes on one file; the settings and write loop of one process; a call as a critical section |
| StrEdit, StrEditTheorems, StrNumber | substring and character edits; what each leaves in the buffer, character by character; recognising and reading numbers |
| TimeReader, TimeReaderTheorems | the receive loop and Date extraction; independence of segmentation; what the code tells; each part in the characters of the protocol |
| CmdRunner, CmdRunnerTheorems | attempts, timeouts, retries, children and signal state |
| CpuUsage | readings from counter samples |

Everything the system decides is an argument: what `malloc`, `realloc`, `write`, `recv`, `waitpid` and the others
answer, and which date texts `strptime` reads. A C address is a natural number with 0 as NULL; `unsigned int` and 64-bit arithmetic wrap explicitly.
`RL_TRUE`, `RL_FALSE`, `RL_SUCCESS` and `RL_FAILED` are 1, 0, 0 and -1, as their uses imply (rlcmd/src/rlcmd.c:102,
rleth/src/rleth.c:19); `public.h` is not part of this model.

## What does not hold, and exactly when it does

- The allocator's counters are never reset by deinit, so after a leak they no longer describe the ledger
  (`LeakOutlivesItsSession`). They do if and only if the leak totals reported so far are 0 modulo 2^32
  (`CountersCarryReportedLeaks`, `CountersAgreeUnderThreads`).
- A reallocation that returns NULL loses the block in one case only (`FailureIsAtomic`, reached in `ConsumedBlock`).
- Under threads the ledger may record one block's size for another (`RaceSpoilsSizes`). One step keeps the sizes right
  if and only if the first entry its lookup meets carries the right size, which another block's entry of equal size
  does as well (`SizesKeptExactly`, for whole schedules `SizesKeptThroughoutExactly`); a heap that does not reuse an
  address in the window is enough (`NoReuseKeepsSizes`). The byte counter is right if and only if what the lookups since
  the last deinit have missed adds up to 0 modulo 2^32 (`ByteCounterExactly`).
- A date read from a response is certain for every segmentation if and only if the header section itself has status and
  date (`DateIsCertainExactly`); the code searches body bytes that happen to have arrived as well. The outcome depends
  on the segmentation if and only if the rest of the first 2047 characters has a deciding mark that the header section
  lacks (`SegmentationMattersExactly`, for every stream, with a response for it in `BodyDecides`).
- Deleting the character just inserted restores the string if and only if it is not NUL (`InsertDelete`).
- A failed receive and a status other than 200 return `RL_FALSE`, which has the value of `RL_SUCCESS`. The code of
  success comes with a date `strptime` has read if and only if the loop succeeds and the text in the buffer starts with
  "HTTP/" and contains "200 OK" (`SuccessIsTrueExactly`, with both failures in `HiddenFailures`).
- A command that has ended is reported with the code of a failed call if and only if it died by signal 1 or left a status
  that is neither exit nor signal (`FailureCodeIsAmbiguous`, with an environment in `SignalOneLooksFailed`; all causes of
  that code are in `FailureExactly`); a negative number of tries runs nothing and succeeds (`NegativeTriesRunNothing`);
  the signal state is restored in exactly two cases (`SignalsRestoredExactly`).
- The product of busy time and 1000 wraps at 2^64: if the counters only grow, a CPU reading is the busy share if and
  only if that product is below 2^64 (`ShareExactlyBelowOverflow`).
- A CPU reading leaves 0..1000 exactly when idle time falls by a thousandth of the elapsed time or more
  (`InRangeExactly`).
- rllog/include/rllog.h:13 speaks of 10 MB in its comment; the limit the code uses, and the model follows, is 50 MiB.

## Model

| member | source | states |
|---|---|---|
| MemTracer.Tracer.Malloc | rlmem/src/rlmem.c:144-185 | on the linked list, rl_malloc has exactly the outcome, heap traffic and ledger of the sequential model, whatever the heap answers, and the list stays null-terminated without repeated nodes |
| MemTracer.Tracer.Calloc | rlmem/src/rlmem.c:234-276 | the same for rl_calloc, recording the 32-bit product and allocating the true one |
| MemTracer.Tracer.Realloc | rlmem/src/rlmem.c:278-352 | the same for rl_realloc on every path: NULL pointer, failed move, entry found, entry missing with and without memory for a new one |
| MemTracer.Tracer.RetargetFirst | rlmem/src/rlmem.c:300-323 | the walk overwrites in place the first node that carries the old address and no other |
| MemTracer.Tracer.Locate | rlmem/src/rlmem.c:201-218 | the walk over links stops at the first node for the pointer with the link that leads to it, or at the end |
| MemTracer.Tracer.Splice | rlmem/src/rlmem.c:206-207 | storing through that link takes out one node and keeps the order of all others |
| MemTracer.Tracer.Free | rlmem/src/rlmem.c:187-232 | rl_free has the outcome of the sequential model, tracing on or off, with a node given back before its block; what that outcome is, MemCalls.FreePromises says |
| MemTracer.Tracer.TraceInit | rlmem/src/rlmem.c:27-48 | init changes the state as in the sequential model and frees nothing |
| MemTracer.Tracer.TraceDeinit | rlmem/src/rlmem.c:51-142 | the report walk gives back every node in list order and counts modulo 2^32 what the ledger held |
| MemLedger.PushCounted | rlmem/src/rlmem.c:175-181 | entering a block keeps both counters in agreement with list plus carry, modulo 2^32 |
| MemLedger.UnlinkCounted | rlmem/src/rlmem.c:206-214 | so does taking out any entry |
| MemLedger.RetargetCounted | rlmem/src/rlmem.c:309-317 | so does overwriting any entry with a new address and size |
| MemLedger.RecordsFind | rlmem/src/rlmem.c:202-218 | looking up the first entry for a pointer is looking it up in the finite map the list stands for |
| MemLedger.UnlinkRecords | rlmem/src/rlmem.c:206-210 | in a list without repeated pointers, taking out an entry removes exactly its pointer from the map |
| MemLedger.RetargetRecords | rlmem/src/rlmem.c:306-319 | and overwriting an entry moves its pointer to the new address with the new size and call site |
| MemSessionProofs.EnterAgrees | rlmem/src/rlmem.c:163-181 | a block is entered with a fresh node, or given back when there is no memory for one; either way all invariants survive |
| MemSessionProofs.ReallocAgrees | rlmem/src/rlmem.c:278-352 | every path of rl_realloc keeps state and observer's account in agreement |
| MemSessionProofs.FreeAgrees | rlmem/src/rlmem.c:187-232 | so does rl_free of any pointer |
| MemSessionProofs.DeinitAgrees | rlmem/src/rlmem.c:51-142 | so does deinit, whether or not its report can be opened |
| MemSessionProofs.StepKeepsSizes | rlmem/src/rlmem.c:144-352 | every call by a single thread leaves each recorded size the true one as an unsigned int, calloc products included |
| MemSessionProofs.RunAgrees | rlmem/src/rlmem.c:27-352 | every run of any length keeps the ledger a duplicate-free list of live blocks told apart from its own nodes, with records, heap and counters as an observer of the calls, their results and the answers of realloc would tally them, and all recorded sizes true |
| MemSessionTheorems.LedgerIsMapOfLatestCalls | rlmem/src/rlmem.c:144-352 | after any run the list holds, for each held pointer, the size and call site of the latest call that returned it, and nothing for any other pointer |
| MemSessionTheorems.FreesOnlyLiveBlocks | rlmem/src/rlmem.c:187-232 | no call ever passes the real free a block that is not live, or one block twice |
| MemSessionTheorems.FreeAnyPointer | rlmem/src/rlmem.c:187-232 | with tracing on rl_free frees a ledgered block and its node, keeps the order of the rest, and for every other pointer fails and changes nothing |
| MemSessionTheorems.SecondFreeFails | rlmem/src/rlmem.c:219-225 | freeing the same pointer twice in a row fails the second time without effect |
| MemSessionTheorems.FailureIsAtomic | rlmem/src/rlmem.c:144-352 | a NULL from an allocating call means nothing changed, except in exactly one case, which loses the reallocated block |
| MemSessionTheorems.ConsumedBlock | rlmem/src/rlmem.c:325-347 | a program that reaches that case: an untraced block is moved, there is no memory for its node, and the block is gone although the call fails |
| MemSessionTheorems.LeakOutlivesItsSession | rlmem/src/rlmem.c:27-142 | a run whose second session starts with an empty ledger and counters of 1 block and 100 bytes |
| MemCalls.RequestsAnswered | rlmem/src/rlmem.c:144-352 | rl_malloc, rl_calloc and rl_realloc of NULL, tracing on or off, are granted exactly if the size is not 0 and the heap has memory for the block and, while tracing, for its node; then the block has its full size, the entry heads the list, both counters grow modulo 2^32, and nothing else changes; otherwise nothing does, and a block without a node goes back |
| MemCalls.ReallocPromises | rlmem/src/rlmem.c:278-352 | rl_realloc of a held block, tracing on or off, moves it with its new size and touches no other; its entry keeps its place and node and carries the new address, size and call site; the exact state of every refusal |
| MemCalls.FreePromises | rlmem/src/rlmem.c:187-232 | rl_free of a pointer its caller may pass returns 0 exactly if it is not NULL and, while tracing, recorded: then it gives the block back once, with one node while tracing, and no other client block changes; otherwise it returns -1 and nothing happens |
| MemCalls.InitPromises | rlmem/src/rlmem.c:27-48 | in every reachable state init can only switch tracing on, and changes nothing else |
| MemCalls.DeinitPromises | rlmem/src/rlmem.c:51-142 | deinit fails with -1 and without effect when tracing is off or the report cannot be opened; otherwise it ends tracing, gives every node back once, reports the list and leaves the clients' blocks and both counters alone |
| MemCalls.ClientsMayCall | rlmem/src/rlmem.c:144-352 | these promises cover every held block, any fresh answer of the heap, and any pointer at all for rl_free while tracing is on |
| MemThreadsProofs.ActionBalanced | rlmem/src/rlmem.c:144-352 | each heap call and each critical section of any thread keeps ledger, heap, owners and blocks in flight balanced |
| MemThreadsProofs.RetargetFinds | rlmem/src/rlmem.c:291-319 | after its block has moved, a realloc finds an entry for the old address whatever other threads did meanwhile |
| MemThreadsProofs.UnlinkFinds | rlmem/src/rlmem.c:199-218 | rl_free of an owned block finds an entry |
| MemThreadsProofs.ScheduleKeeps | rlmem/src/rlmem.c:144-352 | every interleaving keeps the balance and the counters |
| MemThreadsTheorems.ForkFits | rlmem/src/rlmem.c:27-42 | any state a sequential run with tracing on reaches is a sound start for any number of threads |
| MemThreadsTheorems.QuietInv | rlmem/src/rlmem.c:144-352 | when all threads are back in client code the ledger satisfies the invariant of sequential runs again |
| MemThreadsTheorems.DeinitKeepsBalance | rlmem/src/rlmem.c:103-140 | a deinit after a threaded phase frees live and distinct nodes and leaves a balanced start for the next session, to which the leaked blocks are unknown and in whose carry they count |
| MemThreadsAlone.LoneThreadIsStep | rlmem/src/rlmem.c:144-352 | a thread nobody interrupts takes steps that come to exactly the sequential call: ledger, heap, heap traffic and client blocks |
| MemThreadsAlone.NobodyWaits | rlmem/src/rlmem.c:144-352 | whether a thread can take its next step depends on its own place, the live blocks and what clients own, never on where other threads are |
| MemPhases.ActionTraffic | rlmem/src/rlmem.c:144-352 | each step of a thread changes the live blocks by exactly what it takes from the C heap and gives back |
| MemPhases.JoinAgrees | rlmem/src/rlmem.c:27-352 | after any interleaving, races included, one thread finds state and account in agreement as after a sequential run |
| MemPhases.PhasesAgree | rlmem/src/rlmem.c:27-352 | every history of calls, threaded phases, deinits and inits, with any number of sessions, keeps them in agreement |
| MemPhasesTheorems.HeapIsConserved | rlmem/src/rlmem.c:27-352 | after any such history live memory is the clients' blocks and the ledger's nodes, disjointly, and per address everything taken has been given back once or is live |
| MemPhasesTheorems.CountersCarryReportedLeaks | rlmem/src/rlmem.c:23-352 | after any history the counters are ledger plus all leaks reported by earlier deinits, modulo 2^32, and describe the ledger alone exactly when that carry vanishes |
| MemPhasesTheorems.DeinitFreesEveryNodeOnce | rlmem/src/rlmem.c:103-140 | a deinit after any history, threaded or not, frees every node once, leaves the clients' blocks alone and an empty ledger, and reports the counters less the carry |
| MemPhasesTheorems.InitDropsNothing | rlmem/src/rlmem.c:27-48 | whenever tracing is off in any history the ledger is empty, so resetting the list head loses no record |
| MemPhasesTheorems.EveryInterleavingBalanced | rlmem/src/rlmem.c:27-352 | after any history that leaves tracing on, every interleaving of any number of threads is balanced at every point |
| MemPhasesTheorems.EveryInterleavingCanEnd | rlmem/src/rlmem.c:144-352 | from every such point all calls can return, so every interleaving is part of a longer history |
| MemPhasesTheorems.LedgerPlusInFlight | rlmem/src/rlmem.c:144-352 | at every such point, as bags, ledger pointers plus blocks in flight are live client blocks plus addresses given up by running reallocs |
| MemPhasesTheorems.QuietLedgerIsExact | rlmem/src/rlmem.c:144-352 | with no call in flight the ledger lists every live client block once and nothing else |
| MemPhasesTheorems.LookupsAlwaysFind | rlmem/src/rlmem.c:199-326 | no lookup for an owned or just moved block ever fails |
| MemPhasesTheorems.RealFreeIsSafe | rlmem/src/rlmem.c:163-230 | a block handed to the real free outside the lock is live and no client, thread or entry still uses it, save entries a running realloc is about to overwrite |
| MemPhasesTheorems.ThreadsFreeOnlyLiveBlocks | rlmem/src/rlmem.c:144-352 | whatever a thread gives back, node or block, is live at that moment |
| MemPhasesTheorems.CountersAgreeUnderThreads | rlmem/src/rlmem.c:175-347 | whenever the lock is free both counters are the list plus the leaks of earlier sessions, modulo 2^32, and describe the list alone exactly when these vanish |
| MemPhasesTheorems.ByteCounterIsTrueTotal | rlmem/src/rlmem.c:144-352 | less the carry the byte counter is the true number of traced bytes modulo 2^32 even when calloc products wrapped, and exactly that number if and only if it is below 2^32, in all histories in which no lookup under threads meets an entry of the wrong size |
| MemPhasesTheorems.ByteCounterExactly | rlmem/src/rlmem.c:144-352 | in every history, races included, the byte counter less the carry is the true number of traced bytes plus what all lookups since the last deinit have missed, modulo 2^32, and so right modulo 2^32 if and only if these misses add up to 0 |
| MemDrift.StepOff | rlmem/src/rlmem.c:144-352 | a single-threaded call moves the difference between recorded and true bytes by what its lookup misses and by nothing else |
| MemDrift.ScheduleError | rlmem/src/rlmem.c:144-352 | so does every schedule of threads, by what the lookups in its critical sections miss |
| MemPhasesTheorems.RacedSessionThenNext | rlmem/src/rlmem.c:27-352 | a history in which a session with the race below is deinited and the next one starts: 50 leaked bytes are reported as 30 and stay in the counters |
| MemThreadsSizes.SizesKeptExactly | rlmem/src/rlmem.c:199-323 | a step leaves every recorded size right if and only if it is not a lookup whose first entry for the address carries another size than the block in question |
| MemThreadsSizes.SizesKeptThroughoutExactly | rlmem/src/rlmem.c:144-352 | over a whole schedule the sizes are right in every state if and only if every lookup finds the right size |
| MemThreadsSizes.NoReuseKeepsSizes | rlmem/src/rlmem.c:291-323 | if the heap never hands out an address a running realloc has just given up, every lookup finds the right size and all recorded sizes stay right in every interleaving |
| MemThreadsSizes.QuietSizesAreTrue | rlmem/src/rlmem.c:291-323 | then a lookup of any owned block gives its true size as an unsigned int once all calls have returned |
| MemThreadsSizes.ForkSizes | rlmem/src/rlmem.c:144-352 | threads that take over from a sequential run start with right sizes |
| MemThreadsSizes.RaceSpoilsSizes | rlmem/src/rlmem.c:291-319 | a schedule of two threads after which a block of 30 bytes is recorded with 10 |
| LogLine.ReadName | rllog/src/rllog.c:123-130 | what fgets and the newline cut leave is the first line, shortened to 15 characters if longer |
| LogLine.LineFits | rllog/src/rllog.c:30-53 | whatever clock, ids, level and message, a line is at most 1081 characters, so the write loop never reads past the 1088-byte buffer |
| LogLine.LongestLine | rllog/src/rllog.c:30-53 | and there are lines of 1081 characters |
| LogLine.FirstLine | rllog/src/rllog.c:123-130 | the kept name is the longest prefix of at most the given length without a newline |
| LogLine.LineExactly | rllog/src/rllog.c:36-55 | a line of level Normal is the message itself; every other line is clock, name, process, thread, the word error, warn, info or debug of its level, and the message, with the separators of the format |
| LogLine.SampleLine | rllog/src/rllog.c:41-50 | a whole line as it stands in the file |
| LogLine.ClockReadsBack | rllog/src/rllog.c:41-44 | hour, minute and second can be read back from their places in a line |
| LogLine.NameReadsBack | rllog/src/rllog.c:41-44 | so can the name, with the numbers behind it |
| LogLine.NumbersReadBack | rllog/src/rllog.c:41-48 | so can process and thread number, level and the whole message |
| LogWriter.ActionCommits | rllog/src/rllog.c:62-108 | a step of any thread changes what the next lock holder will see by one whole critical section or not at all |
| LogWriter.FileIsLinesInLockOrder | rllog/src/rllog.c:62-108 | for any threads, schedule and short or failing writes the file is the finished sections in lock order, each one contiguous prefix of one line, plus a prefix of the line being written |
| LogWriter.WithoutFailuresLinesAreWhole | rllog/src/rllog.c:92-105 | when no write fails every finished section has put down its whole line, however short the writes |
| LogWriter.SinceLastTruncation | rllog/src/rllog.c:67-89 | for any schedule the file is the concatenation, in lock order, of what finished sections appended since it was last truncated, plus the prefix being written |
| LogWriter.FileStaysBounded | rllog/src/rllog.c:65-105 | while stat succeeds the file never exceeds 50 MiB and 1087 bytes under any interleaving |
| LogWriter.QuietStart | rllog/src/rllog.c:140-143 | any file and any number of threads that are not logging are a start these theorems apply to |
| Logger.Process.Init | rllog/src/rllog.c:112-144 | init returns 0 exactly when the name can be read and the log file opened and -1 otherwise, keeps the name bound, and on failure leaves what it has not reached |
| Logger.Process.WriteAll | rllog/src/rllog.c:91-105 | the short-write loop puts down exactly the prefix its writes amount to: all of the line on success, less than all when a write fails |
| Logger.Process.WriteLog | rllog/src/rllog.c:18-109 | the line has at most 1081 characters, and one call changes the file by at most one truncation, when due, and the prefix of its formatted line that its writes amount to |
| Logger.Process.Log | rllog/src/rllog.c:167-188 | of the levels Normal, Error, Warn, Info and Debug a process lets through those up to its own; others, messages of 1024 characters or more and those that cannot be encoded write nothing and return -1; all that pass are one section |
| LoggerTheorems.CallIsOneSection | rllog/src/rllog.c:62-108 | a thread that logs while nobody holds the lock can take the steps of its call in a row; they lead to the file the call leaves by itself, and a call that has returned has had exactly the events of its critical section |
| LoggerTheorems.WholeLineExactlyOnSuccess | rllog/src/rllog.c:91-108 | a call that gets as far as writing has put down its whole line if and only if it returns success |
| LoggerTheorems.PutsWhatWritesTake | rllog/src/rllog.c:91-108 | the writes put down what they take together; the whole line is 0, a failed write before that is -1, and nothing recorded behind it matters |
| LoggerTheorems.SectionExactly | rllog/src/rllog.c:62-108 | a file of more than 52428800 bytes is emptied if both steps succeed and the call gives up otherwise; the part of the line that went down stands behind what was left, and 0 is returned exactly if that is all of it |
| CText.IndexOf | rlstr/src/rlstr.c:203-207 | the search yields the least index at which the target occurs, or none if it occurs nowhere |
| CText.MatchIsCharwise | rlstr/src/rlstr.c:203-207 | a match at an index is agreement of all characters from there on |
| CText.FirstIsIndex | rlstr/src/rlstr.c:203-207 | the search yields an index exactly if it is the first match |
| CText.StrStrFrom | rltime/src/rltime.c:232-235 | the search loop on a buffer finds that index from any position of the text |
| StrEdit.RemoveSubstr | rlstr/src/rlstr.c:196-213 | in place, prefix and suffix of the least match close up, everything behind the terminator is untouched, and a failing call changes nothing |
| StrEdit.ReplaceSubstr | rlstr/src/rlstr.c:216-244 | the detour through the scratch buffer stores prefix, replacement and suffix within capacity, or fails and changes nothing, as it always does for an empty text, target or replacement |
| StrEdit.ReplaceChar | rlstr/src/rlstr.c:247-275 | the same for one character, including NUL, in a scratch buffer of any declared capacity |
| StrEdit.InsertCh | rlstr/src/rlstr.c:155-178 | whatever capacity is declared, the tail with its terminator moves up one place and nothing behind it changes, or the call fails and changes nothing |
| StrEdit.DeleteChar | rlstr/src/rlstr.c:181-193 | the tail moves down one place, or the position is beyond the text and the call fails and changes nothing |
| StrEdit.RmLine | rlstr/src/rlstr.c:138-152 | the string ends at its first newline, if it has one |
| StrEdit.ReplacesLeastMatch | rlstr/src/rlstr.c:216-244 | a replacement succeeds if and only if text, target and replacement are nonempty, the target occurs and the result fits, and changes exactly the least occurrence |
| StrEdit.OneCharReplacementAgrees | rlstr/src/rlstr.c:247-275 | replacing by a character is replacing by a one-character string and for NUL it is removal; where the target occurs it fails exactly when the declared capacity is below the room for one character in its place, which a capacity that holds the text never is |
| StrEdit.InsertSucceeds | rlstr/src/rlstr.c:157-171 | insertion succeeds exactly when the position is in the string and one more character fits, so the second position test rejects nothing extra |
| StrEdit.InsertDelete | rlstr/src/rlstr.c:155-193 | on the buffer, deleting what was inserted restores the string if and only if the character was not NUL |
| StrEdit.DeleteInsert | rlstr/src/rlstr.c:155-193 | on the buffer, inserting what was deleted restores the string if and only if the capacity allows a string of that length |
| StrEdit.InsertedNulCuts | rlstr/src/rlstr.c:174-176 | inserting NUL cuts the string at the position |
| StrEditTheorems.RemoveEdits | rlstr/src/rlstr.c:196-213 | removal returns 0 exactly if text and target are nonempty and the target occurs; the buffer then holds what stands before and behind its first occurrence, and is unchanged behind the terminator |
| StrEditTheorems.ReplaceEdits | rlstr/src/rlstr.c:216-244 | the same for replacement, which also needs a nonempty replacement and a result shorter than the declared capacity |
| StrEditTheorems.ReplaceCharEdits | rlstr/src/rlstr.c:247-275 | the same for replacement by a character, where NUL puts nothing in its place |
| StrEditTheorems.InsertEdits | rlstr/src/rlstr.c:155-178 | insertion returns 0 exactly if the position is in the text and one more character fits; every character has its place then |
| StrEditTheorems.DeleteEdits | rlstr/src/rlstr.c:181-193 | deletion returns 0 exactly if the position is that of a character, and takes out this one |
| StrEditTheorems.RmLineEdits | rlstr/src/rlstr.c:138-152 | cutting a line returns 0 exactly for a nonempty text, which then ends at its first newline if it has one |
| StrNumber.StrIsDigit | rlstr/src/rlstr.c:75-102 | no text is -1; up to 2147483647 characters the answer is 1 exactly for an optional minus and one or more of the characters 0 to 9; from there to 2^32 it is always 0 |
| StrNumber.AtoiReadsNumerals | rlstr/src/rlstr.c:104-112 | on every such numeral atoi gives the number it denotes |
| StrNumber.AtoiExactly | rlstr/src/rlstr.c:104-112 | for every text: white space is skipped, one sign at most taken, the digits behind it read and the rest ignored; no text is -1, and where the number is no int nothing is promised |
| StrNumber.PrintedIntIsReadBack | rlstr/src/rlstr.c:75-152 | printing any int with a newline, stripping the line, checking and converting gives the int back |
| StrNumber.ReadNumber | rlsys/src/rlsys.c:99-109 | the callers' sequence on a buffer reads back every printed int and rejects every line that is no numeral |
| TimeReader.ReceiveHeader | rltime/src/rltime.c:194-212 | the loop keeps the buffer NUL-terminated with exactly the stream received so far in it, and ends |
| TimeReader.GetDate | rltime/src/rltime.c:194-262 | from the first recv to the return the code in the buffer yields the outcome defined on the stream, and the return code follows it and the answer of strptime |
| TimeReaderTheorems.ParseExactly | rltime/src/rltime.c:222-262 | for every text: no good status unless it starts with HTTP/ and contains 200 OK; no date unless Date: occurs; malformed exactly if no line end follows its first occurrence; otherwise the date is exactly what stands between the two |
| TimeReaderTheorems.CompleteExactly | rltime/src/rltime.c:202-210 | the loop has enough exactly at 2047 characters or when a blank line with no NUL before its end has arrived |
| TimeReaderTheorems.TurnExactly | rltime/src/rltime.c:198-212 | each turn takes what the call offers as far as there is room and stream; a call that offers nothing ends the loop in vain |
| TimeReaderTheorems.StopsAtFirstComplete | rltime/src/rltime.c:198-212 | the loop stops at the first call that completes it, with the sum of all that has arrived |
| TimeReaderTheorems.CodesExactly | rltime/src/rltime.c:214-262 | -1 exactly for a missing, malformed or unreadable date, 0 otherwise |
| TimeReaderTheorems.LoopGetsHeader | rltime/src/rltime.c:198-219 | the loop ends with the whole header section exactly if that much is delivered before a recv fails |
| TimeReaderTheorems.LoopSucceedsExactly | rltime/src/rltime.c:198-219 | for every stream the loop succeeds if and only if its header section, or a full buffer where none can be seen, is delivered; a short stream without a visible blank line always fails |
| TimeReaderTheorems.DateFieldIsReadBack | rltime/src/rltime.c:222-239 | a date field written into an accepted response is read back unchanged |
| TimeReaderTheorems.SameDateForEverySegmentation | rltime/src/rltime.c:194-239 | when the header section has all three marks, every segmentation that delivers it yields the same date and every other fails |
| TimeReaderTheorems.DateIsCertainExactly | rltime/src/rltime.c:198-239 | a date all delivering segmentations agree on exists if and only if the header section itself has the three marks |
| TimeReaderTheorems.BodyCanDecide | rltime/src/rltime.c:222-232 | whenever a mark is missing in the header section and present behind it, two segmentations of the same stream disagree |
| TimeReaderTheorems.SegmentationMattersExactly | rltime/src/rltime.c:198-239 | for every stream, all segmentations that deliver enough of it have one outcome if and only if no deciding mark is missing in the header section and present in the rest of the first 2047 characters |
| TimeReaderTheorems.BodyDecides | rltime/src/rltime.c:222-239 | a concrete response read with a date in one piece and without when it arrives in two |
| TimeReaderTheorems.CodeHidesBrokenTransfer | rltime/src/rltime.c:214-219 | whatever the stream and the answer of strptime, a transfer that breaks off too early returns the code of success without a date |
| TimeReaderTheorems.SuccessIsTrueExactly | rltime/src/rltime.c:214-262 | for every stream and segmentation, the code of success means that strptime has read a date if and only if the receive and status checks pass |
| TimeReaderTheorems.CodeOfDeliveredDate | rltime/src/rltime.c:222-262 | where a header section with all three marks is delivered, the code is what strptime makes of its date |
| TimeReaderTheorems.HiddenFailures | rltime/src/rltime.c:214-227 | a transfer cut short and a response with status 404 that both return the code of success |
| TimeReaderTheorems.UnreadableDateFails | rltime/src/rltime.c:243-248 | a date that arrives but that strptime rejects returns RL_FAILED |
| TimeReaderTheorems.LongHeaderFillsBuffer | rltime/src/rltime.c:202-205 | with a header too long for the buffer all segmentations read the same 2047 characters |
| CmdRunner.Process.Await | rlcmd/src/rlcmd.c:95-129 | the poll loop ends, sleeps once after every poll that settles nothing, and leaves the child unreaped exactly when a wait errs or the kill and wait do not both succeed |
| CmdRunner.Process.Retry | rlcmd/src/rlcmd.c:57-131 | the attempt loop runs the attempts of the specification, takes exactly their sleeps and accounts for every child |
| CmdRunner.Process.RunCommand | rlcmd/src/rlcmd.c:9-167 | the call returns what its attempts imply and leaves the signal state that the failing step, if any, implies |
| CmdRunnerTheorems.AttemptIsFirstFinalAnswer | rlcmd/src/rlcmd.c:99-128 | an attempt ends with the first final answer among the polls its timeout allows, all of them without one, and times out exactly when there is none |
| CmdRunnerTheorems.RetriesOnlyAfterTimeouts | rlcmd/src/rlcmd.c:63-131 | all attempts but the last time out, and a last one that times out is the last allowed |
| CmdRunnerTheorems.AttemptSleeps | rlcmd/src/rlcmd.c:107-127 | an attempt sleeps through its whole timeout if and only if the child gives no final answer in time, and never longer |
| CmdRunnerTheorems.ChildrenAndSleepsBounded | rlcmd/src/rlcmd.c:63-129 | at most one child more than tries, and as many timeouts of sleep |
| CmdRunnerTheorems.EveryChildIsReaped | rlcmd/src/rlcmd.c:99-126 | if kill and waits succeed, no child is left when the next is forked or the call returns |
| CmdRunnerTheorems.SuccessExactly | rlcmd/src/rlcmd.c:63-156 | for a nonempty command, with or without a timeout and whatever forks do, RL_SUCCESS is returned if and only if the signal calls succeed and the first final answer any child of an allowed attempt gives in time is a normal exit, or no attempt is allowed |
| CmdRunnerTheorems.FailureExactly | rlcmd/src/rlcmd.c:27-166 | for a nonempty command RL_FAILED is returned if and only if a signal call fails while no fork has ended the process, all children stay silent, or the first final answer is an error of the wait, death by signal 1 or a status that is neither exit nor signal |
| CmdRunnerTheorems.ExitsExactly | rlcmd/src/rlcmd.c:69-74 | the process exits instead if and only if a fork fails after earlier attempts have timed out |
| CmdRunnerTheorems.NegativeTriesRunNothing | rlcmd/src/rlcmd.c:62-156 | a negative number of tries runs nothing and reports success |
| CmdRunnerTheorems.FailureCodeIsAmbiguous | rlcmd/src/rlcmd.c:63-166 | a command that has ended is reported with the code of a failed call if and only if it died by signal 1 or its status is neither exit nor signal |
| CmdRunnerTheorems.SignalOneLooksFailed | rlcmd/src/rlcmd.c:63-166 | an environment in which the command runs and dies by signal 1 and the call returns RL_FAILED |
| CmdRunnerTheorems.CodeOfEndedCommand | rlcmd/src/rlcmd.c:152-166 | a command that has ended is told by the low seven bits of its status: 0 is 0, a signal number below 127 its negative, 127 is -1 |
| CmdRunnerTheorems.SignalToldExactly | rlcmd/src/rlcmd.c:152-166 | for each signal from 2 to 126, the call returns its negative if and only if all signal calls succeed and the first final answer is death by that signal |
| CmdRunnerTheorems.WaitStatuses | rlcmd/src/rlcmd.c:152-166 | every exit code counts as a normal exit, every signal number as itself with or without a core dump |
| CmdRunnerTheorems.ChildLeftExactly | rlcmd/src/rlcmd.c:95-129 | a child is left unreaped if and only if its wait errs, or it stays silent and the kill or the wait behind it fails |
| CmdRunnerTheorems.CallSleepsExactly | rlcmd/src/rlcmd.c:107-129 | a call sleeps through the whole timeout of every attempt but the last, and in that for each answer that settles nothing |
| CmdRunnerTheorems.NoTimeoutNoSleep | rlcmd/src/rlcmd.c:107-129 | without a timeout there is no sleep |
| CmdRunnerTheorems.SignalsLeftExactly | rlcmd/src/rlcmd.c:27-150 | which of the two dispositions, the SIGCHLD handler and the blocked signal 17 a returning call leaves changed, by the call that failed |
| CmdRunnerTheorems.SignalsRestoredExactly | rlcmd/src/rlcmd.c:27-150 | every caller's signal state is as before if and only if the first signal call fails or all six succeed |
| CpuUsage.Tracker.GetCpuUsage | rlsys/src/rlsys.c:11-72 | the tracker's new state and the reading are those of the specification; the first sample reads 0 and arms the tracker; a failed read returns -1 and changes nothing |
| CpuUsage.ReadingIsShare | rlsys/src/rlsys.c:58-71 | for samples that do not run backwards the wrapped arithmetic yields the busy share rounded down, in 0..1000 |
| CpuUsage.ReadingInCounters | rlsys/src/rlsys.c:44-71 | the same in the seven counters: idle and iowait are idle time, the other five are busy time |
| CpuUsage.ShareExactlyBelowOverflow | rlsys/src/rlsys.c:58-71 | for counters that only grow, the reading is the busy share if and only if busy time times 1000 is below 2^64 |
| CpuUsage.RunStaysInRange | rlsys/src/rlsys.c:44-71 | so every reading of a run in which each sample follows the one before is in 0..1000 |
| CpuUsage.MergedReadingIsBetween | rlsys/src/rlsys.c:44-71 | the reading for a whole interval lies between the least and greatest readings of its parts in which time passes |
| CpuUsage.InRangeExactly | rlsys/src/rlsys.c:61-71 | if idle time may fall between two samples, the reading stays in range if and only if it falls by less than a thousandth of the elapsed time |

## Left out

- rleth: sockets, ioctl, DNS and file scanning, whose logic is in libraries and the kernel.
- rltime: time zone and clock setters, socket setup, `connect` and `send`, and what `strptime` makes of an accepted text; the model starts at the stream, and which texts are accepted is an argument.
- rlsys: the `/proc` and `/sys` readers other than the CPU sample, path helpers and the run-time calculation.
- rlstr: `rl_strcpy_s`, `rl_get_str_after_char`, `rl_str_strtol` and the thin wrappers around memset, memcpy, memcmp and strcmp.
- rllog: `rl_log_deint`, which syncs and closes the file, and the perror messages.
- rlmem: the text of leak reports and debug messages, with the unlocked counter reads they make.
- Init and deinit racing with other calls, for allocator and logger; the source reserves them for program start and end.
- Threaded phases with tracing off: each wrapper is then a single heap call, so a sequence of calls stands for any interleaving of them.
- Raw `free` of a ledgered block, and under threads any pointer a thread does not own; sequentially rl_free takes any pointer while tracing is on.
- Critical sections under a mutex are single steps in MemThreads; that they do what the list code does is proved in MemTracer for one thread at a time.
- NULL for a read-only string argument is modelled as the empty string, which the code treats alike; aliasing of arguments is excluded by taking them as values.
- StrEdit.ReplaceSubstr: a call that passes its capacity test must have a text shorter than the declared capacity and a result that fits the caller's buffer; otherwise the copies in the source have no meaning.
- StrNumber.StrIsDigit: says nothing for strings of 2^32 characters or more, where the length wraps and only a part is looked at.
- CmdRunner.Process.RunCommand: without a timeout the source waits as long as the command runs, so there the environment must give a final answer some time; with a timeout nothing is assumed.
- Logger.Process.WriteAll: a kernel that takes no character forever keeps the loop running; the model then ends with the recorded writes and says the call is still writing.
- CpuUsage.ReadingIsShare: assumes the seven counters do not run backwards and that busy time times 1000 fits 64 bits, beyond which the reading is wrong (CpuUsage.ShareExactlyBelowOverflow).
- CpuUsage.InRangeExactly: assumes time has passed, totals do not run backwards and the quotient fits an int.
- Process creation, signals and exec themselves; `waitpid`, `kill` and the signal calls are answers of the environment, and a failing fork ends the model as it ends the process.
