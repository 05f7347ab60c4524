# Verification of four operating-systems programs

This project models four programs of the repository in Dafny and proves what they are for.

**The two-process shared memory** (`HW3P2/s2dsm_P2.c`). Two processes share an array of pages. Each
keeps a MODIFIED / SHARED / INVALID state per page and runs three threads: the command loop, the
page-fault handler and the server. `DsmModel` has one step for each access that another thread can
see (an MSI cell, a mapped page, one end of a socket), and the six threads interleave in any order.
Two FIFO streams per process are kept apart, requests and replies, because that is what makes the
protocol delicate: an `I` is never acknowledged and does not travel with the replies. `DsmProcess`
has the same steps as a class over an MSI array and a page table, proved step by step against the
model, so that every theorem about runs of the model is about these methods. Results come at two
levels.

- *Every interleaving*: replies match requests byte by byte, a waiting handler is answered after
  exactly the number of server turns that its position in the stream fixes, and two MODIFIED copies
  mean that an invalidation is still on its way.
- *Runs serialised per page*: a command on a page begins only when nothing about that page is under
  way; traffic about other pages overlaps freely. Then the two processes are one flat array of pages,
  nothing is lost, every command completes under any fair scheduling, and writing or reading all pages
  (page -1) does what it says.
- *Why serialisation is needed*: two families of runs, reachable from the start, in which a page is
  lost on both sides or a process keeps and prints an outdated page, although everything is delivered.

**The context-switch profiler** (`HW4P2/perftop.c`). A hash table and a tree ordered by accumulated
time are updated together at each switch. `PerftopTrace` says what a task's total is as a fold over the
switches alone, in 64-bit words; `PerftopIndex` says how table, tree and trace agree; `Perftop` is the
class with the probe handlers, which keep the agreement. On top of it: time is conserved on chained
traces of any number of CPUs, the ten-row listing is the only correct one, and the teardown visits
every node.

**The data-structure exercise** (`HW2/kds.c`). The tokenizer cuts its text in place and stores numbers;
then passes over a list, a tree, a radix tree, an xarray and a bitmap print them. The tokenizer is
proved against splitting and parsing, parsing undoes printing, and the outputs of the passes are
related by equations.

**The demand-paging demo** (`HW3P1/uffd/uffd.c`). Eight loops over a region whose pages a handler fills
at their first touch. The run is proved equal to a closed answer for every number of pages.

The tree of the second and third program is shared (`RbTree`): nodes linked by pointers, the descent
and insertion that both files write out, and stand-ins for the kernel's library. The library's
rebalancing is any number of rotations at any places, and rotations are implemented and proved to keep
the order, so the results hold for whatever the library does.

Notes on the code against its comments. `HW4P2/perftop.c` line 130 describes the elapsed time as start
minus current; the code at line 173 computes current minus start, and so does the model. A task that
was first seen as `next` has a start time when it is first switched out, yet its first slice is not
counted (lines 191-193); the model keeps that and accounts for it as "dropped". In the shared memory the
single-writer property, taken access by access, is false at one moment: the server answers a fetch
before it marks its own page SHARED (lines 278-286), so the old owner may still say MODIFIED when the peer
already says SHARED. `DsmResults.SingleWriter` proves that the property holds exactly outside that moment,
and `DsmHandover.SingleWriterHasException` reaches it. That a SHARED but unmapped page is zero (lines
159-186 rely on it) is likewise false in transit: while fetched bytes are about to be mapped, and after the
peer has overwritten the page until its `I` is carried out. `DsmResults.SharedUnmappedIsZero` gives the
exact condition, and `DsmZeroPage.SharedNeedNotBeZero` reaches the second case.

## Model

| member | source | states |
|---|---|---|
| `DsmModel.Zeros` | HW3P2/s2dsm_P2.c:159 | the cleared page is one page of bytes 0 |
| `DsmModel.Pad` | HW3P2/s2dsm_P2.c:534 | copying a message shorter than a page gives exactly one page: the message up to its first zero byte, then zeros |
| `DsmProcess.Process.constructor` | HW3P2/s2dsm_P2.c:397-399 | the loop over the MSI array leaves every page INVALID; nothing is mapped, both streams are empty |
| `DsmProcess.Process.SentRequest` | HW3P2/s2dsm_P2.c:57-65 | the request goes to the end of the process's own request stream and nothing else changes |
| `DsmProcess.Process.StartCommand` | HW3P2/s2dsm_P2.c:497-506 | a parsed command is taken only at the prompt and only for -1 or an existing page; otherwise no effect |
| `DsmProcess.Process.MainThread` | HW3P2/s2dsm_P2.c:506-540 | one access of the command loop: whole new state of the process and what was written or seen; it stands still while its fault is unresolved |
| `DsmProcess.Process.FaultHandlerThread` | HW3P2/s2dsm_P2.c:157-195 | one access of the fault handler, on both processes: asks only when INVALID, reads the answer byte and exactly a page after '1', marks SHARED before mapping |
| `DsmProcess.Process.SendPage` | HW3P2/s2dsm_P2.c:281-284 | exactly the page's bytes are appended to the replies; an unmapped page is sent, and becomes, zeros |
| `DsmProcess.Process.ServerThread` | HW3P2/s2dsm_P2.c:260-297 | one access of the server, on both processes: '0' when INVALID, '1' and the page otherwise, SHARED afterwards without mapping; `I` unmaps and then marks INVALID |
| `DsmProcess.RunStep` | HW3P2/s2dsm_P2.c:118-300 | one step of any of the six threads on the two objects is one step of the transition system |
| `DsmProcess.Run` | HW3P2/s2dsm_P2.c:432-541 | two freshly started processes under any schedule end in the state, and produce the log, of the model's run |
| `DsmSafety.SafeStep` | HW3P2/s2dsm_P2.c:118-300 | every step of every thread keeps the invariant of framing, handler discipline and transient double ownership |
| `DsmSafety.EveryRunIsSafe` | HW3P2/s2dsm_P2.c:118-300 | every interleaving from the start satisfies that invariant |
| `DsmSafety.ModifiedTwiceIsAnnounced` | HW3P2/s2dsm_P2.c:517-538 | the same with the states spelled out: the command stands between its mark and its `I`, or the `I` is in the stream, or the peer's server has it in hand |
| `DsmSafety.RepliesAreMatched` | HW3P2/s2dsm_P2.c:166-182 | in every interleaving exactly one fetch is outstanding while a handler waits and none otherwise; the fetch in the stream, and the one being answered, are for the page that faulted; what the handler reads is a whole answer or the start of one; the reply stream is empty otherwise |
| `DsmSafety.AnswerIsReadWhole` | HW3P2/s2dsm_P2.c:168-182 | the handler step that ends a wait leaves the reply stream empty: it took a single '0' and goes on with zeros, or took exactly the one page that was in the stream |
| `DsmSafety.SettledSingleWriter` | HW3P2/s2dsm_P2.c:268-295 | in every interleaving, when both request streams are empty, both servers between turns and no command under way on a page, a page is MODIFIED at one process at most |
| `DsmProgress.DistanceByPosition` | HW3P2/s2dsm_P2.c:260-297 | a fetch with k invalidations in front of it is k + 1 turns of the server's loop away |
| `DsmProgress.StepDistance` | HW3P2/s2dsm_P2.c:166-182 | that distance falls by exactly one when the peer's server reads a request, and no other step of any thread, and no later traffic, changes it; the step counts enclose what is left |
| `DsmProgress.AnsweredAfterExactly` | HW3P2/s2dsm_P2.c:260-297 | however the threads are scheduled, when the answer becomes complete the peer's server has begun exactly as many turns as the fetch was away, and run for a number of steps between the two counts |
| `DsmProgress.WaitingIsAnswered` | HW3P2/s2dsm_P2.c:166-182 | a schedule that runs the peer's server that often does complete the answer, and has a first moment at which it is complete |
| `DsmProgress.FetchTakesItsTurn` | HW3P2/s2dsm_P2.c:166-182 | in every run: a fetch at index k is answered after exactly k + 1 turns, no sooner and no later, which are 3k + 3 or 3k + 4 server steps if the server was between turns |
| `DsmSerial.CoherentStep` | HW3P2/s2dsm_P2.c:118-300 | every step of a serialised run keeps, on every page at once, the relation between both MSI cells, both mappings, both streams and the history of the page |
| `DsmSerial.EverySerialRunIsCoherent` | HW3P2/s2dsm_P2.c:118-300 | every serialised run from the start satisfies it, and every look at a page showed the flat array |
| `DsmResults.StepRefinesFlatArray` | HW3P2/s2dsm_P2.c:506-540 | each step is, on the flat array, nothing, one whole-page write, or one read that returns its bytes |
| `DsmResults.SerialRunsRefineFlatArray` | HW3P2/s2dsm_P2.c:506-540 | in every serialised run each read returns the zero-padded message of the last write by either process, or zeros |
| `DsmReads.EveryReadIsRight` | HW3P2/s2dsm_P2.c:506-540 | in the log of every serialised run, a look at a page that nobody wrote before shows a page of bytes 0, and any other look shows the bytes of the last write before it |
| `DsmReads.EveryWriteIsCommanded` | HW3P2/s2dsm_P2.c:506-540 | every such write is by a process that was given a write command for this page or for -1, and its bytes are the message up to its first zero byte, then zeros |
| `DsmResults.QuietFollowsHistory` | HW3P2/s2dsm_P2.c:162-186 | between commands both MSI cells and both mappings are determined by who last wrote and who has looked since |
| `DsmResults.NothingIsLost` | HW3P2/s2dsm_P2.c:159-294 | at every moment of a serialised run a touched page is mapped with its flat bytes by at least one process, and the two are never both INVALID |
| `DsmResults.SharedUnmappedIsZero` | HW3P2/s2dsm_P2.c:159-194 | at every moment of a serialised run a page that is SHARED but unmapped is zero, if and only if the process is not about to map fetched bytes other than zeros, and the peer has not overwritten the page with other bytes that an `I` still has to announce |
| `DsmResults.QuietPageIsWhole` | HW3P2/s2dsm_P2.c:159-294 | between commands also all copies are equal, SHARED but unmapped always means zero, and both are INVALID exactly on untouched pages |
| `DsmZeroPage.ShareOutlivesZeros` | HW3P2/s2dsm_P2.c:268-274 | from any settled state in which nobody has a page: a first read and the beginning of a write by the same process leave its peer SHARED and unmapped while the flat array has the new bytes |
| `DsmZeroPage.SharedNeedNotBeZero` | HW3P2/s2dsm_P2.c:268-274 | such a moment, with bytes that are not zero, is reached by a serialised run from the start |
| `DsmResults.SingleWriter` | HW3P2/s2dsm_P2.c:534-538 | at every moment of a serialised run, while one process has a page MODIFIED: the other is INVALID and unmapped or an `I` is on its way to it, if and only if the owner is not in front of its own SHARED mark with the peer past INVALID |
| `DsmHandover.OwnerLagsBehind` | HW3P2/s2dsm_P2.c:276-287 | from any settled state with one owner, a serialised read passes through that exception; the reader is then SHARED, unmapped and about to map the fetched bytes |
| `DsmHandover.SingleWriterHasException` | HW3P2/s2dsm_P2.c:276-287 | the exception, with bytes that are not zero, is reached by a serialised run from the start, for every page count |
| `DsmResults.TransfersAreSound` | HW3P2/s2dsm_P2.c:268-287 | the server answers '1' only for a mapped page and sends its flat bytes; the handler installs only flat bytes, and only over an unmapped page |
| `DsmCompletion.StepLowersWork` | HW3P2/s2dsm_P2.c:118-300 | a step that changes anything uses up work, so no run goes on for ever |
| `DsmCompletion.StuckIsDone` | HW3P2/s2dsm_P2.c:118-300 | a serialised run in which no thread can move is complete: no deadlock |
| `DsmCompletion.FairRunsComplete` | HW3P2/s2dsm_P2.c:506-541 | every command, also on all pages, completes in as many fair rounds as there is work, with every message delivered |
| `DsmCompletion.DoneStays` | HW3P2/s2dsm_P2.c:446-450 | without new commands a finished state does not change |
| `DsmBroadcast.WriteAll` | HW3P2/s2dsm_P2.c:506-523 | writing page -1 leaves, for any page count and any fair schedule, every page MODIFIED with the message at the writer and INVALID and unmapped at the peer |
| `DsmBroadcast.WriteAllLogIs` | HW3P2/s2dsm_P2.c:516-521 | what that run logs, position by position: for page p a write and then a print |
| `DsmBroadcast.ReadAllAfterWriteAll` | HW3P2/s2dsm_P2.c:508-515 | reading page -1 at the peer then prints the message for every page, in order, and leaves every page SHARED and mapped with it at both |
| `DsmBroadcast.ReadAllLogIs` | HW3P2/s2dsm_P2.c:511-515 | what that run logs, position by position: for page p two looks, the copy and the print |
| `DsmRace.CrossingWritesLoseThePage` | HW3P2/s2dsm_P2.c:534-538 | from any settled state with the page mapped at both, crossing writes end with every message delivered and the page INVALID and unmapped at both |
| `DsmRace.SerialRunIsRun` | HW3P2/s2dsm_P2.c:118-300 | serialised runs are runs |
| `DsmRace.PageCanBeLost` | HW3P2/s2dsm_P2.c:289-294 | such a loss of a written page is reachable for every page count and every page size of at least 2 |
| `DsmStale.StaleCopySurvives` | HW3P2/s2dsm_P2.c:179-194 | from any settled state with one owner, a fetched page that is installed after a later `I` stays SHARED with the old bytes and is printed after the owner's write |
| `DsmStale.ReadCanBeStale` | HW3P2/s2dsm_P2.c:179-194 | such a read, which the flat array contradicts, is reachable from the start |
| `DsmAddress.AndBits` | HW3P2/s2dsm_P2.c:187-188 | the model's `&` works bit by bit |
| `DsmAddress.MaskRoundsDown` | HW3P2/s2dsm_P2.c:187-188 | and-ing an address with the complement of page_size - 1, bit by bit, removes exactly the offset in the page |
| `DsmAddress.PageOfAddress` | HW3P2/s2dsm_P2.c:157 | the page index of any address of the region is below the page count, and names the page that holds the address |
| `DsmAddress.FaultIsResolvedInPlace` | HW3P2/s2dsm_P2.c:187-188 | the handler's destination is the address at which the server and the command loop find the faulted page |
| `DsmAddress.MaskIdentifiesPage` | HW3P2/s2dsm_P2.c:157 | two addresses have the same page index exactly when they have the same destination |
| `RbTree.RbRoot.Insert` | HW4P2/perftop.c:62-88 | on a sorted tree the new node goes behind all nodes with keys up to its own, the others keep their order, whatever the rebalancing does |
| `RbTree.InsertedSorted` | HW2/kds.c:57-74 | insertion keeps the tree sorted |
| `RbTree.LinkIsInsertion` | HW2/kds.c:70-71 | linking a node at such a link is an insertion in order |
| `RbTree.Turn` | HW2/kds.c:73-74 | a pointer rotation in either direction keeps nodes and order |
| `RbTree.RbRoot.Rebalance` | HW2/kds.c:73-74 | any number of rotations at any links keeps nodes and order |
| `RbTree.RbRoot.Erase` | HW2/kds.c:155 | exactly this node leaves the order |
| `RbTree.RbRoot.Next` | HW2/kds.c:153 | the node behind this one, or none |
| `RbTree.RbRoot.Prev` | HW4P2/perftop.c:250 | the node in front of this one, or none |
| `RbTree.RbRoot.Drain` | HW4P2/perftop.c:321-328 | taking the successor before erasing visits every node once, in order, and leaves an empty tree |
| `PerftopTrace.Elapsed` | HW4P2/perftop.c:173 | current minus start modulo 2^64, and the plain difference if the start is not later |
| `PerftopTrace.StartIsLatestPick` | HW4P2/perftop.c:197-217 | the start of a task is the time of its latest pick or, if it was never picked, of its first switch-out; there is none exactly if it never occurred |
| `PerftopTrace.SwitchedOut` | HW4P2/perftop.c:147-195 | a task has a total exactly if it was ever switched out |
| `PerftopTrace.LastOutIsLast` | HW4P2/perftop.c:194-195 | the position that ties are decided by is that of the last switch from the task |
| `PerftopConservation.RunningStarts` | HW4P2/perftop.c:172-217 | on chained traces the recorded start of a running task is when it was picked on its CPU |
| `PerftopConservation.RunningIs` | HW4P2/perftop.c:197-217 | who runs on a CPU, and since when, is told by the last switch on it |
| `PerftopConservation.SpanIs` | HW4P2/perftop.c:143-218 | a CPU covers the time from the first switch on it to the last |
| `PerftopConservation.SlicesCoverTime` | HW4P2/perftop.c:172-195 | on chained traces of any number of CPUs, counted and dropped slices add up to the time covered, modulo 2^64 |
| `PerftopConservation.TotalFits` | HW4P2/perftop.c:184-186 | on chained traces with timestamps that never go back no total exceeds the time covered, so 64 bits are enough |
| `PerftopConservation.TotalsOnlyGrow` | HW4P2/perftop.c:184-186 | there every switch-out adds exactly the time since the latest pick |
| `PerftopConservation.GrowsUnlessItWraps` | HW4P2/perftop.c:172-186 | on any trace with such timestamps a total fails to grow exactly when the exact sum leaves 64 bits |
| `PerftopConservation.UnchainedSlicesOverlap` | HW4P2/perftop.c:214-217 | two switch-outs without a pick in between count the time up to the first twice, because the start is refreshed only for `next` |
| `PerftopTable.HashTable.constructor` | HW4P2/perftop.c:274-276 | an empty table |
| `PerftopTable.HashTable.Find` | HW4P2/perftop.c:150-155 | the bucket scan finds the entry of a pid exactly if the table has one |
| `PerftopTable.HashTable.Add` | HW4P2/perftop.c:168 | the table gains exactly this entry, at the head of its bucket; pids stay unique |
| `PerftopTable.HashTable.FindOrAdd` | HW4P2/perftop.c:150-172 | the entry of the pid; a new one that starts now and has no node if there was none; other entries unchanged |
| `PerftopTable.HashTable.Restart` | HW4P2/perftop.c:200-217 | the start of `next` becomes now, with its node kept, or a new entry; other entries unchanged |
| `PerftopIndex.InsertedRanked` | HW4P2/perftop.c:77-80 | among equal totals the most recently updated stands last |
| `PerftopIndex.SwitchKeepsAgreement` | HW4P2/perftop.c:143-218 | one switch keeps table, tree and trace in agreement |
| `PerftopListing.IndexAgreement` | HW4P2/perftop.c:150-217 | agreement means: the table has the pids seen, once each; an entry's node is in the tree, has its pid and the total of the trace; each node belongs to exactly one entry; the tree is sorted |
| `PerftopListing.TreeHoldsAllTime` | HW4P2/perftop.c:172-195 | the totals in the tree plus the dropped first slices are the time covered by all CPUs, modulo 2^64 |
| `PerftopListing.OneChainCovers` | HW4P2/perftop.c:143-218 | on one CPU that time is the last timestamp minus the first |
| `PerftopListing.OneChainConservesTime` | HW4P2/perftop.c:143-218 | on one CPU, if each event's next is the following event's prev, totals and dropped slices add up to the last timestamp minus the first, modulo 2^64 |
| `PerftopListing.LastNodesAreTop` | HW4P2/perftop.c:245-252 | the last ten nodes, read backwards, are a correct listing of the trace |
| `PerftopListing.ListingIsUnique` | HW4P2/perftop.c:245-252 | a trace has one correct listing, ties included |
| `PerftopListing.ListingMeans` | HW4P2/perftop.c:245-252 | a correct listing has one row for each of at most ten tasks, with their totals, never rising, equal totals by the later switch-out, and leaves out no task with a larger total |
| `PerftopListing.ListingSize` | HW4P2/perftop.c:246 | it has one row for each task ever switched out, up to ten |
| `Perftop.Profiler.constructor` | HW4P2/perftop.c:15-19 | empty structures that agree with the empty trace |
| `Perftop.Profiler.EntryPickNextFair` | HW4P2/perftop.c:93-111 | kernel threads are skipped; otherwise `prev` is kept and the entry counted |
| `Perftop.Profiler.MoveNode` | HW4P2/perftop.c:172-195 | the task's node leaves the tree and a new one goes in, with the wrapped sum, or zero for a first node |
| `Perftop.Profiler.RecordSwitch` | HW4P2/perftop.c:143-218 | a switch extends the trace by one event and keeps everything in agreement |
| `Perftop.Profiler.RetPickNextFair` | HW4P2/perftop.c:117-224 | if the addresses are equal or one is NULL the trace stays as it is, otherwise it gains exactly this event; the return is counted either way |
| `Perftop.Profiler.PerftopProcShow` | HW4P2/perftop.c:235-255 | the counters, and rows that are the correct listing: at most ten, totals of the trace, by total and then by latest switch-out, omitting only what all rows outrank |
| `Perftop.Profiler.PerftopExit` | HW4P2/perftop.c:321-328 | the teardown visits exactly the nodes that agree with the trace and empties the tree |
| `Perftop.OneMoreCall` | HW4P2/perftop.c:135 | which returns are switches, for whole sequences of returns: those with two different addresses, neither of them NULL |
| `Perftop.Profile` | HW4P2/perftop.c:117-255 | after any sequence of probe returns the structures agree with the switches among them, and the listing is theirs |
| `KdsText.ToInt` | HW2/kds.c:403 | storing a long as an int keeps it modulo 2^32 and changes nothing that fits |
| `KdsText.KstrtolMeans` | HW2/kds.c:387-392 | which words are numbers and what they are worth, and the code of every other word: -34 out of range, -22 not a number |
| `KdsText.CutExists` | HW2/kds.c:387 | every word has the form that the row above speaks of: sign, digits, rest |
| `KdsText.WordsSplit` | HW2/kds.c:378-384 | a space separates words and belongs to none |
| `KdsText.WordsOfPiece` | HW2/kds.c:384 | text without a space is one word, or none if it is empty |
| `KdsText.ConvertMeans` | HW2/kds.c:387-404 | every word in front of the first bad one is stored, at most 65536; the error is that of the first bad word, or -EINVAL for one that parses but has no room |
| `KdsText.ConvertStops` | HW2/kds.c:389-401 | nothing behind a refused word matters |
| `KdsText.DecimalRoundTrip` | HW2/kds.c:387 | parsing undoes decimal printing for every 64-bit number |
| `KdsText.DecimalMeans` | HW2/kds.c:407 | decimal printing: a minus sign for negative numbers only, then the digits of the absolute value without leading zeros |
| `KdsText.JoinedMeans` | HW2/kds.c:378-384 | joining puts one space between two words and none elsewhere |
| `KdsText.ParsingUndoesPrinting` | HW2/kds.c:374-423 | 32-bit numbers printed with single spaces come back exactly, up to 65536 of them; of more, the first 65536 and -EINVAL |
| `KdsTokenizer.PieceIsCString` | HW2/kds.c:380-384 | the C string at the slow pointer is the current piece once its separator is cut |
| `KdsTokenizer.RefusedWordDecides` | HW2/kds.c:389-401 | the first refused word decides the outcome of the whole text |
| `KdsTokenizer.StoreWord` | HW2/kds.c:387-404 | a word is parsed first and only then refused for lack of room; nothing else in the array changes |
| `KdsTokenizer.Tokenize` | HW2/kds.c:374-423 | the stored numbers and the return value are those of splitting and parsing the text; spaces up to the stopping point are cut, everything behind it is unchanged |
| `KdsPasses.PlayLinkedList` | HW2/kds.c:93-116 | adding at the head and reading from the tail prints the input in order |
| `KdsPasses.PlayRbTree` | HW2/kds.c:130-159 | prints the sorted permutation of the input |
| `KdsPasses.Fill` | HW2/kds.c:223-235 | the tree leads from each number to its first pointer when insertion refuses a taken index, to its last when it overwrites |
| `KdsPasses.LookUp` | HW2/kds.c:238-245 | prints the input in order; an index is marked exactly if it is a number of the input that is positive and leaves 1 when divided by 2 |
| `KdsPasses.GangLookupIs` | HW2/kds.c:257 | the lookup is ascending, and complete whenever there is room |
| `KdsPasses.SlotsSuffice` | HW2/kds.c:250-257 | `length` slots always are enough room |
| `KdsPasses.Release` | HW2/kds.c:268-274 | every pointer in the tree is freed, none twice, and the tree is empty in the end |
| `KdsPasses.PlayRadixTree` | HW2/kds.c:213-277 | for all ints, the looked-up numbers are the input, the tagged ones the odd numbers in order and once each; exactly the first pointer of each number is freed |
| `KdsPasses.ForEachMarked` | HW2/kds.c:311-316 | stepping from mark to mark prints every marked index once, in order |
| `KdsPasses.PlayXarray` | HW2/kds.c:279-328 | the same odd numbers; exactly the last pointer of each number is freed |
| `KdsPasses.FindNextBit` | HW2/kds.c:344 | the first set bit from a position on, or the size |
| `KdsPasses.PlayBitmap` | HW2/kds.c:330-346 | prints every number of the input once, in order |
| `KdsOrder.OddMeans` | HW2/kds.c:242 | the test on the C remainder picks exactly the numbers 2k + 1 with k at least 0 |
| `KdsOrder.AscendingIsUnique` | HW2/kds.c:344-346 | a set of numbers has one ascending listing |
| `KdsOrder.RisingIsUnique` | HW2/kds.c:146-159 | a bag of numbers has one sorted listing |
| `KdsOrder.DeduplicatedIs` | HW2/kds.c:344-346 | dropping equal neighbours from a sorted listing gives the ascending one of its elements |
| `Kds.PassesAgree` | HW2/kds.c:425-430 | list = input, tree = its sorted permutation, bitmap = tree without repetitions, radix tree = xarray = the odd numbers of the bitmap |
| `Kds.AgreementMeans` | HW2/kds.c:425-430 | the equations are equivalent to saying which numbers each output has and in what order: all, sorted; all, ascending; the positive odd ones, ascending |
| `Kds.OutputsForgetOrder` | HW2/kds.c:425-430 | two inputs with the same numbers in any order differ in the list output only |
| `Kds.PrintedNumbersComeBack` | HW2/kds.c:371-423 | a parameter that was printed from at most 65536 ints is parsed to exactly these, whatever follows its end in memory |
| `Kds.MyModuleInit` | HW2/kds.c:353-436 | from the text to all outputs: the return value is that of the parsing, on success the outputs agree, on an error no pass runs |
| `UffdSpec.Letter` | HW3P1/uffd/uffd.c:173 | the character 65 + count mod 20 |
| `UffdSpec.DemoAnswer` | HW3P1/uffd/uffd.c:401-539 | n pages: faults are pages 0..n-1 in order three times, 3n in all; loops 1-2 print the letter of page mod 20, loops 3-4 of (n + page) mod 20, 5-6 '@', 7-8 '^', at every address |
| `UffdSpec.SweepFaults` | HW3P1/uffd/uffd.c:448-454 | a loop on missing pages faults once a page, at the first access to it, and a loop on present pages never |
| `UffdSpec.SweepPrints` | HW3P1/uffd/uffd.c:401-407 | a loop prints one line for each multiple of 1024, with the character of its page |
| `Uffd.Region.HandleFault` | HW3P1/uffd/uffd.c:173-199 | every byte of the faulted page, and of no other, becomes 65 + (fault counter mod 20); the counter goes up by one |
| `Uffd.Region.Touch` | HW3P1/uffd/uffd.c:403 | an access faults exactly if the page is missing |
| `Uffd.Region.Memset` | HW3P1/uffd/uffd.c:486 | a write of 1024 bytes faults at most once and changes exactly these bytes |
| `Uffd.Region.ReadLoop` | HW3P1/uffd/uffd.c:401-407 | on a missing or a filled region: whole new region, fault counter and log |
| `Uffd.Region.WriteLoop` | HW3P1/uffd/uffd.c:484-490 | the same for a writing loop; every page ends up with the character |
| `Uffd.Region.Discard` | HW3P1/uffd/uffd.c:445-447 | every page is missing again; the fault counter goes on |
| `Uffd.Demo` | HW3P1/uffd/uffd.c:401-539 | the program's log is the closed answer and it takes exactly 3n faults |

## Left out

Shared memory (`HW3P2/s2dsm_P2.c`):

- Sockets, handshake, `mmap` and `userfaultfd` registration, `poll` and every error exit: calls into code outside the file. Streams are reliable FIFOs, reads and writes are whole, mappings succeed.
- Prompts, `fgets`, `strtol` and the `v` display: commands arrive parsed, with messages shorter than a page as line 461 ensures. `printf` of a page is the event of looking at it; where the text ends inside the page is not modelled.
- `page_size * pages` and `which_page * page_size` are assumed not to overflow.
- C-level data races inside one access: each access to an MSI cell, a page or a stream is one step.
- The page that a server sends while it is unmapped: the kernel-side fault is one zero-filling step. `DsmResults.TransfersAreSound` shows that serialised runs never get there.
- `UFFDIO_COPY` on a page that is mapped ends the process in the source; here the handler stays where it is.
- DsmResults.SingleWriter: an exact condition instead of the unconditional property, because the latter fails between answering a fetch and marking the page SHARED.
- DsmResults.SharedUnmappedIsZero: an exact condition instead of the unconditional property, because the latter fails in transit; between commands DsmResults.QuietPageIsWhole has it without a condition.
- DsmResults.SerialRunsRefineFlatArray: serialisation per page is shown to be enough, and two families of unserialised runs are shown to break the property; which of the unserialised runs happen to be coherent is not characterised.

Profiler (`HW4P2/perftop.c`):

- kprobe registration, `/proc` plumbing, the spinlocks themselves, allocation failure and pid reuse. Timestamps are taken in lock order, each switch is atomic under the timing lock.
- The buckets that line 276 allocates are not initialised in the source; the table starts empty here.
- The counters and pids are unbounded integers; timestamps and totals are 64-bit words.
- PerftopTable.HashTable.Find: the bucket is a sequence and the hash any function; the `hlist` links are not modelled.
- The teardown of the hash table (lines 315-318), which frees while it iterates.
- Which rotations the kernel's red-black tree performs: RbTree.RbRoot.Rebalance allows all. Parent pointers and colours are not part of this model.

Data structures (`HW2/kds.c`):

- `play_hash_table`: its table starts uninitialised and its teardown frees while it iterates; the order it prints in is the library's.
- `kstrtol`, the radix tree, the xarray, the bitmap and the list are library code that is not in the repository: KdsText.Kstrtol follows its behaviour with 64-bit longs (digits of 2^64 or more are out of range even if something else follows them), the others are maps, sets, sequences and an array of bits. Allocation failure is left out.
- Kds.MyModuleInit: requires the numbers to be in 0 to 1000 when the parsing succeeds, since the module sets bits without a check; the other passes are proved for all ints.

Demand paging (`HW3P1/uffd/uffd.c`):

- Registration, `poll` and error exits; the faulting thread waits until its fault is resolved, so the handler runs as a call.
- The address that the handler prints, the separator lines, and the overflow of the `int` loop variable for regions beyond 2 GB.
- The page size is any positive multiple of 1024 and addresses are offsets in a page-aligned region; DsmAddress.MaskRoundsDown is the proof that the mask rounds down for powers of two.

Other directories (`HW1`, `HW3P1/s2dsm_P1b.c`, `HW3P1/s2dsm_P1c.c`, `HW4P1`, `HW5` and the submission copies): small, or the same code in an earlier state.
