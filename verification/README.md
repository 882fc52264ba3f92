# WebTester: a verified model

WebTester is a judging server for programming contests. It fetches solutions from a web
interface, queues them, puts them on belts for testing modules, and hands the results back;
around that it keeps status tables for its clients, pools, packed texts and a configuration
tree. This project models that logic in Dafny and proves what it keeps over every run and
every input.

The state that the server changes step by step is modelled by classes and loops; each method
is proved equal to a function on values, and the laws are proved about those functions. What
comes from outside (modules, HTTP, the clock, processes, files, scheduling) is a parameter
that may take any value.

| files | component |
|---|---|
| `task.dfy`, `pipeline.dfy`, `pipelineruns.dfy`, `server.dfy`, `walks.dfy`, `tasklist.dfy` | the task pipeline: list of tasks, queue, belts, module chain, accumulator |
| `dynastruc.dfy`, `bubblesort.dfy`, `listing.dfy` | the doubly linked list, its sort, the order of listings |
| `packing.dfy`, `assarr.dfy` | packed text and the hash table |
| `flexval.dfy`, `flextrip.dfy`, `flexscan.dfy` | flexible values, their text and its parser |
| `stat.dfy`, `statserver.dfy` | the status table and the changes sent to clients |
| `blocks.dfy`, `md5.dfy`, `md5context.dfy` | MD5, streamed and in one piece (RFC 1321) |
| `hvpool.dfy`, `unique.dfy`, `ipcslots.dfy` | the pool of process statistics, unique ids, client slots |
| `hive.dfy`, `hiveparser.dfy` | the configuration parser and lookups |
| `scoring.dfy` | verdicts, points and errors of a testing |
| `seqs.dfy`, `decimal.dfy` | shared facts about sequences and numerals |

`dafny verify dfyconfig.toml` checks everything.

## Findings

Where the code does not do what its comments or its callers expect, the model follows the
code, a lemma gives an input that shows it, and a lemma says for all inputs when the code does
what is expected.

- A chain has 32 places, and an unknown module name takes one of them as -1. In no run is it overrun exactly when `ChainsFit` holds (`PipelineRuns.ChainArrayIsLargeEnough`). Any 32 modules meet that; of modules with distinct names and ids exactly up to 32 do, so 33 of them do not (`PipelineRuns.DistinctModulesFit`, `PipelineRuns.ThirtyThreeModules`).
- The filter for known solutions looks at queue and belts, not at the accumulator. A run that leaves a solution there and takes it in again is `PipelineRuns.AccumulatedRun`; when an entry of a list takes it in again is `PipelineRuns.AccumulatedKeyIsNotFiltered`. At shutdown the accumulated solutions, and only those, are lost (`PipelineRuns.ShutdownLosesTheAccumulated`).
- `assarr_unpack` does not give back a value that begins with a semicolon, or an entry whose key holds one (`Packing.RoundTrip`). Worse, it loops for ever on a non-empty value announced with length 0 (`Packing.HangsExactly`), and the packer writes such texts itself, for a value like `;k;0;x` (`Packing.SemicolonValueHangs`); but only where a key holds a semicolon or a value begins with one (`Packing.OnlySemicolonsHang`).
- Serialized strings are not escaped. A string is read back exactly if it holds no quote, backslash or line break; a bracket in it does harm only where it unbalances an array around it (`FlexTrip.SerializeRoundTrip`).
- The hash is negative for bytes from 128 on (`Assarr.HashNeedsAscii`). `count` is not lowered when a key is removed: it is the number of keys plus the number of removals.
- A flexible value given a text that is no number keeps its old type tag. Over no type, two values then compare as equal, so the first text is sent to a client and no later one (`Stat.SecondTextIsLost`, `Stat.FirstTextStays`). Over an integer, the client is sent 0 or 1 instead of the text (`Stat.TextOverIntegerIsLost`), and that again with every later write of anything: once the server's copy differs from the text, it does so until the name is written again (`Stat.TextOverIntegerNeverSettles`). A copy that does not differ was made of the same text over a numeric string; then the client has the text. Over a numeric string the text arrives, but is read without its type. Which variables a client reads rightly is `Stat.ViewExactly`.
- `review_clients` copies the stored uid over the one of the connection instead of the other way round; a client that reconnects still starts unregistered (`Stat.ReconnectStartsAfresh`).
- The loop guard of `md5_update` can wrap around for inputs within 63 bytes of 2^32, and the loop then runs behind the input (`Md5Contexts.GuardWraps`, `Md5Contexts.Context.Update`). For every list of chunks the digest is right exactly as far as no chunk does that (`Md5Contexts.DigestChunks`).
- The comparator of listings runs in a circle when a name that is no number stands between two numbers the wrong way round, as 1a does between 10 and 9 (`Listing.MixedListingHasNoOrder`). Every listing of a set of names ends in order exactly if there is no such circle among them (`Listing.ListingsExactly`).
- The IPC table refuses a client at its limit even when the others have timed out (`IpcSlots.RegisterSucceeds`).
- In the configuration parser a closing brace where a value is due is always an error, a quoted text that begins with a brace is a brace, and a second group behind a node adds to the first (`Hive.SecondGroupAdds`).
- A testing module that is stopped and started again while a solution is tested gives "OK" and the bonus for the tests run so far (`Scoring.OkIsEarned`).

## Model

| member | source | states |
|---|---|---|
| `Tasks.ChainTest` | src/webtester/task.c:296-330 | A module joins the chain, at its end, exactly if it is neither in it nor the task's own library; otherwise -1 and no change |
| `Tasks.ModuleIdInUniverse` | src/webtester/library.c:364-379 | Every name stands for the id of a module or for -1 |
| `Tasks.SendForTestingOk` | src/webtester/belts.c:151-173 | The first hand-over leaves a sound record: taken by its own library, or still waiting |
| `Tasks.SendToChainOk` | src/webtester/belts.c:182-194 | Offering a task down its chain keeps the record sound, also with the cursor put back after a refusal |
| `Tasks.RunChain` | src/webtester/belts.c:292-331 | The chain loop terminates although modules lengthen the chain while it runs; a task is to be returned only when the whole chain was offered it |
| `Tasks.RunChainMeans` | src/webtester/belts.c:292-331 | The loop ends at the end of the chain with no further acceptance, or with the module at the cursor accepting, or in front of a module that asked to wait |
| `Tasks.AcceptedOnce` | src/webtester/belts.c:292-331 | No module accepts a task twice, and acceptances follow the chain |
| `Tasks.ChainBound` | src/webtester/task.h:162-175 | A chain is no longer than the number of distinct ids other than the task's own |
| `Pipeline.Visited` | src/webtester/belts.c:388-399 | The walk of `belts_fill` stops at the end of the queue or when the belts are full, and not before |
| `Pipeline.ReceiveCounts` | src/webtester/plugins/webinterface/transport.c:590-667 | Every task of a new number enters the queue once; the old ones stay |
| `Pipeline.ReceiveTakesOnly` | src/webtester/plugins/webinterface/transport.c:596-667 | Only tasks of the list are taken in, behind those that wait |
| `Pipeline.ReceiveTakesAll` | src/webtester/plugins/webinterface/transport.c:596-667 | Unless the queue ends full, every task of the list is in the queue or on the belts |
| `Pipeline.ReceiveKeyed` | src/webtester/plugins/webinterface/transport.c:639-666 | The filter keeps every key at most once in queue and belts together |
| `Pipeline.ReviewMeans` | src/webtester/belts.c:284-365 | Restored exactly if interrupted; delivered or accumulated, as the put answers, only if finished and taken by no further module; a finished task stays only if taken or asked to wait |
| `Pipeline.SweepCounts` | src/webtester/belts.c:248-370 | An overview loses and doubles nothing: each task stays, is delivered, accumulated or restored |
| `Pipeline.FillCounts` | src/webtester/belts.c:377-467 | Filling loses and doubles nothing |
| `Pipeline.NoDuplicates` | src/webtester/belts.c:401-419 | With distinct keys the duplicate branch of `belts_fill` is never taken |
| `Pipeline.FillNeverOverflows` | src/webtester/belts.c:388-427 | Filling never exceeds the size of the belts |
| `Pipeline.AnsweredSplits` | src/webtester/belts.c:49-97 | Each accumulated task is delivered or kept |
| `Pipeline.UpdateQueueKeeps` | src/webtester/queue.c:171-190 | A queue update keeps the invariant |
| `Pipeline.UpdateBeltsKeeps` | src/webtester/belts.c:563-633 | A belts update keeps the invariant, for all answers of modules and web interface |
| `Pipeline.AccumulatorKeeps` | src/webtester/belts.c:49-97 | An overview of the accumulator keeps the invariant |
| `Pipeline.ModuleWritesKeeps` | src/webtester/task.h:182-213 | A testing thread's writes to a task on the belts keep the invariant |
| `Pipeline.FreeKeeps` | src/webtester/mainloop.c:235-243 | Freeing queue and belts keeps the invariant |
| `Pipeline.ShutdownKeeps` | src/webtester/mainloop.c:282-294 | Shutting down keeps the invariant |
| `Pipeline.StepKeeps` | src/webtester/belts.c:248-467 | Every step keeps the invariant |
| `PipelineRuns.Conservation` | src/webtester/belts.c:49-370 | In every run each task taken in is at exactly one place, or has left exactly once, delivered, restored or lost at a shutdown |
| `PipelineRuns.NothingIsLost` | src/webtester/belts.c:248-467 | In every run without a shutdown no task is lost |
| `PipelineRuns.LeavingIsFinal` | src/webtester/belts.c:221-241 | What has been delivered or restored stays so |
| `PipelineRuns.DistinctAndBounded` | src/webtester/plugins/webinterface/transport.c:590-667 | In every run the keys in queue and belts are pairwise distinct, and both are within their sizes |
| `PipelineRuns.AccumulatedKeyIsNotFiltered` | src/webtester/plugins/webinterface/transport.c:639-666 | In every run, an entry of any list that names an accumulated solution takes it in once more if and only if the queue is active and, as it stands when the entry's turn comes, has room and neither queue nor belts hold the solution; otherwise the entry changes nothing |
| `PipelineRuns.AccumulatedRun` | src/webtester/belts.c:221-241 | A run, for every solution, that accumulates it and then has it in the queue again |
| `PipelineRuns.FillByFate` | src/webtester/belts.c:377-467 | The result of a fill is the queue sorted by each task's own answers: accepted, kept waiting, refused |
| `PipelineRuns.BeltsFill` | src/webtester/belts.c:377-467 | For every run and all answers: belts grow by the accepted tasks in queue order, the queue is the kept ones reversed and the unvisited rest, the others are restored |
| `PipelineRuns.LifeOfATask` | src/webtester/belts.c:248-331 | For every task of every run: own library first, no module twice, chain order; and delivered, accumulated or lost only after the whole chain was offered it |
| `PipelineRuns.ChainArrayIsLargeEnough` | src/webtester/task.c:296-330 | The chain array is never overrun in any run if and only if the modules' ids fit |
| `PipelineRuns.ThirtyTwoModulesFit` | src/webtester/task.h:162-175 | Up to 32 loaded modules always fit |
| `PipelineRuns.DistinctModulesFit` | src/webtester/task.h:162-175 | Modules of distinct names and ids fit if and only if there are at most 32 |
| `PipelineRuns.ThirtyThreeModules` | src/webtester/task.h:162-175 | 33 such modules exist and do not fit |
| `PipelineRuns.OverrunningRun` | src/webtester/task.c:296-330 | Where they do not fit, there is a run that overruns the array |
| `PipelineRuns.StopRestores` | src/webtester/mainloop.c:220-247 | A task that waits or is being tested when the loop stops has been restored exactly once and is never delivered or lost, in every continuation of every run |
| `PipelineRuns.ShutdownLosesTheAccumulated` | src/webtester/mainloop.c:282-294 | After a shutdown every task ever taken in has left exactly once; lost if and only if it was accumulated, restored if it waited or was being tested |
| `TaskList.SkipGap` | src/webtester/plugins/webinterface/transport.c:600-608 | The loop stops at the first character of an entry |
| `TaskList.CollectCells` | src/webtester/plugins/webinterface/transport.c:610-628 | The loop splits a run of entry characters at its last @ |
| `TaskList.ScanEntry` | src/webtester/plugins/webinterface/transport.c:600-633 | One turn reads one entry and moves on |
| `TaskList.ScanReadsEveryLine` | src/webtester/plugins/webinterface/transport.c:575-667 | For every text the expression admits, the scan finds one entry per line, in order, and nothing else |
| `TaskList.ListRoundTrip` | src/webtester/plugins/webinterface/transport.c:575-667 | Every list of proper lines is admitted and read as it was sent |
| `Servers.Server.Search` | src/webtester/task.c:249-254 | Found exactly if a task of that key is in the list |
| `Servers.Server.GetTaskList` | src/webtester/plugins/webinterface/transport.c:554-676 | The response is received up to the size of the queue; -1 if the queue is full already |
| `Servers.Server.ReadBody` | src/webtester/plugins/webinterface/transport.c:588-667 | Scanning and filtering in one loop equals receiving the parsed list |
| `Servers.Server.NextKey` | src/webtester/plugins/webinterface/transport.c:600-637 | The next key of the parsed list, and the text behind it |
| `Servers.Server.TakeIn` | src/webtester/plugins/webinterface/transport.c:639-666 | Appended exactly if unknown to queue and belts |
| `Servers.Server.UpdateQueue` | src/webtester/queue.c:171-190 | Refines the step of the state machine |
| `Servers.Server.OfferDownChain` | src/webtester/belts.c:292-331 | The inner loop equals the chain function |
| `Servers.Server.ReturnTested` | src/webtester/belts.c:221-241 | Delivered if the put succeeds, accumulated if not |
| `Servers.Server.OverviewStatus` | src/webtester/belts.c:248-370 | On the contents of the belts: deleting at the cursor while walking equals one sweep |
| `Servers.Server.OverviewOne` | src/webtester/belts.c:259-365 | On the contents of the belts: one turn sorts the task at the cursor |
| `Servers.Server.FillFromQueue` | src/webtester/belts.c:377-467 | On the contents of queue and belts: the walk equals the fill of the visited prefix |
| `Servers.Server.FillOne` | src/webtester/belts.c:389-464 | On the contents of queue and belts: one turn |
| `Walks.OverviewLinks` | src/webtester/belts.c:248-370 | On the linked belts: stepping on before the node is deleted, the walk keeps what a sweep keeps and gives out the rest |
| `Walks.OverviewTurn` | src/webtester/belts.c:259-365 | On the linked belts: one turn, up to the node that follows |
| `Walks.FillLinks` | src/webtester/belts.c:377-467 | On the linked queue and belts: the walk ends although it pushes onto the list it walks, and equals the fill of the visited prefix |
| `Walks.FillRest` | src/webtester/belts.c:388-467 | On the linked queue and belts: the loop, as a tail call; from any node on it gives what the rest of the fill gives |
| `Walks.FillTurn` | src/webtester/belts.c:389-464 | On the linked queue and belts: one turn, reading the successor from the node after it was unlinked |
| `Walks.HandOver` | src/webtester/belts.c:401-463 | Wherever the unlinked task goes, the node that followed it is still the next one |
| `Walks.InList` | src/webtester/belts.c:551-556 | A search after a reset finds the task exactly if the belts hold its key |
| `Servers.Server.UpdateBelts` | src/webtester/belts.c:563-633 | Refines the step of the state machine and keeps the invariant |
| `Servers.Server.OverviewAccumulator` | src/webtester/belts.c:49-97 | Refines the step of the state machine and keeps the invariant |
| `Servers.Server.WriteTask` | src/webtester/task.h:182-213 | Refines the step of the state machine and keeps the invariant |
| `Servers.Server.SetQueueActive` | src/webtester/queue.c:270-301 | Refines the step of the state machine and keeps the invariant |
| `Servers.Server.FreeQueue` | src/webtester/queue.c:217-221 | Empties the queue and restores all of it, in order |
| `Servers.Server.FreeBelts` | src/webtester/belts.c:501-505 | Empties the belts and restores all of them, in order |
| `Servers.Server.FreeAll` | src/webtester/mainloop.c:235-243 | Refines the step of the state machine and keeps the invariant |
| `Servers.Server.ShutDown` | src/webtester/mainloop.c:282-294 | Refines the step of the state machine and keeps the invariant |
| `Dynastruc.Dyna.Push` | src/libwebtester/dynastruc.c:178-202 | Links, ends and count stay the image of one sequence, now with the cell in front |
| `Dynastruc.Dyna.AddToBack` | src/libwebtester/dynastruc.c:337-368 | The same, at the back |
| `Dynastruc.Dyna.Delete` | src/libwebtester/dynastruc.c:99-141 | The sequence without that item, also when head or tail was moved before; the unlinked item keeps its own links |
| `Dynastruc.Dyna.Pop` | src/libwebtester/dynastruc.c:212-246 | The first cell leaves; -1 on an empty list |
| `Dynastruc.Dyna.DelFromBack` | src/libwebtester/dynastruc.c:392-426 | The last cell leaves; -1 on an empty list |
| `Dynastruc.Dyna.DeleteAll` | src/libwebtester/dynastruc.c:150-168 | The list is empty |
| `Dynastruc.Dyna.SearchReset` | src/libwebtester/dynastruc.c:254-264 | The next search starts at the head |
| `Dynastruc.Dyna.Search` | src/libwebtester/dynastruc.c:275-313 | The next match behind the last find, or NULL |
| `Dynastruc.FindsAreTheMatches` | src/libwebtester/dynastruc.c:254-313 | Repeated search lists exactly the matches, in order |
| `Dynastruc.Dyna.SwapData` | src/libwebtester/dynastruc.c:23-35 | Two neighbours trade data and tag; the links stay |
| `Dynastruc.Dyna.SortPass` | src/libwebtester/dynastruc.c:482-490 | One pass over the links equals one pass over the sequence |
| `Dynastruc.Dyna.Sort` | src/libwebtester/dynastruc.c:471-492 | The sort in place equals bubble sort of the sequence |
| `BubbleSort.SortPermutes` | src/libwebtester/dynastruc.c:471-492 | Any comparator: a permutation |
| `BubbleSort.SortIsStable` | src/libwebtester/dynastruc.c:471-492 | Any total preorder: sorted, and equivalent cells in their old order |
| `BubbleSort.StableSortIsUnique` | src/libwebtester/dynastruc.c:471-492 | These two facts determine the result |
| `Listing.NumericListing` | src/libwebtester/dynastruc.c:528-542 | A listing of numbers ends in numeric order, stably |
| `Listing.PlainListing` | src/libwebtester/dynastruc.c:528-542 | A listing without numbers ends in the order of `strcmp` |
| `Listing.OrderExactly` | src/libwebtester/dynastruc.c:528-542 | The comparator is a total preorder on a set of names if and only if no name that is no number makes a circle with two numbers |
| `Listing.ListingsExactly` | src/libwebtester/dynastruc.c:471-542 | Every listing of the names ends in order if and only if there is no such circle |
| `Listing.MixedListing` | src/libwebtester/dynastruc.c:471-542 | Without a circle a listing, mixed or not, ends in order, stably |
| `Listing.MixedListingHasNoOrder` | src/libwebtester/dynastruc.c:528-542 | A listing with 9, 10 and 1a has no order to end in |
| `Packing.StandsStill` | src/libwebtester/assarr.c:378-439 | A turn makes no progress exactly on a non-empty value announced as empty, and then no later one does |
| `Packing.HangsExactly` | src/libwebtester/assarr.c:365-442 | For every text: unpacking never ends if and only if some number of turns leads to such a value |
| `Packing.UnpackedIsClean` | src/libwebtester/assarr.c:365-442 | Whatever text is unpacked, no key holds a semicolon and no value begins with one |
| `Packing.RoundTrip` | src/libwebtester/assarr.c:322-442 | Unpacking the packed text gives the map back if and only if no key holds a semicolon and no value begins with one |
| `Packing.OnlySemicolonsHang` | src/libwebtester/assarr.c:322-442 | Unpacking what was packed never ends only if a key holds a semicolon or a value begins with one |
| `Packing.PackedTextIsAValue` | src/libwebtester/assarr.c:322-357 | Packed text can itself be packed as a value |
| `Packing.LeadingSemicolonIsLost` | src/libwebtester/assarr.c:365-442 | A value that does not survive |
| `Packing.HangingText` | src/libwebtester/assarr.c:365-442 | A text on which unpacking does not end |
| `Packing.PackedTextCanHang` | src/libwebtester/assarr.c:322-442 | Nor does it on what the packer writes of any value that begins with a semicolon and goes on like an entry announced as empty |
| `Packing.SemicolonValueHangs` | src/libwebtester/assarr.c:322-442 | Such a value |
| `Assarr.HashInRange` | src/libwebtester/assarr.c:26-36 | A string of bytes below 128 has a bucket |
| `Assarr.HashNeedsAscii` | src/libwebtester/assarr.c:26-36 | All strings over an alphabet have buckets if and only if it holds no byte from 128 on |
| `Assarr.Table.HashOf` | src/libwebtester/assarr.c:26-36 | The loop computes the hash |
| `Assarr.Table.Get` | src/libwebtester/assarr.c:81-101 | What the map holds under the key |
| `Assarr.Table.Set` | src/libwebtester/assarr.c:218-237 | The map with the key set; the counter grows exactly by a new key |
| `Assarr.Table.Define` | src/libwebtester/assarr.c:45-72 | A new entry at the end of the chain of its hash |
| `Assarr.Table.Unset` | src/libwebtester/assarr.c:247-289 | The map without the key, 0 exactly if it was there, the counter unchanged |
| `Assarr.Table.UnsetAll` | src/libwebtester/assarr.c:298-313 | Empty map and empty buckets, though the traversal cuts the chains it walks |
| `Assarr.Table.CutChain` | src/libwebtester/assarr.h:44-63 | The traversal empties the chain it stands on and touches no other |
| `Assarr.FlattenIsModel` | src/libwebtester/assarr.h:44-63 | A traversal meets exactly the entries of the map, each once |
| `Assarr.TraversalRebuilds` | src/libwebtester/assarr.h:44-63 | Setting what a traversal meets rebuilds the map |
| `Assarr.TableRoundTrip` | src/libwebtester/assarr.c:322-442 | A table packed and unpacked is the same map, if and only if keys and values allow it |
| `Assarr.Pack` | src/libwebtester/assarr.c:322-357 | The packed text of the traversal; the buffer has room for it and its final NUL |
| `Assarr.Turn` | src/libwebtester/assarr.c:378-439 | One turn equals one step of the scan |
| `Assarr.Unpack` | src/libwebtester/assarr.c:365-442 | The loop equals the scan, and ends exactly if the scan does |
| `Flexval.Next` | src/libwebtester/flexval.c:124-237 | Every token is taken off the text, an array with both its brackets, so scanning and recursion end |
| `Flexval.CloseSkipsValue` | src/libwebtester/flexval.c:156-184 | The bracket scan passes over a whole value whose strings hold no bracket and stops at the matching bracket |
| `Flexval.FlexAtolDec` | src/libwebtester/flexval.c:1077-1130 | Reading a printed integer gives it back |
| `Flexval.DupExactly` | src/libwebtester/flexval.c:596-637 | A duplicate is the value itself if and only if nothing is left over in values that are no arrays; duplicating twice changes nothing |
| `Flexval.AppendBuilt` | src/libwebtester/flexval.c:898-932 | Appending adds the value itself at the end |
| `Flexval.ReadableIsRead` | src/libwebtester/flexval.c:247-430 | Every readable tree is read back as it was |
| `FlexTrip.ReadAsItself` | src/libwebtester/flexval.c:186-226 | A quoted text that is read as itself has no quote, backslash or line break |
| `FlexTrip.ReadPrefix` | src/libwebtester/flexval.c:262-330 | If the elements of an array are read from the beginning of its text, with or without an error behind them, all of its text was read and each of them is readable |
| `FlexTrip.ReadLate` | src/libwebtester/flexval.c:262-330 | They are never read from a later position within it |
| `FlexTrip.ResolvedExactly` | src/libwebtester/flexval.c:186-226 | A quoted text is read as itself if and only if it is clean |
| `FlexTrip.SerializeRoundTrip` | src/libwebtester/flexval.c:247-430 | For every tree of integers, strings and arrays, `flexval_unserialize` of its text returns the tree if and only if its strings are clean and the bracket scan of every array ends at its own bracket |
| `FlexTrip.PlainIsReadable` | src/libwebtester/flexval.c:387-430 | So is every tree of clean strings without brackets |
| `Flexval.BracketInStringBreaksArrays` | src/libwebtester/flexval.c:387-430 | A bracket inside a string breaks the round trip |
| `FlexScan.CopyToClose` | src/libwebtester/flexval.c:156-184 | The copying loop stops at the matching bracket |
| `FlexScan.CopyString` | src/libwebtester/flexval.c:186-226 | The copying loop resolves the escapes up to the closing quote |
| `FlexScan.CopyWord` | src/libwebtester/flexval.c:227-236 | The copying loop takes the word |
| `FlexScan.NextToken` | src/libwebtester/flexval.c:124-237 | The iterator equals the token function |
| `FlexScan.Parse` | src/libwebtester/flexval.c:247-379 | The parser's loop equals the parse function, and terminates |
| `FlexScan.ParseInner` | src/libwebtester/flexval.c:262-330 | The inner loop equals the element function |
| `FlexScan.SerializeInto` | src/libwebtester/flexval.c:387-430 | Appends the text of the value |
| `Stat.CopyIsFaithful` | src/libwebtester/flexval.c:1037-1065 | A copy is the value whatever the target held, if and only if the value is numeric |
| `Stat.DumpRead` | src/webtester/stat.c:47-66 | Reading a dump adds exactly the dumped variables |
| `Stat.MessageRead` | src/webtester/stat.c:140-157 | Reading a message, a packed text in a packed text, adds exactly the changed variables |
| `Stat.CacheCatchesUp` | src/webtester/stat.c:165-186 | With numeric values the cache of a client is the server's table after an update |
| `Stat.ViewExactly` | src/webtester/stat.c:193-224 | After any write in any run, replaying its messages a registered and entitled client has all names; a text parses to the server's value if and only if that is a number, or has no type and is the text of the state in which the client first got the name; of a text over an integer the client has 0 or 1 exactly as long as the server's copy differs from it, and the text once it does not |
| `Stat.ClientSeesServer` | src/webtester/stat.c:193-224 | In runs that write numbers only, it has the server's table, and parsing gives its values |
| `Stat.SeenExactly` | src/libwebtester/flexval.c:1004-1065 | What was sent last is read as the present value if and only if that is a number, or has no type and is that text |
| `Stat.FirstTextStays` | src/webtester/stat.c:114-132 | In every run, while a variable has no type, its client has been shown the text it had when the client first got the name |
| `Stat.NothingWithheld` | src/webtester/stat.c:140-157 | In every run, nothing is withheld from a client that since it connected had access 7 or more whenever it was registered |
| `Stat.ReconnectStartsAfresh` | src/webtester/stat.c:84-106 | In every run, from its connection to its own registration a client in a used slot is sent nothing, and after the first review it is unregistered with an empty cache |
| `Stat.SecondTextIsLost` | src/webtester/stat.c:193-224 | A run, for any two texts, in which a registered client keeps the first; right if and only if that is read as the second |
| `Stat.TextOverIntegerIsLost` | src/webtester/stat.c:193-224 | A run, for any text over any integer, in which a registered client has 0 or 1 instead |
| `Stat.TextOverIntegerNeverSettles` | src/libwebtester/flexval.c:1004-1065 | In every run, where a text over an integer differs from the copy of a client once, it does so after every further event until the name is written again, whatever the client does; so it is sent again with each write |
| `StatServers.BuildChanges` | src/webtester/stat.c:114-132 | The traversal gives exactly the new or changed variables |
| `StatServers.UpdateCache` | src/webtester/stat.c:165-186 | The traversal gives the cache with the changes copied in |
| `StatServers.DumpTable` | src/webtester/stat.c:47-66 | The text is a dump of the table, in some order |
| `StatServers.SendChanges` | src/webtester/stat.c:140-157 | One message with a dump of the changes, unless there are none or access is below 7 |
| `StatServers.StatServer.ReviewClients` | src/webtester/stat.c:84-106 | Every client whose uid differs is unregistered and its cache emptied |
| `StatServers.StatServer.StatChanged` | src/webtester/stat.c:193-224 | Every slot is refreshed |
| `StatServers.StatServer.SetInt` | src/webtester/stat.c:496-507 | Refines the step of the state machine |
| `StatServers.StatServer.SetString` | src/webtester/stat.c:534-545 | Refines the step of the state machine |
| `StatServers.StatServer.SetRegistered` | src/webtester/stat.c:330-403 | Refines the step of the state machine |
| `Blocks.CountsAdd` | src/libwebtester/md5.c:187-194 | The two words count bits modulo 2^64, with the carry right |
| `Blocks.AbsorbExtends` | src/libwebtester/md5.c:178-219 | An update of a context that stands for a message gives one for the longer message |
| `Blocks.ChunksDoNotMatter` | src/libwebtester/md5.c:178-219 | For every cut into chunks: the fold over whole blocks, the rest, and the length |
| `Blocks.BitsAreTheLength` | src/libwebtester/md5.c:240-241 | The encoded counters are the 64-bit length of section 3.2 of RFC 1321 |
| `Blocks.PaddingIsStandard` | src/libwebtester/md5.c:243-246 | The padding is that of section 3.1 of RFC 1321 |
| `Blocks.PaddedIsWhole` | src/libwebtester/md5.c:234-256 | Padding and length make whole blocks |
| `Blocks.FinishedIsOneShot` | src/libwebtester/md5.c:234-256 | Finishing leaves the state of the whole padded message |
| `Md5.WordsFollowTheStandard` | src/libwebtester/md5.c:90-176 | The 64 operations take the words in the order of section 3.4 of RFC 1321 |
| `Md5.StreamingDigest` | src/libwebtester/md5.c:178-256 | For every cut into chunks, updates on values give the digest of the message in one piece |
| `Md5Contexts.GuardWraps` | src/libwebtester/md5.c:204-207 | The block loop stops where it should if and only if its guard does not wrap |
| `Md5Contexts.LongestInputOverruns` | src/libwebtester/md5.c:204-207 | An input on which it does not |
| `Md5Contexts.Context.Update` | src/libwebtester/md5.c:178-219 | Runs behind its input if and only if the guard wraps; otherwise the update in place equals the update on values |
| `Md5Contexts.Context.FillAndTransform` | src/libwebtester/md5.c:197-218 | State and buffer after an input that fills the buffer |
| `Md5Contexts.Context.AddLength` | src/libwebtester/md5.c:187-194 | The counters in place |
| `Md5Contexts.Context.TransformBlocks` | src/libwebtester/md5.c:197-210 | The filled buffer and then each whole block of the input, in order; on behind the input if and only if the guard wraps |
| `Md5Contexts.Context.Finish` | src/libwebtester/md5.c:240-249 | The two last updates |
| `Md5Contexts.DigestChunks` | src/libwebtester/md5.c:178-311 | For every list of chunks fed to a context: it runs behind some input if and only if the guard wraps for some chunk at the index where that finds the buffer; otherwise the digest is that of the chunks in one piece |
| `Md5Contexts.TransformInPlace` | src/libwebtester/md5.c:90-176 | The operations in order equal the transform |
| `Md5Contexts.DecodeEncoded` | src/libwebtester/md5.c:76-88 | Decoding an encoded word gives it back |
| `Md5Contexts.Encode` | src/libwebtester/md5.c:221-232 | Little-endian bytes of every word |
| `Md5Contexts.DecodeBlock` | src/libwebtester/md5.c:76-88 | The sixteen words of a block |
| `Md5Contexts.Final` | src/libwebtester/md5.c:234-256 | The digest of the finished context, which is wiped |
| `HvPool.OverviewDrops` | src/librun/hv_pool.c:100-143 | An overview takes away a prefix, of expired records only |
| `HvPool.FewExpiredStay` | src/librun/hv_pool.c:100-143 | Fewer expired records stay than one array holds |
| `HvPool.YoungStay` | src/librun/hv_pool.c:246-299 | No record younger than the lifetime is dropped in any run |
| `HvPool.LogOf` | src/librun/hv_pool.c:246-299 | The log is what was put, in order |
| `HvPool.PoolKeepsTheYoung` | src/librun/hv_pool.c:100-299 | In every run with a clock that does not go back: full arrays but the last, a suffix of the log, nothing young missing, few expired left |
| `HvPool.FirstIsOldest` | src/librun/hv_pool.c:181-210 | A lookup gives the oldest record kept of the process, or none if there is none |
| `HvPool.Pool.Overview` | src/librun/hv_pool.c:100-143 | The loop over the head arrays equals the overview |
| `HvPool.Pool.Insert` | src/librun/hv_pool.c:246-299 | Refines the step and keeps the invariant |
| `HvPool.Pool.Lookup` | src/librun/hv_pool.c:181-210 | The first record of the process in the kept part of the log |
| `Unique.AllocPartition` | src/libwebtester/unique.c:60-68 | An allocated id is one nobody holds; none is left exactly when all are held |
| `Unique.ReleasePartition` | src/libwebtester/unique.c:76-84 | A release keeps the partition if and only if the id was held |
| `Unique.ForeignReleaseShares` | src/libwebtester/unique.c:76-84 | An id released without being held is handed out twice |
| `Unique.RunPartition` | src/libwebtester/unique.c:22-84 | In every legal run held ids and the stack above the pointer partition all ids, and the pointer counts the held ones |
| `Unique.Pool.constructor` | src/libwebtester/unique.c:22-37 | All ids free |
| `Unique.Pool.AllocUid` | src/libwebtester/unique.c:60-68 | Refines the allocation |
| `Unique.Pool.ReleaseUid` | src/libwebtester/unique.c:76-84 | Refines the release |
| `IpcSlots.RegisterSucceeds` | src/librun/ipc.c:136-171 | Below the limit it succeeds, in the first free or timed-out slot, touching no other and closing only a timed-out client; at the limit it refuses |
| `IpcSlots.CounterCountsTheLive` | src/librun/ipc.c:94-199 | In every run the counter is the number of slots with a live socket |
| `IpcSlots.DisconnectCounts` | src/librun/ipc.c:178-199 | A disconnection keeps the counter right |
| `IpcSlots.Clients.constructor` | src/librun/ipc.c:94-113 | All slots free |
| `IpcSlots.Clients.Disconnect` | src/librun/ipc.c:178-199 | Refines the disconnection; a free slot is left alone |
| `IpcSlots.Clients.RegisterClient` | src/librun/ipc.c:136-171 | Refines the registration |
| `IpcSlots.Clients.Done` | src/librun/ipc.c:204-220 | No socket is left open and the counter is zero |
| `Hive.StepKeeps` | src/libwebtester/hive.c:431-563 | Every token keeps: the brace count is the depth, a name is pending exactly in state 1, a brace that needs no name finds a child |
| `Hive.ParserIsSafe` | src/libwebtester/hive.c:411-578 | For every stream of tokens: no missing parent, no empty child list; success exactly with no error met, the cursor at the root and no name pending |
| `Hive.NoCloseForAValue` | src/libwebtester/hive.c:547-556 | A closing brace in place of a value is always an error |
| `Hive.ReadAll` | src/libwebtester/hive.c:431-563 | Reading printed nodes adds exactly those nodes to the current one |
| `Hive.ParsedIsPrintable` | src/libwebtester/hive.c:411-578 | Every tree the parser leaves can be written again, a partial one too |
| `Hive.RoundTrip` | src/libwebtester/hive.c:411-578 | Parsing a printed tree gives it back if and only if its names and values are such as a file can hold |
| `Hive.SecondGroupAdds` | src/libwebtester/hive.c:486-507 | A brace after a value or such a group opens the last node again |
| `HiveParser.ParseBuf` | src/libwebtester/hive.c:411-578 | The loop, which takes two tokens for an inclusion, equals the machine of one token a step |
| `HiveParser.FindItem` | src/libwebtester/hive.c:657-702 | The item reached by the first child of each name of the key |
| `HiveParser.PartsJoined` | src/libwebtester/hive.c:657-688 | A path is what its joined key is split into, if and only if no name holds a slash and the last of several is not empty |
| `Scoring.VerdictMeans` | src/webtester/modules/informatics/tester.c:841-1088 | Which observations give OK, WA, PE, ML, TL, RE and a crash |
| `Scoring.RunTests` | src/webtester/modules/informatics/tester.c:839-1096 | The loop records points, list and flags of exactly the reported verdicts; crashed exactly if the testing ends in a crash |
| `Scoring.MainLoop` | src/webtester/modules/informatics/tester.c:839-1129 | The outcome is the score of the verdicts |
| `Scoring.ErrorText` | src/webtester/modules/informatics/tester.c:1116-1120 | The errors that occur, in the order RE ML TL WA PE |
| `Scoring.Fair` | src/webtester/modules/informatics/tester.c:839-1129 | A crash, and nothing else, gives 0 and "CR"; all tests passed, and nothing else, gives all weights, the bonus and "OK"; otherwise the weights of the passed tests and the errors met |
| `Scoring.AcmReport` | src/webtester/modules/informatics/tester.c:56-69 | Under ACM rules: OKs, then at most one error |
| `Scoring.FullReport` | src/webtester/modules/informatics/tester.c:839-1096 | Otherwise one verdict for each test, unless the testing broke off |
| `Scoring.TestsFit` | src/webtester/modules/informatics/tester.c:266-274 | The list fits its buffer if and only if there are at most 1024 verdicts |
| `Scoring.ErrorsFit` | src/webtester/modules/informatics/tester.c:1114-1128 | The error text has at most 14 characters, and is empty exactly if no error occurred |
| `Scoring.OccurringMembers` | src/webtester/modules/informatics/tester.c:1116-1120 | An error is named exactly if a reported test has it |
| `Scoring.ListedAt` | src/webtester/modules/informatics/tester.c:266-274 | Every verdict stands in the list at its place |
| `Scoring.ListedTellsAll` | src/webtester/modules/informatics/tester.c:266-274 | The list determines the verdicts |
| `Scoring.FinishedIsComplete` | src/webtester/modules/informatics/tester.c:75-100 | If a stopped module stays stopped, every finished task was tested to the end |
| `Scoring.OkIsEarned` | src/webtester/modules/informatics/tester.c:75-92 | "OK" means that all tests passed, if and only if the loop was not stopped after passed tests only |
| `Scoring.PassedMessage` | src/webtester/modules/informatics/tester.c:1350-1444 | The thread reports "OK" exactly for a compiled solution that passed all tests, and its message splits the points into the tests' and the bonus |

## Left out

- The order in which threads interleave inside one step: each step of the pipeline, the status table and the pools is atomic here, as the mutexes of the original intend; mutexes, pipes and the printing of messages are not modelled.
- Tasks are held by value in the containers (a sequence in `server.dfy`, linked nodes in `walks.dfy`), so aliasing of one record by a container and a testing thread is the event `ModuleWrites`.
- Tasks.ChainTest: the array of 32 places is an unbounded sequence; when it would be overrun is `PipelineRuns.ChainArrayIsLargeEnough`.
- Unpacking of archived solutions in the queue, and the parameters a task carries.
- HTTP, SMB and files: success or failure of a request is an oracle, a response body is any text.
- Widths of `long`, `int` and `%u`: integers are unbounded except in MD5, the hash and the unique ids. `atol`, `atoi` and points do not overflow here.
- Text buffers of fixed size (64, 1024, 4096, 65536 bytes) other than those named in the table.
- Memory management: `malloc`, `free` and deleters without effect on contents.
- Chains of the hash table and arrays of the pool are sequences inside an array or list, not linked nodes; the doubly linked list is modelled with its links.
- FlexTrip.SerializeRoundTrip: floats are left out, because `%lf` loses digits; a float is known by its text.
- Stat.ViewExactly: names must be non-empty and free of semicolons; arrays, floats and `stat packed` are left out.
- Md5Contexts.Context.Update: what the original reads behind its input when the guard wraps is not modelled; the method stops there and says so.
- The recipe of `md5_crypt`.
- Hive.RoundTrip: over tokens; the scanner of characters, comments and escapes is left out, and so is the typing of a value from its text. The tree is a value with a path to the current node instead of nodes with parent pointers.
- Packing.RoundTrip: for a text that begins with a semicolon the scanner reads its token before it was ever filled, so the first key is required to be non-empty and not to begin with one.
- Assarr.TableRoundTrip: keys are required to be non-empty and not to begin with a semicolon, for the same reason.
- Scoring.MainLoop: the weights are given as numbers and there are as many observations as tests; running processes, directories and stored outputs are left out.
- IpcSlots.RegisterSucceeds: security keys and the parsing of commands are left out.
- The frontend, plugins, compilers, logging, login throttling and the Java security manager.
