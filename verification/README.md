# A verified model of the C library's core

This project models seven parts of the library and proves what they are for. Code that works in place is modelled in
place: methods over arrays, classes and heap nodes, each proved against a specification function or predicate, about
which the lemmas then say what the library promises. The two threaded protocols are state machines over their steps,
and their theorems hold in every interleaving.

| part | files |
|---|---|
| The klon-cipher, `cipher/klciph.c` | `Bytes`, `Ring`, `Placement`, `KlonSpec`, `KlonCipher` |
| The thread pool, `sys/thrdpool.c` | `ThreadPool` (protocol), `PoolPosting` (selection, balance, room), `PoolProgress`, `PoolAdmin` (registry) |
| The intrusive list, `queue/inc/list.h` | `HeapList` |
| The INI lookup, `cfg/ini.c` and `comm/txt.c` | `Text`, `Ini`, `IniGrammar`, `IniMeaning` |
| The timers, `sys/timer.c` | `TimerMessage`, `TimerRegistry`, `TimerRuns` |
| The event queue, `evt/event.c` | `Events` |
| The IPv4 check, `comm/ip.c` | `Ipv4` |

**Klon-cipher.** A ring of 256 cells carries a message: cell 97 names the begin slot, a walk from there that skips cell
97 carries characteristic, keys, length, index table and stamp, and every index points to a window of four data cells.
The encoder finds its slots by searching an occupancy map and its windows by trial, the decoder only counts steps.
`KlonSpec.Encodes` describes the finished ring cell by cell; `KlonCipher.Encode` establishes it exactly when the random
bytes suffice, and `KlonSpec.RoundTrip` shows that every such ring is read back; `KlonCipher.EncodeThenDecode` puts the two together on
the caller's buffers. Underneath are a layout agreement
(search and step take the same cells), disjointness of all cells written, and a counting argument that a free window is
always left for up to 30 blocks, with a layout of 31 blocks that gets stuck. `KlonCipher.DecodeRing` is proved on every
ring, not only on encoded ones. Bytes are integers 0 to 255. What stands in a finished ring, and what any ring is read as,
is also stated cell by cell in binary digits (`Bytes.DigitsDiffer`), without the functions the code is specified by.

**Thread pool.** The steps are those other threads can tell apart. A critical section that touches only what its mutex
guards is one step; the sections that also write the semaphore or the exit flag, which a worker reads without the
mutex, are split into their writes. Workers, one post at a time (the registry mutex admits no more) and the destroyer
take steps in any order. `PoolPosting` is about the runs of this protocol: posts are balanced in every run in which no
job finishes, and a post is safe exactly when some queue has room. `PoolProgress` shows that no state is a deadlock and that
only a bounded number of steps is left once nobody posts, so that every job of a living pool gets done. The lists in this part, in the timers and in the events are sequences, which `HeapList`
justifies.

**Event queue.** Any number of publishers may stand between unlocking the queue and posting the semaphore. The log of
callbacks and releases is proved equal to what the published events and the subscriptions at their dispatch demand.

**Timers.** Requests travel as 20-byte messages. The list of nodes refines a map from callbacks to remaining counts, for
runs in which messages arrive as bytes and expiries come in between.

Where code and documentation disagree, the model follows the code:

- `cfg/inc/ini.h` calls `cl_ini_get2` the same as `cl_ini_get`. It is not: an empty line ends the search in memory, and a
  carriage return stays in the value read from a file. `IniMeaning.FrontEndsAgreeExactly` says exactly when the two agree,
  and three lemmas give inputs on which they differ.
- `cl_txt_pos_line` takes a maximum and only checks that it is not zero.
- `cl_evt_sub` reports success when it has no memory for the subscription.
- `cl_trpo_post` follows a null pointer when every queue it reads holds 10000 jobs. `PoolPosting.FullPoolHasNoWorker` shows
  the run that leads there; `PoolPosting.PostIsSafeExactlyWithRoom` is the condition a caller can check before the call.
- A timer cannot be set with a NULL callback, because the server node has that callback; setting it still reports success.

## Model

| member | source | states |
|---|---|---|
| `Bytes.XorIsExclusive` | cipher/klciph.c:159 | each of the eight binary digits of the result is 1 exactly when the digits of the arguments differ |
| `Bytes.ExclusiveIsXor` | cipher/klciph.c:159 | and no other byte has these digits |
| `Bytes.XorTwice` | cipher/klciph.c:419-420 | covering a byte twice with the same key restores it |
| `Ring.SlotRank` | cipher/klciph.c:518-523 | the decoder's walk never returns to a cell within 255 steps |
| `Ring.RankSlot` | cipher/klciph.c:518-523 | it reaches every cell but the marker, after as many steps as the cell's rank |
| `Placement.GetFreePos` | cipher/klciph.c:98-110 | the first free cell after `from`, going once round the ring and `from` itself last; -1 exactly when all are taken |
| `Placement.NextFreeInNumbers` | cipher/klciph.c:98-110 | the same in plain arithmetic modulo 256 |
| `Placement.FreeWalkIsNextWalk` | cipher/klciph.c:98-119 | layout agreement: while slots are handed out, the search over the occupancy map takes the decoder's stateless step |
| `Placement.WindowAlwaysLeft` | cipher/klciph.c:121-149 | whatever windows were chosen, four free cells in a row remain as long as slots and windows leave room by the count |
| `Placement.OccupiedInNumbers` | cipher/klciph.c:285-503 | the cells in use are cell 97, the first cells of the walk and four cells, modulo 256, from each window on |
| `Placement.ThirtyOneBlocksCanStick` | cipher/klciph.c:44-49 | the limit of 120 bytes is exact: with 31 blocks, windows that were all acceptable can leave none |
| `Placement.ClearCellsAreDisjoint` | cipher/klciph.c:140-146 | accepted windows never meet the marker, a slot or one another |
| `Placement.LayoutIsUnique` | cipher/klciph.c:285-511 | marker, slots, data and fill determine every cell of the ring |
| `Placement.LayBlock` | cipher/klciph.c:151-194 | writing a block into an accepted window, wrapping at the end, adds its bytes and disturbs nothing laid before |
| `Placement.RelaySlot` | cipher/klciph.c:500 | rewriting a slot changes that slot only, whatever windows are laid |
| `KlonSpec.WindowsAreClear` | cipher/klciph.c:487-502 | every sequence of windows the encoder draws is free of overlaps |
| `KlonSpec.BeginIdxIsFirst` | cipher/klciph.c:64-85 | the begin index is the first byte other than 97, found exactly when it is among those allowed |
| `KlonSpec.DataIdxIsFirst` | cipher/klciph.c:121-149 | a window index is the first byte that names four free cells modulo 256, found exactly when it is among those allowed |
| `KlonSpec.WindowsNext` | cipher/klciph.c:487-502 | windows are drawn one after the other from the bytes behind the last one, with all earlier windows taken |
| `KlonSpec.PlanCellsAreDisjoint` | cipher/klciph.c:285-503 | in every layout the encoder can draw, all data cells differ from each other, from the marker and from all slots |
| `KlonSpec.CanAlwaysFinish` | cipher/klciph.c:487-495 | after any choice of earlier windows for at most 30 blocks, some next random bytes complete the layout |
| `KlonSpec.EncodedHead` | cipher/klciph.c:285-420 | cell 97, characteristic, length and the keys of a finished ring, digit by digit |
| `KlonSpec.EncodedStamp` | cipher/klciph.c:463-485 | minute and day under key 1, hour and second under key 2, digit by digit |
| `KlonSpec.EncodedIndex` | cipher/klciph.c:500 | every index in its slot under key 1 if the slot is odd and key 2 if it is even, digit by digit |
| `KlonSpec.EncodedByte` | cipher/klciph.c:151-194 | every plaintext byte in its cell, modulo 256, under the other key, digit by digit |
| `KlonSpec.AcceptedRings` | cipher/klciph.c:548-679 | any ring is accepted exactly when its characteristic is known, its length is at most 120 and fits, and its stamp is of the same day and hour and 0 to 6 seconds old, all read digit by digit |
| `KlonSpec.AcceptedBytes` | cipher/klciph.c:640-664 | and then yields, byte by byte, what its index slots lead to |
| `KlonSpec.HeadReadsBack` | cipher/klciph.c:548-566 | keys, length and characteristic are recovered from a ring that encodes a message |
| `KlonSpec.StampReadsBack` | cipher/klciph.c:600-614 | so is the stamp |
| `KlonSpec.ByteReadsBack` | cipher/klciph.c:640-664 | following an index and stepping into its window yields the plaintext byte |
| `KlonSpec.RoundTrip` | cipher/klciph.c:216-685 | for every plaintext of 1 to 120 bytes, layout and pair of clocks, decoding returns exactly the plaintext if day and hour are equal, 0 to 6 seconds have passed and the buffer is large enough, and refuses otherwise |
| `KlonCipher.GetBeginIdx` | cipher/klciph.c:64-85 | draws the first byte other than 97 among at most 201; fails when there is none |
| `KlonCipher.WindowIsFree` | cipher/klciph.c:138-146 | the four probes, wrapping at 256, decide whether the window is free |
| `KlonCipher.GetDataIdx` | cipher/klciph.c:121-149 | draws the first byte that names a free window among at most 221; fails when there is none |
| `KlonCipher.PutData` | cipher/klciph.c:151-194 | one to four bytes go to consecutive cells under the key the index slot selects, the map marks just these cells, all else is unchanged |
| `KlonCipher.PutCharacteristic` | cipher/klciph.c:285-347 | in all three branches, begin index 96 and 255 included, the characteristic fills the first two slots of the walk |
| `KlonCipher.PutHead` | cipher/klciph.c:285-420 | begin index, characteristic, length and the two kept key slots; everything else in the ring is untouched |
| `KlonCipher.PutTail` | cipher/klciph.c:442-485 | the index placeholders continue the walk and the stamp follows them, covered by the right keys |
| `KlonCipher.PutBlocks` | cipher/klciph.c:487-502 | all blocks are laid and masked; fails exactly when a window search gives up |
| `KlonCipher.EncodeRing` | cipher/klciph.c:270-503 | the ring encodes the plaintext under the plan its random bytes determine, or there is no such plan and it fails |
| `KlonCipher.Encode` | cipher/klciph.c:216-516 | succeeds exactly on good arguments with enough random bytes; then the caller's 256 bytes encode the plaintext, otherwise nothing of the caller's is written |
| `KlonCipher.CheckStamp` | cipher/klciph.c:600-637 | day and hour equal, and 0 to 6 seconds old |
| `KlonCipher.GetBlocks` | cipher/klciph.c:638-664 | all bytes of all blocks, by following each index slot of the walk |
| `KlonCipher.DecodeBuffer` | cipher/klciph.c:547-679 | on every ring whatsoever, refuses or yields the message exactly as the specification of decoding says |
| `KlonCipher.DecodeRing` | cipher/klciph.c:527-685 | so does the whole decoder; on failure nothing of the caller's is written, on success only the message's bytes and its length |
| `KlonCipher.EncodeThenDecode` | test/main.c:1113-1134 | the code-level round trip: whenever encoding succeeds, decoding the buffer it wrote returns the original length and bytes, if and only if it is in time and the caller's buffer is large enough |
| `ThreadPool.StepKeeps` | sys/thrdpool.c:90-384 | every step of every thread keeps the invariant of the protocol |
| `ThreadPool.SemaphoreAgreesWithQueue` | sys/thrdpool.c:97-142 | until a worker has seen exit, tokens plus the one taken equal queued jobs plus the exit token, less a job whose token is about to be posted |
| `ThreadPool.RunningJobIsQueueHead` | sys/thrdpool.c:121-142 | past the exit check a worker peeks at a job and never at the list head; the job it runs without a lock stays first in its queue until it is unlinked |
| `ThreadPool.FifoAtMostOnce` | sys/thrdpool.c:121-142 | the jobs posted to a worker are those done followed by its queue; those begun are a prefix; none is posted twice, and none to two workers |
| `ThreadPool.EveryJobHasItsWorker` | sys/thrdpool.c:372-379 | the jobs done by and queued for the workers are exactly those that were posted |
| `ThreadPool.SleeperHasNoJob` | sys/thrdpool.c:97-100 | no lost wakeup: a worker without tokens has no job and no exit request |
| `ThreadPool.NothingStartsAfterExit` | sys/thrdpool.c:100-119 | once a worker has seen the exit flag it begins and finishes no job, whatever the others do |
| `ThreadPool.ExitIsObeyed` | sys/thrdpool.c:99-119 | from the moment the exit flag is set, a worker begins no job whose check it has not already passed, whatever is queued |
| `ThreadPool.CheckReadsTheFlag` | sys/thrdpool.c:101-119 | at the check the flag alone decides between leaving and working |
| `ThreadPool.QueuesAreGuarded` | sys/thrdpool.c:138-140 | a queue is changed only by the post that holds its mutex, or by its worker while nobody does |
| `ThreadPool.MutexIsRespected` | sys/thrdpool.c:122-140 | nobody peeks, unlinks, leaves or reads a length while the mutex is held, and only its holder frees it |
| `ThreadPool.FreedAfterAllExited` | sys/thrdpool.c:270-295 | the pool is freed only when every worker has exited |
| `ThreadPool.ChosenQueueIsShortest` | sys/thrdpool.c:350-379 | when the job is linked, the chosen queue is no longer than any length the scan has read, although workers drained meanwhile |
| `ThreadPool.PostFindsNoWorkerExactlyWhenFull` | sys/thrdpool.c:350-376 | the scan leaves a null worker if and only if it read at least 10000 from every queue |
| `PoolPosting.SelectWorker` | sys/thrdpool.c:350-370 | over queues at rest, the first of the shortest, or none when all hold 10000 or more |
| `PoolPosting.ScanMakesTheChoice` | sys/thrdpool.c:350-370 | in the protocol, from any state: a scan during which no job leaves a queue ends in the same choice, whatever else the others do |
| `PoolPosting.PostsAreBalanced` | sys/thrdpool.c:350-379 | in every run of the protocol in which no job finishes, the job number t is linked to worker t mod n, and queue lengths never differ by more than one |
| `PoolPosting.PostLimitIsExact` | sys/thrdpool.c:352-370 | in every such run, a post finds a worker if and only if fewer than 10000 per worker were posted before |
| `PoolPosting.FullPoolHasNoWorker` | sys/thrdpool.c:350-376 | for every pool size such a run exists that ends in a post without a worker |
| `PoolPosting.PostIsSafeExactlyWithRoom` | sys/thrdpool.c:350-376 | in every reachable state: a post that begins now finds a worker whatever happens, if and only if some queue holds fewer than 10000 jobs now |
| `PoolPosting.FewJobsLeaveRoom` | sys/thrdpool.c:350-376 | that is so with fewer than 10000 jobs per worker outstanding |
| `PoolProgress.SomebodyCanStep` | sys/thrdpool.c:90-384 | no deadlock: in every reachable state that is not at rest some thread can go on, unless a post has found no worker |
| `PoolProgress.StepsRunOut` | sys/thrdpool.c:90-384 | under any scheduling, only a bounded number of steps is left while no new post begins |
| `PoolProgress.AtRestAllIsDone` | sys/thrdpool.c:121-142 | at rest, every job of a pool that is not destroyed is done |
| `PoolProgress.DestructionCompletes` | sys/thrdpool.c:270-295 | a pool without a post under way can be destroyed, and at rest after that all workers have exited |
| `PoolProgress.JobsAreConserved` | sys/thrdpool.c:328-384 | in every interleaving, jobs queued and jobs done are together as many as were posted |
| `PoolAdmin.ThreadsWithout` | sys/thrdpool.c:253-268 | taking a pool out lowers the thread count by its own threads |
| `PoolAdmin.RemovalFreesTheId` | sys/thrdpool.c:253-268 | ids stay unique and the removed one is free again |
| `PoolAdmin.Registry.GetCurThrdCnt` | sys/thrdpool.c:51-61 | the sum of the threads of all pools |
| `PoolAdmin.Registry.CrePolId` | sys/thrdpool.c:63-88 | the least id not in use, -1 exactly when all 10000 are |
| `PoolAdmin.Registry.Create` | sys/thrdpool.c:188-251 | refuses exactly when not started, out of range, past four threads per processor, or out of ids; ids stay unique and the limit is kept |
| `PoolAdmin.Registry.PopAPool` | sys/thrdpool.c:253-268 | removes the pool with that id and no other; afterwards no post can find it |
| `HeapList.LinksAreInverse` | queue/inc/list.h:12-45 | in a well-formed circle `next` and `prev` are mutually inverse |
| `HeapList.InitListNode` | queue/inc/list.h:12-17 | a single node is a circle |
| `HeapList.ListAddBetween` | queue/inc/list.h:19-26 | links a node between two nodes that may be one; does nothing when any is NULL |
| `HeapList.ListAddHead` | queue/inc/list.h:28-31 | prepends |
| `HeapList.ListAdd` | queue/inc/list.h:33-36 | appends |
| `HeapList.ListDel` | queue/inc/list.h:38-45 | removes just that node, keeps the order of the others, and clears its links |
| `HeapList.ListEmpty` | queue/inc/list.h:47-51 | whether there is no element |
| `HeapList.ListSize` | queue/inc/list.h:53-69 | terminates and returns the number of elements; 0 for NULL and for an unlinked node |
| `HeapList.ListPop` | queue/inc/list.h:105-106 | unlinks the node at the cursor and moves the cursor to its predecessor |
| `HeapList.ForEachPop` | queue/inc/list.h:71-109 | a loop that pops any chosen elements visits every original element once and in order, terminates, and leaves exactly the others in order |
| `Text.PosLine` | comm/txt.c:13-41 | delivers the text up to the newline, less one carriage return, and the offset behind it; 0 after the last line, -1 exactly for NULL text or buffer or a maximum of 0 |
| `Ini.TrimCut` | cfg/ini.c:25-69 | the pointer loops that skip blanks on both sides cut out the trimmed string |
| `IniGrammar.TrimIs` | cfg/ini.c:55-64 | trimming yields t exactly when the text is t between blanks and tabs, t itself beginning and ending with none |
| `IniGrammar.AssignmentIs` | cfg/ini.c:48-66 | a line assigns the key exactly when what stands before the first equals sign is the key between blanks and tabs; its value is what stands so behind it |
| `IniGrammar.LineMeaning` | cfg/ini.c:25-69 | what the matcher makes of any line, in terms of characters only |
| `IniGrammar.BetweenJoins` | comm/txt.c:13-41 | the texts between the newlines joined by newlines are the text |
| `IniGrammar.LinesAre` | comm/txt.c:13-41 | the lines delivered are these, less one carriage return where a newline follows |
| `IniGrammar.ChunksConcatenate` | cfg/ini.c:107 | the pieces `fgets` delivers make up the file |
| `IniGrammar.ChunksAre` | cfg/ini.c:107 | each has 1 to 255 characters, a newline at most at its end, and ends in one unless it is full or the last |
| `Ini.GetValue` | cfg/ini.c:25-69 | verdict, current section and value of one line, cut in place, whenever a section name and a value found fit their buffers |
| `Ini.IniGet2` | cfg/ini.c:127-180 | succeeds exactly when the scan of the text's lines finds a value, and writes that value and nothing otherwise; what must fit its buffer is only what the scan reaches |
| `Ini.File.Gets` | cfg/ini.c:107-124 | what `fgets` delivers: the next piece up to a newline or 255 characters |
| `Ini.IniGet` | cfg/ini.c:71-125 | the same over the pieces `fgets` delivers |
| `IniMeaning.ScanFindsFirstHit` | cfg/ini.c:163-179 | the first line that assigns the key in its section, reached by the search, gives the result |
| `IniMeaning.Lookup2Meaning` | cfg/ini.c:127-180 | the lookup yields v if and only if key, section and text have the lengths allowed and v is the value of the first line that assigns the key in the section in force, no empty line and (with no section asked) no header before it |
| `IniMeaning.LookupMeaning` | cfg/ini.c:71-125 | the same for the lookup in a file |
| `IniMeaning.FrontEndsAgreeExactly` | cfg/inc/ini.h:23-27 | with lines below 255 bytes and no header line ending in CR LF, the two lookups agree if and only if there is no first matching line, or it does not end in CR LF and no line before it is empty (but for a carriage return) |
| `IniMeaning.FrontEndsAgree` | cfg/inc/ini.h:23-27 | in particular they agree on texts without carriage returns and empty lines |
| `IniMeaning.EmptyLineDisagrees` | cfg/ini.c:28-33 | an input with an empty line on which they differ |
| `IniMeaning.CarriageReturnDisagrees` | comm/txt.c:24-31 | an input with a carriage return after a value on which they differ |
| `IniMeaning.CarriageReturnHeaderDisagrees` | comm/txt.c:24-31 | an input with a carriage return after a header on which they differ |
| `TimerMessage.FromLEOfLE` | sys/timer.c:619-633 | a number stored in k bytes is read back |
| `TimerMessage.WireFormat` | sys/timer.c:619-671 | the twenty bytes of every request, one by one |
| `TimerMessage.MessagesRead` | sys/timer.c:316-399 | how any twenty bytes are read, and which are not understood |
| `TimerMessage.DecodeAllIs` | sys/timer.c:316-404 | the k-th request served is what the k-th twenty bytes say, up to and with the first that say destroy |
| `TimerMessage.UpToDestroyIs` | sys/timer.c:393-398 | nothing is cut off before the first destroy, and all behind it |
| `TimerMessage.MessageRoundTrip` | sys/timer.c:350-399 | one message is decoded to the same operation with the same 16-, 16-, 32- and 64-bit fields |
| `TimerMessage.StreamRoundTrip` | sys/timer.c:316-404 | any concatenation of messages is decoded to the same requests in order, up to and with the first destroy |
| `TimerMessage.LoadSrvBuf` | sys/timer.c:619-633 | fills the 20 bytes through the advancing index, arguments cut to their fields |
| `TimerMessage.Connection.TimerSet` | sys/timer.c:645-657 | sends exactly the encoding of the request, a negative count wrapped to 32 bits, or fails and sends nothing |
| `TimerMessage.Connection.TimerCancel` | sys/timer.c:659-671 | sends exactly the encoding of the request, or fails and sends nothing |
| `TimerMessage.Connection.TimerDestroy` | sys/timer.c:635-643 | sends exactly the encoding of the end of the timer thread, or nothing |
| `TimerRegistry.TimerList.CreSrvNode` | sys/timer.c:446-463 | adds a server node exactly when there is none |
| `TimerRegistry.TimerList.AddTimer` | sys/timer.c:221-263 | a new node at the end, unless the callback is known, 100 timers exist or the system refuses |
| `TimerRegistry.TimerList.RmvTimer` | sys/timer.c:275-308 | removes the node of that callback, never the server node |
| `TimerRegistry.TimerList.CliTimerProc` | sys/timer.c:406-444 | calls back once, counts down, removes the node at its last expiry |
| `TimerRegistry.TimerList.SrvTimerProc` | sys/timer.c:316-404 | one message changes the list as its decoded request says, and only destroy stops the thread |
| `TimerRegistry.TimerList.TimerCount` | sys/timer.c:674-693 | the number of registered callbacks, at most 100, whenever the registry invariant holds |
| `TimerRegistry.AddedRefines` | sys/timer.c:221-263 | setting a timer is, on the map from callbacks to counts, an insertion that never overwrites and never passes 100 |
| `TimerRegistry.RemovedRefines` | sys/timer.c:275-308 | cancelling is the removal of that key |
| `TimerRegistry.ExpiredRefines` | sys/timer.c:406-444 | an expiry lowers one count, removes the key at 1, leaves 0 alone |
| `TimerRegistry.ServeStream` | sys/timer.c:316-404 | serving a byte stream message by message is serving its decoded requests in order |
| `TimerRegistry.ByteRunRefinesMapRun` | sys/timer.c:350-399 | serving the concatenated encodings is, on the map, carrying out the requests up to the first destroy |
| `TimerRegistry.CountIsMapSize` | sys/timer.c:674-693 | the timer count is the number of registered callbacks and at most 100 |
| `TimerRuns.RegistryInvariant` | sys/timer.c:221-308 | in every run the server node stays first and alone, callbacks and handles are pairwise different, and there are at most 100 timers |
| `TimerRuns.TimersFireExactly` | sys/timer.c:406-437 | a timer armed with n >= 1 has fired plus remaining equal to n; uncancelled it fires exactly n times and leaves, cancelled fewer; armed with 0 it leaves only by cancellation |
| `TimerRuns.NewHandlesEnable` | sys/timer.c:176-219 | all that these runs ask of the environment is that the handles granted are new |
| `TimerRuns.FiringIsACall` | sys/timer.c:406-437 | a timer counts as fired exactly when its callback is invoked |
| `TimerRuns.TimerThread` | sys/timer.c:503-560 | the loop over messages and expiries in any order: list and callbacks invoked are those its decoded inputs demand, up to the first destroy |
| `TimerRuns.DecodedAre` | sys/timer.c:503-530 | every input is taken, in order, up to and with the first message that decodes to destroy; a cancel or an expiry never ends the thread |
| `TimerRuns.UpToDestroyIs` | sys/timer.c:503-530 | events are cut off behind the first destroy and nowhere else |
| `TimerRuns.EventsReadBack` | sys/timer.c:350-399 | requests sent as bytes between expiries are decoded to the same events in order, up to and with the first destroy |
| `TimerRuns.InputsRefineMapRun` | sys/timer.c:503-560 | for messages and expiries in any order, the run on bytes and handles is, on the map from callbacks to counts, carrying out the requests and counting down |
| `Events.Subscriptions.Sub` | evt/event.c:99-138 | a new pair is appended behind the others, a known one or one without memory changes nothing; at most one entry per pair |
| `Events.Subscriptions.Unsub` | evt/event.c:140-172 | removes the pair, keeps the order of the others; fails exactly when it is unknown |
| `Events.WithoutAt` | evt/event.c:149-166 | unlinking the found node removes the pair altogether |
| `Events.WithoutKeepsOthers` | evt/event.c:140-172 | every other pair stays subscribed |
| `Events.MatchingKeepsOrder` | evt/event.c:194-206 | the candidates are the listeners of that number, all of them, at increasing places of the subscription list |
| `Events.DeliveryStopsAtConsumer` | evt/event.c:194-206 | those called are a prefix of the candidates, in which only the last can intercept, and which is short only if it does |
| `Events.NotifiedAreCalledAt` | evt/event.c:194-206 | those called stand at increasing places, have the number of the event, and nobody is left out before the interceptor |
| `Events.Notify` | evt/event.c:194-206 | the dispatch loop calls exactly these listeners in subscription order |
| `Events.StepKeeps` | evt/event.c:72-214 | every step of publishers, event thread and subscribers keeps the invariant of the protocol |
| `Events.SubscribingAppends` | evt/event.c:99-138 | in the protocol too, a subscription comes last and leaves the others in their places |
| `Events.UnsubscribingRemoves` | evt/event.c:140-172 | and an unsubscription takes out the pair and keeps the others in order |
| `Events.PublishingAppends` | evt/event.c:72-97 | a published event is queued last with its number, data and free function |
| `Events.DispatchCallsTheListeners` | evt/event.c:194-206 | a dispatch calls the listeners due among those subscribed at that moment and does nothing else |
| `Events.SomebodyCanStep` | evt/event.c:72-214 | no deadlock while an event is unfinished |
| `Events.StepsRunOut` | evt/event.c:72-214 | under any scheduling the steps left until everything is delivered are a fixed number, while nothing new is published |
| `Events.NoEventIsLost` | evt/event.c:72-97 | queued events equal tokens plus publishers about to signal plus the token just taken; published are popped followed by queued; a woken thread finds an event; a thread that waits without a token, when no signal is outstanding, has taken every event |
| `Events.EventsAreDelivered` | evt/event.c:174-214 | what was called and released is exactly: for each event in publishing order, the listeners due, then the release |
| `Events.FreedOnceAfterLastCallback` | evt/event.c:208-213 | at every moment: callbacks and releases follow publishing order, nothing happens to an event after its release, and of the finished events exactly those with a free function have been released |
| `Ipv4.SplitIsInverseOfJoin` | comm/ip.c:12-49 | the fields of the grammar hold no dot and join to the string |
| `Ipv4.ChkIpv4` | comm/ip.c:12-49 | the one-pass automaton accepts exactly the strings of four fields of one to three digits with values up to 255 |
| `Ipv4.OctetIs` | comm/ip.c:24-38 | a field is accepted exactly when it is one to three digits that read as 0 to 255, digit by digit |
| `Ipv4.DottedQuadIs` | comm/ip.c:12-49 | the accepted strings are exactly four such groups with dots between |
| `Ipv4.OctetOrDecOctet` | comm/ip.c:24-38 | a field is a dec-octet of section 3.2.2 of RFC 3986 exactly when it is accepted and has no leading zero |
| `Ipv4.AcceptsMoreThanTheStandard` | comm/ip.c:12-49 | the addresses of that section are exactly the accepted strings without a leading zero in any field |

## Left out

- `cipher/rsa.c`, `log/`, `sys/io.c`, `sys/mem.c`, `sys/sh.c`, `main.c`: wrappers and plumbing around code that is not visible here.
- `comm/times.c`, `comm/convt.c`, `comm/mac.c`, `comm/alloc.c`, `cl_txt_trim`: library date formats, floating-point formats, or easy once the rest is proved.
- Klon-cipher: the debug output, secrecy, and the file handle that stays open on the late failures (cipher/klciph.c:453-495).
- Klon-cipher: the random device is a byte sequence, the clock a parameter with day, hour, minute and second; month and year are not compared by the code either.
- Klon-cipher: the 16-bit store of the characteristic (cipher/klciph.c:338) is modelled low byte first, as on little-endian hosts.
- Klon-cipher: three checks can never fire and have no branch in the model: no free position for a slot (GFROM, and cipher/klciph.c:453-458, 473-478), and a parsed count that differs from the length (cipher/klciph.c:669-673). The preconditions and invariants in their place are proved.
- KlonSpec.CanAlwaysFinish: says that completion stays possible, not that 221 tries of a random source suffice.
- Thread pool: progress is stated as freedom from deadlock and a bound on the steps left; it takes for granted that jobs return. Workers leave without freeing pending jobs one by one (sys/thrdpool.c:104-117), so exit abandons the queue and no claim is made about releasing those jobs.
- Thread pool: thread creation and its failure, the pool's name, and deinitialisation while the registry lock is held (sys/thrdpool.c:150-186, 224-225, 303-326). The registry's limits are modelled for creations that succeed.
- PoolPosting.SelectWorker: works on queue lengths at rest; the scan against moving queues is the protocol in ThreadPool.
- List: `list_pop2` has no method of its own; it does what `list_pop` does on the containing structs, but only for a member named `list` (queue/inc/list.h:108-109).
- INI: lines, section names and the value must fit their buffers as far as the search gets; the code writes past them otherwise. Texts hold no NUL.
- IniMeaning.FrontEndsAgreeExactly: leaves out lines of 255 bytes or more, which `fgets` splits, and headers that end in CR LF, which only the lookup in memory takes for headers; then the two may find different lines, and agree only when these happen to carry the same value.
- Ini.IniGet: the file is its content; opening it may fail, reading may not.
- Text.PosLine: the caller must leave room for the line, since the code does not limit its copy.
- Timers: sockets, epoll, timerfd and descriptor reuse; a read brings a whole message, and what the system grants a new timer is a parameter. A millisecond part of 1000 or more, which the kernel refuses, is one of its refusals.
- Timers: start-up, connecting, and the wait for the thread's end. Handles are new for every timer.
- Events: start-up and shutdown races (evt/event.c:58-70).
- Events: a dispatch is one step with respect to subscribing, although the loop at evt/event.c:197-205 takes no lock; callbacks that subscribe or publish during their own dispatch are therefore not covered.
- Events: callbacks and data are numbers standing for their addresses; whether a callback intercepts is a function of listener and event.
