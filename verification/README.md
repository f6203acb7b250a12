# Verification of the box broker and its parts

A Dafny model of the parts of the broker whose correctness is not settled by reading one function:

- **The two-sided bounded queue** (`producer-consumer/`). `QueueMachine` is a machine of atomic steps: any number of
  threads, each with a program counter inside `pcq_enqueue` or `pcq_dequeue`; every lock, unlock, load, store, wait,
  wake-up (spurious ones too) and signal is a step of its own. `QueueInvariant` holds the inductive invariant,
  `QueueTheorems` the results: safety of every interleaving, first in first out, refinement of an atomic bounded FIFO,
  and progress of the locks. `QueueWakeUps` says exactly which queues can lose a wake-up. `PcQueue` is the queue
  itself, changed in place step by step; any schedule can be performed on it, and refines the atomic FIFO.
- **TécnicoFS** (`fs/`). `Tfs` is the file system over its arrays, with one method for each function of `fs/state.c`
  and `fs/operations.c`. Each is proved equal to an operation on a value (`FsModel`, `Directory`), and those are
  proved to refine a map from names to bytes with a table of handles (`FsAbstract`, `FsRefinement`, `FsTheorems`,
  `FsRuns`). `FsAnswers` says what every call answers and when it fails, without reference to that definition.
  `GuardedTfs` puts the two together: the abstract contracts, on the arrays.
  Unlinking a file that somebody holds open, or truncating it while a handle is past its beginning, breaks
  the tables; an operation that does neither is called *guarded*. The guard is proved necessary and sufficient.
- **The linked list and its sort** (`utils/list.c`). `LinkedList` has the nodes on the heap and the bubble sort that
  relinks them; `BubblePass` and `StableSort` say what a pass and the whole sort compute.
- **The broker and the manager** (`mbroker/mbroker.c`, `manager/manager.c`). `BoxFormat` is the format of a box:
  strings with their terminators, cut at one block, split again by `strlen`; it also has the publisher's loop when
  no other session acts. `PublisherSession` has that loop among the calls of any other workers. `Registry` is the
  list of boxes next to the directory, under creation and removal. `Broker` has all these sessions on `Tfs`, and
  `Listing` both ends of the listing stream. A pipe is a sequence of packets.

`Options`, `CStrings` and `Maps` are shared vocabulary.

## What turned out not to hold

Each of these is stated exactly, as an equivalence or with a run that shows it.

- `producer-consumer/producer-consumer.h:47-50` promises that `pcq_dequeue` sleeps until the queue has an element. A
  consumer can fall asleep on a queue that holds one, with nobody left to wake it, if and only if the queue has a slot
  and two threads use it (`QueueWakeUps.ConsumersStrandedIff`). The promise of `pcq_enqueue` at lines 42-45 fails
  under the same condition (`QueueWakeUps.ProducersStrandedIff`).
- The tables of TécnicoFS stay consistent if and only if every operation is guarded
  (`FsTheorems.InvariantIffGuarded`); `FsRuns.GuardsCanFail` gives a run that gets there.
- `list_remove` leaves `tail` alone, so removing the last of several nodes makes it stale, and nothing else does. It stays
  stale until the list is empty, and what is added meanwhile is counted but not in the list
  (`LinkedList.List.RemoveBox`, `LinkedList.List.Add`, `LinkedList.StaleTail`).
- The broker's removal takes the head out when no node has the name (`LinkedList.BrokerRemovalIsExact`). Over any run of
  creations, removals and other calls, the list and the directory agree at every moment if and only if no creation in it
  finds an inode and a slot but no handle, or succeeds while the tail of a list that is not empty is stale
  (`Registry.AlwaysAgreeIff`). Four requests that all succeed are enough: create two boxes, remove the second, create a
  third; its node is lost, and removing it takes the first box out of the list (`Registry.BoxLost`).
  `Registry.OtherBoxRemoved` gets there by way of a full handle table.
- A publisher that is alone stores all its messages if its first open and write can succeed. Among other workers that is
  not enough (`PublisherSession.HandleTakenBetween`): all are stored if and only if none of its calls is refused
  (`PublisherSession.AllStoredIff`).
- Replay gives back what was published if and only if no message is empty and all of them, with terminators, take
  less than `MESSAGE_SIZE` bytes (`BoxFormat.ReplayUndoesPublishing`). An empty message hides those behind it. The
  `strlen` walk leaves the buffer exactly when the messages fill it and none of those that fit is empty
  (`BoxFormat.ReplayStaysInsideIff`).

## Model

| member | source | states |
|---|---|---|
| `QueueTheorems.EveryRunIsSafe` | producer-consumer/producer-consumer.c:39-80 | from a created queue, no interleaving of any number of threads indexes outside the buffer or divides by a zero capacity, and every state it reaches satisfies the invariant |
| `QueueTheorems.RunKeepsInvariant` | producer-consumer/producer-consumer.c:39-80 | the invariant is inductive: it holds along every run, whatever the schedule and whoever is woken |
| `QueueInvariant.StepIsSafe` | producer-consumer/producer-consumer.c:39-80 | one step of one thread, in any state of the invariant, does not fault and keeps the invariant |
| `QueueInvariant.CreatedIsSafe` | producer-consumer/producer-consumer.c:5-24 | the state after `pcq_create` satisfies the invariant, for any capacity including 0 |
| `QueueInvariant.WriteKeepsData` | producer-consumer/producer-consumer.c:46 | the slot written at the tail holds no item that is still to be dequeued |
| `QueueInvariant.OwnershipKept` | producer-consumer/producer-consumer.c:40-77 | after any step each mutex has at most one holder, and it is the thread whose program counter lies between its lock and unlock |
| `QueueTheorems.FirstInFirstOut` | producer-consumer/producer-consumer.c:46-69 | the items enqueued so far are the items dequeued so far followed by the cyclic slice from the head, whose length is the size corrected for pending size stores and lies between 0 and the capacity |
| `QueueTheorems.GuardIsStable` | producer-consumer/producer-consumer.c:41-51 | from the exit of the wait loop to a thread's own size store, no other thread's step invalidates its test (below capacity for an enqueue, above 0 for a dequeue) |
| `QueueTheorems.StepRefines` | producer-consumer/producer-consumer.c:39-80 | each step is an invocation, the one instant of effect, or the return of a call on an atomic bounded FIFO, or changes nothing that it shows |
| `QueueTheorems.RunRefines` | producer-consumer/producer-consumer.c:39-80 | the visible events of a run are a run of the atomic FIFO that ends in the same contents and the same pending calls |
| `QueueTheorems.EveryRunRefines` | producer-consumer/producer-consumer.c:5-80 | the same from `pcq_create` on: the atomic FIFO starts empty, and what went in is what came out followed by what is there |
| `QueueTheorems.SomeThreadCanStep` | producer-consumer/producer-consumer.c:40-77 | following a blocked thread to the holder of the lock it wants ends at a thread that can step |
| `QueueTheorems.LocksNeverDeadlock` | producer-consumer/producer-consumer.c:40-77 | whenever some thread is inside a call and not asleep on a condition variable, some such thread can step |
| `QueueWakeUps.AloneEnqueues` | producer-consumer/producer-consumer.c:39-58 | with a free slot and free locks, a thread that runs alone completes `pcq_enqueue`, with its element in the tail slot, the size one larger, and any non-empty set of the sleeping consumers woken |
| `QueueWakeUps.AloneDequeues` | producer-consumer/producer-consumer.c:60-80 | with an item and free locks, a thread that runs alone completes `pcq_dequeue`, with the head moved, the size one smaller, and any non-empty set of the sleeping producers woken |
| `QueueWakeUps.SignalWakes` | producer-consumer/producer-consumer.c:54-76 | a signal wakes at least one thread that sleeps on the other side, if there is one, and moves no other thread |
| `QueueWakeUps.ConsumersStrandedIff` | producer-consumer/producer-consumer.c:54-65 | from a created queue a state is reachable in which a consumer sleeps, the queue holds an item and no thread is active, iff the capacity is at least 1 and two threads use the queue |
| `QueueWakeUps.ProducersStrandedIff` | producer-consumer/producer-consumer.c:41-76 | from a created queue a state is reachable in which a producer sleeps, the queue has space and no thread is active, iff the capacity is at least 1 and two threads use the queue |
| `QueueWakeUps.WakeUpsCanBeLost` | producer-consumer/producer-consumer.c:54-65 | for every capacity of at least 1 and any two threads there is a run after which the one sleeps in `pcq_dequeue` on a queue that holds exactly the other's element, while all others are idle |
| `QueueWakeUps.WakeUpsCanBeLostByProducers` | producer-consumer/producer-consumer.c:41-76 | for every capacity of at least 1 and any two threads there is a run after which the one sleeps in `pcq_enqueue` on a queue with space, while all others are idle |
| `QueueWakeUps.LoneRunKeepsTest` | producer-consumer/producer-consumer.c:41-65 | while a single thread uses the queue, a test that made it wait stays true |
| `PcQueue.PcQueue.constructor` | producer-consumer/producer-consumer.c:5-24 | the new queue is empty, with the given capacity, no lock held and no thread inside a call, and satisfies the invariant |
| `PcQueue.PcQueue.Enqueuer` | producer-consumer/producer-consumer.c:39-58 | in any state of the invariant, one step of a thread in `pcq_enqueue` that is not blocked indexes inside the buffer, divides by no zero, keeps the invariant, and is a step of the atomic FIFO or shows nothing |
| `PcQueue.PcQueue.Dequeuer` | producer-consumer/producer-consumer.c:60-80 | the same for `pcq_dequeue`; and the item returned is the one that the atomic FIFO gave to this call |
| `PcQueue.PcQueue.PerformAll` | producer-consumer/producer-consumer.c:39-80 | any schedule of calls, steps and spurious wake-ups can be performed on the queue in memory; its visible events are a run of the atomic FIFO, and what went in is what came out followed by what is there |
| `StableSort.SortFacts` | utils/list.c:85-111 | the reference sort gives a permutation in which no name is above its successors by `strcmp`, and keeps elements of equal names in their order |
| `StableSort.SortedIsDictionaryOrder` | utils/list.c:95-96 | sorted by `strcmp` means that no name comes before an earlier one in the dictionary |
| `StableSort.StableSortUnique` | utils/list.c:85-111 | a non-decreasing sequence is determined by its elements of each name, so there is only one stable sort |
| `StableSort.SwapStep` | utils/list.c:95-104 | exchanging two adjacent inverted elements leaves the stable sort as it is and removes exactly one inversion |
| `StableSort.SortRetag` | utils/list.c:95-96 | sorting looks at names only: it commutes with any change of what the elements carry |
| `BubblePass.SwapInPass` | utils/list.c:92-107 | a swap cannot follow directly on a swap; it leaves the cursor index where it was and the outcome of the pass unchanged |
| `BubblePass.StepInPass` | utils/list.c:92-96 | an iteration without a swap moves the cursor one place and leaves the outcome of the pass unchanged |
| `BubblePass.PassSettles` | utils/list.c:92-108 | a pass puts one more of the largest elements in place, and swaps only while at least two are unsettled |
| `BubblePass.WholePass` | utils/list.c:90-109 | a pass keeps the stable sort, removes as many inversions as it swaps, settles one more element, and without a swap finds everything in order |
| `LinkedList.List.Pass` | utils/list.c:91-108 | one pass over the nodes, with the cursor that steps back after a swap, permutes them as the pass on values does, ends the sort iff nothing was swapped, and takes one iteration for each node and each swap |
| `LinkedList.List.SwapNodes` | utils/list.c:98-106 | the pointer updates exchange two adjacent nodes, keep the chain acyclic and keep `tail` on the last node |
| `LinkedList.List.SortList` | utils/list.c:85-111 | the same nodes end in the stable order of their names, with `tail` last, after at most n passes for n >= 1 nodes and exactly n iterations for each pass plus one for each initial inversion |
| `LinkedList.SortedFilesInOrder` | utils/list.c:85-111 | the boxes that `list_sort` leaves are in ascending dictionary order of their names |
| `LinkedList.List.Add` | utils/list.c:14-36 | when `tail` is the last node or the list is empty, the file goes into a new last node behind all others; otherwise the list from its head is unchanged and `tail` stays outside it; the size is one larger in both cases |
| `LinkedList.List.Remove` | utils/list.c:38-57 | on any list, also with a stale tail: exactly the given node is unlinked and the size is one less; a null node changes nothing; `tail` is not touched |
| `LinkedList.List.SearchPrevNode` | utils/list.c:113-134 | the predecessor of the first node with the name; null for the head and for an absent name |
| `LinkedList.List.SearchNode` | utils/list.c:136-151 | the first node with the name, or null when there is none |
| `LinkedList.List.RemoveBox` | mbroker/mbroker.c:309-315 | the first node of that name goes, or the head when there is none, the others keep their order and the size is one less; `tail` is right afterwards iff the removed node was the only one, or `tail` was right and the removed node was not the last |
| `LinkedList.BrokerRemovalIsExact` | mbroker/mbroker.c:309-315 | the broker removes exactly the first box of the name iff there is one |
| `Registry.AlwaysAgreeIff` | mbroker/mbroker.c:216-324 | over any run of creations, removals and other sessions' calls from a broker whose list and directory agree: they agree at every moment, and no null pointer is read, iff no creation in it finds no handle for its new file or has its node lost behind a stale tail |
| `Registry.CreateKeepsAgreementIff` | mbroker/mbroker.c:233-275 | creating a box keeps list and directory in agreement iff it is not the case that the file is created and no handle is left for it, or that the open succeeds while the list is not empty and its tail is stale |
| `Registry.CreateAnswers` | mbroker/mbroker.c:233-275 | a creation answers 0 iff the box is not listed, its name is not empty, a handle is left, and its file exists or there is room for it; else -1; it says what is then in the directory and the list, and that no handle stays open |
| `Registry.CreatedIsNew` | mbroker/mbroker.c:233-241 | while list and directory agree, a creation that answers 0 has made a new, empty file |
| `Registry.BrokerHolds23Boxes` | mbroker/mbroker.c:26-31 | with the broker's inodes and block size and a handle left, a creation answers 0 iff the name is new, has 1 to 39 characters, and there are fewer than 23 boxes |
| `Registry.RemoveAnswers` | mbroker/mbroker.c:293-318 | a removal answers -1 and changes nothing iff there is no file of that name; else it removes the file and one node and answers 0, or reads a null pointer when the list is empty |
| `Registry.RemoveKeepsAgreement` | mbroker/mbroker.c:293-315 | while list and directory agree, a removal reads no null pointer, succeeds iff the box is listed and its path valid, takes exactly that box out of both, and keeps the agreement |
| `Registry.RemovalIsExactIff` | mbroker/mbroker.c:293-315 | a removal whose unlink succeeded takes out exactly the box of that name iff the list has one |
| `Registry.RemovalTakesTheHead` | mbroker/mbroker.c:246-315 | once a creation has left a file without a node, for either reason, removing that name returns success and takes the head of the list, another box whose file stays; on an empty list it reads a null pointer |
| `Registry.BoxLost` | mbroker/mbroker.c:216-324 | from an empty broker with any number of handles: two boxes are created, the second removed and a third created, all with success; the third has a file and no node, and its removal succeeds and takes the first box out of the list |
| `Registry.OtherBoxRemoved` | mbroker/mbroker.c:155-315 | from an empty broker with any number of handles: a box is created, subscribers open it until no handle is left, a second creation fails, and removing the second box takes the first out of the list |
| `Broker.CreateMailbox` | mbroker/mbroker.c:233-275 | the session on the arrays and the list, also with a stale tail, does what `Registry.Create` says: files, handles, list, whether `tail` is right, return code |
| `Broker.RemoveMailbox` | mbroker/mbroker.c:293-318 | the session on the arrays and the list, also with a stale tail, does what `Registry.Remove` says: files, list, whether `tail` is right, return code |
| `Broker.ServeAll` | mbroker/mbroker.c:216-324 | any sequence of requests on the arrays and the list in memory ends with both in agreement when no creation in it leaves its file without a node |
| `LinkedList.WithoutFirstIs` | utils/list.c:38-57 | taking out the first box of a name removes one index and keeps all others in order |
| `LinkedList.StaleTail` | utils/list.c:38-57 | two boxes are added and the second removed: the list holds the first, and `tail` is not its last node |
| `LinkedList.List.Print` | utils/list.c:71-83 | one line for each node, in list order |
| `CStrings.StrncmpEqualIsEquality` | fs/state.c:392-393 | comparing at most as many bytes as the buffer has agrees with equality of whole strings, for queries of any length |
| `CStrings.StrcmpZeroIsEquality` | utils/list.c:119 | `strcmp` gives 0 exactly for equal strings |
| `CStrings.StrcmpIsDictionaryOrder` | utils/list.c:96 | `strcmp` is below zero exactly when the first string is a proper prefix of the second or smaller in the first character in which they differ, and above zero exactly the other way round |
| `Directory.FindIsLookup` | fs/state.c:375-400 | the 40-byte scan returns the inumber that the directory maps the name to, and -1 exactly for names it does not have |
| `Directory.AddIsInsert` | fs/state.c:348-357 | filling the first empty slot inserts one binding into the map and keeps the directory well formed, whatever bytes were in the slot |
| `Directory.ClearIsRemove` | fs/state.c:308-314 | clearing the entry that was found removes exactly its binding and keeps the directory well formed |
| `Directory.ClearFindsTheEntry` | fs/state.c:308-314 | the scan that does not look at `d_inumber` stops at the entry that `find_in_dir` found, and compares only names that have been written |
| `Directory.NamesAreShort` | fs/state.c:333-336 | names in a directory have 1 to 39 characters |
| `Directory.FullWhenAllNamed` | fs/state.c:349-359 | there is no empty slot exactly when there are as many names as slots |
| `Directory.EmptyDirectory` | fs/state.c:230-232 | a block whose entries are all marked empty is a well-formed directory without names, whatever the name bytes are |
| `Directory.EntryWritten` | fs/state.c:351-353 | the bytes written by `add_dir_entry` decode to the directory with that one entry replaced |
| `Directory.EntryErased` | fs/state.c:310-311 | the bytes written by `clear_dir_entry` decode to the directory with that one entry emptied |
| `FsModel.FirstFree` | fs/state.c:162-179 | the first free slot of an allocation table, or -1 when all are taken |
| `FsModel.FoundIsTaken` | fs/operations.c:115-122 | what the lookup returns is -1 or a taken inode other than the root, whose block number is valid when the file is not empty |
| `FsModel.ReadIs` | fs/operations.c:283-286 | on consistent tables the unsigned subtraction of `tfs_read` does not wrap, and the bytes come from inside the file's block |
| `FsAbstract.AbsStepKeepsInv` | fs/operations.c:98-347 | in the caller's view, every guarded operation keeps each file within a block and each handle on a file that exists, at an offset inside it |
| `FsRefinement.WrittenFiles` | fs/operations.c:244-254 | a write through one handle changes the contents of exactly one name, to the old bytes overwritten at the offset |
| `FsRefinement.WriteRefines` | fs/operations.c:205-262 | `tfs_write` on the tables is the write on the map of files, with its short count, its 0 at the end of the block and its -1 when no block is left |
| `FsRefinement.ReadRefines` | fs/operations.c:264-303 | `tfs_read` returns and skips the file's bytes from the handle's offset, at most `len` of them |
| `FsRefinement.TruncateRefines` | fs/operations.c:125-130 | truncating a file on which no handle is past the beginning empties that one name and frees its block |
| `FsRefinement.RollbackRefines` | fs/operations.c:150-157 | giving the inode back after a failed `add_dir_entry` leaves nothing visible changed |
| `FsRefinement.DeleteRefines` | fs/operations.c:332-339 | deleting the inode and its entry removes exactly one name, frees its block and keeps all tables consistent |
| `FsRefinement.OwnersAreNonEmpty` | fs/state.c:252-267 | the inodes that own a block are exactly the root and those of the files that are not empty, one for each |
| `FsTheorems.Resources` | fs/state.c:162-179 | inodes, directory slots, blocks and handles run out exactly when the caller's view says so: as many files, non-empty files and handles as fit |
| `FsTheorems.StepRefines` | fs/operations.c:98-347 | every guarded operation keeps the invariant (blocks one to one with the inodes that use them, entries one to one with inodes, handles inside files) and is, answer included, the same operation on the map of files and the table of handles |
| `FsTheorems.CreateFailsExactlyWhen` | fs/operations.c:137-180 | a creating open of a new valid path fails iff no inode is free, the name exceeds 39 bytes, the directory is full or no handle is free; the first three change nothing, the last leaves the empty file |
| `FsAnswers.OpenAnswers` | fs/operations.c:98-180 | for every mode: an open succeeds iff the file exists, or may be created and there is an inode, a directory entry and a name of at most 39 characters, and a handle is left; the answer is the lowest unused handle, on that file, at its end when appending and else at 0; a file is emptied or made also when then no handle is left, and nothing else changes |
| `FsAnswers.BadPathAnswers` | fs/operations.c:53-55 | a path that is not a slash and a name makes open and unlink answer -1 and change nothing |
| `FsAnswers.CloseAnswers` | fs/operations.c:182-203 | 0 for an open handle, which is then no handle, and -1 for any other number; all other handles stay |
| `FsAnswers.UnlinkAnswers` | fs/operations.c:305-347 | 0 for a file, which is then gone, and -1 for a name that no file has; all other files stay |
| `FsAnswers.WriteAnswers` | fs/operations.c:205-262 | a write answers the smaller of its length and the room behind the offset, 0 at the end of the block, which is what the offset moves by; -1 iff the number is no handle, or there are bytes to store, the file is empty and no block is left, and then nothing changes |
| `FsAnswers.WrittenState` | fs/operations.c:244-254 | byte by byte: what was written is behind the old offset, every other byte of the file and everything else is as it was |
| `FsAnswers.ReadAnswers` | fs/operations.c:264-303 | a read answers the smaller of `len` and what is behind the offset, returns exactly these bytes, and moves the offset by them; -1 for a number that is no handle |
| `FsAnswers.RoomInBlockOf1024` | fs/state.c:36 | a directory in a block of 1024 bytes is full exactly at 23 files |
| `FsTheorems.LookupAnswers` | fs/operations.c:68-96 | the lookup answers -1 exactly for names that no file has, and else a taken inode that holds the bytes of that file |
| `FsTheorems.InvariantIffGuarded` | fs/operations.c:125-130 | an operation on consistent tables leaves them consistent iff it is guarded |
| `FsTheorems.UnguardedUnlinkBreaks` | fs/operations.c:332 | unlinking a file with an open handle leaves a handle on a free inode, and the tables inconsistent |
| `FsTheorems.UnguardedOpenBreaks` | fs/operations.c:125-130 | truncating a file with a handle past its beginning leaves an open handle past the end of its file, and the tables inconsistent |
| `FsTheorems.ClearStep` | fs/operations.c:332-333 | after `inode_delete`, `clear_dir_entry` clears the entry that the lookup found and never inspects a name that was not written |
| `FsRuns.InitWorks` | fs/operations.c:25-44 | initialisation succeeds iff there is an inode and a block for the root, and then the tables are consistent and hold no files, whatever was in memory |
| `FsRuns.RunRefines` | fs/operations.c:98-347 | over every guarded run the tables give the same answers as the map of files, and end in a state that stands for the same files and handles |
| `FsRuns.EveryGuardedRunIsSafe` | fs/state.c:198-267 | after every guarded run from initialisation, blocks are one to one with the taken blocks, names one to one with the taken inodes other than the root, and every handle has offset <= i_size <= block size |
| `FsRuns.ReadsArePrefix` | fs/operations.c:283-296 | while a file only grows, the reads on a handle, put together, are the file's bytes from the offset at which it started to the one it has reached |
| `FsRuns.GuardsCanFail` | fs/operations.c:125-130 | after creating "/a" and writing one byte through the handle, unlinking it or opening it for truncation breaks the tables |
| `Tfs.StoredInBlock` | fs/state.c:448-454 | bytes stored inside one block of the flat array change that block and no other |
| `Tfs.Tfs.constructor` | fs/state.c:95-128 | all slots of all tables are free; everything else is arbitrary |
| `Tfs.Tfs.InodeAlloc` | fs/state.c:162-179 | takes the first free inode and changes nothing else; -1 when there is none |
| `Tfs.Tfs.DataBlockAlloc` | fs/state.c:410-423 | takes the first free block and changes nothing else; -1 when there is none |
| `Tfs.Tfs.DataBlockFree` | fs/state.c:431-438 | frees that block and changes nothing else |
| `Tfs.Tfs.InodeDelete` | fs/state.c:252-267 | frees the inode and, when the file is not empty, its block |
| `Tfs.Tfs.InodeCreateDirectory` | fs/state.c:198-233 | on any tables: the first free inode gets the first free block, whose entries are all marked empty; without a block the inode is given back |
| `Tfs.Tfs.InodeCreateFile` | fs/state.c:198-244 | the first free inode becomes an empty file without a block |
| `Tfs.Tfs.FindInDir` | fs/state.c:375-400 | the inumber of the first live entry that matches the name in 40 bytes, or -1 |
| `Tfs.Tfs.AddDirEntry` | fs/state.c:333-360 | refuses names of length 0 or more than 39 and full directories, and otherwise fills the first empty slot |
| `Tfs.Tfs.ClearDirEntry` | fs/state.c:297-316 | empties the first slot with that name; -1 when there is none |
| `Tfs.Tfs.AddToOpenFileTable` | fs/state.c:468-480 | takes the first free handle for the inode and offset; -1 when there is none |
| `Tfs.Tfs.RemoveFromOpenFileTable` | fs/state.c:488-496 | frees that handle and changes nothing else |
| `Tfs.Tfs.Init` | fs/operations.c:25-44 | on the arrays, what `FsRuns.InitFs` says on values |
| `Tfs.Tfs.Lookup` | fs/operations.c:68-77 | -1 for an invalid path, otherwise what the root directory says about the name behind the slash |
| `Tfs.Tfs.FileExists` | fs/operations.c:79-96 | the answer of the lookup; nothing changes |
| `Tfs.Tfs.Open` | fs/operations.c:98-180 | truncation, append offset, creation with rollback, and the search for a handle, on the arrays, in the order in which the code does them |
| `Tfs.Tfs.Close` | fs/operations.c:182-203 | frees the handle; -1 for a number that is not an open handle |
| `Tfs.Tfs.Write` | fs/operations.c:205-262 | bytes, offset, size and block number after a write, on the arrays; -1 when an empty file finds no block |
| `Tfs.Tfs.Read` | fs/operations.c:264-303 | the bytes read go to the beginning of the caller's buffer, whose rest is untouched, and the offset moves |
| `Tfs.Tfs.Unlink` | fs/operations.c:305-347 | frees inode and block, then clears the entry |
| `GuardedTfs.TfsOpen` | fs/operations.c:98-180 | a guarded open of the arrays is the open on the map of files |
| `GuardedTfs.TfsClose` | fs/operations.c:182-203 | a close of the arrays is the removal of one handle |
| `GuardedTfs.TfsWrite` | fs/operations.c:205-262 | a write to the arrays is the write to one name of the map |
| `GuardedTfs.TfsRead` | fs/operations.c:264-303 | a read from the arrays is the read from the map, and the bytes arrive in the buffer |
| `GuardedTfs.TfsUnlink` | fs/operations.c:305-347 | a guarded unlink on the arrays is the removal of one name |
| `PublisherSession.AppendsAccumulate` | fs/operations.c:223-255 | over any guarded run, whoever makes its calls: a file that is only written at its end, and neither truncated nor removed, holds up to its block size what it held before and the buffers of all accepted writes |
| `PublisherSession.SessionAppends` | mbroker/mbroker.c:93-123 | a box's only publisher among arbitrary calls of other workers meets those conditions, and the accepted writes are its stored messages with their NULs |
| `PublisherSession.EveryScheduleStores` | mbroker/mbroker.c:93-123 | at every moment of a session, whatever other workers have done in between: the box is the first block of its old bytes and the messages stored so far with their NULs; these and those still to come are what was sent; `box_size` counts all stored bytes modulo 2^64 |
| `PublisherSession.SizesAlwaysAgree` | mbroker/mbroker.c:113 | at every moment of a session among other workers the file's size is `box_size` cut at the block size, also when writes return short or 0 |
| `PublisherSession.RefusalEnds` | mbroker/mbroker.c:101-118 | the publisher's next call ends the session iff no packet is left, no handle is free, or the file is empty and no block is free; the last two change no file |
| `PublisherSession.AllStoredIff` | mbroker/mbroker.c:93-123 | a session that is over has stored all its messages iff none of its calls was refused |
| `PublisherSession.HandleTakenBetween` | mbroker/mbroker.c:101-106 | in any state with one handle left, another session that opens the box between two messages makes the publisher lose the second |
| `PublisherSession.ReplayDuringSession` | mbroker/mbroker.c:93-184 | a subscriber that reads a box at any moment of its publisher's session, among other workers, finds exactly the messages stored so far iff none is empty and they leave room for one more NUL |
| `PublisherSession.AloneIsASchedule` | mbroker/mbroker.c:93-123 | the undisturbed loop is the schedule in which all turns are the publisher's |
| `BoxFormat.AloneStoresAll` | mbroker/mbroker.c:93-123 | special case without other workers: when the first write can succeed, all messages are stored and no handle stays open |
| `BoxFormat.AloneStoresNothing` | mbroker/mbroker.c:101-110 | special case without other workers: otherwise no message is stored and neither files nor `box_size` change; when a handle was left but no block, the handle opened for the first message stays open |
| `BoxFormat.AloneStoresAllIff` | mbroker/mbroker.c:93-123 | special case without other workers: all messages of a session are stored iff there are none, or a handle and, for an empty file, a block are left at the start |
| `BoxFormat.AloneSizesAgree` | mbroker/mbroker.c:113 | special case without other workers: the file's size is `box_size` cut at the block size, before and after |
| `BoxFormat.ReplayUndoesPublishing` | mbroker/mbroker.c:171-184 | the walk over the zeroed buffer sends exactly the published messages iff none is empty and their total with terminators is less than the buffer |
| `BoxFormat.MissingBoxIsNotOpened` | mbroker/mbroker.c:101-106 | neither a publisher nor a subscriber opens or creates a box that does not exist: the answer is -1 and nothing changes |
| `BoxFormat.BoxPathNames` | mbroker/mbroker.c:41-47 | the path of a box is a slash and its name, and no path for the empty name |
| `BoxFormat.WalkStaysInside` | mbroker/mbroker.c:176-184 | the walk ends inside the buffer iff the buffer starts with a NUL or holds two in a row |
| `BoxFormat.ReplayStopsAtEmpty` | mbroker/mbroker.c:176-184 | the walk sends the messages before the first empty one and none after it |
| `BoxFormat.ReplayStaysInsideIff` | mbroker/mbroker.c:171-184 | for every message sequence and buffer size: the replay of what was published ends inside the buffer iff all messages leave room for one more NUL, or an empty one begins inside the buffer |
| `BoxFormat.FullBufferIsLeft` | mbroker/mbroker.c:176-184 | an instance: one message of 1023 characters makes the walk leave the buffer |
| `BoxFormat.AlonePublishThenReplay` | mbroker/mbroker.c:93-184 | special case without other workers: from an empty box to a subscriber, what is sent is what was published iff no message is empty and all fit with room for one more NUL |
| `Broker.PublisherLoop` | mbroker/mbroker.c:93-126 | the session's loop on the arrays and the node, under any schedule of calls by other workers: file system, `box_size` and number of stored messages are those of the session after that schedule, wherever the loop stops |
| `Broker.StoreMessage` | mbroker/mbroker.c:101-118 | one iteration, with other workers' calls before each of its own: open for append, write with terminator, count, close; it stops at the first failure |
| `Broker.SendStored` | mbroker/mbroker.c:175-184 | the moving pointer over the buffer sends the strings of the walk, in order |
| `Broker.SubscriberReplay` | mbroker/mbroker.c:155-184 | whatever other workers do between the open and the read: the strings of the box's first `MESSAGE_SIZE` bytes at the read are sent, in order, and the handle stays open behind what was read |
| `Listing.SendListing` | mbroker/mbroker.c:338-366 | one packet for each box, `last` set on the final one only; one last packet with an empty name when the size is 0; none when the list is empty and its size still counts lost boxes |
| `Listing.StreamEndsOnce` | mbroker/mbroker.c:338-366 | the stream of a list that counts what it holds has at least one packet, only its final packet has `last` = 1, and each packet has every counter of its box in the field of that name |
| `Listing.Receive` | manager/manager.c:122-149 | the list holds the boxes of the packets up to the first one marked last, or before an empty name |
| `Listing.ReceivedIs` | manager/manager.c:126-149 | what the manager keeps is exactly the packets up to the first marked last, or before the first empty name, or all, field by field, whatever comes after them |
| `Listing.ListBoxes` | manager/manager.c:122-152 | what is printed is the stable sort of what was received |
| `Listing.ListingRoundTrips` | mbroker/mbroker.c:338-366 | the manager rebuilds the registry iff no box has an empty name |
| `Listing.PrintedIsSortedRegistry` | manager/manager.c:126-152 | what the manager prints is a permutation of the registry in order of name, equal names in registry order |

## Left out

- SubscriberReplay: requires that the buffer starts with a NUL or holds two in a row when it is read, because the `strlen` calls leave it otherwise; `BoxFormat.ReplayStaysInsideIff` says for which messages.
- SendStored: requires that the `strlen` calls stay inside the buffer, for the same reason.
- ReadsArePrefix: asks that the file is only extended during the run and that the handle is not written through; a truncation in between makes the statement meaningless.
- LocksNeverDeadlock: speaks of mutexes only; threads asleep on a condition variable may stay asleep, as `QueueWakeUps.ConsumersStrandedIff` shows.
- RemoveBox: requires a list that is not empty, because `search_prev_node` reads through the head pointer.
- SearchPrevNode: requires a list that is not empty, for the same reason.
- RemoveMailbox: requires that the list is not empty when the unlink succeeds, for the same reason (`Registry.RemoveKeepsAgreement` and `Registry.RemovalTakesTheHead` say when it is), and that the box has no open handle, because the unlink breaks the tables otherwise (`FsTheorems.UnguardedUnlinkBreaks`).
- Add: a node that has been freed is not reused in the model; in C the write through a stale tail goes to freed memory, and the model says what it leaves of the list when that does no further harm.
- AlwaysAgreeIff: creations and removals happen one after the other, without other calls inside them; a box with an open handle is not removed.
- PublisherLoop: assumes of the other workers what `EveryScheduleStores` does.
- StoreMessage: assumes of the other workers what `EveryScheduleStores` does.
- AloneStoresAll: the special case without other workers; `PublisherSession.EveryScheduleStores` is the general one.
- AloneStoresNothing: the special case without other workers; `PublisherSession.RefusalEnds` is the general one.
- AloneStoresAllIff: the special case without other workers; `PublisherSession.AllStoredIff` is the general one.
- AloneSizesAgree: the special case without other workers; `PublisherSession.SizesAlwaysAgree` is the general one.
- AlonePublishThenReplay: the special case without other workers; `PublisherSession.ReplayDuringSession` is the general one.
- EveryScheduleStores: assumes that nobody else writes to the box, truncates it, removes it, or closes the publisher's handle; a second publisher of the same box is kept out by `mbroker/mbroker.c:77-85` only when its check is not overtaken.
- Enqueuer: one call is one atomic step of a thread that is not blocked; which thread is next is the choice of the schedule given to `PerformAll`.
- Weak memory: reads of the queue's size outside its lock are sequentially consistent in the model.
- The history of items in the queue's memory is a specification device; what the queued pointers point to is not modelled, in particular the reuse of one `packet` variable for all of them.
- Liveness of the queue beyond progress of its locks.
- `malloc` failure, a second initialisation with other parameters, `tfs_destroy`, `pcq_destroy` and `list_destroy`; a block size of 0; table sizes above 2^31.
- Wrap-around of `to_write + of_offset` in `tfs_write` for lengths near 2^64. The subtraction in `tfs_read`, the queue's size and `box_size` do wrap in the model.
- Failure of `pthread_mutex_lock` and `unlock`; the library mutex makes each operation one step, so it does not appear. The same holds for the lock of a list.
- Operations after an unguarded one: the tables are no longer consistent, and the model says nothing more.
- `insert_delay`, logging and `PANIC`. Assertions of the code are proof obligations of the methods.
- Named pipes, retries, signals, processes and arguments (`utils/pipes.c`, `publisher/pub.c`, `subscriber/sub.c` and the `main` functions).
- The subscriber's loop after the replay: it waits without a predicate and forwards only the first string of each read.
- Calls of other workers inside a creation or removal session: its check of the list is not atomic with the updates behind it.
- The counters of publishers and subscribers (`utils/list.c:153-219`), and condition variables inside a node.
- The text that `list_print` writes, and the "no boxes" line of the manager: printing is the sequence of boxes.
- `tfs_sym_link`, `tfs_link` and `tfs_copy_from_external_fs` are declared in `fs/operations.h:67-138` and not defined.
