# Eedox: a model of its allocators, its file system, its image tools and its IPC

Eedox is a small UNIX-like kernel in C with an image builder and an image checker in JavaScript. This project models
the parts of it that carry invariants over unbounded runs, and proves those invariants:

- **Kernel heap** (`Bytes`, `Sequences`, `OrdList`, `HeapBlocks`, `HeapMemory`, `HeapLive`, `HeapWatch`,
  `KernelHeap`, `AlignedAlloc`). RAM is an array of bytes; headers are read and written in it. A ghost sequence of
  blocks is what the headers spell, and the recorder of `heapwatch.c` is the simple specification: a map of live
  ranges. `heap_check` and the recorder are modelled as they are and return a verdict where the source panics; for
  callers that keep the rules the verdict is always `Fine`.
- **File system** (`DirTable`, `Disk`, `InodeHeader`, `FileData`, `FileSystem`). The disk is an array of 512-byte
  sectors. The simple specification is a map from files to byte strings and a list of named children for each directory.
- **Image tools** (`ImageTree`, `ImageWriter`, `ImageReader`, `ImageVerdict`, `ImageRoundTrip`, `ImageMount`,
  `ImageBoot`). The passes of `fsgen.js` compute one function of the tree, `fscan.js` inverts it and gives the right
  verdict on any other image, and a disk that starts with the image meets the invariant of the file system, so that the
  kernel starts from it and reads every file of the tree.
- **Scheduling, pipes and descriptors** (`KQueue`, `Scheduling`, `PipeSteps`, `PipeRuns`, `Pipes`, `Descriptors`).
  System-call handlers run with interrupts off, so a step is atomic up to the point where its task goes to sleep.
- **Paths** (`PathBuf`), **the heap of user programs** (`UserHeap`, and `BestFit` for what its search
  computes), **page tables** (`Bitset`, `Paging`) and the
  **argument vector** of `exec` (`ArgVector`).

Objects whose fields the source updates are classes, loops are loops, and each method is tied to a function on values
about which the laws are proved. Machine words are naturals below 2^32 where they are stored in memory, and natural
numbers elsewhere.

What the proofs found in the code:

- The header of a kernel heap block is packed, so it is 9 bytes, not 12.
- `heap_init` tests alignment with 1000 instead of 0x1000 (`FirstHeaderAlignment`).
- The blocks of the kernel heap reach one header beyond the size that `heap_init` is given. `paging_init` maps only that
  size, so up to 9 bytes of the last block, and all 9 when start and size are whole pages, are on no mapped page
  (`UnmappedTail`).
- The overlap test of the recorder misses ranges that enclose a recorded one (`ClashesMissesOnlyEnclosing`).
- An aligned allocation that moves the header of its hole does not tell the block behind; unless a split at the other
  end or the end of the heap hides it, the check at the end of `heap_alloc` panics (`AllocAligned`, `UntoldPanics`).
  Four calls on a new heap get there (`AlignedPanics`).
- A hole 1 to 9 bytes in front of its place moves up with its old size. The block in front grows by as much, but the block
  behind is lost to every chain that the check could still pass (`ShovedLoses`).
- `heap_find_best_fit` of the user heap, the variant that is built by default, merges blocks while it scans, and can
  return a block that it has merged into another meanwhile. It does so exactly if no visit ends the scan and a visit
  swallows the smallest block found large before (`SearchLost`); otherwise it returns a best fit (`SearchBest`). It is
  safe, whatever else merges, as long as no visited block that is too short can reach, through free neighbours, a
  block remembered before (`UnthreatenedSafe`). Three allocations and two releases on a new heap lead to a search that
  fails (`SearchFails`).
- The size rounding of the user heap keeps a remainder in one byte (`AlignmentRounds`).
- `bitset_set` cannot clear a bit, so freed frames stay allocated (`Bits.Clear`).
- `sbrk` maps all pages of the new memory only if the old break and the size are not both off page bounds by too much
  (`SbrkCovers`).
- Joining with an absolute path yields the root. That is the second path only if it leads to the root anyway
  (`JoinAbsolute`), and joining is not associative there (`JoinAssociative`). The callers of `pathbuf_join`
  (src/syscall.c:48-62 and 446-477) keep absolute paths away from it, and what `resolve_path` computes is associative
  (`ResolveAssociative`).
- The last writer's close wakes no sleeping reader. From then on the readers that have been promised a message read one
  after the other, and each that leaves a rest wakes the first sleeper. So each sleeper sleeps for good exactly if the
  readers in front of it, each with the length that it asked for, leave nothing (`SleepsExactly`, `PipeSystem.Close`).
  With one message left that is when they asked for all its bytes (`OneMessage`). Whatever lengths were asked for, the
  sleeper at position k (from 0) is lost exactly if the messages do not allow more than k short reads: their bytes, less
  one for each message that has any, number at most k (`SleepsWhateverAsked`). If those promised asked for whole
  messages nobody is ever woken (`Drained`).
- The test for the end of the file does not see messages that are promised to other readers: a reader that asks after
  the last writer has gone falls asleep exactly if messages are left and all of them promised, and then sleeps for good
  exactly if the readers before it leave nothing (`LateReader`, `LateReaderReachable`).
- `syscall_read` tests for a readable descriptor with `|` where it means `&`, so that the write end of a pipe will do
  (`Legal`).

## Model

| member | source | states |
|---|---|---|
| `OrderedList.OrdList.Insert` | src/ordlist.c:3-15 | in ascending or descending order: the element goes in front of exactly the trailing ones that belong behind it, all others keep their order, and under an ordering a sorted list stays sorted |
| `OrderedList.OrdList.Remove` | src/ordlist.c:16-25 | the element at the index is returned and leaves the list, the others keep their order |
| `OrderedList.OrdList.IndexOf` | src/kheap.c:114-124 | the first slot that holds the address, or -1 exactly when no slot does |
| `OrderedList.InsertKeepsSorted` | src/ordlist.c:3-15 | if the comparison is an ordering, inserting there keeps a sorted list sorted, in either direction |
| `HeapBlocks.HeaderIsValidIsExact` | src/kheap.c:94-97 | although the first hole is given the whole size behind its header, comparing with start + size separates every real header from the address behind the last block |
| `HeapBlocks.UnmappedTail` | src/paging.c:75-79 | a byte of a block is on no mapped page exactly if it is in the last block and within 9 bytes of its end, less the distance from the end of the region to the next page bound |
| `HeapBlocks.CarveKeeps` | src/kheap.c:183-206 | an unaligned grant keeps the blocks tiling the region and no two holes adjacent |
| `HeapBlocks.CarveTight` | src/kheap.c:202-206 | a grant keeps at most one header more than was asked for; what else a hole has stays a hole behind it, and no other block changes |
| `HeapBlocks.ReleaseKeeps` | src/kheap.c:222-240 | so does a release, which merges in both directions |
| `HeapBlocks.MergeHoles` | src/kheap.c:126-139 | a merge takes exactly the swallowed hole out of the set of holes |
| `HeapBlocks.FootprintIsRegion` | src/kheap.c:43-48 | sizes and headers of any tiling add up to the region |
| `HeapBlocks.AllFreeIsOneHole` | src/kheap.c:222-240 | a tiling of holes none of which are adjacent is one hole |
| `HeapMemory.HeaderBytes` | src/kheap.h:10-15 | the packed header byte by byte: flag, size and link, in 9 bytes |
| `HeapMemory.SplitSpells` | src/kheap.c:99-112 | the header writes of heap_high_split turn a memory that spells the blocks into one that spells the split blocks, back links included |
| `HeapMemory.MergeSpells` | src/kheap.c:126-139 | the same for heap_merge |
| `HeapMemory.HeadersFrame` | src/kheap.c:99-139 | no header write changes a byte of a payload in use |
| `HeapMemory.SpelledIsCertified` | src/heapwatch.c:66-111 | the invariant implies everything heap_check tests |
| `HeapMemory.CertifiedPasses` | src/heapwatch.c:74-110 | on a certified chain each round of heap_check passes and leads to the next block |
| `HeapWatch.ClashesMissesOnlyEnclosing` | src/heapwatch.c:23-30 | the recorder's test implies an overlap, and an overlap it misses is one where the new range sticks out at both ends |
| `HeapWatch.Watcher.Alloc` | src/heapwatch.c:8-47 | a panic exactly for a range that clashes with a live one; otherwise overflow exactly with 1024 live ranges, and else the range becomes live in some slot |
| `HeapWatch.Watcher.Free` | src/heapwatch.c:48-64 | a panic exactly for a pointer that is neither live nor null; otherwise exactly that range dies |
| `HeapWatch.Watcher.FullTable` | src/heapwatch.c:37-44 | with every slot taken there are as many live ranges as slots |
| `HeapLive.CarveWatched` | src/kheap.c:183-211 | after a grant the recorder again holds one range per block in use, inside its payload |
| `HeapLive.ReleaseWatched` | src/kheap.c:214-240 | and after a release |
| `KernelHeap.FirstHeaderAlignment` | src/kheap.c:35-43 | the first header is page aligned exactly when the address is no multiple of 1000 or is page aligned already |
| `KernelHeap.FirstPayloadOffPage` | src/kheap.c:35-43 | wherever heap_init puts the first header, its payload starts no page |
| `KernelHeap.Heap.constructor` | src/kheap.c:27-49 | the heap starts as one hole of the given size with a one-element index, and meets the invariant |
| `KernelHeap.Heap.HeapHighSplit` | src/kheap.c:99-112 | memory, blocks and hole index change together; the payloads in use keep their bytes |
| `KernelHeap.Heap.HeapMerge` | src/kheap.c:126-139 | the next block is swallowed exactly if it is a hole; memory, blocks and index change together |
| `KernelHeap.Heap.HeapCheck` | src/heapwatch.c:66-111 | passes exactly on memories that hold a chain with exact back links, no two adjacent holes, from the start to the end |
| `KernelHeap.Heap.HeapCheckPasses` | src/heapwatch.c:66-111 | never panics on a heap that meets the invariant |
| `KernelHeap.Heap.FindHole` | src/kheap.c:148-178 | a listed hole that is large enough, or none exactly when no hole is |
| `KernelHeap.Heap.HeapAlloc` | src/kheap.c:141-212 | null exactly for zero bytes or when no hole is large enough; else a fresh payload apart from every live range, of whose bytes none changes; no panic; the invariant holds again; while the hole index ascends by size the hole is a smallest one with room, and the index still ascends |
| `KernelHeap.Heap.HeapFree` | src/kheap.c:214-242 | the block is released with merges on both sides, no other live range or its bytes change, no panic; the invariant holds again; without a hole beside the block an ascending index stays so |
| `KernelHeap.AllReturned` | src/kheap.c:214-242 | after any run, once nothing is live the heap is a single hole of its original size |
| `KernelHeap.SpaceConserved` | src/kheap.c:43-48 | in every state block sizes and headers add up to the region |
| `AlignedAlloc.AlignmentOLeast` | src/kheap.c:61-74 | the least address from x on with the given offset in its page |
| `AlignedAlloc.MoveHeader` | src/kheap.c:76-87 | copying the header and heap_low_split leave a hole of extra - 9 bytes in front and the moved block behind it |
| `AlignedAlloc.MovedSpells` | src/kheap.c:185-206 | if the block behind is linked, the memory after low and high split spells the blocks after both |
| `AlignedAlloc.UntoldPanics` | src/kheap.c:76-87 | if it is not, no chain in memory is certified |
| `AlignedAlloc.TakeAndShove` | src/kheap.c:183-200 | for a hole 1 to 9 bytes in front of its place: the header moves, the block in front grows, and the hole keeps its size |
| `AlignedAlloc.ShovedLoses` | src/kheap.c:183-206 | after that a chain that passes the check has lost the block behind, whether or not a split follows; behind the last block it leaves the heap |
| `AlignedAlloc.FindAligned` | src/kheap.c:154-178 | the first listed hole in which the request fits with a page-aligned payload, or none exactly when there is none |
| `AlignedAlloc.AllocAligned` | src/kheap.c:141-212 | the payload starts a page, is fresh and apart from the live ranges; the final check passes exactly when the move is linked, and then the invariant holds and no live byte has changed |
| `AlignedAlloc.AlignedPanics` | src/kheap.c:141-212 | a new heap, two grants, a release and an aligned request for 100 bytes: the check at the end of the last one fails |
| `DirTable.DecodeEncode` | src/fs.c:365-382 | packed records determine the entries |
| `DirTable.ReadAtOffset` | src/fs.c:341-364 | at the start of each record lie its name, a NUL and the bytes of its index, and the next record follows |
| `DirTable.LookupRedirect` | src/fs.c:400-408 | after an edit of the index the name leads to the new index, every other name where it led |
| `DirTable.LookupAdd` | src/fs.c:365-382 | after an addition a name that was there keeps its index, the new one has the given one |
| `DirTable.LookupDrop` | src/fs.c:383-399 | after a removal the name is gone and every other name leads where it led |
| `DirTable.DropRedirectAt` | src/fs.c:383-399 | a removal closes the gap over the first entry of the name, an edit changes it alone; all other entries keep their order |
| `DirTable.ChildTable.FindRecord` | src/fs.c:341-364 | terminates with the offset of the first record of that name, or null exactly when there is none |
| `DirTable.ChildTable.Get` | src/fs.c:420-429 | the index that the entry list gives the name, 0 for none |
| `DirTable.ChildTable.Add` | src/fs.c:365-382 | the records become the old ones and the new one; one more sector always suffices for a name of at most 256 bytes |
| `DirTable.ChildTable.Remove` | src/fs.c:383-399 | the records become those without the first of that name, and a sector is given up when they fit without it |
| `DirTable.ChildTable.EditIndex` | src/fs.c:400-408 | the first record of that name gets the index, and no size changes |
| `DirTable.ChildTable.EditName` | src/fs.c:410-419 | removal under the old name and addition under the new, if the old one is there |
| `Disk.ReadAfterSplice` | src/fs.c:112-126 | what a write puts into a byte string is read back, and every other byte is as before |
| `Disk.Device.ReadSectors` | src/fs.c:117-121 | the buffer holds the sectors in order |
| `Disk.Device.WriteSectors` | src/fs.c:123-126 | the sectors hold the buffer in order, and no others change |
| `InodeHeader.DecodeEncodeMeta` | src/fs.c:285-300 | fetching a header gives back what was stored |
| `InodeHeader.HeaderLayout` | fsgen.js:154-160 | which word of the sector is which field, and that the rest is zeros |
| `Bytes.LittleEndian` | fsgen.js:154-160 | words are stored least significant byte first |
| `InodeHeader.WordSectorWord` | src/fs.c:24-41 | the allocation pointer read back is the one stored |
| `FileData.BoundsMeaning` | src/fs.c:226-254 | the overflow is what the allocation lacks; without overflow the range fits the sectors counted, and these lie in the extent and are all read before they are written; the bytes read are those asked for up to the end of the file |
| `FileData.SecondBoundsFit` | src/fs.c:106-110 | after the allocation has grown by the overflow the second computation finds none |
| `FileData.Store.InodeRead` | src/fs.c:135-155 | as many bytes as were asked for, or as there are up to the end of the file, and they are the file's bytes from the offset on |
| `FileData.Store.InodeReaddir` | src/fs.c:156-170 | the name of the record at the offset and the record's length; 0 exactly at the end |
| `FileData.Store.Binit` | src/fs.c:13-41 | the allocation pointer is the one on disk; a disk with none gets the first |
| `FileData.Store.Balloc` | src/fs.c:43-49 | the next run of sectors; the pointer on disk follows and no other sector changes |
| `FileData.Store.WriteData` | src/fs.c:112-127 | the file's bytes are spliced, across partial first and last sectors, and only its extent changes |
| `FileData.Store.InodeWrite` | src/fs.c:95-128 | the bytes are spliced at any offset up to the size; with overflow the file gets the smallest allocation that holds it at the end of the used disk, and whoever points at it follows |
| `FileData.Store.InodeRealloc` | src/fs.c:255-283 | the data is at the new place, the parent's entry or the root index names it, and only these sectors change |
| `FileData.Store.InodeChildSet` | src/fs.c:190-225 | the directory's entries are edited; for additions and relocations; relocating an entry never relocates the directory, so the mutual recursion ends and the missing parent is never taken for the root |
| `FileSystem.UpdateKeepsApart` | src/fs.c:43-49 | extents stay pairwise apart when one file grows in place or moves |
| `FileSystem.FileUpdateKeepsTree` | src/fs.c:95-128 | a write to one file keeps the disk consistent with the tree and every other file's bytes and every listing as they were |
| `FileSystem.CreateKeepsTree` | src/fs.c:61-82 | so does a creation, even when the directory has to move |
| `FileSystem.FileTree.constructor` | src/fs.c:681-713 | fs_init: an empty disk becomes consistent with the tree of the empty root; from a disk consistent with a tree the kernel starts with that tree and writes nothing |
| `FileSystem.FileTree.Read` | src/fs.c:649-663 | as many of the file's bytes from the offset on as were asked for, or as there are |
| `FileSystem.FileTree.Write` | src/fs.c:629-647 | that file's bytes are spliced; no other file's bytes, no listing and no parent changes |
| `FileSystem.FileTree.Lookup` | src/fs.c:172-189 | finds a child exactly if the directory has one of that name, and fetches that child's header |
| `FileSystem.FileTree.List` | src/fs.c:156-170 | repeated readdir from 0 yields each child's name once, in order, and then 0 |
| `FileSystem.FileTree.Create` | src/fs.c:61-82 | the directory has one more child of that name, a new file is empty, nothing else changes |
| `ImageTree.EmitLength` | fsgen.js:121-128 | a subtree takes as many sectors as the index pass advances the pointer |
| `ImageTree.PaddedBytes` | fsgen.js:19-36 | contents are padded with zeros, by less than a sector |
| `ImageWriter.SizeToAlloc` | fsgen.js:7-17 | whole sectors for a size |
| `ImageWriter.Generator.Collect` | fsgen.js:93-103 | pushes the nodes of the tree in preorder |
| `ImageWriter.Generator.SizePass` | fsgen.js:107-119 | every node has the size of its content and the sectors for it |
| `ImageWriter.Generator.IndexPass` | fsgen.js:121-128 | indices are the running sum over the collected order, from 2 |
| `ImageWriter.Generator.ContentPass` | fsgen.js:130-149 | every directory holds the records of its children at the indices they got |
| `ImageWriter.Generator.HeaderPass` | fsgen.js:151-162 | every node's header sector |
| `ImageWriter.CollectedInOrder` | fsgen.js:164-176 | the nodes are in ascending order of index already, so the sort changes nothing |
| `ImageWriter.HeaderAtIndex` | fsgen.js:186-196 | in the file each node's header starts at its index times 512 |
| `ImageWriter.Generator.Generate` | fsgen.js:105-197 | the file written is the image of the tree |
| `ImageReader.ReadCh` | fscan.js:40-67 | the entries of a directory's bytes, and each way in which the scan fails or does not end |
| `ImageReader.Reader.ReadN` | fscan.js:69-113 | what the recursive scan returns and what it adds to the error list, on any byte string |
| `ImageVerdict.ScanExactly` | fscan.js:40-67 | told by the bytes: the children are the records from the table's start to exactly its end; and the exact conditions for a malformed table, an exception and the endless loop |
| `ImageVerdict.NodeCases` | fscan.js:22-38 | told by the header's bytes: which nodes are files, directories, at fault (with code 7, 4 or 1), or throw or hang; every node is one of these |
| `ImageVerdict.Verdict` | fscan.js:69-113 | for any image: every report is the fault of a node that is reached, with its code and path; if the scan ends without an exception every such fault is reported and the last one is returned; a tree is returned exactly if every node reached is valid with a well-formed table, and then nothing is reported |
| `ImageVerdict.TreeRead` | fscan.js:69-113 | the tree returned is the one the bytes mean: a file's bytes behind its header, a directory's names in order of first appearance, each with its last record's node |
| `ImageVerdict.AssignMeans` | fscan.js:94-104 | a name set twice keeps its place and leads to the later node |
| `ImageVerdict.JsSliceMeans` | fscan.js:24-24 | what the slices are for bounds in front of and behind the image |
| `ImageRoundTrip.ReadEmitted` | fscan.js:69-113 | reading where a subtree was laid out gives back that subtree and no error |
| `ImageRoundTrip.ReadImage` | fscan.js:69-113 | reading an image from its root pointer gives back the tree, for every tree that fits with distinct, non-empty, NUL-free names |
| `ImageRoundTrip.GenerateAndScan` | fsgen.js:105-197 | writer and reader as programs: the tree comes back, no error is listed, and the allocation pointer is the image's length in sectors |
| `ImageMount.ImageMounts` | fsgen.js:178-196 | on a disk that starts with the image the kernel finds each node's header and contents under its index, with the right allocation pointer and root |
| `ImageMount.MountedByName` | src/fs.c:172-189 | looking a child's name up in such a directory gives the sector at which that child is mounted |
| `ImageBoot.NodesSpread` | fsgen.js:121-128 | no two nodes of the tree share a sector |
| `ImageBoot.MountedTreeOk` | fsgen.js:178-196 | such a disk is consistent with the tree of inodes that stand for the nodes: links, listings, headers, extents, child counts |
| `ImageBoot.MountedAgrees` | fsgen.js:130-149 | every file of the tree has its bytes in the kernel's view of the files |
| `ImageBoot.Boot` | src/fs.c:681-713 | fs_init on such a disk: the file system's invariant holds, nothing is written, and every file has the bytes the image was built from |
| `KQueue.Queue.Push` | src/kqueue.c:19-34 | the value goes to the end of the queue's contents |
| `KQueue.Queue.Pop` | src/kqueue.c:36-47 | the first value is returned and leaves the contents |
| `KQueue.Queue.Peek` | src/kqueue.c:49-52 | the first value |
| `Scheduling.RunsAfterPosition` | src/task.c:26-51 | the task at position k of the run queue is the current one after exactly k switches, whatever sleeps and wakes meanwhile |
| `Scheduling.FirstComeFirstServed` | src/lock.c:7-27 | over any run, whoever signals: those served are the first that asked in it, as many as there were permits at first and signals since, and the others sleep in order |
| `Scheduling.PermitsAreBounded` | src/lock.c:7-27 | over any run in which only holders signal, at most the initial number of tasks hold a permit, nobody waits while one is left, and permits are given in the order asked for |
| `Scheduling.OnePlaceForEveryTask` | src/lock.c:12-27 | any number of semaphores over one run queue, over any run, whoever signals: a task is runnable once or asleep on one semaphore once, never both; the idle task is runnable; each semaphore serves first come, first served, as many as it has had permits and signals |
| `Scheduling.MachineIsFair` | src/task.c:26-51 | in such a system the task at position k of the run queue is the current one when k turns have ended, by the timer, by leaving or by falling asleep |
| `Scheduling.EachAsAlone` | src/lock.c:12-27 | in such a system each semaphore goes through its own waits and signals as if it were alone, so that what is proved of one over all runs holds for each |
| `Scheduling.HoldersBounded` | src/lock.c:12-27 | in such a system a semaphore that only holders signal never has more holders than permits, and nobody waits for it while one is left, whatever the others are used for |
| `PipeSteps.CStringWhole` | src/pipe.c:7-9 | a write is kept whole exactly if it contains no NUL |
| `Pipes.PipeSystem.constructor` | src/pipe.c:38-47 | a new pipe is empty, with one end each, and meets the invariant |
| `Pipes.PipeSystem.Preempt` | src/task.c:26-51 | the current task goes behind the others |
| `PipeSteps.NextSound` | src/pipe.c:3-79 | every step of readers, writers, the timer and others keeps the invariant: queues disjoint, sleepers and unpromised messages counted by the semaphore, messages C strings |
| `Pipes.PipeSystem.Sleep` | src/task.c:26-51 | with the idle task queued the early return is not taken, and the sleeper leaves the queue |
| `Pipes.PipeSystem.Arrive` | src/task.c:81-84 | the task goes to the end of the run queue |
| `Pipes.PipeSystem.Depart` | src/task.c:26-51 | a task that sleeps on something else, or exits, leaves the run queue |
| `Pipes.PipeSystem.Signal` | src/lock.c:20-27 | the count rises and the first sleeper, if any, becomes runnable |
| `Pipes.PipeSystem.Write` | src/pipe.c:3-12 | the message goes behind the others and wakes the first sleeper; without readers nothing happens; the invariant (messages, permits, bytes in equal bytes out plus bytes queued) holds again |
| `Pipes.PipeSystem.Read` | src/pipe.c:14-36 | blocks exactly when no message is free, else takes bytes off the first message; every byte is delivered once and in order |
| `Pipes.PipeSystem.Resume` | src/pipe.c:18-36 | a woken reader always finds a message |
| `Pipes.PipeSystem.Finish` | src/pipe.c:19-36 | a short read leaves the rest in front and signals, a long one removes the message |
| `Pipes.PipeSystem.Share` | src/descriptor.c:101-107 | the count of that kind of end goes up by one, and the other stays |
| `Pipes.PipeSystem.Close` | src/pipe.c:57-79 | the count of that kind goes down by one, and the other stays; the pipe dies, and its messages go, exactly when both are zero; no sleeper is woken, and if no writer is left each sleeps for good exactly if the readers in front of it leave nothing |
| `PipeRuns.SleepsExactly` | src/pipe.c:14-36 | in any state of the invariant without writers: a sleeping reader is in the queue after every run exactly if the woken readers and the sleepers before it, reading in turn what they asked for, use up all messages |
| `PipeRuns.EndsCounted` | src/pipe.c:57-79 | over any run the counts are what they were, plus the ends of that kind shared, less those closed |
| `PipeRuns.EndNeedsCloses` | src/pipe.c:16-17 | from a new pipe on the end of the file is reported only when as many write ends have been closed as there were, the first one included |
| `PipeRuns.StrandedForever` | src/pipe.c:14-36 | from a state without writers and bytes no run takes a reader out of the queue, and without messages none joins |
| `PipeRuns.AllWoken` | src/pipe.c:26-31 | some run wakes every sleeper exactly if something is left for the last one |
| `PipeRuns.SleepsWhateverAsked` | src/pipe.c:18-35 | the sleeper at position k sleeps for good whatever positive lengths were asked for exactly if the bytes left, less one for each message that has any, number at most k |
| `PipeRuns.EagerRun` | src/syscall.c:340-343 | along every run all lengths asked for stay positive |
| `PipeRuns.OneMessage` | src/pipe.c:18-35 | with one message left: exactly if those in front asked for all its bytes |
| `PipeRuns.Drained` | src/pipe.c:31-35 | if each woken reader asked for its whole message, every sleeper sleeps for good, in every run |
| `PipeRuns.LateReader` | src/pipe.c:16-18 | a reader that asks after the last writer has gone sleeps exactly if messages are left and all of them promised, and then for good exactly if those before it leave nothing |
| `PipeRuns.StrandedReachable` | src/pipe.c:14-79 | a reader asks, the only writer, another task, closes: the reader sleeps for good |
| `PipeRuns.LateReaderReachable` | src/pipe.c:14-79 | a run of a new pipe with two readers and a writer: the second reader asks after the last close, while a byte is queued, and sleeps for good |
| `Descriptors.FdTable.Add` | src/descriptor.c:15-34 | the descriptor takes the first closed slot or a new one, growing the array if need be, and all others stay |
| `Descriptors.FdTable.Rem` | src/descriptor.c:43-46 | that slot is closed and no other changes |
| `Descriptors.DescriptorSystem.constructor` | src/task.c:91-111 | the first task has exactly its two standard descriptors, open, and there are no pipes |
| `Descriptors.DescriptorSystem.Pipe` | src/syscall.c:531-546 | two descriptors for the two ends of a new pipe, nothing else changes, the counts are right again |
| `Descriptors.DescriptorSystem.MqlistOpen` | src/mq.c:11-46 | the queue of that name, revived if dead, or a new one in the first dead slot, or at the end if there is none; other live names keep their queues |
| `Descriptors.DescriptorSystem.MqOpen` | src/syscall.c:548-563 | two descriptors for a live queue of that name; counts and list are right again |
| `Descriptors.DescriptorSystem.Dup` | src/syscall.c:565-578 | a copy of an open descriptor in the first closed slot with its end counted, or an error and no change |
| `Descriptors.DescriptorSystem.Fork` | src/descriptor.c:48-65 | the child has every open descriptor of its parent at the same index and nothing else open; the counts are right again |
| `Descriptors.DescriptorSystem.Close` | src/descriptor.c:67-99 | that descriptor is closed; the pipe is freed exactly if it lost its last end and is no message queue |
| `Descriptors.DescriptorSystem.CloseAll` | src/task.c:180-190 | nothing of that task is open, no other task's table changes, the counts are right again |
| `Descriptors.ExistsWhileOpen` | src/descriptor.c:67-99 | a pipe exists exactly as long as something open names it |
| `Descriptors.EndsAreCounted` | src/descriptor.c:101-107 | the two counts of a pipe are the numbers of open read and write descriptors of all tasks |
| `Descriptors.OpenNamesLive` | src/descriptor.c:67-99 | nothing open names a freed or dead pipe |
| `Descriptors.NothingLeft` | src/task.c:180-190 | once everything is closed only dead message queues are left |
| `PathBuf.ParseNormal` | src/pathbuf.c:28-88 | parsing yields a normal path, absolute exactly for a leading slash |
| `PathBuf.ParseDot` | src/pathbuf.c:65-70 | a component `.` and an empty one change nothing, inside a path, at its end and alone |
| `PathBuf.ParseBack` | src/pathbuf.c:52-64 | `..` takes back the name in front of it, wherever the two stand |
| `PathBuf.ParseAbove` | src/pathbuf.c:52-64 | at the end of any path `..` drops the last name, climbs if there is none, and stays at the root |
| `PathBuf.ParseName` | src/pathbuf.c:71-81 | a name is one level more, below any path and alone |
| `PathBuf.ParsePrint` | src/pathbuf.c:189-207 | parsing undoes printing for the normal paths and for no others |
| `PathBuf.PrintSpells` | src/pathbuf.c:189-207 | what is printed: a slash in front for absolute paths, `../` for each climb, and every name followed by a slash |
| `PathBuf.ParseIsStable` | src/syscall.c:103-126 | printing a parsed path and parsing that changes nothing |
| `PathBuf.ParseJoin` | src/pathbuf.c:89-114 | for a relative t, parsing s, a slash and t is joining the two parsed exactly if s is not empty |
| `PathBuf.JoinAssociative` | src/pathbuf.c:89-114 | joining three paths is associative exactly if the second is relative, the third absolute, or the third names nothing |
| `PathBuf.JoinAbsolute` | src/pathbuf.c:91-94 | any string joined with a string that starts with a slash gives the root, which is the second path exactly if that is the root |
| `PathBuf.JoinNormal` | src/pathbuf.c:89-114 | the join of normal paths is normal; it is absolute and climbs nowhere if one of them is absolute |
| `PathBuf.ResolveAssociative` | src/syscall.c:48-62 | resolving step by step or at once is the same, for all paths |
| `PathBuf.ResolveNormal` | src/syscall.c:48-62 | against an absolute directory every path resolves to an absolute, normal one that climbs nowhere |
| `PathBuf.ResolveParse` | src/syscall.c:48-62 | resolving parsed strings is parsing the second if it starts with a slash and else the two with a slash between |
| `PathBuf.ResolvePath` | src/syscall.c:48-62 | the branch and the join compute that |
| `PathBuf.ChildParent` | src/pathbuf.c:158-187 | child and parent undo each other, and the child's path is the printed parent followed by the name |
| `PathBuf.PathbufParse` | src/pathbuf.c:28-88 | the loop over characters computes the walk over the components, of which ParseDot, ParseBack, ParseAbove and ParseName say what each does |
| `PathBuf.PathbufStringify` | src/pathbuf.c:189-207 | the loops compute the printed path |
| `PathBuf.PathbufJoin` | src/pathbuf.c:89-114 | the loops compute the join |
| `PathBuf.PathbufCmp` | src/pathbuf.c:131-145 | true exactly for equal paths |
| `UserHeap.AlignmentRounds` | user/alloc.c:7-23 | the size is rounded up to the least multiple exactly when the remainder is below 256 |
| `UserHeap.AlignmentWhole` | user/alloc.c:7-23 | for alignments in whole words up to 256, such as the one of malloc, sizes round to whole words |
| `UserHeap.Heap.constructor` | user/alloc.c:85-93 | an untouched heap holds nothing |
| `UserHeap.Heap.Expand` | user/alloc.c:364-367 | more untouched memory, and nothing that is held changes |
| `UserHeap.Heap.AddFree` | user/alloc.c:333-342 | the header is in front of the doubly linked list, which is otherwise unchanged |
| `UserHeap.Heap.RemoveFree` | user/alloc.c:344-362 | the header leaves the list from any place, and the links stay exact in both directions |
| `UserHeap.TiledSplit` | user/alloc.c:171-180 | cutting a block in two keeps the tiling |
| `UserHeap.TiledMerge` | user/alloc.c:150-155 | swallowing the next block keeps the tiling |
| `UserHeap.Heap.FindFirstFit` | user/alloc.c:133-148 | the first block of the free list that has room, or none exactly when none has |
| `UserHeap.Heap.TrySplit` | user/alloc.c:157-183 | the last block gives all it has left back to the untouched memory; another one makes a free block of it, in front of the list, if that can hold anything, and stays as it is otherwise; every other block stays |
| `UserHeap.Heap.MergeNext` | user/alloc.c:222-227 | blocks, list and holdings after a merge during the scan; the rest of the search is as it would have been |
| `BestFit.SearchLost` | user/alloc.c:185-236 | the result is no block any more exactly if no visit ends the scan and a visit swallows the smallest large block found before |
| `BestFit.LostInside` | user/alloc.c:206-226 | such a result lies inside a free block |
| `BestFit.SearchBest` | user/alloc.c:185-236 | otherwise the result is a free block with room, and no free block with room is smaller |
| `BestFit.SearchNothing` | user/alloc.c:185-236 | null exactly if no run of free blocks from a listed one would do, the last one grown as far as it can |
| `BestFit.UnthreatenedSafe` | user/alloc.c:206-226 | merges are harmless as long as no visited block, too short, can reach a block found large before |
| `BestFit.NoShortNeighbourSafe` | user/alloc.c:206-226 | so are searches in which no block shorter than the request has a free block behind it |
| `BestFit.DoomedLost` | user/alloc.c:198-226 | a free list of any length in which the remembered minimum is swallowed later makes the search fail |
| `BestFit.SearchCanFail` | user/alloc.c:198-226 | a heap of three blocks and a request that does |
| `UserHeap.SearchFails` | user/alloc.c:185-267 | five calls on a new heap that lead there, and a search that returns an address at which no block is |
| `BestFit.NothingStaysSafe` | user/alloc.c:185-236 | a search that finds nothing leaves blocks among which no further search for as much fails, however much the heap grows |
| `UserHeap.Heap.FindBestFit` | user/alloc.c:185-236 | terminates although it merges and unlinks blocks; keeps tiling, free list and all that is held; computes that search, so null, best fit and failure are exactly as above |
| `UserHeap.Heap.AllocFirstFit` | user/alloc.c:243-267 | null exactly for no bytes or no room; else one more block is held, with the bytes asked for and at most a header more, and all others as before; it is the first of the free list with room, or the next untouched memory if none has room |
| `UserHeap.Heap.AllocBestFit` | user/alloc.c:243-267 | for BEST_FIT, wherever the search does not fail: null exactly for no bytes or if no run of free blocks and no room behind the last block would do; else one more block is held, with the bytes asked for and at most a header more, and all others as before; it is the block the search found, or exactly the next untouched memory if there is none |
| `UserHeap.Heap.Malloc` | user/stdlib.c:56-67 | with malloc's alignment: ends, and is null exactly for no bytes; else one more block is held, with at most a header more than asked for, and all others as before, however often the heap had to grow; the heap grows by as much as the next step has risen |
| `UserHeap.Heap.Dealloc` | user/alloc.c:326-331 | exactly that block is held no longer, and it is in front of the free list with the size it had |
| `UserHeap.LiveApart` | user/alloc.c:243-267 | what is held does not overlap and lies in the touched memory |
| `Bitset.Bits.Get` | src/bitset.c:13-16 | membership |
| `Bitset.Bits.Add` | src/bitset.c:18-21 | the set gains exactly that member |
| `Bitset.Bits.Clear` | src/bitset.c:18-21 | with value 0 the set stays as it is |
| `Bitset.Bits.FirstUnset` | src/bitset.c:23-41 | the least number not in the set, -1 exactly if there is none |
| `Paging.Pages.constructor` | src/paging.c:71-84 | after the mapping loop page p of the kernel has frame p, is present, read-only and open to the user, every other page is empty, and exactly these frames are taken |
| `Paging.Pages.AllocFrame` | src/paging.c:15-27 | the lowest free frame, and no other is taken |
| `Paging.Pages.GetPage` | src/paging.c:39-59 | the table of a page, made empty exactly if there was none |
| `Paging.Pages.TableClone` | src/paging.c:116-135 | the copy maps the same entries to fresh, distinct frames with the same contents; frames taken before keep theirs |
| `Paging.Pages.DirectoryClone` | src/paging.c:92-114 | page by page: a kernel page of the copy is the same entry; another is mapped exactly if the original's is, with the same rights, to a frame nobody had, with the same contents; all pages of all other spaces are as before; the invariant holds again |
| `Paging.Pages.MapPage` | src/syscall.c:510-524 | a page without a frame gets a fresh writable one, and no other page of any space changes |
| `Paging.Pages.Sbrk` | src/syscall.c:510-524 | every page the loop visits keeps its frame or gets a fresh writable one, and no other page changes |
| `Paging.SbrkCovers` | src/syscall.c:512-524 | the visited pages are all pages of the new memory exactly when the two remainders fit one page |
| `Paging.UserPagesApart` | src/paging.c:92-135 | no user page of any space shares a frame with any other page |
| `Paging.ForkedPage` | src/paging.c:97-131 | what the copied tables mean for a page of the two spaces: rights, frame and contents |
| `Paging.StoreSeenOnce` | src/paging.c:92-135 | a store to a user page changes what is seen at that page of that space and at no page of any space besides |
| `ArgVector.PlaceArgsVector` | src/syscall.c:415-444 | the three words at the 64-byte aligned stack pointer end at or before the pointers, less than 64 bytes below them; pointer i leads to argument i; no byte outside changes |
| `ArgVector.LayoutTight` | src/syscall.c:424-436 | strings and pointers lie in order and without gaps, the strings up to the old stack pointer and the pointers up to the strings |
| `ArgVector.ArgumentsReadBack` | src/syscall.c:415-444 | the program reads argument i as a C string through argv[i]; strings are apart from each other and above the pointers |

## Left out

- AllocAligned: a chosen hole whose header lies 1 to 9 bytes in front of its aligned place. The source then adds these bytes to the block in front without taking them from this one, so that the blocks no longer tile the region; TakeAndShove and ShovedLoses say what becomes of the chain when there is a block in front. Whether the check notices depends on the bytes it takes for the next header.
- HeapAlloc: assumes room in the hole index and fewer than 1024 live ranges, at which the recorder panics; it chooses the first listed hole with room, which is a smallest one as long as the index ascends; a merge makes a listed hole larger where it stands, and nothing is claimed about the order after that.
- OrdList: the source's removal also reads the slot behind the last element; that slot is taken to exist, so the index is never full when an element leaves.
- Heap: the hole index is an array of its own beside RAM, with a quarter of its size in bytes as its capacity.
- AllocBestFit, Malloc: requests for which the search does not fail; what the source does with the address inside a free block that a failing search returns (it takes the bytes there for a header) is not modelled.
- AllocFirstFit: sizes that round to whole words, as they do for the alignments that callers ask for (AlignmentWhole); Malloc takes sbrk to succeed; headers are records kept by address, not bytes.
- InodeRead: starts at an offset of at most the size; beyond it the source's count wraps around and it copies what lies behind its buffer. The same goes for BoundsMeaning, WriteData, InodeWrite, FileTree.Read and FileTree.Write.
- InodeWrite: on disks of at most 4 GiB with sectors left; bytes of a sector buffer that the source leaves uninitialised, and the fields of a header sector behind the first six, are written as zeros.
- FileTree.constructor: empty disks and disks that hold a tree; on one with an allocation pointer but no valid root header fs_init makes a root at the pointer without pointing the root index there.
- Write: of files; the source does not keep a caller from writing into a directory's records.
- InodeChildSet: additions and relocations; a removal or a renaming that makes the records shorter leaves the directory's size as it was, so that bytes of old records stay behind the new ones.
- Create: for a name of at most 256 bytes that the directory does not have yet, as its caller fs_open sees to; a longer one panics, and one that is there would be listed twice.
- FileTree: deletion, truncation and renaming of inodes, the inode cache with its reference counts, and locks; operations are serialised, and a new inode's object is passed in.
- Boot: for names of at most 256 bytes, the kernel's limit, which the image builder does not check; the inodes behind the root are passed in as what lookups fetch.
- EditName: as in the source a name of index 0 counts as absent.
- ReadN: the depth of the JavaScript stack is a parameter; objects are ordered lists of named children, so that names that JavaScript treats specially (integers, `__proto__`) are not.
- PipeSystem: one pipe without a name and its semaphore (a message queue that is opened again would get a new writer); tasks that sleep elsewhere are outside the run queue, and which task holds which end is left open (any number of semaphores, without the pipes, share it in Scheduling); messages are sequences of bytes instead of pointers in the linked queue, which is modelled by itself in KQueue.
- CStringWhole: bytes behind a NUL in a write are lost, as in the source.
- DescriptorSystem: tables are values indexed by process, and the pointer that kmalloc returns is a parameter that is not in use; files and directories behind descriptors, message contents and waiting for children are not modelled. FdTable shows the growing array.
- Pages: kmalloc_a is a counter of unused addresses, frames hold one value each, physical addresses of tables are not modelled, and a frame is taken to be left when one is needed, by AllocFrame, TableClone, DirectoryClone, MapPage and Sbrk; with none left the source sets bit 2^32 - 1, which is outside its bitmap.
- MapPage: of pages in slots that the kernel's directory does not use, and Sbrk without wrap-around of the break; nothing in the source keeps a program from either.
- PlaceArgsVector: the argument strings are values outside the stack that is written, and the stack is large enough.
- krwlock: its release marks the lock free before the woken task runs, so mutual exclusion is no invariant of its interleavings; nothing is claimed.
- heap_realloc, kqueue_clear, ELF loading, drivers, interrupts, the terminal and the user programs are not part of this model.
