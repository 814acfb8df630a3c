# Puppy: a verified model of the kernel's containers, allocators, pipes, paths, loader and shell

Puppy is a small 32-bit operating system: a C++ kernel, a newlib port and a set of user
programs. This project models the parts of it that carry algorithms and state, in Dafny, and
proves what those parts promise. Code that updates objects in place is modelled by classes
and methods over arrays and linked nodes. Each such method is proved against a function on
values, and the theorems about runs, round trips and refinement are about those functions.

| file | what it models |
|---|---|
| `words.dfy`, `bits.dfy`, `cyclic.dfy` | 32-bit words, bits of bytes, positions on a circle |
| `slist.dfy` | the kernel's singly linked list |
| `intervals.dfy` | the sorted list of address ranges, its first-fit search, its runs |
| `memmgr.dfy` | the regions of a process's address space |
| `hash.dfy`, `keyedstore.dfy` | the hash table and the reference-counted store of named objects |
| `vector.dfy`, `pqueue.dfy` | the growable vector and the binary heap of the sleep queue |
| `pidbitmap.dfy`, `handletable.dfy` | the process-identifier and file-descriptor allocators |
| `ringbuffer.dfy` | the ring buffer of the kernel log |
| `fifo.dfy`, `pipe.dfy` | pipes: the byte queue and the protocol of sleeping and waking around it |
| `msgqueue.dfy`, `msgqueuefs.dfy` | message queues, and the files that keep them alive |
| `paths.dfy` | the path normaliser of the C library |
| `relocation.dfy` | dynamic-library relocation |
| `initrd.dfy` | the initial ramdisk: its generator and its reader |
| `numerals.dfy` | printing numbers into a bounded buffer |
| `shell.dfy`, `shelltext.dfy` | the shell's parser, printer and lexer |

Where a promise turned out not to hold of the code, the model keeps the code as it is, shows an
input on which the promise fails, and states exactly when it holds:

- The first-fit search adds in 32 bits, and with two or more live ranges it never looks below the
  first. In the space it does search it keeps its promise exactly when the sum that decides it does
  not wrap (`Intervals.FindFreePromise`); otherwise it hands out a range that ends before it begins.
  Over all of [0, max] it is lowest and complete exactly when, besides, the gap below the first range
  is too small for the request (`Intervals.FindFreeFullPromise`, with `LeadingGapMissed` as a case).
- A comment promises that rounding to pages and page-aligned initial mappings are enough to map only
  whole pages. They are: it takes no more than that all recorded regions end with a page, which the
  loader's do even where they start inside one (`MemoryRegions.SearchAligned`, `AlignedStep`). Every
  request of up to a gigabyte is granted whole pages of user space, whether recorded regions overlap
  or not (`FramedMap`, `ModestRun`). That it overlaps nothing takes a sound space, and there are two
  ways to lose that: a request whose sum wraps (`HugeRequestWraps`), and a recorded region that
  overlaps a live one. The loader does the latter with its guard page behind every program that does
  not fill its last page (`GuardPageExactly`), and then a grant can lie inside the program
  (`GuardPageOverlaps`). While a space is sound, no address is mapped twice (`MappedApart`).
- The comparator of the sleep queue answers -1 both ways on a tie, so it is no total preorder. The
  heap needs less of a comparator, and this one has it (`PriorityQueues.SleepCompareQualifies`).
- The file-descriptor template computes `_i + idx0` in 32 bits. It fails on full tables only, exactly
  from the starting points that lose no carry or lose whole turns
  (`Handletables.FailsOnlyWhenFull`). The kernel's one table has 64 slots, and tables whose size is a
  power of two have no other starting points (`PowerOfTwoNeverSkips`); a table of 24 has
  (`RoomNotFound`).
- A 64-byte file name in the ramdisk has no terminator. The kernel reads it back exactly when the
  low byte of the file's size is zero (`InitialRamdisk.NameRecovered`, `FullNameLost`).
- Reference counts are right exactly while fewer than 2^32 references to a name are outstanding
  (`KeyedStores.CountsReferences`); with 2^32 + 1 of them a single release frees the object
  (`FreedWhileHeld`).
- Closing the last writer of a message queue wakes nobody. Sleeping readers keep a reason to sleep
  exactly over the runs without such a close (`MessageQueues.JustifiedRun`, `ReaderStranded`),
  although the code says there is no point in waiting for a writer that is gone. Pipes do wake their
  readers (`Pipes.NoLostWakeup`).
- Opening a message queue for neither reading nor writing takes a reference that no file gives
  back. A close panics exactly on the last file of such a queue (`MessageQueueFiles.SafeRun`,
  `UndirectedOpenPanics`).
- A write to a full pipe nobody reads reports bytes it did not store (`Pipes.ReportedIsStored`,
  `DiscardedButReported`).
- The path normaliser returns an absolute path without dots as it stands, doubled slashes and all.
  Its result is the one normal path of the place named exactly for paths with a dot, for the root and
  for tidy paths (`Paths.CanonicalExactly`, `SlashesKept`). Every absolute path of fewer than 255
  characters resolves (`ShortPathsResolve`); a longer one with dots does unless it has 255 entries or
  a result of 255 characters (`NullExactly`), so 255 times `/..` is refused although it names the root
  (`TooManyEntries`).
- Relocation does not look at whether a symbol lies in the library. It succeeds all the same, and the
  word then leads to the null address (`Relocations.NullSymbols`, `NullSymbolAccepted`).
- A list assigned to itself ends up empty (`SinglyLinkedList.SList.Assign`).
- A printed shell command without its terminator parses back exactly when it ends in a command
  that is neither empty nor in the background (`Shell.BareRoundTrip`). Its text comes back as the
  same command exactly when all its words are made of argument characters, as long as no
  variable stands for a text with a `$` in it (`ShellText.TextRoundTrip`, `BlankSplits`,
  `MarkComesBack`).

## Model

| member | source | states |
|---|---|---|
| `SinglyLinkedList.DeleteUndoesInsert` | kernel/include/libc/slist.h:139-170 | removing the position just inserted gives the old list back |
| `SinglyLinkedList.RemoveFirstAt` | kernel/include/libc/slist.h:172-178 | removing by value is deleting the first position that holds the value |
| `SinglyLinkedList.RemoveFirstKeepsOthers` | kernel/include/libc/slist.h:180-182 | one removal leaves the elements other than the value, in order, as they were |
| `SinglyLinkedList.SList.constructor` | kernel/include/libc/slist.h:43 | a new list is the empty sequence |
| `SinglyLinkedList.SList.Empty` | kernel/include/libc/slist.h:55 | the stored size says whether the sequence is empty |
| `SinglyLinkedList.SList.Count` | kernel/include/libc/slist.h:57 | the stored size is the length of the chain |
| `SinglyLinkedList.SList.AddHead` | kernel/include/libc/slist.h:59-68 | the item is put in front of the sequence; the chain stays distinct, complete and ends in the tail |
| `SinglyLinkedList.SList.Add` | kernel/include/libc/slist.h:70-79 | the item is put behind the sequence |
| `SinglyLinkedList.SList.Begin` | kernel/include/libc/slist.h:123 | the iterator stands at position 0 |
| `SinglyLinkedList.SList.End` | kernel/include/libc/slist.h:124 | the iterator stands behind the last position, also on an empty list whose tail is stale |
| `SinglyLinkedList.SList.Next` | kernel/include/libc/slist.h:85-88 | the iterator moves one position on |
| `SinglyLinkedList.SList.Item` | kernel/include/libc/slist.h:83 | dereferencing gives the item of the position |
| `SinglyLinkedList.SList.Insert` | kernel/include/libc/slist.h:139-150 | copying the item into a new node puts the new item just before the iterator, and at the end for the end iterator |
| `SinglyLinkedList.SList.InsertBefore` | kernel/include/libc/slist.h:140-146 | the item moves to a new node behind, and the tail with it; the new item takes its place |
| `SinglyLinkedList.SList.LinkBehind` | kernel/include/libc/slist.h:143-146 | a second node with the same item is linked right behind a node, and the tail moves with it |
| `SinglyLinkedList.SList.SetItem` | kernel/include/libc/slist.h:144 | one position gets a new item, all others stay |
| `SinglyLinkedList.SList.Remove` | kernel/include/libc/slist.h:152-170 | exactly the iterator's position is deleted, head, middle or tail |
| `SinglyLinkedList.SList.Predecessor` | kernel/include/libc/slist.h:158-159 | the loop ends at the node in front of the iterator |
| `SinglyLinkedList.SList.RemoveHead` | kernel/include/libc/slist.h:154-156 | position 0 is deleted, also when it is the only one |
| `SinglyLinkedList.SList.RemoveAfter` | kernel/include/libc/slist.h:160-166 | the position behind a node is deleted, and the tail moves back if it was the last |
| `SinglyLinkedList.SList.RemoveItem` | kernel/include/libc/slist.h:172-178 | the first equal item is deleted; the answer says whether there was one |
| `SinglyLinkedList.SList.RemoveAll` | kernel/include/libc/slist.h:180-182 | all equal items are deleted and the others keep their order; the loop ends |
| `SinglyLinkedList.SList.Top` | kernel/include/libc/slist.h:184-186 | the first item |
| `SinglyLinkedList.SList.Back` | kernel/include/libc/slist.h:188-190 | the last item |
| `SinglyLinkedList.SList.Pop` | kernel/include/libc/slist.h:192-199 | the first item is returned and taken off |
| `SinglyLinkedList.SList.Clear` | kernel/include/libc/slist.h:129-137 | nothing is left |
| `SinglyLinkedList.SList.Assign` | kernel/include/libc/slist.h:49-53 | the list becomes a copy of another, which is unchanged; a list assigned to itself becomes empty |
| `SinglyLinkedList.SList.Clone` | kernel/include/libc/slist.h:34-41 | an empty list becomes a copy of another |
| `Intervals.IntersectsIsOverlap` | kernel/src/libc/interval.cpp:37-43 | the endpoint tests decide whether two ranges share an address |
| `Intervals.InsertedMembers` | kernel/include/libc/intervals.h:38-63 | insertion adds the one range and loses none, overlapping or not |
| `Intervals.InsertedWellFormed` | kernel/include/libc/intervals.h:38-63 | insertion keeps the list sorted, disjoint and in bounds if and only if the range is proper and overlaps nothing |
| `Intervals.RemovedWellFormed` | kernel/include/libc/intervals.h:133-136 | removal keeps the list sorted, disjoint and in bounds |
| `Intervals.RemovedMembers` | kernel/include/libc/intervals.h:133-136 | removal takes out the one range and nothing else |
| `Intervals.NeighbourTest` | kernel/include/libc/intervals.h:109 | the test on two neighbours passes if and only if the gap fits or the 32-bit sum wrapped |
| `Intervals.WrapBreaksPromise` | kernel/include/libc/intervals.h:100-113 | a wrapped sum with no fitting gap hands out a range that ends before it begins |
| `Intervals.FindFreePromise` | kernel/include/libc/intervals.h:77-122 | the answer has the size asked for, overlaps nothing, is the lowest in the space searched, and fails only if that space has none, if and only if the deciding sum does not wrap |
| `Intervals.FindFreeFullPromise` | kernel/include/libc/intervals.h:77-122 | over all of [0, max] the answer is the lowest grant, and no answer means there is none, if and only if the deciding sum does not wrap and no leading gap that fits is skipped |
| `Intervals.LeadingGapMissed` | kernel/include/libc/intervals.h:100-121 | a case of it: a free leading gap with two live ranges, and no answer |
| `Intervals.StepWellFormed` | kernel/include/libc/intervals.h:38-136 | one operation keeps the invariant if and only if its caller's condition holds |
| `Intervals.RunTheorem` | kernel/include/libc/intervals.h:38-136 | over every run the list stays sorted, disjoint and in bounds if and only if every operation meets its condition, and then every range handed out has exactly its size and overlaps no live range |
| `Intervals.StepRecords` | kernel/include/libc/intervals.h:38-136 | as multisets: an allocation adds the range it hands out, an insertion the range given, a deletion takes one range off, and no other range is touched |
| `Intervals.StaysLive` | kernel/include/libc/intervals.h:38-136 | over every run, a live range stays in the list until it is deleted |
| `Intervals.GrantsDisjoint` | kernel/include/libc/intervals.h:124-131 | over every allowed run, two ranges handed out at different times share no address unless the first was deleted in between |
| `Intervals.TotalInserted` | kernel/include/libc/intervals.h:38-63 | insertion adds the range's length to the total |
| `Intervals.TotalRemoved` | kernel/include/libc/intervals.h:133-136 | removal takes the range's length off the total, if the range was live |
| `Intervals.TotalBounded` | kernel/include/libc/intervals.h:38-136 | the live ranges never add up to more than the space above the first |
| `Intervals.IntervalList.Add` | kernel/include/libc/intervals.h:38-63 | the three cases of the code are one sorted insertion |
| `Intervals.IntervalList.FirstNotBefore` | kernel/include/libc/intervals.h:53-61 | the loop stops at the insertion point |
| `Intervals.IntervalList.Lookup` | kernel/include/libc/intervals.h:65-75 | the answer is a live range that holds the address; on a sorted disjoint list the early exit misses none |
| `Intervals.IntervalList.Search` | kernel/include/libc/intervals.h:77-122 | the search in place computes the specified answer |
| `Intervals.IntervalList.SearchGaps` | kernel/include/libc/intervals.h:100-113 | the two-iterator loop computes the scan over neighbours |
| `Intervals.IntervalList.AllocateRange` | kernel/include/libc/intervals.h:124-131 | the range handed out is added to the list and nothing is lost from it; without one nothing changes |
| `Intervals.IntervalList.Del` | kernel/include/libc/intervals.h:133-136 | the range is removed; the answer says whether it was live |
| `Intervals.Replay` | kernel/include/libc/intervals.h:38-136 | an object taken through any run hands out what the run says and holds the list it leads to |
| `MemoryRegions.ToPage` | kernel/src/mm/memmgr.cpp:57-61 | the result is a whole number of pages, the least that suffices, or 0 when rounding up wraps |
| `MemoryRegions.SearchAligned` | kernel/src/mm/memmgr.cpp:53-61 | page-sized requests among regions that end with a page find whole pages only |
| `MemoryRegions.AlignedStep` | kernel/src/mm/memmgr.cpp:53-61 | that regions end with a page, and the running total, survive every request, even one whose search wrapped; so does full alignment |
| `MemoryRegions.SoundStep` | kernel/src/mm/memmgr.cpp:119-217 | a request keeps the address space sound if and only if it meets its condition |
| `MemoryRegions.ProcessRun` | kernel/src/mm/memmgr.cpp:119-217 | over every run, regions stay disjoint, end with a page and are exactly accounted for, and the zero page and the kernel stay reserved, if and only if every request meets its condition |
| `MemoryRegions.MapStaysInUserSpace` | kernel/src/mm/memmgr.cpp:45-51 | in a sound space a mapped region is made of whole pages between the zero page and the kernel and exceeds the request by less than a page |
| `MemoryRegions.GigabyteIsSane` | kernel/src/mm/memmgr.cpp:119-128 | with the zero page first and the kernel last, a request of up to 1 GiB never wraps, whatever overlaps between them |
| `MemoryRegions.SoundIsFramed` | kernel/src/mm/memmgr.cpp:45-51 | in a sound space the zero page is first, the kernel last and all else between them |
| `MemoryRegions.FramedMap` | kernel/src/mm/memmgr.cpp:119-152 | in any framed space a request of up to 1 GiB gets whole pages of user space, as many as it needs |
| `MemoryRegions.OrderlyStep` | kernel/src/mm/memmgr.cpp:119-217 | a modest request keeps the space framed, page by page and accounted for, overlapping or not |
| `MemoryRegions.ModestRun` | kernel/src/mm/memmgr.cpp:119-217 | over every run of requests up to 1 GiB and recorded regions in user space that end with a page, the space stays so |
| `MemoryRegions.SoundAtEveryMoment` | kernel/src/mm/memmgr.cpp:119-217 | a run that is sound throughout leads to a sound space at every moment |
| `MemoryRegions.NextRegions` | kernel/src/mm/memmgr.cpp:139-217 | as multisets: a mapped or recorded region becomes live, an unmapped one is forgotten once, and no other region is touched |
| `MemoryRegions.StaysMapped` | kernel/src/mm/memmgr.cpp:196-210 | over every run, a live region stays live until it is unmapped |
| `MemoryRegions.MappedApart` | kernel/src/mm/memmgr.cpp:139-152 | over every sound run, two mapped regions share no address unless the first was unmapped in between |
| `MemoryRegions.LoadSegment` | kernel/src/process/loadelf.cpp:84-139 | the page loop records from the segment's first byte to the end of its last page, and fails exactly when it runs into the kernel |
| `MemoryRegions.EmptySegmentIsInsane` | kernel/src/process/loadelf.cpp:87-139 | a segment of no bytes is recorded as an inverted range, which no sound space can take |
| `MemoryRegions.GuardPageExactly` | kernel/src/process/loadelf.cpp:200-202 | the guard page behind the highest segment is sound if and only if that segment ends on a page boundary |
| `MemoryRegions.GuardPageOverlaps` | kernel/src/process/loadelf.cpp:200-205 | a guard page in front of its own segment makes a small request be granted inside the program |
| `MemoryRegions.HugeRequestWraps` | kernel/src/mm/memmgr.cpp:119-128 | a larger request can be answered with an inverted range |
| `MemoryRegions.MemoryManager.constructor` | kernel/src/mm/memmgr.cpp:45-51 | the zero page and the kernel are reserved in a fresh list and a sound space results |
| `MemoryRegions.MemoryManager.FindAndMapRegion` | kernel/src/mm/memmgr.cpp:139-152 | finds, records and counts a region; answers {0,0} without one |
| `MemoryRegions.MemoryManager.AddRegion` | kernel/src/mm/memmgr.cpp:212-217 | records and counts a region |
| `MemoryRegions.MemoryManager.RemoveRegion` | kernel/src/mm/memmgr.cpp:196-210 | forgets a live region and takes it off the total; leaves all else alone |
| `MemoryRegions.Replay` | kernel/src/mm/memmgr.cpp:45-217 | an object taken through any run of requests gives the run's answers and holds its regions and total |
| `HashTable.FindErase` | kernel/include/libc/hash.h:66-79 | in one bucket, erasing a key hides that key and no other |
| `HashTable.InsertedOk` | kernel/include/libc/hash.h:35-49 | after insertion every key still sits once, and in its own bucket |
| `HashTable.ErasedOk` | kernel/include/libc/hash.h:66-79 | after erasure every key still sits once, and in its own bucket |
| `HashTable.KeySitsOnce` | kernel/include/libc/hash.h:35-49 | two entries with equal keys are the same entry, in the bucket of the key's index |
| `HashTable.LookupInserted` | kernel/include/libc/hash.h:35-64 | insertion is map update for every key, for every equality compatible with the index |
| `HashTable.LookupErased` | kernel/include/libc/hash.h:51-79 | erasure is map removal for every key |
| `HashTable.Locate` | kernel/include/libc/hash.h:69-76 | the walk stops at the first entry of the key, or at the end |
| `HashTable.EraseIn` | kernel/include/libc/hash.h:69-78 | one bucket loses its first entry of the key and says whether it had one |
| `HashTable.FindIn` | kernel/include/libc/hash.h:54-63 | one bucket's first value for the key |
| `HashTable.Hash.constructor` | kernel/include/libc/hash.h:33 | all buckets are empty |
| `HashTable.Hash.FindKey` | kernel/include/libc/hash.h:51-64 | the lookup of the table as a value |
| `HashTable.Hash.Insert` | kernel/include/libc/hash.h:35-49 | the table in place becomes the inserted table |
| `HashTable.Hash.EraseKey` | kernel/include/libc/hash.h:66-79 | the table in place becomes the erased table; the answer says whether the key was there |
| `HashTable.Hash.Clear` | kernel/include/libc/hash.h:81-85 | all buckets are empty |
| `HashTable.Hash.ClearBucket` | kernel/include/libc/hash.h:82-84 | one bucket becomes empty, the others stay |
| `KeyedStores.CountsReferences` | kernel/include/libc/keyedstore.h:55-91 | throughout a run a key is live exactly while references are outstanding and its count is their number, if and only if these never reach 2^32 |
| `KeyedStores.HoardHeld` | kernel/include/libc/keyedstore.h:62-78 | after one make and n gets, n + 1 references are outstanding and the count is n + 1 modulo 2^32 |
| `KeyedStores.FreedWhileHeld` | kernel/include/libc/keyedstore.h:80-91 | after 2^32 gets one release frees the object under 2^32 other references |
| `KeyedStores.LastReleaseFrees` | kernel/include/libc/keyedstore.h:80-91 | release answers true exactly on the last outstanding reference, and the key is gone |
| `KeyedStores.AcquireAnswers` | kernel/include/libc/keyedstore.h:55-91 | told from the references outstanding: a make succeeds exactly with none, a get exactly with some, a get-or-make always; what is made is what is handed out |
| `KeyedStores.SameObject` | kernel/include/libc/keyedstore.h:56-78 | all who acquire a key while it stays live get the same object |
| `KeyedStores.ReleaseStep` | kernel/include/libc/keyedstore.h:80-91 | storing the lower count and then erasing is one release |
| `KeyedStores.Index` | kernel/include/libc/keyedstore.h:30-40 | the loop that wraps at every step computes the sum of the signed characters weighted by powers of 31, modulo 2^32 |
| `KeyedStores.WeightedSnoc` | kernel/include/libc/keyedstore.h:36-38 | one more character multiplies the weighted sum by 31 and adds the character |
| `KeyedStores.KeyedStore.constructor` | kernel/include/libc/keyedstore.h:53 | an empty store on a fresh table |
| `KeyedStores.KeyedStore.Find` | kernel/include/libc/keyedstore.h:63-64 | a lookup finds the cell of a live key, and none otherwise |
| `KeyedStores.KeyedStore.SetCount` | kernel/include/libc/keyedstore.h:74 | a count stored in the shared cell changes the one key's count |
| `KeyedStores.KeyedStore.GetOrNull` | kernel/include/libc/keyedstore.h:71-78 | the store in place takes the acquire step through a shared cell |
| `KeyedStores.KeyedStore.MakeOrNull` | kernel/include/libc/keyedstore.h:62-69 | the store in place takes the make step |
| `KeyedStores.KeyedStore.GetOrMake` | kernel/include/libc/keyedstore.h:56-59 | the store in place takes the combined step |
| `KeyedStores.KeyedStore.Release` | kernel/include/libc/keyedstore.h:80-91 | the store in place takes the release step |
| `KeyedStores.KeyedStore.Forget` | kernel/include/libc/keyedstore.h:84-86 | the key leaves the store, all others stay |
| `KeyedStores.KeyedStore.GiveBack` | kernel/include/libc/keyedstore.h:83-89 | the count of a live key is lowered, and the key forgotten at zero |
| `KeyedStores.Replay` | kernel/include/libc/keyedstore.h:55-91 | an object taken through any run holds what the run leads to |
| `Vectors.AmortisedRun` | kernel/include/libc/vec.h:34-39 | over every run the capacity is one less than a power of two, below twice the largest size, and bounds the copies exactly |
| `Vectors.CopiesBounded` | kernel/include/libc/vec.h:159-165 | over every run, fewer than two copies for each element ever pushed |
| `Vectors.RejectedDelete` | kernel/include/libc/vec.h:113-124 | erasing one accepted element does not change what will be left |
| `Vectors.Vector.constructor` | kernel/include/libc/vec.h:32 | no elements, no capacity |
| `Vectors.Vector.Realloc` | kernel/include/libc/vec.h:159-165 | the elements move to a new array; the copies are counted |
| `Vectors.Vector.PushBack` | kernel/include/libc/vec.h:34-39 | the element is appended; capacity and copies follow the growth rule |
| `Vectors.Vector.PopBack` | kernel/include/libc/vec.h:126-128 | the last element goes; an empty vector stays empty |
| `Vectors.Vector.Erase` | kernel/include/libc/vec.h:90-96 | exactly one position is deleted |
| `Vectors.Vector.EraseAll` | kernel/include/libc/vec.h:113-124 | the loop that starts over ends and leaves the rejected elements in order |
| `Vectors.EraseValue` | kernel/include/libc/vec.h:98-107 | the first equal element is deleted; the answer says whether there was one |
| `Vectors.EraseAllValues` | kernel/include/libc/vec.h:109-111 | all equal elements are deleted, the others keep their order |
| `PriorityQueues.TotalPreorderQualifies` | kernel/include/libc/pqueue.h:44-70 | every total preorder is a comparator the heap works with |
| `PriorityQueues.SleepCompareQualifies` | kernel/src/process/manager.cpp:144-146 | so is the kernel's, which is no preorder; under it the earlier time stands higher |
| `PriorityQueues.UpSwap` | kernel/include/libc/pqueue.h:63-70 | one exchange on the way up moves the only disorder to the parent |
| `PriorityQueues.DownSwap` | kernel/include/libc/pqueue.h:44-61 | one exchange with the greater child moves the only disorder down |
| `PriorityQueues.TopIsGreatest` | kernel/include/libc/pqueue.h:84-86 | no element exceeds the top of a heap |
| `PriorityQueues.DrainSorts` | kernel/include/libc/pqueue.h:88-94 | a sequence of successive greatest elements is a sorted permutation of what was held |
| `PriorityQueues.PQueue.Up` | kernel/include/libc/pqueue.h:63-70 | restores the heap order, keeps the multiset, terminates |
| `PriorityQueues.PQueue.SwapItems` | kernel/include/libc/pqueue.h:67 | two positions are exchanged, all others stay |
| `PriorityQueues.PQueue.Down` | kernel/include/libc/pqueue.h:44-61 | restores the heap order, keeps the multiset, terminates |
| `PriorityQueues.PQueue.LargestOf` | kernel/include/libc/pqueue.h:48-55 | neither child exceeds the position chosen |
| `PriorityQueues.PQueue.Insert` | kernel/include/libc/pqueue.h:79-82 | the heap order holds and the multiset gains the element; the array is the same or new |
| `PriorityQueues.PQueue.TakeTop` | kernel/include/libc/pqueue.h:89-91 | the top is taken off and the last item put in its place |
| `PriorityQueues.PQueue.Pop` | kernel/include/libc/pqueue.h:88-94 | a greatest element is returned and taken off; the heap order holds in the same array |
| `PriorityQueues.PQueue.Drain` | kernel/include/libc/pqueue.h:75-94 | popping until empty gives successive greatest elements and leaves nothing |
| `PriorityQueues.InsertAndDrain` | kernel/include/libc/pqueue.h:79-94 | whatever is inserted in whatever order comes out as a permutation sorted greatest first |
| `PriorityQueues.WakeOrder` | kernel/src/process/manager.cpp:144-152 | sleepers come out in the order of their times, whatever the order in which they went in |
| `PriorityQueues.NextDue` | kernel/src/tasks/awaker.cpp:41-59 | looking at the top alone decides whether anyone is due |
| `ProcessBitmaps.NextIsFree` | kernel/include/process/bitmap.h:36-47 | the search returns a free identifier and panics only if all are reserved |
| `ProcessBitmaps.ReservedIsInUse` | kernel/include/process/bitmap.h:36-57 | over every run, an identifier is reserved exactly if it was returned or reserved and not freed since, told from requests and answers alone |
| `ProcessBitmaps.SearchAnswers` | kernel/include/process/bitmap.h:36-47 | over every run, a search returns an identifier not in use, and panics only when all are in use |
| `ProcessBitmaps.ReturnedOnce` | kernel/include/process/bitmap.h:36-52 | over every run, an identifier is returned a second time only if it was freed in between |
| `ProcessBitmaps.Advances` | kernel/include/process/bitmap.h:37-44 | a search moves the cursor over exactly the identifiers it came past |
| `ProcessBitmaps.Fairness` | kernel/include/process/bitmap.h:36-57 | over every run, between two returns of one identifier every other was returned or found reserved |
| `ProcessBitmaps.ProcessBitmap.constructor` | kernel/include/process/bitmap.h:31-34 | every identifier is free and the cursor is at 0 |
| `ProcessBitmaps.ProcessBitmap.IsFree` | kernel/include/process/bitmap.h:61-64 | the bit says whether the identifier is reserved |
| `ProcessBitmaps.ProcessBitmap.Free` | kernel/include/process/bitmap.h:49-52 | one identifier becomes free, no other changes |
| `ProcessBitmaps.ProcessBitmap.Reserve` | kernel/include/process/bitmap.h:54-57 | one identifier becomes reserved, no other changes |
| `ProcessBitmaps.ProcessBitmap.IndexToTry` | kernel/include/process/bitmap.h:38 | the remainder is the slot that many steps ahead of the cursor |
| `ProcessBitmaps.ProcessBitmap.Next` | kernel/include/process/bitmap.h:36-47 | the loop takes the specified step: the identifier returned was free and is the one identifier reserved by it |
| `Bits.SetBitAt` | kernel/include/process/bitmap.h:54-57 | setting a masked bit of a byte adds exactly one element to the set of bits |
| `Bits.ClearBitAt` | kernel/include/process/bitmap.h:49-52 | clearing a masked bit of a byte takes exactly one element out |
| `Handletables.FirstFreeIsCyclic` | kernel/include/fs/handletable.h:41-53 | from a start that skips nothing, the first free slot in cyclic order is taken, and failure means a full table |
| `Handletables.SkippedSlot` | kernel/include/fs/handletable.h:43 | from any other start some slot is never probed |
| `Handletables.FailsOnlyWhenFull` | kernel/include/fs/handletable.h:41-53 | failure means a full table if and only if the start skips nothing |
| `Handletables.PowerOfTwoNeverSkips` | kernel/include/fs/handletable.h:43 | a table whose size is a power of two skips nothing from any start |
| `Handletables.KernelTableNeverSkips` | kernel/include/process/process.h:74 | the 64 descriptors of a process are such a table |
| `Handletables.RoomNotFound` | kernel/include/fs/handletable.h:41-53 | a table of 24 with one handle free looks full from the highest start |
| `Handletables.Handletable.constructor` | kernel/include/fs/handletable.h:33-35 | no handle is in use in the fresh arrays |
| `Handletables.Handletable.Is` | kernel/include/fs/handletable.h:63-69 | the packed bit and the value are the partial map |
| `Handletables.Handletable.Search` | kernel/include/fs/handletable.h:42-45 | the loop finds the first free slot probed, or that every probe finds one taken |
| `Handletables.Handletable.Set` | kernel/include/fs/handletable.h:41-53 | the first free slot probed gets the value and no other slot changes |
| `Handletables.Handletable.Fill` | kernel/include/fs/handletable.h:46-47 | one slot becomes valid with its value, no other changes |
| `Handletables.Handletable.Reset` | kernel/include/fs/handletable.h:55-61 | a handle in use gets a new value; otherwise nothing changes |
| `Handletables.Handletable.Clear` | kernel/include/fs/handletable.h:71-73 | one handle goes, no other changes |
| `RingBuffers.HoldsTheEnd` | kernel/include/libc/ringbuffer.h:58-63 | after any run of writes the buffer holds the last items of everything written |
| `RingBuffers.LastOfLast` | kernel/include/libc/ringbuffer.h:35-41 | resizing keeps the last items that both capacities allow |
| `RingBuffers.Overwrite` | kernel/include/libc/ringbuffer.h:77-89 | overwriting the oldest slot of a full buffer drops its item and appends the new one |
| `RingBuffers.Remainder` | kernel/include/libc/ringbuffer.h:83 | the remainder of an index less than two turns ahead |
| `RingBuffers.RingBuffer.constructor` | kernel/include/libc/ringbuffer.h:27-34 | an empty buffer |
| `RingBuffers.RingBuffer.Resized` | kernel/include/libc/ringbuffer.h:35-41 | the new buffer holds the last items of the old one |
| `RingBuffers.RingBuffer.Putchar` | kernel/include/libc/ringbuffer.h:77-89 | the item is appended; the oldest goes when the buffer is full |
| `RingBuffers.RingBuffer.Getchar` | kernel/include/libc/ringbuffer.h:91-99 | item `idx` from the oldest on, or false |
| `RingBuffers.RingBuffer.Write` | kernel/include/libc/ringbuffer.h:58-63 | the buffer holds the last items of what it held and what was written; length 0 means the C string in memory |
| `RingBuffers.RingBuffer.WriteItems` | kernel/include/libc/ringbuffer.h:60-62 | the loop appends the items in order |
| `RingBuffers.Strlen` | kernel/include/libc/ringbuffer.h:59 | the length of the C string in memory |
| `RingBuffers.RingBuffer.Read` | kernel/include/libc/ringbuffer.h:65-70 | the oldest items in order, as many as asked for and held |
| `Fifos.Fifo.constructor` | kernel/src/synch/pipe.cpp:19-24 | an empty queue of the given capacity |
| `Fifos.Fifo.TryPut` | kernel/src/synch/pipe.cpp:42-49 | the item is appended to the queue unless it is full |
| `Fifos.Fifo.TryGet` | kernel/src/synch/pipe.cpp:51-58 | the oldest item is taken off unless the queue is empty |
| `Pipes.StepConserves` | kernel/src/synch/pipe.cpp:60-92 | one read or write keeps received plus held equal to sent |
| `Pipes.Conservation` | kernel/src/synch/pipe.cpp:60-92 | over every interleaving no byte is lost, invented or reordered, and at most 4096 are held |
| `Pipes.StepJustified` | kernel/src/synch/pipe.cpp:26-92 | one step leaves no sleeper without a reason to sleep |
| `Pipes.JustifiedRun` | kernel/src/synch/pipe.cpp:26-92 | over every interleaving, readers sleep only on an empty pipe with a writer, writers only on a full pipe with a reader |
| `Pipes.NoLostWakeup` | kernel/src/synch/pipe.cpp:60-92 | whoever is asleep would go back to sleep if run; readers and writers never sleep at once |
| `Pipes.EndOfFile` | kernel/src/synch/pipe.cpp:60-75 | a read of at least one byte returns nothing exactly when the writer is gone and all was received |
| `Pipes.OpenUntilClosed` | kernel/src/synch/pipe.cpp:26-37 | an end of the pipe is open until it is closed |
| `Pipes.ReadAnswers` | kernel/src/synch/pipe.cpp:60-75 | a read gets as many of the bytes sent and not yet received as it asks for; it sleeps exactly with none left and the writer there |
| `Pipes.WriteAnswers` | kernel/src/synch/pipe.cpp:77-92 | a write stores and reports what finds room among 4096 bytes; with no room it sleeps while there is a reader and is discarded otherwise |
| `Pipes.SleepersExactly` | kernel/src/synch/pipe.cpp:60-92 | over every run, the waiting queues hold exactly the processes that went to sleep and whose wait has not been ended by bytes or by a close |
| `Pipes.ReportedIsStored` | kernel/src/synch/pipe.cpp:77-92 | a write reports what it stored, except on a full pipe nobody reads |
| `Pipes.DiscardedButReported` | kernel/src/synch/pipe.cpp:78-80 | a run that fills the pipe, closes its read end and writes again is told that its bytes were written |
| `Pipes.PipeBuffer.constructor` | kernel/src/synch/pipe.cpp:19-24 | an empty open pipe on a fresh queue |
| `Pipes.PipeBuffer.CloseReadFile` | kernel/src/synch/pipe.cpp:26-29 | the read end is closed and sleeping writers are woken |
| `Pipes.PipeBuffer.CloseWriteFile` | kernel/src/synch/pipe.cpp:34-37 | the write end is closed and sleeping readers are woken |
| `Pipes.PipeBuffer.Drain` | kernel/src/synch/pipe.cpp:67-70 | the loop takes as many of the oldest bytes as are asked for and held |
| `Pipes.PipeBuffer.Fill` | kernel/src/synch/pipe.cpp:84-87 | the loop stores as many bytes as find room |
| `Pipes.PipeBuffer.Read` | kernel/src/synch/pipe.cpp:60-75 | the code from the head of the waiting loop to the next sleep or return is the read step |
| `Pipes.PipeBuffer.Write` | kernel/src/synch/pipe.cpp:77-92 | the code from the head of the waiting loop to the next sleep or return is the write step |
| `Pipes.Replay` | kernel/src/synch/pipe.cpp:19-92 | an object taken through any run is in the run's last state and gave the run's answers |
| `MessageQueues.StepConserves` | kernel/src/synch/msgueue.cpp:87-149 | one read or write keeps received plus held equal to sent |
| `MessageQueues.Conservation` | kernel/src/synch/msgueue.cpp:87-149 | over every interleaving messages come out whole, once, in the order written, and capacity is kept |
| `MessageQueues.StepJustified` | kernel/src/synch/msgueue.cpp:73-149 | one step keeps every sleep justified if and only if it does not close the last writer under a sleeping reader |
| `MessageQueues.JustifiedRun` | kernel/src/synch/msgueue.cpp:73-149 | every sleep is justified throughout a run if and only if no close ever does that |
| `MessageQueues.NoLostWakeup` | kernel/src/synch/msgueue.cpp:106-149 | until then, whoever is asleep would go back to sleep if run |
| `MessageQueues.ClientsCounted` | kernel/src/synch/msgueue.cpp:73-85 | readers and writers are those that opened less those that closed, while nobody closes more than was opened |
| `MessageQueues.ReadAnswers` | kernel/src/synch/msgueue.cpp:106-124 | a read of 4096 bytes gets the oldest message not yet received; with none left it sleeps exactly if it may and there are writers |
| `MessageQueues.WriteAnswers` | kernel/src/synch/msgueue.cpp:125-149 | a message of at most 4080 bytes is accepted whenever there is room, blocking or not, and its size reported; without room it sleeps exactly if it may |
| `MessageQueues.SleepersExactly` | kernel/src/synch/msgueue.cpp:106-149 | over every run, the waiting queues hold exactly the processes that went to sleep with no message sent, or received, since |
| `MessageQueues.StrandedSleepsOn` | kernel/src/synch/msgueue.cpp:80-82 | after it the reader sleeps on although its read would return at once |
| `MessageQueues.ReaderStranded` | kernel/src/synch/msgueue.cpp:80-82 | a run of four operations that strands its reader |
| `MessageQueues.MessageQueueBuffer.constructor` | kernel/src/synch/msgueue.cpp:38-47 | an empty queue without clients on a fresh store |
| `MessageQueues.MessageQueueBuffer.ChangeClients` | kernel/src/synch/msgueue.cpp:73-85 | opening and closing count and do nothing else |
| `MessageQueues.MessageQueueBuffer.Read` | kernel/src/synch/msgueue.cpp:106-124 | the code between two sleeps is the read step, with its size check and its non-blocking exit |
| `MessageQueues.MessageQueueBuffer.Write` | kernel/src/synch/msgueue.cpp:125-149 | the code between two sleeps is the write step, with its size check and its non-blocking exit |
| `MessageQueues.Replay` | kernel/src/synch/msgueue.cpp:38-149 | an object taken through any run is in the run's last state and gave the run's answers |
| `MessageQueueFiles.CloseOutcome` | kernel/src/synch/msgueue.cpp:260-282 | a close panics exactly on the last file of a leaked name and erases the queue exactly on the last of any other |
| `MessageQueueFiles.OpenOutcome` | kernel/src/synch/msgueue.cpp:234-257 | an open gives a file of the name, at the end asked for and on the queue the name already has, exactly when one way and no appending is asked for |
| `MessageQueueFiles.FilesFollow` | kernel/src/synch/msgueue.cpp:234-282 | the open files are the ones opened and not closed; the leaked references are the opens that asked for neither way |
| `MessageQueueFiles.FilesShareQueue` | kernel/src/synch/msgueue.cpp:234-257 | open files are on the same queue exactly when they are on the same name |
| `MessageQueueFiles.StepSound` | kernel/src/synch/msgueue.cpp:234-282 | every open file's queue is the live one of its name, and the store's count is its files plus its leaks; no close finds its queue gone |
| `MessageQueueFiles.SafeRun` | kernel/src/synch/msgueue.cpp:234-282 | over every run no close panics or dangles if and only if none closes the last file of a leaked name |
| `MessageQueueFiles.DirectedOpensAreSafe` | kernel/src/synch/msgueue.cpp:234-257 | runs whose opens all read, write or are forbidden never panic |
| `MessageQueueFiles.UndirectedOpenPanics` | kernel/src/synch/msgueue.cpp:256 | an open for neither makes the next reader's close panic |
| `Paths.ComponentsSlash` | newlib/syscalls/absolutize.cpp:88-98 | a slash separates: the tokens of both sides, one after the other |
| `Paths.WhereNamesLead` | newlib/syscalls/absolutize.cpp:92-122 | a name leads one place down, `.` nowhere, and `..` undoes a name and stays at the root |
| `Paths.RealpathSameLocation` | newlib/syscalls/absolutize.cpp:145-160 | the result names the place to which the left-to-right walk of the input leads |
| `Paths.RealpathHasNoDots` | newlib/syscalls/absolutize.cpp:145-160 | the result is absolute and has no `.` and no `..` component |
| `Paths.RealpathIdempotent` | newlib/syscalls/absolutize.cpp:145-160 | normalising twice is normalising once |
| `Paths.ShortPathsResolve` | newlib/syscalls/absolutize.cpp:145-160 | every absolute path of fewer than 255 characters resolves: with a dot in it to the normal path of its place, without one to itself |
| `Paths.NullExactly` | newlib/syscalls/absolutize.cpp:74-160 | null exactly for an empty or relative path, and for one with dots that has 255 entries or a result of 255 characters |
| `Paths.ComponentsFit` | newlib/syscalls/absolutize.cpp:91-98 | the components, a slash in front of each, are no longer than the absolute path they come from |
| `Paths.WalkFits` | newlib/syscalls/absolutize.cpp:104-122 | resolving `.` and `..` never makes a path longer |
| `Paths.TooManyEntries` | newlib/syscalls/absolutize.cpp:95 | the limit on entries is real: 254 times `/..` is the root, 255 times is null |
| `Paths.RealpathCanonical` | newlib/syscalls/absolutize.cpp:145-160 | two paths have the same result if and only if they lead to the same place and are both canonical, or are the same path |
| `Paths.CanonicalExactly` | newlib/syscalls/absolutize.cpp:149-153 | the result is the normal path of the place named if and only if the path has a dot, is the root, or has no doubled and no trailing slash |
| `Paths.TidyIsRender` | newlib/syscalls/absolutize.cpp:124-141 | a tidy absolute path is the join of its components |
| `Paths.SlashesKept` | newlib/syscalls/absolutize.cpp:149-153 | doubling a slash of a path without dots leads to the same place with another result |
| `Paths.ConcatComponents` | newlib/syscalls/absolutize.cpp:24-35 | joining concatenates the components, whatever slashes meet |
| `Paths.RelativeResolution` | newlib/syscalls/absolutize.cpp:24-35 | a relative path joined to a base names where its walk leads from the base |
| `Paths.OneSlash` | newlib/syscalls/absolutize.cpp:24-35 | two texts that are not empty are joined by exactly one slash |
| `Paths.RelativeResolves` | newlib/syscalls/absolutize.cpp:185-186 | a base and a relative path of together fewer than 254 characters do resolve |
| `Paths.SplitComponents` | newlib/syscalls/absolutize.cpp:81-101 | the token loop stores the components without `.`, or fails exactly when they do not fit |
| `Paths.SplitPath` | newlib/syscalls/absolutize.cpp:74-102 | the entries are the root and the components without `.`; the failures are exactly these |
| `Paths.ClearNearest` | newlib/syscalls/absolutize.cpp:111-119 | the backward scan drops the top of the stack of kept names, and nothing at the root |
| `Paths.ResolveDotDot` | newlib/syscalls/absolutize.cpp:110-121 | an entry `..` drops the top of the stack and itself |
| `Paths.ResolveOne` | newlib/syscalls/absolutize.cpp:109-121 | one entry takes the step of the walk |
| `Paths.ResolveDotDots` | newlib/syscalls/absolutize.cpp:108-122 | the entries still flagged are exactly the stack of the left-to-right walk |
| `Paths.Append` | newlib/syscalls/absolutize.cpp:135-137 | a slash and the name stand behind the text so far, zeros behind them |
| `Paths.JoinEntry` | newlib/syscalls/absolutize.cpp:128-138 | one entry is appended, or refused exactly when it does not fit |
| `Paths.Join` | newlib/syscalls/absolutize.cpp:124-141 | the buffer holds the joined names, or the join fails exactly when they do not fit |
| `Paths.MergePath` | newlib/syscalls/absolutize.cpp:104-142 | a C reader finds the normal path of the walk in the buffer, or null exactly when it is too long |
| `Paths.DoRealpath` | newlib/syscalls/absolutize.cpp:145-160 | the normaliser in place computes the function the theorems above are about |
| `Relocations.FindRealAddress` | newlib/syscalls/dlfcn.cpp:65-77 | the loop finds the translation by the first segment that holds the offset |
| `Relocations.TranslatesBy` | newlib/syscalls/dlfcn.cpp:65-77 | with disjoint segments, translation is the shift of the one that holds the offset |
| `Relocations.TranslatesToNull` | newlib/syscalls/dlfcn.cpp:65-77 | an offset of no segment translates to null |
| `Relocations.KeepsApart` | newlib/syscalls/dlfcn.cpp:65-77 | words apart in the file are apart in memory |
| `Relocations.OtherBytesKept` | newlib/syscalls/dlfcn.cpp:240-251 | bytes outside all target words are unchanged, whether relocation succeeds or not |
| `Relocations.RelocationMeaning` | newlib/syscalls/dlfcn.cpp:212-251 | after success every R_386_32 word is its symbol's address and every R_386_PC32 word leads there from behind itself, modulo 2^32 |
| `Relocations.FieldsOf` | kernel/include/process/elf.h:263-273 | the low byte of `info` is the kind and the 24 bits above it are the symbol index |
| `Relocations.LinkedSucceeds` | newlib/syscalls/dlfcn.cpp:240-251 | entries written for symbols of the table and words of the segments all apply |
| `Relocations.LinkedMeaning` | newlib/syscalls/dlfcn.cpp:212-251 | for entries given by symbol index and kind: an absolute word becomes the address of its own symbol, a relative one the way to it |
| `Relocations.SymbolsDoNotDecide` | newlib/syscalls/dlfcn.cpp:217-230 | whether relocation succeeds does not depend on the symbols |
| `Relocations.NullSymbols` | newlib/syscalls/dlfcn.cpp:212-251 | a relocated word leads to the null address if and only if its symbol lies in no segment |
| `Relocations.NullSymbolAccepted` | newlib/syscalls/dlfcn.cpp:217-223 | a library in which a word is relocated to null and relocation succeeds |
| `Relocations.MappedIsNonNull` | newlib/syscalls/dlfcn.cpp:65-77 | an offset translates to a non-null address if and only if some segment holds it |
| `Relocations.Process.PerformRelocation` | newlib/syscalls/dlfcn.cpp:212-238 | one entry patches one word, or fails and changes nothing |
| `Relocations.Process.PerformRelocations` | newlib/syscalls/dlfcn.cpp:240-251 | memory is patched in order up to the first failure; success means every entry has a known kind and a mapped target |
| `InitialRamdisk.LittleEndianRoundTrip` | initrd/gen.py:36-41 | a number that fits its field is read back |
| `InitialRamdisk.LowByteFirst` | initrd/gen.py:36-41 | the low byte of a number comes first |
| `InitialRamdisk.FourBytes` | initrd/gen.py:50 | a four-byte field, byte by byte |
| `InitialRamdisk.NullEntryIsPacked` | initrd/gen.py:44-46 | a null entry is an entry of zeros |
| `InitialRamdisk.Tiles` | initrd/gen.py:72-79 | the files tile the image from byte 5140 to its end |
| `InitialRamdisk.HeaderRecovers` | kernel/src/fs/initrd/fs.cpp:41-56 | the kernel accepts the image and reads the number of files |
| `InitialRamdisk.HeaderBytes` | initrd/gen.py:35-37 | every image starts with 0x80, IRD, version 3 and three zeros, and bytes 8 to 15 read back as the serial |
| `InitialRamdisk.UnusedEntriesAreZero` | initrd/gen.py:48-58 | the table always has 64 entries, zero behind the files |
| `InitialRamdisk.TableRecovers` | initrd/gen.py:39-58 | decoding an entry recovers name field, size, offset and time of its file |
| `InitialRamdisk.ContentsRecovered` | initrd/gen.py:60-79 | the bytes at a file's offset are its contents |
| `InitialRamdisk.NameRecovered` | kernel/src/fs/initrd/fs.cpp:66-73 | the kernel reads the name if and only if it is shorter than 64 bytes or the size's low byte is zero |
| `InitialRamdisk.FullNameLost` | kernel/src/fs/initrd/fs.cpp:66-73 | of a file with a 64-byte name and one byte of contents the kernel reads another name |
| `InitialRamdisk.OpenFinds` | kernel/src/fs/initrd/fs.cpp:58-75 | opening a name in the image finds the contents of the first file of that name, or none |
| `InitialRamdisk.Stream.Write` | initrd/gen.py:35-37 | the bytes are appended |
| `InitialRamdisk.Stream.WriteTable` | initrd/gen.py:48-58 | the whole table, or the count and the entries before the first that cannot be packed |
| `InitialRamdisk.Stream.WriteEntries` | initrd/gen.py:39-55 | one entry for each file, in order, up to the first whose size or offset does not fit 32 bits |
| `InitialRamdisk.Stream.WriteNullEntries` | initrd/gen.py:56-58 | null entries up to 64 |
| `InitialRamdisk.Stream.WriteFiles` | initrd/gen.py:60-64 | the contents, in order |
| `InitialRamdisk.GenInputFiles` | initrd/gen.py:72-79 | the running offset is 5140 plus the sizes before |
| `InitialRamdisk.CheckFiles` | initrd/gen.py:95-99 | stops exactly on an empty file |
| `InitialRamdisk.Generate` | initrd/gen.py:88-105 | the output is the image exactly when there are at most 64 files, none empty and all packable; otherwise it is not opened, empty, or ends before the entry that cannot be packed |
| `Numerals.DigitRoundTrip` | kernel/include/libc/string.h:50-56 | a digit character reads back as its digit in either case, and a letter has the case asked for |
| `Numerals.ParseNumeral` | kernel/include/libc/string.h:45-73 | the text parses back to the number, in every base and both cases |
| `Numerals.CanonicalIsDigits` | kernel/include/libc/string.h:49-65 | the text is the only one of its value without a leading zero |
| `Numerals.DigitsAreCanonical` | kernel/include/libc/string.h:49-65 | the text of a number has no leading zero and letters of one case |
| `Numerals.Divide` | kernel/include/libc/string.h:50-51 | the division and remainder of the digit loop count whole turns and what is left |
| `Numerals.WriteDigits` | kernel/include/libc/string.h:47-65 | the digit loop fills the buffer backwards with the digits, or fails exactly when they do not fit |
| `Numerals.Num2Str` | kernel/include/libc/string.h:29-74 | null exactly when sign, digits and terminator do not fit; otherwise the terminated text |
| `Shell.ParseBuilds` | apps/shell/src/parser.cpp:105-186 | every parsed command has no empty word, at most one continuation, and none behind a background mark |
| `Shell.SubstitutionLaw` | apps/shell/src/parser.cpp:39-64 | parsing a line equals parsing it with every quoted word and variable replaced by its text, the empty one if unset, as a word or as a target |
| `Shell.ParseItems` | apps/shell/src/parser.cpp:133-145 | words and redirections may be mixed in any order: all words that are not empty count, and the last redirection each way decides |
| `Shell.SyntaxErrors` | apps/shell/src/parser.cpp:66-183 | a redirection without a word behind it and a background mark without a terminator are errors |
| `Shell.RoundTrip` | apps/shell/src/command.cpp:72-93 | printing a command the parser can build and parsing the tokens gives the same command and the same rest |
| `Shell.BareRoundTrip` | apps/shell/src/parser.cpp:175-183 | without the terminator, parsing gives the command back if and only if its last part is neither empty nor in the background, and an error otherwise |
| `Shell.CommandObject.constructor` | apps/shell/src/command.cpp:28 | a new command is empty |
| `Shell.CommandObject.Copy` | apps/shell/src/command.cpp:29-40 | the copy is equal to the original |
| `Shell.CommandObject.AddWord` | apps/shell/src/command.cpp:45-47 | the word is appended; an empty word is dropped |
| `Shell.CommandObject.SetPipe` | apps/shell/src/command.cpp:54-56 | the pipe target is a copy, all else is unchanged |
| `Shell.CommandObject.SetSuccessChain` | apps/shell/src/command.cpp:57-59 | the success chain is a copy, all else is unchanged |
| `Shell.Parser.NextSym` | apps/shell/src/parser.cpp:191-201 | one token moves from the input to the current symbol; at the end the symbol stays |
| `Shell.Parser.RedirectTarget` | apps/shell/src/parser.cpp:66-103 | the token behind the sign, if it is a word |
| `Shell.Parser.ParseSymbol` | apps/shell/src/parser.cpp:133-184 | one pass of the loop takes the step of the grammar and consumes a token if it goes on |
| `Shell.Parser.ParseContinuation` | apps/shell/src/parser.cpp:147-173 | the command behind a pipe or a success mark is parsed from fresh and attached |
| `Shell.Parser.ParseCommand` | apps/shell/src/parser.cpp:105-186 | loop and recursion terminate and compute the grammar, leaving the tokens behind the command |
| `Shell.Parser.ParseInput` | apps/shell/src/parser.cpp:29-36 | fresh input is parsed by the grammar; no input is an error |
| `ShellText.LexWords` | apps/shell/src/lexer.l:24 | words of argument characters, each with its blank, are lexed to their tokens |
| `ShellText.LexPrefix` | apps/shell/src/lexer.l:24 | a word ends where its characters end, with or without a blank |
| `ShellText.LexMark` | apps/shell/src/lexer.l:25-31 | a one-character sign is one token, whatever stands around it; a newline ends a command like a semicolon |
| `ShellText.LexAndMark` | apps/shell/src/lexer.l:30 | two ampersands are one token |
| `ShellText.TokensArePrint` | apps/shell/src/command.cpp:72-93 | the tokens of the printed text are the printed tokens |
| `ShellText.LexText` | apps/shell/src/lexer.l:23-33 | the printed text of a plain command is lexed to its tokens, whatever follows |
| `ShellText.LexIsPlain` | apps/shell/src/lexer.l:24 | whatever the text, every argument the lexer delivers is made of argument characters |
| `ShellText.LexesBack` | apps/shell/src/lexer.l:23-33 | printed text with its terminator lexes back to the printed tokens if and only if every word and target is plain |
| `ShellText.TextRoundTrip` | apps/shell/src/input.cpp:23-33 | the text of a command, given back to the shell, is the same command if and only if the command is plain, for every environment in which no value holds a `$` |
| `ShellText.PlainRoundTrip` | apps/shell/src/input.cpp:23-33 | the text of a plain command, given back to the shell, is the same command in every environment |
| `ShellText.CountText` | apps/shell/src/command.cpp:72-93 | the printed text has the quotes and variable marks of the command and no others |
| `ShellText.LexCounts` | apps/shell/src/lexer.l:23-33 | a text has at least the quotes and marks its tokens give and lose |
| `ShellText.ParseCounts` | apps/shell/src/parser.cpp:105-186 | a command has at most the quotes and marks its tokens give |
| `ShellText.MarkComesBack` | apps/shell/src/parser.cpp:53-61 | with a variable that stands for its own mention, a command that is not plain comes back |
| `ShellText.BlankSplits` | apps/shell/src/command.cpp:72-75 | a word with a blank comes back as two words |
| `ShellText.LexQuoted` | apps/shell/src/lexer.l:33 | between quotes, text with all its quotes and backslashes escaped is one token, whatever follows |
| `ShellText.QuoteEndExactly` | apps/shell/src/lexer.l:33 | a quote closes exactly where the text since it opened has all its quotes behind backslashes and no backslash before a newline |
| `ShellText.UnescapedIsQuotable` | apps/shell/src/lexer.l:33 | text without quotes and backslashes needs no escape |
| `ShellText.EscapedIsQuotable` | apps/shell/src/lexer.l:33 | a backslash before every quote and backslash makes any text quotable |
| `ShellText.LexUnclosed` | apps/shell/src/lexer.l:33 | a quote that nothing closes is dropped alone |
| `ShellText.LexVariable` | apps/shell/src/lexer.l:23 | a name between `$(` and `)` is one token, whatever follows |
| `ShellText.WordForms` | apps/shell/src/parser.cpp:40-64 | a quoted word comes back whole, a variable stands for its value, and an unset or empty one vanishes |

## Left out

- Page tables, physical pages, permissions and mapped files: the memory manager is modelled down to its regions and totals, and of the program loader only what it records there.
- Preemption inside a system call: pipes and message queues are modelled from one sleep to the next, so a wait queue is the list of its sleepers, and its tokens, timeouts and process states are not there.
- MessageQueueFiles.StepSound: the files and the store are modelled on values, with queue objects as numbers, and the store's counts are taken to stay below 2^32.
- Semaphores, mutexes, events and the scheduler: their guarantees depend on preemption points and on the process manager.
- Null arguments, freeing memory, leaks of nodes, and arguments that alias a container's own storage: items are values.
- Vectors.Vector.PushBack: does not model the overflow of the 32-bit capacity, which memory runs out before.
- ProcessBitmaps.ProcessBitmap.Next: does not model the conversion of an identifier to the 16 bits of `kpid_t`, which changes nothing for the kernel's 2000 identifiers and loses bits for a table of more than 65536.
- PriorityQueues.NextDue: a sleeper's time is taken when it enters the queue; exited processes and stale tokens, which the awaker treats apart, are not modelled.
- RingBuffers.RingBuffer.Write: a length of 0 is modelled for items of one byte, as the kernel log has them.
- RingBuffers.RingBuffer.Resized: covers non-empty sources; for an empty one the code takes the length of a C string in a block of no bytes.
- Numerals.Num2Str: numbers are integers whose negation exists, so the least value of a type is left out, and so are bases outside 2 to 36, for which there are no digits, and a one-byte buffer for a number other than 0, where the code's index wraps.
- Paths.DoRealpath: takes the text of a C string; the current directory, the home directory and the choice between absolute and relative paths are not modelled.
- Relocations.RelocationMeaning: assumes mapped, non-wrapping, disjoint segments and target words that lie in them and do not overlap; finding the tables in an ELF file, mapping and page rounding are not modelled.
- InitialRamdisk.Generate: the time of day and the serial number are parameters; file names are byte strings without a directory part.
- Shell.Parser.ParseCommand: history expansion and reuse of one parser across commands are not modelled; the environment is a function.
- ShellText.LexesBack: the rule for history marks is left out of the lexer.
- Command execution, logging, drivers, filesystems other than the ramdisk and the message queues, and the other user programs.
