# Verified model of a teaching kernel

This project models the parts of a Pintos-style kernel whose correctness is hardest to see, and proves
properties of them over all inputs, all runs and all reachable states. `dafny verify dfyconfig.toml` checks
the whole of it. Each file is one module; `Arithmetic`, `Options`, `Sequences` and `Bytes` hold what the others share.

What is modelled, and the main results:

- **64-bit division on a 32-bit machine** (`Division`). The estimate-and-correct quotient is floor division
  for every pair of operands; the signed and remainder routines have exact conditions.
- **Linked lists** (`LinkedList`, `ListSort`, `ListEdit`; specifications in `Ordering`, `SequenceSort`,
  `MergePass`). Nodes are heap objects relinked in place; the natural merge sort terminates with a stable
  sorted permutation.
- **Hash tables** (`HashTable`, `HashRun`, `BitTricks`). Any sequence of operations equals a set keyed by the
  comparator, whether or not resizing finds memory.
- **Sorting and searching arrays** (`HeapSort`).
- **Bitmaps, pages, blocks** (`Bitmap`, `PageAllocator`, `Blocks`, `Arenas`, `Malloc`). Three layers of
  ownership stay consistent over every run; blocks in use never overlap, `realloc` keeps their bytes, and pages go
  back when the last block on them does.
- **File system** (`FileData`, `DiskFormat`, `Directory`, `Ownership`, `FileState`, `FileSystem`, `OpenFiles`).
  Sector I/O with a bounce buffer refines byte arrays; the whole refines a map from names to inodes and a map
  from inodes to byte arrays, with every sector owned at most once and every owned sector marked used. Each read
  and write can fail on its own; a removed file's sectors come back; uniqueness and reachability of names have exact conditions.
- **Threads, semaphores, locks, alarm clock** (`Kernel`, `KernelInvariant`, `KernelSteps`, `AlarmClock`,
  `KernelRuns`, `WaitQueues`, `NestedLocks`, `SleepRuns`, `SleepWindow`, `Machine`). A step machine in which each
  region with interrupts off is one step; the methods of `Machine` take its steps on mutable state. No wake-up is lost, waiters are served in order, waiting is bounded, a
  sleeper is woken by exactly the tick it asked for, and locks exclude exactly as long as they are not nested.
  `SleepWindow` takes `timer_sleep` apart and says exactly which interrupts break it.
- **Condition variables** (`ConditionVariables`). Signals reach waiters in order, one each, and none is lost.
- **Serial driver** (`QueueMachine`, `InterruptQueue`, `Serial`). With any number of threads, byte order is kept, the
  interrupts that are needed are on, and the assertion of the queue's wait fails under an exact condition.
- **Page directories** (`PageTable`, `PageDirectory`). Two levels refine a flat map; entries are bit patterns.
- **Formats** (`Format`, `Numerals`, `FormatMeaning`, `ConversionSpec`, `Snprintf`, `UstarName`, `Ustar`). Integers
  are formatted and read back in every base; archive headers round-trip and detect damage.

Conventions. Memory and disk failure are parameters (`memory: bool`, the fields of `Luck`, an optional page), so
that every contract covers both outcomes. Comparators are parameters assumed to be strict weak orders or total
preorders. Ghost fields such as `live` and `held` record who owns what; they are tied to the real fields by
`Valid()`, which every operation keeps, so a property of valid states holds in every run.

Where the code and its comments differ, the model follows the code:

- malloc's largest size class is 1 kB, not 2 kB (src/threads/malloc.c:76).
- `bitmap_scan_and_flip` with a count of 0 returns the start, not 0 (src/lib/kernel/bitmap.c:313-327).
- `lock_acquire` by the holder returns at once, and the first release then frees the lock
  (src/threads/synch.c:192-240): `NestedLocks` says what that breaks and when.
- `intq_putc` and `intq_getc` do not test again between getting the queue's lock and waiting
  (src/devices/intq.c:44-50, 64-70), so two threads on one side can fail the assertion of `wait`.
- `dir_add` takes any short read for the end of the file (src/filesys/directory.c:158-169), although a read also
  falls short without memory for its bounce buffer.
- `timer_sleep` joins the sleep list before it disables interrupts (src/devices/timer.c:105-116): `SleepWindow`.
- `filesys_create` gives back only the header sector when `dir_add` fails (src/filesys/filesys.c:48-62).
- A field given both `-` and `0` is padded twice (src/lib/stdio.c:526-547), the precision is cut at 63, and commas
  count toward it.

## Model

| member | source | states |
|---|---|---|
| `Division.Nlz` | src/lib/arithmetic.c:41-73 | the binary search for the top bit counts leading zeros exactly, for every nonzero word |
| `Division.ShortDivisor` | src/lib/arithmetic.c:77-111 | the two-step division by a 32-bit divisor is floor division and its second divide instruction never traps |
| `Division.EstimateBound` | src/lib/arithmetic.c:112-127 | for every divisor above 32 bits the shifted estimate is the true quotient or one more, and the divide instruction never traps |
| `Division.CorrectionStep` | src/lib/arithmetic.c:124 | an estimate that is at most one too big is corrected to the floor by the multiply-and-compare step, without leaving the 64-bit range |
| `Division.LongDivisor` | src/lib/arithmetic.c:112-127 | the long branch returns floor(n / d) for every dividend at least as big as the divisor |
| `Division.UDiv64Correct` | src/lib/arithmetic.c:77-127 | for all 64-bit n and d: divide error if d = 0, floor(n / d) otherwise |
| `Division.SDiv64Correct` | src/lib/arithmetic.c:139-146 | the signed quotient is the one truncated toward zero if and only if the operands are not (INT64_MIN, -1) |
| `Division.TruncDivLaw` | src/lib/arithmetic.c:137-146 | what truncation toward zero means: the remainder is smaller than the divisor and has the sign of the dividend |
| `Division.UMod64Exact` | src/lib/arithmetic.c:131-135 | the unsigned remainder is the true one modulo 2^32, for every pair |
| `Division.UMod64ExactForAll` | src/lib/arithmetic.c:131-135 | the unsigned remainder is exact for every dividend if and only if d <= 2^32 |
| `Division.SMod64Exact` | src/lib/arithmetic.c:150-154 | the signed remainder is the true one cut to 32 bits, for every pair but (INT64_MIN, -1) |
| `Division.SMod64Fits` | src/lib/arithmetic.c:150-154 | the signed remainder is exact whenever the divisor is at most 2^31 in size |
| `Division.SMod64ExactForAll` | src/lib/arithmetic.c:150-154 | the signed remainder is exact for every dividend if and only if the divisor is at most 2^31 in size |
| `Division.SMod64TooBig` | src/lib/arithmetic.c:150-154 | the failing dividend for every bigger divisor |
| `Division.OverflowingRemainder` | src/lib/arithmetic.c:139-154 | at (INT64_MIN, -1) the quotient wraps while the remainder is still right |
| `LinkedList.List.constructor` | src/lib/kernel/list.c:60-68 | an initialised list is well formed and empty |
| `LinkedList.Insert` | src/lib/kernel/list.c:168-178 | links a node before another one: the chain is the old chain with the node at that place, and both link directions agree |
| `LinkedList.Remove` | src/lib/kernel/list.c:248-255 | unlinks one interior node, returns its successor, keeps everything else |
| `LinkedList.Splice` | src/lib/kernel/list.c:183-204 | moves a block of nodes within one list or between two: the result is the chain without the block, with the block reinserted |
| `SequenceSort.MergeMultiset` | src/lib/kernel/list.c:379-399 | merging neither loses nor invents elements |
| `SequenceSort.MergeSorted` | src/lib/kernel/list.c:379-399 | merging two sorted runs gives a sorted run |
| `SequenceSort.MergeTies` | src/lib/kernel/list.c:379-399 | merging keeps equal elements in order, those of the first run first |
| `ListSort.FindEndOfRun` | src/lib/kernel/list.c:357-372 | finds the end of the maximal nondecreasing run that starts at a node |
| `ListSort.InplaceMerge` | src/lib/kernel/list.c:379-399 | the splicing loop turns two adjacent runs into their merge and leaves the rest of the list alone |
| `SequenceSort.DescentsConcat` | src/lib/kernel/list.c:404-440 | the number of runs of a concatenation, the measure of the sort |
| `SequenceSort.NoDescentsSorted` | src/lib/kernel/list.c:404-440 | a list of one run is sorted |
| `MergePass.PassEnd` | src/lib/kernel/list.c:404-440 | a pass that pairs all runs keeps ties in order and strictly lowers the number of runs whenever it outputs more than one |
| `MergePass.PassEndUnpaired` | src/lib/kernel/list.c:404-440 | the same for a pass that ends with an unpaired run |
| `ListSort.MergePair` | src/lib/kernel/list.c:419-438 | one round of a pass merges the next two runs or finds the last one unpaired |
| `ListSort.Pass` | src/lib/kernel/list.c:404-440 | one pass of the sorting loop on the linked nodes meets the pass specification |
| `ListSort.Sort` | src/lib/kernel/list.c:404-440 | for every strict weak order, sorting terminates with a well-formed list over the same nodes that is a stable sorted permutation |
| `Ordering.StableSortUnique` | src/lib/kernel/list.c:404-440 | a stable sort is determined by its input: any two of them are equal |
| `SequenceSort.InsertionSortStable` | src/lib/kernel/list.c:404-459 | repeated ordered insertion is a stable sort, hence equals list_sort |
| `SequenceSort.InsertOrderedSorted` | src/lib/kernel/list.c:445-459 | ordered insertion keeps a list sorted |
| `SequenceSort.InsertOrderedTies` | src/lib/kernel/list.c:445-459 | ordered insertion puts the newcomer after its equals |
| `ListEdit.InsertInOrder` | src/lib/kernel/list.c:445-459 | the search and link of list_insert_ordered is ordered insertion |
| `ListEdit.Reverse` | src/lib/kernel/list.c:325-337 | swapping the links of every node, sentinels included, reverses the list |
| `Sequences.Reversed` | src/lib/kernel/list.c:325-337 | position i of the reversal is position n - 1 - i of the list |
| `ListEdit.Unique` | src/lib/kernel/list.c:465-486 | removes repeats in place and moves them to the end of the second list, if there is one |
| `ListEdit.ThinMultiset` | src/lib/kernel/list.c:465-486 | what is kept and what is moved make up the original list |
| `ListEdit.ThinKeepsFirst` | src/lib/kernel/list.c:465-486 | on a sorted list exactly the first of each group of equals is kept |
| `ListEdit.ThinStrict` | src/lib/kernel/list.c:465-486 | on a sorted list the result is strictly increasing |
| `BitTricks.PowerTrick` | src/lib/kernel/hash.c:329-340 | clearing the least set bit gives zero exactly for powers of two, and otherwise keeps the highest bit |
| `BitTricks.MaskIsRemainder` | src/lib/kernel/hash.c:305-310 | masking with a power of two less one is the remainder |
| `HashTable.ChooseBuckets` | src/lib/kernel/hash.c:364-372 | the bit-clearing loop finds the ideal bucket count |
| `HashTable.IdealIsPow2` | src/lib/kernel/hash.c:364-372 | the ideal bucket count is a power of two |
| `HashTable.IdealBuckets` | src/lib/kernel/hash.c:364-372 | four buckets below eight elements, and otherwise from two up to four elements for each bucket |
| `HashTable.Hash.constructor` | src/lib/kernel/hash.c:24-42 | a new table is valid and empty |
| `HashTable.Hash.FindBucket` | src/lib/kernel/hash.c:305-310 | the bucket of an element is in range and the one its hash selects |
| `HashTable.Hash.FindElem` | src/lib/kernel/hash.c:314-326 | finds an element equal to the key in a bucket exactly when there is one |
| `HashTable.Hash.Find` | src/lib/kernel/hash.c:131-135 | finds an equal element exactly when the set has one |
| `HashTable.Hash.InsertElem` | src/lib/kernel/hash.c:416-421 | adds one element and one to the count |
| `HashTable.Hash.RemoveElem` | src/lib/kernel/hash.c:424-429 | removes one element and one from the count |
| `HashTable.Hash.Rehash` | src/lib/kernel/hash.c:351-413 | keeps the elements whether or not memory is available; with memory the bucket count becomes the ideal one |
| `HashTable.Hash.Insert` | src/lib/kernel/hash.c:98-110 | inserts unless an equal element is present, which is returned |
| `HashTable.Hash.Replace` | src/lib/kernel/hash.c:114-127 | the new element takes the place of an equal one, which is returned |
| `HashTable.Hash.Delete` | src/lib/kernel/hash.c:144-154 | removes and returns the equal element, if any |
| `HashTable.Hash.Size` | src/lib/kernel/hash.c:247-251 | the count is the number of elements of the set |
| `HashRun.Perform` | src/lib/kernel/hash.c:98-154 | any operation acts on the table as it does on a set keyed by the comparator |
| `HashRun.Run` | src/lib/kernel/hash.c:98-154 | any sequence of operations, under any allocation failures, leaves the table equal to the replayed set |
| `HashRun.ContentsKeyed` | src/lib/kernel/hash.c:98-154 | no two elements of a table are equal under the comparator |
| `HashRun.Iterator.Next` | src/lib/kernel/hash.c:218-235 | each call yields the next remaining element, and nothing only at the end |
| `HashRun.VisitAll` | src/lib/kernel/hash.c:199-235 | a full iteration visits every element exactly once |
| `Bitmap.PackedBitmap.constructor` | src/lib/kernel/bitmap.c:78-110 | a new bitmap is all false |
| `Bitmap.PackedBitmap.Mark` | src/lib/kernel/bitmap.c:157-167 | sets one bit of the sequence of bools and no other |
| `Bitmap.PackedBitmap.Reset` | src/lib/kernel/bitmap.c:170-180 | clears one bit and no other |
| `Bitmap.PackedBitmap.Flip` | src/lib/kernel/bitmap.c:185-195 | inverts one bit and no other |
| `Bitmap.PackedBitmap.Test` | src/lib/kernel/bitmap.c:198-204 | reads one bit |
| `Bitmap.PackedBitmap.SetMultiple` | src/lib/kernel/bitmap.c:218-229 | sets a range and nothing outside it |
| `Bitmap.PackedBitmap.Contains` | src/lib/kernel/bitmap.c:251-264 | true exactly when a bit of the range has the value |
| `Bitmap.PackedBitmap.Scan` | src/lib/kernel/bitmap.c:296-311 | finds the first run of the wanted length and value, or none if there is none |
| `Bitmap.PackedBitmap.ScanAndFlip` | src/lib/kernel/bitmap.c:320-327 | takes the first fitting run and changes that run only |
| `PageAllocator.Pool.constructor` | src/threads/palloc.c:153-170 | the bitmap of a pool occupies its first pages and fits there; all other pages are free |
| `PageAllocator.Allocator.constructor` | src/threads/palloc.c:45-62 | two adjoining pools from 1 MB to the end of memory, half for the user pool unless limited, nothing allocated |
| `PageAllocator.Allocator.GetMultiple` | src/threads/palloc.c:70-101 | returns the first run of free pages of the pool asked for, failing exactly when there is none; live runs stay disjoint |
| `PageAllocator.Allocator.FreeMultiple` | src/threads/palloc.c:117-142 | frees any pages of one pool: the live runs inside the range end, and the bitmaps still tell live from free pages if and only if no live run is cut by the range; freeing one live run ends exactly that run |
| `PageAllocator.TracksRemaining` | src/threads/palloc.c:136-142 | the bitmap after clearing a range is true of the remaining runs if and only if no live run is cut |
| `PageAllocator.LiveRunsSeparate` | src/threads/palloc.c:45-182 | in every state live runs share no page, lie in a pool and touch neither bitmap |
| `Blocks.MallocInit` | src/threads/malloc.c:71-85 | seven size classes from 16 to 1024 bytes with their block counts |
| `Blocks.FindClass` | src/threads/malloc.c:100-104 | the search finds the smallest size class that holds the request |
| `Blocks.BigPagesExactly` | src/threads/malloc.c:105-110 | the page count of a big block, computed in 32 bits, covers the request if and only if size + 12 + 4095 < 2^32, and is 0 or 1 otherwise |
| `Blocks.AddrFacts` | src/threads/malloc.c:267-294 | a block lies in its arena page past the header, and block_to_arena leads back from it, index included |
| `Blocks.SlotAddr` | src/threads/malloc.c:267-294 | every aligned address in an arena is the block that its index names |
| `Arenas.HeldBlocksApart` | src/threads/malloc.c:89-264 | blocks in callers' hands never overlap, counting every byte that block_size grants |
| `Arenas.HeldInside` | src/threads/malloc.c:178-186 | a held block is inside the pages of its arena, clear of the header, and at least as big as asked |
| `Arenas.PageStep` | src/threads/malloc.c:89-264 | a step that touches one arena page and leaves it in order keeps the invariant of the whole heap |
| `Arenas.ArenaAdded` | src/threads/malloc.c:124-146 | a fresh page becomes an arena whose blocks are all free |
| `Arenas.BlockTaken` | src/threads/malloc.c:148-151 | the first free block passes to a caller and was held by nobody |
| `Arenas.BlockReturned` | src/threads/malloc.c:238-242 | a returned block joins the free list and the count of its arena |
| `Arenas.FullArena` | src/threads/malloc.c:242-246 | when the count reaches the number of blocks, every block of the arena is on the free list |
| `Arenas.ArenaDropped` | src/threads/malloc.c:242-253 | dropping an idle arena with all its blocks keeps the invariant |
| `Malloc.UnlinkArena` | src/threads/malloc.c:247-251 | the unlinking loop removes only linked blocks and leaves none of that page behind |
| `Malloc.CarveArena` | src/threads/malloc.c:141-145 | the loop that fills the free list yields the blocks of the arena in order |
| `Malloc.Heap.Malloc` | src/threads/malloc.c:89-154 | a new block, disjoint from all held ones and big enough, of the class of its size or of pages of its own; fails if and only if the size is 0, or there is neither a free block of the class nor a run of pages; takes pages from the page allocator exactly if there is no free block |
| `Malloc.Heap.Free` | src/threads/malloc.c:218-264 | the block is gone and every other held block keeps its bytes; the page allocator gets the pages of its arena back if and only if no other block is held there, and nothing else changes hands |
| `Malloc.IdleExactly` | src/threads/malloc.c:238-246 | an arena is entirely free if and only if no block of it is held |
| `Malloc.NoneIdleHeld` | src/threads/malloc.c:89-264 | in every state the arenas are exactly the pages of held blocks |
| `Malloc.MallocAndFree` | src/threads/malloc.c:89-264 | malloc and then free leave the page allocator and the other blocks as they were |
| `Malloc.Heap.Realloc` | src/threads/malloc.c:194-214 | on success the common prefix of bytes is preserved and all other blocks keep theirs; on failure nothing changes; what others have from the page allocator is untouched |
| `Malloc.Heap.BlockToArena` | src/threads/malloc.c:267-282 | the assertions of block_to_arena hold of every held block |
| `FileData.ByteToSector` | src/filesys/inode.c:46-54 | byte p of a file is byte p % 512 of the sector p / 512 after its first |
| `FileData.Disk.ReadAt` | src/filesys/inode.c:200-250 | fills the buffer with the bytes of the file from the offset on; the count is exact with and without a bounce buffer |
| `FileData.Disk.WriteAt` | src/filesys/inode.c:257-318 | stores exactly the bytes in range below the file length, or nothing while writes are denied, and no other byte on disk changes |
| `FileData.Disk.WriteChunk` | src/filesys/inode.c:284-308 | one chunk reaches the disk; the branch that would start from a zeroed bounce buffer is unreachable |
| `FileData.ChunkCases` | src/filesys/inode.c:207-247 | the chunks of the transfer loops add up to the bytes in range |
| `FileData.StoredContents` | src/filesys/inode.c:257-318 | as a byte array, the file after a write is the old one with the data spliced in |
| `FileData.StoredOther` | src/filesys/inode.c:257-318 | files that share no sector do not notice the write |
| `FileData.ReadAfterWrite` | src/filesys/inode.c:200-318 | what was written is read back |
| `DiskFormat.HeaderBytes` | src/filesys/inode.c:13-21 | an inode header decodes to the extent that it was made from, with start and length in its first two words, has the magic number, and is zero from there on |
| `DiskFormat.FilledEntry` | src/filesys/directory.c:141-179 | a new directory entry decodes to the name and sector it was made from, each at its place in the record |
| `DiskFormat.EntryWritten` | src/filesys/directory.c:141-216 | writing one entry in place changes that entry only |
| `Directory.NamesFill` | src/filesys/directory.c:141-179 | filling a free entry adds exactly one name |
| `Directory.NamesErase` | src/filesys/directory.c:184-216 | erasing an entry drops exactly its name |
| `Directory.Lookup` | src/filesys/directory.c:91-112 | the search loop, each of whose reads can fail on its own, finds what FindName says |
| `Directory.FindExactly` | src/filesys/directory.c:91-112 | lookup finds a name if and only if some entry has it and no read up to the first such entry fails, and then it finds the inode that the name means |
| `Directory.FindSlot` | src/filesys/directory.c:158-169 | the search of dir_add stops at a free entry, at the end, or at the first read that fails |
| `Directory.Add` | src/filesys/directory.c:141-179 | with separate outcomes for every read of the lookup, every read of the search and the write: succeeds exactly when the name is valid and not found and the write reaches an entry, which it fills in; otherwise leaves the disk alone |
| `Directory.AddExactly` | src/filesys/directory.c:141-179 | dir_add leaves the directory alone or adds exactly one new name if and only if nothing is written, or a free entry is filled with a name that no entry has |
| `Directory.UniqueExactly` | src/filesys/directory.c:141-179 | names stay unique after dir_add if and only if the name is new or the entry overwritten had it |
| `Directory.CleanWhenRead` | src/filesys/directory.c:141-179 | no failing read is enough for a clean add |
| `Directory.AddsWhenRead` | src/filesys/directory.c:141-179 | when all reads succeed, exactly the valid new names are added, given a free entry and the write |
| `Directory.OverwritesName` | src/filesys/directory.c:158-175 | in a root directory of 16 entries a search whose first read fails destroys the name that is there, whatever the names |
| `Directory.DuplicatesName` | src/filesys/directory.c:154-175 | in a root directory of 16 entries a lookup whose first read fails gives a name a second entry, whatever the name |
| `Directory.ListedAfter` | src/filesys/directory.c:141-216 | writing an entry changes which inodes are listed by exactly that entry, and inodes stay listed once |
| `Ownership.FreeUnowned` | src/filesys/free-map.c:27-41 | sectors that are free in the map belong to no live inode |
| `Ownership.StoredLaid` | src/filesys/inode.c:257-318 | a write into one file damages no header and no other file |
| `Ownership.InodeAdded` | src/filesys/inode.c:72-106 | an inode in unowned sectors can join the live ones: still one owner per sector, all of it marked used |
| `Ownership.InodeDropped` | src/filesys/inode.c:163-186 | what a dead inode owned belongs to nobody |
| `FileState.CreateStep` | src/filesys/filesys.c:48-62 | whatever entry the new inode gets, layout, ownership, marking and single listing survive; a file whose entry is overwritten is lost unless it is open, and no other |
| `FileState.TidyAdd` | src/filesys/filesys.c:48-62 | a creation keeps names unique and open files named if and only if its name gets no second entry and no open file loses its entry |
| `FileState.TidyErase` | src/filesys/directory.c:184-216 | removal keeps names unique and open files named or marked removed |
| `FileState.EraseStep` | src/filesys/directory.c:184-216 | erasing the name of an open file keeps its contents |
| `FileState.ReleaseStep` | src/filesys/inode.c:163-186 | the last close of an inode that no entry leads to finds its sectors marked used, and only its contents go |
| `FileSystem.FileSystem.Allocate` | src/filesys/free-map.c:27-41 | the first run of free sectors, given back when the map cannot be written |
| `FileSystem.FileSystem.Release` | src/filesys/free-map.c:44-50 | clears the run; its assertion is the precondition, which every caller meets |
| `FileSystem.FileSystem.InodeCreate` | src/filesys/inode.c:72-106 | on success an inode with all-zero contents in sectors that were free; on failure nothing changes; the success condition is exact |
| `FileSystem.FileSystem.Format` | src/filesys/filesys.c:98-107 | succeeds if and only if nothing fails and both headers, the free map and the root directory fit the device; then the device is sound, has no files, and every marked sector has an owner |
| `FileSystem.FileSystem.InodeOpen` | src/filesys/inode.c:111-142 | opening twice gives the same in-memory inode, whose data agree with the disk |
| `FileSystem.FileSystem.InodeClose` | src/filesys/inode.c:163-186 | the last close of a removed inode clears exactly its header and data sectors in the free map, without ever failing the assertion of free_map_release; any other close leaves the map alone; a sector is left marked without an owner exactly by the last close of an inode whose entry was overwritten |
| `FileSystem.FileSystem.Create` | src/filesys/filesys.c:48-62 | the exact condition of success and of leaking sectors, with every read and write failing or not on its own; on success exactly the sectors of the new inode, which were free, become marked; ownership and layout always survive; names stay unique and open files named under an exact condition; a clean add gives exactly one new name and one file of zeros |
| `FileSystem.FileSystem.Remove` | src/filesys/filesys.c:87-95 | the exact condition of success; the entry found is gone and, with unique names, so is the name; an open file keeps its contents and its sectors; one that is not open is freed: exactly its sectors are cleared in the free map |
| `FileSystem.CreateAndRemove` | src/filesys/filesys.c:48-95 | creating a file and removing it again leaves the free map, the names, the files and the inodes as they were |
| `Ownership.TakenReturned` | src/filesys/inode.c:72-186 | giving back the sectors that an inode was given restores the free map |
| `Ownership.DroppedLeaks` | src/filesys/inode.c:163-186 | an inode dropped without giving its sectors back leaves a sector marked that nobody owns |
| `FileSystem.FileSystem.OpenByName` | src/filesys/filesys.c:69-81 | opens the inode that the name leads to, under an exact condition |
| `FileSystem.OpensWhenRead` | src/filesys/filesys.c:69-81 | when no read fails, exactly the names of the directory can be opened |
| `FileSystem.FileSystem.WriteInode` | src/filesys/inode.c:257-318 | only the bytes in range of this file change, among all files |
| `FileSystem.Leaked` | src/filesys/filesys.c:48-62 | after a failed creation the free map is as before exactly when the file has no data sectors |
| `OpenFiles.FileOpened` | src/filesys/file.c:17-34 | an opened file counts once among the openers of its inode |
| `OpenFiles.WriteDenied` | src/filesys/file.c:118-127 | a file that starts to deny writes keeps the deny count within the open count, so the assertion of inode_deny_write holds |
| `OpenFiles.FileTable.Open` | src/filesys/file.c:17-34 | a new file at position 0 of the named inode, under an exact condition; failure leaves everything as it was |
| `OpenFiles.FileTable.Close` | src/filesys/file.c:45-54 | the file is gone, and its contents exactly if no entry leads to it and this was its last file; its sectors are cleared in the free map exactly if it was removed and this was its last file |
| `OpenFiles.FileTable.Read` | src/filesys/file.c:68-74 | reads at the position and moves it by the count read |
| `OpenFiles.FileTable.Write` | src/filesys/file.c:94-100 | writes nothing while any file of the inode denies writes; otherwise splices the data in at the position and moves it |
| `OpenFiles.FileTable.DenyWrite` | src/filesys/file.c:118-127 | denies at most once per file |
| `OpenFiles.FileTable.Create` | src/filesys/filesys.c:48-62 | creation leaves the bytes of every open file alone, even one whose entry it overwrites |
| `OpenFiles.FileTable.Remove` | src/filesys/filesys.c:87-95 | removal leaves the bytes of every open file alone, also of the removed one; the free map changes exactly if no file uses the inode |
| `KernelInvariant.AlwaysUnblockable` | src/threads/thread.c:251-263 | in every reachable state the assertion of thread_unblock holds wherever it is called |
| `KernelInvariant.MutualExclusion` | src/threads/synch.c:192-251 | two threads that own a lock, from the sema_down of an acquire that waited for it to the sema_up of the first release, are one thread, and the semaphore is then 0 |
| `KernelInvariant.OneList` | src/threads/thread.c:233-363 | no thread is on two of the ready, sleep and waiter lists, and the running thread is on none |
| `KernelSteps.DispatchKeeps` | src/threads/thread.c:558-634 | schedule dispatches a ready thread or the idle thread and keeps the invariant |
| `KernelSteps.YieldKeeps` | src/threads/thread.c:349-363 | yielding keeps the invariant |
| `KernelSteps.WaitKeeps` | src/threads/synch.c:60-76 | blocking in sema_down keeps the invariant; the order of waiters is the subject of WaitQueues |
| `KernelSteps.TakeKeeps` | src/threads/synch.c:60-102 | taking a value keeps the invariant: no value is left over while others wait |
| `KernelSteps.UpKeeps` | src/threads/synch.c:108-121 | sema_up keeps the invariant: the raised value is spoken for by the thread just woken |
| `KernelSteps.TakeHolderKeeps` | src/threads/synch.c:203-205 | recording the holder keeps the lock owned by one thread |
| `KernelSteps.ReleaseKeeps` | src/threads/synch.c:232-240 | clearing the holder keeps the lock owned until the sema_up |
| `KernelSteps.FinishReleaseKeeps` | src/threads/synch.c:232-240 | the sema_up of lock_release makes the lock free again |
| `AlarmClock.InsertInOrder` | src/devices/timer.c:90-117 | the sleep list stays in order of wake-up time, ties in order of arrival |
| `AlarmClock.SleepKeeps` | src/devices/timer.c:100-117 | timer_sleep keeps the invariant |
| `AlarmClock.DueIsPrefix` | src/threads/thread.c:267-283 | stopping at the first sleeper that is not due misses nobody |
| `AlarmClock.WakesExactlyDue` | src/threads/thread.c:267-291 | each check wakes exactly the threads that are due, in wake-up order, and changes nothing else |
| `AlarmClock.TickKeeps` | src/devices/timer.c:190-203 | a timer interrupt keeps the invariant, and after it nobody sleeps past their time |
| `KernelRuns.StepKeeps` | src/threads/synch.c:60-251 | every enabled step keeps the invariant |
| `KernelRuns.RunKeeps` | src/threads/thread.c:133-363 | every state of every run satisfies the invariant |
| `KernelRuns.Reachable` | src/threads/thread.c:109-122 | so does every state reachable from boot |
| `KernelRuns.NoLostWakeup` | src/threads/synch.c:60-121 | in every run from boot, while threads wait the value is at most the number of threads woken that have yet to retry |
| `KernelRuns.LocksExclude` | src/threads/synch.c:192-251 | in every run from boot, a lock has one owner, counted up to the first release, or a semaphore value of 1, never both, never more |
| `KernelRuns.Conservation` | src/threads/synch.c:60-240 | in every run, for every semaphore and for the one inside every lock, value plus completed downs equals initial value plus ups |
| `WaitQueues.FirstGoes` | src/threads/synch.c:60-121 | a step stops the waiting of nobody but the first in line, by a sema_up, and makes that thread ready |
| `WaitQueues.QueueRun` | src/threads/synch.c:60-240 | in every run, who waited at first and who blocked since, in this order, are who was made ready and who waits now |
| `WaitQueues.ServedInOrder` | src/threads/synch.c:60-240 | from boot on, for semaphores and locks, the i-th thread that is made ready is the i-th that blocked |
| `WaitQueues.WaiterMovesUp` | src/threads/synch.c:60-240 | a waiter moves up by one with every sema_up |
| `WaitQueues.ServedByUp` | src/threads/synch.c:60-240 | the waiter at index i is made ready by exactly the (i + 1)th sema_up |
| `KernelRuns.QueueMoves` | src/threads/thread.c:558-634 | a step that schedules moves the ready list up by one; any other only adds at its end |
| `KernelRuns.MovesUp` | src/threads/thread.c:558-634 | a ready thread moves up by one per call of schedule, whatever else happens |
| `KernelRuns.BoundedWaiting` | src/threads/thread.c:349-363 | the thread at index k of the ready list is dispatched by exactly the (k + 1)th call of schedule |
| `KernelRuns.SlicesEnd` | src/threads/thread.c:133-151 | a run has at least one call of schedule per four timer ticks |
| `KernelRuns.SliceExactly` | src/threads/thread.c:133-151 | a timer interrupt takes the processor away exactly at the fourth tick, for the first ready thread |
| `KernelRuns.NotPreemptedEarly` | src/threads/thread.c:133-151 | in every run a thread that does not give the processor up is not preempted before its fourth tick |
| `KernelRuns.ExitIsFinal` | src/threads/thread.c:326-346 | in every run a thread that has exited never runs and is never ready again |
| `KernelRuns.DispatchedInTime` | src/threads/interrupt.c:378-388 | the thread at index k is dispatched within 4 * (k + 1) timer ticks |
| `NestedLocks.ExclusionExactly` | src/threads/synch.c:192-240 | counting acquires minus releases per thread along any run from boot: in all its states only the holder has a positive count, if and only if every release happens at count one |
| `NestedLocks.CountStep` | src/threads/synch.c:192-240 | after a release the count is positive exactly when it was above one, and then the thread is inside without holding the lock |
| `NestedLocks.UnnestedExclusive` | src/threads/synch.c:192-251 | in a run where no thread acquires a lock that it holds, the count is one for the holder and zero for all others |
| `NestedLocks.AtMostOne` | src/threads/synch.c:192-240 | at most one thread is then between an acquire and its matching release |
| `NestedLocks.NestingBreaksExclusion` | src/threads/synch.c:192-240 | from every reachable state where the holder is about to release with another thread next in line: after the handover both are inside exactly when the holder had acquired more than once |
| `NestedLocks.TwoInside` | src/threads/synch.c:192-240 | from every boot state a run puts two threads between acquire and matching release |
| `SleepRuns.SleepsExactly` | src/devices/timer.c:100-117 | in every run a thread that sleeps n ticks stays on the sleep list until the tick it asked for, or the next one if n is not positive, and that tick makes it ready |
| `SleepWindow.MoveExactly` | src/devices/timer.c:100-117 | with joining the sleep list and blocking as two steps: a step fails the assertion of thread_unblock if and only if it is a timer interrupt that finds the running thread on the sleep list and due, and puts a thread on two lists if and only if that interrupt ends the time slice instead; every other step is one of the machine with one step, or none |
| `SleepWindow.Refines` | src/devices/timer.c:100-117 | every run of that machine in which nothing goes wrong is a run of the machine in which a thread joins and blocks at once |
| `SleepWindow.GoesWrongExactly` | src/devices/timer.c:100-117 | the exact conditions of both failures in every state reachable from boot |
| `SleepWindow.NeverOnTwoLists` | src/devices/timer.c:100-117 | in every run in which nothing goes wrong no thread is on two lists, and the running thread is on the sleep list exactly between joining and blocking |
| `SleepWindow.WindowExactly` | src/devices/timer.c:105-116 | whatever interrupt handlers run between joining for n ticks and blocking, nothing goes wrong if and only if there are no timer interrupts among them, or fewer than n and none that ends the time slice |
| `SleepWindow.MthTick` | src/devices/timer.c:105-116 | the m-th timer interrupt in between: the assertion holds if and only if n > m, and then no thread is on two lists if and only if the time slice goes on |
| `SleepWindow.SecondTickPanics` | src/devices/timer.c:105-116 | from boot, a sleep for two ticks and two timer interrupts in between: the second fails the assertion |
| `SleepWindow.PreemptionTangles` | src/devices/timer.c:105-116 | from every boot state and for every n > 1, a run in which the end of the time slice in between puts the thread on two lists |
| `SleepWindow.YieldedWhileJoined` | src/threads/thread.c:349-363 | a thread that yields while on the sleep list is on it still and also ready or dispatched again |
| `SleepWindow.SleepsAsIfAtOnce` | src/devices/timer.c:100-117 | a thread that joins at tick T for n ticks and blocks after any number of interrupts that go well is woken by the same tick as if it had blocked at once |
| `SleepWindow.LoopWakesDue` | src/threads/thread.c:267-291 | the wake-up loop with its assertion is the one without, as long as all sleepers are blocked |
| `ConditionVariables.RunKeeps` | src/threads/synch.c:263-342 | every step of every run keeps the monitor in order: a waiter is listed exactly until it is signalled, and then has one up to take |
| `ConditionVariables.SignalsInOrder` | src/threads/synch.c:290-325 | in every run the i-th signal that finds anybody goes to the i-th thread that joined |
| `ConditionVariables.OnePerSignal` | src/threads/synch.c:290-325 | in every run each such signal lets exactly one waiter past |
| `ConditionVariables.NoSignalLost` | src/threads/synch.c:290-325 | a waiter signalled at any point after it joined, also between its lock_release and its sema_down, does not block again |
| `ConditionVariables.ReturnsWithLock` | src/threads/synch.c:290-306 | in every run the step that brings a thread out of cond_wait takes the free lock for it, and by then each of its calls has been signalled and has passed exactly once |
| `ConditionVariables.NobodyBackEarly` | src/threads/synch.c:290-306 | in every reachable state a thread outside has as many signals and passes as joins |
| `ConditionVariables.Broadcast` | src/threads/synch.c:334-342 | every listed waiter gets exactly one up, in order, and nobody is left listed |
| `Machine.Machine.JoinSleepers` | src/devices/timer.c:105-112 | the search and link of list_insert_ordered puts the thread where the machine says |
| `Machine.Machine.TimerSleep` | src/devices/timer.c:100-117 | timer_sleep without an interrupt before thread_block takes the machine step |
| `Machine.Machine.CheckBlockedList` | src/threads/thread.c:267-283 | the wake-up loop, also when a sleeper is not blocked: it fails exactly when the machine says so |
| `Machine.Machine.TimerInterrupt` | src/devices/timer.c:190-203 | timer_interrupt fails exactly when its wake-up loop does, and otherwise takes the machine step |
| `Machine.Machine.Take` | src/threads/synch.c:60-251 | any enabled step is taken by the methods and keeps the invariant |
| `InterruptQueue.RingPut` | src/devices/intq.c:60-75 | storing at head appends to the contents, also round the end of the buffer |
| `InterruptQueue.RingGet` | src/devices/intq.c:37-55 | reading at tail removes the oldest byte |
| `QueueMachine.StepKeeps` | src/devices/intq.c:37-113 | every step of any number of threads and of interrupt handlers keeps the order of bytes; the assertion of wait fails exactly when a thread woken for the lock gets it while what it came to wait for is the case |
| `QueueMachine.RunKeeps` | src/devices/intq.c:37-113 | in every run bytes come out in the order they went in, none lost or made up |
| `QueueMachine.StepEffect` | src/devices/intq.c:37-75 | a call returns exactly when its byte has been put last, or it has the oldest byte |
| `QueueMachine.StepReady` | src/devices/intq.c:98-113 | a woken thread stays ready until it runs, and the byte that a recorded thread waits for makes it ready |
| `QueueMachine.LockInOrder` | src/devices/intq.c:37-75 | in every run the i-th thread that is made ready for the lock of the queue is the i-th that had to wait for it |
| `QueueMachine.NoStall` | src/devices/intq.c:37-113 | if threads are inside and none is ready, one waits with the lock held for room in a full queue or for a byte in an empty one, and the next byte taken or given makes it ready |
| `QueueMachine.PoliteNeverFails` | src/devices/intq.c:37-96 | if no thread that has to wait enters while another holds the lock of the queue, no run fails the assertion of wait |
| `QueueMachine.FailureExactly` | src/devices/intq.c:37-96 | from any state, without further calls, the assertion of wait can fail if and only if some thread is on its way through lock_acquire |
| `QueueMachine.CallExactly` | src/devices/intq.c:37-96 | a call makes that failure possible if and only if it has to wait while another thread holds the lock |
| `QueueMachine.TwoWritersFail` | src/devices/intq.c:60-96 | two writers at any full queue: the failing run |
| `QueueMachine.TwoReadersFail` | src/devices/intq.c:37-96 | two readers at any empty queue: the failing run |
| `InterruptQueue.IntQ.Call` | src/devices/intq.c:37-75 | intq_putc and intq_getc on the ring buffer take the step of the machine up to where the thread blocks or returns, and never fail there |
| `InterruptQueue.IntQ.Continue` | src/devices/intq.c:37-96 | a woken thread takes the step of the machine, and fails exactly when the machine says so |
| `InterruptQueue.IntQ.Getc` | src/devices/intq.c:37-55 | the oldest byte comes out and the thread that waited for room becomes ready |
| `InterruptQueue.IntQ.Putc` | src/devices/intq.c:60-75 | the byte goes in last and the thread that waited for one becomes ready |
| `Serial.Driver.InitQueue` | src/devices/serial.c:81-95 | entering queue mode sets the interrupt-enable register to match the queues exactly |
| `Serial.Driver.Putc` | src/devices/serial.c:98-130 | bytes sent followed by queued bytes are the accepted bytes in order; waits exactly with interrupts on and a full queue, and then the transmit interrupt is on |
| `Serial.Driver.PutcContinue` | src/devices/serial.c:98-130 | a woken writer is done exactly when its byte is accepted last; it fails exactly when the queue does |
| `Serial.Driver.Flush` | src/devices/serial.c:134-141 | everything accepted is sent, in order, and a waiter is woken |
| `Serial.Driver.Interrupt` | src/devices/serial.c:209-228 | takes in what there is room for, sends as much as the port takes, makes ready those who waited, and leaves exactly the interrupts on that are needed |
| `Serial.Driver.InputPutc` | src/devices/input.c:18-26 | a key joins the input buffer last and the interrupt-enable register matches exactly |
| `Serial.Driver.InputGetc` | src/devices/input.c:30-42 | keys leave in the order they arrived; a reader waits exactly when there are none, and then the receive interrupt is on |
| `Serial.Driver.InputContinue` | src/devices/input.c:30-42 | a woken reader is done exactly when it has the oldest key; it fails exactly when the buffer does |
| `Serial.Driver.NoStall` | src/devices/serial.c:98-228 | with any number of threads inside, if none is ready, the interrupt is on that will make the first of them ready |
| `PageTable.SamePage` | src/threads/pte.h:32-39 | directory and table index together name the page |
| `PageTable.MaskedBits` | src/threads/pte.h:21-104 | masking with PTMASK or PTE_ADDR extracts the bits that the quotients and remainders say |
| `PageTable.SetBit` | src/userprog/pagedir.c:172-215 | setting a flag with | changes that bit and not the page |
| `PageTable.ClearBit` | src/userprog/pagedir.c:143-215 | clearing a flag with & ~ changes that bit and not the page |
| `PageTable.PteRoundTrip` | src/threads/pte.h:85-104 | an entry leads back to the page it was made for, with the flags asked for |
| `PageTable.PdeRoundTrip` | src/threads/pte.h:71-81 | a directory entry leads back to its page table and is present, writable and for users |
| `PageTable.DirtyOnly` | src/userprog/pagedir.c:172-186 | setting or clearing the dirty bit changes that bit only, of all bits |
| `PageTable.AccessedOnly` | src/userprog/pagedir.c:201-215 | setting or clearing the accessed bit changes that bit only, of all bits |
| `PageTable.PresentOnly` | src/userprog/pagedir.c:143-157 | clearing the present bit keeps the page and all other bits |
| `PageDirectory.TableAdded` | src/userprog/pagedir.c:56-86 | a new page table changes no entry of the flat map |
| `PageDirectory.EntryChanged` | src/userprog/pagedir.c:98-157 | writing through directory and table changes one entry of the flat map |
| `PageDirectory.Directory.constructor` | src/userprog/pagedir.c:16-23 | a new directory maps no user page and has the kernel mappings |
| `PageDirectory.Directory.SetPage` | src/userprog/pagedir.c:98-119 | maps one page, no other; fails exactly without memory for a page table |
| `PageDirectory.Directory.GetPage` | src/userprog/pagedir.c:125-137 | the frame plus the page offset, exactly for present pages |
| `PageDirectory.Directory.ClearPage` | src/userprog/pagedir.c:143-157 | only the present bit of one page changes |
| `PageDirectory.Directory.SetDirty` | src/userprog/pagedir.c:172-186 | only the dirty bit of one page changes |
| `PageDirectory.Directory.SetAccessed` | src/userprog/pagedir.c:201-215 | only the accessed bit of one page changes |
| `PageDirectory.FlagsKeepTranslations` | src/userprog/pagedir.c:172-215 | dirty and accessed updates change no translation |
| `PageDirectory.MappedBytes` | src/userprog/pagedir.c:98-137 | after mapping, byte k of the page is found at byte k of the frame |
| `PageDirectory.Directory.Destroy` | src/userprog/pagedir.c:27-48 | the nested loops give back the pages that the specification lists |
| `PageDirectory.DestroyCounts` | src/userprog/pagedir.c:27-48 | one page per present entry, every page table once, the directory once |
| `HeapSort.Heapify` | src/lib/stdlib.c:96-123 | sinking one element restores the heap below it and permutes the prefix |
| `HeapSort.RootBounds` | src/lib/stdlib.c:96-152 | the root of a heap is a largest element |
| `HeapSort.Extract` | src/lib/stdlib.c:146-151 | moving the root behind the heap extends the sorted suffix |
| `HeapSort.Sort` | src/lib/stdlib.c:131-152 | for every total preorder, a sorted permutation in place |
| `HeapSort.BinarySearch` | src/lib/stdlib.c:184-207 | finds a match exactly when the sorted array has one |
| `Numerals.Atoi` | src/lib/stdlib.c:9-41 | skips white space, takes an optional sign, and reads digits with 32-bit wrap-around |
| `Format.AccumulateDigits` | src/lib/stdio.c:501-513 | the digit loop fills the buffer with the grouped digits and stays within it for every 64-bit value |
| `Format.AppendZeros` | src/lib/stdio.c:515-524 | precision zeros and the octal prefix stay within the 64-byte buffer |
| `Format.FormatInteger` | src/lib/stdio.c:469-547 | the output is the specified rendering for every value, base and set of flags, with the buffer never overrun |
| `FormatMeaning.OutputSays` | src/lib/stdio.c:469-547 | for every base, value, set of flags, width and precision the output is blanks, the sign asked for, 0x or 0X exactly for a nonzero hexadecimal with #, digits of the base that denote the value, and blanks, with the blanks on the side asked for |
| `FormatMeaning.CommasFrom` | src/lib/stdio.c:501-513 | commas stand exactly after every group of digits, counted from the least significant one |
| `Numerals.BufferDenotes` | src/lib/stdio.c:501-524 | the digits evaluate back to the value in every base, commas removed |
| `Numerals.PrecisionKept` | src/lib/stdio.c:501-524 | with and without grouping: as many digits as the precision asks for are emitted if and only if the value has them, counting the zero that # adds in octal, or no comma is emitted and the precision is at most 63 |
| `Numerals.AccumulatedCounts` | src/lib/stdio.c:501-513 | how many digits and how many commas the digit loop stores |
| `Numerals.GroupingCountsCommas` | src/lib/stdio.c:506-522 | with grouping, commas count toward the precision: a concrete case |
| `Numerals.WidthKept` | src/lib/stdio.c:526-547 | the output is at least the width, and exactly the width or the unpadded length unless both - and 0 apply to a short field |
| `Numerals.AtoiInvertsFormat` | src/lib/stdio.c:469-547 | for every 32-bit integer and every conversion: atoi of the decimal output is the number if and only if grouping is off or the number has at most three digits |
| `ConversionSpec.ParseConversion` | src/lib/stdio.c:339-460 | flags, width, precision and type of any conversion specification, and exactly when both - and 0 survive |
| `ConversionSpec.TypeMeaning` | src/lib/stdio.c:418-459 | the type is that of the longest length modifier at that place, and just that is consumed |
| `ConversionSpec.SpecReadBack` | src/lib/stdio.c:377-412 | flags, width and precision written in decimal are read back |
| `ConversionSpec.StarsReadBack` | src/lib/stdio.c:377-412 | stars take width and precision from the arguments, a negative precision counting as none |
| `ConversionSpec.NothingReadBack` | src/lib/stdio.c:377-412 | without either the width is 0 and there is no precision |
| `ConversionSpec.PaddedTwice` | src/lib/stdio.c:526-547 | a field that is padded on both sides: a concrete case |
| `Snprintf.Vsnprintf` | src/lib/stdio.c:25-52 | at most n - 1 characters and a terminator are stored, nothing else is touched, and the full length is returned |
| `Snprintf.Truncation` | src/lib/stdio.c:25-52 | the stored text is a prefix, the whole of it exactly when it fits |
| `UstarName.StripPrefixes` | src/lib/ustar.c:65-73 | strips leading slashes and climbing components |
| `UstarName.StrippedSociable` | src/lib/ustar.c:56-73 | the stripped name needs no more stripping and is a suffix of the name, or "." |
| `UstarName.StrippedMeaning` | src/lib/ustar.c:56-73 | exactly the longest front part made of /, ./ and ../ goes, and "." stands only for what is then empty or the parent |
| `UstarName.ParseOctalField` | src/lib/ustar.c:129-162 | accepts exactly the fields that start with octal digits and a blank or null after them and whose number fits, and returns that number |
| `UstarName.OctalMeaning` | src/lib/ustar.c:129-162 | a field has value v if and only if a nonempty run of octal digits denoting v, within an unsigned long, is ended by a blank or a null |
| `UstarName.OctalRoundTrip` | src/lib/ustar.c:129-162 | an octal field that was written is read back |
| `Ustar.CalculateChecksum` | src/lib/ustar.c:36-54 | the plain sum of all characters of the header with eight spaces in the place of the checksum field |
| `Ustar.ChecksumMeaning` | src/lib/ustar.c:36-54 | the same for the sum as the loop computes it, for every header |
| `Ustar.MakeHeader` | src/lib/ustar.c:82-118 | fills all fields of the header, or nothing exactly when the stripped name is too long; the checksum field denotes the plain sum of the header with spaces there |
| `Ustar.HeaderFields` | src/lib/ustar.c:82-118 | what every byte range of a header that was made holds |
| `Ustar.IsAllZeros` | src/lib/ustar.c:166-173 | true exactly for a block of zeros |
| `Ustar.ParseHeader` | src/lib/ustar.c:181-227 | returns what the header means, or the first error; an accepted header says its plain sum, and one with the right magic, version and sum is never refused for its checksum |
| `Ustar.AcceptedExactly` | src/lib/ustar.c:181-227 | exactly which headers are accepted, and as which name, type and size |
| `Ustar.HeaderRoundTrip` | src/lib/ustar.c:82-227 | parsing a header that was made returns the stripped name, the type and the size |
| `Ustar.DamageDetected` | src/lib/ustar.c:36-227 | changing any one byte outside the checksum field makes an accepted header rejected |

## Left out

- Virtual memory (frame table, supplemental pages, swap), system calls, process loading and the ELF loader: their intended invariants rest on global side effects that the code does not settle.
- Device drivers other than the serial port, the partition tables, the console and the file-system utility commands: port I/O and tables.
- ConditionVariables.RunKeeps: the lock is its holder only; waiting for it and taking it nested are covered by the lock modules.
- Priority donation and the multi-level feedback scheduler, which the code declares but does not implement, and the statistics that the timer interrupt keeps.
- The per-thread list of locks (src/threads/synch.c:200 and 237), which the code links before the lock is obtained.
- AlarmClock.SleepKeeps: joining the sleep list and blocking are one step. SleepWindow makes them two, says exactly when an interrupt in between goes wrong, and shows that all other runs are runs of the machine with one step.
- KernelInvariant.AlwaysUnblockable: of the machine with one step for both; SleepWindow.GoesWrongExactly is the statement for two.
- KernelInvariant.OneList: of the machine with one step for both; SleepWindow.NeverOnTwoLists is the statement for two.
- KernelRuns.StepKeeps: of the machine with one step for both; SleepWindow.MoveExactly is the statement for two.
- KernelRuns.RunKeeps: of the machine with one step for both; carried over by SleepWindow.Refines.
- KernelRuns.Reachable: likewise.
- SleepRuns.SleepsExactly: of the machine with one step for both; SleepWindow.SleepsAsIfAtOnce is the statement for two.
- SleepWindow.Refines: what the machine does after a thread has got onto two lists is not modelled.
- Machine.Machine.TimerSleep: without an interrupt between joining and blocking; JoinSleepers is the first half alone.
- Malloc.Heap.Malloc: sizes are unbounded numbers; Blocks.BigPagesExactly says for which sizes the 32-bit page count of the source differs. `calloc` is not modelled.
- Malloc.Heap.Realloc: likewise.
- Malloc.Heap.Free: requires a block that is held, as the source's documentation does; the bytes of arena headers and free-list links are not part of the modelled memory, and the per-descriptor locks are left out.
- PageAllocator.Allocator.FreeMultiple: the filling of freed pages with 0xcc is modelled only as far as `free` shows it.
- LinkedList.Insert: the position is a ghost parameter; the source's check that a node is interior or a tail becomes a precondition.
- LinkedList.Remove: likewise.
- HashTable.Hash.Rehash: each bucket is a sequence; moving nodes between the linked lists of two buckets is covered by the list modules.
- Directory.FindSlot: the buffer for an entry is taken to hold zeros before the first read; only bytes after the terminator of a new name depend on that.
- FileSystem.FileSystem.Allocate: the copy of the free map on disk is not modelled; whether each write of it succeeds is a parameter.
- FileSystem.FileSystem.Release: likewise; the source ignores the outcome of that write.
- The order of the open-inode list, `dir_readdir`, `file_reopen`, `file_seek` and the positioned reads and writes of file.c, which pass their arguments on: easy members. File growth is not implemented in the source.
- FileSystem.FileSystem.OpenByName: the file-system lock is left out; each operation of the file system is one step.
- QueueMachine.StepKeeps: threads are scheduled by the environment; that a ready thread runs is the subject of KernelRuns.
- Serial.Driver.PutcPoll: busy-waiting for the port is not modelled; the port's state is a parameter of the interrupt handler.
- PageDirectory.Directory.SetPage: the check that the frame is within installed memory and the invalidation of the translation buffer are left out; `pagedir_is_dirty` and `pagedir_is_accessed` only read a bit.
- Kernel entries of a page directory are copied and never looked up: addresses are user addresses.
- ConversionSpec.ParseConversion: widths and precisions are unbounded numbers.
- `__vprintf`'s choice of argument width and `format_string` are not modelled; Snprintf.Vsnprintf takes the characters that formatting sends.
- Signed overflow, which C leaves undefined, is modelled as wrap-around in Division and Numerals.
- `bsearch`, `qsort`, list minimum and maximum, `hash_apply`, `hash_clear`, `hash_bytes`, bitmap counting and file I/O: easy members or callers of what is modelled.
- Machine.Machine.Take: the other methods of Machine make the same assignments as the functions of Kernel and have no rows of their own.
