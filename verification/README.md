# Proofs about the kernel

Six parts of the kernel are modelled and proved here: the boundary-tag heap, frames and page
tables with their boot map, tasks, the keyboard ring, the text console and number formatting.
Code that works in place is imperative Dafny over arrays, maps and object fields, and its
methods are proved against specification functions. The properties that span calls are lemmas
about those functions.

`dafny verify dfyconfig.toml` checks everything.

| files | what they hold |
|---|---|
| `Machine` | bytes, 32-bit words, pages |
| `SortedArray` | the index of holes |
| `HeapLayout`, `HeapTheorems` | the heap as a list of blocks; whole runs of alloc and free |
| `HeapTags`, `HeapMemory`, `HeapPages`, `Heap` | the tags in byte memory; the pages and frames behind it; the heap itself |
| `HeapClient` | a client that serves any requests from the heap |
| `HeapDepartures`, `HeapInputs` | where the text of the heap goes wrong, exactly when, and runs that lead there |
| `Frames`, `Paging`, `Vmm` | the bitmap; address spaces as values; paging in place, and boot |
| `KernelMalloc`, `HeapMalloc`, `VmmHeap` | `_malloc` before and after the heap exists; page tables as heap objects |
| `KernelSpace`, `KernelBoot` | heap and page tables in one state: clone_dir that allocates from the heap, and boot to its end |
| `Tasks`, `TaskRuns`, `Scheduler`, `MoveStack` | the scheduler as a state machine, its runs, its linked list; stack relocation |
| `Forking`, `Isolation` | fork over heap, address spaces and tasks together; whole runs of the kernel |
| `KeyRing`, `Keyboard` | the ring under interrupts; the handler and getchar |
| `Console`, `Numerals`, `Printf` | the screen against an endless terminal; numerals; vprintf |

How the main results fit together. `Heap.KernelHeap.Valid` says that memory holds a list of
blocks with all their tags, that the index holds exactly the holes, and that the pages are
mapped. `Alloc` and `Free` keep it and make the transitions `AllocStep` and `Freed` of
`HeapLayout`, and every theorem of `HeapTheorems` is about runs of those transitions.
`HeapClient.Serve` joins the two: it drives a heap through any list of requests and shows that
what happened is such a run. In the same way the methods of `Scheduler` make the steps of `Tasks`,
`Keyboard` drives the machine of `KeyRing`, and `Console` shows a window of the terminal it is
compared with.

`KernelSpace.Coupled` puts the heap and the page tables into one state: one bitmap, the heap's page
entries are those of the kernel directory, and every table and directory lies in a live block of the
heap or below it. `KernelBoot.Boot` runs init_paging to its end and reaches such a state;
`KernelSpace.CloneInHeap` and `FreeBeside` keep it. `Forking.Start` begins a run of the machine of
`Isolation`, and `Forking.Fork` and `Forking.MapPage` are steps of it. Its theorems say that over any
run a task's private pages change by its own doing only, and that a fork hands over a snapshot.

## Departures

Where the text of the code departs from its purpose, the purpose is modelled. Each departure
is named here and in a comment at the code concerned; where a lemma says exactly when the
text would do the right thing, it is given.

- Unaligned test (`src/kheap.c:23,61,82,98`): `x & 0xFFF != 0` tests the lowest bit.
  `HeapDepartures.UnalignedTestIff`.
- Fit test (`src/kheap.c:28`): a hole smaller than its gap wraps around and seems huge.
  `HeapDepartures.FitTestIff`; `HeapInputs.ShortHoleInput`.
- Live count (`src/sorted_array.c:80-87`, `src/kheap.c:17,40,134,246,266`): the capacity is used
  as the number of live items, and remove lowers the wrong one of the two.
  `SortedArrays.TextRemoveIff`; the loops over the index find the right slot exactly when a live
  item passes their test or no dead slot does (`HeapDepartures.TextScanIff`), and the highest hole
  exactly when no dead slot is higher (`HeapDepartures.TextHighestIff`).
- Size order (`src/kheap.c:48-50`, `src/sorted_array.c:45`): the heap's comparator is never
  negative, so its index is not ordered: a new hole comes first. This one is modelled as written.
  `SortedArrays.NeverNegativePushesFront`, `Heap.KernelHeap.AddToIndex`.
- Aligned split (`src/kheap.c:167-185`): the front hole is recorded 12 bytes short, the absorb
  test comes before alignment shrinks the hole, and a gap too short for two tags is not
  avoided. `HeapDepartures.TextSplitIff`, `HeapDepartures.TextSplitInput`.
- Trailing footer (`src/kheap.c:204`) and first footer (`src/kheap.c:72-76`): the footer of a
  left-over hole is written one block too low, and the first hole gets none. Every hole has
  its footer at its end. `HeapDepartures.TextFooterIff`, `HeapDepartures.TextFirstFooterIff`.
- Topmost hole (`src/kheap.c:153-159`): it grows even if a live block follows.
  `HeapDepartures.TextGrowthOverlaps`; `HeapInputs.TopmostInput`.
- Null test (`src/kheap.c:217`): assigns, so that free goes on with the header of a payload at 0
  and never frees the block it is given. `HeapDepartures.TextNeverFrees`.
- Lost merge (`src/kheap.c:243`): a merge with the next block alone drops the merged hole from the
  index. `HeapDepartures.TextIndexIff`; `HeapInputs.LostMergeInput`.
- Neighbour tests (`src/kheap.c:227-238`): they read below the first block and past the last
  one. They are guarded by the heap bounds here. `HeapDepartures.NeighbourTestIff`,
  `HeapDepartures.NeighbourBelowIff`, and `HeapDepartures.StaleHeaderAfterContraction` for a
  header that really lies there.
- Vanished hole (`src/kheap.c:264-276`): the search is for another header, and a hole that is
  new and vanishes at once is still inserted. `HeapDepartures.TextTrimIff`;
  `HeapInputs.VanishedInput`.
- Contracted remainder (`src/kheap.c:97-117`): a remainder of 1 to 19 bytes keeps one more page.
  `HeapDepartures.TextContractIff`, `HeapDepartures.TextContractInput`.
- Smallest heap (`src/kheap.c:103-105`): contracting a heap that is shorter than HEAP_MIN_SIZE
  would move its end up over unmapped pages. `HeapDepartures.ContractShrinksIff`.
- Clear takes an address (`src/page.c:109`): it is given a frame number.
  `Frames.TextClearsFrameZero`. Freeing leaves the valid flag of the entry set, as in the text,
  and a cloned entry is always valid and a user page whatever the original was
  (`src/page.c:263-266`).
- No frame (`src/page.c:92-100`): with every frame in use alloc_frame warns and goes on with
  frame -1. `Frames.TextWithoutFrameIff`.
- Directory address (`src/page.c:232`): the physical address of a directory is taken to run on
  from its first page into its second. `VmmHeap.DirectoryAddressIff`.
- Frame 0 means no frame (`src/page.c:88,106,261`): bit 0 belongs to page 0 for ever.
- Null test of the scheduler (`src/task.c:191`): the text reads the pid of the next task before
  it asks whether there is one; without one it reads the word at address 0.
  `Tasks.TextFindsIff`, `Tasks.TextFindsInput`.
- Full test of the ring (`src/keyboard.c:289`): misses a full ring when start is 0.
  `KeyRing.TextFullIff`, `KeyRing.TextRunIff`, `KeyRing.TextLosesAll`.
- Lone percent sign (`src/printf.c:34-36`): the terminator is emitted and what follows it is
  read as format. This one is modelled as written. `Printf.TerminatorStopsIff`.

## Model

| member | source | states |
|---|---|---|
| SortedArrays.SortedArray.Place | src/sorted_array.c:26-35 | the index starts empty over the storage it is given |
| SortedArrays.SortedArray.Insert | src/sorted_array.c:42-63 | the live items become the old ones with the new one at the slot where the scan stops; nothing past slot cur+1 is touched |
| SortedArrays.SortedArray.Shift | src/sorted_array.c:51-61 | every item from the slot on moves up one, the item takes the slot, the rest stays |
| SortedArrays.SortedArray.Remove | src/sorted_array.c:74-88 | exactly the item at the index leaves, the others keep their order; out of range nothing changes |
| SortedArrays.InsertKeepsSorted | src/sorted_array.c:42-63 | with a comparator of a total preorder a sorted live part stays sorted and its multiset gains exactly the item |
| SortedArrays.NeverNegativePushesFront | src/kheap.c:48-50 | with a comparator that is never negative, like the heap's, insertion is push-front |
| SortedArrays.RemoveKeepsOrder | src/sorted_array.c:74-88 | removal keeps sortedness and takes one item out of the multiset |
| SortedArrays.RemoveUndoesInsert | src/sorted_array.c:42-88 | removing at the slot of an insertion restores the list |
| SortedArrays.TextRemoveIff | src/sorted_array.c:84-87 | remove as written leaves the right live part exactly when the index was outside it; otherwise which dead slot becomes live |
| Heap.KernelHeap.constructor | src/kheap.c:52-79 | a heap of one hole between the aligned start and the end, with both tags, indexed, nothing outside written |
| Heap.KernelHeap.FindHoleFitFirst | src/kheap.c:12-46 | the first hole of the index that fits, or -1 exactly when none has a place for the request |
| Heap.KernelHeap.AddToIndex | src/kheap.c:48-50 | the hole comes first in the index, the others stay in their order |
| Heap.KernelHeap.MapPage | src/kheap.c:90-91 | the entry of the page and the bitmap afterwards: unchanged if it had a frame, otherwise one free frame more |
| Heap.KernelHeap.Expand | src/kheap.c:81-95 | the end moves to the rounded size; exactly the pages up to it that have no frame take one each, which was free; no other page and no other bit changes |
| Heap.KernelHeap.Extend | src/kheap.c:123-160 | expansion and the growth of the topmost hole make the transition ExtendedBy, write only the topmost hole and take a frame for each new page that has none |
| Heap.KernelHeap.CoverNewPages | src/kheap.c:130-159 | the new pages join the hole that ends at the old heap end, or form a new indexed hole |
| Heap.KernelHeap.Topmost | src/kheap.c:130-141 | the slot of the highest indexed hole, -1 exactly for an empty index |
| Heap.KernelHeap.Alloc | src/kheap.c:119-213 | keeps the heap valid and makes the transition AllocStep; with no expansion the payload is at the lowest place of the first hole of the index that has one, and there is an expansion only if no hole has; no byte of any live block changes, and exactly the frames that the new pages lack are taken |
| Heap.KernelHeap.ExtendFor | src/kheap.c:122-161 | one round of the self-call lowers the shortfall strictly and leaves the live blocks as they were |
| Heap.KernelHeap.Carve | src/kheap.c:164-212 | the hole becomes a front hole over the gap, the block and a trailing hole, in tags and in the index |
| Heap.KernelHeap.Reindex | src/kheap.c:172-209 | the index after carving: the trailing hole first, the carved hole in its old place if a gap is left of it and gone otherwise, the others in their order |
| Heap.KernelHeap.SplitHole | src/kheap.c:172-211 | tags and index after the split are those of the carved blocks; the payload address is the aligned one |
| Heap.KernelHeap.Contract | src/kheap.c:97-117 | the end moves to the settled length; exactly the pages above it but the one at the new end lose their frames, and exactly those bits are cleared |
| Heap.KernelHeap.UnmapPage | src/kheap.c:110 | the entry of the page is empty and exactly the bit of its frame is cleared |
| Heap.KernelHeap.Free | src/kheap.c:216-277 | null does nothing; otherwise the transition Freed, with no byte of any other live block changed and exactly the frames of the pages above the new end given back |
| Heap.KernelHeap.FreeLive | src/kheap.c:219-277 | the same for a block |
| Heap.KernelHeap.Coalesce | src/kheap.c:219-252 | the block and its hole neighbours become one hole, in all four cases, and which of them the index must lose or gain |
| Heap.KernelHeap.MarkAndJoinLeft | src/kheap.c:222-234 | the block is a hole, joined to the one before it exactly if that is a hole |
| Heap.KernelHeap.JoinRight | src/kheap.c:237-243 | joined to the block after it exactly if that is a hole |
| Heap.KernelHeap.FinishFree | src/kheap.c:245-276 | after coalescing, end, tags and index are those of the freed heap |
| Heap.KernelHeap.TrimTop | src/kheap.c:254-274 | contraction shortens the last hole or drops it, and the index loses it exactly if it vanished |
| HeapPages.GrownTrans | src/kheap.c:87-93 | two expansions one after the other take what one over both ranges takes |
| HeapPages.FrameLeft | src/page.c:92-96 | while a page without a frame is still to come a frame is free, if the frames in use left one for each such page |
| HeapPages.GrownPage | src/page.c:86-102 | an expanded page without a frame gets one that was free, and the flags that the heap asks for; every other entry stays |
| HeapPages.ShrunkPage | src/page.c:104-111 | a page given up loses its frame and nothing else, exactly such bits are cleared, every other entry stays |
| HeapPages.TakenBack | src/kheap.c:87-112 | k pages given up by contract and taken back by expand cost k - 1 frames, and the page at the contracted end keeps its entry |
| HeapClient.ContractThenExpand | src/kheap.c:81-117 | the same for the heap itself: any contraction can be undone, and then as many frames are in use as before |
| HeapClient.HolesBound | src/kheap.c:224-276 | no more holes than live blocks, and one |
| HeapClient.PayloadKeepsTiling | src/kheap.h:14-25 | a store into a payload leaves every tag of the heap alone |
| HeapClient.TraceHoldsBytes | src/kheap.c:119-277 | in the run of a heap, a block that is not freed keeps its bytes from any call to any later one |
| HeapClient.Serve | src/kheap.c:119-277 | a heap serves any list of allocs and frees within a budget: its states form a run, every object still held keeps its data in a live block of its own, as long and as aligned as asked, and no other block is live that was not before |
| HeapMemory.IndexTop | src/kheap.c:130-155 | the hole at the heap end, if any, is the highest indexed one and the only one whose size reaches the end |
| HeapMemory.NoneFits | src/kheap.c:16-43 | if no indexed hole passes the test, no block of the heap fits |
| HeapMemory.CarveTags | src/kheap.c:172-208 | memory holds front hole, block and trailing hole with all their tags, nothing else written |
| HeapMemory.JoinTags | src/kheap.c:229-242 | two neighbouring blocks become one of the summed size whose footer points to the first header |
| HeapMemory.HoleEndsAt | src/kheap.c:227-228 | the footer test answers whether the block before is a hole, and gives its header |
| HeapMemory.HoleStartsAt | src/kheap.c:237-238 | the header test answers whether the block after is a hole |
| HeapTags.TiledSplice | src/kheap.h:14-25 | rewriting the bytes of a stretch of blocks replaces exactly that stretch of the tiling |
| HeapTags.TagBytes | src/kheap.h:14-25 | a block in memory, byte by byte: flag, magic and size in front, magic and header pointer at the end |
| HeapTags.StoreBlock | src/kheap.c:190-196 | header and footer as written form a block, nothing outside it changes |
| HeapLayout.Gap | src/kheap.c:20-26 | the payload lands on a page boundary if asked, and a gap is empty or has room for two tags |
| HeapLayout.GapIsLeast | src/kheap.c:20-26 | no shorter gap is empty or has room for two tags and brings the payload to a page boundary when asked |
| HeapLayout.PlaceInHole | src/kheap.c:20-35 | a hole passes the test exactly when it has a place for the request, and the payload goes to the lowest one |
| HeapLayout.CarveKeeps | src/kheap.c:164-212 | carving keeps tiling and separation and adds exactly one live block, of the size asked for or less than two tags more |
| HeapLayout.ExtendKeeps | src/kheap.c:123-159 | extending keeps the live blocks and the place where the topmost hole starts |
| HeapLayout.ExtendProgress | src/kheap.c:122-161 | the shortfall falls by the whole rounded request, and afterwards only the topmost hole may fit |
| HeapLayout.ShortfallBound | src/kheap.c:122-161 | the shortfall is at most a page more than the request |
| HeapLayout.TwoExtensionsSuffice | src/kheap.c:161 | after two extensions some hole fits, whatever the heap |
| HeapLayout.AtMostTwoRounds | src/kheap.c:119-162 | alloc calls itself at most twice |
| HeapLayout.RoundsStep | src/kheap.c:161 | each self-call leaves exactly one round fewer and that much less growth |
| HeapLayout.ContractLen | src/kheap.c:97-105 | the settled length is whole pages, at least the minimum, and leaves no remainder too short for two tags |
| HeapLayout.ContractLenIsLeast | src/kheap.c:97-105 | no shorter length is like that |
| HeapLayout.FreedAtKeeps | src/kheap.c:216-252 | coalescing keeps tiling and separation and takes out exactly the one live block |
| HeapLayout.TrimmedKeeps | src/kheap.c:254-274 | contraction keeps the live blocks, separation and the minimum size |
| HeapLayout.FreedKeeps | src/kheap.c:216-277 | a whole free keeps the heap well formed and takes out exactly the one live block |
| HeapLayout.StepsAreFreedAt | src/kheap.c:222-243 | marking, joining left and joining right come to one hole over the three blocks |
| HeapLayout.FreedHoles | src/kheap.c:224-276 | which hole is new and which is gone, in all four cases |
| HeapLayout.LiveDisjoint | src/kheap.c:212 | any two live blocks are disjoint, tags included |
| HeapTheorems.Canonical | src/kheap.c:164-276 | the blocks are a function of the live blocks and the length |
| HeapTheorems.SameLiveSameHeap | src/kheap.c:164-276 | two heaps with the same bounds and live blocks have the same tiling and the same indexed holes |
| HeapTheorems.AllocThenFree | src/kheap.c:119-277 | alloc then free without expansion or contraction restores the heap |
| HeapTheorems.FreeEnd | src/kheap.c:254-263 | when and where a free moves the heap end |
| HeapTheorems.AllocPromise | src/kheap.c:119-213 | the payload is at least as long as asked, inside the heap, aligned when asked, apart from every live block, and every live block stays |
| HeapTheorems.AllocPlaces | src/kheap.c:119-213 | expansions included: the heap is extended only while no hole has a place, and then the payload is at the lowest place of a hole |
| HeapTheorems.AllocAlwaysSucceeds | src/kheap.c:119-162 | every request is met, with no expansion exactly when some hole fits |
| HeapTheorems.RunSafe | src/kheap.c:52-277 | in every state of every run the blocks tile the heap, no two holes are adjacent, live blocks are disjoint and inside |
| HeapTheorems.HeldUntilFreed | src/kheap.c:119-277 | a block stays allocated over any run in which the client does not free it |
| HeapTheorems.BytesHeld | src/kheap.c:119-277 | over any run of calls that keep their promises the bytes of a block that is not freed stay as they were, whatever is allocated and freed meanwhile |
| HeapTheorems.RunRestores | src/kheap.c:119-277 | a run that ends with the bounds and live blocks it began with ends in the state it began in |
| HeapDepartures.UnalignedTestIff | src/kheap.c:23 | the test as parsed is right exactly for odd and for aligned values |
| HeapDepartures.FitTestIff | src/kheap.c:28-29 | the unsigned test is right exactly when the gap fits the hole or the wrapped value is still too small |
| HeapDepartures.TextSplitIff | src/kheap.c:167-211 | the blocks written cover exactly the hole if and only if there is no gap; with a gap they run 12 bytes or more over what follows |
| HeapDepartures.TextSplitInput | src/kheap.c:167-211 | a hole of 100 bytes with a gap of 15, in which a block of 85 bytes ends 15 bytes beyond the hole |
| HeapDepartures.TextFooterIff | src/kheap.c:204 | the footer is never at the end of the trailing hole, and lies over the new block exactly if the rest is shorter than that block and a footer |
| HeapDepartures.TextFirstFooterIff | src/kheap.c:72-76 | memory holds the first hole exactly if its footer was there before |
| HeapDepartures.TextGrowthOverlaps | src/kheap.c:153-159 | the grown hole runs over a live block exactly when it is not the last block |
| HeapDepartures.TextIndexIff | src/kheap.c:243 | the index stays right exactly when the block before is a hole or the one after is not |
| HeapDepartures.TextTrimIff | src/kheap.c:258-276 | the index is right after a contraction exactly if something of the hole is left |
| HeapDepartures.NeighbourTestIff | src/kheap.c:237-238 | the test is right exactly below the heap end or with no stale header past it |
| HeapDepartures.NeighbourBelowIff | src/kheap.c:227-228 | the test is right exactly above the heap start or with no footer of a hole below it |
| HeapDepartures.StaleHeaderAfterContraction | src/kheap.c:264-273 | dropping the last hole leaves such a header at the new end |
| HeapDepartures.ContractShrinksIff | src/kheap.c:103-105 | contraction does not grow the heap exactly when the heap has the minimum size |
| HeapDepartures.TextContractIff | src/kheap.c:97-105 | the text's length leaves nothing of the last hole or a block with room for its tags exactly if the hole does not start in the last 19 bytes of a page or the minimum decides |
| HeapDepartures.TextContractInput | src/kheap.c:97-105 | behind a block of 0x70FF6 bytes ten bytes are left of the hole |
| HeapDepartures.TextScanIff | src/kheap.c:16-46 | a scan up to the capacity finds the slot it should exactly when a live item passes the test or no dead slot does |
| HeapDepartures.TextHighestIff | src/kheap.c:134-141 | so for the highest hole, exactly when no dead slot is higher than all live items |
| HeapDepartures.TextNeverFrees | src/kheap.c:217-219 | the header the text goes on with is never that of the block, and not in the heap |
| HeapInputs.ShortHoleInput | src/kheap.c:20-30 | three allocs and a free leave a hole of 100 bytes with a gap of 3983, which the text takes to fit 1000 bytes |
| HeapInputs.TopmostInput | src/kheap.c:153-159 | two blocks fill the heap and the lower one is freed: its hole would grow over the upper one |
| HeapInputs.LostMergeInput | src/kheap.c:243 | one block is taken and freed: the index by the text is not that of the heap |
| HeapInputs.VanishedInput | src/kheap.c:258-276 | the upper of two blocks that fill the heap is freed and given up: the text enters its hole into the index |
| Frames.MaskIsShift | src/page.c:51 | the masks are 0x80 shifted, most significant bit first |
| Frames.Bitmap.SetFrame | src/page.c:46-52 | the set of used frames gains exactly the frame of the address |
| Frames.Bitmap.ClearFrame | src/page.c:54-60 | it loses exactly that frame |
| Frames.Bitmap.IsInFrame | src/page.c:62-68 | membership |
| Frames.Bitmap.FirstFrame | src/page.c:70-84 | the least free frame, or -1 exactly when all are used |
| Frames.AllocFrame | src/page.c:86-102 | an entry with a frame is left alone; another gets the least free frame, its flags and its bit |
| Frames.TextWithoutFrameIff | src/page.c:92-100 | the byte set for frame -1 is one of the bitmap exactly if the bitmap covers the whole address space |
| Frames.FreeFrame | src/page.c:104-111 | the frame number is cleared and its bit released, if there was one |
| Frames.TextClearsFrameZero | src/page.c:109 | passing the number as an address is right exactly for frame 0 |
| Paging.TakeKeepsOwned | src/page.c:86-102 | putting an unclaimed frame into an empty entry keeps one owner for every set bit |
| Paging.ReleaseKeepsOwned | src/page.c:104-111 | so does releasing one |
| Paging.WithTableValid | src/page.c:171-178 | a fresh table in a directory keeps the whole space valid |
| Paging.PrivateFrame | src/page.c:236-249 | a frame of a private page is shown by no other directory and at no other page |
| Paging.PrivateStoresInvisible | src/page.c:224-274 | any sequence of stores through private pages of one space is invisible in every other |
| Paging.StoreSeen | src/page.c:164-170 | a store is seen through its own space, at that word only |
| Paging.KernelStoreSeenByAll | src/page.c:240-243 | a store through a kernel page of one space is seen in every other space that has the page |
| Paging.HardwareSees | src/page.h:26-33 | following the physical addresses of a directory the processor finds exactly the entries that the kernel records, through tables that are present, writable and open to the user |
| Vmm.Vmm.ProcessorSees | src/page.c:164-183 | so in every valid state and every directory |
| Paging.NewDirValid | src/page.c:224-252 | a directory of shared kernel tables and fresh private ones keeps the space valid |
| Vmm.Vmm.constructor | src/page.c:122-131 | clear bitmap, empty directory, both from the bump allocator |
| Vmm.Vmm.AllocSlot | src/page.c:86-102 | alloc_frame on an entry keeps frame ownership and the whole space valid |
| Vmm.Vmm.FreeSlot | src/page.c:104-111 | so does free_frame |
| Vmm.HousedApart | src/page.h:20-33 | every table and directory has addresses to itself, over its whole length |
| Vmm.Vmm.MallocAligned | src/kernel_malloc.c:36-57 | the object's pages, and the physical pages behind them, are apart from those of every table and directory |
| Vmm.Vmm.MallocTable | src/page.c:174-176 | a zeroed table at a fresh address, from the bump allocator or from what the heap returns, at a physical page of its own |
| Vmm.Vmm.GetPage | src/page.c:164-183 | the existing entry, or a fresh table when asked to make one, named by its physical address in the directory, or none; nothing else changes |
| Vmm.Vmm.CopyPagePhy | src/process.s:8-37 | the target frame holds the words of the source frame and no other frame changes |
| Vmm.Vmm.CloneTable | src/page.c:254-274 | every mapped entry gets a fresh frame with the same words and flags, no frame in use changes, and the physical address returned is that of the new table |
| Vmm.Vmm.CloneDir | src/page.c:224-252 | kernel tables shared, the others copied, the entries the processor reads named accordingly, ownership and validity kept, the parent untouched, and exactly as many frames taken as the private tables hold |
| Vmm.Vmm.CloneEntryOfDir | src/page.c:237-249 | one round of the loop: nothing, the shared table, or a copy |
| Vmm.CloneViews | src/page.c:224-274 | the child shows the parent's contents at every virtual page, kernel entries are the same; every other page that has a frame gets one that was free, valid and open to the user with the other flags of the parent's, and those without one stay empty |
| Vmm.Vmm.IdentityMap | src/page.c:141-145 | the loop ends although get_page moves its bound, and exactly the pages below the final bound are mapped to themselves |
| Vmm.Vmm.MapHeapPages | src/page.c:147-149 | heap pages get the following frames and placement_address stays where it is |
| Vmm.Vmm.InitPaging | src/page.c:133-149 | the boot map, with the heap tables made first |
| Vmm.InitPagingFrom | src/page.c:118-149 | the same from nothing, for any end of the kernel image that leaves room |
| Vmm.BootPages | src/page.c:133-149 | the boot map entry by entry: the pages below n to themselves, the heap pages to the frames that follow, all valid, writable and open to the user, and nothing else |
| Vmm.BootHardware | src/page.c:133-155 | what the processor walks after boot is exactly the boot map |
| KernelMalloc.Place | src/kernel_malloc.c:39-47 | at the placement address or the next page boundary |
| KernelMalloc.BumpDisjoint | src/kernel_malloc.c:36-48 | over any run of requests objects are in address order, aligned when asked and disjoint |
| KernelMalloc.BumpTight | src/kernel_malloc.c:36-48 | each object starts where the one before ends, or at the next page boundary |
| HeapMalloc.Malloc | src/kernel_malloc.c:49-57 | alloc's promise, the payload inside the heap, and the physical address that the page entries give it |
| HeapMalloc.TranslateInjective | src/kernel_malloc.c:53-54 | no two heap addresses have the same physical address |
| HeapMalloc.TranslateWithinPage | src/kernel_malloc.c:53-54 | consecutive addresses of a page are consecutive in memory |
| VmmHeap.MallocFresh | src/kernel_malloc.c:49-56 | an aligned object that alloc has just returned shares no page, virtual or physical, with any table or directory, and is then known like those |
| VmmHeap.KnownGrown | src/kheap.c:119-213 | alloc leaves every table and directory where it is |
| VmmHeap.KnownShrunk | src/kheap.c:216-277 | so does a free of any block that holds none of them, contraction included |
| VmmHeap.HeapObject | src/kernel_malloc.c:49-57 | the object that alloc returns for a table or a directory is fresh, whatever the heap has handed out before |
| VmmHeap.DirectoryAddressIff | src/page.c:232 | the physical address of a directory from the heap runs on into its second page exactly if that page has the next frame |
| KernelSpace.EnterPages | src/kheap.c:87-93 | the kernel's tables hold what expand has put into the page entries, one owner for every frame, nothing else changed |
| KernelSpace.LeavePages | src/kheap.c:107-113 | so for contract |
| KernelSpace.MallocObject | src/kernel_malloc.c:49-57 | one state again after _malloc_ap: heap, page tables and the new object |
| KernelSpace.MallocForClone | src/page.c:227-255 | a directory and n tables from n + 1 calls, each fresh when those before it are taken |
| KernelSpace.FreeBeside | src/kernel_malloc.c:60-62 | kfree of any other block keeps that state and changes kernel tables only |
| KernelSpace.PrivateFramesKept | src/page.c:240 | growth of the kernel's tables leaves the private frames of a directory as they are |
| KernelSpace.CloneInHeap | src/page.c:224-252 | clone_dir with the heap: only empty entries of kernel tables may gain frames, and over the result the new directory is a clone |
| KernelBoot.BootServesHeap | src/page.c:133-157 | the boot map provides the pages that create_heap needs, mapped to frames of their own |
| KernelBoot.BootKnown | src/page.c:133-157 | tables and directories of the bump allocator lie below the heap, where the map says |
| KernelBoot.CreateHeap | src/page.c:157 | the heap over the boot map is one hole, in one state with the page tables, neither for the supervisor alone nor read-only |
| KernelBoot.Boot | src/page.c:118-160 | from nothing to the directory that the first task runs on: boot map, heap, and a clone of the kernel directory |
| Tasks.StepOrdered | src/task.c:59-150 | fork, switch and kill keep pids strictly increasing, the current task listed, the head in place and pids fresh |
| Tasks.StepLogged | src/task.c:83-99 | they keep: each new pid returned once, 0 returned once in each child that is past its fork |
| Tasks.StepTime | src/task.c:117-123 | the total time rises by one for a switch and not otherwise |
| Tasks.ForkIs | src/task.c:59-90 | fork changes no task and not what runs; the child is the last of the list, with no time |
| Tasks.SwitchIs | src/task.c:106-150 | task_switch goes to the next task or from the last to the first; only the task it leaves changes, by its registers and one tick |
| Tasks.ExitIs | src/task.c:184-232 | a kill of a listed pid: nobody with it is left, the others stay in their order with directory and time, the dead gain exactly the victim, the task before it goes on |
| Tasks.ExitMisses | src/task.c:190-197 | a kill of any other pid does nothing |
| Tasks.TextFindsIff | src/task.c:190-197 | the search as written is right exactly when the pid is listed after the head or the word at address 0 is another |
| Tasks.TextFindsInput | src/task.c:190-197 | right after boot a kill of the pid that stands at address 0 takes the null pointer for the victim |
| TaskRuns.RunSafe | src/task.c:59-232 | all of that in every state of every run |
| TaskRuns.RunTime | src/task.c:106-123 | total time counts the switches, killed tasks included |
| TaskRuns.RunDead | src/task.c:184-232 | in every state of every run no killed task is listed, and the dead only grow |
| TaskRuns.KilledForGood | src/task.c:184-232 | a killed pid is never listed, current or given again |
| TaskRuns.RunTimes | src/task.c:117-123 | the time of each task, killed or not, is the number of switches made while it ran |
| TaskRuns.RunDirectory | src/task.c:129 | in every state the directory in force is that of the current task |
| TaskRuns.RecordKept | src/task.c:117-123 | the saved registers of a task stay as saved while it does not run |
| TaskRuns.ResumedAsSaved | src/task.c:125-149 | a task is resumed with exactly the eip, esp, ebp and directory last saved for it |
| TaskRuns.ChildFirstRuns | src/task.c:83-99 | a child first runs inside fork with its parent's registers, where fork returns 0 |
| TaskRuns.WaitRun | src/task.c:122-123 | without kills every switch brings a waiting task one nearer and a fork puts it off by at most one |
| TaskRuns.BoundedWait | src/task.c:106-123 | without kills a task in a list of n runs within n plus f switches, f the forks meanwhile |
| Scheduler.Scheduler.constructor | src/task.c:45-53 | the list with the first task is the boot state |
| Scheduler.Scheduler.DoFork | src/task.c:59-100 | the linked list makes the step Fork and the parent gets the new pid |
| Forking.Start | src/page.c:118-160 | boot to its end with the first task on the clone of the kernel directory: a state in which the kernel's runs begin |
| Forking.Fork | src/task.c:59-100 | the child gets the next pid and a clone of the current address space: the same contents at every page, kernel pages shared, all others in frames that were free; its tables and directory come from the heap; and it is a step of the kernel's runs |
| Forking.ForkedIs | src/page.c:224-274 | what parent and child show at each page afterwards, also where alloc has given the kernel a new one |
| Forking.MapPage | src/task.c:9-11 | a page of the running task that has no frame gets one that was free, valid, writable and open to the user, with a table from the heap if there is none; a page that has one stays, and so does every other entry; a step of the kernel's runs |
| Isolation.StepOwners | src/task.c:59-150 | only fork gives a directory to a task, and a kill takes none away |
| Isolation.MappedEntry | src/page.c:86-102 | what a mapping does to the entry of the page, and to no other |
| Isolation.WorldStepSettled | src/task.c:59-150 | every step keeps the spaces well formed, all directories, and one directory for each task |
| Isolation.WorldStepKeeps | src/page.c:224-274 | no fork, switch, kill, mapping or kernel page, and no store by another, changes a private page |
| Isolation.RunSettled | src/task.c:59-232 | in every state of every run every task, killed or not, has a directory that exists and is no other's, and the current one's is in force |
| Isolation.PagesKept | src/task.c:59-232 | over any part of any run each private page of a task shows in the end what it showed before, unless the task itself stored or mapped |
| Isolation.ForkIsSnapshot | src/task.c:59-100 | until the child stores or maps something it shows what its parent showed at the fork, whatever all others have done since |
| Scheduler.Scheduler.Tail | src/task.c:77-80 | the last task of the list |
| Scheduler.Scheduler.TaskSwitch | src/task.c:106-150 | the list makes the step Switch |
| Scheduler.Scheduler.Before | src/task.c:190-197 | the task before the victim, or the last one when there is no victim |
| Scheduler.Scheduler.Unlink | src/task.c:198-215 | exactly the victim leaves the list and the task before it is current |
| Scheduler.Scheduler.TaskExitPid | src/task.c:184-232 | the list makes the step Exit, which Tasks.ExitIs says outright |
| MoveStack.RelocationExact | src/task.c:21-34 | the 32-bit sum is the exact one and lands strictly inside the new stack |
| MoveStack.MoveStack | src/task.c:16-38 | every word of memory afterwards: copied, and relocated once if scanned and strictly inside the old stack |
| MoveStack.Scan | src/task.c:27-34 | each scanned word is relocated exactly once |
| MoveStack.ChainMoved | src/task.c:27-37 | a frame-pointer chain of any length, walked on the new stack, is the old walk shifted, for a stack no longer than the scanned size |
| MoveStack.ChainLost | src/task.c:27-37 | in a longer stack a frame that points to itself, one word up, keeps its old link |
| MoveStack.AllChainsMovedIff | src/task.c:25-37 | every chain of every memory is moved exactly if the stack is no longer than the scanned size or holds no frame |
| MoveStack.AllScannedIff | src/task.c:25-27 | every copied word is scanned exactly when the stack is shorter than the size (or empty) |
| MoveStack.OldStackKept | src/task.c:25-34 | the old stack is left as it was |
| KeyRing.KeyKeeps | src/keyboard.c:288-293 | an interrupt at any point keeps the ring right and drops the key exactly when 255 are unread |
| KeyRing.NextKeeps | src/keyboard.c:226-236 | so does each statement of getchar |
| KeyRing.RingCorrect | src/keyboard.c:226-293 | under every interleaving the characters taken are the accepted ones, in order and once, at most 255 waiting |
| KeyRing.DroppedIffFull | src/keyboard.c:289-293 | after any interleaving a press is dropped exactly when 255 are unread, otherwise it is the last accepted key |
| KeyRing.TextFullIff | src/keyboard.c:289 | the test as written is wrong exactly for start 0 and end 255 |
| KeyRing.TextRunIff | src/keyboard.c:289 | a run with that test stays right exactly as long as no key is pressed in that state |
| KeyRing.TextLosesAll | src/keyboard.c:289-292 | 256 keys typed before the first read are all accepted and all lost |
| Keyboard.FlagIsShift | src/keyboard.c:258-276 | the control bits are 1 shifted |
| Keyboard.ControlStep | src/keyboard.c:249-279 | a scancode acts on the first control with its code only: a press inverts, a release of the first five switches off |
| Keyboard.ControlsCountPresses | src/keyboard.c:249-279 | after any scancodes a control is on exactly for an odd number of presses, since its last release or, for locks, since the start |
| Keyboard.KeyTypes | src/keyboard.c:281-293 | after any scancodes a key that is no control key types the shifted character exactly when a shift or caps lock went down an odd number of times and control an even one |
| Keyboard.OthersTypeNothing | src/keyboard.c:249-279 | control keys and releases type nothing |
| Keyboard.Keyboard.constructor | src/keyboard.c:217-224 | an empty ring over any buffer |
| Keyboard.Keyboard.Handler | src/keyboard.c:243-295 | controls and ring after one scancode; what it offers to the ring is what the presses so far make it type |
| Keyboard.Keyboard.Store | src/keyboard.c:288-293 | the ring takes the step of a key press |
| Keyboard.Keyboard.Take | src/keyboard.c:228-234 | past the test exactly one character is taken, whatever arrives between the statements |
| Keyboard.Keyboard.GetChar | src/keyboard.c:226-236 | with interrupts before each of its statements it returns the oldest untaken key, or 0 when none was there at the test |
| Console.GlyphIsOr | src/monitor.c:43-65 | or-ing the attribute is adding it |
| Console.TabStopIsMask | src/monitor.c:53 | the mask gives the next multiple of four |
| Console.RowsAboveAreFinal | src/monitor.c:38-76 | the cursor never goes up and rows it left are never written again |
| Console.TextIsLaidOut | src/monitor.c:63-72 | printable text of any length lies on the terminal as typed, across rows and screens, and nothing else changes |
| Console.LinesAreLaidOut | src/monitor.c:59-72 | lines of printable text lie one below the other, each from the start of its row |
| Console.ControlsMove | src/monitor.c:47-62 | where return, newline, tab, backspace and the other control characters leave the cursor; they write nothing |
| Console.Retyped | src/monitor.c:47-50 | typing, backspace and typing again is typing once |
| Console.TypedInWindow | src/monitor.c:47-72 | one character changes the screen as it changes the terminal, with the window still in place |
| Console.ScrolledWindow | src/monitor.c:26-32 | moving rows up and blanking the last moves the window down one row |
| Console.Console.Clear | src/monitor.c:86-97 | over any screen: the window of the empty terminal |
| Console.Console.Scroll | src/monitor.c:19-36 | the screen is the bottom window again, cursor included |
| Console.Console.MoveRows | src/monitor.c:25-32 | every row holds the one below it, the last is blank |
| Console.Console.Move | src/monitor.c:47-72 | each branch and the wrap at the end of a row, on the screen itself |
| Console.Console.Put | src/monitor.c:38-76 | the screen and the cursor after each character, scrolled up if the cursor left the last row; they are the bottom 25 rows of the terminal, the cursor inside 80 by 25 |
| Console.Console.Write | src/monitor.c:78-84 | the same for the characters before the terminating zero |
| Numerals.NumeralParses | src/printf.c:51-69 | the numeral has no leading zero and parses back to the value |
| Numerals.DigitIsHex | src/printf.c:27 | the digits are those of the string hex |
| Numerals.NumeralIsUnique | src/printf.c:51-69 | it is the only canonical numeral of the value |
| Numerals.LengthIff | src/printf.c:51-69 | at most e digits exactly below base to the e |
| Numerals.SignedParses | src/printf.c:47-56 | so for %d with its sign |
| Numerals.NegationIsRight | src/printf.c:49 | the 32-bit negation is the magnitude, also at the minimum |
| Numerals.ElevenSlots | src/printf.c:28 | eleven slots suffice for every word, and %d needs the last exactly from -1000000000 down |
| Numerals.HexStepIsDivision | src/printf.c:68-69 | mask and shift are remainder and quotient by 16 |
| Printf.FillDigits | src/printf.c:51-69 | the buffer holds the numeral backwards, in at most ten slots |
| Printf.ShownIs | src/printf.c:36-75 | which letters are directives, and that each shows what it has to: the character, the string, a decimal that reads back as the signed value, a decimal or a hexadecimal that reads back as the word |
| Printf.DumpBuf | src/printf.c:70-74 | the buffer is emitted backwards and counted |
| Printf.PutString | src/printf.c:41-46 | the string before its zero is emitted and counted |
| Printf.Directive | src/printf.c:36-75 | each directive emits what it has to show of its argument, and counts it |
| Printf.Vprintf | src/printf.c:24-83 | the console shows exactly the formatted text and the result is its length; for a single directive that is what the directive has to show |
| Printf.FormatsJoin | src/printf.c:33-80 | a body that does not end inside a directive is formatted on its own, then what follows it |
| Printf.PlainFormat | src/printf.c:33-80 | a format without a percent sign shows itself |
| Printf.FormattedDirective | src/printf.c:34-75 | a directive shows its argument and goes on with the next; any other character after a percent sign shows itself |
| Printf.TerminatorStopsIff | src/printf.c:33-36 | formatting stops at the terminator exactly when the run of percent signs at the end is even |
| Printf.LonePercent | src/printf.c:34-36 | otherwise the terminator is emitted and what follows it is read as format |
| Printf.EndsInsideIff | src/printf.c:34-36 | a format ends inside a directive exactly when that run is odd |

## Left out

- Heap.KernelHeap.Alloc: requires room in the address space and in the index for the growth and the rounds it needs, and a frame for each page that will lack one, because the text checks none of them and never looks at max_address; sums that would wrap at 2^32 are excluded with it.
- Heap.KernelHeap.constructor: requires the minimum size (HeapDepartures.ContractShrinksIff) and mapped pages, which init_paging provides (KernelBoot.BootServesHeap); the index is an array apart from the heap, so that it lies in front of the heap in the same memory, and the zeros in its dead slots, are not modelled.
- Heap.KernelHeap.Expand: takes page entries that exist; that expand may make a page table by allocating from the heap it is expanding is not modelled, so KernelSpace asks for the kernel's tables over the range the heap may grow into.
- Frames.AllocFrame: requires a free frame; without one the text writes outside the bitmap (Frames.TextWithoutFrameIff).
- SortedArrays.SortedArray.Insert: requires the slot that shifting writes past the live part, which the text does not check.
- Vmm.Vmm.CloneDir: the new directory is built in locals and published when complete, from objects that KernelSpace.CloneInHeap has taken from the heap.
- KernelSpace.CloneInHeap: all calls of alloc come before the copying, where the code alternates them, so which of the free frames each takes may differ; it requires room for the objects, and frames for their pages and the copies. The bytes of the heap are a memory apart from the frames that are copied.
- Forking.MapPage: requires that the kernel has no table where the page is mapped, as at 0xE0000000.
- Scheduler.Scheduler.DoFork: pids and times are unbounded integers; the storage of a task record is not taken from the heap model.
- MoveStack.MoveStack: pointers are word-aligned and memory is by words; the loop that maps the new stack's pages (src/task.c:9-11) is Forking.MapPage, once for each page.
- Printf.Vprintf: requires arguments of the kinds the format reads and memory up to where it stops, which C leaves undefined otherwise; the count is an unbounded integer.
- Keyboard.Keyboard.GetChar: interrupts arrive before each statement, as scancodes given to the call; the handler itself is atomic (src/interrupt.s:88).
- Console.Console.Write: requires the terminating zero. The hardware cursor (src/monitor.c:9-17) is not modelled.
- The keymap tables: any 128-entry tables and any eight control keys.
- Positions of the accessed and dirty bits, caches, cr0 and cr3 loads, port I/O, descriptor tables and interrupt dispatch: hardware effects or one-step encodings.
- `task_exit` and `free_all_page` (src/task.c:152-182, src/page.c:276-285): the second walks null and shared tables with no rule for either.
- `src/lock.c`: not in the build, and its spin test does not exclude a second holder.
- `src/initrd.c`, `src/fs.c`, `src/shell.c`, `src/main.c` and the rest of `src/common.c`: dispatch and small string loops, which would add only easy members.
