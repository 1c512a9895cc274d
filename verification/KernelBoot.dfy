/** init_paging to its end (src/page.c:118-160): the boot map, the heap over it, and the clone
    of the kernel directory that the first task runs on. */
module KernelBoot {
  import opened Machine
  import opened Frames
  import opened Heap
  import opened HeapLayout
  import opened HeapPages
  import opened KernelSpace
  import opened Paging
  import opened Vmm
  import opened VmmHeap

  const KHEAP_END := 0xC010_0000

  /** The pages below the heap's max_address, 0xCFFFF000 (line 157). */
  const KHEAP_LIMIT := 0xC_FFFF

  /** With the boot map the heap's pages are mapped to frames of their own: what create_heap
      needs of its page entries, init_paging has provided. */
  lemma BootServesHeap(s: Space, n: nat, pages: seq<Page>)
    requires BootMap(s, n, KHEAP_PAGES) && n <= KHEAP_START / PAGE && PagesAre(s, pages)
    ensures OwnFrames(pages, s.used) && AllMapped(pages, HeapStart(KHEAP_START), KHEAP_END)
  {
    hide Entry;
    forall k: nat | k < |pages| ensures pages[k] == BootEntry(k, n, KHEAP_PAGES) {
      assert Entry(s, s.kernel, k) == BootEntry(k, n, KHEAP_PAGES);
    }
    assert 0 in Below(n + KHEAP_PAGES);
  }

  /** The initial heap is as long as contract demands. */
  lemma InitialHeapMeetsIt()
    ensures HeapStart(KHEAP_START) + HEAP_MIN_SIZE <= KHEAP_END
  {
  }

  /** Tables and directories of the bump allocator are known to the heap: they lie below it,
      on pages mapped to themselves. */
  lemma BootKnown(s: Space, n: nat, pages: seq<Page>, placement: nat, phys: map<int, int>, t: Layout)
    requires BootMap(s, n, KHEAP_PAGES) && n <= KHEAP_START / PAGE && PagesAre(s, pages) && n <= |pages|
    requires BelowPlacement(placement, phys) && placement <= n * PAGE && t.start == HeapStart(KHEAP_START)
    requires forall u :: u in phys ==> u % PAGE == 0
    ensures AllKnown(t, pages, phys)
  {
    hide Entry, InHeap;
    forall u | u in phys ensures u % PAGE == 0 && Known(t, pages, u, phys[u]) {
      assert 0 < u && u + PAGE <= n * PAGE && phys[u] == u;
      assert Entry(s, s.kernel, u / PAGE) == BootEntry(u / PAGE, n, KHEAP_PAGES);
      assert pages[u / PAGE] == UserPage(u / PAGE);
    }
  }

  /** The entry that the kernel directory shows for page k. */
  function EntryOf(tables: map<int, seq<Page>>, d: Dir, k: int): Page {
    if 0 <= k < ENTRIES * ENTRIES && k / ENTRIES < |d.table| && d.table[k / ENTRIES] in tables
       && k % ENTRIES < |tables[d.table[k / ENTRIES]]| && d.table[k / ENTRIES] != 0
    then tables[d.table[k / ENTRIES]][k % ENTRIES]
    else ZERO_PAGE
  }

  lemma EntryOfIs(s: Space, k: nat)
    requires s.Valid() && k < ENTRIES * ENTRIES
    ensures s.kernel in s.dirs && EntryOf(s.tables, s.dirs[s.kernel], k) == Entry(s, s.kernel, k)
  {
    hide Owned, Shared;
    assert DirShaped(s.dirs[s.kernel], s.tables);
  }

  /** The kernel directory has no private table. */
  lemma {:induction false} KernelHasNone(s: Space, n: nat)
    requires s.Valid() && n <= ENTRIES
    ensures |s.dirs[s.kernel].table| == ENTRIES && PrivateTables(s.dirs, s.kernel, s.kernel, n) == 0
    ensures PrivateFrames(s, s.kernel, n) == 0
  {
    assert DirShaped(s.dirs[s.kernel], s.tables);
    if n > 0 {
      KernelHasNone(s, n - 1);
    }
  }

  /** The table of the first heap pages serves the next six, too. */
  lemma BootTabled(s: Space, n: nat)
    requires s.Valid() && BootMap(s, n, KHEAP_PAGES) && n <= KHEAP_START / PAGE
    ensures Tabled(s.dirs, s.kernel, KHEAP_END, KHEAP_END + DIR_COST)
  {
    hide Owned, Shared;
    assert DirShaped(s.dirs[s.kernel], s.tables);
    assert Entry(s, s.kernel, KHEAP_START / PAGE) == BootEntry(KHEAP_START / PAGE, n, KHEAP_PAGES);
    assert HasTable(s.dirs, s.kernel, KHEAP_START / PAGE / ENTRIES);
  }

  /** The page entries of the kernel directory, as the heap reaches them. */
  method EntriesOf(vm: Vmm) returns (entries: array<Page>)
    requires vm.Valid()
    ensures fresh(entries) && entries.Length == KHEAP_LIMIT && PagesAre(vm.State(), entries[..])
  {
    hide Owned, Shared, Shaped, Placed, AllNamed, Housed, BelowPlacement, FreshChunks, UsedIn, EntryOf, Entry;
    ghost var s := vm.State();
    EntryOfIs(s, 0);
    var tables, d := vm.tables, vm.dirs[vm.kernel];
    entries := new Page[KHEAP_LIMIT](k => EntryOf(tables, d, k));
    forall k: nat | k < KHEAP_LIMIT ensures entries[k] == Entry(s, s.kernel, k) {
      EntryOfIs(s, k);
    }
    PagesAreEntries(s, entries[..]);
  }

  lemma PagesAreEntries(s: Space, pages: seq<Page>)
    requires s.Valid() && |pages| <= ENTRIES * ENTRIES
    requires forall k: nat :: k < |pages| ==> pages[k] == Entry(s, s.kernel, k)
    ensures PagesAre(s, pages)
  {
  }

  /** create_heap over the boot map (line 157). */
  method CreateHeap(vm: Vmm, ghost n: nat, bytes: array<byte>, storage: array<int>) returns (heap: KernelHeap)
    requires vm.Valid() && !vm.heaped && BootMap(vm.State(), n, KHEAP_PAGES) && n <= KHEAP_START / PAGE
    requires vm.placement <= n * PAGE && vm.bitmap.Count() == FRAME_COUNT
    requires bytes.Length == PAGE * KHEAP_LIMIT && storage.Length == HEAP_INDEX_SIZE
    requires vm.mem as object != bytes && vm.mem as object != storage && bytes as object != storage
    requires vm.bitmap.bits as object != bytes && vm.bitmap.bits as object != storage
    modifies bytes, storage, vm`heaped, vm`chunks
    ensures Coupled(vm, heap) && fresh(heap) && fresh(heap.index) && fresh(heap.pages) && heap.mem == bytes
    ensures heap.index.arr == storage
    ensures !heap.supervisor && !heap.readonly
    ensures vm.chunks == [] && heap.start == HeapStart(KHEAP_START) && heap.end == KHEAP_END
    ensures heap.State().Allocated() == {}
  {
    hide Owned, Shared, Shaped, Placed, AllNamed, BelowPlacement, FreshChunk, UsedIn, BootMap, PagesAre, AllKnown,
      OwnFrames, AllMapped, HeapStart, Layout.Allocated;
    var entries := EntriesOf(vm);
    ghost var s, pages := vm.State(), entries[..];
    BootServesHeap(s, n, pages);
    InitialHeapMeetsIt();
    heap := new KernelHeap(bytes, storage, vm.bitmap, entries, KHEAP_START, KHEAP_END, false, false);
    BootKnown(s, n, pages, vm.placement, vm.phys, heap.State());
    vm.UseHeap([]);
  }

  /** init_paging from the start to its end. The kernel directory maps the pages below n to
      themselves and the initial heap to the frames that follow; the heap is one hole; and the
      directory in force, dir, shows at every page what the kernel directory shows. */
  method Boot(memory: array<int>, free: nat, bytes: array<byte>, storage: array<int>)
    returns (vm: Vmm, heap: KernelHeap, dir: int, ghost n: nat, ghost s: Space, ghost mid: Space)
    requires memory.Length == WORDS * FRAME_COUNT && bytes.Length == PAGE * KHEAP_LIMIT
    requires storage.Length == HEAP_INDEX_SIZE
    requires memory as object != bytes && memory != storage && bytes as object != storage
    requires PageUp(free + FRAME_COUNT / 8) + DIR_SIZE + BOOT_SLACK + KHEAP_INITIAL_SIZE + DIR_COST + PAGE
             <= PAGE * FRAME_COUNT
    modifies memory, bytes, storage
    ensures Coupled(vm, heap) && vm.chunks == [] && vm.mem == memory && fresh(vm) && fresh(heap)
    ensures !heap.supervisor && !heap.readonly
    ensures s.Valid() && s.dirs.Keys == {s.kernel} && BootMap(s, n, KHEAP_PAGES) && KernelGrown(s, mid)
    ensures Cloned(mid, old(memory[..]), s.kernel, vm.State(), memory[..], dir)
  {
    hide Owned, Shared, Shaped, BootMap, KernelGrown, Cloned, UsedIn, Coupled, PrivateFrames, PrivateTables, PageUp,
      Tabled, Layout.Allocated, Vmm.Sound, Vmm.Booting;
    vm, n := InitPagingFrom(memory, free);
    s := vm.State();
    BootCount(s, n);
    heap := CreateHeap(vm, n, bytes, storage);
    KernelHasNone(s, ENTRIES);
    BootTabled(s, n);
    CoupledSound(vm, heap);
    assert memory[..] == old(memory[..]) && vm.State() == s;
    dir, mid := CloneInHeap(vm, heap, vm.kernel);
  }

  lemma BootCount(s: Space, n: nat)
    requires BootMap(s, n, KHEAP_PAGES)
    ensures |s.used| == n + KHEAP_PAGES
  {
  }
}
