/** The kernel's heap and its page tables in one state: the heap takes its frames from the same
    bitmap, its page entries are those of the kernel directory, and its payloads are the tables
    and directories that clone_dir needs (src/kernel_malloc.c:49-57, src/page.c:118-160). */
module KernelSpace {
  import opened Machine
  import opened Frames
  import opened Heap
  import opened HeapClient
  import opened HeapLayout
  import opened HeapPages
  import opened HeapTags
  import opened SortedArrays
  import opened Paging
  import opened Vmm
  import opened VmmHeap

  /** The entries that the kernel directory shows, page by page. */
  ghost predicate PagesAre(s: Space, pages: seq<Page>) {
    && Shaped(s.tables, s.dirs, s.kernel) && |pages| <= ENTRIES * ENTRIES
    && forall v :: 0 <= v < |pages| ==> pages[v] == Entry(s, s.kernel, v)
  }

  /** Table u is one of the kernel directory's. */
  ghost predicate KernelTable(s: Space, u: int) {
    exists i :: HasTable(s.dirs, s.kernel, i) && s.dirs[s.kernel].table[i] == u
  }

  /** Only entries of kernel tables have changed. */
  ghost predicate KernelChanged(s: Space, t: Space) {
    && t.dirs == s.dirs && t.kernel == s.kernel && t.tables.Keys == s.tables.Keys
    && forall u :: u in s.tables && !KernelTable(s, u) ==> u in t.tables && t.tables[u] == s.tables[u]
  }

  /** And only such as had no frame. */
  ghost predicate KernelGrown(s: Space, t: Space) {
    && KernelChanged(s, t) && s.used <= t.used
    && forall u, j :: Slot(s.tables, u, j) && FrameAt(s.tables, u, j) != 0 ==>
          Slot(t.tables, u, j) && t.tables[u][j] == s.tables[u][j]
  }

  lemma GrownSelf(s: Space)
    ensures KernelGrown(s, s) && KernelChanged(s, s)
  {
  }

  lemma ChangedTrans(s: Space, t: Space, u: Space)
    requires KernelChanged(s, t) && KernelChanged(t, u)
    ensures KernelChanged(s, u)
  {
    forall a | a in s.tables && !KernelTable(s, a) ensures a in u.tables && u.tables[a] == s.tables[a] {
      assert !KernelTable(t, a);
    }
  }

  lemma KernelGrownTrans(s: Space, t: Space, u: Space)
    requires KernelGrown(s, t) && KernelGrown(t, u)
    ensures KernelGrown(s, u)
  {
    hide KernelChanged;
    ChangedTrans(s, t, u);
  }

  /** One entry of the kernel directory is set. */
  function WithEntry(s: Space, k: nat, p: Page, used: set<nat>): Space
    requires s.kernel in s.dirs && k / ENTRIES < |s.dirs[s.kernel].table|
    requires s.dirs[s.kernel].table[k / ENTRIES] in s.tables
    requires |s.tables[s.dirs[s.kernel].table[k / ENTRIES]]| == ENTRIES
  {
    Space(SetEntry(s.tables, s.dirs[s.kernel].table[k / ENTRIES], k % ENTRIES, p), s.dirs, s.kernel, used)
  }

  lemma KernelSlot(s: Space, k: nat)
    requires Shaped(s.tables, s.dirs, s.kernel) && HasTable(s.dirs, s.kernel, k / ENTRIES)
    ensures k < ENTRIES * ENTRIES && k / ENTRIES < |s.dirs[s.kernel].table|
    ensures var t := s.dirs[s.kernel].table[k / ENTRIES];
            Slot(s.tables, t, k % ENTRIES) && |s.tables[t]| == ENTRIES
              && Entry(s, s.kernel, k) == s.tables[t][k % ENTRIES]
  {
    assert DirShaped(s.dirs[s.kernel], s.tables);
  }

  /** Nothing but that entry changes. */
  lemma WithEntryAt(s: Space, k: nat, p: Page, used: set<nat>, q: seq<Page>, r: seq<Page>)
    requires s.Valid() && HasTable(s.dirs, s.kernel, k / ENTRIES) && PagesAre(s, q) && k < |q| && r == q[k := p]
    ensures k / ENTRIES < |s.dirs[s.kernel].table|
    ensures var t := s.dirs[s.kernel].table[k / ENTRIES];
            t in s.tables && |s.tables[t]| == ENTRIES && PagesAre(WithEntry(s, k, p, used), r)
    ensures var u := WithEntry(s, k, p, used);
            Shaped(u.tables, u.dirs, u.kernel) && Shared(u.dirs, u.kernel) && KernelChanged(s, u)
  {
    hide Owned, Entry;
    KernelSlot(s, k);
    var u := WithEntry(s, k, p, used);
    var t := s.dirs[s.kernel].table[k / ENTRIES];
    SetEntryShaped(s.tables, s.dirs, s.kernel, t, k % ENTRIES, p);
    BootPlaceIs(s, k);
    forall v | 0 <= v < |r| ensures r[v] == Entry(u, u.kernel, v) {
      EntrySet(s, u.tables, used, k, p, v);
    }
    assert KernelTable(s, t);
  }

  // ---------------------------------------------------------------- the pages of the heap change

  /** Between the entries before a change and those after it. */
  ghost function Midway(p: seq<Page>, q: seq<Page>, k: nat): seq<Page>
    requires k <= |p| == |q|
  {
    q[..k] + p[k..]
  }

  lemma MidwayStep(p: seq<Page>, q: seq<Page>, k: nat)
    requires k < |p| == |q|
    ensures Midway(p, q, k + 1) == Midway(p, q, k)[k := q[k]] && Midway(p, q, k)[k] == p[k]
  {
  }

  /** The next entry that expand has set. */
  lemma EnterStep(s: Space, p: seq<Page>, used: set<nat>, q: seq<Page>, now: set<nat>, lo: nat, hi: nat, k: nat,
                  kernel: bool, writable: bool)
    requires Grown(p, used, q, now, lo, hi, kernel, writable) && OwnFrames(q, now) && lo <= k < hi
    requires s.Valid() && s.used == used + FramesIn(q, lo, k) && PagesAre(s, Midway(p, q, k))
    requires HasTable(s.dirs, s.kernel, k / ENTRIES)
    ensures k / ENTRIES < |s.dirs[s.kernel].table|
    ensures var t := s.dirs[s.kernel].table[k / ENTRIES]; t in s.tables && |s.tables[t]| == ENTRIES
    ensures var u := WithEntry(s, k, q[k], used + FramesIn(q, lo, k + 1));
            u.Valid() && PagesAre(u, Midway(p, q, k + 1)) && KernelGrown(s, u)
  {
    hide Owned, OwnFrames, CountFrames, FramesIn, PagesAre, KernelChanged, Shaped, Shared, Entry, SetEntry;
    KernelSlot(s, k);
    MidwayStep(p, q, k);
    assert Entry(s, s.kernel, k) == p[k] by { PagesAt(s, Midway(p, q, k), k); }
    var t, f := s.dirs[s.kernel].table[k / ENTRIES], q[k].frame;
    assert NowMapped(p[k], used, q[k], true, kernel, writable);
    FramesUpTo(q, now, lo, k);
    OwnedInUsed(s.tables, s.used, t, k % ENTRIES);
    if p[k].frame == 0 {
      TakeKeepsOwned(s.tables, s.used, t, k % ENTRIES, q[k]);
    } else {
      SetSame(s.tables, t, k % ENTRIES, q[k]);
      assert s.used + {f} == s.used;
    }
    assert used + FramesIn(q, lo, k + 1) == s.used + {f};
    WithEntryAt(s, k, q[k], s.used + {f}, Midway(p, q, k), Midway(p, q, k + 1));
    EntrySetElsewhere(s.tables, t, k % ENTRIES, q[k]);
  }

  lemma PagesAt(s: Space, pages: seq<Page>, k: nat)
    requires PagesAre(s, pages) && k < |pages|
    ensures k < ENTRIES * ENTRIES && pages[k] == Entry(s, s.kernel, k)
  {
  }

  lemma EntrySetElsewhere(tables: map<int, seq<Page>>, t: int, i: nat, p: Page)
    requires Slot(tables, t, i) && (tables[t][i].frame == 0 || p == tables[t][i])
    ensures var now := SetEntry(tables, t, i, p);
            forall u, j :: Slot(tables, u, j) && FrameAt(tables, u, j) != 0 ==>
              Slot(now, u, j) && now[u][j] == tables[u][j]
  {
  }

  /** One frame more, held by no page before. */
  lemma FramesUpTo(q: seq<Page>, now: set<nat>, lo: int, k: int)
    requires OwnFrames(q, now) && 0 <= lo <= k < |q| && q[k].frame != 0
    ensures FramesIn(q, lo, k + 1) == FramesIn(q, lo, k) + {q[k].frame} && q[k].frame !in FramesIn(q, lo, k)
  {
  }

  /** The page tables take over what expand has put into the page entries numbered lo to
      hi - 1: in the kernel these are the same memory. */
  method EnterPages(vm: Vmm, entries: array<Page>, lo: nat, hi: nat, ghost p: seq<Page>, ghost used: set<nat>,
                    ghost kernel: bool, ghost writable: bool)
    requires vm.Sound() && Space(vm.tables, vm.dirs, vm.kernel, used).Valid()
    requires PagesAre(Space(vm.tables, vm.dirs, vm.kernel, used), p) && OwnFrames(entries[..], vm.Used())
    requires Grown(p, used, entries[..], vm.Used(), lo, hi, kernel, writable)
    requires forall k: nat :: lo <= k < hi ==> HasTable(vm.dirs, vm.kernel, k / ENTRIES)
    modifies vm`tables
    ensures vm.Sound() && vm.State().Valid() && PagesAre(vm.State(), entries[..])
    ensures KernelGrown(old(Space(vm.tables, vm.dirs, vm.kernel, used)), vm.State())
  {
    hide Owned, OwnFrames, Shaped, Shared, Grown, FramesIn, PagesAre, KernelGrown, Placed, AllNamed, Housed,
      FreshChunks, BelowPlacement, UsedIn, SetEntry;
    ghost var s, q, now := Space(vm.tables, vm.dirs, vm.kernel, used), entries[..], vm.Used();
    ghost var keys := vm.tables.Keys;
    EnterStart(p, used, q, now, lo, hi, kernel, writable);
    GrownSelf(s);
    for k := lo to hi
      invariant vm.tables.Keys == keys && vm.Sound()
      invariant var u := Space(vm.tables, vm.dirs, vm.kernel, used + FramesIn(q, lo, k));
                u.Valid() && PagesAre(u, Midway(p, q, k)) && KernelGrown(s, u)
    {
      ghost var u := Space(vm.tables, vm.dirs, vm.kernel, used + FramesIn(q, lo, k));
      EnterStep(u, p, used, q, now, lo, hi, k, kernel, writable);
      var t := vm.dirs[vm.kernel].table[k / ENTRIES];
      SetEntryKeys(vm.tables, t, k % ENTRIES, q[k]);
      vm.tables := SetEntry(vm.tables, t, k % ENTRIES, entries[k]);
      KernelGrownTrans(s, u, Space(vm.tables, vm.dirs, vm.kernel, used + FramesIn(q, lo, k + 1)));
    }
  }

  lemma EnterStart(p: seq<Page>, used: set<nat>, q: seq<Page>, now: set<nat>, lo: nat, hi: nat, kernel: bool,
                   writable: bool)
    requires Grown(p, used, q, now, lo, hi, kernel, writable)
    ensures |p| == |q| && lo <= hi <= |p| && now == used + FramesIn(q, lo, hi) && used == used + FramesIn(q, lo, lo)
    ensures Midway(p, q, lo) == p && Midway(p, q, hi) == q
  {
    hide CountFrames, FramesIn;
    assert FramesIn(q, lo, lo) == {} by { NoFrames(q, lo); }
    forall k | 0 <= k < |p| ensures (k < lo || k >= hi) ==> q[k] == p[k] {
      assert NowMapped(p[k], used, q[k], lo <= k < hi, kernel, writable);
    }
  }

  lemma NoFrames(q: seq<Page>, lo: int)
    ensures FramesIn(q, lo, lo) == {}
  {
  }

  /** The next entry that contract has emptied. */
  lemma LeaveStep(s: Space, p: seq<Page>, used: set<nat>, q: seq<Page>, now: set<nat>, lo: nat, hi: nat, k: nat)
    requires Shrunk(p, used, q, now, lo, hi) && OwnFrames(p, used) && lo <= k < hi && p[k].frame != 0
    requires s.Valid() && s.used == used - FramesIn(p, lo, k) && PagesAre(s, Midway(p, q, k))
    ensures HasTable(s.dirs, s.kernel, k / ENTRIES)
    ensures k / ENTRIES < |s.dirs[s.kernel].table|
    ensures var t := s.dirs[s.kernel].table[k / ENTRIES]; t in s.tables && |s.tables[t]| == ENTRIES
    ensures var u := WithEntry(s, k, q[k], used - FramesIn(p, lo, k + 1));
            u.Valid() && PagesAre(u, Midway(p, q, k + 1)) && KernelChanged(s, u)
  {
    hide Owned, OwnFrames, CountFrames, FramesIn, PagesAre, KernelChanged, Shared, SetEntry;
    MidwayStep(p, q, k);
    PagesAt(s, Midway(p, q, k), k);
    assert DirShaped(s.dirs[s.kernel], s.tables);
    KernelSlot(s, k);
    var t, f := s.dirs[s.kernel].table[k / ENTRIES], p[k].frame;
    FramesUpTo(p, used, lo, k);
    ReleaseKeepsOwned(s.tables, s.used, t, k % ENTRIES, q[k]);
    assert used - FramesIn(p, lo, k + 1) == s.used - {f};
    WithEntryAt(s, k, q[k], s.used - {f}, Midway(p, q, k), Midway(p, q, k + 1));
  }

  lemma LeaveStart(p: seq<Page>, used: set<nat>, q: seq<Page>, now: set<nat>, lo: nat, hi: nat)
    requires Shrunk(p, used, q, now, lo, hi)
    ensures |p| == |q| && hi <= |p| && used == used - FramesIn(p, lo, lo)
    ensures lo <= |p| ==> Midway(p, q, lo) == p
    ensures if lo <= hi then Midway(p, q, hi) == q && now == used - FramesIn(p, lo, hi) else p == q && now == used
  {
    hide CountFrames;
    assert FramesIn(p, lo, lo) == {};
    if lo > hi {
      assert FramesIn(p, lo, hi) == {};
    }
  }

  /** The page tables take over what contract has done to the page entries lo to hi - 1. */
  method LeavePages(vm: Vmm, entries: array<Page>, lo: nat, hi: nat, ghost p: seq<Page>, ghost used: set<nat>)
    requires vm.Sound() && Space(vm.tables, vm.dirs, vm.kernel, used).Valid()
    requires PagesAre(Space(vm.tables, vm.dirs, vm.kernel, used), p) && OwnFrames(p, used)
    requires Shrunk(p, used, entries[..], vm.Used(), lo, hi) && forall k :: lo <= k < hi ==> p[k].frame != 0
    modifies vm`tables
    ensures vm.Sound() && vm.State().Valid() && PagesAre(vm.State(), entries[..])
    ensures KernelChanged(old(Space(vm.tables, vm.dirs, vm.kernel, used)), vm.State())
  {
    hide Owned, OwnFrames, Shaped, Shared, Shrunk, FramesIn, PagesAre, KernelChanged, Placed, AllNamed, Housed,
      FreshChunks, BelowPlacement, UsedIn, SetEntry;
    ghost var s, q, now := Space(vm.tables, vm.dirs, vm.kernel, used), entries[..], vm.Used();
    ghost var keys := vm.tables.Keys;
    LeaveStart(p, used, q, now, lo, hi);
    GrownSelf(s);
    if lo > hi {
      return;
    }
    for k := lo to hi
      invariant vm.tables.Keys == keys && vm.Sound()
      invariant var u := Space(vm.tables, vm.dirs, vm.kernel, used - FramesIn(p, lo, k));
                u.Valid() && PagesAre(u, Midway(p, q, k)) && KernelChanged(s, u)
    {
      ghost var u := Space(vm.tables, vm.dirs, vm.kernel, used - FramesIn(p, lo, k));
      LeaveStep(u, p, used, q, now, lo, hi, k);
      var t := vm.dirs[vm.kernel].table[k / ENTRIES];
      SetEntryKeys(vm.tables, t, k % ENTRIES, q[k]);
      vm.tables := SetEntry(vm.tables, t, k % ENTRIES, entries[k]);
      ChangedTrans(s, u, Space(vm.tables, vm.dirs, vm.kernel, used - FramesIn(p, lo, k + 1)));
    }
  }

  // ---------------------------------------------------------------- one state

  /** The heap and the page tables in one state: one bitmap, the heap's page entries are those
      of the kernel directory, and every table and directory is a payload of the heap or lies
      below it. */
  ghost predicate Coupled(vm: Vmm, heap: KernelHeap)
    reads vm, vm.bitmap.bits, heap, heap.mem, heap.index, heap.index.arr, heap.frames.bits, heap.pages
  {
    && heap.Valid() && vm.Valid() && vm.heaped && heap.frames == vm.bitmap
    && vm.mem as object != heap.mem && vm.mem as object != heap.index.arr
    && PagesAre(vm.State(), heap.pages[..])
    && AllKnown(heap.State(), heap.pages[..], Supplied(vm.phys, vm.chunks))
  }

  /** The kernel directory has the tables for the pages of [lo, hi). */
  ghost predicate Tabled(dirs: map<int, Dir>, kernel: int, lo: int, hi: int) {
    forall k: nat :: PageNo(lo) <= k < PageNo(hi) ==> HasTable(dirs, kernel, k / ENTRIES)
  }

  /** _malloc_ap from the heap: alloc, and the page tables are what alloc has made of them. */
  method MallocObject(vm: Vmm, heap: KernelHeap, size: nat)
    requires Coupled(vm, heap) && size >= TABLE_SIZE && Room(heap, ObjectCost(size), 1)
    requires Tabled(vm.dirs, vm.kernel, heap.end, heap.end + ObjectCost(size))
    modifies heap`end, heap`blocks, heap.mem, heap.index, heap.index.arr, heap.frames.bits, heap.pages
    modifies vm`tables, vm`chunks, vm`heaped
    ensures Coupled(vm, heap) && |vm.chunks| == old(|vm.chunks|) + 1 && vm.chunks[..|vm.chunks| - 1] == old(vm.chunks)
    ensures Covers(vm.chunks[|vm.chunks| - 1], size) && KernelGrown(old(vm.State()), vm.State())
    ensures old(heap.end) <= heap.end <= old(heap.end) + ObjectCost(size)
    ensures |vm.Used()| * PAGE <= old(|vm.Used()|) * PAGE + ObjectCost(size)
    ensures |heap.State().Allocated()| == old(|heap.State().Allocated()|) + 1
  {
    hide KernelHeap.Valid, Layout.Allocated, Owned, Shaped, Shared, PagesAre, KernelGrown, Placed, AllNamed, Housed,
      FreshChunk, FreshChunks, Covers, Supplied, UsedIn, Grown, AllKnown, PageUp, OwnFrames, PageNo, HasTable, Room,
      ObjectCost, Tabled;
    HeapFrames(heap);
    var end := heap.end;
    ghost var p, used, phys := heap.pages[..], heap.frames.Used(), Supplied(vm.phys, vm.chunks);
    var c := HeapObject(heap, size, phys);
    HeapFrames(heap);
    TabledGrown(vm.dirs, vm.kernel, end, heap.end, end + ObjectCost(size));
    EnterPages(vm, heap.pages, PageNo(end), PageNo(heap.end), p, used, heap.supervisor, !heap.readonly);
    FreshAppend(vm.phys, vm.chunks, c);
    vm.UseHeap(vm.chunks + [c]);
  }

  lemma TabledGrown(dirs: map<int, Dir>, kernel: int, end: int, now: int, limit: int)
    requires Tabled(dirs, kernel, end, limit) && now <= limit
    ensures forall k: nat :: PageNo(end) <= k < PageNo(now) ==> HasTable(dirs, kernel, k / ENTRIES)
  {
    hide HasTable;
  }

  lemma HeapFrames(heap: KernelHeap)
    requires heap.Valid()
    ensures OwnFrames(heap.pages[..], heap.frames.Used()) && AllMapped(heap.pages[..], heap.start, heap.end)
    ensures 0 < heap.start <= heap.end <= PAGE * heap.pages.Length && PageNo(heap.end) >= 0
  {
    heap.ValidState();
  }

  lemma MappedBetween(p: seq<Page>, start: int, now: int, end: int)
    requires AllMapped(p, start, end) && start <= now && end <= PAGE * |p|
    ensures PageNo(end) <= |p| && forall k :: 0 <= k < |p| && PageNo(now) + 1 <= k < PageNo(end) ==> p[k].frame != 0
  {
    assert PageNo(start) <= PageNo(now);
  }

  /** kfree of a block that is neither a table nor a directory. */
  method FreeBeside(vm: Vmm, heap: KernelHeap, ptr: int, ghost e: Extent)
    requires Coupled(vm, heap) && heap.index.cur + 1 < heap.index.arr.Length
    requires e in heap.State().Allocated() && e.addr == ptr - HEADER && ptr != 0
    requires forall u :: u in Supplied(vm.phys, vm.chunks) ==> !InPayload(e, u)
    modifies heap`end, heap`blocks, heap.mem, heap.index, heap.index.arr, heap.frames.bits, heap.pages, vm`tables
    ensures Coupled(vm, heap) && Starts(heap.start, old(heap.blocks), ptr - HEADER)
    ensures heap.State() == Freed(old(heap.State()), ptr - HEADER)
    ensures KernelChanged(old(vm.State()), vm.State())
  {
    hide KernelHeap.Core, Layout.Allocated, Owned, Shaped, Shared, PagesAre, KernelChanged, Placed, AllNamed, Housed,
      FreshChunks, Supplied, UsedIn, Shrunk, AllKnown, OwnFrames, AllMapped, PageNo, Freed, Starts, Separated, Sized;
    HeapFrames(heap);
    heap.ValidState();
    var end := heap.end;
    ghost var s, p, used, phys := heap.State(), heap.pages[..], heap.frames.Used(), Supplied(vm.phys, vm.chunks);
    FreedKeeps(s, e);
    heap.Free(ptr, e);
    heap.ValidState();
    HeapFrames(heap);
    ghost var t := heap.State();
    KnownShrunk(s, t, p, used, heap.pages[..], heap.frames.Used(), e, phys);
    MappedBetween(p, heap.start, heap.end, end);
    LeavePages(vm, heap.pages, PageNo(heap.end) + 1, PageNo(end), p, used);
  }

  // ---------------------------------------------------------------- clone_dir with the heap

  const DIR_COST := 0x6000
  const TABLE_COST := 0x4000

  lemma Costs()
    ensures ObjectCost(DIR_SIZE) == DIR_COST && ObjectCost(TABLE_SIZE) == TABLE_COST
  {
  }

  /** Room for the objects of clone_dir: a directory, and a table for each private one. */
  ghost predicate ObjectRoom(vm: Vmm, heap: KernelHeap, cost: int, n: nat)
    reads vm, heap, heap.frames.bits
  {
    Room(heap, cost, n) && Tabled(vm.dirs, vm.kernel, heap.end, heap.end + cost)
  }

  /** One object less to come. */
  lemma RoomLeft(vm: Vmm, heap: KernelHeap, was: int, live: nat, used: nat, own: int, rest: int, n: nat)
    requires was <= heap.end <= was + own && own >= 0 && rest >= 0 && Tabled(vm.dirs, vm.kernel, was, was + own + rest)
    requires was + own + rest <= heap.mem.Length && live + n + 5 < heap.index.arr.Length
    requires used * PAGE + own + rest <= heap.frames.Count() * PAGE && |heap.frames.Used()| * PAGE <= used * PAGE + own
    requires |heap.State().Allocated()| == live + 1
    ensures ObjectRoom(vm, heap, rest, n)
  {
    hide HasTable, Layout.Allocated, UsedIn, PageNo;
    TabledPart(vm.dirs, vm.kernel, was, was + own + rest, heap.end, heap.end + rest);
  }

  /** The next object of clone_dir. */
  method MallocNext(vm: Vmm, heap: KernelHeap, size: nat, ghost rest: int, ghost n: nat)
    requires Coupled(vm, heap) && size >= TABLE_SIZE && rest >= 0
    requires ObjectRoom(vm, heap, ObjectCost(size) + rest, n + 1)
    modifies heap`end, heap`blocks, heap.mem, heap.index, heap.index.arr, heap.frames.bits, heap.pages
    modifies vm`tables, vm`chunks, vm`heaped
    ensures Coupled(vm, heap) && |vm.chunks| == old(|vm.chunks|) + 1 && vm.chunks[..|vm.chunks| - 1] == old(vm.chunks)
    ensures Covers(vm.chunks[|vm.chunks| - 1], size) && KernelGrown(old(vm.State()), vm.State())
    ensures ObjectRoom(vm, heap, rest, n)
    ensures |vm.Used()| * PAGE <= old(|vm.Used()|) * PAGE + ObjectCost(size)
  {
    hide Coupled, KernelGrown, Covers, UsedIn, Layout.Allocated, HasTable, PageNo, ObjectCost;
    ghost var was, live, used := heap.end, |heap.State().Allocated()|, |heap.frames.Used()|;
    OneBitmap(vm, heap);
    TabledPart(vm.dirs, vm.kernel, was, was + ObjectCost(size) + rest, was, was + ObjectCost(size));
    MallocObject(vm, heap, size);
    RoomLeft(vm, heap, was, live, used, ObjectCost(size), rest, n);
  }

  lemma TabledPart(dirs: map<int, Dir>, kernel: int, lo: int, hi: int, a: int, b: int)
    requires Tabled(dirs, kernel, lo, hi) && lo <= a && b <= hi
    ensures Tabled(dirs, kernel, a, b)
  {
    hide HasTable;
  }

  lemma OneBitmap(vm: Vmm, heap: KernelHeap)
    requires Coupled(vm, heap)
    ensures heap.frames == vm.bitmap
  {
  }

  /** A directory and n tables from the heap: n + 1 calls of _malloc_ap. */
  method MallocForClone(vm: Vmm, heap: KernelHeap, n: nat)
    requires Coupled(vm, heap) && vm.chunks == [] && ObjectRoom(vm, heap, DIR_COST + TABLE_COST * n, n + 1)
    modifies heap`end, heap`blocks, heap.mem, heap.index, heap.index.arr, heap.frames.bits, heap.pages
    modifies vm`tables, vm`chunks, vm`heaped
    ensures Coupled(vm, heap) && |vm.chunks| == n + 1 && Covers(vm.chunks[0], DIR_SIZE)
    ensures FreshChunks(vm.chunks, vm.phys)
    ensures KernelGrown(old(vm.State()), vm.State())
    ensures |vm.Used()| * PAGE <= old(|vm.Used()|) * PAGE + DIR_COST + TABLE_COST * n
  {
    hide Coupled, KernelGrown, Covers, UsedIn, ObjectRoom;
    ghost var s := vm.State();
    Costs();
    MallocNext(vm, heap, DIR_SIZE, TABLE_COST * n, n);
    var i := 0;
    while i < n
      invariant 0 <= i <= n && Coupled(vm, heap) && |vm.chunks| == i + 1 && Covers(vm.chunks[0], DIR_SIZE)
      invariant KernelGrown(s, vm.State()) && ObjectRoom(vm, heap, TABLE_COST * (n - i), n - i)
      invariant |vm.Used()| * PAGE <= old(|vm.Used()|) * PAGE + DIR_COST + TABLE_COST * i
    {
      ghost var u, c := vm.State(), vm.chunks[0];
      MallocNext(vm, heap, TABLE_SIZE, TABLE_COST * (n - i - 1), n - i - 1);
      assert vm.chunks[0] == vm.chunks[..|vm.chunks| - 1][0] == c;
      KernelGrownTrans(s, u, vm.State());
      i := i + 1;
    }
    CoupledSound(vm, heap);
  }

  lemma CoupledSound(vm: Vmm, heap: KernelHeap)
    requires Coupled(vm, heap)
    ensures vm.Valid() && vm.heaped && FreshChunks(vm.chunks, vm.phys) && heap.frames == vm.bitmap
    ensures vm.mem as object != heap.mem && vm.mem as object != heap.index.arr && vm.mem as object != vm.bitmap.bits
  {
  }

  /** A private table is not a kernel table, also at no other index. */
  lemma PrivateNotKernel(s: Space, d: int, i: int)
    requires s.Valid() && d in s.dirs && 0 <= i < ENTRIES
    ensures |s.dirs[d].table| == |s.dirs[s.kernel].table| == ENTRIES
    ensures PrivateTable(s.dirs, s.kernel, d, i) ==>
              s.dirs[d].table[i] in s.tables && !KernelTable(s, s.dirs[d].table[i])
  {
    hide Owned;
    assert DirShaped(s.dirs[d], s.tables) && DirShaped(s.dirs[s.kernel], s.tables);
    assert HasTable(s.dirs, d, i) <==> s.dirs[d].table[i] != 0;
    if PrivateTable(s.dirs, s.kernel, d, i) {
      forall j | HasTable(s.dirs, s.kernel, j) ensures s.dirs[s.kernel].table[j] != s.dirs[d].table[i] {
      }
    }
  }

  /** Growth of the kernel's tables leaves the private frames of a directory as they are. */
  lemma {:induction false} PrivateFramesKept(s: Space, t: Space, d: int, n: nat)
    requires s.Valid() && t.Valid() && KernelChanged(s, t) && d in s.dirs && n <= ENTRIES
    ensures PrivateFrames(t, d, n) == PrivateFrames(s, d, n)
  {
    if n > 0 {
      PrivateNotKernel(s, d, n - 1);
      PrivateFramesKept(s, t, d, n - 1);
    }
  }

  /** Room for a clone: its objects, and a frame for each private one of the parent. */
  ghost predicate CloneRoom(vm: Vmm, heap: KernelHeap, src: int)
    requires vm.State().Valid() && src in vm.dirs
    reads vm, vm.bitmap.bits, heap, heap.frames.bits
  {
    var n, cost := PrivateTablesOf(vm.State(), src), CloneCost(vm.State(), src);
    && ObjectRoom(vm, heap, cost, n + 1)
    && (|vm.Used()| + PrivateFrames(vm.State(), src, ENTRIES)) * PAGE + cost <= vm.bitmap.Count() * PAGE
  }

  ghost function PrivateTablesOf(s: Space, d: int): nat
    requires s.Valid() && d in s.dirs
  {
    assert DirShaped(s.dirs[d], s.tables) && DirShaped(s.dirs[s.kernel], s.tables);
    PrivateTables(s.dirs, s.kernel, d, ENTRIES)
  }

  ghost function CloneCost(s: Space, d: int): int
    requires s.Valid() && d in s.dirs
  {
    DIR_COST + TABLE_COST * PrivateTablesOf(s, d)
  }

  lemma FrameCount(used: int, own: int, was: int, cost: int, count: int)
    requires used * PAGE <= was * PAGE + cost && (was + own) * PAGE + cost <= count * PAGE
    ensures used + own <= count
  {
  }

  /** clone_dir once the heap exists: its alloc supplies the new directory and the new tables,
      and takes frames and fills entries of kernel tables on the way; what is cloned is the
      directory over the space `mid` after that. (Here the heap is called first, in
      the kernel in turn with the copying.) */
  method CloneInHeap(vm: Vmm, heap: KernelHeap, src: int) returns (nd: int, ghost mid: Space)
    requires Coupled(vm, heap) && vm.chunks == [] && src in vm.dirs && CloneRoom(vm, heap, src)
    modifies heap`end, heap`blocks, heap.mem, heap.index, heap.index.arr, heap.frames.bits, heap.pages
    modifies vm`tables, vm`dirs, vm`phys, vm`placement, vm`chunks, vm`heaped, vm.mem
    ensures Coupled(vm, heap) && vm.chunks == []
    ensures KernelGrown(old(vm.State()), mid) && Cloned(mid, old(vm.mem[..]), src, vm.State(), vm.mem[..], nd)
  {
    hide Coupled, KernelGrown, UsedIn, ObjectRoom, Owned, Shared, Shaped, Cloned, PrivateFrames, PrivateTables, Covers;
    CoupledSound(vm, heap);
    ghost var s, m := vm.State(), vm.mem[..];
    CloneShapes(s, src, 0);
    var n := PrivateTables(vm.dirs, vm.kernel, src, ENTRIES);
    MallocForClone(vm, heap, n);
    CoupledSound(vm, heap);
    mid := vm.State();
    GrownKeeps(s, mid, src);
    FrameCount(|vm.Used()|, PrivateFrames(mid, src, ENTRIES), |s.used|, CloneCost(s, src), vm.bitmap.Count());
    assert vm.mem[..] == m;
    nd := CloneBesides(vm, heap, src);
  }

  lemma GrownKeeps(s: Space, t: Space, d: int)
    requires s.Valid() && t.Valid() && KernelGrown(s, t) && d in s.dirs
    ensures t.dirs == s.dirs && t.kernel == s.kernel && PrivateFrames(t, d, ENTRIES) == PrivateFrames(s, d, ENTRIES)
  {
    PrivateFramesKept(s, t, d, ENTRIES);
  }

  /** clone_dir does nothing to the heap. */
  method CloneBesides(vm: Vmm, heap: KernelHeap, src: int) returns (nd: int)
    requires Coupled(vm, heap) && src in vm.dirs && |vm.chunks| == 1 + PrivateTablesOf(vm.State(), src)
    requires Covers(vm.chunks[0], DIR_SIZE)
    requires |vm.Used()| + PrivateFrames(vm.State(), src, ENTRIES) <= vm.bitmap.Count()
    modifies vm`tables, vm`dirs, vm`phys, vm`placement, vm`chunks, vm.bitmap.bits, vm.mem
    ensures Coupled(vm, heap) && vm.chunks == []
    ensures Cloned(old(vm.State()), old(vm.mem[..]), src, vm.State(), vm.mem[..], nd)
  {
    hide Tiled, Holes, Len, Separated, OwnFrames, AllMapped, Owned, Shared, Shaped, Cloned, PrivateFrames,
      PrivateTables, Covers, UsedIn, PagesAre, AllKnown, Supplied, Placed, AllNamed, Housed, FreshChunks,
      SortedArray.Valid;
    ghost var s, pages, used := vm.State(), heap.pages[..], vm.Used();
    nd := vm.CloneDir(src);
    ClonedKernel(s, old(vm.mem[..]), src, vm.State(), vm.mem[..], nd, pages);
    OwnFramesMore(pages, used, vm.Used());
  }

  /** The kernel directory shows after clone_dir what it showed before. */
  lemma ClonedKernel(s: Space, m0: seq<int>, src: int, t: Space, m: seq<int>, nd: int, pages: seq<Page>)
    requires Cloned(s, m0, src, t, m, nd) && PagesAre(s, pages)
    ensures PagesAre(t, pages) && s.used <= t.used
  {
    hide Owned, Shared, SameFrames, CloneIndex;
    assert DirShaped(s.dirs[s.kernel], s.tables);
  }

  lemma OwnFramesMore(pages: seq<Page>, used: set<nat>, now: set<nat>)
    requires OwnFrames(pages, used) && used <= now
    ensures OwnFrames(pages, now)
  {
  }
}
