/** fork as a whole (src/task.c:59-100), over the heap, the page tables and the task list; and
    the mapping of a page for the running task (src/task.c:9-11). Both are steps of
    Isolation.dfy, so its theorems hold of any run of them. */
module Forking {
  import opened Frames
  import opened Heap
  import opened HeapLayout
  import opened HeapPages
  import opened HeapTags
  import opened Isolation
  import opened KernelBoot
  import opened KernelSpace
  import opened KernelMalloc
  import opened Machine
  import opened Paging
  import Scheduler
  import opened SortedArrays
  import Tasks
  import opened Vmm
  import opened VmmHeap

  ghost function WorldOf(vm: Vmm, sched: Scheduler.Scheduler): World
    reads vm, vm.bitmap.bits, vm.mem, sched, sched.list, sched.dead
  {
    World(sched.State(), vm.State(), vm.mem[..])
  }

  /** Boot to its end (src/page.c:118-160), and init_multitask: the first task, on the clone of the
      kernel directory. Here a run of Isolation.dfy begins. */
  method Start(memory: array<int>, free: nat, bytes: array<byte>, storage: array<int>, regs: Tasks.Regs, time: nat)
    returns (vm: Vmm, heap: KernelHeap, sched: Scheduler.Scheduler)
    requires memory.Length == WORDS * FRAME_COUNT && bytes.Length == PAGE * KHEAP_LIMIT
    requires storage.Length == HEAP_INDEX_SIZE
    requires memory as object != bytes && memory != storage && bytes as object != storage
    requires PageUp(free + FRAME_COUNT / 8) + DIR_SIZE + BOOT_SLACK + KHEAP_INITIAL_SIZE + DIR_COST + PAGE
             <= PAGE * FRAME_COUNT
    modifies memory, bytes, storage
    ensures Coupled(vm, heap) && vm.chunks == [] && sched.Valid() && Booted(WorldOf(vm, sched))
    ensures sched.cpu.dir in vm.dirs && sched.cpu.dir != vm.kernel
  {
    hide Coupled, KernelGrown, BootMap, Owned, Shared, Shaped, SameFrames, CloneIndex, PageUp, UsedIn, Scheduler.Linked;
    var dir;
    ghost var n, s, mid;
    vm, heap, dir, n, s, mid := Boot(memory, free, bytes, storage);
    CoupledSound(vm, heap);
    ghost var t := vm.State();
    CloneIsOther(mid, old(memory[..]), s.kernel, t, memory[..], dir);
    sched := new Scheduler.Scheduler(dir, Tasks.Cpu(regs, dir), time);
    assert Coupled(vm, heap) && vm.State() == t;
    assert sched.State() == Tasks.Boot(dir, Tasks.Cpu(regs, dir), time);
  }

  lemma CloneIsOther(s: Space, m0: seq<int>, src: int, t: Space, m: seq<int>, nd: int)
    requires Cloned(s, m0, src, t, m, nd)
    ensures nd in t.dirs && nd != t.kernel
  {
    hide Owned, Shared, SameFrames, CloneIndex;
  }

  /** fork: alloc may first add pages to the kernel's own tables; then the child, last in the
      list, gets the next pid and a clone of the directory in force. */
  method Fork(vm: Vmm, heap: KernelHeap, sched: Scheduler.Scheduler, esp: int, ebp: int)
    returns (pid: int, ghost dir: int, ghost mid: World)
    requires Coupled(vm, heap) && vm.chunks == [] && sched.Valid() && sched.cpu.dir in vm.dirs
    requires CloneRoom(vm, heap, sched.cpu.dir)
    modifies heap`end, heap`blocks, heap.mem, heap.index, heap.index.arr, heap.frames.bits, heap.pages
    modifies vm`tables, vm`dirs, vm`phys, vm`placement, vm`chunks, vm`heaped, vm.mem, sched, sched.list
    ensures Coupled(vm, heap) && vm.chunks == [] && sched.Valid() && pid == old(sched.nextPid)
    ensures WorldStep(old(WorldOf(vm, sched)), KernelMaps, mid) && KernelGrown(old(vm.State()), mid.space)
    ensures WorldStep(mid, Forks(esp, ebp, dir), WorldOf(vm, sched))
    ensures forall vpn: nat :: vpn < ENTRIES * ENTRIES ==>
              ForkedPage(old(vm.State()), old(vm.mem[..]), old(sched.cpu.dir), vm.State(), vm.mem[..], dir, vpn)
  {
    hide Coupled, KernelGrown, KernelChanged, Cloned, UsedIn, Owned, Shared, Shaped, ObjectRoom, ForkedPage,
      Scheduler.Linked, Scheduler.Values, PrivateFrames, Layout.Allocated;
    CoupledSound(vm, heap);
    Scheduler.ValuesAt(sched.list, sched.at);
    ghost var w := WorldOf(vm, sched);
    var parent := sched.cpu.dir;
    var nd;
    ghost var s;
    nd, s := CloneInHeap(vm, heap, parent);
    dir, mid := nd, World(w.kernel, s, w.mem);
    assert sched.State() == w.kernel;
    ghost var t, m := vm.State(), vm.mem[..];
    CoupledSound(vm, heap);
    pid := sched.DoFork(esp, ebp, nd);
    assert Coupled(vm, heap) && vm.State() == t && vm.mem[..] == m;
    ForkSteps(w, mid, WorldOf(vm, sched), parent, nd, esp, ebp);
    forall vpn: nat | vpn < ENTRIES * ENTRIES ensures ForkedPage(w.space, w.mem, parent, t, m, nd, vpn) {
      ForkedIs(w.space, s, w.mem, parent, t, m, nd, vpn);
    }
  }

  lemma ForkSteps(w: World, mid: World, v: World, parent: int, dir: int, esp: int, ebp: int)
    requires w.kernel.cur < |w.kernel.tasks| && w.kernel.cpu.dir == parent && w.space.Valid() && parent in w.space.dirs
    requires mid == World(w.kernel, mid.space, w.mem) && KernelGrown(w.space, mid.space)
    requires Cloned(mid.space, w.mem, parent, v.space, v.mem, dir) && v.kernel == Tasks.Fork(w.kernel, esp, ebp, dir)
    ensures WorldStep(w, KernelMaps, mid) && WorldStep(mid, Forks(esp, ebp, dir), v)
  {
    hide Owned, Shared, SameFrames, CloneIndex;
  }

  /** Page vpn of parent src and child nd after the fork: both show the same, and the same as
      the parent before, except where the kernel has got a new page; kernel pages are the same
      entry; all others lie in frames that were free, valid and open to the user. */
  ghost predicate ForkedPage(s: Space, m0: seq<int>, src: int, t: Space, m: seq<int>, nd: int, vpn: nat)
    requires vpn < ENTRIES * ENTRIES
  {
    && Shaped(s.tables, s.dirs, s.kernel) && Shaped(t.tables, t.dirs, t.kernel) && src in s.dirs && src in t.dirs
    && nd in t.dirs
    && View(t, m, nd, vpn) == View(t, m, src, vpn)
    && (!KernelPage(s, src, vpn) || Entry(s, src, vpn).frame != 0 ==> View(t, m, src, vpn) == View(s, m0, src, vpn))
    && (KernelPage(s, src, vpn) <==> KernelPage(t, nd, vpn))
    && (KernelPage(s, src, vpn) ==> Entry(t, nd, vpn) == Entry(t, src, vpn))
    && (!KernelPage(s, src, vpn) ==>
          var p, q := Entry(s, src, vpn), Entry(t, nd, vpn);
          if p.frame == 0 then q == Page(false, false, false, false, false, 0)
          else
            && q == Page(true, p.rw, true, p.accessed, p.dirty, q.frame)
            && q.frame != 0 && q.frame !in s.used)
  }

  lemma ForkedIs(s: Space, mid: Space, m0: seq<int>, src: int, t: Space, m: seq<int>, nd: int, vpn: nat)
    requires s.Valid() && KernelGrown(s, mid) && Cloned(mid, m0, src, t, m, nd) && vpn < ENTRIES * ENTRIES
    ensures ForkedPage(s, m0, src, t, m, nd, vpn)
  {
    hide Owned, Shared, SameFrames, CloneIndex, PageOf;
    CloneViews(mid, m0, src, t, m, nd, vpn);
    assert DirShaped(s.dirs[src], s.tables) && DirShaped(s.dirs[s.kernel], s.tables);
    PrivateNotKernel(s, src, vpn / ENTRIES);
    var a := s.dirs[src].table[vpn / ENTRIES];
    if a != 0 {
      assert Slot(s.tables, a, vpn % ENTRIES) && FrameAt(s.tables, a, vpn % ENTRIES) == Entry(s, src, vpn).frame;
    }
  }

  // ---------------------------------------------------------------- a page for the running task

  /** alloc_frame(get_page(addr, 1, dir), 0, 1) */
  method MapIn(vm: Vmm, d: int, vpn: nat)
    requires vm.Valid() && d in vm.dirs && vpn < ENTRIES * ENTRIES && |vm.Used()| < vm.bitmap.Count()
    requires vm.heaped ==>
               && vpn / ENTRIES < |vm.dirs[d].table|
               && |vm.chunks| == if vm.dirs[d].table[vpn / ENTRIES] == 0 then 1 else 0
    modifies vm`tables, vm`dirs, vm`phys, vm`placement, vm`chunks, vm.bitmap.bits
    ensures vm.Valid() && MappedIn(old(vm.State()), d, vpn, vm.State()) && d in vm.dirs
    ensures vm.heaped ==> vm.chunks == [] && Supplied(vm.phys, vm.chunks) == old(Supplied(vm.phys, vm.chunks))
  {
    hide Owned, Shared, Shaped, Placed, AllNamed, Housed, FreshChunks, BelowPlacement, UsedIn, Supplied, Place,
      IdentityPages, WithTable, SetEntry, FrameTaken, MappedIn, Entry;
    ghost var s, i := vm.State(), vpn / ENTRIES;
    DirAt(s, d, vpn);
    var slot := vm.GetPage(vpn * PAGE, true, d);
    ghost var t := vm.State();
    assert TableMade(s, d, i, t);
    SlotMade(s, t, d, vpn);
    vm.AllocSlot(slot.table, slot.index, false, true);
    FrameIs(s, t, vm.State(), d, vpn);
    MappedValid(s, d, vpn, vm.State());
  }

  lemma DirAt(s: Space, d: int, vpn: nat)
    requires s.Valid() && d in s.dirs && vpn < ENTRIES * ENTRIES
    ensures |s.dirs[d].table| == |s.dirs[d].phy| == ENTRIES && 0 <= vpn * PAGE < TWO32 && vpn * PAGE / PAGE == vpn
    ensures vpn / ENTRIES < ENTRIES && Owned(s.tables, s.used)
  {
    assert DirShaped(s.dirs[d], s.tables);
  }

  lemma SlotMade(s: Space, t: Space, d: int, vpn: nat)
    requires s.Valid() && d in s.dirs && vpn < ENTRIES * ENTRIES && |s.dirs[d].table| == |s.dirs[d].phy| == ENTRIES
    requires TableMade(s, d, vpn / ENTRIES, t)
    ensures t.Valid() && d in t.dirs && vpn / ENTRIES < |t.dirs[d].table| && Owned(t.tables, t.used) && t.used == s.used
    ensures Slot(t.tables, t.dirs[d].table[vpn / ENTRIES], vpn % ENTRIES)
    ensures s.dirs[d].table[vpn / ENTRIES] != 0 ==> t == s
    ensures forall a, ph :: s.dirs[d].table[vpn / ENTRIES] == 0 && t == WithTable(s, d, vpn / ENTRIES, a, ph) ==>
                              t.dirs[d].table[vpn / ENTRIES] == a
  {
    hide Owned, Shared;
    TableMadeValid(s, d, vpn / ENTRIES, t);
    assert DirShaped(t.dirs[d], t.tables) && HasTable(t.dirs, d, vpn / ENTRIES);
  }

  /** The frame that alloc_frame has taken. */
  lemma FrameIs(s: Space, t: Space, u: Space, d: int, vpn: nat)
    requires s.Valid() && t.Valid() && u.Valid() && 0 in t.used && d in s.dirs && d in t.dirs && vpn < ENTRIES * ENTRIES
    requires |s.dirs[d].table| == |s.dirs[d].phy| == ENTRIES && TableMade(s, d, vpn / ENTRIES, t)
    requires vpn / ENTRIES < |t.dirs[d].table| && u.dirs == t.dirs && u.kernel == t.kernel
    requires var a, k := t.dirs[d].table[vpn / ENTRIES], vpn % ENTRIES;
             && Slot(t.tables, a, k)
             && if t.tables[a][k].frame != 0 then u.tables == t.tables && u.used == t.used
                else (exists f: nat :: f !in t.used && u.used == t.used + {f}
                        && u.tables == SetEntry(t.tables, a, k, GivenFrame(t.tables[a][k], false, true, f)))
    ensures MappedIn(s, d, vpn, u)
  {
    hide Owned, Shared;
    var a, k := t.dirs[d].table[vpn / ENTRIES], vpn % ENTRIES;
    assert DirShaped(t.dirs[d], t.tables);
    if t.tables[a][k].frame == 0 {
      var f: nat :| f !in t.used && u.used == t.used + {f}
        && u.tables == SetEntry(t.tables, a, k, GivenFrame(t.tables[a][k], false, true, f));
    }
    assert FrameTaken(t, a, k, u);
    assert EntryTaken(t, d, vpn, u);
  }

  /** A mapping in another directory, where the kernel has no table, is none of the kernel's. */
  lemma MappedBeside(s: Space, d: int, vpn: nat, u: Space, pages: seq<Page>)
    requires vpn < ENTRIES * ENTRIES && MappedIn(s, d, vpn, u) && PagesAre(s, pages)
    requires d != s.kernel && !HasTable(s.dirs, s.kernel, vpn / ENTRIES)
    ensures PagesAre(u, pages) && s.used <= u.used && u.kernel == s.kernel
  {
    hide Owned, TableMade, FrameTaken;
    var t: Space :| TableMade(s, d, vpn / ENTRIES, t) && EntryTaken(t, d, vpn, u);
    TableMadeValid(s, d, vpn / ENTRIES, t);
    FrameTakenValid(t, t.dirs[d].table[vpn / ENTRIES], vpn % ENTRIES, u);
    MadeThere(s, d, vpn / ENTRIES, t);
    forall v: nat | v < |pages| ensures Entry(u, u.kernel, v) == pages[v] {
      KernelEntryKept(s, d, vpn, t, u, v);
    }
    KernelEntryKept(s, d, vpn, t, u, 0);
  }

  lemma KernelEntryKept(s: Space, d: int, vpn: nat, t: Space, u: Space, v: nat)
    requires s.Valid() && t.Valid() && u.Valid() && d in s.dirs && vpn < ENTRIES * ENTRIES && v < ENTRIES * ENTRIES
    requires vpn / ENTRIES < |s.dirs[d].table| && vpn / ENTRIES < |s.dirs[d].phy|
    requires TableMade(s, d, vpn / ENTRIES, t) && EntryTaken(t, d, vpn, u) && HasTable(t.dirs, d, vpn / ENTRIES)
    requires d != s.kernel && !HasTable(s.dirs, s.kernel, vpn / ENTRIES)
    ensures u.kernel == s.kernel && s.used <= u.used && Entry(u, u.kernel, v) == Entry(s, s.kernel, v)
  {
    hide Owned;
    assert DirShaped(s.dirs[s.kernel], s.tables) && DirShaped(t.dirs[t.kernel], t.tables);
    assert t.dirs[t.kernel] == s.dirs[s.kernel];
    assert HasTable(t.dirs, t.kernel, v / ENTRIES) <==> t.dirs[t.kernel].table[v / ENTRIES] != 0;
  }

  /** MapIn beside the heap, which keeps its pages. */
  method MapBeside(vm: Vmm, heap: KernelHeap, d: int, vpn: nat)
    requires Coupled(vm, heap) && d in vm.dirs && vpn < ENTRIES * ENTRIES && |vm.Used()| < vm.bitmap.Count()
    requires d != vm.kernel && !HasTable(vm.dirs, vm.kernel, vpn / ENTRIES) && vpn / ENTRIES < |vm.dirs[d].table|
    requires |vm.chunks| == if vm.dirs[d].table[vpn / ENTRIES] == 0 then 1 else 0
    modifies vm`tables, vm`dirs, vm`phys, vm`placement, vm`chunks, vm.bitmap.bits
    ensures Coupled(vm, heap) && vm.chunks == [] && MappedIn(old(vm.State()), d, vpn, vm.State())
    ensures d in vm.dirs
  {
    hide Tiled, Holes, Len, Separated, OwnFrames, AllMapped, Owned, Shared, UsedIn, PagesAre, AllKnown, Supplied,
      Placed, AllNamed, Housed, FreshChunks, SortedArray.Valid, MappedIn, Entry, Shaped;
    ghost var s, pages, used := vm.State(), heap.pages[..], vm.Used();
    MapIn(vm, d, vpn);
    MappedBeside(s, d, vpn, vm.State(), pages);
    OwnFramesMore(pages, used, vm.Used());
  }

  /** What the heap has to supply for a page: a table, if there is none. */
  method SupplyTable(vm: Vmm, heap: KernelHeap, d: int, vpn: nat)
    requires Coupled(vm, heap) && vm.chunks == [] && d in vm.dirs && vpn < ENTRIES * ENTRIES
    requires ObjectRoom(vm, heap, TABLE_COST, 1)
    modifies heap`end, heap`blocks, heap.mem, heap.index, heap.index.arr, heap.frames.bits, heap.pages
    modifies vm`tables, vm`chunks, vm`heaped
    ensures Coupled(vm, heap) && KernelGrown(old(vm.State()), vm.State()) && vpn / ENTRIES < |vm.dirs[d].table|
    ensures |vm.chunks| == if vm.dirs[d].table[vpn / ENTRIES] == 0 then 1 else 0
    ensures |vm.Used()| * PAGE <= old(|vm.Used()|) * PAGE + TABLE_COST
  {
    hide Coupled, KernelGrown, UsedIn, Owned, Shared, Shaped, ObjectRoom, Layout.Allocated;
    CoupledSound(vm, heap);
    DirAt(vm.State(), d, vpn);
    GrownSelf(vm.State());
    if vm.dirs[d].table[vpn / ENTRIES] == 0 {
      Costs();
      MallocNext(vm, heap, TABLE_SIZE, 0, 0);
    }
  }

  /** One page of the new stack of the running task: lines 9-11, in a part of the address space
      that the kernel does not use. If a table must be made for it, the heap supplies it. */
  method MapPage(vm: Vmm, heap: KernelHeap, sched: Scheduler.Scheduler, vpn: nat) returns (ghost mid: World)
    requires Coupled(vm, heap) && vm.chunks == [] && sched.Valid() && sched.cpu.dir in vm.dirs
    requires sched.cpu.dir != vm.kernel
    requires vpn < ENTRIES * ENTRIES && !HasTable(vm.dirs, vm.kernel, vpn / ENTRIES)
    requires ObjectRoom(vm, heap, TABLE_COST, 1) && |vm.Used()| * PAGE + TABLE_COST < vm.bitmap.Count() * PAGE
    modifies heap`end, heap`blocks, heap.mem, heap.index, heap.index.arr, heap.frames.bits, heap.pages
    modifies vm`tables, vm`dirs, vm`phys, vm`placement, vm`chunks, vm`heaped
    ensures Coupled(vm, heap) && vm.chunks == [] && sched.Valid()
    ensures WorldStep(old(WorldOf(vm, sched)), KernelMaps, mid) && WorldStep(mid, Maps(vpn), WorldOf(vm, sched))
    ensures KernelGrown(old(vm.State()), mid.space) && sched.cpu == old(sched.cpu) && sched.cpu.dir in vm.dirs
    ensures var d := sched.cpu.dir;
            var p, q := old(Entry(vm.State(), sched.cpu.dir, vpn)), Entry(vm.State(), d, vpn);
            && (forall v: nat :: v < ENTRIES * ENTRIES && v != vpn ==>
                  Entry(vm.State(), d, v) == Entry(mid.space, d, v))
            && if p.frame != 0 then q == p
               else
                 && q == Page(true, true, true, p.accessed, p.dirty, q.frame)
                 && q.frame != 0 && q.frame !in old(vm.Used())
  {
    hide Coupled, KernelGrown, KernelChanged, MappedIn, WorldStep, UsedIn, Space.Valid, Vmm.Sound, ObjectRoom,
      Scheduler.Linked, Scheduler.Values, Layout.Allocated, Entry;
    CoupledSound(vm, heap);
    Scheduler.ValuesAt(sched.list, sched.at);
    ghost var w := WorldOf(vm, sched);
    var d := sched.cpu.dir;
    SupplyTable(vm, heap, d, vpn);
    CoupledSound(vm, heap);
    mid := World(w.kernel, vm.State(), w.mem);
    GrownSteps(w, mid);
    MapBeside(vm, heap, d, vpn);
    CoupledSound(vm, heap);
    assert WorldOf(vm, sched) == World(w.kernel, vm.State(), w.mem);
    MapSteps(mid, vpn, WorldOf(vm, sched));
    MappedPages(w.space, mid.space, d, vpn, vm.State());
  }

  lemma MappedPages(s: Space, mid: Space, d: int, vpn: nat, u: Space)
    requires vpn < ENTRIES * ENTRIES && MappedIn(mid, d, vpn, u) && 0 in s.used
    requires s.Valid() && KernelGrown(s, mid) && mid.Valid() && d in s.dirs
    requires !HasTable(s.dirs, s.kernel, vpn / ENTRIES)
    ensures Shaped(u.tables, u.dirs, u.kernel) && d in u.dirs && d in mid.dirs
    ensures forall v: nat :: v < ENTRIES * ENTRIES && v != vpn ==> Entry(u, d, v) == Entry(mid, d, v)
    ensures var p, q := Entry(s, d, vpn), Entry(u, d, vpn);
            if p.frame != 0 then q == p
            else q == Page(true, true, true, p.accessed, p.dirty, q.frame) && q.frame != 0 && q.frame !in s.used
  {
    hide Owned, Shared, MappedIn;
    MappedEntry(mid, d, vpn, u, vpn);
    forall v: nat | v < ENTRIES * ENTRIES ensures v != vpn ==> Entry(u, d, v) == Entry(mid, d, v) {
      MappedEntry(mid, d, vpn, u, v);
    }
    UserEntry(s, mid, d, vpn);
  }

  /** A page that lies in none of the kernel's tables keeps its entry while they grow. */
  lemma UserEntry(s: Space, t: Space, d: int, vpn: nat)
    requires s.Valid() && t.Valid() && KernelChanged(s, t) && d in s.dirs && vpn < ENTRIES * ENTRIES
    requires !HasTable(s.dirs, s.kernel, vpn / ENTRIES)
    ensures d in t.dirs && Entry(t, d, vpn) == Entry(s, d, vpn)
  {
    hide Owned, Shared;
    assert DirShaped(s.dirs[d], s.tables) && DirShaped(s.dirs[s.kernel], s.tables);
    PrivateNotKernel(s, d, vpn / ENTRIES);
  }

  lemma GrownSteps(w: World, mid: World)
    requires w.kernel.cur < |w.kernel.tasks| && w.space.Valid() && w.kernel.cpu.dir in w.space.dirs && mid.space.Valid()
    requires mid == World(w.kernel, mid.space, w.mem) && KernelGrown(w.space, mid.space)
    ensures WorldStep(w, KernelMaps, mid) && mid.space.dirs == w.space.dirs && mid.space.kernel == w.space.kernel
  {
  }

  lemma MapSteps(w: World, vpn: nat, v: World)
    requires w.kernel.cur < |w.kernel.tasks| && w.space.Valid() && w.kernel.cpu.dir in w.space.dirs
    requires vpn < ENTRIES * ENTRIES
    requires v == World(w.kernel, v.space, w.mem) && MappedIn(w.space, w.kernel.cpu.dir, vpn, v.space)
    ensures WorldStep(w, Maps(vpn), v)
  {
  }
}
