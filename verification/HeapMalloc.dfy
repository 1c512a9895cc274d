/** _malloc once the heap exists (src/kernel_malloc.c:49-56): alloc, and the physical
    address that the page tables give the result. */
module HeapMalloc {
  import opened Machine
  import opened Frames
  import opened Heap
  import opened HeapLayout
  import opened HeapMemory
  import opened HeapPages
  import HeapTheorems

  /** Where the page entries map a virtual address. */
  function Translate(pages: seq<Page>, a: nat): nat
    requires a / PAGE < |pages|
  {
    pages[a / PAGE].frame * PAGE + a % PAGE
  }

  /** No two addresses of the heap have the same physical address, so objects disjoint in
      the heap are disjoint in memory. */
  lemma TranslateInjective(pages: seq<Page>, used: set<nat>, lo: nat, hi: nat, a: nat, b: nat)
    requires OwnFrames(pages, used) && AllMapped(pages, lo, hi) && lo % PAGE == 0 && hi % PAGE == 0
    requires hi <= PAGE * |pages|
    requires lo <= a < hi && lo <= b < hi && Translate(pages, a) == Translate(pages, b)
    ensures a == b
  {
    var j, k := a / PAGE, b / PAGE;
    assert pages[j].frame != 0 && pages[k].frame != 0;
    assert pages[j].frame == pages[k].frame;
  }

  /** Consecutive addresses of one page are consecutive in memory. */
  lemma TranslateWithinPage(pages: seq<Page>, a: nat, n: nat)
    requires a / PAGE < |pages| && a % PAGE + n < PAGE
    ensures (a + n) / PAGE < |pages| && Translate(pages, a + n) == Translate(pages, a) + n
  {
    assert (a + n) / PAGE == a / PAGE;
  }

  lemma PhysOffset(frame: nat, addr: nat)
    requires frame != 0
    ensures frame * PAGE + addr % PAGE >= PAGE && (frame * PAGE + addr % PAGE) % PAGE == addr % PAGE
  {
  }

  lemma PayloadPage(heap: KernelHeap, a: nat)
    requires heap.Valid() && heap.start <= a < heap.end
    ensures a / PAGE < heap.pages.Length && heap.pages[a / PAGE].frame != 0
  {
    hide OwnFrames, AllMapped, HeapTags.Tiled, Holes, Len, Separated;
    MappedPage(heap.pages[..], heap.start, heap.end, a);
  }

  lemma MappedPage(pages: seq<Page>, lo: nat, hi: nat, a: nat)
    requires AllMapped(pages, lo, hi) && lo % PAGE == 0 && hi % PAGE == 0 && hi <= PAGE * |pages| && lo <= a < hi
    ensures a / PAGE < |pages| && pages[a / PAGE].frame != 0
  {
  }

  method Malloc(heap: KernelHeap, size: nat, align: bool) returns (addr: nat, phys: nat, ghost rounds: nat)
    requires heap.Valid()
    requires heap.index.cur + RoundsNeeded(heap.State(), size + TAGS, align) + 1 < heap.index.arr.Length
    requires heap.end + Growth(heap.State(), size + TAGS, align) <= heap.mem.Length
    requires FramesFor(heap.pages[..], heap.frames.Used(), heap.frames.Count(), heap.end,
                       heap.end + Growth(heap.State(), size + TAGS, align))
    modifies heap`end, heap`blocks, heap.mem, heap.index, heap.index.arr, heap.frames.bits, heap.pages
    ensures heap.Valid() && AllocStep(old(heap.State()), heap.State(), size + TAGS, align, addr, rounds)
    ensures rounds == RoundsNeeded(old(heap.State()), size + TAGS, align)
    ensures heap.start <= addr && addr + size <= heap.end
    ensures addr / PAGE < |heap.pages[..]| && phys == Translate(heap.pages[..], addr) && phys >= PAGE
    ensures align ==> addr % PAGE == 0 && phys % PAGE == 0
    ensures Preserves(old(heap.mem[..]), heap.mem[..], old(heap.State()).Allocated())
    ensures Grown(old(heap.pages[..]), old(heap.frames.Used()), heap.pages[..], heap.frames.Used(),
                  PageNo(old(heap.end)), PageNo(heap.end), heap.supervisor, !heap.readonly)
  {
    hide Grown, FramesFor, PageNo, UsedIn, OwnFrames, AllMapped, Preserves, AllocStep, RoundsNeeded, Growth,
      HeapLayout.Live, Agree, KernelHeap.Valid, KernelHeap.Core, Layout.Valid, PageUp, TWO32;
    ghost var s := heap.State();
    heap.ValidState();
    var p;
    p, rounds := heap.Alloc(size, align);
    ghost var e := HeapTheorems.AllocPromise(s, heap.State(), size + TAGS, align, p, rounds);
    addr := p;
    PayloadPage(heap, addr);
    phys := heap.pages[addr / PAGE].frame * PAGE + addr % PAGE;
    PhysOffset(heap.pages[addr / PAGE].frame, addr);
  }
}
