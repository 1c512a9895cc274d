/** Paging objects once the heap exists: tables and directories are payloads of the heap
    (src/kernel_malloc.c:49-56, src/page.c:174,227,255). */
module VmmHeap {
  import opened Machine
  import opened Frames
  import opened Heap
  import opened HeapClient
  import opened HeapLayout
  import opened HeapMalloc
  import opened HeapMemory
  import opened HeapPages
  import opened HeapTheorems
  import opened Vmm

  /** u is a byte of the payload of block e. */
  predicate InPayload(e: Extent, u: int) {
    e.addr + HEADER <= u < e.addr + e.size - FOOTER
  }

  ghost predicate InHeap(s: Layout, u: int) {
    exists e :: e in s.Allocated() && InPayload(e, u)
  }

  /** The page at u lies, physically at ph, where the page entries map it, and belongs to a live
      block of the heap or lies below the heap. */
  ghost predicate Known(s: Layout, pages: seq<Page>, u: int, ph: int) {
    && 0 <= u && u / PAGE < |pages| && pages[u / PAGE].frame != 0 && ph == Translate(pages, u)
    && (u < s.start || InHeap(s, u))
  }

  ghost predicate AllKnown(s: Layout, pages: seq<Page>, phys: map<int, int>) {
    forall u :: u in phys ==> u % PAGE == 0 && Known(s, pages, u, phys[u])
  }

  /** The pages of an object of this size at a. */
  function ObjectPages(pages: seq<Page>, a: int, size: nat): map<int, int> {
    map k | a <= k < a + size && k % PAGE == 0 && 0 <= k && k / PAGE < |pages| :: Translate(pages, k)
  }

  /** An aligned payload that alloc has just returned, with the physical pages behind it, is a
      fresh chunk for the page tables: none of its pages, virtual or physical, is one of a
      table or directory that exists. And then it is known like those. */
  lemma MallocFresh(s: Layout, t: Layout, pages: seq<Page>, used: set<nat>, e: Extent, size: nat, phys: map<int, int>)
    requires s.Valid() && t.Valid() && 0 < t.start == s.start && t.end <= PAGE * |pages|
    requires t.Allocated() == s.Allocated() + {e} && e !in s.Allocated()
    requires (e.addr + HEADER) % PAGE == 0 && TABLE_SIZE <= size <= e.size - TAGS
    requires OwnFrames(pages, used) && AllMapped(pages, t.start, t.end) && AllKnown(s, pages, phys)
    ensures var u := e.addr + HEADER;
            var c := Chunk(u, ObjectPages(pages, u, size));
            FreshChunk(c, phys) && Covers(c, size) && AllKnown(t, pages, phys + c.pages)
  {
    hide OwnFrames, AllMapped, Layout.Allocated, Layout.Valid, Translate, ObjectPages, PageNo, InHeap;
    var u := e.addr + HEADER;
    var c := Chunk(u, ObjectPages(pages, u, size));
    forall k | u <= k < u + size && k % PAGE == 0
      ensures k in c.pages && k > 0 && k !in phys && c.pages[k] % PAGE == 0 && Known(t, pages, k, c.pages[k])
    {
      NewPayload(s, t, e, k);
      PageBounds(pages, t.start, t.end, k);
      ObjectPage(pages, u, size, k);
      assert k in phys ==> Known(s, pages, k, phys[k]);
    }
    forall k ensures k in c.pages <==> u <= k < u + size && k % PAGE == 0 {
      ObjectPage(pages, u, size, k);
    }
    forall v | v in phys ensures v % PAGE == 0 && Known(t, pages, v, phys[v]) {
      assert Known(s, pages, v, phys[v]);
      StillInHeap(s, t, e, v);
    }
    forall k, v | k in c.pages && v in phys ensures c.pages[k] != phys[v] {
      assert Known(t, pages, k, c.pages[k]) && Known(t, pages, v, phys[v]);
      OtherFrame(pages, used, k, v);
    }
    forall k, v | k in c.pages && v in c.pages && k != v ensures c.pages[k] != c.pages[v] {
      assert Known(t, pages, k, c.pages[k]) && Known(t, pages, v, c.pages[v]);
      OtherFrame(pages, used, k, v);
    }
    assert u in c.pages;
  }

  lemma StillInHeap(s: Layout, t: Layout, e: Extent, u: int)
    requires t.Allocated() == s.Allocated() + {e}
    ensures InHeap(s, u) ==> InHeap(t, u)
  {
  }

  /** No byte of a new payload lies below the heap or in another payload. */
  lemma NewPayload(s: Layout, t: Layout, e: Extent, u: int)
    requires t.Valid() && t.Allocated() == s.Allocated() + {e} && e !in s.Allocated() && InPayload(e, u)
    ensures t.start <= u < t.end && !InHeap(s, u) && InHeap(t, u) && t.start % PAGE == 0 && t.end % PAGE == 0
  {
    InStretch(t.start, t.blocks);
    forall f | f in s.Allocated() ensures !InPayload(f, u) {
      LiveDisjoint(t.start, t.blocks, e, f);
    }
  }

  lemma ObjectPage(pages: seq<Page>, a: int, size: nat, k: int)
    ensures k in ObjectPages(pages, a, size) <==> a <= k < a + size && k % PAGE == 0 && 0 <= k && k / PAGE < |pages|
    ensures k in ObjectPages(pages, a, size) ==> ObjectPages(pages, a, size)[k] == Translate(pages, k)
    ensures k in ObjectPages(pages, a, size) ==> Translate(pages, k) % PAGE == 0
  {
  }

  lemma PageBounds(pages: seq<Page>, lo: int, hi: int, u: int)
    requires AllMapped(pages, lo, hi) && lo % PAGE == 0 && hi % PAGE == 0 && hi <= PAGE * |pages| && 0 <= lo <= u < hi
    ensures 0 <= u / PAGE < |pages| && pages[u / PAGE].frame != 0
  {
  }

  /** Different pages with frames have different frames. */
  lemma OtherFrame(pages: seq<Page>, used: set<nat>, k: nat, v: nat)
    requires OwnFrames(pages, used) && k % PAGE == 0 && v % PAGE == 0 && k != v
    requires k / PAGE < |pages| && v / PAGE < |pages| && pages[k / PAGE].frame != 0
    ensures Translate(pages, k) != Translate(pages, v)
  {
    assert k / PAGE != v / PAGE;
  }

  /** alloc moves nothing: every page that was known is known in the grown heap. */
  lemma KnownGrown(s: Layout, p: seq<Page>, used: set<nat>, q: seq<Page>, now: set<nat>, lo: int, hi: int,
                   kernel: bool, writable: bool, phys: map<int, int>)
    requires AllKnown(s, p, phys) && Grown(p, used, q, now, lo, hi, kernel, writable)
    ensures AllKnown(s, q, phys)
  {
    hide FramesIn, CountFrames, InHeap;
    forall u | u in phys ensures u % PAGE == 0 && Known(s, q, u, phys[u]) {
      assert Known(s, p, u, phys[u]);
      assert NowMapped(p[u / PAGE], used, q[u / PAGE], lo <= u / PAGE < hi, kernel, writable);
    }
  }

  /** Nor does free: what is known and not part of the freed block stays known. */
  lemma KnownShrunk(s: Layout, t: Layout, p: seq<Page>, used: set<nat>, q: seq<Page>, now: set<nat>, e: Extent,
                    phys: map<int, int>)
    requires t.Valid() && t.start == s.start && t.Allocated() == s.Allocated() - {e} && 0 <= t.start && t.end <= s.end
    requires AllKnown(s, p, phys) && Shrunk(p, used, q, now, PageNo(t.end) + 1, PageNo(s.end))
    requires forall u :: u in phys ==> !InPayload(e, u)
    ensures AllKnown(t, q, phys)
  {
    hide FramesIn, CountFrames, Sized, Separated, Len, Live;
    InStretch(t.start, t.blocks);
    forall u | u in phys ensures u % PAGE == 0 && Known(t, q, u, phys[u]) {
      assert Known(s, p, u, phys[u]);
      if InHeap(s, u) {
        var f :| f in s.Allocated() && InPayload(f, u);
        assert f in t.Allocated();
      }
      assert u / PAGE <= PageNo(t.end);
    }
  }

  /** What a request for this many bytes may cost: two extensions. */
  function ObjectCost(size: nat): (c: int)
    ensures c >= 0
  {
    2 * PageUp(size + TAGS)
  }

  /** _malloc_ap from the heap, for a table or a directory: the object it returns is apart from
      all that are known, and they all stay known. */
  method HeapObject(heap: KernelHeap, size: nat, ghost phys: map<int, int>) returns (c: Chunk)
    requires heap.Valid() && size >= TABLE_SIZE && Room(heap, ObjectCost(size), 1)
    requires AllKnown(heap.State(), heap.pages[..], phys)
    modifies heap`end, heap`blocks, heap.mem, heap.index, heap.index.arr, heap.frames.bits, heap.pages
    ensures heap.Valid() && FreshChunk(c, phys) && Covers(c, size)
    ensures AllKnown(heap.State(), heap.pages[..], phys + c.pages)
    ensures old(heap.end) <= heap.end <= old(heap.end) + ObjectCost(size)
    ensures |heap.frames.Used()| * PAGE <= old(|heap.frames.Used()|) * PAGE + ObjectCost(size)
    ensures |heap.State().Allocated()| == old(|heap.State().Allocated()|) + 1
    ensures Grown(old(heap.pages[..]), old(heap.frames.Used()), heap.pages[..], heap.frames.Used(),
                  PageNo(old(heap.end)), PageNo(heap.end), heap.supervisor, !heap.readonly)
  {
    hide KernelHeap.Valid, KernelHeap.Core, Layout.Valid, Layout.Allocated, UsedIn, Grown, FramesFor, Growth,
      RoundsNeeded, AllocStep, Preserves, AllKnown, PageUp, ObjectPages, OwnFrames, AllMapped, Translate, PageNo,
      FreshChunk, Covers;
    RoomForAlloc(heap, size, true, 0, 0);
    GrowthBound(heap.State(), size + TAGS, true);
    heap.ValidState();
    ghost var s, p, used, end := heap.State(), heap.pages[..], heap.frames.Used(), heap.end;
    var a, ph;
    ghost var rounds;
    a, ph, rounds := HeapMalloc.Malloc(heap, size, true);
    ghost var t, q, now := heap.State(), heap.pages[..], heap.frames.Used();
    heap.ValidState();
    ghost var e := AllocPromise(s, t, size + TAGS, true, a, rounds);
    c := Chunk(a, ObjectPages(heap.pages[..], a, size));
    KnownGrown(s, p, used, q, now, PageNo(end), PageNo(heap.end), heap.supervisor, !heap.readonly, phys);
    MallocFresh(s, t, q, now, e, size, phys);
    GrownBudget(p, used, q, now, end, heap.end, heap.supervisor, !heap.readonly);
  }

  /** Departure "directory address" (src/page.c:232): a directory is longer than two pages, and
      its physical address is taken to run on over them. For a directory from the heap that
      is right exactly when the second page's frame follows the first one's. */
  lemma DirectoryAddressIff(pages: seq<Page>, nd: nat)
    requires nd % PAGE == 0 && nd / PAGE + 1 < |pages|
    ensures (nd + 0x1000) / PAGE == nd / PAGE + 1
    ensures Translate(pages, nd + 0x1000) == Translate(pages, nd) + 0x1000
            <==> pages[nd / PAGE + 1].frame == pages[nd / PAGE].frame + 1
  {
  }
}
