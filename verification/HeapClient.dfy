/** A client of the kernel heap: it serves any list of requests with alloc and free, writes
    its own data into what it gets, and finds that data again. So the runs of HeapTheorems
    are runs of the heap itself (src/kheap.c:81-277). */
module HeapClient {
  import opened Machine
  import opened Frames
  import opened Heap
  import opened HeapLayout
  import opened HeapMemory
  import opened HeapPages
  import opened HeapTags
  import opened HeapTheorems

  // ---------------------------------------------------------------- contract and expand

  /** What contract gives up, expand takes back: k pages cost k - 1 frames, because the page at
      the contracted end is still mapped. Then as many frames are in use as before. */
  method ContractThenExpand(heap: KernelHeap, newSize: int) returns (ghost contracted: int, ghost between: nat)
    requires heap.Shape() && heap.PagesOk() && heap.end % PAGE == 0 && heap.end <= heap.mem.Length
    requires ContractLen(newSize) <= heap.end - heap.start
    modifies heap`end, heap.frames.bits, heap.pages
    ensures heap.end == old(heap.end) && heap.PagesOk() && contracted == heap.start + ContractLen(newSize)
    ensures var k := PageNo(heap.end) - PageNo(contracted);
            |heap.frames.Used()| == between + (if k > 0 then k - 1 else 0) == |old(heap.frames.Used())|
    ensures PageNo(contracted) < PageNo(heap.end) <= heap.pages.Length ==>
              heap.pages[PageNo(contracted)] == old(heap.pages[PageNo(contracted)])
  {
    hide Shrunk, Grown, OwnFrames, AllMapped, PageNo, PageUp, ContractLen, UsedIn, FramesFor;
    heap.ShapeFacts();
    ghost var p, used, oldEnd := heap.pages[..], heap.frames.Used(), heap.end;
    var size := heap.end - heap.start;
    ContractedPages(p, heap.start, heap.start + ContractLen(newSize), heap.end);
    FramesCounted(heap.frames);
    var ignored := heap.Contract(newSize);
    contracted := heap.end;
    ghost var q, now := heap.pages[..], heap.frames.Used();
    between := |now|;
    BackFits(p, used, q, now, heap.frames.Count(), contracted, oldEnd);
    WholePages(heap.start, size);
    heap.Expand(size);
    TakenBack(p, used, q, now, heap.pages[..], heap.frames.Used(), PageNo(contracted), PageNo(oldEnd),
              heap.supervisor, !heap.readonly);
  }

  lemma FramesCounted(bm: Bitmap)
    ensures |bm.Used()| <= bm.Count()
  {
    AtMost(bm.Used(), bm.Count());
  }

  lemma WholePages(start: int, size: int)
    requires start % PAGE == 0 && (start + size) % PAGE == 0
    ensures PageUp(size) == size
  {
  }

  lemma ContractedPages(p: seq<Page>, start: int, stop: int, end: int)
    requires AllMapped(p, start, end) && 0 < start <= stop <= end <= PAGE * |p|
    ensures 0 <= PageNo(stop) <= PageNo(end) <= |p|
    ensures forall k :: PageNo(stop) <= k < PageNo(end) ==> p[k].frame != 0
  {
  }

  // ---------------------------------------------------------------- how much room is enough

  /** No more holes than live blocks, and one. */
  lemma {:induction false} HolesBound(p: int, bs: seq<Block>)
    requires Sized(bs) && Separated(bs)
    ensures |Holes(p, bs)| <= |Live(p, bs)| + (if bs != [] && bs[0].hole then 1 else 0)
    decreases bs
  {
    if bs != [] {
      var rest, q := bs[1..], p + bs[0].size;
      HolesBound(q, rest);
      if bs[0].hole {
        assert Live(p, bs) == Live(q, rest) && |Holes(p, bs)| == 1 + |Holes(q, rest)|;
      } else {
        NewFirst(p, bs);
        assert Holes(p, bs) == Holes(q, rest);
      }
    }
  }

  lemma NewFirst(p: int, bs: seq<Block>)
    requires Sized(bs) && bs != [] && !bs[0].hole
    ensures |Live(p, bs)| == |Live(p + bs[0].size, bs[1..])| + 1
  {
    hide Len;
    InStretch(p + bs[0].size, bs[1..]);
    assert Extent(p, bs[0].size) !in Live(p + bs[0].size, bs[1..]);
  }

  /** So the index of a heap never holds more than that. */
  lemma IndexBound(heap: KernelHeap)
    requires heap.Valid()
    ensures heap.index.cur <= |heap.State().Allocated()| + 1
  {
    hide Tiled, Holes, Live, OwnFrames, AllMapped, UsedIn;
    heap.ValidState();
    HolesBound(heap.start, heap.blocks);
    assert |multiset(heap.index.Live())| == |multiset(Holes(heap.start, heap.blocks))|;
  }

  // ---------------------------------------------------------------- what the client holds

  /** A client's request: an object to be filled with its data, or an object of its own, by
      place in what it holds, to be given back; no such place gives back the null pointer. */
  datatype Request = Get(size: nat, align: bool, data: seq<byte>) | Give(place: nat)

  predicate Proper(r: Request) { r.Get? ==> |r.data| <= r.size }

  /** What an answered request got. */
  datatype Object = Object(ptr: int, r: Request)

  /** The object lies in the live block e, as long and as aligned as asked, and still holds
      its data. */
  ghost predicate HeldAt(s: Layout, m: Mem, o: Object, e: Extent) {
    && e in s.Allocated() && o.ptr == e.addr + HEADER && o.r.Get? && Proper(o.r)
    && o.r.size + TAGS <= e.size && (o.r.align ==> o.ptr % PAGE == 0)
    && 0 <= e.addr && e.addr + e.size <= |m| && m[o.ptr..o.ptr + |o.r.data|] == o.r.data
  }

  ghost predicate Holding(s: Layout, m: Mem, held: seq<Object>, es: seq<Extent>) {
    && |held| == |es| && (forall i :: 0 <= i < |held| ==> HeldAt(s, m, held[i], es[i]))
    && forall i, j :: 0 <= i < j < |es| ==> es[i] != es[j]
  }

  lemma HeldKept(s: Layout, m: Mem, t: Layout, n: Mem, o: Object, e: Extent)
    requires HeldAt(s, m, o, e) && e in t.Allocated() && Agree(m, n, e.addr, e.addr + e.size)
    ensures HeldAt(t, n, o, e)
  {
    var data := o.r.data;
    forall k | 0 <= k < |data| ensures n[o.ptr..o.ptr + |data|][k] == data[k] {
      assert m[o.ptr..o.ptr + |data|][k] == data[k];
    }
  }

  lemma HoldingKept(s: Layout, m: Mem, t: Layout, n: Mem, held: seq<Object>, es: seq<Extent>)
    requires Holding(s, m, held, es) && Preserves(m, n, s.Allocated()) && s.Allocated() <= t.Allocated()
    ensures Holding(t, n, held, es)
  {
    hide HeldAt, Agree;
    forall i | 0 <= i < |held| ensures HeldAt(t, n, held[i], es[i]) {
      HeldIn(s, m, held[i], es[i]);
      HeldKept(s, m, t, n, held[i], es[i]);
    }
  }

  lemma HeldIn(s: Layout, m: Mem, o: Object, e: Extent)
    requires HeldAt(s, m, o, e)
    ensures e in s.Allocated() && o.ptr == e.addr + HEADER
  {
  }

  // ---------------------------------------------------------------- the client's own stores

  /** A store into a payload leaves the tags of its block alone. */
  lemma PayloadKeepsBlock(m: Mem, n: Mem, a: int, b: Block, lo: int, hi: int)
    requires BlockAt(m, a, b) && AgreeOutside(m, n, lo, hi) && a + HEADER <= lo && hi <= a + b.size - FOOTER
    ensures BlockAt(n, a, b)
  {
  }

  lemma PayloadKeepsTiling(m: Mem, n: Mem, s: Layout, e: Extent, lo: int, hi: int)
    requires s.Valid() && Tiled(m, s.start, s.blocks) && e in s.Allocated() && AgreeOutside(m, n, lo, hi)
    requires e.addr + HEADER <= lo <= hi <= e.addr + e.size - FOOTER
    ensures Tiled(n, s.start, s.blocks)
  {
    hide Tiled, Live, Len, AgreeOutside, BlockAt;
    var i := LiveIndex(s.start, s.blocks, e);
    var x, b, y := s.blocks[..i], s.blocks[i], s.blocks[i + 1..];
    Tiled3(m, s.start, x, [b], y);
    Tiled3(n, s.start, x, [b], y);
    TiledSingle(m, e.addr, b);
    TiledSingle(n, e.addr, b);
    Single(e.addr, b);
    PayloadKeepsBlock(m, n, e.addr, b, lo, hi);
    FrameOutside(m, n, lo, hi, s.start, x);
    FrameOutside(m, n, lo, hi, e.addr + b.size, y);
  }

  /** Other live blocks do not notice. */
  lemma PayloadKeepsOthers(m: Mem, n: Mem, s: Layout, e: Extent, others: set<Extent>, lo: int, hi: int)
    requires s.Valid() && e in s.Allocated() && others <= s.Allocated() - {e} && AgreeOutside(m, n, lo, hi)
    requires e.addr <= lo <= hi <= e.addr + e.size
    ensures Preserves(m, n, others)
  {
    hide Live, Len;
    forall f | f in others ensures Agree(m, n, f.addr, f.addr + f.size) {
      LiveDisjoint(s.start, s.blocks, e, f);
    }
  }

  method Fill(heap: KernelHeap, p: int, data: seq<byte>, ghost e: Extent)
    requires heap.Valid() && e in heap.State().Allocated() && p == e.addr + HEADER && |data| + TAGS <= e.size
    modifies heap.mem
    ensures heap.Valid() && 0 <= e.addr && e.addr + e.size <= heap.mem.Length && heap.mem[p..p + |data|] == data
    ensures AgreeOutside(old(heap.mem[..]), heap.mem[..], p, p + |data|)
    ensures heap.frames.Used() == old(heap.frames.Used()) && heap.pages[..] == old(heap.pages[..])
  {
    hide Tiled, Holes, Live, Len, OwnFrames, AllMapped, UsedIn;
    heap.ValidState();
    InStretch(heap.start, heap.blocks);
    for i := 0 to |data|
      invariant forall k :: 0 <= k < heap.mem.Length ==>
                  heap.mem[k] == if p <= k < p + i then data[k - p] else old(heap.mem[k])
    {
      heap.mem[p + i] := data[i];
    }
    PayloadKeepsTiling(old(heap.mem[..]), heap.mem[..], heap.State(), e, p, p + |data|);
    assert heap.pages[..] == old(heap.pages[..]) && heap.frames.bits[..] == old(heap.frames.bits[..]);
    assert heap.index.arr[..] == old(heap.index.arr[..]);
  }

  // ---------------------------------------------------------------- the run that is served

  /** The states and calls of a run, with the memory before and after each call. */
  datatype Trace = Trace(states: seq<Layout>, ops: seq<Op>, before: seq<Mem>, after: seq<Mem>)

  /** Blocks live before and after call i hold the same bytes in both memories. */
  ghost predicate Quiet(s: Layout, t: Layout, m: Mem, n: Mem) {
    forall e :: e in s.Allocated() && e in t.Allocated() ==> Agree(m, n, e.addr, e.addr + e.size)
  }

  /** A run of HeapTheorems that ends in memory m, each call keeping its promise, and the
      client storing nothing between calls but into the block it has just got. */
  ghost predicate Traced(t: Trace, m: Mem) {
    && Run(t.states, t.ops) && |t.before| == |t.after| == |t.ops|
    && (forall i :: 0 <= i < |t.ops| ==> Kept(t.states[i], t.ops[i], t.before[i], t.after[i]))
    && (forall i :: 0 <= i < |t.ops| ==>
          Quiet(t.states[i], t.states[i + 1], t.after[i], if i + 1 < |t.ops| then t.before[i + 1] else m))
  }

  function Next(t: Trace, op: Op, s: Layout, m: Mem, n: Mem): Trace {
    Trace(t.states + [s], t.ops + [op], t.before + [m], t.after + [n])
  }

  lemma TracedNext(t: Trace, m: Mem, op: Op, s: Layout, n: Mem, last: Mem)
    requires Traced(t, m) && Step(t.states[|t.ops|], op, s) && Kept(t.states[|t.ops|], op, m, n)
    requires Quiet(t.states[|t.ops|], s, n, last)
    ensures Traced(Next(t, op, s, m, n), last)
  {
    hide Step, Kept, Quiet;
    var u := Next(t, op, s, m, n);
    forall i | 0 <= i < |u.ops|
      ensures Step(u.states[i], u.ops[i], u.states[i + 1]) && Kept(u.states[i], u.ops[i], u.before[i], u.after[i])
      ensures Quiet(u.states[i], u.states[i + 1], u.after[i], if i + 1 < |u.ops| then u.before[i + 1] else last)
    {
      if i < |t.ops| {
        assert Step(t.states[i], t.ops[i], t.states[i + 1]) && Kept(t.states[i], t.ops[i], t.before[i], t.after[i]);
        assert Quiet(t.states[i], t.states[i + 1], t.after[i], if i + 1 < |t.ops| then t.before[i + 1] else m);
      }
    }
  }

  /** Block e is live before call j and not freed by calls j to k - 1. */
  ghost predicate Unfreed(t: Trace, j: nat, k: nat, e: Extent) {
    && j < k <= |t.ops| && k < |t.states| && e in t.states[j].Allocated()
    && forall i :: j <= i < k ==> t.ops[i] != DoFree(e.addr + HEADER)
  }

  /** No premise is left of BytesHeld: over any part of a run of the heap, a block that is
      not freed keeps its bytes. */
  lemma TraceHoldsBytes(t: Trace, m: Mem, j: nat, k: nat, e: Extent)
    requires Traced(t, m) && Unfreed(t, j, k, e)
    ensures Agree(t.before[j], t.after[k - 1], e.addr, e.addr + e.size)
  {
    hide Kept, Step, Agree;
    forall i | j <= i < k - 1 ensures Agree(t.after[i], t.before[i + 1], e.addr, e.addr + e.size) {
      HeldUntilFreed(t.states, t.ops, j, i, e);
      HeldUntilFreed(t.states, t.ops, j, i + 1, e);
      assert Quiet(t.states[i], t.states[i + 1], t.after[i], t.before[i + 1]);
    }
    BytesHeld(t.states, t.ops, t.before, t.after, j, k, e);
  }

  // ---------------------------------------------------------------- the budget

  /** Room for requests that need `cost` bytes of pages and n more blocks. */
  ghost predicate Room(heap: KernelHeap, cost: int, n: nat)
    reads heap, heap.frames.bits
  {
    && heap.end + cost <= heap.mem.Length && |heap.frames.Used()| * PAGE + cost <= heap.frames.Count() * PAGE
    && |heap.State().Allocated()| + n + 4 < heap.index.arr.Length
  }

  function Cost(rs: seq<Request>): (c: int)
    ensures c >= 0
    decreases |rs|
  {
    if rs == [] then 0 else CostOf(rs[0]) + Cost(rs[1..])
  }

  function CostOf(r: Request): (c: int)
    ensures c >= 0
  {
    if r.Get? then 2 * PageUp(r.size + TAGS) else 0
  }

  lemma GrowthBound(s: Layout, need: int, align: bool)
    requires need >= 0
    ensures 0 <= Growth(s, need, align) <= 2 * PageUp(need) && Growth(s, need, align) % PAGE == 0
    ensures RoundsNeeded(s, need, align) <= 2
    ensures RoundsNeeded(s, need, align) * PageUp(need) == Growth(s, need, align)
  {
    hide SomeFit;
  }

  /** With room, the heap takes a request of its cost. */
  lemma RoomForAlloc(heap: KernelHeap, size: nat, align: bool, cost: int, n: nat)
    requires heap.Valid() && Room(heap, 2 * PageUp(size + TAGS) + cost, n) && cost >= 0
    ensures heap.index.cur + RoundsNeeded(heap.State(), size + TAGS, align) + 1 < heap.index.arr.Length
    ensures heap.end + Growth(heap.State(), size + TAGS, align) <= heap.mem.Length
    ensures FramesFor(heap.pages[..], heap.frames.Used(), heap.frames.Count(), heap.end,
                      heap.end + Growth(heap.State(), size + TAGS, align))
  {
    hide Growth, RoundsNeeded, FramesFor, PageUp, UsedIn, KernelHeap.Valid, KernelHeap.Shape, KernelHeap.PagesOk,
      Layout.Allocated, Sized, Separated, Len;
    heap.ValidState();
    heap.ShapeFacts();
    IndexBound(heap);
    GrowthBound(heap.State(), size + TAGS, align);
    PlentyOfFrames(heap.pages[..], heap.frames.Used(), heap.frames.Count(), heap.end,
                   heap.end + Growth(heap.State(), size + TAGS, align));
  }

  // ---------------------------------------------------------------- serving

  /** The client holds its objects, and the run so far ends in this state and memory. */
  ghost predicate Client(s: Layout, m: Mem, held: seq<Object>, es: seq<Extent>, t: Trace) {
    Holding(s, m, held, es) && Traced(t, m) && t.states[|t.ops|] == s
  }

  lemma ClientGets(s: Layout, m: Mem, held: seq<Object>, es: seq<Extent>, t: Trace,
                   u: Layout, n: Mem, last: Mem, o: Object, e: Extent, rounds: nat)
    requires Client(s, m, held, es, t) && o.r.Get? && AllocStep(s, u, o.r.size + TAGS, o.r.align, o.ptr, rounds)
    requires u.Allocated() == s.Allocated() + {e} && e !in s.Allocated() && HeldAt(u, last, o, e)
    requires Preserves(m, n, s.Allocated()) && Preserves(n, last, s.Allocated())
    ensures Client(u, last, held + [o], es + [e], Next(t, DoAlloc(o.r.size, o.r.align, o.ptr), u, m, n))
    ensures Range(es + [e]) == Range(es) + {e}
  {
    hide AllocStep, Traced, HeldAt, Agree, Layout.Allocated;
    var op := DoAlloc(o.r.size, o.r.align, o.ptr);
    PreservesTrans(m, n, last, s.Allocated());
    HoldingKept(s, m, u, last, held, es);
    forall i | 0 <= i < |es| ensures es[i] != e {
      HeldIn(s, m, held[i], es[i]);
    }
    assert (set f | f in s.Allocated() && op != DoFree(f.addr + HEADER)) == s.Allocated();
    assert Quiet(s, u, n, last);
    TracedNext(t, m, op, u, n, last);
    TraceEnd(t, m, op, u, n);
  }

  lemma TraceEnd(t: Trace, m: Mem, op: Op, u: Layout, n: Mem)
    requires Traced(t, m)
    ensures |t.states| == |t.ops| + 1
    ensures var v := Next(t, op, u, m, n); |v.states| == |v.ops| + 1 && v.states[|v.ops|] == u
  {
  }

  lemma ClientGives(s: Layout, m: Mem, held: seq<Object>, es: seq<Extent>, t: Trace, u: Layout, n: Mem, place: nat)
    requires s.Valid() && Client(s, m, held, es, t) && place < |held|
    requires var e := es[place];
             e in s.Allocated() && Starts(s.start, s.blocks, held[place].ptr - HEADER)
               && u == Freed(s, held[place].ptr - HEADER)
             && u.Allocated() == s.Allocated() - {e} && Preserves(m, n, s.Allocated() - {e})
    ensures Client(u, n, Without(held, place), Without(es, place), Next(t, DoFree(held[place].ptr), u, m, n))
    ensures Range(Without(es, place)) == Range(es) - {es[place]} && es[place] in Range(es)
  {
    hide Traced, HeldAt, Agree, Layout.Allocated, Starts, Freed;
    var e, op := es[place], DoFree(held[place].ptr);
    HeldIn(s, m, held[place], e);
    var hs, fs := Without(held, place), Without(es, place);
    forall i | 0 <= i < |hs| ensures HeldAt(u, n, hs[i], fs[i]) {
      var j := if i < place then i else i + 1;
      HeldIn(s, m, held[j], es[j]);
      assert es[j] != e;
      HeldKept(s, m, u, n, held[j], es[j]);
    }
    assert forall f :: f in s.Allocated() && op != DoFree(f.addr + HEADER) ==> f in s.Allocated() - {e};
    assert Quiet(s, u, n, n) by { AgreeSelf(n); }
    TracedNext(t, m, op, u, n, n);
    TraceEnd(t, m, op, u, n);
  }

  lemma AgreeSelf(m: Mem)
    ensures forall a, b :: Agree(m, m, a, b)
  {
  }

  ghost function Range(es: seq<Extent>): set<Extent> { set e | e in es }

  function Without<T>(s: seq<T>, k: nat): seq<T>
    requires k < |s|
  {
    s[..k] + s[k + 1..]
  }

  method ServeGet(heap: KernelHeap, r: Request, held: seq<Object>, ghost es: seq<Extent>, ghost t: Trace,
                  ghost cost: int, ghost n: nat)
    returns (ptr: int, ghost fs: seq<Extent>, ghost u: Trace)
    requires heap.Valid() && r.Get? && Proper(r) && Client(heap.State(), heap.mem[..], held, es, t)
    requires cost >= 0 && Room(heap, CostOf(r) + cost, n + 1)
    modifies heap`end, heap`blocks, heap.mem, heap.index, heap.index.arr, heap.frames.bits, heap.pages
    ensures heap.Valid() && Room(heap, cost, n) && t.states <= u.states
    ensures Client(heap.State(), heap.mem[..], held + [Object(ptr, r)], fs, u)
    ensures heap.State().Allocated() - Range(fs) == old(heap.State()).Allocated() - Range(es)
  {
    hide Client, FramesFor, Growth, RoundsNeeded, AllocStep, Preserves, Grown, Layout.Valid, Layout.Allocated,
      KernelHeap.Valid, PageUp, PageNo, UsedIn, AgreeOutside, Range;
    var need := r.size + TAGS;
    RoomForAlloc(heap, r.size, r.align, cost, n + 1);
    GrowthBound(heap.State(), need, r.align);
    heap.ValidState();
    ghost var s, m, p, used, end := heap.State(), heap.mem[..], heap.pages[..], heap.frames.Used(), heap.end;
    ghost var rounds;
    ptr, rounds := heap.Alloc(r.size, r.align);
    ghost var v, middle := heap.State(), heap.mem[..];
    heap.ValidState();
    ghost var e := AllocPromise(s, v, need, r.align, ptr, rounds);
    GrownBudget(p, used, heap.pages[..], heap.frames.Used(), end, heap.end, heap.supervisor, !heap.readonly);
    Fill(heap, ptr, r.data, e);
    PayloadKeepsOthers(middle, heap.mem[..], v, e, s.Allocated(), ptr, ptr + |r.data|);
    fs, u := es + [e], Next(t, DoAlloc(r.size, r.align, ptr), v, m, middle);
    assert heap.end <= end + 2 * PageUp(need) && |v.Allocated()| == |s.Allocated()| + 1;
    ClientGets(s, m, held, es, t, v, middle, heap.mem[..], Object(ptr, r), e, rounds);
  }

  lemma AboveStart(s: Layout, e: Extent)
    requires s.Valid() && e in s.Allocated()
    ensures e.addr >= s.start
  {
    InStretch(s.start, s.blocks);
  }

  method ServeGive(heap: KernelHeap, held: seq<Object>, place: nat, ghost es: seq<Extent>, ghost t: Trace,
                   ghost cost: int, ghost n: nat)
    returns (ghost fs: seq<Extent>, ghost u: Trace)
    requires heap.Valid() && Client(heap.State(), heap.mem[..], held, es, t) && place < |held|
    requires cost >= 0 && Room(heap, cost, n + 1)
    modifies heap`end, heap`blocks, heap.mem, heap.index, heap.index.arr, heap.frames.bits, heap.pages
    ensures heap.Valid() && Room(heap, cost, n) && t.states <= u.states
    ensures Client(heap.State(), heap.mem[..], Without(held, place), fs, u)
    ensures heap.State().Allocated() - Range(fs) == old(heap.State()).Allocated() - Range(es)
  {
    hide Range, Traced, Preserves, Shrunk, Layout.Allocated, KernelHeap.Core, UsedIn, PageNo, Starts, Freed,
      Separated, Sized, HeldAt;
    IndexBound(heap);
    heap.ValidState();
    ghost var s, m, p, used, e := heap.State(), heap.mem[..], heap.pages[..], heap.frames.Used(), es[place];
    HeldIn(s, m, held[place], e);
    FreedKeeps(s, e);
    AboveStart(s, e);
    heap.Free(held[place].ptr, e);
    ShrunkCount(p, used, heap.pages[..], heap.frames.Used(), PageNo(heap.end) + 1, PageNo(s.end));
    fs, u := Without(es, place), Next(t, DoFree(held[place].ptr), heap.State(), m, heap.mem[..]);
    ClientGives(s, m, held, es, t, heap.State(), heap.mem[..], place);
  }

  /** The requests whose objects are held in the end. */
  function Outstanding(rs: seq<Request>): seq<Request> {
    if rs == [] then []
    else
      var before, r := Outstanding(rs[..|rs| - 1]), rs[|rs| - 1];
      if r.Get? then before + [r]
      else if r.place < |before| then Without(before, r.place)
      else before
  }

  /** Serves any requests, in any order, that the room of the heap allows. The run of the
      heap is a run of HeapTheorems from its state at the call to its state at the end; no
      block that is not freed loses a byte; every outstanding request has its object, with
      its data, in a live block of its own; and no other block is live that was not before. */
  method Serve(heap: KernelHeap, rs: seq<Request>) returns (held: seq<Object>, ghost es: seq<Extent>, ghost t: Trace)
    requires heap.Valid() && Room(heap, Cost(rs), |rs|) && forall i :: 0 <= i < |rs| ==> Proper(rs[i])
    modifies heap`end, heap`blocks, heap.mem, heap.index, heap.index.arr, heap.frames.bits, heap.pages
    ensures heap.Valid() && Run(t.states, t.ops) && t.states[0] == old(heap.State())
    ensures t.states[|t.ops|] == heap.State()
    ensures Traced(t, heap.mem[..])
    ensures forall j: nat, k: nat, e :: Unfreed(t, j, k, e) ==>
              Agree(t.before[j], t.after[k - 1], e.addr, e.addr + e.size)
    ensures Holding(heap.State(), heap.mem[..], held, es) && Requests(held) == Outstanding(rs)
    ensures heap.State().Allocated() - Range(es) == old(heap.State()).Allocated()
  {
    hide Client, Run, Traced, Holding, Room, KernelHeap.Valid, Layout.Valid, Unfreed, Agree, Outstanding, Range,
      Layout.Allocated, Cost, PageUp;
    held, es, t := [], [], Trace([heap.State()], [], [], []);
    heap.ValidState();
    ClientStarts(heap.State(), heap.mem[..]);
    OutstandingNext(rs, 0);
    for i := 0 to |rs|
      invariant heap.Valid() && Client(heap.State(), heap.mem[..], held, es, t)
      invariant |t.states| > 0 && t.states[0] == old(heap.State())
      invariant Room(heap, Cost(rs[i..]), |rs| - i)
      invariant Requests(held) == Outstanding(rs[..i])
      invariant heap.State().Allocated() - Range(es) == old(heap.State()).Allocated()
    {
      CostNext(rs, i);
      OutstandingNext(rs, i);
      if rs[i].Get? {
        var ptr;
        ptr, es, t := ServeGet(heap, rs[i], held, es, t, Cost(rs[i + 1..]), |rs| - i - 1);
        held := held + [Object(ptr, rs[i])];
      } else if rs[i].place < |held| {
        es, t := ServeGive(heap, held, rs[i].place, es, t, Cost(rs[i + 1..]), |rs| - i - 1);
        held := Without(held, rs[i].place);
      } else {
        FreeNull(heap, Cost(rs[i + 1..]), |rs| - i - 1);
      }
    }
    assert rs[..|rs|] == rs;
    ClientEnds(heap.State(), heap.mem[..], held, es, t);
  }

  function Requests(held: seq<Object>): seq<Request> {
    seq(|held|, i requires 0 <= i < |held| => held[i].r)
  }

  lemma OutstandingNext(rs: seq<Request>, i: nat)
    requires i <= |rs|
    ensures Outstanding(rs[..0]) == []
    ensures i < |rs| ==>
              var before := Outstanding(rs[..i]);
              Outstanding(rs[..i + 1]) ==
                if rs[i].Get? then before + [rs[i]]
                else if rs[i].place < |before| then Without(before, rs[i].place)
                else before
  {
    if i < |rs| {
      assert rs[..i + 1][..i] == rs[..i];
    }
  }

  lemma CostNext(rs: seq<Request>, i: nat)
    requires i < |rs|
    ensures Cost(rs[i..]) == CostOf(rs[i]) + Cost(rs[i + 1..])
  {
    assert rs[i..][1..] == rs[i + 1..];
  }

  lemma ClientStarts(s: Layout, m: Mem)
    requires s.Valid()
    ensures Client(s, m, [], [], Trace([s], [], [], [])) && s.Allocated() - Range([]) == s.Allocated()
  {
  }

  lemma ClientEnds(s: Layout, m: Mem, held: seq<Object>, es: seq<Extent>, t: Trace)
    requires Client(s, m, held, es, t)
    ensures Holding(s, m, held, es) && Traced(t, m) && Run(t.states, t.ops) && t.states[|t.ops|] == s
    ensures forall j: nat, k: nat, e :: Unfreed(t, j, k, e) ==>
              Agree(t.before[j], t.after[k - 1], e.addr, e.addr + e.size)
  {
    hide Run, Holding, Kept, Quiet, Agree;
    forall j: nat, k: nat, e | Unfreed(t, j, k, e)
      ensures Agree(t.before[j], t.after[k - 1], e.addr, e.addr + e.size)
    {
      TraceHoldsBytes(t, m, j, k, e);
    }
  }

  /** free of the null pointer changes nothing. */
  method FreeNull(heap: KernelHeap, ghost cost: int, ghost n: nat)
    requires heap.Valid() && Room(heap, cost, n + 1)
    modifies heap`end, heap`blocks, heap.mem, heap.index, heap.index.arr, heap.frames.bits, heap.pages
    ensures heap.Valid() && heap.State() == old(heap.State()) && heap.mem[..] == old(heap.mem[..])
    ensures Room(heap, cost, n)
  {
    hide KernelHeap.Core, Shrunk, UsedIn, PageNo;
    IndexBound(heap);
    ghost var p, used, end := heap.pages[..], heap.frames.Used(), heap.end;
    heap.Free(0, Extent(0, 0));
    ShrunkCount(p, used, heap.pages[..], heap.frames.Used(), PageNo(heap.end) + 1, PageNo(end));
  }
}
