/** Properties of whole runs of the kernel heap, over the transitions that Heap.dfy
    proves alloc and free to make (src/kheap.c:119-277). */
module HeapTheorems {
  import opened Machine
  import opened HeapLayout
  import opened HeapMemory

  // ---------------------------------------------------------------- the holes are canonical

  /** The hole layout is a function of the live blocks and of the heap bounds. */
  lemma {:induction false} Canonical(p: int, bs: seq<Block>, cs: seq<Block>)
    requires Sized(bs) && Separated(bs) && Sized(cs) && Separated(cs)
    requires Len(bs) == Len(cs) && Live(p, bs) == Live(p, cs)
    ensures bs == cs
    decreases bs
  {
    LenNonNegative(bs);
    LenNonNegative(cs);
    if bs != [] && cs != [] {
      SameFirst(p, bs, cs);
      LiveTail(p, bs);
      LiveTail(p, cs);
      Canonical(p + bs[0].size, bs[1..], cs[1..]);
      assert bs == [bs[0]] + bs[1..] && cs == [cs[0]] + cs[1..];
    }
  }

  /** The live blocks above the first block. */
  lemma LiveTail(p: int, bs: seq<Block>)
    requires Sized(bs) && bs != []
    ensures Live(p + bs[0].size, bs[1..]) == Live(p, bs) - (if bs[0].hole then {} else {Extent(p, bs[0].size)})
  {
    InStretch(p + bs[0].size, bs[1..]);
  }

  lemma SameFirst(p: int, bs: seq<Block>, cs: seq<Block>)
    requires Sized(bs) && Separated(bs) && Sized(cs) && Separated(cs) && bs != [] && cs != []
    requires Len(bs) == Len(cs) && Live(p, bs) == Live(p, cs)
    ensures bs[0] == cs[0]
  {
    if !bs[0].hole {
      FirstLive(p, bs, cs);
    } else if !cs[0].hole {
      FirstLive(p, cs, bs);
    } else {
      FirstHole(p, bs, cs);
      FirstHole(p, cs, bs);
    }
  }

  lemma FirstLive(p: int, bs: seq<Block>, cs: seq<Block>)
    requires Sized(bs) && Sized(cs) && bs != [] && cs != [] && Live(p, bs) == Live(p, cs) && !bs[0].hole
    ensures cs[0] == bs[0]
  {
    assert Extent(p, bs[0].size) in Live(p, cs);
    InStretch(p + cs[0].size, cs[1..]);
  }

  lemma FirstHole(p: int, bs: seq<Block>, cs: seq<Block>)
    requires Sized(bs) && Separated(bs) && Sized(cs) && bs != [] && cs != []
    requires Len(bs) == Len(cs) && Live(p, bs) == Live(p, cs) && bs[0].hole && cs[0].hole
    ensures bs[0].size >= cs[0].size
  {
    InStretch(p + cs[0].size, cs[1..]);
    if |bs| > 1 {
      assert !bs[1].hole;
      assert bs[1] == bs[1..][0];
      assert Extent(p + bs[0].size, bs[1].size) in Live(p, cs);
    } else {
      assert Len(bs[1..]) == 0;
    }
  }

  /** Two well-formed heaps with the same bounds and the same live blocks have the same
      blocks and the same holes. */
  lemma SameLiveSameHeap(s: Layout, t: Layout)
    requires s.Valid() && t.Valid() && s.start == t.start && s.end == t.end && s.Allocated() == t.Allocated()
    ensures s == t && Holes(s.start, s.blocks) == Holes(t.start, t.blocks)
  {
    Canonical(s.start, s.blocks, t.blocks);
  }

  /** alloc then free, with no expansion and no contraction, restores the heap, in all
      four coalescing cases and whether or not the block was aligned or absorbed a rest. */
  lemma AllocThenFree(s: Layout, t: Layout, need: int, align: bool, ptr: int)
    requires s.Valid() && need >= TAGS && AllocStep(s, t, need, align, ptr, 0)
    ensures Starts(t.start, t.blocks, ptr - HEADER)
    ensures Freed(t, ptr - HEADER).end == s.end ==> Freed(t, ptr - HEADER) == s
  {
    var i: nat :| CarveStep(s, t, i, need, align, ptr);
    var size := CarveKeeps(s, t, i, need, align, ptr);
    var e := Extent(ptr - HEADER, size);
    FreedKeeps(t, e);
    var u := Freed(t, ptr - HEADER);
    assert t.Allocated() - {e} == s.Allocated();
    if u.end == s.end {
      SameLiveSameHeap(s, u);
    }
  }

  /** Where a free leaves the heap end: it moves only if the merged hole is the last block,
      and then to the page that contract stops at. */
  lemma FreeEnd(s: Layout, i: nat)
    requires s.Valid() && i < |s.blocks| && !s.blocks[i].hole
    ensures var m := FreedAt(s.blocks, i);
            var k := FreedIndex(s.blocks, i);
            FreeBlock(s, i).end == if k == |m| - 1 then s.start + ContractLen(Len(m[..k])) else s.end
  {
    hide Holes, Len, ContractLen, Trimmed, FreedAt;
    FreedAtKeeps(s.start, s.blocks, i);
    var m := FreedAt(s.blocks, i);
    StepsAreFreedAt(s.blocks, i);
    if FreedIndex(s.blocks, i) == |m| - 1 {
      TrimmedHoles(0, m);
    }
  }

  // ---------------------------------------------------------------- every alloc

  /** What one alloc promises, expansions included: the heap stays well formed, every live
      block is kept, and the payload of the new block has the requested size, lies in the
      heap, is disjoint from every live block and is aligned when asked. */
  lemma {:induction false} AllocPromise(s: Layout, t: Layout, need: int, align: bool, ptr: int, rounds: nat)
    returns (e: Extent)
    requires s.Valid() && need >= TAGS && AllocStep(s, t, need, align, ptr, rounds)
    ensures t.Valid() && t.start == s.start && t.end == s.end + rounds * PageUp(need)
    ensures e.addr + HEADER == ptr && need <= e.size < need + TAGS
    ensures t.Allocated() == s.Allocated() + {e} && e !in s.Allocated()
    ensures t.start <= e.addr && e.addr + e.size <= t.end
    ensures forall f :: f in s.Allocated() ==> f.addr + f.size <= e.addr || e.addr + e.size <= f.addr
    ensures align ==> ptr % PAGE == 0
    decreases rounds
  {
    if rounds == 0 {
      var i: nat :| CarveStep(s, t, i, need, align, ptr);
      var size := CarveKeeps(s, t, i, need, align, ptr);
      e := Extent(ptr - HEADER, size);
      InStretch(t.start, t.blocks);
      forall f | f in s.Allocated()
        ensures f.addr + f.size <= e.addr || e.addr + e.size <= f.addr
      {
        LiveDisjoint(t.start, t.blocks, e, f);
      }
    } else {
      ExtendKeeps(s, PageUp(need));
      e := AllocPromise(ExtendedBy(s, PageUp(need)), t, need, align, ptr, rounds - 1);
      RoundsAdd(s.end, rounds, PageUp(need));
    }
  }

  /** Where alloc puts the block. It extends the heap only while no hole has a place for the
      request; then the payload is at the lowest place of some hole. */
  lemma {:induction false} AllocPlaces(s: Layout, t: Layout, need: int, align: bool, ptr: int, rounds: nat)
    returns (u: Layout, i: nat)
    requires s.Valid() && need >= TAGS && AllocStep(s, t, need, align, ptr, rounds)
    ensures u.Valid() && u.start == s.start && u.end == s.end + rounds * PageUp(need) && u.Allocated() == s.Allocated()
    ensures i < |u.blocks| && u.blocks[i].hole
    ensures Lowest(u.start + Len(u.blocks[..i]), u.blocks[i].size, need, align, ptr)
    ensures rounds == 0 ==> u == s
    ensures rounds > 0 ==>
              forall j: nat :: j < |s.blocks| && s.blocks[j].hole ==>
                NoPlace(s.start + Len(s.blocks[..j]), s.blocks[j].size, need, align)
    decreases rounds
  {
    hide Lowest, NoPlace, Len, Gap, Layout.Allocated, Sized, Separated, Extended;
    if rounds == 0 {
      u := s;
      i := CarvedLowest(s, t, need, align, ptr);
    } else {
      ExtendKeeps(s, PageUp(need));
      u, i := AllocPlaces(ExtendedBy(s, PageUp(need)), t, need, align, ptr, rounds - 1);
      RoundsAdd(s.end, rounds, PageUp(need));
      NoneFitsNoPlace(s, need, align);
    }
  }

  lemma CarvedLowest(s: Layout, t: Layout, need: int, align: bool, ptr: int) returns (i: nat)
    requires AllocStep(s, t, need, align, ptr, 0)
    ensures i < |s.blocks| && s.blocks[i].hole
    ensures Lowest(s.start + Len(s.blocks[..i]), s.blocks[i].size, need, align, ptr)
  {
    hide Lowest, Len, Gap, CarvedState;
    i :| CarveStep(s, t, i, need, align, ptr);
    PlaceInHole(s.start + Len(s.blocks[..i]), s.blocks[i].size, need, align);
  }

  lemma NoneFitsNoPlace(s: Layout, need: int, align: bool)
    requires !SomeFit(s, need, align)
    ensures forall j: nat :: j < |s.blocks| && s.blocks[j].hole ==>
              NoPlace(s.start + Len(s.blocks[..j]), s.blocks[j].size, need, align)
  {
    hide NoPlace, Len, Gap;
    forall j: nat | j < |s.blocks| && s.blocks[j].hole
      ensures NoPlace(s.start + Len(s.blocks[..j]), s.blocks[j].size, need, align)
    {
      PlaceInHole(s.start + Len(s.blocks[..j]), s.blocks[j].size, need, align);
      assert !Fits(s.blocks, s.start, j, need, align);
    }
  }

  lemma RoundsAdd(end: int, rounds: nat, g: int)
    requires rounds > 0
    ensures end + g + (rounds - 1) * g == end + rounds * g
  {
  }

  /** A request finds room exactly when some hole fits, or after extending; it is never
      refused. */
  lemma AllocAlwaysSucceeds(s: Layout, need: int, align: bool) returns (t: Layout, ptr: int, rounds: nat)
    requires s.Valid() && need >= TAGS
    ensures AllocStep(s, t, need, align, ptr, rounds)
    ensures rounds == 0 <==> SomeFit(s, need, align)
  {
    if SomeFit(s, need, align) {
      t, ptr := CarveSome(s, need, align);
      rounds := 0;
    } else {
      TwoExtensionsSuffice(s, need, align);
      var s1 := ExtendedBy(s, PageUp(need));
      if SomeFit(s1, need, align) {
        t, ptr := CarveSome(s1, need, align);
        rounds := 1;
      } else {
        t, ptr := CarveSome(ExtendedBy(s1, PageUp(need)), need, align);
        assert AllocStep(s1, t, need, align, ptr, 1);
        rounds := 2;
      }
    }
  }

  lemma CarveSome(s: Layout, need: int, align: bool) returns (t: Layout, ptr: int)
    requires SomeFit(s, need, align)
    ensures AllocStep(s, t, need, align, ptr, 0)
  {
    var i: nat :| i < |s.blocks| && Fits(s.blocks, s.start, i, need, align);
    t, ptr := CarvedState(s, i, need, align), PtrAt(s, i, align);
    assert CarveStep(s, t, i, need, align, ptr);
  }

  // ---------------------------------------------------------------- every run

  datatype Op = DoAlloc(size: nat, align: bool, ptr: int) | DoFree(ptr: int)

  ghost predicate SomeRounds(s: Layout, t: Layout, need: int, align: bool, ptr: int) {
    exists rounds: nat :: AllocStep(s, t, need, align, ptr, rounds)
  }

  /** One call of alloc or free by a client that frees only what it holds. */
  ghost predicate Step(s: Layout, op: Op, t: Layout) {
    match op
    case DoAlloc(size, align, ptr) => SomeRounds(s, t, size + TAGS, align, ptr)
    case DoFree(ptr) =>
      exists e :: e in s.Allocated() && e.addr == ptr - HEADER && Starts(s.start, s.blocks, e.addr)
        && t == Freed(s, e.addr)
  }

  ghost predicate Run(states: seq<Layout>, ops: seq<Op>) {
    && |states| == |ops| + 1 && states[0].Valid()
    && forall k :: 0 <= k < |ops| ==> Step(states[k], ops[k], states[k + 1])
  }

  /** One step keeps the heap well formed and every block that it does not free. */
  lemma StepKeeps(s: Layout, op: Op, t: Layout)
    requires s.Valid() && Step(s, op, t)
    ensures t.Valid() && t.start == s.start
    ensures forall e :: e in s.Allocated() && op != DoFree(e.addr + HEADER) ==> e in t.Allocated()
  {
    match op
    case DoAlloc(size, align, ptr) =>
      var rounds: nat :| AllocStep(s, t, size + TAGS, align, ptr, rounds);
      var e := AllocPromise(s, t, size + TAGS, align, ptr, rounds);
    case DoFree(ptr) =>
      var e :| e in s.Allocated() && e.addr == ptr - HEADER && Starts(s.start, s.blocks, e.addr)
        && t == Freed(s, e.addr);
      FreedKeeps(s, e);
  }

  /** In every state of every run the blocks tile the heap, no two holes are adjacent and
      the live blocks are pairwise disjoint and inside the heap. */
  lemma {:induction false} RunSafe(states: seq<Layout>, ops: seq<Op>, k: nat)
    requires Run(states, ops) && k < |states|
    ensures states[k].Valid() && states[k].start == states[0].start
    ensures forall e, f :: e in states[k].Allocated() && f in states[k].Allocated() && e != f ==>
              e.addr + e.size <= f.addr || f.addr + f.size <= e.addr
    ensures forall e :: e in states[k].Allocated() ==> states[k].start <= e.addr && e.addr + e.size <= states[k].end
  {
    if k > 0 {
      RunSafe(states, ops, k - 1);
      StepKeeps(states[k - 1], ops[k - 1], states[k]);
    }
    var s := states[k];
    InStretch(s.start, s.blocks);
    forall e, f | e in s.Allocated() && f in s.Allocated() && e != f
      ensures e.addr + e.size <= f.addr || f.addr + f.size <= e.addr
    {
      LiveDisjoint(s.start, s.blocks, e, f);
    }
  }

  /** A block handed out stays where it is, and no other alloc overlaps it, until the
      client frees it. */
  lemma {:induction false} HeldUntilFreed(states: seq<Layout>, ops: seq<Op>, j: nat, k: nat, e: Extent)
    requires Run(states, ops) && j <= k < |states| && e in states[j].Allocated()
    requires forall i :: j <= i < k ==> ops[i] != DoFree(e.addr + HEADER)
    ensures e in states[k].Allocated()
  {
    if j < k {
      HeldUntilFreed(states, ops, j, k - 1, e);
      RunSafe(states, ops, k - 1);
      StepKeeps(states[k - 1], ops[k - 1], states[k]);
    }
  }

  /** What alloc and free promise about memory: no byte of a block that is not freed changes. */
  ghost predicate Kept(s: Layout, op: Op, m: Mem, n: Mem) {
    Preserves(m, n, set e | e in s.Allocated() && op != DoFree(e.addr + HEADER))
  }

  /** A block keeps its bytes over any run of calls: before and after are the memories
      before and after each call, and only between calls may others write elsewhere. */
  lemma {:induction false} BytesHeld(states: seq<Layout>, ops: seq<Op>, before: seq<Mem>, after: seq<Mem>, j: nat,
                                     k: nat, e: Extent)
    requires Run(states, ops) && |before| == |after| == |ops| && j < k <= |ops| && e in states[j].Allocated()
    requires forall i :: 0 <= i < |ops| ==> Kept(states[i], ops[i], before[i], after[i])
    requires forall i :: j <= i < k ==> ops[i] != DoFree(e.addr + HEADER)
    requires forall i :: j <= i < k - 1 ==> Agree(after[i], before[i + 1], e.addr, e.addr + e.size)
    ensures Agree(before[j], after[k - 1], e.addr, e.addr + e.size)
  {
    hide Step, Kept, Agree;
    HeldUntilFreed(states, ops, j, k - 1, e);
    KeptBlock(states[k - 1], ops[k - 1], before[k - 1], after[k - 1], e);
    if j < k - 1 {
      BytesHeld(states, ops, before, after, j, k - 1, e);
      AgreeTrans(before[j], after[k - 2], before[k - 1], after[k - 1], e.addr, e.addr + e.size);
    }
  }

  lemma KeptBlock(s: Layout, op: Op, m: Mem, n: Mem, e: Extent)
    requires Kept(s, op, m, n) && e in s.Allocated() && op != DoFree(e.addr + HEADER)
    ensures Agree(m, n, e.addr, e.addr + e.size)
  {
    hide Agree;
  }

  lemma AgreeTrans(a: Mem, b: Mem, c: Mem, d: Mem, lo: int, hi: int)
    requires Agree(a, b, lo, hi) && Agree(b, c, lo, hi) && Agree(c, d, lo, hi)
    ensures Agree(a, d, lo, hi)
  {
  }

  /** Conservation over a run: every byte of the heap belongs to exactly one block, so a
      run that frees all it allocated and ends with the bounds it began with ends in the
      state it began in. */
  lemma RunRestores(states: seq<Layout>, ops: seq<Op>)
    requires Run(states, ops)
    requires states[|ops|].end == states[0].end && states[|ops|].Allocated() == states[0].Allocated()
    ensures states[|ops|] == states[0]
  {
    RunSafe(states, ops, |ops|);
    SameLiveSameHeap(states[0], states[|ops|]);
  }
}
