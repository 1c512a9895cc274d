/** What the heap's operations do to its byte memory, one stretch of blocks at a time. */
module HeapMemory {
  import opened Machine
  import opened HeapLayout
  import opened HeapTags

  /** header_cmp_less: 1 or 0, by the sizes now in memory. */
  function HeaderCmpLess(m: Mem): (int, int) -> int {
    (a, b) => if SizeAt(m, a) < SizeAt(m, b) then 1 else 0
  }

  lemma CmpNeverNegative(m: Mem)
    ensures forall a, b :: HeaderCmpLess(m)(a, b) >= 0
  {
  }

  function SizeAt(m: Mem, a: int): int {
    if 0 <= a && a + HEADER <= |m| then U32At(m, a + 8) else 0
  }

  /** The test of find_hole_fit_first. Departure "fit test": the text subtracts the gap
      unsigned, so a hole smaller than its gap seems huge. */
  predicate FitsAt(m: Mem, a: int, need: int, align: bool) {
    Gap(a, align) + need <= SizeAt(m, a)
  }

  /** The first hole of the index with a place for the request has its lowest one at p. */
  ghost predicate FirstPlace(m: Mem, live: seq<int>, need: int, align: bool, p: int) {
    exists k :: 0 <= k < |live|
      && Lowest(live[k], SizeAt(m, live[k]), need, align, p)
      && forall j :: 0 <= j < k ==> NoPlace(live[j], SizeAt(m, live[j]), need, align)
  }

  ghost predicate NoPlaces(m: Mem, live: seq<int>, need: int, align: bool) {
    forall k :: 0 <= k < |live| ==> NoPlace(live[k], SizeAt(m, live[k]), need, align)
  }

  lemma FirstFitPlaces(m: Mem, live: seq<int>, k: nat, need: int, align: bool)
    requires k < |live| && FitsAt(m, live[k], need, align)
    requires forall j :: 0 <= j < k ==> !FitsAt(m, live[j], need, align)
    ensures FirstPlace(m, live, need, align, live[k] + Gap(live[k], align) + HEADER)
  {
    hide Gap, Lowest, NoPlace, SizeAt;
    forall j | 0 <= j <= k
      ensures j < k ==> NoPlace(live[j], SizeAt(m, live[j]), need, align)
      ensures j == k ==> Lowest(live[j], SizeAt(m, live[j]), need, align, live[k] + Gap(live[k], align) + HEADER)
    {
      PlaceInHole(live[j], SizeAt(m, live[j]), need, align);
      assert j < k ==> !FitsAt(m, live[j], need, align);
    }
  }

  lemma PtrIs(s: Layout, i: nat, align: bool, a: int)
    requires i < |s.blocks| && a == s.start + Len(s.blocks[..i])
    ensures PtrAt(s, i, align) == a + Gap(a, align) + HEADER
  {
  }

  lemma NoneFitPlaces(m: Mem, live: seq<int>, need: int, align: bool)
    requires forall k :: 0 <= k < |live| ==> !FitsAt(m, live[k], need, align)
    ensures NoPlaces(m, live, need, align)
  {
    hide Gap, NoPlace, SizeAt;
    forall k | 0 <= k < |live| ensures NoPlace(live[k], SizeAt(m, live[k]), need, align) {
      PlaceInHole(live[k], SizeAt(m, live[k]), need, align);
      assert !FitsAt(m, live[k], need, align);
    }
  }

  /** Every byte of every live block, tags and payload, is the same in both memories. */
  ghost predicate Preserves(m: Mem, n: Mem, live: set<Extent>) {
    forall e :: e in live ==> Agree(m, n, e.addr, e.addr + e.size)
  }

  /** Rewrites the size of a block in place and gives it a footer at its new end. */
  method Resize(mem: array<byte>, a: int, ghost b: Block, size: int)
    requires BlockAt(mem[..], a, b) && TAGS <= size && a + size <= mem.Length < TWO32
    modifies mem
    ensures BlockAt(mem[..], a, b.(size := size))
    ensures AgreeOutside(old(mem[..]), mem[..], a, a + size)
  {
    StoreU32(mem, a + 8, size);
    var footer := a + size - FOOTER;
    StoreU32(mem, footer + 4, a);
    StoreU32(mem, footer, HEAP_MAGIC);
  }

  /** Memory and holes below a hole at the heap end, and that hole. */
  lemma TopPieces(m: Mem, s: Layout)
    requires s.Valid() && Tiled(m, s.start, s.blocks)
    ensures var x := BelowTop(s.blocks);
            var top := TopAt(s);
            && top == s.start + Len(x) && s.start <= top <= s.end
            && Sized(x) && Tiled(m, s.start, x)
            && (top < s.end ==> BlockAt(m, top, Block(s.end - top, true)))
            && Holes(s.start, s.blocks) == Holes(s.start, x) + (if top < s.end then [top] else [])
  {
    TopSplits(s);
    var x := BelowTop(s.blocks);
    LenNonNegative(x);
    if TopAt(s) < s.end {
      var b := Block(s.end - TopAt(s), true);
      TiledConcat(m, s.start, x, [b]);
      TiledSingle(m, TopAt(s), b);
      HolesConcat(s.start, x, [b]);
      Single(TopAt(s), b);
    }
  }

  /** A hole below the top ends before the heap end. */
  lemma LowHole(m: Mem, s: Layout, a: int)
    requires s.Valid() && Tiled(m, s.start, s.blocks) && a in Holes(s.start, BelowTop(s.blocks))
    ensures s.start <= a < TopAt(s) && a + HEADER <= s.end && a + SizeAt(m, a) < s.end
  {
    hide Tiled, Holes, Live, Len, Starts, Which, U32At;
    var x := BelowTop(s.blocks);
    TopPieces(m, s);
    HoleStarts(s.start, x, a);
    Locate(s.start, x, a);
    var i := Which(s.start, x, a);
    TiledAt(m, s.start, x, i);
  }

  /** The hole at the heap end, seen through the index: it is the highest one, and the only
      one whose size reaches the end. */
  lemma IndexTop(m: Mem, s: Layout, live: seq<int>)
    requires s.Valid() && Tiled(m, s.start, s.blocks)
    requires multiset(live) == multiset(Holes(s.start, s.blocks))
    ensures TopAt(s) <= s.end && (TopAt(s) < s.end <==> TopAt(s) in live)
    ensures forall a :: a in live ==> s.start <= a <= TopAt(s) && a + HEADER <= s.end
    ensures forall a :: a in live ==> (a + SizeAt(m, a) == s.end <==> a == TopAt(s))
  {
    TopPieces(m, s);
    assert forall a :: a in live <==> a in multiset(live);
    assert forall a :: a in Holes(s.start, s.blocks) <==> a in multiset(Holes(s.start, s.blocks));
    forall a | a in live
      ensures s.start <= a <= TopAt(s) && a + HEADER <= s.end
      ensures a + SizeAt(m, a) == s.end <==> a == TopAt(s)
      ensures a == TopAt(s) ==> TopAt(s) < s.end
    {
      if a in Holes(s.start, BelowTop(s.blocks)) {
        LowHole(m, s, a);
      }
    }
  }

  /** Extending in memory: only the topmost block is written. */
  lemma ExtendTiled(m: Mem, n: Mem, s: Layout, g: int)
    requires s.Valid() && Tiled(m, s.start, s.blocks) && g > 0
    requires BlockAt(n, TopAt(s), Block(s.end - TopAt(s) + g, true))
    requires AgreeOutside(m, n, TopAt(s), s.end + g)
    ensures Tiled(n, s.start, Extended(s.blocks, g))
    ensures multiset(Holes(s.start, Extended(s.blocks, g)))
            == multiset(Holes(s.start, s.blocks)) + (if TopAt(s) < s.end then multiset{} else multiset{s.end})
  {
    hide Tiled, Holes, Len, U32At, Sized, Separated, AgreeOutside, Extended, TopAt, BelowTop, BlockAt;
    TopPieces(m, s);
    var x := BelowTop(s.blocks);
    var b := Block(s.end - TopAt(s) + g, true);
    ExtendedIs(s, g);
    FrameOutside(m, n, TopAt(s), s.end + g, s.start, x);
    OneMore(n, s.start, x, b);
  }

  lemma ExtendedIs(s: Layout, g: int)
    requires s.Valid()
    ensures Extended(s.blocks, g) == BelowTop(s.blocks) + [Block(s.end - TopAt(s) + g, true)]
  {
    TopSplits(s);
  }

  lemma OneMore(m: Mem, p: int, x: seq<Block>, b: Block)
    requires Tiled(m, p, x) && BlockAt(m, p + Len(x), b) && b.hole
    ensures Tiled(m, p, x + [b]) && Holes(p, x + [b]) == Holes(p, x) + [p + Len(x)]
  {
    TiledSingle(m, p + Len(x), b);
    TiledConcat(m, p, x, [b]);
    HolesConcat(p, x, [b]);
    Single(p + Len(x), b);
  }

  /** If no hole of the index fits, no block fits. */
  lemma NoneFits(m: Mem, s: Layout, live: seq<int>, need: int, align: bool)
    requires s.Valid() && 0 <= s.start && Tiled(m, s.start, s.blocks)
    requires multiset(live) == multiset(Holes(s.start, s.blocks))
    requires forall k :: 0 <= k < |live| ==> !FitsAt(m, live[k], need, align)
    ensures !SomeFit(s, need, align)
  {
    hide Tiled, Holes, Len, U32At, Sized, Separated, Gap;
    forall i: nat | i < |s.blocks|
      ensures !Fits(s.blocks, s.start, i, need, align)
    {
      if s.blocks[i].hole {
        HoleListed(s.start, s.blocks, i);
        HoleBlock(m, s, i);
        var a := s.start + Len(s.blocks[..i]);
        assert a in multiset(Holes(s.start, s.blocks));
        var k :| 0 <= k < |live| && live[k] == a;
        assert !FitsAt(m, live[k], need, align);
      }
    }
  }

  lemma ThisFits(m: Mem, s: Layout, i: nat, need: int, align: bool)
    requires s.Valid() && 0 <= s.start && Tiled(m, s.start, s.blocks) && i < |s.blocks| && s.blocks[i].hole
    requires FitsAt(m, s.start + Len(s.blocks[..i]), need, align)
    ensures Fits(s.blocks, s.start, i, need, align) && SomeFit(s, need, align)
    ensures RoundsNeeded(s, need, align) == 0
    ensures PtrAt(s, i, align) == s.start + Len(s.blocks[..i]) + Gap(s.start + Len(s.blocks[..i]), align) + HEADER
  {
    hide Len, Gap, Tiled, U32At, Sized, Separated;
    HoleBlock(m, s, i);
  }

  lemma OneRoundMore(s: Layout, t: Layout, need: int, align: bool, p: int, rounds: nat)
    requires !SomeFit(s, need, align) && AllocStep(ExtendedBy(s, PageUp(need)), t, need, align, p, rounds)
    ensures AllocStep(s, t, need, align, p, rounds + 1)
  {
  }

  lemma ExtendPreserves(m: Mem, n: Mem, s: Layout, g: int)
    requires s.Valid() && AgreeOutside(m, n, TopAt(s), s.end + g)
    ensures Preserves(m, n, s.Allocated())
  {
    LiveBelowTop(s);
  }

  lemma CarvePreserves(m: Mem, n: Mem, s: Layout, i: nat)
    requires s.Valid() && i < |s.blocks| && s.blocks[i].hole
    requires AgreeOutside(m, n, s.start + Len(s.blocks[..i]), s.start + Len(s.blocks[..i]) + s.blocks[i].size)
    ensures Preserves(m, n, s.Allocated())
  {
    LiveAvoidsHole(s.start, s.blocks, i);
  }

  lemma PreservesTrans(m: Mem, n: Mem, o: Mem, live: set<Extent>)
    requires Preserves(m, n, live) && Preserves(n, o, live)
    ensures Preserves(m, o, live)
  {
    forall e | e in live ensures Agree(m, o, e.addr, e.addr + e.size) {
      assert Agree(m, n, e.addr, e.addr + e.size) && Agree(n, o, e.addr, e.addr + e.size);
    }
  }

  lemma NothingTiled(m: Mem, p: int)
    ensures Tiled(m, p, []) && Len([]) == 0
  {
  }

  /** The hole at index i of the blocks, in memory. */
  lemma HoleBlock(m: Mem, s: Layout, i: nat)
    requires s.Valid() && 0 <= s.start && Tiled(m, s.start, s.blocks) && i < |s.blocks|
    ensures var a := s.start + Len(s.blocks[..i]);
            BlockAt(m, a, s.blocks[i]) && s.start <= a && a + s.blocks[i].size <= s.end <= |m|
  {
    hide Tiled, Len;
    TiledAt(m, s.start, s.blocks, i);
    var n := |s.blocks| - 1;
    TiledAt(m, s.start, s.blocks, n);
    assert s.blocks[..n + 1] == s.blocks;
  }

  /** Carving in memory and in the list of holes. */
  lemma CarveTiled(m: Mem, n: Mem, s: Layout, i: nat, gap: int, need: int)
    requires Tiled(m, s.start, s.blocks) && i < |s.blocks|
    requires (gap == 0 || gap >= TAGS) && need >= TAGS && gap + need <= s.blocks[i].size && s.blocks[i].hole
    requires AgreeOutside(m, n, s.start + Len(s.blocks[..i]), s.start + Len(s.blocks[..i]) + s.blocks[i].size)
    requires Tiled(n, s.start + Len(s.blocks[..i]), Carved(s.blocks[i].size, gap, need))
    ensures Tiled(n, s.start, CarveAt(s.blocks, i, gap, need))
    ensures var a := s.start + Len(s.blocks[..i]);
            multiset(Holes(s.start, CarveAt(s.blocks, i, gap, need))) + multiset{a}
            == multiset(Holes(s.start, s.blocks)) + multiset(Holes(a, Carved(s.blocks[i].size, gap, need)))
  {
    hide Tiled, Holes, Len, Carved, AgreeOutside;
    var x, b, y := s.blocks[..i], s.blocks[i], s.blocks[i + 1..];
    var a := s.start + Len(x);
    assert s.blocks == x + [b] + y;
    Single(a, b);
    CarvedShape(b.size, gap, need, a);
    TiledSplice(m, n, s.start, x, [b], Carved(b.size, gap, need), y);
    SpliceHoles(s.start, x, [b], Carved(b.size, gap, need), y);
    assert multiset([a]) == multiset{a};
  }

  /** Writes the tags of the front hole, the block and the trailing hole. */
  method CarveTags(mem: array<byte>, pos: int, holeSize: int, gap: int, need: int)
    requires 0 <= pos && pos + holeSize <= mem.Length < TWO32
    requires (gap == 0 || gap >= TAGS) && need >= TAGS && gap + need <= holeSize
    modifies mem
    ensures Tiled(mem[..], pos, Carved(holeSize, gap, need))
    ensures AgreeOutside(old(mem[..]), mem[..], pos, pos + holeSize)
  {
    hide Tiled, AgreeOutside, Len;
    ghost var m0 := mem[..];
    ghost var done: seq<Block> := [];
    NothingTiled(m0, pos);
    if gap > 0 {
      StoreNext(mem, pos, done, pos, Block(gap, true));
      assert done + [Block(gap, true)] == [Block(gap, true)];
      done := [Block(gap, true)];
      Single(pos, Block(gap, true));
    }
    ghost var m1 := mem[..];
    var rest := holeSize - gap;
    var take := if rest - need < TAGS then rest else need;
    StoreNext(mem, pos, done, pos + gap, Block(take, false));
    OutsideTrans(m0, m1, mem[..], pos, pos + gap, pos + gap, pos + gap + take, pos, pos + holeSize);
    LenConcat(done, [Block(take, false)]);
    Single(pos, Block(take, false));
    done := done + [Block(take, false)];
    if rest > take {
      ghost var m2 := mem[..];
      StoreNext(mem, pos, done, pos + gap + take, Block(rest - take, true));
      OutsideTrans(m0, m2, mem[..], pos, pos + holeSize, pos + gap + take, pos + holeSize, pos, pos + holeSize);
      done := done + [Block(rest - take, true)];
    }
    assert done == Carved(holeSize, gap, need);
  }

  // ---------------------------------------------------------------- free

  /** The block at index j of a stretch, in memory. */
  lemma StretchBlock(m: Mem, p: int, bs: seq<Block>, j: nat)
    requires Tiled(m, p, bs) && j < |bs| && 0 <= p && p + Len(bs) <= |m|
    ensures var a := p + Len(bs[..j]);
            && BlockAt(m, a, bs[j]) && p <= a && a + bs[j].size <= p + Len(bs)
            && p + Len(bs[..j + 1]) == a + bs[j].size
            && (a + bs[j].size == p + Len(bs) <==> j == |bs| - 1)
            && (a == p <==> j == 0)
  {
    hide Tiled, Len, U32At;
    TiledAt(m, p, bs, j);
    if j == |bs| - 1 {
      assert bs[..j + 1] == bs;
    }
    FirstStarts(m, p, bs, j);
  }

  lemma FirstStarts(m: Mem, p: int, bs: seq<Block>, j: nat)
    requires Tiled(m, p, bs) && j < |bs|
    ensures Len(bs[..j]) == 0 <==> j == 0
  {
    TiledSized(m, p, bs);
    LenNonNegative(bs[..j]);
  }

  /** Rewriting one block in place. */
  lemma ReplaceOne(m: Mem, n: Mem, p: int, bs: seq<Block>, i: nat, b: Block)
    requires Tiled(m, p, bs) && i < |bs| && b.size == bs[i].size
    requires BlockAt(n, p + Len(bs[..i]), b)
    requires AgreeOutside(m, n, p + Len(bs[..i]), p + Len(bs[..i]) + b.size)
    ensures Tiled(n, p, bs[i := b])
  {
    hide Tiled, Len, U32At, AgreeOutside, BlockAt;
    var x, y := bs[..i], bs[i + 1..];
    assert bs == x + [bs[i]] + y && bs[i := b] == x + [b] + y;
    Single(0, b);
    Single(0, bs[i]);
    TiledSingle(n, p + Len(x), b);
    TiledSplice(m, n, p, x, [bs[i]], [b], y);
  }

  /** Rewriting two consecutive blocks as one. */
  lemma ReplaceTwo(m: Mem, n: Mem, p: int, bs: seq<Block>, j: nat)
    requires Tiled(m, p, bs) && j + 1 < |bs|
    requires var b := Joined(bs, j)[j];
             && BlockAt(n, p + Len(bs[..j]), b)
             && AgreeOutside(m, n, p + Len(bs[..j]), p + Len(bs[..j]) + b.size)
    ensures Tiled(n, p, Joined(bs, j))
  {
    hide Tiled, Len, U32At, AgreeOutside, BlockAt;
    var x, y := bs[..j], bs[j + 2..];
    var b := Joined(bs, j)[j];
    assert [bs[j]] + [bs[j + 1]] == [bs[j], bs[j + 1]];
    assert bs == x + [bs[j], bs[j + 1]] + y;
    LenConcat([bs[j]], [bs[j + 1]]);
    Single(0, bs[j]);
    Single(0, bs[j + 1]);
    Single(0, b);
    TiledSingle(n, p + Len(x), b);
    TiledSplice(m, n, p, x, [bs[j], bs[j + 1]], [b], y);
  }

  /** header->is_hole = 1 */
  method MarkHole(mem: array<byte>, a: int, ghost p: int, ghost bs: seq<Block>, ghost i: nat)
    requires Tiled(mem[..], p, bs) && i < |bs| && a == p + Len(bs[..i]) && 0 <= p && p + Len(bs) <= mem.Length
    modifies mem
    ensures Tiled(mem[..], p, MarkedAt(bs, i))
    ensures AgreeOutside(old(mem[..]), mem[..], a, a + bs[i].size)
  {
    hide Tiled, Len;
    StretchBlock(mem[..], p, bs, i);
    StoreByte(mem, a, 1);
    assert BlockAt(mem[..], a, Block(bs[i].size, true));
    ReplaceOne(old(mem[..]), mem[..], p, bs, i, Block(bs[i].size, true));
  }

  /** Gives the block at a the block at b that follows it: the footer of the second then
      points to the first, whose size is the sum. */
  method JoinTags(mem: array<byte>, a: int, b: int, ghost x: Block, ghost y: Block)
    requires BlockAt(mem[..], a, x) && b == a + x.size && BlockAt(mem[..], b, y)
    requires b + y.size <= mem.Length < TWO32
    modifies mem
    ensures BlockAt(mem[..], a, Block(x.size + y.size, x.hole))
    ensures AgreeOutside(old(mem[..]), mem[..], a, b + y.size)
  {
    var cacheSize := LoadU32(mem, b + 8);
    var footer := b + cacheSize - FOOTER;
    StoreU32(mem, footer + 4, a);
    var size := LoadU32(mem, a + 8);
    StoreU32(mem, a + 8, size + cacheSize);
  }

  method JoinAt(mem: array<byte>, a: int, b: int, ghost p: int, ghost bs: seq<Block>, ghost j: nat)
    requires Tiled(mem[..], p, bs) && j + 1 < |bs| && 0 <= p && p + Len(bs) <= mem.Length < TWO32
    requires a == p + Len(bs[..j]) && b == p + Len(bs[..j + 1])
    modifies mem
    ensures Tiled(mem[..], p, Joined(bs, j))
    ensures AgreeOutside(old(mem[..]), mem[..], a, b + bs[j + 1].size)
  {
    hide Tiled, Len, BlockAt, AgreeOutside;
    StretchBlock(mem[..], p, bs, j);
    StretchBlock(mem[..], p, bs, j + 1);
    JoinTags(mem, a, b, bs[j], bs[j + 1]);
    ReplaceTwo(old(mem[..]), mem[..], p, bs, j);
  }

  /** The test of line 228: whether the footer below the header at a closes a hole. */
  method HoleEndsAt(mem: array<byte>, a: int, ghost p: int, ghost bs: seq<Block>, ghost j: nat)
    returns (r: bool, prev: int)
    requires Tiled(mem[..], p, bs) && j < |bs| && 0 <= p && p + Len(bs) <= mem.Length
    requires a == p + Len(bs[..j + 1])
    ensures r <==> bs[j].hole
    ensures prev == p + Len(bs[..j])
  {
    hide Tiled, Len;
    StretchBlock(mem[..], p, bs, j);
    var testFooter := a - FOOTER;
    prev := LoadU32(mem, testFooter + 4);
    var magic := LoadU32(mem, testFooter);
    r := mem[prev] == 1 && magic == HEAP_MAGIC;
  }

  /** The test of line 238: whether a hole has its header at a. */
  method HoleStartsAt(mem: array<byte>, a: int, ghost p: int, ghost bs: seq<Block>, ghost j: nat) returns (r: bool)
    requires Tiled(mem[..], p, bs) && j < |bs| && 0 <= p && p + Len(bs) <= mem.Length
    requires a == p + Len(bs[..j])
    ensures r <==> bs[j].hole
  {
    hide Tiled, Len;
    StretchBlock(mem[..], p, bs, j);
    var magic := LoadU32(mem, a + 4);
    r := mem[a] == 1 && magic == HEAP_MAGIC;
  }

  lemma DropTop(m: Mem, p: int, x: seq<Block>, b: Block)
    requires Tiled(m, p, x + [b])
    ensures Tiled(m, p, x)
  {
    TiledConcat(m, p, x, [b]);
  }

  /** Holes have positive addresses in a stretch that starts at one. */
  lemma HolesAbove(p: int, bs: seq<Block>, a: int)
    requires Sized(bs) && 0 < p && a in Holes(p, bs)
    ensures a >= p
  {
    InStretch(p, bs);
  }

  /** free writes only inside the merged hole, which holds no live block but the freed one. */
  lemma FreePreserves(s: Layout, i: nat)
    requires s.Valid() && i < |s.blocks| && !s.blocks[i].hole
    ensures var m, k := FreedAt(s.blocks, i), FreedIndex(s.blocks, i);
            var h := s.start + Len(s.blocks[..k]);
            k < |m| && forall e :: e in s.Allocated() && e != Extent(s.start + Len(s.blocks[..i]), s.blocks[i].size) ==>
              e.addr + e.size <= h || h + m[k].size <= e.addr
  {
    hide Holes, Live, Len, Sized, Separated, FreedAt, FreedIndex, HoleBefore, HoleAfter;
    StepsAreFreedAt(s.blocks, i);
    FreedAtKeeps(s.start, s.blocks, i);
    FreedPlace(s.blocks, i);
    LiveAvoidsHole(s.start, FreedAt(s.blocks, i), FreedIndex(s.blocks, i));
  }

  lemma FreedPlace(bs: seq<Block>, i: nat)
    requires i < |bs| && !bs[i].hole
    ensures var m, k := FreedAt(bs, i), FreedIndex(bs, i);
            k < |m| && m[k].hole && m[..k] == bs[..k]
  {
  }

  lemma PreservesOutside(m: Mem, n: Mem, h: int, stop: int, live: set<Extent>)
    requires AgreeOutside(m, n, h, stop)
    requires forall e :: e in live ==> e.addr + e.size <= h || stop <= e.addr
    ensures Preserves(m, n, live)
  {
  }

  /** Which holes a carved hole leaves. */
  lemma CarvedHoles(h: int, gap: int, need: int, p: int)
    requires (gap == 0 || gap >= TAGS) && need >= TAGS && gap + need <= h
    ensures multiset(Holes(p, Carved(h, gap, need))) ==
              (if gap > 0 then multiset{p} else multiset{})
              + (if h - gap - need >= TAGS then multiset{p + gap + need} else multiset{})
  {
    hide Holes, Carved;
    CarvedShape(h, gap, need, p);
    var front: seq<int> := if gap > 0 then [p] else [];
    var tail: seq<int> := if h - gap - need >= TAGS then [p + gap + need] else [];
    assert Holes(p, Carved(h, gap, need)) == front + tail;
    assert multiset(front) == if gap > 0 then multiset{p} else multiset{};
    assert multiset(tail) == if h - gap - need >= TAGS then multiset{p + gap + need} else multiset{};
  }

  lemma SumRegroup(m: multiset<int>, f: multiset<int>, t: multiset<int>)
    ensures m + f + t == m + (f + t)
  {
  }

  /** The last hole of a stretch, and what contraction makes of it. */
  lemma TrimFacts(m: Mem, p: int, bs: seq<Block>)
    requires bs != [] && bs[|bs| - 1].hole && Tiled(m, p, bs) && 0 <= p && p + Len(bs) <= |m|
    requires Sized(bs) && Len(bs) % PAGE == 0 && Len(bs) >= HEAP_MIN_SIZE
    ensures var n := |bs| - 1;
            var x, b := bs[..n], bs[n];
            var size := ContractLen(Len(x)) - Len(x);
            && bs == x + [b] && Len(bs) == Len(x) + b.size && ContractLen(Len(x)) <= Len(bs)
            && Len(Trimmed(bs)) == ContractLen(Len(x)) && (size == 0 || size >= TAGS) && size <= b.size
            && Trimmed(bs) == (if size > 0 then x + [Block(size, true)] else x)
            && multiset(Holes(p, bs)) == multiset(Holes(p, x)) + multiset{p + Len(x)}
            && multiset(Holes(p, Trimmed(bs)))
               == multiset(Holes(p, x)) + (if size > 0 then multiset{p + Len(x)} else multiset{})
  {
    hide Holes, Len, ContractLen, Trimmed, Tiled, Live;
    var n := |bs| - 1;
    assert bs == bs[..n] + [bs[n]];
    StretchBlock(m, p, bs, n);
    TrimmedMeasures(p, bs[..n], bs[n]);
    TrimmedTop(p, bs);
  }

  /** The merged hole of a free in memory, and what is left of the heap. */
  lemma FinishFacts(m: Mem, s: Layout, i: nat)
    requires s.Valid() && 0 <= s.start && s.end <= |m| && i < |s.blocks| && !s.blocks[i].hole
    requires Tiled(m, s.start, FreedAt(s.blocks, i))
    ensures var bs, k := FreedAt(s.blocks, i), FreedIndex(s.blocks, i);
            && k < |bs| && Sized(bs) && Len(bs) == s.end - s.start && Len(bs) % PAGE == 0 && Len(bs) >= HEAP_MIN_SIZE
            && (s.start + Len(bs[..k]) + bs[k].size == s.end <==> k == |bs| - 1)
            && s.start < s.end && s.end % PAGE == 0
            && FreeBlock(s, i) == if k == |bs| - 1 then Layout(s.start, s.start + Len(Trimmed(bs)), Trimmed(bs))
                                else Layout(s.start, s.end, bs)
  {
    hide Len, Tiled, FreedAt, FreedIndex, Trimmed, Live;
    FreedPlace(s.blocks, i);
    FreedAtKeeps(s.start, s.blocks, i);
    StretchBlock(m, s.start, FreedAt(s.blocks, i), FreedIndex(s.blocks, i));
  }
}
