/** Where the text of src/kheap.c departs from what Heap.dfy models: for each place, exactly
    when the text would still do the right thing. */
module HeapDepartures {
  import opened Machine
  import opened HeapLayout
  import opened HeapMemory
  import opened HeapTags
  import opened Heap

  /** Lines 23, 61, 82, 98: `x & 0xFFF != 0` compares first and so tests the lowest bit. */
  predicate TextUnaligned(x: int) { x % 2 == 1 }

  lemma UnalignedTestIff(x: nat)
    ensures (TextUnaligned(x) <==> x % PAGE != 0) <==> x % 2 == 1 || x % PAGE == 0
  {
  }

  /** Lines 28-29: the hole size minus the gap, taken modulo 2^32. */
  predicate TextFits(size: uint32, holeSize: uint32, gap: uint32) {
    size <= Wrap(holeSize - gap)
  }

  lemma FitTestIff(size: uint32, holeSize: uint32, gap: uint32)
    ensures (TextFits(size, holeSize, gap) <==> gap + size <= holeSize)
            <==> gap <= holeSize || holeSize - gap + TWO32 < size
  {
    if gap > holeSize {
      assert (holeSize - gap) % TWO32 == holeSize - gap + TWO32;
    }
  }

  /** A header as written: where it lies and what it records. */
  datatype Placed = Placed(addr: int, block: Block)

  /** The headers are those of blocks that cover [p, p + h), each with room for its tags. */
  predicate TilesExactly(p: int, h: int, ps: seq<Placed>)
    decreases |ps|
  {
    if ps == [] then h == 0
    else
      && ps[0].addr == p && TAGS <= ps[0].block.size
      && TilesExactly(p + ps[0].block.size, h - ps[0].block.size, ps[1..])
  }

  /** Line 172: the bytes up to the place where the payload is page-aligned. */
  function TextGap(p: int, align: bool): (g: int)
    ensures 0 <= g < PAGE
  {
    if align && (p + HEADER) % PAGE != 0 then PAGE - (p + HEADER) % PAGE else 0
  }

  /** Lines 167-171: a rest too small for two tags is given to the block, before alignment
      has taken anything from the hole. */
  function TextNeed(h: uint32, need: uint32): uint32 {
    if Wrap(h - need) < TAGS then h else need
  }

  /** Lines 173-184: the front hole is recorded 12 bytes shorter than the gap, and so much is
      taken off the hole. */
  function TextFront(gap: int): uint32 { Wrap(gap - HEADER) }

  function TextRest(h: uint32, gap: int): uint32 {
    if gap == 0 then h else Wrap(h - TextFront(gap))
  }

  /** Lines 167-211: the headers that are written into the hole at p of size h. */
  function TextSplit(p: int, h: uint32, need: uint32, align: bool): seq<Placed> {
    var gap, n := TextGap(p, align), TextNeed(h, need);
    (if gap == 0 then [] else [Placed(p, Block(TextFront(gap), true))])
    + [Placed(p + gap, Block(n, false))]
    + (if TextRest(h, gap) > n then [Placed(p + gap + n, Block(TextRest(h, gap) - n, true))] else [])
  }

  /** Where the last of them ends. */
  function TextEnd(p: int, h: uint32, need: uint32, align: bool): int {
    var last := TextSplit(p, h, need, align)[|TextSplit(p, h, need, align)| - 1];
    last.addr + last.block.size
  }

  /** The written split covers exactly the hole if and only if there is no gap. With a gap it
      always runs over what follows the hole, by 12 bytes or more. The hole lies in the
      address space and the block fits into it, as lines 29 and 33 ask. */
  lemma TextSplitIff(p: int, h: uint32, need: uint32, align: bool)
    requires TAGS <= need <= h && HEADER <= p && p + h <= TWO32
    ensures TilesExactly(p, h, TextSplit(p, h, need, align)) <==> TextGap(p, align) == 0
    ensures if TextGap(p, align) == 0 then TextEnd(p, h, need, align) == p + h
              else TextEnd(p, h, need, align) >= p + h + HEADER
  {
    hide TextGap;
    var gap, n, ps := TextGap(p, align), TextNeed(h, need), TextSplit(p, h, need, align);
    if gap == 0 {
      WithoutGap(p, h, need, ps);
    } else {
      assert ps[0] == Placed(p, Block(TextFront(gap), true)) && ps[1] == Placed(p + gap, Block(n, false));
      assert ps[1..][0] == ps[1];
      FrontShort(gap);
      RestLong(h, n, gap);
    }
  }

  /** Without a gap the block takes the hole, or leaves a hole of two tags or more. */
  lemma WithoutGap(p: int, h: uint32, need: uint32, ps: seq<Placed>)
    requires TAGS <= need <= h
    requires var n := TextNeed(h, need);
             ps == [] + [Placed(p + 0, Block(n, false))]
                   + (if h > n then [Placed(p + 0 + n, Block(h - n, true))] else [])
    ensures TilesExactly(p, h, ps)
  {
    var n := TextNeed(h, need);
    assert ps[0] == Placed(p, Block(n, false));
    if h > n {
      assert ps[1..] == [Placed(p + n, Block(h - n, true))];
      assert ps[1..][1..] == [];
    } else {
      assert ps[1..] == [];
    }
  }

  lemma FrontShort(gap: int)
    requires 0 < gap < PAGE
    ensures TextFront(gap) == (if gap < HEADER then TWO32 + gap - HEADER else gap - HEADER) && TextFront(gap) != gap
  {
  }

  lemma RestLong(h: uint32, n: uint32, gap: int)
    requires 0 < gap < PAGE && n <= h && h + HEADER <= TWO32
    ensures if TextRest(h, gap) > n then gap + TextRest(h, gap) >= h + HEADER else gap + n >= h + HEADER
  {
    FrontShort(gap);
    var exact := h - gap + HEADER;
    assert TextRest(h, gap) == if exact >= 0 then exact else exact + TWO32;
  }

  /** An input: the payload is to start 15 bytes up in a hole of 100 bytes at an odd address.
      85 bytes pass the fit test, also as it is parsed, and then the block takes all 100 of
      them: it ends 15 bytes beyond the hole. */
  lemma TextSplitInput()
    ensures var p := 0xC008_0FE5;
            && TextGap(p, true) == 15 && TextUnaligned(p + HEADER) && TextFits(85, 100, 15)
            && TextSplit(p, 100, 85, true) == [Placed(p, Block(3, true)), Placed(p + 15, Block(100, false))]
            && TextEnd(p, 100, 85, true) == p + 100 + 15
  {
  }

  /** Line 204: new_size is subtracted once too often, so the footer of the trailing hole is
      never at its end; and it is written over the block just carved out exactly when the
      rest is shorter than that block and one footer more. */
  lemma TextFooterIff(pos: int, h: int, need: int)
    requires TAGS <= need && need + TAGS <= h
    ensures var a := pos + h - FOOTER - need;
            a != pos + h - FOOTER && pos <= a && (a < pos + need <==> h - need < need + FOOTER)
  {
  }

  /** Lines 72-76: create_heap writes a header and no footer, so memory holds the first hole
      exactly when its footer was there before. */
  lemma TextFirstFooterIff(m: Mem, n: Mem, start: int, size: int)
    requires 0 <= start && TAGS <= size && start + size <= |m| && AgreeOutside(m, n, start, start + HEADER)
    requires HeaderAt(n, start, Block(size, true))
    ensures BlockAt(n, start, Block(size, true)) <==> FooterAt(m, start + size - FOOTER, start)
  {
  }

  /** Lines 153-159: growing a hole that is not the last block runs it over the live block
      that follows it; only the last block may grow. */
  lemma TextGrowthOverlaps(s: Layout, i: nat, g: int)
    requires s.Valid() && i < |s.blocks| && s.blocks[i].hole && g > 0
    ensures var a := s.start + Len(s.blocks[..i]);
            (exists e :: e in s.Allocated() && e.addr == a + s.blocks[i].size < a + s.blocks[i].size + g)
            <==> i + 1 < |s.blocks|
  {
    hide Len, Live;
    var bs := s.blocks;
    PrefixStep(bs, i);
    if i + 1 < |bs| {
      LiveListed(s.start, bs, i + 1);
    } else {
      assert bs[..i + 1] == bs;
      InStretch(s.start, bs);
    }
  }

  lemma LiveListed(p: int, bs: seq<Block>, i: nat)
    requires i < |bs| && !bs[i].hole
    ensures Extent(p + Len(bs[..i]), bs[i].size) in Live(p, bs)
  {
    hide Len, Live;
    var x, y := bs[..i], bs[i + 1..];
    assert bs == x + [bs[i]] + y;
    Single(p + Len(x), bs[i]);
    Live3(p, x, [bs[i]], y);
  }

  /** The index after a free by the text (lines 234, 243, 251, 276): any merge clears
      do_add, also one with the next block alone. */
  ghost function TextIndex(s: Layout, i: nat): multiset<int>
    requires i < |s.blocks|
  {
    TextUpdate(multiset(Holes(s.start, s.blocks)), s.start + Len(s.blocks[..i + 1]),
               s.start + Len(s.blocks[..FreedIndex(s.blocks, i)]),
               HoleBefore(s.blocks, i), HoleAfter(s.blocks, i))
  }

  function TextUpdate(was: multiset<int>, gone: int, h: int, before: bool, after: bool): multiset<int> {
    was - (if after then multiset{gone} else multiset{}) + (if before || after then multiset{} else multiset{h})
  }

  lemma TextIndexIff(s: Layout, i: nat)
    requires i < |s.blocks| && !s.blocks[i].hole
    ensures TextIndex(s, i) == multiset(Holes(s.start, FreedAt(s.blocks, i)))
            <==> HoleBefore(s.blocks, i) || !HoleAfter(s.blocks, i)
  {
    hide Len, Holes, FreedAt, FreedIndex, HoleBefore, HoleAfter, TextUpdate;
    FreedHoles(s.start, s.blocks, i);
    GoneListed(s, i);
    var was, now := multiset(Holes(s.start, s.blocks)), multiset(Holes(s.start, FreedAt(s.blocks, i)));
    var h := s.start + Len(s.blocks[..FreedIndex(s.blocks, i)]);
    TextCases(was, now, s.start + Len(s.blocks[..i + 1]), h, HoleBefore(s.blocks, i), HoleAfter(s.blocks, i));
  }

  lemma GoneListed(s: Layout, i: nat)
    requires i < |s.blocks|
    ensures FreedIndex(s.blocks, i) <= i
    ensures HoleAfter(s.blocks, i) ==> s.start + Len(s.blocks[..i + 1]) in multiset(Holes(s.start, s.blocks))
  {
    if HoleAfter(s.blocks, i) {
      HoleListed(s.start, s.blocks, i + 1);
    }
  }

  lemma TextCases(was: multiset<int>, now: multiset<int>, gone: int, h: int, before: bool, after: bool)
    requires now + (if after then multiset{gone} else multiset{}) == was + (if before then multiset{} else multiset{h})
    requires after ==> gone in was
    ensures TextUpdate(was, gone, h, before, after) == now <==> before || !after
  {
    if after && before {
      assert was == now + multiset{gone};
    } else if after {
      SameSize(now, was, gone, h);
      assert was - multiset{gone} + multiset{} == was - multiset{gone};
    } else {
      assert was - multiset{} == was && now + multiset{} == now;
    }
  }

  lemma SameSize(now: multiset<int>, was: multiset<int>, gone: int, h: int)
    requires now + multiset{gone} == was + multiset{h} && gone in was
    ensures was - multiset{gone} != now
  {
    assert |now + multiset{gone}| == |now| + 1 && |was + multiset{h}| == |was| + 1;
    assert |was - multiset{gone}| == |was| - 1;
  }

  /** The index after lines 254-276 of the text: if nothing of the hole at h is left, what is
      looked for is `test`, the header behind the freed block; then h is inserted if new. */
  function TextTrim(was: multiset<int>, h: int, test: int, left: int, add: bool): multiset<int> {
    (if left > 0 then was else was - multiset{test}) + (if add then multiset{h} else multiset{})
  }

  /** So a hole that vanishes stays in the index, or even enters it: the index is right
      exactly when contraction leaves something of the hole. */
  lemma TextTrimIff(p: int, bs: seq<Block>, was: multiset<int>, test: int, add: bool)
    requires Sized(bs) && bs != [] && bs[|bs| - 1].hole
    requires var h := p + Len(bs[..|bs| - 1]);
             h < test && was + (if add then multiset{h} else multiset{}) == multiset(Holes(p, bs))
    ensures var off := Len(bs[..|bs| - 1]);
            TextTrim(was, p + off, test, ContractLen(off) - off, add) == multiset(Holes(p, Trimmed(bs)))
            <==> ContractLen(off) != off
  {
    hide Holes, Len, ContractLen, Trimmed;
    var x := bs[..|bs| - 1];
    var h, left := p + Len(x), ContractLen(Len(x)) - Len(x);
    TrimmedTop(p, bs);
    InStretch(p, x);
    assert test !in Holes(p, x);
    assert test !in multiset(Holes(p, x)) + multiset{h};
    assert was - multiset{test} == was;
    if left == 0 {
      assert TextTrim(was, h, test, left, add) == multiset(Holes(p, x)) + multiset{h};
      assert (multiset(Holes(p, x)) + multiset{h})[h] == multiset(Holes(p, x))[h] + 1;
    }
  }

  /** Line 238: what the text takes for a hole that follows the freed block. */
  ghost predicate TextHoleStarts(m: Mem, a: int)
    requires 0 <= a && a + HEADER <= |m|
  {
    m[a] == 1 && U32At(m, a + 4) == HEAP_MAGIC
  }

  /** For a block below the heap end the test is right. For the last block it looks at what
      lies beyond the end, and is right exactly when no stale header lies there. */
  lemma NeighbourTestIff(m: Mem, s: Layout, i: nat)
    requires s.Valid() && 0 <= s.start && s.end + HEADER <= |m| && Tiled(m, s.start, s.blocks) && i < |s.blocks|
    ensures s.start <= s.start + Len(s.blocks[..i + 1]) <= s.end
    ensures (TextHoleStarts(m, s.start + Len(s.blocks[..i + 1])) <==> i + 1 < |s.blocks| && s.blocks[i + 1].hole)
            <==> i + 1 < |s.blocks| || !TextHoleStarts(m, s.end)
  {
    hide Tiled, Len, U32At;
    TiledAt(m, s.start, s.blocks, i);
    if i + 1 < |s.blocks| {
      TiledAt(m, s.start, s.blocks, i + 1);
    } else {
      assert s.blocks[..i + 1] == s.blocks;
    }
  }

  /** Line 228: what the text takes for a hole that precedes the freed block. */
  ghost predicate TextHoleEnds(m: Mem, a: int)
    requires FOOTER <= a <= |m|
  {
    var header := U32At(m, a - 4);
    header < |m| && m[header] == 1 && U32At(m, a - FOOTER) == HEAP_MAGIC
  }

  /** The same on the other side: the test is right exactly for a block that is not the
      first, or when what lies below the heap does not look like the footer of a hole. */
  lemma NeighbourBelowIff(m: Mem, s: Layout, i: nat)
    requires s.Valid() && FOOTER <= s.start && s.end <= |m| && Tiled(m, s.start, s.blocks) && i < |s.blocks|
    ensures s.start <= s.start + Len(s.blocks[..i]) <= s.end
    ensures (TextHoleEnds(m, s.start + Len(s.blocks[..i])) <==> i > 0 && s.blocks[i - 1].hole)
            <==> i > 0 || !TextHoleEnds(m, s.start)
  {
    hide Tiled, Len, U32At;
    TiledAt(m, s.start, s.blocks, i);
    if i > 0 {
      TiledAt(m, s.start, s.blocks, i - 1);
    } else {
      assert s.blocks[..i] == [];
      NothingTiled(m, s.start);
    }
  }

  /** Such a header does lie there: contraction that drops the last hole leaves its tags in
      place, on the page that stays mapped. The text would then join the next free of the
      last block with a hole that no longer exists. */
  lemma StaleHeaderAfterContraction(m: Mem, p: int, x: seq<Block>, b: Block)
    requires Tiled(m, p, x + [b]) && b.hole && 0 <= p && Len(x) >= 0
    requires Trimmed(x + [b]) == x
    ensures Tiled(m, p, x) && p + Len(x) + HEADER <= |m| && TextHoleStarts(m, p + Len(x))
  {
    TiledConcat(m, p, x, [b]);
    TiledSingle(m, p + Len(x), b);
  }

  /** Line 103: contract keeps at least HEAP_MIN_SIZE, so a smaller heap would be grown
      over pages that are not mapped. The bound asked of create_heap is exact. */
  lemma ContractShrinksIff(off: nat, total: int)
    requires total % PAGE == 0 && off + TAGS <= total
    ensures ContractLen(off) <= total <==> HEAP_MIN_SIZE <= total
  {
  }

  /** Lines 97-105: whole pages, at least the minimum. */
  function TextContractLen(off: int): (n: int) {
    if PageUp(off) < HEAP_MIN_SIZE then HEAP_MIN_SIZE else PageUp(off)
  }

  /** What that leaves of the last hole, which starts at offset off, is nothing or a block with
      room for its tags exactly when off does not lie in the last 19 bytes of a page, or the
      minimum decides. Only then is it the length that contract should settle on. */
  lemma TextContractIff(off: int)
    requires off >= 0
    ensures var left := TextContractLen(off) - off;
            left == 0 || left >= TAGS <==> off % PAGE == 0 || off % PAGE <= PAGE - TAGS || PageUp(off) < HEAP_MIN_SIZE
    ensures ContractLen(off) == TextContractLen(off)
            <==> off % PAGE == 0 || off % PAGE <= PAGE - TAGS || PageUp(off) < HEAP_MIN_SIZE
  {
  }

  /** An input: a block of 0x70FF6 bytes at the heap start, and the hole behind it freed. Ten
      bytes are left of the hole, and its two tags take twenty. */
  lemma TextContractInput()
    ensures TextContractLen(0x7_0FF6) - 0x7_0FF6 == 10 < TAGS && ContractLen(0x7_0FF6) - 0x7_0FF6 == PAGE + 10
  {
  }

  // ---------------------------------------------------------------- the loops over the index

  /** The first slot from i on, and below n, whose item passes the test. */
  function FirstSlot(a: seq<int>, test: int -> bool, i: nat, n: nat): (k: int)
    requires i <= n <= |a|
    decreases n - i
  {
    if i == n then -1 else if test(a[i]) then i else FirstSlot(a, test, i + 1, n)
  }

  /** The loops of lines 17, 40, 246 and 266 look at every slot up to the capacity, also at those
      past the live ones. They find what they should exactly when a live item passes the test,
      or no dead slot does. */
  lemma {:induction false} TextScanIff(a: seq<int>, test: int -> bool, i: nat, cur: nat, size: nat)
    requires i <= cur <= size <= |a|
    ensures FirstSlot(a, test, i, size) == FirstSlot(a, test, i, cur)
            <==> (exists k :: i <= k < cur && test(a[k])) || forall k :: cur <= k < size ==> !test(a[k])
    decreases cur - i
  {
    if i < cur {
      TextScanIff(a, test, i + 1, cur, size);
    } else {
      DeadSlots(a, test, i, size);
    }
  }

  lemma {:induction false} DeadSlots(a: seq<int>, test: int -> bool, i: nat, size: nat)
    requires i <= size <= |a|
    ensures FirstSlot(a, test, i, size) == -1 <==> forall k :: i <= k < size ==> !test(a[k])
    decreases size - i
  {
    if i < size {
      DeadSlots(a, test, i + 1, size);
    }
  }

  /** The slot of the highest item below n, and the item, as lines 130-141 find them: the first
      one, and none but positive ones. */
  function Highest(a: seq<int>, n: nat): (r: (int, int))
    requires n <= |a|
  {
    if n == 0 then (-1, 0)
    else if a[n - 1] > Highest(a, n - 1).1 then (n - 1, a[n - 1])
    else Highest(a, n - 1)
  }

  /** The scan of line 134 is right exactly when no dead slot is higher than all live items. */
  lemma {:induction false} TextHighestIff(a: seq<int>, cur: nat, size: nat)
    requires cur <= size <= |a|
    ensures Highest(a, size) == Highest(a, cur) <==> forall k :: cur <= k < size ==> a[k] <= Highest(a, cur).1
    ensures Highest(a, size).1 >= Highest(a, cur).1
    decreases size
  {
    if cur < size {
      TextHighestIff(a, cur, size - 1);
    }
  }

  // ---------------------------------------------------------------- the null test

  /** Line 217 assigns 0 to the pointer, so whatever free is given, the header it goes on with
      is that of a payload at 0, at the top of the address space. */
  const TEXT_FREED: int := Wrap(0 - HEADER)

  /** It is never the block that was to be freed, and not even in the heap; and the null pointer
      does not make free return. */
  lemma TextNeverFrees(s: Layout, e: Extent)
    requires s.Valid() && 0 < s.start && s.end < TWO32 && e in s.Allocated()
    ensures TEXT_FREED == 0xFFFF_FFF4 && e.addr != TEXT_FREED && s.end <= TEXT_FREED
  {
    InStretch(s.start, s.blocks);
  }
}
