/** Runs of the heap, from its initial state, that lead to states in which the text of
    src/kheap.c goes wrong: inputs for the conditions of HeapDepartures.dfy. */
module HeapInputs {
  import opened HeapLayout
  import opened HeapTheorems
  import opened HeapDepartures

  const BASE := 0xC008_0000
  const SIZE := 0x8_0000

  /** The heap that init_paging creates: one hole. */
  function Initial(): Layout { With([Block(SIZE, true)]) }

  function With(bs: seq<Block>): Layout { Layout(BASE, BASE + SIZE, bs) }

  lemma InitialIs()
    ensures Initial().Valid() && BASE == Heap.HeapStart(0xC000_0000)
  {
    Single(BASE, Block(SIZE, true));
  }

  /** A request takes the first `need` bytes of the last block, a hole. */
  lemma Takes(s: Layout, x: seq<Block>, h: int, need: int)
    requires s.blocks == x + [Block(h, true)] && TAGS <= need && (need == h || need + TAGS <= h)
    ensures var rest := if need == h then [] else [Block(h - need, true)];
            Step(s, DoAlloc(need - TAGS, false, s.start + Len(x) + HEADER),
                 s.(blocks := x + [Block(need, false)] + rest))
  {
    hide Len;
    var i := |x|;
    var ptr := s.start + Len(x) + HEADER;
    assert s.blocks[..i] == x && s.blocks[i + 1..] == [];
    var t := CarvedState(s, i, need, false);
    assert CarveStep(s, t, i, need, false, ptr);
    assert AllocStep(s, t, need, false, ptr, 0);
    assert t.blocks == x + [Block(need, false)] + (if need == h then [] else [Block(h - need, true)]);
  }

  /** A live block is freed. */
  lemma Frees(s: Layout, i: nat)
    requires s.Valid() && i < |s.blocks| && !s.blocks[i].hole
    ensures Step(s, DoFree(s.start + Len(s.blocks[..i]) + HEADER), FreeBlock(s, i))
  {
    hide Len, Live, FreeBlock, Separated, Which, Starts, Layout.Allocated;
    var e := Extent(s.start + Len(s.blocks[..i]), s.blocks[i].size);
    IsLive(s, i);
    var j := LiveIndex(s.start, s.blocks, e);
    SamePlace(s.blocks, j, i);
  }

  lemma IsLive(s: Layout, i: nat)
    requires i < |s.blocks| && !s.blocks[i].hole
    ensures var e := Extent(s.start + Len(s.blocks[..i]), s.blocks[i].size);
            e in s.Allocated() && s.Allocated() == Live(s.start, s.blocks)
  {
    LiveListed(s.start, s.blocks, i);
  }

  /** Blocks with room for their tags start at different places. */
  lemma SamePlace(bs: seq<Block>, i: nat, j: nat)
    requires Sized(bs) && i <= |bs| && j <= |bs| && Len(bs[..i]) == Len(bs[..j])
    ensures i == j
  {
    if i < j {
      Longer(bs, i, j);
    } else if j < i {
      Longer(bs, j, i);
    }
  }

  lemma {:induction false} Longer(bs: seq<Block>, i: nat, j: nat)
    requires Sized(bs) && i < j <= |bs|
    ensures Len(bs[..i]) < Len(bs[..j])
  {
    PrefixStep(bs, j - 1);
    if i < j - 1 {
      Longer(bs, i, j - 1);
    }
  }

  lemma Two(a: Block, b: Block)
    ensures Len([a, b]) == a.size + b.size && Len([a]) == a.size && Len([]) == 0
  {
    Single(0, a);
    Single(0, b);
    LenConcat([a], [b]);
    assert [a] + [b] == [a, b];
  }

  /** One block of n bytes, then another over the rest. */
  lemma Filled(n: int)
    requires TAGS <= n && n + TAGS <= SIZE
    ensures Step(Initial(), DoAlloc(n - TAGS, false, BASE + HEADER), With([Block(n, false), Block(SIZE - n, true)]))
    ensures Step(With([Block(n, false), Block(SIZE - n, true)]), DoAlloc(SIZE - n - TAGS, false, BASE + n + HEADER),
                 With([Block(n, false), Block(SIZE - n, false)]))
  {
    hide Step;
    assert Initial().blocks == [] + [Block(SIZE, true)];
    Takes(Initial(), [], SIZE, n);
    assert [] + [Block(n, false)] + [Block(SIZE - n, true)] == [Block(n, false)] + [Block(SIZE - n, true)];
    assert [Block(n, false)] + [Block(SIZE - n, true)] == [Block(n, false), Block(SIZE - n, true)];
    Two(Block(n, false), Block(SIZE - n, true));
    Takes(With([Block(n, false), Block(SIZE - n, true)]), [Block(n, false)], SIZE - n, SIZE - n);
    assert [Block(n, false)] + [Block(SIZE - n, false)] + [] == [Block(n, false), Block(SIZE - n, false)];
  }

  lemma TwoValid(n: int, flag: bool, top: bool)
    requires TAGS <= n && n + TAGS <= SIZE && !(flag && top)
    ensures With([Block(n, flag), Block(SIZE - n, top)]).Valid()
  {
    Two(Block(n, flag), Block(SIZE - n, top));
  }

  /** Lost merge: one block at the bottom of the heap, and it is freed again. */
  lemma LostMergeInput()
    ensures var s := With([Block(120, false), Block(SIZE - 120, true)]);
            && Run([Initial(), s], [DoAlloc(100, false, BASE + HEADER)])
            && TextIndex(s, 0) != multiset(Holes(s.start, FreedAt(s.blocks, 0)))
  {
    hide TextIndex, Holes, FreedAt, Step;
    InitialIs();
    Filled(120);
    TextIndexIff(With([Block(120, false), Block(SIZE - 120, true)]), 0);
  }

  lemma LowerFreed()
    ensures Step(With([Block(120, false), Block(SIZE - 120, false)]), DoFree(BASE + HEADER),
                 With([Block(120, true), Block(SIZE - 120, false)]))
  {
    hide Step, Layout.Valid, Len;
    var t, u := With([Block(120, false), Block(SIZE - 120, false)]), With([Block(120, true), Block(SIZE - 120, false)]);
    TwoValid(120, false, false);
    Two(Block(120, false), Block(SIZE - 120, false));
    Two(Block(120, true), Block(SIZE - 120, false));
    assert t.blocks[..0] == [] && t.blocks[0..1] == [Block(120, false)];
    Frees(t, 0);
    assert FreedAt(t.blocks, 0) == u.blocks;
  }

  /** Topmost hole: two blocks fill the heap, and the lower one is freed. */
  lemma TopmostInput(g: int)
    requires g > 0
    ensures var s := With([Block(120, false), Block(SIZE - 120, true)]);
            var t := With([Block(120, false), Block(SIZE - 120, false)]);
            var u := With([Block(120, true), Block(SIZE - 120, false)]);
            && Run([Initial(), s, t, u],
                   [DoAlloc(100, false, BASE + HEADER), DoAlloc(SIZE - 140, false, BASE + 120 + HEADER),
                                          DoFree(BASE + HEADER)])
            && exists e :: e in u.Allocated() && e.addr == BASE + 120 < BASE + 120 + g
  {
    hide Step, Layout.Allocated;
    var u := With([Block(120, true), Block(SIZE - 120, false)]);
    InitialIs();
    Filled(120);
    LowerFreed();
    TwoValid(120, true, false);
    TextGrowthOverlaps(u, 0, g);
    assert u.blocks[..0] == [];
  }

  /** Vanished hole: the second of two blocks that fill the heap is freed, and contraction
      gives up all of it. The text enters the hole that is no more into its index. */
  lemma VanishedInput()
    ensures var s := With([Block(HEAP_MIN_SIZE, false), Block(SIZE - HEAP_MIN_SIZE, true)]);
            var t := With([Block(HEAP_MIN_SIZE, false), Block(SIZE - HEAP_MIN_SIZE, false)]);
            var h := BASE + HEAP_MIN_SIZE;
            && Run([Initial(), s, t], [DoAlloc(HEAP_MIN_SIZE - TAGS, false, BASE + HEADER),
                                       DoAlloc(SIZE - HEAP_MIN_SIZE - TAGS, false, h + HEADER)])
            && Trimmed(FreedAt(t.blocks, 1)) == [Block(HEAP_MIN_SIZE, false)]
            && TextTrim(multiset{}, h, BASE + SIZE, ContractLen(HEAP_MIN_SIZE) - HEAP_MIN_SIZE, true)
               != multiset(Holes(BASE, Trimmed(FreedAt(t.blocks, 1))))
  {
    hide Step, Layout.Allocated;
    var n := HEAP_MIN_SIZE;
    var t := With([Block(n, false), Block(SIZE - n, false)]);
    InitialIs();
    Filled(n);
    var m := FreedAt(t.blocks, 1);
    assert t.blocks[1..2] == [Block(SIZE - n, false)];
    Single(0, Block(SIZE - n, false));
    Single(BASE, Block(n, false));
    assert m == [Block(n, false), Block(SIZE - n, true)] && m[..1] == [Block(n, false)];
  }

  lemma ThreeTaken()
    ensures var a, b := Block(101, false), Block(100, false);
            var s1, s2 := With([a, Block(SIZE - 101, true)]), With([a, b, Block(SIZE - 201, true)]);
            && Step(Initial(), DoAlloc(81, false, BASE + HEADER), s1)
            && Step(s1, DoAlloc(80, false, BASE + 101 + HEADER), s2)
            && Step(s2, DoAlloc(80, false, BASE + 201 + HEADER), With([a, b, b, Block(SIZE - 301, true)]))
  {
    hide Step, Len;
    var a, b := Block(101, false), Block(100, false);
    var s1, s2 := With([a, Block(SIZE - 101, true)]), With([a, b, Block(SIZE - 201, true)]);
    Three(a, b, b);
    Two(a, b);
    assert Initial().blocks == [] + [Block(SIZE, true)];
    Takes(Initial(), [], SIZE, 101);
    assert [] + [a] + [Block(SIZE - 101, true)] == s1.blocks == [a] + [Block(SIZE - 101, true)];
    Takes(s1, [a], SIZE - 101, 100);
    assert [a] + [b] + [Block(SIZE - 201, true)] == s2.blocks == [a, b] + [Block(SIZE - 201, true)];
    Takes(s2, [a, b], SIZE - 201, 100);
    assert [a, b] + [b] + [Block(SIZE - 301, true)] == [a, b, b, Block(SIZE - 301, true)];
  }

  lemma MiddleFreed()
    ensures var a, b, c := Block(101, false), Block(100, false), Block(100, true);
            Step(With([a, b, b, Block(SIZE - 301, true)]), DoFree(BASE + 101 + HEADER),
                 With([a, c, b, Block(SIZE - 301, true)]))
  {
    hide Step, Len;
    var a, b, c := Block(101, false), Block(100, false), Block(100, true);
    var s, t := With([a, b, b, Block(SIZE - 301, true)]), With([a, c, b, Block(SIZE - 301, true)]);
    ThirdState(s);
    ThirdState(t);
    assert s.blocks[..1] == [a] && s.blocks[1..2] == [b];
    Two(a, b);
    Single(0, b);
    Frees(s, 1);
    assert FreedAt(s.blocks, 1) == t.blocks;
  }

  /** Fit test: a hole of 100 bytes between live blocks, at an odd address, is asked for an
      aligned payload. Its gap is longer than the hole, and the text finds that 1000 bytes fit. */
  lemma ShortHoleInput()
    ensures var ops := [DoAlloc(81, false, BASE + HEADER), DoAlloc(80, false, BASE + 101 + HEADER),
                        DoAlloc(80, false, BASE + 201 + HEADER), DoFree(BASE + 101 + HEADER)];
            exists states: seq<Layout> :: Run(states, ops) && states[0] == Initial() && |states| == 5
              && states[4].blocks == [Block(101, false), Block(100, true), Block(100, false), Block(SIZE - 301, true)]
    ensures TextUnaligned(BASE + 101 + HEADER) && TextGap(BASE + 101, true) == 3983
    ensures TextFits(1000, 100, 3983) && !(3983 + 1000 <= 100)
  {
    hide Step;
    var a, b, c := Block(101, false), Block(100, false), Block(100, true);
    InitialIs();
    ThreeTaken();
    MiddleFreed();
    var states := [Initial(), With([a, Block(SIZE - 101, true)]), With([a, b, Block(SIZE - 201, true)]),
                   With([a, b, b, Block(SIZE - 301, true)]), With([a, c, b, Block(SIZE - 301, true)])];
    assert Run(states, [DoAlloc(81, false, BASE + HEADER), DoAlloc(80, false, BASE + 101 + HEADER),
                        DoAlloc(80, false, BASE + 201 + HEADER), DoFree(BASE + 101 + HEADER)]);
  }

  lemma Three(a: Block, b: Block, c: Block)
    ensures Len([a, b, c]) == a.size + b.size + c.size
  {
    Two(a, b);
    Single(0, c);
    LenConcat([a, b], [c]);
    assert [a, b] + [c] == [a, b, c];
  }

  lemma ThirdState(s: Layout)
    requires s.start == BASE && s.end == BASE + SIZE && |s.blocks| == 4 && s.blocks[0] == Block(101, false)
    requires s.blocks[1].size == 100 && s.blocks[2] == Block(100, false) && s.blocks[3] == Block(SIZE - 301, true)
    ensures s.Valid() && Len(s.blocks) == SIZE
  {
    Three(s.blocks[0], s.blocks[1], s.blocks[2]);
    Single(0, s.blocks[3]);
    LenConcat(s.blocks[..3], [s.blocks[3]]);
    assert s.blocks[..3] == [s.blocks[0], s.blocks[1], s.blocks[2]] && s.blocks[..3] + [s.blocks[3]] == s.blocks;
  }
}
