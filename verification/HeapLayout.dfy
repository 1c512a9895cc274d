/** The block structure of the kernel heap of src/kheap.c, as a value: which blocks
    tile the heap, what alloc and free do to them, and what that keeps. Heap.dfy
    proves that the imperative heap has exactly these blocks in its memory. */
module HeapLayout {
  import opened Machine

  const HEADER := 12
  const FOOTER := 8
  const TAGS := 20
  const HEAP_MAGIC: uint32 := 0x123890AB
  const HEAP_MIN_SIZE := 0x70000

  /** A block with its two tags; size counts both of them. */
  datatype Block = Block(size: int, hole: bool)

  /** The bytes of a block: header address and size. */
  datatype Extent = Extent(addr: int, size: int)

  datatype Layout = Layout(start: int, end: int, blocks: seq<Block>) {
    /** What every state of the heap satisfies. */
    ghost predicate Valid() {
      && start % PAGE == 0 && end % PAGE == 0 && end - start >= HEAP_MIN_SIZE
      && Sized(blocks) && Separated(blocks)
      && Len(blocks) == end - start
    }

    ghost function Allocated(): set<Extent> { Live(start, blocks) }
  }

  function Len(bs: seq<Block>): int {
    if bs == [] then 0 else bs[0].size + Len(bs[1..])
  }

  /** Every block has room for its two tags. */
  ghost predicate Sized(bs: seq<Block>) {
    forall i :: 0 <= i < |bs| ==> bs[i].size >= TAGS
  }

  /** No two holes are adjacent. */
  ghost predicate Separated(bs: seq<Block>) {
    forall i :: 0 <= i < |bs| - 1 ==> !(bs[i].hole && bs[i + 1].hole)
  }

  /** Header addresses of the holes of blocks laid out from p. */
  ghost function Holes(p: int, bs: seq<Block>): seq<int>
    decreases bs
  {
    if bs == [] then [] else (if bs[0].hole then [p] else []) + Holes(p + bs[0].size, bs[1..])
  }

  /** The live blocks among blocks laid out from p. */
  ghost function Live(p: int, bs: seq<Block>): set<Extent>
    decreases bs
  {
    if bs == [] then {}
    else (if bs[0].hole then {} else {Extent(p, bs[0].size)}) + Live(p + bs[0].size, bs[1..])
  }

  // ---------------------------------------------------------------- concatenation

  lemma {:induction false} LenConcat(a: seq<Block>, b: seq<Block>)
    ensures Len(a + b) == Len(a) + Len(b)
  {
    if a == [] {
      assert a + b == b;
    } else {
      assert (a + b)[1..] == a[1..] + b;
      LenConcat(a[1..], b);
    }
  }

  lemma {:induction false} HolesConcat(p: int, a: seq<Block>, b: seq<Block>)
    ensures Holes(p, a + b) == Holes(p, a) + Holes(p + Len(a), b)
    decreases a
  {
    if a == [] {
      assert a + b == b;
    } else {
      assert (a + b)[1..] == a[1..] + b;
      HolesConcat(p + a[0].size, a[1..], b);
    }
  }

  lemma {:induction false} LiveConcat(p: int, a: seq<Block>, b: seq<Block>)
    ensures Live(p, a + b) == Live(p, a) + Live(p + Len(a), b)
    decreases a
  {
    if a == [] {
      assert a + b == b;
    } else {
      assert (a + b)[1..] == a[1..] + b;
      LiveConcat(p + a[0].size, a[1..], b);
    }
  }

  lemma Len3(a: seq<Block>, mid: seq<Block>, b: seq<Block>)
    ensures Len(a + mid + b) == Len(a) + Len(mid) + Len(b)
  {
    LenConcat(a + mid, b);
    LenConcat(a, mid);
  }

  lemma Holes3(p: int, a: seq<Block>, mid: seq<Block>, b: seq<Block>)
    ensures Holes(p, a + mid + b) == Holes(p, a) + Holes(p + Len(a), mid) + Holes(p + Len(a) + Len(mid), b)
  {
    LenConcat(a, mid);
    HolesConcat(p, a + mid, b);
    HolesConcat(p, a, mid);
  }

  lemma Live3(p: int, a: seq<Block>, mid: seq<Block>, b: seq<Block>)
    ensures Len(a + mid + b) == Len(a) + Len(mid) + Len(b)
    ensures Live(p, a + mid + b) == Live(p, a) + Live(p + Len(a), mid) + Live(p + Len(a) + Len(mid), b)
  {
    Len3(a, mid, b);
    LenConcat(a, mid);
    LiveConcat(p, a + mid, b);
    LiveConcat(p, a, mid);
  }

  lemma {:induction false} LenNonNegative(bs: seq<Block>)
    requires Sized(bs)
    ensures Len(bs) >= TAGS * |bs|
  {
    if bs != [] {
      LenNonNegative(bs[1..]);
    }
  }

  /** Every block lies inside the stretch it belongs to. */
  lemma {:induction false} InStretch(p: int, bs: seq<Block>)
    requires Sized(bs)
    ensures Len(bs) >= 0
    ensures forall a :: a in Holes(p, bs) ==> p <= a && a + TAGS <= p + Len(bs)
    ensures forall e :: e in Live(p, bs) ==> p <= e.addr && e.size >= TAGS && e.addr + e.size <= p + Len(bs)
    decreases bs
  {
    if bs != [] {
      InStretch(p + bs[0].size, bs[1..]);
    }
  }

  /** Replacing a stretch in the middle by one of the same length changes the live blocks
      of that stretch and nothing else. */
  lemma SpliceLive(p: int, x: seq<Block>, old': seq<Block>, new': seq<Block>, y: seq<Block>)
    requires Sized(x) && Sized(old') && Sized(new') && Sized(y) && Len(old') == Len(new')
    ensures Len(x + new' + y) == Len(x + old' + y)
    ensures var rest := Live(p, x) + Live(p + Len(x) + Len(old'), y);
            && Live(p, x + old' + y) == rest + Live(p + Len(x), old')
            && Live(p, x + new' + y) == rest + Live(p + Len(x), new')
            && rest !! Live(p + Len(x), old') && rest !! Live(p + Len(x), new')
  {
    Live3(p, x, old', y);
    Live3(p, x, new', y);
    LiveApart(p, x, old', y);
    LiveApart(p, x, new', y);
  }

  lemma LiveApart(p: int, x: seq<Block>, mid: seq<Block>, y: seq<Block>)
    requires Sized(x) && Sized(mid) && Sized(y)
    ensures (Live(p, x) + Live(p + Len(x) + Len(mid), y)) !! Live(p + Len(x), mid)
  {
    InStretch(p, x);
    InStretch(p + Len(x), mid);
    InStretch(p + Len(x) + Len(mid), y);
  }

  /** The same for the holes. */
  lemma SpliceHoles(p: int, x: seq<Block>, old': seq<Block>, new': seq<Block>, y: seq<Block>)
    requires Len(old') == Len(new')
    ensures multiset(Holes(p, x + new' + y)) + multiset(Holes(p + Len(x), old'))
            == multiset(Holes(p, x + old' + y)) + multiset(Holes(p + Len(x), new'))
  {
    Holes3(p, x, old', y);
    Holes3(p, x, new', y);
    var t, t' := Holes(p, x + old' + y), Holes(p, x + new' + y);
    var b, b' := Holes(p + Len(x), old'), Holes(p + Len(x), new');
    Exchange(Holes(p, x), b, b', Holes(p + Len(x) + Len(old'), y), t, t');
  }

  lemma Exchange(a: seq<int>, b: seq<int>, b': seq<int>, c: seq<int>, t: seq<int>, t': seq<int>)
    requires t == a + b + c && t' == a + b' + c
    ensures multiset(t') + multiset(b) == multiset(t) + multiset(b')
  {
  }

  lemma Single(p: int, b: Block)
    ensures Len([b]) == b.size
    ensures Holes(p, [b]) == if b.hole then [p] else []
    ensures Live(p, [b]) == if b.hole then {} else {Extent(p, b.size)}
  {
    assert [b][1..] == [];
  }

  // ---------------------------------------------------------------- locating a block

  /** Some block laid out from p has its header at a. */
  ghost predicate Starts(p: int, bs: seq<Block>, a: int)
    decreases bs
  {
    bs != [] && (a == p || Starts(p + bs[0].size, bs[1..], a))
  }

  ghost function Which(p: int, bs: seq<Block>, a: int): (i: nat)
    requires Starts(p, bs, a)
    ensures i < |bs|
    decreases bs
  {
    if a == p then 0 else 1 + Which(p + bs[0].size, bs[1..], a)
  }

  /** Block i of the stretch has its header at a. */
  ghost predicate Splits(p: int, bs: seq<Block>, a: int, i: nat) {
    i < |bs| && bs == bs[..i] + [bs[i]] + bs[i + 1..] && p + Len(bs[..i]) == a
  }

  lemma {:induction false} Locate(p: int, bs: seq<Block>, a: int)
    requires Starts(p, bs, a)
    ensures Splits(p, bs, a, Which(p, bs, a))
    decreases bs
  {
    if a != p {
      var rest := bs[1..];
      Locate(p + bs[0].size, rest, a);
      var i := Which(p + bs[0].size, rest, a);
      assert bs[..i + 1][1..] == rest[..i];
    }
  }

  lemma {:induction false} HoleStarts(p: int, bs: seq<Block>, a: int)
    requires Sized(bs) && a in Holes(p, bs)
    ensures Starts(p, bs, a) && bs[Which(p, bs, a)].hole
    decreases bs
  {
    InStretch(p + bs[0].size, bs[1..]);
    if a != p {
      HoleStarts(p + bs[0].size, bs[1..], a);
    }
  }

  lemma {:induction false} LiveStarts(p: int, bs: seq<Block>, e: Extent)
    requires Sized(bs) && e in Live(p, bs)
    ensures Starts(p, bs, e.addr) && bs[Which(p, bs, e.addr)] == Block(e.size, false)
    decreases bs
  {
    InStretch(p + bs[0].size, bs[1..]);
    if e.addr != p {
      LiveStarts(p + bs[0].size, bs[1..], e);
    }
  }

  /** Any two live blocks are disjoint, both tags included. */
  lemma {:induction false} LiveDisjoint(p: int, bs: seq<Block>, e: Extent, f: Extent)
    requires Sized(bs) && e in Live(p, bs) && f in Live(p, bs) && e != f
    ensures e.addr + e.size <= f.addr || f.addr + f.size <= e.addr
    decreases bs
  {
    InStretch(p + bs[0].size, bs[1..]);
    if e.addr != p && f.addr != p {
      LiveDisjoint(p + bs[0].size, bs[1..], e, f);
    }
  }

  // ---------------------------------------------------------------- alloc

  /** Bytes between a header address and the nearest one whose payload is page-aligned.
      Departure "aligned split": a gap too short for two tags moves one page on. */
  function Gap(a: int, align: bool): (g: int)
    ensures g == 0 || TAGS <= g < PAGE + TAGS
    ensures align ==> (a + g + HEADER) % PAGE == 0
    ensures !align ==> g == 0
  {
    var off := (a + HEADER) % PAGE;
    if !align || off == 0 then 0
    else if PAGE - off < TAGS then PAGE - off + PAGE
    else PAGE - off
  }

  /** The gap is the least one there is: any other that is empty or has room for two tags, and
      brings the payload to a page boundary if asked, is at least as long. */
  lemma GapIsLeast(a: int, align: bool, g: int)
    requires g == 0 || g >= TAGS
    requires align ==> (a + g + HEADER) % PAGE == 0
    ensures Gap(a, align) <= g
  {
  }

  /** A block of `need` bytes with its payload at p lies in the hole [a, a + h), leaves nothing in
      front of it or room for two tags, and is aligned if asked. */
  ghost predicate Placeable(a: int, h: int, need: int, align: bool, p: int) {
    && (p - HEADER == a || p - HEADER - a >= TAGS)
    && p - HEADER + need <= a + h
    && (align ==> p % PAGE == 0)
  }

  /** The lowest payload address that the hole has for the request. */
  ghost predicate Lowest(a: int, h: int, need: int, align: bool, p: int) {
    Placeable(a, h, need, align, p) && forall q :: Placeable(a, h, need, align, q) ==> p <= q
  }

  ghost predicate NoPlace(a: int, h: int, need: int, align: bool) {
    forall q :: !Placeable(a, h, need, align, q)
  }

  /** The fit test finds exactly the holes with a place for the request, and then the block is
      put at the lowest one. */
  lemma PlaceInHole(a: int, h: int, need: int, align: bool)
    ensures Gap(a, align) + need <= h ==> Lowest(a, h, need, align, a + Gap(a, align) + HEADER)
    ensures Gap(a, align) + need > h ==> NoPlace(a, h, need, align)
  {
    hide Gap;
    forall q | Placeable(a, h, need, align, q) ensures Gap(a, align) <= q - HEADER - a {
      GapIsLeast(a, align, q - HEADER - a);
    }
    assert align ==> (a + Gap(a, align) + HEADER) % PAGE == 0;
    assert Gap(a, align) == 0 || TAGS <= Gap(a, align);
  }

  /** A remainder too small for a block of its own is given to the block. */
  function Take(rest: int, need: int): int {
    if rest - need < TAGS then rest else need
  }

  /** What becomes of a hole of size h: a leading hole over the gap, the block, a trailing hole. */
  function Carved(h: int, gap: int, need: int): seq<Block> {
    (if gap > 0 then [Block(gap, true)] else [])
    + [Block(Take(h - gap, need), false)]
    + (if h - gap > Take(h - gap, need) then [Block(h - gap - need, true)] else [])
  }

  function CarveAt(bs: seq<Block>, i: nat, gap: int, need: int): seq<Block>
    requires i < |bs|
  {
    bs[..i] + Carved(bs[i].size, gap, need) + bs[i + 1..]
  }

  /** expand followed by the growth of the topmost hole. Departure "topmost hole": only
      a hole that ends at the old heap end grows; otherwise a new one is added. */
  function Extended(bs: seq<Block>, g: int): seq<Block> {
    if bs != [] && bs[|bs| - 1].hole
    then bs[..|bs| - 1] + [Block(bs[|bs| - 1].size + g, true)]
    else bs + [Block(g, true)]
  }

  // ---------------------------------------------------------------- free

  predicate HoleBefore(bs: seq<Block>, i: nat)
    requires i < |bs|
  {
    i > 0 && bs[i - 1].hole
  }

  predicate HoleAfter(bs: seq<Block>, i: nat)
    requires i < |bs|
  {
    i + 1 < |bs| && bs[i + 1].hole
  }

  /** The stretch of blocks [lo, hi) replaced by one hole. */
  function Merged(bs: seq<Block>, lo: nat, hi: nat): seq<Block>
    requires lo <= hi <= |bs|
  {
    bs[..lo] + [Block(Len(bs[lo..hi]), true)] + bs[hi..]
  }

  function FreedAt(bs: seq<Block>, i: nat): seq<Block>
    requires i < |bs|
  {
    Merged(bs, if HoleBefore(bs, i) then i - 1 else i, if HoleAfter(bs, i) then i + 2 else i + 1)
  }

  /** Blocks j and j + 1 made one, which keeps the flag of the first. */
  function Joined(bs: seq<Block>, j: nat): seq<Block>
    requires j + 1 < |bs|
  {
    bs[..j] + [Block(bs[j].size + bs[j + 1].size, bs[j].hole)] + bs[j + 2..]
  }

  /** The steps of free: mark the block, join it to a hole before it, join a hole after it. */
  function MarkedAt(bs: seq<Block>, i: nat): seq<Block>
    requires i < |bs|
  {
    bs[i := Block(bs[i].size, true)]
  }

  function LeftMerged(bs: seq<Block>, i: nat): seq<Block>
    requires i < |bs|
  {
    if HoleBefore(bs, i) then Joined(MarkedAt(bs, i), i - 1) else MarkedAt(bs, i)
  }

  /** The heap length contract settles on when the last hole starts at offset off.
      Departure "contracted remainder": 1..19 left-over bytes keep one more page. */
  function ContractLen(off: int): (n: int)
    ensures n % PAGE == 0 && n >= HEAP_MIN_SIZE
    ensures n == off || n >= off + TAGS
  {
    var n := if PageUp(off) < HEAP_MIN_SIZE then HEAP_MIN_SIZE else PageUp(off);
    if off < n < off + TAGS then n + PAGE else n
  }

  /** It is the shortest such length: of whole pages, not below the minimum, and with nothing or
      room for two tags left above off. */
  lemma ContractLenIsLeast(off: int, n: int)
    requires n % PAGE == 0 && n >= HEAP_MIN_SIZE && (n == off || n >= off + TAGS)
    ensures ContractLen(off) <= n
  {
  }

  /** The place of the merged hole. */
  function FreedIndex(bs: seq<Block>, i: nat): nat
    requires i < |bs|
  {
    if HoleBefore(bs, i) then i - 1 else i
  }

  /** The contraction that follows a free whose hole reaches the heap end. */
  function Trimmed(bs: seq<Block>): seq<Block> {
    if bs == [] || !bs[|bs| - 1].hole then bs
    else
      var off := Len(bs[..|bs| - 1]);
      if ContractLen(off) == off then bs[..|bs| - 1]
      else bs[..|bs| - 1] + [Block(ContractLen(off) - off, true)]
  }

  // ---------------------------------------------------------------- the transitions

  ghost predicate Fits(bs: seq<Block>, p: int, i: nat, need: int, align: bool)
    requires i < |bs|
  {
    bs[i].hole && Gap(p + Len(bs[..i]), align) + need <= bs[i].size
  }

  ghost predicate SomeFit(s: Layout, need: int, align: bool) {
    exists i: nat :: i < |s.blocks| && Fits(s.blocks, s.start, i, need, align)
  }

  function ExtendedBy(s: Layout, g: int): Layout {
    s.(end := s.end + g, blocks := Extended(s.blocks, g))
  }

  /** The payload address alloc returns when it carves block i. */
  function PtrAt(s: Layout, i: nat, align: bool): int
    requires i < |s.blocks|
  {
    var a := s.start + Len(s.blocks[..i]);
    a + Gap(a, align) + HEADER
  }

  /** alloc without its self-call: the fitting hole i is carved. */
  function CarvedState(s: Layout, i: nat, need: int, align: bool): Layout
    requires i < |s.blocks|
  {
    s.(blocks := CarveAt(s.blocks, i, Gap(s.start + Len(s.blocks[..i]), align), need))
  }

  ghost predicate CarveStep(s: Layout, t: Layout, i: nat, need: int, align: bool, ptr: int) {
    && i < |s.blocks| && Fits(s.blocks, s.start, i, need, align)
    && ptr == PtrAt(s, i, align) && t == CarvedState(s, i, need, align)
  }

  /** alloc: the heap grows by `rounds` times the request, only while nothing fits. */
  ghost predicate AllocStep(s: Layout, t: Layout, need: int, align: bool, ptr: int, rounds: nat)
    decreases rounds
  {
    if rounds == 0 then exists i: nat :: CarveStep(s, t, i, need, align, ptr)
    else
      && !SomeFit(s, need, align)
      && AllocStep(ExtendedBy(s, PageUp(need)), t, need, align, ptr, rounds - 1)
  }

  /** free of block i: the heap is contracted only if the merged hole is the last block. */
  function FreeBlock(s: Layout, i: nat): Layout
    requires i < |s.blocks|
  {
    var m := FreedAt(s.blocks, i);
    var bs := if FreedIndex(s.blocks, i) == |m| - 1 then Trimmed(m) else m;
    Layout(s.start, s.start + Len(bs), bs)
  }

  /** free of the block whose header is at a. */
  ghost function Freed(s: Layout, a: int): Layout
    requires Starts(s.start, s.blocks, a)
  {
    FreeBlock(s, Which(s.start, s.blocks, a))
  }

  // ---------------------------------------------------------------- what they keep

  lemma CarvedShape(h: int, gap: int, need: int, p: int)
    requires gap == 0 || gap >= TAGS
    requires need >= TAGS && gap + need <= h
    ensures var mid := Carved(h, gap, need);
            && Len(mid) == h && Sized(mid) && Separated(mid)
            && Live(p, mid) == {Extent(p + gap, Take(h - gap, need))}
            && Holes(p, mid) == (if gap > 0 then [p] else [])
                                + (if h - gap > Take(h - gap, need) then [p + gap + need] else [])
  {
    var lead := if gap > 0 then [Block(gap, true)] else [];
    var take := Take(h - gap, need);
    var tail := if h - gap > take then [Block(h - gap - need, true)] else [];
    Live3(p, lead, [Block(take, false)], tail);
    Holes3(p, lead, [Block(take, false)], tail);
  }

  /** Carving keeps the heap well formed and adds exactly one live block, at a new address. */
  lemma CarveKeeps(s: Layout, t: Layout, i: nat, need: int, align: bool, ptr: int) returns (size: int)
    requires s.Valid() && need >= TAGS && CarveStep(s, t, i, need, align, ptr)
    ensures t.Valid() && t.start == s.start && t.end == s.end
    ensures need <= size < need + TAGS
    ensures Extent(ptr - HEADER, size) !in s.Allocated()
    ensures t.Allocated() == s.Allocated() + {Extent(ptr - HEADER, size)}
    ensures align ==> ptr % PAGE == 0
  {
    hide Holes, Len, Live, Separated;
    var bs := s.blocks;
    var x, y := bs[..i], bs[i + 1..];
    var a := s.start + Len(x);
    var g := Gap(a, align);
    size := Take(bs[i].size - g, need);
    CarvedShape(bs[i].size, g, need, a);
    assert bs == x + [bs[i]] + y;
    CarveMeasures(s.start, x, bs[i], y, g, need);
    CarveSeparated(bs, i, g, need);
  }

  lemma CarveMeasures(p: int, x: seq<Block>, b: Block, y: seq<Block>, gap: int, need: int)
    requires Sized(x) && Sized(y) && b.hole
    requires (gap == 0 || gap >= TAGS) && need >= TAGS && gap + need <= b.size
    ensures var t := x + Carved(b.size, gap, need) + y;
            var e := Extent(p + Len(x) + gap, Take(b.size - gap, need));
            && Len(t) == Len(x + [b] + y)
            && e !in Live(p, x + [b] + y)
            && Live(p, t) == Live(p, x + [b] + y) + {e}
  {
    CarvedShape(b.size, gap, need, p + Len(x));
    Single(p + Len(x), b);
    SpliceLive(p, x, [b], Carved(b.size, gap, need), y);
  }

  lemma CarveSeparated(bs: seq<Block>, i: nat, gap: int, need: int)
    requires Sized(bs) && Separated(bs) && i < |bs| && bs[i].hole
    requires (gap == 0 || gap >= TAGS) && need >= TAGS && gap + need <= bs[i].size
    ensures Sized(CarveAt(bs, i, gap, need)) && Separated(CarveAt(bs, i, gap, need))
  {
    var mid := Carved(bs[i].size, gap, need);
    CarvedShape(bs[i].size, gap, need, 0);
    var x, y := bs[..i], bs[i + 1..];
    var t := x + mid + y;
    forall k | 0 <= k < |t|
      ensures t[k].size >= TAGS && (k + 1 < |t| ==> !(t[k].hole && t[k + 1].hole))
    {
      if k < i {
        assert t[k] == bs[k];
      } else if k >= i + |mid| {
        assert t[k] == bs[k - |mid| + 1];
      } else {
        assert t[k] == mid[k - i];
      }
    }
  }

  /** Where a hole at the heap end starts, or would start. */
  ghost function TopAt(s: Layout): int {
    if s.blocks != [] && s.blocks[|s.blocks| - 1].hole
    then s.end - s.blocks[|s.blocks| - 1].size
    else s.end
  }

  /** How far the heap end is from giving the topmost hole enough room: block size plus
      alignment gap minus that hole's size. */
  ghost function Shortfall(s: Layout, need: int, align: bool): (n: nat) {
    var want := TopAt(s) + Gap(TopAt(s), align) + need;
    if want <= s.end then 0 else want - s.end
  }

  /** The blocks below a hole at the heap end, or all of them. */
  ghost function BelowTop(bs: seq<Block>): seq<Block> {
    if bs != [] && bs[|bs| - 1].hole then bs[..|bs| - 1] else bs
  }

  lemma TopSplits(s: Layout)
    requires s.Valid()
    ensures var x := BelowTop(s.blocks);
            && TopAt(s) == s.start + Len(x)
            && (TopAt(s) < s.end ==> s.blocks == x + [Block(s.end - TopAt(s), true)] && TopAt(s) <= s.end - TAGS)
            && (TopAt(s) == s.end ==> s.blocks == x)
            && Live(s.start, s.blocks) == Live(s.start, x)
  {
    var bs := s.blocks;
    var x := BelowTop(bs);
    if bs != [] && bs[|bs| - 1].hole {
      var b := bs[|bs| - 1];
      assert bs == x + [b];
      LenConcat(x, [b]);
      LiveConcat(s.start, x, [b]);
      Single(s.start + Len(x), b);
    }
  }

  /** Extending keeps the heap well formed, leaves the live blocks alone, and leaves a
      hole at the heap end that starts where it did. */
  lemma ExtendKeeps(s: Layout, g: int)
    requires s.Valid() && g >= TAGS && g % PAGE == 0
    ensures var t := ExtendedBy(s, g);
            && t.Valid() && t.Allocated() == s.Allocated()
            && TopAt(t) == TopAt(s) < t.end && BelowTop(t.blocks) == BelowTop(s.blocks)
  {
    TopSplits(s);
    var x := BelowTop(s.blocks);
    var b := Block(s.end - TopAt(s) + g, true);
    assert Extended(s.blocks, g) == x + [b];
    LenConcat(x, [b]);
    LiveConcat(s.start, x, [b]);
    Single(s.start + Len(x), b);
  }

  /** The topmost hole fits exactly when there is no shortfall. */
  lemma TopFits(s: Layout, need: int, align: bool)
    requires s.Valid() && need >= TAGS
    ensures Shortfall(s, need, align) == 0 <==>
            TopAt(s) < s.end && Fits(s.blocks, s.start, |s.blocks| - 1, need, align)
  {
    TopSplits(s);
  }

  /** The self-call of alloc makes progress: when nothing fits there is a shortfall, one
      extension lowers it by the whole request, and afterwards the topmost hole is the
      only one that may fit. */
  lemma ExtendProgress(s: Layout, need: int, align: bool)
    requires s.Valid() && need >= TAGS && !SomeFit(s, need, align)
    ensures var t := ExtendedBy(s, PageUp(need));
            && Shortfall(s, need, align) > 0
            && Shortfall(t, need, align) == Max0(Shortfall(s, need, align) - PageUp(need))
            && (SomeFit(t, need, align) <==> Shortfall(t, need, align) == 0)
  {
    hide Len, Live, PageUp, Gap;
    var t := ExtendedBy(s, PageUp(need));
    ExtendKeeps(s, PageUp(need));
    TopFits(s, need, align);
    TopFits(t, need, align);
    if SomeFit(t, need, align) {
      var i: nat :| i < |t.blocks| && Fits(t.blocks, t.start, i, need, align);
      OnlyTopIsNew(s, PageUp(need), i);
      if i < |t.blocks| - 1 {
        assert Fits(s.blocks, s.start, i, need, align);
      }
    }
  }

  lemma OnlyTopIsNew(s: Layout, g: int, i: nat)
    requires i < |Extended(s.blocks, g)|
    ensures i == |Extended(s.blocks, g)| - 1
            || (i < |s.blocks| && Extended(s.blocks, g)[i] == s.blocks[i]
              && Extended(s.blocks, g)[..i] == s.blocks[..i])
  {
  }

  function Max0(x: int): nat {
    if x < 0 then 0 else x
  }

  /** The payload of a block at the heap end starts at most a page above that end. */
  lemma ShortfallBound(s: Layout, need: int, align: bool)
    requires s.Valid() && need >= TAGS
    ensures Shortfall(s, need, align) <= PAGE - HEADER + need
  {
    TopSplits(s);
  }

  /** After two extensions of a heap in which nothing fits, something does. */
  lemma TwoExtensionsSuffice(s: Layout, need: int, align: bool)
    requires s.Valid() && need >= TAGS && !SomeFit(s, need, align)
    ensures var s1 := ExtendedBy(s, PageUp(need));
            s1.Valid() && (SomeFit(s1, need, align) || SomeFit(ExtendedBy(s1, PageUp(need)), need, align))
  {
    var s1 := ExtendedBy(s, PageUp(need));
    ExtendKeeps(s, PageUp(need));
    ExtendProgress(s, need, align);
    if !SomeFit(s1, need, align) {
      ExtendProgress(s1, need, align);
      ShortfallBound(s, need, align);
    }
  }

  /** How many times alloc has to extend the heap. */
  ghost function RoundsNeeded(s: Layout, need: int, align: bool): (n: nat) {
    if SomeFit(s, need, align) then 0
    else if SomeFit(ExtendedBy(s, PageUp(need)), need, align) then 1
    else 2
  }

  /** By how much alloc moves the heap end. */
  ghost function Growth(s: Layout, need: int, align: bool): int {
    var n := RoundsNeeded(s, need, align);
    if n == 0 then 0 else if n == 1 then PageUp(need) else PageUp(need) + PageUp(need)
  }

  /** One extension leaves exactly one round fewer. */
  lemma RoundsStep(s: Layout, need: int, align: bool)
    requires s.Valid() && need >= TAGS && !SomeFit(s, need, align)
    ensures var t := ExtendedBy(s, PageUp(need));
            && RoundsNeeded(t, need, align) == RoundsNeeded(s, need, align) - 1
            && Growth(s, need, align) == Growth(t, need, align) + PageUp(need)
            && Growth(t, need, align) >= 0
  {
    TwoExtensionsSuffice(s, need, align);
  }

  /** A hole is apart from every live block. */
  lemma LiveAvoidsHole(p: int, bs: seq<Block>, i: nat)
    requires Sized(bs) && i < |bs| && bs[i].hole
    ensures var a := p + Len(bs[..i]);
            forall e :: e in Live(p, bs) ==> e.addr + e.size <= a || a + bs[i].size <= e.addr
  {
    var x, y := bs[..i], bs[i + 1..];
    assert bs == x + [bs[i]] + y;
    Single(p + Len(x), bs[i]);
    Live3(p, x, [bs[i]], y);
    InStretch(p, x);
    InStretch(p + Len(x) + bs[i].size, y);
  }

  /** Every live block lies below a hole at the heap end. */
  lemma LiveBelowTop(s: Layout)
    requires s.Valid()
    ensures forall e :: e in s.Allocated() ==> e.addr + e.size <= TopAt(s)
  {
    TopSplits(s);
    InStretch(s.start, BelowTop(s.blocks));
  }

  lemma HoleListed(p: int, bs: seq<Block>, i: nat)
    requires i < |bs| && bs[i].hole
    ensures p + Len(bs[..i]) in Holes(p, bs)
  {
    var x, y := bs[..i], bs[i + 1..];
    assert bs == x + [bs[i]] + y;
    Single(p + Len(x), bs[i]);
    Holes3(p, x, [bs[i]], y);
  }

  /** alloc calls itself at most twice, whatever the request and the state of the heap. */
  lemma AtMostTwoRounds(s: Layout, t: Layout, need: int, align: bool, ptr: int, rounds: nat)
    requires s.Valid() && need >= TAGS && AllocStep(s, t, need, align, ptr, rounds)
    ensures rounds <= 2
  {
    if rounds > 2 {
      var s1 := ExtendedBy(s, PageUp(need));
      assert AllocStep(s1, t, need, align, ptr, rounds - 1);
      assert AllocStep(ExtendedBy(s1, PageUp(need)), t, need, align, ptr, rounds - 2);
      TwoExtensionsSuffice(s, need, align);
    }
  }

  /** Freeing: the freed block and its hole neighbours become one hole. */
  lemma FreedAtKeeps(p: int, bs: seq<Block>, i: nat)
    requires Sized(bs) && Separated(bs) && i < |bs| && !bs[i].hole
    ensures var t := FreedAt(bs, i);
            && Sized(t) && Separated(t) && Len(t) == Len(bs)
            && Extent(p + Len(bs[..i]), bs[i].size) in Live(p, bs)
            && Live(p, t) == Live(p, bs) - {Extent(p + Len(bs[..i]), bs[i].size)}
  {
    var lo := if HoleBefore(bs, i) then i - 1 else i;
    var hi := if HoleAfter(bs, i) then i + 2 else i + 1;
    FreedStretch(p, bs, i);
    MergedKeeps(p, bs, lo, hi);
  }

  /** Merging a stretch with no hole on either side of it into one hole. */
  lemma MergedKeeps(p: int, bs: seq<Block>, lo: nat, hi: nat)
    requires Sized(bs) && Separated(bs) && lo < hi <= |bs|
    requires (lo > 0 ==> !bs[lo - 1].hole) && (hi < |bs| ==> !bs[hi].hole)
    ensures var t := Merged(bs, lo, hi);
            var gone := Live(p + Len(bs[..lo]), bs[lo..hi]);
            && Sized(t) && Separated(t) && Len(t) == Len(bs)
            && gone <= Live(p, bs) && Live(p, t) == Live(p, bs) - gone
  {
    hide Holes, Len, Live, Separated;
    var x, mid, y := bs[..lo], bs[lo..hi], bs[hi..];
    LenNonNegative(mid);
    assert bs == x + mid + y;
    MergedMeasures(p, x, mid, y);
    MergedSeparated(bs, lo, hi);
  }

  lemma MergedSeparated(bs: seq<Block>, lo: nat, hi: nat)
    requires Sized(bs) && Separated(bs) && lo < hi <= |bs| && Len(bs[lo..hi]) >= TAGS
    requires (lo > 0 ==> !bs[lo - 1].hole) && (hi < |bs| ==> !bs[hi].hole)
    ensures Sized(Merged(bs, lo, hi)) && Separated(Merged(bs, lo, hi))
  {
    var t := Merged(bs, lo, hi);
    forall k | 0 <= k < |t|
      ensures t[k].size >= TAGS && (k + 1 < |t| ==> !(t[k].hole && t[k + 1].hole))
    {
      if k < lo {
        assert t[k] == bs[k];
      } else if k > lo {
        assert t[k] == bs[k - lo - 1 + hi];
      }
    }
  }

  lemma MergedMeasures(p: int, x: seq<Block>, mid: seq<Block>, y: seq<Block>)
    requires Sized(x) && Sized(mid) && Sized(y) && Len(mid) >= TAGS
    ensures var t := x + [Block(Len(mid), true)] + y;
            var gone := Live(p + Len(x), mid);
            && Len(t) == Len(x + mid + y)
            && gone <= Live(p, x + mid + y) && Live(p, t) == Live(p, x + mid + y) - gone
  {
    Single(p + Len(x), Block(Len(mid), true));
    SpliceLive(p, x, mid, [Block(Len(mid), true)], y);
  }

  /** The one live block of the stretch that becomes a hole. */
  lemma FreedStretch(p: int, bs: seq<Block>, i: nat)
    requires i < |bs| && !bs[i].hole
    ensures var lo := if HoleBefore(bs, i) then i - 1 else i;
            var hi := if HoleAfter(bs, i) then i + 2 else i + 1;
            Live(p + Len(bs[..lo]), bs[lo..hi]) == {Extent(p + Len(bs[..i]), bs[i].size)}
  {
    hide Len, Live, HoleBefore, HoleAfter;
    var left, right := LeftOf(bs, i), RightOf(bs, i);
    StretchSlices(bs, i);
    var x := bs[..if HoleBefore(bs, i) then i - 1 else i];
    var q := p + Len(x);
    LenConcat(x, left);
    Live3(q, left, [bs[i]], right);
    Single(q + Len(left), bs[i]);
    NoneLive(q, left);
    NoneLive(q + Len(left) + Len([bs[i]]), right);
  }

  /** The hole before block i and the hole after it, if there is one. */
  function LeftOf(bs: seq<Block>, i: nat): seq<Block>
    requires i < |bs|
  {
    if HoleBefore(bs, i) then [bs[i - 1]] else []
  }

  function RightOf(bs: seq<Block>, i: nat): seq<Block>
    requires i < |bs|
  {
    if HoleAfter(bs, i) then [bs[i + 1]] else []
  }

  lemma StretchSlices(bs: seq<Block>, i: nat)
    requires i < |bs|
    ensures var lo := if HoleBefore(bs, i) then i - 1 else i;
            var hi := if HoleAfter(bs, i) then i + 2 else i + 1;
            0 <= lo <= i < hi <= |bs| && bs[..i] == bs[..lo] + LeftOf(bs, i)
              && bs[lo..hi] == LeftOf(bs, i) + [bs[i]] + RightOf(bs, i)
    ensures |LeftOf(bs, i)| <= 1 && (LeftOf(bs, i) != [] ==> LeftOf(bs, i)[0].hole)
    ensures |RightOf(bs, i)| <= 1 && (RightOf(bs, i) != [] ==> RightOf(bs, i)[0].hole)
  {
  }

  lemma NoneLive(p: int, bs: seq<Block>)
    requires |bs| <= 1 && (bs != [] ==> bs[0].hole)
    ensures Live(p, bs) == {} && Len(bs) == if bs == [] then 0 else bs[0].size
  {
  }

  /** Contracting keeps the live blocks and never goes below the minimum size. */
  lemma TrimmedKeeps(p: int, bs: seq<Block>)
    requires Sized(bs) && Separated(bs) && Len(bs) % PAGE == 0 && Len(bs) >= HEAP_MIN_SIZE
    ensures var t := Trimmed(bs);
            && Sized(t) && Separated(t) && HEAP_MIN_SIZE <= Len(t) <= Len(bs) && Len(t) % PAGE == 0
            && Live(p, t) == Live(p, bs)
  {
    hide Len, Live, Holes, ContractLen;
    var n := |bs|;
    if n > 0 && bs[n - 1].hole {
      var x := bs[..n - 1];
      assert bs == x + [bs[n - 1]];
      TrimmedMeasures(p, x, bs[n - 1]);
    }
  }

  lemma TrimmedMeasures(p: int, x: seq<Block>, b: Block)
    requires b.hole && b.size >= TAGS && Len(x + [b]) % PAGE == 0 && Len(x + [b]) >= HEAP_MIN_SIZE
    ensures var n := ContractLen(Len(x));
            && n <= Len(x + [b])
            && Len(x + [Block(n - Len(x), true)]) == n
            && Live(p, x + [b]) == Live(p, x)
            && Live(p, x + [Block(n - Len(x), true)]) == Live(p, x)
  {
    hide Len, Live;
    var c := Block(ContractLen(Len(x)) - Len(x), true);
    LenConcat(x, [b]);
    LiveConcat(p, x, [b]);
    Single(p + Len(x), b);
    LenConcat(x, [c]);
    LiveConcat(p, x, [c]);
    Single(p + Len(x), c);
  }

  lemma FreeBlockKeeps(s: Layout, i: nat)
    requires s.Valid() && i < |s.blocks| && !s.blocks[i].hole
    ensures var t := FreeBlock(s, i);
            var e := Extent(s.start + Len(s.blocks[..i]), s.blocks[i].size);
            t.Valid() && t.start == s.start && t.end <= s.end && e in s.Allocated()
              && t.Allocated() == s.Allocated() - {e}
  {
    hide Holes, Len, Live, Separated, Sized, Trimmed, FreedAt;
    FreedAtKeeps(s.start, s.blocks, i);
    var merged := FreedAt(s.blocks, i);
    TrimmedKeeps(s.start, merged);
  }

  /** free keeps the heap well formed and takes out exactly the one live block. */
  lemma FreedKeeps(s: Layout, e: Extent)
    requires s.Valid() && e in s.Allocated()
    ensures Starts(s.start, s.blocks, e.addr)
    ensures var t := Freed(s, e.addr);
            t.Valid() && t.end <= s.end && t.Allocated() == s.Allocated() - {e}
  {
    var i := LiveIndex(s.start, s.blocks, e);
    FreeBlockKeeps(s, i);
  }

  lemma LiveIndex(p: int, bs: seq<Block>, e: Extent) returns (i: nat)
    requires Sized(bs) && e in Live(p, bs)
    ensures Starts(p, bs, e.addr) && i == Which(p, bs, e.addr) && Splits(p, bs, e.addr, i)
    ensures i < |bs| && e == Extent(p + Len(bs[..i]), bs[i].size) && !bs[i].hole
  {
    LiveStarts(p, bs, e);
    Locate(p, bs, e.addr);
    i := Which(p, bs, e.addr);
  }

  /** The three steps of free come to FreedAt. */
  lemma StepsAreFreedAt(bs: seq<Block>, i: nat)
    requires i < |bs| && !bs[i].hole
    ensures var l := LeftMerged(bs, i);
            var k := FreedIndex(bs, i);
            && k < |l| && l[k].hole && l[..k] == bs[..k] && l[k + 1..] == bs[i + 1..]
            && |l| == |bs| - (i - k)
            && FreedAt(bs, i) == (if HoleAfter(bs, i) then Joined(l, k) else l)
  {
    hide Len;
    var k := FreedIndex(bs, i);
    var l := LeftMerged(bs, i);
    assert l == bs[..k] + [l[k]] + bs[i + 1..];
    var left, right := LeftOf(bs, i), RightOf(bs, i);
    StretchSlices(bs, i);
    Len3(left, [bs[i]], right);
    Single(0, bs[i]);
    NoneLive(0, left);
    NoneLive(0, right);
    if right != [] {
      assert bs[i + 1..][1..] == bs[i + 2..];
    }
  }

  lemma JoinedHoles(p: int, bs: seq<Block>, j: nat)
    requires j + 1 < |bs| && bs[j].hole && bs[j + 1].hole
    ensures Len(Joined(bs, j)) == Len(bs)
    ensures multiset(Holes(p, Joined(bs, j))) + multiset{p + Len(bs[..j]) + bs[j].size} == multiset(Holes(p, bs))
  {
    hide Holes, Len;
    var x, y := bs[..j], bs[j + 2..];
    var b := Block(bs[j].size + bs[j + 1].size, true);
    var q := p + Len(x);
    assert bs == x + [bs[j], bs[j + 1]] + y;
    assert [bs[j], bs[j + 1]] == [bs[j]] + [bs[j + 1]];
    LenConcat([bs[j]], [bs[j + 1]]);
    HolesConcat(q, [bs[j]], [bs[j + 1]]);
    Single(q, bs[j]);
    Single(q + bs[j].size, bs[j + 1]);
    Single(q, b);
    Len3(x, [bs[j], bs[j + 1]], y);
    Len3(x, [b], y);
    SpliceHoles(p, x, [bs[j], bs[j + 1]], [b], y);
    ExtraHole(multiset(Holes(p, Joined(bs, j))), multiset(Holes(p, bs)), q, q + bs[j].size);
  }

  lemma ExtraHole(t: multiset<int>, s: multiset<int>, q: int, r: int)
    requires t + multiset([q] + [r]) == s + multiset([q])
    ensures t + multiset{r} == s
  {
    assert multiset([q] + [r]) == multiset{q} + multiset{r};
    assert t + multiset{r} + multiset{q} - multiset{q} == t + multiset{r};
    assert s + multiset{q} - multiset{q} == s;
  }

  lemma MarkedHoles(p: int, bs: seq<Block>, i: nat)
    requires i < |bs| && !bs[i].hole
    ensures Len(MarkedAt(bs, i)) == Len(bs)
    ensures multiset(Holes(p, MarkedAt(bs, i))) == multiset(Holes(p, bs)) + multiset{p + Len(bs[..i])}
  {
    hide Holes, Len;
    var x, y := bs[..i], bs[i + 1..];
    var b := Block(bs[i].size, true);
    assert bs == x + [bs[i]] + y && MarkedAt(bs, i) == x + [b] + y;
    Single(p + Len(x), bs[i]);
    Single(p + Len(x), b);
    Len3(x, [bs[i]], y);
    Len3(x, [b], y);
    SpliceHoles(p, x, [bs[i]], [b], y);
    assert multiset([p + Len(x)]) == multiset{p + Len(x)};
  }

  /** How free changes the list of holes before any contraction: the merged hole is new
      unless it grew out of the one before it, and the one after it is gone. */
  lemma FreedHoles(p: int, bs: seq<Block>, i: nat)
    requires i < |bs| && !bs[i].hole
    ensures Len(FreedAt(bs, i)) == Len(bs)
    ensures var h := p + Len(bs[..FreedIndex(bs, i)]);
            multiset(Holes(p, FreedAt(bs, i)))
            + (if HoleAfter(bs, i) then multiset{p + Len(bs[..i + 1])} else multiset{})
            == multiset(Holes(p, bs)) + (if HoleBefore(bs, i) then multiset{} else multiset{h})
  {
    hide Holes, Len;
    var l, k := LeftMerged(bs, i), FreedIndex(bs, i);
    StepsAreFreedAt(bs, i);
    LeftHoles(p, bs, i);
    if HoleAfter(bs, i) {
      JoinedHoles(p, l, k);
      assert Len(l[..k]) + l[k].size == Len(bs[..i + 1]);
    }
  }

  lemma LeftHoles(p: int, bs: seq<Block>, i: nat)
    requires i < |bs| && !bs[i].hole
    ensures var l, k := LeftMerged(bs, i), FreedIndex(bs, i);
            && Len(l) == Len(bs) && k < |l| && l[..k] == bs[..k] && Len(bs[..k]) + l[k].size == Len(bs[..i + 1])
            && multiset(Holes(p, l))
               == multiset(Holes(p, bs)) + (if HoleBefore(bs, i) then multiset{} else multiset{p + Len(bs[..k])})
  {
    hide Holes, Len;
    var marked := MarkedAt(bs, i);
    MarkedHoles(p, bs, i);
    PrefixStep(bs, i);
    if HoleBefore(bs, i) {
      JoinedHoles(p, marked, i - 1);
      PrefixStep(bs, i - 1);
      assert marked[..i - 1] == bs[..i - 1];
      CancelOne(multiset(Holes(p, LeftMerged(bs, i))), multiset(Holes(p, bs)), p + Len(bs[..i]));
    }
  }

  lemma CancelOne(a: multiset<int>, b: multiset<int>, x: int)
    requires a + multiset{x} == b + multiset{x}
    ensures a == b
  {
    assert a + multiset{x} - multiset{x} == a && b + multiset{x} - multiset{x} == b;
  }

  lemma MarkedPrefix(p: int, bs: seq<Block>, i: nat)
    requires Sized(bs) && i < |bs| && !bs[i].hole
    ensures i > 0 ==> bs[i - 1].size >= TAGS
    ensures var m := MarkedAt(bs, i);
            && |m| == |bs| && Len(m) == Len(bs) && m[i].size == bs[i].size
            && (i > 0 ==> m[i - 1] == bs[i - 1] && m[..i - 1] == bs[..i - 1] && m[..(i - 1) + 1] == bs[..i])
  {
    hide Holes, Len;
    MarkedHoles(p, bs, i);
  }

  lemma PrefixStep(bs: seq<Block>, i: nat)
    requires i < |bs|
    ensures Len(bs[..i + 1]) == Len(bs[..i]) + bs[i].size
  {
    assert bs[..i + 1] == bs[..i] + [bs[i]];
    LenConcat(bs[..i], [bs[i]]);
    Single(0, bs[i]);
  }

  /** Contraction keeps the last hole, shorter, or drops it. */
  lemma TrimmedHoles(p: int, m: seq<Block>)
    requires m != [] && m[|m| - 1].hole
    ensures var x := m[..|m| - 1];
            var n := ContractLen(Len(x));
            && Len(Trimmed(m)) == n && multiset(Holes(p, m)) == multiset(Holes(p, x)) + multiset{p + Len(x)}
            && (n == Len(x) ==> Trimmed(m) == x)
            && (n != Len(x) ==> Trimmed(m) == x + [Block(n - Len(x), true)] && Holes(p, Trimmed(m)) == Holes(p, m))
  {
    hide Holes, Len, ContractLen;
    var x := m[..|m| - 1];
    var b, c := m[|m| - 1], Block(ContractLen(Len(x)) - Len(x), true);
    assert m == x + [b];
    HolesConcat(p, x, [b]);
    Single(p + Len(x), b);
    LenConcat(x, [c]);
    HolesConcat(p, x, [c]);
    Single(p + Len(x), c);
    assert multiset([p + Len(x)]) == multiset{p + Len(x)};
  }

  lemma TrimmedTop(p: int, m: seq<Block>)
    requires m != [] && m[|m| - 1].hole
    ensures var x := m[..|m| - 1];
            var size := ContractLen(Len(x)) - Len(x);
            && Len(Trimmed(m)) == ContractLen(Len(x)) && (size == 0 || size >= TAGS)
            && Trimmed(m) == (if size > 0 then x + [Block(size, true)] else x)
            && multiset(Holes(p, m)) == multiset(Holes(p, x)) + multiset{p + Len(x)}
            && multiset(Holes(p, Trimmed(m)))
               == multiset(Holes(p, x)) + (if size > 0 then multiset{p + Len(x)} else multiset{})
  {
    hide Holes, Len, ContractLen, Trimmed;
    TrimmedHoles(p, m);
    assert multiset(Holes(p, m[..|m| - 1])) + multiset{} == multiset(Holes(p, m[..|m| - 1]));
  }
}
