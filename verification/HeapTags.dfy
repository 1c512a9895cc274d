/** The boundary tags of src/kheap.h:14-25 in memory: which bytes hold which blocks. */
module HeapTags {
  import opened Machine
  import opened HeapLayout

  /** header_t: is_hole at 0, magic at 4, size at 8. */
  ghost predicate HeaderAt(m: Mem, a: int, b: Block) {
    && 0 <= a && a + HEADER <= |m|
    && m[a] == (if b.hole then 1 else 0)
    && U32At(m, a + 4) == HEAP_MAGIC
    && U32At(m, a + 8) == b.size
  }

  /** footer_t: magic at 0, header pointer at 4. */
  ghost predicate FooterAt(m: Mem, a: int, header: int) {
    && 0 <= a && a + FOOTER <= |m|
    && U32At(m, a) == HEAP_MAGIC
    && U32At(m, a + 4) == header
  }

  ghost predicate BlockAt(m: Mem, a: int, b: Block) {
    TAGS <= b.size && HeaderAt(m, a, b) && FooterAt(m, a + b.size - FOOTER, a)
  }

  /** The twenty bytes of the tags that alloc and free read and write, each at its place; the three
      bytes after is_hole are padding. */
  lemma TagBytes(m: Mem, a: int, b: Block)
    ensures BlockAt(m, a, b) <==>
              && 0 <= a && 20 <= b.size && a + b.size <= |m|
              && m[a] == (if b.hole then 1 else 0) && U32At(m, a + 4) == 0x1238_90AB && U32At(m, a + 8) == b.size
              && U32At(m, a + b.size - 8) == 0x1238_90AB && U32At(m, a + b.size - 4) == a
  {
  }

  /** From p on, memory holds exactly these blocks, each with both of its tags. */
  ghost predicate Tiled(m: Mem, p: int, bs: seq<Block>)
    decreases bs
  {
    bs == [] || (BlockAt(m, p, bs[0]) && Tiled(m, p + bs[0].size, bs[1..]))
  }

  lemma {:induction false} TiledSized(m: Mem, p: int, bs: seq<Block>)
    requires Tiled(m, p, bs)
    ensures Sized(bs) && Len(bs) >= TAGS * |bs|
    decreases bs
  {
    if bs != [] {
      TiledSized(m, p + bs[0].size, bs[1..]);
    }
  }

  lemma {:induction false} TiledConcat(m: Mem, p: int, x: seq<Block>, y: seq<Block>)
    ensures Tiled(m, p, x + y) <==> Tiled(m, p, x) && Tiled(m, p + Len(x), y)
    decreases x
  {
    if x == [] {
      assert x + y == y;
    } else {
      assert (x + y)[1..] == x[1..] + y;
      TiledConcat(m, p + x[0].size, x[1..], y);
    }
  }

  /** The tags depend on no byte outside the blocks. */
  lemma {:induction false} TiledFrame(m: Mem, n: Mem, p: int, bs: seq<Block>)
    requires Tiled(m, p, bs) && Agree(m, n, p, p + Len(bs))
    ensures Tiled(n, p, bs)
    decreases bs
  {
    if bs != [] {
      TiledSized(m, p, bs);
      TiledSized(m, p + bs[0].size, bs[1..]);
      BlockFrame(m, n, p, bs[0]);
      TiledFrame(m, n, p + bs[0].size, bs[1..]);
    }
  }

  lemma BlockFrame(m: Mem, n: Mem, p: int, b: Block)
    requires BlockAt(m, p, b) && Agree(m, n, p, p + b.size)
    ensures BlockAt(n, p, b)
  {
  }

  lemma TiledSingle(m: Mem, p: int, b: Block)
    ensures Tiled(m, p, [b]) <==> BlockAt(m, p, b)
  {
    assert [b][1..] == [];
  }

  lemma Tiled3(m: Mem, p: int, x: seq<Block>, mid: seq<Block>, y: seq<Block>)
    ensures Tiled(m, p, x + mid + y) <==>
            Tiled(m, p, x) && Tiled(m, p + Len(x), mid) && Tiled(m, p + Len(x) + Len(mid), y)
  {
    TiledConcat(m, p, x + mid, y);
    TiledConcat(m, p, x, mid);
    LenConcat(x, mid);
  }

  /** Rewriting the bytes of a stretch of blocks replaces just that stretch. The new one
      has the same length, or nothing follows it. */
  lemma TiledSplice(m: Mem, n: Mem, p: int, x: seq<Block>, was: seq<Block>, now: seq<Block>, y: seq<Block>)
    requires Tiled(m, p, x + was + y) && Tiled(n, p + Len(x), now)
    requires AgreeOutside(m, n, p + Len(x), p + Len(x) + Len(was))
    requires Len(now) == Len(was) || y == []
    ensures Tiled(n, p, x + now + y)
  {
    hide AgreeOutside, BlockAt, Len;
    FrameAround(m, n, p, x, was, y);
    Tiled3(n, p, x, now, y);
  }

  lemma FrameAround(m: Mem, n: Mem, p: int, x: seq<Block>, was: seq<Block>, y: seq<Block>)
    requires Tiled(m, p, x + was + y)
    requires AgreeOutside(m, n, p + Len(x), p + Len(x) + Len(was))
    ensures Tiled(n, p, x) && Tiled(n, p + Len(x) + Len(was), y)
  {
    hide AgreeOutside, Tiled, Len;
    Tiled3(m, p, x, was, y);
    var q := p + Len(x);
    FrameOutside(m, n, q, q + Len(was), p, x);
    FrameOutside(m, n, q, q + Len(was), q + Len(was), y);
  }

  lemma FrameOutside(m: Mem, n: Mem, lo: int, hi: int, p: int, bs: seq<Block>)
    requires Tiled(m, p, bs) && AgreeOutside(m, n, lo, hi)
    requires p + Len(bs) <= lo || hi <= p
    ensures Tiled(n, p, bs)
  {
    OutsideAgree(m, n, lo, hi, p, p + Len(bs));
    TiledFrame(m, n, p, bs);
  }

  /** The block at index i of the tiling. */
  lemma TiledAt(m: Mem, p: int, bs: seq<Block>, i: nat)
    requires Tiled(m, p, bs) && i < |bs|
    ensures BlockAt(m, p + Len(bs[..i]), bs[i])
    ensures Len(bs[..i]) >= 0 && Len(bs[..i]) + bs[i].size <= Len(bs)
    ensures Len(bs[..i + 1]) == Len(bs[..i]) + bs[i].size
    ensures Len(bs[..i + 1]) == Len(bs) ==> i + 1 == |bs|
  {
    hide Tiled, Len, BlockAt;
    var x, y := bs[..i], bs[i + 1..];
    assert bs == x + [bs[i]] + y;
    Single(0, bs[i]);
    Tiled3(m, p, x, [bs[i]], y);
    Len3(x, [bs[i]], y);
    TiledSingle(m, p + Len(x), bs[i]);
    TiledSized(m, p, x);
    TiledSized(m, p + Len(x) + bs[i].size, y);
    assert bs[..i + 1] == x + [bs[i]];
    LenConcat(x, [bs[i]]);
  }

  /** Writes both tags of a block. */
  method StoreBlock(mem: array<byte>, p: int, b: Block)
    requires 0 <= p && TAGS <= b.size < TWO32 && p + b.size <= mem.Length < TWO32
    modifies mem
    ensures BlockAt(mem[..], p, b)
    ensures AgreeOutside(old(mem[..]), mem[..], p, p + b.size)
  {
    StoreByte(mem, p, if b.hole then 1 else 0);
    StoreU32(mem, p + 4, HEAP_MAGIC);
    StoreU32(mem, p + 8, b.size);
    var footer := p + b.size - FOOTER;
    StoreU32(mem, footer, HEAP_MAGIC);
    StoreU32(mem, footer + 4, p);
  }

  /** Writes the next block of a stretch that is being laid out. */
  method StoreNext(mem: array<byte>, ghost p: int, ghost bs: seq<Block>, q: int, b: Block)
    requires Tiled(mem[..], p, bs) && q == p + Len(bs)
    requires 0 <= q && TAGS <= b.size < TWO32 && q + b.size <= mem.Length < TWO32
    modifies mem
    ensures Tiled(mem[..], p, bs + [b])
    ensures AgreeOutside(old(mem[..]), mem[..], q, q + b.size)
  {
    StoreBlock(mem, q, b);
    TiledFrame(old(mem[..]), mem[..], p, bs);
    TiledSingle(mem[..], q, b);
    TiledConcat(mem[..], p, bs, [b]);
  }
}
