/** The kernel heap of src/kheap.c: the boundary-tag allocator itself, over byte memory,
    the hole index and the page entries of the heap's address range.

    The contracts say that alloc and free make exactly the transitions AllocStep and Freed
    of HeapLayout.dfy and that they leave the bytes of every other live block alone.
    README.md lists where the text of the code departs from what is modelled here. */
module Heap {
  import opened Machine
  import opened SortedArrays
  import opened Frames
  import opened HeapLayout
  import opened HeapTags
  import opened HeapMemory
  import opened HeapPages

  const HEAP_INDEX_SIZE := 0x2_0000

  /** Where the heap begins when its index begins at base: after the index, rounded as
      lines 61-64 do it. */
  function HeapStart(base: nat): (s: int)
    ensures s % PAGE == 0 && s >= base + 4 * HEAP_INDEX_SIZE
    ensures s == PageUp(base) + 0x8_0000 + (if base % PAGE == 0 then 0 else PAGE)
  {
    var s := base + 4 * HEAP_INDEX_SIZE;
    if s % PAGE != 0 then s - s % PAGE + 0x2000 else s
  }

  /** Four stores that never alias. */
  ghost predicate Apart(mem: array<byte>, holes: array<int>, bits: array<bv8>, pages: array<Page>) {
    && mem as object != holes && mem as object != bits && holes as object != bits
    && pages as object != mem && pages as object != holes && pages as object != bits
  }

  /** The index when its hole number iter is carved: the trailing hole at `tail` comes first, if what
      is left of the hole makes one; the hole itself stays where it is if a gap is left of it. */
  ghost predicate AfterCarving(was: seq<int>, iter: nat, gap: int, tail: int, left: int, now: seq<int>) {
    iter < |was| && now == (if left >= TAGS then [tail] else []) + (if gap > 0 then was else Removed(was, iter))
  }

  ghost predicate PushedFront(was: seq<int>, a: int, now: seq<int>) { now == [a] + was }

  ghost predicate DroppedUnless(was: seq<int>, iter: nat, keep: bool, now: seq<int>) {
    iter < |was| && now == if keep then was else Removed(was, iter)
  }

  lemma CarvedInOrder(was: seq<int>, iter: nat, gap: int, tail: int, left: int, kept: seq<int>, now: seq<int>)
    requires DroppedUnless(was, iter, gap > 0, kept)
    requires if left >= TAGS then PushedFront(kept, tail, now) else now == kept
    ensures AfterCarving(was, iter, gap, tail, left, now)
  {
  }

  class KernelHeap {
    const mem: array<byte>
    const index: SortedArray<int>
    const frames: Bitmap
    const pages: array<Page>
    const start: int
    const supervisor: bool
    const readonly: bool
    var end: int
    ghost var blocks: seq<Block>

    /** The parts never alias, and memory and page entries cover the same addresses. */
    ghost predicate Shape() {
      && Apart(mem, index.arr, frames.bits, pages)
      && mem.Length == PAGE * pages.Length && mem.Length < TWO32
      && 0 < start && start % PAGE == 0
    }

    /** Memory holds the blocks, the index holds exactly the holes except `pending`, and
        the heap's pages are mapped. */
    ghost predicate Core(pending: multiset<int>)
      reads this, mem, index, index.arr, frames.bits, pages
    {
      && Shape()
      && end % PAGE == 0 && HEAP_MIN_SIZE <= end - start && end <= mem.Length
      && Tiled(mem[..], start, blocks) && Len(blocks) == end - start
      && index.Valid() && multiset(index.Live()) + pending == multiset(Holes(start, blocks))
      && OwnFrames(pages[..], frames.Used()) && AllMapped(pages[..], start, end)
    }

    ghost predicate Valid()
      reads this, mem, index, index.arr, frames.bits, pages
    {
      Core(multiset{}) && Separated(blocks)
    }

    ghost function State(): Layout
      reads this
    {
      Layout(start, end, blocks)
    }

    /** The pages of [start, end) are mapped to frames of their own. */
    ghost predicate PagesOk()
      reads this, frames.bits, pages
    {
      OwnFrames(pages[..], frames.Used()) && AllMapped(pages[..], start, end)
    }

    /** Puts a hole into the index. The order is that of the comparator, which is none: the hole
        comes first. */
    method AddToIndex(a: int)
      requires index.Valid() && index.cur + 1 < index.arr.Length && Apart(mem, index.arr, frames.bits, pages)
      modifies index, index.arr
      ensures index.Valid() && index.cur == old(index.cur) + 1
      ensures PushedFront(old(index.Live()), a, index.Live())
      ensures multiset(index.Live()) == old(multiset(index.Live())) + multiset{a}
      ensures mem[..] == old(mem[..]) && pages[..] == old(pages[..]) && frames.Used() == old(frames.Used())
      ensures PagesOk() == old(PagesOk())
    {
      hide OwnFrames, AllMapped, UsedIn, Inserted, InsertionPoint;
      CmpNeverNegative(mem[..]);
      NeverNegativePushesFront(index.Live(), a, HeaderCmpLess(mem[..]));
      InsertAddsOne(index.Live(), a, HeaderCmpLess(mem[..]));
      index.Insert(a, HeaderCmpLess(mem[..]));
      assert mem[..] == old(mem[..]) && pages[..] == old(pages[..]) && frames.bits[..] == old(frames.bits[..]);
    }

    /** The rest of create_heap: the tags of the first hole, and its place in the index. */
    method Format()
      requires Shape() && end % PAGE == 0 && HEAP_MIN_SIZE <= end - start && end <= mem.Length && PagesOk()
      requires index.Valid() && index.cur == 0 && index.arr.Length > 1 && blocks == [Block(end - start, true)]
      modifies mem, index, index.arr
      ensures Valid() && AgreeOutside(old(mem[..]), mem[..], start, end)
    {
      hide Tiled, Len, Holes, AgreeOutside, OwnFrames, AllMapped, UsedIn;
      NothingTiled(mem[..], start);
      Single(start, blocks[0]);
      StoreNext(mem, start, [], start, Block(end - start, true));
      assert [] + [blocks[0]] == blocks && multiset([start]) == multiset{start};
      assert pages[..] == old(pages[..]) && frames.bits[..] == old(frames.bits[..]) && index.Live() == [];
      AddToIndex(start);
    }

    /** create_heap: one hole over the whole heap. The storage of the index is the range
        below the heap start, kept as an array of its own. Departure "first footer":
        the text writes none for it. */
    constructor (memory: array<byte>, storage: array<int>, bitmap: Bitmap, entries: array<Page>,
                 base: nat, limit: int, isSupervisor: bool, isReadonly: bool)
      requires Apart(memory, storage, bitmap.bits, entries) && storage.Length == HEAP_INDEX_SIZE
      requires memory.Length == PAGE * entries.Length && memory.Length < TWO32
      requires limit % PAGE == 0 && HeapStart(base) + HEAP_MIN_SIZE <= limit <= memory.Length
      requires OwnFrames(entries[..], bitmap.Used()) && AllMapped(entries[..], HeapStart(base), limit)
      modifies memory, storage
      ensures Valid() && mem == memory && frames == bitmap && pages == entries
      ensures supervisor == isSupervisor && readonly == isReadonly
      ensures fresh(index) && index.arr == storage
      ensures State() == Layout(HeapStart(base), limit, [Block(limit - HeapStart(base), true)])
      ensures State().Allocated() == {}
      ensures AgreeOutside(old(memory[..]), memory[..], start, end)
    {
      hide Tiled, Holes, Len, Live, AgreeOutside, OwnFrames, AllMapped, UsedIn, HeapStart;
      mem, frames, pages := memory, bitmap, entries;
      index := new SortedArray.Place(storage);
      start, end := HeapStart(base), limit;
      supervisor, readonly := isSupervisor, isReadonly;
      blocks := [Block(limit - HeapStart(base), true)];
      new;
      Single(start, blocks[0]);
      Format();
    }

    lemma ShapeFacts()
      requires Shape()
      ensures 0 < start && mem.Length == PAGE * pages.Length && mem.Length < TWO32
      ensures Apart(mem, index.arr, frames.bits, pages)
    {
    }

    lemma ValidState()
      requires Valid()
      ensures State().Valid() && 0 < start <= end <= mem.Length && Shape() && PagesOk()
    {
      TiledSized(mem[..], start, blocks);
    }

    /** A hole of the index, found among the blocks. */
    lemma HoleAt(a: int) returns (i: nat)
      requires Core(multiset{}) && a in index.Live()
      ensures Starts(start, blocks, a) && i == Which(start, blocks, a)
      ensures Splits(start, blocks, a, i) && i < |blocks| && blocks[i].hole
      ensures BlockAt(mem[..], a, blocks[i]) && start <= a && a + blocks[i].size <= end
      ensures SizeAt(mem[..], a) == blocks[i].size
    {
      TiledSized(mem[..], start, blocks);
      assert a in multiset(Holes(start, blocks));
      HoleStarts(start, blocks, a);
      Locate(start, blocks, a);
      i := Which(start, blocks, a);
      TiledAt(mem[..], start, blocks, i);
    }

    /** find_hole_fit_first: the first hole of the index that fits, or -1. */
    method FindHoleFitFirst(size: int, align: bool) returns (iter: int)
      requires Valid()
      ensures iter == -1 || 0 <= iter < index.cur
      ensures iter >= 0 ==> FitsAt(mem[..], index.Live()[iter], size, align)
      ensures forall k :: 0 <= k < (if iter == -1 then index.cur else iter) ==>
                !FitsAt(mem[..], index.Live()[k], size, align)
      ensures iter == -1 ==> NoPlaces(mem[..], index.Live(), size, align)
    {
      iter := 0;
      while iter < index.cur
        invariant 0 <= iter <= index.cur
        invariant forall k :: 0 <= k < iter ==> !FitsAt(mem[..], index.Live()[k], size, align)
      {
        var header := index.Find(iter);
        assert header == index.Live()[iter];
        ghost var i := HoleAt(header);
        var holeSize := LoadU32(mem, header + 8);
        if size <= holeSize - Gap(header, align) {
          return;
        }
        iter := iter + 1;
      }
      NoneFitPlaces(mem[..], index.Live(), size, align);
      return -1;
    }

    /** alloc_frame on the page entry of one heap page. */
    method MapPage(k: nat)
      requires k < pages.Length && Shape() && OwnFrames(pages[..], frames.Used())
      requires pages[k].frame == 0 ==> exists f: nat :: f < frames.Count() && f !in frames.Used()
      modifies frames.bits, pages
      ensures OwnFrames(pages[..], frames.Used())
      ensures MappedAt(old(pages[..]), old(frames.Used()), pages[..], frames.Used(), k, supervisor, !readonly)
    {
      var page := AllocFrame(frames, pages[k], supervisor, !readonly);
      pages[k] := page;
    }

    /** expand: maps the pages from the old end to the new one, one frame for each page that
        has none. A page that contract left mapped is met again and keeps its frame. */
    method Expand(newSize: int)
      requires Shape() && PagesOk() && end % PAGE == 0 && 0 <= end - start <= newSize
      requires start + PageUp(newSize) <= mem.Length
      requires FramesFor(pages[..], frames.Used(), frames.Count(), end, start + PageUp(newSize))
      modifies this`end, frames.bits, pages
      ensures end == start + PageUp(newSize) && PagesOk()
      ensures Grown(old(pages[..]), old(frames.Used()), pages[..], frames.Used(), PageNo(old(end)), PageNo(end),
                    supervisor, !readonly)
    {
      hide OwnFrames, AllMapped, Grown, MappedAt, PageUp, UsedIn, FramesFor;
      var size := PageUp(newSize);
      var i := end - start;
      ghost var lo, stop := PageNo(end), PageNo(start + size);
      ghost var hi := lo;
      ghost var p, used := pages[..], frames.Used();
      GrownNone(p, used, lo, supervisor, !readonly);
      while i < size
        modifies frames.bits, pages
        invariant start + i == hi * PAGE && start + size == stop * PAGE && lo <= hi <= stop
        invariant OwnFrames(pages[..], frames.Used())
        invariant Grown(p, used, pages[..], frames.Used(), lo, hi, supervisor, !readonly)
      {
        ghost var q, now := pages[..], frames.Used();
        FrameLeft(p, used, q, now, hi, end, start + size, frames.Count(), supervisor, !readonly);
        assert (start + i) / PAGE == hi;
        MapPage((start + i) / PAGE);
        GrownStep(p, used, q, now, pages[..], frames.Used(), lo, hi, supervisor, !readonly);
        i := i + PAGE;
        hi := hi + 1;
      }
      ghost var pagesNow, bitsNow := pages[..], frames.bits[..];
      GrownMapped(p, used, pagesNow, frames.Used(), start, end, start + size, supervisor, !readonly);
      end := start + size;
      assert pages[..] == pagesNow && frames.bits[..] == bitsNow;
    }

    /** The scan for the highest hole (lines 130-141). */
    method Topmost() returns (idx: int)
      requires index.Valid() && forall k :: 0 <= k < index.cur ==> index.Live()[k] > 0
      ensures idx == -1 <==> index.Live() == []
      ensures idx != -1 ==> 0 <= idx < index.cur
      ensures idx != -1 ==> forall k :: 0 <= k < index.cur ==> index.Live()[k] <= index.Live()[idx]
    {
      idx := -1;
      var value := 0;
      var iter := 0;
      while iter < index.cur
        invariant 0 <= iter <= index.cur
        invariant idx == -1 ==> iter == 0 && value == 0
        invariant idx != -1 ==> 0 <= idx < iter && value == index.Live()[idx]
        invariant forall k :: 0 <= k < iter ==> index.Live()[k] <= value
      {
        var tmp := index.Find(iter);
        assert tmp == index.Live()[iter];
        if tmp > value {
          value := tmp;
          idx := iter;
        }
        iter := iter + 1;
      }
    }

    /** Whether the highest hole of the index ends at the old heap end. */
    method TopmostReaches(oldEnd: int, ghost s: Layout) returns (header: int, size: int, grows: bool)
      requires s.Valid() && s.start == start && s.end == oldEnd <= mem.Length && 0 < start
      requires Tiled(mem[..], start, s.blocks)
      requires index.Valid() && multiset(index.Live()) == multiset(Holes(start, s.blocks))
      ensures if grows then TopAt(s) < oldEnd else TopAt(s) == oldEnd
      ensures grows ==> header == TopAt(s) && TAGS <= size == oldEnd - header
    {
      hide Tiled, Holes, Live, Len, Sized, Separated, TopAt, U32At;
      ghost var live := index.Live();
      TopPieces(mem[..], s);
      IndexTop(mem[..], s, live);
      forall k | 0 <= k < |live| ensures start <= live[k] <= TopAt(s) {
        assert live[k] in live;
      }
      var idx := Topmost();
      if idx == -1 {
        return 0, 0, false;
      }
      header := index.Find(idx);
      assert header == live[idx] && header in live;
      size := LoadU32(mem, header + 8);
      grows := header + size == oldEnd;
    }

    method GrowTopHole(header: int, size: int, oldEnd: int, ghost s: Layout)
      requires Apart(mem, index.arr, frames.bits, pages) && s.Valid() && s.start == start && s.end == oldEnd
      requires 0 < start
      requires oldEnd < end <= mem.Length < TWO32 && Tiled(mem[..], start, s.blocks)
      requires header == TopAt(s) < oldEnd && size == oldEnd - header && TAGS <= size + (end - oldEnd)
      modifies mem
      ensures Tiled(mem[..], start, Extended(s.blocks, end - oldEnd))
      ensures AgreeOutside(old(mem[..]), mem[..], TopAt(s), end)
      ensures multiset(Holes(start, Extended(s.blocks, end - oldEnd))) == multiset(Holes(start, s.blocks))
      ensures pages[..] == old(pages[..]) && frames.Used() == old(frames.Used()) && PagesOk() == old(PagesOk())
    {
      hide Tiled, Holes, Live, Len, Sized, Separated, Agree, AgreeOutside, Extended, TopAt, BelowTop, U32At, BlockAt,
        OwnFrames, AllMapped, UsedIn;
      TopPieces(mem[..], s);
      Resize(mem, header, Block(size, true), size + (end - oldEnd));
      ExtendTiled(old(mem[..]), mem[..], s, end - oldEnd);
      assert pages[..] == old(pages[..]) && frames.bits[..] == old(frames.bits[..]);
    }

    method AddTopHole(oldEnd: int, ghost s: Layout)
      requires s.Valid() && s.start == start && s.end == oldEnd && 0 < start && TopAt(s) == oldEnd
      requires oldEnd < end && oldEnd + TAGS <= end <= mem.Length < TWO32 && Apart(mem, index.arr, frames.bits, pages)
      requires Tiled(mem[..], start, s.blocks)
      requires index.Valid() && multiset(index.Live()) == multiset(Holes(start, s.blocks))
      requires index.cur + 1 < index.arr.Length
      modifies mem, index, index.arr
      ensures Tiled(mem[..], start, Extended(s.blocks, end - oldEnd))
      ensures index.Valid() && multiset(index.Live()) == multiset(Holes(start, Extended(s.blocks, end - oldEnd)))
      ensures AgreeOutside(old(mem[..]), mem[..], TopAt(s), end)
      ensures index.cur == old(index.cur) + 1
      ensures pages[..] == old(pages[..]) && frames.Used() == old(frames.Used()) && PagesOk() == old(PagesOk())
    {
      hide Tiled, Holes, Live, Len, Sized, Separated, Agree, AgreeOutside, Extended, TopAt, BelowTop, U32At, BlockAt,
        OwnFrames, AllMapped, UsedIn;
      TopPieces(mem[..], s);
      StoreBlock(mem, oldEnd, Block(end - oldEnd, true));
      ExtendTiled(old(mem[..]), mem[..], s, end - oldEnd);
      AddToIndex(oldEnd);
      assert pages[..] == old(pages[..]) && frames.bits[..] == old(frames.bits[..]);
    }

    /** The hole over the pages that expand added: the topmost hole grows if it ends where
        the heap ended, otherwise there is a new one (lines 130-159). */
    method CoverNewPages(oldEnd: int, ghost s: Layout)
      requires s.Valid() && s.start == start && s.end == oldEnd && 0 < start
      requires oldEnd < end && oldEnd + TAGS <= end <= mem.Length < TWO32 && Apart(mem, index.arr, frames.bits, pages)
      requires Tiled(mem[..], start, s.blocks)
      requires index.Valid() && multiset(index.Live()) == multiset(Holes(start, s.blocks))
      requires index.cur + 1 < index.arr.Length
      modifies mem, index, index.arr
      ensures Tiled(mem[..], start, Extended(s.blocks, end - oldEnd))
      ensures index.Valid() && multiset(index.Live()) == multiset(Holes(start, Extended(s.blocks, end - oldEnd)))
      ensures AgreeOutside(old(mem[..]), mem[..], TopAt(s), end)
      ensures index.cur == old(index.cur) + (if TopAt(s) < oldEnd then 0 else 1)
      ensures pages[..] == old(pages[..]) && frames.Used() == old(frames.Used()) && PagesOk() == old(PagesOk())
    {
      hide *;
      var header, size, grows := TopmostReaches(oldEnd, s);
      if grows {
        GrowTopHole(header, size, oldEnd, s);
      } else {
        AddTopHole(oldEnd, s);
      }
    }

    /** expand and the growth of the topmost hole (lines 123-160). */
    method Extend(need: int)
      requires Valid() && need >= TAGS && index.cur + 1 < index.arr.Length
      requires end + PageUp(need) <= mem.Length
      requires FramesFor(pages[..], frames.Used(), frames.Count(), end, end + PageUp(need))
      modifies this`end, this`blocks, mem, index, index.arr, frames.bits, pages
      ensures Valid() && State() == ExtendedBy(old(State()), PageUp(need))
      ensures AgreeOutside(old(mem[..]), mem[..], old(TopAt(State())), end)
      ensures index.cur <= old(index.cur) + (if old(TopAt(State())) < old(end) then 0 else 1)
      ensures Grown(old(pages[..]), old(frames.Used()), pages[..], frames.Used(), PageNo(old(end)), PageNo(end),
                    supervisor, !readonly)
    {
      hide Tiled, Holes, Live, Len, Sized, Separated, Agree, AgreeOutside, Extended, TopAt, U32At, OwnFrames,
        AllMapped, PageUp, Grown, PageNo, UsedIn, FramesFor;
      ghost var s := State();
      ValidState();
      var oldEnd := end;
      PageUpSum(end - start, need);
      Expand(oldEnd - start + need);
      CoverNewPages(oldEnd, s);
      blocks := Extended(blocks, PageUp(need));
      ExtendKeeps(s, PageUp(need));
    }

    /** The extension that precedes the self-call, when no hole of the index fits. */
    method ExtendFor(size: nat, align: bool)
      requires Valid() && forall k :: 0 <= k < index.cur ==> !FitsAt(mem[..], index.Live()[k], size + TAGS, align)
      requires index.cur + RoundsNeeded(State(), size + TAGS, align) + 1 < index.arr.Length
      requires end + Growth(State(), size + TAGS, align) <= mem.Length
      requires FramesFor(pages[..], frames.Used(), frames.Count(), end, end + Growth(State(), size + TAGS, align))
      modifies this`end, this`blocks, mem, index, index.arr, frames.bits, pages
      ensures Valid() && !SomeFit(old(State()), size + TAGS, align)
      ensures State() == ExtendedBy(old(State()), PageUp(size + TAGS))
      ensures State().Allocated() == old(State()).Allocated()
      ensures RoundsNeeded(State(), size + TAGS, align) == RoundsNeeded(old(State()), size + TAGS, align) - 1
      ensures index.cur + RoundsNeeded(State(), size + TAGS, align) + 1 < index.arr.Length
      ensures end + Growth(State(), size + TAGS, align) <= mem.Length
      ensures FramesFor(pages[..], frames.Used(), frames.Count(), end, end + Growth(State(), size + TAGS, align))
      ensures 0 <= Shortfall(State(), size + TAGS, align) < old(Shortfall(State(), size + TAGS, align))
      ensures Preserves(old(mem[..]), mem[..], old(State()).Allocated())
      ensures Grown(old(pages[..]), old(frames.Used()), pages[..], frames.Used(), PageNo(old(end)), PageNo(end),
                    supervisor, !readonly)
    {
      hide Tiled, Holes, Live, Len, Sized, Separated, Agree, AgreeOutside, Extended, TopAt, U32At, OwnFrames,
        AllMapped, PageUp, Fits, Shortfall, Gap, Growth, SomeFit, RoundsNeeded, FitsAt, Preserves, Layout.Allocated,
        Grown, PageNo, UsedIn, FramesFor;
      ghost var s, m0, live := State(), mem[..], index.Live();
      ghost var p, used, oldEnd := pages[..], frames.Used(), end;
      ValidState();
      assert forall k :: 0 <= k < |live| ==> live[k] == index.Live()[k];
      NoneFits(m0, s, live, size + TAGS, align);
      RoundsStep(s, size + TAGS, align);
      ExtendProgress(s, size + TAGS, align);
      ExtendKeeps(s, PageUp(size + TAGS));
      PagesInOrder(end, end + PageUp(size + TAGS), end + Growth(s, size + TAGS, align));
      FramesForPart(p, used, frames.Count(), end, end + PageUp(size + TAGS), end + Growth(s, size + TAGS, align));
      Extend(size + TAGS);
      FramesForRest(p, used, pages[..], frames.Used(), frames.Count(), oldEnd, end,
                    oldEnd + Growth(s, size + TAGS, align), supervisor, !readonly);
      ExtendPreserves(m0, mem[..], s, PageUp(size + TAGS));
    }

    method DropUnlessFront(iter: nat, pos: int, front: bool)
      requires index.Valid() && iter < index.cur && index.Live()[iter] == pos
      modifies index, index.arr
      ensures index.Valid() && index.cur <= old(index.cur)
      ensures DroppedUnless(old(index.Live()), iter, front, index.Live())
      ensures multiset(index.Live()) + multiset{pos}
              == old(multiset(index.Live())) + (if front then multiset{pos} else multiset{})
    {
      hide Removed;
      if !front {
        RemoveTakesOne(index.Live(), iter);
        index.Remove(iter);
      }
    }

    /** Takes the hole out of the index unless a front hole keeps its place, and adds the
        trailing hole. */
    method Reindex(iter: nat, pos: int, gap: int, tail: int, left: int)
      requires index.Valid() && iter < index.cur && index.cur + 1 < index.arr.Length
      requires index.Live()[iter] == pos && Apart(mem, index.arr, frames.bits, pages)
      modifies index, index.arr
      ensures index.Valid() && AfterCarving(old(index.Live()), iter, gap, tail, left, index.Live())
      ensures multiset(index.Live()) + multiset{pos}
              == old(multiset(index.Live())) + (if gap > 0 then multiset{pos} else multiset{})
                 + (if left >= TAGS then multiset{tail} else multiset{})
    {
      hide *;
      ghost var live := index.Live();
      DropUnlessFront(iter, pos, gap > 0);
      ghost var kept := index.Live();
      if left >= TAGS {
        AddToIndex(tail);
      }
      CarvedInOrder(live, iter, gap, tail, left, kept, index.Live());
    }

    /** The index of Carve. */
    method CarveIndex(iter: nat, pos: int, holeSize: int, gap: int, need: int)
      requires index.Valid() && iter < index.cur && index.cur + 1 < index.arr.Length
      requires index.Live()[iter] == pos && Apart(mem, index.arr, frames.bits, pages)
      requires (gap == 0 || gap >= TAGS) && need >= TAGS && gap + need <= holeSize
      modifies index, index.arr
      ensures index.Valid()
      ensures AfterCarving(old(index.Live()), iter, gap, pos + gap + need, holeSize - gap - need, index.Live())
      ensures multiset(index.Live()) + multiset{pos}
              == old(multiset(index.Live())) + multiset(Holes(pos, Carved(holeSize, gap, need)))
    {
      hide *;
      CarvedHoles(holeSize, gap, need, pos);
      ghost var was := multiset(index.Live());
      Reindex(iter, pos, gap, pos + gap + need, holeSize - gap - need);
      SumRegroup(was, if gap > 0 then multiset{pos} else multiset{},
                 if holeSize - gap - need >= TAGS then multiset{pos + gap + need} else multiset{});
    }

    /** The tags and the index of Carve. */
    method SplitHole(iter: nat, size: int, align: bool, ghost i: nat, ghost s: Layout) returns (p: int)
      requires s.Valid() && 0 < s.start && s.end <= mem.Length < TWO32 && Apart(mem, index.arr, frames.bits, pages)
      requires Tiled(mem[..], s.start, s.blocks)
      requires index.Valid() && multiset(index.Live()) == multiset(Holes(s.start, s.blocks))
      requires size >= 0 && iter < index.cur && index.cur + 1 < index.arr.Length
      requires Splits(s.start, s.blocks, index.Live()[iter], i)
      requires Fits(s.blocks, s.start, i, size + TAGS, align)
      modifies mem, index, index.arr
      ensures p == PtrAt(s, i, align)
      ensures Tiled(mem[..], s.start, CarvedState(s, i, size + TAGS, align).blocks)
      ensures index.Valid()
      ensures multiset(index.Live()) == multiset(Holes(s.start, CarvedState(s, i, size + TAGS, align).blocks))
      ensures AgreeOutside(old(mem[..]), mem[..], old(index.Live()[iter]), old(index.Live()[iter]) + s.blocks[i].size)
    {
      hide AfterCarving, Tiled, Holes, Live, Len, Sized, Separated, Agree, AgreeOutside, Carved;
      var need := size + TAGS;
      var pos := index.Find(iter);
      assert pos == index.Live()[iter];
      HoleBlock(mem[..], s, i);
      var holeSize := LoadU32(mem, pos + 8);
      var gap := Gap(pos, align);
      CarveTags(mem, pos, holeSize, gap, need);
      ghost var m := mem[..];
      CarveIndex(iter, pos, holeSize, gap, need);
      assert mem[..] == m;
      p := pos + gap + HEADER;
      CarveTiled(old(mem[..]), m, s, i, gap, need);
      CancelOne(multiset(index.Live()), multiset(Holes(s.start, CarveAt(s.blocks, i, gap, need))), pos);
    }

    /** Carves the hole in slot `iter` of the index (lines 164-212). Departure "aligned
        split": the front hole is exactly the gap, and the test for a rest too small to
        use is made on what is left above the gap. Departure "trailing footer": it goes
        to the end of the trailing hole. */
    method Carve(iter: nat, size: int, align: bool, ghost i: nat) returns (p: int)
      requires Valid() && size >= 0 && iter < index.cur && index.cur + 1 < index.arr.Length
      requires Splits(start, blocks, index.Live()[iter], i)
      requires Fits(blocks, start, i, size + TAGS, align)
      modifies this`blocks, mem, index, index.arr
      ensures Valid() && CarveStep(old(State()), State(), i, size + TAGS, align, p)
      ensures AgreeOutside(old(mem[..]), mem[..], old(index.Live()[iter]), old(index.Live()[iter] + blocks[i].size))
    {
      hide Tiled, Holes, Live, Len, Sized, Separated, Agree, AgreeOutside, U32At, OwnFrames, AllMapped, Carved;
      ghost var s := State();
      ValidState();
      p := SplitHole(iter, size, align, i, s);
      blocks := CarveAt(blocks, i, Gap(s.start + Len(s.blocks[..i]), align), size + TAGS);
      ghost var used := CarveKeeps(s, State(), i, size + TAGS, align, p);
      assert pages[..] == old(pages[..]) && frames.bits[..] == old(frames.bits[..]);
    }

    /** Carves the hole that the search stopped at. */
    method CarveFirst(iter: nat, size: nat, align: bool) returns (p: int)
      requires Valid() && iter < index.cur && index.cur + 1 < index.arr.Length
      requires FitsAt(mem[..], index.Live()[iter], size + TAGS, align)
      requires forall k :: 0 <= k < iter ==> !FitsAt(mem[..], index.Live()[k], size + TAGS, align)
      modifies this`blocks, mem, index, index.arr
      ensures Valid() && RoundsNeeded(old(State()), size + TAGS, align) == 0
      ensures AllocStep(old(State()), State(), size + TAGS, align, p, 0)
      ensures FirstPlace(old(mem[..]), old(index.Live()), size + TAGS, align, p)
      ensures Preserves(old(mem[..]), mem[..], old(State()).Allocated())
      ensures Grown(old(pages[..]), old(frames.Used()), pages[..], frames.Used(), PageNo(old(end)), PageNo(end),
                    supervisor, !readonly)
    {
      hide Tiled, Holes, Live, Len, Sized, Separated, Agree, AgreeOutside, U32At, OwnFrames, AllMapped,
        Fits, CarvedState, PtrAt, Gap, SomeFit, RoundsNeeded, FitsAt, Preserves, Layout.Allocated, Grown, UsedIn;
      ghost var s, m0, live := State(), mem[..], index.Live();
      ValidState();
      ghost var i := HoleAt(live[iter]);
      ThisFits(m0, s, i, size + TAGS, align);
      FirstFitPlaces(m0, live, iter, size + TAGS, align);
      PtrIs(s, i, align, live[iter]);
      p := Carve(iter, size, align, i);
      CarvePreserves(m0, mem[..], s, i);
      assert pages[..] == old(pages[..]) && frames.bits[..] == old(frames.bits[..]) && end == old(end);
      GrownNone(pages[..], frames.Used(), PageNo(end), supervisor, !readonly);
      assert CarveStep(s, State(), i, size + TAGS, align, p);
    }

    /** alloc. The address space, the index and the frames must have room for the rounds
        that are needed; the text checks none of the three. */
    method Alloc(size: nat, align: bool) returns (p: int, ghost rounds: nat)
      requires Valid()
      requires index.cur + RoundsNeeded(State(), size + TAGS, align) + 1 < index.arr.Length
      requires end + Growth(State(), size + TAGS, align) <= mem.Length
      requires FramesFor(pages[..], frames.Used(), frames.Count(), end, end + Growth(State(), size + TAGS, align))
      modifies this`end, this`blocks, mem, index, index.arr, frames.bits, pages
      ensures Valid() && rounds == RoundsNeeded(old(State()), size + TAGS, align)
      ensures AllocStep(old(State()), State(), size + TAGS, align, p, rounds)
      ensures if rounds == 0 then FirstPlace(old(mem[..]), old(index.Live()), size + TAGS, align, p)
              else NoPlaces(old(mem[..]), old(index.Live()), size + TAGS, align)
      ensures Preserves(old(mem[..]), mem[..], old(State()).Allocated())
      ensures Grown(old(pages[..]), old(frames.Used()), pages[..], frames.Used(), PageNo(old(end)), PageNo(end),
                    supervisor, !readonly)
      decreases Shortfall(State(), size + TAGS, align)
    {
      hide *;
      ghost var s, m0 := State(), mem[..];
      ghost var p0, u0, e0 := pages[..], frames.Used(), end;
      var iter := FindHoleFitFirst(size + TAGS, align);
      if iter == -1 {
        ExtendFor(size, align);
        ghost var m1, p1, u1, e1 := mem[..], pages[..], frames.Used(), end;
        ghost var more: nat;
        p, more := Alloc(size, align);
        rounds := more + 1;
        OneRoundMore(s, State(), size + TAGS, align, p, more);
        PreservesTrans(m0, m1, mem[..], s.Allocated());
        GrownTrans(p0, u0, p1, u1, pages[..], frames.Used(), PageNo(e0), PageNo(e1), PageNo(end), supervisor,
                   !readonly);
      } else {
        p := CarveFirst(iter, size, align);
        rounds := 0;
      }
    }

    /** free_frame on the page entry of one heap page. */
    method UnmapPage(k: nat)
      requires k < pages.Length && Shape() && OwnFrames(pages[..], frames.Used())
      modifies frames.bits, pages
      ensures OwnFrames(pages[..], frames.Used())
      ensures UnmappedAt(old(pages[..]), old(frames.Used()), pages[..], frames.Used(), k)
    {
      var page := FreeFrame(frames, pages[k]);
      pages[k] := page;
    }

    /** contract: unmaps the pages above the new length, one page short: the page at the
        new end stays mapped. */
    method Contract(newSize: int) returns (size: int)
      requires Shape() && PagesOk() && end % PAGE == 0 && ContractLen(newSize) <= end - start && end <= mem.Length
      modifies this`end, frames.bits, pages
      ensures size == ContractLen(newSize) && end == start + size && PagesOk()
      ensures mem[..] == old(mem[..]) && (old(index.Valid()) ==> index.Valid() && index.Live() == old(index.Live()))
      ensures Shrunk(old(pages[..]), old(frames.Used()), pages[..], frames.Used(), PageNo(end) + 1, PageNo(old(end)))
    {
      hide OwnFrames, AllMapped, ContractLen, Shrunk, UnmappedAt;
      size := ContractLen(newSize);
      var i := end - start - PAGE;
      ghost var hi, stop := PageNo(end), PageNo(start + size);
      ghost var lo := hi;
      ghost var p, used := pages[..], frames.Used();
      ShrunkNone(p, used, hi, hi);
      while size < i
        modifies frames.bits, pages
        invariant start + i == (lo - 1) * PAGE && start + size == stop * PAGE && stop <= lo <= hi
        invariant stop < lo || stop == hi
        invariant OwnFrames(pages[..], frames.Used())
        invariant Shrunk(p, used, pages[..], frames.Used(), lo, hi)
      {
        assert (start + i) / PAGE == lo - 1;
        ghost var q, now := pages[..], frames.Used();
        UnmapPage((start + i) / PAGE);
        ShrunkStep(p, used, q, now, pages[..], frames.Used(), lo, hi);
        i := i - PAGE;
        lo := lo - 1;
      }
      ghost var pagesNow, bitsNow := pages[..], frames.bits[..];
      assert mem[..] == old(mem[..]) && index.arr[..] == old(index.arr[..]);
      ShrunkMapped(p, used, pagesNow, frames.Used(), lo, start, start + size, end);
      end := start + size;
      assert pages[..] == pagesNow && frames.bits[..] == bitsNow;
    }

    /** Marks the block as a hole and joins it to the block before it if that is a hole. */
    method MarkAndJoinLeft(header: int, ghost s: Layout, ghost i: nat) returns (h: int, after: int, add: bool)
      requires s.Valid() && s.start == start && s.end <= mem.Length < TWO32 && 0 < start
      requires Tiled(mem[..], start, s.blocks) && i < |s.blocks| && !s.blocks[i].hole
      requires header == start + Len(s.blocks[..i])
      modifies mem
      ensures Tiled(mem[..], start, LeftMerged(s.blocks, i))
      ensures h == start + Len(s.blocks[..FreedIndex(s.blocks, i)])
      ensures after == start + Len(s.blocks[..i + 1]) && add == !HoleBefore(s.blocks, i)
      ensures AgreeOutside(old(mem[..]), mem[..], h, after)
    {
      hide Tiled, Len, Sized, Separated, Agree, AgreeOutside, U32At, MarkedAt;
      ghost var bs, marked := s.blocks, MarkedAt(s.blocks, i);
      StretchBlock(mem[..], start, bs, i);
      MarkedPrefix(start, bs, i);
      var size := LoadU32(mem, header + 8);
      after := header + size;
      MarkHole(mem, header, start, bs, i);
      ghost var m1 := mem[..];
      h, add := header, true;
      if header > start {
        var joins, prev := HoleEndsAt(mem, header, start, marked, i - 1);
        if joins {
          JoinAt(mem, prev, header, start, marked, i - 1);
          h, add := prev, false;
          PrefixStep(bs, i - 1);
          OutsideTrans(old(mem[..]), m1, mem[..], header, after, prev, after, prev, after);
        }
      }
    }

    /** Joins block k of the blocks l, a hole, to the block after it if that is a hole. */
    method JoinRight(h: int, after: int, ghost l: seq<Block>, ghost k: nat) returns (stop: int, gone: int)
      requires 0 < start && end <= mem.Length < TWO32 && start + Len(l) == end
      requires Tiled(mem[..], start, l) && k < |l| && l[k].hole
      requires h == start + Len(l[..k]) && after == start + Len(l[..k + 1])
      modifies mem
      ensures var joins := k + 1 < |l| && l[k + 1].hole;
              var m := if joins then Joined(l, k) else l;
              && Tiled(mem[..], start, m) && k < |m| && stop == h + m[k].size >= after && m[k].hole && m[..k] == l[..k]
              && gone == (if joins then after else 0)
      ensures AgreeOutside(old(mem[..]), mem[..], h, stop)
    {
      hide Tiled, Len, Agree, AgreeOutside, U32At;
      StretchBlock(mem[..], start, l, k);
      OutsideSame(mem[..], h, after);
      stop, gone := after, 0;
      if after < end {
        StretchBlock(mem[..], start, l, k + 1);
        var joins := HoleStartsAt(mem, after, start, l, k + 1);
        if joins {
          var size := LoadU32(mem, after + 8);
          JoinAt(mem, h, after, start, l, k);
          stop, gone := after + size, after;
        }
      }
    }

    /** The tags of free up to the test for the heap end (lines 219-249): marks the block
        and joins it to the holes on its two sides. Returns the header of the merged hole,
        its end, the header of the hole after it that went away, if any (0 otherwise), and
        whether the merged hole is new to the index. */
    method Coalesce(p: int, ghost s: Layout, ghost i: nat) returns (h: int, stop: int, gone: int, add: bool)
      requires s.Valid() && s.start == start && s.end == end <= mem.Length < TWO32 && 0 < start
      requires Tiled(mem[..], start, s.blocks) && i < |s.blocks| && !s.blocks[i].hole
      requires p == start + Len(s.blocks[..i]) + HEADER
      modifies mem
      ensures Tiled(mem[..], start, FreedAt(s.blocks, i))
      ensures var m, k := FreedAt(s.blocks, i), FreedIndex(s.blocks, i);
              && k < |m| && m[k].hole
              && h == start + Len(m[..k]) && h == start + Len(s.blocks[..k]) && stop == h + m[k].size
      ensures add == !HoleBefore(s.blocks, i)
      ensures gone == if HoleAfter(s.blocks, i) then start + Len(s.blocks[..i + 1]) else 0
      ensures AgreeOutside(old(mem[..]), mem[..], h, stop)
    {
      hide Tiled, Len, Sized, Separated, AgreeOutside, U32At, BlockAt, LeftMerged, FreedAt, Joined;
      var after;
      h, after, add := MarkAndJoinLeft(p - HEADER, s, i);
      ghost var m1 := mem[..];
      ghost var l, k := LeftMerged(s.blocks, i), FreedIndex(s.blocks, i);
      StepsAreFreedAt(s.blocks, i);
      LeftHoles(start, s.blocks, i);
      PrefixStep(l, k);
      if i + 1 < |s.blocks| {
        assert l[k + 1..][0] == s.blocks[i + 1..][0];
      }
      stop, gone := JoinRight(h, after, l, k);
      OutsideTrans(old(mem[..]), m1, mem[..], h, after, h, stop, h, stop);
    }

    /** The search and removal of lines 245-251 and 265-272. */
    method DropFromIndex(a: int)
      requires index.Valid() && a in index.Live()
      modifies index, index.arr
      ensures index.Valid() && index.cur == old(index.cur) - 1
      ensures exists k: nat :: k < |old(index.Live())| && old(index.Live())[k] == a
                && index.Live() == Removed(old(index.Live()), k)
      ensures multiset(index.Live()) + multiset{a} == old(multiset(index.Live()))
    {
      var iter := 0;
      while iter < index.cur && index.Find(iter) != a
        invariant 0 <= iter <= index.cur
        invariant forall k :: 0 <= k < iter ==> index.Live()[k] != a
      {
        assert index.Find(iter) == index.Live()[iter];
        iter := iter + 1;
      }
      assert iter < index.cur && index.Find(iter) == index.Live()[iter];
      RemoveTakesOne(index.Live(), iter);
      index.Remove(iter);
    }

    /** Takes the hole that was joined from the right out of the index. */
    method DropGone(h: int, gone: int, add: bool, ghost s: Layout, ghost i: nat)
      requires s.Valid() && s.start == start && Shape()
      requires i < |s.blocks| && !s.blocks[i].hole && h == start + Len(s.blocks[..FreedIndex(s.blocks, i)])
      requires add == !HoleBefore(s.blocks, i)
      requires gone == if HoleAfter(s.blocks, i) then start + Len(s.blocks[..i + 1]) else 0
      requires index.Valid() && multiset(index.Live()) == multiset(Holes(start, s.blocks))
      requires index.cur + 1 < index.arr.Length
      modifies index, index.arr
      ensures index.Valid() && index.cur + 1 < index.arr.Length
      ensures multiset(index.Live()) + (if add then multiset{h} else multiset{})
              == multiset(Holes(start, FreedAt(s.blocks, i)))
      ensures mem[..] == old(mem[..]) && pages[..] == old(pages[..]) && frames.Used() == old(frames.Used())
      ensures PagesOk() == old(PagesOk())
    {
      hide Holes, Len, Sized, Separated, FreedAt, FreedIndex, OwnFrames, AllMapped, UsedIn;
      FreedHoles(start, s.blocks, i);
      if HoleAfter(s.blocks, i) {
        HoleListed(start, s.blocks, i + 1);
        assert gone in multiset(Holes(start, s.blocks));
        HolesAbove(start, s.blocks, gone);
      }
      if gone != 0 {
        DropFromIndex(gone);
        CancelOne(multiset(index.Live()) + (if add then multiset{h} else multiset{}),
                  multiset(Holes(start, FreedAt(s.blocks, i))), gone);
      }
      assert mem[..] == old(mem[..]) && pages[..] == old(pages[..]) && frames.bits[..] == old(frames.bits[..]);
    }

    /** Gives the last hole a new, smaller size. */
    method ShortenTop(h: int, size: int, ghost x: seq<Block>, ghost b: Block)
      requires Tiled(mem[..], start, x + [b]) && b.hole && TAGS <= size <= b.size && 0 < start
      requires h == start + Len(x) && h + b.size <= mem.Length < TWO32
      modifies mem
      ensures Tiled(mem[..], start, x + [Block(size, true)])
      ensures AgreeOutside(old(mem[..]), mem[..], h, h + b.size)
    {
      hide Tiled, Len, U32At, Agree, AgreeOutside, BlockAt;
      TiledConcat(mem[..], start, x, [b]);
      TiledSingle(mem[..], h, b);
      Resize(mem, h, b, size);
      OutsideSame(mem[..], h, h + b.size);
      OutsideTrans(old(mem[..]), mem[..], mem[..], h, h + size, h, h + b.size, h, h + b.size);
      FrameOutside(old(mem[..]), mem[..], h, h + b.size, start, x);
      TiledSingle(mem[..], h, Block(size, true));
      TiledConcat(mem[..], start, x, [Block(size, true)]);
    }

    /** A vanished hole leaves the index, or is not put into it. */
    method ForgetVanished(h: int, add: bool, ghost others: multiset<int>) returns (pending: bool)
      requires index.Valid() && index.cur + 1 < index.arr.Length
      requires multiset(index.Live()) + (if add then multiset{h} else multiset{}) == others + multiset{h}
      modifies index, index.arr
      ensures index.Valid() && index.cur + 1 < index.arr.Length && !pending && multiset(index.Live()) == others
    {
      hide Removed;
      pending := false;
      if add {
        CancelOne(multiset(index.Live()), others, h);
      } else {
        assert h in others + multiset{h};
        DropFromIndex(h);
        CancelOne(multiset(index.Live()), others, h);
      }
    }

    /** The last hole after contraction, over the blocks x: shorter, or gone. */
    method SettleTop(h: int, size: int, add: bool, ghost x: seq<Block>, ghost b: Block, ghost t: seq<Block>)
      returns (pending: bool)
      requires Shape() && Tiled(mem[..], start, x + [b]) && b.hole && h == start + Len(x)
      requires (size == 0 || size >= TAGS) && size <= b.size && h + b.size <= mem.Length
      requires index.Valid() && index.cur + 1 < index.arr.Length
      requires t == if size > 0 then x + [Block(size, true)] else x
      requires multiset(Holes(start, t)) == multiset(Holes(start, x)) + (if size > 0 then multiset{h} else multiset{})
      requires multiset(index.Live()) + (if add then multiset{h} else multiset{})
               == multiset(Holes(start, x)) + multiset{h}
      modifies mem, index, index.arr
      ensures Tiled(mem[..], start, t)
      ensures index.Valid() && index.cur + 1 < index.arr.Length
      ensures multiset(index.Live()) + (if pending then multiset{h} else multiset{}) == multiset(Holes(start, t))
      ensures AgreeOutside(old(mem[..]), mem[..], h, h + b.size)
      ensures pages[..] == old(pages[..]) && frames.Used() == old(frames.Used()) && PagesOk() == old(PagesOk())
    {
      hide Tiled, Holes, Len, AgreeOutside, OwnFrames, AllMapped, UsedIn;
      if size > 0 {
        ShortenTop(h, size, x, b);
        pending := add;
      } else {
        DropTop(mem[..], start, x, b);
        OutsideSame(mem[..], h, h + b.size);
        pending := ForgetVanished(h, add, multiset(Holes(start, x)));
      }
      assert pages[..] == old(pages[..]) && frames.bits[..] == old(frames.bits[..]);
    }

    /** Contraction of a heap whose last block is the merged hole (lines 254-274). Departure
        "vanished hole": the text looks for another header than that of the vanished hole,
        and still inserts the vanished hole if it is new. */
    method TrimTop(h: int, add: bool, ghost m: seq<Block>) returns (pending: bool)
      requires m != [] && m[|m| - 1].hole && h == start + Len(m[..|m| - 1]) && end == start + Len(m)
      requires Sized(m) && Len(m) % PAGE == 0 && Len(m) >= HEAP_MIN_SIZE
      requires Shape() && PagesOk() && end % PAGE == 0 && 0 <= start && end <= mem.Length && Tiled(mem[..], start, m)
      requires index.Valid() && index.cur + 1 < index.arr.Length
      requires multiset(index.Live()) + (if add then multiset{h} else multiset{}) == multiset(Holes(start, m))
      modifies this`end, mem, index, index.arr, frames.bits, pages
      ensures end == start + Len(Trimmed(m)) && PagesOk() && Tiled(mem[..], start, Trimmed(m))
      ensures index.Valid() && index.cur + 1 < index.arr.Length
      ensures multiset(index.Live()) + (if pending then multiset{h} else multiset{})
              == multiset(Holes(start, Trimmed(m)))
      ensures AgreeOutside(old(mem[..]), mem[..], h, old(end))
      ensures Shrunk(old(pages[..]), old(frames.Used()), pages[..], frames.Used(), PageNo(end) + 1, PageNo(old(end)))
    {
      hide *;
      ghost var n := |m| - 1;
      ghost var x, b := m[..n], m[n];
      TrimFacts(mem[..], start, m);
      var oldLen := end - start;
      var newLen := Contract(h - start);
      var size := oldLen - (h - start);
      size := size - (oldLen - newLen);
      assert size == newLen - Len(x);
      pending := SettleTop(h, size, add, x, b, Trimmed(m));
    }

    /** The index and the heap end after the tags are joined (lines 245-276). */
    method FinishFree(h: int, stop: int, gone: int, add: bool, ghost s: Layout, ghost i: nat)
      requires s.Valid() && s.start == start && s.end == end && Shape() && PagesOk() && end <= mem.Length
      requires i < |s.blocks| && !s.blocks[i].hole && Tiled(mem[..], start, FreedAt(s.blocks, i))
      requires var m, k := FreedAt(s.blocks, i), FreedIndex(s.blocks, i);
               && k < |m| && m[k].hole
               && h == start + Len(m[..k]) && h == start + Len(s.blocks[..k]) && stop == h + m[k].size
      requires add == !HoleBefore(s.blocks, i)
      requires gone == if HoleAfter(s.blocks, i) then start + Len(s.blocks[..i + 1]) else 0
      requires index.Valid() && multiset(index.Live()) == multiset(Holes(start, s.blocks))
      requires index.cur + 1 < index.arr.Length
      modifies this`end, mem, index, index.arr, frames.bits, pages
      ensures end == FreeBlock(s, i).end && Tiled(mem[..], start, FreeBlock(s, i).blocks)
      ensures index.Valid() && multiset(index.Live()) == multiset(Holes(start, FreeBlock(s, i).blocks))
      ensures PagesOk() && AgreeOutside(old(mem[..]), mem[..], h, stop)
      ensures Shrunk(old(pages[..]), old(frames.Used()), pages[..], frames.Used(), PageNo(end) + 1, PageNo(old(end)))
    {
      hide *;
      ghost var m, k := FreedAt(s.blocks, i), FreedIndex(s.blocks, i);
      ShapeFacts();
      FinishFacts(mem[..], s, i);
      DropGone(h, gone, add, s, i);
      OutsideSame(mem[..], h, stop);
      var pending := add;
      if stop == end {
        pending := TrimTop(h, add, m);
      } else {
        ShrunkNot(pages[..], frames.Used(), end);
      }
      if pending {
        AddToIndex(h);
      }
    }

    /** free of a block, from line 219 on. */
    method FreeLive(p: int, ghost e: Extent)
      requires Valid() && index.cur + 1 < index.arr.Length
      requires e in State().Allocated() && e.addr == p - HEADER
      modifies this`end, this`blocks, mem, index, index.arr, frames.bits, pages
      ensures Valid()
      ensures Starts(start, old(blocks), p - HEADER) && State() == Freed(old(State()), p - HEADER)
      ensures Preserves(old(mem[..]), mem[..], old(State()).Allocated() - {e})
      ensures Shrunk(old(pages[..]), old(frames.Used()), pages[..], frames.Used(), PageNo(end) + 1, PageNo(old(end)))
    {
      hide Tiled, Holes, Live, Len, Sized, Separated, Agree, AgreeOutside, U32At, OwnFrames, AllMapped, Preserves,
        Which, FreedAt, FreedIndex, HoleBefore, HoleAfter, Starts, FreeBlock, Shrunk, PageNo, UsedIn;
      ghost var s, m0 := State(), mem[..];
      ValidState();
      ghost var i := LiveIndex(start, blocks, e);
      FreeBlockKeeps(s, i);
      FreePreserves(s, i);
      var h, stop, gone, add := Coalesce(p, s, i);
      assert pages[..] == old(pages[..]) && frames.bits[..] == old(frames.bits[..]);
      ghost var m1 := mem[..];
      FinishFree(h, stop, gone, add, s, i);
      OutsideTrans(m0, m1, mem[..], h, stop, h, stop, h, stop);
      PreservesOutside(m0, mem[..], h, stop, s.Allocated() - {e});
      blocks := FreeBlock(s, i).blocks;
    }

    /** free. Departure "null test": the text assigns where it means to compare. Departure
        "neighbours": the text looks below the heap start and beyond the heap end for a
        neighbour; here a block at either border has none on that side. Departure "right
        merge": a merge with the next block alone still adds the hole to the index. */
    method Free(p: int, ghost e: Extent)
      requires Valid() && index.cur + 1 < index.arr.Length
      requires p != 0 ==> e in State().Allocated() && e.addr == p - HEADER
      modifies this`end, this`blocks, mem, index, index.arr, frames.bits, pages
      ensures Valid()
      ensures p == 0 ==> State() == old(State()) && mem[..] == old(mem[..])
      ensures p != 0 ==> Starts(start, old(blocks), p - HEADER) && State() == Freed(old(State()), p - HEADER)
      ensures p != 0 ==> Preserves(old(mem[..]), mem[..], old(State()).Allocated() - {e})
      ensures Shrunk(old(pages[..]), old(frames.Used()), pages[..], frames.Used(), PageNo(end) + 1, PageNo(old(end)))
    {
      hide *;
      if p == 0 {
        ValidState();
        ShapeFacts();
        ShrunkNot(pages[..], frames.Used(), end);
      } else {
        FreeLive(p, e);
      }
    }
  }
}
