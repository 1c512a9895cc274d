/** The bitmap of physical frames and the two operations on a page entry
    (src/page.c:46-111). */
module Frames {
  import opened Machine

  /** A page_struct. The `unused` bits are not kept; frame 0 doubles as "no frame". */
  datatype Page = Page(valid: bool, rw: bool, user: bool, accessed: bool, dirty: bool, frame: nat)

  const ZERO_PAGE := Page(false, false, false, false, false, 0)

  /** 0x80 >> j: bit j of a byte, most significant first. */
  function Mask(j: nat): bv8
    requires j < 8
  {
    match j
    case 0 => 0x80 case 1 => 0x40 case 2 => 0x20 case 3 => 0x10
    case 4 => 0x08 case 5 => 0x04 case 6 => 0x02 case _ => 0x01
  }

  predicate Bit(b: bv8, j: nat)
    requires j < 8
  {
    b & Mask(j) != 0
  }

  lemma MaskIsShift(j: nat)
    requires j < 8
    ensures Mask(j) == 0x80 >> j
  {
  }

  lemma BitOfSet(b: bv8, j: nat, k: nat)
    requires j < 8 && k < 8
    ensures Bit(b | Mask(j), k) <==> k == j || Bit(b, k)
  {
  }

  lemma BitOfCleared(b: bv8, j: nat, k: nat)
    requires j < 8 && k < 8
    ensures Bit(b & !Mask(j), k) <==> k != j && Bit(b, k)
  {
  }

  lemma FullByte(b: bv8)
    ensures b == 0xFF <==> forall j: nat :: j < 8 ==> Bit(b, j)
  {
    if forall j: nat :: j < 8 ==> Bit(b, j) {
      assert Bit(b, 0) && Bit(b, 1) && Bit(b, 2) && Bit(b, 3);
      assert Bit(b, 4) && Bit(b, 5) && Bit(b, 6) && Bit(b, 7);
    }
  }

  /** The set a bitmap stands for. */
  ghost function UsedIn(bytes: seq<bv8>): set<nat> {
    set f: nat | f < 8 * |bytes| && Bit(bytes[f / 8], f % 8)
  }

  class Bitmap {
    const bits: array<bv8>

    /** How many frames there are. */
    function Count(): nat { 8 * bits.Length }

    /** The frames whose bit is set. */
    ghost function Used(): set<nat>
      reads bits
    {
      UsedIn(bits[..])
    }

    constructor (size: nat)
      ensures fresh(bits) && bits.Length == size && Used() == {}
    {
      bits := new bv8[size](_ => 0);
    }

    /** set_frame */
    method SetFrame(frameAddr: nat)
      requires frameAddr / PAGE < Count()
      modifies bits
      ensures Used() == old(Used()) + {frameAddr / PAGE}
    {
      var frame := frameAddr / PAGE;
      forall k: nat | k < 8
        ensures Bit(bits[frame / 8] | Mask(frame % 8), k) <==> k == frame % 8 || Bit(bits[frame / 8], k) {
        BitOfSet(bits[frame / 8], frame % 8, k);
      }
      bits[frame / 8] := bits[frame / 8] | Mask(frame % 8);
    }

    /** clear_frame */
    method ClearFrame(frameAddr: nat)
      requires frameAddr / PAGE < Count()
      modifies bits
      ensures Used() == old(Used()) - {frameAddr / PAGE}
    {
      var frame := frameAddr / PAGE;
      forall k: nat | k < 8
        ensures Bit(bits[frame / 8] & !Mask(frame % 8), k) <==> k != frame % 8 && Bit(bits[frame / 8], k) {
        BitOfCleared(bits[frame / 8], frame % 8, k);
      }
      bits[frame / 8] := bits[frame / 8] & !Mask(frame % 8);
    }

    /** isIn_frame */
    method IsInFrame(frameAddr: nat) returns (r: bool)
      requires frameAddr / PAGE < Count()
      ensures r <==> frameAddr / PAGE in Used()
    {
      var frame := frameAddr / PAGE;
      r := bits[frame / 8] & Mask(frame % 8) != 0;
    }

    /** first_frame: the least free frame, or -1 exactly when there is none. */
    method FirstFrame() returns (r: int)
      ensures r == -1 ==> forall f: nat :: f < Count() ==> f in Used()
      ensures r == -1 || (0 <= r < Count() && IsLeastFree(r, Used()))
    {
      var i := 0;
      while i < bits.Length
        invariant i <= bits.Length
        invariant forall f: nat :: f < 8 * i ==> f in Used()
      {
        if bits[i] == 0xFF {
          FullByte(bits[i]);
        } else {
          var j := 0;
          while j < 8
            invariant j <= 8
            invariant forall f: nat :: f < 8 * i + j ==> f in Used()
          {
            if !Mask(j) | bits[i] != 0xFF {
              assert !Bit(bits[i], j);
              assert i * 8 + j !in Used();
              return i * 8 + j;
            }
            assert Bit(bits[i], j);
            j := j + 1;
          }
        }
        i := i + 1;
      }
      return -1;
    }
  }

  ghost predicate IsLeastFree(f: nat, used: set<nat>) {
    f !in used && forall g: nat :: g < f ==> g in used
  }

  /** alloc_frame: an entry that already has a frame is left alone. The text only
      warns when no frame is free, so a free frame is required (see TextWithoutFrameIff). */
  method AllocFrame(bm: Bitmap, page: Page, isKernel: bool, isWritable: bool) returns (p: Page)
    requires page.frame == 0 ==> exists f: nat :: f < bm.Count() && f !in bm.Used()
    modifies bm.bits
    ensures page.frame != 0 ==> p == page && bm.Used() == old(bm.Used())
    ensures page.frame == 0 ==>
              && p == Page(true, isWritable, !isKernel, page.accessed, page.dirty, p.frame)
              && p.frame < bm.Count() && IsLeastFree(p.frame, old(bm.Used()))
              && bm.Used() == old(bm.Used()) + {p.frame}
  {
    if page.frame != 0 {
      return page;
    }
    var frame := bm.FirstFrame();
    assert frame != -1 by {
      var f: nat :| f < bm.Count() && f !in bm.Used();
    }
    bm.SetFrame(frame * PAGE);
    p := page.(valid := true, rw := isWritable, user := !isKernel, frame := frame);
  }

  /** Departure "no frame": with every frame in use first_frame returns -1, and the text goes on
      with it. The byte it then sets is that of frame 0xFFFFF, which is part of the bitmap
      only if that covers the whole address space. */
  lemma TextWithoutFrameIff(bm: Bitmap)
    ensures var frame := Wrap(0xFFFF_FFFF * PAGE) / PAGE;
            frame == 0xF_FFFF && (frame / 8 < bm.bits.Length <==> bm.Count() >= 0x10_0000)
  {
  }

  /** free_frame. Departure "clear takes an address": the text passes the frame number
      where clear_frame takes an address (see TextClearsFrameZero). The entry stays
      valid, as in the text. */
  method FreeFrame(bm: Bitmap, page: Page) returns (p: Page)
    requires page.frame < bm.Count()
    modifies bm.bits
    ensures p == page.(frame := 0)
    ensures bm.Used() == if page.frame == 0 then old(bm.Used()) else old(bm.Used()) - {page.frame}
  {
    if page.frame == 0 {
      return page;
    }
    bm.ClearFrame(page.frame * PAGE);
    p := page.(frame := 0);
  }

  /** Passing the number of a frame as its address clears the bit of another frame,
      for every frame of this machine (frame numbers have 20 bits): the text frees
      the right frame exactly for the frame 0 that free_frame never passes. */
  lemma TextClearsFrameZero(frame: nat, used: set<nat>)
    requires frame in used && 0 in used
    ensures used - {frame / PAGE} == used - {frame} <==> frame == 0
  {
    if frame != 0 {
      assert frame / PAGE < frame;
      assert frame in used - {frame / PAGE};
    }
  }

  /** How many of the entries lo to hi - 1 hold a frame. */
  function CountFrames(pages: seq<Page>, lo: int, hi: int): (n: nat)
    requires 0 <= lo && hi <= |pages|
    ensures lo <= hi ==> n <= hi - lo
    decreases hi - lo
  {
    if hi <= lo then 0 else CountFrames(pages, lo, hi - 1) + (if pages[hi - 1].frame != 0 then 1 else 0)
  }

  /** A set of numbers below n with fewer than n members misses one. */
  lemma {:induction false} SomeFree(used: set<nat>, n: nat)
    requires |used| < n
    ensures exists f: nat :: f < n && f !in used
  {
    if n - 1 in used {
      if forall f: nat :: f < n ==> f in used {
        SomeFree(used - {n - 1}, n - 1);
        assert false;
      }
    }
  }
}
