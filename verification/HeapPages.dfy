/** The page entries of the heap and the frames behind them: which pages and which bits an
    expansion takes and a contraction gives back (src/kheap.c:81-117). */
module HeapPages {
  import opened Machine
  import opened Frames

  /** Page entries with a frame hold a frame of their own, whose bit is set. */
  ghost predicate OwnFrames(pages: seq<Page>, used: set<nat>) {
    && 0 in used
    && (forall k :: 0 <= k < |pages| && pages[k].frame != 0 ==> pages[k].frame in used)
    && (forall j, k :: 0 <= j < k < |pages| && pages[j].frame != 0 ==> pages[k].frame != pages[j].frame)
  }

  /** The number of the page at an address. */
  function PageNo(a: int): int { a / PAGE }

  /** Every page of the page-aligned range [lo, hi) has a frame. */
  ghost predicate AllMapped(pages: seq<Page>, lo: int, hi: int) {
    forall k :: 0 <= k < |pages| && PageNo(lo) <= k < PageNo(hi) ==> pages[k].frame != 0
  }

  /** The frames that the pages numbered lo to hi - 1 hold. */
  ghost function FramesIn(pages: seq<Page>, lo: int, hi: int): set<nat> {
    set k | 0 <= k < |pages| && lo <= k < hi && pages[k].frame != 0 :: pages[k].frame
  }

  /** The frames in use leave one for every page of [from, to) that has none. */
  ghost predicate FramesFor(pages: seq<Page>, used: set<nat>, count: nat, from: int, to: int) {
    && 0 <= PageNo(from) <= PageNo(to) <= |pages|
    && |used| + (PageNo(to) - PageNo(from)) - CountFrames(pages, PageNo(from), PageNo(to)) <= count
  }

  /** Pages lo to hi - 1 have frames: those that had one keep it, the others take one that
      was free. No other page and no other bit changes. */
  ghost predicate Grown(p: seq<Page>, used: set<nat>, q: seq<Page>, now: set<nat>, lo: int, hi: int, kernel: bool,
                        writable: bool) {
    && 0 <= lo <= hi <= |p| == |q|
    && (forall k :: 0 <= k < |p| ==> NowMapped(p[k], used, q[k], lo <= k < hi, kernel, writable))
    && now == used + FramesIn(q, lo, hi)
    && |now| == |used| + (hi - lo) - CountFrames(p, lo, hi)
  }

  /** alloc_frame on one entry, or no change. */
  ghost predicate NowMapped(p: Page, used: set<nat>, q: Page, takes: bool, kernel: bool, writable: bool) {
    if !takes || p.frame != 0 then q == p
    else q == Page(true, writable, !kernel, p.accessed, p.dirty, q.frame) && q.frame != 0 && q.frame !in used
  }

  /** Pages lo to hi - 1 have lost their frames, and the bits of those frames are free. No
      other page and no other bit changes. */
  ghost predicate Shrunk(p: seq<Page>, used: set<nat>, q: seq<Page>, now: set<nat>, lo: int, hi: int) {
    && 0 <= lo && hi <= |p| == |q|
    && (forall k :: 0 <= k < |p| ==> q[k] == if lo <= k < hi then p[k].(frame := 0) else p[k])
    && now == used - FramesIn(p, lo, hi)
    && |now| == |used| - CountFrames(p, lo, hi)
  }

  /** alloc_frame and free_frame on the entry of page k. */
  ghost predicate MappedAt(p: seq<Page>, used: set<nat>, q: seq<Page>, now: set<nat>, k: int, kernel: bool,
                           writable: bool) {
    && 0 <= k < |p| == |q| && q == p[k := q[k]] && NowMapped(p[k], used, q[k], true, kernel, writable)
    && now == used + {q[k].frame}
  }

  ghost predicate UnmappedAt(p: seq<Page>, used: set<nat>, q: seq<Page>, now: set<nat>, k: int) {
    && 0 <= k < |p| == |q| && q == p[k := p[k].(frame := 0)]
    && now == if p[k].frame == 0 then used else used - {p[k].frame}
  }

  lemma GrownNone(p: seq<Page>, used: set<nat>, lo: int, kernel: bool, writable: bool)
    requires 0 <= lo <= |p|
    ensures Grown(p, used, p, used, lo, lo, kernel, writable)
  {
  }

  /** What an expansion does to an entry: one without a frame that lies in the range gets one that
      was free, is valid, and writable and a user page as the heap asks; others stay. */
  lemma GrownPage(p: seq<Page>, used: set<nat>, q: seq<Page>, now: set<nat>, lo: int, hi: int, kernel: bool,
                  writable: bool, k: nat)
    requires Grown(p, used, q, now, lo, hi, kernel, writable) && k < |p|
    ensures lo <= k < hi && p[k].frame == 0 ==>
              && q[k].valid && q[k].rw == writable && q[k].user == !kernel && q[k].accessed == p[k].accessed
              && q[k].dirty == p[k].dirty && q[k].frame != 0 && q[k].frame !in used && q[k].frame in now
    ensures !(lo <= k < hi && p[k].frame == 0) ==> q[k] == p[k]
    ensures p[k].frame == 0 ==> (q[k].frame != 0 <==> lo <= k < hi)
  {
    hide CountFrames;
    assert NowMapped(p[k], used, q[k], lo <= k < hi, kernel, writable);
  }

  /** And a contraction: an entry in the range loses its frame, whose bit is cleared, and nothing
      else; others stay. */
  lemma ShrunkPage(p: seq<Page>, used: set<nat>, q: seq<Page>, now: set<nat>, lo: int, hi: int, k: nat)
    requires Shrunk(p, used, q, now, lo, hi) && k < |p|
    ensures q[k] == if lo <= k < hi then p[k].(frame := 0) else p[k]
    ensures lo <= k < hi && p[k].frame != 0 ==> p[k].frame !in now
    ensures forall f :: f in used && f !in now ==> exists j :: lo <= j < hi && 0 <= j < |p| && p[j].frame == f
  {
    hide CountFrames;
  }

  lemma GrownCount(p: seq<Page>, used: set<nat>, q: seq<Page>, now: set<nat>, lo: int, hi: int, kernel: bool,
                   writable: bool)
    requires Grown(p, used, q, now, lo, hi, kernel, writable)
    ensures 0 <= lo <= hi <= |p| == |q| && used <= now && |used| <= |now| <= |used| + (hi - lo)
  {
    hide FramesIn, CountFrames;
  }

  /** A frame for each page is enough, and more than it takes. */
  lemma PlentyOfFrames(pages: seq<Page>, used: set<nat>, count: nat, from: int, to: int)
    requires 0 <= from <= to <= PAGE * |pages| && from % PAGE == 0 && to % PAGE == 0
    requires |used| * PAGE + (to - from) <= count * PAGE
    ensures FramesFor(pages, used, count, from, to)
  {
    hide CountFrames;
  }

  lemma GrownBudget(p: seq<Page>, used: set<nat>, q: seq<Page>, now: set<nat>, was: int, stop: int, kernel: bool,
                    writable: bool)
    requires Grown(p, used, q, now, PageNo(was), PageNo(stop), kernel, writable) && was % PAGE == 0 && stop % PAGE == 0
    ensures |now| * PAGE <= |used| * PAGE + (stop - was) && was <= stop
  {
    hide Grown;
    GrownCount(p, used, q, now, PageNo(was), PageNo(stop), kernel, writable);
  }

  /** A part of the way leaves enough for the rest. */
  lemma FramesForRest(p: seq<Page>, used: set<nat>, q: seq<Page>, now: set<nat>, count: nat,
                      was: int, stop: int, to: int, kernel: bool, writable: bool)
    requires FramesFor(p, used, count, was, to) && Grown(p, used, q, now, PageNo(was), PageNo(stop), kernel, writable)
    requires PageNo(stop) <= PageNo(to)
    ensures FramesFor(q, now, count, stop, to)
  {
    hide FramesIn, CountFrames, PageNo;
    CountSplit(p, PageNo(was), PageNo(stop), PageNo(to));
    forall k | PageNo(stop) <= k < PageNo(to) ensures q[k] == p[k] {
      assert NowMapped(p[k], used, q[k], PageNo(was) <= k < PageNo(stop), kernel, writable);
    }
    CountSame(p, q, PageNo(stop), PageNo(to));
  }

  lemma PagesInOrder(a: int, b: int, c: int)
    requires a <= b <= c
    ensures PageNo(a) <= PageNo(b) <= PageNo(c)
  {
  }

  lemma FramesForPart(p: seq<Page>, used: set<nat>, count: nat, from: int, mid: int, to: int)
    requires FramesFor(p, used, count, from, to) && PageNo(from) <= PageNo(mid) <= PageNo(to)
    ensures FramesFor(p, used, count, from, mid)
  {
    CountSplit(p, PageNo(from), PageNo(mid), PageNo(to));
  }

  /** While a page without a frame is still to come, a frame is free. */
  lemma FrameLeft(p: seq<Page>, used: set<nat>, q: seq<Page>, now: set<nat>, hi: int, from: int, to: int, count: nat,
                  kernel: bool, writable: bool)
    requires FramesFor(p, used, count, from, to) && Grown(p, used, q, now, PageNo(from), hi, kernel, writable)
    requires hi < PageNo(to)
    ensures q[hi].frame == 0 ==> exists f: nat :: f < count && f !in now
  {
    hide FramesIn, CountFrames, PageNo;
    assert NowMapped(p[hi], used, q[hi], false, kernel, writable);
    if q[hi].frame == 0 {
      CountSplit(p, PageNo(from), hi, PageNo(to));
      FirstLacks(p, hi, PageNo(to));
      SomeFree(now, count);
    }
  }

  lemma FirstLacks(p: seq<Page>, lo: int, hi: int)
    requires 0 <= lo < hi <= |p| && p[lo].frame == 0
    ensures CountFrames(p, lo, hi) <= hi - lo - 1
  {
    CountSplit(p, lo, lo + 1, hi);
    assert CountFrames(p, lo, lo) == 0;
  }

  lemma GrownMapped(p: seq<Page>, used: set<nat>, q: seq<Page>, now: set<nat>, start: int, was: int, stop: int,
                    kernel: bool, writable: bool)
    requires AllMapped(p, start, was) && Grown(p, used, q, now, PageNo(was), PageNo(stop), kernel, writable)
    ensures AllMapped(q, start, stop)
  {
    hide FramesIn, CountFrames;
    forall k | 0 <= k < |q| && PageNo(start) <= k < PageNo(stop) ensures q[k].frame != 0 {
      assert NowMapped(p[k], used, q[k], PageNo(was) <= k < PageNo(stop), kernel, writable);
    }
  }

  lemma GrownStep(p: seq<Page>, used: set<nat>, q: seq<Page>, now: set<nat>, r: seq<Page>, then': set<nat>,
                  lo: int, n: int, kernel: bool, writable: bool)
    requires OwnFrames(q, now) && Grown(p, used, q, now, lo, n, kernel, writable)
    requires MappedAt(q, now, r, then', n, kernel, writable)
    ensures Grown(p, used, r, then', lo, n + 1, kernel, writable)
  {
    hide NowMapped, FramesIn, CountFrames, OwnFrames;
    forall k | 0 <= k < |p| ensures NowMapped(p[k], used, r[k], lo <= k < n + 1, kernel, writable) {
      assert NowMapped(p[k], used, q[k], lo <= k < n, kernel, writable);
      if k == n {
        StillFree(p[n], used, q[n], now, r[n], kernel, writable);
      }
    }
    TakenNow(q[n], now, r[n], kernel, writable);
    FramesNext(q, r, lo, n);
    assert NowMapped(p[n], used, q[n], false, kernel, writable);
    Untouched(p[n], used, q[n], kernel, writable);
    CountNext(p, q, now, lo, n);
  }

  /** One more page, and one frame more if it had none. */
  lemma CountNext(p: seq<Page>, q: seq<Page>, now: set<nat>, lo: int, n: int)
    requires 0 <= lo <= n < |p| == |q| && OwnFrames(q, now) && p[n] == q[n]
    ensures CountFrames(p, lo, n + 1) == CountFrames(p, lo, n) + (if q[n].frame == 0 then 0 else 1)
    ensures q[n].frame != 0 ==> q[n].frame in now
  {
  }

  lemma StillFree(p: Page, used: set<nat>, q: Page, now: set<nat>, r: Page, kernel: bool, writable: bool)
    requires used <= now && NowMapped(p, used, q, false, kernel, writable)
    requires NowMapped(q, now, r, true, kernel, writable)
    ensures NowMapped(p, used, r, true, kernel, writable)
  {
  }

  lemma TakenNow(q: Page, now: set<nat>, r: Page, kernel: bool, writable: bool)
    requires NowMapped(q, now, r, true, kernel, writable)
    ensures r.frame != 0 && (q.frame == 0 ==> r.frame !in now) && (q.frame != 0 ==> r == q)
  {
  }

  lemma Untouched(p: Page, used: set<nat>, q: Page, kernel: bool, writable: bool)
    requires NowMapped(p, used, q, false, kernel, writable)
    ensures q == p
  {
  }

  lemma FramesNext(q: seq<Page>, r: seq<Page>, lo: int, n: int)
    requires 0 <= lo <= n < |q| == |r| && r == q[n := r[n]] && r[n].frame != 0
    ensures FramesIn(r, lo, n + 1) == FramesIn(q, lo, n) + {r[n].frame}
  {
    assert forall k :: lo <= k < n ==> r[k] == q[k];
  }

  lemma GrownTrans(p: seq<Page>, used: set<nat>, q: seq<Page>, now: set<nat>, r: seq<Page>, then': set<nat>,
                   lo: int, mid: int, hi: int, kernel: bool, writable: bool)
    requires Grown(p, used, q, now, lo, mid, kernel, writable) && Grown(q, now, r, then', mid, hi, kernel, writable)
    ensures Grown(p, used, r, then', lo, hi, kernel, writable)
  {
    hide CountFrames, NowMapped, FramesIn;
    forall k | 0 <= k < |p|
      ensures NowMapped(p[k], used, r[k], lo <= k < hi, kernel, writable)
      ensures (k < lo || k >= mid ==> q[k] == p[k]) && (k < mid ==> r[k] == q[k])
    {
      assert NowMapped(p[k], used, q[k], lo <= k < mid, kernel, writable);
      assert NowMapped(q[k], now, r[k], mid <= k < hi, kernel, writable);
      NowTrans(p[k], used, q[k], now, r[k], lo <= k < mid, mid <= k < hi, kernel, writable);
    }
    FramesJoin(q, r, lo, mid, hi);
    CountSplit(p, lo, mid, hi);
    CountSame(p, q, mid, hi);
  }

  lemma NowTrans(p: Page, used: set<nat>, q: Page, now: set<nat>, r: Page, a: bool, b: bool, kernel: bool,
                 writable: bool)
    requires used <= now && NowMapped(p, used, q, a, kernel, writable) && NowMapped(q, now, r, b, kernel, writable)
    requires !(a && b)
    ensures NowMapped(p, used, r, a || b, kernel, writable) && (!a ==> q == p) && (!b ==> r == q)
  {
  }

  lemma FramesJoin(q: seq<Page>, r: seq<Page>, lo: int, mid: int, hi: int)
    requires 0 <= lo <= mid <= hi <= |q| == |r| && forall k :: 0 <= k < mid ==> r[k] == q[k]
    ensures FramesIn(r, lo, hi) == FramesIn(q, lo, mid) + FramesIn(r, mid, hi)
  {
    assert forall k :: lo <= k < mid ==> r[k].frame == q[k].frame;
  }

  lemma {:induction false} CountSplit(p: seq<Page>, lo: int, mid: int, hi: int)
    requires 0 <= lo <= mid <= hi <= |p|
    ensures CountFrames(p, lo, hi) == CountFrames(p, lo, mid) + CountFrames(p, mid, hi)
    decreases hi - lo
  {
    if mid < hi {
      CountSplit(p, lo, mid, hi - 1);
    }
  }

  lemma {:induction false} CountSame(p: seq<Page>, q: seq<Page>, lo: int, hi: int)
    requires 0 <= lo && hi <= |p| == |q| && forall k :: lo <= k < hi ==> q[k] == p[k]
    ensures CountFrames(p, lo, hi) == CountFrames(q, lo, hi)
    decreases hi - lo
  {
    if lo < hi {
      CountSame(p, q, lo, hi - 1);
    }
  }

  lemma {:induction false} CountAll(p: seq<Page>, lo: int, hi: int)
    requires 0 <= lo <= hi <= |p|
    ensures (forall k :: lo <= k < hi ==> p[k].frame != 0) ==> CountFrames(p, lo, hi) == hi - lo
    ensures (forall k :: lo <= k < hi ==> p[k].frame == 0) ==> CountFrames(p, lo, hi) == 0
    decreases hi - lo
  {
    if lo < hi {
      CountAll(p, lo, hi - 1);
    }
  }

  lemma ShrunkCount(p: seq<Page>, used: set<nat>, q: seq<Page>, now: set<nat>, lo: int, hi: int)
    requires Shrunk(p, used, q, now, lo, hi)
    ensures now <= used && |now| <= |used|
  {
    hide FramesIn, CountFrames;
  }

  lemma ShrunkNone(p: seq<Page>, used: set<nat>, lo: int, hi: int)
    requires 0 <= lo && hi <= lo && hi <= |p|
    ensures Shrunk(p, used, p, used, lo, hi)
  {
  }

  /** What is left is still mapped. The range given up starts above the page at the new
      end, or is empty. */
  lemma ShrunkMapped(p: seq<Page>, used: set<nat>, q: seq<Page>, now: set<nat>, lo: int, start: int, stop: int,
                     was: int)
    requires AllMapped(p, start, was) && Shrunk(p, used, q, now, lo, PageNo(was)) && stop <= was
    requires lo == PageNo(stop) + 1 || lo == PageNo(stop) == PageNo(was)
    ensures AllMapped(q, start, stop) && Shrunk(p, used, q, now, PageNo(stop) + 1, PageNo(was))
  {
    hide CountFrames;
    if lo == PageNo(was) {
      assert FramesIn(p, lo, lo) == {} && FramesIn(p, lo + 1, lo) == {};
      CountNone(p, lo, lo);
      CountNone(p, lo + 1, lo);
    }
  }

  lemma CountNone(p: seq<Page>, lo: int, hi: int)
    requires 0 <= lo && hi <= lo && hi <= |p|
    ensures CountFrames(p, lo, hi) == 0
  {
  }

  /** A heap that keeps its end gives up nothing. */
  lemma ShrunkNot(p: seq<Page>, used: set<nat>, end: int)
    requires 0 <= end <= PAGE * |p|
    ensures Shrunk(p, used, p, used, PageNo(end) + 1, PageNo(end))
  {
    ShrunkNone(p, used, PageNo(end) + 1, PageNo(end));
  }

  lemma ShrunkStep(p: seq<Page>, used: set<nat>, q: seq<Page>, now: set<nat>, r: seq<Page>, then': set<nat>, lo: int,
                   hi: int)
    requires OwnFrames(p, used) && 0 < lo <= hi && Shrunk(p, used, q, now, lo, hi)
    requires UnmappedAt(q, now, r, then', lo - 1)
    ensures Shrunk(p, used, r, then', lo - 1, hi)
  {
    hide FramesIn, CountFrames;
    FramesBelow(p, lo, hi);
    if p[lo - 1].frame != 0 {
      FrameApart(p, used, lo, hi);
    }
  }

  lemma FramesBelow(p: seq<Page>, lo: int, hi: int)
    requires 0 < lo <= hi <= |p|
    ensures FramesIn(p, lo - 1, hi) == FramesIn(p, lo, hi) + (if p[lo - 1].frame == 0 then {} else {p[lo - 1].frame})
    ensures CountFrames(p, lo - 1, hi) == CountFrames(p, lo, hi) + (if p[lo - 1].frame == 0 then 0 else 1)
  {
    CountSplit(p, lo - 1, lo, hi);
    assert CountFrames(p, lo - 1, lo - 1) == 0;
  }

  lemma FrameApart(p: seq<Page>, used: set<nat>, lo: int, hi: int)
    requires OwnFrames(p, used) && 0 < lo <= hi <= |p| && p[lo - 1].frame != 0
    ensures p[lo - 1].frame in used - FramesIn(p, lo, hi)
  {
  }

  /** Contraction to page e leaves page e mapped: k pages given up and taken back cost k - 1
      frames (none for k = 0), the page at e keeps its entry, and in the end as many frames
      are in use as at the start. */
  lemma TakenBack(p: seq<Page>, used: set<nat>, q: seq<Page>, now: set<nat>, r: seq<Page>, then': set<nat>,
                  e: int, hi: int, kernel: bool, writable: bool)
    requires Shrunk(p, used, q, now, e + 1, hi) && Grown(q, now, r, then', e, hi, kernel, writable)
    requires forall k :: e <= k < hi ==> p[k].frame != 0
    ensures |then'| - |now| == (if e < hi then hi - e - 1 else 0) && |then'| == |used| && (e < hi ==> r[e] == p[e])
  {
    hide FramesIn;
    if e < hi {
      assert q[e] == p[e] && forall k :: e + 1 <= k < hi ==> q[k].frame == 0;
      assert NowMapped(q[e], now, r[e], true, kernel, writable);
      CountSplit(q, e, e + 1, hi);
      CountsAfter(p, q, e, hi);
    }
  }

  /** There is always a frame for each page that contract gave up. */
  lemma BackFits(p: seq<Page>, used: set<nat>, q: seq<Page>, now: set<nat>, count: nat, stop: int, was: int)
    requires 0 <= PageNo(stop) <= PageNo(was) && Shrunk(p, used, q, now, PageNo(stop) + 1, PageNo(was))
    requires |used| <= count
    requires forall k :: PageNo(stop) <= k < PageNo(was) ==> p[k].frame != 0
    ensures FramesFor(q, now, count, stop, was)
  {
    hide FramesIn, PageNo;
    var e, hi := PageNo(stop), PageNo(was);
    if e < hi {
      CountsAfter(p, q, e, hi);
    }
  }

  /** A set of numbers below n has at most n members. */
  lemma {:induction false} AtMost(used: set<nat>, n: nat)
    requires forall f :: f in used ==> f < n
    ensures |used| <= n
  {
    if n == 0 {
      assert used == {};
    } else {
      AtMost(used - {n - 1}, n - 1);
    }
  }

  lemma CountsAfter(p: seq<Page>, q: seq<Page>, e: int, hi: int)
    requires 0 <= e < hi <= |p| == |q| && q[e].frame != 0
    requires forall k :: e + 1 <= k < hi ==> q[k].frame == 0 && p[k].frame != 0
    ensures CountFrames(p, e + 1, hi) == hi - e - 1 && CountFrames(q, e, hi) == 1
  {
    CountSplit(q, e, e + 1, hi);
    CountAll(p, e + 1, hi);
    CountAll(q, e + 1, hi);
    assert CountFrames(q, e, e) == 0;
  }
}
