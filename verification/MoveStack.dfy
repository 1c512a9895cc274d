/** move_stack of src/task.c: copies the boot stack and moves what looks like a pointer
    into it. Memory is by words; all the pointers are word-aligned. */
module MoveStack {
  import opened Machine

  /** The two stacks: the old one is [esp, top), the new one ends at newTop and is scanned
      over size bytes. */
  datatype Plan = Plan(newTop: uint32, size: uint32, top: uint32, esp: uint32) {
    /** Aligned, inside memory of n words, and the old stack apart from all that is written. */
    predicate Valid(n: nat) {
      && newTop % 4 == 0 && size % 4 == 0 && top % 4 == 0 && esp % 4 == 0
      && esp <= top && top <= 4 * n <= TWO32 && newTop < 4 * n
      && size <= newTop && top - esp <= newTop
      && (newTop < esp || (top <= newTop - size && top <= newTop - (top - esp)))
    }

    predicate Copies(a: int) { newTop - (top - esp) <= a < newTop }
    predicate Scans(a: int) { newTop - size < a <= newTop }

    /** The copied words: where to, where from, how many. */
    function Dst(): int { (newTop - (top - esp)) / 4 }
    function Src(): int { esp / 4 }
    function Words(): int { (top - esp) / 4 }

    /** How far the stack moves, and the register that holds it. */
    function Delta(): int { newTop - top }
    function Offset(): uint32 { Wrap(newTop - top) }
  }

  /** The value written back for a word: moved if strictly inside the old stack. */
  function Relocated(p: Plan, v: uint32): uint32 {
    if p.esp < v < p.top then Wrap(v + p.Offset()) else v
  }

  /** What the word at index w holds afterwards: the copied or the old word, moved once if
      it is scanned. */
  function MovedWord(m: seq<uint32>, p: Plan, w: nat): uint32
    requires p.Valid(|m|) && w < |m|
  {
    var a := 4 * w;
    var v := if p.Copies(a) then m[(a - p.Delta()) / 4] else m[w];
    if p.Scans(a) then Relocated(p, v) else v
  }

  /** Memory after move_stack. */
  function Moved(m: seq<uint32>, p: Plan): (n: seq<uint32>)
    requires p.Valid(|m|)
    ensures |n| == |m|
  {
    seq(|m|, w requires 0 <= w < |m| => MovedWord(m, p, w))
  }

  /** The 32-bit sum is the exact one: a pointer into the old stack becomes the pointer to
      the same place of the new stack, below its top. */
  lemma RelocationExact(p: Plan, v: uint32, n: nat)
    requires p.Valid(n) && p.esp < v < p.top
    ensures Relocated(p, v) == v + p.Delta() && p.newTop - (p.top - p.esp) < Relocated(p, v) < p.newTop
  {
    OffsetExact(p, v, n);
  }

  method MoveStack(mem: array<uint32>, p: Plan, ebp: uint32) returns (newEsp: uint32, newEbp: uint32)
    requires p.Valid(mem.Length)
    modifies mem
    ensures newEsp == p.newTop - (p.top - p.esp)
    ensures newEbp == Wrap(ebp + p.newTop - p.top)
    ensures p.esp <= ebp <= p.top ==> newEbp == ebp + p.Delta()
    ensures mem[..] == Moved(old(mem[..]), p)
  {
    hide Relocated, Moved, Wrap, Plan.Offset, Plan.Valid, Plan.Dst, Plan.Src, Plan.Words, Plan.Scans;
    var offset := p.Offset();
    newEsp := Wrap(p.esp + offset);
    newEbp := Wrap(ebp + offset);
    CopyBounds(p, mem.Length, newEsp);
    OffsetExact(p, ebp, mem.Length);
    OffsetWraps(p, ebp);
    ghost var m := mem[..];
    CopyWords(mem, newEsp / 4, p.esp / 4, (p.top - p.esp) / 4);
    ghost var copied := mem[..];
    Scan(mem, p);
    CopiedAndScanned(m, copied, mem[..], p);
  }

  lemma CopyBounds(p: Plan, n: nat, newEsp: int)
    requires p.Valid(n) && newEsp == Wrap(p.esp + p.Offset())
    ensures newEsp / 4 == p.Dst() && p.esp / 4 == p.Src() && (p.top - p.esp) / 4 == p.Words()
    ensures 0 <= p.Dst() && 0 <= p.Src() && 0 <= p.Words() && p.Dst() + p.Words() <= n && p.Src() + p.Words() <= n
    ensures p.Dst() + p.Words() <= p.Src() || p.Src() + p.Words() <= p.Dst()
    ensures newEsp == p.newTop - (p.top - p.esp)
  {
    hide Wrap, Plan.Offset;
    OffsetExact(p, p.esp, n);
  }

  lemma CopiedAndScanned(m: seq<uint32>, c: seq<uint32>, n: seq<uint32>, p: Plan)
    requires p.Valid(|m|) && |c| == |n| == |m|
    requires forall w :: 0 <= w < |m| ==>
               var v := if p.Dst() <= w < p.Dst() + p.Words() then w - p.Dst() + p.Src() else w;
               0 <= v < |m| && c[w] == m[v]
    requires forall w :: 0 <= w < |m| ==> n[w] == if p.Scans(4 * w) then Relocated(p, c[w]) else c[w]
    ensures n == Moved(m, p)
  {
    hide Relocated, Plan.Scans;
    forall w | 0 <= w < |m| ensures n[w] == MovedWord(m, p, w) {
      CopiedFrom(p, w, |m|);
    }
  }

  lemma OffsetWraps(p: Plan, v: uint32)
    ensures Wrap(v + p.Offset()) == Wrap(v + p.newTop - p.top)
  {
  }

  lemma OffsetExact(p: Plan, v: uint32, n: nat)
    requires p.Valid(n)
    ensures p.esp <= v <= p.top ==> Wrap(v + p.Offset()) == v + p.Delta()
  {
    if p.esp <= v <= p.top {
      var x := v + p.Delta();
      assert 0 <= x < TWO32;
      assert (v + p.Offset()) % TWO32 == x % TWO32;
    }
  }

  lemma CopiedFrom(p: Plan, w: nat, n: nat)
    requires p.Valid(n)
    ensures p.Copies(4 * w)
            <==> (p.newTop - (p.top - p.esp)) / 4 <= w < (p.newTop - (p.top - p.esp)) / 4 + (p.top - p.esp) / 4
    ensures p.Copies(4 * w) ==> w - (p.newTop - (p.top - p.esp)) / 4 + p.esp / 4 == (4 * w - p.Delta()) / 4
  {
  }

  /** The loop of lines 27-34: every scanned word is looked at once. */
  method Scan(mem: array<uint32>, p: Plan)
    requires p.Valid(mem.Length)
    modifies mem
    ensures forall w :: 0 <= w < mem.Length ==>
              mem[w] == if p.Scans(4 * w) then Relocated(p, old(mem[w])) else old(mem[w])
  {
    hide Relocated, Wrap, Plan.Offset;
    var offset := p.Offset();
    var i := p.newTop;
    ghost var lo, top := p.newTop / 4, p.newTop / 4;
    while i > p.newTop - p.size
      invariant p.newTop - p.size <= i <= p.newTop && i == 4 * lo && p.newTop == 4 * top
      invariant forall w :: 0 <= w < mem.Length ==>
                  mem[w] == if lo < w <= top then Relocated(p, old(mem[w])) else old(mem[w])
      decreases i
    {
      var tmp := mem[i / 4];
      RelocatedIs(p, tmp);
      if p.esp < tmp && tmp < p.top {
        tmp := Wrap(tmp + offset);
        mem[i / 4] := tmp;
      }
      i := i - 4;
      lo := lo - 1;
    }
  }

  lemma RelocatedIs(p: Plan, v: uint32)
    ensures Relocated(p, v) == if p.esp < v < p.top then Wrap(v + p.Offset()) else v
  {
    hide Wrap, Plan.Offset;
  }

  /** memcpy, a word at a time. */
  method CopyWords(mem: array<uint32>, dst: nat, src: nat, n: nat)
    requires dst + n <= mem.Length && src + n <= mem.Length && (dst + n <= src || src + n <= dst)
    modifies mem
    ensures forall w :: 0 <= w < mem.Length ==> mem[w] == old(mem[if dst <= w < dst + n then w - dst + src else w])
  {
    var k := 0;
    while k < n
      invariant 0 <= k <= n
      invariant forall w :: 0 <= w < mem.Length ==> mem[w] == old(mem[if dst <= w < dst + k then w - dst + src else w])
    {
      mem[dst + k] := mem[src + k];
      k := k + 1;
    }
  }

  // ---------------------------------------------------------------- the frame-pointer chain

  /** The k-th frame pointer of a walk from b. */
  function Walk(m: seq<uint32>, b: uint32, k: nat): uint32
    requires InStack(m, b, k)
    decreases k
  {
    if k == 0 then b else Walk(m, m[b / 4], k - 1)
  }

  /** The walk can be followed k times. */
  predicate InStack(m: seq<uint32>, b: uint32, k: nat)
    decreases k
  {
    k == 0 || (b % 4 == 0 && b / 4 < |m| && InStack(m, m[b / 4], k - 1))
  }

  /** The first n frame pointers lie strictly inside the old stack. */
  predicate Chain(m: seq<uint32>, p: Plan, b: uint32, n: nat)
    decreases n
  {
    n == 0 || (p.esp < b < p.top && b % 4 == 0 && b / 4 < |m| && Chain(m, p, m[b / 4], n - 1))
  }

  /** The walk of the new stack in n is that of the old one in m, moved by Delta; it ends with
      the same terminator if that lies outside the old stack. */
  predicate Follows(m: seq<uint32>, n: seq<uint32>, p: Plan, b: uint32, len: nat) {
    && InStack(m, b, len) && InStack(n, Relocated(p, b), len)
    && Walk(n, Relocated(p, b), len) == Relocated(p, Walk(m, b, len))
  }

  /** For a chain of any length inside the old stack, the walk of the new stack is the old
      walk moved. It holds for a stack no longer than the scanned size. */
  lemma {:induction false} ChainMoved(m: seq<uint32>, p: Plan, b: uint32, len: nat)
    requires p.Valid(|m|) && p.top - p.esp <= p.size && Chain(m, p, b, len)
    ensures Follows(m, Moved(m, p), p, b, len)
    decreases len
  {
    hide Relocated, MovedWord;
    if len > 0 {
      FrameWord(m, p, b);
      ChainMoved(m, p, m[b / 4], len - 1);
    }
  }

  /** The word that a moved frame pointer points to. The lowest word of the stack is not
      scanned if the stack is as long as size, but no frame pointer points there. */
  lemma FrameWord(m: seq<uint32>, p: Plan, b: uint32)
    requires p.Valid(|m|) && p.top - p.esp <= p.size && p.esp < b < p.top && b % 4 == 0
    ensures var c := Relocated(p, b);
            c % 4 == 0 && b / 4 < |m| && c / 4 < |m| && Moved(m, p)[c / 4] == Relocated(p, m[b / 4])
  {
    hide Relocated;
    RelocationExact(p, b, |m|);
    var w := Relocated(p, b) / 4;
    assert 4 * w == b + p.Delta();
    assert (4 * w - p.Delta()) / 4 == b / 4;
  }

  /** In a longer stack a frame that points to itself, one word up, is copied but not
      scanned: its first link still leads into the old stack. */
  lemma ChainLost(m: seq<uint32>, p: Plan)
    requires p.Valid(|m|) && p.top - p.esp > p.size && p.top - p.esp > 4 && m[p.esp / 4 + 1] == p.esp + 4
    ensures Chain(m, p, p.esp + 4, 1) && !Follows(m, Moved(m, p), p, p.esp + 4, 1)
  {
    hide Relocated, Moved;
    var b: uint32 := p.esp + 4;
    assert b / 4 == p.esp / 4 + 1 && b % 4 == 0;
    LostWord(m, p, b);
    var n, c := Moved(m, p), Relocated(p, b);
    assert Walk(m, m[b / 4], 0) == b && Walk(n, n[c / 4], 0) == b;
  }

  lemma LostWord(m: seq<uint32>, p: Plan, b: uint32)
    requires p.Valid(|m|) && p.top - p.esp > p.size && p.top - p.esp > 4 && b == p.esp + 4 && m[b / 4] == b
    ensures var c := Relocated(p, b); c != b && c % 4 == 0 && c / 4 < |m| && Moved(m, p)[c / 4] == b
  {
    hide Relocated;
    RelocationExact(p, b, |m|);
    var w := Relocated(p, b) / 4;
    assert 4 * w == b + p.Delta();
    assert (4 * w - p.Delta()) / 4 == b / 4;
    assert p.Copies(4 * w) && !p.Scans(4 * w);
  }

  /** Every chain of every memory of n words is moved. */
  ghost predicate AllChainsMoved(p: Plan, n: nat)
    requires p.Valid(n)
  {
    forall m: seq<uint32>, b: uint32, len: nat :: |m| == n && Chain(m, p, b, len) ==> Follows(m, Moved(m, p), p, b, len)
  }

  /** move_stack keeps every frame-pointer chain exactly when the stack is no longer than the
      scanned size, or so short that no frame fits into it. */
  lemma AllChainsMovedIff(p: Plan, n: nat)
    requires p.Valid(n)
    ensures AllChainsMoved(p, n) <==> p.top - p.esp <= p.size || p.top - p.esp <= 4
  {
    hide MovedWord, Relocated;
    if p.top - p.esp <= p.size {
      forall m: seq<uint32>, b: uint32, len: nat | |m| == n && Chain(m, p, b, len)
        ensures Follows(m, Moved(m, p), p, b, len)
      {
        ChainMoved(m, p, b, len);
      }
    } else if p.top - p.esp > 4 {
      var b: uint32 := p.esp + 4;
      var m: seq<uint32> := seq(n, w => b);
      ChainLost(m, p);
      assert |m| == n;
    }
  }

  /** Every copied word is scanned exactly when the stack is shorter than size (or empty). */
  lemma AllScannedIff(p: Plan, n: nat)
    requires p.Valid(n)
    ensures (forall a :: p.Copies(a) ==> p.Scans(a))
            <==> p.top == p.esp || p.top - p.esp < p.size
  {
    if p.top != p.esp {
      var a := p.newTop - (p.top - p.esp);
      assert p.Copies(a);
    }
  }

  /** The old stack is left as it was. */
  lemma OldStackKept(m: seq<uint32>, p: Plan, w: nat)
    requires p.Valid(|m|) && p.esp <= 4 * w < p.top
    ensures MovedWord(m, p, w) == m[w]
  {
  }
}
