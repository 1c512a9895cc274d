/** Bytes, 32-bit words and pages: the vocabulary shared by every component.
    Memory is byte-addressed and little-endian, as on the x86. */
module Machine {
  const PAGE: int := 0x1000
  const TWO32: int := 0x1_0000_0000

  type byte = x: int | 0 <= x < 256
  type uint32 = x: int | 0 <= x < TWO32
  type Mem = seq<byte>

  /** The value a 32-bit register holds after an operation whose exact result is x. */
  function Wrap(x: int): (r: uint32)
    ensures 0 <= x < TWO32 ==> r == x
  {
    x % TWO32
  }

  /** Round up to a multiple of the page size. */
  function PageUp(x: int): (r: int)
    ensures x <= r < x + PAGE && r % PAGE == 0
    ensures x % PAGE == 0 ==> r == x
  {
    if x % PAGE == 0 then x else x - x % PAGE + PAGE
  }

  lemma PageUpSum(a: int, b: int)
    requires a % PAGE == 0
    ensures PageUp(a + b) == a + PageUp(b)
  {
  }

  /** The little-endian word at address a. */
  function U32At(m: Mem, a: int): (r: uint32)
    requires 0 <= a && a + 4 <= |m|
  {
    m[a] as int + 0x100 * m[a + 1] as int + 0x1_0000 * m[a + 2] as int + 0x100_0000 * m[a + 3] as int
  }

  /** m and n hold the same bytes in [lo, hi). */
  ghost predicate Agree(m: Mem, n: Mem, lo: int, hi: int) {
    |m| == |n| && forall i :: lo <= i < hi && 0 <= i < |m| ==> n[i] == m[i]
  }

  /** m and n hold the same bytes everywhere except possibly in [lo, hi). */
  ghost predicate AgreeOutside(m: Mem, n: Mem, lo: int, hi: int) {
    |m| == |n| && forall i :: 0 <= i < |m| && !(lo <= i < hi) ==> n[i] == m[i]
  }

  lemma OutsideAgree(m: Mem, n: Mem, lo: int, hi: int, a: int, b: int)
    requires AgreeOutside(m, n, lo, hi) && (b <= lo || hi <= a)
    ensures Agree(m, n, a, b)
  {
  }

  lemma OutsideTrans(m: Mem, n: Mem, o: Mem, a: int, b: int, c: int, d: int, lo: int, hi: int)
    requires AgreeOutside(m, n, a, b) && AgreeOutside(n, o, c, d)
    requires lo <= a && b <= hi && lo <= c && d <= hi
    ensures AgreeOutside(m, o, lo, hi)
  {
  }

  lemma OutsideSame(m: Mem, lo: int, hi: int)
    ensures AgreeOutside(m, m, lo, hi)
  {
  }

  method LoadU32(mem: array<byte>, a: int) returns (v: uint32)
    requires 0 <= a && a + 4 <= mem.Length
    ensures v == U32At(mem[..], a)
  {
    v := mem[a] as int + 0x100 * mem[a + 1] as int + 0x1_0000 * mem[a + 2] as int + 0x100_0000 * mem[a + 3] as int;
  }

  method StoreByte(mem: array<byte>, a: int, v: byte)
    requires 0 <= a < mem.Length
    modifies mem
    ensures mem[a] == v
    ensures AgreeOutside(old(mem[..]), mem[..], a, a + 1)
  {
    mem[a] := v;
  }

  method StoreU32(mem: array<byte>, a: int, v: uint32)
    requires 0 <= a && a + 4 <= mem.Length
    modifies mem
    ensures U32At(mem[..], a) == v
    ensures AgreeOutside(old(mem[..]), mem[..], a, a + 4)
  {
    var q := v / 0x100;
    var r := q / 0x100;
    mem[a] := v % 0x100;
    mem[a + 1] := q % 0x100;
    mem[a + 2] := r % 0x100;
    mem[a + 3] := r / 0x100;
  }
}
