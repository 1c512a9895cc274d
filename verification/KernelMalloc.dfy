/** _malloc while the heap does not exist yet (src/kernel_malloc.c:36-48): a bump allocator
    over placement_address. */
module KernelMalloc {
  import opened Machine

  /** Where the next object starts: a page boundary if asked. */
  function Place(placement: nat, align: bool): (a: nat)
    ensures placement <= a < placement + PAGE
    ensures align ==> a % PAGE == 0
    ensures !align || placement % PAGE == 0 ==> a == placement
  {
    if align then PageUp(placement) else placement
  }

  datatype Request = Request(size: nat, align: bool)

  /** The addresses handed out for a list of requests. */
  function Addresses(placement: nat, rs: seq<Request>): seq<nat>
    decreases |rs|
  {
    if rs == [] then []
    else [Place(placement, rs[0].align)] + Addresses(Place(placement, rs[0].align) + rs[0].size, rs[1..])
  }

  /** Over any run of requests the objects are in address order, aligned when asked, and
      pairwise disjoint. */
  lemma {:induction false} BumpDisjoint(placement: nat, rs: seq<Request>, i: nat, j: nat)
    requires i < j < |rs|
    ensures |Addresses(placement, rs)| == |rs|
    ensures placement <= Addresses(placement, rs)[i]
    ensures Addresses(placement, rs)[i] + rs[i].size <= Addresses(placement, rs)[j]
    ensures rs[j].align ==> Addresses(placement, rs)[j] % PAGE == 0
    decreases i
  {
    var next := Place(placement, rs[0].align) + rs[0].size;
    if i > 0 {
      BumpDisjoint(next, rs[1..], i - 1, j - 1);
    } else {
      BumpAbove(next, rs[1..], j - 1);
    }
  }

  /** And nothing is wasted: each object starts where the one before it ends, or at the page
      boundary that follows if it is to be aligned. */
  lemma {:induction false} BumpTight(placement: nat, rs: seq<Request>, j: nat)
    requires j < |rs|
    ensures |Addresses(placement, rs)| == |rs|
    ensures var free := if j == 0 then placement else Addresses(placement, rs)[j - 1] + rs[j - 1].size;
            Addresses(placement, rs)[j] == if rs[j].align then PageUp(free) else free
    decreases j
  {
    var next := Place(placement, rs[0].align) + rs[0].size;
    if j > 0 {
      BumpTight(next, rs[1..], j - 1);
    } else if |rs| > 1 {
      BumpAbove(next, rs[1..], 0);
    }
  }

  lemma {:induction false} BumpAbove(placement: nat, rs: seq<Request>, j: nat)
    requires j < |rs|
    ensures |Addresses(placement, rs)| == |rs|
    ensures placement <= Addresses(placement, rs)[j]
    ensures rs[j].align ==> Addresses(placement, rs)[j] % PAGE == 0
    decreases |rs|
  {
    var next := Place(placement, rs[0].align) + rs[0].size;
    if j > 0 {
      BumpAbove(next, rs[1..], j - 1);
    } else if |rs| > 1 {
      BumpAbove(next, rs[1..], 0);
    }
  }
}
