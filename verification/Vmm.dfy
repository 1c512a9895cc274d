/** Frames, page tables and directories changing in place (src/page.c): get_page,
    alloc_frame and free_frame on an entry, clone_table, clone_dir and the boot map.

    Tables and directories live in maps from addresses, as the objects that C pointers
    point to. Until the heap exists new ones come from the bump allocator; afterwards they are
    the chunks that the heap's alloc hands out, at whatever physical address. */
module Vmm {
  import opened Machine
  import opened Frames
  import opened KernelMalloc
  import opened Paging

  /** What get_page returns: no entry, or entry `index` of a table. */
  datatype EntryRef = NoEntry | At(table: int, index: int)

  /** A page-aligned object as _malloc_ap returns it: its address, and the physical page behind
      each of its pages. */
  datatype Chunk = Chunk(addr: int, pages: map<int, int>)

  const TABLE_SIZE := 0x1000
  const DIR_SIZE := 0x2004

  /** An entry to which alloc_frame has given frame f. */
  function GivenFrame(p: Page, isKernel: bool, isWritable: bool, f: nat): Page {
    Page(true, isWritable, !isKernel, p.accessed, p.dirty, f)
  }

  /** A copied entry: empty if the original has no frame; otherwise valid, user, with the
      other flags of the original, and a frame that was free before and now holds the same
      words. (clone_table passes is_kernel 0 to alloc_frame, so the copy is always valid
      and user, whatever the original was.) */
  ghost predicate Copied(p: Page, q: Page, used0: set<nat>, m0: seq<int>, m: seq<int>) {
    if p.frame == 0 then q == ZERO_PAGE
    else q == Page(true, p.rw, true, p.accessed, p.dirty, q.frame)
         && q.frame !in used0 && q.frame != 0 && PageOf(m, q.frame) == PageOf(m0, p.frame)
  }

  /** The words of the frames in use are the same in both memories. */
  ghost predicate SameFrames(m: seq<int>, n: seq<int>, used: set<nat>) {
    |m| == |n| && forall f :: f in used ==> PageOf(n, f) == PageOf(m, f)
  }

  lemma CountNext(pages: seq<Page>, i: nat)
    requires i < |pages|
    ensures CountFrames(pages, 0, 0) == 0
    ensures CountFrames(pages, 0, i + 1) == CountFrames(pages, 0, i) + (if pages[i].frame != 0 then 1 else 0)
  {
  }

  lemma {:induction false} CountMonotone(pages: seq<Page>, i: nat)
    requires i <= |pages|
    ensures CountFrames(pages, 0, i) <= CountFrames(pages, 0, |pages|)
    decreases |pages| - i
  {
    if i < |pages| {
      CountMonotone(pages, i + 1);
    }
  }

  /** The objects of the bump allocator lie below placement_address, and where they seem to. */
  ghost predicate BelowPlacement(placement: nat, phys: map<int, int>) {
    placement > 0 && forall k :: k in phys ==> 0 < k && k + PAGE <= PageUp(placement) && phys[k] == k
  }

  /** The object has its page at each page boundary of its first `size` bytes. */
  ghost predicate Covers(c: Chunk, size: nat) {
    forall k :: c.addr <= k < c.addr + size && k % PAGE == 0 ==> k in c.pages
  }

  /** A page-aligned object all of whose pages, and the physical pages behind them, are apart
      from those that are taken. */
  ghost predicate FreshChunk(c: Chunk, phys: map<int, int>) {
    && c.addr > 0 && c.addr % PAGE == 0 && Covers(c, TABLE_SIZE) && Placed(c.pages.Keys, c.pages)
    && (forall k :: k in c.pages ==> k % PAGE == 0 && k !in phys)
    && forall k, u :: k in c.pages && u in phys ==> c.pages[k] != phys[u]
  }

  /** Each object is fresh when those before it are taken too. */
  ghost predicate FreshChunks(cs: seq<Chunk>, phys: map<int, int>)
    decreases |cs|
  {
    cs == [] || (FreshChunk(cs[0], phys) && FreshChunks(cs[1..], phys + cs[0].pages))
  }

  /** The pages taken when all these objects are. */
  ghost function Supplied(phys: map<int, int>, cs: seq<Chunk>): map<int, int>
    decreases |cs|
  {
    if cs == [] then phys else Supplied(phys + cs[0].pages, cs[1..])
  }

  lemma {:induction false} SuppliedHas(phys: map<int, int>, cs: seq<Chunk>)
    requires FreshChunks(cs, phys)
    ensures forall u :: u in phys ==> u in Supplied(phys, cs) && Supplied(phys, cs)[u] == phys[u]
    decreases |cs|
  {
    if cs != [] {
      SuppliedHas(phys + cs[0].pages, cs[1..]);
    }
  }

  lemma {:induction false} FreshAppend(phys: map<int, int>, cs: seq<Chunk>, c: Chunk)
    requires FreshChunks(cs, phys) && FreshChunk(c, Supplied(phys, cs))
    ensures FreshChunks(cs + [c], phys) && Supplied(phys, cs + [c]) == Supplied(phys, cs) + c.pages
    decreases |cs|
  {
    if cs == [] {
      assert cs + [c] == [c] && [c][1..] == [];
    } else {
      assert (cs + [c])[1..] == cs[1..] + [c];
      FreshAppend(phys + cs[0].pages, cs[1..], c);
    }
  }

  /** The pages of an object that lies where it seems to. */
  function IdentityPages(a: nat, size: nat): map<int, int> {
    map k | a <= k < a + size && k % PAGE == 0 :: k
  }

  lemma NextPage(k: int, x: int)
    requires k % PAGE == 0 && k < x
    ensures k + PAGE <= PageUp(x)
  {
  }

  lemma PlacementMoves(placement: nat, more: nat, phys: map<int, int>)
    requires BelowPlacement(placement, phys)
    ensures BelowPlacement(placement + more, phys)
  {
  }

  lemma BumpFresh(placement: nat, phys: map<int, int>, size: nat)
    requires BelowPlacement(placement, phys) && size >= TABLE_SIZE
    ensures var a := Place(placement, true);
            var c := Chunk(a, IdentityPages(a, size));
            FreshChunk(c, phys) && Covers(c, size) && BelowPlacement(a + size, phys + c.pages)
  {
    hide PageUp;
    var a := Place(placement, true);
    var c := Chunk(a, IdentityPages(a, size));
    PlaceIsPageUp(placement);
    IdentityAt(a, size);
    forall k | k in c.pages ensures k % PAGE == 0 && k !in phys && k + PAGE <= PageUp(a + size) && c.pages[k] == k {
      NextPage(k, a + size);
    }
    assert PageUp(placement) <= PageUp(a + size);
  }

  lemma IdentityAt(a: nat, size: nat)
    ensures forall k :: k in IdentityPages(a, size) <==> a <= k < a + size && k % PAGE == 0
    ensures forall k :: k in IdentityPages(a, size) ==> IdentityPages(a, size)[k] == k
  {
  }

  /** A space of one empty directory, in pages of the bump allocator. */
  lemma FirstDir(d: nat, dirPhy: int)
    requires d > 0 && d % PAGE == 0
    ensures var dirs := map[d := Dir(seq(ENTRIES, _ => 0), seq(ENTRIES, _ => 0), dirPhy)];
            var phys := IdentityPages(d, DIR_SIZE);
            && Space(map[], dirs, d, {}).Valid() && AllNamed(dirs, phys) && Placed(phys.Keys, phys)
            && Housed({}, dirs.Keys, phys) && BelowPlacement(d + DIR_SIZE, phys)
  {
    hide IdentityPages, PageUp;
    var phys := IdentityPages(d, DIR_SIZE);
    IdentityAt(d, DIR_SIZE);
    NamedEmpty(phys);
    assert DirPages(d) <= phys.Keys;
    forall k | k in phys ensures k + PAGE <= PageUp(d + DIR_SIZE) {
      NextPage(k, d + DIR_SIZE);
    }
  }

  /** The pages of a directory: it is longer than two. */
  function DirPages(d: int): set<int> { {d, d + PAGE, d + 2 * PAGE} }

  /** Every table and every directory has its pages among those taken, and for itself. */
  ghost predicate Housed(tables: set<int>, dirs: set<int>, phys: map<int, int>) {
    && (forall u :: u in phys ==> u % PAGE == 0) && tables <= phys.Keys
    && (forall d :: d in dirs ==> Awaits(d, tables, dirs - {d}, phys))
  }

  /** The same for one directory, which need not be among dirs. */
  ghost predicate Awaits(d: int, tables: set<int>, dirs: set<int>, phys: map<int, int>) {
    DirPages(d) <= phys.Keys && DirPages(d) !! tables && forall e :: e in dirs ==> DirPages(d) !! DirPages(e)
  }

  /** So all these objects have disjoint addresses. */
  lemma HousedApart(tables: set<int>, dirs: set<int>, phys: map<int, int>)
    requires Housed(tables, dirs, phys)
    ensures forall t, u :: t in tables && u in tables && t != u ==> t + TABLE_SIZE <= u || u + TABLE_SIZE <= t
    ensures forall t, d :: t in tables && d in dirs ==> t + TABLE_SIZE <= d || d + DIR_SIZE <= t
    ensures forall d, e :: d in dirs && e in dirs && d != e ==> d + DIR_SIZE <= e || e + DIR_SIZE <= d
  {
    forall d | d in dirs ensures d % PAGE == 0 && Awaits(d, tables, dirs - {d}, phys) {
      assert d in DirPages(d);
    }
    forall t, d | t in tables && d in dirs ensures t + TABLE_SIZE <= d || d + DIR_SIZE <= t {
      assert Awaits(d, tables, dirs - {d}, phys) && t !in DirPages(d);
    }
    forall d, e | d in dirs && e in dirs && d != e ensures d + DIR_SIZE <= e || e + DIR_SIZE <= d {
      assert Awaits(d, tables, dirs - {d}, phys) && DirPages(d) !! DirPages(e);
      assert e in DirPages(e) && d in DirPages(d) && e !in DirPages(d) && d !in DirPages(e);
    }
  }

  lemma HousedMore(tables: set<int>, dirs: set<int>, phys: map<int, int>, c: Chunk)
    requires Housed(tables, dirs, phys) && FreshChunk(c, phys)
    ensures Housed(tables, dirs, phys + c.pages) && Placed(c.pages.Keys, c.pages)
    ensures forall d, now: set<int> :: Awaits(d, tables, now, phys) ==> Awaits(d, tables, now, phys + c.pages)
  {
  }

  lemma HousedIn(tables: set<int>, dirs: set<int>, phys: map<int, int>)
    requires Housed(tables, dirs, phys)
    ensures forall t :: t in tables ==> t in phys
  {
  }

  /** A new table has a page that was not taken. */
  lemma HousedTable(tables: set<int>, dirs: set<int>, phys: map<int, int>, c: Chunk)
    requires Housed(tables, dirs, phys) && FreshChunk(c, phys)
    ensures Housed(tables + {c.addr}, dirs, phys + c.pages) && c.addr in c.pages && c.addr !in phys
    ensures forall d, now: set<int> :: Awaits(d, tables, now, phys) ==>
              Awaits(d, tables + {c.addr}, now, phys + c.pages)
  {
  }

  /** So has a new directory. */
  lemma HousedDir(tables: set<int>, dirs: set<int>, phys: map<int, int>, c: Chunk)
    requires Housed(tables, dirs, phys) && FreshChunk(c, phys) && Covers(c, DIR_SIZE)
    ensures Awaits(c.addr, tables, dirs, phys + c.pages) && c.addr !in dirs && c.addr in c.pages
  {
    assert forall k :: k in DirPages(c.addr) ==> k in c.pages;
    forall d | d in dirs ensures DirPages(c.addr) !! DirPages(d) && c.addr != d {
      assert Awaits(d, tables, dirs - {d}, phys);
      assert forall k :: k in DirPages(d) ==> k in phys;
    }
  }

  lemma HousedPublished(tables: set<int>, dirs: set<int>, phys: map<int, int>, nd: int)
    requires Housed(tables, dirs, phys) && nd !in dirs && Awaits(nd, tables, dirs, phys)
    ensures Housed(tables, dirs + {nd}, phys)
  {
    forall d | d in dirs + {nd} ensures Awaits(d, tables, dirs + {nd} - {d}, phys) {
      if d != nd {
        assert Awaits(d, tables, dirs - {d}, phys);
      } else {
        assert dirs + {nd} - {nd} == dirs;
      }
    }
  }

  lemma TableKeys(tables: map<int, seq<Page>>, t: int, row: seq<Page>)
    ensures tables[t := row].Keys == tables.Keys + {t}
  {
  }

  lemma DirKeys(dirs: map<int, Dir>, d: int, now: Dir)
    requires d in dirs
    ensures dirs[d := now].Keys == dirs.Keys
  {
  }

  lemma PlacedMore(phys: map<int, int>, c: Chunk)
    requires Placed(phys.Keys, phys) && FreshChunk(c, phys)
    ensures Placed((phys + c.pages).Keys, phys + c.pages)
  {
    var now := phys + c.pages;
    forall t, u | t in now.Keys && u in now.Keys && now[t] == now[u] ensures t == u {
      assert (t in phys.Keys || t in c.pages.Keys) && (u in phys.Keys || u in c.pages.Keys);
    }
  }

  lemma PlacedPart(tables: set<int>, phys: map<int, int>)
    requires Placed(phys.Keys, phys) && tables <= phys.Keys
    ensures Placed(tables, phys)
  {
  }

  lemma NamedMore(dirs: map<int, Dir>, phys: map<int, int>, c: Chunk)
    requires AllNamed(dirs, phys) && FreshChunk(c, phys)
    ensures AllNamed(dirs, phys + c.pages)
  {
    hide FreshChunk;
    FreshKeys(c, phys);
    forall d | d in dirs ensures Named(dirs[d], phys + c.pages) {
      NamedStill(dirs[d], phys, c.pages);
    }
  }

  lemma FreshKeys(c: Chunk, phys: map<int, int>)
    requires FreshChunk(c, phys)
    ensures forall k :: k in c.pages ==> k !in phys
  {
  }

  class Vmm {
    const bitmap: Bitmap
    const mem: array<int>
    var tables: map<int, seq<Page>>
    var dirs: map<int, Dir>
    var kernel: int
    var placement: nat
    /** The physical page behind each page of a table or directory; whether kheap is set;
        what its alloc will return. */
    var phys: map<int, int>
    var heaped: bool
    var chunks: seq<Chunk>

    /** The frames are all of memory, the hardware's entries name the tables, every table and
        directory has its memory for itself, and so will new ones. */
    ghost predicate Sound()
      reads this
    {
      && mem as object != bitmap.bits && mem.Length == WORDS * bitmap.Count()
      && Placed(phys.Keys, phys) && AllNamed(dirs, phys) && Housed(tables.Keys, dirs.Keys, phys)
      && if heaped then FreshChunks(chunks, phys) else BelowPlacement(placement, phys)
    }

    ghost function Used(): set<nat>
      reads bitmap.bits
    {
      bitmap.Used()
    }

    ghost function State(): Space
      reads this, bitmap.bits
    {
      Space(tables, dirs, kernel, Used())
    }

    ghost predicate Valid()
      reads this, bitmap.bits
    {
      Sound() && State().Valid() && 0 in Used()
    }

    /** The state of init_paging before the heap exists. */
    ghost predicate Booting()
      reads this, bitmap.bits
    {
      Sound() && State().Valid() && !heaped && placement > 0
    }

    /** In every valid state the processor, in whatever directory, finds exactly the entries that the
        tables record. */
    lemma ProcessorSees(d: int, vpn: nat)
      requires Valid() && d in dirs && vpn < ENTRIES * ENTRIES
      ensures |dirs[d].phy| == ENTRIES && HardwareEntry(State(), phys, d, vpn) == Entry(State(), d, vpn)
    {
      hide Owned, Shared, Placed, AllNamed, HardwareEntry, Entry, FreshChunks, BelowPlacement;
      PlacedPart(tables.Keys, phys);
      HardwareSees(State(), phys, d, vpn);
    }

    /** The first part of init_paging (lines 122-131): a clear bitmap and an empty
        directory, both from the bump allocator. */
    constructor (memory: array<int>, bitmapSize: nat, free: nat)
      requires bitmapSize > 0 && memory.Length == WORDS * (8 * bitmapSize)
      ensures fresh(bitmap) && fresh(bitmap.bits) && mem == memory && bitmap.bits.Length == bitmapSize
      ensures Booting() && tables == map[] && Used() == {}
      ensures kernel == Place(free + bitmapSize, true) && placement == kernel + DIR_SIZE
      ensures dirs == map[kernel := Dir(seq(ENTRIES, _ => 0), seq(ENTRIES, _ => 0), kernel + 0x1000)]
    {
      hide Placed, AllNamed, Housed, BelowPlacement, Owned, Shared, IdentityPages, UsedIn;
      bitmap := new Bitmap(bitmapSize);
      mem := memory;
      var d := Place(free + bitmapSize, true);
      kernel, placement := d, d + DIR_SIZE;
      tables, phys, heaped, chunks := map[], IdentityPages(d, DIR_SIZE), false, [];
      dirs := map[d := Dir(seq(ENTRIES, _ => 0), seq(ENTRIES, _ => 0), d + 0x1000)];
      FirstDir(d, d + 0x1000);
      new;
      assert tables.Keys == {} && State() == Space(map[], dirs, d, {});
    }

    /** alloc_frame on entry i of table t. */
    method AllocSlot(t: int, i: nat, isKernel: bool, isWritable: bool)
      requires Slot(tables, t, i) && Owned(tables, Used())
      requires tables[t][i].frame == 0 ==> |Used()| < bitmap.Count()
      modifies this`tables, bitmap.bits
      ensures Owned(tables, Used())
      ensures old(Sound() && State().Valid()) ==> Sound() && State().Valid()
      ensures old(tables[t][i]).frame != 0 ==> tables == old(tables) && Used() == old(Used())
      ensures old(tables[t][i]).frame == 0 ==>
                exists f: nat :: f < bitmap.Count() && IsLeastFree(f, old(Used())) && Used() == old(Used()) + {f}
                  && tables == SetEntry(old(tables), t, i, GivenFrame(old(tables[t][i]), isKernel, isWritable, f))
    {
      hide Owned, Shared, Shaped, Placed, AllNamed, Housed, FreshChunks, BelowPlacement, UsedIn;
      if tables[t][i].frame == 0 {
        SomeFree(Used(), bitmap.Count());
      }
      var page := AllocFrame(bitmap, tables[t][i], isKernel, isWritable);
      if tables[t][i].frame == 0 {
        TakeKeepsOwned(tables, old(Used()), t, i, page);
        if Shaped(tables, dirs, kernel) {
          SetEntryShaped(tables, dirs, kernel, t, i, page);
        }
        SetEntryKeys(tables, t, i, page);
        tables := SetEntry(tables, t, i, page);
      } else {
        assert tables[t][i := page] == tables[t];
      }
    }

    /** free_frame on entry i of table t. */
    method FreeSlot(t: int, i: nat)
      requires Valid() && Slot(tables, t, i)
      modifies this`tables, bitmap.bits
      ensures Valid() && tables == SetEntry(old(tables), t, i, old(tables[t][i]).(frame := 0))
      ensures Used() == if old(tables[t][i]).frame == 0 then old(Used()) else old(Used()) - {old(tables[t][i]).frame}
    {
      hide Shared, Owned, Shaped, SetEntry, Placed, AllNamed, Housed, FreshChunks, BelowPlacement;
      assert FrameAt(tables, t, i) == tables[t][i].frame;
      OwnedInUsed(tables, Used(), t, i);
      var page := FreeFrame(bitmap, tables[t][i]);
      if tables[t][i].frame == 0 {
        SetSame(tables, t, i, page);
      } else {
        ReleaseKeepsOwned(tables, old(Used()), t, i, page);
      }
      SetEntryShaped(tables, dirs, kernel, t, i, page);
      SetEntryKeys(tables, t, i, page);
      tables := SetEntry(tables, t, i, page);
    }

    /** copy_page_phy of src/process.s: 1024 words from frame f to frame g. */
    method CopyPagePhy(f: nat, g: nat)
      requires mem.Length == WORDS * bitmap.Count() && f < bitmap.Count() && g < bitmap.Count() && f != g
      modifies mem
      ensures PageOf(mem[..], g) == PageOf(old(mem[..]), f)
      ensures forall h: nat :: h != g ==> PageOf(mem[..], h) == PageOf(old(mem[..]), h)
    {
      var ebx, ecx, edx := WORDS * f, WORDS * g, WORDS;
      while edx > 0
        invariant 0 <= edx <= WORDS && ebx == WORDS * f + (WORDS - edx) && ecx == WORDS * g + (WORDS - edx)
        invariant forall a :: 0 <= a < mem.Length && !(WORDS * g <= a < ecx) ==> mem[a] == old(mem[a])
        invariant forall a :: WORDS * g <= a < ecx ==> mem[a] == old(mem[a - WORDS * g + WORDS * f])
      {
        mem[ecx] := mem[ebx];
        ebx, ecx, edx := ebx + 1, ecx + 1, edx - 1;
      }
      PageCopied(old(mem[..]), mem[..], f, g);
    }

    /** What _malloc_ap returns next. */
    function NextChunk(size: nat): Chunk
      requires heaped ==> chunks != []
      reads this
    {
      if heaped then chunks[0] else Chunk(Place(placement, true), IdentityPages(Place(placement, true), size))
    }

    /** _malloc_ap: the next place of the bump allocator, or what the heap's alloc returns. */
    method MallocAligned(size: nat) returns (c: Chunk)
      requires Sound() && size >= TABLE_SIZE && (heaped ==> chunks != [] && Covers(chunks[0], size))
      modifies this`placement, this`chunks, this`phys
      ensures Sound() && c == old(NextChunk(size)) && FreshChunk(c, old(phys)) && Covers(c, size)
      ensures phys == old(phys) + c.pages && (heaped ==> Supplied(phys, chunks) == old(Supplied(phys, chunks)))
      ensures chunks == if heaped then old(chunks)[1..] else old(chunks)
      ensures placement == if heaped then old(placement) else c.addr + size
    {
      hide Placed, AllNamed, Housed, FreshChunk, Covers, BelowPlacement, Place, IdentityPages;
      if heaped {
        c := chunks[0];
        chunks := chunks[1..];
      } else {
        var a := Place(placement, true);
        BumpFresh(placement, phys, size);
        c := Chunk(a, IdentityPages(a, size));
        placement := a + size;
      }
      PlacedMore(phys, c);
      NamedMore(dirs, phys, c);
      HousedMore(tables.Keys, dirs.Keys, phys, c);
      phys := phys + c.pages;
    }

    /** _malloc_ap for a table. */
    method MallocTable() returns (t: int, ph: int)
      requires Sound() && (heaped ==> chunks != [])
      modifies this`tables, this`phys, this`placement, this`chunks
      ensures Sound() && t != 0 && t !in old(tables) && t !in old(phys) && tables == old(tables)[t := ZeroTable()]
      ensures var c := old(NextChunk(TABLE_SIZE));
              && t == c.addr && t in c.pages && ph == c.pages[t] && phys == old(phys) + c.pages
              && forall k :: k in c.pages ==> k !in old(phys)
      ensures forall d, now: set<int> :: Awaits(d, old(tables).Keys, now, old(phys)) ==>
                Awaits(d, tables.Keys, now, phys)
      ensures heaped ==> Supplied(phys, chunks) == old(Supplied(phys, chunks))
      ensures chunks == if heaped then old(chunks)[1..] else old(chunks)
      ensures placement == if heaped then old(placement) else t + TABLE_SIZE
    {
      hide Placed, AllNamed, Housed, Awaits, BelowPlacement, Place, IdentityPages;
      ghost var keys, phys0 := tables.Keys, phys;
      var c := MallocAligned(TABLE_SIZE);
      HousedTable(keys, dirs.Keys, phys0, c);
      HousedIn(keys, dirs.Keys, phys0);
      FreshKeys(c, phys0);
      t, ph := c.addr, c.pages[c.addr];
      tables := tables[t := ZeroTable()];
      assert tables.Keys == keys + {t};
    }

    /** _malloc_ap for a directory. */
    method MallocDir() returns (c: Chunk)
      requires Sound() && (heaped ==> chunks != [] && Covers(chunks[0], DIR_SIZE))
      modifies this`placement, this`chunks, this`phys
      ensures Sound() && c == old(NextChunk(DIR_SIZE)) && c.addr !in dirs && c.addr in c.pages
      ensures Awaits(c.addr, tables.Keys, dirs.Keys, phys) && phys == old(phys) + c.pages
      ensures chunks == if heaped then old(chunks)[1..] else old(chunks)
      ensures heaped ==> Supplied(phys, chunks) == old(Supplied(phys, chunks))
    {
      hide Placed, AllNamed, Housed, Awaits, BelowPlacement, Place, IdentityPages, FreshChunk, FreshChunks, Covers;
      ghost var phys0 := phys;
      c := MallocAligned(DIR_SIZE);
      HousedDir(tables.Keys, dirs.Keys, phys0, c);
    }

    /** What kheap's alloc will return is known from here on (line 157). */
    method UseHeap(cs: seq<Chunk>)
      requires Sound() && FreshChunks(cs, phys)
      modifies this`heaped, this`chunks
      ensures Sound() && heaped && chunks == cs
    {
      heaped, chunks := true, cs;
    }

    /** get_page */
    method GetPage(addr: uint32, make: bool, dir: int) returns (slot: EntryRef)
      requires Sound() && State().Valid() && dir in dirs
      requires make && heaped && dirs[dir].table[addr / PAGE / ENTRIES] == 0 ==> chunks != []
      modifies this`tables, this`dirs, this`phys, this`placement, this`chunks
      ensures Sound() && State().Valid() && heaped == old(heaped)
      ensures var i := addr / PAGE / ENTRIES;
              var was := old(dirs[dir].table[i]);
              if was != 0 || !make then
                && State() == old(State()) && placement == old(placement) && phys == old(phys) && chunks == old(chunks)
                && slot == if was != 0 then At(was, addr / PAGE % ENTRIES) else NoEntry
              else
                var c := old(NextChunk(TABLE_SIZE));
                && c.addr !in old(tables) && c.addr != 0 && c.addr in c.pages
                && State() == WithTable(old(State()), dir, i, c.addr, c.pages[c.addr])
                && phys == old(phys) + c.pages && (heaped ==> Supplied(phys, chunks) == old(Supplied(phys, chunks)))
                && chunks == (if heaped then old(chunks)[1..] else old(chunks))
                && placement == (if heaped then old(placement) else c.addr + TABLE_SIZE)
                && slot == At(c.addr, addr / PAGE % ENTRIES)
    {
      hide Owned, Shared, Named, AllNamed, Placed, Housed, FreshChunks, BelowPlacement, Supplied, Place, IdentityPages;
      var page := addr / PAGE;
      var index := page / ENTRIES;
      var d := dirs[dir];
      if d.table[index] != 0 {
        return At(d.table[index], page % ENTRIES);
      } else if make {
        ghost var s, phys0 := State(), phys;
        var t, ph := MallocTable();
        WithTableValid(s, dir, index, t, ph);
        NamedTable(s, phys, dir, index, t, ph);
        DirKeys(dirs, dir, Dir(d.table[index := t], d.phy[index := ph + 7], d.dirPhy));
        dirs := dirs[dir := Dir(d.table[index := t], d.phy[index := ph + 7], d.dirPhy)];
        return At(t, page % ENTRIES);
      } else {
        return NoEntry;
      }
    }

    /** One round of the loop of clone_table, for an entry that holds a frame. */
    method CloneEntry(t: int, i: nat, p: Page, ghost tables0: map<int, seq<Page>>, ghost used0: set<nat>,
                      ghost m0: seq<int>, ghost pages: seq<Page>)
      requires i < ENTRIES == |pages| && p == pages[i] && p.frame != 0 && p.frame in used0
      requires mem as object != bitmap.bits && mem.Length == WORDS * bitmap.Count() && 0 in used0
      requires t in tables && |tables[t]| == ENTRIES && tables == tables0[t := tables[t]] && tables[t][i] == ZERO_PAGE
      requires Owned(tables, Used()) && used0 <= Used() && |Used()| < bitmap.Count()
      requires forall k :: 0 <= k < i ==> Copied(pages[k], tables[t][k], used0, m0, mem[..])
      requires SameFrames(m0, mem[..], used0)
      modifies this`tables, bitmap.bits, mem
      ensures t in tables && |tables[t]| == ENTRIES && tables == tables0[t := tables[t]]
      ensures forall k :: i < k < ENTRIES ==> tables[t][k] == old(tables[t][k])
      ensures Owned(tables, Used()) && used0 <= Used() && |Used()| == |old(Used())| + 1
      ensures forall k :: 0 <= k < i + 1 ==> Copied(pages[k], tables[t][k], used0, m0, mem[..])
      ensures SameFrames(m0, mem[..], used0)
    {
      hide Owned, Copied, SameFrames, PageOf;
      ghost var row, used, m := tables[t], Used(), mem[..];
      RowInUsed(tables, used, t);
      AllocSlot(t, i, false, false);
      var q := tables[t][i];
      assert FrameAt(tables, t, i) == q.frame;
      var r := Page(q.valid || p.valid, q.rw || p.rw, q.user || p.user, q.accessed || p.accessed,
                    q.dirty || p.dirty, q.frame);
      SameFrameKeepsOwned(tables, Used(), t, i, r);
      tables := SetEntry(tables, t, i, r);
      InBitmap(p.frame, used0, used);
      CopyPagePhy(p.frame, r.frame);
      RowGrows(pages, row, tables[t], i, used0, used, m0, m, mem[..]);
    }

    /** clone_table: a new table whose entries hold copies of the frames of table src. */
    method CloneTable(src: int) returns (t: int, ph: int)
      requires Sound() && src in tables && |tables[src]| == ENTRIES && Owned(tables, Used()) && 0 in Used()
      requires |Used()| + CountFrames(tables[src], 0, ENTRIES) <= bitmap.Count() && (heaped ==> chunks != [])
      modifies this`tables, this`phys, this`placement, this`chunks, bitmap.bits, mem
      ensures Sound() && Owned(tables, Used()) && t != 0 && t !in old(phys)
      ensures var c := old(NextChunk(TABLE_SIZE));
              && t == c.addr && t in c.pages && ph == c.pages[t] && phys == old(phys) + c.pages
              && forall k :: k in c.pages ==> k !in old(phys)
      ensures forall d, now: set<int> :: Awaits(d, old(tables).Keys, now, old(phys)) ==>
                Awaits(d, tables.Keys, now, phys)
      ensures heaped ==> Supplied(phys, chunks) == old(Supplied(phys, chunks))
      ensures chunks == if heaped then old(chunks)[1..] else old(chunks)
      ensures placement == if heaped then old(placement) else t + TABLE_SIZE
      ensures t !in old(tables) && t in tables && |tables[t]| == ENTRIES && tables == old(tables)[t := tables[t]]
      ensures forall k :: 0 <= k < ENTRIES ==>
                Copied(old(tables[src])[k], tables[t][k], old(Used()), old(mem[..]), mem[..])
      ensures old(Used()) <= Used() && |Used()| == old(|Used()|) + CountFrames(old(tables[src]), 0, ENTRIES)
      ensures SameFrames(old(mem[..]), mem[..], old(Used()))
    {
      hide Owned, Copied, SameFrames, CountFrames, UsedIn, Placed, AllNamed, Housed, Awaits, FreshChunks,
        BelowPlacement, Supplied, Place, IdentityPages;
      ghost var tables0, used0, m0 := tables, Used(), mem[..];
      t, ph := MallocTable();
      ghost var phys1, chunks1, placement1, keys1 := phys, chunks, placement, tables.Keys;
      NewTableKeepsOwned(tables0, used0, t);
      TableKeys(tables0, t, tables[t]);
      var pages := tables[src];
      SameFramesSelf(m0, used0);
      var i := 0;
      while i < ENTRIES
        invariant 0 <= i <= ENTRIES && phys == phys1 && chunks == chunks1 && placement == placement1 && t in phys1
        invariant t in tables && |tables[t]| == ENTRIES && tables == tables0[t := tables[t]] && tables.Keys == keys1
        invariant Owned(tables, Used()) && used0 <= Used() && |Used()| == |used0| + CountFrames(pages, 0, i)
        invariant forall k :: 0 <= k < i ==> Copied(pages[k], tables[t][k], used0, m0, mem[..])
        invariant forall k :: i <= k < ENTRIES ==> tables[t][k] == ZERO_PAGE
        invariant SameFrames(m0, mem[..], used0)
      {
        CountNext(pages, i);
        CountMonotone(pages, i + 1);
        if pages[i].frame != 0 {
          OwnedInUsed(tables0, used0, src, i);
          CloneEntry(t, i, pages[i], tables0, used0, m0, pages);
          TableKeys(tables0, t, tables[t]);
        } else {
          CopiedEmpty(pages[i], used0, m0, mem[..]);
        }
        i := i + 1;
      }
    }

    /** The state of clone_dir before index i: s and m0 are the space and the memory it began
        with, table and phy what it has put into the new directory, which will be at nd. */
    ghost predicate Partway(src: int, i: nat, table: seq<int>, phy: seq<int>, nd: int, s: Space, m0: seq<int>)
      reads this, bitmap.bits, mem
    {
      && i <= ENTRIES && Sound() && dirs == s.dirs && kernel == s.kernel && s.Valid() && src in s.dirs && 0 in s.used
      && Owned(tables, Used()) && s.used <= Used() && SameFrames(m0, mem[..], s.used)
      && |Used()| == |s.used| + PrivateFrames(s, src, i) && |s.used| + PrivateFrames(s, src, ENTRIES) <= bitmap.Count()
      && Cloning(s, m0, src, tables, mem[..], table, phy, i) && Named(Dir(table, phy, 0), phys)
      && nd !in dirs && Awaits(nd, tables.Keys, dirs.Keys, phys)
      && (heaped ==>
            |chunks| >= PrivateTables(s.dirs, s.kernel, src, ENTRIES) - PrivateTables(s.dirs, s.kernel, src, i))
    }

    /** One round of the loop of clone_dir. */
    method CloneEntryOfDir(src: int, i: nat, table0: seq<int>, phy0: seq<int>, ghost nd: int, ghost s: Space,
                           ghost m0: seq<int>)
      returns (table: seq<int>, phy: seq<int>)
      requires i < ENTRIES && Partway(src, i, table0, phy0, nd, s, m0)
      modifies this`tables, this`phys, this`placement, this`chunks, bitmap.bits, mem
      ensures Partway(src, i + 1, table, phy, nd, s, m0)
      ensures forall u :: u in old(phys) ==> u in phys && phys[u] == old(phys)[u]
      ensures heaped ==> Supplied(phys, chunks) == old(Supplied(phys, chunks))
      ensures heaped ==> |chunks| == old(|chunks|) - (if PrivateTable(s.dirs, s.kernel, src, i) then 1 else 0)
    {
      hide Owned, Copied, SameFrames, CountFrames, Shared, Shaped, DirShaped, PrivateFrames, PrivateTables, ClonedAt,
        Placed, Named, AllNamed, Housed, Awaits, FreshChunks, BelowPlacement, Supplied, Place, IdentityPages,
        NamedEntry, UsedIn;
      PrivateStep(s, src, i);
      TablesMonotone(s, src, i);
      CloneShapes(s, src, i);
      table, phy := table0, phy0;
      var t := dirs[src].table[i];
      ghost var tables1, used1, m1, phys1 := tables, Used(), mem[..], phys;
      SameFramesSelf(m1, used1);
      if t == 0 {
      } else if dirs[kernel].table[i] == t {
        NamedShared(dirs, phys, src, i, table, phy);
        table, phy := table[i := t], phy[i := dirs[src].phy[i]];
      } else {
        ghost var c := NextChunk(TABLE_SIZE);
        var u, ph := CloneTable(t);
        NamedOwn(table, phy, phys1, c.pages, i, u, ph);
        table, phy := table[i := u], phy[i := ph + 7];
      }
      SameFramesTrans(m0, m1, mem[..], s.used, used1);
      CloneHere(s, m0, src, tables1, used1, m1, tables, mem[..], table, phy, i);
      CloneNext(s, m0, src, tables1, used1, m1, table0, phy0, tables, mem[..], table, phy, i);
    }

    lemma PartwayStart(src: int, table: seq<int>, phy: seq<int>, nd: int, s: Space, m0: seq<int>)
      requires Sound() && Owned(tables, Used()) && s == State() && m0 == mem[..] && s.Valid() && src in s.dirs
      requires 0 in s.used
      requires |s.used| + PrivateFrames(s, src, ENTRIES) <= bitmap.Count()
      requires heaped ==> |chunks| >= PrivateTables(s.dirs, s.kernel, src, ENTRIES)
      requires table == phy == seq(ENTRIES, _ => 0) && nd !in dirs && Awaits(nd, tables.Keys, dirs.Keys, phys)
      ensures Partway(src, 0, table, phy, nd, s, m0)
    {
      hide Owned, Shared, Shaped, PrivateFrames, PrivateTables, ClonedAt, Placed, AllNamed, Housed, Awaits, FreshChunks,
        BelowPlacement, UsedIn;
      TablesMonotone(s, src, 0);
      CloneStart(s, m0, src, table, phy);
      NamedEmpty(phys);
    }

    /** The finished directory joins the others. */
    method Publish(src: int, nd: int, table: seq<int>, phy: seq<int>, dirPhy: int, ghost s: Space, ghost m0: seq<int>)
      requires Partway(src, ENTRIES, table, phy, nd, s, m0)
      modifies this`dirs
      ensures Valid() && nd in dirs && dirs == old(dirs)[nd := dirs[nd]] && dirs[nd].dirPhy == dirPhy
      ensures old(dirs) == s.dirs
      ensures forall t :: t in s.tables ==> t in tables && tables[t] == s.tables[t]
      ensures s.used <= Used() && SameFrames(m0, mem[..], s.used)
      ensures |Used()| == |s.used| + PrivateFrames(s, src, ENTRIES)
      ensures forall i :: 0 <= i < ENTRIES ==> CloneIndex(s, m0, src, State(), mem[..], nd, i)
    {
      hide Owned, Shared, SameFrames, ClonedAt, Placed, Named, AllNamed, Housed, Awaits, FreshChunks, BelowPlacement,
        PrivateFrames, PrivateTables, UsedIn;
      CloneDone(s, m0, src, tables, Used(), mem[..], table, phy, nd, dirPhy);
      NamedDirs(dirs, phys, nd, table, phy, dirPhy);
      HousedPublished(tables.Keys, dirs.Keys, phys, nd);
      dirs := dirs[nd := Dir(table, phy, dirPhy)];
      assert dirs.Keys == s.dirs.Keys + {nd};
    }

    /** clone_dir: tables that are the kernel's are shared, the others are copied. */
    method CloneDir(src: int) returns (nd: int)
      requires Valid() && src in dirs
      requires |Used()| + PrivateFrames(State(), src, ENTRIES) <= bitmap.Count()
      requires heaped ==> |chunks| > PrivateTables(dirs, kernel, src, ENTRIES) && Covers(chunks[0], DIR_SIZE)
      modifies this`tables, this`dirs, this`phys, this`placement, this`chunks, bitmap.bits, mem
      ensures Valid() && nd == old(NextChunk(DIR_SIZE)).addr
      ensures |Used()| == old(|Used()| + PrivateFrames(State(), src, ENTRIES))
      ensures Cloned(old(State()), old(mem[..]), src, State(), mem[..], nd)
      ensures heaped ==> Supplied(phys, chunks) == old(Supplied(phys, chunks))
      ensures heaped ==> |chunks| == old(|chunks|) - 1 - old(PrivateTables(dirs, kernel, src, ENTRIES))
      ensures nd in phys && dirs[nd].dirPhy == phys[nd] + 0x1000
    {
      hide Owned, Shared, Shaped, PrivateFrames, PrivateTables, ClonedAt, Placed, AllNamed, Housed, Awaits,
        FreshChunks, BelowPlacement, Supplied, Place, IdentityPages, Partway, UsedIn, SameFrames;
      ghost var s, m0 := State(), mem[..];
      var c := MallocDir();
      nd := c.addr;
      var table := seq(ENTRIES, _ => 0);
      var phy := seq(ENTRIES, _ => 0);
      PartwayStart(src, table, phy, nd, s, m0);
      TablesMonotone(s, src, 0);
      CloneShapes(s, src, 0);
      var i := 0;
      while i < ENTRIES
        invariant 0 <= i <= ENTRIES && Partway(src, i, table, phy, nd, s, m0)
        invariant nd in phys && phys[nd] == c.pages[nd]
        invariant heaped ==> Supplied(phys, chunks) == old(Supplied(phys, chunks))
        invariant heaped ==> |chunks| == old(|chunks|) - 1 - PrivateTables(s.dirs, s.kernel, src, i)
      {
        TablesMonotone(s, src, i);
        table, phy := CloneEntryOfDir(src, i, table, phy, nd, s, m0);
        i := i + 1;
      }
      Publish(src, nd, table, phy, c.pages[nd] + 0x1000, s, m0);
    }

    /** Lines 133-136: get_page alone for every page of the initial heap. */
    method MakeHeapTables()
      requires Booting() && kernel in dirs && BootMap(State(), 0, 0) && dirs[kernel].table == seq(ENTRIES, _ => 0)
      modifies this
      ensures Booting() && kernel == old(kernel) && kernel in dirs && dirs.Keys == old(dirs.Keys)
      ensures BootMap(State(), 0, 0) && BootTables(dirs[kernel].table, 0, true)
      ensures placement <= old(placement) + 2 * PAGE
    {
      hide Owned, Shared, Shaped, Placed, AllNamed, Housed, BelowPlacement, BootMap;
      ghost var p0 := placement;
      var i := KHEAP_START;
      while i < KHEAP_START + KHEAP_INITIAL_SIZE
        invariant i % PAGE == 0 && KHEAP_START <= i <= KHEAP_START + KHEAP_INITIAL_SIZE
        invariant Booting() && BootMap(State(), 0, 0) && kernel == old(kernel) && kernel in dirs
        invariant dirs.Keys == old(dirs.Keys)
        invariant BootTables(dirs[kernel].table, 0, i > KHEAP_START)
        invariant placement <= p0 + (if i > KHEAP_START then 2 * PAGE else 0)
      {
        ghost var s, next := State(), Place(placement, true);
        BootIndex(s, i / PAGE);
        var page := GetPage(i, true, kernel);
        if s.dirs[s.kernel].table[i / PAGE / ENTRIES] == 0 {
          TableAdded(s, i / PAGE / ENTRIES, next, next, 0, 0);
        }
        i := i + PAGE;
      }
    }

    /** get_page for the next page of the boot map. */
    method BootGet(vpn: nat, n: nat, h: nat, make: bool) returns (slot: EntryRef)
      requires Booting() && kernel in dirs && BootMap(State(), n, h) && BootTables(dirs[kernel].table, n, true)
      requires n + h < FRAME_COUNT
      requires if make then vpn == n && h == 0 else vpn == KHEAP_START / PAGE + h && h < KHEAP_PAGES
      modifies this
      ensures Booting() && kernel == old(kernel) && kernel in dirs && dirs.Keys == old(dirs.Keys)
      ensures BootMap(State(), n, h)
      ensures BootTables(dirs[kernel].table, if make then n + 1 else n, true)
      ensures if make && TablesFor(n + 1) != TablesFor(n)
              then TablesFor(n + 1) == TablesFor(n) + 1 && placement == PageUp(old(placement)) + PAGE
              else placement == old(placement)
      ensures BootPlace(State(), vpn) && slot == At(dirs[kernel].table[vpn / ENTRIES], vpn % ENTRIES)
    {
      hide Owned, Shared, Shaped, Placed, AllNamed, Housed, BelowPlacement, BootMap, BootTables, Entry, SetEntry,
        WithTable, TablesFor, BootPlace;
      ghost var s, next := State(), Place(placement, true);
      BootIndex(s, vpn);
      BootIndexOf(s.dirs[s.kernel].table, vpn, n, h, make, next);
      slot := GetPage(vpn * PAGE, make, kernel);
      if s.dirs[s.kernel].table[vpn / ENTRIES] == 0 {
        TableAdded(s, vpn / ENTRIES, next, next, n, h);
      }
      BootPlaceIs(State(), vpn);
    }

    /** alloc_frame(page, 0, 1) for the next page of the boot map. */
    method BootAlloc(t: int, i: nat, vpn: nat, n: nat, h: nat)
      requires Booting() && kernel in dirs && BootMap(State(), n, h) && n + h < FRAME_COUNT == bitmap.Count()
      requires (vpn == n && h == 0) || (vpn == KHEAP_START / PAGE + h && h < KHEAP_PAGES)
      requires BootPlace(State(), vpn) && t == dirs[kernel].table[vpn / ENTRIES] && i == vpn % ENTRIES
      modifies this`tables, bitmap.bits
      ensures Booting() && BootMap(State(), if vpn == n then n + 1 else n, if vpn == n then h else h + 1)
    {
      hide Owned, Shared, Shaped, Placed, AllNamed, Housed, BelowPlacement, BootMap, Below, Entry, SetEntry;
      ghost var s := State();
      BootSlot(s, vpn, n, h);
      BootUsed(s, n, h);
      LeastIs(n + h);
      AllocSlot(t, i, false, true);
      SetEntryKeys(s.tables, t, i, UserPage(n + h));
      BootAfterAlloc(s, Used(), tables, vpn, n, h);
    }

    /** alloc_frame(get_page(...), 0, 1) for the next page of the boot map. */
    method MapBootPage(vpn: nat, n: nat, h: nat, make: bool)
      requires Booting() && kernel in dirs && BootMap(State(), n, h) && BootTables(dirs[kernel].table, n, true)
      requires n + h < FRAME_COUNT && FRAME_COUNT == bitmap.Count()
      requires if make then vpn == n && h == 0 else vpn == KHEAP_START / PAGE + h && h < KHEAP_PAGES
      modifies this, bitmap.bits
      ensures Booting() && kernel == old(kernel) && kernel in dirs && dirs.Keys == old(dirs.Keys)
      ensures if make then BootMap(State(), n + 1, h) else BootMap(State(), n, h + 1)
      ensures BootTables(dirs[kernel].table, if make then n + 1 else n, true)
      ensures if make && TablesFor(n + 1) != TablesFor(n)
              then TablesFor(n + 1) == TablesFor(n) + 1 && placement == PageUp(old(placement)) + PAGE
              else placement == old(placement)
    {
      hide Owned, Shared, Shaped, Placed, AllNamed, Housed, BelowPlacement, BootMap, BootTables, Entry, BootPlace,
        TablesFor;
      var slot := BootGet(vpn, n, h, make);
      BootAlloc(slot.table, slot.index, vpn, n, h);
    }

    /** Lines 141-145: maps every page below placement_address to itself. The bound moves up
        whenever get_page takes a table, at most once in 1024 pages, so the loop ends. */
    method IdentityMap() returns (n: nat)
      requires Booting() && kernel in dirs && BootMap(State(), 0, 0) && BootTables(dirs[kernel].table, 0, true)
      requires bitmap.Count() == FRAME_COUNT && placement + BOOT_TABLES + KHEAP_INITIAL_SIZE <= PAGE * FRAME_COUNT
      modifies this, bitmap.bits
      ensures Booting() && kernel == old(kernel) && kernel in dirs && dirs.Keys == old(dirs.Keys)
      ensures BootMap(State(), n, 0) && BootTables(dirs[kernel].table, n, true)
      ensures (n - 1) * PAGE < placement <= n * PAGE && 0 < n <= FRAME_COUNT - KHEAP_PAGES
      ensures placement <= old(placement) + BOOT_TABLES
    {
      hide Owned, Shared, Shaped, Placed, AllNamed, Housed, BelowPlacement, BootMap, BootTables;
      ghost var p1 := placement;
      n := 0;
      while n * PAGE < placement
        invariant n <= FRAME_COUNT - KHEAP_PAGES && Booting() && kernel == old(kernel) && kernel in dirs
        invariant dirs.Keys == old(dirs.Keys)
        invariant BootMap(State(), n, 0) && BootTables(dirs[kernel].table, n, true)
        invariant (n - 1) * PAGE < placement <= p1 + PAGE * (TablesFor(n) + 1)
        invariant TablesFor(n) == 0 || placement % PAGE == 0
        invariant TablesFor(n) == 0 ==> placement == p1
        decreases PAGE * FRAME_COUNT - n * PAGE
      {
        MapBootPage(n, n, 0, true);
        n := n + 1;
      }
    }

    /** Lines 147-149: frames for the initial heap; no table is made, so nothing moves. */
    method MapHeapPages(n: nat)
      requires Booting() && kernel in dirs && BootMap(State(), n, 0) && BootTables(dirs[kernel].table, n, true)
      requires bitmap.Count() == FRAME_COUNT && 0 < n <= FRAME_COUNT - KHEAP_PAGES
      modifies this, bitmap.bits
      ensures Valid() && !heaped && kernel == old(kernel) && dirs.Keys == old(dirs.Keys) && placement == old(placement)
      ensures BootMap(State(), n, KHEAP_PAGES)
    {
      hide Owned, Shared, Shaped, Placed, AllNamed, Housed, BelowPlacement, BootMap, BootTables, TablesFor;
      var h := 0;
      while h < KHEAP_PAGES
        invariant h <= KHEAP_PAGES && Booting() && kernel == old(kernel) && kernel in dirs
        invariant dirs.Keys == old(dirs.Keys)
        invariant BootMap(State(), n, h) && BootTables(dirs[kernel].table, n, true) && placement == old(placement)
      {
        MapBootPage(KHEAP_START / PAGE + h, n, h, false);
        h := h + 1;
      }
      BootUsed(State(), n, h);
    }

    /** The rest of init_paging up to the switch of directories (lines 133-149): tables for
        the heap first, then the identity map, whose bound moves while get_page takes
        tables below it, then frames for the heap. */
    method InitPaging() returns (n: nat)
      requires Booting() && Used() == {} && kernel in dirs && BootMap(State(), 0, 0)
      requires dirs[kernel].table == seq(ENTRIES, _ => 0)
      requires bitmap.Count() == FRAME_COUNT && placement + BOOT_SLACK + KHEAP_INITIAL_SIZE <= PAGE * FRAME_COUNT
      modifies this, bitmap.bits
      ensures Valid() && !heaped && kernel == old(kernel) && dirs.Keys == old(dirs.Keys)
      ensures BootMap(State(), n, KHEAP_PAGES) && (n - 1) * PAGE < placement <= n * PAGE
      ensures placement <= old(placement) + BOOT_SLACK
    {
      hide Owned, Shared, Shaped, Placed, AllNamed, Housed, BelowPlacement, BootMap, BootTables, TablesFor, PageUp;
      MakeHeapTables();
      PlacementMoves(placement, HEAP_T_SIZE, phys);
      placement := placement + HEAP_T_SIZE;
      n := IdentityMap();
      MapHeapPages(n);
    }
  }

  // ---------------------------------------------------------------- init_paging

  const FRAME_COUNT := 4096
  const KHEAP_START := 0xC000_0000
  const KHEAP_INITIAL_SIZE := 0x10_0000
  const KHEAP_PAGES := 256
  const HEAP_T_SIZE := 32
  const BOOT_SLACK := 0x8000
  const BOOT_TABLES := 0x5000

  /** A page that alloc_frame(page, 0, 1) maps to frame f. */
  function UserPage(f: nat): Page { Page(true, true, true, false, false, f) }

  /** The first n pages are mapped to themselves, the first h pages of the heap to the h
      frames that follow, and nothing else is mapped or used. */
  ghost predicate BootMap(s: Space, n: nat, h: nat) {
    && Shaped(s.tables, s.dirs, s.kernel)
    && s.used == Below(n + h)
    && forall vpn: nat :: vpn < ENTRIES * ENTRIES ==> Entry(s, s.kernel, vpn) == BootEntry(vpn, n, h)
  }

  function BootEntry(vpn: nat, n: nat, h: nat): Page {
    if vpn < n then UserPage(vpn)
    else if KHEAP_START / PAGE <= vpn < KHEAP_START / PAGE + h then UserPage(n + vpn - KHEAP_START / PAGE)
    else ZERO_PAGE
  }

  /** How many tables the first n pages need. */
  function TablesFor(n: nat): nat { (n + ENTRIES - 1) / ENTRIES }

  /** The tables that exist: those of the first n pages, and that of the heap. */
  ghost predicate BootTables(table: seq<int>, n: nat, heap: bool) {
    && |table| == ENTRIES
    && forall i :: 0 <= i < ENTRIES ==>
         (table[i] != 0 <==> i < TablesFor(n) || (heap && i == KHEAP_START / PAGE / ENTRIES))
  }

  lemma BootIndex(s: Space, vpn: nat)
    requires s.Valid() && vpn < ENTRIES * ENTRIES
    ensures s.kernel in s.dirs && |s.dirs[s.kernel].table| == |s.dirs[s.kernel].phy| == ENTRIES && vpn * PAGE < TWO32
    ensures vpn * PAGE / PAGE == vpn && vpn / ENTRIES < ENTRIES
  {
    assert DirShaped(s.dirs[s.kernel], s.tables);
  }

  /** Which table the next page of the boot map lies in. */
  lemma BootIndexOf(table: seq<int>, vpn: nat, n: nat, h: nat, make: bool, next: int)
    requires BootTables(table, n, true) && n + h < FRAME_COUNT
    requires if make then vpn == n else vpn == KHEAP_START / PAGE + h && h < KHEAP_PAGES
    ensures vpn < ENTRIES * ENTRIES && vpn / ENTRIES < ENTRIES
    ensures table[vpn / ENTRIES] == 0 ==> make && TablesFor(n + 1) == TablesFor(n) + 1 && vpn / ENTRIES == TablesFor(n)
    ensures table[vpn / ENTRIES] == 0 && next != 0 ==> BootTables(table[vpn / ENTRIES := next], n + 1, true)
    ensures table[vpn / ENTRIES] != 0 && make ==> TablesFor(n + 1) == TablesFor(n) && BootTables(table, n + 1, true)
  {
  }

  lemma BootUsed(s: Space, n: nat, h: nat)
    requires BootMap(s, n, h)
    ensures s.used == Below(n + h)
  {
  }

  lemma WithTableEntry(s: Space, d: int, i: int, t: int, ph: int, e: int, vpn: nat)
    requires s.Valid() && d in s.dirs && e in s.dirs && 0 <= i < ENTRIES && t !in s.tables && t != 0
    requires |s.dirs[d].table| == |s.dirs[d].phy| == ENTRIES && s.dirs[d].table[i] == 0 && vpn < ENTRIES * ENTRIES
    requires WithTable(s, d, i, t, ph).Valid()
    ensures Entry(WithTable(s, d, i, t, ph), e, vpn) == Entry(s, e, vpn)
  {
    assert DirShaped(s.dirs[e], s.tables);
  }

  lemma TableAdded(s: Space, i: int, t: int, ph: int, n: nat, h: nat)
    requires s.Valid() && BootMap(s, n, h) && 0 <= i < ENTRIES && t !in s.tables && t != 0
    requires |s.dirs[s.kernel].table| == |s.dirs[s.kernel].phy| == ENTRIES && s.dirs[s.kernel].table[i] == 0
    ensures WithTable(s, s.kernel, i, t, ph).Valid() && BootMap(WithTable(s, s.kernel, i, t, ph), n, h)
    ensures var u := WithTable(s, s.kernel, i, t, ph);
            && u.kernel == s.kernel && u.dirs.Keys == s.dirs.Keys && u.kernel in u.dirs && u.used == s.used
            && u.dirs[s.kernel].table == s.dirs[s.kernel].table[i := t]
  {
    hide Owned, Shared, Entry;
    WithTableValid(s, s.kernel, i, t, ph);
    forall vpn: nat | vpn < ENTRIES * ENTRIES
      ensures Entry(WithTable(s, s.kernel, i, t, ph), s.kernel, vpn) == BootEntry(vpn, n, h) {
      WithTableEntry(s, s.kernel, i, t, ph, s.kernel, vpn);
      assert Entry(s, s.kernel, vpn) == BootEntry(vpn, n, h);
    }
  }

  /** The kernel directory has a table for vpn. */
  ghost predicate BootPlace(s: Space, vpn: nat) {
    && vpn < ENTRIES * ENTRIES && s.kernel in s.dirs && vpn / ENTRIES < |s.dirs[s.kernel].table|
    && s.dirs[s.kernel].table[vpn / ENTRIES] != 0
  }

  lemma BootPlaceIs(s: Space, vpn: nat)
    requires s.Valid() && vpn < ENTRIES * ENTRIES && s.kernel in s.dirs && vpn / ENTRIES < |s.dirs[s.kernel].table|
    requires s.dirs[s.kernel].table[vpn / ENTRIES] != 0
    ensures BootPlace(s, vpn)
  {
  }

  lemma BootSlot(s: Space, vpn: nat, n: nat, h: nat)
    requires s.Valid() && BootMap(s, n, h) && BootPlace(s, vpn) && n + h < FRAME_COUNT
    requires (vpn == n && h == 0) || (vpn == KHEAP_START / PAGE + h && h < KHEAP_PAGES)
    ensures var t := s.dirs[s.kernel].table[vpn / ENTRIES];
            Slot(s.tables, t, vpn % ENTRIES) && s.tables[t][vpn % ENTRIES] == ZERO_PAGE
  {
    assert DirShaped(s.dirs[s.kernel], s.tables);
    assert Entry(s, s.kernel, vpn) == BootEntry(vpn, n, h);
  }

  /** The numbers below k. */
  ghost function Below(k: nat): (r: set<nat>)
    ensures |r| == k && forall f: nat :: f in r <==> f < k
  {
    if k == 0 then {} else Below(k - 1) + {k - 1}
  }

  lemma LeastIs(k: nat)
    ensures forall f: nat :: IsLeastFree(f, Below(k)) ==> f == k
    ensures Below(k) + {k} == Below(k + 1)
  {
    forall f: nat | IsLeastFree(f, Below(k)) ensures f == k {
      assert f !in Below(k) && k !in Below(k);
    }
  }

  lemma BootAfterAlloc(s: Space, used: set<nat>, tables: map<int, seq<Page>>, vpn: nat, n: nat, h: nat)
    requires s.Valid() && BootMap(s, n, h) && BootPlace(s, vpn)
    requires (vpn == n && h == 0) || (vpn == KHEAP_START / PAGE + h && h < KHEAP_PAGES)
    requires n < KHEAP_START / PAGE && used == s.used + {n + h} && Owned(tables, used)
    requires Slot(s.tables, s.dirs[s.kernel].table[vpn / ENTRIES], vpn % ENTRIES)
    requires tables == SetEntry(s.tables, s.dirs[s.kernel].table[vpn / ENTRIES], vpn % ENTRIES, UserPage(n + h))
    ensures var t := Space(tables, s.dirs, s.kernel, used);
            t.Valid() && BootMap(t, if vpn == n then n + 1 else n, if vpn == n then h else h + 1)
  {
    hide Owned, Shared, Entry, BootEntry, SetEntry;
    var t := Space(tables, s.dirs, s.kernel, used);
    var a := s.dirs[s.kernel].table[vpn / ENTRIES];
    SetEntryShaped(s.tables, s.dirs, s.kernel, a, vpn % ENTRIES, UserPage(n + h));
    var n', h' := if vpn == n then n + 1 else n, if vpn == n then h else h + 1;
    forall v: nat | v < ENTRIES * ENTRIES ensures Entry(t, s.kernel, v) == BootEntry(v, n', h') {
      assert Entry(s, s.kernel, v) == BootEntry(v, n, h);
      EntrySet(s, tables, used, vpn, UserPage(n + h), v);
      BootEntryNext(vpn, n, h, v);
    }
    BelowNext(s.used, n, h, vpn);
  }

  lemma BelowNext(used: set<nat>, n: nat, h: nat, vpn: nat)
    requires used == Below(n + h) && ((vpn == n && h == 0) || vpn == KHEAP_START / PAGE + h) && n < KHEAP_START / PAGE
    ensures used + {n + h} == Below((if vpn == n then n + 1 else n) + (if vpn == n then h else h + 1))
  {
    LeastIs(n + h);
  }

  /** One more page of the boot map. */
  lemma BootEntryNext(vpn: nat, n: nat, h: nat, v: nat)
    requires (vpn == n && h == 0) || (vpn == KHEAP_START / PAGE + h && h < KHEAP_PAGES)
    requires n < KHEAP_START / PAGE
    ensures BootEntry(v, if vpn == n then n + 1 else n, if vpn == n then h else h + 1)
            == if v == vpn then UserPage(n + h) else BootEntry(v, n, h)
  {
  }

  /** Setting the entry of one page of the kernel directory. */
  lemma EntrySet(s: Space, tables: map<int, seq<Page>>, used: set<nat>, vpn: nat, p: Page, v: nat)
    requires s.Valid() && vpn < ENTRIES * ENTRIES && v < ENTRIES * ENTRIES && BootPlace(s, vpn)
    requires Slot(s.tables, s.dirs[s.kernel].table[vpn / ENTRIES], vpn % ENTRIES)
    requires tables == SetEntry(s.tables, s.dirs[s.kernel].table[vpn / ENTRIES], vpn % ENTRIES, p)
    requires Shaped(tables, s.dirs, s.kernel)
    ensures Entry(Space(tables, s.dirs, s.kernel, used), s.kernel, v) == if v == vpn then p else Entry(s, s.kernel, v)
  {
    hide Owned, Shared;
    if v != vpn {
      OtherEntry(s, vpn, v);
    }
  }

  /** Different pages of a directory have different slots. */
  lemma OtherEntry(s: Space, vpn: nat, v: nat)
    requires s.Valid() && vpn < ENTRIES * ENTRIES && v < ENTRIES * ENTRIES && v != vpn
    requires s.dirs[s.kernel].table[vpn / ENTRIES] != 0
    ensures s.dirs[s.kernel].table[v / ENTRIES] == s.dirs[s.kernel].table[vpn / ENTRIES] ==>
              v % ENTRIES != vpn % ENTRIES
  {
    assert DirShaped(s.dirs[s.kernel], s.tables);
    if s.dirs[s.kernel].table[v / ENTRIES] == s.dirs[s.kernel].table[vpn / ENTRIES] {
      assert HasTable(s.dirs, s.kernel, v / ENTRIES) && HasTable(s.dirs, s.kernel, vpn / ENTRIES);
    }
  }

  // ---------------------------------------------------------------- clone_dir

  /** Table i of directory d is its own, not the kernel's. */
  predicate PrivateTable(dirs: map<int, Dir>, kernel: int, d: int, i: int)
    requires d in dirs && kernel in dirs && 0 <= i < |dirs[d].table| && i < |dirs[kernel].table|
  {
    dirs[d].table[i] != 0 && dirs[d].table[i] != dirs[kernel].table[i]
  }

  /** How many frames the private tables of d below index n hold. */
  ghost function PrivateFrames(s: Space, d: int, n: nat): nat
    requires Shaped(s.tables, s.dirs, s.kernel) && d in s.dirs && n <= ENTRIES
  {
    if n == 0 then 0
    else
      PrivateFrames(s, d, n - 1)
      + (if PrivateTable(s.dirs, s.kernel, d, n - 1) then CountFrames(s.tables[s.dirs[d].table[n - 1]], 0, ENTRIES)
         else 0)
  }

  /** How many private tables d has below index n. */
  function PrivateTables(dirs: map<int, Dir>, kernel: int, d: int, n: nat): nat
    requires d in dirs && kernel in dirs && n <= |dirs[d].table| && n <= |dirs[kernel].table|
  {
    if n == 0 then 0
    else PrivateTables(dirs, kernel, d, n - 1) + (if PrivateTable(dirs, kernel, d, n - 1) then 1 else 0)
  }

  lemma {:induction false} TablesMonotone(s: Space, d: int, i: nat)
    requires s.Valid() && d in s.dirs && i <= ENTRIES
    ensures PrivateTables(s.dirs, s.kernel, d, 0) == 0
    ensures PrivateTables(s.dirs, s.kernel, d, i) <= PrivateTables(s.dirs, s.kernel, d, ENTRIES)
    ensures i < ENTRIES ==>
              PrivateTables(s.dirs, s.kernel, d, i + 1)
              == PrivateTables(s.dirs, s.kernel, d, i) + (if PrivateTable(s.dirs, s.kernel, d, i) then 1 else 0)
    ensures i < ENTRIES ==> PrivateTables(s.dirs, s.kernel, d, i + 1) <= PrivateTables(s.dirs, s.kernel, d, ENTRIES)
    decreases ENTRIES - i
  {
    if i < ENTRIES {
      TablesMonotone(s, d, i + 1);
    }
  }

  lemma NamedEmpty(phys: map<int, int>)
    ensures Named(Dir(seq(ENTRIES, _ => 0), seq(ENTRIES, _ => 0), 0), phys)
  {
  }

  /** The entry of a shared table is copied with it. */
  lemma NamedShared(dirs: map<int, Dir>, phys: map<int, int>, src: int, i: nat, table: seq<int>, phy: seq<int>)
    requires AllNamed(dirs, phys) && src in dirs && i < ENTRIES && Named(Dir(table, phy, 0), phys)
    ensures |dirs[src].table| == |dirs[src].phy| == ENTRIES
    ensures Named(Dir(table[i := dirs[src].table[i]], phy[i := dirs[src].phy[i]], 0), phys)
  {
    assert Named(dirs[src], phys);
    var t, e := dirs[src].table[i], dirs[src].phy[i];
    assert NamedEntry(t, e, phys);
    var d := Dir(table[i := t], phy[i := e], 0);
    forall j | 0 <= j < ENTRIES ensures NamedEntry(d.table[j], d.phy[j], phys) {
      assert NamedEntry(table[j], phy[j], phys);
    }
  }

  /** The entry of a new table is its physical address with the flags. */
  lemma NamedOwn(table: seq<int>, phy: seq<int>, phys: map<int, int>, more: map<int, int>, i: nat, u: int, ph: int)
    requires Named(Dir(table, phy, 0), phys) && i < ENTRIES && u in more && more[u] == ph && u != 0
    requires forall k :: k in more ==> k !in phys
    ensures Named(Dir(table[i := u], phy[i := ph + 7], 0), phys + more)
  {
    var d := Dir(table[i := u], phy[i := ph + 7], 0);
    NamedStill(Dir(table, phy, 0), phys, more);
    forall j | 0 <= j < ENTRIES ensures NamedEntry(d.table[j], d.phy[j], phys + more) {
      assert NamedEntry(table[j], phy[j], phys + more);
    }
  }

  lemma NamedDirs(dirs: map<int, Dir>, phys: map<int, int>, nd: int, table: seq<int>, phy: seq<int>, dirPhy: int)
    requires AllNamed(dirs, phys) && Named(Dir(table, phy, 0), phys)
    ensures AllNamed(dirs[nd := Dir(table, phy, dirPhy)], phys)
  {
    var now := dirs[nd := Dir(table, phy, dirPhy)];
    assert Named(Dir(table, phy, dirPhy), phys) by {
      forall j | 0 <= j < ENTRIES ensures NamedEntry(table[j], phy[j], phys) {
        assert NamedEntry(Dir(table, phy, 0).table[j], Dir(table, phy, 0).phy[j], phys);
      }
    }
    forall d | d in now ensures Named(now[d], phys) {
      if d != nd {
        assert Named(dirs[d], phys);
      }
    }
  }

  /** What clone_dir puts at index i: nothing, the kernel's own table, or a fresh table of
      copies. */
  ghost predicate ClonedAt(s: Space, m0: seq<int>, src: int, tables: map<int, seq<Page>>, m: seq<int>, d: Dir, i: int)
    requires Shaped(s.tables, s.dirs, s.kernel) && src in s.dirs && 0 <= i < ENTRIES && |d.table| == |d.phy| == ENTRIES
  {
    var t := s.dirs[src].table[i];
    if t == 0 then d.table[i] == 0
    else if !PrivateTable(s.dirs, s.kernel, src, i) then d.table[i] == t && d.phy[i] == s.dirs[src].phy[i]
    else
      var u := d.table[i];
      && u != 0 && u !in s.tables && u in tables && |tables[u]| == ENTRIES
      && forall k :: 0 <= k < ENTRIES ==> Copied(s.tables[t][k], tables[u][k], s.used, m0, m)
  }

  /** The state of clone_dir before index n. */
  ghost predicate Cloning(s: Space, m0: seq<int>, src: int, tables: map<int, seq<Page>>, m: seq<int>, table: seq<int>,
                          phy: seq<int>, n: int) {
    && s.Valid() && src in s.dirs && |table| == |phy| == ENTRIES && 0 <= n <= ENTRIES
    && (forall t :: t in s.tables ==> t in tables && tables[t] == s.tables[t])
    && (forall t :: t in tables ==> |tables[t]| == ENTRIES)
    && (forall i :: 0 <= i < n ==> ClonedAt(s, m0, src, tables, m, Dir(table, phy, 0), i))
    && (forall i :: n <= i < ENTRIES ==> table[i] == 0)
    && (forall i, j :: 0 <= i < j < ENTRIES && table[i] != 0 && table[j] != 0 && table[i] !in s.tables ==>
          table[i] != table[j])
    && (forall i :: 0 <= i < ENTRIES && table[i] != 0 ==> table[i] in tables)
  }

  lemma CloneStart(s: Space, m0: seq<int>, src: int, table: seq<int>, phy: seq<int>)
    requires s.Valid() && src in s.dirs && |table| == |phy| == ENTRIES && forall i :: 0 <= i < ENTRIES ==> table[i] == 0
    ensures Cloning(s, m0, src, s.tables, m0, table, phy, 0)
    ensures PrivateFrames(s, src, 0) == 0 && SameFrames(m0, m0, s.used)
  {
  }

  lemma {:induction false} PrivateStep(s: Space, src: int, i: nat)
    requires s.Valid() && src in s.dirs && i < ENTRIES
    ensures PrivateFrames(s, src, i + 1)
            == PrivateFrames(s, src, i)
               + (if PrivateTable(s.dirs, s.kernel, src, i) then CountFrames(s.tables[s.dirs[src].table[i]], 0, ENTRIES)
                  else 0)
    ensures PrivateFrames(s, src, i + 1) <= PrivateFrames(s, src, ENTRIES)
    decreases ENTRIES - i
  {
    if i + 1 < ENTRIES {
      PrivateStep(s, src, i + 1);
    }
  }

  lemma CloneShapes(s: Space, src: int, i: nat)
    requires s.Valid() && src in s.dirs && i < ENTRIES
    ensures s.kernel in s.dirs && |s.dirs[src].table| == |s.dirs[src].phy| == |s.dirs[s.kernel].table| == ENTRIES
    ensures s.dirs[src].table[i] != 0 ==>
              s.dirs[src].table[i] in s.tables && |s.tables[s.dirs[src].table[i]]| == ENTRIES
  {
    assert DirShaped(s.dirs[src], s.tables) && DirShaped(s.dirs[s.kernel], s.tables);
  }

  /** What an index of the new directory holds does not change when frames that were free
      are filled and tables are added. */
  lemma ClonedStays(s: Space, m0: seq<int>, src: int, tables1: map<int, seq<Page>>, used1: set<nat>, m1: seq<int>,
                    d1: Dir, tables: map<int, seq<Page>>, m: seq<int>, d: Dir, i: int)
    requires s.Valid() && src in s.dirs && 0 <= i < ENTRIES && |d1.table| == |d1.phy| == |d.table| == |d.phy| == ENTRIES
    requires ClonedAt(s, m0, src, tables1, m1, d1, i) && Owned(tables1, used1) && SameFrames(m1, m, used1)
    requires forall t :: t in tables1 ==> t in tables && tables[t] == tables1[t]
    requires d.table[i] == d1.table[i] && d.phy[i] == d1.phy[i]
    ensures ClonedAt(s, m0, src, tables, m, d, i)
  {
    hide PageOf, Shared;
    var t := s.dirs[src].table[i];
    if t != 0 && PrivateTable(s.dirs, s.kernel, src, i) {
      var u := d.table[i];
      forall k | 0 <= k < ENTRIES ensures Copied(s.tables[t][k], tables[u][k], s.used, m0, m) {
        assert Copied(s.tables[t][k], tables1[u][k], s.used, m0, m1);
        OwnedInUsed(tables1, used1, u, k);
      }
    }
  }

  lemma CloneNext(s: Space, m0: seq<int>, src: int, tables1: map<int, seq<Page>>, used1: set<nat>, m1: seq<int>,
                  table1: seq<int>, phy1: seq<int>,
                  tables: map<int, seq<Page>>, m: seq<int>, table: seq<int>, phy: seq<int>, n: int)
    requires n < ENTRIES && Cloning(s, m0, src, tables1, m1, table1, phy1, n)
    requires Owned(tables1, used1) && SameFrames(m1, m, used1)
    requires forall t :: t in tables1 ==> t in tables && tables[t] == tables1[t]
    requires forall t :: t in tables ==> |tables[t]| == ENTRIES
    requires |table| == |phy| == ENTRIES
    requires forall k :: 0 <= k < ENTRIES && k != n ==> table[k] == table1[k] && phy[k] == phy1[k]
    requires ClonedAt(s, m0, src, tables, m, Dir(table, phy, 0), n)
    requires table[n] != 0 ==> table[n] in tables && (table[n] in s.tables || table[n] !in tables1)
    ensures Cloning(s, m0, src, tables, m, table, phy, n + 1)
  {
    hide ClonedAt, Owned, SameFrames, Shared, Shaped;
    forall i | 0 <= i < n + 1 ensures ClonedAt(s, m0, src, tables, m, Dir(table, phy, 0), i) {
      if i < n {
        ClonedStays(s, m0, src, tables1, used1, m1, Dir(table1, phy1, 0), tables, m, Dir(table, phy, 0), i);
      }
    }
  }

  /** The new index, in each of the three cases. */
  lemma CloneHere(s: Space, m0: seq<int>, src: int, tables1: map<int, seq<Page>>, used1: set<nat>, m1: seq<int>,
                  tables: map<int, seq<Page>>, m: seq<int>, table: seq<int>, phy: seq<int>, n: int)
    requires s.Valid() && src in s.dirs && 0 <= n < ENTRIES && |table| == |phy| == ENTRIES
    requires forall t :: t in s.tables ==> t in tables1 && tables1[t] == s.tables[t]
    requires s.used <= used1 && SameFrames(m0, m1, s.used)
    requires var t := s.dirs[src].table[n];
             if t == 0 then table[n] == 0 && tables == tables1 && m == m1
             else if !PrivateTable(s.dirs, s.kernel, src, n) then
               table[n] == t && phy[n] == s.dirs[src].phy[n] && tables == tables1 && m == m1
             else
               var u := table[n];
               && u != 0 && u !in tables1 && u in tables && tables == tables1[u := tables[u]] && |tables[u]| == ENTRIES
               && t in tables1 && |tables1[t]| == ENTRIES
               && forall k :: 0 <= k < ENTRIES ==> Copied(tables1[t][k], tables[u][k], used1, m1, m)
    ensures ClonedAt(s, m0, src, tables, m, Dir(table, phy, 0), n)
  {
    hide PageOf, Shared;
    var t := s.dirs[src].table[n];
    if t != 0 && PrivateTable(s.dirs, s.kernel, src, n) {
      var u := table[n];
      assert DirShaped(s.dirs[src], s.tables);
      forall k | 0 <= k < ENTRIES ensures Copied(s.tables[t][k], tables[u][k], s.used, m0, m) {
        assert Copied(tables1[t][k], tables[u][k], used1, m1, m);
        OwnedInUsed(s.tables, s.used, t, k);
      }
    }
  }

  /** The finished directory is a proper one. */
  lemma CloneDone(s: Space, m0: seq<int>, src: int, tables: map<int, seq<Page>>, used: set<nat>, m: seq<int>,
                  table: seq<int>, phy: seq<int>, nd: int, dirPhy: int)
    requires Cloning(s, m0, src, tables, m, table, phy, ENTRIES) && Owned(tables, used) && nd !in s.dirs
    ensures Space(tables, s.dirs[nd := Dir(table, phy, dirPhy)], s.kernel, used).Valid()
    ensures var d := Dir(table, phy, dirPhy); forall i :: 0 <= i < ENTRIES ==> ClonedAt(s, m0, src, tables, m, d, i)
  {
    hide Owned, Shared, Copied;
    var d := Dir(table, phy, dirPhy);
    assert DirShaped(s.dirs[src], s.tables) && DirShaped(s.dirs[s.kernel], s.tables);
    forall i | 0 <= i < ENTRIES
      ensures ClonedAt(s, m0, src, tables, m, d, i)
      ensures d.table[i] != 0 ==> d.table[i] in tables
      ensures d.table[i] != 0 ==>
                || d.table[i] !in s.tables
                || (HasTable(s.dirs, s.kernel, i) && d.table[i] == s.dirs[s.kernel].table[i])
    {
      assert ClonedAt(s, m0, src, tables, m, Dir(table, phy, 0), i);
    }
    assert CloneShaped(s, tables, d);
    forall t | t in s.tables.Keys ensures t in tables.Keys {
      assert t in s.tables;
    }
    NewDirValid(s, tables, used, nd, d);
  }

  /** Directory nd is a clone of src, and nothing else has changed. */
  ghost predicate Cloned(s: Space, m0: seq<int>, src: int, t: Space, m: seq<int>, nd: int) {
    && s.Valid() && t.Valid() && src in s.dirs && nd !in s.dirs && nd in t.dirs
    && t.dirs == s.dirs[nd := t.dirs[nd]] && t.kernel == s.kernel
    && (forall a :: a in s.tables ==> a in t.tables && t.tables[a] == s.tables[a])
    && s.used <= t.used && SameFrames(m0, m, s.used)
    && forall i :: 0 <= i < ENTRIES ==> CloneIndex(s, m0, src, t, m, nd, i)
  }

  /** After clone_dir the child shows at every virtual page what the parent shows, and the
      parent shows what it did before. Kernel pages are the same pages; every other mapped
      page of the child has a frame that was free. */
  lemma CloneViews(s: Space, m0: seq<int>, src: int, t: Space, m: seq<int>, nd: int, vpn: nat)
    requires Cloned(s, m0, src, t, m, nd) && vpn < ENTRIES * ENTRIES
    ensures View(t, m, nd, vpn) == View(t, m, src, vpn) == View(s, m0, src, vpn)
    ensures KernelPage(s, src, vpn) <==> KernelPage(t, nd, vpn)
    ensures KernelPage(s, src, vpn) ==> Entry(t, nd, vpn) == Entry(s, src, vpn)
    ensures var p, q := Entry(s, src, vpn), Entry(t, nd, vpn);
            !KernelPage(s, src, vpn) ==>
              if p.frame == 0 then q == Page(false, false, false, false, false, 0)
              else
                && q == Page(true, p.rw, true, p.accessed, p.dirty, q.frame)
                && q.frame != 0 && q.frame !in s.used
  {
    hide PageOf, Shared;
    var i, k := vpn / ENTRIES, vpn % ENTRIES;
    assert CloneIndex(s, m0, src, t, m, nd, i);
    assert DirShaped(s.dirs[src], s.tables) && DirShaped(s.dirs[s.kernel], s.tables) && DirShaped(t.dirs[nd], t.tables);
    var a := s.dirs[src].table[i];
    if a != 0 {
      OwnedInUsed(s.tables, s.used, a, k);
      if PrivateTable(s.dirs, s.kernel, src, i) {
        assert Copied(s.tables[a][k], t.tables[t.dirs[nd].table[i]][k], s.used, m0, m);
      }
    }
  }

  /** The boot map, entry by entry: the pages below n are mapped to themselves, the pages of the
      heap to the frames that follow, all of them valid, writable and open to the user;
      nothing else is mapped. The frames in use are those. */
  lemma BootPages(s: Space, n: nat, h: nat, vpn: nat)
    requires BootMap(s, n, h) && n <= 0xC_0000 && vpn < ENTRIES * ENTRIES
    ensures Shaped(s.tables, s.dirs, s.kernel) && forall f: nat :: f in s.used <==> f < n + h
    ensures Entry(s, s.kernel, vpn) ==
              if vpn < n then Page(true, true, true, false, false, vpn)
              else if 0xC_0000 <= vpn < 0xC_0000 + h then Page(true, true, true, false, false, n + (vpn - 0xC_0000))
              else Page(false, false, false, false, false, 0)
  {
  }

  /** What the processor walks after boot: exactly the boot map. */
  lemma BootHardware(s: Space, phys: map<int, int>, n: nat, h: nat, vpn: nat)
    requires s.Valid() && BootMap(s, n, h) && Placed(s.tables.Keys, phys) && AllNamed(s.dirs, phys)
    requires vpn < ENTRIES * ENTRIES
    ensures |s.dirs[s.kernel].phy| == ENTRIES && HardwareEntry(s, phys, s.kernel, vpn) == BootEntry(vpn, n, h)
  {
    hide Owned, Shared, HardwareEntry, BootEntry, Entry;
    HardwareSees(s, phys, s.kernel, vpn);
    assert Entry(s, s.kernel, vpn) == BootEntry(vpn, n, h);
  }

  ghost predicate CloneIndex(s: Space, m0: seq<int>, src: int, t: Space, m: seq<int>, nd: int, i: int)
    requires Shaped(s.tables, s.dirs, s.kernel) && Shaped(t.tables, t.dirs, t.kernel) && src in s.dirs && nd in t.dirs
    requires 0 <= i < ENTRIES
  {
    |t.dirs[nd].table| == |t.dirs[nd].phy| == ENTRIES && ClonedAt(s, m0, src, t.tables, m, t.dirs[nd], i)
  }

  /** The frames of a bitmap are below its count. */
  lemma RowInUsed(tables: map<int, seq<Page>>, used: set<nat>, t: int)
    requires Owned(tables, used) && t in tables
    ensures forall k :: 0 <= k < |tables[t]| && tables[t][k].frame != 0 ==> tables[t][k].frame in used
  {
    forall k | 0 <= k < |tables[t]| && tables[t][k].frame != 0 ensures tables[t][k].frame in used {
      OwnedInUsed(tables, used, t, k);
    }
  }

  lemma InBitmap(f: nat, used0: set<nat>, used: set<nat>)
    requires f in used0 && used0 <= used
    ensures f in used
  {
  }

  lemma SameFramesSelf(m: seq<int>, used: set<nat>)
    ensures SameFrames(m, m, used)
  {
  }

  lemma SameFramesTrans(m0: seq<int>, m1: seq<int>, m: seq<int>, used0: set<nat>, used1: set<nat>)
    requires SameFrames(m0, m1, used0) && SameFrames(m1, m, used1) && used0 <= used1
    ensures SameFrames(m0, m, used0)
  {
    hide PageOf;
  }

  lemma CopiedEmpty(p: Page, used0: set<nat>, m0: seq<int>, m: seq<int>)
    requires p.frame == 0
    ensures Copied(p, ZERO_PAGE, used0, m0, m)
  {
  }

  lemma SameFrameKeepsOwned(tables: map<int, seq<Page>>, used: set<nat>, t: int, i: int, p: Page)
    requires Owned(tables, used) && t in tables && 0 <= i < |tables[t]| && p.frame == tables[t][i].frame
    ensures Owned(SetEntry(tables, t, i, p), used)
  {
    var after := SetEntry(tables, t, i, p);
    forall u, j ensures Slot(after, u, j) <==> Slot(tables, u, j)
      ensures Slot(tables, u, j) ==> FrameAt(after, u, j) == FrameAt(tables, u, j)
    {
      SetEntryAt(tables, t, i, p, u, j);
    }
    forall f | f in used && f != 0 ensures Held(after, f) {
      assert Held(tables, f);
      var u, j :| Slot(tables, u, j) && FrameAt(tables, u, j) == f;
      assert Slot(after, u, j) && FrameAt(after, u, j) == f;
    }
    forall u, k, v, j | Slot(after, u, k) && Slot(after, v, j) && SameFrame(after, u, k, v, j)
      ensures u == v && k == j {
      assert SameFrame(tables, u, k, v, j);
    }
  }

  /** Copying into a frame that was free leaves the earlier copies and all frames that were
      in use alone. */
  lemma RowGrows(pages: seq<Page>, row: seq<Page>, row': seq<Page>, i: nat, used0: set<nat>, used: set<nat>,
                 m0: seq<int>, m: seq<int>, m': seq<int>)
    requires i < |pages| == |row| == |row'| && used0 <= used && 0 in used0 && |m| == |m'|
    requires forall k :: 0 <= k < i ==> Copied(pages[k], row[k], used0, m0, m)
    requires forall k :: 0 <= k < |row| && row[k].frame != 0 ==> row[k].frame in used
    requires forall k :: 0 <= k < i ==> row'[k] == row[k]
    requires var p, q := pages[i], row'[i];
             && p.frame != 0 && p.frame in used0 && q == Page(true, p.rw, true, p.accessed, p.dirty, q.frame)
             && q.frame !in used
             && PageOf(m', q.frame) == PageOf(m, p.frame)
             && forall h: nat :: h != q.frame ==> PageOf(m', h) == PageOf(m, h)
    requires SameFrames(m0, m, used0)
    ensures forall k :: 0 <= k < i + 1 ==> Copied(pages[k], row'[k], used0, m0, m')
    ensures SameFrames(m0, m', used0)
  {
    hide PageOf;
    forall k | 0 <= k < i ensures Copied(pages[k], row'[k], used0, m0, m') {
      assert Copied(pages[k], row[k], used0, m0, m);
    }
  }

  lemma SetSame(tables: map<int, seq<Page>>, t: int, i: int, p: Page)
    requires t in tables && 0 <= i < |tables[t]| && tables[t][i] == p
    ensures SetEntry(tables, t, i, p) == tables
  {
    assert tables[t][i := p] == tables[t];
  }

  lemma SetEntryKeys(tables: map<int, seq<Page>>, t: int, i: int, p: Page)
    requires t in tables && 0 <= i < |tables[t]|
    ensures SetEntry(tables, t, i, p).Keys == tables.Keys
  {
  }

  lemma PageCopied(m: seq<int>, n: seq<int>, f: nat, g: nat)
    requires |m| == |n| && WORDS * f + WORDS <= |m| && WORDS * g + WORDS <= |m|
    requires forall a :: 0 <= a < |m| && !(WORDS * g <= a < WORDS * g + WORDS) ==> n[a] == m[a]
    requires forall a :: WORDS * g <= a < WORDS * g + WORDS ==> n[a] == m[a - WORDS * g + WORDS * f]
    ensures PageOf(n, g) == PageOf(m, f)
    ensures forall h: nat :: h != g ==> PageOf(n, h) == PageOf(m, h)
  {
  }

  /** init_paging from the start (lines 118-149): whatever the end of the kernel image, as
      long as memory has room for what boot allocates, the kernel directory maps exactly the
      pages below the final placement_address to themselves and the initial heap to the
      frames that follow. */
  method InitPagingFrom(memory: array<int>, free: nat) returns (vm: Vmm, n: nat)
    requires memory.Length == WORDS * FRAME_COUNT
    requires PageUp(free + FRAME_COUNT / 8) + DIR_SIZE + BOOT_SLACK + KHEAP_INITIAL_SIZE <= PAGE * FRAME_COUNT
    ensures fresh(vm) && vm.Valid() && vm.mem == memory && vm.dirs.Keys == {vm.kernel}
    ensures BootMap(vm.State(), n, KHEAP_PAGES) && (n - 1) * PAGE < vm.placement <= n * PAGE && !vm.heaped
    ensures vm.placement <= PageUp(free + FRAME_COUNT / 8) + DIR_SIZE + BOOT_SLACK
    ensures vm.bitmap.Count() == FRAME_COUNT && fresh(vm.bitmap) && fresh(vm.bitmap.bits)
  {
    hide Owned, Shared, Shaped, Place, Placed, AllNamed, Housed, BelowPlacement, FreshChunks, BootMap, UsedIn;
    vm := new Vmm(memory, FRAME_COUNT / 8, free);
    BootEmpty(vm.State());
    PlaceIsPageUp(free + FRAME_COUNT / 8);
    n := vm.InitPaging();
  }

  lemma PlaceIsPageUp(a: nat)
    ensures Place(a, true) == PageUp(a)
  {
  }

  /** A directory without tables maps nothing. */
  lemma BootEmpty(s: Space)
    requires s.Valid() && s.used == {} && s.dirs[s.kernel].table == seq(ENTRIES, _ => 0)
    ensures BootMap(s, 0, 0)
  {
    hide Owned, Shared;
  }
}
