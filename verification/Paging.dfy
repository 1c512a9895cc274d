/** Page tables and directories as values (src/page.h:10-33): who owns which frame, what
    an address space shows, and what a change of one entry does to both. */
module Paging {
  import opened Machine
  import opened Frames

  const ENTRIES := 1024
  const WORDS := 1024

  /** A page_dir_struct: addresses of its tables (0 for NULL), the entries the hardware
      reads, and its physical address. */
  datatype Dir = Dir(table: seq<int>, phy: seq<int>, dirPhy: int)

  /** All tables and directories by address; kernel is vm_page_dir. */
  datatype Space = Space(tables: map<int, seq<Page>>, dirs: map<int, Dir>, kernel: int, used: set<nat>) {
    ghost predicate Valid() {
      Shaped(tables, dirs, kernel) && Owned(tables, used) && Shared(dirs, kernel)
    }
  }

  ghost predicate Shaped(tables: map<int, seq<Page>>, dirs: map<int, Dir>, kernel: int) {
    && kernel in dirs
    && (forall t :: t in tables ==> |tables[t]| == ENTRIES)
    && (forall d :: d in dirs ==> DirShaped(dirs[d], tables))
  }

  /** Every table of a directory exists. */
  ghost predicate DirShaped(d: Dir, tables: map<int, seq<Page>>) {
    && |d.table| == |d.phy| == ENTRIES
    && forall i :: 0 <= i < ENTRIES && d.table[i] != 0 ==> d.table[i] in tables
  }

  /** A place for a frame: entry i of table t. */
  ghost predicate Slot(tables: map<int, seq<Page>>, t: int, i: int) {
    t in tables && 0 <= i < |tables[t]|
  }

  /** The frame recorded at a slot, 0 for none. */
  ghost function FrameAt(tables: map<int, seq<Page>>, t: int, i: int): nat
    requires Slot(tables, t, i)
  {
    tables[t][i].frame
  }

  /** Frame ownership: apart from frame 0, a bit is set exactly when one slot holds that
      frame, and no frame is held by two slots. A shared table counts once. */
  ghost predicate Owned(tables: map<int, seq<Page>>, used: set<nat>) {
    && (forall t, i :: Slot(tables, t, i) && FrameAt(tables, t, i) != 0 ==> FrameAt(tables, t, i) in used)
    && (forall t, i, u, j :: Slot(tables, t, i) && Slot(tables, u, j) && SameFrame(tables, t, i, u, j) ==>
          t == u && i == j)
    && (forall f :: f in used && f != 0 ==> Held(tables, f))
  }

  ghost predicate SameFrame(tables: map<int, seq<Page>>, t: int, i: int, u: int, j: int)
    requires Slot(tables, t, i) && Slot(tables, u, j)
  {
    FrameAt(tables, t, i) != 0 && FrameAt(tables, t, i) == FrameAt(tables, u, j)
  }

  ghost predicate Held(tables: map<int, seq<Page>>, f: nat) {
    exists t, i :: Slot(tables, t, i) && FrameAt(tables, t, i) == f
  }

  /** A table is in one place only, unless it is a kernel table, which every directory has
      at the same index. */
  ghost predicate Shared(dirs: map<int, Dir>, kernel: int)
    requires kernel in dirs
  {
    forall d, e, i, j :: HasTable(dirs, d, i) && HasTable(dirs, e, j) && dirs[d].table[i] == dirs[e].table[j] ==>
      i == j && (d == e || (HasTable(dirs, kernel, i) && dirs[d].table[i] == dirs[kernel].table[i]))
  }

  ghost predicate HasTable(dirs: map<int, Dir>, d: int, i: int) {
    d in dirs && 0 <= i < |dirs[d].table| && dirs[d].table[i] != 0
  }

  // ---------------------------------------------------------------- one entry changes

  function SetEntry(tables: map<int, seq<Page>>, t: int, i: int, p: Page): map<int, seq<Page>>
    requires t in tables && 0 <= i < |tables[t]|
  {
    tables[t := tables[t][i := p]]
  }

  lemma SetEntryAt(tables: map<int, seq<Page>>, t: int, i: int, p: Page, u: int, j: int)
    requires t in tables && 0 <= i < |tables[t]|
    ensures Slot(SetEntry(tables, t, i, p), u, j) <==> Slot(tables, u, j)
    ensures Slot(tables, u, j) ==>
              FrameAt(SetEntry(tables, t, i, p), u, j) == if u == t && j == i then p.frame else FrameAt(tables, u, j)
  {
  }

  lemma SetEntryShaped(tables: map<int, seq<Page>>, dirs: map<int, Dir>, kernel: int, t: int, i: int, p: Page)
    requires Shaped(tables, dirs, kernel) && t in tables && 0 <= i < |tables[t]|
    ensures Shaped(SetEntry(tables, t, i, p), dirs, kernel)
  {
    forall d | d in dirs ensures DirShaped(dirs[d], SetEntry(tables, t, i, p)) {
      assert DirShaped(dirs[d], tables);
    }
  }

  /** Putting a frame that no bit claims into an empty slot. Frame 0 leaves it empty. */
  lemma TakeKeepsOwned(tables: map<int, seq<Page>>, used: set<nat>, t: int, i: int, p: Page)
    requires Owned(tables, used) && Slot(tables, t, i) && FrameAt(tables, t, i) == 0 && p.frame !in used
    ensures Owned(SetEntry(tables, t, i, p), used + {p.frame})
  {
    hide Owned, Held, FrameAt, SetEntry;
    var after := SetEntry(tables, t, i, p);
    forall u, j ensures Slot(after, u, j) <==> Slot(tables, u, j)
      ensures Slot(tables, u, j) ==> FrameAt(after, u, j) == if u == t && j == i then p.frame else FrameAt(tables, u, j)
    {
      SetEntryAt(tables, t, i, p, u, j);
    }
    OwnedByEntry(tables, after, used, used + {p.frame}, t, i);
  }

  /** Emptying a slot and clearing its bit. */
  lemma ReleaseKeepsOwned(tables: map<int, seq<Page>>, used: set<nat>, t: int, i: int, p: Page)
    requires Owned(tables, used) && Slot(tables, t, i) && FrameAt(tables, t, i) != 0 && p.frame == 0
    ensures Owned(SetEntry(tables, t, i, p), used - {FrameAt(tables, t, i)})
  {
    hide Owned, Held, FrameAt, SetEntry;
    var after := SetEntry(tables, t, i, p);
    forall u, j ensures Slot(after, u, j) <==> Slot(tables, u, j)
      ensures Slot(tables, u, j) ==> FrameAt(after, u, j) == if u == t && j == i then p.frame else FrameAt(tables, u, j)
    {
      SetEntryAt(tables, t, i, p, u, j);
    }
    OwnedWithout(tables, after, used, t, i);
  }

  ghost predicate SameElsewhere(tables: map<int, seq<Page>>, after: map<int, seq<Page>>, t: int, i: int) {
    forall u, j :: (Slot(after, u, j) <==> Slot(tables, u, j))
      && (Slot(tables, u, j) && Slot(after, u, j) && !(u == t && j == i) ==>
            FrameAt(after, u, j) == FrameAt(tables, u, j))
  }

  lemma OwnedByEntry(tables: map<int, seq<Page>>, after: map<int, seq<Page>>, used: set<nat>, now: set<nat>, t: int,
                     i: int)
    requires Owned(tables, used) && Slot(tables, t, i) && FrameAt(tables, t, i) == 0
    requires SameElsewhere(tables, after, t, i) && Slot(after, t, i)
    requires FrameAt(after, t, i) !in used && now == used + {FrameAt(after, t, i)}
    ensures Owned(after, now)
  {
    forall f | f in now && f != 0 ensures Held(after, f) {
      if f in used {
        assert Held(tables, f);
        var u, j :| Slot(tables, u, j) && FrameAt(tables, u, j) == f;
        assert Slot(after, u, j) && FrameAt(after, u, j) == f;
      }
    }
  }

  lemma OwnedWithout(tables: map<int, seq<Page>>, after: map<int, seq<Page>>, used: set<nat>, t: int, i: int)
    requires Owned(tables, used) && Slot(tables, t, i) && FrameAt(tables, t, i) != 0
    requires SameElsewhere(tables, after, t, i) && Slot(after, t, i) && FrameAt(after, t, i) == 0
    ensures Owned(after, used - {FrameAt(tables, t, i)})
  {
    forall f | f in used - {FrameAt(tables, t, i)} && f != 0 ensures Held(after, f) {
      assert Held(tables, f);
      var u, j :| Slot(tables, u, j) && FrameAt(tables, u, j) == f;
      assert Slot(after, u, j) && FrameAt(after, u, j) == f;
    }
  }

  /** A table after memset. */
  function ZeroTable(): seq<Page> {
    seq(ENTRIES, _ => ZERO_PAGE)
  }

  /** A fresh table holds no frame. */
  lemma NewTableKeepsOwned(tables: map<int, seq<Page>>, used: set<nat>, t: int)
    requires Owned(tables, used) && t !in tables
    ensures Owned(tables[t := ZeroTable()], used)
  {
    var after := tables[t := ZeroTable()];
    forall f | f in used && f != 0 ensures Held(after, f) {
      assert Held(tables, f);
      var u, j :| Slot(tables, u, j) && FrameAt(tables, u, j) == f;
      assert Slot(after, u, j) && FrameAt(after, u, j) == f;
    }
    forall u, i | Slot(after, u, i) && FrameAt(after, u, i) != 0 ensures u != t && Slot(tables, u, i) {
      if u == t {
        assert false;
      }
    }
    forall u, i, v, j | Slot(after, u, i) && Slot(after, v, j) && SameFrame(after, u, i, v, j)
      ensures u == v && i == j {
      assert Slot(tables, u, i) && Slot(tables, v, j) && SameFrame(tables, u, i, v, j);
    }
  }

  // ---------------------------------------------------------------- address spaces

  /** The entry of virtual page vpn, empty if it has no table. */
  ghost function Entry(s: Space, d: int, vpn: nat): Page
    requires Shaped(s.tables, s.dirs, s.kernel) && d in s.dirs && vpn < ENTRIES * ENTRIES
  {
    var t := s.dirs[d].table[vpn / ENTRIES];
    if t == 0 then ZERO_PAGE else s.tables[t][vpn % ENTRIES]
  }

  /** Contents of a physical frame. */
  ghost function PageOf(m: seq<int>, f: nat): seq<int> {
    if WORDS * f + WORDS <= |m| then m[WORDS * f..WORDS * f + WORDS] else []
  }

  /** What directory d shows at vpn: nothing, or the contents of the mapped frame. */
  ghost function View(s: Space, m: seq<int>, d: int, vpn: nat): seq<int>
    requires Shaped(s.tables, s.dirs, s.kernel) && d in s.dirs && vpn < ENTRIES * ENTRIES
  {
    var f := Entry(s, d, vpn).frame;
    if f == 0 then [] else PageOf(m, f)
  }

  /** vpn lies in a kernel table or in no table. */
  ghost predicate KernelPage(s: Space, d: int, vpn: nat)
    requires Shaped(s.tables, s.dirs, s.kernel) && d in s.dirs && vpn < ENTRIES * ENTRIES
  {
    s.dirs[d].table[vpn / ENTRIES] == s.dirs[s.kernel].table[vpn / ENTRIES]
  }

  /** A private page of one address space has a frame that no other address space shows,
      and that the space itself shows nowhere else. */
  lemma PrivateFrame(s: Space, d: int, vpn: nat, e: int, other: nat)
    requires s.Valid() && d in s.dirs && e in s.dirs && vpn < ENTRIES * ENTRIES && other < ENTRIES * ENTRIES
    requires !KernelPage(s, d, vpn) && Entry(s, d, vpn).frame != 0 && (d != e || vpn != other)
    ensures Entry(s, e, other).frame != Entry(s, d, vpn).frame
  {
    var t, u := s.dirs[d].table[vpn / ENTRIES], s.dirs[e].table[other / ENTRIES];
    if u != 0 {
      assert Slot(s.tables, t, vpn % ENTRIES) && Slot(s.tables, u, other % ENTRIES);
      assert FrameAt(s.tables, t, vpn % ENTRIES) == Entry(s, d, vpn).frame;
      assert FrameAt(s.tables, u, other % ENTRIES) == Entry(s, e, other).frame;
      if t == u {
        assert HasTable(s.dirs, d, vpn / ENTRIES) && HasTable(s.dirs, e, other / ENTRIES);
        assert vpn / ENTRIES == other / ENTRIES;
      }
    }
  }

  /** A store of one word through an address space. */
  datatype Store = Store(vpn: nat, word: nat, value: int)

  ghost function Stored(s: Space, m: seq<int>, d: int, w: Store): seq<int>
    requires Shaped(s.tables, s.dirs, s.kernel) && d in s.dirs && w.vpn < ENTRIES * ENTRIES && w.word < WORDS
  {
    var a := WORDS * Entry(s, d, w.vpn).frame + w.word;
    if Entry(s, d, w.vpn).frame != 0 && a < |m| then m[a := w.value] else m
  }

  ghost predicate PrivateStores(s: Space, d: int, ws: seq<Store>)
    requires Shaped(s.tables, s.dirs, s.kernel) && d in s.dirs
  {
    forall k :: 0 <= k < |ws| ==> ws[k].vpn < ENTRIES * ENTRIES && ws[k].word < WORDS && !KernelPage(s, d, ws[k].vpn)
  }

  ghost function StoredAll(s: Space, m: seq<int>, d: int, ws: seq<Store>): seq<int>
    requires Shaped(s.tables, s.dirs, s.kernel) && d in s.dirs && PrivateStores(s, d, ws)
    decreases |ws|
  {
    if ws == [] then m
    else StoredAll(s, Stored(s, m, d, ws[0]), d, ws[1..])
  }

  /** Stores through the private pages of one address space are invisible in every other
      one, for any number of stores in any order. */
  lemma {:induction false} PrivateStoresInvisible(s: Space, m: seq<int>, d: int, ws: seq<Store>, e: int, vpn: nat)
    requires s.Valid() && d in s.dirs && e in s.dirs && d != e && vpn < ENTRIES * ENTRIES
    requires PrivateStores(s, d, ws)
    ensures |StoredAll(s, m, d, ws)| == |m|
    ensures View(s, StoredAll(s, m, d, ws), e, vpn) == View(s, m, e, vpn)
    decreases |ws|
  {
    if ws != [] {
      StoreElsewhere(s, m, d, ws[0], e, vpn);
      PrivateStoresInvisible(s, Stored(s, m, d, ws[0]), d, ws[1..], e, vpn);
    }
  }

  lemma StoreElsewhere(s: Space, m: seq<int>, d: int, w: Store, e: int, vpn: nat)
    requires s.Valid() && d in s.dirs && e in s.dirs && d != e && vpn < ENTRIES * ENTRIES
    requires w.vpn < ENTRIES * ENTRIES && w.word < WORDS && !KernelPage(s, d, w.vpn)
    ensures View(s, Stored(s, m, d, w), e, vpn) == View(s, m, e, vpn)
    ensures |Stored(s, m, d, w)| == |m|
  {
    hide Owned, Shared, Entry, Shaped;
    if Entry(s, d, w.vpn).frame != 0 && WORDS * Entry(s, d, w.vpn).frame + w.word < |m| {
      PrivateFrame(s, d, w.vpn, e, vpn);
      OtherPage(m, Entry(s, d, w.vpn).frame, w.word, w.value, Entry(s, e, vpn).frame);
    }
  }

  lemma OtherPage(m: seq<int>, f: nat, word: nat, value: int, g: nat)
    requires f != g && word < WORDS && WORDS * f + word < |m|
    ensures PageOf(m[WORDS * f + word := value], g) == PageOf(m, g)
  {
  }

  /** A store is seen through its own address space, at that word only. */
  lemma StoreSeen(s: Space, m: seq<int>, d: int, w: Store)
    requires s.Valid() && d in s.dirs && w.vpn < ENTRIES * ENTRIES && w.word < WORDS
    requires Entry(s, d, w.vpn).frame != 0 && WORDS * Entry(s, d, w.vpn).frame + WORDS <= |m|
    ensures View(s, Stored(s, m, d, w), d, w.vpn) == View(s, m, d, w.vpn)[w.word := w.value]
  {
  }

  /** Kernel pages are one and the same page in every address space: a store through one of
      them is seen in all. */
  lemma KernelStoreSeenByAll(s: Space, m: seq<int>, d: int, w: Store, e: int)
    requires s.Valid() && d in s.dirs && e in s.dirs && w.vpn < ENTRIES * ENTRIES && w.word < WORDS
    requires KernelPage(s, d, w.vpn) && KernelPage(s, e, w.vpn)
    requires Entry(s, d, w.vpn).frame != 0 && WORDS * Entry(s, d, w.vpn).frame + WORDS <= |m|
    ensures View(s, m, e, w.vpn) == View(s, m, d, w.vpn)
    ensures View(s, Stored(s, m, d, w), e, w.vpn) == View(s, m, e, w.vpn)[w.word := w.value]
  {
    assert Entry(s, d, w.vpn) == Entry(s, e, w.vpn);
    StoreSeen(s, m, d, w);
  }

  lemma OwnedInUsed(tables: map<int, seq<Page>>, used: set<nat>, t: int, i: int)
    requires Owned(tables, used) && Slot(tables, t, i)
    ensures tables[t][i].frame != 0 ==> tables[t][i].frame in used
  {
    assert FrameAt(tables, t, i) == tables[t][i].frame;
  }

  /** get_page gives a directory a fresh empty table, at the physical address ph. */
  function WithTable(s: Space, d: int, i: int, t: int, ph: int): Space
    requires d in s.dirs && 0 <= i < |s.dirs[d].table| && i < |s.dirs[d].phy|
  {
    var was := s.dirs[d];
    var now := Dir(was.table[i := t], was.phy[i := ph + 7], was.dirPhy);
    Space(s.tables[t := ZeroTable()], s.dirs[d := now], s.kernel, s.used)
  }

  lemma WithTableValid(s: Space, d: int, i: int, t: int, ph: int)
    requires s.Valid() && d in s.dirs && 0 <= i < ENTRIES && t !in s.tables && t != 0 && s.dirs[d].table[i] == 0
    ensures WithTable(s, d, i, t, ph).Valid()
  {
    hide Owned;
    var u := WithTable(s, d, i, t, ph);
    NewTableKeepsOwned(s.tables, s.used, t);
    forall e | e in u.dirs ensures DirShaped(u.dirs[e], u.tables) {
      assert DirShaped(s.dirs[e], s.tables);
    }
    forall c, e, j, k | HasTable(u.dirs, c, j) && HasTable(u.dirs, e, k) && u.dirs[c].table[j] == u.dirs[e].table[k]
      ensures j == k && (c == e || (HasTable(u.dirs, u.kernel, j) && u.dirs[c].table[j] == u.dirs[u.kernel].table[j]))
    {
      WithTablePair(s, d, i, t, ph, c, e, j, k);
    }
  }

  lemma WithTablePair(s: Space, d: int, i: int, t: int, ph: int, c: int, e: int, j: int, k: int)
    requires s.Valid() && d in s.dirs && 0 <= i < ENTRIES && t !in s.tables && t != 0 && s.dirs[d].table[i] == 0
    requires var u := WithTable(s, d, i, t, ph);
             HasTable(u.dirs, c, j) && HasTable(u.dirs, e, k) && u.dirs[c].table[j] == u.dirs[e].table[k]
    ensures var u := WithTable(s, d, i, t, ph);
            j == k && (c == e || (HasTable(u.dirs, u.kernel, j) && u.dirs[c].table[j] == u.dirs[u.kernel].table[j]))
  {
    hide Owned;
    WithTableHas(s, d, i, t, ph, c, j);
    WithTableHas(s, d, i, t, ph, e, k);
    WithTableHas(s, d, i, t, ph, s.kernel, j);
  }

  lemma WithTableHas(s: Space, d: int, i: int, t: int, ph: int, c: int, j: int)
    requires s.Valid() && d in s.dirs && 0 <= i < ENTRIES && t !in s.tables && t != 0 && s.dirs[d].table[i] == 0
    ensures var u := WithTable(s, d, i, t, ph);
            && (HasTable(u.dirs, c, j) <==> HasTable(s.dirs, c, j) || (c == d && j == i))
            && (HasTable(u.dirs, c, j) && !(c == d && j == i) ==>
                  u.dirs[c].table[j] == s.dirs[c].table[j] && u.dirs[c].table[j] in s.tables)
            && u.dirs[d].table[i] == t
  {
    if c in s.dirs {
      assert DirShaped(s.dirs[c], s.tables);
    }
  }

  // ---------------------------------------------------------------- what the hardware walks

  /** Tables lie at physical pages, no two at one. */
  ghost predicate Placed(tables: set<int>, phys: map<int, int>) {
    && (forall t :: t in tables ==> t in phys && phys[t] % PAGE == 0)
    && (forall t, u :: t in tables && u in tables && phys[t] == phys[u] ==> t == u)
  }

  /** The entries the hardware reads name the tables of the directory: 0 for none, otherwise
      the physical address with the flags 7 (present, writable, user). */
  ghost predicate NamedEntry(t: int, e: int, phys: map<int, int>) {
    if t == 0 then e == 0 else t in phys && e == phys[t] + 7
  }

  ghost predicate Named(d: Dir, phys: map<int, int>) {
    |d.table| == |d.phy| == ENTRIES && forall i :: 0 <= i < ENTRIES ==> NamedEntry(d.table[i], d.phy[i], phys)
  }

  ghost predicate AllNamed(dirs: map<int, Dir>, phys: map<int, int>) {
    forall d :: d in dirs ==> Named(dirs[d], phys)
  }

  /** Table t lies at the physical address base. */
  ghost predicate LiesAt(tables: map<int, seq<Page>>, phys: map<int, int>, t: int, base: int) {
    t in tables && t in phys && phys[t] == base && |tables[t]| == ENTRIES
  }

  /** Entry i of the table at the physical address base. */
  ghost function PhysicalEntry(tables: map<int, seq<Page>>, phys: map<int, int>, base: int, i: nat): Page
    requires i < ENTRIES
  {
    if exists t :: LiesAt(tables, phys, t, base) then
      var t :| LiesAt(tables, phys, t, base);
      tables[t][i]
    else ZERO_PAGE
  }

  /** The entry that the processor finds for virtual page vpn: it follows the physical
      address in its own directory, if the present bit is set. */
  ghost function HardwareEntry(s: Space, phys: map<int, int>, d: int, vpn: nat): Page
    requires d in s.dirs && |s.dirs[d].phy| == ENTRIES && vpn < ENTRIES * ENTRIES
  {
    var e := s.dirs[d].phy[vpn / ENTRIES];
    if e % 2 == 1 then PhysicalEntry(s.tables, phys, e - e % PAGE, vpn % ENTRIES) else ZERO_PAGE
  }

  lemma PhysicalIs(tables: map<int, seq<Page>>, phys: map<int, int>, t: int, i: nat)
    requires Placed(tables.Keys, phys) && t in tables && |tables[t]| == ENTRIES && i < ENTRIES
    ensures PhysicalEntry(tables, phys, phys[t], i) == tables[t][i]
  {
    assert t in tables.Keys && LiesAt(tables, phys, t, phys[t]);
    forall u | LiesAt(tables, phys, u, phys[t]) ensures u == t {
      assert u in tables.Keys;
    }
  }

  lemma PresentBits(base: int)
    requires base % PAGE == 0
    ensures (base + 7) % 2 == 1 && base + 7 - (base + 7) % PAGE == base
  {
  }

  /** The processor finds exactly the entries that the kernel's own tables record, wherever
      the tables lie; and the tables are present, writable and open to the user. */
  lemma HardwareSees(s: Space, phys: map<int, int>, d: int, vpn: nat)
    requires s.Valid() && Placed(s.tables.Keys, phys) && AllNamed(s.dirs, phys) && d in s.dirs
    requires vpn < ENTRIES * ENTRIES
    ensures |s.dirs[d].phy| == ENTRIES && HardwareEntry(s, phys, d, vpn) == Entry(s, d, vpn)
    ensures var t, e := s.dirs[d].table[vpn / ENTRIES], s.dirs[d].phy[vpn / ENTRIES];
            if t == 0 then e == 0 else t in phys && e == phys[t] + 7 && e % 0x1000 == 7
  {
    hide Owned, Shared, PhysicalEntry;
    assert Named(s.dirs[d], phys) && DirShaped(s.dirs[d], s.tables);
    var t := s.dirs[d].table[vpn / ENTRIES];
    assert NamedEntry(t, s.dirs[d].phy[vpn / ENTRIES], phys);
    if t != 0 {
      assert t in s.tables.Keys;
      PresentBits(phys[t]);
      PhysicalIs(s.tables, phys, t, vpn % ENTRIES);
    }
  }

  /** A new table, and its entry in a directory. */
  lemma NamedTable(s: Space, phys: map<int, int>, d: int, i: int, t: int, ph: int)
    requires AllNamed(s.dirs, phys) && d in s.dirs && 0 <= i < ENTRIES && t in phys && phys[t] == ph && t != 0
    ensures |s.dirs[d].table| == |s.dirs[d].phy| == ENTRIES && AllNamed(WithTable(s, d, i, t, ph).dirs, phys)
  {
    assert Named(s.dirs[d], phys);
    var u := WithTable(s, d, i, t, ph);
    forall e | e in u.dirs ensures Named(u.dirs[e], phys) {
      assert Named(s.dirs[e], phys);
      forall j | 0 <= j < ENTRIES ensures NamedEntry(u.dirs[e].table[j], u.dirs[e].phy[j], phys) {
        assert NamedEntry(s.dirs[e].table[j], s.dirs[e].phy[j], phys);
      }
    }
  }

  lemma NamedStill(d: Dir, phys: map<int, int>, more: map<int, int>)
    requires Named(d, phys) && forall k :: k in more ==> k !in phys
    ensures Named(d, phys + more)
  {
    forall j | 0 <= j < ENTRIES ensures NamedEntry(d.table[j], d.phy[j], phys + more) {
      assert NamedEntry(d.table[j], d.phy[j], phys);
    }
  }

  /** A directory that shares kernel tables with the kernel directory at their own index
      and otherwise has tables of its own. */
  ghost predicate CloneShaped(s: Space, tables: map<int, seq<Page>>, d: Dir) {
    && s.kernel in s.dirs && DirShaped(d, tables)
    && (forall i :: 0 <= i < ENTRIES && d.table[i] != 0 ==>
          d.table[i] !in s.tables || (HasTable(s.dirs, s.kernel, i) && d.table[i] == s.dirs[s.kernel].table[i]))
    && (forall i, j :: 0 <= i < j < ENTRIES && d.table[i] != 0 && d.table[j] != 0 && d.table[i] !in s.tables ==>
          d.table[i] != d.table[j])
  }

  lemma NewDirValid(s: Space, tables: map<int, seq<Page>>, used: set<nat>, a: int, d: Dir)
    requires s.Valid() && a !in s.dirs && CloneShaped(s, tables, d)
    requires Owned(tables, used) && s.tables.Keys <= tables.Keys && forall t :: t in tables ==> |tables[t]| == ENTRIES
    ensures Space(tables, s.dirs[a := d], s.kernel, used).Valid()
  {
    var dirs := s.dirs[a := d];
    forall e | e in dirs ensures DirShaped(dirs[e], tables) {
      if e != a {
        assert DirShaped(s.dirs[e], s.tables);
      }
    }
    forall c, e, j, k | HasTable(dirs, c, j) && HasTable(dirs, e, k) && dirs[c].table[j] == dirs[e].table[k]
      ensures j == k && (c == e || (HasTable(dirs, s.kernel, j) && dirs[c].table[j] == dirs[s.kernel].table[j]))
    {
      NewDirPair(s, tables, a, d, c, e, j, k);
    }
  }

  lemma NewDirPair(s: Space, tables: map<int, seq<Page>>, a: int, d: Dir, c: int, e: int, j: int, k: int)
    requires s.Valid() && a !in s.dirs && CloneShaped(s, tables, d)
    requires var dirs := s.dirs[a := d];
             HasTable(dirs, c, j) && HasTable(dirs, e, k) && dirs[c].table[j] == dirs[e].table[k]
    ensures var dirs := s.dirs[a := d];
            j == k && (c == e || (HasTable(dirs, s.kernel, j) && dirs[c].table[j] == dirs[s.kernel].table[j]))
  {
    var kd := s.kernel;
    if c != a {
      assert HasTable(s.dirs, c, j) && DirShaped(s.dirs[c], s.tables);
    }
    if e != a {
      assert HasTable(s.dirs, e, k) && DirShaped(s.dirs[e], s.tables);
    }
    if c == a && e == a {
    } else if c == a {
      assert HasTable(s.dirs, kd, j) && d.table[j] == s.dirs[kd].table[j];
    } else if e == a {
      assert HasTable(s.dirs, kd, k) && d.table[k] == s.dirs[kd].table[k];
    }
  }
}
