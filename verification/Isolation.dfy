/** The whole kernel over any run: forks, switches and kills, stores and mappings of the running
    task, and changes to the kernel's own pages, in any order. No task's private page changes
    but by its own doing. Forking.dfy proves that the code makes these steps. */
module Isolation {
  import opened Frames
  import opened KernelSpace
  import opened Paging
  import opened Tasks
  import opened Vmm

  /** Tasks, page tables and physical memory. */
  datatype World = World(kernel: Kernel, space: Space, mem: seq<int>)

  /** A scheduler call other than fork; fork; a store or a mapping of the running task; and
      frames that enter or leave the kernel's own tables. */
  datatype Act = Schedules(op: Op) | Forks(esp: int, ebp: int, dir: int)
               | Stores(store: Store) | Maps(vpn: nat) | KernelMaps

  ghost predicate WorldStep(w: World, a: Act, v: World) {
    && w.kernel.cur < |w.kernel.tasks| && Shaped(w.space.tables, w.space.dirs, w.space.kernel)
    && w.kernel.cpu.dir in w.space.dirs
    && match a
       case Schedules(op) => !op.DoFork? && v == World(Step(w.kernel, op), w.space, w.mem)
       case Forks(esp, ebp, dir) =>
         && v.kernel == Step(w.kernel, DoFork(esp, ebp, dir))
         && Cloned(w.space, w.mem, w.kernel.cpu.dir, v.space, v.mem, dir)
       case Stores(o) =>
         && o.vpn < ENTRIES * ENTRIES && o.word < WORDS
         && v == World(w.kernel, w.space, Stored(w.space, w.mem, w.kernel.cpu.dir, o))
       case Maps(vpn) =>
         && vpn < ENTRIES * ENTRIES && v == World(w.kernel, v.space, w.mem)
         && MappedIn(w.space, w.kernel.cpu.dir, vpn, v.space)
       case KernelMaps => v == World(w.kernel, v.space, w.mem) && v.space.Valid() && KernelChanged(w.space, v.space)
  }

  /** The table that get_page finds or makes. */
  ghost predicate TableMade(s: Space, d: int, i: int, t: Space)
    requires d in s.dirs && 0 <= i < |s.dirs[d].table| && i < |s.dirs[d].phy|
  {
    if s.dirs[d].table[i] != 0 then t == s
    else exists a, ph :: a !in s.tables && a != 0 && t == WithTable(s, d, i, a, ph)
  }

  /** alloc_frame(.., 0, 1): an entry that has no frame gets one that was free, and is then valid,
      writable and a user page. */
  ghost predicate FrameTaken(s: Space, t: int, k: int, u: Space)
    requires Slot(s.tables, t, k)
  {
    if FrameAt(s.tables, t, k) != 0 then u == s
    else
      exists f: nat ::
        && f !in s.used
        && u == Space(SetEntry(s.tables, t, k, GivenFrame(s.tables[t][k], false, true, f)), s.dirs, s.kernel,
                      s.used + {f})
  }

  /** alloc_frame(get_page(...), ...) on page vpn of directory d. */
  ghost predicate MappedIn(s: Space, d: int, vpn: nat, u: Space)
    requires vpn < ENTRIES * ENTRIES
  {
    var i := vpn / ENTRIES;
    && s.Valid() && d in s.dirs && i < |s.dirs[d].table| && i < |s.dirs[d].phy|
    && exists t: Space :: TableMade(s, d, i, t) && EntryTaken(t, d, vpn, u)
  }

  ghost predicate EntryTaken(t: Space, d: int, vpn: nat, u: Space)
    requires vpn < ENTRIES * ENTRIES
  {
    && d in t.dirs && vpn / ENTRIES < |t.dirs[d].table| && Slot(t.tables, t.dirs[d].table[vpn / ENTRIES], vpn % ENTRIES)
    && FrameTaken(t, t.dirs[d].table[vpn / ENTRIES], vpn % ENTRIES, u)
  }

  // ---------------------------------------------------------------- who has which directory

  /** The pids and directories of all tasks, killed ones included. */
  ghost function Owners(k: Kernel): set<(int, int)> {
    set t | t in k.tasks + k.dead :: (t.pid, t.dir)
  }

  lemma SavedOwners(k: Kernel, regs: Regs, ticks: nat)
    requires k.cur < |k.tasks|
    ensures Owners(Saved(k, regs, ticks)) == Owners(k)
  {
    var s := Saved(k, regs, ticks);
    forall t | t in k.tasks + k.dead ensures (t.pid, t.dir) in Owners(s) {
      if t in k.tasks {
        var i :| 0 <= i < |k.tasks| && k.tasks[i] == t;
        assert s.tasks[i] in s.tasks + s.dead;
      } else {
        assert t in s.tasks + s.dead;
      }
    }
    forall t | t in s.tasks + s.dead ensures (t.pid, t.dir) in Owners(k) {
      if t in s.tasks {
        var i :| 0 <= i < |s.tasks| && s.tasks[i] == t;
        assert k.tasks[i] in k.tasks + k.dead;
      } else {
        assert t in k.tasks + k.dead;
      }
    }
  }

  /** Only fork adds an owner. */
  lemma StepOwners(k: Kernel, op: Op)
    requires k.cur < |k.tasks|
    ensures Owners(Step(k, op)) == Owners(k) + (if op.DoFork? then {(k.nextPid, op.dir)} else {})
  {
    match op
    case DoFork(esp, ebp, dir) =>
      var f := Fork(k, esp, ebp, dir);
      var child := f.tasks[|k.tasks|];
      assert forall t :: t in f.tasks + f.dead <==> t in k.tasks + k.dead || t == child;
    case DoSwitch(esp, ebp) =>
      SavedOwners(k, Regs(InSwitch, esp, ebp), 1);
    case DoExit(pid, esp, ebp) =>
      var i := Victim(k.tasks, pid, 1);
      if i != 0 {
        var s := Saved(k, Regs(InExit, esp, ebp), 0);
        SavedOwners(k, Regs(InExit, esp, ebp), 0);
        var e := Exit(k, pid, esp, ebp);
        assert s.tasks == s.tasks[..i] + [s.tasks[i]] + s.tasks[i + 1..];
        assert forall t :: t in e.tasks + e.dead <==> t in s.tasks + s.dead;
      }
  }

  /** The space is well formed, the directory in force is the current task's, and the directories
      of all tasks exist and are different ones. */
  ghost predicate Settled(w: World) {
    && w.space.Valid() && Ordered(w.kernel) && w.kernel.cpu.dir == w.kernel.tasks[w.kernel.cur].dir
    && (forall o :: o in Owners(w.kernel) ==> o.1 in w.space.dirs)
    && (forall o, r :: o in Owners(w.kernel) && r in Owners(w.kernel) && o.1 == r.1 ==> o.0 == r.0)
  }

  lemma CurrentOwns(k: Kernel)
    requires k.cur < |k.tasks|
    ensures (k.tasks[k.cur].pid, k.tasks[k.cur].dir) in Owners(k)
  {
    assert k.tasks[k.cur] in k.tasks + k.dead;
  }

  /** The directory in force after a scheduler call is the current task's. */
  lemma StepDirectory(k: Kernel, op: Op)
    requires Ordered(k) && k.cpu.dir == k.tasks[k.cur].dir
    ensures var t := Step(k, op); t.cur < |t.tasks| && t.cpu.dir == t.tasks[t.cur].dir
  {
    StepOrdered(k, op);
  }

  lemma TableMadeValid(s: Space, d: int, i: int, t: Space)
    requires s.Valid() && d in s.dirs && 0 <= i < |s.dirs[d].table| && i < |s.dirs[d].phy| && TableMade(s, d, i, t)
    ensures t.Valid() && t.dirs.Keys == s.dirs.Keys && t.used == s.used
  {
    hide Owned, Shared;
    assert DirShaped(s.dirs[d], s.tables);
    if s.dirs[d].table[i] == 0 {
      var a, ph :| a !in s.tables && a != 0 && t == WithTable(s, d, i, a, ph);
      WithTableValid(s, d, i, a, ph);
    }
  }

  lemma FrameTakenValid(t: Space, a: int, k: int, u: Space)
    requires t.Valid() && Slot(t.tables, a, k) && FrameTaken(t, a, k, u)
    ensures u.Valid() && u.dirs == t.dirs && u.kernel == t.kernel
  {
    hide Owned, Shared;
    if FrameAt(t.tables, a, k) == 0 {
      var f: nat :| f !in t.used
        && u == Space(SetEntry(t.tables, a, k, GivenFrame(t.tables[a][k], false, true, f)), t.dirs, t.kernel,
                      t.used + {f});
      var p := GivenFrame(t.tables[a][k], false, true, f);
      TakeKeepsOwned(t.tables, t.used, a, k, p);
      SetEntryShaped(t.tables, t.dirs, t.kernel, a, k, p);
    }
  }

  lemma MappedValid(s: Space, d: int, vpn: nat, u: Space)
    requires vpn < ENTRIES * ENTRIES && MappedIn(s, d, vpn, u)
    ensures u.Valid() && u.dirs.Keys == s.dirs.Keys
  {
    hide Owned, Shared, Shaped, TableMade, FrameTaken;
    var t: Space :| TableMade(s, d, vpn / ENTRIES, t) && EntryTaken(t, d, vpn, u);
    TableMadeValid(s, d, vpn / ENTRIES, t);
    FrameTakenValid(t, t.dirs[d].table[vpn / ENTRIES], vpn % ENTRIES, u);
  }

  /** Every step keeps that, and every directory. */
  lemma WorldStepSettled(w: World, a: Act, v: World)
    requires Settled(w) && WorldStep(w, a, v)
    ensures Settled(v) && w.space.dirs.Keys <= v.space.dirs.Keys && Owners(w.kernel) <= Owners(v.kernel)
  {
    hide Owned, Shared, Shaped, Owners, MappedIn, KernelChanged, CloneIndex, SameFrames;
    match a
    case Schedules(op) =>
      StepOrdered(w.kernel, op);
      StepOwners(w.kernel, op);
      StepDirectory(w.kernel, op);
    case Forks(esp, ebp, dir) =>
      StepOrdered(w.kernel, DoFork(esp, ebp, dir));
      StepOwners(w.kernel, DoFork(esp, ebp, dir));
    case Stores(o) =>
    case Maps(vpn) => MappedValid(w.space, w.kernel.cpu.dir, vpn, v.space);
    case KernelMaps =>
      assert v.space.dirs == w.space.dirs by { ChangedDirs(w.space, v.space); }
  }

  lemma ChangedDirs(s: Space, t: Space)
    requires KernelChanged(s, t)
    ensures t.dirs == s.dirs && t.kernel == s.kernel
  {
  }

  /** What the mapping of a page does to the directory: the page gets a frame that was free if it
      has none, and is then valid, writable and a user page; no other entry changes. */
  lemma MappedEntry(s: Space, d: int, vpn: nat, u: Space, v: nat)
    requires vpn < ENTRIES * ENTRIES && v < ENTRIES * ENTRIES && MappedIn(s, d, vpn, u) && 0 in s.used
    ensures Shaped(s.tables, s.dirs, s.kernel) && Shaped(u.tables, u.dirs, u.kernel) && d in s.dirs && d in u.dirs
    ensures v != vpn ==> Entry(u, d, v) == Entry(s, d, v)
    ensures var p, q := Entry(s, d, vpn), Entry(u, d, vpn);
            if p.frame != 0 then q == p
            else q == Page(true, true, true, p.accessed, p.dirty, q.frame) && q.frame != 0 && q.frame !in s.used
  {
    hide Owned;
    MappedValid(s, d, vpn, u);
    var i, k := vpn / ENTRIES, vpn % ENTRIES;
    var t: Space :| TableMade(s, d, i, t) && EntryTaken(t, d, vpn, u);
    TableMadeValid(s, d, i, t);
    TableMadeEntry(s, d, i, t, vpn);
    TableMadeEntry(s, d, i, t, v);
    assert DirShaped(t.dirs[d], t.tables);
    assert HasTable(t.dirs, d, v / ENTRIES) <==> t.dirs[d].table[v / ENTRIES] != 0;
    assert HasTable(t.dirs, d, i) by { MadeThere(s, d, i, t); }
  }

  lemma TableMadeEntry(s: Space, d: int, i: int, t: Space, v: nat)
    requires s.Valid() && t.Valid() && d in s.dirs && d in t.dirs && v < ENTRIES * ENTRIES
    requires 0 <= i < |s.dirs[d].table| && i < |s.dirs[d].phy| && TableMade(s, d, i, t)
    ensures Entry(t, d, v) == Entry(s, d, v)
  {
    hide Owned, Shared;
    assert DirShaped(s.dirs[d], s.tables);
  }

  // ---------------------------------------------------------------- one step

  /** Page vpn of directory d lies in a table of its own. */
  ghost predicate PrivatePage(s: Space, d: int, vpn: nat) {
    && Shaped(s.tables, s.dirs, s.kernel) && d in s.dirs && vpn < ENTRIES * ENTRIES
    && vpn / ENTRIES < |s.dirs[d].table| && vpn / ENTRIES < |s.dirs[s.kernel].table|
    && PrivateTable(s.dirs, s.kernel, d, vpn / ENTRIES)
  }

  /** The page is still private, and its entry is the same. */
  ghost predicate SamePage(s: Space, t: Space, d: int, vpn: nat)
    requires PrivatePage(s, d, vpn)
  {
    PrivatePage(t, d, vpn) && Entry(t, d, vpn) == Entry(s, d, vpn)
  }

  lemma TableMadeKeeps(s: Space, c: int, i: int, t: Space, d: int, vpn: nat)
    requires s.Valid() && c in s.dirs && 0 <= i < |s.dirs[c].table| && i < |s.dirs[c].phy| && TableMade(s, c, i, t)
    requires PrivatePage(s, d, vpn) && c != d
    ensures SamePage(s, t, d, vpn)
  {
    TableMadeValid(s, c, i, t);
    assert DirShaped(s.dirs[d], s.tables) && DirShaped(s.dirs[c], s.tables) && DirShaped(s.dirs[s.kernel], s.tables);
    if s.dirs[c].table[i] == 0 {
      var a, ph :| a !in s.tables && a != 0 && t == WithTable(s, c, i, a, ph);
    }
  }

  lemma FrameTakenKeeps(t: Space, c: int, i: int, k: int, u: Space, d: int, vpn: nat)
    requires t.Valid() && HasTable(t.dirs, c, i) && Slot(t.tables, t.dirs[c].table[i], k)
    requires FrameTaken(t, t.dirs[c].table[i], k, u) && PrivatePage(t, d, vpn) && c != d
    ensures SamePage(t, u, d, vpn)
  {
    hide Owned;
    FrameTakenValid(t, t.dirs[c].table[i], k, u);
    assert DirShaped(t.dirs[d], t.tables);
    assert HasTable(t.dirs, d, vpn / ENTRIES);
  }

  /** A mapping in one directory leaves the private pages of every other one alone. */
  lemma MappedKeeps(s: Space, c: int, at: nat, u: Space, d: int, vpn: nat)
    requires at < ENTRIES * ENTRIES && MappedIn(s, c, at, u) && PrivatePage(s, d, vpn) && c != d
    ensures SamePage(s, u, d, vpn)
  {
    hide Owned, Shared, Shaped, TableMade, FrameTaken, Entry;
    var i := at / ENTRIES;
    var t: Space :| TableMade(s, c, i, t) && EntryTaken(t, c, at, u);
    TableMadeValid(s, c, i, t);
    TableMadeKeeps(s, c, i, t, d, vpn);
    MadeThere(s, c, i, t);
    FrameTakenKeeps(t, c, i, at % ENTRIES, u, d, vpn);
  }

  lemma MadeThere(s: Space, c: int, i: int, t: Space)
    requires c in s.dirs && 0 <= i < |s.dirs[c].table| && i < |s.dirs[c].phy| && TableMade(s, c, i, t)
    ensures HasTable(t.dirs, c, i)
  {
  }

  /** So does a change to the kernel's tables. */
  lemma KernelChangeKeeps(s: Space, t: Space, d: int, vpn: nat)
    requires s.Valid() && t.Valid() && KernelChanged(s, t) && PrivatePage(s, d, vpn)
    ensures SamePage(s, t, d, vpn)
  {
    hide Owned, Shared;
    PrivateNotKernel(s, d, vpn / ENTRIES);
  }

  /** So does a clone of whatever directory. */
  lemma CloneKeeps(s: Space, m0: seq<int>, c: int, t: Space, m: seq<int>, nd: int, d: int, vpn: nat)
    requires Cloned(s, m0, c, t, m, nd) && PrivatePage(s, d, vpn)
    ensures SamePage(s, t, d, vpn) && View(t, m, d, vpn) == View(s, m0, d, vpn)
  {
    hide Owned, Shared, CloneIndex, PageOf;
    assert DirShaped(s.dirs[d], s.tables) && DirShaped(s.dirs[s.kernel], s.tables);
    OwnedInUsed(s.tables, s.used, s.dirs[d].table[vpn / ENTRIES], vpn % ENTRIES);
  }

  /** And a store through any page of any other directory. */
  lemma StoreKeeps(s: Space, m: seq<int>, c: int, o: Store, d: int, vpn: nat)
    requires s.Valid() && c in s.dirs && c != d && PrivatePage(s, d, vpn) && o.vpn < ENTRIES * ENTRIES && o.word < WORDS
    ensures View(s, Stored(s, m, c, o), d, vpn) == View(s, m, d, vpn)
  {
    hide Owned, Shared, Entry;
    if Entry(s, d, vpn).frame != 0 && Entry(s, c, o.vpn).frame != 0 && WORDS * Entry(s, c, o.vpn).frame + o.word < |m| {
      PrivateFrame(s, d, vpn, c, o.vpn);
      OtherPage(m, Entry(s, c, o.vpn).frame, o.word, o.value, Entry(s, d, vpn).frame);
    }
  }

  /** The page shows the same in both worlds. */
  ghost predicate SameView(w: World, v: World, d: int, vpn: nat) {
    && PrivatePage(w.space, d, vpn) && SamePage(w.space, v.space, d, vpn)
    && View(v.space, v.mem, d, vpn) == View(w.space, w.mem, d, vpn)
  }

  /** A step changes no private page, unless its directory is in force and the step is a store
      or a mapping. */
  lemma WorldStepKeeps(w: World, a: Act, v: World, d: int, vpn: nat)
    requires Settled(w) && WorldStep(w, a, v) && PrivatePage(w.space, d, vpn)
    requires (a.Stores? || a.Maps?) ==> w.kernel.cpu.dir != d
    ensures SameView(w, v, d, vpn)
  {
    hide Owned, Shared, Shaped, Owners, MappedIn, KernelChanged, Cloned, Entry, Stored, Step, PageOf;
    match a
    case Schedules(op) =>
    case Forks(esp, ebp, dir) => CloneKeeps(w.space, w.mem, w.kernel.cpu.dir, v.space, v.mem, dir, d, vpn);
    case Stores(o) => StoreKeeps(w.space, w.mem, w.kernel.cpu.dir, o, d, vpn);
    case Maps(at) => MappedKeeps(w.space, w.kernel.cpu.dir, at, v.space, d, vpn);
    case KernelMaps => KernelChangeKeeps(w.space, v.space, d, vpn);
  }

  // ---------------------------------------------------------------- whole runs

  /** The first task runs, on a directory that exists. */
  ghost predicate Booted(w: World) {
    w.space.Valid() && w.kernel.cpu.dir in w.space.dirs
    && exists time: nat :: w.kernel == Boot(w.kernel.cpu.dir, w.kernel.cpu, time)
  }

  ghost predicate Run(ws: seq<World>, acts: seq<Act>) {
    && |ws| == |acts| + 1 && Booted(ws[0])
    && forall i :: 0 <= i < |acts| ==> WorldStep(ws[i], acts[i], ws[i + 1])
  }

  lemma BootSettled(w: World)
    requires Booted(w)
    ensures Settled(w)
  {
    hide Space.Valid;
    assert w.kernel.tasks + w.kernel.dead == [w.kernel.tasks[0]];
  }

  /** In every state of every run the address spaces are well formed, the directory in force is
      that of the current task, and every task, killed ones included, has a directory that
      exists and is no other task's. */
  lemma {:induction false} RunSettled(ws: seq<World>, acts: seq<Act>, n: nat)
    requires Run(ws, acts) && n < |ws|
    ensures Settled(ws[n])
  {
    hide Settled, WorldStep;
    if n == 0 {
      BootSettled(ws[0]);
    } else {
      RunSettled(ws, acts, n - 1);
      WorldStepSettled(ws[n - 1], acts[n - 1], ws[n]);
    }
  }

  /** Task pid makes none of the stores and mappings of steps a to b - 1. */
  ghost predicate Idle(ws: seq<World>, acts: seq<Act>, a: nat, b: nat, pid: int) {
    && a <= b <= |acts| && |ws| == |acts| + 1
    && forall i :: a <= i < b && (acts[i].Stores? || acts[i].Maps?) ==> !IsCurrent(ws[i].kernel, pid)
  }

  ghost predicate IsCurrent(k: Kernel, pid: int) {
    k.cur < |k.tasks| && k.tasks[k.cur].pid == pid
  }

  /** Over any part of any run, whatever is forked, switched, killed, stored and mapped by
      others meanwhile, each private page of a task shows in the end what it showed at the
      beginning, unless the task itself has stored or mapped something. */
  lemma {:induction false} PagesKept(ws: seq<World>, acts: seq<Act>, a: nat, b: nat, pid: int, d: int, vpn: nat)
    requires Run(ws, acts) && Idle(ws, acts, a, b, pid)
    requires (pid, d) in Owners(ws[a].kernel) && PrivatePage(ws[a].space, d, vpn)
    ensures (pid, d) in Owners(ws[b].kernel) && SameView(ws[a], ws[b], d, vpn)
    decreases b - a
  {
    hide Settled, WorldStep, PrivatePage, Owners, View, Entry;
    if a < b {
      PagesKept(ws, acts, a, b - 1, pid, d, vpn);
      var w, act, v := ws[b - 1], acts[b - 1], ws[b];
      RunSettled(ws, acts, b - 1);
      WorldStepSettled(w, act, v);
      if act.Stores? || act.Maps? {
        OthersDirectory(w, pid, d);
      }
      WorldStepKeeps(w, act, v, d, vpn);
    }
  }

  /** The directory of a task that is not current is not in force. */
  lemma OthersDirectory(w: World, pid: int, d: int)
    requires Settled(w) && (pid, d) in Owners(w.kernel) && !IsCurrent(w.kernel, pid)
    ensures w.kernel.cpu.dir != d
  {
    hide Owners, Space.Valid;
    CurrentOwns(w.kernel);
  }

  /** What a fork hands over is a snapshot: until the child itself stores or maps something, its
      private pages show what those of its parent showed at the fork, whatever the parent
      and all others have done since. */
  lemma ForkIsSnapshot(ws: seq<World>, acts: seq<Act>, j: nat, n: nat, vpn: nat)
    requires Run(ws, acts) && j < n <= |acts| && acts[j].Forks? && Idle(ws, acts, j + 1, n, ws[j].kernel.nextPid)
    requires PrivatePage(ws[j].space, ws[j].kernel.cpu.dir, vpn)
    ensures PrivatePage(ws[n].space, acts[j].dir, vpn) && Settled(ws[j])
    ensures View(ws[n].space, ws[n].mem, acts[j].dir, vpn) == View(ws[j].space, ws[j].mem, ws[j].kernel.cpu.dir, vpn)
  {
    hide View, Entry, Cloned, PrivatePage, Owners;
    var w, v, dir := ws[j], ws[j + 1], acts[j].dir;
    RunSettled(ws, acts, j);
    assert WorldStep(w, acts[j], v);
    StepOwners(w.kernel, DoFork(acts[j].esp, acts[j].ebp, dir));
    CloneOwns(w.space, w.mem, w.kernel.cpu.dir, v.space, v.mem, dir, vpn);
    PagesKept(ws, acts, j + 1, n, w.kernel.nextPid, dir, vpn);
  }

  lemma CloneOwns(s: Space, m0: seq<int>, src: int, t: Space, m: seq<int>, nd: int, vpn: nat)
    requires Cloned(s, m0, src, t, m, nd) && PrivatePage(s, src, vpn)
    ensures PrivatePage(t, nd, vpn) && View(t, m, nd, vpn) == View(s, m0, src, vpn)
  {
    hide Owned, Shared, View, Entry, SameFrames;
    CloneViews(s, m0, src, t, m, nd, vpn);
    assert CloneIndex(s, m0, src, t, m, nd, vpn / ENTRIES);
    assert DirShaped(s.dirs[src], s.tables) && DirShaped(s.dirs[s.kernel], s.tables);
  }
}
