/** The linked task list of src/task.c: init_multitask, fork, task_switch and
    task_exit_pid, each proved to make its step of Tasks.dfy. Interrupts are off in all of
    them, so each is one step. */
module Scheduler {
  import opened Tasks

  class Pcb {
    var pid: int
    var regs: Regs
    var dir: int
    var next: Pcb?
    var time: nat

    constructor (pid: int, regs: Regs, dir: int, time: nat)
      ensures this.pid == pid && this.regs == regs && this.dir == dir && this.next == null && this.time == time
    {
      this.pid, this.regs, this.dir, this.next, this.time := pid, regs, dir, null, time;
    }

    ghost function Value(): Task
      reads this
    {
      Task(pid, regs, dir, time)
    }
  }

  ghost function Values(l: seq<Pcb>): seq<Task>
    reads l
  {
    seq(|l|, i requires 0 <= i < |l| reads l => l[i].Value())
  }

  /** What follows place i of the list. */
  function After(l: seq<Pcb>, i: nat): Pcb?
    requires i < |l|
  {
    if i + 1 < |l| then l[i + 1] else null
  }

  ghost predicate Linked(l: seq<Pcb>)
    reads l
  {
    forall i {:trigger After(l, i)} :: 0 <= i < |l| ==> l[i].next == After(l, i)
  }

  class Scheduler {
    var cur: Pcb
    var head: Pcb
    var nextPid: int
    var cpu: Cpu
    /** The tasks on the list from head, the place of cur among them, the tasks unlinked by
        kills, and what fork has returned. */
    ghost var list: seq<Pcb>
    ghost var at: nat
    ghost var dead: seq<Pcb>
    ghost var log: seq<Event>

    ghost predicate Valid()
      reads this, list
    {
      && at < |list| && head == list[0] && cur == list[at]
      && (forall i, j :: 0 <= i < j < |list| ==> list[i] != list[j]) && Linked(list)
      && (forall d :: d in dead ==> d !in list)
    }

    ghost function State(): Kernel
      reads this, list, dead
    {
      Kernel(Values(list), at, nextPid, cpu, Values(dead), log)
    }

    /** init_multitask; the time of the first task is whatever its memory held. */
    constructor (dir: int, boot: Cpu, time: nat)
      ensures Valid() && State() == Boot(dir, boot, time)
      ensures fresh(list)
    {
      var t := new Pcb(1, Regs(NotSaved, 0, 0), dir, time);
      cur, head, nextPid, cpu := t, t, 2, boot;
      list, at, dead, log := [t], 0, [], [];
    }

    /** The last task of the list (lines 77-80). */
    method Tail() returns (tail: Pcb)
      requires Valid()
      ensures tail == list[|list| - 1]
    {
      tail := head;
      ghost var n := 0;
      while tail.next != null
        invariant n < |list| && tail == list[n]
        decreases |list| - n
      {
        assert tail.next == After(list, n);
        tail := tail.next;
        n := n + 1;
      }
      assert tail.next == After(list, n);
    }

    method Append(tail: Pcb, child: Pcb)
      requires Valid() && tail == list[|list| - 1] && child !in list && child !in dead && child.next == null
      modifies tail`next, this`list
      ensures Valid() && list == old(list) + [child] && dead == old(dead)
      ensures Values(old(list)) == old(Values(list)) && Values(dead) == old(Values(dead))
      ensures child.Value() == old(child.Value())
    {
      ghost var l := list;
      tail.next := child;
      list := l + [child];
      forall i | 0 <= i < |list| ensures list[i].next == After(list, i) {
        if i < |l| - 1 {
          assert old(l[i].next) == After(l, i);
        }
      }
    }

    /** Lines 86-90: the parent stores the registers its child will start with. */
    method FirstReturn(child: Pcb, regs: Regs)
      requires Valid() && list[|list| - 1] == child
      modifies child
      ensures Valid() && Values(dead) == old(Values(dead)) && child.pid == old(child.pid)
      ensures Values(list)
              == old(Values(list[..|list| - 1])) + [Task(old(child.pid), regs, old(child.dir), old(child.time))]
    {
      child.regs := regs;
      assert child in list && child !in dead;
      assert Linked(list) by {
        forall i | 0 <= i < |list| ensures list[i].next == After(list, i) {
          assert old(list[i].next) == After(list, i);
        }
      }
      assert Values(list[..|list| - 1]) == old(Values(list[..|list| - 1]));
      ValuesAppend(list[..|list| - 1], child);
      assert list == list[..|list| - 1] + [child];
    }

    /** fork, up to its first return. dir is the clone of the current directory; esp and
        ebp are those of the parent at read_eip. */
    method DoFork(esp: int, ebp: int, dir: int) returns (r: int)
      requires Valid()
      modifies this, list
      ensures Valid() && State() == Fork(old(State()), esp, ebp, dir)
      ensures r == old(nextPid) && fresh(set t | t in list && t !in old(list))
    {
      hide Linked, After, Values;
      ValuesAt(list, at);
      var parent := cur;
      var child := new Pcb(nextPid, Regs(NotSaved, 0, 0), dir, 0);
      assert Values(list) == old(Values(list)) && Values(dead) == old(Values(dead));
      nextPid := nextPid + 1;
      var tail := Tail();
      Append(tail, child);
      FirstReturn(child, Regs(InFork(parent.pid, child.pid), esp, ebp));
      log := log + [Returned(parent.pid, child.pid)];
      assert parent.pid == old(State()).tasks[at].pid;
      assert Values(list)
          == old(Values(list)) + [Task(old(nextPid), Regs(InFork(parent.pid, old(nextPid)), esp, ebp), dir, 0)];
      r := child.pid;
    }

    /** Stores the registers of the running task. */
    method Save(regs: Regs, ticks: nat)
      requires Valid()
      modifies cur
      ensures Valid() && State() == Saved(old(State()), regs, ticks)
      ensures cur.next == old(cur.next)
    {
      cur.regs := regs;
      cur.time := cur.time + ticks;
      assert Linked(list) by {
        forall i | 0 <= i < |list| ensures list[i].next == After(list, i) {
          assert old(list[i].next) == After(list, i);
        }
      }
      assert cur in list && cur !in dead;
      assert Values(dead) == old(Values(dead));
      assert Values(list) == old(Values(list))[at := cur.Value()];
    }

    /** Makes t current and jumps to its saved place; what runs there is the second return
        of read_eip. */
    method Jump(t: Pcb, ghost i: nat)
      requires Valid() && i < |list| && t == list[i]
      modifies this
      ensures Valid() && list == old(list) && dead == old(dead) && State() == Resume(old(State()), i)
    {
      cur := t;
      at := i;
      cpu := Cpu(t.regs, t.dir);
      match t.regs.eip {
        case InFork(parent, child) =>
          var r := if cur.pid == parent then child else 0;
          log := log + [Returned(cur.pid, r)];
        case _ =>
      }
      assert Values(list) == old(Values(list)) && Values(dead) == old(Values(dead));
    }

    /** task_switch */
    method TaskSwitch(esp: int, ebp: int)
      requires Valid()
      modifies this, cur
      ensures Valid() && State() == Switch(old(State()), esp, ebp)
    {
      assert cur.next == After(list, at);
      Save(Regs(InSwitch, esp, ebp), 1);
      var next := cur.next;
      if next == null {
        Jump(head, 0);
      } else {
        Jump(next, at + 1);
      }
    }

    /** The task before the one with this pid, or the last one (lines 190-197). */
    method Before(pid: int) returns (t: Pcb, ghost n: nat)
      requires Valid()
      ensures n < |list| && t == list[n] && t.next == After(list, n)
      ensures Victim(Values(list), pid, 1) == if t.next == null then 0 else n + 1
    {
      t, n := head, 0;
      while t.next != null && t.next.pid != pid
        invariant n < |list| && t == list[n]
        invariant Victim(Values(list), pid, 1) == Victim(Values(list), pid, n + 1)
        decreases |list| - n
      {
        assert t.next == After(list, n);
        t := t.next;
        n := n + 1;
      }
      assert t.next == After(list, n);
    }

    /** Takes the task after t off the list; t is then the current one. */
    method Unlink(t: Pcb, ghost n: nat)
      requires Valid() && n + 1 < |list| && t == list[n] && t.next == After(list, n)
      modifies t`next, this`list, this`dead, this`at, this`cur
      ensures Valid() && at == n && nextPid == old(nextPid)
      ensures Values(list) == old(Values(list))[..n + 1] + old(Values(list))[n + 2..]
      ensures Values(dead) == old(Values(dead)) + [old(Values(list))[n + 1]]
      ensures list[n] == t && n < |list|
    {
      hide Values;
      ghost var l, d := list, dead;
      var victim := t.next;
      assert old(victim.next) == After(l, n + 1);
      ValuesAt(l, n + 1);
      SkipNext(t, l, d);
      list := l[..n + 1] + l[n + 2..];
      dead := d + [victim];
      at, cur := n, t;
      forall i | 0 <= i < |list| ensures list[i].next == After(list, i) {
        var k := if i <= n then i else i + 1;
        assert list[i] == l[k] && old(l[k].next) == After(l, k);
      }
      Unlinked(l, n + 1);
      ValuesAppend(d, victim);
    }

    /** task_exit_pid. Departure "null test": the text reads the pid of the next task before
        it asks whether there is one (see TextFindsIff). */
    method TaskExitPid(pid: int, esp: int, ebp: int)
      requires Valid()
      modifies this, list
      ensures Valid() && State() == Exit(old(State()), pid, esp, ebp)
    {
      hide Linked, Values;
      var t, n := Before(pid);
      if t.next == null {
        return;
      }
      Save(Regs(InExit, esp, ebp), 0);
      Unlink(t, n);
      Jump(t, n);
    }
  }

  /** t->next = t->next->next */
  method SkipNext(t: Pcb, ghost l: seq<Pcb>, ghost d: seq<Pcb>)
    requires t.next != null
    modifies t`next
    ensures t.next == old(t.next.next)
    ensures Values(l) == old(Values(l)) && Values(d) == old(Values(d))
  {
    t.next := t.next.next;
  }

  lemma Unlinked(l: seq<Pcb>, i: nat)
    requires i < |l|
    ensures Values(l[..i] + l[i + 1..]) == Values(l)[..i] + Values(l)[i + 1..]
  {
  }

  lemma ValuesAt(l: seq<Pcb>, i: nat)
    requires i < |l|
    ensures |Values(l)| == |l| && Values(l)[i] == l[i].Value()
  {
  }

  lemma ValuesAppend(l: seq<Pcb>, t: Pcb)
    ensures Values(l + [t]) == Values(l) + [t.Value()]
  {
  }
}
