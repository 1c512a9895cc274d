/** Whole runs of the scheduler: every sequence of fork, task_switch and task_exit_pid
    from init_multitask on. */
module TaskRuns {
  import opened Tasks

  ghost predicate Run(states: seq<Kernel>, ops: seq<Op>) {
    && |states| == |ops| + 1
    && (exists dir, cpu, time :: states[0] == Boot(dir, cpu, time))
    && forall i :: 0 <= i < |ops| ==> states[i].cur < |states[i].tasks| && states[i + 1] == Step(states[i], ops[i])
  }

  /** In every reachable state the list has increasing pids (so it is acyclic), the current
      task is on it and the head is still the first task; and fork has returned each new
      pid exactly once, and 0 exactly once in each forked task that is past its fork. */
  lemma {:induction false} RunSafe(states: seq<Kernel>, ops: seq<Op>, n: nat)
    requires Run(states, ops) && n < |states|
    ensures Ordered(states[n]) && ForksLogged(states[n]) && states[n].tasks[0].pid == 1
  {
    if n == 0 {
      BootSafe(states[0]);
    } else {
      RunSafe(states, ops, n - 1);
      StepOrdered(states[n - 1], ops[n - 1]);
      StepLogged(states[n - 1], ops[n - 1]);
    }
  }

  lemma BootSafe(k: Kernel)
    requires exists dir, cpu, time :: k == Boot(dir, cpu, time)
    ensures Ordered(k) && ForksLogged(k) && k.tasks[0].pid == 1
  {
  }

  /** The directory in force is that of the current task, so fork clones its address space. */
  lemma {:induction false} RunDirectory(states: seq<Kernel>, ops: seq<Op>, n: nat)
    requires Run(states, ops) && n < |states| && states[0].cpu.dir == states[0].tasks[0].dir
    ensures states[n].cur < |states[n].tasks| && states[n].cpu.dir == states[n].tasks[states[n].cur].dir
  {
    if n > 0 {
      RunDirectory(states, ops, n - 1);
      RunSafe(states, ops, n);
    }
  }

  function Switches(ops: seq<Op>): nat {
    if ops == [] then 0 else Switches(ops[..|ops| - 1]) + (if ops[|ops| - 1].DoSwitch? then 1 else 0)
  }

  function Forks(ops: seq<Op>): nat {
    if ops == [] then 0 else Forks(ops[..|ops| - 1]) + (if ops[|ops| - 1].DoFork? then 1 else 0)
  }

  /** The time of all tasks ever made rises by exactly one per switch, kills included. */
  lemma {:induction false} RunTime(states: seq<Kernel>, ops: seq<Op>, n: nat)
    requires Run(states, ops) && n <= |ops|
    ensures TotalTime(states[n]) == TotalTime(states[0]) + Switches(ops[..n])
  {
    if n > 0 {
      RunTime(states, ops, n - 1);
      StepTime(states[n - 1], ops[n - 1]);
      assert ops[..n][..n - 1] == ops[..n - 1];
    }
  }

  // ---------------------------------------------------------------- killed tasks

  /** No killed task is on the list, and no task to come will have its pid. */
  ghost predicate DeadGone(k: Kernel) {
    && (forall d :: d in k.dead ==> d.pid < k.nextPid)
    && forall d, t :: d in k.dead && t in k.tasks ==> d.pid != t.pid
  }

  lemma StepDead(k: Kernel, op: Op)
    requires Ordered(k) && DeadGone(k)
    ensures DeadGone(Step(k, op)) && k.dead <= Step(k, op).dead
  {
    hide SecondReturn, Victim;
    match op
    case DoFork(esp, ebp, dir) =>
    case DoSwitch(esp, ebp) =>
      SwitchDead(k, esp, ebp);
    case DoExit(pid, esp, ebp) =>
      if i: nat :| 1 <= i < |k.tasks| && k.tasks[i].pid == pid {
        ExitDead(k, pid, esp, ebp, i);
      } else {
        ExitMisses(k, pid, esp, ebp);
      }
  }

  lemma SwitchDead(k: Kernel, esp: int, ebp: int)
    requires Ordered(k) && DeadGone(k)
    ensures DeadGone(Switch(k, esp, ebp)) && Switch(k, esp, ebp).dead == k.dead
  {
    var s := Switch(k, esp, ebp);
    forall t | t in s.tasks ensures exists u :: u in k.tasks && u.pid == t.pid {
      var j :| 0 <= j < |s.tasks| && s.tasks[j] == t;
      assert k.tasks[j] in k.tasks && k.tasks[j].pid == t.pid;
    }
  }

  lemma ExitDead(k: Kernel, pid: int, esp: int, ebp: int, i: nat)
    requires Ordered(k) && DeadGone(k) && 1 <= i < |k.tasks| && k.tasks[i].pid == pid
    ensures DeadGone(Exit(k, pid, esp, ebp)) && k.dead <= Exit(k, pid, esp, ebp).dead
  {
    hide Exit;
    var e := Exit(k, pid, esp, ebp);
    ExitIs(k, pid, esp, ebp, i);
    ExitOrdered(k, pid, esp, ebp);
    forall t | t in e.tasks ensures t.pid != pid && exists u :: u in k.tasks && u.pid == t.pid {
      var j: nat :| j < |e.tasks| && e.tasks[j] == t;
      assert Stays(k, e, i, j, Regs(InExit, esp, ebp));
      assert k.tasks[if j < i then j else j + 1] in k.tasks;
    }
    forall d | d in e.dead ensures d in k.dead || d.pid == pid {
      var j: nat :| j < |e.dead| && e.dead[j] == d;
      if j < |k.dead| {
        assert e.dead[..|k.dead|][j] == d;
      }
    }
  }

  lemma {:induction false} RunDead(states: seq<Kernel>, ops: seq<Op>, a: nat, n: nat)
    requires Run(states, ops) && a <= n < |states|
    ensures DeadGone(states[n]) && states[a].dead <= states[n].dead
    decreases n
  {
    hide DeadGone, Step;
    if n == 0 {
      NoneDead(states[0]);
    } else {
      RunSafe(states, ops, n - 1);
      RunDead(states, ops, if a < n then a else n - 1, n - 1);
      StepDead(states[n - 1], ops[n - 1]);
    }
  }

  lemma NoneDead(k: Kernel)
    requires exists dir, cpu, time :: k == Boot(dir, cpu, time)
    ensures DeadGone(k)
  {
  }

  /** A task that a kill has found is never listed again, so never runs again, and no later task
      gets its pid. */
  lemma KilledForGood(states: seq<Kernel>, ops: seq<Op>, a: nat, n: nat, i: nat)
    requires Run(states, ops) && a < n <= |ops| && ops[a].DoExit?
    requires 1 <= i < |states[a].tasks| && states[a].tasks[i].pid == ops[a].pid
    ensures forall t :: t in states[n].tasks ==> t.pid != ops[a].pid
    ensures states[n].cur < |states[n].tasks| && !Current(states[n], ops[a].pid)
    ensures ops[a].pid < states[n].nextPid
  {
    hide Exit, Ordered, ForksLogged;
    RunSafe(states, ops, a);
    RunSafe(states, ops, n);
    ExitIs(states[a], ops[a].pid, ops[a].esp, ops[a].ebp, i) by { assert Ordered(states[a]); }
    RunDead(states, ops, a + 1, n);
    var gone := states[a + 1].dead;
    assert gone[|gone| - 1] in states[n].dead;
    OnList(states[n]);
  }

  lemma OnList(k: Kernel)
    requires Ordered(k)
    ensures k.cur < |k.tasks| && k.tasks[k.cur] in k.tasks
  {
  }

  // ---------------------------------------------------------------- whose time rises

  /** How many of the first n steps are switches away from task pid. */
  ghost function Left(states: seq<Kernel>, ops: seq<Op>, n: nat, pid: int): nat
    requires |states| == |ops| + 1 && n <= |ops|
  {
    if n == 0 then 0
    else
      Left(states, ops, n - 1, pid)
      + (if ops[n - 1].DoSwitch? && states[n - 1].cur < |states[n - 1].tasks| && Current(states[n - 1], pid)
         then 1 else 0)
  }

  /** A pid that is not given yet has not run. */
  lemma {:induction false} LeftNever(states: seq<Kernel>, ops: seq<Op>, n: nat, pid: int)
    requires Run(states, ops) && n <= |ops| && states[n].nextPid <= pid
    ensures Left(states, ops, n, pid) == 0
  {
    hide Step, Ordered, ForksLogged, Run, Current;
    if n > 0 {
      BeforeRun(states, ops, n);
      RunSafe(states, ops, n - 1);
      NotCurrent(states[n - 1], ops[n - 1], pid);
      LeftNever(states, ops, n - 1, pid);
    }
  }

  lemma NotCurrent(k: Kernel, op: Op, pid: int)
    requires Ordered(k) && Step(k, op).nextPid <= pid
    ensures k.nextPid <= pid && k.cur < |k.tasks| && !Current(k, pid)
  {
    hide Step;
    StepOrdered(k, op);
  }

  ghost predicate TimeIs(states: seq<Kernel>, ops: seq<Op>, n: nat, t: Task)
    requires Run(states, ops) && n <= |ops|
  {
    t.time == Left(states, ops, n, t.pid) + if t.pid == 1 then states[0].tasks[0].time else 0
  }

  /** The time of a task, killed or not, is the number of switches that were made while it
      ran, for the first task counted from what its record held. */
  lemma {:induction false} RunTimes(states: seq<Kernel>, ops: seq<Op>, n: nat)
    requires Run(states, ops) && n <= |ops|
    ensures forall t :: t in states[n].tasks || t in states[n].dead ==> TimeIs(states, ops, n, t)
  {
    hide Step, Ordered, ForksLogged, DeadGone, Run;
    if n == 0 {
      BootTimes(states, ops);
    } else {
      BeforeRun(states, ops, n);
      RunTimes(states, ops, n - 1);
      RunSafe(states, ops, n - 1);
      RunDead(states, ops, n - 1, n - 1);
      forall t | t in states[n].tasks || t in states[n].dead ensures TimeIs(states, ops, n, t) {
        var o := Before(states[n - 1], ops[n - 1], t);
        if o.Was? {
          assert TimeIs(states, ops, n - 1, o.task);
        } else {
          LeftNever(states, ops, n - 1, t.pid);
        }
        OnList(states[n - 1]);
      }
    }
  }

  lemma BeforeRun(states: seq<Kernel>, ops: seq<Op>, n: nat)
    requires Run(states, ops) && 0 < n <= |ops|
    ensures states[n - 1].cur < |states[n - 1].tasks| && states[n] == Step(states[n - 1], ops[n - 1])
    ensures |states| == |ops| + 1 && states[0].cur < |states[0].tasks|
  {
  }

  lemma BootTimes(states: seq<Kernel>, ops: seq<Op>)
    requires Run(states, ops)
    ensures forall t :: t in states[0].tasks || t in states[0].dead ==> TimeIs(states, ops, 0, t)
  {
  }

  /** Where a task was before a step: on the list or among the dead, or nowhere. */
  datatype Origin = Was(task: Task) | Nowhere

  ghost predicate From(k: Kernel, op: Op, t: Task, o: Origin)
    requires k.cur < |k.tasks|
  {
    match o
    case Was(u) =>
      && (u in k.tasks || u in k.dead) && t.pid == u.pid
      && t.time == u.time + (if op.DoSwitch? && Current(k, t.pid) then 1 else 0)
    case Nowhere => op.DoFork? && t.pid == k.nextPid && t.time == 0 && t.pid > 1
  }

  lemma Before(k: Kernel, op: Op, t: Task) returns (o: Origin)
    requires Ordered(k) && DeadGone(k) && (t in Step(k, op).tasks || t in Step(k, op).dead)
    ensures k.cur < |k.tasks| && From(k, op, t, o)
  {
    match op
    case DoFork(esp, ebp, dir) => o := BeforeFork(k, esp, ebp, dir, t);
    case DoSwitch(esp, ebp) => o := BeforeSwitch(k, esp, ebp, t);
    case DoExit(pid, esp, ebp) => o := BeforeExit(k, pid, esp, ebp, t);
  }

  lemma BeforeFork(k: Kernel, esp: int, ebp: int, dir: int, t: Task) returns (o: Origin)
    requires Ordered(k) && (t in Fork(k, esp, ebp, dir).tasks || t in Fork(k, esp, ebp, dir).dead)
    ensures From(k, DoFork(esp, ebp, dir), t, o)
  {
    ForkIs(k, esp, ebp, dir);
    assert k.tasks[0].pid < k.nextPid;
    o := if t in k.tasks || t in k.dead then Was(t) else Nowhere;
  }

  lemma BeforeSwitch(k: Kernel, esp: int, ebp: int, t: Task) returns (o: Origin)
    requires Ordered(k) && DeadGone(k) && (t in Switch(k, esp, ebp).tasks || t in Switch(k, esp, ebp).dead)
    ensures From(k, DoSwitch(esp, ebp), t, o)
  {
    hide Switch;
    SwitchIs(k, esp, ebp);
    var s := Switch(k, esp, ebp);
    if t in s.tasks {
      var j :| 0 <= j < |s.tasks| && s.tasks[j] == t;
      assert k.tasks[j] in k.tasks;
      assert Current(k, t.pid) <==> j == k.cur by {
        assert k.tasks[j].pid == k.tasks[k.cur].pid ==> j == k.cur;
      }
      o := Was(k.tasks[j]);
    } else {
      OnList(k);
      o := Was(t);
    }
  }

  lemma BeforeExit(k: Kernel, pid: int, esp: int, ebp: int, t: Task) returns (o: Origin)
    requires Ordered(k) && (t in Exit(k, pid, esp, ebp).tasks || t in Exit(k, pid, esp, ebp).dead)
    ensures From(k, DoExit(pid, esp, ebp), t, o)
  {
    hide Exit;
    var e := Exit(k, pid, esp, ebp);
    if i: nat :| 1 <= i < |k.tasks| && k.tasks[i].pid == pid {
      ExitIs(k, pid, esp, ebp, i);
      if t in e.tasks {
        var j: nat :| j < |e.tasks| && e.tasks[j] == t;
        assert Stays(k, e, i, j, Regs(InExit, esp, ebp));
        o := Was(k.tasks[if j < i then j else j + 1]);
      } else {
        var j: nat :| j < |e.dead| && e.dead[j] == t;
        o := Was(if j < |k.dead| then k.dead[j] else k.tasks[i]);
      }
    } else {
      ExitMisses(k, pid, esp, ebp);
      o := Was(t);
    }
  }

  // ---------------------------------------------------------------- saved registers

  ghost predicate Current(k: Kernel, pid: int)
    requires k.cur < |k.tasks|
  {
    k.tasks[k.cur].pid == pid
  }

  /** What a step last saved for a task: the registers of fork for a new task, those of the
      switch or kill for the task that was running. */
  ghost predicate Saves(k: Kernel, op: Op, pid: int, cpu: Cpu)
    requires Ordered(k)
  {
    match op
    case DoFork(esp, ebp, dir) => pid == k.nextPid && cpu == Cpu(Regs(InFork(k.tasks[k.cur].pid, pid), esp, ebp), dir)
    case DoSwitch(esp, ebp) => Current(k, pid) && cpu == Cpu(Regs(InSwitch, esp, ebp), k.tasks[k.cur].dir)
    case DoExit(victim, esp, ebp) =>
      Current(k, pid) && Victim(k.tasks, victim, 1) != 0 && cpu == Cpu(Regs(InExit, esp, ebp), k.tasks[k.cur].dir)
  }

  /** The record of task pid holds these registers and this directory. */
  ghost predicate Holds(k: Kernel, pid: int, cpu: Cpu) {
    forall i :: 0 <= i < |k.tasks| && k.tasks[i].pid == pid ==> Cpu(k.tasks[i].regs, k.tasks[i].dir) == cpu
  }

  lemma SaveHolds(k: Kernel, op: Op, pid: int, cpu: Cpu)
    requires Ordered(k) && Saves(k, op, pid, cpu)
    ensures Holds(Step(k, op), pid, cpu) && pid < Step(k, op).nextPid
  {
  }

  /** A step that does not run the task leaves its record alone. */
  lemma StepHolds(k: Kernel, op: Op, pid: int, cpu: Cpu)
    requires Ordered(k) && Holds(k, pid, cpu) && !Current(k, pid) && pid < k.nextPid
    ensures Holds(Step(k, op), pid, cpu) && pid < Step(k, op).nextPid
  {
  }

  /** The step loads the CPU: a switch, or a kill that finds its victim. */
  ghost predicate Jumps(k: Kernel, op: Op) {
    op.DoSwitch? || (op.DoExit? && Victim(k.tasks, op.pid, 1) != 0)
  }

  lemma JumpLoads(k: Kernel, op: Op)
    requires Ordered(k)
    ensures var t := Step(k, op);
            && t.cur < |t.tasks|
            && (Jumps(k, op) ==> t.cpu == Cpu(t.tasks[t.cur].regs, t.tasks[t.cur].dir))
            && (Jumps(k, op) ==> t.log == k.log + SecondReturn(t.tasks[t.cur]))
            && (!Jumps(k, op) ==> t.cur == k.cur && t.tasks[t.cur].pid == k.tasks[k.cur].pid)
  {
    StepOrdered(k, op);
  }

  /** Step j saved registers of task pid, and the task did not run in the states after
      that and before state n. */
  ghost predicate WaitsFrom(states: seq<Kernel>, ops: seq<Op>, j: nat, n: nat, pid: int, cpu: Cpu) {
    && Run(states, ops) && j < n <= |ops|
    && Ordered(states[j]) && Saves(states[j], ops[j], pid, cpu)
    && forall i :: j < i < n ==> states[i].cur < |states[i].tasks| && !Current(states[i], pid)
  }

  lemma {:induction false} RecordKept(states: seq<Kernel>, ops: seq<Op>, j: nat, n: nat, pid: int, cpu: Cpu)
    requires WaitsFrom(states, ops, j, n, pid, cpu)
    ensures Ordered(states[n]) && Holds(states[n], pid, cpu) && pid < states[n].nextPid
    decreases n - j
  {
    hide Saves, Holds, Ordered, ForksLogged, Step;
    RunSafe(states, ops, n);
    RunSafe(states, ops, n - 1);
    if n == j + 1 {
      SaveHolds(states[j], ops[j], pid, cpu);
    } else {
      RecordKept(states, ops, j, n - 1, pid, cpu);
      StepHolds(states[n - 1], ops[n - 1], pid, cpu);
    }
  }

  /** Every task is resumed with exactly the registers and the directory last saved for it. */
  lemma ResumedAsSaved(states: seq<Kernel>, ops: seq<Op>, j: nat, n: nat, pid: int, cpu: Cpu)
    requires WaitsFrom(states, ops, j, n, pid, cpu) && states[n].cur < |states[n].tasks|
    requires Current(states[n], pid) && Jumps(states[n - 1], ops[n - 1])
    ensures states[n].cpu == cpu
  {
    hide Saves, Ordered, ForksLogged, Step, Jumps;
    RecordKept(states, ops, j, n, pid, cpu);
    RunSafe(states, ops, n - 1);
    JumpLoads(states[n - 1], ops[n - 1]);
  }

  /** The second return of fork: when the child made by step j first runs, it is at the
      place in fork with the registers of its parent, and fork returns 0 in it there. */
  lemma ChildFirstRuns(states: seq<Kernel>, ops: seq<Op>, j: nat, n: nat, pid: int, cpu: Cpu)
    requires WaitsFrom(states, ops, j, n, pid, cpu) && ops[j].DoFork? && states[n].cur < |states[n].tasks|
    requires Current(states[n], pid)
    ensures states[n].cpu == cpu
            == Cpu(Regs(InFork(states[j].tasks[states[j].cur].pid, pid), ops[j].esp, ops[j].ebp), ops[j].dir)
    ensures states[j + 1].log == states[j].log + [Returned(states[j].tasks[states[j].cur].pid, pid)]
    ensures states[n].log == states[n - 1].log + [Returned(pid, 0)]
  {
    hide ForksLogged;
    RecordKept(states, ops, j, n, pid, cpu);
    RunSafe(states, ops, n - 1);
    JumpLoads(states[n - 1], ops[n - 1]);
  }

  // ---------------------------------------------------------------- fairness

  /** How many switches away the task in place t is. */
  function Wait(k: Kernel, t: nat): int {
    if t > k.cur then t - k.cur else |k.tasks| - k.cur + t
  }

  lemma WaitStep(k: Kernel, op: Op, t: nat)
    requires k.cur < |k.tasks| && t < |k.tasks| && !op.DoExit?
    ensures t < |Step(k, op).tasks| && Step(k, op).tasks[t].pid == k.tasks[t].pid
    ensures 1 <= Wait(k, t) <= |k.tasks|
    ensures op.DoFork? ==> Wait(Step(k, op), t) <= Wait(k, t) + 1
    ensures op.DoSwitch? ==> (Step(k, op).cur == t <==> Wait(k, t) == 1)
    ensures op.DoSwitch? && Step(k, op).cur != t ==> Wait(Step(k, op), t) == Wait(k, t) - 1
  {
  }

  /** Without kills, as long as a task has not been switched to, every switch brings it one
      nearer and a fork puts it off by at most one. */
  lemma {:induction false} WaitRun(states: seq<Kernel>, ops: seq<Op>, a: nat, b: nat, t: nat)
    requires Run(states, ops) && a <= b <= |ops| && states[a].cur < |states[a].tasks| && t < |states[a].tasks|
    requires forall i :: a <= i < b ==> !ops[i].DoExit?
    requires forall i :: a <= i < b && ops[i].DoSwitch? ==> states[i + 1].cur != t
    ensures states[b].cur < |states[b].tasks| && t < |states[b].tasks|
    ensures states[b].tasks[t].pid == states[a].tasks[t].pid
    ensures 1 <= Wait(states[b], t)
    ensures Wait(states[b], t) + (Switches(ops[..b]) - Switches(ops[..a]))
            <= Wait(states[a], t) + (Forks(ops[..b]) - Forks(ops[..a]))
    decreases b - a
  {
    hide Step;
    if a < b {
      WaitRun(states, ops, a, b - 1, t);
      RunSafe(states, ops, b);
      WaitStep(states[b - 1], ops[b - 1], t);
      assert ops[..b][..b - 1] == ops[..b - 1];
    }
  }

  /** Without kills, a task in a list of n becomes current within n + f switches, f being
      the forks made meanwhile. */
  lemma BoundedWait(states: seq<Kernel>, ops: seq<Op>, a: nat, b: nat, t: nat)
    requires Run(states, ops) && a <= b <= |ops| && states[a].cur < |states[a].tasks| && t < |states[a].tasks|
    requires forall i :: a <= i < b ==> !ops[i].DoExit?
    requires Switches(ops[..b]) - Switches(ops[..a]) >= |states[a].tasks| + (Forks(ops[..b]) - Forks(ops[..a]))
    ensures exists i :: a <= i < b && ops[i].DoSwitch? && states[i + 1].cur < |states[i + 1].tasks|
              && Current(states[i + 1], states[a].tasks[t].pid)
  {
    if forall i :: a <= i < b && ops[i].DoSwitch? ==> states[i + 1].cur != t {
      WaitRun(states, ops, a, b, t);
    } else {
      var i := FirstHit(states, ops, a, b, t);
      WaitRun(states, ops, a, i, t);
      WaitStep(states[i], ops[i], t);
      RunSafe(states, ops, i + 1);
    }
  }

  lemma FirstHit(states: seq<Kernel>, ops: seq<Op>, a: nat, b: nat, t: nat) returns (i: nat)
    requires a <= b <= |ops| && |states| == |ops| + 1
    requires exists i :: a <= i < b && ops[i].DoSwitch? && states[i + 1].cur == t
    ensures a <= i < b && ops[i].DoSwitch? && states[i + 1].cur == t
    ensures forall j :: a <= j < i && ops[j].DoSwitch? ==> states[j + 1].cur != t
  {
    i := a;
    while !(ops[i].DoSwitch? && states[i + 1].cur == t)
      invariant a <= i < b
      invariant forall j :: a <= j < i && ops[j].DoSwitch? ==> states[j + 1].cur != t
      decreases b - i
    {
      i := i + 1;
    }
  }
}
