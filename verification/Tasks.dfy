/** The round-robin scheduler of src/task.c as a state machine: the task list, the CPU and
    what fork returns. Scheduler.dfy proves that the linked list makes these steps. */
module Tasks {

  /** Where a saved instruction pointer lies. read_eip returns to these places twice: once
      from the call, and once more with 0x12345 when the saved registers are loaded. The
      locals of fork live on the saved stack, so the place in fork carries them. */
  datatype Eip = NotSaved | InSwitch | InExit | InFork(parent: int, child: int)

  datatype Regs = Regs(eip: Eip, esp: int, ebp: int)

  const NO_REGS := Regs(NotSaved, 0, 0)

  datatype Cpu = Cpu(regs: Regs, dir: int)

  datatype Task = Task(pid: int, regs: Regs, dir: int, time: nat)

  /** fork returned value in the task pid. */
  datatype Event = Returned(pid: int, value: int)

  /** dead holds the killed tasks; log the values fork has returned. */
  datatype Kernel = Kernel(tasks: seq<Task>, cur: nat, nextPid: int, cpu: Cpu, dead: seq<Task>, log: seq<Event>)

  datatype Op = DoFork(esp: int, ebp: int, dir: int) | DoSwitch(esp: int, ebp: int)
              | DoExit(pid: int, esp: int, ebp: int)

  /** init_multitask */
  function Boot(dir: int, cpu: Cpu, time: nat): Kernel {
    Kernel([Task(1, Regs(NotSaved, 0, 0), dir, time)], 0, 2, cpu, [], [])
  }

  // ---------------------------------------------------------------- the steps

  function Saved(k: Kernel, regs: Regs, ticks: nat): Kernel
    requires k.cur < |k.tasks|
  {
    var t := k.tasks[k.cur];
    k.(tasks := k.tasks[k.cur := Task(t.pid, regs, t.dir, t.time + ticks)])
  }

  /** What the code after read_eip does when it is entered for the second time: only fork
      has more to do than return, and compares cur_task with its local. */
  function SecondReturn(t: Task): seq<Event> {
    match t.regs.eip
    case InFork(parent, child) => [Returned(t.pid, if t.pid == parent then child else 0)]
    case _ => []
  }

  /** Loads the registers and the directory of task i and jumps. */
  function Resume(k: Kernel, i: nat): Kernel
    requires i < |k.tasks|
  {
    var t := k.tasks[i];
    Kernel(k.tasks, i, k.nextPid, Cpu(t.regs, t.dir), k.dead, k.log + SecondReturn(t))
  }

  /** fork: the child's saved place is inside fork; the parent returns at once. */
  function Fork(k: Kernel, esp: int, ebp: int, dir: int): Kernel
    requires k.cur < |k.tasks|
  {
    var parent := k.tasks[k.cur].pid;
    var child := Task(k.nextPid, Regs(InFork(parent, k.nextPid), esp, ebp), dir, 0);
    Kernel(k.tasks + [child], k.cur, k.nextPid + 1, k.cpu, k.dead, k.log + [Returned(parent, k.nextPid)])
  }

  /** task_switch */
  function Switch(k: Kernel, esp: int, ebp: int): Kernel
    requires k.cur < |k.tasks|
  {
    Resume(Saved(k, Regs(InSwitch, esp, ebp), 1), if k.cur + 1 < |k.tasks| then k.cur + 1 else 0)
  }

  /** The task that task_exit_pid finds: the first after the head with that pid, 0 if none. */
  function Victim(tasks: seq<Task>, pid: int, from: nat): (i: nat)
    requires 0 < from
    ensures i == 0 || (from <= i < |tasks| && tasks[i].pid == pid)
    ensures forall j :: from <= j < |tasks| && (i == 0 || j < i) ==> tasks[j].pid != pid
    decreases |tasks| - from
  {
    if from >= |tasks| then 0
    else if tasks[from].pid == pid then from
    else Victim(tasks, pid, from + 1)
  }

  /** task_exit_pid: unlinks the task, saves the current one (which may be the unlinked
      one), and goes on with the task before the unlinked one. */
  function Exit(k: Kernel, pid: int, esp: int, ebp: int): Kernel
    requires k.cur < |k.tasks|
  {
    var i := Victim(k.tasks, pid, 1);
    if i == 0 then k
    else
      var s := Saved(k, Regs(InExit, esp, ebp), 0);
      Resume(Kernel(s.tasks[..i] + s.tasks[i + 1..], s.cur, s.nextPid, s.cpu, s.dead + [s.tasks[i]], s.log), i - 1)
  }

  /** Where the search of task_exit_pid ends as it is written (lines 190-197): in front of the
      victim; at the end of the list; or there, taking the null pointer for the victim. */
  datatype TextSearch = InFront(place: nat) | NotListed | NullVictim

  /** The search from the task in place at. It reads the pid of the next task before it asks
      whether there is one; for none that is the word at address 0, whose page is mapped. */
  function TextFinds(tasks: seq<Task>, pid: int, word0: int, at: nat): TextSearch
    requires at < |tasks|
    decreases |tasks| - at
  {
    if at + 1 == |tasks| then if word0 == pid then NullVictim else NotListed
    else if tasks[at + 1].pid == pid then InFront(at)
    else TextFinds(tasks, pid, word0, at + 1)
  }

  /** Departure "null test": the search is right exactly when the pid is listed after the head, or
      the word at address 0 is another one. */
  lemma {:induction false} TextFindsIff(tasks: seq<Task>, pid: int, word0: int, at: nat)
    requires at < |tasks|
    ensures var i := Victim(tasks, pid, at + 1);
            TextFinds(tasks, pid, word0, at) == (if i == 0 then NotListed else InFront(i - 1))
            <==> i != 0 || word0 != pid
    decreases |tasks| - at
  {
    if at + 1 < |tasks| && tasks[at + 1].pid != pid {
      TextFindsIff(tasks, pid, word0, at + 1);
    }
  }

  /** An input: right after boot, a kill of the pid that stands at address 0. */
  lemma TextFindsInput(dir: int, cpu: Cpu, time: nat, word0: int, esp: int, ebp: int)
    ensures var k := Boot(dir, cpu, time);
            Exit(k, word0, esp, ebp) == k && TextFinds(k.tasks, word0, word0, 0) == NullVictim
  {
  }

  function Step(k: Kernel, op: Op): Kernel
    requires k.cur < |k.tasks|
  {
    match op
    case DoFork(esp, ebp, dir) => Fork(k, esp, ebp, dir)
    case DoSwitch(esp, ebp) => Switch(k, esp, ebp)
    case DoExit(pid, esp, ebp) => Exit(k, pid, esp, ebp)
  }

  // ---------------------------------------------------------------- invariants

  /** The list has strictly increasing pids, the current task is on it, and pids are fresh. */
  ghost predicate Ordered(k: Kernel) {
    && k.cur < |k.tasks|
    && (forall i, j :: 0 <= i < j < |k.tasks| ==> k.tasks[i].pid < k.tasks[j].pid)
    && (forall i :: 0 <= i < |k.tasks| ==> 0 < k.tasks[i].pid < k.nextPid)
  }

  lemma StepOrdered(k: Kernel, op: Op)
    requires Ordered(k)
    ensures Ordered(Step(k, op)) && Step(k, op).tasks[0].pid == k.tasks[0].pid
    ensures Step(k, op).nextPid == k.nextPid + (if op.DoFork? then 1 else 0)
  {
    match op
    case DoFork(_, _, _) =>
    case DoSwitch(_, _) =>
    case DoExit(pid, esp, ebp) => ExitOrdered(k, pid, esp, ebp);
  }

  lemma ExitOrdered(k: Kernel, pid: int, esp: int, ebp: int)
    requires Ordered(k)
    ensures Ordered(Exit(k, pid, esp, ebp)) && Exit(k, pid, esp, ebp).tasks[0].pid == k.tasks[0].pid
    ensures Exit(k, pid, esp, ebp).nextPid == k.nextPid
  {
    hide Victim, SecondReturn;
    var i := Victim(k.tasks, pid, 1);
    if i != 0 {
      var e := Exit(k, pid, esp, ebp);
      forall j | 0 <= j < |e.tasks| ensures e.tasks[j].pid == k.tasks[if j < i then j else j + 1].pid {
      }
    }
  }

  // ---------------------------------------------------------------- what each step does

  /** The same task: its pid, directory and time. */
  predicate SameTask(t: Task, u: Task) {
    t.pid == u.pid && t.dir == u.dir && t.time == u.time
  }

  /** fork changes no task that there is, nor what runs; the child is the last of the list. */
  lemma ForkIs(k: Kernel, esp: int, ebp: int, dir: int)
    requires Ordered(k)
    ensures var f := Fork(k, esp, ebp, dir);
            && f.tasks[..|k.tasks|] == k.tasks && |f.tasks| == |k.tasks| + 1
            && SameTask(f.tasks[|k.tasks|], Task(k.nextPid, NO_REGS, dir, 0))
            && f.cur == k.cur && f.cpu == k.cpu && f.dead == k.dead
  {
  }

  /** task_switch goes to the next task of the list, or to the first after the last. The task it
      leaves is one tick older and holds the registers of the call; no other changes. */
  lemma SwitchIs(k: Kernel, esp: int, ebp: int)
    requires Ordered(k)
    ensures var s := Switch(k, esp, ebp);
            && |s.tasks| == |k.tasks| && s.cur == (k.cur + 1) % |k.tasks| && s.dead == k.dead
            && (forall j :: 0 <= j < |k.tasks| && j != k.cur ==> s.tasks[j] == k.tasks[j])
            && SameTask(s.tasks[k.cur], k.tasks[k.cur].(time := k.tasks[k.cur].time + 1))
            && s.tasks[k.cur].regs.esp == esp && s.tasks[k.cur].regs.ebp == ebp
            && s.cpu.regs == s.tasks[s.cur].regs && s.cpu.dir == s.tasks[s.cur].dir
  {
  }

  /** A kill takes the task with the pid, if it stands in place i behind the head, out of the list:
      nobody with that pid is left, the others stay in their order, the dead gain exactly the
      victim, and the task that stood before it goes on. Only the registers of the task that
      ran are saved. */
  lemma ExitIs(k: Kernel, pid: int, esp: int, ebp: int, i: nat)
    requires Ordered(k) && 1 <= i < |k.tasks| && k.tasks[i].pid == pid
    ensures var e := Exit(k, pid, esp, ebp);
            && |e.tasks| == |k.tasks| - 1 && e.cur == i - 1
            && (forall j :: 0 <= j < |e.tasks| ==> Stays(k, e, i, j, Regs(InExit, esp, ebp)))
            && (forall j :: 0 <= j < |e.tasks| ==> e.tasks[j].pid != pid)
            && |e.dead| == |k.dead| + 1 && e.dead[..|k.dead|] == k.dead && SameTask(e.dead[|k.dead|], k.tasks[i])
            && e.cpu.regs == e.tasks[e.cur].regs && e.cpu.dir == e.tasks[e.cur].dir
  {
    hide SecondReturn, Victim;
    VictimIs(k, pid, i);
    var s := Saved(k, Regs(InExit, esp, ebp), 0);
    var e := Exit(k, pid, esp, ebp);
    assert e.tasks == s.tasks[..i] + s.tasks[i + 1..];
    forall j: nat | j < |e.tasks| ensures Stays(k, e, i, j, Regs(InExit, esp, ebp)) && e.tasks[j].pid != pid {
      assert e.tasks[j] == s.tasks[if j < i then j else j + 1];
    }
  }

  lemma VictimIs(k: Kernel, pid: int, i: nat)
    requires Ordered(k) && 1 <= i < |k.tasks| && k.tasks[i].pid == pid
    ensures Victim(k.tasks, pid, 1) == i
  {
    hide Victim;
    var v := Victim(k.tasks, pid, 1);
  }

  /** Place j of e is that place of k, or the next one from i on, with these registers if that
      task was running. */
  predicate Stays(k: Kernel, e: Kernel, i: nat, j: nat, regs: Regs)
    requires j < |e.tasks|
  {
    var l := if j < i then j else j + 1;
    && l < |k.tasks| && SameTask(e.tasks[j], k.tasks[l])
    && e.tasks[j].regs == if l == k.cur then regs else k.tasks[l].regs
  }

  /** Without such a task a kill does nothing. */
  lemma ExitMisses(k: Kernel, pid: int, esp: int, ebp: int)
    requires Ordered(k) && forall i :: 1 <= i < |k.tasks| ==> k.tasks[i].pid != pid
    ensures Exit(k, pid, esp, ebp) == k
  {
  }

  // ---------------------------------------------------------------- what fork returns

  /** How often fork has returned value anywhere. */
  function CountValue(log: seq<Event>, value: int): nat {
    if log == [] then 0 else CountValue(log[..|log| - 1], value) + (if log[|log| - 1].value == value then 1 else 0)
  }

  lemma CountValueStep(log: seq<Event>, e: Event, value: int)
    ensures CountValue(log + [e], value) == CountValue(log, value) + (if e.value == value then 1 else 0)
  {
    assert (log + [e])[..|log|] == log;
  }

  /** How often fork has returned 0 in task pid. */
  function Zeros(log: seq<Event>, pid: int): nat {
    multiset(log)[Returned(pid, 0)]
  }

  /** A task saved inside fork is a child other than its parent, and not the first task. */
  ghost predicate ForkPlaces(tasks: seq<Task>) {
    forall i :: 0 <= i < |tasks| && tasks[i].regs.eip.InFork? ==> tasks[i].pid > tasks[i].regs.eip.parent > 0
  }

  /** Each new pid has been returned once; 0 never in the first task or one yet to come. */
  ghost predicate PidsReturned(nextPid: int, log: seq<Event>) {
    && (forall p :: 2 <= p < nextPid ==> CountValue(log, p) == 1)
    && (forall p :: nextPid <= p ==> CountValue(log, p) == 0 && Zeros(log, p) == 0)
    && Zeros(log, 1) == 0
  }

  /** Task i still has the second return of fork before it: it waits at the place in fork. */
  predicate Pending(k: Kernel, i: nat)
    requires i < |k.tasks|
  {
    i != k.cur && k.tasks[i].regs.eip.InFork?
  }

  ghost predicate ForksLogged(k: Kernel) {
    && PidsReturned(k.nextPid, k.log) && ForkPlaces(k.tasks) && k.nextPid >= 2
    && forall i :: 0 <= i < |k.tasks| && k.tasks[i].pid != 1 ==>
          Zeros(k.log, k.tasks[i].pid) == if Pending(k, i) then 0 else 1
  }

  /** The same when no task is running: every place in fork is pending. */
  ghost predicate Parked(tasks: seq<Task>, nextPid: int, log: seq<Event>) {
    && PidsReturned(nextPid, log) && ForkPlaces(tasks) && nextPid >= 2
    && forall i :: 0 <= i < |tasks| && tasks[i].pid != 1 ==>
          Zeros(log, tasks[i].pid) == if tasks[i].regs.eip.InFork? then 0 else 1
  }

  lemma SaveParks(k: Kernel, regs: Regs, ticks: nat)
    requires Ordered(k) && ForksLogged(k) && !regs.eip.InFork?
    ensures Parked(Saved(k, regs, ticks).tasks, k.nextPid, k.log)
  {
    hide PidsReturned, Zeros;
    var tasks := Saved(k, regs, ticks).tasks;
    forall i | 0 <= i < |tasks| && tasks[i].pid != 1
      ensures Zeros(k.log, tasks[i].pid) == if tasks[i].regs.eip.InFork? then 0 else 1
    {
      assert tasks[i].pid == k.tasks[i].pid;
    }
  }

  lemma ResumeLogs(k: Kernel, i: nat)
    requires i < |k.tasks| && Parked(k.tasks, k.nextPid, k.log) && Ordered(Resume(k, i))
    ensures ForksLogged(Resume(k, i))
  {
    var t := k.tasks[i];
    var r := Resume(k, i);
    if t.regs.eip.InFork? {
      var e := Returned(t.pid, 0);
      assert r.log == k.log + [e];
      forall p ensures CountValue(r.log, p) == CountValue(k.log, p) + (if p == 0 then 1 else 0) {
        CountValueStep(k.log, e, p);
      }
    } else {
      assert r.log == k.log;
    }
  }

  lemma StepLogged(k: Kernel, op: Op)
    requires Ordered(k) && ForksLogged(k)
    ensures ForksLogged(Step(k, op))
  {
    hide PidsReturned, Zeros, ForksLogged, Parked;
    StepOrdered(k, op);
    match op
    case DoFork(esp, ebp, dir) =>
      ForkLogged(k, esp, ebp, dir);
    case DoSwitch(esp, ebp) =>
      SaveParks(k, Regs(InSwitch, esp, ebp), 1);
      ResumeLogs(Saved(k, Regs(InSwitch, esp, ebp), 1), if k.cur + 1 < |k.tasks| then k.cur + 1 else 0);
    case DoExit(pid, esp, ebp) =>
      ExitLogged(k, pid, esp, ebp);
  }

  lemma ExitLogged(k: Kernel, pid: int, esp: int, ebp: int)
    requires Ordered(k) && ForksLogged(k)
    ensures ForksLogged(Exit(k, pid, esp, ebp))
  {
    hide PidsReturned, Zeros, ForksLogged, Parked;
    ExitOrdered(k, pid, esp, ebp);
    var i := Victim(k.tasks, pid, 1);
    if i != 0 {
      var s := Saved(k, Regs(InExit, esp, ebp), 0);
      SaveParks(k, Regs(InExit, esp, ebp), 0);
      var rest := s.tasks[..i] + s.tasks[i + 1..];
      DropParked(s.tasks, k.nextPid, k.log, i);
      ResumeLogs(Kernel(rest, s.cur, s.nextPid, s.cpu, s.dead + [s.tasks[i]], s.log), i - 1);
    }
  }

  lemma DropParked(tasks: seq<Task>, nextPid: int, log: seq<Event>, i: nat)
    requires Parked(tasks, nextPid, log) && i < |tasks|
    ensures Parked(tasks[..i] + tasks[i + 1..], nextPid, log)
  {
    hide PidsReturned, Zeros;
    var rest := tasks[..i] + tasks[i + 1..];
    forall j | 0 <= j < |rest| ensures exists l :: 0 <= l < |tasks| && rest[j] == tasks[l] {
      assert rest[j] == tasks[if j < i then j else j + 1];
    }
  }

  lemma ForkLogged(k: Kernel, esp: int, ebp: int, dir: int)
    requires Ordered(k) && ForksLogged(k)
    ensures ForksLogged(Fork(k, esp, ebp, dir))
  {
    var f := Fork(k, esp, ebp, dir);
    var e := Returned(k.tasks[k.cur].pid, k.nextPid);
    forall p ensures CountValue(f.log, p) == CountValue(k.log, p) + (if p == k.nextPid then 1 else 0) {
      CountValueStep(k.log, e, p);
    }
    forall p ensures Zeros(f.log, p) == Zeros(k.log, p) {
      assert multiset(f.log) == multiset(k.log) + multiset{e};
    }
    forall i | 0 <= i < |f.tasks| && f.tasks[i].pid != 1
      ensures Zeros(f.log, f.tasks[i].pid) == if Pending(f, i) then 0 else 1
    {
      if i < |k.tasks| {
        assert f.tasks[i] == k.tasks[i] && Pending(f, i) == Pending(k, i);
      }
    }
  }

  // ---------------------------------------------------------------- time

  function Time(tasks: seq<Task>): nat {
    if tasks == [] then 0 else Time(tasks[..|tasks| - 1]) + tasks[|tasks| - 1].time
  }

  lemma {:induction false} TimeConcat(a: seq<Task>, b: seq<Task>)
    ensures Time(a + b) == Time(a) + Time(b)
    decreases |b|
  {
    if b == [] {
      assert a + b == a;
    } else {
      assert (a + b)[..|a + b| - 1] == a + b[..|b| - 1];
      TimeConcat(a, b[..|b| - 1]);
    }
  }

  /** Time of one task split off. */
  lemma TimeSplit(tasks: seq<Task>, i: nat)
    requires i < |tasks|
    ensures Time(tasks) == Time(tasks[..i]) + tasks[i].time + Time(tasks[i + 1..])
    ensures Time(tasks[..i] + tasks[i + 1..]) == Time(tasks[..i]) + Time(tasks[i + 1..])
  {
    assert tasks == tasks[..i] + [tasks[i]] + tasks[i + 1..];
    TimeConcat(tasks[..i] + [tasks[i]], tasks[i + 1..]);
    TimeConcat(tasks[..i], [tasks[i]]);
    TimeConcat(tasks[..i], tasks[i + 1..]);
    assert [tasks[i]][..0] == [];
  }

  /** The time of all tasks ever made, killed ones included. */
  function TotalTime(k: Kernel): nat { Time(k.tasks) + Time(k.dead) }

  lemma SavedTime(k: Kernel, regs: Regs, ticks: nat)
    requires k.cur < |k.tasks|
    ensures Time(Saved(k, regs, ticks).tasks) == Time(k.tasks) + ticks
  {
    var s := Saved(k, regs, ticks).tasks;
    TimeSplit(k.tasks, k.cur);
    TimeSplit(s, k.cur);
    assert s[..k.cur] == k.tasks[..k.cur] && s[k.cur + 1..] == k.tasks[k.cur + 1..];
  }

  lemma StepTime(k: Kernel, op: Op)
    requires k.cur < |k.tasks|
    ensures TotalTime(Step(k, op)) == TotalTime(k) + (if op.DoSwitch? then 1 else 0)
  {
    match op
    case DoFork(esp, ebp, dir) =>
      var child := Fork(k, esp, ebp, dir).tasks[|k.tasks|];
      TimeConcat(k.tasks, [child]);
      assert [child][..0] == [];
    case DoSwitch(esp, ebp) =>
      SavedTime(k, Regs(InSwitch, esp, ebp), 1);
    case DoExit(pid, esp, ebp) =>
      var i := Victim(k.tasks, pid, 1);
      if i != 0 {
        var s := Saved(k, Regs(InExit, esp, ebp), 0);
        SavedTime(k, Regs(InExit, esp, ebp), 0);
        TimeSplit(s.tasks, i);
        TimeConcat(s.dead, [s.tasks[i]]);
        assert [s.tasks[i]][..0] == [];
      }
  }
}
