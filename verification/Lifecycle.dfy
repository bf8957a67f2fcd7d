/** Scheduler and process life cycle (src/task/task.c, src/task/process.c,
    src/syscall/proc_mgmt.c, src/idt/idt.c) as a state machine.  Interrupts are
    off in handlers, so each handler is one atomic step. */
module Lifecycle {
  import Status

  const MAX_PROCS: nat := 64
  const PROC_EXCEPTION: int := -15

  datatype TaskState = Running | Blocked | Ready | Dead

  datatype ProcStatus = Unused | Creating | CanStart | Zombie

  /** One entry of `procs`. */
  datatype Slot = Slot(status: ProcStatus, pid: nat, parent: nat, exit: int)

  /** One task of the list, with the slot of its process. */
  datatype TaskV = TaskV(slot: nat, state: TaskState)

  /** `procs`, the task list from head to tail, and the slot of curr_task. */
  datatype World = World(slots: seq<Slot>, tasks: seq<TaskV>, cur: nat)

  /** What a handler comes to: it returns to a task, stops in panic(), or loops. */
  datatype Outcome = Runs(w: World) | Panicked | Hung

  const EMPTY: Slot := Slot(Unused, 0, 0, 0)

  // -------------------------------------------------------------- invariant

  predicate Listed(w: World, i: nat, slot: nat) {
    i < |w.tasks| && w.tasks[i].slot == slot
  }

  predicate SlotFits(w: World, k: nat)
    requires k < |w.slots|
  {
    && (w.slots[k].pid == 0 || w.slots[k].pid == k)
    && (w.slots[k].status != Unused ==> w.slots[k].pid == k)
  }

  predicate TaskFits(w: World, i: nat)
    requires i < |w.tasks| && |w.slots| == MAX_PROCS
  {
    var t := w.tasks[i];
    && t.slot < MAX_PROCS && w.slots[t.slot].status != Unused
    && t.state != Blocked
    && (t.state == Dead <==> w.slots[t.slot].status == Zombie)
    && (t.state == Running <==> t.slot == w.cur)
  }

  predicate Distinct(w: World) {
    forall i: nat, j: nat :: i < j < |w.tasks| ==> w.tasks[i].slot != w.tasks[j].slot
  }

  /** Between steps: each used slot has exactly one task and its own number as
      pid; a task is dead exactly when its process is a zombie; curr_task is
      listed, can run, and is the only running task. */
  ghost predicate Inv(w: World) {
    && |w.slots| == MAX_PROCS
    && (forall k: nat :: k < MAX_PROCS ==> SlotFits(w, k))
    && (forall i: nat :: i < |w.tasks| ==> TaskFits(w, i))
    && Distinct(w)
    && (forall k: nat :: k < MAX_PROCS && w.slots[k].status != Unused ==> HasTask(w, k))
    && w.cur < MAX_PROCS && w.slots[w.cur].status == CanStart
  }

  ghost predicate HasTask(w: World, k: nat) {
    exists i :: Listed(w, i, k)
  }

  // -------------------------------------------------------------- searches

  /** The index of the task of a slot. */
  function Find(tasks: seq<TaskV>, slot: nat): (i: nat)
    ensures i <= |tasks|
    ensures i < |tasks| ==> tasks[i].slot == slot
    ensures forall j :: 0 <= j < i ==> tasks[j].slot != slot
  {
    if tasks == [] || tasks[0].slot == slot then 0 else 1 + Find(tasks[1..], slot)
  }

  /** get_free_slot: the first unused slot. */
  function FreeSlot(slots: seq<Slot>): (k: nat)
    ensures k <= |slots|
    ensures k < |slots| ==> slots[k].status == Unused
    ensures forall j :: 0 <= j < k ==> slots[j].status != Unused
  {
    if slots == [] || slots[0].status == Unused then 0 else 1 + FreeSlot(slots[1..])
  }

  /** get_proc_by_pid: the first slot that holds the pid. */
  function SlotOfPid(slots: seq<Slot>, pid: int): (k: nat)
    ensures k <= |slots|
    ensures k < |slots| ==> slots[k].pid == pid
    ensures forall j :: 0 <= j < k ==> slots[j].pid != pid
  {
    if slots == [] || slots[0].pid == pid then 0 else 1 + SlotOfPid(slots[1..], pid)
  }

  /** task_switch_and_run_any: the first ready task from the head. */
  function FirstReady(tasks: seq<TaskV>): (i: nat)
    ensures i <= |tasks|
    ensures i < |tasks| ==> tasks[i].state == Ready
    ensures forall j :: 0 <= j < i ==> tasks[j].state != Ready
  {
    if tasks == [] || tasks[0].state == Ready then 0 else 1 + FirstReady(tasks[1..])
  }

  lemma FreeSlotIs(slots: seq<Slot>, k: nat)
    requires k <= |slots| && (k < |slots| ==> slots[k].status == Unused)
    requires forall j :: 0 <= j < k ==> slots[j].status != Unused
    ensures FreeSlot(slots) == k
  {
  }

  lemma SlotOfPidIs(slots: seq<Slot>, pid: int, k: nat)
    requires k <= |slots| && (k < |slots| ==> slots[k].pid == pid)
    requires forall j :: 0 <= j < k ==> slots[j].pid != pid
    ensures SlotOfPid(slots, pid) == k
  {
  }

  lemma FirstReadyIs(tasks: seq<TaskV>, i: nat)
    requires i <= |tasks| && (i < |tasks| ==> tasks[i].state == Ready)
    requires forall j :: 0 <= j < i ==> tasks[j].state != Ready
    ensures FirstReady(tasks) == i
  {
  }

  // ------------------------------------------------------------------ steps

  function SetState(w: World, slot: nat, state: TaskState): World {
    var i := Find(w.tasks, slot);
    if i < |w.tasks| then w.(tasks := w.tasks[i := TaskV(slot, state)]) else w
  }

  /** task_switch_and_run of task `i`, with curr_task no longer running. */
  function SwitchTo(w: World, i: nat): (o: Outcome)
    requires i < |w.tasks|
    ensures !o.Hung?
  {
    var t := w.tasks[i];
    if t.state != Ready || t.slot >= |w.slots| || w.slots[t.slot].status != CanStart then Panicked
    else Runs(World(w.slots, w.tasks[i := TaskV(t.slot, Running)], t.slot))
  }

  datatype CreateResult = LoadFails | ArgsFail | Succeeds

  datatype Event =
    | Create(result: CreateResult)  // syscall_create_process
    | Exit(status: int)             // syscall_exit
    | Exception                     // idt_handle_exception
    | WaitPid(pid: int)             // syscall_wait_pid
    | Clock                         // idt_handle_clock

  /** process_new and process_add_arguments, where task_new does not fail. */
  function DoCreate(w: World, result: CreateResult): World {
    var k := FreeSlot(w.slots);
    if k == |w.slots| then w
    else if result == LoadFails then w.(slots := w.slots[k := EMPTY])
    else
      var parent := if w.cur < |w.slots| then w.slots[w.cur].pid else 0;
      var status := if result == Succeeds then CanStart else Creating;
      w.(slots := w.slots[k := Slot(status, k, parent, 0)], tasks := w.tasks + [TaskV(k, Ready)])
  }

  /** The current process a zombie and its task dead. */
  function Exited(w: World, status: int): World
    requires w.cur < |w.slots|
  {
    var w1 := SetState(w, w.cur, Dead);
    w1.(slots := w1.slots[w.cur := w1.slots[w.cur].(status := Zombie, exit := status)])
  }

  /** process_exit of the current process, then task_switch_and_run_any. */
  function DoExit(w: World, status: int): Outcome
    requires w.cur < |w.slots|
  {
    var w1 := Exited(w, status);
    var i := FirstReady(w1.tasks);
    if i == |w1.tasks| then Panicked else SwitchTo(w1, i)
  }

  /** process_waitpid: reap the child if it is a zombie. */
  function DoWait(w: World, pid: int): Outcome
    requires w.cur < |w.slots|
  {
    var k := SlotOfPid(w.slots, pid);
    if k == |w.slots| || w.slots[k].parent != w.slots[w.cur].pid || w.slots[k].status != Zombie then Runs(w)
    else
      var i := Find(w.tasks, k);
      if i == |w.tasks| || w.tasks[i].state != Dead then Panicked
      else
        var slots := w.slots[SlotOfPid(w.slots, w.slots[k].pid) := EMPTY];
        Runs(World(slots, w.tasks[..i] + w.tasks[i + 1..], w.cur))
  }

  /** What process_waitpid returns. */
  function WaitStatus(w: World, pid: int): Status.Status
    requires w.cur < |w.slots|
  {
    var k := SlotOfPid(w.slots, pid);
    if k == |w.slots| || w.slots[k].parent != w.slots[w.cur].pid then Status.InvalidArg
    else if w.slots[k].status != Zombie then Status.ProcNotZombie
    else Status.Ok
  }

  /** The cyclic successor in the list: task_get_next. */
  function NextIndex(w: World, i: nat): nat
    requires i < |w.tasks|
  {
    if i + 1 < |w.tasks| then i + 1 else 0
  }

  /** task_switch_to_next_and_run.  The scan asks for the successor of
      curr_task over and over, so it ends at once or never. */
  function DoClock(w: World): Outcome {
    var i := Find(w.tasks, w.cur);
    if i == |w.tasks| then Panicked
    else
      var w1 := if w.tasks[i].state == Running then SetState(w, w.cur, Ready) else w;
      var j := NextIndex(w1, i);
      if j != i && w1.tasks[j].state != Ready then Hung else SwitchTo(w1, j)
  }

  function Step(w: World, e: Event): Outcome
    requires w.cur < |w.slots|
  {
    match e
    case Create(result) => Runs(DoCreate(w, result))
    case Exit(status) => DoExit(w, status)
    case Exception => DoExit(w, PROC_EXCEPTION)
    case WaitPid(pid) => DoWait(w, pid)
    case Clock => DoClock(w)
  }

  // ---------------------------------------------------------- preservation

  lemma CurrentListed(w: World)
    requires Inv(w)
    ensures Find(w.tasks, w.cur) < |w.tasks|
    ensures w.tasks[Find(w.tasks, w.cur)] == TaskV(w.cur, Running)
  {
    assert HasTask(w, w.cur);
    var i :| Listed(w, i, w.cur);
    assert TaskFits(w, Find(w.tasks, w.cur));
  }

  lemma CreateKeeps(w: World, result: CreateResult)
    requires Inv(w)
    ensures Inv(DoCreate(w, result))
  {
    hide Inv;
    var k := FreeSlot(w.slots);
    if k < |w.slots| {
      if result == LoadFails {
        UnusedKeeps(w, k);
      } else {
        AddedKeeps(w, k, DoCreate(w, result).slots[k]);
      }
    }
  }

  lemma UnusedKeeps(w: World, k: nat)
    requires Inv(w) && k < |w.slots| && w.slots[k].status == Unused
    ensures Inv(w.(slots := w.slots[k := EMPTY]))
  {
    var w' := w.(slots := w.slots[k := EMPTY]);
    forall i: nat | i < |w.tasks| ensures TaskFits(w', i) { assert TaskFits(w, i); }
    forall j: nat | j < MAX_PROCS ensures SlotFits(w', j) { assert SlotFits(w, j); }
    forall j: nat | j < MAX_PROCS && w'.slots[j].status != Unused ensures HasTask(w', j) { StillListed(w, w', j); }
  }

  lemma AddedKeeps(w: World, k: nat, slot: Slot)
    requires Inv(w) && k < |w.slots| && w.slots[k].status == Unused
    requires slot.pid == k && (slot.status == Creating || slot.status == CanStart)
    ensures Inv(w.(slots := w.slots[k := slot], tasks := w.tasks + [TaskV(k, Ready)]))
  {
    var w' := w.(slots := w.slots[k := slot], tasks := w.tasks + [TaskV(k, Ready)]);
    forall i: nat | i < |w.tasks| ensures TaskFits(w', i) && w.tasks[i].slot != k { assert TaskFits(w, i); }
    forall j: nat | j < MAX_PROCS ensures SlotFits(w', j) { assert SlotFits(w, j); }
    assert Listed(w', |w.tasks|, k);
    forall j: nat | j < MAX_PROCS && w'.slots[j].status != Unused ensures HasTask(w', j) {
      if j != k { StillListed(w, w', j); }
    }
  }

  lemma StillListed(w: World, w': World, j: nat)
    requires HasTask(w, j) && w.tasks <= w'.tasks
    ensures HasTask(w', j)
  {
    var i :| Listed(w, i, j);
    assert Listed(w', i, j);
  }

  /** No listed task belongs to a free slot. */
  lemma FreeSlotUnlisted(w: World)
    requires Inv(w)
    ensures forall i: nat :: i < |w.tasks| ==> w.tasks[i].slot != FreeSlot(w.slots)
    ensures w.cur != FreeSlot(w.slots) && w.cur < MAX_PROCS
  {
    forall i: nat | i < |w.tasks| ensures w.tasks[i].slot != FreeSlot(w.slots) {
      assert TaskFits(w, i);
    }
  }

  /** Everything but the current task is in order: the state in the middle of a
      handler, once the current task has stopped running. */
  ghost predicate Stopped(w: World) {
    && |w.slots| == MAX_PROCS
    && (forall k: nat :: k < MAX_PROCS ==> SlotFits(w, k))
    && (forall i: nat :: i < |w.tasks| ==> StoppedTask(w, i))
    && Distinct(w)
    && (forall k: nat :: k < MAX_PROCS && w.slots[k].status != Unused ==> HasTask(w, k))
  }

  predicate StoppedTask(w: World, i: nat)
    requires i < |w.tasks| && |w.slots| == MAX_PROCS
  {
    var t := w.tasks[i];
    && t.slot < MAX_PROCS && w.slots[t.slot].status != Unused
    && t.state != Blocked && t.state != Running
    && (t.state == Dead <==> w.slots[t.slot].status == Zombie)
  }

  lemma SwitchRestores(w: World, i: nat)
    requires Stopped(w) && i < |w.tasks| && SwitchTo(w, i).Runs?
    ensures Inv(SwitchTo(w, i).w)
  {
    var w' := SwitchTo(w, i).w;
    assert StoppedTask(w, i);
    forall j: nat | j < |w'.tasks| ensures TaskFits(w', j) {
      assert StoppedTask(w, j);
    }
    forall k: nat | k < MAX_PROCS ensures SlotFits(w', k) {
      assert SlotFits(w, k);
    }
    forall k: nat | k < MAX_PROCS && w'.slots[k].status != Unused ensures HasTask(w', k) {
      assert HasTask(w, k);
      var j :| Listed(w, j, k);
      assert Listed(w', j, k);
    }
  }

  /** Stopping the current task, as ready or as dead with its zombie. */
  lemma StopCurrent(w: World, dead: bool, status: int)
    requires Inv(w)
    ensures Stopped(if dead then Exited(w, status) else SetState(w, w.cur, Ready))
  {
    CurrentListed(w);
    var w' := if dead then Exited(w, status) else SetState(w, w.cur, Ready);
    forall i: nat | i < |w'.tasks| ensures StoppedTask(w', i) {
      assert TaskFits(w, i);
    }
    forall k: nat | k < MAX_PROCS ensures SlotFits(w', k) {
      assert SlotFits(w, k);
    }
    forall k: nat | k < MAX_PROCS && w'.slots[k].status != Unused ensures HasTask(w', k) {
      assert HasTask(w, k);
      var j :| Listed(w, j, k);
      assert Listed(w', j, k);
    }
  }

  lemma ExitKeeps(w: World, status: int)
    requires Inv(w) && DoExit(w, status).Runs?
    ensures Inv(DoExit(w, status).w)
  {
    StopCurrent(w, true, status);
    var w1 := Exited(w, status);
    SwitchRestores(w1, FirstReady(w1.tasks));
  }

  lemma ExitKeepsInv(w: World, status: int)
    requires Inv(w)
    ensures w.cur < |w.slots| && w.slots[w.cur].status == CanStart
    ensures DoExit(w, status).Runs? ==> Inv(DoExit(w, status).w)
  {
    if DoExit(w, status).Runs? { ExitKeeps(w, status); }
  }

  lemma ClockKeeps(w: World)
    requires Inv(w) && DoClock(w).Runs?
    ensures Inv(DoClock(w).w)
  {
    CurrentListed(w);
    StopCurrent(w, false, 0);
    var w1 := SetState(w, w.cur, Ready);
    SwitchRestores(w1, NextIndex(w1, Find(w.tasks, w.cur)));
  }

  /** Reaping never panics, never frees the current task, and frees exactly the
      slot and the task of the child. */
  lemma WaitKeeps(w: World, pid: int)
    requires Inv(w)
    ensures DoWait(w, pid).Runs? && Inv(DoWait(w, pid).w)
    ensures DoWait(w, pid).w.cur == w.cur
    ensures DoWait(w, pid).w == w
            || (0 <= pid < MAX_PROCS && pid != w.cur && w.slots[pid].status == Zombie
                && w.slots[pid].parent == w.slots[w.cur].pid
                && DoWait(w, pid).w.slots == w.slots[pid := EMPTY])
  {
    var k := SlotOfPid(w.slots, pid);
    if k < MAX_PROCS && w.slots[k].parent == w.slots[w.cur].pid && w.slots[k].status == Zombie {
      assert SlotFits(w, k);
      assert HasTask(w, k);
      var i := Find(w.tasks, k);
      var i0 :| Listed(w, i0, k);
      assert TaskFits(w, i);
      var w' := DoWait(w, pid).w;
      assert w'.slots == w.slots[k := EMPTY];
      ReapKeeps(w, k, i, w');
    }
  }

  /** A zombie of the list: its task is dead and not the current one, and its pid
      leads back to its slot. */
  lemma ZombieListed(w: World, k: nat)
    requires Inv(w) && k < MAX_PROCS && w.slots[k].status == Zombie
    ensures Find(w.tasks, k) < |w.tasks| && w.tasks[Find(w.tasks, k)] == TaskV(k, Dead)
    ensures w.cur != k && SlotOfPid(w.slots, w.slots[k].pid) == k
  {
    assert HasTask(w, k) && SlotFits(w, k);
    var i :| Listed(w, i, k);
    assert TaskFits(w, Find(w.tasks, k));
    PidIsSlot(w, k);
  }

  lemma ReapKeeps(w: World, k: nat, i: nat, w': World)
    requires Inv(w) && k < MAX_PROCS && w.slots[k].status == Zombie && Listed(w, i, k)
    requires w' == World(w.slots[k := EMPTY], w.tasks[..i] + w.tasks[i + 1..], w.cur)
    ensures Inv(w')
  {
    forall j: nat | j < |w'.tasks| ensures TaskFits(w', j) {
      var o := if j < i then j else j + 1;
      assert w'.tasks[j] == w.tasks[o] && TaskFits(w, o);
    }
    forall j: nat | j < MAX_PROCS ensures SlotFits(w', j) {
      assert SlotFits(w, j);
    }
    forall j: nat | j < MAX_PROCS && w'.slots[j].status != Unused ensures HasTask(w', j) {
      assert HasTask(w, j);
      var o: nat :| Listed(w, o, j);
      assert Listed(w', if o < i then o else o - 1, j);
    }
  }

  lemma StepKeeps(w: World, e: Event)
    requires Inv(w) && Step(w, e).Runs?
    ensures Inv(Step(w, e).w)
  {
    match e
    case Create(result) => CreateKeeps(w, result);
    case Exit(status) => ExitKeeps(w, status);
    case Exception => ExitKeeps(w, PROC_EXCEPTION);
    case WaitPid(pid) => WaitKeeps(w, pid);
    case Clock => ClockKeeps(w);
  }

  // -------------------------------------------------------------- whole runs

  /** After kernel_main: the shell in slot 0, its own parent, running. */
  function Boot(): World {
    World([Slot(CanStart, 0, 0, 0)] + seq(MAX_PROCS - 1, _ => EMPTY), [TaskV(0, Running)], 0)
  }

  /** Only the shell is there, and can run. */
  lemma BootInv()
    ensures Inv(Boot()) && Boot().slots[0] == Slot(CanStart, 0, 0, 0) && Boot().tasks == [TaskV(0, Running)]
    ensures forall k: nat :: 0 < k < 64 ==> Boot().slots[k].status == Unused
  {
    var w := Boot();
    assert Listed(w, 0, 0);
    assert forall k: nat :: 0 < k < MAX_PROCS ==> w.slots[k] == EMPTY;
    forall k: nat | k < MAX_PROCS && w.slots[k].status != Unused ensures HasTask(w, k) {
      assert k == 0;
    }
  }

  function RunEvents(w: World, events: seq<Event>): Outcome
    requires w.cur < |w.slots|
    decreases |events|
  {
    if events == [] then Runs(w)
    else
      var o := Step(w, events[0]);
      if o.Runs? && o.w.cur < |o.w.slots| then RunEvents(o.w, events[1..]) else o
  }

  /** Life-cycle invariant: it holds after every run of create, exit, exception,
      waitpid and clock steps that neither panics nor hangs. */
  lemma {:induction false} LifeCycleInvariant(w: World, events: seq<Event>)
    requires Inv(w) && RunEvents(w, events).Runs?
    ensures Inv(RunEvents(w, events).w)
    decreases |events|
  {
    hide Step;
    if events != [] {
      StepKeeps(w, events[0]);
      LifeCycleInvariant(Step(w, events[0]).w, events[1..]);
    }
  }

  /** The current process ended with `status`: of the slots only its own changes,
      and of that only state and exit status; of the tasks only its own and that of
      the process that now runs, the first ready one, and both only in state. */
  ghost predicate Ended(w: World, status: int, w': World) {
    && w.cur < |w.slots| == |w'.slots| && |w'.tasks| == |w.tasks| && w'.cur != w.cur
    && w'.slots[w.cur] == w.slots[w.cur].(status := Zombie, exit := status)
    && (forall k: nat :: k < |w.slots| && k != w.cur ==> w'.slots[k] == w.slots[k])
    && (forall i: nat :: i < |w.tasks| ==> w'.tasks[i] == EndedTask(w, w'.cur, w.tasks[i]))
    && exists i: nat :: i < |w.tasks| && FirstReadyAt(w, i) && w'.cur == w.tasks[i].slot
  }

  function EndedTask(w: World, next: nat, t: TaskV): TaskV {
    if t.slot == w.cur then TaskV(t.slot, Dead) else if t.slot == next then TaskV(t.slot, Running) else t
  }

  predicate FirstReadyAt(w: World, i: nat)
    requires i < |w.tasks|
  {
    w.tasks[i].state == Ready && forall j: nat :: j < i ==> w.tasks[j].state != Ready
  }

  /** Exit and exception hand over to the first ready task of the list, and panic
      exactly when there is none or its process is still being created; the exit
      status is kept, -15 for an exception. */
  lemma ExitExact(w: World, status: int)
    requires Inv(w)
    ensures
      && w.cur < |w.slots| == MAX_PROCS
      && var o, x := Step(w, Exit(status)), Step(w, Exception);
      && !o.Hung? && !x.Hung? && (o.Panicked? <==> x.Panicked?)
      && (o.Panicked? <==>
          forall i: nat :: i < |w.tasks| && FirstReadyAt(w, i) ==>
            w.tasks[i].slot < MAX_PROCS && w.slots[w.tasks[i].slot].status == Creating)
      && (o.Runs? ==> Ended(w, status, o.w)) && (x.Runs? ==> Ended(w, -15, x.w))
  {
    hide DoExit, Ended;
    DoExitExact(w, status);
    DoExitExact(w, PROC_EXCEPTION);
    var i := FirstReady(w.tasks);
    forall j: nat | j < |w.tasks| && FirstReadyAt(w, j) ensures i == j {
      FirstReadyIs(w.tasks, j);
    }
    if i < |w.tasks| { assert FirstReadyAt(w, i); }
  }

  lemma DoExitExact(w: World, status: int)
    requires Inv(w)
    ensures
      var i, o := FirstReady(w.tasks), DoExit(w, status);
      && !o.Hung? && (i < |w.tasks| ==> w.tasks[i].slot < MAX_PROCS)
      && (o.Panicked? <==> i == |w.tasks| || w.slots[w.tasks[i].slot].status == Creating)
      && (o.Runs? ==> Ended(w, status, o.w))
  {
    hide Ended;
    CurrentListed(w);
    var c, i := Find(w.tasks, w.cur), FirstReady(w.tasks);
    FirstReadyIs(w.tasks[c := TaskV(w.cur, Dead)], i);
    if i < |w.tasks| {
      assert TaskFits(w, i);
      HandedOver(w, status, c, i);
    }
  }

  lemma HandedOver(w: World, status: int, c: nat, i: nat)
    requires Inv(w) && c < |w.tasks| && w.tasks[c].slot == w.cur && i < |w.tasks| && FirstReadyAt(w, i)
    ensures
      var slots := w.slots[w.cur := w.slots[w.cur].(status := Zombie, exit := status)];
      var next := w.tasks[i].slot;
      Ended(w, status, World(slots, w.tasks[c := TaskV(w.cur, Dead)][i := TaskV(next, Running)], next))
  {
    assert TaskFits(w, i) && TaskFits(w, c);
  }

  /** A step that is not a wait for `k` by its parent. */
  predicate NotReaping(w: World, e: Event, k: nat)
    requires w.cur < |w.slots| && k < |w.slots|
  {
    !(e == WaitPid(k) && w.slots[w.cur].pid == w.slots[k].parent)
  }

  /** A zombie keeps its slot, parent and exit status through every other step. */
  lemma ZombieStays(w: World, e: Event, k: nat)
    requires Inv(w) && k < MAX_PROCS && w.slots[k].status == Zombie && Step(w, e).Runs? && NotReaping(w, e, k)
    ensures |Step(w, e).w.slots| == MAX_PROCS && Step(w, e).w.slots[k] == w.slots[k]
  {
    hide DoExit, DoClock, DoWait, DoCreate, Ended;
    match e
    case Create(result) => CreateExact(w, result);
    case Exit(status) => EndedOther(w, status, k);
    case Exception => EndedOther(w, PROC_EXCEPTION, k);
    case WaitPid(pid) => WaitKeeps(w, pid);
    case Clock => ClockExact(w);
  }

  lemma EndedOther(w: World, status: int, k: nat)
    requires Inv(w) && k < MAX_PROCS && w.slots[k].status == Zombie
    ensures
      var o := DoExit(w, status);
      o.Runs? ==> |o.w.slots| == MAX_PROCS && o.w.slots[k] == w.slots[k]
  {
    hide DoExit;
    DoExitExact(w, status);
  }

  /** No step of the run is a wait for `k` by its parent. */
  predicate RunNotReaping(w: World, events: seq<Event>, k: nat)
    requires w.cur < |w.slots|
    decreases |events|
  {
    events != [] ==>
      && k < |w.slots| && NotReaping(w, events[0], k)
      && var o := Step(w, events[0]);
      (o.Runs? && o.w.cur < |o.w.slots| ==> RunNotReaping(o.w, events[1..], k))
  }

  lemma {:induction false} ZombieStaysOverRuns(w: World, events: seq<Event>, k: nat)
    requires Inv(w) && k < MAX_PROCS && w.slots[k].status == Zombie
    requires RunEvents(w, events).Runs? && RunNotReaping(w, events, k)
    ensures Inv(RunEvents(w, events).w) && RunEvents(w, events).w.slots[k] == w.slots[k]
    decreases |events|
  {
    hide Step, NotReaping;
    if events != [] {
      StepKeeps(w, events[0]);
      ZombieStays(w, events[0], k);
      ZombieStaysOverRuns(Step(w, events[0]).w, events[1..], k);
    }
  }

  /** The event ends the current process with `status`. */
  predicate Ends(e: Event, status: int) { e == Exit(status) || (e == Exception && status == -15) }

  /** A process that has ended is there for its parent: after any run in which its
      parent has not waited for it yet, the parent's wait succeeds, empties exactly
      its slot and takes exactly its task off the list. */
  lemma ParentReaps(w: World, e: Event, status: int, events: seq<Event>)
    requires Inv(w) && Ends(e, status) && Step(w, e).Runs?
    requires
      var w1 := Step(w, e).w;
      w1.cur < |w1.slots| && RunNotReaping(w1, events, w.cur) && RunEvents(w1, events).Runs?
    ensures
      var w2, pid := RunEvents(Step(w, e).w, events).w, w.slots[w.cur].pid;
      && Inv(w2) && w2.slots[w.cur].exit == status
      && (w2.slots[w2.cur].pid == w.slots[w.cur].parent ==>
            && WaitStatus(w2, pid) == Status.Ok && Step(w2, WaitPid(pid)).Runs?
            && var w3 := Step(w2, WaitPid(pid)).w;
            && w3.slots == w2.slots[w.cur := Slot(Unused, 0, 0, 0)] && w3.cur == w2.cur
            && (forall t :: t in w3.tasks <==> t in w2.tasks && t.slot != w.cur))
  {
    hide DoExit, RunEvents, RunNotReaping, DoWait;
    ExitExact(w, status);
    StepKeeps(w, e);
    assert SlotFits(w, w.cur);
    var w1 := Step(w, e).w;
    ZombieStaysOverRuns(w1, events, w.cur);
    var w2 := RunEvents(w1, events).w;
    WaitExact(w2, w.cur);
  }

  /** Create takes the lowest unused slot, so for want of one it fails only when
      all are in use; the new process is a child of the caller, last in the list
      and ready, able to run exactly when its arguments fit, and a wait for it by
      its parent finds it and does not reap it yet. */
  lemma CreateExact(w: World, result: CreateResult)
    requires Inv(w)
    ensures
      && w.cur < |w.slots| && Step(w, Create(result)).Runs?
      && var k, w' := FreeSlot(w.slots), Step(w, Create(result)).w;
      && (k == MAX_PROCS ==> w' == w)
      && (k < MAX_PROCS && result == LoadFails ==> w' == w.(slots := w.slots[k := Slot(Unused, 0, 0, 0)]))
      && (k == MAX_PROCS ==> forall j: nat :: j < MAX_PROCS ==> w.slots[j].status != Unused)
      && (k < MAX_PROCS && result != LoadFails ==>
            && |w'.slots| == MAX_PROCS && w'.cur == w.cur
            && w'.tasks == w.tasks + [TaskV(k, Ready)]
            && (Runnable(w', |w.tasks|) <==> result == Succeeds)
            && (forall j: nat :: j < MAX_PROCS && j != k ==> w'.slots[j] == w.slots[j])
            && w'.slots[k].pid == k && w'.slots[k].parent == w.slots[w.cur].pid && w'.slots[k].exit == 0
            && (w'.slots[k].status == Creating <==> result == ArgsFail)
            && SlotOfPid(w'.slots, k) == k && WaitStatus(w', k) == Status.ProcNotZombie)
  {
    var k, w' := FreeSlot(w.slots), DoCreate(w, result);
    if k < MAX_PROCS && result != LoadFails {
      CreateKeeps(w, result);
      WaitExact(w', k);
      PidIsSlot(w', k);
    }
  }

  lemma PidIsSlot(w: World, k: nat)
    requires Inv(w) && k < MAX_PROCS && w.slots[k].pid == k
    ensures SlotOfPid(w.slots, k) == k
  {
    forall j: nat | j < k ensures w.slots[j].pid != k { assert SlotFits(w, j); }
    SlotOfPidIs(w.slots, k, k);
  }

  /** Wait reaps exactly a zombie child of the caller: its slot is emptied and
      its task leaves the list, whose order stays; any other wait changes nothing. */
  lemma WaitExact(w: World, pid: int)
    requires Inv(w)
    ensures w.cur < |w.slots|
    ensures WaitStatus(w, pid) == Status.Ok <==>
              0 <= pid < MAX_PROCS && w.slots[pid].status == Zombie && w.slots[pid].parent == w.slots[w.cur].pid
    ensures WaitStatus(w, pid) == Status.ProcNotZombie <==>
              0 <= pid < MAX_PROCS && w.slots[pid].pid == pid && w.slots[pid].status != Zombie
              && w.slots[pid].parent == w.slots[w.cur].pid
    ensures WaitStatus(w, pid) != Status.Ok && WaitStatus(w, pid) != Status.ProcNotZombie ==>
              WaitStatus(w, pid) == Status.InvalidArg
    ensures WaitStatus(w, pid) != Status.Ok ==> Step(w, WaitPid(pid)) == Runs(w)
    ensures WaitStatus(w, pid) == Status.Ok ==>
      var o := Step(w, WaitPid(pid));
      && o.Runs? && o.w.cur == w.cur && o.w.slots == w.slots[pid := Slot(Unused, 0, 0, 0)]
      && (forall t :: t in o.w.tasks <==> t in w.tasks && t.slot != pid)
      && (exists i: nat :: i < |w.tasks| && w.tasks[i].slot == pid && o.w.tasks == w.tasks[..i] + w.tasks[i + 1..])
  {
    if 0 <= pid < MAX_PROCS && w.slots[pid].pid == pid {
      PidIsSlot(w, pid);
    } else if 0 <= pid < MAX_PROCS {
      assert SlotFits(w, pid);
      forall j: nat | j < MAX_PROCS ensures w.slots[j].pid != pid { assert SlotFits(w, j); }
    } else {
      forall j: nat | j < MAX_PROCS ensures w.slots[j].pid != pid { assert SlotFits(w, j); }
    }
    if WaitStatus(w, pid) == Status.Ok {
      ZombieListed(w, pid);
      WithoutTask(w, Find(w.tasks, pid));
    }
  }

  lemma WithoutTask(w: World, i: nat)
    requires Distinct(w) && i < |w.tasks|
    ensures forall t :: t in w.tasks[..i] + w.tasks[i + 1..] <==> t in w.tasks && t.slot != w.tasks[i].slot
  {
    var rest := w.tasks[..i] + w.tasks[i + 1..];
    forall t | t in w.tasks && t.slot != w.tasks[i].slot ensures t in rest {
      var j :| 0 <= j < |w.tasks| && w.tasks[j] == t;
      assert rest[if j < i then j else j - 1] == t;
    }
  }

  // ------------------------------------------------------------------- clock

  /** A clock step hangs exactly when the cyclic successor is another task that
      is dead, and panics exactly when that task is ready but its process is
      still being created; otherwise the successor runs. */
  lemma ClockExact(w: World)
    requires Inv(w)
    ensures w.cur < |w.slots| && Find(w.tasks, w.cur) < |w.tasks|
    ensures
      var o, i := Step(w, Clock), Find(w.tasks, w.cur);
      var j := if i + 1 < |w.tasks| then i + 1 else 0;
      var next := w.tasks[j];
      && next.slot < MAX_PROCS
      && (o.Hung? <==> next.slot != w.cur && next.state == Dead)
      && (o.Panicked? <==> next.slot != w.cur && w.slots[next.slot].status == Creating)
      && (o.Runs? ==>
            o.w == World(w.slots, w.tasks[i := TaskV(w.cur, Ready)][j := TaskV(next.slot, Running)], next.slot))
  {
    CurrentListed(w);
    var i := Find(w.tasks, w.cur);
    var j := NextIndex(w, i);
    assert TaskFits(w, i) && TaskFits(w, j);
  }

  /** From boot, create, clock and exit leave a zombie after the shell. */
  lemma ZombieAfterShell()
    ensures
      var w1 := DoCreate(Boot(), Succeeds);
      DoClock(w1).Runs? && DoClock(w1).w.cur == 1 && |DoClock(w1).w.slots| == MAX_PROCS
      && var o := DoExit(DoClock(w1).w, 0);
      o.Runs? && o.w.tasks == [TaskV(0, Running), TaskV(1, Dead)] && o.w.cur == 0 && |o.w.slots| == MAX_PROCS
  {
    var w0 := Boot();
    FreeSlotIs(w0.slots, 1);
    var w1 := DoCreate(w0, Succeeds);
    assert w1.tasks == [TaskV(0, Running), TaskV(1, Ready)] && Find(w1.tasks, 0) == 0;
    var w2 := DoClock(w1).w;
    assert w2.tasks == [TaskV(0, Ready), TaskV(1, Running)] && Find(w2.tasks, 1) == 1;
  }

  /** A child that exits before its parent reaps it hangs the next clock step. */
  lemma ZombieSuccessorHangs()
    ensures
      var w1 := DoCreate(Boot(), Succeeds);
      DoClock(w1).Runs? && DoClock(w1).w.cur == 1 && |DoClock(w1).w.slots| == MAX_PROCS
      && var o := DoExit(DoClock(w1).w, 0);
      o.Runs? && DoClock(o.w).Hung?
  {
    hide DoCreate, DoExit, Boot;
    ZombieAfterShell();
    var w3 := DoExit(DoClock(DoCreate(Boot(), Succeeds)).w, 0).w;
    assert Find(w3.tasks, 0) == 0;
  }

  // ------------------------------------------------------------- round robin

  /** Every listed task can run. */
  ghost predicate AllRunnable(w: World) {
    Inv(w) && forall i: nat :: i < |w.tasks| ==> Runnable(w, i)
  }

  predicate Runnable(w: World, i: nat)
    requires i < |w.tasks|
  {
    w.tasks[i].slot < |w.slots| && w.slots[w.tasks[i].slot].status == CanStart
  }

  /** The same list in the same order. */
  ghost predicate SameOrder(w: World, w': World) {
    |w'.tasks| == |w.tasks| && forall i: nat :: i < |w.tasks| ==> w'.tasks[i].slot == w.tasks[i].slot
  }

  lemma ClockAdvances(w: World)
    requires AllRunnable(w)
    ensures w.cur < |w.slots| && Find(w.tasks, w.cur) < |w.tasks|
    ensures
      var o := Step(w, Clock);
      && o.Runs? && AllRunnable(o.w) && SameOrder(w, o.w)
      && Find(o.w.tasks, o.w.cur) == NextIndex(w, Find(w.tasks, w.cur))
  {
    hide DoClock;
    ClockExact(w);
    var i := Find(w.tasks, w.cur);
    var j := NextIndex(w, i);
    assert Runnable(w, j) && TaskFits(w, j);
    ClockKeepsInv(w);
    var w' := DoClock(w).w;
    assert SameOrder(w, w');
    assert w'.tasks[j].slot == w'.cur;
    UniqueIndex(w', j);
    forall k: nat | k < |w'.tasks| ensures Runnable(w', k) {
      assert Runnable(w, k);
    }
  }

  lemma ClockKeepsInv(w: World)
    requires Inv(w)
    ensures DoClock(w).Runs? ==> Inv(DoClock(w).w)
  {
    if DoClock(w).Runs? { ClockKeeps(w); }
  }

  lemma UniqueIndex(w: World, j: nat)
    requires Distinct(w) && j < |w.tasks|
    ensures Find(w.tasks, w.tasks[j].slot) == j
  {
  }

  lemma OrderKept(w: World, w1: World, w2: World)
    ensures SameOrder(w, w)
    ensures SameOrder(w, w1) ==> |w1.tasks| == |w.tasks|
    ensures SameOrder(w, w1) && SameOrder(w1, w2) ==> SameOrder(w, w2)
  {
  }

  function ClockSteps(w: World, k: nat): Outcome {
    if k == 0 then Runs(w)
    else
      var o := ClockSteps(w, k - 1);
      if o.Runs? && o.w.cur < |o.w.slots| then Step(o.w, Clock) else o
  }

  /** Position after `k` turns of a list of `n`, for `k <= n`. */
  function Turn(n: nat, i: nat, k: nat): nat { if i + k < n then i + k else if i + k < 2 * n then i + k - n else 0 }

  lemma {:induction false} ClockStepsPosition(w: World, k: nat)
    requires AllRunnable(w) && k <= |w.tasks|
    ensures Find(w.tasks, w.cur) < |w.tasks|
    ensures
      var o := ClockSteps(w, k);
      && o.Runs? && AllRunnable(o.w) && SameOrder(w, o.w)
      && Find(o.w.tasks, o.w.cur) == Turn(|w.tasks|, Find(w.tasks, w.cur), k)
  {
    hide Step, AllRunnable, SameOrder, Find;
    ClockAdvances(w);
    OrderKept(w, w, w);
    if k > 0 {
      ClockStepsPosition(w, k - 1);
      var w1 := ClockSteps(w, k - 1).w;
      ClockAdvances(w1);
      OrderKept(w, w1, Step(w1, Clock).w);
    }
  }

  /** Round robin: while every listed task can run, of any n consecutive clock
      steps on a list of n tasks exactly one runs task `t`, and the tasks come
      in list order. */
  lemma RoundRobin(w: World, t: nat) returns (k: nat)
    requires AllRunnable(w) && t < |w.tasks|
    ensures 1 <= k <= |w.tasks|
    ensures ClockSteps(w, k).Runs? && ClockSteps(w, k).w.cur == w.tasks[t].slot
    ensures forall k' :: 1 <= k' <= |w.tasks| && k' != k ==>
              ClockSteps(w, k').Runs? && ClockSteps(w, k').w.cur != w.tasks[t].slot
    ensures Find(w.tasks, w.cur) < |w.tasks| && t == Turn(|w.tasks|, Find(w.tasks, w.cur), k)
  {
    hide ClockSteps, AllRunnable;
    ClockStepsPosition(w, 0);
    var n, i := |w.tasks|, Find(w.tasks, w.cur);
    k := if i < t then t - i else t + n - i;
    CurrentAt(w, k, t);
    forall k' | 1 <= k' <= n && k' != k
      ensures ClockSteps(w, k').Runs? && ClockSteps(w, k').w.cur != w.tasks[t].slot
    {
      CurrentAt(w, k', t);
    }
  }

  lemma CurrentAt(w: World, k: nat, t: nat)
    requires AllRunnable(w) && 1 <= k <= |w.tasks| && t < |w.tasks|
    ensures ClockSteps(w, k).Runs? && Find(w.tasks, w.cur) < |w.tasks|
    ensures ClockSteps(w, k).w.cur == w.tasks[t].slot <==> t == Turn(|w.tasks|, Find(w.tasks, w.cur), k)
  {
    hide ClockSteps;
    ClockStepsPosition(w, k);
    var w' := ClockSteps(w, k).w;
    CurrentListed(w');
    var p := Find(w'.tasks, w'.cur);
    assert w'.tasks[p].slot == w'.cur && w'.tasks[t].slot == w.tasks[t].slot;
    UniqueIndex(w', t);
  }
}
