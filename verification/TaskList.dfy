/** The scheduler in place: tasks in a doubly linked list, processes in an array
    of slots, and the handlers of src/task/task.c and src/task/process.c as
    methods that do exactly the steps of the state machine. */
module TaskList {
  import opened Lifecycle

  /** struct task, the fields the scheduler uses.  A process is known by its
      index in `procs`. */
  class Task {
    var state: TaskState
    const proc: nat
    var next: Task?
    var prev: Task?

    constructor (p: nat)
      ensures state == Ready && proc == p && next == null && prev == null
    {
      state, proc, next, prev := Ready, p, null, null;
    }
  }

  /** struct process, the fields the life cycle uses. */
  datatype Proc = Proc(info: Slot, task: Task?)

  /** How a clock interrupt ends. */
  datatype Tick = Switched | Panics | Spins

  ghost predicate NoRepeat(list: seq<Task>) {
    forall i, j :: 0 <= i < j < |list| ==> list[i] != list[j]
  }

  lemma Only(list: seq<Task>, k: int)
    requires NoRepeat(list)
    ensures forall i :: 0 <= i < |list| && 0 <= k < |list| && i != k ==> list[i] != list[k]
  {
  }

  lemma CutOut(list: seq<Task>, k: nat)
    requires NoRepeat(list) && k < |list|
    ensures NoRepeat(list[..k] + list[k + 1..])
  {
  }

  class TaskQueue {
    var head: Task?
    var tail: Task?
    ghost var list: seq<Task>

    /** A well-formed doubly linked list from head to tail. */
    ghost predicate Valid()
      reads this, list
    {
      && NoRepeat(list)
      && head == (if list == [] then null else list[0])
      && tail == (if list == [] then null else list[|list| - 1])
      && (forall i {:trigger list[i].next} :: 0 <= i < |list| ==>
            list[i].next == if i + 1 < |list| then list[i + 1] else null)
      && (forall i {:trigger list[i].prev} :: 0 <= i < |list| ==>
            list[i].prev == if 0 < i then list[i - 1] else null)
    }

    constructor ()
      ensures Valid() && list == []
    {
      head, tail, list := null, null, [];
    }

    lemma Alone(i: nat)
      requires Valid() && i < |list|
      ensures forall j :: 0 <= j < |list| && j != i ==> list[j] != list[i]
    {
    }

    lemma Rest(k: nat)
      requires Valid() && k < |list|
      ensures forall t :: t in list[..k] + list[k + 1..] <==> t in list && t != list[k]
    {
      forall t | t in list && t != list[k] ensures t in list[..k] + list[k + 1..] {
        var j :| 0 <= j < |list| && list[j] == t;
        assert (list[..k] + list[k + 1..])[if j < k then j else j - 1] == t;
      }
      Only(list, k);
    }

    /** Write the state of a task; the links stay. */
    method WriteState(t: Task, state: TaskState)
      requires Valid()
      modifies t`state
      ensures Valid() && t.state == state
    {
      t.state := state;
    }

    /** The list half of task_new. */
    method Append(t: Task)
      requires Valid() && t !in list
      modifies this, t`next, t`prev, list`next
      ensures Valid() && list == old(list) + [t]
    {
      if head == null {
        head, tail := t, t;
        t.prev, t.next := null, null;
      } else {
        tail.next := t;
        t.prev := tail;
        t.next := null;
        tail := t;
      }
      list := list + [t];
    }

    /** The list half of task_free. */
    method Unlink(t: Task, ghost k: nat)
      requires Valid() && k < |list| && list[k] == t
      modifies this, list`next, list`prev
      ensures Valid() && list == old(list)[..k] + old(list)[k + 1..]
    {
      hide NoRepeat;
      CutOut(list, k);
      Only(list, k - 1);
      Only(list, k);
      Only(list, k + 1);
      if t.prev != null {
        t.prev.next := t.next;
      }
      if t.next != null {
        t.next.prev := t.prev;
      }
      if t == head {
        head := t.next;
      }
      if t == tail {
        tail := t.prev;
      }
      list := list[..k] + list[k + 1..];
    }

    /** The walk of task_switch_and_run_any. */
    method FindReady() returns (t: Task?, ghost i: nat)
      requires Valid()
      ensures i <= |list|
      ensures t == null <==> i == |list|
      ensures t != null ==> t == list[i] && t.state == Ready
      ensures forall j :: 0 <= j < i ==> list[j].state != Ready
    {
      t := head;
      i := 0;
      while t != null
        invariant i <= |list| && t == if i < |list| then list[i] else null
        invariant forall j :: 0 <= j < i ==> list[j].state != Ready
        decreases |list| - i
      {
        if t.state == Ready { return; }
        t := t.next;
        i := i + 1;
      }
    }

    /** task_get_next for the current task `t`. */
    method Next(t: Task, ghost k: nat) returns (n: Task)
      requires Valid() && k < |list| && list[k] == t
      ensures n == if k + 1 < |list| then list[k + 1] else list[0]
    {
      if t.next == null {
        n := head;
      } else {
        n := t.next;
      }
    }
  }

  class Scheduler {
    const procs: array<Proc>
    const queue: TaskQueue
    var curr: Task?

    /** Tasks and processes point at each other. */
    ghost predicate Mutual()
      reads queue, procs
    {
      && procs.Length == MAX_PROCS
      && (forall t :: t in queue.list ==> Paired(t))
      && (forall k :: 0 <= k < MAX_PROCS && procs[k].info.status != Unused ==> Owned(k))
    }

    ghost predicate Paired(t: Task)
      reads procs
    {
      t.proc < procs.Length && procs[t.proc].task == t
    }

    ghost predicate Owned(k: nat)
      requires k < procs.Length
      reads queue, procs
    {
      procs[k].task != null && procs[k].task in queue.list && procs[k].task.proc == k
    }

    ghost function Slots(): (r: seq<Slot>)
      reads procs
      ensures |r| == procs.Length && forall k :: 0 <= k < |r| ==> r[k] == procs[k].info
    {
      seq(procs.Length, k requires 0 <= k < procs.Length reads procs => procs[k].info)
    }

    ghost function Tasks(): (r: seq<TaskV>)
      reads queue, queue.list
      ensures |r| == |queue.list|
      ensures forall i :: 0 <= i < |r| ==> r[i] == TaskV(queue.list[i].proc, queue.list[i].state)
    {
      seq(|queue.list|, i requires 0 <= i < |queue.list| reads queue, queue.list =>
        TaskV(queue.list[i].proc, queue.list[i].state))
    }

    ghost function View(): World
      requires curr != null
      reads this, queue, queue.list, procs
    {
      World(Slots(), Tasks(), curr.proc)
    }

    /** The whole invariant of the scheduler between handlers. */
    ghost predicate Ok()
      reads this, queue, queue.list, procs
    {
      queue.Valid() && Mutual() && curr != null && curr in queue.list && Inv(View())
    }

    /** procs_init, process_new of the shell, task_run_init_task. */
    constructor ()
      ensures Ok() && View() == Boot()
      ensures fresh(queue) && fresh(procs) && fresh(queue.list)
    {
      hide Inv, TaskQueue.Valid, Mutual, Boot, Slots, Tasks;
      var t := new Task(0);
      t.state := Running;
      var q := new TaskQueue();
      q.Append(t);
      procs := new Proc[MAX_PROCS](_ => Proc(EMPTY, null));
      queue, curr := q, t;
      new;
      procs[0] := Proc(Slot(CanStart, 0, 0, 0), t);
      BootInv();
      Booted(t);
    }

    /** The shell alone, as the state machine starts. */
    lemma Booted(t: Task)
      requires procs.Length == MAX_PROCS && procs[0] == Proc(Slot(CanStart, 0, 0, 0), t)
      requires forall k :: 0 < k < MAX_PROCS ==> procs[k] == Proc(EMPTY, null)
      requires queue.list == [t] && t.proc == 0 && t.state == Running && curr == t
      ensures Mutual() && View() == Boot()
    {
      assert Slots() == Boot().slots;
      assert Tasks() == Boot().tasks;
    }

    /** get_free_slot */
    method GetFreeSlot() returns (k: nat)
      ensures k == FreeSlot(Slots())
    {
      k := 0;
      while k < procs.Length
        invariant k <= procs.Length && forall j :: 0 <= j < k ==> procs[j].info.status != Unused
      {
        if procs[k].info.status == Unused { break; }
        k := k + 1;
      }
      FreeSlotIs(Slots(), k);
    }

    /** get_proc_by_pid, and the search of free_pid_slot */
    method GetProcByPid(pid: int) returns (k: nat)
      ensures k == SlotOfPid(Slots(), pid)
    {
      k := 0;
      while k < procs.Length
        invariant k <= procs.Length && forall j :: 0 <= j < k ==> procs[j].info.pid != pid
      {
        if procs[k].info.pid == pid { break; }
        k := k + 1;
      }
      SlotOfPidIs(Slots(), pid, k);
    }

    /** process_new with its task, then process_add_arguments. */
    method CreateProcess(result: CreateResult)
      requires Ok()
      modifies queue, queue.list`next, procs
      ensures Ok() && View() == DoCreate(old(View()), result)
    {
      hide Inv, FreeSlot, TaskQueue.Valid;
      CreateKeeps(View(), result);
      FreeSlotUnlisted(View());
      var k := GetFreeSlot();
      if k == procs.Length { return; }
      assert forall i :: 0 <= i < |queue.list| ==> Tasks()[i].slot != k;
      if result == LoadFails {
        procs[k] := Proc(EMPTY, null);
        assert Slots() == old(Slots())[k := EMPTY] && Tasks() == old(Tasks());
      } else {
        var status := if result == Succeeds then CanStart else Creating;
        AddTask(k, Slot(status, k, procs[curr.proc].info.pid, 0));
      }
    }

    /** A new process in slot `k`, with a ready task at the end of the list. */
    method AddTask(k: nat, info: Slot)
      requires queue.Valid() && Mutual() && k < MAX_PROCS
      requires forall i :: 0 <= i < |queue.list| ==> queue.list[i].proc != k
      modifies queue, queue.list`next, procs
      ensures queue.Valid() && Mutual()
      ensures Slots() == old(Slots())[k := info] && Tasks() == old(Tasks()) + [TaskV(k, Ready)]
      ensures old(queue.list) <= queue.list
    {
      hide TaskQueue.Valid;
      var t := new Task(k);
      procs[k] := Proc(info, t);
      queue.Append(t);
      assert forall q :: q in queue.list ==> q == t || q in old(queue.list);
      assert Slots() == old(Slots())[k := info] && Tasks() == old(Tasks()) + [TaskV(k, Ready)];
    }

    /** The place of a task in the list is the place of its slot in the view. */
    lemma PlaceOf(t: Task) returns (i: nat)
      requires queue.Valid() && Mutual() && t in queue.list
      ensures i < |queue.list| && queue.list[i] == t && Lifecycle.Find(Tasks(), t.proc) == i
      ensures forall j :: 0 <= j < |queue.list| && j != i ==> queue.list[j] != t
    {
      hide TaskQueue.Valid;
      i :| i < |queue.list| && queue.list[i] == t;
      queue.Alone(i);
      var j := Lifecycle.Find(Tasks(), t.proc);
      assert Tasks()[i].slot == t.proc;
      assert j <= i && Tasks()[j].slot == t.proc;
      assert queue.list[j] in queue.list && Paired(queue.list[j]) && Paired(t);
    }

    /** Write the state of the current task. */
    method SetCurrentState(state: TaskState)
      requires queue.Valid() && Mutual() && curr != null && curr in queue.list
      modifies curr`state
      ensures queue.Valid() && View() == SetState(old(View()), curr.proc, state) && curr.state == state
    {
      hide TaskQueue.Valid, Mutual;
      ghost var c := PlaceOf(curr);
      queue.WriteState(curr, state);
      assert Tasks() == old(Tasks())[c := TaskV(curr.proc, state)];
    }

    /** task_switch_and_run of a listed task. */
    method SwitchAndRun(t: Task, ghost i: nat) returns (ok: bool)
      requires queue.Valid() && Mutual() && curr != null && curr in queue.list
      requires i < |queue.list| && queue.list[i] == t && t in queue.list && curr.state != Running
      modifies this`curr, t`state
      ensures queue.Valid() && Mutual()
      ensures ok <==> SwitchTo(old(View()), i).Runs?
      ensures ok ==> curr == t && View() == SwitchTo(old(View()), i).w
    {
      hide TaskQueue.Valid;
      assert Paired(t) && Tasks()[i] == TaskV(t.proc, t.state);
      queue.Alone(i);
      if t.state != Ready || procs[t.proc].info.status != CanStart {
        return false;
      }
      curr := t;
      queue.WriteState(t, Running);
      assert Tasks() == old(Tasks())[i := TaskV(t.proc, Running)];
      ok := true;
    }

    /** The current process becomes a zombie and its task dead. */
    method MarkExited(status: int)
      requires queue.Valid() && Mutual() && curr != null && curr in queue.list
      requires procs[curr.proc].info.status != Unused
      modifies curr`state, procs
      ensures queue.Valid() && Mutual() && curr.state == Dead && curr.proc < |Slots()|
      ensures View() == Exited(old(View()), status)
    {
      hide TaskQueue.Valid, SetState;
      assert Paired(curr);
      SetCurrentState(Dead);
      ghost var w1 := View();
      var p := procs[curr.proc];
      procs[curr.proc] := p.(info := p.info.(status := Zombie, exit := status));
      assert Slots() == w1.slots[curr.proc := w1.slots[curr.proc].(status := Zombie, exit := status)];
      assert Tasks() == w1.tasks;
    }

    /** process_exit of the current process, then task_switch_and_run_any. */
    method ExitCurrent(status: int) returns (ok: bool)
      requires Ok()
      modifies this`curr, queue.list`state, procs
      ensures ok <==> DoExit(old(View()), status).Runs?
      ensures ok ==> Ok() && View() == DoExit(old(View()), status).w
    {
      hide Inv, TaskQueue.Valid, SwitchTo, FirstReady, Exited, Mutual;
      ExitKeepsInv(View(), status);
      MarkExited(status);
      var t, i := queue.FindReady();
      FirstReadyIs(Tasks(), i);
      if t == null { return false; }
      ok := SwitchAndRun(t, i);
    }

    /** idt_handle_exception */
    method HandleException() returns (ok: bool)
      requires Ok()
      modifies this`curr, queue.list`state, procs
      ensures ok <==> Step(old(View()), Exception).Runs?
      ensures ok ==> Ok() && View() == Step(old(View()), Exception).w
    {
      hide DoExit, Inv, Mutual, TaskQueue.Valid;
      ok := ExitCurrent(PROC_EXCEPTION);
    }

    /** Take task `t` of slot `k` out of the list and empty the slot. */
    method Remove(t: Task, k: nat, ghost i: nat)
      requires queue.Valid() && Mutual() && k < MAX_PROCS
      requires i < |queue.list| && queue.list[i] == t && t in queue.list && t.proc == k
      modifies queue, queue.list`next, queue.list`prev, procs
      ensures queue.Valid() && Mutual()
      ensures Slots() == old(Slots())[k := EMPTY]
      ensures Tasks() == old(Tasks())[..i] + old(Tasks())[i + 1..]
      ensures forall q :: q in queue.list <==> q in old(queue.list) && q != t
    {
      hide TaskQueue.Valid;
      ghost var list := queue.list;
      queue.Rest(i);
      queue.Unlink(t, i);
      assert forall q :: q in queue.list ==> Paired(q);
      procs[k] := Proc(EMPTY, null);
      assert Slots() == old(Slots())[k := EMPTY];
    }

    /** process_reap of a zombie, with task_free and free_pid_slot. */
    method Reap(k: nat)
      requires Ok() && k < MAX_PROCS && procs[k].info.status == Zombie
      modifies queue, queue.list`next, queue.list`prev, procs
      ensures queue.Valid() && Mutual() && curr in queue.list
      ensures
        var w := old(View());
        var i := Lifecycle.Find(w.tasks, k);
        && i < |w.tasks| && w.tasks[i].state == Dead && SlotOfPid(w.slots, w.slots[k].pid) == k
        && View() == World(w.slots[k := EMPTY], w.tasks[..i] + w.tasks[i + 1..], w.cur)
    {
      hide Inv, TaskQueue.Valid, SlotOfPid, Lifecycle.Find;
      ZombieListed(View(), k);
      assert Owned(k);
      ghost var i := PlaceOf(procs[k].task);
      var slot := GetProcByPid(procs[k].info.pid);
      Remove(procs[k].task, slot, i);
    }

    /** process_waitpid of the current process. */
    method WaitPid(pid: int) returns (res: Status.Status)
      requires Ok()
      modifies queue, queue.list`next, queue.list`prev, procs
      ensures Ok() && curr == old(curr)
      ensures res == WaitStatus(old(View()), pid)
      ensures Runs(View()) == DoWait(old(View()), pid)
    {
      hide Inv, TaskQueue.Valid, SlotOfPid, Lifecycle.Find;
      WaitKeeps(View(), pid);
      var k := GetProcByPid(pid);
      if k == procs.Length || procs[k].info.parent != procs[curr.proc].info.pid {
        return Status.InvalidArg;
      }
      if procs[k].info.status != Zombie {
        return Status.ProcNotZombie;
      }
      Reap(k);
      res := Status.Ok;
    }

    /** task_switch_to_next_and_run.  While the successor is neither the current
        task nor ready, the source asks for the same successor again, for ever. */
    method ClockTick() returns (r: Tick)
      requires Ok()
      modifies this`curr, queue.list`state
      ensures r.Switched? <==> DoClock(old(View())).Runs?
      ensures r.Panics? <==> DoClock(old(View())).Panicked?
      ensures r.Spins? <==> DoClock(old(View())).Hung?
      ensures r.Switched? ==> Ok() && View() == DoClock(old(View())).w
    {
      hide Inv, TaskQueue.Valid, SwitchTo, Mutual, SetState;
      ClockKeepsInv(View());
      CurrentListed(View());
      ghost var c := PlaceOf(curr);
      if curr.state == Running {
        SetCurrentState(Ready);
      }
      var next := queue.Next(curr, c);
      ghost var j := NextIndex(View(), c);
      assert Tasks()[j].state == next.state && (j != c <==> next != curr);
      if next != curr && next.state != Ready {
        return Spins;
      }
      var ok := SwitchAndRun(next, j);
      r := if ok then Switched else Panics;
    }
  }
}
