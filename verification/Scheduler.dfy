/** Processes and the ready queue (kernel/process.c): a fixed table, and a queue threaded through its entries. */
module Scheduler {
  import opened Processes
  import opened SchedulerSpec

  const NAME_LENGTH := 31

  class ProcessTable {
    const table: seq<Process>
    var initialized: bool
    var current: Process?
    var readyHead: Process?
    var readyTail: Process?
    var nextPid: int
    ghost var ready: seq<nat>
    ghost var running: Current

    ghost function Pids(n: nat := |table|): (r: seq<int>)
      requires n <= |table|
      reads table`pid
      ensures |r| == n && forall i :: 0 <= i < n ==> r[i] == table[i].pid
    {
      if n == 0 then [] else Pids(n - 1) + [table[n - 1].pid]
    }

    ghost function States(n: nat := |table|): (r: seq<ProcessState>)
      requires n <= |table|
      reads table`state
      ensures |r| == n && forall i :: 0 <= i < n ==> r[i] == table[i].state
    {
      if n == 0 then [] else States(n - 1) + [table[n - 1].state]
    }

    ghost function View(): Sched
      reads this`ready, this`running, this`nextPid, table`pid, table`state
    {
      Sched(Pids(), States(), ready, running, nextPid)
    }

    /** Following next from readyHead leads through the ready processes and ends at readyTail. */
    ghost predicate Threaded()
      reads this`ready, this`readyHead, this`readyTail, table`next
    {
      && (forall i :: 0 <= i < |ready| ==> ready[i] < |table|)
      && readyHead == (if ready == [] then null else table[ready[0]])
      && readyTail == (if ready == [] then null else table[ready[|ready| - 1]])
      && (forall i {:trigger ready[i]} :: 0 <= i < |ready| - 1 ==> table[ready[i]].next == table[ready[i + 1]])
      && (ready != [] ==> table[ready[|ready| - 1]].next == null)
    }

    ghost predicate CurrentOk()
      reads this`running, this`current
    {
      match running
      case Nobody => current == null
      case Slot(k) => k < |table| && current == table[k]
    }

    ghost predicate Distinct() {
      0 < |table| && forall i, j :: 0 <= i < j < |table| ==> table[i] != table[j]
    }

    /** Before initialisation the table is clear, nothing runs and nothing is queued. */
    ghost predicate Valid()
      reads this, table`pid, table`state, table`next
    {
      true == (Distinct() && Threaded() && CurrentOk() && StateOk())
    }

    ghost predicate StateOk()
      reads this`initialized, this`ready, this`running, this`nextPid, table`pid, table`state
    {
      if initialized then SchedOk(View())
      else
        && running == Nobody && ready == [] && nextPid == FIRST_USER_PID
        && forall i :: 0 <= i < |table| ==> table[i].pid == 0
    }

    constructor (slots: nat)
      requires slots > 0
      ensures Valid() && !initialized && |table| == slots && fresh(table)
    {
      var ps: seq<Process> := [];
      while |ps| < slots
        invariant |ps| <= slots && fresh(ps)
        invariant forall i :: 0 <= i < |ps| ==> ps[i].pid == 0
        invariant forall i, j :: 0 <= i < j < |ps| ==> ps[i] != ps[j]
      {
        var p := new Process();
        ps := ps + [p];
      }
      table, initialized, current, readyHead, readyTail := ps, false, null, null, null;
      nextPid, ready, running := FIRST_USER_PID, [], Nobody;
    }

    /** Clears the table and lets the kernel's process run in slot 0; a second call does nothing. */
    method Init()
      requires Valid()
      modifies this`initialized, this`current, this`readyHead, this`readyTail, this`ready, this`running, table
      ensures Valid() && initialized
      ensures old(initialized) ==> View() == old(View())
      ensures !old(initialized) ==>
        && ready == [] && running == Slot(0) && nextPid == FIRST_USER_PID
        && table[0].pid == KERNEL_PID && table[0].state == RUNNING
        && forall i :: 1 <= i < |table| ==> table[i].pid == INVALID_PID
    {
      if initialized {
        return;
      }
      ClearTable();
      StartKernel();
      initialized := true;
      BootIsOk(View());
    }

    method StartKernel()
      requires Distinct() && forall i :: 0 <= i < |table| ==> table[i].pid == INVALID_PID
      modifies this`current, this`readyHead, this`readyTail, this`ready, this`running, table[0]
      ensures Threaded() && CurrentOk() && ready == [] && running == Slot(0)
      ensures table[0].pid == KERNEL_PID && table[0].state == RUNNING
      ensures forall i :: 1 <= i < |table| ==> table[i].pid == INVALID_PID
    {
      readyHead, readyTail := null, null;
      current := table[0];
      current.pid, current.parentPid, current.state, current.name := KERNEL_PID, INVALID_PID, RUNNING, "kernel";
      current.next := null;
      ready, running := [], Slot(0);
      assert forall i :: 0 < i < |table| ==> table[i] != table[0];
    }

    method ClearTable()
      requires Distinct()
      modifies table
      ensures forall i :: 0 <= i < |table| ==> table[i].pid == INVALID_PID
    {
      for i := 0 to |table|
        invariant forall j :: 0 <= j < i ==> table[j].pid == INVALID_PID
      {
        var p := table[i];
        p.pid, p.parentPid, p.state, p.name, p.next := INVALID_PID, INVALID_PID, TERMINATED, "", null;
      }
    }

    // ----- the ready queue -----

    method Enqueue(process: Process, ghost k: nat)
      requires Distinct() && Threaded() && k < |table| && table[k] == process && k !in ready
      modifies this`readyHead, this`readyTail, this`ready, table`next
      ensures Threaded() && View() == Queued(old(View()), k)
    {
      ghost var r := ready;
      assert forall i :: 0 <= i < |r| - 1 ==> table[r[i]].next != null && table[r[i]] != table[r[|r| - 1]];
      assert forall i :: 0 <= i < |r| ==> r[i] != k && table[r[i]] != process;
      process.next := null;
      if readyTail != null {
        readyTail.next := process;
      } else {
        readyHead := process;
      }
      readyTail := process;
      ready := r + [k];
    }

    method Dequeue() returns (process: Process)
      requires Threaded() && ready != []
      modifies this`readyHead, this`readyTail, this`ready
      ensures Threaded() && View() == Taken(old(View())) && process == table[old(ready)[0]]
    {
      process := readyHead;
      readyHead := readyHead.next;
      if readyHead == null {
        readyTail := null;
      }
      ghost var r := ready;
      ready := ready[1..];
      assert forall i :: 0 <= i < |ready| ==> ready[i] == r[i + 1];
    }

    // ----- the calls -----

    /** A new process in the first free slot, READY and at the end of the ready queue; -1 if the table is full or not
        initialised. The name must fit its field. */
    method Create(entryPoint: int, name: string) returns (pid: int)
      requires Valid() && |name| <= NAME_LENGTH
      modifies this`nextPid, this`readyHead, this`readyTail, this`ready, table
      ensures Valid() && (View(), pid) == CreateStep(old(View()))
      ensures pid != INVALID_PID ==> Described(table[old(FreeSlot(Pids()))], entryPoint, name)
    {
      var slot := FindFreeSlot();
      if slot == INVALID_PID {
        return INVALID_PID;
      }
      pid := CreateIn(slot);
      Describe(table[slot], entryPoint, name);
    }

    ghost predicate Described(process: Process, entryPoint: int, name: string)
      reads this`current, current, process
    {
      && process.name == name && process.entryPoint == entryPoint
      && process.parentPid == if current == null then INVALID_PID else current.pid
    }

    method Describe(process: Process, entryPoint: int, name: string)
      requires Valid()
      modifies process`parentPid, process`name, process`entryPoint
      ensures true == Valid() && View() == old(View()) && Described(process, entryPoint, name)
    {
      process.parentPid := if current == null then INVALID_PID else current.pid;
      process.name := name;
      process.entryPoint := entryPoint;
    }

    method CreateIn(slot: nat) returns (pid: int)
      requires Valid() && initialized && slot == FreeSlot(Pids()) < |table|
      modifies this`nextPid, this`readyHead, this`readyTail, this`ready, table`pid, table`state, table`next
      ensures Valid() && (View(), pid) == CreateStep(old(View()))
    {
      ghost var s := View();
      FreeSlotNotReady(s);
      CreateKeepsSched(s);
      pid := FillAndQueue(slot);
      assert StateOk();
    }

    method FillAndQueue(slot: nat) returns (pid: int)
      requires Distinct() && Threaded() && CurrentOk()
      requires slot == FreeSlot(Pids()) < |table| && slot !in ready
      modifies this`nextPid, this`readyHead, this`readyTail, this`ready, table`pid, table`state, table`next
      ensures Threaded() && CurrentOk() && (View(), pid) == CreateStep(old(View()))
    {
      ghost var s := View();
      Fill(table[slot], slot);
      Enqueue(table[slot], slot);
      assert View() == CreateStep(s).0;
      return table[slot].pid;
    }

    method FindFreeSlot() returns (slot: int)
      requires Valid()
      ensures var k := FreeSlot(Pids()); slot == if k < |table| then k else INVALID_PID
      ensures slot != INVALID_PID ==> initialized
    {
      for i := FIRST_USER_PID to |table|
        invariant FreeSlot(Pids()) == FreeSlot(Pids(), i)
      {
        if table[i].pid == INVALID_PID {
          return i;
        }
      }
      return INVALID_PID;
    }

    method Fill(process: Process, k: nat)
      requires Distinct() && Threaded() && k < |table| && table[k] == process
      modifies this`nextPid, process`pid, process`state
      ensures Threaded() && View() == Filled(old(View()), k) && process.pid == old(nextPid)
    {
      process.pid := nextPid;
      nextPid := nextPid + 1;
      process.state := CREATED;
      process.state := READY;
      assert Pids() == old(Pids())[k := old(nextPid)];
      assert States() == WithState(old(States()), k, READY);
    }

    method SetState(process: Process, state: ProcessState, ghost k: nat)
      requires Distinct() && k < |table| && table[k] == process
      modifies process`state
      ensures View() == old(View()).(states := WithState(old(States()), k, state))
    {
      process.state := state;
    }

    /** Gives the processor to the first ready process; the running one goes to the end of the queue, unless it is the
        kernel. */
    method Switch()
      requires Valid()
      modifies this`current, this`running, this`readyHead, this`readyTail, this`ready, table`state, table`next
      ensures Valid() && View() == SwitchStep(old(View()))
    {
      if readyHead == null {
        return;
      }
      ghost var s := View();
      SwitchKeepsSched(s);
      RunningNotReady(s);
      SwitchToFirst();
      assert View() == SwitchStep(s) && initialized;
    }

    method SwitchToFirst()
      requires Distinct() && Threaded() && CurrentOk() && ready != []
      requires UserRuns(View()) ==> running.slot !in ready
      modifies this`current, this`running, this`readyHead, this`readyTail, this`ready, table`state, table`next
      ensures Threaded() && CurrentOk() && View() == SwitchStep(old(View()))
    {
      ghost var s, next := View(), ready[0];
      var nextProcess := Dequeue();
      ghost var s1 := View();
      Requeue();
      ghost var s2 := View();
      Dispatch(nextProcess, next);
      assert View() == Dispatched(s2, next) == SwitchStep(s);
    }

    method Requeue()
      requires Distinct() && Threaded() && CurrentOk()
      requires UserRuns(View()) ==> running.slot !in ready
      modifies this`readyHead, this`readyTail, this`ready, table`state, table`next
      ensures Threaded() && View() == Requeued(old(View()))
    {
      if current != null && current.pid != KERNEL_PID {
        ghost var c := running.slot;
        SetState(current, READY, c);
        Enqueue(current, c);
      }
    }

    method Dispatch(process: Process, ghost k: nat)
      requires Distinct() && Threaded() && k < |table| && table[k] == process
      modifies this`current, this`running, process`state
      ensures CurrentOk() && Threaded() && View() == Dispatched(old(View()), k)
    {
      current := process;
      running := Slot(k);
      SetState(process, RUNNING, k);
    }

    method Yield()
      requires Valid()
      modifies this`current, this`running, this`readyHead, this`readyTail, this`ready, table`state, table`next
      ensures Valid() && View() == SwitchStep(old(View()))
    {
      Switch();
    }
  }
}
