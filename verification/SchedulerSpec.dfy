/** The round-robin scheduler as values (kernel/process.c): what process_create and process_switch do to the table
    and the ready queue, and what holds over whole runs. Processes are named by their slot in the table. */
module SchedulerSpec {
  import opened Processes

  const KERNEL_PID := 0
  const INVALID_PID := -1
  const FIRST_USER_PID := 1

  datatype Current = Nobody | Slot(slot: nat)

  datatype Sched = Sched(pids: seq<int>, states: seq<ProcessState>, ready: seq<nat>, current: Current, nextPid: int)

  datatype Op = Create | Switch

  /** The first free slot for a user process; the number of slots if there is none. */
  ghost function FreeSlot(pids: seq<int>, from: nat := FIRST_USER_PID): (k: nat)
    requires from <= |pids| || |pids| == 0
    ensures from <= k <= |pids| || |pids| == 0
    ensures k < |pids| ==> pids[k] == INVALID_PID
    ensures forall i :: from <= i < k && i < |pids| ==> pids[i] != INVALID_PID
    decreases |pids| - from
  {
    if from >= |pids| then |pids| else if pids[from] == INVALID_PID then from else FreeSlot(pids, from + 1)
  }

  ghost function WithState(states: seq<ProcessState>, k: nat, x: ProcessState): seq<ProcessState> {
    if k < |states| then states[k := x] else states
  }

  ghost function CreateStep(s: Sched): (Sched, int) {
    var k := FreeSlot(s.pids);
    if k >= |s.pids| then (s, INVALID_PID) else (Queued(Filled(s, k), k), s.nextPid)
  }

  ghost function Filled(s: Sched, k: nat): Sched
    requires k < |s.pids|
  {
    s.(pids := s.pids[k := s.nextPid], states := WithState(s.states, k, READY), nextPid := s.nextPid + 1)
  }

  ghost function Queued(s: Sched, k: nat): Sched { s.(ready := s.ready + [k]) }

  /** A process that is not the kernel is running. */
  ghost predicate UserRuns(s: Sched) {
    s.current.Slot? && s.current.slot < |s.pids| && s.pids[s.current.slot] != KERNEL_PID
  }

  /** Switching takes the first ready process and puts the running one, unless it is the kernel, at the end. */
  ghost function SwitchStep(s: Sched): Sched {
    if s.ready == [] then s else Dispatched(Requeued(Taken(s)), s.ready[0])
  }

  ghost function Taken(s: Sched): Sched
    requires s.ready != []
  {
    s.(ready := s.ready[1..])
  }

  ghost function Requeued(s: Sched): Sched {
    if UserRuns(s) then Queued(s.(states := WithState(s.states, s.current.slot, READY)), s.current.slot) else s
  }

  ghost function Dispatched(s: Sched, next: nat): Sched {
    s.(states := WithState(s.states, next, RUNNING), current := Slot(next))
  }

  ghost function Step(s: Sched, op: Op): Sched {
    match op
    case Create => CreateStep(s).0
    case Switch => SwitchStep(s)
  }

  // ----- the invariant -----

  /** The running user process, if any, followed by the ready queue. */
  ghost function Ring(s: Sched): seq<nat> {
    if UserRuns(s) then [s.current.slot] + s.ready else s.ready
  }

  /** Pids are distinct and below nextPid; slot 0 is the kernel's; somebody runs. */
  ghost predicate PidsOk(s: Sched) {
    true == (
      && 0 < |s.pids| == |s.states| && s.nextPid >= FIRST_USER_PID
      && s.pids[0] == KERNEL_PID && s.current.Slot? && s.current.slot < |s.pids|
      && s.pids[s.current.slot] != INVALID_PID
      && (forall i :: 1 <= i < |s.pids| ==> s.pids[i] == INVALID_PID || FIRST_USER_PID <= s.pids[i] < s.nextPid)
      && (forall i, j :: 1 <= i < j < |s.pids| && s.pids[i] != INVALID_PID ==> s.pids[i] != s.pids[j]))
  }

  /** Every created process is exactly once in the ring. */
  ghost predicate RingOk(s: Sched) {
    true == (
      && (forall k {:trigger k in Ring(s)} :: k in Ring(s) <==> 1 <= k < |s.pids| && s.pids[k] != INVALID_PID)
      && (forall i, j :: 0 <= i < j < |Ring(s)| ==> Ring(s)[i] != Ring(s)[j]))
  }

  /** The running user process is RUNNING, the queued ones are READY. */
  ghost predicate StatesOk(s: Sched) {
    true == (
      && (forall i :: 0 <= i < |s.ready| ==> s.ready[i] < |s.states| && s.states[s.ready[i]] == READY)
      && (UserRuns(s) ==> s.current.slot < |s.states| && s.states[s.current.slot] == RUNNING))
  }

  ghost predicate SchedOk(s: Sched) {
    PidsOk(s) && RingOk(s) && StatesOk(s)
  }

  /** The kernel's process alone. */
  lemma BootIsOk(s: Sched)
    requires 0 < |s.pids| == |s.states| && s.pids[0] == KERNEL_PID && s.states[0] == RUNNING
    requires forall i :: 1 <= i < |s.pids| ==> s.pids[i] == INVALID_PID
    requires s.ready == [] && s.current == Slot(0) && s.nextPid == FIRST_USER_PID
    ensures SchedOk(s)
  {
  }

  lemma CreateKeepsSched(s: Sched)
    requires SchedOk(s)
    ensures SchedOk(CreateStep(s).0)
  {
    if FreeSlot(s.pids) < |s.pids| {
      CreateExtendsRing(s);
      CreateKeepsPids(s);
      CreateKeepsStates(s);
    }
  }

  lemma CreateExtendsRing(s: Sched)
    requires SchedOk(s) && FreeSlot(s.pids) < |s.pids|
    ensures FreeSlot(s.pids) !in Ring(s) && Ring(CreateStep(s).0) == Ring(s) + [FreeSlot(s.pids)]
    ensures UserRuns(CreateStep(s).0) == UserRuns(s) && RingOk(CreateStep(s).0)
  {
    var k, s' := FreeSlot(s.pids), CreateStep(s).0;
    assert k !in Ring(s) && UserRuns(s') == UserRuns(s);
    assert Ring(s') == Ring(s) + [k];
  }

  lemma FreeSlotNotReady(s: Sched)
    requires SchedOk(s) && FreeSlot(s.pids) < |s.pids|
    ensures FreeSlot(s.pids) !in s.ready
  {
    CreateExtendsRing(s);
    assert forall i :: 0 <= i < |s.ready| ==> s.ready[i] == Ring(s)[if UserRuns(s) then i + 1 else i];
  }

  lemma RunningNotReady(s: Sched)
    requires SchedOk(s)
    ensures UserRuns(s) ==> s.current.slot !in s.ready
  {
    if UserRuns(s) {
      assert Ring(s)[0] == s.current.slot && forall i :: 0 <= i < |s.ready| ==> s.ready[i] == Ring(s)[i + 1];
    }
  }

  lemma CreateKeepsPids(s: Sched)
    requires SchedOk(s) && FreeSlot(s.pids) < |s.pids|
    ensures PidsOk(CreateStep(s).0)
  {
  }

  lemma CreateKeepsStates(s: Sched)
    requires SchedOk(s) && FreeSlot(s.pids) < |s.pids|
    ensures StatesOk(CreateStep(s).0)
  {
    var k := FreeSlot(s.pids);
    CreateExtendsRing(s);
    assert UserRuns(s) ==> Ring(s)[0] == s.current.slot;
    forall i | 0 <= i < |s.ready| ensures s.ready[i] != k {
      assert s.ready[i] == Ring(s)[if UserRuns(s) then i + 1 else i];
    }
  }

  /** A create fails exactly if the table is full. Otherwise it answers a pid that no process has had, and the process
      under this pid is last in the ready queue; every other process keeps slot, pid and state. */
  lemma CreatedProcess(s: Sched)
    requires SchedOk(s)
    ensures
      var (s', pid) := CreateStep(s);
      if exists k :: 1 <= k < |s.pids| && s.pids[k] == INVALID_PID then
        && pid >= FIRST_USER_PID && pid !in s.pids && pid < s'.nextPid
        && |s'.ready| == |s.ready| + 1 && s'.ready[..|s.ready|] == s.ready
        && var k := s'.ready[|s.ready|];
           && k < |s'.pids| == |s.pids| == |s'.states| && s'.pids[k] == pid && s'.states[k] == READY
           && (forall i :: 0 <= i < |s.pids| && i != k ==> s'.pids[i] == s.pids[i] && s'.states[i] == s.states[i])
           && s.pids[k] == INVALID_PID && s'.current == s.current
      else pid == INVALID_PID && s' == s
  {
    var k := FreeSlot(s.pids);
    if k < |s.pids| {
      assert s.pids[k] == INVALID_PID && k >= 1;
      assert forall i :: 0 <= i < |s.pids| ==> s.pids[i] != s.nextPid;
    }
  }

  /** A switch rotates the ring by one place, or lets the first ready process follow the kernel. */
  lemma SwitchRotates(s: Sched)
    requires SchedOk(s) && s.ready != []
    ensures UserRuns(SwitchStep(s))
    ensures Ring(SwitchStep(s)) == if UserRuns(s) then Ring(s)[1..] + [Ring(s)[0]] else Ring(s)
  {
    var next := s.ready[0];
    assert next == Ring(s)[if UserRuns(s) then 1 else 0] && s.ready == [next] + s.ready[1..];
    assert next in Ring(s);
    if UserRuns(s) {
      assert Ring(s)[1..] == s.ready;
      assert Ring(SwitchStep(s)) == [next] + (s.ready[1..] + [s.current.slot]) == s.ready + [s.current.slot];
    }
  }

  lemma SwitchKeepsSched(s: Sched)
    requires SchedOk(s)
    ensures SchedOk(SwitchStep(s))
  {
    if s.ready != [] {
      SwitchRotates(s);
      SwitchKeepsRing(s);
      SwitchKeepsStates(s);
      assert s.pids[s.ready[0]] != INVALID_PID by {
        assert s.ready[0] == Ring(s)[if UserRuns(s) then 1 else 0] && s.ready[0] in Ring(s);
      }
    }
  }

  lemma SwitchKeepsRing(s: Sched)
    requires SchedOk(s) && s.ready != []
    ensures RingOk(SwitchStep(s))
  {
    SwitchRotates(s);
    if UserRuns(s) {
      RotatedMembers(Ring(s));
      SameMembersKeepRing(s, SwitchStep(s), Ring(s)[1..] + [Ring(s)[0]]);
    } else {
      SameMembersKeepRing(s, SwitchStep(s), Ring(s));
    }
  }

  lemma SameMembersKeepRing(s: Sched, s': Sched, r: seq<nat>)
    requires RingOk(s) && s'.pids == s.pids && Ring(s') == r && forall k :: k in r <==> k in Ring(s)
    requires forall i, j :: 0 <= i < j < |r| ==> r[i] != r[j]
    ensures RingOk(s')
  {
  }

  lemma SwitchKeepsStates(s: Sched)
    requires SchedOk(s) && s.ready != []
    ensures StatesOk(SwitchStep(s))
  {
    var s', r := SwitchStep(s), Ring(s);
    assert forall i :: 0 <= i < |s.ready| ==> s.ready[i] == r[if UserRuns(s) then i + 1 else i];
    assert s'.ready == if UserRuns(s) then s.ready[1..] + [s.current.slot] else s.ready[1..];
    assert UserRuns(s) ==> r[0] == s.current.slot;
  }

  lemma RotatedMembers(r: seq<nat>)
    requires r != [] && forall i, j :: 0 <= i < j < |r| ==> r[i] != r[j]
    ensures var r' := r[1..] + [r[0]];
      (forall k :: k in r' <==> k in r) && forall i, j :: 0 <= i < j < |r'| ==> r'[i] != r'[j]
  {
    assert r == [r[0]] + r[1..];
  }

  lemma StepKeepsSched(s: Sched, op: Op)
    requires SchedOk(s)
    ensures SchedOk(Step(s, op))
  {
    CreateKeepsSched(s);
    SwitchKeepsSched(s);
  }

  // ----- runs -----

  ghost predicate Run(ss: seq<Sched>, ops: seq<Op>) {
    |ss| == |ops| + 1 && forall i {:trigger ops[i]} :: 0 <= i < |ops| ==> ss[i + 1] == Step(ss[i], ops[i])
  }

  lemma {:induction false} RunKeepsSched(ss: seq<Sched>, ops: seq<Op>, n: nat)
    requires Run(ss, ops) && SchedOk(ss[0]) && n <= |ops|
    ensures SchedOk(ss[n])
  {
    if n > 0 {
      RunKeepsSched(ss, ops, n - 1);
      StepKeepsSched(ss[n - 1], ops[n - 1]);
      assert ss[n] == Step(ss[n - 1], ops[n - 1]);
    }
  }

  /** Over every run a create answers a pid above all that were answered before: none is used twice. */
  lemma PidsNeverReused(ss: seq<Sched>, ops: seq<Op>, n: nat)
    requires Run(ss, ops) && SchedOk(ss[0]) && n < |ops| && ops[0] == Create && n > 0
    requires CreateStep(ss[0]).1 != INVALID_PID
    ensures CreateStep(ss[n]).1 != INVALID_PID ==> CreateStep(ss[n]).1 > CreateStep(ss[0]).1
  {
    NextPidGrows(ss, ops, n);
  }

  lemma {:induction false} NextPidGrows(ss: seq<Sched>, ops: seq<Op>, n: nat)
    requires Run(ss, ops) && SchedOk(ss[0]) && 0 < n <= |ops| && ops[0] == Create
    requires CreateStep(ss[0]).1 != INVALID_PID
    ensures ss[n].nextPid > CreateStep(ss[0]).1
  {
    RunKeepsSched(ss, ops, n - 1);
    assert ss[n] == Step(ss[n - 1], ops[n - 1]);
    if n > 1 {
      NextPidGrows(ss, ops, n - 1);
    }
  }

  /** The number of switches among the first n steps. */
  ghost function Switches(ops: seq<Op>, n: nat): nat
    requires n <= |ops|
  {
    if n == 0 then 0 else Switches(ops, n - 1) + if ops[n - 1] == Switch then 1 else 0
  }

  /** The process at index k of the ready queue is current after exactly k + 1 switches, whatever processes are
      created in between: until then it moves up by one place with each switch. */
  lemma {:induction false} CurrentAfterSwitches(ss: seq<Sched>, ops: seq<Op>, n: nat, k: nat)
    requires Run(ss, ops) && n <= |ops| && k < |ss[0].ready|
    ensures
      var c := Switches(ops, n);
      && (c <= k ==> k - c < |ss[n].ready| && ss[n].ready[k - c] == ss[0].ready[k])
      && (c == k + 1 ==> ss[n].current == Slot(ss[0].ready[k]))
  {
    if n > 0 {
      CurrentAfterSwitches(ss, ops, n - 1, k);
      assert ss[n] == Step(ss[n - 1], ops[n - 1]);
      var c := Switches(ops, n - 1);
      if c <= k {
        MovesUp(ss[n - 1], ops[n - 1], k - c);
      } else if c == k + 1 && ops[n - 1] == Create {
        assert ss[n].current == ss[n - 1].current;
      }
    }
  }

  lemma MovesUp(s: Sched, op: Op, i: nat)
    requires i < |s.ready|
    ensures op == Create ==>
      i < |Step(s, op).ready| && Step(s, op).ready[i] == s.ready[i] && Step(s, op).current == s.current
    ensures op == Switch && i > 0 ==> i - 1 < |Step(s, op).ready| && Step(s, op).ready[i - 1] == s.ready[i]
    ensures op == Switch && i == 0 ==> Step(s, op).current == Slot(s.ready[0])
  {
  }

  /** A created process keeps its slot and its pid and stays in the ring. */
  lemma {:induction false} ProcessesStay(ss: seq<Sched>, ops: seq<Op>, n: nat, k: nat)
    requires Run(ss, ops) && SchedOk(ss[0]) && n <= |ops| && 1 <= k < |ss[0].pids| && ss[0].pids[k] != INVALID_PID
    ensures |ss[n].pids| == |ss[0].pids| && ss[n].pids[k] == ss[0].pids[k] && k in Ring(ss[n])
  {
    if n > 0 {
      ProcessesStay(ss, ops, n - 1, k);
      StepKeepsPid(ss[n - 1], ops[n - 1], k);
      assert ss[n] == Step(ss[n - 1], ops[n - 1]);
    }
    RunKeepsSched(ss, ops, n);
    CreatedIsInRing(ss[n], k);
  }

  lemma StepKeepsPid(s: Sched, op: Op, k: nat)
    requires k < |s.pids| && s.pids[k] != INVALID_PID
    ensures |Step(s, op).pids| == |s.pids| && Step(s, op).pids[k] == s.pids[k]
  {
  }

  lemma CreatedIsInRing(s: Sched, k: nat)
    requires SchedOk(s) && 1 <= k < |s.pids| && s.pids[k] != INVALID_PID
    ensures k in Ring(s)
  {
  }

  lemma {:induction false} UsersKeepRunning(ss: seq<Sched>, ops: seq<Op>, n: nat)
    requires Run(ss, ops) && SchedOk(ss[0]) && n <= |ops| && UserRuns(ss[0])
    ensures UserRuns(ss[n])
  {
    if n > 0 {
      UsersKeepRunning(ss, ops, n - 1);
      RunKeepsSched(ss, ops, n - 1);
      StepKeepsUser(ss[n - 1], ops[n - 1]);
      assert ss[n] == Step(ss[n - 1], ops[n - 1]);
    }
  }

  /** Once a user process runs, the kernel's process is out for good: it is neither current nor queued again. */
  lemma KernelDropsOut(ss: seq<Sched>, ops: seq<Op>, n: nat)
    requires Run(ss, ops) && SchedOk(ss[0]) && n <= |ops| && UserRuns(ss[0])
    ensures ss[n].current != Slot(0) && 0 !in ss[n].ready
  {
    UsersKeepRunning(ss, ops, n);
    RunKeepsSched(ss, ops, n);
    KernelNotInRing(ss[n]);
  }

  lemma StepKeepsUser(s: Sched, op: Op)
    requires SchedOk(s) && UserRuns(s)
    ensures UserRuns(Step(s, op))
  {
    if op == Switch && s.ready != [] {
      SwitchRotates(s);
    }
  }

  lemma KernelNotInRing(s: Sched)
    requires SchedOk(s) && UserRuns(s)
    ensures s.current != Slot(0) && 0 !in s.ready
  {
    assert 0 !in Ring(s);
  }

  /** Without new processes the scheduler is a round robin: n switches rotate the ring by n places, so after as many
      switches as there are processes everyone has had a turn and the order is the same again. */
  lemma {:induction false} SwitchesRotate(ss: seq<Sched>, ops: seq<Op>, n: nat)
    requires Run(ss, ops) && SchedOk(ss[0]) && UserRuns(ss[0]) && n <= |Ring(ss[0])| && n <= |ops|
    requires forall i :: 0 <= i < n ==> ops[i] == Switch
    ensures UserRuns(ss[n]) && Ring(ss[n]) == Ring(ss[0])[n..] + Ring(ss[0])[..n]
  {
    if n > 0 {
      SwitchesRotate(ss, ops, n - 1);
      RunKeepsSched(ss, ops, n - 1);
      RotatesOneMore(ss[n - 1], Ring(ss[0]), n - 1);
      assert ss[n] == Step(ss[n - 1], ops[n - 1]);
    }
  }

  lemma RotatesOneMore(s: Sched, r: seq<nat>, n: nat)
    requires SchedOk(s) && UserRuns(s) && n < |r| && Ring(s) == r[n..] + r[..n]
    ensures UserRuns(SwitchStep(s)) && Ring(SwitchStep(s)) == r[n + 1..] + r[..n + 1]
  {
    RotateOnce(r, n);
    if s.ready != [] {
      SwitchRotates(s);
    } else {
      assert |Ring(s)| == 1;
      assert Ring(s)[1..] + [Ring(s)[0]] == Ring(s);
    }
  }

  lemma RotateOnce(r: seq<nat>, n: nat)
    requires n < |r|
    ensures var q := r[n..] + r[..n]; q != [] && q[1..] + [q[0]] == r[n + 1..] + r[..n + 1]
  {
  }
}
