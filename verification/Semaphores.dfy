/** The kernel's semaphores (kernel/ipc.c): a fixed pool, and waiting queues threaded through the processes. */
module Semaphores {
  import opened CharPointers
  import opened Processes
  import opened SemaphoreSpec
  import opened SemaphoreQueues

  class Semaphore {
    var id: int
    var value: int
    var isUsed: bool
    var name: string
    var head: Process?
    var tail: Process?
    ghost var waiters: seq<Process>

    constructor ()
      ensures View() == Sem(INVALID_ID, 0, false, "", []) && head == tail == null
    {
      id, value, isUsed, name := INVALID_ID, 0, false, "";
      head, tail, waiters := null, null, [];
    }

    ghost function View(): Sem<Process>
      reads this
    {
      Sem(id, value, isUsed, name, waiters)
    }

    /** Head, tail and links are those of the queue of waiters. */
    ghost predicate Threaded()
      reads this`waiters, this`head, this`tail, waiters`next
    {
      Links(waiters, head, tail)
    }
  }

  /** Following next from head leads through the processes of w, all different, and ends at tail. */
  ghost predicate Links(w: seq<Process>, head: Process?, tail: Process?)
    reads w`next
  {
    && head == (if w == [] then null else w[0])
    && tail == (if w == [] then null else w[|w| - 1])
    && (forall i {:trigger w[i].next} :: 0 <= i < |w| ==> w[i].next == if i + 1 < |w| then w[i + 1] else null)
    && (forall i, j :: 0 <= i < j < |w| ==> w[i] != w[j])
  }

  /** Appends a process to a waiting queue. A process that is in the queue already is not appended: the waiters
      behind it fall off, and if it is the last one, its link leads back to itself. */
  method AddToWaitingQueue(sem: Semaphore, process: Process)
    requires sem.Threaded()
    modifies sem`head, sem`tail, sem`waiters, process`next, sem.waiters`next
    ensures process !in old(sem.waiters) ==> sem.Threaded() && sem.waiters == old(sem.waiters) + [process]
    ensures forall k :: 0 <= k < |old(sem.waiters)| - 1 && process == old(sem.waiters)[k] ==>
      sem.Threaded() && sem.waiters == old(sem.waiters)[..k + 1]
    ensures sem.head == (if old(sem.head) == null then process else old(sem.head)) && sem.tail == process
    ensures process.next == if old(sem.tail) == process then process else null
    ensures old(sem.tail) != null && old(sem.tail) != process ==> old(sem.tail).next == process
    ensures forall p: Process :: p in old(sem.waiters) && p != process && p != old(sem.tail) ==> p.next == old(p.next)
  {
    ghost var w := sem.waiters;
    process.next := null;
    if sem.head == null {
      sem.head := process;
      sem.tail := process;
    } else {
      sem.tail.next := process;
      sem.tail := process;
    }
    if process !in w {
      sem.waiters := w + [process];
    } else {
      ghost var k :| 0 <= k < |w| && w[k] == process;
      if k < |w| - 1 {
        sem.waiters := w[..k + 1];
      }
    }
  }

  /** Takes the first waiter off the queue. */
  method RemoveFromWaitingQueue(sem: Semaphore) returns (process: Process?)
    requires sem.Threaded()
    modifies sem`head, sem`tail, sem`waiters, sem.waiters`next
    ensures old(sem.waiters) == [] ==> process == null && sem.waiters == []
    ensures old(sem.waiters) != [] ==>
      process == old(sem.waiters)[0] && process.next == null && sem.waiters == old(sem.waiters)[1..]
    ensures sem.Threaded()
  {
    if sem.head == null {
      return null;
    }
    ghost var w := sem.waiters;
    process := sem.head;
    sem.head := process.next;
    if sem.head == null {
      sem.tail := null;
    }
    process.next := null;
    sem.waiters := w[1..];
  }

  class SemaphorePool {
    const pool: seq<Semaphore>
    var nextId: int
    /** Every process that ever waited. */
    ghost var known: set<Process>

    ghost function View(): Pool<Process>
      reads this, pool
    {
      Pool(seq(|pool|, i requires 0 <= i < |pool| reads this, pool => pool[i].View()), nextId)
    }

    ghost predicate Valid()
      reads this, pool, known
    {
      Distinct() && PoolOk(View()) && QueuesOk()
    }

    ghost predicate Distinct() {
      true == (forall i, j :: 0 <= i < j < |pool| ==> pool[i] != pool[j])
    }

    /** The queues are well threaded and hold blocked processes. */
    ghost predicate QueuesOk()
      reads this`known, pool`waiters, pool`head, pool`tail, known`next, known`state
    {
      true == (forall i :: 0 <= i < |pool| ==> QueueOk(pool[i]))
    }

    ghost predicate QueueOk(sem: Semaphore)
      reads this`known, sem`waiters, sem`head, sem`tail, known`next, known`state
    {
      && (forall p :: p in sem.waiters ==> p in known && p.state == BLOCKED)
      && sem.Threaded()
    }

    /** The links that the queues are made of, among these processes. */
    ghost function QueueView(ps: set<Process>): Queues<Process>
      reads pool, ps`next
    {
      Queues(seq(|pool|, i requires 0 <= i < |pool| reads pool => Ref(pool[i].head)),
             seq(|pool|, i requires 0 <= i < |pool| reads pool => Ref(pool[i].tail)),
             map p | p in ps :: Ref(p.next))
    }

    ghost function Waiters(): seq<seq<Process>>
      reads pool
    {
      seq(|pool|, i requires 0 <= i < |pool| reads pool => pool[i].waiters)
    }

    lemma QueuesInOrder()
      requires Valid()
      ensures InOrder(QueueView(known), Waiters())
      ensures forall p :: InSome(Waiters(), p) <==> Queued(View(), p)
    {
      var q, ws, s := QueueView(known), Waiters(), View().sems;
      forall i | 0 <= i < |ws| ensures Thread(q.next, ws[i], q.head[i], q.tail[i]) {
        assert QueueOk(pool[i]);
        forall a | 0 <= a < |ws[i]| ensures Leads(q.next, ws[i][a], After(ws[i], a)) {
        }
      }
      forall i, j | 0 <= i < j < |ws| ensures Unshared(ws[i], ws[j]) {
        assert Apart(s[i], s[j]);
      }
      forall p ensures InSome(ws, p) <==> Queued(View(), p) {
        assert forall i :: 0 <= i < |ws| ==> ws[i] == s[i].waiters;
      }
    }

    method Fill(sem: Semaphore, name: string, initial: int)
      requires QueuesOk() && sem in pool && sem.waiters == []
      modifies this`nextId, sem
      ensures sem.View() == Sem(old(nextId), initial, true, Truncated(name, NAME_LENGTH), [])
      ensures nextId == old(nextId) + 1
      ensures QueuesOk()
    {
      sem.id := nextId;
      nextId := nextId + 1;
      sem.value := initial;
      sem.isUsed := true;
      sem.head, sem.tail := null, null;
      sem.name := Truncated(name, NAME_LENGTH);
      forall i | 0 <= i < |pool| ensures QueueOk(pool[i]) {
        assert old(QueueOk(pool[i]));
      }
    }

    /** No process waits for two semaphores. */
    ghost predicate Disjoint(k: nat)
      requires k < |pool|
      reads pool
    {
      forall i :: 0 <= i < |pool| && i != k ==>
        pool[i] != pool[k] && forall p :: p in pool[k].waiters ==> p !in pool[i].waiters
    }

    lemma QueuesDisjoint(k: nat)
      requires Valid() && k < |pool|
      ensures Disjoint(k)
    {
      forall i | 0 <= i < |pool| && i != k
        ensures pool[i] != pool[k] && forall p :: p in pool[k].waiters ==> p !in pool[i].waiters
      {
        var s := View().sems;
        assert s[i] == pool[i].View() && s[k] == pool[k].View();
        assert if i < k then Apart(s[i], s[k]) else Apart(s[k], s[i]);
      }
    }

    constructor (slots: nat)
      ensures Valid() && fresh(pool) && |pool| == slots && known == {} && nextId == 1
      ensures forall i :: 0 <= i < slots ==> !pool[i].isUsed
    {
      var sems: seq<Semaphore> := [];
      while |sems| < slots
        invariant |sems| <= slots && fresh(sems)
        invariant forall i :: 0 <= i < |sems| ==> sems[i].View() == Sem(INVALID_ID, 0, false, "", [])
        invariant forall i :: 0 <= i < |sems| ==> sems[i].head == sems[i].tail == null
        invariant forall i, j :: 0 <= i < j < |sems| ==> sems[i] != sems[j]
      {
        var sem := new Semaphore();
        sems := sems + [sem];
      }
      pool, nextId, known := sems, 1, {};
    }

    method Find(id: int) returns (sem: Semaphore?)
      requires Valid()
      ensures if Known(View(), id) then sem == pool[Slot(View().sems, id)] else sem == null
    {
      ghost var v := View().sems;
      for i := 0 to |pool|
        invariant Slot(v, id) == Slot(v, id, i)
      {
        assert v[i] == pool[i].View();
        if pool[i].isUsed && pool[i].id == id {
          return pool[i];
        }
      }
      return null;
    }

    /** A new semaphore in the first unused slot; -1 without a name, with a negative value, or with all slots in use. */
    method Create(name: CharPointer, initial: int) returns (id: int)
      requires Valid()
      modifies this`nextId, pool
      ensures Valid() && (View(), id) == CreateStep(old(View()), name, initial)
    {
      if name.Null? || initial < 0 {
        return INVALID_ID;
      }
      ghost var v := View();
      for i := 0 to |pool|
        invariant Valid() && View() == v && nextId == v.nextId
        invariant FreeSlot(v.sems) == FreeSlot(v.sems, i)
      {
        assert v.sems[i] == pool[i].View();
        if !pool[i].isUsed {
          StepKeepsPool(v, Op.Create(name, initial));
          assert SemOk(v.sems[i], v.nextId);
          Fill(pool[i], name.chars, initial);
          OthersSame(i);
          assert View() == CreateStep(v, name, initial).0;
          return pool[i].id;
        }
      }
      return INVALID_ID;
    }

    ghost predicate InNoQueue(p: Process)
      reads pool
    {
      forall i :: 0 <= i < |pool| ==> p !in pool[i].waiters
    }

    /** Blocks a process and appends it to the queue of semaphore k, link by link. */
    method Block(sem: Semaphore, process: Process, ghost k: nat)
      requires k < |pool| && pool[k] == sem && QueuesOk() && Disjoint(k)
      modifies this`known, sem`head, sem`tail, sem`waiters, known`next, process`next, process`state
      ensures known == old(known) + {process} && process.state == BLOCKED
      ensures QueueView(known) == Enqueued(old(QueueView(known)), k, process)
      ensures old(InNoQueue(process)) ==> QueuesOk() && sem.waiters == old(sem.waiters) + [process]
    {
      assert QueueOk(sem);
      process.state := BLOCKED;
      Append(sem, process, k);
      if old(InNoQueue(process)) {
        forall i | 0 <= i < |pool| ensures QueueOk(pool[i]) {
          assert old(QueueOk(pool[i]));
        }
      }
    }

    /** The links after appending a process to the queue of semaphore k, whether it is queued or not. */
    method Append(sem: Semaphore, process: Process, ghost k: nat)
      requires k < |pool| && pool[k] == sem && sem.Threaded()
      requires forall i :: 0 <= i < |pool| && i != k ==> pool[i] != sem
      requires forall p :: p in sem.waiters ==> p in known
      modifies this`known, sem`head, sem`tail, sem`waiters, sem.waiters`next, process`next
      ensures known == old(known) + {process}
      ensures QueueView(known) == Enqueued(old(QueueView(known)), k, process)
      ensures process !in old(sem.waiters) ==> sem.Threaded() && sem.waiters == old(sem.waiters) + [process]
    {
      ghost var q := Enqueued(QueueView(known), k, process);
      AddToWaitingQueue(sem, process);
      known := known + {process};
      ghost var q' := QueueView(known);
      assert q'.head == q.head;
      assert q'.tail == q.tail;
      assert q'.next == q.next;
    }

    /** Wakes the first waiter of semaphore k, if any. */
    method Wake(sem: Semaphore, ghost k: nat) returns (process: Process?)
      requires k < |pool| && pool[k] == sem
      requires QueuesOk() && Disjoint(k)
      modifies sem`head, sem`tail, sem`waiters, sem.waiters`next, sem.waiters`state
      ensures QueuesOk() && Disjoint(k)
      ensures if old(sem.waiters) == [] then process == null && sem.waiters == [] else
        process == old(sem.waiters)[0] && sem.waiters == old(sem.waiters)[1..] && process.state == READY
      ensures forall p :: p in old(sem.waiters) && p != process ==> p.state == old(p.state)
    {
      assert QueueOk(sem);
      ghost var w := sem.waiters;
      assert forall p :: p in w && (w == [] || p != w[0]) <==> w != [] && p in w[1..];
      process := RemoveFromWaitingQueue(sem);
      if process != null {
        process.state := READY;
      }
      forall i | 0 <= i < |pool| ensures QueueOk(pool[i]) {
        assert old(QueueOk(pool[i]));
      }
    }

    /** Only semaphore k has changed. */
    twostate lemma OthersSame(k: nat)
      requires k < |pool|
      requires forall i :: 0 <= i < |pool| && i != k ==> pool[i].View() == old(pool[i].View())
      ensures View() == Pool(old(View()).sems[k := pool[k].View()], nextId)
    {
      forall i | 0 <= i < |pool| ensures View().sems[i] == old(View()).sems[k := pool[k].View()][i] {
      }
      assert View().sems == old(View()).sems[k := pool[k].View()];
    }

    method SetValue(sem: Semaphore, value: int)
      requires QueuesOk()
      modifies sem`value
      ensures sem.value == value && QueuesOk()
    {
      sem.value := value;
    }

    method Retire(sem: Semaphore)
      requires QueuesOk()
      modifies sem`isUsed, sem`id, sem`value
      ensures !sem.isUsed && sem.id == INVALID_ID && sem.value == 0 && QueuesOk()
    {
      sem.isUsed := false;
      sem.id := INVALID_ID;
      sem.value := 0;
    }

    /** Takes the semaphore if its value is positive; otherwise blocks the current process and appends it to the
        queue, link by link; QueuesInOrder and BlockingKeepsQueuesIff say when the queues survive that. */
    method Wait(id: int, current: Process?) returns (r: int)
      requires Valid()
      modifies this`known, pool, known`next, (if current == null then {} else {current})`next
      modifies (if current == null then {} else {current})`state
      ensures r == WaitStep(old(View()), id, Ref(current)).1
      ensures old(MayStep(View(), Op.Wait(id, Ref(current)))) ==>
        Valid() && View() == WaitStep(old(View()), id, Ref(current)).0
      ensures current != null && old(WouldBlock(View(), id)) ==>
        QueueView(known) == Enqueued(old(QueueView(known)), Slot(old(View().sems), id), current)
      ensures !old(MayStep(View(), Op.Wait(id, Ref(current)))) ==> nextId == old(nextId) && OnlyQueuesChanged()
      ensures current != null ==> current.state == if old(WouldBlock(View(), id)) then BLOCKED else old(current.state)
    {
      ghost var v, k := View(), Slot(View().sems, id);
      var sem := Find(id);
      if sem == null {
        return -1;
      }
      assert v.sems[k] == sem.View();
      if sem.value > 0 {
        Take(sem, k, id, Ref(current));
        return 0;
      }
      if current != null {
        Enter(sem, current, k, id);
      }
      return 1;
    }

    /** The part of wait that succeeds at once. */
    method Take(sem: Semaphore, ghost k: nat, ghost id: int, ghost current: Option<Process>)
      requires Valid() && Known(View(), id) && k == Slot(View().sems, id) && sem == pool[k] && sem.value > 0
      modifies sem`value
      ensures Valid() && View() == WaitStep(old(View()), id, current).0
    {
      ghost var v := View();
      assert v.sems[k] == sem.View();
      StepKeepsPool(v, Op.Wait(id, current));
      SetValue(sem, sem.value - 1);
      OthersSame(k);
      assert View() == Put(v, id, sem.View());
      assert View() == WaitStep(v, id, current).0;
    }

    /** The part of wait that blocks. */
    method Enter(sem: Semaphore, current: Process, ghost k: nat, ghost id: int)
      requires Valid() && WouldBlock(View(), id) && k == Slot(View().sems, id) && sem == pool[k]
      modifies this`known, sem`head, sem`tail, sem`waiters, known`next, current`next, current`state
      ensures QueueView(known) == Enqueued(old(QueueView(known)), k, current) && current.state == BLOCKED
      ensures !old(Queued(View(), current)) ==> Valid() && View() == WaitStep(old(View()), id, Some(current)).0
    {
      ghost var v := View();
      QueuesDisjoint(k);
      assert v.sems[k] == sem.View();
      if !Queued(v, current) {
        forall i | 0 <= i < |pool| ensures current !in pool[i].waiters {
          assert v.sems[i] == pool[i].View();
        }
      }
      Block(sem, current, k);
      if !Queued(v, current) {
        StepKeepsPool(v, Op.Wait(id, Some(current)));
        OthersSame(k);
        assert View() == Put(v, id, sem.View());
        assert View() == WaitStep(v, id, Some(current)).0;
      }
    }

    twostate predicate OnlyQueuesChanged()
      reads this, pool
    {
      forall i :: 0 <= i < |pool| ==>
        pool[i].id == old(pool[i].id) && pool[i].value == old(pool[i].value) &&
        pool[i].isUsed == old(pool[i].isUsed) && pool[i].name == old(pool[i].name)
    }

    /** Wakes the first waiter; if nobody waits the value goes up. */
    method Signal(id: int) returns (r: int)
      requires Valid()
      modifies pool, known`next, known`state
      ensures Valid() && (View(), r) == SignalStep(old(View()), id)
      ensures forall p :: p in known ==>
        p.state == if [p] == WokenBy(old(View()), Op.Signal(id), id) then READY else old(p.state)
    {
      ghost var v, k := View(), Slot(View().sems, id);
      StepKeepsPool(v, Op.Signal(id));
      var sem := Find(id);
      if sem == null {
        return -1;
      }
      assert v.sems[k] == sem.View();
      QueuesDisjoint(k);
      WakeOrCount(sem, k);
      OthersSame(k);
      assert View() == Put(v, id, sem.View());
      assert View() == SignalStep(v, id).0;
      return 0;
    }

    method WakeOrCount(sem: Semaphore, ghost k: nat)
      requires k < |pool| && pool[k] == sem && QueuesOk() && Disjoint(k)
      modifies sem`head, sem`tail, sem`waiters, sem`value, sem.waiters`next, sem.waiters`state
      ensures QueuesOk() && sem.View() == Signalled(old(sem.View()))
      ensures forall p :: p in old(sem.waiters) ==> p.state == if p == old(sem.waiters)[0] then READY else old(p.state)
      ensures forall p :: p in old(sem.waiters) ==> p in known
    {
      assert QueueOk(sem);
      var process := Wake(sem, k);
      if process == null {
        SetValue(sem, sem.value + 1);
      }
    }

    /** Wakes every waiter and frees the slot. */
    method Destroy(id: int) returns (r: int)
      requires Valid()
      modifies pool, known`next, known`state
      ensures Valid() && (View(), r) == DestroyStep(old(View()), id)
      ensures forall p :: p in known ==>
        p.state == if old(Known(View(), id) && p in Get(View(), id).waiters) then READY else old(p.state)
    {
      ghost var v, k := View(), Slot(View().sems, id);
      StepKeepsPool(v, Op.Destroy(id));
      var sem := Find(id);
      if sem == null {
        return -1;
      }
      assert v.sems[k] == sem.View();
      QueuesDisjoint(k);
      Clear(sem, k);
      OthersSame(k);
      assert View() == Put(v, id, sem.View());
      assert View() == DestroyStep(v, id).0;
      return 0;
    }

    method Clear(sem: Semaphore, ghost k: nat)
      requires k < |pool| && pool[k] == sem && QueuesOk() && Disjoint(k)
      modifies sem, sem.waiters`next, sem.waiters`state
      ensures QueuesOk() && sem.View() == Sem(INVALID_ID, 0, false, old(sem.name), [])
      ensures forall p :: p in old(sem.waiters) ==> p.state == READY && p in known
    {
      assert QueueOk(sem);
      WakeAll(sem, k);
      Retire(sem);
    }

    method WakeAll(sem: Semaphore, ghost k: nat)
      requires k < |pool| && pool[k] == sem
      requires QueuesOk() && Disjoint(k)
      modifies sem`head, sem`tail, sem`waiters, sem.waiters`next, sem.waiters`state
      ensures QueuesOk() && sem.waiters == []
      ensures forall p :: p in old(sem.waiters) ==> p.state == READY
    {
      ghost var w := sem.waiters;
      ghost var n := 0;
      assert QueueOk(sem);
      while sem.head != null
        invariant n <= |w| && sem.waiters == w[n..]
        invariant QueuesOk() && Disjoint(k)
        invariant forall i :: 0 <= i < n ==> w[i].state == READY
        decreases |w| - n
      {
        assert QueueOk(sem);
        var process := Wake(sem, k);
        n := n + 1;
      }
      assert QueueOk(sem);
    }
  }

  function Ref(p: Process?): Option<Process> {
    if p == null then None else var q: Process := p; Some(q)
  }
}
