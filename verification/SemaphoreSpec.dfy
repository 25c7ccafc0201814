/** Semaphores as values (kernel/ipc.c): what each call does to the pool, and what holds over whole runs. The
    processes are of any type. */
module SemaphoreSpec {
  import opened CharPointers

  const INVALID_ID := -1
  const NAME_LENGTH := 31

  datatype Option<T> = None | Some(value: T)

  datatype Sem<P> = Sem(id: int, value: int, used: bool, name: string, waiters: seq<P>)

  datatype Pool<P> = Pool(sems: seq<Sem<P>>, nextId: int)

  /** current is None for a null pointer. */
  datatype Op<P> =
    | Create(name: CharPointer, initial: int)
    | Wait(id: int, current: Option<P>)
    | Signal(id: int)
    | Destroy(id: int)

  // ----- the calls -----

  /** The first slot in use under the given id; the number of slots if there is none. */
  ghost function Slot<P>(sems: seq<Sem<P>>, id: int, from: nat := 0): (k: nat)
    requires from <= |sems|
    ensures from <= k <= |sems|
    ensures k < |sems| ==> sems[k].used && sems[k].id == id
    ensures forall i :: from <= i < k ==> !(sems[i].used && sems[i].id == id)
    decreases |sems| - from
  {
    if from == |sems| || (sems[from].used && sems[from].id == id) then from else Slot(sems, id, from + 1)
  }

  /** The first unused slot; the number of slots if there is none. */
  ghost function FreeSlot<P>(sems: seq<Sem<P>>, from: nat := 0): (k: nat)
    requires from <= |sems|
    ensures from <= k <= |sems|
    ensures k < |sems| ==> !sems[k].used
    ensures forall i :: from <= i < k ==> sems[i].used
    decreases |sems| - from
  {
    if from == |sems| || !sems[from].used then from else FreeSlot(sems, from + 1)
  }

  ghost predicate Known<P>(s: Pool<P>, id: int) { Slot(s.sems, id) < |s.sems| }

  ghost function Get<P>(s: Pool<P>, id: int): Sem<P>
    requires Known(s, id)
  {
    s.sems[Slot(s.sems, id)]
  }

  ghost function Put<P>(s: Pool<P>, id: int, sem: Sem<P>): Pool<P>
    requires Known(s, id)
  {
    s.(sems := s.sems[Slot(s.sems, id) := sem])
  }

  ghost function CreateStep<P>(s: Pool<P>, name: CharPointer, initial: int): (Pool<P>, int) {
    var k := FreeSlot(s.sems);
    if name.Null? || initial < 0 || k == |s.sems| then (s, INVALID_ID)
    else
      var sem := Sem(s.nextId, initial, true, Truncated(name.chars, NAME_LENGTH), []);
      (Pool(s.sems[k := sem], s.nextId + 1), s.nextId)
  }

  /** A wait on this semaphore would not succeed at once. */
  ghost predicate WouldBlock<P>(s: Pool<P>, id: int) { Known(s, id) && Get(s, id).value <= 0 }

  /** A process that has to wait is appended. That is what the links do exactly if it is in no queue yet; what
      they do otherwise is in SemaphoreQueues. */
  ghost function WaitStep<P>(s: Pool<P>, id: int, current: Option<P>): (Pool<P>, int) {
    if !Known(s, id) then (s, -1)
    else
      var sem := Get(s, id);
      if sem.value > 0 then (Put(s, id, sem.(value := sem.value - 1)), 0)
      else if current.Some? then (Put(s, id, sem.(waiters := sem.waiters + [current.value])), 1)
      else (s, 1)
  }

  ghost function SignalStep<P>(s: Pool<P>, id: int): (Pool<P>, int) {
    if !Known(s, id) then (s, -1) else (Put(s, id, Signalled(Get(s, id))), 0)
  }

  ghost function Signalled<P>(sem: Sem<P>): Sem<P> {
    if sem.waiters != [] then sem.(waiters := sem.waiters[1..]) else sem.(value := sem.value + 1)
  }

  ghost function DestroyStep<P>(s: Pool<P>, id: int): (Pool<P>, int) {
    if !Known(s, id) then (s, -1)
    else (Put(s, id, Sem(INVALID_ID, 0, false, Get(s, id).name, [])), 0)
  }

  ghost function Step<P>(s: Pool<P>, op: Op<P>): (Pool<P>, int) {
    match op
    case Create(name, initial) => CreateStep(s, name, initial)
    case Wait(id, current) => WaitStep(s, id, current)
    case Signal(id) => SignalStep(s, id)
    case Destroy(id) => DestroyStep(s, id)
  }

  // ----- the invariant -----

  ghost predicate Queued<P>(s: Pool<P>, p: P) {
    exists i :: 0 <= i < |s.sems| && p in s.sems[i].waiters
  }

  ghost predicate SemOk<P>(sem: Sem<P>, nextId: int) {
    && sem.value >= 0 && (sem.value > 0 ==> sem.waiters == [])
    && (if sem.used then 1 <= sem.id < nextId else sem.id == INVALID_ID && sem.waiters == [])
    && forall a, b :: 0 <= a < b < |sem.waiters| ==> sem.waiters[a] != sem.waiters[b]
  }

  /** Values are not negative; a positive value means that nobody waits; ids in use are distinct; a process
      waits at most once, and for one semaphore only. */
  ghost predicate PoolOk<P>(s: Pool<P>) {
    true == (
      && s.nextId >= 1
      && (forall i :: 0 <= i < |s.sems| ==> SemOk(s.sems[i], s.nextId))
      && (forall i, j :: 0 <= i < j < |s.sems| ==> Apart(s.sems[i], s.sems[j])))
  }

  ghost predicate Apart<P>(a: Sem<P>, b: Sem<P>) {
    && (a.used && b.used ==> a.id != b.id)
    && forall p :: p in a.waiters ==> p !in b.waiters
  }

  /** A process that is about to block is in no queue. */
  ghost predicate MayStep<P>(s: Pool<P>, op: Op<P>) {
    op.Wait? && op.current.Some? && WouldBlock(s, op.id) ==> !Queued(s, op.current.value)
  }

  /** Replacing one semaphore by one that is in order and apart from the others. */
  lemma ReplaceKeepsPool<P>(s: Pool<P>, k: nat, sem: Sem<P>, nextId: int)
    requires PoolOk(s) && k < |s.sems| && nextId >= s.nextId && SemOk(sem, nextId)
    requires forall i :: 0 <= i < |s.sems| && i != k ==> Apart(s.sems[i], sem)
    ensures PoolOk(Pool(s.sems[k := sem], nextId))
  {
    var s' := Pool(s.sems[k := sem], nextId);
    forall i | 0 <= i < |s.sems| ensures SemOk(s'.sems[i], nextId) {
      assert SemOk(s.sems[i], s.nextId);
    }
    forall i, j | 0 <= i < j < |s.sems| ensures Apart(s'.sems[i], s'.sems[j]) {
      assert Apart(s.sems[i], s.sems[j]);
    }
  }

  /** The semaphore found under id, with the same id and no new waiters, may be replaced. */
  lemma PutKeepsPool<P>(s: Pool<P>, id: int, sem: Sem<P>)
    requires PoolOk(s) && Known(s, id) && SemOk(sem, s.nextId)
    requires sem.used ==> sem.id == id
    requires forall p :: p in sem.waiters ==> p in Get(s, id).waiters || !Queued(s, p)
    ensures PoolOk(Put(s, id, sem))
  {
    var k := Slot(s.sems, id);
    forall i | 0 <= i < |s.sems| && i != k ensures Apart(s.sems[i], sem) {
      assert if i < k then Apart(s.sems[i], s.sems[k]) else Apart(s.sems[k], s.sems[i]);
    }
    ReplaceKeepsPool(s, k, sem, s.nextId);
  }

  lemma StepKeepsPool<P>(s: Pool<P>, op: Op<P>)
    requires PoolOk(s) && MayStep(s, op)
    ensures PoolOk(Step(s, op).0)
  {
    match op {
      case Create(name, initial) =>
        var k := FreeSlot(s.sems);
        if k < |s.sems| && name.Text? && initial >= 0 {
          forall i | 0 <= i < |s.sems| ensures s.sems[i].used ==> s.sems[i].id < s.nextId {
            assert SemOk(s.sems[i], s.nextId);
          }
          ReplaceKeepsPool(s, k, Sem(s.nextId, initial, true, Truncated(name.chars, NAME_LENGTH), []), s.nextId + 1);
        }
      case Wait(id, current) =>
        if Known(s, id) && (Get(s, id).value > 0 || current.Some?) {
          var sem := Get(s, id);
          assert SemOk(sem, s.nextId);
          assert sem.value <= 0 ==> current.value !in sem.waiters;
          PutKeepsPool(s, id,
            if sem.value > 0 then sem.(value := sem.value - 1) else sem.(waiters := sem.waiters + [current.value]));
        }
      case Signal(id) =>
        if Known(s, id) {
          var sem := Get(s, id);
          assert SemOk(sem, s.nextId);
          PutKeepsPool(s, id, Signalled(sem));
        }
      case Destroy(id) =>
        if Known(s, id) {
          PutKeepsPool(s, id, Sem(INVALID_ID, 0, false, Get(s, id).name, []));
        }
    }
  }

  // ----- runs -----

  ghost predicate Run<P>(ss: seq<Pool<P>>, ops: seq<Op<P>>) {
    && |ss| == |ops| + 1 && PoolOk(ss[0])
    && forall i :: 0 <= i < |ops| ==> MayStep(ss[i], ops[i]) && ss[i + 1] == Step(ss[i], ops[i]).0
  }

  lemma {:induction false} RunKeepsPool<P>(ss: seq<Pool<P>>, ops: seq<Op<P>>, n: nat)
    requires Run(ss, ops) && n <= |ops|
    ensures PoolOk(ss[n])
  {
    if n > 0 {
      RunKeepsPool(ss, ops, n - 1);
      StepKeepsPool(ss[n - 1], ops[n - 1]);
    }
  }

  ghost predicate IsAcquire<P>(s: Pool<P>, op: Op<P>, id: int) {
    op.Wait? && op.id == id && Known(s, id) && Get(s, id).value > 0
  }

  /** The number of signals among the first n calls. */
  ghost function Signals<P>(ops: seq<Op<P>>, id: int, n: nat): nat
    requires n <= |ops|
  {
    if n == 0 then 0 else Signals(ops, id, n - 1) + if ops[n - 1] == Signal(id) then 1 else 0
  }

  /** The number of waits among the first n calls that got the semaphore at once. */
  ghost function Acquires<P>(ss: seq<Pool<P>>, ops: seq<Op<P>>, id: int, n: nat): nat
    requires n <= |ops| < |ss|
  {
    if n == 0 then 0 else Acquires(ss, ops, id, n - 1) + if IsAcquire(ss[n - 1], ops[n - 1], id) then 1 else 0
  }

  /** The processes that blocked in the first n calls, in order. */
  ghost function Blocked<P>(ss: seq<Pool<P>>, ops: seq<Op<P>>, id: int, n: nat): seq<P>
    requires n <= |ops| < |ss|
  {
    if n == 0 then [] else Blocked(ss, ops, id, n - 1) + BlockedBy(ss[n - 1], ops[n - 1], id)
  }

  ghost function BlockedBy<P>(s: Pool<P>, op: Op<P>, id: int): seq<P> {
    if op.Wait? && op.id == id && op.current.Some? && WouldBlock(s, id) then [op.current.value] else []
  }

  /** The processes that signals woke in the first n calls, in order. */
  ghost function Woken<P>(ss: seq<Pool<P>>, ops: seq<Op<P>>, id: int, n: nat): seq<P>
    requires n <= |ops| < |ss|
  {
    if n == 0 then [] else Woken(ss, ops, id, n - 1) + WokenBy(ss[n - 1], ops[n - 1], id)
  }

  ghost function WokenBy<P>(s: Pool<P>, op: Op<P>, id: int): seq<P> {
    if op == Signal(id) && Known(s, id) && Get(s, id).waiters != [] then [Get(s, id).waiters[0]] else []
  }

  /** One call: a semaphore that is not destroyed stays in its slot, its value and its queue change as counted. */
  lemma StepCounts<P>(s: Pool<P>, op: Op<P>, id: int)
    requires PoolOk(s) && MayStep(s, op) && Known(s, id) && op != Destroy(id)
    ensures Known(Step(s, op).0, id)
    ensures
      Get(Step(s, op).0, id).value + (if IsAcquire(s, op, id) then 1 else 0) + |WokenBy(s, op, id)|
      == Get(s, id).value + (if op == Signal(id) then 1 else 0)
    ensures Get(s, id).waiters + BlockedBy(s, op, id) == WokenBy(s, op, id) + Get(Step(s, op).0, id).waiters
  {
    StepKeepsPool(s, op);
    var s', k := Step(s, op).0, Slot(s.sems, id);
    assert SemOk(s.sems[k], s.nextId);
    assert s'.sems[k].used && s'.sems[k].id == id;
    SlotIs(s', id, k);
  }

  lemma SlotIs<P>(s: Pool<P>, id: int, k: nat)
    requires PoolOk(s) && k < |s.sems| && s.sems[k].used && s.sems[k].id == id
    ensures Slot(s.sems, id) == k
  {
    var j := Slot(s.sems, id);
    assert j < k ==> Apart(s.sems[j], s.sems[k]);
  }

  // ----- lives of semaphores -----

  /** A create succeeds exactly with a name, a value that is not negative and an unused slot. */
  ghost predicate CanCreate<P>(s: Pool<P>, name: CharPointer, initial: int) {
    name.Text? && initial >= 0 && exists k :: 0 <= k < |s.sems| && !s.sems[k].used
  }

  /** The new semaphore is known under the answered id, which no other one has; it has the given value and nobody
      waits for it. All others are as before. */
  lemma CreatedIsKnown<P>(s: Pool<P>, name: CharPointer, initial: int)
    requires PoolOk(s)
    ensures
      var (s', id) := CreateStep(s, name, initial);
      if CanCreate(s, name, initial) then
        && id >= 1 && !Known(s, id) && Known(s', id)
        && Get(s', id).value == initial && Get(s', id).waiters == []
        && forall other :: other != id ==>
          (Known(s', other) <==> Known(s, other)) && (Known(s, other) ==> Get(s', other) == Get(s, other))
      else id == INVALID_ID && s' == s
  {
    var (s', id) := CreateStep(s, name, initial);
    StepKeepsPool(s, Create(name, initial));
    if CanCreate(s, name, initial) {
      var k := FreeSlot(s.sems);
      assert k < |s.sems| && s'.sems[k].used;
      SlotIs(s', id, k);
      NextIdUnknown(s);
      OthersKept(s, s', k, id);
    }
  }

  lemma NextIdUnknown<P>(s: Pool<P>)
    requires PoolOk(s)
    ensures !Known(s, s.nextId)
  {
    forall i | 0 <= i < |s.sems| ensures !(s.sems[i].used && s.sems[i].id == s.nextId) {
      assert SemOk(s.sems[i], s.nextId);
    }
  }

  /** Only slot k has changed; before and after, if it is in use, it is under this id. */
  lemma OthersKept<P>(s: Pool<P>, s': Pool<P>, k: nat, id: int)
    requires PoolOk(s) && PoolOk(s') && k < |s.sems| == |s'.sems| && s'.sems == s.sems[k := s'.sems[k]]
    requires (s.sems[k].used ==> s.sems[k].id == id) && (s'.sems[k].used ==> s'.sems[k].id == id)
    ensures forall other :: other != id ==>
      (Known(s', other) <==> Known(s, other)) && (Known(s, other) ==> Get(s', other) == Get(s, other))
  {
    forall other | other != id
      ensures (Known(s', other) <==> Known(s, other)) && (Known(s, other) ==> Get(s', other) == Get(s, other))
    {
      if Known(s, other) {
        SlotIs(s', other, Slot(s.sems, other));
      } else if Known(s', other) {
        SlotIs(s, other, Slot(s'.sems, other));
      }
    }
  }

  /** A destroyed semaphore is not known any more, nobody waits for it and its slot can be used again: a create with
      a name and a value that is not negative succeeds. All others are as before. */
  lemma DestroyedIsGone<P>(s: Pool<P>, id: int, name: CharPointer, initial: int)
    requires PoolOk(s) && Known(s, id)
    ensures
      var s' := DestroyStep(s, id).0;
      && !Known(s', id) && (forall p :: p in Get(s, id).waiters ==> !Queued(s', p))
      && (name.Text? && initial >= 0 ==> CreateStep(s', name, initial).1 >= 1)
      && forall other :: other != id ==>
        (Known(s', other) <==> Known(s, other)) && (Known(s, other) ==> Get(s', other) == Get(s, other))
  {
    var k, s' := Slot(s.sems, id), DestroyStep(s, id).0;
    StepKeepsPool(s, Destroy(id));
    OthersKept(s, s', k, id);
    assert !s'.sems[k].used;
    if Known(s', id) {
      SlotIs(s, id, Slot(s'.sems, id));
    }
    forall p | p in s.sems[k].waiters ensures !Queued(s', p) {
      forall i | 0 <= i < |s.sems| && i != k ensures p !in s'.sems[i].waiters {
        assert if i < k then Apart(s.sems[i], s.sems[k]) else Apart(s.sems[k], s.sems[i]);
      }
    }
  }

  /** The answers of a wait: 0 exactly if it took the semaphore at once, 1 exactly if it did not, -1 exactly if there is
      none. */
  lemma WaitAnswers<P>(s: Pool<P>, id: int, current: Option<P>)
    requires PoolOk(s) && MayStep(s, Wait(id, current))
    ensures
      var (s', r) := WaitStep(s, id, current);
      && (r == -1 <==> !Known(s, id)) && (r == -1 ==> s' == s)
      && (r == 0 <==> Known(s, id) && Known(s', id) && Get(s', id).value == Get(s, id).value - 1)
      && (r == 1 <==> Known(s, id) && Known(s', id) && Get(s', id).value == Get(s, id).value == 0)
  {
    if Known(s, id) {
      StepCounts(s, Wait(id, current), id);
      assert SemOk(s.sems[Slot(s.sems, id)], s.nextId);
    }
  }

  /** Signal and destroy answer 0 exactly if there is such a semaphore, and -1 without any change otherwise. */
  lemma UnknownIsRefused<P>(s: Pool<P>, id: int)
    ensures SignalStep(s, id).1 == DestroyStep(s, id).1 == if Known(s, id) then 0 else -1
    ensures !Known(s, id) ==> SignalStep(s, id).0 == DestroyStep(s, id).0 == s
  {
  }

  /** A process that is in no queue is queued exactly by the answer 1. */
  lemma WaitQueuesIff<P>(s: Pool<P>, id: int, p: P)
    requires PoolOk(s) && !Queued(s, p)
    ensures
      var (s', r) := WaitStep(s, id, Some(p));
      Queued(s', p) <==> r == 1
  {
    if Known(s, id) {
      var k, s' := Slot(s.sems, id), WaitStep(s, id, Some(p)).0;
      forall i | 0 <= i < |s.sems| && i != k ensures p !in s'.sems[i].waiters {
        assert s'.sems[i] == s.sems[i];
      }
      assert p !in s.sems[k].waiters && s'.sems[k].waiters <= s.sems[k].waiters + [p];
      assert s.sems[k].value <= 0 ==> p in s'.sems[k].waiters;
    }
  }

  /** Ids answered by later creates of a run are larger than earlier ones and than any known before: none is ever used
      again. */
  lemma IdsNeverReused<P>(ss: seq<Pool<P>>, ops: seq<Op<P>>, n: nat, id: int)
    requires Run(ss, ops) && n < |ops| && ops[n].Create? && (Known(ss[0], id) || 1 <= id < ss[0].nextId)
    ensures
      var r := CreateStep(ss[n], ops[n].name, ops[n].initial).1;
      r != INVALID_ID ==> r > id
  {
    RunKeepsPool(ss, ops, n);
    NextIdGrows(ss, ops, n);
    if Known(ss[0], id) {
      assert SemOk(ss[0].sems[Slot(ss[0].sems, id)], ss[0].nextId);
    }
  }

  lemma {:induction false} NextIdGrows<P>(ss: seq<Pool<P>>, ops: seq<Op<P>>, n: nat)
    requires Run(ss, ops) && n <= |ops|
    ensures ss[n].nextId >= ss[0].nextId
  {
    if n > 0 {
      NextIdGrows(ss, ops, n - 1);
      assert ss[n] == Step(ss[n - 1], ops[n - 1]).0;
    }
  }

  /** Over every run a semaphore's value is what it was, plus the signals, less the waits that succeeded at once,
      less the processes woken; and the processes are woken in the order in which they blocked. */
  lemma {:induction false} ConservationAndOrder<P>(ss: seq<Pool<P>>, ops: seq<Op<P>>, id: int, n: nat)
    requires Run(ss, ops) && n <= |ops| && Known(ss[0], id)
    requires forall i :: 0 <= i < n ==> ops[i] != Destroy(id)
    ensures Known(ss[n], id)
    ensures Get(ss[n], id).value ==
      Get(ss[0], id).value + Signals(ops, id, n) - Acquires(ss, ops, id, n) - |Woken(ss, ops, id, n)|
    ensures Get(ss[0], id).waiters + Blocked(ss, ops, id, n) == Woken(ss, ops, id, n) + Get(ss[n], id).waiters
  {
    if n > 0 {
      ConservationAndOrder(ss, ops, id, n - 1);
      RunKeepsPool(ss, ops, n - 1);
      StepCounts(ss[n - 1], ops[n - 1], id);
      Regroup(Get(ss[0], id).waiters, Blocked(ss, ops, id, n - 1), BlockedBy(ss[n - 1], ops[n - 1], id),
        Woken(ss, ops, id, n - 1), Get(ss[n - 1], id).waiters,
        WokenBy(ss[n - 1], ops[n - 1], id), Get(ss[n], id).waiters);
    }
  }

  lemma Regroup<P>(w0: seq<P>, b: seq<P>, x: seq<P>, w: seq<P>, q: seq<P>, y: seq<P>, q': seq<P>)
    requires w0 + b == w + q && q + x == y + q'
    ensures w0 + (b + x) == (w + y) + q'
  {
    assert w0 + (b + x) == (w0 + b) + x == w + (q + x) == (w + y) + q';
  }

  /** Over every run that begins with the create of a semaphore and does not destroy it: its value is the initial one,
      plus the signals, less the waits that succeeded at once, less the processes woken; who blocked has been woken,
      in that order, or still waits; and never do more processes hold it than the initial value admits. */
  lemma ConservationFromCreate<P>(
      s: Pool<P>, name: CharPointer, initial: int, id: int, ss: seq<Pool<P>>, ops: seq<Op<P>>, n: nat)
    requires PoolOk(s) && CanCreate(s, name, initial) && Run(ss, ops) && n <= |ops|
    requires (ss[0], id) == CreateStep(s, name, initial) && forall i :: 0 <= i < n ==> ops[i] != Destroy(id)
    ensures Known(ss[n], id)
    ensures Get(ss[n], id).value ==
      initial + Signals(ops, id, n) - Acquires(ss, ops, id, n) - |Woken(ss, ops, id, n)|
    ensures Blocked(ss, ops, id, n) == Woken(ss, ops, id, n) + Get(ss[n], id).waiters
    ensures Acquires(ss, ops, id, n) + |Woken(ss, ops, id, n)| - Signals(ops, id, n) <= initial
  {
    CreatedIsKnown(s, name, initial);
    ConservationAndOrder(ss, ops, id, n);
    RunKeepsPool(ss, ops, n);
    assert SemOk(ss[n].sems[Slot(ss[n].sems, id)], ss[n].nextId);
    assert [] + Blocked(ss, ops, id, n) == Blocked(ss, ops, id, n);
  }

  /** The process at position k of the queue still waits after at most k signals, has moved up by one place with
      each, and is woken by signal number k + 1, whatever else is called in between. */
  lemma {:induction false} WokenBySignalNumber<P>(ss: seq<Pool<P>>, ops: seq<Op<P>>, id: int, n: nat, k: nat)
    requires Run(ss, ops) && n <= |ops| && Known(ss[0], id) && k < |Get(ss[0], id).waiters|
    requires forall i :: 0 <= i < n ==> ops[i] != Destroy(id)
    ensures Known(ss[n], id)
    ensures
      var c := Signals(ops, id, n);
      var p := Get(ss[0], id).waiters[k];
      if c <= k then
        |Woken(ss, ops, id, n)| == c && k - c < |Get(ss[n], id).waiters| && Get(ss[n], id).waiters[k - c] == p
      else k < |Woken(ss, ops, id, n)| && Woken(ss, ops, id, n)[k] == p
  {
    ConservationAndOrder(ss, ops, id, n);
    if n > 0 {
      WokenBySignalNumber(ss, ops, id, n - 1, k);
      ConservationAndOrder(ss, ops, id, n - 1);
      assert Signals(ops, id, n) <= k ==> Signals(ops, id, n - 1) <= k;
    }
    PositionMoves(Get(ss[0], id).waiters, Blocked(ss, ops, id, n), Woken(ss, ops, id, n), Get(ss[n], id).waiters, k);
  }

  lemma PositionMoves<P>(w0: seq<P>, b: seq<P>, w: seq<P>, q: seq<P>, k: nat)
    requires w0 + b == w + q && k < |w0|
    ensures if k < |w| then w[k] == w0[k] else k - |w| < |q| && q[k - |w|] == w0[k]
  {
    assert w0[k] == (w0 + b)[k] == (w + q)[k];
  }
}
