/** The waiting queues of all semaphores as the links that make them up (kernel/ipc.c): heads, tails and the
    next field of every process, and what appending a process does to them whether it is queued or not. */
module SemaphoreQueues {
  import opened SemaphoreSpec

  datatype Queues<P> = Queues(head: seq<Option<P>>, tail: seq<Option<P>>, next: map<P, Option<P>>)

  ghost function After<P>(w: seq<P>, i: nat): Option<P> {
    if i + 1 < |w| then Some(w[i + 1]) else None
  }

  ghost predicate Leads<P>(next: map<P, Option<P>>, p: P, to: Option<P>) {
    p in next && next[p] == to
  }

  /** Following next from head leads through the processes of w, all different, and ends at tail. */
  ghost predicate Thread<P>(next: map<P, Option<P>>, w: seq<P>, head: Option<P>, tail: Option<P>) {
    && head == (if w == [] then None else Some(w[0]))
    && tail == (if w == [] then None else Some(w[|w| - 1]))
    && (forall i :: 0 <= i < |w| ==> Leads(next, w[i], After(w, i)))
    && (forall i, j :: 0 <= i < j < |w| ==> w[i] != w[j])
  }

  ghost predicate Unshared<P>(v: seq<P>, w: seq<P>) {
    forall p :: p in v ==> p !in w
  }

  /** The queues are threaded through the processes of ws, and no process is in two of them. */
  ghost predicate InOrder<P>(q: Queues<P>, ws: seq<seq<P>>) {
    && |ws| == |q.head| == |q.tail|
    && (forall i :: 0 <= i < |ws| ==> Thread(q.next, ws[i], q.head[i], q.tail[i]))
    && (forall i, j :: 0 <= i < j < |ws| ==> Unshared(ws[i], ws[j]))
  }

  ghost predicate InSome<P>(ws: seq<seq<P>>, p: P) {
    exists i :: 0 <= i < |ws| && p in ws[i]
  }

  /** Appending p to queue k, link by link: whatever p's link was, it is cleared first. */
  ghost function Enqueued<P>(q: Queues<P>, k: nat, p: P): Queues<P>
    requires k < |q.head| == |q.tail|
  {
    var next := q.next[p := None];
    if q.head[k].None? then Queues(q.head[k := Some(p)], q.tail[k := Some(p)], next)
    else Queues(q.head, q.tail[k := Some(p)], if q.tail[k].Some? then next[q.tail[k].value := Some(p)] else next)
  }

  /** ws' holds everything ws holds, and p. */
  ghost predicate NobodyLost<P>(ws: seq<seq<P>>, ws': seq<seq<P>>, p: P) {
    InSome(ws', p) && forall i, x :: 0 <= i < |ws| && x in ws[i] ==> InSome(ws', x)
  }

  lemma LinksInQueue<P>(q: Queues<P>, ws: seq<seq<P>>, i: nat)
    requires InOrder(q, ws) && i < |ws|
    ensures forall x :: x in ws[i] ==> x in q.next
    ensures forall a :: 0 <= a < |ws[i]| ==> ws[i][a] in q.next && Leads(q.next, ws[i][a], After(ws[i], a))
  {
    assert Thread(q.next, ws[i], q.head[i], q.tail[i]);
    forall a | 0 <= a < |ws[i]| ensures ws[i][a] in q.next {
      assert Leads(q.next, ws[i][a], After(ws[i], a));
    }
  }

  /** Any queue found from this head starts with the processes that the links lead through. */
  lemma {:induction false} FollowLinks<P>(next: map<P, Option<P>>, w: seq<P>, n: nat, v: seq<P>, tail: Option<P>)
    requires 0 < n <= |w| && Thread(next, v, Some(w[0]), tail)
    requires forall i :: 0 <= i < n - 1 ==> Leads(next, w[i], After(w, i))
    ensures n <= |v| && v[..n] == w[..n]
  {
    if n > 1 {
      FollowLinks(next, w, n - 1, v, tail);
      assert v[n - 2] == v[..n - 1][n - 2] == w[n - 2];
      assert Leads(next, w[n - 2], After(w, n - 2)) && Leads(next, v[n - 2], After(v, n - 2));
      assert v[..n] == v[..n - 1] + [v[n - 1]];
    }
  }

  /** A queue whose links are as before is threaded as before. */
  lemma ThreadUndisturbed<P>(next: map<P, Option<P>>, next': map<P, Option<P>>, w: seq<P>, head: Option<P>,
      tail: Option<P>)
    requires Thread(next, w, head, tail)
    requires forall x :: x in w ==> x in next' && x in next && next'[x] == next[x]
    ensures Thread(next', w, head, tail)
  {
    forall i | 0 <= i < |w| ensures Leads(next', w[i], After(w, i)) {
      assert Leads(next, w[i], After(w, i));
    }
  }

  lemma ThreadExtended<P>(next: map<P, Option<P>>, next': map<P, Option<P>>, w: seq<P>, head: Option<P>,
      tail: Option<P>, p: P)
    requires Thread(next, w, head, tail) && p !in w && Leads(next', p, None)
    requires w != [] ==> Leads(next', w[|w| - 1], Some(p))
    requires forall i :: 0 <= i < |w| - 1 ==> w[i] in next && Leads(next', w[i], next[w[i]])
    ensures Thread(next', w + [p], if w == [] then Some(p) else head, Some(p))
  {
    var w' := w + [p];
    forall i | 0 <= i < |w'| ensures Leads(next', w'[i], After(w', i)) {
      assert i < |w| ==> Leads(next, w[i], After(w, i));
    }
  }

  lemma ThreadCut<P>(next: map<P, Option<P>>, next': map<P, Option<P>>, w: seq<P>, head: Option<P>, tail: Option<P>,
      a: nat)
    requires Thread(next, w, head, tail) && a < |w| && Leads(next', w[a], None)
    requires forall i :: 0 <= i < a ==> w[i] in next && Leads(next', w[i], next[w[i]])
    ensures Thread(next', w[..a + 1], head, Some(w[a]))
  {
    var w' := w[..a + 1];
    forall i | 0 <= i < |w'| ensures Leads(next', w'[i], After(w', i)) {
      assert Leads(next, w[i], After(w, i));
    }
  }

  /** A process that is in no queue ends up last in its queue; all others are where they were. */
  lemma NewWaiterAppended<P>(q: Queues<P>, ws: seq<seq<P>>, k: nat, p: P)
    requires InOrder(q, ws) && k < |ws| && !InSome(ws, p)
    ensures InOrder(Enqueued(q, k, p), ws[k := ws[k] + [p]])
  {
    var q', ws' := Enqueued(q, k, p), ws[k := ws[k] + [p]];
    assert Thread(q.next, ws[k], q.head[k], q.tail[k]) && p !in ws[k];
    forall i | 0 <= i < |ws| ensures Thread(q'.next, ws'[i], q'.head[i], q'.tail[i]) {
      assert Thread(q.next, ws[i], q.head[i], q.tail[i]) && p !in ws[i];
      LinksInQueue(q, ws, i);
      if i == k {
        ThreadExtended(q.next, q'.next, ws[k], q.head[k], q.tail[k], p);
      } else {
        assert i < k ==> Unshared(ws[i], ws[k]);
        assert k < i ==> Unshared(ws[k], ws[i]);
        ThreadUndisturbed(q.next, q'.next, ws[i], q.head[i], q.tail[i]);
      }
    }
    forall i, j | 0 <= i < j < |ws| ensures Unshared(ws'[i], ws'[j]) {
      assert Unshared(ws[i], ws[j]) && p !in ws[i] && p !in ws[j];
    }
  }

  /** Appending to queue k touches no link of another queue but that of p. */
  lemma OthersKeepLinks<P>(q: Queues<P>, ws: seq<seq<P>>, k: nat, p: P, i: nat)
    requires InOrder(q, ws) && k < |ws| && i < |ws| && i != k
    ensures
      var q' := Enqueued(q, k, p);
      && q'.head[i] == q.head[i] && q'.tail[i] == q.tail[i] && q'.tail[k] == Some(p)
      && (forall x :: x in ws[i] && x != p ==> x in q.next && x in q'.next && q'.next[x] == q.next[x])
      && (p in ws[i] ==> Leads(q'.next, p, None))
  {
    assert Thread(q.next, ws[k], q.head[k], q.tail[k]);
    assert i < k ==> Unshared(ws[i], ws[k]);
    assert k < i ==> Unshared(ws[k], ws[i]);
    LinksInQueue(q, ws, i);
  }

  /** The links determine the queue. */
  lemma SameThread<P>(next: map<P, Option<P>>, v: seq<P>, w: seq<P>, head: Option<P>, tail: Option<P>)
    requires Thread(next, v, head, tail) && Thread(next, w, head, tail)
    ensures v == w
  {
    if v != [] {
      FollowLinks(next, v, |v|, w, tail);
      FollowLinks(next, w, |w|, v, tail);
    }
  }

  lemma LinksDetermineQueues<P>(q: Queues<P>, vs: seq<seq<P>>, ws: seq<seq<P>>)
    requires InOrder(q, vs) && InOrder(q, ws)
    ensures vs == ws
  {
    forall i | 0 <= i < |vs| ensures vs[i] == ws[i] {
      assert Thread(q.next, vs[i], q.head[i], q.tail[i]) && Thread(q.next, ws[i], q.head[i], q.tail[i]);
      SameThread(q.next, vs[i], ws[i], q.head[i], q.tail[i]);
    }
  }

  /** A process that is in the queue already, but not last: the queue ends with it and all others are as before. */
  lemma CutInOrder<P>(q: Queues<P>, ws: seq<seq<P>>, k: nat, a: nat)
    requires InOrder(q, ws) && k < |ws| && a < |ws[k]| - 1
    ensures InOrder(Enqueued(q, k, ws[k][a]), ws[k := ws[k][..a + 1]])
  {
    var w, p, q', ws' := ws[k], ws[k][a], Enqueued(q, k, ws[k][a]), ws[k := ws[k][..a + 1]];
    assert Thread(q.next, w, q.head[k], q.tail[k]);
    forall i | 0 <= i < |ws| ensures Thread(q'.next, ws'[i], q'.head[i], q'.tail[i]) {
      assert Thread(q.next, ws[i], q.head[i], q.tail[i]);
      if i == k {
        LinksInQueue(q, ws, k);
        ThreadCut(q.next, q'.next, w, q.head[k], q.tail[k], a);
      } else {
        assert i < k ==> Unshared(ws[i], ws[k]);
        assert k < i ==> Unshared(ws[k], ws[i]);
        OthersKeepLinks(q, ws, k, p, i);
        ThreadUndisturbed(q.next, q'.next, ws[i], q.head[i], q.tail[i]);
      }
    }
    forall i, j | 0 <= i < j < |ws| ensures Unshared(ws'[i], ws'[j]) {
      assert Unshared(ws[i], ws[j]);
    }
  }

  /** These are the only queues that fit the links, and the waiters behind the process are in none of them. */
  lemma QueuedAgainCuts<P>(q: Queues<P>, ws: seq<seq<P>>, k: nat, a: nat, ws': seq<seq<P>>)
    requires InOrder(q, ws) && k < |ws| && a < |ws[k]| - 1
    ensures InOrder(Enqueued(q, k, ws[k][a]), ws') <==> ws' == ws[k := ws[k][..a + 1]]
    ensures forall b :: a < b < |ws[k]| ==> !InSome(ws[k := ws[k][..a + 1]], ws[k][b])
  {
    var w, cut := ws[k], ws[k := ws[k][..a + 1]];
    CutInOrder(q, ws, k, a);
    if InOrder(Enqueued(q, k, w[a]), ws') {
      LinksDetermineQueues(Enqueued(q, k, w[a]), ws', cut);
    }
    assert Thread(q.next, w, q.head[k], q.tail[k]);
    forall b | a < b < |w| ensures !InSome(cut, w[b]) {
      forall i | 0 <= i < |ws| ensures w[b] !in cut[i] {
        assert i < k ==> Unshared(ws[i], ws[k]);
        assert k < i ==> Unshared(ws[k], ws[i]);
      }
    }
  }

  /** A process that is the last of the queue becomes its own successor: no list of processes fits the links. */
  lemma LastBecomesItsOwnSuccessor<P>(q: Queues<P>, ws: seq<seq<P>>, k: nat, ws': seq<seq<P>>)
    requires InOrder(q, ws) && k < |ws| && ws[k] != []
    ensures
      var p := ws[k][|ws[k]| - 1];
      Enqueued(q, k, p).next[p] == Some(p) && !InOrder(Enqueued(q, k, p), ws')
  {
    var w := ws[k];
    var p := w[|w| - 1];
    var q' := Enqueued(q, k, p);
    assert Thread(q.next, w, q.head[k], q.tail[k]);
    if InOrder(q', ws') {
      assert Thread(q'.next, ws'[k], q'.head[k], q'.tail[k]);
    }
  }

  /** A process that waits in another queue is last in both: what was behind it there is cut off, and two
      queues share it. */
  lemma OtherQueueCutAndShared<P>(q: Queues<P>, ws: seq<seq<P>>, k: nat, i: nat, a: nat, w': seq<P>)
    requires InOrder(q, ws) && k < |ws| && i < |ws| && i != k && a < |ws[i]|
    ensures
      var p := ws[i][a];
      var q' := Enqueued(q, k, p);
      && q'.tail[k] == Some(p) && q'.head[i] == Some(ws[i][0])
      && (Thread(q'.next, w', q'.head[i], Some(p)) <==> w' == ws[i][..a + 1])
  {
    var w, p, q' := ws[i], ws[i][a], Enqueued(q, k, ws[i][a]);
    assert Thread(q.next, w, q.head[i], q.tail[i]);
    OthersKeepLinks(q, ws, k, p, i);
    ThreadCut(q.next, q'.next, w, q.head[i], q.tail[i], a);
    if Thread(q'.next, w', q'.head[i], Some(p)) {
      SameThread(q'.next, w', w[..a + 1], q'.head[i], Some(p));
    }
  }

  lemma SharedIsOutOfOrder<P>(q: Queues<P>, ws: seq<seq<P>>, k: nat, i: nat, a: nat, ws': seq<seq<P>>)
    requires InOrder(q, ws) && k < |ws| && i < |ws| && i != k && a < |ws[i]|
    ensures !InOrder(Enqueued(q, k, ws[i][a]), ws')
  {
    if InOrder(Enqueued(q, k, ws[i][a]), ws') {
      SharedInBoth(q, ws, k, i, a, ws');
    }
  }

  lemma SharedInBoth<P>(q: Queues<P>, ws: seq<seq<P>>, k: nat, i: nat, a: nat, ws': seq<seq<P>>)
    requires InOrder(q, ws) && k < |ws| == |ws'| && i < |ws| && i != k && a < |ws[i]|
    requires var q' := Enqueued(q, k, ws[i][a]);
      Thread(q'.next, ws'[i], q'.head[i], q'.tail[i]) && Thread(q'.next, ws'[k], q'.head[k], q'.tail[k])
    ensures ws[i][a] in ws'[i] && ws[i][a] in ws'[k]
  {
    var q' := Enqueued(q, k, ws[i][a]);
    OtherQueueCutAndShared(q, ws, k, i, a, ws[i][..a + 1]);
    StartOfQueue(q'.next, ws[i], a, ws'[i], q'.tail[i]);
    assert ws'[k][|ws'[k]| - 1] == ws[i][a];
  }

  lemma StartOfQueue<P>(next: map<P, Option<P>>, w: seq<P>, a: nat, v: seq<P>, tail: Option<P>)
    requires a < |w| && Thread(next, v, Some(w[0]), tail) && Thread(next, w[..a + 1], Some(w[0]), Some(w[a]))
    ensures w[a] in v
  {
    FollowLinks(next, w[..a + 1], a + 1, v, tail);
    assert v[a] == v[..a + 1][a] == w[a];
  }

  /** After appending p to queue k all queues are in order and nobody has been lost exactly if p was in none. */
  lemma BlockingKeepsQueuesIff<P>(q: Queues<P>, ws: seq<seq<P>>, k: nat, p: P)
    requires InOrder(q, ws) && k < |ws|
    ensures (exists ws' :: InOrder(Enqueued(q, k, p), ws') && NobodyLost(ws, ws', p)) <==> !InSome(ws, p)
  {
    if !InSome(ws, p) {
      NewWaiterAppended(q, ws, k, p);
      AppendLosesNobody(ws, k, p);
    } else {
      var i :| 0 <= i < |ws| && p in ws[i];
      var a :| 0 <= a < |ws[i]| && ws[i][a] == p;
      forall ws' | InOrder(Enqueued(q, k, p), ws') ensures !NobodyLost(ws, ws', p) {
        if i != k {
          SharedIsOutOfOrder(q, ws, k, i, a, ws');
        } else if a == |ws[k]| - 1 {
          LastBecomesItsOwnSuccessor(q, ws, k, ws');
        } else {
          QueuedAgainCuts(q, ws, k, a, ws');
          assert ws[k][a + 1] in ws[k] && InSome(ws, ws[k][a + 1]);
        }
      }
    }
  }

  lemma AppendLosesNobody<P>(ws: seq<seq<P>>, k: nat, p: P)
    requires k < |ws|
    ensures NobodyLost(ws, ws[k := ws[k] + [p]], p)
  {
    var ws' := ws[k := ws[k] + [p]];
    assert p in ws'[k];
    forall i, x | 0 <= i < |ws| && x in ws[i] ensures InSome(ws', x) {
      assert x in ws'[i];
    }
  }
}
