/** The coalescing loop of kfree (kernel/heap.c), round by round, on whatever the links are: it ends exactly if
    the block just freed was not on the free list already. */
module HeapCoalescing {
  import opened HeapBlocks
  import opened HeapSteps

  /** The loop's guard. */
  ghost predicate GoesOn(h: Heap, current: nat) {
    current != 0 && H(h, current).next != 0
  }

  /** One round: merge with the next block if it starts where the current one ends, else step to it. */
  ghost function Round(h: Heap, current: nat): (Heap, nat) {
    var next := H(h, current).next;
    if EndOf(h, current) == next && H(h, next).isFree != 0 then (Swallowed(h, current, H(h, next)), current)
    else (h, next)
  }

  ghost function AfterRounds(h: Heap, current: nat, n: nat): (Heap, nat)
    decreases n
  {
    if n == 0 then (h, current) else AfterRounds(Round(h, current).0, Round(h, current).1, n - 1)
  }

  /** The loop started in this state leaves off after some number of rounds. */
  ghost predicate Ends(h: Heap, current: nat) {
    exists n: nat {:trigger AfterRounds(h, current, n)} ::
      !GoesOn(AfterRounds(h, current, n).0, AfterRounds(h, current, n).1)
  }

  // ----- a cycle keeps the loop going -----

  /** The links lead around through the nodes of c, all different, and back to the first. */
  ghost predicate Cycle(h: Heap, c: seq<nat>) {
    && c != [] && NoRepeats(c)
    && forall k :: 0 <= k < |c| ==> c[k] != 0 && H(h, c[k]).next == After(c, k)
  }

  ghost function After(c: seq<nat>, k: nat): nat
    requires k < |c|
  {
    if k + 1 < |c| then c[k + 1] else c[0]
  }

  /** A round that starts on a cycle leaves a cycle and the loop on it; a merge makes the cycle shorter by one. */
  lemma RoundStaysOnCycle(h: Heap, c: seq<nat>) returns (c': seq<nat>)
    requires Cycle(h, c)
    ensures Cycle(Round(h, c[0]).0, c') && Round(h, c[0]).1 == c'[0]
  {
    var current, next := c[0], After(c, 0);
    assert H(h, c[0]).next == next;
    if EndOf(h, current) == next && H(h, next).isFree != 0 {
      c' := [c[0]] + c[2..];
      var d := H(h, next);
      assert H(h, c[1]).next == After(c, 1);
      forall k | 0 <= k < |c'| ensures c'[k] != 0 && H(Swallowed(h, current, d), c'[k]).next == After(c', k) {
        assert k > 0 ==> c'[k] == c[k + 1] && H(h, c[k + 1]).next == After(c, k + 1);
      }
    } else {
      c' := c[1..] + [c[0]];
      forall k | 0 <= k < |c'| ensures c'[k] != 0 && H(h, c'[k]).next == After(c', k) {
        assert k + 1 < |c| ==> c'[k] == c[k + 1] && H(h, c[k + 1]).next == After(c, k + 1);
      }
    }
  }

  lemma {:induction false} CycleGoesOn(h: Heap, c: seq<nat>, n: nat)
    requires Cycle(h, c)
    ensures GoesOn(AfterRounds(h, c[0], n).0, AfterRounds(h, c[0], n).1)
    decreases n
  {
    if n == 0 {
      assert H(h, c[0]).next == After(c, 0) && c[0] != 0;
      assert |c| > 1 ==> c[1] != 0;
    } else {
      var c' := RoundStaysOnCycle(h, c);
      CycleGoesOn(Round(h, c[0]).0, c', n - 1);
    }
  }

  /** Pushing a block that is node j of the list already closes a cycle through the nodes before it. */
  lemma PushedAgainIsCycle(h: Heap, j: nat)
    requires HeapOk(h) && j < |h.free|
    ensures Cycle(Pushed(h, h.free[j]), [h.free[j]] + h.free[..j])
  {
    var b, c := h.free[j], [h.free[j]] + h.free[..j];
    var h' := Pushed(h, b);
    NodesNotNull(h);
    forall k | 0 <= k < |c| ensures c[k] != 0 && H(h', c[k]).next == After(c, k) {
      if k > 0 {
        assert NodeOk(h, k - 1);
      }
    }
  }

  // ----- a list lets it end -----

  /** What the rounds do depends on the headers only. */
  lemma {:induction false} RoundsFollowHeaders(h: Heap, g: Heap, current: nat, n: nat)
    requires h.hdr == g.hdr
    ensures AfterRounds(h, current, n).0.hdr == AfterRounds(g, current, n).0.hdr
    ensures AfterRounds(h, current, n).1 == AfterRounds(g, current, n).1
    decreases n
  {
    if n > 0 {
      RoundsFollowHeaders(Round(h, current).0, Round(g, current).0, Round(h, current).1, n - 1);
    }
  }

  /** On a well-linked list the loop ends after at most as many rounds as there are nodes from here on. */
  lemma {:induction false} ListEnds(h: Heap, j: nat) returns (n: nat)
    requires HeapOk(h) && j < |h.free|
    ensures n <= |h.free| - j
    ensures !GoesOn(AfterRounds(h, h.free[j], n).0, AfterRounds(h, h.free[j], n).1)
    decreases |h.free| - j
  {
    assert NodeOk(h, j);
    if j + 1 == |h.free| {
      n := 0;
    } else {
      assert NodeOk(h, j + 1);
      NodesNotNull(h);
      if EndOf(h, h.free[j]) == h.free[j + 1] {
        var i := AdjacentTiles(h, j);
        MergeKeeps(h, i, j);
        var m := ListEnds(Merged(h, i, j), j);
        RoundsFollowHeaders(Merged(h, i, j), Round(h, h.free[j]).0, h.free[j], m);
        n := m + 1;
      } else {
        var m := ListEnds(h, j + 1);
        n := m + 1;
      }
    }
  }

  /** The loop that follows a free ends exactly if the block was not on the list already; after a double free of
      a listed block it goes round for ever. */
  lemma CoalescingEndsIff(h: Heap, b: nat)
    requires HeapOk(h) && b in h.tiles
    ensures Ends(Pushed(h, b), b) <==> b !in h.free
  {
    if b !in h.free {
      PushKeeps(h, b);
      var n := ListEnds(Pushed(h, b), 0);
    } else {
      var j :| 0 <= j < |h.free| && h.free[j] == b;
      PushedAgainIsCycle(h, j);
      forall n: nat ensures GoesOn(AfterRounds(Pushed(h, b), b, n).0, AfterRounds(Pushed(h, b), b, n).1) {
        CycleGoesOn(Pushed(h, b), [b] + h.free[..j], n);
      }
    }
  }
}
