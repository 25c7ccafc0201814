/** What coalescing makes of the free list (kernel/heap.c): the stretches of its blocks in list order, joined as long
    as one starts where the one before it ends. */
module HeapSpans {
  import opened HeapBlocks
  import opened HeapSteps

  datatype Span = Span(start: nat, end: nat)

  /** The stretches that the listed blocks take up, headers included, in list order. */
  ghost function Spans(h: Heap): (s: seq<Span>)
    ensures |s| == |h.free| && forall k :: 0 <= k < |s| ==> s[k] == Span(h.free[k], EndOf(h, h.free[k]))
  {
    seq(|h.free|, k requires 0 <= k < |h.free| => Span(h.free[k], EndOf(h, h.free[k])))
  }

  /** Neighbours on the list that touch become one. */
  ghost function Joined(s: seq<Span>): (r: seq<Span>)
    ensures |r| <= |s| && (s != [] ==> r != [] && r[0].start == s[0].start)
    decreases |s|
  {
    if |s| < 2 then s
    else if s[0].end == s[1].start then Joined([Span(s[0].start, s[1].end)] + s[2..])
    else [s[0]] + Joined(s[1..])
  }

  ghost predicate Proper(s: seq<Span>) {
    forall k :: 0 <= k < |s| ==> s[k].start <= s[k].end
  }

  /** Afterwards no two neighbours touch. */
  lemma {:induction false} JoinedApart(s: seq<Span>)
    ensures forall k :: 0 <= k < |Joined(s)| - 1 ==> Joined(s)[k].end != Joined(s)[k + 1].start
    decreases |s|
  {
    if |s| >= 2 {
      if s[0].end == s[1].start {
        JoinedApart([Span(s[0].start, s[1].end)] + s[2..]);
      } else {
        JoinedApart(s[1..]);
      }
    }
  }

  /** Every stretch lies in one of the joined ones, and two neighbours that touch lie in the same one. */
  lemma {:induction false} JoinedCovers(s: seq<Span>, k: nat) returns (i: nat)
    requires Proper(s) && k < |s|
    ensures i < |Joined(s)| && Joined(s)[i].start <= s[k].start && s[k].end <= Joined(s)[i].end
    ensures k + 1 < |s| && s[k].end == s[k + 1].start ==> s[k + 1].end <= Joined(s)[i].end
    decreases |s|
  {
    if |s| < 2 {
      i := k;
    } else if s[0].end == s[1].start {
      i := JoinedCovers([Span(s[0].start, s[1].end)] + s[2..], if k == 0 then 0 else k - 1);
    } else if k == 0 {
      i := 0;
    } else {
      i := JoinedCovers(s[1..], k - 1);
      i := i + 1;
    }
  }

  /** The first joined stretch covers the first one. */
  lemma {:induction false} FirstCovers(s: seq<Span>)
    requires Proper(s) && s != []
    ensures Joined(s)[0].end >= s[0].end
    decreases |s|
  {
    if |s| >= 2 && s[0].end == s[1].start {
      FirstCovers([Span(s[0].start, s[1].end)] + s[2..]);
    }
  }

  lemma PushedSpans(h: Heap, b: nat)
    requires HeapOk(h) && b in h.tiles && b !in h.free
    ensures Spans(Pushed(h, b)) == [Span(b, EndOf(h, b))] + Spans(h)
  {
    PushKeeps(h, b);
    forall k | 0 <= k < |h.free| ensures EndOf(Pushed(h, b), h.free[k]) == EndOf(h, h.free[k]) {
      assert NodeOk(h, k);
    }
  }

  // ----- the loop -----

  /** Before node j everything is joined; joining the rest gives what joining h0's list gives. */
  ghost predicate Joining(h0: Heap, h: Heap, j: nat) {
    true == (j <= |h.free| && Spans(h)[..j] + Joined(Spans(h)[j..]) == Joined(Spans(h0)))
  }

  lemma JoiningStarts(h: Heap)
    ensures Joining(h, h, 0)
  {
    assert Spans(h)[0..] == Spans(h);
  }

  /** Stepping on from a node that does not end where the next one starts. */
  lemma JoinStep(h0: Heap, h: Heap, j: nat)
    requires Joining(h0, h, j) && j + 1 < |h.free| && EndOf(h, h.free[j]) != h.free[j + 1]
    ensures Joining(h0, h, j + 1)
  {
    var s := Spans(h);
    assert s[j..][1..] == s[j + 1..] && s[..j + 1] == s[..j] + [s[j]];
  }

  /** Merging a node with the next one. */
  lemma JoinMerge(h0: Heap, h: Heap, i: nat, j: nat)
    requires HeapOk(h) && Mergeable(h, i, j) && Joining(h0, h, j)
    ensures Joining(h0, Merged(h, i, j), j)
  {
    var s, s' := Spans(h), Spans(Merged(h, i, j));
    MergedSpans(h, i, j);
    MergeableLinks(h, i, j);
    assert s'[..j] == s[..j];
    assert s'[j..] == [Span(s[j..][0].start, s[j..][1].end)] + s[j..][2..];
  }

  lemma MergedSpans(h: Heap, i: nat, j: nat)
    requires HeapOk(h) && Mergeable(h, i, j)
    ensures Spans(Merged(h, i, j)) == Spans(h)[..j] + [Span(h.free[j], EndOf(h, h.free[j + 1]))] + Spans(h)[j + 2..]
  {
    var h' := Merged(h, i, j);
    MergedHeaders(h, i, j);
    MergeableLinks(h, i, j);
    forall k | 0 <= k < |h'.free|
      ensures Spans(h')[k] == (Spans(h)[..j] + [Span(h.free[j], EndOf(h, h.free[j + 1]))] + Spans(h)[j + 2..])[k]
    {
      var k0 := if k <= j then k else k + 1;
      assert NodeOk(h, k0) && h'.free[k] == h.free[k0];
    }
  }

  /** At the last node there is nothing left to join. */
  lemma JoiningEnds(h0: Heap, h: Heap, j: nat)
    requires Joining(h0, h, j) && j + 1 >= |h.free|
    ensures Spans(h) == Joined(Spans(h0))
  {
    assert Spans(h) == Spans(h)[..j] + Spans(h)[j..];
  }
}
