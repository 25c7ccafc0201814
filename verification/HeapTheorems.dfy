/** What holds over whole runs of kmalloc, kfree and krealloc (kernel/heap.c). */
module HeapTheorems {
  import opened Bytes
  import opened HeapBlocks
  import opened HeapBytes
  import opened HeapSteps
  import opened HeapEffects
  import opened HeapCalls
  import opened HeapSpans

  /** One step of a run: an allocation, a release, a store by whoever holds a block, or a call that changes
      nothing. */
  datatype Call = Malloc(ptr: nat, size: nat) | Free(block: nat) | Store(block: nat) | Nothing

  ghost predicate Does(h: Heap, m: seq<byte>, c: Call, h': Heap, m': seq<byte>) {
    match c
    case Malloc(ptr, size) => Granted(h, h', m, m', ptr, size)
    case Free(b) => Live(h, b) && Freed(h, h', m, m', b)
    case Store(b) => Live(h, b) && h' == h && OnlyPayload(h, m, m', b)
    case Nothing => h' == h && m' == m
  }

  /** Only payload bytes of block b have changed. */
  ghost predicate OnlyPayload(h: Heap, m: seq<byte>, m': seq<byte>, b: nat) {
    |m'| == |m| && forall k :: 0 <= k < |m| && !(b + HEADER <= k < EndOf(h, b)) ==> m'[k] == m[k]
  }

  /** A krealloc that moves its block is an allocation, a store into the new block and a release. */
  lemma ReallocIsARun(
      h: Heap, mid: Heap, h': Heap, m: seq<byte>, m1: seq<byte>, m2: seq<byte>, m': seq<byte>, ptr: nat, newPtr: nat,
      size: nat)
    requires HeapOk(h) && ptr >= HEADER && Live(h, ptr - HEADER) && size > Size(h, ptr - HEADER)
    requires Reallocated(h, mid, h', m, m1, m2, m', ptr, newPtr, size)
    ensures newPtr >= HEADER
    ensures Run([h, mid, mid, h'], [m, m1, m2, m'],
                [Malloc(newPtr, Align8(size)), Store(newPtr - HEADER), Free(ptr - HEADER)])
  {
    BothLive(h, mid, ptr, newPtr, size);
    var b := newPtr - HEADER;
    assert OnlyPayload(mid, m1, m2, b) by {
      assert b + HEADER == newPtr && newPtr + Size(h, ptr - HEADER) <= EndOf(mid, b);
    }
    assert Does(h, m, Malloc(newPtr, Align8(size)), mid, m1);
    assert Does(mid, m1, Store(b), mid, m2);
    assert Does(mid, m2, Free(ptr - HEADER), h', m');
  }

  /** A store by the holder of a block keeps every header in memory what it was, so the heap is as good for the
      next call as before. */
  lemma StoresKeepHeaders(h: Heap, m: seq<byte>, m': seq<byte>, b: nat)
    requires HeapOk(h) && h.end <= |m| && Live(h, b) && OnlyPayload(h, m, m', b)
    ensures forall t :: t in h.tiles ==> Hdr(m', t) == Hdr(m, t)
  {
    TileBounds(h, b);
    forall t | t in h.tiles ensures Hdr(m', t) == Hdr(m, t) {
      TileBounds(h, t);
      if t != b {
        TilesApart(h, t, b);
      }
      SameHdr(m, m', t);
    }
  }

  /** The states hs with memories ms are those of the calls cs, one after the other. */
  ghost predicate Run(hs: seq<Heap>, ms: seq<seq<byte>>, cs: seq<Call>) {
    && |hs| == |ms| == |cs| + 1 && HeapOk(hs[0])
    && forall i :: 0 <= i < |cs| ==> Does(hs[i], ms[i], cs[i], hs[i + 1], ms[i + 1])
  }

  lemma {:induction false} RunKeepsOk(hs: seq<Heap>, ms: seq<seq<byte>>, cs: seq<Call>, n: nat)
    requires Run(hs, ms, cs) && n <= |cs|
    ensures HeapOk(hs[n])
  {
    if n > 0 {
      RunKeepsOk(hs, ms, cs, n - 1);
      assert Does(hs[n - 1], ms[n - 1], cs[n - 1], hs[n], ms[n]);
    }
  }

  /** A block in use that the run does not free stays where it is, with the same size and header: no call moves it
      or hands any of it out. As long as its holder stores nothing there, its bytes stay too. */
  lemma {:induction false} UnfreedBlocksStay(hs: seq<Heap>, ms: seq<seq<byte>>, cs: seq<Call>, n: nat, t: nat, k: nat)
    requires Run(hs, ms, cs) && n <= |cs| && t in hs[0].tiles && t !in hs[0].free
    requires forall i :: 0 <= i < n ==> cs[i] != Free(t)
    requires t <= k < EndOf(hs[0], t) && k < |ms[0]|
    ensures t in hs[n].tiles && t !in hs[n].free && H(hs[n], t) == H(hs[0], t) && |ms[n]| == |ms[0]|
    ensures (forall i :: 0 <= i < n ==> cs[i] != Store(t)) || k < t + HEADER ==> ms[n][k] == ms[0][k]
  {
    if n > 0 {
      UnfreedBlocksStay(hs, ms, cs, n - 1, t, k);
      RunKeepsOk(hs, ms, cs, n - 1);
      TileBounds(hs[n - 1], t);
      assert Does(hs[n - 1], ms[n - 1], cs[n - 1], hs[n], ms[n]);
      match cs[n - 1]
      case Store(b) =>
        TileBounds(hs[n - 1], b);
        if b != t {
          TilesApart(hs[n - 1], b, t);
        }
      case _ =>
    }
  }

  /** The part that splitting cuts off is lost: whatever is called afterwards, no allocation ever contains a byte
      of it, and it never comes back to the free list. */
  lemma {:induction false} OrphansForever(hs: seq<Heap>, ms: seq<seq<byte>>, cs: seq<Call>, n: nat, t: nat)
    requires Run(hs, ms, cs) && n <= |cs| && Orphan(hs[0], t)
    ensures Orphan(hs[n], t) && H(hs[n], t) == H(hs[0], t)
    ensures forall b :: Live(hs[n], b) ==> EndOf(hs[n], b) <= t || EndOf(hs[n], t) <= b
    ensures forall k :: t <= k < EndOf(hs[n], t) ==> !ListedByte(hs[n], k)
  {
    RunKeepsOk(hs, ms, cs, n);
    if n > 0 {
      OrphansForever(hs, ms, cs, n - 1, t);
      RunKeepsOk(hs, ms, cs, n - 1);
      TileBounds(hs[n - 1], t);
      assert Does(hs[n - 1], ms[n - 1], cs[n - 1], hs[n], ms[n]);
    }
    forall b | Live(hs[n], b) ensures EndOf(hs[n], b) <= t || EndOf(hs[n], t) <= b {
      TilesApart(hs[n], b, t);
    }
    forall k | t <= k < EndOf(hs[n], t) ensures !ListedByte(hs[n], k) {
      UnlistedByte(hs[n], t, k);
    }
  }

  /** Live payloads share no byte with each other, nor with any header or free block, in every state of a run. */
  lemma LivePayloadsDisjoint(hs: seq<Heap>, ms: seq<seq<byte>>, cs: seq<Call>, n: nat, s: nat, t: nat)
    requires Run(hs, ms, cs) && n <= |cs| && Live(hs[n], s) && t in hs[n].tiles && s != t
    ensures EndOf(hs[n], s) <= t || EndOf(hs[n], t) <= s
    ensures hs[n].start <= s && EndOf(hs[n], s) <= hs[n].end && (s + HEADER) % 8 == 0
  {
    RunKeepsOk(hs, ms, cs, n);
    TilesApart(hs[n], s, t);
    TileBounds(hs[n], s);
    AlignedPayload(s);
  }

  /** Setting the heap up a second time forgets every block: the bytes of one in use that lie in the initial part are
      on the free list, the others in no block, and the next allocation that fits gets the heap's first bytes. */
  lemma InitAgainForgetsBlocks(
      h: Heap, size: nat, b: nat, k: nat, h': Heap, m: seq<byte>, m': seq<byte>, ptr: nat, need: nat)
    requires HeapOk(h) && Live(h, b) && b <= k < EndOf(h, b) && size > HEADER
    requires Granted(OneBlock(h.start, size), h', m, m', ptr, need) && HEADER + need <= size
    ensures ListedByte(OneBlock(h.start, size), k) <==> k < h.start + size
    ensures k >= h.start + size ==>
      forall t :: t in OneBlock(h.start, size).tiles ==> !(t <= k < EndOf(OneBlock(h.start, size), t))
    ensures ptr == h.start + HEADER && Live(h', h.start)
  {
    var one := OneBlock(h.start, size);
    TileBounds(h, b);
    assert one.free[0] == h.start && EndOf(one, h.start) == h.start + size;
    assert HasFit(one, need);
  }

  // ----- what freeing joins -----

  lemma ListedSpansProper(h: Heap, b: nat)
    requires HeapOk(h) && Live(h, b)
    ensures Proper([Span(b, EndOf(h, b))] + Spans(h))
  {
  }

  /** After a free no listed block ends where its successor on the list starts. */
  lemma FreedApart(h: Heap, h': Heap, m: seq<byte>, m': seq<byte>, b: nat)
    requires Freed(h, h', m, m', b)
    ensures forall i :: 0 <= i < |h'.free| - 1 ==> EndOf(h', h'.free[i]) != h'.free[i + 1]
  {
    var s := [Span(b, EndOf(h, b))] + Spans(h);
    JoinedApart(s);
    forall i | 0 <= i < |h'.free| - 1 ensures EndOf(h', h'.free[i]) != h'.free[i + 1] {
      assert Joined(s)[i] == Span(h'.free[i], EndOf(h', h'.free[i])) && Joined(s)[i + 1].start == h'.free[i + 1];
    }
  }

  /** Two neighbours on the list, the freed block in front, the first of which ends where the second starts, are
      afterwards one block with room for both and the header between them. */
  lemma FreedNeighboursFit(h: Heap, h': Heap, m: seq<byte>, m': seq<byte>, b: nat, k: nat)
    requires HeapOk(h) && Live(h, b) && Freed(h, h', m, m', b) && k < |h.free|
    requires
      var list := [b] + h.free;
      EndOf(h, list[k]) == list[k + 1]
    ensures
      var list := [b] + h.free;
      HasFit(h', Size(h, list[k]) + HEADER + Size(h, list[k + 1]))
  {
    var s := [Span(b, EndOf(h, b))] + Spans(h);
    ListedSpansProper(h, b);
    var i := JoinedCovers(s, k);
    assert Spans(h')[i] == Span(h'.free[i], EndOf(h', h'.free[i])) == Joined(s)[i];
  }

  /** Freeing two neighbours in use, the later one first, gives one block that fits both: an allocation of that size
      does not grow the heap. */
  lemma FreedPairFits(
      h: Heap, h1: Heap, h2: Heap, m: seq<byte>, m1: seq<byte>, m2: seq<byte>, p: nat, q: nat)
    requires HeapOk(h) && Live(h, p) && Live(h, q) && EndOf(h, p) == q
    requires Freed(h, h1, m, m1, q) && Freed(h1, h2, m1, m2, p)
    ensures HasFit(h2, Size(h, p) + HEADER + Size(h, q))
  {
    LiveNotListed(h, p);
    TileBounds(h, p);
    assert H(h1, p) == H(h, p);
    assert Spans(h1)[0] == Joined([Span(q, EndOf(h, q))] + Spans(h))[0];
    ListedSpansProper(h, q);
    FirstCovers([Span(q, EndOf(h, q))] + Spans(h));
    FreedNeighboursFit(h1, h2, m1, m2, p, 0);
    var j :| 0 <= j < |h2.free| && Size(h2, h2.free[j]) >= Size(h1, p) + HEADER + Size(h1, h1.free[0]);
  }

  /** Freed the other way round, onto an empty list, they stay two blocks, though nothing lies between them: only
      neighbours in list order are joined. */
  lemma FreedInOrderStaysApart(
      h: Heap, h1: Heap, h2: Heap, m: seq<byte>, m1: seq<byte>, m2: seq<byte>, p: nat, q: nat)
    requires HeapOk(h) && Live(h, p) && Live(h, q) && EndOf(h, p) == q && h.free == []
    requires Freed(h, h1, m, m1, p) && Freed(h1, h2, m1, m2, q)
    ensures h2.free == [q, p] && !HasFit(h2, Size(h, p) + HEADER + Size(h, q))
  {
    TileBounds(h, p);
    TileBounds(h, q);
    assert H(h1, q) == H(h, q);
    assert Spans(h1) == [Span(p, q)] by {
      assert Spans(h) == [];
    }
    assert Spans(h1)[0] == Span(h1.free[0], EndOf(h1, h1.free[0]));
    var s := [Span(q, EndOf(h, q))] + Spans(h1);
    assert s == [Span(q, EndOf(h, q)), Span(p, q)] && Joined(s[1..]) == s[1..];
    assert Spans(h2) == s;
    assert Spans(h2)[0] == Span(h2.free[0], EndOf(h2, h2.free[0]));
    assert Spans(h2)[1] == Span(h2.free[1], EndOf(h2, h2.free[1]));
  }

  // ----- used size -----

  /** What a run adds to the used size and takes from it: whole blocks, headers included. */
  ghost function Taken(hs: seq<Heap>, cs: seq<Call>, n: nat): int
    requires n <= |cs| < |hs|
  {
    if n == 0 then 0 else Taken(hs, cs, n - 1) + Change(hs[n - 1], cs[n - 1], hs[n])
  }

  ghost function Change(h: Heap, c: Call, h': Heap): int {
    match c
    case Malloc(ptr, size) => if ptr >= HEADER then HEADER + Size(h', ptr - HEADER) else 0
    case Free(b) => -(HEADER + Size(h, b))
    case _ => 0
  }

  lemma {:induction false} UsedOverRun(hs: seq<Heap>, ms: seq<seq<byte>>, cs: seq<Call>, n: nat)
    requires Run(hs, ms, cs) && n <= |cs|
    ensures Used(hs[n]) == Used(hs[0]) + Taken(hs, cs, n)
  {
    if n > 0 {
      UsedOverRun(hs, ms, cs, n - 1);
      assert Does(hs[n - 1], ms[n - 1], cs[n - 1], hs[n - 1 + 1], ms[n - 1 + 1]);
      CallUses(hs[n - 1], ms[n - 1], cs[n - 1], hs[n], ms[n]);
    }
  }

  lemma CallUses(h: Heap, m: seq<byte>, c: Call, h': Heap, m': seq<byte>)
    requires Does(h, m, c, h', m')
    ensures Used(h') == Used(h) + Change(h, c, h')
  {
  }

  /** Freeing a fresh allocation restores the used size and the set of live blocks, even when the allocation grew
      the heap or split a block and the release merged blocks. The list gets back every byte but those cut off; a
      block that came from growth stays on it. */
  lemma FreeUndoesAlloc(h: Heap, h1: Heap, h2: Heap, b: nat, size: nat)
    requires HeapOk(h) && AllocEffect(h, h1, b, size) && TakesFromList(h, h1, b) && FreeEffect(h1, h2, b)
    ensures Used(h2) == Used(h) && forall t :: Live(h2, t) <==> Live(h, t)
    ensures forall a: nat :: ListedByte(h2, a) <==>
      if b in h.free then ListedByte(h, a) && !(EndOf(h1, b) <= a < EndOf(h, b))
      else ListedByte(h, a) || b <= a < EndOf(h1, b)
  {
    forall a: nat
      ensures ListedByte(h1, a) <==> ListedByte(h, a) && !(b in h.free && b <= a < EndOf(h, b))
      ensures b in h.free && b <= a < EndOf(h, b) ==> ListedByte(h, a)
    {
      TakenBytes(h, h1, b, a);
    }
  }

  lemma TakenBytes(h: Heap, h1: Heap, b: nat, a: nat)
    requires HeapOk(h) && TakesFromList(h, h1, b)
    ensures ListedByte(h1, a) <==> ListedByte(h, a) && !(b in h.free && b <= a < EndOf(h, b))
    ensures b in h.free && b <= a < EndOf(h, b) ==> ListedByte(h, a)
  {
    if b in h.free {
      var j :| 0 <= j < |h.free| && h.free[j] == b && h1.free == RemoveAt(h.free, j);
      TakenBytesAt(h, h1, j, a);
    } else {
      forall i | 0 <= i < |h.free| ensures EndOf(h1, h.free[i]) == EndOf(h, h.free[i]) {
        assert h1.free[i] in h1.free;
      }
      assert ListedByte(h1, a) <==> exists i :: 0 <= i < |h.free| && h.free[i] <= a < EndOf(h, h.free[i]);
    }
  }

  lemma TakenBytesAt(h: Heap, h1: Heap, j: nat, a: nat)
    requires HeapOk(h) && j < |h.free| && h1.free == RemoveAt(h.free, j)
    requires forall t :: t in h1.free ==> Size(h1, t) == Size(h, t)
    ensures ListedByte(h1, a) <==> ListedByte(h, a) && !(h.free[j] <= a < EndOf(h, h.free[j]))
    ensures h.free[j] <= a < EndOf(h, h.free[j]) ==> ListedByte(h, a)
  {
    if ListedByte(h1, a) {
      var k :| 0 <= k < |h1.free| && h1.free[k] <= a < EndOf(h1, h1.free[k]);
      StillListed(h, h1, j, if k < j then k else k + 1, a);
    }
    if ListedByte(h, a) && !(h.free[j] <= a < EndOf(h, h.free[j])) {
      var i :| 0 <= i < |h.free| && h.free[i] <= a < EndOf(h, h.free[i]);
      StillListed(h, h1, j, i, a);
    }
  }

  /** A byte of node i, which is not the node taken off. */
  lemma StillListed(h: Heap, h1: Heap, j: nat, i: nat, a: nat)
    requires HeapOk(h) && j < |h.free| && h1.free == RemoveAt(h.free, j) && i < |h.free| && i != j
    requires forall t :: t in h1.free ==> Size(h1, t) == Size(h, t)
    requires h.free[i] <= a < EndOf(h, h.free[i]) || h.free[i] <= a < EndOf(h1, h.free[i])
    ensures ListedByte(h1, a) && ListedByte(h, a) && !(h.free[j] <= a < EndOf(h, h.free[j]))
  {
    var k := if i < j then i else i - 1;
    assert h1.free[k] == h.free[i] && h1.free[k] in h1.free;
    assert NodeOk(h, i) && NodeOk(h, j);
    TilesApart(h, h.free[i], h.free[j]);
    assert h1.free[k] <= a < EndOf(h1, h1.free[k]);
  }

  // ----- the free list -----

  /** Freeing keeps a well-linked list exactly when the block is not on it already: after a double free no finite
      list of distinct nodes fits the links. */
  lemma FreeingKeepsAListIff(h: Heap, b: nat)
    requires HeapOk(h) && b in h.tiles
    ensures b !in h.free <==> exists f :: HeapOk(Relisted(h, b, f))
  {
    if b !in h.free {
      PushKeeps(h, b);
      assert Relisted(h, b, [b] + h.free) == Pushed(h, b);
    } else {
      var j :| 0 <= j < |h.free| && h.free[j] == b;
      forall f ensures !HeapOk(Relisted(h, b, f)) {
        if HeapOk(Relisted(h, b, f)) {
          FollowsOldList(h, b, j, f, j + 1);
        }
      }
    }
  }

  ghost function Relisted(h: Heap, b: nat, f: seq<nat>): Heap { Pushed(h, b).(free := f) }

  /** From b the links lead along the old list, back to b. */
  lemma {:induction false} FollowsOldList(h: Heap, b: nat, j: nat, f: seq<nat>, k: nat)
    requires HeapOk(h) && j < |h.free| && h.free[j] == b && k <= j + 1
    requires HeapOk(Relisted(h, b, f))
    ensures k < |f| && f[k] == if k == 0 then b else h.free[k - 1]
    ensures k <= j
  {
    NodesNotNull(h);
    if k > 0 {
      FollowsOldList(h, b, j, f, k - 1);
      assert NodeOk(Relisted(h, b, f), k - 1);
      if k > 1 {
        assert NodeOk(h, k - 2);
      }
    }
  }
}
