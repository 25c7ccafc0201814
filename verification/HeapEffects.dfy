/** What the heap's calls do to it as a whole: the live blocks, the bytes on the free list and the used size. */
module HeapEffects {
  import opened HeapBlocks
  import opened HeapSteps

  // ----- used size -----

  ghost function Weight(h: Heap, t: nat): nat {
    if H(h, t).isFree == 0 then HEADER + Size(h, t) else 0
  }

  /** Header plus payload, summed over the live ones of the given blocks. */
  ghost function UsedIn(h: Heap, ts: seq<nat>): nat {
    if ts == [] then 0 else UsedIn(h, ts[..|ts| - 1]) + Weight(h, ts[|ts| - 1])
  }

  ghost function Used(h: Heap): nat { UsedIn(h, h.tiles) }

  lemma {:induction false} UsedSame(h: Heap, h': Heap, ts: seq<nat>)
    requires forall t :: t in ts ==> Weight(h', t) == Weight(h, t)
    ensures UsedIn(h', ts) == UsedIn(h, ts)
  {
    if ts != [] {
      UsedSame(h, h', ts[..|ts| - 1]);
    }
  }

  lemma {:induction false} UsedConcat(h: Heap, a: seq<nat>, b: seq<nat>)
    ensures UsedIn(h, a + b) == UsedIn(h, a) + UsedIn(h, b)
  {
    if b == [] {
      assert a + b == a;
    } else {
      UsedConcat(h, a, b[..|b| - 1]);
      assert (a + b)[..|a + b| - 1] == a + b[..|b| - 1];
    }
  }

  lemma UsedInsert(h: Heap, ts: seq<nat>, j: nat, x: nat)
    requires j <= |ts|
    ensures UsedIn(h, InsertAt(ts, j, x)) == UsedIn(h, ts) + Weight(h, x)
  {
    UsedConcat(h, ts[..j] + [x], ts[j..]);
    UsedConcat(h, ts[..j], [x]);
    UsedConcat(h, ts[..j], ts[j..]);
    UsedOne(h, x);
    assert ts == ts[..j] + ts[j..];
  }

  lemma UsedOne(h: Heap, x: nat)
    ensures UsedIn(h, [x]) == Weight(h, x)
  {
    assert [x][..0] == [];
  }

  lemma UsedRemove(h: Heap, ts: seq<nat>, j: nat)
    requires j < |ts|
    ensures UsedIn(h, ts) == UsedIn(h, RemoveAt(ts, j)) + Weight(h, ts[j])
  {
    UsedInsert(h, RemoveAt(ts, j), j, ts[j]);
    assert InsertAt(RemoveAt(ts, j), j, ts[j]) == ts;
  }

  /** When one block changes its weight, the sum changes by as much. */
  lemma UsedChangeOne(h: Heap, h': Heap, ts: seq<nat>, j: nat)
    requires NoRepeats(ts) && j < |ts|
    requires forall t :: t in ts && t != ts[j] ==> Weight(h', t) == Weight(h, t)
    ensures UsedIn(h', ts) + Weight(h, ts[j]) == UsedIn(h, ts) + Weight(h', ts[j])
  {
    UsedRemove(h, ts, j);
    UsedRemove(h', ts, j);
    forall t | t in RemoveAt(ts, j) ensures Weight(h', t) == Weight(h, t) {
      RemovedMember(ts, j, t);
    }
    UsedSame(h, h', RemoveAt(ts, j));
  }

  lemma UnlinkUses(h: Heap, j: nat)
    requires HeapOk(h) && j < |h.free|
    ensures Used(Unlinked(h, j)) == Used(h) + HEADER + Size(h, h.free[j])
  {
    UnlinkedHeaders(h, j);
    TilesNoRepeats(h);
    assert NodeOk(h, j);
    var i :| 0 <= i < |h.tiles| && h.tiles[i] == h.free[j];
    UsedChangeOne(h, Unlinked(h, j), h.tiles, i);
  }

  lemma CutOffWeighsNothing(s: Heap, ts: seq<nat>, j: nat, n: nat)
    requires j <= |ts| && s.tiles == InsertAt(ts, j, n) && H(s, n).isFree == 1
    ensures Used(s) == UsedIn(s, ts)
  {
    UsedInsert(s, ts, j, n);
  }

  lemma SplitUses(h: Heap, i: nat, size: nat, s: Heap)
    requires HeapOk(h) && i < |h.tiles| && SplitDone(h, i, size, s) && H(h, h.tiles[i]).isFree == 0
    ensures Used(s) + Size(h, h.tiles[i]) == Used(h) + size
  {
    CutOffWeighsNothing(s, h.tiles, i + 1, h.tiles[i] + HEADER + size);
    TilesNoRepeats(h);
    UsedChangeOne(h, s, h.tiles, i);
  }

  lemma PushUses(h: Heap, b: nat)
    requires HeapOk(h) && b in h.tiles && b !in h.free
    ensures Used(Pushed(h, b)) + Weight(h, b) == Used(h)
  {
    PushKeeps(h, b);
    TilesNoRepeats(h);
    var i :| 0 <= i < |h.tiles| && h.tiles[i] == b;
    UsedChangeOne(h, Pushed(h, b), h.tiles, i);
  }

  lemma MergeUses(h: Heap, i: nat, j: nat)
    requires HeapOk(h) && Mergeable(h, i, j)
    ensures Used(Merged(h, i, j)) == Used(h)
  {
    var h' := Merged(h, i, j);
    MergeKeeps(h, i, j);
    MergedHeaders(h, i, j);
    MergedMembers(h, i, j);
    assert NodeOk(h, j) && NodeOk(h, j + 1) && NodeOk(h', j);
    UsedRemove(h, h.tiles, i + 1);
    UsedSame(h, h', h'.tiles);
  }

  // ----- the bytes on the free list -----

  ghost predicate ListedByte(h: Heap, a: nat) {
    exists j :: 0 <= j < |h.free| && h.free[j] <= a < EndOf(h, h.free[j])
  }

  lemma MergeCoversOld(h: Heap, i: nat, j: nat, a: nat)
    requires HeapOk(h) && Mergeable(h, i, j) && ListedByte(h, a)
    ensures ListedByte(Merged(h, i, j), a)
  {
    var h' := Merged(h, i, j);
    MergedHeaders(h, i, j);
    assert TileOk(h, i);
    var k :| 0 <= k < |h.free| && h.free[k] <= a < EndOf(h, h.free[k]);
    assert NodeOk(h, k);
    var k' := if k <= j then k else k - 1;
    assert h'.free[k'] == if k == j + 1 then h.free[j] else h.free[k];
    assert h'.free[k'] <= a < EndOf(h', h'.free[k']);
  }

  lemma MergeCoversNew(h: Heap, i: nat, j: nat, a: nat)
    requires HeapOk(h) && Mergeable(h, i, j) && ListedByte(Merged(h, i, j), a)
    ensures ListedByte(h, a)
  {
    var h' := Merged(h, i, j);
    MergedHeaders(h, i, j);
    assert TileOk(h, i);
    var k :| 0 <= k < |h'.free| && h'.free[k] <= a < EndOf(h', h'.free[k]);
    var k0 := if k <= j then k else k + 1;
    assert NodeOk(h, k0) && h'.free[k] == h.free[k0];
    if k == j && a >= EndOf(h, h.free[j]) {
      assert h.free[j + 1] <= a < EndOf(h, h.free[j + 1]);
    } else {
      assert h.free[k0] <= a < EndOf(h, h.free[k0]);
    }
  }

  lemma MergeCovers(h: Heap, i: nat, j: nat, a: nat)
    requires HeapOk(h) && Mergeable(h, i, j)
    ensures ListedByte(Merged(h, i, j), a) <==> ListedByte(h, a)
  {
    if ListedByte(h, a) {
      MergeCoversOld(h, i, j, a);
    }
    if ListedByte(Merged(h, i, j), a) {
      MergeCoversNew(h, i, j, a);
    }
  }

  // ----- coalescing -----

  /** h came from h0 by merging listed blocks: blocks outside the list are exactly the same, listed blocks
      cover the same bytes, and the used size is the same. */
  ghost predicate Absorbed(h0: Heap, h: Heap) {
    true == (
      && HeapOk(h) && h.start == h0.start && h.end == h0.end
      && (forall t :: t in h0.tiles && t !in h0.free ==> t in h.tiles && t !in h.free && H(h, t) == H(h0, t))
      && (forall t :: t in h.tiles ==> t in h0.tiles)
      && (forall t :: t in h.free ==> t in h0.free)
      && (forall t :: t in h.tiles && t in h0.free ==> t in h.free)
      && Used(h) == Used(h0)
      && (forall a: nat :: ListedByte(h, a) <==> ListedByte(h0, a)))
  }

  lemma AbsorbOneMore(h0: Heap, h: Heap, i: nat, j: nat)
    requires HeapOk(h0) && Absorbed(h0, h) && Mergeable(h, i, j)
    ensures Absorbed(h0, Merged(h, i, j))
  {
    var h' := Merged(h, i, j);
    MergeKeeps(h, i, j);
    MergedHeaders(h, i, j);
    MergedMembers(h, i, j);
    MergeUses(h, i, j);
    assert NodeOk(h, j + 1);
    forall t ensures t in h'.free <==> t in h.free && t != h.free[j + 1] {
      RemovedMember(h.free, j + 1, t);
    }
    forall a: nat ensures ListedByte(h', a) <==> ListedByte(h0, a) {
      MergeCovers(h, i, j, a);
    }
  }

  // ----- whole calls -----

  /** Blocks outside the free list that do not take part keep their place and their header. */
  ghost predicate KeepsUnlisted(h: Heap, h': Heap, but: nat) {
    forall t :: t in h.tiles && t !in h.free && t != but ==> t in h'.tiles && t !in h'.free && H(h', t) == H(h, t)
  }

  /** b is a new live block of at least size bytes; the other live blocks and the blocks cut off earlier are
      as they were. */
  ghost predicate AllocEffect(h: Heap, h': Heap, b: nat, size: nat) {
    && HeapOk(h') && h'.start == h.start && h'.end >= h.end
    && !Live(h, b) && Live(h', b) && b !in h'.free && b % 8 == 0 && Size(h', b) >= size
    && (forall t :: Live(h', t) <==> Live(h, t) || t == b)
    && !(b in h.tiles && b !in h.free)
    && KeepsUnlisted(h, h', 0)
    && Used(h') == Used(h) + HEADER + Size(h', b)
  }

  /** The live block b is gone from the live ones; its bytes are on the free list. */
  ghost predicate FreeEffect(h: Heap, h': Heap, b: nat) {
    && HeapOk(h') && h'.start == h.start && h'.end == h.end
    && (forall t :: Live(h', t) <==> Live(h, t) && t != b)
    && KeepsUnlisted(h, h', b)
    && Used(h') + HEADER + Size(h, b) == Used(h)
    && (forall a: nat :: ListedByte(h', a) <==> ListedByte(h, a) || b <= a < EndOf(h, b))
  }

  lemma PushIsFree(h: Heap, b: nat, h': Heap)
    requires HeapOk(h) && Live(h, b) && Absorbed(Pushed(h, b), h')
    ensures FreeEffect(h, h', b)
  {
    LiveNotListed(h, b);
    PushKeeps(h, b);
    PushUses(h, b);
    var p := Pushed(h, b);
    forall t ensures Live(h', t) <==> Live(h, t) && t != b {
      if t in h.tiles && t !in h.free && t != b {
        assert t !in p.free;
      } else if t in h.free {
        assert t in p.free;
        ListedNotLive(h, t);
        if t in h'.free {
          ListedNotLive(h', t);
        }
      } else if t == b && t in h'.free {
        ListedNotLive(h', t);
      }
    }
    forall a: nat ensures ListedByte(p, a) <==> ListedByte(h, a) || b <= a < EndOf(h, b) {
      PushCovers(h, b, a);
    }
  }

  lemma LiveNotListed(h: Heap, b: nat)
    requires HeapOk(h) && Live(h, b)
    ensures b !in h.free
  {
    forall j | 0 <= j < |h.free| ensures h.free[j] != b {
      assert NodeOk(h, j);
    }
  }

  lemma ListedNotLive(h: Heap, t: nat)
    requires HeapOk(h) && t in h.free
    ensures t in h.tiles && H(h, t).isFree == 1
  {
    var j :| 0 <= j < |h.free| && h.free[j] == t;
    assert NodeOk(h, j);
  }

  lemma PushCovers(h: Heap, b: nat, a: nat)
    requires HeapOk(h) && b in h.tiles && b !in h.free
    ensures ListedByte(Pushed(h, b), a) <==> ListedByte(h, a) || b <= a < EndOf(h, b)
  {
    PushKeeps(h, b);
    var p := Pushed(h, b);
    if ListedByte(h, a) {
      var j :| 0 <= j < |h.free| && h.free[j] <= a < EndOf(h, h.free[j]);
      assert NodeOk(h, j);
      assert p.free[j + 1] <= a < EndOf(p, p.free[j + 1]);
    }
    if b <= a < EndOf(h, b) {
      assert p.free[0] <= a < EndOf(p, p.free[0]);
    }
    if ListedByte(p, a) {
      var j :| 0 <= j < |p.free| && p.free[j] <= a < EndOf(p, p.free[j]);
      if j > 0 {
        assert NodeOk(h, j - 1);
        assert h.free[j - 1] <= a < EndOf(h, h.free[j - 1]);
      }
    }
  }

  /** A listed block of at least size bytes, taken off the list, is an allocation. */
  lemma UnlinkIsAlloc(h: Heap, j: nat, size: nat)
    requires HeapOk(h) && j < |h.free| && Size(h, h.free[j]) >= size
    ensures AllocEffect(h, Unlinked(h, j), h.free[j], size)
  {
    var h', b := Unlinked(h, j), h.free[j];
    UnlinkKeeps(h, j);
    UnlinkedHeaders(h, j);
    UnlinkUses(h, j);
    TileBounds(h, b);
    assert NodeOk(h, j);
    forall t ensures t in h'.free <==> t in h.free && t != b {
      RemovedMember(h.free, j, t);
    }
  }

  /** Splitting the block just allocated keeps it an allocation. */
  lemma SplitIsAlloc(h: Heap, h': Heap, i: nat, size: nat, s: Heap)
    requires HeapOk(h) && HeapOk(h') && i < |h'.tiles| && AllocEffect(h, h', h'.tiles[i], size)
    requires SplitDone(h', i, size, s)
    ensures AllocEffect(h, s, h'.tiles[i], size)
  {
    SplitUses(h', i, size, s);
  }
}
