/** The write loop of SimpleFS, round by round, on snapshots of the state. */
module SimpleFsWrite {
  import opened Bytes
  import opened SimpleFsVolume
  import opened SimpleFsContent
  import opened SimpleFsSpec

  /** A descriptor together with what the invariant says about it. */
  ghost predicate OpenOk(v: Snapshot, f: nat, size: nat) {
    && Ok(v, size) && IsOpen(v, f) && DescriptorOk(v.fds[f], v.dir, v.layout, v.cursors[f])
    && LinkOk(v.fat, v.layout, v.cursors[f].slot, v.cursors[f].place)
  }

  ghost function ChainOf(v: Snapshot, f: nat): seq<nat>
    requires f < |v.cursors| && v.cursors[f].slot < |v.layout.chains|
  {
    v.layout.chains[v.cursors[f].slot]
  }

  /** How many bytes one round stores: what is left, or what fits in the block. */
  function Chunk(u: Descriptor, left: nat, size: nat): nat
    requires size > 0
  {
    Min(left, size - u.position % size)
  }

  /** The first half of a round: a piece of data is copied into the current block. */
  ghost function Stored(v: Snapshot, f: nat, piece: seq<byte>, size: nat): Snapshot
    requires f < |v.fds| && v.fds[f].currentBlock < |v.blocks| && size > 0
  {
    var u := v.fds[f];
    var b, end := u.currentBlock, u.position + |piece|;
    v.(blocks := v.blocks[b := Splice(v.blocks[b], u.position % size, piece)],
       fds := v.fds[f := u.(position := end, fileSize := Max(u.fileSize, end))])
  }

  lemma StoredIsOk(v: Snapshot, f: nat, piece: seq<byte>, size: nat)
    requires OpenOk(v, f, size)
    requires |piece| <= size - v.fds[f].position % size
    ensures OpenOk(Stored(v, f, piece, size), f, size)
  {
    var w := Stored(v, f, piece, size);
    forall g | 0 <= g < |w.fds| && w.fds[g].inUse ensures DescriptorOk(w.fds[g], w.dir, w.layout, w.cursors[g]) {
      assert DescriptorOk(v.fds[g], v.dir, v.layout, v.cursors[g]);
    }
  }

  ghost predicate CanStep(v: Snapshot, f: nat)
    requires f < |v.cursors| && v.cursors[f].slot < |v.layout.chains|
  {
    v.cursors[f].place + 1 < |ChainOf(v, f)| || v.sb.freeBlocks > 0
  }

  /** The second half of a round: on to the next block of the chain, taking the lowest free block
      when the chain ends here. */
  ghost function Stepped(v: Snapshot, f: nat, size: nat): Snapshot
    requires OpenOk(v, f, size) && CanStep(v, f)
  {
    var u, cur, c := v.fds[f], v.cursors[f], ChainOf(v, f);
    if cur.place + 1 < |c| then
      v.(fds := v.fds[f := u.(currentBlock := c[cur.place + 1])],
         cursors := v.cursors[f := Cursor(cur.slot, cur.place + 1)])
    else
      HasFree(v.fat);
      var b := FirstFree(v.fat, DATA_START);
      var L := TakeLayout(v.layout, b);
      LastInRange(v, f, size);
      v.(fat := LinkFat(TakeFat(v.fat, b), L, cur.slot, b),
         sb := v.sb.(freeBlocks := v.sb.freeBlocks - 1),
         layout := LinkLayout(L, cur.slot, b),
         fds := v.fds[f := u.(currentBlock := b)],
         cursors := v.cursors[f := Cursor(cur.slot, cur.place + 1)])
  }

  lemma HasFree(fat: seq<FatEntry>)
    requires |fat| >= DATA_START
    ensures |FreeSet(fat)| > 0 ==> FirstFree(fat, DATA_START) < |fat|
  {
    if FirstFree(fat, DATA_START) == |fat| {
      assert FreeSet(fat) == {};
    }
  }

  lemma LastInRange(v: Snapshot, f: nat, size: nat)
    requires OpenOk(v, f, size)
    ensures var c := ChainOf(v, f); c != [] && InRange(c, |v.fat|) && Distinct(c)
  {
    ChainInRange(v.fat, v.dir, v.sb.freeBlocks, v.layout, v.cursors[f].slot);
  }

  lemma SteppedIsOk(v: Snapshot, f: nat, size: nat)
    requires OpenOk(v, f, size) && CanStep(v, f)
    ensures OpenOk(Stepped(v, f, size), f, size)
    ensures SlotOk(v.dir, v.layout, v.cursors[f].slot)
  {
    var w := Stepped(v, f, size);
    var cur, c := v.cursors[f], ChainOf(v, f);
    if cur.place + 1 == |c| {
      HasFree(v.fat);
      var b := FirstFree(v.fat, DATA_START);
      TakeKeepsVolume(v.fat, v.dir, v.sb.freeBlocks, v.layout, b);
      LinkKeepsVolume(TakeFat(v.fat, b), v.dir, v.sb.freeBlocks - 1, TakeLayout(v.layout, b), cur.slot, b);
    }
    forall g | 0 <= g < |w.fds| && w.fds[g].inUse ensures DescriptorOk(w.fds[g], w.dir, w.layout, w.cursors[g]) {
      assert DescriptorOk(v.fds[g], v.dir, v.layout, v.cursors[g]);
    }
  }

  // ----- the loop's invariant -----

  /** After storing done bytes of data, starting from v. With stop, the last round found no free block. */
  ghost predicate WriteProgress(v: Snapshot, w: Snapshot, f: nat, data: seq<byte>, done: nat, size: nat, stop: bool)
    requires OpenOk(v, f, size)
  {
    var u, cur := v.fds[f], v.cursors[f];
    && OpenOk(w, f, size)
    && done <= |data|
    && WriteSoFar(v, w, f, data[..done], size)
    && Phase(
         u.position, cur.place, w.cursors[f].place, |ChainOf(w, f)|, Landing(u, cur, size), done, |data|, size, stop)
    && (stop ==> w.sb.freeBlocks == 0)
  }

  /** The invariant as one fact, for the loop to pass on without looking inside. */
  ghost predicate InWrite(v: Snapshot, w: Snapshot, f: nat, data: seq<byte>, done: nat, size: nat, stop: bool)
    requires OpenOk(v, f, size)
  {
    true == WriteProgress(v, w, f, data, done, size, stop)
  }

  /** What has happened to the state once the bytes d are stored. */
  ghost predicate WriteSoFar(v: Snapshot, w: Snapshot, f: nat, d: seq<byte>, size: nat)
    requires OpenOk(v, f, size) && OpenOk(w, f, size)
  {
    var u, cur := v.fds[f], v.cursors[f];
    && w.cursors == v.cursors[f := Cursor(cur.slot, w.cursors[f].place)]
    && w.fds == v.fds[f := Moved(u, |d|, w.fds[f].currentBlock)]
    && ChainGrown(v, w, cur.slot)
    && |ChainOf(w, f)| == Max(|ChainOf(v, f)|, w.cursors[f].place + 1)
    && BytesSpliced(v, w, ChainOf(w, f), Landing(u, cur, size), d)
  }

  /** How the cursor's place, the chain's length and the bytes stored fit together. */
  ghost predicate Phase(
      pos: nat, place0: nat, place: nat, length: nat, q: nat, done: nat, total: nat, size: nat, stop: bool)
    requires size > 0
  {
    && (done == 0 ==> place == place0)
    && (done < total && !stop ==> Start(place, size) + (pos + done) % size == q + done)
    && (done > 0 && (done == total || stop) ==> Start(place, size) < q + done <= Start(place, size) + size)
    && (stop ==> done > 0 && place + 1 == length && q + done == Start(place, size) + size)
  }

  lemma PhaseAdvance(
      pos: nat, place0: nat, place: nat, length: nat, length': nat, q: nat, done: nat, n: nat, total: nat, size: nat)
    requires size > 0 && done < total && Phase(pos, place0, place, length, q, done, total, size, false)
    requires n == Min(total - done, size - (pos + done) % size)
    ensures n > 0
    ensures
      var crossing := done + n < total && (pos + done + n) % size == 0;
      && (!crossing ==> Phase(pos, place0, place, length, q, done + n, total, size, false))
      && (crossing && place + 1 == length ==> Phase(pos, place0, place, length, q, done + n, total, size, true))
      && (crossing ==> Phase(pos, place0, place + 1, length', q, done + n, total, size, false))
  {
    OffsetAdvance(pos + done, n, size);
    assert pos + (done + n) == pos + done + n;
  }

  ghost function Moved(u: Descriptor, done: nat, block: nat): Descriptor {
    u.(position := u.position + done, currentBlock := block,
       fileSize := if done == 0 then u.fileSize else Max(u.fileSize, u.position + done))
  }

  /** Storing a piece keeps what was stored before and extends it by the piece. */
  lemma StoreExtendsSplice(v: Snapshot, w: Snapshot, f: nat, q: nat, data: seq<byte>, done: nat, n: nat, size: nat)
    requires OpenOk(w, f, size) && |v.blocks| == |w.blocks|
    requires done + n <= |data| && n <= size - w.fds[f].position % size
    requires BytesSpliced(v, w, ChainOf(w, f), q, data[..done])
    requires Start(w.cursors[f].place, size) + w.fds[f].position % size == q + done
    ensures BytesSpliced(v, Stored(w, f, data[done..done + n], size), ChainOf(w, f), q, data[..done + n])
  {
    var c, place, piece := ChainOf(w, f), w.cursors[f].place, data[done..done + n];
    var s := Stored(w, f, piece, size);
    LastInRange(w, f, size);
    FlatPoke(w.blocks, s.blocks, c, size, place, w.fds[f].position % size, piece);
    SpliceMore(Flat(v.blocks, c), Flat(w.blocks, c), Flat(s.blocks, c), q, data[..done], piece);
    JoinSlices(data, done, n);
  }

  lemma JoinSlices(data: seq<byte>, done: nat, n: nat)
    requires done + n <= |data|
    ensures data[..done] + data[done..done + n] == data[..done + n]
  {
  }

  lemma SpliceMore(F: seq<byte>, G: seq<byte>, H: seq<byte>, q: nat, d: seq<byte>, e: seq<byte>)
    requires q + |d| <= |F| && G == Splice(F, q, d)
    requires q + |d| + |e| <= |G| && H == Splice(G, q + |d|, e)
    ensures q + |d + e| <= |F| && H == Splice(F, q, d + e)
  {
    SpliceTwice(F, q, d, e);
  }

  /** Linking a fresh block adds its old bytes at the end of both the old and the new content. */
  lemma GrowthKeepsSplice(v: Snapshot, w: Snapshot, c: seq<nat>, b: nat, q: nat, d: seq<byte>)
    requires BytesSpliced(v, w, c, q, d) && b < |w.blocks| && b !in c
    ensures BytesSpliced(v, w, c + [b], q, d)
  {
    FlatSnoc(v.blocks, c, b);
    FlatSnoc(w.blocks, c, b);
    SpliceUnderTail(Flat(v.blocks, c), v.blocks[b], q, d);
  }

  /** The first half of a round keeps the loop's invariant, up to the phase. */
  lemma RoundStores(v: Snapshot, w: Snapshot, f: nat, data: seq<byte>, done: nat, n: nat, size: nat)
    requires OpenOk(v, f, size) && WriteProgress(v, w, f, data, done, size, false) && done < |data|
    requires n == Chunk(w.fds[f], |data| - done, size)
    ensures n > 0 && OpenOk(Stored(w, f, data[done..done + n], size), f, size)
    ensures WriteSoFar(v, Stored(w, f, data[done..done + n], size), f, data[..done + n], size)
  {
    var u, cur := v.fds[f], v.cursors[f];
    var piece := data[done..done + n];
    var s := Stored(w, f, piece, size);
    assert w.fds[f].position == u.position + done;
    StoreExtendsSplice(v, w, f, Landing(u, cur, size), data, done, n, size);
    StoredIsOk(w, f, piece, size);
    assert s.fds == v.fds[f := Moved(u, done + n, w.fds[f].currentBlock)];
  }

  ghost predicate Crossing(u: Descriptor, n: nat, left: nat, size: nat)
    requires size > 0
  {
    n < left && (u.position + n) % size == 0
  }

  /** A round that stays in its block, or finds no free block, keeps the loop's invariant. */
  lemma RoundStays(v: Snapshot, w: Snapshot, f: nat, data: seq<byte>, done: nat, n: nat, size: nat)
    requires OpenOk(v, f, size) && WriteProgress(v, w, f, data, done, size, false) && done < |data|
    requires n == Chunk(w.fds[f], |data| - done, size)
    requires Crossing(w.fds[f], n, |data| - done, size) ==> !CanStep(w, f)
    ensures WriteProgress(v, Stored(w, f, data[done..done + n], size), f, data, done + n, size,
                          Crossing(w.fds[f], n, |data| - done, size))
  {
    RoundStores(v, w, f, data, done, n, size);
    var u, cur := v.fds[f], v.cursors[f];
    PhaseAdvance(u.position, cur.place, w.cursors[f].place, |ChainOf(w, f)|, 0,
                 Landing(u, cur, size), done, n, |data|, size);
  }

  /** A round that uses up its block and goes on keeps the loop's invariant. */
  lemma RoundSteps(v: Snapshot, w: Snapshot, s: Snapshot, f: nat, data: seq<byte>, done: nat, n: nat, size: nat)
    requires OpenOk(v, f, size) && InWrite(v, w, f, data, done, size, false) && done < |data|
    requires n == Chunk(w.fds[f], |data| - done, size)
    requires Crossing(w.fds[f], n, |data| - done, size) && CanStep(w, f)
    requires s == Stored(w, f, data[done..done + n], size)
    ensures OpenOk(s, f, size) && CanStep(s, f) && done + n <= |data|
    ensures InWrite(v, Stepped(s, f, size), f, data, done + n, size, false)
  {
    RoundStores(v, w, f, data, done, n, size);
    var u, cur := v.fds[f], v.cursors[f];
    var t := Stepped(s, f, size);
    SteppedIsOk(s, f, size);
    StepKeeps(v, s, f, data[..done + n], size);
    SteppedPlace(s, f, size);
    RoundPhase(v, w, f, t.cursors[f].place, |ChainOf(t, f)|, data, done, n, size);
    Assemble(v, t, f, data, done + n, size);
  }

  lemma SteppedPlace(s: Snapshot, f: nat, size: nat)
    requires OpenOk(s, f, size) && CanStep(s, f)
    ensures Stepped(s, f, size).cursors[f].place == s.cursors[f].place + 1
  {
  }

  lemma RoundPhase(v: Snapshot, w: Snapshot, f: nat, place: nat, length: nat, data: seq<byte>, done: nat, n: nat,
      size: nat)
    requires OpenOk(v, f, size) && InWrite(v, w, f, data, done, size, false) && done < |data|
    requires n == Chunk(w.fds[f], |data| - done, size)
    requires Crossing(w.fds[f], n, |data| - done, size) && place == w.cursors[f].place + 1
    ensures var u, cur := v.fds[f], v.cursors[f];
      Phase(u.position, cur.place, place, length, Landing(u, cur, size), done + n, |data|, size, false)
  {
    var u, cur := v.fds[f], v.cursors[f];
    PhaseAdvance(u.position, cur.place, w.cursors[f].place, |ChainOf(w, f)|, length,
                 Landing(u, cur, size), done, n, |data|, size);
  }

  lemma Assemble(v: Snapshot, t: Snapshot, f: nat, data: seq<byte>, done: nat, size: nat)
    requires OpenOk(v, f, size) && OpenOk(t, f, size) && done <= |data|
    requires WriteSoFar(v, t, f, data[..done], size)
    requires var u, cur := v.fds[f], v.cursors[f];
      Phase(
        u.position, cur.place, t.cursors[f].place, |ChainOf(t, f)|, Landing(u, cur, size), done, |data|, size, false)
    ensures InWrite(v, t, f, data, done, size, false)
  {
  }

  lemma StepKeeps(v: Snapshot, s: Snapshot, f: nat, d: seq<byte>, size: nat)
    requires OpenOk(v, f, size) && OpenOk(s, f, size) && CanStep(s, f) && OpenOk(Stepped(s, f, size), f, size)
    requires WriteSoFar(v, s, f, d, size)
    ensures WriteSoFar(v, Stepped(s, f, size), f, d, size)
  {
    var t, cur, c := Stepped(s, f, size), v.cursors[f], ChainOf(s, f);
    assert t.cursors == v.cursors[f := t.cursors[f]];
    assert t.fds == v.fds[f := Moved(v.fds[f], |d|, t.fds[f].currentBlock)];
    if s.cursors[f].place + 1 == |c| {
      NewBlockKeeps(v, s, f, d, size);
    }
  }

  /** The case of a block newly linked in. */
  lemma NewBlockKeeps(v: Snapshot, s: Snapshot, f: nat, d: seq<byte>, size: nat)
    requires OpenOk(v, f, size) && OpenOk(s, f, size) && CanStep(s, f) && v.cursors[f].slot == s.cursors[f].slot
    requires s.cursors[f].place + 1 == |ChainOf(s, f)|
    requires ChainGrown(v, s, s.cursors[f].slot)
    requires BytesSpliced(v, s, ChainOf(s, f), Landing(v.fds[f], v.cursors[f], size), d)
    ensures
      var t, slot := Stepped(s, f, size), s.cursors[f].slot;
      && slot < |t.layout.chains| && |t.layout.chains[slot]| == |ChainOf(s, f)| + 1
      && ChainGrown(v, t, slot)
      && BytesSpliced(v, t, t.layout.chains[slot], Landing(v.fds[f], v.cursors[f], size), d)
  {
    var t, c, b := Stepped(s, f, size), ChainOf(s, f), FirstFree(s.fat, DATA_START);
    HasFree(s.fat);
    FreeIsOffChain(s, f, b, size);
    GrowthKeepsSplice(v, s, c, b, Landing(v.fds[f], v.cursors[f], size), d);
    assert BytesSpliced(v, t, c + [b], Landing(v.fds[f], v.cursors[f], size), d);
    GrowthIsGrowth(v, s, f, b, size);
  }

  lemma FreeIsOffChain(s: Snapshot, f: nat, b: nat, size: nat)
    requires OpenOk(s, f, size) && DATA_START <= b < |s.fat| && !s.fat[b].used
    ensures b !in ChainOf(s, f)
  {
    var c, slot := ChainOf(s, f), s.cursors[f].slot;
    forall k | 0 <= k < |c| ensures c[k] != b {
      assert LinkOk(s.fat, s.layout, slot, k) && OwnerOk(s.fat, s.layout, c[k]);
    }
  }

  lemma GrowthIsGrowth(v: Snapshot, s: Snapshot, f: nat, b: nat, size: nat)
    requires OpenOk(v, f, size) && OpenOk(s, f, size) && v.cursors[f].slot == s.cursors[f].slot
    requires ChainGrown(v, s, s.cursors[f].slot)
    requires s.cursors[f].place + 1 == |ChainOf(s, f)| && s.sb.freeBlocks > 0
    requires b == FirstFree(s.fat, DATA_START) < |s.fat| && b !in ChainOf(s, f)
    ensures ChainGrown(v, Stepped(s, f, size), s.cursors[f].slot)
  {
    var c, slot := ChainOf(s, f), s.cursors[f].slot;
    var t := Stepped(s, f, size);
    LastInRange(s, f, size);
    assert t.layout.chains[slot] == c + [b];
    assert c[|c| - 1] in c + [b] && b in c + [b];
    forall x | 0 <= x < |v.fat| && x !in c + [b] ensures t.fat[x] == v.fat[x] && t.layout.own[x] == v.layout.own[x] {
      assert x !in c && x != b && x != c[|c| - 1];
    }
  }

  /** The loop ends with everything stored or with no free block left. */
  lemma WriteFinish(v: Snapshot, w: Snapshot, f: nat, data: seq<byte>, done: nat, size: nat, stop: bool)
    requires OpenOk(v, f, size) && InWrite(v, w, f, data, done, size, stop)
    requires done == |data| || stop
    ensures Ok(w, size) && WriteEffect(v, w, f, data, size, done)
  {
    var u, cur := v.fds[f], v.cursors[f];
    var q := Landing(u, cur, size);
    var c, c', place := ChainOf(v, f), ChainOf(w, f), w.cursors[f].place;
    var limit := |c| + v.sb.freeBlocks;
    if place + 1 < limit {
      StartMonotone(place, limit, size);
    }
    if done == 0 {
      StartMonotone(cur.place, limit, size);
    }
    assert WriteCursor(v, w, f, place, q, done, size);
  }
}
