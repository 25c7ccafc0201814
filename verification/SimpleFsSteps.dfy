/** The calls other than read and write keep the invariants. */
module SimpleFsSteps {
  import opened Bytes
  import opened SimpleFsVolume
  import opened SimpleFsContent
  import opened SimpleFsSpec
  import opened SimpleFsWrite

  lemma EntryChain(fat: seq<FatEntry>, dir: seq<DirEntry>, free: nat, L: Layout, i: nat)
    requires VolumeOk(fat, dir, free, L) && i < |dir| && dir[i].name != []
    ensures IsChain(fat, L.chains[i]) && InRange(L.chains[i], |fat|) && Distinct(L.chains[i])
  {
    ChainsPartitionTheAllocatedBlocks(fat, dir, free, L);
    ChainInRange(fat, dir, free, L, i);
  }

  lemma FreshVolumeOk(fat: seq<FatEntry>, dir: seq<DirEntry>)
    requires DATA_START <= |fat| < END_OF_FILE
    requires forall b :: 0 <= b < DATA_START ==> fat[b] == FatEntry(END_OF_FILE, true)
    requires forall b :: DATA_START <= b < |fat| ==> fat[b] == FatEntry(0, false)
    requires forall i :: 0 <= i < |dir| ==> dir[i] == UNUSED_ENTRY
    ensures VolumeOk(fat, dir, |fat| - DATA_START, FreshLayout(|fat|, |dir|))
  {
    AllFree(fat, DATA_START);
  }

  lemma {:induction false} AllFree(fat: seq<FatEntry>, a: nat)
    requires a <= |fat| && forall b :: a <= b < |fat| ==> !fat[b].used
    ensures |set b | a <= b < |fat| && !fat[b].used| == |fat| - a
    decreases |fat| - a
  {
    var free := set b | a <= b < |fat| && !fat[b].used;
    if a < |fat| {
      AllFree(fat, a + 1);
      assert free == (set b | a + 1 <= b < |fat| && !fat[b].used) + {a};
    } else {
      assert free == {};
    }
  }

  lemma CreatedIsOk(v: Snapshot, path: CString, kind: byte, size: nat)
    requires Ok(v, size) && CreateCode(v, path) == FS_SUCCESS
    ensures v.sb.freeBlocks > 0 && Ok(Created(v, path, kind, size), size)
    ensures SizesFit(v, size) ==> SizesFit(Created(v, path, kind, size), size)
  {
    var b, i := FirstFree(v.fat, DATA_START), FirstEmpty(v.dir);
    TakeKeepsVolume(v.fat, v.dir, v.sb.freeBlocks, v.layout, b);
    var w := Created(v, path, kind, size);
    EnterKeepsVolume(w.fat, v.dir, w.sb.freeBlocks, TakeLayout(v.layout, b), i, w.dir[i]);
    assert SlotOk(v.dir, v.layout, i);
    forall f | 0 <= f < |v.fds| && v.fds[f].inUse
      ensures DescriptorOk(w.fds[f], w.dir, w.layout, w.cursors[f])
    {
      assert DescriptorOk(v.fds[f], v.dir, v.layout, v.cursors[f]);
    }
    if SizesFit(v, size) {
      forall f | 0 <= f < |w.fds| && w.fds[f].inUse ensures CursorFits(w.fds[f], w.layout, w.cursors[f], size) {
        assert DescriptorOk(v.fds[f], v.dir, v.layout, v.cursors[f]);
        assert CursorFits(v.fds[f], v.layout, v.cursors[f], size);
      }
    }
  }

  /** Giving back a block keeps the invariant exactly if nobody holds it. */
  lemma ReleaseIsOkIff(v: Snapshot, w: Snapshot, b: nat, size: nat)
    requires Ok(v, size) && DATA_START <= b < |v.fat| && v.fat[b].used
    requires w == v.(fat := ReleaseFat(v.fat, b), sb := v.sb.(freeBlocks := v.sb.freeBlocks + 1),
                     layout := ReleaseLayout(v.layout, b))
    ensures Ok(w, size) <==> HeldByNobody(v.dir, v.layout, b)
  {
    ReleaseKeepsVolumeIff(v.fat, v.dir, v.sb.freeBlocks, v.layout, b);
    forall f | 0 <= f < |v.fds| && v.fds[f].inUse ensures DescriptorOk(w.fds[f], w.dir, w.layout, w.cursors[f]) {
      assert DescriptorOk(v.fds[f], v.dir, v.layout, v.cursors[f]);
    }
  }

  lemma WriteStart(v: Snapshot, f: nat, data: seq<byte>, size: nat)
    requires Ok(v, size) && IsOpen(v, f)
    ensures OpenOk(v, f, size) && InWrite(v, v, f, data, 0, size, false)
  {
    assert DescriptorOk(v.fds[f], v.dir, v.layout, v.cursors[f]);
    var c := ChainOf(v, f);
    LastInRange(v, f, size);
    FlatLength(v.blocks, c, size);
    LandingInChain(v.fds[f], v.cursors[f], |c|, size);
    assert data[..0] == [];
    SpliceNothing(Flat(v.blocks, c), Landing(v.fds[f], v.cursors[f], size));
    assert v.fds == v.fds[f := Moved(v.fds[f], 0, v.fds[f].currentBlock)];
    assert v.cursors == v.cursors[f := v.cursors[f]];
  }

  lemma NextOnChain(v: Snapshot, f: nat, size: nat)
    requires OpenOk(v, f, size)
    ensures
      var c, place, next := ChainOf(v, f), v.cursors[f].place, v.fat[v.fds[f].currentBlock].next;
      if place + 1 < |c| then next == c[place + 1] && next != END_OF_FILE else next == END_OF_FILE
  {
    var cur := v.cursors[f];
    if cur.place + 1 < |ChainOf(v, f)| {
      assert LinkOk(v.fat, v.layout, cur.slot, cur.place + 1);
    }
  }

  /** The first block of an open file names one slot only. */
  lemma OwnSlot(v: Snapshot, f: nat, size: nat)
    requires Ok(v, size) && IsOpen(v, f)
    ensures v.cursors[f].slot < |v.dir|
    ensures forall i :: 0 <= i < |v.dir| ==> (v.dir[i].firstBlock == v.fds[f].firstBlock <==> i == v.cursors[f].slot)
  {
    var slot := v.cursors[f].slot;
    assert DescriptorOk(v.fds[f], v.dir, v.layout, v.cursors[f]);
    assert SlotOk(v.dir, v.layout, slot) && LinkOk(v.fat, v.layout, slot, 0);
    forall i | 0 <= i < |v.dir| && i != slot ensures v.dir[i].firstBlock != v.fds[f].firstBlock {
      assert SlotOk(v.dir, v.layout, i);
      assert v.dir[i].name != [] ==> LinkOk(v.fat, v.layout, i, 0);
    }
  }

  lemma ClosedIsOk(v: Snapshot, f: nat, size: nat)
    requires Ok(v, size) && IsOpen(v, f)
    ensures Ok(Closed(v, f), size)
    ensures SizesFit(v, size) ==> SizesFit(Closed(v, f), size)
  {
    var w, i := Closed(v, f), v.cursors[f].slot;
    assert DescriptorOk(v.fds[f], v.dir, v.layout, v.cursors[f]);
    ResizeKeepsVolume(v.fat, v.dir, v.sb.freeBlocks, v.layout, i, v.fds[f].fileSize);
    forall g | 0 <= g < |w.fds| && w.fds[g].inUse ensures DescriptorOk(w.fds[g], w.dir, w.layout, w.cursors[g]) {
      assert DescriptorOk(v.fds[g], v.dir, v.layout, v.cursors[g]);
    }
    if SizesFit(v, size) {
      assert CursorFits(v.fds[f], v.layout, v.cursors[f], size);
      forall g | 0 <= g < |w.fds| && w.fds[g].inUse ensures CursorFits(w.fds[g], w.layout, w.cursors[g], size) {
        assert CursorFits(v.fds[g], v.layout, v.cursors[g], size);
      }
    }
  }

  lemma OpenedIsOk(v: Snapshot, i: nat, f: nat, mode: byte, size: nat)
    requires Ok(v, size) && i < |v.dir| && f < |v.fds|
    requires v.dir[i].name != [] && v.dir[i].kind != TYPE_DIRECTORY
    ensures Ok(Opened(v, i, f, mode), size)
    ensures SizesFit(v, size) ==> SizesFit(Opened(v, i, f, mode), size)
  {
    var w := Opened(v, i, f, mode);
    ResizeKeepsVolume(v.fat, v.dir, v.sb.freeBlocks, v.layout, i, 0);
    assert SlotOk(v.dir, v.layout, i);
    forall g | 0 <= g < |w.fds| && w.fds[g].inUse ensures DescriptorOk(w.fds[g], w.dir, w.layout, w.cursors[g]) {
      if g != f {
        assert DescriptorOk(v.fds[g], v.dir, v.layout, v.cursors[g]);
      }
    }
    if SizesFit(v, size) {
      forall g | 0 <= g < |w.fds| && w.fds[g].inUse ensures CursorFits(w.fds[g], w.layout, w.cursors[g], size) {
        if g != f {
          assert CursorFits(v.fds[g], v.layout, v.cursors[g], size);
        }
      }
    }
  }
}
