/** The on-disk structures of SimpleFS (fs/simplefs.h) and the ownership discipline of its file
    allocation table: which block belongs to which directory entry, and at which place in its chain. */
module SimpleFsVolume {

  import opened Bytes

  /** A C string: bytes without the terminating zero. */
  type CString = s: seq<byte> | 0 !in s

  const END_OF_FILE: nat := 0xFFFF_FFFF
  const DATA_START: nat := 3
  const FS_MAGIC: nat := 0xC1ADEF
  const MAX_FILENAME: nat := 56
  const TYPE_FILE: byte := 0
  const TYPE_DIRECTORY: byte := 1

  /** The packed sizes in bytes of a FAT entry, of a directory slot and of the superblock's fields. */
  const FAT_ENTRY_SIZE: nat := 8
  const DIR_ENTRY_SIZE: nat := 68
  const SUPERBLOCK_FIELDS: nat := 32

  /** Each table fits in the block it is given: superblock, FAT and directory share no byte. */
  predicate TablesFit(blockCount: nat, slots: nat, size: nat) {
    SUPERBLOCK_FIELDS <= size && FAT_ENTRY_SIZE * blockCount <= size && DIR_ENTRY_SIZE * slots <= size
  }

  datatype FatEntry = FatEntry(next: nat, used: bool)

  /** A directory slot; it counts as free when its name is empty. */
  datatype DirEntry = DirEntry(name: seq<byte>, firstBlock: nat, size: nat, kind: byte)

  datatype Superblock = Superblock(
    magic: nat, totalBlocks: nat, freeBlocks: nat, rootDirBlock: nat,
    fatBlock: nat, dataStart: nat, maxFiles: nat, blockSize: nat)

  /** Who holds a data block. A leaked block is allocated but belongs to no named entry. */
  datatype Owner = Unowned | Leaked | Owned(slot: nat, index: nat)

  /** For each directory slot the blocks of its chain in order, and for each block its owner. */
  datatype Layout = Layout(chains: seq<seq<nat>>, own: seq<Owner>)

  const UNUSED_ENTRY := DirEntry([], 0, 0, TYPE_FILE)

  ghost function FreeSet(fat: seq<FatEntry>): set<nat> {
    set b | DATA_START <= b < |fat| && !fat[b].used
  }

  /** Block b sits in slot i's chain at place k, and its FAT link leads to the next place or ends the file. */
  ghost predicate LinkOk(fat: seq<FatEntry>, L: Layout, i: nat, k: nat)
    requires i < |L.chains| && k < |L.chains[i]| && |L.own| == |fat|
  {
    var c := L.chains[i];
    && DATA_START <= c[k] < |fat|
    && L.own[c[k]] == Owned(i, k)
    && fat[c[k]].next == (if k + 1 < |c| then c[k + 1] else END_OF_FILE)
  }

  ghost predicate OwnerOk(fat: seq<FatEntry>, L: Layout, b: nat)
    requires b < |fat| && |L.own| == |fat|
  {
    match L.own[b]
    case Unowned => fat[b] == FatEntry(0, false)
    case Leaked => fat[b] == FatEntry(END_OF_FILE, true)
    case Owned(i, k) => fat[b].used && i < |L.chains| && k < |L.chains[i]| && L.chains[i][k] == b
  }

  ghost predicate SlotOk(dir: seq<DirEntry>, L: Layout, i: nat)
    requires i < |dir| && |L.chains| == |dir|
  {
    if dir[i].name == [] then
      && L.chains[i] == []
      && (dir[i].firstBlock < DATA_START || (dir[i].firstBlock < |L.own| && L.own[dir[i].firstBlock] == Leaked))
    else
      L.chains[i] != [] && L.chains[i][0] == dir[i].firstBlock
  }

  /** The invariant of the allocation table, the root directory and the free-block counter. */
  ghost predicate VolumeOk(fat: seq<FatEntry>, dir: seq<DirEntry>, free: nat, L: Layout) {
    && DATA_START <= |fat| < END_OF_FILE
    && |L.chains| == |dir| && |L.own| == |fat|
    && (forall b :: 0 <= b < DATA_START ==> fat[b] == FatEntry(END_OF_FILE, true))
    && (forall i :: 0 <= i < |dir| ==> SlotOk(dir, L, i))
    && (forall i, k :: 0 <= i < |dir| && 0 <= k < |L.chains[i]| ==> LinkOk(fat, L, i, k))
    && (forall b :: DATA_START <= b < |fat| ==> OwnerOk(fat, L, b))
    && free == |FreeSet(fat)|
  }

  /** The block at place k is a data block whose FAT link leads to place k + 1, or is the end mark. */
  ghost predicate LeadsOn(fat: seq<FatEntry>, c: seq<nat>, k: nat)
    requires k < |c|
  {
    DATA_START <= c[k] < |fat| && fat[c[k]].next == (if k + 1 < |c| then c[k + 1] else END_OF_FILE)
  }

  /** c is the list of blocks met by following the FAT links from its first block to the end mark. */
  ghost predicate IsChain(fat: seq<FatEntry>, c: seq<nat>) {
    c != [] && forall k :: 0 <= k < |c| ==> LeadsOn(fat, c, k)
  }

  /** Following links from one block has one outcome: a chain is determined by its first block. */
  lemma {:induction false} ChainIsUnique(fat: seq<FatEntry>, c: seq<nat>, d: seq<nat>)
    requires |fat| < END_OF_FILE && IsChain(fat, c) && IsChain(fat, d) && c[0] == d[0]
    ensures c == d
    decreases |c|
  {
    assert LeadsOn(fat, c, 0) && LeadsOn(fat, d, 0);
    assert (|c| > 1 ==> LeadsOn(fat, c, 1)) && (|d| > 1 ==> LeadsOn(fat, d, 1));
    if |c| > 1 && |d| > 1 {
      forall k | 0 <= k < |c| - 1 ensures LeadsOn(fat, c[1..], k) {
        assert LeadsOn(fat, c, k + 1);
      }
      forall k | 0 <= k < |d| - 1 ensures LeadsOn(fat, d[1..], k) {
        assert LeadsOn(fat, d, k + 1);
      }
      ChainIsUnique(fat, c[1..], d[1..]);
      assert c == [c[0]] + c[1..] && d == [d[0]] + d[1..];
    }
  }

  /** No chain visits a block twice: a repeated block would have both the end mark and a block as successor. */
  lemma {:induction false} ChainIsAcyclic(fat: seq<FatEntry>, c: seq<nat>, a: nat, b: nat)
    requires |fat| < END_OF_FILE && IsChain(fat, c) && a < b < |c|
    ensures c[a] != c[b]
    decreases |c| - b
  {
    assert LeadsOn(fat, c, a) && LeadsOn(fat, c, b) && LeadsOn(fat, c, a + 1);
    if c[a] == c[b] && b + 1 < |c| {
      ChainIsAcyclic(fat, c, a + 1, b + 1);
    }
  }

  /** Every named entry's chain follows the FAT from its first block to the end mark without a cycle;
      chains of different entries share no block; a data block is allocated exactly when it lies on
      some entry's chain or was leaked; the counter is the number of unallocated data blocks. */
  lemma ChainsPartitionTheAllocatedBlocks(fat: seq<FatEntry>, dir: seq<DirEntry>, free: nat, L: Layout)
    requires VolumeOk(fat, dir, free, L)
    ensures forall i :: 0 <= i < |dir| && dir[i].name != [] ==>
      IsChain(fat, L.chains[i]) && L.chains[i][0] == dir[i].firstBlock
    ensures forall i, j :: 0 <= i < j < |dir| ==>
      forall b :: b in L.chains[i] ==> b !in L.chains[j]
    ensures forall b :: DATA_START <= b < |fat| ==>
      (fat[b].used <==> L.own[b] == Leaked || exists i :: 0 <= i < |dir| && b in L.chains[i])
    ensures free == |set b | DATA_START <= b < |fat| && !fat[b].used|
  {
    forall i | 0 <= i < |dir| && dir[i].name != []
      ensures IsChain(fat, L.chains[i]) && L.chains[i][0] == dir[i].firstBlock
    {
      assert SlotOk(dir, L, i);
      forall k | 0 <= k < |L.chains[i]| ensures LeadsOn(fat, L.chains[i], k) {
        assert LinkOk(fat, L, i, k);
      }
    }
    forall i, j, b | 0 <= i < j < |dir| && b in L.chains[i]
      ensures b !in L.chains[j]
    {
      var k :| 0 <= k < |L.chains[i]| && L.chains[i][k] == b;
      assert LinkOk(fat, L, i, k);
      forall m | 0 <= m < |L.chains[j]| ensures L.chains[j][m] != b {
        assert LinkOk(fat, L, j, m);
      }
    }
    forall b | DATA_START <= b < |fat|
      ensures fat[b].used <==> L.own[b] == Leaked || exists i :: 0 <= i < |dir| && b in L.chains[i]
    {
      assert OwnerOk(fat, L, b);
      if i :| 0 <= i < |dir| && b in L.chains[i] {
        var k :| 0 <= k < |L.chains[i]| && L.chains[i][k] == b;
        assert LinkOk(fat, L, i, k);
      }
    }
  }

  // ----- steps on the volume -----

  /** The volume right after formatting. */
  ghost function FreshLayout(blocks: nat, slots: nat): Layout {
    Layout(seq(slots, _ => []), seq(blocks, _ => Unowned))
  }

  /** Taking the free block b: it is allocated and, until it is linked in, held by nobody. */
  ghost function TakeFat(fat: seq<FatEntry>, b: nat): seq<FatEntry>
    requires b < |fat|
  {
    fat[b := FatEntry(END_OF_FILE, true)]
  }

  ghost function TakeLayout(L: Layout, b: nat): Layout
    requires b < |L.own|
  {
    L.(own := L.own[b := Leaked])
  }

  lemma TakeKeepsVolume(fat: seq<FatEntry>, dir: seq<DirEntry>, free: nat, L: Layout, b: nat)
    requires VolumeOk(fat, dir, free, L)
    requires DATA_START <= b < |fat| && !fat[b].used
    ensures free > 0
    ensures VolumeOk(TakeFat(fat, b), dir, free - 1, TakeLayout(L, b))
    ensures forall i :: 0 <= i < |dir| && dir[i].name == [] ==> dir[i].firstBlock != b
  {
    var fat', L' := TakeFat(fat, b), TakeLayout(L, b);
    assert OwnerOk(fat, L, b) && L.own[b] == Unowned;
    assert FreeSet(fat') == FreeSet(fat) - {b} && b in FreeSet(fat);
    forall i | 0 <= i < |dir|
      ensures SlotOk(dir, L', i) && (dir[i].name == [] ==> dir[i].firstBlock != b)
    {
      assert SlotOk(dir, L, i);
    }
    forall i, k | 0 <= i < |dir| && 0 <= k < |L'.chains[i]| ensures LinkOk(fat', L', i, k) {
      assert LinkOk(fat, L, i, k);
    }
    forall x | DATA_START <= x < |fat| ensures OwnerOk(fat', L', x) {
      assert OwnerOk(fat, L, x);
    }
  }

  /** Giving the allocated block b back. */
  ghost function ReleaseFat(fat: seq<FatEntry>, b: nat): seq<FatEntry>
    requires b < |fat|
  {
    fat[b := FatEntry(0, false)]
  }

  ghost function ReleaseLayout(L: Layout, b: nat): Layout
    requires b < |L.own|
  {
    L.(own := L.own[b := Unowned])
  }

  /** No chain goes through b, and no unused slot still has it as its first block. */
  ghost predicate HeldByNobody(dir: seq<DirEntry>, L: Layout, b: nat)
    requires b < |L.own|
  {
    L.own[b] == Leaked && forall i :: 0 <= i < |dir| && dir[i].name == [] ==> dir[i].firstBlock != b
  }

  lemma ReleaseKeepsVolumeIff(fat: seq<FatEntry>, dir: seq<DirEntry>, free: nat, L: Layout, b: nat)
    requires VolumeOk(fat, dir, free, L)
    requires DATA_START <= b < |fat| && fat[b].used
    ensures VolumeOk(ReleaseFat(fat, b), dir, free + 1, ReleaseLayout(L, b)) <==> HeldByNobody(dir, L, b)
  {
    var fat', L' := ReleaseFat(fat, b), ReleaseLayout(L, b);
    assert OwnerOk(fat, L, b);
    assert FreeSet(fat') == FreeSet(fat) + {b} && b !in FreeSet(fat);
    if HeldByNobody(dir, L, b) {
      forall i | 0 <= i < |dir| ensures SlotOk(dir, L', i) {
        assert SlotOk(dir, L, i);
      }
      forall i, k | 0 <= i < |dir| && 0 <= k < |L'.chains[i]| ensures LinkOk(fat', L', i, k) {
        assert LinkOk(fat, L, i, k);
      }
      forall x | DATA_START <= x < |fat| ensures OwnerOk(fat', L', x) {
        assert OwnerOk(fat, L, x);
      }
    } else if L.own[b] == Leaked {
      var i :| 0 <= i < |dir| && dir[i].name == [] && dir[i].firstBlock == b;
      assert !SlotOk(dir, L', i);
    } else {
      var i, k := L.own[b].slot, L.own[b].index;
      assert !LinkOk(fat', L', i, k);
    }
  }

  /** Giving back a block just taken restores table and layout. */
  lemma ReleaseUndoesTake(fat: seq<FatEntry>, L: Layout, b: nat)
    requires b < |fat| == |L.own| && OwnerOk(fat, L, b) && !fat[b].used
    ensures ReleaseFat(TakeFat(fat, b), b) == fat && ReleaseLayout(TakeLayout(L, b), b) == L
  {
    assert L.own[b] == Unowned;
  }

  /** Linking the held block b behind the last block of slot i's chain. */
  ghost function LinkFat(fat: seq<FatEntry>, L: Layout, i: nat, b: nat): seq<FatEntry>
    requires i < |L.chains| && L.chains[i] != [] && L.chains[i][|L.chains[i]| - 1] < |fat|
  {
    var last := L.chains[i][|L.chains[i]| - 1];
    fat[last := fat[last].(next := b)]
  }

  ghost function LinkLayout(L: Layout, i: nat, b: nat): Layout
    requires i < |L.chains| && b < |L.own|
  {
    Layout(L.chains[i := L.chains[i] + [b]], L.own[b := Owned(i, |L.chains[i]|)])
  }

  lemma LinkKeepsVolume(fat: seq<FatEntry>, dir: seq<DirEntry>, free: nat, L: Layout, i: nat, b: nat)
    requires VolumeOk(fat, dir, free, L)
    requires DATA_START <= b < |fat| && L.own[b] == Leaked
    requires forall j :: 0 <= j < |dir| && dir[j].name == [] ==> dir[j].firstBlock != b
    requires i < |dir| && dir[i].name != []
    ensures SlotOk(dir, L, i) && LinkOk(fat, L, i, |L.chains[i]| - 1)
    ensures VolumeOk(LinkFat(fat, L, i, b), dir, free, LinkLayout(L, i, b))
  {
    assert SlotOk(dir, L, i);
    var c := L.chains[i];
    var last := c[|c| - 1];
    assert LinkOk(fat, L, i, |c| - 1) && OwnerOk(fat, L, b) && OwnerOk(fat, L, last);
    var fat', L' := LinkFat(fat, L, i, b), LinkLayout(L, i, b);
    assert FreeSet(fat') == FreeSet(fat);
    forall j | 0 <= j < |dir| ensures SlotOk(dir, L', j) {
      assert SlotOk(dir, L, j);
    }
    forall j, k | 0 <= j < |dir| && 0 <= k < |L'.chains[j]| ensures LinkOk(fat', L', j, k) {
      if j != i || k < |c| {
        assert LinkOk(fat, L, j, k);
      }
    }
    forall x | DATA_START <= x < |fat| ensures OwnerOk(fat', L', x) {
      assert OwnerOk(fat, L, x);
    }
  }

  /** Writing an entry for the held block b into the free slot i. An entry with an empty name does
      not claim its block. */
  ghost function EnterLayout(L: Layout, i: nat, e: DirEntry): Layout
    requires i < |L.chains| && e.firstBlock < |L.own|
  {
    if e.name == [] then L
    else Layout(L.chains[i := [e.firstBlock]], L.own[e.firstBlock := Owned(i, 0)])
  }

  lemma EnterKeepsVolume(fat: seq<FatEntry>, dir: seq<DirEntry>, free: nat, L: Layout, i: nat, e: DirEntry)
    requires VolumeOk(fat, dir, free, L)
    requires DATA_START <= e.firstBlock < |fat| && L.own[e.firstBlock] == Leaked
    requires forall j :: 0 <= j < |dir| && dir[j].name == [] ==> dir[j].firstBlock != e.firstBlock
    requires i < |dir| && dir[i].name == []
    ensures VolumeOk(fat, dir[i := e], free, EnterLayout(L, i, e))
  {
    var b := e.firstBlock;
    assert SlotOk(dir, L, i) && OwnerOk(fat, L, b);
    var dir', L' := dir[i := e], EnterLayout(L, i, e);
    forall j | 0 <= j < |dir| ensures SlotOk(dir', L', j) {
      assert SlotOk(dir, L, j);
    }
    forall j, k | 0 <= j < |dir| && 0 <= k < |L'.chains[j]| ensures LinkOk(fat, L', j, k) {
      if j != i || e.name == [] {
        assert LinkOk(fat, L, j, k);
      }
    }
    forall x | DATA_START <= x < |fat| ensures OwnerOk(fat, L', x) {
      assert OwnerOk(fat, L, x);
    }
  }

  /** Only names and first blocks of entries matter to the invariant, not sizes. */
  lemma ResizeKeepsVolume(fat: seq<FatEntry>, dir: seq<DirEntry>, free: nat, L: Layout, i: nat, size: nat)
    requires VolumeOk(fat, dir, free, L) && i < |dir|
    ensures VolumeOk(fat, dir[i := dir[i].(size := size)], free, L)
  {
    var dir' := dir[i := dir[i].(size := size)];
    forall j | 0 <= j < |dir| ensures SlotOk(dir', L, j) {
      assert SlotOk(dir, L, j);
    }
  }
}
