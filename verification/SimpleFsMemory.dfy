/** The one stretch of memory that SimpleFS allocates for all its blocks (fs/simplefs.c): the superblock is
    read at its start, the FAT from the second block on, the directory from the third block on, data blocks
    in their places. When the tables fit in their blocks this is the same as keeping them apart; when the
    FAT does not, directory entries are FAT entries too. */
module SimpleFsMemory {
  import opened Bytes
  import opened SimpleFsVolume
  import opened SimpleFsContent
  import opened SimpleFsSpec
  import opened SimpleFsWrite
  import opened SimpleFsSteps
  import opened SimpleFsImage

  // ----- what is read where -----

  function FatAddress(i: nat, size: nat): nat { size + FAT_ENTRY_SIZE * i }
  function SlotAddress(i: nat, size: nat): nat { size + size + DIR_ENTRY_SIZE * i }

  function FatEntryAt(mem: seq<byte>, a: nat): FatEntry {
    if a + FAT_FIELDS <= |mem| then GetFatEntry(mem[a..a + FAT_FIELDS]) else FatEntry(0, false)
  }

  function SlotAt(mem: seq<byte>, a: nat): DirEntry {
    if a + SLOT_FIELDS <= |mem| then GetDirEntry(mem[a..a + SLOT_FIELDS]) else UNUSED_ENTRY
  }

  function FatIn(mem: seq<byte>, n: nat, size: nat): (fat: seq<FatEntry>) {
    seq(n, i requires 0 <= i < n => FatEntryAt(mem, FatAddress(i, size)))
  }

  function DirIn(mem: seq<byte>, slots: nat, size: nat): (dir: seq<DirEntry>) {
    seq(slots, i requires 0 <= i < slots => SlotAt(mem, SlotAddress(i, size)))
  }

  function SuperblockIn(mem: seq<byte>): Superblock {
    if |mem| >= SUPERBLOCK_FIELDS then GetSuperblock(mem[..SUPERBLOCK_FIELDS]) else Superblock(0, 0, 0, 0, 0, 0, 0, 0)
  }

  ghost function BlockIn(mem: seq<byte>, b: nat, size: nat): seq<byte> {
    if Start(b, size) + size <= |mem| then mem[Start(b, size)..Start(b, size) + size] else []
  }

  /** Superblock, FAT, directory and data blocks read from this memory are those of v. */
  ghost predicate InMemory(mem: seq<byte>, v: Snapshot, size: nat) {
    && DATA_START <= |v.fat| == |v.blocks| && |mem| == Start(|v.blocks|, size)
    && SuperblockIn(mem) == v.sb
    && FatIn(mem, |v.fat|, size) == v.fat
    && DirIn(mem, |v.dir|, size) == v.dir
    && forall b :: DATA_START <= b < |v.blocks| ==> BlockIn(mem, b, size) == v.blocks[b]
  }

  // ----- stores -----

  predicate EntryFits(e: DirEntry) {
    |e.name| < MAX_FILENAME && 0 !in e.name && e.firstBlock < U32 && e.size < U32
  }

  ghost function StoreFat(mem: seq<byte>, i: nat, e: FatEntry, size: nat): seq<byte> {
    Splice(mem, FatAddress(i, size), PutFatEntry(e))
  }

  ghost function StoreSlot(mem: seq<byte>, i: nat, e: DirEntry, size: nat): seq<byte>
    requires |e.name| < MAX_FILENAME
  {
    Splice(mem, SlotAddress(i, size), PutDirEntry(e))
  }

  ghost function StoreSuperblock(mem: seq<byte>, sb: Superblock): seq<byte> {
    Splice(mem, 0, PutSuperblock(sb))
  }

  ghost function StoreBlock(mem: seq<byte>, b: nat, block: seq<byte>, size: nat): seq<byte> {
    Splice(mem, Start(b, size), block)
  }

  lemma ElsewhereUnchanged(mem: seq<byte>, a: nat, d: seq<byte>, x: nat, n: nat)
    requires a + |d| <= |mem| && (x + n <= a || a + |d| <= x)
    ensures |Splice(mem, a, d)| == |mem|
    ensures x + n <= |mem| ==> Splice(mem, a, d)[x..x + n] == mem[x..x + n]
  {
    var mem' := Splice(mem, a, d);
    forall k | x <= k < x + n && x + n <= |mem| ensures mem'[k] == mem[k] {
    }
  }

  lemma SpliceAt(s: seq<byte>, q: nat, d: seq<byte>, x: nat)
    requires q + |d| <= |s| && x < |s|
    ensures |Splice(s, q, d)| == |s| && Splice(s, q, d)[x] == if q <= x < q + |d| then d[x - q] else s[x]
  {
  }

  lemma StoredThere(mem: seq<byte>, a: nat, d: seq<byte>)
    requires a + |d| <= |mem|
    ensures |Splice(mem, a, d)| == |mem| && Splice(mem, a, d)[a..a + |d|] == d
  {
  }

  /** The three tables lie in the first three blocks, the data blocks behind them. */
  lemma Places(n: nat, size: nat)
    requires n >= DATA_START
    ensures Start(1, size) == size && Start(2, size) == size + size
    ensures size + size + size <= Start(n, size)
    ensures forall b :: DATA_START <= b < n ==>
      size + size + size <= Start(b, size) && Start(b, size) + size <= Start(n, size)
  {
    assert Start(0, size) == 0;
    assert Start(1, size) == Start(0, size) + size && Start(2, size) == Start(1, size) + size;
    StartMonotone(2, n, size);
    forall b | DATA_START <= b < n
      ensures size + size + size <= Start(b, size) && Start(b, size) + size <= Start(n, size)
    {
      StartMonotone(2, b, size);
      StartMonotone(b, n, size);
    }
  }

  /** A store into the first three blocks leaves the data blocks alone. */
  lemma DataBlocksUnchanged(mem: seq<byte>, n: nat, a: nat, d: seq<byte>, size: nat)
    requires n >= DATA_START && |mem| == Start(n, size) && a + |d| <= size + size + size
    ensures a + |d| <= |mem| && |Splice(mem, a, d)| == |mem|
    ensures forall b :: DATA_START <= b < n ==> BlockIn(Splice(mem, a, d), b, size) == BlockIn(mem, b, size)
  {
    Places(n, size);
    forall b | DATA_START <= b < n ensures BlockIn(Splice(mem, a, d), b, size) == BlockIn(mem, b, size) {
      ElsewhereUnchanged(mem, a, d, Start(b, size), size);
    }
  }

  lemma FatUnchanged(mem: seq<byte>, n: nat, a: nat, d: seq<byte>, size: nat)
    requires a + |d| <= |mem| && (a + |d| <= size || size + FAT_ENTRY_SIZE * n <= a + 3)
    ensures FatIn(Splice(mem, a, d), n, size) == FatIn(mem, n, size)
  {
    forall i | 0 <= i < n ensures FatIn(Splice(mem, a, d), n, size)[i] == FatIn(mem, n, size)[i] {
      ElsewhereUnchanged(mem, a, d, FatAddress(i, size), FAT_FIELDS);
    }
  }

  lemma DirUnchanged(mem: seq<byte>, slots: nat, a: nat, d: seq<byte>, size: nat)
    requires a + |d| <= |mem| && (a + |d| <= size + size || size + size + DIR_ENTRY_SIZE * slots <= a)
    ensures DirIn(Splice(mem, a, d), slots, size) == DirIn(mem, slots, size)
  {
    forall i | 0 <= i < slots ensures DirIn(Splice(mem, a, d), slots, size)[i] == DirIn(mem, slots, size)[i] {
      ElsewhereUnchanged(mem, a, d, SlotAddress(i, size), SLOT_FIELDS);
    }
  }

  /** When the tables fit, storing one FAT entry changes that entry and nothing else. */
  lemma FatStoreInMemory(mem: seq<byte>, v: Snapshot, i: nat, e: FatEntry, size: nat)
    requires InMemory(mem, v, size) && TablesFit(|v.fat|, |v.dir|, size) && i < |v.fat| && e.next < U32
    ensures InMemory(StoreFat(mem, i, e, size), v.(fat := v.fat[i := e]), size)
  {
    var mem', a := StoreFat(mem, i, e, size), FatAddress(i, size);
    DataBlocksUnchanged(mem, |v.fat|, a, PutFatEntry(e), size);
    DirUnchanged(mem, |v.dir|, a, PutFatEntry(e), size);
    ElsewhereUnchanged(mem, a, PutFatEntry(e), 0, SUPERBLOCK_FIELDS);
    FatEntryRoundTrip(e);
    StoredThere(mem, a, PutFatEntry(e));
    forall j | 0 <= j < |v.fat| ensures FatIn(mem', |v.fat|, size)[j] == v.fat[i := e][j] {
      assert FatIn(mem, |v.fat|, size)[j] == v.fat[j];
      if j != i {
        ElsewhereUnchanged(mem, a, PutFatEntry(e), FatAddress(j, size), FAT_FIELDS);
      }
    }
  }

  lemma SlotStoreInMemory(mem: seq<byte>, v: Snapshot, i: nat, e: DirEntry, size: nat)
    requires InMemory(mem, v, size) && TablesFit(|v.fat|, |v.dir|, size) && i < |v.dir| && EntryFits(e)
    ensures InMemory(StoreSlot(mem, i, e, size), v.(dir := v.dir[i := e]), size)
  {
    var mem', a := StoreSlot(mem, i, e, size), SlotAddress(i, size);
    DataBlocksUnchanged(mem, |v.fat|, a, PutDirEntry(e), size);
    FatUnchanged(mem, |v.fat|, a, PutDirEntry(e), size);
    ElsewhereUnchanged(mem, a, PutDirEntry(e), 0, SUPERBLOCK_FIELDS);
    DirEntryRoundTrip(e);
    StoredThere(mem, a, PutDirEntry(e));
    forall j | 0 <= j < |v.dir| ensures DirIn(mem', |v.dir|, size)[j] == v.dir[i := e][j] {
      assert DirIn(mem, |v.dir|, size)[j] == v.dir[j];
      if j != i {
        ElsewhereUnchanged(mem, a, PutDirEntry(e), SlotAddress(j, size), SLOT_FIELDS);
      }
    }
  }

  lemma SuperblockStoreInMemory(mem: seq<byte>, v: Snapshot, sb: Superblock, size: nat)
    requires InMemory(mem, v, size) && TablesFit(|v.fat|, |v.dir|, size) && SuperblockFits(sb)
    ensures InMemory(StoreSuperblock(mem, sb), v.(sb := sb), size)
  {
    DataBlocksUnchanged(mem, |v.fat|, 0, PutSuperblock(sb), size);
    FatUnchanged(mem, |v.fat|, 0, PutSuperblock(sb), size);
    DirUnchanged(mem, |v.dir|, 0, PutSuperblock(sb), size);
    SuperblockRoundTrip(sb);
    StoredThere(mem, 0, PutSuperblock(sb));
  }

  lemma BlockStoreInMemory(mem: seq<byte>, v: Snapshot, b: nat, block: seq<byte>, size: nat)
    requires InMemory(mem, v, size) && TablesFit(|v.fat|, |v.dir|, size)
    requires DATA_START <= b < |v.blocks| && |block| == size
    ensures InMemory(StoreBlock(mem, b, block, size), v.(blocks := v.blocks[b := block]), size)
  {
    var mem', n, a := StoreBlock(mem, b, block, size), |v.blocks|, Start(b, size);
    Places(n, size);
    FatUnchanged(mem, |v.fat|, a, block, size);
    DirUnchanged(mem, |v.dir|, a, block, size);
    ElsewhereUnchanged(mem, a, block, 0, SUPERBLOCK_FIELDS);
    StoredThere(mem, a, block);
    forall x | DATA_START <= x < n ensures BlockIn(mem', x, size) == v.blocks[b := block][x] {
      if x < b {
        StartMonotone(x, b, size);
        ElsewhereUnchanged(mem, a, block, Start(x, size), size);
      } else if x > b {
        StartMonotone(b, x, size);
        ElsewhereUnchanged(mem, a, block, Start(x, size), size);
      }
    }
  }

  /** A close or a truncation writes one field of a slot. */
  ghost function StoreSize(mem: seq<byte>, i: nat, fileSize: nat, size: nat): seq<byte> {
    Splice(mem, SlotAddress(i, size) + 60, PutU32(fileSize))
  }

  lemma SizeStoreInMemory(mem: seq<byte>, v: Snapshot, i: nat, fileSize: nat, size: nat)
    requires InMemory(mem, v, size) && TablesFit(|v.fat|, |v.dir|, size) && i < |v.dir| && fileSize < U32
    ensures InMemory(StoreSize(mem, i, fileSize, size), v.(dir := v.dir[i := v.dir[i].(size := fileSize)]), size)
  {
    var mem', at, d := StoreSize(mem, i, fileSize, size), SlotAddress(i, size), PutU32(fileSize);
    var e := v.dir[i].(size := fileSize);
    var a := at + 60;
    Places(|v.fat|, size);
    DataBlocksUnchanged(mem, |v.fat|, a, d, size);
    FatUnchanged(mem, |v.fat|, a, d, size);
    ElsewhereUnchanged(mem, a, d, 0, SUPERBLOCK_FIELDS);
    SizeOfSlot(mem, at, fileSize);
    forall j | 0 <= j < |v.dir| ensures DirIn(mem', |v.dir|, size)[j] == v.dir[i := e][j] {
      assert DirIn(mem, |v.dir|, size)[j] == v.dir[j];
      if j != i {
        ElsewhereUnchanged(mem, a, d, SlotAddress(j, size), SLOT_FIELDS);
      }
    }
  }

  lemma SizeOfSlot(mem: seq<byte>, at: nat, fileSize: nat)
    requires at + SLOT_FIELDS <= |mem| && fileSize < U32
    ensures |Splice(mem, at + 60, PutU32(fileSize))| == |mem|
    ensures SlotAt(Splice(mem, at + 60, PutU32(fileSize)), at) == SlotAt(mem, at).(size := fileSize)
  {
    var mem' := Splice(mem, at + 60, PutU32(fileSize));
    var b, b' := mem[at..at + SLOT_FIELDS], mem'[at..at + SLOT_FIELDS];
    U32RoundTrip(fileSize);
    forall k | 0 <= k < SLOT_FIELDS ensures b'[k] == if 60 <= k < 64 then PutU32(fileSize)[k - 60] else b[k] {
      SpliceAt(mem, at + 60, PutU32(fileSize), at + k);
    }
    assert b'[..MAX_FILENAME] == b[..MAX_FILENAME] && b'[56..60] == b[56..60] && b'[60..64] == PutU32(fileSize);
  }

  // ----- the calls, store by store -----

  /** A create that succeeds: the FAT entry, the counter, the slot, and the block filled with zeros. */
  ghost function CreateStores(mem: seq<byte>, b: nat, sb: Superblock, i: nat, e: DirEntry, size: nat): seq<byte>
    requires |e.name| < MAX_FILENAME
  {
    StoreBlock(StoreSlot(StoreSuperblock(StoreFat(mem, b, FatEntry(END_OF_FILE, true), size), sb), i, e, size),
               b, Zeros(size), size)
  }

  lemma {:induction false} FreeCountBounded(fat: seq<FatEntry>)
    ensures |FreeSet(fat)| <= |fat|
  {
    if fat != [] {
      var last := |fat| - 1;
      FreeCountBounded(fat[..last]);
      var rest := FreeSet(fat[..last]);
      assert FreeSet(fat) == rest || FreeSet(fat) == rest + {last};
    }
  }

  lemma CounterFits(v: Snapshot, size: nat)
    requires Ok(v, size)
    ensures v.sb.freeBlocks <= |v.fat| < U32 && SuperblockFits(v.sb)
  {
    FreeCountBounded(v.fat);
  }

  lemma CreateInMemory(mem: seq<byte>, v: Snapshot, path: CString, kind: byte, size: nat)
    requires InMemory(mem, v, size) && Ok(v, size) && CreateCode(v, path) == FS_SUCCESS
    ensures v.sb.freeBlocks > 0 && |StoredName(path[1..])| < MAX_FILENAME
    ensures
      var b, sb := FirstFree(v.fat, DATA_START), v.sb.(freeBlocks := v.sb.freeBlocks - 1);
      InMemory(CreateStores(mem, b, sb, FirstEmpty(v.dir), DirEntry(StoredName(path[1..]), b, 0, kind), size),
               Created(v, path, kind, size), size)
  {
    CounterFits(v, size);
    CreatedIsOk(v, path, kind, size);
    var b, sb, i := FirstFree(v.fat, DATA_START), v.sb.(freeBlocks := v.sb.freeBlocks - 1), FirstEmpty(v.dir);
    var e := DirEntry(StoredName(path[1..]), b, 0, kind);
    var end := FatEntry(END_OF_FILE, true);
    FatStoreInMemory(mem, v, b, end, size);
    var mem1, v1 := StoreFat(mem, b, end, size), v.(fat := v.fat[b := end]);
    SuperblockStoreInMemory(mem1, v1, sb, size);
    var mem2, v2 := StoreSuperblock(mem1, sb), v1.(sb := sb);
    SlotStoreInMemory(mem2, v2, i, e, size);
    var mem3, v3 := StoreSlot(mem2, i, e, size), v2.(dir := v2.dir[i := e]);
    BlockStoreInMemory(mem3, v3, b, Zeros(size), size);
  }

  /** One round of a write stores into one data block, and a step to a new block into two FAT entries and
      the counter. */
  lemma WriteRoundInMemory(mem: seq<byte>, v: Snapshot, f: nat, piece: seq<byte>, size: nat)
    requires InMemory(mem, v, size) && OpenOk(v, f, size) && |piece| <= size - v.fds[f].position % size
    ensures
      var b := v.fds[f].currentBlock;
      InMemory(StoreBlock(mem, b, Splice(v.blocks[b], v.fds[f].position % size, piece), size),
               Stored(v, f, piece, size), size)
  {
    var b := v.fds[f].currentBlock;
    BlockStoreInMemory(mem, v, b, Splice(v.blocks[b], v.fds[f].position % size, piece), size);
  }

  ghost function StepStores(mem: seq<byte>, b: nat, last: nat, sb: Superblock, size: nat): seq<byte> {
    StoreFat(StoreSuperblock(StoreFat(mem, b, FatEntry(END_OF_FILE, true), size), sb), last, FatEntry(b, true), size)
  }

  lemma WriteStepInMemory(mem: seq<byte>, v: Snapshot, f: nat, size: nat)
    requires InMemory(mem, v, size) && OpenOk(v, f, size) && CanStep(v, f)
    ensures
      var w, b := Stepped(v, f, size), FirstFree(v.fat, DATA_START);
      if v.cursors[f].place + 1 < |ChainOf(v, f)| then InMemory(mem, w, size)
      else v.sb.freeBlocks > 0 &&
           InMemory(StepStores(mem, b, v.fds[f].currentBlock, v.sb.(freeBlocks := v.sb.freeBlocks - 1), size), w, size)
  {
    if v.cursors[f].place + 1 == |ChainOf(v, f)| {
      CounterFits(v, size);
      HasFree(v.fat);
      LastInRange(v, f, size);
      var b, last, sb := FirstFree(v.fat, DATA_START), v.fds[f].currentBlock, v.sb.(freeBlocks := v.sb.freeBlocks - 1);
      assert OwnerOk(v.fat, v.layout, last) && last != b;
      StepStoresInMemory(mem, v, b, last, sb, size);
      assert v.fat[b := FatEntry(END_OF_FILE, true)][last].(next := b) == FatEntry(b, true);
    }
  }

  lemma StepStoresInMemory(mem: seq<byte>, v: Snapshot, b: nat, last: nat, sb: Superblock, size: nat)
    requires InMemory(mem, v, size) && TablesFit(|v.fat|, |v.dir|, size) && SuperblockFits(sb)
    requires b < |v.fat| < U32 && last < |v.fat|
    ensures InMemory(StepStores(mem, b, last, sb, size),
                     v.(fat := v.fat[b := FatEntry(END_OF_FILE, true)][last := FatEntry(b, true)], sb := sb), size)
  {
    var end := FatEntry(END_OF_FILE, true);
    FatStoreInMemory(mem, v, b, end, size);
    var mem1, v1 := StoreFat(mem, b, end, size), v.(fat := v.fat[b := end]);
    SuperblockStoreInMemory(mem1, v1, sb, size);
    FatStoreInMemory(StoreSuperblock(mem1, sb), v1.(sb := sb), last, FatEntry(b, true), size);
  }

  lemma OpenInMemory(mem: seq<byte>, v: Snapshot, i: nat, f: nat, mode: byte, size: nat)
    requires InMemory(mem, v, size) && Ok(v, size) && i < |v.dir| && f < |v.fds|
    ensures InMemory(if Truncates(mode) then StoreSize(mem, i, 0, size) else mem, Opened(v, i, f, mode), size)
  {
    SizeStoreInMemory(mem, v, i, 0, size);
  }

  lemma CloseInMemory(mem: seq<byte>, v: Snapshot, f: nat, size: nat)
    requires InMemory(mem, v, size) && Ok(v, size) && IsOpen(v, f) && v.fds[f].fileSize < U32
    ensures
      var u, slot := v.fds[f], v.cursors[f].slot;
      slot < |v.dir| && InMemory(if CanWrite(u.mode) && v.dir[slot].kind == TYPE_FILE
                                 then StoreSize(mem, slot, u.fileSize, size) else mem, Closed(v, f), size)
  {
    assert DescriptorOk(v.fds[f], v.dir, v.layout, v.cursors[f]);
    SizeStoreInMemory(mem, v, v.cursors[f].slot, v.fds[f].fileSize, size);
  }

  // ----- when the tables are apart -----

  ghost predicate SlotStoreKeepsFat(mem: seq<byte>, i: nat, e: DirEntry, n: nat, size: nat)
    requires |e.name| < MAX_FILENAME
  {
    FatIn(StoreSlot(mem, i, e, size), n, size) == FatIn(mem, n, size)
  }

  /** In every memory of n blocks, writing any entry into any directory slot leaves the whole FAT as it is
      exactly if the FAT's last entry ends in the FAT's block; its three reserved bytes may stick out. For
      block sizes that are a multiple of eight this says that the entries fit in one block. */
  lemma DirectoryStoresKeepTheFatIff(n: nat, slots: nat, size: nat)
    requires n >= DATA_START && 0 < DIR_ENTRY_SIZE * slots <= size
    ensures
      (forall mem: seq<byte>, i: nat, e: DirEntry :: |mem| == Start(n, size) && i < slots && EntryFits(e) ==>
         SlotStoreKeepsFat(mem, i, e, n, size))
      <==> FAT_ENTRY_SIZE * n <= size + 3
    ensures size % FAT_ENTRY_SIZE == 0 ==> (FAT_ENTRY_SIZE * n <= size + 3 <==> FAT_ENTRY_SIZE * n <= size)
  {
    Places(n, size);
    if FAT_ENTRY_SIZE * n <= size + 3 {
      forall mem: seq<byte>, i: nat, e: DirEntry | |mem| == Start(n, size) && i < slots && EntryFits(e)
        ensures SlotStoreKeepsFat(mem, i, e, n, size)
      {
        FatUnchanged(mem, n, SlotAddress(i, size), PutDirEntry(e), size);
      }
    } else {
      SharedByte(n, size);
    }
  }

  const AAAA := DirEntry([97, 97, 97, 97], 0, 0, TYPE_FILE)

  /** A zeroed memory in which one short name changes a FAT entry. */
  lemma SharedByte(n: nat, size: nat)
    requires n >= DATA_START && DIR_ENTRY_SIZE <= size && FAT_ENTRY_SIZE * n > size + 3
    ensures EntryFits(AAAA) && !SlotStoreKeepsFat(Zeros(Start(n, size)), 0, AAAA, n, size)
  {
    Places(n, size);
    var mem := Zeros(Start(n, size));
    var mem' := StoreSlot(mem, 0, AAAA, size);
    // the entry holding the directory's first byte, or the next one if only reserved bytes are left there
    var i := if size % FAT_ENTRY_SIZE < FAT_FIELDS then size / FAT_ENTRY_SIZE else size / FAT_ENTRY_SIZE + 1;
    var a := FatAddress(i, size);
    var k := if a <= size + size then size + size - a else 0;
    assert mem'[a..a + FAT_FIELDS][k] == mem'[a + k] == 97;
    NonzeroEntry(mem'[a..a + FAT_FIELDS], k);
    ZeroEntry(mem[a..a + FAT_FIELDS]);
    assert FatIn(mem', n, size)[i] != FatIn(mem, n, size)[i];
  }

  lemma NonzeroEntry(b: seq<byte>, k: nat)
    requires |b| == FAT_FIELDS && k < FAT_FIELDS && b[k] != 0
    ensures GetFatEntry(b) != FatEntry(0, false)
  {
  }

  lemma ZeroEntry(b: seq<byte>)
    requires |b| == FAT_FIELDS && forall k :: 0 <= k < |b| ==> b[k] == 0
    ensures GetFatEntry(b) == FatEntry(0, false)
  {
  }

  // ----- whole tables -----

  lemma {:induction false} FillFat(mem: seq<byte>, v: Snapshot, fat: seq<FatEntry>, k: nat, size: nat)
    returns (mem': seq<byte>)
    requires InMemory(mem, v, size) && TablesFit(|v.fat|, |v.dir|, size)
    requires |fat| == |v.fat| && k <= |fat| && v.fat[..k] == fat[..k]
    requires forall i :: 0 <= i < |fat| ==> fat[i].next < U32
    ensures InMemory(mem', v.(fat := fat), size)
    decreases |fat| - k
  {
    if k == |fat| {
      assert v.fat == fat;
      mem' := mem;
    } else {
      FatStoreInMemory(mem, v, k, fat[k], size);
      mem' := FillFat(StoreFat(mem, k, fat[k], size), v.(fat := v.fat[k := fat[k]]), fat, k + 1, size);
    }
  }

  lemma {:induction false} FillDir(mem: seq<byte>, v: Snapshot, dir: seq<DirEntry>, k: nat, size: nat)
    returns (mem': seq<byte>)
    requires InMemory(mem, v, size) && TablesFit(|v.fat|, |v.dir|, size)
    requires |dir| == |v.dir| && k <= |dir| && v.dir[..k] == dir[..k]
    requires forall i :: 0 <= i < |dir| ==> EntryFits(dir[i])
    ensures InMemory(mem', v.(dir := dir), size)
    decreases |dir| - k
  {
    if k == |dir| {
      assert v.dir == dir;
      mem' := mem;
    } else {
      SlotStoreInMemory(mem, v, k, dir[k], size);
      mem' := FillDir(StoreSlot(mem, k, dir[k], size), v.(dir := v.dir[k := dir[k]]), dir, k + 1, size);
    }
  }

  lemma {:induction false} FillBlocks(mem: seq<byte>, v: Snapshot, blocks: seq<seq<byte>>, k: nat, size: nat)
    returns (mem': seq<byte>)
    requires InMemory(mem, v, size) && TablesFit(|v.fat|, |v.dir|, size) && BlocksOk(blocks, size)
    requires |blocks| == |v.blocks| && DATA_START <= k <= |blocks| && v.blocks[DATA_START..k] == blocks[DATA_START..k]
    ensures InMemory(mem', v.(blocks := blocks), size)
    decreases |blocks| - k
  {
    if k == |blocks| {
      forall b | DATA_START <= b < |blocks| ensures v.blocks[b] == blocks[b] {
        assert v.blocks[DATA_START..k][b - DATA_START] == blocks[DATA_START..k][b - DATA_START];
      }
      mem' := mem;
    } else {
      BlockStoreInMemory(mem, v, k, blocks[k], size);
      var w := v.(blocks := v.blocks[k := blocks[k]]);
      assert w.blocks[DATA_START..k] == blocks[DATA_START..k];
      assert w.blocks[DATA_START..k + 1] == w.blocks[DATA_START..k] + [blocks[k]];
      mem' := FillBlocks(StoreBlock(mem, k, blocks[k], size), w, blocks, k + 1, size);
    }
  }

  lemma ZeroSlot(b: seq<byte>)
    requires |b| == SLOT_FIELDS && forall k :: 0 <= k < |b| ==> b[k] == 0
    ensures GetDirEntry(b) == UNUSED_ENTRY
  {
  }

  lemma ZeroSuperblock(b: seq<byte>)
    requires |b| == SUPERBLOCK_FIELDS && forall k :: 0 <= k < |b| ==> b[k] == 0
    ensures GetSuperblock(b) == Superblock(0, 0, 0, 0, 0, 0, 0, 0)
  {
  }

  /** An all-zero memory holds the empty tables. */
  lemma ZeroMemory(v: Snapshot, size: nat)
    requires Ok(v, size)
    ensures
      InMemory(Zeros(Start(|v.fat|, size)),
               v.(sb := Superblock(0, 0, 0, 0, 0, 0, 0, 0), fat := seq(|v.fat|, _ => FatEntry(0, false)),
                  dir := seq(|v.dir|, _ => UNUSED_ENTRY), blocks := seq(|v.blocks|, _ => Zeros(size))), size)
  {
    Places(|v.fat|, size);
    var z := Zeros(Start(|v.fat|, size));
    ZeroSuperblock(z[..SUPERBLOCK_FIELDS]);
    forall i | 0 <= i < |v.fat| ensures FatEntryAt(z, FatAddress(i, size)) == FatEntry(0, false) {
      ZeroEntry(z[FatAddress(i, size)..FatAddress(i, size) + FAT_FIELDS]);
    }
    forall i | 0 <= i < |v.dir| ensures SlotAt(z, SlotAddress(i, size)) == UNUSED_ENTRY {
      ZeroSlot(z[SlotAddress(i, size)..SlotAddress(i, size) + SLOT_FIELDS]);
    }
    forall b | DATA_START <= b < |v.fat| ensures BlockIn(z, b, size) == Zeros(size) {
      assert |BlockIn(z, b, size)| == size;
    }
    assert FatIn(z, |v.fat|, size) == seq(|v.fat|, _ => FatEntry(0, false));
    assert DirIn(z, |v.dir|, size) == seq(|v.dir|, _ => UNUSED_ENTRY);
  }

  /** Every state of the file system, as long as its sizes are 32-bit numbers, can be stored in one stretch of
      memory and read back from it. */
  lemma EveryStateHasAMemory(v: Snapshot, size: nat) returns (mem: seq<byte>)
    requires Ok(v, size) && forall i :: 0 <= i < |v.dir| ==> v.dir[i].size < U32
    ensures InMemory(mem, v, size)
  {
    CounterFits(v, size);
    forall b | 0 <= b < |v.fat| ensures v.fat[b].next < U32 {
      LinkFitsField(v, b, size);
    }
    forall i | 0 <= i < |v.dir| ensures EntryFits(v.dir[i]) {
      assert SlotOk(v.dir, v.layout, i);
      assert v.dir[i].name != [] ==> LinkOk(v.fat, v.layout, i, 0);
    }
    ZeroMemory(v, size);
    mem := Zeros(Start(|v.fat|, size));
    var z := v.(sb := Superblock(0, 0, 0, 0, 0, 0, 0, 0), fat := seq(|v.fat|, _ => FatEntry(0, false)),
                dir := seq(|v.dir|, _ => UNUSED_ENTRY), blocks := seq(|v.blocks|, _ => Zeros(size)));
    SuperblockStoreInMemory(mem, z, v.sb, size);
    mem := FillFat(StoreSuperblock(mem, v.sb), z.(sb := v.sb), v.fat, 0, size);
    mem := FillDir(mem, z.(sb := v.sb, fat := v.fat), v.dir, 0, size);
    mem := FillBlocks(mem, z.(sb := v.sb, fat := v.fat, dir := v.dir), v.blocks, DATA_START, size);
  }

  lemma LinkFitsField(v: Snapshot, b: nat, size: nat)
    requires Ok(v, size) && b < |v.fat|
    ensures v.fat[b].next < U32
  {
    if b >= DATA_START {
      assert OwnerOk(v.fat, v.layout, b);
      match v.layout.own[b]
      case Owned(i, k) =>
        assert LinkOk(v.fat, v.layout, i, k);
        assert k + 1 < |v.layout.chains[i]| ==> LinkOk(v.fat, v.layout, i, k + 1);
      case _ =>
    }
  }

  // ----- what happens with the shipped sizes -----

  const SHIPPED_BLOCKS: nat := 1024
  const SHIPPED_BLOCK_SIZE: nat := 4096
  const SHIPPED_SLOTS: nat := 60
  const FORMATTED := Superblock(FS_MAGIC, 1024, 1021, 2, 1, DATA_START, 256, 4096)

  /** The zeroed memory after formatting: the superblock and the entries of the three system blocks. */
  ghost function FormattedMemory(): seq<byte> {
    var end := FatEntry(END_OF_FILE, true);
    var size := SHIPPED_BLOCK_SIZE;
    var m := StoreSuperblock(Zeros(Start(SHIPPED_BLOCKS, size)), FORMATTED);
    StoreFat(StoreFat(StoreFat(m, 0, end, size), 1, end, size), 2, end, size)
  }

  const HELLO: CString := [104, 101, 108, 108, 111]

  lemma UsedByte(mem: seq<byte>, i: nat, n: nat, size: nat)
    requires i < n && FatAddress(i, size) + FAT_FIELDS <= |mem|
    ensures FatIn(mem, n, size)[i].used <==> mem[FatAddress(i, size) + 4] != 0
  {
  }

  /** The bytes that decide whether entry i is allocated, before and after the create. */
  lemma HelloBytes(i: nat)
    requires DATA_START <= i < SHIPPED_BLOCKS
    ensures
      var mem, a := FormattedMemory(), FatAddress(i, SHIPPED_BLOCK_SIZE) + 4;
      var mem' := HelloCreated(mem);
      && a < |mem| == |mem'| && a + 1 <= |mem|
      && mem[a] == 0
      && (mem'[a] != 0 <==> i == 3 || i == 512)
  {
    var size, a := SHIPPED_BLOCK_SIZE, FatAddress(i, SHIPPED_BLOCK_SIZE) + 4;
    var end := PutFatEntry(FatEntry(END_OF_FILE, true));
    Places(SHIPPED_BLOCKS, size);
    StartIsProduct(SHIPPED_BLOCKS, size);
    var z := Zeros(Start(SHIPPED_BLOCKS, size));
    var m0 := Splice(z, 0, PutSuperblock(FORMATTED));
    SpliceAt(z, 0, PutSuperblock(FORMATTED), a);
    var m1 := Splice(m0, FatAddress(0, size), end);
    var m2 := Splice(m1, FatAddress(1, size), end);
    SpliceAt(m0, FatAddress(0, size), end, a);
    SpliceAt(m1, FatAddress(1, size), end, a);
    SpliceAt(m2, FatAddress(2, size), end, a);
    var mem := FormattedMemory();
    CreateAt(mem, a);
    HelloSlot();
  }

  const HELLO_ENTRY := DirEntry(HELLO, 3, 0, TYPE_FILE)

  /** The memory after creating the file "/hello" on the formatted file system. */
  ghost function HelloCreated(mem: seq<byte>): seq<byte> {
    CreateStores(mem, 3, FORMATTED.(freeBlocks := 1020), 0, HELLO_ENTRY, SHIPPED_BLOCK_SIZE)
  }

  /** Of the slot's bytes the first five are the name, and those at 56 and 57 up are the block number. */
  lemma HelloSlot()
    ensures forall j :: 0 <= j < SLOT_FIELDS ==>
      (PutDirEntry(HELLO_ENTRY)[j] != 0 <==> j < 5 || j == 56)
  {
  }

  lemma CreateAt(mem: seq<byte>, a: nat)
    requires |mem| == SHIPPED_BLOCKS * SHIPPED_BLOCK_SIZE && SHIPPED_BLOCK_SIZE + 24 <= a < 3 * SHIPPED_BLOCK_SIZE
    ensures |HelloCreated(mem)| == |mem|
    ensures HelloCreated(mem)[a] ==
      if 2 * SHIPPED_BLOCK_SIZE <= a < 2 * SHIPPED_BLOCK_SIZE + SLOT_FIELDS then
        PutDirEntry(HELLO_ENTRY)[a - 2 * SHIPPED_BLOCK_SIZE]
      else if SHIPPED_BLOCK_SIZE + 24 <= a < SHIPPED_BLOCK_SIZE + 29 then
        PutFatEntry(FatEntry(END_OF_FILE, true))[a - SHIPPED_BLOCK_SIZE - 24]
      else mem[a]
  {
    var size, sb := SHIPPED_BLOCK_SIZE, PutSuperblock(FORMATTED.(freeBlocks := 1020));
    Places(SHIPPED_BLOCKS, size);
    StartIsProduct(SHIPPED_BLOCKS, size);
    var end, slot := PutFatEntry(FatEntry(END_OF_FILE, true)), PutDirEntry(HELLO_ENTRY);
    SpliceAt(mem, FatAddress(3, size), end, a);
    var m1 := Splice(mem, FatAddress(3, size), end);
    SpliceAt(m1, 0, sb, a);
    var m2 := Splice(m1, 0, sb);
    SpliceAt(m2, SlotAddress(0, size), slot, a);
    var m3 := Splice(m2, SlotAddress(0, size), slot);
    SpliceAt(m3, Start(3, size), Zeros(size), a);
  }

  /** With the shipped sizes the first create breaks the free-block count: the letter "o" of "hello" is the
      allocated byte of FAT entry 512, so 1019 data blocks are unallocated while the counter says 1020. */
  lemma ShippedCreateBreaksTheCounter()
    ensures
      var mem := FormattedMemory();
      var mem', fat := HelloCreated(mem), FatIn(mem, SHIPPED_BLOCKS, SHIPPED_BLOCK_SIZE);
      var fat' := FatIn(mem', SHIPPED_BLOCKS, SHIPPED_BLOCK_SIZE);
      && FirstFree(fat, DATA_START) == 3 && FORMATTED.freeBlocks == |FreeSet(fat)|
      && SuperblockIn(mem').freeBlocks == 1020
      && fat'[512].used && |FreeSet(fat')| == 1019
  {
    var mem := FormattedMemory();
    var mem' := HelloCreated(mem);
    HelloFats(mem, mem');
    TwoFewerFree(FatIn(mem, SHIPPED_BLOCKS, SHIPPED_BLOCK_SIZE), FatIn(mem', SHIPPED_BLOCKS, SHIPPED_BLOCK_SIZE));
    HelloCounter(mem);
  }

  lemma HelloFats(mem: seq<byte>, mem': seq<byte>)
    requires mem == FormattedMemory() && mem' == HelloCreated(mem)
    ensures |mem| == SHIPPED_BLOCKS * SHIPPED_BLOCK_SIZE
    ensures
      var n, size := SHIPPED_BLOCKS, SHIPPED_BLOCK_SIZE;
      forall i :: DATA_START <= i < n ==>
        !FatIn(mem, n, size)[i].used && (FatIn(mem', n, size)[i].used <==> i == 3 || i == 512)
  {
    var n, size := SHIPPED_BLOCKS, SHIPPED_BLOCK_SIZE;
    HelloBytes(3);
    Places(n, size);
    StartIsProduct(n, size);
    forall i | DATA_START <= i < n
      ensures !FatIn(mem, n, size)[i].used && (FatIn(mem', n, size)[i].used <==> i == 3 || i == 512)
    {
      HelloBytes(i);
      UsedByte(mem, i, n, size);
      UsedByte(mem', i, n, size);
    }
  }

  lemma TwoFewerFree(fat: seq<FatEntry>, fat': seq<FatEntry>)
    requires |fat| == |fat'| == SHIPPED_BLOCKS
    requires forall i :: DATA_START <= i < |fat| ==> !fat[i].used && (fat'[i].used <==> i == 3 || i == 512)
    ensures FirstFree(fat, DATA_START) == 3 && |FreeSet(fat)| == 1021
    ensures fat'[512].used && |FreeSet(fat')| == 1019
  {
    AllFree(fat, DATA_START);
    assert FreeSet(fat') == FreeSet(fat) - {3, 512} && 3 in FreeSet(fat) && 512 in FreeSet(fat);
  }

  lemma HelloCounter(mem: seq<byte>)
    requires |mem| == SHIPPED_BLOCKS * SHIPPED_BLOCK_SIZE
    ensures SuperblockIn(HelloCreated(mem)).freeBlocks == 1020
  {
    var size, sb := SHIPPED_BLOCK_SIZE, FORMATTED.(freeBlocks := 1020);
    Places(SHIPPED_BLOCKS, size);
    StartIsProduct(SHIPPED_BLOCKS, size);
    var m1 := StoreFat(mem, 3, FatEntry(END_OF_FILE, true), size);
    var m2 := StoreSuperblock(m1, sb);
    StoredThere(m1, 0, PutSuperblock(sb));
    SuperblockRoundTrip(sb);
    ElsewhereUnchanged(m2, SlotAddress(0, size), PutDirEntry(HELLO_ENTRY), 0, SUPERBLOCK_FIELDS);
    var m3 := StoreSlot(m2, 0, HELLO_ENTRY, size);
    ElsewhereUnchanged(m3, Start(3, size), Zeros(size), 0, SUPERBLOCK_FIELDS);
  }
}
