/** Saving SimpleFS to an ATA drive and loading it back: fs_save_to_disk and fs_load_from_disk over the one
    stretch of memory that holds all blocks, with the drive as an array of sectors behind the range checks
    of drivers/ata.c. The FAT may run on into the directory's block, as it does with the shipped sizes. */
module SimpleFsDisk {
  import opened Bytes
  import opened SimpleFsVolume
  import opened SimpleFsContent
  import opened SimpleFsSpec
  import opened SimpleFsImage
  import opened SimpleFsMemory
  import opened SimpleFsTheorems

  const FS_DISK_START_LBA := 128
  const SECTORS_PER_BLOCK := 8
  const BOOT_SECTORS := 64

  function Lba(block: nat, sector: nat): nat {
    (FS_DISK_START_LBA + block) * SECTORS_PER_BLOCK + sector
  }

  /** No two sectors of any two blocks share a place on the disk, and none lies in the boot area. */
  lemma LbaInjective(b: nat, s: nat, b': nat, s': nat)
    requires s < SECTORS_PER_BLOCK && s' < SECTORS_PER_BLOCK
    ensures Lba(b, s) >= BOOT_SECTORS
    ensures Lba(b, s) == Lba(b', s') <==> b == b' && s == s'
  {
  }

  ghost predicate OnDisk(sectors: seq<seq<byte>>, b: nat) {
    Lba(b + 1, 0) <= |sectors|
  }

  /** Sectors one behind the other. */
  ghost function Join(sectors: seq<seq<byte>>): seq<byte> {
    if sectors == [] then [] else Join(sectors[..|sectors| - 1]) + sectors[|sectors| - 1]
  }

  /** The bytes of block b as they are on the disk. */
  ghost function DiskBlock(sectors: seq<seq<byte>>, b: nat): seq<byte>
    requires OnDisk(sectors, b)
  {
    Join(sectors[Lba(b, 0)..Lba(b + 1, 0)])
  }

  /** The bytes of its first n sectors. */
  ghost function FirstSectors(sectors: seq<seq<byte>>, b: nat, n: nat): seq<byte>
    requires Lba(b, n) <= |sectors|
  {
    Join(sectors[Lba(b, 0)..Lba(b, n)])
  }

  lemma OneMoreSector(sectors: seq<seq<byte>>, b: nat, n: nat)
    requires Lba(b, n) < |sectors|
    ensures FirstSectors(sectors, b, n + 1) == FirstSectors(sectors, b, n) + sectors[Lba(b, n)]
  {
    var s := sectors[Lba(b, 0)..Lba(b, n + 1)];
    assert s[..|s| - 1] == sectors[Lba(b, 0)..Lba(b, n)];
  }

  /** A sector written behind the first n leaves them as they are. */
  lemma SectorWritten(sectors: seq<seq<byte>>, sectors': seq<seq<byte>>, b: nat, n: nat, data: seq<byte>)
    requires Lba(b, n) < |sectors| && sectors' == sectors[Lba(b, n) := data]
    ensures FirstSectors(sectors', b, n + 1) == FirstSectors(sectors, b, n) + data
  {
    OneMoreSector(sectors', b, n);
    assert sectors'[Lba(b, 0)..Lba(b, n)] == sectors[Lba(b, 0)..Lba(b, n)];
  }

  lemma PrefixAndSlice<T>(s: seq<T>, a: nat, b: nat)
    requires a <= b <= |s|
    ensures s[..a] + s[a..b] == s[..b]
  {
  }

  /** A block's bytes depend on its own sectors only. */
  lemma DiskBlockFrame(sectors: seq<seq<byte>>, sectors': seq<seq<byte>>, b: nat)
    requires |sectors| == |sectors'| && OnDisk(sectors, b)
    requires forall i :: Lba(b, 0) <= i < Lba(b + 1, 0) ==> sectors[i] == sectors'[i]
    ensures DiskBlock(sectors, b) == DiskBlock(sectors', b)
  {
    assert sectors[Lba(b, 0)..Lba(b + 1, 0)] == sectors'[Lba(b, 0)..Lba(b + 1, 0)];
  }

  lemma {:induction false} JoinLength(sectors: seq<seq<byte>>, sectorSize: nat)
    requires SectorsOk(sectors, sectorSize)
    ensures |Join(sectors)| == Start(|sectors|, sectorSize)
  {
    if sectors != [] {
      JoinLength(sectors[..|sectors| - 1], sectorSize);
    }
  }

  lemma FirstSectorsLength(sectors: seq<seq<byte>>, b: nat, n: nat, sectorSize: nat)
    requires SectorsOk(sectors, sectorSize) && Lba(b, n) <= |sectors|
    ensures |FirstSectors(sectors, b, n)| == n * sectorSize
  {
    JoinLength(sectors[Lba(b, 0)..Lba(b, n)], sectorSize);
    SectorStart(n, sectorSize);
  }

  lemma DiskBlockLength(sectors: seq<seq<byte>>, b: nat, sectorSize: nat)
    requires SectorsOk(sectors, sectorSize) && OnDisk(sectors, b)
    ensures |DiskBlock(sectors, b)| == SECTORS_PER_BLOCK * sectorSize
  {
    FirstSectorsLength(sectors, b, SECTORS_PER_BLOCK, sectorSize);
  }

  class AtaDrive {
    const sectors: array<seq<byte>>

    /** One sector; refused beyond the capacity and in the boot area. */
    method WriteSector(lba: nat, data: seq<byte>) returns (ok: bool)
      modifies sectors
      ensures ok <==> BOOT_SECTORS <= lba < sectors.Length
      ensures sectors[..] == if ok then old(sectors[..])[lba := data] else old(sectors[..])
    {
      if lba >= sectors.Length {
        return false;
      }
      if lba < BOOT_SECTORS {
        return false;
      }
      sectors[lba] := data;
      return true;
    }

    method ReadSector(lba: nat) returns (ok: bool, data: seq<byte>)
      ensures ok <==> lba < sectors.Length
      ensures ok ==> data == sectors[lba]
    {
      if lba >= sectors.Length {
        return false, [];
      }
      return true, sectors[lba];
    }

    constructor (capacity: nat, sectorSize: nat)
      ensures fresh(sectors) && sectors.Length == capacity
      ensures forall i :: 0 <= i < capacity ==> |sectors[i]| == sectorSize
    {
      sectors := new seq<byte>[capacity](_ => Zeros(sectorSize));
    }
  }

  ghost predicate SectorsOk(sectors: seq<seq<byte>>, sectorSize: nat) {
    forall i :: 0 <= i < |sectors| ==> |sectors[i]| == sectorSize
  }

  lemma SectorStart(s: nat, sectorSize: nat)
    ensures Start(s, sectorSize) == s * sectorSize
  {
    StartIsProduct(s, sectorSize);
  }

  /** Where sector s of block b of n blocks lies in memory. */
  lemma SectorPlace(b: nat, n: nat, s: nat, sectorSize: nat)
    requires b < n && s < SECTORS_PER_BLOCK
    ensures
      var size := SECTORS_PER_BLOCK * sectorSize;
      && 0 <= s * sectorSize && s * sectorSize + sectorSize <= size
      && (s + 1) * sectorSize == s * sectorSize + sectorSize
      && b * size == Start(b, size) && Start(b, size) + size <= Start(n, size)
  {
    SectorStart(b, SECTORS_PER_BLOCK * sectorSize);
    StartMonotone(b, n, SECTORS_PER_BLOCK * sectorSize);
    NextMultiple(s, SECTORS_PER_BLOCK, sectorSize);
  }

  // ----- what is saved and what is loaded -----

  /** The FAT's entry for block b, read from memory, has the block as allocated. */
  predicate Allocated(mem: seq<byte>, b: nat, size: nat) {
    FatEntryAt(mem, FatAddress(b, size)).used
  }

  /** The blocks a save writes: the three system blocks and every allocated data block. */
  predicate ToSave(mem: seq<byte>, b: nat, size: nat) {
    b < DATA_START || Allocated(mem, b, size)
  }

  /** What is on the disk for block b is what is in memory. */
  ghost predicate Holds(sectors: seq<seq<byte>>, mem: seq<byte>, b: nat, size: nat) {
    OnDisk(sectors, b) && DiskBlock(sectors, b) == BlockIn(mem, b, size)
  }

  ghost predicate HasPlaces(sectors: seq<seq<byte>>, mem: seq<byte>, n: nat, size: nat) {
    forall b :: 0 <= b < n && ToSave(mem, b, size) ==> OnDisk(sectors, b)
  }

  ghost predicate Saved(sectors: seq<seq<byte>>, mem: seq<byte>, n: nat, size: nat) {
    forall b :: 0 <= b < n && ToSave(mem, b, size) ==> Holds(sectors, mem, b, size)
  }

  /** The first three blocks on the disk: superblock, and FAT and directory one behind the other. */
  ghost function SystemBlocks(sectors: seq<seq<byte>>): seq<byte>
    requires OnDisk(sectors, 2)
  {
    DiskBlock(sectors, 0) + DiskBlock(sectors, 1) + DiskBlock(sectors, 2)
  }

  ghost predicate TablesLoad(sectors: seq<seq<byte>>) {
    OnDisk(sectors, 2) && SuperblockIn(DiskBlock(sectors, 0)).magic == FS_MAGIC
  }

  /** The drive carries a SimpleFS superblock and has every block that its FAT has as allocated. */
  ghost predicate CanLoad(sectors: seq<seq<byte>>, n: nat, size: nat) {
    TablesLoad(sectors) && BlocksLoad(sectors, n, size)
  }

  ghost predicate BlocksLoad(sectors: seq<seq<byte>>, n: nat, size: nat)
    requires OnDisk(sectors, 2)
  {
    forall b :: DATA_START <= b < n && Allocated(SystemBlocks(sectors), b, size) ==> OnDisk(sectors, b)
  }

  /** The system blocks are those on the disk, and so is every data block allocated in the FAT found there;
      every other block is as before. */
  ghost predicate LoadEffect(mem: seq<byte>, mem': seq<byte>, sectors: seq<seq<byte>>, n: nat, size: nat) {
    && |mem'| == |mem|
    && OnDisk(sectors, 2) && SystemBlocks(sectors) <= mem'
    && forall b :: DATA_START <= b < n ==> BlockLoaded(mem, mem', sectors, b, size)
  }

  ghost predicate BlockLoaded(mem: seq<byte>, mem': seq<byte>, sectors: seq<seq<byte>>, b: nat, size: nat)
    requires OnDisk(sectors, 2)
  {
    if Allocated(SystemBlocks(sectors), b, size) then
      OnDisk(sectors, b) && BlockIn(mem', b, size) == DiskBlock(sectors, b)
    else BlockIn(mem', b, size) == BlockIn(mem, b, size)
  }

  class DiskStore {
    const blockCount: nat
    const blockSize: nat
    const sectorSize: nat
    const mem: array<byte>
    const drive: AtaDrive
    var initialized: bool
    var diskEnabled: bool

    /** The FAT ends with the directory's block at the latest; with the shipped sizes it ends exactly there. */
    ghost predicate Ready()
      reads this, drive, drive.sectors
    {
      && DATA_START <= blockCount && SUPERBLOCK_FIELDS <= blockSize
      && FAT_ENTRY_SIZE * blockCount <= blockSize + blockSize
      && blockSize == SECTORS_PER_BLOCK * sectorSize
      && mem.Length == Start(blockCount, blockSize)
      && SectorsOk(drive.sectors[..], sectorSize)
    }

    constructor (blockCount: nat, sectorSize: nat, mem: array<byte>, drive: AtaDrive)
      requires DATA_START <= blockCount && SUPERBLOCK_FIELDS <= SECTORS_PER_BLOCK * sectorSize
      requires FAT_ENTRY_SIZE * blockCount <= 2 * SECTORS_PER_BLOCK * sectorSize
      requires mem.Length == blockCount * (SECTORS_PER_BLOCK * sectorSize) && SectorsOk(drive.sectors[..], sectorSize)
      ensures Ready() && this.mem == mem && this.drive == drive && this.blockCount == blockCount
      ensures this.sectorSize == sectorSize
      ensures blockSize == SECTORS_PER_BLOCK * sectorSize && !diskEnabled && !initialized
    {
      this.blockCount, this.sectorSize, this.blockSize := blockCount, sectorSize, SECTORS_PER_BLOCK * sectorSize;
      this.mem, this.drive, this.diskEnabled, this.initialized := mem, drive, false, false;
      SectorStart(blockCount, SECTORS_PER_BLOCK * sectorSize);
    }

    /** Writes a block as eight sectors. */
    method WriteBlock(b: nat, block: seq<byte>) returns (r: int)
      requires |block| == SECTORS_PER_BLOCK * sectorSize
      requires SectorsOk(drive.sectors[..], sectorSize)
      modifies drive.sectors
      ensures SectorsOk(drive.sectors[..], sectorSize)
      ensures r == if OnDisk(drive.sectors[..], b) then FS_SUCCESS else FS_ERROR_NO_SPACE
      ensures r == FS_SUCCESS ==> DiskBlock(drive.sectors[..], b) == block
      ensures forall i :: 0 <= i < drive.sectors.Length && !(Lba(b, 0) <= i < Lba(b + 1, 0)) ==>
        drive.sectors[i] == old(drive.sectors[i])
    {
      for sector := 0 to SECTORS_PER_BLOCK
        invariant SectorsOk(drive.sectors[..], sectorSize)
        invariant sector > 0 ==> Lba(b, sector) <= drive.sectors.Length
        invariant sector * sectorSize <= |block|
        invariant sector > 0 ==> FirstSectors(drive.sectors[..], b, sector) == block[..sector * sectorSize]
        invariant forall i :: 0 <= i < drive.sectors.Length && !(Lba(b, 0) <= i < Lba(b + 1, 0)) ==>
          drive.sectors[i] == old(drive.sectors[i])
      {
        SectorPlace(b, b + 1, sector, sectorSize);
        ghost var before := drive.sectors[..];
        var data := block[sector * sectorSize..sector * sectorSize + sectorSize];
        var ok := drive.WriteSector(Lba(b, sector), data);
        if !ok {
          return FS_ERROR_NO_SPACE;
        }
        SectorWritten(before, drive.sectors[..], b, sector, data);
        PrefixAndSlice(block, sector * sectorSize, sector * sectorSize + sectorSize);
      }
      return FS_SUCCESS;
    }

    /** Reads the eight sectors of a block into its place in memory. */
    method ReadBlock(b: nat) returns (r: int)
      requires Ready() && b < blockCount
      modifies mem
      ensures r == if OnDisk(drive.sectors[..], b) then FS_SUCCESS else FS_ERROR_NOT_FOUND
      ensures r == FS_SUCCESS ==> mem[..] == StoreBlock(old(mem[..]), b, DiskBlock(drive.sectors[..], b), blockSize)
    {
      ghost var m, sectors := mem[..], drive.sectors[..];
      SectorPlace(b, blockCount, 0, sectorSize);
      ghost var at := Start(b, blockSize);
      for sector := 0 to SECTORS_PER_BLOCK
        invariant sector == 0 ==> mem[..] == m
        invariant sector > 0 ==>
          Lba(b, sector) <= |sectors| && mem[..] == Splice(m, at, FirstSectors(sectors, b, sector))
      {
        var ok, data := drive.ReadSector(Lba(b, sector));
        if !ok {
          return FS_ERROR_NOT_FOUND;
        }
        SectorPlace(b, blockCount, sector, sectorSize);
        FirstSectorsLength(sectors, b, sector, sectorSize);
        OneMoreSector(sectors, b, sector);
        StoreSector(b * blockSize + sector * sectorSize, data);
        SpliceTwice(m, at, FirstSectors(sectors, b, sector), data);
        SpliceNothing(m, at);
      }
      return FS_SUCCESS;
    }

    /** Copies one sector's bytes into memory. */
    method StoreSector(at: nat, data: seq<byte>)
      requires at + |data| <= mem.Length
      modifies mem
      ensures mem[..] == Splice(old(mem[..]), at, data)
    {
      forall k | 0 <= k < |data| {
        mem[at + k] := data[k];
      }
    }

    /** Saves the file system. It succeeds exactly when disk mode is on, the file system is initialised
        and every block to save has its place on the drive. */
    method Save() returns (r: int)
      requires Ready()
      modifies drive.sectors
      ensures Ready()
      ensures r == if !diskEnabled || !initialized then FS_ERROR_NOT_FOUND
                   else if HasPlaces(drive.sectors[..], mem[..], blockCount, blockSize) then FS_SUCCESS
                   else FS_ERROR_NO_SPACE
      ensures r == FS_SUCCESS ==> Saved(drive.sectors[..], mem[..], blockCount, blockSize)
    {
      if !diskEnabled || !initialized {
        return FS_ERROR_NOT_FOUND;
      }
      ghost var m := mem[..];
      for b := 0 to blockCount
        invariant Ready() && mem[..] == m
        invariant Saved(drive.sectors[..], m, b, blockSize)
      {
        AllocatedByte(m, b, blockCount, blockSize);
        if b < DATA_START || mem[blockSize + FAT_ENTRY_SIZE * b + 4] != 0 {
          assert ToSave(m, b, blockSize);
          ghost var before := drive.sectors[..];
          StartMonotone(b, blockCount, blockSize);
          SectorStart(b, blockSize);
          r := WriteBlock(b, mem[b * blockSize..b * blockSize + blockSize]);
          if r != FS_SUCCESS {
            return FS_ERROR_NO_SPACE;
          }
          SavedStays(before, drive.sectors[..], m, b, blockSize);
        }
      }
      return FS_SUCCESS;
    }

    /** Loads the file system from the drive into memory. */
    method Load() returns (r: int)
      requires Ready()
      modifies this`initialized, mem
      ensures r == if CanLoad(drive.sectors[..], blockCount, blockSize) then FS_SUCCESS else FS_ERROR_NOT_FOUND
      ensures initialized == (old(initialized) || r == FS_SUCCESS)
      ensures r == FS_SUCCESS ==> LoadEffect(old(mem[..]), mem[..], drive.sectors[..], blockCount, blockSize)
    {
      ghost var m := mem[..];
      r := LoadTables();
      if r != FS_SUCCESS {
        return FS_ERROR_NOT_FOUND;
      }
      ghost var mid := mem[..];
      r := LoadBlocks();
      if r != FS_SUCCESS {
        return FS_ERROR_NOT_FOUND;
      }
      LoadFromTables(m, mid, mem[..], drive.sectors[..], blockCount, blockSize);
      initialized := true;
    }

    /** The first part of a load: the superblock, which must carry the magic number, FAT and directory. */
    method LoadTables() returns (r: int)
      requires Ready()
      modifies mem
      ensures r == if TablesLoad(drive.sectors[..]) then FS_SUCCESS else FS_ERROR_NOT_FOUND
      ensures r == FS_SUCCESS ==>
        && SystemBlocks(drive.sectors[..]) <= mem[..]
        && |SystemBlocks(drive.sectors[..])| == blockSize + blockSize + blockSize
        && forall b :: DATA_START <= b < blockCount ==>
          BlockIn(mem[..], b, blockSize) == BlockIn(old(mem[..]), b, blockSize)
    {
      ghost var m, sectors := mem[..], drive.sectors[..];
      Places(blockCount, blockSize);
      r := ReadBlock(0);
      if r != FS_SUCCESS {
        return FS_ERROR_NOT_FOUND;
      }
      DiskBlockLength(sectors, 0, sectorSize);
      DataBlocksUnchanged(m, blockCount, 0, DiskBlock(sectors, 0), blockSize);
      ghost var m0 := mem[..];
      StoredThere(m, 0, DiskBlock(sectors, 0));
      assert m0[..SUPERBLOCK_FIELDS] == DiskBlock(sectors, 0)[..SUPERBLOCK_FIELDS];
      if GetSuperblock(mem[..SUPERBLOCK_FIELDS]).magic != FS_MAGIC {
        return FS_ERROR_NOT_FOUND;
      }
      r := ReadBlock(1);
      if r != FS_SUCCESS {
        return FS_ERROR_NOT_FOUND;
      }
      DiskBlockLength(sectors, 1, sectorSize);
      DataBlocksUnchanged(m0, blockCount, blockSize, DiskBlock(sectors, 1), blockSize);
      ghost var m1 := mem[..];
      r := ReadBlock(2);
      if r != FS_SUCCESS {
        return FS_ERROR_NOT_FOUND;
      }
      DiskBlockLength(sectors, 2, sectorSize);
      DataBlocksUnchanged(m1, blockCount, blockSize + blockSize, DiskBlock(sectors, 2), blockSize);
      ThreeStores(m, DiskBlock(sectors, 0), DiskBlock(sectors, 1), DiskBlock(sectors, 2), blockSize);
    }

    /** The second part: every data block that the FAT has as allocated. */
    method LoadBlocks() returns (r: int)
      requires Ready() && OnDisk(drive.sectors[..], 2)
      requires SystemBlocks(drive.sectors[..]) <= mem[..]
      requires |SystemBlocks(drive.sectors[..])| == blockSize + blockSize + blockSize
      modifies mem
      ensures r == if BlocksLoad(drive.sectors[..], blockCount, blockSize) then FS_SUCCESS else FS_ERROR_NOT_FOUND
      ensures r == FS_SUCCESS ==> LoadEffect(old(mem[..]), mem[..], drive.sectors[..], blockCount, blockSize)
    {
      ghost var m := mem[..];
      for b := DATA_START to blockCount
        invariant LoadedUpTo(m, mem[..], drive.sectors[..], b, blockCount, blockSize)
      {
        r := LoadIfAllocated(b, m);
        if r != FS_SUCCESS {
          return FS_ERROR_NOT_FOUND;
        }
      }
      AllLoaded(m, mem[..], drive.sectors[..], blockCount, blockSize);
      return FS_SUCCESS;
    }

    /** One round of the loop, in a load whose tables came into memory m. */
    method LoadIfAllocated(b: nat, ghost m: seq<byte>) returns (r: int)
      requires Ready() && OnDisk(drive.sectors[..], 2) && DATA_START <= b < blockCount
      requires |SystemBlocks(drive.sectors[..])| == blockSize + blockSize + blockSize
      requires LoadedUpTo(m, mem[..], drive.sectors[..], b, blockCount, blockSize)
      modifies mem
      ensures r == if Allocated(SystemBlocks(drive.sectors[..]), b, blockSize) && !OnDisk(drive.sectors[..], b)
                   then FS_ERROR_NOT_FOUND else FS_SUCCESS
      ensures r == FS_SUCCESS ==> LoadedUpTo(m, mem[..], drive.sectors[..], b + 1, blockCount, blockSize)
    {
      ghost var before, sectors := mem[..], drive.sectors[..];
      AllocatedByte(before, b, blockCount, blockSize);
      AllocatedInTables(SystemBlocks(sectors), before, b, blockCount, blockSize);
      if mem[blockSize + FAT_ENTRY_SIZE * b + 4] == 0 {
        return FS_SUCCESS;
      }
      r := ReadBlock(b);
      if r == FS_SUCCESS {
        DiskBlockLength(sectors, b, sectorSize);
        NextBlockLoaded(m, before, sectors, b, blockCount, blockSize);
      }
    }
  }

  /** The loop of a load has dealt with the blocks before b. */
  ghost predicate LoadedUpTo(mem: seq<byte>, mem': seq<byte>, sectors: seq<seq<byte>>, b: nat, n: nat, size: nat)
    requires OnDisk(sectors, 2)
  {
    && |mem'| == |mem| && SystemBlocks(sectors) <= mem'
    && (forall x :: DATA_START <= x < b ==> BlockLoaded(mem, mem', sectors, x, size))
    && (forall x :: b <= x < n ==> BlockIn(mem', x, size) == BlockIn(mem, x, size))
  }

  lemma NextBlockLoaded(m: seq<byte>, mem: seq<byte>, sectors: seq<seq<byte>>, b: nat, n: nat, size: nat)
    requires OnDisk(sectors, 2) && |SystemBlocks(sectors)| == size + size + size
    requires LoadedUpTo(m, mem, sectors, b, n, size) && |mem| == Start(n, size) && DATA_START <= b < n
    requires Allocated(SystemBlocks(sectors), b, size) && OnDisk(sectors, b) && |DiskBlock(sectors, b)| == size
    ensures LoadedUpTo(m, StoreBlock(mem, b, DiskBlock(sectors, b), size), sectors, b + 1, n, size)
  {
    var mem' := StoreBlock(mem, b, DiskBlock(sectors, b), size);
    OneBlockStored(mem, SystemBlocks(sectors), n, b, DiskBlock(sectors, b), size);
    forall x | DATA_START <= x < b + 1 ensures BlockLoaded(m, mem', sectors, x, size) {
      assert x < b ==> BlockLoaded(m, mem, sectors, x, size);
    }
  }

  lemma AllLoaded(mem: seq<byte>, mem': seq<byte>, sectors: seq<seq<byte>>, n: nat, size: nat)
    requires OnDisk(sectors, 2) && LoadedUpTo(mem, mem', sectors, n, n, size)
    ensures BlocksLoad(sectors, n, size) && LoadEffect(mem, mem', sectors, n, size)
  {
    forall b | DATA_START <= b < n && Allocated(SystemBlocks(sectors), b, size) ensures OnDisk(sectors, b) {
      assert BlockLoaded(mem, mem', sectors, b, size);
    }
  }

  /** What the blocks were before the tables were loaded is what they were after. */
  lemma LoadFromTables(mem: seq<byte>, mid: seq<byte>, mem': seq<byte>, sectors: seq<seq<byte>>, n: nat, size: nat)
    requires |mem| == |mid| && LoadEffect(mid, mem', sectors, n, size)
    requires forall b :: DATA_START <= b < n ==> BlockIn(mid, b, size) == BlockIn(mem, b, size)
    ensures LoadEffect(mem, mem', sectors, n, size)
  {
    forall b | DATA_START <= b < n ensures BlockLoaded(mem, mem', sectors, b, size) {
      assert BlockLoaded(mid, mem', sectors, b, size);
    }
  }

  /** Writing block b leaves the blocks saved before it. */
  lemma SavedStays(sectors: seq<seq<byte>>, sectors': seq<seq<byte>>, mem: seq<byte>, b: nat, size: nat)
    requires |sectors| == |sectors'| && Saved(sectors, mem, b, size) && Holds(sectors', mem, b, size)
    requires forall i :: 0 <= i < |sectors| && !(Lba(b, 0) <= i < Lba(b + 1, 0)) ==> sectors'[i] == sectors[i]
    ensures Saved(sectors', mem, b + 1, size)
  {
    forall x | 0 <= x < b && ToSave(mem, x, size) ensures Holds(sectors', mem, x, size) {
      assert Holds(sectors, mem, x, size);
      DiskBlockFrame(sectors, sectors', x);
    }
  }

  lemma AllocatedByte(mem: seq<byte>, b: nat, n: nat, size: nat)
    requires DATA_START <= n && |mem| == Start(n, size) && b < n && FAT_ENTRY_SIZE * n <= size + size
    ensures size + FAT_ENTRY_SIZE * b + FAT_ENTRY_SIZE <= size + size + size <= |mem|
    ensures Allocated(mem, b, size) <==> mem[size + FAT_ENTRY_SIZE * b + 4] != 0
  {
    Places(n, size);
  }

  /** The FAT lies in the system blocks. */
  lemma AllocatedInTables(t: seq<byte>, mem: seq<byte>, b: nat, n: nat, size: nat)
    requires t <= mem && |t| == size + size + size && b < n && FAT_ENTRY_SIZE * n <= size + size
    ensures Allocated(mem, b, size) <==> Allocated(t, b, size)
  {
    var a := FatAddress(b, size);
    assert mem[a..a + FAT_FIELDS] == t[a..a + FAT_FIELDS];
  }

  lemma ThreeStores(m: seq<byte>, a: seq<byte>, b: seq<byte>, c: seq<byte>, size: nat)
    requires |a| == |b| == |c| == size && size + size + size <= |m|
    ensures |Splice(m, 0, a)| == |m| && |Splice(Splice(m, 0, a), size, b)| == |m|
    ensures a + b + c <= Splice(Splice(Splice(m, 0, a), size, b), size + size, c)
  {
  }

  /** Storing one data block leaves the system blocks and every other data block alone. */
  lemma OneBlockStored(mem: seq<byte>, t: seq<byte>, n: nat, b: nat, block: seq<byte>, size: nat)
    requires |mem| == Start(n, size) && DATA_START <= b < n && |block| == size
    requires t <= mem && |t| == size + size + size
    ensures t <= StoreBlock(mem, b, block, size)
    ensures BlockIn(StoreBlock(mem, b, block, size), b, size) == block
    ensures forall x :: DATA_START <= x < n && x != b ==>
      BlockIn(StoreBlock(mem, b, block, size), x, size) == BlockIn(mem, x, size)
  {
    Places(n, size);
    StoredThere(mem, Start(b, size), block);
    forall x | DATA_START <= x < n && x != b
      ensures BlockIn(StoreBlock(mem, b, block, size), x, size) == BlockIn(mem, x, size)
    {
      StartMonotone(if x < b then x else b, if x < b then b else x, size);
      ElsewhereUnchanged(mem, Start(b, size), block, Start(x, size), size);
    }
  }

  // ----- what a save and a load do together -----

  lemma SavedSystemBlocks(sectors: seq<seq<byte>>, mem: seq<byte>, n: nat, size: nat)
    requires DATA_START <= n && |mem| == Start(n, size) && Saved(sectors, mem, n, size)
    ensures OnDisk(sectors, 2) && |SystemBlocks(sectors)| == size + size + size <= |mem|
    ensures DiskBlock(sectors, 0) == mem[..size] && SystemBlocks(sectors) == mem[..size + size + size]
  {
    Places(n, size);
    assert ToSave(mem, 0, size) && ToSave(mem, 1, size) && ToSave(mem, 2, size);
    assert Holds(sectors, mem, 0, size) && Holds(sectors, mem, 1, size) && Holds(sectors, mem, 2, size);
    assert mem[..size] + mem[size..size + size] + mem[size + size..size + size + size] == mem[..size + size + size];
  }

  /** Whatever was saved can be loaded; a load brings back superblock, FAT and directory byte for byte, and
      the bytes of every block that was allocated. No table needs to fit in its block for this. */
  lemma SavedMemoryLoadsBack(sectors: seq<seq<byte>>, mem: seq<byte>, w: seq<byte>, w': seq<byte>, n: nat, size: nat)
    requires DATA_START <= n && |mem| == |w| == Start(n, size) && SUPERBLOCK_FIELDS <= size
    requires FAT_ENTRY_SIZE * n <= size + size
    requires Saved(sectors, mem, n, size) && SuperblockIn(mem).magic == FS_MAGIC
    ensures CanLoad(sectors, n, size)
    ensures LoadEffect(w, w', sectors, n, size) ==>
      && |w'| == |mem| && size + size + size <= |mem| && w'[..size + size + size] == mem[..size + size + size]
      && forall b :: DATA_START <= b < n ==>
           BlockIn(w', b, size) == BlockIn(if Allocated(mem, b, size) then mem else w, b, size)
  {
    Places(n, size);
    SavedSystemBlocks(sectors, mem, n, size);
    assert mem[..size][..SUPERBLOCK_FIELDS] == mem[..SUPERBLOCK_FIELDS];
    var t := SystemBlocks(sectors);
    forall b | DATA_START <= b < n
      ensures Allocated(t, b, size) <==> Allocated(mem, b, size)
      ensures Allocated(mem, b, size) ==> Holds(sectors, mem, b, size)
    {
      AllocatedInTables(t, mem, b, n, size);
      assert Allocated(mem, b, size) ==> ToSave(mem, b, size);
    }
    if LoadEffect(w, w', sectors, n, size) {
      forall b | DATA_START <= b < n
        ensures BlockIn(w', b, size) == BlockIn(if Allocated(mem, b, size) then mem else w, b, size)
      {
        assert BlockLoaded(w, w', sectors, b, size);
      }
    }
  }

  /** The state v with other data blocks. */
  ghost function Reloaded(v: Snapshot, w': seq<byte>, size: nat): Snapshot {
    v.(blocks := seq(|v.blocks|, b requires 0 <= b < |v.blocks| =>
                       if b < DATA_START then v.blocks[b] else BlockIn(w', b, size)))
  }

  /** After a successful save, and whatever happened in memory since, a load brings back the saved
      superblock, FAT and directory, and with them the bytes of every saved file; with no descriptor
      open the whole invariant holds again. */
  lemma LoadRestoresTheSavedFiles(
      sectors: seq<seq<byte>>, mem: seq<byte>, v: Snapshot, w: seq<byte>, w': seq<byte>, fds: seq<Descriptor>,
      size: nat)
    requires Ok(v, size) && InMemory(mem, v, size) && Saved(sectors, mem, |v.fat|, size)
    requires |w| == |mem| && LoadEffect(w, w', sectors, |v.fat|, size)
    ensures InMemory(w', Reloaded(v, w', size), size)
    ensures forall i :: 0 <= i < |v.dir| && v.dir[i].name != [] ==>
      EntryBytes(Reloaded(v, w', size), i) == EntryBytes(v, i)
    ensures |v.cursors| == |fds| && (forall f :: 0 <= f < |fds| ==> !fds[f].inUse) ==>
      var v' := Reloaded(v, w', size).(fds := fds);
      Ok(v', size) && (SizesFit(v, size) ==> SizesFit(v', size))
  {
    var n, v' := |v.fat|, Reloaded(v, w', size);
    Places(n, size);
    SavedMemoryLoadsBack(sectors, mem, w, w', n, size);
    SameTables(mem, w', v, size);
    forall i | 0 <= i < |v.dir| && v.dir[i].name != [] ensures EntryBytes(v', i) == EntryBytes(v, i) {
      var c := v.layout.chains[i];
      forall k | 0 <= k < |c| ensures c[k] < |v.blocks| && v'.blocks[c[k]] == v.blocks[c[k]] {
        assert LinkOk(v.fat, v.layout, i, k) && OwnerOk(v.fat, v.layout, c[k]);
        assert FatIn(mem, n, size)[c[k]] == v.fat[c[k]];
      }
      FlatSame(v'.blocks, v.blocks, c);
    }
    forall b | 0 <= b < n ensures |v'.blocks[b]| == size {
    }
  }

  /** The tables read from memory depend on the first three blocks only. */
  lemma SameTables(mem: seq<byte>, w': seq<byte>, v: Snapshot, size: nat)
    requires TablesFit(|v.fat|, |v.dir|, size)
    requires |w'| == |mem| && size + size + size <= |mem| && w'[..size + size + size] == mem[..size + size + size]
    ensures SuperblockIn(w') == SuperblockIn(mem)
    ensures FatIn(w', |v.fat|, size) == FatIn(mem, |v.fat|, size)
    ensures DirIn(w', |v.dir|, size) == DirIn(mem, |v.dir|, size)
  {
    SameSlice(mem, w', size + size + size, 0, SUPERBLOCK_FIELDS);
    forall i | 0 <= i < |v.fat| ensures FatIn(w', |v.fat|, size)[i] == FatIn(mem, |v.fat|, size)[i] {
      SameSlice(mem, w', size + size + size, FatAddress(i, size), FAT_FIELDS);
    }
    forall i | 0 <= i < |v.dir| ensures DirIn(w', |v.dir|, size)[i] == DirIn(mem, |v.dir|, size)[i] {
      SameSlice(mem, w', size + size + size, SlotAddress(i, size), SLOT_FIELDS);
    }
  }

  lemma SameSlice(m: seq<byte>, w: seq<byte>, p: nat, a: nat, k: nat)
    requires |m| == |w| && a + k <= p <= |m| && w[..p] == m[..p]
    ensures w[a..a + k] == m[a..a + k]
  {
    forall i | a <= i < a + k ensures w[i] == m[i] {
      assert w[..p][i] == m[..p][i];
    }
  }
}
