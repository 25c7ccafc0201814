/** How superblock, FAT entries and directory slots lie in bytes (the packed structures of fs/simplefs.h),
    and that they can be read back from them. */
module SimpleFsImage {
  import opened Bytes
  import opened SimpleFsVolume
  import opened SimpleFsSpec

  // ----- entries -----

  /** The bytes of an entry that hold something; three reserved ones follow. */
  const FAT_FIELDS: nat := 5
  const SLOT_FIELDS: nat := 65

  function PutFatEntry(e: FatEntry): (r: seq<byte>)
    ensures |r| == FAT_FIELDS
  {
    PutU32(e.next) + [if e.used then 1 else 0]
  }

  function GetFatEntry(b: seq<byte>): FatEntry
    requires |b| == FAT_FIELDS
  {
    FatEntry(GetU32(b[..4]), b[4] != 0)
  }

  lemma FatEntryRoundTrip(e: FatEntry)
    requires e.next < U32
    ensures GetFatEntry(PutFatEntry(e)) == e
  {
    U32RoundTrip(e.next);
    assert PutFatEntry(e)[..4] == PutU32(e.next);
  }

  /** The bytes up to the first zero. */
  function UpToZero(b: seq<byte>): (r: CString)
    ensures |r| <= |b|
  {
    if b == [] || b[0] == 0 then [] else [b[0]] + UpToZero(b[1..])
  }

  lemma {:induction false} UpToZeroOfPadded(name: CString, pad: nat)
    requires pad > 0
    ensures UpToZero(name + Zeros(pad)) == name
  {
    if name == [] {
      assert (name + Zeros(pad))[0] == 0;
    } else {
      assert name[0] != 0 && 0 !in name[1..];
      UpToZeroOfPadded(name[1..], pad);
      assert (name + Zeros(pad))[1..] == name[1..] + Zeros(pad);
    }
  }

  function PutDirEntry(e: DirEntry): (r: seq<byte>)
    requires |e.name| < MAX_FILENAME
    ensures |r| == SLOT_FIELDS
  {
    e.name + Zeros(MAX_FILENAME - |e.name|) + PutU32(e.firstBlock) + PutU32(e.size) + [e.kind]
  }

  function GetDirEntry(b: seq<byte>): DirEntry
    requires |b| == SLOT_FIELDS
  {
    DirEntry(UpToZero(b[..MAX_FILENAME]), GetU32(b[56..60]), GetU32(b[60..64]), b[64])
  }

  lemma DirEntryRoundTrip(e: DirEntry)
    requires |e.name| < MAX_FILENAME && 0 !in e.name && e.firstBlock < U32 && e.size < U32
    ensures GetDirEntry(PutDirEntry(e)) == e
  {
    var b := PutDirEntry(e);
    assert b[..56] == e.name + Zeros(MAX_FILENAME - |e.name|);
    assert b[56..60] == PutU32(e.firstBlock) && b[60..64] == PutU32(e.size);
    UpToZeroOfPadded(e.name, MAX_FILENAME - |e.name|);
    U32RoundTrip(e.firstBlock);
    U32RoundTrip(e.size);
  }

  function PutSuperblock(sb: Superblock): (r: seq<byte>)
    ensures |r| == SUPERBLOCK_FIELDS
  {
    PutU32(sb.magic) + PutU32(sb.totalBlocks) + PutU32(sb.freeBlocks) + PutU32(sb.rootDirBlock) +
    PutU32(sb.fatBlock) + PutU32(sb.dataStart) + PutU32(sb.maxFiles) + PutU32(sb.blockSize)
  }

  function GetSuperblock(b: seq<byte>): Superblock
    requires |b| >= SUPERBLOCK_FIELDS
  {
    Superblock(GetU32(b[..4]), GetU32(b[4..8]), GetU32(b[8..12]), GetU32(b[12..16]),
               GetU32(b[16..20]), GetU32(b[20..24]), GetU32(b[24..28]), GetU32(b[28..32]))
  }

  /** Every number in the superblock fits its field. */
  predicate SuperblockFits(sb: Superblock) {
    && sb.magic < U32 && sb.totalBlocks < U32 && sb.freeBlocks < U32 && sb.rootDirBlock < U32
    && sb.fatBlock < U32 && sb.dataStart < U32 && sb.maxFiles < U32 && sb.blockSize < U32
  }

  lemma SuperblockRoundTrip(sb: Superblock)
    requires SuperblockFits(sb)
    ensures GetSuperblock(PutSuperblock(sb)) == sb
  {
    var b := PutSuperblock(sb);
    assert b[..4] == PutU32(sb.magic) && b[4..8] == PutU32(sb.totalBlocks) && b[8..12] == PutU32(sb.freeBlocks);
    assert b[12..16] == PutU32(sb.rootDirBlock) && b[16..20] == PutU32(sb.fatBlock);
    assert b[20..24] == PutU32(sb.dataStart) && b[24..28] == PutU32(sb.maxFiles) && b[28..32] == PutU32(sb.blockSize);
    U32RoundTrip(sb.magic);
    U32RoundTrip(sb.totalBlocks);
    U32RoundTrip(sb.freeBlocks);
    U32RoundTrip(sb.rootDirBlock);
    U32RoundTrip(sb.fatBlock);
    U32RoundTrip(sb.dataStart);
    U32RoundTrip(sb.maxFiles);
    U32RoundTrip(sb.blockSize);
  }
}
