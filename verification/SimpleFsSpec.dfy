/** What the SimpleFS calls do, as relations between the state before and the state after. */
module SimpleFsSpec {
  import opened Bytes
  import opened SimpleFsVolume
  import opened SimpleFsContent

  const FS_SUCCESS := 0
  const FS_ERROR_NOT_FOUND := -1
  const FS_ERROR_EXISTS := -2
  const FS_ERROR_NO_SPACE := -3
  const FS_ERROR_INVALID_PATH := -4
  const FS_ERROR_IS_DIR := -6
  const FS_ERROR_NO_FD := -7
  const FS_ERROR_INVALID_FD := -8
  const FS_ERROR_PERMISSION := -10

  const SLASH: byte := 47

  predicate CanRead(mode: byte) { mode % 2 == 1 }
  predicate CanWrite(mode: byte) { (mode / 2) % 2 == 1 }
  predicate Creates(mode: byte) { (mode / 4) % 2 == 1 }
  predicate Truncates(mode: byte) { (mode / 8) % 2 == 1 }

  datatype Descriptor = Descriptor(
    fd: int, firstBlock: nat, currentBlock: nat, position: nat, fileSize: nat, mode: byte, inUse: bool)

  const CLOSED := Descriptor(0, 0, 0, 0, 0, 0, false)

  /** Which entry a descriptor is open on, and at which place of that entry's chain its current block is. */
  datatype Cursor = Cursor(slot: nat, place: nat)

  /** The whole file system state, together with the layout and the cursors that explain it. */
  datatype Snapshot = Snapshot(
    sb: Superblock, fat: seq<FatEntry>, dir: seq<DirEntry>, blocks: seq<seq<byte>>, fds: seq<Descriptor>,
    initialized: bool, layout: Layout, cursors: seq<Cursor>)

  function Min(a: int, b: int): int { if a < b then a else b }
  function Max(a: int, b: int): int { if a < b then b else a }

  // ----- invariants -----

  ghost predicate DescriptorOk(u: Descriptor, dir: seq<DirEntry>, L: Layout, cur: Cursor)
    requires |L.chains| == |dir|
  {
    && cur.slot < |dir| && dir[cur.slot].name != [] && dir[cur.slot].kind != TYPE_DIRECTORY
    && u.firstBlock == dir[cur.slot].firstBlock
    && cur.place < |L.chains[cur.slot]| && u.currentBlock == L.chains[cur.slot][cur.place]
  }

  ghost predicate DescriptorsOk(fds: seq<Descriptor>, dir: seq<DirEntry>, L: Layout, cursors: seq<Cursor>)
    requires |L.chains| == |dir|
  {
    |cursors| == |fds| && forall f :: 0 <= f < |fds| && fds[f].inUse ==> DescriptorOk(fds[f], dir, L, cursors[f])
  }

  ghost predicate NamesOk(dir: seq<DirEntry>) {
    forall i :: 0 <= i < |dir| ==> |dir[i].name| < MAX_FILENAME && 0 !in dir[i].name
  }

  ghost predicate SuperblockOk(sb: Superblock, blockCount: nat, size: nat) {
    && size < U32
    && sb == Superblock(FS_MAGIC, blockCount, sb.freeBlocks, 2, 1, DATA_START, 256, size)
  }

  /** Kept by every call, whatever came before; compared with true it is handed on as one fact. */
  ghost predicate Ok(v: Snapshot, size: nat) {
    true == (
      && TablesFit(|v.fat|, |v.dir|, size)
      && SuperblockOk(v.sb, |v.fat|, size) && NamesOk(v.dir)
      && VolumeOk(v.fat, v.dir, v.sb.freeBlocks, v.layout)
      && |v.blocks| == |v.fat| && BlocksOk(v.blocks, size)
      && DescriptorsOk(v.fds, v.dir, v.layout, v.cursors))
  }

  /** Sizes never exceed what the chains can hold, and every cursor is in or at the end of its block. */
  ghost predicate SizesFit(v: Snapshot, size: nat)
    requires Ok(v, size)
  {
    && (forall i :: 0 <= i < |v.dir| && v.dir[i].name != [] ==> v.dir[i].size <= Start(|v.layout.chains[i]|, size))
    && (forall f :: 0 <= f < |v.fds| && v.fds[f].inUse ==> CursorFits(v.fds[f], v.layout, v.cursors[f], size))
  }

  ghost predicate CursorFits(u: Descriptor, L: Layout, cur: Cursor, size: nat)
    requires cur.slot < |L.chains|
  {
    && u.position <= u.fileSize <= Start(|L.chains[cur.slot]|, size)
    && Start(cur.place, size) <= u.position <= Start(cur.place, size) + size
  }

  // ----- lookups -----

  /** The first slot from i on holding the name, or -1. */
  function FindEntry(dir: seq<DirEntry>, name: seq<byte>, i: nat := 0): (r: int)
    requires i <= |dir|
    ensures r == -1 || i <= r < |dir|
    ensures r >= 0 ==> dir[r].name != [] && dir[r].name == name
    ensures forall j :: i <= j < (if r >= 0 then r else |dir|) ==> dir[j].name == [] || dir[j].name != name
    decreases |dir| - i
  {
    if i == |dir| then -1
    else if dir[i].name != [] && dir[i].name == name then i
    else FindEntry(dir, name, i + 1)
  }

  /** The first free slot from i on, or |dir|. */
  function FirstEmpty(dir: seq<DirEntry>, i: nat := 0): (r: nat)
    requires i <= |dir|
    ensures i <= r <= |dir|
    ensures r < |dir| ==> dir[r].name == []
    ensures forall j :: i <= j < r ==> dir[j].name != []
    decreases |dir| - i
  {
    if i == |dir| || dir[i].name == [] then i else FirstEmpty(dir, i + 1)
  }

  /** The first unallocated block from b on, or |fat|. */
  function FirstFree(fat: seq<FatEntry>, b: nat): (r: nat)
    requires b <= |fat|
    ensures b <= r <= |fat|
    ensures r < |fat| ==> !fat[r].used
    ensures forall j :: b <= j < r ==> fat[j].used
    decreases |fat| - b
  {
    if b == |fat| || !fat[b].used then b else FirstFree(fat, b + 1)
  }

  /** The first descriptor from f on that is not in use, or |fds|. */
  function FirstClosed(fds: seq<Descriptor>, f: nat := 0): (r: nat)
    requires f <= |fds|
    ensures f <= r <= |fds|
    ensures r < |fds| ==> !fds[r].inUse
    ensures forall j :: f <= j < r ==> fds[j].inUse
    decreases |fds| - f
  {
    if f == |fds| || !fds[f].inUse then f else FirstClosed(fds, f + 1)
  }

  predicate InRoot(path: CString) {
    path != [] && path[0] == SLASH && SLASH !in path[1..]
  }

  function StoredName(name: CString): CString {
    if |name| < MAX_FILENAME then name else name[..MAX_FILENAME - 1]
  }

  ghost predicate IsOpen(v: Snapshot, fd: int) {
    0 <= fd < |v.fds| && v.fds[fd].inUse
  }

  // ----- effects -----

  function Zeros(size: nat): seq<byte> {
    seq(size, _ => 0)
  }

  ghost function CreateCode(v: Snapshot, path: CString): int
    requires DATA_START <= |v.fat|
  {
    if !v.initialized then FS_ERROR_PERMISSION
    else if !InRoot(path) then FS_ERROR_INVALID_PATH
    else if FindEntry(v.dir, path[1..]) >= 0 then FS_ERROR_EXISTS
    else if FirstFree(v.fat, DATA_START) == |v.fat| then FS_ERROR_NO_SPACE
    else if FirstEmpty(v.dir) == |v.dir| then FS_ERROR_NO_SPACE
    else FS_SUCCESS
  }

  /** The state after a successful create: the lowest free block, zeroed, becomes the one-block chain
      of a new entry in the lowest free slot. */
  ghost function Created(v: Snapshot, path: CString, kind: byte, size: nat): Snapshot
    requires DATA_START <= |v.fat| && |v.layout.own| == |v.fat| == |v.blocks| && |v.layout.chains| == |v.dir|
    requires CreateCode(v, path) == FS_SUCCESS && v.sb.freeBlocks > 0
  {
    var b := FirstFree(v.fat, DATA_START);
    var i := FirstEmpty(v.dir);
    var e := DirEntry(StoredName(path[1..]), b, 0, kind);
    v.(fat := TakeFat(v.fat, b),
       sb := v.sb.(freeBlocks := v.sb.freeBlocks - 1),
       dir := v.dir[i := e],
       blocks := v.blocks[b := Zeros(size)],
       layout := EnterLayout(TakeLayout(v.layout, b), i, e))
  }

  ghost predicate CreateEffect(v: Snapshot, v': Snapshot, path: CString, kind: byte, size: nat, r: int)
    requires Ok(v, size)
  {
    && r == CreateCode(v, path)
    && (r == FS_SUCCESS ==> v.sb.freeBlocks > 0 && v' == Created(v, path, kind, size))
    && (r != FS_SUCCESS ==> v' == v)
  }

  /** The state after opening the file in slot i on descriptor f. */
  ghost function Opened(v: Snapshot, i: nat, f: nat, mode: byte): Snapshot
    requires i < |v.dir| && f < |v.fds| == |v.cursors|
  {
    var e := v.dir[i];
    var fileSize := if Truncates(mode) then 0 else e.size;
    v.(fds := v.fds[f := Descriptor(f, e.firstBlock, e.firstBlock, 0, fileSize, mode, true)],
       cursors := v.cursors[f := Cursor(i, 0)],
       dir := if Truncates(mode) then v.dir[i := e.(size := 0)] else v.dir)
  }

  /** mid is the state after the file was found or created. */
  ghost predicate OpenEffect(v: Snapshot, mid: Snapshot, v': Snapshot, path: CString, mode: byte, size: nat, r: int)
    requires Ok(v, size) && Ok(mid, size)
  {
    if !v.initialized then r == FS_ERROR_PERMISSION && v' == mid == v
    else if !InRoot(path) then r == FS_ERROR_INVALID_PATH && v' == mid == v
    else
      var missing := FindEntry(v.dir, path[1..]) < 0;
      if missing && !Creates(mode) then r == FS_ERROR_NOT_FOUND && v' == mid == v
      else if missing && CreateCode(v, path) != FS_SUCCESS then r == CreateCode(v, path) && v' == mid == v
      else
        && (if missing then CreateEffect(v, mid, path, TYPE_FILE, size, FS_SUCCESS) else mid == v)
        && var i := FindEntry(mid.dir, path[1..]);
           if i < 0 then r == FS_ERROR_NOT_FOUND && v' == mid
           else if mid.dir[i].kind == TYPE_DIRECTORY then r == FS_ERROR_IS_DIR && v' == mid
           else
             var f := FirstClosed(mid.fds);
             if f == |mid.fds| then r == FS_ERROR_NO_FD && v' == mid
             else r == f && v' == Opened(mid, i, f, mode)
  }

  /** Where in the file a transfer on this descriptor starts: the block the cursor is in decides,
      not the position alone. */
  ghost function Landing(u: Descriptor, cur: Cursor, size: nat): nat
    requires size > 0
  {
    Start(cur.place, size) + u.position % size
  }

  /** A read hands out the bytes from the landing point on, at most count of them, and stops early only
      at the file's size or at the end of its chain. */
  ghost predicate ReadEffect(v: Snapshot, v': Snapshot, f: nat, count: nat, size: nat, out: seq<byte>)
    requires Ok(v, size) && IsOpen(v, f)
  {
    var u, cur := v.fds[f], v.cursors[f];
    var c := v.layout.chains[cur.slot];
    var q := Landing(u, cur, size);
    var r := Min(count, Min(Max(0, u.fileSize - u.position), Start(|c|, size) - q));
    && |out| == r
    && q + r <= |Flat(v.blocks, c)| && out == Flat(v.blocks, c)[q..q + r]
    && exists place: nat ::
       && ReadCursor(u, cur, place, |c|, q, r, size)
       && v' == v.(
            fds := v.fds[f := u.(position := u.position + r, currentBlock := c[place])],
            cursors := v.cursors[f := Cursor(cur.slot, place)])
  }

  /** Where a read of r bytes leaves the cursor: in the block of the next byte if there is one. */
  ghost predicate ReadCursor(u: Descriptor, cur: Cursor, place: nat, length: nat, q: nat, r: nat, size: nat) {
    && cur.place <= place < length
    && (r == 0 ==> place == cur.place)
    && (r > 0 ==> Start(place, size) <= q + r <= Start(place, size) + size)
    && (r > 0 && u.position + r < u.fileSize && q + r < Start(length, size) ==> q + r < Start(place, size) + size)
    && (r > 0 && u.position + r >= u.fileSize ==> Start(place, size) < q + r)
  }

  /** A write of data that stores its first r bytes. */
  ghost predicate WriteEffect(v: Snapshot, v': Snapshot, f: nat, data: seq<byte>, size: nat, r: nat)
    requires Ok(v, size) && IsOpen(v, f)
  {
    var u, cur := v.fds[f], v.cursors[f];
    var q := Landing(u, cur, size);
    // how much: all of it, or as much as the chain and the free blocks can hold
    && r == Min(|data|, Start(|v.layout.chains[cur.slot]| + v.sb.freeBlocks, size) - q)
    && cur.slot < |v'.layout.chains|
    && ChainGrown(v, v', cur.slot)
    && BytesSpliced(v, v', v'.layout.chains[cur.slot], q, data[..r])
    && exists place: nat :: WriteCursor(v, v', f, place, q, r, size)
  }

  /** The entry's chain keeps its blocks and may get new ones, all of them free before. */
  ghost predicate ChainGrown(v: Snapshot, v': Snapshot, slot: nat)
    requires slot < |v.layout.chains| && slot < |v'.layout.chains|
  {
    var c, c' := v.layout.chains[slot], v'.layout.chains[slot];
    && c <= c'
    && v'.layout.chains == v.layout.chains[slot := c']
    && v.sb.freeBlocks >= |c'| - |c|
    && v'.sb == v.sb.(freeBlocks := v.sb.freeBlocks - (|c'| - |c|))
    && |v'.fat| == |v.fat| && |v'.layout.own| == |v.layout.own|
    && (forall k :: |c| <= k < |c'| ==> c'[k] < |v.fat| && !v.fat[c'[k]].used)
    && (forall b :: 0 <= b < |v.fat| && b !in c' ==> v'.fat[b] == v.fat[b])
    && (forall b :: 0 <= b < |v.layout.own| && b !in c' ==> v'.layout.own[b] == v.layout.own[b])
  }

  /** The bytes of the chain are overwritten from q on by d; blocks off the chain are untouched. */
  ghost predicate BytesSpliced(v: Snapshot, v': Snapshot, chain: seq<nat>, q: nat, d: seq<byte>) {
    && |v'.blocks| == |v.blocks|
    && (forall b :: 0 <= b < |v.blocks| && b !in chain ==> v'.blocks[b] == v.blocks[b])
    && q + |d| <= |Flat(v.blocks, chain)|
    && Flat(v'.blocks, chain) == Splice(Flat(v.blocks, chain), q, d)
    && v'.dir == v.dir && v'.initialized == v.initialized
  }

  ghost predicate WriteCursor(v: Snapshot, v': Snapshot, f: nat, place: nat, q: nat, r: nat, size: nat)
    requires f < |v.fds| && f < |v.cursors|
    requires v.cursors[f].slot < |v.layout.chains| && v.cursors[f].slot < |v'.layout.chains|
  {
    var u, cur := v.fds[f], v.cursors[f];
    var c, c' := v.layout.chains[cur.slot], v'.layout.chains[cur.slot];
    && place < |c'| && |c'| == Max(|c|, place + 1)
    && (r == 0 ==> place == cur.place)
    && (r > 0 ==> Start(place, size) < q + r <= Start(place, size) + size)
    && v'.fds == v.fds[f := u.(position := u.position + r, currentBlock := c'[place],
                               fileSize := if r == 0 then u.fileSize else Max(u.fileSize, u.position + r))]
    && v'.cursors == v.cursors[f := Cursor(cur.slot, place)]
  }

  lemma ChainInRange(fat: seq<FatEntry>, dir: seq<DirEntry>, free: nat, L: Layout, i: nat)
    requires VolumeOk(fat, dir, free, L) && i < |dir|
    ensures InRange(L.chains[i], |fat|) && Distinct(L.chains[i])
  {
    forall k | 0 <= k < |L.chains[i]| ensures L.chains[i][k] < |fat| {
      assert LinkOk(fat, L, i, k);
    }
    forall j, k | 0 <= j < k < |L.chains[i]| ensures L.chains[i][j] != L.chains[i][k] {
      assert LinkOk(fat, L, i, j) && LinkOk(fat, L, i, k);
    }
  }

  ghost function Closed(v: Snapshot, f: nat): Snapshot
    requires f < |v.fds| == |v.cursors|
  {
    var u := v.fds[f];
    var i := v.cursors[f].slot;
    v.(fds := v.fds[f := u.(inUse := false)],
       dir := if CanWrite(u.mode) && i < |v.dir| && v.dir[i].kind == TYPE_FILE then
                v.dir[i := v.dir[i].(size := u.fileSize)] else v.dir)
  }

  lemma LandingInChain(u: Descriptor, cur: Cursor, length: nat, size: nat)
    requires size > 0 && cur.place < length
    ensures Landing(u, cur, size) < Start(length, size)
  {
    StartMonotone(cur.place, length, size);
  }
}
