/** The SimpleFS calls of fs/simplefs.c over their tables: the FAT, the root directory, the blocks and
    the descriptor table are arrays updated in place. */
module SimpleFs {
  import opened Bytes
  import opened SimpleFsVolume
  import opened SimpleFsContent
  import opened SimpleFsSpec
  import opened SimpleFsRead
  import opened SimpleFsWrite
  import opened SimpleFsSteps

  class FileSystem {
    const blockSize: nat
    const fat: array<FatEntry>
    const dir: array<DirEntry>
    const blocks: array<seq<byte>>
    const fds: array<Descriptor>
    var sb: Superblock
    var initialized: bool
    ghost var layout: Layout
    ghost var cursors: seq<Cursor>

    ghost function View(): Snapshot
      reads this, fat, dir, blocks, fds
    {
      Snapshot(sb, fat[..], dir[..], blocks[..], fds[..], initialized, layout, cursors)
    }

    ghost predicate Valid()
      reads this, fat, dir, blocks, fds
    {
      Ok(View(), blockSize)
    }

    constructor (blockCount: nat, bytesPerBlock: nat, slotCount: nat, fdCount: nat)
      requires DATA_START <= blockCount < END_OF_FILE && bytesPerBlock < U32
      requires TablesFit(blockCount, slotCount, bytesPerBlock)
      ensures Valid() && SizesFit(View(), blockSize)
      ensures fresh(fat) && fresh(dir) && fresh(blocks) && fresh(fds)
      ensures blockSize == bytesPerBlock && initialized
      ensures fat.Length == blockCount && dir.Length == slotCount && fds.Length == fdCount
      ensures forall i :: 0 <= i < slotCount ==> dir[i] == UNUSED_ENTRY
      ensures forall f :: 0 <= f < fdCount ==> !fds[f].inUse
      ensures sb.freeBlocks == blockCount - DATA_START
    {
      blockSize := bytesPerBlock;
      fat := new FatEntry[blockCount](_ => FatEntry(0, false));
      dir := new DirEntry[slotCount](_ => UNUSED_ENTRY);
      blocks := new seq<byte>[blockCount](_ => Zeros(bytesPerBlock));
      fds := new Descriptor[fdCount](_ => CLOSED);
      cursors := seq(fdCount, _ => Cursor(0, 0));
      sb := Superblock(0, 0, 0, 0, 0, 0, 0, 0);
      initialized := false;
      new;
      Format();
      initialized := true;
    }

    /** Writes an empty file system over the tables. Descriptors are left alone. */
    method Format()
      requires DATA_START <= fat.Length == blocks.Length < END_OF_FILE
      modifies this`sb, this`layout, fat, dir
      ensures VolumeOk(fat[..], dir[..], sb.freeBlocks, layout)
      ensures sb == Superblock(FS_MAGIC, fat.Length, fat.Length - DATA_START, 2, 1, DATA_START, 256, blockSize)
      ensures forall b :: DATA_START <= b < fat.Length ==> fat[b] == FatEntry(0, false)
      ensures forall i :: 0 <= i < dir.Length ==> dir[i] == UNUSED_ENTRY
      ensures layout == FreshLayout(fat.Length, dir.Length)
    {
      sb := Superblock(FS_MAGIC, fat.Length, fat.Length - DATA_START, 2, 1, DATA_START, 256, blockSize);
      fat[0] := FatEntry(END_OF_FILE, true);
      fat[1] := FatEntry(END_OF_FILE, true);
      fat[2] := FatEntry(END_OF_FILE, true);
      for i := DATA_START to fat.Length
        modifies fat
        invariant forall b :: 0 <= b < DATA_START ==> fat[b] == FatEntry(END_OF_FILE, true)
        invariant forall b :: DATA_START <= b < i ==> fat[b] == FatEntry(0, false)
      {
        fat[i] := FatEntry(0, false);
      }
      for i := 0 to dir.Length
        modifies dir
        invariant forall j :: 0 <= j < i ==> dir[j] == UNUSED_ENTRY
      {
        dir[i] := UNUSED_ENTRY;
      }
      layout := FreshLayout(fat.Length, dir.Length);
      FreshVolumeOk(fat[..], dir[..]);
    }

    /** Takes the lowest free data block; 0 when there is none. */
    method AllocBlock() returns (b: nat)
      requires Valid()
      modifies this`sb, this`layout, fat
      ensures Valid()
      ensures b == 0 <==> FirstFree(old(fat[..]), DATA_START) == fat.Length
      ensures b == 0 <==> old(sb.freeBlocks) == 0
      ensures b == 0 ==> View() == old(View())
      ensures b != 0 ==>
        && b == FirstFree(old(fat[..]), DATA_START) && DATA_START <= b < fat.Length && !old(fat[..])[b].used
        && fat[..] == TakeFat(old(fat[..]), b)
        && sb == old(sb).(freeBlocks := old(sb.freeBlocks) - 1)
        && layout == TakeLayout(old(layout), b)
        && forall i :: 0 <= i < dir.Length && dir[i].name == [] ==> dir[i].firstBlock != b
    {
      var i := DATA_START;
      while i < fat.Length
        invariant DATA_START <= i <= fat.Length
        invariant FirstFree(fat[..], DATA_START) == FirstFree(fat[..], i)
        invariant forall j :: DATA_START <= j < i ==> fat[j].used
      {
        if !fat[i].used {
          TakeKeepsVolume(fat[..], dir[..], sb.freeBlocks, layout, i);
          fat[i] := FatEntry(END_OF_FILE, true);
          sb := sb.(freeBlocks := sb.freeBlocks - 1);
          layout := TakeLayout(layout, i);
          return i;
        }
        i := i + 1;
      }
      assert FreeSet(fat[..]) == {};
      return 0;
    }

    /** Gives back an allocated block; refuses system blocks, blocks out of range and free blocks. The
        invariant is kept exactly for a block that no entry holds. */
    method FreeBlock(b: nat) returns (r: int)
      requires Valid()
      modifies this`sb, this`layout, fat
      ensures r == if b < DATA_START || b >= fat.Length then FS_ERROR_INVALID_PATH
                   else if !old(fat[..])[b].used then FS_ERROR_NOT_FOUND
                   else FS_SUCCESS
      ensures r == FS_SUCCESS ==>
        && fat[..] == ReleaseFat(old(fat[..]), b)
        && sb == old(sb).(freeBlocks := old(sb).freeBlocks + 1)
        && layout == ReleaseLayout(old(layout), b)
        && (Valid() <==> HeldByNobody(dir[..], old(layout), b))
      ensures r != FS_SUCCESS ==> fat[..] == old(fat[..]) && sb == old(sb) && layout == old(layout)
    {
      ghost var v := View();
      if b < DATA_START || b >= fat.Length {
        return FS_ERROR_INVALID_PATH;
      }
      if !fat[b].used {
        return FS_ERROR_NOT_FOUND;
      }
      fat[b] := FatEntry(0, false);
      sb := sb.(freeBlocks := sb.freeBlocks + 1);
      layout := ReleaseLayout(layout, b);
      ReleaseIsOkIff(v, View(), b, blockSize);
      return FS_SUCCESS;
    }

    method FindDirEntry(name: seq<byte>) returns (r: int)
      ensures r == (if FindEntry(dir[..], name) >= 0 then FindEntry(dir[..], name) else FS_ERROR_NOT_FOUND)
    {
      for i := 0 to dir.Length
        invariant FindEntry(dir[..], name) == FindEntry(dir[..], name, i)
      {
        if dir[i].name != [] && dir[i].name == name {
          return i;
        }
      }
      return FS_ERROR_NOT_FOUND;
    }

    /** Stores an entry in the lowest free slot. Nothing but the directory changes as long as the tables fit in
        their blocks. */
    method AddDirEntry(name: CString, firstBlock: nat, size: nat, kind: byte) returns (r: int)
      requires TablesFit(fat.Length, dir.Length, blockSize)
      modifies dir
      ensures r == if FindEntry(old(dir[..]), name) >= 0 then FS_ERROR_EXISTS
                   else if FirstEmpty(old(dir[..])) == dir.Length then FS_ERROR_NO_SPACE
                   else FS_SUCCESS
      ensures r == FS_SUCCESS ==>
        dir[..] == old(dir[..])[FirstEmpty(old(dir[..])) := DirEntry(StoredName(name), firstBlock, size, kind)]
      ensures r != FS_SUCCESS ==> dir[..] == old(dir[..])
    {
      var found := FindDirEntry(name);
      if found >= 0 {
        return FS_ERROR_EXISTS;
      }
      for i := 0 to dir.Length
        invariant dir[..] == old(dir[..])
        invariant FirstEmpty(dir[..]) == FirstEmpty(dir[..], i)
      {
        if dir[i].name == [] {
          dir[i] := DirEntry(StoredName(name), firstBlock, size, kind);
          return FS_SUCCESS;
        }
      }
      return FS_ERROR_NO_SPACE;
    }

    /** Creates an empty file or directory. A failed create leaves the whole state as it was. */
    method Create(path: CString, kind: byte) returns (r: int)
      requires Valid()
      modifies this`sb, this`layout, fat, dir, blocks
      ensures Valid()
      ensures CreateEffect(old(View()), View(), path, kind, blockSize, r)
      ensures old(SizesFit(View(), blockSize)) ==> SizesFit(View(), blockSize)
    {
      ghost var v := View();
      if !initialized {
        return FS_ERROR_PERMISSION;
      }
      if path == [] || path[0] != SLASH || SLASH in path[1..] {
        return FS_ERROR_INVALID_PATH;
      }
      var filename := path[1..];
      var found := FindDirEntry(filename);
      if found >= 0 {
        return FS_ERROR_EXISTS;
      }
      var block := AllocBlock();
      if block == 0 {
        return FS_ERROR_NO_SPACE;
      }
      ghost var held := layout;
      var result := AddDirEntry(filename, block, 0, kind);
      if result != FS_SUCCESS {
        var freed := FreeBlock(block);
        ReleaseUndoesTake(v.fat, v.layout, block);
        return result;
      }
      ghost var i := FirstEmpty(v.dir);
      EnterKeepsVolume(fat[..], v.dir, sb.freeBlocks, held, i, dir[i]);
      layout := EnterLayout(held, i, dir[i]);
      blocks[block] := Zeros(blockSize);
      CreatedIsOk(v, path, kind, blockSize);
      assert View() == Created(v, path, kind, blockSize);
      return FS_SUCCESS;
    }

    method Mkdir(path: CString) returns (r: int)
      requires Valid()
      modifies this`sb, this`layout, fat, dir, blocks
      ensures Valid()
      ensures CreateEffect(old(View()), View(), path, TYPE_DIRECTORY, blockSize, r)
      ensures old(SizesFit(View(), blockSize)) ==> SizesFit(View(), blockSize)
    {
      r := Create(path, TYPE_DIRECTORY);
    }

    method AllocFd() returns (r: int)
      modifies fds
      ensures r == if FirstClosed(old(fds[..])) == fds.Length then FS_ERROR_NO_FD else FirstClosed(old(fds[..]))
      ensures r < 0 ==> fds[..] == old(fds[..])
      ensures r >= 0 ==> fds[..] == old(fds[..])[r := CLOSED.(fd := r, inUse := true)]
    {
      for i := 0 to fds.Length
        invariant fds[..] == old(fds[..])
        invariant FirstClosed(fds[..]) == FirstClosed(fds[..], i)
      {
        if !fds[i].inUse {
          fds[i] := CLOSED.(fd := i, inUse := true);
          return i;
        }
      }
      return FS_ERROR_NO_FD;
    }

    /** Opens a file, creating it first if asked to; mid is the state in between. */
    method Open(path: CString, mode: byte) returns (r: int, ghost mid: Snapshot)
      requires Valid()
      modifies this`sb, this`layout, this`cursors, fat, dir, blocks, fds
      ensures Valid() && Ok(mid, blockSize)
      ensures OpenEffect(old(View()), mid, View(), path, mode, blockSize, r)
      ensures old(SizesFit(View(), blockSize)) ==> SizesFit(View(), blockSize)
    {
      mid := View();
      if !initialized {
        return FS_ERROR_PERMISSION, mid;
      }
      if path == [] || path[0] != SLASH || SLASH in path[1..] {
        return FS_ERROR_INVALID_PATH, mid;
      }
      var filename := path[1..];
      var index := FindDirEntry(filename);
      if index < 0 {
        if !Creates(mode) {
          return FS_ERROR_NOT_FOUND, mid;
        }
        var result := Create(path, TYPE_FILE);
        mid := View();
        if result != FS_SUCCESS {
          return result, mid;
        }
        index := FindDirEntry(filename);
        if index < 0 {
          return FS_ERROR_NOT_FOUND, mid;
        }
      }
      var entry := dir[index];
      if entry.kind == TYPE_DIRECTORY {
        return FS_ERROR_IS_DIR, mid;
      }
      var fd := BindDescriptor(filename, index, mode);
      return fd, mid;
    }

    /** The last part of open: a free descriptor is pointed at the start of the file. */
    method BindDescriptor(filename: CString, index: nat, mode: byte) returns (fd: int)
      requires Valid()
      requires index < dir.Length && FindEntry(dir[..], filename) == index && dir[index].kind != TYPE_DIRECTORY
      modifies this`cursors, dir, fds
      ensures Valid()
      ensures fd == if FirstClosed(old(fds[..])) == fds.Length then FS_ERROR_NO_FD else FirstClosed(old(fds[..]))
      ensures fd < 0 ==> View() == old(View())
      ensures fd >= 0 ==> View() == Opened(old(View()), index, fd, mode)
      ensures old(SizesFit(View(), blockSize)) ==> SizesFit(View(), blockSize)
    {
      ghost var v := View();
      var entry := dir[index];
      fd := AllocFd();
      if fd < 0 {
        return;
      }
      fds[fd] := fds[fd].(firstBlock := entry.firstBlock, currentBlock := entry.firstBlock, position := 0,
                          fileSize := entry.size, mode := mode);
      cursors := cursors[fd := Cursor(index, 0)];
      if Truncates(mode) {
        fds[fd] := fds[fd].(fileSize := 0);
        var again := FindDirEntry(filename);
        if again >= 0 {
          dir[again] := dir[again].(size := 0);
        }
      }
      assert View() == Opened(v, index, fd, mode);
      OpenedIsOk(v, index, fd, mode, blockSize);
    }

    /** Reads at most count bytes. */
    method Read(fd: int, count: nat) returns (r: int, out: seq<byte>)
      requires Valid()
      modifies this`cursors, fds
      ensures Valid()
      ensures !IsOpen(old(View()), fd) ==> r == FS_ERROR_INVALID_FD && out == [] && View() == old(View())
      ensures IsOpen(old(View()), fd) && !CanRead(old(fds[fd]).mode) ==>
        r == FS_ERROR_PERMISSION && out == [] && View() == old(View())
      ensures IsOpen(old(View()), fd) && CanRead(old(fds[fd]).mode) ==>
        r == |out| && ReadEffect(old(View()), View(), fd, count, blockSize, out)
    {
      out := [];
      if fd < 0 || fd >= fds.Length || !fds[fd].inUse {
        return FS_ERROR_INVALID_FD, out;
      }
      if !CanRead(fds[fd].mode) {
        return FS_ERROR_PERMISSION, out;
      }
      ghost var v := View();
      ghost var cur := cursors[fd];
      assert DescriptorOk(v.fds[fd], v.dir, v.layout, cur);
      EntryChain(v.fat, v.dir, v.sb.freeBlocks, v.layout, cur.slot);
      ghost var place;
      out, place := ReadLoop(fd, count, cur, layout.chains[cur.slot]);
      cursors := cursors[fd := Cursor(cur.slot, place)];
      r := |out|;
      assert fds[..] == MovedFds(v, fd, |out|, place);
      ReadIsOk(v, fd, count, blockSize, out, place);
    }

    /** The loop of read, on a chain c of which the descriptor's current block is at place cur.place. */
    method ReadLoop(fd: nat, count: nat, ghost cur: Cursor, ghost c: seq<nat>)
      returns (out: seq<byte>, ghost place: nat)
      requires fd < fds.Length && cur.place < |c| && fds[fd].currentBlock == c[cur.place]
      requires IsChain(fat[..], c) && InRange(c, blocks.Length) && BlocksOk(blocks[..], blockSize)
      requires fat.Length < END_OF_FILE
      modifies fds
      ensures ReadResult(old(fds[fd]), cur, place, c, Flat(blocks[..], c), count, blockSize, out)
      ensures fds[fd] == old(fds[fd]).(position := old(fds[fd]).position + |out|, currentBlock := c[place])
      ensures forall g :: 0 <= g < fds.Length && g != fd ==> fds[g] == old(fds[g])
    {
      out := [];
      place := cur.place;
      ghost var u := fds[fd];
      ghost var q := Landing(u, cur, blockSize);
      ghost var F := Flat(blocks[..], c);
      FlatLength(blocks[..], c, blockSize);
      LandingInChain(u, cur, |c|, blockSize);
      var stop := false;
      while |out| < count && fds[fd].position < fds[fd].fileSize && !stop
        invariant place < |c| && InRead(u, cur, place, c, F, count, blockSize, out, stop)
        invariant fds[fd] == u.(position := u.position + |out|, currentBlock := c[place])
        invariant forall g :: 0 <= g < fds.Length && g != fd ==> fds[g] == old(fds[g])
        decreases count - |out|
      {
        ghost var before := place;
        var piece;
        piece, stop, place := ReadRound(fd, count - |out|, c, place);
        ReadAdvance(blocks[..], u, cur, before, place, c, count, blockSize, out, piece, stop);
        out := out + piece;
      }
      ReadFinish(u, cur, place, c, F, count, blockSize, out, stop);
    }

    /** One round of the read loop: a piece of the current block, then the step to the next block. */
    method ReadRound(fd: nat, left: nat, ghost c: seq<nat>, ghost at: nat)
      returns (piece: seq<byte>, stop: bool, ghost place: nat)
      requires fd < fds.Length && at < |c| && fds[fd].currentBlock == c[at]
      requires IsChain(fat[..], c) && InRange(c, blocks.Length) && BlocksOk(blocks[..], blockSize)
      requires fat.Length < END_OF_FILE
      requires left > 0 && fds[fd].position < fds[fd].fileSize
      modifies fds
      ensures place < |c| && RoundRead(old(fds[fd]), at, place, |c|, blocks[c[at]], left, blockSize, piece, stop)
      ensures fds[fd] == old(fds[fd]).(position := old(fds[fd]).position + |piece|, currentBlock := c[place])
      ensures forall g :: 0 <= g < fds.Length && g != fd ==> fds[g] == old(fds[g])
    {
      stop := false;
      place := at;
      var current := fds[fd].currentBlock;
      var blockOffset := fds[fd].position % blockSize;
      var bytesInBlock := blockSize - blockOffset;
      var bytesRemaining := fds[fd].fileSize - fds[fd].position;
      var bytesToRead := left;
      if bytesToRead > bytesInBlock {
        bytesToRead := bytesInBlock;
      }
      if bytesToRead > bytesRemaining {
        bytesToRead := bytesRemaining;
      }
      piece := blocks[current][blockOffset..blockOffset + bytesToRead];
      fds[fd] := fds[fd].(position := fds[fd].position + bytesToRead);
      if fds[fd].position % blockSize == 0 && fds[fd].position < fds[fd].fileSize {
        assert LeadsOn(fat[..], c, at) && (at + 1 < |c| ==> LeadsOn(fat[..], c, at + 1));
        var nextBlock := fat[fds[fd].currentBlock].next;
        if nextBlock == END_OF_FILE {
          stop := true;
        } else {
          fds[fd] := fds[fd].(currentBlock := nextBlock);
          place := at + 1;
        }
      }
    }

    /** Writes data at the cursor, taking free blocks as the file grows. */
    method Write(fd: int, data: seq<byte>) returns (r: int)
      requires Valid()
      modifies this`sb, this`layout, this`cursors, fat, blocks, fds
      ensures Valid()
      ensures !IsOpen(old(View()), fd) ==> r == FS_ERROR_INVALID_FD && View() == old(View())
      ensures IsOpen(old(View()), fd) && !CanWrite(old(fds[fd]).mode) ==>
        r == FS_ERROR_PERMISSION && View() == old(View())
      ensures IsOpen(old(View()), fd) && CanWrite(old(fds[fd]).mode) ==>
        r >= 0 && WriteEffect(old(View()), View(), fd, data, blockSize, r)
    {
      if fd < 0 || fd >= fds.Length || !fds[fd].inUse {
        return FS_ERROR_INVALID_FD;
      }
      if !CanWrite(fds[fd].mode) {
        return FS_ERROR_PERMISSION;
      }
      ghost var v := View();
      WriteStart(v, fd, data, blockSize);
      var stop;
      r, stop := WriteLoop(fd, data, v);
      WriteFinish(v, View(), fd, data, r, blockSize, stop);
    }

    /** The loop of a write that began in state v. */
    method WriteLoop(fd: nat, data: seq<byte>, ghost v: Snapshot) returns (bytesWritten: nat, stop: bool)
      requires OpenOk(v, fd, blockSize) && InWrite(v, View(), fd, data, 0, blockSize, false)
      modifies this`sb, this`layout, this`cursors, fat, blocks, fds
      ensures bytesWritten == |data| || stop
      ensures InWrite(v, View(), fd, data, bytesWritten, blockSize, stop)
    {
      bytesWritten := 0;
      stop := false;
      while bytesWritten < |data| && !stop
        invariant bytesWritten <= |data|
        invariant InWrite(v, View(), fd, data, bytesWritten, blockSize, stop)
      {
        var n;
        n, stop := WriteRound(fd, data, bytesWritten, v);
        bytesWritten := bytesWritten + n;
      }
    }

    /** One round of write on behalf of a call that began in state v. */
    method WriteRound(fd: nat, data: seq<byte>, done: nat, ghost v: Snapshot) returns (n: nat, stop: bool)
      requires OpenOk(v, fd, blockSize) && InWrite(v, View(), fd, data, done, blockSize, false) && done < |data|
      modifies this`sb, this`layout, this`cursors, fat, blocks, fds
      ensures n > 0 && done + n <= |data| && InWrite(v, View(), fd, data, done + n, blockSize, stop)
    {
      ghost var w := View();
      n := StorePiece(fd, data, done);
      stop := false;
      if done + n < |data| && fds[fd].position % blockSize == 0 {
        if CanStep(w, fd) {
          ghost var s := Stored(w, fd, data[done..done + n], blockSize);
          RoundSteps(v, w, s, fd, data, done, n, blockSize);
        } else {
          RoundStays(v, w, fd, data, done, n, blockSize);
        }
        stop := StepToNextBlock(fd);
      } else {
        RoundStays(v, w, fd, data, done, n, blockSize);
      }
    }

    /** The first half of a round of write: as much of data as fits goes into the current block. */
    method StorePiece(fd: nat, data: seq<byte>, done: nat) returns (n: nat)
      requires OpenOk(View(), fd, blockSize) && done < |data|
      modifies blocks, fds
      ensures n == Chunk(old(fds[fd]), |data| - done, blockSize) && done + n <= |data|
      ensures View() == Stored(old(View()), fd, data[done..done + n], blockSize)
      ensures OpenOk(View(), fd, blockSize)
    {
      ghost var v := View();
      var current := fds[fd].currentBlock;
      var blockOffset := fds[fd].position % blockSize;
      var bytesInBlock := blockSize - blockOffset;
      n := |data| - done;
      if n > bytesInBlock {
        n := bytesInBlock;
      }
      var block := blocks[current];
      blocks[current] := block[..blockOffset] + data[done..done + n] + block[blockOffset + n..];
      fds[fd] := fds[fd].(position := fds[fd].position + n);
      if fds[fd].position > fds[fd].fileSize {
        fds[fd] := fds[fd].(fileSize := fds[fd].position);
      }
      assert View() == Stored(v, fd, data[done..done + n], blockSize);
      StoredIsOk(v, fd, data[done..done + n], blockSize);
    }

    /** The second half: on to the next block, newly taken if the chain ends here. Stops when none is free. */
    method StepToNextBlock(fd: nat) returns (stop: bool)
      requires OpenOk(View(), fd, blockSize)
      modifies this`sb, this`layout, this`cursors, fat, fds
      ensures stop <==> !CanStep(old(View()), fd)
      ensures stop ==> View() == old(View())
      ensures !stop ==> View() == Stepped(old(View()), fd, blockSize) && OpenOk(View(), fd, blockSize)
    {
      ghost var v := View();
      ghost var cur := cursors[fd];
      var current := fds[fd].currentBlock;
      var nextBlock := fat[current].next;
      NextOnChain(v, fd, blockSize);
      if nextBlock == END_OF_FILE {
        nextBlock := AllocBlock();
        if nextBlock == 0 {
          return true;
        }
        fat[current] := fat[current].(next := nextBlock);
        layout := LinkLayout(layout, cur.slot, nextBlock);
      }
      fds[fd] := fds[fd].(currentBlock := nextBlock);
      cursors := cursors[fd := Cursor(cur.slot, cur.place + 1)];
      assert View() == Stepped(v, fd, blockSize);
      SteppedIsOk(v, fd, blockSize);
      return false;
    }

    /** Closes a descriptor; one open for writing leaves its size in the directory entry of its file. */
    method Close(fd: int) returns (r: int)
      requires Valid()
      modifies dir, fds
      ensures Valid()
      ensures !IsOpen(old(View()), fd) ==> r == FS_ERROR_INVALID_FD && View() == old(View())
      ensures IsOpen(old(View()), fd) ==> r == FS_SUCCESS && View() == Closed(old(View()), fd)
      ensures old(SizesFit(View(), blockSize)) ==> SizesFit(View(), blockSize)
    {
      if fd < 0 || fd >= fds.Length || !fds[fd].inUse {
        return FS_ERROR_INVALID_FD;
      }
      ghost var v := View();
      ClosedIsOk(v, fd, blockSize);
      if CanWrite(fds[fd].mode) {
        ghost var slot := cursors[fd].slot;
        OwnSlot(v, fd, blockSize);
        for i := 0 to dir.Length
          invariant dir[..] == v.dir
          invariant i > slot ==> dir[slot].kind != TYPE_FILE
        {
          if dir[i].firstBlock == fds[fd].firstBlock && dir[i].kind == TYPE_FILE {
            dir[i] := dir[i].(size := fds[fd].fileSize);
            break;
          }
        }
      }
      fds[fd] := fds[fd].(inUse := false);
      assert View() == Closed(v, fd);
      return FS_SUCCESS;
    }
  }
}
