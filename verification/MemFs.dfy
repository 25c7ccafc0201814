/** The in-memory file system (fs/memfs_simple.c): a fixed table of entries, updated in place. */
module MemFs {
  import opened CharPointers
  import opened MemFsSpec

  class MemoryFileSystem {
    const table: array<Entry>
    var nextFileId: nat
    var currentDirId: nat
    var timeCounter: nat

    ghost function View(): Fs
      reads this, table
    {
      Fs(table[..], nextFileId, currentDirId, timeCounter)
    }

    constructor (slots: nat)
      ensures fresh(table) && table.Length == slots
      ensures View() == Fs(seq(slots, _ => NO_ENTRY), 1, ROOT, 1000)
    {
      table := new Entry[slots](_ => NO_ENTRY);
      nextFileId, currentDirId, timeCounter := 1, ROOT, 1000;
    }

    // ----- searching -----

    method FindInDir(parent: nat, name: string) returns (index: int)
      ensures var k := FindIn(table[..], parent, name); index == if k < table.Length then k else -1
    {
      for i := 0 to table.Length
        invariant FindIn(table[..], parent, name) == FindIn(table[..], parent, name, i)
      {
        if table[i].inUse && table[i].parent == parent && table[i].name == name {
          return i;
        }
      }
      return -1;
    }

    method FindFile(filename: CharPointer) returns (index: int)
      ensures index == if Found(View(), filename) then Find(View(), filename.chars) else -1
    {
      if filename.Null? {
        return -1;
      }
      if filename.chars != "" && filename.chars[0] == '/' {
        index := FindInDir(ROOT, filename.chars[1..]);
      } else {
        index := FindInDir(currentDirId, filename.chars);
      }
    }

    method FindFreeSlot() returns (index: int)
      ensures var k := FreeSlot(table[..]); index == if k < table.Length then k else -1
    {
      for i := 0 to table.Length
        invariant FreeSlot(table[..]) == FreeSlot(table[..], i)
      {
        if !table[i].inUse {
          return i;
        }
      }
      return -1;
    }

    method GetTime() returns (time: nat)
      modifies this`timeCounter
      ensures time == timeCounter == old(timeCounter) + 1
    {
      timeCounter := timeCounter + 1;
      return timeCounter;
    }

    // ----- files and directories -----

    method CreateEntry(name: CharPointer, isDir: bool) returns (r: int)
      modifies this`nextFileId, this`timeCounter, table
      ensures (View(), r) == CreateStep(old(View()), name, isDir)
    {
      if name.Null? || |name.chars| == 0 {
        return ERROR;
      }
      var found := FindFile(name);
      if found >= 0 {
        return EXISTS;
      }
      var index := FindFreeSlot();
      if index < 0 {
        return NO_SPACE;
      }
      var id := nextFileId;
      nextFileId := nextFileId + 1;
      var time := GetTime();
      table[index] := Entry(true, isDir, id, currentDirId, Truncated(name.chars, NAME_LENGTH), "", time, time);
      assert View() == Created(old(View()), index, name.chars, isDir);
      return SUCCESS;
    }

    method Create(filename: CharPointer) returns (r: int)
      modifies this`nextFileId, this`timeCounter, table
      ensures (View(), r) == Step(old(View()), Op.Create(filename))
    {
      r := CreateEntry(filename, false);
    }

    method Mkdir(dirname: CharPointer) returns (r: int)
      modifies this`nextFileId, this`timeCounter, table
      ensures (View(), r) == Step(old(View()), Op.Mkdir(dirname))
    {
      r := CreateEntry(dirname, true);
    }

    /** Deletes whatever is found under the name, directories with entries included. */
    method Delete(filename: CharPointer) returns (r: int)
      modifies table
      ensures (View(), r) == Step(old(View()), Op.Delete(filename))
    {
      if filename.Null? {
        return ERROR;
      }
      var index := FindFile(filename);
      if index < 0 {
        return NOT_FOUND;
      }
      table[index] := NO_ENTRY;
      assert View() == Cleared(old(View()), index);
      return SUCCESS;
    }

    /** Removes a directory that has no entries. */
    method Rmdir(dirname: CharPointer) returns (r: int)
      modifies table
      ensures (View(), r) == Step(old(View()), Op.Rmdir(dirname))
    {
      if dirname.Null? {
        return ERROR;
      }
      var index := FindFile(dirname);
      if index < 0 {
        return NOT_FOUND;
      }
      if !table[index].isDir {
        return NOT_DIR;
      }
      var dirId := table[index].id;
      for i := 0 to table.Length
        invariant table[..] == old(table[..])
        invariant forall j :: 0 <= j < i ==> !(table[j].inUse && table[j].parent == dirId)
      {
        if table[i].inUse && table[i].parent == dirId {
          assert HasChild(old(table[..]), dirId);
          return ERROR;
        }
      }
      assert !HasChild(old(table[..]), dirId);
      table[index] := NO_ENTRY;
      assert View() == Cleared(old(View()), index);
      return SUCCESS;
    }

    method Chdir(dirname: CharPointer) returns (r: int)
      modifies this`currentDirId
      ensures (View(), r) == Step(old(View()), Op.Chdir(dirname))
    {
      if dirname.Null? {
        return ERROR;
      }
      if dirname.chars == "." {
        return SUCCESS;
      }
      if dirname.chars == ".." {
        if currentDirId != ROOT {
          for i := 0 to table.Length
            invariant currentDirId == old(currentDirId) && View() == old(View())
            invariant FindId(table[..], currentDirId) == FindId(table[..], currentDirId, i)
          {
            if table[i].inUse && table[i].id == currentDirId {
              currentDirId := table[i].parent;
              return SUCCESS;
            }
          }
        }
        return SUCCESS;
      }
      if dirname.chars == "/" {
        currentDirId := ROOT;
        return SUCCESS;
      }
      var index := FindFile(dirname);
      if index < 0 {
        return NOT_FOUND;
      }
      if !table[index].isDir {
        return NOT_DIR;
      }
      currentDirId := table[index].id;
      return SUCCESS;
    }

    // ----- contents -----

    method Fill(index: nat, data: string)
      requires index < table.Length
      modifies this`timeCounter, table
      ensures View() == Filled(old(View()), index, data)
    {
      var time := GetTime();
      table[index] := table[index].(data := data, modified := time);
      assert table[..] == old(table[..])[index := old(table[index]).(data := data, modified := time)];
    }

    method Copy(src: CharPointer, dst: CharPointer) returns (r: int)
      modifies this`nextFileId, this`timeCounter, table
      ensures (View(), r) == Step(old(View()), Op.Copy(src, dst))
    {
      if src.Null? || dst.Null? {
        return ERROR;
      }
      var srcIndex := FindFile(src);
      if srcIndex < 0 {
        return NOT_FOUND;
      }
      if table[srcIndex].isDir {
        return ERROR;
      }
      var found := FindFile(dst);
      if found >= 0 {
        return EXISTS;
      }
      r := CreateEntry(dst, false);
      if r != SUCCESS {
        return;
      }
      var dstIndex := FindFile(dst);
      if dstIndex < 0 {
        return ERROR;
      }
      Fill(dstIndex, table[srcIndex].data);
      return SUCCESS;
    }

    /** Renames in place: the entry stays in its directory. */
    method Move(src: CharPointer, dst: CharPointer) returns (r: int)
      modifies this`timeCounter, table
      ensures (View(), r) == Step(old(View()), Op.Move(src, dst))
    {
      if src.Null? || dst.Null? {
        return ERROR;
      }
      var srcIndex := FindFile(src);
      if srcIndex < 0 {
        return NOT_FOUND;
      }
      var found := FindFile(dst);
      if found >= 0 {
        return EXISTS;
      }
      var time := GetTime();
      table[srcIndex] := table[srcIndex].(name := Truncated(dst.chars, NAME_LENGTH), modified := time);
      assert View() == Renamed(old(View()), srcIndex, dst.chars);
      return SUCCESS;
    }

    method Write(filename: CharPointer, content: CharPointer) returns (r: int)
      modifies this`nextFileId, this`timeCounter, table
      ensures (View(), r) == Step(old(View()), Op.Write(filename, content))
    {
      if filename.Null? || content.Null? {
        return ERROR;
      }
      var index := FindFile(filename);
      if index < 0 {
        var created := CreateEntry(filename, false);
        if created != SUCCESS {
          return ERROR;
        }
        index := FindFile(filename);
        if index < 0 {
          return ERROR;
        }
      }
      var data := Truncated(content.chars, MAX_FILESIZE);
      Fill(index, data);
      return |data|;
    }
  }
}
