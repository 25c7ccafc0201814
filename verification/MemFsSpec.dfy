/** The in-memory file system as a value (fs/memfs_simple.c): a table of entries that refer to their parent
    directory by id, and what each call does to it. */
module MemFsSpec {
  import opened CharPointers

  const NAME_LENGTH := 31
  const MAX_FILESIZE := 16384
  const ROOT := 0

  const SUCCESS := 0
  const ERROR := -1
  const NOT_FOUND := -2
  const EXISTS := -3
  const NO_SPACE := -4
  const NOT_DIR := -5

  datatype Entry =
    Entry(inUse: bool, isDir: bool, id: nat, parent: nat, name: string, data: string, created: nat, modified: nat)

  const NO_ENTRY := Entry(false, false, 0, 0, "", "", 0, 0)

  datatype Fs = Fs(entries: seq<Entry>, nextId: nat, cwd: nat, time: nat)

  datatype Op =
    | Create(name: CharPointer)
    | Mkdir(name: CharPointer)
    | Delete(name: CharPointer)
    | Rmdir(name: CharPointer)
    | Chdir(name: CharPointer)
    | Copy(src: CharPointer, dst: CharPointer)
    | Move(src: CharPointer, dst: CharPointer)
    | Write(name: CharPointer, content: CharPointer)

  // ----- searching -----

  predicate IsNamed(e: Entry, parent: nat, name: string) { e.inUse && e.parent == parent && e.name == name }

  /** The first entry in use with the given parent and name; the table's size if there is none. */
  ghost function FindIn(es: seq<Entry>, parent: nat, name: string, from: nat := 0): (k: nat)
    requires from <= |es|
    ensures from <= k <= |es|
    ensures k < |es| ==> IsNamed(es[k], parent, name)
    ensures forall i :: from <= i < k ==> !IsNamed(es[i], parent, name)
    decreases |es| - from
  {
    if from == |es| || IsNamed(es[from], parent, name) then from else FindIn(es, parent, name, from + 1)
  }

  /** A leading slash looks in the root directory, anything else in the current one. */
  ghost function Find(s: Fs, name: string): (k: nat)
    ensures k <= |s.entries| && (k < |s.entries| ==> s.entries[k].inUse)
  {
    if name != "" && name[0] == '/' then FindIn(s.entries, ROOT, name[1..]) else FindIn(s.entries, s.cwd, name)
  }

  ghost predicate Found(s: Fs, name: CharPointer) { name.Text? && Find(s, name.chars) < |s.entries| }

  ghost function FreeSlot(es: seq<Entry>, from: nat := 0): (k: nat)
    requires from <= |es|
    ensures from <= k <= |es|
    ensures k < |es| ==> !es[k].inUse
    ensures forall i :: from <= i < k ==> es[i].inUse
    decreases |es| - from
  {
    if from == |es| || !es[from].inUse then from else FreeSlot(es, from + 1)
  }

  ghost function FindId(es: seq<Entry>, id: nat, from: nat := 0): (k: nat)
    requires from <= |es|
    ensures from <= k <= |es|
    ensures k < |es| ==> es[k].inUse && es[k].id == id
    ensures forall i :: from <= i < k ==> !(es[i].inUse && es[i].id == id)
    decreases |es| - from
  {
    if from == |es| || (es[from].inUse && es[from].id == id) then from else FindId(es, id, from + 1)
  }

  ghost predicate HasChild(es: seq<Entry>, id: nat) {
    exists i :: 0 <= i < |es| && es[i].inUse && es[i].parent == id
  }

  // ----- the calls -----

  ghost function CreateStep(s: Fs, name: CharPointer, isDir: bool): (Fs, int) {
    if name.Null? || name.chars == "" then (s, ERROR)
    else if Found(s, name) then (s, EXISTS)
    else
      var k := FreeSlot(s.entries);
      if k == |s.entries| then (s, NO_SPACE) else (Created(s, k, name.chars, isDir), SUCCESS)
  }

  ghost function Created(s: Fs, k: nat, name: string, isDir: bool): Fs
    requires k < |s.entries|
  {
    var e := Entry(true, isDir, s.nextId, s.cwd, Truncated(name, NAME_LENGTH), "", s.time + 1, s.time + 1);
    s.(entries := s.entries[k := e], nextId := s.nextId + 1, time := s.time + 1)
  }

  ghost function Cleared(s: Fs, k: nat): Fs
    requires k < |s.entries|
  {
    s.(entries := s.entries[k := NO_ENTRY])
  }

  ghost function DeleteStep(s: Fs, name: CharPointer): (Fs, int) {
    if name.Null? then (s, ERROR)
    else if !Found(s, name) then (s, NOT_FOUND)
    else (Cleared(s, Find(s, name.chars)), SUCCESS)
  }

  ghost function RmdirStep(s: Fs, name: CharPointer): (Fs, int) {
    if name.Null? then (s, ERROR)
    else if !Found(s, name) then (s, NOT_FOUND)
    else
      var k := Find(s, name.chars);
      if !s.entries[k].isDir then (s, NOT_DIR)
      else if HasChild(s.entries, s.entries[k].id) then (s, ERROR)
      else (Cleared(s, k), SUCCESS)
  }

  ghost function ChdirStep(s: Fs, name: CharPointer): (Fs, int) {
    if name.Null? then (s, ERROR)
    else if name.chars == "." then (s, SUCCESS)
    else if name.chars == ".." then (Up(s), SUCCESS)
    else if name.chars == "/" then (s.(cwd := ROOT), SUCCESS)
    else if !Found(s, name) then (s, NOT_FOUND)
    else
      var k := Find(s, name.chars);
      if !s.entries[k].isDir then (s, NOT_DIR) else (s.(cwd := s.entries[k].id), SUCCESS)
  }

  ghost function Up(s: Fs): Fs {
    var k := FindId(s.entries, s.cwd);
    if s.cwd != ROOT && k < |s.entries| then s.(cwd := s.entries[k].parent) else s
  }

  /** Entry k gets new content. */
  ghost function Filled(s: Fs, k: nat, data: string): Fs
    requires k < |s.entries|
  {
    s.(entries := s.entries[k := s.entries[k].(data := data, modified := s.time + 1)], time := s.time + 1)
  }

  ghost function Renamed(s: Fs, k: nat, name: string): Fs
    requires k < |s.entries|
  {
    s.(entries := s.entries[k := s.entries[k].(name := Truncated(name, NAME_LENGTH), modified := s.time + 1)],
       time := s.time + 1)
  }

  ghost function CopyStep(s: Fs, src: CharPointer, dst: CharPointer): (Fs, int) {
    if src.Null? || dst.Null? then (s, ERROR)
    else if !Found(s, src) then (s, NOT_FOUND)
    else if s.entries[Find(s, src.chars)].isDir then (s, ERROR)
    else if Found(s, dst) then (s, EXISTS)
    else
      var (s1, r) := CreateStep(s, dst, false);
      if r != SUCCESS then (s1, r)
      else if !Found(s1, dst) then (s1, ERROR)
      else (Filled(s1, Find(s1, dst.chars), s1.entries[Find(s, src.chars)].data), SUCCESS)
  }

  ghost function MoveStep(s: Fs, src: CharPointer, dst: CharPointer): (Fs, int) {
    if src.Null? || dst.Null? then (s, ERROR)
    else if !Found(s, src) then (s, NOT_FOUND)
    else if Found(s, dst) then (s, EXISTS)
    else (Renamed(s, Find(s, src.chars), dst.chars), SUCCESS)
  }

  ghost function WriteStep(s: Fs, name: CharPointer, content: CharPointer): (Fs, int) {
    if name.Null? || content.Null? then (s, ERROR)
    else
      var (s1, r) := if Found(s, name) then (s, SUCCESS) else CreateStep(s, name, false);
      if r != SUCCESS || !Found(s1, name) then (s1, ERROR)
      else
        var data := Truncated(content.chars, MAX_FILESIZE);
        (Filled(s1, Find(s1, name.chars), data), |data|)
  }

  ghost function Step(s: Fs, op: Op): (Fs, int) {
    match op
    case Create(name) => CreateStep(s, name, false)
    case Mkdir(name) => CreateStep(s, name, true)
    case Delete(name) => DeleteStep(s, name)
    case Rmdir(name) => RmdirStep(s, name)
    case Chdir(name) => ChdirStep(s, name)
    case Copy(src, dst) => CopyStep(s, src, dst)
    case Move(src, dst) => MoveStep(s, src, dst)
    case Write(name, content) => WriteStep(s, name, content)
  }
}
