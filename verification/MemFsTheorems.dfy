/** What the in-memory file system (fs/memfs_simple.c) keeps: the entries form a tree under the root directory. */
module MemFsTheorems {
  import opened CharPointers
  import opened MemFsSpec

  ghost predicate LiveDir(es: seq<Entry>, id: nat) {
    id == ROOT || exists i :: 0 <= i < |es| && es[i].inUse && es[i].isDir && es[i].id == id
  }

  ghost predicate IdsOk(es: seq<Entry>, nextId: nat) {
    && (forall i :: 0 <= i < |es| && es[i].inUse ==> 1 <= es[i].id < nextId)
    && (forall i, j :: 0 <= i < j < |es| && es[i].inUse && es[j].inUse ==> es[i].id != es[j].id)
  }

  ghost predicate NamesUnique(es: seq<Entry>) {
    forall i, j :: 0 <= i < j < |es| && es[i].inUse && es[j].inUse ==>
      es[i].parent != es[j].parent || es[i].name != es[j].name
  }

  ghost predicate ParentsOk(es: seq<Entry>) {
    forall i :: 0 <= i < |es| && es[i].inUse ==> es[i].parent < es[i].id && LiveDir(es, es[i].parent)
  }

  /** Ids are unique; so are names within a directory; every parent is the root or a directory in use with a smaller
      id; the current directory exists. */
  ghost predicate TreeOk(s: Fs) {
    true == (
      && s.nextId >= 1 && IdsOk(s.entries, s.nextId) && NamesUnique(s.entries)
      && ParentsOk(s.entries) && LiveDir(s.entries, s.cwd))
  }

  // ----- when a call keeps the tree -----

  /** Some other entry of the directory has this name. */
  ghost predicate Taken(es: seq<Entry>, parent: nat, name: string, but: int) {
    exists i :: 0 <= i < |es| && i != but && IsNamed(es[i], parent, name)
  }

  /** Creating under this name stores a name that is not in the current directory yet. */
  ghost predicate FreshName(s: Fs, name: CharPointer) {
    name.Text? && name.chars != "" && !Found(s, name) && FreeSlot(s.entries) < |s.entries| ==>
      !Taken(s.entries, s.cwd, Truncated(name.chars, NAME_LENGTH), -1)
  }

  /** What a caller can check before the call: no new name is cut short, or kept with its slash, into one that is
      taken; only files and empty directories are deleted, and never the current directory. */
  ghost predicate Safe(s: Fs, op: Op) {
    match op
    case Create(name) => FreshName(s, name)
    case Mkdir(name) => FreshName(s, name)
    case Delete(name) => Found(s, name) ==> Removable(s, Find(s, name.chars))
    case Rmdir(name) =>
      Found(s, name) ==>
        var e := s.entries[Find(s, name.chars)];
        e.isDir && !HasChild(s.entries, e.id) ==> e.id != s.cwd
    case Chdir(name) => true
    case Copy(src, dst) => src.Text? && Found(s, src) && !s.entries[Find(s, src.chars)].isDir ==> FreshName(s, dst)
    case Move(src, dst) =>
      src.Text? && dst.Text? && Found(s, src) && !Found(s, dst) ==>
        var k := Find(s, src.chars);
        !Taken(s.entries, s.entries[k].parent, Truncated(dst.chars, NAME_LENGTH), k)
    case Write(name, content) => content.Text? ==> FreshName(s, name)
  }

  ghost predicate Removable(s: Fs, k: nat)
    requires k < |s.entries|
  {
    s.entries[k].isDir ==> !HasChild(s.entries, s.entries[k].id) && s.entries[k].id != s.cwd
  }

  // ----- one entry changes -----

  /** With entry k in use as e, names stay unique exactly if e's name is not taken by another entry. */
  lemma NamesUniqueIff(es: seq<Entry>, k: nat, e: Entry)
    requires NamesUnique(es) && k < |es| && e.inUse
    ensures NamesUnique(es[k := e]) <==> !Taken(es, e.parent, e.name, k)
  {
    var es' := es[k := e];
    if Taken(es, e.parent, e.name, k) {
      var i :| 0 <= i < |es| && i != k && IsNamed(es[i], e.parent, e.name);
      assert es'[i] == es[i] && es'[k] == e;
    } else {
      forall i | 0 <= i < |es| && i != k && es[i].inUse ensures es[i].parent != e.parent || es[i].name != e.name {
        assert !IsNamed(es[i], e.parent, e.name);
      }
    }
  }

  /** Entries are in use for the same ids, kinds and parents. */
  ghost predicate SameShape(es: seq<Entry>, es': seq<Entry>) {
    |es'| == |es| && forall i :: 0 <= i < |es| ==>
      && es'[i].inUse == es[i].inUse && es'[i].isDir == es[i].isDir
      && es'[i].id == es[i].id && es'[i].parent == es[i].parent
  }

  lemma SameDirs(es: seq<Entry>, es': seq<Entry>, id: nat)
    requires SameShape(es, es') && LiveDir(es, id)
    ensures LiveDir(es', id)
  {
    if id != ROOT {
      var i :| 0 <= i < |es| && es[i].inUse && es[i].isDir && es[i].id == id;
      assert es'[i].inUse && es'[i].isDir && es'[i].id == id;
    }
  }

  lemma SameShapeKeeps(s: Fs, s': Fs)
    requires TreeOk(s) && SameShape(s.entries, s'.entries) && s'.nextId == s.nextId && s'.cwd == s.cwd
    ensures TreeOk(s') <==> NamesUnique(s'.entries)
  {
    var es, es' := s.entries, s'.entries;
    SameDirs(es, es', s.cwd);
    forall i | 0 <= i < |es'| && es'[i].inUse ensures es'[i].parent < es'[i].id && LiveDir(es', es'[i].parent) {
      SameDirs(es, es', es[i].parent);
    }
    assert IdsOk(es', s'.nextId);
  }

  lemma RenamedKeepsIff(s: Fs, k: nat, name: string)
    requires TreeOk(s) && k < |s.entries| && s.entries[k].inUse
    ensures TreeOk(Renamed(s, k, name)) <==> !Taken(s.entries, s.entries[k].parent, Truncated(name, NAME_LENGTH), k)
  {
    SameShapeKeeps(s, Renamed(s, k, name));
    NamesUniqueIff(s.entries, k, Renamed(s, k, name).entries[k]);
  }

  lemma FilledKeepsIff(s: Fs, k: nat, data: string)
    requires k < |s.entries|
    ensures TreeOk(Filled(s, k, data)) <==> TreeOk(s)
  {
    var s' := Filled(s, k, data);
    assert NamesUnique(s'.entries) <==> NamesUnique(s.entries) by {
      assert forall i :: 0 <= i < |s.entries| ==>
        s'.entries[i].name == s.entries[i].name && s'.entries[i].parent == s.entries[i].parent
        && s'.entries[i].inUse == s.entries[i].inUse;
    }
    if TreeOk(s) {
      SameShapeKeeps(s, s');
    } else if TreeOk(s') {
      SameShapeKeeps(s', s);
    }
  }

  lemma CreatedKeepsIff(s: Fs, k: nat, name: string, isDir: bool)
    requires TreeOk(s) && k < |s.entries| && !s.entries[k].inUse
    ensures TreeOk(Created(s, k, name, isDir)) <==> !Taken(s.entries, s.cwd, Truncated(name, NAME_LENGTH), -1)
  {
    var s' := Created(s, k, name, isDir);
    NamesUniqueIff(s.entries, k, s'.entries[k]);
    TakenButUnused(s.entries, s.cwd, Truncated(name, NAME_LENGTH), k);
    CreatedKeepsDirs(s, k, name, isDir);
  }

  lemma TakenButUnused(es: seq<Entry>, parent: nat, name: string, k: nat)
    requires k < |es| && !es[k].inUse
    ensures Taken(es, parent, name, k) <==> Taken(es, parent, name, -1)
  {
    if Taken(es, parent, name, -1) {
      var i :| 0 <= i < |es| && i != -1 && IsNamed(es[i], parent, name);
      assert i != k;
    }
  }

  lemma OtherDirsStay(es: seq<Entry>, k: nat, e: Entry, id: nat)
    requires k < |es| && LiveDir(es, id) && !(es[k].inUse && es[k].isDir && es[k].id == id)
    ensures LiveDir(es[k := e], id)
  {
    if id != ROOT {
      var i :| 0 <= i < |es| && es[i].inUse && es[i].isDir && es[i].id == id;
      assert es[k := e][i] == es[i];
    }
  }

  lemma CreatedKeepsDirs(s: Fs, k: nat, name: string, isDir: bool)
    requires TreeOk(s) && k < |s.entries| && !s.entries[k].inUse
    ensures var s' := Created(s, k, name, isDir);
      IdsOk(s'.entries, s'.nextId) && ParentsOk(s'.entries) && LiveDir(s'.entries, s'.cwd)
  {
    var es, e := s.entries, Created(s, k, name, isDir).entries[k];
    assert s.cwd < s.nextId;
    OtherDirsStay(es, k, e, s.cwd);
    forall i | 0 <= i < |es| && i != k && es[i].inUse ensures LiveDir(es[k := e], es[i].parent) {
      OtherDirsStay(es, k, e, es[i].parent);
    }
  }

  /** A file is nobody's parent and not the current directory. */
  lemma FileIsNoParent(s: Fs, k: nat)
    requires TreeOk(s) && k < |s.entries| && s.entries[k].inUse && !s.entries[k].isDir
    ensures !HasChild(s.entries, s.entries[k].id) && s.cwd != s.entries[k].id
  {
    assert !LiveDir(s.entries, s.entries[k].id);
  }

  lemma ClearedKeepsIff(s: Fs, k: nat)
    requires TreeOk(s) && k < |s.entries| && s.entries[k].inUse
    ensures TreeOk(Cleared(s, k)) <==> Removable(s, k)
  {
    if !s.entries[k].isDir {
      FileIsNoParent(s, k);
    }
    if !HasChild(s.entries, s.entries[k].id) && s.entries[k].id != s.cwd {
      RemovalKeeps(s, k);
    } else {
      RemovalBreaks(s, k);
    }
  }

  lemma RemovalKeeps(s: Fs, k: nat)
    requires TreeOk(s) && k < |s.entries| && s.entries[k].inUse
    requires !HasChild(s.entries, s.entries[k].id) && s.entries[k].id != s.cwd
    ensures TreeOk(Cleared(s, k))
  {
    RemovalKeepsIds(s.entries, k, s.nextId);
    RemovalKeepsParents(s.entries, k);
    OtherDirsStay(s.entries, k, NO_ENTRY, s.cwd);
  }

  lemma RemovalKeepsIds(es: seq<Entry>, k: nat, nextId: nat)
    requires k < |es| && IdsOk(es, nextId) && NamesUnique(es)
    ensures IdsOk(es[k := NO_ENTRY], nextId) && NamesUnique(es[k := NO_ENTRY])
  {
    assert forall i :: 0 <= i < |es| && es[k := NO_ENTRY][i].inUse ==> es[k := NO_ENTRY][i] == es[i];
  }

  lemma RemovalKeepsParents(es: seq<Entry>, k: nat)
    requires k < |es| && es[k].inUse && ParentsOk(es) && !HasChild(es, es[k].id)
    ensures ParentsOk(es[k := NO_ENTRY])
  {
    forall i | 0 <= i < |es| && i != k && es[i].inUse ensures LiveDir(es[k := NO_ENTRY], es[i].parent) {
      assert es[i].parent != es[k].id;
      OtherDirsStay(es, k, NO_ENTRY, es[i].parent);
    }
  }

  lemma RemovalBreaks(s: Fs, k: nat)
    requires TreeOk(s) && k < |s.entries| && s.entries[k].inUse && s.entries[k].isDir
    requires HasChild(s.entries, s.entries[k].id) || s.entries[k].id == s.cwd
    ensures !TreeOk(Cleared(s, k))
  {
    var es, es' := s.entries, Cleared(s, k).entries;
    assert !LiveDir(es', es[k].id);
    if HasChild(es, es[k].id) {
      var i :| 0 <= i < |es| && es[i].inUse && es[i].parent == es[k].id;
      assert i != k && es'[i] == es[i];
    }
  }

  // ----- whole calls -----

  lemma CreateKeepsIff(s: Fs, name: CharPointer, isDir: bool)
    requires TreeOk(s)
    ensures TreeOk(CreateStep(s, name, isDir).0) == FreshName(s, name)
  {
    var k := FreeSlot(s.entries);
    if name.Text? && name.chars != "" && !Found(s, name) && k < |s.entries| {
      CreatedKeepsIff(s, k, name.chars, isDir);
    } else {
      assert CreateStep(s, name, isDir).0 == s;
    }
  }

  lemma CopyKeepsIff(s: Fs, src: CharPointer, dst: CharPointer)
    requires TreeOk(s)
    ensures TreeOk(CopyStep(s, src, dst).0) == Safe(s, Copy(src, dst))
  {
    if src.Text? && dst.Text? && Found(s, src) && !s.entries[Find(s, src.chars)].isDir && !Found(s, dst) {
      CopyIntoNewKeepsIff(s, src, dst);
    } else {
      assert CopyStep(s, src, dst).0 == s && Safe(s, Copy(src, dst));
    }
  }

  lemma CopyIntoNewKeepsIff(s: Fs, src: CharPointer, dst: CharPointer)
    requires TreeOk(s) && src.Text? && dst.Text? && !Found(s, dst)
    requires Found(s, src) && !s.entries[Find(s, src.chars)].isDir
    ensures TreeOk(CopyStep(s, src, dst).0) == FreshName(s, dst)
  {
    CreateKeepsIff(s, dst, false);
    var (s1, r) := CreateStep(s, dst, false);
    if r == SUCCESS && Found(s1, dst) {
      FilledKeepsIff(s1, Find(s1, dst.chars), s1.entries[Find(s, src.chars)].data);
    } else {
      assert CopyStep(s, src, dst).0 == s1;
    }
  }

  lemma WriteKeepsIff(s: Fs, name: CharPointer, content: CharPointer)
    requires TreeOk(s)
    ensures TreeOk(WriteStep(s, name, content).0) == Safe(s, Write(name, content))
  {
    if name.Text? && content.Text? {
      var data := Truncated(content.chars, MAX_FILESIZE);
      if Found(s, name) {
        FilledKeepsIff(s, Find(s, name.chars), data);
      } else {
        CreateKeepsIff(s, name, false);
        var (s1, r) := CreateStep(s, name, false);
        if r == SUCCESS && Found(s1, name) {
          FilledKeepsIff(s1, Find(s1, name.chars), data);
        } else {
          assert WriteStep(s, name, content).0 == s1;
        }
      }
    } else {
      assert WriteStep(s, name, content).0 == s;
    }
  }

  lemma RemoveKeepsIff(s: Fs, name: CharPointer)
    requires TreeOk(s)
    ensures TreeOk(DeleteStep(s, name).0) == Safe(s, Delete(name))
    ensures TreeOk(RmdirStep(s, name).0) == Safe(s, Rmdir(name))
  {
    if Found(s, name) {
      ClearedKeepsIff(s, Find(s, name.chars));
    } else {
      assert DeleteStep(s, name).0 == s && RmdirStep(s, name).0 == s;
    }
  }

  lemma MoveKeepsIff(s: Fs, src: CharPointer, dst: CharPointer)
    requires TreeOk(s)
    ensures TreeOk(MoveStep(s, src, dst).0) == Safe(s, Move(src, dst))
  {
    if src.Text? && dst.Text? && Found(s, src) && !Found(s, dst) {
      RenamedKeepsIff(s, Find(s, src.chars), dst.chars);
    } else {
      assert MoveStep(s, src, dst).0 == s && Safe(s, Move(src, dst));
    }
  }

  lemma ChdirKeepsTree(s: Fs, name: CharPointer)
    requires TreeOk(s)
    ensures TreeOk(ChdirStep(s, name).0)
  {
    UpKeepsTree(s);
  }

  lemma UpKeepsTree(s: Fs)
    requires TreeOk(s)
    ensures TreeOk(Up(s)) && (s.cwd != ROOT ==> Up(s).cwd < s.cwd)
  {
    if s.cwd != ROOT {
      var i :| 0 <= i < |s.entries| && s.entries[i].inUse && s.entries[i].isDir && s.entries[i].id == s.cwd;
      assert FindId(s.entries, s.cwd) <= i;
    }
  }

  /** A call keeps the tree exactly if it is safe. */
  lemma StepKeepsTreeIff(s: Fs, op: Op)
    requires TreeOk(s)
    ensures TreeOk(Step(s, op).0) == Safe(s, op)
  {
    match op {
      case Create(name) => CreateKeepsIff(s, name, false);
      case Mkdir(name) => CreateKeepsIff(s, name, true);
      case Delete(name) => RemoveKeepsIff(s, name);
      case Rmdir(name) => RemoveKeepsIff(s, name);
      case Chdir(name) => ChdirKeepsTree(s, name);
      case Copy(src, dst) => CopyKeepsIff(s, src, dst);
      case Move(src, dst) => MoveKeepsIff(s, src, dst);
      case Write(name, content) => WriteKeepsIff(s, name, content);
    }
  }

  // ----- relative names -----

  ghost predicate Relative(name: CharPointer) {
    name.Text? && 1 <= |name.chars| <= NAME_LENGTH && name.chars[0] != '/'
  }

  /** All names are relative and fit their field; delete is used on files only. */
  ghost predicate Plain(s: Fs, op: Op) {
    match op
    case Create(name) => Relative(name)
    case Mkdir(name) => Relative(name)
    case Delete(name) => Relative(name) && (Found(s, name) ==> !s.entries[Find(s, name.chars)].isDir)
    case Rmdir(name) => Relative(name)
    case Chdir(name) => true
    case Copy(src, dst) => Relative(src) && Relative(dst)
    case Move(src, dst) => Relative(src) && Relative(dst)
    case Write(name, content) => Relative(name)
  }

  lemma PlainIsSafe(s: Fs, op: Op)
    requires TreeOk(s) && Plain(s, op)
    ensures Safe(s, op)
  {
  }

  lemma {:induction false} RunKeepsTree(ss: seq<Fs>, ops: seq<Op>, n: nat)
    requires |ss| == |ops| + 1 && n <= |ops| && TreeOk(ss[0])
    requires forall i {:trigger ops[i]} :: 0 <= i < |ops| ==> Plain(ss[i], ops[i]) && ss[i + 1] == Step(ss[i], ops[i]).0
    ensures TreeOk(ss[n])
  {
    if n > 0 {
      RunKeepsTree(ss, ops, n - 1);
      assert Plain(ss[n - 1], ops[n - 1]) && ss[n] == Step(ss[n - 1], ops[n - 1]).0;
      PlainIsSafe(ss[n - 1], ops[n - 1]);
      StepKeepsTreeIff(ss[n - 1], ops[n - 1]);
    }
  }

  lemma EmptyTableIsTree(s: Fs)
    requires s.nextId >= 1 && s.cwd == ROOT && forall i :: 0 <= i < |s.entries| ==> !s.entries[i].inUse
    ensures TreeOk(s)
  {
  }

  // ----- the way up -----

  /** n times chdir(".."). */
  ghost function Ups(s: Fs, n: nat): Fs
    decreases n
  {
    if n == 0 then s else Ups(ChdirStep(s, Text("..")).0, n - 1)
  }

  /** Every chdir("..") goes to a directory with a smaller id, so it reaches the root after at most as many calls as
      the current directory's id. */
  lemma {:induction false} UpsReachRoot(s: Fs, n: nat)
    requires TreeOk(s) && n >= s.cwd
    ensures Ups(s, n).cwd == ROOT
    decreases n
  {
    if n > 0 {
      UpKeepsTree(s);
      assert ChdirStep(s, Text("..")).0 == Up(s);
      UpsReachRoot(Up(s), n - 1);
    }
  }

  // ----- contents -----

  lemma {:induction false} SameNamesSameFind(es: seq<Entry>, es': seq<Entry>, parent: nat, name: string, from: nat)
    requires |es'| == |es| && from <= |es|
    requires forall i :: 0 <= i < |es| ==> IsNamed(es'[i], parent, name) == IsNamed(es[i], parent, name)
    ensures FindIn(es', parent, name, from) == FindIn(es, parent, name, from)
    decreases |es| - from
  {
    if from < |es| {
      SameNamesSameFind(es, es', parent, name, from + 1);
    }
  }

  lemma FilledKeepsFind(s: Fs, k: nat, data: string, name: string)
    requires k < |s.entries|
    ensures Find(Filled(s, k, data), name) == Find(s, name)
  {
    var es, es' := s.entries, Filled(s, k, data).entries;
    if name != "" && name[0] == '/' {
      SameNamesSameFind(es, es', ROOT, name[1..], 0);
    } else {
      SameNamesSameFind(es, es', s.cwd, name, 0);
    }
  }

  /** What a successful write stores is what the same name finds afterwards. */
  lemma WriteReadsBack(s: Fs, name: CharPointer, content: CharPointer)
    requires WriteStep(s, name, content).1 >= 0
    ensures var s' := WriteStep(s, name, content).0;
      Found(s', name) && s'.entries[Find(s', name.chars)].data == Truncated(content.chars, MAX_FILESIZE)
    ensures WriteStep(s, name, content).1 == |Truncated(content.chars, MAX_FILESIZE)|
  {
    var s1 := if Found(s, name) then s else CreateStep(s, name, false).0;
    FilledKeepsFind(s1, Find(s1, name.chars), Truncated(content.chars, MAX_FILESIZE), name.chars);
  }

  /** A successful copy is a file, found under its name, which was not there before, with the content of the source,
      which is still there. */
  lemma CopyReadsBack(s: Fs, src: CharPointer, dst: CharPointer)
    requires CopyStep(s, src, dst).1 == SUCCESS
    ensures var s' := CopyStep(s, src, dst).0;
      && !Found(s, dst) && Found(s', dst) && !s'.entries[Find(s', dst.chars)].isDir
      && s'.entries[Find(s', dst.chars)].data == s.entries[Find(s, src.chars)].data
      && s'.entries[Find(s, src.chars)] == s.entries[Find(s, src.chars)] && !s.entries[Find(s, src.chars)].isDir
  {
    var s1, i, k := CreateStep(s, dst, false).0, Find(s, src.chars), FreeSlot(s.entries);
    assert s1.entries[i] == s.entries[i] && i != k;
    FilledKeepsFind(s1, Find(s1, dst.chars), s1.entries[i].data, dst.chars);
    assert Find(s1, dst.chars) == k;
  }

  // ----- where a chdir leads -----

  ghost predicate Special(name: string) { name == "." || name == ".." || name == "/" }

  /** A chdir to a name that is not special succeeds exactly if it finds a directory. From then on relative names find
      exactly the entries that have this directory as parent. */
  lemma ChdirEntersIff(s: Fs, name: string, x: string)
    requires !Special(name) && x != "" && x[0] != '/'
    ensures
      var (s', r) := ChdirStep(s, Text(name));
      && (r == SUCCESS <==> Found(s, Text(name)) && s.entries[Find(s, name)].isDir) && s'.entries == s.entries
      && (r == SUCCESS ==>
           var id := s.entries[Find(s, name)].id;
           Found(s', Text(x)) <==> exists i :: 0 <= i < |s.entries| && IsNamed(s.entries[i], id, x))
      && (r != SUCCESS ==> s' == s)
  {
  }

  /** chdir("/") leads to the root, where a name with a leading slash and one without find the same; chdir(".") leads
      nowhere else. */
  lemma ChdirToRootOrHere(s: Fs, x: string)
    requires x != "" && x[0] != '/'
    ensures ChdirStep(s, Text(".")) == (s, SUCCESS)
    ensures
      var (s', r) := ChdirStep(s, Text("/"));
      r == SUCCESS && s'.entries == s.entries && s'.cwd == ROOT && Find(s', x) == Find(s', "/" + x) == Find(s, "/" + x)
  {
    assert ("/" + x)[1..] == x;
  }

  /** chdir into a subdirectory and up again comes back to where it started. */
  lemma ChdirAndBack(s: Fs, name: string)
    requires TreeOk(s) && !Special(name) && name != "" && name[0] != '/' && ChdirStep(s, Text(name)).1 == SUCCESS
    ensures ChdirStep(ChdirStep(s, Text(name)).0, Text("..")).0 == s
    ensures ChdirStep(s, Text(name)).0.cwd > s.cwd
  {
    var k := Find(s, name);
    assert IsNamed(s.entries[k], s.cwd, name);
    IdIsAt(s.entries, s.nextId, k);
  }

  /** What is created after it is an entry of that directory: found there, not found where the caller came from, and
      still there when the caller goes in again. */
  lemma CreatedInDirectory(s: Fs, dir: string, x: string, isDir: bool)
    requires TreeOk(s) && !Special(dir) && dir != "" && dir[0] != '/' && ChdirStep(s, Text(dir)).1 == SUCCESS
    requires Relative(Text(x)) && CreateStep(ChdirStep(s, Text(dir)).0, Text(x), isDir).1 == SUCCESS
    ensures
      var s1 := ChdirStep(s, Text(dir)).0;
      var s2 := CreateStep(s1, Text(x), isDir).0;
      var back := ChdirStep(s2, Text("..")).0;
      && Found(s2, Text(x)) && s2.entries[Find(s2, x)].parent == s.entries[Find(s, dir)].id
      && back.cwd == s.cwd && (Found(back, Text(x)) <==> Found(s, Text(x)))
      && ChdirStep(back, Text(dir)).0 == s2
  {
    var s1 := ChdirStep(s, Text(dir)).0;
    var s2 := CreateStep(s1, Text(x), isDir).0;
    var d, k := Find(s, dir), FreeSlot(s.entries);
    ChdirAndBack(s, dir);
    CreatedIsFound(s1, x, isDir);
    ChdirKeepsTree(s, Text(dir));
    CreatedKeepsDirs(s1, k, x, isDir);
    UpToParent(s2, d);
    FindsAsBefore(s, s2.(cwd := s.cwd), k, x);
    FindsAsBefore(s, s2.(cwd := s.cwd), k, dir);
  }

  lemma UpToParent(s: Fs, d: nat)
    requires IdsOk(s.entries, s.nextId) && d < |s.entries| && s.entries[d].inUse && s.cwd == s.entries[d].id
    ensures ChdirStep(s, Text("..")).0 == s.(cwd := s.entries[d].parent)
  {
    IdIsAt(s.entries, s.nextId, d);
  }

  /** A new entry of another directory makes no difference to relative names. */
  lemma FindsAsBefore(s: Fs, s': Fs, k: nat, name: string)
    requires k < |s.entries| == |s'.entries| && !s.entries[k].inUse && s'.entries[k].parent != s.cwd && s'.cwd == s.cwd
    requires s'.entries == s.entries[k := s'.entries[k]] && name != "" && name[0] != '/'
    ensures Find(s', name) == Find(s, name)
  {
    SameNamesSameFind(s.entries, s'.entries, s.cwd, name, 0);
  }

  lemma IdIsAt(es: seq<Entry>, nextId: nat, d: nat)
    requires IdsOk(es, nextId) && d < |es| && es[d].inUse
    ensures FindId(es, es[d].id) == d
  {
    var j := FindId(es, es[d].id);
    assert j <= d;
  }

  /** A create with a fitting relative name makes an empty entry that the name finds, so that it cannot be made again,
      of the kind asked for: a chdir into it succeeds exactly if it is a directory. */
  lemma CreatedIsFound(s: Fs, x: string, isDir: bool)
    requires Relative(Text(x)) && CreateStep(s, Text(x), isDir).1 == SUCCESS
    ensures
      var s' := CreateStep(s, Text(x), isDir).0;
      && Found(s', Text(x)) && Find(s', x) == FreeSlot(s.entries)
      && s'.entries[Find(s', x)].data == "" && s'.entries[Find(s', x)].parent == s.cwd
      && CreateStep(s', Text(x), !isDir).1 == EXISTS
      && (!Special(x) ==> ChdirStep(s', Text(x)).1 == if isDir then SUCCESS else NOT_DIR)
  {
    var s', k := CreateStep(s, Text(x), isDir).0, FreeSlot(s.entries);
    assert IsNamed(s'.entries[k], s.cwd, x);
    assert forall i :: 0 <= i < |s.entries| && i != k ==> s'.entries[i] == s.entries[i];
  }

  /** A create under a name that is not empty nor there succeeds exactly if an entry is unused, and is refused for want
      of space otherwise. */
  lemma CreateFailsIff(s: Fs, name: string, isDir: bool)
    requires name != "" && !Found(s, Text(name))
    ensures
      var r := CreateStep(s, Text(name), isDir).1;
      if exists i :: 0 <= i < |s.entries| && !s.entries[i].inUse then r == SUCCESS else r == NO_SPACE
  {
  }

  // ----- what a delete and a move leave -----

  /** The directory and the name in it that a name looks for. */
  ghost function Target(s: Fs, name: string): (nat, string) {
    if name != "" && name[0] == '/' then (ROOT, name[1..]) else (s.cwd, name)
  }

  lemma FoundIff(s: Fs, name: string)
    ensures Found(s, Text(name)) <==>
      exists i :: 0 <= i < |s.entries| && IsNamed(s.entries[i], Target(s, name).0, Target(s, name).1)
    ensures Found(s, Text(name)) ==> IsNamed(s.entries[Find(s, name)], Target(s, name).0, Target(s, name).1)
  {
  }

  /** What has been deleted, or removed as a directory, is not found any more; all other entries are as before. */
  lemma RemovedIsGone(s: Fs, name: string)
    requires TreeOk(s) && Found(s, Text(name))
    ensures
      var s' := DeleteStep(s, Text(name)).0;
      && DeleteStep(s, Text(name)).1 == SUCCESS && !Found(s', Text(name)) && !s'.entries[Find(s, name)].inUse
      && forall i :: 0 <= i < |s.entries| && i != Find(s, name) ==> s'.entries[i] == s.entries[i]
    ensures
      var (s', r) := RmdirStep(s, Text(name));
      var e := s.entries[Find(s, name)];
      && (r == SUCCESS <==>
            e.isDir && forall i :: 0 <= i < |s.entries| && s.entries[i].inUse ==> s.entries[i].parent != e.id)
      && (r == NOT_DIR <==> !e.isDir) && s' == if r == SUCCESS then DeleteStep(s, Text(name)).0 else s
  {
    var s', k := DeleteStep(s, Text(name)).0, Find(s, name);
    FoundIff(s, name);
    FoundIff(s', name);
    forall i | 0 <= i < |s.entries| && i != k
      ensures !IsNamed(s'.entries[i], Target(s, name).0, Target(s, name).1)
    {
      assert s'.entries[i] == s.entries[i];
    }
  }

  /** After a move with fitting relative names the entry is found under the new name and not under the old one, with
      the same id, kind, directory and content; all other entries are as before. */
  lemma MovedKeepsTheFile(s: Fs, src: string, dst: string)
    requires TreeOk(s) && Relative(Text(src)) && Relative(Text(dst)) && MoveStep(s, Text(src), Text(dst)).1 == SUCCESS
    ensures
      var s', k := MoveStep(s, Text(src), Text(dst)).0, Find(s, src);
      && Found(s, Text(src)) && !Found(s', Text(src)) && Found(s', Text(dst)) && Find(s', dst) == k
      && s'.entries[k].id == s.entries[k].id && s'.entries[k].data == s.entries[k].data
      && s'.entries[k].isDir == s.entries[k].isDir && s'.entries[k].parent == s.entries[k].parent
      && forall i :: 0 <= i < |s.entries| && i != k ==> s'.entries[i] == s.entries[i]
  {
    var s', k := MoveStep(s, Text(src), Text(dst)).0, Find(s, src);
    FoundIff(s, src);
    FoundIff(s, dst);
    FoundIff(s', src);
    FoundIff(s', dst);
    assert IsNamed(s'.entries[k], s.cwd, dst);
    forall i | 0 <= i < |s.entries| && i != k
      ensures s'.entries[i] == s.entries[i]
      ensures !IsNamed(s'.entries[i], s.cwd, src) && !IsNamed(s'.entries[i], s.cwd, dst)
    {
      assert !IsNamed(s.entries[i], s.cwd, dst);
    }
  }

  // ----- what goes wrong otherwise -----

  /** The first create in an empty table of two entries. */
  lemma FirstCreate(name: string)
    requires name != ""
    ensures
      var s := Fs([NO_ENTRY, NO_ENTRY], 1, ROOT, 0);
      && CreateStep(s, Text(name), false) == (Created(s, 0, name, false), SUCCESS)
      && FreeSlot(Created(s, 0, name, false).entries) == 1 && TreeOk(Created(s, 0, name, false))
  {
    var s := Fs([NO_ENTRY, NO_ENTRY], 1, ROOT, 0);
    EmptyTableIsTree(s);
    CreatedKeepsIff(s, 0, name, false);
    assert FreeSlot(s.entries) == 0;
    var es := Created(s, 0, name, false).entries;
    assert es[0].inUse && !es[1].inUse;
  }

  /** Two long names that differ only behind the thirty-first character end up as one name twice. */
  lemma LongNamesCollide(name: string)
    requires |name| == NAME_LENGTH && name[0] != '/'
    ensures
      var s := Fs([NO_ENTRY, NO_ENTRY], 1, ROOT, 0);
      var s1 := Step(s, Create(Text(name + "b"))).0;
      TreeOk(s1) && Step(s1, Create(Text(name + "c"))).1 == SUCCESS && !TreeOk(Step(s1, Create(Text(name + "c"))).0)
  {
    var s := Fs([NO_ENTRY, NO_ENTRY], 1, ROOT, 0);
    FirstCreate(name + "b");
    var s1 := Created(s, 0, name + "b", false);
    assert Truncated(name + "b", NAME_LENGTH) == name == Truncated(name + "c", NAME_LENGTH);
    assert IsNamed(s1.entries[0], ROOT, name) && |name + "c"| != |name|;
    assert !Found(s1, Text(name + "c"));
    CreateKeepsIff(s1, Text(name + "c"), false);
  }

  /** A file created as "/x" keeps the slash in its name and is not found again, so it can be created twice. */
  lemma SlashNamesRepeat(name: string)
    requires 0 < |name| < NAME_LENGTH
    ensures
      var s := Fs([NO_ENTRY, NO_ENTRY], 1, ROOT, 0);
      var s1 := Step(s, Create(Text("/" + name))).0;
      TreeOk(s1) && Step(s1, Create(Text("/" + name))).1 == SUCCESS && !TreeOk(Step(s1, Create(Text("/" + name))).0)
  {
    var s := Fs([NO_ENTRY, NO_ENTRY], 1, ROOT, 0);
    FirstCreate("/" + name);
    var s1 := Created(s, 0, "/" + name, false);
    assert IsNamed(s1.entries[0], ROOT, "/" + name) && ("/" + name)[1..] == name && |"/" + name| != |name|;
    assert !Found(s1, Text("/" + name));
    CreateKeepsIff(s1, Text("/" + name), false);
  }
}
