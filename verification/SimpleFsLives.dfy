/** Whole lives of files and descriptors in SimpleFS: what an open shows of the file, what a close gives back, when
    descriptors run out, and under which names files come to be. */
module SimpleFsLives {
  import opened Bytes
  import opened SimpleFsVolume
  import opened SimpleFsContent
  import opened SimpleFsSpec
  import opened SimpleFsWrite
  import opened SimpleFsSteps
  import opened SimpleFsTheorems
  import opened SimpleFsRuns

  // ----- what an open shows -----

  /** A truncating open shows an empty file and records it as empty; any other open shows the bytes on record and
      changes nothing on record. Other files are as before. */
  lemma OpenShowsTheFile(v: Snapshot, i: nat, f: nat, mode: byte, size: nat)
    requires Fits(v, size) && i < |v.dir| && f < |v.fds| && v.dir[i].name != [] && v.dir[i].kind != TYPE_DIRECTORY
    ensures
      var w := Opened(v, i, f, mode);
      && OpenOk(w, f, size) && SizesFit(w, size) && |w.dir| == |v.dir|
      && FileBytes(w, f, size) == (if Truncates(mode) then [] else EntryBytes(v, i))
      && EntryBytes(w, i) == FileBytes(w, f, size)
      && forall j :: 0 <= j < |v.dir| && j != i ==> EntryBytes(w, j) == EntryBytes(v, j)
  {
    OpenedIsOk(v, i, f, mode, size);
    OpenIsOk(Opened(v, i, f, mode), f, size);
  }

  /** No write among the first n transfers has stored anything. */
  ghost predicate NothingStored(ts: seq<Transfer>, n: nat)
    requires n <= |ts|
  {
    forall j :: 0 <= j < n && ts[j].Wrote? ==> ts[j].stored == 0
  }

  lemma EmptyStaysEmpty(v: Snapshot, v': Snapshot, f: nat, t: Transfer, size: nat)
    requires Ok(v, size) && Ok(v', size) && IsOpen(v, f) && IsOpen(v', f) && Transfers(v, v', f, t, size)
    requires v.fds[f].fileSize == 0 && (t.Wrote? ==> t.stored == 0)
    ensures v'.fds[f].fileSize == 0 && (t.Got? ==> t.bytes == [])
  {
    OpenIsOk(v, f, size);
    match t
    case Wrote(data, stored) => WriterAfter(v, v', f, data, size, stored);
    case Got(count, bytes) => LandsInChain(v, f, size);
    case Elsewhere =>
  }

  lemma LandsInChain(v: Snapshot, f: nat, size: nat)
    requires OpenOk(v, f, size)
    ensures Landing(v.fds[f], v.cursors[f], size) <= Start(|ChainOf(v, f)|, size)
  {
    LandingInChain(v.fds[f], v.cursors[f], |ChainOf(v, f)|, size);
  }

  /** Over every run of transfers from a truncating open on, a read hands out nothing as long as no write has stored
      anything. */
  lemma {:induction false} TruncatedReadsNothing(
      v: Snapshot, i: nat, mode: byte, vs: seq<Snapshot>, f: nat, ts: seq<Transfer>, n: nat, size: nat)
    requires TransferRun(vs, f, ts, size) && n <= |ts| && NothingStored(ts, n)
    requires i < |v.dir| && f < |v.fds| == |v.cursors| && Truncates(mode) && vs[0] == Opened(v, i, f, mode)
    ensures IsOpen(vs[n], f) && vs[n].fds[f].fileSize == 0
    ensures n < |ts| && ts[n].Got? ==> ts[n].bytes == []
  {
    if n > 0 {
      TruncatedReadsNothing(v, i, mode, vs, f, ts, n - 1, size);
      EmptyTransfer(vs, f, ts, n - 1, size);
    }
    if n < |ts| && ts[n].Got? {
      EmptyTransfer(vs, f, ts, n, size);
    }
  }

  lemma EmptyTransfer(vs: seq<Snapshot>, f: nat, ts: seq<Transfer>, n: nat, size: nat)
    requires TransferRun(vs, f, ts, size) && n < |ts| && (ts[n].Wrote? ==> ts[n].stored == 0)
    requires IsOpen(vs[n], f) && vs[n].fds[f].fileSize == 0
    ensures IsOpen(vs[n + 1], f) && vs[n + 1].fds[f].fileSize == 0 && (ts[n].Got? ==> ts[n].bytes == [])
  {
    assert Ok(vs[n], size) && IsOpen(vs[n], f) && Ok(vs[n + 1], size) && IsOpen(vs[n + 1], f);
    assert Transfers(vs[n], vs[n + 1], f, ts[n], size);
    EmptyStaysEmpty(vs[n], vs[n + 1], f, ts[n], size);
  }

  /** Truncate, write, close, open again, read everything: exactly the stored bytes come back. */
  lemma TruncatedFileReadsBackTheWrite(
      v: Snapshot, i: nat, f: nat, mode: byte, v2: Snapshot, g: nat, again: byte, v5: Snapshot, data: seq<byte>, r: nat,
      count: nat, out: seq<byte>, size: nat)
    requires Fits(v, size) && i < |v.dir| && f < |v.fds| && v.dir[i].name != [] && v.dir[i].kind == TYPE_FILE
    requires Truncates(mode) && CanWrite(mode) && Ok(v2, size) && Ok(v5, size)
    requires
      var v1 := Opened(v, i, f, mode);
      Ok(v1, size) && WriteEffect(v1, v2, f, data, size, r)
    requires g < |v2.fds| && f < |v2.fds| && (g == f || !v2.fds[g].inUse) && !Truncates(again)
    requires
      var v3 := Closed(v2, f);
      i < |v3.dir| &&
      var v4 := Opened(v3, i, g, again);
      Ok(v4, size) && ReadEffect(v4, v5, g, count, size, out) && count >= v4.fds[g].fileSize
    ensures r <= |data| && out == data[..r]
  {
    var v1 := Opened(v, i, f, mode);
    OpenShowsTheFile(v, i, f, mode, size);
    TransferStartsAtPositionIff(v1, f, size);
    ReopenedFileReadsBackTheWrite(v1, v2, v5, f, g, data, r, again, count, out, size);
    assert Overwrite([], 0, data[..r]) == data[..r];
  }

  // ----- what a close gives back -----

  /** After a close the descriptor is not open, and every other one is exactly as before. */
  lemma CloseReleases(v: Snapshot, f: nat)
    requires IsOpen(v, f) && |v.cursors| == |v.fds|
    ensures |Closed(v, f).fds| == |v.fds| && !IsOpen(Closed(v, f), f)
    ensures forall g :: 0 <= g < |v.fds| && g != f ==>
      Closed(v, f).fds[g] == v.fds[g] && Closed(v, f).cursors[g] == v.cursors[g]
  {
  }

  /** An open right after a close has a descriptor. */
  lemma OpenAfterCloseHasOne(
      v: Snapshot, f: nat, mid: Snapshot, v': Snapshot, path: CString, mode: byte, size: nat, r: int)
    requires Ok(v, size) && IsOpen(v, f) && Ok(Closed(v, f), size) && Ok(mid, size)
    requires OpenEffect(Closed(v, f), mid, v', path, mode, size, r)
    ensures r != FS_ERROR_NO_FD
  {
    CloseReleases(v, f);
    assert !mid.fds[f].inUse;
  }

  // ----- runs of calls and their answers -----

  /** What one call does and answers, as proved of the methods. */
  ghost predicate Answers(v: Snapshot, v': Snapshot, call: Call, r: int, size: nat)
    requires Ok(v, size)
  {
    match call
    case CreateCall(path, kind) => CreateEffect(v, v', path, kind, size, r)
    case OpenCall(path, mode) => exists mid :: Ok(mid, size) && OpenEffect(v, mid, v', path, mode, size, r)
    case ReadCall(fd, count) =>
      if !IsOpen(v, fd) then r == FS_ERROR_INVALID_FD && v' == v
      else if !CanRead(v.fds[fd].mode) then r == FS_ERROR_PERMISSION && v' == v
      else exists out :: r == |out| && ReadEffect(v, v', fd, count, size, out)
    case WriteCall(fd, data) =>
      if !IsOpen(v, fd) then r == FS_ERROR_INVALID_FD && v' == v
      else if !CanWrite(v.fds[fd].mode) then r == FS_ERROR_PERMISSION && v' == v
      else r >= 0 && WriteEffect(v, v', fd, data, size, r)
    case CloseCall(fd) =>
      if IsOpen(v, fd) then r == FS_SUCCESS && v' == Closed(v, fd) else r == FS_ERROR_INVALID_FD && v' == v
  }

  lemma AnswersIsStep(v: Snapshot, v': Snapshot, call: Call, r: int, size: nat)
    requires Ok(v, size) && Answers(v, v', call, r, size)
    ensures Step(v, v', call, size)
  {
    match call
    case WriteCall(fd, data) =>
      if IsOpen(v, fd) && CanWrite(v.fds[fd].mode) {
        var n: nat := r;
        assert WriteEffect(v, v', fd, data, size, n);
      }
    case _ =>
  }

  /** Call j of a run. */
  ghost predicate AnswersAt(vs: seq<Snapshot>, calls: seq<Call>, rs: seq<int>, j: nat, size: nat)
    requires j < |calls| == |rs| && |vs| == |calls| + 1
  {
    Ok(vs[j], size) && Ok(vs[j + 1], size) && Answers(vs[j], vs[j + 1], calls[j], rs[j], size)
  }

  ghost predicate AnswerRun(vs: seq<Snapshot>, calls: seq<Call>, rs: seq<int>, size: nat) {
    && |vs| == |calls| + 1 == |rs| + 1 && Ok(vs[0], size)
    && forall j :: 0 <= j < |calls| ==> AnswersAt(vs, calls, rs, j, size)
  }

  lemma AnswerRunIsRun(vs: seq<Snapshot>, calls: seq<Call>, rs: seq<int>, size: nat)
    requires AnswerRun(vs, calls, rs, size)
    ensures Run(vs, calls, size)
  {
    forall j | 0 <= j < |vs| ensures Ok(vs[j], size) {
      assert j > 0 ==> AnswersAt(vs, calls, rs, j - 1, size);
    }
    forall j | 0 <= j < |calls| ensures Step(vs[j], vs[j + 1], calls[j], size) {
      assert AnswersAt(vs, calls, rs, j, size);
      AnswersIsStep(vs[j], vs[j + 1], calls[j], rs[j], size);
    }
  }

  // ----- when descriptors run out -----

  ghost function OpenOnes(fds: seq<Descriptor>): set<nat> {
    set f: nat | f < |fds| && fds[f].inUse
  }

  ghost predicate Opens(call: Call, r: int) { call.OpenCall? && r >= 0 }

  ghost predicate Closes(call: Call, r: int) { call.CloseCall? && r == FS_SUCCESS }

  lemma OneChanges(fds: seq<Descriptor>, f: nat, u: Descriptor)
    requires f < |fds|
    ensures OpenOnes(fds[f := u]) == if u.inUse then OpenOnes(fds) + {f} else OpenOnes(fds) - {f}
  {
  }

  lemma OpenTakesOne(v: Snapshot, mid: Snapshot, v': Snapshot, path: CString, mode: byte, r: int, size: nat)
    requires Ok(v, size) && Ok(mid, size) && OpenEffect(v, mid, v', path, mode, size, r)
    ensures
      if r < 0 then v'.fds == v.fds
      else r < |v.fds| && !v.fds[r].inUse && v'.fds == v.fds[r := v'.fds[r]] && v'.fds[r].inUse
  {
    assert mid.fds == v.fds;
  }

  /** A successful open adds the one descriptor it answers, a successful close takes away its own, and no other call
      opens or closes any. */
  lemma CallChangesOpenOnes(v: Snapshot, v': Snapshot, call: Call, r: int, size: nat)
    requires Ok(v, size) && Answers(v, v', call, r, size)
    ensures |v'.fds| == |v.fds|
    ensures
      if Opens(call, r) then r !in OpenOnes(v.fds) && OpenOnes(v'.fds) == OpenOnes(v.fds) + {r}
      else if Closes(call, r) then call.fd in OpenOnes(v.fds) && OpenOnes(v'.fds) == OpenOnes(v.fds) - {call.fd}
      else OpenOnes(v'.fds) == OpenOnes(v.fds)
  {
    match call
    case CreateCall(path, kind) =>
    case OpenCall(path, mode) =>
      var mid :| Ok(mid, size) && OpenEffect(v, mid, v', path, mode, size, r);
      OpenTakesOne(v, mid, v', path, mode, r, size);
      if r >= 0 {
        OneChanges(v.fds, r, v'.fds[r]);
      }
    case ReadCall(fd, count) => TransferOpensNone(v, v', fd, call, r, size);
    case WriteCall(fd, data) => TransferOpensNone(v, v', fd, call, r, size);
    case CloseCall(fd) =>
      if IsOpen(v, fd) {
        OneChanges(v.fds, fd, v'.fds[fd]);
      }
  }

  lemma TransferOpensNone(v: Snapshot, v': Snapshot, fd: int, call: Call, r: int, size: nat)
    requires Ok(v, size) && Answers(v, v', call, r, size) && (call.ReadCall? || call.WriteCall?) && call.fd == fd
    ensures |v'.fds| == |v.fds| && OpenOnes(v'.fds) == OpenOnes(v.fds)
  {
    if v' != v {
      assert v'.fds == v.fds[fd := v'.fds[fd]] && v'.fds[fd].inUse;
      OneChanges(v.fds, fd, v'.fds[fd]);
    }
  }

  ghost function Change(call: Call, r: int): int {
    if Opens(call, r) then 1 else if Closes(call, r) then -1 else 0
  }

  /** Successful opens less successful closes among the first n calls. */
  ghost function Balance(calls: seq<Call>, rs: seq<int>, n: nat): int
    requires n <= |calls| == |rs|
  {
    if n == 0 then 0 else Balance(calls, rs, n - 1) + Change(calls[n - 1], rs[n - 1])
  }

  /** Over every run from a close on, until an open answers the descriptor's number, reads, writes and further closes
      on it are refused as on no descriptor at all. */
  lemma {:induction false} ClosedStaysClosed(
      v: Snapshot, vs: seq<Snapshot>, calls: seq<Call>, rs: seq<int>, f: nat, n: nat, size: nat)
    requires AnswerRun(vs, calls, rs, size) && n <= |calls| && IsOpen(v, f) && |v.cursors| == |v.fds|
    requires vs[0] == Closed(v, f) && forall j :: 0 <= j < n ==> !(calls[j].OpenCall? && rs[j] == f)
    ensures !IsOpen(vs[n], f)
    ensures n < |calls| && (calls[n].ReadCall? || calls[n].WriteCall? || calls[n].CloseCall?) && calls[n].fd == f ==>
      rs[n] == FS_ERROR_INVALID_FD && vs[n + 1] == vs[n]
  {
    if n > 0 {
      ClosedStaysClosed(v, vs, calls, rs, f, n - 1, size);
      assert AnswersAt(vs, calls, rs, n - 1, size);
      CallChangesOpenOnes(vs[n - 1], vs[n], calls[n - 1], rs[n - 1], size);
      assert f !in OpenOnes(vs[n].fds);
    }
    if n < |calls| {
      assert AnswersAt(vs, calls, rs, n, size);
    }
  }

  lemma CallCounts(v: Snapshot, v': Snapshot, call: Call, r: int, size: nat)
    requires Ok(v, size) && Answers(v, v', call, r, size)
    ensures |v'.fds| == |v.fds|
    ensures |OpenOnes(v'.fds)| == |OpenOnes(v.fds)| + Change(call, r)
  {
    CallChangesOpenOnes(v, v', call, r, size);
  }

  lemma {:induction false} BalanceCountsOpenOnes(
      vs: seq<Snapshot>, calls: seq<Call>, rs: seq<int>, n: nat, size: nat)
    requires AnswerRun(vs, calls, rs, size) && n <= |calls|
    ensures |vs[n].fds| == |vs[0].fds| && |OpenOnes(vs[n].fds)| == |OpenOnes(vs[0].fds)| + Balance(calls, rs, n)
  {
    if n > 0 {
      BalanceCountsOpenOnes(vs, calls, rs, n - 1, size);
      assert AnswersAt(vs, calls, rs, n - 1, size);
      CallCounts(vs[n - 1], vs[n], calls[n - 1], rs[n - 1], size);
    }
  }

  lemma AllOpenIff(fds: seq<Descriptor>)
    ensures |OpenOnes(fds)| <= |fds|
    ensures FirstClosed(fds) == |fds| <==> |OpenOnes(fds)| == |fds|
  {
    var all := Numbers(|fds|);
    assert all == OpenOnes(fds) + (all - OpenOnes(fds));
    var f := FirstClosed(fds);
    if f < |fds| {
      assert f in all - OpenOnes(fds);
    } else {
      assert all == OpenOnes(fds);
    }
  }

  ghost function Numbers(n: nat): (s: set<nat>)
    ensures |s| == n && forall f :: f in s <==> 0 <= f < n
  {
    if n == 0 then {} else Numbers(n - 1) + {n - 1}
  }

  /** The file is there and no directory, or the open may create it and can. */
  ghost predicate Openable(v: Snapshot, path: CString, mode: byte)
    requires DATA_START <= |v.fat|
  {
    && v.initialized && InRoot(path)
    && var i := FindEntry(v.dir, path[1..]);
       if i >= 0 then v.dir[i].kind != TYPE_DIRECTORY
       else Creates(mode) && CreateCode(v, path) == FS_SUCCESS && 1 <= |path[1..]| < MAX_FILENAME
  }

  /** An open of such a file fails exactly if all descriptors are open. */
  lemma OpenFailsIff(v: Snapshot, v': Snapshot, path: CString, mode: byte, r: int, size: nat)
    requires Ok(v, size) && Ok(v', size) && Openable(v, path, mode) && Answers(v, v', OpenCall(path, mode), r, size)
    ensures if |OpenOnes(v.fds)| == |v.fds| then r == FS_ERROR_NO_FD else r >= 0
  {
    var mid :| Ok(mid, size) && OpenEffect(v, mid, v', path, mode, size, r);
    AllOpenIff(v.fds);
    assert mid.fds == v.fds;
    if FindEntry(v.dir, path[1..]) < 0 {
      CreatedIsFoundIff(v, mid, path, TYPE_FILE, size);
      CreatedKind(v, mid, path, TYPE_FILE, size);
    }
  }

  /** What a create with a fitting name makes is found, empty and as what was asked for, so that a second create under
      the name is refused. */
  lemma CreatedKind(v: Snapshot, v': Snapshot, path: CString, kind: byte, size: nat)
    requires Ok(v, size) && CreateEffect(v, v', path, kind, size, FS_SUCCESS) && 1 <= |path[1..]| < MAX_FILENAME
    ensures
      var i := FindEntry(v'.dir, path[1..]);
      i >= 0 && v'.dir[i].kind == kind && EntryBytes(v', i) == [] && CreateCode(v', path) == FS_ERROR_EXISTS
  {
    CreatedIsFoundIff(v, v', path, kind, size);
    var i, k := FirstEmpty(v.dir), FindEntry(v'.dir, path[1..]);
    assert forall j :: 0 <= j < |v.dir| && j != i ==> v'.dir[j] == v.dir[j];
  }

  /** Over every run of calls that starts with no descriptor open, an open of a file that is there, or that it may
      create and can, answers FS_ERROR_NO_FD exactly if the successful opens less the successful closes before it
      are as many as there are descriptors. */
  lemma DescriptorsRunOutIff(
      vs: seq<Snapshot>, calls: seq<Call>, rs: seq<int>, n: nat, path: CString, mode: byte, size: nat)
    requires AnswerRun(vs, calls, rs, size) && n < |calls| && calls[n] == OpenCall(path, mode)
    requires OpenOnes(vs[0].fds) == {} && DATA_START <= |vs[n].fat| && Openable(vs[n], path, mode)
    ensures rs[n] == FS_ERROR_NO_FD <==> Balance(calls, rs, n) == |vs[0].fds|
    ensures rs[n] != FS_ERROR_NO_FD ==> rs[n] >= 0
  {
    BalanceCountsOpenOnes(vs, calls, rs, n, size);
    assert AnswersAt(vs, calls, rs, n, size);
    OpenFailsIff(vs[n], vs[n + 1], path, mode, rs[n], size);
  }

  /** What mkdir made cannot be opened, what a create of a file made can, if there is a descriptor. */
  lemma OpenAfterCreateIff(
      v: Snapshot, v1: Snapshot, v2: Snapshot, path: CString, kind: byte, mode: byte, r: int, size: nat)
    requires Ok(v, size) && Ok(v1, size) && Ok(v2, size) && 1 < |path| && |path[1..]| < MAX_FILENAME
    requires CreateEffect(v, v1, path, kind, size, FS_SUCCESS) && Answers(v1, v2, OpenCall(path, mode), r, size)
    ensures r == FS_ERROR_IS_DIR <==> kind == TYPE_DIRECTORY
    ensures kind != TYPE_DIRECTORY ==> (r >= 0 <==> |OpenOnes(v.fds)| < |v.fds|)
  {
    CreatedKind(v, v1, path, kind, size);
    AllOpenIff(v.fds);
    var mid :| Ok(mid, size) && OpenEffect(v1, mid, v2, path, mode, size, r);
  }

  /** Under a name that is not there a create succeeds exactly if the counter of free blocks is not 0 and a slot is
      free, and is refused for want of space otherwise. */
  lemma CreateSucceedsIff(v: Snapshot, path: CString, size: nat)
    requires Ok(v, size) && v.initialized && InRoot(path) && FindEntry(v.dir, path[1..]) < 0
    ensures
      if v.sb.freeBlocks > 0 && exists i :: 0 <= i < |v.dir| && v.dir[i].name == [] then
        CreateCode(v, path) == FS_SUCCESS
      else CreateCode(v, path) == FS_ERROR_NO_SPACE
  {
    HasFree(v.fat);
    var b := FirstFree(v.fat, DATA_START);
    assert b < |v.fat| ==> b in FreeSet(v.fat);
    var i := FirstEmpty(v.dir);
  }

  /** An open of a file that is not there, without the create flag, answers so and changes nothing. */
  lemma MissingIsNotMade(v: Snapshot, v': Snapshot, path: CString, mode: byte, r: int, size: nat)
    requires Ok(v, size) && Answers(v, v', OpenCall(path, mode), r, size)
    requires v.initialized && InRoot(path) && FindEntry(v.dir, path[1..]) < 0 && !Creates(mode)
    ensures r == FS_ERROR_NOT_FOUND && v' == v
  {
  }

  // ----- descriptors keep what they were opened for -----

  lemma TransferKeepsMode(v: Snapshot, v': Snapshot, f: nat, t: Transfer, size: nat)
    requires Ok(v, size) && Ok(v', size) && IsOpen(v, f) && IsOpen(v', f) && Transfers(v, v', f, t, size)
    ensures v'.fds[f].mode == v.fds[f].mode
  {
  }

  lemma {:induction false} ModeStays(vs: seq<Snapshot>, f: nat, ts: seq<Transfer>, n: nat, size: nat)
    requires TransferRun(vs, f, ts, size) && n <= |ts|
    ensures IsOpen(vs[n], f) && IsOpen(vs[0], f) && vs[n].fds[f].mode == vs[0].fds[f].mode
  {
    assert IsOpen(vs[n], f) && IsOpen(vs[0], f);
    if n > 0 {
      ModeStays(vs, f, ts, n - 1, size);
      assert Ok(vs[n - 1], size) && Ok(vs[n], size);
      assert Transfers(vs[n - 1], vs[n - 1 + 1], f, ts[n - 1], size);
      TransferKeepsMode(vs[n - 1], vs[n], f, ts[n - 1], size);
    }
  }

  /** Over every run from an open on that does not close the descriptor: writes on it are refused exactly if it was not
      opened for writing, reads exactly if not for reading. */
  lemma RefusedIff(
      v: Snapshot, i: nat, mode: byte, vs: seq<Snapshot>, calls: seq<Call>, rs: seq<int>, f: nat, n: nat, size: nat)
    requires AnswerRun(vs, calls, rs, size) && n < |calls| && CloseCall(f) !in calls
    requires i < |v.dir| && f < |v.fds| == |v.cursors| && vs[0] == Opened(v, i, f, mode)
    ensures calls[n].WriteCall? && calls[n].fd == f ==> (rs[n] == FS_ERROR_PERMISSION <==> !CanWrite(mode))
    ensures calls[n].ReadCall? && calls[n].fd == f ==> (rs[n] == FS_ERROR_PERMISSION <==> !CanRead(mode))
  {
    AnswerRunIsRun(vs, calls, rs, size);
    var ts := RunTransfers(vs, calls, f, size);
    ModeStays(vs, f, ts, n, size);
    assert AnswersAt(vs, calls, rs, n, size);
  }

  // ----- under which names files come to be -----

  /** The call may make an entry of this name. */
  ghost predicate MayMake(call: Call, name: seq<byte>) {
    match call
    case CreateCall(path, kind) => path != [] && StoredName(path[1..]) == name
    case OpenCall(path, mode) => path != [] && Creates(mode) && StoredName(path[1..]) == name
    case _ => false
  }

  lemma StaysMissing(dir: seq<DirEntry>, dir': seq<DirEntry>, name: seq<byte>)
    requires FindEntry(dir, name) < 0 && |dir'| == |dir|
    requires forall i :: 0 <= i < |dir| ==> dir'[i].name == dir[i].name || dir'[i].name != name
    ensures FindEntry(dir', name) < 0
  {
  }

  lemma CreateKeepsMissing(v: Snapshot, v': Snapshot, path: CString, kind: byte, r: int, name: seq<byte>, size: nat)
    requires Ok(v, size) && CreateEffect(v, v', path, kind, size, r)
    requires FindEntry(v.dir, name) < 0 && !MayMake(CreateCall(path, kind), name)
    ensures FindEntry(v'.dir, name) < 0
  {
    StaysMissing(v.dir, v'.dir, name);
  }

  lemma OpenKeepsMissing(
      v: Snapshot, mid: Snapshot, v': Snapshot, path: CString, mode: byte, r: int, name: seq<byte>, size: nat)
    requires Ok(v, size) && Ok(mid, size) && OpenEffect(v, mid, v', path, mode, size, r)
    requires FindEntry(v.dir, name) < 0 && !MayMake(OpenCall(path, mode), name)
    ensures FindEntry(v'.dir, name) < 0
  {
    if mid != v {
      CreateKeepsMissing(v, mid, path, TYPE_FILE, FS_SUCCESS, name, size);
    }
    StaysMissing(mid.dir, v'.dir, name);
  }

  lemma CallKeepsMissing(v: Snapshot, v': Snapshot, call: Call, r: int, name: seq<byte>, size: nat)
    requires Ok(v, size) && Answers(v, v', call, r, size)
    requires FindEntry(v.dir, name) < 0 && !MayMake(call, name)
    ensures FindEntry(v'.dir, name) < 0
  {
    match call
    case OpenCall(path, mode) =>
      var mid :| Ok(mid, size) && OpenEffect(v, mid, v', path, mode, size, r);
      OpenKeepsMissing(v, mid, v', path, mode, r, name, size);
    case CreateCall(path, kind) => CreateKeepsMissing(v, v', path, kind, r, name, size);
    case ReadCall(fd, count) => assert v'.dir == v.dir;
    case WriteCall(fd, data) => assert v'.dir == v.dir;
    case CloseCall(fd) => StaysMissing(v.dir, v'.dir, name);
  }

  /** Over every run a name that is not there stays missing unless a create, or an open with the create flag, is called
      with a path that is stored under it: an open without the flag makes no file. */
  lemma {:induction false} FilesComeFromCreating(
      vs: seq<Snapshot>, calls: seq<Call>, rs: seq<int>, name: seq<byte>, n: nat, size: nat)
    requires AnswerRun(vs, calls, rs, size) && n <= |calls| && FindEntry(vs[0].dir, name) < 0
    requires forall j :: 0 <= j < n ==> !MayMake(calls[j], name)
    ensures FindEntry(vs[n].dir, name) < 0
  {
    if n > 0 {
      FilesComeFromCreating(vs, calls, rs, name, n - 1, size);
      assert AnswersAt(vs, calls, rs, n - 1, size);
      CallKeepsMissing(vs[n - 1], vs[n], calls[n - 1], rs[n - 1], name, size);
    }
  }
}
