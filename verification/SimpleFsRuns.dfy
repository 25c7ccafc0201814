/** What holds over whole runs of SimpleFS calls: where the transfers of one descriptor land, and that a
    file survives whatever is done to other files. */
module SimpleFsRuns {
  import opened Bytes
  import opened SimpleFsVolume
  import opened SimpleFsContent
  import opened SimpleFsSpec
  import opened SimpleFsWrite
  import opened SimpleFsSteps
  import opened SimpleFsTheorems

  // ----- where transfers land -----

  /** A call as one descriptor sees it: a write that stored some bytes, a read that got some, or a call that
      leaves this descriptor alone. */
  datatype Transfer = Wrote(data: seq<byte>, stored: nat) | Got(count: nat, bytes: seq<byte>) | Elsewhere

  ghost predicate Transfers(v: Snapshot, v': Snapshot, f: nat, t: Transfer, size: nat)
    requires Ok(v, size) && IsOpen(v, f)
  {
    match t
    case Wrote(data, stored) => WriteEffect(v, v', f, data, size, stored)
    case Got(count, bytes) => ReadEffect(v, v', f, count, size, bytes)
    case Elsewhere => LeavesAlone(v, v', f)
  }

  ghost predicate LeavesAlone(v: Snapshot, v': Snapshot, f: nat) {
    && f < |v.fds| && f < |v'.fds| && v'.fds[f] == v.fds[f]
    && f < |v.cursors| && f < |v'.cursors| && v'.cursors[f] == v.cursors[f]
    && v.cursors[f].slot < |v.layout.chains| && v.cursors[f].slot < |v'.layout.chains|
    && ChainOf(v, f) <= ChainOf(v', f)
  }

  /** The calls between the states vs, all of them while descriptor f is open. */
  ghost predicate TransferRun(vs: seq<Snapshot>, f: nat, ts: seq<Transfer>, size: nat) {
    && |vs| == |ts| + 1
    && (forall j {:trigger vs[j]} :: 0 <= j < |vs| ==> Ok(vs[j], size) && IsOpen(vs[j], f))
    && (forall j {:trigger ts[j]} :: 0 <= j < |ts| ==> Transfers(vs[j], vs[j + 1], f, ts[j], size))
  }

  /** As an open leaves it: the cursor in the first block, the position 0. */
  ghost predicate JustOpened(v: Snapshot, f: nat, size: nat)
    requires Ok(v, size) && IsOpen(v, f)
  {
    && v.fds[f].position == 0 && v.cursors[f].place == 0
    && v.cursors[f].slot < |v.layout.chains| && v.fds[f].fileSize <= Start(|ChainOf(v, f)|, size)
  }

  lemma OpenStartsARun(v: Snapshot, i: nat, f: nat, mode: byte, size: nat)
    requires Fits(v, size) && i < |v.dir| && f < |v.fds| && v.dir[i].name != [] && v.dir[i].kind != TYPE_DIRECTORY
    ensures
      var w := Opened(v, i, f, mode);
      Ok(w, size) && IsOpen(w, f) && JustOpened(w, f, size)
  {
    OpenedIsOk(v, i, f, mode, size);
  }

  /** What a caller can see: the transfer moved bytes and left the position u on a block boundary, a read
      moreover at the end of the file. */
  predicate EndsAtBoundary(u: Descriptor, t: Transfer, size: nat)
    requires size > 0
  {
    && u.position % size == 0
    && match t
       case Wrote(_, stored) => stored > 0
       case Got(_, bytes) => bytes != [] && u.position >= u.fileSize
       case Elsewhere => false
  }

  /** The cursor is in the block of the position. */
  ghost predicate OnTrack(u: Descriptor, cur: Cursor, length: nat, size: nat) {
    && Start(cur.place, size) <= u.position < Start(cur.place, size) + size
    && u.position <= u.fileSize <= Start(length, size)
  }

  /** The cursor's block ends at the position or before it. */
  ghost predicate Lagging(u: Descriptor, cur: Cursor, size: nat) {
    Start(cur.place, size) + size <= u.position
  }

  lemma OnTrackLands(u: Descriptor, cur: Cursor, length: nat, size: nat)
    requires size > 0 && OnTrack(u, cur, length, size)
    ensures Landing(u, cur, size) == u.position
  {
    StartDivides(cur.place, size, u.position - Start(cur.place, size));
  }

  lemma LaggingLands(u: Descriptor, cur: Cursor, size: nat)
    requires size > 0 && Lagging(u, cur, size)
    ensures Landing(u, cur, size) + size <= u.position
  {
    StartIsProduct(cur.place, size);
    var a := u.position / size;
    assert u.position == a * size + u.position % size;
    if a < cur.place {
      NextMultiple(a, cur.place, size);
    }
    NextMultiple(cur.place, a, size);
  }

  lemma BoundaryOfBlock(place: nat, p: nat, size: nat)
    requires size > 0 && Start(place, size) < p <= Start(place, size) + size
    ensures p % size == 0 <==> p == Start(place, size) + size
  {
    if p < Start(place, size) + size {
      StartDivides(place, size, p - Start(place, size));
    } else {
      StartDivides(place + 1, size, 0);
    }
  }

  /** One transfer: a cursor on track stays on track unless the transfer ends at a boundary, and one that
      lags keeps lagging. */
  ghost predicate TrackKept(
      u: Descriptor, cur: Cursor, length: nat, u': Descriptor, cur': Cursor, length': nat, ends: bool, size: nat) {
    && (OnTrack(u, cur, length, size) ==>
          if ends then Lagging(u', cur', size) else OnTrack(u', cur', length', size))
    && (Lagging(u, cur, size) ==> Lagging(u', cur', size))
  }

  lemma WriteKeepsTrack(v: Snapshot, v': Snapshot, f: nat, data: seq<byte>, r: nat, size: nat)
    requires OpenOk(v, f, size) && OpenOk(v', f, size) && v'.cursors[f].slot == v.cursors[f].slot
    requires WriteEffect(v, v', f, data, size, r) && ChainOf(v, f) <= ChainOf(v', f)
    requires v'.fds[f].position == v.fds[f].position + r
    requires v'.fds[f].fileSize == if r == 0 then v.fds[f].fileSize else Max(v.fds[f].fileSize, v.fds[f].position + r)
    requires WriteCursor(v, v', f, v'.cursors[f].place, Landing(v.fds[f], v.cursors[f], size), r, size)
    ensures TrackKept(v.fds[f], v.cursors[f], |ChainOf(v, f)|, v'.fds[f], v'.cursors[f], |ChainOf(v', f)|,
                      EndsAtBoundary(v'.fds[f], Wrote(data, r), size), size)
  {
    WriteTrack(v.fds[f], v.cursors[f], |ChainOf(v, f)|, v'.fds[f], v'.cursors[f], |ChainOf(v', f)|, data, r, size);
  }

  lemma WriteTrack(
      u: Descriptor, cur: Cursor, length: nat, u': Descriptor, cur': Cursor, length': nat, data: seq<byte>, r: nat,
      size: nat)
    requires size > 0 && u'.position == u.position + r
    requires u'.fileSize == if r == 0 then u.fileSize else Max(u.fileSize, u.position + r)
    requires cur'.place < length' && length <= length'
    requires
      if r == 0 then cur'.place == cur.place
      else Start(cur'.place, size) < Landing(u, cur, size) + r <= Start(cur'.place, size) + size
    ensures TrackKept(u, cur, length, u', cur', length', EndsAtBoundary(u', Wrote(data, r), size), size)
  {
    LongerChain(length, length', size);
    BlockOfChain(cur'.place, length', size);
    if OnTrack(u, cur, length, size) && r > 0 {
      OnTrackLands(u, cur, length, size);
      BoundaryOfBlock(cur'.place, u'.position, size);
    }
    if Lagging(u, cur, size) {
      LaggingLands(u, cur, size);
    }
  }

  lemma LongerChain(a: nat, b: nat, size: nat)
    requires a <= b
    ensures Start(a, size) <= Start(b, size)
  {
    if a < b {
      StartMonotone(a, b, size);
    }
  }

  lemma BlockOfChain(place: nat, length: nat, size: nat)
    requires place < length
    ensures Start(place, size) + size <= Start(length, size)
  {
    StartMonotone(place, length, size);
  }

  lemma ReadKeepsTrack(v: Snapshot, v': Snapshot, f: nat, count: nat, out: seq<byte>, size: nat)
    requires OpenOk(v, f, size) && Ok(v', size) && ReadEffect(v, v', f, count, size, out)
    ensures IsOpen(v', f) && v'.cursors[f].slot == v.cursors[f].slot && ChainOf(v', f) == ChainOf(v, f)
    ensures TrackKept(v.fds[f], v.cursors[f], |ChainOf(v, f)|, v'.fds[f], v'.cursors[f], |ChainOf(v', f)|,
                      EndsAtBoundary(v'.fds[f], Got(count, out), size), size)
  {
    var u, cur, c := v.fds[f], v.cursors[f], ChainOf(v, f);
    var q, r := Landing(u, cur, size), |out|;
    var place: nat :| ReadCursor(u, cur, place, |c|, q, r, size)
      && v' == v.(fds := v.fds[f := u.(position := u.position + r, currentBlock := c[place])],
                  cursors := v.cursors[f := Cursor(cur.slot, place)]);
    ReadTrack(u, cur, |c|, v'.fds[f], v'.cursors[f], count, out, size);
  }

  lemma ReadTrack(
      u: Descriptor, cur: Cursor, length: nat, u': Descriptor, cur': Cursor, count: nat, out: seq<byte>, size: nat)
    requires size > 0 && u'.position == u.position + |out| && u'.fileSize == u.fileSize
    requires |out| <= Max(0, u.fileSize - u.position)
    requires ReadCursor(u, cur, cur'.place, length, Landing(u, cur, size), |out|, size)
    ensures TrackKept(u, cur, length, u', cur', length, EndsAtBoundary(u', Got(count, out), size), size)
  {
    if OnTrack(u, cur, length, size) && out != [] {
      OnTrackLands(u, cur, length, size);
      if u'.position == u'.fileSize {
        BoundaryOfBlock(cur'.place, u'.position, size);
      }
    }
    if Lagging(u, cur, size) {
      LaggingLands(u, cur, size);
    }
  }

  lemma TransferKeepsTrack(v: Snapshot, v': Snapshot, f: nat, t: Transfer, size: nat)
    requires Ok(v, size) && Ok(v', size) && IsOpen(v, f) && IsOpen(v', f) && Transfers(v, v', f, t, size)
    ensures OpenOk(v, f, size) && OpenOk(v', f, size)
    ensures TrackKept(v.fds[f], v.cursors[f], |ChainOf(v, f)|, v'.fds[f], v'.cursors[f], |ChainOf(v', f)|,
                      EndsAtBoundary(v'.fds[f], t, size), size)
  {
    OpenIsOk(v, f, size);
    OpenIsOk(v', f, size);
    match t
    case Wrote(data, stored) =>
      WriterAfter(v, v', f, data, size, stored);
      WriteKeepsTrack(v, v', f, data, stored, size);
    case Got(count, bytes) =>
      ReadKeepsTrack(v, v', f, count, bytes, size);
    case Elsewhere =>
      LongerChain(|ChainOf(v, f)|, |ChainOf(v', f)|, size);
  }

  lemma OpenIsOk(v: Snapshot, f: nat, size: nat)
    requires Ok(v, size) && IsOpen(v, f)
    ensures OpenOk(v, f, size)
  {
    assert DescriptorOk(v.fds[f], v.dir, v.layout, v.cursors[f]);
    assert LinkOk(v.fat, v.layout, v.cursors[f].slot, v.cursors[f].place);
  }

  /** No transfer among the first n has ended at a boundary. */
  ghost predicate NeverAtBoundary(vs: seq<Snapshot>, f: nat, ts: seq<Transfer>, n: nat, size: nat)
    requires TransferRun(vs, f, ts, size) && n <= |ts| && size > 0
  {
    forall j {:trigger ts[j]} :: 0 <= j < n ==> !EndsAtBoundary(vs[j + 1].fds[f], ts[j], size)
  }

  ghost predicate Track(v: Snapshot, f: nat, clean: bool, size: nat) {
    && OpenOk(v, f, size)
    && if clean then OnTrack(v.fds[f], v.cursors[f], |ChainOf(v, f)|, size) else Lagging(v.fds[f], v.cursors[f], size)
  }

  lemma TrackGoesOn(v: Snapshot, v': Snapshot, f: nat, t: Transfer, clean: bool, size: nat)
    requires Track(v, f, clean, size) && Ok(v', size) && IsOpen(v', f) && Transfers(v, v', f, t, size)
    ensures Track(v', f, clean && !EndsAtBoundary(v'.fds[f], t, size), size)
  {
    TransferKeepsTrack(v, v', f, t, size);
  }

  lemma {:induction false} TrackOverRun(vs: seq<Snapshot>, f: nat, ts: seq<Transfer>, n: nat, size: nat)
    requires TransferRun(vs, f, ts, size) && JustOpened(vs[0], f, size) && size > 0 && n <= |ts|
    ensures Track(vs[n], f, NeverAtBoundary(vs, f, ts, n, size), size)
  {
    if n == 0 {
      OpenIsOk(vs[0], f, size);
    } else {
      TrackOverRun(vs, f, ts, n - 1, size);
      NextTransfer(vs, f, ts, n - 1, size);
      TrackGoesOn(vs[n - 1], vs[n], f, ts[n - 1], NeverAtBoundary(vs, f, ts, n - 1, size), size);
    }
  }

  lemma NextTransfer(vs: seq<Snapshot>, f: nat, ts: seq<Transfer>, n: nat, size: nat)
    requires TransferRun(vs, f, ts, size) && size > 0 && n < |ts|
    ensures Ok(vs[n], size) && IsOpen(vs[n], f) && Ok(vs[n + 1], size) && IsOpen(vs[n + 1], f)
    ensures Transfers(vs[n], vs[n + 1], f, ts[n], size)
    ensures NeverAtBoundary(vs, f, ts, n + 1, size) <==>
      NeverAtBoundary(vs, f, ts, n, size) && !EndsAtBoundary(vs[n + 1].fds[f], ts[n], size)
  {
    assert Transfers(vs[n], vs[n + 1], f, ts[n], size);
  }

  /** Over every run of calls from an open on, the next transfer starts at the descriptor's position exactly
      if no transfer before it ended at a boundary; otherwise it starts at least one whole block too early. */
  lemma TransfersLandIff(vs: seq<Snapshot>, f: nat, ts: seq<Transfer>, size: nat)
    requires TransferRun(vs, f, ts, size) && JustOpened(vs[0], f, size) && size > 0
    ensures
      var u, cur := vs[|ts|].fds[f], vs[|ts|].cursors[f];
      if NeverAtBoundary(vs, f, ts, |ts|, size) then Landing(u, cur, size) == u.position
      else Landing(u, cur, size) + size <= u.position
  {
    TrackOverRun(vs, f, ts, |ts|, size);
    var u, cur := vs[|ts|].fds[f], vs[|ts|].cursors[f];
    if NeverAtBoundary(vs, f, ts, |ts|, size) {
      OnTrackLands(u, cur, |ChainOf(vs[|ts|], f)|, size);
    } else {
      LaggingLands(u, cur, size);
    }
  }

  /** After such a run a write keeps all sizes within their chains exactly if it stores nothing or no
      transfer before it ended at a boundary. */
  lemma WriteAfterRunKeepsSizesIff(vs: seq<Snapshot>, f: nat, ts: seq<Transfer>, v': Snapshot, data: seq<byte>,
      r: nat, size: nat)
    requires TransferRun(vs, f, ts, size) && JustOpened(vs[0], f, size) && size > 0
    requires Fits(vs[|ts|], size) && Ok(v', size) && WriteEffect(vs[|ts|], v', f, data, size, r)
    ensures SizesFit(v', size) <==> r == 0 || NeverAtBoundary(vs, f, ts, |ts|, size)
  {
    var v := vs[|ts|];
    TransfersLandIff(vs, f, ts, size);
    TransferStartsAtPositionIff(v, f, size);
    WriteKeepsSizesIff(v, v', f, data, size, r);
  }

  // ----- runs of calls -----

  datatype Call =
    | CreateCall(path: CString, kind: byte)
    | OpenCall(path: CString, mode: byte)
    | ReadCall(fd: int, count: nat)
    | WriteCall(fd: int, data: seq<byte>)
    | CloseCall(fd: int)

  /** What one call does, by the effects proved of the methods. */
  ghost predicate Step(v: Snapshot, v': Snapshot, call: Call, size: nat)
    requires Ok(v, size)
  {
    match call
    case CreateCall(path, kind) => exists r :: CreateEffect(v, v', path, kind, size, r)
    case OpenCall(path, mode) => exists mid, r :: Ok(mid, size) && OpenEffect(v, mid, v', path, mode, size, r)
    case ReadCall(fd, count) =>
      if IsOpen(v, fd) && CanRead(v.fds[fd].mode) then exists out :: ReadEffect(v, v', fd, count, size, out)
      else v' == v
    case WriteCall(fd, data) =>
      if IsOpen(v, fd) && CanWrite(v.fds[fd].mode) then exists r: nat :: WriteEffect(v, v', fd, data, size, r)
      else v' == v
    case CloseCall(fd) => if IsOpen(v, fd) then v' == Closed(v, fd) else v' == v
  }

  ghost predicate Run(vs: seq<Snapshot>, calls: seq<Call>, size: nat) {
    && |vs| == |calls| + 1
    && (forall j {:trigger vs[j]} :: 0 <= j < |vs| ==> Ok(vs[j], size))
    && (forall j {:trigger calls[j]} :: 0 <= j < |calls| ==> Step(vs[j], vs[j + 1], calls[j], size))
  }

  /** What the call is to descriptor f: a transfer if it is a write or a read on f that f's mode admits. */
  ghost predicate SeenAs(v: Snapshot, call: Call, f: nat, t: Transfer) {
    IsOpen(v, f) &&
    match call
    case WriteCall(fd, data) =>
      if fd == f && CanWrite(v.fds[f].mode) then t.Wrote? && t.data == data else t == Elsewhere
    case ReadCall(fd, count) =>
      if fd == f && CanRead(v.fds[f].mode) then t.Got? && t.count == count else t == Elsewhere
    case _ => t == Elsewhere
  }

  /** The descriptor is as open as before. */
  ghost predicate Untouched(v: Snapshot, v': Snapshot, f: nat) {
    IsOpen(v', f) && LeavesAlone(v, v', f)
  }

  lemma CreateLeavesAlone(v: Snapshot, v': Snapshot, path: CString, kind: byte, r: int, f: nat, size: nat)
    requires OpenOk(v, f, size) && CreateEffect(v, v', path, kind, size, r)
    ensures Untouched(v, v', f)
  {
    if r == FS_SUCCESS {
      assert v'.layout.chains[v.cursors[f].slot] == v.layout.chains[v.cursors[f].slot];
    }
  }

  lemma OpenLeavesAlone(v: Snapshot, mid: Snapshot, v': Snapshot, path: CString, mode: byte, r: int, f: nat, size: nat)
    requires OpenOk(v, f, size) && Ok(mid, size) && OpenEffect(v, mid, v', path, mode, size, r)
    ensures Untouched(v, v', f)
  {
    if mid != v {
      CreateLeavesAlone(v, mid, path, TYPE_FILE, FS_SUCCESS, f, size);
    }
    assert Untouched(v, mid, f) && FirstClosed(mid.fds) != f;
  }

  lemma WriteLeavesAlone(v: Snapshot, v': Snapshot, g: nat, data: seq<byte>, r: nat, f: nat, size: nat)
    requires OpenOk(v, f, size) && IsOpen(v, g) && g != f && WriteEffect(v, v', g, data, size, r)
    ensures Untouched(v, v', f)
  {
  }

  lemma ReadLeavesAlone(v: Snapshot, v': Snapshot, g: nat, count: nat, out: seq<byte>, f: nat, size: nat)
    requires OpenOk(v, f, size) && IsOpen(v, g) && g != f && ReadEffect(v, v', g, count, size, out)
    ensures Untouched(v, v', f)
  {
  }

  /** The transfers ts are what the calls are to descriptor f, one for one. */
  ghost predicate AllSeen(vs: seq<Snapshot>, calls: seq<Call>, f: nat, ts: seq<Transfer>) {
    && |vs| == |ts| + 1 == |calls| + 1
    && forall j {:trigger ts[j]} :: 0 <= j < |ts| ==> SeenAs(vs[j], calls[j], f, ts[j])
  }

  /** Every call but the descriptor's own close is a transfer on it or leaves it alone. */
  lemma StepTransfers(v: Snapshot, v': Snapshot, call: Call, f: nat, size: nat) returns (t: Transfer)
    requires OpenOk(v, f, size) && Ok(v', size) && Step(v, v', call, size) && call != CloseCall(f)
    ensures IsOpen(v', f) && Transfers(v, v', f, t, size) && SeenAs(v, call, f, t)
  {
    t := Elsewhere;
    match call
    case CreateCall(path, kind) =>
      var r :| CreateEffect(v, v', path, kind, size, r);
      CreateLeavesAlone(v, v', path, kind, r, f, size);
    case OpenCall(path, mode) =>
      var mid, r :| Ok(mid, size) && OpenEffect(v, mid, v', path, mode, size, r);
      OpenLeavesAlone(v, mid, v', path, mode, r, f, size);
    case ReadCall(fd, count) =>
      if IsOpen(v, fd) && CanRead(v.fds[fd].mode) {
        t := ReadTransfers(v, v', fd, count, f, size);
      }
    case WriteCall(fd, data) =>
      if IsOpen(v, fd) && CanWrite(v.fds[fd].mode) {
        t := WriteTransfers(v, v', fd, data, f, size);
      }
    case CloseCall(fd) =>
      assert Untouched(v, v', f);
  }

  lemma ReadTransfers(v: Snapshot, v': Snapshot, g: nat, count: nat, f: nat, size: nat) returns (t: Transfer)
    requires OpenOk(v, f, size) && IsOpen(v, g) && exists out :: ReadEffect(v, v', g, count, size, out)
    ensures IsOpen(v', f) && Transfers(v, v', f, t, size)
    ensures if g == f then t.Got? && t.count == count else t == Elsewhere
  {
    var out :| ReadEffect(v, v', g, count, size, out);
    t := Elsewhere;
    if g == f {
      t := Got(count, out);
    } else {
      ReadLeavesAlone(v, v', g, count, out, f, size);
    }
  }

  lemma WriteTransfers(v: Snapshot, v': Snapshot, g: nat, data: seq<byte>, f: nat, size: nat) returns (t: Transfer)
    requires OpenOk(v, f, size) && IsOpen(v, g) && exists r: nat :: WriteEffect(v, v', g, data, size, r)
    ensures IsOpen(v', f) && Transfers(v, v', f, t, size)
    ensures if g == f then t.Wrote? && t.data == data else t == Elsewhere
  {
    var r: nat :| WriteEffect(v, v', g, data, size, r);
    t := Elsewhere;
    if g == f {
      t := Wrote(data, r);
    } else {
      WriteLeavesAlone(v, v', g, data, r, f, size);
    }
  }

  lemma OneMoreTransfer(us: seq<Snapshot>, vs: seq<Snapshot>, f: nat, ts: seq<Transfer>, t: Transfer, size: nat)
    requires TransferRun(us, f, ts, size) && |vs| == |us| + 1 && vs == us + [vs[|us|]]
    requires Ok(vs[|us|], size) && IsOpen(vs[|us|], f)
    requires Ok(us[|ts|], size) && IsOpen(us[|ts|], f) && Transfers(us[|ts|], vs[|us|], f, t, size)
    ensures TransferRun(vs, f, ts + [t], size)
  {
    forall j | 0 <= j < |ts| + 1 ensures Transfers(vs[j], vs[j + 1], f, (ts + [t])[j], size) {
      if j < |ts| {
        assert Transfers(us[j], us[j + 1], f, ts[j], size);
      }
    }
  }

  lemma RunBefore(vs: seq<Snapshot>, calls: seq<Call>, size: nat)
    requires Run(vs, calls, size) && calls != []
    ensures Run(vs[..|calls|], calls[..|calls| - 1], size)
  {
    var us, cs := vs[..|calls|], calls[..|calls| - 1];
    forall j | 0 <= j < |cs| ensures Step(us[j], us[j + 1], cs[j], size) {
      assert Step(vs[j], vs[j + 1], calls[j], size);
    }
  }

  lemma OneMoreSeen(vs: seq<Snapshot>, calls: seq<Call>, f: nat, ts: seq<Transfer>, t: Transfer)
    requires |vs| == |calls| + 1 && calls != [] && AllSeen(vs[..|calls|], calls[..|calls| - 1], f, ts)
    requires SeenAs(vs[|calls| - 1], calls[|calls| - 1], f, t)
    ensures AllSeen(vs, calls, f, ts + [t])
  {
    forall j | 0 <= j < |ts| ensures SeenAs(vs[j], calls[j], f, ts[j]) {
      assert SeenAs(vs[..|calls|][j], calls[..|calls| - 1][j], f, ts[j]);
    }
  }

  /** So a run of calls without that close is a run of transfers. */
  lemma {:induction false} RunTransfers(vs: seq<Snapshot>, calls: seq<Call>, f: nat, size: nat)
    returns (ts: seq<Transfer>)
    requires Run(vs, calls, size) && IsOpen(vs[0], f) && CloseCall(f) !in calls
    ensures TransferRun(vs, f, ts, size)
    ensures AllSeen(vs, calls, f, ts)
    decreases |calls|
  {
    if calls == [] {
      ts := [];
    } else {
      var n := |calls| - 1;
      RunBefore(vs, calls, size);
      ts := RunTransfers(vs[..n + 1], calls[..n], f, size);
      assert vs[..n + 1][n] == vs[n] && IsOpen(vs[n], f);
      var t := LastTransfers(vs, calls, f, size);
      OneMoreTransfer(vs[..n + 1], vs, f, ts, t, size);
      OneMoreSeen(vs, calls, f, ts, t);
      ts := ts + [t];
    }
  }

  lemma LastTransfers(vs: seq<Snapshot>, calls: seq<Call>, f: nat, size: nat) returns (t: Transfer)
    requires Run(vs, calls, size) && calls != [] && IsOpen(vs[|calls| - 1], f) && CloseCall(f) !in calls
    ensures
      var v, v' := vs[|calls| - 1], vs[|calls|];
      && Ok(v, size) && Ok(v', size) && IsOpen(v', f) && Transfers(v, v', f, t, size)
      && SeenAs(v, calls[|calls| - 1], f, t)
  {
    var n := |calls| - 1;
    assert Step(vs[n], vs[n + 1], calls[n], size);
    OpenIsOk(vs[n], f, size);
    t := StepTransfers(vs[n], vs[n + 1], calls[n], f, size);
  }

  /** Over every run of calls from an open on that does not close the descriptor, the next transfer on it starts at
      its position exactly if no transfer before ended at a boundary; otherwise at least one whole block too early. */
  lemma CallsLandIff(vs: seq<Snapshot>, calls: seq<Call>, f: nat, size: nat) returns (ts: seq<Transfer>)
    requires Run(vs, calls, size) && IsOpen(vs[0], f) && JustOpened(vs[0], f, size) && size > 0
    requires CloseCall(f) !in calls
    ensures TransferRun(vs, f, ts, size)
    ensures AllSeen(vs, calls, f, ts)
    ensures
      var u, cur := vs[|calls|].fds[f], vs[|calls|].cursors[f];
      if NeverAtBoundary(vs, f, ts, |ts|, size) then Landing(u, cur, size) == u.position
      else Landing(u, cur, size) + size <= u.position
  {
    ts := RunTransfers(vs, calls, f, size);
    TransfersLandIff(vs, f, ts, size);
  }

  // ----- files survive what is done to others -----

  /** The call is about the file in slot i: a write to it, a close by a writer, or an open that truncates it. */
  predicate Touches(v: Snapshot, call: Call, i: nat)
    requires i < |v.dir|
  {
    match call
    case CreateCall(_, _) => false
    case OpenCall(path, mode) => Truncates(mode) && path != [] && FindEntry(v.dir, path[1..]) == i
    case ReadCall(_, _) => false
    case WriteCall(fd, _) => 0 <= fd < |v.fds| && v.fds[fd].firstBlock == v.dir[i].firstBlock
    case CloseCall(fd) => 0 <= fd < |v.fds| && v.fds[fd].firstBlock == v.dir[i].firstBlock && CanWrite(v.fds[fd].mode)
  }

  /** Entry, chain and bytes of slot i are the same. */
  ghost predicate FileKept(v: Snapshot, v': Snapshot, i: nat)
    requires i < |v.dir| == |v.layout.chains|
  {
    && |v'.dir| == |v.dir| && |v'.layout.chains| == |v.layout.chains|
    && v'.dir[i] == v.dir[i] && v'.layout.chains[i] == v.layout.chains[i]
    && EntryBytes(v', i) == EntryBytes(v, i)
  }

  lemma CreateKeepsFile(v: Snapshot, v': Snapshot, path: CString, kind: byte, r: int, i: nat, size: nat)
    requires Ok(v, size) && i < |v.dir| && v.dir[i].name != [] && CreateEffect(v, v', path, kind, size, r)
    ensures FileKept(v, v', i)
  {
    if r == FS_SUCCESS {
      var b, c := FirstFree(v.fat, DATA_START), v.layout.chains[i];
      ChainInRange(v.fat, v.dir, v.sb.freeBlocks, v.layout, i);
      forall k | 0 <= k < |c| ensures v.blocks[c[k]] == v'.blocks[c[k]] {
        assert LinkOk(v.fat, v.layout, i, k) && OwnerOk(v.fat, v.layout, c[k]);
      }
      FlatSame(v.blocks, v'.blocks, c);
    }
  }

  lemma OpenKeepsFile(v: Snapshot, mid: Snapshot, v': Snapshot, path: CString, mode: byte, r: int, i: nat, size: nat)
    requires Ok(v, size) && Ok(mid, size) && i < |v.dir| && v.dir[i].name != []
    requires OpenEffect(v, mid, v', path, mode, size, r) && !Touches(v, OpenCall(path, mode), i)
    ensures FileKept(v, v', i)
  {
    if v.initialized && InRoot(path) && FindEntry(v.dir, path[1..]) < 0 && Creates(mode) &&
       CreateCode(v, path) == FS_SUCCESS
    {
      CreateKeepsFile(v, mid, path, TYPE_FILE, FS_SUCCESS, i, size);
      assert v.dir[i].name != path[1..];
    }
  }

  lemma StepKeepsFile(v: Snapshot, v': Snapshot, call: Call, i: nat, size: nat)
    requires Ok(v, size) && Ok(v', size) && Step(v, v', call, size)
    requires i < |v.dir| && v.dir[i].name != [] && !Touches(v, call, i)
    ensures FileKept(v, v', i)
  {
    match call
    case CreateCall(path, kind) =>
      var r :| CreateEffect(v, v', path, kind, size, r);
      CreateKeepsFile(v, v', path, kind, r, i, size);
    case OpenCall(path, mode) =>
      var mid, r :| Ok(mid, size) && OpenEffect(v, mid, v', path, mode, size, r);
      OpenKeepsFile(v, mid, v', path, mode, r, i, size);
    case ReadCall(fd, count) =>
    case WriteCall(fd, data) =>
      if IsOpen(v, fd) && CanWrite(v.fds[fd].mode) {
        var r: nat :| WriteEffect(v, v', fd, data, size, r);
        OwnSlot(v, fd, size);
        WriteLeavesOtherFilesAlone(v, v', fd, data, size, r);
      }
    case CloseCall(fd) =>
      if IsOpen(v, fd) {
        OwnSlot(v, fd, size);
      }
  }

  predicate IsElsewhere(v: Snapshot, call: Call, i: nat) {
    i < |v.dir| && !Touches(v, call, i)
  }

  predicate NoneTouches(vs: seq<Snapshot>, calls: seq<Call>, i: nat, n: nat)
    requires n <= |calls| && |calls| < |vs|
  {
    forall j {:trigger calls[j]} :: 0 <= j < n ==> IsElsewhere(vs[j], calls[j], i)
  }

  /** Over every run of calls none of which is about the file in slot i, its entry, its chain and its bytes
      stay as they are, whatever is created, written, truncated or closed beside it. */
  lemma {:induction false} UntouchedFilesStay(vs: seq<Snapshot>, calls: seq<Call>, i: nat, n: nat, size: nat)
    requires Run(vs, calls, size) && n <= |calls| && i < |vs[0].dir| && vs[0].dir[i].name != []
    requires NoneTouches(vs, calls, i, n)
    ensures FileKept(vs[0], vs[n], i)
  {
    if n > 0 {
      assert IsElsewhere(vs[n - 1], calls[n - 1], i);
      UntouchedFilesStay(vs, calls, i, n - 1, size);
      assert Step(vs[n - 1], vs[n - 1 + 1], calls[n - 1], size);
      StepKeepsFile(vs[n - 1], vs[n], calls[n - 1], i, size);
    }
  }
}
