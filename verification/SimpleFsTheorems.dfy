/** What SimpleFS promises about files, proved from the effects of its calls. */
module SimpleFsTheorems {
  import opened Bytes
  import opened SimpleFsVolume
  import opened SimpleFsContent
  import opened SimpleFsSpec
  import opened SimpleFsWrite
  import opened SimpleFsSteps

  /** The file as seen through an open descriptor. */
  ghost function FileBytes(v: Snapshot, f: nat, size: nat): seq<byte>
    requires OpenOk(v, f, size)
  {
    var F := Flat(v.blocks, ChainOf(v, f));
    if v.fds[f].fileSize <= |F| then F[..v.fds[f].fileSize] else F
  }

  /** The file as recorded in its directory entry. */
  ghost function EntryBytes(v: Snapshot, i: nat): seq<byte>
    requires i < |v.dir| == |v.layout.chains|
  {
    var F := Flat(v.blocks, v.layout.chains[i]);
    if v.dir[i].size <= |F| then F[..v.dir[i].size] else F
  }

  /** s with d written at p, p being at most |s|: s may get longer. */
  ghost function Overwrite(s: seq<byte>, p: nat, d: seq<byte>): seq<byte>
    requires p <= |s|
  {
    s[..p] + d + if p + |d| <= |s| then s[p + |d|..] else []
  }

  /** The last transfer used up the cursor's block without moving on. */
  ghost predicate AtBlockEnd(u: Descriptor, cur: Cursor, size: nat) {
    u.position == Start(cur.place, size) + size
  }

  ghost predicate Fits(v: Snapshot, size: nat) {
    Ok(v, size) && SizesFit(v, size)
  }

  lemma StartDivides(k: nat, size: nat, o: nat)
    requires size > 0 && o < size
    ensures (Start(k, size) + o) % size == o && (Start(k, size) + o) / size == k
  {
    StartIsProduct(k, size);
    DivModUnique(Start(k, size) + o, size, k, o);
  }

  /** A transfer starts at the descriptor's position, unless the cursor was left at a block's end: then
      it starts one whole block too early. */
  lemma TransferStartsAtPositionIff(v: Snapshot, f: nat, size: nat)
    requires Fits(v, size) && IsOpen(v, f)
    ensures OpenOk(v, f, size)
    ensures
      var u, cur := v.fds[f], v.cursors[f];
      && (Landing(u, cur, size) == u.position <==> !AtBlockEnd(u, cur, size))
      && (AtBlockEnd(u, cur, size) ==> Landing(u, cur, size) + size == u.position)
      && (u.position == 0 || u.position % size != 0 ==> !AtBlockEnd(u, cur, size))
  {
    var u, cur := v.fds[f], v.cursors[f];
    assert DescriptorOk(u, v.dir, v.layout, cur) && CursorFits(u, v.layout, cur, size);
    assert LinkOk(v.fat, v.layout, cur.slot, cur.place);
    var o := u.position - Start(cur.place, size);
    if o < size {
      StartDivides(cur.place, size, o);
    } else {
      StartDivides(cur.place + 1, size, 0);
    }
  }

  // ----- write -----

  /** The descriptor after a write. */
  lemma WriterAfter(v: Snapshot, v': Snapshot, f: nat, data: seq<byte>, size: nat, r: nat)
    requires Ok(v, size) && Ok(v', size) && IsOpen(v, f) && WriteEffect(v, v', f, data, size, r)
    ensures OpenOk(v, f, size) && OpenOk(v', f, size) && r <= |data|
    ensures v'.cursors[f].slot == v.cursors[f].slot && ChainOf(v, f) <= ChainOf(v', f)
    ensures v'.fds[f].position == v.fds[f].position + r
    ensures v'.fds[f].fileSize == if r == 0 then v.fds[f].fileSize else Max(v.fds[f].fileSize, v.fds[f].position + r)
    ensures WriteCursor(v, v', f, v'.cursors[f].place, Landing(v.fds[f], v.cursors[f], size), r, size)
  {
    assert DescriptorOk(v.fds[f], v.dir, v.layout, v.cursors[f]);
    assert DescriptorOk(v'.fds[f], v'.dir, v'.layout, v'.cursors[f]);
    assert LinkOk(v.fat, v.layout, v.cursors[f].slot, v.cursors[f].place);
    assert LinkOk(v'.fat, v'.layout, v.cursors[f].slot, v'.cursors[f].place);
  }

  /** A write whose cursor was not left at a block's end stores exactly the bytes it reports at the
      descriptor's position. */
  lemma WriteSplicesTheFile(v: Snapshot, v': Snapshot, f: nat, data: seq<byte>, size: nat, r: nat)
    requires Fits(v, size) && Ok(v', size) && IsOpen(v, f) && WriteEffect(v, v', f, data, size, r)
    requires !AtBlockEnd(v.fds[f], v.cursors[f], size)
    ensures OpenOk(v, f, size) && OpenOk(v', f, size) && r <= |data|
    ensures v.fds[f].position <= |FileBytes(v, f, size)|
    ensures FileBytes(v', f, size) == Overwrite(FileBytes(v, f, size), v.fds[f].position, data[..r])
  {
    TransferStartsAtPositionIff(v, f, size);
    WriterAfter(v, v', f, data, size, r);
    WriteOnChain(v, v', f, data, size, r);
    FileBytesLength(v, f, size);
    var u := v.fds[f];
    SpliceThenCut(Flat(v.blocks, ChainOf(v, f)), Flat(v.blocks, ChainOf(v', f)), u.fileSize, u.position, data[..r],
                  v'.fds[f].fileSize);
  }

  /** What a write does to the bytes of the whole chain. */
  lemma WriteOnChain(v: Snapshot, v': Snapshot, f: nat, data: seq<byte>, size: nat, r: nat)
    requires OpenOk(v, f, size) && OpenOk(v', f, size) && v'.cursors[f].slot == v.cursors[f].slot
    requires WriteEffect(v, v', f, data, size, r)
    ensures |Flat(v.blocks, ChainOf(v, f))| == Start(|ChainOf(v, f)|, size)
    ensures |Flat(v'.blocks, ChainOf(v', f))| == Start(|ChainOf(v', f)|, size)
    ensures Flat(v.blocks, ChainOf(v, f)) <= Flat(v.blocks, ChainOf(v', f))
    ensures
      var q, F := Landing(v.fds[f], v.cursors[f], size), Flat(v.blocks, ChainOf(v', f));
      r <= |data| && q + r <= |F| && Flat(v'.blocks, ChainOf(v', f)) == Splice(F, q, data[..r])
  {
    LastInRange(v, f, size);
    LastInRange(v', f, size);
    FlatLength(v.blocks, ChainOf(v, f), size);
    FlatLength(v'.blocks, ChainOf(v', f), size);
    FlatPrefix(v.blocks, ChainOf(v, f), ChainOf(v', f));
  }

  lemma {:induction false} FlatPrefix(blocks: seq<seq<byte>>, c: seq<nat>, c': seq<nat>)
    requires c <= c'
    ensures Flat(blocks, c) <= Flat(blocks, c')
    decreases |c'|
  {
    if |c| < |c'| {
      FlatPrefix(blocks, c, c'[..|c'| - 1]);
    } else {
      assert c == c';
    }
  }

  lemma SpliceThenCut(F: seq<byte>, F': seq<byte>, n: nat, p: nat, d: seq<byte>, n': nat)
    requires F <= F' && p <= n <= |F| && p + |d| <= |F'|
    requires n' == (if |d| == 0 then n else Max(n, p + |d|))
    ensures Splice(F', p, d)[..n'] == Overwrite(F[..n], p, d)
  {
    assert F[..n] == F'[..n];
    if p + |d| <= n {
      assert F'[p + |d|..][..n - p - |d|] == F'[..n][p + |d|..];
    }
  }

  /** A write touches no other file. */
  lemma WriteLeavesOtherFilesAlone(v: Snapshot, v': Snapshot, f: nat, data: seq<byte>, size: nat, r: nat)
    requires Ok(v, size) && Ok(v', size) && IsOpen(v, f) && WriteEffect(v, v', f, data, size, r)
    ensures forall i :: 0 <= i < |v.dir| && i != v.cursors[f].slot ==> EntryBytes(v', i) == EntryBytes(v, i)
  {
    var slot := v.cursors[f].slot;
    var c' := v'.layout.chains[slot];
    forall i | 0 <= i < |v.dir| && i != slot ensures EntryBytes(v', i) == EntryBytes(v, i) {
      var d := v.layout.chains[i];
      ChainInRange(v.fat, v.dir, v.sb.freeBlocks, v.layout, i);
      forall k | 0 <= k < |d| ensures v.blocks[d[k]] == v'.blocks[d[k]] {
        assert LinkOk(v'.fat, v'.layout, i, k);
        forall m | 0 <= m < |c'| ensures c'[m] != d[k] {
          assert LinkOk(v'.fat, v'.layout, slot, m);
        }
      }
      FlatSame(v.blocks, v'.blocks, d);
    }
  }

  lemma WriteKeepsEntrySizes(v: Snapshot, v': Snapshot, f: nat, data: seq<byte>, size: nat, r: nat)
    requires Fits(v, size) && Ok(v', size) && IsOpen(v, f) && WriteEffect(v, v', f, data, size, r)
    ensures forall i :: 0 <= i < |v'.dir| && v'.dir[i].name != [] ==>
      v'.dir[i].size <= Start(|v'.layout.chains[i]|, size)
    ensures forall g :: 0 <= g < |v'.fds| && v'.fds[g].inUse && g != f ==>
      CursorFits(v'.fds[g], v'.layout, v'.cursors[g], size)
  {
    var slot := v.cursors[f].slot;
    assert DescriptorOk(v.fds[f], v.dir, v.layout, v.cursors[f]);
    var c, c' := v.layout.chains[slot], v'.layout.chains[slot];
    if |c| < |c'| {
      StartMonotone(|c|, |c'|, size);
    }
    forall g | 0 <= g < |v'.fds| && v'.fds[g].inUse && g != f
      ensures CursorFits(v'.fds[g], v'.layout, v'.cursors[g], size)
    {
      assert DescriptorOk(v.fds[g], v.dir, v.layout, v.cursors[g])
        && CursorFits(v.fds[g], v.layout, v.cursors[g], size);
    }
  }

  lemma WriterFitsIff(v: Snapshot, v': Snapshot, f: nat, data: seq<byte>, size: nat, r: nat)
    requires Fits(v, size) && Ok(v', size) && IsOpen(v, f) && WriteEffect(v, v', f, data, size, r)
    ensures |v'.cursors| == |v.cursors| && v'.cursors[f].slot < |v'.layout.chains|
    ensures CursorFits(v'.fds[f], v'.layout, v'.cursors[f], size) <==>
      r == 0 || !AtBlockEnd(v.fds[f], v.cursors[f], size)
  {
    TransferStartsAtPositionIff(v, f, size);
    var u, cur, c, c' := v.fds[f], v.cursors[f], ChainOf(v, f), v'.layout.chains[v.cursors[f].slot];
    assert CursorFits(u, v.layout, cur, size);
    var place: nat :| WriteCursor(v, v', f, place, Landing(u, cur, size), r, size);
    WriterArithmetic(u, cur, place, |c|, |c'|, r, size);
  }

  lemma WriterArithmetic(u: Descriptor, cur: Cursor, place: nat, length: nat, length': nat, r: nat, size: nat)
    requires size > 0 && cur.place < length && place < length' && length' == Max(length, place + 1)
    requires u.position <= u.fileSize <= Start(length, size)
    requires Start(cur.place, size) <= u.position <= Start(cur.place, size) + size
    requires var q := Landing(u, cur, size);
      && (if AtBlockEnd(u, cur, size) then q + size == u.position else q == u.position)
      && (if r == 0 then place == cur.place else Start(place, size) < q + r <= Start(place, size) + size)
    ensures
      (&& u.position + r <= (if r == 0 then u.fileSize else Max(u.fileSize, u.position + r)) <= Start(length', size)
       && Start(place, size) <= u.position + r <= Start(place, size) + size)
      <==> r == 0 || !AtBlockEnd(u, cur, size)
  {
    if length < length' {
      StartMonotone(length, length', size);
    }
    if place + 1 < length' {
      StartMonotone(place + 1, length', size);
    }
    if r > 0 {
      EndOfTransfer(u.position, Landing(u, cur, size), r, Start(place, size), size);
    }
  }

  lemma EndOfTransfer(pos: nat, q: nat, r: nat, start: nat, size: nat)
    requires q == pos || q + size == pos
    requires r > 0 && size > 0 && start < q + r <= start + size
    ensures start <= pos + r <= start + size <==> q == pos
  {
  }

  /** A write keeps every size within its chain and every cursor in its block exactly when it did not
      start from a cursor left at a block's end, or stored nothing. */
  lemma WriteKeepsSizesIff(v: Snapshot, v': Snapshot, f: nat, data: seq<byte>, size: nat, r: nat)
    requires Fits(v, size) && Ok(v', size) && IsOpen(v, f) && WriteEffect(v, v', f, data, size, r)
    ensures SizesFit(v', size) <==> r == 0 || !AtBlockEnd(v.fds[f], v.cursors[f], size)
  {
    WriteKeepsEntrySizes(v, v', f, data, size, r);
    WriterFitsIff(v, v', f, data, size, r);
    assert v'.fds[f].inUse;
  }

  /** A short write means that no free block is left; and a write that stores something at its position
      makes the chain as long as its last byte needs, taking exactly the missing blocks off the free
      count. */
  lemma WriteGrowth(v: Snapshot, v': Snapshot, f: nat, data: seq<byte>, size: nat, r: nat)
    requires Fits(v, size) && Ok(v', size) && IsOpen(v, f) && WriteEffect(v, v', f, data, size, r)
    requires !AtBlockEnd(v.fds[f], v.cursors[f], size)
    ensures OpenOk(v, f, size) && OpenOk(v', f, size)
    ensures r < |data| ==> v'.sb.freeBlocks == 0
    ensures r > 0 ==> |ChainOf(v', f)| == Max(|ChainOf(v, f)|, (v.fds[f].position + r + size - 1) / size)
    ensures v.sb.freeBlocks - v'.sb.freeBlocks == |ChainOf(v', f)| - |ChainOf(v, f)|
  {
    TransferStartsAtPositionIff(v, f, size);
    WriterAfter(v, v', f, data, size, r);
    var u, cur, c := v.fds[f], v.cursors[f], ChainOf(v, f);
    GrowthArithmetic(
      u.position, cur.place, v'.cursors[f].place, |c|, |ChainOf(v', f)|, v.sb.freeBlocks, r, |data|, size);
  }

  lemma GrowthArithmetic(pos: nat, place0: nat, place: nat, length: nat, length': nat, free: nat, r: nat, total: nat,
      size: nat)
    requires size > 0 && place0 < length && place < length' && length' == Max(length, place + 1)
    requires length' - length <= free && r == Min(total, Start(length + free, size) - pos)
    requires Start(place0, size) <= pos < Start(place0, size) + size
    requires if r == 0 then place == place0 else Start(place, size) < pos + r <= Start(place, size) + size
    ensures r < total ==> length' == length + free
    ensures r > 0 ==> length' == Max(length, (pos + r + size - 1) / size)
  {
    if r > 0 {
      StartDivides(place + 1, size, pos + r - Start(place, size) - 1);
    }
    if r < total {
      StartMonotone(place0, length + free, size);
      if place + 1 < length + free {
        StartMonotone(place + 1, length + free, size);
      }
    }
  }

  /** Two writes of one whole block each, from the start of a file: the second lands on the first. The
      descriptor reports two blocks of content, the chain still has its old length. */
  lemma SecondFullBlockOverwritesTheFirst(
      v: Snapshot, v1: Snapshot, v2: Snapshot, f: nat, a: seq<byte>, b: seq<byte>, size: nat)
    requires Fits(v, size) && Ok(v1, size) && Ok(v2, size) && IsOpen(v, f) && IsOpen(v1, f)
    requires v.fds[f].position == 0 && v.cursors[f].place == 0 && |a| == |b| == size
    requires WriteEffect(v, v1, f, a, size, size) && WriteEffect(v1, v2, f, b, size, size)
    ensures OpenOk(v, f, size) && OpenOk(v2, f, size)
    ensures |ChainOf(v2, f)| == |ChainOf(v, f)|
    ensures |Flat(v2.blocks, ChainOf(v2, f))| >= size && Flat(v2.blocks, ChainOf(v2, f))[..size] == b
    ensures v2.fds[f].position == 2 * size <= v2.fds[f].fileSize
  {
    TransferStartsAtPositionIff(v, f, size);
    WriterAfter(v, v1, f, a, size, size);
    assert Landing(v.fds[f], v.cursors[f], size) == 0;
    FirstBlockEnds(v1.cursors[f].place, size);
    WriterAfter(v1, v2, f, b, size, size);
    FirstBlockEnds(v2.cursors[f].place, size);
    WriteOnChain(v1, v2, f, b, size, size);
    SplicedFront(Flat(v1.blocks, ChainOf(v2, f)), b);
  }

  lemma SplicedFront(F: seq<byte>, b: seq<byte>)
    requires |b| <= |F|
    ensures b[..|b|] == b && Splice(F, 0, b)[..|b|] == b
  {
  }

  lemma FirstBlockEnds(place: nat, size: nat)
    requires size > 0 && Start(place, size) < size
    ensures place == 0 && size % size == 0
  {
    LaterBlocksStartLater(place, size);
  }

  lemma LaterBlocksStartLater(place: nat, size: nat)
    ensures place > 0 ==> size <= Start(place, size)
  {
    if place > 0 {
      StartMonotone(0, place, size);
    }
  }

  // ----- read -----

  /** The cursor is in the block of the next byte, if there is a next byte. */
  ghost predicate ReadReady(v: Snapshot, f: nat, size: nat)
    requires Ok(v, size) && IsOpen(v, f)
  {
    v.fds[f].position < v.fds[f].fileSize ==> !AtBlockEnd(v.fds[f], v.cursors[f], size)
  }

  /** The file's next bytes, as many as count or as there are. */
  ghost function NextBytes(v: Snapshot, f: nat, count: nat, size: nat): seq<byte>
    requires OpenOk(v, f, size)
  {
    var F, p := FileBytes(v, f, size), v.fds[f].position;
    if p <= |F| then F[p..Min(p + count, |F|)] else []
  }

  /** A read hands out the file's next bytes, as many as asked for or as there are; it is never cut
      short by the end of the chain. */
  lemma ReadReturnsTheFile(v: Snapshot, v': Snapshot, f: nat, count: nat, size: nat, out: seq<byte>)
    requires Fits(v, size) && IsOpen(v, f) && ReadReady(v, f, size)
    requires ReadEffect(v, v', f, count, size, out)
    ensures OpenOk(v, f, size) && v.fds[f].position <= v.fds[f].fileSize == |FileBytes(v, f, size)|
    ensures out == NextBytes(v, f, count, size)
  {
    FileBytesLength(v, f, size);
    TransferStartsAtPositionIff(v, f, size);
    var u, cur, c := v.fds[f], v.cursors[f], ChainOf(v, f);
    assert CursorFits(u, v.layout, cur, size);
    LastInRange(v, f, size);
    FlatLength(v.blocks, c, size);
    if |out| > 0 {
      var F := Flat(v.blocks, c);
      assert F[..u.fileSize][u.position..u.position + |out|] == F[u.position..u.position + |out|];
    }
  }

  /** After a read the descriptor is ready for the next one, and nothing else has changed. */
  lemma ReadKeepsReady(v: Snapshot, v': Snapshot, f: nat, count: nat, size: nat, out: seq<byte>)
    requires Fits(v, size) && Ok(v', size) && IsOpen(v, f) && ReadReady(v, f, size)
    requires ReadEffect(v, v', f, count, size, out)
    ensures SizesFit(v', size) && IsOpen(v', f) && ReadReady(v', f, size)
    ensures v'.fds[f].position == v.fds[f].position + |out| && v'.fds[f].fileSize == v.fds[f].fileSize
    ensures OpenOk(v, f, size) && OpenOk(v', f, size) && FileBytes(v', f, size) == FileBytes(v, f, size)
  {
    TransferStartsAtPositionIff(v, f, size);
    var u, cur, c := v.fds[f], v.cursors[f], ChainOf(v, f);
    var q, r := Landing(u, cur, size), |out|;
    assert CursorFits(u, v.layout, cur, size);
    var place: nat :| ReadCursor(u, cur, place, |c|, q, r, size)
      && v' == v.(fds := v.fds[f := u.(position := u.position + r, currentBlock := c[place])],
                  cursors := v.cursors[f := Cursor(cur.slot, place)]);
    assert CursorFits(v'.fds[f], v'.layout, v'.cursors[f], size);
    forall g | 0 <= g < |v'.fds| && v'.fds[g].inUse ensures CursorFits(v'.fds[g], v'.layout, v'.cursors[g], size) {
      assert g != f ==> CursorFits(v.fds[g], v.layout, v.cursors[g], size);
    }
    TransferStartsAtPositionIff(v', f, size);
  }

  /** A run of reads on one descriptor: the states between them, what each asked for and what it got. */
  ghost predicate ReadRun(vs: seq<Snapshot>, f: nat, counts: seq<nat>, outs: seq<seq<byte>>, size: nat) {
    && |vs| == |counts| + 1 == |outs| + 1
    && (forall j :: 0 <= j < |vs| ==> Ok(vs[j], size) && IsOpen(vs[j], f))
    && (forall j :: 0 <= j < |counts| ==> ReadEffect(vs[j], vs[j + 1], f, counts[j], size, outs[j]))
  }

  function Sum(counts: seq<nat>): nat {
    if counts == [] then 0 else counts[0] + Sum(counts[1..])
  }

  function Concat(outs: seq<seq<byte>>): seq<byte> {
    if outs == [] then [] else outs[0] + Concat(outs[1..])
  }

  lemma ReadRunTail(vs: seq<Snapshot>, f: nat, counts: seq<nat>, outs: seq<seq<byte>>, size: nat)
    requires ReadRun(vs, f, counts, outs, size) && counts != []
    ensures ReadRun(vs[1..], f, counts[1..], outs[1..], size)
    ensures ReadEffect(vs[0], vs[1], f, counts[0], size, outs[0])
  {
    var vs', counts', outs' := vs[1..], counts[1..], outs[1..];
    forall j | 0 <= j < |counts'| ensures ReadEffect(vs'[j], vs'[j + 1], f, counts'[j], size, outs'[j]) {
      assert ReadEffect(vs[j + 1], vs[j + 2], f, counts[j + 1], size, outs[j + 1]);
    }
    assert ReadEffect(vs[0], vs[0 + 1], f, counts[0], size, outs[0]);
  }

  lemma JoinReads(F: seq<byte>, p: nat, n: nat, count: nat, more: nat, out: seq<byte>, rest: seq<byte>)
    requires p <= n == |F| && out == F[p..Min(p + count, n)]
    requires p + |out| <= n && rest == F[p + |out|..Min(p + |out| + more, n)]
    ensures out + rest == F[p..Min(p + (count + more), n)]
  {
    var a, b := Min(p + count, n), Min(p + (count + more), n);
    assert F[p..a] + F[a..b] == F[p..b];
  }

  /** Reading in any chunk sizes gives, put together, what one read of the total would give. */
  lemma {:induction false} ChunkedReadsAreOneRead(vs: seq<Snapshot>, f: nat, counts: seq<nat>, outs: seq<seq<byte>>,
      size: nat)
    requires ReadRun(vs, f, counts, outs, size) && SizesFit(vs[0], size) && ReadReady(vs[0], f, size)
    ensures OpenOk(vs[0], f, size) && vs[0].fds[f].position <= vs[0].fds[f].fileSize == |FileBytes(vs[0], f, size)|
    ensures Concat(outs) == NextBytes(vs[0], f, Sum(counts), size)
    decreases |counts|
  {
    FileBytesLength(vs[0], f, size);
    if counts != [] {
      ReadRunTail(vs, f, counts, outs, size);
      ReadKeepsReady(vs[0], vs[1], f, counts[0], size, outs[0]);
      ChunkedReadsAreOneRead(vs[1..], f, counts[1..], outs[1..], size);
      ReadThenRead(vs[0], vs[1], f, counts[0], size, outs[0], Sum(counts[1..]), Concat(outs[1..]));
    }
  }

  lemma ReadThenRead(v: Snapshot, v': Snapshot, f: nat, count: nat, size: nat, out: seq<byte>, more: nat,
      rest: seq<byte>)
    requires Fits(v, size) && Fits(v', size) && IsOpen(v, f) && ReadReady(v, f, size)
    requires ReadEffect(v, v', f, count, size, out) && OpenOk(v', f, size)
    requires rest == NextBytes(v', f, more, size)
    ensures OpenOk(v, f, size) && out + rest == NextBytes(v, f, count + more, size)
  {
    ReadReturnsTheFile(v, v', f, count, size, out);
    ReadKeepsReady(v, v', f, count, size, out);
    FileBytesLength(v', f, size);
    JoinReads(FileBytes(v, f, size), v.fds[f].position, v.fds[f].fileSize, count, more, out, rest);
  }

  lemma FileBytesLength(v: Snapshot, f: nat, size: nat)
    requires Fits(v, size) && IsOpen(v, f)
    ensures OpenOk(v, f, size) && |FileBytes(v, f, size)| == v.fds[f].fileSize
    ensures v.fds[f].position <= v.fds[f].fileSize
  {
    TransferStartsAtPositionIff(v, f, size);
    assert CursorFits(v.fds[f], v.layout, v.cursors[f], size);
    LastInRange(v, f, size);
    FlatLength(v.blocks, ChainOf(v, f), size);
  }

  /** A run of writes on one descriptor, each of them stored whole and none started with the cursor left at
      a block's end. */
  ghost predicate WriteRun(vs: seq<Snapshot>, f: nat, datas: seq<seq<byte>>, size: nat) {
    && |vs| == |datas| + 1 && size > 0
    && (forall j :: 0 <= j < |vs| ==> Ok(vs[j], size) && IsOpen(vs[j], f))
    && (forall j :: 0 <= j < |datas| ==> WholeWrite(vs[j], vs[j + 1], f, datas[j], size))
  }

  ghost predicate WholeWrite(v: Snapshot, v': Snapshot, f: nat, data: seq<byte>, size: nat)
    requires Ok(v, size) && IsOpen(v, f) && size > 0
  {
    && !AtBlockEnd(v.fds[f], v.cursors[f], size)
    && WriteEffect(v, v', f, data, size, |data|)
  }

  lemma WriteRunTail(vs: seq<Snapshot>, f: nat, datas: seq<seq<byte>>, size: nat)
    requires WriteRun(vs, f, datas, size) && datas != []
    ensures WriteRun(vs[1..], f, datas[1..], size) && WholeWrite(vs[0], vs[1], f, datas[0], size)
  {
    forall j | 0 <= j < |datas[1..]| ensures WholeWrite(vs[1..][j], vs[1..][j + 1], f, datas[1..][j], size) {
      assert WholeWrite(vs[j + 1], vs[j + 2], f, datas[j + 1], size);
    }
    assert WholeWrite(vs[0], vs[0 + 1], f, datas[0], size);
  }

  lemma OverwriteTwice(F: seq<byte>, p: nat, d: seq<byte>, e: seq<byte>)
    requires p <= |F|
    ensures Overwrite(Overwrite(F, p, d), p + |d|, e) == Overwrite(F, p, d + e)
  {
    var G := Overwrite(F, p, d);
    assert G[..p + |d|] == F[..p] + d;
    if p + |d| + |e| <= |G| && p + |d| <= |F| {
      assert G[p + |d| + |e|..] == F[p + |d| + |e|..];
    }
  }

  lemma OneWholeWrite(v: Snapshot, v': Snapshot, f: nat, data: seq<byte>, size: nat)
    requires Fits(v, size) && Ok(v', size) && IsOpen(v, f) && IsOpen(v', f) && WholeWrite(v, v', f, data, size)
    ensures SizesFit(v', size) && OpenOk(v, f, size) && OpenOk(v', f, size)
    ensures v.fds[f].position <= |FileBytes(v, f, size)| && v'.fds[f].position == v.fds[f].position + |data|
    ensures FileBytes(v', f, size) == Overwrite(FileBytes(v, f, size), v.fds[f].position, data)
  {
    WriteSplicesTheFile(v, v', f, data, size, |data|);
    TransferStartsAtPositionIff(v, f, size);
    WriteKeepsSizesIff(v, v', f, data, size, |data|);
    assert data[..|data|] == data;
  }

  /** Writing in such pieces leaves the file as one write of all the bytes would. */
  lemma {:induction false} ChunkedWritesAreOneWrite(vs: seq<Snapshot>, f: nat, datas: seq<seq<byte>>, size: nat)
    requires WriteRun(vs, f, datas, size) && SizesFit(vs[0], size)
    ensures OpenOk(vs[0], f, size) && OpenOk(vs[|datas|], f, size)
    ensures vs[0].fds[f].position <= |FileBytes(vs[0], f, size)|
    ensures FileBytes(vs[|datas|], f, size) ==
      Overwrite(FileBytes(vs[0], f, size), vs[0].fds[f].position, Concat(datas))
    decreases |datas|
  {
    FileBytesLength(vs[0], f, size);
    if datas != [] {
      WriteRunTail(vs, f, datas, size);
      OneWholeWrite(vs[0], vs[1], f, datas[0], size);
      ChunkedWritesAreOneWrite(vs[1..], f, datas[1..], size);
      OverwriteTwice(FileBytes(vs[0], f, size), vs[0].fds[f].position, datas[0], Concat(datas[1..]));
    }
  }

  // ----- whole lives of files -----

  /** Write, close, open again, read everything: what comes back is the old content with the stored
      bytes in their place. */
  lemma ReopenedFileReadsBackTheWrite(
      v: Snapshot, v1: Snapshot, v4: Snapshot, f: nat, g: nat, data: seq<byte>, r: nat, mode: byte, count: nat,
      out: seq<byte>, size: nat)
    requires Fits(v, size) && Ok(v1, size) && Ok(v4, size) && IsOpen(v, f)
    requires !AtBlockEnd(v.fds[f], v.cursors[f], size)
    requires WriteEffect(v, v1, f, data, size, r)
    requires CanWrite(v.fds[f].mode) && v.cursors[f].slot < |v.dir| && v.dir[v.cursors[f].slot].kind == TYPE_FILE
    requires g < |v.fds| && (g == f || !v.fds[g].inUse) && !Truncates(mode)
    requires
      var v3 := Opened(Closed(v1, f), v.cursors[f].slot, g, mode);
      Ok(v3, size) && ReadEffect(v3, v4, g, count, size, out) && count >= v3.fds[g].fileSize
    ensures OpenOk(v, f, size) && r <= |data| && v.fds[f].position <= |FileBytes(v, f, size)|
    ensures out == Overwrite(FileBytes(v, f, size), v.fds[f].position, data[..r])
  {
    WriteSplicesTheFile(v, v1, f, data, size, r);
    TransferStartsAtPositionIff(v, f, size);
    WriteKeepsSizesIff(v, v1, f, data, size, r);
    var v2 := Closed(v1, f);
    ClosedIsOk(v1, f, size);
    var v3 := Opened(v2, v.cursors[f].slot, g, mode);
    OpenedIsOk(v2, v.cursors[f].slot, g, mode, size);
    StartDivides(0, size, 0);
    ReadReturnsTheFile(v3, v4, g, count, size, out);
    FileBytesLength(v1, f, size);
    assert ChainOf(v3, g) == ChainOf(v1, f) && v3.blocks == v1.blocks;
  }

  /** A file just created is found under the name it was created with exactly when that name is not empty
      and is not cut short by the slot's room for names. */
  lemma CreatedIsFoundIff(v: Snapshot, v': Snapshot, path: CString, kind: byte, size: nat)
    requires Ok(v, size) && CreateEffect(v, v', path, kind, size, FS_SUCCESS)
    ensures FindEntry(v'.dir, path[1..]) >= 0 <==> 1 <= |path[1..]| < MAX_FILENAME
  {
    var name := path[1..];
    var i := FirstEmpty(v.dir);
    if 1 <= |name| < MAX_FILENAME {
      assert v'.dir[i].name == name;
    }
  }

  ghost function LeakedBlocks(L: Layout): set<nat> {
    set b | 0 <= b < |L.own| && L.own[b] == Leaked
  }

  /** Every allocated block stays on some entry's chain, except that a create with an empty name, the
      path being "/", loses the block it takes. */
  lemma OnlyEmptyNamesLeak(v: Snapshot, v': Snapshot, path: CString, kind: byte, size: nat)
    requires Ok(v, size) && CreateEffect(v, v', path, kind, size, FS_SUCCESS)
    ensures LeakedBlocks(v'.layout) ==
      LeakedBlocks(v.layout) + if path[1..] == [] then {FirstFree(v.fat, DATA_START)} else {}
    ensures FirstFree(v.fat, DATA_START) !in LeakedBlocks(v.layout)
  {
    var b := FirstFree(v.fat, DATA_START);
    assert OwnerOk(v.fat, v.layout, b);
    assert b in LeakedBlocks(TakeLayout(v.layout, b));
    forall x ensures x in LeakedBlocks(v'.layout) <==> x in LeakedBlocks(v.layout) || (path[1..] == [] && x == b) {
      assert path[1..] == [] <==> StoredName(path[1..]) == [];
    }
  }

  lemma WritesLeakNothing(v: Snapshot, v': Snapshot, f: nat, data: seq<byte>, size: nat, r: nat)
    requires Ok(v, size) && Ok(v', size) && IsOpen(v, f) && WriteEffect(v, v', f, data, size, r)
    ensures LeakedBlocks(v'.layout) == LeakedBlocks(v.layout)
  {
    var slot := v.cursors[f].slot;
    var c, c' := v.layout.chains[slot], v'.layout.chains[slot];
    forall b | 0 <= b < |v.fat| ensures v'.layout.own[b] == Leaked <==> v.layout.own[b] == Leaked {
      if b in c' {
        var k :| 0 <= k < |c'| && c'[k] == b;
        assert LinkOk(v'.fat, v'.layout, slot, k);
        if k < |c| {
          assert LinkOk(v.fat, v.layout, slot, k);
        } else {
          assert OwnerOk(v.fat, v.layout, b);
        }
      }
    }
  }
}
