/** The read loop of SimpleFS, round by round. */
module SimpleFsRead {
  import opened Bytes
  import opened SimpleFsContent
  import opened SimpleFsSpec

  ghost function MovedFds(v: Snapshot, f: nat, r: nat, place: nat): seq<Descriptor>
    requires f < |v.fds| && f < |v.cursors| && v.cursors[f].slot < |v.layout.chains|
    requires place < |v.layout.chains[v.cursors[f].slot]|
  {
    v.fds[f := v.fds[f].(position := v.fds[f].position + r, currentBlock := v.layout.chains[v.cursors[f].slot][place])]
  }

  ghost predicate ReadResult(
      u: Descriptor, cur: Cursor, place: nat, c: seq<nat>, F: seq<byte>, count: nat, size: nat, out: seq<byte>)
    requires size > 0
  {
    var q := Landing(u, cur, size);
    && |out| == Min(count, Min(Max(0, u.fileSize - u.position), Start(|c|, size) - q))
    && q + |out| <= |F| && out == F[q..q + |out|]
    && ReadCursor(u, cur, place, |c|, q, |out|, size)
  }

  /** What holds after every round of the read loop: the bytes so far, the cursor, and that the block
      in hand holds the next byte unless the chain came to its end. */
  ghost predicate ReadProgress(
      u: Descriptor, cur: Cursor, place: nat, c: seq<nat>, F: seq<byte>, count: nat, size: nat, out: seq<byte>,
      stop: bool)
    requires size > 0
  {
    var q := Landing(u, cur, size);
    && |out| <= count && q + |out| <= |F| && out == F[q..q + |out|]
    && ReadCursor(u, cur, place, |c|, q, |out|, size)
    && (out != [] ==> u.position + |out| <= u.fileSize)
    && (stop ==> q + |out| == |F|)
    && (!stop && |out| < count && u.position + |out| < u.fileSize ==> InStep(u, place, q, |out|, size))
  }

  /** The invariant as one fact, for the loop to pass on without looking inside. */
  ghost predicate InRead(
      u: Descriptor, cur: Cursor, place: nat, c: seq<nat>, F: seq<byte>, count: nat, size: nat, out: seq<byte>,
      stop: bool)
    requires size > 0
  {
    ReadProgress(u, cur, place, c, F, count, size, out, stop)
  }

  /** What one round hands out and where it leaves the cursor. */
  ghost predicate RoundRead(
      u: Descriptor, at: nat, place: nat, length: nat, block: seq<byte>, left: nat, size: nat, piece: seq<byte>,
      stop: bool)
    requires size > 0
  {
    var off := u.position % size;
    var end := u.position + |piece|;
    && |block| == size
    && |piece| == Min(left, Min(size - off, u.fileSize - u.position)) > 0
    && piece == block[off..off + |piece|]
    && place == (if end % size == 0 && end < u.fileSize && at + 1 < length then at + 1 else at)
    && (stop <==> end % size == 0 && end < u.fileSize && at + 1 == length)
  }

  lemma ReadAdvance(
      blocks: seq<seq<byte>>, u: Descriptor, cur: Cursor, place: nat, place': nat, c: seq<nat>,
      count: nat, size: nat, out: seq<byte>, piece: seq<byte>, stop: bool)
    requires BlocksOk(blocks, size) && InRange(c, |blocks|) && place < |c|
    requires InRead(u, cur, place, c, Flat(blocks, c), count, size, out, false)
    requires |out| < count && u.position + |out| < u.fileSize
    requires RoundRead(u.(position := u.position + |out|, currentBlock := c[place]), place, place', |c|,
                       blocks[c[place]], count - |out|, size, piece, stop)
    ensures InRead(u, cur, place', c, Flat(blocks, c), count, size, out + piece, stop)
  {
    FlatLength(blocks, c, size);
    FlatBlock(blocks, c, size, place);
    PieceAdvance(u, cur, place, place', c, Flat(blocks, c), blocks[c[place]], count, size, out, piece, stop);
  }

  lemma PieceAdvance(
      u: Descriptor, cur: Cursor, place: nat, place': nat, c: seq<nat>, F: seq<byte>, block: seq<byte>,
      count: nat, size: nat, out: seq<byte>, piece: seq<byte>, stop: bool)
    requires size > 0 && place < |c| && |F| == Start(|c|, size)
    requires InRead(u, cur, place, c, F, count, size, out, false)
    requires |out| < count && u.position + |out| < u.fileSize
    requires |block| == size && Start(place, size) + size <= |F|
    requires F[Start(place, size)..Start(place, size) + size] == block
    requires RoundRead(u.(position := u.position + |out|, currentBlock := c[place]), place, place', |c|,
                       block, count - |out|, size, piece, stop)
    ensures InRead(u, cur, place', c, F, count, size, out + piece, stop)
  {
    var q, w := Landing(u, cur, size), |out|;
    NextPiece(F, Start(place, size), block, q, out, (u.position + w) % size, |piece|);
    CursorAdvance(u, cur, place, place', |c|, q, w, |piece|, size);
    assert |out + piece| == w + |piece|;
    assert u.position + |out + piece| == u.position + (w + |piece|);
  }

  /** The loop ends with all bytes handed out, at the file's size, or at the end of the chain. */
  lemma ReadFinish(
      u: Descriptor, cur: Cursor, place: nat, c: seq<nat>, F: seq<byte>, count: nat, size: nat, out: seq<byte>,
      stop: bool)
    requires size > 0 && |F| == Start(|c|, size)
    requires InRead(u, cur, place, c, F, count, size, out, stop)
    requires |out| == count || u.position + |out| >= u.fileSize || stop
    ensures ReadResult(u, cur, place, c, F, count, size, out)
  {
  }

  lemma ReadIsOk(v: Snapshot, f: nat, count: nat, size: nat, out: seq<byte>, place: nat)
    requires Ok(v, size) && IsOpen(v, f)
    requires DescriptorOk(v.fds[f], v.dir, v.layout, v.cursors[f])
    requires var c := v.layout.chains[v.cursors[f].slot];
      ReadResult(v.fds[f], v.cursors[f], place, c, Flat(v.blocks, c), count, size, out)
    ensures place < |v.layout.chains[v.cursors[f].slot]|
    ensures
      var v' := v.(fds := MovedFds(v, f, |out|, place), cursors := v.cursors[f := Cursor(v.cursors[f].slot, place)]);
      Ok(v', size) && ReadEffect(v, v', f, count, size, out)
  {
    var v' := v.(fds := MovedFds(v, f, |out|, place), cursors := v.cursors[f := Cursor(v.cursors[f].slot, place)]);
    forall g | 0 <= g < |v'.fds| && v'.fds[g].inUse ensures DescriptorOk(v'.fds[g], v'.dir, v'.layout, v'.cursors[g]) {
      assert DescriptorOk(v.fds[g], v.dir, v.layout, v.cursors[g]);
    }
  }

  /** Appending the next piece of a block to the bytes read so far. */
  lemma NextPiece(s: seq<byte>, at: nat, block: seq<byte>, q: nat, out: seq<byte>, off: nat, n: nat)
    requires at + |block| <= |s| && s[at..at + |block|] == block && off + n <= |block|
    requires q + |out| == at + off && out == s[q..q + |out|]
    ensures out + block[off..off + n] == s[q..q + |out| + n]
  {
    SliceOfSlice(s, at, |block|, off, n);
  }

  lemma SliceOfSlice<T>(s: seq<T>, at: nat, m: nat, off: nat, n: nat)
    requires at + m <= |s| && off + n <= m
    ensures s[at..at + m][off..off + n] == s[at + off..at + off + n]
  {
    var a, b := s[at..at + m][off..off + n], s[at + off..at + off + n];
    forall j | 0 <= j < n ensures a[j] == b[j] {
      assert a[j] == s[at..at + m][off + j];
    }
  }

  /** Round after round the block in hand is the one holding the next byte. */
  ghost predicate InStep(u: Descriptor, place: nat, q: nat, w: nat, size: nat)
    requires size > 0
  {
    Start(place, size) + (u.position + w) % size == q + w
  }

  /** One round of the read loop: n more bytes, then on to the next block if this one is used up, the
      file goes on and the chain does too. */
  lemma CursorAdvance(u: Descriptor, cur: Cursor, place: nat, place': nat, length: nat, q: nat, w: nat, n: nat,
      size: nat)
    requires size > 0 && ReadCursor(u, cur, place, length, q, w, size) && InStep(u, place, q, w, size)
    requires 0 < n <= size - (u.position + w) % size && u.position + w + n <= u.fileSize
    requires place' == if (u.position + (w + n)) % size == 0 && u.position + (w + n) < u.fileSize && place + 1 < length
                       then place + 1 else place
    ensures ReadCursor(u, cur, place', length, q, w + n, size)
    ensures q + w + n <= Start(length, size)
    ensures u.position + (w + n) < u.fileSize ==>
      if place' == place && (u.position + (w + n)) % size == 0 then q + w + n == Start(length, size)
      else InStep(u, place', q, w + n, size)
  {
    OffsetAdvance(u.position + w, n, size);
    assert u.position + w + n == u.position + (w + n);
    if place + 1 < length {
      StartMonotone(place + 1, length, size);
    }
  }
}
