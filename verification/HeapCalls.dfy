/** What the calls of the kernel heap (kernel/heap.c) do to its blocks and to the bytes of memory, and how their
    stages fit together. */
module HeapCalls {
  import opened Bytes
  import opened HeapBlocks
  import opened HeapBytes
  import opened HeapSteps
  import opened HeapEffects
  import opened HeapSpans
  import opened FrameAllocator

  function Align8(size: nat): nat { (size + 7) / 8 * 8 }

  function PagesFor(size: nat): nat { (size + HEADER + PAGE_SIZE - 1) / PAGE_SIZE }

  /** A listed block with room for size bytes. */
  ghost predicate HasFit(h: Heap, size: nat) {
    exists j :: 0 <= j < |h.free| && Size(h, h.free[j]) >= size
  }

  /** No byte of a block outside the free list, other than block but, has changed. */
  ghost predicate KeepsBytes(h: Heap, m: seq<byte>, m': seq<byte>, but: nat) {
    true == (
      |m'| == |m| && forall t, k ::
        t in h.tiles && t !in h.free && t != but && t <= k < EndOf(h, t) && k < |m| ==> m'[k] == m[k])
  }

  /** Only the header at t has changed. */
  ghost predicate OnlyHeader(m: seq<byte>, m': seq<byte>, t: nat) {
    |m'| == |m| && forall k :: 0 <= k < |m| && !(t <= k < t + HEADER) ==> m'[k] == m[k]
  }

  /** Only bytes of listed blocks have changed. */
  ghost predicate OnlyListed(h: Heap, m: seq<byte>, m': seq<byte>) {
    |m'| == |m| && forall k :: 0 <= k < |m| && !ListedByte(h, k) ==> m'[k] == m[k]
  }

  ghost predicate HeadersApart(ts: seq<nat>, t: nat) {
    forall s :: s in ts && s != t ==> s + HEADER <= t || t + HEADER <= s
  }

  lemma OnlyListedMore(h: Heap, m: seq<byte>, m1: seq<byte>, m2: seq<byte>, j: nat)
    requires OnlyListed(h, m, m1) && j < |h.free| && OnlyHeader(m1, m2, h.free[j])
    ensures OnlyListed(h, m, m2)
  {
    forall k | h.free[j] <= k < h.free[j] + HEADER ensures ListedByte(h, k) {
      assert h.free[j] <= k < EndOf(h, h.free[j]);
    }
  }
  /** The header in front of a payload; the subtraction wraps around at 0. */
  function BlockOf(ptr: nat): nat
    requires ptr < U32
  {
    if ptr >= HEADER then ptr - HEADER else U32 + ptr - HEADER
  }

  ghost function OneBlock(start: nat, size: nat): Heap
    requires size >= HEADER
  {
    Heap(start, start + size, start, [start], [start], map[start := Header(size - HEADER, 1, 0, 0)])
  }

  lemma OneBlockOk(start: nat, size: nat)
    requires 0 < start && start % PAGE_SIZE == 0 && size > 0 && size % PAGE_SIZE == 0
    ensures HeapOk(OneBlock(start, size))
  {
    PageAligned(start);
    PageAligned(size);
    OneBlockTiled(start, size);
    OneBlockListed(start, size);
  }

  lemma OneBlockTiled(start: nat, size: nat)
    requires 0 < start && start % 8 == 0 && size > HEADER && size % 8 == 0
    ensures Tiled(OneBlock(start, size))
  {
    assert TileOk(OneBlock(start, size), 0);
  }

  lemma OneBlockListed(start: nat, size: nat)
    requires size > HEADER
    ensures Listed(OneBlock(start, size))
  {
    var h := OneBlock(start, size);
    assert h.tiles[0] == start && NodeOk(h, 0);
  }

  /** m' is m with the count bytes at src copied to dst. */
  ghost predicate Copied(m: seq<byte>, m': seq<byte>, dst: nat, src: nat, count: nat) {
    true == (
      && |m'| == |m| && src + count <= |m| && dst + count <= |m|
      && (forall k :: dst <= k < dst + count ==> m'[k] == m[k - dst + src])
      && (forall k :: 0 <= k < |m| && !(dst <= k < dst + count) ==> m'[k] == m[k]))
  }

  /** A successful kfree of block b: it joins the front of the list, then neighbours that touch are joined. */
  ghost predicate Freed(h: Heap, h': Heap, m: seq<byte>, m': seq<byte>, b: nat) {
    true == (
      && FreeEffect(h, h', b) && KeepsBytes(h, m, m', b)
      && Spans(h') == Joined([Span(b, EndOf(h, b))] + Spans(h)))
  }

  lemma FreeKeepsBytes(h: Heap, b: nat, m: seq<byte>, m1: seq<byte>, m2: seq<byte>)
    requires HeapOk(h) && b in h.tiles && b !in h.free
    requires OnlyListed(Pushed(h, b), m, m1) && OnlyListed(Pushed(h, b), m1, m2)
    ensures KeepsBytes(h, m, m2, b)
  {
    PushKeeps(h, b);
    forall t, k | t in h.tiles && t !in h.free && t != b && t <= k < EndOf(h, t) && k < |m| ensures m2[k] == m[k] {
      UnlistedByte(Pushed(h, b), t, k);
    }
  }

  /** A krealloc that moves, stage by stage: a new block is allocated, the whole old payload is copied into it, the
      old block is freed. */
  ghost predicate Reallocated(
      h: Heap, mid: Heap, h': Heap, m: seq<byte>, m1: seq<byte>, m2: seq<byte>, m': seq<byte>, ptr: nat, newPtr: nat,
      size: nat)
    requires ptr >= HEADER
  {
    true == (
      && Granted(h, mid, m, m1, newPtr, Align8(size))
      && Copied(m1, m2, newPtr, ptr, Size(h, ptr - HEADER))
      && Freed(mid, h', m2, m', ptr - HEADER))
  }

  /** After the allocation in krealloc the old and the new block are different live blocks with room for the payload. */
  lemma BothLive(h: Heap, mid: Heap, ptr: nat, newPtr: nat, size: nat)
    requires HeapOk(h) && ptr >= HEADER && Live(h, ptr - HEADER) && size > Size(h, ptr - HEADER)
    requires newPtr >= HEADER && AllocEffect(h, mid, newPtr - HEADER, Align8(size))
    ensures Live(mid, ptr - HEADER) && Live(mid, newPtr - HEADER) && newPtr != ptr
    ensures Size(mid, ptr - HEADER) == Size(h, ptr - HEADER) <= Size(mid, newPtr - HEADER)
    ensures h.start <= ptr - HEADER < mid.end && ptr - HEADER != 0
    ensures ptr - HEADER !in h.free && newPtr - HEADER !in mid.free
  {
    LiveNotListed(h, ptr - HEADER);
    TileBounds(h, ptr - HEADER);
  }

  /** Such a krealloc carries over every byte of the old payload and touches no other block in use. */
  lemma ReallocMovesThePayload(
      h: Heap, mid: Heap, h': Heap, m: seq<byte>, m1: seq<byte>, m2: seq<byte>, m': seq<byte>, ptr: nat, newPtr: nat,
      size: nat)
    requires HeapOk(h) && h.end <= |m| && ptr >= HEADER && Live(h, ptr - HEADER) && size > Size(h, ptr - HEADER)
    requires Reallocated(h, mid, h', m, m1, m2, m', ptr, newPtr, size)
    ensures var n := Size(h, ptr - HEADER);
      newPtr + n <= |m'| && ptr + n <= |m| && m'[newPtr..newPtr + n] == m[ptr..ptr + n]
    ensures KeepsBytes(h, m, m', ptr - HEADER)
  {
    BothLive(h, mid, ptr, newPtr, size);
    PayloadMoved(h, mid, m, m1, m2, m', ptr, newPtr, Size(h, ptr - HEADER));
    MoveKeepsOthers(h, mid, m, m1, m2, m', ptr, newPtr, size);
  }

  /** Afterwards the new block is live and large enough, the old one is not, and the used size has changed by the
      difference of the two. */
  lemma ReallocUses(h: Heap, mid: Heap, h': Heap, ptr: nat, newPtr: nat, size: nat)
    requires HeapOk(h) && ptr >= HEADER && Live(h, ptr - HEADER) && size > Size(h, ptr - HEADER)
    requires newPtr >= HEADER && AllocEffect(h, mid, newPtr - HEADER, Align8(size)) && FreeEffect(mid, h', ptr - HEADER)
    ensures Live(h', newPtr - HEADER) && Size(h', newPtr - HEADER) >= size && !Live(h', ptr - HEADER)
    ensures Used(h') == Used(h) + Size(h', newPtr - HEADER) - Size(h, ptr - HEADER)
  {
    BothLive(h, mid, ptr, newPtr, size);
    LiveNotListed(mid, newPtr - HEADER);
  }

  lemma PayloadMoved(
      h: Heap, mid: Heap, m: seq<byte>, m1: seq<byte>, m2: seq<byte>, m3: seq<byte>, ptr: nat, newPtr: nat, n: nat)
    requires ptr >= HEADER && newPtr >= HEADER && newPtr != ptr
    requires n == Size(h, ptr - HEADER) <= Size(mid, newPtr - HEADER)
    requires ptr - HEADER in h.tiles && ptr - HEADER !in h.free && ptr - HEADER != 0
    requires newPtr - HEADER in mid.tiles && newPtr - HEADER !in mid.free
    requires KeepsBytes(h, m, m1, 0) && Copied(m1, m2, newPtr, ptr, n)
    requires KeepsBytes(mid, m2, m3, ptr - HEADER)
    ensures newPtr + n <= |m3| && ptr + n <= |m| && m3[newPtr..newPtr + n] == m[ptr..ptr + n]
  {
    forall k | newPtr <= k < newPtr + n ensures m3[k] == m[k - newPtr + ptr] {
      assert newPtr - HEADER <= k < EndOf(mid, newPtr - HEADER);
      assert m3[k] == m2[k] == m1[k - newPtr + ptr];
      assert ptr - HEADER <= k - newPtr + ptr < EndOf(h, ptr - HEADER);
    }
  }

  lemma MoveKeepsOthers(
      h: Heap, mid: Heap, m: seq<byte>, m1: seq<byte>, m2: seq<byte>, m3: seq<byte>, ptr: nat, newPtr: nat, size: nat)
    requires HeapOk(h) && ptr >= HEADER && Live(h, ptr - HEADER) && size > Size(h, ptr - HEADER)
    requires newPtr >= HEADER && AllocEffect(h, mid, newPtr - HEADER, Align8(size))
    requires KeepsBytes(h, m, m1, 0) && Copied(m1, m2, newPtr, ptr, Size(h, ptr - HEADER))
    requires KeepsBytes(mid, m2, m3, ptr - HEADER)
    ensures KeepsBytes(h, m, m3, ptr - HEADER)
  {
    var b, b' := ptr - HEADER, newPtr - HEADER;
    forall t, k | t in h.tiles && t !in h.free && t != b && t <= k < EndOf(h, t) && k < |m| ensures m3[k] == m[k] {
      TileBounds(h, t);
      TilesApart(mid, t, b');
      assert EndOf(mid, t) == EndOf(h, t);
      assert m1[k] == m[k];
      assert m2[k] == m1[k];
    }
  }

  lemma CopyKeepsHeaders(h: Heap, m: seq<byte>, m': seq<byte>, dst: nat, src: nat, count: nat)
    requires HeapOk(h) && dst >= HEADER && dst - HEADER in h.tiles && count <= Size(h, dst - HEADER)
    requires Copied(m, m', dst, src, count)
    ensures forall t :: t in h.tiles ==> Hdr(m', t) == Hdr(m, t)
  {
    forall t | t in h.tiles ensures Hdr(m', t) == Hdr(m, t) {
      TileBounds(h, t);
      if t != dst - HEADER {
        TilesApart(h, t, dst - HEADER);
      }
      SameHdr(m, m', t);
    }
  }

  /** The next size bytes behind the end as a listed block. */
  ghost function Appended(h: Heap, size: nat): Heap
    requires size >= HEADER
  {
    Pushed(Extended(h, h.end + size), h.end)
  }

  /** What a successful expansion does: a new listed block behind the old end, with room for size bytes. */
  ghost predicate GrownBy(h: Heap, h': Heap, size: nat) {
    h' == Appended(h, PagesFor(size) * PAGE_SIZE)
  }

  lemma EndApart(h: Heap)
    requires HeapOk(h)
    ensures HeadersApart(h.tiles, h.end) && h.end !in h.tiles
  {
    EndIsNew(h);
    forall s | s in h.tiles ensures s + HEADER <= h.end {
      TileBounds(h, s);
    }
  }

  /** Only bytes of block b have changed. */
  ghost predicate OnlyBlock(h: Heap, m: seq<byte>, m': seq<byte>, b: nat) {
    |m'| == |m| && forall k :: 0 <= k < |m| && !(b <= k < EndOf(h, b)) ==> m'[k] == m[k]
  }

  lemma InsideApart(h: Heap, i: nat, n: nat)
    requires Tiled(h) && i < |h.tiles| && h.tiles[i] + HEADER <= n && n + HEADER <= EndOf(h, h.tiles[i])
    ensures HeadersApart(h.tiles, n) && n !in h.tiles
  {
    NewInside(h, i, n);
    forall s | s in h.tiles && s != n ensures s + HEADER <= n || n + HEADER <= s {
      TileBounds(h, s);
      if s != h.tiles[i] {
        TilesApart(h, s, h.tiles[i]);
      }
    }
  }

  /** Writing inside one header leaves every header apart from it as it was. */
  lemma OtherHeaders(m: seq<byte>, m': seq<byte>, t: nat)
    requires |m'| == |m| && forall k :: 0 <= k < |m| && !(t <= k < t + HEADER) ==> m'[k] == m[k]
    ensures forall s: nat :: s + HEADER <= t || t + HEADER <= s ==> Hdr(m', s) == Hdr(m, s)
  {
    forall s: nat | s + HEADER <= t || t + HEADER <= s ensures Hdr(m', s) == Hdr(m, s) {
      SameHdr(m, m', s);
    }
  }

  lemma TilesHeadersApart(h: Heap)
    requires Tiled(h)
    ensures forall t :: t in h.tiles ==> HeadersApart(h.tiles, t)
  {
    forall t, s | t in h.tiles && s in h.tiles && s != t ensures s + HEADER <= t || t + HEADER <= s {
      TilesApart(h, s, t);
      TileBounds(h, s);
      TileBounds(h, t);
    }
  }

  /** t is the first block of the list with room for size bytes. */
  ghost predicate FirstFit(h: Heap, t: nat, size: nat) {
    exists j ::
      && 0 <= j < |h.free| && h.free[j] == t && Size(h, t) >= size
      && forall i :: 0 <= i < j ==> Size(h, h.free[i]) < size
  }

  /** The stages of a kfree: the block is pushed, then neighbours merge. */
  lemma StagesFree(h: Heap, b: nat, h': Heap, m: seq<byte>, m1: seq<byte>, m2: seq<byte>)
    requires HeapOk(h) && Live(h, b) && Absorbed(Pushed(h, b), h')
    requires OnlyListed(Pushed(h, b), m, m1) && OnlyListed(Pushed(h, b), m1, m2)
    requires Spans(h') == Joined(Spans(Pushed(h, b)))
    ensures Freed(h, h', m, m2, b)
  {
    LiveNotListed(h, b);
    PushedSpans(h, b);
    PushIsFree(h, b, h');
    FreeKeepsBytes(h, b, m, m1, m2);
  }

  /** n is a new block, marked free but not on the list. */
  ghost predicate CutsOff(h: Heap, h': Heap, n: nat) { n !in h.tiles && Orphan(h', n) }

  /** The rest of block b behind its first size bytes is cut off exactly if it is worth a block of its own. */
  ghost predicate CutsOffRest(h: Heap, h': Heap, b: nat, size: nat) {
    true == (CutsOff(h, h', b + HEADER + size) <==> Size(h, b) > size + HEADER + 16)
  }

  lemma CutsOffIff(h: Heap, h1: Heap, i: nat, size: nat, s: Heap)
    requires i < |h1.tiles| && h.tiles == h1.tiles && Size(h, h1.tiles[i]) == Size(h1, h1.tiles[i])
    requires if Size(h1, h1.tiles[i]) > size + HEADER + 16 then SplitDone(h1, i, size, s) else s == h1
    ensures CutsOffRest(h, s, h1.tiles[i], size)
  {
  }

  /** A successful kmalloc: a live block around ptr, the first that fits if there was one, and no other byte in
      use touched. */
  ghost predicate Granted(h: Heap, h': Heap, m: seq<byte>, m': seq<byte>, ptr: nat, size: nat) {
    true == (
      && ptr >= HEADER && ptr % 8 == 0
      && AllocEffect(h, h', ptr - HEADER, size)
      && Size(h', ptr - HEADER) <= size + HEADER + 16
      && KeepsBytes(h, m, m', 0)
      && TakesFromList(h, h', ptr - HEADER)
      && (if HasFit(h, size) then FirstFit(h, ptr - HEADER, size) && h'.end == h.end
          else ptr - HEADER == h.end && h'.end == h.end + PagesFor(size) * PAGE_SIZE))
  }

  /** The list is what it was, order and sizes included, without block b, if b was on it. */
  ghost predicate TakesFromList(h: Heap, h': Heap, b: nat) {
    true == (
      && (if b in h.free then
            && Size(h', b) <= Size(h, b)
            && exists j :: 0 <= j < |h.free| && h.free[j] == b && h'.free == RemoveAt(h.free, j)
          else h'.free == h.free)
      && forall t :: t in h'.free ==> Size(h', t) == Size(h, t))
  }

  lemma UnlinkTakesFromList(h: Heap, j: nat)
    requires HeapOk(h) && j < |h.free|
    ensures TakesFromList(h, Unlinked(h, j), h.free[j])
  {
    UnlinkedHeaders(h, j);
    forall t | t in Unlinked(h, j).free ensures Size(Unlinked(h, j), t) == Size(h, t) {
      RemovedMember(h.free, j, t);
      ListedNotLive(h, t);
    }
  }

  lemma SplitKeepsList(h: Heap, h1: Heap, i: nat, size: nat, s: Heap)
    requires HeapOk(h1) && i < |h1.tiles| && h1.tiles[i] !in h1.free && SplitDone(h1, i, size, s)
    requires size <= Size(h1, h1.tiles[i]) && TakesFromList(h, h1, h1.tiles[i])
    ensures TakesFromList(h, s, h1.tiles[i])
  {
    forall t | t in s.free ensures Size(s, t) == Size(h, t) {
      ListedNotLive(h1, t);
    }
  }

  /** Taking the block that growth has just put in front leaves the list as it was before. */
  lemma GrowTakesFromList(h: Heap, h1: Heap, h2: Heap, size: nat)
    requires HeapOk(h) && h.end % 8 == 0 && GrownBy(h, h1, size) && TakesFromList(h1, h2, h.end)
    ensures TakesFromList(h, h2, h.end)
  {
    EndIsNew(h);
    GrowKeepsListed(h, h1, size);
    assert h1.free[0] == h.end && h.end in h1.free;
    forall i | 0 < i < |h1.free| ensures h1.free[i] != h.end {
      assert h1.free[i] == h.free[i - 1] && h.free[i - 1] in h.free;
    }
    assert h1.free[0] == h.end && RemoveAt(h1.free, 0) == h.free;
  }

  lemma GrowKeepsListed(h: Heap, h1: Heap, size: nat)
    requires HeapOk(h) && h.end % 8 == 0 && GrownBy(h, h1, size)
    ensures h1.free == [h.end] + h.free && forall t :: t in h.free ==> Size(h1, t) == Size(h, t)
  {
    var end := h.end + PagesFor(size) * PAGE_SIZE;
    NewEnd(h.end, size);
    ExtendKeeps(h, end);
    PushKeeps(Extended(h, end), h.end);
    forall t | t in h.free ensures Size(h1, t) == Size(h, t) {
      ListedNotLive(h, t);
    }
  }

  lemma AlignedPayload(block: nat)
    requires block % 8 == 0
    ensures (block + HEADER) % 8 == 0
  {
  }

  /** The limit check ignores the header and the rounding to pages, so growth may pass the maximum, by one page
      at most. */
  lemma GrowthInBounds(end: nat, max: nat, minSize: nat)
    requires end % PAGE_SIZE == 0 && max % PAGE_SIZE == 0 && end + minSize <= max
    ensures
      var needed := PagesFor(minSize) * PAGE_SIZE;
      && needed % 8 == 0 && needed / PAGE_SIZE == PagesFor(minSize)
      && (end + needed) / PAGE_SIZE == end / PAGE_SIZE + PagesFor(minSize)
      && minSize + HEADER <= needed && (end + needed) % PAGE_SIZE == 0 && end + needed <= max + PAGE_SIZE
      && (end + needed > max <==> end + minSize + HEADER > max)
      && (end + minSize == max ==> end + needed == max + PAGE_SIZE)
  {
    PageAligned(PagesFor(minSize) * PAGE_SIZE);
  }

  lemma InitialEnd(start: nat, size: nat)
    requires start % PAGE_SIZE == 0 && size % PAGE_SIZE == 0
    ensures (start + size) % PAGE_SIZE == 0 && (start + size) / PAGE_SIZE == start / PAGE_SIZE + size / PAGE_SIZE
  {
  }

  lemma PageAligned(x: nat)
    requires x % PAGE_SIZE == 0
    ensures x % 8 == 0
  {
    assert x == x / PAGE_SIZE * 512 * 8;
  }

  /** After a successful expansion the second search always succeeds. */
  lemma NewBlockFits(h: Heap, h': Heap, size: nat)
    requires HeapOk(h) && h.end % 8 == 0 && GrownBy(h, h', size)
    ensures HasFit(h', size)
  {
    assert h'.free[0] == h.end && Size(h', h.end) >= size;
  }

  /** A byte of a block outside the list lies in no listed block. */
  lemma UnlistedByte(h: Heap, t: nat, k: nat)
    requires HeapOk(h) && t in h.tiles && t !in h.free && t <= k < EndOf(h, t)
    ensures !ListedByte(h, k)
  {
    forall j | 0 <= j < |h.free| ensures !(h.free[j] <= k < EndOf(h, h.free[j])) {
      assert NodeOk(h, j);
      TilesApart(h, t, h.free[j]);
    }
  }

  lemma TakeKeepsBytes(h: Heap, m: seq<byte>, m1: seq<byte>, m2: seq<byte>, h1: Heap, j: nat)
    requires HeapOk(h) && j < |h.free| && h1 == Unlinked(h, j)
    requires OnlyListed(h, m, m1) && OnlyBlock(h1, m1, m2, h.free[j])
    ensures KeepsBytes(h, m, m2, 0)
  {
    UnlinkedHeaders(h, j);
    assert NodeOk(h, j);
    forall t, k | t in h.tiles && t !in h.free && t <= k < EndOf(h, t) && k < |m| ensures m2[k] == m[k] {
      UnlistedByte(h, t, k);
      TilesApart(h, t, h.free[j]);
    }
  }

  /** Growing keeps every block there was and its header; only the new block joins the list. */
  lemma GrowKeeps(h: Heap, h1: Heap, size: nat)
    requires HeapOk(h) && h.end % 8 == 0 && GrownBy(h, h1, size)
    ensures HeapOk(h1) && h1.start == h.start && h1.end >= h.end
    ensures forall t :: t in h1.tiles && t !in h1.free <==> t in h.tiles && t !in h.free
    ensures forall t :: t in h.tiles && t !in h.free ==> H(h1, t) == H(h, t)
    ensures forall t :: Live(h1, t) <==> Live(h, t)
  {
    var end := h.end + PagesFor(size) * PAGE_SIZE;
    NewEnd(h.end, size);
    ExtendKeeps(h, end);
    PushKeeps(Extended(h, end), h.end);
    forall t
      ensures t in h1.tiles && t !in h1.free <==> t in h.tiles && t !in h.free
      ensures t in h.tiles && t !in h.free ==> H(h1, t) == H(h, t)
    {
      GrowKeepsOne(h, h1, size, t);
    }
    forall t ensures Live(h1, t) <==> Live(h, t) {
      GrowLive(h, h1, t);
    }
  }

  lemma GrowKeepsOne(h: Heap, h1: Heap, size: nat, t: nat)
    requires HeapOk(h) && h.end % 8 == 0 && GrownBy(h, h1, size)
    ensures t in h1.tiles && t !in h1.free <==> t in h.tiles && t !in h.free
    ensures t in h.tiles && t !in h.free ==> H(h1, t) == H(h, t)
  {
    var e := Extended(h, h.end + PagesFor(size) * PAGE_SIZE);
    EndIsNew(h);
    assert h1.tiles == h.tiles + [h.end] && h1.free == [h.end] + h.free;
    if t in h.tiles && t !in h.free {
      assert e.head != t by {
        if h.free != [] {
          assert h.free[0] in h.free;
        } else {
          TileBounds(h, t);
        }
      }
    }
  }

  lemma GrowLive(h: Heap, h1: Heap, t: nat)
    requires HeapOk(h) && HeapOk(h1)
    requires t in h1.tiles && t !in h1.free <==> t in h.tiles && t !in h.free
    requires t in h.tiles && t !in h.free ==> H(h1, t) == H(h, t)
    ensures Live(h1, t) <==> Live(h, t)
  {
    if Live(h, t) {
      LiveNotListed(h, t);
    }
    if Live(h1, t) {
      LiveNotListed(h1, t);
    }
  }

  lemma NewEnd(end: nat, size: nat)
    requires end % 8 == 0
    ensures (end + PagesFor(size) * PAGE_SIZE) % 8 == 0 && PagesFor(size) * PAGE_SIZE > HEADER
  {
    PageAligned(PagesFor(size) * PAGE_SIZE);
  }

  lemma GrowUses(h: Heap, h1: Heap, size: nat)
    requires HeapOk(h) && h.end % 8 == 0 && GrownBy(h, h1, size)
    ensures Used(h1) == Used(h)
  {
    var end := h.end + PagesFor(size) * PAGE_SIZE;
    NewEnd(h.end, size);
    ExtendUses(h, end);
    ExtendOk(h, end);
    PushUses(Extended(h, end), h.end);
  }

  lemma ExtendOk(h: Heap, end: nat)
    requires HeapOk(h) && h.end % 8 == 0 && end % 8 == 0 && end > h.end + HEADER
    ensures HeapOk(Extended(h, end)) && h.end in Extended(h, end).tiles && h.end !in Extended(h, end).free
    ensures Weight(Extended(h, end), h.end) == 0
  {
    ExtendKeeps(h, end);
  }

  lemma ExtendUses(h: Heap, end: nat)
    requires HeapOk(h) && end >= h.end + HEADER
    ensures Used(Extended(h, end)) == Used(h)
  {
    var e := Extended(h, end);
    EndIsNew(h);
    UsedConcat(e, h.tiles, [h.end]);
    UsedOne(e, h.end);
    UsedSame(h, e, h.tiles);
  }

  /** Growing the heap first makes no difference to what an allocation does to the blocks there were. */
  lemma GrowThenTake(h: Heap, h1: Heap, h2: Heap, m: seq<byte>, m1: seq<byte>, m2: seq<byte>, b: nat, size: nat)
    requires HeapOk(h) && h.end % 8 == 0 && ((h1 == h && m1 == m) || (GrownBy(h, h1, size) && OnlyListed(h1, m, m1)))
    requires AllocEffect(h1, h2, b, size)
    requires KeepsBytes(h1, m1, m2, 0)
    ensures AllocEffect(h, h2, b, size) && KeepsBytes(h, m, m2, 0)
  {
    if h1 != h || m1 != m {
      GrowKeeps(h, h1, size);
      GrowUses(h, h1, size);
      forall t, k | t in h.tiles && t !in h.free && t != 0 && t <= k < EndOf(h, t) && k < |m| ensures m2[k] == m[k] {
        UnlistedByte(h1, t, k);
        assert EndOf(h1, t) == EndOf(h, t);
      }
    }
  }

  /** Block b is the first that fits, or the new one in front after growth. */
  ghost predicate Prepared(h: Heap, h1: Heap, m: seq<byte>, m1: seq<byte>, b: nat, size: nat) {
    true == (
      if HasFit(h, size) then h1 == h && m1 == m && FirstFit(h, b, size)
      else GrownBy(h, h1, size) && OnlyListed(h1, m, m1) && b == h.end)
  }

  /** The stages of a successful kmalloc: perhaps growth, then a block is taken. */
  lemma StagesGrant(h: Heap, h1: Heap, h2: Heap, m: seq<byte>, m1: seq<byte>, m2: seq<byte>, b: nat, size: nat)
    requires HeapOk(h) && h.end % 8 == 0 && h2.end == h1.end && Prepared(h, h1, m, m1, b, size)
    requires AllocEffect(h1, h2, b, size) && TakesFromList(h1, h2, b) && KeepsBytes(h1, m1, m2, 0)
    requires Size(h2, b) <= size + HEADER + 16 && b % 8 == 0
    ensures Granted(h, h2, m, m2, b + HEADER, size)
  {
    GrowThenTake(h, h1, h2, m, m1, m2, b, size);
    AlignedPayload(b);
    if !HasFit(h, size) {
      GrowTakesFromList(h, h1, h2, size);
    }
  }
}
