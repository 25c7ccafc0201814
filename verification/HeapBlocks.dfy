/** The kernel heap's blocks (kernel/heap.c): the blocks that tile the heap, their headers, and the free
    list threaded through them. */
module HeapBlocks {
  const HEADER := 16

  datatype Header = Header(size: nat, isFree: nat, next: nat, prev: nat)

  /** tiles lists all blocks from the heap's start to its end; free lists the blocks on the free list, in
      list order. A block with isFree 0 is live; one with isFree 1 may or may not be on the list. */
  datatype Heap = Heap(start: nat, end: nat, head: nat, tiles: seq<nat>, free: seq<nat>, hdr: map<nat, Header>)

  ghost function H(h: Heap, t: nat): Header {
    if t in h.hdr then h.hdr[t] else Header(0, 0, 0, 0)
  }

  ghost function Size(h: Heap, t: nat): nat { H(h, t).size }

  ghost function EndOf(h: Heap, t: nat): nat { t + HEADER + Size(h, t) }

  ghost predicate TileOk(h: Heap, i: nat)
    requires i < |h.tiles|
  {
    var t := h.tiles[i];
    && t % 8 == 0 && Size(h, t) > 0 && Size(h, t) % 8 == 0
    && H(h, t).isFree <= 1
    && EndOf(h, t) == (if i + 1 < |h.tiles| then h.tiles[i + 1] else h.end)
  }

  ghost predicate NodeOk(h: Heap, j: nat)
    requires j < |h.free|
  {
    var d := H(h, h.free[j]);
    && h.free[j] in h.tiles && d.isFree == 1
    && d.next == (if j + 1 < |h.free| then h.free[j + 1] else 0)
    && d.prev == (if j > 0 then h.free[j - 1] else 0)
  }

  ghost predicate NoRepeats(s: seq<nat>) {
    forall i, j :: 0 <= i < j < |s| ==> s[i] != s[j]
  }

  ghost predicate Tiled(h: Heap) {
    && 0 < h.start && h.tiles != [] && h.tiles[0] == h.start
    && forall i :: 0 <= i < |h.tiles| ==> TileOk(h, i)
  }

  ghost predicate Listed(h: Heap) {
    && h.head == (if h.free == [] then 0 else h.free[0])
    && NoRepeats(h.free)
    && forall j :: 0 <= j < |h.free| ==> NodeOk(h, j)
  }

  ghost predicate HeapOk(h: Heap) { Tiled(h) && Listed(h) }

  ghost predicate Live(h: Heap, t: nat) { t in h.tiles && H(h, t).isFree == 0 }

  /** A block neither live nor on the free list: what splitting cuts off. */
  ghost predicate Orphan(h: Heap, t: nat) { t in h.tiles && H(h, t).isFree == 1 && t !in h.free }

  // ----- tiles lie one behind the other -----

  lemma {:induction false} TilesAscend(h: Heap, i: nat, j: nat)
    requires Tiled(h) && i < j < |h.tiles|
    ensures EndOf(h, h.tiles[i]) <= h.tiles[j]
    decreases j
  {
    assert TileOk(h, i) && TileOk(h, j - 1);
    if i < j - 1 {
      TilesAscend(h, i, j - 1);
    }
  }

  lemma TileInHeap(h: Heap, i: nat)
    requires Tiled(h) && i < |h.tiles|
    ensures h.start <= h.tiles[i] && EndOf(h, h.tiles[i]) <= h.end
  {
    assert TileOk(h, i) && TileOk(h, 0) && TileOk(h, |h.tiles| - 1);
    if i > 0 {
      TilesAscend(h, 0, i);
    }
    if i < |h.tiles| - 1 {
      TilesAscend(h, i, |h.tiles| - 1);
    }
  }

  /** Different blocks share no byte, headers included. */
  lemma TilesApart(h: Heap, s: nat, t: nat)
    requires Tiled(h) && s in h.tiles && t in h.tiles && s != t
    ensures EndOf(h, s) <= t || EndOf(h, t) <= s
  {
    var i :| 0 <= i < |h.tiles| && h.tiles[i] == s;
    var j :| 0 <= j < |h.tiles| && h.tiles[j] == t;
    if i < j {
      TilesAscend(h, i, j);
    } else {
      TilesAscend(h, j, i);
    }
  }

  lemma TileBounds(h: Heap, t: nat)
    requires Tiled(h) && t in h.tiles
    ensures h.start <= t && t + HEADER < EndOf(h, t) <= h.end && t % 8 == 0 && Size(h, t) % 8 == 0
    ensures H(h, t).isFree <= 1
  {
    var i :| 0 <= i < |h.tiles| && h.tiles[i] == t;
    assert TileOk(h, i);
    TileInHeap(h, i);
  }

  lemma TilesNoRepeats(h: Heap)
    requires Tiled(h)
    ensures NoRepeats(h.tiles)
  {
    forall i, j | 0 <= i < j < |h.tiles| ensures h.tiles[i] != h.tiles[j] {
      TilesAscend(h, i, j);
    }
  }
}
