/** The elementary steps of the kernel heap (kernel/heap.c) on its headers, blocks and free list, and what
    each of them keeps. */
module HeapSteps {
  import opened HeapBlocks

  ghost function WithNext(h: Heap, t: nat, x: nat): Heap { h.(hdr := h.hdr[t := H(h, t).(next := x)]) }

  ghost function WithPrev(h: Heap, t: nat, x: nat): Heap { h.(hdr := h.hdr[t := H(h, t).(prev := x)]) }

  ghost function WithFlag(h: Heap, t: nat, x: nat): Heap { h.(hdr := h.hdr[t := H(h, t).(isFree := x)]) }

  ghost function WithSize(h: Heap, t: nat, x: nat): Heap { h.(hdr := h.hdr[t := H(h, t).(size := x)]) }

  ghost function RemoveAt(s: seq<nat>, j: nat): (r: seq<nat>)
    requires j < |s|
    ensures |r| == |s| - 1 && forall k :: 0 <= k < |r| ==> r[k] == if k < j then s[k] else s[k + 1]
  {
    s[..j] + s[j + 1..]
  }

  ghost function InsertAt(s: seq<nat>, j: nat, x: nat): (r: seq<nat>)
    requires j <= |s|
    ensures |r| == |s| + 1
    ensures forall k :: 0 <= k < |r| ==> r[k] == if k < j then s[k] else if k == j then x else s[k - 1]
  {
    s[..j] + [x] + s[j..]
  }

  /** Same blocks with the same sizes and proper flags: the tiling is not affected by links. */
  lemma RelinkKeepsTiles(h: Heap, h': Heap)
    requires Tiled(h) && h'.start == h.start && h'.end == h.end && h'.tiles == h.tiles
    requires forall t :: t in h.tiles ==> Size(h', t) == Size(h, t) && H(h', t).isFree <= 1
    ensures Tiled(h')
  {
    forall i | 0 <= i < |h.tiles| ensures TileOk(h', i) {
      assert TileOk(h, i);
    }
  }

  lemma NodesNotNull(h: Heap)
    requires HeapOk(h)
    ensures forall j :: 0 <= j < |h.free| ==> h.free[j] >= h.start > 0
  {
    forall j | 0 <= j < |h.free| ensures h.free[j] >= h.start {
      assert NodeOk(h, j);
      TileBounds(h, h.free[j]);
    }
  }

  // ----- unlinking -----

  ghost function Unlinked(h: Heap, j: nat): Heap
    requires j < |h.free|
  {
    Cleared(Bypassed(h, h.free[j]), h.free[j]).(free := RemoveAt(h.free, j))
  }

  /** The links around block b are led past it. */
  ghost function Bypassed(h: Heap, b: nat): Heap {
    var d := H(h, b);
    var h1 := if d.prev != 0 then WithNext(h, d.prev, d.next) else h.(head := d.next);
    if d.next != 0 then WithPrev(h1, d.next, d.prev) else h1
  }

  ghost function Cleared(h: Heap, b: nat): Heap {
    WithPrev(WithNext(WithFlag(h, b, 0), b, 0), b, 0)
  }

  /** What unlinking node j does to each header. */
  lemma UnlinkedHeader(h: Heap, j: nat, t: nat)
    requires HeapOk(h) && j < |h.free|
    ensures
      var b := h.free[j];
      var d := H(h, b);
      H(Unlinked(h, j), t) ==
        if t == b then Header(d.size, 0, 0, 0)
        else H(h, t).(next := if t == d.prev && t != 0 then d.next else H(h, t).next,
                      prev := if t == d.next && t != 0 then d.prev else H(h, t).prev)
  {
    NodesNotNull(h);
    assert NodeOk(h, j);
  }

  lemma UnlinkedNode(h: Heap, j: nat, k: nat)
    requires HeapOk(h) && j < |h.free| && k < |h.free| - 1
    ensures NodeOk(Unlinked(h, j), k)
  {
    var k0 := if k < j then k else k + 1;
    UnlinkedHeader(h, j, h.free[k0]);
    NodesNotNull(h);
    assert NodeOk(h, k0) && NodeOk(h, j);
    assert Unlinked(h, j).free[k] == h.free[k0];
  }

  /** The block taken off is live with cleared links; every other block keeps its size and its flag. */
  lemma UnlinkedHeaders(h: Heap, j: nat)
    requires HeapOk(h) && j < |h.free|
    ensures h.free[j] in h.tiles && H(Unlinked(h, j), h.free[j]) == Header(Size(h, h.free[j]), 0, 0, 0)
    ensures forall t :: t in h.tiles && t != h.free[j] ==>
      Size(Unlinked(h, j), t) == Size(h, t) && H(Unlinked(h, j), t).isFree == H(h, t).isFree
    ensures forall t :: t in h.tiles && t !in h.free ==> H(Unlinked(h, j), t) == H(h, t)
  {
    assert NodeOk(h, j);
    forall t
      ensures t == h.free[j] || (Size(Unlinked(h, j), t) == Size(h, t) && H(Unlinked(h, j), t).isFree == H(h, t).isFree)
    {
      UnlinkedHeader(h, j, t);
    }
    forall t | t !in h.free ensures H(Unlinked(h, j), t) == H(h, t) {
      UnlinkedHeader(h, j, t);
    }
    UnlinkedHeader(h, j, h.free[j]);
  }

  /** Taking a block off the free list leaves a well-linked list of the other nodes. */
  lemma UnlinkKeeps(h: Heap, j: nat)
    requires HeapOk(h) && j < |h.free|
    ensures HeapOk(Unlinked(h, j)) && h.free[j] !in Unlinked(h, j).free
  {
    var h' := Unlinked(h, j);
    UnlinkedHeaders(h, j);
    NodesNotNull(h);
    assert NodeOk(h, j);
    forall t | t in h.tiles ensures H(h', t).isFree <= 1 {
      TileBounds(h, t);
    }
    RelinkKeepsTiles(h, h');
    forall k | 0 <= k < |h'.free| ensures NodeOk(h', k) {
      UnlinkedNode(h, j, k);
    }
  }

  // ----- splitting -----

  /** The block at tile i keeps size bytes; what is left of it becomes a block of its own, marked free. */
  ghost function SplitOff(h: Heap, i: nat, size: nat): Heap
    requires i < |h.tiles| && size + HEADER < Size(h, h.tiles[i])
  {
    Shortened(WithTail(h, h.tiles[i], size), i, size)
  }

  /** The block at tile i ends after size bytes, with its tail as the next tile. */
  ghost function Shortened(h: Heap, i: nat, size: nat): Heap
    requires i < |h.tiles|
  {
    var t := h.tiles[i];
    var n := t + HEADER + size;
    WithSize(WithNext(h, t, n), t, size).(tiles := InsertAt(h.tiles, i + 1, n))
  }

  /** The header of what is left of block t behind its first size bytes. */
  ghost function WithTail(h: Heap, t: nat, size: nat): Heap
    requires size + HEADER < Size(h, t)
  {
    h.(hdr := h.hdr[t + HEADER + size := Header(Size(h, t) - size - HEADER, 1, H(h, t).next, t)])
  }

  /** Both parts of the block at tile i are blocks, the rest is as it was. The part cut off is marked free
      but is not on the list. */
  ghost predicate SplitDone(h: Heap, i: nat, size: nat, s: Heap)
    requires i < |h.tiles|
  {
    true == (
      var t := h.tiles[i];
      var n := t + HEADER + size;
      && HeapOk(s) && s.free == h.free && s.start == h.start && s.end == h.end
      && n !in h.tiles && s.tiles == InsertAt(h.tiles, i + 1, n)
      && (forall x :: x in s.tiles <==> x in h.tiles || x == n)
      && Size(s, t) == size && H(s, t).isFree == H(h, t).isFree && Orphan(s, n)
      && (forall x :: x in h.tiles && x != t ==> H(s, x) == H(h, x)))
  }

  /** Splitting a block outside the free list and with cleared links. */
  lemma SplitKeeps(h: Heap, i: nat, size: nat)
    requires HeapOk(h) && i < |h.tiles| && size + HEADER < Size(h, h.tiles[i])
    requires size > 0 && size % 8 == 0 && h.tiles[i] !in h.free && H(h, h.tiles[i]).next == 0
    ensures SplitDone(h, i, size, SplitOff(h, i, size))
  {
    NewInside(h, i, h.tiles[i] + HEADER + size);
    InsertedMembers(h.tiles, i + 1, h.tiles[i] + HEADER + size);
    SplitHeaders(h, i, size);
    SplitTiled(h, i, size);
    SplitListed(h, i, size);
  }

  lemma SplitHeaders(h: Heap, i: nat, size: nat)
    requires i < |h.tiles| && size + HEADER < Size(h, h.tiles[i]) && H(h, h.tiles[i]).next == 0
    ensures
      var t, s := h.tiles[i], SplitOff(h, i, size);
      var n := t + HEADER + size;
      && H(s, n) == Header(Size(h, t) - size - HEADER, 1, 0, t)
      && H(s, t) == H(h, t).(size := size, next := n)
      && forall x :: x != t && x != n ==> H(s, x) == H(h, x)
  {
  }

  lemma SplitTiled(h: Heap, i: nat, size: nat)
    requires Tiled(h) && i < |h.tiles| && size + HEADER < Size(h, h.tiles[i]) && size > 0 && size % 8 == 0
    requires H(h, h.tiles[i]).next == 0
    ensures Tiled(SplitOff(h, i, size))
  {
    NewInside(h, i, h.tiles[i] + HEADER + size);
    forall k | 0 <= k < |h.tiles| + 1 ensures TileOk(SplitOff(h, i, size), k) {
      SplitTile(h, i, size, k);
    }
  }

  lemma SplitListed(h: Heap, i: nat, size: nat)
    requires HeapOk(h) && i < |h.tiles| && size + HEADER < Size(h, h.tiles[i])
    requires size > 0 && h.tiles[i] !in h.free && H(h, h.tiles[i]).next == 0
    ensures Listed(SplitOff(h, i, size)) && h.tiles[i] + HEADER + size !in h.free
  {
    var n := h.tiles[i] + HEADER + size;
    NewInside(h, i, n);
    InsertedMembers(h.tiles, i + 1, n);
    SplitHeaders(h, i, size);
    forall j | 0 <= j < |h.free| ensures NodeOk(SplitOff(h, i, size), j) && h.free[j] != n {
      assert NodeOk(h, j);
    }
  }

  lemma NewInside(h: Heap, i: nat, n: nat)
    requires Tiled(h) && i < |h.tiles| && h.tiles[i] < n < EndOf(h, h.tiles[i])
    ensures n !in h.tiles
  {
    forall s | s in h.tiles ensures s != n {
      TileBounds(h, s);
      if s != h.tiles[i] {
        TilesApart(h, s, h.tiles[i]);
      }
    }
  }

  lemma InsertedMembers(s: seq<nat>, j: nat, x: nat)
    requires j <= |s|
    ensures forall y :: y in InsertAt(s, j, x) <==> y in s || y == x
  {
    assert s == s[..j] + s[j..];
  }

  lemma SplitTile(h: Heap, i: nat, size: nat, k: nat)
    requires Tiled(h) && i < |h.tiles| && size + HEADER < Size(h, h.tiles[i]) && size > 0 && size % 8 == 0
    requires H(h, h.tiles[i]).next == 0 && k <= |h.tiles| && h.tiles[i] + HEADER + size !in h.tiles
    ensures TileOk(SplitOff(h, i, size), k)
  {
    TilesNoRepeats(h);
    SplitHeaders(h, i, size);
    assert TileOk(h, i);
    if k < i {
      assert TileOk(h, k);
    } else if k > i + 1 {
      assert TileOk(h, k - 1);
    }
  }

  // ----- linking -----

  /** Block b becomes the first of the free list. */
  ghost function Pushed(h: Heap, b: nat): Heap {
    var h1 := Led(WithFlag(h, b, 1), b, h.head);
    var h2 := if h.head != 0 then WithPrev(h1, h.head, b) else h1;
    h2.(head := b, free := [b] + h.free)
  }

  ghost function Led(h: Heap, b: nat, next: nat): Heap { WithPrev(WithNext(h, b, next), b, 0) }

  /** Putting a block on the free list keeps the list well linked, with the block in front. Every other
      block keeps its size and flag. */
  lemma PushKeeps(h: Heap, b: nat)
    requires HeapOk(h) && b in h.tiles && b !in h.free
    ensures HeapOk(Pushed(h, b))
    ensures Size(Pushed(h, b), b) == Size(h, b) && H(Pushed(h, b), b).isFree == 1
    ensures forall t :: t in h.tiles && t != b ==>
      Size(Pushed(h, b), t) == Size(h, t) && H(Pushed(h, b), t).isFree == H(h, t).isFree
    ensures forall t :: t in h.tiles && t != b && t !in h.free ==> H(Pushed(h, b), t) == H(h, t)
  {
    var h' := Pushed(h, b);
    TileBounds(h, b);
    if h.free != [] {
      assert NodeOk(h, 0);
      TileBounds(h, h.free[0]);
    }
    forall t | t in h.tiles ensures H(h', t).isFree <= 1 {
      TileBounds(h, t);
    }
    RelinkKeepsTiles(h, h');
    forall j | 0 <= j < |h'.free| ensures NodeOk(h', j) {
      if j > 0 {
        assert NodeOk(h, j - 1);
      }
    }
  }

  // ----- merging -----

  /** Listed block j takes over its successor on the list, which starts where it ends; i is its tile. */
  ghost function Merged(h: Heap, i: nat, j: nat): Heap
    requires j + 1 < |h.free| && i + 1 < |h.tiles|
  {
    Swallowed(h, h.free[j], H(h, h.free[j + 1])).(tiles := RemoveAt(h.tiles, i + 1), free := RemoveAt(h.free, j + 1))
  }

  /** Block a grows by the block with header d and takes over its link. */
  ghost function Swallowed(h: Heap, a: nat, d: Header): Heap {
    if d.next != 0 then WithPrev(Grown(h, a, d), d.next, a) else Grown(h, a, d)
  }

  ghost function Grown(h: Heap, a: nat, d: Header): Heap {
    WithNext(WithSize(h, a, Size(h, a) + HEADER + d.size), a, d.next)
  }

  ghost predicate Mergeable(h: Heap, i: nat, j: nat) {
    && j + 1 < |h.free| && i + 1 < |h.tiles|
    && h.tiles[i] == h.free[j] && h.tiles[i + 1] == h.free[j + 1]
  }

  /** A listed block that ends where its successor on the list starts has that successor as next tile. */
  lemma AdjacentTiles(h: Heap, j: nat) returns (i: nat)
    requires HeapOk(h) && j + 1 < |h.free| && EndOf(h, h.free[j]) == h.free[j + 1]
    ensures Mergeable(h, i, j)
  {
    assert NodeOk(h, j) && NodeOk(h, j + 1);
    i :| 0 <= i < |h.tiles| && h.tiles[i] == h.free[j];
    assert TileOk(h, i);
    TileBounds(h, h.free[j + 1]);
  }

  lemma MergeableLinks(h: Heap, i: nat, j: nat)
    requires HeapOk(h) && Mergeable(h, i, j)
    ensures H(h, h.free[j]).next == h.free[j + 1] == EndOf(h, h.free[j])
    ensures h.free[j] in h.tiles && h.free[j + 1] in h.tiles
  {
    assert NodeOk(h, j) && NodeOk(h, j + 1) && TileOk(h, i);
  }

  lemma MergedNode(h: Heap, i: nat, j: nat, k: nat)
    requires HeapOk(h) && Mergeable(h, i, j) && k < |h.free| - 1
    ensures var h' := Merged(h, i, j);
      var d := H(h', h'.free[k]);
      && d.isFree == 1
      && d.next == (if k + 1 < |h'.free| then h'.free[k + 1] else 0)
      && d.prev == (if k > 0 then h'.free[k - 1] else 0)
  {
    NodesNotNull(h);
    assert NodeOk(h, j) && NodeOk(h, j + 1) && (j + 2 < |h.free| ==> NodeOk(h, j + 2));
    assert NodeOk(h, if k <= j then k else k + 1);
  }

  lemma RemovedMember(s: seq<nat>, j: nat, y: nat)
    requires NoRepeats(s) && j < |s|
    ensures y in RemoveAt(s, j) <==> y in s && y != s[j]
  {
    if y in s && y != s[j] {
      var k :| 0 <= k < |s| && s[k] == y;
      assert RemoveAt(s, j)[if k < j then k else k - 1] == y;
    }
  }

  lemma MergedHeaders(h: Heap, i: nat, j: nat)
    requires HeapOk(h) && Mergeable(h, i, j)
    ensures forall t :: t in h.tiles && t !in h.free ==> H(Merged(h, i, j), t) == H(h, t)
    ensures Size(Merged(h, i, j), h.free[j]) == Size(h, h.free[j]) + HEADER + Size(h, h.free[j + 1])
    ensures forall t :: t in h.tiles && t != h.free[j] && t != h.free[j + 1] ==>
      Size(Merged(h, i, j), t) == Size(h, t) && H(Merged(h, i, j), t).isFree == H(h, t).isFree
  {
    NodesNotNull(h);
    assert NodeOk(h, j) && NodeOk(h, j + 1) && (j + 2 < |h.free| ==> NodeOk(h, j + 2));
  }

  lemma MergedTile(h: Heap, i: nat, j: nat, k: nat)
    requires HeapOk(h) && Mergeable(h, i, j) && k < |h.tiles| - 1
    ensures TileOk(Merged(h, i, j), k)
  {
    TilesNoRepeats(h);
    MergedHeaders(h, i, j);
    var k0 := if k <= i then k else k + 1;
    assert TileOk(h, i) && TileOk(h, i + 1) && TileOk(h, k0) && h.tiles[k0] in h.tiles;
    assert Merged(h, i, j).tiles[k] == h.tiles[k0];
  }

  lemma MergedMembers(h: Heap, i: nat, j: nat)
    requires HeapOk(h) && Mergeable(h, i, j)
    ensures forall t :: t in Merged(h, i, j).tiles <==> t in h.tiles && t != h.free[j + 1]
  {
    TilesNoRepeats(h);
    forall t ensures t in Merged(h, i, j).tiles <==> t in h.tiles && t != h.free[j + 1] {
      RemovedMember(h.tiles, i + 1, t);
    }
  }

  /** Merging keeps the tiling and the list. */
  lemma MergeKeeps(h: Heap, i: nat, j: nat)
    requires HeapOk(h) && Mergeable(h, i, j)
    ensures HeapOk(Merged(h, i, j))
  {
    var h' := Merged(h, i, j);
    MergedMembers(h, i, j);
    forall k | 0 <= k < |h'.tiles| ensures TileOk(h', k) {
      MergedTile(h, i, j, k);
    }
    forall k | 0 <= k < |h'.free| ensures NodeOk(h', k) {
      MergedNode(h, i, j, k);
      assert NodeOk(h, if k <= j then k else k + 1);
    }
  }

  // ----- growing -----

  /** The heap's end moves up and the new stretch becomes a block, not yet on the list. */
  ghost function Extended(h: Heap, end: nat): Heap
    requires end >= h.end + HEADER
  {
    h.(hdr := h.hdr[h.end := Header(end - h.end - HEADER, 1, 0, 0)], tiles := h.tiles + [h.end], end := end)
  }

  lemma ExtendKeeps(h: Heap, end: nat)
    requires HeapOk(h) && h.end % 8 == 0 && end % 8 == 0 && end > h.end + HEADER
    ensures HeapOk(Extended(h, end)) && h.end !in h.tiles && h.end !in h.free
    ensures forall t :: t in h.tiles ==> t in Extended(h, end).tiles && H(Extended(h, end), t) == H(h, t)
    ensures h.end in Extended(h, end).tiles
  {
    EndIsNew(h);
    var h' := Extended(h, end);
    assert h'.tiles[|h.tiles|] == h.end;
    forall i | 0 <= i < |h'.tiles| ensures TileOk(h', i) {
      if i < |h.tiles| {
        assert TileOk(h, i) && h.tiles[i] in h.tiles;
      }
    }
    forall j | 0 <= j < |h.free| ensures NodeOk(h', j) {
      assert NodeOk(h, j);
    }
  }

  lemma EndIsNew(h: Heap)
    requires HeapOk(h)
    ensures h.end !in h.tiles && h.end !in h.free
  {
    forall t | t in h.tiles ensures t != h.end {
      TileBounds(h, t);
    }
    forall j | 0 <= j < |h.free| ensures h.free[j] != h.end {
      assert NodeOk(h, j);
    }
  }
}
