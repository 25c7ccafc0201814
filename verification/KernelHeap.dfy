/** The kernel heap (kernel/heap.c): kmalloc, kfree and krealloc over the bytes of memory, with headers
    in band and page-wise growth. Addresses are indices into mem. */
module KernelHeap {
  import opened Bytes
  import opened HeapBlocks
  import opened HeapBytes
  import opened HeapSteps
  import opened HeapEffects
  import opened FrameAllocator
  import opened PageTables
  import opened HeapPages
  import opened HeapCalls
  import HeapCoalescing
  import opened HeapSpans

  class Allocator {
    const mem: array<byte>
    const heapStart: nat
    const initialSize: nat
    const heapMax: nat
    const space: AddressSpace
    var heapEnd: nat
    var freeListHead: nat
    var initialized: bool
    ghost var tiles: seq<nat>
    ghost var free: seq<nat>
    ghost var hdr: map<nat, Header>

    ghost function View(): Heap
      reads this
    {
      Heap(heapStart, heapEnd, freeListHead, tiles, free, hdr)
    }

    /** The header that the view gives block t is the one in memory. */
    ghost predicate Shows(t: nat)
      reads this, mem
    {
      t in hdr && t + HEADER <= mem.Length && Hdr(mem[..], t) == hdr[t]
    }

    ghost predicate AllShow()
      reads this, mem
    {
      && heapEnd <= mem.Length < U32
      && forall t :: t in tiles ==> Shows(t)
    }

    /** The invariant, as one fact for methods to pass on without looking inside. */
    ghost predicate Valid()
      reads this, mem
    {
      true == (HeapOk(View()) && AllShow())
    }

    /** The heap lies above the kernel's 4 MB, its limits lie on page boundaries and its memory reaches one page
        beyond the maximum. */
    ghost predicate Placed() {
      && ENTRIES * PAGE_SIZE <= heapStart <= heapMax && heapMax + PAGE_SIZE <= mem.Length < U32
      && heapStart % PAGE_SIZE == 0 && heapMax % PAGE_SIZE == 0
      && mem as object != space.mem as object && mem as object != space.frames.bitmap as object
    }

    /** Initialised, with its pages in an address space that works. */
    ghost predicate Ready()
      reads this, mem, space, space.mem, space.frames, space.frames.bitmap
    {
      true == (Valid() && initialized && Placed() && EndOk() && SpaceOk())
    }

    ghost predicate EndOk()
      reads this`heapEnd
    {
      heapEnd % PAGE_SIZE == 0 && heapEnd <= heapMax + PAGE_SIZE
    }

    ghost predicate SpaceOk()
      reads space, space.mem, space.frames, space.frames.bitmap
    {
      space.Valid(space.currentDirectory)
    }

    /** The heap's pages up to page hi are mapped, to distinct frames that hold no table. */
    ghost predicate Mapped(hi: nat)
      requires SpaceOk() && hi <= PAGES
      reads space, space.mem, space.frames, space.frames.bitmap
    {
      Backed(space.mem[..], space.currentDirectory, space.frames.Used(), heapStart / PAGE_SIZE, hi)
    }

    ghost predicate FrameIsLeft()
      requires SpaceOk()
      reads space, space.mem, space.frames, space.frames.bitmap
    {
      FrameLeft(space.frames.Used(), space.mem.Length)
    }

    /** There are frames for these pages, the last page's table aside. */
    ghost predicate CanTake(page: nat, count: nat)
      requires SpaceOk()
      reads space, space.mem, space.frames, space.frames.bitmap
    {
      page + count <= PAGES && CanTakePages(space.mem[..], space.frames.Used(), space.currentDirectory, page, count)
    }

    /** There are frames for these pages and for all the tables they need. */
    ghost predicate CanMap(page: nat, count: nat)
      requires SpaceOk()
      reads space, space.mem, space.frames, space.frames.bitmap
    {
      page + count <= PAGES && CanMapPages(space.mem[..], space.frames.Used(), space.currentDirectory, page, count)
    }

    /** The heap can be expanded for size bytes: below its maximum, and with frames for the pages. */
    ghost predicate CanGrow(size: nat)
      requires SpaceOk()
      reads this`heapEnd, space, space.mem, space.frames, space.frames.bitmap
    {
      heapEnd + size <= heapMax && CanTake(heapEnd / PAGE_SIZE, PagesFor(size))
    }

    /** With frames for their tables too. */
    ghost predicate GrowsMapped(size: nat)
      requires SpaceOk()
      reads this`heapEnd, space, space.mem, space.frames, space.frames.bitmap
    {
      CanMap(heapEnd / PAGE_SIZE, PagesFor(size))
    }

    /** The tables that these pages need will lie below 4 MB, where the heap is not. */
    ghost predicate TablesBelow(page: nat, count: nat)
      requires SpaceOk()
      reads space, space.mem, space.frames, space.frames.bitmap
    {
      page + count <= PAGES && TablesReached(space.mem[..], space.frames.Used(), space.currentDirectory, page, count)
    }

    /** So will those of an expansion for size bytes, if the maximum admits one. */
    ghost predicate GrowsBelow(size: nat)
      requires SpaceOk()
      reads this`heapEnd, space, space.mem, space.frames, space.frames.bitmap
    {
      true == (heapEnd + size <= heapMax ==> TablesBelow(heapEnd / PAGE_SIZE, PagesFor(size)))
    }

    /** So will those of an allocation of size bytes, if no listed block fits. */
    ghost predicate AllocatesBelow(size: nat)
      requires SpaceOk()
      reads this, space, space.mem, space.frames, space.frames.bitmap
    {
      true == (HasFit(View(), size) || GrowsBelow(size))
    }

    constructor (size: nat, heapStart: nat, initialSize: nat, heapMax: nat, space: AddressSpace)
      ensures this.heapStart == heapStart && this.heapMax == heapMax && this.space == space
      ensures this.initialSize == initialSize
      ensures fresh(mem) && mem.Length == size && !initialized && heapEnd == freeListHead == 0
    {
      this.heapStart, this.initialSize, this.heapMax, this.space := heapStart, initialSize, heapMax, space;
      mem := new byte[size](_ => 0);
      heapEnd, freeListHead, initialized := 0, 0, false;
      tiles, free, hdr := [], [], map[];
    }

    // ----- header fields -----

    method StoreWord(a: nat, x: nat)
      requires a + 4 <= mem.Length && x < U32
      modifies mem
      ensures Word(mem[..], a) == x
      ensures forall k :: 0 <= k < mem.Length && !(a <= k < a + 4) ==> mem[k] == old(mem[k])
      ensures forall b: nat :: b + 4 <= a || a + 4 <= b ==> Word(mem[..], b) == Word(old(mem[..]), b)
    {
      ghost var m := mem[..];
      var b := PutU32(x);
      mem[a], mem[a + 1], mem[a + 2], mem[a + 3] := b[0], b[1], b[2], b[3];
      U32RoundTrip(x);
      assert mem[..][a..a + 4] == b;
      forall c: nat | c + 4 <= a || a + 4 <= c ensures Word(mem[..], c) == Word(m, c) {
        SameWord(m, mem[..], c);
      }
    }

    method SetNext(t: nat, x: nat)
      requires Shows(t) && x < U32
      modifies this`hdr, mem
      ensures View() == WithNext(old(View()), t, x)
      ensures OnlyHeader(old(mem[..]), mem[..], t)
      ensures Shows(t) && forall s: nat :: old(Shows(s)) && (s + HEADER <= t || t + HEADER <= s) ==> Shows(s)
      ensures old(AllShow()) && HeadersApart(tiles, t) ==> AllShow()
    {
      ghost var m := mem[..];
      StoreWord(t + 8, x);
      hdr := hdr[t := hdr[t].(next := x)];
      OtherHeaders(m, mem[..], t);
    }

    method SetPrev(t: nat, x: nat)
      requires Shows(t) && x < U32
      modifies this`hdr, mem
      ensures View() == WithPrev(old(View()), t, x)
      ensures OnlyHeader(old(mem[..]), mem[..], t)
      ensures Shows(t) && forall s: nat :: old(Shows(s)) && (s + HEADER <= t || t + HEADER <= s) ==> Shows(s)
      ensures old(AllShow()) && HeadersApart(tiles, t) ==> AllShow()
    {
      ghost var m := mem[..];
      StoreWord(t + 12, x);
      hdr := hdr[t := hdr[t].(prev := x)];
      OtherHeaders(m, mem[..], t);
    }

    method SetFree(t: nat, x: nat)
      requires Shows(t) && x < U32
      modifies this`hdr, mem
      ensures View() == WithFlag(old(View()), t, x)
      ensures OnlyHeader(old(mem[..]), mem[..], t)
      ensures Shows(t) && forall s: nat :: old(Shows(s)) && (s + HEADER <= t || t + HEADER <= s) ==> Shows(s)
      ensures old(AllShow()) && HeadersApart(tiles, t) ==> AllShow()
    {
      ghost var m := mem[..];
      StoreWord(t + 4, x);
      hdr := hdr[t := hdr[t].(isFree := x)];
      OtherHeaders(m, mem[..], t);
    }

    method SetSize(t: nat, x: nat)
      requires Shows(t) && x < U32
      modifies this`hdr, mem
      ensures View() == WithSize(old(View()), t, x)
      ensures OnlyHeader(old(mem[..]), mem[..], t)
      ensures Shows(t) && forall s: nat :: old(Shows(s)) && (s + HEADER <= t || t + HEADER <= s) ==> Shows(s)
      ensures old(AllShow()) && HeadersApart(tiles, t) ==> AllShow()
    {
      ghost var m := mem[..];
      StoreWord(t, x);
      hdr := hdr[t := hdr[t].(size := x)];
      OtherHeaders(m, mem[..], t);
    }

    // ----- the free list -----

    /** The first block of the list with room for size bytes; 0 if there is none. */
    method FindFreeBlock(size: nat) returns (block: nat, ghost j: nat)
      requires Valid()
      ensures block == 0 <==> !HasFit(View(), size)
      ensures block != 0 ==> j < |free| && block == free[j] && Size(View(), block) >= size
      ensures block != 0 ==> forall i :: 0 <= i < j ==> Size(View(), free[i]) < size
    {
      block := freeListHead;
      j := 0;
      NodesNotNull(View());
      while block != 0
        invariant j <= |free| && block == if j < |free| then free[j] else 0
        invariant forall i :: 0 <= i < j ==> Size(View(), free[i]) < size
        decreases |free| - j
      {
        assert NodeOk(View(), j);
        if Hdr(mem[..], block).isFree != 0 && Hdr(mem[..], block).size >= size {
          return;
        }
        block := Hdr(mem[..], block).next;
        j := j + 1;
      }
    }

    method RemoveFromFreeList(block: nat, ghost j: nat)
      requires Valid() && j < |free| && free[j] == block
      modifies this`hdr, this`freeListHead, this`free, mem
      ensures View() == Unlinked(old(View()), j) && Valid()
      ensures OnlyListed(old(View()), old(mem[..]), mem[..])
    {
      ghost var h, m := View(), mem[..];
      UnlinkKeeps(h, j);
      Bypass(block, j);
      ghost var m1 := mem[..];
      assert NodeOk(h, j);
      TilesHeadersApart(h);
      ClearLinks(block);
      OnlyListedMore(h, m, m1, mem[..], j);
      free := RemoveAt(free, j);
    }

    method Bypass(block: nat, ghost j: nat)
      requires Valid() && j < |free| && free[j] == block
      modifies this`hdr, this`freeListHead, mem
      ensures View() == Bypassed(old(View()), block) && AllShow() && Shows(block)
      ensures OnlyListed(old(View()), old(mem[..]), mem[..])
    {
      ghost var h, m := View(), mem[..];
      NodesNotNull(h);
      assert NodeOk(h, j) && (j > 0 ==> NodeOk(h, j - 1)) && (j + 1 < |free| ==> NodeOk(h, j + 1));
      TilesHeadersApart(h);
      var prev, next := Hdr(mem[..], block).prev, Hdr(mem[..], block).next;
      HdrFits(mem[..], block);
      if prev != 0 {
        SetNext(prev, next);
        OnlyListedMore(h, m, m, mem[..], j - 1);
      } else {
        freeListHead := next;
      }
      ghost var m1 := mem[..];
      if next != 0 {
        SetPrev(next, prev);
        OnlyListedMore(h, m, m1, mem[..], j + 1);
      }
    }

    method ClearLinks(block: nat)
      requires AllShow() && Shows(block) && HeadersApart(tiles, block)
      modifies this`hdr, mem
      ensures View() == Cleared(old(View()), block) && AllShow() && Shows(block)
      ensures OnlyHeader(old(mem[..]), mem[..], block)
    {
      SetFree(block, 0);
      SetNext(block, 0);
      SetPrev(block, 0);
    }

    /** Pushes a block in front. The list stays in order if the block was not on it; if it was, the links are those
        that FreeingKeepsAListIff and CoalescingEndsIff are about. */
    method AddToFreeList(block: nat)
      requires Valid() && block in tiles
      modifies this`hdr, this`freeListHead, this`free, mem
      ensures View() == Pushed(old(View()), block) && AllShow()
      ensures block !in old(free) ==> Valid()
      ensures OnlyListed(View(), old(mem[..]), mem[..])
    {
      if block !in free {
        PushKeeps(View(), block);
      }
      PushInFront(block);
    }

    method PushInFront(block: nat)
      requires Valid() && block in tiles
      modifies this`hdr, this`freeListHead, this`free, mem
      ensures View() == Pushed(old(View()), block) && AllShow()
      ensures OnlyListed(View(), old(mem[..]), mem[..])
    {
      ghost var h, m := View(), mem[..];
      TilesHeadersApart(h);
      TileBounds(h, block);
      NodesNotNull(h);
      SetFree(block, 1);
      if freeListHead == 0 {
        SetLinks(block, 0);
        freeListHead := block;
        free := [block] + free;
        OnlyListedMore(View(), m, m, mem[..], 0);
        return;
      }
      assert NodeOk(h, 0);
      SetLinks(block, freeListHead);
      ghost var m1 := mem[..];
      SetPrev(freeListHead, block);
      freeListHead := block;
      free := [block] + free;
      OnlyListedMore(View(), m, m, m1, 0);
      OnlyListedMore(View(), m, m1, mem[..], 1);
    }

    /** Makes the block a first node with the given successor. */
    method SetLinks(block: nat, next: nat)
      requires AllShow() && Shows(block) && HeadersApart(tiles, block) && next < U32
      modifies this`hdr, mem
      ensures View() == Led(old(View()), block, next) && AllShow() && Shows(block)
      ensures OnlyHeader(old(mem[..]), mem[..], block)
    {
      SetNext(block, next);
      SetPrev(block, 0);
    }

    /** Writes a whole header at an address that no block's header overlaps. */
    method WriteHeader(n: nat, d: Header)
      requires AllShow() && n !in tiles && HeadersApart(tiles, n) && n + HEADER <= mem.Length && FieldsFit(d)
      modifies this`hdr, mem
      ensures View() == old(View()).(hdr := old(hdr)[n := d]) && AllShow() && Shows(n)
      ensures OnlyHeader(old(mem[..]), mem[..], n)
    {
      ghost var m := mem[..];
      StoreWord(n, d.size);
      StoreWord(n + 4, d.isFree);
      StoreWord(n + 8, d.next);
      StoreWord(n + 12, d.prev);
      hdr := hdr[n := d];
      OtherHeaders(m, mem[..], n);
    }

    /** Cuts the block at tile i down to size bytes if the rest is worth a block of its own. */
    method SplitBlock(block: nat, size: nat, ghost i: nat)
      requires Valid() && i < |tiles| && tiles[i] == block && block !in free
      requires size > 0 && size % 8 == 0 && H(View(), block).next == 0
      modifies this`hdr, this`tiles, mem
      ensures Valid()
      ensures old(Size(View(), block)) <= size + HEADER + 16 ==> View() == old(View()) && mem[..] == old(mem[..])
      ensures old(Size(View(), block)) > size + HEADER + 16 ==>
        View() == SplitOff(old(View()), i, size) && SplitDone(old(View()), i, size, View())
      ensures OnlyBlock(old(View()), old(mem[..]), mem[..], block)
    {
      assert Shows(block);
      if Hdr(mem[..], block).size <= size + HEADER + 16 {
        return;
      }
      Cut(block, size, i);
    }

    method Cut(block: nat, size: nat, ghost i: nat)
      requires Valid() && i < |tiles| && tiles[i] == block && block !in free
      requires size > 0 && size % 8 == 0 && H(View(), block).next == 0 && size + HEADER < Size(View(), block)
      modifies this`hdr, this`tiles, mem
      ensures Valid()
      ensures View() == SplitOff(old(View()), i, size) && SplitDone(old(View()), i, size, View())
      ensures OnlyBlock(old(View()), old(mem[..]), mem[..], block)
    {
      ghost var h := View();
      SplitKeeps(h, i, size);
      TileInHeap(h, i);
      TilesHeadersApart(h);
      WriteTail(block, size, i);
      ghost var h1 := View();
      assert h1 == WithTail(h, block, size);
      ShortenBlock(block, size, i);
      assert View() == SplitOff(h, i, size);
    }

    /** Writes the header of what is left of the block behind its first size bytes. */
    method WriteTail(block: nat, size: nat, ghost i: nat)
      requires Valid() && i < |tiles| && tiles[i] == block && size + HEADER < Size(View(), block)
      modifies this`hdr, mem
      ensures View() == WithTail(old(View()), block, size) && AllShow() && Shows(block + HEADER + size)
      ensures OnlyHeader(old(mem[..]), mem[..], block + HEADER + size)
    {
      TileInHeap(View(), i);
      InsideApart(View(), i, block + HEADER + size);
      assert Shows(block);
      WriteHeader(block + HEADER + size,
        Header(Hdr(mem[..], block).size - size - HEADER, 1, Hdr(mem[..], block).next, block));
    }

    /** Links the block to its tail and gives it its new size. */
    method ShortenBlock(block: nat, size: nat, ghost i: nat)
      requires AllShow() && i < |tiles| && tiles[i] == block
      requires block + HEADER + size < U32 && HeadersApart(tiles, block)
      requires Shows(block + HEADER + size)
      modifies this`hdr, this`tiles, mem
      ensures View() == Shortened(old(View()), i, size) && AllShow()
      ensures OnlyHeader(old(mem[..]), mem[..], block)
    {
      SetNext(block, block + HEADER + size);
      SetSize(block, size);
      InsertedMembers(tiles, i + 1, block + HEADER + size);
      tiles := InsertAt(tiles, i + 1, block + HEADER + size);
    }

    // ----- coalescing -----

    /** The block current, node j of the list, swallows the next node, which starts where it ends. */
    method MergeNext(current: nat, ghost i: nat, ghost j: nat)
      requires Valid() && Mergeable(View(), i, j) && free[j] == current
      modifies this`hdr, this`tiles, this`free, mem
      ensures View() == Merged(old(View()), i, j) && Valid()
      ensures OnlyListed(old(View()), old(mem[..]), mem[..])
    {
      ghost var h := View();
      MergeKeeps(h, i, j);
      MergedMembers(h, i, j);
      MergeableLinks(h, i, j);
      assert Shows(current);
      var nextBlock := Hdr(mem[..], current).next;
      assert Shows(nextBlock);
      Swallow(current, Hdr(mem[..], nextBlock), j);
      tiles := RemoveAt(tiles, i + 1);
      free := RemoveAt(free, j + 1);
      assert View() == Merged(h, i, j);
    }

    method Swallow(current: nat, d: Header, ghost j: nat)
      requires Valid() && j + 1 < |free| && free[j] == current && d == H(View(), free[j + 1])
      requires EndOf(View(), current) == free[j + 1]
      modifies this`hdr, mem
      ensures View() == Swallowed(old(View()), current, d) && AllShow()
      ensures OnlyListed(old(View()), old(mem[..]), mem[..])
    {
      ghost var h, m := View(), mem[..];
      NodesNotNull(h);
      assert NodeOk(h, j) && NodeOk(h, j + 1) && (j + 2 < |free| ==> NodeOk(h, j + 2));
      TilesHeadersApart(h);
      TileBounds(h, free[j + 1]);
      HdrFits(mem[..], free[j + 1]);
      Grow(current, d);
      ghost var m1 := mem[..];
      OnlyListedMore(h, m, m, m1, j);
      if d.next != 0 {
        SetPrev(d.next, current);
        OnlyListedMore(h, m, m1, mem[..], j + 2);
      }
    }

    method Grow(current: nat, d: Header)
      requires AllShow() && Shows(current) && HeadersApart(tiles, current)
      requires Size(View(), current) + HEADER + d.size < U32 && d.next < U32
      modifies this`hdr, mem
      ensures View() == Grown(old(View()), current, d) && AllShow()
      ensures OnlyHeader(old(mem[..]), mem[..], current)
    {
      SetSize(current, Hdr(mem[..], current).size + HEADER + d.size);
      SetNext(current, d.next);
    }

    /** Walks the list and merges every node with the next one as long as that one starts where it ends. */
    method CoalesceFreeBlocks()
      requires Valid()
      modifies this`hdr, this`tiles, this`free, mem
      ensures Valid() && Absorbed(old(View()), View()) && Spans(View()) == Joined(Spans(old(View())))
      ensures OnlyListed(old(View()), old(mem[..]), mem[..])
    {
      ghost var h, m := View(), mem[..];
      var current := freeListHead;
      ghost var j := 0;
      JoiningStarts(h);
      while current != 0 && Hdr(mem[..], current).next != 0
        invariant Valid() && Absorbed(h, View()) && Joining(h, View(), j) && freeListHead == h.head && heapEnd == h.end
        invariant OnlyListed(h, m, mem[..])
        invariant AtNode(current, j)
        decreases |free| - j
      {
        NextNode(current, j);
        current, j := MergeOrStep(current, h, m, j);
      }
      LastNode(current, j);
      JoiningEnds(h, View(), j);
    }

    /** current is node j of the list, or null behind the last one. */
    ghost predicate AtNode(current: nat, j: nat)
      reads this`free
    {
      j <= |free| && current == if j < |free| then free[j] else 0
    }

    lemma NextNode(current: nat, j: nat)
      requires Valid() && AtNode(current, j) && current != 0 && Hdr(mem[..], current).next != 0
      ensures j + 1 < |free| && Hdr(mem[..], current).next == free[j + 1]
    {
      assert NodeOk(View(), j) && Shows(current);
    }

    lemma LastNode(current: nat, j: nat)
      requires Valid() && AtNode(current, j) && (current == 0 || Hdr(mem[..], current).next == 0)
      ensures j + 1 >= |free|
    {
      NodesNotNull(View());
      if j < |free| {
        assert NodeOk(View(), j) && Shows(current);
      }
    }

    /** One round of the walk that began in h with memory m. */
    method MergeOrStep(current: nat, ghost h: Heap, ghost m: seq<byte>, ghost j: nat) returns (rest: nat, ghost k: nat)
      requires Valid() && j + 1 < |free| && free[j] == current && Hdr(mem[..], current).next == free[j + 1]
      requires HeapOk(h) && Absorbed(h, View()) && Joining(h, View(), j) && OnlyListed(h, m, mem[..])
      modifies this`hdr, this`tiles, this`free, mem
      ensures Valid() && Absorbed(h, View()) && Joining(h, View(), k) && OnlyListed(h, m, mem[..])
      ensures AtNode(rest, k) && |free| - k < old(|free|) - j
      ensures View().hdr == HeapCoalescing.Round(old(View()), current).0.hdr
      ensures rest == HeapCoalescing.Round(old(View()), current).1
    {
      ghost var h1 := View();
      assert NodeOk(h1, j) && NodeOk(h1, j + 1) && Shows(current);
      var nextBlock := Hdr(mem[..], current).next;
      assert Shows(nextBlock);
      if current + HEADER + Hdr(mem[..], current).size == nextBlock && Hdr(mem[..], nextBlock).isFree != 0 {
        ghost var i := AdjacentTiles(h1, j);
        AbsorbOneMore(h, h1, i, j);
        JoinMerge(h, h1, i, j);
        MergeNext(current, i, j);
        return current, j;
      }
      JoinStep(h, h1, j);
      return nextBlock, j + 1;
    }

    // ----- growing -----

    /** Takes and maps count pages from an address on. */
    method GrowPages(from: nat, count: nat) returns (ok: bool)
      requires SpaceOk() && heapStart <= from && TablesBelow(from / PAGE_SIZE, count)
      modifies space.mem, space.frames, space.frames.bitmap
      ensures SpaceOk()
      ensures ok <==> old(CanTake(from / PAGE_SIZE, count))
      ensures !ok ==> !FrameIsLeft()
      ensures old(Mapped(from / PAGE_SIZE)) ==> Mapped(from / PAGE_SIZE)
      ensures ok && old(Mapped(from / PAGE_SIZE)) ==>
        (Mapped(from / PAGE_SIZE + count) <==> old(CanMap(from / PAGE_SIZE, count)))
    {
      ghost var lo := if Mapped(from / PAGE_SIZE) then heapStart / PAGE_SIZE else from / PAGE_SIZE;
      ghost var mem0, used0 := space.mem[..], space.frames.Used();
      ghost var n;
      ok, n := MapFreshPages(space, space.currentDirectory, from / PAGE_SIZE, count, lo);
      MappingBacks(mem0, used0, space.mem[..], space.frames.Used(), space.currentDirectory, lo, from / PAGE_SIZE, n);
    }

    /** Sets the heap up as one free block, whatever it held before. Without paging nothing happens; without a frame
        for every initial page the kernel panics. */
    method Init() returns (ok: bool)
      requires Placed() && 0 < initialSize <= heapMax - heapStart && initialSize % PAGE_SIZE == 0
      requires space.currentDirectory != 0 ==> SpaceOk() && TablesBelow(heapStart / PAGE_SIZE, initialSize / PAGE_SIZE)
      modifies this, mem, space.mem, space.frames, space.frames.bitmap
      ensures initialized == (ok || old(initialized))
      ensures space.currentDirectory == 0 ==> View() == old(View()) && mem[..] == old(mem[..])
      ensures ok ==> Ready() && View() == OneBlock(heapStart, initialSize)
      ensures ok <==> space.currentDirectory != 0 && old(CanTake(heapStart / PAGE_SIZE, initialSize / PAGE_SIZE))
      ensures ok ==> (Mapped(heapEnd / PAGE_SIZE) <==> old(CanMap(heapStart / PAGE_SIZE, initialSize / PAGE_SIZE)))
      ensures !ok ==> space.currentDirectory == 0 || (SpaceOk() && !FrameIsLeft())
    {
      if space.currentDirectory == 0 {
        return false;
      }
      heapEnd := heapStart + initialSize;
      ok := GrowPages(heapStart, initialSize / PAGE_SIZE);
      if !ok {
        return;
      }
      MakeFirstBlock();
      assert EndOk() by {
        InitialEnd(heapStart, initialSize);
      }
      initialized := true;
      assert Valid() && SpaceOk();
    }

    method MakeFirstBlock()
      requires Placed() && 0 < initialSize && initialSize % PAGE_SIZE == 0
      requires heapEnd == heapStart + initialSize <= heapMax
      modifies this`hdr, this`tiles, this`free, this`freeListHead, mem
      ensures Valid() && View() == OneBlock(heapStart, initialSize)
    {
      tiles, free, hdr := [], [], map[];
      WriteHeader(heapStart, Header(initialSize - HEADER, 1, 0, 0));
      freeListHead := heapStart;
      tiles, free := [heapStart], [heapStart];
      OneBlockOk(heapStart, initialSize);
    }

    /** Adds pages for at least minSize bytes behind the heap's end and puts them on the free list as one block. */
    method Expand(minSize: nat) returns (ok: bool)
      requires Ready() && 0 < minSize && heapEnd + minSize < U32 && GrowsBelow(minSize)
      modifies this`hdr, this`tiles, this`free, this`freeListHead, this`heapEnd, mem
      modifies space.mem, space.frames, space.frames.bitmap
      ensures Ready()
      ensures !ok ==> View() == old(View()) && mem[..] == old(mem[..])
      ensures !ok ==> old(heapEnd) + minSize > heapMax || !FrameIsLeft()
      ensures ok ==> old(heapEnd) + minSize <= heapMax && GrownBy(old(View()), View(), minSize)
      ensures ok ==> OnlyListed(View(), old(mem[..]), mem[..])
      ensures ok <==> old(CanGrow(minSize))
      ensures old(Mapped(heapEnd / PAGE_SIZE)) ==> (Mapped(heapEnd / PAGE_SIZE) <==> !ok || old(GrowsMapped(minSize)))
    {
      if heapEnd + minSize > heapMax {
        return false;
      }
      var neededSize;
      ok, neededSize := TakePages(minSize);
      if !ok {
        return;
      }
      PutBlock(neededSize);
    }

    /** The pages for an expansion that stays within the limit. */
    method TakePages(minSize: nat) returns (ok: bool, neededSize: nat)
      requires Ready() && 0 < minSize && heapEnd + minSize <= heapMax && GrowsBelow(minSize)
      modifies space.mem, space.frames, space.frames.bitmap
      ensures Ready() && neededSize == PagesFor(minSize) * PAGE_SIZE
      ensures heapEnd % 8 == 0 && neededSize % 8 == 0 && minSize + HEADER <= neededSize
      ensures (heapEnd + neededSize) % PAGE_SIZE == 0 && heapEnd + neededSize <= heapMax + PAGE_SIZE
      ensures ok <==> old(CanGrow(minSize))
      ensures !ok ==> !FrameIsLeft()
      ensures old(Mapped(heapEnd / PAGE_SIZE)) ==> Mapped(heapEnd / PAGE_SIZE)
      ensures ok && old(Mapped(heapEnd / PAGE_SIZE)) ==>
        (Mapped((heapEnd + neededSize) / PAGE_SIZE) <==> old(GrowsMapped(minSize)))
    {
      TileInHeap(View(), 0);
      PageAligned(heapEnd);
      neededSize := PagesFor(minSize) * PAGE_SIZE;
      GrowthInBounds(heapEnd, heapMax, minSize);
      ok := GrowPages(heapEnd, neededSize / PAGE_SIZE);
    }

    /** The next size bytes behind the heap's end become a block on the free list. */
    method PutBlock(size: nat)
      requires Valid() && heapEnd % 8 == 0 && size % 8 == 0 && size > HEADER && heapEnd + size <= mem.Length
      modifies this`hdr, this`tiles, this`free, this`freeListHead, this`heapEnd, mem
      ensures View() == Appended(old(View()), size) && Valid() && heapEnd == old(heapEnd) + size
      ensures OnlyListed(View(), old(mem[..]), mem[..])
    {
      ghost var h, m := View(), mem[..];
      var newBlock := heapEnd;
      AppendBlock(size);
      ghost var m1 := mem[..];
      assert Appended(h, size) == Pushed(View(), newBlock);
      AddToFreeList(newBlock);
      OnlyListedMore(View(), m, m, m1, 0);
    }

    /** Writes the header of a block that spans the next size bytes and moves the heap's end behind it. */
    method AppendBlock(size: nat)
      requires Valid() && heapEnd % 8 == 0 && size % 8 == 0 && size > HEADER && heapEnd + size <= mem.Length
      modifies this`hdr, this`tiles, this`heapEnd, mem
      ensures View() == Extended(old(View()), old(heapEnd) + size) && Valid()
      ensures old(heapEnd) in tiles && old(heapEnd) !in free
      ensures OnlyHeader(old(mem[..]), mem[..], old(heapEnd))
    {
      EndApart(View());
      ExtendKeeps(View(), heapEnd + size);
      WriteHeader(heapEnd, Header(size - HEADER, 1, 0, 0));
      tiles := tiles + [heapEnd];
      heapEnd := heapEnd + size;
    }

    // ----- the calls -----

    /** A fresh block for size bytes; 0 if the heap is not set up, the size is 0, or no listed block fits and the
        heap cannot grow. */
    method Kmalloc(size: nat) returns (ptr: nat)
      requires initialized ==>
        Ready() && heapEnd + size + 7 < U32 && (size > 0 ==> AllocatesBelow(Align8(size)))
      modifies this`hdr, this`tiles, this`free, this`freeListHead, this`heapEnd, mem
      modifies space.mem, space.frames, space.frames.bitmap
      ensures initialized ==> Ready()
      ensures !initialized || size == 0 ==> ptr == 0
      ensures ptr == 0 ==> View() == old(View()) && mem[..] == old(mem[..])
      ensures ptr == 0 && initialized && size > 0 ==>
        !HasFit(View(), Align8(size)) && (heapEnd + Align8(size) > heapMax || !FrameIsLeft())
      ensures ptr != 0 ==> Granted(old(View()), View(), old(mem[..]), mem[..], ptr, Align8(size))
      ensures initialized && size > 0 ==>
        (ptr == 0 <==> !old(HasFit(View(), Align8(size))) && !old(CanGrow(Align8(size))))
      ensures initialized && old(initialized ==> Mapped(heapEnd / PAGE_SIZE)) ==>
        (Mapped(heapEnd / PAGE_SIZE) <==>
           ptr == 0 || old(HasFit(View(), Align8(size))) || old(GrowsMapped(Align8(size))))
    {
      if !initialized {
        return 0;
      }
      if size == 0 {
        return 0;
      }
      ptr := Allocate(Align8(size));
    }

    /** The part of kmalloc behind its checks, for a size that is a multiple of 8. */
    method Allocate(need: nat) returns (ptr: nat)
      requires Ready() && need > 0 && need % 8 == 0 && heapEnd + need < U32 && AllocatesBelow(need)
      modifies this`hdr, this`tiles, this`free, this`freeListHead, this`heapEnd, mem
      modifies space.mem, space.frames, space.frames.bitmap
      ensures Ready()
      ensures ptr == 0 ==> View() == old(View()) && mem[..] == old(mem[..])
      ensures ptr == 0 ==> !HasFit(View(), need) && (heapEnd + need > heapMax || !FrameIsLeft())
      ensures ptr != 0 ==> Granted(old(View()), View(), old(mem[..]), mem[..], ptr, need)
      ensures ptr == 0 <==> !old(HasFit(View(), need)) && !old(CanGrow(need))
      ensures old(Mapped(heapEnd / PAGE_SIZE)) ==>
        (Mapped(heapEnd / PAGE_SIZE) <==> ptr == 0 || old(HasFit(View(), need)) || old(GrowsMapped(need)))
    {
      ghost var h, m := View(), mem[..];
      var block, j := FindOrGrow(need);
      if block == 0 {
        return 0;
      }
      PageAligned(h.end);
      ptr := Grant(block, need, j, h, m);
    }

    /** The block has been found; h and m are the heap and the memory before the search. */
    method Grant(block: nat, need: nat, ghost j: nat, ghost h: Heap, ghost m: seq<byte>) returns (ptr: nat)
      requires Valid() && j < |free| && free[j] == block && Size(View(), block) >= need && need > 0 && need % 8 == 0
      requires HeapOk(h) && h.end % 8 == 0 && Prepared(h, View(), m, mem[..], block, need)
      modifies this`hdr, this`tiles, this`free, this`freeListHead, mem
      ensures Valid() && ptr != 0 && Granted(h, View(), m, mem[..], ptr, need)
    {
      ghost var h1, m1 := View(), mem[..];
      ptr := TakeBlock(block, need, j);
      StagesGrant(h, h1, View(), m, m1, mem[..], block, need);
    }

    /** The first block that fits, after growing the heap if there is none. */
    method FindOrGrow(size: nat) returns (block: nat, ghost j: nat)
      requires Ready() && size > 0 && size % 8 == 0 && heapEnd + size < U32 && AllocatesBelow(size)
      modifies this`hdr, this`tiles, this`free, this`freeListHead, this`heapEnd, mem
      modifies space.mem, space.frames, space.frames.bitmap
      ensures Ready()
      ensures block == 0 ==> View() == old(View()) && mem[..] == old(mem[..])
      ensures block == 0 ==> !HasFit(View(), size) && (heapEnd + size > heapMax || !FrameIsLeft())
      ensures block != 0 ==> j < |free| && free[j] == block && Size(View(), block) >= size
      ensures block != 0 ==> Prepared(old(View()), View(), old(mem[..]), mem[..], block, size)
      ensures block == 0 <==> !old(HasFit(View(), size)) && !old(CanGrow(size))
      ensures old(Mapped(heapEnd / PAGE_SIZE)) ==>
        (Mapped(heapEnd / PAGE_SIZE) <==> block == 0 || old(HasFit(View(), size)) || old(GrowsMapped(size)))
    {
      ghost var h := View();
      block, j := FindFreeBlock(size);
      if block == 0 {
        var grown := Expand(size);
        if !grown {
          return;
        }
        PageAligned(h.end);
        NewBlockFits(h, View(), size);
        block, j := FindFreeBlock(size);
      }
    }

    /** Takes the found block off the list, cuts off what is not needed and answers the address of its payload. */
    method TakeBlock(block: nat, size: nat, ghost j: nat) returns (ptr: nat)
      requires Valid() && j < |free| && free[j] == block && size > 0 && size % 8 == 0 && Size(View(), block) >= size
      modifies this`hdr, this`tiles, this`free, this`freeListHead, mem
      ensures Valid() && ptr == block + HEADER && heapEnd == old(heapEnd) && block % 8 == 0
      ensures AllocEffect(old(View()), View(), block, size) && Size(View(), block) <= size + HEADER + 16
      ensures CutsOffRest(old(View()), View(), block, size)
      ensures TakesFromList(old(View()), View(), block)
      ensures KeepsBytes(old(View()), old(mem[..]), mem[..], 0)
    {
      ghost var h, m := View(), mem[..];
      UnlinkKeeps(h, j);
      UnlinkIsAlloc(h, j, size);
      UnlinkTakesFromList(h, j);
      ListedNotLive(h, block);
      TileBounds(h, block);
      RemoveFromFreeList(block, j);
      ghost var h1, m1 := View(), mem[..];
      UnlinkedHeaders(h, j);
      assert h1.tiles == h.tiles && Size(h1, block) == Size(h, block);
      ghost var i :| 0 <= i < |tiles| && tiles[i] == block;
      SplitBlock(block, size, i);
      CutsOffIff(h, h1, i, size, View());
      if View() != h1 {
        SplitIsAlloc(h, h1, i, size, View());
        SplitKeepsList(h, h1, i, size, View());
      }
      TakeKeepsBytes(h, m, m1, mem[..], h1, j);
      return block + HEADER;
    }

    /** Takes a block back: it joins the list and neighbouring listed blocks merge. Null and addresses outside the
        heap are ignored; anything else must be the payload of a live block. */
    method Kfree(ptr: nat)
      requires ptr < U32 && (initialized ==> Ready())
      requires Freeable(ptr) ==> Live(View(), BlockOf(ptr))
      modifies this`hdr, this`tiles, this`free, this`freeListHead, mem
      ensures initialized ==> Ready()
      ensures !old(Freeable(ptr)) ==> View() == old(View()) && mem[..] == old(mem[..])
      ensures old(Freeable(ptr)) ==> Freed(old(View()), View(), old(mem[..]), mem[..], BlockOf(ptr))
    {
      if ptr == 0 || !initialized {
        return;
      }
      var block := BlockOf(ptr);
      if block < heapStart || block >= heapEnd {
        return;
      }
      Release(block);
    }

    method Release(block: nat)
      requires Valid() && Live(View(), block)
      modifies this`hdr, this`tiles, this`free, this`freeListHead, mem
      ensures Valid() && Freed(old(View()), View(), old(mem[..]), mem[..], block)
    {
      ghost var h, m := View(), mem[..];
      LiveNotListed(h, block);
      AddToFreeList(block);
      ghost var m1 := mem[..];
      CoalesceFreeBlocks();
      StagesFree(h, block, View(), m, m1, mem[..]);
    }

    ghost predicate Freeable(ptr: nat)
      requires ptr < U32
      reads this
    {
      ptr != 0 && initialized && heapStart <= BlockOf(ptr) < heapEnd
    }

    /** Gives a block a new size. A block that is large enough stays; otherwise its payload moves to a new one.
        The state with both blocks live and the memory before and after the copy are answered too. */
    method Krealloc(ptr: nat, newSize: nat)
      returns (newPtr: nat, ghost mid: Heap, ghost m1: seq<byte>, ghost m2: seq<byte>)
      requires ptr < U32 && (initialized ==> Ready() && heapEnd + newSize + 7 < U32)
      requires newSize == 0 && Freeable(ptr) ==> Live(View(), BlockOf(ptr))
      requires newSize != 0 && ptr != 0 ==> initialized && ptr >= HEADER && Live(View(), ptr - HEADER)
      requires initialized && newSize > 0 && (ptr == 0 || newSize > Size(View(), ptr - HEADER)) ==>
        AllocatesBelow(Align8(newSize))
      modifies this`hdr, this`tiles, this`free, this`freeListHead, this`heapEnd, mem
      modifies space.mem, space.frames, space.frames.bitmap
      ensures initialized ==> Ready()
      ensures ptr == 0 && newPtr != 0 ==> Granted(old(View()), View(), old(mem[..]), mem[..], newPtr, Align8(newSize))
      ensures ptr != 0 && newSize == 0 ==> newPtr == 0
      ensures
        newSize > 0 && initialized && (ptr == 0 || newSize > old(Size(View(), ptr - HEADER))) ==>
        (newPtr == 0 <==> !old(HasFit(View(), Align8(newSize))) && !old(CanGrow(Align8(newSize))))
      ensures newSize == 0 && old(Freeable(ptr)) ==> Freed(old(View()), View(), old(mem[..]), mem[..], BlockOf(ptr))
      ensures newPtr == 0 && !(newSize == 0 && old(Freeable(ptr))) ==> View() == old(View()) && mem[..] == old(mem[..])
      ensures ptr != 0 && 0 < newSize <= old(Size(View(), ptr - HEADER)) ==>
        newPtr == ptr && View() == old(View()) && mem[..] == old(mem[..])
      ensures ptr != 0 && newPtr != 0 && newSize > old(Size(View(), ptr - HEADER)) ==>
        Reallocated(old(View()), mid, View(), old(mem[..]), m1, m2, mem[..], ptr, newPtr, newSize)
    {
      mid, m1, m2 := View(), mem[..], mem[..];
      if ptr == 0 {
        newPtr := Kmalloc(newSize);
        return;
      }
      newPtr := 0;
      if newSize == 0 {
        Kfree(ptr);
        return;
      }
      assert Shows(ptr - HEADER);
      if newSize <= Hdr(mem[..], ptr - HEADER).size {
        newPtr := ptr;
        return;
      }
      newPtr, mid, m1, m2 := MoveBlock(ptr, newSize);
    }

    /** The part of krealloc that moves the payload to a new block. */
    method MoveBlock(ptr: nat, newSize: nat)
      returns (newPtr: nat, ghost mid: Heap, ghost m1: seq<byte>, ghost m2: seq<byte>)
      requires ptr < U32 && Ready() && heapEnd + newSize + 7 < U32
      requires ptr >= HEADER && Live(View(), ptr - HEADER) && newSize > Size(View(), ptr - HEADER)
      requires AllocatesBelow(Align8(newSize))
      modifies this`hdr, this`tiles, this`free, this`freeListHead, this`heapEnd, mem
      modifies space.mem, space.frames, space.frames.bitmap
      ensures Ready()
      ensures newPtr == 0 ==> View() == old(View()) && mem[..] == old(mem[..])
      ensures newPtr == 0 <==> !old(HasFit(View(), Align8(newSize))) && !old(CanGrow(Align8(newSize)))
      ensures newPtr != 0 ==>
        Reallocated(old(View()), mid, View(), old(mem[..]), m1, m2, mem[..], ptr, newPtr, newSize)
    {
      ghost var h := View();
      newPtr := Kmalloc(newSize);
      mid, m1, m2 := View(), mem[..], mem[..];
      if newPtr == 0 {
        return;
      }
      BothLive(h, mid, ptr, newPtr, newSize);
      m2 := MovePayload(ptr, newPtr, newSize);
    }

    /** The new block is there: copies the payload and frees the old block. */
    method MovePayload(ptr: nat, newPtr: nat, newSize: nat) returns (ghost m2: seq<byte>)
      requires ptr < U32 && Ready() && HEADER <= ptr && HEADER <= newPtr != ptr
      requires Live(View(), ptr - HEADER) && Live(View(), newPtr - HEADER) && heapStart <= ptr - HEADER < heapEnd
      requires Size(View(), ptr - HEADER) < newSize && Size(View(), ptr - HEADER) <= Size(View(), newPtr - HEADER)
      modifies this`hdr, this`tiles, this`free, this`freeListHead, mem
      ensures Ready()
      ensures Copied(old(mem[..]), m2, newPtr, ptr, old(Size(View(), ptr - HEADER)))
      ensures Freed(old(View()), View(), m2, mem[..], ptr - HEADER)
    {
      var size := Hdr(mem[..], ptr - HEADER).size;
      assert Shows(ptr - HEADER);
      CopyPayload(newPtr, ptr, if size < newSize then size else newSize);
      m2 := mem[..];
      Kfree(ptr);
    }

    /** memcpy from one live block to another. */
    method CopyPayload(dst: nat, src: nat, count: nat)
      requires Valid() && dst >= HEADER && src >= HEADER && dst != src
      requires Live(View(), dst - HEADER) && Live(View(), src - HEADER)
      requires count <= Size(View(), dst - HEADER) && count <= Size(View(), src - HEADER)
      modifies mem
      ensures Valid() && Copied(old(mem[..]), mem[..], dst, src, count)
    {
      ghost var m := mem[..];
      TileBounds(View(), dst - HEADER);
      TileBounds(View(), src - HEADER);
      TilesApart(View(), dst - HEADER, src - HEADER);
      CopyBytes(dst, src, count);
      CopyKeepsHeaders(View(), m, mem[..], dst, src, count);
    }

    method CopyBytes(dst: nat, src: nat, count: nat)
      requires dst + count <= mem.Length && src + count <= mem.Length && (dst + count <= src || src + count <= dst)
      modifies mem
      ensures Copied(old(mem[..]), mem[..], dst, src, count)
    {
      for i := 0 to count
        invariant Copied(old(mem[..]), mem[..], dst, src, i)
      {
        mem[dst + i] := mem[src + i];
      }
    }

    // ----- statistics -----

    /** The walk over all blocks ends exactly at the heap's end and adds up the live ones. */
    method GetUsedSize() returns (used: nat)
      requires Valid()
      ensures used == Used(View())
    {
      used := 0;
      var current := heapStart;
      ghost var i := 0;
      while current < heapEnd
        invariant i <= |tiles| && current == if i < |tiles| then tiles[i] else heapEnd
        invariant used == UsedIn(View(), tiles[..i])
        decreases heapEnd - current
      {
        TileInHeap(View(), |tiles| - 1);
        assert TileOk(View(), i) && Shows(tiles[i]);
        assert tiles[..i + 1][..i] == tiles[..i];
        if Hdr(mem[..], current).isFree == 0 {
          used := used + HEADER + Hdr(mem[..], current).size;
        }
        current := current + HEADER + Hdr(mem[..], current).size;
        i := i + 1;
      }
      if i < |tiles| {
        TileInHeap(View(), i);
      }
      assert tiles[..i] == tiles;
    }
  }
}
