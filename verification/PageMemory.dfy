/** Where page tables lie in memory. kernel/vmm.c writes and reads the directory and the tables through their physical
    addresses, which are addresses like those of the heap's bytes: what a store there changes depends on paging, and
    on whether the heap has grown over it. */
module PageMemory {
  import opened Bytes
  import opened FrameAllocator
  import opened PageTables
  import opened HeapBlocks
  import opened HeapPages
  import opened HeapCalls

  // ----- what an address stands for -----

  /** The frame behind an address, or a page fault. */
  datatype Place = In(frame: nat) | Fault

  /** With paging off the addresses of page p are those of frame p; with paging on the walk tells. */
  ghost function Leads(mem: seq<Table>, dir: nat, paging: bool, p: nat): Place
    requires TablesOk(mem, dir) && p < PAGES
  {
    if !paging then In(p)
    else if Lookup(mem, dir, p).present then In(Lookup(mem, dir, p).frame)
    else Fault
  }

  /** The kernel's 4 MB are mapped onto themselves, and other pages only to frames in use that hold no table. */
  ghost predicate PagingOk(mem: seq<Table>, dir: nat, used: set<nat>)
    requires TablesOk(mem, dir)
  {
    true == (
      && (forall q :: 0 <= q < ENTRIES ==> KernelPage(mem, dir, q))
      && (forall q :: ENTRIES <= q < PAGES && Lookup(mem, dir, q).present ==> PageBacked(mem, dir, used, q)))
  }

  ghost predicate KernelPage(mem: seq<Table>, dir: nat, q: nat)
    requires TablesOk(mem, dir) && q < PAGES
  {
    Lookup(mem, dir, q).present && Lookup(mem, dir, q).frame == q
  }

  /** The physical address of frame f stands for f itself, with paging off and on. */
  ghost predicate Reached(mem: seq<Table>, dir: nat, f: nat)
    requires TablesOk(mem, dir) && f < PAGES
  {
    Leads(mem, dir, false, f) == In(f) && Leads(mem, dir, true, f) == In(f)
  }

  /** A frame that holds a table, or a free one about to, is reached at its physical address exactly if it lies
      below 4 MB. */
  lemma TableReachedIff(mem: seq<Table>, dir: nat, used: set<nat>, f: nat)
    requires TablesOk(mem, dir) && PagingOk(mem, dir, used) && f < PAGES && (IsTableFrame(mem, dir, f) || f !in used)
    ensures Reached(mem, dir, f) <==> f < ENTRIES
  {
    if f < ENTRIES {
      assert KernelPage(mem, dir, f);
    } else if Lookup(mem, dir, f).present {
      assert PageBacked(mem, dir, used, f);
    }
  }

  /** What the paging structures ask of their frames is just that all of them are reached. */
  lemma SpaceOkIff(mem: seq<Table>, dir: nat, used: set<nat>)
    requires TablesOk(mem, dir) && PagingOk(mem, dir, used) && |mem| <= PAGES
    requires 0 in used && forall f :: f in used ==> f < |mem|
    requires forall f :: 0 <= f < |mem| && IsTableFrame(mem, dir, f) ==> f in used
    ensures SpaceOk(mem, dir, used) <==>
      forall f :: 0 <= f < |mem| && IsTableFrame(mem, dir, f) ==> Reached(mem, dir, f)
  {
    forall f | 0 <= f < |mem| && IsTableFrame(mem, dir, f) ensures Reached(mem, dir, f) <==> f < ENTRIES {
      TableReachedIff(mem, dir, used, f);
    }
  }

  /** Mapping a page above 4 MB to a frame in use that holds no table keeps addresses what they stand for. */
  lemma MapKeepsPaging(
      mem: seq<Table>, used: set<nat>, mem': seq<Table>, used': set<nat>, dir: nat, page: nat, frame: nat, flags: nat)
    requires SpaceOk(mem, dir, used) && SpaceOk(mem', dir, used') && ENTRIES <= page < PAGES
    requires MapEffect(mem, used, mem', used', dir, page, frame, flags)
    requires PagingOk(mem, dir, used) && frame in used && !IsTableFrame(mem, dir, frame)
    ensures PagingOk(mem', dir, used')
  {
    forall q | 0 <= q < ENTRIES ensures KernelPage(mem', dir, q) {
      assert KernelPage(mem, dir, q);
    }
    forall q | ENTRIES <= q < PAGES && Lookup(mem', dir, q).present ensures PageBacked(mem', dir, used', q) {
      assert q == page || PageBacked(mem, dir, used, q);
    }
  }

  lemma UnmapKeepsPaging(mem: seq<Table>, used: set<nat>, mem': seq<Table>, dir: nat, page: nat)
    requires SpaceOk(mem, dir, used) && SpaceOk(mem', dir, used) && ENTRIES <= page < PAGES
    requires UnmapEffect(mem, mem', dir, page) && PagingOk(mem, dir, used)
    ensures PagingOk(mem', dir, used)
  {
    forall q | 0 <= q < ENTRIES ensures KernelPage(mem', dir, q) {
      assert KernelPage(mem, dir, q);
    }
    forall q | ENTRIES <= q < PAGES && Lookup(mem', dir, q).present ensures PageBacked(mem', dir, used, q) {
      assert PageBacked(mem, dir, used, q);
    }
  }

  /** So does every page that the heap takes. */
  lemma RoundKeepsPaging(
      mem: seq<Table>, used: set<nat>, mem': seq<Table>, used': set<nat>, dir: nat, page: nat, f: nat)
    requires Round(mem, used, mem', used', dir, page, f) && ENTRIES <= page && PagingOk(mem, dir, used)
    ensures PagingOk(mem', dir, used')
  {
    forall q | ENTRIES <= q < PAGES && Lookup(mem, dir, q).present ensures PageBacked(mem, dir, used + {f}, q) {
      assert PageBacked(mem, dir, used, q);
    }
    MapKeepsPaging(mem, used + {f}, mem', used', dir, page, f, PAGE_PRESENT + PAGE_WRITABLE);
  }

  // ----- runs -----

  /** Setting up paging starts with addresses that stand for what they should. */
  lemma SetUpIsPagingOk(mem: seq<Table>, dir: nat, used: set<nat>)
    requires TablesOk(mem, dir)
    requires forall q :: 0 <= q < PAGES ==>
      Lookup(mem, dir, q) == if q < ENTRIES then Mapped(PAGE_PRESENT + PAGE_WRITABLE, q) else NO_ENTRY
    ensures PagingOk(mem, dir, used)
  {
  }

  /** A page taken for the heap, or one unmapped. */
  datatype Act = Take(page: nat, frame: nat) | Drop(page: nat)

  ghost predicate Acts(mem: seq<Table>, used: set<nat>, a: Act, mem': seq<Table>, used': set<nat>, dir: nat) {
    && SpaceOk(mem, dir, used) && SpaceOk(mem', dir, used') && ENTRIES <= a.page < PAGES && |mem'| == |mem|
    && match a
       case Take(page, frame) => Round(mem, used, mem', used', dir, page, frame)
       case Drop(page) => UnmapEffect(mem, mem', dir, page) && used' == used
  }

  ghost predicate PagingRun(mems: seq<seq<Table>>, useds: seq<set<nat>>, acts: seq<Act>, dir: nat) {
    && |mems| == |useds| == |acts| + 1 && |mems[0]| <= PAGES && SpaceOk(mems[0], dir, useds[0])
    && forall i {:trigger acts[i]} :: 0 <= i < |acts| ==>
         Acts(mems[i], useds[i], acts[i], mems[i + 1], useds[i + 1], dir)
  }

  lemma {:induction false} PagingOverRun(mems: seq<seq<Table>>, useds: seq<set<nat>>, acts: seq<Act>, dir: nat, n: nat)
    requires PagingRun(mems, useds, acts, dir) && PagingOk(mems[0], dir, useds[0]) && n <= |acts|
    ensures SpaceOk(mems[n], dir, useds[n]) && PagingOk(mems[n], dir, useds[n]) && |mems[n]| == |mems[0]|
  {
    if n > 0 {
      PagingOverRun(mems, useds, acts, dir, n - 1);
      assert Acts(mems[n - 1], useds[n - 1], acts[n - 1], mems[n - 1 + 1], useds[n - 1 + 1], dir);
      match acts[n - 1]
      case Take(page, frame) => RoundKeepsPaging(mems[n - 1], useds[n - 1], mems[n], useds[n], dir, page, frame);
      case Drop(page) => UnmapKeepsPaging(mems[n - 1], useds[n - 1], mems[n], dir, page);
    }
  }

  /** Over every run of pages taken and unmapped above 4 MB that keeps the tables below, the code finds the directory
      and every table at its physical address, with paging off and on, and no page above 4 MB leads to one. */
  lemma TablesReachedOverRun(
      mems: seq<seq<Table>>, useds: seq<set<nat>>, acts: seq<Act>, dir: nat, n: nat, f: nat, p: nat)
    requires PagingRun(mems, useds, acts, dir) && PagingOk(mems[0], dir, useds[0]) && n <= |acts|
    requires TablesOk(mems[n], dir) && f < |mems[n]| && IsTableFrame(mems[n], dir, f) && ENTRIES <= p < PAGES
    ensures f < PAGES && Reached(mems[n], dir, f)
    ensures Leads(mems[n], dir, false, p) != In(f) && Leads(mems[n], dir, true, p) != In(f)
  {
    PagingOverRun(mems, useds, acts, dir, n);
    TableReachedIff(mems[n], dir, useds[n], f);
    if Lookup(mems[n], dir, p).present {
      assert PageBacked(mems[n], dir, useds[n], p);
    }
  }

  // ----- tables among the bytes of memory -----

  /** The bytes of memory once those of a table, cleared or filled, are stored in frame f. */
  ghost function Stored(m: seq<byte>, f: nat, table: seq<byte>): (m': seq<byte>)
    requires (f + 1) * PAGE_SIZE <= |m| && |table| == PAGE_SIZE
    ensures |m'| == |m|
    ensures forall k :: 0 <= k < |m| ==>
      m'[k] == if f * PAGE_SIZE <= k < (f + 1) * PAGE_SIZE then table[k - f * PAGE_SIZE] else m[k]
  {
    m[..f * PAGE_SIZE] + table + m[(f + 1) * PAGE_SIZE..]
  }

  ghost predicate SameBytes(m: seq<byte>, m': seq<byte>, start: nat, end: nat) {
    |m'| == |m| && forall k :: start <= k < end && k < |m| ==> m'[k] == m[k]
  }

  /** Storing a table in frame f keeps all bytes from start to end, whatever they and the table are. */
  ghost predicate StoresKeep(f: nat, size: nat, start: nat, end: nat)
    requires (f + 1) * PAGE_SIZE <= size
  {
    forall m: seq<byte>, t: seq<byte> ::
      |m| == size && |t| == PAGE_SIZE ==> SameBytes(m, Stored(m, f, t), start, end)
  }

  /** It does exactly if the frame lies apart from them. */
  lemma StoresKeepIff(f: nat, size: nat, start: nat, end: nat)
    requires (f + 1) * PAGE_SIZE <= size && start < end <= size
    ensures StoresKeep(f, size, start, end) <==> end <= f * PAGE_SIZE || (f + 1) * PAGE_SIZE <= start
  {
    if f * PAGE_SIZE < end && start < (f + 1) * PAGE_SIZE {
      var m: seq<byte> := seq(size, _ => 1);
      var t: seq<byte> := seq(PAGE_SIZE, _ => 0);
      var k := if start < f * PAGE_SIZE then f * PAGE_SIZE else start;
      assert Stored(m, f, t)[k] != m[k];
      assert !SameBytes(m, Stored(m, f, t), start, end);
    }
  }

  /** A page needs a table and there is a frame for it. The code's stores into that frame reach it, with paging off
      and on, and no byte of a heap above 4 MB, exactly if the frame lies below 4 MB. */
  lemma NewTableReachedIff(mem: seq<Table>, dir: nat, used: set<nat>, page: nat, start: nat, end: nat)
    requires SpaceOk(mem, dir, used) && PagingOk(mem, dir, used) && |mem| <= PAGES
    requires page < PAGES && !HasTable(mem, dir, page) && FrameLeft(used, |mem|)
    requires ENTRIES * PAGE_SIZE <= start < end <= |mem| * PAGE_SIZE
    ensures
      var f := LowestFree(used, |mem|);
      Reached(mem, dir, f) && StoresKeep(f, |mem| * PAGE_SIZE, start, end) <==> CanReach(mem, used, dir, page)
  {
    var f := LowestFree(used, |mem|);
    TableReachedIff(mem, dir, used, f);
    StoresKeepIff(f, |mem| * PAGE_SIZE, start, end);
  }

  // ----- the shipped sizes -----

  const FRAMES := 0x200_0000 / PAGE_SIZE
  const KERNEL_FRAMES := 0x20_0000 / PAGE_SIZE
  const HEAP_PAGE := 0x40_0000 / PAGE_SIZE
  const LAST_PAGE := 0x80_0000 / PAGE_SIZE

  ghost predicate FirstFrames(used: set<nat>, n: nat) {
    forall f: nat :: f in used <==> f < n
  }

  /** The frames in use when the heap ends at page p: the kernel's, two for the directory and its first table, then one
      for each of the heap's pages and one for their table. */
  ghost function InUseAt(p: nat): nat
    requires HEAP_PAGE <= p
  {
    KERNEL_FRAMES + 2 + if p == HEAP_PAGE then 0 else p - HEAP_PAGE + 1
  }

  lemma NextOfFirst(used: set<nat>, n: nat, total: nat)
    requires FirstFrames(used, n) && n <= total
    ensures LowestFree(used, total) == n
  {
    assert n !in used;
  }

  lemma {:induction false} AfterFirst(used: set<nat>, n: nat, total: nat, k: nat)
    requires FirstFrames(used, n) && n + k <= total
    ensures FirstFrames(After(used, total, k), n + k) && NextFrame(used, total, k) == n + k
  {
    if k > 0 {
      AfterFirst(used, n, total, k - 1);
    }
    NextOfFirst(After(used, total, k), n + k, total);
  }

  /** The kernel's own tables, which vmm_init makes, lie below 4 MB. */
  lemma ShippedStart(used: set<nat>)
    requires FirstFrames(used, KERNEL_FRAMES)
    ensures FramesBelow(used, FRAMES, 2) && FirstFrames(After(used, FRAMES, 2), InUseAt(HEAP_PAGE))
  {
    AfterFirst(used, KERNEL_FRAMES, FRAMES, 0);
    AfterFirst(used, KERNEL_FRAMES, FRAMES, 1);
    AfterFirst(used, KERNEL_FRAMES, FRAMES, 2);
  }

  /** The heap ends at page p at or before 0x80_0000, and what it has is as counted. */
  ghost predicate Shipped(mem: seq<Table>, used: set<nat>, dir: nat, p: nat) {
    && |mem| == FRAMES && TablesOk(mem, dir) && HEAP_PAGE <= p <= LAST_PAGE && FirstFrames(used, InUseAt(p))
    && (TableAt(mem, dir, 1) <==> p > HEAP_PAGE) && !TableAt(mem, dir, 2)
  }

  lemma {:induction false} ShippedFrames(mem: seq<Table>, used: set<nat>, dir: nat, p: nat, count: nat)
    requires Shipped(mem, used, dir, p) && p + count <= LAST_PAGE
    ensures FramesNeeded(mem, dir, p, count) == InUseAt(p + count) - InUseAt(p)
    ensures forall i :: 0 <= i < count && TableMissing(mem, dir, p, i) ==> i == 0 && p == HEAP_PAGE
  {
    if count > 0 {
      ShippedFrames(mem, used, dir, p, count - 1);
      assert TableAt(mem, dir, 1) == HasTable(mem, dir, p + (count - 1));
    }
  }

  /** With the shipped sizes the heap's tables lie below 4 MB exactly as long as the heap ends at 0x80_0000 or below. */
  lemma ShippedGrowthReachedIff(mem: seq<Table>, used: set<nat>, dir: nat, p: nat, count: nat)
    requires Shipped(mem, used, dir, p) && p + count <= PAGES
    ensures TablesReached(mem, used, dir, p, count) <==> p + count <= LAST_PAGE
    ensures p + count <= LAST_PAGE ==>
      FirstFrames(After(used, FRAMES, FramesNeeded(mem, dir, p, count)), InUseAt(p + count))
  {
    if p + count <= LAST_PAGE {
      ShippedFrames(mem, used, dir, p, count);
      AfterFirst(used, InUseAt(p), FRAMES, FramesNeeded(mem, dir, p, count));
      if p == HEAP_PAGE && count > 0 {
        AfterFirst(used, InUseAt(p), FRAMES, 1);
        assert FramesNeeded(mem, dir, p, 0) == 0;
      }
    } else {
      ShippedTableAt(mem, used, dir, p);
      assert TableMissing(mem, dir, p, LAST_PAGE - p);
      assert !TableReached(mem, used, dir, p, LAST_PAGE - p);
    }
  }

  /** The page at 0x80_0000 gets frame 1539, and its table the frame at 0x60_4000, inside the heap. */
  lemma ShippedTableAt(mem: seq<Table>, used: set<nat>, dir: nat, p: nat)
    requires Shipped(mem, used, dir, p)
    ensures
      var n := FramesNeeded(mem, dir, p, LAST_PAGE - p);
      NextFrame(used, FRAMES, n) == 1539 && NextFrame(used, FRAMES, n + 1) == 1540
  {
    var n := LAST_PAGE - p;
    ShippedFrames(mem, used, dir, p, n);
    AfterFirst(used, InUseAt(p), FRAMES, FramesNeeded(mem, dir, p, n));
    AfterFirst(used, InUseAt(p), FRAMES, FramesNeeded(mem, dir, p, n) + 1);
  }

  /** A heap from 0x40_0000 to 0x80_0000 that is one block in use. */
  ghost function FullHeap(): Heap {
    var start := 0x40_0000;
    Heap(start, 0x80_0000, 0, [start], [], map[start := Header(start - HEADER, 0, 0, 0)])
  }

  /** A block in use around that frame keeps its bytes exactly if they are those of the table already; there are such
      blocks. */
  lemma ShippedTableOverwrites(h: Heap, m: seq<byte>, b: nat, table: seq<byte>)
    requires HeapOk(h) && Live(h, b) && b !in h.free && b <= 0x60_4000 && 0x60_5000 <= EndOf(h, b)
    requires |m| == FRAMES * PAGE_SIZE && |table| == PAGE_SIZE
    ensures 1540 * PAGE_SIZE == 0x60_4000
    ensures KeepsBytes(h, m, Stored(m, 1540, table), 0) <==> m[0x60_4000..0x60_5000] == table
    ensures HeapOk(FullHeap()) && Live(FullHeap(), 0x40_0000) && 0x40_0000 !in FullHeap().free
    ensures 0x60_5000 <= EndOf(FullHeap(), 0x40_0000)
  {
    TileBounds(h, b);
    var m' := Stored(m, 1540, table);
    if KeepsBytes(h, m, m', 0) {
      forall i | 0 <= i < PAGE_SIZE ensures m[0x60_4000..0x60_5000][i] == table[i] {
        assert m'[0x60_4000 + i] == m[0x60_4000 + i];
      }
    }
    if m[0x60_4000..0x60_5000] == table {
      forall k | 0 <= k < |m| ensures m'[k] == m[k] {
        assert 0x60_4000 <= k < 0x60_5000 ==> m[k] == m[0x60_4000..0x60_5000][k - 0x60_4000];
      }
    }
    assert TileOk(FullHeap(), 0);
  }
}
