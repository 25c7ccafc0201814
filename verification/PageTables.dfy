/** The virtual memory manager (kernel/vmm.c): two-level page tables whose directory and tables live in
    frames of the frame allocator. */
module PageTables {
  import opened FrameAllocator

  const ENTRIES := 1024
  const PAGES := 0x10_0000

  const PAGE_PRESENT := 1
  const PAGE_WRITABLE := 2

  /** The bits of a directory or table entry that the code uses; frame is the frame number. */
  datatype Entry = Entry(present: bool, writable: bool, user: bool, frame: nat)
  type Table = seq<Entry>

  const NO_ENTRY := Entry(false, false, false, 0)

  predicate FlagPresent(flags: nat) { flags % 2 == 1 }
  predicate FlagWritable(flags: nat) { (flags / 2) % 2 == 1 }
  predicate FlagUser(flags: nat) { (flags / 4) % 2 == 1 }

  // ----- physical memory seen as tables -----

  /** The entry that the two-level walk finds for a page; none if the page has no table. */
  ghost function Lookup(mem: seq<Table>, dir: nat, page: nat): Entry
    requires TablesOk(mem, dir)
    requires page < PAGES
  {
    var d := mem[dir][page / ENTRIES];
    if d.present then mem[d.frame][page % ENTRIES] else NO_ENTRY
  }

  // TablesOk, SpaceOk and Valid are compared with true so that they are handed on as one fact each.

  /** The directory and its tables are distinct frames of memory. */
  ghost predicate TablesOk(mem: seq<Table>, dir: nat) {
    true == (
      && 0 < dir < |mem|
      && (forall f :: 0 <= f < |mem| ==> |mem[f]| == ENTRIES)
      && (forall i :: 0 <= i < ENTRIES && mem[dir][i].present ==>
           0 < mem[dir][i].frame < |mem| && mem[dir][i].frame != dir)
      && (forall i, j :: 0 <= i < j < ENTRIES && mem[dir][i].present && mem[dir][j].present ==>
           mem[dir][i].frame != mem[dir][j].frame))
  }

  /** f holds the directory or one of its tables. */
  ghost predicate IsTableFrame(mem: seq<Table>, dir: nat, f: nat)
    requires TablesOk(mem, dir)
  {
    f == dir || exists i :: 0 <= i < ENTRIES && mem[dir][i].present && mem[dir][i].frame == f
  }

  /** Page tables that the frame allocator knows to be in use; frame 0 is never handed out. The code reads and
      writes the directory and the tables through their physical addresses, so they have to lie below 4 MB, where
      an address means the same with paging off and on and is no address of the heap (see PageMemory). */
  ghost predicate SpaceOk(mem: seq<Table>, dir: nat, used: set<nat>) {
    true == (
      && TablesOk(mem, dir)
      && 0 in used
      && (forall f :: f in used ==> f < |mem|)
      && (forall f :: 0 <= f < |mem| && IsTableFrame(mem, dir, f) ==> f in used && f < ENTRIES))
  }

  /** Part i of the directory has a table. */
  ghost predicate TableAt(mem: seq<Table>, dir: nat, i: nat)
    requires TablesOk(mem, dir) && i < ENTRIES
  {
    mem[dir][i].present
  }

  ghost predicate HasTable(mem: seq<Table>, dir: nat, page: nat)
    requires TablesOk(mem, dir) && page < PAGES
  {
    mem[dir][page / ENTRIES].present
  }

  /** The next n frames to be handed out, as far as there are any, lie below 4 MB. */
  ghost predicate FramesBelow(used: set<nat>, total: nat, n: nat) {
    forall k :: 0 <= k < n ==> NextFrame(used, total, k) == total || NextFrame(used, total, k) < ENTRIES
  }

  ghost predicate FrameLeft(used: set<nat>, total: nat) {
    LowestFree(used, total) < total
  }

  /** The page has a table, or its table will lie below 4 MB, or there is no frame for one. */
  ghost predicate CanReach(mem: seq<Table>, used: set<nat>, dir: nat, page: nat)
    requires TablesOk(mem, dir) && page < PAGES
  {
    HasTable(mem, dir, page) || !FrameLeft(used, |mem|) || LowestFree(used, |mem|) < ENTRIES
  }

  ghost function EmptyTable(): Table {
    seq(ENTRIES, _ => NO_ENTRY)
  }

  // ----- the effect of mapping -----

  /** Creating the table for a page in the free frame f. */
  ghost function WithTable(mem: seq<Table>, dir: nat, page: nat, f: nat): seq<Table>
    requires TablesOk(mem, dir) && page < PAGES && f < |mem| && f != dir
  {
    mem[f := EmptyTable()][dir := mem[dir][page / ENTRIES := Entry(true, true, true, f)]]
  }

  lemma NewTableFrames(mem: seq<Table>, dir: nat, used: set<nat>, page: nat, f: nat)
    requires SpaceOk(mem, dir, used) && page < PAGES && !HasTable(mem, dir, page)
    requires f < |mem| && f !in used
    ensures TablesOk(WithTable(mem, dir, page, f), dir) && HasTable(WithTable(mem, dir, page, f), dir, page)
    ensures forall i :: 0 <= i < ENTRIES && i != page / ENTRIES ==> WithTable(mem, dir, page, f)[dir][i] == mem[dir][i]
    ensures forall g :: 0 <= g < |mem| ==>
      (IsTableFrame(WithTable(mem, dir, page, f), dir, g) <==> g == f || IsTableFrame(mem, dir, g))
  {
    var mem': seq<Table> := WithTable(mem, dir, page, f);
    var k := page / ENTRIES;
    forall i | 0 <= i < ENTRIES && mem[dir][i].present ensures mem[dir][i].frame != f {
      assert IsTableFrame(mem, dir, mem[dir][i].frame);
    }
    assert IsTableFrame(mem, dir, dir);
    assert mem'[dir][k] == Entry(true, true, true, f);
    forall g | 0 <= g < |mem| && IsTableFrame(mem, dir, g) ensures IsTableFrame(mem', dir, g) {
      if g != dir {
        var i :| 0 <= i < ENTRIES && mem[dir][i].present && mem[dir][i].frame == g;
        assert mem'[dir][i] == mem[dir][i];
      }
    }
    forall g | 0 <= g < |mem| && IsTableFrame(mem', dir, g) ensures g == f || IsTableFrame(mem, dir, g) {
      if g != dir {
        var i :| 0 <= i < ENTRIES && mem'[dir][i].present && mem'[dir][i].frame == g;
        assert i == k || mem[dir][i] == mem'[dir][i];
      }
    }
  }

  /** A new table in a fresh frame changes no translation. */
  lemma NewTableKeepsLookups(mem: seq<Table>, dir: nat, used: set<nat>, page: nat, f: nat)
    requires SpaceOk(mem, dir, used) && page < PAGES && !HasTable(mem, dir, page)
    requires f < |mem| && f < ENTRIES && f !in used
    ensures SpaceOk(WithTable(mem, dir, page, f), dir, used + {f})
    ensures SameLookups(mem, WithTable(mem, dir, page, f), dir)
  {
    var mem': seq<Table> := WithTable(mem, dir, page, f);
    NewTableFrames(mem, dir, used, page, f);
    forall q | 0 <= q < PAGES ensures Lookup(mem', dir, q) == Lookup(mem, dir, q) {
      var i := q / ENTRIES;
      if mem[dir][i].present {
        assert IsTableFrame(mem, dir, mem[dir][i].frame);
        assert i != page / ENTRIES && mem'[dir][i] == mem[dir][i];
      }
    }
  }

  /** Writing the entry of a page that has a table. */
  ghost function WithEntry(mem: seq<Table>, dir: nat, page: nat, e: Entry): seq<Table>
    requires TablesOk(mem, dir) && page < PAGES && HasTable(mem, dir, page)
  {
    var t := mem[dir][page / ENTRIES].frame;
    mem[t := mem[t][page % ENTRIES := e]]
  }

  /** Writing one page's entry changes the translation of that page and of no other. */
  lemma EntryChangesOnePage(mem: seq<Table>, dir: nat, used: set<nat>, page: nat, e: Entry)
    requires SpaceOk(mem, dir, used) && page < PAGES && HasTable(mem, dir, page)
    ensures SpaceOk(WithEntry(mem, dir, page, e), dir, used)
    ensures forall q :: 0 <= q < PAGES ==>
      Lookup(WithEntry(mem, dir, page, e), dir, q) == if q == page then e else Lookup(mem, dir, q)
    ensures forall g :: 0 <= g < |mem| ==>
      (IsTableFrame(WithEntry(mem, dir, page, e), dir, g) <==> IsTableFrame(mem, dir, g))
  {
    var mem': seq<Table> := WithEntry(mem, dir, page, e);
    assert mem'[dir] == mem[dir];
    forall q | 0 <= q < PAGES
      ensures Lookup(mem', dir, q) == if q == page then e else Lookup(mem, dir, q)
    {
      var i, j := q / ENTRIES, page / ENTRIES;
      if i != j && mem[dir][i].present {
        assert mem[dir][i].frame != mem[dir][j].frame;
      }
    }
  }

  /** What mapping, unmapping and translating are about: the finite map from pages to entries. */
  ghost predicate SameLookups(mem: seq<Table>, mem': seq<Table>, dir: nat)
    requires TablesOk(mem, dir) && TablesOk(mem', dir)
  {
    forall q :: 0 <= q < PAGES ==> Lookup(mem', dir, q) == Lookup(mem, dir, q)
  }

  /** Mapping page to frame under flags succeeds when the page has a table or a frame is left for one;
      it then sets that page's entry and no other. Otherwise nothing changes. */
  ghost predicate MapEffect(
      mem: seq<Table>, used: set<nat>, mem': seq<Table>, used': set<nat>, dir: nat, page: nat, frame: nat, flags: nat)
    requires SpaceOk(mem, dir, used) && SpaceOk(mem', dir, used') && page < PAGES
  {
    && |mem'| == |mem|
    && (if HasTable(mem, dir, page) then used' == used else used' == AllocFrame(used, |mem|).0)
    && (if HasTable(mem, dir, page) || FrameLeft(used, |mem|) then
          && HasTable(mem', dir, page)
          && forall q :: 0 <= q < PAGES ==>
               Lookup(mem', dir, q) == if q == page then Mapped(flags, frame) else Lookup(mem, dir, q)
        else mem' == mem)
    && (forall f :: 0 <= f < |mem| && !IsTableFrame(mem', dir, f) ==> mem'[f] == mem[f])
    && (forall f :: 0 <= f < |mem| ==>
         (IsTableFrame(mem', dir, f) <==> IsTableFrame(mem, dir, f) || (f in used' && f !in used)))
  }

  /** At most the page's own part of the directory has got a table. */
  ghost predicate OtherPartsSame(mem: seq<Table>, mem': seq<Table>, dir: nat, page: nat)
    requires TablesOk(mem, dir) && TablesOk(mem', dir) && page < PAGES
  {
    true == (forall i :: 0 <= i < ENTRIES && i != page / ENTRIES ==> TableAt(mem', dir, i) == TableAt(mem, dir, i))
  }

  /** Unmapping clears the page's entry, if it has one, and no other. */
  ghost predicate UnmapEffect(mem: seq<Table>, mem': seq<Table>, dir: nat, page: nat)
    requires TablesOk(mem, dir) && TablesOk(mem', dir) && page < PAGES
  {
    && |mem'| == |mem|
    && (forall q :: 0 <= q < PAGES ==>
         Lookup(mem', dir, q) ==
           if q == page && HasTable(mem, dir, page) then Lookup(mem, dir, q).(present := false, frame := 0)
           else Lookup(mem, dir, q))
    && (forall f :: 0 <= f < |mem| ==> (IsTableFrame(mem', dir, f) <==> IsTableFrame(mem, dir, f)))
  }

  ghost function Mapped(flags: nat, frame: nat): Entry {
    Entry(FlagPresent(flags), FlagWritable(flags), FlagUser(flags), frame)
  }

  /** The answer of vmm_get_physical_address. */
  ghost function Translate(mem: seq<Table>, dir: nat, address: nat): nat
    requires TablesOk(mem, dir) && address < PAGES * PAGE_SIZE
  {
    var e := Lookup(mem, dir, address / PAGE_SIZE);
    if e.present then e.frame * PAGE_SIZE + address % PAGE_SIZE else 0
  }

  class AddressSpace {
    const frames: PageFrames
    const mem: array<Table>
    var currentDirectory: nat

    ghost predicate Valid(dir: nat)
      reads this, mem, frames, frames.bitmap
    {
      true == (
        && frames.Valid() && frames.totalPages == mem.Length && frames.bitmap as object != mem as object
        && SpaceOk(mem[..], dir, frames.Used()))
    }

    /** The paging structures before vmm_init: no directory yet. */
    constructor (frames: PageFrames)
      requires frames.Valid()
      ensures this.frames == frames && fresh(mem) && mem.Length == frames.totalPages && currentDirectory == 0
      ensures forall f :: 0 <= f < mem.Length ==> |mem[f]| == ENTRIES
    {
      this.frames := frames;
      mem := new Table[frames.totalPages](_ => seq(ENTRIES, _ => NO_ENTRY));
      currentDirectory := 0;
    }

    /** The frame of the table for a page, created on demand; 0 when there is none. */
    method GetPageTable(dir: nat, page: nat, create: bool) returns (table: nat)
      requires Valid(dir) && page < PAGES && (create ==> CanReach(mem[..], frames.Used(), dir, page))
      modifies mem, frames, frames.bitmap
      ensures Valid(dir)
      ensures
        var mem0, used0 := old(mem[..]), old(frames.Used());
        if HasTable(mem0, dir, page) then
          table == mem0[dir][page / ENTRIES].frame && mem[..] == mem0 && frames.Used() == used0
        else if create && FrameLeft(used0, |mem0|) then
          && table == LowestFree(used0, |mem0|) && table !in used0
          && mem[..] == WithTable(mem0, dir, page, table) && frames.Used() == used0 + {table}
        else table == 0 && mem[..] == mem0 && frames.Used() == used0
      ensures table != 0 ==> HasTable(mem[..], dir, page) && table == mem[dir][page / ENTRIES].frame
    {
      var dirIndex := page / ENTRIES;
      ghost var mem0, used0 := mem[..], frames.Used();
      if !mem[dir][dirIndex].present {
        if !create {
          return 0;
        }
        var phys := frames.AllocPage();
        if phys == 0 {
          return 0;
        }
        table := phys / PAGE_SIZE;
        assert table == LowestFree(used0, |mem0|) && table !in used0;
        NewTableKeepsLookups(mem0, dir, used0, page, table);
        NewTableFrames(mem0, dir, used0, page, table);
        mem[table] := seq(ENTRIES, _ => NO_ENTRY);
        mem[dir] := mem[dir][dirIndex := Entry(true, true, true, table)];
        assert mem[..] == WithTable(mem0, dir, page, table);
        return;
      }
      assert IsTableFrame(mem0, dir, mem0[dir][dirIndex].frame);
      return mem[dir][dirIndex].frame;
    }

    /** Maps one page. Without a table for it, and no frame left for one, nothing happens. */
    method MapPage(dir: nat, address: nat, phys: nat, flags: nat)
      requires Valid(dir) && address < PAGES * PAGE_SIZE && CanReach(mem[..], frames.Used(), dir, address / PAGE_SIZE)
      modifies mem, frames, frames.bitmap
      ensures Valid(dir)
      ensures MapEffect(old(mem[..]), old(frames.Used()), mem[..], frames.Used(), dir,
                        address / PAGE_SIZE, phys / PAGE_SIZE, flags)
      ensures OtherPartsSame(old(mem[..]), mem[..], dir, address / PAGE_SIZE)
    {
      ghost var mem0, used0 := mem[..], frames.Used();
      var page := address / PAGE_SIZE;
      var table := GetPageTable(dir, page, true);
      if table == 0 {
        return;
      }
      ghost var mem1 := mem[..];
      ghost var made := !HasTable(mem0, dir, page);
      if made {
        NewTableKeepsLookups(mem0, dir, used0, page, table);
        NewTableFrames(mem0, dir, used0, page, table);
      }
      var index := page % ENTRIES;
      ghost var e := Mapped(flags, phys / PAGE_SIZE);
      var entry := Entry(FlagPresent(flags), FlagWritable(flags), FlagUser(flags), phys / PAGE_SIZE);
      mem[table] := mem[table][index := entry];
      EntryChangesOnePage(mem1, dir, frames.Used(), page, e);
      assert mem[..] == WithEntry(mem1, dir, page, e);
      MapIsEffect(mem0, used0, mem1, frames.Used(), dir, page, table, e);
    }

    /** Takes a page's mapping away. */
    method UnmapPage(dir: nat, address: nat)
      requires Valid(dir) && address < PAGES * PAGE_SIZE
      modifies mem, frames, frames.bitmap
      ensures Valid(dir) && frames.Used() == old(frames.Used())
      ensures UnmapEffect(old(mem[..]), mem[..], dir, address / PAGE_SIZE)
    {
      ghost var mem0 := mem[..];
      var page := address / PAGE_SIZE;
      var table := GetPageTable(dir, page, false);
      if table == 0 {
        return;
      }
      var index := page % ENTRIES;
      ghost var e := Lookup(mem0, dir, page).(present := false, frame := 0);
      mem[table] := mem[table][index := mem[table][index].(present := false, frame := 0)];
      EntryChangesOnePage(mem0, dir, frames.Used(), page, e);
      assert mem[..] == WithEntry(mem0, dir, page, e);
    }

    method GetPhysicalAddress(dir: nat, address: nat) returns (phys: nat)
      requires Valid(dir) && address < PAGES * PAGE_SIZE
      modifies mem, frames, frames.bitmap
      ensures Valid(dir) && mem[..] == old(mem[..]) && frames.Used() == old(frames.Used())
      ensures phys == Translate(mem[..], dir, address)
    {
      var page := address / PAGE_SIZE;
      var table := GetPageTable(dir, page, false);
      if table == 0 {
        return 0;
      }
      var entry := mem[table][page % ENTRIES];
      if !entry.present {
        return 0;
      }
      return entry.frame * PAGE_SIZE + address % PAGE_SIZE;
    }

    method IsPagePresent(dir: nat, address: nat) returns (present: bool)
      requires Valid(dir) && address < PAGES * PAGE_SIZE
      modifies mem, frames, frames.bitmap
      ensures Valid(dir) && mem[..] == old(mem[..]) && frames.Used() == old(frames.Used())
      ensures present == Lookup(mem[..], dir, address / PAGE_SIZE).present
    {
      var page := address / PAGE_SIZE;
      var table := GetPageTable(dir, page, false);
      if table == 0 {
        return false;
      }
      return mem[table][page % ENTRIES].present;
    }

    /** Maps the first 4 MB onto themselves. */
    method IdentityMapKernel(dir: nat)
      requires Valid(dir) && CanReach(mem[..], frames.Used(), dir, 0)
      modifies mem, frames, frames.bitmap
      ensures Valid(dir)
      ensures
        var mem0, used0 := old(mem[..]), old(frames.Used());
        if HasTable(mem0, dir, 0) || FrameLeft(used0, |mem0|) then
          && (forall q :: 0 <= q < PAGES ==>
                Lookup(mem[..], dir, q) ==
                  if q < ENTRIES then Mapped(PAGE_PRESENT + PAGE_WRITABLE, q) else Lookup(mem0, dir, q))
          && frames.Used() == (if HasTable(mem0, dir, 0) then used0 else AllocFrame(used0, |mem0|).0)
        else mem[..] == mem0 && frames.Used() == used0
    {
      ghost var mem0, used0 := mem[..], frames.Used();
      ghost var possible := HasTable(mem0, dir, 0) || FrameLeft(used0, |mem0|);
      for i := 0 to ENTRIES
        invariant Valid(dir) && mem.Length == |mem0|
        invariant !possible || i == 0 ==> mem[..] == mem0 && frames.Used() == used0
        invariant possible && i > 0 ==>
          && HasTable(mem[..], dir, 0)
          && frames.Used() == (if HasTable(mem0, dir, 0) then used0 else AllocFrame(used0, |mem0|).0)
        invariant possible ==> forall q :: 0 <= q < PAGES ==>
          Lookup(mem[..], dir, q) == if q < i then Mapped(PAGE_PRESENT + PAGE_WRITABLE, q) else Lookup(mem0, dir, q)
      {
        assert i * PAGE_SIZE / PAGE_SIZE == i && HasTable(mem[..], dir, i) == HasTable(mem[..], dir, 0);
        MapPage(dir, i * PAGE_SIZE, i * PAGE_SIZE, PAGE_PRESENT + PAGE_WRITABLE);
      }
    }

    /** Sets up paging: a directory with the kernel's 4 MB mapped onto themselves. Without a frame for the
        directory the kernel panics. */
    method Init() returns (ok: bool)
      requires frames.Valid() && frames.totalPages == mem.Length && frames.bitmap as object != mem as object
      requires 0 in frames.Used() && forall f :: 0 <= f < mem.Length ==> |mem[f]| == ENTRIES
      requires FramesBelow(frames.Used(), mem.Length, 2)
      modifies this, mem, frames, frames.bitmap
      ensures ok <==> FrameLeft(old(frames.Used()), mem.Length)
      ensures ok ==>
        && Valid(currentDirectory) && currentDirectory == LowestFree(old(frames.Used()), mem.Length)
        && var used1 := old(frames.Used()) + {currentDirectory};
           FrameLeft(used1, mem.Length) ==>
             && frames.Used() == used1 + {LowestFree(used1, mem.Length)}
             && forall q :: 0 <= q < PAGES ==>
                  Lookup(mem[..], currentDirectory, q) ==
                    if q < ENTRIES then Mapped(PAGE_PRESENT + PAGE_WRITABLE, q) else NO_ENTRY
    {
      ghost var used0, total := frames.Used(), mem.Length;
      assert NextFrame(used0, total, 0) == LowestFree(used0, total);
      assert NextFrame(used0, total, 1) == LowestFree(AllocFrame(used0, total).0, total);
      var phys := frames.AllocPage();
      if phys == 0 {
        return false;
      }
      var dir := phys / PAGE_SIZE;
      mem[dir] := seq(ENTRIES, _ => NO_ENTRY);
      currentDirectory := dir;
      EmptyDirectory(mem[..], dir, frames.Used());
      IdentityMapKernel(dir);
      return true;
    }
  }

  lemma EmptyDirectory(mem: seq<Table>, dir: nat, used: set<nat>)
    requires 0 < dir < |mem| && dir < ENTRIES && dir in used && 0 in used && forall f :: f in used ==> f < |mem|
    requires mem[dir] == EmptyTable() && forall f :: 0 <= f < |mem| ==> |mem[f]| == ENTRIES
    ensures SpaceOk(mem, dir, used) && !HasTable(mem, dir, 0)
    ensures forall q :: 0 <= q < PAGES ==> Lookup(mem, dir, q) == NO_ENTRY
  {
  }

  lemma MapIsEffect(
      mem0: seq<Table>, used0: set<nat>, mem1: seq<Table>, used1: set<nat>, dir: nat, page: nat, table: nat, e: Entry)
    requires SpaceOk(mem0, dir, used0) && page < PAGES && SpaceOk(mem1, dir, used1)
    requires if HasTable(mem0, dir, page) then mem1 == mem0 && used1 == used0 else
      && FrameLeft(used0, |mem0|) && table == LowestFree(used0, |mem0|)
      && mem1 == WithTable(mem0, dir, page, table) && used1 == used0 + {table}
    requires HasTable(mem1, dir, page) && SpaceOk(WithEntry(mem1, dir, page, e), dir, used1)
    ensures
      var mem2 := WithEntry(mem1, dir, page, e);
      && HasTable(mem2, dir, page)
      && (forall q :: 0 <= q < PAGES ==> Lookup(mem2, dir, q) == if q == page then e else Lookup(mem0, dir, q))
      && (forall f :: 0 <= f < |mem0| && !IsTableFrame(mem2, dir, f) ==> mem2[f] == mem0[f])
      && (forall f :: 0 <= f < |mem0| ==>
           (IsTableFrame(mem2, dir, f) <==> IsTableFrame(mem0, dir, f) || (f in used1 && f !in used0)))
      && OtherPartsSame(mem0, mem2, dir, page)
  {
    EntryChangesOnePage(mem1, dir, used1, page, e);
    var mem2: seq<Table> := WithEntry(mem1, dir, page, e);
    assert mem2[dir] == mem1[dir];
    assert IsTableFrame(mem1, dir, mem1[dir][page / ENTRIES].frame);
    if !HasTable(mem0, dir, page) {
      NewTableKeepsLookups(mem0, dir, used0, page, table);
      NewTableFrames(mem0, dir, used0, page, table);
    }
  }

  // ----- what paging promises -----

  /** After paging is set up with a frame left for the one table, every address below 4 MB translates to
      itself, and exactly two frames are gone: the directory's and the table's. */
  lemma IdentityMapTranslatesToItself(mem: seq<Table>, dir: nat, address: nat)
    requires TablesOk(mem, dir) && address < ENTRIES * PAGE_SIZE
    requires forall q :: 0 <= q < ENTRIES ==> Lookup(mem, dir, q) == Mapped(PAGE_PRESENT + PAGE_WRITABLE, q)
    ensures Translate(mem, dir, address) == address
  {
    assert address / PAGE_SIZE < ENTRIES;
  }

  /** A mapping with the PRESENT flag translates its page to the given frame, offsets kept, and leaves the
      translation of every other page alone. */
  lemma MapTranslates(
      mem: seq<Table>, used: set<nat>, mem': seq<Table>, used': set<nat>, dir: nat,
      address: nat, phys: nat, flags: nat, other: nat)
    requires SpaceOk(mem, dir, used) && SpaceOk(mem', dir, used')
    requires address < PAGES * PAGE_SIZE && other < PAGES * PAGE_SIZE && FlagPresent(flags)
    requires HasTable(mem, dir, address / PAGE_SIZE) || FrameLeft(used, |mem|)
    requires MapEffect(mem, used, mem', used', dir, address / PAGE_SIZE, phys / PAGE_SIZE, flags)
    ensures Translate(mem', dir, address) == phys - phys % PAGE_SIZE + address % PAGE_SIZE
    ensures other / PAGE_SIZE != address / PAGE_SIZE ==> Translate(mem', dir, other) == Translate(mem, dir, other)
  {
  }

  /** The kernel's own pages and every page mapped as the heap maps its pages may be written and are none of
      a user's. */
  lemma KernelMappingsAreWritable(
      mem: seq<Table>, used: set<nat>, mem': seq<Table>, used': set<nat>, dir: nat, page: nat, frame: nat)
    requires SpaceOk(mem, dir, used) && SpaceOk(mem', dir, used') && page < PAGES
    requires HasTable(mem, dir, page) || FrameLeft(used, |mem|)
    requires MapEffect(mem, used, mem', used', dir, page, frame, PAGE_PRESENT + PAGE_WRITABLE)
    ensures Lookup(mem', dir, page) == Entry(true, true, false, frame)
  {
  }

  /** Each flag of a mapping is the bit of its own. */
  lemma FlagsAreBits(p: bool, w: bool, u: bool, frame: nat)
    ensures Mapped((if p then 1 else 0) + (if w then 2 else 0) + (if u then 4 else 0), frame) == Entry(p, w, u, frame)
  {
  }

  // ----- paging as a finite map -----

  /** The pages that translate, and the frames they translate to, are those of m. */
  ghost predicate Agrees(mem: seq<Table>, dir: nat, m: map<nat, nat>)
    requires TablesOk(mem, dir)
  {
    true == (
      forall q: nat :: q < PAGES ==>
        (Lookup(mem, dir, q).present <==> q in m) && (q in m ==> Lookup(mem, dir, q).frame == m[q]))
  }

  datatype PageOp = Map(page: nat, frame: nat) | Unmap(page: nat)

  /** Mapping is possible when the page has a table or a frame is left for one. */
  ghost predicate CanMap(mem: seq<Table>, used: set<nat>, dir: nat, page: nat)
    requires TablesOk(mem, dir) && page < PAGES
  {
    HasTable(mem, dir, page) || FrameLeft(used, |mem|)
  }

  /** One call on the paging structures, for present mappings. */
  ghost predicate Step(mem: seq<Table>, used: set<nat>, op: PageOp, mem': seq<Table>, used': set<nat>, dir: nat)
    requires SpaceOk(mem, dir, used) && SpaceOk(mem', dir, used') && op.page < PAGES
  {
    match op
    case Map(page, frame) => MapEffect(mem, used, mem', used', dir, page, frame, PAGE_PRESENT + PAGE_WRITABLE)
    case Unmap(page) => UnmapEffect(mem, mem', dir, page) && used' == used
  }

  ghost function Apply(m: map<nat, nat>, op: PageOp, possible: bool): map<nat, nat> {
    match op
    case Map(page, frame) => if possible then m[page := frame] else m
    case Unmap(page) => m - {page}
  }

  lemma StepRefines(
      mem: seq<Table>, used: set<nat>, op: PageOp, mem': seq<Table>, used': set<nat>, dir: nat, m: map<nat, nat>)
    requires SpaceOk(mem, dir, used) && SpaceOk(mem', dir, used') && op.page < PAGES
    requires true == Agrees(mem, dir, m) && true == Step(mem, used, op, mem', used', dir)
    ensures Agrees(mem', dir, Apply(m, op, CanMap(mem, used, dir, op.page)))
  {
  }

  /** A run of calls: the structures and used frames before and after each of them. */
  ghost predicate Run(mems: seq<seq<Table>>, useds: seq<set<nat>>, ops: seq<PageOp>, dir: nat) {
    && |mems| == |useds| == |ops| + 1
    && (forall i {:trigger mems[i]} :: 0 <= i < |mems| ==> SpaceOk(mems[i], dir, useds[i]))
    && (forall i {:trigger ops[i]} :: 0 <= i < |ops| ==>
          ops[i].page < PAGES && Step(mems[i], useds[i], ops[i], mems[i + 1], useds[i + 1], dir))
  }

  ghost function ApplyAll(
      m: map<nat, nat>, mems: seq<seq<Table>>, useds: seq<set<nat>>, ops: seq<PageOp>, dir: nat, n: nat): map<nat, nat>
    requires Run(mems, useds, ops, dir) && n <= |ops|
  {
    if n == 0 then m
    else
      var possible := CanMap(mems[n - 1], useds[n - 1], dir, ops[n - 1].page);
      Apply(ApplyAll(m, mems, useds, ops, dir, n - 1), ops[n - 1], possible)
  }

  lemma StepOfRun(mems: seq<seq<Table>>, useds: seq<set<nat>>, ops: seq<PageOp>, dir: nat, n: nat)
    requires Run(mems, useds, ops, dir) && n < |ops|
    ensures SpaceOk(mems[n], dir, useds[n]) && SpaceOk(mems[n + 1], dir, useds[n + 1]) && ops[n].page < PAGES
    ensures true == Step(mems[n], useds[n], ops[n], mems[n + 1], useds[n + 1], dir)
  {
    assert ops[n].page < PAGES;
  }

  /** Over every run of mapping and unmapping the walk through the tables finds exactly what a finite map from pages
      to frames would hold; a mapping for which no table can be had is as if it had not been asked for. */
  lemma {:induction false} WalkRefinesFiniteMap(
      mems: seq<seq<Table>>, useds: seq<set<nat>>, ops: seq<PageOp>, dir: nat, m: map<nat, nat>, n: nat)
    requires Run(mems, useds, ops, dir) && n <= |ops| && Agrees(mems[0], dir, m)
    ensures Agrees(mems[n], dir, ApplyAll(m, mems, useds, ops, dir, n))
  {
    if n > 0 {
      WalkRefinesFiniteMap(mems, useds, ops, dir, m, n - 1);
      StepOfRun(mems, useds, ops, dir, n - 1);
      StepRefines(mems[n - 1], useds[n - 1], ops[n - 1], mems[n], useds[n], dir,
        ApplyAll(m, mems, useds, ops, dir, n - 1));
    }
  }
}
