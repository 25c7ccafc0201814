/** The pages under the kernel heap: the loop of heap_init and heap_expand (kernel/heap.c) that takes
    frames and maps them one after the other. */
module HeapPages {
  import opened FrameAllocator
  import opened PageTables

  /** Pages lo to hi are mapped to distinct frames in use, none of which holds the directory or a table. */
  ghost predicate Backed(mem: seq<Table>, dir: nat, used: set<nat>, lo: nat, hi: nat)
    requires TablesOk(mem, dir) && hi <= PAGES
  {
    true == (
      && (forall p :: lo <= p < hi ==> PageBacked(mem, dir, used, p))
      && (forall p, q :: lo <= p < q < hi ==> Lookup(mem, dir, p).frame != Lookup(mem, dir, q).frame))
  }

  ghost predicate PageBacked(mem: seq<Table>, dir: nat, used: set<nat>, p: nat)
    requires TablesOk(mem, dir) && p < PAGES
  {
    var e := Lookup(mem, dir, p);
    e.present && e.frame in used && e.frame < |mem| && !IsTableFrame(mem, dir, e.frame)
  }

  /** One round of the loop: the fresh frame f is taken and page p mapped to it. As one fact, for lemmas to pass
      on without looking inside. */
  ghost predicate Round(mem: seq<Table>, used: set<nat>, mem': seq<Table>, used': set<nat>, dir: nat, p: nat, f: nat) {
    true == (
      && p < PAGES && SpaceOk(mem, dir, used) && f < |mem| && f !in used
      && SpaceOk(mem, dir, used + {f}) && SpaceOk(mem', dir, used')
      && MapEffect(mem, used + {f}, mem', used', dir, p, f, PAGE_PRESENT + PAGE_WRITABLE)
      && OtherPartsSame(mem, mem', dir, p))
  }

  /** Mapping a later page to a fresh frame leaves backed pages backed. */
  lemma StaysBacked(
      mem: seq<Table>, used: set<nat>, mem': seq<Table>, used': set<nat>, dir: nat, lo: nat, hi: nat, p: nat, f: nat)
    requires Round(mem, used, mem', used', dir, p, f) && hi <= p && Backed(mem, dir, used, lo, hi)
    ensures Backed(mem', dir, used', lo, hi)
  {
    assert used + {f} <= used';
    forall q | lo <= q < hi ensures PageBacked(mem', dir, used', q) {
      assert PageBacked(mem, dir, used, q);
      assert Lookup(mem', dir, q) == Lookup(mem, dir, q);
    }
  }

  /** One round: the fresh frame f is mapped under page p, and p is backed exactly if it had a table or
      another frame is left for one. */
  lemma RoundBacksIff(
      mem: seq<Table>, used: set<nat>, mem': seq<Table>, used': set<nat>, dir: nat, lo: nat, p: nat, f: nat)
    requires Round(mem, used, mem', used', dir, p, f) && lo <= p && Backed(mem, dir, used, lo, p)
    ensures PageBacked(mem', dir, used', p) <==> HasTable(mem, dir, p) || FrameLeft(used + {f}, |mem|)
    ensures Backed(mem', dir, used', lo, p)
    ensures PageBacked(mem', dir, used', p) ==> Backed(mem', dir, used', lo, p + 1)
  {
    StaysBacked(mem, used, mem', used', dir, lo, p, p, f);
    assert used + {f} <= used';
    assert !IsTableFrame(mem, dir, f);
    if HasTable(mem, dir, p) || FrameLeft(used + {f}, |mem|) {
      assert Lookup(mem', dir, p) == Mapped(PAGE_PRESENT + PAGE_WRITABLE, f);
      forall q | lo <= q < p ensures Lookup(mem', dir, q).frame != f {
        assert PageBacked(mem, dir, used, q);
      }
    }
  }

  // ----- how many frames a stretch of pages takes -----

  /** Page i of the stretch is the first of it in a part of the directory that has no table. */
  ghost predicate TableMissing(mem: seq<Table>, dir: nat, first: nat, i: nat)
    requires TablesOk(mem, dir) && first + i < PAGES
  {
    !HasTable(mem, dir, first + i) && (i == 0 || (first + i) % ENTRIES == 0)
  }

  /** One frame for every page and one for every table that is missing. */
  ghost function FramesNeeded(mem: seq<Table>, dir: nat, first: nat, count: nat): nat
    requires TablesOk(mem, dir) && first + count <= PAGES
  {
    if count == 0 then 0
    else FramesNeeded(mem, dir, first, count - 1) + if TableMissing(mem, dir, first, count - 1) then 2 else 1
  }

  lemma {:induction false} FramesNeededGrows(mem: seq<Table>, dir: nat, first: nat, n: nat, count: nat)
    requires TablesOk(mem, dir) && n <= count && first + count <= PAGES
    ensures FramesNeeded(mem, dir, first, n) + (count - n) <= FramesNeeded(mem, dir, first, count)
  {
    if n < count {
      FramesNeededGrows(mem, dir, first, n, count - 1);
    }
  }

  /** A stretch of pages gets its frames exactly if, with the last page's table left aside, there are as many
      as it needs. */
  ghost predicate CanTakePages(mem: seq<Table>, used: set<nat>, dir: nat, first: nat, count: nat)
    requires TablesOk(mem, dir) && first + count <= PAGES
  {
    true == (count == 0 || |used| + FramesNeeded(mem, dir, first, count - 1) + 1 <= |mem|)
  }

  /** All of its pages get mapped exactly if there are enough for the last page's table too. */
  ghost predicate CanMapPages(mem: seq<Table>, used: set<nat>, dir: nat, first: nat, count: nat)
    requires TablesOk(mem, dir) && first + count <= PAGES
  {
    |used| + FramesNeeded(mem, dir, first, count) <= |mem|
  }

  lemma FrameLeftIff(mem: seq<Table>, dir: nat, used: set<nat>)
    requires SpaceOk(mem, dir, used)
    ensures |used| <= |mem| && (FrameLeft(used, |mem|) <==> |used| < |mem|)
  {
    UsedBounded(used, |mem|);
    if |used| == |mem| {
      AllUsed(used, |mem|);
    }
  }

  /** The frame that page i's table gets, if it needs one and there is one, lies below 4 MB. */
  ghost predicate TableReached(mem: seq<Table>, used: set<nat>, dir: nat, first: nat, i: nat)
    requires TablesOk(mem, dir) && first + i < PAGES
  {
    TableMissing(mem, dir, first, i) ==>
      var f := NextFrame(used, |mem|, FramesNeeded(mem, dir, first, i) + 1);
      f == |mem| || f < ENTRIES
  }

  /** So do those of all tables that the stretch needs. */
  ghost predicate TablesReached(mem: seq<Table>, used: set<nat>, dir: nat, first: nat, count: nat)
    requires TablesOk(mem, dir) && first + count <= PAGES
  {
    forall i :: 0 <= i < count ==> TableReached(mem, used, dir, first, i)
  }

  /** Tables are there that were there before, and those of the stretch. */
  ghost predicate TablesGrown(mem0: seq<Table>, mem: seq<Table>, dir: nat, first: nat, count: nat)
    requires TablesOk(mem0, dir) && TablesOk(mem, dir)
  {
    true == (
      forall i :: 0 <= i < ENTRIES ==>
        (TableAt(mem, dir, i) <==>
           || TableAt(mem0, dir, i)
           || (count > 0 && first / ENTRIES <= i <= (first + count - 1) / ENTRIES)))
  }

  /** After taking count pages from first on, starting from mem0 and used0: if there were enough frames for
      all their tables, all pages are backed and exactly those frames are gone; if not, all but the last are,
      and no frame is left. No other translation changed. */
  ghost predicate MappedSoFar(
      mem0: seq<Table>, used0: set<nat>, mem: seq<Table>, used: set<nat>, dir: nat, lo: nat, first: nat, count: nat)
    requires TablesOk(mem0, dir) && TablesOk(mem, dir) && first + count <= PAGES
  {
    && |mem| == |mem0| && used0 <= used
    && SameOutside(mem0, mem, dir, first, first + count)
    && if CanMapPages(mem0, used0, dir, first, count) then AllMapped(mem0, used0, mem, used, dir, lo, first, count)
       else LastUnmapped(mem0, used0, mem, used, dir, lo, first, count)
  }

  ghost predicate AllMapped(
      mem0: seq<Table>, used0: set<nat>, mem: seq<Table>, used: set<nat>, dir: nat, lo: nat, first: nat, count: nat)
    requires TablesOk(mem0, dir) && TablesOk(mem, dir) && first + count <= PAGES
  {
    && |used| == |used0| + FramesNeeded(mem0, dir, first, count)
    && Backed(mem, dir, used, lo, first + count)
    && TablesGrown(mem0, mem, dir, first, count)
  }

  ghost predicate LastUnmapped(
      mem0: seq<Table>, used0: set<nat>, mem: seq<Table>, used: set<nat>, dir: nat, lo: nat, first: nat, count: nat)
    requires TablesOk(mem0, dir) && TablesOk(mem, dir) && first + count <= PAGES
  {
    && count > 0 && |used| == |mem| == |used0| + FramesNeeded(mem0, dir, first, count) - 1
    && Backed(mem, dir, used, lo, first + count - 1)
    && !PageBacked(mem, dir, used, first + count - 1)
  }

  ghost predicate SameOutside(mem0: seq<Table>, mem: seq<Table>, dir: nat, a: nat, b: nat)
    requires TablesOk(mem0, dir) && TablesOk(mem, dir)
  {
    true == (forall q :: 0 <= q < PAGES && !(a <= q < b) ==> Lookup(mem, dir, q) == Lookup(mem0, dir, q))
  }

  lemma SameOutsideOneMore(
      mem0: seq<Table>, mem: seq<Table>, used: set<nat>, mem': seq<Table>, used': set<nat>, dir: nat, a: nat, b: nat,
      f: nat)
    requires TablesOk(mem0, dir) && Round(mem, used, mem', used', dir, b, f) && a <= b
    requires SameOutside(mem0, mem, dir, a, b)
    ensures SameOutside(mem0, mem', dir, a, b + 1)
  {
  }

  /** The next page has a table exactly if it is not the one for which the stretch needs a new one. */
  lemma TableThereIff(mem0: seq<Table>, mem: seq<Table>, dir: nat, first: nat, count: nat)
    requires TablesOk(mem0, dir) && TablesOk(mem, dir) && first + count < PAGES
    requires TablesGrown(mem0, mem, dir, first, count)
    ensures HasTable(mem, dir, first + count) <==> !TableMissing(mem0, dir, first, count)
  {
    var p, d := first + count, (first + count) / ENTRIES;
    SamePart(first, count);
    assert TableAt(mem, dir, d) == HasTable(mem, dir, p) && TableAt(mem0, dir, d) == HasTable(mem0, dir, p);
  }

  lemma TablesGrownOneMore(
      mem0: seq<Table>, mem: seq<Table>, used: set<nat>, mem': seq<Table>, used': set<nat>, dir: nat, first: nat,
      count: nat, f: nat)
    requires TablesOk(mem0, dir) && Round(mem, used, mem', used', dir, first + count, f)
    requires TablesGrown(mem0, mem, dir, first, count)
    ensures HasTable(mem, dir, first + count) <==> !TableMissing(mem0, dir, first, count)
    ensures HasTable(mem, dir, first + count) || FrameLeft(used + {f}, |mem|) ==>
      TablesGrown(mem0, mem', dir, first, count + 1)
  {
    var p, d := first + count, (first + count) / ENTRIES;
    SamePart(first, count);
    assert TableAt(mem, dir, d) == HasTable(mem, dir, p) && TableAt(mem0, dir, d) == HasTable(mem0, dir, p);
    if HasTable(mem, dir, p) || FrameLeft(used + {f}, |mem|) {
      assert TableAt(mem', dir, d);
    }
  }

  /** The page behind a stretch lies in the part of the directory of the stretch's last page, or starts one. */
  lemma SamePart(first: nat, count: nat)
    ensures count > 0 ==>
      if (first + count) % ENTRIES == 0 then (first + count) / ENTRIES == (first + count - 1) / ENTRIES + 1
      else (first + count) / ENTRIES == (first + count - 1) / ENTRIES
    ensures first / ENTRIES <= (first + count) / ENTRIES
  {
  }

  lemma MappedOneMore(
      mem0: seq<Table>, used0: set<nat>, mem: seq<Table>, used: set<nat>, mem': seq<Table>, used': set<nat>,
      dir: nat, lo: nat, first: nat, count: nat, page: nat, f: nat)
    requires TablesOk(mem0, dir) && lo <= first && page == first + count
    requires Round(mem, used, mem', used', dir, page, f)
    requires InMapping(mem0, used0, mem, used, dir, lo, first, count)
    ensures InMapping(mem0, used0, mem', used', dir, lo, first, count + 1)
    ensures PageBacked(mem', dir, used', page) <==> CanMapPages(mem0, used0, dir, first, count + 1)
  {
    FramesTaken(mem, used, mem', used', dir, page, f);
    StillMapping(mem0, used0, mem, used, dir, lo, first, count);
    RoundDone(mem0, used0, mem, used, mem', used', dir, lo, first, count, f);
    MappedIf(mem0, used0, mem', used', dir, lo, first, count + 1);
  }

  /** used are the frames in use when the first count pages and their tables have got theirs. */
  ghost predicate TakenFirst(mem0: seq<Table>, used0: set<nat>, used: set<nat>, dir: nat, first: nat, count: nat) {
    TablesOk(mem0, dir) && first + count <= PAGES && used == After(used0, |mem0|, FramesNeeded(mem0, dir, first, count))
  }

  lemma TakesNext(used0: set<nat>, total: nat, n: nat, used: set<nat>, f: nat)
    requires used == After(used0, total, n) && f == LowestFree(used, total) < total
    ensures After(used0, total, n + 1) == used + {f}
    ensures After(used0, total, n + 2) == AllocFrame(used + {f}, total).0
  {
    assert After(used0, total, n + 1) == AllocFrame(used, total).0 == used + {f};
  }

  /** The frames that a round takes are those that come next. */
  lemma FramesInOrder(
      mem0: seq<Table>, used0: set<nat>, used: set<nat>, used': set<nat>, dir: nat, first: nat, count: nat, f: nat)
    requires TablesOk(mem0, dir) && first + count < PAGES && f == LowestFree(used, |mem0|) < |mem0|
    requires TakenFirst(mem0, used0, used, dir, first, count)
    requires used' == if TableMissing(mem0, dir, first, count) then AllocFrame(used + {f}, |mem0|).0 else used + {f}
    ensures TakenFirst(mem0, used0, used', dir, first, count + 1)
  {
    TakesNext(used0, |mem0|, FramesNeeded(mem0, dir, first, count), used, f);
  }

  /** The frames that a round takes: one, and a second one where a table is missing. */
  lemma RoundTakes(
      mem0: seq<Table>, used0: set<nat>, mem: seq<Table>, used: set<nat>, mem': seq<Table>, used': set<nat>,
      dir: nat, lo: nat, first: nat, count: nat, page: nat, f: nat)
    requires TablesOk(mem0, dir) && Round(mem, used, mem', used', dir, page, f) && page == first + count
    requires InMapping(mem0, used0, mem, used, dir, lo, first, count)
    ensures |mem| == |mem0| && page < PAGES && f < |mem|
    ensures used' == if TableMissing(mem0, dir, first, count) then AllocFrame(used + {f}, |mem0|).0 else used + {f}
  {
    FramesTaken(mem, used, mem', used', dir, page, f);
    StillMapping(mem0, used0, mem, used, dir, lo, first, count);
    TableThereIff(mem0, mem, dir, first, count);
  }

  lemma RoundDone(
      mem0: seq<Table>, used0: set<nat>, mem: seq<Table>, used: set<nat>, mem': seq<Table>, used': set<nat>,
      dir: nat, lo: nat, first: nat, count: nat, f: nat)
    requires TablesOk(mem0, dir) && lo <= first && Round(mem, used, mem', used', dir, first + count, f)
    requires |mem| == |mem0| && used0 <= used && |used| == |used0| + FramesNeeded(mem0, dir, first, count)
    requires Backed(mem, dir, used, lo, first + count)
    requires SameOutside(mem0, mem, dir, first, first + count)
    requires TablesGrown(mem0, mem, dir, first, count)
    ensures TablesOk(mem', dir) && Mapping(mem0, used0, mem', used', dir, lo, first, count + 1)
  {
    SameOutsideOneMore(mem0, mem, used, mem', used', dir, first, first + count, f);
    RoundBacksIff(mem, used, mem', used', dir, lo, first + count, f);
    RoundCounts(mem0, used0, mem, used, mem', used', dir, first, count, f);
  }

  /** The frames and tables of one round. */
  lemma RoundCounts(
      mem0: seq<Table>, used0: set<nat>, mem: seq<Table>, used: set<nat>, mem': seq<Table>, used': set<nat>,
      dir: nat, first: nat, count: nat, f: nat)
    requires TablesOk(mem0, dir) && Round(mem, used, mem', used', dir, first + count, f)
    requires |mem| == |mem0| && used0 <= used && |used| == |used0| + FramesNeeded(mem0, dir, first, count)
    requires TablesGrown(mem0, mem, dir, first, count)
    ensures used0 <= used' && |mem'| == |mem0|
    ensures CanMapPages(mem0, used0, dir, first, count + 1) <==>
      HasTable(mem, dir, first + count) || FrameLeft(used + {f}, |mem|)
    ensures
      if CanMapPages(mem0, used0, dir, first, count + 1) then
        && |used'| == |used0| + FramesNeeded(mem0, dir, first, count + 1)
        && TablesGrown(mem0, mem', dir, first, count + 1)
      else |used'| == |mem'| == |used0| + FramesNeeded(mem0, dir, first, count + 1) - 1
  {
    TablesGrownOneMore(mem0, mem, used, mem', used', dir, first, count, f);
    FramesTaken(mem, used, mem', used', dir, first + count, f);
  }

  /** The state after count rounds, with the last page told by itself. */
  ghost predicate Mapping(
      mem0: seq<Table>, used0: set<nat>, mem: seq<Table>, used: set<nat>, dir: nat, lo: nat, first: nat, count: nat)
    requires TablesOk(mem0, dir) && TablesOk(mem, dir) && lo <= first && 0 < count && first + count <= PAGES
  {
    true == (
      && |mem| == |mem0| && used0 <= used
      && Backed(mem, dir, used, lo, first + count - 1)
      && SameOutside(mem0, mem, dir, first, first + count)
      && (PageBacked(mem, dir, used, first + count - 1) <==> CanMapPages(mem0, used0, dir, first, count))
      && if CanMapPages(mem0, used0, dir, first, count) then
           && |used| == |used0| + FramesNeeded(mem0, dir, first, count)
           && Backed(mem, dir, used, lo, first + count) && TablesGrown(mem0, mem, dir, first, count)
         else |used| == |mem| == |used0| + FramesNeeded(mem0, dir, first, count) - 1)
  }

  lemma MappedIf(
      mem0: seq<Table>, used0: set<nat>, mem: seq<Table>, used: set<nat>, dir: nat, lo: nat, first: nat, count: nat)
    requires TablesOk(mem0, dir) && TablesOk(mem, dir) && lo <= first && 0 < count && first + count <= PAGES
    requires Mapping(mem0, used0, mem, used, dir, lo, first, count)
    requires CanTakePages(mem0, used0, dir, first, count)
    ensures InMapping(mem0, used0, mem, used, dir, lo, first, count)
    ensures PageBacked(mem, dir, used, first + count - 1) <==> CanMapPages(mem0, used0, dir, first, count)
  {
  }

  /** As long as a frame is left, all pages so far are mapped. */
  lemma StillMapping(
      mem0: seq<Table>, used0: set<nat>, mem: seq<Table>, used: set<nat>, dir: nat, lo: nat, first: nat, count: nat)
    requires TablesOk(mem0, dir) && TablesOk(mem, dir) && first + count < PAGES && |used| < |mem|
    requires InMapping(mem0, used0, mem, used, dir, lo, first, count)
    ensures |mem| == |mem0| && used0 <= used && |used| == |used0| + FramesNeeded(mem0, dir, first, count)
    ensures Backed(mem, dir, used, lo, first + count)
    ensures SameOutside(mem0, mem, dir, first, first + count)
    ensures TablesGrown(mem0, mem, dir, first, count)
    ensures CanTakePages(mem0, used0, dir, first, count + 1)
  {
  }

  /** One round takes one frame, or two if a table is missing and there is a frame for it. */
  lemma FramesTaken(mem: seq<Table>, used: set<nat>, mem': seq<Table>, used': set<nat>, dir: nat, page: nat, f: nat)
    requires Round(mem, used, mem', used', dir, page, f)
    ensures used <= used' && |mem'| == |mem| > |used|
    ensures FrameLeft(used + {f}, |mem|) <==> |used| + 1 < |mem|
    ensures |used'| == |used| + if !HasTable(mem, dir, page) && |used| + 1 < |mem| then 2 else 1
  {
    FrameLeftIff(mem, dir, used + {f});
    assert |used + {f}| == |used| + 1;
  }

  /** Takes a frame for each of the pages and maps it; n pages were reached. The answer is false when a frame was
      missing for a page. Mapping cannot report failure: the very last page may be left unmapped for want of a
      table. */
  method MapFreshPages(space: AddressSpace, dir: nat, first: nat, count: nat, ghost lo: nat)
    returns (ok: bool, ghost n: nat)
    requires space.Valid(dir) && lo <= first && first + count <= PAGES
    requires Backed(space.mem[..], dir, space.frames.Used(), lo, first)
    requires TablesReached(space.mem[..], space.frames.Used(), dir, first, count)
    modifies space.mem, space.frames, space.frames.bitmap
    ensures space.Valid(dir)
    ensures ok <==> CanTakePages(old(space.mem[..]), old(space.frames.Used()), dir, first, count)
    ensures if ok then n == count else n < count && !FrameLeft(space.frames.Used(), space.mem.Length)
    ensures
      InMapping(old(space.mem[..]), old(space.frames.Used()), space.mem[..], space.frames.Used(), dir, lo, first, n)
  {
    ghost var mem0, used0 := space.mem[..], space.frames.Used();
    NothingMapped(mem0, used0, dir, lo, first);
    n := 0;
    for i := 0 to count
      invariant space.Valid(dir) && n == i
      invariant InMapping(mem0, used0, space.mem[..], space.frames.Used(), dir, lo, first, i)
      invariant TakenFirst(mem0, used0, space.frames.Used(), dir, first, i)
    {
      ok := MapFreshPage(space, dir, first + i, mem0, used0, lo, first, i);
      if !ok {
        FewerPages(mem0, used0, dir, first, i + 1, count);
        return;
      }
      n := n + 1;
    }
    ok := true;
  }

  /** The table for the page, if it needs one, will lie below 4 MB when the page's own frame has been taken. */
  ghost predicate RoundReached(mem: seq<Table>, used: set<nat>, dir: nat, page: nat) {
    && TablesOk(mem, dir) && page < PAGES
    && (FrameLeft(used, |mem|) ==> CanReach(mem, After(used, |mem|, 1), dir, page))
  }

  /** The condition on the stretch is, page by page, that the table which the round may need will lie below 4 MB. */
  lemma RoundReachedIff(
      mem0: seq<Table>, used0: set<nat>, mem: seq<Table>, used: set<nat>, dir: nat, lo: nat, first: nat, count: nat,
      page: nat)
    requires TablesOk(mem0, dir) && SpaceOk(mem, dir, used) && page == first + count < PAGES
    requires InMapping(mem0, used0, mem, used, dir, lo, first, count)
    requires TakenFirst(mem0, used0, used, dir, first, count)
    ensures RoundReached(mem, used, dir, page) <==> TableReached(mem0, used0, dir, first, count)
  {
    FrameLeftIff(mem, dir, used);
    if FrameLeft(used, |mem|) {
      StillMapping(mem0, used0, mem, used, dir, lo, first, count);
      TableThereIff(mem0, mem, dir, first, count);
      TakesNext(used, |mem|, 0, used, LowestFree(used, |mem|));
      TakesNext(used0, |mem|, FramesNeeded(mem0, dir, first, count), used, LowestFree(used, |mem|));
    }
  }

  lemma NoMoreTaken(
      mem0: seq<Table>, used0: set<nat>, mem: seq<Table>, used: set<nat>, dir: nat, lo: nat, first: nat, count: nat)
    requires TablesOk(mem0, dir) && SpaceOk(mem, dir, used) && first + count < PAGES && !FrameLeft(used, |mem|)
    requires InMapping(mem0, used0, mem, used, dir, lo, first, count)
    ensures !CanTakePages(mem0, used0, dir, first, count + 1)
  {
    FrameLeftIff(mem, dir, used);
  }

  lemma NothingMapped(mem: seq<Table>, used: set<nat>, dir: nat, lo: nat, first: nat)
    requires SpaceOk(mem, dir, used) && lo <= first <= PAGES && Backed(mem, dir, used, lo, first)
    ensures InMapping(mem, used, mem, used, dir, lo, first, 0)
  {
    FrameLeftIff(mem, dir, used);
  }

  lemma FewerPages(mem: seq<Table>, used: set<nat>, dir: nat, first: nat, n: nat, count: nat)
    requires TablesOk(mem, dir) && n <= count && first + count <= PAGES && !CanTakePages(mem, used, dir, first, n)
    ensures !CanTakePages(mem, used, dir, first, count)
  {
    FramesNeededGrows(mem, dir, first, n - 1, count - 1);
  }

  /** The invariant of the loop, as one fact. */
  ghost predicate InMapping(
      mem0: seq<Table>, used0: set<nat>, mem: seq<Table>, used: set<nat>, dir: nat, lo: nat, first: nat, count: nat)
  {
    true == (
      && TablesOk(mem0, dir) && TablesOk(mem, dir) && first + count <= PAGES
      && MappedSoFar(mem0, used0, mem, used, dir, lo, first, count) && CanTakePages(mem0, used0, dir, first, count))
  }

  /** What the loop has backed: everything if there were frames for all tables, else all but the last page. */
  lemma MappingBacks(
      mem0: seq<Table>, used0: set<nat>, mem: seq<Table>, used: set<nat>, dir: nat, lo: nat, first: nat, count: nat)
    requires TablesOk(mem0, dir) && TablesOk(mem, dir) && lo <= first && first + count <= PAGES
    requires InMapping(mem0, used0, mem, used, dir, lo, first, count)
    ensures Backed(mem, dir, used, lo, first)
    ensures Backed(mem, dir, used, lo, first + count) <==> CanMapPages(mem0, used0, dir, first, count)
  {
  }

  /** One round of the loop that began in mem0 and used0. */
  method MapFreshPage(
      space: AddressSpace, dir: nat, page: nat, ghost mem0: seq<Table>, ghost used0: set<nat>, ghost lo: nat,
      ghost first: nat, ghost count: nat)
    returns (ok: bool)
    requires space.Valid(dir) && lo <= first && page == first + count < PAGES && TablesOk(mem0, dir)
    requires InMapping(mem0, used0, space.mem[..], space.frames.Used(), dir, lo, first, count)
    requires TakenFirst(mem0, used0, space.frames.Used(), dir, first, count)
    requires TableReached(mem0, used0, dir, first, count)
    modifies space.mem, space.frames, space.frames.bitmap
    ensures space.Valid(dir)
    ensures ok <==> FrameLeft(old(space.frames.Used()), space.mem.Length)
    ensures !ok ==> space.mem[..] == old(space.mem[..]) && space.frames.Used() == old(space.frames.Used())
    ensures !ok ==> !FrameLeft(space.frames.Used(), space.mem.Length)
    ensures ok <==> CanTakePages(mem0, used0, dir, first, count + 1)
    ensures ok ==> InMapping(mem0, used0, space.mem[..], space.frames.Used(), dir, lo, first, count + 1)
    ensures ok ==> TakenFirst(mem0, used0, space.frames.Used(), dir, first, count + 1)
    ensures ok ==>
      (PageBacked(space.mem[..], dir, space.frames.Used(), page) <==> CanMapPages(mem0, used0, dir, first, count + 1))
  {
    ghost var mem, used := space.mem[..], space.frames.Used();
    RoundReachedIff(mem0, used0, mem, used, dir, lo, first, count, page);
    ghost var f;
    ok, f := TakeAndMap(space, dir, page);
    if ok {
      MappedOneMore(mem0, used0, mem, used, space.mem[..], space.frames.Used(), dir, lo, first, count, page, f);
      RoundTakes(mem0, used0, mem, used, space.mem[..], space.frames.Used(), dir, lo, first, count, page, f);
      FramesInOrder(mem0, used0, used, space.frames.Used(), dir, first, count, f);
    } else {
      NoMoreTaken(mem0, used0, mem, used, dir, lo, first, count);
    }
  }

  /** Takes a frame and maps the page to it, unless no frame is left. */
  method TakeAndMap(space: AddressSpace, dir: nat, page: nat) returns (ok: bool, ghost f: nat)
    requires space.Valid(dir) && page < PAGES
    requires RoundReached(space.mem[..], space.frames.Used(), dir, page)
    modifies space.mem, space.frames, space.frames.bitmap
    ensures space.Valid(dir)
    ensures ok <==> FrameLeft(old(space.frames.Used()), space.mem.Length)
    ensures !ok ==> space.mem[..] == old(space.mem[..]) && space.frames.Used() == old(space.frames.Used())
    ensures ok ==>
      Round(old(space.mem[..]), old(space.frames.Used()), space.mem[..], space.frames.Used(), dir, page, f)
    ensures ok ==> f == LowestFree(old(space.frames.Used()), space.mem.Length)
  {
    ghost var mem, used := space.mem[..], space.frames.Used();
    var phys := space.frames.AllocPage();
    if phys == 0 {
      return false, 0;
    }
    f := phys / PAGE_SIZE;
    assert After(used, |mem|, 1) == AllocFrame(After(used, |mem|, 0), |mem|).0 == used + {f};
    assert space.mem[..] == mem && space.Valid(dir) && space.frames.Used() == used + {f};
    assert page * PAGE_SIZE / PAGE_SIZE == page;
    space.MapPage(dir, page * PAGE_SIZE, phys, PAGE_PRESENT + PAGE_WRITABLE);
    ok := true;
  }

  /** A page without a table, when one frame is left: the frame is taken for the page, none is left for the
      table, and the page stays unmapped though the round counts as done. */
  lemma LastFrameLeavesPageUnmapped(
      mem: seq<Table>, used: set<nat>, mem': seq<Table>, used': set<nat>, dir: nat, page: nat, f: nat)
    requires Round(mem, used, mem', used', dir, page, f) && !HasTable(mem, dir, page) && |used| + 1 == |mem|
    ensures CanTakePages(mem, used, dir, page, 1) && !CanMapPages(mem, used, dir, page, 1)
    ensures mem' == mem && f in used' && !Lookup(mem', dir, page).present
  {
    FramesTaken(mem, used, mem', used', dir, page, f);
  }

  /** For instance at the heap's end 0x80_0000, which needs a new table: frame 0, the directory's frame and one
      more are all there is. */
  lemma LastFrameAtATablesEnd()
    ensures
      var mem: seq<Table> := [EmptyTable(), EmptyTable(), EmptyTable()];
      var used: set<nat> := {0, 1};
      var page := 0x80_0000 / PAGE_SIZE;
      && SpaceOk(mem, 1, used) && !HasTable(mem, 1, page) && FrameLeft(used, |mem|)
      && CanTakePages(mem, used, 1, page, 1) && !CanMapPages(mem, used, 1, page, 1)
  {
    var mem: seq<Table> := [EmptyTable(), EmptyTable(), EmptyTable()];
    var used: set<nat> := {0, 1};
    assert FramesNeeded(mem, 1, 2048, 1) == FramesNeeded(mem, 1, 2048, 0) + 2;
    FrameLeftIff(mem, 1, used);
  }

  /** Memory changed at most where the heap's pages lead: with paging off to the frames of the same numbers, with
      paging on to the frames that back them. */
  ghost predicate ChangedOnlyUnder(mem: seq<Table>, mem': seq<Table>, dir: nat, lo: nat, hi: nat)
    requires TablesOk(mem, dir) && hi <= PAGES
  {
    && |mem'| == |mem|
    && forall f :: 0 <= f < |mem| && mem'[f] != mem[f] ==>
         |mem'[f]| == ENTRIES && (lo <= f < hi || exists p :: lo <= p < hi && Lookup(mem, dir, p).frame == f)
  }

  /** Whatever is stored through the heap's pages, with paging off or on, no translation of any page changes: a heap
      above 4 MB never reaches the directory or a table. */
  lemma HeapStoresKeepTranslations(mem: seq<Table>, mem': seq<Table>, dir: nat, used: set<nat>, lo: nat, hi: nat)
    requires SpaceOk(mem, dir, used) && ENTRIES <= lo && hi <= PAGES && Backed(mem, dir, used, lo, hi)
    requires ChangedOnlyUnder(mem, mem', dir, lo, hi)
    ensures SpaceOk(mem', dir, used) && SameLookups(mem, mem', dir)
  {
    forall p | lo <= p < hi ensures !IsTableFrame(mem, dir, Lookup(mem, dir, p).frame) {
      assert PageBacked(mem, dir, used, p);
    }
    assert IsTableFrame(mem, dir, dir);
    forall i | 0 <= i < ENTRIES && mem[dir][i].present ensures mem'[mem[dir][i].frame] == mem[mem[dir][i].frame] {
      assert IsTableFrame(mem, dir, mem[dir][i].frame);
    }
  }
}
