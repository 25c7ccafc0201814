/** The physical memory manager (kernel/pmm.c): a bitmap with one bit per page frame, a count of free
    frames and a hint where to start searching. */
module FrameAllocator {

  const PAGE_SIZE := 4096
  const NO_PAGE := 0xFFFF_FFFF

  // ----- bits -----

  function Mask(k: nat): bv8
    requires k < 8
  {
    (1 as bv8) << k
  }

  predicate TestBit(bits: seq<bv8>, p: nat)
    requires p < 8 * |bits|
  {
    bits[p / 8] & Mask(p % 8) != 0
  }

  lemma OrMask(b: bv8, j: nat, k: nat)
    requires j < 8 && k < 8
    ensures (b | Mask(j)) & Mask(k) != 0 <==> j == k || b & Mask(k) != 0
  {
  }

  lemma AndNotMask(b: bv8, j: nat, k: nat)
    requires j < 8 && k < 8
    ensures (b & !Mask(j)) & Mask(k) != 0 <==> j != k && b & Mask(k) != 0
  {
  }

  lemma SetAt(bits: seq<bv8>, p: nat, q: nat)
    requires p < 8 * |bits| && q < 8 * |bits|
    ensures TestBit(bits[p / 8 := bits[p / 8] | Mask(p % 8)], q) <==> q == p || TestBit(bits, q)
  {
    if p / 8 == q / 8 {
      OrMask(bits[p / 8], p % 8, q % 8);
    }
  }

  lemma ClearAt(bits: seq<bv8>, p: nat, q: nat)
    requires p < 8 * |bits| && q < 8 * |bits|
    ensures TestBit(bits[p / 8 := bits[p / 8] & !Mask(p % 8)], q) <==> q != p && TestBit(bits, q)
  {
    if p / 8 == q / 8 {
      AndNotMask(bits[p / 8], p % 8, q % 8);
    }
  }

  /** Setting one bit of one byte of the bitmap changes that bit and no other. */
  lemma BitmapSet(bits: seq<bv8>, p: nat, total: nat)
    requires p < total <= 8 * |bits|
    ensures UsedFrames(bits[p / 8 := bits[p / 8] | Mask(p % 8)], total) == UsedFrames(bits, total) + {p}
  {
    forall q | 0 <= q < total
      ensures TestBit(bits[p / 8 := bits[p / 8] | Mask(p % 8)], q) <==> q == p || TestBit(bits, q)
    {
      SetAt(bits, p, q);
    }
  }

  lemma BitmapClear(bits: seq<bv8>, p: nat, total: nat)
    requires p < total <= 8 * |bits|
    ensures UsedFrames(bits[p / 8 := bits[p / 8] & !Mask(p % 8)], total) == UsedFrames(bits, total) - {p}
  {
    forall q | 0 <= q < total
      ensures TestBit(bits[p / 8 := bits[p / 8] & !Mask(p % 8)], q) <==> q != p && TestBit(bits, q)
    {
      ClearAt(bits, p, q);
    }
  }

  lemma AllClear(bits: seq<bv8>, total: nat)
    requires total <= 8 * |bits| && forall i :: 0 <= i < |bits| ==> bits[i] == 0
    ensures UsedFrames(bits, total) == {}
  {
  }

  // ----- the set of used frames -----

  ghost function UsedFrames(bits: seq<bv8>, total: nat): set<nat>
    requires total <= 8 * |bits|
  {
    set p | 0 <= p < total && TestBit(bits, p)
  }

  /** The frames below n. */
  ghost function Below(n: nat): (s: set<nat>)
    ensures |s| == n && forall p :: p in s <==> 0 <= p < n
  {
    if n == 0 then {} else Below(n - 1) + {n - 1}
  }

  /** The lowest frame from p on that is not used, or total. */
  ghost function LowestFree(used: set<nat>, total: nat, p: nat := 0): (r: nat)
    requires p <= total
    ensures p <= r <= total
    ensures r < total ==> r !in used
    ensures forall q :: p <= q < r ==> q in used
    decreases total - p
  {
    if p == total || p !in used then p else LowestFree(used, total, p + 1)
  }

  /** What an allocation does to the set of used frames, and the address it answers. */
  ghost function AllocFrame(used: set<nat>, total: nat): (set<nat>, nat) {
    var p := LowestFree(used, total);
    if p == total then (used, 0) else (used + {p}, p * PAGE_SIZE)
  }

  /** The used frames after n allocations. */
  ghost function After(used: set<nat>, total: nat, n: nat): set<nat> {
    if n == 0 then used else AllocFrame(After(used, total, n - 1), total).0
  }

  /** The frame that the allocation after n others takes; total if none is left. */
  ghost function NextFrame(used: set<nat>, total: nat, n: nat): nat {
    LowestFree(After(used, total, n), total)
  }

  ghost function FreeFrame(used: set<nat>, total: nat, address: nat): set<nat> {
    used - {address / PAGE_SIZE}
  }

  class PageFrames {
    const bitmap: array<bv8>
    const totalPages: nat
    var freePages: nat
    var firstFreePage: nat

    ghost function Used(): set<nat>
      requires totalPages <= 8 * bitmap.Length
      reads this, bitmap
    {
      UsedFrames(bitmap[..], totalPages)
    }

    /** The counter is exact and every frame below the hint is used. */
    ghost predicate Valid()
      reads this, bitmap
    {
      && totalPages <= 8 * bitmap.Length && totalPages < NO_PAGE
      && freePages == totalPages - |Used()|
      && firstFreePage <= totalPages
      && (forall p :: 0 <= p < firstFreePage ==> p in Used())
    }

    /** All frames free, then the kernel's frames marked used. */
    constructor (total: nat, kernelEndPage: nat)
      requires total % 8 == 0 && kernelEndPage <= total < NO_PAGE
      ensures Valid() && fresh(bitmap) && totalPages == total
      ensures Used() == Below(kernelEndPage)
    {
      totalPages := total;
      freePages := total;
      bitmap := new bv8[total / 8](_ => 0);
      firstFreePage := 0;
      new;
      AllClear(bitmap[..], total);
      MarkKernel(kernelEndPage);
      firstFreePage := kernelEndPage;
    }

    /** Takes the first n frames out of an empty bitmap. */
    method MarkKernel(n: nat)
      requires n <= totalPages <= 8 * bitmap.Length && Used() == {} && freePages == totalPages
      modifies this`freePages, bitmap
      ensures Used() == Below(n) && freePages == totalPages - n
    {
      for i := 0 to n
        invariant Used() == Below(i) && freePages == totalPages - i
      {
        SetBit(i);
        freePages := freePages - 1;
      }
    }

    method SetBit(p: nat)
      requires p < totalPages <= 8 * bitmap.Length
      modifies bitmap
      ensures Used() == old(Used()) + {p}
    {
      BitmapSet(bitmap[..], p, totalPages);
      ghost var before := bitmap[..];
      bitmap[p / 8] := bitmap[p / 8] | Mask(p % 8);
      assert bitmap[..] == before[p / 8 := before[p / 8] | Mask(p % 8)];
    }

    method ClearBit(p: nat)
      requires p < totalPages <= 8 * bitmap.Length
      modifies bitmap
      ensures Used() == old(Used()) - {p}
    {
      BitmapClear(bitmap[..], p, totalPages);
      ghost var before := bitmap[..];
      bitmap[p / 8] := bitmap[p / 8] & !Mask(p % 8);
      assert bitmap[..] == before[p / 8 := before[p / 8] & !Mask(p % 8)];
    }

    /** Searches from the hint to the end, then from the beginning to the hint. */
    method FindFreePage() returns (page: nat)
      requires totalPages <= 8 * bitmap.Length && firstFreePage <= totalPages < NO_PAGE
      ensures
        var upper := LowestFree(Used(), totalPages, firstFreePage);
        var lower := LowestFree(Used(), firstFreePage);
        page == if upper < totalPages then upper else if lower < firstFreePage then lower else NO_PAGE
    {
      for i := firstFreePage to totalPages
        invariant LowestFree(Used(), totalPages, firstFreePage) == LowestFree(Used(), totalPages, i)
      {
        if !TestBit(bitmap[..], i) {
          return i;
        }
      }
      for i := 0 to firstFreePage
        invariant LowestFree(Used(), firstFreePage) == LowestFree(Used(), firstFreePage, i)
      {
        if !TestBit(bitmap[..], i) {
          return i;
        }
      }
      return NO_PAGE;
    }

    /** Takes the lowest free frame and answers its address; 0 when none is free. */
    method AllocPage() returns (address: nat)
      requires Valid()
      modifies this, bitmap
      ensures Valid()
      ensures (Used(), address) == AllocFrame(old(Used()), totalPages)
    {
      if freePages == 0 {
        AllUsed(Used(), totalPages);
        return 0;
      }
      var page := FindFreePage();
      HintedSearchFindsLowest(Used(), totalPages, firstFreePage);
      if page == NO_PAGE {
        return 0;
      }
      SetBit(page);
      freePages := freePages - 1;
      if page == firstFreePage {
        firstFreePage := firstFreePage + 1;
      }
      return page * PAGE_SIZE;
    }

    /** Gives a frame back; addresses beyond the memory and frames already free are ignored. */
    method FreePage(address: nat)
      requires Valid()
      modifies this, bitmap
      ensures Valid()
      ensures Used() == FreeFrame(old(Used()), totalPages, address)
    {
      var page := address / PAGE_SIZE;
      if page >= totalPages {
        return;
      }
      if !TestBit(bitmap[..], page) {
        return;
      }
      ClearBit(page);
      freePages := freePages + 1;
      if page < firstFreePage {
        firstFreePage := page;
      }
    }
  }

  lemma UsedBounded(used: set<nat>, total: nat)
    requires forall p :: p in used ==> p < total
    ensures |used| <= total
    ensures |used| < total ==> LowestFree(used, total) < total
  {
    SubsetSize(used, Below(total));
    if LowestFree(used, total) == total {
      SubsetSize(Below(total), used);
    }
  }

  lemma AllUsed(used: set<nat>, total: nat)
    requires (forall p :: p in used ==> p < total) && |used| == total
    ensures LowestFree(used, total) == total
  {
    var p := LowestFree(used, total);
    if p < total {
      UsedBounded(used + {p}, total);
    }
  }

  lemma SubsetSize<T>(a: set<T>, b: set<T>)
    requires a <= b
    ensures |a| <= |b|
  {
    assert b == a + (b - a);
  }

  /** While every frame below the hint is used, the search from the hint on finds the lowest free frame,
      and the search before the hint never finds any. */
  lemma HintedSearchFindsLowest(used: set<nat>, total: nat, hint: nat)
    requires hint <= total && forall p :: 0 <= p < hint ==> p in used
    ensures LowestFree(used, total, hint) == LowestFree(used, total)
    ensures LowestFree(used, hint) == hint
  {
  }

  // ----- what the allocator promises -----

  /** The answer 0 means that memory is exhausted exactly as long as frame 0 is in use. */
  lemma ZeroMeansExhaustedIff(used: set<nat>, total: nat)
    requires total > 0
    ensures AllocFrame(used, total).1 == 0 <==> LowestFree(used, total) == total || 0 !in used
  {
  }

  /** A run of allocations and releases. */
  datatype Request = Alloc | Free(address: nat)

  ghost function Serve(used: set<nat>, total: nat, r: Request): set<nat> {
    match r
    case Alloc => AllocFrame(used, total).0
    case Free(a) => FreeFrame(used, total, a)
  }

  ghost function ServeAll(used: set<nat>, total: nat, rs: seq<Request>): set<nat> {
    if rs == [] then used else Serve(ServeAll(used, total, rs[..|rs| - 1]), total, rs[|rs| - 1])
  }

  /** Over any run of requests a frame in use stays in use until an address inside it is freed, and no
      allocation hands it out in between: frames held at the same time are distinct. */
  lemma {:induction false} HeldFramesStayHeld(used: set<nat>, total: nat, rs: seq<Request>, p: nat)
    requires p in used
    requires forall i :: 0 <= i < |rs| && rs[i].Free? ==> rs[i].address / PAGE_SIZE != p
    ensures p in ServeAll(used, total, rs)
    ensures var now := ServeAll(used, total, rs);
      AllocFrame(now, total).0 != now ==> AllocFrame(now, total).1 != p * PAGE_SIZE
  {
    if rs != [] {
      HeldFramesStayHeld(used, total, rs[..|rs| - 1], p);
    }
  }

  /** Freeing the frame just allocated undoes the allocation. */
  lemma AllocThenFree(used: set<nat>, total: nat)
    requires LowestFree(used, total) < total
    ensures FreeFrame(AllocFrame(used, total).0, total, AllocFrame(used, total).1) == used
  {
    var p := LowestFree(used, total);
    assert p * PAGE_SIZE / PAGE_SIZE == p;
  }
}
