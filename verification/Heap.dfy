/** The kernel heap (kernel/memory/kmalloc.c): allocations of whole pages, each
    starting with a header, on top of the range allocator and of paging. */
module Heap {
  import opened Basics
  import opened Frames
  import opened Words
  import opened Tables
  import opened Paging
  import opened Holes
  import opened HoleList
  import opened Ledger
  import opened HeaderLedger
  import opened HeapState
  import opened Bytes
  import opened RangeAllocator

  const NULL := 0

  /** A power of two up to the page size is exactly a divisor of it. */
  predicate IsAlignment(a: int) {
    0 < a <= PAGE_SIZE && PAGE_SIZE % a == 0
  }

  /** Where the data starts: the size of a header, rounded up. */
  function DataOffset(alignment: int): int
    requires IsAlignment(alignment)
  {
    (HEADER_SIZE + (alignment - 1)) / alignment * alignment
  }

  /** header_from_ptr undoes the placement, also when the data starts a page later. */
  lemma HeaderFromPtr(page: int, offset: int)
    requires HEADER_SIZE <= offset <= PAGE_SIZE
    ensures HeaderPage(page * PAGE_SIZE + offset) == page
  {
    if offset == PAGE_SIZE { assert page * PAGE_SIZE + offset == (page + 1) * PAGE_SIZE; }
  }

  lemma DataAligned(page: int, alignment: int)
    requires IsAlignment(alignment)
    ensures HEADER_SIZE <= DataOffset(alignment) <= PAGE_SIZE && DataOffset(alignment) < HEADER_SIZE + alignment
            && (page * PAGE_SIZE + DataOffset(alignment)) % alignment == 0
  {
    var a, q, k := alignment, (HEADER_SIZE + (alignment - 1)) / alignment, PAGE_SIZE / alignment;
    if a >= HEADER_SIZE { OnceIn(HEADER_SIZE + (a - 1), a); }
    assert PAGE_SIZE == k * a && DataOffset(a) == q * a;
    MultiplesOf(page, k, q, a);
  }

  lemma MultiplesOf(page: int, k: int, q: int, a: int)
    requires a > 0
    ensures (page * (k * a) + q * a) % a == 0
  {
    assert page * (k * a) + q * a == (page * k + q) * a;
    MultipleOf(page * k + q, a);
  }

  lemma MultipleOf(q: int, a: int)
    requires a > 0
    ensures q * a % a == 0
  {
    var r := q * a % a;
    assert q * a == q * a / a * a + r;
    assert (q - q * a / a) * a == r;
    SmallMultiple(q - q * a / a, a);
  }

  lemma OnceIn(x: int, a: int)
    requires 0 < a <= x < 2 * a
    ensures x / a == 1
  {
    var q, r := x / a, x % a;
    assert (q - 1) * a == x - r - a;
    SmallMultiple(q - 1, a);
  }

  lemma BlockPlaced(page: int, offset: int, size: int, lo: int, hi: int)
    requires HEADER_SIZE <= offset <= PAGE_SIZE && size > 0
    requires lo <= page && page + RoundUp(offset + size) / PAGE_SIZE <= hi
    ensures BlockShape(page * PAGE_SIZE + offset, Block(page, RoundUp(offset + size) / PAGE_SIZE, offset + size), lo,
                       hi)
  {
    HeaderFromPtr(page, offset);
    RoundUpPages(offset + size);
  }

  lemma SoleBlock(b: Block, s: Snapshot)
    requires SoleRange(s.counts, s.view, s.d, b.page, b.pages) && |s.pages| == |s.counts|
    requires Flagged(s.view, s.d, b.page, b.pages, PAGE_WRITE + PAGE_GLOBAL)
    ensures BlockMapped(b, s)
  {
  }

  lemma HeaderStored(p: Page, bytes: int)
    requires 0 <= bytes < WORD
    ensures var q := Store32(Store32(p, 0, MAGIC), 4, bytes); Load32(q, 0) == MAGIC && Load32(q, 4) == bytes
  {
    LoadStore(p, 0, MAGIC, 0);
    LoadStore(Store32(p, 0, MAGIC), 4, bytes, 0);
    LoadStore(Store32(p, 0, MAGIC), 4, bytes, 4);
  }

  /** The first n pages of the first hole that has them have been taken. */
  ghost predicate TakenFirst(holes0: seq<Hole>, holes: seq<Hole>, page: int, n: nat) {
    var k := FirstFit(holes0, n);
    n > 0 && k < |holes0| && holes0[k].page == page && holes == Take(holes0, k, n)
  }

  /** There is room for three pages but two frames only: the room is lost, and the frames are. */
  lemma FramesRunOut(page: int)
    ensures Fits([Hole(page, 10)], 3) && !Provided([Hole(page, 10)], 3, 2)
  {
    assert FirstFit([Hole(page, 10)], 3) == 0;
  }

  /** An allocation of n pages changes the reference counts by what taking the run does to the
      header of its hole, and by a frame for each page. */
  ghost predicate AllocCounted(holes: seq<Hole>, n: nat, was: seq<RefCount>, now: seq<RefCount>,
                               view0: (int, int) -> Mapping, view: (int, int) -> Mapping, d: int, page: int)
  {
    exists mid: seq<RefCount> :: TakeCounted(holes, n, was, mid, view0, d) && Charged(mid, now, view, d, page, n)
  }

  /** How giving back pages that do not follow a hole changes the reference counts. */
  ghost predicate GiveCounted(holes: seq<Hole>, page: int, n: nat, was: seq<RefCount>, now: seq<RefCount>,
                              view0: (int, int) -> Mapping, view: (int, int) -> Mapping, d: int)
  {
    var k := Position(holes, page);
    !(k > 0 && holes[k - 1].End() == page) ==> HeaderCounted(holes, k, page, n, was, now, view0, view, d)
  }

  /** ... and freeing a block of n pages: the other way round. */
  ghost predicate FreeCounted(holes: seq<Hole>, page: int, n: nat, was: seq<RefCount>, now: seq<RefCount>,
                              view0: (int, int) -> Mapping, view: (int, int) -> Mapping, d: int)
  {
    exists mid: seq<RefCount> ::
      Charged(mid, was, view0, d, page, n) && GiveCounted(holes, page, n, mid, now, view0, view, d)
  }

  lemma FreeCountedBy(holes: seq<Hole>, page: int, n: nat, was: seq<RefCount>, mid: seq<RefCount>, now: seq<RefCount>,
                      view0: (int, int) -> Mapping, view1: (int, int) -> Mapping, view: (int, int) -> Mapping,
                      dirs: set<int>, d: int)
    requires Charged(mid, was, view0, d, page, n) && GiveCounted(holes, page, n, mid, now, view1, view, d)
    requires RunOnly(view0, view1, dirs, page, n) && d in dirs
    ensures FreeCounted(holes, page, n, was, now, view0, view, d)
  {
    assert !InRun(page + n, page, n);
    assert GiveCounted(holes, page, n, mid, now, view0, view, d);
  }

  /** A block is allocated, from holes0, and with the counts as they were then it is freed. */
  lemma BlockReturns(holes0: seq<Hole>, holes: seq<Hole>, lo: int, hi: int, n: nat, page: int, was: seq<RefCount>,
                     mid: seq<RefCount>, now: seq<RefCount>, view0: (int, int) -> Mapping,
                     view1: (int, int) -> Mapping, d0: int, view2: (int, int) -> Mapping,
                     view: (int, int) -> Mapping, d: int)
    requires Canonical(holes0, lo, hi) && TakenFirst(holes0, holes, page, n)
    requires AllocCounted(holes0, n, was, mid, view0, view1, d0, page)
    requires FreeCounted(holes, page, n, mid, now, view2, view, d)
    requires forall w :: page <= w < page + n ==> view2(d, w) == view1(d0, w)
    requires SoleAt(was, view0(d0, page)) && forall k :: 0 <= k < |holes| ==> SoleAt(mid, view2(d, holes[k].page))
    ensures now == was <==> HeaderReturns(holes0, n, was, view0, d0)
  {
    hide TakeCounted, Charged, HeaderCounted, HeaderReturns, Take, Canonical, Position;
    var a: seq<RefCount> :| TakeCounted(holes0, n, was, a, view0, d0) && Charged(a, mid, view1, d0, page, n);
    var b: seq<RefCount> :| Charged(b, mid, view2, d, page, n) && GiveCounted(holes, page, n, b, now, view2, view, d);
    ChargedOnce(a, b, mid, view1, d0, view2, d, page, n);
    TakenFirstIs(holes0, holes, page, n);
    var k := FirstFit(holes0, n);
    TakenAround(holes0, lo, hi, k, n);
    if n < holes0[k].size {
      assert holes[k].page == page + n;
      ChargedAtMost(b, mid, view2, d, page, n, view2(d, page + n));
    }
    CountsReturn(holes0, lo, hi, n, was, b, now, view0, d0, view2, view, d, page);
  }

  lemma FirstAlone(holes: seq<Hole>, s: Snapshot, n: nat)
    requires forall k :: 0 <= k < |holes| ==> SoleAt(s.counts, s.view(s.d, holes[k].page))
    ensures forall left, page :: TakenFirst(holes, left, page, n) ==> SoleAt(s.counts, s.view(s.d, page))
  {
  }

  /** A block is as long as was asked for. */
  lemma BlockPages(ptr: int, b: Block, alignment: int, size: int, n: nat)
    requires IsAlignment(alignment) && size > 0 && n == PagesFor(DataOffset(alignment) + size)
    requires ptr == b.page * PAGE_SIZE + DataOffset(alignment) && ptr + size == b.page * PAGE_SIZE + b.bytes
    requires 0 < b.bytes <= b.pages * PAGE_SIZE < b.bytes + PAGE_SIZE
    ensures b.pages == n
  {
    RoundUpIs(b.bytes, b.pages);
  }

  /** The heap has nothing left after an allocation exactly if the run was its only hole. */
  lemma WholeTaken(holes0: seq<Hole>, holes: seq<Hole>, lo: int, hi: int, page: int, n: nat)
    requires TakenFirst(holes0, holes, page, n) && Canonical(holes0, lo, hi)
    ensures holes == [] <==> |holes0| == 1 && holes0[0].size == n
    ensures Give(holes, Position(holes, page), page, n) == holes0
  {
    var k := FirstFit(holes0, n);
    TakenAll(holes0, k, n);
    TakeThenGive(holes0, lo, hi, k, n);
  }

  /** Before pages were charged no frame had more references. */
  lemma ChargedAtMost(was: seq<RefCount>, now: seq<RefCount>, view: (int, int) -> Mapping, d: int, v: int, n: nat,
                      m: Mapping)
    requires Charged(was, now, view, d, v, n) && SoleAt(now, m)
    ensures AtMostOneAt(was, m)
  {
  }

  lemma FreeOnly(holes: seq<Hole>, view0: (int, int) -> Mapping, view: (int, int) -> Mapping, dirs: set<int>, d: int)
    requires OnlyFreePages(holes, view0, view, dirs, d) && d in dirs
    ensures forall w :: !IsFree(holes, w) ==> view(d, w) == view0(d, w)
  {
  }

  lemma TakenFirstIs(holes0: seq<Hole>, holes: seq<Hole>, page: int, n: nat)
    requires TakenFirst(holes0, holes, page, n)
    ensures Fits(holes0, n) && n > 0 && page == holes0[FirstFit(holes0, n)].page
            && holes == Take(holes0, FirstFit(holes0, n), n)
  {
  }

  lemma TakenFirstFree(holes0: seq<Hole>, holes: seq<Hole>, page: int, n: nat)
    requires TakenFirst(holes0, holes, page, n)
    ensures RunFree(holes0, page, n)
  {
    forall w | InRun(w, page, n) ensures IsFree(holes0, w) { assert InHole(holes0[FirstFit(holes0, n)], w); }
  }

  /** What is given back is free, and only free pages have other mappings. */
  lemma GivenViews(holes0: seq<Hole>, holes: seq<Hole>, lo: int, hi: int, view0: (int, int) -> Mapping,
                   view: (int, int) -> Mapping, dirs: set<int>, d: int, page: int, n: nat)
    requires Canonical(holes0, lo, hi) && n > 0 && lo <= page && page + n <= hi && NoneFree(holes0, page, n)
    requires holes == Give(holes0, Position(holes0, page), page, n) && OnlyFreePages(holes, view0, view, dirs, d)
             && d in dirs
    ensures RunFree(holes, page, n) && forall w :: !IsFree(holes, w) ==> view(d, w) == view0(d, w)
  {
    GiveFree(holes0, lo, hi, page, n);
  }

  class Heap {
    const vm: Paging
    const ra: RangeAllocator
    ghost var live: map<int, Block>
    /** Pages on their way from free to live or back, and those lost on the way. */
    ghost var transit: set<int>
    /** The references that frames have from outside the heap. */
    ghost var others: seq<RefCount>

    ghost predicate Valid()
      reads this, vm, ra, vm.pa, vm.pa.bitmap, vm.pa.refCounts
    {
      && ra.vm == vm && ra.Valid() && ra.lo >= KERNEL_VPAGE
      && HeapInv(ra.list, live, transit, ra.lo, ra.hi, others, Snap(vm))
    }

    /** The heap starts as one hole. */
    constructor (ra: RangeAllocator)
      requires ra.Valid() && ra.lo >= KERNEL_VPAGE && ra.list.holes == [Hole(ra.lo, ra.hi - ra.lo)]
      requires SoleHeads(ra.list.heads, ra.vm.view, ra.vm.current, ra.vm.Counts())
      ensures Valid() && this.ra == ra && vm == ra.vm && live == map[] && transit == {}
    {
      this.ra, vm, live, transit := ra, ra.vm, map[], {};
      ghost var s := Snapshot(ra.vm.view, ra.vm.current, ra.vm.Counts(), ra.vm.ram.pages);
      others := OthersOf(s, ra.lo, ra.hi);
      assert InHole(ra.list.holes[0], ra.lo);
      forall w | ra.lo <= w < ra.hi ensures IsFree(ra.list.holes, w) { assert InHole(ra.list.holes[0], w); }
    }

    /** range_allocator_alloc: the run is in transit from now on. */
    method TakeRange(size: int) returns (r: AllocResult, ghost page: int)
      requires Valid() && ra.ranges != 0 && 0 < size <= WORD - PAGE_SIZE
      modifies ra`list, ra`ranges, this`transit, vm`ram, vm`owners, vm`view, vm.pa, vm.pa.bitmap, vm.pa.refCounts
      ensures Valid() && Kept(live, old(Snap(vm)), Snap(vm))
      ensures vm.current == old(vm.current) && vm.ram.dirs == old(vm.ram.dirs) && vm.ram.pdes == old(vm.ram.pdes)
      ensures PagesKept(old(ra.list.holes), ra.list.holes, old(vm.view), vm.view, vm.ram.dirs, 0, 0)
      ensures FramesKept(old(ra.list), ra.list, old(Snap(vm)), Snap(vm), 0, 0)
      ensures r.Address? <==> Fits(old(ra.list.holes), RoundUp(size) / PAGE_SIZE)
      ensures !r.Address? ==> transit == old(transit) && ra.list == old(ra.list) && Snap(vm) == old(Snap(vm))
      ensures |FreeSet(vm.Counts())|
              == FreeAfterTake(old(ra.list.holes), RoundUp(size) / PAGE_SIZE, |FreeSet(old(vm.Counts()))|)
      ensures r.Address? ==> TakenFirst(old(ra.list.holes), ra.list.holes, page, RoundUp(size) / PAGE_SIZE)
                             && TakeCounted(old(ra.list.holes), RoundUp(size) / PAGE_SIZE, old(vm.Counts()),
                                            vm.Counts(), old(vm.view), vm.current)
      ensures r.Address? ==>
                var n := RoundUp(size) / PAGE_SIZE;
                && r.addr == page * PAGE_SIZE && transit == old(transit) + Run(page, n) && old(transit) !! Run(page, n)
                && n > 0 && ra.lo <= page && page + n <= ra.hi
                && forall w :: InRun(w, page, n) ==> w in transit && vm.view(vm.current, w).Unmapped?
    {
      hide HeapInv, ra.Valid, ra.Quiet, Kept, FramesKept, PagesKept, IsFree, RoundUp, Take, FirstFit, OnlyFreePages,
           RangeStep, SoleHeads, Canonical, Snapshot.SoleFrames, FreeSet, RunFree, FreeAfterTake, Fits,
           TakeCounted;
      ghost var list0, s0 := ra.list, Snap(vm);
      Soles();
      Facts();
      NothingMoved();
      RoundUpPages(size);
      page := 0;
      FitsIff(list0.holes, ra.lo, ra.hi, RoundUp(size) / PAGE_SIZE, |FreeSet(s0.counts)|);
      r := ra.Alloc(size);
      Stepped(ra);
      ra.FramesConserved();
      FramesByRange(list0, ra.list, ra.lo, ra.hi, s0, Snap(vm));
      if r.Address? {
        ghost var n := RoundUp(size) / PAGE_SIZE;
        ghost var k := FirstFit(list0.holes, n);
        page := list0.holes[k].page;
        PagesByTake(list0.holes, ra.list.holes, ra.lo, ra.hi, k, n, s0.view, vm.view, vm.ram.dirs, vm.current);
        FreeOnly(list0.holes, s0.view, vm.view, vm.ram.dirs, vm.current);
        RangeTaken(list0, ra.list, live, transit, ra.lo, ra.hi, others, s0, Snap(vm), k, n);
        transit := transit + Run(page, n);
      }
    }

    /** paging_map_to_free_pages, for pages in transit. */
    method MapRun(page: int, n: nat) returns (rc: Status, ghost done: nat)
      requires Valid() && ra.lo <= page && page + n <= ra.hi
      requires forall w :: InRun(w, page, n) ==> w in transit && vm.view(vm.current, w).Unmapped?
      modifies vm`ram, vm`owners, vm`view, vm.pa, vm.pa.bitmap, vm.pa.refCounts
      ensures Valid() && Kept(live, old(Snap(vm)), Snap(vm)) && vm.ram.pages == old(vm.ram.pages)
      ensures vm.current == old(vm.current) && vm.ram.dirs == old(vm.ram.dirs) && vm.ram.pdes == old(vm.ram.pdes)
      ensures RunOnly(old(vm.view), vm.view, vm.ram.dirs, page, n)
      ensures done <= n && Charged(old(vm.Counts()), vm.Counts(), vm.view, vm.current, page, done)
      ensures rc.Ok? ==> done == n && SoleRange(vm.Counts(), vm.view, vm.current, page, n)
      ensures rc.Ok? ==> Flagged(vm.view, vm.current, page, n, PAGE_WRITE + PAGE_GLOBAL)
      ensures Afforded(old(vm.Counts()), vm.Counts(), n, rc.Ok?)
    {
      ghost var s0 := Snap(vm);
      ra.HeadsFree();
      rc, done := vm.MapToFreePages(page, n, PAGE_WRITE + PAGE_GLOBAL);
      RunMapped(ra.list, live, transit, ra.lo, ra.hi, others, s0, Snap(vm), page, done);
      HeldStays(ra.list.heads, s0.view, vm.view, vm.current, s0.pages, vm.ram.pages);
      ChargedSole(s0.counts, vm.Counts(), vm.view, vm.current, page, done, PAGE_WRITE + PAGE_GLOBAL);
    }

    /** The header of a block, and zeros from `ptr` on. */
    method WriteBlock(page: int, ghost n: nat, bytes: int, ptr: int, size: nat)
      requires vm.Valid() && n > 0 && Spread(vm.view, vm.current, |vm.ram.pages|, page, n)
      requires 0 <= bytes < WORD && page * PAGE_SIZE + HEADER_SIZE <= ptr && ptr + size <= (page + n) * PAGE_SIZE
      modifies vm`ram
      ensures vm.Valid() && vm.ram == old(vm.ram).(pages := vm.ram.pages)
      ensures BlockHeader(Block(page, n, bytes), Snap(vm))
      ensures Zeroed(vm.ram.pages, vm.view, vm.current, page, n, ptr, size)
      ensures OnRun(old(vm.ram.pages), vm.ram.pages, vm.view, vm.current, page, n)
    {
      ghost var p := vm.PageAt(page);
      vm.StoreWord(page, 0, MAGIC);
      vm.StoreWord(page, 4, bytes);
      HeaderStored(p, bytes);
      ghost var mid := vm.ram.pages;
      assert OnRun(old(vm.ram.pages), mid, vm.view, vm.current, page, n) by {
        assert Carries(vm.view, vm.current, page, n, vm.view(vm.current, page).entry.frame);
      }
      Memset(vm, ptr, 0, size, page, n);
      WordKept(mid, vm.ram.pages, vm.view, vm.current, page, n, ptr, seq(size, _ => 0), 0);
      WordKept(mid, vm.ram.pages, vm.view, vm.current, page, n, ptr, seq(size, _ => 0), 4);
      PaintedOnRun(old(vm.ram.pages), mid, vm.ram.pages, vm.view, vm.current, page, n, ptr, seq(size, _ => 0));
      PaintedZeros(mid, vm.ram.pages, vm.view, vm.current, page, n, ptr, size);
    }

    /** ... for a run of pages in transit. */
    method FillRun(page: int, ghost n: nat, bytes: int, ptr: int, size: nat)
      requires Valid() && n > 0 && forall w :: InRun(w, page, n) ==> w in transit
      requires SoleRange(vm.Counts(), vm.view, vm.current, page, n)
      requires 0 <= bytes < WORD && page * PAGE_SIZE + HEADER_SIZE <= ptr && ptr + size <= (page + n) * PAGE_SIZE
      modifies vm`ram
      ensures Valid() && Kept(live, old(Snap(vm)), Snap(vm)) && vm.ram == old(vm.ram).(pages := vm.ram.pages)
      ensures BlockHeader(Block(page, n, bytes), Snap(vm))
      ensures Zeroed(vm.ram.pages, vm.view, vm.current, page, n, ptr, size)
      ensures OnRun(old(vm.ram.pages), vm.ram.pages, vm.view, vm.current, page, n)
    {
      ghost var s0 := Snap(vm);
      ra.HeadsFree();
      AllSole(vm);
      WriteBlock(page, n, bytes, ptr, size);
      RunWritten(ra.list, live, transit, ra.lo, ra.hi, others, s0, Snap(vm), page, n);
      forall w | w in ra.list.heads { HeadsElsewhere(ra.list, s0, page, n, w); }
      HeldStays(ra.list.heads, s0.view, vm.view, vm.current, s0.pages, vm.ram.pages);
    }

    /** No header is on a page in transit. */
    lemma HeadsOff(page: int, n: nat)
      requires Valid() && forall w :: InRun(w, page, n) ==> w in transit
      ensures forall w :: w in ra.list.heads ==> !InRun(w, page, n)
    {
      ra.HeadsFree();
    }

    /** The pages of a block are mapped and its first bytes written. */
    method SetUpBlock(page: int, n: nat, bytes: int, ptr: int, size: nat) returns (rc: Status)
      requires Valid() && n > 0 && ra.lo <= page && page + n <= ra.hi && 0 <= bytes < WORD
      requires forall w :: InRun(w, page, n) ==> w in transit && vm.view(vm.current, w).Unmapped?
      requires page * PAGE_SIZE + HEADER_SIZE <= ptr && ptr + size <= (page + n) * PAGE_SIZE
      modifies vm`ram, vm`owners, vm`view, vm.pa, vm.pa.bitmap, vm.pa.refCounts
      ensures Valid() && Kept(live, old(Snap(vm)), Snap(vm))
      ensures vm.current == old(vm.current) && vm.ram.dirs == old(vm.ram.dirs) && vm.ram.pdes == old(vm.ram.pdes)
      ensures RunOnly(old(vm.view), vm.view, vm.ram.dirs, page, n)
      ensures FramesKept(ra.list, ra.list, old(Snap(vm)), Snap(vm), 0, 0)
      ensures Afforded(old(vm.Counts()), vm.Counts(), n, rc.Ok?)
      ensures rc.Ok? ==> Charged(old(vm.Counts()), vm.Counts(), vm.view, vm.current, page, n)
      ensures rc.Ok? ==> BlockMapped(Block(page, n, bytes), Snap(vm)) && BlockHeader(Block(page, n, bytes), Snap(vm))
      ensures rc.Ok? ==> Zeroed(vm.ram.pages, vm.view, vm.current, page, n, ptr, size)
    {
      ghost var s0 := Snap(vm);
      ghost var done;
      HeadsOff(page, n);
      rc, done := MapRun(page, n);
      ghost var s1 := Snap(vm);
      if rc.NoMemory? {
        FramesByMap(ra.list, s0, s1, s1, page, n, done);
        return;
      }
      FillRun(page, n, bytes, ptr, size);
      FramesByMap(ra.list, s0, s1, Snap(vm), page, n, n);
      KeptOn(ra.list, live, transit, ra.lo, ra.hi, others, s0, s1, Snap(vm));
      SoleBlock(Block(page, n, bytes), Snap(vm));
    }

    /** Nothing has changed. */
    twostate predicate Undone()
      reads this, ra, vm, vm.pa.refCounts
    {
      transit == old(transit) && ra.list == old(ra.list) && Snap(vm) == old(Snap(vm))
    }

    /** The first run of n pages has been taken and is nobody's, and all frames are gone. */
    twostate predicate Lost(n: nat)
      reads this, ra, vm, vm.pa.refCounts
    {
      && Fits(old(ra.list.holes), n) && n > 0
      && var k := FirstFit(old(ra.list.holes), n);
      && ra.list.holes == Take(old(ra.list.holes), k, n)
      && transit == old(transit) + Run(old(ra.list.holes)[k].page, n) && |FreeSet(vm.Counts())| == 0
    }

    /** An allocation of n pages succeeds exactly if some run of n pages is free, and then a
        frame for each of them. Without a run nothing changes; without the frames the run and
        all frames there were are lost. */
    twostate predicate AsProvided(n: nat, ptr: int)
      reads this, ra, vm, vm.pa.refCounts
    {
      var holes, free := old(ra.list.holes), |FreeSet(old(vm.Counts()))|;
      && (ptr != NULL <==> Provided(holes, n, free))
      && (!Fits(holes, n) ==> Undone())
      && (Fits(holes, n) && ptr == NULL ==> Lost(n))
      && (ptr != NULL ==> |FreeSet(vm.Counts())| == FreeAfterTake(holes, n, free) - n)
    }

    /** A block whose data starts `offset` bytes after its header. */
    method PlaceBlock(offset: int, size: int) returns (ptr: int)
      requires Valid() && ra.ranges != 0 && HEADER_SIZE <= offset <= PAGE_SIZE && 0 < size
               && offset + size <= WORD - PAGE_SIZE
      modifies this`live, this`transit, ra`list, ra`ranges, vm`ram, vm`owners, vm`view, vm.pa, vm.pa.bitmap,
               vm.pa.refCounts
      ensures Valid() && Kept(old(live), old(Snap(vm)), Snap(vm))
      ensures vm.current == old(vm.current) && vm.ram.dirs == old(vm.ram.dirs) && vm.ram.pdes == old(vm.ram.pdes)
      ensures PagesKept(old(ra.list.holes), ra.list.holes, old(vm.view), vm.view, vm.ram.dirs, 0, 0)
      ensures FramesKept(old(ra.list), ra.list, old(Snap(vm)), Snap(vm), 0, 0)
      ensures ptr == NULL ==> live == old(live)
      ensures AsProvided(PagesFor(offset + size), ptr)
      ensures ptr != NULL ==>
                ptr !in old(live) && ptr in live && live == old(live)[ptr := live[ptr]] && transit == old(transit)
      ensures ptr != NULL ==>
                AllocCounted(old(ra.list.holes), live[ptr].pages, old(vm.Counts()), vm.Counts(), old(vm.view), vm.view,
                             vm.current, live[ptr].page)
      ensures ptr != NULL ==> TakenFirst(old(ra.list.holes), ra.list.holes, live[ptr].page, live[ptr].pages)
      ensures ptr != NULL ==> ptr == live[ptr].page * PAGE_SIZE + offset && live[ptr].bytes == offset + size
      ensures ptr != NULL ==> Zeroed(vm.ram.pages, vm.view, vm.current, live[ptr].page, live[ptr].pages, ptr, size)
    {
      hide HeapInv, Kept, ra.Valid, FramesKept, PagesKept, RunOnly, OnlyFreePages, TakenFirst, FreeSet, FreeAfterTake,
           Fits, TakeCounted, Charged;
      ghost var list0, live0, s0 := ra.list, live, Snap(vm);
      var bytes := offset + size;
      var r;
      ghost var at;
      r, at := TakeRange(bytes);
      if !r.Address? { return NULL; }
      ghost var s1, list1 := Snap(vm), ra.list;
      var page, n := r.addr / PAGE_SIZE, RoundUp(bytes) / PAGE_SIZE;
      assert page == at;
      BlockPlaced(page, offset, size, ra.lo, ra.hi);
      ptr := r.addr + offset;
      var rc := SetUpBlock(page, n, bytes, ptr, size);
      FramesThen(list0, list1, list1, s0, s1, Snap(vm), 0, 0);
      TakenFirstFree(list0.holes, list1.holes, page, n);
      TakenFirstIs(list0.holes, list1.holes, page, n);
      PagesByRun(list1.holes, s1.view, vm.view, vm.ram.dirs, page, n);
      PagesOfRun(list0.holes, list1.holes, s0.view, s1.view, vm.view, vm.ram.dirs, page, n, 0, 0);
      KeptOn(list0, live0, old(transit), ra.lo, ra.hi, others, s0, s1, Snap(vm));
      if rc.NoMemory? { return NULL; }
      ghost var b := Block(page, n, bytes);
      Adopted(ra.list, live, live[ptr := b], old(transit), transit, ra.lo, ra.hi, others, Snap(vm), ptr, b);
      transit, live := old(transit), live[ptr := b];
    }

    lemma Soles()
      requires Valid()
      ensures Snap(vm).SoleFrames()
    {
      AllSole(vm);
    }

    lemma NothingMoved()
      requires Valid()
      ensures Kept(live, Snap(vm), Snap(vm)) && PagesKept(ra.list.holes, ra.list.holes, vm.view, vm.view, vm.ram.dirs,
                                                          0, 0)
      ensures FramesKept(ra.list, ra.list, Snap(vm), Snap(vm), 0, 0)
    {
    }

    /** kaligned_alloc. */
    method KalignedAlloc(alignment: int, size: int) returns (ptr: int)
      requires Valid() && (size > 0 ==> ra.ranges != 0) && IsAlignment(alignment) && 0 <= size
               && DataOffset(alignment) + size <= WORD - PAGE_SIZE
      modifies this`live, this`transit, ra`list, ra`ranges, vm`ram, vm`owners, vm`view, vm.pa, vm.pa.bitmap,
               vm.pa.refCounts
      ensures Valid() && Kept(old(live), old(Snap(vm)), Snap(vm))
      ensures vm.current == old(vm.current) && vm.ram.dirs == old(vm.ram.dirs) && vm.ram.pdes == old(vm.ram.pdes)
      ensures PagesKept(old(ra.list.holes), ra.list.holes, old(vm.view), vm.view, vm.ram.dirs, 0, 0)
      ensures FramesKept(old(ra.list), ra.list, old(Snap(vm)), Snap(vm), 0, 0)
      ensures size == 0 ==> ptr == NULL && Undone()
      ensures size > 0 ==> AsProvided(PagesFor(DataOffset(alignment) + size), ptr)
      ensures ptr == NULL ==> live == old(live)
      ensures ptr != NULL ==>
                ptr !in old(live) && ptr in live && live == old(live)[ptr := live[ptr]] && transit == old(transit)
      ensures ptr != NULL ==>
                AllocCounted(old(ra.list.holes), live[ptr].pages, old(vm.Counts()), vm.Counts(), old(vm.view), vm.view,
                             vm.current, live[ptr].page)
      ensures ptr != NULL ==> TakenFirst(old(ra.list.holes), ra.list.holes, live[ptr].page, live[ptr].pages)
      ensures ptr != NULL ==> ptr == live[ptr].page * PAGE_SIZE + DataOffset(alignment)
      ensures ptr != NULL ==> ptr % alignment == 0 && ptr + size == live[ptr].page * PAGE_SIZE + live[ptr].bytes
      ensures ptr != NULL ==> Zeroed(vm.ram.pages, vm.view, vm.current, live[ptr].page, live[ptr].pages, ptr, size)
    {
      hide HeapInv, Kept, ra.Valid, FramesKept, PagesKept, TakenFirst, AllocCounted;
      if size == 0 {
        NothingMoved();
        return NULL;
      }
      DataAligned(0, alignment);
      ptr := PlaceBlock(DataOffset(alignment), size);
      if ptr != NULL { DataAligned(live[ptr].page, alignment); }
    }

    /** paging_unmap, for pages in transit. */
    method UnmapRun(page: int, n: nat)
      requires Valid() && n > 0 && SoleRange(vm.Counts(), vm.view, vm.current, page, n)
      requires forall w :: InRun(w, page, n) ==> w in transit && Snap(vm).On(w)
      modifies vm`ram, vm`view, vm.pa, vm.pa.bitmap, vm.pa.refCounts
      ensures Valid() && Kept(live, old(Snap(vm)), Snap(vm)) && vm.ram.pages == old(vm.ram.pages)
      ensures forall w :: InRun(w, page, n) ==> vm.view(vm.current, w).Unmapped?
      ensures |FreeSet(vm.Counts())| == |FreeSet(old(vm.Counts()))| + n
      ensures Charged(vm.Counts(), old(vm.Counts()), old(vm.view), vm.current, page, n)
      ensures vm.current == old(vm.current) && vm.ram.dirs == old(vm.ram.dirs) && vm.ram.pdes == old(vm.ram.pdes)
      ensures RunOnly(old(vm.view), vm.view, vm.ram.dirs, page, n)
      ensures FramesKept(ra.list, ra.list, old(Snap(vm)), Snap(vm), page, n)
    {
      hide FramesKept, Kept, FreeSet;
      ghost var s0 := Snap(vm);
      ra.HeadsFree();
      AllSole(vm);
      HeadsOff(page, n);
      vm.Unmap(page, n);
      FramesByUnmap(ra.list, s0, Snap(vm), page, n);
      forall w | InRun(w, page, n) ensures vm.view(vm.current, w).Unmapped? { }
      RunUnmapped(ra.list, live, transit, ra.lo, ra.hi, others, s0, Snap(vm), page, n);
      HeldStays(ra.list.heads, s0.view, vm.view, vm.current, s0.pages, vm.ram.pages);
    }

    lemma Facts()
      requires Valid()
      ensures Canonical(ra.list.holes, ra.lo, ra.hi) && vm.current in vm.ram.dirs && 0 < ra.lo < ra.hi <= VPAGES
      ensures SoleHeads(ra.list.heads, vm.view, vm.current, vm.Counts()) && vm.Valid()
    {
    }

    lemma LiveShape(ptr: int)
      requires Valid() && ptr in live
      ensures BlockShape(ptr, live[ptr], ra.lo, ra.hi)
    {
      assert BlockOk(ptr, live[ptr], ra.lo, ra.hi, Snap(vm));
    }

    lemma LiveRange(ptr: int)
      requires Valid() && ptr in live
      ensures SoleRange(vm.Counts(), vm.view, vm.current, live[ptr].page, live[ptr].pages)
    {
      AllSole(vm);
      Disowned(ra.list, live, transit, ra.lo, ra.hi, others, Snap(vm), ptr, live[ptr]);
    }

    lemma LivePages(ptr: int)
      requires Valid() && ptr in live
      ensures forall w :: InRun(w, live[ptr].page, live[ptr].pages) ==> w !in transit && Snap(vm).On(w)
    {
      assert BlockOk(ptr, live[ptr], ra.lo, ra.hi, Snap(vm));
      forall w | InRun(w, live[ptr].page, live[ptr].pages) ensures w !in transit && Snap(vm).On(w) {
        assert InBlock(live[ptr], w) && InLive(live, w);
      }
    }

    lemma Outside()
      requires Valid()
      ensures ra.lo <= ra.hi && Pooled(Snap(vm), ra.lo, ra.hi, others)
    {
    }

    /** A free frame has no references from outside. */
    lemma FreeIsOurs()
      requires Valid()
      ensures |others| == |vm.Counts()| && forall f :: 0 <= f < |others| && vm.Counts()[f] == 0 ==> others[f] == 0
    {
      forall f | 0 <= f < |others| && vm.Counts()[f] == 0 ensures others[f] == 0 {
        assert InArena(Snap(vm), ra.lo, ra.hi, f);
      }
    }

    lemma TransitRun(page: int, n: nat)
      requires Valid() && Run(page, n) <= transit
      ensures NoneFree(ra.list.holes, page, n)
    {
      forall w | InRun(w, page, n) ensures !IsFree(ra.list.holes, w) { assert w in transit; }
    }

    /** range_allocator_free, for a run in transit. A header page finds a frame, as
        unmapping the run has just freed one: the assertion in kfree holds. */
    method GiveRange(page: int, n: nat, bytes: int, ghost rest: set<int>)
      requires Valid() && ra.ranges != 0 && n > 0 && ra.lo <= page && page + n <= ra.hi
      requires 0 < bytes <= n * PAGE_SIZE < bytes + PAGE_SIZE && transit == rest + Run(page, n) && rest !! Run(page, n)
      requires forall w :: InRun(w, page, n) ==> vm.view(vm.current, w).Unmapped?
      requires |FreeSet(vm.Counts())| > 0
      modifies this`transit, ra`list, ra`ranges, vm`ram, vm`owners, vm`view, vm.pa, vm.pa.bitmap, vm.pa.refCounts
      ensures Valid() && Kept(live, old(Snap(vm)), Snap(vm)) && transit == rest
      ensures vm.current == old(vm.current) && vm.ram.dirs == old(vm.ram.dirs) && vm.ram.pdes == old(vm.ram.pdes)
      ensures ra.list.holes == Give(old(ra.list.holes), Position(old(ra.list.holes), page), page, n)
      ensures |FreeSet(vm.Counts())| + |ra.list.holes| == |FreeSet(old(vm.Counts()))| + |old(ra.list.holes)|
      ensures GiveCounted(old(ra.list.holes), page, n, old(vm.Counts()), vm.Counts(), old(vm.view), vm.view, vm.current)
      ensures PagesKept(old(ra.list.holes), ra.list.holes, old(vm.view), vm.view, vm.ram.dirs, page, n)
      ensures FramesKept(old(ra.list), ra.list, old(Snap(vm)), Snap(vm), 0, 0)
    {
      hide HeapInv, ra.Valid, ra.Quiet, Kept, FramesKept, IsFree, RoundUp, Give, Position, OnlyFreePages, RunFree,
           RangeStep, PagesKept;
      ghost var list0, s0 := ra.list, Snap(vm);
      Soles();
      Facts();
      RoundUpIs(bytes, n);
      TransitRun(page, n);
      var r := ra.Free(page * PAGE_SIZE, bytes, page, n);
      assert r.Freed?;
      Stepped(ra);
      ra.FramesConserved();
      GivenViews(list0.holes, ra.list.holes, ra.lo, ra.hi, s0.view, vm.view, vm.ram.dirs, vm.current, page, n);
      PagesByGive(list0.holes, ra.list.holes, ra.lo, ra.hi, s0.view, vm.view, vm.ram.dirs, vm.current, page, n);
      FramesByRange(list0, ra.list, ra.lo, ra.hi, s0, Snap(vm));
      RangeGiven(list0, ra.list, live, rest, ra.lo, ra.hi, others, s0, Snap(vm), page, n);
      transit := rest;
    }

    /** header_from_ptr finds the header of every live block. */
    method ReadHeader(ptr: int) returns (page: int, bytes: int)
      requires Valid() && ptr in live
      ensures page == live[ptr].page && bytes == live[ptr].bytes
    {
      AllSole(vm);
      Disowned(ra.list, live, transit, ra.lo, ra.hi, others, Snap(vm), ptr, live[ptr]);
      page := HeaderPage(ptr);
      var magic := vm.LoadWord(page, 0);
      assert magic == MAGIC;
      bytes := vm.LoadWord(page, 4);
    }

    /** kfree: exactly this block goes, wherever its data started. */
    method Kfree(ptr: int)
      requires Valid() && (ptr != NULL ==> ra.ranges != 0 && ptr in live)
      modifies this`live, this`transit, ra`list, ra`ranges, vm`ram, vm`owners, vm`view, vm.pa, vm.pa.bitmap,
               vm.pa.refCounts
      ensures Valid() && live == old(live) - {ptr} && transit == old(transit)
      ensures Kept(live, old(Snap(vm)), Snap(vm))
      ensures vm.current == old(vm.current) && vm.ram.dirs == old(vm.ram.dirs) && vm.ram.pdes == old(vm.ram.pdes)
      ensures ptr == NULL ==> Snap(vm) == old(Snap(vm)) && ra.list == old(ra.list)
      ensures ptr != NULL ==> var b := old(live)[ptr];
                && PagesKept(old(ra.list.holes), ra.list.holes, old(vm.view), vm.view, vm.ram.dirs, b.page, b.pages)
                && FramesKept(old(ra.list), ra.list, old(Snap(vm)), Snap(vm), b.page, b.pages)
                && ra.list.holes == Give(old(ra.list.holes), Position(old(ra.list.holes), b.page), b.page, b.pages)
                && |FreeSet(vm.Counts())| + |ra.list.holes|
                   == |FreeSet(old(vm.Counts()))| + |old(ra.list.holes)| + b.pages
                && FreeCounted(old(ra.list.holes), b.page, b.pages, old(vm.Counts()), vm.Counts(), old(vm.view),
                               vm.view, vm.current)
    {
      hide HeapInv, Kept, ra.Valid, SoleRange, RoundUp, FramesKept, PagesKept, RunOnly, OnlyFreePages, RunFree, Give,
           Position, FreeCounted, GiveCounted, Charged;
      NullNotLive(ra.list, live, transit, ra.lo, ra.hi, others, Snap(vm));
      if ptr == NULL {
        NothingMoved();
        return;
      }
      Facts();
      var page, bytes := ReadHeader(ptr);
      ghost var b, list0, s0 := live[ptr], ra.list, Snap(vm);
      Soles();
      Disowned(ra.list, live, transit, ra.lo, ra.hi, others, s0, ptr, b);
      RoundUpIs(bytes, b.pages);
      live, transit := live - {ptr}, transit + Run(b.page, b.pages);
      var n := RoundUp(bytes) / PAGE_SIZE;
      UnmapRun(page, n);
      ghost var s1, taken := Snap(vm), transit;
      GiveRange(page, n, bytes, old(transit));
      FreeCountedBy(list0.holes, page, n, s0.counts, s1.counts, vm.Counts(), s0.view, s1.view, vm.view, vm.ram.dirs,
                    vm.current);
      FramesThen(list0, list0, ra.list, s0, s1, Snap(vm), page, n);
      PagesByRun(list0.holes, s0.view, s1.view, vm.ram.dirs, page, n);
      PagesThen(list0.holes, list0.holes, ra.list.holes, s0.view, s1.view, vm.view, vm.ram.dirs, page, n, page, n);
      KeptOn(list0, live, taken, ra.lo, ra.hi, others, s0, s1, Snap(vm));
    }

    /** The headers of the holes are on frames of their own. */
    lemma HeadsAlone()
      requires Valid()
      ensures forall k :: 0 <= k < |ra.list.holes| ==> SoleAt(vm.Counts(), vm.view(vm.current, ra.list.holes[k].page))
    {
      hide HeapInv, ra.Valid, SoleAt, SoleHeads;
      Facts();
      forall k | 0 <= k < |ra.list.holes|
        ensures SoleAt(vm.Counts(), vm.view(vm.current, ra.list.holes[k].page))
      {
        ra.HeadAlone(k);
      }
    }

    /** kaligned_alloc, and then kfree. It stops exactly if the block took the last hole whole.
        Otherwise the holes are the same again, and the reference counts are exactly if the hole
        was not taken whole, or its header was on a frame below every free one. */
    method AllocThenFree(alignment: int, size: int) returns (ptr: int, stopped: bool)
      requires Valid() && ra.ranges != 0 && IsAlignment(alignment) && 0 < size
               && DataOffset(alignment) + size <= WORD - PAGE_SIZE
      modifies this`live, this`transit, ra`list, ra`ranges, vm`ram, vm`owners, vm`view, vm.pa, vm.pa.bitmap,
               vm.pa.refCounts
      ensures Valid()
      ensures ptr != NULL <==>
                Provided(old(ra.list.holes), PagesFor(DataOffset(alignment) + size), |FreeSet(old(vm.Counts()))|)
      ensures ptr != NULL ==>
                var holes, n := old(ra.list.holes), PagesFor(DataOffset(alignment) + size);
                && (stopped <==> |holes| == 1 && holes[0].size == n)
                && (!stopped ==> live == old(live) && transit == old(transit) && ra.list.holes == holes)
                && (!stopped ==> (vm.Counts() == old(vm.Counts()) <==>
                      HeaderReturns(holes, n, old(vm.Counts()), old(vm.view), vm.current)))
    {
      hide HeapInv, Kept, ra.Valid, FramesKept, PagesKept, TakenFirst, AllocCounted, FreeCounted, SoleAt, FreeSet,
           Provided, HeaderReturns, Give, Position, Take, FirstFit, Canonical, Fits;
      ghost var list0, s0, n := ra.list, Snap(vm), PagesFor(DataOffset(alignment) + size);
      DataAligned(0, alignment);
      Facts();
      HeadsAlone();
      FirstAlone(list0.holes, s0, n);
      stopped := false;
      ptr := KalignedAlloc(alignment, size);
      if ptr == NULL { return; }
      ghost var s1, page := Snap(vm), live[ptr].page;
      LiveShape(ptr);
      BlockPages(ptr, live[ptr], alignment, size, n);
      ra.SomeHole();
      HeadsAlone();
      WholeTaken(list0.holes, ra.list.holes, ra.lo, ra.hi, page, n);
      if ra.ranges == 0 { return ptr, true; }
      ghost var list1, live1 := ra.list, live;
      Kfree(ptr);
      assert live1 - {ptr} == old(live);
      BlockReturns(list0.holes, list1.holes, ra.lo, ra.hi, n, page, s0.counts, s1.counts, vm.Counts(), s0.view, s1.view,
                   s1.d, s1.view, vm.view, vm.current);
    }

    lemma Ordered()
      requires Valid()
      ensures InOrder(ra.list, ra.lo, ra.hi, Snap(vm))
    {
      ra.HeadsFree();
      AllSole(vm);
      forall k | 0 <= k < |ra.list.holes| ensures ra.list.holes[k].page in ra.list.heads {
        assert LinkedAt(ra.list.heads, ra.list.holes, k);
      }
    }

    /** Two moments with the same live blocks, such as any two at which nothing is live: the
        hole list is the same and as many frames are free; and all reference counts are the
        same exactly if the headers of the holes are on the same frames. */
    twostate lemma SameBlocks()
      requires old(Valid()) && Valid() && live == old(live) && transit == {} == old(transit) && others == old(others)
      requires BlocksKept(live, old(Snap(vm)), Snap(vm)) && InOrder(old(ra.list), ra.lo, ra.hi, old(Snap(vm)))
      ensures ra.list.holes == old(ra.list.holes)
      ensures |FreeFrames(vm.Counts())| == |FreeFrames(old(vm.Counts()))|
      ensures vm.Counts() == old(vm.Counts()) <==>
                HeadFrames(ra.list.heads, vm.view, vm.current, |vm.Counts()|)
                == HeadFrames(old(ra.list).heads, old(vm.view), old(vm.current), |old(vm.Counts())|)
    {
      Ordered();
      SameBlocksAgain(old(ra.list), ra.list, live, ra.lo, ra.hi, others, old(Snap(vm)), Snap(vm));
    }

    /** Forking an address space, switching to another and releasing one leave the heap as it
        is: what they keep of the kernel half is enough. */
    twostate lemma Survives()
      requires old(Valid()) && vm.Valid() && ra.list == old(ra.list) && ra.ranges == old(ra.ranges)
      requires live == old(live) && transit == old(transit) && ra.vm == vm
      requires KernelKept(old(vm.view), old(vm.current), old(vm.Counts()), old(vm.ram.pages),
                          vm.view, vm.current, vm.Counts(), vm.ram.pages)
      ensures ra.Valid() && ra.lo >= KERNEL_VPAGE && HeapOk(ra.list, live, transit, ra.lo, ra.hi, Snap(vm))
      ensures BlocksKept(live, old(Snap(vm)), Snap(vm))
    {
      ra.Survives();
      OldHeads(ra);
      KernelKeptHeap(ra.list, live, transit, ra.lo, ra.hi, old(others), old(Snap(vm)), Snap(vm));
    }

    /** The references from outside are taken stock of again. */
    ghost method Recount()
      requires ra.vm == vm && ra.Valid() && ra.lo >= KERNEL_VPAGE
               && HeapOk(ra.list, live, transit, ra.lo, ra.hi, Snap(vm))
      modifies this`others
      ensures Valid() && others == OthersOf(Snap(vm), ra.lo, ra.hi)
    {
      others := OthersOf(Snap(vm), ra.lo, ra.hi);
    }

    /** So does whoever else uses the same range allocator, and spares all pages and frames but
        its own [page, page+n), such as a growable buffer. */
    twostate lemma Bystander(page: int, n: nat)
      requires old(Valid()) && ra.Valid() && ra.vm == vm && live == old(live) && Run(page, n) <= old(transit)
      requires InOrder(old(ra.list), ra.lo, ra.hi, old(Snap(vm))) && vm.current == old(vm.current)
               && vm.current in vm.ram.dirs
      requires FramesKept(old(ra.list), ra.list, old(Snap(vm)), Snap(vm), page, n)
      requires ArenaKept(ra.lo, old(ra.list.holes), ra.list.holes, old(vm.view), vm.view, vm.ram.dirs, page, n)
      requires SoleHeads(ra.list.heads, vm.view, vm.current, vm.Counts())
      ensures HeapOk(ra.list, live, Rest(ra.list.holes, live, ra.lo, ra.hi), ra.lo, ra.hi, Snap(vm))
      ensures BlocksKept(live, old(Snap(vm)), Snap(vm))
    {
      hide FramesKept, ArenaKept, BlocksKept, ra.Valid, SoleHeads, HeapOk;
      OldHeads(ra);
      HeapSpared(old(ra.list), ra.list, live, old(transit), ra.lo, ra.hi, old(Snap(vm)), Snap(vm), vm.ram.dirs, page,
                 n);
    }

    /** The pages that are neither free nor of a live block are counted again. */
    ghost method Restock()
      requires ra.vm == vm && ra.Valid() && ra.lo >= KERNEL_VPAGE
      requires HeapOk(ra.list, live, Rest(ra.list.holes, live, ra.lo, ra.hi), ra.lo, ra.hi, Snap(vm))
      modifies this`transit, this`others
      ensures Valid() && transit == Rest(ra.list.holes, live, ra.lo, ra.hi)
    {
      transit, others := Rest(ra.list.holes, live, ra.lo, ra.hi), OthersOf(Snap(vm), ra.lo, ra.hi);
    }

    /** A heap page is mapped exactly if it belongs to a live block or starts a hole. */
    lemma MappedExactly(w: int)
      requires Valid() && ra.lo <= w < ra.hi && w !in transit
      ensures vm.view(vm.current, w).Mapped? <==> InLive(live, w) || IsHead(ra.list.holes, w)
    {
      forall k | 0 <= k < |ra.list.holes| ensures ra.list.holes[k].page in ra.list.heads {
        assert LinkedAt(ra.list.heads, ra.list.holes, k);
      }
      MappedIff(ra.list, live, transit, ra.lo, ra.hi, others, Snap(vm), w);
    }

    /** Freeing everything leaves the one hole that initialisation made. */
    lemma AllFreedIsOneHole()
      requires Valid() && live == map[] && transit == {}
      ensures ra.list.holes == [Hole(ra.lo, ra.hi - ra.lo)]
    {
      forall k | 0 <= k < |ra.list.holes| ensures ra.list.holes[k].page in ra.list.heads {
        assert LinkedAt(ra.list.heads, ra.list.holes, k);
      }
      AllFreed(ra.list, ra.lo, ra.hi, others, Snap(vm));
    }
  }
}
