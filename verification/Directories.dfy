/** Page directories with the blocks of the kernel heap that they live in
    (kernel/memory/paging.c): creating, cloning and destroying address spaces. */
module Directories {
  import opened Frames
  import opened Words
  import opened Tables
  import opened Cloning
  import opened Paging
  import opened Holes
  import opened HoleList
  import opened Ledger
  import opened HeaderLedger
  import opened HeapState
  import opened RangeAllocator
  import opened Heap

  /** A new directory, or -ENOMEM. */
  datatype DirectoryResult = Directory(id: int) | NoDirectory

  /** How a fork and the end of the child come out; Stopped is the assertion of
      range_allocator_free that there is a hole. */
  datatype Outcome = NotForked | Stopped | Restored

  /** The block of a directory: a page for the header, as the data has to start a page. */
  const DIRECTORY_PAGES := 2

  /** There is room for a block of a directory, and there are frames for it and for so many more. */
  predicate Afford(holes: seq<Hole>, free: int, more: nat) {
    Fits(holes, DIRECTORY_PAGES) && FreeAfterTake(holes, DIRECTORY_PAGES, free) >= DIRECTORY_PAGES + more
  }

  /** A block was allocated if there are pages and frames for it; without the frames, all there
      were are gone. */
  ghost predicate Granted(holes: seq<Hole>, free0: int, free: int, ok: bool) {
    && (ok <==> Afford(holes, free0, 0))
    && (ok ==> free == FreeAfterTake(holes, DIRECTORY_PAGES, free0) - DIRECTORY_PAGES)
    && (!ok && Fits(holes, DIRECTORY_PAGES) ==> free == 0)
  }

  lemma GrantedMore(holes: seq<Hole>, free0: int, free: int, ok: bool, more: nat)
    requires Granted(holes, free0, free, ok)
    ensures Afford(holes, free0, more) <==> ok && free >= more
    ensures !ok && Fits(holes, DIRECTORY_PAGES) ==> free == 0
  {
  }

  lemma AffordedFree(counts: seq<RefCount>, now: seq<RefCount>, m: nat, ok: bool)
    requires Afforded(counts, now, m, ok)
    ensures (ok <==> |FreeSet(counts)| >= m) && (!ok ==> |FreeSet(now)| == 0)
  {
  }

  /** Every directory but the kernel's own lives in a block of two pages, its own. */
  ghost predicate Housed(blocks: map<int, int>, dirs: set<int>, kernelPd: int, live: map<int, Block>) {
    && kernelPd in dirs && kernelPd !in blocks && (forall d :: d in dirs <==> d == kernelPd || d in blocks)
    && (forall d :: d in blocks ==> blocks[d] in live && live[blocks[d]].pages == 2)
    && (forall d, e :: d in blocks && e in blocks && blocks[d] == blocks[e] ==> d == e)
  }

  /** Directory d is new, in a block of its own. */
  ghost predicate OneMore(blocks0: map<int, int>, dirs0: set<int>, live0: map<int, Block>, blocks: map<int, int>,
                          dirs: set<int>, live: map<int, Block>, d: int)
  {
    && d !in dirs0 && dirs == dirs0 + {d} && d in blocks && blocks == blocks0[d := blocks[d]]
    && blocks[d] !in live0 && blocks[d] in live && live == live0[blocks[d] := live[blocks[d]]]
  }

  lemma HousedOne(blocks: map<int, int>, dirs: set<int>, kernelPd: int, live: map<int, Block>, live': map<int, Block>,
                  d: int, ptr: int)
    requires Housed(blocks, dirs, kernelPd, live) && d !in dirs && ptr !in live
    requires ptr in live' && live' == live[ptr := live'[ptr]] && live'[ptr].pages == 2
    ensures Housed(blocks[d := ptr], dirs + {d}, kernelPd, live')
  {
  }

  lemma HousedLess(blocks: map<int, int>, dirs: set<int>, kernelPd: int, live: map<int, Block>, d: int)
    requires Housed(blocks, dirs, kernelPd, live) && d in dirs && d != kernelPd
    ensures d in blocks && blocks[d] in live && Housed(blocks - {d}, dirs - {d}, kernelPd, live - {blocks[d]})
  {
  }

  lemma HousedSame(blocks: map<int, int>, dirs: set<int>, kernelPd: int, live: map<int, Block>, live': map<int, Block>,
                   ptr: int)
    requires Housed(blocks, dirs, kernelPd, live) && ptr !in live && ptr in live' && live' == live[ptr := live'[ptr]]
    ensures Housed(blocks, dirs, kernelPd, live') && live' - {ptr} == live
  {
    assert live' - {ptr} == live;
  }

  /** The user half is mapped as before. */
  ghost predicate UserSame(view0: (int, int) -> Mapping, view: (int, int) -> Mapping, dirs: set<int>) {
    forall c, w {:trigger view(c, w)} :: c in dirs && w < KERNEL_VPAGE ==> view(c, w) == view0(c, w)
  }

  lemma UserThen(view0: (int, int) -> Mapping, mid: (int, int) -> Mapping, view: (int, int) -> Mapping, dirs: set<int>,
                 dirs': set<int>)
    requires UserSame(view0, mid, dirs) && UserSame(mid, view, dirs') && dirs <= dirs'
    ensures UserSame(view0, view, dirs)
  {
  }

  lemma UserAll(view0: (int, int) -> Mapping, view: (int, int) -> Mapping, dirs: set<int>)
    requires forall c, w :: c in dirs ==> view(c, w) == view0(c, w)
    ensures UserSame(view0, view, dirs)
  {
  }

  lemma UserByHeap(holes0: seq<Hole>, holes: seq<Hole>, lo: int, hi: int, view0: (int, int) -> Mapping,
                   view: (int, int) -> Mapping, dirs: set<int>, page: int, n: nat)
    requires Canonical(holes0, lo, hi) && lo >= KERNEL_VPAGE && (n > 0 ==> lo <= page)
    requires PagesKept(holes0, holes, view0, view, dirs, page, n)
    ensures UserSame(view0, view, dirs)
  {
  }

  /** No user page is on the frame of a hole header or of pages [page, page+n). */
  ghost predicate UserApart(list: List, s: Snapshot, dirs: set<int>, page: int, n: nat) {
    forall c, w {:trigger s.view(c, w)} :: c in dirs && 0 <= w < KERNEL_VPAGE && s.view(c, w).Mapped? ==>
      var f := s.view(c, w).entry.frame;
      InUse(s.counts, f) && !HeadFrame(list.heads, s.view, s.d, f) && !Carries(s.view, s.d, page, n, f)
  }

  /** User pages hold what they held. */
  ghost predicate UserBytes(view0: (int, int) -> Mapping, pages0: seq<Page>, pages: seq<Page>, dirs: set<int>) {
    && |pages| == |pages0|
    && forall c, w {:trigger view0(c, w)} :: c in dirs && 0 <= w < KERNEL_VPAGE && view0(c, w).Mapped?
                                             && view0(c, w).entry.frame < |pages0| ==>
         pages[view0(c, w).entry.frame] == pages0[view0(c, w).entry.frame]
  }

  lemma BytesByHeap(list0: List, list: List, s0: Snapshot, s: Snapshot, page: int, n: nat, dirs: set<int>)
    requires FramesKept(list0, list, s0, s, page, n) && UserApart(list0, s0, dirs, page, n)
    ensures UserBytes(s0.view, s0.pages, s.pages, dirs)
  {
    forall c, w | c in dirs && 0 <= w < KERNEL_VPAGE && s0.view(c, w).Mapped?
                  && s0.view(c, w).entry.frame < |s0.pages|
      ensures s.pages[s0.view(c, w).entry.frame] == s0.pages[s0.view(c, w).entry.frame]
    {
      assert FrameSame(list, s0, s, s0.view(c, w).entry.frame);
    }
  }

  lemma BytesThen(view0: (int, int) -> Mapping, view1: (int, int) -> Mapping, pages0: seq<Page>, pages1: seq<Page>,
                  pages: seq<Page>, dirs: set<int>, dirs': set<int>)
    requires UserBytes(view0, pages0, pages1, dirs) && UserSame(view0, view1, dirs) && dirs <= dirs'
    requires UserBytes(view1, pages1, pages, dirs')
    ensures UserBytes(view0, pages0, pages, dirs)
  {
    forall c, w | c in dirs && 0 <= w < KERNEL_VPAGE && view0(c, w).Mapped? && view0(c, w).entry.frame < |pages0|
      ensures pages[view0(c, w).entry.frame] == pages0[view0(c, w).entry.frame]
    {
      assert view1(c, w) == view0(c, w);
    }
  }

  lemma BytesUntouched(list: List, s0: Snapshot, pages: seq<Page>, dirs: set<int>, page: int, n: nat)
    requires UserApart(list, s0, dirs, page, n) && Untouched(s0.counts, s0.pages, pages)
    ensures UserBytes(s0.view, s0.pages, pages, dirs)
  {
  }

  lemma BytesSame(view: (int, int) -> Mapping, pages: seq<Page>, dirs: set<int>)
    ensures UserBytes(view, pages, pages, dirs)
  {
  }

  /** A frame that the heap leaves alone holds what it held. */
  lemma SameBytes(list0: List, list: List, s0: Snapshot, s: Snapshot, f: int)
    requires FramesKept(list0, list, s0, s, 0, 0) && InUse(s0.counts, f) && !HeadFrame(list0.heads, s0.view, s0.d, f)
    ensures |s.pages| == |s0.pages| && |s.counts| == |s0.counts| && FrameSame(list, s0, s, f)
  {
    assert !Carries(s0.view, s0.d, 0, 0, f);
  }

  /** Where a count is saturated, it stays so: the heap has no such frame. */
  lemma SaturatedStays(list0: List, list: List, s0: Snapshot, s: Snapshot, page: int, n: nat, f: int)
    requires FramesKept(list0, list, s0, s, page, n) && SoleHeads(list0.heads, s0.view, s0.d, s0.counts)
    requires n > 0 ==> SoleRange(s0.counts, s0.view, s0.d, page, n)
    requires 0 <= f < |s0.counts| && s0.counts[f] == UINT8_MAX
    ensures |s.counts| == |s0.counts| && s.counts[f] == UINT8_MAX
  {
    assert !Carries(s0.view, s0.d, page, n, f) && !HeadFrame(list0.heads, s0.view, s0.d, f);
    assert FrameSame(list, s0, s, f);
  }

  /** From s0 a block was allocated (s1), an address space forked (peak) and released (s2), and
      the block freed. Equal counts at both ends mean that none was saturated on the way. */
  lemma NoneSaturated(list0: List, list1: List, list: List, s0: Snapshot, s1: Snapshot, peak: seq<RefCount>,
                      s2: Snapshot, s: Snapshot, page: int, n: nat)
    requires FramesKept(list0, list1, s0, s1, 0, 0) && SoleHeads(list0.heads, s0.view, s0.d, s0.counts)
    requires Grows(s1.counts, peak) && SameSaturation(peak, s2.counts)
    requires FramesKept(list1, list, s2, s, page, n) && SoleHeads(list1.heads, s2.view, s2.d, s2.counts)
    requires SoleRange(s2.counts, s2.view, s2.d, page, n) && s.counts == s0.counts
    ensures SameSaturation(s1.counts, peak)
  {
    hide SoleRange, SoleHeads, FrameSame;
    forall f | 0 <= f < |peak| && peak[f] == UINT8_MAX ensures s1.counts[f] == UINT8_MAX {
      SaturatedStays(list1, list, s2, s, page, n, f);
      SaturatedStays(list0, list1, s0, s1, 0, 0, f);
    }
  }

  /** ... so the counts come back exactly if that is so and the frame of the first header does. */
  lemma CountsBack(list0: List, list1: List, list: List, lo: int, hi: int, s0: Snapshot, s1: Snapshot,
                   peak: seq<RefCount>, s2: Snapshot, s: Snapshot, page: int, n: nat)
    requires FramesKept(list0, list1, s0, s1, 0, 0) && SoleHeads(list0.heads, s0.view, s0.d, s0.counts)
    requires Grows(s1.counts, peak) && SameSaturation(peak, s2.counts)
    requires s2.counts == s1.counts <==> SameSaturation(s1.counts, peak)
    requires FramesKept(list1, list, s2, s, page, n) && SoleHeads(list1.heads, s2.view, s2.d, s2.counts)
    requires SoleRange(s2.counts, s2.view, s2.d, page, n) && s1.d == s0.d && s.d == s2.d
    requires Canonical(list0.holes, lo, hi) && TakenFirst(list0.holes, list1.holes, page, n) && page >= KERNEL_VPAGE
    requires AllocCounted(list0.holes, n, s0.counts, s1.counts, s0.view, s1.view, s0.d, page)
    requires FreeCounted(list1.holes, page, n, s2.counts, s.counts, s2.view, s.view, s.d)
    requires KernelKept(s1.view, s1.d, s1.counts, s1.pages, s2.view, s2.d, s2.counts, s2.pages)
    requires forall k :: 0 <= k < |list0.holes| ==> SoleAt(s0.counts, s0.view(s0.d, list0.holes[k].page))
    requires forall k :: 0 <= k < |list1.holes| ==> SoleAt(s2.counts, s2.view(s2.d, list1.holes[k].page))
    ensures s.counts == s0.counts <==>
              SameSaturation(s1.counts, peak) && HeaderReturns(list0.holes, n, s0.counts, s0.view, s0.d)
  {
    hide FramesKept, SoleHeads, SoleRange, Grows, SameSaturation, AllocCounted, FreeCounted, HeaderReturns, TakenFirst,
         Canonical, SoleAt;
    if s.counts == s0.counts { NoneSaturated(list0, list1, list, s0, s1, peak, s2, s, page, n); }
    if SameSaturation(s1.counts, peak) {
      FirstAlone(list0.holes, s0, n);
      BlockReturns(list0.holes, list1.holes, lo, hi, n, page, s0.counts, s1.counts, s.counts, s0.view, s1.view, s0.d,
                   s2.view, s.view, s.d);
    }
  }

  /** The same counts, the same heap pages: the same references from outside. */
  lemma SameOthers(s0: Snapshot, s: Snapshot, lo: int, hi: int, others: seq<RefCount>)
    requires KERNEL_VPAGE <= lo <= hi && Pooled(s0, lo, hi, others) && s.counts == s0.counts
    requires KernelKept(s0.view, s0.d, s0.counts, s0.pages, s.view, s.d, s.counts, s.pages)
    ensures OthersOf(s, lo, hi) == others
  {
    forall f | 0 <= f < |s.counts| ensures InArena(s, lo, hi, f) <==> InArena(s0, lo, hi, f) {
      SameCarriers(s0, s, lo, hi, f);
    }
  }

  lemma SameCarriers(s0: Snapshot, s: Snapshot, lo: int, hi: int, f: int)
    requires lo <= hi && forall w :: lo <= w < hi ==> s.view(s.d, w) == s0.view(s0.d, w)
    ensures Carries(s.view, s.d, lo, hi - lo, f) <==> Carries(s0.view, s0.d, lo, hi - lo, f)
  {
    if Carries(s.view, s.d, lo, hi - lo, f) {
      var w :| lo <= w < lo + (hi - lo) && s.view(s.d, w).Mapped? && s.view(s.d, w).entry.frame == f;
      assert lo <= w < hi && s0.view(s0.d, w) == s.view(s.d, w);
    }
    if Carries(s0.view, s0.d, lo, hi - lo, f) {
      var w :| lo <= w < lo + (hi - lo) && s0.view(s0.d, w).Mapped? && s0.view(s0.d, w).entry.frame == f;
      assert lo <= w < hi && s0.view(s0.d, w) == s.view(s.d, w);
    }
  }

  lemma BlocksThen(live0: map<int, Block>, live: map<int, Block>, s0: Snapshot, s1: Snapshot, s: Snapshot)
    requires forall p :: p in live0 ==> p in live && live[p] == live0[p]
    requires BlocksKept(live0, s0, s1) && BlocksKept(live, s1, s)
    ensures BlocksKept(live0, s0, s)
  {
    forall w | InLive(live0, w) && s0.On(w)
      ensures s.On(w) && s.view(s.d, w) == s0.view(s0.d, w)
              && s.pages[s.Frame(w)] == s0.pages[s.Frame(w)]
              && (s0.counts[s.Frame(w)] == 1 ==> s.counts[s.Frame(w)] == 1)
    {
      var p :| p in live0 && InBlock(live0[p], w);
      assert p in live && InLive(live, w);
    }
  }

  /** The rest of the blocks, once one of them is freed. */
  lemma BlocksLess(live0: map<int, Block>, live: map<int, Block>, s0: Snapshot, s1: Snapshot, s: Snapshot)
    requires forall p :: p in live ==> p in live0 && live[p] == live0[p]
    requires BlocksKept(live0, s0, s1) && BlocksKept(live, s1, s)
    ensures BlocksKept(live, s0, s)
  {
    forall w | InLive(live, w) && s0.On(w)
      ensures s.On(w) && s.view(s.d, w) == s0.view(s0.d, w)
              && s.pages[s.Frame(w)] == s0.pages[s.Frame(w)]
              && (s0.counts[s.Frame(w)] == 1 ==> s.counts[s.Frame(w)] == 1)
    {
      var p :| p in live && InBlock(live[p], w);
      assert p in live0 && InLive(live0, w);
    }
  }

  /** What a user page is on is left alone by the heap: no header is there, as those frames have
      no other reference. */
  lemma UserFrameNotHead(vm: Paging, list: List, w: int)
    requires vm.Valid() && SoleHeads(list.heads, vm.view, vm.current, vm.Counts())
    requires (forall x :: x in list.heads ==> x >= KERNEL_VPAGE) && w < KERNEL_VPAGE && vm.view(vm.current, w).Mapped?
    ensures !HeadFrame(list.heads, vm.view, vm.current, vm.view(vm.current, w).entry.frame)
    ensures InUse(vm.Counts(), vm.view(vm.current, w).entry.frame)
  {
    vm.MappedInUse(vm.current, w);
    var f := vm.view(vm.current, w).entry.frame;
    forall x | x in list.heads ensures vm.view(vm.current, x).entry.frame != f {
      if vm.view(vm.current, x).entry.frame == f { vm.SoleFrame(vm.current, x, w); }
    }
  }

  /** A page of the child, with the page of the parent as it was before the directory's block
      was allocated. */
  lemma ForkedAcross(m: Mapping, n: Mapping, ptes: Store, mid: seq<RefCount>, pages0: seq<Page>, pages1: seq<Page>,
                     pages: seq<Page>)
    requires ForkedPage(m, n, ptes, mid, pages1, pages) && (m.Mapped? ==> |pages0| == |pages1|)
    requires m.Mapped? && m.entry.frame < |pages0| ==> pages1[m.entry.frame] == pages0[m.entry.frame]
    ensures ForkedPage(m, n, ptes, mid, pages0, pages)
  {
  }

  lemma HeadsHigh(ra: RangeAllocator, x: int)
    requires ra.Valid() && x in ra.list.heads
    ensures x >= ra.lo
  {
    HeadFree(ra.list.holes, ra.lo, ra.hi, x);
  }

  class AddressSpaces {
    const vm: Paging
    const heap: Heap
    /** Where the directories are. */
    var blocks: map<int, int>

    ghost predicate Valid()
      reads this, heap, heap.vm, heap.ra, heap.vm.pa, heap.vm.pa.bitmap, heap.vm.pa.refCounts
    {
      heap.Valid() && heap.vm == vm && Housed(blocks, vm.ram.dirs, vm.kernelPd, heap.live)
    }

    constructor (heap: Heap)
      requires heap.Valid() && heap.vm.ram.dirs == {heap.vm.kernelPd}
      ensures Valid() && this.heap == heap && vm == heap.vm
    {
      this.heap, vm, blocks := heap, heap.vm, map[];
    }

    /** No user page is on a frame of the heap: those have one reference. */
    lemma UsersApart(page: int, n: nat)
      requires heap.Valid() && heap.vm == vm
      requires n > 0 ==> page >= KERNEL_VPAGE && SoleRange(vm.Counts(), vm.view, vm.current, page, n)
      ensures UserApart(heap.ra.list, Snap(vm), vm.ram.dirs, page, n)
    {
      hide HeapInv, heap.ra.Valid;
      heap.Facts();
      heap.Ordered();
      forall c, w | c in vm.ram.dirs && 0 <= w < KERNEL_VPAGE && vm.view(c, w).Mapped?
        ensures InUse(vm.Counts(), vm.view(c, w).entry.frame)
        ensures !HeadFrame(heap.ra.list.heads, vm.view, vm.current, vm.view(c, w).entry.frame)
        ensures !Carries(vm.view, vm.current, page, n, vm.view(c, w).entry.frame)
      {
        vm.MappedInUse(c, w);
        forall x | x in heap.ra.list.heads || page <= x < page + n
          ensures vm.view(vm.current, x).Mapped? ==>
                    vm.view(vm.current, x).entry.frame != vm.view(c, w).entry.frame
        {
          if x in heap.ra.list.heads { HeadsHigh(heap.ra, x); }
          if vm.view(vm.current, x).Mapped? { vm.FarFromKernel(c, w, x); }
        }
      }
    }

    /** kaligned_alloc for a directory. */
    method AllocBlock() returns (ptr: int)
      requires Valid() && heap.ra.ranges != 0
      modifies heap`live, heap`transit, heap.ra`list, heap.ra`ranges
      modifies vm`ram, vm`owners, vm`view, vm.pa, vm.pa.bitmap, vm.pa.refCounts
      ensures heap.Valid() && BlocksKept(old(heap.live), old(Snap(vm)), Snap(vm))
      ensures vm.current == old(vm.current) && vm.ram.dirs == old(vm.ram.dirs)
      ensures UserSame(old(vm.view), vm.view, vm.ram.dirs)
      ensures UserBytes(old(vm.view), old(vm.ram.pages), vm.ram.pages, vm.ram.dirs)
      ensures FramesKept(old(heap.ra.list), heap.ra.list, old(Snap(vm)), Snap(vm), 0, 0)
      ensures vm.ForkCost() == old(vm.ForkCost())
      ensures Granted(old(heap.ra.list.holes), |FreeSet(old(vm.Counts()))|, |FreeSet(vm.Counts())|, ptr != NULL)
      ensures ptr == NULL ==> heap.live == old(heap.live)
      ensures ptr != NULL ==> heap.transit == old(heap.transit) && ptr !in old(heap.live) && ptr in heap.live
                              && heap.live == old(heap.live)[ptr := heap.live[ptr]] && heap.live[ptr].pages == 2
      ensures ptr != NULL ==> TakenFirst(old(heap.ra.list.holes), heap.ra.list.holes, heap.live[ptr].page, 2)
      ensures ptr != NULL ==> AllocCounted(old(heap.ra.list.holes), 2, old(vm.Counts()), vm.Counts(), old(vm.view),
                                           vm.view, vm.current, heap.live[ptr].page)
    {
      hide HeapInv, heap.ra.Valid, FramesKept, PagesKept, TakenFirst, BlocksKept, ForkFrames, FreeSet, Fits,
           FreeAfterTake, UserSame, AllocCounted, UserApart, UserBytes;
      ghost var list0, view0, s0 := heap.ra.list, vm.view, Snap(vm);
      heap.Facts();
      UsersApart(0, 0);
      ptr := heap.KalignedAlloc(PAGE_SIZE, PAGE_SIZE);
      heap.Facts();
      UserByHeap(list0.holes, heap.ra.list.holes, heap.ra.lo, heap.ra.hi, view0, vm.view, vm.ram.dirs, 0, 0);
      vm.SameForkCost();
      BytesByHeap(list0, heap.ra.list, s0, Snap(vm), 0, 0, vm.ram.dirs);
      if ptr != NULL { heap.LiveShape(ptr); }
    }

    /** paging_create_page_directory: nothing in the user half, and the kernel half of all. */
    method CreatePageDirectory() returns (r: DirectoryResult)
      requires Valid() && heap.ra.ranges != 0
      modifies this`blocks, heap`live, heap`transit, heap`others, heap.ra`list, heap.ra`ranges
      modifies vm`ram, vm`owners, vm`view, vm`nextDirectory, vm.pa, vm.pa.bitmap, vm.pa.refCounts
      ensures Valid() && UserSame(old(vm.view), vm.view, old(vm.ram.dirs))
      ensures UserBytes(old(vm.view), old(vm.ram.pages), vm.ram.pages, old(vm.ram.dirs))
      ensures BlocksKept(old(heap.live), old(Snap(vm)), Snap(vm)) && vm.current == old(vm.current)
      ensures r.Directory? <==> Afford(old(heap.ra.list.holes), |FreeSet(old(vm.Counts()))|, 0)
      ensures r.NoDirectory? ==>
                vm.ram.dirs == old(vm.ram.dirs) && heap.live == old(heap.live) && blocks == old(blocks)
      ensures r.Directory? ==>
                OneMore(old(blocks), old(vm.ram.dirs), old(heap.live), blocks, vm.ram.dirs, heap.live, r.id)
      ensures r.Directory? ==>
                forall w :: vm.view(r.id, w) == if w >= KERNEL_VPAGE then vm.view(vm.current, w) else Unmapped
    {
      hide HeapInv, heap.ra.Valid, FramesKept, Housed, KernelKept, HeapOk, BlocksKept, TakenFirst, WithKernelHalf,
           FreeSet, Fits, FreeAfterTake, Afford, Granted, vm.ForkCost, UserBytes, AllocCounted;
      ghost var live0, dirs0, s0 := heap.live, vm.ram.dirs, Snap(vm);
      ghost var holes, free := heap.ra.list.holes, |FreeSet(vm.Counts())|;
      var ptr := AllocBlock();
      GrantedMore(holes, free, |FreeSet(vm.Counts())|, ptr != NULL, 0);
      if ptr == NULL { return NoDirectory; }
      heap.Facts();
      label Allocated:
      ghost var view1, s1 := vm.view, Snap(vm);
      var dst := vm.NewDirectory();
      KernelKeptView(view1, vm.view, vm.current, vm.Counts(), vm.ram.pages);
      heap.Survives@Allocated();
      BlocksThen(live0, heap.live, s0, s1, Snap(vm));
      heap.Recount();
      HousedOne(blocks, dirs0, vm.kernelPd, live0, heap.live, dst, ptr);
      blocks := blocks[dst := ptr];
      r := Directory(dst);
    }

    /** The frames of user pages are in use, and none of them carries a header. */
    lemma UserFrames()
      requires Valid()
      ensures forall w :: 0 <= w < KERNEL_VPAGE && vm.view(vm.current, w).Mapped? ==>
                var f := vm.view(vm.current, w).entry.frame;
                InUse(vm.Counts(), f) && !HeadFrame(heap.ra.list.heads, vm.view, vm.current, f)
    {
      heap.Facts();
      heap.Ordered();
      forall w | 0 <= w < KERNEL_VPAGE && vm.view(vm.current, w).Mapped?
        ensures InUse(vm.Counts(), vm.view(vm.current, w).entry.frame)
        ensures !HeadFrame(heap.ra.list.heads, vm.view, vm.current, vm.view(vm.current, w).entry.frame)
      {
        UserFrameNotHead(vm, heap.ra.list, w);
      }
    }

    /** paging_clone_current_page_directory: fork. `mid` are the reference counts once the
        block of the new directory is allocated: what is free then was free before, or the
        heap's. `id` is the new directory, which is there with its block even if its pages could
        not be cloned. */
    method CloneCurrentPageDirectory() returns (r: DirectoryResult, ghost mid: seq<RefCount>, ghost id: int)
      requires Valid() && heap.ra.ranges != 0
      modifies this`blocks, heap`live, heap`transit, heap`others, heap.ra`list, heap.ra`ranges
      modifies vm`ram, vm`owners, vm`view, vm`nextDirectory, vm`leaked, vm.pa, vm.pa.bitmap, vm.pa.refCounts
      ensures Valid() && vm.current == old(vm.current) && UserSame(old(vm.view), vm.view, old(vm.ram.dirs))
      ensures UserBytes(old(vm.view), old(vm.ram.pages), vm.ram.pages, old(vm.ram.dirs))
      ensures r.Directory? <==>
                Afford(old(heap.ra.list.holes), |FreeSet(old(vm.Counts()))|, old(vm.ForkCost()))
      ensures r.NoDirectory? && Fits(old(heap.ra.list.holes), DIRECTORY_PAGES) ==> |FreeSet(vm.Counts())| == 0
      ensures r.Directory? ==> id == r.id
      ensures if Afford(old(heap.ra.list.holes), |FreeSet(old(vm.Counts()))|, 0) then
                OneMore(old(blocks), old(vm.ram.dirs), old(heap.live), blocks, vm.ram.dirs, heap.live, id)
              else vm.ram.dirs == old(vm.ram.dirs) && heap.live == old(heap.live) && blocks == old(blocks)
      ensures r.Directory? ==> forall w :: w >= KERNEL_VPAGE ==> vm.view(r.id, w) == vm.view(vm.current, w)
      ensures r.Directory? ==> forall w :: 0 <= w < KERNEL_VPAGE ==>
                ForkedPage(old(vm.view)(vm.current, w), vm.view(r.id, w), vm.ram.ptes, mid, old(vm.ram.pages),
                           vm.ram.pages)
      ensures |mid| == |old(heap.others)| && forall f :: WasFree(mid, f) ==> old(heap.others)[f] == 0
      ensures BlocksKept(old(heap.live), old(Snap(vm)), Snap(vm))
    {
      hide HeapInv, heap.ra.Valid, FramesKept, Housed, KernelKept, HeapOk, BlocksKept, TakenFirst, ForkedPage, Grows,
           Untouched, OutsideTables, UserTables, FreeSet, Fits, FreeAfterTake, Afford, Granted, Afforded, vm.ForkCost,
           UserApart, UserBytes, ClonedDirectory, AllocCounted, UserSame;
      ghost var live0, dirs0, s0, list0 := heap.live, vm.ram.dirs, Snap(vm), heap.ra.list;
      heap.Facts();
      UserFrames();
      var ptr := AllocBlock();
      GrantedMore(list0.holes, |FreeSet(s0.counts)|, |FreeSet(vm.Counts())|, ptr != NULL, vm.ForkCost());
      mid := vm.Counts();
      heap.FreeIsOurs();
      id := -1;
      GrantedMore(list0.holes, |FreeSet(s0.counts)|, |FreeSet(mid)|, ptr != NULL, 0);
      if ptr == NULL { return NoDirectory, mid, id; }
      heap.Facts();
      label Allocated:
      ghost var s1, list1 := Snap(vm), heap.ra.list;
      ghost var cost := vm.ForkCost();
      UsersApart(0, 0);
      var dst, ok := vm.CloneInto();
      UserAll(s1.view, vm.view, dirs0);
      UserThen(s0.view, s1.view, vm.view, dirs0, dirs0);
      BytesUntouched(list1, s1, vm.ram.pages, dirs0, 0, 0);
      BytesThen(s0.view, s1.view, s0.pages, s1.pages, vm.ram.pages, dirs0, dirs0);
      AffordedFree(s1.counts, vm.Counts(), cost, ok);
      heap.Survives@Allocated();
      BlocksThen(live0, heap.live, s0, s1, Snap(vm));
      heap.Recount();
      HousedOne(blocks, dirs0, vm.kernelPd, live0, heap.live, dst, ptr);
      blocks := blocks[dst := ptr];
      id := dst;
      if !ok { return NoDirectory, mid, id; }
      r := Directory(dst);
      forall w | 0 <= w < KERNEL_VPAGE
        ensures ForkedPage(s0.view(vm.current, w), vm.view(dst, w), vm.ram.ptes, mid, s0.pages, vm.ram.pages)
      {
        ghost var m := s0.view(vm.current, w);
        if m.Mapped? { SameBytes(list0, list1, s0, s1, m.entry.frame); }
        ForkedAcross(m, vm.view(dst, w), vm.ram.ptes, mid, s0.pages, s1.pages, vm.ram.pages);
      }
    }

    /** paging_switch_page_directory. */
    method SwitchPageDirectory(d: int)
      requires Valid() && d in vm.ram.dirs
      modifies vm`current
      ensures Valid() && vm.current == d && BlocksKept(heap.live, old(Snap(vm)), Snap(vm))
    {
      hide heap.ra.Valid, Housed, KernelKept, HeapOk, BlocksKept, OthersOf, Pooled;
      heap.Facts();
      heap.Outside();
      vm.SwitchPageDirectory(d);
      heap.Survives();
      SameOthers(old(Snap(vm)), Snap(vm), heap.ra.lo, heap.ra.hi, heap.others);
    }

    /** paging_destroy_current_page_directory: the user half of the current directory is given
        back, then its block. The assertion of range_allocator_free needs a hole. */
    method DestroyCurrentPageDirectory()
      requires Valid() && (vm.current != vm.kernelPd ==> heap.ra.ranges != 0)
      modifies this`blocks, heap`live, heap`transit, heap`others, heap.ra`list, heap.ra`ranges
      modifies vm`ram, vm`owners, vm`view, vm`current, vm.pa, vm.pa.bitmap, vm.pa.refCounts
      ensures Valid() && vm.current == vm.kernelPd
      ensures vm.ram.dirs == old(vm.ram.dirs) - ({old(vm.current)} - {vm.kernelPd})
      ensures blocks == if old(vm.current) == vm.kernelPd then old(blocks) else old(blocks) - {old(vm.current)}
      ensures UserSame(old(vm.view), vm.view, vm.ram.dirs)
      ensures UserBytes(old(vm.view), old(vm.ram.pages), vm.ram.pages, vm.ram.dirs)
      ensures BlocksKept(heap.live, old(Snap(vm)), Snap(vm))
      ensures old(vm.current) == vm.kernelPd ==> heap.live == old(heap.live) && Snap(vm) == old(Snap(vm))
      ensures old(vm.current) != vm.kernelPd ==>
                && old(vm.current) in old(blocks) && heap.live == old(heap.live) - {old(blocks)[old(vm.current)]}
    {
      hide HeapInv, heap.ra.Valid, FramesKept, Housed, KernelKept, HeapOk, BlocksKept, UserSame, PagesKept, Give,
           Position, UserApart, UserBytes, FreeCounted, SoleRange;
      if vm.current == vm.kernelPd {
        NothingDone();
        return;
      }
      var d := vm.current;
      ghost var s0, live0, dirs0 := Snap(vm), heap.live, vm.ram.dirs;
      heap.Facts();
      vm.ReleaseCurrentDirectory();
      heap.Survives();
      heap.Recount();
      HousedLess(blocks, dirs0, vm.kernelPd, heap.live, d);
      heap.Facts();
      var ptr := blocks[d];
      ghost var s1, list1, b := Snap(vm), heap.ra.list, heap.live[ptr];
      blocks := blocks - {d};
      heap.LiveShape(ptr);
      heap.LiveRange(ptr);
      UsersApart(b.page, b.pages);
      heap.Kfree(ptr);
      BytesByHeap(list1, heap.ra.list, s1, Snap(vm), b.page, b.pages, vm.ram.dirs);
      UserAll(s0.view, s1.view, vm.ram.dirs);
      BytesSame(s0.view, s0.pages, vm.ram.dirs);
      BytesThen(s0.view, s1.view, s0.pages, s1.pages, vm.ram.pages, vm.ram.dirs, vm.ram.dirs);
      heap.Facts();
      UserByHeap(list1.holes, heap.ra.list.holes, heap.ra.lo, heap.ra.hi, s1.view, vm.view, vm.ram.dirs, b.page,
                 b.pages);
      BlocksLess(live0, heap.live, s0, s1, Snap(vm));
    }

    lemma NothingDone()
      requires Valid()
      ensures BlocksKept(heap.live, Snap(vm), Snap(vm)) && UserSame(vm.view, vm.view, vm.ram.dirs)
      ensures UserBytes(vm.view, vm.ram.pages, vm.ram.pages, vm.ram.dirs)
    {
    }

    /** A fork, and the end of the child: paging_clone_current_page_directory, a switch to the
        new directory, and paging_destroy_current_page_directory. It stops exactly if the block
        of the directory was all that the heap had left. Otherwise everything is mapped as
        before, the hole list is the same, and as many frames are free; and the reference counts
        are the same exactly if none was saturated on the way and the frame of the first header
        is taken back. `mid` and `peak` are the counts before and after the fork proper. */
    method ForkAndExit() returns (o: Outcome, ghost mid: seq<RefCount>, ghost peak: seq<RefCount>)
      requires Valid() && heap.ra.ranges != 0
      modifies this`blocks, heap`live, heap`transit, heap`others, heap.ra`list, heap.ra`ranges
      modifies vm`ram, vm`owners, vm`view, vm`nextDirectory, vm`leaked, vm`current, vm.pa, vm.pa.bitmap, vm.pa.refCounts
      ensures UserSame(old(vm.view), vm.view, old(vm.ram.dirs))
      ensures UserBytes(old(vm.view), old(vm.ram.pages), vm.ram.pages, old(vm.ram.dirs))
      ensures BlocksKept(old(heap.live), old(Snap(vm)), Snap(vm))
      ensures o.NotForked? ==> Valid()
      ensures o.NotForked? <==>
                !Afford(old(heap.ra.list.holes), |FreeSet(old(vm.Counts()))|, old(vm.ForkCost()))
      ensures o.Stopped? ==> |old(heap.ra.list.holes)| == 1 && old(heap.ra.list.holes)[0].size == 2
      ensures o.Restored? ==>
                && Valid() && vm.current == vm.kernelPd && vm.ram.dirs == old(vm.ram.dirs)
                && heap.live == old(heap.live) && heap.transit == old(heap.transit) && blocks == old(blocks)
                && heap.ra.list.holes == old(heap.ra.list.holes)
                && !(|old(heap.ra.list.holes)| == 1 && old(heap.ra.list.holes)[0].size == 2)
      ensures o.Restored? && old(heap.transit) == {} && SameSaturation(mid, peak) ==>
                heap.others == old(heap.others) && |FreeFrames(vm.Counts())| == |FreeFrames(old(vm.Counts()))|
      ensures o.Restored? ==>
                (vm.Counts() == old(vm.Counts()) <==>
                  && SameSaturation(mid, peak)
                  && HeaderReturns(old(heap.ra.list.holes), DIRECTORY_PAGES, old(vm.Counts()), old(vm.view),
                                   old(vm.current)))
    {
      hide HeapInv, heap.ra.Valid, FramesKept, Housed, KernelKept, HeapOk, BlocksKept, TakenFirst, UserSame, PagesKept,
           Grows, SameSaturation, Give, Take, Position, FirstFit, InOrder, SoleHeads, SoleRange, HeadFrames, FreeFrames,
           FreeSet, Fits, FreeAfterTake, Afford, Granted, Afforded, vm.ForkCost, AllocCounted, FreeCounted,
           HeaderReturns, SoleAt, UserApart, UserBytes, Untouched;
      ghost var list0, live0, s0, dirs0, others0 := heap.ra.list, heap.live, Snap(vm), vm.ram.dirs, heap.others;
      heap.Facts();
      heap.Ordered();
      heap.HeadsAlone();
      peak := vm.Counts();
      var ptr := AllocBlock();
      mid := vm.Counts();
      GrantedMore(list0.holes, |FreeSet(s0.counts)|, |FreeSet(mid)|, ptr != NULL, vm.ForkCost());
      if ptr == NULL { return NotForked, mid, peak; }
      heap.Facts();
      label Allocated:
      ghost var s1, list1 := Snap(vm), heap.ra.list;
      ghost var b, live1 := heap.live[ptr], heap.live;
      heap.Outside();
      var dst, ok;
      ghost var cost := vm.ForkCost();
      UsersApart(0, 0);
      dst, ok, peak := vm.CloneAndRelease();
      BytesUntouched(list1, s1, vm.ram.pages, dirs0, 0, 0);
      BytesThen(s0.view, s1.view, s0.pages, s1.pages, vm.ram.pages, dirs0, dirs0);
      AffordedFree(mid, peak, cost, ok);
      heap.Survives@Allocated();
      ghost var s2 := Snap(vm);
      UserAll(s1.view, s2.view, dirs0);
      UserThen(s0.view, s1.view, s2.view, dirs0, dirs0);
      BlocksThen(live0, heap.live, s0, s1, s2);
      heap.Recount();
      if !ok {
        HousedOne(blocks, dirs0, vm.kernelPd, live0, heap.live, dst, ptr);
        blocks := blocks[dst := ptr];
        return NotForked, mid, peak;
      }
      ghost var view2, others2 := vm.view, heap.others;
      heap.ra.SomeHole();
      WholeTaken(list0.holes, list1.holes, heap.ra.lo, heap.ra.hi, b.page, 2);
      if heap.ra.ranges == 0 { return Stopped, mid, peak; }
      heap.Facts();
      heap.HeadsAlone();
      heap.LiveShape(ptr);
      heap.LiveRange(ptr);
      UsersApart(b.page, b.pages);
      heap.Kfree(ptr);
      BytesByHeap(list1, heap.ra.list, s2, Snap(vm), b.page, b.pages, dirs0);
      BytesThen(s0.view, s2.view, s0.pages, s2.pages, vm.ram.pages, dirs0, dirs0);
      heap.Facts();
      HousedSame(blocks, dirs0, vm.kernelPd, live0, live1, ptr);
      UserByHeap(list1.holes, heap.ra.list.holes, heap.ra.lo, heap.ra.hi, view2, vm.view, vm.ram.dirs, b.page, b.pages);
      UserThen(s0.view, view2, vm.view, dirs0, dirs0);
      BlocksLess(live0, heap.live, s0, s2, Snap(vm));
      CountsBack(list0, list1, heap.ra.list, heap.ra.lo, heap.ra.hi, s0, s1, peak, s2, Snap(vm), b.page, b.pages);
      if old(heap.transit) == {} && SameSaturation(mid, peak) {
        SameOthers(s1, s2, heap.ra.lo, heap.ra.hi, others0);
        heap.SameBlocks();
      }
      o := Restored;
    }
  }
}
