/** The heap and two growable buffers on the one address allocator of the kernel
    (kernel/memory/kmalloc.c, kernel/growable_buf.c), over every run of their operations. */
module KernelMemory {
  import opened Frames
  import opened Words
  import opened Tables
  import opened Paging
  import opened Holes
  import opened HoleList
  import opened Ledger
  import opened HeaderLedger
  import opened HeapState
  import opened RangeAllocator
  import opened Heap
  import opened GrowableBuf

  /** Pages that stay mapped on the frames they are on go on sharing none of them. */
  lemma NothingSharedStill(s0: Snapshot, s: Snapshot, b: int, m: nat, c: int, k: nat)
    requires NothingShared(s0, b, m, c, k) && s.d == s0.d
    requires forall w :: InRun(w, b, m) || InRun(w, c, k) ==> s.view(s.d, w) == s0.view(s0.d, w)
    ensures NothingShared(s, b, m, c, k)
  {
    forall f | Carries(s.view, s.d, c, k, f) ensures !Carries(s.view, s.d, b, m, f) {
      CarriedStill(s0, s, c, k, f);
      if Carries(s.view, s.d, b, m, f) { CarriedStill(s0, s, b, m, f); }
    }
  }

  lemma CarriedStill(s0: Snapshot, s: Snapshot, b: int, m: nat, f: int)
    requires s.d == s0.d && forall w :: InRun(w, b, m) ==> s.view(s.d, w) == s0.view(s0.d, w)
    requires Carries(s.view, s.d, b, m, f)
    ensures Carries(s0.view, s0.d, b, m, f)
  {
    var w := Carrier(s, b, m, f);
    assert b <= w < b + m && s0.view(s0.d, w) == s.view(s.d, w);
  }

  /** The pages of a buffer that the heap has left alone. */
  lemma KeptRuns(list0: List, list: List, lo: int, hi: int, s0: Snapshot, s: Snapshot, dirs: set<int>, page: int,
                 n: nat, b: int, m: nat, file: seq<Byte>)
    requires Intact(list0, lo, hi, s0, b, m, file) && Elsewhere(s0, b, m, page, n) && s.d == s0.d && s.d in dirs
    requires PagesKept(list0.holes, list.holes, s0.view, s.view, dirs, page, n)
    ensures forall w :: InRun(w, b, m) ==> s.view(s.d, w) == s0.view(s0.d, w)
  {
    hide PagesKept, Shows, Snapshot.SoleFrames;
    KeptRun(list0.holes, list.holes, s0.view, s.view, dirs, page, n, b, m, s.d);
  }

  lemma NoPages(s: Snapshot, b: int, c: int)
    ensures NothingShared(s, b, 0, c, 0) && Run(b, 0) == {} == Run(c, 0)
  {
  }

  lemma SharedSwapped(s: Snapshot, b: int, m: nat, c: int, k: nat)
    requires NothingShared(s, b, m, c, k)
    ensures NothingShared(s, c, k, b, m)
  {
  }

  lemma BufferIn(ra: RangeAllocator, b: int, k: nat)
    requires Placed(ra.list, ra.lo, ra.hi, Snap(ra.vm), b, k)
    ensures forall w :: InRun(w, b, k) ==> ra.lo <= w < ra.hi && !IsFree(ra.list.holes, w)
  {
  }

  /** Pages of the arena that are neither free nor live are among the rest. */
  lemma RunInRest(holes: seq<Hole>, live: map<int, Block>, lo: int, hi: int, b: int, m: nat)
    requires forall w :: InRun(w, b, m) ==> lo <= w < hi && !IsFree(holes, w) && !InLive(live, w)
    ensures Run(b, m) <= Rest(holes, live, lo, hi)
  {
  }

  class KernelMemory {
    const vm: Paging
    const heap: Heap
    const left: GrowableBuf
    const right: GrowableBuf

    ghost predicate Valid()
      reads this, heap, heap.vm, heap.ra, heap.vm.pa, heap.vm.pa.bitmap, heap.vm.pa.refCounts
      reads left, left.vm, left.ra, left.vm.pa, left.vm.pa.bitmap, left.vm.pa.refCounts
      reads right, right.vm, right.ra, right.vm.pa, right.vm.pa.bitmap, right.vm.pa.refCounts
    {
      && heap.Valid() && heap.vm == vm && Beside(left) && Beside(right) && left != right
      && NothingShared(Snap(vm), left.base, left.m, right.base, right.m)
    }

    /** A buffer on pages that the heap does not know. */
    ghost predicate Beside(x: GrowableBuf)
      reads heap, x, x.vm, x.ra, x.vm.pa, x.vm.pa.bitmap, x.vm.pa.refCounts
    {
      x.ra == heap.ra && x.vm == heap.vm && x.Valid() && Run(x.base, x.m) <= heap.transit
    }

    constructor (heap: Heap)
      requires heap.Valid()
      ensures Valid() && this.heap == heap && vm == heap.vm && left.file == right.file == []
      ensures fresh(left) && fresh(right)
    {
      hide HeapInv, heap.ra.Valid, NothingShared, Buffered, SoleHeads, Canonical;
      this.heap, vm := heap, heap.vm;
      heap.Facts();
      left := new GrowableBuf(heap.ra);
      right := new GrowableBuf(heap.ra);
      new;
      NoPages(Snap(vm), left.base, right.base);
    }

    /** Both buffers are as they were, on pages that the heap has left alone. */
    lemma StillValid(list0: List, s0: Snapshot, dirs: set<int>, page: int, n: nat)
      requires heap.Valid() && heap.vm == vm && Beside(left) && Beside(right) && left != right
      requires NothingShared(s0, left.base, left.m, right.base, right.m) && s0.d == vm.current && vm.current in dirs
      requires Intact(list0, heap.ra.lo, heap.ra.hi, s0, left.base, left.m, left.file)
      requires Intact(list0, heap.ra.lo, heap.ra.hi, s0, right.base, right.m, right.file)
      requires Elsewhere(s0, left.base, left.m, page, n) && Elsewhere(s0, right.base, right.m, page, n)
      requires PagesKept(list0.holes, heap.ra.list.holes, s0.view, vm.view, dirs, page, n)
      ensures Valid()
    {
      hide HeapInv, heap.ra.Valid, PagesKept, NothingShared, Intact, Elsewhere, Shows, Placed;
      KeptRuns(list0, heap.ra.list, heap.ra.lo, heap.ra.hi, s0, Snap(vm), dirs, page, n, left.base, left.m, left.file);
      KeptRuns(list0, heap.ra.list, heap.ra.lo, heap.ra.hi, s0, Snap(vm), dirs, page, n, right.base, right.m,
               right.file);
      NothingSharedStill(s0, Snap(vm), left.base, left.m, right.base, right.m);
    }

    /** Both buffers, as they are. */
    lemma BothIntact()
      requires Valid()
      ensures Intact(heap.ra.list, heap.ra.lo, heap.ra.hi, Snap(vm), left.base, left.m, left.file)
      ensures Intact(heap.ra.list, heap.ra.lo, heap.ra.hi, Snap(vm), right.base, right.m, right.file)
      ensures Elsewhere(Snap(vm), left.base, left.m, 0, 0) && Elsewhere(Snap(vm), right.base, right.m, 0, 0)
    {
      hide Shows, Placed, heap.ra.Valid, HeapInv, Snapshot.SoleFrames;
      IsIntact(heap.ra, left.base, left.m, left.file);
      IsIntact(heap.ra, right.base, right.m, right.file);
      NowhereElse(Snap(vm), left.base, left.m);
      NowhereElse(Snap(vm), right.base, right.m);
    }

    /** kaligned_alloc: both buffers hold their files. */
    method Alloc(alignment: int, size: int) returns (ptr: int)
      requires Valid() && (size > 0 ==> heap.ra.ranges != 0) && IsAlignment(alignment) && 0 <= size
               && DataOffset(alignment) + size <= WORD - PAGE_SIZE
      modifies heap`live, heap`transit, heap.ra`list, heap.ra`ranges
      modifies vm`ram, vm`owners, vm`view, vm.pa, vm.pa.bitmap, vm.pa.refCounts
      ensures Valid() && BlocksKept(old(heap.live), old(Snap(vm)), Snap(vm))
      ensures size > 0 ==> heap.AsProvided(PagesFor(DataOffset(alignment) + size), ptr)
      ensures if ptr == NULL then heap.live == old(heap.live)
              else ptr !in old(heap.live) && ptr in heap.live && heap.live == old(heap.live)[ptr := heap.live[ptr]]
    {
      hide HeapInv, heap.ra.Valid, FramesKept, PagesKept, NothingShared, Intact, Elsewhere, BlocksKept;
      BothIntact();
      ghost var list0, s0 := heap.ra.list, Snap(vm);
      ptr := heap.KalignedAlloc(alignment, size);
      heap.Facts();
      left.BesideHeap(list0, s0, 0, 0);
      right.BesideHeap(list0, s0, 0, 0);
      StillValid(list0, s0, vm.ram.dirs, 0, 0);
    }

    /** kfree: so they do. */
    method Free(ptr: int)
      requires Valid() && (ptr != NULL ==> heap.ra.ranges != 0 && ptr in heap.live)
      modifies heap`live, heap`transit, heap.ra`list, heap.ra`ranges
      modifies vm`ram, vm`owners, vm`view, vm.pa, vm.pa.bitmap, vm.pa.refCounts
      ensures Valid() && heap.live == old(heap.live) - {ptr} && BlocksKept(heap.live, old(Snap(vm)), Snap(vm))
    {
      hide HeapInv, heap.ra.Valid, FramesKept, PagesKept, NothingShared, Elsewhere, BlocksKept, Shows, Placed;
      BothIntact();
      if ptr == NULL {
        heap.Kfree(ptr);
      } else {
        ghost var b, list0, s0 := heap.live[ptr], heap.ra.list, Snap(vm);
        BlockElsewhere(heap, ptr, left.base, left.m);
        BlockElsewhere(heap, ptr, right.base, right.m);
        heap.Kfree(ptr);
        heap.Facts();
        left.BesideHeap(list0, s0, b.page, b.pages);
        right.BesideHeap(list0, s0, b.page, b.pages);
        StillValid(list0, s0, vm.ram.dirs, b.page, b.pages);
      }
    }

    /** What is free or in transit is in no live block. */
    lemma NotLive()
      requires heap.Valid()
      ensures forall w :: IsFree(heap.ra.list.holes, w) || w in heap.transit ==> !InLive(heap.live, w)
      ensures HeapOk(heap.ra.list, heap.live, heap.transit, heap.ra.lo, heap.ra.hi, Snap(heap.vm))
      ensures heap.ra.lo >= KERNEL_VPAGE && heap.ra.vm == heap.vm
    {
    }

    /** Buffer x has moved from [b0, b0+m0): the heap and the other buffer are as they were, and
        the pages that the heap does not know are counted again. */
    ghost method Adjust(x: GrowableBuf, y: GrowableBuf, list0: List, s0: Snapshot, b0: int, m0: nat)
      requires (x == left && y == right) || (x == right && y == left)
      requires left != right && heap.vm == vm && heap.ra.vm == vm && heap.ra.lo >= KERNEL_VPAGE
      requires x.ra == heap.ra && x.vm == vm && x.Valid() && y.ra == heap.ra && y.vm == vm && y.InStep()
      requires Intact(list0, heap.ra.lo, heap.ra.hi, s0, y.base, y.m, y.file)
      requires NothingShared(s0, b0, m0, y.base, y.m) && Run(b0, m0) + Run(y.base, y.m) <= heap.transit
      requires HeapOk(list0, heap.live, heap.transit, heap.ra.lo, heap.ra.hi, s0)
      requires forall w :: IsFree(list0.holes, w) || w in heap.transit ==> !InLive(heap.live, w)
      requires Spares(heap.ra.lo, list0, heap.ra.list, s0, Snap(vm), vm.ram.dirs, b0, m0, x.base, x.m)
      modifies heap`transit, heap`others
      ensures Valid() && BlocksKept(heap.live, s0, Snap(vm))
    {
      hide heap.ra.Valid, FramesKept, ArenaKept, NothingShared, Shows, Placed, SoleHeads, HeapOk, BlocksKept, GrownFrom,
           Snapshot.SoleFrames, IsFree;
      BufferFacts(heap.ra, x.base, x.m, x.file);
      HeapSpared(list0, heap.ra.list, heap.live, heap.transit, heap.ra.lo, heap.ra.hi, s0, Snap(vm), vm.ram.dirs, b0,
                 m0);
      OtherSpared(list0, heap.ra.list, heap.ra.lo, heap.ra.hi, s0, Snap(vm), vm.ram.dirs, b0, m0, x.base, x.m, y.base,
                  y.m, y.file);
      SharedSwapped(Snap(vm), x.base, x.m, y.base, y.m);
      BufferIn(heap.ra, y.base, y.m);
      BufferIn(heap.ra, x.base, x.m);
      forall w | InRun(w, x.base, x.m) ensures !InLive(heap.live, w) { assert InRun(w, b0, m0) ==> w in Run(b0, m0); }
      forall w | InRun(w, y.base, y.m) ensures !InLive(heap.live, w) { assert w in Run(y.base, y.m); }
      RunInRest(heap.ra.list.holes, heap.live, heap.ra.lo, heap.ra.hi, x.base, x.m);
      RunInRest(heap.ra.list.holes, heap.live, heap.ra.lo, heap.ra.hi, y.base, y.m);
      heap.Restock();
    }

    /** growable_buf_pwrite on either buffer: the blocks of the heap and the other file stay. */
    method Write(toRight: bool, bytes: seq<Byte>, offset: nat) returns (r: WriteResult)
      requires Valid() && offset + |bytes| < WORD
      requires var x := if toRight then right else left;
               offset + |bytes| > x.capacity ==> NewCapacity(x.capacity, offset + |bytes|) <= WORD - PAGE_SIZE
      modifies left, right, heap`transit, heap`others, heap.ra`list, heap.ra`ranges
      modifies vm`ram, vm`owners, vm`view, vm.pa, vm.pa.bitmap, vm.pa.refCounts
      ensures r.Done? || r.why.NoAddress? || r.why.NoFrames? ==>
                Valid() && heap.live == old(heap.live) && BlocksKept(heap.live, old(Snap(vm)), Snap(vm))
      ensures var x := if toRight then right else left; var y := if toRight then left else right;
              y.file == old(y.file) && (r.Done? ==> x.file == Overwrite(old(x.file), offset, bytes))
              && (r.Done? <==> offset + |bytes| <= old(x.capacity) || old(x.Growing(offset + |bytes|)).Grown?)
              && (r.NotDone? ==> r.why == old(x.Growing(offset + |bytes|)))
    {
      hide HeapInv, heap.ra.Valid, NothingShared, Shows, Placed, Intact, Spares, HeapOk, BlocksKept, Overwrite,
           GrowOutcome, NewCapacity, SoleHeads, Canonical;
      var x, y := if toRight then right else left, if toRight then left else right;
      ghost var list0, s0, b0, m0 := heap.ra.list, Snap(vm), x.base, x.m;
      BothIntact();
      NotLive();
      SharedSwapped(s0, left.base, left.m, right.base, right.m);
      r := x.Pwrite(bytes, offset);
      if r.NotDone? && (r.why.NotFreed? || r.why.Stopped?) { return; }
      Adjust(x, y, list0, s0, b0, m0);
    }

    /** growable_buf_truncate, likewise. */
    method Truncate(onRight: bool, length: nat) returns (r: GrowResult)
      requires Valid() && length < WORD
      requires var x := if onRight then right else left;
               length > x.capacity ==> NewCapacity(x.capacity, length) <= WORD - PAGE_SIZE
      modifies left, right, heap`transit, heap`others, heap.ra`list, heap.ra`ranges
      modifies vm`ram, vm`owners, vm`view, vm.pa, vm.pa.bitmap, vm.pa.refCounts
      ensures r.Grown? || r.NoAddress? || r.NoFrames? ==>
                Valid() && heap.live == old(heap.live) && BlocksKept(heap.live, old(Snap(vm)), Snap(vm))
      ensures var x := if onRight then right else left; var y := if onRight then left else right;
              y.file == old(y.file) && (r.Grown? ==> x.file == Resize(old(x.file), length))
              && r == if length <= old(x.capacity) then Grown else old(x.Growing(length))
    {
      hide HeapInv, heap.ra.Valid, NothingShared, Shows, Placed, Intact, Spares, HeapOk, BlocksKept, Resize,
           GrowOutcome, NewCapacity, SoleHeads, Canonical;
      var x, y := if onRight then right else left, if onRight then left else right;
      ghost var list0, s0, b0, m0 := heap.ra.list, Snap(vm), x.base, x.m;
      BothIntact();
      NotLive();
      SharedSwapped(s0, left.base, left.m, right.base, right.m);
      r := x.Truncate(length);
      if r.NotFreed? || r.Stopped? { return; }
      Adjust(x, y, list0, s0, b0, m0);
    }
  }
}
