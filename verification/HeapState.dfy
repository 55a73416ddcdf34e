/** What the kernel heap keeps true (kernel/memory/kmalloc.c), as a statement about
    values: which pages are free, which belong to live blocks, and that every page
    that is mapped has a frame of its own. */
module HeapState {
  import opened Basics
  import opened Frames
  import opened Words
  import opened Tables
  import opened Cloning
  import opened Holes
  import opened HoleList
  import opened Ledger
  import opened HeaderLedger
  import opened Paging
  import opened RangeAllocator

  const MAGIC := 0x1d578e50
  const HEADER_SIZE := 8

  /** A live allocation: its pages, and the bytes in use from the first page on. */
  datatype Block = Block(page: int, pages: nat, bytes: int)

  /** An address space, and the frames behind it. */
  datatype Snapshot = Snapshot(view: (int, int) -> Mapping, d: int, counts: seq<RefCount>, pages: seq<Page>) {
    ghost predicate On(w: int) {
      view(d, w).Mapped? && view(d, w).entry.frame < |counts| && view(d, w).entry.frame < |pages|
    }

    ghost function Frame(w: int): nat
      requires On(w)
    {
      view(d, w).entry.frame
    }

    /** A frame with one reference is behind one page only. */
    ghost predicate SoleFrames() {
      forall w, x :: On(w) && On(x) && Frame(w) == Frame(x) && counts[Frame(w)] == 1 ==> w == x
    }
  }

  ghost function Snap(vm: Paging): Snapshot
    reads vm, vm.pa.refCounts
  {
    Snapshot(vm.view, vm.current, vm.Counts(), vm.ram.pages)
  }

  lemma AllSole(vm: Paging)
    requires vm.Valid()
    ensures Snap(vm).SoleFrames()
  {
    var s := Snap(vm);
    forall w, x | s.On(w) && s.On(x) && s.Frame(w) == s.Frame(x) && s.counts[s.Frame(w)] == 1 ensures w == x {
      vm.SoleFrame(vm.current, w, x);
    }
  }

  predicate InBlock(b: Block, w: int) {
    b.page <= w < b.page + b.pages
  }

  ghost predicate InLive(live: map<int, Block>, w: int) {
    exists p :: p in live && InBlock(live[p], w)
  }

  /** The first page of the block that `ptr` points into, as header_from_ptr computes it. */
  function HeaderPage(ptr: int): int {
    if ptr % PAGE_SIZE < HEADER_SIZE then ptr / PAGE_SIZE - 1 else ptr / PAGE_SIZE
  }

  ghost predicate BlockShape(ptr: int, b: Block, lo: int, hi: int) {
    && lo <= b.page && b.page + b.pages <= hi && b.pages > 0
    && b.page * PAGE_SIZE + HEADER_SIZE <= ptr < b.page * PAGE_SIZE + b.bytes
    && b.bytes <= b.pages * PAGE_SIZE < b.bytes + PAGE_SIZE
    && HeaderPage(ptr) == b.page
  }

  ghost predicate BlockMapped(b: Block, s: Snapshot) {
    forall w :: InBlock(b, w) ==>
      s.On(w) && s.counts[s.Frame(w)] == 1 && s.view(s.d, w).entry.flags == PAGE_WRITE + PAGE_GLOBAL
  }

  ghost predicate BlockHeader(b: Block, s: Snapshot) {
    s.On(b.page) && Load32(s.pages[s.Frame(b.page)], 0) == MAGIC && Load32(s.pages[s.Frame(b.page)], 4) == b.bytes
  }

  ghost predicate BlockOk(ptr: int, b: Block, lo: int, hi: int, s: Snapshot) {
    BlockShape(ptr, b, lo, hi) && BlockMapped(b, s) && BlockHeader(b, s)
  }

  ghost predicate Disjoint(live: map<int, Block>) {
    forall p, q, w :: p in live && q in live && InBlock(live[p], w) && InBlock(live[q], w) ==> p == q
  }

  /** Every page of the heap is free, in a live block, or in transit between the two. */
  ghost predicate Parted(holes: seq<Hole>, live: map<int, Block>, transit: set<int>, lo: int, hi: int) {
    && (forall w :: w in transit ==> lo <= w < hi && !IsFree(holes, w) && !InLive(live, w))
    && (forall w :: InLive(live, w) ==> !IsFree(holes, w))
    && (forall w :: lo <= w < hi ==> IsFree(holes, w) || InLive(live, w) || w in transit)
  }

  ghost predicate HeapOk(list: List, live: map<int, Block>, transit: set<int>, lo: int, hi: int, s: Snapshot) {
    && SoleHeads(list.heads, s.view, s.d, s.counts)
    && (forall p :: p in live ==> BlockOk(p, live[p], lo, hi, s))
    && Disjoint(live)
    && Parted(list.holes, live, transit, lo, hi)
  }

  /** The pages of the live blocks are where they were, with the same bytes. */
  ghost predicate Kept(live: map<int, Block>, s0: Snapshot, s: Snapshot) {
    s.d == s0.d && BlocksKept(live, s0, s)
  }

  ghost predicate BlocksKept(live: map<int, Block>, s0: Snapshot, s: Snapshot) {
    forall w :: InLive(live, w) && s0.On(w) ==>
         && s.On(w) && s.view(s.d, w) == s0.view(s0.d, w)
         && s.pages[s.Frame(w)] == s0.pages[s.Frame(w)] && (s0.counts[s.Frame(w)] == 1 ==> s.counts[s.Frame(w)] == 1)
  }

  lemma KeptThen(live: map<int, Block>, s0: Snapshot, s1: Snapshot, s: Snapshot)
    requires Kept(live, s0, s1) && Kept(live, s1, s)
    requires forall w :: InLive(live, w) ==> s0.On(w) && s0.counts[s0.Frame(w)] == 1
    ensures Kept(live, s0, s)
  {
  }

  /** A step that moves no live block keeps the heap in order. */
  lemma HeapStep(list0: List, list: List, live: map<int, Block>, transit0: set<int>, transit: set<int>, lo: int,
                 hi: int, s0: Snapshot, s: Snapshot)
    requires HeapOk(list0, live, transit0, lo, hi, s0) && Kept(live, s0, s)
    requires SoleHeads(list.heads, s.view, s.d, s.counts) && Parted(list.holes, live, transit, lo, hi)
    ensures HeapOk(list, live, transit, lo, hi, s)
  {
    forall p | p in live ensures BlockOk(p, live[p], lo, hi, s) {
      assert BlockOk(p, live[p], lo, hi, s0);
      forall w | InBlock(live[p], w) ensures s.On(w) && s.counts[s.Frame(w)] == 1 {
        assert InLive(live, w) && s0.On(w);
      }
      assert InBlock(live[p], live[p].page) && InLive(live, live[p].page);
    }
  }

  lemma LiveSole(list: List, live: map<int, Block>, transit: set<int>, lo: int, hi: int, s: Snapshot, w: int)
    requires HeapOk(list, live, transit, lo, hi, s) && InLive(live, w)
    ensures s.On(w) && s.counts[s.Frame(w)] == 1 && lo <= w < hi
  {
    var p :| p in live && InBlock(live[p], w);
    assert BlockOk(p, live[p], lo, hi, s);
  }

  /** The hole list may use its own frames and free ones; those of live blocks are neither. */
  lemma KeptByRange(list0: List, list: List, live: map<int, Block>, transit: set<int>, lo: int, hi: int, s0: Snapshot,
                    s: Snapshot)
    requires HeapOk(list0, live, transit, lo, hi, s0) && s0.SoleFrames() && s.d == s0.d && |s.counts| == |s0.counts|
    requires forall w :: w in list0.heads ==> IsFree(list0.holes, w) && s0.On(w)
    requires forall w :: InLive(live, w) ==> s.view(s.d, w) == s0.view(s.d, w)
    requires HeaderBytes(list0.heads, s0.view, s0.d, s0.counts, s0.pages, s.pages)
    requires Balanced(list0.heads, s0.view, s0.counts, list.heads, s.view, s.counts, s.d)
    ensures Kept(live, s0, s) && SoleHeads(list.heads, s.view, s.d, s.counts)
  {
    forall w | InLive(live, w) && s0.On(w)
      ensures s.On(w) && s.view(s.d, w) == s0.view(s0.d, w)
              && s.pages[s.Frame(w)] == s0.pages[s.Frame(w)]
              && (s0.counts[s.Frame(w)] == 1 ==> s.counts[s.Frame(w)] == 1)
    {
      LiveSole(list0, live, transit, lo, hi, s0, w);
      assert w !in list0.heads;
      NotHead(list0, s0, w);
    }
  }

  /** Mapping a run of pages that are in transit. */
  lemma KeptByMap(list: List, live: map<int, Block>, transit: set<int>, lo: int, hi: int, s0: Snapshot, s: Snapshot,
                  page: int, n: nat)
    requires HeapOk(list, live, transit, lo, hi, s0) && s == Snapshot(s.view, s0.d, s.counts, s0.pages)
    requires forall w :: w in list.heads ==> IsFree(list.holes, w)
    requires forall w :: InRun(w, page, n) ==> w in transit
    requires forall w :: !InRun(w, page, n) ==> s.view(s.d, w) == s0.view(s.d, w)
    requires Charged(s0.counts, s.counts, s.view, s.d, page, n)
    ensures Kept(live, s0, s) && SoleHeads(list.heads, s.view, s.d, s.counts)
  {
    forall w | InLive(live, w) ensures !InRun(w, page, n) { }
    forall w | w in list.heads ensures !InRun(w, page, n) { }
  }

  /** A page outside a run has a frame outside it, if nobody else refers to that frame. */
  lemma OffCarried(s: Snapshot, page: int, n: nat, w: int)
    requires s.SoleFrames() && s.On(w) && s.counts[s.Frame(w)] == 1 && !InRun(w, page, n)
    requires forall x :: InRun(x, page, n) ==> s.On(x)
    ensures !Carries(s.view, s.d, page, n, s.Frame(w))
  {
    forall x | page <= x < page + n && s.view(s.d, x).Mapped? ensures s.view(s.d, x).entry.frame != s.Frame(w) {
      assert InRun(x, page, n) && s.On(x) && x != w;
    }
  }

  /** Unmapping a run of pages that are in transit. */
  lemma KeptByUnmap(list: List, live: map<int, Block>, transit: set<int>, lo: int, hi: int, s0: Snapshot, s: Snapshot,
                    page: int, n: nat)
    requires HeapOk(list, live, transit, lo, hi, s0) && s == Snapshot(s.view, s0.d, s.counts, s0.pages)
    requires s0.SoleFrames() && forall w :: w in list.heads ==> IsFree(list.holes, w) && s0.On(w)
    requires forall w :: InRun(w, page, n) ==> w in transit && s0.On(w)
    requires forall w :: !InRun(w, page, n) ==> s.view(s.d, w) == s0.view(s.d, w)
    requires Charged(s.counts, s0.counts, s0.view, s.d, page, n)
    ensures Kept(live, s0, s) && SoleHeads(list.heads, s.view, s.d, s.counts)
  {
    forall w | (InLive(live, w) || w in list.heads) && s0.On(w) && s0.counts[s0.Frame(w)] == 1
      ensures !InRun(w, page, n) && s.counts[s0.Frame(w)] == 1
    {
      assert !InRun(w, page, n);
      OffCarried(s0, page, n, w);
    }
    forall w | InLive(live, w) && s0.On(w) ensures s.On(w) && s.Frame(w) == s0.Frame(w) && s.counts[s.Frame(w)] == 1 {
      LiveSole(list, live, transit, lo, hi, s0, w);
    }
  }

  /** A run of pages in transit becomes a live block. */
  lemma Adopt(list: List, live: map<int, Block>, transit: set<int>, run: set<int>, lo: int, hi: int, s: Snapshot,
              ptr: int, b: Block)
    requires HeapOk(list, live, transit + run, lo, hi, s) && transit !! run && BlockOk(ptr, b, lo, hi, s)
    requires forall w :: w in run <==> InBlock(b, w)
    ensures ptr !in live && HeapOk(list, live[ptr := b], transit, lo, hi, s)
  {
    assert InBlock(b, b.page) && b.page in transit + run;
    assert !InLive(live, b.page);
    forall p | p in live ensures p != ptr {
      assert BlockOk(p, live[p], lo, hi, s) && InBlock(live[p], live[p].page) && InLive(live, live[p].page);
    }
    var live' := live[ptr := b];
    forall w ensures InLive(live', w) <==> InLive(live, w) || InBlock(b, w) { LiveWith(live, ptr, b, w); }
    forall w | InBlock(b, w) ensures !InLive(live, w) { assert w in transit + run; }
    forall p, q, w | p in live' && q in live' && InBlock(live'[p], w) && InBlock(live'[q], w) ensures p == q {
      if p == ptr && q != ptr { assert InLive(live, w); }
      if q == ptr && p != ptr { assert InLive(live, w); }
    }
  }

  lemma LiveWith(live: map<int, Block>, ptr: int, b: Block, w: int)
    requires ptr !in live
    ensures InLive(live[ptr := b], w) <==> InLive(live, w) || InBlock(b, w)
  {
    var live' := live[ptr := b];
    if InBlock(b, w) { assert ptr in live' && InBlock(live'[ptr], w); }
    if InLive(live, w) {
      var p :| p in live && InBlock(live[p], w);
      assert p in live' && live'[p] == live[p];
    }
  }

  /** ... and back. */
  lemma Disown(list: List, live: map<int, Block>, transit: set<int>, run: set<int>, lo: int, hi: int, s: Snapshot,
               ptr: int)
    requires HeapOk(list, live, transit, lo, hi, s) && ptr in live
    requires forall w :: w in run <==> InBlock(live[ptr], w)
    ensures HeapOk(list, live - {ptr}, transit + run, lo, hi, s)
  {
    var live' := live - {ptr};
    forall w ensures InLive(live, w) <==> InLive(live', w) || InBlock(live[ptr], w) {
      LiveWith(live', ptr, live[ptr], w);
      assert live'[ptr := live[ptr]] == live;
    }
    forall w | InBlock(live[ptr], w) ensures !InLive(live', w) && lo <= w < hi {
      assert BlockOk(ptr, live[ptr], lo, hi, s);
      forall q | q in live' ensures !InBlock(live'[q], w) { assert q in live && q != ptr; }
    }
  }

  // ----- conservation of frames -----

  /** Frame f is free or behind a page of the heap. */
  ghost predicate InArena(s: Snapshot, lo: int, hi: int, f: int)
    requires lo <= hi && 0 <= f < |s.counts|
  {
    s.counts[f] == 0 || Carries(s.view, s.d, lo, hi - lo, f)
  }

  /** `others` are the references from outside the heap: a frame that is free or behind a page
      of the heap has none, and any other frame has no more than those. */
  ghost predicate Pooled(s: Snapshot, lo: int, hi: int, others: seq<RefCount>)
    requires lo <= hi
  {
    |others| == |s.counts| && forall f {:trigger InArena(s, lo, hi, f)} :: 0 <= f < |s.counts| ==>
      others[f] == if InArena(s, lo, hi, f) then 0 else s.counts[f]
  }

  /** The references from outside, as they are now. */
  ghost function OthersOf(s: Snapshot, lo: int, hi: int): (others: seq<RefCount>)
    requires lo <= hi
    ensures Pooled(s, lo, hi, others)
  {
    seq(|s.counts|, f requires 0 <= f < |s.counts| => if InArena(s, lo, hi, f) then 0 else s.counts[f])
  }

  ghost predicate SamePool(s0: Snapshot, s: Snapshot, lo: int, hi: int)
    requires lo <= hi
  {
    |s.counts| == |s0.counts| && forall f {:trigger InArena(s, lo, hi, f)} {:trigger InArena(s0, lo, hi,
            f)} :: 0 <= f < |s.counts| ==>
      (InArena(s, lo, hi, f) <==> InArena(s0, lo, hi, f)) && (!InArena(s0, lo, hi, f) ==> s.counts[f] == s0.counts[f])
  }

  /** The mapped pages of the heap that carry no header are the same as before. */
  ghost predicate SameBlocks(list0: List, list: List, s0: Snapshot, s: Snapshot, lo: int, hi: int) {
    forall w :: lo <= w < hi && w !in list0.heads && s0.view(s0.d, w).Mapped? ==>
      w !in list.heads && s.view(s.d, w) == s0.view(s0.d, w)
  }

  lemma ArenaParts(list: List, s: Snapshot, lo: int, hi: int, f: int) returns (w: int)
    requires lo <= hi && 0 <= f < |s.counts| && InArena(s, lo, hi, f)
    ensures InPool(list.heads, s.view, s.d, s.counts, f)
            || (lo <= w < hi && w !in list.heads && s.view(s.d, w).Mapped? && s.view(s.d, w).entry.frame == f)
  {
    w := lo;
    if s.counts[f] != 0 {
      w :| lo <= w < lo + (hi - lo) && s.view(s.d, w).Mapped? && s.view(s.d, w).entry.frame == f;
    }
  }

  lemma PoolByRangeOne(list0: List, list: List, s0: Snapshot, s: Snapshot, lo: int, hi: int, f: int)
    requires lo <= hi && 0 <= f < |s.counts| && |s.counts| == |s0.counts| && SameBlocks(list0, list, s0, s, lo, hi)
    requires forall w :: w in list.heads ==> lo <= w < hi
    requires InPool(list0.heads, s0.view, s0.d, s0.counts, f) ==> InPool(list.heads, s.view, s.d, s.counts, f)
    requires InArena(s0, lo, hi, f)
    ensures InArena(s, lo, hi, f)
  {
    var w := ArenaParts(list0, s0, lo, hi, f);
    if InPool(list0.heads, s0.view, s0.d, s0.counts, f) && s.counts[f] != 0 {
      var x :| x in list.heads && s.view(s.d, x).Mapped? && s.view(s.d, x).entry.frame == f;
    }
  }

  lemma HeadInArena(list: List, s: Snapshot, lo: int, hi: int, f: int)
    requires lo <= hi && 0 <= f < |s.counts| && InPool(list.heads, s.view, s.d, s.counts, f)
    requires forall w :: w in list.heads ==> lo <= w < hi
    ensures InArena(s, lo, hi, f)
  {
    if s.counts[f] != 0 {
      var w :| w in list.heads && s.view(s.d, w).Mapped? && s.view(s.d, w).entry.frame == f;
      assert lo <= w < lo + (hi - lo);
    }
  }

  lemma PoolByRange(list0: List, list: List, s0: Snapshot, s: Snapshot, lo: int, hi: int)
    requires lo <= hi && s.d == s0.d && SoleHeads(list0.heads, s0.view, s0.d, s0.counts)
    requires SameBlocks(list0, list, s0, s, lo, hi) && SameBlocks(list, list0, s, s0, lo, hi)
    requires forall w :: w in list0.heads || w in list.heads ==> lo <= w < hi
    requires Balanced(list0.heads, s0.view, s0.counts, list.heads, s.view, s.counts, s.d)
    ensures SamePool(s0, s, lo, hi)
  {
    forall f | 0 <= f < |s.counts|
      ensures (InArena(s, lo, hi, f) <==> InArena(s0, lo, hi, f))
              && (!InArena(s0, lo, hi, f) ==> s.counts[f] == s0.counts[f])
    {
      if InPool(list0.heads, s0.view, s0.d, s0.counts, f) { HeadInArena(list0, s0, lo, hi, f); }
      assert InPool(list.heads, s.view, s.d, s.counts, f) <==> InPool(list0.heads, s0.view, s0.d, s0.counts, f);
      if InArena(s0, lo, hi, f) { PoolByRangeOne(list0, list, s0, s, lo, hi, f); }
      if InArena(s, lo, hi, f) { PoolByRangeOne(list, list0, s, s0, lo, hi, f); }
    }
  }

  /** Mapping a run of pages, or unmapping it, the other way round. */
  lemma PoolByMap(s0: Snapshot, s: Snapshot, lo: int, hi: int, page: int, n: nat)
    requires lo <= page && page + n <= hi && s.d == s0.d
    requires forall w :: InRun(w, page, n) ==> s0.view(s0.d, w).Unmapped?
    requires forall w :: !InRun(w, page, n) ==> s.view(s.d, w) == s0.view(s0.d, w)
    requires Charged(s0.counts, s.counts, s.view, s.d, page, n)
    ensures SamePool(s0, s, lo, hi)
  {
    forall f | 0 <= f < |s.counts|
      ensures (InArena(s, lo, hi, f) <==> InArena(s0, lo, hi, f))
              && (!InArena(s0, lo, hi, f) ==> s.counts[f] == s0.counts[f])
    {
      if Carries(s0.view, s0.d, lo, hi - lo, f) {
        var w :| lo <= w < lo + (hi - lo) && s0.view(s0.d, w).Mapped? && s0.view(s0.d, w).entry.frame == f;
        assert !InRun(w, page, n);
      }
      if Carries(s.view, s.d, lo, hi - lo, f) && !Carries(s.view, s.d, page, n, f) {
        var w :| lo <= w < lo + (hi - lo) && s.view(s.d, w).Mapped? && s.view(s.d, w).entry.frame == f;
        assert !InRun(w, page, n);
      }
      if Carries(s.view, s.d, page, n, f) {
        var w :| page <= w < page + n && s.view(s.d, w).Mapped? && s.view(s.d, w).entry.frame == f;
        assert lo <= w < lo + (hi - lo);
      }
    }
  }

  // ----- the steps of an allocation and of a free -----

  ghost function Run(page: int, n: nat): set<int> {
    set w {:trigger InRun(w, page, n)} | page <= w < page + n && InRun(w, page, n)
  }

  ghost predicate HeapInv(list: List, live: map<int, Block>, transit: set<int>, lo: int, hi: int, others: seq<RefCount>,
                          s: Snapshot)
  {
    lo <= hi && HeapOk(list, live, transit, lo, hi, s) && Pooled(s, lo, hi, others)
  }

  /** The range allocator has changed the hole list, and only mappings of free pages. */
  ghost predicate RangeStep(list0: List, list: List, lo: int, hi: int, s0: Snapshot, s: Snapshot) {
    && s.d == s0.d && Canonical(list0.holes, lo, hi) && Canonical(list.holes, lo, hi)
    && (forall w :: w in list0.heads ==> IsFree(list0.holes, w) && s0.On(w))
    && (forall w :: w in list.heads ==> IsFree(list.holes, w))
    && BodyUnmapped(list0, s0.view, s0.d) && BodyUnmapped(list, s.view, s.d)
    && HeaderBytes(list0.heads, s0.view, s0.d, s0.counts, s0.pages, s.pages)
    && Balanced(list0.heads, s0.view, s0.counts, list.heads, s.view, s.counts, s.d)
  }

  /** What an operation of the range allocator does, as a step between two moments. */
  twostate lemma Stepped(ra: RangeAllocator)
    requires old(ra.Valid()) && ra.Valid() && ra.Quiet() && ra.lo >= KERNEL_VPAGE
    ensures RangeStep(old(ra.list), ra.list, ra.lo, ra.hi, old(Snap(ra.vm)), Snap(ra.vm))
    ensures ra.vm.current == old(ra.vm.current) && ra.vm.ram.dirs == old(ra.vm.ram.dirs)
            && ra.vm.ram.pdes == old(ra.vm.ram.pdes)
  {
    ra.HeadsFree();
    OldHeads(ra);
  }

  twostate lemma OldHeads(ra: RangeAllocator)
    requires old(ra.Valid())
    ensures forall w :: w in old(ra.list).heads ==> IsFree(old(ra.list).holes, w) && old(Snap(ra.vm)).On(w)
  {
    forall w | w in old(ra.list).heads ensures IsFree(old(ra.list).holes, w) {
      HeadFree(old(ra.list).holes, ra.lo, ra.hi, w);
    }
    assert old(|ra.vm.ram.pages| == |ra.vm.Counts()|);
  }

  lemma FreeBoth(list0: List, list: List, lo: int, hi: int)
    requires Canonical(list0.holes, lo, hi) && Canonical(list.holes, lo, hi)
    ensures forall w :: IsFree(list0.holes, w) || IsFree(list.holes, w) ==> lo <= w < hi
  {
  }

  lemma RangeTaken(list0: List, list: List, live: map<int, Block>, transit: set<int>, lo: int, hi: int,
                   others: seq<RefCount>, s0: Snapshot, s: Snapshot, k: nat, n: nat)
    requires HeapInv(list0, live, transit, lo, hi, others, s0) && s0.SoleFrames()
             && RangeStep(list0, list, lo, hi, s0, s)
    requires k < |list0.holes| && 0 < n <= list0.holes[k].size && list.holes == Take(list0.holes, k, n)
    requires forall w :: !IsFree(list0.holes, w) ==> s.view(s.d, w) == s0.view(s0.d, w)
    requires forall w :: InRun(w, list0.holes[k].page, n) ==> s.view(s.d, w).Unmapped?
    ensures HeapInv(list, live, transit + Run(list0.holes[k].page, n), lo, hi, others, s) && Kept(live, s0, s)
    ensures transit !! Run(list0.holes[k].page, n) && lo <= list0.holes[k].page && list0.holes[k].page + n <= hi
  {
    var page := list0.holes[k].page;
    TakeFree(list0.holes, lo, hi, k, n);
    forall w | InRun(w, page, n) ensures IsFree(list0.holes, w) { assert InHole(list0.holes[k], w); }
    KeptByRange(list0, list, live, transit, lo, hi, s0, s);
    HeapStep(list0, list, live, transit, transit + Run(page, n), lo, hi, s0, s);
    FreeBoth(list0, list, lo, hi);
    PoolByRange(list0, list, s0, s, lo, hi);
  }

  lemma RangeGiven(list0: List, list: List, live: map<int, Block>, transit: set<int>, lo: int, hi: int,
                   others: seq<RefCount>, s0: Snapshot, s: Snapshot, page: int, n: nat)
    requires n > 0 && s0.SoleFrames() && RangeStep(list0, list, lo, hi, s0, s)
    requires HeapInv(list0, live, transit + Run(page, n), lo, hi, others, s0) && transit !! Run(page, n)
    requires lo <= page && page + n <= hi && list.holes == Give(list0.holes, Position(list0.holes, page), page, n)
    requires forall w :: !IsFree(list.holes, w) ==> s.view(s.d, w) == s0.view(s0.d, w)
    requires forall w :: InRun(w, page, n) ==> s0.view(s0.d, w).Unmapped?
    ensures HeapInv(list, live, transit, lo, hi, others, s) && Kept(live, s0, s)
  {
    forall w | InRun(w, page, n) ensures !IsFree(list0.holes, w) { assert w in transit + Run(page, n); }
    GiveFree(list0.holes, lo, hi, page, n);
    forall w | InLive(live, w) ensures !InRun(w, page, n) { assert InRun(w, page, n) ==> w in transit + Run(page, n); }
    FreeBoth(list0, list, lo, hi);
    KeptByRange(list0, list, live, transit + Run(page, n), lo, hi, s0, s);
    HeapStep(list0, list, live, transit + Run(page, n), transit, lo, hi, s0, s);
    PoolByRange(list0, list, s0, s, lo, hi);
  }

  /** A run of pages in transit has been mapped to fresh frames. */
  lemma RunMapped(list: List, live: map<int, Block>, transit: set<int>, lo: int, hi: int, others: seq<RefCount>,
                  s0: Snapshot, s: Snapshot, page: int, n: nat)
    requires HeapInv(list, live, transit, lo, hi, others, s0) && s == Snapshot(s.view, s0.d, s.counts, s0.pages)
    requires forall w :: w in list.heads ==> IsFree(list.holes, w)
    requires forall w :: InRun(w, page, n) ==> w in transit && s0.view(s0.d, w).Unmapped?
    requires forall w :: !InRun(w, page, n) ==> s.view(s.d, w) == s0.view(s.d, w)
    requires Charged(s0.counts, s.counts, s.view, s.d, page, n)
    ensures HeapInv(list, live, transit, lo, hi, others, s) && Kept(live, s0, s)
  {
    KeptByMap(list, live, transit, lo, hi, s0, s, page, n);
    HeapStep(list, list, live, transit, transit, lo, hi, s0, s);
    if n > 0 {
      assert InRun(page, page, n) && InRun(page + n - 1, page, n);
      PoolByMap(s0, s, lo, hi, page, n);
    } else {
      PoolByMap(s0, s, lo, hi, lo, 0);
    }
  }

  lemma RunUnmapped(list: List, live: map<int, Block>, transit: set<int>, lo: int, hi: int, others: seq<RefCount>,
                    s0: Snapshot, s: Snapshot, page: int, n: nat)
    requires HeapInv(list, live, transit, lo, hi, others, s0) && s == Snapshot(s.view, s0.d, s.counts, s0.pages)
    requires s0.SoleFrames() && n > 0 && forall w :: w in list.heads ==> IsFree(list.holes, w) && s0.On(w)
    requires forall w :: InRun(w, page, n) ==> w in transit && s0.On(w) && s.view(s.d, w).Unmapped?
    requires forall w :: !InRun(w, page, n) ==> s.view(s.d, w) == s0.view(s.d, w)
    requires Charged(s.counts, s0.counts, s0.view, s.d, page, n)
    ensures HeapInv(list, live, transit, lo, hi, others, s) && Kept(live, s0, s)
  {
    KeptByUnmap(list, live, transit, lo, hi, s0, s, page, n);
    HeapStep(list, list, live, transit, transit, lo, hi, s0, s);
    assert InRun(page, page, n) && InRun(page + n - 1, page, n);
    PoolByMap(s, s0, lo, hi, page, n);
  }

  /** Bytes have been written to pages in transit. */
  lemma RunWritten(list: List, live: map<int, Block>, transit: set<int>, lo: int, hi: int, others: seq<RefCount>,
                   s0: Snapshot, s: Snapshot, page: int, n: nat)
    requires HeapInv(list, live, transit, lo, hi, others, s0) && s == Snapshot(s0.view, s0.d, s0.counts, s.pages)
    requires s0.SoleFrames() && |s.pages| == |s0.pages|
    requires forall w :: InRun(w, page, n) ==> w in transit && s0.On(w)
    requires forall f :: 0 <= f < |s.pages| && !Carries(s0.view, s0.d, page, n, f) ==> s.pages[f] == s0.pages[f]
    ensures HeapInv(list, live, transit, lo, hi, others, s) && Kept(live, s0, s)
  {
    forall w | InLive(live, w) && s0.On(w) ensures s.pages[s0.Frame(w)] == s0.pages[s0.Frame(w)] {
      LiveSole(list, live, transit, lo, hi, s0, w);
      assert !InRun(w, page, n);
      OffCarried(s0, page, n, w);
    }
    HeapStep(list, list, live, transit, transit, lo, hi, s0, s);
    forall f | 0 <= f < |s.counts| ensures InArena(s, lo, hi, f) <==> InArena(s0, lo, hi, f) { }
  }

  /** The heap page w is mapped exactly if it is in a live block or the first page of a hole. */
  lemma MappedIff(list: List, live: map<int, Block>, transit: set<int>, lo: int, hi: int, others: seq<RefCount>,
                  s: Snapshot, w: int)
    requires HeapInv(list, live, transit, lo, hi, others, s) && lo <= w < hi && w !in transit
    requires BodyUnmapped(list, s.view, s.d) && forall x :: x in list.heads ==> IsHead(list.holes, x)
    requires forall k :: 0 <= k < |list.holes| ==> list.holes[k].page in list.heads
    ensures s.view(s.d, w).Mapped? <==> InLive(live, w) || IsHead(list.holes, w)
  {
    if InLive(live, w) { LiveSole(list, live, transit, lo, hi, s, w); }
    assert IsHead(list.holes, w) ==> w in list.heads;
  }

  /** With nothing live and nothing in transit the heap is one hole again. */
  lemma AllFreed(list: List, lo: int, hi: int, others: seq<RefCount>, s: Snapshot)
    requires HeapInv(list, map[], {}, lo, hi, others, s) && Canonical(list.holes, lo, hi) && lo < hi
    ensures list.holes == [Hole(lo, hi - lo)]
  {
    forall w | lo <= w < hi ensures IsFree(list.holes, w) { assert !InLive(map[], w); }
    AllFree(list.holes, lo, hi);
  }

  /** The frames of the headers are not behind a run of other pages. */
  lemma HeadsElsewhere(list: List, s: Snapshot, page: int, n: nat, w: int)
    requires SoleHeads(list.heads, s.view, s.d, s.counts) && s.SoleFrames() && w in list.heads && s.On(w)
    requires forall x :: InRun(x, page, n) ==> x !in list.heads && s.On(x)
    ensures !Carries(s.view, s.d, page, n, s.Frame(w))
  {
    assert !InRun(w, page, n);
    OffCarried(s, page, n, w);
  }

  lemma KeptOn(list: List, live: map<int, Block>, transit: set<int>, lo: int, hi: int, others: seq<RefCount>,
               s0: Snapshot, s1: Snapshot, s: Snapshot)
    requires HeapInv(list, live, transit, lo, hi, others, s0) && Kept(live, s0, s1) && Kept(live, s1, s)
    ensures Kept(live, s0, s)
  {
    forall w | InLive(live, w) ensures s0.On(w) && s0.counts[s0.Frame(w)] == 1 {
      LiveSole(list, live, transit, lo, hi, s0, w);
    }
    KeptThen(live, s0, s1, s);
  }

  /** Adopt, with the new map of blocks spelled out as a caller sees it. */
  lemma Adopted(list: List, live: map<int, Block>, live': map<int, Block>, transit: set<int>, transit': set<int>,
                lo: int, hi: int, others: seq<RefCount>, s: Snapshot, ptr: int, b: Block)
    requires transit' == transit + Run(b.page, b.pages) && transit !! Run(b.page, b.pages) && live' == live[ptr := b]
    requires HeapInv(list, live, transit', lo, hi, others, s)
    requires BlockShape(ptr, b, lo, hi) && BlockMapped(b, s) && BlockHeader(b, s)
    ensures ptr !in live && ptr in live' && live'[ptr] == b && live' == live[ptr := live'[ptr]]
    ensures HeapInv(list, live', transit, lo, hi, others, s)
  {
    Adopt(list, live, transit, Run(b.page, b.pages), lo, hi, s, ptr, b);
  }

  lemma Disowned(list: List, live: map<int, Block>, transit: set<int>, lo: int, hi: int, others: seq<RefCount>,
                 s: Snapshot, ptr: int, b: Block)
    requires HeapInv(list, live, transit, lo, hi, others, s) && s.SoleFrames() && ptr in live && live[ptr] == b
    ensures HeapInv(list, live - {ptr}, transit + Run(b.page, b.pages), lo, hi, others, s)
    ensures transit !! Run(b.page, b.pages) && BlockShape(ptr, b, lo, hi) && BlockHeader(b, s)
    ensures SoleRange(s.counts, s.view, s.d, b.page, b.pages)
    ensures forall w :: InRun(w, b.page, b.pages) ==>
              w in transit + Run(b.page, b.pages) && s.On(w) && !IsFree(list.holes, w)
  {
    assert BlockOk(ptr, b, lo, hi, s);
    forall w | InRun(w, b.page, b.pages)
      ensures InBlock(b, w) && s.On(w) && s.counts[s.Frame(w)] == 1 && InLive(live, w)
    {
    }
    Disown(list, live, transit, Run(b.page, b.pages), lo, hi, s, ptr);
    forall w | b.page <= w < b.page + b.pages
      ensures s.view(s.d, w).Mapped? && s.view(s.d, w).entry.frame < |s.counts|
              && s.counts[s.view(s.d, w).entry.frame] == 1
    {
      assert InRun(w, b.page, b.pages);
    }
    forall w, x | b.page <= w < x < b.page + b.pages ensures s.view(s.d, w).entry.frame != s.view(s.d, x).entry.frame {
      assert InRun(w, b.page, b.pages) && InRun(x, b.page, b.pages);
      assert s.On(w) && s.On(x);
    }
  }

  lemma NullNotLive(list: List, live: map<int, Block>, transit: set<int>, lo: int, hi: int, others: seq<RefCount>,
                    s: Snapshot)
    requires HeapInv(list, live, transit, lo, hi, others, s) && lo > 0
    ensures 0 !in live
  {
    forall p | p in live ensures p != 0 { assert BlockOk(p, live[p], lo, hi, s); }
  }

  // ----- what the heap leaves alone -----

  /** Every page that was not free, but for pages [page, page+n), is still not free and mapped as
      before, in every directory. */
  ghost predicate PagesKept(holes0: seq<Hole>, holes: seq<Hole>, view0: (int, int) -> Mapping,
                            view: (int, int) -> Mapping, dirs: set<int>, page: int, n: nat)
  {
    forall c, w :: c in dirs && !IsFree(holes0, w) && !InRun(w, page, n) ==>
             !IsFree(holes, w) && view(c, w) == view0(c, w)
  }

  /** ... from page lo on. */
  ghost predicate ArenaKept(lo: int, holes0: seq<Hole>, holes: seq<Hole>, view0: (int, int) -> Mapping,
                            view: (int, int) -> Mapping, dirs: set<int>, page: int, n: nat)
  {
    forall c, w :: c in dirs && lo <= w && !IsFree(holes0, w) && !InRun(w, page, n) ==>
             !IsFree(holes, w) && view(c, w) == view0(c, w)
  }

  lemma ArenaByPages(lo: int, holes0: seq<Hole>, holes: seq<Hole>, view0: (int, int) -> Mapping,
                     view: (int, int) -> Mapping, dirs: set<int>, page: int, n: nat)
    requires PagesKept(holes0, holes, view0, view, dirs, page, n)
    ensures ArenaKept(lo, holes0, holes, view0, view, dirs, page, n)
  {
  }

  lemma ArenaThen(lo: int, holes0: seq<Hole>, holes1: seq<Hole>, holes: seq<Hole>, view0: (int, int) -> Mapping,
                  view1: (int, int) -> Mapping, view: (int, int) -> Mapping, dirs: set<int>, page: int, n: nat)
    requires ArenaKept(lo, holes0, holes1, view0, view1, dirs, page, n)
    requires PagesKept(holes1, holes, view1, view, dirs, page, n)
    ensures ArenaKept(lo, holes0, holes, view0, view, dirs, page, n)
  {
  }

  /** After that, pages that were free at first are mapped. */
  lemma ArenaOfRun(lo: int, holes0: seq<Hole>, holes: seq<Hole>, view0: (int, int) -> Mapping,
                   view1: (int, int) -> Mapping, view: (int, int) -> Mapping, dirs: set<int>, page: int, n: nat,
                   p: int, m: nat)
    requires ArenaKept(lo, holes0, holes, view0, view1, dirs, p, m) && RunOnly(view1, view, dirs, page, n)
    requires RunFree(holes0, page, n)
    ensures ArenaKept(lo, holes0, holes, view0, view, dirs, p, m)
  {
  }

  lemma PagesThen(holes0: seq<Hole>, holes1: seq<Hole>, holes: seq<Hole>, view0: (int, int) -> Mapping,
                  view1: (int, int) -> Mapping, view: (int, int) -> Mapping, dirs: set<int>, p: int, m: nat, page: int,
                  n: nat)
    requires PagesKept(holes0, holes1, view0, view1, dirs, p, m) && PagesKept(holes1, holes, view1, view, dirs, page, n)
    requires forall w :: InRun(w, p, m) ==> IsFree(holes0, w) || InRun(w, page, n)
    ensures PagesKept(holes0, holes, view0, view, dirs, page, n)
  {
  }

  ghost predicate RunOnly(view0: (int, int) -> Mapping, view: (int, int) -> Mapping, dirs: set<int>, page: int,
                          n: nat)
  {
    forall c, w :: c in dirs && !InRun(w, page, n) ==> view(c, w) == view0(c, w)
  }

  /** Every frame in use, but for those of headers and those behind pages [page, page+n), has
      as many references as before, holds what it held, and has no header now. */
  ghost predicate FramesKept(list0: List, list: List, s0: Snapshot, s: Snapshot, page: int, n: nat) {
    && |s.counts| == |s0.counts| && |s.pages| == |s0.pages|
    && forall f :: 0 <= f < |s0.counts| && s0.counts[f] > 0 && !HeadFrame(list0.heads, s0.view, s0.d, f)
                   && !Carries(s0.view, s0.d, page, n, f) ==>
         FrameSame(list, s0, s, f)
  }

  ghost predicate FrameSame(list: List, s0: Snapshot, s: Snapshot, f: int)
    requires 0 <= f < |s0.counts| == |s.counts| && |s.pages| == |s0.pages|
  {
    s.counts[f] == s0.counts[f] && (f < |s.pages| ==> s.pages[f] == s0.pages[f])
    && !HeadFrame(list.heads, s.view, s.d, f)
  }

  lemma FramesThen(list0: List, list1: List, list: List, s0: Snapshot, s1: Snapshot, s: Snapshot, page: int, n: nat)
    requires FramesKept(list0, list1, s0, s1, page, n) && FramesKept(list1, list, s1, s, 0, 0)
    ensures FramesKept(list0, list, s0, s, page, n)
  {
    forall f | 0 <= f < |s0.counts| && s0.counts[f] > 0 && !HeadFrame(list0.heads, s0.view, s0.d, f)
               && !Carries(s0.view, s0.d, page, n, f)
      ensures FrameSame(list, s0, s, f)
    {
      assert FrameSame(list1, s0, s1, f) && !Carries(s1.view, s1.d, 0, 0, f);
    }
  }

  lemma FramesByRange(list0: List, list: List, lo: int, hi: int, s0: Snapshot, s: Snapshot)
    requires RangeStep(list0, list, lo, hi, s0, s) && SoleHeads(list0.heads, s0.view, s0.d, s0.counts)
    ensures FramesKept(list0, list, s0, s, 0, 0) && SoleHeads(list.heads, s.view, s.d, s.counts)
  {
    forall f | 0 <= f < |s0.counts| && s0.counts[f] > 0 && !HeadFrame(list0.heads, s0.view, s0.d, f)
      ensures FrameSame(list, s0, s, f)
    {
      assert !InPool(list0.heads, s0.view, s0.d, s0.counts, f);
      assert !InPool(list.heads, s.view, s.d, s.counts, f);
    }
  }

  /** A run of pages is mapped to free frames, and bytes are written there. */
  lemma FramesByMap(list: List, s0: Snapshot, s1: Snapshot, s: Snapshot, page: int, n: nat, k: nat)
    requires s1.d == s0.d && s == Snapshot(s1.view, s1.d, s1.counts, s.pages) && |s1.pages| == |s0.pages| == |s.pages|
    requires Charged(s0.counts, s1.counts, s1.view, s1.d, page, k) && s1.pages == s0.pages && k <= n
    requires forall w :: w in list.heads ==> s1.view(s1.d, w) == s0.view(s0.d, w)
    requires forall f :: 0 <= f < |s.pages| && !Carries(s1.view, s1.d, page, k, f) ==> s.pages[f] == s1.pages[f]
    ensures FramesKept(list, list, s0, s, 0, 0)
  {
    forall f | 0 <= f < |s0.counts| && s0.counts[f] > 0 && !HeadFrame(list.heads, s0.view, s0.d, f)
      ensures FrameSame(list, s0, s, f)
    {
      SameHeadFrame(list, s0, s, f);
    }
  }

  lemma SameHeadFrame(list: List, s0: Snapshot, s: Snapshot, f: int)
    requires s.d == s0.d && forall w :: w in list.heads ==> s.view(s.d, w) == s0.view(s0.d, w)
    ensures HeadFrame(list.heads, s.view, s.d, f) <==> HeadFrame(list.heads, s0.view, s0.d, f)
  {
    if HeadFrame(list.heads, s.view, s.d, f) {
      var w :| w in list.heads && s.view(s.d, w).Mapped? && s.view(s.d, w).entry.frame == f;
      assert s0.view(s0.d, w) == s.view(s.d, w);
    }
    if HeadFrame(list.heads, s0.view, s0.d, f) {
      var w :| w in list.heads && s0.view(s0.d, w).Mapped? && s0.view(s0.d, w).entry.frame == f;
      assert s0.view(s0.d, w) == s.view(s.d, w);
    }
  }

  lemma FramesByUnmap(list: List, s0: Snapshot, s: Snapshot, page: int, n: nat)
    requires s == Snapshot(s.view, s0.d, s.counts, s0.pages) && Charged(s.counts, s0.counts, s0.view, s.d, page, n)
    requires forall w :: w in list.heads ==> s.view(s.d, w) == s0.view(s0.d, w)
    ensures FramesKept(list, list, s0, s, page, n)
  {
    forall f | 0 <= f < |s0.counts| && s0.counts[f] > 0 && !HeadFrame(list.heads, s0.view, s0.d, f)
               && !Carries(s0.view, s0.d, page, n, f)
      ensures FrameSame(list, s0, s, f)
    {
      SameHeadFrame(list, s0, s, f);
    }
  }

  /** Only frames behind pages [page, page+n) are referred to more or less often. */
  lemma FramesByCarried(list: List, s0: Snapshot, s: Snapshot, page: int, n: nat)
    requires s == Snapshot(s.view, s0.d, s.counts, s0.pages) && OnlyCarried(s0.view, s0.d, page, n, s0.counts, s.counts)
    requires forall w :: w in list.heads ==> s.view(s.d, w) == s0.view(s0.d, w)
    ensures FramesKept(list, list, s0, s, page, n)
  {
    forall f | 0 <= f < |s0.counts| && s0.counts[f] > 0 && !HeadFrame(list.heads, s0.view, s0.d, f)
               && !Carries(s0.view, s0.d, page, n, f)
      ensures FrameSame(list, s0, s, f)
    {
      SameHeadFrame(list, s0, s, f);
    }
  }

  /** Two steps that both spare all but the frames behind pages [page, page+n). */
  lemma FramesBoth(list0: List, list1: List, list: List, s0: Snapshot, s1: Snapshot, s: Snapshot, page: int, m: nat,
                   n: nat)
    requires FramesKept(list0, list1, s0, s1, page, m) && FramesKept(list1, list, s1, s, page, n) && m <= n
    requires s1.d == s0.d && forall w :: InRun(w, page, n) ==> s1.view(s1.d, w) == s0.view(s0.d, w)
    ensures FramesKept(list0, list, s0, s, page, n)
  {
    forall f | 0 <= f < |s0.counts| && s0.counts[f] > 0 && !HeadFrame(list0.heads, s0.view, s0.d, f)
               && !Carries(s0.view, s0.d, page, n, f)
      ensures FrameSame(list, s0, s, f)
    {
      forall w | page <= w < page + n && s1.view(s1.d, w).Mapped? ensures s1.view(s1.d, w).entry.frame != f {
        assert InRun(w, page, n);
      }
      assert FrameSame(list1, s0, s1, f) && !Carries(s1.view, s1.d, page, n, f);
    }
  }

  lemma FramesWider(list0: List, list: List, s0: Snapshot, s: Snapshot, page: int, n: nat)
    requires FramesKept(list0, list, s0, s, 0, 0)
    ensures FramesKept(list0, list, s0, s, page, n)
  {
    assert forall f :: !Carries(s0.view, s0.d, 0, 0, f);
  }

  lemma PagesWider(holes0: seq<Hole>, holes: seq<Hole>, view0: (int, int) -> Mapping, view: (int, int) -> Mapping,
                   dirs: set<int>, page: int, n: nat)
    requires PagesKept(holes0, holes, view0, view, dirs, 0, 0)
    ensures PagesKept(holes0, holes, view0, view, dirs, page, n)
  {
    assert forall w :: !InRun(w, 0, 0);
  }

  /** A run that was free is taken, and then its pages are mapped. */
  lemma PagesOfRun(holes0: seq<Hole>, holes: seq<Hole>, view0: (int, int) -> Mapping, view1: (int, int) -> Mapping,
                   view: (int, int) -> Mapping, dirs: set<int>, page: int, n: nat, p: int, m: nat)
    requires PagesKept(holes0, holes, view0, view1, dirs, p, m) && PagesKept(holes, holes, view1, view, dirs, page, n)
    requires RunFree(holes0, page, n)
    ensures PagesKept(holes0, holes, view0, view, dirs, p, m)
  {
  }

  lemma PagesSame(holes: seq<Hole>, view: (int, int) -> Mapping, dirs: set<int>, page: int, n: nat)
    ensures PagesKept(holes, holes, view, view, dirs, page, n)
  {
  }

  /** Pages of a run are mapped or unmapped. */
  lemma PagesByRun(holes: seq<Hole>, view0: (int, int) -> Mapping, view: (int, int) -> Mapping, dirs: set<int>,
                   page: int, n: nat)
    requires RunOnly(view0, view, dirs, page, n)
    ensures PagesKept(holes, holes, view0, view, dirs, page, n)
  {
  }

  /** A run is taken from hole k. */
  lemma PagesByTake(holes0: seq<Hole>, holes: seq<Hole>, lo: int, hi: int, k: nat, n: nat, view0: (int, int) -> Mapping,
                    view: (int, int) -> Mapping, dirs: set<int>, d: int)
    requires Canonical(holes0, lo, hi) && k < |holes0| && 0 < n <= holes0[k].size && holes == Take(holes0, k, n)
    requires OnlyFreePages(holes0, view0, view, dirs, d)
    ensures PagesKept(holes0, holes, view0, view, dirs, 0, 0)
    ensures forall w :: InRun(w, holes0[k].page, n) ==> lo <= w < hi && IsFree(holes0, w) && !IsFree(holes, w)
  {
    TakeFree(holes0, lo, hi, k, n);
    forall w | InRun(w, holes0[k].page, n) ensures lo <= w < hi && IsFree(holes0, w) { assert InHole(holes0[k], w); }
  }

  /** A run is given back. */
  lemma PagesByGive(holes0: seq<Hole>, holes: seq<Hole>, lo: int, hi: int, view0: (int, int) -> Mapping,
                    view: (int, int) -> Mapping, dirs: set<int>, d: int, page: int, n: nat)
    requires Canonical(holes0, lo, hi) && n > 0 && lo <= page && page + n <= hi && NoneFree(holes0, page, n)
    requires holes == Give(holes0, Position(holes0, page), page, n) && OnlyFreePages(holes, view0, view, dirs, d)
    ensures PagesKept(holes0, holes, view0, view, dirs, page, n)
  {
    GiveFree(holes0, lo, hi, page, n);
  }

  lemma NotHead(list: List, s: Snapshot, w: int)
    requires SoleHeads(list.heads, s.view, s.d, s.counts) && s.SoleFrames() && s.On(w) && w !in list.heads
    requires forall x :: x in list.heads ==> s.On(x)
    ensures !HeadFrame(list.heads, s.view, s.d, s.Frame(w))
  {
    forall x | x in list.heads ensures s.view(s.d, x).entry.frame != s.Frame(w) { assert s.On(x); }
  }

  lemma SparedFrame(list0: List, list: List, s0: Snapshot, s: Snapshot, page: int, n: nat, f: int)
    requires FramesKept(list0, list, s0, s, page, n) && InUse(s0.counts, f)
    requires !HeadFrame(list0.heads, s0.view, s0.d, f) && !Carries(s0.view, s0.d, page, n, f)
    ensures |s.counts| == |s0.counts| && |s.pages| == |s0.pages| && FrameSame(list, s0, s, f)
  {
  }

  lemma SparedPage(lo: int, holes0: seq<Hole>, holes: seq<Hole>, view0: (int, int) -> Mapping,
                   view: (int, int) -> Mapping, dirs: set<int>, page: int, n: nat, d: int, w: int)
    requires ArenaKept(lo, holes0, holes, view0, view, dirs, page, n) && d in dirs && !IsFree(holes0, w)
             && !InRun(w, page, n) && lo <= w
    ensures !IsFree(holes, w) && view(d, w) == view0(d, w)
  {
  }

  /** The pages that are neither free nor of a live block. */
  ghost function Rest(holes: seq<Hole>, live: map<int, Block>, lo: int, hi: int): set<int> {
    set w | lo <= w < hi && !IsFree(holes, w) && !InLive(live, w)
  }

  lemma OtherFrame(s: Snapshot, w: int, x: int)
    requires s.SoleFrames() && s.On(w) && s.counts[s.Frame(w)] == 1 && x != w && s.view(s.d, x).Mapped?
    ensures s.view(s.d, x).entry.frame != s.Frame(w)
  {
    assert s.On(x) <==> s.view(s.d, x).entry.frame < |s.counts| && s.view(s.d, x).entry.frame < |s.pages|;
  }

  /** A live page has a frame that is nobody else's. */
  lemma LiveSpared(list0: List, list: List, live: map<int, Block>, transit0: set<int>, lo: int, hi: int, s0: Snapshot,
                   s: Snapshot, dirs: set<int>, page: int, n: nat, w: int)
    requires HeapOk(list0, live, transit0, lo, hi, s0) && s0.SoleFrames() && Run(page, n) <= transit0
    requires forall x :: x in list0.heads ==> IsFree(list0.holes, x) && s0.On(x)
    requires FramesKept(list0, list, s0, s, page, n) && s.d == s0.d && s.d in dirs
    requires ArenaKept(lo, list0.holes, list.holes, s0.view, s.view, dirs, page, n) && InLive(live, w)
    ensures s0.On(w) && s.view(s.d, w) == s0.view(s0.d, w) && !IsFree(list.holes, w)
    ensures |s.counts| == |s0.counts| && |s.pages| == |s0.pages| && FrameSame(list, s0, s, s0.Frame(w))
  {
    hide FramesKept, ArenaKept, HeadFrame;
    LiveSole(list0, live, transit0, lo, hi, s0, w);
    assert !InRun(w, page, n) by { assert InRun(w, page, n) ==> w in Run(page, n); }
    NotHead(list0, s0, w);
    forall x | page <= x < page + n && s0.view(s0.d, x).Mapped? ensures s0.view(s0.d, x).entry.frame != s0.Frame(w) {
      assert InRun(x, page, n) && x in Run(page, n) && x != w;
      OtherFrame(s0, w, x);
    }
    SparedFrame(list0, list, s0, s, page, n, s0.Frame(w));
    SparedPage(lo, list0.holes, list.holes, s0.view, s.view, dirs, page, n, s.d, w);
  }

  /** A step that spares all pages and frames but those of pages [page, page+n), which the heap
      does not know, spares the heap. */
  lemma HeapSpared(list0: List, list: List, live: map<int, Block>, transit0: set<int>, lo: int, hi: int, s0: Snapshot,
                   s: Snapshot, dirs: set<int>, page: int, n: nat)
    requires HeapOk(list0, live, transit0, lo, hi, s0) && s0.SoleFrames() && Run(page, n) <= transit0
    requires forall x :: x in list0.heads ==> IsFree(list0.holes, x) && s0.On(x)
    requires FramesKept(list0, list, s0, s, page, n) && s.d == s0.d && s.d in dirs
    requires ArenaKept(lo, list0.holes, list.holes, s0.view, s.view, dirs, page, n)
    requires SoleHeads(list.heads, s.view, s.d, s.counts)
    ensures HeapOk(list, live, Rest(list.holes, live, lo, hi), lo, hi, s) && BlocksKept(live, s0, s)
  {
    hide FramesKept, ArenaKept, Snapshot.SoleFrames;
    forall w | InLive(live, w)
      ensures s0.On(w) && s.view(s.d, w) == s0.view(s0.d, w) && !IsFree(list.holes, w)
      ensures |s.counts| == |s0.counts| && |s.pages| == |s0.pages| && FrameSame(list, s0, s, s0.Frame(w))
    {
      LiveSpared(list0, list, live, transit0, lo, hi, s0, s, dirs, page, n, w);
    }
    HeapStep(list0, list, live, transit0, Rest(list.holes, live, lo, hi), lo, hi, s0, s);
  }

  /** A step that keeps the kernel half keeps the heap. */
  lemma KernelKeptHeap(list: List, live: map<int, Block>, transit: set<int>, lo: int, hi: int, others: seq<RefCount>,
                       s0: Snapshot, s: Snapshot)
    requires HeapInv(list, live, transit, lo, hi, others, s0) && lo >= KERNEL_VPAGE
    requires forall w :: w in list.heads ==> lo <= w < hi && s0.On(w)
    requires KernelKept(s0.view, s0.d, s0.counts, s0.pages, s.view, s.d, s.counts, s.pages)
    ensures HeapOk(list, live, transit, lo, hi, s)
    ensures BlocksKept(live, s0, s)
  {
    forall w | w in list.heads || InLive(live, w)
      ensures s.On(w) && s0.On(w) && s.view(s.d, w) == s0.view(s0.d, w) && s.counts[s.Frame(w)] == 1
      ensures s.pages[s.Frame(w)] == s0.pages[s.Frame(w)]
    {
      if InLive(live, w) { LiveSole(list, live, transit, lo, hi, s0, w); }
      assert FrameKept(s0.counts, s0.pages, s.counts, s.pages, s0.Frame(w));
    }
    forall p | p in live ensures BlockOk(p, live[p], lo, hi, s) {
      assert BlockOk(p, live[p], lo, hi, s0);
      forall w | InBlock(live[p], w) ensures s.On(w) && s.counts[s.Frame(w)] == 1 { assert InLive(live, w); }
      assert InBlock(live[p], live[p].page) && InLive(live, live[p].page);
    }
  }

  // ----- two moments with the same live blocks -----

  /** The hole list is in order: canonical, with headers exactly where holes start, on frames
      of their own. */
  ghost predicate InOrder(list: List, lo: int, hi: int, s: Snapshot) {
    && lo < hi && Canonical(list.holes, lo, hi) && BodyUnmapped(list, s.view, s.d) && s.SoleFrames()
    && |s.pages| == |s.counts| && Apart(list.heads, s.view, s.d)
    && (forall x :: x in list.heads <==> IsHead(list.holes, x))
    && (forall x :: x in list.heads ==> IsFree(list.holes, x))
  }

  /** The holes are what the blocks leave. */
  lemma SameHoles(list0: List, list: List, live: map<int, Block>, lo: int, hi: int, others: seq<RefCount>, s0: Snapshot,
                  s: Snapshot)
    requires HeapInv(list0, live, {}, lo, hi, others, s0) && HeapInv(list, live, {}, lo, hi, others, s)
    requires InOrder(list0, lo, hi, s0) && InOrder(list, lo, hi, s)
    ensures list.holes == list0.holes && list.heads.Keys == list0.heads.Keys
  {
    FreeBoth(list0, list, lo, hi);
    forall w ensures IsFree(list.holes, w) <==> IsFree(list0.holes, w) { }
    CanonicalUnique(list.holes, list0.holes, lo, hi);
    assert forall w :: w in list.heads.Keys <==> w in list0.heads.Keys;
  }

  ghost predicate LiveFrame(live: map<int, Block>, s: Snapshot, f: int) {
    exists w :: InLive(live, w) && s.On(w) && s.Frame(w) == f
  }

  ghost function LiveFrames(live: map<int, Block>, s: Snapshot): set<int> {
    set f | 0 <= f < |s.counts| && LiveFrame(live, s, f)
  }

  ghost function FreeFrames(counts: seq<RefCount>): set<int> {
    set f | 0 <= f < |counts| && counts[f] == 0
  }

  ghost function Unclaimed(others: seq<RefCount>): set<int> {
    set f | 0 <= f < |others| && others[f] == 0
  }

  lemma OutsideArena(lo: int, hi: int, others: seq<RefCount>, s: Snapshot, f: int)
    requires lo <= hi && Pooled(s, lo, hi, others) && 0 <= f < |s.counts|
    ensures others[f] == 0 <==> InArena(s, lo, hi, f)
  {
    assert InArena(s, lo, hi, f) || !InArena(s, lo, hi, f);
  }

  lemma LiveFrameSole(list: List, live: map<int, Block>, lo: int, hi: int, others: seq<RefCount>, s: Snapshot, f: int)
    requires HeapInv(list, live, {}, lo, hi, others, s) && LiveFrame(live, s, f)
    ensures 0 <= f < |s.counts| && s.counts[f] == 1 && InArena(s, lo, hi, f)
  {
    var w :| InLive(live, w) && s.On(w) && s.Frame(w) == f;
    LiveSole(list, live, {}, lo, hi, s, w);
    assert lo <= w < lo + (hi - lo);
  }

  lemma HeadFrameSole(list: List, live: map<int, Block>, lo: int, hi: int, others: seq<RefCount>, s: Snapshot, f: int)
    requires HeapInv(list, live, {}, lo, hi, others, s) && InOrder(list, lo, hi, s)
             && HeadFrame(list.heads, s.view, s.d, f)
    ensures 0 <= f < |s.counts| && s.counts[f] == 1 && InArena(s, lo, hi, f) && !LiveFrame(live, s, f)
  {
    hide Canonical, Disjoint, BodyUnmapped;
    var w :| w in list.heads && s.view(s.d, w).Mapped? && s.view(s.d, w).entry.frame == f;
    InsideArena(list.holes, lo, hi, w);
    assert lo <= w < lo + (hi - lo) && s.On(w);
    forall x | InLive(live, x) && s.On(x) ensures s.Frame(x) != f { OtherFrame(s, w, x); }
  }

  lemma InsideArena(holes: seq<Hole>, lo: int, hi: int, w: int)
    requires Canonical(holes, lo, hi) && IsFree(holes, w)
    ensures lo <= w < hi
  {
  }

  lemma ArenaCarrier(list: List, live: map<int, Block>, lo: int, hi: int, others: seq<RefCount>, s: Snapshot, f: int)
    requires HeapInv(list, live, {}, lo, hi, others, s) && InOrder(list, lo, hi, s) && 0 <= f < |s.counts|
    requires InArena(s, lo, hi, f)
    ensures s.counts[f] == 0 || HeadFrame(list.heads, s.view, s.d, f) || LiveFrame(live, s, f)
  {
    hide Canonical, Disjoint, BlockOk, Snapshot.SoleFrames, HeadFrame, LiveFrame, InLive, IsFree;
    if s.counts[f] != 0 {
      var w :| lo <= w < lo + (hi - lo) && s.view(s.d, w).Mapped? && s.view(s.d, w).entry.frame == f;
      if w in list.heads { HeadFrameAt(list, s, w); } else { assert s.On(w); LiveFrameAt(live, s, w); }
    }
  }

  lemma HeadFrameAt(list: List, s: Snapshot, w: int)
    requires w in list.heads && s.view(s.d, w).Mapped?
    ensures HeadFrame(list.heads, s.view, s.d, s.view(s.d, w).entry.frame)
  {
  }

  lemma LiveFrameAt(live: map<int, Block>, s: Snapshot, w: int)
    requires InLive(live, w) && s.On(w)
    ensures LiveFrame(live, s, s.Frame(w))
  {
  }

  /** A frame of the heap is free, or carries a header, or is behind a live block. */
  lemma ArenaFrame(list: List, live: map<int, Block>, lo: int, hi: int, others: seq<RefCount>, s: Snapshot, f: int)
    requires HeapInv(list, live, {}, lo, hi, others, s) && InOrder(list, lo, hi, s) && 0 <= f < |s.counts|
    ensures |others| == |s.counts|
    ensures others[f] == 0 <==> s.counts[f] == 0 || HeadFrame(list.heads, s.view, s.d, f) || LiveFrame(live, s, f)
    ensures HeadFrame(list.heads, s.view, s.d, f) ==> s.counts[f] == 1 && !LiveFrame(live, s, f)
    ensures LiveFrame(live, s, f) ==> s.counts[f] == 1
  {
    hide HeapOk, InOrder, HeadFrame, LiveFrame;
    OutsideArena(lo, hi, others, s, f);
    if InArena(s, lo, hi, f) { ArenaCarrier(list, live, lo, hi, others, s, f); }
    if HeadFrame(list.heads, s.view, s.d, f) { HeadFrameSole(list, live, lo, hi, others, s, f); }
    if LiveFrame(live, s, f) { LiveFrameSole(list, live, lo, hi, others, s, f); }
  }

  lemma ThreeParts(list: List, live: map<int, Block>, lo: int, hi: int, others: seq<RefCount>, s: Snapshot)
    requires HeapInv(list, live, {}, lo, hi, others, s) && InOrder(list, lo, hi, s)
    ensures var free, heads, rest := FreeFrames(s.counts), HeadFrames(list.heads, s.view, s.d, |s.counts|),
            LiveFrames(live, s);
            && Unclaimed(others) == free + heads + rest && free !! heads && (free + heads) !! rest
            && |Unclaimed(others)| == |free| + |list.heads| + |rest|
  {
    hide HeapInv, InOrder, HeadFrames, LiveFrames, FreeFrames, Unclaimed;
    var free, heads, rest := FreeFrames(s.counts), HeadFrames(list.heads, s.view, s.d, |s.counts|), LiveFrames(live, s);
    forall f: int
      ensures f in Unclaimed(others) <==> f in free || f in heads || f in rest
      ensures !(f in free && f in heads) && !(f in rest && (f in free || f in heads))
    {
      ArenaMember(list, live, lo, hi, others, s, f);
    }
    Parts(Unclaimed(others), free, heads, rest);
    OrderedHeads(list, live, lo, hi, others, s);
  }

  lemma ArenaMember(list: List, live: map<int, Block>, lo: int, hi: int, others: seq<RefCount>, s: Snapshot, f: int)
    requires HeapInv(list, live, {}, lo, hi, others, s) && InOrder(list, lo, hi, s)
    ensures var free, heads, rest := FreeFrames(s.counts), HeadFrames(list.heads, s.view, s.d, |s.counts|),
            LiveFrames(live, s);
            && (f in Unclaimed(others) <==> f in free || f in heads || f in rest)
            && !(f in free && f in heads) && !(f in rest && (f in free || f in heads))
  {
    hide HeadFrame, LiveFrame, InOrder;
    if 0 <= f < |s.counts| { ArenaFrame(list, live, lo, hi, others, s, f); }
  }

  lemma Parts(all: set<int>, a: set<int>, b: set<int>, c: set<int>)
    requires forall f: int :: f in all <==> f in a || f in b || f in c
    requires forall f: int :: !(f in a && f in b) && !(f in c && (f in a || f in b))
    ensures all == a + b + c && a !! b && (a + b) !! c && |all| == |a| + |b| + |c|
  {
    forall f ensures f in all <==> f in a + b + c { }
    assert all == a + b + c;
    forall f | f in a ensures f !in b && f !in c { }
    forall f | f in b ensures f !in c { }
    assert |a + b| == |a| + |b|;
  }

  lemma OrderedHeads(list: List, live: map<int, Block>, lo: int, hi: int, others: seq<RefCount>, s: Snapshot)
    requires HeapInv(list, live, {}, lo, hi, others, s) && InOrder(list, lo, hi, s)
    ensures |HeadFrames(list.heads, s.view, s.d, |s.counts|)| == |list.heads|
  {
    HeadFramesSize(list.heads, s.view, s.d, s.counts);
  }

  lemma SameLiveFrames(list0: List, live: map<int, Block>, lo: int, hi: int, others: seq<RefCount>, s0: Snapshot,
                       s: Snapshot)
    requires HeapInv(list0, live, {}, lo, hi, others, s0) && BlocksKept(live, s0, s) && |s.counts| == |s0.counts|
    ensures LiveFrames(live, s) == LiveFrames(live, s0)
  {
    forall f | 0 <= f < |s.counts| ensures LiveFrame(live, s, f) <==> LiveFrame(live, s0, f) {
      forall w | InLive(live, w) ensures s0.On(w) && s.On(w) && s.Frame(w) == s0.Frame(w) {
        LiveSole(list0, live, {}, lo, hi, s0, w);
      }
    }
  }

  /** The same hole list, as many free frames, and the very same reference counts exactly if
      the headers are on the same frames. */
  lemma SameBlocksAgain(list0: List, list: List, live: map<int, Block>, lo: int, hi: int, others: seq<RefCount>,
                        s0: Snapshot, s: Snapshot)
    requires HeapInv(list0, live, {}, lo, hi, others, s0) && HeapInv(list, live, {}, lo, hi, others, s)
    requires InOrder(list0, lo, hi, s0) && InOrder(list, lo, hi, s) && BlocksKept(live, s0, s)
    ensures list.holes == list0.holes && |FreeFrames(s.counts)| == |FreeFrames(s0.counts)|
    ensures s.counts == s0.counts
            <==> HeadFrames(list.heads, s.view, s.d, |s.counts|) == HeadFrames(list0.heads, s0.view, s0.d, |s0.counts|)
  {
    SameHoles(list0, list, live, lo, hi, others, s0, s);
    ThreeParts(list0, live, lo, hi, others, s0);
    ThreeParts(list, live, lo, hi, others, s);
    SameCounts(list0, list, live, lo, hi, others, s0, s);
    SameLiveFrames(list0, live, lo, hi, others, s0, s);
    hide HeapInv, InOrder, BlocksKept, HeadFrame, LiveFrame, LiveFrames, HeadFrames;
    assert |list.heads| == |list.heads.Keys| && |list0.heads| == |list0.heads.Keys|;
    var free0, free := FreeFrames(s0.counts), FreeFrames(s.counts);
    var heads0, heads := HeadFrames(list0.heads, s0.view, s0.d, |s0.counts|),
        HeadFrames(list.heads, s.view, s.d, |s.counts|);
    if free == free0 { Cancel(free, heads, heads0, LiveFrames(live, s)); }
    if heads == heads0 { Cancel(heads, free, free0, LiveFrames(live, s)); }
  }

  lemma Cancel(a: set<int>, b: set<int>, c: set<int>, rest: set<int>)
    requires a !! b && a !! c && (a + b) !! rest && (a + c) !! rest && a + b + rest == a + c + rest
    ensures b == c
  {
    forall x ensures x in b <==> x in c { assert x in a + b + rest <==> x in a + c + rest; }
  }

  /** A frame of the heap has one reference or none, and another frame those from outside. */
  lemma SameCounts(list0: List, list: List, live: map<int, Block>, lo: int, hi: int, others: seq<RefCount>,
                   s0: Snapshot, s: Snapshot)
    requires HeapInv(list0, live, {}, lo, hi, others, s0) && HeapInv(list, live, {}, lo, hi, others, s)
    requires InOrder(list0, lo, hi, s0) && InOrder(list, lo, hi, s)
    ensures |s.counts| == |s0.counts| && (s.counts == s0.counts <==> FreeFrames(s.counts) == FreeFrames(s0.counts))
  {
    if FreeFrames(s.counts) == FreeFrames(s0.counts) {
      forall f | 0 <= f < |s.counts| ensures s.counts[f] == s0.counts[f] {
        ArenaFrame(list0, live, lo, hi, others, s0, f);
        ArenaFrame(list, live, lo, hi, others, s, f);
        assert f in FreeFrames(s.counts) <==> f in FreeFrames(s0.counts);
        assert InArena(s, lo, hi, f) <==> others[f] == 0;
        assert InArena(s0, lo, hi, f) <==> others[f] == 0;
      }
    }
  }
}
