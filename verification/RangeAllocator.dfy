/** The first-fit allocator of virtual address ranges (kernel/memory/range_allocator.c),
    with its list headers inside the first page of every hole: a header moves by
    mapping its frame a second time and unmapping it from the old place. */
module RangeAllocator {
  import opened Frames
  import opened Tables
  import opened Words
  import opened Cloning
  import opened Paging
  import opened Holes
  import opened HoleList
  import opened Ledger
  import opened HeaderLedger

  datatype AllocResult = Address(addr: int) | NoSpace | MapFailed

  datatype FreeResult = Freed | Invalid | OutOfMemory

  function RoundUp(x: int): int {
    (x + (PAGE_SIZE - 1)) / PAGE_SIZE * PAGE_SIZE
  }

  lemma RoundUpPages(size: int)
    requires size > 0
    ensures RoundUp(size) / PAGE_SIZE > 0 && RoundUp(size) == RoundUp(size) / PAGE_SIZE * PAGE_SIZE
    ensures size <= RoundUp(size) < size + PAGE_SIZE
  {
  }

  lemma RoundUpIs(size: int, n: nat)
    requires size <= n * PAGE_SIZE < size + PAGE_SIZE
    ensures RoundUp(size) == n * PAGE_SIZE && RoundUp(size) / PAGE_SIZE == n
  {
  }

  lemma NothingDone(heads: map<int, Header>, view: (int, int) -> Mapping, d: int, counts: seq<RefCount>,
                    pages: seq<Page>)
    ensures HeaderBytes(heads, view, d, counts, pages, pages) && Balanced(heads, view, counts, heads, view, counts, d)
  {
  }

  lemma WholePages(addr: int, size: int, page: int, n: nat, lo: int, hi: int)
    requires addr == page * PAGE_SIZE && RoundUp(size) == n * PAGE_SIZE
    ensures addr / PAGE_SIZE == page && RoundUp(size) / PAGE_SIZE == n
    ensures addr < lo * PAGE_SIZE <==> page < lo
    ensures hi * PAGE_SIZE < addr + RoundUp(size) <==> hi < page + n
  {
  }

  /** The address of the hole before index k, or 0. */
  function Before(holes: seq<Hole>, k: nat): int {
    if 0 < k <= |holes| then holes[k - 1].page * PAGE_SIZE else 0
  }

  /** A mapped page is on a frame that is in use. */
  lemma MappedUsed(view: (int, int) -> Mapping, ram: Ram, counts: seq<RefCount>, c: int, w: int)
    requires Accounted(counts, ram.tables, ram.ptes) && Reflects(view, ram) && c in ram.dirs && view(c, w).Mapped?
    ensures InUse(counts, view(c, w).entry.frame)
  {
    assert Translate(c, ram.pdes, ram.ptes, w) == view(c, w);
    HolderCounts(counts, ram.tables, ram.ptes, Pte(ram.pdes, c, w));
  }

  /** A run that was taken lies inside the range, and none of it is free any more. */
  lemma TakenRun(holes: seq<Hole>, lo: int, hi: int, k: nat, n: nat)
    requires Canonical(holes, lo, hi) && k < |holes| && 0 < n <= holes[k].size
    ensures lo <= holes[k].page && holes[k].page + n <= hi && NoneFree(Take(holes, k, n), holes[k].page, n)
  {
    TakeFree(holes, lo, hi, k, n);
  }

  /** After one run is given back, a run apart from it is still not free, and there is a hole. */
  lemma GivenApart(holes: seq<Hole>, lo: int, hi: int, p: int, m: nat, q: int, n: nat)
    requires Canonical(holes, lo, hi) && m > 0 && n > 0 && lo <= p && p + m <= hi
    requires NoneFree(holes, p, m) && NoneFree(holes, q, n) && (p + m <= q || q + n <= p)
    ensures var one := Give(holes, Position(holes, p), p, m); one != [] && NoneFree(one, q, n)
  {
    GiveFree(holes, lo, hi, p, m);
    assert InRun(p, p, m);
  }

  lemma GivenSome(holes: seq<Hole>, page: int, n: nat)
    ensures Give(holes, Position(holes, page), page, n) != []
  {
  }

  lemma KernelKeptHeaders(list: List, lo: int, hi: int,
                          view0: (int, int) -> Mapping, d0: int, counts0: seq<RefCount>, pages0: seq<Page>,
                          view: (int, int) -> Mapping, d: int, counts: seq<RefCount>, pages: seq<Page>)
    requires lo >= KERNEL_VPAGE && Canonical(list.holes, lo, hi) && Held(list.heads, view0, d0, pages0)
    requires BodyUnmapped(list, view0, d0) && (forall w :: w in list.heads ==> IsHead(list.holes, w))
    requires forall w :: w in list.heads ==> InUse(counts0, view0(d0, w).entry.frame)
    requires KernelKept(view0, d0, counts0, pages0, view, d, counts, pages)
    ensures Held(list.heads, view, d, pages) && BodyUnmapped(list, view, d)
  {
    forall w | w in list.heads || IsFree(list.holes, w) ensures view(d, w) == view0(d0, w) && w >= lo {
      if w in list.heads { HeadFree(list.holes, lo, hi, w); }
    }
    forall w | w in list.heads ensures pages[view0(d0, w).entry.frame] == pages0[view0(d0, w).entry.frame] {
      assert FrameKept(counts0, pages0, counts, pages, view0(d0, w).entry.frame);
    }
  }

  /** The n pages from `page` on, which go before index k, touch a hole there. */
  predicate Touches(holes: seq<Hole>, k: nat, page: int, n: int) {
    (0 < k <= |holes| && holes[k - 1].End() == page) || (k < |holes| && holes[k].page == page + n)
  }

  /** The whole pages of so many bytes. */
  function PagesFor(bytes: int): (n: nat)
    ensures (bytes >= 0 ==> n == RoundUp(bytes) / PAGE_SIZE) && (bytes > 0 ==> n > 0)
  {
    if bytes > 0 then RoundUp(bytes) / PAGE_SIZE else 0
  }

  /** Some hole is long enough, but its header cannot move to behind the n pages, for lack of a
      page table. */
  ghost predicate TakeFails(holes: seq<Hole>, n: nat, counts: seq<RefCount>, pdes: Store, d: int) {
    var k := FirstFit(holes, n);
    k < |holes| && holes[k].size != n && !Enough(counts, pdes, Pde(d, holes[k].page + n), 0)
  }

  /** How the reference counts change when n pages are taken: the frame of a header is given
      back, or stays in use at another page. */
  ghost predicate TakeCounted(holes: seq<Hole>, n: nat, was: seq<RefCount>, now: seq<RefCount>,
                              view0: (int, int) -> Mapping, d: int)
  {
    var k := FirstFit(holes, n);
    && k < |holes|
    && if holes[k].size == n then GivenAt(was, now, view0(d, holes[k].page))
       else RecountedAt(was, now, view0(d, holes[k].page))
  }

  /** Is there a place for the header when these pages go before hole k? The hole below needs
      none, the one above has one on a frame of its own, which may lack a page table, and a new
      hole needs a frame as well. */
  ghost predicate Headable(holes: seq<Hole>, k: nat, page: int, n: int, counts: seq<RefCount>, pdes: Store, d: int) {
    || (0 < k <= |holes| && holes[k - 1].End() == page)
    || Enough(counts, pdes, Pde(d, page), if k < |holes| && holes[k].page == page + n then 0 else 1)
  }

  /** How the reference counts change when pages that follow no hole are given back: the header
      of the hole above moves, or a new one goes to the lowest free frame. */
  ghost predicate HeaderCounted(holes: seq<Hole>, k: nat, page: int, n: int, was: seq<RefCount>, now: seq<RefCount>,
                                view0: (int, int) -> Mapping, view: (int, int) -> Mapping, d: int)
  {
    if k < |holes| && holes[k].page == page + n then RecountedAt(was, now, view0(d, page + n))
    else LowestAt(was, now, view(d, page))
  }

  /** What is left of a hole starts where the run that was taken from it ends. */
  lemma TakenRest(holes: seq<Hole>, lo: int, hi: int, k: nat, n: nat)
    requires Canonical(holes, lo, hi) && k < |holes| && 0 < n < holes[k].size
    ensures var taken := Take(holes, k, n); Touches(taken, Position(taken, holes[k].page), holes[k].page, n)
  {
    var taken := Take(holes, k, n);
    var at := Position(taken, holes[k].page);
    assert taken[k] == Hole(holes[k].page + n, holes[k].size - n);
    assert forall j :: 0 <= j < k ==> taken[j] == holes[j];
  }

  /** What is around the pages that were taken from hole k, once they are. */
  lemma TakenAround(holes: seq<Hole>, lo: int, hi: int, k: nat, n: nat)
    requires Canonical(holes, lo, hi) && k < |holes| && 0 < n <= holes[k].size
    ensures var taken := Take(holes, k, n);
            && Position(taken, holes[k].page) == k <= |taken| && (k > 0 ==> taken[k - 1].End() != holes[k].page)
            && (k < |taken| && taken[k].page == holes[k].page + n <==> n < holes[k].size)
            && |taken| == |holes| - (if n < holes[k].size then 0 else 1)
  {
    var taken, page := Take(holes, k, n), holes[k].page;
    assert forall j :: 0 <= j < k ==> taken[j] == holes[j] && holes[j].End() < page;
    if n < holes[k].size {
      assert taken[k] == Hole(page + n, holes[k].size - n);
    } else if k < |taken| {
      assert taken[k] == holes[k + 1] && holes[k].End() < holes[k + 1].page;
    }
  }

  /** Taking n pages and giving them back puts the frame of the header back as well: it stays in
      use if the hole is not taken whole, and otherwise it is taken first if it is the lowest. */
  ghost predicate HeaderReturns(holes: seq<Hole>, n: nat, counts: seq<RefCount>, view: (int, int) -> Mapping, d: int) {
    var k := FirstFit(holes, n);
    && k < |holes|
    && (holes[k].size == n ==> LowestAtAll(counts, view(d, holes[k].page)))
  }

  lemma StillSole(heads0: map<int, Header>, view0: (int, int) -> Mapping, counts0: seq<RefCount>,
                  heads: map<int, Header>, view: (int, int) -> Mapping, counts: seq<RefCount>, d: int)
    requires SoleHeads(heads0, view0, d, counts0)
    requires Balanced(heads0, view0, counts0, heads, view, counts, d)
    ensures SoleHeads(heads, view, d, counts)
  {
  }

  /** The frame of page m is below every free frame. */
  ghost predicate LowestAtAll(counts: seq<RefCount>, m: Mapping) {
    m.Mapped? && forall f :: 0 <= f < |counts| && counts[f] == 0 ==> m.entry.frame < f
  }

  /** A hole of two pages is taken whole; its header was on frame 1, and frame 0 is free. */
  lemma HeaderCanStray(page: int, view: (int, int) -> Mapping, d: int)
    requires view(d, page).Mapped? && view(d, page).entry.frame == 1
    ensures !HeaderReturns([Hole(page, 2)], 2, [0, 1], view, d)
  {
    assert FirstFit([Hole(page, 2)], 2) == 0;
    var counts: seq<RefCount> := [0, 1];
    assert counts[0] == 0;
  }

  lemma RecountedSame(was: seq<RefCount>, now: seq<RefCount>, m: Mapping)
    requires RecountedAt(was, now, m) && was[m.entry.frame] <= 1
    ensures now == was
  {
  }

  /** A frame is given back, and the lowest free frame is taken. */
  lemma LowestReturns(was: seq<RefCount>, mid: seq<RefCount>, now: seq<RefCount>, m: Mapping, m': Mapping)
    requires GivenAt(was, mid, m) && LowestAt(mid, now, m') && was[m.entry.frame] == 1
    ensures now == was <==> LowestAtAll(was, m)
  {
    var h, l := m.entry.frame, m'.entry.frame;
    assert mid[h] == 0 && l <= h;
    assert forall f :: 0 <= f < |was| && f != h ==> mid[f] == was[f];
    if l == h {
      assert now == was;
    } else {
      assert now[h] == 0;
    }
  }

  /** The reference counts, after n pages were taken and given back. */
  lemma CountsReturn(holes: seq<Hole>, lo: int, hi: int, n: nat, was: seq<RefCount>, mid: seq<RefCount>,
                     now: seq<RefCount>, view0: (int, int) -> Mapping, d0: int, view1: (int, int) -> Mapping,
                     view: (int, int) -> Mapping, d: int, page: int)
    requires Canonical(holes, lo, hi) && n > 0 && Fits(holes, n) && page == holes[FirstFit(holes, n)].page
    requires TakeCounted(holes, n, was, mid, view0, d0)
    requires var taken := Take(holes, FirstFit(holes, n), n);
             HeaderCounted(taken, Position(taken, page), page, n, mid, now, view1, view, d)
    requires SoleAt(was, view0(d0, page))
    requires n < holes[FirstFit(holes, n)].size ==> AtMostOneAt(mid, view1(d, page + n))
    ensures now == was <==> HeaderReturns(holes, n, was, view0, d0)
  {
    var k := FirstFit(holes, n);
    TakenAround(holes, lo, hi, k, n);
    if holes[k].size == n {
      LowestReturns(was, mid, now, view0(d0, page), view(d, page));
    } else {
      RecountedSame(was, mid, view0(d0, page));
      RecountedSame(mid, now, view1(d, page + n));
    }
  }

  lemma HoleSize(holes: seq<Hole>, lo: int, hi: int, k: nat)
    requires Canonical(holes, lo, hi) && k < |holes|
    ensures holes[k].size > 0
  {
  }

  lemma TakenFits(holes: seq<Hole>, lo: int, hi: int, k: nat, n: nat)
    requires Canonical(holes, lo, hi) && 0 < lo && hi <= VPAGES && k < |holes| && 0 < n < holes[k].size
    ensures Bounded(holes[k := Hole(holes[k].page + n, holes[k].size - n)])
    ensures lo <= holes[k].page && 0 <= holes[k].page + n < VPAGES
  {
  }

  class RangeAllocator {
    const vm: Paging
    const lo: int
    const hi: int
    var ranges: int
    ghost var list: List

    /** The headers are where `list` says. */
    ghost predicate Here()
      reads this, vm, vm.pa, vm.pa.bitmap, vm.pa.refCounts
    {
      vm.Valid() && Held(list.heads, vm.view, vm.current, vm.ram.pages)
    }

    /** ... and they form the list of holes. */
    ghost predicate Listed()
      reads this, vm, vm.pa, vm.pa.bitmap, vm.pa.refCounts
    {
      && Here()
      && Linked(list.heads, ranges, list.holes)
      && Distinct(list.holes) && Bounded(list.holes)
    }

    ghost predicate Valid()
      reads this, vm, vm.pa, vm.pa.bitmap, vm.pa.refCounts
    {
      && Listed()
      && 0 < lo < hi <= VPAGES
      && Canonical(list.holes, lo, hi)
      && BodyUnmapped(list, vm.view, vm.current)
    }

    constructor (vm: Paging, lo: int, hi: int)
      requires vm.Valid() && 0 < lo < hi <= VPAGES
      ensures Valid() && this.vm == vm && this.lo == lo && this.hi == hi && list == List(map[], [])
    {
      this.vm, this.lo, this.hi, ranges, list := vm, lo, hi, 0, List(map[], []);
    }

    // ----- single steps on a header -----

    method GetSize(w: int) returns (x: int)
      requires Here() && w in list.heads
      ensures x == list.heads[w].size
    {
      x := vm.LoadWord(w, 0);
    }

    method GetNext(w: int) returns (x: int)
      requires Here() && w in list.heads
      ensures x == list.heads[w].next
    {
      x := vm.LoadWord(w, 4);
    }

    /** Only the frame of page w has other bytes than before. */
    twostate predicate OnlyWrites(w: int)
      requires vm.view(vm.current, w).Mapped?
      reads this, vm
    {
      && vm.ram == old(vm.ram).(pages := vm.ram.pages)
      && SameBytesBut(old(vm.ram.pages), vm.ram.pages, vm.view(vm.current, w).entry.frame)
    }

    method SetSize(w: int, x: int)
      requires Here() && w in list.heads && 0 <= x < WORD
      modifies this`list, vm`ram
      ensures Here() && OnlyWrites(w)
      ensures list == List(WithSize(old(list.heads), w, x), old(list.holes))
    {
      ghost var p := vm.PageAt(w);
      LoadStore(p, 0, x, 0);
      LoadStore(p, 0, x, 4);
      vm.StoreWord(w, 0, x);
      list := List(WithSize(list.heads, w, x), list.holes);
    }

    method SetNext(w: int, x: int)
      requires Here() && w in list.heads && 0 <= x < WORD
      modifies this`list, vm`ram
      ensures Here() && OnlyWrites(w)
      ensures list == List(WithNext(old(list.heads), w, x), old(list.holes))
    {
      ghost var p := vm.PageAt(w);
      LoadStore(p, 4, x, 0);
      LoadStore(p, 4, x, 4);
      vm.StoreWord(w, 4, x);
      list := List(WithNext(list.heads, w, x), list.holes);
    }

    /** Page w, a header no more, is unmapped. */
    method DropPage(w: int)
      requires Here() && w !in list.heads && vm.view(vm.current, w).Mapped?
      modifies vm`ram, vm`view, vm.pa, vm.pa.bitmap, vm.pa.refCounts
      ensures Here() && vm.Keeps(w)
      ensures SameOutside(old(vm.view), vm.view, vm.ram.dirs, vm.current, w, 1)
      ensures vm.view(vm.current, w).Unmapped?
      ensures GivenAt(old(vm.Counts()), vm.Counts(), old(vm.view)(vm.current, w)) && vm.ram.pdes == old(vm.ram.pdes)
    {
      vm.UnmapPage(w);
    }

    /** The header of page `from` is mapped at page `to` as well, and counts as being there. */
    method CopyHeader(to: int, from: int) returns (rc: Status)
      requires Here() && from in list.heads && to !in list.heads && 0 <= to < VPAGES
      requires vm.view(vm.current, to).Unmapped?
      modifies this`list, vm`ram, vm`owners, vm`view, vm.pa, vm.pa.bitmap, vm.pa.refCounts
      ensures Here() && vm.Keeps(to)
      ensures SameOutside(old(vm.view), vm.view, vm.ram.dirs, vm.current, to, 1)
      ensures rc.Ok? ==> list == old(list).(heads := (old(list.heads) - {from})[to := old(list.heads)[from]])
                         && vm.view(vm.current, to) == Mapped(Entry(old(vm.view)(vm.current, from).entry.frame,
                                                                    PAGE_WRITE))
      ensures rc.NoMemory? ==> list == old(list) && to < KERNEL_VPAGE && vm.view == old(vm.view)
      ensures rc.Ok? <==> Enough(old(vm.Counts()), old(vm.ram.pdes), Pde(vm.current, to), 0)
      ensures to >= KERNEL_VPAGE ==> Taken(old(vm.Counts()), vm.Counts(), old(vm.view)(vm.current, from).entry.frame)
    {
      rc := vm.CopyPageMapping(to, from, PAGE_WRITE);
      if rc.NoMemory? { return; }
      HeldMoved(list.heads, old(vm.view), vm.view, vm.current, vm.ram.pages, to, from);
      list := list.(heads := (list.heads - {from})[to := list.heads[from]]);
    }

    /** Page w gets a frame of its own and counts as a header, with what is in it. */
    method MapHeader(w: int) returns (rc: Status)
      requires Here() && w !in list.heads && 0 <= w < VPAGES && vm.view(vm.current, w).Unmapped?
      modifies this`list, vm`ram, vm`owners, vm`view, vm.pa, vm.pa.bitmap, vm.pa.refCounts
      ensures Here() && vm.Keeps(w)
      ensures SameOutside(old(vm.view), vm.view, vm.ram.dirs, vm.current, w, 1)
      ensures rc.Ok? ==> w in list.heads && list == old(list).(heads := old(list.heads)[w := list.heads[w]])
                         && WasFree(old(vm.Counts()), vm.view(vm.current, w).entry.frame)
      ensures rc.NoMemory? ==> list == old(list) && vm.view == old(vm.view)
      ensures rc.Ok? <==> Enough(old(vm.Counts()), old(vm.ram.pdes), Pde(vm.current, w), 1)
      ensures rc.Ok? && w >= KERNEL_VPAGE ==> LowestAt(old(vm.Counts()), vm.Counts(), vm.view(vm.current, w))
      ensures w >= KERNEL_VPAGE ==>
                if rc.Ok? then Taken(old(vm.Counts()), vm.Counts(), vm.view(vm.current, w).entry.frame)
                                    else vm.Counts() == old(vm.Counts()) && |FreeSet(vm.Counts())| == 0
    {
      forall x | x in list.heads { vm.MappedInUse(vm.current, x); }
      rc := vm.MapPageToFreePage(w, PAGE_WRITE);
      if rc.NoMemory? { return; }
      HeldNew(list.heads, old(vm.view), vm.view, vm.current, vm.ram.pages, w);
      ghost var h := HeaderOf(vm.PageAt(w));
      list := list.(heads := list.heads[w := h]);
    }

    /** The search of range_allocator_alloc: the first hole of at least n pages, and the
        one before it. */
    method FindFit(n: nat) returns (prev: int, it: int, ghost k: nat)
      requires Valid()
      ensures k == FirstFit(list.holes, n) && it == Ptr(list.holes, k) && prev == Before(list.holes, k)
    {
      prev, it, k := 0, ranges, 0;
      while it != 0
        invariant k <= |list.holes| && it == Ptr(list.holes, k) && prev == Before(list.holes, k)
        invariant forall j :: 0 <= j < k ==> list.holes[j].size < n
        decreases |list.holes| - k
      {
        assert LinkedAt(list.heads, list.holes, k);
        var size := GetSize(it / PAGE_SIZE);
        if size >= n * PAGE_SIZE { return; }
        prev := it;
        it := GetNext(it / PAGE_SIZE);
        k := k + 1;
      }
    }

    /** The search of range_allocator_free: the first hole that ends beyond `page`. */
    method FindPosition(page: int) returns (prev: int, it: int, ghost k: nat)
      requires Valid()
      ensures k == Position(list.holes, page) && it == Ptr(list.holes, k) && prev == Before(list.holes, k)
    {
      prev, it, k := 0, ranges, 0;
      while it != 0
        invariant k <= |list.holes| && it == Ptr(list.holes, k) && prev == Before(list.holes, k)
        invariant forall j :: 0 <= j < k ==> list.holes[j].End() <= page
        decreases |list.holes| - k
      {
        assert LinkedAt(list.heads, list.holes, k);
        var size := GetSize(it / PAGE_SIZE);
        if it + size > page * PAGE_SIZE { return; }
        prev := it;
        it := GetNext(it / PAGE_SIZE);
        k := k + 1;
      }
    }

    /** The frame that relinking at index k writes to, or any frame if it writes none. */
    ghost function RelinkFrame(holes: seq<Hole>, k: nat, any: int): int
      requires k <= |holes| && (k > 0 ==> vm.view(vm.current, holes[k - 1].page).Mapped?)
      reads this, vm
    {
      if k > 0 then vm.view(vm.current, holes[k - 1].page).entry.frame else any
    }

    /** prev->next = to, or the head of the list if there is no prev. */
    method Relink(prev: int, to: int, ghost holes: seq<Hole>, ghost k: nat, ghost any: int)
      requires Here() && k <= |holes| && prev == Before(holes, k) && 0 <= to < WORD
      requires k > 0 ==> holes[k - 1].page > 0 && holes[k - 1].page in list.heads
      modifies this`list, this`ranges, vm`ram
      ensures Here() && vm.ram == old(vm.ram).(pages := vm.ram.pages)
      ensures list == old(list).(heads := Relinked(old(list.heads), holes, k, to))
      ensures ranges == if k == 0 then to else old(ranges)
      ensures SameBytesBut(old(vm.ram.pages), vm.ram.pages, old(RelinkFrame(holes, k, any)))
    {
      if prev != 0 {
        SetNext(prev / PAGE_SIZE, to);
      } else {
        ranges := to;
      }
    }

    // ----- single steps on the list -----

    /** Directories stay, and bytes change only under headers. */
    twostate predicate Quiet()
      reads this, vm, vm.pa.refCounts
    {
      && vm.current == old(vm.current) && vm.ram.dirs == old(vm.ram.dirs)
      && (lo >= KERNEL_VPAGE ==> vm.ram.pdes == old(vm.ram.pdes))
      && HeaderBytes(old(list.heads), old(vm.view), vm.current, old(vm.Counts()), old(vm.ram.pages), vm.ram.pages)
      && (lo >= KERNEL_VPAGE ==>
            Balanced(old(list.heads), old(vm.view), old(vm.Counts()), list.heads, vm.view, vm.Counts(), vm.current))
    }

    /** The headers before and at index k. */
    lemma Around(k: nat)
      requires Listed() && k <= |list.holes|
      ensures Apart(list.heads, vm.view, vm.current) && vm.current in vm.ram.dirs && |vm.ram.pages| == |vm.Counts()|
      ensures k > 0 ==> var w := list.holes[k - 1].page;
                && w > 0 && w in list.heads && list.heads[w].size == list.holes[k - 1].size * PAGE_SIZE
                && vm.view(vm.current, w).Mapped? && vm.view(vm.current, w).entry.frame < |vm.ram.pages|
      ensures k < |list.holes| ==> var w := list.holes[k].page;
                && w > 0 && w in list.heads && vm.view(vm.current, w).Mapped?
                && vm.view(vm.current, w).entry.frame < |vm.ram.pages|
                && list.heads[w] == Header(list.holes[k].size * PAGE_SIZE, Ptr(list.holes, k + 1))
      ensures 0 < k < |list.holes| ==> list.holes[k - 1].page != list.holes[k].page
      ensures 0 <= Ptr(list.holes, k) < WORD && 0 <= Ptr(list.holes, k + 1) < WORD
    {
      assert LinkedAt(list.heads, list.holes, k);
      if k > 0 { assert LinkedAt(list.heads, list.holes, k - 1); }
    }

    lemma Headed()
      requires Listed()
      ensures vm.current in vm.ram.dirs && forall w :: w in list.heads ==> IsHead(list.holes, w)
    {
    }

    /** Hole k is taken out of the list and its header page unmapped. */
    method Remove(prev: int, it: int, ghost k: nat)
      requires Listed() && k < |list.holes| && it == Ptr(list.holes, k) && prev == Before(list.holes, k)
      modifies this`list, this`ranges, vm`ram, vm`view, vm.pa, vm.pa.bitmap, vm.pa.refCounts
      ensures Listed() && Quiet()
      ensures list.holes == old(list.holes)[..k] + old(list.holes)[k + 1..]
      ensures list.heads.Keys == old(list.heads).Keys - {old(list.holes)[k].page}
      ensures GivenAt(old(vm.Counts()), vm.Counts(), old(vm.view)(vm.current, old(list.holes)[k].page))
      ensures SameBut(old(vm.view), vm.view, vm.ram.dirs, vm.current, old(list.holes)[k].page, old(list.holes)[k].page)
      ensures vm.view(vm.current, old(list.holes)[k].page).Unmapped?
    {
      hide Linked, Distinct, Bounded, Balanced, HeaderBytes, vm.Valid, Held, Apart;
      ghost var holes, heads, page := list.holes, list.heads, list.holes[k].page;
      Around(k);
      var to := GetNext(it / PAGE_SIZE);
      Unlink(heads, ranges, holes, k);
      UnlinkedKeys(heads, holes, k, to, page);
      DistinctCut(holes, k);
      BoundedCut(holes, k);
      ghost var f := vm.view(vm.current, page).entry.frame;
      ghost var g := RelinkFrame(holes, k, f);
      Relink(prev, to, holes, k, f);
      HeldLess(list.heads, vm.view, vm.current, vm.ram.pages, page);
      list := List(list.heads - {page}, holes[..k] + holes[k + 1..]);
      DropPage(it / PAGE_SIZE);
      BalancedRemove(heads, old(vm.view), old(vm.Counts()), list.heads, vm.view, vm.Counts(), vm.current, page);
      HeaderBytesTwice(heads, old(vm.view), vm.current, old(vm.Counts()), old(vm.ram.pages), old(vm.ram.pages),
                       vm.ram.pages, f, g);
    }

    /** The header of page `from` is mapped at page `to` and gets another size there. */
    method CopyResized(to: int, from: int, delta: int) returns (rc: Status)
      requires Here() && from in list.heads && to !in list.heads && to != from && 0 <= to < VPAGES
      requires vm.view(vm.current, to).Unmapped? && 0 <= list.heads[from].size + delta < WORD
      modifies this`list, vm`ram, vm`owners, vm`view, vm.pa, vm.pa.bitmap, vm.pa.refCounts
      ensures Here() && vm.current == old(vm.current) && vm.ram.dirs == old(vm.ram.dirs)
      ensures to >= KERNEL_VPAGE ==> vm.ram.pdes == old(vm.ram.pdes)
      ensures rc.Ok? <==> Enough(old(vm.Counts()), old(vm.ram.pdes), Pde(vm.current, to), 0)
      ensures rc.NoMemory? ==> list == old(list) && to < KERNEL_VPAGE && vm.ram.pages == old(vm.ram.pages)
                               && vm.view == old(vm.view)
      ensures list.holes == old(list.holes)
      ensures rc.Ok? ==> list.heads == Moved(old(list.heads), to, from, delta)
      ensures rc.Ok? ==> SameOutside(old(vm.view), vm.view, vm.ram.dirs, vm.current, to, 1)
                         && vm.view(vm.current, to).Mapped?
                         && vm.view(vm.current, to).entry.frame == old(vm.view)(vm.current, from).entry.frame
      ensures rc.Ok? ==> SameBytesBut(old(vm.ram.pages), vm.ram.pages, old(vm.view)(vm.current, from).entry.frame)
      ensures to >= KERNEL_VPAGE ==> Taken(old(vm.Counts()), vm.Counts(), old(vm.view)(vm.current, from).entry.frame)
    {
      hide Held, vm.Valid, Taken;
      rc := CopyHeader(to, from);
      if rc.NoMemory? { return; }
      var size := GetSize(to);
      SetSize(to, size + delta);
      MovedSize(old(list.heads), to, from, delta);
    }

    /** The header of page `from` moves to page `to`, with another size: map the frame
        at `to`, write the size there, unmap `from`. */
    method MoveHeader(to: int, from: int, delta: int) returns (rc: Status, ghost mid: seq<RefCount>)
      requires Here() && from in list.heads && to !in list.heads && to != from && 0 <= to < VPAGES
      requires vm.view(vm.current, to).Unmapped? && 0 <= list.heads[from].size + delta < WORD
      modifies this`list, vm`ram, vm`owners, vm`view, vm.pa, vm.pa.bitmap, vm.pa.refCounts
      ensures Here() && vm.current == old(vm.current) && vm.ram.dirs == old(vm.ram.dirs)
      ensures to >= KERNEL_VPAGE ==> vm.ram.pdes == old(vm.ram.pdes)
      ensures rc.Ok? <==> Enough(old(vm.Counts()), old(vm.ram.pdes), Pde(vm.current, to), 0)
      ensures rc.NoMemory? ==> list == old(list) && to < KERNEL_VPAGE && vm.ram.pages == old(vm.ram.pages)
                               && vm.view == old(vm.view)
      ensures list.holes == old(list.holes)
      ensures rc.Ok? ==> list.heads == Moved(old(list.heads), to, from, delta)
      ensures rc.Ok? ==> SameBut(old(vm.view), vm.view, vm.ram.dirs, vm.current, to, from)
                         && vm.view(vm.current, from).Unmapped? && vm.view(vm.current, to).Mapped?
                         && vm.view(vm.current, to).entry.frame == old(vm.view)(vm.current, from).entry.frame
      ensures rc.Ok? ==> SameBytesBut(old(vm.ram.pages), vm.ram.pages, old(vm.view)(vm.current, from).entry.frame)
      ensures to >= KERNEL_VPAGE ==> Taken(old(vm.Counts()), mid, old(vm.view)(vm.current, from).entry.frame)
                                     && Given(mid, vm.Counts(), old(vm.view)(vm.current, from).entry.frame)
    {
      rc := CopyResized(to, from, delta);
      mid := vm.Counts();
      if rc.NoMemory? { return; }
      assert vm.view(vm.current, from) == old(vm.view)(vm.current, from);
      DropPage(from);
    }

    /** Hole k becomes h: its header moves from page `from` to page `to`, which is not
        mapped, and its size changes by delta bytes. */
    method Shift(prev: int, ghost k: nat, to: int, from: int, delta: int, ghost h: Hole) returns (rc: Status)
      requires Listed() && k < |list.holes| && prev == Before(list.holes, k) && from == list.holes[k].page
      requires to == h.page && delta == (h.size - list.holes[k].size) * PAGE_SIZE && to != from && to !in list.heads
      requires lo <= to
      requires vm.view(vm.current, to).Unmapped? && Bounded(list.holes[k := h]) && Distinct(list.holes[k := h])
      modifies this`list, this`ranges, vm`ram, vm`owners, vm`view, vm.pa, vm.pa.bitmap, vm.pa.refCounts
      ensures Listed() && Quiet()
      ensures rc.Ok? <==> Enough(old(vm.Counts()), old(vm.ram.pdes), Pde(vm.current, to), 0)
      ensures lo >= KERNEL_VPAGE ==> RecountedAt(old(vm.Counts()), vm.Counts(), old(vm.view)(vm.current, from))
      ensures rc.NoMemory? ==>
                list == old(list) && ranges == old(ranges) && vm.view == old(vm.view) && to < KERNEL_VPAGE
      ensures rc.Ok? ==> list.holes == old(list.holes)[k := h]
                         && SameBut(old(vm.view), vm.view, vm.ram.dirs, vm.current, to, from)
                         && vm.view(vm.current, from).Unmapped?
      ensures rc.Ok? ==> list.heads.Keys == old(list.heads).Keys - {from} + {to}
    {
      hide Linked, Distinct, Balanced, HeaderBytes, vm.Valid, Held, Apart;
      ghost var holes, heads, first := list.holes, list.heads, ranges;
      Around(k);
      assert holes[k := h][k] == h;
      ghost var counts;
      rc, counts := MoveHeader(to, from, delta);
      if rc.NoMemory? {
        NothingDone(heads, old(vm.view), vm.current, old(vm.Counts()), old(vm.ram.pages));
        return;
      }
      ghost var mid, f := vm.ram.pages, old(vm.view)(vm.current, from).entry.frame;
      ghost var g := RelinkFrame(holes, k, f);
      Replace(heads, first, holes, k, h, to, from, delta, to * PAGE_SIZE);
      MovedKeys(heads, holes, k, to, from, delta, to * PAGE_SIZE);
      Relink(prev, to * PAGE_SIZE, holes, k, f);
      list := List(list.heads, holes[k := h]);
      if lo >= KERNEL_VPAGE {
        BalancedMove(heads, old(vm.view), old(vm.Counts()), list.heads, vm.view, counts, vm.Counts(), vm.current, to,
                     from);
      }
      HeaderBytesTwice(heads, old(vm.view), vm.current, old(vm.Counts()), old(vm.ram.pages), mid, vm.ram.pages, f, g);
    }

    /** Hole k grows in place by `more` pages. */
    method GrowInPlace(ghost k: nat, page: int, delta: int, ghost more: nat)
      requires Listed() && k < |list.holes| && page == list.holes[k].page && delta == more * PAGE_SIZE
      requires list.holes[k].End() + more <= VPAGES
      modifies this`list, vm`ram
      ensures Listed() && Quiet() && vm.view == old(vm.view) && ranges == old(ranges)
      ensures list.holes == old(list.holes)[k := Hole(page, old(list.holes)[k].size + more)]
      ensures list.heads.Keys == old(list.heads).Keys
    {
      ghost var holes, heads, h := list.holes, list.heads, Hole(page, list.holes[k].size + more);
      HeadersAround(heads, ranges, holes, k);
      var size := GetSize(page);
      Grow(heads, ranges, holes, k, h, page, size + delta);
      SetSize(page, size + delta);
      assert Linked(list.heads, ranges, holes[k := h]);
      list := List(list.heads, holes[k := h]);
      BalancedSame(heads, list.heads, vm.view, vm.Counts(), vm.current);
      ghost var f := vm.view(vm.current, page).entry.frame;
      HeaderBytesTwice(heads, vm.view, vm.current, old(vm.Counts()), old(vm.ram.pages), old(vm.ram.pages), vm.ram.pages,
                       f, f);
    }

    /** Page w gets a frame of its own, and on it a header with these contents. */
    method NewHeader(w: int, size: int, next: int) returns (rc: Status)
      requires Here() && w !in list.heads && 0 <= w < VPAGES && vm.view(vm.current, w).Unmapped?
      requires 0 <= size < WORD && 0 <= next < WORD
      modifies this`list, vm`ram, vm`owners, vm`view, vm.pa, vm.pa.bitmap, vm.pa.refCounts
      ensures Here() && vm.current == old(vm.current) && vm.ram.dirs == old(vm.ram.dirs)
      ensures w >= KERNEL_VPAGE ==> vm.ram.pdes == old(vm.ram.pdes)
      ensures rc.Ok? <==> Enough(old(vm.Counts()), old(vm.ram.pdes), Pde(vm.current, w), 1)
      ensures rc.Ok? && w >= KERNEL_VPAGE ==> LowestAt(old(vm.Counts()), vm.Counts(), vm.view(vm.current, w))
      ensures SameOutside(old(vm.view), vm.view, vm.ram.dirs, vm.current, w, 1)
      ensures rc.NoMemory? ==> list == old(list) && vm.ram.pages == old(vm.ram.pages) && vm.view == old(vm.view)
      ensures rc.Ok? ==> list == List(old(list.heads)[w := Header(size, next)], old(list.holes))
                         && vm.view(vm.current, w).Mapped? && WasFree(old(vm.Counts()),
                                                                      vm.view(vm.current, w).entry.frame)
                         && SameBytesBut(old(vm.ram.pages), vm.ram.pages, vm.view(vm.current, w).entry.frame)
      ensures w >= KERNEL_VPAGE ==>
                if rc.Ok? then Taken(old(vm.Counts()), vm.Counts(), vm.view(vm.current, w).entry.frame)
                                    else vm.Counts() == old(vm.Counts()) && |FreeSet(vm.Counts())| == 0
    {
      rc := MapHeader(w);
      if rc.NoMemory? { return; }
      ghost var h := list.heads[w];
      SetSize(w, size);
      SetNext(w, next);
      NewContents(old(list.heads), w, h, size, next);
    }

    /** A hole of its own for `size` pages from `page` on, before index k. */
    method InsertHole(prev: int, it: int, ghost k: nat, page: int, size: int) returns (rc: Status)
      requires Listed() && k <= |list.holes| && prev == Before(list.holes, k) && it == Ptr(list.holes, k)
      requires page > 0 && size > 0 && page + size <= VPAGES && page !in list.heads && lo <= page
      requires vm.view(vm.current, page).Unmapped?
      modifies this`list, this`ranges, vm`ram, vm`owners, vm`view, vm.pa, vm.pa.bitmap, vm.pa.refCounts
      ensures Listed() && Quiet()
      ensures SameBut(old(vm.view), vm.view, vm.ram.dirs, vm.current, page, page)
      ensures rc.NoMemory? ==> list == old(list) && ranges == old(ranges) && vm.view == old(vm.view)
      ensures rc.Ok? ==> list.holes == old(list.holes)[..k] + [Hole(page, size)] + old(list.holes)[k..]
                         && list.heads.Keys == old(list.heads).Keys + {page}
      ensures rc.Ok? <==> Enough(old(vm.Counts()), old(vm.ram.pdes), Pde(vm.current, page), 1)
      ensures lo >= KERNEL_VPAGE && rc.Ok? ==> LowestAt(old(vm.Counts()), vm.Counts(), vm.view(vm.current, page))
      ensures rc.NoMemory? && lo >= KERNEL_VPAGE ==> vm.Counts() == old(vm.Counts())
    {
      hide Linked, Distinct, Bounded, Balanced, HeaderBytes, vm.Valid, Held, Apart;
      ghost var holes, heads, first := list.holes, list.heads, ranges;
      Around(k);
      rc := NewHeader(page, size * PAGE_SIZE, it);
      if rc.NoMemory? {
        NothingDone(heads, old(vm.view), vm.current, old(vm.Counts()), old(vm.ram.pages));
        return;
      }
      ghost var mid, h, f := vm.ram.pages, Hole(page, size), vm.view(vm.current, page).entry.frame;
      ghost var g := RelinkFrame(holes, k, f);
      Insert(heads, first, holes, k, h);
      InsertedKeys(heads, holes, k, page, Header(size * PAGE_SIZE, it), page * PAGE_SIZE);
      BoundedInsert(holes, k, h);
      DistinctInsert(heads, first, holes, k, h);
      Relink(prev, page * PAGE_SIZE, holes, k, f);
      list := List(list.heads, holes[..k] + [h] + holes[k..]);
      if lo >= KERNEL_VPAGE {
        BalancedInsert(heads, old(vm.view), old(vm.Counts()), list.heads, vm.view, vm.Counts(), vm.current, page);
      }
      HeaderBytesTwice(heads, old(vm.view), vm.current, old(vm.Counts()), old(vm.ram.pages), mid, vm.ram.pages, f, g);
    }

    /** range_allocator_init: one hole that is everything. */
    method Init() returns (rc: Status)
      requires vm.Valid() && 0 < lo < hi <= VPAGES && list == List(map[], [])
      requires forall w :: lo <= w < hi ==> vm.view(vm.current, w).Unmapped?
      modifies this`list, this`ranges, vm`ram, vm`owners, vm`view, vm.pa, vm.pa.bitmap, vm.pa.refCounts
      ensures Here() && vm.current == old(vm.current) && vm.ram.dirs == old(vm.ram.dirs)
      ensures SameOutside(old(vm.view), vm.view, vm.ram.dirs, vm.current, lo, 1)
      ensures rc.Ok? <==> Enough(old(vm.Counts()), old(vm.ram.pdes), Pde(vm.current, lo), 1)
      ensures rc.Ok? ==> Valid() && list.holes == [Hole(lo, hi - lo)] && ranges != 0
      ensures rc.Ok? && lo >= KERNEL_VPAGE ==> SoleHeads(list.heads, vm.view, vm.current, vm.Counts())
    {
      assert Held(list.heads, vm.view, vm.current, vm.ram.pages);
      rc := NewHeader(lo, (hi - lo) * PAGE_SIZE, 0);
      if rc.NoMemory? { return; }
      ranges := lo * PAGE_SIZE;
      list := List(list.heads, [Hole(lo, hi - lo)]);
      assert IsHead(list.holes, lo) by { assert list.holes[0].page == lo; }
      forall w | IsFree(list.holes, w) && w !in list.heads ensures vm.view(vm.current, w).Unmapped? { }
    }

    // ----- the two operations -----

    method TakeWhole(prev: int, it: int, ghost k: nat)
      requires Valid() && k < |list.holes| && it == Ptr(list.holes, k) && prev == Before(list.holes, k)
      modifies this`list, this`ranges, vm`ram, vm`view, vm.pa, vm.pa.bitmap, vm.pa.refCounts
      ensures Valid() && Quiet() && list.holes == Take(old(list.holes), k, old(list.holes)[k].size)
      ensures GivenAt(old(vm.Counts()), vm.Counts(), old(vm.view)(vm.current, old(list.holes)[k].page))
      ensures OnlyFreePages(old(list.holes), old(vm.view), vm.view, vm.ram.dirs, vm.current)
      ensures forall w :: InRun(w, it / PAGE_SIZE, old(list.holes)[k].size) ==> vm.view(vm.current, w).Unmapped?
    {
      hide Linked, Distinct, Bounded, Balanced, HeaderBytes, vm.Valid, Held, Apart, BodyUnmapped, Canonical, IsFree,
           SameBut, OnlyFreePages;
      ghost var was, page := list, list.holes[k].page;
      HoleSize(list.holes, lo, hi, k);
      FrontReady(was.heads, ranges, was.holes, lo, hi, k, 0, vm.view, vm.current);
      Remove(prev, it, k);
      Headed();
      SettledMoved(was.heads, list.heads, old(vm.view), vm.view, vm.ram.dirs, vm.current, page, page);
      TakeFree(was.holes, lo, hi, k, was.holes[k].size);
      TakenBody(was, list, lo, hi, k, was.holes[k].size, old(vm.view), vm.view, vm.current);
      OnlyFreeTwo(was.holes, old(vm.view), vm.view, vm.ram.dirs, vm.current, page, page);
    }

    method TakeFront(prev: int, it: int, n: nat, ghost k: nat) returns (rc: Status)
      requires Valid() && k < |list.holes| && it == Ptr(list.holes, k) && prev == Before(list.holes, k)
      requires 0 < n < list.holes[k].size
      modifies this`list, this`ranges, vm`ram, vm`owners, vm`view, vm.pa, vm.pa.bitmap, vm.pa.refCounts
      ensures Valid() && Quiet()
      ensures OnlyFreePages(old(list.holes), old(vm.view), vm.view, vm.ram.dirs, vm.current)
      ensures rc.Ok? ==> list.holes == Take(old(list.holes), k, n)
                         && forall w :: InRun(w, it / PAGE_SIZE, n) ==> vm.view(vm.current, w).Unmapped?
      ensures rc.Ok? <==> Enough(old(vm.Counts()), old(vm.ram.pdes), Pde(vm.current, old(list.holes)[k].page + n), 0)
      ensures lo >= KERNEL_VPAGE ==>
                RecountedAt(old(vm.Counts()), vm.Counts(), old(vm.view)(vm.current, old(list.holes)[k].page))
      ensures rc.NoMemory? ==>
                list == old(list) && ranges == old(ranges) && vm.view == old(vm.view) && lo < KERNEL_VPAGE
    {
      hide Linked, Distinct, Bounded, Balanced, HeaderBytes, vm.Valid, Held, Apart, BodyUnmapped, Canonical, IsFree,
           SameBut, OnlyFreePages;
      ghost var was := list;
      FrontReady(was.heads, ranges, was.holes, lo, hi, k, n, vm.view, vm.current);
      var from := it / PAGE_SIZE;
      ghost var h := Hole(was.holes[k].page + n, was.holes[k].size - n);
      TakenFits(was.holes, lo, hi, k, n);
      assert from == was.holes[k].page && Take(was.holes, k, n) == was.holes[k := h];
      TakeFree(was.holes, lo, hi, k, n);
      CanonicalDistinct(was.holes[k := h], lo, hi);
      rc := Shift(prev, k, from + n, from, 0 - n * PAGE_SIZE, h);
      if rc.NoMemory? {
        NothingChanged(was.holes, vm.view, vm.ram.dirs, vm.current);
        return;
      }
      Headed();
      SettledMoved(was.heads, list.heads, old(vm.view), vm.view, vm.ram.dirs, vm.current, from + n, from);
      TakenBody(was, list, lo, hi, k, n, old(vm.view), vm.view, vm.current);
      OnlyFreeTwo(was.holes, old(vm.view), vm.view, vm.ram.dirs, vm.current, from + n, from);
    }

    /** range_allocator_alloc. First fit: the lowest run of free pages that is long
        enough, or no space exactly when there is none; the pages handed out are
        unmapped, and exactly they leave the free set. Only in the user half can
        moving a header run out of frames. */
    method Alloc(size: int) returns (r: AllocResult)
      requires Valid() && ranges != 0 && 0 < size <= WORD - PAGE_SIZE
      modifies this`list, this`ranges, vm`ram, vm`owners, vm`view, vm.pa, vm.pa.bitmap, vm.pa.refCounts
      ensures Valid() && Quiet()
      ensures OnlyFreePages(old(list.holes), old(vm.view), vm.view, vm.ram.dirs, vm.current)
      ensures r.NoSpace? <==> !exists page :: RunFree(old(list.holes), page, RoundUp(size) / PAGE_SIZE)
      ensures r.MapFailed? ==> lo < KERNEL_VPAGE
      ensures r.MapFailed? <==>
                TakeFails(old(list.holes), PagesFor(size), old(vm.Counts()), old(vm.ram.pdes), vm.current)
      ensures lo >= KERNEL_VPAGE && r.Address? ==>
                TakeCounted(old(list.holes), PagesFor(size), old(vm.Counts()), vm.Counts(), old(vm.view), vm.current)
      ensures !r.Address? ==> list == old(list) && vm.view == old(vm.view)
      ensures r.NoSpace? ==> vm.ram == old(vm.ram) && vm.Counts() == old(vm.Counts())
      ensures r.Address? ==>
                var holes, n := old(list.holes), RoundUp(size) / PAGE_SIZE;
                var k := FirstFit(holes, n);
                && k < |holes| && r.addr == holes[k].page * PAGE_SIZE && list.holes == Take(holes, k, n)
                && (forall page :: RunFree(holes, page, n) ==> holes[k].page <= page)
                && (forall w :: InRun(w, holes[k].page, n) ==> vm.view(vm.current, w).Unmapped?)
    {
      hide Linked, Distinct, Bounded, Balanced, HeaderBytes, vm.Valid, Held, Apart, BodyUnmapped, Canonical, IsFree,
           SameBut, OnlyFreePages, Take, FirstFit, RoundUp, RunFree;
      RoundUpPages(size);
      var n := RoundUp(size) / PAGE_SIZE;
      FirstFitIsLowest(list.holes, lo, hi, n);
      ghost var holes := list.holes;
      ghost var k: nat;
      var prev, it;
      prev, it, k := FindFit(n);
      Around(k);
      if it == 0 {
        NothingChanged(list.holes, vm.view, vm.ram.dirs, vm.current);
        NothingDone(list.heads, vm.view, vm.current, vm.Counts(), vm.ram.pages);
        return NoSpace;
      }
      var available := GetSize(it / PAGE_SIZE);
      if available == n * PAGE_SIZE {
        TakeWhole(prev, it, k);
      } else {
        var rc := TakeFront(prev, it, n, k);
        if rc.NoMemory? { return MapFailed; }
      }
      r := Address(it);
    }

    /** Hole k - 1 swallows hole k, which it has come to touch. */
    method Swallow(prev: int, it: int, ghost k: nat)
      requires Listed() && 0 < k < |list.holes| && it == Ptr(list.holes, k) && prev == Before(list.holes, k)
      requires list.holes[k - 1].End() == list.holes[k].page
      modifies this`list, this`ranges, vm`ram, vm`view, vm.pa, vm.pa.bitmap, vm.pa.refCounts
      ensures Listed() && Quiet()
      ensures var holes := old(list.holes);
              && list.holes == Merged(holes, k)
              && list.heads.Keys == old(list.heads).Keys - {holes[k].page}
              && SameBut(old(vm.view), vm.view, vm.ram.dirs, vm.current, holes[k].page, holes[k].page)
              && vm.view(vm.current, holes[k].page).Unmapped?
    {
      hide Linked, Distinct, Balanced, HeaderBytes, vm.Valid, Held, Apart, SameBut;
      ghost var was := list;
      HeadersAround(was.heads, ranges, was.holes, k);
      var more := GetSize(it / PAGE_SIZE);
      GrowInPlace(k - 1, prev / PAGE_SIZE, more, was.holes[k].size);
      ghost var mid, grown := vm.ram.pages, list;
      MergedIs(was.holes, k, list.holes);
      Remove(prev, it, k);
      HeaderBytesThen(was.heads, grown.heads, old(vm.view), vm.current, old(vm.Counts()), old(vm.ram.pages), mid,
                      vm.ram.pages);
      if lo >= KERNEL_VPAGE {
        BalancedThen(was.heads, old(vm.view), old(vm.Counts()), grown.heads, old(vm.view), old(vm.Counts()), list.heads,
                     vm.view, vm.Counts(), vm.current);
      }
    }

    /** Hole k - 1 grows by n pages, and if that fills the gap to the next hole, swallows it. */
    method Extend(prev: int, it: int, ghost k: nat, n: int)
      requires Listed() && n > 0 && 0 < k <= |list.holes| && it == Ptr(list.holes, k) && prev == Before(list.holes, k)
      requires list.holes[k - 1].End() + n <= if k < |list.holes| then list.holes[k].page else VPAGES
      modifies this`list, this`ranges, vm`ram, vm`view, vm.pa, vm.pa.bitmap, vm.pa.refCounts
      ensures Listed() && Quiet()
      ensures Extended(old(list), list, old(vm.view), vm.view, vm.ram.dirs, vm.current, k, n)
    {
      hide Linked, Distinct, Balanced, HeaderBytes, vm.Valid, Held, Apart, SameBut, Merged;
      ghost var was := list;
      assert prev / PAGE_SIZE == was.holes[k - 1].page;
      GrowInPlace(k - 1, prev / PAGE_SIZE, n * PAGE_SIZE, n);
      HeadersAround(list.heads, ranges, list.holes, k);
      var size := GetSize(prev / PAGE_SIZE);
      if it != 0 && prev + size == it {
        ghost var mid, grown := vm.ram.pages, list;
        Swallow(prev, it, k);
        HeaderBytesThen(was.heads, grown.heads, old(vm.view), vm.current, old(vm.Counts()), old(vm.ram.pages), mid,
                        vm.ram.pages);
        if lo >= KERNEL_VPAGE {
          BalancedThen(was.heads, old(vm.view), old(vm.Counts()), grown.heads, old(vm.view), old(vm.Counts()),
                       list.heads, vm.view, vm.Counts(), vm.current);
        }
      }
    }

    /** The pages given back follow the hole before. */
    method GlueLow(prev: int, it: int, ghost k: nat, page: int, n: int)
      requires Valid() && n > 0 && lo <= page && page + n <= hi && NoneFree(list.holes, page, n)
      requires forall w :: InRun(w, page, n) ==> vm.view(vm.current, w).Unmapped?
      requires k == Position(list.holes, page) && it == Ptr(list.holes, k) && prev == Before(list.holes, k)
      requires k > 0 && list.holes[k - 1].End() == page
      modifies this`list, this`ranges, vm`ram, vm`owners, vm`view, vm.pa, vm.pa.bitmap, vm.pa.refCounts
      ensures Valid() && Quiet() && list.holes == Give(old(list.holes), k, page, n)
      ensures OnlyFreePages(list.holes, old(vm.view), vm.view, vm.ram.dirs, vm.current)
    {
      hide Linked, Distinct, Bounded, Balanced, HeaderBytes, vm.Valid, Held, Apart, BodyUnmapped, Canonical, IsFree,
           SameBut, OnlyFreePages, NoneFree, Give, Position;
      ghost var was := list;
      GiveReady(was.heads, ranges, was.holes, lo, hi, page, n);
      ghost var first := ranges;
      Extend(prev, it, k, n);
      Headed();
      ExtendedGives(was, list, first, lo, hi, old(vm.view), vm.view, vm.ram.dirs, vm.current, k, page, n);
    }

    /** The pages given back precede hole k: its header moves to the first of them. */
    method GlueHigh(prev: int, it: int, ghost k: nat, page: int, n: int) returns (rc: Status)
      requires Valid() && n > 0 && lo <= page && page + n <= hi && NoneFree(list.holes, page, n)
      requires forall w :: InRun(w, page, n) ==> vm.view(vm.current, w).Unmapped?
      requires k == Position(list.holes, page) && it == Ptr(list.holes, k) && prev == Before(list.holes, k)
      requires k > 0 ==> list.holes[k - 1].End() != page
      requires k < |list.holes| && list.holes[k].page == page + n
      modifies this`list, this`ranges, vm`ram, vm`owners, vm`view, vm.pa, vm.pa.bitmap, vm.pa.refCounts
      ensures Valid() && Quiet()
      ensures rc.Ok? ==> list.holes == Give(old(list.holes), k, page, n)
                         && OnlyFreePages(list.holes, old(vm.view), vm.view, vm.ram.dirs, vm.current)
      ensures rc.Ok? <==> Enough(old(vm.Counts()), old(vm.ram.pdes), Pde(vm.current, page), 0)
      ensures lo >= KERNEL_VPAGE ==>
                RecountedAt(old(vm.Counts()), vm.Counts(), old(vm.view)(vm.current, page + n))
      ensures rc.NoMemory? ==> list == old(list) && ranges == old(ranges) && vm.view == old(vm.view)
                               && page < KERNEL_VPAGE
    {
      hide Linked, Distinct, Balanced, HeaderBytes, vm.Valid, Held, Apart, BodyUnmapped, Canonical, IsFree, SameBut,
           OnlyFreePages, NoneFree, Give, Position;
      ghost var was, h := list, Hole(page, list.holes[k].size + n);
      GlueHighIs(was.holes, lo, hi, page, n, h);
      GiveReady(was.heads, ranges, was.holes, lo, hi, page, n);
      GiveFree(was.holes, lo, hi, page, n);
      assert InRun(page, page, n) && Bounded(was.holes[k := h]);
      rc := Shift(prev, k, page, it / PAGE_SIZE, n * PAGE_SIZE, h);
      if rc.NoMemory? { return; }
      Headed();
      SettledMoved(was.heads, list.heads, old(vm.view), vm.view, vm.ram.dirs, vm.current, page, page + n);
      OnlyFreeTwo(list.holes, old(vm.view), vm.view, vm.ram.dirs, vm.current, page, page + n);
      GivenBody(was, list, lo, hi, page, n, old(vm.view), vm.view, vm.current);
    }

    /** The pages given back touch no hole: they become one. */
    method GiveApart(prev: int, it: int, ghost k: nat, page: int, n: int) returns (rc: Status)
      requires Valid() && n > 0 && lo <= page && page + n <= hi && NoneFree(list.holes, page, n)
      requires forall w :: InRun(w, page, n) ==> vm.view(vm.current, w).Unmapped?
      requires k == Position(list.holes, page) && it == Ptr(list.holes, k) && prev == Before(list.holes, k)
      requires k > 0 ==> list.holes[k - 1].End() != page
      requires k < |list.holes| ==> list.holes[k].page != page + n
      modifies this`list, this`ranges, vm`ram, vm`owners, vm`view, vm.pa, vm.pa.bitmap, vm.pa.refCounts
      ensures Valid() && Quiet()
      ensures rc.Ok? ==> list.holes == Give(old(list.holes), k, page, n)
                         && OnlyFreePages(list.holes, old(vm.view), vm.view, vm.ram.dirs, vm.current)
      ensures rc.NoMemory? ==> list == old(list) && ranges == old(ranges) && vm.view == old(vm.view)
      ensures rc.Ok? <==> Enough(old(vm.Counts()), old(vm.ram.pdes), Pde(vm.current, page), 1)
      ensures lo >= KERNEL_VPAGE && rc.Ok? ==> LowestAt(old(vm.Counts()), vm.Counts(), vm.view(vm.current, page))
      ensures rc.NoMemory? && lo >= KERNEL_VPAGE ==> vm.Counts() == old(vm.Counts())
    {
      hide Linked, Distinct, Bounded, Balanced, HeaderBytes, vm.Valid, Held, Apart, BodyUnmapped, Canonical, IsFree,
           SameBut, OnlyFreePages, NoneFree, Position;
      ghost var was := list;
      GiveReady(was.heads, ranges, was.holes, lo, hi, page, n);
      GiveFree(was.holes, lo, hi, page, n);
      assert InRun(page, page, n);
      rc := InsertHole(prev, it, k, page, n);
      if rc.NoMemory? { return; }
      Headed();
      SettledMoved(was.heads, list.heads, old(vm.view), vm.view, vm.ram.dirs, vm.current, page, page);
      OnlyFreeTwo(list.holes, old(vm.view), vm.view, vm.ram.dirs, vm.current, page, page);
      GivenBody(was, list, lo, hi, page, n, old(vm.view), vm.view, vm.current);
    }

    /** range_allocator_free: exactly these pages come back, glued to the holes they
        touch; a range that is not inside the allocator's is refused. A frame or page
        table can be missing only where a header has to go to a new page. */
    method Free(addr: int, size: int, ghost page: int, ghost n: nat) returns (r: FreeResult)
      requires Valid() && ranges != 0 && 0 <= addr && 0 < size && addr + size <= WORD - PAGE_SIZE
      requires addr == page * PAGE_SIZE && n > 0 && RoundUp(size) == n * PAGE_SIZE && NoneFree(list.holes, page, n)
      requires forall w :: InRun(w, page, n) ==> vm.view(vm.current, w).Unmapped?
      modifies this`list, this`ranges, vm`ram, vm`owners, vm`view, vm.pa, vm.pa.bitmap, vm.pa.refCounts
      ensures Valid() && Quiet()
      ensures r.Invalid? <==> page < lo || hi < page + n
      ensures !r.Freed? ==> list == old(list) && vm.view == old(vm.view)
      ensures !r.Invalid? ==>
                var k := Position(old(list.holes), page);
                && (r.Freed? <==>
                      Headable(old(list.holes), k, page, n, old(vm.Counts()), old(vm.ram.pdes), vm.current))
                && (lo >= KERNEL_VPAGE && r.Freed? && !(k > 0 && old(list.holes)[k - 1].End() == page) ==>
                      HeaderCounted(old(list.holes), k, page, n, old(vm.Counts()), vm.Counts(), old(vm.view), vm.view,
                                    vm.current))
      ensures lo >= KERNEL_VPAGE && !r.Invalid? ==>
                (r.OutOfMemory? <==>
                  |FreeSet(old(vm.Counts()))| == 0
                  && !Touches(old(list.holes), Position(old(list.holes), page), page, n))
      ensures r.OutOfMemory? && lo >= KERNEL_VPAGE ==> vm.Counts() == old(vm.Counts())
      ensures r.Freed? ==> list.holes == Give(old(list.holes), Position(old(list.holes), page), page, n)
                           && OnlyFreePages(list.holes, old(vm.view), vm.view, vm.ram.dirs, vm.current)
    {
      hide Canonical, BodyUnmapped, Balanced, HeaderBytes, IsFree, Linked, Held, Apart, RoundUp, Give, Position,
           NoneFree, OnlyFreePages, Touches;
      WholePages(addr, size, page, n, lo, hi);
      if addr < lo * PAGE_SIZE || hi * PAGE_SIZE < addr + RoundUp(size) {
        NothingDone(list.heads, vm.view, vm.current, vm.Counts(), vm.ram.pages);
        return Invalid;
      }
      ghost var k: nat;
      var prev, it;
      prev, it, k := FindPosition(addr / PAGE_SIZE);
      r := FreeAt(prev, it, k, addr / PAGE_SIZE, RoundUp(size) / PAGE_SIZE);
    }

    /** range_allocator_alloc, and then range_allocator_free of what it handed out. The
        assertion of the free that there is a hole fails exactly if the allocation took the
        last one whole; otherwise the list is the identical one again, unless the header of
        a new hole finds no frame, which in the kernel half does not happen. */
    method AllocThenFree(size: int) returns (r: AllocResult, stopped: bool, f: FreeResult)
      requires Valid() && ranges != 0 && 0 < size <= WORD - PAGE_SIZE
      modifies this`list, this`ranges, vm`ram, vm`owners, vm`view, vm.pa, vm.pa.bitmap, vm.pa.refCounts
      ensures Valid() && (!r.Address? ==> !stopped && f.Freed? && list == old(list))
      ensures r.Address? ==>
                (stopped <==> |old(list.holes)| == 1 && old(list.holes)[0].size == RoundUp(size) / PAGE_SIZE)
      ensures r.Address? && !stopped && f.Freed? ==> list.holes == old(list.holes)
      ensures r.Address? && (stopped || !f.Freed?) ==>
                var n := RoundUp(size) / PAGE_SIZE;
                var k := FirstFit(old(list.holes), n);
                n > 0 && k < |old(list.holes)| && list.holes == Take(old(list.holes), k, n)
      ensures lo >= KERNEL_VPAGE && SoleHeads(old(list.heads), old(vm.view), vm.current, old(vm.Counts()))
              && r.Address? ==>
                && f.Freed?
                && (!stopped ==> (vm.Counts() == old(vm.Counts()) <==>
                      HeaderReturns(old(list.holes), PagesFor(size), old(vm.Counts()), old(vm.view), vm.current)))
    {
      hide Canonical, BodyUnmapped, Balanced, HeaderBytes, IsFree, Linked, Held, Apart, SoleHeads, vm.Valid, Take, Give,
           FirstFit, Position, TakeCounted, HeaderCounted, HeaderReturns, FreeSet, SoleAt, AtMostOneAt, OnlyFreePages,
           RoundUp,
           Touches, Headable, TakeFails, RunFree, NoneFree;
      ghost var was, view0, counts0 := list, vm.view, vm.Counts();
      Sizes();
      ghost var alone := lo >= KERNEL_VPAGE && SoleHeads(was.heads, view0, vm.current, counts0);
      RoundUpPages(size);
      ghost var n := PagesFor(size);
      FirstFitIsLowest(was.holes, lo, hi, n);
      stopped, f := false, Freed;
      ghost var k := FirstFit(was.holes, n);
      if alone && k < |was.holes| { HeadAlone(k); }
      r := Alloc(size);
      if !r.Address? { return; }
      TakenAll(was.holes, k, n);
      SomeHole();
      if ranges == 0 {
        stopped := true;
        return;
      }
      TakenRun(was.holes, lo, hi, k, n);
      TakeThenGive(was.holes, lo, hi, k, n);
      TakenAround(was.holes, lo, hi, k, n);
      ghost var taken, counts, view := list, vm.Counts(), vm.view;
      Sizes();
      if alone {
        Conserved(was.heads, view0, counts0, taken.heads, view, counts, vm.current);
        StillSole(was.heads, view0, counts0, taken.heads, view, counts, vm.current);
        if n < was.holes[k].size { HeadAlone(k); }
      }
      if n < was.holes[k].size { TakenRest(was.holes, lo, hi, k, n); }
      f := Free(r.addr, size, was.holes[k].page, n);
      if alone {
        CountsReturn(was.holes, lo, hi, n, counts0, counts, vm.Counts(), view0, vm.current, view, vm.view, vm.current,
                     was.holes[k].page);
      }
    }

    /** Two runs that do not overlap, given back in either order: the list is the same. */
    method FreeBoth(p: int, m: nat, q: int, n: nat, qFirst: bool) returns (first: FreeResult, second: FreeResult)
      requires Valid() && ranges != 0 && m > 0 && n > 0 && lo <= p && p + m <= hi && lo <= q && q + n <= hi
      requires NoneFree(list.holes, p, m) && NoneFree(list.holes, q, n) && (p + m <= q || q + n <= p)
      requires forall w :: InRun(w, p, m) || InRun(w, q, n) ==> vm.view(vm.current, w).Unmapped?
      modifies this`list, this`ranges, vm`ram, vm`owners, vm`view, vm.pa, vm.pa.bitmap, vm.pa.refCounts
      ensures Valid()
      ensures first.Freed? && second.Freed? ==>
                var one := Give(old(list.holes), Position(old(list.holes), p), p, m);
                list.holes == Give(one, Position(one, q), q, n) != []
    {
      hide Canonical, BodyUnmapped, Balanced, HeaderBytes, IsFree, Linked, Held, Apart, RoundUp, Give, Position;
      ghost var holes := list.holes;
      GiveCommutes(holes, lo, hi, p, m, q, n);
      GivenApart(holes, lo, hi, p, m, q, n);
      GivenApart(holes, lo, hi, q, n, p, m);
      GivenSome(Give(holes, Position(holes, p), p, m), q, n);
      RoundUpIs(m * PAGE_SIZE, m);
      RoundUpIs(n * PAGE_SIZE, n);
      if qFirst {
        first := Free(q * PAGE_SIZE, n * PAGE_SIZE, q, n);
        if !first.Freed? { return first, first; }
        SomeHole();
        second := Free(p * PAGE_SIZE, m * PAGE_SIZE, p, m);
      } else {
        first := Free(p * PAGE_SIZE, m * PAGE_SIZE, p, m);
        if !first.Freed? { return first, first; }
        SomeHole();
        second := Free(q * PAGE_SIZE, n * PAGE_SIZE, q, n);
      }
    }

    /** The three ways to put the pages back before hole k. */
    method FreeAt(prev: int, it: int, ghost k: nat, page: int, n: int) returns (r: FreeResult)
      requires Valid() && n > 0 && lo <= page && page + n <= hi && NoneFree(list.holes, page, n)
      requires forall w :: InRun(w, page, n) ==> vm.view(vm.current, w).Unmapped?
      requires k == Position(list.holes, page) && it == Ptr(list.holes, k) && prev == Before(list.holes, k)
      modifies this`list, this`ranges, vm`ram, vm`owners, vm`view, vm.pa, vm.pa.bitmap, vm.pa.refCounts
      ensures Valid() && Quiet() && !r.Invalid?
      ensures r.Freed? ==> list.holes == Give(old(list.holes), k, page, n)
                           && OnlyFreePages(list.holes, old(vm.view), vm.view, vm.ram.dirs, vm.current)
      ensures r.OutOfMemory? ==> list == old(list) && vm.view == old(vm.view)
      ensures r.Freed? <==> Headable(old(list.holes), k, page, n, old(vm.Counts()), old(vm.ram.pdes), vm.current)
      ensures lo >= KERNEL_VPAGE ==>
                (r.OutOfMemory? <==> |FreeSet(old(vm.Counts()))| == 0 && !Touches(old(list.holes), k, page, n))
      ensures lo >= KERNEL_VPAGE && r.Freed? && !(k > 0 && old(list.holes)[k - 1].End() == page) ==>
                HeaderCounted(old(list.holes), k, page, n, old(vm.Counts()), vm.Counts(), old(vm.view), vm.view,
                              vm.current)
      ensures r.OutOfMemory? && lo >= KERNEL_VPAGE ==> vm.Counts() == old(vm.Counts())
    {
      hide Linked, Distinct, Bounded, Balanced, HeaderBytes, vm.Valid, Held, Apart, BodyUnmapped, Canonical, IsFree,
           OnlyFreePages, NoneFree, Give;
      var rc;
      Around(k);
      if lo >= KERNEL_VPAGE {
        vm.KernelEnough(page, 0);
        vm.KernelEnough(page, 1);
      }
      if prev != 0 {
        var size := GetSize(prev / PAGE_SIZE);
        if prev + size == page * PAGE_SIZE {
          GlueLow(prev, it, k, page, n);
          return Freed;
        }
      }
      if it != 0 && it == (page + n) * PAGE_SIZE {
        rc := GlueHigh(prev, it, k, page, n);
      } else {
        rc := GiveApart(prev, it, k, page, n);
      }
      r := if rc.Ok? then Freed else OutOfMemory;
    }

    /** A step of paging that keeps the kernel half keeps an allocator there. */
    twostate lemma Survives()
      requires old(Valid()) && vm.Valid() && list == old(list) && ranges == old(ranges) && lo >= KERNEL_VPAGE
      requires KernelKept(old(vm.view), old(vm.current), old(vm.Counts()), old(vm.ram.pages),
                          vm.view, vm.current, vm.Counts(), vm.ram.pages)
      ensures Valid()
    {
      forall w | w in list.heads ensures InUse(old(vm.Counts()), old(vm.view)(old(vm.current), w).entry.frame) {
        MappedUsed(old(vm.view), old(vm.ram), old(vm.Counts()), old(vm.current), w);
      }
      KernelKeptHeaders(list, lo, hi, old(vm.view), old(vm.current), old(vm.Counts()), old(vm.ram.pages),
                        vm.view, vm.current, vm.Counts(), vm.ram.pages);
    }

    /** A step that leaves the headers in place, and no more of the free pages mapped. */
    twostate lemma Remains()
      requires old(Valid()) && vm.Valid() && list == old(list) && ranges == old(ranges)
      requires Held(list.heads, vm.view, vm.current, vm.ram.pages) && BodyUnmapped(list, vm.view, vm.current)
      ensures Valid()
    {
    }

    lemma Sizes()
      requires Valid()
      ensures |list.heads| == |list.holes| && Apart(list.heads, vm.view, vm.current)
    {
      HeadersSize(list.heads, ranges, list.holes);
    }

    /** A header is on a frame of its own. */
    lemma HeadAlone(k: nat)
      requires Valid() && k < |list.holes| && SoleHeads(list.heads, vm.view, vm.current, vm.Counts())
      ensures SoleAt(vm.Counts(), vm.view(vm.current, list.holes[k].page))
      ensures AtMostOneAt(vm.Counts(), vm.view(vm.current, list.holes[k].page))
    {
      assert LinkedAt(list.heads, list.holes, k);
    }

    /** Every hole less, after an operation in the kernel half, is a free frame more. */
    twostate lemma FramesConserved()
      requires old(Valid()) && Valid() && Quiet() && lo >= KERNEL_VPAGE
      requires SoleHeads(old(list.heads), old(vm.view), old(vm.current), old(vm.Counts()))
      ensures |FreeSet(vm.Counts())| + |list.holes| == |FreeSet(old(vm.Counts()))| + |old(list.holes)|
    {
      HeadersSize(list.heads, ranges, list.holes);
      HeadersSize(old(list.heads), old(ranges), old(list.holes));
      Conserved(old(list.heads), old(vm.view), old(vm.Counts()), list.heads, vm.view, vm.Counts(), vm.current);
    }

    /** The source's assertion that there is a hole. */
    lemma SomeHole()
      requires Valid()
      ensures ranges != 0 <==> list.holes != []
    {
    }

    /** The pages of the headers are free pages, on frames that exist. */
    lemma HeadsFree()
      requires Valid()
      ensures forall w :: w in list.heads ==>
                && IsFree(list.holes, w) && lo <= w < hi
                && vm.view(vm.current, w).Mapped? && InUse(vm.Counts(), vm.view(vm.current, w).entry.frame)
                && |vm.ram.pages| == |vm.Counts()|
    {
      forall w | w in list.heads
        ensures IsFree(list.holes, w) && lo <= w < hi && InUse(vm.Counts(), vm.view(vm.current, w).entry.frame)
      {
        HeadFree(list.holes, lo, hi, w);
        vm.MappedInUse(vm.current, w);
      }
    }
  }
}
