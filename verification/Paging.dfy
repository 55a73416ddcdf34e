/** Two-level paging (kernel/memory/paging.c): page tables and directories
    edited in place over the reference-counted page allocator. Virtual pages are
    numbered; page v is slot v % 1024 of directory slot v / 1024. */
module Paging {
  import opened Basics
  import opened Frames
  import opened Tables
  import opened Cloning
  import opened Words
  import opened Ledger

  /** 0 or -ENOMEM. */
  datatype Status = Ok | NoMemory

  const PAGE_GLOBAL := 0x100
  const PAGE_PRESENT_WRITE_USER := 0x7

  /** What physical memory holds, by the use its frames are put to: the page
      tables and page directories with their present entries, and the bytes of
      every frame. */
  datatype Ram = Ram(tables: set<int>, ptes: Store, dirs: set<int>, pdes: Store, pages: seq<Page>)

  datatype Owners = Owners(of: map<int, Slot>)

  /** Directory `current` may have got page tables for its user half, present, writable and for user
      mode; nothing else changed. */
  ghost predicate AddsTables(was: Store, now: Store, current: int) {
    && (forall s :: s in was ==> s in now && now[s] == was[s])
    && (forall s :: s in now && s !in was ==>
          s.table == current && s.index < KERNEL_PDE_IDX && now[s].flags == PAGE_PRESENT_WRITE_USER)
  }

  /** Page tables that nothing names have been added. */
  ghost predicate Leaks(tables0: set<int>, leaked0: set<int>, tables: set<int>, leaked: set<int>) {
    exists more: set<int> :: more !! tables0 && tables == tables0 + more && leaked == leaked0 + more
  }

  lemma ReflectsSame(view: (int, int) -> Mapping, ram: Ram, ram': Ram)
    requires Reflects(view, ram) && ram'.dirs == ram.dirs && ram'.pdes == ram.pdes && ram'.ptes == ram.ptes
    ensures Reflects(view, ram')
  {
  }

  lemma ReflectsAll(view: (int, int) -> Mapping, ram: Ram)
    requires Reflects(view, ram)
    ensures forall c, v :: c in ram.dirs ==> view(c, v) == Translate(c, ram.pdes, ram.ptes, v)
  {
  }

  /** A kernel page on a frame with one reference: no user table of directory d names the frame. */
  lemma KernelFrameUnnamed(ram: Ram, counts: seq<RefCount>, owner: map<int, Slot>, kernelPd: int, d: int, w: int)
    requires Accounted(counts, ram.tables, ram.ptes) && Owned(ram.dirs, ram.pdes, ram.tables, owner, kernelPd)
    requires w >= KERNEL_VPAGE && Translate(d, ram.pdes, ram.ptes, w).Mapped?
    requires var f := Translate(d, ram.pdes, ram.ptes, w).entry.frame; f < |counts| && counts[f] == 1
    ensures !NamedIn(UserTables(ram.pdes, d), ram.ptes, Translate(d, ram.pdes, ram.ptes, w).entry.frame)
  {
    OtherTables(ram.dirs, ram.pdes, ram.tables, owner, kernelPd, d, Pde(d, w));
    NamedElsewhere(counts, ram.tables, ram.ptes, Pte(ram.pdes, d, w), UserTables(ram.pdes, d));
  }

  /** Cloning the user half leaves the kernel half alone. */
  lemma KernelKeptByClone(ram0: Ram, pdes1: Store, view0: (int, int) -> Mapping, d: int, counts0: seq<RefCount>,
                          owner: map<int, Slot>, kernelPd: int, dst: int,
                          view: (int, int) -> Mapping, counts: seq<RefCount>, pages: seq<Page>)
    requires Accounted(counts0, ram0.tables, ram0.ptes) && Owned(ram0.dirs, ram0.pdes, ram0.tables, owner, kernelPd)
    requires Reflects(view0, ram0) && d in ram0.dirs && |ram0.pages| == |counts0| && |pages| == |ram0.pages|
    requires UserTables(pdes1, d) == UserTables(ram0.pdes, d)
    requires CountsBut(UserTables(pdes1, d), ram0.ptes, counts0, counts) && Grows(counts0, counts)
    requires Untouched(counts0, ram0.pages, pages) && forall w :: view(d, w) == view0(d, w)
    ensures KernelKept(view0, d, counts0, ram0.pages, view, d, counts, pages)
  {
    hide Accounted, Owned, UserTables, NamedIn;
    forall w | w >= KERNEL_VPAGE && view0(d, w).Mapped? && InUse(counts0, view0(d, w).entry.frame)
      ensures FrameKept(counts0, ram0.pages, counts, pages, view0(d, w).entry.frame)
    {
      assert view0(d, w) == Translate(d, ram0.pdes, ram0.ptes, w);
      if counts0[view0(d, w).entry.frame] == 1 { KernelFrameUnnamed(ram0, counts0, owner, kernelPd, d, w); }
    }
  }

  lemma KernelKeptSame(view: (int, int) -> Mapping, d: int, counts: seq<RefCount>, pages: seq<Page>)
    requires |pages| == |counts|
    ensures KernelKept(view, d, counts, pages, view, d, counts, pages)
  {
  }

  lemma KernelKeptView(view0: (int, int) -> Mapping, view: (int, int) -> Mapping, d: int, counts: seq<RefCount>,
                       pages: seq<Page>)
    requires |pages| == |counts| && forall w :: view(d, w) == view0(d, w)
    ensures KernelKept(view0, d, counts, pages, view, d, counts, pages)
  {
  }

  lemma KernelKeptThen(view0: (int, int) -> Mapping, d0: int, counts0: seq<RefCount>, pages0: seq<Page>,
                       view1: (int, int) -> Mapping, d1: int, counts1: seq<RefCount>, pages1: seq<Page>,
                       view: (int, int) -> Mapping, d: int, counts: seq<RefCount>, pages: seq<Page>)
    requires KernelKept(view0, d0, counts0, pages0, view1, d1, counts1, pages1)
    requires KernelKept(view1, d1, counts1, pages1, view, d, counts, pages)
    ensures KernelKept(view0, d0, counts0, pages0, view, d, counts, pages)
  {
    forall w | w >= KERNEL_VPAGE && view0(d0, w).Mapped? && InUse(counts0, view0(d0, w).entry.frame)
      ensures FrameKept(counts0, pages0, counts, pages, view0(d0, w).entry.frame)
    {
      assert view1(d1, w) == view0(d0, w);
      assert FrameKept(counts0, pages0, counts1, pages1, view0(d0, w).entry.frame);
    }
  }

  /** Releasing the user half leaves the kernel half alone. */
  lemma KernelKeptByRelease(ram0: Ram, view: (int, int) -> Mapping, d: int, counts0: seq<RefCount>,
                            owner: map<int, Slot>, kernelPd: int, tables: set<int>, ptes: Store, counts: seq<RefCount>)
    requires Accounted(counts0, ram0.tables, ram0.ptes) && Owned(ram0.dirs, ram0.pdes, ram0.tables, owner, kernelPd)
    requires Reflects(view, ram0) && d in ram0.dirs && |ram0.pages| == |counts0|
    requires Accounted(counts, tables, ptes) && SameSaturation(counts0, counts) && |counts| == |counts0|
    requires WithoutTables(ram0.ptes, ptes, UserTables(ram0.pdes, d))
    ensures KernelKept(view, d, counts0, ram0.pages, view, kernelPd, counts, ram0.pages)
  {
    hide Accounted, Owned, UserTables, SameSaturation, WithoutTables;
    KernelPdIn(ram0.dirs, ram0.pdes, ram0.tables, owner, kernelPd);
    forall w | w >= KERNEL_VPAGE ensures view(kernelPd, w) == view(d, w) {
      KernelHalfShared(ram0.dirs, ram0.pdes, ram0.tables, owner, kernelPd, ram0.ptes, kernelPd, d, w);
      assert view(d, w) == Translate(d, ram0.pdes, ram0.ptes, w)
             && view(kernelPd, w) == Translate(kernelPd, ram0.pdes, ram0.ptes, w);
    }
    forall w | w >= KERNEL_VPAGE && view(d, w).Mapped? && InUse(counts0, view(d, w).entry.frame)
      ensures FrameKept(counts0, ram0.pages, counts, ram0.pages, view(d, w).entry.frame)
    {
      assert view(d, w) == Translate(d, ram0.pdes, ram0.ptes, w);
      KernelFrameStays(ram0, counts0, owner, kernelPd, d, w, tables, ptes, counts);
    }
  }

  lemma KernelFrameStays(ram0: Ram, counts0: seq<RefCount>, owner: map<int, Slot>, kernelPd: int, d: int, w: int,
                         tables: set<int>, ptes: Store, counts: seq<RefCount>)
    requires Accounted(counts0, ram0.tables, ram0.ptes) && Owned(ram0.dirs, ram0.pdes, ram0.tables, owner, kernelPd)
    requires Accounted(counts, tables, ptes) && SameSaturation(counts0, counts)
    requires WithoutTables(ram0.ptes, ptes, UserTables(ram0.pdes, d))
    requires w >= KERNEL_VPAGE && Translate(d, ram0.pdes, ram0.ptes, w).Mapped?
    ensures var f := Translate(d, ram0.pdes, ram0.ptes, w).entry.frame;
            InUse(counts, f) && f < |counts0| && (counts0[f] == 1 ==> counts[f] == 1)
  {
    hide Accounted, Owned, UserTables, SameSaturation;
    var k, f := Pte(ram0.pdes, d, w), Translate(d, ram0.pdes, ram0.ptes, w).entry.frame;
    OtherTables(ram0.dirs, ram0.pdes, ram0.tables, owner, kernelPd, d, Pde(d, w));
    HolderInUse(counts, tables, ptes, k);
    HolderInUse(counts0, ram0.tables, ram0.ptes, k);
    if counts0[f] == 1 { SoleKept(counts0, ram0.tables, ram0.ptes, counts, tables, ptes, UserTables(ram0.pdes, d), k); }
  }

  lemma HolderInUse(counts: seq<RefCount>, tables: set<int>, ptes: Store, k: Slot)
    requires Accounted(counts, tables, ptes) && k in ptes
    ensures InUse(counts, ptes[k].frame)
  {
    HolderCounts(counts, tables, ptes, k);
  }

  lemma KernelPdIn(dirs: set<int>, pdes: Store, tables: set<int>, owner: map<int, Slot>, kernelPd: int)
    requires Owned(dirs, pdes, tables, owner, kernelPd)
    ensures kernelPd in dirs
  {
  }

  /** No two entries of a directory name the same page table. */
  lemma SolePlaces(dirs: set<int>, pdes: Store, tables: set<int>, owner: map<int, Slot>, kernelPd: int, d: int)
    requires Owned(dirs, pdes, tables, owner, kernelPd)
    ensures forall r, s | r in pdes && s in pdes && r.table == s.table == d :: pdes[r].frame == pdes[s].frame ==> r == s
  {
    forall r, s | r in pdes && s in pdes && r.table == s.table == d && pdes[r].frame == pdes[s].frame ensures r == s {
      assert Place(r) == owner[pdes[r].frame] == Place(s);
    }
  }

  lemma TablesEmpty(was: Store, now: Store, gone: set<int>)
    requires WithoutTables(was, now, gone)
    ensures forall s :: s in now ==> s.table !in gone
  {
  }

  lemma TablesOf(counts: seq<RefCount>, tables: set<int>, ptes: Store)
    requires Accounted(counts, tables, ptes)
    ensures forall s :: s in ptes ==> s.table in tables
  {
  }

  lemma SaturationSame(counts: seq<RefCount>)
    ensures SameSaturation(counts, counts)
  {
  }

  lemma SaturationThen(a: seq<RefCount>, b: seq<RefCount>, c: seq<RefCount>)
    requires SameSaturation(a, b) && SameSaturation(b, c)
    ensures SameSaturation(a, c)
  {
  }

  /** From the peak back, saturation is the same: so it is from the start to the end exactly
      if it was from the start to the peak. */
  lemma SaturationBack(a: seq<RefCount>, peak: seq<RefCount>, c: seq<RefCount>)
    requires SameSaturation(peak, c)
    ensures SameSaturation(a, c) <==> SameSaturation(a, peak)
  {
  }

  /** The kernel directory with its entries from the image up to index p. */
  ghost predicate KernelTables(pdes: Store, tables: set<int>, owner: map<int, Slot>, imageTable: int, p: int) {
    && (forall q :: Slot(0, q) in pdes <==> KERNEL_PDE_IDX <= q < p)
    && (forall s :: s in pdes ==> s.table == 0 && pdes[s].frame in tables
                                  && pdes[s].frame in owner && owner[pdes[s].frame] == Place(s))
    && (KERNEL_PDE_IDX < p ==> pdes[Slot(0, KERNEL_PDE_IDX)].frame == imageTable)
  }

  lemma KernelTablesStart(imageTable: int)
    ensures var s, e := Slot(0, KERNEL_PDE_IDX), Entry(imageTable, PAGE_PRESENT_WRITE_USER);
            && KernelTables(map[s := e], {imageTable}, map[imageTable := Slot(-1, KERNEL_PDE_IDX)], imageTable,
                            KERNEL_PDE_IDX + 1)
            && Tallied({imageTable}, map[s := e], {})
    requires imageTable >= 0
  {
    HungAdd(map[], Slot(0, KERNEL_PDE_IDX), Entry(imageTable, PAGE_PRESENT_WRITE_USER));
  }

  lemma KernelTablesStep(pdes: Store, tables: set<int>, owner: map<int, Slot>, imageTable: int, p: int, e: Entry)
    requires KernelTables(pdes, tables, owner, imageTable, p) && e.frame !in tables
             && KERNEL_PDE_IDX < p < RECURSIVE_IDX
    ensures KernelTables(pdes[Slot(0, p) := e], tables + {e.frame}, owner[e.frame := Slot(-1, p)], imageTable, p + 1)
    ensures Slot(0, p) !in pdes
  {
  }

  lemma KernelTablesOwned(pdes: Store, tables: set<int>, owner: map<int, Slot>, imageTable: int)
    requires KernelTables(pdes, tables, owner, imageTable, RECURSIVE_IDX)
    ensures Owned({0}, pdes, tables, owner, 0)
    ensures forall q :: Slot(0, q) in pdes <==> KERNEL_PDE_IDX <= q < RECURSIVE_IDX
    ensures pdes[Slot(0, KERNEL_PDE_IDX)].frame == imageTable
  {
    assert forall s :: s in pdes ==> Slot(0, s.index) == s;
  }

  /** At boot all frames in use are saturated. */
  lemma BootAccounts(counts: seq<RefCount>, imageTable: nat, image: Store)
    requires imageTable < |counts| && counts[imageTable] == UINT8_MAX
    requires forall f :: 0 <= f < |counts| ==> counts[f] == 0 || counts[f] == UINT8_MAX
    requires forall s :: s in image ==> s.table == imageTable && 0 <= s.index < ENTRIES && image[s].frame < |counts|
                                        && counts[image[s].frame] == UINT8_MAX && image[s].frame != imageTable
    ensures Accounted(counts, {imageTable}, image)
  {
    forall f | 0 <= f < |counts| && counts[f] == 0 ensures References({imageTable}, image, f) == 0 {
      assert Holders(image, f) == {};
    }
  }

  /** The loop of paging_create_page_directory, at index p. */
  ghost predicate HalfCopied(pdes: Store, after: Store, d: int, dst: int, p: int) {
    && (forall s :: s in pdes ==> s in after && after[s] == pdes[s])
    && (forall s :: s in after && s !in pdes ==> s.table == dst && KERNEL_PDE_IDX <= s.index < p)
    && (forall q {:trigger Slot(d, q)} :: KERNEL_PDE_IDX <= q < RECURSIVE_IDX ==>
        Slot(d, q) in pdes && Slot(dst, q) !in pdes)
    && (forall q {:trigger Slot(dst, q)} :: KERNEL_PDE_IDX <= q < p ==>
          Slot(dst, q) in after && Slot(d, q) in pdes && after[Slot(dst, q)] == pdes[Slot(d, q)])
  }

  lemma HalfCopiedNone(dirs: set<int>, pdes: Store, tables: set<int>, owner: map<int, Slot>, kernelPd: int, d: int,
                       dst: int)
    requires Owned(dirs, pdes, tables, owner, kernelPd) && d in dirs && dst !in dirs
    ensures HalfCopied(pdes, pdes, d, dst, KERNEL_PDE_IDX) && d >= 0
  {
  }

  lemma HalfCopiedStep(pdes: Store, was: Store, d: int, dst: int, p: int)
    requires KERNEL_PDE_IDX <= p < RECURSIVE_IDX && HalfCopied(pdes, was, d, dst, p)
    ensures Slot(d, p) in pdes && HalfCopied(pdes, was[Slot(dst, p) := pdes[Slot(d, p)]], d, dst, p + 1)
  {
    assert Slot(d, p) in pdes && Slot(dst, p) !in pdes;
  }

  lemma HalfCopiedAll(pdes: Store, after: Store, d: int, dst: int)
    requires HalfCopied(pdes, after, d, dst, RECURSIVE_IDX)
    ensures WithKernelHalf(pdes, after, d, dst)
  {
  }

  lemma WithoutNone(ptes: Store, counts: seq<RefCount>)
    ensures WithoutTables(ptes, ptes, {}) && SameSaturation(counts, counts)
  {
  }

  lemma WithoutMore(was: Store, mid: Store, now: Store, gone: set<int>, t: int)
    requires WithoutTables(was, mid, gone) && WithoutTables(mid, now, {t})
    ensures WithoutTables(was, now, gone + {t})
  {
  }

  lemma UserTableIn(pdes: Store, d: int, i: int)
    requires Slot(d, i) in pdes && i < KERNEL_PDE_IDX
    ensures pdes[Slot(d, i)].frame in UserTables(pdes, d)
  {
  }

  lemma AllUserTables(pdes: Store, d: int, gone: set<int>)
    requires gone <= UserTables(pdes, d)
    requires forall s :: s in pdes && s.table == d && s.index < KERNEL_PDE_IDX ==> pdes[s].frame in gone
    ensures gone == UserTables(pdes, d)
  {
  }

  lemma AddsNothing(pdes: Store, current: int)
    ensures AddsTables(pdes, pdes, current)
  {
  }

  lemma AddsOne(pdes: Store, current: int, s: Slot, e: Entry)
    requires s !in pdes && s.table == current && s.index < KERNEL_PDE_IDX && e.flags == PAGE_PRESENT_WRITE_USER
    ensures AddsTables(pdes, pdes[s := e], current)
  {
  }

  /** Every page table is present, writable and for user mode. */
  ghost predicate Usable(pdes: Store) {
    forall s :: s in pdes ==> pdes[s].flags == PAGE_PRESENT_WRITE_USER
  }

  lemma UsableMore(pdes: Store, s: Slot, e: Entry)
    requires Usable(pdes) && e.flags == PAGE_PRESENT_WRITE_USER
    ensures Usable(pdes[s := e])
  {
  }

  /** The kernel half has all its page tables. */
  lemma KernelPde(dirs: set<int>, pdes: Store, tables: set<int>, owner: map<int, Slot>, kernelPd: int, d: int, v: int)
    requires Owned(dirs, pdes, tables, owner, kernelPd) && d in dirs && v < VPAGES
    ensures v >= KERNEL_VPAGE ==> Pde(d, v) in pdes
  {
    assert Pde(d, v) == Slot(d, v / ENTRIES);
  }

  lemma AddsTwice(was: Store, mid: Store, now: Store, current: int)
    requires AddsTables(was, mid, current) && AddsTables(mid, now, current)
    ensures AddsTables(was, now, current)
  {
  }

  /** So many frames were taken if there were so many, or else all there were. */
  ghost predicate Afforded(counts: seq<RefCount>, now: seq<RefCount>, m: nat, ok: bool) {
    && (ok <==> |FreeSet(counts)| >= m)
    && |FreeSet(now)| == if ok then |FreeSet(counts)| - m else 0
  }

  ghost function Absent(pdes: Store, s: Slot): nat {
    if s in pdes then 0 else 1
  }

  /** There are frames for m pages, and for the page table at s if there is none. */
  ghost predicate Enough(counts: seq<RefCount>, pdes: Store, s: Slot, m: nat) {
    |FreeSet(counts)| >= m + Absent(pdes, s)
  }

  /** Exactly so many frames have been taken, and the page table is there. */
  ghost predicate Took(counts: seq<RefCount>, now: seq<RefCount>, pdes: Store, pdes': Store, s: Slot, m: nat) {
    |FreeSet(counts)| == |FreeSet(now)| + m + Absent(pdes, s) && pdes'.Keys == pdes.Keys + {s}
  }

  /** The slots of directory d that lack a page table for pages [v, v+n). */
  ghost function Missing(pdes: Store, d: int, v: int, n: nat): set<Slot> {
    set w | v <= w < v + n && Pde(d, w) !in pdes :: Pde(d, w)
  }

  lemma MissingNone(pdes: Store, d: int, v: int)
    ensures Missing(pdes, d, v, 0) == {} && pdes.Keys == pdes.Keys + Missing(pdes, d, v, 0)
  {
  }

  lemma MissingNext(pdes: Store, d: int, v: int, k: nat)
    ensures Missing(pdes, d, v, k + 1)
            == Missing(pdes, d, v, k) + if Pde(d, v + k) in pdes then {} else {Pde(d, v + k)}
  {
    var more := if Pde(d, v + k) in pdes then {} else {Pde(d, v + k)};
    forall s ensures s in Missing(pdes, d, v, k + 1) <==> s in Missing(pdes, d, v, k) + more {
      if s in Missing(pdes, d, v, k + 1) {
        var w :| v <= w < v + (k + 1) && Pde(d, w) !in pdes && Pde(d, w) == s;
        if w < v + k { assert v <= w < v + k; }
      }
      if s in Missing(pdes, d, v, k) {
        var w :| v <= w < v + k && Pde(d, w) !in pdes && Pde(d, w) == s;
        assert v <= w < v + (k + 1);
      }
    }
  }

  /** Mapping the first k pages from v on took `m` frames for pages, and one for each page
      table that was missing. */
  ghost predicate Spent(counts0: seq<RefCount>, counts: seq<RefCount>, pdes0: Store, pdes: Store, d: int, v: int,
                        k: nat, m: nat)
  {
    && |FreeSet(counts0)| == |FreeSet(counts)| + m + |Missing(pdes0, d, v, k)|
    && pdes.Keys == pdes0.Keys + Missing(pdes0, d, v, k)
  }

  lemma SpentNone(counts: seq<RefCount>, pdes: Store, d: int, v: int)
    ensures Spent(counts, counts, pdes, pdes, d, v, 0, 0)
  {
    MissingNone(pdes, d, v);
  }

  /** Page v + k gets its page table, if none of the k pages before it has made it. */
  lemma SpentStep(counts0: seq<RefCount>, counts: seq<RefCount>, now: seq<RefCount>, pdes0: Store, pdes: Store,
                  pdes': Store, d: int, v: int, k: nat, m: nat, x: nat)
    requires Spent(counts0, counts, pdes0, pdes, d, v, k, m)
    requires Took(counts, now, pdes, pdes', Pde(d, v + k), x)
    ensures Spent(counts0, now, pdes0, pdes', d, v, k + 1, m + x)
  {
    hide Missing, Pde;
    MissingNext(pdes0, d, v, k);
    OneMore(pdes0.Keys, Missing(pdes0, d, v, k), Pde(d, v + k));
  }

  /** There is no frame for page v + k. */
  lemma SpentUp(counts0: seq<RefCount>, counts: seq<RefCount>, pdes0: Store, pdes: Store, d: int, v: int, k: nat,
                m: nat, x: nat, n: nat)
    requires Spent(counts0, counts, pdes0, pdes, d, v, k, m) && k < n
    requires !Enough(counts, pdes, Pde(d, v + k), x)
    ensures |FreeSet(counts0)| < m + x + |Missing(pdes0, d, v, n)|
  {
    hide Missing, Pde;
    MissingNext(pdes0, d, v, k);
    OneMore(pdes0.Keys, Missing(pdes0, d, v, k), Pde(d, v + k));
    MissingGrows(pdes0, d, v, k + 1, n);
  }

  lemma SpentAll(counts0: seq<RefCount>, counts: seq<RefCount>, pdes0: Store, pdes: Store, d: int, v: int, k: nat,
                 m: nat)
    requires Spent(counts0, counts, pdes0, pdes, d, v, k, m)
    ensures |FreeSet(counts0)| == |FreeSet(counts)| + m + |Missing(pdes0, d, v, k)|
    ensures pdes.Keys == pdes0.Keys + Missing(pdes0, d, v, k)
  {
  }

  lemma {:induction false} MissingGrows(pdes: Store, d: int, v: int, k: nat, n: nat)
    requires k <= n
    ensures |Missing(pdes, d, v, k)| <= |Missing(pdes, d, v, n)|
    decreases n - k
  {
    if k < n {
      MissingNext(pdes, d, v, k);
      SubsetSize(Missing(pdes, d, v, k), Missing(pdes, d, v, k + 1));
      MissingGrows(pdes, d, v, k + 1, n);
    }
  }

  lemma NoneMissing(dirs: set<int>, pdes: Store, tables: set<int>, owner: map<int, Slot>, kernelPd: int, d: int,
                    v: int, n: nat)
    requires Owned(dirs, pdes, tables, owner, kernelPd) && d in dirs && KERNEL_VPAGE <= v && v + n <= VPAGES
    ensures Missing(pdes, d, v, n) == {}
  {
    forall w | v <= w < v + n ensures Pde(d, w) in pdes { KernelPde(dirs, pdes, tables, owner, kernelPd, d, w); }
  }

  lemma PrivacyKept(m: Mapping, n: Mapping, shared: bool)
    requires if shared then m.Unmapped? && n.Mapped? && IsShared(n.entry.flags) else n == m
    ensures IsPrivate(n) <==> IsPrivate(m)
  {
  }

  lemma LeaksNone(tables: set<int>, leaked: set<int>)
    ensures Leaks(tables, leaked, tables, leaked)
  {
    assert {} !! tables && tables == tables + {} && leaked == leaked + {};
  }

  lemma LeaksOne(tables: set<int>, leaked: set<int>, t: int)
    requires t !in tables
    ensures Leaks(tables, leaked, tables + {t}, leaked + {t})
  {
    assert {t} !! tables;
  }

  /** The new tables are in no directory, so the tally holds again. */
  lemma LeaksTallied(tables0: set<int>, leaked0: set<int>, tables: set<int>, leaked: set<int>, pdes: Store)
    requires Tallied(tables0, pdes, leaked0) && Leaks(tables0, leaked0, tables, leaked)
    ensures Tallied(tables, pdes, leaked) && tables0 <= tables
  {
  }

  ghost predicate Reflects(view: (int, int) -> Mapping, ram: Ram) {
    forall c, v {:trigger Translate(c, ram.pdes, ram.ptes, v)} :: c in ram.dirs ==>
      view(c, v) == Translate(c, ram.pdes, ram.ptes, v)
  }

  ghost function Override(view: (int, int) -> Mapping, current: int, v: int, m: Mapping): (int, int) -> Mapping {
    (c, w) => if w == v && (c == current || v >= KERNEL_VPAGE) then m else view(c, w)
  }

  predicate SeesRange(c: int, w: int, current: int, v: int, n: nat) {
    v <= w < v + n && (c == current || w >= KERNEL_VPAGE)
  }

  /** `now` is `was` outside pages [v, v+n) of directory `current` (and of every
      directory, for pages of the kernel half). */
  ghost predicate SameOutside(was: (int, int) -> Mapping, now: (int, int) -> Mapping, dirs: set<int>, current: int,
                              v: int, n: nat)
  {
    forall c, w :: c in dirs && !SeesRange(c, w, current, v, n) ==> now(c, w) == was(c, w)
  }

  /** The kernel half maps as before, and the frames behind it hold what they held; those with
      one reference have one still. */
  ghost predicate KernelKept(view0: (int, int) -> Mapping, d0: int, counts0: seq<RefCount>, pages0: seq<Page>,
                             view: (int, int) -> Mapping, d: int, counts: seq<RefCount>, pages: seq<Page>)
  {
    && |counts| == |counts0| && |pages| == |pages0|
    && (forall w :: w >= KERNEL_VPAGE ==> view(d, w) == view0(d0, w))
    && forall w :: w >= KERNEL_VPAGE && view0(d0, w).Mapped? && InUse(counts0, view0(d0, w).entry.frame) ==>
         FrameKept(counts0, pages0, counts, pages, view0(d0, w).entry.frame)
  }

  ghost predicate FrameKept(counts0: seq<RefCount>, pages0: seq<Page>, counts: seq<RefCount>, pages: seq<Page>,
                            f: nat)
  {
    && InUse(counts, f) && f < |pages| && f < |pages0| && f < |counts0| && pages[f] == pages0[f]
    && (counts0[f] == 1 ==> counts[f] == 1)
  }

  /** Pages [v, v+n) of directory d are mapped with these flags, on distinct frames
      that were free in `counts`. */
  ghost predicate FreshRange(now: (int, int) -> Mapping, d: int, v: int, n: nat, flags: nat, counts: seq<RefCount>) {
    && (forall w :: v <= w < v + n ==>
                      now(d, w).Mapped? && now(d, w).entry.flags == flags && WasFree(counts, now(d, w).entry.frame))
    && (forall w, x :: v <= w < x < v + n ==> now(d, w).entry.frame != now(d, x).entry.frame)
  }

  /** Pages [v, v+n) of directory d are mapped with these flags. */
  ghost predicate Flagged(now: (int, int) -> Mapping, d: int, v: int, n: nat, flags: nat) {
    forall w {:trigger now(d, w)} :: v <= w < v + n ==> now(d, w).Mapped? && now(d, w).entry.flags == flags
  }

  /** Pages [to, to+n) of directory d have the frames that [from, from+n) had. */
  ghost predicate CopiedRange(was: (int, int) -> Mapping, now: (int, int) -> Mapping, d: int, to: int, from: int,
                              n: nat, flags: nat)
    requires forall w :: from <= w < from + n ==> was(d, w).Mapped?
  {
    forall w :: to <= w < to + n ==> now(d, w) == Mapped(Entry(was(d, from + (w - to)).entry.frame, flags))
  }

  lemma OutsideStep(was: (int, int) -> Mapping, mid: (int, int) -> Mapping, dirs: set<int>, current: int, v: int,
                    k: nat, m: Mapping)
    requires SameOutside(was, mid, dirs, current, v, k)
    ensures SameOutside(was, Override(mid, current, v + k, m), dirs, current, v, k + 1)
  {
  }

  lemma FreshStep(mid: (int, int) -> Mapping, d: int, v: int, k: nat, flags: nat, counts: seq<RefCount>,
                  now: seq<RefCount>, e: Entry)
    requires FreshRange(mid, d, v, k, flags, counts)
    requires forall w :: v <= w < v + k ==> InUse(now, mid(d, w).entry.frame)
    requires e.flags == flags && WasFree(counts, e.frame) && WasFree(now, e.frame)
    ensures FreshRange(Override(mid, d, v + k, Mapped(e)), d, v, k + 1, flags, counts)
  {
  }

  /** The first k pages of a run from v on have been mapped to free frames. */
  ghost predicate MappedUpTo(view0: (int, int) -> Mapping, counts0: seq<RefCount>, view: (int, int) -> Mapping,
                             counts: seq<RefCount>, dirs: set<int>, d: int, v: int, k: nat, flags: nat)
  {
    && SameOutside(view0, view, dirs, d, v, k) && FreshRange(view, d, v, k, flags, counts0) && Grows(counts0, counts)
    && (v >= KERNEL_VPAGE ==> Charged(counts0, counts, view, d, v, k))
  }

  lemma MappedNone(view: (int, int) -> Mapping, dirs: set<int>, d: int, v: int, flags: nat, counts: seq<RefCount>)
    ensures MappedUpTo(view, counts, view, counts, dirs, d, v, 0, flags)
  {
    ChargedNone(counts, view, d, v);
  }

  lemma MappedFacts(view0: (int, int) -> Mapping, counts0: seq<RefCount>, view: (int, int) -> Mapping,
                    counts: seq<RefCount>, dirs: set<int>, d: int, v: int, k: nat, flags: nat)
    requires MappedUpTo(view0, counts0, view, counts, dirs, d, v, k, flags)
    ensures SameOutside(view0, view, dirs, d, v, k) && FreshRange(view, d, v, k, flags, counts0)
            && Grows(counts0, counts)
    ensures v >= KERNEL_VPAGE ==> Charged(counts0, counts, view, d, v, k)
    ensures forall w :: v <= w < v + k ==> view(d, w).Mapped?
  {
  }

  /** No frame is left for page v + k; in the user half a page table may have been added. */
  lemma MappedStuck(view0: (int, int) -> Mapping, counts0: seq<RefCount>, view: (int, int) -> Mapping,
                    counts: seq<RefCount>, now: seq<RefCount>, dirs: set<int>, d: int, v: int, k: nat, flags: nat)
    requires MappedUpTo(view0, counts0, view, counts, dirs, d, v, k, flags) && Grows(counts, now)
    requires v >= KERNEL_VPAGE ==> now == counts && |FreeSet(now)| == 0
    ensures SameOutside(view0, view, dirs, d, v, k) && FreshRange(view, d, v, k, flags, counts0) && Grows(counts0, now)
    ensures v >= KERNEL_VPAGE ==> Charged(counts0, now, view, d, v, k) && |FreeSet(counts0)| == k
  {
    GrowsThen(counts0, counts, now);
  }

  lemma MappedStep(view0: (int, int) -> Mapping, counts0: seq<RefCount>, mid: (int, int) -> Mapping,
                   counts: seq<RefCount>, now: seq<RefCount>, dirs: set<int>, d: int, v: int, k: nat, flags: nat,
                   e: Entry)
    requires MappedUpTo(view0, counts0, mid, counts, dirs, d, v, k, flags) && Grows(counts, now)
    requires forall w :: v <= w < v + k && mid(d, w).Mapped? ==> InUse(counts, mid(d, w).entry.frame)
    requires e.flags == flags && WasFree(counts, e.frame) && (v >= KERNEL_VPAGE ==> Taken(counts, now, e.frame))
    ensures MappedUpTo(view0, counts0, Override(mid, d, v + k, Mapped(e)), now, dirs, d, v, k + 1, flags)
  {
    hide Charged;
    GrowsThen(counts0, counts, now);
    FreshStep(mid, d, v, k, flags, counts0, counts, e);
    OutsideStep(view0, mid, dirs, d, v, k, Mapped(e));
    if v >= KERNEL_VPAGE { ChargeStep(counts0, counts, now, mid, Override(mid, d, v + k, Mapped(e)), d, v, k); }
  }

  /** The first k of the n pages from v on have been unmapped. */
  ghost predicate UnmappedUpTo(view0: (int, int) -> Mapping, counts0: seq<RefCount>, view: (int, int) -> Mapping,
                               counts: seq<RefCount>, dirs: set<int>, d: int, v: int, k: nat, n: nat)
  {
    && d in dirs && SameOutside(view0, view, dirs, d, v, k)
    && (forall w :: v <= w < v + k ==> view(d, w).Unmapped?)
    && (SoleRange(counts0, view0, d, v, n) ==> Charged(counts, counts0, view0, d, v, k))
    && OnlyCarried(view0, d, v, k, counts0, counts) && NoneTaken(counts0, counts)
  }

  lemma UnmappedNone(view: (int, int) -> Mapping, counts: seq<RefCount>, dirs: set<int>, d: int, v: int, n: nat)
    requires d in dirs
    ensures UnmappedUpTo(view, counts, view, counts, dirs, d, v, 0, n)
  {
    ChargedNone(counts, view, d, v);
  }

  lemma UnmappedNext(view0: (int, int) -> Mapping, counts0: seq<RefCount>, view: (int, int) -> Mapping,
                     counts: seq<RefCount>, dirs: set<int>, d: int, v: int, k: nat, n: nat)
    requires UnmappedUpTo(view0, counts0, view, counts, dirs, d, v, k, n)
    ensures view(d, v + k) == view0(d, v + k)
  {
  }

  lemma UnmappedStep(view0: (int, int) -> Mapping, counts0: seq<RefCount>, view: (int, int) -> Mapping,
                     counts: seq<RefCount>, now: seq<RefCount>, dirs: set<int>, d: int, v: int, k: nat, n: nat)
    requires UnmappedUpTo(view0, counts0, view, counts, dirs, d, v, k, n) && k < n
    requires view0(d, v + k).Mapped? && Given(counts, now, view0(d, v + k).entry.frame)
    ensures UnmappedUpTo(view0, counts0, Override(view, d, v + k, Unmapped), now, dirs, d, v, k + 1, n)
  {
    hide SoleRange, Charged, OnlyCarried, SameOutside;
    if SoleRange(counts0, view0, d, v, n) { DischargeStep(counts0, counts, view0, d, v, k, n); }
    OutsideStep(view0, view, dirs, d, v, k, Unmapped);
    OnlyCarriedStep(view0, d, v, k, counts0, counts, now);
  }

  lemma UnmappedAll(view0: (int, int) -> Mapping, counts0: seq<RefCount>, view: (int, int) -> Mapping,
                    counts: seq<RefCount>, dirs: set<int>, d: int, v: int, n: nat)
    requires UnmappedUpTo(view0, counts0, view, counts, dirs, d, v, n, n)
    ensures SameOutside(view0, view, dirs, d, v, n) && forall w :: v <= w < v + n ==> view(d, w).Unmapped?
    ensures SoleRange(counts0, view0, d, v, n) ==> Charged(counts, counts0, view0, d, v, n)
    ensures OnlyCarried(view0, d, v, n, counts0, counts) && NoneTaken(counts0, counts)
  {
  }

  lemma ChargedSole(was: seq<RefCount>, now: seq<RefCount>, view: (int, int) -> Mapping, d: int, v: int, n: nat,
                    flags: nat)
    requires Charged(was, now, view, d, v, n) && FreshRange(view, d, v, n, flags, was)
    ensures SoleRange(now, view, d, v, n)
  {
    forall w | v <= w < v + n ensures now[view(d, w).entry.frame] == 1 {
      assert Carries(view, d, v, n, view(d, w).entry.frame);
    }
  }

  lemma CopiedStep(was: (int, int) -> Mapping, mid: (int, int) -> Mapping, d: int, to: int, from: int, k: nat,
                   flags: nat)
    requires forall w :: from <= w <= from + k ==> was(d, w).Mapped?
    requires CopiedRange(was, mid, d, to, from, k, flags)
    ensures var m := Mapped(Entry(was(d, from + k).entry.frame, flags));
            CopiedRange(was, Override(mid, d, to + k, m), d, to, from, k + 1, flags)
  {
  }

  class Paging {
    const pa: PageAllocator
    const kernelPd: int
    var ram: Ram
    var current: int
    var nextDirectory: int
    ghost var owners: Owners
    /** Page tables of failed clones, which nothing names any more. */
    ghost var leaked: set<int>
    /** What page v maps to through directory c. */
    ghost var view: (int, int) -> Mapping

    ghost predicate Valid()
      reads this, pa, pa.bitmap, pa.refCounts
    {
      && pa.Valid()
      && |ram.pages| == pa.refCounts.Length
      && Accounted(pa.Counts(), ram.tables, ram.ptes)
      && Owned(ram.dirs, ram.pdes, ram.tables, owners.of, kernelPd)
      && Tallied(ram.tables, ram.pdes, leaked)
      && current in ram.dirs
      && (forall d :: d in ram.dirs ==> d < nextDirectory)
      && Reflects(view, ram)
    }

    ghost function Counts(): seq<RefCount>
      reads pa.refCounts
    {
      pa.Counts()
    }

    /** The address space of the current directory. */
    ghost function At(v: int): Mapping
      reads this
    {
      view(current, v)
    }

    /** Mapping and unmapping from page v on moves no directory and no byte; page
        tables are only ever added, and never in the kernel half. */
    twostate predicate Keeps(v: int)
      reads this
    {
      && current == old(current) && nextDirectory == old(nextDirectory)
      && ram.pages == old(ram.pages) && ram.dirs == old(ram.dirs)
      && (v >= KERNEL_VPAGE ==> ram.pdes == old(ram.pdes))
      && AddsTables(old(ram.pdes), ram.pdes, current)
    }

    /** paging_init: the boot code has mapped the kernel image through directory
        slot 768; the page tables of the whole kernel heap (slots 769 to 1022) are
        created up front, which is what lets all directories share them later.
        Too few frames trip the source's ASSERT_OK. */
    constructor (pa: PageAllocator, imageTable: nat, image: Store, pages: seq<Page>)
      requires pa.Valid() && |pages| == pa.refCounts.Length
      requires imageTable < |pages| && pa.Counts()[imageTable] == UINT8_MAX
      requires forall f :: 0 <= f < |pages| ==> pa.Counts()[f] == 0 || pa.Counts()[f] == UINT8_MAX
      requires forall s :: s in image ==> s.table == imageTable && 0 <= s.index < ENTRIES && image[s].frame < |pages|
                                          && pa.Counts()[image[s].frame] == UINT8_MAX && image[s].frame != imageTable
      requires |FreeSet(pa.Counts())| >= RECURSIVE_IDX - KERNEL_PDE_IDX - 1
      modifies pa, pa.bitmap, pa.refCounts
      ensures Valid() && this.pa == pa && ram.pages == pages && ram.ptes == image
      ensures current == kernelPd && ram.dirs == {kernelPd} && leaked == {}
      ensures forall p :: Slot(kernelPd, p) in ram.pdes <==> KERNEL_PDE_IDX <= p < RECURSIVE_IDX
      ensures ram.pdes[Slot(kernelPd, KERNEL_PDE_IDX)].frame == imageTable
      ensures Usable(ram.pdes)
    {
      hide Accounted, Tallied, KernelTables, Owned, Translate, Usable, FreeSet;
      this.pa := pa;
      kernelPd, current, nextDirectory := 0, 0, 1;
      ram := Ram({imageTable}, image, {0}, map[Slot(0, KERNEL_PDE_IDX) := Entry(imageTable, PAGE_PRESENT_WRITE_USER)],
                 pages);
      owners := Owners(map[imageTable := Slot(-1, KERNEL_PDE_IDX)]);
      leaked := {};
      new;
      KernelTablesStart(imageTable);
      UsableMore(map[], Slot(0, KERNEL_PDE_IDX), Entry(imageTable, PAGE_PRESENT_WRITE_USER));
      BootAccounts(pa.Counts(), imageTable, image);
      for p := KERNEL_PDE_IDX + 1 to RECURSIVE_IDX
        invariant pa.Valid() && Accounted(pa.Counts(), ram.tables, ram.ptes) && |pa.Counts()| == |pages|
        invariant |FreeSet(pa.Counts())| >= RECURSIVE_IDX - p
        invariant ram.pages == pages && ram.ptes == image && ram.dirs == {0} && current == 0 && nextDirectory == 1
        invariant KernelTables(ram.pdes, ram.tables, owners.of, imageTable, p)
        invariant Tallied(ram.tables, ram.pdes, leaked) && leaked == {}
        invariant Usable(ram.pdes)
      {
        ghost var counts := pa.Counts();
        var r := pa.Alloc();
        if r.OutOfFrames? { assert false; }
        AccountNewTable(counts, ram.tables, ram.ptes, r.frame);
        KernelTablesStep(ram.pdes, ram.tables, owners.of, imageTable, p, Entry(r.frame, PAGE_PRESENT_WRITE_USER));
        TallyAdd(ram.tables, ram.pdes, leaked, Slot(0, p), Entry(r.frame, PAGE_PRESENT_WRITE_USER));
        UsableMore(ram.pdes, Slot(0, p), Entry(r.frame, PAGE_PRESENT_WRITE_USER));
        owners := Owners(owners.of[r.frame := Slot(-1, p)]);
        ram := ram.(pdes := ram.pdes[Slot(0, p) := Entry(r.frame, PAGE_PRESENT_WRITE_USER)],
                    tables := ram.tables + {r.frame});
      }
      KernelTablesOwned(ram.pdes, ram.tables, owners.of, imageTable);
      ghost var r := ram;
      view := (c, v) => Translate(c, r.pdes, r.ptes, v);
    }

    method GetOrCreatePageTable(v: int) returns (r: FrameResult)
      requires Valid() && 0 <= v < VPAGES
      modifies this`ram, this`owners, pa, pa.bitmap, pa.refCounts
      ensures Valid() && Keeps(v)
      ensures view == old(view)
      ensures r.Frame? ==> Pde(current, v) in ram.pdes && ram.pdes[Pde(current, v)].frame == r.frame
      ensures r.Frame? ==>
                ram == if Pde(current, v) in old(ram.pdes) then old(ram)
                       else old(ram).(pdes := old(ram.pdes)[Pde(current, v) := Entry(r.frame, PAGE_PRESENT_WRITE_USER)],
                                      tables := old(ram.tables) + {r.frame})
      ensures r.Frame? <==> Enough(old(Counts()), old(ram.pdes), Pde(current, v), 0)
      ensures r.OutOfFrames? ==> ram == old(ram) && v < KERNEL_VPAGE && Counts() == old(Counts())
      ensures r.Frame? ==> Took(old(Counts()), Counts(), old(ram.pdes), ram.pdes, Pde(current, v), 0)
      ensures ram.ptes == old(ram.ptes) && Grows(old(Counts()), Counts())
      ensures v >= KERNEL_VPAGE ==> Counts() == old(Counts())
      ensures forall f :: InUse(old(Counts()), f) ==> Counts()[f] == old(Counts())[f]
    {
      hide Accounted, Owned, Tallied, Translate, AddsTables;
      var s := Pde(current, v);
      AddsNothing(ram.pdes, current);
      KernelPde(ram.dirs, ram.pdes, ram.tables, owners.of, kernelPd, current, v);
      if s !in ram.pdes {
        r := pa.Alloc();
        if r.OutOfFrames? { return; }
        FreeIsUnused(old(Counts()), ram.tables, ram.ptes, r.frame);
        AccountNewTable(old(Counts()), ram.tables, ram.ptes, r.frame);
        TablesOf(old(Counts()), ram.tables, ram.ptes);
        var e := Entry(r.frame, PAGE_PRESENT_WRITE_USER);
        AddsOne(ram.pdes, current, s, e);
        OwnedNewTable(ram.dirs, ram.pdes, ram.tables, owners.of, kernelPd, s, e);
        TallyAdd(ram.tables, ram.pdes, leaked, s, e);
        forall c: int, w: int { NewTableTranslate(ram.pdes, ram.ptes, s, e, c, w); }
        owners := Owners(owners.of[r.frame := s]);
        ram := ram.(pdes := ram.pdes[s := e], tables := ram.tables + {r.frame});
      } else {
        r := Frame(ram.pdes[s].frame);
      }
    }

    /** The entry of page v, which the current directory has a page table for. */
    method WriteEntry(v: int, m: Mapping)
      requires Owned(ram.dirs, ram.pdes, ram.tables, owners.of, kernelPd) && Reflects(view, ram)
      requires 0 <= v < VPAGES && current in ram.dirs && Pde(current, v) in ram.pdes
      modifies this`ram, this`view
      ensures ram == old(ram).(ptes := Put(old(ram).pdes, old(ram).ptes, current, v, m))
      ensures view == Override(old(view), current, v, m) && Reflects(view, ram)
    {
      forall c, w | c in ram.dirs {
        PutTranslate(ram.dirs, ram.pdes, ram.tables, owners.of, kernelPd, ram.ptes, current, v, m, c, w);
      }
      ram := ram.(ptes := Put(ram.pdes, ram.ptes, current, v, m));
      view := Override(view, current, v, m);
    }

    /** map_page_to_free_page: page v gets a frame that was free. */
    method MapPageToFreePage(v: int, flags: nat) returns (rc: Status)
      requires Valid() && 0 <= v < VPAGES && At(v).Unmapped?
      modifies this`ram, this`owners, this`view, pa, pa.bitmap, pa.refCounts
      ensures Valid() && Keeps(v) && Grows(old(Counts()), Counts())
      ensures rc.NoMemory? ==> view == old(view)
      ensures rc.Ok? ==> At(v).Mapped? && At(v).entry.flags == flags && WasFree(old(Counts()), At(v).entry.frame)
                         && view == Override(old(view), current, v, At(v))
      ensures rc.Ok? && v >= KERNEL_VPAGE ==> Taken(old(Counts()), Counts(), view(current, v).entry.frame)
      ensures rc.NoMemory? && v >= KERNEL_VPAGE ==> Counts() == old(Counts())
      ensures rc.Ok? <==> Enough(old(Counts()), old(ram.pdes), Pde(current, v), 1)
      ensures rc.Ok? ==> Took(old(Counts()), Counts(), old(ram.pdes), ram.pdes, Pde(current, v), 1)
      ensures rc.NoMemory? ==> |FreeSet(Counts())| == 0
      ensures rc.Ok? && v >= KERNEL_VPAGE ==> IsLowestFree(old(Counts()), At(v).entry.frame)
    {
      hide Accounted, Owned, Tallied, Reflects, AddsTables;
      var pt := GetOrCreatePageTable(v);
      if pt.OutOfFrames? { return NoMemory; }
      ReflectsAll(view, ram);
      PdesIn(ram.dirs, ram.pdes, ram.tables, owners.of, kernelPd);
      ghost var counts := Counts();
      var r := pa.Alloc();
      if r.OutOfFrames? { return NoMemory; }
      FreeIsUnused(counts, ram.tables, ram.ptes, r.frame);
      var e := Entry(r.frame, flags);
      AccountSet(counts, ram.tables, ram.ptes, Pte(ram.pdes, current, v), e);
      WriteEntry(v, Mapped(e));
      rc := Ok;
    }

    /** copy_page_mapping: page `to` gets the frame of page `from`, counted once more. */
    method CopyPageMapping(to: int, from: int, flags: nat) returns (rc: Status)
      requires Valid() && At(from).Mapped? && 0 <= to < VPAGES && At(to).Unmapped?
      modifies this`ram, this`owners, this`view, pa, pa.bitmap, pa.refCounts
      ensures Valid() && Keeps(to) && Grows(old(Counts()), Counts())
      ensures rc.NoMemory? ==> view == old(view) && to < KERNEL_VPAGE && Counts() == old(Counts())
      ensures rc.Ok? <==> Enough(old(Counts()), old(ram.pdes), Pde(current, to), 0)
      ensures rc.Ok? ==> Took(old(Counts()), Counts(), old(ram.pdes), ram.pdes, Pde(current, to), 0)
      ensures rc.Ok? ==> view == Override(old(view), current, to,
                                          Mapped(Entry(old(view)(current, from).entry.frame, flags)))
      ensures to >= KERNEL_VPAGE ==> Taken(old(Counts()), Counts(), old(view)(current, from).entry.frame)
      ensures OnlyOne(old(Counts()), Counts(), old(view)(current, from).entry.frame)
    {
      hide Accounted, Owned, Tallied, Reflects, AddsTables;
      var pt := GetOrCreatePageTable(to);
      if pt.OutOfFrames? { return NoMemory; }
      ReflectsAll(view, ram);
      PdesIn(ram.dirs, ram.pdes, ram.tables, owners.of, kernelPd);
      ghost var counts := Counts();
      var source := Pte(ram.pdes, current, from);
      EntryIn(counts, ram.tables, ram.ptes, source);
      var e := Entry(ram.ptes[source].frame, flags);
      pa.RefPage(e.frame);
      FreeSetUpdate(counts, e.frame, Inc(counts[e.frame]));
      AccountSet(counts, ram.tables, ram.ptes, Pte(ram.pdes, current, to), e);
      WriteEntry(to, Mapped(e));
      rc := Ok;
    }

    /** unmap_page: the page goes, and its frame loses one reference. */
    method UnmapPage(v: int)
      requires Valid() && At(v).Mapped?
      modifies this`ram, this`view, pa, pa.bitmap, pa.refCounts
      ensures Valid() && Keeps(v) && ram.pdes == old(ram.pdes)
      ensures view == Override(old(view), current, v, Unmapped)
      ensures Given(old(Counts()), Counts(), old(view)(current, v).entry.frame)
    {
      assert Translate(current, ram.pdes, ram.ptes, v) == view(current, v);
      var s := Pte(ram.pdes, current, v);
      AccountClear(Counts(), ram.tables, ram.ptes, s);
      pa.UnrefPage(ram.ptes[s].frame);
      WriteEntry(v, Unmapped);
    }

    /** The kernel half lacks no page table: frames are needed for pages only. */
    lemma KernelEnough(v: int, m: nat)
      requires Valid() && KERNEL_VPAGE <= v < VPAGES
      ensures Enough(Counts(), ram.pdes, Pde(current, v), m) <==> |FreeSet(Counts())| >= m
    {
      KernelPde(ram.dirs, ram.pdes, ram.tables, owners.of, kernelPd, current, v);
    }

    /** A mapped page is on a frame that is in use. */
    lemma MappedInUse(c: int, w: int)
      requires Valid() && c in ram.dirs && view(c, w).Mapped?
      ensures InUse(Counts(), view(c, w).entry.frame)
    {
      assert Translate(c, ram.pdes, ram.ptes, w) == view(c, w);
      HolderCounts(Counts(), ram.tables, ram.ptes, Pte(ram.pdes, c, w));
    }

    /** A frame with one reference is behind one page of an address space. */
    lemma SoleFrame(c: int, v: int, w: int)
      requires Valid() && c in ram.dirs && view(c, v).Mapped? && view(c, w).Mapped?
      requires var f := view(c, v).entry.frame; view(c, w).entry.frame == f && f < |Counts()| && Counts()[f] == 1
      ensures v == w
    {
      assert view(c, v) == Translate(c, ram.pdes, ram.ptes, v) && view(c, w) == Translate(c, ram.pdes, ram.ptes, w);
      var f, r, s := view(c, v).entry.frame, Pte(ram.pdes, c, v), Pte(ram.pdes, c, w);
      assert {r, s} <= Holders(ram.ptes, f);
      if r != s { SubsetSize({r, s}, Holders(ram.ptes, f)); }
      SamePte(ram.dirs, ram.pdes, ram.tables, owners.of, kernelPd, c, v, c, w);
    }

    /** A frame of the kernel half with one reference is behind no user page. */
    lemma FarFromKernel(c: int, w: int, x: int)
      requires Valid() && c in ram.dirs && 0 <= w < KERNEL_VPAGE <= x && view(c, w).Mapped? && view(current, x).Mapped?
      requires var f := view(current, x).entry.frame; f < |Counts()| && Counts()[f] == 1
      ensures view(c, w).entry.frame != view(current, x).entry.frame
    {
      KernelHalfShared(ram.dirs, ram.pdes, ram.tables, owners.of, kernelPd, ram.ptes, c, current, x);
      assert view(c, x) == Translate(c, ram.pdes, ram.ptes, x);
      assert view(current, x) == Translate(current, ram.pdes, ram.ptes, x);
      if view(c, w).entry.frame == view(c, x).entry.frame { SoleFrame(c, x, w); }
    }

    /** paging_map_to_free_pages: n pages from v on, on distinct frames that were
        free, or the first `done` of them if frames run out. */
    method MapToFreePages(v: int, n: nat, flags: nat) returns (rc: Status, ghost done: nat)
      requires Valid() && 0 <= v && v + n <= VPAGES
      requires forall w :: v <= w < v + n ==> view(current, w).Unmapped?
      modifies this`ram, this`owners, this`view, pa, pa.bitmap, pa.refCounts
      ensures Valid() && Keeps(v) && Grows(old(Counts()), Counts())
      ensures done <= n && (rc.Ok? <==> done == n)
      ensures rc.Ok? <==> |FreeSet(old(Counts()))| >= n + |Missing(old(ram.pdes), current, v, n)|
      ensures rc.Ok? ==> |FreeSet(old(Counts()))| == |FreeSet(Counts())| + n + |Missing(old(ram.pdes), current, v, n)|
      ensures rc.NoMemory? ==> |FreeSet(Counts())| == 0
      ensures v >= KERNEL_VPAGE ==> |Missing(old(ram.pdes), current, v, n)| == 0
      ensures SameOutside(old(view), view, ram.dirs, current, v, done)
      ensures FreshRange(view, current, v, done, flags, old(Counts()))
      ensures v >= KERNEL_VPAGE ==> Charged(old(Counts()), Counts(), view, current, v, done)
      ensures rc.NoMemory? && v >= KERNEL_VPAGE ==> |FreeSet(old(Counts()))| == done
    {
      hide Accounted, Owned, Tallied, Reflects, AddsTables, Taken, MappedUpTo, Charged, FreshRange, Grows, Missing,
           Spent, Took, Enough, FreeSet, Pde, Override, Translate;
      ghost var view0, counts0, pdes0 := view, Counts(), ram.pdes;
      SpentNone(counts0, pdes0, current, v);
      if v >= KERNEL_VPAGE { NoneMissing(ram.dirs, ram.pdes, ram.tables, owners.of, kernelPd, current, v, n); }
      MappedNone(view, ram.dirs, current, v, flags, Counts());
      AddsNothing(ram.pdes, current);
      for k := 0 to n
        invariant Valid() && Keeps(v) && MappedUpTo(view0, counts0, view, Counts(), ram.dirs, current, v, k, flags)
        invariant Spent(counts0, Counts(), pdes0, ram.pdes, current, v, k, k)
      {
        forall w | v <= w < v + k && view(current, w).Mapped? { MappedInUse(current, w); }
        MappedFacts(view0, counts0, view, Counts(), ram.dirs, current, v, k, flags);
        ghost var mid, counts, pdes := view, Counts(), ram.pdes;
        rc := MapPageToFreePage(v + k, flags);
        AddsTwice(old(ram.pdes), pdes, ram.pdes, current);
        if rc.NoMemory? {
          MappedStuck(view0, counts0, view, counts, Counts(), ram.dirs, current, v, k, flags);
          SpentUp(counts0, counts, pdes0, pdes, current, v, k, k, 1, n);
          return NoMemory, k;
        }
        MappedStep(view0, counts0, mid, counts, Counts(), ram.dirs, current, v, k, flags, At(v + k).entry);
        SpentStep(counts0, counts, Counts(), pdes0, pdes, ram.pdes, current, v, k, k, 1);
      }
      SpentAll(counts0, Counts(), pdes0, ram.pdes, current, v, n, n);
      MappedFacts(view0, counts0, view, Counts(), ram.dirs, current, v, n, flags);
      rc, done := Ok, n;
    }

    /** paging_copy_mapping: n pages from `to` on share the frames of those from `from` on. */
    method CopyMapping(to: int, from: int, n: nat, flags: nat) returns (rc: Status, ghost done: nat)
      requires Valid() && 0 <= to && to + n <= VPAGES
      requires forall w :: to <= w < to + n ==> view(current, w).Unmapped?
      requires forall w :: from <= w < from + n ==> view(current, w).Mapped?
      modifies this`ram, this`owners, this`view, pa, pa.bitmap, pa.refCounts
      ensures Valid() && Keeps(to) && Grows(old(Counts()), Counts())
      ensures done <= n && (rc.Ok? <==> done == n)
      ensures SameOutside(old(view), view, ram.dirs, current, to, done)
      ensures CopiedRange(old(view), view, current, to, from, done, flags)
      ensures rc.NoMemory? ==> to < KERNEL_VPAGE
      ensures rc.Ok? <==> |FreeSet(old(Counts()))| >= |Missing(old(ram.pdes), current, to, n)|
      ensures rc.Ok? ==> |FreeSet(old(Counts()))| == |FreeSet(Counts())| + |Missing(old(ram.pdes), current, to, n)|
      ensures rc.Ok? ==> ram.pdes.Keys == old(ram.pdes).Keys + Missing(old(ram.pdes), current, to, n)
      ensures to >= KERNEL_VPAGE ==> |Missing(old(ram.pdes), current, to, n)| == 0
      ensures OnlyCarried(old(view), current, from, n, old(Counts()), Counts())
    {
      hide Accounted, Owned, Reflects, Missing, Spent, Tallied, FreeSet, Pde, Took, Enough, Translate,
           AddsTables;
      AddsNothing(ram.pdes, current);
      ghost var pdes0, counts0 := ram.pdes, Counts();
      SpentNone(counts0, pdes0, current, to);
      if to >= KERNEL_VPAGE { NoneMissing(ram.dirs, ram.pdes, ram.tables, owners.of, kernelPd, current, to, n); }
      for k := 0 to n
        invariant Valid() && Keeps(to) && Grows(old(Counts()), Counts())
        invariant Spent(counts0, Counts(), pdes0, ram.pdes, current, to, k, 0)
        invariant SameOutside(old(view), view, ram.dirs, current, to, k)
        invariant CopiedRange(old(view), view, current, to, from, k, flags)
        invariant OnlyCarried(old(view), current, from, k, old(Counts()), Counts())
      {
        ghost var mid, counts, pdes := view, Counts(), ram.pdes;
        assert mid(current, from + k) == old(view)(current, from + k);
        rc := CopyPageMapping(to + k, from + k, flags);
        AddsTwice(pdes0, pdes, ram.pdes, current);
        if rc.NoMemory? {
          SpentUp(counts0, counts, pdes0, pdes, current, to, k, 0, 0, n);
          OnlyCarriedMore(old(view), current, from, k, n, old(Counts()), counts, Counts());
          return NoMemory, k;
        }
        ghost var m := Mapped(Entry(old(view)(current, from + k).entry.frame, flags));
        assert view == Override(mid, current, to + k, m);
        CopiedStep(old(view), mid, current, to, from, k, flags);
        OutsideStep(old(view), mid, ram.dirs, current, to, k, m);
        OnlyCarriedStep(old(view), current, from, k, old(Counts()), counts, Counts());
        SpentStep(counts0, counts, Counts(), pdes0, pdes, ram.pdes, current, to, k, 0, 0);
      }
      SpentAll(counts0, Counts(), pdes0, ram.pdes, current, to, n, 0);
      rc, done := Ok, n;
    }

    /** paging_unmap */
    method Unmap(v: int, n: nat)
      requires Valid() && forall w :: v <= w < v + n ==> view(current, w).Mapped?
      modifies this`ram, this`view, pa, pa.bitmap, pa.refCounts
      ensures Valid() && Keeps(v) && ram.pdes == old(ram.pdes)
      ensures SameOutside(old(view), view, ram.dirs, current, v, n)
      ensures forall w :: v <= w < v + n ==> view(current, w).Unmapped?
      ensures SoleRange(old(Counts()), old(view), current, v, n) ==>
                Charged(Counts(), old(Counts()), old(view), current, v, n)
      ensures OnlyCarried(old(view), current, v, n, old(Counts()), Counts()) && NoneTaken(old(Counts()), Counts())
    {
      hide Accounted, Owned, Tallied, Reflects, AddsTables, UnmappedUpTo, Given;
      ghost var view0, counts0 := view, Counts();
      AddsNothing(ram.pdes, current);
      UnmappedNone(view0, counts0, ram.dirs, current, v, n);
      for k := 0 to n
        invariant Valid() && Keeps(v) && ram.pdes == old(ram.pdes)
        invariant UnmappedUpTo(view0, counts0, view, Counts(), ram.dirs, current, v, k, n)
      {
        ghost var mid, counts := view, Counts();
        UnmappedNext(view0, counts0, mid, counts, ram.dirs, current, v, k, n);
        UnmapPage(v + k);
        UnmappedStep(view0, counts0, mid, counts, Counts(), ram.dirs, current, v, k, n);
      }
      UnmappedAll(view0, counts0, view, Counts(), ram.dirs, current, v, n);
    }

    /** Everything but `view`: what cloning a page table needs and keeps. */
    ghost predicate Memory()
      reads this, pa, pa.bitmap, pa.refCounts
    {
      && pa.Valid()
      && |ram.pages| == pa.refCounts.Length
      && Accounted(pa.Counts(), ram.tables, ram.ptes)
    }

    /** The body of the loop of clone_page_table: slot s gets the clone of the
        present entry at e. */
    method CloneEntry(e: Slot, s: Slot) returns (ok: bool)
      requires Memory() && e in ram.ptes && s !in ram.ptes && s.table in ram.tables && 0 <= s.index < ENTRIES
      modifies this`ram, pa, pa.bitmap, pa.refCounts
      ensures Memory() && Grows(old(Counts()), Counts())
      ensures ram.dirs == old(ram.dirs) && ram.pdes == old(ram.pdes) && ram.tables == old(ram.tables)
      ensures !ok ==> ram == old(ram)
      ensures ok ==> s in ram.ptes && ram.ptes == old(ram.ptes)[s := ram.ptes[s]]
      ensures ok ==> CopiesEntry(old(ram.ptes)[e], ram.ptes[s], old(Counts()), old(ram.pages), ram.pages)
      ensures CountsBut({e.table}, old(ram.ptes), old(Counts()), Counts())
      ensures ok <==> IsShared(old(ram.ptes)[e].flags) || |FreeSet(old(Counts()))| > 0
      ensures ok ==> |FreeSet(old(Counts()))| == |FreeSet(Counts())| + if IsShared(old(ram.ptes)[e].flags) then 0 else 1
      ensures !ok ==> Counts() == old(Counts())
    {
      var entry := ram.ptes[e];
      HolderCounts(Counts(), ram.tables, ram.ptes, e);
      FreeSetUpdate(Counts(), entry.frame, Inc(Counts()[entry.frame]));
      if IsShared(entry.flags) {
        AccountSet(Counts(), ram.tables, ram.ptes, s, entry);
        pa.RefPage(entry.frame);
        ram := ram.(ptes := ram.ptes[s := entry]);
        return true;
      }
      var r := pa.Alloc();
      if r.OutOfFrames? { return false; }
      FreeIsUnused(old(Counts()), ram.tables, ram.ptes, r.frame);
      var x := Entry(r.frame, entry.flags);
      AccountSet(old(Counts()), ram.tables, ram.ptes, s, x);
      ram := ram.(ptes := ram.ptes[s := x], pages := ram.pages[r.frame := ram.pages[entry.frame]]);
      ok := true;
    }

    /** clone_page_table: a new page table for the entries of table src, private
        pages copied to fresh frames and shared pages counted once more. A failed
        clone leaves its table behind, as the source does. */
    method ClonePageTable(src: int) returns (r: FrameResult)
      requires Memory() && src in ram.tables
      modifies this`ram, this`leaked, pa, pa.bitmap, pa.refCounts
      ensures Afforded(old(Counts()), Counts(), 1 + |PrivateIn(old(ram.ptes), src, ENTRIES)|, r.Frame?)
      ensures CountsBut({src}, old(ram.ptes), old(Counts()), Counts())
      ensures r.Frame? ==> leaked == old(leaked)
      ensures r.OutOfFrames? ==> Leaks(old(ram.tables), old(leaked), ram.tables, leaked)
      ensures Memory() && Grows(old(Counts()), Counts()) && Untouched(old(Counts()), old(ram.pages), ram.pages)
      ensures ram.dirs == old(ram.dirs) && ram.pdes == old(ram.pdes)
      ensures OutsideTables(old(ram.tables), old(ram.ptes), ram.ptes) && old(ram.tables) <= ram.tables
              && KeepsSole(old(ram.ptes), src, ram.ptes)
      ensures r.Frame? ==> r.frame !in old(ram.tables) && ram.tables == old(ram.tables) + {r.frame}
                           && Cloned(old(ram.ptes), src, ram.ptes, r.frame, ENTRIES, old(Counts()), old(ram.pages),
                                     ram.pages)
    {
      hide Accounted, Cloned, KeepsSole, Untouched, CountsBut, CopiesEntry, Grows, OutsideTables, Leaks, FreeSet,
           PrivateIn;
      ghost var counts0, pages0, tables0, ptes0 := Counts(), ram.pages, ram.tables, ram.ptes;
      r := pa.Alloc();
      NothingCloned(counts0, tables0, ptes0, src, pages0);
      if r.OutOfFrames? {
        LeaksNone(tables0, leaked);
        return;
      }
      var dst := r.frame;
      ClonedNone(counts0, tables0, ptes0, src, dst, pages0);
      ram := ram.(tables := ram.tables + {dst});
      PrivateNone(ptes0, src);
      for i := 0 to ENTRIES
        invariant |FreeSet(counts0)| == |FreeSet(Counts())| + 1 + |PrivateIn(ptes0, src, i)|
        invariant Memory() && Grows(counts0, Counts())
        invariant ram.dirs == old(ram.dirs) && ram.pdes == old(ram.pdes) && ram.tables == tables0 + {dst}
                  && leaked == old(leaked)
        invariant Cloned(ptes0, src, ram.ptes, dst, i, counts0, pages0, ram.pages)
        invariant CountsBut({src}, ptes0, counts0, Counts())
      {
        var e, s := Slot(src, i), Slot(dst, i);
        ghost var was, counts := ram, Counts();
        ClonedFacts(ptes0, src, ram.ptes, dst, i, counts0, pages0, ram.pages, tables0);
        PrivateStep(ptes0, src, i);
        if e in ram.ptes {
          var ok := CloneEntry(e, s);
          CountsButThen({src}, {src}, tables0, ptes0, was.ptes, counts0, counts, Counts());
          GrowsThen(counts0, counts, Counts());
          if !ok {
            PrivateGrows(ptes0, src, i + 1, ENTRIES);
            LeaksOne(tables0, leaked, dst);
            leaked := leaked + {dst};
            return OutOfFrames;
          }
          ClonedStep(ptes0, src, was.ptes, dst, i, counts0, pages0, was.pages, tables0, was.tables, counts, ram.ptes[s],
                     ram.pages);
        } else {
          ClonedSkip(ptes0, src, ram.ptes, dst, i, counts0, pages0, ram.pages);
        }
      }
      ClonedFacts(ptes0, src, ram.ptes, dst, ENTRIES, counts0, pages0, ram.pages, tables0);
    }

    /** paging_create_page_directory, once its block is allocated: the new directory
        starts with the kernel half of the current one. */
    method NewDirectory() returns (dst: int)
      requires Valid()
      modifies this`ram, this`view, this`nextDirectory
      ensures Valid() && dst !in old(ram.dirs) && dst != current
      ensures ram == old(ram).(dirs := old(ram.dirs) + {dst}, pdes := ram.pdes)
      ensures WithKernelHalf(old(ram.pdes), ram.pdes, current, dst)
      ensures forall c, v :: c in old(ram.dirs) ==> view(c, v) == old(view)(c, v)
      ensures forall v :: view(dst, v) == if v >= KERNEL_VPAGE then view(current, v) else Unmapped
    {
      hide Accounted, Tallied, Owned, Translate, HalfCopied, WithKernelHalf;
      dst := nextDirectory;
      nextDirectory := nextDirectory + 1;
      ghost var was, cur := view, current;
      var pdes := ram.pdes;
      HalfCopiedNone(ram.dirs, ram.pdes, ram.tables, owners.of, kernelPd, current, dst);
      for p := KERNEL_PDE_IDX to RECURSIVE_IDX
        modifies {}
        invariant HalfCopied(ram.pdes, pdes, current, dst, p)
      {
        HalfCopiedStep(ram.pdes, pdes, current, dst, p);
        pdes := pdes[Slot(dst, p) := ram.pdes[Slot(current, p)]];
      }
      HalfCopiedAll(ram.pdes, pdes, current, dst);
      CreatedDirectory(ram.dirs, ram.pdes, pdes, ram.tables, owners.of, kernelPd, current, dst);
      TallyKernelHalf(ram.tables, ram.pdes, leaked, pdes, current, dst);
      ReflectsAll(view, ram);
      forall c, v | c in ram.dirs + {dst} {
        CreatedTranslate(ram.dirs, ram.pdes, pdes, ram.tables, owners.of, kernelPd, ram.ptes, current, dst, c, v);
      }
      ram := ram.(dirs := ram.dirs + {dst}, pdes := pdes);
      view := (c, v) => if c == dst then (if v >= KERNEL_VPAGE then was(cur, v) else Unmapped) else was(c, v);
    }

    /** Everything of Valid() but that `view` tells what directory dst maps. */
    ghost predicate ValidBut(dst: int)
      reads this, pa, pa.bitmap, pa.refCounts
    {
      && Memory()
      && Owned(ram.dirs, ram.pdes, ram.tables, owners.of, kernelPd)
      && Tallied(ram.tables, ram.pdes, leaked)
      && current in ram.dirs && current != dst && dst in ram.dirs
      && (forall d :: d in ram.dirs ==> d < nextDirectory)
    }

    ghost method SetView(dst: int)
      requires ValidBut(dst)
      requires forall c, v :: c in ram.dirs && c != dst ==> view(c, v) == Translate(c, ram.pdes, ram.ptes, v)
      modifies this`view
      ensures Valid()
      ensures forall c, v :: c != dst ==> view(c, v) == old(view)(c, v)
      ensures forall v :: view(dst, v) == Translate(dst, ram.pdes, ram.ptes, v)
    {
      ghost var was, pdes, ptes := view, ram.pdes, ram.ptes;
      view := (c, v) => if c == dst then Translate(dst, pdes, ptes, v) else was(c, v);
    }

    /** The body of the loop of paging_clone_current_page_directory: entry i of
        directory dst gets a clone of the page table of the current directory. */
    method CloneDirectoryEntry(dst: int, i: nat) returns (ok: bool)
      requires ValidBut(dst) && i < KERNEL_PDE_IDX && Slot(current, i) in ram.pdes && Slot(dst, i) !in ram.pdes
      modifies this`ram, this`owners, this`leaked, pa, pa.bitmap, pa.refCounts
      ensures ValidBut(dst) && ram.dirs == old(ram.dirs)
      ensures Grows(old(Counts()), Counts()) && OutsideTables(old(ram.tables), old(ram.ptes), ram.ptes)
      ensures old(ram.tables) <= ram.tables && Untouched(old(Counts()), old(ram.pages), ram.pages)
      ensures !ok ==> ram.pdes == old(ram.pdes)
      ensures ok ==> leaked == old(leaked)
      ensures CountsBut({old(ram.pdes)[Slot(current, i)].frame}, old(ram.ptes), old(Counts()), Counts())
      ensures var m := 1 + |PrivateIn(old(ram.ptes), old(ram.pdes)[Slot(current, i)].frame, ENTRIES)|;
              Afforded(old(Counts()), Counts(), m, ok)
      ensures ok ==> Slot(dst, i) in ram.pdes
                     && var e, t := old(ram.pdes)[Slot(current, i)], ram.pdes[Slot(dst, i)].frame;
                     && t !in old(ram.tables) && ram.tables == old(ram.tables) + {t}
                     && ram.pdes == old(ram.pdes)[Slot(dst, i) := Entry(t, e.flags)]
                     && Cloned(old(ram.ptes), e.frame, ram.ptes, t, ENTRIES, old(Counts()), old(ram.pages), ram.pages)
    {
      hide Accounted, Owned, Tallied, Leaks, Grows, Untouched, OutsideTables, CountsBut, Cloned, KeepsSole, FreeSet,
           PrivateIn;
      var e, s := ram.pdes[Slot(current, i)], Slot(dst, i);
      ghost var tables, leaked0 := ram.tables, leaked;
      PdesIn(ram.dirs, ram.pdes, ram.tables, owners.of, kernelPd);
      var pt := ClonePageTable(e.frame);
      if pt.OutOfFrames? {
        LeaksTallied(tables, leaked0, ram.tables, leaked, ram.pdes);
        OwnedMore(ram.dirs, ram.pdes, tables, owners.of, kernelPd, ram.tables);
        return false;
      }
      OwnedNewTable(ram.dirs, ram.pdes, tables, owners.of, kernelPd, s, Entry(pt.frame, e.flags));
      TallyAdd(tables, ram.pdes, leaked, s, Entry(pt.frame, e.flags));
      owners := Owners(owners.of[pt.frame := s]);
      ram := ram.(pdes := ram.pdes[s := Entry(pt.frame, e.flags)]);
      ok := true;
    }

    /** The loop of paging_clone_current_page_directory. */
    method CloneUserHalf(dst: int) returns (ok: bool)
      requires ValidBut(dst) && forall s :: s in ram.pdes && s.table == dst ==> s.index >= KERNEL_PDE_IDX
      modifies this`ram, this`owners, this`leaked, pa, pa.bitmap, pa.refCounts
      ensures ValidBut(dst) && ram.dirs == old(ram.dirs)
      ensures Around(old(ram.tables), old(ram.pdes), old(ram.ptes), old(Counts()), old(ram.pages),
                     ram.tables, ram.pdes, ram.ptes, Counts(), ram.pages, dst, KERNEL_PDE_IDX)
      ensures ok ==> ClonedDirectory(old(ram.pdes), old(ram.ptes), current, ram.pdes, ram.ptes, dst, KERNEL_PDE_IDX,
                                     old(Counts()), old(ram.pages), ram.pages)
                     && ram.tables == old(ram.tables) + UserTables(ram.pdes, dst) && leaked == old(leaked)
      ensures CountsBut(UserTables(old(ram.pdes), current), old(ram.ptes), old(Counts()), Counts())
      ensures Afforded(old(Counts()), Counts(), ForkFrames(old(ram.pdes), old(ram.ptes), current, KERNEL_PDE_IDX), ok)
    {
      hide Accounted, Owned, Tallied, Grows, Untouched, OutsideTables, CountsBut, Cloned, Around, Forking,
           ClonedDirectory, UserTables, ForkFrames, FreeSet, PrivateIn;
      ghost var start, counts0 := ram, Counts();
      PdesIn(ram.dirs, ram.pdes, ram.tables, owners.of, kernelPd);
      ForkingStarts(ram.tables, ram.pdes, ram.ptes, counts0, current, ram.pages, dst);
      ForkFramesNone(ram.pdes, ram.ptes, current);
      for i := 0 to KERNEL_PDE_IDX
        invariant |FreeSet(counts0)| == |FreeSet(Counts())| + ForkFrames(start.pdes, start.ptes, current, i)
        invariant ValidBut(dst) && ram.dirs == start.dirs
        invariant Forking(start.tables, start.pdes, start.ptes, counts0, start.pages, current,
                          ram.tables, ram.pdes, ram.ptes, Counts(), ram.pages, dst, i)
        invariant ram.tables == start.tables + UserTables(ram.pdes, dst) && leaked == old(leaked)
        invariant CountsBut(UserTables(start.pdes, current), start.ptes, counts0, Counts())
      {
        ghost var was, counts := ram, Counts();
        ForkingFacts(start.tables, start.pdes, start.ptes, counts0, start.pages, current,
                     ram.tables, ram.pdes, ram.ptes, counts, ram.pages, dst, i);
        PdesIn(ram.dirs, ram.pdes, ram.tables, owners.of, kernelPd);
        ForkFramesStep(start.pdes, start.ptes, current, i);
        if Slot(current, i) in ram.pdes {
          AroundParts(start.tables, start.pdes, start.ptes, counts0, start.pages, ram.tables, ram.pdes, ram.ptes,
                      Counts(), ram.pages, dst, i);
          PrivateSame(start.tables, start.ptes, ram.ptes, ram.pdes[Slot(current, i)].frame, ENTRIES);
          ok := CloneDirectoryEntry(dst, i);
          CountsButTable(start.tables, start.pdes, start.ptes, counts0, start.pages, current, was.tables, was.pdes,
                         was.ptes, counts, was.pages, dst, i, Counts());
          if !ok {
            ForkFramesGrow(start.pdes, start.ptes, current, i + 1, KERNEL_PDE_IDX);
            AroundLater(start.tables, start.pdes, start.ptes, counts0, start.pages, was.tables, was.pdes, was.ptes,
                        counts, was.pages, dst, i, ram.tables, ram.ptes, Counts(), ram.pages);
            AroundWider(start.tables, start.pdes, start.ptes, counts0, start.pages, ram.tables, ram.pdes, ram.ptes,
                        Counts(), ram.pages, dst, i);
            return;
          }
          ForkingStep(start.tables, start.pdes, start.ptes, counts0, start.pages, current,
                      was.tables, was.pdes, was.ptes, counts, was.pages, dst, i,
                      ram.pdes[Slot(dst, i)].frame, ram.ptes, Counts(), ram.pages);
          UserTablesStep(was.pdes, dst, i, ram.pdes[Slot(dst, i)]);
        } else {
          ForkingSkip(start.tables, start.pdes, start.ptes, counts0, start.pages, current,
                      ram.tables, ram.pdes, ram.ptes, counts, ram.pages, dst, i);
        }
      }
      ForkingFacts(start.tables, start.pdes, start.ptes, counts0, start.pages, current,
                   ram.tables, ram.pdes, ram.ptes, Counts(), ram.pages, dst, KERNEL_PDE_IDX);
      ok := true;
    }

    /** paging_clone_current_page_directory, once the block of the new directory is allocated:
        fork. The new directory maps the same user pages with the same flags, shared pages on
        the same frames and every other page on a frame of its own with the same bytes; it has
        the kernel half of all directories; and nothing else changes. */
    method CloneInto() returns (dst: int, ok: bool)
      requires Valid()
      modifies this`ram, this`view, this`owners, this`nextDirectory, this`leaked, pa, pa.bitmap, pa.refCounts
      ensures Valid() && current == old(current) && (ok ==> leaked == old(leaked))
      ensures dst !in old(ram.dirs) && ram.dirs == old(ram.dirs) + {dst}
      ensures Grows(old(Counts()), Counts()) && Untouched(old(Counts()), old(ram.pages), ram.pages)
      ensures forall c, v :: c in old(ram.dirs) ==> view(c, v) == old(view)(c, v)
      ensures KernelKept(old(view), old(current), old(Counts()), old(ram.pages), view, current, Counts(), ram.pages)
      ensures ok ==> forall v :: v >= KERNEL_VPAGE ==> view(dst, v) == view(current, v)
      ensures ok ==> forall v :: 0 <= v < KERNEL_VPAGE ==>
                ForkedPage(old(view)(current, v), view(dst, v), ram.ptes, old(Counts()), old(ram.pages), ram.pages)
      ensures ok ==> ram.tables == old(ram.tables) + UserTables(ram.pdes, dst)
                     && OutsideTables(old(ram.tables), old(ram.ptes), ram.ptes)
                     && UserTables(ram.pdes, dst) !! old(ram.tables)
      ensures ok ==> ClonedDirectory(old(ram.pdes), old(ram.ptes), current, ram.pdes, ram.ptes, dst, KERNEL_PDE_IDX,
                                     old(Counts()), old(ram.pages), ram.pages)
      ensures forall s :: s in old(ram.pdes) ==> s in ram.pdes && ram.pdes[s] == old(ram.pdes)[s]
      ensures Afforded(old(Counts()), Counts(), old(ForkCost()), ok)
    {
      hide Accounted, Owned, Tallied, Grows, Untouched, OutsideTables, CountsBut, Around, ClonedDirectory, UserTables,
           ForkedPage, KernelKept, Reflects, Translate, Afforded, ForkFrames;
      ghost var counts0, ram0, view0, owner0 := Counts(), ram, view, owners.of;
      PdesIn(ram.dirs, ram.pdes, ram.tables, owners.of, kernelPd);
      dst := NewDirectory();
      ForkFramesSame(ram0.pdes, ram.pdes, ram.ptes, current, dst);
      ghost var mid, seen := ram, view;
      NoUserHalf(ram0.pdes, ram0.dirs, ram0.tables, owners.of, kernelPd, mid.pdes, current, dst);
      PdesIn(mid.dirs, mid.pdes, mid.tables, owners.of, kernelPd);
      ReflectsAll(seen, mid);
      ok := CloneUserHalf(dst);
      AroundParts(mid.tables, mid.pdes, mid.ptes, counts0, mid.pages, ram.tables, ram.pdes, ram.ptes, Counts(),
                  ram.pages, dst, KERNEL_PDE_IDX);
      forall c, v | c in ram.dirs && c != dst ensures view(c, v) == Translate(c, ram.pdes, ram.ptes, v) {
        AroundOthers(mid.tables, mid.pdes, mid.ptes, counts0, mid.pages, ram.tables, ram.pdes, ram.ptes, Counts(),
                     ram.pages, dst, KERNEL_PDE_IDX, c, v);
      }
      EntriesKept(mid.tables, ram0.pdes, mid.pdes, mid.ptes, counts0, mid.pages, ram.tables, ram.pdes, ram.ptes,
                  Counts(), ram.pages, current, dst);
      SetView(dst);
      KernelKeptByClone(ram0, mid.pdes, view0, current, counts0, owner0, kernelPd, dst, view, Counts(), ram.pages);
      if !ok { return; }
      ClonedFrom(ram0.pdes, mid.pdes, mid.ptes, current, ram.pdes, ram.ptes, dst, counts0, mid.pages, ram.pages);
      ReflectsAll(view, ram);
      forall v | v >= KERNEL_VPAGE ensures view(dst, v) == view(current, v) {
        KernelHalfShared(ram.dirs, ram.pdes, ram.tables, owners.of, kernelPd, ram.ptes, dst, current, v);
      }
      forall v | 0 <= v < KERNEL_VPAGE
        ensures ForkedPage(view0(current, v), view(dst, v), ram.ptes, counts0, ram0.pages, ram.pages)
      {
        ForkPage(mid.pdes, mid.ptes, current, ram.pdes, ram.ptes, dst, counts0, mid.pages, ram.pages, v);
      }
    }

    /** The inner loop of paging_destroy_current_page_directory: every page of page
        table t loses the reference of its entry. The entry is not counted from
        here on; its bits stay in a frame that is about to be given back. */
    method ReleaseEntries(t: int)
      requires Memory() && t in ram.tables
      modifies this`ram, pa, pa.bitmap, pa.refCounts
      ensures Memory() && ram == old(ram).(ptes := ram.ptes)
      ensures WithoutTables(old(ram.ptes), ram.ptes, {t}) && SameSaturation(old(Counts()), Counts())
    {
      for i := 0 to ENTRIES
        invariant Memory() && ram == old(ram).(ptes := ram.ptes) && SameSaturation(old(Counts()), Counts())
        invariant forall s :: s in ram.ptes <==> s in old(ram.ptes) && !(s.table == t && s.index < i)
        invariant forall s :: s in ram.ptes ==> ram.ptes[s] == old(ram.ptes)[s]
      {
        var s := Slot(t, i);
        if s in ram.ptes {
          AccountClear(Counts(), ram.tables, ram.ptes, s);
          pa.UnrefPage(ram.ptes[s].frame);
          ram := ram.(ptes := ram.ptes - {s});
        }
      }
    }

    /** The first loop: all user pages of directory d. */
    method ReleasePages(d: int)
      requires Memory() && forall s :: s in ram.pdes ==> s.index >= 0 && ram.pdes[s].frame in ram.tables
      modifies this`ram, pa, pa.bitmap, pa.refCounts
      ensures Memory() && ram == old(ram).(ptes := ram.ptes)
      ensures WithoutTables(old(ram.ptes), ram.ptes, UserTables(ram.pdes, d)) && SameSaturation(old(Counts()), Counts())
    {
      hide Accounted, WithoutTables, SameSaturation, UserTables;
      ghost var gone: set<int> := {};
      WithoutNone(ram.ptes, Counts());
      for i := 0 to KERNEL_PDE_IDX
        invariant Memory() && ram == old(ram).(ptes := ram.ptes) && SameSaturation(old(Counts()), Counts())
        invariant WithoutTables(old(ram.ptes), ram.ptes, gone) && gone <= UserTables(ram.pdes, d)
        invariant forall s :: s in ram.pdes && s.table == d && s.index < i ==> ram.pdes[s].frame in gone
      {
        var s := Slot(d, i);
        if s in ram.pdes {
          ghost var ptes, counts := ram.ptes, Counts();
          ReleaseEntries(ram.pdes[s].frame);
          WithoutMore(old(ram.ptes), ptes, ram.ptes, gone, ram.pdes[s].frame);
          SaturationThen(old(Counts()), counts, Counts());
          UserTableIn(ram.pdes, d, i);
          gone := gone + {ram.pdes[s].frame};
        }
      }
      AllUserTables(ram.pdes, d, gone);
    }

    /** The second loop: the page tables themselves, now empty. */
    method ReleaseTables(d: int)
      requires Memory() && forall s :: s in ram.pdes ==> s.index >= 0 && ram.pdes[s].frame in ram.tables
      requires forall s :: s in ram.ptes ==> s.table !in UserTables(ram.pdes, d)
      requires forall r, s | r in ram.pdes && s in ram.pdes && r.table == s.table == d ::
                 ram.pdes[r].frame == ram.pdes[s].frame ==> r == s
      modifies this`ram, pa, pa.bitmap, pa.refCounts
      ensures Memory() && SameSaturation(old(Counts()), Counts())
      ensures ram == old(ram).(tables := old(ram.tables) - UserTables(ram.pdes, d))
    {
      ghost var gone: set<int> := {};
      for i := 0 to KERNEL_PDE_IDX
        invariant Memory() && SameSaturation(old(Counts()), Counts())
        invariant gone <= UserTables(ram.pdes, d) && ram == old(ram).(tables := old(ram.tables) - gone)
        invariant forall s :: s in ram.pdes && s.table == d && s.index < i ==> ram.pdes[s].frame in gone
        invariant forall t :: t in gone ==>
                    exists s :: s in ram.pdes && s.table == d && s.index < i && ram.pdes[s].frame == t
      {
        var s := Slot(d, i);
        if s in ram.pdes {
          var t := ram.pdes[s].frame;
          AccountDropTable(Counts(), ram.tables, ram.ptes, t);
          pa.UnrefPage(t);
          ram := ram.(tables := ram.tables - {t});
          gone := gone + {t};
        }
      }
      AllUserTables(ram.pdes, d, gone);
    }

    /** The directory is gone; its user half holds nothing any more. */
    method DropDirectory(pd: int, ghost tables: set<int>, ghost ptes: Store)
      requires Memory() && Owned(ram.dirs, ram.pdes, tables, owners.of, kernelPd) && Tallied(tables, ram.pdes, leaked)
      requires pd in ram.dirs && pd != kernelPd && forall d :: d in ram.dirs ==> d < nextDirectory
      requires ram.tables == tables - UserTables(ram.pdes, pd) && current == kernelPd
      requires WithoutTables(ptes, ram.ptes, UserTables(ram.pdes, pd)) && Reflects(view, ram.(ptes := ptes))
      modifies this`ram
      ensures Valid() && ram == old(ram).(dirs := old(ram.dirs) - {pd}, pdes := ram.pdes)
    {
      ghost var dirs, pdes := ram.dirs, ram.pdes;
      ram := ram.(dirs := ram.dirs - {pd}, pdes := map s | s in ram.pdes && s.table != pd :: ram.pdes[s]);
      DestroyedOwned(dirs, pdes, ram.pdes, tables, owners.of, kernelPd, pd);
      TallyDestroyed(dirs, pdes, ram.pdes, tables, owners.of, kernelPd, leaked, pd);
      forall c, v | c in ram.dirs ensures view(c, v) == Translate(c, ram.pdes, ram.ptes, v) {
        DestroyedTranslate(dirs, pdes, ram.pdes, tables, owners.of, kernelPd, pd, ptes, ram.ptes, c, v);
        assert view(c, v) == Translate(c, pdes, ptes, v);
      }
    }

    /** paging_destroy_current_page_directory, but for the kfree of the directory's block: the
        user half of the current directory is given back, and the kernel directory becomes
        current. */
    method ReleaseCurrentDirectory()
      requires Valid()
      modifies this`ram, this`current, pa, pa.bitmap, pa.refCounts
      ensures Valid() && current == kernelPd && ram.pages == old(ram.pages)
      ensures SameSaturation(old(Counts()), Counts())
      ensures KernelKept(old(view), old(current), old(Counts()), old(ram.pages), view, current, Counts(), ram.pages)
      ensures old(current) == kernelPd ==> ram == old(ram) && Counts() == old(Counts())
      ensures old(current) != kernelPd ==>
                && ram.dirs == old(ram.dirs) - {old(current)}
                && ram.tables == old(ram.tables) - UserTables(old(ram.pdes), old(current))
                && WithoutTables(old(ram.ptes), ram.ptes, UserTables(old(ram.pdes), old(current)))
    {
      hide Accounted, Owned, Tallied, UserTables, KernelKept, Reflects, Translate, SameSaturation, WithoutTables;
      ghost var ram0, counts0, d := ram, Counts(), current;
      if current == kernelPd {
        KernelKeptSame(view, current, Counts(), ram.pages);
        SaturationSame(Counts());
        return;
      }
      PdesIn(ram.dirs, ram.pdes, ram.tables, owners.of, kernelPd);
      ReleasePages(current);
      var pd := current;
      current := kernelPd;
      SolePlaces(ram.dirs, ram.pdes, ram.tables, owners.of, kernelPd, pd);
      TablesEmpty(ram0.ptes, ram.ptes, UserTables(ram.pdes, pd));
      ghost var counts1 := Counts();
      ReleaseTables(pd);
      SaturationThen(counts0, counts1, Counts());
      ReflectsSame(view, ram0, ram.(ptes := ram0.ptes));
      DropDirectory(pd, ram0.tables, ram0.ptes);
      KernelKeptByRelease(ram0, view, d, counts0, owners.of, kernelPd, ram.tables, ram.ptes, Counts());
    }

    method SwitchPageDirectory(d: int)
      requires Valid() && d in ram.dirs
      modifies this`current
      ensures Valid() && current == d
      ensures KernelKept(view, old(current), Counts(), ram.pages, view, d, Counts(), ram.pages)
    {
      hide Accounted, Tallied;
      forall w | w >= KERNEL_VPAGE ensures view(d, w) == view(current, w) {
        KernelHalfShared(ram.dirs, ram.pdes, ram.tables, owners.of, kernelPd, ram.ptes, d, current, w);
        assert view(d, w) == Translate(d, ram.pdes, ram.ptes, w)
               && view(current, w) == Translate(current, ram.pdes, ram.ptes, w);
      }
      current := d;
    }

    /** The frames that a fork of the current directory takes, besides those of the block. */
    ghost function ForkCost(): nat
      reads this
    {
      ForkFrames(ram.pdes, ram.ptes, current, KERNEL_PDE_IDX)
    }

    twostate lemma SameForkCost()
      requires old(Valid()) && Valid() && current == old(current) && ram.pdes == old(ram.pdes)
      requires forall v :: 0 <= v < KERNEL_VPAGE ==> view(current, v) == old(view)(current, v)
      ensures ForkCost() == old(ForkCost())
    {
      forall v | 0 <= v < KERNEL_VPAGE
        ensures Translate(current, ram.pdes, ram.ptes, v) == Translate(current, ram.pdes, old(ram.ptes), v)
      {
        assert view(current, v) == Translate(current, ram.pdes, ram.ptes, v);
        assert old(view)(current, v) == Translate(current, ram.pdes, old(ram.ptes), v);
      }
      ForkFramesKept(ram.pdes, old(ram.ptes), ram.ptes, current);
    }

    /** What a directory maps, and which page tables it has, as they are. */
    ghost predicate Tabled(r: Ram, was: (int, int) -> Mapping, d: int) {
      Reflects(was, r) && d in r.dirs && forall w :: KERNEL_VPAGE <= w < VPAGES ==> Pde(d, w) in r.pdes
    }

    lemma IsTabled()
      requires Valid()
      ensures Tabled(ram, view, current)
    {
      forall w | KERNEL_VPAGE <= w < VPAGES ensures Pde(current, w) in ram.pdes {
        KernelPde(ram.dirs, ram.pdes, ram.tables, owners.of, kernelPd, current, w);
      }
    }

    /** Since r and was, pages [v, v+n) were mapped as shared: a fork takes a frame more for each
        new page table. */
    lemma CostOfShared(r: Ram, was: (int, int) -> Mapping, v: int, n: nat)
      requires Valid() && Tabled(r, was, current) && 0 <= v && v + n <= VPAGES
      requires ram.pdes.Keys == r.pdes.Keys + Missing(r.pdes, current, v, n)
      requires forall w :: 0 <= w < KERNEL_VPAGE && !(v <= w < v + n) ==> view(current, w) == was(current, w)
      requires forall w :: v <= w < v + n ==>
                 was(current, w).Unmapped? && view(current, w).Mapped? && IsShared(view(current, w).entry.flags)
      ensures ForkCost() == ForkFrames(r.pdes, r.ptes, current, KERNEL_PDE_IDX) + |Missing(r.pdes, current, v, n)|
    {
      hide Accounted, Tallied, Owned, Translate, IsPrivate, ForkFrames;
      forall w | 0 <= w < KERNEL_VPAGE
        ensures IsPrivate(Translate(current, ram.pdes, ram.ptes, w))
                <==> IsPrivate(Translate(current, r.pdes, r.ptes, w))
      {
        assert view(current, w) == Translate(current, ram.pdes, ram.ptes, w);
        assert was(current, w) == Translate(current, r.pdes, r.ptes, w);
        PrivacyKept(was(current, w), view(current, w), v <= w < v + n);
      }
      MoreTables(r.pdes, ram.pdes, r.ptes, ram.ptes, current, Missing(r.pdes, current, v, n));
    }

    /** A fork and the end of the child, apart from the block of its directory. The entries are
        exactly the old ones, and the reference counts too if and only if no count reached
        saturation on the way; `peak` is the allocator after the fork. */
    method CloneAndRelease() returns (dst: int, ok: bool, ghost peak: seq<RefCount>)
      requires Valid()
      modifies this`ram, this`view, this`owners, this`nextDirectory, this`current, this`leaked, pa, pa.bitmap,
               pa.refCounts
      ensures Valid() && (ok ==> leaked == old(leaked) && current == kernelPd) && (!ok ==> current == old(current))
      ensures dst !in old(ram.dirs) && (!ok ==> ram.dirs == old(ram.dirs) + {dst})
      ensures forall c, v :: c in old(ram.dirs) ==> view(c, v) == old(view)(c, v)
      ensures KernelKept(old(view), old(current), old(Counts()), old(ram.pages), view, current, Counts(), ram.pages)
      ensures ok ==>
                && ram.dirs == old(ram.dirs) && ram.tables == old(ram.tables) && ram.ptes == old(ram.ptes)
                && SameSaturation(peak, Counts()) && Grows(old(Counts()), peak)
                && (Counts() == old(Counts()) <==> SameSaturation(old(Counts()), peak))
      ensures Untouched(old(Counts()), old(ram.pages), ram.pages)
      ensures Afforded(old(Counts()), peak, old(ForkCost()), ok)
      ensures !ok ==> peak == Counts()
    {
      hide Accounted, Owned, Tallied, UserTables, KernelKept, Reflects, Translate, SameSaturation, WithoutTables,
           OutsideTables, Grows, Untouched, ForkedPage, Afforded, ForkFrames;
      ghost var ram0, view0, counts0, d := ram, view, Counts(), current;
      TablesOf(Counts(), ram.tables, ram.ptes);
      KernelPdIn(ram.dirs, ram.pdes, ram.tables, owners.of, kernelPd);
      dst, ok := CloneInto();
      peak := Counts();
      if !ok { return; }
      ghost var forked, view1, d1 := ram, view, current;
      TablesOf(Counts(), ram.tables, ram.ptes);
      SwitchPageDirectory(dst);
      KernelKeptThen(view0, d, counts0, ram0.pages, view1, d1, peak, forked.pages, view1, dst, peak, forked.pages);
      ReleaseCurrentDirectory();
      KernelKeptThen(view0, d, counts0, ram0.pages, view1, dst, peak, forked.pages, view, current, Counts(), ram.pages);
      RestoredEntries(ram0.tables, ram0.ptes, forked.tables, forked.ptes, UserTables(forked.pdes, dst), ram.ptes);
      AccountsDetermine(counts0, Counts(), ram.tables, ram.ptes);
      SaturationBack(counts0, peak, Counts());
    }

    /** What page m holds. */
    function Read(pages: seq<Page>, m: Mapping): Page
      requires m.Mapped? && m.entry.frame < |pages|
    {
      pages[m.entry.frame]
    }

    function Write(pages: seq<Page>, m: Mapping, p: Page): seq<Page>
      requires m.Mapped? && m.entry.frame < |pages|
    {
      pages[m.entry.frame := p]
    }

    /** After a fork, a page written on one side shows on the other side exactly if
        it is shared; a private page of the child shows nowhere else at all. */
    lemma ForkIsolation(parent: int, child: int, v: int, p: Page, counts0: seq<RefCount>, pages0: seq<Page>)
      requires Valid() && parent in ram.dirs && child in ram.dirs && parent != child
      requires 0 <= v < KERNEL_VPAGE && view(parent, v).Mapped?
      requires ForkedPage(view(parent, v), view(child, v), ram.ptes, counts0, pages0, ram.pages)
      ensures view(child, v).Mapped? && view(child, v).entry.frame < |ram.pages|
              && view(parent, v).entry.frame < |ram.pages|
      ensures var shared := IsShared(view(parent, v).entry.flags);
              && Read(Write(ram.pages, view(child, v), p), view(parent, v))
                 == (if shared then p else Read(ram.pages, view(parent, v)))
              && Read(Write(ram.pages, view(parent, v), p), view(child, v))
                 == (if shared then p else Read(ram.pages, view(child, v)))
      ensures !IsShared(view(parent, v).entry.flags) ==>
                forall c, w :: c in ram.dirs && (c, w) != (child, v) && view(c, w).Mapped? ==>
                  view(c, w).entry.frame != view(child, v).entry.frame
    {
      MappedInUse(parent, v);
      MappedInUse(child, v);
      if !IsShared(view(parent, v).entry.flags) {
        forall c, w | c in ram.dirs && (c, w) != (child, v) && view(c, w).Mapped?
          ensures view(c, w).entry.frame != view(child, v).entry.frame
        {
          assert view(c, w) == Translate(c, ram.pdes, ram.ptes, w);
          assert view(child, v) == Translate(child, ram.pdes, ram.ptes, v);
          SamePte(ram.dirs, ram.pdes, ram.tables, owners.of, kernelPd, child, v, c, w);
          OneHolder(ram.ptes, Pte(ram.pdes, child, v), Pte(ram.pdes, c, w));
        }
        assert (parent, v) != (child, v);
      }
    }

    // ----- memory access through the current address space -----

    /** The bytes of page v. */
    ghost function PageAt(v: int): Page
      requires Valid() && At(v).Mapped?
      reads this, pa, pa.bitmap, pa.refCounts
    {
      MappedInUse(current, v);
      ram.pages[At(v).entry.frame]
    }

    method LoadWord(v: int, off: nat) returns (x: int)
      requires Valid() && At(v).Mapped? && off + 4 <= PAGE_SIZE
      ensures x == Load32(PageAt(v), off) && 0 <= x < WORD
    {
      MappedInUse(current, v);
      assert At(v) == Translate(current, ram.pdes, ram.ptes, v);
      x := Load32(ram.pages[ram.ptes[Pte(ram.pdes, current, v)].frame], off);
    }

    method StoreWord(v: int, off: nat, x: int)
      requires Valid() && At(v).Mapped? && off + 4 <= PAGE_SIZE
      modifies this`ram
      ensures Valid() && At(v).entry.frame < |old(ram.pages)|
      ensures ram == old(ram).(pages := old(ram.pages)[At(v).entry.frame := Store32(old(PageAt(v)), off, x)])
    {
      MappedInUse(current, v);
      assert At(v) == Translate(current, ram.pdes, ram.ptes, v);
      var f := ram.ptes[Pte(ram.pdes, current, v)].frame;
      ram := ram.(pages := ram.pages[f := Store32(ram.pages[f], off, x)]);
      assert forall c, w :: Translate(c, ram.pdes, ram.ptes, w) == Translate(c, old(ram).pdes, old(ram).ptes, w);
    }

    method LoadByte(v: int, off: nat) returns (x: Byte)
      requires Valid() && At(v).Mapped? && off < PAGE_SIZE
      ensures x == PageAt(v)[off]
    {
      MappedInUse(current, v);
      assert At(v) == Translate(current, ram.pdes, ram.ptes, v);
      x := ram.pages[ram.ptes[Pte(ram.pdes, current, v)].frame][off];
    }

    method StoreByte(v: int, off: nat, x: Byte)
      requires Valid() && At(v).Mapped? && off < PAGE_SIZE
      modifies this`ram
      ensures Valid() && At(v).entry.frame < |old(ram.pages)|
      ensures ram == old(ram).(pages := old(ram.pages)[At(v).entry.frame := old(PageAt(v))[off := x]])
    {
      MappedInUse(current, v);
      assert At(v) == Translate(current, ram.pdes, ram.ptes, v);
      var f := ram.ptes[Pte(ram.pdes, current, v)].frame;
      ram := ram.(pages := ram.pages[f := ram.pages[f][off := x]]);
      assert forall c, w :: Translate(c, ram.pdes, ram.ptes, w) == Translate(c, old(ram).pdes, old(ram).ptes, w);
    }
  }
}
