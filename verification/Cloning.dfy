/** What a cloned page table is, as a relation between the entry stores and page
    contents before and after (kernel/memory/paging.c, clone_page_table). */
module Cloning {
  import opened Basics
  import opened Frames
  import opened Tables
  import opened Words

  predicate WasFree(counts: seq<RefCount>, f: int) {
    0 <= f < |counts| && counts[f] == 0
  }

  predicate InUse(counts: seq<RefCount>, f: int) {
    0 <= f < |counts| && counts[f] > 0
  }

  ghost predicate Grows(before: seq<RefCount>, after: seq<RefCount>) {
    |before| == |after| && forall f :: 0 <= f < |before| ==> before[f] <= after[f]
  }

  /** No other entry of any page table names the frame that s names. */
  ghost predicate Sole(ptes: Store, s: Slot) {
    s in ptes && forall r :: r in ptes && ptes[r].frame == ptes[s].frame ==> r == s
  }

  /** The pages of frames in use are as before. */
  ghost predicate Untouched(counts: seq<RefCount>, pages0: seq<Page>, pages: seq<Page>) {
    |pages| == |pages0| && forall f :: InUse(counts, f) && f < |pages| ==> pages[f] == pages0[f]
  }

  /** Entry x of the clone stands for entry e of the original: a shared page is the
      same entry; any other is a frame that was free, named by this entry alone,
      with the same flags and the same bytes. */
  ghost predicate ClonedEntry(e: Entry, ptes: Store, s: Slot, counts0: seq<RefCount>, pages0: seq<Page>,
                              pages: seq<Page>)
  {
    && s in ptes
    && if IsShared(e.flags) then ptes[s] == e
       else
         && ptes[s].flags == e.flags && WasFree(counts0, ptes[s].frame) && Sole(ptes, s)
         && ptes[s].frame < |pages| && e.frame < |pages0| && pages[ptes[s].frame] == pages0[e.frame]
  }

  /** The first n entries of table dst clone those of table src. */
  ghost predicate ClonedTable(ptes0: Store, src: int, ptes: Store, dst: int, n: nat, counts0: seq<RefCount>,
                              pages0: seq<Page>, pages: seq<Page>)
  {
    forall i {:trigger Slot(src, i)} {:trigger Slot(dst, i)} :: 0 <= i < n ==>
      && (Slot(dst, i) in ptes <==> Slot(src, i) in ptes0)
      && (Slot(src, i) in ptes0 ==> ClonedEntry(ptes0[Slot(src, i)], ptes, Slot(dst, i), counts0, pages0, pages))
  }

  /** Only table dst has got entries, all below index n. */
  ghost predicate OnlyAdds(ptes0: Store, ptes: Store, dst: int, n: nat) {
    && (forall s :: s in ptes0 ==> s in ptes && ptes[s] == ptes0[s])
    && (forall s :: s in ptes && s !in ptes0 ==> s.table == dst && 0 <= s.index < n)
  }

  /** Adding an entry for a frame that no entry of `ptes` outside table src names
      leaves every sole entry outside src sole. */
  lemma SoleStep(ptes: Store, s: Slot, r: Slot, e: Entry)
    requires Sole(ptes, s) && r !in ptes && e.frame != ptes[s].frame
    ensures Sole(ptes[r := e], s)
  {
  }

  lemma ClonedEntryStep(e: Entry, ptes: Store, s: Slot, counts0: seq<RefCount>, pages0: seq<Page>, pages: seq<Page>,
                        r: Slot, x: Entry, pages': seq<Page>)
    requires ClonedEntry(e, ptes, s, counts0, pages0, pages)
    requires r !in ptes && (IsShared(e.flags) || x.frame != ptes[s].frame)
    requires |pages'| == |pages| && forall f :: 0 <= f < |pages| && f != x.frame ==> pages'[f] == pages[f]
    ensures ClonedEntry(e, ptes[r := x], s, counts0, pages0, pages')
  {
    if !IsShared(e.flags) { SoleStep(ptes, s, r, x); }
  }

  /** One more entry copied: entry i of the clone is x. */
  lemma ClonedTableStep(ptes0: Store, src: int, ptes: Store, dst: int, i: nat, counts0: seq<RefCount>,
                        pages0: seq<Page>, pages: seq<Page>, x: Entry, pages': seq<Page>)
    requires ClonedTable(ptes0, src, ptes, dst, i, counts0, pages0, pages)
    requires OnlyAdds(ptes0, ptes, dst, i) && Slot(src, i) in ptes0 && Slot(dst, i) !in ptes
    requires |pages'| == |pages| && forall f :: 0 <= f < |pages| && f != x.frame ==> pages'[f] == pages[f]
    requires forall s :: s in ptes && WasFree(counts0, ptes[s].frame) ==> ptes[s].frame != x.frame
    requires ClonedEntry(ptes0[Slot(src, i)], ptes[Slot(dst, i) := x], Slot(dst, i), counts0, pages0, pages')
    ensures ClonedTable(ptes0, src, ptes[Slot(dst, i) := x], dst, i + 1, counts0, pages0, pages')
    ensures OnlyAdds(ptes0, ptes[Slot(dst, i) := x], dst, i + 1)
  {
    var ptes' := ptes[Slot(dst, i) := x];
    forall j {:trigger Slot(src, j)} {:trigger Slot(dst, j)} | 0 <= j < i
      ensures Slot(dst, j) in ptes' <==> Slot(src, j) in ptes0
      ensures Slot(src, j) in ptes0 ==> ClonedEntry(ptes0[Slot(src, j)], ptes', Slot(dst, j), counts0, pages0, pages')
    {
      if Slot(src, j) in ptes0 {
        ClonedEntryStep(ptes0[Slot(src, j)], ptes, Slot(dst, j), counts0, pages0, pages, Slot(dst, i), x, pages');
      }
    }
  }

  /** Sole entries of other tables stay sole while table src is being cloned: the
      clone names frames that were free, or that src names itself. */
  ghost predicate KeepsSole(ptes0: Store, src: int, ptes: Store) {
    forall s: Slot :: s.table != src && Sole(ptes0, s) ==> Sole(ptes, s)
  }

  lemma KeepsSoleStep(ptes0: Store, e: Slot, ptes: Store, dst: int, i: nat, r: Slot, x: Entry)
    requires KeepsSole(ptes0, e.table, ptes) && OnlyAdds(ptes0, ptes, dst, i) && e in ptes0 && r !in ptes
    requires x.frame == ptes0[e].frame || forall s :: s in ptes ==> ptes[s].frame != x.frame
    ensures KeepsSole(ptes0, e.table, ptes[r := x])
  {
    forall s: Slot | s.table != e.table && Sole(ptes0, s) ensures Sole(ptes[r := x], s) {
      SoleStep(ptes, s, r, x);
    }
  }

  /** After n entries: table dst holds clones of the first n entries of table src,
      and nothing that was in use before has changed. */
  ghost predicate Cloned(ptes0: Store, src: int, ptes: Store, dst: int, n: nat, counts0: seq<RefCount>,
                         pages0: seq<Page>, pages: seq<Page>)
  {
    && OnlyAdds(ptes0, ptes, dst, n)
    && KeepsSole(ptes0, src, ptes)
    && Untouched(counts0, pages0, pages)
    && ClonedTable(ptes0, src, ptes, dst, n, counts0, pages0, pages)
  }

  lemma ClonedFacts(ptes0: Store, src: int, ptes: Store, dst: int, n: nat, counts0: seq<RefCount>,
                    pages0: seq<Page>, pages: seq<Page>, tables0: set<int>)
    requires Cloned(ptes0, src, ptes, dst, n, counts0, pages0, pages) && dst !in tables0
    requires forall s :: s in ptes0 ==> s.table in tables0
    ensures KeepsSole(ptes0, src, ptes) && Untouched(counts0, pages0, pages) && OutsideTables(tables0, ptes0, ptes)
    ensures forall k :: k >= n ==> Slot(dst, k) !in ptes
    ensures forall s: Slot :: s.table != dst ==> (s in ptes <==> s in ptes0) && (s in ptes ==> ptes[s] == ptes0[s])
  {
  }

  /** A page table has just been allocated, and is empty. */
  lemma ClonedNone(counts0: seq<RefCount>, tables0: set<int>, ptes0: Store, src: int, dst: nat, pages0: seq<Page>)
    requires Accounted(counts0, tables0, ptes0) && dst < |counts0| && counts0[dst] == 0
    ensures dst !in tables0 && Accounted(counts0[dst := 1], tables0 + {dst}, ptes0) && Grows(counts0, counts0[dst := 1])
    ensures Cloned(ptes0, src, ptes0, dst, 0, counts0, pages0, pages0)
    ensures CountsBut({src}, ptes0, counts0, counts0[dst := 1])
    ensures forall s :: s in ptes0 ==> s.table in tables0
  {
    AccountNewTable(counts0, tables0, ptes0, dst);
  }

  lemma NothingCloned(counts: seq<RefCount>, tables: set<int>, ptes: Store, src: int, pages: seq<Page>)
    ensures Grows(counts, counts) && Untouched(counts, pages, pages) && OutsideTables(tables, ptes, ptes)
    ensures KeepsSole(ptes, src, ptes) && CountsBut({src}, ptes, counts, counts)
  {
  }

  lemma GrowsThen(a: seq<RefCount>, b: seq<RefCount>, c: seq<RefCount>)
    requires Grows(a, b) && Grows(b, c)
    ensures Grows(a, c)
  {
  }

  lemma ClonedSkip(ptes0: Store, src: int, ptes: Store, dst: int, i: nat, counts0: seq<RefCount>,
                   pages0: seq<Page>, pages: seq<Page>)
    requires Cloned(ptes0, src, ptes, dst, i, counts0, pages0, pages)
    requires Slot(src, i) !in ptes0 && Slot(dst, i) !in ptes
    ensures Cloned(ptes0, src, ptes, dst, i + 1, counts0, pages0, pages)
  {
    hide ClonedEntry;
  }

  /** What one round of the loop may do: x is the shared entry itself, or a private
      copy on a frame that is free in the current `counts`. */
  ghost predicate CopiesEntry(e: Entry, x: Entry, counts: seq<RefCount>, pages: seq<Page>, pages': seq<Page>) {
    if IsShared(e.flags) then x == e && pages' == pages
    else x.flags == e.flags && WasFree(counts, x.frame)
         && x.frame < |pages| && e.frame < |pages| && pages' == pages[x.frame := pages[e.frame]]
  }

  lemma ClonedStep(ptes0: Store, src: int, ptes: Store, dst: int, i: nat, counts0: seq<RefCount>,
                   pages0: seq<Page>, pages: seq<Page>, tables0: set<int>, tables: set<int>, counts: seq<RefCount>,
                   x: Entry, pages': seq<Page>)
    requires Cloned(ptes0, src, ptes, dst, i, counts0, pages0, pages)
    requires Accounted(counts0, tables0, ptes0) && Accounted(counts, tables, ptes) && Grows(counts0, counts)
    requires |pages| == |counts|
    requires Slot(src, i) in ptes0 && Slot(dst, i) !in ptes
    requires CopiesEntry(ptes0[Slot(src, i)], x, counts, pages, pages')
    ensures Cloned(ptes0, src, ptes[Slot(dst, i) := x], dst, i + 1, counts0, pages0, pages')
  {
    var e, r := Slot(src, i), Slot(dst, i);
    HolderCounts(counts0, tables0, ptes0, e);
    forall s | s in ptes ensures InUse(counts, ptes[s].frame) { HolderCounts(counts, tables, ptes, s); }
    KeepsSoleStep(ptes0, e, ptes, dst, i, r, x);
    assert ClonedEntry(ptes0[e], ptes[r := x], r, counts0, pages0, pages');
    ClonedTableStep(ptes0, src, ptes, dst, i, counts0, pages0, pages, x, pages');
  }

  // ----- whose counts change -----

  /** An entry of one of these page tables names frame f. */
  ghost predicate NamedIn(tables: set<int>, ptes: Store, f: int) {
    exists s :: s in ptes && s.table in tables && ptes[s].frame == f
  }

  /** Of the frames in use, only those that the tables being cloned name are referred to more often. */
  ghost predicate CountsBut(tables: set<int>, ptes: Store, before: seq<RefCount>, after: seq<RefCount>) {
    |after| == |before| && forall f :: InUse(before, f) && !NamedIn(tables, ptes, f) ==> after[f] == before[f]
  }

  lemma CountsButThen(from: set<int>, from': set<int>, tables0: set<int>, ptes0: Store, ptes: Store,
                      before: seq<RefCount>, mid: seq<RefCount>, after: seq<RefCount>)
    requires CountsBut(from, ptes0, before, mid) && CountsBut(from', ptes, mid, after) && Grows(before, mid)
    requires from' <= from <= tables0 && OutsideTables(tables0, ptes0, ptes)
    ensures CountsBut(from, ptes0, before, after)
  {
    forall f | InUse(before, f) && !NamedIn(from, ptes0, f) ensures after[f] == before[f] {
      forall s | s in ptes && s.table in from' ensures ptes[s].frame != f {
        assert s in ptes0 && ptes0[s] == ptes[s];
      }
    }
  }

  lemma OneReference(counts: seq<RefCount>, tables: set<int>, ptes: Store, k: Slot, s: Slot)
    requires Accounted(counts, tables, ptes) && k in ptes && s in ptes && ptes[s].frame == ptes[k].frame
    requires counts[ptes[k].frame] == 1
    ensures s == k
  {
    assert {k, s} <= Holders(ptes, ptes[k].frame);
    SubsetSize({k, s}, Holders(ptes, ptes[k].frame));
  }

  /** A frame with one reference, which is in another table, is not named in these tables. */
  lemma NamedElsewhere(counts: seq<RefCount>, tables: set<int>, ptes: Store, k: Slot, from: set<int>)
    requires Accounted(counts, tables, ptes) && k in ptes && counts[ptes[k].frame] == 1 && k.table !in from
    ensures !NamedIn(from, ptes, ptes[k].frame)
  {
    forall s | s in ptes && s.table in from ensures ptes[s].frame != ptes[k].frame {
      if ptes[s].frame == ptes[k].frame { OneReference(counts, tables, ptes, k, s); }
    }
  }

  /** A frame with one reference keeps it when entries of other tables go. */
  lemma SoleKept(counts0: seq<RefCount>, tables0: set<int>, ptes0: Store, counts: seq<RefCount>, tables: set<int>,
                 ptes: Store, gone: set<int>, k: Slot)
    requires Accounted(counts0, tables0, ptes0) && Accounted(counts, tables, ptes) && SameSaturation(counts0, counts)
    requires WithoutTables(ptes0, ptes, gone) && k in ptes0 && k.table !in gone && counts0[ptes0[k].frame] == 1
    ensures counts[ptes0[k].frame] == 1
  {
    var f := ptes0[k].frame;
    forall s ensures s in Holders(ptes, f) <==> s == k {
      if s in Holders(ptes, f) { OneReference(counts0, tables0, ptes0, k, s); }
    }
    assert Holders(ptes, f) == {k};
  }

  // ----- how many frames it takes -----

  /** The indices below n at which page table t maps a page that is not shared. */
  ghost function PrivateIn(ptes: Store, t: int, n: nat): set<int> {
    set i | 0 <= i < n && Slot(t, i) in ptes && !IsShared(ptes[Slot(t, i)].flags)
  }

  lemma PrivateStep(ptes: Store, t: int, i: nat)
    ensures |PrivateIn(ptes, t, i + 1)|
            == |PrivateIn(ptes, t, i)|
               + if Slot(t, i) in ptes && !IsShared(ptes[Slot(t, i)].flags) then 1 else 0
  {
    var more := if Slot(t, i) in ptes && !IsShared(ptes[Slot(t, i)].flags) then {i as int} else {};
    assert PrivateIn(ptes, t, i + 1) == PrivateIn(ptes, t, i) + more;
  }

  lemma PrivateNone(ptes: Store, t: int)
    ensures PrivateIn(ptes, t, 0) == {}
  {
  }

  lemma PrivateGrows(ptes: Store, t: int, i: nat, n: nat)
    requires i <= n
    ensures |PrivateIn(ptes, t, i)| <= |PrivateIn(ptes, t, n)|
  {
    SubsetSize(PrivateIn(ptes, t, i), PrivateIn(ptes, t, n));
  }

  /** A page table keeps its private pages while others are being made. */
  lemma PrivateSame(tables: set<int>, was: Store, now: Store, t: int, n: nat)
    requires OutsideTables(tables, was, now) && t in tables
    ensures PrivateIn(now, t, n) == PrivateIn(was, t, n)
  {
  }

  /** The pages below n that directory d maps and does not share. */
  ghost function PrivatePages(pdes: Store, ptes: Store, d: int, n: int): set<int> {
    set v | 0 <= v < n && IsPrivate(Translate(d, pdes, ptes, v))
  }

  predicate IsPrivate(m: Mapping) {
    m.Mapped? && !IsShared(m.entry.flags)
  }

  /** The slots below p in which directory d has a page table. */
  ghost function TableSlots(pdes: Store, d: int, p: int): set<int> {
    set q | 0 <= q < p && Slot(d, q) in pdes
  }

  /** The frames that a fork of the first p slots of directory d takes: one for each page
      table and one for each private page. */
  ghost function ForkFrames(pdes: Store, ptes: Store, d: int, p: nat): nat {
    |TableSlots(pdes, d, p)| + |PrivatePages(pdes, ptes, d, p * ENTRIES)|
  }

  lemma PrivatePagesStep(pdes: Store, ptes: Store, d: int, v: nat)
    ensures |PrivatePages(pdes, ptes, d, v + 1)|
            == |PrivatePages(pdes, ptes, d, v)| + if IsPrivate(Translate(d, pdes, ptes, v)) then 1 else 0
  {
    var more := if IsPrivate(Translate(d, pdes, ptes, v)) then {v as int} else {};
    assert PrivatePages(pdes, ptes, d, v + 1) == PrivatePages(pdes, ptes, d, v) + more;
  }

  /** The private pages in slot p of directory d are those of its page table. */
  lemma {:induction false} PrivateOfSlot(pdes: Store, ptes: Store, d: int, p: nat, i: nat)
    requires p < KERNEL_PDE_IDX && i <= ENTRIES
    ensures |PrivatePages(pdes, ptes, d, p * ENTRIES + i)|
            == |PrivatePages(pdes, ptes, d, p * ENTRIES)|
               + if Slot(d, p) in pdes then |PrivateIn(ptes, pdes[Slot(d, p)].frame, i)| else 0
    decreases i
  {
    if i > 0 {
      PrivateOfSlot(pdes, ptes, d, p, i - 1);
      var v := p * ENTRIES + (i - 1);
      PrivatePagesStep(pdes, ptes, d, v);
      assert Pde(d, v) == Slot(d, p) && v % ENTRIES == i - 1;
      if Slot(d, p) in pdes { PrivateStep(ptes, pdes[Slot(d, p)].frame, i - 1); }
    }
  }

  lemma TableSlotsStep(pdes: Store, d: int, p: nat)
    ensures |TableSlots(pdes, d, p + 1)| == |TableSlots(pdes, d, p)| + if Slot(d, p) in pdes then 1 else 0
  {
    var more := if Slot(d, p) in pdes then {p as int} else {};
    assert TableSlots(pdes, d, p + 1) == TableSlots(pdes, d, p) + more;
  }

  lemma ForkFramesStep(pdes: Store, ptes: Store, d: int, p: nat)
    requires p < KERNEL_PDE_IDX
    ensures ForkFrames(pdes, ptes, d, p + 1)
            == ForkFrames(pdes, ptes, d, p)
               + if Slot(d, p) in pdes then 1 + |PrivateIn(ptes, pdes[Slot(d, p)].frame, ENTRIES)| else 0
  {
    hide TableSlots, PrivatePages, PrivateIn;
    PrivateOfSlot(pdes, ptes, d, p, ENTRIES);
    TableSlotsStep(pdes, d, p);
  }

  lemma ForkFramesNone(pdes: Store, ptes: Store, d: int)
    ensures ForkFrames(pdes, ptes, d, 0) == 0
  {
    assert TableSlots(pdes, d, 0) == {} && PrivatePages(pdes, ptes, d, 0) == {};
  }

  lemma ForkFramesGrow(pdes: Store, ptes: Store, d: int, p: nat, n: nat)
    requires p <= n
    ensures ForkFrames(pdes, ptes, d, p) <= ForkFrames(pdes, ptes, d, n)
  {
    SubsetSize(TableSlots(pdes, d, p), TableSlots(pdes, d, n));
    SubsetSize(PrivatePages(pdes, ptes, d, p * ENTRIES), PrivatePages(pdes, ptes, d, n * ENTRIES));
  }

  lemma ForkFramesKept(pdes: Store, ptes: Store, ptes': Store, d: int)
    requires forall v :: 0 <= v < KERNEL_VPAGE ==> Translate(d, pdes, ptes', v) == Translate(d, pdes, ptes, v)
    ensures ForkFrames(pdes, ptes', d, KERNEL_PDE_IDX) == ForkFrames(pdes, ptes, d, KERNEL_PDE_IDX)
  {
    assert PrivatePages(pdes, ptes', d, KERNEL_VPAGE) == PrivatePages(pdes, ptes, d, KERNEL_VPAGE);
  }

  /** The indices of slots of directory d. */
  ghost function Indices(slots: set<Slot>, d: int): set<int> {
    set q | 0 <= q < KERNEL_PDE_IDX && Slot(d, q) in slots
  }

  lemma {:induction false} IndicesSize(slots: set<Slot>, d: int)
    requires forall s :: s in slots ==> s.table == d && 0 <= s.index < KERNEL_PDE_IDX
    ensures |Indices(slots, d)| == |slots|
  {
    if slots == {} {
      assert Indices(slots, d) == {};
    } else {
      var s :| s in slots;
      IndicesSize(slots - {s}, d);
      assert Slot(d, s.index) == s;
      assert Indices(slots, d) == Indices(slots - {s}, d) + {s.index};
    }
  }

  /** Page tables for more slots of directory d, and the same private pages. */
  lemma MoreTables(pdes: Store, pdes': Store, ptes: Store, ptes': Store, d: int, more: set<Slot>)
    requires pdes'.Keys == pdes.Keys + more
    requires forall s :: s in more ==> s.table == d && 0 <= s.index < KERNEL_PDE_IDX && s !in pdes
    requires forall w :: 0 <= w < KERNEL_VPAGE ==>
               (IsPrivate(Translate(d, pdes', ptes', w)) <==> IsPrivate(Translate(d, pdes, ptes, w)))
    ensures ForkFrames(pdes', ptes', d, KERNEL_PDE_IDX) == ForkFrames(pdes, ptes, d, KERNEL_PDE_IDX) + |more|
  {
    hide Indices, TableSlots, PrivatePages;
    IndicesSize(more, d);
    MoreIndices(pdes, pdes', d, more);
    SamePrivate(pdes, pdes', ptes, ptes', d);
  }

  lemma SamePrivate(pdes: Store, pdes': Store, ptes: Store, ptes': Store, d: int)
    requires forall w :: 0 <= w < KERNEL_VPAGE ==>
               (IsPrivate(Translate(d, pdes', ptes', w)) <==> IsPrivate(Translate(d, pdes, ptes, w)))
    ensures PrivatePages(pdes', ptes', d, KERNEL_VPAGE) == PrivatePages(pdes, ptes, d, KERNEL_VPAGE)
  {
    hide Translate, IsPrivate;
    var was, now := PrivatePages(pdes, ptes, d, KERNEL_VPAGE), PrivatePages(pdes', ptes', d, KERNEL_VPAGE);
    forall w ensures w in now <==> w in was {}
  }

  lemma MoreIndices(pdes: Store, pdes': Store, d: int, more: set<Slot>)
    requires pdes'.Keys == pdes.Keys + more && forall s :: s in more ==> s !in pdes
    ensures TableSlots(pdes', d, KERNEL_PDE_IDX) == TableSlots(pdes, d, KERNEL_PDE_IDX) + Indices(more, d)
    ensures |TableSlots(pdes', d, KERNEL_PDE_IDX)| == |TableSlots(pdes, d, KERNEL_PDE_IDX)| + |Indices(more, d)|
  {
    var was, now, added := TableSlots(pdes, d, KERNEL_PDE_IDX), TableSlots(pdes', d, KERNEL_PDE_IDX), Indices(more, d);
    forall q ensures q in now <==> q in was || q in added {
      assert Slot(d, q) in pdes'.Keys <==> Slot(d, q) in pdes.Keys || Slot(d, q) in more;
    }
    assert now == was + added && was !! added;
  }

  /** A directory with a private page in its user half takes two frames to fork, one for the
      page and one for its page table. */
  lemma ForkTakesTwo(pdes: Store, ptes: Store, d: int, v: int)
    requires 0 <= v < KERNEL_VPAGE && IsPrivate(Translate(d, pdes, ptes, v))
    ensures ForkFrames(pdes, ptes, d, KERNEL_PDE_IDX) >= 2
  {
    SubsetSize({v}, PrivatePages(pdes, ptes, d, KERNEL_VPAGE));
    assert Pde(d, v) == Slot(d, v / ENTRIES);
    SubsetSize({v / ENTRIES}, TableSlots(pdes, d, KERNEL_PDE_IDX));
  }

  /** A new directory takes nothing from what a fork of directory d takes. */
  lemma ForkFramesSame(pdes: Store, after: Store, ptes: Store, d: int, dst: int)
    requires WithKernelHalf(pdes, after, d, dst) && d != dst
    ensures ForkFrames(after, ptes, d, KERNEL_PDE_IDX) == ForkFrames(pdes, ptes, d, KERNEL_PDE_IDX)
  {
    assert TableSlots(after, d, KERNEL_PDE_IDX) == TableSlots(pdes, d, KERNEL_PDE_IDX);
    forall v | 0 <= v < KERNEL_VPAGE ensures Translate(d, after, ptes, v) == Translate(d, pdes, ptes, v) {
      assert Pde(d, v) in after <==> Pde(d, v) in pdes;
    }
    assert PrivatePages(after, ptes, d, KERNEL_VPAGE) == PrivatePages(pdes, ptes, d, KERNEL_VPAGE);
  }

  // ----- from page tables to directories -----

  /** Entries are only added, and no page table of `tables` gets one. */
  ghost predicate OutsideTables(tables: set<int>, was: Store, now: Store) {
    && (forall s :: s in was ==> s in now && now[s] == was[s])
    && (forall s :: s in now && s !in was ==> s.table !in tables)
  }

  /** A table cloned earlier stays a clone while another one is being made. */
  lemma CarryTable(ptes0: Store, src: int, dst: int, counts0: seq<RefCount>, pages0: seq<Page>,
                   ptes: Store, tables: set<int>, counts: seq<RefCount>, pages: seq<Page>,
                   src': int, ptes': Store, pages': seq<Page>)
    requires ClonedTable(ptes0, src, ptes, dst, ENTRIES, counts0, pages0, pages)
    requires Accounted(counts, tables, ptes) && dst in tables && dst != src'
    requires OutsideTables(tables, ptes, ptes') && KeepsSole(ptes, src', ptes') && Untouched(counts, pages, pages')
    ensures ClonedTable(ptes0, src, ptes', dst, ENTRIES, counts0, pages0, pages')
  {
    forall i {:trigger Slot(src, i)} {:trigger Slot(dst, i)} | 0 <= i < ENTRIES
      ensures Slot(dst, i) in ptes' <==> Slot(src, i) in ptes0
      ensures Slot(src, i) in ptes0 ==>
                ClonedEntry(ptes0[Slot(src, i)], ptes', Slot(dst, i), counts0, pages0, pages')
    {
      if Slot(src, i) in ptes0 {
        HolderCounts(counts, tables, ptes, Slot(dst, i));
      }
    }
  }

  /** A clone of a table of the original state, made later, clones the original. */
  lemma RebaseTable(ptes0: Store, tables0: set<int>, counts0: seq<RefCount>, pages0: seq<Page>,
                    ptes: Store, counts: seq<RefCount>, pages: seq<Page>,
                    src: int, dst: int, ptes': Store, pages': seq<Page>)
    requires Accounted(counts0, tables0, ptes0) && src in tables0
    requires OutsideTables(tables0, ptes0, ptes) && Grows(counts0, counts) && Untouched(counts0, pages0, pages)
    requires ClonedTable(ptes, src, ptes', dst, ENTRIES, counts, pages, pages')
    ensures ClonedTable(ptes0, src, ptes', dst, ENTRIES, counts0, pages0, pages')
  {
    forall i {:trigger Slot(src, i)} {:trigger Slot(dst, i)} | 0 <= i < ENTRIES
      ensures Slot(dst, i) in ptes' <==> Slot(src, i) in ptes0
      ensures Slot(src, i) in ptes0 ==>
                ClonedEntry(ptes0[Slot(src, i)], ptes', Slot(dst, i), counts0, pages0, pages')
    {
      assert Slot(src, i) in ptes0 <==> Slot(src, i) in ptes;
      if Slot(src, i) in ptes0 {
        HolderCounts(counts0, tables0, ptes0, Slot(src, i));
      }
    }
  }

  /** The first n entries of directory dst hang clones of the page tables that
      hang below directory src. */
  ghost predicate ClonedDirectory(pdes0: Store, ptes0: Store, src: int, pdes: Store, ptes: Store, dst: int, n: nat,
                                  counts0: seq<RefCount>, pages0: seq<Page>, pages: seq<Page>)
  {
    forall p {:trigger Slot(src, p)} {:trigger Slot(dst, p)} :: 0 <= p < n ==>
      && (Slot(dst, p) in pdes <==> Slot(src, p) in pdes0)
      && (Slot(src, p) in pdes0 ==>
            && pdes[Slot(dst, p)].flags == pdes0[Slot(src, p)].flags
            && ClonedTable(ptes0, pdes0[Slot(src, p)].frame, ptes, pdes[Slot(dst, p)].frame, ENTRIES,
                           counts0, pages0, pages))
  }

  /** What a page of the new address space is, given what the page of the original
      one is: a shared page is the same frame; any other page is a frame that was
      free, with the same flags and bytes, which nothing else maps. */
  ghost predicate ForkedPage(m: Mapping, n: Mapping, ptes: Store, counts0: seq<RefCount>, pages0: seq<Page>,
                             pages: seq<Page>)
  {
    && m.Mapped? == n.Mapped?
    && (m.Mapped? ==>
          if IsShared(m.entry.flags) then n == m
          else
            && n.entry.flags == m.entry.flags && WasFree(counts0, n.entry.frame)
            && n.entry.frame < |pages| && m.entry.frame < |pages0|
            && pages[n.entry.frame] == pages0[m.entry.frame]
            && |Holders(ptes, n.entry.frame)| == 1)
  }

  lemma SoleHolder(ptes: Store, s: Slot)
    requires Sole(ptes, s)
    ensures Holders(ptes, ptes[s].frame) == {s}
  {
  }

  lemma ForkPage(pdes0: Store, ptes0: Store, src: int, pdes: Store, ptes: Store, dst: int,
                 counts0: seq<RefCount>, pages0: seq<Page>, pages: seq<Page>, v: int)
    requires ClonedDirectory(pdes0, ptes0, src, pdes, ptes, dst, KERNEL_PDE_IDX, counts0, pages0, pages)
    requires 0 <= v < KERNEL_VPAGE
    ensures ForkedPage(Translate(src, pdes0, ptes0, v), Translate(dst, pdes, ptes, v), ptes, counts0, pages0, pages)
  {
    var p, i := v / ENTRIES, v % ENTRIES;
    assert Pde(src, v) == Slot(src, p) && Pde(dst, v) == Slot(dst, p);
    if Slot(src, p) in pdes0 {
      var t, u := pdes0[Slot(src, p)].frame, pdes[Slot(dst, p)].frame;
      assert Pte(pdes0, src, v) == Slot(t, i) && Pte(pdes, dst, v) == Slot(u, i);
      if Slot(t, i) in ptes0 && !IsShared(ptes0[Slot(t, i)].flags) {
        SoleHolder(ptes, Slot(u, i));
      }
    }
  }

  lemma PdesIn(dirs: set<int>, pdes: Store, tables: set<int>, owner: map<int, Slot>, kernelPd: int)
    requires Owned(dirs, pdes, tables, owner, kernelPd)
    ensures forall s :: s in pdes ==> s.table in dirs && 0 <= s.index < RECURSIVE_IDX && pdes[s].frame in tables
  {
  }

  lemma OwnedMore(dirs: set<int>, pdes: Store, tables: set<int>, owner: map<int, Slot>, kernelPd: int,
                  tables': set<int>)
    requires Owned(dirs, pdes, tables, owner, kernelPd) && tables <= tables'
    ensures Owned(dirs, pdes, tables', owner, kernelPd)
  {
  }

  /** The user-half page tables of directory d. */
  ghost function UserTables(pdes: Store, d: int): set<int> {
    set s | s in pdes && s.table == d && s.index < KERNEL_PDE_IDX :: pdes[s].frame
  }

  /** What making directory dst, begun in (tables0, pdes0, ptes0, counts0, pages0),
      leaves alone: the old page tables, the pages in use, all other directories. */
  ghost predicate Around(tables0: set<int>, pdes0: Store, ptes0: Store, counts0: seq<RefCount>, pages0: seq<Page>,
                         tables: set<int>, pdes: Store, ptes: Store, counts: seq<RefCount>, pages: seq<Page>,
                         dst: int, n: nat)
  {
    && tables0 <= tables && OutsideTables(tables0, ptes0, ptes)
    && Grows(counts0, counts) && Untouched(counts0, pages0, pages)
    && (forall s: Slot :: s.table != dst ==> (s in pdes <==> s in pdes0) && (s in pdes ==> pdes[s] == pdes0[s]))
    && (forall s :: s in pdes && s.table == dst ==>
          (0 <= s.index < n && pdes[s].frame !in tables0) || s.index >= KERNEL_PDE_IDX)
  }

  /** How far the clone of directory src has come after n entries. */
  ghost predicate Forking(tables0: set<int>, pdes0: Store, ptes0: Store, counts0: seq<RefCount>, pages0: seq<Page>,
                          src: int, tables: set<int>, pdes: Store, ptes: Store, counts: seq<RefCount>,
                          pages: seq<Page>, dst: int, n: nat)
  {
    && Around(tables0, pdes0, ptes0, counts0, pages0, tables, pdes, ptes, counts, pages, dst, n)
    && ClonedDirectory(pdes0, ptes0, src, pdes, ptes, dst, n, counts0, pages0, pages)
  }

  lemma AroundLater(tables0: set<int>, pdes0: Store, ptes0: Store, counts0: seq<RefCount>, pages0: seq<Page>,
                    tables: set<int>, pdes: Store, ptes: Store, counts: seq<RefCount>, pages: seq<Page>,
                    dst: int, n: nat, tables': set<int>, ptes': Store, counts': seq<RefCount>, pages': seq<Page>)
    requires Around(tables0, pdes0, ptes0, counts0, pages0, tables, pdes, ptes, counts, pages, dst, n)
    requires tables <= tables' && OutsideTables(tables, ptes, ptes') && Grows(counts, counts')
    requires Untouched(counts, pages, pages')
    ensures Around(tables0, pdes0, ptes0, counts0, pages0, tables', pdes, ptes', counts', pages', dst, n)
  {
    OutsideTwice(tables0, tables, ptes0, ptes, ptes');
  }

  lemma AroundParts(tables0: set<int>, pdes0: Store, ptes0: Store, counts0: seq<RefCount>, pages0: seq<Page>,
                    tables: set<int>, pdes: Store, ptes: Store, counts: seq<RefCount>, pages: seq<Page>, dst: int,
                    n: nat)
    requires Around(tables0, pdes0, ptes0, counts0, pages0, tables, pdes, ptes, counts, pages, dst, n)
             && n <= KERNEL_PDE_IDX
    ensures Grows(counts0, counts) && Untouched(counts0, pages0, pages) && OutsideTables(tables0, ptes0, ptes)
    ensures UserTables(pdes, dst) !! tables0 && |pages| == |pages0|
  {
  }

  /** The entries of all directories there were stay the same. */
  lemma EntriesKept(tables0: set<int>, pdes0: Store, mid: Store, ptes0: Store, counts0: seq<RefCount>,
                    pages0: seq<Page>, tables: set<int>, pdes: Store, ptes: Store, counts: seq<RefCount>,
                    pages: seq<Page>, d: int, dst: int)
    requires WithKernelHalf(pdes0, mid, d, dst) && forall s :: s in pdes0 ==> s.table != dst
    requires Around(tables0, mid, ptes0, counts0, pages0, tables, pdes, ptes, counts, pages, dst, KERNEL_PDE_IDX)
    ensures forall s :: s in pdes0 ==> s in pdes && pdes[s] == pdes0[s]
  {
  }

  /** The new directory as a clone of what there was before it. */
  lemma ClonedFrom(pdes0: Store, mid: Store, ptes0: Store, d: int, pdes: Store, ptes: Store, dst: int,
                   counts0: seq<RefCount>, pages0: seq<Page>, pages: seq<Page>)
    requires WithKernelHalf(pdes0, mid, d, dst) && d != dst
    requires ClonedDirectory(mid, ptes0, d, pdes, ptes, dst, KERNEL_PDE_IDX, counts0, pages0, pages)
    ensures ClonedDirectory(pdes0, ptes0, d, pdes, ptes, dst, KERNEL_PDE_IDX, counts0, pages0, pages)
  {
    hide ClonedTable;
    forall p | 0 <= p < KERNEL_PDE_IDX
      ensures (Slot(d, p) in mid <==> Slot(d, p) in pdes0)
              && (Slot(d, p) in mid ==> mid[Slot(d, p)] == pdes0[Slot(d, p)])
    {
    }
  }

  /** A new directory has no user half, and leaves those of others alone. */
  lemma NoUserHalf(pdes: Store, dirs: set<int>, tables: set<int>, owner: map<int, Slot>, kernelPd: int, after: Store,
                   d: int, dst: int)
    requires Owned(dirs, pdes, tables, owner, kernelPd) && d in dirs && dst !in dirs
             && WithKernelHalf(pdes, after, d, dst)
    ensures forall s :: s in after && s.table == dst ==> s.index >= KERNEL_PDE_IDX
    ensures UserTables(after, d) == UserTables(pdes, d)
  {
    forall t ensures t in UserTables(after, d) <==> t in UserTables(pdes, d) {
      if t in UserTables(pdes, d) {
        var s :| s in pdes && s.table == d && s.index < KERNEL_PDE_IDX && pdes[s].frame == t;
        assert s in after && after[s] == pdes[s];
      }
    }
  }

  lemma AroundWider(tables0: set<int>, pdes0: Store, ptes0: Store, counts0: seq<RefCount>, pages0: seq<Page>,
                    tables: set<int>, pdes: Store, ptes: Store, counts: seq<RefCount>, pages: seq<Page>, dst: int,
                    n: nat)
    requires Around(tables0, pdes0, ptes0, counts0, pages0, tables, pdes, ptes, counts, pages, dst, n)
             && n <= KERNEL_PDE_IDX
    ensures Around(tables0, pdes0, ptes0, counts0, pages0, tables, pdes, ptes, counts, pages, dst, KERNEL_PDE_IDX)
  {
  }

  lemma AroundStep(tables0: set<int>, pdes0: Store, ptes0: Store, counts0: seq<RefCount>, pages0: seq<Page>,
                   tables: set<int>, pdes: Store, ptes: Store, counts: seq<RefCount>, pages: seq<Page>,
                   dst: int, i: nat, e: Entry, ptes': Store, counts': seq<RefCount>, pages': seq<Page>)
    requires Around(tables0, pdes0, ptes0, counts0, pages0, tables, pdes, ptes, counts, pages, dst, i)
    requires i < KERNEL_PDE_IDX && Slot(dst, i) !in pdes && e.frame !in tables
    requires Grows(counts, counts') && OutsideTables(tables, ptes, ptes') && Untouched(counts, pages, pages')
    ensures Around(tables0, pdes0, ptes0, counts0, pages0, tables + {e.frame}, pdes[Slot(dst, i) := e], ptes', counts',
                   pages', dst, i + 1)
  {
    OutsideTwice(tables0, tables, ptes0, ptes, ptes');
  }

  lemma ForkingStep(tables0: set<int>, pdes0: Store, ptes0: Store, counts0: seq<RefCount>, pages0: seq<Page>,
                    src: int, tables: set<int>, pdes: Store, ptes: Store, counts: seq<RefCount>,
                    pages: seq<Page>, dst: int, i: nat,
                    t: nat, ptes': Store, counts': seq<RefCount>, pages': seq<Page>)
    requires Forking(tables0, pdes0, ptes0, counts0, pages0, src, tables, pdes, ptes, counts, pages, dst, i)
    requires i < KERNEL_PDE_IDX && src != dst && Slot(src, i) in pdes0 && Slot(dst, i) !in pdes
    requires Accounted(counts0, tables0, ptes0) && Accounted(counts, tables, ptes) && |pages| == |counts|
    requires forall s :: s in pdes0 ==> pdes0[s].frame in tables0
    requires forall s :: s in pdes ==> pdes[s].frame in tables
    requires t !in tables && Grows(counts, counts') && OutsideTables(tables, ptes, ptes')
    requires Cloned(ptes, pdes0[Slot(src, i)].frame, ptes', t, ENTRIES, counts, pages, pages')
    ensures Forking(tables0, pdes0, ptes0, counts0, pages0, src, tables + {t},
                    pdes[Slot(dst, i) := Entry(t, pdes0[Slot(src, i)].flags)], ptes', counts', pages', dst, i + 1)
  {
    var e := Entry(t, pdes0[Slot(src, i)].flags);
    AroundStep(tables0, pdes0, ptes0, counts0, pages0, tables, pdes, ptes, counts, pages, dst, i, e, ptes', counts',
               pages');
    RebaseTable(ptes0, tables0, counts0, pages0, ptes, counts, pages, pdes0[Slot(src, i)].frame, t, ptes', pages');
    forall p | 0 <= p < i && Slot(src, p) in pdes0
      ensures ClonedTable(ptes0, pdes0[Slot(src, p)].frame, ptes', pdes[Slot(dst, p)].frame, ENTRIES,
                          counts0, pages0, pages')
    {
      CarryTable(ptes0, pdes0[Slot(src, p)].frame, pdes[Slot(dst, p)].frame, counts0, pages0, ptes, tables, counts,
                 pages, pdes0[Slot(src, i)].frame, ptes', pages');
    }
    ClonedDirectoryStep(pdes0, ptes0, src, pdes, ptes', dst, i, counts0, pages0, pages', e);
  }

  lemma ClonedDirectoryStep(pdes0: Store, ptes0: Store, src: int, pdes: Store, ptes: Store, dst: int, i: nat,
                            counts0: seq<RefCount>, pages0: seq<Page>, pages: seq<Page>, e: Entry)
    requires ClonedDirectory(pdes0, ptes0, src, pdes, ptes, dst, i, counts0, pages0, pages)
    requires Slot(src, i) in pdes0 && e.flags == pdes0[Slot(src, i)].flags
    requires ClonedTable(ptes0, pdes0[Slot(src, i)].frame, ptes, e.frame, ENTRIES, counts0, pages0, pages)
    ensures ClonedDirectory(pdes0, ptes0, src, pdes[Slot(dst, i) := e], ptes, dst, i + 1, counts0, pages0, pages)
  {
  }

  lemma OutsideTwice(tables0: set<int>, tables: set<int>, was: Store, mid: Store, now: Store)
    requires tables0 <= tables && OutsideTables(tables0, was, mid) && OutsideTables(tables, mid, now)
    ensures OutsideTables(tables0, was, now)
  {
    forall s | s in now && s !in was ensures s.table !in tables0 {
      if s in mid { assert mid[s] == now[s]; }
    }
  }

  lemma ForkingStarts(tables: set<int>, pdes: Store, ptes: Store, counts: seq<RefCount>, src: int, pages: seq<Page>,
                      dst: int)
    requires forall s :: s in pdes && s.table == dst ==> s.index >= KERNEL_PDE_IDX
    ensures Forking(tables, pdes, ptes, counts, pages, src, tables, pdes, ptes, counts, pages, dst, 0)
    ensures CountsBut(UserTables(pdes, src), ptes, counts, counts) && UserTables(pdes, dst) == {}
  {
  }

  lemma ForkingFacts(tables0: set<int>, pdes0: Store, ptes0: Store, counts0: seq<RefCount>, pages0: seq<Page>,
                     src: int, tables: set<int>, pdes: Store, ptes: Store, counts: seq<RefCount>,
                     pages: seq<Page>, dst: int, n: nat)
    requires Forking(tables0, pdes0, ptes0, counts0, pages0, src, tables, pdes, ptes, counts, pages, dst, n)
             && src != dst
    ensures Around(tables0, pdes0, ptes0, counts0, pages0, tables, pdes, ptes, counts, pages, dst, n)
    ensures ClonedDirectory(pdes0, ptes0, src, pdes, ptes, dst, n, counts0, pages0, pages)
    ensures Grows(counts0, counts) && Untouched(counts0, pages0, pages) && tables0 <= tables
    ensures forall p :: (Slot(src, p) in pdes <==> Slot(src, p) in pdes0)
                        && (Slot(src, p) in pdes ==> pdes[Slot(src, p)] == pdes0[Slot(src, p)])
    ensures forall p :: n <= p < KERNEL_PDE_IDX ==> Slot(dst, p) !in pdes
  {
  }

  lemma ForkingSkip(tables0: set<int>, pdes0: Store, ptes0: Store, counts0: seq<RefCount>, pages0: seq<Page>,
                    src: int, tables: set<int>, pdes: Store, ptes: Store, counts: seq<RefCount>,
                    pages: seq<Page>, dst: int, i: nat)
    requires Forking(tables0, pdes0, ptes0, counts0, pages0, src, tables, pdes, ptes, counts, pages, dst, i)
    requires Slot(src, i) !in pdes0 && Slot(dst, i) !in pdes
    ensures Forking(tables0, pdes0, ptes0, counts0, pages0, src, tables, pdes, ptes, counts, pages, dst, i + 1)
  {
  }

  /** One more table of directory src has been cloned. */
  lemma CountsButTable(tables0: set<int>, pdes0: Store, ptes0: Store, counts0: seq<RefCount>, pages0: seq<Page>,
                       src: int, tables: set<int>, pdes: Store, ptes: Store, counts: seq<RefCount>, pages: seq<Page>,
                       dst: int, i: nat, after: seq<RefCount>)
    requires Around(tables0, pdes0, ptes0, counts0, pages0, tables, pdes, ptes, counts, pages, dst, i) && src != dst
    requires Slot(src, i) in pdes && i < KERNEL_PDE_IDX && forall s :: s in pdes0 ==> pdes0[s].frame in tables0
    requires CountsBut(UserTables(pdes0, src), ptes0, counts0, counts)
    requires CountsBut({pdes[Slot(src, i)].frame}, ptes, counts, after)
    ensures CountsBut(UserTables(pdes0, src), ptes0, counts0, after)
  {
    assert Slot(src, i) in pdes0;
    CountsButThen(UserTables(pdes0, src), {pdes[Slot(src, i)].frame}, tables0, ptes0, ptes, counts0, counts, after);
  }

  /** The other directories see what they saw. */
  lemma AroundOthers(tables0: set<int>, pdes0: Store, ptes0: Store, counts0: seq<RefCount>, pages0: seq<Page>,
                     tables: set<int>, pdes: Store, ptes: Store, counts: seq<RefCount>,
                      pages: seq<Page>, dst: int, n: nat, c: int, v: int)
    requires Around(tables0, pdes0, ptes0, counts0, pages0, tables, pdes, ptes, counts, pages, dst, n)
    requires forall s :: s in pdes0 ==> pdes0[s].frame in tables0
    requires c != dst
    ensures Translate(c, pdes, ptes, v) == Translate(c, pdes0, ptes0, v)
  {
    if Pde(c, v) in pdes {
      var s := Pte(pdes, c, v);
      assert s.table in tables0;
      assert s in ptes <==> s in ptes0;
    }
  }

  lemma UserTablesStep(pdes: Store, d: int, i: nat, e: Entry)
    requires Slot(d, i) !in pdes && i < KERNEL_PDE_IDX
    ensures UserTables(pdes[Slot(d, i) := e], d) == UserTables(pdes, d) + {e.frame}
  {
    var after := pdes[Slot(d, i) := e];
    forall t ensures t in UserTables(after, d) <==> t in UserTables(pdes, d) || t == e.frame {
      if t in UserTables(pdes, d) {
        var s :| s in pdes && s.table == d && s.index < KERNEL_PDE_IDX && pdes[s].frame == t;
        assert s in after && after[s] == pdes[s];
      }
      if t == e.frame { assert after[Slot(d, i)].frame == t; }
    }
  }

  // ----- taking a directory apart -----

  /** No count became saturated, and none was taken back from saturation. */
  ghost predicate SameSaturation(before: seq<RefCount>, after: seq<RefCount>) {
    |before| == |after| && forall f :: 0 <= f < |before| ==> (before[f] == UINT8_MAX <==> after[f] == UINT8_MAX)
  }

  /** `now` is `was` without the entries of the page tables in `gone`. */
  ghost predicate WithoutTables(was: Store, now: Store, gone: set<int>) {
    && (forall s :: s in now <==> s in was && s.table !in gone)
    && (forall s :: s in now ==> now[s] == was[s])
  }

  lemma OtherTables(dirs: set<int>, pdes: Store, tables: set<int>, owner: map<int, Slot>, kernelPd: int, d: int,
                    s: Slot)
    requires Owned(dirs, pdes, tables, owner, kernelPd) && s in pdes
    requires s.table != d || s.index >= KERNEL_PDE_IDX
    ensures pdes[s].frame !in UserTables(pdes, d)
  {
    assert Place(s) == owner[pdes[s].frame];
    forall r | r in pdes && r.table == d && r.index < KERNEL_PDE_IDX ensures pdes[r].frame != pdes[s].frame {
      assert Place(r) == owner[pdes[r].frame];
    }
  }

  lemma DestroyedOwned(dirs: set<int>, pdes: Store, after: Store, tables: set<int>, owner: map<int, Slot>,
                       kernelPd: int, d: int)
    requires Owned(dirs, pdes, tables, owner, kernelPd) && d in dirs && d != kernelPd
    requires forall s :: s in after <==> s in pdes && s.table != d
    requires forall s :: s in after ==> after[s] == pdes[s]
    ensures Owned(dirs - {d}, after, tables - UserTables(pdes, d), owner, kernelPd)
  {
    forall s | s in after ensures after[s].frame in tables - UserTables(pdes, d) {
      OtherTables(dirs, pdes, tables, owner, kernelPd, d, s);
    }
  }

  /** The tables that are gone are those of the user half of directory d; all others hang
      below the kernel half, or below another directory. */
  lemma TallyDestroyed(dirs: set<int>, pdes: Store, after: Store, tables: set<int>, owner: map<int, Slot>,
                       kernelPd: int, leaked: set<int>, d: int)
    requires Owned(dirs, pdes, tables, owner, kernelPd) && d in dirs && d != kernelPd && Tallied(tables, pdes, leaked)
    requires forall s :: s in after <==> s in pdes && s.table != d
    requires forall s :: s in after ==> after[s] == pdes[s]
    ensures Tallied(tables - UserTables(pdes, d), after, leaked)
  {
    forall t ensures t in Hung(after) <==> t in Hung(pdes) && t !in UserTables(pdes, d) {
      if t in Hung(pdes) && t !in UserTables(pdes, d) {
        var s :| s in pdes && pdes[s].frame == t;
        if s.table == d {
          assert pdes[Slot(d, s.index)] == pdes[Slot(kernelPd, s.index)] && s == Slot(d, s.index);
          HungBy(after, Slot(kernelPd, s.index));
        } else {
          HungBy(after, s);
        }
      }
      if t in Hung(after) {
        var s :| s in after && after[s].frame == t;
        HungBy(pdes, s);
        OtherTables(dirs, pdes, tables, owner, kernelPd, d, s);
      }
    }
    forall t | t in UserTables(pdes, d) ensures t in Hung(pdes) {
      var s :| s in pdes && s.table == d && s.index < KERNEL_PDE_IDX && pdes[s].frame == t;
    }
  }

  lemma DestroyedTranslate(dirs: set<int>, pdes: Store, after: Store, tables: set<int>, owner: map<int, Slot>,
                           kernelPd: int, d: int, was: Store, now: Store, c: int, v: int)
    requires Owned(dirs, pdes, tables, owner, kernelPd) && d in dirs && d != kernelPd && c != d
    requires forall s :: s in after <==> s in pdes && s.table != d
    requires forall s :: s in after ==> after[s] == pdes[s]
    requires WithoutTables(was, now, UserTables(pdes, d))
    ensures Translate(c, after, now, v) == Translate(c, pdes, was, v)
  {
    if Pde(c, v) in pdes {
      OtherTables(dirs, pdes, tables, owner, kernelPd, d, Pde(c, v));
    }
  }

  /** Two states of the allocator that account for the same entries agree on every
      count that is not saturated in one of them. */
  lemma AccountsDetermine(counts: seq<RefCount>, after: seq<RefCount>, tables: set<int>, ptes: Store)
    requires Accounted(counts, tables, ptes) && Accounted(after, tables, ptes) && |counts| == |after|
    ensures after == counts <==> SameSaturation(counts, after)
  {
    if SameSaturation(counts, after) {
      forall f | 0 <= f < |counts| ensures after[f] == counts[f] {
      }
    }
  }

  lemma RestoredEntries(tables0: set<int>, ptes0: Store, tables: set<int>, ptes: Store, gone: set<int>, after: Store)
    requires OutsideTables(tables0, ptes0, ptes) && tables == tables0 + gone && gone !! tables0
    requires (forall s :: s in ptes0 ==> s.table in tables0) && (forall s :: s in ptes ==> s.table in tables)
    requires WithoutTables(ptes, after, gone)
    ensures after == ptes0
  {
    assert after.Keys == ptes0.Keys;
  }

  /** If one entry alone names a frame, no other entry does. */
  lemma OneHolder(ptes: Store, s: Slot, r: Slot)
    requires s in ptes && r in ptes && |Holders(ptes, ptes[s].frame)| == 1 && r != s
    ensures ptes[r].frame != ptes[s].frame
  {
    if ptes[r].frame == ptes[s].frame {
      assert {s, r} <= Holders(ptes, ptes[s].frame);
      SubsetSize({s, r}, Holders(ptes, ptes[s].frame));
    }
  }
}
