/** The contents of page tables and page directories as values, and the
    accounting law that ties every reference count of the page allocator to the
    entries that name the frame (kernel/memory/paging.c). */
module Tables {
  import opened Frames

  const ENTRIES := 1024
  const KERNEL_PDE_IDX := 768
  const RECURSIVE_IDX := 1023
  const KERNEL_VPAGE := KERNEL_PDE_IDX * ENTRIES
  const VPAGES := RECURSIVE_IDX * ENTRIES
  const PAGE_WRITE := 0x2
  const PAGE_SHARED := 0x200

  /** The place of an entry: the page table or directory it is in, and its index. */
  datatype Slot = Slot(table: int, index: int)

  /** A present page-table or page-directory entry: frame number and low 12 bits. */
  datatype Entry = Entry(frame: nat, flags: nat)

  /** All present entries, by place. */
  type Store = map<Slot, Entry>

  predicate IsShared(flags: nat) {
    (flags / PAGE_SHARED) % 2 == 1
  }

  /** The page-table entries that name frame f. */
  ghost function Holders(ptes: Store, f: int): set<Slot> {
    set s | s in ptes && ptes[s].frame == f
  }

  ghost function References(tables: set<int>, ptes: Store, f: int): nat {
    |Holders(ptes, f)| + if f in tables then 1 else 0
  }

  /** Entries lie in slots of page tables, and name frames that exist and are not page
      tables themselves. */
  ghost predicate Separate(tables: set<int>, ptes: Store, n: nat) {
    && (forall t :: t in tables ==> 0 <= t < n)
    && (forall s {:trigger ptes[s]} :: s in ptes ==>
          s.table in tables && 0 <= s.index < ENTRIES && ptes[s].frame < n && ptes[s].frame !in tables)
  }

  /** Frame accounting: a count is saturated, or equals the page-table entries
      that name the frame plus one if the frame is a page table. */
  ghost predicate Accounted(counts: seq<RefCount>, tables: set<int>, ptes: Store) {
    && Separate(tables, ptes, |counts|)
    && forall f :: 0 <= f < |counts| ==> counts[f] == UINT8_MAX || counts[f] == References(tables, ptes, f)
  }

  lemma HolderCounts(counts: seq<RefCount>, tables: set<int>, ptes: Store, s: Slot)
    requires Accounted(counts, tables, ptes) && s in ptes
    ensures counts[ptes[s].frame] > 0 && counts[s.table] > 0
  {
    assert s in Holders(ptes, ptes[s].frame);
  }

  lemma EntryIn(counts: seq<RefCount>, tables: set<int>, ptes: Store, s: Slot)
    requires Accounted(counts, tables, ptes) && s in ptes
    ensures ptes[s].frame < |counts| && counts[ptes[s].frame] > 0 && ptes[s].frame !in tables
  {
    HolderCounts(counts, tables, ptes, s);
  }

  /** A frame the allocator regards as free is in no table and is not one. */
  lemma FreeIsUnused(counts: seq<RefCount>, tables: set<int>, ptes: Store, f: int)
    requires Accounted(counts, tables, ptes) && 0 <= f < |counts| && counts[f] == 0
    ensures f !in tables
    ensures forall s :: s in ptes ==> ptes[s].frame != f
  {
    forall s | s in ptes ensures ptes[s].frame != f {
      assert ptes[s].frame == f ==> s in Holders(ptes, f);
    }
  }

  lemma HoldersSet(ptes: Store, s: Slot, e: Entry, f: int)
    requires s !in ptes
    ensures |Holders(ptes[s := e], f)| == |Holders(ptes, f)| + if f == e.frame then 1 else 0
  {
    assert Holders(ptes[s := e], f) == if f == e.frame then Holders(ptes, f) + {s} else Holders(ptes, f);
  }

  /** Writing a new entry and counting it once keeps the accounts; since
      Inc(0) == 1 this covers a fresh frame and one more reference alike. */
  lemma AccountSet(counts: seq<RefCount>, tables: set<int>, ptes: Store, s: Slot, e: Entry)
    requires Accounted(counts, tables, ptes)
    requires s.table in tables && 0 <= s.index < ENTRIES && s !in ptes
    requires e.frame < |counts| && e.frame !in tables
    ensures Accounted(counts[e.frame := Inc(counts[e.frame])], tables, ptes[s := e])
  {
    var counts', ptes' := counts[e.frame := Inc(counts[e.frame])], ptes[s := e];
    forall f | 0 <= f < |counts'| ensures counts'[f] == UINT8_MAX || counts'[f] == References(tables, ptes', f) {
      HoldersSet(ptes, s, e, f);
    }
  }

  lemma HoldersClear(ptes: Store, s: Slot, f: int)
    requires s in ptes
    ensures |Holders(ptes - {s}, f)| == |Holders(ptes, f)| - if f == ptes[s].frame then 1 else 0
  {
    assert s in Holders(ptes, f) <==> f == ptes[s].frame;
    assert Holders(ptes - {s}, f) == Holders(ptes, f) - {s};
  }

  lemma AccountClear(counts: seq<RefCount>, tables: set<int>, ptes: Store, s: Slot)
    requires Accounted(counts, tables, ptes) && s in ptes
    ensures counts[ptes[s].frame] > 0
    ensures Accounted(counts[ptes[s].frame := Dec(counts[ptes[s].frame])], tables, ptes - {s})
  {
    HolderCounts(counts, tables, ptes, s);
    var counts', ptes' := counts[ptes[s].frame := Dec(counts[ptes[s].frame])], ptes - {s};
    forall f | 0 <= f < |counts'| ensures counts'[f] == UINT8_MAX || counts'[f] == References(tables, ptes', f) {
      HoldersClear(ptes, s, f);
    }
  }

  lemma AccountNewTable(counts: seq<RefCount>, tables: set<int>, ptes: Store, t: nat)
    requires Accounted(counts, tables, ptes) && t < |counts| && counts[t] == 0
    ensures t !in tables
    ensures Accounted(counts[t := 1], tables + {t}, ptes)
  {
    FreeIsUnused(counts, tables, ptes, t);
  }

  lemma AccountDropTable(counts: seq<RefCount>, tables: set<int>, ptes: Store, t: nat)
    requires Accounted(counts, tables, ptes) && t in tables
    requires forall s :: s in ptes ==> s.table != t
    ensures counts[t] > 0
    ensures Accounted(counts[t := Dec(counts[t])], tables - {t}, ptes)
  {
  }

  // ----- directories -----

  /** The place that a directory slot stands for: the kernel half exists once. */
  function Place(s: Slot): Slot {
    if s.index >= KERNEL_PDE_IDX then Slot(-1, s.index) else s
  }

  /** Every directory entry names a page table that hangs there and nowhere else;
      the kernel half of every directory is complete, and is that of the kernel
      directory. `owner` gives each page table that is in use its one place. */
  ghost predicate Owned(dirs: set<int>, pdes: Store, tables: set<int>, owner: map<int, Slot>, kernelPd: int) {
    && kernelPd in dirs
    && (forall d :: d in dirs ==> d >= 0)
    && (forall s {:trigger pdes[s]} :: s in pdes ==>
          && s.table in dirs && 0 <= s.index < RECURSIVE_IDX
          && pdes[s].frame in tables && pdes[s].frame in owner && owner[pdes[s].frame] == Place(s))
    && KernelHalfAgrees(dirs, pdes, kernelPd)
  }

  ghost predicate KernelHalfAgrees(dirs: set<int>, pdes: Store, kernelPd: int) {
    forall d, p {:trigger Slot(d, p)} :: d in dirs && KERNEL_PDE_IDX <= p < RECURSIVE_IDX ==>
      Slot(d, p) in pdes && Slot(kernelPd, p) in pdes && pdes[Slot(d, p)] == pdes[Slot(kernelPd, p)]
  }

  /** The page tables that directory entries name. */
  ghost function Hung(pdes: Store): set<int> {
    set s | s in pdes :: pdes[s].frame
  }

  /** Every page table hangs below a directory entry, but for those that a failed clone
      has left behind. */
  ghost predicate Tallied(tables: set<int>, pdes: Store, leaked: set<int>) {
    tables == Hung(pdes) + leaked && Hung(pdes) !! leaked
  }

  lemma HungBy(pdes: Store, s: Slot)
    requires s in pdes
    ensures pdes[s].frame in Hung(pdes)
  {
  }

  lemma HungAdd(pdes: Store, s: Slot, e: Entry)
    requires s !in pdes
    ensures Hung(pdes[s := e]) == Hung(pdes) + {e.frame}
  {
    var after := pdes[s := e];
    forall t ensures t in Hung(after) <==> t in Hung(pdes) || t == e.frame {
      if t in Hung(pdes) {
        var r :| r in pdes && pdes[r].frame == t;
        assert r in after && after[r] == pdes[r];
      }
      if t == e.frame { assert after[s].frame == t; }
    }
  }

  /** A page table that hangs below a new entry. */
  lemma TallyAdd(tables: set<int>, pdes: Store, leaked: set<int>, s: Slot, e: Entry)
    requires Tallied(tables, pdes, leaked) && s !in pdes && e.frame !in tables
    ensures Tallied(tables + {e.frame}, pdes[s := e], leaked)
  {
    HungAdd(pdes, s, e);
  }

  /** The entry through which directory d maps page v. */
  function Pde(d: int, v: int): Slot {
    Slot(d, v / ENTRIES)
  }

  function Pte(pdes: Store, d: int, v: int): Slot
    requires Pde(d, v) in pdes
  {
    Slot(pdes[Pde(d, v)].frame, v % ENTRIES)
  }

  datatype Mapping = Unmapped | Mapped(entry: Entry)

  /** What the hardware finds for page v through directory d. */
  function Translate(d: int, pdes: Store, ptes: Store, v: int): Mapping {
    if 0 <= v < VPAGES && Pde(d, v) in pdes && Pte(pdes, d, v) in ptes then Mapped(ptes[Pte(pdes, d, v)])
    else Unmapped
  }

  /** Two directories, two pages: the same entry serves both only if the pages are
      the same, and then only in the kernel half or in the same directory. */
  lemma SamePte(dirs: set<int>, pdes: Store, tables: set<int>, owner: map<int, Slot>, kernelPd: int,
                d: int, v: int, c: int, w: int)
    requires Owned(dirs, pdes, tables, owner, kernelPd)
    requires d in dirs && c in dirs && Pde(d, v) in pdes && Pde(c, w) in pdes
    ensures Pte(pdes, d, v) == Pte(pdes, c, w) <==> v == w && (c == d || v >= KERNEL_VPAGE)
  {
    var s, r := Pde(d, v), Pde(c, w);
    if Pte(pdes, d, v) == Pte(pdes, c, w) {
      assert Place(s) == owner[pdes[s].frame] == Place(r);
    }
    if v == w && v >= KERNEL_VPAGE {
      assert pdes[s] == pdes[Slot(kernelPd, v / ENTRIES)] == pdes[r];
    }
  }

  /** All directories agree on the kernel half. */
  lemma KernelHalfShared(dirs: set<int>, pdes: Store, tables: set<int>, owner: map<int, Slot>, kernelPd: int,
                         ptes: Store, c: int, d: int, v: int)
    requires Owned(dirs, pdes, tables, owner, kernelPd) && c in dirs && d in dirs && v >= KERNEL_VPAGE
    ensures Translate(c, pdes, ptes, v) == Translate(d, pdes, ptes, v)
  {
    if v < VPAGES {
      assert pdes[Pde(c, v)] == pdes[Slot(kernelPd, v / ENTRIES)] == pdes[Pde(d, v)];
    }
  }

  /** The entry store with the entry of page v, as directory d uses it, replaced. */
  function Put(pdes: Store, ptes: Store, d: int, v: int, m: Mapping): Store
    requires Pde(d, v) in pdes
  {
    if m.Mapped? then ptes[Pte(pdes, d, v) := m.entry] else ptes - {Pte(pdes, d, v)}
  }

  /** Writing or clearing the entry of page v that directory d uses changes what d
      sees at v and nowhere else; another directory sees the change exactly when
      v is in the kernel half. */
  lemma PutTranslate(dirs: set<int>, pdes: Store, tables: set<int>, owner: map<int, Slot>, kernelPd: int,
                     ptes: Store, d: int, v: int, m: Mapping, c: int, w: int)
    requires Owned(dirs, pdes, tables, owner, kernelPd)
    requires d in dirs && c in dirs && 0 <= v < VPAGES && Pde(d, v) in pdes
    ensures Translate(c, pdes, Put(pdes, ptes, d, v, m), w)
            == if w == v && (c == d || v >= KERNEL_VPAGE) then m else Translate(c, pdes, ptes, w)
  {
    if v >= KERNEL_VPAGE { assert Pde(c, v) in pdes; }
    if Pde(c, w) in pdes { SamePte(dirs, pdes, tables, owner, kernelPd, d, v, c, w); }
  }

  /** A directory slot that is empty lies in the user half, because the kernel
      half is complete from the start; so a page table created there belongs to
      that directory alone. */
  lemma OwnedNewTable(dirs: set<int>, pdes: Store, tables: set<int>, owner: map<int, Slot>, kernelPd: int,
                      s: Slot, e: Entry)
    requires Owned(dirs, pdes, tables, owner, kernelPd)
    requires s.table in dirs && 0 <= s.index < RECURSIVE_IDX && s !in pdes && e.frame !in tables
    ensures s.index < KERNEL_PDE_IDX
    ensures Owned(dirs, pdes[s := e], tables + {e.frame}, owner[e.frame := s], kernelPd)
  {
    assert Slot(s.table, s.index) == s;
    assert s.index < KERNEL_PDE_IDX;
  }

  /** An empty page table maps nothing. */
  lemma NewTableTranslate(pdes: Store, ptes: Store, s: Slot, e: Entry, c: int, w: int)
    requires s !in pdes && forall r :: r in ptes ==> r.table != e.frame
    ensures Translate(c, pdes[s := e], ptes, w) == Translate(c, pdes, ptes, w)
  {
  }

  /** `after` is `pdes` plus the kernel half of directory d for directory dst. */
  ghost predicate WithKernelHalf(pdes: Store, after: Store, d: int, dst: int) {
    && (forall s :: s in pdes ==> s in after && after[s] == pdes[s])
    && (forall s :: s in after && s !in pdes ==> s.table == dst && KERNEL_PDE_IDX <= s.index < RECURSIVE_IDX)
    && (forall p {:trigger Slot(dst, p)} :: KERNEL_PDE_IDX <= p < RECURSIVE_IDX ==>
          Slot(dst, p) in after && Slot(d, p) in pdes && after[Slot(dst, p)] == pdes[Slot(d, p)])
  }

  lemma TallyKernelHalf(tables: set<int>, pdes: Store, leaked: set<int>, after: Store, d: int, dst: int)
    requires Tallied(tables, pdes, leaked) && WithKernelHalf(pdes, after, d, dst)
    ensures Tallied(tables, after, leaked)
  {
    forall t ensures t in Hung(after) <==> t in Hung(pdes) {
      if t in Hung(pdes) {
        var s :| s in pdes && pdes[s].frame == t;
        HungBy(after, s);
      }
      if t in Hung(after) {
        var s :| s in after && after[s].frame == t;
        if s in pdes { HungBy(pdes, s); } else { assert s == Slot(dst, s.index); HungBy(pdes, Slot(d, s.index)); }
      }
    }
  }

  lemma CreatedDirectory(dirs: set<int>, pdes: Store, after: Store, tables: set<int>, owner: map<int, Slot>,
                         kernelPd: int, d: int, dst: int)
    requires Owned(dirs, pdes, tables, owner, kernelPd) && d in dirs && dst !in dirs && dst >= 0
    requires WithKernelHalf(pdes, after, d, dst)
    ensures Owned(dirs + {dst}, after, tables, owner, kernelPd)
  {
    forall s | s in after
      ensures s.table in dirs + {dst} && 0 <= s.index < RECURSIVE_IDX
      ensures after[s].frame in tables && after[s].frame in owner && owner[after[s].frame] == Place(s)
    {
      if s !in pdes {
        assert s == Slot(dst, s.index);
        assert Place(s) == Place(Slot(d, s.index));
      }
    }
    assert KernelHalfAgrees(dirs + {dst}, after, kernelPd);
  }

  lemma CreatedTranslate(dirs: set<int>, pdes: Store, after: Store, tables: set<int>, owner: map<int, Slot>,
                         kernelPd: int, ptes: Store, d: int, dst: int, c: int, v: int)
    requires Owned(dirs, pdes, tables, owner, kernelPd) && d in dirs && dst !in dirs && c in dirs + {dst}
    requires WithKernelHalf(pdes, after, d, dst)
    ensures Translate(c, after, ptes, v) == if c != dst then Translate(c, pdes, ptes, v)
                                            else if v >= KERNEL_VPAGE then Translate(d, pdes, ptes, v)
                                            else Unmapped
  {
    if 0 <= v < VPAGES {
      assert Pde(dst, v) !in pdes;
    }
  }
}
