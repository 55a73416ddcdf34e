/** Growable buffers (kernel/growable_buf.c): the bytes of a tmpfs file, in pages of
    the kernel half. A buffer stands for a sparse file: bytes never written read as zero. */
module GrowableBuf {
  import opened Frames
  import opened Words
  import opened Tables
  import opened Cloning
  import opened Paging
  import opened Holes
  import opened HoleList
  import opened Ledger
  import opened HeaderLedger
  import opened HeapState
  import opened Bytes
  import opened RangeAllocator
  import opened Heap

  // ----- the file that a buffer stands for -----

  /** Byte i of a file, zero beyond its end. */
  function FileByte(file: seq<Byte>, i: int): int
    requires i >= 0
  {
    if i < |file| then file[i] as int else 0
  }

  function Zeros(n: nat): seq<Byte> {
    seq(n, _ => 0)
  }

  /** The file after `bytes` were written at `off`; a gap before them is filled with zeros. */
  function Overwrite(file: seq<Byte>, off: nat, bytes: seq<Byte>): (r: seq<Byte>)
    ensures |r| == if |file| < off + |bytes| then off + |bytes| else |file|
    ensures forall i :: i >= 0 ==>
              FileByte(r, i) == if off <= i < off + |bytes| then bytes[i - off] as int else FileByte(file, i)
  {
    var padded := if |file| < off + |bytes| then file + Zeros(off + |bytes| - |file|) else file;
    padded[..off] + bytes + padded[off + |bytes|..]
  }

  /** The file cut or extended with zeros to length n. */
  function Resize(file: seq<Byte>, n: nat): (r: seq<Byte>)
    ensures |r| == n && forall i :: i >= 0 ==> FileByte(r, i) == if i < n then FileByte(file, i) else 0
  {
    if n <= |file| then file[..n] else file + Zeros(n - |file|)
  }

  // ----- what the pages of a buffer hold -----

  /** Pages [base, base+m) show the file, followed by zeros. */
  ghost predicate Shows(s: Snapshot, base: int, m: nat, file: seq<Byte>) {
    && (forall w :: InRun(w, base, m) ==> s.On(w))
    && (forall w, x :: InRun(w, base, m) && InRun(x, base, m) && w != x ==> s.Frame(w) != s.Frame(x))
    && |file| <= m * PAGE_SIZE
    && forall w, o {:trigger ByteOf(s.pages, s.view, s.d, w, o)} :: InRun(w, base, m) && 0 <= o < PAGE_SIZE ==>
         ByteOf(s.pages, s.view, s.d, w, o) == FileByte(file, (w - base) * PAGE_SIZE + o)
  }

  /** Writing through the buffer. */
  lemma ShowsPainted(s0: Snapshot, s: Snapshot, base: int, m: nat, file: seq<Byte>, off: nat, bytes: seq<Byte>,
                     now: seq<Byte>)
    requires Shows(s0, base, m, file) && s == Snapshot(s0.view, s0.d, s0.counts, s.pages)
             && off + |bytes| <= m * PAGE_SIZE
    requires Spread(s0.view, s0.d, |s0.pages|, base, m)
    requires Painted(s0.pages, s.pages, s0.view, s0.d, base, m, base * PAGE_SIZE + off, bytes)
    requires |now| <= m * PAGE_SIZE && forall i :: 0 <= i < m * PAGE_SIZE ==>
               FileByte(now, i) == if off <= i < off + |bytes| then bytes[i - off] as int else FileByte(file, i)
    ensures Shows(s, base, m, now)
  {
    forall w, o | InRun(w, base, m) && 0 <= o < PAGE_SIZE
      ensures ByteOf(s.pages, s.view, s.d, w, o) == FileByte(now, (w - base) * PAGE_SIZE + o)
    {
      assert ByteOf(s0.pages, s0.view, s0.d, w, o) == FileByte(file, (w - base) * PAGE_SIZE + o);
    }
  }

  lemma ShowsSize(s: Snapshot, base: int, m: nat, file: seq<Byte>)
    requires Shows(s, base, m, file)
    ensures |file| <= m * PAGE_SIZE
  {
  }

  /** Zeros behind a file do not show. */
  lemma ShowsLonger(s: Snapshot, base: int, m: nat, file: seq<Byte>, now: seq<Byte>)
    requires Shows(s, base, m, file) && |now| <= m * PAGE_SIZE && forall i :: i >= 0 ==>
               FileByte(now, i) == FileByte(file, i)
    ensures Shows(s, base, m, now)
  {
  }

  lemma ShowsSpread(s: Snapshot, base: int, m: nat, file: seq<Byte>)
    requires Shows(s, base, m, file)
    ensures Spread(s.view, s.d, |s.pages|, base, m)
  {
    forall w | base <= w < base + m ensures s.view(s.d, w).Mapped? && s.view(s.d, w).entry.frame < |s.pages| {
      assert InRun(w, base, m) && s.On(w);
    }
    forall w, x | base <= w < x < base + m ensures s.view(s.d, w).entry.frame != s.view(s.d, x).entry.frame {
      assert InRun(w, base, m) && InRun(x, base, m) && s.Frame(w) != s.Frame(x);
    }
  }

  /** A step that leaves the pages and bytes of the buffer alone. */
  lemma ShowsStays(s0: Snapshot, s: Snapshot, base: int, m: nat, file: seq<Byte>)
    requires Shows(s0, base, m, file) && s.d == s0.d && |s.counts| == |s0.counts| && |s.pages| == |s0.pages|
    requires forall w :: InRun(w, base, m) ==>
               s.view(s.d, w) == s0.view(s.d, w) && s.pages[s0.Frame(w)] == s0.pages[s0.Frame(w)]
    ensures Shows(s, base, m, file)
  {
    forall w, o | InRun(w, base, m) && 0 <= o < PAGE_SIZE
      ensures ByteOf(s.pages, s.view, s.d, w, o) == FileByte(file, (w - base) * PAGE_SIZE + o)
    {
      assert ByteOf(s0.pages, s0.view, s0.d, w, o) == FileByte(file, (w - base) * PAGE_SIZE + o);
    }
  }

  /** The buffer lies on pages of the range allocator that are not free. */
  ghost predicate Placed(list: List, lo: int, hi: int, s: Snapshot, base: int, m: nat) {
    && SoleHeads(list.heads, s.view, s.d, s.counts)
    && (forall w :: InRun(w, base, m) ==> lo <= w < hi && !IsFree(list.holes, w))
    && Flagged(s.view, s.d, base, m, PAGE_WRITE + PAGE_GLOBAL)
  }

  /** Pages [b, b+k) are not among pages [page, page+n), nor are their frames, which are in use. */
  ghost predicate Elsewhere(s: Snapshot, b: int, k: nat, page: int, n: nat) {
    forall w :: InRun(w, b, k) && s.On(w) ==>
      !InRun(w, page, n) && InUse(s.counts, s.Frame(w)) && !Carries(s.view, s.d, page, n, s.Frame(w))
  }

  /** A step that spares all pages and frames but those of [page, page+n) spares a buffer that
      is elsewhere. */
  lemma Undisturbed(list0: List, list: List, lo: int, hi: int, s0: Snapshot, s: Snapshot, dirs: set<int>, page: int,
                    n: nat, b: int, k: nat, file: seq<Byte>)
    requires Shows(s0, b, k, file) && Placed(list0, lo, hi, s0, b, k) && s0.SoleFrames() && Elsewhere(s0, b, k, page, n)
    requires forall w :: w in list0.heads ==> IsFree(list0.holes, w) && s0.On(w)
    requires FramesKept(list0, list, s0, s, page, n) && SoleHeads(list.heads, s.view, s.d, s.counts)
    requires ArenaKept(lo, list0.holes, list.holes, s0.view, s.view, dirs, page, n) && s.d == s0.d && s.d in dirs
    ensures Shows(s, b, k, file) && Placed(list, lo, hi, s, b, k) && Elsewhere(s, b, k, 0, 0)
    ensures forall w :: InRun(w, b, k) ==> s0.On(w) && s.On(w) && s.view(s.d, w) == s0.view(s0.d, w)
  {
    hide FramesKept, ArenaKept, Carries, HeadFrame;
    forall w | InRun(w, b, k)
      ensures s0.On(w) && s.view(s.d, w) == s0.view(s.d, w) && !IsFree(list.holes, w)
      ensures |s.counts| == |s0.counts| && |s.pages| == |s0.pages| && s.pages[s0.Frame(w)] == s0.pages[s0.Frame(w)]
      ensures s.counts[s0.Frame(w)] == s0.counts[s0.Frame(w)]
    {
      assert s0.On(w) && !IsFree(list0.holes, w);
      NotHead(list0, s0, w);
      SparedFrame(list0, list, s0, s, page, n, s0.Frame(w));
      SparedPage(lo, list0.holes, list.holes, s0.view, s.view, dirs, page, n, s.d, w);
    }
    if k > 0 {
      assert InRun(b, b, k);
      ShowsStays(s0, s, b, k, file);
    }
    assert forall w :: InRun(w, b, k) ==> !InRun(w, 0, 0);
    NoneCarried(s);
  }

  lemma SparedBefore(list0: List, list: List, s0: Snapshot, s: Snapshot, f: int)
    requires FramesKept(list0, list, s0, s, 0, 0) && 0 <= f < |s0.counts|
    requires s.counts[f] == 0 || HeadFrame(list.heads, s.view, s.d, f)
    ensures s0.counts[f] == 0 || HeadFrame(list0.heads, s0.view, s0.d, f)
  {
    assert !Carries(s0.view, s0.d, 0, 0, f);
    assert s0.counts[f] > 0 && !HeadFrame(list0.heads, s0.view, s0.d, f) ==> FrameSame(list, s0, s, f);
  }

  /** Pages [to, to+m) are on the frames that pages [base, base+m) were on. */
  ghost predicate SameFrames(was: (int, int) -> Mapping, now: (int, int) -> Mapping, d: int, base: int, m: nat,
                             to: int)
  {
    forall w {:trigger now(d, w)} :: InRun(w, to, m) ==>
      was(d, base + (w - to)).Mapped? && now(d, w).Mapped?
      && now(d, w).entry.frame == was(d, base + (w - to)).entry.frame
  }

  /** Pages [to, to+m) are on the frames that pages [base, base+m) were on, with these flags. */
  ghost predicate MappedAs(was: (int, int) -> Mapping, now: (int, int) -> Mapping, d: int, base: int, m: nat, to: int,
                           flags: nat)
  {
    forall w {:trigger now(d, w)} :: InRun(w, to, m) ==>
      && was(d, base + (w - to)).Mapped?
      && now(d, w) == Mapped(Entry(was(d, base + (w - to)).entry.frame, flags))
  }

  /** Pages that were mapped as shared, after a fork. */
  lemma AllSeeIt(was: (int, int) -> Mapping, mid: (int, int) -> Mapping, now: (int, int) -> Mapping, d: int, child: int,
                 base: int, v: int, n: nat, flags: nat, ptes: Store, counts: seq<RefCount>, pages0: seq<Page>,
                 pages: seq<Page>)
    requires MappedAs(was, mid, d, base, n, v, flags) && SameFrames(mid, mid, d, base, n, v) && IsShared(flags)
             && v >= 0
    requires forall w :: now(d, w) == mid(d, w)
    requires forall w :: w >= KERNEL_VPAGE ==> now(child, w) == now(d, w)
    requires forall w :: 0 <= w < KERNEL_VPAGE ==> ForkedPage(mid(d, w), now(child, w), ptes, counts, pages0, pages)
    ensures MappedAs(now, now, d, base, n, v, flags)
    ensures forall w :: InRun(w, v, n) ==> now(child, w) == now(d, w)
  {
    forall w | InRun(w, v, n)
      ensures now(child, w) == now(d, w) && now(d, base + (w - v)).Mapped?
      ensures now(d, w) == Mapped(Entry(now(d, base + (w - v)).entry.frame, flags))
    {
      assert mid(d, w) == now(d, w) && mid(d, base + (w - v)) == now(d, base + (w - v));
    }
  }

  lemma FlaggedCopy(was: (int, int) -> Mapping, now: (int, int) -> Mapping, d: int, to: int, from: int, n: nat,
                    flags: nat)
    requires forall w :: from <= w < from + n ==> was(d, w).Mapped?
    requires CopiedRange(was, now, d, to, from, n, flags)
    ensures Flagged(now, d, to, n, flags)
  {
  }

  lemma FlaggedMore(was: (int, int) -> Mapping, now: (int, int) -> Mapping, dirs: set<int>, d: int, to: int, m: nat,
                    n: nat, flags: nat, counts: seq<RefCount>)
    requires Flagged(was, d, to, m, flags) && m <= n && FreshRange(now, d, to + m, n - m, flags, counts)
    requires RunOnly(was, now, dirs, to + m, n - m) && d in dirs
    ensures Flagged(now, d, to, n, flags)
  {
    forall w | to <= w < to + n ensures now(d, w).Mapped? && now(d, w).entry.flags == flags {
      if w < to + m { assert !InRun(w, to + m, n - m) && now(d, w) == was(d, w); }
    }
  }

  lemma BufferOn(s: Snapshot, b: int, k: nat, file: seq<Byte>)
    requires Shows(s, b, k, file)
    ensures forall w :: InRun(w, b, k) ==> s.On(w)
  {
  }

  lemma SeenShared(was: (int, int) -> Mapping, now: (int, int) -> Mapping, dirs: set<int>, d: int, base: int, v: int,
                   n: nat, flags: nat)
    requires RunOnly(was, now, dirs, v, n) && MappedAs(was, now, d, base, n, v, flags) && d in dirs && IsShared(flags)
    requires forall w :: InRun(w, v, n) ==> was(d, w).Unmapped?
    ensures forall w :: v <= w < v + n ==>
              was(d, w).Unmapped? && now(d, w).Mapped? && IsShared(now(d, w).entry.flags)
    ensures forall w :: !(v <= w < v + n) ==> now(d, w) == was(d, w)
  {
    forall w | v <= w < v + n ensures was(d, w).Unmapped? && now(d, w).Mapped? && IsShared(now(d, w).entry.flags) {
      assert InRun(w, v, n);
    }
    forall w | !(v <= w < v + n) ensures now(d, w) == was(d, w) { assert !InRun(w, v, n); }
  }

  /** A buffer is in the kernel half, so what keeps that half keeps the file. */
  lemma FileStays(list: List, lo: int, hi: int, s0: Snapshot, s: Snapshot, b: int, k: nat, file: seq<Byte>)
    requires lo >= KERNEL_VPAGE && Placed(list, lo, hi, s0, b, k) && Shows(s0, b, k, file) && s.d == s0.d
    requires forall w :: w in list.heads ==> w >= KERNEL_VPAGE && s0.On(w)
    requires forall w :: InRun(w, b, k) ==> s0.On(w) && InUse(s0.counts, s0.Frame(w))
    requires KernelKept(s0.view, s0.d, s0.counts, s0.pages, s.view, s.d, s.counts, s.pages)
    ensures Placed(list, lo, hi, s, b, k) && Shows(s, b, k, file)
  {
    forall w | w in list.heads ensures FrameKept(s0.counts, s0.pages, s.counts, s.pages, s0.Frame(w)) {}
    forall w | InRun(w, b, k) ensures FrameKept(s0.counts, s0.pages, s.counts, s.pages, s0.Frame(w)) {}
    if k > 0 { ShowsStays(s0, s, b, k, file); }
  }

  lemma SameFramesAcross(was: (int, int) -> Mapping, mid: (int, int) -> Mapping, after: (int, int) -> Mapping,
                         now: (int, int) -> Mapping, d: int, base: int, m: nat, to: int)
    requires SameFrames(mid, after, d, base, m, to)
    requires forall w :: InRun(w, base, m) ==> mid(d, w) == was(d, w)
    requires forall w :: InRun(w, to, m) ==> now(d, w) == after(d, w)
    ensures SameFrames(was, now, d, base, m, to)
  {
    forall w | InRun(w, to, m)
      ensures was(d, base + (w - to)).Mapped? && now(d, w).Mapped?
              && now(d, w).entry.frame == was(d, base + (w - to)).entry.frame
    {
      assert InRun(base + (w - to), base, m) && after(d, w) == now(d, w);
    }
  }

  /** The new pages after the old frames were mapped there, and fresh ones behind them. */
  ghost predicate Regrown(s0: Snapshot, s: Snapshot, base: int, m: nat, to: int, n: nat) {
    && s.d == s0.d && m <= n && |s.counts| == |s0.counts| && s.pages == s0.pages
    && (forall w :: InRun(w, to, n) ==> s.On(w))
    && SameFrames(s0.view, s.view, s.d, base, m, to)
    && (forall w, x :: InRun(w, to, n) && InRun(x, to, n) && w != x ==> s.Frame(w) != s.Frame(x))
  }

  lemma RegrownSpread(s0: Snapshot, s: Snapshot, base: int, m: nat, to: int, n: nat)
    requires Regrown(s0, s, base, m, to, n)
    ensures Spread(s.view, s.d, |s.pages|, to, n) && m <= n && s.d == s0.d
    ensures SameFrames(s0.view, s.view, s.d, base, m, to)
    ensures forall w :: InRun(w, to, n) ==> s.On(w)
  {
    forall w | to <= w < to + n ensures s.view(s.d, w).Mapped? && s.view(s.d, w).entry.frame < |s.pages| {
      assert InRun(w, to, n) && s.On(w);
    }
    forall w, x | to <= w < x < to + n ensures s.view(s.d, w).entry.frame != s.view(s.d, x).entry.frame {
      assert InRun(w, to, n) && InRun(x, to, n) && s.Frame(w) != s.Frame(x);
    }
  }

  lemma RegrownIs(s0: Snapshot, s1: Snapshot, s: Snapshot, base: int, m: nat, to: int, n: nat, flags: nat,
                  file: seq<Byte>)
    requires Shows(s0, base, m, file) && SameFrames(s0.view, s1.view, s1.d, base, m, to) && m <= n
             && s.d == s1.d == s0.d
    requires s.pages == s1.pages == s0.pages && |s.counts| == |s1.counts| == |s0.counts| == |s.pages|
    requires forall w :: InRun(w, to, m) ==>
               s1.On(w) && s.view(s.d, w) == s1.view(s.d, w) && InUse(s1.counts, s1.Frame(w))
    requires FreshRange(s.view, s.d, to + m, n - m, flags, s1.counts)
    ensures Regrown(s0, s, base, m, to, n)
  {
    forall w | InRun(w, to, n) ensures s.On(w) && (InUse(s1.counts, s.Frame(w)) <==> InRun(w, to, m)) {
      if !InRun(w, to, m) { assert to + m <= w < to + m + (n - m); }
    }
    forall w, x | InRun(w, to, n) && InRun(x, to, n) && w != x ensures s.Frame(w) != s.Frame(x) {
      if InRun(w, to, m) && InRun(x, to, m) {
        assert InRun(base + (w - to), base, m) && InRun(base + (x - to), base, m);
      } else if !InRun(w, to, m) && !InRun(x, to, m) {
        if w < x { assert s.view(s.d, w).entry.frame != s.view(s.d, x).entry.frame; }
        else { assert s.view(s.d, x).entry.frame != s.view(s.d, w).entry.frame; }
      }
    }
  }

  /** The frames of the new pages are those of the old ones, or were free. */
  ghost predicate GrownFrom(list0: List, s0: Snapshot, s: Snapshot, base: int, m: nat, to: int, n: nat) {
    forall f {:trigger Carries(s.view, s.d, to, n, f)} :: 0 <= f < |s0.counts| && Carries(s.view, s.d, to, n, f) ==>
      Carries(s0.view, s0.d, base, m, f) || s0.counts[f] == 0 || HeadFrame(list0.heads, s0.view, s0.d, f)
  }

  /** What a buffer does to everything but its pages, which were [b0, b0+m0) and are [b, b+m). */
  ghost predicate Spares(lo: int, list0: List, list: List, s0: Snapshot, s: Snapshot, dirs: set<int>, b0: int,
                         m0: nat, b: int, m: nat)
  {
    && s.d == s0.d && s.d in dirs && FramesKept(list0, list, s0, s, b0, m0)
    && ArenaKept(lo, list0.holes, list.holes, s0.view, s.view, dirs, b0, m0)
    && GrownFrom(list0, s0, s, b0, m0, b, m)
    && forall w :: InRun(w, b, m) ==> InRun(w, b0, m0) || IsFree(list0.holes, w)
  }

  lemma NoneCarried(s: Snapshot)
    ensures forall f :: !Carries(s.view, s.d, 0, 0, f)
  {
  }

  /** Frame f is behind one of the new pages. */
  lemma NewFrame(s0: Snapshot, s1: Snapshot, s: Snapshot, base: int, m: nat, to: int, n: nat, f: int)
    requires SameFrames(s0.view, s.view, s.d, base, m, to) && s.d == s1.d == s0.d && m <= n
    requires Charged(s1.counts, s.counts, s.view, s.d, to + m, n - m)
    requires 0 <= f < |s1.counts| && Carries(s.view, s.d, to, n, f)
    ensures Carries(s0.view, s0.d, base, m, f) || s1.counts[f] == 0
  {
    var w :| to <= w < to + n && s.view(s.d, w).Mapped? && s.view(s.d, w).entry.frame == f;
    if w < to + m {
      assert InRun(w, to, m);
      assert base <= base + (w - to) < base + m && s0.view(s0.d, base + (w - to)).entry.frame == f;
    } else {
      assert Carries(s.view, s.d, to + m, n - m, f);
    }
  }

  /** The frames that growing a buffer leaves alone: s1 after the old frames were mapped again,
      s2 after fresh ones were, s after the new pages were filled. */
  lemma FramesByGrow(list: List, s0: Snapshot, s1: Snapshot, s2: Snapshot, s: Snapshot, base: int, m: nat, to: int,
                     n: nat, done: nat)
    requires |s1.counts| == |s0.counts| && s1.pages == s0.pages == s2.pages && |s.pages| == |s0.pages|
             && s1.d == s0.d == s2.d && m <= n
    requires OnlyCarried(s0.view, s0.d, base, m, s0.counts, s1.counts)
    requires Charged(s1.counts, s2.counts, s2.view, s2.d, to + m, done)
    requires s == Snapshot(s2.view, s2.d, s2.counts, s.pages)
    requires forall w :: w in list.heads ==> s2.view(s2.d, w) == s0.view(s0.d, w)
    requires s.pages == s2.pages
             || (done == n - m && SameFrames(s0.view, s2.view, s2.d, base, m, to)
                 && OnRun(s2.pages, s.pages, s2.view, s2.d, to, n))
    ensures FramesKept(list, list, s0, s, base, m)
    ensures done == n - m && SameFrames(s0.view, s2.view, s2.d, base, m, to) ==> GrownFrom(list, s0, s, base, m, to, n)
  {
    hide SameFrames, Carries;
    forall f | 0 <= f < |s0.counts| && s0.counts[f] > 0 && !HeadFrame(list.heads, s0.view, s0.d, f)
               && !Carries(s0.view, s0.d, base, m, f)
      ensures FrameSame(list, s0, s, f)
    {
      SameHeadFrame(list, s0, s, f);
      assert s2.counts[f] == s1.counts[f] == s0.counts[f];
      if s.pages != s2.pages && Carries(s2.view, s2.d, to, n, f) { NewFrame(s0, s1, s2, base, m, to, n, f); }
    }
    if done == n - m && SameFrames(s0.view, s2.view, s2.d, base, m, to) {
      forall f | 0 <= f < |s0.counts| && Carries(s.view, s.d, to, n, f)
        ensures Carries(s0.view, s0.d, base, m, f) || s0.counts[f] == 0
      {
        NewFrame(s0, s1, s2, base, m, to, n, f);
      }
    }
  }

  /** Before growing, a range was allocated; after it, the old one is freed. */
  lemma GrownFromStart(list0: List, list1: List, s0: Snapshot, s1: Snapshot, s: Snapshot, s': Snapshot, base: int,
                       m: nat, to: int, n: nat)
    requires FramesKept(list0, list1, s0, s1, 0, 0) && GrownFrom(list1, s1, s, base, m, to, n) && s'.d == s.d
             && s1.d == s0.d
    requires forall w :: InRun(w, to, n) ==> s'.view(s'.d, w) == s.view(s.d, w)
    requires forall w :: InRun(w, base, m) ==> s1.view(s1.d, w) == s0.view(s0.d, w)
    ensures GrownFrom(list0, s0, s', base, m, to, n)
  {
    hide HeadFrame;
    forall f | 0 <= f < |s0.counts| && Carries(s'.view, s'.d, to, n, f)
      ensures Carries(s0.view, s0.d, base, m, f) || s0.counts[f] == 0 || HeadFrame(list0.heads, s0.view, s0.d, f)
    {
      var w :| to <= w < to + n && s'.view(s'.d, w).Mapped? && s'.view(s'.d, w).entry.frame == f;
      assert InRun(w, to, n) && Carries(s.view, s.d, to, n, f);
      if Carries(s1.view, s1.d, base, m, f) {
        var x :| base <= x < base + m && s1.view(s1.d, x).Mapped? && s1.view(s1.d, x).entry.frame == f;
        assert InRun(x, base, m) && s0.view(s0.d, x) == s1.view(s1.d, x);
      } else {
        SparedBefore(list0, list1, s0, s1, f);
      }
    }
  }

  lemma ShowsRegrown(s0: Snapshot, s1: Snapshot, s: Snapshot, base: int, m: nat, to: int, n: nat, file: seq<Byte>)
    requires Shows(s0, base, m, file) && Regrown(s0, s1, base, m, to, n)
             && s == Snapshot(s1.view, s1.d, s1.counts, s.pages)
    requires Spread(s1.view, s1.d, |s1.pages|, to, n)
    requires Painted(s1.pages, s.pages, s1.view, s1.d, to, n, to * PAGE_SIZE + |file|, Zeros(n * PAGE_SIZE - |file|))
    ensures Shows(s, to, n, file)
  {
    forall w, o | InRun(w, to, n) && 0 <= o < PAGE_SIZE
      ensures ByteOf(s.pages, s.view, s.d, w, o) == FileByte(file, (w - to) * PAGE_SIZE + o)
    {
      if (w - to) * PAGE_SIZE + o < |file| {
        assert InRun(w, to, m) && s1.On(w) && s1.Frame(w) == s0.view(s0.d, base + (w - to)).entry.frame;
        assert InRun(base + (w - to), base, m);
        assert ByteOf(s0.pages, s0.view, s0.d, base + (w - to), o) == FileByte(file, (w - to) * PAGE_SIZE + o);
      }
    }
  }

  /** Steps outside the free pages keep the hole list in place. */
  lemma HeadsStay(list: List, s0: Snapshot, s: Snapshot)
    requires Held(list.heads, s0.view, s0.d, s0.pages) && BodyUnmapped(list, s0.view, s0.d)
    requires forall w :: w in list.heads ==> IsFree(list.holes, w) && s0.On(w)
    requires s.d == s0.d && |s.pages| == |s0.pages| && forall w :: IsFree(list.holes, w) ==>
               s.view(s.d, w) == s0.view(s.d, w)
    requires forall w :: w in list.heads ==> s.pages[s0.Frame(w)] == s0.pages[s0.Frame(w)]
    ensures Held(list.heads, s.view, s.d, s.pages) && BodyUnmapped(list, s.view, s.d)
  {
    HeldStays(list.heads, s0.view, s.view, s.d, s0.pages, s.pages);
  }

  /** Bytes written to other pages. */
  lemma HeadsStayWritten(list: List, s0: Snapshot, s: Snapshot, v: int, n: nat)
    requires Held(list.heads, s0.view, s0.d, s0.pages) && BodyUnmapped(list, s0.view, s0.d)
    requires SoleHeads(list.heads, s0.view, s0.d, s0.counts) && s0.SoleFrames()
    requires forall w :: w in list.heads ==> IsFree(list.holes, w) && s0.On(w)
    requires forall w :: InRun(w, v, n) ==> !IsFree(list.holes, w) && s0.On(w)
    requires s == Snapshot(s0.view, s0.d, s0.counts, s.pages) && OnRun(s0.pages, s.pages, s0.view, s0.d, v, n)
    ensures Held(list.heads, s.view, s.d, s.pages) && BodyUnmapped(list, s.view, s.d)
  {
    forall w | w in list.heads ensures s.pages[s0.Frame(w)] == s0.pages[s0.Frame(w)] {
      HeadsElsewhere(list, s0, v, n, w);
    }
    HeadsStay(list, s0, s);
  }

  /** ... and so do their reference counts. */
  lemma CountsStay(list: List, s0: Snapshot, s: Snapshot, v: int, n: nat)
    requires SoleHeads(list.heads, s0.view, s0.d, s0.counts) && s0.SoleFrames() && s.d == s0.d
    requires forall w :: w in list.heads ==> IsFree(list.holes, w) && s0.On(w) && s.view(s.d, w) == s0.view(s.d, w)
    requires forall w :: InRun(w, v, n) ==> !IsFree(list.holes, w) && s0.On(w)
    requires OnlyCarried(s0.view, s0.d, v, n, s0.counts, s.counts)
    ensures SoleHeads(list.heads, s.view, s.d, s.counts)
  {
    forall w | w in list.heads ensures s.counts[s0.Frame(w)] == s0.counts[s0.Frame(w)] {
      HeadsElsewhere(list, s0, v, n, w);
    }
  }

  lemma SameByte(pages: seq<Page>, f: nat, o: nat, x: Byte)
    requires f < |pages| && o < PAGE_SIZE && x == pages[f][o]
    ensures pages[f := pages[f][o := x]] == pages
  {
    assert pages[f][o := x] == pages[f];
  }

  function Max(a: int, b: int): int {
    if a > b then a else b
  }

  datatype WriteResult = Done(count: nat) | NotDone(why: GrowResult)

  datatype MapResult = Shared(addr: int) | NotSupported | BadLength | NoTable

  /** Why a buffer did not grow. After NotFreed its old pages are gone but still its own: the
      buffer is not usable any more. Stopped is the assertion of the range allocator that there
      is a hole. */
  datatype GrowResult = Grown | NoAddress | NoFrames | NotFreed | Stopped

  /** What growing from m pages at b to n pages comes to, with these holes and so many free
      frames: the new pages have to be found, each page that the buffer did not have needs a
      frame, and then the old pages need a hole to exist, and a frame for a header if they touch
      none and all frames are gone. */
  function GrowOutcome(holes: seq<Hole>, free: nat, b: int, m: nat, n: nat): GrowResult
    requires n > 0
  {
    if holes == [] then Stopped
    else if !Fits(holes, n) then NoAddress
    else
      var left, spare := Take(holes, FirstFit(holes, n), n), FreeAfterTake(holes, n, free) - (n - m);
      if spare < 0 then NoFrames
      else LeaveOutcome(left, spare, b, m)
  }

  /** The steps of grow_buf: `left` are the holes, and `now` the number of free frames, once the
      new pages are taken. */
  lemma GrowSteps(holes: seq<Hole>, free: nat, b: int, m: nat, n: nat, left: seq<Hole>, to: int, now: int)
    requires n > 0 && holes != [] && now == FreeAfterTake(holes, n, free)
    requires Fits(holes, n) ==> TakenFirst(holes, left, to, n)
    ensures var r := GrowOutcome(holes, free, b, m, n);
            && (!Fits(holes, n) ==> r.NoAddress?)
            && (Fits(holes, n) && now < n - m ==> r.NoFrames?)
            && (Fits(holes, n) && now >= n - m ==> r == LeaveOutcome(left, now - (n - m), b, m))
  {
  }

  /** What giving back the old pages comes to. */
  function LeaveOutcome(left: seq<Hole>, free: int, b: int, m: nat): (r: GrowResult)
    ensures r.Grown? || r.Stopped? || r.NotFreed?
  {
    if m == 0 then Grown
    else if left == [] then Stopped
    else if free == 0 && !Touches(left, Position(left, b), b, m) then NotFreed
    else Grown
  }

  lemma AffordedIs(counts: seq<RefCount>, now: seq<RefCount>, m: int, ok: bool)
    requires m >= 0 && Afforded(counts, now, m, ok)
    ensures (ok <==> |FreeSet(counts)| >= m) && |FreeSet(now)| == if ok then |FreeSet(counts)| - m else 0
  {
  }

  /** Without a free frame, two pages take the frame of the header of their hole; and the old
      page, apart from the other hole, cannot be given back. */
  lemma OldPagesLost(b: int)
    ensures GrowOutcome([Hole(b + 10, 2), Hole(b + 20, 1)], 0, b, 1, 2) == NotFreed
  {
    var holes := [Hole(b + 10, 2), Hole(b + 20, 1)];
    assert FirstFit(holes, 2) == 0;
    var left := Take(holes, 0, 2);
    assert left == [Hole(b + 20, 1)] && Position(left, b) == 0;
  }

  /** Two more pages, and no frame but that of the header of the hole. */
  lemma NewPagesLost(b: int)
    ensures GrowOutcome([Hole(b + 10, 3)], 0, b, 1, 3) == NoFrames
  {
    assert FirstFit([Hole(b + 10, 3)], 3) == 0;
  }

  /** The capacity grow_buf asks for. */
  function NewCapacity(capacity: int, requested: int): (r: int)
    ensures r >= requested && r >= 2 * capacity && r > 0 && r % PAGE_SIZE == 0
    ensures capacity >= 0 && requested >= 0 ==> r < Max(capacity * 2, requested) + PAGE_SIZE || r == PAGE_SIZE
  {
    var r := RoundUp(Max(capacity * 2, requested));
    if r <= 0 then PAGE_SIZE else r
  }

  /** Pages [b, b+k) of the allocator's range hold the file. */
  ghost predicate Buffered(ra: RangeAllocator, b: int, k: nat, file: seq<Byte>)
    reads ra, ra.vm, ra.vm.pa, ra.vm.pa.bitmap, ra.vm.pa.refCounts
  {
    && ra.Valid() && ra.lo >= KERNEL_VPAGE
    && Placed(ra.list, ra.lo, ra.hi, Snap(ra.vm), b, k) && Shows(Snap(ra.vm), b, k, file)
  }

  /** What the allocator and a buffer in its range keep true. */
  lemma BufferFacts(ra: RangeAllocator, b: int, k: nat, file: seq<Byte>)
    requires Buffered(ra, b, k, file)
    ensures var vm, s := ra.vm, Snap(ra.vm);
            && vm.Valid() && vm.current in vm.ram.dirs && s.SoleFrames() && |vm.ram.pages| == |vm.Counts()|
            && KERNEL_VPAGE <= ra.lo < ra.hi <= VPAGES && Canonical(ra.list.holes, ra.lo, ra.hi)
            && Held(ra.list.heads, vm.view, vm.current, vm.ram.pages) && BodyUnmapped(ra.list, vm.view, vm.current)
            && Placed(ra.list, ra.lo, ra.hi, s, b, k) && Shows(s, b, k, file)
            && SoleHeads(ra.list.heads, vm.view, vm.current, vm.Counts())
            && (forall w :: w in ra.list.heads ==> IsFree(ra.list.holes, w) && s.On(w))
            && forall w :: InRun(w, b, k) ==>
                 ra.lo <= w < ra.hi && !IsFree(ra.list.holes, w) && s.On(w) && InUse(s.counts, s.Frame(w))
  {
    var vm := ra.vm;
    ra.HeadsFree();
    AllSole(vm);
    forall w | InRun(w, b, k) ensures Snap(vm).On(w) && InUse(vm.Counts(), Snap(vm).Frame(w)) {
      vm.MappedInUse(vm.current, w);
    }
  }

  lemma BufferSizes(ra: RangeAllocator, b: int, k: nat, file: seq<Byte>)
    requires Buffered(ra, b, k, file)
    ensures |ra.vm.ram.pages| == |ra.vm.Counts()|
  {
  }

  lemma BufferLonger(ra: RangeAllocator, b: int, k: nat, file: seq<Byte>, now: seq<Byte>)
    requires Buffered(ra, b, k, file) && |now| <= k * PAGE_SIZE && forall i :: i >= 0 ==>
               FileByte(now, i) == FileByte(file, i)
    ensures Buffered(ra, b, k, now)
  {
    ShowsLonger(Snap(ra.vm), b, k, file, now);
  }

  lemma Written(file: seq<Byte>, off: nat, bytes: seq<Byte>)
    ensures var r := Overwrite(file, off, bytes);
            && |r| == (if |file| < off + |bytes| then off + |bytes| else |file|)
            && forall i :: i >= 0 ==>
                 FileByte(r, i) == if off <= i < off + |bytes| then bytes[i - off] as int else FileByte(file, i)
  {
  }

  /** Pages below the range are neither free nor of the buffer. */
  lemma BelowRange(holes: seq<Hole>, lo: int, hi: int, v: int, n: nat, base: int, m: nat)
    requires Canonical(holes, lo, hi) && v + n <= lo && forall w :: InRun(w, base, m) ==> lo <= w
    ensures forall w :: InRun(w, v, n) ==> !IsFree(holes, w) && !InRun(w, base, m)
    ensures forall w :: InRun(w, base, m) ==> !InRun(w, v, n)
  {
  }

  lemma WithinBuffer(s: Snapshot, base: int, m: nat, file: seq<Byte>, length: nat, n: nat)
    requires Shows(s, base, m, file) && length <= |file| && n == RoundUp(length) / PAGE_SIZE
    ensures n <= m && forall w :: InRun(w, base, n) ==> InRun(w, base, m)
  {
  }

  lemma CarriedMore(s0: Snapshot, s: Snapshot, base: int, n: nat, m: nat)
    requires OnlyCarried(s0.view, s0.d, base, n, s0.counts, s.counts) && n <= m
    ensures OnlyCarried(s0.view, s0.d, base, m, s0.counts, s.counts)
  {
    forall f | Carries(s0.view, s0.d, base, n, f) ensures Carries(s0.view, s0.d, base, m, f) {
      var w :| base <= w < base + n && s0.view(s0.d, w).Mapped? && s0.view(s0.d, w).entry.frame == f;
      assert base <= w < base + m;
    }
  }

  lemma ZerosAre(n: nat)
    ensures |Zeros(n)| == n && forall i :: 0 <= i < n ==> Zeros(n)[i] == 0
  {
  }

  lemma Resized(file: seq<Byte>, n: nat)
    ensures var r := Resize(file, n);
            |r| == n && forall i :: i >= 0 ==> FileByte(r, i) == if i < n then FileByte(file, i) else 0
  {
  }

  /** All that a buffer on pages [b, b+k) rests on, at one moment. */
  ghost predicate Intact(list: List, lo: int, hi: int, s: Snapshot, b: int, k: nat, file: seq<Byte>) {
    && Shows(s, b, k, file) && Placed(list, lo, hi, s, b, k) && s.SoleFrames()
    && (forall w :: w in list.heads ==> IsFree(list.holes, w) && s.On(w))
    && forall w :: InRun(w, b, k) ==> s.On(w) && InUse(s.counts, s.Frame(w))
  }

  lemma IsIntact(ra: RangeAllocator, b: int, k: nat, file: seq<Byte>)
    requires Buffered(ra, b, k, file)
    ensures Intact(ra.list, ra.lo, ra.hi, Snap(ra.vm), b, k, file)
  {
    BufferFacts(ra, b, k, file);
  }

  /** No page and no frame is in both runs. */
  ghost predicate NothingShared(s: Snapshot, b: int, m: nat, c: int, k: nat) {
    && (forall w :: InRun(w, c, k) ==> !InRun(w, b, m))
    && forall f {:trigger Carries(s.view, s.d, b, m, f)} :: Carries(s.view, s.d, c, k, f) ==>
      !Carries(s.view, s.d, b, m, f)
  }

  lemma CarriedIn(s: Snapshot, c: int, k: nat, w: int)
    requires InRun(w, c, k) && s.On(w)
    ensures Carries(s.view, s.d, c, k, s.Frame(w))
  {
    assert c <= w < c + k;
  }

  /** What one buffer does leaves another one alone, and the two with nothing in common. */
  lemma OtherSpared(list0: List, list: List, lo: int, hi: int, s0: Snapshot, s: Snapshot, dirs: set<int>, b0: int,
                    m0: nat, b: int, m: nat, c: int, k: nat, file: seq<Byte>)
    requires Intact(list0, lo, hi, s0, c, k, file) && NothingShared(s0, b0, m0, c, k)
    requires Spares(lo, list0, list, s0, s, dirs, b0, m0, b, m) && SoleHeads(list.heads, s.view, s.d, s.counts)
    ensures Shows(s, c, k, file) && Placed(list, lo, hi, s, c, k) && NothingShared(s, b, m, c, k)
  {
    hide FramesKept, ArenaKept, Carries, HeadFrame, Shows, Snapshot.SoleFrames;
    forall w | InRun(w, c, k) && s0.On(w) ensures !Carries(s0.view, s0.d, b0, m0, s0.Frame(w)) {
      CarriedIn(s0, c, k, w);
    }
    assert Elsewhere(s0, c, k, b0, m0);
    Undisturbed(list0, list, lo, hi, s0, s, dirs, b0, m0, c, k, file);
    forall f | Carries(s.view, s.d, c, k, f) ensures !Carries(s.view, s.d, b, m, f) {
      var w := Carrier(s, c, k, f);
      CarriedIn(s0, c, k, w);
      NotHead(list0, s0, w);
    }
  }

  lemma Carrier(s: Snapshot, c: int, k: nat, f: int) returns (w: int)
    requires Carries(s.view, s.d, c, k, f)
    ensures InRun(w, c, k) && s.view(s.d, w).Mapped? && s.view(s.d, w).entry.frame == f
  {
    w :| c <= w < c + k && s.view(s.d, w).Mapped? && s.view(s.d, w).entry.frame == f;
  }

  /** A live block of the heap has no page and no frame of a buffer that the heap does not know. */
  lemma BlockElsewhere(heap: Heap, ptr: int, b: int, k: nat)
    requires heap.Valid() && ptr in heap.live && Run(b, k) <= heap.transit
    requires forall w :: InRun(w, b, k) ==> Snap(heap.vm).On(w) && InUse(heap.vm.Counts(), Snap(heap.vm).Frame(w))
    ensures Elsewhere(Snap(heap.vm), b, k, heap.live[ptr].page, heap.live[ptr].pages)
  {
    var s, block := Snap(heap.vm), heap.live[ptr];
    AllSole(heap.vm);
    heap.LiveRange(ptr);
    heap.LivePages(ptr);
    forall w | InRun(w, b, k)
      ensures !InRun(w, block.page, block.pages) && !Carries(s.view, s.d, block.page, block.pages, s.Frame(w))
    {
      assert w in Run(b, k);
      forall x | block.page <= x < block.page + block.pages && s.view(s.d, x).Mapped?
        ensures s.view(s.d, x).entry.frame != s.Frame(w)
      {
        assert s.On(x) && x != w;
      }
    }
  }

  // ----- mapping pages, seen by the hole list and by a buffer -----

  /** Pages [q, q+j), which are not free, are mapped or unmapped; of the frames in use only those
      behind pages [p, p+k) are referred to more or less often. */
  lemma MappedAside(list: List, lo: int, hi: int, s0: Snapshot, s: Snapshot, dirs: set<int>, p: int, k: nat, q: int,
                    j: nat, b: int, m: nat, file: seq<Byte>)
    requires Held(list.heads, s0.view, s0.d, s0.pages) && BodyUnmapped(list, s0.view, s0.d) && s0.SoleFrames()
    requires Placed(list, lo, hi, s0, b, m) && Shows(s0, b, m, file)
    requires forall w :: w in list.heads ==> IsFree(list.holes, w) && s0.On(w)
    requires s == Snapshot(s.view, s0.d, s.counts, s0.pages) && RunOnly(s0.view, s.view, dirs, q, j) && s.d in dirs
    requires OnlyCarried(s0.view, s0.d, p, k, s0.counts, s.counts)
    requires forall w :: InRun(w, p, k) ==> !IsFree(list.holes, w) && s0.On(w)
    requires forall w :: InRun(w, q, j) ==> !IsFree(list.holes, w) && !InRun(w, b, m)
    ensures Held(list.heads, s.view, s.d, s.pages) && BodyUnmapped(list, s.view, s.d)
    ensures Placed(list, lo, hi, s, b, m) && Shows(s, b, m, file)
  {
    hide Held;
    HeadsStay(list, s0, s);
    CountsStay(list, s0, s, p, k);
    ShowsStays(s0, s, b, m, file);
  }

  lemma CopiedFrames(s0: Snapshot, s: Snapshot, dirs: set<int>, base: int, m: nat, to: int, flags: nat)
    requires forall w :: base <= w < base + m ==> s0.view(s.d, w).Mapped?
    requires SameOutside(s0.view, s.view, dirs, s.d, to, m) && CopiedRange(s0.view, s.view, s.d, to, base, m, flags)
    ensures RunOnly(s0.view, s.view, dirs, to, m) && SameFrames(s0.view, s.view, s.d, base, m, to)
  {
  }

  /** The pages of a buffer and those that were mapped to its frames, afterwards. */
  lemma MappedFrames(s0: Snapshot, s: Snapshot, dirs: set<int>, base: int, k: nat, m: nat, to: int, flags: nat)
    requires k <= m && forall w :: InRun(w, base, m) ==> s0.view(s0.d, w).Mapped? && !InRun(w, to, k)
    requires forall w :: base <= w < base + k ==> s0.view(s.d, w).Mapped?
    requires SameOutside(s0.view, s.view, dirs, s.d, to, k) && CopiedRange(s0.view, s.view, s.d, to, base, k, flags)
    requires s.d == s0.d && s.d in dirs
    ensures SameFrames(s.view, s.view, s.d, base, k, to) && MappedAs(s0.view, s.view, s.d, base, k, to, flags)
  {
    CopiedFrames(s0, s, dirs, base, k, to, flags);
    OffRun(s0.view, s.view, dirs, to, k, s.d, base, k);
    SameFramesAcross(s.view, s0.view, s.view, s.view, s.d, base, k, to);
  }

  lemma RunMore(s0: Snapshot, s: Snapshot, dirs: set<int>, v: int, k: nat, n: nat)
    requires SameOutside(s0.view, s.view, dirs, s.d, v, k) && k <= n
    ensures RunOnly(s0.view, s.view, dirs, v, k) && RunOnly(s0.view, s.view, dirs, v, n)
  {
  }

  lemma ChargedAside(s0: Snapshot, s: Snapshot, v: int, n: nat)
    requires Charged(s0.counts, s.counts, s.view, s.d, v, n)
    ensures OnlyCarried(s0.view, s0.d, 0, 0, s0.counts, s.counts)
  {
  }

  lemma RunsTogether(view0: (int, int) -> Mapping, view1: (int, int) -> Mapping, view: (int, int) -> Mapping,
                     dirs: set<int>, to: int, m: nat, n: nat)
    requires m <= n && RunOnly(view0, view1, dirs, to, m) && RunOnly(view1, view, dirs, to + m, n - m)
    ensures RunOnly(view0, view, dirs, to, n)
  {
  }

  lemma OffRun(view0: (int, int) -> Mapping, view: (int, int) -> Mapping, dirs: set<int>, page: int, n: nat, d: int,
               b: int, k: nat)
    requires RunOnly(view0, view, dirs, page, n) && d in dirs && forall w :: InRun(w, b, k) ==> !InRun(w, page, n)
    ensures forall w :: InRun(w, b, k) ==> view(d, w) == view0(d, w)
  {
  }

  lemma HeadsOffRun(list: List, view0: (int, int) -> Mapping, view: (int, int) -> Mapping, dirs: set<int>, page: int,
                    n: nat, d: int)
    requires RunOnly(view0, view, dirs, page, n) && d in dirs && forall w :: InRun(w, page, n) ==>
               !IsFree(list.holes, w)
    requires forall w :: w in list.heads ==> IsFree(list.holes, w)
    ensures forall w :: w in list.heads ==> view(d, w) == view0(d, w)
  {
  }

  /** Pages that were not free stay mapped as they are. */
  lemma KeptRun(holes0: seq<Hole>, holes: seq<Hole>, view0: (int, int) -> Mapping, view: (int, int) -> Mapping,
                dirs: set<int>, page: int, n: nat, b: int, k: nat, d: int)
    requires PagesKept(holes0, holes, view0, view, dirs, page, n) && d in dirs
    requires forall w :: InRun(w, b, k) ==> !IsFree(holes0, w) && !InRun(w, page, n)
    ensures forall w :: InRun(w, b, k) ==> view(d, w) == view0(d, w) && !IsFree(holes, w)
  {
  }

  lemma OwnFrames(list0: List, s0: Snapshot, s: Snapshot, b: int, m: nat)
    requires s.d == s0.d && forall w :: InRun(w, b, m) ==> s.view(s.d, w) == s0.view(s0.d, w)
    ensures GrownFrom(list0, s0, s, b, m, b, m)
  {
    forall f | Carries(s.view, s.d, b, m, f) ensures Carries(s0.view, s0.d, b, m, f) {
      var w :| b <= w < b + m && s.view(s.d, w).Mapped? && s.view(s.d, w).entry.frame == f;
      assert InRun(w, b, m) && s0.view(s0.d, w) == s.view(s.d, w);
    }
  }

  /** A range was looked for, and all else stayed as it was. */
  lemma SparesStart(lo: int, list0: List, list: List, s0: Snapshot, s: Snapshot, dirs: set<int>, b: int, m: nat)
    requires FramesKept(list0, list, s0, s, 0, 0) && PagesKept(list0.holes, list.holes, s0.view, s.view, dirs, 0, 0)
    requires s.d == s0.d && s.d in dirs && forall w :: InRun(w, b, m) ==> s.view(s.d, w) == s0.view(s0.d, w)
    ensures Spares(lo, list0, list, s0, s, dirs, b, m, b, m)
  {
    FramesWider(list0, list, s0, s, b, m);
    PagesWider(list0.holes, list.holes, s0.view, s.view, dirs, b, m);
    ArenaByPages(lo, list0.holes, list.holes, s0.view, s.view, dirs, b, m);
    OwnFrames(list0, s0, s, b, m);
  }

  /** The pages from `to` on, free at first, have been set up. */
  lemma SparesSetUp(lo: int, list0: List, list1: List, s0: Snapshot, s1: Snapshot, s: Snapshot, dirs: set<int>, b: int,
                    m: nat, to: int, n: nat)
    requires Spares(lo, list0, list1, s0, s1, dirs, b, m, b, m) && s.d == s1.d
    requires FramesKept(list1, list1, s1, s, b, m) && RunOnly(s1.view, s.view, dirs, to, n)
             && RunFree(list0.holes, to, n)
    requires forall w :: InRun(w, b, m) ==> s1.view(s1.d, w) == s0.view(s0.d, w) && !InRun(w, to, n)
    ensures Spares(lo, list0, list1, s0, s, dirs, b, m, b, m)
    ensures forall w :: InRun(w, b, m) ==> s.view(s.d, w) == s0.view(s0.d, w)
  {
    hide FramesKept, ArenaKept, RunOnly, GrownFrom;
    ArenaOfRun(lo, list0.holes, list1.holes, s0.view, s1.view, s.view, dirs, to, n, b, m);
    FramesBoth(list0, list1, list1, s0, s1, s, b, m, m);
    OffRun(s1.view, s.view, dirs, to, n, s.d, b, m);
    OwnFrames(list0, s0, s, b, m);
  }

  /** The old pages have been given back. */
  lemma SparesEnd(lo: int, list0: List, list1: List, list: List, s0: Snapshot, s1: Snapshot, s2: Snapshot, s: Snapshot,
                  dirs: set<int>, b: int, m: nat, to: int, n: nat)
    requires Spares(lo, list0, list1, s0, s2, dirs, b, m, b, m) && FramesKept(list0, list1, s0, s1, 0, 0)
    requires GrownFrom(list1, s1, s2, b, m, to, n) && SameFrames(s1.view, s2.view, s2.d, b, m, to)
             && s1.d == s2.d == s.d
    requires FramesKept(list1, list, s2, s, b, m) && PagesKept(list1.holes, list.holes, s2.view, s.view, dirs, b, m)
    requires forall w :: InRun(w, b, m) ==> s1.view(s1.d, w) == s0.view(s0.d, w) && s2.view(s2.d, w) == s0.view(s0.d, w)
    requires forall w :: InRun(w, to, n) ==> !IsFree(list1.holes, w) && !InRun(w, b, m)
    requires RunFree(list0.holes, to, n) && m <= n
    ensures Spares(lo, list0, list, s0, s, dirs, b, m, to, n) && SameFrames(s0.view, s.view, s.d, b, m, to)
  {
    hide FramesKept, PagesKept, ArenaKept, GrownFrom, SameFrames;
    FramesBoth(list0, list1, list, s0, s2, s, b, m, m);
    ArenaThen(lo, list0.holes, list1.holes, list.holes, s0.view, s2.view, s.view, dirs, b, m);
    KeptRun(list1.holes, list.holes, s2.view, s.view, dirs, b, m, to, n, s.d);
    SameFramesAcross(s0.view, s1.view, s2.view, s.view, s.d, b, m, to);
    GrownFromStart(list0, list1, s0, s1, s2, s, b, m, to, n);
  }

  /** Bytes were written to the pages. */
  lemma SparesStored(lo: int, list0: List, list: List, s0: Snapshot, s1: Snapshot, s: Snapshot, dirs: set<int>, b0: int,
                     m0: nat, b: int, m: nat)
    requires Spares(lo, list0, list, s0, s1, dirs, b0, m0, b, m) && s == Snapshot(s1.view, s1.d, s1.counts, s.pages)
    requires OnRun(s1.pages, s.pages, s1.view, s1.d, b, m)
    ensures Spares(lo, list0, list, s0, s, dirs, b0, m0, b, m)
  {
    hide ArenaKept, HeadFrame, Carries;
    forall f | 0 <= f < |s0.counts| && s0.counts[f] > 0 && !HeadFrame(list0.heads, s0.view, s0.d, f)
               && !Carries(s0.view, s0.d, b0, m0, f)
      ensures FrameSame(list, s0, s, f)
    {
      assert FrameSame(list, s0, s1, f);
      assert !Carries(s1.view, s1.d, b, m, f);
    }
  }

  lemma NonePaired(view: (int, int) -> Mapping, d: int, b: int, v: int, flags: nat)
    ensures SameFrames(view, view, d, b, 0, v) && MappedAs(view, view, d, b, 0, v, flags)
  {
    assert forall w :: !InRun(w, v, 0);
  }

  /** Pages below the arena are mapped to the frames of the buffer. */
  lemma SparesMapped(lo: int, list: List, s0: Snapshot, s: Snapshot, dirs: set<int>, b: int, m: nat, v: int, k: nat)
    requires FramesKept(list, list, s0, s, b, m) && RunOnly(s0.view, s.view, dirs, v, k) && v + k <= lo
    requires s.d == s0.d && s.d in dirs && forall w :: InRun(w, b, m) ==> lo <= w
    ensures Spares(lo, list, list, s0, s, dirs, b, m, b, m)
  {
    hide FramesKept;
    OwnFrames(list, s0, s, b, m);
  }

  lemma SparesNothing(lo: int, list: List, s: Snapshot, dirs: set<int>, b: int, m: nat)
    requires |s.pages| == |s.counts| && s.d in dirs
    ensures Spares(lo, list, list, s, s, dirs, b, m, b, m)
            && (Regular(s, b, m) ==> SameFrames(s.view, s.view, s.d, b, m, b))
  {
    Untouching(list, s, dirs, 0, 0);
    SparesStart(lo, list, list, s, s, dirs, b, m);
  }

  /** Pages [b, b+m) are mapped. */
  ghost predicate Regular(s: Snapshot, b: int, m: nat) {
    forall w :: InRun(w, b, m) ==> s.On(w)
  }

  /** Nothing has happened. */
  lemma Untouching(list: List, s: Snapshot, dirs: set<int>, b: int, m: nat)
    requires |s.pages| == |s.counts|
    ensures FramesKept(list, list, s, s, b, m) && PagesKept(list.holes, list.holes, s.view, s.view, dirs, b, m)
  {
  }

  lemma NowhereElse(s: Snapshot, b: int, k: nat)
    requires forall w :: InRun(w, b, k) ==> s.On(w) && InUse(s.counts, s.Frame(w))
    ensures Elsewhere(s, b, k, 0, 0)
  {
    assert forall f :: !Carries(s.view, s.d, 0, 0, f);
  }

  lemma UnmappedElsewhere(s: Snapshot, b: int, k: nat, page: int, n: nat)
    requires forall w :: InRun(w, b, k) ==> s.On(w) && InUse(s.counts, s.Frame(w)) && !InRun(w, page, n)
    requires forall w :: InRun(w, page, n) ==> s.view(s.d, w).Unmapped?
    ensures Elsewhere(s, b, k, page, n)
  {
    forall f ensures !Carries(s.view, s.d, page, n, f) {
      forall w | page <= w < page + n ensures s.view(s.d, w).Unmapped? { assert InRun(w, page, n); }
    }
  }

  lemma OnRunSame(pages: seq<Page>, view: (int, int) -> Mapping, d: int, v: int, m: nat)
    ensures OnRun(pages, pages, view, d, v, m)
  {
  }

  class GrowableBuf {
    const vm: Paging
    const ra: RangeAllocator
    var addr: int
    var capacity: int
    var size: int
    /** The file it stands for, and the pages it is in. */
    ghost var file: seq<Byte>
    ghost var base: int
    ghost var m: nat

    ghost predicate Valid()
      reads this, vm, ra, vm.pa, vm.pa.bitmap, vm.pa.refCounts
    {
      && InStep() && ra.vm == vm && Buffered(ra, base, m, file)
    }

    /** A buffer that was just cleared. */
    constructor (ra: RangeAllocator)
      requires ra.Valid() && ra.lo >= KERNEL_VPAGE && SoleHeads(ra.list.heads, ra.vm.view, ra.vm.current,
                                                                ra.vm.Counts())
      ensures Valid() && this.ra == ra && vm == ra.vm && file == [] && m == 0
    {
      this.ra, vm, addr, capacity, size, file, base, m := ra, ra.vm, 0, 0, 0, [], 0, 0;
    }

    /** growable_buf_pread: what the file holds there, up to its end. */
    method Pread(count: nat, offset: nat) returns (bytes: seq<Byte>)
      requires Valid() && offset + count < WORD
      ensures var end := if offset + count >= |file| then |file| else offset + count;
              bytes == if offset >= |file| then [] else file[offset..end]
    {
      if offset >= size { return []; }
      var n := if offset + count >= size then size - offset else count;
      bytes := [];
      for i := 0 to n
        invariant bytes == file[offset..offset + i]
      {
        var w, o := (addr + offset + i) / PAGE_SIZE, (addr + offset + i) % PAGE_SIZE;
        assert (w - base) * PAGE_SIZE + o == offset + i;
        assert InRun(w, base, m);
        var x := vm.LoadByte(w, o);
        assert ByteOf(vm.ram.pages, vm.view, vm.current, w, o) == FileByte(file, offset + i);
        bytes := bytes + [x];
      }
    }

    /** The mapping part of grow_buf: the old frames at the new place, fresh ones behind. */
    method CopyFrames(to: int, n: nat)
      requires Valid() && m <= n && ra.lo <= to && to + n <= ra.hi
      requires forall w :: InRun(w, to, n) ==> !IsFree(ra.list.holes, w) && vm.view(vm.current, w).Unmapped?
      modifies vm`ram, vm`owners, vm`view, vm.pa, vm.pa.bitmap, vm.pa.refCounts
      ensures Valid() && vm.ram.pages == old(vm.ram.pages) && vm.ram.dirs == old(vm.ram.dirs)
              && vm.current == old(vm.current)
      ensures SameFrames(old(vm.view), vm.view, vm.current, base, m, to)
      ensures Flagged(vm.view, vm.current, to, m, PAGE_WRITE + PAGE_GLOBAL)
      ensures RunOnly(old(vm.view), vm.view, vm.ram.dirs, to, m)
      ensures OnlyCarried(old(vm.view), vm.current, base, m, old(vm.Counts()), vm.Counts())
      ensures |FreeSet(vm.Counts())| == |FreeSet(old(vm.Counts()))|
    {
      hide ra.Valid, Placed, Shows, Held, BodyUnmapped, SoleHeads, IsFree, Canonical, OnlyCarried, Snapshot.SoleFrames,
           Grows, AddsTables, FreeSet, Missing, Flagged;
      ghost var s0 := Snap(vm);
      BufferFacts(ra, base, m, file);
      forall w | base <= w < base + m ensures vm.view(vm.current, w).Mapped? { assert InRun(w, base, m) && s0.On(w); }
      forall w | to <= w < to + n ensures vm.view(vm.current, w).Unmapped? { assert InRun(w, to, n); }
      assert addr / PAGE_SIZE == base && capacity / PAGE_SIZE == m;
      var rc;
      ghost var done;
      rc, done := vm.CopyMapping(to, addr / PAGE_SIZE, capacity / PAGE_SIZE, PAGE_WRITE + PAGE_GLOBAL);
      assert rc.Ok?;
      ghost var s := Snap(vm);
      CopiedFrames(s0, s, vm.ram.dirs, base, m, to, PAGE_WRITE + PAGE_GLOBAL);
      FlaggedCopy(s0.view, s.view, vm.current, to, base, m, PAGE_WRITE + PAGE_GLOBAL);
      forall w | InRun(w, base, m) ensures !InRun(w, to, m) { assert s0.On(w); }
      MappedAside(ra.list, ra.lo, ra.hi, s0, s, vm.ram.dirs, base, m, to, m, base, m, file);
      ra.Remains();
    }

    lemma NewInUse(to: int, s0: Snapshot)
      requires Valid() && SameFrames(s0.view, vm.view, vm.current, base, m, to)
      ensures forall w :: InRun(w, to, m) ==> Snap(vm).On(w) && InUse(vm.Counts(), Snap(vm).Frame(w))
    {
      forall w | InRun(w, to, m) ensures Snap(vm).On(w) && InUse(vm.Counts(), Snap(vm).Frame(w)) {
        assert vm.view(vm.current, w).Mapped?;
        vm.MappedInUse(vm.current, w);
      }
    }

    /** ... and the fresh frames behind them. */
    method AddFrames(to: int, n: nat, ghost s0: Snapshot) returns (rc: Status, ghost done: nat)
      requires Valid() && m <= n && ra.lo <= to && to + n <= ra.hi
      requires forall w :: InRun(w, to, n) ==> !IsFree(ra.list.holes, w) && !InRun(w, base, m)
      requires forall w :: InRun(w, to + m, n - m) ==> vm.view(vm.current, w).Unmapped?
      requires SameFrames(s0.view, vm.view, vm.current, base, m, to) && Shows(s0, base, m, file) && s0.d == vm.current
      requires |s0.counts| == |vm.Counts()| && s0.pages == vm.ram.pages
      requires Flagged(vm.view, vm.current, to, m, PAGE_WRITE + PAGE_GLOBAL)
      modifies vm`ram, vm`owners, vm`view, vm.pa, vm.pa.bitmap, vm.pa.refCounts
      ensures rc.Ok? ==> Flagged(vm.view, vm.current, to, n, PAGE_WRITE + PAGE_GLOBAL)
      ensures Valid() && vm.ram.dirs == old(vm.ram.dirs) && vm.current == old(vm.current)
              && vm.ram.pages == old(vm.ram.pages)
      ensures rc.Ok? ==> done == n - m && Regrown(s0, Snap(vm), base, m, to, n)
      ensures RunOnly(old(vm.view), vm.view, vm.ram.dirs, to + m, n - m)
      ensures Charged(old(vm.Counts()), vm.Counts(), vm.view, vm.current, to + m, done)
      ensures Afforded(old(vm.Counts()), vm.Counts(), n - m, rc.Ok?)
    {
      hide ra.Valid, Placed, Shows, Held, BodyUnmapped, SoleHeads, IsFree, Canonical, Charged, Snapshot.SoleFrames,
           Grows, AddsTables, FreshRange, Regrown, SameFrames, FreeSet, Missing, Flagged;
      ghost var s1 := Snap(vm);
      BufferFacts(ra, base, m, file);
      NewInUse(to, s0);
      assert capacity / PAGE_SIZE == m;
      forall w | to + m <= w < to + n ensures vm.view(vm.current, w).Unmapped? { assert InRun(w, to + m, n - m); }
      rc, done := vm.MapToFreePages(to + capacity / PAGE_SIZE, n - capacity / PAGE_SIZE, PAGE_WRITE + PAGE_GLOBAL);
      ghost var s := Snap(vm);
      RunMore(s1, s, vm.ram.dirs, to + m, done, n - m);
      ChargedAside(s1, s, to + m, done);
      forall w | InRun(w, to + m, done) ensures InRun(w, to, n) { }
      MappedAside(ra.list, ra.lo, ra.hi, s1, s, vm.ram.dirs, 0, 0, to + m, done, base, m, file);
      ra.Remains();
      if rc.NoMemory? { return; }
      FlaggedMore(s1.view, s.view, vm.ram.dirs, vm.current, to, m, n, PAGE_WRITE + PAGE_GLOBAL, s1.counts);
      RegrownIs(s0, s1, s, base, m, to, n, PAGE_WRITE + PAGE_GLOBAL, file);
    }

    /** memcpy from the old place to the new one: both are the same frames, so no byte changes. */
    method CopyBytes(to: int)
      requires Valid() && SameFrames(vm.view, vm.view, vm.current, base, m, to)
      modifies vm`ram
      ensures vm.Valid() && vm.ram == old(vm.ram)
    {
      for i := 0 to size
        invariant vm.Valid() && vm.ram == old(vm.ram)
      {
        var w, v, o := (addr + i) / PAGE_SIZE, to + i / PAGE_SIZE, i % PAGE_SIZE;
        assert w == base + i / PAGE_SIZE && InRun(w, base, m) && InRun(v, to, m);
        var x := vm.LoadByte(w, o);
        ghost var f := vm.view(vm.current, v).entry.frame;
        assert v - to == w - base;
        vm.StoreByte(v, o, x);
        SameByte(old(vm.ram.pages), f, o, x);
      }
    }

    /** The old pages are there to be given back. */
    ghost predicate OldPages(to: int, n: nat)
      reads this, vm, ra, vm.pa.refCounts
    {
      forall w :: InRun(w, base, m) ==> !IsFree(ra.list.holes, w) && !InRun(w, to, n) && Snap(vm).On(w)
    }

    lemma OldStays(to: int, n: nat)
      requires Valid() && forall w :: InRun(w, to, n) ==> !InRun(w, base, m)
      ensures OldPages(to, n) && (m > 0 ==> ra.lo <= base && base + m <= ra.hi)
    {
      if m > 0 { assert InRun(base, base, m) && InRun(base + m - 1, base, m); }
    }

    /** The bytes of the new pages: those of the file, and zeros behind. */
    method FillNew(to: int, n: nat, ghost s0: Snapshot)
      requires Valid() && Regrown(s0, Snap(vm), base, m, to, n) && Shows(s0, base, m, file)
      requires forall w :: InRun(w, base, m) ==> vm.view(vm.current, w) == s0.view(s0.d, w)
      requires forall w :: InRun(w, to, n) ==> ra.lo <= w < ra.hi && !IsFree(ra.list.holes, w)
      requires Flagged(vm.view, vm.current, to, n, PAGE_WRITE + PAGE_GLOBAL)
      modifies vm`ram
      ensures Buffered(ra, to, n, file) && vm.ram == old(vm.ram).(pages := vm.ram.pages)
      ensures |vm.ram.pages| == |old(vm.ram.pages)|
              && OnRun(old(vm.ram.pages), vm.ram.pages, vm.view, vm.current, to, n)
    {
      hide Spread, Apart, Linked, Canonical, Distinct, Bounded, SameFrames, Painted, Regrown, Shows, IsFree, Held,
           OnRun, ra.Valid, Flagged;
      ghost var s1 := Snap(vm);
      BufferFacts(ra, base, m, file);
      ShowsSize(s0, base, m, file);
      RegrownSpread(s0, s1, base, m, to, n);
      SameFramesAcross(vm.view, s0.view, vm.view, vm.view, vm.current, base, m, to);
      if addr != 0 { CopyBytes(to); }
      Memset(vm, to * PAGE_SIZE + size, 0, n * PAGE_SIZE - size, to, n);
      ShowsRegrown(s0, s1, Snap(vm), base, m, to, n, file);
      OnRunSame(s1.pages, vm.view, vm.current, to, n);
      PaintedOnRun(s1.pages, s1.pages, vm.ram.pages, vm.view, vm.current, to, n, to * PAGE_SIZE + size,
                   Zeros(n * PAGE_SIZE - size));
      HeadsStayWritten(ra.list, s1, Snap(vm), to, n);
      ra.Remains();
    }

    /** Unmapping the old pages frees no frame, as the new ones are on the same. */
    lemma NoneFreed(s0: Snapshot, to: int)
      requires vm.Valid() && s0.d == vm.current && SameFrames(s0.view, s0.view, s0.d, base, m, to)
      requires forall w :: InRun(w, to, m) ==> vm.view(vm.current, w) == s0.view(s0.d, w)
      requires OnlyCarried(s0.view, s0.d, base, m, s0.counts, vm.Counts()) && NoneTaken(s0.counts, vm.Counts())
      ensures FreeSet(vm.Counts()) == FreeSet(s0.counts)
    {
      forall f | 0 <= f < |s0.counts| && Carries(s0.view, s0.d, base, m, f) ensures vm.Counts()[f] > 0 {
        var w :| base <= w < base + m && s0.view(s0.d, w).Mapped? && s0.view(s0.d, w).entry.frame == f;
        assert InRun(to + (w - base), to, m) && base + (to + (w - base) - to) == w;
        assert vm.view(vm.current, to + (w - base)).Mapped?;
        vm.MappedInUse(vm.current, to + (w - base));
      }
    }

    /** The old pages are unmapped and given back. */
    method DropOld(to: int, n: nat) returns (ok: bool)
      requires ra.vm == vm && Buffered(ra, to, n, file) && ra.ranges != 0 && addr == base * PAGE_SIZE
               && capacity == m * PAGE_SIZE && m > 0
      requires ra.lo <= base && base + m <= ra.hi && capacity <= WORD - PAGE_SIZE && OldPages(to, n)
      requires SameFrames(vm.view, vm.view, vm.current, base, m, to) && m <= n
      modifies ra`list, ra`ranges, vm`ram, vm`owners, vm`view, vm.pa, vm.pa.bitmap, vm.pa.refCounts
      ensures ok ==> Buffered(ra, to, n, file) && vm.current == old(vm.current) && vm.ram.dirs == old(vm.ram.dirs)
      ensures !ok <==> old(Unfreeable())
      ensures ok ==> FramesKept(old(ra.list), ra.list, old(Snap(vm)), Snap(vm), base, m)
      ensures ok ==> PagesKept(old(ra.list.holes), ra.list.holes, old(vm.view), vm.view, vm.ram.dirs, base, m)
    {
      hide ra.Valid, ra.Quiet, Placed, Shows, Held, BodyUnmapped, SoleHeads, IsFree, Canonical, OnlyCarried,
           Snapshot.SoleFrames, FramesKept, PagesKept, AddsTables, RunOnly, NoneTaken, SameFrames, Touches, Position;
      ghost var list0, s0 := ra.list, Snap(vm);
      BufferFacts(ra, to, n, file);
      forall w | base <= w < base + m ensures vm.view(vm.current, w).Mapped? { assert InRun(w, base, m); }
      vm.Unmap(addr / PAGE_SIZE, capacity / PAGE_SIZE);
      ghost var s1 := Snap(vm);
      FramesByCarried(list0, s0, s1, base, m);
      RunMore(s0, s1, vm.ram.dirs, base, m, m);
      PagesByRun(list0.holes, s0.view, s1.view, vm.ram.dirs, base, m);
      MappedAside(list0, ra.lo, ra.hi, s0, s1, vm.ram.dirs, base, m, base, m, to, n, file);
      ra.Remains();
      forall w | InRun(w, base, m) ensures vm.view(vm.current, w).Unmapped? { }
      forall w | InRun(w, to, m) ensures vm.view(vm.current, w) == s0.view(s0.d, w) { assert InRun(w, to, n); }
      NoneFreed(s0, to);
      ok := FreeOld(to, n);
      if !ok { return; }
      FramesThen(list0, list0, ra.list, s0, s1, Snap(vm), base, m);
      PagesThen(list0.holes, list0.holes, ra.list.holes, s0.view, s1.view, vm.view, vm.ram.dirs, base, m, base, m);
    }

    /** The old pages are given back, if there are any. */
    method LeaveOld(to: int, n: nat) returns (r: GrowResult)
      requires ra.vm == vm && Buffered(ra, to, n, file) && addr == base * PAGE_SIZE && (addr == 0 <==> m == 0)
               && capacity == m * PAGE_SIZE && capacity <= WORD - PAGE_SIZE
      requires OldPages(to, n) && (m > 0 ==> ra.lo <= base && base + m <= ra.hi)
      requires SameFrames(vm.view, vm.view, vm.current, base, m, to) && m <= n
      modifies ra`list, ra`ranges, vm`ram, vm`owners, vm`view, vm.pa, vm.pa.bitmap, vm.pa.refCounts
      ensures r == LeaveOutcome(old(ra.list.holes), |FreeSet(old(vm.Counts()))|, base, m)
      ensures r.Grown? ==>
                Buffered(ra, to, n, file) && vm.current == old(vm.current) && vm.ram.dirs == old(vm.ram.dirs)
      ensures r.Grown? ==> FramesKept(old(ra.list), ra.list, old(Snap(vm)), Snap(vm), base, m)
      ensures r.Grown? ==> PagesKept(old(ra.list.holes), ra.list.holes, old(vm.view), vm.view, vm.ram.dirs, base, m)
    {
      hide Buffered, FramesKept, PagesKept, OldPages, Unfreeable, ra.Valid, SameFrames;
      BufferSizes(ra, to, n, file);
      UnfreeableIs(to, n);
      Untouching(ra.list, Snap(vm), vm.ram.dirs, base, m);
      if addr != 0 {
        if ra.ranges == 0 { return Stopped; }
        var ok := DropOld(to, n);
        if !ok { return NotFreed; }
      }
      r := Grown;
    }

    /** The old range touches no hole, and there is no frame for the header of a new one. */
    ghost predicate Unfreeable()
      reads this, ra, vm, vm.pa.refCounts
    {
      |FreeSet(vm.Counts())| == 0 && !Touches(ra.list.holes, Position(ra.list.holes, base), base, m)
    }

    lemma UnfreeableIs(to: int, n: nat)
      requires Buffered(ra, to, n, file) && ra.vm == vm
      ensures var free := |FreeSet(vm.Counts())|;
              LeaveOutcome(ra.list.holes, free, base, m)
              == if m == 0 then Grown else if ra.ranges == 0 then Stopped
                 else if Unfreeable() then NotFreed else Grown
    {
      ra.SomeHole();
    }

    method FreeOld(to: int, n: nat) returns (ok: bool)
      requires ra.vm == vm && Buffered(ra, to, n, file) && ra.ranges != 0 && addr == base * PAGE_SIZE
               && capacity == m * PAGE_SIZE && m > 0
      requires ra.lo <= base && base + m <= ra.hi && capacity <= WORD - PAGE_SIZE
      requires forall w :: InRun(w, base, m) ==>
                 !IsFree(ra.list.holes, w) && !InRun(w, to, n) && vm.view(vm.current, w).Unmapped?
      modifies ra`list, ra`ranges, vm`ram, vm`owners, vm`view, vm.pa, vm.pa.bitmap, vm.pa.refCounts
      ensures ok ==> Buffered(ra, to, n, file) && vm.current == old(vm.current) && vm.ram.dirs == old(vm.ram.dirs)
      ensures !ok <==> old(Unfreeable())
      ensures ok ==> FramesKept(old(ra.list), ra.list, old(Snap(vm)), Snap(vm), 0, 0)
      ensures ok ==> PagesKept(old(ra.list.holes), ra.list.holes, old(vm.view), vm.view, vm.ram.dirs, base, m)
    {
      hide ra.Valid, ra.Quiet, Placed, Shows, Held, BodyUnmapped, SoleHeads, IsFree, Canonical, Snapshot.SoleFrames,
           FramesKept, PagesKept, ArenaKept, Give, Position, RoundUp, OnlyFreePages, RangeStep, Touches, Elsewhere;
      ghost var list0, s0 := ra.list, Snap(vm);
      RoundUpIs(capacity, m);
      BufferFacts(ra, to, n, file);
      UnmappedElsewhere(s0, to, n, base, m);
      var r := ra.Free(addr, capacity, base, m);
      if !r.Freed? { return false; }
      Stepped(ra);
      FramesByRange(list0, ra.list, ra.lo, ra.hi, s0, Snap(vm));
      FramesWider(list0, ra.list, s0, Snap(vm), base, m);
      PagesByGive(list0.holes, ra.list.holes, ra.lo, ra.hi, s0.view, vm.view, vm.ram.dirs, vm.current, base, m);
      ArenaByPages(ra.lo, list0.holes, ra.list.holes, s0.view, vm.view, vm.ram.dirs, base, m);
      Undisturbed(list0, ra.list, ra.lo, ra.hi, s0, Snap(vm), vm.ram.dirs, base, m, to, n, file);
      ok := true;
    }

    /** range_allocator_alloc, for the new place. */
    method TakeRange(bytes: int, ghost n: nat) returns (r: AllocResult, ghost to: int)
      requires Valid() && ra.ranges != 0 && bytes == n * PAGE_SIZE && n > 0 && bytes <= WORD - PAGE_SIZE
      modifies ra`list, ra`ranges, vm`ram, vm`owners, vm`view, vm.pa, vm.pa.bitmap, vm.pa.refCounts
      ensures Valid() && vm.current == old(vm.current) && vm.ram.dirs == old(vm.ram.dirs) && vm.current in vm.ram.dirs
      ensures forall w :: InRun(w, base, m) ==> vm.view(vm.current, w) == old(vm.view)(vm.current, w)
      ensures FramesKept(old(ra.list), ra.list, old(Snap(vm)), Snap(vm), 0, 0)
      ensures PagesKept(old(ra.list.holes), ra.list.holes, old(vm.view), vm.view, vm.ram.dirs, 0, 0)
      ensures r.Address? ==>
                && r.addr == to * PAGE_SIZE && 0 < ra.lo <= to && to + n <= ra.hi
                && (forall w :: InRun(w, to, n) ==>
                      !IsFree(ra.list.holes, w) && vm.view(vm.current, w).Unmapped? && !InRun(w, base, m))
                && RunFree(old(ra.list).holes, to, n)
                && TakenFirst(old(ra.list.holes), ra.list.holes, to, n)
      ensures (r.Address? <==> Fits(old(ra.list.holes), n)) && (ra.ranges == 0 <==> ra.list.holes == [])
      ensures |FreeSet(vm.Counts())| == FreeAfterTake(old(ra.list.holes), n, |FreeSet(old(vm.Counts()))|)
    {
      hide ra.Valid, ra.Quiet, Placed, Shows, Held, BodyUnmapped, SoleHeads, IsFree, Canonical, Snapshot.SoleFrames,
           FramesKept, PagesKept, ArenaKept, Take, FirstFit, RoundUp, OnlyFreePages, RangeStep, Elsewhere, FreeSet,
           Fits,
           FreeAfterTake, RunFree;
      ghost var list0, s0 := ra.list, Snap(vm);
      to := 0;
      BufferFacts(ra, base, m, file);
      RoundUpIs(bytes, n);
      NowhereElse(s0, base, m);
      FitsIff(list0.holes, ra.lo, ra.hi, n, |FreeSet(s0.counts)|);
      r := ra.Alloc(bytes);
      Stepped(ra);
      ra.FramesConserved();
      FramesByRange(list0, ra.list, ra.lo, ra.hi, s0, Snap(vm));
      if r.Address? {
        ghost var k := FirstFit(list0.holes, n);
        to := list0.holes[k].page;
        PagesByTake(list0.holes, ra.list.holes, ra.lo, ra.hi, k, n, s0.view, vm.view, vm.ram.dirs, vm.current);
        TakenFirstFree(list0.holes, ra.list.holes, to, n);
        assert InRun(to, to, n) && InRun(to + n - 1, to, n);
      } else {
        PagesSame(list0.holes, s0.view, vm.ram.dirs, 0, 0);
      }
      ra.SomeHole();
      ArenaByPages(ra.lo, list0.holes, ra.list.holes, s0.view, vm.view, vm.ram.dirs, 0, 0);
      Undisturbed(list0, ra.list, ra.lo, ra.hi, s0, Snap(vm), vm.ram.dirs, 0, 0, base, m, file);
    }

    /** The new pages get their frames and their bytes. */
    method SetUpNew(to: int, n: nat) returns (rc: Status)
      requires Valid() && 0 < n && m <= n && ra.lo <= to && to + n <= ra.hi
      requires forall w :: InRun(w, to, n) ==>
                 !IsFree(ra.list.holes, w) && vm.view(vm.current, w).Unmapped? && !InRun(w, base, m)
      modifies vm`ram, vm`owners, vm`view, vm.pa, vm.pa.bitmap, vm.pa.refCounts
      ensures vm.current == old(vm.current) && vm.ram.dirs == old(vm.ram.dirs) && vm.current in vm.ram.dirs
      ensures rc.NoMemory? ==> Valid()
      ensures rc.Ok? ==> Buffered(ra, to, n, file) && SameFrames(old(vm.view), vm.view, vm.current, base, m, to)
      ensures rc.Ok? ==> OldPages(to, n) && (m > 0 ==> ra.lo <= base && base + m <= ra.hi)
      ensures RunOnly(old(vm.view), vm.view, vm.ram.dirs, to, n)
      ensures FramesKept(ra.list, ra.list, old(Snap(vm)), Snap(vm), base, m)
      ensures rc.Ok? ==> GrownFrom(ra.list, old(Snap(vm)), Snap(vm), base, m, to, n)
      ensures rc.Ok? ==> SameFrames(vm.view, vm.view, vm.current, base, m, to)
      ensures Afforded(old(vm.Counts()), vm.Counts(), n - m, rc.Ok?)
    {
      hide ra.Valid, Placed, Shows, Held, BodyUnmapped, SoleHeads, IsFree, Canonical, OnlyCarried, Charged,
           Snapshot.SoleFrames, FramesKept, SameFrames, Regrown, GrownFrom, RunOnly, OnRun, FreeSet, Flagged;
      ghost var s0, done := Snap(vm), 0;
      BufferFacts(ra, base, m, file);
      CopyFrames(to, n);
      ghost var s1 := Snap(vm);
      OffRun(s0.view, s1.view, vm.ram.dirs, to, m, vm.current, to + m, n - m);
      rc, done := AddFrames(to, n, s0);
      ghost var s2 := Snap(vm);
      RunsTogether(s0.view, s1.view, s2.view, vm.ram.dirs, to, m, n);
      OffRun(s0.view, s2.view, vm.ram.dirs, to, n, vm.current, base, m);
      HeadsOffRun(ra.list, s0.view, s2.view, vm.ram.dirs, to, n, vm.current);
      if rc.NoMemory? {
        FramesByGrow(ra.list, s0, s1, s2, s2, base, m, to, n, done);
        return;
      }
      OldStays(to, n);
      RegrownSpread(s0, s2, base, m, to, n);
      FillNew(to, n, s0);
      SameFramesAcross(vm.view, s0.view, vm.view, vm.view, vm.current, base, m, to);
      FramesByGrow(ra.list, s0, s1, s2, Snap(vm), base, m, to, n, done);
    }

    /** The second half of grow_buf, once the new range is taken: list0 and s0 are from before. */
    method MoveTo(address: int, newCapacity: int, to: int, n: nat, ghost list0: List, ghost s0: Snapshot)
      returns (r: GrowResult)
      requires Valid() && 0 < n && m <= n && address == to * PAGE_SIZE && newCapacity == n * PAGE_SIZE
      requires 0 < ra.lo <= to && to + n <= ra.hi && newCapacity <= WORD - PAGE_SIZE
      requires forall w :: InRun(w, to, n) ==>
                 !IsFree(ra.list.holes, w) && vm.view(vm.current, w).Unmapped? && !InRun(w, base, m)
      requires RunFree(list0.holes, to, n) && FramesKept(list0, ra.list, s0, Snap(vm), 0, 0) && s0.d == vm.current
      requires Spares(ra.lo, list0, ra.list, s0, Snap(vm), vm.ram.dirs, base, m, base, m)
      requires forall w :: InRun(w, base, m) ==> vm.view(vm.current, w) == s0.view(s0.d, w)
      modifies this`addr, this`capacity, this`base, this`m, ra`list, ra`ranges
      modifies vm`ram, vm`owners, vm`view, vm.pa, vm.pa.bitmap, vm.pa.refCounts
      ensures var free := |FreeSet(old(vm.Counts()))| - (n - old(m));
              r == if free < 0 then NoFrames else LeaveOutcome(old(ra.list.holes), free, old(base), old(m))
      ensures r.NoFrames? ==>
                Valid() && addr == old(addr) && capacity == old(capacity) && |FreeSet(vm.Counts())| == 0
      ensures r.Grown? ==>
                Valid() && capacity == newCapacity && SameFrames(s0.view, vm.view, vm.current, old(base), old(m), base)
      ensures !r.NotFreed? && !r.Stopped? ==>
                Spares(ra.lo, list0, ra.list, s0, Snap(vm), vm.ram.dirs, old(base), old(m), base, m)
    {
      hide Buffered, Unfreeable, SameFrames, FramesKept, PagesKept, GrownFrom, IsFree, RunOnly, Spares, RunFree,
           OldPages, ra.Valid, FreeSet, LeaveOutcome, Afforded, vm.Valid;
      ghost var list1, s1 := ra.list, Snap(vm);
      var rc := SetUpNew(to, n);
      ghost var s2 := Snap(vm);
      SparesSetUp(ra.lo, list0, list1, s0, s1, s2, vm.ram.dirs, base, m, to, n);
      AffordedIs(s1.counts, s2.counts, n - m, rc.Ok?);
      if rc.NoMemory? { return NoFrames; }
      r := LeaveOld(to, n);
      if !r.Grown? { return; }
      SparesEnd(ra.lo, list0, list1, ra.list, s0, s1, s2, Snap(vm), vm.ram.dirs, base, m, to, n);
      addr, capacity, base, m := address, newCapacity, to, n;
    }

    /** What grow_buf comes to. */
    ghost function Growing(requested: nat): GrowResult
      requires vm.Valid()
      reads this, ra, vm, vm.pa, vm.pa.bitmap, vm.pa.refCounts
    {
      GrowOutcome(ra.list.holes, |FreeSet(vm.Counts())|, base, m, NewCapacity(capacity, requested) / PAGE_SIZE)
    }

    /** grow_buf. The file stays the same and so does the frame of every page it had,
        which is what keeps earlier mappings of the buffer coherent; and no page or frame but
        its own is touched. What comes out is settled by the holes and the number of free frames
        before. Without the frames, the new range and all frames there were are lost. */
    method GrowBuf(requested: nat) returns (r: GrowResult)
      requires Valid() && NewCapacity(capacity, requested) <= WORD - PAGE_SIZE
      modifies this`addr, this`capacity, this`base, this`m, ra`list, ra`ranges
      modifies vm`ram, vm`owners, vm`view, vm.pa, vm.pa.bitmap, vm.pa.refCounts
      ensures r.NoAddress? || r.NoFrames? ==> Valid() && addr == old(addr) && capacity == old(capacity)
      ensures r.Grown? ==> Valid() && capacity == NewCapacity(old(capacity), requested)
      ensures r.Grown? ==> SameFrames(old(vm.view), vm.view, vm.current, old(base), old(m), base)
      ensures r == old(Growing(requested)) && (r.NoFrames? ==> |FreeSet(vm.Counts())| == 0)
      ensures !r.NotFreed? && !r.Stopped? ==>
                Spares(ra.lo, old(ra.list), ra.list, old(Snap(vm)), Snap(vm), vm.ram.dirs, old(base), old(m), base, m)
    {
      hide Buffered, Unfreeable, RoundUp, SameFrames, FramesKept, PagesKept, GrownFrom, IsFree, RunOnly, Spares,
           NewCapacity, RunFree, OldPages, ra.Valid, FreeSet, GrowOutcome, LeaveOutcome, Fits, FreeAfterTake, Take,
           FirstFit, Afforded,
           TakenFirst, vm.Valid, Growing;
      var newCapacity := NewCapacity(capacity, requested);
      var n := newCapacity / PAGE_SIZE;
      var address;
      ghost var list0, s0, to := ra.list, Snap(vm), 0;
      HoleThere(requested, n);
      if ra.ranges == 0 { return Stopped; }
      address, to := TakeRange(newCapacity, n);
      ghost var list1, s1 := ra.list, Snap(vm);
      SparesStart(ra.lo, list0, list1, s0, s1, vm.ram.dirs, base, m);
      GrowSteps(list0.holes, |FreeSet(s0.counts)|, base, m, n, list1.holes, to, |FreeSet(s1.counts)|);
      if !address.Address? { return NoAddress; }
      assert address.addr / PAGE_SIZE == to;
      r := MoveTo(address.addr, newCapacity, address.addr / PAGE_SIZE, n, list0, s0);
    }

    lemma HoleThere(requested: nat, n: int)
      requires Valid() && n == NewCapacity(capacity, requested) / PAGE_SIZE > 0
      ensures (ra.ranges == 0 <==> ra.list.holes == []) && (addr == 0 <==> m == 0) && vm.current in vm.ram.dirs
      ensures Growing(requested) == GrowOutcome(ra.list.holes, |FreeSet(vm.Counts())|, base, m, n)
      ensures ra.ranges == 0 ==> Growing(requested).Stopped?
    {
      ra.SomeHole();
    }

    /** Bytes written through the kernel mapping, inside the capacity. */
    method Store(off: nat, bytes: seq<Byte>, ghost now: seq<Byte>)
      requires Valid() && off + |bytes| <= capacity && |now| <= capacity
      requires forall i :: 0 <= i < capacity ==>
                 FileByte(now, i) == if off <= i < off + |bytes| then bytes[i - off] as int else FileByte(file, i)
      modifies vm`ram
      ensures Buffered(ra, base, m, now)
      ensures vm.ram == old(vm.ram).(pages := vm.ram.pages)
      ensures OnRun(old(vm.ram.pages), vm.ram.pages, vm.view, vm.current, base, m)
    {
      hide Spread, Canonical, Painted, IsFree, Held, Shows, OnRun, BodyUnmapped, ra.Valid, Snapshot.SoleFrames;
      ghost var s0 := Snap(vm);
      BufferFacts(ra, base, m, file);
      OnRunSame(s0.pages, vm.view, vm.current, base, m);
      ShowsSpread(s0, base, m, file);
      Memcpy(vm, addr + off, bytes, base, m);
      ShowsPainted(s0, Snap(vm), base, m, file, off, bytes, now);
      PaintedOnRun(s0.pages, s0.pages, vm.ram.pages, vm.view, vm.current, base, m, addr + off, bytes);
      HeadsStayWritten(ra.list, s0, Snap(vm), base, m);
      ra.Remains();
    }

    /** growable_buf_pwrite: the file with the bytes written over it, wherever the offset is. */
    method Pwrite(bytes: seq<Byte>, offset: nat) returns (r: WriteResult)
      requires Valid() && offset + |bytes| < WORD
      requires offset + |bytes| > capacity ==> NewCapacity(capacity, offset + |bytes|) <= WORD - PAGE_SIZE
      modifies this, ra`list, ra`ranges, vm`ram, vm`owners, vm`view, vm.pa, vm.pa.bitmap, vm.pa.refCounts
      ensures r.Done? ==> Valid() && file == Overwrite(old(file), offset, bytes) && r.count == |bytes|
      ensures r.Done? ==> SameFrames(old(vm.view), vm.view, vm.current, old(base), old(m), base)
      ensures r.NotDone? && !r.why.NotFreed? && !r.why.Stopped? ==> Valid() && file == old(file)
      ensures r.Done? <==> offset + |bytes| <= old(capacity) || old(Growing(offset + |bytes|)).Grown?
      ensures r.NotDone? ==> r.why == old(Growing(offset + |bytes|))
      ensures (r.NotDone? && (r.why.NotFreed? || r.why.Stopped?))
              || Spares(ra.lo, old(ra.list), ra.list, old(Snap(vm)), Snap(vm), vm.ram.dirs, old(base), old(m), base, m)
    {
      hide Buffered, GrowOutcome, FreeSet, SameFrames, Spares, OnRun, Overwrite, NewCapacity, ra.Valid;
      ghost var list0, s0, b0, m0 := ra.list, Snap(vm), base, m;
      var end := offset + |bytes|;
      Sized();
      SparesNothing(ra.lo, ra.list, s0, vm.ram.dirs, base, m);
      if end > capacity {
        var g := GrowBuf(end);
        if !g.Grown? { return NotDone(g); }
        Sized();
      }
      ghost var s1 := Snap(vm);
      Written(file, offset, bytes);
      Store(offset, bytes, Overwrite(file, offset, bytes));
      SparesStored(ra.lo, list0, ra.list, s0, s1, Snap(vm), vm.ram.dirs, b0, m0, base, m);
      file := Overwrite(file, offset, bytes);
      if size < end { size := end; }
      r := Done(|bytes|);
    }

    lemma Sized()
      requires Valid()
      ensures |file| <= capacity && Regular(Snap(vm), base, m) && vm.current in vm.ram.dirs
      ensures |vm.ram.pages| == |vm.Counts()|
    {
    }

    /** growable_buf_truncate: the file cut, or extended with zeros. */
    method Truncate(length: nat) returns (r: GrowResult)
      requires Valid() && length < WORD && (length > capacity ==> NewCapacity(capacity, length) <= WORD - PAGE_SIZE)
      modifies this, ra`list, ra`ranges, vm`ram, vm`owners, vm`view, vm.pa, vm.pa.bitmap, vm.pa.refCounts
      ensures r.Grown? ==> Valid() && file == Resize(old(file), length)
      ensures r.Grown? ==> SameFrames(old(vm.view), vm.view, vm.current, old(base), old(m), base)
      ensures r.NoAddress? || r.NoFrames? ==> Valid() && file == old(file)
      ensures r == if length <= old(capacity) then Grown else old(Growing(length))
      ensures !r.NotFreed? && !r.Stopped? ==>
                Spares(ra.lo, old(ra.list), ra.list, old(Snap(vm)), Snap(vm), vm.ram.dirs, old(base), old(m), base, m)
    {
      hide Buffered, GrowOutcome, FreeSet, SameFrames, Spares, OnRun, Resize, Zeros, NewCapacity, ra.Valid;
      ghost var s0 := Snap(vm);
      Sized();
      SparesNothing(ra.lo, ra.list, s0, vm.ram.dirs, base, m);
      ZerosAre(Max(size - length, length - size));
      Resized(file, length);
      if length <= size {
        Store(length, Zeros(size - length), Resize(file, length));
        SparesStored(ra.lo, ra.list, ra.list, s0, s0, Snap(vm), vm.ram.dirs, base, m, base, m);
      } else if length <= capacity {
        Store(size, Zeros(length - size), Resize(file, length));
        SparesStored(ra.lo, ra.list, ra.list, s0, s0, Snap(vm), vm.ram.dirs, base, m, base, m);
      } else {
        r := GrowBuf(length);
        if !r.Grown? { return; }
        BufferLonger(ra, base, m, file, Resize(file, length));
      }
      file := Resize(file, length);
      size := length;
      r := Grown;
    }

    /** Nothing was done with this buffer. */
    twostate predicate Idle()
      reads this
    {
      && addr == old(addr) && capacity == old(capacity) && size == old(size)
      && file == old(file) && base == old(base) && m == old(m)
    }

    /** Another buffer on the same allocator, with no page and no frame in common, holds its
        file after anything that this one has done, and has nothing in common with it still. */
    twostate lemma Bystander(other: GrowableBuf)
      requires old(other.Valid()) && Valid() && other.Idle() && other.ra == ra
      requires Intact(old(ra.list), ra.lo, ra.hi, old(Snap(vm)), other.base, other.m, other.file)
      requires NothingShared(old(Snap(vm)), old(base), old(m), other.base, other.m)
      requires Spares(ra.lo, old(ra.list), ra.list, old(Snap(vm)), Snap(vm), vm.ram.dirs, old(base), old(m), base, m)
      ensures other.Valid() && NothingShared(Snap(vm), base, m, other.base, other.m)
    {
      hide Intact, NothingShared, Spares, Shows, Placed, ra.Valid;
      BufferFacts(ra, base, m, file);
      OtherSpared(old(ra.list), ra.list, ra.lo, ra.hi, old(Snap(vm)), Snap(vm), vm.ram.dirs, old(base), old(m), base, m,
                  other.base, other.m, other.file);
    }

    /** The fields of a buffer agree with each other. */
    ghost predicate InStep()
      reads this
    {
      addr == base * PAGE_SIZE && capacity == m * PAGE_SIZE && size == |file| && (m == 0 <==> addr == 0)
    }

    /** So does this one after the heap has allocated or freed pages [page, page+n); list0 and s0
        are the holes and the memory before. */
    lemma BesideHeap(list0: List, s0: Snapshot, page: int, n: nat)
      requires InStep() && ra.vm == vm && ra.Valid() && ra.lo >= KERNEL_VPAGE
      requires Intact(list0, ra.lo, ra.hi, s0, base, m, file) && Elsewhere(s0, base, m, page, n)
      requires FramesKept(list0, ra.list, s0, Snap(vm), page, n) && vm.current == s0.d && vm.current in vm.ram.dirs
      requires PagesKept(list0.holes, ra.list.holes, s0.view, vm.view, vm.ram.dirs, page, n)
      requires SoleHeads(ra.list.heads, vm.view, vm.current, vm.Counts())
      ensures Valid()
    {
      hide Shows, Placed, ra.Valid, FramesKept, PagesKept, ArenaKept, Elsewhere, SoleHeads, Snapshot.SoleFrames;
      ArenaByPages(ra.lo, list0.holes, ra.list.holes, s0.view, vm.view, vm.ram.dirs, page, n);
      Undisturbed(list0, ra.list, ra.lo, ra.hi, s0, Snap(vm), vm.ram.dirs, page, n, base, m, file);
    }

    /** growable_buf_mmap: pages v on get the frames of the buffer. */
    method Mmap(v: int, length: nat, offset: nat, flags: nat) returns (r: MapResult, ghost done: nat)
      requires Valid() && 0 <= v && v + PagesFor(length) <= VPAGES && v + PagesFor(length) <= ra.lo
      requires forall w :: InRun(w, v, PagesFor(length)) ==> vm.view(vm.current, w).Unmapped?
      modifies vm`ram, vm`owners, vm`view, vm.pa, vm.pa.bitmap, vm.pa.refCounts
      ensures Valid() && vm.current == old(vm.current) && vm.ram.dirs == old(vm.ram.dirs)
      ensures r.NotSupported? <==> offset != 0 || !IsShared(flags)
      ensures !r.NotSupported? ==> (r.BadLength? <==> length > |file|)
      ensures r.Shared? ==> r.addr == v * PAGE_SIZE && done == PagesFor(length)
      ensures !r.NotSupported? && !r.BadLength? ==>
                (r.Shared? <==>
                  |FreeSet(old(vm.Counts()))| >= |Missing(old(vm.ram.pdes), vm.current, v, PagesFor(length))|)
      ensures MappedAs(old(vm.view), vm.view, vm.current, base, done, v, flags) && done <= PagesFor(length)
      ensures SameFrames(vm.view, vm.view, vm.current, base, done, v)
      ensures RunOnly(old(vm.view), vm.view, vm.ram.dirs, v, done)
      ensures r.Shared? ==>
                vm.ram.pdes.Keys
                == old(vm.ram.pdes).Keys + Missing(old(vm.ram.pdes), vm.current, v, PagesFor(length))
                && |FreeSet(vm.Counts())|
                   == |FreeSet(old(vm.Counts()))|
                      - |Missing(old(vm.ram.pdes), vm.current, v, PagesFor(length))|
      ensures Spares(ra.lo, ra.list, ra.list, old(Snap(vm)), Snap(vm), vm.ram.dirs, base, m, base, m)
    {
      hide ra.Valid, Placed, Shows, Held, BodyUnmapped, SoleHeads, IsFree, Canonical, OnlyCarried, Snapshot.SoleFrames,
           Grows, AddsTables, FramesKept, RunOnly, PagesKept, SameFrames, MappedAs, Spares, SameOutside, CopiedRange,
           Missing, FreeSet, PagesFor;
      var n := PagesFor(length);
      ghost var s0 := Snap(vm);
      BufferFacts(ra, base, m, file);
      BelowRange(ra.list.holes, ra.lo, ra.hi, v, n, base, m);
      RunMore(s0, s0, vm.ram.dirs, v, 0, 0);
      NonePaired(s0.view, s0.d, base, v, flags);
      SparesNothing(ra.lo, ra.list, s0, vm.ram.dirs, base, m);
      if offset != 0 || !IsShared(flags) { return NotSupported, 0; }
      if length > size { return BadLength, 0; }
      WithinBuffer(s0, base, m, file, length, n);
      assert addr / PAGE_SIZE == base;
      forall w | base <= w < base + n ensures vm.view(vm.current, w).Mapped? { assert InRun(w, base, m); }
      forall w | v <= w < v + n ensures vm.view(vm.current, w).Unmapped? { assert InRun(w, v, n); }
      var rc;
      rc, done := vm.CopyMapping(v, addr / PAGE_SIZE, n, flags);
      ghost var s := Snap(vm);
      RunMore(s0, s, vm.ram.dirs, v, done, n);
      CarriedMore(s0, s, base, n, m);
      MappedAside(ra.list, ra.lo, ra.hi, s0, s, vm.ram.dirs, base, m, v, n, base, m, file);
      ra.Remains();
      HeadsOffRun(ra.list, s0.view, s.view, vm.ram.dirs, v, n, vm.current);
      FramesByCarried(ra.list, s0, s, base, m);
      SparesMapped(ra.lo, ra.list, s0, s, vm.ram.dirs, base, m, v, done);
      MappedFrames(s0, s, vm.ram.dirs, base, done, m, v, flags);
      r := if rc.NoMemory? then NoTable else Shared(v * PAGE_SIZE);
    }

    /** A step of paging that keeps the kernel half keeps the file. */
    twostate lemma Survives()
      requires old(Valid()) && vm.Valid() && ra.list == old(ra.list) && ra.ranges == old(ra.ranges) && InStep()
      requires vm.current == old(vm.current) && base == old(base) && m == old(m) && file == old(file)
      requires KernelKept(old(vm.view), old(vm.current), old(vm.Counts()), old(vm.ram.pages),
                          vm.view, vm.current, vm.Counts(), vm.ram.pages)
      ensures Valid()
    {
      hide Shows, KernelKept, Snapshot.SoleFrames;
      ra.Survives();
      OldHeads(ra);
      forall w | w in ra.list.heads ensures w >= ra.lo { HeadFree(ra.list.holes, ra.lo, ra.hi, w); }
      BufferOn(old(Snap(vm)), base, m, file);
      forall w | InRun(w, base, m) ensures InUse(old(vm.Counts()), old(Snap(vm)).Frame(w)) {
        MappedUsed(old(vm.view), old(vm.ram), old(vm.Counts()), old(vm.current), w);
      }
      FileStays(ra.list, ra.lo, ra.hi, old(Snap(vm)), Snap(vm), base, m, file);
    }

    /** The file mapped at page v, and then a fork: parent and child see the frames of the buffer,
        page by page and with the flags that were asked for, so that whatever one of them writes
        there is what the other and the file have. Each page table that the mapping needs takes
        two frames, one for the parent and one for the child; the pages take none. */
    method MmapThenFork(v: int, length: nat, flags: nat) returns (r: MapResult, child: int, ok: bool)
      requires Valid() && 0 <= v && v + PagesFor(length) <= VPAGES && v + PagesFor(length) <= ra.lo
      requires forall w :: InRun(w, v, PagesFor(length)) ==> vm.view(vm.current, w).Unmapped?
      requires IsShared(flags) && length <= |file|
      modifies vm`ram, vm`owners, vm`view, vm`nextDirectory, vm`leaked, vm.pa, vm.pa.bitmap, vm.pa.refCounts
      ensures Valid() && vm.current == old(vm.current)
      ensures ok ==> r.Shared? && child !in old(vm.ram.dirs) && vm.ram.dirs == old(vm.ram.dirs) + {child}
      ensures ok <==>
                |FreeSet(old(vm.Counts()))|
                >= 2 * |Missing(old(vm.ram.pdes), vm.current, v, PagesFor(length))| + old(vm.ForkCost())
      ensures ok ==> MappedAs(vm.view, vm.view, vm.current, base, PagesFor(length), v, flags)
                     && forall w :: InRun(w, v, PagesFor(length)) ==> vm.view(child, w) == vm.view(vm.current, w)
    {
      hide ra.Valid, Placed, Shows, Missing, FreeSet, PagesFor, Spares, SameFrames, RunOnly, KernelKept, Grows,
           Untouched, OutsideTables, UserTables, Afforded, vm.Valid, ForkFrames, ForkedPage, MappedAs,
           Snapshot.SoleFrames, Held, Canonical,
           BodyUnmapped;
      ghost var n, done, ram0, view0 := PagesFor(length), 0, vm.ram, vm.view;
      BufferFacts(ra, base, m, file);
      vm.IsTabled();
      r, done := Mmap(v, length, 0, flags);
      child, ok := -1, false;
      if !r.Shared? { return; }
      ghost var s1, cost := Snap(vm), vm.ForkCost();
      BufferFacts(ra, base, m, file);
      SeenShared(view0, vm.view, vm.ram.dirs, vm.current, base, v, n, flags);
      vm.CostOfShared(ram0, view0, v, n);
      label Mapped:
      child, ok := vm.CloneInto();
      Survives@Mapped();
      if ok {
        AllSeeIt(view0, s1.view, vm.view, vm.current, child, base, v, n, flags, vm.ram.ptes, s1.counts, s1.pages,
                 vm.ram.pages);
      }
      AffordedIs(s1.counts, vm.Counts(), cost, ok);
    }
  }
}
