/** The linked list behind the holes of kernel/memory/range_allocator.c: the first
    page of every hole holds the hole's size and the address of the next one.
    Here the headers are a map from page to header; sizes and addresses in the
    headers are in bytes, as the source stores them. */
module HoleList {
  import opened Frames
  import opened Tables
  import opened Words
  import opened Cloning
  import opened Holes

  /** struct range: size in bytes, address of the next header or 0. */
  datatype Header = Header(size: int, next: int)

  function HeaderOf(p: Page): Header {
    Header(Load32(p, 0), Load32(p, 4))
  }

  /** The pages in `heads` are mapped by directory d to be written, on frames of their own, and
      hold these headers. */
  ghost predicate Held(heads: map<int, Header>, view: (int, int) -> Mapping, d: int, pages: seq<Page>) {
    && (forall w :: w in heads ==>
          view(d, w).Mapped? && view(d, w).entry.frame < |pages| && HeaderOf(pages[view(d, w).entry.frame]) == heads[w]
          && view(d, w).entry.flags == PAGE_WRITE)
    && Apart(heads, view, d)
  }

  /** No two of the pages are on the same frame. */
  ghost predicate Apart(heads: map<int, Header>, view: (int, int) -> Mapping, d: int) {
    forall w, x :: w in heads && x in heads && w != x && view(d, w).Mapped? && view(d, x).Mapped? ==>
      view(d, w).entry.frame != view(d, x).entry.frame
  }

  lemma HeldStays(heads: map<int, Header>, was: (int, int) -> Mapping, now: (int, int) -> Mapping, d: int,
                  pages0: seq<Page>, pages: seq<Page>)
    requires Held(heads, was, d, pages0) && |pages| == |pages0|
    requires forall w :: w in heads ==> now(d, w) == was(d, w)
                                        && pages[was(d, w).entry.frame] == pages0[was(d, w).entry.frame]
    ensures Held(heads, now, d, pages)
  {
  }

  /** A header moved to page `to`, which has got the frame of page `from`. */
  lemma HeldMoved(heads: map<int, Header>, was: (int, int) -> Mapping, now: (int, int) -> Mapping, d: int,
                  pages: seq<Page>, to: int, from: int)
    requires Held(heads, was, d, pages) && from in heads && to !in heads
    requires forall w :: w in heads ==> now(d, w) == was(d, w)
    requires now(d, to) == Mapped(Entry(was(d, from).entry.frame, PAGE_WRITE))
    ensures Held((heads - {from})[to := heads[from]], now, d, pages)
  {
  }

  /** A header less. */
  lemma HeldLess(heads: map<int, Header>, view: (int, int) -> Mapping, d: int, pages: seq<Page>, w: int)
    requires Held(heads, view, d, pages)
    ensures Held(heads - {w}, view, d, pages)
  {
  }

  /** One more header, on a frame that no other header is on. */
  lemma HeldNew(heads: map<int, Header>, was: (int, int) -> Mapping, now: (int, int) -> Mapping, d: int,
                pages: seq<Page>, w: int)
    requires Held(heads, was, d, pages) && w !in heads
    requires forall x :: x in heads ==> now(d, x) == was(d, x)
    requires now(d, w).Mapped? && now(d, w).entry.frame < |pages| && now(d, w).entry.flags == PAGE_WRITE
    requires forall x :: x in heads ==> was(d, x).entry.frame != now(d, w).entry.frame
    ensures Held(heads[w := HeaderOf(pages[now(d, w).entry.frame])], now, d, pages)
  {
  }

  /** The address that the list continues with at index k: 0 at its end. */
  function Ptr(holes: seq<Hole>, k: nat): int {
    if k < |holes| then holes[k].page * PAGE_SIZE else 0
  }

  ghost predicate IsHead(holes: seq<Hole>, w: int) {
    exists k :: 0 <= k < |holes| && holes[k].page == w
  }

  /** The header of hole k tells its size and where the next hole is. */
  ghost predicate LinkedAt(heads: map<int, Header>, holes: seq<Hole>, k: nat) {
    k < |holes| ==>
      holes[k].page in heads && heads[holes[k].page] == Header(holes[k].size * PAGE_SIZE, Ptr(holes, k + 1))
  }

  /** The headers, followed from address `first`, are the list of holes. */
  ghost predicate Linked(heads: map<int, Header>, first: int, holes: seq<Hole>) {
    && first == Ptr(holes, 0)
    && (forall k: nat :: LinkedAt(heads, holes, k))
    && (forall w :: w in heads ==> IsHead(holes, w))
  }

  ghost predicate Distinct(holes: seq<Hole>) {
    forall j, k :: 0 <= j < k < |holes| ==> holes[j].page != holes[k].page
  }

  /** As many headers as holes. */
  lemma HeadersSize(heads: map<int, Header>, first: int, holes: seq<Hole>)
    requires Linked(heads, first, holes) && Distinct(holes)
    ensures |heads| == |holes|
  {
    forall w ensures w in heads.Keys <==> w in Pages(holes) {
      if IsHead(holes, w) {
        var k :| 0 <= k < |holes| && holes[k].page == w;
        assert LinkedAt(heads, holes, k);
      }
    }
    assert heads.Keys == Pages(holes);
    PagesSize(holes);
  }

  ghost function Pages(holes: seq<Hole>): set<int> {
    set k | 0 <= k < |holes| :: holes[k].page
  }

  lemma {:induction false} PagesSize(holes: seq<Hole>)
    requires Distinct(holes)
    ensures |Pages(holes)| == |holes|
    decreases |holes|
  {
    if holes != [] {
      var n := |holes| - 1;
      PagesSize(holes[..n]);
      assert forall k :: 0 <= k < n ==> holes[..n][k] == holes[k];
      assert Pages(holes) == Pages(holes[..n]) + {holes[n].page};
    }
  }

  function WithSize(heads: map<int, Header>, w: int, x: int): map<int, Header>
    requires w in heads
  {
    heads[w := Header(x, heads[w].next)]
  }

  function WithNext(heads: map<int, Header>, w: int, x: int): map<int, Header>
    requires w in heads
  {
    heads[w := Header(heads[w].size, x)]
  }

  lemma NewContents(heads: map<int, Header>, w: int, h: Header, size: int, next: int)
    ensures WithNext(WithSize(heads[w := h], w, size), w, next) == heads[w := Header(size, next)]
  {
  }

  /** The header of page `from` moved to page `to`, its size changed by delta. */
  function Moved(heads: map<int, Header>, to: int, from: int, delta: int): map<int, Header>
    requires from in heads
  {
    (heads - {from})[to := Header(heads[from].size + delta, heads[from].next)]
  }

  lemma MovedSize(heads: map<int, Header>, to: int, from: int, delta: int)
    requires from in heads
    ensures WithSize((heads - {from})[to := heads[from]], to, heads[from].size + delta) == Moved(heads, to, from, delta)
  {
  }

  /** `heads` and `first` after the header before index k is made to point to `to`. */
  function Relinked(heads: map<int, Header>, holes: seq<Hole>, k: nat, to: int): map<int, Header>
    requires 0 < k <= |holes| ==> holes[k - 1].page in heads
  {
    if 0 < k <= |holes| then WithNext(heads, holes[k - 1].page, to) else heads
  }

  /** Unlinking hole k: its predecessor takes over its successor. */
  lemma Unlink(heads: map<int, Header>, first: int, holes: seq<Hole>, k: nat)
    requires Linked(heads, first, holes) && Distinct(holes) && k < |holes|
    requires holes[k].page in heads && (k > 0 ==> holes[k - 1].page in heads)
    ensures var to := heads[holes[k].page].next;
            Linked(Relinked(heads, holes, k, to) - {holes[k].page}, if k == 0 then to else first,
                   holes[..k] + holes[k + 1..])
  {
    var after := holes[..k] + holes[k + 1..];
    var heads' := Relinked(heads, holes, k, heads[holes[k].page].next) - {holes[k].page};
    forall w | w in heads' ensures IsHead(after, w) { UnlinkHead(heads, first, holes, k, w); }
    forall j: nat ensures LinkedAt(heads', after, j) { UnlinkAt(heads, first, holes, k, j); }
    PtrCut(holes, k, 0);
    assert LinkedAt(heads, holes, k);
  }

  lemma UnlinkHead(heads: map<int, Header>, first: int, holes: seq<Hole>, k: nat, w: int)
    requires Linked(heads, first, holes) && k < |holes| && w in heads && w != holes[k].page
    ensures IsHead(holes[..k] + holes[k + 1..], w)
  {
    var j :| 0 <= j < |holes| && holes[j].page == w;
    assert (holes[..k] + holes[k + 1..])[if j < k then j else j - 1].page == w;
  }

  lemma UnlinkAt(heads: map<int, Header>, first: int, holes: seq<Hole>, k: nat, j: nat)
    requires Linked(heads, first, holes) && Distinct(holes) && k < |holes|
    requires holes[k].page in heads && (k > 0 ==> holes[k - 1].page in heads)
    ensures LinkedAt(Relinked(heads, holes, k, heads[holes[k].page].next) - {holes[k].page},
                     holes[..k] + holes[k + 1..], j)
  {
    var after := holes[..k] + holes[k + 1..];
    if j < |after| {
      PtrCut(holes, k, j);
      PtrCut(holes, k, j + 1);
      var i := if j < k then j else j + 1;
      assert holes[i].page != holes[k].page;
      assert LinkedAt(heads, holes, i) && LinkedAt(heads, holes, k) && (k > 0 ==> LinkedAt(heads, holes, k - 1));
      if 0 < k && i != k - 1 { assert holes[i].page != holes[k - 1].page; }
    }
  }

  lemma PtrCut(holes: seq<Hole>, k: nat, j: nat)
    requires k < |holes|
    ensures var after := holes[..k] + holes[k + 1..];
            && Ptr(after, j) == Ptr(holes, if j < k then j else j + 1)
            && (j < |after| ==> after[j] == holes[if j < k then j else j + 1])
  {
  }

  lemma PtrInsert(holes: seq<Hole>, k: nat, h: Hole, j: nat)
    requires k <= |holes|
    ensures var after := holes[..k] + [h] + holes[k..];
            && Ptr(after, j)
               == (if j < k then Ptr(holes, j) else if j == k then h.page * PAGE_SIZE else Ptr(holes, j - 1))
            && (j < |after| ==> after[j] == if j < k then holes[j] else if j == k then h else holes[j - 1])
  {
  }

  /** Hole k becomes h, whose header has moved from its old page. */
  lemma Replace(heads: map<int, Header>, first: int, holes: seq<Hole>, k: nat, h: Hole, to: int, from: int,
                delta: int, addr: int)
    requires Linked(heads, first, holes) && Distinct(holes) && k < |holes| && Distinct(holes[k := h])
    requires holes[k].page in heads && (k > 0 ==> holes[k - 1].page in heads && holes[k - 1].page != holes[k].page)
    requires to == h.page && from == holes[k].page && delta == (h.size - holes[k].size) * PAGE_SIZE
    requires addr == to * PAGE_SIZE
    ensures Linked(Relinked(Moved(heads, to, from, delta), holes, k, addr), if k == 0 then addr else first,
                   holes[k := h])
  {
    var after := holes[k := h];
    var heads' := Relinked(Moved(heads, h.page, holes[k].page, delta), holes, k, h.page * PAGE_SIZE);
    forall w | w in heads' ensures IsHead(after, w) {
      if w == h.page {
        assert after[k].page == w;
      } else {
        var j :| 0 <= j < |holes| && holes[j].page == w;
        assert after[j].page == w;
      }
    }
    forall j: nat ensures LinkedAt(heads', after, j) { ReplaceAt(heads, first, holes, k, h, delta, j); }
  }

  lemma ReplaceAt(heads: map<int, Header>, first: int, holes: seq<Hole>, k: nat, h: Hole, delta: int, j: nat)
    requires Linked(heads, first, holes) && Distinct(holes) && k < |holes| && Distinct(holes[k := h])
    requires holes[k].page in heads && (k > 0 ==> holes[k - 1].page in heads && holes[k - 1].page != holes[k].page)
    requires delta == (h.size - holes[k].size) * PAGE_SIZE
    ensures LinkedAt(Relinked(Moved(heads, h.page, holes[k].page, delta), holes, k, h.page * PAGE_SIZE), holes[k := h],
                     j)
  {
    var after := holes[k := h];
    if j < |after| {
      assert Ptr(after, j + 1) == if j + 1 == k then h.page * PAGE_SIZE else Ptr(holes, j + 1);
      assert LinkedAt(heads, holes, j) && LinkedAt(heads, holes, k);
      if j != k {
        assert after[j] == holes[j] && after[j].page != after[k].page && holes[j].page != holes[k].page;
        if 0 < k && j != k - 1 { assert holes[j].page != holes[k - 1].page; }
      } else {
        assert k > 0 ==> after[k - 1] == holes[k - 1] && after[k - 1].page != after[k].page;
      }
    }
  }

  /** A new hole h before index k. */
  lemma Insert(heads: map<int, Header>, first: int, holes: seq<Hole>, k: nat, h: Hole)
    requires Linked(heads, first, holes) && Distinct(holes) && k <= |holes| && h.page !in heads
    requires k > 0 ==> holes[k - 1].page in heads
    ensures var to := h.page * PAGE_SIZE;
            Linked(Relinked(heads[h.page := Header(h.size * PAGE_SIZE, Ptr(holes, k))], holes, k, to),
                   if k == 0 then to else first, holes[..k] + [h] + holes[k..])
  {
    var after := holes[..k] + [h] + holes[k..];
    var heads' := Relinked(heads[h.page := Header(h.size * PAGE_SIZE, Ptr(holes, k))], holes, k, h.page * PAGE_SIZE);
    forall w | w in heads' ensures IsHead(after, w) { InsertHead(heads, first, holes, k, h, w); }
    forall j: nat ensures LinkedAt(heads', after, j) { InsertAt(heads, first, holes, k, h, j); }
    PtrInsert(holes, k, h, 0);
  }

  lemma InsertHead(heads: map<int, Header>, first: int, holes: seq<Hole>, k: nat, h: Hole, w: int)
    requires Linked(heads, first, holes) && k <= |holes| && (w in heads || w == h.page)
    ensures IsHead(holes[..k] + [h] + holes[k..], w)
  {
    var after := holes[..k] + [h] + holes[k..];
    if w == h.page {
      assert after[k].page == w;
    } else {
      var j :| 0 <= j < |holes| && holes[j].page == w;
      assert after[if j < k then j else j + 1].page == w;
    }
  }

  lemma InsertAt(heads: map<int, Header>, first: int, holes: seq<Hole>, k: nat, h: Hole, j: nat)
    requires Linked(heads, first, holes) && Distinct(holes) && k <= |holes| && h.page !in heads
    requires k > 0 ==> holes[k - 1].page in heads
    ensures LinkedAt(Relinked(heads[h.page := Header(h.size * PAGE_SIZE, Ptr(holes, k))], holes, k, h.page * PAGE_SIZE),
                     holes[..k] + [h] + holes[k..], j)
  {
    var after := holes[..k] + [h] + holes[k..];
    if j < |after| {
      PtrInsert(holes, k, h, j);
      PtrInsert(holes, k, h, j + 1);
      if j != k {
        var i := if j < k then j else j - 1;
        assert LinkedAt(heads, holes, i) && LinkedAt(heads, holes, k) && (k > 0 ==> LinkedAt(heads, holes, k - 1));
        if 0 < k && i != k - 1 { assert holes[i].page != holes[k - 1].page; }
      }
    }
  }

  lemma CanonicalDistinct(holes: seq<Hole>, lo: int, hi: int)
    requires Canonical(holes, lo, hi)
    ensures Distinct(holes)
  {
  }

  /** The abstract state: the headers by page, and the list they form. */
  datatype List = List(heads: map<int, Header>, holes: seq<Hole>)

  /** The pages of a hole, but for its first one, are not mapped. */
  ghost predicate BodyUnmapped(list: List, view: (int, int) -> Mapping, d: int) {
    forall w :: IsFree(list.holes, w) && w !in list.heads ==> view(d, w).Unmapped?
  }

  lemma HeadStarts(holes: seq<Hole>, lo: int, hi: int, k: nat, w: int)
    requires Canonical(holes, lo, hi) && k < |holes| && InHole(holes[k], w) && IsHead(holes, w)
    ensures w == holes[k].page
  {
    var j :| 0 <= j < |holes| && holes[j].page == w;
    assert InHole(holes[j], w);
  }

  /** Every hole has a first page other than page 0, and a size that fits a word. */
  ghost predicate Bounded(holes: seq<Hole>) {
    forall k :: 0 <= k < |holes| ==> 0 < holes[k].page && 0 < holes[k].size && holes[k].End() <= VPAGES
  }

  /** Hole k becomes longer in place. */
  lemma Grow(heads: map<int, Header>, first: int, holes: seq<Hole>, k: nat, h: Hole, page: int, bytes: int)
    requires Linked(heads, first, holes) && Distinct(holes) && k < |holes| && holes[k].page in heads
    requires Bounded(holes) && h.size > 0 && h.End() <= VPAGES
    requires page == h.page == holes[k].page && bytes == h.size * PAGE_SIZE
    ensures Linked(WithSize(heads, page, bytes), first, holes[k := h])
    ensures Distinct(holes[k := h]) && Bounded(holes[k := h])
  {
    var after, heads' := holes[k := h], WithSize(heads, page, bytes);
    forall j | 0 <= j < |holes| ensures after[j].page == holes[j].page { }
    forall w | w in heads' ensures IsHead(after, w) {
      var j :| 0 <= j < |holes| && holes[j].page == w;
      assert after[j].page == w;
    }
    forall j: nat ensures LinkedAt(heads', after, j) {
      assert LinkedAt(heads, holes, j) && LinkedAt(heads, holes, k);
      assert Ptr(after, j + 1) == Ptr(holes, j + 1);
    }
  }

  lemma DistinctCut(holes: seq<Hole>, k: nat)
    requires Distinct(holes) && k < |holes|
    ensures Distinct(holes[..k] + holes[k + 1..])
  {
  }

  lemma BoundedCut(holes: seq<Hole>, k: nat)
    requires Bounded(holes) && k < |holes|
    ensures Bounded(holes[..k] + holes[k + 1..])
  {
  }

  // ----- the effect on the rest of the system -----

  ghost predicate HeadFrame(heads: map<int, Header>, view: (int, int) -> Mapping, d: int, f: int) {
    exists w :: w in heads && view(d, w).Mapped? && view(d, w).entry.frame == f
  }

  /** Bytes change only in frames that carry headers or were free. */
  ghost predicate HeaderBytes(heads: map<int, Header>, view: (int, int) -> Mapping, d: int, counts: seq<RefCount>,
                              pages0: seq<Page>, pages: seq<Page>)
  {
    && |pages| == |pages0|
    && forall f :: InUse(counts, f) && f < |pages| && !HeadFrame(heads, view, d, f) ==> pages[f] == pages0[f]
  }

  ghost predicate SameBytesBut(was: seq<Page>, now: seq<Page>, f: int) {
    |now| == |was| && forall g :: 0 <= g < |now| && g != f ==> now[g] == was[g]
  }

  /** The bytes of two frames have been written, each of a header or free before. */
  lemma HeaderBytesTwice(heads: map<int, Header>, view: (int, int) -> Mapping, d: int, counts: seq<RefCount>,
                         pages0: seq<Page>, mid: seq<Page>, pages: seq<Page>, f: int, g: int)
    requires SameBytesBut(pages0, mid, f) && SameBytesBut(mid, pages, g)
    requires HeadFrame(heads, view, d, f) || !InUse(counts, f)
    requires HeadFrame(heads, view, d, g) || !InUse(counts, g)
    ensures HeaderBytes(heads, view, d, counts, pages0, pages)
  {
  }

  /** `now` is `was` but for pages v and w of directory d (of every directory, for
      pages of the kernel half). */
  ghost predicate SameBut(was: (int, int) -> Mapping, now: (int, int) -> Mapping, dirs: set<int>, d: int, v: int,
                          w: int)
  {
    forall c, x :: c in dirs && !((x == v || x == w) && (c == d || x >= KERNEL_VPAGE)) ==> now(c, x) == was(c, x)
  }

  // ----- the pages that carry headers after each step -----

  lemma UnlinkedKeys(heads: map<int, Header>, holes: seq<Hole>, k: nat, to: int, page: int)
    requires 0 < k <= |holes| ==> holes[k - 1].page in heads
    ensures (Relinked(heads, holes, k, to) - {page}).Keys == heads.Keys - {page}
  {
  }

  lemma MovedKeys(heads: map<int, Header>, holes: seq<Hole>, k: nat, to: int, from: int, delta: int, addr: int)
    requires from in heads && (0 < k <= |holes| ==> holes[k - 1].page in Moved(heads, to, from, delta))
    ensures Relinked(Moved(heads, to, from, delta), holes, k, addr).Keys == heads.Keys - {from} + {to}
  {
  }

  lemma InsertedKeys(heads: map<int, Header>, holes: seq<Hole>, k: nat, page: int, header: Header, to: int)
    requires 0 < k <= |holes| ==> holes[k - 1].page in heads
    ensures Relinked(heads[page := header], holes, k, to).Keys == heads.Keys + {page}
  {
  }

  lemma BoundedInsert(holes: seq<Hole>, k: nat, h: Hole)
    requires Bounded(holes) && k <= |holes| && 0 < h.page && 0 < h.size && h.End() <= VPAGES
    ensures Bounded(holes[..k] + [h] + holes[k..])
  {
  }

  lemma DistinctInsert(heads: map<int, Header>, first: int, holes: seq<Hole>, k: nat, h: Hole)
    requires Distinct(holes) && Linked(heads, first, holes) && k <= |holes| && h.page !in heads
    ensures Distinct(holes[..k] + [h] + holes[k..])
  {
    forall j | 0 <= j < |holes| ensures holes[j].page != h.page { assert LinkedAt(heads, holes, j); }
  }

  // ----- what the two operations change -----

  /** Only mappings of pages that are free in `holes` have changed. */
  ghost predicate OnlyFreePages(holes: seq<Hole>, was: (int, int) -> Mapping, now: (int, int) -> Mapping,
                                dirs: set<int>, d: int)
  {
    forall c, w :: c in dirs && !(IsFree(holes, w) && (c == d || w >= KERNEL_VPAGE)) ==> now(c, w) == was(c, w)
  }

  lemma OnlyFreeTwo(holes: seq<Hole>, was: (int, int) -> Mapping, now: (int, int) -> Mapping, dirs: set<int>, d: int,
                    v: int, w: int)
    requires SameBut(was, now, dirs, d, v, w) && IsFree(holes, v) && IsFree(holes, w)
    ensures OnlyFreePages(holes, was, now, dirs, d)
  {
  }

  /** A page is unmapped, or it carried no header before and its mapping is as it was. */
  ghost predicate SettledBody(heads: map<int, Header>, was: (int, int) -> Mapping, now: (int, int) -> Mapping, d: int,
                              w: int)
  {
    now(d, w).Unmapped? || (w !in heads && now(d, w) == was(d, w))
  }

  lemma SettledMoved(heads: map<int, Header>, after: map<int, Header>, was: (int, int) -> Mapping,
                     now: (int, int) -> Mapping, dirs: set<int>, d: int, to: int, from: int)
    requires SameBut(was, now, dirs, d, to, from) && d in dirs && heads.Keys - {from} <= after.Keys
    requires (from in after || now(d, from).Unmapped?) && (to in after || to == from)
    ensures forall w :: w !in after ==> SettledBody(heads, was, now, d, w)
  {
    forall w | w !in after ensures SettledBody(heads, was, now, d, w) {
      assert w in heads ==> w in heads.Keys - {from} || w == from;
    }
  }

  lemma TakenBody(list: List, after: List, lo: int, hi: int, k: nat, n: nat, was: (int, int) -> Mapping,
                  now: (int, int) -> Mapping, d: int)
    requires Canonical(list.holes, lo, hi) && k < |list.holes| && 0 < n <= list.holes[k].size
    requires after.holes == Take(list.holes, k, n) && BodyUnmapped(list, was, d)
    requires forall w :: w !in after.heads ==> SettledBody(list.heads, was, now, d, w)
    requires forall w :: w in after.heads ==> IsHead(after.holes, w)
    ensures BodyUnmapped(after, now, d)
    ensures forall w :: InRun(w, list.holes[k].page, n) ==> now(d, w).Unmapped?
  {
    TakeFree(list.holes, lo, hi, k, n);
    forall w | InRun(w, list.holes[k].page, n) ensures now(d, w).Unmapped? {
      assert InHole(list.holes[k], w) && IsFree(list.holes, w) && !IsFree(after.holes, w);
      if w in after.heads { HeadFree(after.holes, lo, hi, w); }
    }
  }

  lemma HeadFree(holes: seq<Hole>, lo: int, hi: int, w: int)
    requires Canonical(holes, lo, hi) && IsHead(holes, w)
    ensures IsFree(holes, w)
  {
    var k :| 0 <= k < |holes| && holes[k].page == w;
    assert InHole(holes[k], w);
  }

  lemma GivenBody(list: List, after: List, lo: int, hi: int, page: int, n: nat, was: (int, int) -> Mapping,
                  now: (int, int) -> Mapping, d: int)
    requires Canonical(list.holes, lo, hi) && n > 0 && NoneFree(list.holes, page, n) && lo <= page && page + n <= hi
    requires after.holes == Give(list.holes, Position(list.holes, page), page, n) && BodyUnmapped(list, was, d)
    requires forall w :: InRun(w, page, n) ==> was(d, w).Unmapped?
    requires forall w :: w !in after.heads ==> SettledBody(list.heads, was, now, d, w)
    ensures BodyUnmapped(after, now, d)
  {
    GiveFree(list.holes, lo, hi, page, n);
  }

  /** What taking the front of hole k finds in place. */
  lemma FrontReady(heads: map<int, Header>, first: int, holes: seq<Hole>, lo: int, hi: int, k: nat, n: nat,
                   view: (int, int) -> Mapping, d: int)
    requires Canonical(holes, lo, hi) && Linked(heads, first, holes) && BodyUnmapped(List(heads, holes), view, d)
    requires k < |holes| && 0 <= n < holes[k].size
    ensures holes[k].page in heads && heads[holes[k].page] == Header(holes[k].size * PAGE_SIZE, Ptr(holes, k + 1))
    ensures k > 0 ==> holes[k - 1].page in heads
    ensures IsFree(holes, holes[k].page) && IsFree(holes, holes[k].page + n)
    ensures n > 0 ==> holes[k].page + n !in heads && view(d, holes[k].page + n).Unmapped?
  {
    assert LinkedAt(heads, holes, k) && (k > 0 ==> LinkedAt(heads, holes, k - 1));
    assert InHole(holes[k], holes[k].page + n) && InHole(holes[k], holes[k].page);
    if holes[k].page + n in heads { HeadStarts(holes, lo, hi, k, holes[k].page + n); }
  }

  /** The headers at and before index k. */
  lemma HeadersAround(heads: map<int, Header>, first: int, holes: seq<Hole>, k: nat)
    requires Linked(heads, first, holes) && k <= |holes|
    ensures k > 0 ==> holes[k - 1].page in heads && heads[holes[k - 1].page].size == holes[k - 1].size * PAGE_SIZE
    ensures k < |holes| ==> holes[k].page in heads && heads[holes[k].page].size == holes[k].size * PAGE_SIZE
  {
    assert LinkedAt(heads, holes, k);
    if k > 0 { assert LinkedAt(heads, holes, k - 1); }
  }

  /** What giving pages back finds in place, and what it leaves. */
  lemma GiveReady(heads: map<int, Header>, first: int, holes: seq<Hole>, lo: int, hi: int, page: int, n: nat)
    requires Canonical(holes, lo, hi) && Linked(heads, first, holes) && n > 0 && lo <= page && page + n <= hi
    requires NoneFree(holes, page, n)
    ensures page !in heads
    ensures var k := Position(holes, page); k < |holes| ==> page + n <= holes[k].page
    ensures var after := Give(holes, Position(holes, page), page, n);
            && Distinct(after) && (forall w :: InRun(w, page, n) ==> IsFree(after, w))
            && (forall j :: 0 <= j < |holes| ==> IsFree(after, holes[j].page))
  {
    hide Canonical, IsFree, Give, LinkedAt;
    Between(holes, lo, hi, page, n);
    GiveFree(holes, lo, hi, page, n);
    CanonicalDistinct(Give(holes, Position(holes, page), page, n), lo, hi);
    assert InRun(page, page, n);
    StartsFree(holes, lo, hi);
    assert page in heads ==> IsHead(holes, page);
  }

  lemma StartsFree(holes: seq<Hole>, lo: int, hi: int)
    requires Canonical(holes, lo, hi)
    ensures forall j :: 0 <= j < |holes| ==> IsFree(holes, holes[j].page)
    ensures forall w :: IsHead(holes, w) ==> IsFree(holes, w)
  {
    forall j | 0 <= j < |holes| ensures IsFree(holes, holes[j].page) { assert InHole(holes[j], holes[j].page); }
  }

  lemma HeaderBytesThen(heads: map<int, Header>, heads': map<int, Header>, view: (int, int) -> Mapping, d: int,
                        counts: seq<RefCount>, pages0: seq<Page>, mid: seq<Page>, pages: seq<Page>)
    requires heads'.Keys == heads.Keys
    requires HeaderBytes(heads, view, d, counts, pages0, mid) && HeaderBytes(heads', view, d, counts, mid, pages)
    ensures HeaderBytes(heads, view, d, counts, pages0, pages)
  {
    forall f | HeadFrame(heads', view, d, f) ensures HeadFrame(heads, view, d, f) {
      var w :| w in heads' && view(d, w).Mapped? && view(d, w).entry.frame == f;
      assert w in heads'.Keys;
    }
  }

  /** Holes k - 1 and k as one. */
  function Merged(holes: seq<Hole>, k: nat): seq<Hole>
    requires 0 < k < |holes|
  {
    holes[..k - 1] + [Hole(holes[k - 1].page, holes[k - 1].size + holes[k].size)] + holes[k + 1..]
  }

  lemma MergedIs(holes: seq<Hole>, k: nat, grown: seq<Hole>)
    requires 0 < k < |holes|
    requires grown == holes[k - 1 := Hole(holes[k - 1].page, holes[k - 1].size + holes[k].size)]
    ensures grown[..k] + grown[k + 1..] == Merged(holes, k) && grown[k] == holes[k]
  {
  }

  lemma GlueLowIs(holes: seq<Hole>, k: nat, page: int, n: nat, grown: seq<Hole>)
    requires 0 < k <= |holes| && holes[k - 1].End() == page
    requires grown == holes[k - 1 := Hole(holes[k - 1].page, holes[k - 1].size + n)]
    ensures k < |holes| && holes[k].page == page + n ==> Give(holes, k, page, n) == Merged(grown, k)
    ensures !(k < |holes| && holes[k].page == page + n) ==> Give(holes, k, page, n) == grown
    ensures k < |holes| ==> grown[k] == holes[k]
  {
    if k < |holes| {
      assert grown[..k - 1] == holes[..k - 1] && grown[k + 1..] == holes[k + 1..] && grown[k] == holes[k];
    }
  }

  lemma GlueHighIs(holes: seq<Hole>, lo: int, hi: int, page: int, n: nat, h: Hole)
    requires Canonical(holes, lo, hi) && n > 0 && NoneFree(holes, page, n)
    requires var k := Position(holes, page);
             && (k > 0 ==> holes[k - 1].End() != page)
             && k < |holes| && holes[k].page == page + n && h == Hole(page, holes[k].size + n)
    ensures Give(holes, Position(holes, page), page, n) == holes[Position(holes, page) := h]
  {
  }

  /** Hole k - 1 has grown by n pages, and swallowed hole k if that filled the gap between them. */
  ghost predicate Extended(list: List, after: List, was: (int, int) -> Mapping, now: (int, int) -> Mapping,
                           dirs: set<int>, d: int, k: nat, n: nat)
    requires 0 < k <= |list.holes|
  {
    var holes := list.holes;
    var grown := holes[k - 1 := Hole(holes[k - 1].page, holes[k - 1].size + n)];
    if k < |holes| && holes[k].page == holes[k - 1].End() + n then
      && after.holes == Merged(grown, k) && after.heads.Keys == list.heads.Keys - {holes[k].page}
      && SameBut(was, now, dirs, d, holes[k].page, holes[k].page) && now(d, holes[k].page).Unmapped?
    else
      after.holes == grown && after.heads.Keys == list.heads.Keys && now == was
  }

  lemma NothingChanged(holes: seq<Hole>, was: (int, int) -> Mapping, dirs: set<int>, d: int)
    ensures OnlyFreePages(holes, was, was, dirs, d)
  {
  }

  lemma ExtendedGives(list: List, after: List, first: int, lo: int, hi: int, was: (int, int) -> Mapping,
                      now: (int, int) -> Mapping, dirs: set<int>, d: int, k: nat, page: int, n: nat)
    requires Canonical(list.holes, lo, hi) && Linked(list.heads, first, list.holes) && BodyUnmapped(list, was, d)
    requires n > 0 && NoneFree(list.holes, page, n) && lo <= page && page + n <= hi && d in dirs
    requires forall w :: InRun(w, page, n) ==> was(d, w).Unmapped?
    requires k == Position(list.holes, page) && k > 0 && list.holes[k - 1].End() == page
    requires Extended(list, after, was, now, dirs, d, k, n)
    ensures after.holes == Give(list.holes, k, page, n) && Canonical(after.holes, lo, hi)
    ensures BodyUnmapped(after, now, d) && OnlyFreePages(after.holes, was, now, dirs, d)
  {
    hide Canonical, IsFree, Give, Linked, BodyUnmapped, NoneFree, OnlyFreePages, Merged;
    var holes := list.holes;
    GlueLowIs(holes, k, page, n, holes[k - 1 := Hole(holes[k - 1].page, holes[k - 1].size + n)]);
    GiveReady(list.heads, first, holes, lo, hi, page, n);
    GiveFree(holes, lo, hi, page, n);
    NothingChanged(after.holes, was, dirs, d);
    if k < |holes| && holes[k].page == page + n {
      SettledMoved(list.heads, after.heads, was, now, dirs, d, holes[k].page, holes[k].page);
      OnlyFreeTwo(after.holes, was, now, dirs, d, holes[k].page, holes[k].page);
    } else {
      forall w | w !in after.heads ensures SettledBody(list.heads, was, now, d, w) { assert w !in after.heads.Keys; }
    }
    GivenBody(list, after, lo, hi, page, n, was, now, d);
  }
}
