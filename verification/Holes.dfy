/** The hole list of kernel/memory/range_allocator.c as a value: which holes an
    allocation or a free leaves, and why the list is a function of the set of free
    pages. Addresses and sizes are in pages. */
module Holes {

  datatype Hole = Hole(page: int, size: nat) {
    function End(): int { page + size }
  }

  /** Sorted by address, inside [lo, hi), and no two holes touch. */
  ghost predicate Canonical(holes: seq<Hole>, lo: int, hi: int) {
    && (forall k :: 0 <= k < |holes| ==> lo <= holes[k].page && holes[k].size > 0 && holes[k].End() <= hi)
    && (forall j, k :: 0 <= j < k < |holes| ==> holes[j].End() < holes[k].page)
  }

  predicate InHole(h: Hole, w: int) {
    h.page <= w < h.End()
  }

  ghost predicate IsFree(holes: seq<Hole>, w: int) {
    exists k :: 0 <= k < |holes| && InHole(holes[k], w)
  }

  ghost predicate SameFree(a: seq<Hole>, b: seq<Hole>) {
    forall w :: IsFree(a, w) <==> IsFree(b, w)
  }

  lemma ConcatFree(a: seq<Hole>, b: seq<Hole>, w: int)
    ensures IsFree(a + b, w) <==> IsFree(a, w) || IsFree(b, w)
  {
    if IsFree(a, w) {
      var k :| 0 <= k < |a| && InHole(a[k], w);
      assert (a + b)[k] == a[k];
    }
    if IsFree(b, w) {
      var k :| 0 <= k < |b| && InHole(b[k], w);
      assert (a + b)[|a| + k] == b[k];
    }
  }

  lemma ConcatCanonical(a: seq<Hole>, b: seq<Hole>, lo: int, hi: int)
    requires Canonical(a, lo, hi) && Canonical(b, lo, hi)
    requires a != [] && b != [] ==> a[|a| - 1].End() < b[0].page
    ensures Canonical(a + b, lo, hi)
  {
    var c := a + b;
    forall j, k | 0 <= j < k < |c| ensures c[j].End() < c[k].page {
      if j < |a| <= k {
        assert c[j] == a[j] && c[k] == b[k - |a|];
        assert a[j].End() <= a[|a| - 1].End() && b[0].page <= b[k - |a|].page;
      }
    }
  }

  /** Holes at .. next replaced by `middle`, which fits between its neighbours. */
  lemma Splice(holes: seq<Hole>, lo: int, hi: int, at: nat, next: nat, middle: seq<Hole>)
    requires Canonical(holes, lo, hi) && at <= next <= |holes|
    requires Canonical(middle, lo, hi)
    requires forall h :: h in middle ==> (at > 0 ==> holes[at - 1].End() < h.page)
                                         && (next < |holes| ==> h.End() < holes[next].page)
    ensures Canonical(holes[..at] + middle + holes[next..], lo, hi)
    ensures forall w :: IsFree(holes, w) <==>
              IsFree(holes[..at], w) || IsFree(holes[at..next], w) || IsFree(holes[next..], w)
    ensures forall w :: IsFree(holes[..at] + middle + holes[next..], w) <==>
              IsFree(holes[..at], w) || IsFree(middle, w) || IsFree(holes[next..], w)
  {
    hide Canonical, IsFree;
    SpliceCanonical(holes, lo, hi, at, next, middle);
    var a, b, c := holes[..at], holes[at..next], holes[next..];
    assert holes == a + b + c;
    forall w
      ensures IsFree(holes, w) <==> IsFree(a, w) || IsFree(b, w) || IsFree(c, w)
      ensures IsFree(a + middle + c, w) <==> IsFree(a, w) || IsFree(middle, w) || IsFree(c, w)
    {
      TripleFree(a, b, c, w);
      TripleFree(a, middle, c, w);
    }
  }

  lemma TripleFree(a: seq<Hole>, b: seq<Hole>, c: seq<Hole>, w: int)
    ensures IsFree(a + b + c, w) <==> IsFree(a, w) || IsFree(b, w) || IsFree(c, w)
  {
    ConcatFree(a + b, c, w);
    ConcatFree(a, b, w);
  }

  lemma SliceCanonical(holes: seq<Hole>, lo: int, hi: int, i: nat, j: nat)
    requires Canonical(holes, lo, hi) && i <= j <= |holes|
    ensures Canonical(holes[i..j], lo, hi)
  {
  }

  lemma SpliceCanonical(holes: seq<Hole>, lo: int, hi: int, at: nat, next: nat, middle: seq<Hole>)
    requires Canonical(holes, lo, hi) && at <= next <= |holes| && Canonical(middle, lo, hi)
    requires forall h :: h in middle ==> (at > 0 ==> holes[at - 1].End() < h.page)
                                         && (next < |holes| ==> h.End() < holes[next].page)
    ensures Canonical(holes[..at] + middle + holes[next..], lo, hi)
  {
    var a, c := holes[..at], holes[next..];
    SliceCanonical(holes, lo, hi, 0, at);
    SliceCanonical(holes, lo, hi, next, |holes|);
    if at > 0 && next < |holes| { assert holes[at - 1].End() < holes[next].page; }
    hide Canonical;
    assert holes[0..at] == a && holes[next..|holes|] == c;
    ConcatCanonical(a, middle, lo, hi);
    if middle != [] { assert (a + middle)[|a + middle| - 1] == middle[|middle| - 1]; }
    ConcatCanonical(a + middle, c, lo, hi);
  }

  lemma TailFree(holes: seq<Hole>, lo: int, hi: int, w: int)
    requires Canonical(holes, lo, hi) && holes != []
    ensures Canonical(holes[1..], holes[0].End() + 1, hi)
    ensures IsFree(holes, w) <==> InHole(holes[0], w) || IsFree(holes[1..], w)
    ensures IsFree(holes[1..], w) ==> w > holes[0].End()
  {
    if IsFree(holes, w) {
      var k :| 0 <= k < |holes| && InHole(holes[k], w);
      if k > 0 { assert holes[1..][k - 1] == holes[k]; }
    }
    if IsFree(holes[1..], w) {
      var k :| 0 <= k < |holes[1..]| && InHole(holes[1..][k], w);
      assert holes[k + 1] == holes[1..][k];
    }
  }

  lemma FirstFree(holes: seq<Hole>, lo: int, hi: int)
    requires Canonical(holes, lo, hi) && holes != []
    ensures IsFree(holes, holes[0].page) && !IsFree(holes, holes[0].End())
    ensures forall w :: IsFree(holes, w) ==> holes[0].page <= w
    ensures forall w :: InHole(holes[0], w) ==> IsFree(holes, w)
  {
    assert InHole(holes[0], holes[0].page);
    forall w | IsFree(holes, w) ensures holes[0].page <= w && w != holes[0].End() {
      TailFree(holes, lo, hi, w);
    }
  }

  /** The list is a function of the free set. */
  lemma {:induction false} CanonicalUnique(a: seq<Hole>, b: seq<Hole>, lo: int, hi: int)
    requires Canonical(a, lo, hi) && Canonical(b, lo, hi) && SameFree(a, b)
    ensures a == b
  {
    if b != [] { FirstFree(b, lo, hi); }
    assert b != [] ==> (IsFree(a, b[0].page) <==> IsFree(b, b[0].page));
    if a != [] {
      FirstFree(a, lo, hi);
      assert IsFree(b, a[0].page);
      FirstFree(b, lo, hi);
      assert a[0].page == b[0].page;
      assert !InHole(b[0], a[0].End()) && !InHole(a[0], b[0].End());
      assert a[0] == b[0];
      forall w ensures IsFree(a[1..], w) <==> IsFree(b[1..], w) {
        TailFree(a, lo, hi, w);
        TailFree(b, lo, hi, w);
        assert IsFree(a, w) <==> IsFree(b, w);
      }
      TailFree(a, lo, hi, 0);
      TailFree(b, lo, hi, 0);
      CanonicalUnique(a[1..], b[1..], a[0].End() + 1, hi);
    }
  }

  // ----- allocation -----

  /** The index of the first hole of at least n pages, or |holes|. */
  function FirstFit(holes: seq<Hole>, n: nat): (k: nat)
    ensures k <= |holes|
    ensures k < |holes| ==> holes[k].size >= n
    ensures forall j :: 0 <= j < k ==> holes[j].size < n
  {
    if holes == [] || holes[0].size >= n then 0 else 1 + FirstFit(holes[1..], n)
  }

  /** Takes the first n pages of hole k. */
  function Take(holes: seq<Hole>, k: nat, n: nat): seq<Hole>
    requires k < |holes| && 0 < n <= holes[k].size
  {
    if holes[k].size == n then holes[..k] + holes[k + 1..]
    else holes[k := Hole(holes[k].page + n, holes[k].size - n)]
  }

  /** Some hole has n pages. */
  predicate Fits(holes: seq<Hole>, n: nat) {
    FirstFit(holes, n) < |holes|
  }

  /** The frames that are free once n pages have been taken, where `free` were before: a hole
      that is taken whole gives back the frame of its header. */
  function FreeAfterTake(holes: seq<Hole>, n: nat, free: int): int {
    if Fits(holes, n) && holes[FirstFit(holes, n)].size == n then free + 1 else free
  }

  /** There are n pages, and a frame for each of them. */
  predicate Provided(holes: seq<Hole>, n: nat, free: int) {
    Fits(holes, n) && FreeAfterTake(holes, n, free) >= n
  }

  lemma TakeSize(holes: seq<Hole>, n: nat, free: int)
    requires n > 0 && Fits(holes, n)
    ensures free + |holes| - |Take(holes, FirstFit(holes, n), n)| == FreeAfterTake(holes, n, free)
  {
  }

  predicate InRun(w: int, page: int, n: nat) {
    page <= w < page + n
  }

  ghost predicate RunFree(holes: seq<Hole>, page: int, n: nat) {
    forall w :: InRun(w, page, n) ==> IsFree(holes, w)
  }

  lemma EndNotFree(holes: seq<Hole>, lo: int, hi: int, k: nat)
    requires Canonical(holes, lo, hi) && k < |holes|
    ensures !IsFree(holes, holes[k].End())
  {
  }

  /** A run of free pages lies inside one hole, because holes do not touch. */
  lemma RunInHole(holes: seq<Hole>, lo: int, hi: int, page: int, n: nat) returns (k: nat)
    requires Canonical(holes, lo, hi) && n > 0 && RunFree(holes, page, n)
    ensures k < |holes| && holes[k].page <= page && page + n <= holes[k].End()
  {
    assert InRun(page, page, n);
    k :| 0 <= k < |holes| && InHole(holes[k], page);
    EndNotFree(holes, lo, hi, k);
    assert InRun(holes[k].End(), page, n) <==> holes[k].End() < page + n;
  }

  /** First fit finds a place exactly when some run of n pages is free, and then
      the one with the lowest address. */
  lemma FirstFitIsLowest(holes: seq<Hole>, lo: int, hi: int, n: nat)
    requires Canonical(holes, lo, hi) && n > 0
    ensures FirstFit(holes, n) < |holes| <==> exists page :: RunFree(holes, page, n)
    ensures var k := FirstFit(holes, n);
            k < |holes| ==> RunFree(holes, holes[k].page, n)
                            && forall page :: RunFree(holes, page, n) ==> holes[k].page <= page
  {
    var k := FirstFit(holes, n);
    if k < |holes| {
      forall w | InRun(w, holes[k].page, n) ensures IsFree(holes, w) {
        assert InHole(holes[k], w);
      }
      assert RunFree(holes, holes[k].page, n);
    }
    forall page | RunFree(holes, page, n) ensures k < |holes| && holes[k].page <= page {
      var j := RunInHole(holes, lo, hi, page, n);
      assert k <= j;
    }
  }

  /** First fit finds a place exactly if some run of n pages is free. */
  lemma FitsIff(holes: seq<Hole>, lo: int, hi: int, n: nat, free: int)
    requires Canonical(holes, lo, hi) && n > 0
    ensures Fits(holes, n) <==> exists page :: RunFree(holes, page, n)
    ensures Fits(holes, n) ==>
              free + |holes| - |Take(holes, FirstFit(holes, n), n)| == FreeAfterTake(holes, n, free)
    ensures !Fits(holes, n) ==> FreeAfterTake(holes, n, free) == free
  {
    FirstFitIsLowest(holes, lo, hi, n);
    if Fits(holes, n) { TakeSize(holes, n, free); }
  }

  lemma SingleFree(h: Hole, w: int)
    ensures IsFree([h], w) <==> InHole(h, w)
    ensures !IsFree([], w)
  {
    assert [h][0] == h;
  }

  /** Hole k is disjoint from the others. */
  lemma OneHole(holes: seq<Hole>, lo: int, hi: int, k: nat, w: int)
    requires Canonical(holes, lo, hi) && k < |holes| && InHole(holes[k], w)
    ensures !IsFree(holes[..k], w) && !IsFree(holes[k + 1..], w)
  {
  }

  /** Taking removes exactly the pages handed out. */
  lemma TakeFree(holes: seq<Hole>, lo: int, hi: int, k: nat, n: nat)
    requires Canonical(holes, lo, hi) && k < |holes| && 0 < n <= holes[k].size
    ensures Canonical(Take(holes, k, n), lo, hi)
    ensures forall w :: IsFree(Take(holes, k, n), w) <==> IsFree(holes, w) && !InRun(w, holes[k].page, n)
  {
    if holes[k].size == n {
      TakeSplice(holes, lo, hi, k, n, []);
    } else {
      TakeSplice(holes, lo, hi, k, n, [Hole(holes[k].page + n, holes[k].size - n)]);
    }
  }

  /** What is left of hole k fits between its neighbours. */
  lemma LeftFits(holes: seq<Hole>, lo: int, hi: int, k: nat, n: nat, middle: seq<Hole>)
    requires Canonical(holes, lo, hi) && k < |holes| && 0 < n <= holes[k].size
    requires middle == if holes[k].size == n then [] else [Hole(holes[k].page + n, holes[k].size - n)]
    ensures Canonical(middle, lo, hi)
    ensures forall h :: h in middle ==> (k > 0 ==> holes[k - 1].End() < h.page)
                                        && (k + 1 < |holes| ==> h.End() < holes[k + 1].page)
  {
  }

  lemma TakeSplice(holes: seq<Hole>, lo: int, hi: int, k: nat, n: nat, middle: seq<Hole>)
    requires Canonical(holes, lo, hi) && k < |holes| && 0 < n <= holes[k].size
    requires middle == if holes[k].size == n then [] else [Hole(holes[k].page + n, holes[k].size - n)]
    ensures Canonical(Take(holes, k, n), lo, hi)
    ensures forall w :: IsFree(Take(holes, k, n), w) <==> IsFree(holes, w) && !InRun(w, holes[k].page, n)
  {
    hide Canonical, IsFree;
    var h := holes[k];
    assert Take(holes, k, n) == holes[..k] + middle + holes[k + 1..];
    assert holes[k..k + 1] == [h];
    LeftFits(holes, lo, hi, k, n, middle);
    Splice(holes, lo, hi, k, k + 1, middle);
    forall w ensures IsFree(Take(holes, k, n), w) <==> IsFree(holes, w) && !InRun(w, h.page, n) {
      SingleFree(h, w);
      SingleFree(Hole(h.page + n, h.size - n), w);
      if InHole(h, w) { OneHole(holes, lo, hi, k, w); }
    }
  }

  // ----- free -----

  /** The index of the first hole that ends beyond `page`. */
  function Position(holes: seq<Hole>, page: int): (k: nat)
    ensures k <= |holes|
    ensures k < |holes| ==> holes[k].End() > page
    ensures forall j :: 0 <= j < k ==> holes[j].End() <= page
  {
    if holes == [] || holes[0].End() > page then 0 else 1 + Position(holes[1..], page)
  }

  /** Gives n pages from `page` on back at position k: glued to the hole before, to
      the hole after, to both, or a hole of its own. */
  function Give(holes: seq<Hole>, k: nat, page: int, n: nat): seq<Hole>
    requires k <= |holes|
  {
    if k > 0 && holes[k - 1].End() == page then
      if k < |holes| && holes[k].page == page + n then
        holes[..k - 1] + [Hole(holes[k - 1].page, holes[k - 1].size + n + holes[k].size)] + holes[k + 1..]
      else holes[k - 1 := Hole(holes[k - 1].page, holes[k - 1].size + n)]
    else if k < |holes| && holes[k].page == page + n then holes[k := Hole(page, n + holes[k].size)]
    else holes[..k] + [Hole(page, n)] + holes[k..]
  }

  ghost predicate NoneFree(holes: seq<Hole>, page: int, n: nat) {
    forall w :: InRun(w, page, n) ==> !IsFree(holes, w)
  }

  /** Pages that are not free lie wholly between two holes. */
  lemma Between(holes: seq<Hole>, lo: int, hi: int, page: int, n: nat)
    requires Canonical(holes, lo, hi) && n > 0 && NoneFree(holes, page, n)
    ensures var k := Position(holes, page); forall j :: k <= j < |holes| ==> page + n <= holes[j].page
  {
    var k := Position(holes, page);
    if k < |holes| && holes[k].page < page + n {
      var w := if holes[k].page < page then page else holes[k].page;
      assert InRun(w, page, n) && InHole(holes[k], w);
      assert IsFree(holes, w);
      assert false;
    }
  }

  /** Giving back adds exactly the pages given back. */
  lemma GiveFree(holes: seq<Hole>, lo: int, hi: int, page: int, n: nat)
    requires Canonical(holes, lo, hi) && n > 0 && NoneFree(holes, page, n) && lo <= page && page + n <= hi
    ensures var after := Give(holes, Position(holes, page), page, n);
            Canonical(after, lo, hi) && forall w :: IsFree(after, w) <==> IsFree(holes, w) || InRun(w, page, n)
  {
    hide Canonical, IsFree, Give;
    var k := Position(holes, page);
    Between(holes, lo, hi, page, n);
    var low, high := k > 0 && holes[k - 1].End() == page, k < |holes| && holes[k].page == page + n;
    if low && high {
      GiveBoth(holes, lo, hi, page, n, k);
    } else if low {
      GiveLow(holes, lo, hi, page, n, k);
    } else if high {
      GiveHigh(holes, lo, hi, page, n, k);
    } else {
      GiveApart(holes, lo, hi, page, n, k);
    }
  }

  lemma GiveBoth(holes: seq<Hole>, lo: int, hi: int, page: int, n: nat, k: nat)
    requires Canonical(holes, lo, hi) && n > 0 && lo <= page && page + n <= hi
    requires 0 < k < |holes| && holes[k - 1].End() == page && holes[k].page == page + n
    ensures var after := Give(holes, k, page, n);
            Canonical(after, lo, hi) && forall w :: IsFree(after, w) <==> IsFree(holes, w) || InRun(w, page, n)
  {
    GiveSplice(holes, lo, hi, k - 1, k + 1, Hole(holes[k - 1].page, holes[k - 1].size + n + holes[k].size), page, n);
  }

  lemma GiveApart(holes: seq<Hole>, lo: int, hi: int, page: int, n: nat, k: nat)
    requires Canonical(holes, lo, hi) && n > 0 && lo <= page && page + n <= hi
    requires k <= |holes| && (k > 0 ==> holes[k - 1].End() < page) && (k < |holes| ==> page + n < holes[k].page)
    ensures var after := Give(holes, k, page, n);
            Canonical(after, lo, hi) && forall w :: IsFree(after, w) <==> IsFree(holes, w) || InRun(w, page, n)
  {
    GiveSplice(holes, lo, hi, k, k, Hole(page, n), page, n);
  }

  lemma MergedFits(holes: seq<Hole>, lo: int, hi: int, at: nat, next: nat, middle: Hole)
    requires Canonical(holes, lo, hi) && at < next <= |holes| && middle.page == holes[at].page
    requires next < |holes| ==> middle.End() < holes[next].page
    requires middle.size > 0 && middle.End() <= hi
    ensures lo <= middle.page && (at > 0 ==> holes[at - 1].End() < middle.page)
    ensures holes[at].size > 0
  {
  }

  lemma GiveLow(holes: seq<Hole>, lo: int, hi: int, page: int, n: nat, k: nat)
    requires Canonical(holes, lo, hi) && n > 0 && lo <= page && page + n <= hi
    requires 0 < k <= |holes| && holes[k - 1].End() == page && (k < |holes| ==> page + n < holes[k].page)
    ensures var after := Give(holes, k, page, n);
            Canonical(after, lo, hi) && forall w :: IsFree(after, w) <==> IsFree(holes, w) || InRun(w, page, n)
  {
    hide Canonical, IsFree;
    var middle := Hole(holes[k - 1].page, holes[k - 1].size + n);
    MergedFits(holes, lo, hi, k - 1, k, middle);
    ReplaceOne(holes, k - 1, middle);
    GiveSplice(holes, lo, hi, k - 1, k, middle, page, n);
  }

  lemma GiveHigh(holes: seq<Hole>, lo: int, hi: int, page: int, n: nat, k: nat)
    requires Canonical(holes, lo, hi) && n > 0 && lo <= page && page + n <= hi
    requires k < |holes| && holes[k].page == page + n && (k > 0 ==> holes[k - 1].End() < page)
    ensures var after := Give(holes, k, page, n);
            Canonical(after, lo, hi) && forall w :: IsFree(after, w) <==> IsFree(holes, w) || InRun(w, page, n)
  {
    var middle := Hole(page, n + holes[k].size);
    ReplaceOne(holes, k, middle);
    GiveSplice(holes, lo, hi, k, k + 1, middle, page, n);
  }

  lemma ReplaceOne(holes: seq<Hole>, k: nat, h: Hole)
    requires k < |holes|
    ensures holes[k := h] == holes[..k] + [h] + holes[k + 1..]
  {
  }

  lemma GiveSplice(holes: seq<Hole>, lo: int, hi: int, at: nat, next: nat, middle: Hole, page: int, n: nat)
    requires Canonical(holes, lo, hi) && at <= next <= |holes| && next <= at + 2
    requires lo <= middle.page && middle.size > 0 && middle.End() <= hi
    requires at > 0 ==> holes[at - 1].End() < middle.page
    requires next < |holes| ==> middle.End() < holes[next].page
    requires forall w :: InHole(middle, w) <==>
               InRun(w, page, n) || (at < next && InHole(holes[at], w)) || (at + 1 < next && InHole(holes[at + 1], w))
    ensures var after := holes[..at] + [middle] + holes[next..];
            Canonical(after, lo, hi) && forall w :: IsFree(after, w) <==> IsFree(holes, w) || InRun(w, page, n)
  {
    Splice(holes, lo, hi, at, next, [middle]);
    forall w ensures IsFree([middle], w) <==> IsFree(holes[at..next], w) || InRun(w, page, n) {
      SingleFree(middle, w);
      CutFree(holes, at, next, w);
    }
  }

  lemma CutFree(holes: seq<Hole>, at: nat, next: nat, w: int)
    requires at <= next <= |holes| && next <= at + 2
    ensures IsFree(holes[at..next], w) <==>
              (at < next && InHole(holes[at], w)) || (at + 1 < next && InHole(holes[at + 1], w))
  {
    var cut := holes[at..next];
    assert at < next ==> cut[0] == holes[at];
    assert at + 1 < next ==> cut[1] == holes[at + 1];
  }

  // ----- what runs of the two operations mean -----

  /** Taking leaves no hole exactly if the run was the only hole there was. */
  lemma TakenAll(holes: seq<Hole>, k: nat, n: nat)
    requires k < |holes| && 0 < n <= holes[k].size
    ensures Take(holes, k, n) == [] <==> |holes| == 1 && n == holes[k].size
  {
  }

  /** Giving back what was taken gives the identical list. */
  lemma TakeThenGive(holes: seq<Hole>, lo: int, hi: int, k: nat, n: nat)
    requires Canonical(holes, lo, hi) && k < |holes| && 0 < n <= holes[k].size
    ensures var taken := Take(holes, k, n);
            Give(taken, Position(taken, holes[k].page), holes[k].page, n) == holes
  {
    var taken := Take(holes, k, n);
    TakeFree(holes, lo, hi, k, n);
    GiveFree(taken, lo, hi, holes[k].page, n);
    var back := Give(taken, Position(taken, holes[k].page), holes[k].page, n);
    forall w ensures IsFree(back, w) <==> IsFree(holes, w) {
      if InRun(w, holes[k].page, n) { assert InHole(holes[k], w); }
    }
    CanonicalUnique(back, holes, lo, hi);
  }

  /** The list does not depend on the order in which two runs are given back. */
  lemma GiveCommutes(holes: seq<Hole>, lo: int, hi: int, p: int, m: nat, q: int, n: nat)
    requires Canonical(holes, lo, hi) && m > 0 && n > 0 && lo <= p && p + m <= hi && lo <= q && q + n <= hi
    requires NoneFree(holes, p, m) && NoneFree(holes, q, n) && (p + m <= q || q + n <= p)
    ensures var first, second := Give(holes, Position(holes, p), p, m), Give(holes, Position(holes, q), q, n);
            Give(first, Position(first, q), q, n) == Give(second, Position(second, p), p, m)
  {
    var first, second := Give(holes, Position(holes, p), p, m), Give(holes, Position(holes, q), q, n);
    GiveFree(holes, lo, hi, p, m);
    GiveFree(holes, lo, hi, q, n);
    GiveFree(first, lo, hi, q, n);
    GiveFree(second, lo, hi, p, m);
    CanonicalUnique(Give(first, Position(first, q), q, n), Give(second, Position(second, p), p, m), lo, hi);
  }

  /** When every page is free the list is the one hole that initialisation made. */
  lemma AllFree(holes: seq<Hole>, lo: int, hi: int)
    requires Canonical(holes, lo, hi) && lo < hi && forall w :: lo <= w < hi ==> IsFree(holes, w)
    ensures holes == [Hole(lo, hi - lo)]
  {
    var whole := [Hole(lo, hi - lo)];
    forall w ensures IsFree(whole, w) <==> IsFree(holes, w) {
      assert InHole(whole[0], w) <==> lo <= w < hi;
    }
    CanonicalUnique(holes, whole, lo, hi);
  }
}
