/** Conservation for the range allocators of the kernel half: every hole costs the
    one frame its header is on. */
module HeaderLedger {
  import opened Basics
  import opened Frames
  import opened Tables
  import opened HoleList
  import opened Ledger

  /** Nobody else refers to the frames of the headers. */
  ghost predicate SoleHeads(heads: map<int, Header>, view: (int, int) -> Mapping, d: int, counts: seq<RefCount>) {
    forall w :: w in heads ==>
      view(d, w).Mapped? && view(d, w).entry.frame < |counts| && counts[view(d, w).entry.frame] == 1
  }

  /** Frame f is free or carries a header. */
  ghost predicate InPool(heads: map<int, Header>, view: (int, int) -> Mapping, d: int, counts: seq<RefCount>, f: int)
    requires 0 <= f < |counts|
  {
    counts[f] == 0 || HeadFrame(heads, view, d, f)
  }

  /** What an allocator in the kernel half does to the reference counts: the frames
      that are free or carry a header stay the same altogether, and no other frame
      is referred to more or less often than before. */
  ghost predicate Balanced(heads0: map<int, Header>, view0: (int, int) -> Mapping, counts0: seq<RefCount>,
                           heads: map<int, Header>, view: (int, int) -> Mapping, counts: seq<RefCount>, d: int)
  {
    SoleHeads(heads0, view0, d, counts0) ==>
      && SoleHeads(heads, view, d, counts) && |counts| == |counts0|
      && forall f :: 0 <= f < |counts| ==>
           && (InPool(heads, view, d, counts, f) <==> InPool(heads0, view0, d, counts0, f))
           && (!InPool(heads0, view0, d, counts0, f) ==> counts[f] == counts0[f])
  }

  /** The frames of the headers, among n frames. */
  ghost function HeadFrames(heads: map<int, Header>, view: (int, int) -> Mapping, d: int, n: nat): set<int> {
    set f | 0 <= f < n && HeadFrame(heads, view, d, f)
  }

  /** One header less is its frame less. */
  lemma HeadFramesLess(heads: map<int, Header>, view: (int, int) -> Mapping, d: int, n: nat, w: int, f: int)
    requires w in heads && view(d, w).Mapped? && view(d, w).entry.frame == f < n && Apart(heads, view, d)
    ensures f !in HeadFrames(heads - {w}, view, d, n)
    ensures HeadFrames(heads, view, d, n) == HeadFrames(heads - {w}, view, d, n) + {f}
  {
    var rest := heads - {w};
    forall g: int ensures g in HeadFrames(heads, view, d, n) <==> g in HeadFrames(rest, view, d, n) || g == f {
      if g in HeadFrames(heads, view, d, n) && g != f {
        var x :| x in heads && view(d, x).Mapped? && view(d, x).entry.frame == g;
        assert x in rest;
      }
      if g in HeadFrames(rest, view, d, n) {
        var x :| x in rest && view(d, x).Mapped? && view(d, x).entry.frame == g;
        assert x in heads;
      }
    }
  }

  lemma {:induction false} HeadFramesSize(heads: map<int, Header>, view: (int, int) -> Mapping, d: int,
                                          counts: seq<RefCount>)
    requires SoleHeads(heads, view, d, counts) && Apart(heads, view, d)
    ensures |HeadFrames(heads, view, d, |counts|)| == |heads|
    decreases |heads|
  {
    if heads.Keys == {} {
      assert forall w :: w in heads ==> w in heads.Keys;
      assert HeadFrames(heads, view, d, |counts|) == {} && heads == map[];
    } else {
      var w := Member(heads.Keys);
      var rest, f := heads - {w}, view(d, w).entry.frame;
      HeadFramesLess(heads, view, d, |counts|, w, f);
      hide HeadFrames;
      HeadFramesSize(rest, view, d, counts);
      assert heads.Keys == rest.Keys + {w};
    }
  }

  ghost function Pool(heads: map<int, Header>, view: (int, int) -> Mapping, d: int, counts: seq<RefCount>): set<int> {
    set f | 0 <= f < |counts| && InPool(heads, view, d, counts, f)
  }

  /** The frames that are free and those of headers, together. */
  lemma PoolSize(heads: map<int, Header>, view: (int, int) -> Mapping, d: int, counts: seq<RefCount>)
    requires SoleHeads(heads, view, d, counts) && Apart(heads, view, d)
    ensures |Pool(heads, view, d, counts)| == |FreeSet(counts)| + |heads|
  {
    var pool, h := Pool(heads, view, d, counts), HeadFrames(heads, view, d, |counts|);
    HeadFramesSize(heads, view, d, counts);
    var free := set f: int | f in FreeSet(counts);
    assert free == FreeSet(counts);
    assert pool == free + h && free !! h;
  }

  /** Every hole less is a free frame more. */
  lemma Conserved(heads0: map<int, Header>, view0: (int, int) -> Mapping, counts0: seq<RefCount>,
                  heads: map<int, Header>, view: (int, int) -> Mapping, counts: seq<RefCount>, d: int)
    requires SoleHeads(heads0, view0, d, counts0) && Apart(heads0, view0, d) && Apart(heads, view, d)
    requires Balanced(heads0, view0, counts0, heads, view, counts, d)
    ensures |FreeSet(counts)| + |heads| == |FreeSet(counts0)| + |heads0|
  {
    PoolSize(heads0, view0, d, counts0);
    PoolSize(heads, view, d, counts);
    assert Pool(heads, view, d, counts) == Pool(heads0, view0, d, counts0);
  }

  lemma BalancedThen(heads0: map<int, Header>, view0: (int, int) -> Mapping, counts0: seq<RefCount>,
                     heads1: map<int, Header>, view1: (int, int) -> Mapping, counts1: seq<RefCount>,
                     heads: map<int, Header>, view: (int, int) -> Mapping, counts: seq<RefCount>, d: int)
    requires Balanced(heads0, view0, counts0, heads1, view1, counts1, d)
    requires Balanced(heads1, view1, counts1, heads, view, counts, d)
    ensures Balanced(heads0, view0, counts0, heads, view, counts, d)
  {
  }

  lemma BalancedSame(heads0: map<int, Header>, heads: map<int, Header>, view: (int, int) -> Mapping,
                     counts: seq<RefCount>, d: int)
    requires heads.Keys == heads0.Keys
    ensures Balanced(heads0, view, counts, heads, view, counts, d)
  {
    SameKeys(heads0, heads);
  }

  lemma SameKeys(heads0: map<int, Header>, heads: map<int, Header>)
    requires heads.Keys == heads0.Keys
    ensures forall w :: w in heads <==> w in heads0
  {
    assert forall w :: w in heads <==> w in heads.Keys;
  }

  lemma BalancedRemove(heads0: map<int, Header>, view0: (int, int) -> Mapping, counts0: seq<RefCount>,
                       heads: map<int, Header>, view: (int, int) -> Mapping, counts: seq<RefCount>, d: int,
                       page: int)
    requires page in heads0 && heads.Keys == heads0.Keys - {page} && Apart(heads0, view0, d)
    requires forall w :: w in heads0 && w != page ==> view(d, w) == view0(d, w)
    requires view0(d, page).Mapped? && Given(counts0, counts, view0(d, page).entry.frame)
    ensures Balanced(heads0, view0, counts0, heads, view, counts, d)
  {
    var f := view0(d, page).entry.frame;
    if SoleHeads(heads0, view0, d, counts0) {
      FreeSetUpdate(counts0, f, 0);
      SameKeys(heads, heads0 - {page});
      }
  }

  lemma BalancedInsert(heads0: map<int, Header>, view0: (int, int) -> Mapping, counts0: seq<RefCount>,
                       heads: map<int, Header>, view: (int, int) -> Mapping, counts: seq<RefCount>, d: int,
                       page: int)
    requires page !in heads0 && heads.Keys == heads0.Keys + {page}
    requires forall w :: w in heads0 ==> view(d, w) == view0(d, w)
    requires view(d, page).Mapped? && Taken(counts0, counts, view(d, page).entry.frame)
    requires counts0[view(d, page).entry.frame] == 0
    ensures Balanced(heads0, view0, counts0, heads, view, counts, d)
  {
    var f := view(d, page).entry.frame;
    FreeSetUpdate(counts0, f, 1);
    assert forall w :: w in heads <==> w in heads0 || w == page by {
      assert forall w :: w in heads <==> w in heads.Keys;
    }
  }

  lemma BalancedMove(heads0: map<int, Header>, view0: (int, int) -> Mapping, counts0: seq<RefCount>,
                     heads: map<int, Header>, view: (int, int) -> Mapping, mid: seq<RefCount>, counts: seq<RefCount>,
                     d: int, to: int, from: int)
    requires from in heads0 && to !in heads0 && heads.Keys == heads0.Keys - {from} + {to}
    requires forall w :: w in heads0 && w != from ==> view(d, w) == view0(d, w)
    requires view0(d, from).Mapped? && view(d, to).Mapped? && view(d, to).entry.frame == view0(d, from).entry.frame
    requires Taken(counts0, mid, view0(d, from).entry.frame) && Given(mid, counts, view0(d, from).entry.frame)
    ensures Balanced(heads0, view0, counts0, heads, view, counts, d)
  {
    if SoleHeads(heads0, view0, d, counts0) {
      assert counts == counts0;
      assert forall w :: w in heads <==> (w in heads0 && w != from) || w == to by {
        assert forall w :: w in heads <==> w in heads.Keys;
      }
      }
  }
}
