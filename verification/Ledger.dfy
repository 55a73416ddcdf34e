/** Book-keeping of frames for the pages of the kernel half: a page there takes
    exactly one free frame when it is mapped and gives it back when it is unmapped,
    so frames are conserved over whole runs of the allocators on top. */
module Ledger {
  import opened Frames
  import opened Tables

  /** Pages [v, v+n) are mapped on distinct frames that nobody else refers to. */
  ghost predicate SoleRange(counts: seq<RefCount>, view: (int, int) -> Mapping, d: int, v: int, n: nat) {
    && (forall w :: v <= w < v + n ==>
          view(d, w).Mapped? && view(d, w).entry.frame < |counts| && counts[view(d, w).entry.frame] == 1)
    && (forall w, x :: v <= w < x < v + n ==> view(d, w).entry.frame != view(d, x).entry.frame)
  }

  ghost predicate Carries(view: (int, int) -> Mapping, d: int, v: int, n: nat, f: int) {
    exists w :: v <= w < v + n && view(d, w).Mapped? && view(d, w).entry.frame == f
  }

  /** From `was` to `now` exactly the frames of pages [v, v+n) went from free to one reference. */
  ghost predicate Charged(was: seq<RefCount>, now: seq<RefCount>, view: (int, int) -> Mapping, d: int, v: int, n: nat) {
    && |now| == |was| && |FreeSet(now)| + n == |FreeSet(was)|
    && forall f :: 0 <= f < |was| ==>
         if Carries(view, d, v, n, f) then was[f] == 0 && now[f] == 1 else now[f] == was[f]
  }

  /** Of the frames in use, only those behind pages [v, v+n) are referred to more or less often. */
  ghost predicate OnlyCarried(view: (int, int) -> Mapping, d: int, v: int, n: nat, was: seq<RefCount>,
                              now: seq<RefCount>)
  {
    |now| == |was| && forall f :: 0 <= f < |was| && was[f] > 0 && !Carries(view, d, v, n, f) ==> now[f] == was[f]
  }

  /** Of the frames in use, only frame f is referred to more or less often. */
  ghost predicate OnlyOne(was: seq<RefCount>, now: seq<RefCount>, f: int) {
    |now| == |was| && forall g :: 0 <= g < |was| && was[g] > 0 && g != f ==> now[g] == was[g]
  }

  /** No free frame has been taken. */
  ghost predicate NoneTaken(was: seq<RefCount>, now: seq<RefCount>) {
    |now| == |was| && forall f :: 0 <= f < |was| && was[f] == 0 ==> now[f] == 0
  }

  lemma OnlyCarriedStep(view: (int, int) -> Mapping, d: int, v: int, k: nat, was: seq<RefCount>, mid: seq<RefCount>,
                        now: seq<RefCount>)
    requires OnlyCarried(view, d, v, k, was, mid) && view(d, v + k).Mapped?
    requires OnlyOne(mid, now, view(d, v + k).entry.frame)
    ensures OnlyCarried(view, d, v, k + 1, was, now)
  {
    forall f | 0 <= f < |was| { CarriesStep(view, view, d, v, k, f); }
  }

  lemma OnlyCarriedMore(view: (int, int) -> Mapping, d: int, v: int, k: nat, n: nat, was: seq<RefCount>,
                        mid: seq<RefCount>, now: seq<RefCount>)
    requires OnlyCarried(view, d, v, k, was, mid) && k < n && view(d, v + k).Mapped?
    requires OnlyOne(mid, now, view(d, v + k).entry.frame)
    ensures OnlyCarried(view, d, v, n, was, now)
  {
    OnlyCarriedStep(view, d, v, k, was, mid, now);
    forall f | Carries(view, d, v, k + 1, f) ensures Carries(view, d, v, n, f) {
      var w :| v <= w < v + (k + 1) && view(d, w).Mapped? && view(d, w).entry.frame == f;
      assert v <= w < v + n;
    }
  }

  /** Page m is mapped on a frame with one reference. */
  ghost predicate SoleAt(counts: seq<RefCount>, m: Mapping) {
    m.Mapped? && m.entry.frame < |counts| && counts[m.entry.frame] == 1
  }

  /** ... or on one with none. */
  ghost predicate AtMostOneAt(counts: seq<RefCount>, m: Mapping) {
    m.Mapped? && m.entry.frame < |counts| && counts[m.entry.frame] <= 1
  }

  /** What was charged for the pages is known from the result. */
  lemma ChargedOnce(a: seq<RefCount>, b: seq<RefCount>, now: seq<RefCount>, view0: (int, int) -> Mapping, d0: int,
                    view: (int, int) -> Mapping, d: int, v: int, n: nat)
    requires Charged(a, now, view0, d0, v, n) && Charged(b, now, view, d, v, n)
    requires forall w :: v <= w < v + n ==> view(d, w) == view0(d0, w)
    ensures a == b
  {
    forall f | 0 <= f < |a| ensures Carries(view0, d0, v, n, f) <==> Carries(view, d, v, n, f) {
      SameCarried(view0, d0, view, d, v, n, f);
    }
  }

  lemma SameCarried(view0: (int, int) -> Mapping, d0: int, view: (int, int) -> Mapping, d: int, v: int, n: nat, f: int)
    requires forall w :: v <= w < v + n ==> view(d, w) == view0(d0, w)
    ensures Carries(view0, d0, v, n, f) <==> Carries(view, d, v, n, f)
  {
    if Carries(view0, d0, v, n, f) {
      var w :| v <= w < v + n && view0(d0, w).Mapped? && view0(d0, w).entry.frame == f;
      assert view(d, w) == view0(d0, w);
    }
    if Carries(view, d, v, n, f) {
      var w :| v <= w < v + n && view(d, w).Mapped? && view(d, w).entry.frame == f;
      assert view(d, w) == view0(d0, w);
    }
  }

  /** One more reference to frame f. */
  ghost predicate Taken(was: seq<RefCount>, now: seq<RefCount>, f: nat) {
    f < |was| && now == was[f := Inc(was[f])]
  }

  /** One reference less to frame f. */
  ghost predicate Given(was: seq<RefCount>, now: seq<RefCount>, f: nat) {
    f < |was| && was[f] > 0 && now == was[f := Dec(was[f])]
  }

  /** Page m is mapped, and its frame has lost a reference. */
  ghost predicate GivenAt(was: seq<RefCount>, now: seq<RefCount>, m: Mapping) {
    m.Mapped? && Given(was, now, m.entry.frame)
  }

  /** Page m is mapped, and its frame has got one reference more, and then one less. */
  ghost predicate RecountedAt(was: seq<RefCount>, now: seq<RefCount>, m: Mapping) {
    m.Mapped? && m.entry.frame < |was| && now == was[m.entry.frame := Dec(Inc(was[m.entry.frame]))]
  }

  /** Page m is mapped on what was the lowest free frame. */
  ghost predicate LowestAt(was: seq<RefCount>, now: seq<RefCount>, m: Mapping) {
    m.Mapped? && IsLowestFree(was, m.entry.frame) && Taken(was, now, m.entry.frame)
  }

  lemma ChargedNone(counts: seq<RefCount>, view: (int, int) -> Mapping, d: int, v: int)
    ensures Charged(counts, counts, view, d, v, 0)
  {
  }

  lemma CarriesStep(mid: (int, int) -> Mapping, view: (int, int) -> Mapping, d: int, v: int, k: nat, f: int)
    requires forall w :: v <= w < v + k ==> view(d, w) == mid(d, w)
    requires view(d, v + k).Mapped?
    ensures Carries(view, d, v, k + 1, f) <==> Carries(mid, d, v, k, f) || f == view(d, v + k).entry.frame
  {
    if Carries(mid, d, v, k, f) {
      var w :| v <= w < v + k && mid(d, w).Mapped? && mid(d, w).entry.frame == f;
      assert view(d, w) == mid(d, w);
    }
  }

  lemma ChargeStep(was: seq<RefCount>, counts: seq<RefCount>, now: seq<RefCount>, mid: (int, int) -> Mapping,
                   view: (int, int) -> Mapping, d: int, v: int, k: nat)
    requires Charged(was, counts, mid, d, v, k)
    requires forall w :: v <= w < v + k ==> view(d, w) == mid(d, w)
    requires view(d, v + k).Mapped? && Taken(counts, now, view(d, v + k).entry.frame)
             && counts[view(d, v + k).entry.frame] == 0
    ensures Charged(was, now, view, d, v, k + 1)
  {
    FreeSetUpdate(counts, view(d, v + k).entry.frame, 1);
    forall f | 0 <= f < |was| { CarriesStep(mid, view, d, v, k, f); }
  }

  lemma DischargeStep(was: seq<RefCount>, counts: seq<RefCount>, view: (int, int) -> Mapping, d: int, v: int, k: nat,
                      n: nat)
    requires SoleRange(was, view, d, v, n) && k < n && Charged(counts, was, view, d, v, k)
    ensures var f := view(d, v + k).entry.frame;
            counts[f] == 1 && Charged(counts[f := Dec(counts[f])], was, view, d, v, k + 1)
  {
    var f := view(d, v + k).entry.frame;
    assert !Carries(view, d, v, k, f);
    FreeSetUpdate(counts, f, 0);
    forall g | 0 <= g < |was| { CarriesStep(view, view, d, v, k, g); }
  }
}
