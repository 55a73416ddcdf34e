/** memset and memcpy through an address space: byte by byte, whatever frames the
    pages are on. */
module Bytes {
  import opened Frames
  import opened Words
  import opened Tables
  import opened Ledger
  import opened Paging

  /** Pages [v, v+m) are mapped, on distinct frames. */
  ghost predicate Spread(view: (int, int) -> Mapping, d: int, frames: nat, v: int, m: nat) {
    && (forall w :: v <= w < v + m ==> view(d, w).Mapped? && view(d, w).entry.frame < frames)
    && (forall w, x :: v <= w < x < v + m ==> view(d, w).entry.frame != view(d, x).entry.frame)
  }

  /** Byte o of page w. */
  ghost function ByteOf(pages: seq<Page>, view: (int, int) -> Mapping, d: int, w: int, o: int): int
    requires view(d, w).Mapped? && view(d, w).entry.frame < |pages| && 0 <= o < PAGE_SIZE
  {
    pages[view(d, w).entry.frame][o] as int
  }

  /** From `was` to `now`, the bytes from address `start` on have become `bytes`; every
      other byte of pages [v, v+m) and every frame behind none of them is as before. */
  ghost predicate Painted(was: seq<Page>, now: seq<Page>, view: (int, int) -> Mapping, d: int, v: int, m: nat,
                          start: int, bytes: seq<Byte>)
    requires Spread(view, d, |was|, v, m)
  {
    && |now| == |was|
    && (forall w, o {:trigger ByteOf(now, view, d, w, o)} :: v <= w < v + m && 0 <= o < PAGE_SIZE ==>
          ByteOf(now, view, d, w, o) ==
            if start <= w * PAGE_SIZE + o < start + |bytes| then bytes[w * PAGE_SIZE + o - start] as int
            else ByteOf(was, view, d, w, o))
    && (forall f :: 0 <= f < |was| && (forall w :: v <= w < v + m ==> view(d, w).entry.frame != f) ==> now[f] == was[f])
  }

  lemma PaintStep(was: seq<Page>, mid: seq<Page>, now: seq<Page>, view: (int, int) -> Mapping, d: int, v: int, m: nat,
                  start: int, bytes: seq<Byte>, x: Byte, w0: int, o0: int)
    requires Spread(view, d, |was|, v, m) && Painted(was, mid, view, d, v, m, start, bytes)
    requires v <= w0 < v + m && 0 <= o0 < PAGE_SIZE && w0 * PAGE_SIZE + o0 == start + |bytes|
    requires now == mid[view(d, w0).entry.frame := mid[view(d, w0).entry.frame][o0 := x]]
    ensures Painted(was, now, view, d, v, m, start, bytes + [x])
  {
    forall w, o | v <= w < v + m && 0 <= o < PAGE_SIZE
      ensures ByteOf(now, view, d, w, o) ==
                if start <= w * PAGE_SIZE + o < start + |bytes + [x]|
                   then (bytes + [x])[w * PAGE_SIZE + o - start] as int
                else ByteOf(was, view, d, w, o)
    {
      assert ByteOf(mid, view, d, w, o) ==
               if start <= w * PAGE_SIZE + o < start + |bytes| then bytes[w * PAGE_SIZE + o - start] as int
               else ByteOf(was, view, d, w, o);
      if w == w0 && o == o0 {
        assert ByteOf(now, view, d, w, o) == x as int;
      } else {
        assert w * PAGE_SIZE + o != start + |bytes|;
        if w < w0 { assert view(d, w).entry.frame != view(d, w0).entry.frame; }
        if w0 < w { assert view(d, w).entry.frame != view(d, w0).entry.frame; }
        assert ByteOf(now, view, d, w, o) == ByteOf(mid, view, d, w, o);
      }
    }
  }

  /** Only frames behind pages [v, v+m) have other bytes. */
  ghost predicate OnRun(was: seq<Page>, now: seq<Page>, view: (int, int) -> Mapping, d: int, v: int, m: nat) {
    |now| == |was| && forall f :: 0 <= f < |now| && !Carries(view, d, v, m, f) ==> now[f] == was[f]
  }

  lemma PaintedOnRun(was: seq<Page>, mid: seq<Page>, now: seq<Page>, view: (int, int) -> Mapping, d: int, v: int,
                     m: nat, start: int, bytes: seq<Byte>)
    requires Spread(view, d, |mid|, v, m) && OnRun(was, mid, view, d, v, m)
             && Painted(mid, now, view, d, v, m, start, bytes)
    ensures OnRun(was, now, view, d, v, m)
  {
    forall f | 0 <= f < |now| && !Carries(view, d, v, m, f) ensures now[f] == mid[f] {
      forall w | v <= w < v + m ensures view(d, w).entry.frame != f { }
    }
  }

  lemma PaintedZeros(was: seq<Page>, now: seq<Page>, view: (int, int) -> Mapping, d: int, v: int, m: nat, start: int,
                     n: nat)
    requires Spread(view, d, |was|, v, m) && Painted(was, now, view, d, v, m, start, seq(n, _ => 0))
    ensures Zeroed(now, view, d, v, m, start, n)
  {
  }

  /** The bytes from address `start` on are zero. */
  ghost predicate Zeroed(pages: seq<Page>, view: (int, int) -> Mapping, d: int, v: int, m: nat, start: int, n: nat) {
    && Spread(view, d, |pages|, v, m)
    && forall w, o {:trigger ByteOf(pages, view, d, w, o)} ::
         v <= w < v + m && 0 <= o < PAGE_SIZE && start <= w * PAGE_SIZE + o < start + n ==>
           ByteOf(pages, view, d, w, o) == 0
  }

  /** Words below the painted bytes stay. */
  lemma WordKept(was: seq<Page>, now: seq<Page>, view: (int, int) -> Mapping, d: int, v: int, m: nat, start: int,
                 bytes: seq<Byte>, off: nat)
    requires Spread(view, d, |was|, v, m) && Painted(was, now, view, d, v, m, start, bytes) && m > 0
    requires off + 4 <= PAGE_SIZE && v * PAGE_SIZE + off + 4 <= start
    ensures Load32(now[view(d, v).entry.frame], off) == Load32(was[view(d, v).entry.frame], off)
  {
    forall o | off <= o < off + 4 ensures now[view(d, v).entry.frame][o] == was[view(d, v).entry.frame][o] {
      assert ByteOf(now, view, d, v, o) == ByteOf(was, view, d, v, o);
    }
  }

  method Memset(vm: Paging, start: int, x: Byte, n: nat, ghost v: int, ghost m: nat)
    requires vm.Valid() && Spread(vm.view, vm.current, |vm.ram.pages|, v, m)
    requires v * PAGE_SIZE <= start && start + n <= (v + m) * PAGE_SIZE
    modifies vm`ram
    ensures vm.Valid() && vm.ram == old(vm.ram).(pages := vm.ram.pages)
    ensures Painted(old(vm.ram.pages), vm.ram.pages, vm.view, vm.current, v, m, start, seq(n, _ => x))
  {
    ghost var bytes: seq<Byte> := [];
    for i := 0 to n
      invariant vm.Valid() && vm.ram == old(vm.ram).(pages := vm.ram.pages)
      invariant bytes == seq(i, _ => x) && Painted(old(vm.ram.pages), vm.ram.pages, vm.view, vm.current, v, m, start,
                                                   bytes)
    {
      ghost var mid := vm.ram.pages;
      var w, o := (start + i) / PAGE_SIZE, (start + i) % PAGE_SIZE;
      vm.StoreByte(w, o, x);
      PaintStep(old(vm.ram.pages), mid, vm.ram.pages, vm.view, vm.current, v, m, start, bytes, x, w, o);
      bytes := bytes + [x];
    }
  }

  method Memcpy(vm: Paging, start: int, bytes: seq<Byte>, ghost v: int, ghost m: nat)
    requires vm.Valid() && Spread(vm.view, vm.current, |vm.ram.pages|, v, m)
    requires v * PAGE_SIZE <= start && start + |bytes| <= (v + m) * PAGE_SIZE
    modifies vm`ram
    ensures vm.Valid() && vm.ram == old(vm.ram).(pages := vm.ram.pages)
    ensures Painted(old(vm.ram.pages), vm.ram.pages, vm.view, vm.current, v, m, start, bytes)
  {
    for i := 0 to |bytes|
      invariant vm.Valid() && vm.ram == old(vm.ram).(pages := vm.ram.pages)
      invariant Painted(old(vm.ram.pages), vm.ram.pages, vm.view, vm.current, v, m, start, bytes[..i])
    {
      ghost var mid := vm.ram.pages;
      var w, o := (start + i) / PAGE_SIZE, (start + i) % PAGE_SIZE;
      vm.StoreByte(w, o, bytes[i]);
      PaintStep(old(vm.ram.pages), mid, vm.ram.pages, vm.view, vm.current, v, m, start, bytes[..i], bytes[i], w, o);
      assert bytes[..i + 1] == bytes[..i] + [bytes[i]];
    }
    assert bytes[..|bytes|] == bytes;
  }
}
