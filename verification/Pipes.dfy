/** Pipes and the descriptors that lead to them (kernel/fs/fifo.c, kernel/fs/fs.c,
    kernel/process.c, kernel/syscall/fs.c). Descriptor tables are one map from
    place to description, as processes share descriptions. */
module Pipes {
  import opened Basics

  const OPEN_MAX := 1024

  datatype End = ReadEnd | WriteEnd

  /** struct file_description, of a pipe. */
  datatype Desc = Desc(pipe: int, end: End, refs: int)

  /** struct fifo, but for its buffer: its counters, and the references to its inode. */
  datatype Pipe = Pipe(readers: int, writers: int, refs: int)

  datatype Place = Place(pid: int, fd: int)

  type Slots = map<Place, int>
  type Descs = map<int, Desc>
  type Fifos = map<int, Pipe>

  datatype Files = Files(descs: Descs, pipes: Fifos)

  ghost function At(slots: Slots, d: int): set<Place> {
    set s | s in slots && slots[s] == d
  }

  ghost function Ends(descs: Descs, p: int, e: End): set<int> {
    set d | d in descs && descs[d].pipe == p && descs[d].end == e
  }

  /** A description is referred to as often as table slots point at it, and a pipe has
      as many readers and writers as it has descriptions of either kind. */
  ghost predicate Counted(descs: Descs, slots: Slots) {
    && (forall s :: s in slots ==> slots[s] in descs && 0 <= s.fd < OPEN_MAX)
    && (forall d {:trigger descs[d]} :: d in descs ==> descs[d].refs == |At(slots, d)| && descs[d].refs > 0)
  }

  ghost predicate Ended(descs: Descs, pipes: Fifos, nextId: int) {
    && (forall d {:trigger descs[d]} :: d in descs ==> descs[d].pipe in pipes && d < nextId)
    && (forall p {:trigger pipes[p]} :: p in pipes ==>
          && pipes[p].readers == |Ends(descs, p, ReadEnd)| && pipes[p].writers == |Ends(descs, p, WriteEnd)|
          && pipes[p].refs == pipes[p].readers + pipes[p].writers && pipes[p].refs > 0
          && p < nextId)
  }

  // ----- file_description_close -----

  /** fifo_close and inode_unref, for a description of pipe p with end e. */
  function Leave(pipes: Fifos, p: int, e: End): Fifos
    requires p in pipes
  {
    var x := pipes[p];
    var y := if e.ReadEnd? then x.(readers := x.readers - 1, refs := x.refs - 1)
             else x.(writers := x.writers - 1, refs := x.refs - 1);
    if y.refs == 0 then pipes - {p} else pipes[p := y]
  }

  function CloseDesc(f: Files, d: int): Files
    requires d in f.descs && f.descs[d].pipe in f.pipes
  {
    var x := f.descs[d];
    if x.refs > 1 then f.(descs := f.descs[d := x.(refs := x.refs - 1)])
    else Files(f.descs - {d}, Leave(f.pipes, x.pipe, x.end))
  }

  lemma AtLess(slots: Slots, s: Place, d: int)
    requires s in slots
    ensures |At(slots - {s}, d)| == |At(slots, d)| - if slots[s] == d then 1 else 0
  {
    assert s in At(slots, d) <==> slots[s] == d;
    assert At(slots - {s}, d) == At(slots, d) - {s};
  }

  lemma AtMore(slots: Slots, s: Place, d: int, e: int)
    requires s !in slots
    ensures |At(slots[s := d], e)| == |At(slots, e)| + if e == d then 1 else 0
  {
    assert At(slots[s := d], e) == if e == d then At(slots, e) + {s} else At(slots, e);
  }

  lemma EndsLess(descs: Descs, d: int, p: int, e: End)
    requires d in descs
    ensures |Ends(descs - {d}, p, e)| == |Ends(descs, p, e)| - if descs[d].pipe == p && descs[d].end == e then 1 else 0
  {
    assert d in Ends(descs, p, e) <==> descs[d].pipe == p && descs[d].end == e;
    assert Ends(descs - {d}, p, e) == Ends(descs, p, e) - {d};
  }

  lemma EndsMore(descs: Descs, d: int, x: Desc, p: int, e: End)
    requires d !in descs
    ensures |Ends(descs[d := x], p, e)| == |Ends(descs, p, e)| + if x.pipe == p && x.end == e then 1 else 0
  {
    hide Ends;
    EndsLess(descs[d := x], d, p, e);
    assert descs[d := x] - {d} == descs;
  }

  lemma EndsSame(descs: Descs, d: int, x: Desc, p: int, e: End)
    requires d in descs && x.pipe == descs[d].pipe && x.end == descs[d].end
    ensures Ends(descs[d := x], p, e) == Ends(descs, p, e)
  {
  }

  /** Closing the description in slot s and clearing the slot. */
  lemma Closed(f: Files, slots: Slots, nextId: int, s: Place)
    requires Counted(f.descs, slots) && Ended(f.descs, f.pipes, nextId) && s in slots
    ensures var g := CloseDesc(f, slots[s]); Counted(g.descs, slots - {s}) && Ended(g.descs, g.pipes, nextId)
  {
    var d := slots[s];
    var g, after := CloseDesc(f, d), slots - {s};
    forall e | e in g.descs ensures g.descs[e].refs == |At(after, e)| && g.descs[e].refs > 0 {
      AtLess(slots, s, e);
      assert f.descs[e].refs == |At(slots, e)|;
    }
    forall t | t in after ensures after[t] in g.descs {
      if after[t] == d && f.descs[d].refs == 1 {
        assert {s, t} <= At(slots, d);
        SubsetSize({s, t}, At(slots, d));
        assert false;
      }
    }
    ClosedEnds(f, nextId, d);
  }

  ghost predicate GoneFrom(was: Descs, now: Descs, x: Desc, p: int) {
    && |Ends(now, p, ReadEnd)| == |Ends(was, p, ReadEnd)| - (if x.pipe == p && x.end.ReadEnd? then 1 else 0)
    && |Ends(now, p, WriteEnd)| == |Ends(was, p, WriteEnd)| - (if x.pipe == p && x.end.WriteEnd? then 1 else 0)
  }

  /** The number of references to a description is nothing to its pipe. */
  lemma SharedEnds(descs: Descs, pipes: Fifos, nextId: int, d: int, x: Desc)
    requires Ended(descs, pipes, nextId) && d in descs && x == descs[d].(refs := x.refs)
    ensures Ended(descs[d := x], pipes, nextId)
  {
    forall p | p in pipes
      ensures Ends(descs[d := x], p, ReadEnd) == Ends(descs, p, ReadEnd)
      ensures Ends(descs[d := x], p, WriteEnd) == Ends(descs, p, WriteEnd)
    {
      EndsSame(descs, d, x, p, ReadEnd);
      EndsSame(descs, d, x, p, WriteEnd);
    }
  }

  lemma ClosedEnds(f: Files, nextId: int, d: int)
    requires Ended(f.descs, f.pipes, nextId) && d in f.descs && f.descs[d].refs > 0
    ensures var g := CloseDesc(f, d); Ended(g.descs, g.pipes, nextId)
  {
    var x, g := f.descs[d], CloseDesc(f, d);
    if x.refs > 1 {
      SharedEnds(f.descs, f.pipes, nextId, d, x.(refs := x.refs - 1));
      return;
    }
    forall p | p in f.pipes ensures GoneFrom(f.descs, g.descs, x, p) {
      EndsLess(f.descs, d, p, ReadEnd);
      EndsLess(f.descs, d, p, WriteEnd);
    }
    forall e | e in g.descs ensures g.descs[e].pipe in g.pipes {
      assert f.descs[e].pipe in f.pipes;
      if f.descs[e].pipe == x.pipe && x.refs <= 1 {
        assert e in Ends(g.descs, x.pipe, f.descs[e].end);
      }
    }
  }

  /** One more slot for description d. */
  lemma Shared(descs: Descs, slots: Slots, pipes: Fifos, nextId: int, s: Place, d: int)
    requires Counted(descs, slots) && Ended(descs, pipes, nextId) && s !in slots && 0 <= s.fd < OPEN_MAX && d in descs
    ensures var x := descs[d].(refs := descs[d].refs + 1);
            Counted(descs[d := x], slots[s := d]) && Ended(descs[d := x], pipes, nextId)
  {
    hide Ended;
    var x := descs[d].(refs := descs[d].refs + 1);
    var descs', slots' := descs[d := x], slots[s := d];
    forall e | e in descs' ensures descs'[e].refs == |At(slots', e)| {
      AtMore(slots, s, d, e);
      assert descs[e].refs == |At(slots, e)|;
    }
    SharedEnds(descs, pipes, nextId, d, x);
  }

  /** A pipe is born with one description of either end, in two slots. */
  lemma Born(descs: Descs, slots: Slots, pipes: Fifos, nextId: int, top: int, p: int, r: int, w: int, s: Place,
             t: Place)
    requires Counted(descs, slots) && Ended(descs, pipes, nextId)
    requires nextId <= p && nextId <= r && nextId <= w && r != w && s !in slots && t !in slots && s != t
    requires 0 <= s.fd < OPEN_MAX && 0 <= t.fd < OPEN_MAX && top > p && top > r && top > w
    ensures var descs' := descs[r := Desc(p, ReadEnd, 1)][w := Desc(p, WriteEnd, 1)];
            Counted(descs', slots[s := r][t := w]) && Ended(descs', pipes[p := Pipe(1, 1, 2)], top)
  {
    BornCounted(descs, slots, p, r, w, s, t, nextId);
    BornEnded(descs, pipes, nextId, top, p, r, w);
  }

  lemma BornCounted(descs: Descs, slots: Slots, p: int, r: int, w: int, s: Place, t: Place, nextId: int)
    requires Counted(descs, slots) && (forall d :: d in descs ==> d < nextId) && nextId <= r && nextId <= w && r != w
    requires s !in slots && t !in slots && s != t && 0 <= s.fd < OPEN_MAX && 0 <= t.fd < OPEN_MAX
    ensures Counted(descs[r := Desc(p, ReadEnd, 1)][w := Desc(p, WriteEnd, 1)], slots[s := r][t := w])
  {
    var descs' := descs[r := Desc(p, ReadEnd, 1)][w := Desc(p, WriteEnd, 1)];
    forall e | e in descs' ensures descs'[e].refs == |At(slots[s := r][t := w], e)| {
      AtMore(slots, s, r, e);
      AtMore(slots[s := r], t, w, e);
      if e == r || e == w { assert At(slots, e) == {}; } else { assert descs[e].refs == |At(slots, e)|; }
    }
  }

  lemma BornEnded(descs: Descs, pipes: Fifos, nextId: int, top: int, p: int, r: int, w: int)
    requires Ended(descs, pipes, nextId) && nextId <= p && nextId <= r && nextId <= w && r != w
    requires top > p && top > r && top > w
    ensures Ended(descs[r := Desc(p, ReadEnd, 1)][w := Desc(p, WriteEnd, 1)], pipes[p := Pipe(1, 1, 2)], top)
  {
    var d1 := descs[r := Desc(p, ReadEnd, 1)];
    var descs' := d1[w := Desc(p, WriteEnd, 1)];
    forall q | q in pipes || q == p
      ensures |Ends(descs', q, ReadEnd)| == |Ends(descs, q, ReadEnd)| + (if q == p then 1 else 0)
      ensures |Ends(descs', q, WriteEnd)| == |Ends(descs, q, WriteEnd)| + (if q == p then 1 else 0)
    {
      EndsMore(descs, r, Desc(p, ReadEnd, 1), q, ReadEnd);
      EndsMore(descs, r, Desc(p, ReadEnd, 1), q, WriteEnd);
      EndsMore(d1, w, Desc(p, WriteEnd, 1), q, ReadEnd);
      EndsMore(d1, w, Desc(p, WriteEnd, 1), q, WriteEnd);
    }
    assert Ends(descs, p, ReadEnd) == {} && Ends(descs, p, WriteEnd) == {} by {
      forall d | d in descs ensures descs[d].pipe != p { }
    }
  }

  /** A pipe without writers has no slot anywhere that points at a write end. */
  lemma NoEndLeft(descs: Descs, slots: Slots, pipes: Fifos, nextId: int, p: int, e: End)
    requires Counted(descs, slots) && Ended(descs, pipes, nextId) && p in pipes
    ensures (if e.ReadEnd? then pipes[p].readers else pipes[p].writers) == 0 <==>
              forall s :: s in slots && slots[s] in descs ==> !(descs[slots[s]].pipe == p && descs[slots[s]].end == e)
  {
    if Ends(descs, p, e) != {} {
      var d := Member(Ends(descs, p, e));
      assert descs[d].refs == |At(slots, d)|;
      var s := Member(At(slots, d));
      assert slots[s] == d;
    }
    forall s | s in slots && slots[s] in descs && descs[slots[s]].pipe == p && descs[slots[s]].end == e
      ensures Ends(descs, p, e) != {}
    {
      assert slots[s] in Ends(descs, p, e);
    }
  }
}
