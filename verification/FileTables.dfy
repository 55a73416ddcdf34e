/** The system calls on descriptors of pipes, as the processes of a system make them
    in any order (kernel/syscall/fs.c, kernel/fs/fs.c, kernel/process.c,
    kernel/fs/fifo.c). */
module FileTables {
  import opened Words
  import opened RingBuf
  import opened Pipes

  datatype Tables = Tables(of: Slots)

  /** What was ever written to a pipe and read from it. */
  datatype History = History(written: seq<Byte>, taken: seq<Byte>)

  datatype Log = Log(of: map<int, History>)

  datatype FdResult = Fd(fd: int) | BadFd | Exists | TooMany

  datatype PipeResult = Ends(readFd: int, writeFd: int) | NoSlot

  /** Every descriptor of process pid is open. */
  ghost predicate Full(slots: Slots, pid: int) {
    forall i :: 0 <= i < OPEN_MAX ==> Place(pid, i) in slots
  }

  /** Every description that is there leads where it led. */
  ghost predicate SameEnds(was: Descs, now: Descs) {
    forall d :: d in now ==> d in was && now[d].pipe == was[d].pipe && now[d].end == was[d].end
  }

  ghost predicate TwoFree(slots: Slots, pid: int) {
    exists i, j :: 0 <= i < j < OPEN_MAX && Place(pid, i) !in slots && Place(pid, j) !in slots
  }

  /** One pass of the loops in fifo_read and fifo_write; Retry is another pass. */
  datatype ReadResult = Got(bytes: seq<Byte>) | Retry | NotOpen

  datatype WriteResult = Put(n: nat) | Broken | TryAgain | NotWritable

  /** The ring buffers of the pipes; that of a pipe that is gone is nobody's. */
  datatype Buffers = Buffers(of: map<int, RingBuf>)

  /** The bytes taken out are a prefix of those put in. */
  ghost predicate Logged(log: map<int, History>, pipes: Fifos) {
    && (forall p :: p in log ==> log[p].taken <= log[p].written)
    && (forall p :: p in pipes ==> p in log)
  }

  /** What lies between is in the ring buffer of the pipe, its own. */
  ghost predicate Filled(bufs: map<int, RingBuf>, log: map<int, History>, repr: set<object>)
    reads repr
  {
    && (forall p :: p in log ==>
          && p in bufs && bufs[p] in repr && bufs[p].inner in repr
          && bufs[p].Valid() && log[p].written == log[p].taken + bufs[p].Contents())
    && (forall p, q :: p in log && q in log && p in bufs && q in bufs && p != q ==>
          bufs[p] != bufs[q] && bufs[p].inner != bufs[q].inner)
  }

  /** The same for all pipes but p. */
  ghost predicate FilledBut(bufs: map<int, RingBuf>, log: map<int, History>, repr: set<object>, p: int)
    requires p in bufs
    reads repr - {bufs[p], bufs[p].inner}
  {
    && (forall q :: q in log && q != p ==>
          && q in bufs && bufs[q] in repr && bufs[q].inner in repr && bufs[q] != bufs[p]
          && bufs[q].inner != bufs[p].inner
          && bufs[q].Valid() && log[q].written == log[q].taken + bufs[q].Contents())
    && (forall q, r :: q in log && r in log && q in bufs && r in bufs && q != p && r != p && q != r ==>
          bufs[q] != bufs[r] && bufs[q].inner != bufs[r].inner)
  }

  class FileTables {
    var files: Files
    var table: Tables
    var bufs: Buffers
    var nextId: int
    ghost var log: Log
    /** The ring buffers and their arrays. */
    ghost var repr: set<object>

    ghost predicate Valid()
      reads this, repr
    {
      && this !in repr
      && Counted(files.descs, table.of)
      && Ended(files.descs, files.pipes, nextId)
      && Logged(log.of, files.pipes)
      && Filled(bufs.of, log.of, repr)
      && (forall p :: p in log.of ==> p < nextId)
    }

    constructor ()
      ensures Valid() && table.of == map[] && files == Files(map[], map[])
    {
      files, table, bufs, nextId, log := Files(map[], map[]), Tables(map[]), Buffers(map[]), 0, Log(map[]);
      repr := {};
    }

    /** process_alloc_file_descriptor: slot fd, or the lowest free one if fd is negative. */
    method AllocFd(pid: int, fd: int, d: int) returns (r: FdResult)
      modifies this`table
      ensures r.BadFd? <==> fd >= OPEN_MAX
      ensures r.Exists? <==> 0 <= fd < OPEN_MAX && Place(pid, fd) in old(table).of
      ensures r.TooMany? <==> fd < 0 && Full(old(table).of, pid)
      ensures r.Fd? ==> 0 <= r.fd < OPEN_MAX && Place(pid, r.fd) !in old(table).of && (fd >= 0 ==> r.fd == fd)
                        && table.of == old(table).of[Place(pid, r.fd) := d]
      ensures r.Fd? && fd < 0 ==> forall i :: 0 <= i < r.fd ==> Place(pid, i) in old(table).of
      ensures !r.Fd? ==> table == old(table)
    {
      if fd >= OPEN_MAX { return BadFd; }
      if fd >= 0 {
        if Place(pid, fd) in table.of { return Exists; }
        table := Tables(table.of[Place(pid, fd) := d]);
        return Fd(fd);
      }
      for i := 0 to OPEN_MAX
        invariant table == old(table) && forall j :: 0 <= j < i ==> Place(pid, j) in table.of
      {
        if Place(pid, i) !in table.of {
          table := Tables(table.of[Place(pid, i) := d]);
          return Fd(i);
        }
      }
      r := TooMany;
    }

    /** The description behind a descriptor of process pid. */
    function Find(pid: int, fd: int): int
      requires Place(pid, fd) in table.of
      reads this
    {
      table.of[Place(pid, fd)]
    }

    /** sys_close */
    method Close(pid: int, fd: int) returns (ok: bool)
      requires Valid()
      modifies this`files, this`table
      ensures Valid() && ok == (Place(pid, fd) in old(table).of)
      ensures table.of == old(table).of - {Place(pid, fd)}
      ensures ok ==> var d := old(Find(pid, fd)); d in old(files).descs && old(files).descs[d].pipe in old(files).pipes
                                                  && files == CloseDesc(old(files), d)
      ensures !ok ==> files == old(files)
      ensures SameEnds(old(files).descs, files.descs)
    {
      hide Counted, Ended, Logged, Filled, FilledBut, CloseDesc;
      var s := Place(pid, fd);
      if s !in table.of {
        assert table.of - {s} == table.of;
        return false;
      }
      SlotLeads(files.descs, table.of, files.pipes, nextId, s);
      Closed(files, table.of, nextId, s);
      ClosedEndsSame(files, table.of[s]);
      ClosedLog(files, log.of, table.of[s]);
      files := CloseDesc(files, table.of[s]);
      table := Tables(table.of - {s});
      ok := true;
    }

    /** One more descriptor for description d. */
    method Attach(pid: int, fd: int, d: int) returns (r: FdResult)
      requires Valid() && d in files.descs
      modifies this`files, this`table
      ensures Valid()
      ensures r.Fd? ==> 0 <= r.fd < OPEN_MAX && Place(pid, r.fd) !in old(table).of && (fd >= 0 ==> r.fd == fd)
                        && table.of == old(table).of[Place(pid, r.fd) := d]
      ensures r.Fd? ==>
                var x := old(files).descs[d];
                files == old(files).(descs := old(files).descs[d := x.(refs := x.refs + 1)])
      ensures r.Fd? && fd < 0 ==> forall i :: 0 <= i < r.fd ==> Place(pid, i) in old(table).of
      ensures r.BadFd? <==> fd >= OPEN_MAX
      ensures r.Exists? <==> 0 <= fd < OPEN_MAX && Place(pid, fd) in old(table).of
      ensures r.TooMany? <==> fd < 0 && Full(old(table).of, pid)
      ensures !r.Fd? ==> table == old(table) && files == old(files)
    {
      hide Counted, Ended, Logged, Filled;
      ghost var slots := table.of;
      r := AllocFd(pid, fd, d);
      if !r.Fd? { return; }
      Shared(files.descs, slots, files.pipes, nextId, Place(pid, r.fd), d);
      var x := files.descs[d];
      files := files.(descs := files.descs[d := x.(refs := x.refs + 1)]);
    }

    /** F_DUPFD */
    method Dup(pid: int, fd: int) returns (r: FdResult)
      requires Valid()
      modifies this`files, this`table
      ensures Valid()
      ensures r.Fd? ==> Place(pid, fd) in old(table).of && Place(pid, r.fd) !in old(table).of
                        && table.of == old(table).of[Place(pid, r.fd) := old(Find(pid, fd))]
      ensures files.pipes == old(files).pipes && SameEnds(old(files).descs, files.descs)
      ensures r.Fd? ==> forall i :: 0 <= i < r.fd ==> Place(pid, i) in old(table).of
      ensures !r.Exists? && (r.BadFd? <==> Place(pid, fd) !in old(table).of)
      ensures r.TooMany? <==> Place(pid, fd) in old(table).of && Full(old(table).of, pid)
      ensures !r.Fd? ==> table == old(table) && files == old(files)
    {
      hide Counted, Ended, Logged, Filled;
      if Place(pid, fd) !in table.of { return BadFd; }
      SlotLeads(files.descs, table.of, files.pipes, nextId, Place(pid, fd));
      r := Attach(pid, -1, Find(pid, fd));
    }

    /** sys_dup2 on two descriptors: the new one is closed first if it is open. A
        negative new one takes the lowest free slot, as the source lets it. */
    method Dup2(pid: int, fd: int, to: int) returns (r: FdResult)
      requires Valid() && fd != to
      modifies this`files, this`table
      ensures Valid()
      ensures r.Fd? ==> Place(pid, fd) in old(table).of && (to >= 0 ==> r.fd == to)
                        && table.of == (old(table).of - {Place(pid, to)})[Place(pid, r.fd) := old(Find(pid, fd))]
      ensures !r.Fd? ==> table.of == old(table).of && files == old(files)
      ensures SameEnds(old(files).descs, files.descs)
      ensures !r.Exists? && (r.BadFd? <==> Place(pid, fd) !in old(table).of || to >= OPEN_MAX)
      ensures r.TooMany? <==> to < 0 && Place(pid, fd) in old(table).of && Full(old(table).of, pid)
    {
      hide Counted, Ended, Logged, Filled, FilledBut, CloseDesc;
      if Place(pid, fd) !in table.of { return BadFd; }
      InRange(files.descs, table.of);
      var d := Find(pid, fd);
      var closed := Close(pid, to);
      SlotLeads(files.descs, table.of, files.pipes, nextId, Place(pid, fd));
      ghost var slots := table.of;
      r := Attach(pid, to, d);
      assert Place(pid, to) !in slots;
    }

    /** fork: file_descriptor_table_clone_from. */
    method Fork(parent: int, child: int)
      requires Valid() && parent != child && forall i :: Place(child, i) !in table.of
      modifies this`files, this`table
      ensures Valid() && files.pipes == old(files).pipes && SameEnds(old(files).descs, files.descs)
      ensures forall s :: s in table.of <==>
                s in old(table).of || (s.pid == child && Place(parent, s.fd) in old(table).of)
      ensures forall s :: s in old(table).of ==> table.of[s] == old(table).of[s]
      ensures forall i :: Place(child, i) in table.of ==> table.of[Place(child, i)] == old(table).of[Place(parent, i)]
    {
      hide Counted, Ended, Logged, Filled;
      InRange(files.descs, table.of);
      for i := 0 to OPEN_MAX
        invariant Valid() && files.pipes == old(files).pipes && SameEnds(old(files).descs, files.descs)
        invariant forall s :: s in table.of <==>
                    s in old(table).of || (s.pid == child && 0 <= s.fd < i && Place(parent, s.fd) in old(table).of)
        invariant forall s :: s in old(table).of ==> table.of[s] == old(table).of[s]
        invariant forall j :: 0 <= j < i && Place(parent, j) in old(table).of ==>
                    Place(child, j) in table.of && table.of[Place(child, j)] == old(table).of[Place(parent, j)]
      {
        if Place(parent, i) in table.of {
          var d := Find(parent, i);
          SlotLeads(files.descs, table.of, files.pipes, nextId, Place(parent, i));
          Shared(files.descs, table.of, files.pipes, nextId, Place(child, i), d);
          var x := files.descs[d];
          files := files.(descs := files.descs[d := x.(refs := x.refs + 1)]);
          table := Tables(table.of[Place(child, i) := d]);
        }
      }
    }

    /** exit: file_descriptor_table_destroy. */
    method Exit(pid: int)
      requires Valid()
      modifies this`files, this`table
      ensures Valid() && SameEnds(old(files).descs, files.descs)
      ensures forall s :: s in table.of <==> s in old(table).of && s.pid != pid
      ensures forall s :: s in table.of ==> table.of[s] == old(table).of[s]
    {
      hide Counted, Ended, Logged, Filled;
      InRange(files.descs, table.of);
      for i := 0 to OPEN_MAX
        invariant Valid() && SameEnds(old(files).descs, files.descs)
        invariant forall s :: s in table.of <==> s in old(table).of && !(s.pid == pid && 0 <= s.fd < i)
        invariant forall s :: s in table.of ==> table.of[s] == old(table).of[s]
      {
        if Place(pid, i) in table.of { var ok := Close(pid, i); }
      }
    }

    /** ring_buf_init, for pipe p. */
    method AddBuffer(p: int)
      requires Filled(bufs.of, log.of, repr) && this !in repr && p !in log.of
      modifies this`bufs, this`log, this`repr
      ensures Filled(bufs.of, log.of, repr) && this !in repr && log.of == old(log).of[p := History([], [])]
      ensures p in bufs.of && bufs.of[p].Valid() && bufs.of[p].Contents() == []
    {
      hide Filled;
      var buf := new RingBuf();
      BornFilled(bufs.of, log.of, repr, p, buf);
      bufs, repr := Buffers(bufs.of[p := buf]), repr + {buf, buf.inner};
      log := Log(log.of[p := History([], [])]);
    }

    /** A slot for either end, or none at all. */
    method TwoSlots(pid: int, rd: int, wd: int) returns (r: PipeResult)
      modifies this`table
      ensures r.NoSlot? <==> !TwoFree(old(table).of, pid)
      ensures r.NoSlot? ==> table.of == old(table).of
      ensures r.Ends? ==>
                && 0 <= r.readFd < r.writeFd < OPEN_MAX
                && Place(pid, r.readFd) !in old(table).of && Place(pid, r.writeFd) !in old(table).of
                && table.of == old(table).of[Place(pid, r.readFd) := rd][Place(pid, r.writeFd) := wd]
    {
      ghost var slots := table.of;
      var a := AllocFd(pid, -1, rd);
      if !a.Fd? { return NoSlot; }
      var b := AllocFd(pid, -1, wd);
      if !b.Fd? {
        table := Tables(table.of - {Place(pid, a.fd)});
        assert table.of == slots;
        return NoSlot;
      }
      r := Ends(a.fd, b.fd);
    }

    /** sys_pipe. When descriptors run out, both descriptions are closed again, which
        destroys the pipe: nothing is left behind. */
    method MakePipe(pid: int) returns (r: PipeResult)
      requires Valid()
      modifies this`files, this`table, this`bufs, this`nextId, this`log, this`repr
      ensures Valid()
      ensures r.NoSlot? <==> !TwoFree(old(table).of, pid)
      ensures r.NoSlot? ==> files == old(files) && table.of == old(table).of
      ensures r.Ends? ==>
                var s, t := Place(pid, r.readFd), Place(pid, r.writeFd);
                && s !in old(table).of && t !in old(table).of && s != t && s in table.of && t in table.of
                && table.of == old(table).of[s := table.of[s]][t := table.of[t]]
                && table.of[s] in files.descs && table.of[t] in files.descs
                && files.descs[table.of[s]].end == ReadEnd && files.descs[table.of[t]].end == WriteEnd
                && files.descs[table.of[s]].pipe == files.descs[table.of[t]].pipe == old(nextId)
                && old(nextId) !in old(files).pipes && files.pipes == old(files).pipes[old(nextId) := Pipe(1, 1, 2)]
                && files.descs == old(files).descs[table.of[s] := Desc(old(nextId), ReadEnd, 1)]
                                                  [table.of[t] := Desc(old(nextId), WriteEnd, 1)]
                && table.of[s] !in old(files).descs && table.of[t] !in old(files).descs && table.of[s] != table.of[t]
                && old(nextId) in bufs.of && bufs.of[old(nextId)].Valid() && bufs.of[old(nextId)].Contents() == []
                && log.of == old(log).of[old(nextId) := History([], [])]
    {
      hide Counted, Ended, Logged, Filled, CloseDesc, TwoFree;
      ghost var slots := table.of;
      var before := files;
      var p, rd, wd := nextId, nextId + 1, nextId + 2;
      NewIds(before.descs, before.pipes, nextId);
      files := Files(files.descs[rd := Desc(p, ReadEnd, 1)][wd := Desc(p, WriteEnd, 1)],
                     files.pipes[p := Pipe(1, 1, 2)]);
      Undone(before, p, rd, wd);
      r := TwoSlots(pid, rd, wd);
      if r.NoSlot? {
        files := CloseDesc(CloseDesc(files, rd), wd);
        return;
      }
      Born(before.descs, slots, before.pipes, nextId, nextId + 3, p, rd, wd, Place(pid, r.readFd),
           Place(pid, r.writeFd));
      BornLog(log.of, before.pipes, p, nextId);
      AddBuffer(p);
      nextId := nextId + 3;
    }

    /** read_should_unblock */
    predicate ReadReady(p: int)
      requires p in files.pipes && p in bufs.of
      reads this, bufs.of[p]
    {
      files.pipes[p].writers == 0 || !bufs.of[p].IsEmpty()
    }

    /** fifo_read under the lock of the buffer. It comes back empty-handed only when
        asked for nothing, or when the buffer is drained and no descriptor anywhere leads
        to a write end; and it goes for another pass only if it was not to be woken. */
    method TryRead(pid: int, fd: int, count: nat) returns (r: ReadResult)
      requires Valid()
      modifies this`log, repr
      ensures Valid()
      ensures r.NotOpen? <==> !(Place(pid, fd) in table.of && Leads(files.descs, Find(pid, fd), ReadEnd))
      ensures r.NotOpen? ==> log == old(log)
      ensures !r.NotOpen? ==>
                var p := files.descs[Find(pid, fd)].pipe;
                && p in files.pipes && p in bufs.of && bufs.of[p].Valid() && old(bufs.of[p].Valid()) && p in old(log).of
                && (r.Retry? <==> !old(ReadReady(p)))
                && (r.Retry? <==>
                      old(bufs.of[p].Contents()) == [] && !NoneOpen(files.descs, table.of, p, WriteEnd))
                && (r.Got? ==>
                      && |r.bytes| == Min(count, |old(bufs.of[p].Contents())|)
                      && old(bufs.of[p].Contents()) == r.bytes + bufs.of[p].Contents()
                      && log.of == old(log).of[p := old(log).of[p].(taken := old(log).of[p].taken + r.bytes)])
                && (r.Got? && r.bytes == [] && count > 0 ==>
                      old(bufs.of[p].Contents()) == [] && NoneOpen(files.descs, table.of, p, WriteEnd))
                && (!r.Got? ==> log == old(log))
    {
      hide Counted, Ended, Logged, Filled, FilledBut, NoneOpen;
      var s := Place(pid, fd);
      if s !in table.of { return NotOpen; }
      SlotLeads(files.descs, table.of, files.pipes, nextId, s);
      var d := files.descs[Find(pid, fd)];
      if d.end.WriteEnd? { return NotOpen; }
      var p := d.pipe;
      LogHas(log.of, files.pipes, p);
      HasBuffer(bufs.of, log.of, repr, p);
      var buf := bufs.of[p];
      buf.EmptyAndFull();
      if buf.IsEmpty() {
        NoEndLeft(files.descs, table.of, files.pipes, nextId, p, WriteEnd);
        NoneOpenIs(files.descs, table.of, p, WriteEnd);
        assert log.of[p].(taken := log.of[p].taken + []) == log.of[p];
        return if files.pipes[p].writers == 0 then Got([]) else Retry;
      }
      ghost var h := log.of[p];
      var bytes := buf.Read(count);
      Refilled(bufs.of, log.of, repr, p, h.(taken := h.taken + bytes));
      LogTaken(log.of, files.pipes, p, bytes);
      log := Log(log.of[p := h.(taken := h.taken + bytes)]);
      r := Got(bytes);
    }

    /** write_should_unblock */
    predicate WriteReady(p: int)
      requires p in files.pipes && p in bufs.of
      reads this, bufs.of[p]
    {
      files.pipes[p].readers == 0 || !bufs.of[p].IsFull()
    }

    /** fifo_write under the lock of the buffer. It breaks exactly when no descriptor
        anywhere leads to a read end. */
    method TryWrite(pid: int, fd: int, bytes: seq<Byte>) returns (r: WriteResult)
      requires Valid()
      modifies this`log, repr
      ensures Valid()
      ensures r.NotWritable? <==> !(Place(pid, fd) in table.of && Leads(files.descs, Find(pid, fd), WriteEnd))
      ensures !r.Put? ==> log == old(log)
      ensures !r.NotWritable? ==>
                var p := files.descs[Find(pid, fd)].pipe;
                && p in files.pipes && p in bufs.of && bufs.of[p].Valid() && old(bufs.of[p].Valid()) && p in old(log).of
                && (r.TryAgain? <==> !old(WriteReady(p)))
                && (r.TryAgain? <==>
                      |old(bufs.of[p].Contents())| == ROOM && !NoneOpen(files.descs, table.of, p, ReadEnd))
                && (r.Broken? <==> NoneOpen(files.descs, table.of, p, ReadEnd))
                && (r.Put? ==>
                      && r.n == Min(|bytes|, ROOM - |old(bufs.of[p].Contents())|)
                      && bufs.of[p].Contents() == old(bufs.of[p].Contents()) + bytes[..r.n]
                      && log.of == old(log).of[p := old(log).of[p].(written := old(log).of[p].written + bytes[..r.n])])
    {
      hide Counted, Ended, Logged, Filled, FilledBut, NoneOpen;
      var s := Place(pid, fd);
      if s !in table.of { return NotWritable; }
      SlotLeads(files.descs, table.of, files.pipes, nextId, s);
      var d := files.descs[Find(pid, fd)];
      if d.end.ReadEnd? { return NotWritable; }
      var p := d.pipe;
      LogHas(log.of, files.pipes, p);
      HasBuffer(bufs.of, log.of, repr, p);
      NoEndLeft(files.descs, table.of, files.pipes, nextId, p, ReadEnd);
      NoneOpenIs(files.descs, table.of, p, ReadEnd);
      var buf := bufs.of[p];
      buf.EmptyAndFull();
      if files.pipes[p].readers == 0 { return Broken; }
      if buf.IsFull() { return TryAgain; }
      ghost var h := log.of[p];
      var n := buf.Write(bytes);
      Refilled(bufs.of, log.of, repr, p, h.(written := h.written + bytes[..n]));
      LogWritten(log.of, files.pipes, p, bytes[..n]);
      log := Log(log.of[p := h.(written := h.written + bytes[..n])]);
      r := Put(n);
    }
  }

  /** Description d is an end of this kind. */
  predicate Leads(descs: Descs, d: int, e: End) {
    d in descs && descs[d].end == e
  }

  /** No descriptor of any process leads to this end of the pipe. */
  ghost predicate NoneOpen(descs: Descs, slots: Slots, p: int, e: End) {
    forall s :: s in slots && slots[s] in descs ==> !(descs[slots[s]].pipe == p && descs[slots[s]].end == e)
  }

  lemma NoneOpenIs(descs: Descs, slots: Slots, p: int, e: End)
    ensures NoneOpen(descs, slots, p, e) <==>
              forall s :: s in slots && slots[s] in descs ==> !(descs[slots[s]].pipe == p && descs[slots[s]].end == e)
  {
  }

  lemma HasBuffer(bufs: map<int, RingBuf>, log: map<int, History>, repr: set<object>, p: int)
    requires Filled(bufs, log, repr) && p in log
    ensures p in bufs && bufs[p] in repr && bufs[p].inner in repr && FilledBut(bufs, log, repr, p)
    ensures bufs[p].Valid() && log[p].written == log[p].taken + bufs[p].Contents()
  {
  }

  /** Only the buffer of pipe p has changed, and h is what the record says now. */
  lemma Refilled(bufs: map<int, RingBuf>, log: map<int, History>, repr: set<object>, p: int, h: History)
    requires p in bufs && FilledBut(bufs, log, repr, p) && bufs[p] in repr && bufs[p].inner in repr
    requires bufs[p].Valid() && h.written == h.taken + bufs[p].Contents()
    ensures Filled(bufs, log[p := h], repr)
  {
  }

  lemma LogHas(log: map<int, History>, pipes: Fifos, p: int)
    requires Logged(log, pipes) && p in pipes
    ensures p in log
  {
  }

  lemma LogTaken(log: map<int, History>, pipes: Fifos, p: int, bytes: seq<Byte>)
    requires Logged(log, pipes) && p in log && log[p].taken + bytes <= log[p].written
    ensures Logged(log[p := log[p].(taken := log[p].taken + bytes)], pipes)
  {
  }

  lemma LogWritten(log: map<int, History>, pipes: Fifos, p: int, bytes: seq<Byte>)
    requires Logged(log, pipes) && p in log
    ensures Logged(log[p := log[p].(written := log[p].written + bytes)], pipes)
  {
  }

  /** A new pipe has an empty buffer that nobody had. */
  lemma BornFilled(bufs: map<int, RingBuf>, log: map<int, History>, repr: set<object>, p: int, buf: RingBuf)
    requires Filled(bufs, log, repr) && p !in log && buf.Valid() && buf.Contents() == []
    requires buf !in repr && buf.inner !in repr
    ensures Filled(bufs[p := buf], log[p := History([], [])], repr + {buf, buf.inner})
  {
  }

  lemma SlotLeads(descs: Descs, slots: Slots, pipes: Fifos, nextId: int, s: Place)
    requires Counted(descs, slots) && Ended(descs, pipes, nextId) && s in slots
    ensures slots[s] in descs && descs[slots[s]].pipe in pipes && 0 <= s.fd < OPEN_MAX
  {
    var d := slots[s];
    assert d in descs;
    assert descs[d].pipe in pipes;
  }

  lemma InRange(descs: Descs, slots: Slots)
    requires Counted(descs, slots)
    ensures forall s :: s in slots ==> 0 <= s.fd < OPEN_MAX
  {
  }

  lemma NewIds(descs: Descs, pipes: Fifos, nextId: int)
    requires Ended(descs, pipes, nextId)
    ensures forall d :: d in descs ==> d < nextId
    ensures forall p :: p in pipes ==> p < nextId
  {
  }

  /** Closing both descriptions of a new pipe. */
  lemma Undone(f: Files, p: int, r: int, w: int)
    requires r !in f.descs && w !in f.descs && r != w && p !in f.pipes
    ensures var g := Files(f.descs[r := Desc(p, ReadEnd, 1)][w := Desc(p, WriteEnd, 1)], f.pipes[p := Pipe(1, 1, 2)]);
            var h := CloseDesc(g, r);
            w in h.descs && h.descs[w].pipe in h.pipes && CloseDesc(h, w) == f
  {
    var g := Files(f.descs[r := Desc(p, ReadEnd, 1)][w := Desc(p, WriteEnd, 1)], f.pipes[p := Pipe(1, 1, 2)]);
    var h := CloseDesc(g, r);
    assert CloseDesc(h, w).descs == f.descs;
    assert CloseDesc(h, w).pipes == f.pipes;
  }

  lemma BornLog(log: map<int, History>, pipes: Fifos, p: int, nextId: int)
    requires Logged(log, pipes) && p !in pipes
    ensures Logged(log[p := History([], [])], pipes[p := Pipe(1, 1, 2)])
  {
  }

  lemma ClosedEndsSame(f: Files, d: int)
    requires d in f.descs && f.descs[d].pipe in f.pipes
    ensures SameEnds(f.descs, CloseDesc(f, d).descs)
  {
  }

  /** Closing a description drops no byte of the record. */
  lemma ClosedLog(f: Files, log: map<int, History>, d: int)
    requires Logged(log, f.pipes) && d in f.descs && f.descs[d].pipe in f.pipes
    ensures Logged(log, CloseDesc(f, d).pipes)
  {
  }
}
