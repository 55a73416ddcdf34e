/** Reading a directory: getdents packs entries into a buffer (kernel/fs/dentry.c,
    kernel/fs/fs.c), and readdir unpacks and refills it (userland/lib/dirent.c). */
module Readdir {
  import opened CStrings
  import opened Words

  /** A directory entry: its name and the type of its inode. */
  datatype Entry = Entry(name: Bytes, kind: Byte)

  /** offsetof(struct dirent, d_name) */
  const HEADER := 4

  /** The size of a record, in a record length of 16 bits. */
  function Size(x: Entry): nat {
    HEADER + |x.name| + 1
  }

  /** A name whose record length fits in its 16 bits. */
  predicate Named(x: Entry) {
    NoNul(x.name) && Size(x) < 0x10000
  }

  predicate AllNamed(es: seq<Entry>) {
    forall k :: 0 <= k < |es| ==> Named(es[k])
  }

  /** A struct dirent; the fields for the lengths keep 16 and 8 bits. */
  function Record(x: Entry): (r: Bytes)
    ensures |r| == Size(x)
  {
    [Size(x) % 0x100, Size(x) / 0x100 % 0x100, x.kind, |x.name| % 0x100] + x.name + [0]
  }

  function Pack(es: seq<Entry>): Bytes
    decreases |es|
  {
    if es == [] then [] else Pack(es[..|es| - 1]) + Record(es[|es| - 1])
  }

  lemma PackLast(es: seq<Entry>, x: Entry)
    ensures Pack(es + [x]) == Pack(es) + Record(x)
  {
    hide Record;
    assert (es + [x])[..|es|] == es;
  }

  lemma PackNone()
    ensures Pack([]) == []
  {
  }

  lemma {:induction false} PackFirst(x: Entry, rest: seq<Entry>)
    ensures Pack([x] + rest) == Record(x) + Pack(rest)
    decreases |rest|
  {
    hide Record, Pack;
    PackNone();
    if rest == [] {
      PackLast([], x);
      assert [x] + rest == [] + [x];
    } else {
      var front, last := rest[..|rest| - 1], rest[|rest| - 1];
      PackFirst(x, front);
      PackLast([x] + front, last);
      PackLast(front, last);
      assert rest == front + [last] && [x] + rest == [x] + front + [last];
    }
  }

  // ----- what a program reads in a record -----

  function ReadLength(b: Bytes, at: nat): nat
    requires at + 2 <= |b|
  {
    b[at] as int + 0x100 * b[at + 1] as int
  }

  function ReadEntry(b: Bytes, at: nat): Entry
    requires at + HEADER <= |b|
  {
    Entry(CString(b[at + HEADER..]), b[at + 2])
  }

  /** The bytes of a record. */
  lemma RecordParts(x: Entry)
    ensures var r, n := Record(x), |x.name|;
            && |r| == Size(x) == HEADER + n + 1
            && r[0] as int == Size(x) % 0x100 && r[1] as int == Size(x) / 0x100 % 0x100
            && r[2] == x.kind && r[3] as int == n % 0x100 && r[HEADER + n] == 0
            && forall k :: 0 <= k < n ==> r[HEADER + k] == x.name[k]
  {
  }

  /** A record is read as its entry, and its length field leads to the record after it. */
  lemma RecordReads(b: Bytes, at: nat, x: Entry, more: Bytes)
    requires Named(x) && at <= |b| && b[at..] == Record(x) + more
    ensures at + Size(x) <= |b| && ReadEntry(b, at) == x && ReadLength(b, at) == Size(x) && b[at + Size(x)..] == more
    ensures b[at + 3] as int == |x.name| % 0x100
  {
    hide Record, CString;
    var r := Record(x);
    RecordParts(x);
    assert |b| - at == |b[at..]| == |r| + |more|;
    forall k | 0 <= k < |r| ensures b[at + k] == r[k] { assert b[at..][k] == (r + more)[k]; }
    NameHere(b, at + HEADER, x.name, r, more);
    assert b[at..][|r|..] == (r + more)[|r|..] == more;
    assert b[at + |r|..] == b[at..][|r|..];
    assert (x.name + ([0] + more))[..|x.name|] == x.name;
    CStringIs(x.name + ([0] + more), x.name);
    assert b[at] == b[at + 0];
  }

  /** A name, its null character, and what comes after. */
  lemma NameHere(b: Bytes, from: nat, name: Bytes, r: Bytes, more: Bytes)
    requires HEADER <= from && |r| == HEADER + |name| + 1 && from - HEADER + |r| + |more| == |b|
    requires b[from - HEADER..] == r + more && r[HEADER + |name|] == 0
    requires forall k :: 0 <= k < |name| ==> r[HEADER + k] == name[k]
    ensures b[from..] == name + ([0] + more)
  {
    var c := b[from..];
    assert c == (r + more)[HEADER..];
    assert r[HEADER..] == name + [0];
    assert (r + more)[HEADER..] == r[HEADER..] + more;
    assert (name + [0]) + more == name + ([0] + more);
  }

  /** The record length is right exactly when it fits: a name of 65531 bytes or more would
      send the reader to a wrong place. */
  lemma LengthRight(x: Entry)
    ensures ReadLength(Record(x), 0) == Size(x) <==> Size(x) < 0x10000
  {
  }

  /** The first k bytes of r have been written behind `before`. */
  ghost predicate Written(b: Bytes, before: Bytes, r: Bytes, k: nat) {
    && |before| + k <= |b| && k <= |r|
    && (forall i {:trigger b[i]} :: 0 <= i < |before| ==> b[i] == before[i])
    && forall i {:trigger r[i]} :: 0 <= i < k ==> b[|before| + i] == r[i]
  }

  lemma NothingWritten(b: Bytes, before: Bytes, r: Bytes)
    requires before <= b
    ensures Written(b, before, r, 0)
  {
  }

  lemma AllWritten(b: Bytes, before: Bytes, r: Bytes)
    requires Written(b, before, r, |r|)
    ensures b[..|before| + |r|] == before + r
  {
    forall i | 0 <= i < |before| + |r| ensures b[i] == (before + r)[i] {
      if i >= |before| { assert r[i - |before|] == b[|before| + (i - |before|)]; }
    }
  }

  // ----- getdents -----

  /** struct getdents_ctx, with the place in the buffer that dirp points to. */
  class Context {
    const buf: array<Byte>
    var dirp: nat
    var remaining: nat
    var written: nat
    var tooSmall: bool

    ghost predicate Valid()
      reads this
    {
      dirp == written && dirp + remaining <= buf.Length
    }

    constructor (buf: array<Byte>, count: nat)
      requires count <= buf.Length
      ensures Valid() && this.buf == buf && remaining == count && written == 0 && !tooSmall
    {
      this.buf, dirp, remaining, written, tooSmall := buf, 0, count, 0, false;
    }

    /** getdents_callback */
    method Callback(x: Entry) returns (ok: bool)
      requires Valid()
      modifies this, buf
      ensures Valid() && ok == (old(remaining) >= Size(x))
      ensures ok ==> buf[..written] == old(buf[..written]) + Record(x)
      ensures ok ==> remaining == old(remaining) - Size(x) && written == old(written) + Size(x)
      ensures ok ==> tooSmall == old(tooSmall)
      ensures !ok ==> tooSmall && written == old(written) && remaining == old(remaining) && buf[..] == old(buf[..])
      ensures written <= buf.Length && buf[written..] == old(buf[..])[written..]
    {
      var nameLen := |x.name|;
      var size := HEADER + nameLen + 1;
      if remaining < size {
        tooSmall := true;
        return false;
      }
      WriteRecord(x);
      dirp, remaining, written := dirp + size, remaining - size, written + size;
      ok := true;
    }

    /** The fields of a record, one after the other. */
    method WriteRecord(x: Entry)
      requires dirp + Size(x) <= buf.Length
      modifies buf
      ensures buf[..dirp + Size(x)] == old(buf[..dirp]) + Record(x)
      ensures forall i :: dirp + Size(x) <= i < buf.Length ==> buf[i] == old(buf[i])
    {
      hide Record, Written;
      ghost var before, r := buf[..dirp], Record(x);
      var nameLen := |x.name|;
      var size := HEADER + nameLen + 1;
      RecordParts(x);
      NothingWritten(buf[..], before, r);
      PutByte(dirp, size % 0x100, before, r, 0);
      PutByte(dirp + 1, size / 0x100 % 0x100, before, r, 1);
      PutByte(dirp + 2, x.kind, before, r, 2);
      PutByte(dirp + 3, nameLen % 0x100, before, r, 3);
      for i := 0 to nameLen
        invariant Written(buf[..], before, r, HEADER + i)
        invariant forall k :: dirp + Size(x) <= k < buf.Length ==> buf[k] == old(buf[k])
      {
        PutByte(dirp + HEADER + i, x.name[i], before, r, HEADER + i);
      }
      PutByte(dirp + HEADER + nameLen, 0, before, r, HEADER + nameLen);
      AllWritten(buf[..], before, r);
      assert buf[..][..dirp + size] == buf[..dirp + size];
    }

    /** One byte. */
    method PutByte(at: nat, b: Byte, ghost before: Bytes, ghost r: Bytes, ghost k: nat)
      requires k < |r| && b == r[k] && at == |before| + k < buf.Length && Written(buf[..], before, r, k)
      modifies buf
      ensures Written(buf[..], before, r, k + 1)
      ensures forall i :: 0 <= i < buf.Length && i != at ==> buf[i] == old(buf[i])
    {
      buf[at] := b;
    }
  }

  datatype Error = EINVAL

  datatype Count = Got(bytes: nat) | Fail(error: Error)

  /** An open directory: its entries, which stay the same, and the file offset. */
  class Description {
    const entries: seq<Entry>
    var offset: nat

    ghost predicate Valid()
      reads this
    {
      offset <= |entries|
    }

    constructor (entries: seq<Entry>)
      ensures Valid() && this.entries == entries && offset == 0
    {
      this.entries, offset := entries, 0;
    }

    /** dentry_getdents: entries from the offset on, as long as the callback takes them. */
    method DentryGetdents(ctx: Context)
      requires Valid() && ctx.Valid() && ctx.written == 0 && !ctx.tooSmall
      modifies this`offset, ctx, ctx.buf
      ensures Valid() && ctx.Valid() && old(offset) <= offset
      ensures ctx.buf[..ctx.written] == Pack(entries[old(offset)..offset]) && ctx.written <= old(ctx.remaining)
      ensures ctx.written <= ctx.buf.Length && ctx.buf[ctx.written..] == old(ctx.buf[..])[ctx.written..]
      ensures ctx.tooSmall <==> offset < |entries|
      ensures offset < |entries| ==> old(ctx.remaining) < ctx.written + Size(entries[offset])
    {
      hide Pack, Record, Size;
      ghost var from := offset;
      PackNone();
      assert entries[from..offset] == [];
      if |entries| == 0 { return; }
      var dentry := 0;
      var i := 0;
      while i < offset
        invariant i <= offset && dentry == i < |entries| && ctx.Valid()
      {
        dentry := dentry + 1;
        if dentry == |entries| { return; }
        i := i + 1;
      }
      while dentry < |entries|
        invariant ctx.Valid() && !ctx.tooSmall && from <= dentry == offset <= |entries|
        invariant ctx.buf[..ctx.written] == Pack(entries[from..offset])
        invariant ctx.written + ctx.remaining == old(ctx.remaining)
        invariant ctx.buf[ctx.written..] == old(ctx.buf[..])[ctx.written..]
      {
        var ok := ctx.Callback(entries[dentry]);
        if !ok { break; }
        PackLast(entries[from..offset], entries[offset]);
        assert entries[from..offset] + [entries[offset]] == entries[from..offset + 1];
        offset := offset + 1;
        dentry := dentry + 1;
      }
    }

    /** file_description_getdents: as many entries as fit are packed; none that fits is an
        error, and 0 is the end of the directory. */
    method Getdents(buf: array<Byte>, count: nat) returns (r: Count)
      requires Valid() && count <= buf.Length
      modifies this`offset, buf
      ensures Valid() && offset >= old(offset)
      ensures r.Got? ==> r.bytes <= count && buf[..r.bytes] == Pack(entries[old(offset)..offset])
      ensures r.Got? && offset < |entries| ==> count < r.bytes + Size(entries[offset])
      ensures var done := if r.Got? then r.bytes else 0; buf[done..] == old(buf[..])[done..]
      ensures r == Got(0) <==> old(offset) == |entries|
      ensures r.Fail? <==> old(offset) < |entries| && count < Size(entries[old(offset)])
      ensures r.Fail? ==> offset == old(offset)
    {
      hide Pack, Record;
      var ctx := new Context(buf, count);
      DentryGetdents(ctx);
      PackNone();
      ghost var from := old(offset);
      if from < offset {
        PackFirst(entries[from], entries[from + 1..offset]);
        assert [entries[from]] + entries[from + 1..offset] == entries[from..offset];
        assert ctx.written == |Pack(entries[from..offset])| >= Size(entries[from]);
      } else {
        assert entries[from..offset] == [];
      }
      if ctx.written == 0 && ctx.tooSmall { return Fail(EINVAL); }
      return Got(ctx.written);
    }
  }

  // ----- readdir -----

  /** DIR, with the description behind its file descriptor. `next` counts the entries that
      readdir has returned. */
  class Dir {
    const fd: Description
    var buf: array<Byte>
    var bufCapacity: nat
    var bufSize: nat
    var bufCursor: nat
    ghost var next: nat

    /** The buffer holds, from the cursor on, the entries that getdents has given and
        readdir has not returned. */
    ghost predicate Valid()
      reads this, buf, fd
    {
      && fd.Valid() && bufCapacity > 0 && AllNamed(fd.entries)
      && bufSize <= buf.Length && bufSize <= bufCapacity && next <= fd.offset
      && (bufCursor >= bufSize ==> next == fd.offset)
      && (bufCursor < bufSize ==> buf[bufCursor..bufSize] == Pack(fd.entries[next..fd.offset]))
    }

    /** opendir, with a capacity of 1024 or any other. */
    constructor (fd: Description, capacity: nat)
      requires fd.offset == 0 && capacity > 0 && AllNamed(fd.entries)
      ensures Valid() && next == 0 && this.fd == fd && fresh(buf)
    {
      this.fd, bufCapacity, bufSize, bufCursor, next := fd, capacity, 0, 0, 0;
      buf := new Byte[0];
    }

    /** The loop of readdir that fills the buffer, doubling it until an entry fits. */
    method Refill() returns (more: bool)
      requires Valid() && bufCursor >= bufSize
      modifies this, buf, fd`offset
      ensures Valid() && next == old(next) && fresh(buf)
      ensures more == (next < |fd.entries|) && (more ==> bufCursor < bufSize) && (!more ==> bufCursor >= bufSize)
    {
      hide Pack, Size, AllNamed;
      while true
        invariant Valid() && bufCursor >= bufSize && next == old(next) && (buf == old(buf) || fresh(buf))
        decreases if next < |fd.entries| then Size(fd.entries[next]) - bufCapacity else 0
      {
        buf := new Byte[bufCapacity];
        var r := fd.Getdents(buf, bufCapacity);
        match r
        case Got(bytes) =>
          if bytes == 0 { return false; }
          bufSize := bytes;
          bufCursor := 0;
          assert buf[0..bytes] == buf[..bytes];
          return true;
        case Fail(_) =>
          bufCapacity := bufCapacity * 2;
      }
    }

    /** readdir: the entries come one by one, in the order of the directory, and then there
        is none; at is where the struct dirent lies in the buffer. */
    method Readdir() returns (found: bool, at: nat)
      requires Valid()
      modifies this, buf, fd`offset
      ensures Valid() && (buf == old(buf) || fresh(buf))
      ensures found == (old(next) < |fd.entries|)
      ensures found ==> next == old(next) + 1 && at + HEADER <= buf.Length
      ensures found ==> ReadEntry(buf[..], at) == fd.entries[old(next)]
      ensures !found ==> next == old(next) == |fd.entries|
    {
      hide Pack, Record, AllNamed, ReadEntry, ReadLength;
      if bufCursor >= bufSize {
        var more := Refill();
        if !more { return false, 0; }
      }
      at := bufCursor;
      found := true;
      PackEmpty(fd.entries[next..fd.offset]);
      ghost var x, rest := fd.entries[next], fd.entries[next + 1..fd.offset];
      assert fd.entries[next..fd.offset] == [x] + rest;
      PackFirst(x, rest);
      ghost var b := buf[..bufSize];
      assert b[at..] == buf[at..bufSize];
      OneNamed(fd.entries, next);
      RecordReads(b, at, x, Pack(rest));
      ReadInside(b, buf[..], at, x);
      bufCursor := bufCursor + ReadLength(buf[..], at);
      PackEmpty(rest);
      next := next + 1;
      assert buf[bufCursor..bufSize] == b[bufCursor..];
    }
  }

  lemma OneNamed(es: seq<Entry>, k: nat)
    requires AllNamed(es) && k < |es|
    ensures Named(es[k])
  {
  }

  lemma {:induction false} PackEmpty(es: seq<Entry>)
    ensures Pack(es) == [] <==> es == []
  {
  }

  /** Reading a terminated name does not depend on what follows in the buffer. */
  lemma ReadInside(b: Bytes, all: Bytes, at: nat, x: Entry)
    requires Named(x) && |b| <= |all| && all[..|b|] == b && at + Size(x) <= |b| && b[at..at + Size(x)] == Record(x)
    ensures ReadEntry(all, at) == x && ReadLength(all, at) == Size(x)
  {
    assert all[at..][..Size(x)] == all[..|b|][at..at + Size(x)] == Record(x);
    assert all[at..] == Record(x) + all[at + Size(x)..];
    RecordReads(all, at, x, all[at + Size(x)..]);
  }

  /** A program that calls readdir until it returns a null pointer sees every entry exactly
      once, in the order of the directory, whatever the size of the first buffer. */
  method ReadAll(fd: Description, capacity: nat) returns (seen: seq<Entry>)
    requires fd.offset == 0 && capacity > 0 && AllNamed(fd.entries)
    modifies fd`offset
    ensures seen == fd.entries
  {
    hide AllNamed, ReadEntry;
    var dir := new Dir(fd, capacity);
    seen := [];
    while true
      invariant dir.Valid() && dir.fd == fd && fresh(dir) && fresh(dir.buf) && dir.next <= |fd.entries|
      invariant seen == fd.entries[..dir.next]
      decreases |fd.entries| - dir.next
    {
      var found, at := dir.Readdir();
      if !found { return; }
      seen := seen + [ReadEntry(dir.buf[..], at)];
    }
  }
}
