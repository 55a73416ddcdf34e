/** The ring buffer of a pipe (kernel/ring_buf.c): an array with a read and a write
    index. One slot always stays empty, so equal indices mean an empty buffer. */
module RingBuf {
  import opened Words

  const BUF_CAPACITY := 1024
  /** The most bytes that it holds. */
  const ROOM := BUF_CAPACITY - 1

  function Min(a: nat, b: nat): nat {
    if a < b then a else b
  }

  /** The bytes between the two indices, oldest first. */
  function Window(a: seq<Byte>, r: nat, w: nat): (s: seq<Byte>)
    requires |a| == BUF_CAPACITY && r < BUF_CAPACITY && w < BUF_CAPACITY
    ensures |s| <= ROOM
  {
    if r <= w then a[r..w] else a[r..] + a[..w]
  }

  lemma SliceHead(a: seq<Byte>, r: nat, w: nat)
    requires r < w <= |a|
    ensures a[r..w] == [a[r]] + a[r + 1..w]
  {
  }

  lemma NextIndex(r: nat)
    requires r < BUF_CAPACITY
    ensures (r + 1) % BUF_CAPACITY == if r + 1 == BUF_CAPACITY then 0 else r + 1
  {
  }

  lemma WindowTake(a: seq<Byte>, r: nat, w: nat)
    requires |a| == BUF_CAPACITY && r < BUF_CAPACITY && w < BUF_CAPACITY && r != w
    ensures Window(a, r, w) == [a[r]] + Window(a, (r + 1) % BUF_CAPACITY, w)
  {
    NextIndex(r);
    SliceHead(a, r, if r < w then w else |a|);
    if r < w {
    } else if r + 1 == BUF_CAPACITY {
      assert Window(a, 0, w) == a[..w];
    } else {
      Reassociate([a[r]], a[r + 1..], a[..w]);
    }
  }

  lemma Reassociate(a: seq<Byte>, b: seq<Byte>, c: seq<Byte>)
    ensures (a + b) + c == a + (b + c)
  {
  }

  lemma WindowPut(a: seq<Byte>, r: nat, w: nat, x: Byte)
    requires |a| == BUF_CAPACITY && r < BUF_CAPACITY && w < BUF_CAPACITY && (w + 1) % BUF_CAPACITY != r
    ensures Window(a[w := x], r, (w + 1) % BUF_CAPACITY) == Window(a, r, w) + [x]
  {
    var b := a[w := x];
    if w + 1 == BUF_CAPACITY {
      assert b[r..] + b[..0] == a[r..w] + [x];
    } else if r <= w {
      assert b[r..w + 1] == a[r..w] + [x];
    } else {
      assert b[..w + 1] == a[..w] + [x] && b[r..] == a[r..];
      assert b[r..] + b[..w + 1] == (a[r..] + a[..w]) + [x];
    }
  }

  class RingBuf {
    const inner: array<Byte>
    var writeIdx: int
    var readIdx: int

    ghost predicate Valid()
      reads this, inner
    {
      inner.Length == BUF_CAPACITY && 0 <= writeIdx < BUF_CAPACITY && 0 <= readIdx < BUF_CAPACITY
    }

    /** The bytes in the buffer, oldest first. */
    ghost function Contents(): (s: seq<Byte>)
      requires Valid()
      reads this, inner
      ensures |s| <= ROOM
    {
      Window(inner[..], readIdx, writeIdx)
    }

    constructor ()
      ensures Valid() && Contents() == [] && fresh(inner)
    {
      inner := new Byte[BUF_CAPACITY](_ => 0);
      writeIdx, readIdx := 0, 0;
    }

    predicate IsEmpty()
      reads this
    {
      writeIdx == readIdx
    }

    predicate IsFull()
      reads this
    {
      (writeIdx + 1) % BUF_CAPACITY == readIdx
    }

    /** The two tests mean what they say. */
    lemma EmptyAndFull()
      requires Valid()
      ensures IsEmpty() <==> Contents() == []
      ensures IsFull() <==> |Contents()| == ROOM
    {
    }

    /** The oldest byte. */
    method TakeOne() returns (x: Byte)
      requires Valid() && !IsEmpty()
      modifies this`readIdx
      ensures Valid() && old(Contents()) == [x] + Contents()
    {
      WindowTake(inner[..], readIdx, writeIdx);
      x := inner[readIdx];
      readIdx := (readIdx + 1) % BUF_CAPACITY;
    }

    method PutOne(x: Byte)
      requires Valid() && !IsFull()
      modifies this`writeIdx, inner
      ensures Valid() && Contents() == old(Contents()) + [x]
    {
      WindowPut(inner[..], readIdx, writeIdx, x);
      ghost var was := inner[..];
      inner[writeIdx] := x;
      assert inner[..] == was[writeIdx := x];
      writeIdx := (writeIdx + 1) % BUF_CAPACITY;
    }

    /** ring_buf_read. The source takes a byte before it looks whether there is one, so
        the buffer must not be empty. */
    method Read(count: nat) returns (bytes: seq<Byte>)
      requires Valid() && !IsEmpty()
      modifies this`readIdx
      ensures Valid() && |bytes| == Min(count, |old(Contents())|)
      ensures old(Contents()) == bytes + Contents()
    {
      hide Contents;
      bytes := [];
      ghost var all := Contents();
      EmptyAndFull();
      while |bytes| < count
        invariant Valid() && |bytes| <= count && all == bytes + Contents()
        invariant |bytes| < count ==> !IsEmpty()
        decreases count - |bytes|
      {
        ghost var rest := Contents();
        var x := TakeOne();
        assert bytes + rest == (bytes + [x]) + Contents();
        bytes := bytes + [x];
        EmptyAndFull();
        if IsEmpty() { break; }
      }
    }

    /** ring_buf_write: as many of the bytes as there is room for. */
    method Write(bytes: seq<Byte>) returns (n: nat)
      requires Valid() && !IsFull()
      modifies this`writeIdx, inner
      ensures Valid() && n == Min(|bytes|, ROOM - |old(Contents())|)
      ensures Contents() == old(Contents()) + bytes[..n]
    {
      hide Contents;
      n := 0;
      EmptyAndFull();
      while n < |bytes|
        invariant Valid() && n <= |bytes| && Contents() == old(Contents()) + bytes[..n]
        invariant n < |bytes| ==> !IsFull()
      {
        PutOne(bytes[n]);
        assert old(Contents()) + bytes[..n] + [bytes[n]] == old(Contents()) + bytes[..n + 1];
        n := n + 1;
        EmptyAndFull();
        if IsFull() { break; }
      }
    }
  }
}
