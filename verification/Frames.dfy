/** The physical page allocator of kernel/memory/page_allocator.c: one bit per
    frame that says whether the frame is free, one saturating 8-bit reference
    count per frame, and a counter of free memory in KiB. */
module Frames {

  const PAGE_SIZE := 4096
  const UINT8_MAX := 255
  const KIB_PER_FRAME := PAGE_SIZE / 1024

  type RefCount = c: int | 0 <= c <= UINT8_MAX

  /** A 32-bit word, least significant bit first. */
  type Word = w: seq<bool> | |w| == 32 witness seq(32, _ => false)

  /** A frame number, or the error -ENOMEM. */
  datatype FrameResult = Frame(frame: nat) | OutOfFrames

  function Inc(c: RefCount): RefCount {
    if c < UINT8_MAX then c + 1 else c
  }

  function Dec(c: RefCount): RefCount
    requires c > 0
  {
    if c < UINT8_MAX then c - 1 else c
  }

  ghost function FreeSet(counts: seq<RefCount>): set<nat> {
    set i | 0 <= i < |counts| && counts[i] == 0
  }

  ghost predicate IsLowestFree(counts: seq<RefCount>, f: nat) {
    && f < |counts|
    && counts[f] == 0
    && forall i :: 0 <= i < f ==> counts[i] != 0
  }

  lemma FreeSetUpdate(counts: seq<RefCount>, f: nat, c: RefCount)
    requires f < |counts|
    ensures |FreeSet(counts[f := c])|
            == |FreeSet(counts)| + (if c == 0 then 1 else 0) - (if counts[f] == 0 then 1 else 0)
  {
    var after := counts[f := c];
    assert forall i :: 0 <= i < |counts| && i != f ==> after[i] == counts[i];
    if c == 0 && counts[f] != 0 {
      assert FreeSet(after) == FreeSet(counts) + {f};
    } else if c != 0 && counts[f] == 0 {
      assert FreeSet(after) == FreeSet(counts) - {f};
    } else {
      assert FreeSet(after) == FreeSet(counts);
    }
  }

  lemma FreeSetAppend(counts: seq<RefCount>, c: RefCount)
    ensures |FreeSet(counts + [c])| == |FreeSet(counts)| + if c == 0 then 1 else 0
  {
    var after := counts + [c];
    assert forall i :: 0 <= i < |counts| ==> after[i] == counts[i];
    if c == 0 {
      assert FreeSet(after) == FreeSet(counts) + {|counts|};
    } else {
      assert FreeSet(after) == FreeSet(counts);
    }
  }

  class PageAllocator {
    const bitmap: array<Word>
    const refCounts: array<RefCount>
    var free: int

    ghost predicate Shape() {
      refCounts.Length == 32 * bitmap.Length
    }

    predicate Bit(i: nat)
      requires Shape() && i < refCounts.Length
      reads bitmap
    {
      bitmap[i / 32][i % 32]
    }

    ghost function Counts(): seq<RefCount>
      reads refCounts
    {
      refCounts[..]
    }

    /** A bit is set exactly when the count is zero, and `free` is 4 KiB for
        every set bit. */
    ghost predicate Valid()
      reads this, bitmap, refCounts
    {
      && Shape()
      && (forall i {:trigger Bit(i)} :: 0 <= i < refCounts.Length ==> (Bit(i) <==> refCounts[i] == 0))
      && free == KIB_PER_FRAME * |FreeSet(Counts())|
    }

    /** The last loop of bitmap_init: a frame that is not available starts with a
        saturated count, so that no unref can ever free it. */
    constructor (available: seq<Word>)
      ensures Valid() && fresh(bitmap) && fresh(refCounts)
      ensures |Counts()| == 32 * |available|
      ensures forall i :: 0 <= i < |Counts()| ==>
                            Counts()[i] == if available[i / 32][i % 32] then 0 else UINT8_MAX
    {
      bitmap := new Word[|available|](i requires 0 <= i < |available| => available[i]);
      refCounts := new RefCount[32 * |available|](_ => 0);
      new;
      var pages := 0;
      for i := 0 to 32 * |available|
        invariant forall j :: 0 <= j < |available| ==> bitmap[j] == available[j]
        invariant forall j {:trigger Bit(j)} {:trigger refCounts[j]} :: 0 <= j < i ==>
                    refCounts[j] == if Bit(j) then 0 else UINT8_MAX
        invariant forall j :: i <= j < 32 * |available| ==> refCounts[j] == 0
        invariant pages == |FreeSet(refCounts[..i])|
      {
        FreeSetAppend(refCounts[..i], if Bit(i) then 0 else UINT8_MAX);
        if Bit(i) {
          pages := pages + 1;
        } else {
          refCounts[i] := UINT8_MAX;
        }
        assert refCounts[..i + 1] == refCounts[..i] + [refCounts[i]];
      }
      assert refCounts[..] == refCounts[..32 * |available|];
      free := KIB_PER_FRAME * pages;
    }

    method BitmapSet(i: nat)
      requires Shape() && i < refCounts.Length
      modifies bitmap
      ensures forall j {:trigger Bit(j)} :: 0 <= j < refCounts.Length ==> Bit(j) == (j == i || old(Bit(j)))
    {
      bitmap[i / 32] := bitmap[i / 32][i % 32 := true];
      forall j | 0 <= j < refCounts.Length ensures Bit(j) == (j == i || old(Bit(j))) {
        if j / 32 == i / 32 && j % 32 == i % 32 { assert j == i; }
      }
    }

    method BitmapClear(i: nat)
      requires Shape() && i < refCounts.Length
      modifies bitmap
      ensures forall j {:trigger Bit(j)} :: 0 <= j < refCounts.Length ==> Bit(j) == (j != i && old(Bit(j)))
    {
      bitmap[i / 32] := bitmap[i / 32][i % 32 := false];
      forall j | 0 <= j < refCounts.Length ensures Bit(j) == (j != i && old(Bit(j))) {
        if j / 32 == i / 32 && j % 32 == i % 32 { assert j == i; }
      }
    }

    /** __builtin_ffs: one plus the index of the least significant set bit, or 0. */
    static method FindFirstBit(w: Word) returns (b: nat)
      ensures b <= 32
      ensures b == 0 ==> forall k :: 0 <= k < 32 ==> !w[k]
      ensures b > 0 ==> w[b - 1] && forall k :: 0 <= k < b - 1 ==> !w[k]
    {
      b := 1;
      while b <= 32
        invariant 1 <= b <= 33
        invariant forall k :: 0 <= k < b - 1 ==> !w[k]
      {
        if w[b - 1] { return; }
        b := b + 1;
      }
      b := 0;
    }

    method BitmapFindFirstSet() returns (r: FrameResult)
      requires Shape()
      ensures r.Frame? ==> r.frame < refCounts.Length && Bit(r.frame)
                           && forall j {:trigger Bit(j)} :: 0 <= j < r.frame ==> !Bit(j)
      ensures r.OutOfFrames? ==> forall j {:trigger Bit(j)} :: 0 <= j < refCounts.Length ==> !Bit(j)
    {
      for i := 0 to bitmap.Length
        invariant forall j {:trigger Bit(j)} :: 0 <= j < 32 * i ==> !Bit(j)
      {
        var b := FindFirstBit(bitmap[i]);
        if b > 0 {
          var f := 32 * i + (b - 1);
          assert f / 32 == i && f % 32 == b - 1;
          assert forall j :: 32 * i <= j < f ==> j / 32 == i && j % 32 < b - 1;
          return Frame(f);
        }
        assert forall j :: 32 * i <= j < 32 * (i + 1) ==> j / 32 == i;
      }
      r := OutOfFrames;
    }

    /** Hands out the lowest free frame, or fails exactly when no frame is free. */
    method Alloc() returns (r: FrameResult)
      requires Valid()
      modifies this, bitmap, refCounts
      ensures Valid()
      ensures r.Frame? ==> IsLowestFree(old(Counts()), r.frame) && Counts() == old(Counts())[r.frame := 1]
                           && |FreeSet(Counts())| == |FreeSet(old(Counts()))| - 1
      ensures r.OutOfFrames? ==> |FreeSet(old(Counts()))| == 0 && Counts() == old(Counts())
    {
      r := BitmapFindFirstSet();
      ghost var was := Counts();
      if r.OutOfFrames? {
        forall i | 0 <= i < |was| ensures was[i] != 0 { assert !Bit(i); }
        assert FreeSet(was) == {};
        return;
      }
      forall i | 0 <= i < r.frame ensures was[i] != 0 { assert !Bit(i); }
      FreeSetUpdate(was, r.frame, 1);
      BitmapClear(r.frame);
      assert refCounts[r.frame] == 0;
      refCounts[r.frame] := 1;
      free := free - KIB_PER_FRAME;
      assert Counts() == was[r.frame := 1];
    }

    /** The source takes any frame here; the invariant survives exactly when the
        frame was already in use, because a free frame keeps its bit. */
    method RefPage(f: nat)
      requires Valid() && f < refCounts.Length
      modifies refCounts
      ensures Counts() == old(Counts())[f := Inc(old(Counts())[f])]
      ensures Valid() <==> old(Counts())[f] > 0
    {
      FreeSetUpdate(Counts(), f, Inc(refCounts[f]));
      assert Bit(f) == (refCounts[f] == 0);
      if refCounts[f] < UINT8_MAX {
        refCounts[f] := refCounts[f] + 1;
      }
      assert Counts() == old(Counts())[f := Inc(old(Counts())[f])];
      assert old(Counts())[f] == 0 ==> Bit(f) && refCounts[f] != 0;
    }

    /** The precondition is the source's own assertion. */
    method UnrefPage(f: nat)
      requires Valid() && f < refCounts.Length
      requires refCounts[f] > 0
      modifies this, bitmap, refCounts
      ensures Valid()
      ensures Counts() == old(Counts())[f := Dec(old(Counts())[f])]
    {
      ghost var was := Counts();
      if refCounts[f] < UINT8_MAX {
        FreeSetUpdate(was, f, refCounts[f] - 1);
        refCounts[f] := refCounts[f] - 1;
        assert Counts() == was[f := was[f] - 1];
        if refCounts[f] == 0 {
          BitmapSet(f);
          free := free + KIB_PER_FRAME;
        }
      } else {
        assert was[f := was[f]] == was;
      }
    }
  }
}
