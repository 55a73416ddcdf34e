/** qsort (common/stdlib.c): elements are runs of bytes in memory, swapped byte by byte,
    and compared by a function of the caller. */
module Qsort {
  import opened Basics
  import opened Words

  type Bytes = seq<Byte>
  type Compare = (Bytes, Bytes) -> int

  /** What qsort asks of the comparison. */
  ghost predicate TotalPreorder(cmp: Compare) {
    && (forall x, y :: cmp(x, y) < 0 <==> cmp(y, x) > 0)
    && (forall x, y, z {:trigger cmp(x, y), cmp(y, z)} :: cmp(x, y) <= 0 && cmp(y, z) <= 0 ==> cmp(x, z) <= 0)
  }

  // ----- elements in memory -----

  /** The address of element k of the elements of a size at base. */
  function At(base: nat, size: nat, k: nat): nat {
    base + k * size
  }

  /** Element k of the elements of a size at base. */
  function Element(b: Bytes, base: nat, size: nat, k: nat): Bytes {
    var o := At(base, size, k);
    if o + size <= |b| then b[o..o + size] else []
  }

  function Elements(b: Bytes, base: nat, size: nat, n: nat): (e: seq<Bytes>)
    ensures |e| == n
  {
    seq(n, k requires 0 <= k < n => Element(b, base, size, k))
  }

  lemma Apart(base: nat, size: nat, i: nat, j: nat)
    requires i < j
    ensures At(base, size, i) + size <= At(base, size, j)
  {
    MulGrows(i + 1, j, size);
    assert (i + 1) * size == i * size + size;
  }

  lemma MulGrows(a: nat, b: nat, size: nat)
    requires a <= b
    ensures a * size <= b * size
  {
    assert b * size - a * size == (b - a) * size;
  }

  method MemSwap(a: array<Byte>, s1: nat, s2: nat, n: nat)
    requires s1 + n <= a.Length && s2 + n <= a.Length && (s1 == s2 || s1 + n <= s2 || s2 + n <= s1)
    modifies a
    ensures Exchanged(old(a[..]), a[..], s1, s2, n)
  {
    var i := 0;
    while i < n
      invariant i <= n && Exchanged(old(a[..]), a[..], s1, s2, i)
    {
      var tmp := a[s1 + i];
      a[s1 + i] := a[s2 + i];
      a[s2 + i] := tmp;
      i := i + 1;
    }
  }

  /** The n bytes at s1 and at s2 have changed places, and no others. */
  ghost predicate Exchanged(b: Bytes, b': Bytes, s1: nat, s2: nat, n: nat) {
    && |b'| == |b| && s1 + n <= |b| && s2 + n <= |b|
    && (forall k {:trigger b'[k]} :: s1 <= k < s1 + n ==> b'[k] == b[k - s1 + s2])
    && (forall k {:trigger b'[k]} :: s2 <= k < s2 + n ==> b'[k] == b[k - s2 + s1])
    && (forall k {:trigger b'[k]} :: 0 <= k < |b| && !(s1 <= k < s1 + n) && !(s2 <= k < s2 + n) ==> b'[k] == b[k])
  }

  function Swap<T>(e: seq<T>, i: nat, j: nat): seq<T>
    requires i < |e| && j < |e|
  {
    e[i := e[j]][j := e[i]]
  }

  /** Exchanging the bytes of two elements swaps them. */
  lemma ElementsSwapped(b: Bytes, b': Bytes, base: nat, size: nat, n: nat, i: nat, j: nat)
    requires i < n && j < n && At(base, size, n) <= |b| && Exchanged(b, b', At(base, size, i), At(base, size, j), size)
    ensures Elements(b', base, size, n) == Swap(Elements(b, base, size, n), i, j)
  {
    var e, e' := Elements(b, base, size, n), Elements(b', base, size, n);
    forall k | 0 <= k < n ensures e'[k] == Swap(e, i, j)[k] {
      OneElement(b, b', base, size, n, i, j, k);
    }
  }

  lemma OneElement(b: Bytes, b': Bytes, base: nat, size: nat, n: nat, i: nat, j: nat, k: nat)
    requires i < n && j < n && k < n && At(base, size, n) <= |b|
             && Exchanged(b, b', At(base, size, i), At(base, size, j), size)
    ensures Element(b', base, size, k) == Element(b, base, size, if k == i then j else if k == j then i else k)
  {
    hide Exchanged, At;
    Apart(base, size, i, n);
    Apart(base, size, j, n);
    Apart(base, size, k, n);
    if k < i { Apart(base, size, k, i); }
    if k > i { Apart(base, size, i, k); }
    if k < j { Apart(base, size, k, j); }
    if k > j { Apart(base, size, j, k); }
    OneRange(b, b', At(base, size, i), At(base, size, j), size, At(base, size, k));
  }

  /** A range of n bytes after an exchange: one of the two, or apart from both. */
  lemma OneRange(b: Bytes, b': Bytes, s1: nat, s2: nat, n: nat, o: nat)
    requires Exchanged(b, b', s1, s2, n) && o + n <= |b|
    ensures |b'| == |b|
    ensures o == s1 ==> b'[o..o + n] == b[s2..s2 + n]
    ensures o == s2 ==> b'[o..o + n] == b[s1..s1 + n]
    ensures (o + n <= s1 || s1 + n <= o) && (o + n <= s2 || s2 + n <= o) ==> b'[o..o + n] == b[o..o + n]
  {
  }

  /** Elements i to i + m are elements of their own base. */
  lemma ElementsInside(b: Bytes, base: nat, size: nat, n: nat, i: nat, m: nat)
    requires i + m <= n
    ensures Elements(b, At(base, size, i), size, m) == Elements(b, base, size, n)[i..i + m]
  {
    var e, part := Elements(b, base, size, n), Elements(b, At(base, size, i), size, m);
    forall k | 0 <= k < m ensures part[k] == e[i..i + m][k] {
      assert At(At(base, size, i), size, k) == At(base, size, i + k);
    }
  }

  // ----- permutations of a part -----

  /** e' is e with the elements from s to t in another order. */
  ghost predicate Permutes<T(!new)>(e: seq<T>, e': seq<T>, s: nat, t: nat) {
    && s <= t <= |e| == |e'| && e'[..s] == e[..s] && e'[t..] == e[t..] && multiset(e'[s..t]) == multiset(e[s..t])
  }

  lemma PermutesSwap<T(!new)>(e: seq<T>, i: nat, j: nat, s: nat, t: nat)
    requires s <= i < t <= |e| && s <= j < t
    ensures Permutes(e, Swap(e, i, j), s, t)
  {
    var x, y := e[s..t], Swap(e, i, j)[s..t];
    assert y == x[i - s := x[j - s]][j - s := x[i - s]];
    assert multiset(y) == multiset(x);
  }

  lemma PermutesTrans<T(!new)>(a: seq<T>, b: seq<T>, c: seq<T>, s: nat, t: nat)
    requires Permutes(a, b, s, t) && Permutes(b, c, s, t)
    ensures Permutes(a, c, s, t)
  {
  }

  lemma PermutesWiden<T(!new)>(e: seq<T>, e': seq<T>, s: nat, t: nat, lo: nat, hi: nat)
    requires Permutes(e, e', s, t) && lo <= s && t <= hi <= |e|
    ensures Permutes(e, e', lo, hi)
  {
    Cut(e, lo, s, t, hi);
    Cut(e', lo, s, t, hi);
    assert e'[lo..s] == e'[..s][lo..] == e[..s][lo..] == e[lo..s];
    assert e'[t..hi] == e'[t..][..hi - t] == e[t..][..hi - t] == e[t..hi];
    assert e'[..lo] == e'[..s][..lo] == e[..s][..lo] == e[..lo];
    assert e'[hi..] == e'[t..][hi - t..] == e[t..][hi - t..] == e[hi..];
  }

  lemma Cut<T>(e: seq<T>, lo: nat, s: nat, t: nat, hi: nat)
    requires lo <= s <= t <= hi <= |e|
    ensures multiset(e[lo..hi]) == multiset(e[lo..s]) + multiset(e[s..t]) + multiset(e[t..hi])
  {
    assert e[lo..hi] == e[lo..s] + e[s..t] + e[t..hi];
  }

  /** Each element of the part was in the part before. */
  lemma PermutesMember<T(!new)>(e: seq<T>, e': seq<T>, s: nat, t: nat, q: nat) returns (p: nat)
    requires Permutes(e, e', s, t) && s <= q < t
    ensures s <= p < t && e'[q] == e[p]
  {
    assert e'[s..t][q - s] in multiset(e'[s..t]);
    assert e'[q] in multiset(e[s..t]);
    assert e'[q] in e[s..t];
    var k :| 0 <= k < t - s && e[s..t][k] == e'[q];
    p := s + k;
  }

  lemma PermutesOutside<T(!new)>(e: seq<T>, e': seq<T>, s: nat, t: nat, q: nat)
    requires Permutes(e, e', s, t) && q < |e| && !(s <= q < t)
    ensures e'[q] == e[q]
  {
    if q < s { assert e'[..s][q] == e[..s][q]; } else { assert e'[t..][q - t] == e[t..][q - t]; }
  }

  // ----- order -----

  ghost predicate Le(cmp: Compare, x: Bytes, y: Bytes) {
    cmp(x, y) <= 0
  }

  lemma LeTrans(cmp: Compare, x: Bytes, y: Bytes, z: Bytes)
    requires TotalPreorder(cmp) && Le(cmp, x, y) && Le(cmp, y, z)
    ensures Le(cmp, x, z)
  {
  }

  ghost predicate Sorted(e: seq<Bytes>, cmp: Compare, s: nat, t: nat) {
    t <= |e| && forall p, q :: s <= p < q < t ==> Le(cmp, e[p], e[q])
  }

  /** From lo to hi, only elements that are both between s and t may be out of order. */
  ghost predicate Settled(e: seq<Bytes>, cmp: Compare, lo: nat, hi: nat, s: nat, t: nat) {
    lo <= s <= t <= hi <= |e| && forall p, q :: lo <= p < q < hi && (p < s || q >= t) ==> Le(cmp, e[p], e[q])
  }

  /** From s to t, no element is on the wrong side of the one at m. */
  ghost predicate Split(e: seq<Bytes>, cmp: Compare, s: nat, m: nat, t: nat) {
    && s <= m < t <= |e|
    && (forall p :: s <= p < m ==> Le(cmp, e[p], e[m]))
    && (forall q :: m < q < t ==> Le(cmp, e[m], e[q]))
  }

  /** The first j elements, apart from the pivot in front: smaller ones up to i, and then the rest. */
  ghost predicate Parted(e: seq<Bytes>, cmp: Compare, i: nat, j: nat) {
    && 1 <= i <= j <= |e|
    && (forall p :: 1 <= p < i ==> Le(cmp, e[p], e[0]))
    && (forall q :: i <= q < j ==> Le(cmp, e[0], e[q]))
  }

  lemma PartedSmall(e: seq<Bytes>, cmp: Compare, i: nat, j: nat)
    requires Parted(e, cmp, i, j) && j < |e| && cmp(e[j], e[0]) < 0
    ensures Parted(Swap(e, j, i), cmp, i + 1, j + 1)
  {
  }

  lemma PartedLarge(e: seq<Bytes>, cmp: Compare, i: nat, j: nat)
    requires TotalPreorder(cmp) && Parted(e, cmp, i, j) && j < |e| && cmp(e[j], e[0]) >= 0
    ensures Parted(e, cmp, i, j + 1)
  {
  }

  lemma PartedSplit(e: seq<Bytes>, cmp: Compare, i: nat)
    requires TotalPreorder(cmp) && Parted(e, cmp, i, |e|)
    ensures Split(Swap(e, 0, i - 1), cmp, 0, i - 1, |e|)
  {
  }

  lemma SettledPermuted(e: seq<Bytes>, e': seq<Bytes>, cmp: Compare, lo: nat, hi: nat, s: nat, t: nat)
    requires Settled(e, cmp, lo, hi, s, t) && Permutes(e, e', s, t)
    ensures Settled(e', cmp, lo, hi, s, t)
  {
    hide Le, Permutes;
    PermutesLength(e, e', s, t);
    forall p, q | lo <= p < q < hi && (p < s || q >= t) ensures Le(cmp, e'[p], e'[q]) {
      var p', q' := p, q;
      if s <= p < t { p' := PermutesMember(e, e', s, t, p); } else { PermutesOutside(e, e', s, t, p); }
      if s <= q < t { q' := PermutesMember(e, e', s, t, q); } else { PermutesOutside(e, e', s, t, q); }
    }
  }

  lemma SettledRight(e: seq<Bytes>, cmp: Compare, lo: nat, hi: nat, s: nat, m: nat, t: nat)
    requires TotalPreorder(cmp) && Settled(e, cmp, lo, hi, s, t) && Split(e, cmp, s, m, t) && Sorted(e, cmp, m + 1, t)
    ensures Settled(e, cmp, lo, hi, s, m)
  {
    hide Le, TotalPreorder;
    forall p, q | lo <= p < q < hi && (p < s || q >= m) ensures Le(cmp, e[p], e[q]) {
      if s <= p < m && m < q < t { LeTrans(cmp, e[p], e[m], e[q]); }
    }
  }

  lemma SettledLeft(e: seq<Bytes>, cmp: Compare, lo: nat, hi: nat, s: nat, m: nat, t: nat)
    requires TotalPreorder(cmp) && Settled(e, cmp, lo, hi, s, t) && Split(e, cmp, s, m, t) && Sorted(e, cmp, s, m)
    ensures Settled(e, cmp, lo, hi, m + 1, t)
  {
    hide Le, TotalPreorder;
    forall p, q | lo <= p < q < hi && (p < m + 1 || q >= t) ensures Le(cmp, e[p], e[q]) {
      if s <= p < m && m < q < t { LeTrans(cmp, e[p], e[m], e[q]); }
    }
  }

  /** Both sides of a split may be permuted. */
  lemma SplitPermuted(e: seq<Bytes>, e': seq<Bytes>, cmp: Compare, s: nat, m: nat, t: nat, x: nat, y: nat)
    requires Split(e, cmp, s, m, t) && Permutes(e, e', x, y) && ((x == s && y == m) || (x == m + 1 && y == t))
    ensures Split(e', cmp, s, m, t)
  {
    hide Le, Permutes;
    PermutesOutside(e, e', x, y, m);
    PermutesLength(e, e', x, y);
    forall p | s <= p < t && p != m ensures if p < m then Le(cmp, e'[p], e'[m]) else Le(cmp, e'[m], e'[p]) {
      if x <= p < y { var p' := PermutesMember(e, e', x, y, p); } else { PermutesOutside(e, e', x, y, p); }
    }
  }

  lemma PermutesLength<T(!new)>(e: seq<T>, e': seq<T>, s: nat, t: nat)
    requires Permutes(e, e', s, t)
    ensures |e'| == |e|
  {
  }

  // ----- a part of the memory -----

  /** Bytes outside x to y are as they were. */
  ghost predicate Outside(b: Bytes, b': Bytes, x: nat, y: nat) {
    |b'| == |b| && forall k {:trigger b'[k]} :: 0 <= k < |b| && !(x <= k < y) ==> b'[k] == b[k]
  }

  lemma OutsideTrans(a: Bytes, b: Bytes, c: Bytes, x: nat, y: nat, v: nat, w: nat)
    requires Outside(a, b, x, y) && Outside(b, c, v, w) && x <= v && w <= y
    ensures Outside(a, c, x, y)
  {
  }

  lemma OutsideExchanged(b: Bytes, b': Bytes, s1: nat, s2: nat, n: nat, x: nat, y: nat)
    requires Exchanged(b, b', s1, s2, n) && x <= s1 && x <= s2 && s1 + n <= y && s2 + n <= y
    ensures Outside(b, b', x, y)
  {
  }

  lemma ElementOutside(b: Bytes, b': Bytes, x: nat, y: nat, base: nat, size: nat, k: nat)
    requires Outside(b, b', x, y) && (At(base, size, k) + size <= x || y <= At(base, size, k))
    ensures Element(b', base, size, k) == Element(b, base, size, k)
  {
    hide At;
  }

  /** Permuting the elements of a part permutes that part of all. */
  lemma Lift(b: Bytes, b': Bytes, base: nat, size: nat, n: nat, s: nat, m: nat)
    requires s + m <= n && Outside(b, b', At(base, size, s), At(base, size, s + m))
    requires Permutes(Elements(b, At(base, size, s), size, m), Elements(b', At(base, size, s), size, m), 0, m)
    ensures Permutes(Elements(b, base, size, n), Elements(b', base, size, n), s, s + m)
  {
    hide At, Element, Outside;
    var e, e' := Elements(b, base, size, n), Elements(b', base, size, n);
    ElementsInside(b, base, size, n, s, m);
    ElementsInside(b', base, size, n, s, m);
    assert e[s..s + m][0..m] == e[s..s + m] && e'[s..s + m][0..m] == e'[s..s + m];
    forall k | 0 <= k < n && !(s <= k < s + m) ensures e'[k] == e[k] {
      if k < s { Apart(base, size, k, s); } else if k > s + m { Apart(base, size, s + m, k); }
      ElementOutside(b, b', At(base, size, s), At(base, size, s + m), base, size, k);
    }
    assert e'[..s] == e[..s] && e'[s + m..] == e[s + m..];
  }

  // ----- the sort -----

  /** memswap of two elements. */
  method SwapElements(a: array<Byte>, base: nat, size: nat, ghost n: nat, i: nat, j: nat)
    requires i < n && j < n && At(base, size, n) <= a.Length
    modifies a
    ensures Elements(a[..], base, size, n) == Swap(Elements(old(a[..]), base, size, n), i, j)
    ensures Outside(old(a[..]), a[..], base, At(base, size, n))
  {
    hide Exchanged, Element, At, Outside;
    ghost var b := a[..];
    Apart(base, size, i, n);
    Apart(base, size, j, n);
    if i < j { Apart(base, size, i, j); }
    if j < i { Apart(base, size, j, i); }
    AtBase(base, size, i);
    AtBase(base, size, j);
    MemSwap(a, At(base, size, i), At(base, size, j), size);
    ElementsSwapped(b, a[..], base, size, n, i, j);
    OutsideExchanged(b, a[..], At(base, size, i), At(base, size, j), size, base, At(base, size, n));
  }

  lemma AtBase(base: nat, size: nat, i: nat)
    ensures At(base, size, 0) == base <= At(base, size, i)
  {
  }

  /** The result of the comparison of elements j and 0. */
  method CompareWithFirst(a: array<Byte>, base: nat, size: nat, ghost n: nat, cmp: Compare, j: nat) returns (r: int)
    requires 0 < n && j < n && At(base, size, n) <= a.Length
    ensures r == cmp(Elements(a[..], base, size, n)[j], Elements(a[..], base, size, n)[0])
  {
    Apart(base, size, j, n);
    Apart(base, size, 0, n);
    r := cmp(a[At(base, size, j)..At(base, size, j) + size], a[base..base + size]);
    assert a[..][base..base + size] == a[base..base + size];
    assert a[..][At(base, size, j)..At(base, size, j) + size] == a[At(base, size, j)..At(base, size, j) + size];
  }

  /** One pass: the middle element becomes the pivot, the smaller ones are gathered at the
      front, and the pivot is put after them. */
  method Partition(a: array<Byte>, start: nat, nmemb: nat, size: nat, cmp: Compare) returns (i: nat)
    requires TotalPreorder(cmp) && nmemb > 1 && At(start, size, nmemb) <= a.Length
    modifies a
    ensures 1 <= i <= nmemb && Split(Elements(a[..], start, size, nmemb), cmp, 0, i - 1, nmemb)
    ensures Permutes(Elements(old(a[..]), start, size, nmemb), Elements(a[..], start, size, nmemb), 0, nmemb)
    ensures Outside(old(a[..]), a[..], start, At(start, size, nmemb))
  {
    hide TotalPreorder, Elements, Swap, At, Outside, Permutes, Parted, Split;
    ghost var b0, e0 := a[..], Elements(a[..], start, size, nmemb);
    var pivotPoint := nmemb / 2;
    SwapElements(a, start, size, nmemb, pivotPoint, 0);
    PermutesSwap(e0, pivotPoint, 0, 0, nmemb);
    i := 1;
    var j := 1;
    PartedFirst(Elements(a[..], start, size, nmemb), cmp);
    while j < nmemb
      invariant 1 <= i <= j <= nmemb
      invariant Parted(Elements(a[..], start, size, nmemb), cmp, i, j)
      invariant Permutes(e0, Elements(a[..], start, size, nmemb), 0, nmemb)
      invariant Outside(b0, a[..], start, At(start, size, nmemb))
    {
      ghost var b, e := a[..], Elements(a[..], start, size, nmemb);
      var order := CompareWithFirst(a, start, size, nmemb, cmp, j);
      if order < 0 {
        PartedSmall(e, cmp, i, j);
        SwapElements(a, start, size, nmemb, j, i);
        PermutesSwap(e, j, i, 0, nmemb);
        PermutesTrans(e0, e, Swap(e, j, i), 0, nmemb);
        OutsideTrans(b0, b, a[..], start, At(start, size, nmemb), start, At(start, size, nmemb));
        i := i + 1;
      } else {
        PartedLarge(e, cmp, i, j);
      }
      j := j + 1;
    }
    ghost var b, e := a[..], Elements(a[..], start, size, nmemb);
    PartedSplit(e, cmp, i);
    SwapElements(a, start, size, nmemb, 0, i - 1);
    PermutesSwap(e, 0, i - 1, 0, nmemb);
    PermutesTrans(e0, e, Swap(e, 0, i - 1), 0, nmemb);
    OutsideTrans(b0, b, a[..], start, At(start, size, nmemb), start, At(start, size, nmemb));
  }

  lemma PartedFirst(e: seq<Bytes>, cmp: Compare)
    requires |e| > 0
    ensures Parted(e, cmp, 1, 1)
  {
  }

  /** Where a run of qsort is: only elements s to t are still to be sorted. */
  ghost predicate State(b0: Bytes, b: Bytes, base: nat, size: nat, n: nat, cmp: Compare, s: nat, t: nat) {
    && Settled(Elements(b, base, size, n), cmp, 0, n, s, t)
    && Permutes(Elements(b0, base, size, n), Elements(b, base, size, n), 0, n)
    && Outside(b0, b, base, At(base, size, n))
  }

  /** b' is b with the m elements from s on permuted. */
  ghost predicate PartMoved(b: Bytes, b': Bytes, base: nat, size: nat, s: nat, m: nat) {
    && Permutes(Elements(b, At(base, size, s), size, m), Elements(b', At(base, size, s), size, m), 0, m)
    && Outside(b, b', At(base, size, s), At(At(base, size, s), size, m))
  }

  lemma AtSum(base: nat, size: nat, s: nat, m: nat)
    ensures At(At(base, size, s), size, m) == At(base, size, s + m)
  {
  }

  lemma AtGrows(base: nat, size: nat, i: nat, j: nat)
    requires i <= j
    ensures At(base, size, i) <= At(base, size, j)
  {
    if i < j { Apart(base, size, i, j); }
  }

  /** Moving part of what is not yet sorted keeps the state. */
  lemma StateMoved(b0: Bytes, b: Bytes, b': Bytes, base: nat, size: nat, n: nat, cmp: Compare, s: nat, t: nat, x: nat,
                   m: nat)
    requires State(b0, b, base, size, n, cmp, s, t) && PartMoved(b, b', base, size, x, m) && s <= x && x + m <= t <= n
    ensures State(b0, b', base, size, n, cmp, s, t)
    ensures Permutes(Elements(b, base, size, n), Elements(b', base, size, n), x, x + m)
  {
    hide Elements, At, Outside, Permutes, Settled;
    AtSum(base, size, x, m);
    Lift(b, b', base, size, n, x, m);
    var e0, e, e' := Elements(b0, base, size, n), Elements(b, base, size, n), Elements(b', base, size, n);
    PermutesWiden(e, e', x, x + m, s, t);
    SettledPermuted(e, e', cmp, 0, n, s, t);
    PermutesWiden(e, e', x, x + m, 0, n);
    PermutesTrans(e0, e, e', 0, n);
    AtGrows(base, size, 0, x);
    AtBase(base, size, 0);
    AtGrows(base, size, x + m, n);
    OutsideTrans(b0, b, b', base, At(base, size, n), At(base, size, x), At(base, size, x + m));
  }

  lemma LiftSplit(b: Bytes, base: nat, size: nat, n: nat, cmp: Compare, s: nat, m: nat, k: nat)
    requires s + m <= n && Split(Elements(b, At(base, size, s), size, m), cmp, 0, k, m)
    ensures Split(Elements(b, base, size, n), cmp, s, s + k, s + m)
  {
    hide At, Element, Elements, Le;
    var e, part := Elements(b, base, size, n), Elements(b, At(base, size, s), size, m);
    ElementsInside(b, base, size, n, s, m);
    assert forall p :: s <= p < s + m ==> e[p] == part[p - s];
  }

  lemma LiftSorted(b: Bytes, base: nat, size: nat, n: nat, cmp: Compare, s: nat, m: nat)
    requires s + m <= n && Sorted(Elements(b, At(base, size, s), size, m), cmp, 0, m)
    ensures Sorted(Elements(b, base, size, n), cmp, s, s + m)
  {
    hide At, Element, Elements, Le;
    var e, part := Elements(b, base, size, n), Elements(b, At(base, size, s), size, m);
    ElementsInside(b, base, size, n, s, m);
    assert forall p :: s <= p < s + m ==> e[p] == part[p - s];
  }

  /** One side of a split is sorted: the other side is what is left. */
  lemma SideSorted(b0: Bytes, b: Bytes, b': Bytes, base: nat, size: nat, n: nat, cmp: Compare, s: nat, m: nat, t: nat,
                   right: bool)
    requires TotalPreorder(cmp) && State(b0, b, base, size, n, cmp, s, t)
             && Split(Elements(b, base, size, n), cmp, s, m, t)
    requires s <= m < t <= n
    requires var x, len := if right then m + 1 else s, if right then t - m - 1 else m - s;
             PartMoved(b, b', base, size, x, len) && Sorted(Elements(b', At(base, size, x), size, len), cmp, 0, len)
    ensures if right then State(b0, b', base, size, n, cmp, s, m) else State(b0, b', base, size, n, cmp, m + 1, t)
  {
    hide TotalPreorder, Elements, At, Outside, Permutes, Settled, Split, Sorted, PartMoved;
    var x, len := if right then m + 1 else s, if right then t - m - 1 else m - s;
    var e, e' := Elements(b, base, size, n), Elements(b', base, size, n);
    StateMoved(b0, b, b', base, size, n, cmp, s, t, x, len);
    SplitPermuted(e, e', cmp, s, m, t, x, x + len);
    LiftSorted(b', base, size, n, cmp, x, len);
    if right { SettledRight(e', cmp, 0, n, s, m, t); } else { SettledLeft(e', cmp, 0, n, s, m, t); }
  }

  lemma StateStarts(b: Bytes, base: nat, size: nat, n: nat, cmp: Compare)
    ensures State(b, b, base, size, n, cmp, 0, n)
  {
    hide Elements;
  }

  lemma StateEnds(b0: Bytes, b: Bytes, base: nat, size: nat, n: nat, cmp: Compare, s: nat, t: nat)
    requires State(b0, b, base, size, n, cmp, s, t) && t <= s + 1
    ensures Sorted(Elements(b, base, size, n), cmp, 0, n)
    ensures Permutes(Elements(b0, base, size, n), Elements(b, base, size, n), 0, n)
    ensures Outside(b0, b, base, At(base, size, n))
  {
    hide Elements, Le, Permutes, Outside;
  }

  /** The elements are sorted, the bytes around them are untouched, and depth, how deep calls
      are nested, is at most the logarithm of the number of elements. */
  method Qsort(a: array<Byte>, base: nat, nmemb: nat, size: nat, cmp: Compare) returns (ghost depth: nat)
    requires TotalPreorder(cmp) && At(base, size, nmemb) <= a.Length
    modifies a
    ensures Sorted(Elements(a[..], base, size, nmemb), cmp, 0, nmemb)
    ensures Permutes(Elements(old(a[..]), base, size, nmemb), Elements(a[..], base, size, nmemb), 0, nmemb)
    ensures Outside(old(a[..]), a[..], base, At(base, size, nmemb))
    ensures Pow2(depth) <= if nmemb > 1 then nmemb else 1
    decreases nmemb
  {
    hide TotalPreorder, Elements, At, Outside, Permutes, Split, Sorted, State;
    ghost var b0 := a[..];
    var start: nat, n: nat := base, nmemb;
    ghost var s := 0;
    AtBase(base, size, 0);
    StateStarts(b0, base, size, nmemb, cmp);
    depth := 0;
    while n > 1
      invariant s + n <= nmemb && start == At(base, size, s)
      invariant State(b0, a[..], base, size, nmemb, cmp, s, s + n)
      invariant Pow2(depth) <= if nmemb > 1 then nmemb else 1
      decreases n
    {
      ghost var b := a[..];
      AtSum(base, size, s, n);
      AtGrows(base, size, s + n, nmemb);
      var i := Partition(a, start, n, size, cmp);
      ghost var b1 := a[..];
      StateMoved(b0, b, b1, base, size, nmemb, cmp, s, s + n, s, n);
      LiftSplit(b1, base, size, nmemb, cmp, s, n, i - 1);
      AtSum(base, size, s, i);
      ghost var d: nat;
      if i > n / 2 {
        AtSum(base, size, s + i, n - i);
        d := Qsort(a, At(start, size, i), n - i, size, cmp);
        SideSorted(b0, b1, a[..], base, size, nmemb, cmp, s, s + i - 1, s + n, true);
        n := i - 1;
      } else {
        AtSum(base, size, s, i - 1);
        AtGrows(base, size, s + i - 1, nmemb);
        d := Qsort(a, start, i - 1, size, cmp);
        SideSorted(b0, b1, a[..], base, size, nmemb, cmp, s, s + i - 1, s + n, false);
        n := n - i;
        start := At(start, size, i);
        s := s + i;
      }
      depth := if d + 1 > depth then d + 1 else depth;
    }
    StateEnds(b0, a[..], base, size, nmemb, cmp, s, s + n);
  }
}
