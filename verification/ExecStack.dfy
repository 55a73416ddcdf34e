/** The stack that execve builds for a new program (kernel/syscall/exec.c): strings and
    pointer arrays written downwards into raw memory, which the program reads as the
    arguments of main (userland/lib/crt0.c). */
module ExecStack {
  import opened Basics
  import opened CStrings
  import opened Words

  const STACK_SIZE := 0x4000

  // ----- next_power_of_two -----

  /** Leading zeros of a 32-bit word that is not 0. */
  function Clz(x: nat): nat
    requires 0 < x < WORD
    decreases WORD - x
  {
    if x >= 0x8000_0000 then 0 else 1 + Clz(2 * x)
  }

  function ShiftRight(x: nat, k: nat): nat
    decreases k
  {
    if k == 0 then x else ShiftRight(x / 2, k - 1)
  }

  /** Above 2^31 the sum wraps around to 0. */
  function NextPowerOfTwo(x: nat): nat
    requires x < WORD
  {
    if x <= 1 then 1 else (ShiftRight(0xFFFF_FFFF, Clz(x - 1)) + 1) % WORD
  }

  lemma {:induction false} Ones(n: nat, k: nat)
    requires k <= n
    ensures ShiftRight(Pow2(n) - 1, k) == Pow2(n - k) - 1
    decreases k
  {
    if k > 0 {
      assert (Pow2(n) - 1) / 2 == Pow2(n - 1) - 1;
      Ones(n - 1, k - 1);
    }
  }

  lemma {:induction false} ClzBounds(x: nat)
    requires 0 < x < WORD
    ensures Clz(x) <= 31 && Pow2(31 - Clz(x)) <= x < Pow2(32 - Clz(x))
    decreases WORD - x
  {
    Powers();
    if x < 0x8000_0000 {
      ClzBounds(2 * x);
      assert Pow2(1) == 2;
    }
  }

  lemma Powers()
    ensures Pow2(31) == 0x8000_0000 && Pow2(32) == WORD
  {
    assert Pow2(8) == 256;
    assert Pow2(16) == 0x10000;
    assert Pow2(24) == 0x1000000;
  }

  lemma Pow2Is(n: nat)
    ensures Pow2(0) == 1 && Pow2(n + 1) == 2 * Pow2(n)
  {
  }

  /** The next power of two is one, is not below x, and is below twice x. */
  lemma NextPowerOfTwoBounds(x: nat)
    requires 0 < x <= 0x8000_0000
    ensures x <= NextPowerOfTwo(x) < 2 * x
    ensures exists n :: NextPowerOfTwo(x) == Pow2(n)
  {
    hide ShiftRight, Clz, Pow2;
    Powers();
    if x == 1 {
      Pow2Is(0);
      assert NextPowerOfTwo(x) == Pow2(0);
    } else {
      var k := Clz(x - 1);
      ClzBounds(x - 1);
      Ones(32, k);
      assert k != 0;
      Pow2Is(31 - k);
      PowGrows(32 - k, 31);
      assert NextPowerOfTwo(x) == Pow2(32 - k);
    }
  }

  lemma NextPowerOfTwoLimit(x: nat)
    requires 0 < x <= 0x8000_0000
    ensures NextPowerOfTwo(x) <= 0x8000_0000
  {
    NextPowerOfTwoBounds(x);
    Powers();
    var n: nat :| NextPowerOfTwo(x) == Pow2(n);
    if n > 31 { PowGrows(32, n); } else { PowGrows(n, 31); }
  }

  lemma {:induction false} PowGrows(a: nat, b: nat)
    requires a <= b
    ensures Pow2(a) <= Pow2(b)
    decreases b - a
  {
    if a < b { PowGrows(a, b - 1); }
  }

  // ----- what a program reads -----

  function LoadWord(m: Bytes, o: nat): (w: nat)
    requires o + 4 <= |m|
    ensures w < WORD
  {
    m[o] as int + 0x100 * m[o + 1] as int + 0x10000 * m[o + 2] as int + 0x1000000 * m[o + 3] as int
  }

  /** The strings that a null-terminated array of pointers at address p lists, in memory
      m that starts at address base. */
  function ReadVector(m: Bytes, base: nat, p: nat): seq<Bytes>
    decreases base + |m| - p
  {
    if p < base || base + |m| < p + 4 then []
    else
      var w := LoadWord(m, p - base);
      if w == 0 then []
      else [if base <= w <= base + |m| then CString(m[w - base..]) else []] + ReadVector(m, base, p + 4)
  }

  // ----- what is in memory -----

  /** String s is at address p, with its null character. */
  ghost predicate StringAt(m: Bytes, base: nat, p: nat, s: Bytes) {
    base <= p && NoNul(s) && Copied(m, p - base, s)
  }

  ghost predicate WordAt(m: Bytes, base: nat, p: int, w: nat) {
    base <= p && p - base + 4 <= |m| && LoadWord(m, p - base) == w
  }

  /** ptrs point at the strings, the last string first. */
  ghost predicate Strings(m: Bytes, base: nat, ptrs: seq<nat>, strs: seq<Bytes>) {
    && |ptrs| == |strs|
    && forall i {:trigger strs[i]} :: 0 <= i < |strs| ==> StringAt(m, base, ptrs[|strs| - 1 - i], strs[i])
  }

  /** The first n of the pointers are at falling addresses below p. */
  ghost predicate Stacked(m: Bytes, base: nat, p: nat, ptrs: seq<nat>, n: nat) {
    n <= |ptrs| && forall i {:trigger ptrs[i]} :: 0 <= i < n ==> WordAt(m, base, p - 4 * (i + 1), ptrs[i])
  }

  /** Memory m' is memory m from address p on. */
  ghost predicate Above(m: Bytes, m': Bytes, base: nat, p: nat) {
    |m'| == |m| && base <= p && forall k :: p - base <= k < |m| ==> m'[k] == m[k]
  }

  lemma StringKept(m: Bytes, m': Bytes, base: nat, p: nat, q: nat, s: Bytes)
    requires Above(m, m', base, p) && p <= q && StringAt(m, base, q, s)
    ensures StringAt(m', base, q, s)
  {
    var o := q - base;
    assert forall k :: o <= k < o + |s| ==> m'[k] == m[k];
    assert m'[o..o + |s|] == m[o..o + |s|];
  }

  lemma WordKept(m: Bytes, m': Bytes, base: nat, p: nat, q: nat, w: nat)
    requires Above(m, m', base, p) && p <= q && WordAt(m, base, q, w)
    ensures WordAt(m', base, q, w)
  {
  }

  lemma StringsKept(m: Bytes, m': Bytes, base: nat, p: nat, ptrs: seq<nat>, strs: seq<Bytes>)
    requires Above(m, m', base, p) && Strings(m, base, ptrs, strs) && forall i :: 0 <= i < |ptrs| ==> ptrs[i] >= p
    ensures Strings(m', base, ptrs, strs)
  {
    hide StringAt, Above;
    forall i | 0 <= i < |strs| ensures StringAt(m', base, ptrs[|strs| - 1 - i], strs[i]) {
      StringKept(m, m', base, p, ptrs[|strs| - 1 - i], strs[i]);
    }
  }

  lemma StackedKept(m: Bytes, m': Bytes, base: nat, p: nat, top: nat, ptrs: seq<nat>, n: nat)
    requires Above(m, m', base, p) && Stacked(m, base, top, ptrs, n) && p + 4 * n <= top
    ensures Stacked(m', base, top, ptrs, n)
  {
    hide WordAt, Above;
    forall i | 0 <= i < n ensures WordAt(m', base, top - 4 * (i + 1), ptrs[i]) {
      WordKept(m, m', base, p, top - 4 * (i + 1), ptrs[i]);
    }
  }

  /** A vector: pointers below a null word, and the strings they point at. */
  ghost predicate Vector(m: Bytes, base: nat, top: nat, ptrs: seq<nat>, strs: seq<Bytes>) {
    Strings(m, base, ptrs, strs) && Stacked(m, base, top, ptrs, |ptrs|) && WordAt(m, base, top, 0)
  }

  /** Read from its j-th string on, a vector lists exactly the strings from there, in order. */
  lemma {:induction false} VectorReads(m: Bytes, base: nat, top: nat, ptrs: seq<nat>, strs: seq<Bytes>, j: nat)
    requires 0 < base && Vector(m, base, top, ptrs, strs) && j <= |strs|
    ensures top >= 4 * (|strs| - j) && ReadVector(m, base, top - 4 * (|strs| - j)) == strs[j..]
    decreases |strs| - j
  {
    hide WordAt, StringAt, ReadVector;
    if j < |strs| {
      var i := |strs| - 1 - j;
      assert WordAt(m, base, top - 4 * (i + 1), ptrs[i]) && StringAt(m, base, ptrs[|strs| - 1 - j], strs[j]);
      VectorReads(m, base, top, ptrs, strs, j + 1);
      ReadOne(m, base, top - 4 * (i + 1), ptrs[i], strs[j]);
      assert strs[j..] == [strs[j]] + strs[j + 1..];
    } else {
      ReadNone(m, base, top);
    }
  }

  lemma ReadOne(m: Bytes, base: nat, p: int, w: nat, s: Bytes)
    requires 0 < base && WordAt(m, base, p, w) && StringAt(m, base, w, s)
    ensures p >= base && ReadVector(m, base, p) == [s] + ReadVector(m, base, p + 4)
  {
    hide LoadWord, StringAt, CString;
    ReadString(m, base, w, s);
  }

  lemma ReadNone(m: Bytes, base: nat, p: nat)
    requires WordAt(m, base, p, 0)
    ensures ReadVector(m, base, p) == []
  {
  }

  lemma ReadString(m: Bytes, base: nat, p: nat, s: Bytes)
    requires StringAt(m, base, p, s)
    ensures base <= p < base + |m| && CString(m[p - base..]) == s
  {
    CStringAt(m, p - base, s);
  }

  // ----- the room it takes -----

  /** What the first i strings take, each rounded up. */
  function Rounded(strs: seq<Bytes>, i: nat): nat
    requires i <= |strs| && forall k :: 0 <= k < |strs| ==> |strs[k]| + 1 < WORD
  {
    if i == 0 then 0 else Rounded(strs, i - 1) + NextPowerOfTwo(|strs[i - 1]| + 1)
  }

  predicate Short(strs: seq<Bytes>) {
    forall k :: 0 <= k < |strs| ==> |strs[k]| + 1 <= 0x8000_0000 && NoNul(strs[k])
  }

  /** The size check of push_strings, in 32-bit arithmetic, lets a string of this size pass. */
  predicate Passes(base: nat, sp: nat, size: nat) {
    size <= sp - base || size > sp
  }

  lemma OneShort(strs: seq<Bytes>, i: nat)
    requires Short(strs) && i < |strs|
    ensures |strs[i]| + 1 <= 0x8000_0000 && NoNul(strs[i])
  {
  }

  lemma PassesIs(base: nat, sp: nat, size: nat)
    requires base <= sp < WORD && size < WORD
    ensures Passes(base, sp, size) <==> (sp - size) % WORD >= base
  {
    if size > sp { assert (sp - size) % WORD == sp - size + WORD; }
  }

  /** A string that has room for its rounded size is on the stack, and another is not,
      wherever the subtraction takes it. */
  lemma PlaceIs(base: nat, sp: nat, size: nat)
    requires base <= sp <= base + STACK_SIZE < WORD && 0 < size <= 0x8000_0000
    ensures var p := (sp - NextPowerOfTwo(size)) % WORD;
            && (NextPowerOfTwo(size) <= sp - base ==> p == sp - NextPowerOfTwo(size))
            && (base <= p && p + size <= base + STACK_SIZE <==> NextPowerOfTwo(size) <= sp - base)
  {
    NextPowerOfTwoBounds(size);
    NextPowerOfTwoLimit(size);
    var d := sp - NextPowerOfTwo(size);
    if d < 0 { assert d % WORD == d + WORD; } else { assert d % WORD == d; }
  }

  predicate RoundingFitsAt(base: nat, sp: nat, strs: seq<Bytes>, i: nat)
    requires Short(strs) && i < |strs|
  {
    Rounded(strs, i) <= sp - base && Passes(base, sp - Rounded(strs, i), |strs[i]| + 1) ==>
      Rounded(strs, i + 1) <= sp - base
  }

  /** No string passes the check while its rounded size does not fit. */
  ghost predicate RoundingFits(base: nat, sp: nat, strs: seq<Bytes>)
    requires Short(strs)
  {
    forall i :: 0 <= i < |strs| ==> RoundingFitsAt(base, sp, strs, i)
  }

  lemma {:induction false} RoundedGrows(strs: seq<Bytes>, i: nat, j: nat)
    requires Short(strs) && i <= j <= |strs|
    ensures Rounded(strs, i) <= Rounded(strs, j)
    decreases j - i
  {
    if i < j { RoundedGrows(strs, i, j - 1); }
  }

  lemma RoundedStep(strs: seq<Bytes>, i: nat)
    requires Short(strs) && i < |strs|
    ensures Rounded(strs, i + 1) == Rounded(strs, i) + NextPowerOfTwo(|strs[i]| + 1) >= Rounded(strs, i) + |strs[i]| + 1
  {
    NextPowerOfTwoBounds(|strs[i]| + 1);
  }

  lemma RoundsUp()
    ensures NextPowerOfTwo(9001) == 0x4000 && NextPowerOfTwo(1) == 1
  {
    NextPowerOfTwoBounds(9001);
    var n: nat :| NextPowerOfTwo(9001) == Pow2(n);
    assert Pow2(5) == 32 && Pow2(10) == 1024 && Pow2(13) == 8192;
    assert Pow2(14) == 0x4000 && Pow2(15) == 0x8000;
    if n < 14 { PowGrows(n, 13); }
    if n > 14 { PowGrows(15, n); }
  }

  /** After an environment string of one byte, one of 9000 passes the size check, and is
      written below the stack: see PushStrings. */
  lemma RoundingCanMissTheStack(base: nat, s: Bytes)
    requires |s| == 9000 && NoNul(s)
    ensures Short([[], s]) && !RoundingFits(base, base + STACK_SIZE, [[], s])
  {
    var strs: seq<Bytes> := [[], s];
    RoundsUp();
    hide NextPowerOfTwo;
    assert strs[1] == s;
    assert Rounded(strs, 0) == 0 && Rounded(strs, 1) == 1 && Rounded(strs, 2) == 1 + 0x4000;
    assert !RoundingFitsAt(base, base + STACK_SIZE, strs, 1);
  }

  // ----- string lists -----

  /** The strings at addresses src of memory u. */
  function Texts(u: Bytes, src: seq<nat>): (t: seq<Bytes>)
    requires Pointers(u, src)
    ensures |t| == |src|
  {
    seq(|src|, i requires 0 <= i < |src| => CString(u[src[i]..]))
  }

  predicate Pointers(u: Bytes, src: seq<nat>) {
    forall i :: 0 <= i < |src| ==> src[i] <= |u| && Terminated(u[src[i]..])
  }

  /** Where the i-th string starts in the copy. */
  function Start(strs: seq<Bytes>, i: nat): nat
    requires i <= |strs|
  {
    if i == 0 then 0 else Start(strs, i - 1) + |strs[i - 1]| + 1
  }

  /** A copy of strings, one after the other in one buffer. */
  class StringList {
    var count: nat
    var buf: array<Byte>
    var elements: array<nat>

    /** The list holds strs. */
    ghost predicate Holds(strs: seq<Bytes>)
      reads this, buf, elements
    {
      && count == |strs| == elements.Length
      && (forall i {:trigger elements[i]} :: 0 <= i < count ==> NoNul(strs[i]) && Copied(buf[..], elements[i], strs[i]))
    }

    lemma Counts(strs: seq<Bytes>)
      requires Holds(strs)
      ensures count == |strs|
    {
    }

    /** string_list_create, from null-terminated strings of the caller. */
    constructor (user: array<Byte>, src: seq<nat>)
      requires Pointers(user[..], src)
      ensures Holds(Texts(user[..], src)) && fresh(buf) && fresh(elements)
    {
      count := 0;
      buf, elements := new Byte[0], new nat[0];
      new;
      hide Copied, Terminated, CString, CopiedUpTo, NoNul;
      var total;
      count, total := Measure(user, src);
      if count == 0 { return; }
      buf := new Byte[total];
      elements := new nat[count];
      CopyAll(user, src, Texts(user[..], src));
    }

    /** The measuring loop. */
    static method Measure(user: array<Byte>, src: seq<nat>) returns (count: nat, total: nat)
      requires Pointers(user[..], src)
      ensures count == |src| && total == Start(Texts(user[..], src), |src|)
    {
      hide Terminated, CString;
      count, total := 0, 0;
      while count < |src|
        invariant count <= |src| && total == Start(Texts(user[..], src), count)
      {
        assert user[src[count]..] == user[..][src[count]..];
        var len := Strlen(user, src[count]);
        total := total + len + 1;
        count := count + 1;
      }
    }

    /** The copying loop. */
    method CopyAll(user: array<Byte>, src: seq<nat>, ghost strs: seq<Bytes>)
      requires Pointers(user[..], src) && strs == Texts(user[..], src) && buf != user
      requires |src| == elements.Length && Start(strs, |strs|) == buf.Length
      modifies buf, elements
      ensures forall k {:trigger elements[k]} :: 0 <= k < |strs| ==> Copied(buf[..], elements[k], strs[k])
    {
      hide Copied, Terminated, CString, CopiedUpTo;
      var cursor := 0;
      var i := 0;
      NoneCopied(buf[..], elements[..], strs);
      while i < elements.Length
        invariant i <= elements.Length && cursor == Start(strs, i)
        invariant CopiedUpTo(buf[..], elements[..], strs, i, cursor)
      {
        cursor := CopyOne(user, src[i], strs, i, cursor);
        i := i + 1;
      }
      AllCopied(buf[..], elements[..], strs, cursor);
    }

    /** One turn of the copying loop. */
    method CopyOne(user: array<Byte>, from: nat, ghost strs: seq<Bytes>, i: nat, cursor: nat) returns (next: nat)
      requires i < |strs| == elements.Length && user != buf && Start(strs, i) == cursor
               && Start(strs, |strs|) == buf.Length
      requires from <= user.Length && Terminated(user[..][from..]) && CString(user[..][from..]) == strs[i]
               && CopiedUpTo(buf[..], elements[..], strs, i, cursor)
      modifies buf, elements
      ensures next == Start(strs, i + 1) && CopiedUpTo(buf[..], elements[..], strs, i + 1, next)
    {
      hide Copied, Terminated, CString, CopiedUpTo;
      assert user[from..] == user[..][from..];
      var size := Strlen(user, from);
      StartGrows(strs, i + 1, |strs|);
      ghost var before, at := buf[..], elements[..];
      var _ := Strlcpy(buf, cursor, user, from, size + 1);
      elements[i] := cursor;
      assert strs[i][..size] == strs[i];
      CopiedOn(before, buf[..], at, elements[..], strs, i, cursor);
      next := cursor + size + 1;
    }
  }

  /** The first n strings are in u below the cursor. */
  ghost predicate CopiedUpTo(u: Bytes, at: seq<nat>, strs: seq<Bytes>, n: nat, cursor: nat) {
    && n <= |at| && n <= |strs| && cursor <= |u|
    && forall k {:trigger at[k]} :: 0 <= k < n ==> at[k] + |strs[k]| < cursor && Copied(u, at[k], strs[k])
  }

  lemma NoneCopied(u: Bytes, at: seq<nat>, strs: seq<Bytes>)
    ensures CopiedUpTo(u, at, strs, 0, 0)
  {
  }

  lemma AllCopied(u: Bytes, at: seq<nat>, strs: seq<Bytes>, cursor: nat)
    requires CopiedUpTo(u, at, strs, |strs|, cursor)
    ensures |strs| <= |at| && forall k {:trigger at[k]} :: 0 <= k < |strs| ==> Copied(u, at[k], strs[k])
  {
  }

  /** What is copied below the cursor stays, when the next string is written at the cursor. */
  lemma CopiedOn(u: Bytes, u': Bytes, at: seq<nat>, at': seq<nat>, strs: seq<Bytes>, n: nat, cursor: nat)
    requires CopiedUpTo(u, at, strs, n, cursor) && n < |at| && n < |strs| && |u| == |u'|
    requires forall k :: 0 <= k < cursor ==> u'[k] == u[k]
    requires at' == at[n := cursor] && Copied(u', cursor, strs[n])
    ensures CopiedUpTo(u', at', strs, n + 1, cursor + |strs[n]| + 1)
  {
    forall k {:trigger at'[k]} | 0 <= k < n ensures Copied(u', at'[k], strs[k]) {
      assert at'[k] == at[k];
      assert u'[at[k]..at[k] + |strs[k]|] == u[at[k]..at[k] + |strs[k]|];
    }
  }

  lemma {:induction false} StartGrows(strs: seq<Bytes>, i: nat, j: nat)
    requires i <= j <= |strs|
    ensures Start(strs, i) <= Start(strs, j)
    decreases j - i
  {
    if i < j { StartGrows(strs, i, j - 1); }
  }

  // ----- the stack -----

  function RoundDown(x: nat, align: nat): nat
    requires align > 0
  {
    x - x % align
  }

  /** Everything fits: the rounded strings, two null words and the pointers, and, below a
      multiple of 16, the four words of main. */
  ghost predicate Fits(argv: seq<Bytes>, envp: seq<Bytes>)
    requires Short(argv) && Short(envp)
  {
    Rounded(envp, |envp|) + Rounded(argv, |argv|) + 4 * (|envp| + 1) + 4 * (|argv| + 1) + 16 <= STACK_SIZE
  }

  /** No string, of either list, is written off the stack. */
  ghost predicate StaysOnStack(base: nat, argv: seq<Bytes>, envp: seq<Bytes>)
    requires Short(argv) && Short(envp)
  {
    var top := base + STACK_SIZE;
    && RoundingFits(base, top, envp)
    && (Rounded(envp, |envp|) <= STACK_SIZE ==> RoundingFits(base, top - Rounded(envp, |envp|), argv))
  }

  /** The i-th string ends below the one pushed before it, or below address p. */
  ghost predicate Disjoint(p: nat, ptrs: seq<nat>, strs: seq<Bytes>)
    requires |ptrs| == |strs|
  {
    forall i {:trigger strs[i]} :: 0 <= i < |strs| ==>
      ptrs[|strs| - 1 - i] + |strs[i]| < if i == 0 then p else ptrs[|strs| - i]
  }

  /** 0, -E2BIG, or a write that misses the stack. */
  datatype Push = Done | TooBig | Off

  /** The mapped pages of a new stack, and the kernel's stack pointer into it. */
  class UserStack {
    const base: nat
    const memory: array<Byte>
    var sp: nat

    ghost predicate Valid()
      reads this
    {
      && memory.Length == STACK_SIZE && 0 < base && base % 16 == 0 && base + STACK_SIZE < WORD
      && base <= sp <= base + STACK_SIZE
    }

    constructor (base: nat)
      requires 0 < base && base % 16 == 0 && base + STACK_SIZE < WORD
      ensures Valid() && this.base == base && sp == base + STACK_SIZE && fresh(memory)
    {
      this.base, memory, sp := base, new Byte[STACK_SIZE](_ => 0), base + STACK_SIZE;
    }

    method PushValue(value: nat) returns (ok: bool)
      requires Valid() && value < WORD
      modifies this`sp, memory
      ensures Valid() && ok == (old(sp) >= base + 4)
      ensures ok ==> sp == old(sp) - 4 && WordAt(memory[..], base, sp, value)
      ensures !ok ==> sp == old(sp)
      ensures Above(old(memory[..]), memory[..], base, old(sp))
    {
      if sp - 4 < base { return false; }
      sp := sp - 4;
      var o := sp - base;
      memory[o], memory[o + 1] := Digit(value, 1), Digit(value, 0x100);
      memory[o + 2], memory[o + 3] := Digit(value, 0x10000), Digit(value, 0x1000000);
      Digits(value);
      return true;
    }

    /** The turn of push_strings for one string: the check is of its size, and the move by
        the rounded size, which can lead off the stack. What is written there is not followed. */
    method PushString(list: StringList, ghost strs: seq<Bytes>, i: nat) returns (r: Push)
      requires Valid() && list.Holds(strs) && i < list.count && list.buf != memory && Short(strs)
      modifies this`sp, memory
      ensures r.TooBig? <==> !Passes(base, old(sp), |strs[i]| + 1)
      ensures r.Off? <==> Passes(base, old(sp), |strs[i]| + 1) && NextPowerOfTwo(|strs[i]| + 1) > old(sp) - base
      ensures r.Off? ==> !(base <= sp && sp + |strs[i]| < base + STACK_SIZE)
      ensures r.Done? ==>
                && sp == old(sp) - NextPowerOfTwo(|strs[i]| + 1) && sp + |strs[i]| < old(sp)
                && StringAt(memory[..], base, sp, strs[i])
      ensures r.TooBig? ==> sp == old(sp)
      ensures (!r.Off? ==> Valid()) && Above(old(memory[..]), memory[..], base, old(sp))
    {
      hide NextPowerOfTwo, Passes, Short, CString;
      ghost var s := strs[i];
      OneShort(strs, i);
      assert Copied(list.buf[..], list.elements[i], s);
      CStringAt(list.buf[..], list.elements[i], s);
      assert list.buf[list.elements[i]..] == list.buf[..][list.elements[i]..];
      var size := Strlen(list.buf, list.elements[i]);
      size := size + 1;
      PassesIs(base, sp, size);
      PlaceIs(base, sp, size);
      NextPowerOfTwoBounds(size);
      if (sp - size) % WORD < base { return TooBig; }
      sp := (sp - NextPowerOfTwo(size)) % WORD;
      if !(base <= sp && sp + size <= base + STACK_SIZE) { return Off; }
      var _ := Strlcpy(memory, sp - base, list.buf, list.elements[i], size);
      assert s[..size - 1] == s;
      return Done;
    }

    /** The pointers are left in ptrs, the last string's first. A push leads off the stack
        exactly if the rounded sizes do not fit where the sizes do; otherwise too long a list
        is E2BIG, and all strings are pushed exactly if their rounded sizes fit. */
    method PushStrings(list: StringList, ghost strs: seq<Bytes>) returns (r: Push, ptrs: array<nat>)
      requires Valid() && list.Holds(strs) && list.buf != memory && Short(strs)
      modifies this`sp, memory
      ensures r.Off? <==> !RoundingFits(base, old(sp), strs)
      ensures r.Off? ==>
                || !(base <= sp < base + STACK_SIZE)
                || exists k :: 0 <= k < |strs| && sp + |strs[k]| >= base + STACK_SIZE
      ensures r.Done? <==> old(sp) >= base + Rounded(strs, |strs|)
      ensures fresh(ptrs) && (!r.Off? ==> Valid())
      ensures r.Done? ==> sp == old(sp) - Rounded(strs, |strs|) && ptrs.Length == |strs|
      ensures r.Done? ==> Strings(memory[..], base, ptrs[..], strs) && Disjoint(old(sp), ptrs[..], strs)
      ensures r.Done? ==> forall k :: 0 <= k < ptrs.Length ==> sp <= ptrs[k] < WORD
      ensures Above(old(memory[..]), memory[..], base, old(sp))
    {
      hide StringAt, Above, RoundingFits, Disjoint, Passes;
      ptrs := new nat[list.count];
      var i := 0;
      ghost var m := memory[..];
      AboveSame(m, base, sp);
      while i < list.count
        invariant Valid() && i <= list.count && fresh(ptrs) && ptrs.Length == list.count && list.Holds(strs)
        invariant sp == old(sp) - Rounded(strs, i)
        invariant PassedSoFar(base, old(sp), strs, i)
        invariant Pushed(memory[..], base, old(sp), sp, ptrs[..], strs, i)
        invariant Above(m, memory[..], base, old(sp))
      {
        RoundedStep(strs, i);
        ghost var before, was, p := memory[..], ptrs[..], sp;
        r := PushString(list, strs, i);
        AboveBoth(m, before, memory[..], base, old(sp), p);
        if r.TooBig? { StoppedAt(base, old(sp), strs, i); return; }
        if r.Off? { OffAt(base, old(sp), strs, i); return; }
        ptrs[ptrs.Length - i - 1] := sp;
        PushedOn(before, memory[..], base, old(sp), p, sp, was, ptrs[..], strs, i);
        i := i + 1;
      }
      r := Done;
      PassedAll(base, old(sp), strs);
      AllPushed(memory[..], base, old(sp), sp, ptrs[..], strs);
    }

    method PushPtrs(ptrs: array<nat>) returns (ok: bool)
      requires Valid() && forall k :: 0 <= k < ptrs.Length ==> ptrs[k] < WORD
      modifies this`sp, memory
      ensures Valid() && ok == (old(sp) >= base + 4 * ptrs.Length)
      ensures ok ==> sp == old(sp) - 4 * ptrs.Length && Stacked(memory[..], base, old(sp), ptrs[..], ptrs.Length)
      ensures Above(old(memory[..]), memory[..], base, old(sp))
    {
      hide WordAt, Above;
      ghost var m := memory[..];
      AboveSame(m, base, sp);
      var i := 0;
      while i < ptrs.Length
        invariant Valid() && i <= ptrs.Length && sp == old(sp) - 4 * i
        invariant Stacked(memory[..], base, old(sp), ptrs[..], i)
        invariant Above(m, memory[..], base, old(sp))
      {
        ghost var before, p := memory[..], sp;
        ok := PushValue(ptrs[i]);
        AboveBoth(m, before, memory[..], base, old(sp), p);
        if !ok { return; }
        StackedKept(before, memory[..], base, p, old(sp), ptrs[..], i);
        i := i + 1;
      }
      ok := true;
    }

    /** A null word, and the pointers below it. */
    method PushVector(ptrs: array<nat>, ghost strs: seq<Bytes>) returns (ok: bool, start: nat)
      requires Valid() && Strings(memory[..], base, ptrs[..], strs) && ptrs.Length == |strs|
      requires forall k :: 0 <= k < ptrs.Length ==> sp <= ptrs[k] < WORD
      modifies this`sp, memory
      ensures Valid() && ok == (old(sp) >= base + 4 * (|strs| + 1))
      ensures ok ==> sp == start == old(sp) - 4 * (|strs| + 1) && Vector(memory[..], base, old(sp) - 4, ptrs[..], strs)
      ensures Above(old(memory[..]), memory[..], base, old(sp))
    {
      hide WordAt, Above, Strings, Stacked;
      ghost var m0 := memory[..];
      start := sp;
      ok := PushValue(0);
      if !ok { return; }
      ghost var m1 := memory[..];
      StringsKept(m0, m1, base, old(sp), ptrs[..], strs);
      ok := PushPtrs(ptrs);
      AboveBoth(m0, m1, memory[..], base, old(sp), old(sp) - 4);
      if !ok { return; }
      StringsKept(m1, memory[..], base, old(sp) - 4, ptrs[..], strs);
      WordKept(m1, memory[..], base, old(sp) - 4, old(sp) - 4, 0);
      start := sp;
    }

    /** The arguments of _start, and a return address. */
    method PushFrame(argc: nat, argv: nat, envp: nat) returns (ok: bool)
      requires Valid() && argc < WORD && argv < WORD && envp < WORD
      modifies this`sp, memory
      ensures Valid() && ok == (old(sp) >= base + 16)
      ensures ok ==> sp == old(sp) - 16 && Frame(memory[..], base, sp, argc, argv, envp)
      ensures Above(old(memory[..]), memory[..], base, old(sp))
    {
      hide WordAt, Above;
      ghost var p := sp;
      ghost var m0 := memory[..];
      AboveSame(m0, base, p);
      ok := PushValue(envp);
      if !ok { return; }
      ghost var m1 := memory[..];
      ok := PushValue(argv);
      AboveBoth(m0, m1, memory[..], base, p, p - 4);
      if !ok { return; }
      ghost var m2 := memory[..];
      ok := PushValue(argc);
      AboveBoth(m0, m2, memory[..], base, p, p - 8);
      if !ok { return; }
      ghost var m3 := memory[..];
      ok := PushValue(0);
      AboveBoth(m0, m3, memory[..], base, p, p - 12);
      if !ok { return; }
      ghost var m4 := memory[..];
      AboveBoth(m2, m3, m4, base, p - 8, p - 12);
      AboveBoth(m1, m2, m4, base, p - 4, p - 8);
      WordKept(m1, m4, base, p - 4, p - 4, envp);
      WordKept(m2, m4, base, p - 8, p - 8, argv);
      WordKept(m3, m4, base, p - 12, p - 12, argc);
    }

    /** The stack of a new program. It is built exactly when everything fits, and then what
        _start reads from it is argc, argv and envp: the strings, in order. Strings miss the
        stack exactly if their rounded sizes do not fit where their sizes do. */
    method Build(argv: StringList, envp: StringList, ghost args: seq<Bytes>, ghost env: seq<Bytes>)
      returns (r: Push, ghost argPtrs: seq<nat>, ghost envPtrs: seq<nat>)
      requires Valid() && sp == base + STACK_SIZE && argv.Holds(args) && envp.Holds(env) && argv.buf != memory
               && envp.buf != memory
      requires Short(args) && Short(env) && |args| < WORD
      modifies this`sp, memory
      ensures (r.Done? <==> Fits(args, env)) && (r.Off? <==> !StaysOnStack(base, args, env))
      ensures r.Done? ==> Valid() && sp % 16 == 0 && MainReads(memory[..], base, sp, args, env)
      ensures r.Done? ==> |argPtrs| == |args| && |envPtrs| == |env| && Disjoint(base + STACK_SIZE, envPtrs, env)
      ensures r.Done? ==> Disjoint(if env == [] then base + STACK_SIZE else envPtrs[0], argPtrs, args)
      ensures r.Done? ==> forall k :: 0 <= k < |args| ==> sp < argPtrs[k]
    {
      hide WordAt, Above, Strings, Stacked, Vector, Frame, StringList.Holds, RoundingFits, Short, MainReads, Disjoint,
           Rounded;
      var ok: bool;
      argPtrs, envPtrs := [], [];
      ghost var m0 := memory[..];
      var envPtrs', argPtrs', userEnvp, userArgv;
      r, envPtrs' := PushStrings(envp, env);
      if !r.Done? { return; }
      ghost var m1, p1 := memory[..], sp;
      r, argPtrs' := PushStrings(argv, args);
      if !r.Done? { return; }
      ghost var m2, p2 := memory[..], sp;
      StringsKept(m1, m2, base, p1, envPtrs'[..], env);
      ok, userEnvp := PushVector(envPtrs', env);
      if !ok { return TooBig, [], []; }
      ghost var m3, p3 := memory[..], sp;
      StringsKept(m2, m3, base, p2, argPtrs'[..], args);
      ok, userArgv := PushVector(argPtrs', args);
      if !ok { return TooBig, [], []; }
      ghost var m4, p4 := memory[..], sp;
      VectorKept(m3, m4, base, p3, p2 - 4, envPtrs'[..], env);
      argv.Counts(args);
      sp := RoundDown(sp, 16);
      ghost var p5 := sp;
      ok := PushFrame(argv.count, userArgv, userEnvp);
      FitsLeft(args, env, p4 - base);
      if !ok { return TooBig, [], []; }
      argPtrs, envPtrs := argPtrs'[..], envPtrs'[..];
      ghost var m := memory[..];
      AboveLess(m4, m, base, p5, p4);
      VectorKept(m4, m, base, p4, p2 - 4, envPtrs, env);
      VectorKept(m4, m, base, p4, p3 - 4, argPtrs, args);
      MainFound(m, base, sp, p3 - 4, p2 - 4, argPtrs, envPtrs, args, env);
      DisjointUp(p1, if env == [] then base + STACK_SIZE else envPtrs[0], argPtrs, args);
    }
  }

  /** What _start finds: a null return address, argc, and the lists of its strings. */
  ghost predicate MainReads(m: Bytes, base: nat, sp: nat, args: seq<Bytes>, env: seq<Bytes>) {
    && base <= sp && sp - base + 16 <= |m| && LoadWord(m, sp - base) == 0 && LoadWord(m, sp - base + 4) == |args|
    && ReadVector(m, base, LoadWord(m, sp - base + 8)) == args
    && ReadVector(m, base, LoadWord(m, sp - base + 12)) == env
  }

  lemma MainFound(m: Bytes, base: nat, sp: nat, argTop: nat, envTop: nat, argPtrs: seq<nat>, envPtrs: seq<nat>,
                  args: seq<Bytes>, env: seq<Bytes>)
    requires 0 < base && Vector(m, base, argTop, argPtrs, args) && Vector(m, base, envTop, envPtrs, env)
    requires argTop >= 4 * |args| && envTop >= 4 * |env|
    requires Frame(m, base, sp, |args|, argTop - 4 * |args|, envTop - 4 * |env|)
    ensures MainReads(m, base, sp, args, env)
  {
    hide Vector, ReadVector, LoadWord;
    VectorReads(m, base, argTop, argPtrs, args, 0);
    VectorReads(m, base, envTop, envPtrs, env, 0);
    assert args[0..] == args && env[0..] == env;
  }

  lemma DisjointUp(p: nat, q: nat, ptrs: seq<nat>, strs: seq<Bytes>)
    requires |ptrs| == |strs| && Disjoint(p, ptrs, strs) && p <= q
    ensures Disjoint(q, ptrs, strs)
  {
  }

  lemma AboveLess(m: Bytes, m': Bytes, base: nat, p: nat, q: nat)
    requires Above(m, m', base, p) && p <= q
    ensures Above(m, m', base, q)
  {
  }

  /** With room left over, rounding it down to a multiple of 16 leaves the frame its 16 bytes. */
  lemma FitsLeft(args: seq<Bytes>, env: seq<Bytes>, room: int)
    requires Short(args) && Short(env) && room >= 0
    requires room == STACK_SIZE - Rounded(env, |env|) - Rounded(args, |args|) - 4 * (|env| + 1) - 4 * (|args| + 1)
    ensures Fits(args, env) <==> RoundDown(room, 16) >= 16
  {
    hide Rounded, Short;
  }

  /** The four words below the frame of _start: return address, argc, argv and envp. */
  ghost predicate Frame(m: Bytes, base: nat, sp: nat, argc: nat, argv: nat, envp: nat) {
    WordAt(m, base, sp, 0) && WordAt(m, base, sp + 4, argc) && WordAt(m, base, sp + 8, argv)
    && WordAt(m, base, sp + 12, envp)
  }

  lemma VectorKept(m: Bytes, m': Bytes, base: nat, p: nat, top: nat, ptrs: seq<nat>, strs: seq<Bytes>)
    requires Vector(m, base, top, ptrs, strs) && Above(m, m', base, p) && p + 4 * |ptrs| <= top
    requires forall k :: 0 <= k < |ptrs| ==> ptrs[k] >= p
    ensures Vector(m', base, top, ptrs, strs)
  {
    hide WordAt, Above, Stacked, Strings;
    StringsKept(m, m', base, p, ptrs, strs);
    StackedKept(m, m', base, p, top, ptrs, |ptrs|);
    WordKept(m, m', base, p, top, 0);
  }

  lemma AboveSame(m: Bytes, base: nat, p: nat)
    requires base <= p
    ensures Above(m, m, base, p)
  {
  }

  lemma AboveBoth(a: Bytes, b: Bytes, c: Bytes, base: nat, p: nat, q: nat)
    requires Above(a, b, base, p) && Above(b, c, base, q) && q <= p
    ensures Above(a, c, base, p)
  {
  }

  /** The first n strings are pushed between sp and p. */
  ghost predicate Pushed(m: Bytes, base: nat, p: nat, sp: nat, ptrs: seq<nat>, strs: seq<Bytes>, n: nat) {
    && n <= |strs| == |ptrs| && (sp <= if n == 0 then p else ptrs[|strs| - n])
    && forall i :: 0 <= i < n ==> PushedAt(m, base, p, sp, ptrs, strs, i)
  }

  ghost predicate PushedAt(m: Bytes, base: nat, p: nat, sp: nat, ptrs: seq<nat>, strs: seq<Bytes>, i: nat)
    requires i < |strs| == |ptrs|
  {
    var at := ptrs[|strs| - 1 - i];
    StringAt(m, base, at, strs[i]) && sp <= at < WORD && at + |strs[i]| < if i == 0 then p else ptrs[|strs| - i]
  }

  lemma PushedOn(m: Bytes, m': Bytes, base: nat, p: nat, sp: nat, sp': nat, ptrs: seq<nat>, ptrs': seq<nat>,
                 strs: seq<Bytes>, n: nat)
    requires Pushed(m, base, p, sp, ptrs, strs, n) && n < |strs| && Above(m, m', base, sp)
    requires ptrs' == ptrs[|strs| - n - 1 := sp'] && sp' + |strs[n]| < sp < WORD && StringAt(m', base, sp', strs[n])
    ensures Pushed(m', base, p, sp', ptrs', strs, n + 1)
  {
    hide StringAt, Above;
    forall i | 0 <= i < n ensures PushedAt(m', base, p, sp', ptrs', strs, i) {
      assert PushedAt(m, base, p, sp, ptrs, strs, i);
      StringKept(m, m', base, sp, ptrs[|strs| - 1 - i], strs[i]);
    }
    assert PushedAt(m', base, p, sp', ptrs', strs, n);
  }

  lemma AllPushed(m: Bytes, base: nat, p: nat, sp: nat, ptrs: seq<nat>, strs: seq<Bytes>)
    requires Pushed(m, base, p, sp, ptrs, strs, |strs|)
    ensures Strings(m, base, ptrs, strs) && Disjoint(p, ptrs, strs) && forall k :: 0 <= k < |ptrs| ==>
              sp <= ptrs[k] < WORD
  {
    hide StringAt;
    forall k | 0 <= k < |ptrs| ensures sp <= ptrs[k] < WORD {
      assert PushedAt(m, base, p, sp, ptrs, strs, |strs| - 1 - k);
    }
    forall i | 0 <= i < |strs|
      ensures StringAt(m, base, ptrs[|strs| - 1 - i], strs[i])
      ensures ptrs[|strs| - 1 - i] + |strs[i]| < if i == 0 then p else ptrs[|strs| - i]
    {
      assert PushedAt(m, base, p, sp, ptrs, strs, i);
    }
  }

  /** The first n strings have been pushed. */
  ghost predicate PassedSoFar(base: nat, sp: nat, strs: seq<Bytes>, n: nat)
    requires Short(strs) && n <= |strs|
  {
    Rounded(strs, n) <= sp - base
  }

  lemma PassedAll(base: nat, sp: nat, strs: seq<Bytes>)
    requires Short(strs) && PassedSoFar(base, sp, strs, |strs|)
    ensures RoundingFits(base, sp, strs)
  {
    forall i | 0 <= i < |strs| ensures RoundingFitsAt(base, sp, strs, i) {
      RoundedGrows(strs, i + 1, |strs|);
    }
  }

  /** A string that does not pass the check has no room, and none after it counts. */
  lemma StoppedAt(base: nat, sp: nat, strs: seq<Bytes>, n: nat)
    requires Short(strs) && n < |strs| && PassedSoFar(base, sp, strs, n)
             && !Passes(base, sp - Rounded(strs, n), |strs[n]| + 1)
    ensures RoundingFits(base, sp, strs) && Rounded(strs, |strs|) > sp - base
  {
    hide Rounded, NextPowerOfTwo;
    RoundedStep(strs, n);
    assert Rounded(strs, n + 1) > sp - base;
    RoundedGrows(strs, n + 1, |strs|);
    assert Rounded(strs, |strs|) > sp - base;
    forall i | 0 <= i < |strs| ensures RoundingFitsAt(base, sp, strs, i) {
      if i < n { RoundedGrows(strs, i + 1, n); }
      if i > n { RoundedGrows(strs, n + 1, i); }
    }
  }

  lemma OffAt(base: nat, sp: nat, strs: seq<Bytes>, n: nat)
    requires Short(strs) && n < |strs| && PassedSoFar(base, sp, strs, n)
             && Passes(base, sp - Rounded(strs, n), |strs[n]| + 1)
    requires Rounded(strs, n + 1) > sp - base
    ensures !RoundingFits(base, sp, strs) && Rounded(strs, |strs|) > sp - base
  {
    RoundedGrows(strs, n + 1, |strs|);
    assert !RoundingFitsAt(base, sp, strs, n);
  }

  /** The part of execve that copies the strings of the caller and builds the new stack:
      the new program reads exactly the strings the caller's pointers list. */
  method Execve(user: array<Byte>, argv: seq<nat>, envp: seq<nat>, base: nat) returns (r: Push, stack: UserStack)
    requires Pointers(user[..], argv) && Pointers(user[..], envp) && |argv| < WORD
    requires 0 < base && base % 16 == 0 && base + STACK_SIZE < WORD
    requires Short(Texts(user[..], argv)) && Short(Texts(user[..], envp))
    ensures r.Done? <==> Fits(Texts(user[..], argv), Texts(user[..], envp))
    ensures r.Off? <==> !StaysOnStack(base, Texts(user[..], argv), Texts(user[..], envp))
    ensures stack.base == base && (r.Done? ==> stack.sp % 16 == 0)
    ensures r.Done? ==> fresh(stack) && MainReads(stack.memory[..], stack.base, stack.sp, Texts(user[..], argv),
                                                  Texts(user[..], envp))
  {
    hide Short, StaysOnStack, RoundingFits, Rounded, MainReads, Fits, Disjoint, Texts, Pointers, StringList.Holds;
    ghost var args, env := Texts(user[..], argv), Texts(user[..], envp);
    var copiedArgv := new StringList(user, argv);
    var copiedEnvp := new StringList(user, envp);
    stack := new UserStack(base);
    ghost var argPtrs, envPtrs;
    r, argPtrs, envPtrs := stack.Build(copiedArgv, copiedEnvp, args, env);
  }
}
