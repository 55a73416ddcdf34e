/** Null-terminated strings in memory (common/string.c). */
module CStrings {
  import opened Words

  type Bytes = seq<Byte>

  /** The string that starts where u does. */
  function CString(u: Bytes): (s: Bytes)
    ensures |s| <= |u| && u[..|s|] == s && NoNul(s)
    ensures |s| < |u| ==> u[|s|] == 0
    decreases |u|
  {
    if u == [] || u[0] == 0 then [] else [u[0]] + CString(u[1..])
  }

  predicate NoNul(s: Bytes) {
    forall k :: 0 <= k < |s| ==> s[k] != 0
  }

  predicate Terminated(u: Bytes) {
    |CString(u)| < |u|
  }

  /** CString is the only string without null characters that is terminated there. */
  lemma {:induction false} CStringIs(u: Bytes, s: Bytes)
    requires NoNul(s) && |s| < |u| && u[..|s|] == s && u[|s|] == 0
    ensures CString(u) == s && Terminated(u)
    decreases |s|
  {
    if s != [] {
      assert u[0] == u[..|s|][0] == s[0];
      assert u[1..][..|s| - 1] == u[..|s|][1..] == s[1..];
      CStringIs(u[1..], s[1..]);
    }
  }

  lemma CStringAt(u: Bytes, i: nat, s: Bytes)
    requires NoNul(s) && i + |s| < |u| && u[i..i + |s|] == s && u[i + |s|] == 0
    ensures CString(u[i..]) == s && Terminated(u[i..])
  {
    assert u[i..][..|s|] == u[i..i + |s|];
    CStringIs(u[i..], s);
  }

  method Strlen(a: array<Byte>, i: nat) returns (len: nat)
    requires i <= a.Length && Terminated(a[i..])
    ensures len == |CString(a[i..])|
  {
    ghost var s := CString(a[i..]);
    forall k | i <= k < i + |s| ensures a[k] != 0 {
      assert a[k] == a[i..][k - i] == a[i..][..|s|][k - i] == s[k - i];
    }
    assert a[i + |s|] == a[i..][|s|] == 0;
    len := 0;
    while a[i + len] != 0
      invariant len <= |s|
      decreases |s| - len
    {
      len := len + 1;
    }
  }

  lemma TextAt(a: array<Byte>, i: nat, s: Bytes)
    requires i <= a.Length && Terminated(a[i..]) && s == CString(a[i..])
    ensures i + |s| < a.Length && a[i + |s|] == 0 && forall k :: i <= k < i + |s| ==> a[k] == s[k - i] != 0
  {
    assert forall k :: i <= k < i + |s| ==> a[k] == a[i..][k - i] == s[k - i];
    assert a[i + |s|] == a[i..][|s|];
  }

  /** At most size - 1 characters and a null character are written, and nothing else;
      len is the length of the source. */
  method Strlcpy(dst: array<Byte>, d: nat, src: array<Byte>, i: nat, size: nat) returns (len: nat)
    requires i <= src.Length && Terminated(src[i..]) && d + size <= dst.Length && dst != src
    modifies dst
    ensures len == |CString(src[i..])|
    ensures size > 0 ==> Copied(dst[..], d, CString(src[i..])[..if len < size then len else size - 1])
    ensures forall k :: 0 <= k < dst.Length && !(d <= k < d + size && k <= d + len) ==> dst[k] == old(dst[k])
  {
    hide CString, Terminated;
    ghost var s := CString(src[i..]);
    TextAt(src, i, s);
    var at := i;
    len := 0;
    while len + 1 < size && src[at] != 0
      invariant at == i + len && len <= |s| && (size > 0 ==> len < size) && (size == 0 ==> len == 0)
      invariant forall k :: d <= k < d + len ==> dst[k] == s[k - d]
      invariant forall k :: 0 <= k < dst.Length && !(d <= k < d + len) ==> dst[k] == old(dst[k])
    {
      dst[d + len] := src[at];
      at := at + 1;
      len := len + 1;
    }
    if size > 0 { dst[d + len] := 0; }
    while src[at] != 0
      invariant at == i + len && len <= |s|
      decreases |s| - len
    {
      at := at + 1;
      len := len + 1;
    }
  }

  /** s is written at d, with a null character. */
  ghost predicate Copied(u: Bytes, d: nat, s: Bytes) {
    d + |s| < |u| && u[d..d + |s|] == s && u[d + |s|] == 0
  }
}
