/** Path names (kernel/fs/vfs.c, and strtok_r of common/string.c): a path is split in place
    into components, which are pushed to and popped from a list, and joined again. */
module Paths {

  const SEPARATOR := '/'
  const SEPARATORS := "/"

  /** A pointer into a string, or a null pointer. */
  datatype Pointer = NULL | To(at: nat)

  // ----- splitting and joining -----

  function WordEnd(s: string, sep: string): (e: nat)
    ensures e <= |s| && (e < |s| ==> s[e] in sep)
    ensures forall k :: 0 <= k < e ==> s[k] !in sep
    ensures s != "" && s[0] !in sep ==> e > 0
    decreases |s|
  {
    if s == "" || s[0] in sep then 0 else 1 + WordEnd(s[1..], sep)
  }

  /** The words between separators; there is no empty word. */
  function Tokens(s: string, sep: string): seq<string>
    decreases |s|
  {
    if s == "" then []
    else if s[0] in sep then Tokens(s[1..], sep)
    else [s[..WordEnd(s, sep)]] + Tokens(s[WordEnd(s, sep)..], sep)
  }

  function Components(s: string): seq<string> {
    Tokens(s, SEPARATORS)
  }

  /** Each component with a separator before it. */
  function Concat(cs: seq<string>): string
    decreases |cs|
  {
    if cs == [] then "" else Concat(cs[..|cs| - 1]) + ([SEPARATOR] + cs[|cs| - 1])
  }

  function Join(cs: seq<string>): string {
    if cs == [] then "/" else Concat(cs)
  }

  /** Components on a stack: a dot leaves it, and two dots remove its top, if it has one. */
  function Normalize(stack: seq<string>, cs: seq<string>): seq<string>
    decreases |cs|
  {
    if cs == [] then stack
    else if cs[0] == "." then Normalize(stack, cs[1..])
    else if cs[0] == ".." then Normalize(if stack == [] then [] else stack[..|stack| - 1], cs[1..])
    else Normalize(stack + [cs[0]], cs[1..])
  }

  predicate IsAbsolute(s: string) {
    s != "" && s[0] == SEPARATOR
  }

  /** The components of a path for a process with a working directory. */
  function Resolved(cwd: string, path: string): seq<string> {
    Normalize(if IsAbsolute(path) then [] else Components(cwd), Components(path))
  }

  function Canonicalized(cwd: string, path: string): string {
    Join(Resolved(cwd, path))
  }

  predicate Plain(c: string) {
    c != "" && SEPARATOR !in c && c != "." && c != ".."
  }

  predicate AllPlain(cs: seq<string>) {
    forall k :: 0 <= k < |cs| ==> Plain(cs[k])
  }

  /** A canonical path is the join of plain components. */
  predicate Canonical(s: string) {
    AllPlain(Components(s)) && s == Join(Components(s))
  }

  lemma {:induction false} TokensNamed(s: string, sep: string)
    ensures forall k {:trigger Tokens(s, sep)[k]} :: 0 <= k < |Tokens(s, sep)| ==>
              (Tokens(s, sep)[k] != "" && forall c :: c in Tokens(s, sep)[k] ==> c !in sep && c in s)
    decreases |s|
  {
    if s != "" && s[0] in sep {
      TokensNamed(s[1..], sep);
    } else if s != "" {
      TokensNamed(s[WordEnd(s, sep)..], sep);
    }
  }

  /** No separator, then a separator or the end: one word, and the rest. */
  lemma TokensWord(w: string, more: string, sep: string)
    requires w != "" && (forall k :: 0 <= k < |w| ==> w[k] !in sep) && (more == "" || more[0] in sep)
    ensures Tokens(w + more, sep) == [w] + Tokens(more, sep)
  {
    var s := w + more;
    var e := WordEnd(s, sep);
    assert forall k :: 0 <= k < |w| ==> s[k] == w[k];
    assert more != "" ==> s[|w|] == more[0];
    assert s[..e] == w && s[e..] == more;
  }

  lemma {:induction false} TokensConcat(s: string, more: string, sep: string)
    requires more == "" || more[0] in sep
    ensures Tokens(s + more, sep) == Tokens(s, sep) + Tokens(more, sep)
    decreases |s|
  {
    hide Tokens, WordEnd;
    if s == "" {
      assert s + more == more;
      NoTokens(sep);
    } else if s[0] in sep {
      assert (s + more)[1..] == s[1..] + more;
      TokensSkip(s, sep);
      TokensSkip(s + more, sep);
      TokensConcat(s[1..], more, sep);
    } else {
      var e := WordEnd(s, sep);
      var w, rest := s[..e], s[e..];
      assert s + more == w + (rest + more) && s == w + rest;
      TokensWord(w, rest + more, sep);
      TokensWord(w, rest, sep);
      TokensConcat(rest, more, sep);
    }
  }

  /** Splitting what was joined gives the components back. */
  lemma {:induction false} SplitConcat(cs: seq<string>)
    requires AllPlain(cs)
    ensures Components(Concat(cs)) == cs && (cs != [] ==> IsAbsolute(Concat(cs)))
    decreases |cs|
  {
    hide Tokens;
    if cs != [] {
      var front, last := cs[..|cs| - 1], cs[|cs| - 1];
      SplitConcat(front);
      var more := [SEPARATOR] + last;
      TokensConcat(Concat(front), more, SEPARATORS);
      TokensSkip(more, SEPARATORS);
      assert more[1..] == last == last + "";
      TokensWord(last, "", SEPARATORS);
      NoTokens(SEPARATORS);
      assert cs == front + [last];
    } else {
      NoTokens(SEPARATORS);
    }
  }

  lemma NoTokens(sep: string)
    ensures Tokens("", sep) == []
  {
  }

  lemma TokensSkip(s: string, sep: string)
    requires s != "" && s[0] in sep
    ensures Tokens(s, sep) == Tokens(s[1..], sep)
  {
  }

  lemma SplitJoin(cs: seq<string>)
    requires AllPlain(cs)
    ensures Components(Join(cs)) == cs && IsAbsolute(Join(cs))
  {
    hide Tokens;
    SplitConcat(cs);
    if cs == [] {
      TokensSkip("/", SEPARATORS);
      assert "/"[1..] == "";
      NoTokens(SEPARATORS);
    }
  }

  // ----- what canonicalisation gives -----

  lemma {:induction false} NormalizedPlain(stack: seq<string>, cs: seq<string>)
    requires AllPlain(stack) && forall k :: 0 <= k < |cs| ==> cs[k] != "" && SEPARATOR !in cs[k]
    ensures AllPlain(Normalize(stack, cs))
    decreases |cs|
  {
    if cs != [] {
      NormalizedPlain(if cs[0] == "." then stack
                      else if cs[0] == ".." then (if stack == [] then [] else stack[..|stack| - 1])
                      else stack + [cs[0]], cs[1..]);
    }
  }

  lemma {:induction false} NormalizedSame(stack: seq<string>, cs: seq<string>)
    requires AllPlain(cs)
    ensures Normalize(stack, cs) == stack + cs
    decreases |cs|
  {
    if cs != [] {
      NormalizedSame(stack + [cs[0]], cs[1..]);
      assert stack + [cs[0]] + cs[1..] == stack + cs;
    }
  }

  lemma ResolvedPlain(cwd: string, path: string)
    requires Canonical(cwd)
    ensures AllPlain(Resolved(cwd, path))
  {
    hide Tokens;
    TokensNamed(path, SEPARATORS);
    NormalizedPlain(if IsAbsolute(path) then [] else Components(cwd), Components(path));
  }

  /** The result is canonical: absolute, with no empty component, no dot and no two dots. */
  lemma CanonicalizedCanonical(cwd: string, path: string)
    requires Canonical(cwd)
    ensures Canonical(Canonicalized(cwd, path)) && IsAbsolute(Canonicalized(cwd, path))
    ensures Components(Canonicalized(cwd, path)) == Resolved(cwd, path)
  {
    hide Resolved, Components;
    ResolvedPlain(cwd, path);
    SplitJoin(Resolved(cwd, path));
  }

  /** A canonical path stands for itself, whatever the working directory, so that the
      canonical spelling of a path leads to the same components. */
  lemma CanonicalStays(cwd: string, path: string)
    requires Canonical(path)
    ensures Canonicalized(cwd, path) == path && Resolved(cwd, path) == Components(path)
  {
    hide Components;
    SplitJoin(Components(path));
    NormalizedSame([], Components(path));
    assert [] + Components(path) == Components(path);
  }

  lemma BothSpellings(cwd: string, path: string, other: string)
    requires Canonical(cwd)
    ensures Resolved(other, Canonicalized(cwd, path)) == Resolved(cwd, path)
    ensures Canonicalized(other, Canonicalized(cwd, path)) == Canonicalized(cwd, path)
  {
    hide Resolved, Canonicalized, Canonical;
    CanonicalizedCanonical(cwd, path);
    CanonicalStays(other, Canonicalized(cwd, path));
  }
}
