/** The methods of kernel/fs/vfs.c on paths, and sys_chdir: strtok_r cuts a copy of the
    path into words, and every working directory there ever is has a canonical path. */
module PathLists {
  import opened Paths
  import opened Namespace
  import Vfs

  // ----- strings in buffers -----

  /** A null-terminated string starts at `from` and ends at n. */
  predicate Text(a: seq<char>, from: nat, n: nat) {
    from <= n < |a| && a[n] == '\0' && '\0' !in a[from..n]
  }

  /** kstrdup */
  method Duplicate(s: string) returns (a: array<char>)
    requires '\0' !in s
    ensures fresh(a) && a.Length == |s| + 1 && a[..|s|] == s && Text(a[..], 0, |s|)
  {
    a := new char[|s| + 1];
    for i := 0 to |s|
      invariant a[..i] == s[..i]
    {
      a[i] := s[i];
    }
    a[|s|] := '\0';
  }

  /** The string at p, which ends at e. */
  method ReadText(a: array<char>, p: nat, ghost e: nat) returns (s: string)
    requires Text(a[..], p, e)
    ensures s == a[p..e]
  {
    s := "";
    var i := p;
    while a[i] != '\0'
      invariant p <= i <= e && s == a[p..i]
      decreases e - i
    {
      s := s + [a[i]];
      i := i + 1;
    }
  }

  /** The words that a strtok_r loop still has to see: the token at p that ends at e, and
      what is left of the text up to n. */
  ghost predicate Pending(a: seq<char>, n: nat, token: Pointer, e: nat, last: Pointer, sep: string, todo: seq<string>) {
    && n < |a|
    && (token.NULL? ==> todo == [] && last.NULL?)
    && (token.To? ==> token.at < e <= n && Text(a, token.at, e)
                      && todo == [a[token.at..e]] + if last.To? && last.at <= n then Tokens(a[last.at..n], sep) else [])
    && (last.To? ==> token.To? && last.at == e + 1 && Text(a, last.at, n))
  }

  /** The word in hand, and those that come after it. */
  lemma PendingParts(a: seq<char>, n: nat, token: Pointer, e: nat, last: Pointer, sep: string, todo: seq<string>)
    returns (rest: seq<string>)
    requires Pending(a, n, token, e, last, sep, todo)
    ensures token.NULL? ==> todo == []
    ensures token.To? ==> Text(a, token.at, e) && todo == [a[token.at..e]] + rest && todo[1..] == rest
    ensures last.To? ==> n < |a| && Text(a, last.at, n)
    ensures token.To? ==> rest == if last.To? then Tokens(a[last.at..n], sep) else []
  {
    hide Tokens;
    rest := if token.To? then todo[1..] else [];
  }

  lemma Regroup(c: seq<string>, value: string, rest: seq<string>)
    ensures c + ([value] + rest) == (c + [value]) + rest
  {
  }

  /** strtok_r: the next word is cut off with a null character; only that character changes. */
  method StrtokR(a: array<char>, str: Pointer, sep: string, last: Pointer, ghost n: nat)
    returns (token: Pointer, next: Pointer, ghost e: nat)
    requires n < a.Length && '\0' !in sep
    requires var from := if str.To? then str else last; from.To? ==> Text(a[..], from.at, n)
    modifies a
    ensures var from := if str.To? then str else last;
            Pending(a[..], n, token, e, next, sep, if from.To? then Tokens(old(a[from.at..n]), sep) else [])
    ensures forall k :: 0 <= k < a.Length ==> a[k] == if token.To? && k == e then '\0' else old(a[k])
  {
    hide Tokens;
    var from := str;
    e := 0;
    if from.NULL? {
      if last.NULL? { return NULL, NULL, 0; }
      from := last;
    }
    ghost var b := a[..];
    var p := from.at;
    while a[p] != '\0' && a[p] in sep
      invariant a[..] == b && from.at <= p <= n && Text(b, p, n)
      invariant Tokens(b[p..n], sep) == Tokens(b[from.at..n], sep)
      decreases n - p
    {
      TokensSkip(b[p..n], sep);
      assert b[p..n][1..] == b[p + 1..n];
      p := p + 1;
    }
    forall k | p <= k < n ensures b[k] != '\0' { assert b[k] == b[p..n][k - p]; }
    if a[p] == '\0' {
      assert p == n && b[p..n] == "";
      NoTokens(sep);
      return NULL, NULL, 0;
    }
    var end := p;
    while a[end] != '\0' && a[end] !in sep
      invariant a[..] == b && p <= end <= n
      invariant forall k :: p <= k < end ==> b[k] !in sep
      decreases n - end
    {
      end := end + 1;
    }
    next := if a[end] != '\0' then To(end + 1) else NULL;
    WordCut(b, p, end, n, sep);
    a[end] := '\0';
    token, e := To(p), end;
    assert a[p..end] == b[p..end];
    assert next.To? ==> a[end + 1..n] == b[end + 1..n];
  }

  lemma WordCut(b: seq<char>, p: nat, e: nat, n: nat, sep: string)
    requires Text(b, p, n) && p < e <= n && (forall k :: p <= k < e ==> b[k] !in sep) && (e < n ==> b[e] in sep)
    ensures Tokens(b[p..n], sep) == [b[p..e]] + if e < n then Tokens(b[e + 1..n], sep) else []
  {
    hide Tokens;
    var w, more := b[p..e], b[e..n];
    assert b[p..n] == w + more;
    TokensWord(w, more, sep);
    if e < n {
      TokensSkip(more, sep);
      assert more[1..] == b[e + 1..n];
    } else {
      NoTokens(sep);
    }
  }

  // ----- list_node -----

  class PathList {
    var components: seq<string>

    constructor ()
      ensures components == []
    {
      components := [];
    }

    /** list_push */
    method Push(value: string)
      modifies this
      ensures components == old(components) + [value]
    {
      components := components + [value];
    }

    /** list_pop, which leaves an empty list alone. */
    method Pop()
      modifies this
      ensures components == if old(components) == [] then [] else old(components)[..|old(components)| - 1]
    {
      if components != [] { components := components[..|components| - 1]; }
    }
  }

  /** The words of the working directory, appended to an empty list. */
  method AppendComponents(list: PathList, cwd: string) returns (count: nat)
    requires '\0' !in cwd && list.components == []
    modifies list
    ensures list.components == Components(cwd) && count == |list.components|
  {
    hide Tokens, Pending, Text;
    count := 0;
    var dup := Duplicate(cwd);
    assert dup[0..|cwd|] == cwd;
    var component, saved;
    ghost var e;
    component, saved, e := StrtokR(dup, To(0), SEPARATORS, NULL, |cwd|);
    ghost var todo := Components(cwd);
    while component.To?
      invariant fresh(dup) && dup as object != list && count == |list.components|
      invariant Pending(dup[..], |cwd|, component, e, saved, SEPARATORS, todo)
      invariant list.components + todo == Components(cwd)
      decreases |todo|
    {
      ghost var rest := PendingParts(dup[..], |cwd|, component, e, saved, SEPARATORS, todo);
      var value := ReadText(dup, component.at, e);
      Regroup(list.components, value, rest);
      list.Push(value);
      count := count + 1;
      todo := rest;
      component, saved, e := StrtokR(dup, NULL, SEPARATORS, saved, |cwd|);
    }
    ghost var none := PendingParts(dup[..], |cwd|, component, e, saved, SEPARATORS, todo);
    assert list.components + [] == list.components;
  }

  /** The words of the path, applied to the list one by one. */
  method ApplyComponents(list: PathList, n: nat, pathname: string) returns (count: nat)
    requires '\0' !in pathname && n == |list.components|
    modifies list
    ensures list.components == Normalize(old(list.components), Components(pathname)) && count == |list.components|
  {
    hide Tokens;
    count := n;
    var dup := Duplicate(pathname);
    assert dup[0..|pathname|] == pathname;
    var component, saved;
    ghost var e;
    component, saved, e := StrtokR(dup, To(0), SEPARATORS, NULL, |pathname|);
    ghost var todo := Components(pathname);
    while component.To?
      invariant fresh(dup) && dup as object != list && count == |list.components|
      invariant Pending(dup[..], |pathname|, component, e, saved, SEPARATORS, todo)
      invariant Normalize(list.components, todo) == Normalize(old(list.components), Components(pathname))
      decreases |todo|
    {
      var value := ReadText(dup, component.at, e);
      if value == "." {
      } else if value == ".." {
        if count > 0 {
          list.Pop();
          count := count - 1;
        }
      } else {
        list.Push(value);
        count := count + 1;
      }
      todo := todo[1..];
      component, saved, e := StrtokR(dup, NULL, SEPARATORS, saved, |pathname|);
    }
  }

  /** create_path_component_list */
  method CreateComponentList(cwd: string, pathname: string) returns (list: PathList, count: nat)
    requires '\0' !in cwd && '\0' !in pathname
    ensures fresh(list) && list.components == Resolved(cwd, pathname) && count == |list.components|
  {
    hide Tokens, Components, Normalize;
    list := new PathList();
    count := 0;
    if |pathname| == 1 && pathname[0] == SEPARATOR {
      RootResolved(cwd, pathname);
      return;
    }
    if !IsAbsolute(pathname) { count := AppendComponents(list, cwd); }
    count := ApplyComponents(list, count, pathname);
  }

  lemma RootResolved(cwd: string, s: string)
    requires |s| == 1 && s[0] == SEPARATOR
    ensures Resolved(cwd, s) == []
  {
    RootComponents(s);
  }

  lemma RootComponents(s: string)
    requires |s| == 1 && s[0] == SEPARATOR
    ensures Components(s) == []
  {
    TokensSkip(s, SEPARATORS);
    NoTokens(SEPARATORS);
  }

  /** strcpy of a component, without the null character. */
  method Strcpy(dst: array<char>, d: nat, src: string)
    requires d + |src| <= dst.Length
    modifies dst
    ensures dst[..d + |src|] == old(dst[..d]) + src
  {
    for i := 0 to |src|
      invariant dst[..d] == old(dst[..d]) && dst[d..d + i] == src[..i]
    {
      dst[d + i] := src[i];
    }
    assert dst[..d + |src|] == dst[..d] + dst[d..d + |src|];
  }

  /** A separator and a component. */
  method PutComponent(s: array<char>, idx: nat, c: string)
    requires idx + 1 + |c| <= s.Length
    modifies s
    ensures s[..idx + 1 + |c|] == old(s[..idx]) + ([SEPARATOR] + c)
  {
    ghost var before := s[..idx];
    s[idx] := SEPARATOR;
    assert s[..idx + 1] == before + [SEPARATOR];
    Strcpy(s, idx + 1, c);
    assert (before + [SEPARATOR]) + c == before + ([SEPARATOR] + c);
  }

  lemma NoComponents()
    ensures Concat([]) == ""
  {
  }

  lemma JoinIs(cs: seq<string>)
    requires cs != []
    ensures Join(cs) == Concat(cs)
  {
  }

  /** vfs_canonicalize_path: the result is the canonical path, as a null-terminated string. */
  method CanonicalizePath(cwd: string, pathname: string) returns (s: array<char>)
    requires '\0' !in cwd && '\0' !in pathname
    ensures fresh(s) && s.Length == |Canonicalized(cwd, pathname)| + 1
    ensures s[..s.Length - 1] == Canonicalized(cwd, pathname) && s[s.Length - 1] == '\0'
  {
    hide Resolved, Tokens, Concat;
    var list, count := CreateComponentList(cwd, pathname);
    if count == 0 {
      s := Duplicate("/");
      return;
    }
    var cs := list.components;
    assert cs[..|cs|] == cs && cs[..0] == [];
    NoComponents();
    JoinIs(cs);
    var len := 0;
    for i := 0 to |cs|
      invariant len == |Concat(cs[..i])|
    {
      ConcatStep(cs, i);
      len := len + |cs[i]| + 1;
    }
    s := new char[len + 1];
    var idx := 0;
    for i := 0 to |cs|
      invariant idx == |Concat(cs[..i])| <= len && s[..idx] == Concat(cs[..i])
    {
      ConcatStep(cs, i);
      ConcatGrows(cs, i + 1, |cs|);
      PutComponent(s, idx, cs[i]);
      idx := idx + 1 + |cs[i]|;
    }
    s[idx] := '\0';
  }

  lemma ConcatStep(cs: seq<string>, i: nat)
    requires i < |cs|
    ensures Concat(cs[..i + 1]) == Concat(cs[..i]) + ([SEPARATOR] + cs[i])
  {
    assert cs[..i + 1][..i] == cs[..i];
  }

  lemma {:induction false} ConcatGrows(cs: seq<string>, i: nat, j: nat)
    requires i <= j <= |cs|
    ensures |Concat(cs[..i])| <= |Concat(cs[..j])|
    decreases j - i
  {
    if i < j {
      ConcatGrows(cs, i, j - 1);
      ConcatStep(cs, j - 1);
    }
  }

  // ----- two dots are the parent directory -----

  function Step(stack: seq<string>, c: string): seq<string> {
    if c == "." then stack
    else if c == ".." then (if stack == [] then [] else stack[..|stack| - 1])
    else stack + [c]
  }

  /** Inode j is reached from i by going from directory to directory: two dots go to the
      directory that has the entry of the present one. */
  ghost predicate Walks(inodes: Inodes, entries: Entries, root: int, i: int, cs: seq<string>, j: int)
    decreases |cs|
  {
    if cs == [] then i == j
    else
      && i in inodes && inodes[i].isDir
      && if cs[0] == "." then Walks(inodes, entries, root, i, cs[1..], j)
         else if cs[0] == ".." then
           if i == root then Walks(inodes, entries, root, i, cs[1..], j)
           else
             exists k {:trigger entries[k]} :: k in entries && entries[k] == i
                                               && Walks(inodes, entries, root, k.dir, cs[1..], j)
         else Key(i, cs[0]) in entries && Walks(inodes, entries, root, entries[Key(i, cs[0])], cs[1..], j)
  }

  /** Everything that the path goes through is a directory, even what two dots leave again. */
  ghost predicate Passable(inodes: Inodes, entries: Entries, root: int, stack: seq<string>, cs: seq<string>)
    decreases |cs|
  {
    cs == [] || (var r := Lead(inodes, entries, root, stack);
                 r.Ok? && r.inode in inodes && inodes[r.inode].isDir
                 && Passable(inodes, entries, root, Step(stack, cs[0]), cs[1..]))
  }

  /** Normalising a path does not change where it leads, if every directory it goes through
      is there; a normalised path may lead somewhere where the path itself does not. */
  lemma {:induction false} DotDotIsParent(inodes: Inodes, entries: Entries, handles: map<int, int>, held: multiset<int>,
                                          root: int, nextId: int, stack: seq<string>, i: int, cs: seq<string>, j: int)
    requires Inv(inodes, entries, handles, held, root, nextId) && Lead(inodes, entries, root, stack) == Ok(i)
             && i in inodes
    ensures Walks(inodes, entries, root, i, cs, j)
            <==>
              && Passable(inodes, entries, root, stack, cs)
              && Lead(inodes, entries, root, Normalize(stack, cs)) == Ok(j)
    decreases |cs|
  {
    hide Inv, Lead;
    if cs != [] && inodes[i].isDir {
      var next := Step(stack, cs[0]);
      assert Normalize(stack, cs) == Normalize(next, cs[1..]);
      if cs[0] == "." {
        DotDotIsParent(inodes, entries, handles, held, root, nextId, stack, i, cs[1..], j);
      } else if cs[0] == ".." {
        ParentOf(inodes, entries, handles, held, root, nextId, stack, i);
        if i == root {
          DotDotIsParent(inodes, entries, handles, held, root, nextId, stack, i, cs[1..], j);
        } else {
          var a := LastStep(inodes, entries, root, stack, i);
          var k := Key(a, stack[|stack| - 1]);
          assert forall k' :: k' in entries && entries[k'] == i ==> k' == k;
          DotDotIsParent(inodes, entries, handles, held, root, nextId, next, a, cs[1..], j);
        }
      } else {
        LeadInto(inodes, entries, root, stack, i, cs[0]);
        if Key(i, cs[0]) in entries {
          EntryIn(inodes, entries, handles, held, root, nextId, Key(i, cs[0]));
          DotDotIsParent(inodes, entries, handles, held, root, nextId, next, entries[Key(i, cs[0])], cs[1..], j);
        }
      }
    }
  }

  /** The components of the directory that a path starts from: that of the process, or the root. */
  function Start(cwd: string, path: string): seq<string> {
    if IsAbsolute(path) then [] else Components(cwd)
  }

  /** A path is walked from the working directory, or from the root if it begins with a separator:
      its canonical spelling leads where the walk ends, if every directory gone through is there. */
  lemma WalkFromWorkingDirectory(inodes: Inodes, entries: Entries, handles: map<int, int>, held: multiset<int>,
                                 root: int, nextId: int, cwd: string, path: string, i: int, j: int)
    requires Inv(inodes, entries, handles, held, root, nextId) && Canonical(cwd) && i in inodes
    requires if IsAbsolute(path) then i == root else Lead(inodes, entries, root, Components(cwd)) == Ok(i)
    ensures Walks(inodes, entries, root, i, Components(path), j)
            <==>
              && Passable(inodes, entries, root, Start(cwd, path), Components(path))
              && Lead(inodes, entries, root, Components(Canonicalized(cwd, path))) == Ok(j)
  {
    hide Inv, Walks, Passable, Canonical;
    CanonicalizedCanonical(cwd, path);
    DotDotIsParent(inodes, entries, handles, held, root, nextId, Start(cwd, path), i, Components(path), j);
  }

  ghost predicate IsDirectory(inodes: Inodes, j: int) {
    j in inodes && inodes[j].isDir
  }

  lemma EntryIn(inodes: Inodes, entries: Entries, handles: map<int, int>, held: multiset<int>, root: int, nextId: int,
                k: Key)
    requires Inv(inodes, entries, handles, held, root, nextId) && k in entries
    ensures entries[k] in inodes
  {
  }

  lemma LeadInto(inodes: Inodes, entries: Entries, root: int, stack: seq<string>, i: int, c: string)
    requires Lead(inodes, entries, root, stack) == Ok(i) && i in inodes && inodes[i].isDir
    ensures Lead(inodes, entries, root, stack + [c])
            == if Key(i, c) in entries then Ok(entries[Key(i, c)]) else Err(NoEntry)
  {
    LeadOn(inodes, entries, root, stack, [c]);
    assert [c][1..] == [];
  }

  /** The root is where the empty path leads, and another directory has one entry. */
  lemma ParentOf(inodes: Inodes, entries: Entries, handles: map<int, int>, held: multiset<int>, root: int, nextId: int,
                 stack: seq<string>, i: int)
    requires Inv(inodes, entries, handles, held, root, nextId) && Lead(inodes, entries, root, stack) == Ok(i)
             && i in inodes && inodes[i].isDir
    ensures stack == [] <==> i == root
    ensures forall k, k' :: k in entries && k' in entries && entries[k] == i && entries[k'] == i ==> k == k'
  {
    LeadNamed(inodes, entries, handles, held, root, nextId, root, stack);
  }

  lemma TwoComponents()
    ensures Components("/a/..") == ["a", ".."] && Components("/") == []
  {
    hide Tokens;
    var w, more := "a", "/..";
    TokensSkip("/a/..", "/");
    assert "/a/.."[1..] == w + more;
    TokensWord(w, more, "/");
    TokensSkip(more, "/");
    assert more[1..] == ".." == ".." + "";
    TokensWord("..", "", "/");
    NoTokens("/");
    RootComponents("/");
  }

  /** A path through a directory that is not there, and back out of it, leads to the root. */
  lemma MissingDirectory(inodes: Inodes, entries: Entries, root: int)
    requires root in inodes && Key(root, "a") !in entries
    ensures Lead(inodes, entries, root, Resolved("/", "/a/..")) == Ok(root)
    ensures !Walks(inodes, entries, root, root, Components("/a/.."), root)
  {
    TwoComponents();
    hide Components;
    assert ["a", ".."][1..] == [".."] && [".."][1..] == [] && [] + ["a"] == ["a"];
    assert Normalize([], ["a", ".."]) == Normalize(["a"], [".."]) == Normalize([], []);
  }

  // ----- the working directory of a process -----

  lemma {:induction false} ConcatClean(cs: seq<string>)
    requires forall k :: 0 <= k < |cs| ==> '\0' !in cs[k]
    ensures '\0' !in Concat(cs)
    decreases |cs|
  {
    if cs != [] { ConcatClean(cs[..|cs| - 1]); }
  }

  lemma {:induction false} NormalizeClean(stack: seq<string>, cs: seq<string>)
    requires forall k :: 0 <= k < |stack| ==> '\0' !in stack[k]
    requires forall k :: 0 <= k < |cs| ==> '\0' !in cs[k]
    ensures forall k :: 0 <= k < |Normalize(stack, cs)| ==> '\0' !in Normalize(stack, cs)[k]
    decreases |cs|
  {
    if cs != [] { NormalizeClean(Step(stack, cs[0]), cs[1..]); }
  }

  lemma CanonicalizedClean(cwd: string, path: string)
    requires '\0' !in cwd && '\0' !in path
    ensures '\0' !in Canonicalized(cwd, path)
  {
    hide Tokens;
    TokensNamed(cwd, SEPARATORS);
    TokensNamed(path, SEPARATORS);
    NormalizeClean(if IsAbsolute(path) then [] else Components(cwd), Components(path));
    ConcatClean(Resolved(cwd, path));
  }

  /** cwd_path and cwd_inode of a process. */
  class WorkingDirectory {
    var path: string
    var handle: int

    /** In every state of a process the path is canonical. */
    ghost predicate Valid()
      reads this
    {
      Canonical(path) && '\0' !in path
    }

    /** A first process starts at the root, and a child where its parent is. */
    constructor (path: string, handle: int)
      requires path == "/" || (Canonical(path) && '\0' !in path)
      ensures Valid() && this.path == path && this.handle == handle
    {
      this.path, this.handle := path, handle;
      new;
      if path == "/" {
        SplitJoin([]);
        assert Join([]) == "/";
      }
    }

    /** sys_chdir: on success the new path is the canonical spelling of the given one, and
        leads to the new directory; on failure nothing changes. If every directory gone through is
        there, the new directory is the one where the walk from the working directory, or for an
        absolute path from the root, ends, and it fails exactly if there is none. */
    method Chdir(vfs: Vfs.Vfs, pathname: string) returns (r: Result)
      requires Valid() && vfs.Valid() && handle in vfs.handles.of && '\0' !in pathname
      modifies this, vfs
      ensures Valid() && vfs.Valid() && vfs.entries == old(vfs.entries)
      ensures var i := if IsAbsolute(pathname) then Ok(vfs.root)
                       else old(Lead(vfs.inodes.of, vfs.entries.of, vfs.root, Components(path)));
              i.Ok? && i.inode in old(vfs.inodes).of ==>
                forall j ::
                  old(Walks(vfs.inodes.of, vfs.entries.of, vfs.root, i.inode, Components(pathname), j))
                  && IsDirectory(old(vfs.inodes).of, j)
                  <==>
                  r == Ok(j)
                  && old(Passable(vfs.inodes.of, vfs.entries.of, vfs.root, Start(path, pathname), Components(pathname)))
      ensures var t := old(Lead(vfs.inodes.of, vfs.entries.of, vfs.root, Components(Canonicalized(path, pathname))));
              r == if t.Ok? && !IsDirectory(old(vfs.inodes).of, t.inode) then Err(NotDir) else t
      ensures r.Ok? ==> path == Canonicalized(old(path), pathname) && Components(path) == Resolved(old(path), pathname)
      ensures r.Ok? ==> handle in vfs.handles.of && vfs.handles.of[handle] == r.inode
                        && r.inode in vfs.inodes.of && vfs.inodes.of[r.inode].isDir
      ensures r.Err? ==> path == old(path) && handle == old(handle) && vfs.handles == old(vfs.handles)
    {
      hide Canonical, Canonicalized, Resolved, Lead, Inv, Walks, Passable, Start, Components;
      ghost var i := if IsAbsolute(pathname) then Ok(vfs.root)
                     else Lead(vfs.inodes.of, vfs.entries.of, vfs.root, Components(path));
      CanonicalizedCanonical(path, pathname);
      if i.Ok? && i.inode in vfs.inodes.of {
        forall j ensures
            Walks(vfs.inodes.of, vfs.entries.of, vfs.root, i.inode, Components(pathname), j)
            <==>
              && Passable(vfs.inodes.of, vfs.entries.of, vfs.root, Start(path, pathname), Components(pathname))
              && Lead(vfs.inodes.of, vfs.entries.of, vfs.root, Components(Canonicalized(path, pathname))) == Ok(j)
        {
          WalkFromWorkingDirectory(vfs.inodes.of, vfs.entries.of, vfs.handles.of, vfs.held, vfs.root, vfs.nextId, path,
                                   pathname, i.inode, j);
        }
      }
      var buffer := CanonicalizePath(path, pathname);
      var list, _ := CreateComponentList(path, pathname);
      var cs := list.components;
      var now;
      now, r := vfs.Chdir(cs, handle);
      if r.Err? { return; }
      CanonicalizedCanonical(path, pathname);
      CanonicalizedClean(path, pathname);
      var newPath := ReadText(buffer, 0, buffer.Length - 1);
      path, handle := newPath, now;
    }
  }
}
