/** Inodes, directory entries and references as values (kernel/fs/fs.h,
    kernel/fs/dentry.c): the counting law between any two steps of a system call, and
    why the directories form a tree. */
module Namespace {
  import opened Basics

  datatype Dentry = Dentry(name: string, inode: int)

  /** num_links, ref_count, and the entries of a directory in list order. */
  datatype Inode = Inode(isDir: bool, links: int, refs: int, children: seq<Dentry>)

  type Inodes = map<int, Inode>

  /** The place of a directory entry. */
  datatype Key = Key(dir: int, name: string)

  type Entries = map<Key, int>

  ghost predicate UniqueNames(children: seq<Dentry>) {
    forall j, k :: 0 <= j < k < |children| ==> children[j].name != children[k].name
  }

  /** `entries` is what the lists of all directories say, and no name occurs twice. */
  ghost predicate Lists(inodes: Inodes, entries: Entries) {
    && (forall d {:trigger inodes[d]} :: d in inodes ==>
          UniqueNames(inodes[d].children) && (inodes[d].children != [] ==> inodes[d].isDir))
    && (forall k :: k in entries ==> k.dir in inodes && Dentry(k.name, entries[k]) in inodes[k.dir].children)
    && (forall d, c :: d in inodes && c in inodes[d].children ==>
        Key(d, c.name) in entries && entries[Key(d, c.name)] == c.inode)
  }

  /** The entries that name inode i. */
  ghost function Names(entries: Entries, i: int): set<Key> {
    set k | k in entries && entries[k] == i
  }

  ghost function Handles(handles: map<int, int>, i: int): set<int> {
    set h | h in handles && handles[h] == i
  }

  /** num_links counts the names of an inode; ref_count counts its names, its handles,
      the references that the running system call holds, and one for being the root. */
  ghost predicate Counted(inodes: Inodes, entries: Entries, handles: map<int, int>, held: multiset<int>, root: int) {
    && (forall k :: k in entries ==> entries[k] in inodes)
    && (forall h :: h in handles ==> handles[h] in inodes)
    && (forall i :: i in held ==> i in inodes)
    && (forall i {:trigger inodes[i]} :: i in inodes ==>
          && inodes[i].links == |Names(entries, i)|
          && inodes[i].refs == inodes[i].links + |Handles(handles, i)| + held[i] + (if i == root then 1 else 0)
          && inodes[i].refs > 0)
  }

  /** The root has no name; any other directory has at most one, in an older directory;
      and one without a name is empty. */
  ghost predicate Tree(inodes: Inodes, entries: Entries, root: int, nextId: int) {
    && root in inodes && inodes[root].isDir
    && (forall i :: i in inodes ==> 0 <= i < nextId)
    && (forall k :: k in entries ==> entries[k] != root)
    && (forall k :: k in entries && entries[k] in inodes && inodes[entries[k]].isDir ==> k.dir < entries[k])
    && (forall j, k | j in entries && k in entries && entries[j] == entries[k] ::
          entries[k] in inodes && inodes[entries[k]].isDir ==> j == k)
    && (forall d {:trigger inodes[d]} :: d in inodes && inodes[d].isDir && d != root && inodes[d].links == 0 ==>
          inodes[d].children == [])
  }

  ghost predicate Inv(inodes: Inodes, entries: Entries, handles: map<int, int>, held: multiset<int>, root: int,
                      nextId: int)
  {
    Lists(inodes, entries) && Counted(inodes, entries, handles, held, root) && Tree(inodes, entries, root, nextId)
  }

  /** An inode exists exactly as long as it has a name, a handle, or someone at work on it. */
  lemma AliveIff(inodes: Inodes, entries: Entries, handles: map<int, int>, held: multiset<int>, root: int, nextId: int,
                 i: int)
    requires Inv(inodes, entries, handles, held, root, nextId)
    ensures i in inodes <==> Names(entries, i) != {} || Handles(handles, i) != {} || i in held || i == root
  {
    if Names(entries, i) != {} { var k := Member(Names(entries, i)); assert k in entries; }
    if Handles(handles, i) != {} { var h := Member(Handles(handles, i)); assert h in handles; }
    if i in inodes { Referred(inodes, entries, handles, held, root, i); }
  }

  lemma Referred(inodes: Inodes, entries: Entries, handles: map<int, int>, held: multiset<int>, root: int, i: int)
    requires Counted(inodes, entries, handles, held, root) && i in inodes
    ensures Names(entries, i) != {} || Handles(handles, i) != {} || i in held || i == root
  {
    assert inodes[i].refs > 0;
  }

  // ----- references -----

  lemma ListsSame(inodes: Inodes, entries: Entries, i: int, n: int)
    requires Lists(inodes, entries) && i in inodes
    ensures Lists(inodes[i := inodes[i].(refs := n)], entries)
  {
  }

  lemma TreeSame(inodes: Inodes, entries: Entries, root: int, nextId: int, i: int, n: int)
    requires Tree(inodes, entries, root, nextId) && i in inodes
    ensures Tree(inodes[i := inodes[i].(refs := n)], entries, root, nextId)
  {
  }

  lemma CountedRef(inodes: Inodes, entries: Entries, handles: map<int, int>, held: multiset<int>, root: int, i: int,
                   now: multiset<int>, n: int)
    requires Counted(inodes, entries, handles, held, root) && i in inodes && n > 0
    requires forall j :: now[j] == held[j] + if j == i then n - inodes[i].refs else 0
    ensures Counted(inodes[i := inodes[i].(refs := n)], entries, handles, now, root)
  {
    forall j | j in now ensures j in inodes { if j != i { assert now[j] == held[j]; } }
  }

  lemma PositiveRefs(inodes: Inodes, entries: Entries, handles: map<int, int>, held: multiset<int>, root: int,
                     nextId: int, i: int)
    requires Inv(inodes, entries, handles, held, root, nextId) && i in inodes
    ensures inodes[i].refs > 0
  {
  }

  /** What the invariants say about one directory. */
  lemma DirFacts(inodes: Inodes, entries: Entries, handles: map<int, int>, held: multiset<int>, root: int, nextId: int,
                 d: int)
    requires Inv(inodes, entries, handles, held, root, nextId) && d in inodes
    ensures UniqueNames(inodes[d].children) && (inodes[d].children != [] ==> inodes[d].isDir)
    ensures forall k {:trigger inodes[d].children[k]} :: 0 <= k < |inodes[d].children| ==>
              var c := inodes[d].children[k];
              Key(d, c.name) in entries && entries[Key(d, c.name)] == c.inode && c.inode in inodes && c.inode != root
    ensures forall name :: Key(d, name) in entries ==>
              exists k :: 0 <= k < |inodes[d].children| && inodes[d].children[k] == Dentry(name, entries[Key(d, name)])
    ensures inodes[root].isDir
  {
    assert UniqueNames(inodes[d].children);
    forall k | 0 <= k < |inodes[d].children|
      ensures var c := inodes[d].children[k];
              Key(d, c.name) in entries && entries[Key(d, c.name)] == c.inode && c.inode in inodes && c.inode != root
    {
      assert inodes[d].children[k] in inodes[d].children;
    }
  }

  /** Only references have come and gone, and inodes without any. */
  ghost predicate OnlyRefs(inodes: Inodes, after: Inodes) {
    forall i {:trigger after[i]} {:trigger i in after} :: i in after ==>
      i in inodes && after[i] == inodes[i].(refs := after[i].refs)
  }

  /** Not even those. */
  ghost predicate NoneGone(inodes: Inodes, after: Inodes) {
    OnlyRefs(inodes, after) && forall i :: i in inodes ==> i in after
  }

  /** An inode whose number was given out before is an old one, and of the same kind. */
  ghost predicate OldKinds(inodes: Inodes, after: Inodes, nextId: int) {
    forall i :: i in after && i < nextId ==> i in inodes && after[i].isDir == inodes[i].isDir
  }

  lemma KindsThen(inodes: Inodes, mid: Inodes, after: Inodes, nextId: int, nextId': int)
    requires OldKinds(inodes, mid, nextId) && OldKinds(mid, after, nextId') && nextId <= nextId'
    ensures OldKinds(inodes, after, nextId)
  {
  }

  lemma KindsMade(inodes: Inodes, after: Inodes, c: int)
    requires c in after && after == inodes[c := after[c]]
    ensures OldKinds(inodes, after, c)
  {
  }

  lemma KindsLinked(inodes: Inodes, d: int, name: string, c: int, nextId: int)
    requires d in inodes && c in inodes
    ensures OldKinds(inodes, WithEntry(inodes, d, name, c), nextId)
  {
  }

  lemma KindsUnlinked(inodes: Inodes, d: int, j: nat, nextId: int)
    requires d in inodes && j < |inodes[d].children| && inodes[d].children[j].inode in inodes
    ensures OldKinds(inodes, WithoutEntry(inodes, d, j), nextId)
  {
  }

  lemma KindsByRefs(inodes: Inodes, after: Inodes, nextId: int)
    requires OnlyRefs(inodes, after)
    ensures OldKinds(inodes, after, nextId)
  {
  }

  lemma NoneGoneThen(inodes: Inodes, mid: Inodes, after: Inodes)
    requires NoneGone(inodes, mid) && NoneGone(mid, after)
    ensures NoneGone(inodes, after)
  {
  }

  /** Paths lead where they led. */
  lemma LeadKept(inodes: Inodes, after: Inodes, entries: Entries, i: int, path: seq<string>)
    requires NoneGone(inodes, after)
    ensures Lead(after, entries, i, path) == Lead(inodes, entries, i, path)
  {
    LeadSame(inodes, after, entries, i, path);
  }

  /** An inode with a name, or the root, outlives a reference in hand. */
  lemma RefsToSpare(inodes: Inodes, entries: Entries, handles: map<int, int>, held: multiset<int>, root: int,
                    nextId: int, i: int)
    requires Inv(inodes, entries, handles, held, root, nextId) && i in held && i in inodes
             && (i == root || inodes[i].links > 0)
    ensures inodes[i].refs > 1
  {
  }

  lemma OnlyRefsNow(inodes: Inodes)
    ensures OnlyRefs(inodes, inodes) && NoneGone(inodes, inodes)
  {
  }

  lemma OnlyRefsThen(inodes: Inodes, mid: Inodes, after: Inodes)
    requires OnlyRefs(inodes, mid) && OnlyRefs(mid, after)
    ensures OnlyRefs(inodes, after)
  {
  }

  lemma OnlyRefsAt(inodes: Inodes, after: Inodes, i: int)
    requires OnlyRefs(inodes, after) && i in after
    ensures i in inodes && after[i] == inodes[i].(refs := after[i].refs)
  {
  }

  lemma HandleIn(inodes: Inodes, entries: Entries, handles: map<int, int>, held: multiset<int>, root: int, nextId: int,
                 h: int)
    requires Inv(inodes, entries, handles, held, root, nextId) && h in handles
    ensures handles[h] in inodes
  {
  }

  /** What is in hand exists. */
  lemma StillHeld(inodes: Inodes, entries: Entries, handles: map<int, int>, held: multiset<int>, root: int, nextId: int,
                  i: int)
    requires Inv(inodes, entries, handles, held, root, nextId) && i in held
    ensures i in inodes && 0 <= i < nextId
  {
  }

  lemma IdsBelow(inodes: Inodes, entries: Entries, handles: map<int, int>, held: multiset<int>, root: int, nextId: int)
    requires Inv(inodes, entries, handles, held, root, nextId)
    ensures 0 <= root < nextId && forall i :: i in inodes ==> 0 <= i < nextId
  {
  }

  // ----- paths -----

  datatype Error = NoEntry | Exists | NotDir | IsDir | NotPermitted | NotEmpty

  datatype Result = Ok(inode: int) | Err(error: Error)

  /** Where a path leads, component by component. */
  ghost function Lead(inodes: Inodes, entries: Entries, i: int, path: seq<string>): Result
    decreases |path|
  {
    if path == [] then Ok(i)
    else if i !in inodes || !inodes[i].isDir then Err(NotDir)
    else if Key(i, path[0]) !in entries then Err(NoEntry)
    else Lead(inodes, entries, entries[Key(i, path[0])], path[1..])
  }

  lemma {:induction false} LeadOn(inodes: Inodes, entries: Entries, i: int, path: seq<string>, more: seq<string>)
    ensures Lead(inodes, entries, i, path + more)
            == var r := Lead(inodes, entries, i, path); if r.Ok? then Lead(inodes, entries, r.inode, more) else r
    decreases |path|
  {
    if path == [] {
      assert path + more == more;
    } else if i in inodes && inodes[i].isDir && Key(i, path[0]) in entries {
      assert (path + more)[1..] == path[1..] + more;
      LeadOn(inodes, entries, entries[Key(i, path[0])], path[1..], more);
    }
  }

  lemma NamedBy(inodes: Inodes, entries: Entries, handles: map<int, int>, held: multiset<int>, root: int, nextId: int,
                k: Key)
    requires Inv(inodes, entries, handles, held, root, nextId) && k in entries
    ensures entries[k] in inodes && entries[k] != root && inodes[entries[k]].links > 0
    ensures inodes[entries[k]].isDir ==> forall j :: j in entries && entries[j] == entries[k] ==> j == k
  {
    assert k in Names(entries, entries[k]) && inodes[entries[k]].links == |Names(entries, entries[k])|;
  }

  /** A path leads only to the root or to inodes that have a name. */
  lemma {:induction false} LeadNamed(inodes: Inodes, entries: Entries, handles: map<int, int>, held: multiset<int>,
                                     root: int, nextId: int, i: int, path: seq<string>)
    requires Inv(inodes, entries, handles, held, root, nextId) && i in inodes && Lead(inodes, entries, i, path).Ok?
    ensures var j := Lead(inodes, entries, i, path).inode;
            j in inodes && (path != [] ==> j != root && inodes[j].links > 0)
    decreases |path|
  {
    hide Inv;
    if path != [] {
      var j := entries[Key(i, path[0])];
      NamedBy(inodes, entries, handles, held, root, nextId, Key(i, path[0]));
      LeadNamed(inodes, entries, handles, held, root, nextId, j, path[1..]);
    }
  }

  lemma LeadPrefix(inodes: Inodes, entries: Entries, root: int, path: seq<string>)
    requires path != [] && Lead(inodes, entries, root, path).Ok?
    ensures Lead(inodes, entries, root, path[..|path| - 1]).Ok?
  {
    assert path == path[..|path| - 1] + [path[|path| - 1]];
    LeadOn(inodes, entries, root, path[..|path| - 1], [path[|path| - 1]]);
  }

  lemma LeadNil(inodes: Inodes, entries: Entries, i: int)
    ensures Lead(inodes, entries, i, []) == Ok(i)
  {
  }

  lemma NilIsRoot(inodes: Inodes, entries: Entries, root: int, path: seq<string>)
    ensures path == [] && Lead(inodes, entries, root, path).Ok? ==> Lead(inodes, entries, root, path).inode == root
  {
  }

  lemma LeadOne(inodes: Inodes, after: Inodes, entries: Entries, i: int, name: string)
    requires i in inodes && i in after && after[i].isDir == inodes[i].isDir
    ensures Lead(after, entries, i, [name]) == Lead(inodes, entries, i, [name])
  {
    assert [name][1..] == [];
  }

  /** One component more, and what an error there means for the whole path. */
  lemma LeadStep(inodes: Inodes, entries: Entries, root: int, path: seq<string>, i: nat)
    requires i < |path| && Lead(inodes, entries, root, path[..i]).Ok?
    ensures var r := Lead(inodes, entries, Lead(inodes, entries, root, path[..i]).inode, [path[i]]);
            && Lead(inodes, entries, root, path[..i + 1]) == r
            && (r.Err? ==> Lead(inodes, entries, root, path) == r)
            && (r.Err? && i + 1 < |path| ==> Lead(inodes, entries, root, path[..|path| - 1]) == r)
  {
    assert path[..i + 1] == path[..i] + [path[i]];
    LeadOn(inodes, entries, root, path[..i], [path[i]]);
    assert path == path[..i + 1] + path[i + 1..];
    LeadOn(inodes, entries, root, path[..i + 1], path[i + 1..]);
    if i + 1 < |path| {
      assert path[..|path| - 1] == path[..i + 1] + path[i + 1..|path| - 1];
      LeadOn(inodes, entries, root, path[..i + 1], path[i + 1..|path| - 1]);
    }
  }

  /** The last step of a path, from the directory that holds its last component. */
  lemma LeadLast(inodes: Inodes, entries: Entries, root: int, path: seq<string>, d: int)
    requires path != [] && Lead(inodes, entries, root, path[..|path| - 1]) == Ok(d)
    ensures Lead(inodes, entries, root, path) == Lead(inodes, entries, d, [path[|path| - 1]])
    ensures Lead(inodes, entries, root, path) != Err(NotDir) ==>
              && d in inodes && inodes[d].isDir
              && (Lead(inodes, entries, root, path).Ok? <==> Key(d, path[|path| - 1]) in entries)
              && (Lead(inodes, entries, root, path).Ok? ==>
                  Lead(inodes, entries, root, path).inode == entries[Key(d, path[|path| - 1])])
  {
    var last := [path[|path| - 1]];
    assert path == path[..|path| - 1] + last && last[1..] == [];
    LeadOn(inodes, entries, root, path[..|path| - 1], last);
  }

  /** Only what is a directory matters for paths. */
  lemma {:induction false} LeadSame(inodes: Inodes, after: Inodes, entries: Entries, i: int, path: seq<string>)
    requires forall k :: k in inodes <==> k in after
    requires forall k :: k in inodes ==> after[k].isDir == inodes[k].isDir
    ensures Lead(after, entries, i, path) == Lead(inodes, entries, i, path)
    decreases |path|
  {
    if path != [] && i in inodes && inodes[i].isDir && Key(i, path[0]) in entries {
      LeadSame(inodes, after, entries, entries[Key(i, path[0])], path[1..]);
    }
  }

  lemma ParentNamed(inodes: Inodes, entries: Entries, handles: map<int, int>, held: multiset<int>, root: int,
                    nextId: int, k: Key)
    requires Inv(inodes, entries, handles, held, root, nextId) && k in entries
    ensures k.dir in inodes && inodes[k.dir].isDir && (k.dir == root || inodes[k.dir].links > 0) && entries[k] in inodes
    ensures inodes[entries[k]].isDir ==> 0 <= k.dir < entries[k]
  {
    assert Dentry(k.name, entries[k]) in inodes[k.dir].children;
    assert inodes[k.dir].children != [];
    assert inodes[k.dir].links == |Names(entries, k.dir)|;
  }

  lemma HasName(inodes: Inodes, entries: Entries, handles: map<int, int>, held: multiset<int>, root: int, nextId: int,
                i: int)
    returns (k: Key)
    requires Inv(inodes, entries, handles, held, root, nextId) && i in inodes && inodes[i].links > 0
    ensures k in entries && entries[k] == i
  {
    assert inodes[i].links == |Names(entries, i)|;
    k :| k in Names(entries, i);
  }

  /** Every directory that has a name is reached from the root. */
  lemma {:induction false} Reached(inodes: Inodes, entries: Entries, handles: map<int, int>, held: multiset<int>,
                                   root: int, nextId: int, i: int)
    requires Inv(inodes, entries, handles, held, root, nextId) && i in inodes && inodes[i].isDir
             && (i == root || inodes[i].links > 0)
    ensures exists path :: Lead(inodes, entries, root, path) == Ok(i)
    decreases i
  {
    hide Inv;
    if i == root {
      assert Lead(inodes, entries, root, []) == Ok(i);
      return;
    }
    var k := HasName(inodes, entries, handles, held, root, nextId, i);
    ParentNamed(inodes, entries, handles, held, root, nextId, k);
    Reached(inodes, entries, handles, held, root, nextId, k.dir);
    var before :| Lead(inodes, entries, root, before) == Ok(k.dir);
    LeadOn(inodes, entries, root, before, [k.name]);
    assert [k.name][1..] == [];
    assert Lead(inodes, entries, root, before + [k.name]) == Ok(i);
  }

  /** ... and by one path only: the directories form a tree. */
  lemma {:induction false} OnePath(inodes: Inodes, entries: Entries, handles: map<int, int>, held: multiset<int>,
                                   root: int, nextId: int, p: seq<string>, q: seq<string>, i: int)
    requires Inv(inodes, entries, handles, held, root, nextId) && i in inodes && inodes[i].isDir
    requires Lead(inodes, entries, root, p) == Ok(i) == Lead(inodes, entries, root, q)
    ensures p == q
    decreases |p|
  {
    hide Inv;
    RootIn(inodes, entries, handles, held, root, nextId);
    LeadNamed(inodes, entries, handles, held, root, nextId, root, p);
    LeadNamed(inodes, entries, handles, held, root, nextId, root, q);
    if p != [] && q != [] {
      var a := LastStep(inodes, entries, root, p, i);
      var b := LastStep(inodes, entries, root, q, i);
      NamedBy(inodes, entries, handles, held, root, nextId, Key(a, p[|p| - 1]));
      assert Key(a, p[|p| - 1]) == Key(b, q[|q| - 1]);
      ParentNamed(inodes, entries, handles, held, root, nextId, Key(a, p[|p| - 1]));
      OnePath(inodes, entries, handles, held, root, nextId, p[..|p| - 1], q[..|q| - 1], a);
      assert p == p[..|p| - 1] + [p[|p| - 1]] && q == q[..|q| - 1] + [q[|q| - 1]];
    }
  }

  lemma RootIn(inodes: Inodes, entries: Entries, handles: map<int, int>, held: multiset<int>, root: int, nextId: int)
    requires Inv(inodes, entries, handles, held, root, nextId)
    ensures root in inodes && inodes[root].isDir
  {
  }

  lemma LastStep(inodes: Inodes, entries: Entries, root: int, p: seq<string>, i: int) returns (a: int)
    requires p != [] && Lead(inodes, entries, root, p) == Ok(i)
    ensures Lead(inodes, entries, root, p[..|p| - 1]) == Ok(a) && a in inodes && inodes[a].isDir
    ensures Key(a, p[|p| - 1]) in entries && entries[Key(a, p[|p| - 1])] == i
  {
    var last := [p[|p| - 1]];
    assert p == p[..|p| - 1] + last && last[1..] == [];
    LeadOn(inodes, entries, root, p[..|p| - 1], last);
    a := Lead(inodes, entries, root, p[..|p| - 1]).inode;
  }

  /** inode_ref */
  lemma Reffed(inodes: Inodes, entries: Entries, handles: map<int, int>, held: multiset<int>, root: int, nextId: int,
               i: int)
    requires Inv(inodes, entries, handles, held, root, nextId) && i in inodes
    ensures Inv(inodes[i := inodes[i].(refs := inodes[i].refs + 1)], entries, handles, held + multiset{i}, root, nextId)
  {
    hide Lists, Tree;
    ListsSame(inodes, entries, i, inodes[i].refs + 1);
    TreeSame(inodes, entries, root, nextId, i, inodes[i].refs + 1);
    assert inodes[i].refs > 0;
    CountedRef(inodes, entries, handles, held, root, i, held + multiset{i}, inodes[i].refs + 1);
  }

  /** inode_unref, with the inode still in use. */
  lemma Unreffed(inodes: Inodes, entries: Entries, handles: map<int, int>, held: multiset<int>, root: int, nextId: int,
                 i: int)
    requires Inv(inodes, entries, handles, held, root, nextId) && i in held && i in inodes && inodes[i].refs > 1
    ensures Inv(inodes[i := inodes[i].(refs := inodes[i].refs - 1)], entries, handles, held - multiset{i}, root, nextId)
  {
    hide Lists, Tree, Counted;
    ListsSame(inodes, entries, i, inodes[i].refs - 1);
    TreeSame(inodes, entries, root, nextId, i, inodes[i].refs - 1);
    CountedRef(inodes, entries, handles, held, root, i, held - multiset{i}, inodes[i].refs - 1);
  }

  /** inode_unref, with the last reference: no name is left, the children list of a
      directory is empty, and the inode goes. */
  lemma Destroyed(inodes: Inodes, entries: Entries, handles: map<int, int>, held: multiset<int>, root: int, nextId: int,
                  i: int)
    requires Inv(inodes, entries, handles, held, root, nextId) && i in held && i in inodes && inodes[i].refs == 1
    ensures i != root && inodes[i].links == 0 && inodes[i].children == []
    ensures Inv(inodes - {i}, entries, handles, held - multiset{i}, root, nextId)
  {
    hide Lists, Tree;
    LastReference(inodes, entries, handles, held, root, i);
    Childless(inodes, entries, root, nextId, i);
    DestroyedLists(inodes, entries, i);
    DestroyedTree(inodes, entries, root, nextId, i);
  }

  lemma LastReference(inodes: Inodes, entries: Entries, handles: map<int, int>, held: multiset<int>, root: int, i: int)
    requires Counted(inodes, entries, handles, held, root) && i in held && i in inodes && inodes[i].refs == 1
    ensures i != root && inodes[i].links == 0 && held[i] == 1
    ensures (forall k :: k in entries ==> entries[k] != i) && (forall h :: h in handles ==> handles[h] != i)
  {
    assert inodes[i].links == |Names(entries, i)|;
    assert Names(entries, i) == {} && Handles(handles, i) == {};
    forall k | k in entries ensures entries[k] != i { assert k !in Names(entries, i); }
    forall h | h in handles ensures handles[h] != i { assert h !in Handles(handles, i); }
  }

  lemma Childless(inodes: Inodes, entries: Entries, root: int, nextId: int, i: int)
    requires Lists(inodes, entries) && Tree(inodes, entries, root, nextId) && i in inodes && i != root
             && inodes[i].links == 0
    ensures inodes[i].children == []
  {
    assert inodes[i].isDir || inodes[i].children == [];
  }

  lemma DestroyedLists(inodes: Inodes, entries: Entries, i: int)
    requires Lists(inodes, entries) && i in inodes && inodes[i].children == []
    ensures Lists(inodes - {i}, entries)
  {
  }

  lemma DestroyedTree(inodes: Inodes, entries: Entries, root: int, nextId: int, i: int)
    requires Tree(inodes, entries, root, nextId) && i != root
    ensures Tree(inodes - {i}, entries, root, nextId)
  {
  }

  lemma HandlesMore(handles: map<int, int>, h: int, i: int, j: int)
    requires h !in handles
    ensures |Handles(handles[h := i], j)| == |Handles(handles, j)| + if j == i then 1 else 0
  {
    assert Handles(handles[h := i], j) == if j == i then Handles(handles, j) + {h} else Handles(handles, j);
  }

  lemma HandlesLess(handles: map<int, int>, h: int, j: int)
    requires h in handles
    ensures |Handles(handles - {h}, j)| == |Handles(handles, j)| - if j == handles[h] then 1 else 0
  {
    assert h in Handles(handles, j) <==> j == handles[h];
    assert Handles(handles - {h}, j) == Handles(handles, j) - {h};
  }

  /** A reference in hand becomes that of an open description or a working directory. */
  lemma Opened(inodes: Inodes, entries: Entries, handles: map<int, int>, held: multiset<int>, root: int, nextId: int,
               i: int, h: int)
    requires Inv(inodes, entries, handles, held, root, nextId) && i in held && h !in handles
    ensures Inv(inodes, entries, handles[h := i], held - multiset{i}, root, nextId)
  {
    hide Lists, Tree;
    forall j | j in inodes ensures |Handles(handles[h := i], j)| == |Handles(handles, j)| + if j == i then 1 else 0 {
      HandlesMore(handles, h, i, j);
    }
  }

  /** ... and the other way round. */
  lemma Taken(inodes: Inodes, entries: Entries, handles: map<int, int>, held: multiset<int>, root: int, nextId: int,
              h: int)
    requires Inv(inodes, entries, handles, held, root, nextId) && h in handles
    ensures Inv(inodes, entries, handles - {h}, held + multiset{handles[h]}, root, nextId)
  {
    hide Lists, Tree;
    forall j | j in inodes ensures |Handles(handles - {h}, j)| == |Handles(handles, j)| - if j == handles[h] then 1
           else 0 {
      HandlesLess(handles, h, j);
    }
  }

  // ----- entries -----

  /** A new inode, with one reference in hand. */
  lemma Fresh(inodes: Inodes, entries: Entries, handles: map<int, int>, held: multiset<int>, root: int, nextId: int,
              isDir: bool)
    requires Inv(inodes, entries, handles, held, root, nextId)
    ensures Inv(inodes[nextId := Inode(isDir, 0, 1, [])], entries, handles, held + multiset{nextId}, root, nextId + 1)
    ensures nextId !in inodes && Names(entries, nextId) == {}
  {
    hide Lists, Tree;
    OldIds(inodes, entries, root, nextId);
    assert nextId !in inodes && nextId !in held;
    forall k | k in entries ensures entries[k] != nextId { assert entries[k] in inodes; }
    forall h | h in handles ensures handles[h] != nextId { assert handles[h] in inodes; }
    assert Names(entries, nextId) == {} && Handles(handles, nextId) == {};
    FreshRest(inodes, entries, root, nextId, isDir);
  }

  lemma OldIds(inodes: Inodes, entries: Entries, root: int, nextId: int)
    requires Tree(inodes, entries, root, nextId)
    ensures root in inodes && 0 <= root < nextId && forall i :: i in inodes ==> i < nextId
  {
  }

  lemma FreshRest(inodes: Inodes, entries: Entries, root: int, nextId: int, isDir: bool)
    requires Lists(inodes, entries) && Tree(inodes, entries, root, nextId) && forall k :: k in entries ==>
               entries[k] != nextId
    ensures Lists(inodes[nextId := Inode(isDir, 0, 1, [])], entries)
    ensures Tree(inodes[nextId := Inode(isDir, 0, 1, [])], entries, root, nextId + 1)
  {
    assert nextId !in inodes;
  }

  /** dentry_append: entry `name` of directory d for inode c. */
  function WithEntry(inodes: Inodes, d: int, name: string, c: int): Inodes
    requires d in inodes && c in inodes
  {
    var named := inodes[d].(children := inodes[d].children + [Dentry(name, c)]);
    inodes[d := named][c := inodes[c].(links := inodes[c].links + 1)]
  }

  lemma NamesMore(entries: Entries, k: Key, c: int, i: int)
    requires k !in entries
    ensures |Names(entries[k := c], i)| == |Names(entries, i)| + if i == c then 1 else 0
  {
    assert Names(entries[k := c], i) == if i == c then Names(entries, i) + {k} else Names(entries, i);
  }

  lemma NamesLess(entries: Entries, k: Key, i: int)
    requires k in entries
    ensures |Names(entries - {k}, i)| == |Names(entries, i)| - if i == entries[k] then 1 else 0
  {
    assert k in Names(entries, i) <==> i == entries[k];
    assert Names(entries - {k}, i) == Names(entries, i) - {k};
  }

  /** The reference in hand becomes that of the entry. A directory may get a name only
      if it has none yet, in an older directory. */
  lemma Linked(inodes: Inodes, entries: Entries, handles: map<int, int>, held: multiset<int>, root: int, nextId: int,
               d: int, name: string, c: int)
    requires Inv(inodes, entries, handles, held, root, nextId) && d in inodes && c in inodes && c in held && c != d
    requires inodes[d].isDir && (forall k :: 0 <= k < |inodes[d].children| ==> inodes[d].children[k].name != name)
    requires c != root && (inodes[c].isDir ==> inodes[c].links == 0 && d < c)
    requires d == root || inodes[d].links > 0
    ensures Inv(WithEntry(inodes, d, name, c), entries[Key(d, name) := c], handles, held - multiset{c}, root, nextId)
    ensures Key(d, name) !in entries
  {
    hide Inv, Counted, Lists, Tree;
    InvParts(inodes, entries, handles, held, root, nextId);
    LinkedLists(inodes, entries, d, name, c);
    LinkedCounted(inodes, entries, handles, held, root, d, name, c);
    LinkedTree(inodes, entries, handles, held, root, nextId, d, name, c);
    InvIs(WithEntry(inodes, d, name, c), entries[Key(d, name) := c], handles, held - multiset{c}, root, nextId);
  }

  lemma InvParts(inodes: Inodes, entries: Entries, handles: map<int, int>, held: multiset<int>, root: int, nextId: int)
    requires Inv(inodes, entries, handles, held, root, nextId)
    ensures Lists(inodes, entries) && Counted(inodes, entries, handles, held, root)
            && Tree(inodes, entries, root, nextId)
  {
  }

  lemma InvIs(inodes: Inodes, entries: Entries, handles: map<int, int>, held: multiset<int>, root: int, nextId: int)
    requires Lists(inodes, entries) && Counted(inodes, entries, handles, held, root)
             && Tree(inodes, entries, root, nextId)
    ensures Inv(inodes, entries, handles, held, root, nextId)
  {
  }

  lemma LinkedLists(inodes: Inodes, entries: Entries, d: int, name: string, c: int)
    requires Lists(inodes, entries) && d in inodes && c in inodes && c != d && inodes[d].isDir
    requires forall k :: 0 <= k < |inodes[d].children| ==> inodes[d].children[k].name != name
    ensures Lists(WithEntry(inodes, d, name, c), entries[Key(d, name) := c]) && Key(d, name) !in entries
  {
    NameFree(inodes, entries, d, name);
    WithEntryIs(inodes, d, name, c);
    hide WithEntry, UniqueNames;
    var after := WithEntry(inodes, d, name, c);
    var k := Key(d, name);
    forall e | e in after ensures UniqueNames(after[e].children) && (after[e].children != [] ==> after[e].isDir) {
      if e == d { UniqueMore(inodes[d].children, name, c); }
    }
    forall e, x | e in after && x in after[e].children
      ensures Key(e, x.name) in entries[k := c] && entries[k := c][Key(e, x.name)] == x.inode
    {
      LinkedFrom(inodes, entries, d, name, c, e, x);
    }
    forall j | j in entries[k := c]
      ensures j.dir in after && Dentry(j.name, entries[k := c][j]) in after[j.dir].children
    {
      LinkedTo(inodes, entries, d, name, c, j);
    }
  }

  lemma UniqueMore(children: seq<Dentry>, name: string, c: int)
    requires UniqueNames(children) && forall k :: 0 <= k < |children| ==> children[k].name != name
    ensures UniqueNames(children + [Dentry(name, c)])
  {
  }

  lemma LinkedFrom(inodes: Inodes, entries: Entries, d: int, name: string, c: int, e: int, x: Dentry)
    requires Lists(inodes, entries) && d in inodes && c in inodes && c != d && e in inodes
    requires forall k :: 0 <= k < |inodes[d].children| ==> inodes[d].children[k].name != name
    requires x in inodes[e].children + if e == d then [Dentry(name, c)] else []
    ensures var k := Key(d, name); Key(e, x.name) in entries[k := c] && entries[k := c][Key(e, x.name)] == x.inode
  {
    assert x in inodes[e].children || (e == d && x == Dentry(name, c));
    if x in inodes[e].children { assert Key(e, x.name) in entries; }
  }

  lemma LinkedTo(inodes: Inodes, entries: Entries, d: int, name: string, c: int, j: Key)
    requires Lists(inodes, entries) && d in inodes && c in inodes && c != d && j in entries[Key(d, name) := c]
    ensures j.dir in inodes
    ensures var more := if j.dir == d then [Dentry(name, c)] else [];
            Dentry(j.name, entries[Key(d, name) := c][j]) in inodes[j.dir].children + more
  {
    if j == Key(d, name) {
      assert Dentry(name, c) in [Dentry(name, c)];
    } else {
      assert Dentry(j.name, entries[j]) in inodes[j.dir].children;
    }
  }

  lemma NameFree(inodes: Inodes, entries: Entries, d: int, name: string)
    requires Lists(inodes, entries) && d in inodes
    requires forall k :: 0 <= k < |inodes[d].children| ==> inodes[d].children[k].name != name
    ensures Key(d, name) !in entries
  {
    forall k | k in entries && k.dir == d ensures k.name != name {
      assert Dentry(k.name, entries[k]) in inodes[d].children;
    }
  }

  /** What linking changes: one list, and one count of links. */
  lemma WithEntryIs(inodes: Inodes, d: int, name: string, c: int)
    requires d in inodes && c in inodes && c != d
    ensures var after := WithEntry(inodes, d, name, c);
            && (forall i :: i in after <==> i in inodes)
            && (forall i {:trigger after[i]} :: i in inodes ==>
                  && after[i].isDir == inodes[i].isDir
                  && after[i].links == inodes[i].links + (if i == c then 1 else 0)
                  && after[i].children == inodes[i].children + if i == d then [Dentry(name, c)] else [])
  {
    forall i | i in inodes ensures inodes[i].children + [] == inodes[i].children { }
  }

  lemma LinkedCounted(inodes: Inodes, entries: Entries, handles: map<int, int>, held: multiset<int>, root: int, d: int,
                      name: string, c: int)
    requires Counted(inodes, entries, handles, held, root) && d in inodes && c in inodes && c in held && c != d
    requires Key(d, name) !in entries
    ensures Counted(WithEntry(inodes, d, name, c), entries[Key(d, name) := c], handles, held - multiset{c}, root)
  {
    var after, entries' := WithEntry(inodes, d, name, c), entries[Key(d, name) := c];
    forall i | i in after ensures after[i].links == |Names(entries', i)| { NamesMore(entries, Key(d, name), c, i); }
  }

  lemma LinkedTree(inodes: Inodes, entries: Entries, handles: map<int, int>, held: multiset<int>, root: int,
                   nextId: int, d: int, name: string, c: int)
    requires Tree(inodes, entries, root, nextId) && Counted(inodes, entries, handles, held, root)
    requires d in inodes && c in inodes && c != d && Key(d, name) !in entries && c != root
    requires inodes[c].isDir ==> inodes[c].links == 0 && d < c
    requires d == root || inodes[d].links > 0
    ensures Tree(WithEntry(inodes, d, name, c), entries[Key(d, name) := c], root, nextId)
  {
    WithEntryIs(inodes, d, name, c);
    hide WithEntry;
    if inodes[c].isDir {
      assert |Names(entries, c)| == 0;
      forall k | k in entries ensures entries[k] != c { assert k !in Names(entries, c); }
    }
  }

  /** dentry_remove: entry j of directory d. */
  function WithoutEntry(inodes: Inodes, d: int, j: nat): Inodes
    requires d in inodes && j < |inodes[d].children| && inodes[d].children[j].inode in inodes
  {
    var x, c := inodes[d].children, inodes[d].children[j].inode;
    var rest := inodes[d := inodes[d].(children := x[..j] + x[j + 1..])];
    rest[c := rest[c].(links := rest[c].links - 1)]
  }

  /** The reference of the entry is in hand now. A directory may lose its name only if it is empty. */
  lemma Unlinked(inodes: Inodes, entries: Entries, handles: map<int, int>, held: multiset<int>, root: int, nextId: int,
                 d: int, j: nat)
    requires Inv(inodes, entries, handles, held, root, nextId) && d in inodes && j < |inodes[d].children|
    requires inodes[d].children[j].inode in inodes
    requires inodes[inodes[d].children[j].inode].isDir ==> inodes[inodes[d].children[j].inode].children == []
    ensures var c, k := inodes[d].children[j].inode, Key(d, inodes[d].children[j].name);
            && c != d && k in entries && entries[k] == c && inodes[c].links > 0
            && Inv(WithoutEntry(inodes, d, j), entries - {k}, handles, held + multiset{c}, root, nextId)
  {
    hide Inv, Counted, Lists, Tree;
    var k := Key(d, inodes[d].children[j].name);
    InvParts(inodes, entries, handles, held, root, nextId);
    EntryAt(inodes, entries, root, nextId, d, j);
    UnlinkedLists(inodes, entries, d, j);
    UnlinkedCounted(inodes, entries, handles, held, root, d, j);
    UnlinkedTree(inodes, entries, root, nextId, d, j);
    InvIs(WithoutEntry(inodes, d, j), entries - {k}, handles, held + multiset{inodes[d].children[j].inode}, root,
          nextId);
  }

  lemma EntryAt(inodes: Inodes, entries: Entries, root: int, nextId: int, d: int, j: nat)
    requires Lists(inodes, entries) && Tree(inodes, entries, root, nextId) && d in inodes && j < |inodes[d].children|
    requires inodes[d].children[j].inode in inodes
    ensures var x := inodes[d].children[j];
            Key(d, x.name) in entries && entries[Key(d, x.name)] == x.inode && x.inode != d && inodes[d].isDir
  {
    assert inodes[d].children[j] in inodes[d].children;
  }

  lemma UnlinkedLists(inodes: Inodes, entries: Entries, d: int, j: nat)
    requires Lists(inodes, entries) && d in inodes && j < |inodes[d].children|
    requires inodes[d].children[j].inode in inodes && inodes[d].children[j].inode != d
    ensures Lists(WithoutEntry(inodes, d, j), entries - {Key(d, inodes[d].children[j].name)})
  {
    hide UniqueNames, WithoutEntry, Lists;
    var x := inodes[d].children;
    var rest := x[..j] + x[j + 1..];
    ListsUnique(inodes, entries, d);
    Cut(x, j, rest);
    OneCut(inodes, d, j, rest);
    ListsCut(inodes, entries, WithoutEntry(inodes, d, j), d, x[j], rest);
  }

  lemma ListsUnique(inodes: Inodes, entries: Entries, d: int)
    requires Lists(inodes, entries) && d in inodes
    ensures UniqueNames(inodes[d].children)
  {
  }

  /** One entry gone from the list of d. */
  lemma ListsCut(inodes: Inodes, entries: Entries, after: Inodes, d: int, z: Dentry, rest: seq<Dentry>)
    requires Lists(inodes, entries) && d in inodes && after.Keys == inodes.Keys
    requires forall e :: e in inodes ==>
               && after[e].children == (if e == d then rest else inodes[e].children)
               && after[e].isDir == inodes[e].isDir
    requires UniqueNames(rest) && forall y :: y in rest <==> y in inodes[d].children && y.name != z.name
    ensures Lists(after, entries - {Key(d, z.name)})
  {
    hide UniqueNames;
    forall q | q in entries && q != Key(d, z.name) ensures Dentry(q.name, entries[q]) in after[q.dir].children {
      assert Dentry(q.name, entries[q]) in inodes[q.dir].children;
    }
    forall e | e in after ensures UniqueNames(after[e].children) && (after[e].children != [] ==> after[e].isDir) {
      assert UniqueNames(inodes[e].children);
      if e == d && rest != [] { assert rest[0] in inodes[d].children; }
    }
  }

  lemma OneCut(inodes: Inodes, d: int, j: nat, rest: seq<Dentry>)
    requires d in inodes && j < |inodes[d].children| && inodes[d].children[j].inode in inodes
    requires rest == inodes[d].children[..j] + inodes[d].children[j + 1..]
    ensures WithoutEntry(inodes, d, j).Keys == inodes.Keys
    ensures forall e :: e in inodes ==>
              && WithoutEntry(inodes, d, j)[e].children == (if e == d then rest else inodes[e].children)
              && WithoutEntry(inodes, d, j)[e].isDir == inodes[e].isDir
  {
  }

  lemma Cut(x: seq<Dentry>, j: nat, rest: seq<Dentry>)
    requires UniqueNames(x) && j < |x| && rest == x[..j] + x[j + 1..]
    ensures UniqueNames(rest) && forall y :: y in rest <==> y in x && y.name != x[j].name
  {
    CutUnique(x, j);
    forall y ensures y in rest <==> y in x && y.name != x[j].name { CutHas(x, j, y); }
  }

  lemma CutHas(x: seq<Dentry>, j: nat, y: Dentry)
    requires UniqueNames(x) && j < |x|
    ensures y in x[..j] + x[j + 1..] <==> y in x && y.name != x[j].name
  {
    var rest := x[..j] + x[j + 1..];
    if y in x && y.name != x[j].name {
      var i :| 0 <= i < |x| && x[i] == y;
      assert rest[if i < j then i else i - 1] == y;
    }
    if y in rest {
      var i :| 0 <= i < |rest| && rest[i] == y;
      assert x[if i < j then i else i + 1] == y;
    }
  }

  lemma CutUnique(x: seq<Dentry>, j: nat)
    requires UniqueNames(x) && j < |x|
    ensures UniqueNames(x[..j] + x[j + 1..])
  {
  }

  lemma UnlinkedCounted(inodes: Inodes, entries: Entries, handles: map<int, int>, held: multiset<int>, root: int,
                        d: int, j: nat)
    requires Counted(inodes, entries, handles, held, root) && d in inodes && j < |inodes[d].children|
    requires inodes[d].children[j].inode in inodes && inodes[d].children[j].inode != d
    requires var x := inodes[d].children[j]; Key(d, x.name) in entries && entries[Key(d, x.name)] == x.inode
    ensures var x := inodes[d].children[j];
            && inodes[x.inode].links > 0
            && Counted(WithoutEntry(inodes, d, j), entries - {Key(d, x.name)}, handles, held + multiset{x.inode}, root)
  {
    var x := inodes[d].children[j];
    var after, k := WithoutEntry(inodes, d, j), Key(d, x.name);
    assert k in Names(entries, x.inode);
    assert inodes[x.inode].links == |Names(entries, x.inode)|;
    forall i | i in after ensures after[i].links == |Names(entries - {k}, i)| { NamesLess(entries, k, i); }
  }

  lemma UnlinkedTree(inodes: Inodes, entries: Entries, root: int, nextId: int, d: int, j: nat)
    requires Tree(inodes, entries, root, nextId) && d in inodes && j < |inodes[d].children|
    requires inodes[d].children[j].inode in inodes && inodes[d].children[j].inode != d
    requires inodes[inodes[d].children[j].inode].isDir ==> inodes[inodes[d].children[j].inode].children == []
    ensures Tree(WithoutEntry(inodes, d, j), entries - {Key(d, inodes[d].children[j].name)}, root, nextId)
  {
  }
}
