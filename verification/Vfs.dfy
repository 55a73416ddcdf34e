/** Names, links and open files (kernel/fs/vfs.c, kernel/fs/tmpfs.c, kernel/fs/dentry.c,
    kernel/fs/fs.c, kernel/syscall/fs.c). `held` are the references that the running
    system call has in hand; every system call ends with none. */
module Vfs {
  import opened Namespace

  datatype Disk = Disk(of: Inodes)

  datatype Handles = Handles(of: map<int, int>)

  datatype Index = Index(of: Entries)

  /** References to the result of a look-up and to a directory, besides others. */
  ghost function InHand(base: multiset<int>, r: Result, parent: int): multiset<int> {
    base + (if r.Ok? then multiset{r.inode} else multiset{}) + (if parent >= 0 then multiset{parent} else multiset{})
  }

  lemma InHandFacts(base: multiset<int>, r: Result, p: int)
    ensures p >= 0 ==> p in InHand(base, r, p) && InHand(base, r, p) - multiset{p} == InHand(base, r, -1)
    ensures r.Ok? ==> r.inode in InHand(base, r, p)
    ensures r.Ok? ==> forall e :: InHand(base, r, p) - multiset{r.inode} == InHand(base, Err(e), p)
    ensures r.Err? && p < 0 ==> InHand(base, r, p) == base
    ensures r.Err? && p >= 0 ==> InHand(base, r, p) == base + multiset{p}
    ensures r.Ok? && p < 0 ==> InHand(base, r, p) == base + multiset{r.inode}
    ensures p < 0 ==> InHand(base, r, p) == InHand(base, r, -1)
  {
    var x: multiset<int> := if r.Ok? then multiset{r.inode} else multiset{};
    var y: multiset<int> := if p >= 0 then multiset{p} else multiset{};
    Hands(base, x, y);
    assert forall e :: InHand(base, Err(e), p) == base + multiset{} + y;
    assert InHand(base, r, -1) == base + x + multiset{};
  }

  lemma Hands(base: multiset<int>, x: multiset<int>, y: multiset<int>)
    ensures base + x + y - x == base + y && base + x + y - y == base + x
    ensures base + x + multiset{} == base + x && base + multiset{} + y == base + y && base + multiset{} == base
    ensures x <= base + x + y && y <= base + x + y
  {
  }

  lemma InHandBase(o: int, r: Result, p: int)
    ensures o in InHand(multiset{o}, r, p) && InHand(multiset{o}, r, p) - multiset{o} == InHand(multiset{}, r, p)
  {
  }

  lemma HandBack(h: multiset<int>, c: int)
    ensures h + multiset{c} - multiset{c} == h
  {
  }

  lemma HandLink(c: int, d: int)
    ensures var two := multiset{c} + multiset{d};
            && d in two && c in two - multiset{d} && two - multiset{d} - multiset{c} == multiset{}
            && two + multiset{c} - multiset{c} == two
            && d in two + multiset{c} && c in two + multiset{c} - multiset{d}
            && two + multiset{c} - multiset{d} - multiset{c} == multiset{c}
  {
  }

  /** The hand holds no more than the result and the directory. */
  lemma NothingElse(r: Result, p: int)
    ensures r.Err? ==> InHand(multiset{}, r, p) == if p >= 0 then multiset{p} else multiset{}
    ensures r.Err? && p >= 0 ==> p in InHand(multiset{}, r, p) && InHand(multiset{}, r, p) - multiset{p} == multiset{}
    ensures r.Ok? && p < 0 ==> InHand(multiset{}, r, p) == multiset{r.inode}
  {
  }

  lemma HandBackOther(h: multiset<int>, c: int, d: int)
    requires d in h
    ensures h + multiset{c} - multiset{d} - multiset{c} == h - multiset{d}
  {
  }

  /** One step of a look-up, with the directory kept in hand or not. */
  lemma HandStep(base: multiset<int>, at: int, r: Result, keep: bool)
    requires at >= 0
    ensures var had := base + multiset{at} + if keep then multiset{at} else multiset{};
            && at in had
            && (if r.Ok? then had + multiset{r.inode} - multiset{at} else had - multiset{at})
               == InHand(base, r, if keep then at else -1)
    ensures keep ==> at in InHand(base, r, at)
    ensures r.Ok? ==> r.inode in InHand(base, r, if keep then at else -1)
  {
  }

  lemma WithEntryAt(inodes: Inodes, d: int, name: string, c: int)
    requires d in inodes && c in inodes && c != d
    ensures var after := WithEntry(inodes, d, name, c);
            c in after && d in after && after[c] == inodes[c].(links := inodes[c].links + 1)
  {
  }

  lemma WithoutEntryKeys(inodes: Inodes, d: int, j: nat)
    requires d in inodes && j < |inodes[d].children| && inodes[d].children[j].inode in inodes
    ensures WithoutEntry(inodes, d, j).Keys == inodes.Keys
  {
  }

  lemma OnlyRefsIn(inodes: Inodes, after: Inodes)
    requires OnlyRefs(inodes, after)
    ensures forall i :: i in after ==> i in inodes
  {
  }

  class Vfs {
    const root: int
    var inodes: Disk
    /** Open descriptions and working directories. */
    var handles: Handles
    var nextId: int
    var nextHandle: int
    ghost var entries: Index
    ghost var held: multiset<int>

    ghost predicate Busy()
      reads this
    {
      && Inv(inodes.of, entries.of, handles.of, held, root, nextId)
      && nextHandle >= 0 && forall h :: h in handles.of ==> h < nextHandle
    }

    /** Between two system calls. */
    ghost predicate Valid()
      reads this
    {
      Busy() && held == multiset{}
    }

    /** tmpfs_create_root: one reference, and no name. */
    constructor ()
      ensures Valid() && entries.of == map[] && handles.of == map[]
    {
      root, nextId, nextHandle := 0, 1, 0;
      inodes, handles, entries, held := Disk(map[0 := Inode(true, 0, 1, [])]), Handles(map[]), Index(map[]), multiset{};
      new;
      assert forall i :: Names(map[], i) == {} && Namespace.Handles(map[], i) == {};
    }

    /** Only references to inodes have come and gone, or inodes without a name. */
    twostate predicate SameTree()
      reads this
    {
      entries == old(entries) && handles == old(handles) && nextId == old(nextId) && OnlyRefs(old(inodes).of, inodes.of)
    }

    method InodeRef(i: int)
      requires Busy() && i in inodes.of
      modifies this`inodes, this`held
      ensures Busy() && SameTree() && held == old(held) + multiset{i} && inodes.of.Keys == old(inodes).of.Keys
      ensures NoneGone(old(inodes).of, inodes.of)
    {
      hide Inv;
      Reffed(inodes.of, entries.of, handles.of, held, root, nextId, i);
      inodes := Disk(inodes.of[i := inodes.of[i].(refs := inodes.of[i].refs + 1)]);
      held := held + multiset{i};
      assert inodes.of.Keys == old(inodes).of.Keys;
    }

    /** inode_unref: with the last reference to an inode without names it is destroyed. */
    method InodeUnref(i: int)
      requires Busy() && i in held && i in inodes.of
      modifies this`inodes, this`held
      ensures Busy() && SameTree() && held == old(held) - multiset{i}
      ensures inodes.of.Keys == if old(inodes).of[i].refs == 1 then old(inodes).of.Keys - {i} else old(inodes).of.Keys
      ensures old(inodes).of[i].refs > 1 ==> NoneGone(old(inodes).of, inodes.of)
    {
      hide Inv;
      PositiveRefs(inodes.of, entries.of, handles.of, held, root, nextId, i);
      if inodes.of[i].refs > 1 {
        Unreffed(inodes.of, entries.of, handles.of, held, root, nextId, i);
        inodes := Disk(inodes.of[i := inodes.of[i].(refs := inodes.of[i].refs - 1)]);
        assert inodes.of.Keys == old(inodes).of.Keys;
      } else {
        Destroyed(inodes.of, entries.of, handles.of, held, root, nextId, i);
        inodes := Disk(inodes.of - {i});
        assert inodes.of.Keys == old(inodes).of.Keys - {i};
      }
      held := held - multiset{i};
    }

    // ----- one directory -----

    /** The index of the entry with this name, or the length of the list. */
    static method Search(children: seq<Dentry>, name: string) returns (j: nat)
      ensures j <= |children| && (j < |children| ==> children[j].name == name)
      ensures forall k :: 0 <= k < j ==> children[k].name != name
    {
      j := 0;
      while j < |children| && children[j].name != name
        invariant j <= |children| && forall k :: 0 <= k < j ==> children[k].name != name
      {
        j := j + 1;
      }
    }

    /** inode_lookup_child: the reference to the directory is given up, whatever comes out. */
    method LookupChild(d: int, name: string) returns (r: Result)
      requires Busy() && d in held && d in inodes.of
      modifies this`inodes, this`held
      ensures Busy() && SameTree()
      ensures held == if r.Ok? then old(held) + multiset{r.inode} - multiset{d} else old(held) - multiset{d}
      ensures r == Lead(old(inodes).of, entries.of, d, [name])
      ensures r.Ok? ==> r.inode in inodes.of
      ensures d == root || old(inodes).of[d].links > 0 ==> NoneGone(old(inodes).of, inodes.of)
    {
      hide Inv, OnlyRefs;
      DirFacts(inodes.of, entries.of, handles.of, held, root, nextId, d);
      var x := inodes.of[d];
      assert [name][1..] == [];
      ghost var was := inodes.of;
      if d == root || x.links > 0 { RefsToSpare(was, entries.of, handles.of, held, root, nextId, d); }
      if !x.isDir {
        InodeUnref(d);
        return Err(NotDir);
      }
      var j := Search(x.children, name);
      if j == |x.children| {
        InodeUnref(d);
        return Err(NoEntry);
      }
      var c := x.children[j].inode;
      InodeRef(c);
      ghost var mid := inodes.of;
      assert d in mid.Keys;
      OnlyRefsAt(was, mid, d);
      if d == root || x.links > 0 { RefsToSpare(mid, entries.of, handles.of, held, root, nextId, d); }
      InodeUnref(d);
      OnlyRefsThen(was, mid, inodes.of);
      StillHeld(inodes.of, entries.of, handles.of, held, root, nextId, c);
      r := Ok(c);
    }

    /** inode_create_child, for a regular file or a directory: a new inode with its first
        name, and a reference to it for the caller; the one to the directory is given up. */
    method CreateChild(d: int, name: string, isDir: bool) returns (r: Result)
      requires Busy() && d in held && d in inodes.of && inodes.of[d].isDir && (d == root || inodes.of[d].links > 0)
      modifies this`inodes, this`held, this`entries, this`nextId
      ensures Busy() && handles == old(handles) && nextId >= old(nextId)
              && OldKinds(old(inodes).of, inodes.of, old(nextId))
      ensures if Key(d, name) in old(entries).of then
                r == Err(Exists) && SameTree() && held == old(held) - multiset{d}
              else
                && r == Ok(old(nextId)) && held == old(held) + multiset{r.inode} - multiset{d}
                && entries.of == old(entries).of[Key(d, name) := r.inode]
                && r.inode in inodes.of && inodes.of[r.inode].isDir == isDir && inodes.of[r.inode].children == []
    {
      hide Inv, OnlyRefs, NoneGone, WithEntry;
      var c := nextId;
      DirFacts(inodes.of, entries.of, handles.of, held, root, nextId, d);
      var j := Search(inodes.of[d].children, name);
      if j < |inodes.of[d].children| {
        InodeUnref(d);
        KindsByRefs(old(inodes).of, inodes.of, nextId);
        return Err(Exists);
      }
      RootIn(inodes.of, entries.of, handles.of, held, root, nextId);
      Fresh(inodes.of, entries.of, handles.of, held, root, nextId, isDir);
      IdsBelow(inodes.of, entries.of, handles.of, held, root, nextId);
      inodes, held, nextId := Disk(inodes.of[c := Inode(isDir, 0, 1, [])]), held + multiset{c}, nextId + 1;
      ghost var made := inodes.of;
      KindsMade(old(inodes).of, made, c);
      InodeRef(c);
      KindsByRefs(made, inodes.of, c);
      KindsThen(old(inodes).of, made, inodes.of, c, c);
      assert c in inodes.of.Keys && d in inodes.of.Keys;
      OnlyRefsAt(made, inodes.of, c);
      OnlyRefsAt(made, inodes.of, d);
      HandBack(old(held) + multiset{c}, c);
      WithEntryAt(inodes.of, d, name, c);
      ghost var before := inodes.of;
      Append(d, name, c);
      ghost var linked := inodes.of;
      KindsLinked(before, d, name, c, old(nextId));
      KindsThen(old(inodes).of, before, linked, old(nextId), old(nextId));
      InodeUnref(d);
      KindsByRefs(linked, inodes.of, old(nextId));
      KindsThen(old(inodes).of, linked, inodes.of, old(nextId), old(nextId));
      StillHeld(inodes.of, entries.of, handles.of, held, root, nextId, c);
      OnlyRefsAt(linked, inodes.of, c);
      r := Ok(c);
    }

    /** dentry_append, for a name that is not there: the entry takes over a reference in hand. */
    method Append(d: int, name: string, c: int)
      requires Busy() && d in inodes.of && c in inodes.of && c in held && c != d && c != root && inodes.of[d].isDir
      requires forall k :: 0 <= k < |inodes.of[d].children| ==> inodes.of[d].children[k].name != name
      requires (inodes.of[c].isDir ==> inodes.of[c].links == 0 && d < c) && (d == root || inodes.of[d].links > 0)
      modifies this`inodes, this`held, this`entries
      ensures Busy() && Key(d, name) !in old(entries).of && entries.of == old(entries).of[Key(d, name) := c]
      ensures held == old(held) - multiset{c} && inodes.of == WithEntry(old(inodes).of, d, name, c)
    {
      hide Inv;
      Linked(inodes.of, entries.of, handles.of, held, root, nextId, d, name, c);
      inodes := Disk(WithEntry(inodes.of, d, name, c));
      entries, held := Index(entries.of[Key(d, name) := c]), held - multiset{c};
    }

    /** inode_unlink_child: the entry goes, and with it perhaps the inode. */
    method UnlinkChild(d: int, name: string) returns (r: Result)
      requires Busy() && d in held && d in inodes.of && inodes.of[d].isDir
      requires Key(d, name) in entries.of && entries.of[Key(d, name)] in inodes.of ==>
                 inodes.of[entries.of[Key(d, name)]].isDir ==> inodes.of[entries.of[Key(d, name)]].children == []
      modifies this`inodes, this`held, this`entries
      ensures Busy() && handles == old(handles) && nextId == old(nextId) && held == old(held) - multiset{d}
      ensures (forall i :: i in inodes.of ==> i in old(inodes).of) && OldKinds(old(inodes).of, inodes.of, old(nextId))
      ensures if Key(d, name) in old(entries).of then r == Ok(old(entries).of[Key(d, name)])
              && entries.of == old(entries).of - {Key(d, name)}
              else r == Err(NoEntry) && entries == old(entries)
    {
      hide Inv, OnlyRefs, WithoutEntry;
      DirFacts(inodes.of, entries.of, handles.of, held, root, nextId, d);
      var j := Search(inodes.of[d].children, name);
      if j == |inodes.of[d].children| {
        ghost var all := inodes.of;
        InodeUnref(d);
        OnlyRefsIn(all, inodes.of);
        KindsByRefs(all, inodes.of, nextId);
        return Err(NoEntry);
      }
      var c := inodes.of[d].children[j].inode;
      Unlinked(inodes.of, entries.of, handles.of, held, root, nextId, d, j);
      WithoutEntryKeys(inodes.of, d, j);
      HandBackOther(held, c, d);
      ghost var was := WithoutEntry(inodes.of, d, j);
      KindsUnlinked(inodes.of, d, j, nextId);
      inodes := Disk(WithoutEntry(inodes.of, d, j));
      entries, held := Index(entries.of - {Key(d, name)}), held + multiset{c};
      InodeUnref(d);
      ghost var mid := inodes.of;
      StillHeld(inodes.of, entries.of, handles.of, held, root, nextId, c);
      InodeUnref(c);
      OnlyRefsThen(was, mid, inodes.of);
      OnlyRefsIn(was, inodes.of);
      KindsByRefs(was, inodes.of, nextId);
      KindsThen(old(inodes).of, was, inodes.of, nextId, nextId);
      r := Ok(c);
    }

    // ----- paths -----

    /** One step of vfs_resolve_path; with `keep`, another reference to the directory. */
    method StepInto(at: int, name: string, keep: bool, ghost base: multiset<int>) returns (r: Result)
      requires Busy() && held == base + multiset{at} && at in inodes.of
      modifies this`inodes, this`held
      ensures Busy() && SameTree() && r == Lead(old(inodes).of, entries.of, at, [name])
      ensures held == InHand(base, r, if keep then at else -1)
      ensures keep ==> at in inodes.of
      ensures at == root || old(inodes).of[at].links > 0 ==> NoneGone(old(inodes).of, inodes.of)
      ensures r.Ok? ==> r.inode in inodes.of && r.inode >= 0
    {
      hide Inv, OnlyRefs, NoneGone, InHand, Lead;
      ghost var was := inodes.of;
      IdsBelow(inodes.of, entries.of, handles.of, held, root, nextId);
      HandStep(base, at, Err(NoEntry), keep);
      OnlyRefsNow(was);
      if keep {
        InodeRef(at);
        assert at in inodes.of.Keys;
      } else {
        assert base + multiset{at} + multiset{} == base + multiset{at};
      }
      ghost var mid := inodes.of;
      OnlyRefsAt(was, mid, at);
      r := LookupChild(at, name);
      HandStep(base, at, r, keep);
      OnlyRefsThen(was, mid, inodes.of);
      if at == root || was[at].links > 0 { NoneGoneThen(was, mid, inodes.of); }
      LeadOne(was, mid, entries.of, at, name);
      if keep { StillHeld(inodes.of, entries.of, handles.of, held, root, nextId, at); }
      if r.Ok? { StillHeld(inodes.of, entries.of, handles.of, held, root, nextId, r.inode); }
    }

    /** vfs_resolve_path without mounts: the inode at the end of the path, and on request
        the directory that holds its last component. */
    method Resolve(path: seq<string>, wantParent: bool, ghost base: multiset<int>) returns (r: Result, parent: int)
      requires Busy() && held == base
      modifies this`inodes, this`held
      ensures Busy() && SameTree() && r == Lead(old(inodes).of, entries.of, root, path)
      ensures (parent >= 0) == (wantParent && path != []
                                && Lead(old(inodes).of, entries.of, root, path[..|path| - 1]).Ok?)
      ensures parent >= 0 ==>
                Lead(old(inodes).of, entries.of, root, path[..|path| - 1]) == Ok(parent) && parent in inodes.of
      ensures held == InHand(base, r, parent) && (r.Ok? ==> r.inode in inodes.of)
      ensures NoneGone(old(inodes).of, inodes.of)
    {
      hide Inv, Lead, OnlyRefs, InHand, NoneGone;
      parent := -1;
      LeadNil(inodes.of, entries.of, root);
      assert path[..0] == [];
      RootIn(inodes.of, entries.of, handles.of, held, root, nextId);
      IdsBelow(inodes.of, entries.of, handles.of, held, root, nextId);
      InodeRef(root);
      var at, i := root, 0;
      while i < |path| - 1
        invariant 0 <= i && (i == 0 || i <= |path| - 1) && Busy() && SameTree() && at in inodes.of && at >= 0
        invariant Lead(old(inodes).of, entries.of, root, path[..i]) == Ok(at) && held == base + multiset{at}
        invariant NoneGone(old(inodes).of, inodes.of)
      {
        LeadNamed(old(inodes).of, entries.of, handles.of, old(held), root, nextId, root, path[..i]);
        NilIsRoot(old(inodes).of, entries.of, root, path[..i]);
        ghost var mid := inodes.of;
        OnlyRefsAt(old(inodes).of, mid, at);
        LeadOne(old(inodes).of, mid, entries.of, at, path[i]);
        LeadStep(old(inodes).of, entries.of, root, path, i);
        r := StepInto(at, path[i], false, base);
        InHandFacts(base, r, -1);
        OnlyRefsThen(old(inodes).of, mid, inodes.of);
        NoneGoneThen(old(inodes).of, mid, inodes.of);
        if r.Err? { return; }
        at, i := r.inode, i + 1;
      }
      if path == [] {
        InHandFacts(base, Ok(at), -1);
        return Ok(at), -1;
      }
      LeadNamed(old(inodes).of, entries.of, handles.of, old(held), root, nextId, root, path[..i]);
      NilIsRoot(old(inodes).of, entries.of, root, path[..i]);
      ghost var mid := inodes.of;
      OnlyRefsAt(old(inodes).of, mid, at);
      LeadOne(old(inodes).of, mid, entries.of, at, path[i]);
      LeadStep(old(inodes).of, entries.of, root, path, i);
      assert path[..i + 1] == path;
      r := StepInto(at, path[i], wantParent, base);
      OnlyRefsThen(old(inodes).of, mid, inodes.of);
      NoneGoneThen(old(inodes).of, mid, inodes.of);
      if wantParent { parent := at; }
    }

    // ----- system calls -----

    /** inode_unref, which takes NULL as well. */
    method Drop(i: int)
      requires Busy() && (i >= 0 ==> i in held)
      modifies this`inodes, this`held
      ensures Busy() && SameTree() && held == if i >= 0 then old(held) - multiset{i} else old(held)
    {
      hide Inv, OnlyRefs;
      if i < 0 {
        OnlyRefsNow(inodes.of);
        return;
      }
      StillHeld(inodes.of, entries.of, handles.of, held, root, nextId, i);
      InodeUnref(i);
    }

    /** Everything in hand is given up. */
    method GiveUp(r: Result, p: int)
      requires Busy() && held == InHand(multiset{}, r, p) && (r.Ok? ==> r.inode >= 0)
      modifies this`inodes, this`held
      ensures Valid() && SameTree()
    {
      hide Inv, OnlyRefs, InHand;
      InHandFacts(multiset{}, r, p);
      InHandFacts(multiset{}, r, -1);
      InHandFacts(multiset{}, Err(NoEntry), -1);
      Drop(p);
      ghost var mid := inodes.of;
      if r.Ok? {
        Drop(r.inode);
        OnlyRefsThen(old(inodes).of, mid, inodes.of);
      }
    }

    /** Where the path leads, and whether its last component can be made. */
    ghost function Target(path: seq<string>): Result
      reads this
    {
      Lead(inodes.of, entries.of, root, path)
    }

    ghost predicate CanMake(path: seq<string>)
      reads this
    {
      path != [] && Target(path[..|path| - 1]).Ok? && Target(path) == Err(NoEntry)
    }

    ghost function LastKey(path: seq<string>): Key
      requires path != [] && Target(path[..|path| - 1]).Ok?
      reads this
    {
      Key(Target(path[..|path| - 1]).inode, path[|path| - 1])
    }

    /** The creation in create_inode; nobody else can have made the entry in between, so
        the first pass of its loop is the last. */
    method MakeIn(p: int, name: string, isDir: bool) returns (r: Result)
      requires Busy() && held == multiset{p} && p in inodes.of && inodes.of[p].isDir
               && (p == root || inodes.of[p].links > 0)
      requires Key(p, name) !in entries.of
      modifies this`inodes, this`held, this`entries, this`nextId
      ensures Busy() && handles == old(handles) && r == Ok(old(nextId)) && held == multiset{r.inode}
      ensures nextId >= old(nextId) && OldKinds(old(inodes).of, inodes.of, old(nextId))
      ensures r.inode in inodes.of && inodes.of[r.inode].isDir == isDir
              && entries.of == old(entries).of[Key(p, name) := r.inode]
    {
      hide Inv, OnlyRefs;
      ghost var found := inodes.of;
      InodeRef(p);
      assert p in inodes.of.Keys;
      OnlyRefsAt(found, inodes.of, p);
      ghost var at := inodes.of;
      r := CreateChild(p, name, isDir);
      ghost var made := inodes.of;
      assert held == multiset{r.inode} + multiset{p};
      StillHeld(inodes.of, entries.of, handles.of, held, root, nextId, p);
      InodeUnref(p);
      StillHeld(inodes.of, entries.of, handles.of, held, root, nextId, r.inode);
      OnlyRefsAt(made, inodes.of, r.inode);
      KindsByRefs(found, at, old(nextId));
      KindsThen(found, at, made, old(nextId), old(nextId));
      KindsByRefs(made, inodes.of, old(nextId));
      KindsThen(found, made, inodes.of, old(nextId), old(nextId));
    }

    /** create_inode, when the path leads somewhere. */
    method Found(at: Result, p: int, exclusive: bool) returns (r: Result)
      requires Busy() && at.Ok? && at.inode in inodes.of && held == InHand(multiset{}, at, p)
      modifies this`inodes, this`held
      ensures Busy() && entries == old(entries) && handles == old(handles) && nextHandle == old(nextHandle)
      ensures OnlyRefs(old(inodes).of, inodes.of)
      ensures r == (if exclusive then Err(Exists) else at) && held == InHand(multiset{}, r, -1)
      ensures r.Ok? ==> r.inode in inodes.of && inodes.of[r.inode].isDir == old(inodes).of[r.inode].isDir
    {
      hide Inv, OnlyRefs, InHand;
      ghost var was := inodes.of;
      InHandFacts(multiset{}, at, p);
      InHandFacts(multiset{}, at, -1);
      InHandFacts(multiset{}, Err(Exists), -1);
      r := at;
      Drop(p);
      StillHeld(inodes.of, entries.of, handles.of, held, root, nextId, at.inode);
      if exclusive {
        ghost var mid := inodes.of;
        InodeUnref(at.inode);
        OnlyRefsThen(was, mid, inodes.of);
        r := Err(Exists);
      } else {
        OnlyRefsAt(was, inodes.of, at.inode);
      }
    }

    /** create_inode */
    method CreateInode(path: seq<string>, isDir: bool, exclusive: bool) returns (r: Result)
      requires Valid()
      modifies this`inodes, this`held, this`entries, this`nextId
      ensures Busy() && handles == old(handles) && nextHandle == old(nextHandle)
      ensures nextId >= old(nextId) && OldKinds(old(inodes).of, inodes.of, old(nextId))
      ensures held == InHand(multiset{}, r, -1) && (r.Ok? ==> r.inode in inodes.of)
      ensures if old(CanMake(path)) then
                r == Ok(old(nextId)) && entries.of == old(entries).of[old(LastKey(path)) := r.inode]
                && inodes.of[r.inode].isDir == isDir
              else
                && entries == old(entries)
                && r == (if old(Target(path)).Ok? && exclusive then Err(Exists) else old(Target(path)))
                && (r.Ok? ==> r.inode in old(inodes).of && inodes.of[r.inode].isDir == old(inodes).of[r.inode].isDir)
    {
      hide Inv, Lead, OnlyRefs, InHand;
      var p;
      r, p := Resolve(path, true, multiset{});
      if r.Ok? {
        OnlyRefsAt(old(inodes).of, inodes.of, r.inode);
        ghost var at := inodes.of;
        r := Found(r, p, exclusive);
        OnlyRefsThen(old(inodes).of, at, inodes.of);
        KindsByRefs(old(inodes).of, inodes.of, nextId);
        return;
      }
      NothingElse(r, p);
      NothingElse(r, -1);
      ghost var mid := inodes.of;
      KindsByRefs(old(inodes).of, mid, nextId);
      if r != Err(NoEntry) || p < 0 {
        Drop(p);
        OnlyRefsThen(old(inodes).of, mid, inodes.of);
        KindsByRefs(old(inodes).of, inodes.of, nextId);
        return;
      }
      LeadLast(old(inodes).of, entries.of, root, path, p);
      RootIn(old(inodes).of, entries.of, handles.of, old(held), root, nextId);
      LeadNamed(old(inodes).of, entries.of, handles.of, old(held), root, nextId, root, path[..|path| - 1]);
      NilIsRoot(old(inodes).of, entries.of, root, path[..|path| - 1]);
      OnlyRefsAt(old(inodes).of, inodes.of, p);
      r := MakeIn(p, path[|path| - 1], isDir);
      KindsThen(old(inodes).of, mid, inodes.of, old(nextId), old(nextId));
      NothingElse(r, -1);
    }

    /** sys_mkdir */
    method Mkdir(path: seq<string>) returns (r: Result)
      requires Valid()
      modifies this`inodes, this`held, this`entries, this`nextId
      ensures Valid() && handles == old(handles) && OldKinds(old(inodes).of, inodes.of, old(nextId))
      ensures if old(CanMake(path)) then
                r == Ok(old(nextId)) && entries.of == old(entries).of[old(LastKey(path)) := r.inode]
                && r.inode in inodes.of && inodes.of[r.inode].isDir
              else entries == old(entries) && r == if old(Target(path)).Ok? then Err(Exists) else old(Target(path))
    {
      hide Inv, InHand, Lead, OnlyRefs;
      r := CreateInode(path, true, true);
      InHandFacts(multiset{}, r, -1);
      if r.Err? { return; }
      assert old(CanMake(path));
      assert old(LastKey(path)) in entries.of;
      ghost var made := inodes.of;
      Finish(r.inode);
      KindsByRefs(made, inodes.of, old(nextId));
      KindsThen(old(inodes).of, made, inodes.of, old(nextId), old(nextId));
    }

    /** The last reference in hand is given up, to an inode that has a name. */
    method Finish(i: int)
      requires Busy() && held == multiset{i} && i in inodes.of && exists k :: k in entries.of && entries.of[k] == i
      modifies this`inodes, this`held
      ensures Valid() && SameTree() && i in inodes.of && inodes.of[i].isDir == old(inodes).of[i].isDir
    {
      hide Inv, OnlyRefs;
      ghost var k :| k in entries.of && entries.of[k] == i;
      InodeUnref(i);
      assert held == multiset{};
      NamedBy(inodes.of, entries.of, handles.of, held, root, nextId, k);
      OnlyRefsAt(old(inodes).of, inodes.of, i);
    }

    /** inode_open: the reference in hand becomes that of the description, or is given up. */
    method InodeOpen(i: int, write: bool) returns (h: int)
      requires Busy() && held == multiset{i} && i in inodes.of
      modifies this`inodes, this`held, this`handles, this`nextHandle
      ensures Valid() && entries == old(entries) && (h >= 0 <==> !(write && old(inodes).of[i].isDir))
      ensures h >= 0 ==> h !in old(handles).of && handles.of == old(handles).of[h := i] && inodes == old(inodes)
      ensures h < 0 ==> handles == old(handles) && OnlyRefs(old(inodes).of, inodes.of)
    {
      hide Inv, OnlyRefs;
      if inodes.of[i].isDir && write {
        InodeUnref(i);
        assert held == multiset{};
        return -1;
      }
      h := nextHandle;
      Opened(inodes.of, entries.of, handles.of, held, root, nextId, i, h);
      handles, nextHandle := Handles(handles.of[h := i]), nextHandle + 1;
      held := held - multiset{i};
      assert held == multiset{};
    }

    /** What opening a path that cannot be made comes to: the error of the path itself, an inode
        that exclusive creation does not want, a directory that cannot be written, or the inode. */
    ghost function Opening(path: seq<string>, create: bool, exclusive: bool, write: bool): Result
      reads this
    {
      if Target(path).Err? then Target(path)
      else if create && exclusive then Err(Exists)
      else if write && LeadsToDir(path) then Err(IsDir)
      else Target(path)
    }

    /** sys_open: a description, with the reference that resolving left in hand. Nothing is made
        unless it is asked for, the path leads nowhere and its directory is there. */
    method Open(path: seq<string>, create: bool, exclusive: bool, write: bool) returns (h: int, r: Result)
      requires Valid()
      modifies this`inodes, this`held, this`entries, this`handles, this`nextId, this`nextHandle
      ensures Valid() && OldKinds(old(inodes).of, inodes.of, old(nextId))
      ensures r.Ok? ==> h !in old(handles).of && handles.of == old(handles).of[h := r.inode] && r.inode in inodes.of
                        && !(write && inodes.of[r.inode].isDir)
      ensures r.Err? ==> handles == old(handles)
      ensures if create && old(CanMake(path)) then
                entries.of == old(entries).of[old(LastKey(path)) := old(nextId)] && r == Ok(old(nextId))
                && old(nextId) in inodes.of && !inodes.of[old(nextId)].isDir
              else entries == old(entries) && r == old(Opening(path, create, exclusive, write))
    {
      hide Inv, InHand, Lead, OnlyRefs;
      h := -1;
      ghost var was := inodes.of;
      if create {
        r := CreateInode(path, false, exclusive);
      } else {
        var p;
        r, p := Resolve(path, false, multiset{});
        InHandFacts(multiset{}, r, p);
        if r.Ok? { OnlyRefsAt(was, inodes.of, r.inode); }
        KindsByRefs(was, inodes.of, old(nextId));
      }
      InHandFacts(multiset{}, r, -1);
      if r.Err? { return; }
      ghost var at := inodes.of;
      h := InodeOpen(r.inode, write);
      if h < 0 {
        KindsByRefs(at, inodes.of, old(nextId));
        KindsThen(was, at, inodes.of, old(nextId), old(nextId));
      }
      if h < 0 { r := Err(IsDir); }
    }

    /** file_description_close, with the last reference to the description; a working
        directory is given up in the same way. */
    method Close(h: int)
      requires Valid() && h in handles.of
      modifies this`inodes, this`held, this`handles
      ensures Valid() && entries == old(entries) && handles.of == old(handles).of - {h}
      ensures OnlyRefs(old(inodes).of, inodes.of)
    {
      hide Inv, OnlyRefs;
      var i := handles.of[h];
      Taken(inodes.of, entries.of, handles.of, held, root, nextId, h);
      handles, held := Handles(handles.of - {h}), held + multiset{i};
      StillHeld(inodes.of, entries.of, handles.of, held, root, nextId, i);
      InodeUnref(i);
      assert held == multiset{};
    }

    /** sys_chdir, for a process whose working directory is handle h. */
    method Chdir(path: seq<string>, h: int) returns (now: int, r: Result)
      requires Valid() && h in handles.of
      modifies this`inodes, this`held, this`handles, this`nextHandle
      ensures Valid() && entries == old(entries) && OnlyRefs(old(inodes).of, inodes.of)
      ensures r.Ok? ==> r == old(Target(path)) && r.inode in inodes.of && inodes.of[r.inode].isDir
                        && handles.of == old(handles).of[now := r.inode] - {h} && now !in old(handles).of
      ensures r.Err? ==> now == h && handles == old(handles)
      ensures r == if old(Target(path)).Ok? && !old(LeadsToDir(path)) then Err(NotDir) else old(Target(path))
    {
      hide Inv, InHand, Lead, OnlyRefs;
      now := h;
      ghost var before := inodes.of;
      var p;
      r, p := Resolve(path, false, multiset{});
      InHandFacts(multiset{}, r, p);
      if r.Err? { return; }
      OnlyRefsAt(before, inodes.of, r.inode);
      if !inodes.of[r.inode].isDir {
        ghost var at := inodes.of;
        InodeUnref(r.inode);
        OnlyRefsThen(before, at, inodes.of);
        assert held == multiset{};
        return h, Err(NotDir);
      }
      ghost var was := inodes.of;
      now := InodeOpen(r.inode, false);
      Close(h);
      OnlyRefsThen(before, was, inodes.of);
      HandleIn(inodes.of, entries.of, handles.of, held, root, nextId, now);
      OnlyRefsAt(was, inodes.of, r.inode);
    }

    /** inode_link_child. When the name is taken the caller's reference to the child stays
        in hand: the source gives up only the one that the entry would have got. */
    method LinkChild(d: int, name: string, c: int) returns (ok: bool)
      requires Busy() && held == multiset{c} + multiset{d} && c in inodes.of && d in inodes.of
      requires inodes.of[d].isDir && !inodes.of[c].isDir && (d == root || inodes.of[d].links > 0)
      modifies this`inodes, this`held, this`entries
      ensures Busy() && handles == old(handles) && ok == (Key(d, name) !in old(entries).of)
      ensures OldKinds(old(inodes).of, inodes.of, nextId) && nextId == old(nextId)
      ensures ok ==> held == multiset{} && entries.of == old(entries).of[Key(d, name) := c]
      ensures !ok ==> held == multiset{c} && entries == old(entries)
    {
      hide Inv, OnlyRefs, NoneGone, WithEntry;
      RootIn(inodes.of, entries.of, handles.of, held, root, nextId);
      HandLink(c, d);
      ghost var was := inodes.of;
      InodeRef(c);
      assert c in inodes.of.Keys && d in inodes.of.Keys;
      OnlyRefsAt(was, inodes.of, c);
      OnlyRefsAt(was, inodes.of, d);
      DirFacts(inodes.of, entries.of, handles.of, held, root, nextId, d);
      var j := Search(inodes.of[d].children, name);
      ok := j == |inodes.of[d].children|;
      ghost var mid := inodes.of;
      KindsByRefs(was, mid, nextId);
      if ok {
        Append(d, name, c);
        KindsLinked(mid, d, name, c, nextId);
        KindsThen(was, mid, inodes.of, nextId, nextId);
      }
      ghost var after := inodes.of;
      GiveTwo(d, c);
      KindsByRefs(after, inodes.of, nextId);
      KindsThen(was, after, inodes.of, nextId, nextId);
    }

    /** Two references in hand are given up. */
    method GiveTwo(d: int, c: int)
      requires Busy() && d in held && c in held - multiset{d}
      modifies this`inodes, this`held
      ensures Busy() && SameTree() && held == old(held) - multiset{d} - multiset{c}
    {
      hide Inv, OnlyRefs;
      ghost var was := inodes.of;
      StillHeld(inodes.of, entries.of, handles.of, held, root, nextId, d);
      InodeUnref(d);
      ghost var mid := inodes.of;
      StillHeld(inodes.of, entries.of, handles.of, held, root, nextId, c);
      InodeUnref(c);
      OnlyRefsThen(was, mid, inodes.of);
    }

    /** What sys_link says of a new path that cannot be made. */
    static function NoPlace(r: Result): Error {
      if r.Ok? then Exists else if r != Err(NoEntry) then r.error else NotPermitted
    }

    /** sys_link: not for directories, which keeps them in a tree. */
    method Link(oldPath: seq<string>, newPath: seq<string>) returns (r: Result)
      requires Valid()
      modifies this`inodes, this`held, this`entries
      ensures Valid() && handles == old(handles) && nextId == old(nextId) && OldKinds(old(inodes).of, inodes.of, nextId)
      ensures if old(CanMake(newPath)) && old(Target(oldPath)).Ok? && !old(LeadsToDir(oldPath)) then
                r == old(Target(oldPath)) && entries.of == old(entries).of[old(LastKey(newPath)) := r.inode]
              else r.Err? && entries == old(entries)
      ensures r == if old(Target(oldPath)).Err? then old(Target(oldPath))
                   else if old(LeadsToDir(oldPath)) then Err(NotPermitted)
                   else if old(CanMake(newPath)) then old(Target(oldPath))
                   else Err(NoPlace(old(Target(newPath))))
    {
      hide Inv, InHand, Lead, OnlyRefs, NoneGone;
      ghost var was := inodes.of;
      var o, none := Resolve(oldPath, false, multiset{});
      InHandFacts(multiset{}, o, none);
      ghost var mid := inodes.of;
      KindsByRefs(was, mid, nextId);
      if o.Err? { return o; }
      OnlyRefsAt(was, inodes.of, o.inode);
      if inodes.of[o.inode].isDir {
        InodeUnref(o.inode);
        OnlyRefsThen(was, mid, inodes.of);
        KindsByRefs(was, inodes.of, nextId);
        assert held == multiset{};
        return Err(NotPermitted);
      }
      LeadKept(was, inodes.of, entries.of, root, newPath);
      if newPath != [] { LeadKept(was, inodes.of, entries.of, root, newPath[..|newPath| - 1]); }
      r := LinkTo(o.inode, newPath);
      KindsThen(was, mid, inodes.of, nextId, nextId);
    }

    ghost predicate LeadsToDir(path: seq<string>)
      reads this
    {
      Target(path).Ok? && Target(path).inode in inodes.of && inodes.of[Target(path).inode].isDir
    }

    /** The second half of sys_link, with the reference to the old inode in hand. */
    method LinkTo(o: int, path: seq<string>) returns (r: Result)
      requires Busy() && held == multiset{o} && o in inodes.of && !inodes.of[o].isDir
      modifies this`inodes, this`held, this`entries
      ensures Valid() && handles == old(handles) && nextId == old(nextId) && OldKinds(old(inodes).of, inodes.of, nextId)
      ensures if old(CanMake(path)) then r == Ok(o) && entries.of == old(entries).of[old(LastKey(path)) := o]
              else r == Err(NoPlace(old(Target(path)))) && entries == old(entries)
    {
      hide Inv, InHand, Lead, OnlyRefs, NoneGone;
      ghost var was := inodes.of;
      var p;
      r, p := Resolve(path, true, multiset{o});
      InHandFacts(multiset{o}, r, p);
      InHandBase(o, r, p);
      StillHeld(inodes.of, entries.of, handles.of, held, root, nextId, o);
      if r != Err(NoEntry) || p < 0 {
        if r.Ok? { IdsBelow(inodes.of, entries.of, handles.of, held, root, nextId); }
        ghost var mid := inodes.of;
        InodeUnref(o);
        OnlyRefsThen(was, mid, inodes.of);
        ghost var less := inodes.of;
        GiveUp(r, p);
        OnlyRefsThen(was, less, inodes.of);
        KindsByRefs(was, inodes.of, nextId);
        return Err(NoPlace(r));
      }
      LeadLast(was, entries.of, root, path, p);
      RootIn(was, entries.of, handles.of, old(held), root, nextId);
      LeadNamed(was, entries.of, handles.of, old(held), root, nextId, root, path[..|path| - 1]);
      NilIsRoot(was, entries.of, root, path[..|path| - 1]);
      OnlyRefsAt(was, inodes.of, p);
      StillHeld(inodes.of, entries.of, handles.of, held, root, nextId, o);
      OnlyRefsAt(was, inodes.of, o);
      ghost var at := inodes.of;
      KindsByRefs(was, at, nextId);
      var ok := LinkChild(p, path[|path| - 1], o);
      KindsThen(was, at, inodes.of, nextId, nextId);
      r := Ok(o);
    }

    /** sys_unlink */
    method Unlink(path: seq<string>) returns (r: Result)
      requires Valid()
      modifies this`inodes, this`held, this`entries
      ensures Valid() && handles == old(handles) && nextId == old(nextId) && OldKinds(old(inodes).of, inodes.of, nextId)
      ensures if path != [] && old(Target(path)).Ok? && !old(LeadsToDir(path)) then
                r == old(Target(path)) && old(Target(path[..|path| - 1])).Ok?
                && entries.of == old(entries).of - {old(LastKey(path))}
              else
                && entries == old(entries)
                && r == if old(Target(path)).Err? then old(Target(path)) else Err(NotPermitted)
    {
      hide Inv, InHand, Lead, OnlyRefs, NoneGone;
      ghost var was := inodes.of;
      var p;
      r, p := Resolve(path, true, multiset{});
      ghost var mid := inodes.of;
      if r.Err? {
        GiveUp(r, p);
        OnlyRefsThen(was, mid, inodes.of);
        KindsByRefs(was, inodes.of, nextId);
        return;
      }
      if path != [] { LeadPrefix(was, entries.of, root, path); }
      OnlyRefsAt(was, inodes.of, r.inode);
      InHandFacts(multiset{}, r, p);
      StillHeld(inodes.of, entries.of, handles.of, held, root, nextId, r.inode);
      if p < 0 || inodes.of[r.inode].isDir {
        GiveUp(r, p);
        OnlyRefsThen(was, mid, inodes.of);
        KindsByRefs(was, inodes.of, nextId);
        return Err(NotPermitted);
      }
      RemoveAt(p, path, r.inode, was, old(held));
    }

    /** The end of sys_unlink and sys_rmdir: both references in hand are given up, and the
        entry goes. */
    method RemoveAt(p: int, path: seq<string>, i: int, ghost was: Inodes, ghost held0: multiset<int>)
      requires Busy() && held == InHand(multiset{}, Ok(i), p) && i in inodes.of && p in inodes.of && p >= 0
      requires inodes.of[i].isDir ==> inodes.of[i].children == []
      requires Inv(was, entries.of, handles.of, held0, root, nextId) && NoneGone(was, inodes.of)
               && OnlyRefs(was, inodes.of)
      requires Lead(was, entries.of, root, path) == Ok(i) && path != []
               && Lead(was, entries.of, root, path[..|path| - 1]) == Ok(p)
      modifies this`inodes, this`held, this`entries
      ensures Valid() && handles == old(handles) && entries.of == old(entries).of - {Key(p, path[|path| - 1])}
      ensures nextId == old(nextId) && OldKinds(was, inodes.of, nextId)
    {
      hide Inv, InHand, Lead, OnlyRefs, NoneGone;
      ghost var mid := inodes.of;
      InHandFacts(multiset{}, Ok(i), p);
      InHandFacts(multiset{}, Err(NoEntry), p);
      InodeUnref(i);
      OnlyRefsThen(was, mid, inodes.of);
      ghost var at := inodes.of;
      KindsByRefs(was, at, nextId);
      StillHeld(inodes.of, entries.of, handles.of, held, root, nextId, p);
      LeadLast(was, entries.of, root, path, p);
      OnlyRefsAt(was, mid, p);
      OnlyRefsAt(mid, inodes.of, p);
      NamedBy(inodes.of, entries.of, handles.of, held, root, nextId, Key(p, path[|path| - 1]));
      OnlyRefsAt(mid, inodes.of, i);
      var r := UnlinkChild(p, path[|path| - 1]);
      KindsThen(was, at, inodes.of, nextId, nextId);
      assert held == multiset{};
    }

    /** sys_rmdir, of an empty directory. */
    method Rmdir(path: seq<string>) returns (r: Result)
      requires Valid()
      modifies this`inodes, this`held, this`entries
      ensures Valid() && handles == old(handles) && nextId == old(nextId) && OldKinds(old(inodes).of, inodes.of, nextId)
      ensures if path != [] && old(LeadsToDir(path)) && old(inodes).of[old(Target(path)).inode].children == [] then
                r == old(Target(path)) && old(Target(path[..|path| - 1])).Ok?
                && entries.of == old(entries).of - {old(LastKey(path))}
              else
                && entries == old(entries)
                && r == if old(Target(path)).Err? then old(Target(path))
                        else Err(if path == [] then NotPermitted else if !old(LeadsToDir(path)) then NotDir
                                 else NotEmpty)
    {
      hide Inv, InHand, Lead, OnlyRefs, NoneGone;
      ghost var was := inodes.of;
      var p;
      r, p := Resolve(path, true, multiset{});
      ghost var mid := inodes.of;
      if r.Err? {
        GiveUp(r, p);
        OnlyRefsThen(was, mid, inodes.of);
        KindsByRefs(was, inodes.of, nextId);
        return;
      }
      if path != [] { LeadPrefix(was, entries.of, root, path); }
      OnlyRefsAt(was, inodes.of, r.inode);
      InHandFacts(multiset{}, r, p);
      StillHeld(inodes.of, entries.of, handles.of, held, root, nextId, r.inode);
      if p < 0 || !inodes.of[r.inode].isDir || inodes.of[r.inode].children != [] {
        var e := if p < 0 then NotPermitted else if !inodes.of[r.inode].isDir then NotDir else NotEmpty;
        GiveUp(r, p);
        OnlyRefsThen(was, mid, inodes.of);
        KindsByRefs(was, inodes.of, nextId);
        return Err(e);
      }
      RemoveAt(p, path, r.inode, was, old(held));
    }

    /** Between system calls an inode exists exactly as long as it has a name or a handle. */
    lemma Alive(i: int)
      requires Valid()
      ensures i in inodes.of <==> Names(entries.of, i) != {} || Namespace.Handles(handles.of, i) != {} || i == root
    {
      AliveIff(inodes.of, entries.of, handles.of, held, root, nextId, i);
    }
  }
}
