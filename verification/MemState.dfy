/** The state of a memFS instance and its operations, as values. Each operation
    is shown to act on the namespace graph as intended. */
module MemState {
  import opened Bytes
  import opened Dirents
  import opened Slots
  import opened FileData
  import opened Namespace
  import NamespaceOps

  /** An `os.FileMode`, split into the bits memFS looks at and the rest. */
  datatype Mode = Mode(dir: bool, symlink: bool, perm: nat, other: nat)

  datatype Attrs = Attrs(mode: Mode, nlink: nat, size: nat)

  /** Attribute names come without NUL from the wire. */
  ghost predicate NulFreeKeys(xattrs: map<seq<byte>, seq<byte>>)
  {
    forall a :: a in xattrs ==> NulFree(a)
  }

  datatype Node = Node(name: seq<byte>, attrs: Attrs, entries: seq<Dirent>, contents: seq<byte>,
                       target: seq<byte>, xattrs: map<seq<byte>, seq<byte>>)
  {
    predicate IsDir() { attrs.mode.dir }
    predicate IsFile() { !(attrs.mode.dir || attrs.mode.symlink) }

    /** What `CheckInvariants` checks of one inode, the mode whitelist apart, and that
        unused slots are blank. */
    ghost predicate Ok()
    {
      && !(attrs.mode.dir && attrs.mode.symlink)
      && attrs.size == |contents|
      && Slots.Valid(entries)
      && (!IsDir() ==> entries == [])
      && (!IsFile() ==> contents == [])
      && (!attrs.mode.symlink ==> target == [])
      && NulFreeKeys(xattrs)
    }
  }

  datatype State = State(inodes: seq<Option<Node>>, free: seq<nat>)

  predicate Live(s: State, id: nat) { id < |s.inodes| && s.inodes[id].Some? }

  predicate IsDir(s: State, id: nat) { Live(s, id) && s.inodes[id].value.IsDir() }

  predicate IsFile(s: State, id: nat) { Live(s, id) && s.inodes[id].value.IsFile() }

  function Entries(s: State, id: nat): seq<Dirent>
  {
    if Live(s, id) then s.inodes[id].value.entries else []
  }

  /** The free list is all and only the empty slots above the root, once each. */
  ghost predicate FreeOk(s: State)
  {
    && (forall k :: 0 <= k < |s.free| ==> ROOT < s.free[k] < |s.inodes| && s.inodes[s.free[k]].None?)
    && (forall j, k :: 0 <= j < k < |s.free| ==> s.free[j] != s.free[k])
    && (forall i :: ROOT < i < |s.inodes| && s.inodes[i].None? ==> i in s.free)
  }

  /** The file-system part of `checkInvariants`. */
  ghost predicate Shape(s: State)
  {
    && |s.inodes| > ROOT && s.inodes[0].None? && IsDir(s, ROOT)
    && FreeOk(s)
    && forall id :: 0 <= id < |s.inodes| && s.inodes[id].Some? ==> s.inodes[id].value.Ok()
  }

  /** The value of an extended attribute. */
  function ValueOf(s: State, inode: nat, attr: seq<byte>): Option<seq<byte>>
    requires Live(s, inode)
  {
    var xs := s.inodes[inode].value.xattrs;
    if attr in xs then Some(xs[attr]) else None
  }

  function Nlink(s: State, id: nat): nat
  {
    if Live(s, id) then s.inodes[id].value.attrs.nlink else 0
  }

  ghost function Tree(s: State): map<nat, map<seq<byte>, Binding>>
    requires Shape(s)
  {
    map d: nat | d < |s.inodes| && IsDir(s, d) :: Dir(s.inodes[d].value.entries)
  }

  ghost function Links(s: State): map<nat, nat>
  {
    map i: nat | i < |s.inodes| && Live(s, i) :: s.inodes[i].value.attrs.nlink
  }

  /** The namespace graph of a state. */
  ghost function Abs(s: State): Ns
    requires Shape(s)
  {
    Ns(Tree(s), Links(s))
  }

  /** What the graph says of one inode. */
  lemma AbsAt(s: State, d: nat)
    requires Shape(s)
    ensures d in Tree(s) <==> IsDir(s, d)
    ensures Slots.Valid(Entries(s, d))
    ensures d in Tree(s) ==> Tree(s)[d] == Dir(Entries(s, d))
    ensures d in Links(s) <==> Live(s, d)
    ensures d in Links(s) ==> Links(s)[d] == Nlink(s, d)
  {
    EmptyDir();
    hide FreeOk, Slots.Valid, Dir;
    assert Live(s, d) ==> s.inodes[d].value.Ok();
  }

  lemma EmptyDir()
    ensures Slots.Valid([]) && Dir([]) == map[]
  {
  }

  // ---------------------------------------------------------------- primitive updates

  function SetNode(s: State, id: nat, n: Node): State
    requires id < |s.inodes|
  {
    s.(inodes := s.inodes[id := Some(n)])
  }

  function SetEntries(s: State, id: nat, es: seq<Dirent>): State
  {
    if Live(s, id) then SetNode(s, id, s.inodes[id].value.(entries := es)) else s
  }

  function SetNlink(s: State, id: nat, k: nat): State
  {
    if Live(s, id)
    then SetNode(s, id, s.inodes[id].value.(attrs := s.inodes[id].value.attrs.(nlink := k)))
    else s
  }

  /** `allocateInode`: reuse the last free ID, else mint the next one. */
  function Alloc(s: State, n: Node): (r: (State, nat))
    requires FreeOk(s)
  {
    if s.free != [] then
      var id := s.free[|s.free| - 1];
      (State(s.inodes[id := Some(n)], s.free[..|s.free| - 1]), id)
    else (s.(inodes := s.inodes + [Some(n)]), |s.inodes|)
  }

  /** `deallocateInode`. */
  function Dealloc(s: State, id: nat): State
    requires id < |s.inodes|
  {
    State(s.inodes[id := None], s.free + [id])
  }

  lemma SetNodeShape(s: State, id: nat, n: Node)
    requires Shape(s) && Live(s, id) && n.Ok() && (id == ROOT ==> n.IsDir())
    ensures Shape(SetNode(s, id, n))
  {
    hide Slots.Valid;
  }

  lemma SetNodeTree(s: State, id: nat, n: Node)
    requires Shape(s) && Live(s, id) && n.Ok() && n.IsDir() == s.inodes[id].value.IsDir()
    ensures Shape(SetNode(s, id, n))
    ensures Tree(SetNode(s, id, n)) == if n.IsDir() then Tree(s)[id := Dir(n.entries)] else Tree(s)
  {
    SetNodeShape(s, id, n);
    hide Shape, Slots.Valid, Dir, FreeOk, Tree;
    var s' := SetNode(s, id, n);
    var t := if n.IsDir() then Tree(s)[id := Dir(n.entries)] else Tree(s);
    forall d: nat ensures d in Tree(s') <==> d in t
      ensures d in t ==> d in Tree(s') && Tree(s')[d] == t[d]
    {
      AbsAt(s, d);
      AbsAt(s', d);
      assert IsDir(s', d) == IsDir(s, d);
      assert Entries(s', d) == if d == id then n.entries else Entries(s, d);
    }
    hide *;
  }

  /** The graph after one node was replaced by another of the same kind. */
  lemma SetNodeAbs(s: State, id: nat, n: Node)
    requires Shape(s) && Live(s, id) && n.Ok() && n.IsDir() == s.inodes[id].value.IsDir()
    ensures Shape(SetNode(s, id, n))
    ensures Links(SetNode(s, id, n)) == Links(s)[id := n.attrs.nlink]
    ensures Tree(SetNode(s, id, n)) == if n.IsDir() then Tree(s)[id := Dir(n.entries)] else Tree(s)
  {
    SetNodeTree(s, id, n);
    hide Slots.Valid, Dir, Tree, FreeOk;
  }

  lemma SetEntriesAbs(s: State, d: nat, es: seq<Dirent>)
    requires Shape(s) && IsDir(s, d) && Slots.Valid(es)
    ensures Shape(SetEntries(s, d, es))
    ensures Abs(SetEntries(s, d, es)) == Abs(s).(tree := Abs(s).tree[d := Dir(es)])
  {
    hide Slots.Valid, Dir, FreeOk, Tree, Links;
    SetNodeAbs(s, d, s.inodes[d].value.(entries := es));
    AbsAt(s, d);
    assert Links(s)[d := s.inodes[d].value.attrs.nlink] == Links(s);
  }

  lemma SetNlinkAbs(s: State, id: nat, k: nat)
    requires Shape(s) && Live(s, id)
    ensures Shape(SetNlink(s, id, k))
    ensures Abs(SetNlink(s, id, k)) == SetLinks(Abs(s), id, k)
  {
    hide Slots.Valid, Dir, FreeOk, Tree, Links;
    var n := s.inodes[id].value;
    assert n.Ok();
    SetNodeAbs(s, id, n.(attrs := n.attrs.(nlink := k)));
    AbsAt(s, id);
    assert n.IsDir() ==> Tree(s)[id := Dir(n.entries)] == Tree(s);
  }

  /** Replacing a node without touching its kind, count or entries does not change the graph. */
  lemma SetDataAbs(s: State, id: nat, n: Node)
    requires Shape(s) && Live(s, id) && n.Ok()
    requires n.attrs.nlink == s.inodes[id].value.attrs.nlink && n.entries == s.inodes[id].value.entries
    requires n.IsDir() == s.inodes[id].value.IsDir()
    ensures Shape(SetNode(s, id, n))
    ensures Abs(SetNode(s, id, n)) == Abs(s)
  {
    hide Slots.Valid, Dir, FreeOk, Tree, Links;
    SetNodeAbs(s, id, n);
    AbsAt(s, id);
    assert Links(s)[id := n.attrs.nlink] == Links(s);
    assert n.IsDir() ==> Tree(s)[id := Dir(n.entries)] == Tree(s);
  }

  /** Allocation hands out an ID that no live inode has and keeps the free list exact. */
  lemma AllocShape(s: State, n: Node)
    requires Shape(s) && n.Ok()
    ensures var (s', id) := Alloc(s, n);
            && Shape(s') && !Live(s, id) && id > ROOT && id < |s'.inodes| && s'.inodes[id] == Some(n)
            && |s.inodes| <= |s'.inodes| <= |s.inodes| + 1
            && (forall i :: 0 <= i < |s'.inodes| && i != id ==> i < |s.inodes| && s'.inodes[i] == s.inodes[i])
  {
    hide FreeOk, Slots.Valid;
    AllocFree(s, n);
  }

  lemma AllocFree(s: State, n: Node)
    requires FreeOk(s) && |s.inodes| > ROOT
    ensures var (s', id) := Alloc(s, n); FreeOk(s') && !Live(s, id) && id > ROOT && id <= |s.inodes|
    ensures s.free != [] ==> Alloc(s, n).1 < |s.inodes|
  {
    var (s', id) := Alloc(s, n);
    if s.free != [] {
      assert s.free == s'.free + [id];
      forall i | ROOT < i < |s'.inodes| && s'.inodes[i].None? ensures i in s'.free {
        assert i in s.free;
      }
    }
  }

  lemma AllocTree(s: State, n: Node)
    requires Shape(s) && n.Ok() && n.entries == []
    ensures Shape(Alloc(s, n).0)
    ensures Tree(Alloc(s, n).0) == if n.IsDir() then Tree(s)[Alloc(s, n).1 := map[]] else Tree(s)
  {
    AllocShape(s, n);
    EmptyDir();
    var (s', id) := Alloc(s, n);
    hide Shape, Slots.Valid, Dir, FreeOk, Tree, Alloc;
    var t := if n.IsDir() then Tree(s)[id := map[]] else Tree(s);
    forall d: nat ensures d in Tree(s') <==> d in t
      ensures d in t ==> d in Tree(s') && Tree(s')[d] == t[d]
    {
      AbsAt(s, d);
      AbsAt(s', d);
    }
  }

  lemma AllocLinks(s: State, n: Node)
    requires Shape(s) && n.Ok()
    ensures Links(Alloc(s, n).0) == Links(s)[Alloc(s, n).1 := n.attrs.nlink]
  {
    AllocShape(s, n);
    var (s', id) := Alloc(s, n);
    hide Shape, Slots.Valid, FreeOk, Alloc;
    forall i: nat | i != id ensures i in Links(s') <==> i in Links(s)
      ensures i in Links(s) ==> i in Links(s') && Links(s')[i] == Links(s)[i]
    {
    }
  }

  /** Allocation adds one node with no names to the graph. */
  lemma AllocAbs(s: State, n: Node)
    requires Shape(s) && n.Ok() && n.entries == []
    ensures Shape(Alloc(s, n).0)
    ensures Abs(Alloc(s, n).0) == NewInode(Abs(s), Alloc(s, n).1, n.IsDir(), n.attrs.nlink)
  {
    AllocTree(s, n);
    AllocLinks(s, n);
    hide Shape, FreeOk, Tree, Links, Alloc;
  }

  /** Freeing an inode no entry names keeps the shape, and the next allocation reuses its ID. */
  lemma DeallocThenAlloc(s: State, id: nat, n: Node)
    requires Shape(s) && Live(s, id) && id != ROOT
    ensures Shape(Dealloc(s, id))
    ensures Alloc(Dealloc(s, id), n) == (SetNode(s, id, n), id)
  {
    var s' := Dealloc(s, id);
    forall i | ROOT < i < |s'.inodes| && s'.inodes[i].None? ensures i in s'.free {
      if i == id { assert s'.free[|s.free|] == id; } else { assert i in s.free; }
    }
    assert s'.free[..|s.free|] == s.free;
    assert s'.inodes[id := Some(n)] == s.inodes[id := Some(n)];
  }

  // ---------------------------------------------------------------- operations

  datatype Errno = ENOENT | EEXIST | ENOTEMPTY | EBADF | ERANGE | ENOATTR

  datatype Reply = Success | Entry(child: nat, attrs: Attrs) | Error(errno: Errno)

  function NewNode(name: seq<byte>, mode: Mode, target: seq<byte>): Node
  {
    Node(name, Attrs(mode, 1, 0), [], [], target, map[])
  }

  /** The common part of MkDir, MkNode, CreateFile and CreateSymlink. */
  function CreateChild(s: State, parent: nat, name: seq<byte>, n: Node, dt: nat): (State, Reply)
    requires Shape(s)
  {
    if Find(Entries(s, parent), name).Some? then (s, Error(EEXIST)) else
    var (s1, id) := Alloc(s, n);
    (SetEntries(s1, parent, Add(Entries(s1, parent), id, name, dt)), Entry(id, n.attrs))
  }

  /** An unknown target, on which the source panics, is one the kernel never names. */
  function CreateLink(s: State, parent: nat, name: seq<byte>, target: nat): (State, Reply)
  {
    if Find(Entries(s, parent), name).Some? || !Live(s, target) then (s, Error(EEXIST)) else
    var s1 := SetNlink(s, target, (Nlink(s, target) + 1) % LINK_WRAP);
    (SetEntries(s1, parent, Add(Entries(s1, parent), target, name, DT_FILE)),
     Entry(target, s1.inodes[target].value.attrs))
  }

  function Rename(s: State, od: nat, on: seq<byte>, nd: nat, nn: seq<byte>): (State, Reply)
  {
    var source := Find(Entries(s, od), on);
    if source.None? then (s, Error(ENOENT)) else
    var c := Entries(s, od)[source.value];
    var existing := Find(Entries(s, nd), nn);
    if existing.Some? && IsDir(s, Entries(s, nd)[existing.value].inode)
       && !LooksEmpty(Entries(s, Entries(s, nd)[existing.value].inode))
    then (s, Error(ENOTEMPTY)) else
    var s1 := if existing.Some? then SetEntries(s, nd, Remove(Entries(s, nd), nn)) else s;
    var s2 := SetEntries(s1, nd, Add(Entries(s1, nd), c.inode, nn, c.typ));
    (SetEntries(s2, od, Remove(Entries(s2, od), on)), Success)
  }

  /** Unlink, and RmDir once `rmdir` asks for the emptiness check. */
  function RemoveName(s: State, parent: nat, name: seq<byte>, rmdir: bool): (State, Reply)
  {
    var i := Find(Entries(s, parent), name);
    if i.None? then (s, Error(ENOENT)) else
    var id := Entries(s, parent)[i.value].inode;
    if rmdir && Count(Entries(s, id)) != 0 then (s, Error(ENOTEMPTY)) else
    var s1 := SetEntries(s, parent, Remove(Entries(s, parent), name));
    (SetNlink(s1, id, NamespaceOps.Decrement(Nlink(s1, id))), Success)
  }

  /** A write, truncation or fallocate on the contents, with the size attribute. */
  function ApplyData(n: Node, op: FileOp): Node
  {
    var c := Apply(n.contents, op);
    n.(contents := c, attrs := n.attrs.(size := |c|))
  }

  // ---------------------------------------------------------------- effect on the graph

  lemma EntriesAbs(s: State, d: nat, name: seq<byte>)
    requires Shape(s) && IsDir(s, d) && name != []
    ensures Slots.Valid(Entries(s, d)) && d in Abs(s).tree && Abs(s).tree[d] == Dir(Entries(s, d))
    ensures Find(Entries(s, d), name).Some? <==> LookUp(Abs(s), d, name).Some?
    ensures Find(Entries(s, d), name).Some? ==>
              var e := Entries(s, d)[Find(Entries(s, d), name).value];
              Used(e) && LookUp(Abs(s), d, name) == Some(Binding(e.inode, e.typ))
  {
    AbsAt(s, d);
    hide FreeOk, Shape, Slots.Valid, Dir, Find, Tree, Links;
    FindIsLookup(Entries(s, d), name);
  }

  lemma BindEntries(s: State, d: nat, name: seq<byte>, id: nat, dt: nat)
    requires Shape(s) && IsDir(s, d) && name != [] && LookUp(Abs(s), d, name).None? && dt != DT_UNKNOWN
    ensures var s' := SetEntries(s, d, Add(Entries(s, d), id, name, dt));
            Shape(s') && Abs(s') == BindAt(Abs(s), d, name, Binding(id, dt))
  {
    hide Slots.Valid, Dir, Find, FreeOk, Tree, Links;
    EntriesAbs(s, d, name);
    AddBinds(Entries(s, d), id, name, dt);
    SetEntriesAbs(s, d, Add(Entries(s, d), id, name, dt));
  }

  /** Creating a child fails iff the name is taken; otherwise it creates exactly one
      inode and one binding. */
  lemma CreateChildAbs(s: State, parent: nat, name: seq<byte>, n: Node, dt: nat)
    requires Shape(s) && IsDir(s, parent) && name != [] && dt != DT_UNKNOWN
    requires n.Ok() && n.entries == [] && n.attrs.nlink == 1 && (n.IsDir() <==> dt == DT_DIRECTORY)
    ensures var (s', r) := CreateChild(s, parent, name, n, dt);
            if LookUp(Abs(s), parent, name).Some? then s' == s && r == Error(EEXIST)
            else && Shape(s') && r == Entry(r.child, n.attrs) && r.child !in Abs(s).links
                 && r.child !in Abs(s).tree
                 && Abs(s') == NamespaceOps.Create(Abs(s), parent, name, r.child, dt)
  {
    hide Slots.Valid, Dir, Find, FreeOk, Tree, Links;
    EntriesAbs(s, parent, name);
    if LookUp(Abs(s), parent, name).None? {
      AllocAbs(s, n);
      AllocShape(s, n);
      var (s1, id) := Alloc(s, n);
      AbsAt(s, id);
      NewLookUp(Abs(s), id, n.IsDir(), 1);
      BindEntries(s1, parent, name, id, dt);
    }
  }

  lemma CreateLinkAbs(s: State, parent: nat, name: seq<byte>, target: nat)
    requires Shape(s) && IsDir(s, parent) && name != [] && Live(s, target)
    ensures var (s', r) := CreateLink(s, parent, name, target);
            if LookUp(Abs(s), parent, name).Some? then s' == s && r == Error(EEXIST)
            else && Shape(s') && Live(s', target) && r == Entry(target, s'.inodes[target].value.attrs)
                 && Abs(s') == NamespaceOps.Link(Abs(s), parent, name, target)
  {
    hide Slots.Valid, Dir, Find, FreeOk, Add, Tree, Links;
    EntriesAbs(s, parent, name);
    if LookUp(Abs(s), parent, name).None? {
      var k := (Nlink(s, target) + 1) % LINK_WRAP;
      AbsAt(s, target);
      SetNlinkAbs(s, target, k);
      BindEntries(SetNlink(s, target, k), parent, name, target, DT_FILE);
    }
  }

  lemma UnbindEntries(s: State, d: nat, name: seq<byte>)
    requires Shape(s) && IsDir(s, d) && name != [] && LookUp(Abs(s), d, name).Some?
    ensures var s' := SetEntries(s, d, Remove(Entries(s, d), name));
            Shape(s') && Abs(s') == UnbindAt(Abs(s), d, name)
  {
    hide Slots.Valid, Dir, Find, FreeOk, Tree, Links;
    EntriesAbs(s, d, name);
    RemoveUnbinds(Entries(s, d), name);
    SetEntriesAbs(s, d, Remove(Entries(s, d), name));
  }

  /** Rename's refusal: the new name leads to a directory whose first entry shows up
      in a 4096-byte read. */
  ghost predicate Blocked(s: State, nd: nat, nn: seq<byte>)
    requires Shape(s)
  {
    && LookUp(Abs(s), nd, nn).Some?
    && IsDir(s, LookUp(Abs(s), nd, nn).value.inode)
    && !LooksEmpty(Entries(s, LookUp(Abs(s), nd, nn).value.inode))
  }

  lemma RenameAbs(s: State, od: nat, on: seq<byte>, nd: nat, nn: seq<byte>)
    requires Shape(s) && IsDir(s, od) && IsDir(s, nd) && on != [] && nn != [] && (od, on) != (nd, nn)
    ensures var (s', r) := Rename(s, od, on, nd, nn);
            if LookUp(Abs(s), od, on).None? then s' == s && r == Error(ENOENT)
            else if Blocked(s, nd, nn) then s' == s && r == Error(ENOTEMPTY)
            else r == Success && Shape(s') && Abs(s') == NamespaceOps.Move(Abs(s), od, on, nd, nn)
  {
    hide Slots.Valid, Dir, Find, FreeOk, Tree, Links;
    EntriesAbs(s, od, on);
    EntriesAbs(s, nd, nn);
    if LookUp(Abs(s), od, on).Some? && !Blocked(s, nd, nn) {
      var c := Entries(s, od)[Find(Entries(s, od), on).value];
      var s1 := s;
      if LookUp(Abs(s), nd, nn).Some? {
        UnbindEntries(s, nd, nn);
        UnbindLookUp(Abs(s), nd, nn);
        s1 := SetEntries(s, nd, Remove(Entries(s, nd), nn));
      }
      EntriesAbs(s1, nd, nn);
      BindEntries(s1, nd, nn, c.inode, c.typ);
      BindLookUp(Abs(s1), nd, nn, Binding(c.inode, c.typ));
      UnbindEntries(SetEntries(s1, nd, Add(Entries(s1, nd), c.inode, nn, c.typ)), od, on);
    }
  }

  /** Renaming a name to itself, which the kernel does not ask for: the name is dropped, if
      and only if it does not lead to a directory that looks non-empty. */
  lemma RenameOntoItself(s: State, d: nat, n: seq<byte>)
    requires Shape(s) && IsDir(s, d) && n != []
    ensures var (s', r) := Rename(s, d, n, d, n);
            if LookUp(Abs(s), d, n).None? then s' == s && r == Error(ENOENT)
            else if Blocked(s, d, n) then s' == s && r == Error(ENOTEMPTY)
            else r == Success && Shape(s') && Abs(s') == UnbindAt(Abs(s), d, n)
  {
    hide Slots.Valid, Dir, Find, FreeOk, Tree, Links;
    EntriesAbs(s, d, n);
    if LookUp(Abs(s), d, n).Some? && !Blocked(s, d, n) {
      var c := Entries(s, d)[Find(Entries(s, d), n).value];
      UnbindEntries(s, d, n);
      UnbindLookUp(Abs(s), d, n);
      var s1 := SetEntries(s, d, Remove(Entries(s, d), n));
      EntriesAbs(s1, d, n);
      BindEntries(s1, d, n, c.inode, c.typ);
      BindLookUp(Abs(s1), d, n, Binding(c.inode, c.typ));
      UnbindEntries(SetEntries(s1, d, Add(Entries(s1, d), c.inode, n, c.typ)), d, n);
      BindThenUnbind(Abs(s1), d, n, Binding(c.inode, c.typ));
    }
  }

  lemma BindThenUnbind(ns: Ns, d: nat, n: seq<byte>, b: Binding)
    requires d in ns.tree && n !in ns.tree[d]
    ensures UnbindAt(BindAt(ns, d, n, b), d, n) == ns
  {
    assert ns.tree[d][n := b] - {n} == ns.tree[d];
  }

  /** RmDir refuses a directory that has any binding; Unlink refuses nothing that is bound. */
  lemma RemoveNameAbs(s: State, parent: nat, name: seq<byte>, rmdir: bool)
    requires Shape(s) && WellFormed(Abs(s)) && IsDir(s, parent) && name != []
    ensures var (s', r) := RemoveName(s, parent, name, rmdir);
            if LookUp(Abs(s), parent, name).None? then s' == s && r == Error(ENOENT)
            else var id := LookUp(Abs(s), parent, name).value.inode;
            if rmdir && id in Abs(s).tree && Abs(s).tree[id] != map[] then s' == s && r == Error(ENOTEMPTY)
            else && r == Success && Shape(s') && id in Abs(s).links
                 && Abs(s') == NamespaceOps.Delete(Abs(s), parent, name)
  {
    hide Slots.Valid, Dir, Find, FreeOk, Tree, Links;
    EntriesAbs(s, parent, name);
    if LookUp(Abs(s), parent, name).Some? {
      var id := LookUp(Abs(s), parent, name).value.inode;
      assert BindingOk(Abs(s), LookUp(Abs(s), parent, name).value);
      AbsAt(s, id);
      CountIsMapSize(Entries(s, id));
      UnbindEntries(s, parent, name);
      var s1 := SetEntries(s, parent, Remove(Entries(s, parent), name));
      AbsAt(s1, id);
      SetNlinkAbs(s1, id, NamespaceOps.Decrement(Nlink(s1, id)));
    }
  }
}
