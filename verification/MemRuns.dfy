/** Runs of a memFS instance: any sequence of requests the kernel may send, each
    handled atomically under the file-system mutex. */
module MemRuns {
  import opened Bytes
  import opened Dirents
  import opened Slots
  import opened FileData
  import opened Namespace
  import opened MemState
  import NamespaceOps

  datatype Op =
    | MkDir(parent: nat, name: seq<byte>, mode: Mode)
    | CreateFile(parent: nat, name: seq<byte>, mode: Mode)
    | CreateSymlink(parent: nat, name: seq<byte>, target: seq<byte>)
    | CreateLink(parent: nat, name: seq<byte>, inode: nat)
    | Rename(oldParent: nat, oldName: seq<byte>, newParent: nat, newName: seq<byte>)
    | RmDir(parent: nat, name: seq<byte>)
    | Unlink(parent: nat, name: seq<byte>)
    | SetAttributes(inode: nat, size: Option<nat>, perm: Option<nat>, hasHandle: bool)
    | WriteFile(inode: nat, off: nat, data: seq<byte>)
    | Fallocate(inode: nat, fmode: nat, off: nat, len: nat)
    | SetXattr(inode: nat, attr: seq<byte>, value: seq<byte>, flags: nat)
    | RemoveXattr(inode: nat, attr: seq<byte>)

  const XATTR_CREATE: nat := 1
  const XATTR_REPLACE: nat := 2

  const SYMLINK_MODE := Mode(false, true, 0x124, 0)
  const ROOT_MODE := Mode(true, false, 0x1C0, 0)

  /** A request that concerns a single inode: the inode afterwards. */
  function NodeAfter(n: Node, op: Op): Node
  {
    match op
    case SetAttributes(_, size, perm, _) =>
      var n1 := if size.Some? then ApplyData(n, Truncate(size.value)) else n;
      if perm.Some? then n1.(attrs := n1.attrs.(mode := n1.attrs.mode.(perm := perm.value))) else n1
    case WriteFile(_, off, data) => ApplyData(n, Write(off, data))
    case Fallocate(_, m, off, len) => ApplyData(n, FileData.Fallocate(m, off, len))
    case SetXattr(_, attr, value, _) =>
      if NodeReply(n, op).Error? then n else n.(xattrs := n.xattrs[attr := value])
    case RemoveXattr(_, attr) => n.(xattrs := n.xattrs - {attr})
    case _ => n
  }

  /** A request that concerns a single inode: the answer. */
  function NodeReply(n: Node, op: Op): Reply
  {
    match op
    case SetAttributes(_, size, _, hasHandle) =>
      if size.Some? && !hasHandle && size.value != 0 then Error(EBADF) else Success
    case SetXattr(_, attr, _, flags) =>
      if flags == XATTR_CREATE && attr in n.xattrs then Error(EEXIST)
      else if flags == XATTR_REPLACE && attr !in n.xattrs then Error(ENOATTR)
      else Success
    case RemoveXattr(_, attr) => if attr in n.xattrs then Success else Error(ENOATTR)
    case _ => Success
  }

  /** The state and the answer after one request. */
  function Step(s: State, op: Op): (State, Reply)
    requires Shape(s)
  {
    match op
    case MkDir(p, n, m) => CreateChild(s, p, n, NewNode(n, m, []), DT_DIRECTORY)
    case CreateFile(p, n, m) => CreateChild(s, p, n, NewNode(n, m, []), DT_FILE)
    case CreateSymlink(p, n, t) => CreateChild(s, p, n, NewNode(n, SYMLINK_MODE, t), DT_LINK)
    case CreateLink(p, n, t) => MemState.CreateLink(s, p, n, t)
    case Rename(od, on, nd, nn) => MemState.Rename(s, od, on, nd, nn)
    case RmDir(p, n) => RemoveName(s, p, n, true)
    case Unlink(p, n) => RemoveName(s, p, n, false)
    case _ =>
      if Live(s, op.inode) then
        var n := s.inodes[op.inode].value;
        (SetNode(s, op.inode, NodeAfter(n, op)), NodeReply(n, op))
      else (s, Error(ENOENT))
  }

  predicate IsNodeOp(op: Op)
  {
    op.SetAttributes? || op.WriteFile? || op.Fallocate? || op.SetXattr? || op.RemoveXattr?
  }

  /** What the kernel guarantees about a request. The two conditions on Rename are that
      source and destination differ and that a directory is not moved into itself. */
  ghost predicate Legal(s: State, op: Op)
    requires Shape(s)
  {
    match op
    case MkDir(p, n, m) => IsDir(s, p) && n != [] && m.dir && !m.symlink
    case CreateFile(p, n, m) => IsDir(s, p) && n != [] && !m.dir && !m.symlink
    case CreateSymlink(p, n, _) => IsDir(s, p) && n != []
    case CreateLink(p, n, t) =>
      IsDir(s, p) && n != [] && Live(s, t) && !IsDir(s, t) && Nlink(s, t) < LINK_WRAP - 1
    case Rename(od, on, nd, nn) =>
      && IsDir(s, od) && IsDir(s, nd) && on != [] && nn != [] && (od, on) != (nd, nn)
      && (var b := LookUp(Abs(s), od, on);
          b.Some? && b.value.typ == DT_DIRECTORY ==> !Reaches(Abs(s), b.value.inode, nd))
    case RmDir(p, n) => IsDir(s, p) && n != []
    case Unlink(p, n) => IsDir(s, p) && n != []
    case SetAttributes(id, size, _, _) => Live(s, id) && (size.Some? ==> IsFile(s, id))
    case WriteFile(id, _, _) => IsFile(s, id)
    case Fallocate(id, _, _, _) => IsFile(s, id)
    case SetXattr(id, attr, _, _) => Live(s, id) && NulFree(attr)
    case RemoveXattr(id, _) => Live(s, id)
  }

  /** The invariant of a memFS state. */
  ghost predicate Good(s: State, exact: bool)
  {
    Shape(s) && NamespaceOps.Inv(Abs(s), exact)
  }

  /** A rename over an existing name that nothing holds up: both names are bound, and the
      new one does not lead to a directory whose first entry shows up in a 4096-byte read. */
  ghost predicate Replaces(s: State, op: Op)
    requires Shape(s)
  {
    && op.Rename? && !Blocked(s, op.newParent, op.newName)
    && LookUp(Abs(s), op.oldParent, op.oldName).Some? && LookUp(Abs(s), op.newParent, op.newName).Some?
  }

  lemma CreateGood(s: State, exact: bool, parent: nat, name: seq<byte>, n: Node, dt: nat)
    requires Good(s, exact) && IsDir(s, parent) && name != [] && dt != DT_UNKNOWN
    requires n.Ok() && n.entries == [] && n.attrs.nlink == 1 && (n.IsDir() <==> dt == DT_DIRECTORY)
    ensures Good(CreateChild(s, parent, name, n, dt).0, exact)
  {
    CreateChildAbs(s, parent, name, n, dt);
    AbsAt(s, parent);
    if LookUp(Abs(s), parent, name).None? {
      NamespaceOps.CreateKeeps(Abs(s), exact, parent, name, CreateChild(s, parent, name, n, dt).1.child, dt);
    }
  }

  lemma LinkGood(s: State, exact: bool, parent: nat, name: seq<byte>, t: nat)
    requires Good(s, exact) && Legal(s, CreateLink(parent, name, t))
    ensures Good(MemState.CreateLink(s, parent, name, t).0, exact)
  {
    CreateLinkAbs(s, parent, name, t);
    AbsAt(s, parent);
    AbsAt(s, t);
    if LookUp(Abs(s), parent, name).None? {
      NamespaceOps.LinkKeeps(Abs(s), exact, parent, name, t);
    }
  }

  lemma RenameGood(s: State, exact: bool, op: Op)
    requires Good(s, exact) && op.Rename? && Legal(s, op)
    ensures Good(Step(s, op).0, exact && !Replaces(s, op))
  {
    var ns := Abs(s);
    RenameAbs(s, op.oldParent, op.oldName, op.newParent, op.newName);
    AbsAt(s, op.newParent);
    if LookUp(ns, op.oldParent, op.oldName).Some? && !Blocked(s, op.newParent, op.newName) {
      NamespaceOps.MoveKeeps(ns, exact, op.oldParent, op.oldName, op.newParent, op.newName);
    } else {
      WeakenLaw(s, exact, exact && !Replaces(s, op));
    }
  }

  lemma WeakenLaw(s: State, exact: bool, weaker: bool)
    requires Good(s, exact) && (weaker ==> exact)
    ensures Good(s, weaker)
  {
    hide Counts, Shape, Abs;
  }

  lemma RemoveGood(s: State, exact: bool, parent: nat, name: seq<byte>, rmdir: bool)
    requires Good(s, exact) && IsDir(s, parent) && name != []
    ensures Good(RemoveName(s, parent, name, rmdir).0, exact)
  {
    RemoveNameAbs(s, parent, name, rmdir);
    if LookUp(Abs(s), parent, name).Some? {
      NamespaceOps.DeleteKeeps(Abs(s), exact, parent, name);
    }
  }

  /** A request on one inode keeps its kind, link count and entries. */
  lemma NodeAfterOk(n: Node, op: Op)
    requires n.Ok() && IsNodeOp(op)
    requires op.WriteFile? || op.Fallocate? || (op.SetAttributes? && op.size.Some?) ==> n.IsFile()
    requires op.SetXattr? ==> NulFree(op.attr)
    ensures var n' := NodeAfter(n, op);
            && n'.Ok() && n'.attrs.nlink == n.attrs.nlink && n'.entries == n.entries
            && n'.IsDir() == n.IsDir()
  {
    hide Slots.Valid, Apply;
  }

  lemma SetDataGood(s: State, exact: bool, id: nat, n: Node)
    requires Good(s, exact) && Live(s, id) && n.Ok()
    requires n.attrs.nlink == s.inodes[id].value.attrs.nlink && n.entries == s.inodes[id].value.entries
    requires n.IsDir() == s.inodes[id].value.IsDir()
    ensures Good(SetNode(s, id, n), exact)
    ensures Abs(SetNode(s, id, n)) == Abs(s)
  {
    SetDataAbs(s, id, n);
    hide Shape, NamespaceOps.Inv, Abs, Slots.Valid, SetNode;
  }

  lemma StepOfNodeOp(s: State, op: Op)
    requires Shape(s) && IsNodeOp(op) && Legal(s, op)
    ensures Live(s, op.inode)
    ensures op.WriteFile? || op.Fallocate? || (op.SetAttributes? && op.size.Some?) ==> IsFile(s, op.inode)
    ensures op.SetXattr? ==> NulFree(op.attr)
    ensures Step(s, op).0 == SetNode(s, op.inode, NodeAfter(s.inodes[op.inode].value, op))
    ensures s.inodes[op.inode].value.Ok()
  {
    hide NodeAfter, NodeReply;
  }

  lemma NodeGood(s: State, exact: bool, op: Op)
    requires Good(s, exact) && IsNodeOp(op) && Legal(s, op)
    ensures Good(Step(s, op).0, exact)
  {
    assert Shape(s);
    hide Good, Shape, Legal, Step, NodeAfter;
    StepOfNodeOp(s, op);
    NodeAfterOk(s.inodes[op.inode].value, op);
    SetDataGood(s, exact, op.inode, NodeAfter(s.inodes[op.inode].value, op));
  }

  /** Every request keeps the invariant; only a replacing rename gives up exact counts. */
  lemma StepGood(s: State, exact: bool, op: Op)
    requires Good(s, exact) && Legal(s, op)
    ensures Good(Step(s, op).0, exact && !Replaces(s, op))
  {
    EmptyDir();
    hide Slots.Valid, FreeOk, NamespaceOps.Inv, Abs, CreateChild, MemState.CreateLink, RemoveName;
    match op {
      case MkDir(p, n, m) => CreateGood(s, exact, p, n, NewNode(n, m, []), DT_DIRECTORY);
      case CreateFile(p, n, m) => CreateGood(s, exact, p, n, NewNode(n, m, []), DT_FILE);
      case CreateSymlink(p, n, t) => CreateGood(s, exact, p, n, NewNode(n, SYMLINK_MODE, t), DT_LINK);
      case CreateLink(p, n, t) => LinkGood(s, exact, p, n, t);
      case Rename(_, _, _, _) => RenameGood(s, exact, op);
      case RmDir(p, n) => RemoveGood(s, exact, p, n, true);
      case Unlink(p, n) => RemoveGood(s, exact, p, n, false);
      case _ => NodeGood(s, exact, op);
    }
  }

  /** A request for the size and permissions the inode has already. */
  predicate AsksForNoChange(s: State, op: Op)
  {
    && op.SetAttributes? && Live(s, op.inode)
    && (var attrs := s.inodes[op.inode].value.attrs;
        && (op.size.None? || op.size.value == attrs.size)
        && (op.perm.None? || op.perm.value == attrs.mode.perm))
  }

  /** SetAttributes leaves the state as it was if and only if it asks for no change,
      whether or not it answers EBADF. */
  lemma SetAttributesUnchangedIff(s: State, op: Op)
    requires Shape(s) && op.SetAttributes? && Legal(s, op)
    ensures Step(s, op).0 == s <==> AsksForNoChange(s, op)
  {
    var n := s.inodes[op.inode].value;
    assert n.Ok();
    assert Step(s, op).0.inodes[op.inode] == Some(NodeAfter(n, op));
    if AsksForNoChange(s, op) {
      assert NodeAfter(n, op) == n;
      assert SetNode(s, op.inode, n) == s;
    }
  }

  /** A request that fails changes nothing, if and only if it is not a SetAttributes that
      asks for a change. */
  lemma FailureChangesNothingIff(s: State, op: Op)
    requires Shape(s) && Legal(s, op) && Step(s, op).1.Error?
    ensures Step(s, op).0 == s <==> (op.SetAttributes? ==> AsksForNoChange(s, op))
  {
    hide Shape, Legal, Step, AsksForNoChange;
    if op.SetAttributes? {
      SetAttributesUnchangedIff(s, op);
    } else {
      FailureChangesNothing(s, op);
    }
  }

  lemma FailureChangesNothing(s: State, op: Op)
    requires Shape(s)
    ensures Step(s, op).1.Error? && !op.SetAttributes? ==> Step(s, op).0 == s
  {
    if IsNodeOp(op) && Live(s, op.inode) {
      var n := s.inodes[op.inode].value;
      assert op.RemoveXattr? && op.attr !in n.xattrs ==> n.xattrs - {op.attr} == n.xattrs;
      assert SetNode(s, op.inode, n) == s;
    }
  }

  /** The failing family: a truncation to another, non-zero size without a handle is
      refused and applied all the same. */
  lemma RefusedTruncateStillApplies(s: State, id: nat, size: nat)
    requires Shape(s) && IsFile(s, id) && size != 0 && size != s.inodes[id].value.attrs.size
    ensures var (s', r) := Step(s, SetAttributes(id, Some(size), None, false));
            && r == Error(EBADF) && s' != s
            && s'.inodes[id].value.contents == Apply(s.inodes[id].value.contents, Truncate(size))
  {
    SetAttributesUnchangedIff(s, SetAttributes(id, Some(size), None, false));
  }

  // ---------------------------------------------------------------- runs

  function RootNode(): Node { Node([], Attrs(ROOT_MODE, 0, 0), [], [], [], map[]) }

  /** `NewMemFS`. */
  function Init(): State { State([None, Some(RootNode())], []) }

  lemma InitAbs()
    ensures Shape(Init())
    ensures Abs(Init()) == Ns(map[ROOT := map[]], map[ROOT := 0])
  {
    EmptyDir();
    assert Shape(Init());
    AbsAt(Init(), ROOT);
    forall d: nat ensures d in Tree(Init()) ==> d == ROOT ensures d in Links(Init()) ==> d == ROOT {
      AbsAt(Init(), d);
    }
  }

  /** The graph of a lone root satisfies the invariant. */
  lemma LoneRoot(ns: Ns)
    requires ns == Ns(map[ROOT := map[]], map[ROOT := 0])
    ensures NamespaceOps.Inv(ns, true)
  {
    assert forall d: nat, n :: LookUp(ns, d, n).None?;
    hide LookUp;
    assert Refs(ns, ROOT) == {};
    assert Counts(ns) == ns.links;
    assert Acyclic(ns) by {
      assert forall a: nat, b: nat :: !Edge(ns, a, b);
      assert forall p :: Path(ns, p) && |p| >= 2 ==> Edge(ns, p[0], p[0 + 1]);
    }
  }

  lemma InitGood()
    ensures Good(Init(), true)
  {
    InitAbs();
    LoneRoot(Abs(Init()));
    hide NamespaceOps.Inv, Shape, Abs;
  }

  lemma InitGoodWeak()
    ensures Good(Init(), false)
  {
    InitGood();
    hide Good;
    WeakenLaw(Init(), true, false);
  }

  ghost predicate LegalRun(s: State, ops: seq<Op>)
    requires Good(s, false)
    decreases |ops|
  {
    ops == [] ||
    (Legal(s, ops[0]) && (StepGood(s, false, ops[0]); LegalRun(Step(s, ops[0]).0, ops[1..])))
  }

  ghost function Run(s: State, ops: seq<Op>): State
    requires Good(s, false) && LegalRun(s, ops)
    decreases |ops|
  {
    if ops == [] then s else
    StepGood(s, false, ops[0]);
    Run(Step(s, ops[0]).0, ops[1..])
  }

  /** No rename of the run goes through over an existing name. */
  ghost predicate NeverReplaces(s: State, ops: seq<Op>)
    requires Good(s, false) && LegalRun(s, ops)
    decreases |ops|
  {
    ops == [] ||
    (!Replaces(s, ops[0]) && (StepGood(s, false, ops[0]); NeverReplaces(Step(s, ops[0]).0, ops[1..])))
  }

  /** The run is one a kernel may put a new file system through. */
  ghost predicate LegalFromStart(ops: seq<Op>)
  {
    InitGoodWeak();
    LegalRun(Init(), ops)
  }

  ghost function Reached(ops: seq<Op>): State
    requires LegalFromStart(ops)
  {
    InitGoodWeak();
    Run(Init(), ops)
  }

  ghost predicate NothingReplaced(ops: seq<Op>)
    requires LegalFromStart(ops)
  {
    InitGoodWeak();
    NeverReplaces(Init(), ops)
  }

  lemma {:induction false} RunGood(s: State, exact: bool, ops: seq<Op>)
    requires Good(s, exact) && Good(s, false) && LegalRun(s, ops)
    ensures Good(Run(s, ops), exact && NeverReplaces(s, ops))
    decreases |ops|
  {
    if ops != [] {
      StepGood(s, false, ops[0]);
      StepGood(s, exact, ops[0]);
      RunGood(Step(s, ops[0]).0, exact && !Replaces(s, ops[0]), ops[1..]);
    }
  }

  /** What the invariant says of the slots: a used entry leads to a live inode that is a
      directory iff the entry says so, is not the root, and has a positive link count. */
  lemma UsedEntryOk(s: State, exact: bool, d: nat, i: nat)
    requires Good(s, exact) && i < |Entries(s, d)| && Used(Entries(s, d)[i])
    ensures var e := Entries(s, d)[i];
            && e.offset == i + 1 && Live(s, e.inode) && e.inode != ROOT && Nlink(s, e.inode) >= 1
            && (e.typ == DT_DIRECTORY <==> IsDir(s, e.inode))
  {
    AbsAt(s, d);
    var es := Entries(s, d);
    assert s.inodes[d].value.Ok();
    DirHas(es, i);
    assert SlotOk(es[i], i);
    assert LookUp(Abs(s), d, es[i].name) == Some(Binding(es[i].inode, es[i].typ));
    NamedHasLink(Abs(s), exact, d, es[i].name);
    AbsAt(s, es[i].inode);
  }

  /** Main result: in every state any run can reach, the inode table and free list are
      consistent, the directories form a forest, every binding is sound, and each inode
      is named at most as often as its link count says, exactly as often when no rename
      replaced a name. */
  lemma EveryRun(ops: seq<Op>)
    requires LegalFromStart(ops)
    ensures var s := Reached(ops);
            Shape(s) && WellFormed(Abs(s)) && Forest(Abs(s)) && Law(Abs(s), NothingReplaced(ops))
  {
    InitGood();
    InitGoodWeak();
    RunGood(Init(), true, ops);
    LawGivesOneParent(Abs(Reached(ops)), NothingReplaced(ops));
  }

  // ---------------------------------------------------------------- file contents

  /** `n'` is `n` up to its entries and link count. */
  predicate SameData(n: Node, n': Node)
  {
    n == n'.(entries := n.entries, attrs := n'.attrs.(nlink := n.attrs.nlink))
  }

  /** Inode `i` is still there, with the data it had. */
  ghost predicate Keeps(s: State, s': State, i: nat)
  {
    Live(s, i) && Live(s', i) && SameData(s.inodes[i].value, s'.inodes[i].value)
  }

  lemma EntriesKeep(s: State, d: nat, es: seq<Dirent>, i: nat)
    requires Live(s, i)
    ensures Keeps(s, SetEntries(s, d, es), i)
  {
  }

  lemma NlinkKeeps(s: State, id: nat, k: nat, i: nat)
    requires Live(s, i)
    ensures Keeps(s, SetNlink(s, id, k), i)
  {
  }

  lemma CreateKeepsData(s: State, p: nat, n: seq<byte>, node: Node, dt: nat, i: nat)
    requires Shape(s) && node.Ok() && Live(s, i)
    ensures Keeps(s, CreateChild(s, p, n, node, dt).0, i)
  {
    AllocShape(s, node);
    hide Shape, FreeOk, Slots.Valid;
    var (s1, id) := Alloc(s, node);
    EntriesKeep(s1, p, Add(Entries(s1, p), id, n, dt), i);
  }

  lemma RenameKeepsData(s: State, od: nat, on: seq<byte>, nd: nat, nn: seq<byte>, i: nat)
    requires Live(s, i)
    ensures Keeps(s, MemState.Rename(s, od, on, nd, nn).0, i)
  {
    hide Add, Remove, LooksEmpty, SetEntries;
    var source := Find(Entries(s, od), on);
    if source.Some? {
      var c := Entries(s, od)[source.value];
      var s1 := if Find(Entries(s, nd), nn).Some? then SetEntries(s, nd, Remove(Entries(s, nd), nn)) else s;
      EntriesKeep(s, nd, Remove(Entries(s, nd), nn), i);
      EntriesKeep(s1, nd, Add(Entries(s1, nd), c.inode, nn, c.typ), i);
      var s2 := SetEntries(s1, nd, Add(Entries(s1, nd), c.inode, nn, c.typ));
      EntriesKeep(s2, od, Remove(Entries(s2, od), on), i);
    }
  }

  lemma LinkKeepsData(s: State, p: nat, n: seq<byte>, t: nat, i: nat)
    requires Live(s, i)
    ensures Keeps(s, MemState.CreateLink(s, p, n, t).0, i)
  {
    var s1 := SetNlink(s, t, (Nlink(s, t) + 1) % LINK_WRAP);
    NlinkKeeps(s, t, (Nlink(s, t) + 1) % LINK_WRAP, i);
    EntriesKeep(s1, p, Add(Entries(s1, p), t, n, DT_FILE), i);
  }

  lemma RemoveKeepsData(s: State, p: nat, n: seq<byte>, rmdir: bool, i: nat)
    requires Live(s, i)
    ensures Keeps(s, RemoveName(s, p, n, rmdir).0, i)
  {
    hide Remove, Count;
    var found := Find(Entries(s, p), n);
    if found.Some? {
      var id := Entries(s, p)[found.value].inode;
      var s1 := SetEntries(s, p, Remove(Entries(s, p), n));
      EntriesKeep(s, p, Remove(Entries(s, p), n), i);
      NlinkKeeps(s1, id, NamespaceOps.Decrement(Nlink(s1, id)), i);
    }
  }

  /** What a request does to the data of an inode that exists: nothing, unless it is a
      request on that very inode. Namespace requests in particular leave file contents,
      attributes and symlink targets alone, and no inode is ever taken away. */
  lemma StepData(s: State, op: Op, i: nat)
    requires Shape(s) && Legal(s, op) && Live(s, i)
    ensures Live(Step(s, op).0, i)
    ensures IsNodeOp(op) && op.inode == i ==>
              Step(s, op).0.inodes[i].value == NodeAfter(s.inodes[i].value, op)
    ensures !IsNodeOp(op) || op.inode != i ==> Keeps(s, Step(s, op).0, i)
  {
    EmptyDir();
    hide Shape, Slots.Valid, CreateChild, MemState.CreateLink, MemState.Rename, RemoveName, NodeAfter, Reaches;
    match op {
      case MkDir(p, n, m) => CreateKeepsData(s, p, n, NewNode(n, m, []), DT_DIRECTORY, i);
      case CreateFile(p, n, m) => CreateKeepsData(s, p, n, NewNode(n, m, []), DT_FILE, i);
      case CreateSymlink(p, n, t) => CreateKeepsData(s, p, n, NewNode(n, SYMLINK_MODE, t), DT_LINK, i);
      case CreateLink(p, n, t) => LinkKeepsData(s, p, n, t, i);
      case Rename(od, on, nd, nn) => RenameKeepsData(s, od, on, nd, nn, i);
      case RmDir(p, n) => RemoveKeepsData(s, p, n, true, i);
      case Unlink(p, n) => RemoveKeepsData(s, p, n, false, i);
      case _ =>
    }
  }

  /** The file operations a run of requests performs on inode `i`, in order. */
  function FileOps(ops: seq<Op>, i: nat): seq<FileOp>
  {
    if ops == [] then [] else
    (match ops[0]
     case WriteFile(id, off, data) => if id == i then [Write(off, data)] else []
     case SetAttributes(id, Some(size), _, _) => if id == i then [Truncate(size)] else []
     case Fallocate(id, m, off, len) => if id == i then [FileData.Fallocate(m, off, len)] else []
     case _ => []) + FileOps(ops[1..], i)
  }

  function ApplyAll(c: seq<byte>, fops: seq<FileOp>): seq<byte>
    decreases |fops|
  {
    if fops == [] then c else ApplyAll(Apply(c, fops[0]), fops[1..])
  }

  lemma StepContents(s: State, op: Op, i: nat)
    requires Shape(s) && Legal(s, op) && Live(s, i)
    ensures Live(Step(s, op).0, i)
    ensures Step(s, op).0.inodes[i].value.contents == ApplyAll(s.inodes[i].value.contents, FileOps([op], i))
  {
    hide Shape, Step, Legal;
    StepData(s, op, i);
    assert [op][1..] == [];
    assert FileOps([], i) == [];
  }

  lemma {:induction false} ApplyAllConcat(c: seq<byte>, a: seq<FileOp>, b: seq<FileOp>)
    ensures ApplyAll(c, a + b) == ApplyAll(ApplyAll(c, a), b)
    decreases |a|
  {
    if a == [] {
      assert a + b == b;
    } else {
      assert (a + b)[1..] == a[1..] + b;
      ApplyAllConcat(Apply(c, a[0]), a[1..], b);
    }
  }

  /** In every run, the contents of an inode are what the file operations addressed to it
      make of them; whatever else happens does not matter. */
  lemma {:induction false} RunContents(s: State, ops: seq<Op>, i: nat)
    requires Good(s, false) && LegalRun(s, ops) && Live(s, i)
    ensures Live(Run(s, ops), i)
    ensures Run(s, ops).inodes[i].value.contents == ApplyAll(s.inodes[i].value.contents, FileOps(ops, i))
    decreases |ops|
  {
    hide Good, Legal, Step, ApplyAll, FileOps, Shape;
    NoFileOps(s.inodes[i].value.contents, i);
    if ops != [] {
      GoodShape(s);
      StepGood(s, false, ops[0]);
      StepContents(s, ops[0], i);
      RunContents(Step(s, ops[0]).0, ops[1..], i);
      FileOpsCons(ops, i);
      ApplyAllConcat(s.inodes[i].value.contents, FileOps([ops[0]], i), FileOps(ops[1..], i));
    }
  }

  lemma GoodShape(s: State)
    requires Good(s, false)
    ensures Shape(s)
  {
  }

  lemma NoFileOps(c: seq<byte>, i: nat)
    ensures ApplyAll(c, FileOps([], i)) == c
  {
  }

  lemma FileOpsCons(ops: seq<Op>, i: nat)
    requires ops != []
    ensures FileOps(ops, i) == FileOps([ops[0]], i) + FileOps(ops[1..], i)
  {
    assert [ops[0]][1..] == [] && FileOps([], i) == [];
  }

  lemma {:induction false} ApplyAllIsHistory(h: seq<FileOp>)
    ensures |ApplyAll([], h)| == FileData.Size(h)
    ensures forall k :: 0 <= k < |ApplyAll([], h)| ==> ApplyAll([], h)[k] == LastWritten(h, k)
  {
    hide Apply, ApplyAll, LastWritten, FileData.Size;
    if h == [] {
      EmptyHistory();
    } else {
      var n := |h| - 1;
      ApplyAllIsHistory(h[..n]);
      ApplyAllSnoc([], h);
      ApplyIsHistory(ApplyAll([], h[..n]), h);
    }
  }

  lemma EmptyHistory()
    ensures ApplyAll([], []) == [] && FileData.Size([]) == 0
  {
  }

  lemma ApplyAllSnoc(c: seq<byte>, h: seq<FileOp>)
    requires h != []
    ensures ApplyAll(c, h) == Apply(ApplyAll(c, h[..|h| - 1]), h[|h| - 1])
  {
    var n := |h| - 1;
    assert h == h[..n] + [h[n]];
    ApplyAllConcat(c, h[..n], [h[n]]);
    assert [h[n]][1..] == [];
  }

  /** Main result: from the moment a file is empty, as when it is created, every byte of it
      is in every run the last one written there, or zero if it was never written or has
      been cut off since. */
  lemma FileBytesInEveryRun(s: State, ops: seq<Op>, i: nat)
    requires Good(s, false) && LegalRun(s, ops) && Live(s, i) && s.inodes[i].value.contents == []
    ensures var h := FileOps(ops, i);
            && Live(Run(s, ops), i)
            && (var c := Run(s, ops).inodes[i].value.contents;
                |c| == FileData.Size(h) && forall k :: 0 <= k < |c| ==> c[k] == LastWritten(h, k))
  {
    hide Good, LegalRun, Run, LastWritten, FileData.Size, ApplyAll;
    RunContents(s, ops, i);
    ApplyAllIsHistory(FileOps(ops, i));
  }

  /** The directory a rename would replace. */
  ghost function Replaced(s: State, op: Op): Option<nat>
    requires Shape(s) && op.Rename?
  {
    var source := LookUp(Abs(s), op.oldParent, op.oldName);
    var target := LookUp(Abs(s), op.newParent, op.newName);
    if source.Some? && target.Some? && IsDir(s, target.value.inode) then Some(target.value.inode) else None
  }

  /** Rename refuses exactly when it would replace a directory that has a binding, as RmDir
      does, if and only if no such directory's first name is longer than 4072 bytes. */
  lemma RenameRefusesNonEmptyIff(s: State, op: Op)
    requires Shape(s) && op.Rename? && Legal(s, op)
    ensures var t := Replaced(s, op);
            && (t.Some? ==> t.value in Abs(s).tree)
            && ((Step(s, op).1 == Error(ENOTEMPTY) <==> t.Some? && Abs(s).tree[t.value] != map[]) <==>
                (t.Some? && UsedFrom(Entries(s, t.value), 0) != [] ==>
                  |UsedFrom(Entries(s, t.value), 0)[0].name| <= 4072))
  {
    RenameAbs(s, op.oldParent, op.oldName, op.newParent, op.newName);
    var t := Replaced(s, op);
    if t.Some? {
      AbsAt(s, t.value);
      hide Shape, Abs, LookUp, Slots.Valid, Dir, LooksEmpty, Count, UsedFrom, MemState.Rename;
      RenameTestExact(Entries(s, t.value));
      CountIsMapSize(Entries(s, t.value));
    }
  }
}
