/** Link counts that are exact: each inode is named just as often as its count says. A rename
    over an existing name leaves the replaced inode's count one too high, and nothing a client
    can do afterwards sets that right, so the counts of a reachable state are exact if and only
    if no rename of its run replaced a name. */
module ExactCounts {
  import opened Bytes
  import opened Dirents
  import opened Slots
  import opened Namespace
  import opened MemState
  import opened MemRuns
  import NamespaceOps

  ghost predicate Exact(ns: Ns) { Counts(ns) == ns.links }

  lemma LawIsExact(ns: Ns)
    ensures Law(ns, true) <==> Law(ns, false) && Exact(ns)
  {
    hide Counts;
  }

  /** Two maps that agree after an update at one key. */
  lemma AgreeElsewhere(a: map<nat, nat>, b: map<nat, nat>, id: nat, c: nat, k: nat)
    requires a[id := c] == b[id := k]
    ensures c == k && (id in a <==> id in b) && (id in a ==> a[id] == b[id]) ==> a == b
    ensures c == k
  {
    assert a[id := c][id] == c;
    if (id in a <==> id in b) && (id in a ==> a[id] == b[id]) {
      forall x: nat ensures x in a <==> x in b ensures x in a ==> a[x] == b[x] {
        assert x != id ==> (x in a <==> x in a[id := c]) && (x in b <==> x in b[id := k]);
        assert x != id && x in a ==> a[x] == a[id := c][x] == b[x];
      }
    }
  }

  lemma CreateExact(ns: Ns, d: nat, n: seq<byte>, id: nat, dt: nat)
    requires WellFormed(ns) && d in ns.tree && LookUp(ns, d, n).None? && id !in ns.links
    requires Exact(NamespaceOps.Create(ns, d, n, id, dt))
    ensures Exact(ns)
  {
    NamespaceOps.CreateCounts(ns, d, n, id, dt);
    NamespaceOps.CreateLookUp(ns, d, n, id, dt);
    assert id !in Counts(ns);
    AgreeElsewhere(Counts(ns), ns.links, id, 1, 1);
  }

  lemma LinkExact(ns: Ns, d: nat, n: seq<byte>, t: nat)
    requires d in ns.tree && LookUp(ns, d, n).None? && t in ns.links && ns.links[t] < LINK_WRAP - 1
    requires Exact(NamespaceOps.Link(ns, d, n, t))
    ensures Exact(ns)
  {
    NamespaceOps.LinkCounts(ns, d, n, t);
    NamespaceOps.LinkLookUp(ns, d, n, t);
    AgreeElsewhere(Counts(ns), ns.links, t, Counts(ns)[t] + 1, ns.links[t] + 1);
  }

  lemma CountsKeys(ns: Ns)
    ensures Counts(ns).Keys == ns.links.Keys
  {
  }

  lemma DeleteLinks(ns: Ns, d: nat, n: seq<byte>)
    requires LookUp(ns, d, n).Some? && LookUp(ns, d, n).value.inode in ns.links
    ensures NamespaceOps.Delete(ns, d, n).links ==
            var id := LookUp(ns, d, n).value.inode; ns.links[id := NamespaceOps.Decrement(ns.links[id])]
  {
  }

  lemma DeleteExact(ns: Ns, d: nat, n: seq<byte>)
    requires WellFormed(ns) && Law(ns, false) && LookUp(ns, d, n).Some?
    requires LookUp(ns, d, n).value.inode in ns.links && Exact(NamespaceOps.Delete(ns, d, n))
    ensures Exact(ns)
  {
    hide LookUp, WellFormed, Law, Counts;
    var id := LookUp(ns, d, n).value.inode;
    CountsKeys(ns);
    NamespaceOps.DeleteCounts(ns, d, n);
    NamedHasLink(ns, false, d, n);
    DeleteLinks(ns, d, n);
    AgreeElsewhere(Counts(ns), ns.links, id, Counts(ns)[id] - 1, ns.links[id] - 1);
  }

  /** A rename over an existing name is never exact afterwards. */
  lemma MoveExact(ns: Ns, od: nat, on: seq<byte>, nd: nat, nn: seq<byte>)
    requires WellFormed(ns) && Law(ns, false)
    requires LookUp(ns, od, on).Some? && nd in ns.tree && (od, on) != (nd, nn)
    ensures Exact(NamespaceOps.Move(ns, od, on, nd, nn)) <==> Exact(ns) && LookUp(ns, nd, nn).None?
  {
    var ns' := NamespaceOps.Move(ns, od, on, nd, nn);
    NamespaceOps.MoveCounts(ns, od, on, nd, nn);
    NamespaceOps.MoveLookUp(ns, od, on, nd, nn);
    if LookUp(ns, nd, nn).Some? {
      var id := LookUp(ns, nd, nn).value.inode;
      assert Counts(ns')[id] == Counts(ns)[id] - 1 < ns'.links[id];
    }
  }

  lemma CreateStep(s: State, parent: nat, name: seq<byte>, n: Node, dt: nat)
    requires Good(s, false) && IsDir(s, parent) && name != [] && dt != DT_UNKNOWN
    requires n.Ok() && n.entries == [] && n.attrs.nlink == 1 && (n.IsDir() <==> dt == DT_DIRECTORY)
    ensures Shape(CreateChild(s, parent, name, n, dt).0)
    ensures Exact(Abs(CreateChild(s, parent, name, n, dt).0)) ==> Exact(Abs(s))
  {
    CreateChildAbs(s, parent, name, n, dt);
    AbsAt(s, parent);
    hide Counts, Slots.Valid, FreeOk, CreateChild;
    var (s', r) := CreateChild(s, parent, name, n, dt);
    if LookUp(Abs(s), parent, name).None? && Exact(Abs(s')) {
      CreateExact(Abs(s), parent, name, r.child, dt);
    }
  }

  lemma LinkStep(s: State, parent: nat, name: seq<byte>, t: nat)
    requires Good(s, false) && Legal(s, Op.CreateLink(parent, name, t))
    ensures Shape(MemState.CreateLink(s, parent, name, t).0)
    ensures Exact(Abs(MemState.CreateLink(s, parent, name, t).0)) ==> Exact(Abs(s))
  {
    CreateLinkAbs(s, parent, name, t);
    AbsAt(s, parent);
    AbsAt(s, t);
    hide Counts, Slots.Valid, FreeOk, MemState.CreateLink;
    if LookUp(Abs(s), parent, name).None? && Exact(Abs(MemState.CreateLink(s, parent, name, t).0)) {
      LinkExact(Abs(s), parent, name, t);
    }
  }

  lemma RemoveStep(s: State, parent: nat, name: seq<byte>, rmdir: bool)
    requires Good(s, false) && IsDir(s, parent) && name != []
    ensures Shape(RemoveName(s, parent, name, rmdir).0)
    ensures Exact(Abs(RemoveName(s, parent, name, rmdir).0)) ==> Exact(Abs(s))
  {
    RemoveNameAbs(s, parent, name, rmdir);
    hide Counts, Slots.Valid, FreeOk, RemoveName;
    var s' := RemoveName(s, parent, name, rmdir).0;
    if s' != s && Exact(Abs(s')) {
      DeleteExact(Abs(s), parent, name);
    }
  }

  lemma AbsIs(s: State)
    requires Shape(s)
    ensures Abs(s).tree == Tree(s) && Abs(s).links == Links(s)
  {
  }

  lemma RenameStep(s: State, op: Op)
    requires Good(s, false) && op.Rename? && Legal(s, op)
    ensures Shape(Step(s, op).0)
    ensures Exact(Abs(Step(s, op).0)) ==> Exact(Abs(s)) && !Replaces(s, op)
  {
    hide Exact, Law, WellFormed, LookUp, Abs, Shape, MemState.Rename, Blocked;
    RenameAbs(s, op.oldParent, op.oldName, op.newParent, op.newName);
    AbsAt(s, op.newParent);
    AbsIs(s);
    if Step(s, op).1.Success? {
      MoveExact(Abs(s), op.oldParent, op.oldName, op.newParent, op.newName);
    }
  }

  lemma NodeStep(s: State, op: Op)
    requires Good(s, false) && IsNodeOp(op) && Legal(s, op)
    ensures Shape(Step(s, op).0) && Abs(Step(s, op).0) == Abs(s)
  {
    assert Shape(s);
    hide Good, Shape, Legal, Step, NodeAfter;
    StepOfNodeOp(s, op);
    NodeAfterOk(s.inodes[op.inode].value, op);
    SetDataGood(s, false, op.inode, NodeAfter(s.inodes[op.inode].value, op));
    SetDataAbs(s, op.inode, NodeAfter(s.inodes[op.inode].value, op));
  }

  /** No request makes inexact counts exact. */
  lemma StepExact(s: State, op: Op)
    requires Good(s, false) && Legal(s, op)
    ensures Shape(Step(s, op).0)
    ensures Exact(Abs(Step(s, op).0)) ==> Exact(Abs(s)) && !Replaces(s, op)
  {
    EmptyDir();
    hide Slots.Valid, FreeOk, NamespaceOps.Inv, Abs, Exact, CreateChild, MemState.CreateLink, RemoveName;
    match op {
      case MkDir(p, n, m) => CreateStep(s, p, n, NewNode(n, m, []), DT_DIRECTORY);
      case CreateFile(p, n, m) => CreateStep(s, p, n, NewNode(n, m, []), DT_FILE);
      case CreateSymlink(p, n, t) => CreateStep(s, p, n, NewNode(n, SYMLINK_MODE, t), DT_LINK);
      case CreateLink(p, n, t) => LinkStep(s, p, n, t);
      case Rename(_, _, _, _) => RenameStep(s, op);
      case RmDir(p, n) => RemoveStep(s, p, n, true);
      case Unlink(p, n) => RemoveStep(s, p, n, false);
      case _ => NodeStep(s, op);
    }
  }

  lemma {:induction false} RunExact(s: State, ops: seq<Op>)
    requires Good(s, false) && LegalRun(s, ops)
    ensures Good(Run(s, ops), false)
    ensures Exact(Abs(Run(s, ops))) ==> Exact(Abs(s)) && NeverReplaces(s, ops)
    decreases |ops|
  {
    hide Shape, Abs, Exact, NamespaceOps.Inv, Step, Legal, Replaces;
    if ops != [] {
      StepGood(s, false, ops[0]);
      StepExact(s, ops[0]);
      RunExact(Step(s, ops[0]).0, ops[1..]);
    }
  }

  /** Main result: in every state a run can reach, each inode's link count is the number of
      its names if and only if no rename of the run went through over an existing name. */
  lemma CountsExactIff(ops: seq<Op>)
    requires LegalFromStart(ops)
    ensures Shape(Reached(ops))
    ensures Exact(Abs(Reached(ops))) <==> NothingReplaced(ops)
  {
    EveryRun(ops);
    hide Shape, Abs, Exact, NamespaceOps.Inv, Law;
    InitGoodWeak();
    RunExact(Init(), ops);
    LawIsExact(Abs(Reached(ops)));
  }
}
