/** What each namespace operation does to the graph, and why it keeps the
    link-count law and the forest. */
module NamespaceOps {
  import opened Bytes
  import opened Dirents
  import opened Slots
  import opened Namespace

  ghost predicate Inv(ns: Ns, exact: bool)
  {
    WellFormed(ns) && Law(ns, exact) && Acyclic(ns)
  }

  function Create(ns: Ns, d: nat, n: seq<byte>, id: nat, dt: nat): Ns
    requires d in ns.tree && id !in ns.tree
  {
    BindAt(NewInode(ns, id, dt == DT_DIRECTORY, 1), d, n, Binding(id, dt))
  }

  lemma CreateLookUp(ns: Ns, d: nat, n: seq<byte>, id: nat, dt: nat)
    requires d in ns.tree && id !in ns.tree
    ensures forall x: nat, m {:trigger LookUp(Create(ns, d, n, id, dt), x, m)} ::
              LookUp(Create(ns, d, n, id, dt), x, m) ==
              if (x, m) == (d, n) then Some(Binding(id, dt)) else LookUp(ns, x, m)
    ensures Create(ns, d, n, id, dt).tree.Keys == ns.tree.Keys + (if dt == DT_DIRECTORY then {id} else {})
    ensures Create(ns, d, n, id, dt).links == ns.links[id := 1]
  {
    var ns1 := NewInode(ns, id, dt == DT_DIRECTORY, 1);
    NewLookUp(ns, id, dt == DT_DIRECTORY, 1);
    BindLookUp(ns1, d, n, Binding(id, dt));
  }

  lemma CreateWellFormed(ns: Ns, d: nat, n: seq<byte>, id: nat, dt: nat)
    requires WellFormed(ns) && d in ns.tree && id !in ns.links
    ensures WellFormed(Create(ns, d, n, id, dt))
  {
    CreateLookUp(ns, d, n, id, dt);
    var ns' := Create(ns, d, n, id, dt);
    forall x: nat, m | LookUp(ns', x, m).Some? ensures BindingOk(ns', LookUp(ns', x, m).value) {
      if (x, m) != (d, n) { assert BindingOk(ns, LookUp(ns, x, m).value); }
    }
  }

  lemma CreateRefs(ns: Ns, d: nat, n: seq<byte>, id: nat, dt: nat, x: nat)
    requires WellFormed(ns) && d in ns.tree && LookUp(ns, d, n).None? && id !in ns.links
    ensures |Refs(Create(ns, d, n, id, dt), x)| == if x == id then 1 else |Refs(ns, x)|
  {
    NewLookUp(ns, id, dt == DT_DIRECTORY, 1);
    RefsAfterNew(ns, id, dt == DT_DIRECTORY, 1, x);
    RefsAfterBind(NewInode(ns, id, dt == DT_DIRECTORY, 1), d, n, Binding(id, dt), x);
  }

  lemma CreateCounts(ns: Ns, d: nat, n: seq<byte>, id: nat, dt: nat)
    requires WellFormed(ns) && d in ns.tree && LookUp(ns, d, n).None? && id !in ns.links
    ensures Counts(Create(ns, d, n, id, dt)) == Counts(ns)[id := 1]
  {
    var ns' := Create(ns, d, n, id, dt);
    forall x: nat | x in ns'.links ensures |Refs(ns', x)| == if x == id then 1 else |Refs(ns, x)| {
      CreateRefs(ns, d, n, id, dt, x);
    }
  }

  lemma CreateLaw(ns: Ns, exact: bool, d: nat, n: seq<byte>, id: nat, dt: nat)
    requires WellFormed(ns) && Law(ns, exact) && d in ns.tree && LookUp(ns, d, n).None? && id !in ns.links
    ensures Law(Create(ns, d, n, id, dt), exact)
  {
    CreateCounts(ns, d, n, id, dt);
    hide Counts;
    CreateLookUp(ns, d, n, id, dt);
    CountsFitSet(Counts(ns), ns.links, ns.tree.Keys, exact, id, 1, 1,
                 ns.tree.Keys + (if dt == DT_DIRECTORY then {id} else {}));
  }

  /** Changing the number of names and the count of one inode, not the root, keeps the law. */
  lemma CountsFitSet(counts: map<nat, nat>, links: map<nat, nat>, dirs: set<nat>, exact: bool,
                     id: nat, c: nat, k: nat, dirs': set<nat>)
    requires CountsFit(counts, links, dirs, exact) && id != ROOT
    requires c <= k < LINK_WRAP && (exact ==> c == k)
    requires dirs' <= dirs + {id} && (id in dirs' ==> k <= 1)
    ensures CountsFit(counts[id := c], links[id := k], dirs', exact)
  {
  }

  lemma CreateKeeps(ns: Ns, exact: bool, d: nat, n: seq<byte>, id: nat, dt: nat)
    requires Inv(ns, exact) && d in ns.tree && LookUp(ns, d, n).None? && id !in ns.links
    ensures Inv(Create(ns, d, n, id, dt), exact)
  {
    CreateWellFormed(ns, d, n, id, dt);
    CreateLaw(ns, exact, d, n, id, dt);
    CreateLookUp(ns, d, n, id, dt);
    var ns' := Create(ns, d, n, id, dt);
    forall x: nat, y: nat | Edge(ns', x, y) ensures Edge(ns, x, y) || (x == d && y == id) {
      var m :| Names(ns', (x, m), y);
      if (x, m) != (d, n) { assert Names(ns, (x, m), y) && BindingOk(ns, LookUp(ns, x, m).value); }
    }
    forall p | Path(ns, p) && p[0] == id ensures p[|p| - 1] != d {
      assert |p| > 1 ==> Edge(ns, p[0], p[0 + 1]);
    }
    OneMoreEdgeAcyclic(ns, ns', d, id);
  }

  function Link(ns: Ns, d: nat, n: seq<byte>, t: nat): Ns
    requires d in ns.tree && t in ns.links
  {
    BindAt(SetLinks(ns, t, (ns.links[t] + 1) % LINK_WRAP), d, n, Binding(t, DT_FILE))
  }

  lemma LinkLookUp(ns: Ns, d: nat, n: seq<byte>, t: nat)
    requires d in ns.tree && t in ns.links
    ensures forall x: nat, m {:trigger LookUp(Link(ns, d, n, t), x, m)} ::
              LookUp(Link(ns, d, n, t), x, m) ==
              if (x, m) == (d, n) then Some(Binding(t, DT_FILE)) else LookUp(ns, x, m)
    ensures Link(ns, d, n, t).tree.Keys == ns.tree.Keys
    ensures Link(ns, d, n, t).links == ns.links[t := (ns.links[t] + 1) % LINK_WRAP]
  {
    BindLookUp(SetLinks(ns, t, (ns.links[t] + 1) % LINK_WRAP), d, n, Binding(t, DT_FILE));
  }

  lemma LinkRefs(ns: Ns, d: nat, n: seq<byte>, t: nat, x: nat)
    requires d in ns.tree && LookUp(ns, d, n).None? && t in ns.links
    ensures |Refs(Link(ns, d, n, t), x)| == |Refs(ns, x)| + (if x == t then 1 else 0)
  {
    var k := (ns.links[t] + 1) % LINK_WRAP;
    RefsIgnoreLinks(ns, t, k, x);
    RefsAfterBind(SetLinks(ns, t, k), d, n, Binding(t, DT_FILE), x);
  }

  lemma LinkGraph(ns: Ns, d: nat, n: seq<byte>, t: nat)
    requires WellFormed(ns) && Acyclic(ns)
    requires d in ns.tree && t in ns.links && t !in ns.tree
    ensures WellFormed(Link(ns, d, n, t)) && Acyclic(Link(ns, d, n, t))
  {
    var ns' := Link(ns, d, n, t);
    LinkLookUp(ns, d, n, t);
    forall x: nat, m | LookUp(ns', x, m).Some? ensures BindingOk(ns', LookUp(ns', x, m).value) {
      if (x, m) != (d, n) { assert BindingOk(ns, LookUp(ns, x, m).value); }
    }
    forall x: nat, y: nat | Edge(ns', x, y) ensures Edge(ns, x, y) {
      var m :| Names(ns', (x, m), y);
      assert Names(ns, (x, m), y);
    }
    FewerEdgesAcyclic(ns, ns');
  }

  lemma LinkCounts(ns: Ns, d: nat, n: seq<byte>, t: nat)
    requires d in ns.tree && LookUp(ns, d, n).None? && t in ns.links
    ensures Counts(Link(ns, d, n, t)) == Counts(ns)[t := Counts(ns)[t] + 1]
  {
    var ns' := Link(ns, d, n, t);
    forall x: nat | x in ns'.links ensures Counts(ns')[x] == Counts(ns)[x] + (if x == t then 1 else 0) {
      LinkRefs(ns, d, n, t, x);
    }
  }

  lemma LinkLaw(ns: Ns, exact: bool, d: nat, n: seq<byte>, t: nat)
    requires Law(ns, exact) && d in ns.tree && LookUp(ns, d, n).None?
    requires t in ns.links && t !in ns.tree && t != ROOT
    ensures Law(Link(ns, d, n, t), exact) <==> ns.links[t] != LINK_WRAP - 1
  {
    LinkLookUp(ns, d, n, t);
    LinkCounts(ns, d, n, t);
    var c, k := Counts(ns)[t] + 1, (ns.links[t] + 1) % LINK_WRAP;
    if ns.links[t] != LINK_WRAP - 1 {
      assert k == ns.links[t] + 1;
      CountsFitSet(Counts(ns), ns.links, ns.tree.Keys, exact, t, c, k, ns.tree.Keys);
    } else {
      assert k == 0 && Link(ns, d, n, t).links[t] == k;
    }
  }

  /** A hard link to a file keeps the invariant exactly when the target's count is not
      at its maximum; at the maximum it wraps to zero. */
  lemma LinkKeeps(ns: Ns, exact: bool, d: nat, n: seq<byte>, t: nat)
    requires Inv(ns, exact) && d in ns.tree && LookUp(ns, d, n).None?
    requires t in ns.links && t !in ns.tree && t != ROOT
    ensures Inv(Link(ns, d, n, t), exact) <==> ns.links[t] != LINK_WRAP - 1
  {
    LinkGraph(ns, d, n, t);
    LinkLaw(ns, exact, d, n, t);
  }

  /** Go's `Nlink--` on a `uint32`. */
  function Decrement(k: nat): nat { if k == 0 then LINK_WRAP - 1 else k - 1 }

  function Delete(ns: Ns, d: nat, n: seq<byte>): Ns
    requires LookUp(ns, d, n).Some? && LookUp(ns, d, n).value.inode in ns.links
  {
    var id := LookUp(ns, d, n).value.inode;
    SetLinks(UnbindAt(ns, d, n), id, Decrement(ns.links[id]))
  }

  lemma DeleteLookUp(ns: Ns, d: nat, n: seq<byte>)
    requires LookUp(ns, d, n).Some? && LookUp(ns, d, n).value.inode in ns.links
    ensures forall x: nat, m {:trigger LookUp(Delete(ns, d, n), x, m)} ::
              LookUp(Delete(ns, d, n), x, m) == if (x, m) == (d, n) then None else LookUp(ns, x, m)
    ensures Delete(ns, d, n).tree.Keys == ns.tree.Keys
  {
    UnbindLookUp(ns, d, n);
    var id := LookUp(ns, d, n).value.inode;
    assert forall x: nat, m :: LookUp(Delete(ns, d, n), x, m) == LookUp(UnbindAt(ns, d, n), x, m);
  }

  lemma DeleteGraph(ns: Ns, d: nat, n: seq<byte>)
    requires WellFormed(ns) && Acyclic(ns)
    requires LookUp(ns, d, n).Some? && LookUp(ns, d, n).value.inode in ns.links
    ensures WellFormed(Delete(ns, d, n)) && Acyclic(Delete(ns, d, n))
  {
    var ns' := Delete(ns, d, n);
    DeleteLookUp(ns, d, n);
    forall x: nat, m | LookUp(ns', x, m).Some? ensures BindingOk(ns', LookUp(ns', x, m).value) {
      assert BindingOk(ns, LookUp(ns, x, m).value);
    }
    forall x: nat, y: nat | Edge(ns', x, y) ensures Edge(ns, x, y) {
      var m :| Names(ns', (x, m), y);
      assert Names(ns, (x, m), y);
    }
    FewerEdgesAcyclic(ns, ns');
  }

  lemma DeleteRefs(ns: Ns, d: nat, n: seq<byte>, x: nat)
    requires LookUp(ns, d, n).Some? && LookUp(ns, d, n).value.inode in ns.links
    ensures |Refs(Delete(ns, d, n), x)| == |Refs(ns, x)| - (if LookUp(ns, d, n).value.inode == x then 1 else 0)
  {
    var id := LookUp(ns, d, n).value.inode;
    RefsAfterUnbind(ns, d, n, x);
    RefsIgnoreLinks(UnbindAt(ns, d, n), id, Decrement(ns.links[id]), x);
  }

  lemma DeleteCounts(ns: Ns, d: nat, n: seq<byte>)
    requires LookUp(ns, d, n).Some? && LookUp(ns, d, n).value.inode in ns.links
    ensures Counts(ns)[LookUp(ns, d, n).value.inode] >= 1
    ensures Counts(Delete(ns, d, n)) ==
            var id := LookUp(ns, d, n).value.inode; Counts(ns)[id := Counts(ns)[id] - 1]
  {
    var id, ns' := LookUp(ns, d, n).value.inode, Delete(ns, d, n);
    DeleteRefs(ns, d, n, id);
    forall x: nat | x in ns'.links ensures Counts(ns')[x] == Counts(ns)[x] - (if x == id then 1 else 0) {
      DeleteRefs(ns, d, n, x);
    }
  }

  lemma DeleteLaw(ns: Ns, exact: bool, d: nat, n: seq<byte>)
    requires Law(ns, exact) && LookUp(ns, d, n).Some? && LookUp(ns, d, n).value.inode in ns.links
    ensures Law(Delete(ns, d, n), exact)
  {
    var id := LookUp(ns, d, n).value.inode;
    DeleteLookUp(ns, d, n);
    DeleteCounts(ns, d, n);
    var c := Counts(ns)[id];
    assert 1 <= c <= ns.links[id] && id != ROOT;
    assert Delete(ns, d, n).links == ns.links[id := ns.links[id] - 1];
    CountsFitSet(Counts(ns), ns.links, ns.tree.Keys, exact, id, c - 1, ns.links[id] - 1, ns.tree.Keys);
  }

  /** Removing a name decrements a positive count and keeps the invariant. */
  lemma DeleteKeeps(ns: Ns, exact: bool, d: nat, n: seq<byte>)
    requires Inv(ns, exact) && LookUp(ns, d, n).Some?
    ensures BindingOk(ns, LookUp(ns, d, n).value)
    ensures ns.links[LookUp(ns, d, n).value.inode] >= 1
    ensures Inv(Delete(ns, d, n), exact)
  {
    NamedHasLink(ns, exact, d, n);
    DeleteGraph(ns, d, n);
    DeleteLaw(ns, exact, d, n);
  }

  /** A rename that goes through: drop what the new name led to, if anything, bind
      the new name, then drop the old one. */
  function Move(ns: Ns, od: nat, on: seq<byte>, nd: nat, nn: seq<byte>): Ns
    requires LookUp(ns, od, on).Some? && nd in ns.tree
  {
    var cleared := if LookUp(ns, nd, nn).Some? then UnbindAt(ns, nd, nn) else ns;
    UnbindAt(BindAt(cleared, nd, nn, LookUp(ns, od, on).value), od, on)
  }

  /** Main result on Rename: the new name takes over the old binding, the old name is
      gone, and no other name in any directory changes, even within one directory. */
  lemma MoveLookUp(ns: Ns, od: nat, on: seq<byte>, nd: nat, nn: seq<byte>)
    requires LookUp(ns, od, on).Some? && nd in ns.tree && (od, on) != (nd, nn)
    ensures forall d: nat, n {:trigger LookUp(Move(ns, od, on, nd, nn), d, n)} ::
              LookUp(Move(ns, od, on, nd, nn), d, n) ==
              if (d, n) == (nd, nn) then LookUp(ns, od, on)
              else if (d, n) == (od, on) then None
              else LookUp(ns, d, n)
    ensures Move(ns, od, on, nd, nn).links == ns.links
    ensures Move(ns, od, on, nd, nn).tree.Keys == ns.tree.Keys
  {
    var cleared := if LookUp(ns, nd, nn).Some? then UnbindAt(ns, nd, nn) else ns;
    UnbindLookUp(ns, nd, nn);
    BindLookUp(cleared, nd, nn, LookUp(ns, od, on).value);
    UnbindLookUp(BindAt(cleared, nd, nn, LookUp(ns, od, on).value), od, on);
  }

  lemma MoveRefs(ns: Ns, od: nat, on: seq<byte>, nd: nat, nn: seq<byte>, x: nat)
    requires LookUp(ns, od, on).Some? && nd in ns.tree && (od, on) != (nd, nn)
    ensures |Refs(Move(ns, od, on, nd, nn), x)| == |Refs(ns, x)| - (if Names(ns, (nd, nn), x) then 1 else 0)
  {
    var b := LookUp(ns, od, on).value;
    var cleared := if LookUp(ns, nd, nn).Some? then UnbindAt(ns, nd, nn) else ns;
    UnbindLookUp(ns, nd, nn);
    BindLookUp(cleared, nd, nn, b);
    if LookUp(ns, nd, nn).Some? { RefsAfterUnbind(ns, nd, nn, x); }
    RefsAfterBind(cleared, nd, nn, b, x);
    RefsAfterUnbind(BindAt(cleared, nd, nn, b), od, on, x);
  }

  lemma MoveGraph(ns: Ns, od: nat, on: seq<byte>, nd: nat, nn: seq<byte>)
    requires WellFormed(ns) && Acyclic(ns)
    requires LookUp(ns, od, on).Some? && nd in ns.tree && (od, on) != (nd, nn)
    requires LookUp(ns, od, on).value.typ == DT_DIRECTORY ==> !Reaches(ns, LookUp(ns, od, on).value.inode, nd)
    ensures WellFormed(Move(ns, od, on, nd, nn)) && Acyclic(Move(ns, od, on, nd, nn))
  {
    var c := LookUp(ns, od, on).value.inode;
    var ns' := Move(ns, od, on, nd, nn);
    MoveLookUp(ns, od, on, nd, nn);
    assert BindingOk(ns, LookUp(ns, od, on).value);
    forall d: nat, n | LookUp(ns', d, n).Some? ensures BindingOk(ns', LookUp(ns', d, n).value) {
      if (d, n) != (nd, nn) { assert BindingOk(ns, LookUp(ns, d, n).value); }
    }
    forall x: nat, y: nat | Edge(ns', x, y) ensures Edge(ns, x, y) || (x == nd && y == c && c in ns.tree) {
      var m :| Names(ns', (x, m), y);
      if (x, m) != (nd, nn) { assert Names(ns, (x, m), y); }
    }
    if c in ns.tree {
      OneMoreEdgeAcyclic(ns, ns', nd, c);
    } else {
      FewerEdgesAcyclic(ns, ns');
    }
  }

  lemma MoveLaw(ns: Ns, exact: bool, od: nat, on: seq<byte>, nd: nat, nn: seq<byte>)
    requires WellFormed(ns) && Law(ns, exact)
    requires LookUp(ns, od, on).Some? && nd in ns.tree && (od, on) != (nd, nn)
    ensures Law(Move(ns, od, on, nd, nn), exact && LookUp(ns, nd, nn).None?)
  {
    var ns' := Move(ns, od, on, nd, nn);
    MoveLookUp(ns, od, on, nd, nn);
    MoveCounts(ns, od, on, nd, nn);
    if LookUp(ns, nd, nn).Some? {
      NamedHasLink(ns, exact, nd, nn);
      var id := LookUp(ns, nd, nn).value.inode;
      hide Counts, WellFormed;
      assert ns.links[id := ns.links[id]] == ns.links;
      CountsFitSet(Counts(ns), ns.links, ns.tree.Keys, false, id, Counts(ns)[id] - 1, ns.links[id], ns.tree.Keys);
    }
  }

  lemma MoveCounts(ns: Ns, od: nat, on: seq<byte>, nd: nat, nn: seq<byte>)
    requires WellFormed(ns)
    requires LookUp(ns, od, on).Some? && nd in ns.tree && (od, on) != (nd, nn)
    ensures LookUp(ns, nd, nn).None? ==> Counts(Move(ns, od, on, nd, nn)) == Counts(ns)
    ensures LookUp(ns, nd, nn).Some? ==>
              var id := LookUp(ns, nd, nn).value.inode;
              && id in ns.links && Counts(ns)[id] >= 1
              && Counts(Move(ns, od, on, nd, nn)) == Counts(ns)[id := Counts(ns)[id] - 1]
  {
    var ns' := Move(ns, od, on, nd, nn);
    MoveLookUp(ns, od, on, nd, nn);
    forall x: nat | x in ns.links
      ensures Counts(ns')[x] == Counts(ns)[x] - (if Names(ns, (nd, nn), x) then 1 else 0)
    {
      MoveRefs(ns, od, on, nd, nn, x);
    }
    if LookUp(ns, nd, nn).Some? {
      var id := LookUp(ns, nd, nn).value.inode;
      assert BindingOk(ns, LookUp(ns, nd, nn).value);
      assert Names(ns, (nd, nn), id);
    }
  }

  /** Rename keeps the invariant, moving a whole subtree if need be; the counts stay
      exact unless a name was replaced. */
  lemma MoveKeeps(ns: Ns, exact: bool, od: nat, on: seq<byte>, nd: nat, nn: seq<byte>)
    requires Inv(ns, exact)
    requires LookUp(ns, od, on).Some? && nd in ns.tree && (od, on) != (nd, nn)
    requires LookUp(ns, od, on).value.typ == DT_DIRECTORY ==> !Reaches(ns, LookUp(ns, od, on).value.inode, nd)
    ensures Inv(Move(ns, od, on, nd, nn), exact && LookUp(ns, nd, nn).None?)
  {
    MoveGraph(ns, od, on, nd, nn);
    MoveLaw(ns, exact, od, on, nd, nn);
  }

  /** A path in a graph without cycles does not come back to where it has been. */
  lemma NoReturn(ns: Ns, p: seq<nat>, i: nat, j: nat)
    requires Acyclic(ns) && Path(ns, p) && i < j < |p|
    ensures p[i] != p[j]
  {
    var q := p[i..j + 1];
    forall k | 0 <= k < |q| - 1 ensures Edge(ns, q[k], q[k + 1]) {
      assert Edge(ns, p[i + k], p[i + k + 1]);
    }
    assert Path(ns, q);
  }

  /** An edge on a path that starts at the moved directory and ends at its new parent is
      not one that the move takes away. */
  lemma PathSurvivesMove(ns: Ns, od: nat, on: seq<byte>, nd: nat, nn: seq<byte>, p: seq<nat>)
    requires Acyclic(ns) && LookUp(ns, od, on).Some? && nd in ns.tree && (od, on) != (nd, nn)
    requires Path(ns, p) && p[0] == LookUp(ns, od, on).value.inode && p[|p| - 1] == nd
    ensures Path(Move(ns, od, on, nd, nn), p)
  {
    var ns' := Move(ns, od, on, nd, nn);
    MoveLookUp(ns, od, on, nd, nn);
    hide Move, LookUp;
    forall i | 0 <= i < |p| - 1 ensures Edge(ns', p[i], p[i + 1]) {
      assert Edge(ns, p[i], p[i + 1]);
      var m :| Names(ns, (p[i], m), p[i + 1]);
      NoReturn(ns, p, 0, i + 1);
      NoReturn(ns, p, i, |p| - 1);
      assert Names(ns', (p[i], m), p[i + 1]);
    }
  }

  /** Rename keeps the directories free of cycles exactly when it does not move a directory
      into itself or below itself. */
  lemma MoveAcyclicIff(ns: Ns, od: nat, on: seq<byte>, nd: nat, nn: seq<byte>)
    requires WellFormed(ns) && Acyclic(ns)
    requires LookUp(ns, od, on).Some? && nd in ns.tree && (od, on) != (nd, nn)
    ensures Acyclic(Move(ns, od, on, nd, nn)) <==>
            !(LookUp(ns, od, on).value.typ == DT_DIRECTORY && Reaches(ns, LookUp(ns, od, on).value.inode, nd))
  {
    var c := LookUp(ns, od, on).value;
    if c.typ == DT_DIRECTORY && Reaches(ns, c.inode, nd) {
      var ns' := Move(ns, od, on, nd, nn);
      var p :| Path(ns, p) && p[0] == c.inode && p[|p| - 1] == nd;
      PathSurvivesMove(ns, od, on, nd, nn, p);
      MoveLookUp(ns, od, on, nd, nn);
      assert BindingOk(ns, c);
      CloseCycle(ns', p, nn);
    } else {
      MoveGraph(ns, od, on, nd, nn);
    }
  }

  lemma CloseCycle(ns: Ns, p: seq<nat>, n: seq<byte>)
    requires Path(ns, p) && p[0] in ns.tree && Names(ns, (p[|p| - 1], n), p[0])
    ensures !Acyclic(ns)
  {
    var q := p + [p[0]];
    assert Edge(ns, p[|p| - 1], p[0]);
    forall i | 0 <= i < |q| - 1 ensures Edge(ns, q[i], q[i + 1]) {
      if i < |p| - 1 { assert Edge(ns, p[i], p[i + 1]); }
    }
    assert Path(ns, q);
  }
}
