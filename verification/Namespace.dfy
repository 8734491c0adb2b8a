/** The namespace of a memFS instance seen as a graph: which name in which
    directory leads to which inode, and the link count of every inode. */
module Namespace {
  import opened Bytes
  import opened Dirents
  import opened Slots

  const ROOT: nat := 1
  /** Link counts are `uint32`. */
  const LINK_WRAP: nat := 0x1_0000_0000

  /** `tree` has a binding map for each directory inode, `links` a count for each live inode. */
  datatype Ns = Ns(tree: map<nat, map<seq<byte>, Binding>>, links: map<nat, nat>)

  function LookUp(ns: Ns, d: nat, n: seq<byte>): Option<Binding>
  {
    if d in ns.tree && n in ns.tree[d] then Some(ns.tree[d][n]) else None
  }

  ghost predicate BindingOk(ns: Ns, b: Binding)
  {
    b.inode in ns.links && (b.typ == DT_DIRECTORY <==> b.inode in ns.tree)
  }

  /** Every binding leads to a live inode and is marked a directory iff that inode is one. */
  ghost predicate WellFormed(ns: Ns)
  {
    && ns.tree.Keys <= ns.links.Keys
    && forall d, n :: LookUp(ns, d, n).Some? ==> BindingOk(ns, LookUp(ns, d, n).value)
  }

  function BindAt(ns: Ns, d: nat, n: seq<byte>, b: Binding): Ns
    requires d in ns.tree
  {
    ns.(tree := ns.tree[d := ns.tree[d][n := b]])
  }

  function UnbindAt(ns: Ns, d: nat, n: seq<byte>): Ns
    requires d in ns.tree
  {
    ns.(tree := ns.tree[d := ns.tree[d] - {n}])
  }

  function SetLinks(ns: Ns, id: nat, k: nat): Ns { ns.(links := ns.links[id := k]) }

  function NewInode(ns: Ns, id: nat, dir: bool, k: nat): Ns
  {
    Ns(if dir then ns.tree[id := map[]] else ns.tree, ns.links[id := k])
  }

  lemma BindLookUp(ns: Ns, d: nat, n: seq<byte>, b: Binding)
    requires d in ns.tree
    ensures forall x: nat, m {:trigger LookUp(BindAt(ns, d, n, b), x, m)} ::
              LookUp(BindAt(ns, d, n, b), x, m) == if (x, m) == (d, n) then Some(b) else LookUp(ns, x, m)
    ensures BindAt(ns, d, n, b).tree.Keys == ns.tree.Keys
  {
  }

  lemma UnbindLookUp(ns: Ns, d: nat, n: seq<byte>)
    requires d in ns.tree
    ensures forall x: nat, m {:trigger LookUp(UnbindAt(ns, d, n), x, m)} ::
              LookUp(UnbindAt(ns, d, n), x, m) == if (x, m) == (d, n) then None else LookUp(ns, x, m)
    ensures UnbindAt(ns, d, n).tree.Keys == ns.tree.Keys
  {
  }

  lemma NewLookUp(ns: Ns, id: nat, dir: bool, k: nat)
    requires id !in ns.tree
    ensures forall x: nat, m {:trigger LookUp(NewInode(ns, id, dir, k), x, m)} ::
              LookUp(NewInode(ns, id, dir, k), x, m) == LookUp(ns, x, m)
  {
  }

  // ---------------------------------------------------------------- link counts

  /** Name `at.1` in directory `at.0` leads to inode `id`. */
  ghost predicate Names(ns: Ns, at: (nat, seq<byte>), id: nat)
  {
    LookUp(ns, at.0, at.1).Some? && LookUp(ns, at.0, at.1).value.inode == id
  }

  ghost predicate AreRefs(ns: Ns, id: nat, r: set<(nat, seq<byte>)>)
  {
    forall at :: at in r <==> Names(ns, at, id)
  }

  lemma RefsExist(ns: Ns, id: nat)
    ensures exists r :: AreRefs(ns, id, r)
  {
    var r := set d, n | d in ns.tree && n in ns.tree[d] && ns.tree[d][n].inode == id :: (d, n);
    assert forall at :: Names(ns, at, id) ==> (at.0, at.1) in r;
    assert AreRefs(ns, id, r);
  }

  /** The places, over all directories, that name inode `id`. */
  ghost function Refs(ns: Ns, id: nat): (r: set<(nat, seq<byte>)>)
    ensures AreRefs(ns, id, r)
  {
    RefsExist(ns, id);
    var r :| AreRefs(ns, id, r);
    r
  }

  /** How often each live inode is named, over all directories. */
  ghost function Counts(ns: Ns): map<nat, nat>
  {
    map id | id in ns.links :: |Refs(ns, id)|
  }

  ghost predicate CountsFit(counts: map<nat, nat>, links: map<nat, nat>, dirs: set<nat>, exact: bool)
  {
    && counts.Keys == links.Keys
    && (forall id :: id in links ==> counts[id] <= links[id] < LINK_WRAP)
    && (exact ==> counts == links)
    && (forall d :: d in dirs && d in links ==> links[d] <= 1)
    && ROOT in links && links[ROOT] == 0
  }

  /** The link-count law: an inode is named at most as often as its count says, exactly
      as often if `exact`; directories have a count of at most one, and the root zero. */
  ghost predicate Law(ns: Ns, exact: bool)
  {
    CountsFit(Counts(ns), ns.links, ns.tree.Keys, exact)
  }

  lemma RefsAfterBind(ns: Ns, d: nat, n: seq<byte>, b: Binding, id: nat)
    requires d in ns.tree && LookUp(ns, d, n).None?
    ensures |Refs(BindAt(ns, d, n, b), id)| == |Refs(ns, id)| + (if b.inode == id then 1 else 0)
  {
    BindLookUp(ns, d, n, b);
    assert (d, n) !in Refs(ns, id);
    if b.inode == id {
      assert Refs(BindAt(ns, d, n, b), id) == Refs(ns, id) + {(d, n)};
    } else {
      assert Refs(BindAt(ns, d, n, b), id) == Refs(ns, id);
    }
  }

  lemma RefsAfterUnbind(ns: Ns, d: nat, n: seq<byte>, id: nat)
    requires LookUp(ns, d, n).Some?
    ensures |Refs(UnbindAt(ns, d, n), id)| ==
            |Refs(ns, id)| - (if LookUp(ns, d, n).value.inode == id then 1 else 0)
  {
    UnbindLookUp(ns, d, n);
    assert (d, n) in Refs(ns, id) <==> LookUp(ns, d, n).value.inode == id;
    assert Refs(UnbindAt(ns, d, n), id) == Refs(ns, id) - {(d, n)};
  }

  lemma RefsAfterNew(ns: Ns, id: nat, dir: bool, k: nat, x: nat)
    requires WellFormed(ns) && id !in ns.links
    ensures Refs(NewInode(ns, id, dir, k), x) == Refs(ns, x)
    ensures Refs(ns, id) == {}
  {
    NewLookUp(ns, id, dir, k);
    assert forall at :: at !in Refs(ns, id);
  }

  lemma RefsIgnoreLinks(ns: Ns, id: nat, k: nat, x: nat)
    ensures Refs(SetLinks(ns, id, k), x) == Refs(ns, x)
  {
    assert forall d, n :: LookUp(SetLinks(ns, id, k), d, n) == LookUp(ns, d, n);
  }

  /** Consequences of the law for names: a looked-up child has a positive count, so
      decrementing it cannot wrap, and is not the root. */
  lemma NamedHasLink(ns: Ns, exact: bool, d: nat, n: seq<byte>)
    requires WellFormed(ns) && Law(ns, exact) && LookUp(ns, d, n).Some?
    ensures BindingOk(ns, LookUp(ns, d, n).value)
    ensures ns.links[LookUp(ns, d, n).value.inode] >= 1
    ensures LookUp(ns, d, n).value.inode != ROOT
  {
    var id := LookUp(ns, d, n).value.inode;
    assert Names(ns, (d, n), id);
    assert (d, n) in Refs(ns, id);
    assert BindingOk(ns, LookUp(ns, d, n).value);
    assert Counts(ns)[id] == |Refs(ns, id)|;
  }

  /** An inode whose count is zero cannot be reached by any name. */
  lemma ZeroLinksUnreachable(ns: Ns, exact: bool, id: nat)
    requires Law(ns, exact) && id in ns.links && ns.links[id] == 0
    ensures forall at :: !Names(ns, at, id)
  {
    assert Counts(ns)[id] == |Refs(ns, id)|;
    forall at ensures !Names(ns, at, id) { assert at !in Refs(ns, id); }
  }

  // ---------------------------------------------------------------- directory graph

  /** Directory `a` has an entry for directory `b`. */
  ghost predicate Edge(ns: Ns, a: nat, b: nat)
  {
    b in ns.tree && exists n :: Names(ns, (a, n), b)
  }

  ghost predicate Path(ns: Ns, p: seq<nat>)
  {
    |p| > 0 && forall i :: 0 <= i < |p| - 1 ==> Edge(ns, p[i], p[i + 1])
  }

  /** Directory `b` is `a` or lies somewhere below it. */
  ghost predicate Reaches(ns: Ns, a: nat, b: nat)
  {
    exists p :: Path(ns, p) && p[0] == a && p[|p| - 1] == b
  }

  ghost predicate Acyclic(ns: Ns)
  {
    forall p :: Path(ns, p) && |p| >= 2 ==> p[0] != p[|p| - 1]
  }

  /** The directories form a forest: no cycle, and one parent entry at most. */
  ghost predicate Forest(ns: Ns)
  {
    && Acyclic(ns)
    && forall d, at, at' :: d in ns.tree && Names(ns, at, d) && Names(ns, at', d) ==> at == at'
  }

  lemma LawGivesOneParent(ns: Ns, exact: bool)
    requires WellFormed(ns) && Law(ns, exact) && Acyclic(ns)
    ensures Forest(ns)
  {
    forall d, at, at' | d in ns.tree && Names(ns, at, d) && Names(ns, at', d)
      ensures at == at'
    {
      assert Counts(ns)[d] == |Refs(ns, d)|;
      assert {at, at'} <= Refs(ns, d);
      if at != at' {
        assert |{at, at'}| == 2;
        SubsetSize({at, at'}, Refs(ns, d));
      }
    }
  }

  lemma {:induction false} SubsetSize<T>(a: set<T>, b: set<T>)
    requires a <= b
    ensures |a| <= |b|
  {
    assert b == a + (b - a);
  }

  lemma FewerEdgesAcyclic(ns: Ns, ns': Ns)
    requires Acyclic(ns)
    requires forall x, y :: Edge(ns', x, y) ==> Edge(ns, x, y)
    ensures Acyclic(ns')
  {
    forall p | Path(ns', p) && |p| >= 2 ensures p[0] != p[|p| - 1] {
      assert Path(ns, p);
    }
  }

  /** `ns'` has the edges of `ns` and at most `a -> b` besides. */
  ghost predicate OneMoreEdge(ns: Ns, ns': Ns, a: nat, b: nat)
  {
    forall x, y :: Edge(ns', x, y) ==> Edge(ns, x, y) || (x == a && y == b)
  }

  /** A path from `b` to `a` after the edge `a -> b` was added existed before. */
  lemma {:induction false} PathWithoutNewEdge(ns: Ns, ns': Ns, a: nat, b: nat, p: seq<nat>)
    requires OneMoreEdge(ns, ns', a, b)
    requires Path(ns', p) && p[0] == b && p[|p| - 1] == a
    ensures Reaches(ns, b, a)
    decreases |p|
  {
    if i :| 0 <= i < |p| - 1 && !Edge(ns, p[i], p[i + 1]) {
      var q := p[..i + 1];
      assert Path(ns', q) && q[|q| - 1] == p[i] == a;
      PathWithoutNewEdge(ns, ns', a, b, q);
    } else {
      assert Path(ns, p);
    }
  }

  /** A closed path that uses the edge at `i` can be walked from the far end of that edge. */
  lemma Rotate(ns: Ns, p: seq<nat>, i: nat) returns (q: seq<nat>)
    requires Path(ns, p) && i < |p| - 1 && p[0] == p[|p| - 1]
    ensures Path(ns, q) && q[0] == p[i + 1] && q[|q| - 1] == p[i]
  {
    var m := |p| - (i + 1);
    q := p[i + 1..] + p[1..i + 1];
    forall k | 0 <= k < |q| - 1 ensures Edge(ns, q[k], q[k + 1]) {
      var j := if k < m then i + 1 + k else 1 + (k - m);
      if k == m - 1 {
        assert q[k] == p[0] && q[k + 1] == p[0 + 1];
      } else {
        assert q[k] == p[j] && q[k + 1] == p[j + 1];
      }
    }
  }

  /** Hanging `b` under `a` makes no cycle when `a` is not `b` or below it. */
  lemma OneMoreEdgeAcyclic(ns: Ns, ns': Ns, a: nat, b: nat)
    requires Acyclic(ns) && OneMoreEdge(ns, ns', a, b) && !Reaches(ns, b, a)
    ensures Acyclic(ns')
  {
    forall p | Path(ns', p) && |p| >= 2 ensures p[0] != p[|p| - 1] {
      if p[0] == p[|p| - 1] {
        if i :| 0 <= i < |p| - 1 && !Edge(ns, p[i], p[i + 1]) {
          var q := Rotate(ns', p, i);
          PathWithoutNewEdge(ns, ns', a, b, q);
        } else {
          assert Path(ns, p);
        }
      }
    }
  }
}
