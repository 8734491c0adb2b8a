/** Concrete runs from a new file system that show how two properties one might expect of a
    rename fail: link counts stop being exact, and a directory with a child is replaced. */
module WitnessRuns {
  import opened Bytes
  import opened Dirents
  import opened Slots
  import opened Namespace
  import opened MemState
  import opened MemRuns
  import opened ExactCounts
  import NamespaceOps

  const A: seq<byte> := [97]
  const B: seq<byte> := [98]
  const FILE_MODE := Mode(false, false, 0x1A4, 0)
  const DIR_MODE := Mode(true, false, 0x1ED, 0)

  /** A name of 4073 letters. */
  function LongName(): seq<byte> { seq(4073, _ => 97) }

  // ---------------------------------------------------------------- runs, one request at a time

  lemma {:induction false} RunSnoc(s: State, ops: seq<Op>, op: Op)
    requires Good(s, false) && LegalRun(s, ops)
    requires Shape(Run(s, ops)) && Legal(Run(s, ops), op)
    ensures LegalRun(s, ops + [op])
    ensures Run(s, ops + [op]) == Step(Run(s, ops), op).0
    ensures NeverReplaces(s, ops + [op]) <==> NeverReplaces(s, ops) && !Replaces(Run(s, ops), op)
    decreases |ops|
  {
    hide Shape, NamespaceOps.Inv, Step, Legal, Replaces, Abs;
    RunGood(s, false, ops);
    if ops == [] {
      assert ops + [op] == [op] && [op][1..] == [];
      StepGood(s, false, op);
    } else {
      StepGood(s, false, ops[0]);
      assert (ops + [op])[1..] == ops[1..] + [op];
      RunSnoc(Step(s, ops[0]).0, ops[1..], op);
    }
  }

  /** A run from the start, extended by one legal request. */
  lemma Extend(ops: seq<Op>, op: Op)
    requires LegalFromStart(ops) && Good(Reached(ops), false) && Legal(Reached(ops), op)
    ensures LegalFromStart(ops + [op])
    ensures Reached(ops + [op]) == Step(Reached(ops), op).0 && Good(Reached(ops + [op]), false)
    ensures NothingReplaced(ops + [op]) <==> NothingReplaced(ops) && !Replaces(Reached(ops), op)
  {
    InitGoodWeak();
    hide Shape, NamespaceOps.Inv, Step, Legal, Replaces, Abs;
    RunSnoc(Init(), ops, op);
    StepGood(Reached(ops), false, op);
  }

  /** A successful create, seen by looking names up. */
  lemma Created(s: State, op: Op)
    requires Good(s, false) && (op.MkDir? || op.CreateFile?) && Legal(s, op)
    requires LookUp(Abs(s), op.parent, op.name).None?
    ensures var (s', r) := Step(s, op);
            && Good(s', false) && r.Entry?
            && (forall d: nat, n {:trigger LookUp(Abs(s'), d, n)} ::
                  LookUp(Abs(s'), d, n) ==
                  if (d, n) == (op.parent, op.name)
                  then Some(Binding(r.child, if op.MkDir? then DT_DIRECTORY else DT_FILE))
                  else LookUp(Abs(s), d, n))
            && Abs(s').tree.Keys == Abs(s).tree.Keys + (if op.MkDir? then {r.child} else {})
  {
    StepGood(s, false, op);
    EmptyDir();
    var dt := if op.MkDir? then DT_DIRECTORY else DT_FILE;
    CreateChildAbs(s, op.parent, op.name, NewNode(op.name, op.mode, []), dt);
    AbsAt(s, op.parent);
    hide Shape, Abs, LookUp, NamespaceOps.Inv, CreateChild, Slots.Valid;
    NamespaceOps.CreateLookUp(Abs(s), op.parent, op.name, Step(s, op).1.child, dt);
  }

  /** The new file system is the lone root. */
  lemma AtStart()
    ensures LegalFromStart([]) && Good(Reached([]), false) && Reached([]) == Init()
    ensures NothingReplaced([])
    ensures Abs(Init()) == Ns(map[ROOT := map[]], map[ROOT := 0])
  {
    InitGoodWeak();
    InitAbs();
    hide Good, Abs;
  }

  lemma FirstInode(n: seq<byte>, mode: Mode)
    requires Shape(Init())
    ensures Step(Init(), Op.MkDir(ROOT, n, mode)).1.Entry? ==> Step(Init(), Op.MkDir(ROOT, n, mode)).1.child == 2
  {
  }

  lemma IsDirIff(s: State, d: nat)
    requires Shape(s)
    ensures IsDir(s, d) <==> d in Abs(s).tree
  {
    AbsAt(s, d);
  }

  // ---------------------------------------------------------------- inexact link counts

  function CountsRun(): seq<Op>
  {
    [Op.CreateFile(ROOT, A, FILE_MODE)] + [Op.CreateFile(ROOT, B, FILE_MODE)] + [Op.Rename(ROOT, A, ROOT, B)]
  }

  /** Create "a", create "b", rename "a" to "b": a legal run after which the count of the
      file that was "b" is too high. */
  lemma ReplacingMakesInexact()
    ensures LegalFromStart(CountsRun()) && Shape(Reached(CountsRun()))
    ensures !NothingReplaced(CountsRun()) && !Exact(Abs(Reached(CountsRun())))
  {
    hide Exact, Shape, NamespaceOps.Inv, Step, Abs, Law;
    AtStart();
    var (op1, op2) := (Op.CreateFile(ROOT, A, FILE_MODE), Op.CreateFile(ROOT, B, FILE_MODE));
    var s0 := Init();
    IsDirIff(s0, ROOT);
    Created(s0, op1);
    Extend([], op1);
    assert [] + [op1] == [op1];
    var s1 := Reached([op1]);
    IsDirIff(s1, ROOT);
    Created(s1, op2);
    Extend([op1], op2);
    var s2 := Reached([op1] + [op2]);
    IsDirIff(s2, ROOT);
    RenameToFile(s2, A, B);
    Extend([op1] + [op2], Op.Rename(ROOT, A, ROOT, B));
    CountsExactIff(CountsRun());
  }

  lemma RenameToFile(s: State, a: seq<byte>, b: seq<byte>)
    requires Good(s, false) && IsDir(s, ROOT) && a != [] && b != [] && a != b
    requires LookUp(Abs(s), ROOT, a).Some? && LookUp(Abs(s), ROOT, a).value.typ == DT_FILE
    requires LookUp(Abs(s), ROOT, b).Some? && LookUp(Abs(s), ROOT, b).value.typ == DT_FILE
    ensures Legal(s, Op.Rename(ROOT, a, ROOT, b)) && Replaces(s, Op.Rename(ROOT, a, ROOT, b))
  {
    var t := LookUp(Abs(s), ROOT, b).value.inode;
    NamedHasLink(Abs(s), false, ROOT, b);
    IsDirIff(s, t);
  }

  // ---------------------------------------------------------------- a directory lost

  function DirRun(): seq<Op>
  {
    [Op.MkDir(ROOT, A, DIR_MODE)] + [Op.CreateFile(2, LongName(), FILE_MODE)] + [Op.MkDir(ROOT, B, DIR_MODE)]
  }

  /** No path leads to the root. */
  lemma RootUnreached(ns: Ns, x: nat)
    requires WellFormed(ns) && Law(ns, false) && x != ROOT
    ensures !Reaches(ns, x, ROOT)
  {
    if Reaches(ns, x, ROOT) {
      var p :| Path(ns, p) && p[0] == x && p[|p| - 1] == ROOT;
      var i := |p| - 2;
      assert Edge(ns, p[i], p[i + 1]);
      NamedRoot(ns, p[i]);
    }
  }

  lemma NamedRoot(ns: Ns, d: nat)
    requires WellFormed(ns) && Law(ns, false)
    ensures !Edge(ns, d, ROOT)
  {
    if Edge(ns, d, ROOT) {
      var n :| Names(ns, (d, n), ROOT);
      NamedHasLink(ns, false, d, n);
    }
  }

  /** A directory whose only child has a long name looks empty to a 4096-byte read. */
  lemma LongOnlyLooksEmpty(es: seq<Dirent>)
    requires Slots.Valid(es) && Dir(es).Keys == {LongName()}
    ensures LooksEmpty(es)
  {
    hide LooksEmpty, UsedFrom, Dir;
    CountIsMapSize(es);
    RenameTestExact(es);
    UsedFromExact(es, 0);
    var us := UsedFrom(es, 0);
    assert us != [] by { assert Dir(es) != map[]; }
    assert us[0] in us;
    DirHas(es, us[0].offset - 1);
    assert us[0].name in Dir(es).Keys;
  }

  lemma OnlyChild(ns: Ns, d: nat, only: seq<byte>)
    requires d in ns.tree && forall n :: LookUp(ns, d, n).Some? <==> n == only
    ensures ns.tree[d].Keys == {only}
  {
    forall n ensures n in ns.tree[d] <==> n == only {
      assert LookUp(ns, d, n).Some? <==> n in ns.tree[d];
    }
  }

  lemma NotBlocked(s: State)
    requires Shape(s) && LookUp(Abs(s), ROOT, A) == Some(Binding(2, DT_DIRECTORY)) && 2 in Abs(s).tree
    requires forall n :: LookUp(Abs(s), 2, n).Some? <==> n == LongName()
    ensures !Blocked(s, ROOT, A)
  {
    OnlyChild(Abs(s), 2, LongName());
    AbsAt(s, 2);
    hide Shape, LookUp, Slots.Valid, Dir, LooksEmpty, LongName;
    LongOnlyLooksEmpty(Entries(s, 2));
  }

  /** A rename of "b" over a directory "a" whose only child has a long name. */
  lemma LongRename(s: State)
    requires Good(s, false) && IsDir(s, ROOT) && 2 in Abs(s).tree
    requires LookUp(Abs(s), ROOT, A) == Some(Binding(2, DT_DIRECTORY)) && LookUp(Abs(s), ROOT, B).Some?
    requires forall n :: LookUp(Abs(s), 2, n).Some? <==> n == LongName()
    ensures Legal(s, Op.Rename(ROOT, B, ROOT, A)) && Step(s, Op.Rename(ROOT, B, ROOT, A)).1 == Success
  {
    hide Shape, Abs, LookUp, Blocked, MemState.Rename, LongName, Reaches, WellFormed, Law, Acyclic;
    NotBlocked(s);
    NamedHasLink(Abs(s), false, ROOT, B);
    RootUnreached(Abs(s), LookUp(Abs(s), ROOT, B).value.inode);
    RenameAbs(s, ROOT, B, ROOT, A);
  }

  /** Make "a", create a file with a 4073-letter name in it, make "b", and rename "b" to "a":
      the rename goes through although "a" is not empty. */
  lemma RenameReplacesNonEmpty()
    ensures LegalFromStart(DirRun()) && Shape(Reached(DirRun())) && NulFree(LongName())
    ensures var (s, op) := (Reached(DirRun()), Op.Rename(ROOT, B, ROOT, A));
            && LookUp(Abs(s), ROOT, A) == Some(Binding(2, DT_DIRECTORY))
            && 2 in Abs(s).tree && LongName() in Abs(s).tree[2]
            && Legal(s, op) && Step(s, op).1 == Success
  {
    hide Shape, NamespaceOps.Inv, Step, Abs, Law, LongName;
    AtStart();
    var op1 := Op.MkDir(ROOT, A, DIR_MODE);
    var op2 := Op.CreateFile(2, LongName(), FILE_MODE);
    var op3 := Op.MkDir(ROOT, B, DIR_MODE);
    LongNameIs();
    IsDirIff(Init(), ROOT);
    Created(Init(), op1);
    FirstInode(A, DIR_MODE);
    Extend([], op1);
    assert [] + [op1] == [op1];
    var s1 := Reached([op1]);
    IsDirIff(s1, 2);
    Created(s1, op2);
    Extend([op1], op2);
    var s2 := Reached([op1] + [op2]);
    IsDirIff(s2, ROOT);
    Created(s2, op3);
    Extend([op1] + [op2], op3);
    var s3 := Reached(DirRun());
    IsDirIff(s3, ROOT);
    LongRename(s3);
    assert LookUp(Abs(s3), 2, LongName()).Some?;
  }

  lemma LongNameIs()
    ensures |LongName()| == 4073 && NulFree(LongName())
  {
  }
}
