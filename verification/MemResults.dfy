/** What single requests to memFS do, in terms of the fields of the request, and what follows
    for whole runs: the bytes of files created in them and the values of attributes. */
module MemResults {
  import opened Bytes
  import opened Dirents
  import opened Slots
  import opened FileData
  import opened Namespace
  import opened MemState
  import opened MemRuns

  /** No inode but `i` has changed. */
  ghost predicate Only(s: State, s': State, i: nat)
  {
    && s'.free == s.free && |s'.inodes| == |s.inodes|
    && forall j :: 0 <= j < |s.inodes| && j != i ==> s'.inodes[j] == s.inodes[j]
  }

  /** A new file system: one inode, number 1, which is an empty directory with permissions 0700
      and no name. */
  lemma NewFileSystem(i: nat)
    ensures Live(Init(), i) <==> i == 1
    ensures var n := Init().inodes[1].value;
            && n.attrs.mode == Mode(true, false, 0x1C0, 0) && n.attrs.nlink == 0 && n.attrs.size == 0
            && n.entries == [] && n.xattrs == map[] && Init().free == []
  {
    assert |Init().inodes| == 2 && Init().inodes[0].None?;
  }

  // ---------------------------------------------------------------- creation

  predicate Creates(op: Op) { op.MkDir? || op.CreateFile? || op.CreateSymlink? }

  /** A new inode as the request asks for it; symlinks have permissions 0444. */
  ghost predicate AsRequested(n: Node, op: Op)
    requires Creates(op)
  {
    && n.attrs.mode == (if op.CreateSymlink? then Mode(false, true, 0x124, 0) else op.mode)
    && n.attrs.nlink == 1 && n.attrs.size == 0 && n.name == op.name
    && n.entries == [] && n.contents == [] && n.xattrs == map[]
    && n.target == if op.CreateSymlink? then op.target else []
  }

  /** A creation fails with EEXIST iff the name is bound; otherwise the inode named in the
      answer is new and as requested, and the answer carries its attributes. */
  lemma CreatedAsRequested(s: State, op: Op)
    requires Shape(s) && Creates(op) && Legal(s, op)
    ensures var (s', r) := Step(s, op);
            if LookUp(Abs(s), op.parent, op.name).Some? then r == Error(EEXIST)
            else && r.Entry? && !Live(s, r.child) && Live(s', r.child)
                 && AsRequested(s'.inodes[r.child].value, op) && r.attrs == s'.inodes[r.child].value.attrs
  {
    EmptyDir();
    match op {
      case MkDir(p, n, m) => ChildIs(s, p, n, NewNode(n, m, []), DT_DIRECTORY);
      case CreateFile(p, n, m) => ChildIs(s, p, n, NewNode(n, m, []), DT_FILE);
      case CreateSymlink(p, n, t) => ChildIs(s, p, n, NewNode(n, SYMLINK_MODE, t), DT_LINK);
    }
    hide Shape, Abs, CreateChild, LookUp;
  }

  lemma ChildIs(s: State, parent: nat, name: seq<byte>, n: Node, dt: nat)
    requires Shape(s) && IsDir(s, parent) && name != [] && n.Ok()
    ensures var (s', r) := CreateChild(s, parent, name, n, dt);
            if LookUp(Abs(s), parent, name).Some? then r == Error(EEXIST)
            else r == Entry(r.child, n.attrs) && !Live(s, r.child) && Live(s', r.child)
                 && s'.inodes[r.child] == Some(n)
  {
    EntriesAbs(s, parent, name);
    AllocShape(s, n);
    hide Shape, Slots.Valid, FreeOk, Abs, Alloc, LookUp, Find;
  }

  // ---------------------------------------------------------------- reading files

  /** A read of a file that was empty at the start of a run: the bytes from the offset on, each
      the last one written there. */
  lemma ReadInEveryRun(s: State, ops: seq<Op>, i: nat, off: nat, cap: nat)
    requires Good(s, false) && LegalRun(s, ops) && Live(s, i) && s.inodes[i].value.contents == []
    ensures var h := FileOps(ops, i);
            && Live(Run(s, ops), i)
            && (var r := ReadBytes(Run(s, ops).inodes[i].value.contents, off, cap);
                var left := if off <= FileData.Size(h) then FileData.Size(h) - off else 0;
                && |r| == (if cap <= left then cap else left)
                && forall k :: 0 <= k < |r| ==> r[k] == LastWritten(h, off + k))
  {
    hide Good, LegalRun, Run, FileOps, LastWritten, FileData.Size, ReadBytes;
    FileBytesInEveryRun(s, ops, i);
    ReadFromOffset(Run(s, ops).inodes[i].value.contents, off, cap);
  }

  /** The same for a file created by a request, in the run that follows. */
  lemma ReadOfCreatedFile(s: State, op: Op, ops: seq<Op>, off: nat, cap: nat)
    requires Good(s, false) && op.CreateFile? && Legal(s, op) && Step(s, op).1.Entry?
    requires Good(Step(s, op).0, false) && LegalRun(Step(s, op).0, ops)
    ensures var (i, s') := (Step(s, op).1.child, Run(Step(s, op).0, ops));
            var h := FileOps(ops, i);
            && Live(s', i)
            && (var r := ReadBytes(s'.inodes[i].value.contents, off, cap);
                var left := if off <= FileData.Size(h) then FileData.Size(h) - off else 0;
                && |r| == (if cap <= left then cap else left)
                && forall k :: 0 <= k < |r| ==> r[k] == LastWritten(h, off + k))
  {
    GoodShape(s);
    CreatedAsRequested(s, op);
    hide Good, LegalRun, Run, FileOps, LastWritten, FileData.Size, ReadBytes, Step, Legal, Shape, LookUp;
    ReadInEveryRun(Step(s, op).0, ops, Step(s, op).1.child, off, cap);
  }

  // ---------------------------------------------------------------- requests on one inode

  /** SetAttributes answers EBADF iff it asks for a size other than zero without a handle, and
      success otherwise. In both cases size and permissions become those asked for, and
      nothing else changes. */
  lemma SetAttributesIs(s: State, op: Op)
    requires Shape(s) && op.SetAttributes? && Legal(s, op)
    ensures var (s', r) := Step(s, op);
            && (r == Error(EBADF) <==> op.size.Some? && op.size.value != 0 && !op.hasHandle)
            && (r == Error(EBADF) || r == Success)
            && Live(s', op.inode) && Only(s, s', op.inode)
            && (var (n, n') := (s.inodes[op.inode].value, s'.inodes[op.inode].value);
                && n'.attrs.size == (if op.size.Some? then op.size.value else n.attrs.size)
                && n'.attrs.mode.perm == (if op.perm.Some? then op.perm.value else n.attrs.mode.perm)
                && (op.size.None? ==> n'.contents == n.contents)
                && n'.attrs.mode == n.attrs.mode.(perm := n'.attrs.mode.perm) && n'.attrs.nlink == n.attrs.nlink
                && n' == n.(attrs := n'.attrs, contents := n'.contents))
  {
    assert s.inodes[op.inode].value.Ok();
    hide Slots.Valid, FreeOk;
  }

  /** Writing and fallocating change contents and size, and nothing else. */
  lemma WritesOnlyData(s: State, op: Op)
    requires Shape(s) && (op.WriteFile? || op.Fallocate?) && Legal(s, op)
    ensures var (s', r) := Step(s, op);
            && r == Success && Live(s', op.inode) && Only(s, s', op.inode)
            && (var (n, n') := (s.inodes[op.inode].value, s'.inodes[op.inode].value);
                && n'.attrs.size == |n'.contents|
                && n' == n.(attrs := n.attrs.(size := n'.attrs.size), contents := n'.contents))
  {
    hide Slots.Valid, FreeOk, Apply;
  }

  // ---------------------------------------------------------------- extended attributes

  /** The inode afterwards has this value for the attribute, and is otherwise as before. */
  ghost predicate OneAttribute(s: State, s': State, i: nat, attr: seq<byte>, value: Option<seq<byte>>)
    requires Live(s, i)
  {
    && Live(s', i) && Only(s, s', i)
    && ValueOf(s', i, attr) == value
    && (forall b :: b != attr ==> ValueOf(s', i, b) == ValueOf(s, i, b))
    && s'.inodes[i].value == s.inodes[i].value.(xattrs := s'.inodes[i].value.xattrs)
  }

  /** Setting an attribute: EEXIST iff it is only to be created (flag 1) and there already,
      ENOATTR iff it is only to be replaced (flag 2) and not there, and otherwise it has the
      value, and nothing else has changed. */
  lemma SetXattrIs(s: State, op: Op)
    requires Shape(s) && op.SetXattr? && Legal(s, op)
    ensures var ((s', r), before) := (Step(s, op), ValueOf(s, op.inode, op.attr));
            if op.flags == 1 && before.Some? then r == Error(EEXIST) && s' == s
            else if op.flags == 2 && before.None? then r == Error(ENOATTR) && s' == s
            else r == Success && OneAttribute(s, s', op.inode, op.attr, Some(op.value))
  {
    hide Slots.Valid, FreeOk;
    assert SetNode(s, op.inode, s.inodes[op.inode].value) == s;
  }

  /** Removing an attribute: ENOATTR iff it is not there, and otherwise it is gone, and nothing
      else has changed. */
  lemma RemoveXattrIs(s: State, op: Op)
    requires Shape(s) && op.RemoveXattr? && Legal(s, op)
    ensures var ((s', r), before) := (Step(s, op), ValueOf(s, op.inode, op.attr));
            if before.None? then r == Error(ENOATTR) && s' == s
            else r == Success && OneAttribute(s, s', op.inode, op.attr, None)
  {
    hide Slots.Valid, FreeOk;
    FailureChangesNothing(s, op);
  }

  /** The value of an attribute after a history of requests: the last one set and not removed
      since, where a set that its flag forbids does not count. */
  function LastSet(ops: seq<Op>, i: nat, attr: seq<byte>): Option<seq<byte>>
  {
    if ops == [] then None else
    var (op, before) := (ops[|ops| - 1], LastSet(ops[..|ops| - 1], i, attr));
    if op.SetXattr? && op.inode == i && op.attr == attr
       && !(op.flags == 1 && before.Some?) && !(op.flags == 2 && before.None?) then Some(op.value)
    else if op.RemoveXattr? && op.inode == i && op.attr == attr then None
    else before
  }

  /** One request changes the value of an attribute as the history says. */
  lemma StepAttribute(s: State, ops: seq<Op>, op: Op, i: nat, attr: seq<byte>)
    requires Shape(s) && Legal(s, op) && Live(s, i) && ValueOf(s, i, attr) == LastSet(ops, i, attr)
    ensures Live(Step(s, op).0, i)
    ensures ValueOf(Step(s, op).0, i, attr) == LastSet(ops + [op], i, attr)
  {
    assert (ops + [op])[..|ops|] == ops;
    hide Shape, Legal, Step;
    StepData(s, op, i);
    if op.SetXattr? && op.inode == i {
      SetXattrIs(s, op);
    } else if op.RemoveXattr? && op.inode == i {
      RemoveXattrIs(s, op);
    }
  }

  /** Main result: in every run an attribute that has what a history `past` says, which is no
      value at all if that is empty, has the last value set and not removed since. */
  lemma {:induction false} AttributeInEveryRun(s: State, past: seq<Op>, ops: seq<Op>, i: nat, attr: seq<byte>)
    requires Good(s, false) && LegalRun(s, ops) && Live(s, i) && ValueOf(s, i, attr) == LastSet(past, i, attr)
    ensures Live(Run(s, ops), i)
    ensures ValueOf(Run(s, ops), i, attr) == LastSet(past + ops, i, attr)
    decreases |ops|
  {
    hide Good, Legal, Step, LastSet, Shape, ValueOf;
    if ops == [] {
      assert past + ops == past;
    } else {
      GoodShape(s);
      StepGood(s, false, ops[0]);
      StepAttribute(s, past, ops[0], i, attr);
      AttributeInEveryRun(Step(s, ops[0]).0, past + [ops[0]], ops[1..], i, attr);
      assert past + [ops[0]] + ops[1..] == past + ops;
    }
  }
}
