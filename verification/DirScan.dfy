/** A directory scan: the kernel reads a directory in several ReadDir calls while
    other requests change the file system in between. */
module DirScan {
  import opened Bytes
  import opened Dirents
  import opened Slots
  import opened MemState
  import opened MemRuns
  import opened Namespace
  import NamespaceOps

  /** Either some request is handled, or the scan issues a ReadDir with a buffer of
      `size` bytes and consumes the first `take` entries of the answer. */
  datatype Event = Request(op: Op) | Read(size: nat, take: nat)

  /** The file system, the offset at which the scan resumes, and what it has consumed. */
  datatype Scan = Scan(fs: State, cursor: nat, out: seq<Dirent>)

  /** The entries the kernel parses from the bytes of one ReadDir answer. */
  function Answer(fs: State, dir: nat, cursor: nat, size: nat): seq<Dirent>
  {
    Parse(EncodeAll(Fit(UsedFrom(Entries(fs, dir), cursor), size)))
  }

  function Consumed(sc: Scan, dir: nat, size: nat, take: nat): seq<Dirent>
  {
    var ds := Answer(sc.fs, dir, sc.cursor, size);
    if take <= |ds| then ds[..take] else ds
  }

  function After(dir: nat, sc: Scan, ev: Event): Scan
    requires Shape(sc.fs)
  {
    match ev
    case Request(op) => sc.(fs := Step(sc.fs, op).0)
    case Read(size, take) =>
      var ds := Consumed(sc, dir, size, take);
      if ds == [] then sc else sc.(cursor := ds[|ds| - 1].offset, out := sc.out + ds)
  }

  /** The request neither removes nor replaces `name` in `dir`. */
  predicate LeavesAlone(op: Op, dir: nat, name: seq<byte>)
  {
    match op
    case Unlink(p, n) => (p, n) != (dir, name)
    case RmDir(p, n) => (p, n) != (dir, name)
    case Rename(od, on, nd, nn) => (od, on) != (dir, name) && (nd, nn) != (dir, name)
    case _ => true
  }

  /** The request leaves `name` in `dir` where it is, because it concerns other names or
      because it fails. */
  predicate Spares(s: State, op: Op, dir: nat, name: seq<byte>)
    requires Shape(s)
  {
    LeavesAlone(op, dir, name) || Step(s, op).1.Error?
  }

  ghost predicate Allowed(dir: nat, name: seq<byte>, sc: Scan, ev: Event)
    requires Shape(sc.fs)
  {
    match ev
    case Request(op) => Legal(sc.fs, op) && Spares(sc.fs, op, dir, name)
    case Read(_, _) => forall e :: e in Entries(sc.fs, dir) ==> Encodable(e)
  }

  lemma AfterGood(dir: nat, name: seq<byte>, sc: Scan, ev: Event)
    requires Good(sc.fs, false) && Allowed(dir, name, sc, ev)
    ensures Good(After(dir, sc, ev).fs, false)
  {
    if ev.Request? { StepGood(sc.fs, false, ev.op); }
  }

  ghost predicate AllowedRun(dir: nat, name: seq<byte>, sc: Scan, evs: seq<Event>)
    requires Good(sc.fs, false)
    decreases |evs|
  {
    evs == [] ||
    (Allowed(dir, name, sc, evs[0])
     && (AfterGood(dir, name, sc, evs[0]); AllowedRun(dir, name, After(dir, sc, evs[0]), evs[1..])))
  }

  ghost function RunScan(dir: nat, name: seq<byte>, sc: Scan, evs: seq<Event>): Scan
    requires Good(sc.fs, false) && AllowedRun(dir, name, sc, evs)
    decreases |evs|
  {
    if evs == [] then sc else
    AfterGood(dir, name, sc, evs[0]);
    RunScan(dir, name, After(dir, sc, evs[0]), evs[1..])
  }

  /** A ReadDir at this point comes back empty although its buffer holds any entry left. */
  ghost predicate AtEnd(dir: nat, sc: Scan, size: nat)
  {
    var es := Entries(sc.fs, dir);
    && (forall i :: sc.cursor <= i < |es| && Used(es[i]) ==> RecordLen(es[i]) <= size)
    && Fit(UsedFrom(es, sc.cursor), size) == []
  }

  // ---------------------------------------------------------------- entries stay put

  /** The entry in slot `i` of `dir` is used and is still there in `s'`. */
  ghost predicate Survives(s: State, s': State, dir: nat, i: nat)
  {
    i < |Entries(s, dir)| && i < |Entries(s', dir)| && Entries(s', dir)[i] == Entries(s, dir)[i]
  }

  lemma AddSurvives(s: State, d: nat, id: nat, n: seq<byte>, dt: nat, dir: nat, i: nat)
    requires i < |Entries(s, dir)| && Used(Entries(s, dir)[i])
    ensures Survives(s, SetEntries(s, d, Add(Entries(s, d), id, n, dt)), dir, i)
  {
  }

  lemma RemoveSurvives(s: State, d: nat, n: seq<byte>, dir: nat, i: nat)
    requires i < |Entries(s, dir)| && (d != dir || Entries(s, dir)[i].name != n)
    ensures Survives(s, SetEntries(s, d, Remove(Entries(s, d), n)), dir, i)
  {
  }

  lemma NlinkSurvives(s: State, id: nat, k: nat, dir: nat, i: nat)
    requires i < |Entries(s, dir)|
    ensures Survives(s, SetNlink(s, id, k), dir, i)
  {
  }

  lemma AllocSurvives(s: State, n: Node, dir: nat, i: nat)
    requires Shape(s) && n.Ok() && i < |Entries(s, dir)|
    ensures Survives(s, Alloc(s, n).0, dir, i)
  {
    AllocShape(s, n);
    hide Alloc, Shape;
  }

  lemma NodeOpSurvives(s: State, op: Op, dir: nat, i: nat)
    requires Shape(s) && IsNodeOp(op) && i < |Entries(s, dir)|
    ensures Survives(s, Step(s, op).0, dir, i)
  {
    if Live(s, op.inode) {
      NodeAfterEntries(s.inodes[op.inode].value, op);
      hide NodeReply, NodeAfter, Shape;
    }
  }

  lemma NodeAfterEntries(n: Node, op: Op)
    ensures NodeAfter(n, op).entries == n.entries
  {
  }

  lemma CreateSurvives(s: State, p: nat, n: seq<byte>, node: Node, dt: nat, dir: nat, i: nat)
    requires Shape(s) && node.Ok() && i < |Entries(s, dir)| && Used(Entries(s, dir)[i])
    ensures Survives(s, CreateChild(s, p, n, node, dt).0, dir, i)
  {
    AllocSurvives(s, node, dir, i);
    hide Shape;
    var (s1, id) := Alloc(s, node);
    AddSurvives(s1, p, id, n, dt, dir, i);
  }

  lemma RenameSurvives(s: State, op: Op, dir: nat, i: nat)
    requires Shape(s) && op.Rename? && i < |Entries(s, dir)| && Used(Entries(s, dir)[i])
    requires LeavesAlone(op, dir, Entries(s, dir)[i].name)
    ensures Survives(s, Step(s, op).0, dir, i)
  {
    var (od, on, nd, nn) := (op.oldParent, op.oldName, op.newParent, op.newName);
    if Step(s, op).1.Success? {
      var c := Entries(s, od)[Find(Entries(s, od), on).value];
      var s1 := s;
      if Find(Entries(s, nd), nn).Some? {
        RemoveSurvives(s, nd, nn, dir, i);
        s1 := SetEntries(s, nd, Remove(Entries(s, nd), nn));
      }
      AddSurvives(s1, nd, c.inode, nn, c.typ, dir, i);
      var s2 := SetEntries(s1, nd, Add(Entries(s1, nd), c.inode, nn, c.typ));
      RemoveSurvives(s2, od, on, dir, i);
    }
  }

  /** Surviving slots never move: whatever the request, an entry it does not remove
      or replace stays in its slot, and so does every entry if the request fails. */
  lemma StepSurvives(s: State, op: Op, dir: nat, i: nat)
    requires Shape(s) && Legal(s, op) && i < |Entries(s, dir)| && Used(Entries(s, dir)[i])
    requires Spares(s, op, dir, Entries(s, dir)[i].name)
    ensures Survives(s, Step(s, op).0, dir, i)
  {
    if LeavesAlone(op, dir, Entries(s, dir)[i].name) {
      SparedSurvives(s, op, dir, i);
    } else {
      hide Shape, Legal, Step, Entries;
      FailureChangesNothing(s, op);
    }
  }

  lemma SparedSurvives(s: State, op: Op, dir: nat, i: nat)
    requires Shape(s) && Legal(s, op) && i < |Entries(s, dir)| && Used(Entries(s, dir)[i])
    requires LeavesAlone(op, dir, Entries(s, dir)[i].name)
    ensures Survives(s, Step(s, op).0, dir, i)
  {
    EmptyDir();
    hide Slots.Valid, Shape, Entries, Survives, CreateChild, SetEntries, SetNlink, MemState.Rename;
    match op {
      case MkDir(p, n, m) => CreateSurvives(s, p, n, NewNode(n, m, []), DT_DIRECTORY, dir, i);
      case CreateFile(p, n, m) => CreateSurvives(s, p, n, NewNode(n, m, []), DT_FILE, dir, i);
      case CreateSymlink(p, n, t) => CreateSurvives(s, p, n, NewNode(n, SYMLINK_MODE, t), DT_LINK, dir, i);
      case CreateLink(p, n, t) => LinkSurvives(s, p, n, t, dir, i);
      case Rename(_, _, _, _) => RenameSurvives(s, op, dir, i);
      case RmDir(p, n) => DeleteSurvives(s, p, n, true, dir, i);
      case Unlink(p, n) => DeleteSurvives(s, p, n, false, dir, i);
      case _ => NodeOpSurvives(s, op, dir, i);
    }
  }

  lemma LinkSurvives(s: State, p: nat, n: seq<byte>, t: nat, dir: nat, i: nat)
    requires i < |Entries(s, dir)| && Used(Entries(s, dir)[i])
    ensures Survives(s, MemState.CreateLink(s, p, n, t).0, dir, i)
  {
    var k := (Nlink(s, t) + 1) % LINK_WRAP;
    NlinkSurvives(s, t, k, dir, i);
    AddSurvives(SetNlink(s, t, k), p, t, n, DT_FILE, dir, i);
  }

  lemma DeleteSurvives(s: State, p: nat, n: seq<byte>, rmdir: bool, dir: nat, i: nat)
    requires i < |Entries(s, dir)| && (p != dir || Entries(s, dir)[i].name != n)
    ensures Survives(s, RemoveName(s, p, n, rmdir).0, dir, i)
  {
    RemoveSurvives(s, p, n, dir, i);
    var s1 := SetEntries(s, p, Remove(Entries(s, p), n));
    if Find(Entries(s, p), n).Some? {
      var id := Entries(s, p)[Find(Entries(s, p), n).value].inode;
      NlinkSurvives(s1, id, NamespaceOps.Decrement(Nlink(s1, id)), dir, i);
    }
  }

  // ---------------------------------------------------------------- counting deliveries

  /** How often `name` occurs in a listing. */
  function Times(ds: seq<Dirent>, name: seq<byte>): nat
  {
    if ds == [] then 0 else (if ds[0].name == name then 1 else 0) + Times(ds[1..], name)
  }

  lemma {:induction false} TimesConcat(a: seq<Dirent>, b: seq<Dirent>, name: seq<byte>)
    ensures Times(a + b, name) == Times(a, name) + Times(b, name)
  {
    if a == [] {
      assert a + b == b;
    } else {
      assert (a + b)[1..] == a[1..] + b;
      TimesConcat(a[1..], b, name);
    }
  }

  lemma {:induction false} TimesNone(ds: seq<Dirent>, name: seq<byte>)
    requires forall e :: e in ds ==> e.name != name
    ensures Times(ds, name) == 0
  {
    if ds != [] { TimesNone(ds[1..], name); }
  }

  lemma TimesOnce(ds: seq<Dirent>, name: seq<byte>, m: nat)
    requires m < |ds| && ds[m].name == name
    requires forall j :: 0 <= j < |ds| && j != m ==> ds[j].name != name
    ensures Times(ds, name) == 1
  {
    assert ds == ds[..m] + ([ds[m]] + ds[m + 1..]);
    TimesNone(ds[..m], name);
    TimesNone(ds[m + 1..], name);
    TimesConcat(ds[..m], [ds[m]] + ds[m + 1..], name);
    TimesConcat([ds[m]], ds[m + 1..], name);
    assert Times([ds[m]], name) == 1 + Times([], name);
  }

  lemma PrefixHas(us: seq<Dirent>, k: nat, e: Dirent)
    requires Increasing(us) && 0 < k <= |us| && e in us && e.offset <= us[k - 1].offset
    requires forall d :: d in us && d.name == e.name ==> d == e
    ensures e in us[..k] && Times(us[..k], e.name) == 1
  {
    hide Times;
    var m :| 0 <= m < |us| && us[m] == e;
    IndexByOffset(us, k - 1, m);
    assert us[..k][m] == e;
    forall j | 0 <= j < k && j != m ensures us[..k][j].name != e.name {
      assert us[j] in us;
    }
    TimesOnce(us[..k], e.name, m);
  }

  lemma PrefixLacks(us: seq<Dirent>, k: nat, e: Dirent)
    requires Increasing(us) && 0 < k <= |us| && (e !in us || us[k - 1].offset < e.offset)
    requires forall d :: d in us && d.name == e.name ==> d == e
    ensures Times(us[..k], e.name) == 0
  {
    hide Times;
    forall j | 0 <= j < k ensures us[j].name != e.name {
      assert us[j] in us;
      assert us[j].offset <= us[k - 1].offset;
    }
    TimesNone(us[..k], e.name);
  }

  /** A prefix of the used entries from `c` on: it holds the name in slot `i` exactly once
      if its last offset is past that slot, and not at all otherwise. */
  lemma PrefixCounts(es: seq<Dirent>, c: nat, p: seq<Dirent>, i: nat)
    requires Slots.Valid(es) && i < |es| && Used(es[i])
    requires p <= UsedFrom(es, c) && p != []
    ensures c < p[|p| - 1].offset
    ensures Times(p, es[i].name) == if c <= i < p[|p| - 1].offset then 1 else 0
    ensures c <= i < p[|p| - 1].offset ==> es[i] in p
  {
    var us := UsedFrom(es, c);
    UsedFromExact(es, c);
    assert SlotOk(es[i], i);
    hide UsedFrom, Times;
    forall d | d in us && d.name == es[i].name ensures d == es[i] { SameName(es, i, d); }
    hide Slots.Valid;
    assert p == us[..|p|] && us[|p| - 1] in us;
    if c <= i < p[|p| - 1].offset {
      PrefixHas(us, |p|, es[i]);
    } else {
      PrefixLacks(us, |p|, es[i]);
    }
  }

  lemma IndexByOffset(us: seq<Dirent>, j: nat, m: nat)
    requires Increasing(us) && j < |us| && m < |us| && us[m].offset <= us[j].offset
    ensures m <= j
  {
  }

  /** Used entries with the same name are the same entry. */
  lemma SameName(es: seq<Dirent>, i: nat, d: Dirent)
    requires Slots.Valid(es) && i < |es| && Used(es[i])
    requires Used(d) && 0 < d.offset <= |es| && es[d.offset - 1] == d && d.name == es[i].name
    ensures d == es[i]
  {
  }

  // ---------------------------------------------------------------- the scan

  /** The state of a scan with respect to the entry `e`, in slot `i` all along: its name
      has been consumed once if the cursor is past the slot, and not yet otherwise. */
  ghost predicate Tracks(sc: Scan, dir: nat, i: nat, e: Dirent)
  {
    && i < |Entries(sc.fs, dir)| && Entries(sc.fs, dir)[i] == e && Used(e)
    && Times(sc.out, e.name) == (if i < sc.cursor then 1 else 0)
    && (i < sc.cursor ==> e in sc.out)
  }

  lemma AnswerIsPrefix(sc: Scan, dir: nat, size: nat, take: nat)
    requires Slots.Valid(Entries(sc.fs, dir))
    requires forall e :: e in Entries(sc.fs, dir) ==> Encodable(e)
    ensures Answer(sc.fs, dir, sc.cursor, size) == Fit(UsedFrom(Entries(sc.fs, dir), sc.cursor), size)
    ensures Consumed(sc, dir, size, take) <= UsedFrom(Entries(sc.fs, dir), sc.cursor)
  {
    hide Fit, UsedFrom, Entries, Slots.Valid, Encodable, Parse, EncodeAll;
    var es := Entries(sc.fs, dir);
    FittingEncodable(es, sc.cursor, size);
    ParseInvertsEncodeAll(Fit(UsedFrom(es, sc.cursor), size));
  }

  lemma FittingEncodable(es: seq<Dirent>, cursor: nat, size: nat)
    requires Slots.Valid(es) && forall e :: e in es ==> Encodable(e)
    ensures Fit(UsedFrom(es, cursor), size) <= UsedFrom(es, cursor)
    ensures forall e :: e in Fit(UsedFrom(es, cursor), size) ==> Encodable(e)
  {
    hide Fit, UsedFrom, Slots.Valid, Encodable;
    var us := UsedFrom(es, cursor);
    UsedFromExact(es, cursor);
    FitIsLongest(us, size);
    forall e | e in Fit(us, size) ensures Encodable(e) {
      var i :| 0 <= i < |Fit(us, size)| && Fit(us, size)[i] == e;
      assert us[i] == e && es[e.offset - 1] == e;
    }
  }

  lemma ConsumeTracks(sc: Scan, dir: nat, ds: seq<Dirent>, i: nat, e: Dirent)
    requires Tracks(sc, dir, i, e) && Slots.Valid(Entries(sc.fs, dir))
    requires ds != [] && ds <= UsedFrom(Entries(sc.fs, dir), sc.cursor)
    ensures Tracks(sc.(cursor := ds[|ds| - 1].offset, out := sc.out + ds), dir, i, e)
  {
    hide Entries, Slots.Valid, UsedFrom, Times;
    PrefixCounts(Entries(sc.fs, dir), sc.cursor, ds, i);
    TimesConcat(sc.out, ds, e.name);
  }

  lemma ReadTracks(dir: nat, name: seq<byte>, sc: Scan, ev: Event, i: nat, e: Dirent)
    requires Good(sc.fs, false) && ev.Read? && Allowed(dir, name, sc, ev)
    requires Tracks(sc, dir, i, e)
    ensures Tracks(After(dir, sc, ev), dir, i, e)
  {
    AbsAt(sc.fs, dir);
    hide Good, Shape, Entries, Slots.Valid, Consumed, UsedFrom, Tracks;
    AnswerIsPrefix(sc, dir, ev.size, ev.take);
    var ds := Consumed(sc, dir, ev.size, ev.take);
    if ds != [] { ConsumeTracks(sc, dir, ds, i, e); }
  }

  lemma RequestTracks(dir: nat, name: seq<byte>, sc: Scan, ev: Event, i: nat, e: Dirent)
    requires Good(sc.fs, false) && ev.Request? && Allowed(dir, name, sc, ev)
    requires Tracks(sc, dir, i, e) && e.name == name
    ensures Tracks(After(dir, sc, ev), dir, i, e)
  {
    hide Shape, Legal, Step, Entries, Times;
    StepSurvives(sc.fs, ev.op, dir, i);
  }

  lemma {:induction false} RunTracks(dir: nat, name: seq<byte>, sc: Scan, evs: seq<Event>, i: nat, e: Dirent)
    requires Good(sc.fs, false) && AllowedRun(dir, name, sc, evs)
    requires Tracks(sc, dir, i, e) && e.name == name
    ensures Tracks(RunScan(dir, name, sc, evs), dir, i, e)
    decreases |evs|
  {
    if evs != [] {
      hide Good, Tracks, After, Allowed, Shape;
      AfterGood(dir, name, sc, evs[0]);
      if evs[0].Read? {
        ReadTracks(dir, name, sc, evs[0], i, e);
      } else {
        RequestTracks(dir, name, sc, evs[0], i, e);
      }
      RunTracks(dir, name, After(dir, sc, evs[0]), evs[1..], i, e);
    }
  }

  lemma RunKeepsGood(dir: nat, name: seq<byte>, sc: Scan, evs: seq<Event>)
    requires Good(sc.fs, false) && AllowedRun(dir, name, sc, evs)
    ensures Good(RunScan(dir, name, sc, evs).fs, false)
    decreases |evs|
  {
    if evs != [] {
      AfterGood(dir, name, sc, evs[0]);
      RunKeepsGood(dir, name, After(dir, sc, evs[0]), evs[1..]);
    }
  }

  lemma EndIsPastSlot(dir: nat, sc: Scan, size: nat, i: nat, e: Dirent)
    requires Good(sc.fs, false) && Tracks(sc, dir, i, e) && AtEnd(dir, sc, size)
    ensures i < sc.cursor
  {
    AbsAt(sc.fs, dir);
    hide Good, Slots.Valid, Entries, Times, UsedFrom;
    ZeroReadIsEnd(Entries(sc.fs, dir), sc.cursor, size);
  }

  lemma BoundSlot(fs: State, dir: nat, name: seq<byte>) returns (i: nat, e: Dirent)
    requires Good(fs, false) && name != [] && LookUp(Abs(fs), dir, name).Some?
    ensures i < |Entries(fs, dir)| && Entries(fs, dir)[i] == e && Used(e) && e.name == name
    ensures LookUp(Abs(fs), dir, name) == Some(Binding(e.inode, e.typ))
  {
    AbsAt(fs, dir);
    EntriesAbs(fs, dir, name);
    i := Find(Entries(fs, dir), name).value;
    e := Entries(fs, dir)[i];
  }

  lemma ScanTracks(dir: nat, name: seq<byte>, fs: State, evs: seq<Event>) returns (i: nat, e: Dirent)
    requires Good(fs, false) && name != [] && LookUp(Abs(fs), dir, name).Some?
    requires AllowedRun(dir, name, Scan(fs, 0, []), evs)
    ensures e.name == name && LookUp(Abs(fs), dir, name) == Some(Binding(e.inode, e.typ))
    ensures Tracks(RunScan(dir, name, Scan(fs, 0, []), evs), dir, i, e)
    ensures Good(RunScan(dir, name, Scan(fs, 0, []), evs).fs, false)
  {
    i, e := BoundSlot(fs, dir, name);
    assert Tracks(Scan(fs, 0, []), dir, i, e);
    hide *;
    RunTracks(dir, name, Scan(fs, 0, []), evs, i, e);
    RunKeepsGood(dir, name, Scan(fs, 0, []), evs);
  }

  /** The listing has an entry for `name` with the child and type of `b`. */
  ghost predicate Lists(out: seq<Dirent>, name: seq<byte>, b: Binding)
  {
    exists d :: d in out && d.name == name && b == Binding(d.inode, d.typ)
  }

  /** Main result: scan a directory from the start, with any requests handled between the
      reads. A name that no request removes or replaces is never delivered twice, and when
      the scan has reached the end it has been delivered exactly once, with the child and
      type it had all along. */
  lemma ScanDeliversOnce(dir: nat, name: seq<byte>, fs: State, evs: seq<Event>, size: nat)
    requires Good(fs, false) && name != [] && LookUp(Abs(fs), dir, name).Some?
    requires AllowedRun(dir, name, Scan(fs, 0, []), evs)
    ensures var sc := RunScan(dir, name, Scan(fs, 0, []), evs);
            && Times(sc.out, name) <= 1
            && (AtEnd(dir, sc, size) ==>
                Times(sc.out, name) == 1 && Lists(sc.out, name, LookUp(Abs(fs), dir, name).value))
  {
    hide Good, Abs, AllowedRun, RunScan, AtEnd, Times;
    var i, e := ScanTracks(dir, name, fs, evs);
    var sc := RunScan(dir, name, Scan(fs, 0, []), evs);
    if AtEnd(dir, sc, size) { EndIsPastSlot(dir, sc, size, i, e); }
  }
}
