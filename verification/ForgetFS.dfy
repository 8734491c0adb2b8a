/** forgetfs: a file system that does nothing but count lookups, and panics when a
    count goes wrong. */
module ForgetFS {
  import opened Bytes

  const ROOT: nat := 1
  const FOO: nat := 2
  const BAR: nat := 3
  const FIRST_FREE: nat := 4

  const FOO_NAME: seq<byte> := [102, 111, 111]
  const BAR_NAME: seq<byte> := [98, 97, 114]

  /** `lookedUp` says whether the count has ever been positive. */
  datatype Counter = Counter(count: nat, lookedUp: bool) {
    predicate Forgotten() { lookedUp && count == 0 }
  }

  datatype Server = Server(inodes: map<nat, Counter>, next: nat)

  function NewServer(): Server
  {
    Server(map[ROOT := Counter(1, true), FOO := Counter(1, true), BAR := Counter(1, true)], FIRST_FREE)
  }

  /** `findInodeByID` returns instead of panicking. */
  predicate Found(s: Server, id: nat) { id in s.inodes && !s.inodes[id].Forgotten() }

  function Increment(s: Server, id: nat): Server
    requires id in s.inodes
  {
    s.(inodes := s.inodes[id := Counter(s.inodes[id].count + 1, true)])
  }

  /** A request naming an inode. `Touch` stands for the requests that only check it. */
  datatype Request = LookUp(parent: nat, name: seq<byte>) | Create(parent: nat) | Touch(inode: nat)

  function Named(r: Request): nat
  {
    match r
    case LookUp(p, _) => p
    case Create(p) => p
    case Touch(id) => id
  }

  /** What a request does: the server afterwards and the child whose count the reply
      carries, if any. `None` where the source panics. */
  function Handle(s: Server, r: Request): Option<(Server, Option<nat>)>
  {
    if !Found(s, Named(r)) then None else
    match r
    case LookUp(p, name) =>
      var child := if p == ROOT && name == FOO_NAME then FOO else BAR;
      if p == ROOT && (name == FOO_NAME || name == BAR_NAME) then
        if Found(s, child) then Some((Increment(s, child), Some(child))) else None
      else Some((s, None))
    case Create(_) => Some((Server(s.inodes[s.next := Counter(1, true)], s.next + 1), Some(s.next)))
    case Touch(_) => Some((s, None))
  }

  /** Where names lead: in the root, inode 1, "foo" to inode 2 and "bar" to inode 3, and no
      other name anywhere to any inode. */
  lemma LookUpLeadsTo(s: Server, parent: nat, name: seq<byte>)
    requires Handle(s, LookUp(parent, name)).Some?
    ensures var child := Handle(s, LookUp(parent, name)).value.1;
            && (child == Some(2) <==> parent == 1 && name == [102, 111, 111])
            && (child == Some(3) <==> parent == 1 && name == [98, 97, 114])
            && (child.Some? ==> child == Some(2) || child == Some(3))
  {
    assert FOO_NAME[0] != BAR_NAME[0];
  }

  /** ForgetInode; `None` where the source panics. */
  function Forget(s: Server, id: nat, n: nat): Option<Server>
  {
    if !Found(s, id) || s.inodes[id].count < n then None
    else Some(s.(inodes := s.inodes[id := s.inodes[id].(count := s.inodes[id].count - n)]))
  }

  /** The file system as an object. A method's `ok` is false where the source panics. */
  class FileSystem {
    var inodes: map<nat, Counter>
    var nextInodeID: nat

    ghost function View(): Server
      reads this
    {
      Server(inodes, nextInodeID)
    }

    constructor ()
      ensures View() == NewServer()
    {
      inodes := map[ROOT := Counter(1, true), FOO := Counter(1, true), BAR := Counter(1, true)];
      nextInodeID := FIRST_FREE;
    }

    method FindInodeByID(id: nat) returns (ok: bool)
      ensures ok == Found(View(), id)
    {
      if id !in inodes {
        return false;
      }
      return !(inodes[id].lookedUp && inodes[id].count == 0);
    }

    method LookUpInode(parent: nat, name: seq<byte>) returns (child: Option<nat>, ok: bool)
      modifies this
      ensures ok == Handle(old(View()), LookUp(parent, name)).Some?
      ensures ok ==> (View(), child) == Handle(old(View()), LookUp(parent, name)).value
    {
      child := None;
      ok := FindInodeByID(parent);
      if !ok {
        return;
      }
      var childID;
      if parent == ROOT && name == FOO_NAME {
        childID := FOO;
      } else if parent == ROOT && name == BAR_NAME {
        childID := BAR;
      } else {
        return;
      }
      ok := FindInodeByID(childID);
      if ok {
        inodes := inodes[childID := Counter(inodes[childID].count + 1, true)];
        child := Some(childID);
      }
    }

    /** MkDir and CreateFile. */
    method CreateChild(parent: nat) returns (child: Option<nat>, ok: bool)
      modifies this
      ensures ok == Handle(old(View()), Create(parent)).Some?
      ensures ok ==> (View(), child) == Handle(old(View()), Create(parent)).value
    {
      child := None;
      ok := FindInodeByID(parent);
      if ok {
        child := Some(nextInodeID);
        inodes := inodes[nextInodeID := Counter(1, true)];
        nextInodeID := nextInodeID + 1;
      }
    }

    method ForgetInode(id: nat, n: nat) returns (ok: bool)
      modifies this
      ensures ok == Forget(old(View()), id, n).Some?
      ensures View() == if ok then Forget(old(View()), id, n).value else old(View())
    {
      ok := FindInodeByID(id);
      if !ok {
        return;
      }
      if inodes[id].count < n {
        return false;
      }
      inodes := inodes[id := inodes[id].(count := inodes[id].count - n)];
    }

    /** The fallback for a batch: one forget after the other. */
    method BatchForget(entries: seq<(nat, nat)>) returns (ok: bool)
      modifies this
      ensures ok == ForgetAll(old(View()), entries).Some?
      ensures ok ==> View() == ForgetAll(old(View()), entries).value
    {
      for i := 0 to |entries|
        invariant ForgetAll(View(), entries[i..]) == ForgetAll(old(View()), entries)
      {
        assert entries[i..][1..] == entries[i + 1..];
        ok := ForgetInode(entries[i].0, entries[i].1);
        if !ok {
          return;
        }
      }
      return true;
    }

    /** Bring every count to zero; afterwards `Check` finds nothing to complain about. */
    method Destroy()
      modifies this
      ensures inodes.Keys == old(inodes).Keys && CheckPasses(View())
    {
      var left := inodes.Keys;
      while left != {}
        invariant inodes.Keys == old(inodes).Keys && left <= inodes.Keys
        invariant forall k :: k in inodes && k !in left ==> inodes[k].count == 0
        decreases left
      {
        var k :| k in left;
        inodes := inodes[k := inodes[k].(count := 0)];
        left := left - {k};
      }
    }
  }

  predicate CheckPasses(s: Server) { forall k :: k in s.inodes ==> s.inodes[k].count == 0 }

  /** A batch, handled entry by entry. */
  function ForgetAll(s: Server, entries: seq<(nat, nat)>): Option<Server>
    decreases |entries|
  {
    if entries == [] then Some(s) else
    match Forget(s, entries[0].0, entries[0].1)
    case None => None
    case Some(s') => ForgetAll(s', entries[1..])
  }

  // ---------------------------------------------------------------- the protocol

  /** The kernel, the server and what is in transit between them. `forgets` holds forget
      messages, each a list of entries not yet processed: one entry for a plain forget,
      any number for a batch. */
  datatype World = World(server: Server, kernel: map<nat, nat>, requests: seq<Request>,
                         replies: multiset<nat>, forgets: seq<seq<(nat, nat)>>)

  function Held(w: World, id: nat): nat { if id in w.kernel then w.kernel[id] else 0 }

  /** The kernel starts out with a count on the root that no lookup gave it. */
  function Start(): World { World(NewServer(), map[ROOT := 1], [], multiset{}, []) }

  datatype Step =
    | SendRequest(r: Request)
    | HandleRequest(k: nat)
    | DeliverReply(id: nat)
    | SendForgets(entries: seq<(nat, nat)>)
    | HandleForget(k: nat)

  /** The total count for `id` in a list of forget entries. */
  function Sum(es: seq<(nat, nat)>, id: nat): nat
  {
    if es == [] then 0 else (if es[0].0 == id then es[0].1 else 0) + Sum(es[1..], id)
  }

  function SumAll(fs: seq<seq<(nat, nat)>>, id: nat): nat
  {
    if fs == [] then 0 else Sum(fs[0], id) + SumAll(fs[1..], id)
  }

  /** What the kernel may do: name only inodes it holds a count on, send only positive
      forgets out of what it holds, and keep a count on every inode an outstanding
      request names. */
  ghost predicate Enabled(w: World, s: Step)
  {
    match s
    case SendRequest(r) => Held(w, Named(r)) >= 1
    case HandleRequest(k) => k < |w.requests|
    case DeliverReply(id) => w.replies[id] > 0
    case SendForgets(entries) =>
      && (forall e :: e in entries ==> e.1 >= 1)
      && (forall id: nat :: Sum(entries, id) <= Held(w, id))
      && (forall r :: r in w.requests ==> Held(w, Named(r)) - Sum(entries, Named(r)) >= 1)
    case HandleForget(k) => k < |w.forgets|
  }

  function Without<T>(xs: seq<T>, k: nat): seq<T>
    requires k < |xs|
  {
    xs[..k] + xs[k + 1..]
  }

  /** The kernel's counts after it has sent `entries`. */
  function Spend(kernel: map<nat, nat>, entries: seq<(nat, nat)>): map<nat, nat>
  {
    map id | id in kernel :: if Sum(entries, id) <= kernel[id] then kernel[id] - Sum(entries, id) else 0
  }

  /** The world after a step; `None` where the server panics. */
  function Next(w: World, s: Step): Option<World>
    requires s.HandleRequest? ==> s.k < |w.requests|
    requires s.HandleForget? ==> s.k < |w.forgets|
  {
    match s
    case SendRequest(r) => Some(w.(requests := w.requests + [r]))
    case HandleRequest(k) =>
      (match Handle(w.server, w.requests[k])
       case None => None
       case Some((server, child)) =>
         Some(w.(server := server, requests := Without(w.requests, k),
                 replies := if child.Some? then w.replies + multiset{child.value} else w.replies)))
    case DeliverReply(id) =>
      Some(w.(replies := w.replies - multiset{id}, kernel := w.kernel[id := Held(w, id) + 1]))
    case SendForgets(entries) => Some(w.(kernel := Spend(w.kernel, entries), forgets := w.forgets + [entries]))
    case HandleForget(k) =>
      var es := w.forgets[k];
      if es == [] then Some(w.(forgets := Without(w.forgets, k))) else
      match Forget(w.server, es[0].0, es[0].1)
      case None => None
      case Some(server) => Some(w.(server := server, forgets := w.forgets[k := es[1..]]))
  }

  /** Counts that belong to nobody: `foo` and `bar` are kept alive for good. */
  function Pinned(id: nat): nat { if id == FOO || id == BAR then 1 else 0 }

  function Count(s: Server, id: nat): nat { if id in s.inodes then s.inodes[id].count else 0 }

  /** Conservation: the server's count is what the kernel holds, plus what is on its way to
      the kernel, plus what is on its way back, plus the pin. */
  ghost predicate Conserved(w: World)
  {
    forall id: nat :: Count(w.server, id) == Held(w, id) + w.replies[id] + SumAll(w.forgets, id) + Pinned(id)
  }

  ghost predicate ServerOk(s: Server)
  {
    && (forall id :: id in s.inodes ==> id < s.next && s.inodes[id].lookedUp)
    && s.next >= FIRST_FREE
  }

  ghost predicate Good(w: World)
  {
    && Conserved(w) && ServerOk(w.server)
    && (forall r :: r in w.requests ==> Held(w, Named(r)) >= 1)
    && (forall k, j :: 0 <= k < |w.forgets| && 0 <= j < |w.forgets[k]| ==> w.forgets[k][j].1 >= 1)
  }

  lemma StartGood()
    ensures Good(Start())
  {
  }

  // sums

  lemma {:induction false} SumAllSnoc(fs: seq<seq<(nat, nat)>>, es: seq<(nat, nat)>, id: nat)
    ensures SumAll(fs + [es], id) == SumAll(fs, id) + Sum(es, id)
  {
    if fs == [] {
      assert fs + [es] == [es] && SumAll([], id) == 0;
    } else {
      assert (fs + [es])[1..] == fs[1..] + [es];
      SumAllSnoc(fs[1..], es, id);
    }
  }

  lemma {:induction false} SumAllUpdate(fs: seq<seq<(nat, nat)>>, k: nat, es: seq<(nat, nat)>, id: nat)
    requires k < |fs|
    ensures SumAll(fs[k := es], id) == SumAll(fs, id) - Sum(fs[k], id) + Sum(es, id)
  {
    if k > 0 {
      assert fs[k := es][1..] == fs[1..][k - 1 := es];
      SumAllUpdate(fs[1..], k - 1, es, id);
    } else {
      assert fs[0 := es][1..] == fs[1..];
    }
  }

  lemma {:induction false} SumAllWithout(fs: seq<seq<(nat, nat)>>, k: nat, id: nat)
    requires k < |fs|
    ensures SumAll(Without(fs, k), id) == SumAll(fs, id) - Sum(fs[k], id)
  {
    if k > 0 {
      assert Without(fs, k)[1..] == Without(fs[1..], k - 1);
      SumAllWithout(fs[1..], k - 1, id);
    } else {
      assert Without(fs, 0) == fs[1..];
    }
  }

  lemma {:induction false} SumAllHas(fs: seq<seq<(nat, nat)>>, k: nat, id: nat)
    requires k < |fs|
    ensures SumAll(fs, id) >= Sum(fs[k], id)
  {
    if k > 0 { SumAllHas(fs[1..], k - 1, id); }
  }

  /** An inode the kernel holds a count on, or that is pinned, is found. */
  lemma HeldIsFound(w: World, id: nat)
    requires Good(w) && Held(w, id) + Pinned(id) >= 1
    ensures Found(w.server, id)
  {
    assert Count(w.server, id) == Held(w, id) + w.replies[id] + SumAll(w.forgets, id) + Pinned(id);
  }

  /** A request adds one to the count of the child its reply names, and to no other. */
  lemma HandleCounts(s: Server, r: Request)
    requires ServerOk(s) && Handle(s, r).Some?
    ensures var (s', child) := Handle(s, r).value;
            && ServerOk(s')
            && forall id: nat :: Count(s', id) == Count(s, id) + (if child == Some(id) then 1 else 0)
  {
    assert s.next !in s.inodes;
  }

  /** A creation issues an ID that was never issued before, with a count of one, and changes no
      other inode. */
  lemma CreateIssuesNew(s: Server, parent: nat)
    requires ServerOk(s) && Handle(s, Create(parent)).Some?
    ensures var (s', child) := Handle(s, Create(parent)).value;
            && child.Some? && child.value !in s.inodes && s'.inodes.Keys == s.inodes.Keys + {child.value}
            && Count(s', child.value) == 1
            && forall id :: id in s.inodes ==> s'.inodes[id] == s.inodes[id]
  {
  }

  /** A request panics exactly for an inode that is unknown or has a count of zero, be it the one
      it names or the foo or bar that its name leads to; a forget, in addition, exactly for
      more than the count. */
  lemma PanicsIff(s: Server, r: Request, id: nat, n: nat)
    requires ServerOk(s)
    ensures Handle(s, r).None? <==>
            || Count(s, Named(r)) == 0
            || (r.LookUp? && r.parent == ROOT && r.name == FOO_NAME && Count(s, FOO) == 0)
            || (r.LookUp? && r.parent == ROOT && r.name == BAR_NAME && Count(s, BAR) == 0)
    ensures Forget(s, id, n).None? <==> Count(s, id) == 0 || Count(s, id) < n
  {
    assert FOO_NAME[0] != BAR_NAME[0];
  }

  lemma HandleRequestGood(w: World, k: nat)
    requires Good(w) && k < |w.requests|
    ensures Next(w, HandleRequest(k)).Some? && Good(Next(w, HandleRequest(k)).value)
  {
    hide SumAll, Count;
    var r := w.requests[k];
    assert r in w.requests;
    HeldIsFound(w, Named(r));
    HeldIsFound(w, FOO);
    HeldIsFound(w, BAR);
    HandleCounts(w.server, r);
    var w' := Next(w, HandleRequest(k)).value;
    assert forall q :: q in w'.requests ==> q in w.requests;
    forall id: nat
      ensures Count(w'.server, id) == Held(w', id) + w'.replies[id] + SumAll(w'.forgets, id) + Pinned(id)
    {
      assert Count(w.server, id) == Held(w, id) + w.replies[id] + SumAll(w.forgets, id) + Pinned(id);
    }
  }

  lemma SendForgetsGood(w: World, entries: seq<(nat, nat)>)
    requires Good(w) && Enabled(w, SendForgets(entries))
    ensures Good(Next(w, SendForgets(entries)).value)
  {
    hide SumAll, Sum;
    var w' := Next(w, SendForgets(entries)).value;
    forall id: nat ensures Held(w', id) == Held(w, id) - Sum(entries, id)
      ensures Count(w'.server, id) == Held(w', id) + w'.replies[id] + SumAll(w'.forgets, id) + Pinned(id)
    {
      assert Sum(entries, id) <= Held(w, id);
      SumAllSnoc(w.forgets, entries, id);
    }
    forall j | 0 <= j < |entries| ensures entries[j].1 >= 1 { assert entries[j] in entries; }
  }

  lemma HandleForgetGood(w: World, k: nat)
    requires Good(w) && k < |w.forgets|
    ensures Next(w, HandleForget(k)).Some? && Good(Next(w, HandleForget(k)).value)
  {
    hide SumAll;
    var es := w.forgets[k];
    if es == [] {
      var w' := Next(w, HandleForget(k)).value;
      forall id: nat ensures SumAll(w'.forgets, id) == SumAll(w.forgets, id) { SumAllWithout(w.forgets, k, id); }
      assert forall j :: 0 <= j < |w'.forgets| ==> w'.forgets[j] == w.forgets[if j < k then j else j + 1];
    } else {
      var (id0, n) := es[0];
      SumAllHas(w.forgets, k, id0);
      assert Count(w.server, id0) == Held(w, id0) + w.replies[id0] + SumAll(w.forgets, id0) + Pinned(id0);
      assert w.forgets[k][0].1 >= 1;
      var w' := Next(w, HandleForget(k)).value;
      forall id: nat
        ensures Count(w'.server, id) == Held(w', id) + w'.replies[id] + SumAll(w'.forgets, id) + Pinned(id)
      {
        SumAllUpdate(w.forgets, k, es[1..], id);
        assert Count(w.server, id) == Held(w, id) + w.replies[id] + SumAll(w.forgets, id) + Pinned(id);
      }
    }
  }

  lemma KernelStepGood(w: World, s: Step)
    requires Good(w) && Enabled(w, s) && (s.SendRequest? || s.DeliverReply?)
    ensures Good(Next(w, s).value)
  {
    hide SumAll;
    var w' := Next(w, s).value;
    forall id: nat
      ensures Count(w'.server, id) == Held(w', id) + w'.replies[id] + SumAll(w'.forgets, id) + Pinned(id)
    {
      assert Count(w.server, id) == Held(w, id) + w.replies[id] + SumAll(w.forgets, id) + Pinned(id);
    }
  }

  /** No step a kernel may provoke makes the server panic, and each keeps the counts. */
  lemma StepGood(w: World, s: Step)
    requires Good(w) && Enabled(w, s)
    ensures Next(w, s).Some? && Good(Next(w, s).value)
  {
    hide Good, Handle, Forget;
    match s {
      case HandleRequest(k) => HandleRequestGood(w, k);
      case SendForgets(entries) => SendForgetsGood(w, entries);
      case HandleForget(k) => HandleForgetGood(w, k);
      case _ => KernelStepGood(w, s);
    }
  }

  ghost predicate IsRun(w: World, steps: seq<Step>)
    decreases |steps|
  {
    steps == [] || (Enabled(w, steps[0]) && (Next(w, steps[0]).Some? ==> IsRun(Next(w, steps[0]).value, steps[1..])))
  }

  /** Where a run ends; `None` if the server panicked on the way. */
  ghost function Run(w: World, steps: seq<Step>): Option<World>
    requires IsRun(w, steps)
    decreases |steps|
  {
    if steps == [] then Some(w)
    else match Next(w, steps[0])
      case None => None
      case Some(w') => Run(w', steps[1..])
  }

  lemma {:induction false} RunGood(w: World, steps: seq<Step>)
    requires Good(w) && IsRun(w, steps)
    ensures Run(w, steps).Some? && Good(Run(w, steps).value)
    decreases |steps|
  {
    if steps != [] {
      hide Good, Next, Enabled;
      StepGood(w, steps[0]);
      RunGood(Next(w, steps[0]).value, steps[1..]);
    }
  }

  /** Main result: in every interleaving of requests, replies, forgets and batches, no panic
      fires and lookup counts are conserved. */
  lemma EveryRunConserves(steps: seq<Step>)
    requires IsRun(Start(), steps)
    ensures Run(Start(), steps).Some? && Conserved(Run(Start(), steps).value)
  {
    StartGood();
    RunGood(Start(), steps);
  }

  /** A run at whose end everything has been delivered and the kernel holds nothing leaves only
      the pins: foo and bar can still be looked up, and nothing else is known. */
  lemma QuiescentCounts(steps: seq<Step>, id: nat)
    requires IsRun(Start(), steps)
    ensures Run(Start(), steps).Some?
    ensures var w := Run(Start(), steps).value;
            w.replies == multiset{} && w.forgets == [] && (forall i: nat :: Held(w, i) == 0) ==>
              && Count(w.server, id) == (if id == FOO || id == BAR then 1 else 0)
              && (Found(w.server, id) <==> id == FOO || id == BAR)
  {
    hide Run, IsRun;
    StartGood();
    RunGood(Start(), steps);
  }
}
