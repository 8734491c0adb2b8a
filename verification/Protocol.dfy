/** The connection and its server as a step system: one reader loop, any number of
    handlers, interrupts, recycled buffers, and a kernel that may reuse a request ID
    as soon as the reply to it has been written, or writing it has failed. */
module Protocol {
  import opened Bytes

  /** How much an op's opcode matters: Forget records no state and gets no reply,
      BatchForget records state and gets no reply. */
  datatype Kind = Forget | BatchForget | Other

  datatype Msg = Request(id: nat, kind: Kind) | Interrupt(target: nat)

  /** Where the handler of an op is: handling, past finishOp, past the write, having
      returned the in buffer, the out buffer, and having left. */
  datatype Phase = Begun | Finished | Written | InReturned | BothReturned | Left

  /** `cancelled` says whether the op's own cancel function has been called, `failed` whether
      writing the reply to it failed. */
  datatype OpState = OpState(id: nat, kind: Kind, inMsg: nat, outMsg: nat, phase: Phase,
                             cancelled: bool, replies: nat, writes: nat, failed: bool)

  /** Where the reader is in ReadOp; `Serving` is a forget handled in the reader's own
      goroutine, `Stopped` a reader that has seen the end of the connection or, if not `clean`,
      an error that makes `ServeOps` panic once the handlers are done. */
  datatype Reader =
    | Idle
    | GotIn(inMsg: nat)
    | GotMsg(inMsg: nat, msg: Msg)
    | GotBoth(inMsg: nat, outMsg: nat, msg: Msg)
    | Serving(op: nat)
    | Stopped(clean: bool)

  /** `queue` and `busy` are the kernel's: requests not yet read, and IDs it has in use.
      Ops and buffers are numbered in the order they come into being. */
  datatype World = World(cancelFuncs: map<nat, nat>, inFree: seq<nat>, outFree: seq<nat>,
                         queue: seq<Msg>, busy: set<nat>,
                         reader: Reader, ops: seq<OpState>, nextBuf: nat,
                         inFlight: nat, destroyed: bool, panicked: bool)

  function Start(): World
  {
    World(map[], [], [], [], {}, Idle, [], 0, 0, false, false)
  }

  datatype Step =
    | Send(msg: Msg) | GetIn | ReadFail(eof: bool) | ReadMsg | GetOut | ConvertFail | HandleInterrupt | Begin
    | Finish(t: nat) | Write(t: nat) | WriteFail(t: nat) | PutIn(t: nat) | PutOut(t: nat) | Leave(t: nat) | Destroy

  // ---------------------------------------------------------------- the shared state

  /** A free list hands out its last element, or a new buffer when it is empty. */
  function Take(free: seq<nat>, next: nat): (nat, seq<nat>, nat)
  {
    if free == [] then (next, free, next + 1) else (free[|free| - 1], free[..|free| - 1], next)
  }

  /** `recordCancelFunc`; `None` is its panic. */
  function Record(funcs: map<nat, nat>, id: nat, t: nat): Option<map<nat, nat>>
  {
    if id in funcs then None else Some(funcs[id := t])
  }

  function Cancel(ops: seq<OpState>, t: nat): seq<OpState>
  {
    if t < |ops| then ops[t := ops[t].(cancelled := true)] else ops
  }

  function SetPhase(ops: seq<OpState>, t: nat, p: Phase): seq<OpState>
    requires t < |ops|
  {
    ops[t := ops[t].(phase := p)]
  }

  // ---------------------------------------------------------------- steps

  predicate At(w: World, t: nat, p: Phase) { t < |w.ops| && w.ops[t].phase == p }

  predicate Enabled(w: World, s: Step)
  {
    !w.panicked &&
    match s
    case Send(Request(id, _)) => id !in w.busy
    case Send(Interrupt(_)) => true
    case GetIn => w.reader.Idle?
    case ReadFail(_) => w.reader.GotIn?
    case ReadMsg => w.reader.GotIn? && w.queue != []
    case GetOut => w.reader.GotMsg?
    case ConvertFail => w.reader.GotBoth?
    case HandleInterrupt => w.reader.GotBoth? && w.reader.msg.Interrupt?
    case Begin => w.reader.GotBoth? && w.reader.msg.Request?
    case Finish(t) => At(w, t, Begun)
    case Write(t) => At(w, t, Finished)
    case WriteFail(t) => At(w, t, Finished) && w.ops[t].kind.Other?
    case PutIn(t) => At(w, t, Written)
    case PutOut(t) => At(w, t, InReturned)
    case Leave(t) => At(w, t, BothReturned)
    case Destroy => w.reader.Stopped? && w.inFlight == 0 && !w.destroyed
  }

  function BeginOp(w: World): World
    requires w.reader.GotBoth? && w.reader.msg.Request?
  {
    var (id, kind, t) := (w.reader.msg.id, w.reader.msg.kind, |w.ops|);
    var w1 := w.(ops := w.ops + [OpState(id, kind, w.reader.inMsg, w.reader.outMsg, Begun, false, 0, 0, false)],
                 inFlight := w.inFlight + 1,
                 reader := if kind.Forget? then Serving(t) else Idle);
    if kind.Forget? then w1 else
    match Record(w.cancelFuncs, id, t)
    case None => w.(panicked := true)
    case Some(funcs) => w1.(cancelFuncs := funcs)
  }

  function FinishOp(w: World, t: nat): World
    requires t < |w.ops|
  {
    var o := w.ops[t];
    var w1 := w.(ops := w.ops[t := o.(phase := Finished, replies := o.replies + 1)]);
    if o.kind.Forget? then w1
    else if o.id !in w.cancelFuncs then w.(panicked := true)
    else w1.(ops := Cancel(w1.ops, w.cancelFuncs[o.id]),
             cancelFuncs := w.cancelFuncs - {o.id},
             busy := if o.kind.BatchForget? then w.busy - {o.id} else w.busy)
  }

  function WriteReply(w: World, t: nat): World
    requires t < |w.ops|
  {
    var o := w.ops[t];
    if o.kind.Other?
    then w.(ops := w.ops[t := o.(phase := Written, writes := o.writes + 1)], busy := w.busy - {o.id})
    else w.(ops := SetPhase(w.ops, t, Written))
  }

  function Next(w: World, s: Step): World
    requires Enabled(w, s)
  {
    match s
    case Send(m) =>
      w.(queue := w.queue + [m],
         busy := if m.Request? && !m.kind.Forget? then w.busy + {m.id} else w.busy)
    case GetIn =>
      var (b, free, next) := Take(w.inFree, w.nextBuf);
      w.(reader := GotIn(b), inFree := free, nextBuf := next)
    case ReadFail(eof) => w.(reader := Stopped(eof), inFree := w.inFree + [w.reader.inMsg])
    case ReadMsg => w.(reader := GotMsg(w.reader.inMsg, w.queue[0]), queue := w.queue[1..])
    case GetOut =>
      var (b, free, next) := Take(w.outFree, w.nextBuf);
      w.(reader := GotBoth(w.reader.inMsg, b, w.reader.msg), outFree := free, nextBuf := next)
    case ConvertFail => w.(reader := Stopped(false), outFree := w.outFree + [w.reader.outMsg])
    case HandleInterrupt =>
      var id := w.reader.msg.target;
      w.(reader := Idle, ops := if id in w.cancelFuncs then Cancel(w.ops, w.cancelFuncs[id]) else w.ops)
    case Begin => BeginOp(w)
    case Finish(t) => FinishOp(w, t)
    case Write(t) => WriteReply(w, t)
    case WriteFail(t) =>
      w.(ops := w.ops[t := w.ops[t].(phase := Written, failed := true)], busy := w.busy - {w.ops[t].id})
    case PutIn(t) => w.(ops := SetPhase(w.ops, t, InReturned), inFree := w.inFree + [w.ops[t].inMsg])
    case PutOut(t) => w.(ops := SetPhase(w.ops, t, BothReturned), outFree := w.outFree + [w.ops[t].outMsg])
    case Leave(t) =>
      if w.inFlight == 0 then w.(panicked := true) else
      w.(ops := SetPhase(w.ops, t, Left), inFlight := w.inFlight - 1,
         reader := if w.reader == Serving(t) then Idle else w.reader)
    case Destroy => w.(destroyed := true)
  }

  // ---------------------------------------------------------------- invariant: cancel functions

  /** An op that has recorded state and not yet cleaned it up. */
  predicate Recorded(o: OpState) { o.phase.Begun? && !o.kind.Forget? }

  /** `cancelFuncs` has exactly the IDs of the recorded ops, each leading to its op. */
  ghost predicate FuncsExact(w: World)
  {
    && (forall id :: id in w.cancelFuncs ==>
          w.cancelFuncs[id] < |w.ops| && Recorded(w.ops[w.cancelFuncs[id]]) && w.ops[w.cancelFuncs[id]].id == id)
    && (forall t :: 0 <= t < |w.ops| && Recorded(w.ops[t]) ==>
          w.ops[t].id in w.cancelFuncs && w.cancelFuncs[w.ops[t].id] == t)
  }

  /** An op whose ID the kernel still has in use. */
  predicate HoldsId(o: OpState)
  {
    !o.kind.Forget? && (o.phase.Begun? || (o.phase.Finished? && o.kind.Other?))
  }

  /** A message whose ID the kernel has in use. */
  predicate MsgHoldsId(m: Msg) { m.Request? && !m.kind.Forget? }

  /** Messages sent and not yet begun, the reader's own first. */
  function Pending(w: World): seq<Msg>
  {
    (match w.reader
     case GotMsg(_, m) => [m]
     case GotBoth(_, _, m) => [m]
     case _ => []) + w.queue
  }

  /** Each ID in use is held once: by one pending message or by one op. */
  ghost predicate IdsOk(p: seq<Msg>, ops: seq<OpState>, busy: set<nat>)
  {
    && (forall i :: 0 <= i < |p| && MsgHoldsId(p[i]) ==> p[i].id in busy)
    && (forall t :: 0 <= t < |ops| && HoldsId(ops[t]) ==> ops[t].id in busy)
    && (forall i, j :: 0 <= i < j < |p| && MsgHoldsId(p[i]) && MsgHoldsId(p[j]) ==> p[i].id != p[j].id)
    && (forall t, u :: 0 <= t < u < |ops| && HoldsId(ops[t]) && HoldsId(ops[u]) ==> ops[t].id != ops[u].id)
    && (forall i, t :: 0 <= i < |p| && 0 <= t < |ops| && MsgHoldsId(p[i]) && HoldsId(ops[t]) ==> p[i].id != ops[t].id)
  }

  ghost predicate IdsExclusive(w: World) { IdsOk(Pending(w), w.ops, w.busy) }

  lemma SendIds(p: seq<Msg>, ops: seq<OpState>, busy: set<nat>, m: Msg)
    requires IdsOk(p, ops, busy) && (m.Request? ==> m.id !in busy)
    ensures IdsOk(p + [m], ops, if MsgHoldsId(m) then busy + {m.id} else busy)
  {
  }

  lemma DropIds(p: seq<Msg>, ops: seq<OpState>, busy: set<nat>)
    requires IdsOk(p, ops, busy) && p != []
    ensures IdsOk(p[1..], ops, busy)
  {
  }

  lemma BeginIds(p: seq<Msg>, ops: seq<OpState>, busy: set<nat>, o: OpState)
    requires IdsOk(p, ops, busy) && p != [] && p[0] == Request(o.id, o.kind)
    ensures IdsOk(p[1..], ops + [o], busy)
  {
    var ops' := ops + [o];
    assert HoldsId(o) ==> MsgHoldsId(p[0]);
    assert forall t :: 0 <= t < |ops| ==> ops'[t] == ops[t];
    DropIds(p, ops, busy);
  }

  /** An op that changes phase keeps its ID or gives it up, and then the kernel may too. */
  lemma PhaseIds(p: seq<Msg>, ops: seq<OpState>, busy: set<nat>, ops': seq<OpState>, busy': set<nat>, t: nat)
    requires IdsOk(p, ops, busy) && |ops'| == |ops| && t < |ops|
    requires forall u :: 0 <= u < |ops| ==> ops'[u].id == ops[u].id && (HoldsId(ops'[u]) ==> HoldsId(ops[u]))
    requires busy' == busy || (busy' == busy - {ops[t].id} && HoldsId(ops[t]) && !HoldsId(ops'[t]))
    ensures IdsOk(p, ops', busy')
  {
  }

  /** What a step does to the ops, apart from `Begin`: none changes ID, and holding an ID is
      only ever given up. */
  lemma StepOps(w: World, s: Step)
    requires Enabled(w, s) && !s.Begin? && !Next(w, s).panicked
    ensures var w' := Next(w, s);
            && |w'.ops| == |w.ops|
            && forall u :: 0 <= u < |w.ops| ==>
                 && w'.ops[u].id == w.ops[u].id && w'.ops[u].kind == w.ops[u].kind
                 && (HoldsId(w'.ops[u]) ==> HoldsId(w.ops[u]))
                 && (Recorded(w'.ops[u]) <==> Recorded(w.ops[u]) && s != Finish(u))
  {
  }

  lemma HandlerKeepsIds(w: World, s: Step, t: nat)
    requires IdsExclusive(w) && Enabled(w, s)
    requires s in {Finish(t), Write(t), WriteFail(t), PutIn(t), PutOut(t), Leave(t)} && !Next(w, s).panicked
    ensures IdsExclusive(Next(w, s))
  {
    hide IdsOk;
    StepOps(w, s);
    var w' := Next(w, s);
    PhaseIds(Pending(w), w.ops, w.busy, w'.ops, w'.busy, t);
  }

  lemma ReaderKeepsIds(w: World, s: Step)
    requires IdsExclusive(w) && Enabled(w, s)
    requires s.Send? || s.GetIn? || s.ReadFail? || s.ReadMsg? || s.GetOut? || s.ConvertFail? || s.Destroy?
    ensures IdsExclusive(Next(w, s))
  {
    hide IdsOk;
    if s.Send? { SendIds(Pending(w), w.ops, w.busy, s.msg); }
    if s.ConvertFail? { DropIds(Pending(w), w.ops, w.busy); }
    PendingAfter(w, s);
    SameOps(w, s);
  }

  lemma SameOps(w: World, s: Step)
    requires Enabled(w, s)
    requires s.Send? || s.GetIn? || s.ReadFail? || s.ReadMsg? || s.GetOut? || s.ConvertFail? || s.Destroy?
    ensures Next(w, s).ops == w.ops
    ensures Next(w, s).busy == if s.Send? && MsgHoldsId(s.msg) then w.busy + {s.msg.id} else w.busy
  {
  }

  lemma PendingAfter(w: World, s: Step)
    requires Enabled(w, s)
    requires s.Send? || s.GetIn? || s.ReadFail? || s.ReadMsg? || s.GetOut? || s.ConvertFail? || s.Destroy?
    ensures s.ConvertFail? ==> Pending(w) != []
    ensures Pending(Next(w, s)) ==
            if s.Send? then Pending(w) + [s.msg] else if s.ConvertFail? then Pending(w)[1..] else Pending(w)
  {
    if s.ReadMsg? { assert w.queue == [w.queue[0]] + w.queue[1..]; }
  }

  lemma InterruptKeepsIds(w: World)
    requires IdsExclusive(w) && Enabled(w, HandleInterrupt)
    ensures IdsExclusive(Next(w, HandleInterrupt))
  {
    hide IdsOk;
    StepOps(w, HandleInterrupt);
    var (p, w') := (Pending(w), Next(w, HandleInterrupt));
    assert Pending(w') == p[1..];
    DropIds(p, w.ops, w.busy);
    if w'.ops != w.ops {
      PhaseIds(p[1..], w.ops, w.busy, w'.ops, w.busy, w.cancelFuncs[w.reader.msg.target]);
    }
  }

  lemma BeginKeepsIds(w: World)
    requires IdsExclusive(w) && Enabled(w, Begin) && !Next(w, Begin).panicked
    ensures IdsExclusive(Next(w, Begin))
  {
    hide IdsOk;
    var (p, w') := (Pending(w), Next(w, Begin));
    BeginIds(p, w.ops, w.busy, w'.ops[|w.ops|]);
    assert Pending(w') == p[1..];
  }

  lemma StepKeepsIds(w: World, s: Step)
    requires IdsExclusive(w) && Enabled(w, s) && !Next(w, s).panicked
    ensures IdsExclusive(Next(w, s))
  {
    hide Next, IdsExclusive, Enabled;
    match s {
      case HandleInterrupt => InterruptKeepsIds(w);
      case Begin => BeginKeepsIds(w);
      case Finish(t) => HandlerKeepsIds(w, s, t);
      case Write(t) => HandlerKeepsIds(w, s, t);
      case WriteFail(t) => HandlerKeepsIds(w, s, t);
      case PutIn(t) => HandlerKeepsIds(w, s, t);
      case PutOut(t) => HandlerKeepsIds(w, s, t);
      case Leave(t) => HandlerKeepsIds(w, s, t);
      case _ => ReaderKeepsIds(w, s);
    }
  }

  /** A request that is about to begin has an ID no recorded op has. */
  lemma BeginIdIsNew(w: World)
    requires FuncsExact(w) && IdsExclusive(w) && Enabled(w, Begin) && !w.reader.msg.kind.Forget?
    ensures w.reader.msg.id !in w.cancelFuncs
  {
    var p := Pending(w);
    assert p[0] == w.reader.msg && MsgHoldsId(p[0]);
    if w.reader.msg.id in w.cancelFuncs {
      assert HoldsId(w.ops[w.cancelFuncs[w.reader.msg.id]]);
    }
  }

  lemma BeginKeepsFuncs(w: World)
    requires FuncsExact(w) && IdsExclusive(w) && Enabled(w, Begin)
    ensures !Next(w, Begin).panicked && FuncsExact(Next(w, Begin))
  {
    hide IdsExclusive;
    if !w.reader.msg.kind.Forget? { BeginIdIsNew(w); }
    assert forall t :: 0 <= t < |w.ops| ==> Next(w, Begin).ops[t] == w.ops[t];
  }

  lemma FinishKeepsFuncs(w: World, t: nat)
    requires FuncsExact(w) && Enabled(w, Finish(t))
    ensures !Next(w, Finish(t)).panicked && FuncsExact(Next(w, Finish(t)))
  {
    var w' := Next(w, Finish(t));
    assert Recorded(w.ops[t]) <==> !w.ops[t].kind.Forget?;
    StepOps(w, Finish(t));
  }

  /** No step disturbs the map but `Begin`, which adds its op, and `Finish`, which takes out
      exactly its own; in particular neither panic can happen. */
  lemma StepKeepsFuncs(w: World, s: Step)
    requires FuncsExact(w) && IdsExclusive(w) && Enabled(w, s) && (s.Leave? ==> w.inFlight > 0)
    ensures !Next(w, s).panicked && FuncsExact(Next(w, s))
  {
    hide IdsExclusive;
    if s.Begin? {
      BeginKeepsFuncs(w);
    } else if s.Finish? {
      FinishKeepsFuncs(w, s.t);
    } else {
      SameFuncs(w, s);
      StepOps(w, s);
    }
  }

  lemma SameFuncs(w: World, s: Step)
    requires Enabled(w, s) && !s.Begin? && !s.Finish? && (s.Leave? ==> w.inFlight > 0)
    ensures Next(w, s).cancelFuncs == w.cancelFuncs && !Next(w, s).panicked
  {
  }
}
