/** Buffer ownership, reply counting, and what holds in every run of the protocol. */
module ProtocolRuns {
  import opened Bytes
  import opened Protocol

  // ---------------------------------------------------------------- buffer ownership

  /** Every buffer is in one place: once on the free list, with the reader, or with one op. */
  ghost predicate OnePlace(free: seq<nat>, mine: Option<nat>, held: seq<Option<nat>>, next: nat)
  {
    && (forall i :: 0 <= i < |free| ==> free[i] < next)
    && (forall i, j :: 0 <= i < j < |free| ==> free[i] != free[j])
    && (mine.Some? ==> mine.value < next && mine.value !in free)
    && (forall t :: 0 <= t < |held| && held[t].Some? ==>
          held[t].value < next && held[t].value !in free && held[t] != mine)
    && (forall t, u :: 0 <= t < u < |held| && held[t].Some? ==> held[t] != held[u])
  }

  lemma TakeOne(free: seq<nat>, held: seq<Option<nat>>, next: nat)
    requires OnePlace(free, None, held, next)
    ensures var (b, free', next') := Take(free, next); OnePlace(free', Some(b), held, next') && next <= next'
  {
    if free != [] {
      var n := |free| - 1;
      assert forall b :: b in free[..n] ==> b in free;
      assert free[n] in free;
    }
  }

  lemma ReturnMine(free: seq<nat>, b: nat, held: seq<Option<nat>>, next: nat)
    requires OnePlace(free, Some(b), held, next)
    ensures OnePlace(free + [b], None, held, next)
  {
  }

  lemma DropMine(free: seq<nat>, mine: Option<nat>, held: seq<Option<nat>>, next: nat)
    requires OnePlace(free, mine, held, next)
    ensures OnePlace(free, None, held, next)
  {
  }

  lemma HandOver(free: seq<nat>, b: nat, held: seq<Option<nat>>, next: nat)
    requires OnePlace(free, Some(b), held, next)
    ensures OnePlace(free, None, held + [Some(b)], next)
  {
  }

  lemma ReturnHeld(free: seq<nat>, mine: Option<nat>, held: seq<Option<nat>>, next: nat, t: nat)
    requires OnePlace(free, mine, held, next) && t < |held| && held[t].Some?
    ensures OnePlace(free + [held[t].value], mine, held[t := None], next)
  {
  }

  lemma MoreBuffers(free: seq<nat>, mine: Option<nat>, held: seq<Option<nat>>, next: nat, next': nat)
    requires OnePlace(free, mine, held, next) && next <= next'
    ensures OnePlace(free, mine, held, next')
  {
  }

  predicate HoldsIn(o: OpState) { o.phase.Begun? || o.phase.Finished? || o.phase.Written? }

  predicate HoldsOut(o: OpState) { HoldsIn(o) || o.phase.InReturned? }

  function InHeld(ops: seq<OpState>): (h: seq<Option<nat>>)
    ensures |h| == |ops|
  {
    seq(|ops|, t requires 0 <= t < |ops| => if HoldsIn(ops[t]) then Some(ops[t].inMsg) else None)
  }

  function OutHeld(ops: seq<OpState>): (h: seq<Option<nat>>)
    ensures |h| == |ops|
  {
    seq(|ops|, t requires 0 <= t < |ops| => if HoldsOut(ops[t]) then Some(ops[t].outMsg) else None)
  }

  function ReaderIn(r: Reader): Option<nat>
  {
    if r.GotIn? || r.GotMsg? || r.GotBoth? then Some(r.inMsg) else None
  }

  function ReaderOut(r: Reader): Option<nat> { if r.GotBoth? then Some(r.outMsg) else None }

  /** No buffer is on a free list twice, held twice, or free while some reply still uses it. */
  ghost predicate BuffersOk(w: World)
  {
    && OnePlace(w.inFree, ReaderIn(w.reader), InHeld(w.ops), w.nextBuf)
    && OnePlace(w.outFree, ReaderOut(w.reader), OutHeld(w.ops), w.nextBuf)
  }

  /** Steps that leave every buffer where it is. */
  lemma QuietKeepsBuffers(w: World, s: Step)
    requires BuffersOk(w) && Enabled(w, s) && !Next(w, s).panicked
    requires s.Send? || s.ReadMsg? || s.Finish? || s.Write? || s.WriteFail? || s.Leave? || s.Destroy?
    ensures BuffersOk(Next(w, s))
  {
    hide OnePlace;
    QuietOps(w, s);
    var w' := Next(w, s);
    assert InHeld(w'.ops) == InHeld(w.ops) && OutHeld(w'.ops) == OutHeld(w.ops);
  }

  lemma QuietOps(w: World, s: Step)
    requires Enabled(w, s) && !Next(w, s).panicked
    requires s.Send? || s.ReadMsg? || s.Finish? || s.Write? || s.WriteFail? || s.Leave? || s.Destroy?
    ensures var (ops, ops') := (w.ops, Next(w, s).ops);
            && |ops'| == |ops|
            && forall t :: 0 <= t < |ops| ==>
                 && ops'[t].inMsg == ops[t].inMsg && ops'[t].outMsg == ops[t].outMsg
                 && HoldsIn(ops'[t]) == HoldsIn(ops[t]) && HoldsOut(ops'[t]) == HoldsOut(ops[t])
  {
  }

  lemma ReaderKeepsBuffers(w: World, s: Step)
    requires BuffersOk(w) && Enabled(w, s)
    requires s.GetIn? || s.ReadFail? || s.GetOut? || s.ConvertFail?
    ensures BuffersOk(Next(w, s))
  {
    hide OnePlace;
    var (inHeld, outHeld) := (InHeld(w.ops), OutHeld(w.ops));
    match s {
      case GetIn =>
        TakeOne(w.inFree, inHeld, w.nextBuf);
        MoreBuffers(w.outFree, None, outHeld, w.nextBuf, Take(w.inFree, w.nextBuf).2);
      case ReadFail(_) =>
        ReturnMine(w.inFree, w.reader.inMsg, inHeld, w.nextBuf);
      case GetOut =>
        TakeOne(w.outFree, outHeld, w.nextBuf);
        MoreBuffers(w.inFree, Some(w.reader.inMsg), inHeld, w.nextBuf, Take(w.outFree, w.nextBuf).2);
      case ConvertFail =>
        DropMine(w.inFree, Some(w.reader.inMsg), inHeld, w.nextBuf);
        ReturnMine(w.outFree, w.reader.outMsg, outHeld, w.nextBuf);
    }
  }

  lemma InterruptKeepsBuffers(w: World)
    requires BuffersOk(w) && Enabled(w, HandleInterrupt)
    ensures BuffersOk(Next(w, HandleInterrupt))
  {
    hide OnePlace;
    var w' := Next(w, HandleInterrupt);
    DropMine(w.inFree, Some(w.reader.inMsg), InHeld(w.ops), w.nextBuf);
    DropMine(w.outFree, Some(w.reader.outMsg), OutHeld(w.ops), w.nextBuf);
    assert InHeld(w'.ops) == InHeld(w.ops) && OutHeld(w'.ops) == OutHeld(w.ops);
  }

  lemma BeginKeepsBuffers(w: World)
    requires BuffersOk(w) && Enabled(w, Begin) && !Next(w, Begin).panicked
    ensures BuffersOk(Next(w, Begin))
  {
    hide OnePlace;
    var w' := Next(w, Begin);
    HandOver(w.inFree, w.reader.inMsg, InHeld(w.ops), w.nextBuf);
    HandOver(w.outFree, w.reader.outMsg, OutHeld(w.ops), w.nextBuf);
    assert InHeld(w'.ops) == InHeld(w.ops) + [Some(w.reader.inMsg)];
    assert OutHeld(w'.ops) == OutHeld(w.ops) + [Some(w.reader.outMsg)];
  }

  lemma PutKeepsBuffers(w: World, s: Step, t: nat)
    requires BuffersOk(w) && Enabled(w, s) && (s == PutIn(t) || s == PutOut(t))
    ensures BuffersOk(Next(w, s))
  {
    hide OnePlace;
    var w' := Next(w, s);
    if s.PutIn? {
      ReturnHeld(w.inFree, ReaderIn(w.reader), InHeld(w.ops), w.nextBuf, t);
      assert InHeld(w'.ops) == InHeld(w.ops)[t := None] && OutHeld(w'.ops) == OutHeld(w.ops);
    } else {
      ReturnHeld(w.outFree, ReaderOut(w.reader), OutHeld(w.ops), w.nextBuf, t);
      assert OutHeld(w'.ops) == OutHeld(w.ops)[t := None] && InHeld(w'.ops) == InHeld(w.ops);
    }
  }

  lemma StepKeepsBuffers(w: World, s: Step)
    requires BuffersOk(w) && Enabled(w, s) && !Next(w, s).panicked
    ensures BuffersOk(Next(w, s))
  {
    hide BuffersOk, Next, Enabled;
    match s {
      case HandleInterrupt => InterruptKeepsBuffers(w);
      case Begin => BeginKeepsBuffers(w);
      case PutIn(t) => PutKeepsBuffers(w, s, t);
      case PutOut(t) => PutKeepsBuffers(w, s, t);
      case GetIn => ReaderKeepsBuffers(w, s);
      case ReadFail(_) => ReaderKeepsBuffers(w, s);
      case GetOut => ReaderKeepsBuffers(w, s);
      case ConvertFail => ReaderKeepsBuffers(w, s);
      case _ => QuietKeepsBuffers(w, s);
    }
  }

  // ---------------------------------------------------------------- replies and shutdown

  /** The number of handlers still running. */
  function Running(ops: seq<OpState>): nat
  {
    if ops == [] then 0
    else Running(ops[..|ops| - 1]) + (if ops[|ops| - 1].phase.Left? then 0 else 1)
  }

  lemma {:induction false} RunningUpdate(ops: seq<OpState>, t: nat, o: OpState)
    requires t < |ops|
    ensures Running(ops[t := o]) ==
            Running(ops) - (if ops[t].phase.Left? then 0 else 1) + (if o.phase.Left? then 0 else 1)
  {
    var n := |ops| - 1;
    if t < n {
      assert ops[t := o][..n] == ops[..n][t := o];
      RunningUpdate(ops[..n], t, o);
    } else {
      assert ops[t := o][..n] == ops[..n];
    }
  }

  lemma RunningSnoc(ops: seq<OpState>, o: OpState)
    ensures Running(ops + [o]) == Running(ops) + (if o.phase.Left? then 0 else 1)
  {
    assert (ops + [o])[..|ops|] == ops;
  }

  lemma {:induction false} NoneRunning(ops: seq<OpState>)
    requires Running(ops) == 0
    ensures forall t :: 0 <= t < |ops| ==> ops[t].phase.Left?
  {
    if ops != [] { NoneRunning(ops[..|ops| - 1]); }
  }

  /** An op is replied to once, when its handler finishes it, and a reply is written once
      if the kernel expects one and the write does not fail. */
  predicate RepliesOk(o: OpState)
  {
    && o.replies == (if o.phase.Begun? then 0 else 1)
    && o.writes == (if o.kind.Other? && !o.phase.Begun? && !o.phase.Finished? && !o.failed then 1 else 0)
    && (o.phase.Begun? || o.phase.Finished? ==> !o.failed)
  }

  ghost predicate ServerOk(w: World)
  {
    && w.inFlight == Running(w.ops)
    && (forall t :: 0 <= t < |w.ops| ==> RepliesOk(w.ops[t]))
    && (w.destroyed ==> w.reader.Stopped? && w.inFlight == 0)
  }

  /** A running handler is counted. */
  lemma {:induction false} RunningPositive(ops: seq<OpState>, t: nat)
    requires t < |ops| && !ops[t].phase.Left?
    ensures Running(ops) > 0
  {
    if t < |ops| - 1 { RunningPositive(ops[..|ops| - 1], t); }
  }

  lemma {:induction false} RunningCancel(ops: seq<OpState>, t: nat)
    ensures Running(Cancel(ops, t)) == Running(ops)
  {
    if t < |ops| { RunningUpdate(ops, t, ops[t].(cancelled := true)); }
  }

  lemma OpStepKeepsServer(w: World, s: Step, t: nat)
    requires ServerOk(w) && Enabled(w, s) && !Next(w, s).panicked
    requires s in {Finish(t), Write(t), WriteFail(t), PutIn(t), PutOut(t), Leave(t)}
    ensures ServerOk(Next(w, s))
  {
    hide Running;
    var w' := Next(w, s);
    RunningPositive(w.ops, t);
    if s.Finish? {
      var ops1 := w.ops[t := w.ops[t].(phase := Finished, replies := w.ops[t].replies + 1)];
      RunningUpdate(w.ops, t, ops1[t]);
      if !w.ops[t].kind.Forget? { RunningCancel(ops1, w.cancelFuncs[w.ops[t].id]); }
    } else {
      assert w'.ops == w.ops[t := w'.ops[t]];
      RunningUpdate(w.ops, t, w'.ops[t]);
    }
  }

  lemma StepKeepsServer(w: World, s: Step)
    requires ServerOk(w) && Enabled(w, s) && !Next(w, s).panicked
    ensures ServerOk(Next(w, s))
  {
    hide Running;
    var w' := Next(w, s);
    match s {
      case Begin => RunningSnoc(w.ops, w'.ops[|w.ops|]);
      case HandleInterrupt =>
        if w.reader.msg.target in w.cancelFuncs { RunningCancel(w.ops, w.cancelFuncs[w.reader.msg.target]); }
      case Finish(t) => OpStepKeepsServer(w, s, t);
      case Write(t) => OpStepKeepsServer(w, s, t);
      case WriteFail(t) => OpStepKeepsServer(w, s, t);
      case PutIn(t) => OpStepKeepsServer(w, s, t);
      case PutOut(t) => OpStepKeepsServer(w, s, t);
      case Leave(t) => OpStepKeepsServer(w, s, t);
      case _ =>
    }
  }

  // ---------------------------------------------------------------- runs

  ghost predicate Safe(w: World)
  {
    !w.panicked && FuncsExact(w) && IdsExclusive(w) && BuffersOk(w) && ServerOk(w)
  }

  lemma StepSafe(w: World, s: Step)
    requires Safe(w) && Enabled(w, s)
    ensures Safe(Next(w, s))
  {
    hide FuncsExact, IdsExclusive, BuffersOk, Next, Running;
    if s.Leave? { RunningPositive(w.ops, s.t); }
    StepKeepsFuncs(w, s);
    StepKeepsIds(w, s);
    StepKeepsBuffers(w, s);
    StepKeepsServer(w, s);
  }

  /** A run: each step is enabled where it is taken. */
  predicate IsRun(w: World, steps: seq<Step>)
    decreases |steps|
  {
    steps == [] || (Enabled(w, steps[0]) && IsRun(Next(w, steps[0]), steps[1..]))
  }

  function Run(w: World, steps: seq<Step>): World
    requires IsRun(w, steps)
    decreases |steps|
  {
    if steps == [] then w else Run(Next(w, steps[0]), steps[1..])
  }

  lemma {:induction false} RunSafe(w: World, steps: seq<Step>)
    requires Safe(w) && IsRun(w, steps)
    ensures Safe(Run(w, steps))
    decreases |steps|
  {
    if steps != [] {
      hide Safe, Next, Enabled;
      StepSafe(w, steps[0]);
      RunSafe(Next(w, steps[0]), steps[1..]);
    }
  }

  lemma StartSafe()
    ensures Safe(Start())
  {
    hide IdsOk, OnePlace;
    NothingHeld();
    assert Pending(Start()) == [] && InHeld([]) == [] && OutHeld([]) == [];
  }

  lemma NothingHeld()
    ensures IdsOk([], [], {}) && OnePlace([], None, [], 0)
  {
  }

  /** Main result: in every run, however reader, handlers, interrupts and kernel interleave,
      the connection does not panic over a request ID that is known twice or not at all, nor
      the server over its count of running handlers, `cancelFuncs` has exactly the IDs of the ops that began with
      recorded state and have not finished, and no buffer is ever in two places. */
  lemma EveryRunSafe(steps: seq<Step>)
    requires IsRun(Start(), steps)
    ensures var w := Run(Start(), steps);
            && !w.panicked && BuffersOk(w)
            && (forall id: nat :: id in w.cancelFuncs <==>
                  exists t :: 0 <= t < |w.ops| && Recorded(w.ops[t]) && w.ops[t].id == id)
  {
    hide Run, IsRun, BuffersOk, IdsExclusive, ServerOk;
    StartSafe();
    RunSafe(Start(), steps);
    var w := Run(Start(), steps);
    assert forall id: nat :: id in w.cancelFuncs ==> Recorded(w.ops[w.cancelFuncs[id]]);
  }

  /** Main result: when the file system is destroyed, the reader has stopped, and every op
      it ever read has been replied to exactly once, with one write exactly if the kernel
      expects one and the write did not fail; from then on nothing but a kernel's send can happen. */
  lemma DestroyedAfterAllReplies(steps: seq<Step>, s: Step)
    requires IsRun(Start(), steps) && Run(Start(), steps).destroyed
    ensures var w := Run(Start(), steps);
            && w.reader.Stopped?
            && (forall t :: 0 <= t < |w.ops| ==>
                  && w.ops[t].phase.Left? && w.ops[t].replies == 1
                  && w.ops[t].writes == if w.ops[t].kind.Other? && !w.ops[t].failed then 1 else 0)
            && (Enabled(w, s) ==> s.Send?)
  {
    hide Run, IsRun, BuffersOk, IdsExclusive, FuncsExact, Running;
    StartSafe();
    RunSafe(Start(), steps);
    NoneRunning(Run(Start(), steps).ops);
  }

  // ---------------------------------------------------------------- the panic of the server

  /** `ServeOps` panics for an error that is not the end of the connection. */
  predicate ReaderError(s: Step) { s == ReadFail(false) || s == ConvertFail }

  lemma StepStops(w: World, s: Step)
    requires Enabled(w, s)
    ensures Next(w, s).reader == Stopped(false) <==> w.reader == Stopped(false) || ReaderError(s)
  {
  }

  /** The reader has stopped uncleanly exactly if there was such an error. */
  lemma {:induction false} ServerPanicsIff(steps: seq<Step>)
    requires IsRun(Start(), steps)
    ensures Run(Start(), steps).reader == Stopped(false) <==>
            exists k :: 0 <= k < |steps| && ReaderError(steps[k])
    decreases |steps|
  {
    hide Next, Enabled, Run, IsRun, ReaderError;
    if steps == [] {
      RunNothing(Start());
    } else {
      var n := |steps| - 1;
      RunSnoc(Start(), steps);
      ServerPanicsIff(steps[..n]);
      StepStops(Run(Start(), steps[..n]), steps[n]);
      assert forall k :: 0 <= k < n ==> steps[..n][k] == steps[k];
    }
  }

  lemma RunNothing(w: World)
    ensures IsRun(w, []) && Run(w, []) == w
  {
  }

  // ---------------------------------------------------------------- the order of ops

  /** The requests that became ops, in the order they did. */
  function OpMsgs(ops: seq<OpState>): (ms: seq<Msg>)
    ensures |ms| == |ops|
  {
    seq(|ops|, t requires 0 <= t < |ops| => Request(ops[t].id, ops[t].kind))
  }

  function Requests(ms: seq<Msg>): seq<Msg>
  {
    if ms == [] then [] else (if ms[0].Request? then [ms[0]] else []) + Requests(ms[1..])
  }

  /** The requests sent in a run. */
  function SentIn(steps: seq<Step>): seq<Msg>
  {
    if steps == [] then [] else
    var s := steps[|steps| - 1];
    SentIn(steps[..|steps| - 1]) + if s.Send? && s.msg.Request? then [s.msg] else []
  }

  lemma {:induction false} RequestsSnoc(ms: seq<Msg>, m: Msg)
    ensures Requests(ms + [m]) == Requests(ms) + if m.Request? then [m] else []
  {
    if ms == [] {
      assert ms + [m] == [m] && [m][1..] == [];
    } else {
      assert (ms + [m])[1..] == ms[1..] + [m];
      RequestsSnoc(ms[1..], m);
    }
  }

  /** The ops begun followed by the requests that have not begun. */
  function Line(w: World): seq<Msg> { OpMsgs(w.ops) + Requests(Pending(w)) }

  lemma BeginInLine(w: World)
    requires Enabled(w, Begin) && !Next(w, Begin).panicked
    ensures Line(Next(w, Begin)) == Line(w)
  {
    hide Requests;
    var (p, w') := (Pending(w), Next(w, Begin));
    assert p[0] == w.reader.msg && p[1..] == w.queue == Pending(w');
    assert OpMsgs(w'.ops) == OpMsgs(w.ops) + [p[0]];
    TakeRequest(p);
  }

  lemma TakeRequest(p: seq<Msg>)
    requires p != []
    ensures Requests(p) == (if p[0].Request? then [p[0]] else []) + Requests(p[1..])
  {
  }

  /** A step leaves the line as it is, or adds what is sent at its end. */
  lemma StepInLine(w: World, s: Step)
    requires Enabled(w, s) && !Next(w, s).panicked && !s.ConvertFail?
    ensures Line(Next(w, s)) == Line(w) + if s.Send? && s.msg.Request? then [s.msg] else []
  {
    hide Requests;
    if s.Begin? {
      BeginInLine(w);
    } else {
      hide Next, Enabled, Pending;
      StepOps(w, s);
      assert OpMsgs(Next(w, s).ops) == OpMsgs(w.ops);
      StepPending(w, s);
      if s.Send? { RequestsSnoc(Pending(w), s.msg); }
    }
  }

  lemma StepPending(w: World, s: Step)
    requires Enabled(w, s) && !Next(w, s).panicked && !s.ConvertFail? && !s.Begin?
    ensures s.Send? ==> Pending(Next(w, s)) == Pending(w) + [s.msg]
    ensures !s.Send? ==> Requests(Pending(Next(w, s))) == Requests(Pending(w))
  {
    hide Requests;
    if s.ReadMsg? { assert w.queue == [w.queue[0]] + w.queue[1..]; }
    if s.HandleInterrupt? {
      assert Pending(w)[1..] == w.queue == Pending(Next(w, s));
      TakeRequest(Pending(w));
    } else if !s.Send? {
      assert Pending(Next(w, s)) == Pending(w);
    }
  }

  /** Main result: ops are delivered in exactly the order in which their requests were sent,
      and none is left out: the ops of a run are the first requests sent, and unless the
      conversion of one has failed, the others are those that have not been delivered yet. */
  lemma {:induction false} DeliveredInOrder(steps: seq<Step>)
    requires IsRun(Start(), steps)
    ensures OpMsgs(Run(Start(), steps).ops) <= SentIn(steps)
    ensures ConvertFail !in steps ==> SentIn(steps) == Line(Run(Start(), steps))
    decreases |steps|
  {
    hide Next, Enabled, Run, IsRun, Requests, Pending, Safe, OpMsgs;
    if steps == [] {
      RunNothing(Start());
      NothingInLine();
    } else {
      var n := |steps| - 1;
      var s := steps[n];
      RunSnoc(Start(), steps);
      DeliveredInOrder(steps[..n]);
      var w := Run(Start(), steps[..n]);
      StartSafe();
      RunSafe(Start(), steps[..n]);
      StepNotPanics(w, s);
      if ConvertFail !in steps {
        StepInLine(w, s);
      } else {
        LateOps(steps[..n], s);
      }
    }
  }

  lemma NothingInLine()
    ensures Line(Start()) == [] && OpMsgs(Start().ops) == []
  {
  }

  /** Once a conversion has failed, no op begins. */
  lemma LateOps(steps: seq<Step>, s: Step)
    requires IsRun(Start(), steps) && Enabled(Run(Start(), steps), s) && !Next(Run(Start(), steps), s).panicked
    requires ConvertFail in steps + [s]
    ensures OpMsgs(Next(Run(Start(), steps), s).ops) == OpMsgs(Run(Start(), steps).ops)
  {
    hide Run, IsRun;
    ServerPanicsIff(steps);
    var w := Run(Start(), steps);
    if s.ConvertFail? {
    } else {
      assert ConvertFail in steps;
      var k :| 0 <= k < |steps| && steps[k] == ConvertFail;
      assert ReaderError(steps[k]);
      StepOps(w, s);
    }
  }

  // ---------------------------------------------------------------- who cancels whom

  /** `s` handles an interrupt that carries the ID of op `t`, which is still being handled. */
  predicate InterruptsOp(w: World, s: Step, t: nat)
  {
    && s.HandleInterrupt? && w.reader.GotBoth? && t < |w.ops| && At(w, t, Begun)
    && w.reader.msg == Interrupt(w.ops[t].id)
  }

  /** An op in progress is cancelled by a step exactly if that step handles an interrupt
      with its ID, and the op has recorded a cancel function. */
  lemma CancelledIff(w: World, s: Step, t: nat)
    requires Safe(w) && Enabled(w, s) && At(w, t, Begun) && !w.ops[t].cancelled && s != Finish(t)
    ensures var w' := Next(w, s);
            && At(w', t, Begun) && w'.ops[t].id == w.ops[t].id
            && (w'.ops[t].cancelled <==> InterruptsOp(w, s, t) && !w.ops[t].kind.Forget?)
  {
    hide BuffersOk, IdsExclusive, ServerOk, Next, InterruptsOp, FuncsExact;
    StepSafe(w, s);
    CancelStep(w, s, t);
  }

  lemma CancelStep(w: World, s: Step, t: nat)
    requires FuncsExact(w) && Enabled(w, s) && !Next(w, s).panicked
    requires At(w, t, Begun) && !w.ops[t].cancelled && s != Finish(t)
    ensures var w' := Next(w, s);
            && At(w', t, Begun) && w'.ops[t].id == w.ops[t].id
            && (w'.ops[t].cancelled <==> InterruptsOp(w, s, t) && !w.ops[t].kind.Forget?)
  {
  }

  lemma {:induction false} RunSnoc(w: World, steps: seq<Step>)
    requires IsRun(w, steps) && steps != []
    ensures var n := |steps| - 1;
            && IsRun(w, steps[..n]) && Enabled(Run(w, steps[..n]), steps[n])
            && Run(w, steps) == Next(Run(w, steps[..n]), steps[n])
    decreases |steps|
  {
    var n := |steps| - 1;
    if n == 0 {
      assert steps[..0] == [] && steps[1..] == [];
    } else {
      RunSnoc(Next(w, steps[0]), steps[1..]);
      assert steps[1..][..n - 1] == steps[..n][1..];
      assert steps[1..][n - 1] == steps[n] && steps[..n][0] == steps[0];
    }
  }

  /** The `k`-th step of the run interrupted op `t`. */
  ghost predicate InterruptedAt(steps: seq<Step>, k: nat, t: nat, id: nat)
  {
    && k < |steps| && IsRun(Start(), steps[..k])
    && InterruptsOp(Run(Start(), steps[..k]), steps[k], t)
    && Run(Start(), steps[..k]).reader.msg == Interrupt(id)
  }

  /** Main result: in every run, an op that is still in progress and whose context has been
      cancelled was interrupted: some earlier step handled an interrupt with its ID while
      the op was in progress. */
  lemma {:induction false} OnlyInterruptsCancel(steps: seq<Step>, t: nat)
    requires IsRun(Start(), steps)
    requires At(Run(Start(), steps), t, Begun) && Run(Start(), steps).ops[t].cancelled
    ensures exists k: nat :: InterruptedAt(steps, k, t, Run(Start(), steps).ops[t].id)
    decreases |steps|
  {
    hide Safe, Next, Enabled, Run, IsRun;
    RunIsNotEmpty(steps, t);
    var n := |steps| - 1;
    RunSnoc(Start(), steps);
    var w := Run(Start(), steps[..n]);
    StartSafe();
    RunSafe(Start(), steps[..n]);
    EarlierOp(w, steps[n], t);
    if w.ops[t].cancelled {
      OnlyInterruptsCancel(steps[..n], t);
      var k: nat :| InterruptedAt(steps[..n], k, t, w.ops[t].id);
      assert steps[..n][..k] == steps[..k];
      assert InterruptedAt(steps, k, t, w.ops[t].id);
    } else {
      CancelledIff(w, steps[n], t);
      assert InterruptedAt(steps, n, t, w.ops[t].id);
    }
  }

  lemma RunIsNotEmpty(steps: seq<Step>, t: nat)
    requires IsRun(Start(), steps) && At(Run(Start(), steps), t, Begun)
    ensures steps != []
  {
  }

  /** An op in progress and cancelled after a step was in progress before it. */
  lemma EarlierOp(w: World, s: Step, t: nat)
    requires Enabled(w, s) && At(Next(w, s), t, Begun) && Next(w, s).ops[t].cancelled && Safe(w)
    ensures At(w, t, Begun) && s != Finish(t) && w.ops[t].id == Next(w, s).ops[t].id
  {
    hide BuffersOk, IdsExclusive, ServerOk, FuncsExact;
    StepNotPanics(w, s);
    if s.Begin? {
      assert Next(w, s).ops[..|w.ops|] == w.ops;
    } else {
      StepOps(w, s);
    }
  }

  lemma StepNotPanics(w: World, s: Step)
    requires Safe(w) && Enabled(w, s)
    ensures !Next(w, s).panicked
  {
    hide BuffersOk, IdsExclusive, ServerOk, FuncsExact, Next;
    StepSafe(w, s);
  }
}
