/** What ties a connection object to the state of the protocol: the buffers on its free lists
    are those the protocol says are free, and each buffer in use has a name of its own. */
module Buffers {
  import opened Bytes
  import opened InMessages
  import opened OutMessages
  import opened Protocol
  import opened ProtocolRuns

  /** `list` holds the buffers that `names` calls `free`, in that order; no buffer has two
      names, and names are handed out in order. */
  ghost predicate Pool<T>(list: seq<T>, free: seq<nat>, names: map<nat, T>, next: nat)
  {
    && |list| == |free|
    && (forall i :: 0 <= i < |free| ==> free[i] in names && names[free[i]] == list[i])
    && (forall a, b :: a in names && b in names && a != b ==> names[a] != names[b])
    && (forall a :: a in names ==> a < next)
  }

  ghost predicate Grown<T>(names: map<nat, T>, names': map<nat, T>)
  {
    forall a :: a in names ==> a in names' && names'[a] == names[a]
  }

  /** Taking a buffer as the protocol does: the last one on the list, or a new one, which
      gets the next name. */
  lemma PoolTake<T>(list: seq<T>, free: seq<nat>, names: map<nat, T>, next: nat, list': seq<T>, x: T)
    returns (names': map<nat, T>)
    requires Pool(list, free, names, next)
    requires if list == [] then list' == [] && forall a :: a in names ==> names[a] != x else list' + [x] == list
    ensures names' == if list == [] then names[next := x] else names
    ensures list == [] ==> next !in names
    ensures var (b, free', next') := Take(free, next);
            && Pool(list', free', names', next') && b in names' && names'[b] == x && next <= next'
    ensures Grown(names, names') && list' <= list
  {
    if list == [] {
      names' := names[next := x];
    } else {
      names' := names;
      assert list' == list[..|list| - 1];
    }
  }

  lemma PoolMore<T>(list: seq<T>, free: seq<nat>, names: map<nat, T>, next: nat, next': nat)
    requires Pool(list, free, names, next) && next <= next'
    ensures Pool(list, free, names, next')
  {
  }

  lemma PoolPut<T>(list: seq<T>, free: seq<nat>, names: map<nat, T>, next: nat, b: nat)
    requires Pool(list, free, names, next) && b in names
    ensures Pool(list + [names[b]], free + [b], names, next)
  {
  }

  /** A buffer in use is not on the list. */
  lemma NotListed<T>(list: seq<T>, free: seq<nat>, names: map<nat, T>, next: nat, b: nat)
    requires Pool(list, free, names, next) && b in names && b !in free
    ensures forall i :: 0 <= i < |list| ==> list[i] != names[b]
  {
    forall i | 0 <= i < |list| ensures list[i] != names[b] {
      assert free[i] in free;
    }
  }

  /** No two in messages share their storage, and all have the same size. */
  ghost predicate Storages(ins: map<nat, InMessage>, bufSize: nat)
  {
    && (forall a :: a in ins ==> ins[a].storage.Length == bufSize)
    && (forall a, b :: a in ins && b in ins && a != b ==> ins[a].storage != ins[b].storage)
  }

  /** Every buffer the reader or an op has is named. */
  ghost predicate Named(w: World, ins: map<nat, InMessage>, outs: map<nat, OutMessage>)
  {
    && (ReaderIn(w.reader).Some? ==> ReaderIn(w.reader).value in ins)
    && (ReaderOut(w.reader).Some? ==> ReaderOut(w.reader).value in outs)
    && (forall t :: 0 <= t < |w.ops| && HoldsIn(w.ops[t]) ==> w.ops[t].inMsg in ins)
    && (forall t :: 0 <= t < |w.ops| && HoldsOut(w.ops[t]) ==> w.ops[t].outMsg in outs)
  }

  /** The connection's map, the contexts cancelled and the number of ops are the protocol's. */
  ghost predicate FuncsTied(w: World, funcs: map<nat, nat>, cancelled: set<nat>, begun: nat)
  {
    && funcs == w.cancelFuncs && begun == |w.ops|
    && forall t: nat :: t in cancelled <==> t < |w.ops| && w.ops[t].cancelled
  }

  /** Beginning an op: its ID has no cancel function yet. */
  lemma BeginTied(w: World, funcs: map<nat, nat>, cancelled: set<nat>, begun: nat)
    requires FuncsExact(w) && IdsExclusive(w) && Enabled(w, Begin) && FuncsTied(w, funcs, cancelled, begun)
    ensures var (w', id) := (Next(w, Begin), w.reader.msg.id);
            if w.reader.msg.kind.Forget? then FuncsTied(w', funcs, cancelled, begun + 1)
            else id !in funcs && FuncsTied(w', funcs[id := begun], cancelled, begun + 1)
  {
    hide IdsExclusive;
    if !w.reader.msg.kind.Forget? { BeginIdIsNew(w); }
  }

  lemma InterruptTied(w: World, funcs: map<nat, nat>, cancelled: set<nat>, begun: nat)
    requires FuncsExact(w) && Enabled(w, HandleInterrupt) && FuncsTied(w, funcs, cancelled, begun)
    ensures var id := w.reader.msg.target;
            FuncsTied(Next(w, HandleInterrupt), funcs,
                      if id in funcs then cancelled + {funcs[id]} else cancelled, begun)
  {
  }

  /** Finishing an op: its ID has a cancel function, its own. */
  lemma FinishTied(w: World, funcs: map<nat, nat>, cancelled: set<nat>, begun: nat, t: nat)
    requires FuncsExact(w) && Enabled(w, Finish(t)) && FuncsTied(w, funcs, cancelled, begun)
    ensures var (w', o) := (Next(w, Finish(t)), w.ops[t]);
            if o.kind.Forget? then FuncsTied(w', funcs, cancelled, begun)
            else o.id in funcs && FuncsTied(w', funcs - {o.id}, cancelled + {funcs[o.id]}, begun)
  {
    assert !w.ops[t].kind.Forget? ==> Recorded(w.ops[t]);
  }

  /** Steps that have nothing to do with cancel functions. */
  lemma OtherTied(w: World, s: Step, funcs: map<nat, nat>, cancelled: set<nat>, begun: nat)
    requires Enabled(w, s) && !Next(w, s).panicked && FuncsTied(w, funcs, cancelled, begun)
    requires !s.Begin? && !s.HandleInterrupt? && !s.Finish?
    ensures FuncsTied(Next(w, s), funcs, cancelled, begun)
  {
  }

  lemma SafeParts(w: World)
    requires Safe(w)
    ensures !w.panicked && FuncsExact(w) && IdsExclusive(w) && BuffersOk(w)
  {
  }

  /** Naming is kept by any step but those that take a new buffer. */
  lemma StepNamed(w: World, s: Step, ins: map<nat, InMessage>, outs: map<nat, OutMessage>)
    requires Named(w, ins, outs) && Enabled(w, s) && !Next(w, s).panicked && !s.GetIn? && !s.GetOut?
    ensures Named(Next(w, s), ins, outs)
  {
    hide Next, Enabled, HoldsIn, HoldsOut, ReaderIn, ReaderOut;
    if s.Begin? {
      BeginNamed(w, ins, outs);
    } else {
      StepHolds(w, s);
      ReaderHolds(w, s);
    }
  }

  lemma BeginNamed(w: World, ins: map<nat, InMessage>, outs: map<nat, OutMessage>)
    requires Named(w, ins, outs) && Enabled(w, Begin) && !Next(w, Begin).panicked
    ensures Named(Next(w, Begin), ins, outs)
  {
    assert Next(w, Begin).ops[..|w.ops|] == w.ops;
  }

  /** No op gets hold of a buffer but when it begins. */
  lemma StepHolds(w: World, s: Step)
    requires Enabled(w, s) && !Next(w, s).panicked && !s.Begin?
    ensures var (ops, ops') := (w.ops, Next(w, s).ops);
            && |ops'| == |ops|
            && forall t :: 0 <= t < |ops| ==>
                 && ops'[t].inMsg == ops[t].inMsg && ops'[t].outMsg == ops[t].outMsg
                 && (HoldsIn(ops'[t]) ==> HoldsIn(ops[t])) && (HoldsOut(ops'[t]) ==> HoldsOut(ops[t]))
  {
  }

  lemma ReaderHolds(w: World, s: Step)
    requires Enabled(w, s) && !s.GetIn? && !s.GetOut?
    ensures ReaderIn(Next(w, s).reader).Some? ==> ReaderIn(Next(w, s).reader) == ReaderIn(w.reader)
    ensures ReaderOut(Next(w, s).reader).Some? ==> ReaderOut(Next(w, s).reader) == ReaderOut(w.reader)
  {
  }

  /** And by those, once the new buffer is named. */
  lemma TakeNamed(w: World, s: Step, ins: map<nat, InMessage>, outs: map<nat, OutMessage>)
    requires Named(w, ins, outs) && Enabled(w, s) && (s.GetIn? || s.GetOut?)
    requires s.GetIn? ==> Take(w.inFree, w.nextBuf).0 in ins
    requires s.GetOut? ==> Take(w.outFree, w.nextBuf).0 in outs
    ensures Named(Next(w, s), ins, outs)
  {
  }

  lemma MoreNames(w: World, ins: map<nat, InMessage>, outs: map<nat, OutMessage>,
                  ins': map<nat, InMessage>, outs': map<nat, OutMessage>)
    requires Named(w, ins, outs) && ins.Keys <= ins'.Keys && outs.Keys <= outs'.Keys
    ensures Named(w, ins', outs')
  {
  }

  lemma {:induction false} RunAppend(w: World, steps: seq<Step>, s: Step)
    requires IsRun(w, steps) && Enabled(Run(w, steps), s)
    ensures IsRun(w, steps + [s]) && Run(w, steps + [s]) == Next(Run(w, steps), s)
    decreases |steps|
  {
    hide Next, Enabled;
    if steps == [] {
      assert steps + [s] == [s] && [s][1..] == [];
    } else {
      assert (steps + [s])[1..] == steps[1..] + [s];
      RunAppend(Next(w, steps[0]), steps[1..], s);
    }
  }

  /** The buffer of an op, or of the reader, is not free. */
  lemma HeldNotFree(w: World, t: nat)
    requires BuffersOk(w) && t < |w.ops|
    ensures HoldsIn(w.ops[t]) ==> w.ops[t].inMsg !in w.inFree && ReaderIn(w.reader) != Some(w.ops[t].inMsg)
    ensures HoldsOut(w.ops[t]) ==> w.ops[t].outMsg !in w.outFree && ReaderOut(w.reader) != Some(w.ops[t].outMsg)
  {
    assert InHeld(w.ops)[t] == if HoldsIn(w.ops[t]) then Some(w.ops[t].inMsg) else None;
    assert OutHeld(w.ops)[t] == if HoldsOut(w.ops[t]) then Some(w.ops[t].outMsg) else None;
  }

  /** Two ops have different buffers. */
  lemma HeldApart(w: World, t: nat, u: nat)
    requires BuffersOk(w) && t < |w.ops| && u < |w.ops| && t != u
    ensures HoldsIn(w.ops[t]) && HoldsIn(w.ops[u]) ==> w.ops[t].inMsg != w.ops[u].inMsg
    ensures HoldsOut(w.ops[t]) && HoldsOut(w.ops[u]) ==> w.ops[t].outMsg != w.ops[u].outMsg
  {
    var (h, k) := (InHeld(w.ops), OutHeld(w.ops));
    assert h[t] != h[u] || h[t].None?;
    assert k[t] != k[u] || k[t].None?;
  }

  /** A connection that has done nothing yet. */
  lemma StartTied(ins: map<nat, InMessage>, outs: map<nat, OutMessage>, inList: seq<InMessage>,
                  outList: seq<OutMessage>, bufSize: nat)
    requires ins == map[] && outs == map[] && inList == [] && outList == []
    ensures FuncsTied(Start(), map[], {}, 0) && Storages(ins, bufSize) && Named(Start(), ins, outs)
    ensures Pool(inList, Start().inFree, ins, Start().nextBuf) && Pool(outList, Start().outFree, outs, Start().nextBuf)
  {
  }
}
