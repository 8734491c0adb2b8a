/** The connection object. Besides its own fields it carries, as ghost state, the run of the
    protocol that its calls amount to; `Valid` says that the two agree. The reader's calls and
    the handlers' calls each take one or a few steps of that run, and may come in any order. */
module ConnectionObject {
  import opened Bytes
  import opened InMessages
  import opened OutMessages
  import opened Protocol
  import opened ProtocolRuns
  import opened Buffers
  import Responses

  // ---------------------------------------------------------------- requests on the wire

  const OP_FORGET: nat := 2
  const OP_INTERRUPT: nat := 36
  const OP_BATCH_FORGET: nat := 42

  function Opcode(b: seq<byte>): nat
    requires |b| >= IN_HEADER_SIZE
  {
    FromLE(b[4..8])
  }

  function Unique(b: seq<byte>): nat
    requires |b| >= IN_HEADER_SIZE
  {
    FromLE(b[8..16])
  }

  function KindOf(opcode: nat): Kind
  {
    if opcode == OP_FORGET then Forget else if opcode == OP_BATCH_FORGET then BatchForget else Other
  }

  /** What a request means to the protocol. */
  function MsgOf(b: seq<byte>): Msg
    requires |b| >= IN_HEADER_SIZE
  {
    if Opcode(b) == OP_INTERRUPT
    then Interrupt(if |b| >= IN_HEADER_SIZE + 8 then FromLE(b[IN_HEADER_SIZE..IN_HEADER_SIZE + 8]) else 0)
    else Request(Unique(b), KindOf(Opcode(b)))
  }

  predicate Framed(b: seq<byte>) { |b| >= IN_HEADER_SIZE && FromLE(b[0..4]) == |b| }

  /** The kernel's side: the header it puts before a request, of 32-bit length, opcode, 64-bit
      request ID and node ID, and the caller's user, group and process. */
  datatype InHeader = InHeader(opcode: nat, unique: nat, nodeid: nat, uid: nat, gid: nat, pid: nat)
  {
    predicate Fits()
    {
      && opcode < Pow256(4) && unique < Pow256(8) && nodeid < Pow256(8)
      && uid < Pow256(4) && gid < Pow256(4) && pid < Pow256(4)
    }
  }

  function InHeaderBytes(h: InHeader, len: nat): (b: seq<byte>)
    ensures |b| == IN_HEADER_SIZE
  {
    LE(len, 4) + LE(h.opcode, 4) + LE(h.unique, 8) + LE(h.nodeid, 8)
    + LE(h.uid, 4) + LE(h.gid, 4) + LE(h.pid, 4) + LE(0, 4)
  }

  function RequestBytes(h: InHeader, payload: seq<byte>): seq<byte>
  {
    InHeaderBytes(h, IN_HEADER_SIZE + |payload|) + payload
  }

  /** The server finds opcode and request ID in any header. */
  lemma HeaderFields(h: InHeader, len: nat)
    requires h.Fits()
    ensures Opcode(InHeaderBytes(h, len)) == h.opcode && Unique(InHeaderBytes(h, len)) == h.unique
  {
    hide LE, FromLE, Pow256;
    var b := InHeaderBytes(h, len);
    assert b[4..8] == LE(h.opcode, 4) && b[8..16] == LE(h.unique, 8);
    FitsInField(h.opcode, 4);
    FitsInField(h.unique, 8);
  }

  /** What the kernel encodes is what the server reads: a message of the right length, which is
      a request with its ID, of the kind that opcodes 2 and 42 tell from all others, or, with
      opcode 36, an interrupt of the request whose ID is its payload. */
  lemma RequestReadBack(h: InHeader, payload: seq<byte>)
    requires h.Fits() && IN_HEADER_SIZE + |payload| < Pow256(4)
    ensures Framed(RequestBytes(h, payload)) && Opcode(RequestBytes(h, payload)) == h.opcode
    ensures h.opcode != 36 ==>
              MsgOf(RequestBytes(h, payload)) ==
              Request(h.unique, if h.opcode == 2 then Forget else if h.opcode == 42 then BatchForget else Other)
    ensures forall target: nat :: h.opcode == 36 && target < Pow256(8) && payload == LE(target, 8) ==>
              MsgOf(RequestBytes(h, payload)) == Interrupt(target)
  {
    hide LE, FromLE, Pow256;
    var (b, len) := (RequestBytes(h, payload), IN_HEADER_SIZE + |payload|);
    var header := InHeaderBytes(h, len);
    HeaderFields(h, len);
    assert b[..IN_HEADER_SIZE] == header && b[4..8] == header[4..8] && b[8..16] == header[8..16];
    assert b[0..4] == LE(len, 4);
    FitsInField(len, 4);
    forall target: nat | h.opcode == 36 && target < Pow256(8) && payload == LE(target, 8)
      ensures MsgOf(b) == Interrupt(target)
    {
      assert b[IN_HEADER_SIZE..IN_HEADER_SIZE + 8] == payload;
      FitsInField(target, 8);
    }
  }

  /** What one read of the device comes to; a message also says whether converting it will
      fail and by how much the conversion grows the reply. */
  datatype Input = Transient | HungUp | Failure | Message(data: seq<byte>, bad: bool, grow: nat)

  /** The reads of a call that comes to an end, taking the kernel's messages in order. */
  ghost predicate Feeds(dev: seq<Input>, queue: seq<Msg>, bufSize: nat)
    decreases |dev|
  {
    && dev != []
    && match dev[0]
       case Transient => Feeds(dev[1..], queue, bufSize)
       case Message(data, _, _) =>
         && |data| <= bufSize
         && (Framed(data) ==> queue != [] && MsgOf(data) == queue[0] && Feeds(dev[1..], queue[1..], bufSize))
       case _ => true
  }

  /** The messages that come out of a sequence of reads. */
  function Msgs(dev: seq<Input>): seq<Msg>
  {
    if dev == [] then [] else
    (if dev[0].Message? && Framed(dev[0].data) then [MsgOf(dev[0].data)] else []) + Msgs(dev[1..])
  }

  /** `rest` is what is left of `dev`, and `queue'` of `queue`, if that was all of `dev`. */
  ghost predicate Took(dev: seq<Input>, rest: seq<Input>, queue: seq<Msg>, queue': seq<Msg>)
  {
    && |rest| < |dev| && rest == dev[|dev| - |rest|..]
    && (queue == Msgs(dev) ==> queue' == Msgs(rest))
  }

  // ---------------------------------------------------------------- free lists

  /** A stack of buffers for reuse. */
  class Freelist<T> {
    var list: seq<T>

    constructor ()
      ensures list == []
    {
      list := [];
    }

    /** The element put back last, or nothing. */
    method Get() returns (p: Option<T>)
      modifies this
      ensures p.None? <==> old(list) == []
      ensures if p.None? then list == [] else list + [p.value] == old(list)
    {
      var l := |list|;
      if l == 0 {
        return None;
      }
      p := Some(list[l - 1]);
      list := list[..l - 1];
    }

    method Put(p: T)
      modifies this
      ensures list == old(list) + [p]
    {
      list := list + [p];
    }
  }

  /** What the context of an op remembers. */
  datatype Context = Context(t: nat, inMsg: InMessage, outMsg: OutMessage)

  datatype ReadResult = Op(ctx: Context) | EOF | Error

  class Connection {
    /** For each request ID, the op whose context its cancel function cancels. */
    var cancelFuncs: map<nat, nat>
    /** The ops whose context has been cancelled, and the number of contexts made. */
    var cancelled: set<nat>
    var begun: nat
    const inMessages: Freelist<InMessage>
    const outMessages: Freelist<OutMessage>
    const bufSize: nat

    /** The run so far and where it has led, and the protocol's names for the buffers. */
    ghost var trace: seq<Step>
    ghost var w: World
    ghost var ins: map<nat, InMessage>
    ghost var outs: map<nat, OutMessage>

    ghost predicate Traced()
      reads this
    {
      IsRun(Start(), trace) && w == Run(Start(), trace) && Safe(w)
    }

    ghost predicate Tied()
      reads this, inMessages, outMessages
    {
      && bufSize >= IN_HEADER_SIZE
      && FuncsTied(w, cancelFuncs, cancelled, begun)
      && Pool(inMessages.list, w.inFree, ins, w.nextBuf)
      && Pool(outMessages.list, w.outFree, outs, w.nextBuf)
      && Storages(ins, bufSize) && Named(w, ins, outs)
    }

    /** The connection is in the state its run has led to. */
    ghost predicate Valid()
      reads this, inMessages, outMessages
    {
      Traced() && Tied()
    }

    constructor (bufSize: nat)
      requires bufSize >= IN_HEADER_SIZE
      ensures Valid() && trace == [] && fresh(inMessages) && fresh(outMessages)
    {
      hide Safe, IsRun, Run, FuncsTied, Pool, Named, Storages, Start;
      this.bufSize := bufSize;
      cancelFuncs, cancelled, begun := map[], {}, 0;
      inMessages := new Freelist<InMessage>();
      outMessages := new Freelist<OutMessage>();
      trace, w, ins, outs := [], Start(), map[], map[];
      new;
      StartSafe();
      RunNothing(Start());
      StartTied(ins, outs, inMessages.list, outMessages.list, bufSize);
    }

    /** The run goes on by one step. */
    ghost method Advance(s: Step)
      requires Traced() && Enabled(w, s)
      modifies this`trace, this`w
      ensures Traced() && trace == old(trace) + [s] && w == Next(old(w), s) && !w.panicked
    {
      hide Safe, Next, Enabled, IsRun, Run;
      RunAppend(Start(), trace, s);
      StepSafe(w, s);
      StepNotPanics(w, s);
      trace, w := trace + [s], Next(w, s);
    }

    /** What the kernel and the server do besides: send, let a handler leave, destroy. */
    ghost method Elsewhere(s: Step)
      requires Valid() && Enabled(w, s) && (s.Send? || s.Leave? || s.Destroy?)
      modifies this`trace, this`w
      ensures Valid() && trace == old(trace) + [s] && w == Next(old(w), s) && !w.panicked
    {
      hide Safe, Pool, Storages, Named, FuncsTied, IsRun, Run;
      ghost var before := w;
      Advance(s);
      OtherTied(before, s, cancelFuncs, cancelled, begun);
      StepNamed(before, s, ins, outs);
    }

    /** Not `ok` is the panic on an ID that already has a cancel function. */
    method RecordCancelFunc(id: nat, t: nat) returns (ok: bool)
      modifies this`cancelFuncs
      ensures ok == Record(old(cancelFuncs), id, t).Some?
      ensures cancelFuncs == if ok then Record(old(cancelFuncs), id, t).value else old(cancelFuncs)
    {
      if id in cancelFuncs {
        return false;
      }
      cancelFuncs := cancelFuncs[id := t];
      return true;
    }

    /** Forgets record nothing, since their IDs may be reused at once. */
    method BeginOp(opcode: nat, id: nat, t: nat) returns (ok: bool)
      modifies this`cancelFuncs
      ensures ok == (opcode == OP_FORGET || Record(old(cancelFuncs), id, t).Some?)
      ensures cancelFuncs ==
              if ok && opcode != OP_FORGET then Record(old(cancelFuncs), id, t).value else old(cancelFuncs)
    {
      ok := true;
      if opcode != OP_FORGET {
        ok := RecordCancelFunc(id, t);
      }
    }

    /** Call the op's cancel function and forget it. Not `ok` is the panic on an unknown ID. */
    method FinishOp(opcode: nat, id: nat) returns (ok: bool)
      modifies this`cancelFuncs, this`cancelled
      ensures ok == (opcode == OP_FORGET || id in old(cancelFuncs))
      ensures ok && opcode != OP_FORGET ==>
                cancelFuncs == old(cancelFuncs) - {id} && cancelled == old(cancelled) + {old(cancelFuncs)[id]}
      ensures !ok || opcode == OP_FORGET ==> cancelFuncs == old(cancelFuncs) && cancelled == old(cancelled)
    {
      if opcode != OP_FORGET {
        if id !in cancelFuncs {
          return false;
        }
        cancelled := cancelled + {cancelFuncs[id]};
        cancelFuncs := cancelFuncs - {id};
      }
      return true;
    }

    /** An ID without a cancel function belongs to a request already replied to. */
    method HandleInterrupt(id: nat)
      modifies this`cancelled
      ensures cancelled == if id in cancelFuncs then old(cancelled) + {cancelFuncs[id]} else old(cancelled)
    {
      if id !in cancelFuncs {
        return;
      }
      cancelled := cancelled + {cancelFuncs[id]};
    }

    /** The buffer put back last, or a new one. */
    method GetInMessage() returns (x: InMessage)
      requires bufSize >= IN_HEADER_SIZE
      modifies inMessages
      ensures if old(inMessages.list) == []
              then fresh(x) && fresh(x.storage) && x.storage.Length == bufSize && inMessages.list == []
              else inMessages.list + [x] == old(inMessages.list)
    {
      var p := inMessages.Get();
      if p.None? {
        x := new InMessage(bufSize);
      } else {
        x := p.value;
      }
    }

    method PutInMessage(x: InMessage)
      modifies inMessages
      ensures inMessages.list == old(inMessages.list) + [x]
    {
      inMessages.Put(x);
    }

    /** As for in messages; and a recycled message is as good as a new one. */
    method GetOutMessage() returns (x: OutMessage)
      modifies outMessages, FreeOut()
      ensures if old(outMessages.list) == [] then fresh(x) && outMessages.list == []
              else outMessages.list + [x] == old(outMessages.list)
      ensures x.Valid() && x.header == Header(0, 0, 0) && x.sglist == [] && x.Body() == []
    {
      var p := outMessages.Get();
      if p.None? {
        x := new OutMessage();
      } else {
        x := p.value;
        assert x in old(outMessages.list);
      }
      x.Reset();
    }

    method PutOutMessage(x: OutMessage)
      modifies outMessages
      ensures outMessages.list == old(outMessages.list) + [x]
    {
      outMessages.Put(x);
    }

    // ---------------------------------------------------------------- the reader

    /** A step of the reader takes an in message nobody else has. */
    method TakeIn() returns (x: InMessage)
      requires Valid() && w.reader.Idle?
      modifies this, inMessages
      ensures Valid() && trace == old(trace) + [Step.GetIn] && w == Next(old(w), Step.GetIn)
      ensures w.reader.inMsg in ins && ins[w.reader.inMsg] == x && x.storage.Length == bufSize
      ensures Grown(old(ins), ins) && outs == old(outs) && inMessages.list <= old(inMessages.list)
      ensures x in old(inMessages.list) || (fresh(x) && fresh(x.storage))
    {
      hide Safe, Pool, Named, FuncsTied, IsRun, Run, FuncsExact, IdsExclusive, BuffersOk;
      ghost var before := w;
      SafeParts(w);
      x := GetInMessage();
      ins := PoolTake(old(inMessages.list), w.inFree, ins, w.nextBuf, inMessages.list, x);
      MoreNames(w, old(ins), outs, ins, outs);
      Advance(Step.GetIn);
      PoolMore(outMessages.list, before.outFree, outs, before.nextBuf, w.nextBuf);
      OtherTied(before, Step.GetIn, cancelFuncs, cancelled, begun);
      TakeNamed(before, Step.GetIn, ins, outs);
    }

    /** Likewise an out message, which is as good as new. */
    method TakeOut() returns (x: OutMessage)
      requires Valid() && w.reader.GotMsg?
      modifies this, outMessages, FreeOut()
      ensures Valid() && trace == old(trace) + [Step.GetOut] && w == Next(old(w), Step.GetOut)
      ensures w.reader.outMsg in outs && outs[w.reader.outMsg] == x
      ensures x.Valid() && x.header == Header(0, 0, 0) && x.sglist == [] && x.Body() == []
      ensures Grown(old(outs), outs) && ins == old(ins) && outMessages.list <= old(outMessages.list)
      ensures x in old(FreeOut()) || fresh(x)
    {
      hide Safe, Pool, Named, FuncsTied, IsRun, Run, Storages, FuncsExact, IdsExclusive, BuffersOk;
      ghost var before := w;
      SafeParts(w);
      x := GetOutMessage();
      assert old(outMessages.list) != [] ==> x in outMessages.list + [x];
      outs := PoolTake(old(outMessages.list), w.outFree, outs, w.nextBuf, outMessages.list, x);
      MoreNames(w, ins, old(outs), ins, outs);
      Advance(Step.GetOut);
      PoolMore(inMessages.list, before.inFree, ins, before.nextBuf, w.nextBuf);
      OtherTied(before, Step.GetOut, cancelFuncs, cancelled, begun);
      TakeNamed(before, Step.GetOut, ins, outs);
    }

    /** Taking an out message disturbs no op in progress. */
    method NextOut() returns (x: OutMessage)
      requires Valid() && w.reader.GotMsg?
      modifies this, outMessages, FreeOut()
      ensures Valid() && trace == old(trace) + [Step.GetOut] && w == Next(old(w), Step.GetOut)
      ensures w.reader.outMsg in outs && outs[w.reader.outMsg] == x
      ensures x.Valid() && x.header == Header(0, 0, 0) && x.sglist == [] && x.Body() == []
      ensures Grown(old(outs), outs) && ins == old(ins) && outMessages.list <= old(outMessages.list)
      ensures x in old(FreeOut()) || fresh(x)
      ensures forall t: nat :: t < |old(w.ops)| && old(Ready(t)) ==> Ready(t)
    {
      hide Safe, Tied, Traced, IsRun, Run, Ready;
      OwnBuffersAll();
      x := TakeOut();
      forall t: nat | t < |old(w.ops)| && old(Ready(t)) ensures Ready(t) {
        StillReady(t);
      }
    }

    /** The in buffers that are free, with their storage, and the out buffers that are. */
    ghost function FreeIn(): set<object>
      reads this, inMessages
    {
      (set m | m in inMessages.list :: m as object) + (set m | m in inMessages.list :: m.storage as object)
    }

    ghost function FreeOut(): set<object>
      reads this, outMessages
    {
      set m | m in outMessages.list :: m as object
    }

    /** Read the next message into a buffer, past transient errors. */
    method ReadMessage(dev: seq<Input>) returns (got: Option<InMessage>, input: Input, rest: seq<Input>)
      requires Valid() && w.reader.Idle? && Feeds(dev, w.queue, bufSize)
      modifies this, inMessages, FreeIn()
      ensures Valid() && Grown(old(ins), ins) && outs == old(outs) && ReaderOnly(old(w), w) && w.ops == old(w.ops)
      ensures Took(dev, rest, old(w.queue), w.queue) && w.inFlight == old(w.inFlight)
      ensures input == dev[|dev| - |rest| - 1]
      ensures got.None? ==> trace == old(trace) + [Step.GetIn, ReadFail(input.HungUp?)]
      ensures got.None? ==> w.reader == Stopped(input.HungUp?)
      ensures forall o :: o in FreeIn() ==> o in old(FreeIn()) || fresh(o)
      ensures got.Some? ==>
                && trace == old(trace) + [Step.GetIn, ReadMsg] && inMessages.list <= old(inMessages.list)
                && input.Message? && Framed(input.data) && Feeds(rest, w.queue, bufSize)
                && w.reader.GotMsg? && w.reader.msg == MsgOf(input.data)
                && w.reader.inMsg in ins && ins[w.reader.inMsg] == got.value
                && got.value.Valid() && got.value.lo == IN_HEADER_SIZE
                && got.value.storage[..got.value.size] == input.data
                && (got.value in old(FreeIn()) || fresh(got.value))
                && (got.value.storage in old(FreeIn()) || fresh(got.value.storage))
      ensures forall t: nat :: t < |old(w.ops)| && old(Ready(t)) ==> Ready(t)
    {
      hide Safe, Pool, Named, FuncsTied, IsRun, Run, MsgOf, Storages, Ready, Msgs, Feeds, Framed;
      OwnBuffersAll();
      FreeApart();
      var m := TakeIn();
      var ok;
      ok, input, rest := ReadInto(m, dev);
      got := if ok then Some(m) else None;
      FreeFrom(m);
      forall t: nat | t < |old(w.ops)| && old(Ready(t)) ensures Ready(t) {
        StillReady(t);
      }
    }

    /** Read past transient errors until there is a message or a failure. */
    method ReadInto(m: InMessage, dev: seq<Input>) returns (ok: bool, input: Input, rest: seq<Input>)
      requires Valid() && w.reader.GotIn? && w.reader.inMsg in ins && ins[w.reader.inMsg] == m
      requires m.storage.Length == bufSize && Feeds(dev, w.queue, bufSize)
      modifies this`trace, this`w, inMessages, m, m.storage
      ensures Valid() && w.ops == old(w.ops) && ReaderOnly(old(w), w) && w.inFlight == old(w.inFlight)
      ensures |rest| < |dev| && rest == dev[|dev| - |rest|..] && input == dev[|dev| - |rest| - 1]
      ensures old(w.queue) == Msgs(dev) ==> w.queue == Msgs(rest)
      ensures !ok ==>
                && trace == old(trace) + [ReadFail(input.HungUp?)] && w.reader == Stopped(input.HungUp?)
                && inMessages.list == old(inMessages.list) + [m]
      ensures ok ==>
                && trace == old(trace) + [ReadMsg] && inMessages.list == old(inMessages.list)
                && input.Message? && Framed(input.data) && Feeds(rest, w.queue, bufSize)
                && w.reader == GotMsg(old(w.reader.inMsg), MsgOf(input.data))
                && m.Valid() && m.lo == IN_HEADER_SIZE && m.storage[..m.size] == input.data
    {
      hide Safe, Pool, Named, FuncsTied, IsRun, Run, MsgOf, Storages;
      rest := dev;
      while rest[0].Transient?
        invariant Feeds(rest, w.queue, bufSize) && |rest| <= |dev|
        invariant rest == dev[|dev| - |rest|..] && Msgs(rest) == Msgs(dev)
        decreases |rest|
      {
        rest := rest[1..];
      }
      input, rest := rest[0], rest[1..];
      ok := false;
      if input.Message? {
        ok := m.Init(input.data);
      }
      if ok {
        TakeMessage();
      } else {
        GiveBackIn(m, input.HungUp?);
      }
    }

    /** The read failed: the reader puts its buffer back and stops. */
    method GiveBackIn(m: InMessage, eof: bool)
      requires Valid() && w.reader.GotIn? && w.reader.inMsg in ins && ins[w.reader.inMsg] == m
      modifies this`trace, this`w, inMessages
      ensures Valid() && trace == old(trace) + [ReadFail(eof)] && w == Next(old(w), ReadFail(eof))
      ensures inMessages.list == old(inMessages.list) + [m]
    {
      hide Safe, Pool, Named, FuncsTied, IsRun, Run, Storages, FuncsExact, IdsExclusive, BuffersOk;
      ghost var before := w;
      SafeParts(w);
      PutInMessage(m);
      Advance(ReadFail(eof));
      PoolPut(old(inMessages.list), before.inFree, ins, before.nextBuf, before.reader.inMsg);
      OtherTied(before, ReadFail(eof), cancelFuncs, cancelled, begun);
      StepNamed(before, ReadFail(eof), ins, outs);
    }

    /** The read succeeded: the message leaves the kernel's queue. */
    ghost method TakeMessage()
      requires Valid() && w.reader.GotIn? && w.queue != []
      modifies this`trace, this`w
      ensures Valid() && trace == old(trace) + [ReadMsg] && w == Next(old(w), ReadMsg)
    {
      hide Safe, Pool, Named, FuncsTied, IsRun, Run, Storages, FuncsExact, IdsExclusive, BuffersOk;
      ghost var before := w;
      SafeParts(w);
      Advance(ReadMsg);
      OtherTied(before, ReadMsg, cancelFuncs, cancelled, begun);
      StepNamed(before, ReadMsg, ins, outs);
    }

    /** The message could not be converted: the reader puts the out message back and stops; the
        in message is left to the garbage collector. */
    method GiveBackOut(m: OutMessage)
      requires Valid() && w.reader.GotBoth? && w.reader.outMsg in outs && outs[w.reader.outMsg] == m
      modifies this`trace, this`w, outMessages
      ensures Valid() && trace == old(trace) + [ConvertFail] && w.ops == old(w.ops) && w.queue == old(w.queue)
      ensures w.reader == Stopped(false) && ReaderOnly(old(w), w) && w.inFlight == old(w.inFlight)
      ensures outMessages.list == old(outMessages.list) + [m]
    {
      hide Safe, Pool, Named, FuncsTied, IsRun, Run, Storages, FuncsExact, IdsExclusive, BuffersOk;
      ghost var before := w;
      SafeParts(w);
      PutOutMessage(m);
      Advance(ConvertFail);
      PoolPut(old(outMessages.list), before.outFree, outs, before.nextBuf, before.reader.outMsg);
      OtherTied(before, ConvertFail, cancelFuncs, cancelled, begun);
      StepNamed(before, ConvertFail, ins, outs);
    }

    /** Interrupts are handled inline; their buffers are left to the garbage collector. */
    method Interrupted(target: nat)
      requires Valid() && w.reader.GotBoth? && w.reader.msg == Interrupt(target)
      modifies this`trace, this`w, this`cancelled
      ensures Valid() && trace == old(trace) + [Step.HandleInterrupt]
      ensures w.reader.Idle? && w.queue == old(w.queue) && ReaderOnly(old(w), w)
      ensures w.inFlight == old(w.inFlight) && |w.ops| == |old(w.ops)|
    {
      hide Safe, Pool, Named, FuncsTied, IsRun, Run, Storages, FuncsExact, IdsExclusive, BuffersOk;
      ghost var before := w;
      SafeParts(w);
      HandleInterrupt(target);
      Advance(Step.HandleInterrupt);
      InterruptTied(before, cancelFuncs, old(cancelled), begun);
      StepNamed(before, Step.HandleInterrupt, ins, outs);
    }

    /** Begin the op that the reader has in hand; `beginOp` does not panic. */
    method Begins(opcode: nat, id: nat) returns (t: nat)
      requires Valid() && w.reader.GotBoth? && w.reader.msg == Request(id, KindOf(opcode))
      modifies this`trace, this`w, this`cancelFuncs, this`begun
      ensures Valid() && trace == old(trace) + [Step.Begin]
      ensures w.queue == old(w.queue) && ReaderOnly(old(w), w) && t == |old(w.ops)| == |w.ops| - 1
      ensures w.inFlight == old(w.inFlight) + 1 && w.reader == if w.ops[t].kind.Forget? then Serving(t) else Idle
      ensures var (o, r) := (w.ops[t], old(w.reader));
              o == OpState(id, KindOf(opcode), r.inMsg, r.outMsg, Begun, false, 0, 0, false)
    {
      hide Safe, Pool, Named, IsRun, Run, Storages, FuncsExact, IdsExclusive, BuffersOk;
      ghost var before := w;
      SafeParts(w);
      BeginTied(w, cancelFuncs, cancelled, begun);
      t := begun;
      var ok := BeginOp(opcode, id, t);
      assert ok;
      begun := begun + 1;
      Advance(Step.Begin);
      StepNamed(before, Step.Begin, ins, outs);
    }

    // ---------------------------------------------------------------- ops in progress

    ghost function OpBuffers(t: nat): set<object>
      reads this
    {
      if t < |w.ops| && w.ops[t].inMsg in ins && w.ops[t].outMsg in outs
      then {ins[w.ops[t].inMsg], ins[w.ops[t].inMsg].storage, outs[w.ops[t].outMsg]} else {}
    }

    /** Op `t` is being handled, its request is still in its in message, and its out message
        is fit for a reply. */
    ghost predicate Ready(t: nat)
      reads this, OpBuffers(t)
    {
      && t < |w.ops| && w.ops[t].phase.Begun? && w.ops[t].inMsg in ins && w.ops[t].outMsg in outs
      && (var (o, m, x) := (w.ops[t], ins[w.ops[t].inMsg], outs[w.ops[t].outMsg]);
          && m.storage.Length >= IN_HEADER_SIZE
          && Unique(m.storage[..IN_HEADER_SIZE]) == o.id && KindOf(Opcode(m.storage[..IN_HEADER_SIZE])) == o.kind
          && x.Valid() && x.header.error == 0)
    }

    /** The buffers of an op in progress are not free. */
    lemma OwnBuffers(t: nat)
      requires Valid() && t < |w.ops| && w.ops[t].phase.Begun?
      ensures OpBuffers(t) !! FreeIn() + FreeOut()
    {
      hide Safe, IsRun, Run, FuncsTied, BuffersOk;
      SafeParts(w);
      HeldNotFree(w, t);
      NotListed(inMessages.list, w.inFree, ins, w.nextBuf, w.ops[t].inMsg);
      NotListed(outMessages.list, w.outFree, outs, w.nextBuf, w.ops[t].outMsg);
    }

    /** Nor does any other op have them. */
    lemma OwnBuffersApart(t: nat)
      requires Valid() && t < |w.ops| && w.ops[t].phase.Begun?
      ensures forall u: nat :: u < |w.ops| && w.ops[u].phase.Begun? && u != t ==> OpBuffers(t) !! OpBuffers(u)
    {
      hide Safe, IsRun, Run, FuncsTied, BuffersOk;
      SafeParts(w);
      forall u: nat | u < |w.ops| && w.ops[u].phase.Begun? && u != t ensures OpBuffers(t) !! OpBuffers(u) {
        HeldApart(w, t, u);
      }
    }

    lemma OwnBuffersAll()
      requires Valid()
      ensures forall t: nat :: t < |w.ops| && Ready(t) ==>
                && w.ops[t].inMsg in ins && w.ops[t].outMsg in outs
                && OpBuffers(t) !! FreeIn() + FreeOut()
    {
      hide Safe, IsRun, Run, FuncsTied, BuffersOk, Pool, Named, Storages;
      forall t: nat | t < |w.ops| && Ready(t) ensures OpBuffers(t) !! FreeIn() + FreeOut() {
        OwnBuffers(t);
      }
    }

    twostate lemma StillReady(t: nat)
      requires old(Ready(t)) && t < |w.ops| && SameButCancelled(old(w.ops)[t], w.ops[t])
      requires Grown(old(ins), ins) && Grown(old(outs), outs)
      requires var (m, x) := old((ins[w.ops[t].inMsg], outs[w.ops[t].outMsg]));
               unchanged(m) && unchanged(m.storage) && unchanged(x)
      ensures Ready(t)
    {
      var m := old(ins[w.ops[t].inMsg]);
      assert old(m.storage[..]) == m.storage[..];
    }

    /** The free in messages are among those there were, or they are `m`. */
    twostate lemma FreeFrom(new m: InMessage)
      requires m in old(inMessages.list) || (fresh(m) && fresh(m.storage))
      requires inMessages.list <= old(inMessages.list) ||
               (|inMessages.list| > 0 && inMessages.list[|inMessages.list| - 1] == m
                && inMessages.list[..|inMessages.list| - 1] <= old(inMessages.list))
      ensures forall o :: o in FreeIn() ==> o in old(FreeIn()) || fresh(o)
    {
      forall x | x in inMessages.list ensures x in old(inMessages.list) || x == m {
        var i :| 0 <= i < |inMessages.list| && inMessages.list[i] == x;
        if i < |inMessages.list| - 1 || inMessages.list <= old(inMessages.list) {
          assert old(inMessages.list)[i] == x;
        }
      }
    }

    lemma FreeApart()
      ensures FreeIn() !! FreeOut() && {this, inMessages, outMessages} !! FreeIn() + FreeOut()
    {
    }

    // ---------------------------------------------------------------- ReadOp

    /** The argument of an interrupt request; not `ok` if it is cut short. */
    method InterruptTarget(inMsg: InMessage, ghost data: seq<byte>) returns (target: nat, ok: bool)
      requires inMsg.Valid() && inMsg.lo == IN_HEADER_SIZE && inMsg.storage[..inMsg.size] == data
      modifies inMsg`lo
      ensures ok && Opcode(data) == OP_INTERRUPT ==> MsgOf(data) == Interrupt(target)
    {
      hide FromLE;
      target := 0;
      var arg := inMsg.Consume(8);
      if arg.None? {
        return target, false;
      }
      assert arg.value == data[IN_HEADER_SIZE..IN_HEADER_SIZE + 8];
      return FromLE(arg.value), true;
    }

    /** Deal with a message that has been read and has its out message: stop, handle an
        interrupt, or begin an op. */
    method Dispatch(inMsg: InMessage, outMsg: OutMessage, input: Input) returns (r: Option<ReadResult>)
      requires Valid() && w.reader.GotBoth? && w.reader.inMsg in ins && w.reader.outMsg in outs
      requires ins[w.reader.inMsg] == inMsg && outs[w.reader.outMsg] == outMsg
      requires input.Message? && Framed(input.data) && w.reader.msg == MsgOf(input.data)
      requires inMsg.Valid() && inMsg.lo == IN_HEADER_SIZE && inMsg.storage[..inMsg.size] == input.data
      requires outMsg.Valid() && outMsg.header == Header(0, 0, 0) && outMsg.Body() == []
      modifies this, outMessages, inMsg`lo, outMsg`sglist
      ensures Valid() && ins == old(ins) && outs == old(outs) && w.queue == old(w.queue)
      ensures ReaderOnly(old(w), w)
      ensures outMessages.list == old(outMessages.list) + (if r == Some(Error) then [outMsg] else [])
      ensures match r
              case None =>
                && trace == old(trace) + [Step.HandleInterrupt] && w.reader.Idle?
                && w.inFlight == old(w.inFlight) && |w.ops| == |old(w.ops)|
              case Some(EOF) => false
              case Some(Error) =>
                && trace == old(trace) + [ConvertFail] && w.reader == Stopped(false)
                && w.inFlight == old(w.inFlight) && |w.ops| == |old(w.ops)|
              case Some(Op(ctx)) =>
                && trace == old(trace) + [Step.Begin] && ctx == Context(|old(w.ops)|, inMsg, outMsg)
                && Started(ctx, |old(w.ops)|, old(w.inFlight)) && CameFrom(ctx, input)
      ensures forall t: nat :: t < |old(w.ops)| && old(Ready(t)) ==> Ready(t)
    {
      hide Safe, IsRun, Run, FuncsTied, Pool, Named, Storages, Gather, FromLE, Next;
      HeaderRead(inMsg.storage[..], inMsg.size, input.data);
      var header := inMsg.storage[..IN_HEADER_SIZE];
      assert inMsg.storage[..][..IN_HEADER_SIZE] == header;
      var opcode, id := Opcode(header), Unique(header);
      var bad, target := input.bad, 0;
      if opcode == OP_INTERRUPT {
        var read;
        target, read := InterruptTarget(inMsg, input.data);
        bad := bad || !read;
      }
      if bad {
        GiveBackOut(outMsg);
        return Some(Error);
      }
      if opcode == OP_INTERRUPT {
        Interrupted(target);
        return None;
      }
      if input.grow > 0 {
        var grown := outMsg.Grow(input.grow);
      }
      var t := Begins(opcode, id);
      assert inMsg.storage[..IN_HEADER_SIZE] == header;
      return Some(Op(Context(t, inMsg, outMsg)));
    }

    /** Get an out message and deal with the message that has been read. */
    method Proceed(inMsg: InMessage, input: Input) returns (r: Option<ReadResult>)
      requires Valid() && w.reader.GotMsg? && w.reader.inMsg in ins && ins[w.reader.inMsg] == inMsg
      requires input.Message? && Framed(input.data) && w.reader.msg == MsgOf(input.data)
      requires inMsg.Valid() && inMsg.lo == IN_HEADER_SIZE && inMsg.storage[..inMsg.size] == input.data
      modifies this, outMessages, inMsg`lo, FreeOut()
      ensures Valid() && ins == old(ins) && Grown(old(outs), outs) && w.queue == old(w.queue)
      ensures ReaderOnly(old(w), w) && old(trace) < trace
      ensures r.None? ==> outMessages.list <= old(outMessages.list)
      ensures r.None? || !r.value.Op? ==> w.inFlight == old(w.inFlight) && |w.ops| == |old(w.ops)|
      ensures match r
              case None => w.reader.Idle?
              case Some(EOF) => false
              case Some(Error) => trace[|trace| - 1] == ConvertFail && w.reader == Stopped(false)
              case Some(Op(ctx)) =>
                && trace[|trace| - 1] == Step.Begin && ctx.inMsg == inMsg
                && Started(ctx, |old(w.ops)|, old(w.inFlight)) && CameFrom(ctx, input)
                && (ctx.outMsg in old(FreeOut()) || fresh(ctx.outMsg))
      ensures forall o :: o in FreeOut() ==> o in old(FreeOut()) || fresh(o)
      ensures forall t: nat :: t < |old(w.ops)| && old(Ready(t)) ==> Ready(t)
    {
      hide Safe, IsRun, Run, Tied, Traced, Gather, FromLE, MsgOf, Framed, Ready;
      FreeApart();
      var outMsg := NextOut();
      PrefixIn(outMessages.list, old(outMessages.list));
      r := Dispatch(inMsg, outMsg, input);
    }

    /** One round of `ReadOp`; none is an interrupt, after which it goes on. */
    method ReadOne(dev: seq<Input>) returns (r: Option<ReadResult>, rest: seq<Input>)
      requires Valid() && w.reader.Idle? && Feeds(dev, w.queue, bufSize)
      modifies this, inMessages, outMessages, FreeIn(), FreeOut()
      ensures Valid() && old(trace) < trace && Took(dev, rest, old(w.queue), w.queue)
      ensures Grown(old(ins), ins) && Grown(old(outs), outs) && ReaderOnly(old(w), w)
      ensures r.None? ==> inMessages.list <= old(inMessages.list) && outMessages.list <= old(outMessages.list)
      ensures r.None? || !r.value.Op? ==> w.inFlight == old(w.inFlight) && |w.ops| == |old(w.ops)|
      ensures match r
              case None => w.reader.Idle? && Feeds(rest, w.queue, bufSize)
              case Some(EOF) => trace[|trace| - 1] == ReadFail(true) && w.reader == Stopped(true)
              case Some(Error) => ReaderError(trace[|trace| - 1]) && w.reader == Stopped(false)
              case Some(Op(ctx)) =>
                && Feeds(rest, w.queue, bufSize) && trace[|trace| - 1] == Step.Begin
                && Started(ctx, |old(w.ops)|, old(w.inFlight)) && CameFrom(ctx, dev[|dev| - |rest| - 1])
      ensures r.Some? && r.value.Op? ==>
                forall o :: o in Parts(r.value.ctx) ==> o in old(FreeIn() + FreeOut()) || fresh(o)
      ensures forall o :: o in FreeIn() + FreeOut() ==> o in old(FreeIn() + FreeOut()) || fresh(o)
      ensures forall t: nat :: t < |old(w.ops)| && old(Ready(t)) ==> Ready(t)
    {
      hide Safe, IsRun, Run, Tied, Traced, Gather, FromLE, MsgOf, Framed, Ready, Started, Msgs, Feeds, OpsKept;
      FreeApart();
      var got, input;
      got, input, rest := ReadMessage(dev);
      if got.None? {
        r := Some(if input.HungUp? then EOF else Error);
      } else {
        assert outMessages.list == old(outMessages.list) && FreeOut() == old(FreeOut());
        r := Proceed(got.value, input);
      }
    }

    /** The next op and its context, past interrupts. Whatever comes in between, ops in progress
        keep their buffers. */
    method ReadOp(dev: seq<Input>) returns (r: ReadResult, rest: seq<Input>)
      requires Valid() && w.reader.Idle? && Feeds(dev, w.queue, bufSize)
      modifies this, inMessages, outMessages, FreeIn(), FreeOut()
      ensures Valid() && old(trace) < trace && Took(dev, rest, old(w.queue), w.queue)
      ensures Grown(old(ins), ins) && Grown(old(outs), outs) && ReaderOnly(old(w), w)
      ensures !r.Op? ==> w.inFlight == old(w.inFlight) && |w.ops| == |old(w.ops)|
      ensures match r
              case EOF => trace[|trace| - 1] == ReadFail(true) && w.reader == Stopped(true)
              case Error => ReaderError(trace[|trace| - 1]) && w.reader == Stopped(false)
              case Op(ctx) =>
                && Feeds(rest, w.queue, bufSize) && trace[|trace| - 1] == Step.Begin
                && Started(ctx, |old(w.ops)|, old(w.inFlight)) && CameFrom(ctx, dev[|dev| - |rest| - 1])
      ensures r.Op? ==> forall o :: o in Parts(r.ctx) ==> o in old(FreeIn() + FreeOut()) || fresh(o)
      ensures forall o :: o in FreeIn() + FreeOut() ==> o in old(FreeIn() + FreeOut()) || fresh(o)
      ensures forall t: nat :: t < |old(w.ops)| && old(Ready(t)) ==> Ready(t)
    {
      hide Safe, IsRun, Run, FuncsTied, Pool, Named, Storages, Has, Tied, Traced, CameFrom, Feeds, Msgs;
      rest := dev;
      while true
        invariant Valid() && w.reader.Idle? && Feeds(rest, w.queue, bufSize) && old(trace) <= trace
        invariant inMessages.list <= old(inMessages.list) && outMessages.list <= old(outMessages.list)
        invariant |rest| <= |dev| && rest == dev[|dev| - |rest|..]
        invariant old(w.queue) == Msgs(dev) ==> w.queue == Msgs(rest)
        invariant Grown(old(ins), ins) && Grown(old(outs), outs) && ReaderOnly(old(w), w)
        invariant w.inFlight == old(w.inFlight) && |w.ops| == |old(w.ops)|
        invariant forall t: nat :: t < |old(w.ops)| && old(Ready(t)) ==> t < |w.ops| && Ready(t)
        decreases |rest|
      {
        PrefixIn(inMessages.list, old(inMessages.list));
        PrefixIn(outMessages.list, old(outMessages.list));
        assert FreeIn() <= old(FreeIn()) && FreeOut() <= old(FreeOut());
        var one, before := None, rest;
        one, rest := ReadOne(rest);
        assert before[|before| - |rest| - 1] == dev[|dev| - |rest| - 1];
        if one.Some? {
          return one.value, rest;
        }
      }
    }

    // ---------------------------------------------------------------- Reply

    /** Clean up the state of an op; `finishOp` does not panic. */
    method Finishes(t: nat, opcode: nat, id: nat)
      requires Valid() && At(w, t, Begun) && w.ops[t].id == id && w.ops[t].kind == KindOf(opcode)
      modifies this`trace, this`w, this`cancelFuncs, this`cancelled
      ensures Valid() && trace == old(trace) + [Finish(t)] && OpMoved(old(w.ops), w.ops, t, Finished)
      ensures HandlerOnly(old(w), w)
      ensures w.busy == if w.ops[t].kind.BatchForget? then old(w.busy) - {id} else old(w.busy)
    {
      hide Safe, Pool, Named, IsRun, Run, Storages, FuncsExact, IdsExclusive, BuffersOk, FuncsTied;
      ghost var before := w;
      SafeParts(w);
      FinishTied(w, cancelFuncs, cancelled, begun, t);
      var ok := FinishOp(opcode, id);
      assert ok;
      Advance(Finish(t));
      FinishMoves(before, t);
      StepNamed(before, Finish(t), ins, outs);
    }

    /** The reply has been written, or writing it has failed, or none is due. */
    ghost method Sends(t: nat, fails: bool)
      requires Valid() && At(w, t, Finished) && (fails ==> w.ops[t].kind.Other?)
      modifies this`trace, this`w
      ensures Valid() && OpMoved(old(w.ops), w.ops, t, Written) && HandlerOnly(old(w), w)
      ensures trace == old(trace) + [if fails then WriteFail(t) else Write(t)]
      ensures fails ==> w.ops[t].failed
      ensures !fails ==> w.ops[t].failed == old(w.ops)[t].failed
      ensures w.busy == if w.ops[t].kind.Other? then old(w.busy) - {w.ops[t].id} else old(w.busy)
    {
      hide Safe, Pool, Named, IsRun, Run, Storages, FuncsExact, IdsExclusive, BuffersOk, FuncsTied;
      ghost var before := w;
      SafeParts(w);
      ghost var s := if fails then WriteFail(t) else Write(t);
      Advance(s);
      OtherTied(before, s, cancelFuncs, cancelled, begun);
      StepNamed(before, s, ins, outs);
    }

    method PutsIn(t: nat, m: InMessage)
      requires Valid() && At(w, t, Written) && w.ops[t].inMsg in ins && ins[w.ops[t].inMsg] == m
      modifies this`trace, this`w, inMessages
      ensures Valid() && trace == old(trace) + [PutIn(t)] && OpMoved(old(w.ops), w.ops, t, InReturned)
      ensures HandlerOnly(old(w), w) && w.busy == old(w.busy) && w.ops[t].failed == old(w.ops)[t].failed
      ensures inMessages.list == old(inMessages.list) + [m]
    {
      hide Safe, Pool, Named, IsRun, Run, Storages, FuncsExact, IdsExclusive, BuffersOk, FuncsTied;
      ghost var before := w;
      SafeParts(w);
      PutInMessage(m);
      Advance(PutIn(t));
      PoolPut(old(inMessages.list), before.inFree, ins, before.nextBuf, before.ops[t].inMsg);
      OtherTied(before, PutIn(t), cancelFuncs, cancelled, begun);
      StepNamed(before, PutIn(t), ins, outs);
    }

    method PutsOut(t: nat, m: OutMessage)
      requires Valid() && At(w, t, InReturned) && w.ops[t].outMsg in outs && outs[w.ops[t].outMsg] == m
      modifies this`trace, this`w, outMessages
      ensures Valid() && trace == old(trace) + [PutOut(t)] && OpMoved(old(w.ops), w.ops, t, BothReturned)
      ensures HandlerOnly(old(w), w) && w.busy == old(w.busy) && w.ops[t].failed == old(w.ops)[t].failed
      ensures outMessages.list == old(outMessages.list) + [m]
    {
      hide Safe, Pool, Named, IsRun, Run, Storages, FuncsExact, IdsExclusive, BuffersOk, FuncsTied;
      ghost var before := w;
      SafeParts(w);
      PutOutMessage(m);
      Advance(PutOut(t));
      PoolPut(old(outMessages.list), before.outFree, outs, before.nextBuf, before.ops[t].outMsg);
      OtherTied(before, PutOut(t), cancelFuncs, cancelled, begun);
      StepNamed(before, PutOut(t), ins, outs);
    }

    /** Reply to the op of a context with what the file system made of it. Not `ok` is the panic
        on a reply that cannot be built; otherwise the op has taken its four last steps and
        no other op's buffers have been touched. */
    method Reply(ctx: Context, op: Responses.Op, err: Option<Responses.OpError>, fails: bool)
      returns (sent: Option<seq<byte>>, ok: bool)
      requires Valid() && Ready(ctx.t) && Has(ctx)
      requires Responses.NoReply(op) <==> !w.ops[ctx.t].kind.Other?
      modifies this, inMessages, outMessages, ctx.outMsg
      ensures ok <==> Responses.NoReply(op) || err.Some? || !Responses.Panics(op, old(ctx.outMsg.Body()))
      ensures sent.Some? <==> ok && !Responses.NoReply(op) && !fails
      ensures ok ==>
                var (t, failed) := (ctx.t, fails && !Responses.NoReply(op));
                && Valid()
                && trace == old(trace) + [Finish(t), if failed then WriteFail(t) else Write(t), PutIn(t), PutOut(t)]
      ensures sent.Some? ==>
                var (id, len) := (old(w.ops)[ctx.t].id, |sent.value| % 0x1_0000_0000);
                if err.Some? then sent.value == HeaderBytes(Header(len, Responses.ErrorField(err.value), id))
                else sent.value == HeaderBytes(Header(len, 0, id)) + Responses.ReplyBody(op, old(ctx.outMsg.Body()))
      ensures sent.Some? ==>
                && |sent.value| >= HEADER_SIZE
                && forall h: InHeader, len: nat :: h.Fits() && old(RequestHeader(ctx)) == InHeaderBytes(h, len) ==>
                     Responses.UniqueField(sent.value) == h.unique
      ensures ins == old(ins) && outs == old(outs)
      ensures ok ==>
                && OpMoved(old(w.ops), w.ops, ctx.t, BothReturned) && HandlerOnly(old(w), w)
                && w.ops[ctx.t].failed == (fails && !Responses.NoReply(op))
                && w.busy == (if w.ops[ctx.t].kind.Forget? then old(w.busy) else old(w.busy) - {w.ops[ctx.t].id})
                && inMessages.list == old(inMessages.list) + [ctx.inMsg]
                && outMessages.list == old(outMessages.list) + [ctx.outMsg]
      ensures ok ==> forall u: nat :: u < |old(w.ops)| && u != ctx.t && old(Ready(u)) ==> Ready(u)
    {
      hide Safe, Tied, Traced, IsRun, Run, Gather, HeaderBytes, Responses.ReplyBody, Responses.Panics, FromLE;
      var t, header := ctx.t, ctx.inMsg.storage[..IN_HEADER_SIZE];
      OwnBuffersApart(t);
      NotFailed(t);
      Finishes(t, Opcode(header), Unique(header));
      sent, ok := Respond(ctx.outMsg, Unique(header), op, err, fails);
      if sent.Some? {
        ForTheRequest(header, sent.value, err, op, old(ctx.outMsg.Body()));
      }
      if ok {
        Closes(ctx, fails && !Responses.NoReply(op));
        forall u: nat | u < |old(w.ops)| && u != t && old(Ready(u)) ensures Ready(u) {
          StillReady(u);
        }
      }
    }

    lemma NotFailed(t: nat)
      requires Valid() && t < |w.ops| && w.ops[t].phase.Begun?
      ensures !w.ops[t].failed
    {
      hide IsRun, Run, Tied, FuncsExact, IdsExclusive, BuffersOk;
      assert RepliesOk(w.ops[t]);
    }

    /** The steps of a reply from the write on. */
    method Closes(ctx: Context, fails: bool)
      requires Valid() && Has(ctx) && At(w, ctx.t, Finished) && (fails ==> w.ops[ctx.t].kind.Other?)
      modifies this`trace, this`w, inMessages, outMessages
      ensures Valid() && OpMoved(old(w.ops), w.ops, ctx.t, BothReturned) && HandlerOnly(old(w), w)
      ensures fails ==> w.ops[ctx.t].failed
      ensures !fails ==> w.ops[ctx.t].failed == old(w.ops)[ctx.t].failed
      ensures w.busy == if w.ops[ctx.t].kind.Other? then old(w.busy) - {w.ops[ctx.t].id} else old(w.busy)
      ensures inMessages.list == old(inMessages.list) + [ctx.inMsg]
      ensures outMessages.list == old(outMessages.list) + [ctx.outMsg]
      ensures var t := ctx.t;
              trace == old(trace) + [if fails then WriteFail(t) else Write(t), PutIn(t), PutOut(t)]
    {
      hide Safe, Tied, Traced, IsRun, Run;
      Sends(ctx.t, fails);
      PutsIn(ctx.t, ctx.inMsg);
      PutsOut(ctx.t, ctx.outMsg);
    }

    /** Build the reply and write it; once written, the message lets go of its segments. */
    static method Respond(m: OutMessage, id: nat, op: Responses.Op, err: Option<Responses.OpError>, fails: bool)
      returns (sent: Option<seq<byte>>, ok: bool)
      requires m.Valid() && m.header.error == 0
      modifies m
      ensures ok <==> Responses.NoReply(op) || err.Some? || !Responses.Panics(op, old(m.Body()))
      ensures sent.Some? <==> ok && !Responses.NoReply(op) && !fails
      ensures sent.Some? ==>
                var len := |sent.value| % 0x1_0000_0000;
                if err.Some? then sent.value == HeaderBytes(Header(len, Responses.ErrorField(err.value), id))
                else sent.value == HeaderBytes(Header(len, 0, id)) + Responses.ReplyBody(op, old(m.Body()))
    {
      hide Gather, HeaderBytes, Responses.ReplyBody, Responses.Panics;
      sent := None;
      var noResponse;
      noResponse, ok := Responses.KernelResponse(m, id, op, err);
      if ok && !noResponse && !fails {
        Responses.SentIsFlat(m);
        sent := Some(Responses.Sent(m.header, m.sglist));
        m.sglist := [];
      }
    }

    /** No buffer is on a free list twice. */
    lemma FreeOnce()
      requires Valid()
      ensures forall i, j :: 0 <= i < j < |inMessages.list| ==> inMessages.list[i] != inMessages.list[j]
      ensures forall i, j :: 0 <= i < j < |outMessages.list| ==> outMessages.list[i] != outMessages.list[j]
    {
      hide IsRun, Run, FuncsTied, Named, Storages, FuncsExact, IdsExclusive, ServerOk;
    }

    /** A context for the last op, which has just begun. */
    ghost predicate Started(ctx: Context, t: nat, inFlight: nat)
      reads this, OpBuffers(ctx.t)
    {
      && ctx.t == t == |w.ops| - 1 && Ready(t) && Has(ctx) && w.inFlight == inFlight + 1
      && w.reader == (if w.ops[t].kind.Forget? then Serving(t) else Idle)
    }

    /** The op of the context came from this message: the message is in the in buffer, the op has
        its ID and kind, and the out message has been grown as the message asks. */
    ghost predicate CameFrom(ctx: Context, input: Input)
      reads this, Parts(ctx)
    {
      && input.Message? && Framed(input.data) && ctx.t < |w.ops|
      && MsgOf(input.data) == Request(w.ops[ctx.t].id, w.ops[ctx.t].kind)
      && |input.data| <= ctx.inMsg.storage.Length && ctx.inMsg.storage[..|input.data|] == input.data
      && ctx.outMsg.Body() == Zeros(input.grow)
    }

    /** The context is that of its op. */
    ghost predicate Has(ctx: Context)
      reads this
    {
      && ctx.t < |w.ops| && w.ops[ctx.t].inMsg in ins && w.ops[ctx.t].outMsg in outs
      && ins[w.ops[ctx.t].inMsg] == ctx.inMsg && outs[w.ops[ctx.t].outMsg] == ctx.outMsg
    }
  }

  /** The header of the request that the in message of a context holds. */
  ghost function RequestHeader(ctx: Context): seq<byte>
    reads ctx.inMsg.storage
  {
    if ctx.inMsg.storage.Length >= IN_HEADER_SIZE then ctx.inMsg.storage[..IN_HEADER_SIZE] else []
  }

  ghost function Parts(ctx: Context): set<object> { {ctx.inMsg, ctx.inMsg.storage, ctx.outMsg} }

  /** What the reader does leaves the kernel's IDs alone and at most adds and cancels ops. */
  ghost predicate ReaderOnly(w: World, w': World)
  {
    w'.busy == w.busy && w'.destroyed == w.destroyed && OpsKept(w.ops, w'.ops)
  }

  /** What a handler does for its op leaves the reader, the queue and the counter alone. */
  ghost predicate HandlerOnly(w: World, w': World)
  {
    && w'.reader == w.reader && w'.queue == w.queue
    && w'.inFlight == w.inFlight && w'.destroyed == w.destroyed
  }

  /** A reply carries the ID that the header of its request has. */
  lemma ForTheRequest(header: seq<byte>, reply: seq<byte>, err: Option<Responses.OpError>, op: Responses.Op,
                      grown: seq<byte>)
    requires |header| == IN_HEADER_SIZE && (err.None? ==> !Responses.Panics(op, grown))
    requires var len := |reply| % 0x1_0000_0000;
             if err.Some? then reply == HeaderBytes(Header(len, Responses.ErrorField(err.value), Unique(header)))
             else reply == HeaderBytes(Header(len, 0, Unique(header))) + Responses.ReplyBody(op, grown)
    ensures |reply| >= HEADER_SIZE
    ensures forall h: InHeader, len: nat :: h.Fits() && header == InHeaderBytes(h, len) ==>
              Responses.UniqueField(reply) == h.unique
  {
    hide LE, FromLE, Pow256, InHeaderBytes, Responses.ReplyBody, Responses.Panics;
    assert reply[8..16] == LE(Unique(header), 8);
    forall h: InHeader, len: nat | h.Fits() && header == InHeaderBytes(h, len)
      ensures Responses.UniqueField(reply) == h.unique
    {
      HeaderFields(h, len);
      FitsInField(h.unique, 8);
    }
  }

  lemma PrefixIn<T>(a: seq<T>, b: seq<T>)
    requires a <= b
    ensures forall x :: x in a ==> x in b
  {
    forall x | x in a ensures x in b {
      var i :| 0 <= i < |a| && a[i] == x;
      assert b[i] == x;
    }
  }

  lemma HeaderRead(storage: seq<byte>, size: nat, data: seq<byte>)
    requires size <= |storage| && storage[..size] == data && |data| >= IN_HEADER_SIZE
    ensures Unique(storage[..IN_HEADER_SIZE]) == Unique(data) && Opcode(storage[..IN_HEADER_SIZE]) == Opcode(data)
  {
    var h := storage[..IN_HEADER_SIZE];
    assert h == data[..IN_HEADER_SIZE];
    assert h[4..8] == data[4..8] && h[8..16] == data[8..16];
  }

  predicate SameButCancelled(o: OpState, o': OpState)
  {
    o' == o.(cancelled := o'.cancelled)
  }

  /** Op `t` has moved on; the others are as they were. */
  ghost predicate OpMoved(ops: seq<OpState>, ops': seq<OpState>, t: nat, p: Phase)
  {
    && t < |ops| == |ops'| && (forall u :: 0 <= u < |ops| && u != t ==> ops'[u] == ops[u])
    && ops'[t].phase == p && ops'[t].id == ops[t].id && ops'[t].kind == ops[t].kind
    && (p.Finished? ==> ops'[t].failed == ops[t].failed)
    && ops'[t].inMsg == ops[t].inMsg && ops'[t].outMsg == ops[t].outMsg
  }

  /** Finishing an op cancels no other. */
  lemma FinishMoves(w: World, t: nat)
    requires FuncsExact(w) && Enabled(w, Finish(t)) && !Next(w, Finish(t)).panicked
    ensures OpMoved(w.ops, Next(w, Finish(t)).ops, t, Finished)
  {
    assert !w.ops[t].kind.Forget? ==> Recorded(w.ops[t]);
  }

  /** Ops are only added or cancelled. */
  ghost predicate OpsKept(ops: seq<OpState>, ops': seq<OpState>)
  {
    |ops| <= |ops'| && forall t :: 0 <= t < |ops| ==> SameButCancelled(ops[t], ops'[t])
  }
}
