/** The server's loop over a connection: ops are read, handled in any order and replied to while
    the kernel goes on sending, and the file system is destroyed at the end. Which of these
    comes next is the schedule's choice, and any schedule will do: what cannot happen yet is
    passed over. */
module ServerObject {
  import opened Bytes
  import opened InMessages
  import opened OutMessages
  import opened Protocol
  import opened ProtocolRuns
  import opened Buffers
  import opened ConnectionObject
  import Responses

  /** The kernel sends, the reader reads or fails to, or the handler of the `k`-th op in progress
      comes to an end, with the op as the file system has filled it in. */
  datatype Choice =
    | Arrives(input: Input)
    | Reads
    | ReadBreaks
    | Handles(k: nat, op: Responses.Op, fsResult: Option<Responses.OpError>, fails: bool)

  /** Where the loop is: about to read, handling a forget itself, or past its end. */
  datatype Place = Reading | Inline(t: nat) | Done(clean: bool)

  // ---------------------------------------------------------------- what the kernel has sent

  ghost predicate InputOk(input: Input, bufSize: nat)
  {
    input.Transient? || (input.Message? && |input.data| <= bufSize)
  }

  ghost predicate InputsOk(inputs: seq<Input>, bufSize: nat)
  {
    forall i :: 0 <= i < |inputs| ==> InputOk(inputs[i], bufSize)
  }

  /** The messages among the inputs are in the set. */
  ghost predicate DataIn(inputs: seq<Input>, arrived: set<seq<byte>>)
  {
    forall i :: 0 <= i < |inputs| && inputs[i].Message? ==> inputs[i].data in arrived
  }

  ghost predicate AllIn(requests: seq<seq<byte>>, arrived: set<seq<byte>>)
  {
    forall t :: 0 <= t < |requests| ==> requests[t] in arrived
  }

  lemma OneMoreIn(inputs: seq<Input>, requests: seq<seq<byte>>, arrived: set<seq<byte>>, x: Input)
    requires DataIn(inputs, arrived) && AllIn(requests, arrived)
    ensures var arrived' := if x.Message? then arrived + {x.data} else arrived;
            DataIn(inputs + [x], arrived') && AllIn(requests, arrived')
  {
  }

  lemma {:induction false} MsgsSnoc(inputs: seq<Input>, x: Input)
    ensures Msgs(inputs + [x]) ==
            Msgs(inputs) + if x.Message? && Framed(x.data) then [MsgOf(x.data)] else []
  {
    hide Framed, MsgOf;
    if inputs == [] {
      assert inputs + [x] == [x] && [x][1..] == [];
    } else {
      assert (inputs + [x])[1..] == inputs[1..] + [x];
      MsgsSnoc(inputs[1..], x);
    }
  }

  /** Reading what has been sent, and then the end. */
  lemma {:induction false} SentFeeds(inputs: seq<Input>, bufSize: nat)
    requires InputsOk(inputs, bufSize)
    ensures Feeds(inputs + [HungUp], Msgs(inputs), bufSize)
  {
    hide MsgOf;
    if inputs != [] {
      assert InputOk(inputs[0], bufSize);
      assert (inputs + [HungUp])[1..] == inputs[1..] + [HungUp];
      SentFeeds(inputs[1..], bufSize);
      var x := inputs[0];
      if x.Message? && Framed(x.data) {
        assert Msgs(inputs)[1..] == Msgs(inputs[1..]) && Msgs(inputs)[0] == MsgOf(x.data);
      } else {
        assert Msgs(inputs) == Msgs(inputs[1..]);
      }
    } else {
      assert inputs + [HungUp] == [HungUp];
    }
  }

  /** What is left of that after a read is, again, some inputs and then the end. */
  lemma RestOfInputs(inputs: seq<Input>, rest: seq<Input>, queue: seq<Msg>, bufSize: nat)
    requires InputsOk(inputs, bufSize) && rest != []
    requires Took(inputs + [HungUp], rest, Msgs(inputs), queue)
    ensures var left := rest[..|rest| - 1];
            rest == left + [HungUp] && InputsOk(left, bufSize) && queue == Msgs(left)
  {
    hide Framed, MsgOf, InputOk;
    var (dev, left) := (inputs + [HungUp], rest[..|rest| - 1]);
    var k := |dev| - |rest|;
    assert rest[|rest| - 1] == dev[|dev| - 1] == HungUp;
    assert left == inputs[k..];
    MsgsSnoc(inputs, HungUp);
    MsgsSnoc(left, HungUp);
  }

  // ---------------------------------------------------------------- what has been answered

  /** `requests` are the messages that the ops came from. Exactly the ops with a write have an
      entry in the log, one each, and it carries the ID of the op. */
  ghost predicate LogOk(log: seq<(nat, seq<byte>)>, requests: seq<seq<byte>>, ops: seq<OpState>)
  {
    && |requests| == |ops| && (forall t :: 0 <= t < |ops| ==> RequestOf(requests[t], ops[t]))
    && (forall i :: 0 <= i < |log| ==> EntryOk(log[i], ops))
    && (forall i, j :: 0 <= i < j < |log| ==> log[i].0 != log[j].0)
    && (forall t :: 0 <= t < |ops| && ops[t].writes != 0 ==> exists i :: 0 <= i < |log| && log[i].0 == t)
  }

  ghost predicate RequestOf(b: seq<byte>, o: OpState)
  {
    |b| >= IN_HEADER_SIZE && MsgOf(b) == Request(o.id, o.kind)
  }

  ghost predicate EntryOk(e: (nat, seq<byte>), ops: seq<OpState>)
  {
    && e.0 < |ops| && ops[e.0].writes == 1
    && |e.1| >= HEADER_SIZE && Responses.UniqueField(e.1) == ops[e.0].id
  }

  /** Every reply in the log carries the ID in the header of the request it answers. */
  ghost predicate ForRequests(log: seq<(nat, seq<byte>)>, requests: seq<seq<byte>>)
  {
    forall i :: 0 <= i < |log| ==> log[i].0 < |requests| && ForRequest(log[i].1, requests[log[i].0])
  }

  ghost predicate ForRequest(reply: seq<byte>, b: seq<byte>)
  {
    && |reply| >= HEADER_SIZE
    && forall h: InHeader, payload ::
         h.Fits() && IN_HEADER_SIZE + |payload| < Pow256(4) && b == RequestBytes(h, payload) ==>
           Responses.UniqueField(reply) == h.unique
  }

  lemma LogCarriesIds(log: seq<(nat, seq<byte>)>, requests: seq<seq<byte>>, ops: seq<OpState>)
    requires LogOk(log, requests, ops)
    ensures ForRequests(log, requests)
  {
    hide ForRequest;
    forall i | 0 <= i < |log| ensures log[i].0 < |requests| && ForRequest(log[i].1, requests[log[i].0]) {
      assert EntryOk(log[i], ops) && RequestOf(requests[log[i].0], ops[log[i].0]);
      EntryForRequest(log[i].1, requests[log[i].0], ops[log[i].0]);
    }
  }

  lemma EntryForRequest(reply: seq<byte>, b: seq<byte>, o: OpState)
    requires RequestOf(b, o) && |reply| >= HEADER_SIZE && Responses.UniqueField(reply) == o.id
    ensures ForRequest(reply, b)
  {
    hide Responses.UniqueField, Pow256, LE, FromLE, RequestBytes;
    forall h: InHeader, payload | h.Fits() && IN_HEADER_SIZE + |payload| < Pow256(4) && b == RequestBytes(h, payload)
      ensures Responses.UniqueField(reply) == h.unique
    {
      RequestReadBack(h, payload);
    }
  }

  ghost predicate TellsResult(reply: seq<byte>, op: Responses.Op, fsResult: Option<Responses.OpError>)
  {
    |reply| >= HEADER_SIZE && Responses.TellsResult(reply, op, fsResult)
  }

  /** The schedule has this message arrive. */
  ghost predicate SentBy(b: seq<byte>, schedule: seq<Choice>)
  {
    exists s :: s in schedule && s.Arrives? && s.input.Message? && s.input.data == b
  }

  /** Every reply in the log from `k` on tells what the file system made of some op that a handler
      of the schedule ended with. */
  ghost predicate Reported(log: seq<(nat, seq<byte>)>, k: nat, schedule: seq<Choice>)
  {
    forall i :: k <= i < |log| ==> exists s :: s in schedule && s.Handles? && TellsResult(log[i].1, s.op, s.fsResult)
  }

  /** Ops that change neither their ID and kind nor their writes. */
  lemma LogKept(log: seq<(nat, seq<byte>)>, requests: seq<seq<byte>>, ops: seq<OpState>, ops': seq<OpState>)
    requires LogOk(log, requests, ops) && |ops| == |ops'|
    requires forall t :: 0 <= t < |ops| ==>
               ops'[t].id == ops[t].id && ops'[t].kind == ops[t].kind && ops'[t].writes == ops[t].writes
    ensures LogOk(log, requests, ops')
  {
    hide Responses.UniqueField, MsgOf;
    assert forall i :: 0 <= i < |log| ==> EntryOk(log[i], ops);
    assert forall t :: 0 <= t < |ops| ==> RequestOf(requests[t], ops[t]);
  }

  /** A new op, without a write. */
  lemma LogGrows(log: seq<(nat, seq<byte>)>, requests: seq<seq<byte>>, ops: seq<OpState>, b: seq<byte>)
    requires ops != [] && LogOk(log, requests, ops[..|ops| - 1])
    requires ops[|ops| - 1].writes == 0 && RequestOf(b, ops[|ops| - 1])
    ensures LogOk(log, requests + [b], ops)
  {
    hide Responses.UniqueField, MsgOf;
    var before := ops[..|ops| - 1];
    assert forall i :: 0 <= i < |log| ==> EntryOk(log[i], before);
    assert forall t :: 0 <= t < |before| ==> RequestOf(requests[t], before[t]);
  }

  /** Op `t`, which had no write, gets one and an entry. */
  lemma LogAdd(log: seq<(nat, seq<byte>)>, requests: seq<seq<byte>>, ops: seq<OpState>, ops': seq<OpState>,
               t: nat, reply: seq<byte>)
    requires LogOk(log, requests, ops) && |ops| == |ops'| && t < |ops| && ops[t].writes == 0 && ops'[t].writes == 1
    requires forall u :: 0 <= u < |ops| ==> ops'[u].id == ops[u].id && ops'[u].kind == ops[u].kind
    requires forall u :: 0 <= u < |ops| && u != t ==> ops'[u].writes == ops[u].writes
    requires |reply| >= HEADER_SIZE && Responses.UniqueField(reply) == ops'[t].id
    ensures LogOk(log + [(t, reply)], requests, ops')
  {
    hide Responses.UniqueField, MsgOf;
    var log' := log + [(t, reply)];
    assert forall u :: 0 <= u < |ops| ==> RequestOf(requests[u], ops[u]);
    assert forall i :: 0 <= i < |log| ==> EntryOk(log[i], ops) && log[i].0 != t;
    forall i | 0 <= i < |log'| ensures EntryOk(log'[i], ops') {
      if i < |log| { assert EntryOk(log[i], ops); }
    }
    forall u | 0 <= u < |ops'| && ops'[u].writes != 0 ensures exists i :: 0 <= i < |log'| && log'[i].0 == u {
      if u == t {
        assert log'[|log|].0 == t;
      } else {
        var i :| 0 <= i < |log| && log[i].0 == u;
        assert log'[i].0 == u;
      }
    }
  }

  // ---------------------------------------------------------------- the server

  class FileSystemServer {
    const c: Connection
    var opsInFlight: nat
    /** The kernel: what it has sent that has not been read, and the IDs it has in use. */
    var inputs: seq<Input>
    var busy: set<nat>
    /** The loop, the ops in progress, and the replies written so far with their ops. */
    var place: Place
    var pending: seq<Context>
    var log: seq<(nat, seq<byte>)>
    /** The messages the kernel has sent, and those that the ops came from, in the order they did. */
    ghost var arrived: set<seq<byte>>
    ghost var requests: seq<seq<byte>>

    /** What is waiting to be read and what has been read was sent. */
    ghost predicate ArrivedOk()
      reads this
    {
      DataIn(inputs, arrived) && AllIn(requests, arrived)
    }

    ghost predicate PlaceOk()
      reads this, c
    {
      match place
      case Reading => c.w.reader.Idle?
      case Inline(t) => c.w.reader == Serving(t)
      case Done(clean) => c.w.reader == Stopped(clean)
    }

    /** The ops in progress are ready to be replied to, each with its own context. */
    ghost predicate PendingOk()
      reads *
    {
      && (forall i :: 0 <= i < |pending| ==> c.Ready(pending[i].t) && c.Has(pending[i]))
      && (forall i, j :: 0 <= i < j < |pending| ==> pending[i].t != pending[j].t)
    }

    ghost predicate Inv()
      reads *
    {
      && c.Valid() && opsInFlight == c.w.inFlight && busy == c.w.busy && !c.w.destroyed
      && PlaceOk() && PendingOk() && LogOk(log, requests, c.w.ops)
      && InputsOk(inputs, c.bufSize) && (!place.Done? ==> c.w.queue == Msgs(inputs)) && ArrivedOk()
    }

    /** All buffers that are free or in the hands of a handler. */
    ghost function Owned(): set<object>
      reads this, c, c.inMessages, c.outMessages
    {
      c.FreeIn() + c.FreeOut() + set i, o | 0 <= i < |pending| && o in Parts(pending[i]) :: o
    }

    constructor (bufSize: nat)
      requires bufSize >= IN_HEADER_SIZE
      ensures Inv() && fresh(c) && fresh(c.inMessages) && fresh(c.outMessages) && Owned() == {}
    {
      hide Connection.Tied, Connection.Traced;
      c := new Connection(bufSize);
      opsInFlight, inputs, busy, place, pending, log := 0, [], {}, Reading, [], [];
      arrived, requests := {}, [];
      new;
      NewConnection(c);
    }

    /** The kernel sends a message, if it may use the ID, or a read is going to be cut short. */
    method Arrive(input: Input)
      requires Inv()
      modifies this`inputs, this`busy, this`arrived, c`trace, c`w
      ensures Inv() && old(c.trace) <= c.trace
      ensures arrived <= old(arrived) + if input.Message? then {input.data} else {}
    {
      hide MsgOf, Connection.Valid, LogOk, Msgs, Next, DataIn, AllIn, PendingOk, InputsOk;
      MsgsSnoc(inputs, input);
      if input.Message? && |input.data| <= c.bufSize {
        if Framed(input.data) {
          var msg := MsgOf(input.data);
          if msg.Request? && msg.id in busy {
            return;
          }
          Announce(msg);
        }
      } else if !input.Transient? {
        return;
      }
      Enqueue(input);
    }

    /** What has been sent waits to be read. */
    method Enqueue(input: Input)
      requires c.Valid() && opsInFlight == c.w.inFlight && busy == c.w.busy && !c.w.destroyed
      requires PlaceOk() && PendingOk() && LogOk(log, requests, c.w.ops) && ArrivedOk()
      requires InputsOk(inputs, c.bufSize) && InputOk(input, c.bufSize)
      requires !place.Done? ==> c.w.queue == Msgs(inputs + [input])
      modifies this`inputs, this`arrived
      ensures Inv() && arrived <= old(arrived) + if input.Message? then {input.data} else {}
    {
      hide MsgOf, Safe, Connection.Tied, Connection.Traced, LogOk, Msgs, DataIn, AllIn;
      OneMoreIn(inputs, requests, arrived, input);
      inputs := inputs + [input];
      if input.Message? {
        arrived := arrived + {input.data};
      }
    }

    /** The kernel puts a message on its queue, and has its ID in use if there will be a reply. */
    method Announce(msg: Msg)
      requires Inv() && (msg.Request? ==> msg.id !in busy)
      modifies this`busy, c`trace, c`w
      ensures c.Valid() && old(c.trace) <= c.trace && c.w.queue == old(c.w.queue) + [msg]
      ensures opsInFlight == c.w.inFlight && busy == c.w.busy && !c.w.destroyed
      ensures PlaceOk() && PendingOk() && LogOk(log, requests, c.w.ops)
    {
      hide MsgOf, Safe, Connection.Tied, Connection.Traced, LogOk, Msgs, Next, ArrivedOk, InputsOk;
      NotPanicked(c);
      SendIs(c.w, msg);
      c.Elsewhere(Send(msg));
      if MsgHoldsId(msg) {
        busy := busy + {msg.id};
      }
    }

    /** One call of `ReadOp`: an op is handed to a handler, unless it is a forget, which the
        loop handles itself, or the loop ends. */
    method ReadNext(breaks: bool)
      requires Inv() && place.Reading?
      modifies this, c, c.inMessages, c.outMessages, c.FreeIn(), c.FreeOut()
      ensures Inv() && old(c.trace) <= c.trace && forall o :: o in Owned() ==> o in old(Owned()) || fresh(o)
      ensures arrived == old(arrived) && log == old(log)
    {
      hide MsgOf, Safe, Connection.Tied, Connection.Traced, Framed, FromLE, Feeds, Msgs, Took, LogOk;
      hide PendingOk, Connection.Has, Owned, Connection.FreeIn, Connection.FreeOut, InputsOk, DataIn, AllIn, OpsKept;
      hide Connection.CameFrom, Connection.Ready, Connection.Started;
      var dev := if breaks then [Failure] else inputs + [HungUp];
      InputFeeds(breaks);
      NotABuffer();
      var r, rest := c.ReadOp(dev);
      PendingKept();
      LogStays();
      if r.Op? {
        OpComesFromInputs(old(inputs), dev, rest, old(c.w.queue), c.w.queue, c.bufSize, breaks);
        JustStarted(c, r.ctx, dev[|dev| - |rest| - 1], |old(c.w.ops)|, opsInFlight);
        TakenFromInputs(old(inputs), dev, rest, arrived);
        Accept(r.ctx, dev[|dev| - |rest| - 1], rest[..|rest| - 1]);
      } else {
        assert c.w.ops[..|old(c.w.ops)|] == c.w.ops;
        Stop(r.EOF?);
      }
      OwnedGrows();
    }

    /** What the reader does leaves the ops in progress as they are. */
    twostate lemma PendingKept()
      requires old(PendingOk()) && pending == old(pending) && OpsKept(old(c.w.ops), c.w.ops)
      requires Grown(old(c.ins), c.ins) && Grown(old(c.outs), c.outs)
      requires forall t: nat :: t < |old(c.w.ops)| && old(c.Ready(t)) ==> c.Ready(t)
      ensures PendingOk() && forall i :: 0 <= i < |pending| ==> pending[i].t < |old(c.w.ops)|
    {
      forall i | 0 <= i < |pending|
        ensures pending[i].t < |old(c.w.ops)| && c.Ready(pending[i].t) && c.Has(pending[i])
      {
        var ctx := pending[i];
        assert old(c.Ready(ctx.t)) && old(c.Has(ctx));
        assert SameButCancelled(old(c.w.ops)[ctx.t], c.w.ops[ctx.t]);
      }
    }

    /** The loop ends. */
    method Stop(clean: bool)
      requires c.Valid() && opsInFlight == c.w.inFlight && busy == c.w.busy && !c.w.destroyed
      requires c.w.reader == Stopped(clean) && PendingOk() && LogOk(log, requests, c.w.ops)
      requires InputsOk(inputs, c.bufSize) && ArrivedOk()
      modifies this`place
      ensures Inv()
    {
      hide Safe, Connection.Tied, Connection.Traced, LogOk, InputsOk, Msgs, DataIn, AllIn;
      place := Done(clean);
    }

    lemma NotABuffer()
      ensures this !in c.FreeIn() + c.FreeOut()
    {
    }

    /** The buffers of a new op were free, or are new. */
    twostate lemma OwnedGrows()
      requires old(pending) <= pending && |pending| <= |old(pending)| + 1
      requires forall o :: o in c.FreeIn() + c.FreeOut() ==> o in old(c.FreeIn() + c.FreeOut()) || fresh(o)
      requires |pending| > |old(pending)| ==>
                 forall o :: o in Parts(pending[|old(pending)|]) ==> o in old(c.FreeIn() + c.FreeOut()) || fresh(o)
      ensures forall o :: o in Owned() ==> o in old(Owned()) || fresh(o)
    {
      hide Connection.FreeIn, Connection.FreeOut;
      forall i, o | 0 <= i < |pending| && o in Parts(pending[i]) ensures o in old(Owned()) || fresh(o) {
        if i < |old(pending)| { assert pending[i] == old(pending)[i]; }
      }
    }

    twostate lemma LogStays()
      requires LogOk(log, requests, old(c.w.ops)) && OpsKept(old(c.w.ops), c.w.ops)
      ensures LogOk(log, requests, c.w.ops[..|old(c.w.ops)|])
    {
      hide LogOk;
      var (ops, ops') := (old(c.w.ops), c.w.ops);
      assert forall t :: 0 <= t < |ops| ==> SameButCancelled(ops[t], ops'[t]);
      LogKept(log, requests, ops, ops'[..|ops|]);
    }

    /** Start the handler of an op. */
    method Accept(ctx: Context, ghost input: Input, left: seq<Input>)
      requires c.Valid() && |c.w.ops| > 0 && c.Started(ctx, |c.w.ops| - 1, opsInFlight)
      requires busy == c.w.busy && !c.w.destroyed && PendingOk() && LogOk(log, requests, c.w.ops[..|c.w.ops| - 1])
      requires (forall i :: 0 <= i < |pending| ==> pending[i].t < ctx.t)
      requires InputsOk(left, c.bufSize) && c.w.queue == Msgs(left) && DataIn(left, arrived)
      requires c.CameFrom(ctx, input) && input.data in arrived && AllIn(requests, arrived)
      modifies this`opsInFlight, this`pending, this`place, this`requests, this`inputs
      ensures Inv() && pending == old(pending) + [ctx]
    {
      hide MsgOf, Safe, Connection.Tied, Connection.Traced, FromLE, LogOk;
      NoWriteYet(c, ctx.t);
      LogGrows(log, requests, c.w.ops, input.data);
      requests := requests + [input.data];
      inputs := left;
      opsInFlight := opsInFlight + 1;
      pending := pending + [ctx];
      place := if Opcode(ctx.inMsg.storage[..IN_HEADER_SIZE]) == OP_FORGET then Inline(ctx.t) else Reading;
    }

    /** The handler of the `k`-th op in progress comes to an end: `handleOp` replies, and the
        counter goes down. `crashed` is the panic on a reply that cannot be built. */
    method Handle(k: nat, op: Responses.Op, fsResult: Option<Responses.OpError>, fails: bool) returns (crashed: bool)
      requires Inv()
      modifies this, c, c.inMessages, c.outMessages, Owned()
      ensures !crashed ==> Inv() && old(c.trace) <= c.trace && Owned() <= old(Owned()) && arrived == old(arrived)
      ensures crashed ==> Responses.Cuts(op) && fsResult.None?
      ensures !crashed ==> old(log) <= log && |log| <= |old(log)| + 1
      ensures !crashed && |log| > |old(log)| ==> TellsResult(log[|old(log)|].1, op, fsResult)
    {
      hide MsgOf, Safe, Connection.Tied, Connection.Traced, Framed, FromLE, LogOk, Msgs, PendingOk, InputsOk;
      hide Responses.TellsResult;
      if k >= |pending| {
        return false;
      }
      var t, id, kind := HeaderOf(k);
      if Responses.NoReply(op) != !kind.Other? {
        return false;
      }
      assert Parts(pending[k]) <= Owned();
      var sent, ok := Replies(k, op, fsResult, fails);
      if !ok {
        return true;
      }
      Settles(k, sent, if kind.Forget? then busy else busy - {id}, old(c.w.ops));
      OwnedAfter(k);
      return false;
    }

    /** What the request of an op in progress says of it. */
    method HeaderOf(k: nat) returns (t: nat, id: nat, kind: Kind)
      requires PendingOk() && k < |pending|
      ensures t == pending[k].t < |c.w.ops| && c.w.ops[t].id == id && c.w.ops[t].kind == kind && id < Pow256(8)
    {
      hide FromLE, Pow256;
      var header := pending[k].inMsg.storage[..IN_HEADER_SIZE];
      FromLEFits(header[8..16]);
      return pending[k].t, Unique(header), KindOf(Opcode(header));
    }

    /** The reply of a handler, and what it leaves for the others. */
    method Replies(k: nat, op: Responses.Op, fsResult: Option<Responses.OpError>, fails: bool)
      returns (sent: Option<seq<byte>>, ok: bool)
      requires Inv() && k < |pending| && (Responses.NoReply(op) <==> !c.w.ops[pending[k].t].kind.Other?)
      modifies c, c.inMessages, c.outMessages, pending[k].outMsg
      ensures !ok ==> Responses.Cuts(op) && fsResult.None?
      ensures sent.Some? ==> TellsResult(sent.value, op, fsResult)
      ensures ok ==> Replied(k) && old(c.trace) <= c.trace
      ensures ok ==>
                var (t, ops) := (pending[k].t, old(c.w.ops));
                && OpMoved(ops, c.w.ops, t, BothReturned) && ops[t].writes == 0
                && (sent.Some? <==> c.w.ops[t].kind.Other? && !c.w.ops[t].failed)
                && (sent.Some? ==> |sent.value| >= HEADER_SIZE && Responses.UniqueField(sent.value) == c.w.ops[t].id)
                && c.w.busy == (if ops[t].kind.Forget? then old(c.w.busy) else old(c.w.busy) - {ops[t].id})
                && c.w.queue == old(c.w.queue) && c.w.inFlight == old(c.w.inFlight)
                && c.inMessages.list == old(c.inMessages.list) + [pending[k].inMsg]
                && c.outMessages.list == old(c.outMessages.list) + [pending[k].outMsg]
    {
      hide MsgOf, Safe, Connection.Tied, Connection.Traced, Framed, FromLE, LogOk, Msgs, Gather, HeaderBytes;
      hide Responses.ReplyBody, Responses.UniqueField, HandlerOnly, InputsOk, Responses.TellsResult;
      var t, id, kind := HeaderOf(k);
      var err := Responses.Dispatch(op, fsResult);
      NoWriteYet(c, t);
      sent, ok := c.Reply(pending[k], op, err, fails);
      if ok {
        if sent.Some? {
          Told(sent.value, id, op, fsResult, old(pending[k].outMsg.Body()));
          CarriesId(sent.value, id);
        }
        OthersKept(k);
        ReplyKeeps(k);
      }
    }

    /** The `k`-th op has been replied to, and the others are ready. */
    ghost predicate Replied(k: nat)
      reads *
    {
      && c.Valid() && !c.w.destroyed && PlaceOk()
      && k < |pending| && At(c.w, pending[k].t, BothReturned)
      && (forall i :: 0 <= i < |pending| && i != k ==> c.Ready(pending[i].t) && c.Has(pending[i]))
      && (forall i, j :: 0 <= i < j < |pending| ==> pending[i].t != pending[j].t)
    }

    /** Keep the reply, give the ID back and leave. */
    method Settles(k: nat, sent: Option<seq<byte>>, busy: set<nat>, ghost ops: seq<OpState>)
      requires Replied(k) && opsInFlight == c.w.inFlight && busy == c.w.busy && LogOk(log, requests, ops)
      requires OpMoved(ops, c.w.ops, pending[k].t, BothReturned) && ops[pending[k].t].writes == 0
      requires var o := c.w.ops[pending[k].t];
               && (sent.Some? <==> o.kind.Other? && !o.failed)
               && (sent.Some? ==> |sent.value| >= HEADER_SIZE && Responses.UniqueField(sent.value) == o.id)
      requires InputsOk(inputs, c.bufSize) && (!place.Done? ==> c.w.queue == Msgs(inputs)) && ArrivedOk()
      modifies this`log, this`busy, this`opsInFlight, this`pending, this`place, c`trace, c`w
      ensures Inv() && old(c.trace) <= c.trace && pending == old(pending[..k] + pending[k + 1..])
      ensures log == old(log) + if sent.Some? then [(old(pending)[k].t, sent.value)] else []
    {
      hide Safe, Connection.Tied, Connection.Traced, LogOk, Msgs, InputsOk, Responses.UniqueField, OpMoved;
      Records(pending[k].t, sent, ops);
      this.busy := busy;
      Leaves(k);
    }

    /** Keep a reply that has been written. */
    method Records(t: nat, sent: Option<seq<byte>>, ghost ops: seq<OpState>)
      requires c.Valid() && LogOk(log, requests, ops) && OpMoved(ops, c.w.ops, t, BothReturned) && ops[t].writes == 0
      requires sent.Some? <==> c.w.ops[t].kind.Other? && !c.w.ops[t].failed
      requires sent.Some? ==> |sent.value| >= HEADER_SIZE && Responses.UniqueField(sent.value) == c.w.ops[t].id
      modifies this`log
      ensures LogOk(log, requests, c.w.ops)
      ensures log == old(log) + if sent.Some? then [(t, sent.value)] else []
    {
      hide Safe, Connection.Tied, Connection.Traced, LogOk, Responses.UniqueField;
      WritesAre(c, t);
      if sent.Some? {
        LogAdd(log, requests, ops, c.w.ops, t, sent.value);
        log := log + [(t, sent.value)];
      } else {
        LogKept(log, requests, ops, c.w.ops);
      }
    }

    /** A reply leaves the other ops in progress as they are. */
    twostate lemma OthersKept(k: nat)
      requires old(PendingOk()) && pending == old(pending) && k < |pending|
      requires OpMoved(old(c.w.ops), c.w.ops, pending[k].t, BothReturned)
      requires c.ins == old(c.ins) && c.outs == old(c.outs)
      requires forall u: nat :: u < |old(c.w.ops)| && u != pending[k].t && old(c.Ready(u)) ==> c.Ready(u)
      ensures forall i :: 0 <= i < |pending| && i != k ==> c.Ready(pending[i].t) && c.Has(pending[i])
      ensures forall i, j :: 0 <= i < j < |pending| ==> pending[i].t != pending[j].t
      ensures At(c.w, pending[k].t, BothReturned)
    {
      forall i | 0 <= i < |pending| && i != k ensures c.Ready(pending[i].t) && c.Has(pending[i]) {
        assert old(c.Ready(pending[i].t)) && old(c.Has(pending[i]));
      }
    }

    twostate lemma ReplyKeeps(k: nat)
      requires old(Inv()) && HandlerOnly(old(c.w), c.w) && place == old(place)
      ensures PlaceOk() && !c.w.destroyed && c.w.queue == old(c.w.queue) && c.w.inFlight == old(c.w.inFlight)
    {
      hide Safe, Connection.Tied, Connection.Traced, LogOk, PendingOk, Msgs;
    }

    /** The buffers of the op go from its handler to the free lists. */
    twostate lemma OwnedAfter(k: nat)
      requires k < |old(pending)| && pending == old(pending[..k] + pending[k + 1..])
      requires c.inMessages.list == old(c.inMessages.list + [pending[k].inMsg])
      requires c.outMessages.list == old(c.outMessages.list + [pending[k].outMsg])
      ensures Owned() <= old(Owned())
    {
      assert Parts(old(pending)[k]) <= old(Owned());
      forall i, o | 0 <= i < |pending| && o in Parts(pending[i]) ensures o in old(Owned()) {
        var j := if i < k then i else i + 1;
        assert pending[i] == old(pending)[j];
      }
    }

    /** `opsInFlight.Done`; after a forget the loop reads on. */
    method Leaves(k: nat)
      requires Replied(k) && opsInFlight == c.w.inFlight && busy == c.w.busy && LogOk(log, requests, c.w.ops)
      requires InputsOk(inputs, c.bufSize) && (!place.Done? ==> c.w.queue == Msgs(inputs)) && ArrivedOk()
      modifies this`opsInFlight, this`pending, this`place, c`trace, c`w
      ensures Inv() && old(c.trace) <= c.trace && pending == old(pending[..k] + pending[k + 1..])
    {
      hide Safe, Connection.Tied, Connection.Traced, LogOk, Msgs, InputsOk, Next;
      var t := pending[k].t;
      StillCounted(c, t);
      opsInFlight := opsInFlight - 1;
      LeaveIs(c.w, t);
      c.Elsewhere(Leave(t));
      LogKept(log, requests, old(c.w.ops), c.w.ops);
      pending := pending[..k] + pending[k + 1..];
      if place == Inline(t) {
        place := Reading;
      }
      OthersStay(k);
    }

    twostate lemma OthersStay(k: nat)
      requires old(Replied(k)) && pending == old(pending[..k] + pending[k + 1..])
      requires c.ins == old(c.ins) && c.outs == old(c.outs) && |c.w.ops| == |old(c.w.ops)|
      requires forall u :: 0 <= u < |c.w.ops| && u != old(pending)[k].t ==> c.w.ops[u] == old(c.w.ops)[u]
      requires forall m :: m in old(c.ins.Values) ==> unchanged(m)
      requires forall m :: m in old(c.ins.Values) ==> unchanged(m.storage)
      requires forall x :: x in old(c.outs.Values) ==> unchanged(x)
      ensures PendingOk()
    {
      hide Safe, Connection.Tied, Connection.Traced;
      forall i | 0 <= i < |pending| ensures c.Ready(pending[i].t) && c.Has(pending[i]) {
        var j := if i < k then i else i + 1;
        var ctx := pending[i];
        assert ctx == old(pending)[j];
        assert old(c.Ready(ctx.t)) && old(c.Has(ctx));
        assert ctx.inMsg in old(c.ins.Values) && ctx.outMsg in old(c.outs.Values);
        c.StillReady(ctx.t);
      }
    }

    /** Serve ops as the schedule has it. The loop has `returned` once it has ended and all
        handlers have left; then the file system has been destroyed, and every op that was
        read has been replied to, with one reply written that carries its ID exactly if the
        kernel expects one and the write did not fail. */
    method ServeOps(schedule: seq<Choice>) returns (returned: bool, crashed: bool)
      requires Inv()
      modifies this, c, c.inMessages, c.outMessages, Owned()
      ensures crashed ==> exists s :: s in schedule && s.Handles? && Responses.Cuts(s.op) && s.fsResult.None?
      ensures !crashed ==> c.Valid() && old(c.trace) <= c.trace && LogOk(log, requests, c.w.ops)
      ensures !crashed ==> old(log) <= log && ForRequests(log, requests) && Reported(log, |old(log)|, schedule)
      ensures !crashed ==> AllIn(requests, arrived)
      ensures !crashed ==> forall b :: b in arrived ==> b in old(arrived) || SentBy(b, schedule)
      ensures returned <==> !crashed && place.Done? && opsInFlight == 0
      ensures returned ==> AllAnswered()
    {
      hide Inv, Owned, LogOk, TellsResult, ForRequests, AllIn, DataIn, AllAnswered, Connection.Valid;
      for i := 0 to |schedule|
        invariant Inv() && old(c.trace) <= c.trace && forall o :: o in Owned() ==> o in old(Owned()) || fresh(o)
        invariant old(log) <= log && Reported(log, |old(log)|, schedule)
        invariant forall b :: b in arrived ==> b in old(arrived) || SentBy(b, schedule)
      {
        assert schedule[i] in schedule;
        crashed := Take(schedule[i]);
        if crashed {
          return false, true;
        }
        assert schedule[i].Arrives? && schedule[i].input.Message? ==> SentBy(schedule[i].input.data, schedule);
      }
      crashed := false;
      returned := Ends();
    }

    /** Let one thing happen, if it can. */
    method Take(choice: Choice) returns (crashed: bool)
      requires Inv()
      modifies this, c, c.inMessages, c.outMessages, Owned()
      ensures crashed ==> choice.Handles? && Responses.Cuts(choice.op) && choice.fsResult.None?
      ensures !crashed ==> Inv() && old(c.trace) <= c.trace
      ensures !crashed ==> forall o :: o in Owned() ==> o in old(Owned()) || fresh(o)
      ensures !crashed ==> old(log) <= log && |log| <= |old(log)| + 1
      ensures !crashed && |log| > |old(log)| ==>
                choice.Handles? && TellsResult(log[|old(log)|].1, choice.op, choice.fsResult)
      ensures !crashed ==>
                arrived <= old(arrived) + if choice.Arrives? && choice.input.Message? then {choice.input.data} else {}
    {
      hide Connection.Tied, Connection.Traced, LogOk, PendingOk, Safe, InputsOk, Msgs, TellsResult, ArrivedOk;
      crashed := false;
      match choice {
        case Arrives(input) =>
          Arrive(input);
        case Reads =>
          if place.Reading? { ReadNext(false); }
        case ReadBreaks =>
          if place.Reading? { ReadNext(true); }
        case Handles(k, op, fsResult, fails) =>
          crashed := Handle(k, op, fsResult, fails);
      }
    }

    /** If the loop has ended and all handlers have left, destroy the file system. */
    method Ends() returns (returned: bool)
      requires Inv()
      modifies c`trace, c`w
      ensures c.Valid() && old(c.trace) <= c.trace && LogOk(log, requests, c.w.ops) && ForRequests(log, requests)
      ensures ArrivedOk()
      ensures returned <==> place.Done? && opsInFlight == 0
      ensures returned ==> AllAnswered()
    {
      hide Connection.Tied, Connection.Traced, LogOk, PendingOk, Safe, InputsOk, Msgs, ForRequests, ArrivedOk;
      returned := false;
      LogCarriesIds(log, requests, c.w.ops);
      if place.Done? && opsInFlight == 0 {
        NotPanicked(c);
        c.Elsewhere(Destroy);
        LogKept(log, requests, c.w.ops, c.w.ops);
        returned := true;
        Answered(c, log, requests);
      }
    }

    /** The file system is destroyed, all handlers have left, and the replies are written. */
    ghost predicate AllAnswered()
      reads this, c
    {
      && c.w.destroyed
      && forall t :: 0 <= t < |c.w.ops| ==>
           && c.w.ops[t].phase.Left? && c.w.ops[t].replies == 1
           && (c.w.ops[t].kind.Other? && !c.w.ops[t].failed <==> exists i :: 0 <= i < |log| && log[i].0 == t)
    }

    lemma InputFeeds(breaks: bool)
      requires Inv() && place.Reading?
      ensures Feeds(if breaks then [Failure] else inputs + [HungUp], c.w.queue, c.bufSize)
    {
      hide Connection.Tied, Connection.Traced, Framed, MsgOf;
      SentFeeds(inputs, c.bufSize);
    }
  }

  /** An op can only come from what the kernel has sent. */
  lemma OpComesFromInputs(inputs: seq<Input>, dev: seq<Input>, rest: seq<Input>, queue: seq<Msg>, queue': seq<Msg>,
                          bufSize: nat, breaks: bool)
    requires InputsOk(inputs, bufSize) && queue == Msgs(inputs)
    requires dev == if breaks then [Failure] else inputs + [HungUp]
    requires Took(dev, rest, queue, queue') && Feeds(rest, queue', bufSize)
    ensures !breaks && 0 < |rest| < |dev| && rest == dev[|dev| - |rest|..]
    ensures InputsOk(rest[..|rest| - 1], bufSize) && queue' == Msgs(rest[..|rest| - 1])
  {
    hide MsgOf, Framed;
    MsgsSnoc(inputs, HungUp);
    RestOfInputs(inputs, rest, queue', bufSize);
  }

  lemma JustStarted(c: Connection, ctx: Context, input: Input, t: nat, inFlight: nat)
    requires c.Started(ctx, t, inFlight) && c.CameFrom(ctx, input)
    ensures ctx.t == t == |c.w.ops| - 1 && input.Message?
  {
  }

  /** What has been read and what is left is what was sent. */
  lemma TakenFromInputs(inputs: seq<Input>, dev: seq<Input>, rest: seq<Input>, arrived: set<seq<byte>>)
    requires dev == inputs + [HungUp] && 0 < |rest| < |dev| && rest == dev[|dev| - |rest|..] && DataIn(inputs, arrived)
    ensures var input := dev[|dev| - |rest| - 1]; input.Message? ==> input.data in arrived
    ensures DataIn(rest[..|rest| - 1], arrived)
  {
    var k := |dev| - |rest|;
    assert rest[..|rest| - 1] == inputs[k..];
  }

  /** A reply built for the error that is passed on tells the result. */
  lemma Told(reply: seq<byte>, id: nat, op: Responses.Op, fsResult: Option<Responses.OpError>, grown: seq<byte>)
    requires !Responses.NoReply(op) && (Responses.Dispatch(op, fsResult).None? ==> !Responses.Panics(op, grown))
    requires var (err, len) := (Responses.Dispatch(op, fsResult), |reply| % 0x1_0000_0000);
             if err.Some? then reply == HeaderBytes(Header(len, Responses.ErrorField(err.value), id))
             else reply == HeaderBytes(Header(len, 0, id)) + Responses.ReplyBody(op, grown)
    ensures TellsResult(reply, op, fsResult)
    ensures exists len: nat, error: int, body :: reply == HeaderBytes(Header(len, error, id)) + body
  {
    hide HeaderBytes, Responses.ReplyBody, Responses.Panics, Responses.TellsResult;
    var (err, len) := (Responses.Dispatch(op, fsResult), |reply| % 0x1_0000_0000);
    var error := if err.Some? then Responses.ErrorField(err.value) else 0;
    var body := if err.Some? then [] else Responses.ReplyBody(op, grown);
    assert reply == HeaderBytes(Header(len, error, id)) + body;
    Responses.ReplyTellsResult(Header(len, error, id), body, op, fsResult);
  }

  /** An op in progress has had no write. */
  lemma NoWriteYet(c: Connection, t: nat)
    requires c.Valid() && At(c.w, t, Begun)
    ensures c.w.ops[t].writes == 0
  {
    hide IsRun, Run, Connection.Tied, FuncsExact, IdsExclusive, BuffersOk;
    assert RepliesOk(c.w.ops[t]);
  }

  lemma WritesAre(c: Connection, t: nat)
    requires c.Valid() && At(c.w, t, BothReturned)
    ensures c.w.ops[t].writes == if c.w.ops[t].kind.Other? && !c.w.ops[t].failed then 1 else 0
  {
    hide IsRun, Run, Connection.Tied, FuncsExact, IdsExclusive, BuffersOk;
    assert RepliesOk(c.w.ops[t]);
  }

  /** A handler that has not left is counted. */
  lemma StillCounted(c: Connection, t: nat)
    requires c.Valid() && t < |c.w.ops| && !c.w.ops[t].phase.Left?
    ensures c.w.inFlight > 0 && !c.w.panicked
  {
    hide IsRun, Run, Connection.Tied, FuncsExact, IdsExclusive, BuffersOk, Running;
    RunningPositive(c.w.ops, t);
  }

  /** A reply built for an ID has that ID. */
  lemma CarriesId(reply: seq<byte>, id: nat)
    requires id < Pow256(8)
    requires exists len: nat, error: int, body :: reply == HeaderBytes(Header(len, error, id)) + body
    ensures |reply| >= HEADER_SIZE && Responses.UniqueField(reply) == id
  {
    hide LE, FromLE, Pow256;
    var len: nat, error: int, body :| reply == HeaderBytes(Header(len, error, id)) + body;
    assert reply[8..16] == LE(id, 8);
    FitsInField(id, 8);
  }

  lemma Answered(c: Connection, log: seq<(nat, seq<byte>)>, requests: seq<seq<byte>>)
    requires c.Valid() && c.w.destroyed && LogOk(log, requests, c.w.ops)
    ensures forall t :: 0 <= t < |c.w.ops| ==>
              && c.w.ops[t].phase.Left? && c.w.ops[t].replies == 1
              && (c.w.ops[t].kind.Other? && !c.w.ops[t].failed <==> exists i :: 0 <= i < |log| && log[i].0 == t)
  {
    hide Safe, Connection.Tied, IsRun, Run;
    DestroyedAfterAllReplies(c.trace, Destroy);
    forall t | 0 <= t < |c.w.ops|
      ensures c.w.ops[t].writes == 1 <==> exists i :: 0 <= i < |log| && log[i].0 == t
    {
      if i :| 0 <= i < |log| && log[i].0 == t { assert EntryOk(log[i], c.w.ops); }
    }
  }

  lemma SendIs(w: World, msg: Msg)
    requires Enabled(w, Send(msg))
    ensures Next(w, Send(msg)) ==
            w.(queue := w.queue + [msg], busy := if MsgHoldsId(msg) then w.busy + {msg.id} else w.busy)
  {
  }

  lemma LeaveIs(w: World, t: nat)
    requires Enabled(w, Leave(t)) && w.inFlight > 0
    ensures var w' := Next(w, Leave(t));
            && w'.ops == w.ops[t := w.ops[t].(phase := Left)] && w'.inFlight == w.inFlight - 1
            && w'.queue == w.queue && w'.busy == w.busy && w'.destroyed == w.destroyed
            && w'.reader == if w.reader == Serving(t) then Idle else w.reader
  {
  }

  lemma NewConnection(c: Connection)
    requires c.Valid() && c.trace == []
    ensures c.w == Start() && c.FreeIn() == {} && c.FreeOut() == {}
  {
    RunNothing(Start());
    hide Safe, FuncsTied, Named, Storages, IsRun, Run;
  }

  lemma NotPanicked(c: Connection)
    requires c.Valid()
    ensures !c.w.panicked
  {
  }
}
