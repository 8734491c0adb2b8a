/** Filling in and sending the reply to an op: `handleOp`'s dispatch and
    `kernelResponse`. */
module Responses {
  import opened Bytes
  import opened OutMessages

  /** Ops answered with one reply struct of fixed size. */
  datatype StructOp = LookUpInode | GetInodeAttributes | SetInodeAttributes | MkDir | MkNode | CreateSymlink
    | CreateLink | OpenDir | OpenFile | WriteFile | StatFS

  /** Ops answered with a bare header. */
  datatype EmptyOp = Rename | RmDir | Unlink | ReleaseDirHandle | SyncFile | FlushFile | ReleaseFileHandle
    | RemoveXattr | SetXattr | Fallocate | SyncFS

  /** The op values `convertInMessage` produces, with what the reply depends on; `out`
      stands for a reply struct once it has been filled in. */
  datatype Op =
    | Struct(kind: StructOp, out: seq<byte>)
    | Empty(empty: EmptyOp)
    | CreateFile(entry: seq<byte>, out: seq<byte>)
    | ReadDir(bytesRead: int)
    | ReadFile(dst: Option<seq<byte>>, data: seq<seq<byte>>, bytesRead: int)
    | ReadSymlink(target: seq<byte>)
    | GetXattr(dstLen: nat, bytesRead: int)
    | ListXattr(dstLen: nat, bytesRead: int)
    | ForgetInode
    | BatchForget
    | Init(out: seq<byte>)
    | Interrupt
    | Unknown

  datatype OpError = Errno(n: nat) | OtherError

  const EIO: nat := 5
  const ENOSYS: nat := 38

  /** The kernel expects no reply to these. */
  predicate NoReply(op: Op) { op.ForgetInode? || op.BatchForget? || op.Interrupt? }

  /** `-int32(errno)`, and EIO for any other error. */
  function ErrorField(e: OpError): int { if e.Errno? then Signed32(0 - e.n) else 0 - EIO }

  function Signed32(v: int): (r: int)
    ensures -0x8000_0000 <= r < 0x8000_0000 && r % 0x1_0000_0000 == v % 0x1_0000_0000
  {
    var u := v % 0x1_0000_0000;
    if u < 0x8000_0000 then u else u - 0x1_0000_0000
  }

  /** The full-length body before it is cut to the number of bytes read, and that number. */
  function Uncut(op: Op, grown: seq<byte>): seq<byte>
  {
    match op
    case ReadFile(Some(dst), _, _) => grown + dst
    case ReadFile(None, data, _) => grown + Concat(data)
    case _ => grown
  }

  predicate Cuts(op: Op)
  {
    op.ReadDir? || op.ReadFile? || ((op.GetXattr? || op.ListXattr?) && op.dstLen != 0)
  }

  /** The source panics: the op has no reply case, or the file system claims to have read
      a number of bytes that is negative or more than there is room for. */
  predicate Panics(op: Op, grown: seq<byte>)
  {
    op.Unknown? || (Cuts(op) && !(0 <= op.bytesRead <= |Uncut(op, grown)|))
  }

  /** The reply struct that carries a size alone. */
  function SizeBytes(n: int): (b: seq<byte>)
    ensures |b| == 8
  {
    LE(n % 0x1_0000_0000, 4) + LE(0, 4)
  }

  /** The reply body to a successful op, given what the request had grown the message by. */
  function ReplyBody(op: Op, grown: seq<byte>): seq<byte>
    requires !Panics(op, grown)
  {
    if Cuts(op) then Uncut(op, grown)[..op.bytesRead] else
    match op
    case CreateFile(entry, out) => grown + entry + out
    case ReadSymlink(target) => grown + target
    case GetXattr(_, bytesRead) => grown + SizeBytes(bytesRead)
    case ListXattr(_, bytesRead) => grown + SizeBytes(bytesRead)
    case Struct(_, out) => grown + out
    case Init(out) => grown + out
    case _ => grown
  }

  /** `kernelResponseForOp`; `ok` is false where the source panics. */
  method ResponseForOp(m: OutMessage, op: Op) returns (ok: bool)
    requires m.Valid() && !NoReply(op)
    modifies m`sglist
    ensures m.Valid() && ok == !Panics(op, old(m.Body()))
    ensures ok ==> m.Body() == ReplyBody(op, old(m.Body()))
  {
    hide Gather;
    match op {
      case Struct(_, out) =>
        m.AppendString(out);
      case CreateFile(entry, out) =>
        m.AppendString(entry);
        m.AppendString(out);
      case ReadDir(bytesRead) =>
        ok := ShrinkBody(m, bytesRead);
        return;
      case ReadFile(dst, data, bytesRead) =>
        if dst.Some? {
          m.AppendString(dst.value);
        } else {
          m.Append(data);
        }
        ok := ShrinkBody(m, bytesRead);
        return;
      case ReadSymlink(target) =>
        m.AppendString(target);
      case GetXattr(dstLen, bytesRead) =>
        ok := XattrResponse(m, dstLen, bytesRead);
        return;
      case ListXattr(dstLen, bytesRead) =>
        ok := XattrResponse(m, dstLen, bytesRead);
        return;
      case Init(out) =>
        m.AppendString(out);
      case Unknown =>
        return false;
      case Empty(_) =>
    }
    ok := true;
  }

  /** The size alone when the request had no buffer, else the buffer cut to size. */
  method XattrResponse(m: OutMessage, dstLen: nat, bytesRead: int) returns (ok: bool)
    requires m.Valid()
    modifies m`sglist
    ensures m.Valid() && ok == (dstLen == 0 || 0 <= bytesRead <= |old(m.Body())|)
    ensures ok ==> m.Body() ==
                   if dstLen == 0 then old(m.Body()) + SizeBytes(bytesRead) else old(m.Body())[..bytesRead]
  {
    hide Gather, SizeBytes;
    if dstLen == 0 {
      m.AppendString(SizeBytes(bytesRead));
      ok := true;
    } else {
      ok := ShrinkBody(m, bytesRead);
    }
  }

  /** `m.ShrinkTo(OutMessageHeaderSize + n)`, false if that is out of range. */
  method ShrinkBody(m: OutMessage, n: int) returns (ok: bool)
    requires m.Valid()
    modifies m`sglist
    ensures m.Valid() && ok == (0 <= n <= |old(m.Body())|)
    ensures m.Body() == if ok then old(m.Body())[..n] else old(m.Body())
  {
    hide Gather, HeaderBytes;
    var len := m.Len();
    if HEADER_SIZE + n < HEADER_SIZE || HEADER_SIZE + n > len {
      return false;
    }
    m.ShrinkTo(HEADER_SIZE + n);
    SameTail(HeaderBytes(m.header), m.Body(), HeaderBytes(m.header), old(m.Body())[..n]);
    return true;
  }

  lemma SameTail(a: seq<byte>, b: seq<byte>, c: seq<byte>, d: seq<byte>)
    requires |a| == |c|
    ensures a + b == c + d ==> b == d
  {
    if a + b == c + d {
      assert b == (a + b)[|a|..];
      assert d == (c + d)[|c|..];
    }
  }

  /** `kernelResponse`: fill in the whole message, the length last. */
  method KernelResponse(m: OutMessage, id: nat, op: Op, err: Option<OpError>) returns (noResponse: bool, ok: bool)
    requires m.Valid() && m.header.error == 0
    modifies m
    ensures m.Valid() && noResponse == NoReply(op)
    ensures ok == (noResponse || err.Some? || !Panics(op, old(m.Body())))
    ensures ok && !noResponse ==>
              && m.header.unique == id
              && m.header.error == (if err.Some? then ErrorField(err.value) else 0)
              && m.header.len == |m.Flat()| % 0x1_0000_0000
              && m.Body() == if err.Some? then [] else ReplyBody(op, old(m.Body()))
  {
    hide Gather, HeaderBytes, ReplyBody, Panics;
    ghost var grown := m.Body();
    m.header := m.header.(unique := id);
    SameBody(m);
    if NoReply(op) {
      return true, true;
    }
    if err.Some? {
      m.header := m.header.(error := if err.value.Errno? then Signed32(0 - err.value.n) else 0 - EIO);
      ok := ShrinkBody(m, 0);
    } else {
      ok := ResponseForOp(m, op);
      if !ok {
        return false, false;
      }
    }
    ghost var body := m.Body();
    var len := m.Len();
    label sent:
    m.header := m.header.(len := len % 0x1_0000_0000);
    SameBody@sent(m);
    return false, true;
  }

  /** Changing the header does not change what follows it. */
  twostate lemma SameBody(m: OutMessage)
    requires old(m.Valid()) && m.sglist == old(m.sglist)
    ensures m.Body() == old(m.Body())
  {
    if m.sglist != [] {
      var sg := m.sglist[1..];
      forall s | s in sg ensures s.Data? {
        var i :| 0 <= i < |sg| && sg[i] == s;
        assert sg[i] == m.sglist[i + 1];
      }
      GatherData(old(m.header), m.header, sg);
    }
  }

  /** What `Reply` writes: the segments if there are any, else the bare header. */
  function Sent(h: Header, sg: seq<Segment>): seq<byte>
  {
    if sg != [] then Gather(h, sg) else HeaderBytes(h)
  }

  /** The bytes written are the flat message, the header read through its alias. */
  lemma SentIsFlat(m: OutMessage)
    requires m.Valid()
    ensures Sent(m.header, m.sglist) == m.Flat()
  {
  }

  /** Linux refuses replies with an error of this size or more. */
  const ERROR_BOUND: int := 512

  /** The kernel's check on a reply: the length field is the number of bytes written, the
      error is none or a negated error number below the bound, and an error reply has no body. */
  predicate KernelAccepts(b: seq<byte>)
  {
    && |b| >= HEADER_SIZE && FromLE(b[0..4]) == |b|
    && -ERROR_BOUND < Signed32(FromLE(b[4..8])) <= 0
    && (FromLE(b[4..8]) != 0 ==> |b| == HEADER_SIZE)
  }

  function UniqueField(b: seq<byte>): nat
    requires |b| >= HEADER_SIZE
  {
    FromLE(b[8..16])
  }

  /** A reply is one the kernel accepts exactly when its length fits 32 bits and its error is
      within the kernel's bound, and it carries the ID of the request it answers. */
  lemma ReplySelfConsistent(h: Header, body: seq<byte>)
    requires h.unique < Pow256(8) && h.len == (HEADER_SIZE + |body|) % 0x1_0000_0000
    requires -0x8000_0000 <= h.error < 0x8000_0000 && (h.error != 0 ==> body == [])
    ensures KernelAccepts(HeaderBytes(h) + body) <==>
            HEADER_SIZE + |body| < Pow256(4) && -ERROR_BOUND < h.error <= 0
    ensures UniqueField(HeaderBytes(h) + body) == h.unique
    ensures (HeaderBytes(h) + body)[HEADER_SIZE..] == body
  {
    Widths();
    hide Pow256, LE, FromLE;
    var b := HeaderBytes(h) + body;
    assert b[0..4] == LE(h.len, 4);
    assert b[4..8] == LE(h.error % 0x1_0000_0000, 4);
    assert b[8..16] == LE(h.unique, 8);
    FitsInField(h.len, 4);
    FitsInField(h.error % 0x1_0000_0000, 4);
    FitsInField(h.unique, 8);
  }

  /** The error field of a reply, as the kernel reads it. */
  function ErrorIn(b: seq<byte>): int
    requires |b| >= HEADER_SIZE
  {
    Signed32(FromLE(b[4..8]))
  }

  /** The reply says what became of the op: zero for success, minus the error number the file
      system reported, minus EIO (5) for an error that has none, and minus ENOSYS (38) for an
      op that no file system handles. */
  predicate TellsResult(b: seq<byte>, op: Op, fsResult: Option<OpError>)
    requires |b| >= HEADER_SIZE
  {
    if op.Unknown? || op.Init? then ErrorIn(b) == -38
    else match fsResult
    case None => ErrorIn(b) == 0
    case Some(OtherError) => ErrorIn(b) == -5
    case Some(Errno(n)) => (ErrorIn(b) + n) % 0x1_0000_0000 == 0 && (n < 0x8000_0000 ==> ErrorIn(b) == 0 - n)
  }

  /** The error put into the header is the one read from it. */
  lemma ErrorReadBack(h: Header, body: seq<byte>)
    requires -0x8000_0000 <= h.error < 0x8000_0000
    ensures ErrorIn(HeaderBytes(h) + body) == h.error
  {
    Widths();
    hide Pow256, LE, FromLE;
    var b := HeaderBytes(h) + body;
    assert b[4..8] == LE(h.error % 0x1_0000_0000, 4);
    FitsInField(h.error % 0x1_0000_0000, 4);
  }

  /** A reply built with the error that `handleOp` passes on tells the result. */
  lemma ReplyTellsResult(h: Header, body: seq<byte>, op: Op, fsResult: Option<OpError>)
    requires !NoReply(op)
    requires var err := Dispatch(op, fsResult); h.error == if err.Some? then ErrorField(err.value) else 0
    ensures TellsResult(HeaderBytes(h) + body, op, fsResult)
  {
    hide HeaderBytes, ErrorIn;
    ErrorReadBack(h, body);
  }

  /** For error numbers, which are positive, a reply reads as success exactly if the file system
      reported none. */
  lemma SuccessIff(b: seq<byte>, op: Op, fsResult: Option<OpError>)
    requires |b| >= HEADER_SIZE && TellsResult(b, op, fsResult) && !op.Unknown? && !op.Init?
    requires fsResult.Some? && fsResult.value.Errno? ==> 1 <= fsResult.value.n < 0x8000_0000
    ensures ErrorIn(b) == 0 <==> fsResult.None?
  {
    hide ErrorIn;
  }

  /** `handleOp`: ops without a handler are answered with ENOSYS. */
  function Dispatch(op: Op, fsResult: Option<OpError>): Option<OpError>
  {
    if op.Unknown? || op.Init? || op.Interrupt? then Some(Errno(ENOSYS)) else fsResult
  }

  /** Handle and answer one op. Answering fails exactly for a file system that claims to have
      read a negative number of bytes or more than there was room for: no op reaches the
      "Unexpected op" panic. */
  method Serve(m: OutMessage, id: nat, op: Op, fsResult: Option<OpError>) returns (sent: Option<seq<byte>>, ok: bool)
    requires m.Valid() && m.header.error == 0 && id < Pow256(8)
    modifies m
    ensures !ok <==> Cuts(op) && fsResult.None? && !(0 <= op.bytesRead <= |Uncut(op, old(m.Body()))|)
    ensures ok ==> (sent.None? <==> op.ForgetInode? || op.BatchForget? || op.Interrupt?)
    ensures ok && sent.Some? ==>
              && |sent.value| >= HEADER_SIZE && UniqueField(sent.value) == id
              && (KernelAccepts(sent.value) <==>
                  && |sent.value| < Pow256(4)
                  && (Dispatch(op, fsResult).Some? ==>
                        -ERROR_BOUND < ErrorField(Dispatch(op, fsResult).value) <= 0))
    ensures ok && sent.Some? ==> TellsResult(sent.value, op, fsResult)
    ensures ok && sent.Some? ==>
              var (err, len) := (Dispatch(op, fsResult), |sent.value| % 0x1_0000_0000);
              if err.Some? then sent.value == HeaderBytes(Header(len, ErrorField(err.value), id))
              else && !Panics(op, old(m.Body()))
                   && sent.value == HeaderBytes(Header(len, 0, id)) + ReplyBody(op, old(m.Body()))
  {
    hide Gather, HeaderBytes, ReplyBody, Uncut, KernelAccepts, UniqueField, Pow256, TellsResult;
    var err := Dispatch(op, fsResult);
    var noResponse;
    noResponse, ok := KernelResponse(m, id, op, err);
    sent := None;
    if ok && !noResponse {
      SentIsFlat(m);
      sent := Some(Sent(m.header, m.sglist));
      ReplySelfConsistent(m.header, m.Body());
      ReplyTellsResult(m.header, m.Body(), op, fsResult);
    }
  }

  // ---------------------------------------------------------------- bodies as the kernel takes them

  /** The kernel takes the body of a create reply apart after the entry, whose size it knows. */
  function CreateParts(body: seq<byte>, entrySize: nat): (seq<byte>, seq<byte>)
    requires entrySize <= |body|
  {
    (body[..entrySize], body[entrySize..])
  }

  /** It gets back both parts, the entry first. */
  lemma CreateReplySplits(entry: seq<byte>, out: seq<byte>)
    ensures var body := ReplyBody(CreateFile(entry, out), []);
            |body| == |entry| + |out| && CreateParts(body, |entry|) == (entry, out)
  {
    var body := ReplyBody(CreateFile(entry, out), []);
    assert body == entry + out;
    assert body[..|entry|] == entry && body[|entry|..] == out;
  }

  /** The other bodies, for requests that grew the message by nothing: the reply struct, the
      target of a symlink, or nothing. */
  lemma PlainBodies(op: Op)
    ensures op.Struct? || op.Init? ==> ReplyBody(op, []) == op.out
    ensures op.ReadSymlink? ==> ReplyBody(op, []) == op.target
    ensures op.Empty? ==> ReplyBody(op, []) == []
    ensures op.ReadFile? && 0 <= op.bytesRead <= |if op.dst.Some? then op.dst.value else Concat(op.data)| ==>
              ReplyBody(op, []) == (if op.dst.Some? then op.dst.value else Concat(op.data))[..op.bytesRead]
  {
    if op.ReadFile? { assert Uncut(op, []) == if op.dst.Some? then op.dst.value else Concat(op.data); }
  }
}
