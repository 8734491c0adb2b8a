/** Requests that read into a buffer inside the reply, from the request to the bytes sent:
    `convertInMessage` grows the message by the buffer, memFS fills the buffer in, and
    `kernelResponse` cuts the message to what was read. */
module MemServer {
  import opened Bytes
  import opened Dirents
  import opened Slots
  import opened MemState
  import opened MemFSObject
  import opened OutMessages
  import opened Responses
  import opened Xattrs
  import opened InMessages
  import opened FileData

  /** The error numbers of Linux. */
  function ErrnoOf(e: MemState.Errno): nat
  {
    match e
    case ENOENT => 2
    case EBADF => 9
    case EEXIST => 17
    case ERANGE => 34
    case ENOTEMPTY => 39
    case ENOATTR => 61
  }

  function Result(r: Reply): Option<OpError>
  {
    if r.Error? then Some(Responses.Errno(ErrnoOf(r.errno))) else None
  }

  /** A reply that carries `body`. */
  function Answer(id: nat, body: seq<byte>): seq<byte>
  {
    HeaderBytes(Header((HEADER_SIZE + |body|) % 0x1_0000_0000, 0, id)) + body
  }

  /** A reply that is an error. */
  function Refusal(id: nat, e: MemState.Errno): seq<byte>
  {
    HeaderBytes(Header(HEADER_SIZE, 0 - ErrnoOf(e), id))
  }

  /** The reply to a request for a value: the value if there is one and it fits, its size
      alone if the request has no buffer, else an error. */
  function XattrAnswer(id: nat, value: Option<seq<byte>>, size: nat): seq<byte>
  {
    if value.None? then Refusal(id, ENOATTR)
    else if size == 0 then Answer(id, SizeBytes(|value.value|))
    else if |value.value| > size then Refusal(id, ERANGE)
    else Answer(id, value.value)
  }

  /** A zeroed buffer of `size` bytes at the end of the message, if the request has one. */
  method Prepare(m: OutMessage, size: nat) returns (dst: array<byte>)
    modifies m
    ensures m.Valid() && m.header == Header(0, 0, 0) && m.Body() == Zeros(size)
    ensures size > 0 ==> |m.sglist| == 2 && |m.sglist[1].bytes| == size
    ensures fresh(dst) && dst[..] == Zeros(size)
  {
    m.Reset();
    if size > 0 {
      var grown := m.Grow(size);
    }
    dst := new byte[size](_ => 0);
    assert dst[..] == Zeros(size);
  }

  /** Answer an op whose buffer the file system has filled in. */
  method Finish(m: OutMessage, id: nat, op: Responses.Op, dst: array<byte>, r: Reply)
    returns (sent: Option<seq<byte>>, ok: bool)
    requires m.Valid() && m.header.error == 0 && id < Pow256(8)
    requires dst.Length == 0 ==> m.Body() == []
    requires dst.Length > 0 ==> |m.sglist| == 2 && |m.sglist[1].bytes| == dst.Length
    requires op.ReadDir? || ((op.GetXattr? || op.ListXattr?) && op.dstLen == dst.Length)
    modifies m
    ensures !ok <==> Cuts(op) && !r.Error? && !(0 <= op.bytesRead <= dst.Length)
    ensures ok && r.Error? ==> sent == Some(Refusal(id, r.errno))
    ensures ok && !r.Error? ==>
              sent == Some(Answer(id, if Cuts(op) then dst[..op.bytesRead] else SizeBytes(op.bytesRead)))
  {
    hide HeaderBytes, Gather, SizeBytes, KernelAccepts, UniqueField, Pow256, ReplyBody, Panics, Signed32;
    if dst.Length > 0 {
      m.Fill(dst[..]);
    }
    assert m.Body() == dst[..];
    BufferReply(op, dst[..]);
    sent, ok := Serve(m, id, op, Result(r));
    assert 0 <= op.bytesRead <= dst.Length ==> dst[..][..op.bytesRead] == dst[..op.bytesRead];
    assert forall e: MemState.Errno :: ErrorField(Responses.Errno(ErrnoOf(e))) == 0 - ErrnoOf(e) by {
      forall e: MemState.Errno ensures ErrorField(Responses.Errno(ErrnoOf(e))) == 0 - ErrnoOf(e) {
        SmallErrno(e);
      }
    }
  }

  lemma SmallErrno(e: MemState.Errno)
    ensures ErrorField(Responses.Errno(ErrnoOf(e))) == 0 - ErrnoOf(e)
  {
  }

  /** The body of the reply to an op that reads into a buffer in the message. */
  lemma BufferReply(op: Responses.Op, dst: seq<byte>)
    requires op.ReadDir? || ((op.GetXattr? || op.ListXattr?) && op.dstLen == |dst|)
    ensures Uncut(op, dst) == dst
    ensures Panics(op, dst) <==> Cuts(op) && !(0 <= op.bytesRead <= |dst|)
    ensures !Panics(op, dst) ==> ReplyBody(op, dst) == if Cuts(op) then dst[..op.bytesRead] else SizeBytes(op.bytesRead)
  {
    hide SizeBytes;
    assert !Cuts(op) ==> dst + SizeBytes(op.bytesRead) == SizeBytes(op.bytesRead);
  }

  /** A getxattr request is always answered, with the value, its size, or an error. */
  method ServeGetXattr(fs: MemFS, m: OutMessage, id: nat, inode: nat, attr: seq<byte>, size: nat)
    returns (sent: Option<seq<byte>>, ok: bool)
    requires fs.Valid() && Live(fs.fs, inode) && id < Pow256(8)
    modifies m
    ensures ok && sent == Some(XattrAnswer(id, ValueOf(fs.fs, inode, attr), size))
  {
    hide HeaderBytes, Gather, SizeBytes, Pow256, MemRuns.Good;
    var dst := Prepare(m, size);
    var bytesRead, r := fs.GetXattr(inode, attr, dst);
    sent, ok := Finish(m, id, Responses.GetXattr(size, bytesRead), dst, r);
  }

  /** A listxattr request is always answered, with all names once each, their size, or an
      error. */
  method ServeListXattr(fs: MemFS, m: OutMessage, id: nat, inode: nat, size: nat)
    returns (sent: Option<seq<byte>>, ok: bool, ghost order: seq<seq<byte>>)
    requires fs.Valid() && Live(fs.fs, inode) && id < Pow256(8)
    modifies m
    ensures Enumerates(order, fs.fs.inodes[inode].value.xattrs.Keys)
    ensures ok && sent == Some(XattrAnswer(id, Some(Listing(order)), size))
  {
    hide HeaderBytes, Gather, SizeBytes, Pow256, MemRuns.Good, Listing, Need;
    var dst := Prepare(m, size);
    var bytesRead, r;
    bytesRead, r, order := fs.ListXattr(inode, dst);
    if r.Error? {
      order := SomeOrder(fs.fs.inodes[inode].value.xattrs.Keys);
    }
    ListingSize(order, fs.fs.inodes[inode].value.xattrs.Keys);
    sent, ok := Finish(m, id, Responses.ListXattr(size, bytesRead), dst, r);
  }

  /** A readdir request is answered with the records of the entries that fit; one for no
      bytes at all panics, in `Grow`. */
  method ServeReadDir(fs: MemFS, m: OutMessage, id: nat, inode: nat, offset: nat, size: nat)
    returns (sent: Option<seq<byte>>, ok: bool)
    requires fs.Valid() && IsDir(fs.fs, inode) && id < Pow256(8)
    modifies m
    ensures ok <==> size > 0
    ensures ok ==> sent == Some(Answer(id, EncodeAll(Fit(UsedFrom(Entries(fs.fs, inode), offset), size))))
  {
    hide HeaderBytes, Gather, Pow256, MemRuns.Good, EncodeAll, Fit, UsedFrom;
    m.Reset();
    ok := m.Grow(size);
    if !ok {
      return None, false;
    }
    var dst := new byte[size](_ => 0);
    var bytesRead := fs.ReadDir(inode, dst, offset);
    sent, ok := Finish(m, id, Responses.ReadDir(bytesRead), dst, Success);
  }

  /** A read goes into the free space after the request in its own buffer. It is answered with
      the bytes of the file, short at its end; a request for no bytes, or for more than that
      space holds, is answered with none. The request itself is still there for the reply,
      which takes its ID from it. */
  method ServeReadFile(fs: MemFS, inMsg: InMessage, m: OutMessage, inode: nat, offset: nat, size: nat)
    returns (sent: Option<seq<byte>>, ok: bool)
    requires fs.Valid() && IsFile(fs.fs, inode) && inMsg.Valid()
    modifies m, inMsg.storage
    ensures ok && inMsg.storage[..inMsg.size] == old(inMsg.storage[..inMsg.size])
    ensures var (id, room) := (FromLE(old(inMsg.storage[8..16])), inMsg.storage.Length - inMsg.size);
            var wanted := if size <= room then size else 0;
            sent == Some(Answer(id, ReadBytes(fs.fs.inodes[inode].value.contents, offset, wanted)))
  {
    hide HeaderBytes, Gather, Pow256, MemRuns.Good, FromLE;
    ghost var request := inMsg.storage[..inMsg.size];
    assert inMsg.storage[8..16] == request[8..16];
    m.Reset();
    var free := inMsg.GetFree(size);
    var bytesRead, dst;
    if free.Some? {
      bytesRead, dst := ReadIntoFree(fs, inMsg, inode, offset, free.value.0, size);
    } else {
      bytesRead, dst := ReadNothing(fs, inode, offset);
    }
    var id := FromLE(inMsg.storage[8..16]);
    assert inMsg.storage[8..16] == inMsg.storage[..inMsg.size][8..16] == request[8..16];
    FromLEFits(inMsg.storage[8..16]);
    sent, ok := FinishRead(m, id, dst, bytesRead);
  }

  /** memFS reads into the space found. */
  method ReadIntoFree(fs: MemFS, inMsg: InMessage, inode: nat, offset: nat, lo: nat, size: nat)
    returns (bytesRead: nat, dst: Option<seq<byte>>)
    requires fs.Valid() && IsFile(fs.fs, inode) && inMsg.Valid()
    requires inMsg.size <= lo && lo + size <= inMsg.storage.Length
    modifies inMsg.storage
    ensures inMsg.storage[..inMsg.size] == old(inMsg.storage[..inMsg.size])
    ensures dst.Some? && |dst.value| == size && bytesRead <= size
    ensures dst.value[..bytesRead] == ReadBytes(fs.fs.inodes[inode].value.contents, offset, size)
  {
    hide MemRuns.Good, ReadBytes;
    var buf := new byte[size](i requires 0 <= i < size && lo + size <= inMsg.storage.Length reads inMsg.storage =>
      inMsg.storage[lo + i]);
    bytesRead := fs.ReadFile(inode, buf, offset);
    var n := Copy(inMsg.storage, lo, buf[..]);
    dst := Some(buf[..]);
  }

  method ReadNothing(fs: MemFS, inode: nat, offset: nat) returns (bytesRead: nat, dst: Option<seq<byte>>)
    requires fs.Valid() && IsFile(fs.fs, inode)
    ensures bytesRead == 0 && dst.None? && ReadBytes(fs.fs.inodes[inode].value.contents, offset, 0) == []
  {
    hide MemRuns.Good;
    var buf := new byte[0];
    bytesRead := fs.ReadFile(inode, buf, offset);
    dst := None;
  }

  /** Answer a read with what has been read, which there is room for. */
  method FinishRead(m: OutMessage, id: nat, dst: Option<seq<byte>>, bytesRead: nat)
    returns (sent: Option<seq<byte>>, ok: bool)
    requires m.Valid() && m.header == Header(0, 0, 0) && m.Body() == [] && id < Pow256(8)
    requires if dst.Some? then bytesRead <= |dst.value| else bytesRead == 0
    modifies m
    ensures ok && sent == Some(Answer(id, if dst.Some? then dst.value[..bytesRead] else []))
  {
    hide HeaderBytes, Gather, KernelAccepts, UniqueField, Pow256;
    var op := Responses.ReadFile(dst, [], bytesRead);
    assert Uncut(op, []) == if dst.Some? then dst.value else [];
    sent, ok := Serve(m, id, op, None);
  }

  /** How a caller learns the size: the first field of the reply's body. */
  function SizeIn(reply: seq<byte>): nat
    requires |reply| >= HEADER_SIZE + 4
  {
    FromLE(reply[HEADER_SIZE..HEADER_SIZE + 4])
  }

  lemma SizeInAnswer(id: nat, n: nat)
    requires n < 0x1_0000_0000
    ensures |Answer(id, SizeBytes(n))| == HEADER_SIZE + 8 && SizeIn(Answer(id, SizeBytes(n))) == n
  {
    Widths();
    hide LE, FromLE, Pow256, HeaderBytes;
    FitsInField(n, 4);
    assert Answer(id, SizeBytes(n))[HEADER_SIZE..HEADER_SIZE + 4] == LE(n, 4);
  }

  /** Size, then fetch: a request for no bytes tells the size of the listing, and a request
      for that many bytes gets all of it, whatever order the names come in each time, and it
      splits into them. */
  method FetchList(fs: MemFS, m: OutMessage, id: nat, inode: nat)
    returns (body: seq<byte>, ghost order: seq<seq<byte>>)
    requires fs.Valid() && Live(fs.fs, inode) && id < Pow256(8)
    requires 0 < Need(fs.fs.inodes[inode].value.xattrs.Keys) < 0x1_0000_0000
    modifies m
    ensures body == Listing(order) && Enumerates(order, fs.fs.inodes[inode].value.xattrs.Keys)
    ensures Split(body) == order
  {
    hide HeaderBytes, Gather, Pow256, MemRuns.Good, Listing, Need, SizeBytes, SizeIn, Split;
    ghost var keys := fs.fs.inodes[inode].value.xattrs.Keys;
    var sent, ok;
    sent, ok, order := ServeListXattr(fs, m, id, inode, 0);
    ListingSize(order, keys);
    SizeInAnswer(id, |Listing(order)|);
    var size := SizeIn(sent.value);
    sent, ok, order := ServeListXattr(fs, m, id, inode, size);
    ListingSize(order, keys);
    body := sent.value[HEADER_SIZE..];
    SplitsBack(fs.fs, inode, order);
  }

  /** A listing of the attributes of an inode splits into their names. */
  lemma SplitsBack(s: State, inode: nat, order: seq<seq<byte>>)
    requires MemRuns.Good(s, false) && Live(s, inode) && Enumerates(order, s.inodes[inode].value.xattrs.Keys)
    ensures Split(Listing(order)) == order
  {
    hide Split, Listing, Slots.Valid, FreeOk;
    assert s.inodes[inode].value.Ok();
    SplitInvertsListing(order);
  }

  /** The same for the value of one attribute. */
  method FetchValue(fs: MemFS, m: OutMessage, id: nat, inode: nat, attr: seq<byte>) returns (body: seq<byte>)
    requires fs.Valid() && Live(fs.fs, inode) && id < Pow256(8)
    requires ValueOf(fs.fs, inode, attr).Some? && 0 < |ValueOf(fs.fs, inode, attr).value| < 0x1_0000_0000
    modifies m
    ensures body == ValueOf(fs.fs, inode, attr).value
  {
    hide HeaderBytes, Gather, Pow256, MemRuns.Good, SizeBytes, SizeIn;
    var sent, ok := ServeGetXattr(fs, m, id, inode, attr, 0);
    SizeInAnswer(id, |ValueOf(fs.fs, inode, attr).value|);
    sent, ok := ServeGetXattr(fs, m, id, inode, attr, SizeIn(sent.value));
    body := sent.value[HEADER_SIZE..];
  }

  /** What the caller reads in these replies: the request's ID, no error and the body in an answer,
      and Linux's ENODATA (61) or ERANGE (34) in the refusals of attribute requests. */
  lemma AnswersReadBack(id: nat, body: seq<byte>)
    requires id < Pow256(8)
    ensures UniqueField(Answer(id, body)) == id && ErrorIn(Answer(id, body)) == 0
    ensures Answer(id, body)[HEADER_SIZE..] == body
    ensures forall e: MemState.Errno :: UniqueField(Refusal(id, e)) == id && |Refusal(id, e)| == HEADER_SIZE
    ensures ErrorIn(Refusal(id, ENOATTR)) == -61 && ErrorIn(Refusal(id, ERANGE)) == -34
  {
    Widths();
    hide HeaderBytes, KernelAccepts, UniqueField, Pow256, ErrorIn;
    var h := Header((HEADER_SIZE + |body|) % 0x1_0000_0000, 0, id);
    ReplySelfConsistent(h, body);
    ErrorReadBack(h, body);
    forall e: MemState.Errno
      ensures UniqueField(Refusal(id, e)) == id && ErrorIn(Refusal(id, e)) == 0 - ErrnoOf(e)
    {
      var r := Header(HEADER_SIZE, 0 - ErrnoOf(e), id);
      ReplySelfConsistent(r, []);
      ErrorReadBack(r, []);
      assert HeaderBytes(r) + [] == HeaderBytes(r);
    }
  }

  /** The kernel accepts every refusal, and every answer whose length fits 32 bits. */
  lemma KernelAcceptsAnswers(id: nat, body: seq<byte>, e: MemState.Errno)
    requires id < Pow256(8)
    ensures KernelAccepts(Answer(id, body)) <==> HEADER_SIZE + |body| < Pow256(4)
    ensures KernelAccepts(Refusal(id, e))
  {
    Widths();
    hide HeaderBytes, KernelAccepts, UniqueField, Pow256;
    ReplySelfConsistent(Header((HEADER_SIZE + |body|) % 0x1_0000_0000, 0, id), body);
    ReplySelfConsistent(Header(HEADER_SIZE, 0 - ErrnoOf(e), id), []);
    assert Refusal(id, e) + [] == Refusal(id, e);
  }
}
