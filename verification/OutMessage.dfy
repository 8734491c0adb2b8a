/** The scatter-gather reply message: a header and a list of segments that must
    behave like one flat byte string. */
module OutMessages {
  import opened Bytes

  const HEADER_SIZE: nat := 16

  datatype Header = Header(len: nat, error: int, unique: nat)

  /** `fusekernel.OutHeader`: 32-bit length, 32-bit signed error, 64-bit request ID. */
  function HeaderBytes(h: Header): (b: seq<byte>)
    ensures |b| == HEADER_SIZE
  {
    LE(h.len, 4) + LE(h.error % 0x1_0000_0000, 4) + LE(h.unique, 8)
  }

  /** A segment is either the header itself, by reference, or bytes of its own. */
  datatype Segment = HeaderAlias | Data(bytes: seq<byte>)

  function SegmentBytes(h: Header, s: Segment): seq<byte>
  {
    match s
    case HeaderAlias => HeaderBytes(h)
    case Data(bytes) => bytes
  }

  /** The bytes a vectored write of the segments sends. */
  function Gather(h: Header, sg: seq<Segment>): seq<byte>
  {
    if sg == [] then [] else SegmentBytes(h, sg[0]) + Gather(h, sg[1..])
  }

  lemma {:induction false} GatherAppend(h: Header, a: seq<Segment>, b: seq<Segment>)
    ensures Gather(h, a + b) == Gather(h, a) + Gather(h, b)
  {
    if a == [] {
      assert a + b == b;
    } else {
      assert (a + b)[1..] == a[1..] + b;
      GatherAppend(h, a[1..], b);
    }
  }

  function Segments(src: seq<seq<byte>>): seq<Segment>
  {
    seq(|src|, i requires 0 <= i < |src| => Data(src[i]))
  }

  lemma {:induction false} GatherSegments(h: Header, src: seq<seq<byte>>)
    ensures Gather(h, Segments(src)) == Concat(src)
  {
    if src != [] {
      assert Segments(src)[1..] == Segments(src[1..]);
      GatherSegments(h, src[1..]);
    }
  }

  /** Data segments do not depend on the header. */
  lemma {:induction false} GatherData(h: Header, h': Header, sg: seq<Segment>)
    requires forall s :: s in sg ==> s.Data?
    ensures Gather(h, sg) == Gather(h', sg)
  {
    if sg != [] {
      assert sg[0] in sg;
      GatherData(h, h', sg[1..]);
    }
  }

  class OutMessage {
    var header: Header
    var sglist: seq<Segment>

    /** A non-nil list starts with the header, and only there. */
    ghost predicate Valid()
      reads this
    {
      sglist != [] ==> sglist[0] == HeaderAlias && forall i :: 1 <= i < |sglist| ==> sglist[i].Data?
    }

    /** What follows the header. */
    ghost function Body(): seq<byte>
      reads this
    {
      if sglist == [] then [] else Gather(header, sglist[1..])
    }

    /** The message as one byte string. */
    ghost function Flat(): seq<byte>
      reads this
    {
      HeaderBytes(header) + Body()
    }

    constructor ()
      ensures Valid() && header == Header(0, 0, 0) && Body() == []
    {
      header, sglist := Header(0, 0, 0), [];
    }

    method Reset()
      modifies this
      ensures Valid() && header == Header(0, 0, 0) && sglist == [] && Body() == []
    {
      header, sglist := Header(0, 0, 0), [];
    }

    /** Any list of segments, empty ones included, is appended to the flat message. */
    method Append(src: seq<seq<byte>>)
      requires Valid()
      modifies this`sglist
      ensures Valid() && Body() == old(Body()) + Concat(src)
      ensures sglist == (if old(sglist) == [] then [HeaderAlias] else old(sglist)) + Segments(src)
    {
      if sglist == [] {
        sglist := sglist + [HeaderAlias];
      }
      ghost var before := sglist;
      sglist := sglist + Segments(src);
      assert sglist[1..] == before[1..] + Segments(src);
      GatherAppend(header, before[1..], Segments(src));
      GatherSegments(header, src);
      assert old(Body()) == Gather(header, before[1..]);
    }

    method AppendString(src: seq<byte>)
      requires Valid()
      modifies this`sglist
      ensures Valid() && Body() == old(Body()) + src
      ensures sglist == (if old(sglist) == [] then [HeaderAlias] else old(sglist)) + [Data(src)]
    {
      Append([src]);
      assert Segments([src]) == [Data(src)];
      assert Concat([src]) == src + Concat([]);
    }

    /** Add a zeroed segment and take the address of its first byte. Not `ok` is the panic
        on a segment that has none. */
    method Grow(n: nat) returns (ok: bool)
      requires Valid()
      modifies this`sglist
      ensures Valid() && Body() == old(Body()) + Zeros(n)
      ensures ok <==> n > 0
      ensures sglist == (if old(sglist) == [] then [HeaderAlias] else old(sglist)) + [Data(Zeros(n))]
    {
      AppendString(Zeros(n));
      return n != 0;
    }

    /** The file system has filled in the last segment, which it has as its buffer. */
    method Fill(bytes: seq<byte>)
      requires Valid() && |sglist| == 2 && |sglist[1].bytes| == |bytes|
      modifies this`sglist
      ensures Valid() && Body() == bytes
    {
      sglist := sglist[1 := Data(bytes)];
      assert sglist[1..] == [Data(bytes)];
      assert Gather(header, [Data(bytes)]) == bytes + Gather(header, []);
    }

    method Len() returns (r: nat)
      requires Valid()
      ensures r == |Flat()|
    {
      if sglist == [] {
        return HEADER_SIZE;
      }
      r := 0;
      for i := 0 to |sglist|
        invariant r + |Gather(header, sglist[i..])| == |Gather(header, sglist)|
      {
        assert sglist[i..][1..] == sglist[i + 1..];
        r := r + |SegmentBytes(header, sglist[i])|;
      }
      assert sglist[|sglist|..] == [];
    }

    /** Exactly the first `n` bytes remain, for any `n` from the header to the full length. */
    method ShrinkTo(n: nat)
      requires Valid() && HEADER_SIZE <= n <= |Flat()|
      modifies this`sglist
      ensures Valid() && Flat() == old(Flat())[..n]
    {
      hide Gather, HeaderBytes;
      ghost var body := Body();
      PrefixOf(HeaderBytes(header), body, n - HEADER_SIZE);
      if n == HEADER_SIZE {
        sglist := [];
      } else {
        var i := 1;
        var left := n - HEADER_SIZE;
        GatherNone(header, sglist);
        while |sglist| > i && left >= |sglist[i].bytes|
          invariant 1 <= i <= |sglist| && sglist == old(sglist) && left >= 0
          invariant |Gather(header, sglist[1..i])| + left == n - HEADER_SIZE
          invariant body == Gather(header, sglist[1..i]) + Gather(header, sglist[i..])
          decreases |sglist| - i
        {
          TakeOne(header, sglist, i);
          left := left - |sglist[i].bytes|;
          i := i + 1;
        }
        CutHere(header, sglist, i, left, body);
        if left > 0 {
          sglist := sglist[i := Data(sglist[i].bytes[0..left])];
          i := i + 1;
        }
        sglist := sglist[0..i];
      }
      assert Body() == body[..n - HEADER_SIZE];
    }
  }

  /** Cutting the list in segment `i` after `left` more bytes cuts the body there. */
  lemma CutHere(h: Header, sg: seq<Segment>, i: nat, left: nat, body: seq<byte>)
    requires 1 <= i <= |sg| && forall j :: 1 <= j < |sg| ==> sg[j].Data?
    requires body == Gather(h, sg[1..i]) + Gather(h, sg[i..])
    requires |Gather(h, sg[1..i])| + left <= |body|
    requires i < |sg| ==> left < |sg[i].bytes|
    ensures left > 0 ==> i < |sg|
    ensures var sg' := if left > 0 then sg[i := Data(sg[i].bytes[0..left])][0..i + 1] else sg[0..i];
            Gather(h, sg'[1..]) == body[..|Gather(h, sg[1..i])| + left]
  {
    hide Gather;
    var done := sg[1..i];
    GatherNone(h, sg);
    PrefixOf(Gather(h, done), Gather(h, sg[i..]), left);
    if left > 0 {
      TakeOne(h, sg, i);
      var cut := sg[i].bytes[0..left];
      GatherCut(h, done, cut);
      assert sg[i := Data(cut)][0..i + 1][1..] == done + [Data(cut)];
    } else {
      assert sg[0..i][1..] == done;
    }
  }

  lemma PrefixOf(a: seq<byte>, b: seq<byte>, k: nat)
    requires k <= |b|
    ensures (a + b)[..|a| + k] == a + b[..k]
  {
  }

  lemma GatherNone(h: Header, sg: seq<Segment>)
    ensures |sg| >= 1 ==> Gather(h, sg[1..1]) == []
    ensures Gather(h, sg[|sg|..]) == []
  {
  }

  lemma GatherCut(h: Header, done: seq<Segment>, cut: seq<byte>)
    ensures Gather(h, done + [Data(cut)]) == Gather(h, done) + cut
  {
    GatherAppend(h, done, [Data(cut)]);
    assert Gather(h, [Data(cut)]) == cut + Gather(h, []);
  }

  /** Moving segment `i` from what is left to what is done. */
  lemma TakeOne(h: Header, sg: seq<Segment>, i: nat)
    requires 1 <= i < |sg|
    ensures Gather(h, sg[1..i + 1]) == Gather(h, sg[1..i]) + SegmentBytes(h, sg[i])
    ensures Gather(h, sg[i..]) == SegmentBytes(h, sg[i]) + Gather(h, sg[i + 1..])
  {
    assert sg[1..i + 1] == sg[1..i] + [sg[i]];
    GatherAppend(h, sg[1..i], [sg[i]]);
    assert Gather(h, [sg[i]]) == SegmentBytes(h, sg[i]) + Gather(h, []);
    assert sg[i..][1..] == sg[i + 1..];
  }
}
