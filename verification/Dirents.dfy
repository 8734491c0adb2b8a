/** Directory entries on the wire: `fuseutil.WriteDirent` and the record format
    of `struct fuse_dirent` as the kernel parses it. */
module Dirents {
  import opened Bytes

  const DT_UNKNOWN: nat := 0
  const DT_DIRECTORY: nat := 4
  const DT_FILE: nat := 8
  const DT_LINK: nat := 10

  const DIRENT_SIZE: nat := 24
  const DIRENT_ALIGNMENT: nat := 8

  /** `offset` is the directory offset of the entry that follows this one. */
  datatype Dirent = Dirent(offset: nat, inode: nat, name: seq<byte>, typ: nat)

  function PadLen(n: nat): (p: nat)
    ensures p < DIRENT_ALIGNMENT && (n + p) % DIRENT_ALIGNMENT == 0
  {
    if n % DIRENT_ALIGNMENT != 0 then DIRENT_ALIGNMENT - n % DIRENT_ALIGNMENT else 0
  }

  /** The bytes a record for a name of length `n` occupies. */
  function RecordSize(n: nat): (r: nat)
    ensures r % DIRENT_ALIGNMENT == 0
  {
    DIRENT_SIZE + n + PadLen(n)
  }

  function RecordLen(d: Dirent): nat { RecordSize(|d.name|) }

  function Encode(d: Dirent): (s: seq<byte>)
    ensures |s| == RecordLen(d)
  {
    LE(d.inode, 8) + LE(d.offset, 8) + LE(|d.name|, 4) + LE(d.typ, 4)
    + d.name + Zeros(PadLen(|d.name|))
  }

  /** Each field fits the width the wire format gives it. */
  predicate Encodable(d: Dirent)
  {
    d.inode < Pow256(8) && d.offset < Pow256(8) && |d.name| < Pow256(4) && d.typ < Pow256(4)
  }

  function EncodeAll(ds: seq<Dirent>): seq<byte>
  {
    if ds == [] then [] else Encode(ds[0]) + EncodeAll(ds[1..])
  }

  function TotalLen(ds: seq<Dirent>): nat
  {
    if ds == [] then 0 else RecordLen(ds[0]) + TotalLen(ds[1..])
  }

  /** What the kernel makes of a reply body: records are taken as long as a whole
      one is left. */
  function Parse(b: seq<byte>): seq<Dirent>
    decreases |b|
  {
    if |b| < DIRENT_SIZE then [] else
    var nameLen := FromLE(b[16..20]);
    var record := RecordSize(nameLen);
    if record > |b| then [] else
    [Dirent(FromLE(b[8..16]), FromLE(b[0..8]), b[24..24 + nameLen], FromLE(b[20..24]))]
    + Parse(b[record..])
  }

  lemma ParseOne(d: Dirent, rest: seq<byte>)
    requires Encodable(d)
    ensures Parse(Encode(d) + rest) == [d] + Parse(rest)
  {
    hide Pow256, LE, FromLE;
    var b := Encode(d) + rest;
    assert b[0..8] == LE(d.inode, 8);
    assert b[8..16] == LE(d.offset, 8);
    assert b[16..20] == LE(|d.name|, 4);
    assert b[20..24] == LE(d.typ, 4);
    assert b[24..24 + |d.name|] == d.name;
    assert b[RecordLen(d)..] == rest;
    FitsInField(d.inode, 8);
    FitsInField(d.offset, 8);
    FitsInField(|d.name|, 4);
    FitsInField(d.typ, 4);
  }

  /** Framing round trip: a buffer of consecutive records parses back to exactly
      the entries written, in order. */
  lemma {:induction false} ParseInvertsEncodeAll(ds: seq<Dirent>)
    requires forall d :: d in ds ==> Encodable(d)
    ensures Parse(EncodeAll(ds)) == ds
  {
    if ds != [] {
      ParseInvertsEncodeAll(ds[1..]);
      ParseOne(ds[0], EncodeAll(ds[1..]));
    }
  }

  lemma {:induction false} EncodeAllSnoc(ds: seq<Dirent>, d: Dirent)
    ensures EncodeAll(ds + [d]) == EncodeAll(ds) + Encode(d)
    ensures TotalLen(ds + [d]) == TotalLen(ds) + RecordLen(d)
  {
    if ds == [] {
      assert ds + [d] == [d];
      assert EncodeAll([d]) == Encode(d) + EncodeAll([]);
    } else {
      assert (ds + [d])[1..] == ds[1..] + [d];
      EncodeAllSnoc(ds[1..], d);
    }
  }

  lemma {:induction false} EncodeAllLen(ds: seq<Dirent>)
    ensures |EncodeAll(ds)| == TotalLen(ds)
    ensures |EncodeAll(ds)| % DIRENT_ALIGNMENT == 0
  {
    if ds != [] {
      EncodeAllLen(ds[1..]);
      SumAligned(RecordLen(ds[0]), TotalLen(ds[1..]));
    }
  }

  lemma SumAligned(a: nat, b: nat)
    requires a % DIRENT_ALIGNMENT == 0 && b % DIRENT_ALIGNMENT == 0
    ensures (a + b) % DIRENT_ALIGNMENT == 0
  {
  }

  /** Write one entry at `buf[lo..]`, or nothing when it does not fit. */
  method WriteDirent(buf: array<byte>, lo: nat, d: Dirent) returns (n: nat)
    requires lo <= buf.Length
    modifies buf
    ensures n == if RecordLen(d) <= buf.Length - lo then RecordLen(d) else 0
    ensures n == 0 ==> buf[..] == old(buf[..])
    ensures n != 0 ==> buf[..] == Splice(old(buf[..]), lo, Encode(d))
  {
    n := 0;
    var padLen := 0;
    if |d.name| % DIRENT_ALIGNMENT != 0 {
      padLen := DIRENT_ALIGNMENT - |d.name| % DIRENT_ALIGNMENT;
    }
    var totalLen := DIRENT_SIZE + |d.name| + padLen;
    if totalLen > buf.Length - lo {
      return;
    }
    var header := LE(d.inode, 8) + LE(d.offset, 8) + LE(|d.name|, 4) + LE(d.typ, 4);
    n := CopyAll(buf, lo, header);
    SpliceSplice(old(buf[..]), lo, header, d.name);
    var k := CopyAll(buf, lo + n, d.name);
    n := n + k;
    assert header + d.name + Zeros(0) == header + d.name;
    if padLen != 0 {
      SpliceSplice(old(buf[..]), lo, header + d.name, Zeros(padLen));
      k := CopyAll(buf, lo + n, Zeros(padLen));
      n := n + k;
    }
  }

  /** `copy` where the destination is known to have room. */
  method CopyAll(buf: array<byte>, at: nat, src: seq<byte>) returns (n: nat)
    requires at + |src| <= buf.Length
    modifies buf
    ensures n == |src|
    ensures buf[..] == Splice(old(buf[..]), at, src)
  {
    n := Copy(buf, at, src);
    assert src[..n] == src;
  }

  /** The entries of `ds` that fill a buffer of `cap` bytes from the front. */
  function Fit(ds: seq<Dirent>, cap: nat): seq<Dirent>
  {
    if ds == [] || RecordLen(ds[0]) > cap then []
    else [ds[0]] + Fit(ds[1..], cap - RecordLen(ds[0]))
  }

  /** `Fit` is the longest prefix whose records fit in the buffer. */
  lemma {:induction false} FitIsLongest(ds: seq<Dirent>, cap: nat)
    ensures Fit(ds, cap) <= ds
    ensures TotalLen(Fit(ds, cap)) <= cap
    ensures forall k :: 0 <= k <= |ds| && TotalLen(ds[..k]) <= cap ==> k <= |Fit(ds, cap)|
  {
    if ds != [] {
      if RecordLen(ds[0]) <= cap {
        var c := cap - RecordLen(ds[0]);
        FitIsLongest(ds[1..], c);
        assert Fit(ds, cap)[1..] == Fit(ds[1..], c);
        forall k | 0 < k <= |ds| && TotalLen(ds[..k]) <= cap
          ensures k <= |Fit(ds, cap)|
        {
          assert ds[..k][1..] == ds[1..][..k - 1];
        }
      } else {
        forall k | 0 < k <= |ds|
          ensures TotalLen(ds[..k]) > cap
        {
          assert ds[..k][0] == ds[0];
        }
      }
    }
  }
}
