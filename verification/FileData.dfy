/** The contents of a memFS file: a Go slice with hidden capacity, the operations
    that change it, and the file those operations are meant to describe. */
module FileData {
  import opened Bytes

  /** A byte slice. `store` is the whole backing array; only the first `len` bytes
      are visible, and the rest may hold bytes left over from before a truncation. */
  datatype Slice = Slice(store: seq<byte>, len: nat) {
    ghost predicate Valid() { len <= |store| }

    ghost function Visible(): seq<byte>
      requires Valid()
    {
      store[..len]
    }
  }

  /** Go's `append`: in place while the capacity lasts, else into a new backing
      array whose unused tail `junk` is the allocator's choice. */
  function Append(s: Slice, src: seq<byte>, junk: seq<byte>): Slice
    requires s.Valid()
  {
    if s.len + |src| <= |s.store|
    then Slice(Splice(s.store, s.len, src), s.len + |src|)
    else Slice(s.store[..s.len] + src + junk, s.len + |src|)
  }

  datatype FileOp =
    | Write(off: nat, data: seq<byte>)
    | Truncate(size: nat)
    | Fallocate(mode: nat, off: nat, len: nat)

  /** One operation as the slice code performs it, `junk` being the tail of a
      backing array allocated on the way. */
  function SliceStep(s: Slice, op: FileOp, junk: seq<byte>): (s': Slice)
    requires s.Valid()
    ensures s'.Valid()
  {
    match op
    case Write(off, data) =>
      var grown := if s.len < off + |data| then Append(s, Zeros(off + |data| - s.len), junk) else s;
      grown.(store := Splice(grown.store, off, data))
    case Truncate(size) =>
      if size <= s.len then s.(len := size) else Append(s, Zeros(size - s.len), junk)
    case Fallocate(mode, off, len) =>
      if mode == 0 && off + len > s.len then Append(s, Zeros(off + len - s.len), junk) else s
  }

  function SliceRun(ops: seq<FileOp>, junks: seq<seq<byte>>): (s: Slice)
    requires |junks| == |ops|
    ensures s.Valid()
  {
    if ops == [] then Slice([], 0)
    else SliceStep(SliceRun(ops[..|ops| - 1], junks[..|ops| - 1]), ops[|ops| - 1], junks[|ops| - 1])
  }

  /** The size of the file after a history of operations. */
  function Size(ops: seq<FileOp>): nat
  {
    if ops == [] then 0 else
    var before := Size(ops[..|ops| - 1]);
    match ops[|ops| - 1]
    case Write(off, data) => if before < off + |data| then off + |data| else before
    case Truncate(size) => size
    case Fallocate(mode, off, len) => if mode == 0 && before < off + len then off + len else before
  }

  /** The byte a history leaves at position `i`: the last value written there, or zero
      if none was written since the position was last cut off. */
  function LastWritten(ops: seq<FileOp>, i: nat): byte
  {
    if ops == [] then 0 else
    match ops[|ops| - 1]
    case Write(off, data) =>
      if off <= i < off + |data| then data[i - off] else LastWritten(ops[..|ops| - 1], i)
    case Truncate(size) => if size <= i then 0 else LastWritten(ops[..|ops| - 1], i)
    case Fallocate(_, _, _) => LastWritten(ops[..|ops| - 1], i)
  }

  /** Positions at or past the end hold no byte that a later growth could show. */
  lemma {:induction false} NothingPastEnd(ops: seq<FileOp>, i: nat)
    requires i >= Size(ops)
    ensures LastWritten(ops, i) == 0
  {
    if ops != [] && !ops[|ops| - 1].Truncate? { NothingPastEnd(ops[..|ops| - 1], i); }
    else if ops != [] { assert ops[|ops| - 1].size <= i; }
  }

  /** What one operation does to the visible bytes, whatever the capacity. */
  function Apply(c: seq<byte>, op: FileOp): seq<byte>
  {
    match op
    case Write(off, data) =>
      var grown := if |c| < off + |data| then c + Zeros(off + |data| - |c|) else c;
      Splice(grown, off, data)
    case Truncate(size) => if size <= |c| then c[..size] else c + Zeros(size - |c|)
    case Fallocate(mode, off, len) =>
      if mode == 0 && off + len > |c| then c + Zeros(off + len - |c|) else c
  }

  lemma AppendVisible(s: Slice, src: seq<byte>, junk: seq<byte>)
    requires s.Valid()
    ensures Append(s, src, junk).Valid()
    ensures Append(s, src, junk).Visible() == s.Visible() + src
  {
  }

  lemma SplicePrefix(store: seq<byte>, len: nat, off: nat, data: seq<byte>)
    requires off + |data| <= len <= |store|
    ensures Splice(store, off, data)[..len] == Splice(store[..len], off, data)
  {
  }

  lemma StepIsApply(s: Slice, op: FileOp, junk: seq<byte>)
    requires s.Valid()
    ensures SliceStep(s, op, junk).Visible() == Apply(s.Visible(), op)
  {
    hide Append, Splice;
    match op
    case Write(off, data) =>
      var grown := s;
      if s.len < off + |data| {
        AppendVisible(s, Zeros(off + |data| - s.len), junk);
        grown := Append(s, Zeros(off + |data| - s.len), junk);
      }
      SplicePrefix(grown.store, grown.len, off, data);
    case Truncate(size) =>
      if size > s.len { AppendVisible(s, Zeros(size - s.len), junk); }
    case Fallocate(mode, off, len) =>
      if off + len > s.len { AppendVisible(s, Zeros(off + len - s.len), junk); }
  }

  /** One operation on an abstract file adds to its history. */
  lemma {:induction false} ApplyIsHistory(c: seq<byte>, ops: seq<FileOp>)
    requires ops != []
    requires var h := ops[..|ops| - 1];
             |c| == Size(h) && forall i :: 0 <= i < |c| ==> c[i] == LastWritten(h, i)
    ensures var c' := Apply(c, ops[|ops| - 1]);
            |c'| == Size(ops) && forall i :: 0 <= i < |c'| ==> c'[i] == LastWritten(ops, i)
  {
    var h := ops[..|ops| - 1];
    var c' := Apply(c, ops[|ops| - 1]);
    forall i | 0 <= i < |c'| ensures c'[i] == LastWritten(ops, i) {
      if i >= |c| { NothingPastEnd(h, i); }
    }
  }

  /** Main result: for every history and every choice the allocator makes, the visible
      bytes are the last ones written, and stale capacity never shows. */
  lemma {:induction false} SliceRunIsHistory(ops: seq<FileOp>, junks: seq<seq<byte>>)
    requires |junks| == |ops|
    ensures SliceRun(ops, junks).len == Size(ops)
    ensures forall i :: 0 <= i < Size(ops) ==> SliceRun(ops, junks).Visible()[i] == LastWritten(ops, i)
  {
    if ops != [] {
      var n := |ops| - 1;
      SliceRunIsHistory(ops[..n], junks[..n]);
      var s := SliceRun(ops[..n], junks[..n]);
      StepIsApply(s, ops[n], junks[n]);
      assert SliceRun(ops, junks) == SliceStep(s, ops[n], junks[n]);
      hide SliceStep, Size, LastWritten, Apply;
      ApplyIsHistory(s.Visible(), ops);
    }
  }

  /** The bytes a read at `off` yields: what is there, at most `cap` of them. */
  function ReadBytes(c: seq<byte>, off: nat, cap: nat): seq<byte>
  {
    if off > |c| then [] else if |c| - off <= cap then c[off..] else c[off..off + cap]
  }

  /** A read yields as many bytes as asked for, or what is left after the offset if that is
      less, and they are the bytes from the offset on. */
  lemma ReadFromOffset(c: seq<byte>, off: nat, cap: nat)
    ensures var (r, left) := (ReadBytes(c, off, cap), if off <= |c| then |c| - off else 0);
            && |r| == (if cap <= left then cap else left)
            && forall i :: 0 <= i < |r| ==> r[i] == c[off + i]
  {
    var r := ReadBytes(c, off, cap);
    assert forall i :: 0 <= i < |r| ==> r[i] == c[off + i];
  }
}
