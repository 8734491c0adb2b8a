/** Request decoding: the cases of `convertInMessage` with structured payloads, and
    the kernel-side encodings they invert. */
module Decoding {
  import opened Bytes
  import opened InMessages

  /** `Crash` is a slice expression out of range, which ends the program. */
  datatype Decoded<+T> = Ok(value: T) | Corrupt | Crash

  datatype RenameRequest = RenameRequest(newDir: nat, oldName: seq<byte>, newName: seq<byte>)
  datatype SymlinkRequest = SymlinkRequest(name: seq<byte>, target: seq<byte>)
  datatype SetxattrRequest = SetxattrRequest(flags: nat, name: seq<byte>, value: seq<byte>)
  datatype ForgetEntry = ForgetEntry(inode: nat, n: nat)

  /** `bytes.IndexByte(b, 0)`. */
  method IndexNul(b: seq<byte>) returns (i: int)
    ensures i == if FirstNul(b) == |b| then -1 else FirstNul(b)
  {
    var k := 0;
    while k < |b|
      invariant k <= |b| && FirstNul(b) == FirstNul(b, k)
    {
      if b[k] == 0 {
        return k;
      }
      k := k + 1;
    }
    return -1;
  }

  /** Two NUL-terminated strings, split at the first NUL. */
  function TwoNames(b: seq<byte>): Decoded<(seq<byte>, seq<byte>)>
  {
    if b == [] || b[|b| - 1] != 0 then Corrupt else
    var i := FirstNul(b);
    if i == |b| then Corrupt
    else if i == |b| - 1 then Crash
    else Ok((b[..i], b[i + 1..|b| - 1]))
  }

  /** The checks and slices shared by Rename and Symlink. */
  method SplitNames(names: seq<byte>) returns (r: Decoded<(seq<byte>, seq<byte>)>)
    ensures r == TwoNames(names)
  {
    if |names| == 0 || names[|names| - 1] != 0 {
      return Corrupt;
    }
    var i := IndexNul(names);
    if i < 0 {
      return Corrupt;
    }
    if i == |names| - 1 {
      return Crash;
    }
    return Ok((names[..i], names[i + 1..|names| - 1]));
  }

  /** The first NUL of `a\0...` is right after a NUL-free `a`. */
  lemma FirstNulAfter(a: seq<byte>, rest: seq<byte>)
    requires NulFree(a)
    ensures FirstNul(a + [0] + rest) == |a|
  {
    var b := a + [0] + rest;
    assert b[|a|] == 0 && forall j :: 0 <= j < |a| ==> b[j] == a[j];
  }

  lemma TwoNamesRoundTrip(a: seq<byte>, c: seq<byte>)
    requires NulFree(a)
    ensures TwoNames(a + [0] + (c + [0])) == Ok((a, c))
  {
    var b := a + [0] + (c + [0]);
    FirstNulAfter(a, c + [0]);
    assert b[..|a|] == a && b[|a| + 1..|b| - 1] == c;
  }

  // ---------------------------------------------------------------- Rename

  function SkipFlags(names: seq<byte>): seq<byte>
  {
    if |names| >= 8 && names[..8] == Zeros(8) then names[8..] else names
  }

  function RenameOf(payload: seq<byte>): Decoded<RenameRequest>
  {
    if payload == [] || |payload| < 8 then Corrupt else
    var names := SkipFlags(payload[8..]);
    if |names| < 4 then Corrupt else
    match TwoNames(names)
    case Ok((a, c)) => Ok(RenameRequest(FromLE(payload[..8]), a, c))
    case Corrupt => Corrupt
    case Crash => Crash
  }

  lemma EightZeros(b: seq<byte>)
    requires |b| >= 8
    ensures b[..8] == Zeros(8) <==>
            b[0] == 0 && b[1] == 0 && b[2] == 0 && b[3] == 0 && b[4] == 0 && b[5] == 0 && b[6] == 0 && b[7] == 0
  {
    if b[..8] == Zeros(8) {
      assert forall k :: 0 <= k < 8 ==> b[k] == b[..8][k];
    }
  }

  lemma Halves(a: seq<byte>, b: seq<byte>, whole: seq<byte>)
    requires a + b == whole
    ensures a == whole[..|a|] && b == whole[|a|..]
  {
  }

  method DecodeRename(m: InMessage) returns (r: Decoded<RenameRequest>)
    requires m.Valid()
    modifies m`lo
    ensures m.Valid() && r == RenameOf(old(m.Remaining()))
  {
    hide FromLE, TwoNames, Zeros;
    var input := m.Consume(8);
    if input.None? {
      return Corrupt;
    }
    var len := m.Len();
    var rest := m.ConsumeBytes(len);
    var names := rest.value;
    Halves(input.value, names, old(m.Remaining()));
    if |names| >= 8 { EightZeros(names); }
    if |names| >= 8
       && names[0] == 0 && names[1] == 0 && names[2] == 0 && names[3] == 0
       && names[4] == 0 && names[5] == 0 && names[6] == 0 && names[7] == 0
    {
      names := names[8..];
    }
    if |names| < 4 {
      return Corrupt;
    }
    var split := SplitNames(names);
    match split
    case Ok((a, c)) => return Ok(RenameRequest(FromLE(input.value), a, c));
    case Corrupt => return Corrupt;
    case Crash => return Crash;
  }

  /** Decoding inverts the kernel's encoding, with or without the eight flag bytes some
      kernels add, for any non-empty NUL-free names. */
  lemma RenameRoundTrip(r: RenameRequest, flags: bool)
    requires r.newDir < Pow256(8)
    requires r.oldName != [] && NulFree(r.oldName) && r.newName != [] && NulFree(r.newName)
    ensures RenameOf(LE(r.newDir, 8) + (if flags then Zeros(8) else [])
                     + (r.oldName + [0] + (r.newName + [0]))) == Ok(r)
  {
    hide Pow256, LE, FromLE, FirstNul, TwoNames;
    var names := r.oldName + [0] + (r.newName + [0]);
    var tail := (if flags then Zeros(8) else []) + names;
    var payload := LE(r.newDir, 8) + (if flags then Zeros(8) else []) + names;
    assert payload[..8] == LE(r.newDir, 8) && payload[8..] == tail;
    FitsInField(r.newDir, 8);
    assert SkipFlags(tail) == names by {
      if flags {
        assert tail[..8] == Zeros(8) && tail[8..] == names;
      } else {
        assert tail == names && names[0] == r.oldName[0] != 0;
        assert |names| >= 8 ==> names[..8][0] != Zeros(8)[0];
      }
    }
    TwoNamesRoundTrip(r.oldName, r.newName);
  }

  // ---------------------------------------------------------------- Symlink

  function SymlinkOf(payload: seq<byte>): Decoded<SymlinkRequest>
  {
    match TwoNames(payload)
    case Ok((a, c)) => Ok(SymlinkRequest(a, c))
    case Corrupt => Corrupt
    case Crash => Crash
  }

  method DecodeSymlink(m: InMessage) returns (r: Decoded<SymlinkRequest>)
    requires m.Valid()
    modifies m`lo
    ensures m.Valid() && r == SymlinkOf(old(m.Remaining()))
  {
    hide TwoNames;
    var len := m.Len();
    var rest := m.ConsumeBytes(len);
    assert rest.value == old(m.Remaining());
    var split := SplitNames(rest.value);
    match split
    case Ok((a, c)) => return Ok(SymlinkRequest(a, c));
    case Corrupt => return Corrupt;
    case Crash => return Crash;
  }

  lemma SymlinkRoundTrip(r: SymlinkRequest)
    requires NulFree(r.name)
    ensures SymlinkOf(r.name + [0] + (r.target + [0])) == Ok(r)
  {
    hide TwoNames;
    TwoNamesRoundTrip(r.name, r.target);
  }

  /** Malformed input: the decoder runs out of range exactly when the only NUL is the last byte. */
  lemma SymlinkCrashesIff(payload: seq<byte>)
    ensures SymlinkOf(payload) == Crash <==> exists name: seq<byte> :: NulFree(name) && payload == name + [0]
  {
    if SymlinkOf(payload) == Crash {
      var name := payload[..|payload| - 1];
      assert payload == name + [0];
      assert NulFree(name);
    }
    if name: seq<byte> :| NulFree(name) && payload == name + [0] {
      FirstNulAfter(name, []);
      assert name + [0] + [] == payload;
    }
  }

  /** The rename decoder, likewise, on what follows the fixed part and any flag bytes. */
  lemma RenameCrashesIff(payload: seq<byte>)
    ensures RenameOf(payload) == Crash <==>
            && |payload| >= 8
            && exists name: seq<byte> :: NulFree(name) && |name| >= 3 && SkipFlags(payload[8..]) == name + [0]
  {
    hide TwoNames, SkipFlags, FromLE;
    if |payload| >= 8 {
      var names := SkipFlags(payload[8..]);
      SymlinkCrashesIff(names);
      if |names| >= 4 && RenameOf(payload) == Crash {
        var name: seq<byte> :| NulFree(name) && names == name + [0];
        assert |name| >= 3;
      }
      if name: seq<byte> :| NulFree(name) && |name| >= 3 && names == name + [0] {
        assert SymlinkOf(names) == Crash;
      }
    }
  }

  // ---------------------------------------------------------------- Setxattr

  function SetxattrOf(payload: seq<byte>): Decoded<SetxattrRequest>
  {
    if payload == [] || |payload| < 8 then Corrupt else
    var b := payload[8..];
    if |b| < 3 then Corrupt else
    var i := FirstNul(b);
    if i == |b| then Corrupt else Ok(SetxattrRequest(FromLE(payload[4..8]), b[..i], b[i + 1..]))
  }

  method DecodeSetxattr(m: InMessage) returns (r: Decoded<SetxattrRequest>)
    requires m.Valid()
    modifies m`lo
    ensures m.Valid() && r == SetxattrOf(old(m.Remaining()))
  {
    var input := m.Consume(8);
    if input.None? {
      return Corrupt;
    }
    var len := m.Len();
    var rest := m.ConsumeBytes(len);
    var b := rest.value;
    assert b == old(m.Remaining())[8..] && input.value[4..8] == old(m.Remaining())[4..8];
    if |b| < 3 {
      return Corrupt;
    }
    var i := IndexNul(b);
    if i < 0 {
      return Corrupt;
    }
    return Ok(SetxattrRequest(FromLE(input.value[4..8]), b[..i], b[i + 1..]));
  }

  /** Any value comes back, NULs included, exactly when name, NUL and value make at least
      three bytes; a shorter payload is refused. */
  lemma SetxattrRoundTrip(r: SetxattrRequest, size: nat)
    requires r.flags < Pow256(4) && NulFree(r.name)
    ensures SetxattrOf(LE(size, 4) + LE(r.flags, 4) + (r.name + [0] + r.value)) ==
            if |r.name| + 1 + |r.value| >= 3 then Ok(r) else Corrupt
  {
    hide Pow256, LE, FromLE, FirstNul;
    var b := r.name + [0] + r.value;
    var payload := LE(size, 4) + LE(r.flags, 4) + b;
    assert payload[4..8] == LE(r.flags, 4) && payload[8..] == b;
    FitsInField(r.flags, 4);
    FirstNulAfter(r.name, r.value);
    assert b[..|r.name|] == r.name && b[|r.name| + 1..] == r.value;
  }

  /** Attribute names that reach the file system have no NUL in them. */
  lemma SetxattrNameNulFree(payload: seq<byte>)
    ensures SetxattrOf(payload).Ok? ==> NulFree(SetxattrOf(payload).value.name)
  {
    if SetxattrOf(payload).Ok? {
      var b, name := payload[8..], SetxattrOf(payload).value.name;
      assert forall j :: 0 <= j < |name| ==> name[j] == b[j];
    }
  }

  // ---------------------------------------------------------------- BatchForget

  /** The next `count` entries of 16 bytes. */
  function EntriesOf(b: seq<byte>, count: nat): Decoded<seq<ForgetEntry>>
    decreases count
  {
    if count == 0 then Ok([])
    else if |b| < 16 then Corrupt
    else match EntriesOf(b[16..], count - 1)
      case Ok(es) => Ok([ForgetEntry(FromLE(b[..8]), FromLE(b[8..16]))] + es)
      case Corrupt => Corrupt
      case Crash => Crash
  }

  function BatchForgetOf(payload: seq<byte>): Decoded<seq<ForgetEntry>>
  {
    if |payload| < 8 then Corrupt else EntriesOf(payload[8..], FromLE(payload[..4]))
  }

  /** `es` followed by what `d` decodes to. */
  function After(es: seq<ForgetEntry>, d: Decoded<seq<ForgetEntry>>): Decoded<seq<ForgetEntry>>
  {
    match d
    case Ok(rest) => Ok(es + rest)
    case Corrupt => Corrupt
    case Crash => Crash
  }

  lemma NextEntry(es: seq<ForgetEntry>, b: seq<byte>, count: nat)
    requires count > 0
    ensures |b| < 16 ==> After(es, EntriesOf(b, count)) == Corrupt
    ensures |b| >= 16 ==>
              After(es, EntriesOf(b, count))
              == After(es + [ForgetEntry(FromLE(b[..8]), FromLE(b[8..16]))], EntriesOf(b[16..], count - 1))
  {
    if |b| >= 16 && EntriesOf(b[16..], count - 1).Ok? {
      var e, rest := ForgetEntry(FromLE(b[..8]), FromLE(b[8..16])), EntriesOf(b[16..], count - 1).value;
      assert es + ([e] + rest) == (es + [e]) + rest;
    }
  }

  lemma NoMoreEntries(es: seq<ForgetEntry>, b: seq<byte>)
    ensures After(es, EntriesOf(b, 0)) == Ok(es)
  {
    assert es + [] == es;
  }

  lemma NoEntriesYet(d: Decoded<seq<ForgetEntry>>)
    ensures After([], d) == d
  {
    if d.Ok? { assert [] + d.value == d.value; }
  }

  method DecodeBatchForget(m: InMessage) returns (r: Decoded<seq<ForgetEntry>>)
    requires m.Valid()
    modifies m`lo
    ensures m.Valid() && r == BatchForgetOf(old(m.Remaining()))
  {
    hide EntriesOf, FromLE, After;
    var input := m.Consume(8);
    if input.None? {
      return Corrupt;
    }
    Halves(input.value, m.Remaining(), old(m.Remaining()));
    assert input.value[..4] == old(m.Remaining())[..4];
    var count := FromLE(input.value[..4]);
    var entries: seq<ForgetEntry> := [];
    ghost var all := EntriesOf(m.Remaining(), count);
    NoEntriesYet(all);
    for i := 0 to count
      invariant m.Valid()
      invariant all == After(entries, EntriesOf(m.Remaining(), count - i))
    {
      ghost var before := m.Remaining();
      NextEntry(entries, before, count - i);
      var ein := m.Consume(16);
      if ein.None? {
        return Corrupt;
      }
      Halves(ein.value, m.Remaining(), before);
      assert ein.value[..8] == before[..8] && ein.value[8..16] == before[8..16];
      entries := entries + [ForgetEntry(FromLE(ein.value[..8]), FromLE(ein.value[8..16]))];
    }
    NoMoreEntries(entries, m.Remaining());
    return Ok(entries);
  }

  function EncodeEntries(es: seq<ForgetEntry>): seq<byte>
  {
    if es == [] then [] else LE(es[0].inode, 8) + LE(es[0].n, 8) + EncodeEntries(es[1..])
  }

  lemma {:induction false} EntriesRoundTrip(es: seq<ForgetEntry>)
    requires forall e :: e in es ==> e.inode < Pow256(8) && e.n < Pow256(8)
    ensures EntriesOf(EncodeEntries(es), |es|) == Ok(es)
  {
    if es != [] {
      EntriesRoundTrip(es[1..]);
      var b := EncodeEntries(es);
      assert b[..8] == LE(es[0].inode, 8) && b[8..16] == LE(es[0].n, 8) && b[16..] == EncodeEntries(es[1..]);
      assert es[0] in es && es == [es[0]] + es[1..];
      FitsInField(es[0].inode, 8);
      FitsInField(es[0].n, 8);
    }
  }

  /** A batch of any number of entries comes back entry for entry. */
  lemma BatchForgetRoundTrip(es: seq<ForgetEntry>)
    requires |es| < Pow256(4) && forall e :: e in es ==> e.inode < Pow256(8) && e.n < Pow256(8)
    ensures BatchForgetOf(LE(|es|, 4) + LE(0, 4) + EncodeEntries(es)) == Ok(es)
  {
    hide Pow256, LE, FromLE, EntriesOf, EncodeEntries;
    var payload := LE(|es|, 4) + LE(0, 4) + EncodeEntries(es);
    assert payload[..4] == LE(|es|, 4) && payload[8..] == EncodeEntries(es);
    FitsInField(|es|, 4);
    EntriesRoundTrip(es);
  }
}
