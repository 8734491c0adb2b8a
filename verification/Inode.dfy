/** One memFS inode: a directory, file or symlink, updated in place. */
module InodeObject {
  import opened Bytes
  import opened Dirents
  import opened Slots
  import opened FileData
  import opened MemState

  class Inode {
    var name: seq<byte>
    var attrs: Attrs
    var entries: seq<Dirent>
    var contents: Slice
    var target: seq<byte>
    var xattrs: map<seq<byte>, seq<byte>>

    /** The inode as a value; capacity behind the contents does not show. */
    ghost function View(): Node
      requires contents.Valid()
      reads this
    {
      Node(name, attrs, entries, contents.Visible(), target, xattrs)
    }

    ghost predicate Valid()
      reads this
    {
      contents.Valid() && View().Ok()
    }

    constructor (attrs: Attrs, name: seq<byte>)
      ensures contents.Valid()
      ensures View() == Node(name, attrs, [], [], [], map[])
    {
      this.name := name;
      this.attrs := attrs;
      entries, contents, target, xattrs := [], Slice([], 0), [], map[];
    }

    /** The slot of the child with the given name. */
    method FindChild(name: seq<byte>) returns (i: nat, ok: bool)
      requires attrs.mode.dir
      ensures Find(entries, name) == if ok then Some(i) else None
    {
      for k := 0 to |entries|
        invariant Find(entries, name) == Find(entries, name, k)
      {
        if entries[k].name == name {
          return k, true;
        }
      }
      return 0, false;
    }

    /** The number of children. */
    method Len() returns (n: nat)
      ensures n == Count(entries)
    {
      n := 0;
      for k := 0 to |entries|
        invariant n + |UsedFrom(entries, k)| == Count(entries)
      {
        if entries[k].typ != DT_UNKNOWN {
          n := n + 1;
        }
      }
    }

    method LookUpChild(name: seq<byte>) returns (id: nat, typ: nat, ok: bool)
      requires attrs.mode.dir
      ensures ok == Find(entries, name).Some?
      ensures ok ==> id == entries[Find(entries, name).value].inode && typ == entries[Find(entries, name).value].typ
    {
      var index;
      index, ok := FindChild(name);
      id, typ := 0, DT_UNKNOWN;
      if ok {
        id, typ := entries[index].inode, entries[index].typ;
      }
    }

    /** Add an entry for a child, in the first gap or at the end. */
    method AddChild(id: nat, name: seq<byte>, dt: nat)
      requires attrs.mode.dir && dt != DT_UNKNOWN
      modifies this`entries
      ensures entries == Add(old(entries), id, name, dt)
    {
      var e := Dirent(0, id, name, dt);
      var index := 0;
      while index < |entries| && entries[index].typ != DT_UNKNOWN
        invariant index <= |entries| && entries == old(entries)
        invariant Gap(entries) == Gap(entries, index)
      {
        index := index + 1;
      }
      if index < |entries| {
        entries := entries[index := e];
      } else {
        entries := entries + [e];
      }
      entries := entries[index := entries[index].(offset := index + 1)];
    }

    /** Remove the entry of an existing child. */
    method RemoveChild(name: seq<byte>)
      requires attrs.mode.dir && Find(entries, name).Some?
      modifies this`entries
      ensures entries == Remove(old(entries), name)
    {
      var i, ok := FindChild(name);
      entries := entries[i := Dirent(i + 1, 0, [], DT_UNKNOWN)];
    }

    /** Fill `p` with entries from slot `offset` on: exactly the records of the longest
        run of used entries that fits, and no other byte of `p` changes. */
    method ReadDir(p: array<byte>, offset: nat) returns (n: nat)
      requires attrs.mode.dir
      modifies p
      ensures n == TotalLen(Fit(UsedFrom(entries, offset), p.Length)) <= p.Length
      ensures p[..n] == EncodeAll(Fit(UsedFrom(entries, offset), p.Length))
      ensures p[n..] == old(p[n..])
    {
      hide Splice, Encode, EncodeAll, Fit, UsedFrom, TotalLen;
      n := 0;
      ghost var done: seq<Dirent> := [];
      ghost var before := p[..];
      var i := offset;
      NothingYet(before);
      while i < |entries|
        invariant n == TotalLen(done) == |EncodeAll(done)| <= p.Length
        invariant Fit(UsedFrom(entries, offset), p.Length) == done + Fit(UsedFrom(entries, i), p.Length - n)
        invariant p[..] == Splice(before, 0, EncodeAll(done))
        decreases |entries| - i
      {
        FitFrom(entries, i, p.Length - n);
        if entries[i].typ == DT_UNKNOWN {
          i := i + 1;
          continue;
        }
        var tmp := WriteDirent(p, n, entries[i]);
        if tmp == 0 {
          assert Fit(UsedFrom(entries, i), p.Length - n) == [];
          break;
        }
        EncodeAllSnoc(done, entries[i]);
        SpliceSplice(before, 0, EncodeAll(done), Encode(entries[i]));
        done := done + [entries[i]];
        n := n + tmp;
        i := i + 1;
      }
      FitFrom(entries, i, p.Length - n);
      assert Fit(UsedFrom(entries, offset), p.Length) == done;
      SpliceFront(before, EncodeAll(done), p[..]);
    }

    /** Copy what is there at `off` into `p`; `eof` iff that is less than `p` holds. */
    method ReadAt(p: array<byte>, off: nat) returns (n: nat, eof: bool)
      requires !attrs.mode.dir && !attrs.mode.symlink && contents.Valid()
      modifies p
      ensures var r := ReadBytes(contents.Visible(), off, p.Length);
              && n == |r| && p[..] == r + old(p[|r|..]) && eof == (n < p.Length || off > contents.len)
    {
      if off > contents.len {
        assert p[..] == [] + p[0..];
        return 0, true;
      }
      var src := contents.store[off..contents.len];
      n := Copy(p, 0, src);
      assert src[..n] == ReadBytes(contents.Visible(), off, p.Length);
      SpliceFront(old(p[..]), src[..n], p[..]);
      assert p[..] == p[..n] + p[n..];
      return n, n < p.Length;
    }

    /** Overwrite at `off`, filling any hole with zeros. */
    method WriteAt(data: seq<byte>, off: nat)
      requires Valid() && View().IsFile()
      modifies this`contents, this`attrs
      ensures Valid() && View() == ApplyData(old(View()), Write(off, data))
    {
      ghost var s0 := contents;
      var junk: seq<byte> := *;
      var newLen := off + |data|;
      if contents.len < newLen {
        contents := Append(contents, Zeros(newLen - contents.len), junk);
        attrs := attrs.(size := newLen);
      }
      contents := contents.(store := Splice(contents.store, off, data));
      assert contents == SliceStep(s0, Write(off, data), junk);
      StepIsApply(s0, Write(off, data), junk);
    }

    /** Change the size, the permission bits, or both. */
    method SetAttributes(size: Option<nat>, perm: Option<nat>)
      requires Valid() && (size.Some? ==> View().IsFile())
      modifies this`contents, this`attrs
      ensures Valid()
      ensures View() ==
              var n := if size.Some? then ApplyData(old(View()), Truncate(size.value)) else old(View());
              if perm.Some? then n.(attrs := n.attrs.(mode := n.attrs.mode.(perm := perm.value))) else n
    {
      ghost var s0 := contents;
      if size.Some? {
        var junk: seq<byte> := *;
        if size.value <= contents.len {
          contents := contents.(len := size.value);
        } else {
          contents := Append(contents, Zeros(size.value - contents.len), junk);
        }
        attrs := attrs.(size := size.value);
        assert contents == SliceStep(s0, Truncate(size.value), junk);
        StepIsApply(s0, Truncate(size.value), junk);
      }
      if perm.Some? {
        attrs := attrs.(mode := attrs.mode.(perm := perm.value));
      }
    }

    /** Make sure the file reaches `off + len`; any other mode is not supported. */
    method Fallocate(mode: nat, off: nat, len: nat) returns (supported: bool)
      requires Valid() && View().IsFile()
      modifies this`contents, this`attrs
      ensures supported == (mode == 0)
      ensures Valid() && View() == ApplyData(old(View()), FileData.Fallocate(mode, off, len))
    {
      ghost var s0 := contents;
      var junk: seq<byte> := *;
      if mode != 0 {
        return false;
      }
      var newSize := off + len;
      if newSize > contents.len {
        contents := Append(contents, Zeros(newSize - contents.len), junk);
        attrs := attrs.(size := newSize);
      }
      assert contents == SliceStep(s0, FileData.Fallocate(mode, off, len), junk);
      StepIsApply(s0, FileData.Fallocate(mode, off, len), junk);
      return true;
    }
  }

  /** How the run of entries that fits depends on the next slot. */
  lemma FitFrom(es: seq<Dirent>, i: nat, cap: nat)
    ensures Fit(UsedFrom(es, i), cap) ==
            if i >= |es| then []
            else if !Used(es[i]) then Fit(UsedFrom(es, i + 1), cap)
            else if RecordLen(es[i]) > cap then []
            else [es[i]] + Fit(UsedFrom(es, i + 1), cap - RecordLen(es[i]))
  {
  }

  lemma NothingYet(before: seq<byte>)
    ensures EncodeAll([]) == [] && TotalLen([]) == 0 && Splice(before, 0, []) == before
  {
  }

  lemma SpliceFront(before: seq<byte>, src: seq<byte>, after: seq<byte>)
    requires |src| <= |before| && after == Splice(before, 0, src)
    ensures after[..|src|] == src && after[|src|..] == before[|src|..]
  {
  }

  /** What the kernel parses from a ReadDir answer is the longest run of used entries,
      from the offset on, that fits its buffer. */
  lemma ReadDirParses(es: seq<Dirent>, offset: nat, cap: nat, bytes: seq<byte>)
    requires Slots.Valid(es) && forall e :: e in es ==> Encodable(e)
    requires bytes == EncodeAll(Fit(UsedFrom(es, offset), cap))
    ensures Parse(bytes) == Fit(UsedFrom(es, offset), cap)
    ensures |bytes| <= cap && |bytes| % DIRENT_ALIGNMENT == 0
  {
    var us := UsedFrom(es, offset);
    UsedFromExact(es, offset);
    FitIsLongest(us, cap);
    hide Fit, UsedFrom, Slots.Valid, Encodable;
    assert forall e :: e in us ==> e in es;
    ParseInvertsEncodeAll(Fit(us, cap));
    EncodeAllLen(Fit(us, cap));
  }
}
