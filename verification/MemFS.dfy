/** The memFS object: a table of inodes with a free list, and one method per
    request, each running to completion under the file-system mutex. */
module MemFSObject {
  import opened Bytes
  import opened Dirents
  import opened Slots
  import opened FileData
  import opened Namespace
  import opened MemState
  import opened MemRuns
  import opened InodeObject
  import opened Xattrs
  import NamespaceOps

  class MemFS {
    var inodes: seq<Inode?>
    var freeInodes: seq<nat>

    /** The state as a value, and the inode objects it lives in. */
    ghost var fs: State
    ghost var Repr: set<Inode>

    /** Slot `i` of the table agrees with the abstract state. */
    ghost predicate Tied(i: nat)
      requires i < |inodes| && i < |fs.inodes|
      reads this, Repr
    {
      if inodes[i] == null then fs.inodes[i].None?
      else inodes[i] in Repr && inodes[i].contents.Valid() && fs.inodes[i] == Some(inodes[i].View())
    }

    /** The table agrees with the abstract state, except perhaps at `hole`. */
    ghost predicate TiedBut(hole: int)
      reads this, Repr
    {
      && |inodes| == |fs.inodes| && freeInodes == fs.free
      && (forall i :: 0 <= i < |inodes| && i != hole ==> Tied(i))
      && (forall i, j :: 0 <= i < j < |inodes| && inodes[i] != null ==> inodes[i] != inodes[j])
    }

    ghost predicate Valid()
      reads this, Repr
    {
      TiedBut(-1) && Good(fs, false)
    }

    constructor ()
      ensures Valid() && fresh(Repr) && fs == Init()
    {
      hide Good, Slots.Valid, Shape;
      var root := new Inode(Attrs(ROOT_MODE, 0, 0), []);
      inodes, freeInodes := [null, root], [];
      fs, Repr := Init(), {root};
      new;
      InitGoodWeak();
      assert Tied(0) && Tied(1);
    }

    /** Record in the abstract state what happened to one inode object. */
    ghost method Sync(id: nat)
      requires TiedBut(id) && id < |inodes| && inodes[id] != null
      requires inodes[id] in Repr && inodes[id].contents.Valid()
      modifies this`fs
      ensures TiedBut(-1) && fs == SetNode(old(fs), id, inodes[id].View())
    {
      fs := SetNode(fs, id, inodes[id].View());
      forall i | 0 <= i < |inodes| ensures Tied(i) {
        if i != id { assert old(Tied(i)); }
      }
    }

    /** `AddChild` on the directory `d`, held as `p`. */
    method AddChild(p: Inode, d: nat, id: nat, name: seq<byte>, dt: nat)
      requires TiedBut(-1) && IsDir(fs, d) && p == inodes[d] && dt != DT_UNKNOWN
      modifies this`fs, p`entries
      ensures TiedBut(-1) && fs == SetEntries(old(fs), d, Add(Entries(old(fs), d), id, name, dt))
    {
      assert Tied(d);
      p.AddChild(id, name, dt);
      StillTied(d);
      Sync(d);
    }

    /** `RemoveChild` on the directory `d`, held as `p`. */
    method RemoveChild(p: Inode, d: nat, name: seq<byte>)
      requires TiedBut(-1) && IsDir(fs, d) && p == inodes[d] && Find(Entries(fs, d), name).Some?
      modifies this`fs, p`entries
      ensures TiedBut(-1) && fs == SetEntries(old(fs), d, Remove(Entries(old(fs), d), name))
    {
      assert Tied(d);
      p.RemoveChild(name);
      StillTied(d);
      Sync(d);
    }

    method StoreNlink(n: Inode, id: nat, k: nat)
      requires TiedBut(-1) && Live(fs, id) && n == inodes[id]
      modifies this`fs, n`attrs
      ensures TiedBut(-1) && fs == SetNlink(old(fs), id, k)
    {
      assert Tied(id);
      n.attrs := n.attrs.(nlink := k);
      StillTied(id);
      Sync(id);
    }

    method StoreTarget(n: Inode, id: nat, target: seq<byte>)
      requires TiedBut(-1) && Live(fs, id) && n == inodes[id]
      modifies this`fs, n`target
      ensures TiedBut(-1) && fs == SetNode(old(fs), id, old(fs).inodes[id].value.(target := target))
    {
      assert Tied(id);
      n.target := target;
      StillTied(id);
      Sync(id);
    }

    /** Changing one inode object leaves the others tied. */
    twostate lemma StillTied(id: nat)
      requires old(TiedBut(-1)) && id < |inodes| && inodes[id] != null
      requires inodes == old(inodes) && freeInodes == old(freeInodes) && fs == old(fs) && Repr == old(Repr)
      requires forall n :: n in Repr && n != inodes[id] ==> unchanged(n)
      ensures TiedBut(id)
    {
      forall i | 0 <= i < |inodes| && i != id ensures Tied(i) {
        assert old(Tied(i));
      }
    }

    /** The inode with the given ID; callers name only live ones. */
    method GetInodeOrDie(id: nat) returns (n: Inode)
      requires TiedBut(-1) && Live(fs, id)
      ensures id < |inodes| && n == inodes[id] && n in Repr && n.contents.Valid() && fs.inodes[id] == Some(n.View())
    {
      assert Tied(id);
      n := inodes[id];
    }

    /** Give a new inode an ID that is not in use: the last free one, else the next. */
    method AllocateInode(attrs: Attrs, name: seq<byte>) returns (id: nat, n: Inode)
      requires TiedBut(-1) && Shape(fs)
      modifies this
      ensures fresh(n) && n.contents.Valid() && n.View() == Node(name, attrs, [], [], [], map[])
      ensures (fs, id) == Alloc(old(fs), n.View())
      ensures TiedBut(-1) && Repr == old(Repr) + {n} && id < |inodes| && inodes[id] == n
      ensures forall i :: 0 <= i < |old(inodes)| && i != id ==> i < |inodes| && inodes[i] == old(inodes)[i]
    {
      n := new Inode(attrs, name);
      var numFree := |freeInodes|;
      ghost var before := fs;
      ghost var was := inodes;
      fs := Alloc(fs, n.View()).0;
      Repr := Repr + {n};
      if numFree != 0 {
        id := freeInodes[numFree - 1];
        freeInodes := freeInodes[..numFree - 1];
        inodes := inodes[id := n];
      } else {
        id := |inodes|;
        inodes := inodes + [n];
      }
      assert forall i :: 0 <= i < |was| && i != id ==> inodes[i] == was[i] && fs.inodes[i] == before.inodes[i];
      forall i | 0 <= i < |inodes| ensures Tied(i) {
        if i != id { assert old(Tied(i)); }
      }
    }

    /** Return an ID to the free list. */
    method DeallocateInode(id: nat)
      requires TiedBut(-1) && Live(fs, id)
      modifies this
      ensures TiedBut(-1) && fs == Dealloc(old(fs), id)
    {
      freeInodes := freeInodes + [id];
      inodes := inodes[id := null];
      ghost var before := fs;
      fs := Dealloc(fs, id);
      forall i | 0 <= i < |inodes| ensures Tied(i) {
        if i != id { assert old(Tied(i)); }
      }
    }

    method LookUpInode(parent: nat, name: seq<byte>) returns (r: Reply)
      requires Valid() && IsDir(fs, parent) && name != []
      ensures match LookUp(Abs(fs), parent, name)
              case None => r == Error(ENOENT)
              case Some(b) => Live(fs, b.inode) && r == Entry(b.inode, fs.inodes[b.inode].value.attrs)
    {
      hide Good, Shape, Abs, LookUp, Slots.Valid;
      LookUpLemma(fs, parent, name);
      var p := GetInodeOrDie(parent);
      var childID, typ, ok := p.LookUpChild(name);
      if !ok {
        return Error(ENOENT);
      }
      var child := GetInodeOrDie(childID);
      return Entry(childID, child.attrs);
    }

    /** The common part of the four requests that create a child. */
    method CreateNode(parent: nat, name: seq<byte>, mode: Mode, target: seq<byte>, dt: nat) returns (r: Reply)
      requires Valid() && IsDir(fs, parent) && name != [] && dt != DT_UNKNOWN
      requires NewNode(name, mode, target).Ok()
      requires (mode.dir <==> dt == DT_DIRECTORY) && (mode.symlink <==> dt == DT_LINK)
      modifies this, Repr
      ensures Valid() && fresh(Repr - old(Repr))
      ensures (fs, r) == CreateChild(old(fs), parent, name, NewNode(name, mode, target), dt)
    {
      hide Good, Shape, FreeOk, Alloc, TiedBut, Slots.Valid, Add, Find;
      var p := GetInodeOrDie(parent);
      var _, _, taken := p.LookUpChild(name);
      if taken {
        return Error(EEXIST);
      }
      ghost var s0 := fs;
      CreateLemma(s0, parent, name, mode, target, dt);
      var childID, child := AllocateInode(Attrs(mode, 1, 0), name);
      if dt == DT_LINK {
        StoreTarget(child, childID, target);
      }
      AddChild(p, parent, childID, name, dt);
      return Entry(childID, child.attrs);
    }

    method MkDir(parent: nat, name: seq<byte>, mode: Mode) returns (r: Reply)
      requires Valid() && Legal(fs, Op.MkDir(parent, name, mode))
      modifies this, Repr
      ensures Valid() && fresh(Repr - old(Repr))
      ensures (fs, r) == Step(old(fs), Op.MkDir(parent, name, mode))
    {
      EmptyDir();
      hide Good, Shape, TiedBut, Slots.Valid, CreateChild;
      r := CreateNode(parent, name, mode, [], DT_DIRECTORY);
    }

    /** CreateFile and MkNode. */
    method CreateFile(parent: nat, name: seq<byte>, mode: Mode) returns (r: Reply)
      requires Valid() && Legal(fs, Op.CreateFile(parent, name, mode))
      modifies this, Repr
      ensures Valid() && fresh(Repr - old(Repr))
      ensures (fs, r) == Step(old(fs), Op.CreateFile(parent, name, mode))
    {
      EmptyDir();
      hide Good, Shape, TiedBut, Slots.Valid, CreateChild;
      r := CreateNode(parent, name, mode, [], DT_FILE);
    }

    method CreateSymlink(parent: nat, name: seq<byte>, target: seq<byte>) returns (r: Reply)
      requires Valid() && Legal(fs, Op.CreateSymlink(parent, name, target))
      modifies this, Repr
      ensures Valid() && fresh(Repr - old(Repr))
      ensures (fs, r) == Step(old(fs), Op.CreateSymlink(parent, name, target))
    {
      EmptyDir();
      hide Good, Shape, TiedBut, Slots.Valid, CreateChild;
      r := CreateNode(parent, name, SYMLINK_MODE, target, DT_LINK);
    }

    method CreateLink(parent: nat, name: seq<byte>, inode: nat) returns (r: Reply)
      requires Valid() && Legal(fs, Op.CreateLink(parent, name, inode))
      modifies this, Repr
      ensures Valid() && Repr == old(Repr)
      ensures (fs, r) == Step(old(fs), Op.CreateLink(parent, name, inode))
    {
      hide Good, Shape, TiedBut, Slots.Valid, Add, Find;
      LinkGood(fs, false, parent, name, inode);
      var p := GetInodeOrDie(parent);
      var _, _, taken := p.LookUpChild(name);
      if taken {
        return Error(EEXIST);
      }
      var t := GetInodeOrDie(inode);
      StoreNlink(t, inode, (t.attrs.nlink + 1) % LINK_WRAP);
      AddChild(p, parent, inode, name, DT_FILE);
      var again := GetInodeOrDie(inode);
      return Entry(inode, again.attrs);
    }

    /** Delete the name a rename is to take, unless it leads to a directory that is not empty,
        going by a 4096-byte read. */
    method ClearName(np: Inode, nd: nat, nn: seq<byte>) returns (free: bool)
      requires TiedBut(-1) && IsDir(fs, nd) && np == inodes[nd]
      requires var e := Find(Entries(fs, nd), nn); e.Some? ==> Live(fs, Entries(fs, nd)[e.value].inode)
      modifies this`fs, np`entries
      ensures TiedBut(-1)
      ensures var e := Find(Entries(old(fs), nd), nn);
              && free == !(e.Some? && IsDir(old(fs), Entries(old(fs), nd)[e.value].inode)
                           && !LooksEmpty(Entries(old(fs), Entries(old(fs), nd)[e.value].inode)))
              && fs == if free && e.Some? then SetEntries(old(fs), nd, Remove(Entries(old(fs), nd), nn)) else old(fs)
    {
      hide Remove, Find, Fit, UsedFrom;
      var p := GetInodeOrDie(nd);
      var existingID, _, found := np.LookUpChild(nn);
      if found {
        var existing := GetInodeOrDie(existingID);
        if existing.attrs.mode.dir {
          var buf := new byte[RENAME_BUFFER];
          var n := existing.ReadDir(buf, 0);
          ReadsNothing(Fit(UsedFrom(existing.entries, 0), RENAME_BUFFER));
          if n > 0 {
            return false;
          }
        }
        RemoveChild(np, nd, nn);
      }
      return true;
    }

    method Rename(oldParent: nat, oldName: seq<byte>, newParent: nat, newName: seq<byte>) returns (r: Reply)
      requires Valid() && Legal(fs, Op.Rename(oldParent, oldName, newParent, newName))
      modifies this, Repr
      ensures Valid() && Repr == old(Repr)
      ensures (fs, r) == Step(old(fs), Op.Rename(oldParent, oldName, newParent, newName))
    {
      hide Good, Shape, TiedBut, Slots.Valid, Add, Remove, Find, Abs, Reaches, Fit, UsedFrom;
      RenameLemma(fs, oldParent, oldName, newParent, newName);
      var op := GetInodeOrDie(oldParent);
      var childID, childType, ok := op.LookUpChild(oldName);
      if !ok {
        return Error(ENOENT);
      }
      var np := GetInodeOrDie(newParent);
      var free := ClearName(np, newParent, newName);
      if !free {
        return Error(ENOTEMPTY);
      }
      AddChild(np, newParent, childID, newName, childType);
      RemoveChild(op, oldParent, oldName);
      return Success;
    }

    method RemoveChildOf(parent: nat, name: seq<byte>, rmdir: bool) returns (r: Reply)
      requires Valid() && IsDir(fs, parent) && name != []
      modifies this, Repr
      ensures Valid() && Repr == old(Repr)
      ensures (fs, r) == RemoveName(old(fs), parent, name, rmdir)
    {
      hide Good, Shape, TiedBut, Slots.Valid, Remove, Find, Abs, UsedFrom;
      RemoveLemma(fs, parent, name, rmdir);
      var p := GetInodeOrDie(parent);
      var childID, _, ok := p.LookUpChild(name);
      if !ok {
        return Error(ENOENT);
      }
      var child := GetInodeOrDie(childID);
      if rmdir {
        var n := child.Len();
        if n != 0 {
          return Error(ENOTEMPTY);
        }
      }
      RemoveChild(p, parent, name);
      StoreNlink(child, childID, NamespaceOps.Decrement(child.attrs.nlink));
      return Success;
    }

    method RmDir(parent: nat, name: seq<byte>) returns (r: Reply)
      requires Valid() && Legal(fs, Op.RmDir(parent, name))
      modifies this, Repr
      ensures Valid() && Repr == old(Repr)
      ensures (fs, r) == Step(old(fs), Op.RmDir(parent, name))
    {
      hide Good, TiedBut, RemoveName;
      r := RemoveChildOf(parent, name, true);
    }

    method Unlink(parent: nat, name: seq<byte>) returns (r: Reply)
      requires Valid() && Legal(fs, Op.Unlink(parent, name))
      modifies this, Repr
      ensures Valid() && Repr == old(Repr)
      ensures (fs, r) == Step(old(fs), Op.Unlink(parent, name))
    {
      hide Good, TiedBut, RemoveName;
      r := RemoveChildOf(parent, name, false);
    }

    method ReadDir(inode: nat, dst: array<byte>, offset: nat) returns (bytesRead: nat)
      requires Valid() && IsDir(fs, inode)
      modifies dst
      ensures bytesRead == TotalLen(Fit(UsedFrom(Entries(fs, inode), offset), dst.Length)) <= dst.Length
      ensures dst[..bytesRead] == EncodeAll(Fit(UsedFrom(Entries(fs, inode), offset), dst.Length))
      ensures dst[bytesRead..] == old(dst[bytesRead..])
    {
      hide Good;
      var n := GetInodeOrDie(inode);
      bytesRead := n.ReadDir(dst, offset);
    }

    /** A read past the end is a short read, not an error. */
    method ReadFile(inode: nat, dst: array<byte>, offset: nat) returns (bytesRead: nat)
      requires Valid() && IsFile(fs, inode)
      modifies dst
      ensures var r := ReadBytes(fs.inodes[inode].value.contents, offset, dst.Length);
              bytesRead == |r| && dst[..] == r + old(dst[|r|..])
    {
      hide Good;
      var n := GetInodeOrDie(inode);
      var eof;
      bytesRead, eof := n.ReadAt(dst, offset);
    }

    method WriteFile(inode: nat, off: nat, data: seq<byte>)
      requires Valid() && Legal(fs, Op.WriteFile(inode, off, data))
      modifies this`fs, Repr
      ensures Valid() && (fs, Success) == Step(old(fs), Op.WriteFile(inode, off, data))
    {
      hide Good, Shape, Slots.Valid, Apply;
      NodeOpLemma(fs, Op.WriteFile(inode, off, data));
      var n := GetInodeOrDie(inode);
      n.WriteAt(data, off);
      StillTied(inode);
      Sync(inode);
    }

    /** Truncating to a non-zero size without a handle is refused, but applied all the same;
        the answer carries the attributes as they are then. */
    method SetInodeAttributes(inode: nat, size: Option<nat>, perm: Option<nat>, hasHandle: bool)
      returns (r: Reply, attributes: Attrs)
      requires Valid() && Legal(fs, Op.SetAttributes(inode, size, perm, hasHandle))
      modifies this`fs, Repr
      ensures Valid() && (fs, r) == Step(old(fs), Op.SetAttributes(inode, size, perm, hasHandle))
      ensures Live(fs, inode) && attributes == fs.inodes[inode].value.attrs
    {
      hide Good, Shape, Slots.Valid, Apply;
      NodeOpLemma(fs, Op.SetAttributes(inode, size, perm, hasHandle));
      r := Success;
      if size.Some? && !hasHandle && size.value != 0 {
        r := Error(EBADF);
      }
      var n := GetInodeOrDie(inode);
      n.SetAttributes(size, perm);
      StillTied(inode);
      Sync(inode);
      attributes := n.attrs;
    }

    /** The answer is success even for a mode the inode does not support. */
    method Fallocate(inode: nat, fmode: nat, off: nat, len: nat)
      requires Valid() && Legal(fs, Op.Fallocate(inode, fmode, off, len))
      modifies this`fs, Repr
      ensures Valid() && (fs, Success) == Step(old(fs), Op.Fallocate(inode, fmode, off, len))
    {
      hide Good, Shape, Slots.Valid, Apply;
      NodeOpLemma(fs, Op.Fallocate(inode, fmode, off, len));
      var n := GetInodeOrDie(inode);
      var _ := n.Fallocate(fmode, off, len);
      StillTied(inode);
      Sync(inode);
    }

    method SetXattr(inode: nat, attr: seq<byte>, value: seq<byte>, flags: nat) returns (r: Reply)
      requires Valid() && Legal(fs, Op.SetXattr(inode, attr, value, flags))
      modifies this`fs, Repr
      ensures Valid() && (fs, r) == Step(old(fs), Op.SetXattr(inode, attr, value, flags))
    {
      hide Good, Shape, Slots.Valid;
      NodeOpLemma(fs, Op.SetXattr(inode, attr, value, flags));
      var n := GetInodeOrDie(inode);
      var present := attr in n.xattrs;
      if flags == XATTR_CREATE && present {
        return Error(EEXIST);
      } else if flags == XATTR_REPLACE && !present {
        return Error(ENOATTR);
      }
      n.xattrs := n.xattrs[attr := value];
      StillTied(inode);
      Sync(inode);
      return Success;
    }

    method RemoveXattr(inode: nat, attr: seq<byte>) returns (r: Reply)
      requires Valid() && Legal(fs, Op.RemoveXattr(inode, attr))
      modifies this`fs, Repr
      ensures Valid() && (fs, r) == Step(old(fs), Op.RemoveXattr(inode, attr))
    {
      hide Good, Shape, Slots.Valid;
      NodeOpLemma(fs, Op.RemoveXattr(inode, attr));
      var n := GetInodeOrDie(inode);
      if attr !in n.xattrs {
        return Error(ENOATTR);
      }
      n.xattrs := n.xattrs - {attr};
      StillTied(inode);
      Sync(inode);
      return Success;
    }

    /** The size of the value, and its bytes if the buffer holds them; ERANGE exactly when
        a non-empty buffer is too small. */
    method GetXattr(inode: nat, attr: seq<byte>, dst: array<byte>) returns (bytesRead: nat, r: Reply)
      requires Valid() && Live(fs, inode)
      modifies dst
      ensures var xs := fs.inodes[inode].value.xattrs;
              if attr !in xs then r == Error(ENOATTR) && dst[..] == old(dst[..])
              else && bytesRead == |xs[attr]|
                   && (r == Error(ERANGE) <==> 0 < dst.Length < |xs[attr]|)
                   && (r == Success <==> dst.Length == 0 || |xs[attr]| <= dst.Length)
                   && (|xs[attr]| <= dst.Length ==> dst[..] == xs[attr] + old(dst[|xs[attr]|..]))
                   && (|xs[attr]| > dst.Length ==> dst[..] == old(dst[..]))
    {
      hide Good;
      var n := GetInodeOrDie(inode);
      bytesRead := 0;
      if attr !in n.xattrs {
        return bytesRead, Error(ENOATTR);
      }
      var value := n.xattrs[attr];
      bytesRead := |value|;
      if dst.Length >= |value| {
        var k := CopyAll(dst, 0, value);
      } else if dst.Length != 0 {
        return bytesRead, Error(ERANGE);
      }
      return bytesRead, Success;
    }

    /** List the attribute names in the order the map yields them. */
    method ListXattr(inode: nat, dst: array<byte>) returns (bytesRead: nat, r: Reply, ghost order: seq<seq<byte>>)
      requires Valid() && Live(fs, inode)
      modifies dst
      ensures var keys := fs.inodes[inode].value.xattrs.Keys;
              && r == (if 0 < dst.Length < Need(keys) then Error(ERANGE) else Success)
              && (r == Success ==> bytesRead == Need(keys) && Enumerates(order, keys))
              && (r != Success ==> bytesRead <= dst.Length < Need(keys))
              && (r == Success && dst.Length != 0 && old(dst[..]) == Zeros(dst.Length) ==>
                  dst[..] == Listing(order) + Zeros(dst.Length - bytesRead))
    {
      hide Good, Listing, Need, Zeros, Splice;
      var n := GetInodeOrDie(inode);
      bytesRead, order := 0, [];
      var left := n.xattrs.Keys;
      var pos := 0;
      ghost var zeroed := dst[..] == Zeros(dst.Length);
      EmptyListing();
      while left != {}
        invariant left <= n.xattrs.Keys
        invariant bytesRead + Need(left) == Need(n.xattrs.Keys)
        invariant Enumerates(order, n.xattrs.Keys - left)
        invariant dst.Length != 0 ==> pos == bytesRead <= dst.Length
        invariant dst.Length == 0 ==> pos == 0
        invariant bytesRead == |Listing(order)|
        invariant dst.Length != 0 && zeroed ==> dst[..] == Listing(order) + Zeros(dst.Length - bytesRead)
        decreases left
      {
        var key :| key in left;
        var keyLen := |key| + 1;
        NeedAnyOrder(left, key);
        ListingSnoc(order, key);
        if dst.Length - pos >= keyLen {
          if zeroed { ListingExtends(order, key, dst.Length - bytesRead); }
          var k := CopyAll(dst, pos, key);
          pos := pos + keyLen;
        } else if dst.Length != 0 {
          return bytesRead, Error(ERANGE), order;
        }
        EnumeratesSnoc(order, n.xattrs.Keys - left, key);
        assert n.xattrs.Keys - (left - {key}) == (n.xattrs.Keys - left) + {key};
        left := left - {key};
        order := order + [key];
        bytesRead := bytesRead + keyLen;
      }
      assert n.xattrs.Keys - {} == n.xattrs.Keys;
      return bytesRead, Success, order;
    }
  }

  /** What a lookup finds in the slots is what is bound, and live. */
  lemma LookUpLemma(s: State, parent: nat, name: seq<byte>)
    requires Good(s, false) && IsDir(s, parent) && name != []
    ensures Shape(s)
    ensures var i := Find(Entries(s, parent), name);
            match LookUp(Abs(s), parent, name)
            case None => i.None?
            case Some(b) => i.Some? && Entries(s, parent)[i.value].inode == b.inode && Live(s, b.inode)
  {
    EntriesAbs(s, parent, name);
    hide Abs, LookUp, Slots.Valid;
    if Find(Entries(s, parent), name).Some? {
      UsedEntryOk(s, false, parent, Find(Entries(s, parent), name).value);
    }
  }

  /** Creating a child, step by step: allocate, fill in the target, add the entry. */
  lemma CreateLemma(s: State, parent: nat, name: seq<byte>, mode: Mode, target: seq<byte>, dt: nat)
    requires Good(s, false) && IsDir(s, parent) && name != [] && dt != DT_UNKNOWN
    requires Find(Entries(s, parent), name).None? && NewNode(name, mode, target).Ok()
    requires (mode.dir <==> dt == DT_DIRECTORY) && (mode.symlink <==> dt == DT_LINK)
    ensures Shape(s) && FreeOk(s)
    ensures var n := NewNode(name, mode, target);
            var (s1, id) := Alloc(s, n.(target := []));
            && Live(s1, id) && id != parent && s1.inodes[id].value == n.(target := [])
            && (var s2 := if dt == DT_LINK then SetNode(s1, id, n) else s1;
                && IsDir(s2, parent) && Entries(s2, parent) == Entries(s, parent)
                && (var s3 := SetEntries(s2, parent, Add(Entries(s2, parent), id, name, dt));
                    Good(s3, false) && CreateChild(s, parent, name, n, dt) == (s3, Entry(id, n.attrs))))
  {
    hide FreeOk, Alloc, Slots.Valid, Add;
    var n := NewNode(name, mode, target);
    CreateGood(s, false, parent, name, n, dt);
    AllocWithTarget(s, n.(target := []), target);
    AllocKeeps(s, n, parent);
    AllocKeeps(s, n.(target := []), parent);
  }

  lemma ReadsNothing(ds: seq<Dirent>)
    ensures TotalLen(ds) == 0 <==> ds == []
  {
  }

  /** Rename, step by step: what each call on the way relies on. */
  lemma RenameLemma(s: State, od: nat, on: seq<byte>, nd: nat, nn: seq<byte>)
    requires Good(s, false) && Legal(s, Op.Rename(od, on, nd, nn))
    ensures Good(MemState.Rename(s, od, on, nd, nn).0, false)
    ensures var source := Find(Entries(s, od), on); source.Some? ==> Used(Entries(s, od)[source.value])
    ensures var e := Find(Entries(s, nd), nn); e.Some? ==> Live(s, Entries(s, nd)[e.value].inode)
    ensures MemState.Rename(s, od, on, nd, nn).1.Success? ==>
              var c := Entries(s, od)[Find(Entries(s, od), on).value];
              var s1 := if Find(Entries(s, nd), nn).Some? then SetEntries(s, nd, Remove(Entries(s, nd), nn)) else s;
              var s2 := SetEntries(s1, nd, Add(Entries(s1, nd), c.inode, nn, c.typ));
              Find(Entries(s2, od), on).Some?
  {
    hide Good, Shape, Slots.Valid, Add, Remove, Find, Abs, Reaches, LooksEmpty;
    GoodParts(s);
    RenameGood(s, false, Op.Rename(od, on, nd, nn));
    WeakenLaw(MemState.Rename(s, od, on, nd, nn).0, false, false);
    EntriesAbs(s, od, on);
    EntriesAbs(s, nd, nn);
    var e := Find(Entries(s, nd), nn);
    if e.Some? { UsedEntryOk(s, false, nd, e.value); }
    if MemState.Rename(s, od, on, nd, nn).1.Success? {
      OldNameStillThere(s, od, on, nd, nn);
    }
  }

  lemma GoodParts(s: State)
    requires Good(s, false)
    ensures Shape(s) && WellFormed(Abs(s))
  {
  }

  lemma OldNameStillThere(s: State, od: nat, on: seq<byte>, nd: nat, nn: seq<byte>)
    requires Shape(s) && IsDir(s, od) && IsDir(s, nd) && on != [] && nn != [] && (od, on) != (nd, nn)
    requires MemState.Rename(s, od, on, nd, nn).1.Success?
    ensures Find(Entries(s, od), on).Some?
    ensures var c := Entries(s, od)[Find(Entries(s, od), on).value];
            var s1 := if Find(Entries(s, nd), nn).Some? then SetEntries(s, nd, Remove(Entries(s, nd), nn)) else s;
            var s2 := SetEntries(s1, nd, Add(Entries(s1, nd), c.inode, nn, c.typ));
            Find(Entries(s2, od), on).Some?
  {
    hide Shape, Slots.Valid, Add, Remove, Find, Abs, LooksEmpty;
    EntriesAbs(s, od, on);
    EntriesAbs(s, nd, nn);
    var c := Entries(s, od)[Find(Entries(s, od), on).value];
    var s1 := s;
    UnbindLookUp(Abs(s), nd, nn);
    if Find(Entries(s, nd), nn).Some? {
      UnbindEntries(s, nd, nn);
      s1 := SetEntries(s, nd, Remove(Entries(s, nd), nn));
    }
    BindEntries(s1, nd, nn, c.inode, c.typ);
    var s2 := SetEntries(s1, nd, Add(Entries(s1, nd), c.inode, nn, c.typ));
    EntriesAbs(s1, nd, nn);
    BindLookUp(Abs(s1), nd, nn, Binding(c.inode, c.typ));
    EntriesAbs(s2, od, on);
  }

  lemma RemoveLemma(s: State, parent: nat, name: seq<byte>, rmdir: bool)
    requires Good(s, false) && IsDir(s, parent) && name != []
    ensures Good(RemoveName(s, parent, name, rmdir).0, false)
    ensures var i := Find(Entries(s, parent), name); i.Some? ==> Live(s, Entries(s, parent)[i.value].inode)
  {
    hide Good, Shape, Slots.Valid, Remove, Find, Abs, RemoveName;
    GoodParts(s);
    RemoveGood(s, false, parent, name, rmdir);
    EntriesAbs(s, parent, name);
    var i := Find(Entries(s, parent), name);
    if i.Some? { UsedEntryOk(s, false, parent, i.value); }
  }

  /** A request on one inode: what it relies on and what it leaves behind. */
  lemma NodeOpLemma(s: State, op: Op)
    requires Good(s, false) && IsNodeOp(op) && Legal(s, op)
    ensures Good(Step(s, op).0, false) && Shape(s) && Live(s, op.inode) && s.inodes[op.inode].value.Ok()
    ensures NodeReply(s.inodes[op.inode].value, op).Error? && !op.SetAttributes? ==> Step(s, op).0 == s
  {
    hide Good, Shape, Legal, Step, NodeReply;
    GoodParts(s);
    NodeGood(s, false, op);
    StepOfNodeOp(s, op);
    NodeFailure(s, op);
  }

  lemma NodeFailure(s: State, op: Op)
    requires Shape(s) && IsNodeOp(op) && Legal(s, op)
    ensures Live(s, op.inode)
    ensures NodeReply(s.inodes[op.inode].value, op).Error? && !op.SetAttributes? ==> Step(s, op).0 == s
  {
    hide Shape;
    FailureChangesNothing(s, op);
  }

  lemma EmptyListing()
    ensures Listing([]) == [] && Need({}) == 0
    ensures forall n: nat :: [] + Zeros(n - 0) == Zeros(n)
  {
  }

  lemma ListingSnoc(order: seq<seq<byte>>, key: seq<byte>)
    ensures |Listing(order + [key])| == |Listing(order)| + |key| + 1
  {
    assert (order + [key])[..|order|] == order;
  }

  lemma EnumeratesSnoc(order: seq<seq<byte>>, keys: set<seq<byte>>, key: seq<byte>)
    requires Enumerates(order, keys) && key !in keys
    ensures Enumerates(order + [key], keys + {key})
  {
    forall i, j | 0 <= i < j < |order + [key]| ensures (order + [key])[i] != (order + [key])[j] {
      assert order[i] in order;
    }
  }

  /** Filling in the target after allocation is the same as allocating with it. */
  lemma AllocWithTarget(s: State, n: Node, target: seq<byte>)
    requires FreeOk(s)
    ensures var (s1, id) := Alloc(s, n);
            id < |s1.inodes| && (SetNode(s1, id, n.(target := target)), id) == Alloc(s, n.(target := target))
  {
    var (s1, id) := Alloc(s, n);
    var linked := Some(n.(target := target));
    assert s.free != [] ==> s.inodes[id := Some(n)][id := linked] == s.inodes[id := linked];
    assert s.free == [] ==> (s.inodes + [Some(n)])[id := linked] == s.inodes + [linked];
  }

  lemma AllocKeeps(s: State, n: Node, d: nat)
    requires Shape(s) && n.Ok() && IsDir(s, d)
    ensures FreeOk(s) && IsDir(Alloc(s, n).0, d) && Entries(Alloc(s, n).0, d) == Entries(s, d)
    ensures Live(Alloc(s, n).0, Alloc(s, n).1) && Alloc(s, n).1 != d
    ensures Alloc(s, n).0.inodes[Alloc(s, n).1] == Some(n)
  {
    AllocShape(s, n);
    hide Alloc, Shape;
  }
}
