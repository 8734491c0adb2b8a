/** The slot array of a directory inode, and the finite map from names to
    children that it represents. */
module Slots {
  import opened Bytes
  import opened Dirents

  /** What a name is bound to: the child's inode and its entry type. */
  datatype Binding = Binding(inode: nat, typ: nat)

  predicate Used(e: Dirent) { e.typ != DT_UNKNOWN }

  /** The contents of slot `i` while it is unused. */
  function FreeSlot(i: nat): Dirent { Dirent(i + 1, 0, [], DT_UNKNOWN) }

  ghost predicate SlotOk(e: Dirent, i: nat)
  {
    e.offset == i + 1 && (if Used(e) then e.name != [] else e == FreeSlot(i))
  }

  /** The invariant of a directory's slot array. */
  ghost predicate Valid(es: seq<Dirent>)
  {
    && (forall i :: 0 <= i < |es| ==> SlotOk(es[i], i))
    && (forall i, j :: 0 <= i < j < |es| && Used(es[i]) && Used(es[j]) ==> es[i].name != es[j].name)
  }

  /** The map a slot array stands for. */
  ghost function Dir(es: seq<Dirent>): map<seq<byte>, Binding>
    requires Valid(es)
  {
    map i | 0 <= i < |es| && Used(es[i]) :: es[i].name := Binding(es[i].inode, es[i].typ)
  }

  /** The first slot from `k` on that carries `name`; the entry type is not looked at. */
  function Find(es: seq<Dirent>, name: seq<byte>, k: nat := 0): (r: Option<nat>)
    requires k <= |es|
    ensures r.Some? ==> k <= r.value < |es| && es[r.value].name == name
    decreases |es| - k
  {
    if k == |es| then None
    else if es[k].name == name then Some(k)
    else Find(es, name, k + 1)
  }

  lemma {:induction false} FindNone(es: seq<Dirent>, name: seq<byte>, k: nat := 0)
    requires k <= |es| && Find(es, name, k).None?
    ensures forall i :: k <= i < |es| ==> es[i].name != name
    decreases |es| - k
  {
    if k < |es| { FindNone(es, name, k + 1); }
  }

  /** Looking a name up in the slots agrees with the map, for any non-empty name. */
  lemma FindIsLookup(es: seq<Dirent>, name: seq<byte>)
    requires Valid(es) && name != []
    ensures Find(es, name).Some? <==> name in Dir(es)
    ensures Find(es, name).Some? ==>
              var e := es[Find(es, name).value]; Used(e) && Dir(es)[name] == Binding(e.inode, e.typ)
  {
    if Find(es, name).Some? {
      assert SlotOk(es[Find(es, name).value], Find(es, name).value);
      assert Used(es[Find(es, name).value]);
    } else {
      FindNone(es, name);
    }
  }

  /** The first unused slot from `k` on, or the end of the array. */
  function Gap(es: seq<Dirent>, k: nat := 0): (g: nat)
    requires k <= |es|
    ensures k <= g <= |es|
    ensures g < |es| ==> !Used(es[g])
    ensures forall i :: k <= i < g ==> Used(es[i])
    decreases |es| - k
  {
    if k == |es| || !Used(es[k]) then k else Gap(es, k + 1)
  }

  /** Put `e` in slot `g`, at most one past the end. */
  function Put(es: seq<Dirent>, g: nat, e: Dirent): seq<Dirent>
    requires g <= |es|
  {
    if g < |es| then es[g := e] else es + [e]
  }

  /** The slots after a child has been added in the first gap. */
  function Add(es: seq<Dirent>, id: nat, name: seq<byte>, dt: nat): seq<Dirent>
  {
    var g := Gap(es);
    Put(es, g, Dirent(g + 1, id, name, dt))
  }

  /** The slots after `name`'s entry, if there is one, has been marked unused. */
  function Remove(es: seq<Dirent>, name: seq<byte>): seq<Dirent>
  {
    var i := Find(es, name);
    if i.Some? then es[i.value := FreeSlot(i.value)] else es
  }

  /** Entries of `es` that stay used keep their slot, and the array does not shrink. */
  ghost predicate StaysInPlace(es: seq<Dirent>, es': seq<Dirent>, i: nat)
  {
    i < |es| ==> i < |es'| && es'[i] == es[i]
  }

  lemma DirHas(es: seq<Dirent>, i: nat)
    requires Valid(es) && i < |es| && Used(es[i])
    ensures es[i].name in Dir(es) && Dir(es)[es[i].name] == Binding(es[i].inode, es[i].typ)
  {
  }

  lemma DirSlot(es: seq<Dirent>, n: seq<byte>) returns (i: nat)
    requires Valid(es) && n in Dir(es)
    ensures i < |es| && Used(es[i]) && es[i].name == n
    ensures Dir(es)[n] == Binding(es[i].inode, es[i].typ)
  {
    i :| 0 <= i < |es| && Used(es[i]) && es[i].name == n;
    DirHas(es, i);
  }

  lemma AddStays(es: seq<Dirent>, id: nat, name: seq<byte>, dt: nat)
    requires Valid(es) && name != [] && name !in Dir(es) && dt != DT_UNKNOWN
    ensures Valid(Add(es, id, name, dt))
    ensures forall i :: 0 <= i < |es| && Used(es[i]) ==> StaysInPlace(es, Add(es, id, name, dt), i)
    ensures |es| <= |Add(es, id, name, dt)|
  {
    var g := Gap(es);
    var es' := Add(es, id, name, dt);
    forall i | 0 <= i < |es| && Used(es[i]) ensures es[i].name != name { DirHas(es, i); }
    assert forall i :: 0 <= i < |es'| && i != g ==> es'[i] == es[i];
    assert forall i :: 0 <= i < |es'| && i != g ==> SlotOk(es[i], i);
  }

  /** Adding a child binds its name and nothing else. */
  lemma AddBinds(es: seq<Dirent>, id: nat, name: seq<byte>, dt: nat)
    requires Valid(es) && name != [] && name !in Dir(es) && dt != DT_UNKNOWN
    ensures Valid(Add(es, id, name, dt))
    ensures Dir(Add(es, id, name, dt)) == Dir(es)[name := Binding(id, dt)]
  {
    hide Dir;
    var g := Gap(es);
    var es' := Add(es, id, name, dt);
    var m := Dir(es)[name := Binding(id, dt)];
    AddStays(es, id, name, dt);
    forall n | n in Dir(es') ensures n in m && Dir(es')[n] == m[n] {
      var i := DirSlot(es', n);
      if i != g { DirHas(es, i); }
    }
    forall n | n in m ensures n in Dir(es') {
      if n == name {
        DirHas(es', g);
      } else {
        var i := DirSlot(es, n);
        DirHas(es', i);
      }
    }
  }

  lemma RemoveStays(es: seq<Dirent>, name: seq<byte>)
    requires Valid(es) && name in Dir(es)
    ensures name != [] && Find(es, name).Some? && Used(es[Find(es, name).value])
    ensures Valid(Remove(es, name))
    ensures forall i :: 0 <= i < |es| && es[i].name != name ==> StaysInPlace(es, Remove(es, name), i)
    ensures |es| == |Remove(es, name)|
  {
    var i := DirSlot(es, name);
    assert SlotOk(es[i], i);
    FindIsLookup(es, name);
    var es' := Remove(es, name);
    assert forall j :: 0 <= j < |es| && j != Find(es, name).value ==> es'[j] == es[j] && SlotOk(es[j], j);
  }

  /** Removing a child unbinds its name and nothing else. */
  lemma RemoveUnbinds(es: seq<Dirent>, name: seq<byte>)
    requires Valid(es) && name in Dir(es)
    ensures Find(es, name).Some? && Valid(Remove(es, name))
    ensures Dir(Remove(es, name)) == Dir(es) - {name}
  {
    hide Dir, Find;
    RemoveStays(es, name);
    var es' := Remove(es, name);
    forall n | n in Dir(es') ensures n in Dir(es) - {name} && Dir(es')[n] == Dir(es)[n] {
      var i := DirSlot(es', n);
      DirHas(es, i);
    }
    forall n | n in Dir(es) - {name} ensures n in Dir(es') {
      var i := DirSlot(es, n);
      assert es'[i] == es[i];
      DirHas(es', i);
    }
  }

  /** The used entries from slot `k` on, in slot order. */
  function UsedFrom(es: seq<Dirent>, k: nat): (us: seq<Dirent>)
    decreases |es| - k
  {
    if k >= |es| then []
    else if Used(es[k]) then [es[k]] + UsedFrom(es, k + 1)
    else UsedFrom(es, k + 1)
  }

  ghost predicate Increasing(us: seq<Dirent>)
  {
    forall i, j :: 0 <= i < j < |us| ==> us[i].offset < us[j].offset
  }

  lemma {:induction false} UsedFromSound(es: seq<Dirent>, k: nat)
    requires Valid(es)
    ensures forall e :: e in UsedFrom(es, k) ==> Used(e) && k < e.offset <= |es| && es[e.offset - 1] == e
    decreases |es| - k
  {
    if k < |es| {
      UsedFromSound(es, k + 1);
      assert SlotOk(es[k], k);
    }
  }

  lemma {:induction false} UsedFromComplete(es: seq<Dirent>, k: nat)
    ensures forall i :: k <= i < |es| && Used(es[i]) ==> es[i] in UsedFrom(es, k)
    decreases |es| - k
  {
    if k < |es| { UsedFromComplete(es, k + 1); }
  }

  lemma {:induction false} UsedFromOrdered(es: seq<Dirent>, k: nat)
    requires Valid(es)
    ensures Increasing(UsedFrom(es, k))
    decreases |es| - k
  {
    if k < |es| {
      UsedFromOrdered(es, k + 1);
      UsedFromSound(es, k + 1);
      assert SlotOk(es[k], k);
      var us := UsedFrom(es, k + 1);
      assert UsedFrom(es, k) == if Used(es[k]) then [es[k]] + us else us;
      hide Valid, UsedFrom;
      ConsIncreasing(es[k], us);
    }
  }

  lemma ConsIncreasing(d: Dirent, us: seq<Dirent>)
    requires Increasing(us) && forall e :: e in us ==> d.offset < e.offset
    ensures Increasing([d] + us)
  {
    assert forall j :: 0 <= j < |us| ==> us[j] in us;
  }

  /** `UsedFrom` lists exactly the used slots from `k` on, in increasing slot order. */
  lemma UsedFromExact(es: seq<Dirent>, k: nat)
    requires Valid(es)
    ensures var us := UsedFrom(es, k);
            && (forall e :: e in us ==> Used(e) && k < e.offset <= |es| && es[e.offset - 1] == e)
            && (forall i :: k <= i < |es| && Used(es[i]) ==> es[i] in us)
            && Increasing(us)
  {
    UsedFromSound(es, k);
    UsedFromComplete(es, k);
    UsedFromOrdered(es, k);
  }

  /** The number of used entries, as `Len` counts them. */
  function Count(es: seq<Dirent>): nat { |UsedFrom(es, 0)| }

  lemma {:induction false} CountFrom(es: seq<Dirent>, k: nat)
    requires Valid(es) && k <= |es|
    ensures |UsedFrom(es, k)| == |(set i | k <= i < |es| && Used(es[i]) :: es[i].name)|
    decreases |es| - k
  {
    if k < |es| {
      CountFrom(es, k + 1);
      var tail := set i | k + 1 <= i < |es| && Used(es[i]) :: es[i].name;
      var all := set i | k <= i < |es| && Used(es[i]) :: es[i].name;
      if Used(es[k]) {
        assert all == tail + {es[k].name};
        assert es[k].name !in tail;
      } else {
        assert all == tail;
      }
    }
  }

  /** `Len` is the number of names bound. */
  lemma CountIsMapSize(es: seq<Dirent>)
    requires Valid(es)
    ensures Count(es) == |Dir(es)|
    ensures Count(es) == 0 <==> Dir(es) == map[]
  {
    CountFrom(es, 0);
    assert Dir(es).Keys == set i | 0 <= i < |es| && Used(es[i]) :: es[i].name;
    assert |Dir(es)| == |Dir(es).Keys|;
  }

  /** A directory read is empty exactly when no used entry is left or the first one
      left does not fit the buffer. */
  lemma EmptyRead(es: seq<Dirent>, k: nat, cap: nat)
    ensures Fit(UsedFrom(es, k), cap) == [] <==>
            UsedFrom(es, k) == [] || RecordLen(UsedFrom(es, k)[0]) > cap
  {
  }

  const RENAME_BUFFER: nat := 4096

  /** Rename's test on the directory it would replace. */
  predicate LooksEmpty(es: seq<Dirent>) { Fit(UsedFrom(es, 0), RENAME_BUFFER) == [] }

  /** Rename's 4096-byte test agrees with RmDir's count exactly when the directory is
      empty or the name in its first used slot has at most 4072 bytes. */
  lemma RenameTestExact(es: seq<Dirent>)
    requires Valid(es)
    ensures (LooksEmpty(es) <==> Count(es) == 0) <==>
            (UsedFrom(es, 0) == [] || |UsedFrom(es, 0)[0].name| <= 4072)
  {
    EmptyRead(es, 0, RENAME_BUFFER);
    if UsedFrom(es, 0) != [] {
      var n := |UsedFrom(es, 0)[0].name|;
      assert RecordSize(n) <= RENAME_BUFFER <==> n <= 4072;
    }
  }

  /** A buffer that holds the longest name makes an empty read mean end of directory. */
  lemma ZeroReadIsEnd(es: seq<Dirent>, k: nat, cap: nat)
    requires Valid(es)
    requires forall i :: k <= i < |es| && Used(es[i]) ==> RecordLen(es[i]) <= cap
    ensures Fit(UsedFrom(es, k), cap) == [] <==> forall i :: k <= i < |es| ==> !Used(es[i])
  {
    UsedFromExact(es, k);
    if UsedFrom(es, k) != [] {
      var e := UsedFrom(es, k)[0];
      assert e in UsedFrom(es, k);
      assert es[e.offset - 1] == e;
    }
  }
}
