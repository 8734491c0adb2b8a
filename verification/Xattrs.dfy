/** The listing of extended attribute names: NUL-terminated names one after
    another, in whatever order the map yields them. */
module Xattrs {
  import opened Bytes

  /** The bytes needed to list a set of names. */
  ghost function Need(keys: set<seq<byte>>): nat
  {
    if keys == {} then 0 else
    var k :| k in keys;
    |k| + 1 + Need(keys - {k})
  }

  /** The order in which names are taken does not change the bytes needed. */
  lemma {:induction false} NeedAnyOrder(keys: set<seq<byte>>, k: seq<byte>)
    requires k in keys
    ensures Need(keys) == |k| + 1 + Need(keys - {k})
  {
    var c :| c in keys && Need(keys) == |c| + 1 + Need(keys - {c});
    if c != k {
      NeedAnyOrder(keys - {c}, k);
      NeedAnyOrder(keys - {k}, c);
      assert keys - {c} - {k} == keys - {k} - {c};
    }
  }

  function Listing(order: seq<seq<byte>>): seq<byte>
  {
    if order == [] then [] else Listing(order[..|order| - 1]) + order[|order| - 1] + [0]
  }

  /** `order` names each element of `keys` exactly once. */
  ghost predicate Enumerates(order: seq<seq<byte>>, keys: set<seq<byte>>)
  {
    && (forall k :: k in order <==> k in keys)
    && (forall i, j :: 0 <= i < j < |order| ==> order[i] != order[j])
  }

  /** How the caller takes a listing apart. */
  function Split(b: seq<byte>): seq<seq<byte>>
    decreases |b|
  {
    if b == [] then [] else
    var i := FirstNul(b);
    if i == |b| then [b] else [b[..i]] + Split(b[i + 1..])
  }

  lemma {:induction false} ListingCons(k: seq<byte>, rest: seq<seq<byte>>)
    ensures Listing([k] + rest) == k + [0] + Listing(rest)
  {
    var order := [k] + rest;
    if rest == [] {
      assert order[..0] == [] && Listing([]) == [];
    } else {
      var n := |rest| - 1;
      assert order[..|order| - 1] == [k] + rest[..n];
      ListingCons(k, rest[..n]);
    }
  }

  /** The caller gets back exactly the names, once each, in the order listed. */
  lemma {:induction false} SplitInvertsListing(order: seq<seq<byte>>)
    requires forall k :: k in order ==> NulFree(k)
    ensures Split(Listing(order)) == order
  {
    if order != [] {
      var k, rest := order[0], order[1..];
      assert order == [k] + rest;
      ListingCons(k, rest);
      SplitInvertsListing(rest);
      var b := k + [0] + Listing(rest);
      assert b[|k|] == 0;
      assert k in order && forall j :: 0 <= j < |k| ==> b[j] == k[j];
      assert b[..|k|] == k && b[|k| + 1..] == Listing(rest);
    }
  }

  /** Any order in which the names come takes the same number of bytes. */
  lemma {:induction false} ListingSize(order: seq<seq<byte>>, keys: set<seq<byte>>)
    requires Enumerates(order, keys)
    ensures |Listing(order)| == Need(keys)
  {
    if order == [] {
      assert keys == {};
    } else {
      var n := |order| - 1;
      assert order[n] in order;
      forall k ensures k in order[..n] <==> k in keys - {order[n]} {
        if k in keys - {order[n]} {
          assert k in order;
          var i :| 0 <= i < |order| && order[i] == k;
          assert order[..n][i] == k;
        }
      }
      ListingSize(order[..n], keys - {order[n]});
      NeedAnyOrder(keys, order[n]);
    }
  }

  /** Copying one name into zeroed space after a listing extends the listing. */
  lemma ListingExtends(order: seq<seq<byte>>, key: seq<byte>, space: nat)
    requires |key| + 1 <= space
    ensures Splice(Listing(order) + Zeros(space), |Listing(order)|, key)
            == Listing(order + [key]) + Zeros(space - |key| - 1)
  {
    assert (order + [key])[..|order|] == order;
  }

  /** Any set of names has an enumeration. */
  lemma {:induction false} SomeOrder(keys: set<seq<byte>>) returns (order: seq<seq<byte>>)
    ensures Enumerates(order, keys)
  {
    if keys == {} {
      order := [];
    } else {
      var k :| k in keys;
      var rest := SomeOrder(keys - {k});
      order := [k] + rest;
      forall i, j | 0 <= i < j < |order| ensures order[i] != order[j] {
        assert rest[j - 1] in rest;
      }
    }
  }
}
