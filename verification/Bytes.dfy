/** Bytes, Go strings as byte sequences, and the fixed-width integers of the
    FUSE wire format. */
module Bytes {

  type byte = b: int | 0 <= b < 256

  datatype Option<+T> = None | Some(value: T)

  /** `n` zero bytes, as `make([]byte, n)` yields them. */
  function Zeros(n: nat): (z: seq<byte>)
    ensures |z| == n
    ensures forall i :: 0 <= i < n ==> z[i] == 0
  {
    seq(n, _ => 0)
  }

  /** The number of values that fit in `w` bytes. */
  function Pow256(w: nat): (p: nat)
    ensures p >= 1
  {
    if w == 0 then 1 else 256 * Pow256(w - 1)
  }

  /** The low `w` bytes of `v`, least significant first. */
  function LE(v: nat, w: nat): (s: seq<byte>)
    ensures |s| == w
  {
    if w == 0 then [] else [v % 256] + LE(v / 256, w - 1)
  }

  /** The number whose little-endian bytes are `s`. */
  function FromLE(s: seq<byte>): nat
  {
    if s == [] then 0 else s[0] + 256 * FromLE(s[1..])
  }

  /** Reading back a `w`-byte field gives the value stored, if it fits. */
  lemma {:induction false} FitsInField(v: nat, w: nat)
    requires v < Pow256(w)
    ensures FromLE(LE(v, w)) == v
  {
    if w > 0 {
      FitsInField(v / 256, w - 1);
      assert LE(v, w)[1..] == LE(v / 256, w - 1);
    }
  }

  /** A number read from a field fits it. */
  lemma {:induction false} FromLEFits(b: seq<byte>)
    ensures FromLE(b) < Pow256(|b|)
  {
    if b != [] { FromLEFits(b[1..]); }
  }

  lemma Widths()
    ensures Pow256(4) == 0x1_0000_0000
    ensures Pow256(8) == 0x1_0000_0000_0000_0000
  {
    assert Pow256(2) == 0x1_0000;
    assert Pow256(4) == 256 * (256 * Pow256(2));
    assert Pow256(6) == 256 * (256 * Pow256(4));
    assert Pow256(8) == 256 * (256 * Pow256(6));
  }

  /** Index of the first NUL from `k` on, or the end. */
  function FirstNul(b: seq<byte>, k: nat := 0): (i: nat)
    requires k <= |b|
    ensures k <= i <= |b|
    ensures i < |b| ==> b[i] == 0
    ensures forall j :: k <= j < i ==> b[j] != 0
    decreases |b| - k
  {
    if k == |b| || b[k] == 0 then k else FirstNul(b, k + 1)
  }

  predicate NulFree(s: seq<byte>) { forall i :: 0 <= i < |s| ==> s[i] != 0 }

  /** The concatenation of a list of byte strings. */
  function Concat(ss: seq<seq<byte>>): seq<byte>
  {
    if ss == [] then [] else ss[0] + Concat(ss[1..])
  }

  /** `s` with the bytes from `at` on overwritten by `src`. */
  function Splice(s: seq<byte>, at: nat, src: seq<byte>): (r: seq<byte>)
    requires at + |src| <= |s|
    ensures |r| == |s|
  {
    s[..at] + src + s[at + |src|..]
  }

  lemma SpliceSplice(s: seq<byte>, at: nat, a: seq<byte>, b: seq<byte>)
    requires at + |a| + |b| <= |s|
    ensures Splice(Splice(s, at, a), at + |a|, b) == Splice(s, at, a + b)
  {
  }

  lemma SpliceNothing(s: seq<byte>, at: nat)
    requires at <= |s|
    ensures Splice(s, at, []) == s
  {
  }

  lemma SpliceOne(s: seq<byte>, at: nat, src: seq<byte>, n: nat)
    requires n < |src| && at + n < |s|
    ensures Splice(s, at, src[..n])[at + n := src[n]] == Splice(s, at, src[..n + 1])
  {
  }

  /** Go's `copy(dst[at:], src)`: as many bytes as fit are overwritten. */
  method Copy(dst: array<byte>, at: nat, src: seq<byte>) returns (n: nat)
    requires at <= dst.Length
    modifies dst
    ensures n == if |src| <= dst.Length - at then |src| else dst.Length - at
    ensures dst[..] == Splice(old(dst[..]), at, src[..n])
  {
    hide Splice;
    n := 0;
    assert Splice(old(dst[..]), at, []) == old(dst[..]) by { SpliceNothing(old(dst[..]), at); }
    while n < |src| && at + n < dst.Length
      invariant n <= |src| && at + n <= dst.Length
      invariant dst[..] == Splice(old(dst[..]), at, src[..n])
    {
      ghost var before := dst[..];
      SpliceOne(old(dst[..]), at, src, n);
      dst[at + n] := src[n];
      assert dst[..] == before[at + n := src[n]];
      n := n + 1;
    }
  }
}
