/** An incoming request: a buffer read from the kernel and a cursor that consumes it. */
module InMessages {
  import opened Bytes

  const IN_HEADER_SIZE: nat := 40

  class InMessage {
    const storage: array<byte>
    /** What is left to consume is `storage[lo..size]`. */
    var lo: nat
    var size: nat

    ghost predicate Valid()
      reads this
    {
      IN_HEADER_SIZE <= lo <= size <= storage.Length
    }

    ghost function Remaining(): seq<byte>
      requires Valid()
      reads this, storage
    {
      storage[lo..size]
    }

    /** The whole message after its header. */
    ghost function Payload(): seq<byte>
      requires Valid()
      reads this, storage
    {
      storage[IN_HEADER_SIZE..size]
    }

    constructor (bufSize: nat)
      requires bufSize >= IN_HEADER_SIZE
      ensures Valid() && fresh(storage) && storage.Length == bufSize && Remaining() == []
    {
      storage := new byte[bufSize];
      lo, size := IN_HEADER_SIZE, IN_HEADER_SIZE;
    }

    /** Take in the bytes of one read. Fails iff they are shorter than a header or the
        header's length field disagrees. */
    method Init(data: seq<byte>) returns (ok: bool)
      requires |data| <= storage.Length
      modifies this, storage
      ensures ok || old(Valid()) ==> Valid()
      ensures ok <==> |data| >= IN_HEADER_SIZE && FromLE(data[0..4]) == |data|
      ensures ok ==> storage[..size] == data && lo == IN_HEADER_SIZE
      ensures ok ==> Remaining() == Payload() == data[IN_HEADER_SIZE..]
    {
      var n := Copy(storage, 0, data);
      assert storage[..|data|] == data;
      if n < IN_HEADER_SIZE {
        return false;
      }
      size, lo := n, IN_HEADER_SIZE;
      assert storage[0..4] == data[0..4];
      return FromLE(storage[0..4]) == n;
    }

    method Len() returns (n: nat)
      requires Valid()
      ensures n == |Remaining()|
    {
      n := size - lo;
    }

    /** The next `n` bytes, as a pointer to them; nil if there are fewer, or none at all. */
    method Consume(n: nat) returns (r: Option<seq<byte>>)
      requires Valid()
      modifies this`lo
      ensures Valid()
      ensures r.None? <==> old(Remaining()) == [] || n > |old(Remaining())|
      ensures r.Some? ==> |r.value| == n && r.value + Remaining() == old(Remaining())
      ensures r.None? ==> Remaining() == old(Remaining())
      ensures storage[IN_HEADER_SIZE..lo] + Remaining() == Payload()
    {
      if size - lo == 0 || n > size - lo {
        return None;
      }
      r := Some(storage[lo..lo + n]);
      lo := lo + n;
    }

    /** The next `n` bytes, nil if there are fewer. */
    method ConsumeBytes(n: nat) returns (r: Option<seq<byte>>)
      requires Valid()
      modifies this`lo
      ensures Valid()
      ensures r.None? <==> n > |old(Remaining())|
      ensures r.Some? ==> |r.value| == n && r.value + Remaining() == old(Remaining())
      ensures r.None? ==> Remaining() == old(Remaining())
      ensures storage[IN_HEADER_SIZE..lo] + Remaining() == Payload()
    {
      if n > size - lo {
        return None;
      }
      r := Some(storage[lo..lo + n]);
      lo := lo + n;
    }

    /** A region of `n` bytes of the storage for use as a read buffer: whatever is written
        there, the message stays as it is. */
    method GetFree(n: int) returns (r: Option<(nat, nat)>)
      requires Valid()
      ensures r.Some? <==> 0 < n <= storage.Length - size
      ensures r.Some? ==> r.value.1 - r.value.0 == n && size <= r.value.0 && r.value.1 <= storage.Length
      ensures r.Some? ==> forall written: seq<byte> :: |written| == n ==>
                Splice(storage[..], r.value.0, written)[..size] == storage[..size]
    {
      if n <= 0 || n > storage.Length - size {
        return None;
      }
      return Some((size, size + n));
    }
  }
}
