/** The byte ring the worker is built on (zix_ring), kept abstract: the
    unread bytes in the order they were written, and a usable capacity no
    larger than the size the ring was created with. Read space and write
    space always add up to that capacity. How the bytes lie in the backing
    buffer (cursors, wraparound, rounding of the size) is not modelled. */
module Rings {
  import opened Framing

  class Ring {
    /** Usable capacity: the most bytes the ring can hold at once. */
    const capacity: nat
    /** The unread bytes, oldest first. */
    var bytes: seq<byte>

    ghost predicate Valid()
      reads this
    {
      capacity <= RingSize && |bytes| <= capacity
    }

    /** zix_ring_new: a ring holding nothing. */
    constructor (capacity: nat)
      requires capacity <= RingSize
      ensures Valid()
      ensures this.capacity == capacity && bytes == []
    {
      this.capacity := capacity;
      bytes := [];
    }

    /** zix_ring_read_space: how many bytes can be read. */
    function ReadSpace(): (n: nat)
      reads this
      ensures n == 0 <==> bytes == []
    {
      |bytes|
    }

    /** zix_ring_write_space: how many more bytes fit. */
    function WriteSpace(): (n: nat)
      requires Valid()
      reads this
      ensures n + ReadSpace() == capacity
    {
      capacity - |bytes|
    }

    /** zix_ring_write: appends all of `src` and returns its length when it
        fits, otherwise writes nothing and returns 0. */
    method Write(src: seq<byte>) returns (written: nat)
      requires Valid()
      modifies this
      ensures Valid()
      ensures |src| <= old(WriteSpace()) ==> written == |src| && bytes == old(bytes) + src
      ensures |src| > old(WriteSpace()) ==> written == 0 && bytes == old(bytes)
    {
      if |src| <= capacity - |bytes| {
        bytes := bytes + src;
        written := |src|;
      } else {
        written := 0;
      }
    }

    /** zix_ring_read: removes and returns the oldest `n` bytes when that
        many are there, otherwise reads nothing and returns 0. */
    method Read(n: nat) returns (count: nat, dst: seq<byte>)
      requires Valid()
      modifies this
      ensures Valid()
      ensures n <= old(ReadSpace()) ==> count == n && dst == old(bytes)[..n] && bytes == old(bytes)[n..]
      ensures n > old(ReadSpace()) ==> count == 0 && dst == [] && bytes == old(bytes)
    {
      if n <= |bytes| {
        dst := bytes[..n];
        bytes := bytes[n..];
        count := n;
      } else {
        count, dst := 0, [];
      }
    }
  }
}
