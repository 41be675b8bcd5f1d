/** Length-prefixed frames as the worker lays them down in a byte ring:
    a 4-byte unsigned length, then that many payload bytes. Everything in
    this module is a pure function of byte sequences; the rings that hold
    the bytes are in module Rings, the framing helpers that use them in
    module Worker. */
module Framing {

  newtype byte = x: int | 0 <= x < 256

  /** OBS_LV2_RING_SIZE: the size asked for when a ring is created. */
  const RingSize: nat := 4096

  /** sizeof(uint32_t): the bytes taken by a frame's length prefix. */
  const PrefixSize: nat := 4

  /** One more than the largest uint32_t. */
  const Uint32Limit: nat := 0x1_0000_0000

  datatype Option<T> = None | Some(value: T)

  /** A frame taken off the front of a byte stream, and the bytes behind it. */
  datatype Split = Split(payload: seq<byte>, rest: seq<byte>)

  // ---------------------------------------------------------------------
  // The length prefix (a uint32_t copied byte for byte; host byte order,
  // taken here to be little-endian)
  // ---------------------------------------------------------------------

  function DecodeLength(b: seq<byte>): (n: nat)
    requires |b| == PrefixSize
    ensures n < Uint32Limit
  {
    b[0] as nat + 0x100 * (b[1] as nat) + 0x1_0000 * (b[2] as nat) + 0x100_0000 * (b[3] as nat)
  }

  function EncodeLength(n: nat): (b: seq<byte>)
    requires n < Uint32Limit
    ensures |b| == PrefixSize
    ensures DecodeLength(b) == n
  {
    var b0, r0 := n % 0x100, n / 0x100;
    var b1, r1 := r0 % 0x100, r0 / 0x100;
    var b2, b3 := r1 % 0x100, r1 / 0x100;
    [b0 as byte, b1 as byte, b2 as byte, b3 as byte]
  }

  /** The prefix is determined by the length it carries. */
  lemma EncodeDecodeLength(b: seq<byte>)
    requires |b| == PrefixSize
    ensures EncodeLength(DecodeLength(b)) == b
  {
    var n := DecodeLength(b);
    var r0 := b[1] as nat + 0x100 * (b[2] as nat) + 0x1_0000 * (b[3] as nat);
    var r1 := b[2] as nat + 0x100 * (b[3] as nat);
    assert n == b[0] as nat + 0x100 * r0;
    assert n % 0x100 == b[0] as nat && n / 0x100 == r0;
    assert r0 == b[1] as nat + 0x100 * r1;
    assert r0 % 0x100 == b[1] as nat && r0 / 0x100 == r1;
    assert r1 % 0x100 == b[2] as nat && r1 / 0x100 == b[3] as nat;
  }

  // ---------------------------------------------------------------------
  // One frame
  // ---------------------------------------------------------------------

  /** The bytes try_enqueue writes for one payload: prefix, then payload. */
  function EncodeFrame(payload: seq<byte>): (b: seq<byte>)
    requires |payload| < Uint32Limit
    ensures |b| == PrefixSize + |payload|
    ensures b[PrefixSize..] == payload
  {
    EncodeLength(|payload|) + payload
  }

  /** The first complete frame at the front of `b`, if one is there: at
      least a prefix, and at least as many bytes behind it as it announces. */
  function DecodeFrame(b: seq<byte>): (r: Option<Split>)
    ensures r.Some? ==> |r.value.payload| < Uint32Limit
    ensures r.Some? ==> b == EncodeFrame(r.value.payload) + r.value.rest
  {
    if |b| < PrefixSize then None
    else
      var n := DecodeLength(b[..PrefixSize]);
      if |b| - PrefixSize < n then None
      else
        EncodeDecodeLength(b[..PrefixSize]);
        assert b == b[..PrefixSize] + b[PrefixSize..PrefixSize + n] + b[PrefixSize + n..];
        Some(Split(b[PrefixSize..PrefixSize + n], b[PrefixSize + n..]))
  }

  /** Framing round trip: the frame written for a payload reads back as that
      payload, whatever follows it. */
  lemma DecodeEncodeFrame(payload: seq<byte>, rest: seq<byte>)
    requires |payload| < Uint32Limit
    ensures DecodeFrame(EncodeFrame(payload) + rest) == Some(Split(payload, rest))
  {
  }

  /** Bytes written behind a complete frame do not change how it reads. */
  lemma DecodeFrameAppend(b: seq<byte>, more: seq<byte>)
    requires DecodeFrame(b).Some?
    ensures DecodeFrame(b + more) == Some(Split(DecodeFrame(b).value.payload, DecodeFrame(b).value.rest + more))
  {
    var s := DecodeFrame(b).value;
    assert b + more == EncodeFrame(s.payload) + (s.rest + more);
    DecodeEncodeFrame(s.payload, s.rest + more);
  }

  // ---------------------------------------------------------------------
  // A ring's contents as a sequence of frames
  // ---------------------------------------------------------------------

  /** The frames `b` holds, oldest first, or None when `b` does not split
      into whole frames. */
  function DecodeAll(b: seq<byte>): (r: Option<seq<seq<byte>>>)
    decreases |b|
  {
    if b == [] then Some([])
    else
      match DecodeFrame(b)
      case None => None
      case Some(s) =>
        match DecodeAll(s.rest)
        case None => None
        case Some(fs) => Some([s.payload] + fs)
  }

  /** `b` consists of whole frames and nothing else. */
  predicate Framed(b: seq<byte>) {
    DecodeAll(b).Some?
  }

  predicate AllEncodable(fs: seq<seq<byte>>) {
    forall i :: 0 <= i < |fs| ==> |fs[i]| < Uint32Limit
  }

  /** The bytes a ring holds after the frames `fs` are enqueued in order. */
  function EncodeAll(fs: seq<seq<byte>>): (b: seq<byte>)
    requires AllEncodable(fs)
  {
    if fs == [] then [] else EncodeFrame(fs[0]) + EncodeAll(fs[1..])
  }

  /** FIFO: frames enqueued in order are dequeued in the same order, with the
      same lengths and bytes. */
  lemma {:induction false} DecodeEncodeAll(fs: seq<seq<byte>>)
    requires AllEncodable(fs)
    ensures DecodeAll(EncodeAll(fs)) == Some(fs)
  {
    if fs != [] {
      var tail := EncodeAll(fs[1..]);
      DecodeEncodeFrame(fs[0], tail);
      DecodeEncodeAll(fs[1..]);
      assert [fs[0]] + fs[1..] == fs;
    }
  }

  /** Conversely, a framed byte sequence is exactly the encoding of the
      frames it decodes to: frames and bytes determine each other. */
  lemma {:induction false} EncodeDecodeAll(b: seq<byte>)
    requires Framed(b)
    ensures AllEncodable(DecodeAll(b).value)
    ensures EncodeAll(DecodeAll(b).value) == b
    decreases |b|
  {
    if b != [] {
      var s := DecodeFrame(b).value;
      EncodeDecodeAll(s.rest);
      var fs := DecodeAll(b).value;
      assert fs == [s.payload] + DecodeAll(s.rest).value;
      assert fs[1..] == DecodeAll(s.rest).value;
    }
  }

  /** Enqueueing one more frame behind whole frames appends it to the frame
      sequence: this is the step that keeps every ring a FIFO of frames. */
  lemma {:induction false} DecodeAllAppend(b: seq<byte>, payload: seq<byte>)
    requires Framed(b)
    requires |payload| < Uint32Limit
    ensures DecodeAll(b + EncodeFrame(payload)) == Some(DecodeAll(b).value + [payload])
    decreases |b|
  {
    var e := EncodeFrame(payload);
    if b == [] {
      var nothing: seq<byte> := [];
      assert b + e == e + nothing == e;
      DecodeEncodeFrame(payload, nothing);
      assert DecodeAll(nothing) == Some([]);
      assert [payload] + [] == [payload] == DecodeAll(b).value + [payload];
      assert DecodeAll(e) == Some([payload]);
    } else {
      var s := DecodeFrame(b).value;
      DecodeFrameAppend(b, e);
      DecodeAllAppend(s.rest, payload);
      assert [s.payload] + (DecodeAll(s.rest).value + [payload])
          == ([s.payload] + DecodeAll(s.rest).value) + [payload];
    }
  }

  /** In framed bytes a complete frame is present exactly when the bytes are
      not empty, so an emptiness test is a sound "frame present" test; taking
      that frame off leaves framed bytes holding the remaining frames. */
  lemma FramedFront(b: seq<byte>)
    requires Framed(b)
    ensures DecodeFrame(b).Some? <==> b != []
    ensures b != [] ==> Framed(DecodeFrame(b).value.rest)
    ensures b != [] ==> DecodeAll(b).value
                        == [DecodeFrame(b).value.payload] + DecodeAll(DecodeFrame(b).value.rest).value
  {
  }

  /** Every frame of framed bytes fits inside them, prefix included: so a
      dequeue buffer as large as the ring always holds a frame. */
  lemma {:induction false} FramesFit(b: seq<byte>, i: nat)
    requires Framed(b)
    requires i < |DecodeAll(b).value|
    ensures PrefixSize + |DecodeAll(b).value[i]| <= |b|
    decreases |b|
  {
    var s := DecodeFrame(b).value;
    if i > 0 {
      FramesFit(s.rest, i - 1);
    }
  }
}
