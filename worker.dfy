/** LV2Worker: the two framed rings between the audio thread and the worker
    thread, the framing helpers try_enqueue and try_dequeue, and their four
    users (schedule_work, respond, run and one pass of process). The plugin's
    callbacks work, work_response and end_run are not code of this system:
    each call to them is recorded in a log, and the responses `work` emits
    are a parameter of the step that calls it. */
module Worker {
  import opened Framing
  import opened Rings

  /** The LV2_Worker_Status values this code returns. */
  datatype Status = Success | ErrNoSpace

  /** A call into the plugin's worker interface. */
  datatype Call = Work(payload: seq<byte>) | WorkResponse(payload: seq<byte>) | EndRun

  // ---------------------------------------------------------------------
  // try_enqueue, as a function of the ring's contents
  // ---------------------------------------------------------------------

  /** Whether try_enqueue reported success, and the ring's bytes after it. */
  datatype Enqueued = Enqueued(accepted: bool, bytes: seq<byte>)

  /** try_enqueue on a ring of the given capacity that holds `bytes`: the
      frame goes in whole when the write space covers prefix and payload,
      and nothing is written otherwise. */
  function Enqueue(bytes: seq<byte>, capacity: nat, payload: seq<byte>): (r: Enqueued)
    requires |bytes| <= capacity <= RingSize
    ensures |r.bytes| <= capacity
    ensures r.accepted <==> PrefixSize + |payload| <= capacity - |bytes|
    ensures PrefixSize + |payload| > capacity ==> !r.accepted
    ensures !r.accepted ==> r.bytes == bytes
    ensures r.accepted ==> capacity - |r.bytes| == capacity - |bytes| - (PrefixSize + |payload|)
    ensures r.accepted ==> r.bytes[..|bytes|] == bytes && r.bytes[|bytes|..] == EncodeFrame(payload)
  {
    if capacity - |bytes| < PrefixSize + |payload| then Enqueued(false, bytes)
    else Enqueued(true, bytes + EncodeFrame(payload))
  }

  /** Seen as frames, try_enqueue appends the payload when it reports success
      and changes nothing when it does not. */
  lemma EnqueueFrames(bytes: seq<byte>, capacity: nat, payload: seq<byte>)
    requires |bytes| <= capacity <= RingSize
    requires Framed(bytes)
    ensures Framed(Enqueue(bytes, capacity, payload).bytes)
    ensures DecodeAll(Enqueue(bytes, capacity, payload).bytes).value
            == DecodeAll(bytes).value + (if Enqueue(bytes, capacity, payload).accepted then [payload] else [])
  {
    if Enqueue(bytes, capacity, payload).accepted {
      DecodeAllAppend(bytes, payload);
    } else {
      assert DecodeAll(bytes).value + [] == DecodeAll(bytes).value;
    }
  }

  /** Several try_enqueue calls in a row, as the `work` callback makes them
      through respond: which of them succeeded, and the bytes afterwards. */
  datatype Batch = Batch(accepted: seq<bool>, bytes: seq<byte>)

  function EnqueueEach(bytes: seq<byte>, capacity: nat, payloads: seq<seq<byte>>): (r: Batch)
    requires |bytes| <= capacity <= RingSize
    ensures |r.accepted| == |payloads| && |r.bytes| <= capacity
    decreases |payloads|
  {
    if payloads == [] then Batch([], bytes)
    else
      var prev := EnqueueEach(bytes, capacity, payloads[..|payloads| - 1]);
      var e := Enqueue(prev.bytes, capacity, payloads[|payloads| - 1]);
      Batch(prev.accepted + [e.accepted], e.bytes)
  }

  /** The payloads whose flag is set, in their order. */
  function Kept(payloads: seq<seq<byte>>, flags: seq<bool>): (r: seq<seq<byte>>)
    requires |flags| == |payloads|
    ensures (forall i :: 0 <= i < |flags| ==> flags[i]) ==> r == payloads
  {
    if payloads == [] then []
    else
      Kept(payloads[..|payloads| - 1], flags[..|flags| - 1])
      + (if flags[|flags| - 1] then [payloads[|payloads| - 1]] else [])
  }

  /** The frames of a batch of enqueues are the old frames followed by the
      accepted payloads, in the order they were offered. */
  lemma {:induction false} EnqueueEachFrames(bytes: seq<byte>, capacity: nat, payloads: seq<seq<byte>>)
    requires |bytes| <= capacity <= RingSize
    requires Framed(bytes)
    ensures Framed(EnqueueEach(bytes, capacity, payloads).bytes)
    ensures DecodeAll(EnqueueEach(bytes, capacity, payloads).bytes).value
            == DecodeAll(bytes).value + Kept(payloads, EnqueueEach(bytes, capacity, payloads).accepted)
    decreases |payloads|
  {
    if payloads != [] {
      var init, last := payloads[..|payloads| - 1], payloads[|payloads| - 1];
      var prev := EnqueueEach(bytes, capacity, init);
      EnqueueEachFrames(bytes, capacity, init);
      EnqueueFrames(prev.bytes, capacity, last);
      var r := EnqueueEach(bytes, capacity, payloads);
      assert r.accepted[..|r.accepted| - 1] == prev.accepted;
    }
  }

  function StatusOf(accepted: bool): (s: Status)
    ensures s == Success <==> accepted
    ensures s == ErrNoSpace <==> !accepted
  {
    if accepted then Success else ErrNoSpace
  }

  function Statuses(flags: seq<bool>): (r: seq<Status>)
    ensures |r| == |flags|
    ensures forall i :: 0 <= i < |flags| ==> (r[i] == Success <==> flags[i])
  {
    seq(|flags|, i requires 0 <= i < |flags| => StatusOf(flags[i]))
  }

  function ResponseCalls(frames: seq<seq<byte>>): seq<Call> {
    seq(|frames|, i requires 0 <= i < |frames| => WorkResponse(frames[i]))
  }

  // ---------------------------------------------------------------------
  // The framing helpers
  // ---------------------------------------------------------------------

  /** try_enqueue with its intended meaning: checks the write space for
      prefix and payload, then writes the 4-byte length and the payload.
      Once the check has passed each write stores every byte it is given,
      so an empty payload makes an empty frame. The source's asserts test
      the returned count for being non-zero instead, which fails for an
      empty payload (see SourceEnqueue). */
  method TryEnqueue(ring: Ring, payload: seq<byte>) returns (ok: bool)
    requires ring.Valid()
    modifies ring
    ensures ring.Valid()
    ensures Enqueued(ok, ring.bytes) == Enqueue(old(ring.bytes), ring.capacity, payload)
  {
    if ring.WriteSpace() < PrefixSize + |payload| {
      return false;
    }
    var written := ring.Write(EncodeLength(|payload|));
    assert written == PrefixSize;
    written := ring.Write(payload);
    assert written == |payload|;
    ok := true;
  }

  /** try_dequeue with its intended meaning: when the ring holds a frame,
      it removes exactly that frame, reading the prefix and then that many
      bytes, and hands both the length and the bytes to the caller; when it
      holds none it returns false and consumes nothing. The ring holds whole
      frames only (every writer goes through try_enqueue, and here an
      enqueue is one step, not two writes another thread could see between),
      so testing for a non-empty ring is testing for a complete frame, and
      both reads return every byte asked for (none, for an empty frame). The
      frame always fits a buffer of RingSize bytes. */
  method TryDequeue(ring: Ring) returns (found: bool, size: nat, data: seq<byte>)
    requires ring.Valid() && Framed(ring.bytes)
    modifies ring
    ensures ring.Valid() && Framed(ring.bytes)
    ensures found <==> DecodeFrame(old(ring.bytes)).Some?
    ensures !found ==> size == 0 && data == [] && ring.bytes == old(ring.bytes)
    ensures found ==> DecodeFrame(old(ring.bytes)) == Some(Split(data, ring.bytes)) && size == |data|
    ensures found ==> DecodeAll(old(ring.bytes)).value == [data] + DecodeAll(ring.bytes).value
    ensures found ==> PrefixSize + size <= RingSize && |ring.bytes| < |old(ring.bytes)|
  {
    FramedFront(ring.bytes);
    if ring.ReadSpace() == 0 {
      return false, 0, [];
    }
    ghost var b := ring.bytes;
    var count, prefix := ring.Read(PrefixSize);
    assert count == PrefixSize;
    size := DecodeLength(prefix);
    count, data := ring.Read(size);
    assert count == size;
    assert data == b[PrefixSize..PrefixSize + size] && ring.bytes == b[PrefixSize + size..];
    found := true;
  }

  // ---------------------------------------------------------------------
  // The worker
  // ---------------------------------------------------------------------

  class LV2Worker {
    /** Requests from the audio thread to the worker thread. */
    const workRing: Ring
    /** Responses from the worker thread back to the audio thread. */
    const responseRing: Ring
    /** A plugin interface has been installed by start. */
    var started: bool
    /** The installed interface has an end_run hook (it is not null). */
    var hasEndRun: bool
    /** Every call made into the plugin's worker interface, in order. */
    var calls: seq<Call>

    ghost predicate Valid()
      reads this, workRing, responseRing
    {
      workRing != responseRing
      && workRing.Valid() && responseRing.Valid()
      && Framed(workRing.bytes) && Framed(responseRing.bytes)
    }

    /** The requests waiting for the worker thread, oldest first. */
    ghost function Requests(): seq<seq<byte>>
      requires Valid()
      reads this, workRing, responseRing
    {
      DecodeAll(workRing.bytes).value
    }

    /** The responses waiting for run, oldest first. */
    ghost function Responses(): seq<seq<byte>>
      requires Valid()
      reads this, workRing, responseRing
    {
      DecodeAll(responseRing.bytes).value
    }

    /** The constructor: two empty rings, each created with size RingSize;
        `capacity` is the usable part of that size. */
    constructor (capacity: nat)
      requires capacity <= RingSize
      ensures Valid() && fresh(workRing) && fresh(responseRing)
      ensures workRing.capacity == capacity && responseRing.capacity == capacity
      ensures workRing.bytes == [] && responseRing.bytes == []
      ensures Requests() == [] && Responses() == []
      ensures !started && calls == []
    {
      workRing := new Ring(capacity);
      responseRing := new Ring(capacity);
      started, hasEndRun, calls := false, false, [];
    }

    /** start: installs the plugin's worker interface (the thread it then
        creates is the caller of ProcessStep). */
    method Start(hasEndRun: bool)
      requires Valid()
      modifies this
      ensures Valid()
      ensures started && this.hasEndRun == hasEndRun && calls == old(calls)
    {
      started := true;
      this.hasEndRun := hasEndRun;
    }

    /** schedule_work: succeeds exactly when the request frame went onto the
        work ring; the response ring is not touched. */
    method ScheduleWork(payload: seq<byte>) returns (status: Status)
      requires Valid()
      modifies workRing
      ensures Valid()
      ensures status == StatusOf(Enqueue(old(workRing.bytes), workRing.capacity, payload).accepted)
      ensures workRing.bytes == Enqueue(old(workRing.bytes), workRing.capacity, payload).bytes
      ensures Requests() == old(Requests()) + (if status == Success then [payload] else [])
      ensures responseRing.bytes == old(responseRing.bytes)
    {
      EnqueueFrames(workRing.bytes, workRing.capacity, payload);
      var ok := TryEnqueue(workRing, payload);
      status := if ok then Success else ErrNoSpace;
    }

    /** respond: succeeds exactly when the response frame went onto the
        response ring; the work ring is not touched. */
    method Respond(payload: seq<byte>) returns (status: Status)
      requires Valid()
      modifies responseRing
      ensures Valid()
      ensures status == StatusOf(Enqueue(old(responseRing.bytes), responseRing.capacity, payload).accepted)
      ensures responseRing.bytes == Enqueue(old(responseRing.bytes), responseRing.capacity, payload).bytes
      ensures Responses() == old(Responses()) + (if status == Success then [payload] else [])
      ensures workRing.bytes == old(workRing.bytes)
    {
      EnqueueFrames(responseRing.bytes, responseRing.capacity, payload);
      var ok := TryEnqueue(responseRing, payload);
      status := if ok then Success else ErrNoSpace;
    }

    /** run: hands every pending response to work_response, oldest first,
        until the response ring is empty, then calls end_run once when the
        plugin has one, also when there was nothing to hand over. */
    method Run()
      requires Valid() && started
      modifies this, responseRing
      ensures Valid()
      ensures responseRing.bytes == [] && Responses() == []
      ensures calls == old(calls) + ResponseCalls(old(Responses())) + (if hasEndRun then [EndRun] else [])
      ensures workRing.bytes == old(workRing.bytes)
      ensures started && hasEndRun == old(hasEndRun)
    {
      ghost var initial := Responses();
      ghost var drained: seq<seq<byte>> := [];
      while true
        invariant Valid()
        invariant initial == drained + Responses()
        invariant calls == old(calls) + ResponseCalls(drained)
        invariant workRing.bytes == old(workRing.bytes)
        invariant started && hasEndRun == old(hasEndRun)
        decreases |responseRing.bytes|
      {
        var found, data := HandOverResponse();
        if !found {
          break;
        }
        assert ResponseCalls(drained + [data]) == ResponseCalls(drained) + [WorkResponse(data)];
        drained := drained + [data];
      }
      FramedFront(responseRing.bytes);
      assert drained == initial;
      if hasEndRun {
        calls := calls + [EndRun];
      }
    }

    /** One pass of run's loop: when a response is pending, takes the oldest
        one off the response ring and hands it to work_response. */
    method HandOverResponse() returns (found: bool, data: seq<byte>)
      requires Valid()
      modifies this, responseRing
      ensures Valid()
      ensures found <==> old(Responses()) != []
      ensures !found ==> responseRing.bytes == [] && calls == old(calls)
      ensures found ==> old(Responses()) == [data] + Responses() && calls == old(calls) + [WorkResponse(data)]
      ensures found ==> |responseRing.bytes| < old(|responseRing.bytes|)
      ensures workRing.bytes == old(workRing.bytes)
      ensures started == old(started) && hasEndRun == old(hasEndRun)
    {
      FramedFront(responseRing.bytes);
      var size;
      found, size, data := TryDequeue(responseRing);
      if found {
        calls := calls + [WorkResponse(data)];
      }
    }

    /** One pass of the loop in process: when no request is waiting nothing
        happens; otherwise exactly one request is taken off the work ring
        and `work` is called once with it. The responses `work` hands to
        respond are `emitted`; they go onto the response ring only, each
        with the status respond returned to the plugin. */
    method ProcessStep(emitted: seq<seq<byte>>) returns (statuses: seq<Status>)
      requires Valid() && started
      modifies this, workRing, responseRing
      ensures Valid()
      ensures started && hasEndRun == old(hasEndRun)
      ensures old(Requests()) == [] ==>
                statuses == [] && calls == old(calls)
                && workRing.bytes == old(workRing.bytes) && responseRing.bytes == old(responseRing.bytes)
      ensures old(Requests()) != [] ==>
                && Requests() == old(Requests())[1..]
                && calls == old(calls) + [Work(old(Requests())[0])]
                && responseRing.bytes == EnqueueEach(old(responseRing.bytes), responseRing.capacity, emitted).bytes
                && statuses == Statuses(EnqueueEach(old(responseRing.bytes), responseRing.capacity, emitted).accepted)
                && Responses() == old(Responses())
                   + Kept(emitted, EnqueueEach(old(responseRing.bytes), responseRing.capacity, emitted).accepted)
    {
      FramedFront(workRing.bytes);
      var found, size, data := TryDequeue(workRing);
      if !found {
        return [];
      }
      calls := calls + [Work(data)];
      EnqueueEachFrames(responseRing.bytes, responseRing.capacity, emitted);
      statuses := EmitResponses(emitted);
    }

    /** The calls to respond that `work` makes, one per emitted response, in
        order. */
    method EmitResponses(emitted: seq<seq<byte>>) returns (statuses: seq<Status>)
      requires Valid()
      modifies responseRing
      ensures Valid()
      ensures responseRing.bytes == EnqueueEach(old(responseRing.bytes), responseRing.capacity, emitted).bytes
      ensures statuses == Statuses(EnqueueEach(old(responseRing.bytes), responseRing.capacity, emitted).accepted)
    {
      statuses := [];
      var i := 0;
      while i < |emitted|
        invariant 0 <= i <= |emitted|
        invariant Valid()
        invariant responseRing.bytes == EnqueueEach(old(responseRing.bytes), responseRing.capacity, emitted[..i]).bytes
        invariant statuses == Statuses(EnqueueEach(old(responseRing.bytes), responseRing.capacity, emitted[..i]).accepted)
      {
        assert emitted[..i + 1][..i] == emitted[..i];
        var status := Respond(emitted[i]);
        statuses := statuses + [status];
        i := i + 1;
      }
      assert emitted[..i] == emitted;
    }
  }

  // ---------------------------------------------------------------------
  // try_enqueue and try_dequeue as written
  // ---------------------------------------------------------------------

  /** The asserts around the ring reads and writes (worker.cpp lines 39-40
      and 49-50) pass when the byte count zix returns is non-zero. */
  function SourceAssertPasses(count: nat): bool {
    count != 0
  }

  /** What try_enqueue as written ends in, in a build with asserts. */
  datatype SourceOutcome = SourceRejected | SourceAborted | SourceAccepted(bytes: seq<byte>)

  /** try_enqueue as written: after the space check each write returns the
      number of bytes it was given, and the assert around it tests that
      number for being non-zero. */
  function SourceEnqueue(bytes: seq<byte>, capacity: nat, payload: seq<byte>): (r: SourceOutcome)
    requires |bytes| <= capacity <= RingSize
    ensures r.SourceRejected? <==> !Enqueue(bytes, capacity, payload).accepted
    ensures r.SourceAborted? <==> Enqueue(bytes, capacity, payload).accepted && payload == []
    ensures r.SourceAccepted? ==> r.bytes == Enqueue(bytes, capacity, payload).bytes
  {
    if capacity - |bytes| < PrefixSize + |payload| then SourceRejected
    else if !SourceAssertPasses(PrefixSize) || !SourceAssertPasses(|payload|) then SourceAborted
    else SourceAccepted(bytes + EncodeFrame(payload))
  }

  /** schedule_work with an empty payload on an empty work ring: the frame
      fits and the intended try_enqueue stores it, but as written the second
      write returns 0 and its assert aborts. */
  lemma SourceEnqueueAbortsOnEmptyPayload()
    ensures Enqueue([], RingSize, []).accepted
    ensures Enqueue([], RingSize, []).bytes == EncodeFrame([])
    ensures SourceEnqueue([], RingSize, []) == SourceAborted
  {
  }

  /** The test at the head of try_dequeue as written: it carries on to read
      a frame only when the ring reports no bytes to read. */
  function SourceDequeueProceeds(readSpace: nat): bool {
    readSpace == 0
  }

  /** As written, try_dequeue gives up on every ring that holds a frame, and
      goes on to read exactly when the ring is empty, where the first read
      returns 0 and the assert around it aborts. */
  lemma SourceDequeueNeverDelivers(b: seq<byte>)
    ensures DecodeFrame(b).Some? ==> !SourceDequeueProceeds(|b|)
    ensures SourceDequeueProceeds(|b|) <==> b == []
    ensures SourceDequeueProceeds(|b|) ==> DecodeFrame(b).None? && !SourceAssertPasses(0)
  {
  }

  /** A request scheduled on an empty work ring is never picked up: the ring
      holds exactly its frame, and the as-written test refuses it. */
  lemma SourceDequeueStrandsRequest()
    ensures Enqueue([], RingSize, [1, 2]).accepted
    ensures DecodeFrame(Enqueue([], RingSize, [1, 2]).bytes).Some?
    ensures !SourceDequeueProceeds(|Enqueue([], RingSize, [1, 2]).bytes|)
  {
  }

  /** What the caller sees after lines 39-42 as written: the prefix is read
      into try_dequeue's own copy of `size`, so the caller's size keeps the
      value it had, while the payload itself is read in full. */
  datatype SourceRead = SourceRead(callerSize: nat, data: seq<byte>, rest: seq<byte>)

  function SourceReadFrame(b: seq<byte>, callerSize: nat): (r: SourceRead)
    requires DecodeFrame(b).Some?
    ensures r.callerSize == callerSize
    ensures |r.data| < Uint32Limit
    ensures b == EncodeFrame(r.data) + r.rest
  {
    var s := DecodeFrame(b).value;
    SourceRead(callerSize, s.payload, s.rest)
  }

  /** process and run start with size 0 and pass it on to work and
      work_response; for a 2-byte request that size is still 0, whereas the
      intended TryDequeue reports 2. */
  lemma SourceLosesFrameLength()
    ensures SourceReadFrame(EncodeFrame([1, 2]) + [], 0).callerSize == 0
    ensures |SourceReadFrame(EncodeFrame([1, 2]) + [], 0).data| == 2
  {
  }
}
