/**
 * The host's request queue object (createPyIpcQueue in nodejs/src/main.ts):
 * each method is one atomic step of the closure, specified by the
 * transition function of module QueueSpec that it performs.
 */
module HostQueue {
  import opened Basics
  import opened Wire
  import opened Codec
  import opened Host
  import opened QueueSpec
  import opened QueueProofs

  class IpcQueue {
    const worker: PyIpc
    const encode: Encoder
    const decode: Decoder

    var queueLoopStarted: bool
    var queue: seq<Pending>
    var loop: LoopState
    var nextTicket: nat
    var resolved: seq<Resolution>

    ghost var pushed: seq<Pending>
    ghost var shifted: nat
    ghost var sent: seq<seq<byte>>
    ghost var responses: seq<seq<byte>>
    ghost var trace: seq<WireOp>
    ghost const sendBase: seq<byte>      // the send pipe when the queue was created
    ghost const recvBase: nat            // the read cursor when the queue was created

    /** The bytes this queue has read from the receive pipe. */
    ghost function Consumed(): seq<byte>
      reads worker.ipcRecv
      requires recvBase <= worker.ipcRecv.pos <= |worker.ipcRecv.arrived|
    {
      worker.ipcRecv.arrived[recvBase..worker.ipcRecv.pos]
    }

    ghost predicate CursorOk()
      reads worker.ipcRecv
    {
      worker.ipcRecv.Valid() && recvBase <= worker.ipcRecv.pos
    }

    ghost function State(): Snapshot
      reads this, worker.ipcSend, worker.ipcRecv
      requires CursorOk()
    {
      Snapshot(queueLoopStarted, queue, loop, nextTicket, resolved,
               pushed, shifted, sent, responses, trace, worker.ipcSend.written, Consumed())
    }

    ghost predicate Valid()
      reads this, worker.ipcSend, worker.ipcRecv
    {
      CursorOk() && Inv(State(), decode, sendBase)
    }

    /** The state between two steps. */
    ghost predicate Settled()
      reads this, worker.ipcSend, worker.ipcRecv
    {
      Valid() && Between(State())
    }

    /**
     * createPyIpcQueue(worker): an empty queue, no loop running. The handle
     * comes from spawnPyIpc, so the readiness byte has been read already.
     */
    constructor (worker: PyIpc, encode: Encoder, decode: Decoder)
      requires worker.ipcRecv.Valid() && 1 <= worker.ipcRecv.pos && worker.ipcRecv.arrived[0] == ReadyByte
      ensures Settled() && this.worker == worker && this.encode == encode && this.decode == decode
      ensures sendBase == worker.ipcSend.written && recvBase == worker.ipcRecv.pos
      ensures State() == Snapshot(false, [], Idle, 0, [], [], 0, [], [], [], worker.ipcSend.written, [])
    {
      this.worker := worker;
      this.encode := encode;
      this.decode := decode;
      queueLoopStarted, queue, loop, nextTicket, resolved := false, [], Idle, 0, [];
      pushed, shifted, sent, responses, trace := [], 0, [], [], [];
      sendBase := worker.ipcSend.written;
      recvBase := worker.ipcRecv.pos;
      new;
      assert Consumed() == [];
    }

    /** The loop from `while (queue.length)` to its next await. */
    method RunLoop()
      requires CursorOk() && loop == Running
      modifies this, worker.ipcSend
      ensures CursorOk() && State() == LoopHead(old(State()))
    {
      ghost var s := State();
      if queue == [] {
        queueLoopStarted, loop := false, Idle;
        assert State() == LoopHead(s);
        return;
      }
      var e := queue[0];
      var header := EncodeLength(|e.request|);
      if header.None? {
        queue, shifted, loop := queue[1..], shifted + 1, Stuck;
        assert State() == LoopHead(s);
        return;
      }
      worker.ipcSend.Write(header.value + e.request);
      queue, shifted, sent, trace, loop := queue[1..], shifted + 1, sent + [e.request], trace + [Wrote(e.ticket)], AwaitLength(e);
      assert State() == LoopHead(s);
    }

    /** maybeStartQueueLoop: returns at once while the flag is set; otherwise sets it and runs the loop. */
    method MaybeStartQueueLoop()
      requires CursorOk()
      modifies this, worker.ipcSend
      ensures CursorOk() && State() == MaybeStart(old(State()))
      ensures old(queueLoopStarted) ==> unchanged(this) && unchanged(worker.ipcSend)
    {
      if queueLoopStarted {
        return;
      }
      queueLoopStarted, loop := true, Running;
      RunLoop();
    }

    /**
     * request(typ, request, validator): push the encoded envelope with a new
     * promise, then try to start the loop. Returns the promise's ticket; when
     * encode throws, the promise is rejected (None) and nothing is pushed.
     */
    method Request(typ: string, request: map<string, Value>, validator: Validator) returns (ticket: Option<nat>)
      requires Settled()
      modifies this, worker.ipcSend
      ensures Settled()
      ensures encode(Envelope(request, typ)).None? ==> ticket == None && State() == old(State())
      ensures encode(Envelope(request, typ)).Some? ==>
        && ticket == Some(old(nextTicket))
        && State() == RequestStep(old(State()), Pending(encode(Envelope(request, typ)).value, old(nextTicket), validator))
    {
      var raw := encode(Envelope(request, typ));
      if raw.None? {
        return None;
      }
      ticket := Some(nextTicket);
      Enqueue(Pending(raw.value, nextTicket, validator));
    }

    /** The body of the promise's executor once encode has returned: push e, then maybeStartQueueLoop. */
    method Enqueue(e: Pending)
      requires Settled() && e.ticket == nextTicket
      modifies this, worker.ipcSend
      ensures Settled() && State() == RequestStep(old(State()), e)
    {
      ghost var s := State();
      RequestKeepsInv(s, decode, sendBase, e);
      queue, pushed, nextTicket := queue + [e], pushed + [e], nextTicket + 1;
      assert State() == Push(s, e);
      MaybeStartQueueLoop();
    }

    /** The worker writes bytes to the receive pipe. */
    method Incoming(b: seq<byte>)
      requires Settled()
      modifies worker.ipcRecv
      ensures Settled() && State() == old(State())
      ensures worker.ipcRecv.arrived == old(worker.ipcRecv.arrived) + b
    {
      ghost var s := State();
      worker.ipcRecv.Arrive(b);
      assert Consumed() == s.consumed;
      assert State() == s;
    }

    /**
     * The await of the 4-byte response length completes, once 4 bytes have
     * arrived, and `header` is those bytes; until then (None) the loop stays
     * suspended and nothing changes.
     */
    method ResumeLength() returns (header: Option<seq<byte>>)
      requires Settled() && loop.AwaitLength?
      modifies this, worker.ipcRecv
      ensures Settled()
      ensures worker.ipcRecv.arrived == old(worker.ipcRecv.arrived)
      ensures header.Some? <==> old(worker.ipcRecv.pos) + 4 <= |worker.ipcRecv.arrived|
      ensures header.None? ==> State() == old(State())
      ensures header.Some? ==> header.value == worker.ipcRecv.arrived[old(worker.ipcRecv.pos)..old(worker.ipcRecv.pos) + 4]
      ensures header.Some? ==> State() == GotLength(old(State()), header.value)
    {
      ghost var s := State();
      var rd := worker.ipcRecv;
      ghost var h: seq<byte> := [];
      if rd.pos + 4 <= |rd.arrived| {
        h := rd.arrived[rd.pos..rd.pos + 4];
        GotLengthKeepsInv(s, decode, sendBase, h);
      }
      header := rd.Read(4);
      if header.None? {
        assert State() == s;
        return;
      }
      assert header.value == h;
      ghost var c := Consumed();
      assert c == s.consumed + h;
      loop := AwaitPayload(loop.entry, LeUint32(header.value));
      assert Consumed() == c;
      assert State() == GotLength(s, h);
    }

    /**
     * The await of the payload completes, once it has all arrived, and
     * `payload` is those bytes: settle the entry that was sent, then go back
     * to the loop head. Until then (None) nothing changes.
     */
    method ResumePayload() returns (payload: Option<seq<byte>>)
      requires Settled() && loop.AwaitPayload?
      modifies this, worker.ipcSend, worker.ipcRecv
      ensures Settled()
      ensures worker.ipcRecv.arrived == old(worker.ipcRecv.arrived)
      ensures payload.Some? <==> old(worker.ipcRecv.pos) + old(loop).len <= |worker.ipcRecv.arrived|
      ensures payload.None? ==> State() == old(State())
      ensures payload.Some? ==>
        payload.value == worker.ipcRecv.arrived[old(worker.ipcRecv.pos)..old(worker.ipcRecv.pos) + old(loop).len]
      ensures payload.Some? ==> State() == GotPayload(old(State()), decode, payload.value)
    {
      var rd := worker.ipcRecv;
      if |rd.arrived| < rd.pos + loop.len {
        return None;
      }
      GotPayloadKeepsInv(State(), decode, sendBase, rd.arrived[rd.pos..rd.pos + loop.len]);
      var p := ReadAndSettle();
      return Some(p);
    }

    /**
     * The payload await completing: read the payload p, resolve the entry
     * that was sent with parseRoot(decode(p)) and go back to the loop head;
     * if either throws, the loop is stuck.
     */
    method ReadAndSettle() returns (p: seq<byte>)
      requires CursorOk() && loop.AwaitPayload? && worker.ipcRecv.pos + loop.len <= |worker.ipcRecv.arrived|
      modifies this, worker.ipcSend, worker.ipcRecv
      ensures CursorOk() && worker.ipcRecv.arrived == old(worker.ipcRecv.arrived)
      ensures p == worker.ipcRecv.arrived[old(worker.ipcRecv.pos)..old(worker.ipcRecv.pos) + old(loop).len]
      ensures State() == GotPayload(old(State()), decode, p)
    {
      ghost var s := State();
      var e := loop.entry;
      var r := worker.ipcRecv.Read(loop.len);
      p := r.value;
      assert Consumed() == s.consumed + p;
      var v := Settle(decode, e.validator, p);
      if v.None? {
        responses, trace, loop := responses + [p], trace + [ReadBack(e.ticket)], Stuck;
        assert State() == GotPayload(s, decode, p);
        return;
      }
      responses, trace, resolved, loop :=
        responses + [p], trace + [ReadBack(e.ticket)], resolved + [Resolution(e.ticket, v.value)], Running;
      assert State() == Resolved(s, p, v.value);
      RunLoop();
      assert State() == LoopHead(Resolved(s, p, v.value));
    }
  }
}
