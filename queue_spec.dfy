/**
 * The host's request queue (createPyIpcQueue in nodejs/src/main.ts).
 *
 * The source is an async closure over a FIFO array and a re-entrancy flag.
 * Here the closure is the class IpcQueue, and the cooperative interleaving
 * is a set of atomic steps: `Request` (push, then maybeStartQueueLoop, which
 * runs synchronously up to its first await), `ResumeLength` and
 * `ResumePayload` (the two awaits of the dispatch loop completing). Between
 * steps, any number of other `Request` calls may run.
 *
 * Each step is specified by a transition function on a Snapshot of the
 * queue's state; the invariant Inv, which every transition preserves,
 * states FIFO attribution, the framing of both pipes and that at most one
 * round trip is outstanding.
 */
module QueueSpec {
  import opened Basics
  import opened Wire
  import opened Codec
  import opened Host

  /** A response validator's parseRoot: the typed value, or None where it throws. */
  type Validator = Value -> Option<Value>

  /**
   * The request envelope `{...request, $type: typ}`: every field of the
   * request, with `$type` written last so that it overrides a field of that name.
   */
  function Envelope(request: map<string, Value>, typ: string): (v: Value)
    ensures v.Map? && v.fields.Keys == request.Keys + {TypeKey}
    ensures v.fields[TypeKey] == Str(typ)
    ensures forall k :: k in request && k != TypeKey ==> v.fields[k] == request[k]
  {
    Map(request[TypeKey := Str(typ)])
  }

  /** A queue entry: the encoded request, the promise it settles (by ticket) and its validator. */
  datatype Pending = Pending(request: seq<byte>, ticket: nat, validator: Validator)

  /** One call of an entry's `resolve`. */
  datatype Resolution = Resolution(ticket: nat, value: Value)

  /** One frame on the channel, and the request it belongs to. */
  datatype WireOp = Wrote(ticket: nat) | ReadBack(ticket: nat)

  /** Where the dispatch loop (the body of maybeStartQueueLoop) is. */
  datatype LoopState =
    | Idle                                   // not running
    | Running                                // at `while (queue.length)`; never seen between steps
    | AwaitLength(entry: Pending)            // suspended reading the 4-byte response length
    | AwaitPayload(entry: Pending, len: nat) // suspended reading the response payload
    | Stuck                                  // an exception left the loop; queueLoopStarted stays true

  /** `parseRoot(decode(payload))`; None where either throws. */
  function Settle(decode: Decoder, validator: Validator, payload: seq<byte>): Option<Value>
  {
    match decode(payload)
    case None => None
    case Some(v) => validator(v)
  }

  /** The i-th frame on a channel where every write is followed by its read before the next write. */
  function NthOp(i: nat): WireOp {
    if i % 2 == 0 then Wrote(i / 2) else ReadBack(i / 2)
  }

  // ---------------------------------------------------------------------
  // The queue's state as a value, and its invariant
  // ---------------------------------------------------------------------

  /**
   * The queue's fields, its ghost history, the bytes written to the send
   * pipe and the bytes the queue has read from the receive pipe.
   */
  datatype Snapshot = Snapshot(
    started: bool,                // queueLoopStarted
    queue: seq<Pending>,          // the FIFO array
    loop: LoopState,              // where the dispatch loop is
    nextTicket: nat,              // the next promise to be created
    resolved: seq<Resolution>,    // the resolve calls so far, in order
    pushed: seq<Pending>,         // every entry ever pushed, in order
    shifted: nat,                 // how many of them the loop has taken off the queue
    sent: seq<seq<byte>>,         // the payloads of the request frames written
    responses: seq<seq<byte>>,    // the payloads of the response frames read
    trace: seq<WireOp>,           // the frames on the channel, in order
    written: seq<byte>,           // the send pipe
    consumed: seq<byte>)          // what the queue has read from the receive pipe

  /** Entry k was pushed k-th and carries ticket k; the queue is what the loop has not yet taken. */
  ghost predicate Tickets(s: Snapshot) {
    && |s.pushed| == s.nextTicket
    && (forall i :: 0 <= i < |s.pushed| ==> s.pushed[i].ticket == i)
    && |s.resolved| <= |s.responses| <= |s.sent| <= s.shifted <= |s.pushed|
    && s.queue == s.pushed[s.shifted..]
  }

  /** The send pipe holds the frames of the entries sent, in push order. */
  ghost predicate SendLog(s: Snapshot, sendBase: seq<byte>)
    requires |s.sent| <= |s.pushed|
  {
    && (forall i :: 0 <= i < |s.sent| ==> s.sent[i] == s.pushed[i].request)
    && AllFit(s.sent)
    && s.written == sendBase + Frames(s.sent)
  }

  /** The k-th response read settles the k-th entry pushed, with that entry's validator. */
  ghost predicate Attribution(s: Snapshot, decode: Decoder)
    requires |s.resolved| <= |s.responses| <= |s.pushed|
  {
    && AllFit(s.responses)
    && (forall k :: 0 <= k < |s.resolved| ==>
          s.resolved[k].ticket == k && Settle(decode, s.pushed[k].validator, s.responses[k]) == Some(s.resolved[k].value))
  }

  /** At most one round trip outstanding, and the channel log alternates write, read, write, ... */
  ghost predicate OneInFlight(s: Snapshot) {
    && |s.responses| <= |s.sent| <= |s.responses| + 1
    && |s.trace| == |s.sent| + |s.responses|
    && (forall i :: 0 <= i < |s.trace| ==> s.trace[i] == NthOp(i))
  }

  /** What each position of the dispatch loop implies. */
  ghost predicate LoopPosition(s: Snapshot)
    requires |s.resolved| <= |s.responses| <= |s.sent| <= s.shifted <= |s.pushed| && AllFit(s.responses)
  {
    match s.loop
    case Idle =>
      && !s.started
      && s.shifted == |s.sent| == |s.responses| == |s.resolved|
      && s.consumed == Frames(s.responses)
    case Running =>
      && s.started
      && s.shifted == |s.sent| == |s.responses| == |s.resolved|
      && s.consumed == Frames(s.responses)
    case AwaitLength(e) =>
      && s.started
      && s.shifted == |s.sent| == |s.responses| + 1 == |s.resolved| + 1
      && e == s.pushed[s.shifted - 1]
      && s.consumed == Frames(s.responses)
    case AwaitPayload(e, len) =>
      && s.started
      && s.shifted == |s.sent| == |s.responses| + 1 == |s.resolved| + 1
      && e == s.pushed[s.shifted - 1]
      && len < LengthLimit
      && s.consumed == Frames(s.responses) + Uint32Le(len)
    case Stuck =>
      s.started && s.consumed == Frames(s.responses)
  }

  /** The queue invariant. */
  ghost predicate Inv(s: Snapshot, decode: Decoder, sendBase: seq<byte>) {
    && Tickets(s)
    && SendLog(s, sendBase)
    && Attribution(s, decode)
    && OneInFlight(s)
    && LoopPosition(s)
  }

  /** Between two steps the loop is never at its head, and an idle loop has an empty queue. */
  ghost predicate Between(s: Snapshot) {
    s.loop != Running && (s.loop == Idle ==> s.queue == [])
  }

  // ---------------------------------------------------------------------
  // The transitions
  // ---------------------------------------------------------------------

  /** `queue.push(e)` with a fresh promise. */
  ghost function Push(s: Snapshot, e: Pending): Snapshot {
    s.(queue := s.queue + [e], pushed := s.pushed + [e], nextTicket := s.nextTicket + 1)
  }

  /**
   * One pass from `while (queue.length)` to the next await: an empty queue
   * ends the loop and clears the flag; otherwise the head is shifted and its
   * frame written, unless its length does not fit in 4 bytes, in which case
   * writeUInt32LE throws and the loop is stuck.
   */
  ghost function LoopHead(s: Snapshot): Snapshot {
    if s.queue == [] then s.(started := false, loop := Idle)
    else
      var e := s.queue[0];
      if !Fits(e.request) then s.(queue := s.queue[1..], shifted := s.shifted + 1, loop := Stuck)
      else
        s.(queue := s.queue[1..], shifted := s.shifted + 1, sent := s.sent + [e.request],
           trace := s.trace + [Wrote(e.ticket)], written := s.written + Frame(e.request),
           loop := AwaitLength(e))
  }

  /** maybeStartQueueLoop: a no-op while the flag is set; otherwise set it and run the loop head. */
  ghost function MaybeStart(s: Snapshot): Snapshot {
    if s.started then s else LoopHead(s.(started := true, loop := Running))
  }

  /** request(): push, then maybeStartQueueLoop. */
  ghost function RequestStep(s: Snapshot, e: Pending): Snapshot {
    MaybeStart(Push(s, e))
  }

  /** The await of the 4-byte length completes with `header`. */
  ghost function GotLength(s: Snapshot, header: seq<byte>): Snapshot
    requires s.loop.AwaitLength? && |header| == 4
  {
    s.(consumed := s.consumed + header, loop := AwaitPayload(s.loop.entry, LeUint32(header)))
  }

  /** The state once the awaited payload p has been read, before it is settled. */
  ghost function AfterRead(s: Snapshot, p: seq<byte>): Snapshot
    requires s.loop.AwaitPayload?
  {
    s.(consumed := s.consumed + p, responses := s.responses + [p], trace := s.trace + [ReadBack(s.loop.entry.ticket)])
  }

  /** The loop back at its head after resolving the popped entry with v. */
  ghost function Resolved(s: Snapshot, p: seq<byte>, v: Value): Snapshot
    requires s.loop.AwaitPayload?
  {
    AfterRead(s, p).(resolved := s.resolved + [Resolution(s.loop.entry.ticket, v)], loop := Running)
  }

  /**
   * The await of the payload completes with p: the popped entry is resolved
   * with parseRoot(decode(p)) and the loop goes back to its head, or, if
   * either throws, the loop is stuck and the entry is never resolved.
   */
  ghost function GotPayload(s: Snapshot, decode: Decoder, p: seq<byte>): Snapshot
    requires s.loop.AwaitPayload?
  {
    match Settle(decode, s.loop.entry.validator, p)
    case None => AfterRead(s, p).(loop := Stuck)
    case Some(v) => LoopHead(Resolved(s, p, v))
  }
}
