/**
 * The host's queue and the worker's loop on the two ends of the same pair
 * of IPC pipes: the host's send pipe (fd 3) is the worker's `ipc_recv`,
 * and the worker's `ipc_send` (fd 4), after its ready byte, is what the
 * host's queue reads. The worker is given any prefix of what the host has
 * written; the host reads any prefix of what the worker wrote back.
 */
module Link {
  import opened Basics
  import opened Wire
  import opened Codec
  import opened QueueSpec
  import M = Msgpipe

  /** The request envelope reaches the handler registered under its type, with every field but `$type`. */
  lemma DispatchOfEnvelope(handlers: map<string, M.Handler>, unpackb: Decoder, packb: Encoder, encode: Encoder,
                           request: map<string, Value>, typ: string)
    requires encode(Envelope(request, typ)).Some?
    requires unpackb(encode(Envelope(request, typ)).value) == Some(Envelope(request, typ))
    ensures typ in handlers ==>
      M.Dispatch(handlers, unpackb, packb, encode(Envelope(request, typ)).value)
        == M.Invoke(handlers[typ], request - {TypeKey}, packb)
    ensures typ !in handlers ==>
      M.Dispatch(handlers, unpackb, packb, encode(Envelope(request, typ)).value) == Err(M.UnknownType)
  {
    assert Envelope(request, typ).fields - {TypeKey} == request - {TypeKey};
  }

  /** What follows the request frames in the bytes a serving read. */
  ghost function Trailer(sv: M.Served): seq<byte>
    requires sv.stop.Failed? ==> Fits(sv.stop.request)
  {
    match sv.stop
    case OutOfRounds => sv.rest
    case Failed(request, _) => Frame(request) + sv.rest
    case Blocked(header) => header + sv.rest
  }

  /** The requests the worker served from a prefix of the host's send pipe are the first requests the host sent. */
  lemma WorkerServesWhatWasSent(s: Snapshot, decode: Decoder, answer: M.Answer, input: seq<byte>, rounds: nat)
    requires Inv(s, decode, []) && input <= s.written
    ensures var sv := M.Serve(answer, input, rounds);
      |sv.requests| <= |s.sent| && sv.requests == s.sent[..|sv.requests|]
  {
    var sv := M.Serve(answer, input, rounds);
    M.ServeReadsFrames(answer, input, rounds);
    var x := Trailer(sv);
    assert input == Frames(sv.requests) + x;
    var w := s.written[|input|..];
    PrefixSplit(input, s.written);
    assert s.written == Frames(s.sent);
    AppendAssoc(Frames(sv.requests), x, w);
    FramesPrefix(sv.requests, s.sent, x + w);
  }

  /** The bytes the queue has read are the response frames it read, and mid-read one length prefix. */
  lemma ConsumedIsResponseFrames(s: Snapshot, decode: Decoder, sendBase: seq<byte>)
    requires Inv(s, decode, sendBase)
    ensures AllFit(s.responses)
    ensures !s.loop.AwaitPayload? ==> s.consumed == Frames(s.responses)
    ensures s.loop.AwaitPayload? ==> s.loop.len < LengthLimit && s.consumed == Frames(s.responses) + Uint32Le(s.loop.len)
  {
  }

  /** Frames, then anything, read from the start of other frames are the first of those. */
  lemma FramesReadFrom(ps: seq<seq<byte>>, z: seq<byte>, read: seq<byte>, qs: seq<seq<byte>>)
    requires AllFit(ps) && AllFit(qs) && read == Frames(ps) + z && read <= Frames(qs)
    ensures |ps| <= |qs| && ps == qs[..|ps|]
  {
    var y := Frames(qs)[|read|..];
    PrefixSplit(read, Frames(qs));
    AppendAssoc(Frames(ps), z, y);
    FramesPrefix(ps, qs, z + y);
  }

  /** The responses the host's queue read from a prefix of the worker's `ipc_send` are the first responses the worker wrote. */
  lemma HostReadsWhatWasServed(s: Snapshot, decode: Decoder, sendBase: seq<byte>, responses: seq<seq<byte>>)
    requires Inv(s, decode, sendBase) && AllFit(responses) && s.consumed <= Frames(responses)
    ensures |s.responses| <= |responses| && s.responses == responses[..|s.responses|]
  {
    ConsumedIsResponseFrames(s, decode, sendBase);
    if s.loop.AwaitPayload? {
      FramesReadFrom(s.responses, Uint32Le(s.loop.len), s.consumed, responses);
    } else {
      FramesReadFrom(s.responses, [], s.consumed, responses);
    }
  }

  /**
   * End to end: every promise the host's queue has resolved was resolved
   * with the validated response of the worker to the very request that
   * promise was created for.
   */
  lemma RepliesReachTheirCallers(s: Snapshot, decode: Decoder, answer: M.Answer, input: seq<byte>, rounds: nat)
    requires Inv(s, decode, []) && input <= s.written
    requires s.consumed <= Frames(M.Serve(answer, input, rounds).responses)
    ensures forall k :: 0 <= k < |s.resolved| ==>
      && s.resolved[k].ticket == s.pushed[k].ticket
      && answer(s.pushed[k].request).Ok?
      && Settle(decode, s.pushed[k].validator, answer(s.pushed[k].request).value) == Some(s.resolved[k].value)
  {
    var sv := M.Serve(answer, input, rounds);
    WorkerServesWhatWasSent(s, decode, answer, input, rounds);
    HostReadsWhatWasServed(s, decode, [], sv.responses);
    M.ServeAnswers(answer, input, rounds);
    forall k | 0 <= k < |s.resolved|
      ensures && s.resolved[k].ticket == s.pushed[k].ticket
              && answer(s.pushed[k].request) == Ok(s.responses[k])
    {
      assert s.responses[k] == sv.responses[k];
      assert s.pushed[k].request == s.sent[k] == sv.requests[k];
    }
  }
}
