/**
 * The Python worker (python/msgpipe/__init__.py): it writes the readiness
 * byte, then forever reads a request frame, decodes it, routes it by its
 * `$type` to a registered handler and writes the framed response.
 *
 * The user's request classes and handler functions, and msgpack itself,
 * are function-valued parameters; an exception they raise is a None result.
 * An exception ends `begin_loop`, so the worker stops with an error.
 */
module Msgpipe {
  import opened Basics
  import opened Wire
  import opened Codec

  // ---------------------------------------------------------------------
  // The worker's end of the host-to-worker pipe, and _ensure_read
  // ---------------------------------------------------------------------

  /**
   * A blocking binary reader over everything the host writes to the pipe.
   * `rd.read(k)` returns between one and k bytes while any remain; how many
   * is not under the reader's control, so the i-th call delivers at most
   * 1 + grant(i). At the end of the data it returns nothing.
   */
  class Reader {
    const data: seq<byte>
    const grant: nat -> nat
    var pos: nat
    var calls: nat
    ghost var log: seq<seq<byte>>   // what each call returned, in order

    ghost predicate Valid()
      reads this
    {
      pos <= |data|
    }

    constructor (data: seq<byte>, grant: nat -> nat)
      ensures Valid() && this.data == data && this.grant == grant && pos == 0 && calls == 0 && log == []
    {
      this.data, this.grant := data, grant;
      pos, calls, log := 0, 0, [];
    }

    /** `read(k)`: the next bytes, never more than k and at least one if k > 0 and any remain. */
    method Read(k: nat) returns (b: seq<byte>)
      requires Valid()
      modifies this
      ensures Valid() && calls == old(calls) + 1
      ensures pos == old(pos) + Min(Min(k, |data| - old(pos)), 1 + grant(old(calls)))
      ensures b == data[old(pos)..pos] && log == old(log) + [b]
    {
      var m := Min(Min(k, |data| - pos), 1 + grant(calls));
      b := data[pos..pos + m];
      pos, calls, log := pos + m, calls + 1, log + [b];
    }
  }

  /** The chunks, back to back. */
  function Concat(chunks: seq<seq<byte>>): seq<byte> {
    if chunks == [] then [] else Concat(chunks[..|chunks| - 1]) + chunks[|chunks| - 1]
  }

  /**
   * `_ensure_read(rd, n)`: read until exactly n bytes have been collected.
   * The source spins forever at the end of the data, so n bytes must remain.
   * The ghost `chunks` are the results of the individual reads, as the
   * reader's log records them.
   */
  method EnsureRead(rd: Reader, n: nat) returns (b: seq<byte>, ghost chunks: seq<seq<byte>>)
    requires rd.Valid() && rd.pos + n <= |rd.data|
    modifies rd
    ensures rd.Valid() && rd.pos == old(rd.pos) + n
    ensures |b| == n && b == rd.data[old(rd.pos)..old(rd.pos) + n]
    ensures b == Concat(chunks) && forall i :: 0 <= i < |chunks| ==> chunks[i] != []
    ensures rd.log == old(rd.log) + chunks
  {
    b, chunks := [], [];
    while |b| < n
      invariant rd.Valid() && |b| <= n && rd.pos == old(rd.pos) + |b|
      invariant b == rd.data[old(rd.pos)..rd.pos]
      invariant b == Concat(chunks) && forall i :: 0 <= i < |chunks| ==> chunks[i] != []
      invariant rd.log == old(rd.log) + chunks
      decreases n - |b|
    {
      var chunk := rd.Read(n - |b|);
      assert chunks + [chunk] != [] && (chunks + [chunk])[..|chunks|] == chunks;
      b, chunks := b + chunk, chunks + [chunk];
    }
  }

  // ---------------------------------------------------------------------
  // One request: decode, route by `$type`, call the handler, encode
  // ---------------------------------------------------------------------

  /** `cls(**fields)`: the request object, or None where the constructor raises. */
  type RequestClass = map<string, Value> -> Option<Value>

  /** `fn(req)`: the response, or None where the handler raises. */
  type Callback = Value -> Option<Value>

  /** The pair `(cls, fn)` registered under a type name. */
  datatype Handler = Handler(cls: RequestClass, fn: Callback)

  /** Why a request ended `begin_loop`. */
  datatype WorkerError =
    | UnpackFailed   // msgpack.unpackb raised
    | NotAMap        // `assert type(input_raw) is dict`
    | MissingType    // `pop("$type")` raised KeyError
    | UnknownType    // no handler under that `$type` value
    | BadRequest     // `cls(**input_raw)` raised
    | HandlerFailed  // `fn(req)` raised
    | PackFailed     // msgpack.packb raised
    | TooLong        // `to_bytes(4, ...)` raised OverflowError

  /** A handler on the request's remaining fields: build the request, call the handler, pack the result. */
  function Invoke(h: Handler, fields: map<string, Value>, packb: Encoder): Result<seq<byte>, WorkerError>
  {
    match h.cls(fields)
    case None => Err(BadRequest)
    case Some(req) =>
      match h.fn(req)
      case None => Err(HandlerFailed)
      case Some(res) =>
        match packb(res)
        case None => Err(PackFailed)
        case Some(raw) => Ok(raw)
  }

  /**
   * The response payload for one request payload: it must decode to a map
   * with a `$type` naming a registered handler, which then gets every other
   * field of the map.
   */
  function Dispatch(handlers: map<string, Handler>, unpackb: Decoder, packb: Encoder, payload: seq<byte>)
    : Result<seq<byte>, WorkerError>
  {
    match unpackb(payload)
    case None => Err(UnpackFailed)
    case Some(v) =>
      if !v.Map? then Err(NotAMap)
      else if TypeKey !in v.fields then Err(MissingType)
      else
        var typ := v.fields[TypeKey];
        if !typ.Str? || typ.s !in handlers then Err(UnknownType)
        else Invoke(handlers[typ.s], v.fields - {TypeKey}, packb)
  }

  /** The `$type` a payload names, when it decodes to a map whose `$type` is a string. */
  function TypeOf(unpackb: Decoder, payload: seq<byte>): Option<string> {
    match unpackb(payload)
    case Some(Map(fields)) =>
      if TypeKey in fields && fields[TypeKey].Str? then Some(fields[TypeKey].s) else None
    case _ => None
  }

  /**
   * After registering h under typ, a request of type typ goes to h with its
   * other fields, and every other payload is dispatched as before.
   */
  lemma LatestRegistrationWins(handlers: map<string, Handler>, typ: string, h: Handler,
                               unpackb: Decoder, packb: Encoder, payload: seq<byte>)
    ensures TypeOf(unpackb, payload) == Some(typ) ==>
      Dispatch(handlers[typ := h], unpackb, packb, payload)
        == Invoke(h, unpackb(payload).value.fields - {TypeKey}, packb)
    ensures TypeOf(unpackb, payload) != Some(typ) ==>
      Dispatch(handlers[typ := h], unpackb, packb, payload) == Dispatch(handlers, unpackb, packb, payload)
  {
  }

  /**
   * A payload is answered only by the handler registered under the `$type`
   * it names, given every other field; a payload that names no registered
   * type is refused for why it names none.
   */
  lemma DispatchRoutesByType(handlers: map<string, Handler>, unpackb: Decoder, packb: Encoder, payload: seq<byte>)
    ensures var t := TypeOf(unpackb, payload);
      t.Some? && t.value in handlers ==>
        Dispatch(handlers, unpackb, packb, payload)
          == Invoke(handlers[t.value], unpackb(payload).value.fields - {TypeKey}, packb)
    ensures TypeOf(unpackb, payload).None? ==>
      Dispatch(handlers, unpackb, packb, payload) in {Err(UnpackFailed), Err(NotAMap), Err(MissingType), Err(UnknownType)}
    ensures var t := TypeOf(unpackb, payload);
      t.Some? && t.value !in handlers ==> Dispatch(handlers, unpackb, packb, payload) == Err(UnknownType)
  {
  }

  // ---------------------------------------------------------------------
  // The loop of begin_loop, as a function of the bytes the host writes
  // ---------------------------------------------------------------------

  /** How the loop answers one request payload. */
  type Answer = seq<byte> -> Result<seq<byte>, WorkerError>

  /** The worker's answer: Dispatch over its handler table and codec. */
  function Answerer(handlers: map<string, Handler>, unpackb: Decoder, packb: Encoder): Answer
  {
    p => Dispatch(handlers, unpackb, packb, p)
  }

  /** Why serving stopped. */
  datatype Stop =
    | Blocked(header: seq<byte>)                       // waiting for bytes that never come; `header` already read
    | Failed(request: seq<byte>, error: WorkerError)  // a request raised
    | OutOfRounds                                      // the model's bound on the endless loop

  /** One pass of the loop body on the unread bytes `input`. */
  datatype Pass =
    | Answered(request: seq<byte>, response: seq<byte>, rest: seq<byte>)
    | Halt(rest: seq<byte>, stop: Stop)

  /** What the frame read at the top of the loop body takes from the unread bytes. */
  datatype Intake =
    | Whole(request: seq<byte>, rest: seq<byte>)  // a length L and then L bytes
    | Partial(header: seq<byte>, rest: seq<byte>) // blocked; the length, if it was there, already read

  /** Read 4 bytes as the length L, then L bytes; blocked as soon as either read lacks bytes. */
  function ReadFrame(input: seq<byte>): Intake
  {
    if |input| < 4 then Partial([], input)
    else
      var n := LeUint32(input[..4]);
      if |input| - 4 < n then Partial(input[..4], input[4..])
      else Whole(input[4..4 + n], input[4 + n..])
  }

  /** The frame read takes exactly one frame when there is one, and otherwise leaves the bytes in place. */
  lemma ReadFrameParses(input: seq<byte>)
    ensures var i := ReadFrame(input);
      && (i.Whole? <==> ParseFrame(input).Some?)
      && (i.Whole? ==> ParseFrame(input) == Some((i.request, i.rest)))
      && (i.Partial? ==> input == i.header + i.rest && (|i.header| == 0 || |i.header| == 4))
  {
  }

  /**
   * One pass: read a request frame and answer it. The pass fails if the
   * answer raises or is too long to frame.
   */
  function Serve1(answer: Answer, input: seq<byte>): Pass
  {
    match ReadFrame(input)
    case Partial(header, rest) => Halt(rest, Blocked(header))
    case Whole(request, rest) =>
      match answer(request)
      case Err(e) => Halt(rest, Failed(request, e))
      case Ok(response) =>
        if Fits(response) then Answered(request, response, rest) else Halt(rest, Failed(request, TooLong))
  }

  /** The answer to `request` raised `error`, or was too long to frame. */
  predicate Refused(answer: Answer, request: seq<byte>, error: WorkerError) {
    match answer(request)
    case Err(e) => error == e
    case Ok(raw) => !Fits(raw) && error == TooLong
  }

  /** A pass answers with the answer to the request it read, or stops because of it. */
  lemma Serve1Answers(answer: Answer, input: seq<byte>)
    ensures var r := Serve1(answer, input);
      && (r.Answered? ==> answer(r.request) == Ok(r.response) && Fits(r.response))
      && (r.Halt? ==> !r.stop.OutOfRounds?)
      && (r.Halt? && r.stop.Failed? ==> Refused(answer, r.stop.request, r.stop.error))
  {
  }

  /**
   * A pass reads one whole request frame, or blocks exactly when no whole
   * frame remains.
   */
  lemma Serve1Reads(answer: Answer, input: seq<byte>)
    ensures var r := Serve1(answer, input);
      && (r.Answered? ==> Fits(r.request) && input == Frame(r.request) + r.rest)
      && (r.Halt? && r.stop.Failed? ==> Fits(r.stop.request) && input == Frame(r.stop.request) + r.rest)
      && (r.Halt? && r.stop.Blocked? ==> input == r.stop.header + r.rest && ParseFrame(input) == None)
  {
    ReadFrameParses(input);
    if ReadFrame(input).Whole? {
      FrameOfParseFrame(input);
    }
  }

  /** The requests answered, their responses, the bytes left unread, and why serving stopped. */
  datatype Served = Served(requests: seq<seq<byte>>, responses: seq<seq<byte>>, rest: seq<byte>, stop: Stop)

  /** Up to `rounds` passes of the loop. */
  function Serve(answer: Answer, input: seq<byte>, rounds: nat)
    : (sv: Served)
    ensures |sv.requests| == |sv.responses| <= rounds
    ensures AllFit(sv.requests) && AllFit(sv.responses)
  {
    if rounds == 0 then Served([], [], input, OutOfRounds)
    else
      match Serve1(answer, input)
      case Halt(rest, stop) => Served([], [], rest, stop)
      case Answered(request, response, rest) =>
        Extend([request], [response], Serve(answer, rest, rounds - 1))
  }

  /** Serving that first answered `requests` with `responses`, then went on as sv. */
  function Extend(requests: seq<seq<byte>>, responses: seq<seq<byte>>, sv: Served): Served {
    Served(requests + sv.requests, responses + sv.responses, sv.rest, sv.stop)
  }

  /** Unfolding Serve after a pass that answered; m is the number of rounds left after it. */
  lemma ServeAnswered(answer: Answer, input: seq<byte>, n: nat, m: nat)
    requires n == m + 1 && Serve1(answer, input).Answered?
    ensures var r := Serve1(answer, input);
      Serve(answer, input, n) == Extend([r.request], [r.response], Serve(answer, r.rest, m))
  {
  }

  /** Unfolding Serve after a pass that halted. */
  lemma ServeHalted(answer: Answer, input: seq<byte>, n: nat)
    requires n > 0 && Serve1(answer, input).Halt?
    ensures var r := Serve1(answer, input);
      Serve(answer, input, n) == Served([], [], r.rest, r.stop)
  {
  }

  lemma ExtendNothing(requests: seq<seq<byte>>, responses: seq<seq<byte>>, rest: seq<byte>, stop: Stop)
    ensures Extend(requests, responses, Served([], [], rest, stop)) == Served(requests, responses, rest, stop)
  {
    assert requests + [] == requests && responses + [] == responses;
  }

  lemma ExtendExtend(requests: seq<seq<byte>>, responses: seq<seq<byte>>, request: seq<byte>, response: seq<byte>, sv: Served)
    ensures Extend(requests, responses, Extend([request], [response], sv))
         == Extend(requests + [request], responses + [response], sv)
  {
    AppendAssoc(requests, [request], sv.requests);
    AppendAssoc(responses, [response], sv.responses);
  }

  /** Serving runs out of rounds only after answering `rounds` requests. */
  lemma {:induction false} ServeUsesRounds(answer: Answer, input: seq<byte>, rounds: nat)
    ensures Serve(answer, input, rounds).stop.OutOfRounds? ==> |Serve(answer, input, rounds).requests| == rounds
  {
    if rounds > 0 {
      var r := Serve1(answer, input);
      Serve1Answers(answer, input);
      if r.Answered? {
        ServeAnswered(answer, input, rounds, rounds - 1);
        ServeUsesRounds(answer, r.rest, rounds - 1);
      } else {
        ServeHalted(answer, input, rounds);
      }
    }
  }

  /** Every request served got its answer, in order, and serving fails only on a request that is refused. */
  lemma {:induction false} ServeAnswers(answer: Answer, input: seq<byte>, rounds: nat)
    ensures var sv := Serve(answer, input, rounds);
      forall i :: 0 <= i < |sv.requests| ==> answer(sv.requests[i]) == Ok(sv.responses[i])
    ensures var sv := Serve(answer, input, rounds);
      sv.stop.Failed? ==> Refused(answer, sv.stop.request, sv.stop.error)
  {
    if rounds > 0 {
      var r := Serve1(answer, input);
      Serve1Answers(answer, input);
      if r.Answered? {
        ServeAnswers(answer, r.rest, rounds - 1);
      }
    }
  }

  /**
   * The bytes a serving read are its request frames, back to back, then
   * (if a request failed) that request's frame, or (if blocked) the part of
   * the next frame that is there, which is not a whole frame; what it left
   * unread follows.
   */
  ghost predicate ReadsFrames(input: seq<byte>, sv: Served)
    requires AllFit(sv.requests)
  {
    match sv.stop
    case OutOfRounds => input == Frames(sv.requests) + sv.rest
    case Failed(request, _) => Fits(request) && input == Frames(sv.requests) + (Frame(request) + sv.rest)
    case Blocked(header) =>
      input == Frames(sv.requests) + (header + sv.rest) && ParseFrame(header + sv.rest) == None
  }

  /** A request frame in front of what a serving read makes one more request it read. */
  lemma ReadsOneMore(request: seq<byte>, response: seq<byte>, rest: seq<byte>, sv: Served)
    requires Fits(request) && AllFit(sv.requests) && ReadsFrames(rest, sv)
    ensures AllFit([request] + sv.requests)
    ensures ReadsFrames(Frame(request) + rest, Extend([request], [response], sv))
  {
    FramesCons(request, sv.requests);
    match sv.stop
    case OutOfRounds =>
      AppendAssoc(Frame(request), Frames(sv.requests), sv.rest);
    case Failed(failed, _) =>
      AppendAssoc(Frame(request), Frames(sv.requests), Frame(failed) + sv.rest);
    case Blocked(header) =>
      AppendAssoc(Frame(request), Frames(sv.requests), header + sv.rest);
  }

  /**
   * Serving reads the input as frames: ReadsFrames holds of what it
   * answered and where it stopped, so it blocks only when no whole frame
   * remains.
   */
  lemma {:induction false} ServeReadsFrames(answer: Answer, input: seq<byte>, rounds: nat)
    ensures ReadsFrames(input, Serve(answer, input, rounds))
  {
    if rounds == 0 {
      assert Frames([]) + input == input;
    } else if Serve1(answer, input).Answered? {
      ServeReadsFrames(answer, Serve1(answer, input).rest, rounds - 1);
      ReadsAfterAnswer(answer, input, rounds, rounds - 1);
    } else {
      ReadsAfterHalt(answer, input, rounds);
    }
  }

  lemma ReadsAfterAnswer(answer: Answer, input: seq<byte>, n: nat, m: nat)
    requires n == m + 1 && Serve1(answer, input).Answered?
    requires ReadsFrames(Serve1(answer, input).rest, Serve(answer, Serve1(answer, input).rest, m))
    ensures ReadsFrames(input, Serve(answer, input, n))
  {
    var r := Serve1(answer, input);
    Serve1Reads(answer, input);
    ServeAnswered(answer, input, n, m);
    ReadsOneMore(r.request, r.response, r.rest, Serve(answer, r.rest, m));
  }

  lemma ReadsAfterHalt(answer: Answer, input: seq<byte>, n: nat)
    requires n > 0 && Serve1(answer, input).Halt?
    ensures ReadsFrames(input, Serve(answer, input, n))
  {
    Serve1Reads(answer, input);
    Serve1Answers(answer, input);
    ServeHalted(answer, input, n);
    assert Frames([]) == [];
  }

  // ---------------------------------------------------------------------
  // The worker object
  // ---------------------------------------------------------------------

  /** `PyIpc`: the two pipes and the handler table. */
  class PyIpc {
    const ipcRecv: Reader
    const unpackb: Decoder
    const packb: Encoder
    var ipcSend: seq<byte>
    var handlers: map<string, Handler>

    /** `PyIpc()`: no handlers, nothing written yet. */
    constructor (ipcRecv: Reader, unpackb: Decoder, packb: Encoder)
      ensures this.ipcRecv == ipcRecv && this.unpackb == unpackb && this.packb == packb
      ensures ipcSend == [] && handlers == map[]
    {
      this.ipcRecv, this.unpackb, this.packb := ipcRecv, unpackb, packb;
      ipcSend, handlers := [], map[];
    }

    /** `add_handler(typ, cls, handler)`: register under typ, replacing an earlier entry; returns self. */
    method AddHandler(typ: string, cls: RequestClass, fn: Callback) returns (self: PyIpc)
      modifies this
      ensures self == this && handlers == old(handlers)[typ := Handler(cls, fn)]
      ensures ipcSend == old(ipcSend)
    {
      handlers := handlers[typ := Handler(cls, fn)];
      self := this;
    }

    /**
     * The frame read at the top of the loop body: 4 bytes, read as an
     * unsigned little-endian length, then that many bytes. Where the source
     * would wait for bytes that never come, the read stops instead.
     */
    method ReadRequest() returns (intake: Intake)
      requires ipcRecv.Valid()
      modifies ipcRecv
      ensures ipcRecv.Valid() && intake == ReadFrame(old(ipcRecv.data[ipcRecv.pos..]))
      ensures ipcRecv.data[ipcRecv.pos..] == intake.rest
    {
      var rd := ipcRecv;
      ghost var input := rd.data[rd.pos..];
      if |rd.data| - rd.pos < 4 {
        return Partial([], rd.data[rd.pos..]);
      }
      var header, _ := EnsureRead(rd, 4);
      assert header == input[..4];
      var n := LeUint32(header);
      if |rd.data| - rd.pos < n {
        return Partial(header, rd.data[rd.pos..]);
      }
      var request, _ := EnsureRead(rd, n);
      assert request == input[4..4 + n] && rd.data[rd.pos..] == input[4 + n..];
      return Whole(request, rd.data[rd.pos..]);
    }

    /**
     * One pass of the loop body: read a length and that many bytes, answer
     * them and write the response frame. Where the source would block on
     * bytes that never come, or raises, the pass halts instead.
     */
    method ServeRequest() returns (r: Pass)
      requires ipcRecv.Valid()
      modifies this, ipcRecv
      ensures ipcRecv.Valid() && handlers == old(handlers)
      ensures r == Serve1(Answerer(handlers, unpackb, packb), old(ipcRecv.data[ipcRecv.pos..]))
      ensures ipcRecv.data[ipcRecv.pos..] == r.rest
      ensures r.Answered? ==> ipcSend == old(ipcSend) + Frame(r.response)
      ensures r.Halt? ==> ipcSend == old(ipcSend)
    {
      var intake := ReadRequest();
      if intake.Partial? {
        r := Halt(intake.rest, Blocked(intake.header));
      } else {
        var response := Dispatch(handlers, unpackb, packb, intake.request);
        if response.Err? {
          r := Halt(intake.rest, Failed(intake.request, response.error));
        } else {
          var prefix := EncodeLength(|response.value|);
          if prefix.None? {
            r := Halt(intake.rest, Failed(intake.request, TooLong));
          } else {
            ipcSend := ipcSend + prefix.value;
            ipcSend := ipcSend + response.value;
            r := Answered(intake.request, response.value, intake.rest);
          }
        }
      }
    }

    /**
     * `begin_loop`: write the readiness byte, then serve requests, here for
     * at most `rounds` passes. The send pipe ends up holding the readiness
     * byte followed by the response frames.
     */
    method BeginLoop(rounds: nat) returns (stop: Stop)
      requires ipcRecv.Valid()
      modifies this, ipcRecv
      ensures ipcRecv.Valid() && handlers == old(handlers)
      ensures var sv := Serve(Answerer(handlers, unpackb, packb), old(ipcRecv.data[ipcRecv.pos..]), rounds);
        && stop == sv.stop
        && ipcSend == old(ipcSend) + [ReadyByte] + Frames(sv.responses)
        && ipcRecv.data[ipcRecv.pos..] == sv.rest
    {
      ghost var input := ipcRecv.data[ipcRecv.pos..];
      ghost var answer := Answerer(handlers, unpackb, packb);
      ghost var base := ipcSend;
      ghost var requests: seq<seq<byte>> := [];
      ghost var responses: seq<seq<byte>> := [];
      ghost var unread := input;
      ipcSend := ipcSend + [ReadyByte];
      var left := rounds;
      while left > 0
        invariant ipcRecv.Valid() && handlers == old(handlers)
        invariant AllFit(responses) && ipcSend == base + [ReadyByte] + Frames(responses)
        invariant ipcRecv.data[ipcRecv.pos..] == unread
        invariant Serve(answer, input, rounds) == Extend(requests, responses, Serve(answer, unread, left))
        decreases left
      {
        ghost var left0 := left;
        var r := ServeRequest();
        if r.Halt? {
          ServeHalted(answer, unread, left);
          ExtendNothing(requests, responses, r.rest, r.stop);
          stop := r.stop;
          break;
        }
        left := left - 1;
        ServeAnswered(answer, unread, left0, left);
        ExtendExtend(requests, responses, r.request, r.response, Serve(answer, r.rest, left));
        FramesAppend(responses, r.response);
        AppendAssoc(base + [ReadyByte], Frames(responses), Frame(r.response));
        requests, responses, unread := requests + [r.request], responses + [r.response], r.rest;
      }
      if left == 0 {
        ExtendNothing(requests, responses, unread, OutOfRounds);
        stop := OutOfRounds;
      }
    }
  }
}
