/**
 * The proofs about the queue's state machine: every transition of module
 * QueueSpec keeps its invariant, and what the invariant promises.
 */
module QueueProofs {
  import opened Basics
  import opened Wire
  import opened Codec
  import opened QueueSpec


  // ---------------------------------------------------------------------
  // What each transition does
  // ---------------------------------------------------------------------

  /**
   * The loop head: the loop stops (and clears the flag) exactly when the
   * queue is empty; otherwise it takes the head off the queue and writes its
   * frame, or, for a request too long for a 4-byte prefix, writes nothing
   * and is stuck. Nothing is resolved and nothing is read.
   */
  lemma LoopHeadSteps(s: Snapshot)
    ensures LoopHead(s).loop == Idle <==> s.queue == []
    ensures s.queue == [] ==> !LoopHead(s).started && LoopHead(s).written == s.written
    ensures s.queue != [] ==> LoopHead(s).queue == s.queue[1..] && LoopHead(s).started == s.started
    ensures s.queue != [] && Fits(s.queue[0].request) ==>
      && LoopHead(s).loop == AwaitLength(s.queue[0])
      && LoopHead(s).sent == s.sent + [s.queue[0].request]
      && LoopHead(s).written == s.written + Frame(s.queue[0].request)
    ensures s.queue != [] && !Fits(s.queue[0].request) ==>
      LoopHead(s).loop == Stuck && LoopHead(s).written == s.written && LoopHead(s).sent == s.sent
    ensures LoopHead(s).resolved == s.resolved && LoopHead(s).consumed == s.consumed && LoopHead(s).pushed == s.pushed
  {
  }

  /**
   * The re-entrancy guard: while the flag is set, maybeStartQueueLoop
   * changes nothing, so a second loop never starts; a request then only
   * joins the tail of the queue and writes nothing.
   */
  lemma StartIsGuarded(s: Snapshot, e: Pending)
    ensures s.started ==> MaybeStart(s) == s
    ensures s.started ==>
      && RequestStep(s, e).queue == s.queue + [e] && RequestStep(s, e).loop == s.loop
      && RequestStep(s, e).written == s.written && RequestStep(s, e).sent == s.sent
    ensures RequestStep(s, e).pushed == s.pushed + [e] && RequestStep(s, e).nextTicket == s.nextTicket + 1
    ensures RequestStep(s, e).resolved == s.resolved && RequestStep(s, e).consumed == s.consumed
  {
  }

  /**
   * A request to an idle queue starts the loop, which at once writes that
   * request's frame (when its length fits) and awaits the response.
   */
  lemma IdleRequestIsSent(s: Snapshot, e: Pending)
    requires !s.started && s.queue == [] && Fits(e.request)
    ensures RequestStep(s, e).loop == AwaitLength(e) && RequestStep(s, e).started
    ensures RequestStep(s, e).written == s.written + Frame(e.request) && RequestStep(s, e).queue == []
  {
  }

  /**
   * The payload await: the response is recorded, then either the popped
   * entry is resolved with the settled value, or, when decode or the
   * validator throws, the loop is stuck, the entry is never resolved and
   * no further request is written.
   */
  lemma GotPayloadSettles(s: Snapshot, decode: Decoder, p: seq<byte>)
    requires s.loop.AwaitPayload?
    ensures GotPayload(s, decode, p).responses == s.responses + [p]
    ensures GotPayload(s, decode, p).consumed == s.consumed + p
    ensures Settle(decode, s.loop.entry.validator, p).None? ==>
      && GotPayload(s, decode, p).loop == Stuck && GotPayload(s, decode, p).started == s.started
      && GotPayload(s, decode, p).resolved == s.resolved && GotPayload(s, decode, p).written == s.written
    ensures Settle(decode, s.loop.entry.validator, p).Some? ==>
      GotPayload(s, decode, p).resolved ==
        s.resolved + [Resolution(s.loop.entry.ticket, Settle(decode, s.loop.entry.validator, p).value)]
  {
  }

  // ---------------------------------------------------------------------
  // Every transition keeps the invariant
  // ---------------------------------------------------------------------

  /** Appending the next pushed entry's frame keeps the send log. */
  lemma SendLogAppend(s: Snapshot, sendBase: seq<byte>, e: Pending)
    requires |s.sent| < |s.pushed| && SendLog(s, sendBase) && e == s.pushed[|s.sent|] && Fits(e.request)
    ensures SendLog(s.(sent := s.sent + [e.request], written := s.written + Frame(e.request)), sendBase)
  {
    FramesAppend(s.sent, e.request);
  }

  /** A payload read after its length prefix completes one more response frame. */
  lemma ResponseAppend(responses: seq<seq<byte>>, consumed: seq<byte>, len: nat, p: seq<byte>)
    requires AllFit(responses) && len < LengthLimit && |p| == len
    requires consumed == Frames(responses) + Uint32Le(len)
    ensures AllFit(responses + [p]) && consumed + p == Frames(responses + [p])
  {
    LengthRoundTrip(len);
    HeaderThenPayload(Uint32Le(len), p);
    FramesAppend(responses, p);
    assert consumed + p == Frames(responses) + (Uint32Le(len) + p);
  }

  lemma PushKeepsInv(s: Snapshot, decode: Decoder, sendBase: seq<byte>, e: Pending)
    requires Inv(s, decode, sendBase) && s.loop != Running && e.ticket == s.nextTicket
    ensures Inv(Push(s, e), decode, sendBase)
  {
    var t := Push(s, e);
    assert t.queue == t.pushed[t.shifted..];
    assert SendLog(t, sendBase);
  }

  /** The flag is clear only while the loop is idle, so starting the loop keeps the invariant. */
  lemma StartKeepsInv(s: Snapshot, decode: Decoder, sendBase: seq<byte>)
    requires Inv(s, decode, sendBase) && !s.started
    ensures Inv(s.(started := true, loop := Running), decode, sendBase)
  {
  }

  /** An empty queue ends the loop and clears the flag. */
  lemma StopKeepsInv(s: Snapshot, decode: Decoder, sendBase: seq<byte>)
    requires Inv(s, decode, sendBase) && s.loop == Running && s.queue == []
    ensures Inv(LoopHead(s), decode, sendBase) && Between(LoopHead(s))
  {
    var t := LoopHead(s);
    assert t == s.(started := false, loop := Idle);
    assert LoopPosition(t);
  }

  /** A head whose length does not fit is shifted and never written; the loop is stuck. */
  lemma DropKeepsInv(s: Snapshot, decode: Decoder, sendBase: seq<byte>)
    requires Inv(s, decode, sendBase) && s.loop == Running && s.queue != [] && !Fits(s.queue[0].request)
    ensures Inv(LoopHead(s), decode, sendBase) && Between(LoopHead(s))
  {
    var t := LoopHead(s);
    assert s.queue[1..] == s.pushed[s.shifted + 1..];
    assert Tickets(t);
    assert SendLog(t, sendBase) by {
      assert t.sent == s.sent && t.pushed == s.pushed && t.written == s.written;
    }
    assert Attribution(t, decode);
    assert LoopPosition(t);
  }

  /** The head is shifted and its frame written; the loop awaits its response's length. */
  lemma SendKeepsInv(s: Snapshot, decode: Decoder, sendBase: seq<byte>)
    requires Inv(s, decode, sendBase) && s.loop == Running && s.queue != [] && Fits(s.queue[0].request)
    ensures Inv(LoopHead(s), decode, sendBase) && Between(LoopHead(s))
  {
    var e := s.queue[0];
    var t := LoopHead(s);
    assert s.queue[1..] == s.pushed[s.shifted + 1..];
    assert e == s.pushed[|s.sent|];
    assert Tickets(t);
    SendLogAppend(s, sendBase, e);
    assert SendLog(t, sendBase) by {
      assert t.sent == s.sent + [e.request] && t.written == s.written + Frame(e.request) && t.pushed == s.pushed;
    }
    assert Attribution(t, decode);
    assert OneInFlight(t);
    assert LoopPosition(t);
  }

  lemma LoopHeadKeepsInv(s: Snapshot, decode: Decoder, sendBase: seq<byte>)
    requires Inv(s, decode, sendBase) && s.loop == Running
    ensures Inv(LoopHead(s), decode, sendBase) && Between(LoopHead(s))
  {
    if s.queue == [] {
      StopKeepsInv(s, decode, sendBase);
    } else if Fits(s.queue[0].request) {
      SendKeepsInv(s, decode, sendBase);
    } else {
      DropKeepsInv(s, decode, sendBase);
    }
  }

  lemma RequestKeepsInv(s: Snapshot, decode: Decoder, sendBase: seq<byte>, e: Pending)
    requires Inv(s, decode, sendBase) && Between(s) && e.ticket == s.nextTicket
    ensures Inv(RequestStep(s, e), decode, sendBase) && Between(RequestStep(s, e))
  {
    var t := Push(s, e);
    PushKeepsInv(s, decode, sendBase, e);
    if !s.started {
      StartKeepsInv(t, decode, sendBase);
      LoopHeadKeepsInv(t.(started := true, loop := Running), decode, sendBase);
    }
  }

  lemma GotLengthKeepsInv(s: Snapshot, decode: Decoder, sendBase: seq<byte>, header: seq<byte>)
    requires Inv(s, decode, sendBase) && Between(s) && s.loop.AwaitLength? && |header| == 4
    ensures Inv(GotLength(s, header), decode, sendBase) && Between(GotLength(s, header))
  {
    Uint32LeOfLeUint32(header);
  }

  /** A payload that fails to settle leaves the loop stuck, with the invariant kept. */
  lemma FailedSettleKeepsInv(s: Snapshot, decode: Decoder, sendBase: seq<byte>, p: seq<byte>)
    requires Inv(s, decode, sendBase) && s.loop.AwaitPayload? && |p| == s.loop.len
    ensures Inv(AfterRead(s, p).(loop := Stuck), decode, sendBase)
  {
    var t := AfterRead(s, p).(loop := Stuck);
    ResponseAppend(s.responses, s.consumed, s.loop.len, p);
    assert Tickets(t);
    assert SendLog(t, sendBase) by {
      assert t.sent == s.sent && t.pushed == s.pushed && t.written == s.written;
    }
    assert Attribution(t, decode);
    assert OneInFlight(t);
    assert LoopPosition(t);
  }

  /** A payload that settles to v resolves the popped entry, with the invariant kept. */
  lemma ResolveKeepsInv(s: Snapshot, decode: Decoder, sendBase: seq<byte>, p: seq<byte>, v: Value)
    requires Inv(s, decode, sendBase) && s.loop.AwaitPayload? && |p| == s.loop.len
    requires Settle(decode, s.loop.entry.validator, p) == Some(v)
    ensures Inv(Resolved(s, p, v), decode, sendBase)
  {
    var t := Resolved(s, p, v);
    ResponseAppend(s.responses, s.consumed, s.loop.len, p);
    assert Tickets(t);
    assert SendLog(t, sendBase) by {
      assert t.sent == s.sent && t.pushed == s.pushed && t.written == s.written;
    }
    assert Attribution(t, decode) by {
      var k := |s.resolved|;
      assert t.resolved[k].ticket == k && t.pushed[k].ticket == k;
      assert t.responses[k] == p && t.pushed[k] == s.loop.entry;
    }
    assert OneInFlight(t);
    assert LoopPosition(t);
  }

  lemma GotPayloadKeepsInv(s: Snapshot, decode: Decoder, sendBase: seq<byte>, p: seq<byte>)
    requires Inv(s, decode, sendBase) && s.loop.AwaitPayload? && |p| == s.loop.len
    ensures Inv(GotPayload(s, decode, p), decode, sendBase) && Between(GotPayload(s, decode, p))
  {
    match Settle(decode, s.loop.entry.validator, p)
    case None =>
      FailedSettleKeepsInv(s, decode, sendBase, p);
    case Some(v) =>
      ResolveKeepsInv(s, decode, sendBase, p, v);
      LoopHeadKeepsInv(Resolved(s, p, v), decode, sendBase);
  }

  // ---------------------------------------------------------------------
  // What the invariant promises
  // ---------------------------------------------------------------------

  /**
   * FIFO attribution: the bytes read from the receive pipe split into the
   * response frames read so far (plus, mid-read, one length prefix), and
   * the k-th resolve call settles promise k, with the k-th response payload
   * checked by the validator pushed with request k.
   */
  lemma {:induction false} FifoAttribution(s: Snapshot, decode: Decoder, sendBase: seq<byte>)
    requires Inv(s, decode, sendBase) && !s.loop.AwaitPayload?
    ensures ParseFrames(s.consumed) == Some(s.responses)
    ensures forall k :: 0 <= k < |s.resolved| ==>
      && s.resolved[k].ticket == k && s.pushed[k].ticket == k
      && Settle(decode, s.pushed[k].validator, s.responses[k]) == Some(s.resolved[k].value)
  {
    ParseFramesOfFrames(s.responses);
  }

  /**
   * The send pipe since the queue was created splits into exactly one frame
   * per request sent, and these are the first requests pushed, in order.
   */
  lemma {:induction false} SendPipeIsRequestFrames(s: Snapshot, decode: Decoder, sendBase: seq<byte>)
    requires Inv(s, decode, sendBase)
    ensures |sendBase| <= |s.written| && ParseFrames(s.written[|sendBase|..]) == Some(s.sent)
    ensures forall i :: 0 <= i < |s.sent| ==> s.sent[i] == s.pushed[i].request
  {
    assert s.written[|sendBase|..] == Frames(s.sent);
    ParseFramesOfFrames(s.sent);
  }

  /**
   * Sends and receives alternate: request k is frame 2k on the channel and
   * its response frame 2k+1, so no request is written before the response
   * to the one before it has been read; the one request written and not yet
   * answered, if any, is the last frame.
   */
  lemma SendsAndReceivesAlternate(s: Snapshot, decode: Decoder, sendBase: seq<byte>)
    requires Inv(s, decode, sendBase)
    ensures |s.responses| <= |s.sent| <= |s.responses| + 1
    ensures forall k :: 0 <= k < |s.responses| ==> s.trace[2 * k] == Wrote(k) && s.trace[2 * k + 1] == ReadBack(k)
    ensures |s.sent| > |s.responses| ==> s.trace[|s.trace| - 1] == Wrote(|s.responses|)
  {
  }

}
