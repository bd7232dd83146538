# msgpipe, modelled in Dafny

msgpipe links a Node host to a Python worker over two extra pipes. Every
message on either pipe is a frame: a 4-byte unsigned little-endian length,
then exactly that many bytes. The worker writes one readiness byte `0xFD`
before its first frame.

The host side (`nodejs/src/main.ts`) has two parts:

- **`spawnPyIpc`** starts the worker. It builds the worker's environment,
  including `PYTHONPATH`. It classifies process and pipe events as faults,
  using the one-way `workerExpectedExit` latch, and it checks the readiness
  byte.
- **`createPyIpcQueue`** is a FIFO of pending requests with a re-entrancy
  flag. Its dispatch loop takes the head of the queue, writes its frame, and
  reads one response frame. It then resolves that request's promise with the
  validated response.

The worker side (`python/msgpipe/__init__.py`) has:

- **`_ensure_read`**, which reads until exactly n bytes have been collected;
- **`add_handler`**, which keeps a table from type names to
  (request class, handler) pairs;
- **`begin_loop`**, which writes the readiness byte and then, forever, reads
  a request frame and decodes it. It takes `$type` out of the decoded map,
  calls the handler registered under that name, and writes the framed
  response.

The model has these modules:

- `Basics`: Option, Result and small sequence facts.
- `Wire`: the little-endian length, one frame, a run of frames, and their
  parsers, with round-trip lemmas in both directions.
- `Codec`: msgpack values and the encoder and decoder types.
- `Host`: `spawnPyIpc`. The environment and fault rules are functions. The
  pipes and the worker handle are classes.
- `QueueSpec` and `QueueProofs`: the queue as a state machine over a
  `Snapshot` of its state, with one transition per atomic step. An invariant
  `Inv`, kept by every transition, states three things:
  - the k-th response read goes to the k-th request pushed;
  - both pipes are well-formed frame streams;
  - at most one round trip is outstanding.
- `HostQueue`: the queue closure as the class `IpcQueue`. Each method is one
  atomic step between two awaits, specified by the transition it performs.
  Any number of `Request` calls can interleave with the two resumptions of
  the loop, `ResumeLength` and `ResumePayload`.
- `Msgpipe`: the worker.
  - `Reader` is the pipe, whose `read(k)` returns between 1 and k bytes
    while any remain and k is positive, and none at the end of the data.
  - `EnsureRead` is `_ensure_read` with its while loop.
  - `PyIpc` is the class with `AddHandler`, `ServeRequest` (one loop body)
    and `BeginLoop`.
  - The loop is specified by the function `Serve`, which gives the requests
    answered, the responses written, the bytes left unread, and why it
    stopped.
- `Link`: the two sides joined. The host's send pipe (fd 3) is the
  worker's `ipc_recv`. What the host's queue reads is the worker's
  `ipc_send` (fd 4) after the readiness byte. Every promise the queue has
  resolved got the validated answer of the worker to the very request the
  promise was made for.

Parameters stand in for code outside the core:

- msgpack (`encode`/`decode`, `packb`/`unpackb`), `parseRoot`, the user's
  request classes and handler functions are function-valued parameters.
  Each returns an `Option`, and `None` stands for the exception it raises:
  an `encode` that throws rejects the request's promise, and a `packb` that
  raises ends the worker's loop.
- The host's receive pipe holds the bytes that have arrived so far.
  `asyncRead` completes only once all the bytes it waits for are there.
- The worker's reader holds everything the host will ever write. A parameter
  `grant` caps how many bytes each `read` call returns.

## Model

| member | source | states |
|---|---|---|
| Wire.LeUint32 | nodejs/src/main.ts:115 | a 4-byte little-endian length is below 2^32 |
| Wire.Uint32Le | nodejs/src/main.ts:110-111 | a length below 2^32 is written as 4 bytes; specified by Wire.LengthRoundTrip and Wire.Uint32LeOfLeUint32 |
| Wire.LengthRoundTrip | nodejs/src/main.ts:110-111 | decoding the 4 bytes written for a length (below 2^32) gives back that length |
| Wire.Uint32LeOfLeUint32 | python/msgpipe/__init__.py:27-29 | every 4-byte prefix is exactly the encoding of the length it denotes |
| Wire.EncodeLength | python/msgpipe/__init__.py:38-40 | a length has a 4-byte prefix if and only if it is below 2^32, and the prefix decodes back to it |
| Wire.Frame | nodejs/src/main.ts:110-113 | a frame is 4 bytes longer than its payload |
| Wire.Frames | nodejs/src/main.ts:103-113 | the request frames written back to back; specified by Wire.ParseFramesOfFrames, Wire.FramesAppend and Wire.FramesPrefix |
| Wire.FramesAppend | nodejs/src/main.ts:112-113 | appending a frame to a run of frames is the run of frames of the payloads with the new one last |
| Wire.ParseFrame | nodejs/src/main.ts:115-116 | a successful frame read leaves strictly fewer bytes |
| Wire.ParseFrameOfFrame | nodejs/src/main.ts:115-116 | reading a frame from a frame followed by anything gives back the payload and leaves what followed |
| Wire.FrameOfParseFrame | python/msgpipe/__init__.py:27-30 | a successful frame read consumed exactly the frame of the payload it returned |
| Wire.HeaderThenPayload | nodejs/src/main.ts:115-116 | a 4-byte length L followed by L bytes read after it is exactly one frame of those bytes |
| Wire.ParseFrames | nodejs/src/main.ts:103-118 | splitting bytes into whole frames fails on a trailing partial frame; specified by Wire.ParseFramesOfFrames and Wire.FramesOfParseFrames |
| Wire.ParseFramesOfFrames | nodejs/src/main.ts:103-118 | a run of frames splits back into exactly the payloads framed, in order |
| Wire.FramesOfParseFrames | nodejs/src/main.ts:103-118 | a byte sequence that splits into frames is those frames back to back |
| Wire.FramesPrefix | nodejs/src/main.ts:115-116 | when frames followed by anything are the start of a run of frames, their payloads are the first payloads of that run |
| Host.Split | nodejs/src/main.ts:30 | splitting on ':' always yields at least one piece, and no piece contains ':' |
| Host.Join | nodejs/src/main.ts:30 | joining pieces with the separator; specified by Host.JoinSplit |
| Host.JoinSplit | nodejs/src/main.ts:28-31 | joining the pieces of a ':'-split with ':' gives back the string |
| Host.PythonPath | nodejs/src/main.ts:28-31 | PYTHONPATH is rootDir alone when none is inherited, and otherwise rootDir, ':', then the inherited value unchanged |
| Host.WorkerEnv | nodejs/src/main.ts:25-33 | the worker's environment has the host's keys, PYTHONPATH and the caller's keys; the caller's entries win, then PYTHONPATH, then the host's own |
| Host.Classify | nodejs/src/main.ts:35-74 | an event is a fault if and only if it is an error event or no exit is expected; each fault carries the event's status, signal, error or pipe |
| Host.SendStream.Write | nodejs/src/main.ts:112-113 | the send pipe only grows, by exactly the bytes written |
| Host.RecvStream.Read | nodejs/src/main.ts:115-116 | a read of n bytes completes if and only if n bytes have arrived past the cursor, returns exactly those and moves the cursor by n; otherwise it consumes nothing |
| Host.PyIpc.constructor | nodejs/src/main.ts:22 | a fresh handle starts with the latch cleared and nothing written or read |
| Host.PyIpc.OnEvent | nodejs/src/main.ts:35-74 | with the latch set only error events are faults; with it clear every event is |
| Host.PyIpc.ExpectExit | nodejs/src/main.ts:83-85 | expectExit sets the latch; no method clears it |
| Host.SpawnPyIpc | nodejs/src/main.ts:78 | spawning succeeds if and only if the first byte from the worker is 0xFD; the handle then has that byte consumed, nothing sent and the constructed environment |
| QueueSpec.Envelope | nodejs/src/main.ts:129-132 | the envelope holds every request field and `$type`, with `$type` set to the type name even if the request had such a field |
| QueueSpec.Settle | nodejs/src/main.ts:117 | parseRoot(decode(payload)), failing where either throws; specified by QueueProofs.GotPayloadSettles |
| QueueSpec.Push | nodejs/src/main.ts:129-135 | queue.push of the entry with the next ticket; specified by QueueProofs.StartIsGuarded and QueueProofs.PushKeepsInv |
| QueueSpec.LoopHead | nodejs/src/main.ts:103-113 | one pass from the loop test to its next await; specified by QueueProofs.LoopHeadSteps and QueueProofs.LoopHeadKeepsInv |
| QueueSpec.MaybeStart | nodejs/src/main.ts:98-102 | the guarded start of the loop; specified by QueueProofs.StartIsGuarded and QueueProofs.IdleRequestIsSent |
| QueueSpec.RequestStep | nodejs/src/main.ts:128-136 | push, then maybeStartQueueLoop; specified by QueueProofs.StartIsGuarded, QueueProofs.IdleRequestIsSent and QueueProofs.RequestKeepsInv |
| QueueSpec.GotLength | nodejs/src/main.ts:115 | the 4-byte length await completing; specified by QueueProofs.GotLengthKeepsInv and QueueProofs.ResponseAppend |
| QueueSpec.AfterRead | nodejs/src/main.ts:116 | the payload read and logged as a response; specified by QueueProofs.GotPayloadSettles |
| QueueSpec.Resolved | nodejs/src/main.ts:117 | resolve called on the popped entry's promise; specified by QueueProofs.GotPayloadSettles and QueueProofs.ResolveKeepsInv |
| QueueSpec.GotPayload | nodejs/src/main.ts:116-118 | the payload await completing; specified by QueueProofs.GotPayloadSettles and QueueProofs.GotPayloadKeepsInv |
| QueueProofs.LoopHeadSteps | nodejs/src/main.ts:103-113 | the loop ends and clears the flag exactly when the queue is empty; otherwise it shifts the head and writes its frame, or is stuck if the length does not fit in 4 bytes |
| QueueProofs.StartIsGuarded | nodejs/src/main.ts:98-102 | while the flag is set, maybeStartQueueLoop changes nothing, and a request only joins the tail of the queue |
| QueueProofs.IdleRequestIsSent | nodejs/src/main.ts:128-136 | a request to an idle queue starts the loop, which writes that request's frame and awaits its response |
| QueueProofs.GotPayloadSettles | nodejs/src/main.ts:116-117 | a response payload read resolves the popped entry with its settled value, or leaves the loop stuck and the entry unresolved when decode or the validator throws |
| QueueProofs.SendLogAppend | nodejs/src/main.ts:110-113 | writing the next pushed entry's frame keeps the send pipe equal to the frames of the entries sent |
| QueueProofs.ResponseAppend | nodejs/src/main.ts:115-116 | a payload read after its length prefix completes one more response frame |
| QueueProofs.PushKeepsInv | nodejs/src/main.ts:128-135 | pushing an entry keeps the queue invariant |
| QueueProofs.StartKeepsInv | nodejs/src/main.ts:102 | setting the flag keeps the queue invariant |
| QueueProofs.StopKeepsInv | nodejs/src/main.ts:103-119 | the loop ending on an empty queue keeps the invariant and leaves the queue idle |
| QueueProofs.DropKeepsInv | nodejs/src/main.ts:104-111 | a head too long to frame leaves the loop stuck and keeps the invariant |
| QueueProofs.SendKeepsInv | nodejs/src/main.ts:104-113 | shifting the head and writing its frame keeps the invariant |
| QueueProofs.LoopHeadKeepsInv | nodejs/src/main.ts:103-119 | every pass through the loop head keeps the invariant |
| QueueProofs.RequestKeepsInv | nodejs/src/main.ts:122-137 | a request between two steps keeps the invariant |
| QueueProofs.GotLengthKeepsInv | nodejs/src/main.ts:115 | reading the 4-byte response length keeps the invariant |
| QueueProofs.FailedSettleKeepsInv | nodejs/src/main.ts:116-117 | a response whose decode or validation throws keeps the invariant, with the loop stuck |
| QueueProofs.ResolveKeepsInv | nodejs/src/main.ts:116-117 | resolving the popped entry with its response keeps the invariant |
| QueueProofs.GotPayloadKeepsInv | nodejs/src/main.ts:116-118 | reading the response payload keeps the invariant |
| QueueProofs.FifoAttribution | nodejs/src/main.ts:104-117 | the bytes read split into the responses read, and the k-th resolve settles promise k with the k-th response checked by request k's validator |
| QueueProofs.SendPipeIsRequestFrames | nodejs/src/main.ts:110-113 | the send pipe since the queue was created splits into one frame per request sent, and these are the first requests pushed, in order |
| QueueProofs.SendsAndReceivesAlternate | nodejs/src/main.ts:103-118 | request k is frame 2k on the channel and its response frame 2k+1, so at most one round trip is outstanding |
| HostQueue.IpcQueue.constructor | nodejs/src/main.ts:91-97 | a queue is made from a handle whose readiness byte has been read; it starts empty, its flag is clear and it has read and written nothing |
| HostQueue.IpcQueue.RunLoop | nodejs/src/main.ts:103-113 | the loop from its head to its next await performs the loop-head transition |
| HostQueue.IpcQueue.MaybeStartQueueLoop | nodejs/src/main.ts:98-102 | performs the guarded start, and changes nothing at all while the flag is set |
| HostQueue.IpcQueue.Request | nodejs/src/main.ts:122-137 | request pushes the envelope's encoding with a new ticket and then tries to start the loop, keeping the invariant; when encode throws, the promise is rejected and nothing changes |
| HostQueue.IpcQueue.Enqueue | nodejs/src/main.ts:129-135 | once encode has returned, the entry is pushed and the guarded start runs, performing the request transition and keeping the invariant |
| HostQueue.IpcQueue.Incoming | nodejs/src/main.ts:61 | bytes arriving on the receive pipe change nothing in the queue |
| HostQueue.IpcQueue.ResumeLength | nodejs/src/main.ts:115 | the length await completes if and only if 4 bytes have arrived, and then reads exactly those |
| HostQueue.IpcQueue.ResumePayload | nodejs/src/main.ts:116-118 | the payload await completes if and only if the whole payload has arrived, and then settles the entry that was sent |
| HostQueue.IpcQueue.ReadAndSettle | nodejs/src/main.ts:116-118 | reads the payload, resolves the popped entry or leaves the loop stuck, and goes back to the loop head |
| Msgpipe.Reader.constructor | python/msgpipe/__init__.py:17 | the reader starts at the beginning of the pipe |
| Msgpipe.Reader.Read | python/msgpipe/__init__.py:9 | a read returns the next bytes, never more than asked and at least one while asked for and available |
| Msgpipe.EnsureRead | python/msgpipe/__init__.py:6-11 | _ensure_read returns exactly the next n bytes, which are the non-empty chunks the reader's calls returned, concatenated in order |
| Msgpipe.Invoke | python/msgpipe/__init__.py:34-36 | build the request, call the handler, pack the result; specified by Msgpipe.DispatchRoutesByType and Msgpipe.Serve1Answers |
| Msgpipe.Dispatch | python/msgpipe/__init__.py:30-36 | the answer to one request payload; specified by Msgpipe.DispatchRoutesByType and Msgpipe.LatestRegistrationWins |
| Msgpipe.ReadFrame | python/msgpipe/__init__.py:27-30 | the frame read at the top of the loop; specified by Msgpipe.ReadFrameParses |
| Msgpipe.Serve1 | python/msgpipe/__init__.py:27-42 | one pass of the loop body; specified by Msgpipe.Serve1Answers and Msgpipe.Serve1Reads |
| Msgpipe.LatestRegistrationWins | python/msgpipe/__init__.py:44-46 | after registering under a type, requests of that type go to the new handler and every other payload is dispatched as before |
| Msgpipe.DispatchRoutesByType | python/msgpipe/__init__.py:30-36 | a payload is answered only by the handler registered under the `$type` it names, given every other field; otherwise it is refused as undecodable, not a map, without `$type` or of unknown type |
| Msgpipe.ReadFrameParses | python/msgpipe/__init__.py:27-30 | the loop's frame read takes exactly one frame when a whole frame is there, and otherwise stops after at most the length |
| Msgpipe.Serve1Answers | python/msgpipe/__init__.py:30-41 | a pass answers with the handler's answer to the request it read, and fails only on a request whose handling or packing raised or whose answer does not fit in a frame |
| Msgpipe.Serve1Reads | python/msgpipe/__init__.py:27-30 | a pass reads one whole request frame, or blocks exactly when no whole frame remains |
| Msgpipe.Serve | python/msgpipe/__init__.py:26-42 | serving answers one response per request read, never more than the rounds, and every payload fits in a frame |
| Msgpipe.ServeAnswers | python/msgpipe/__init__.py:30-41 | every response is the answer to the request in the same position, and serving fails only on a refused request |
| Msgpipe.ServeUsesRounds | python/msgpipe/__init__.py:26 | serving runs out of rounds only after answering that many requests |
| Msgpipe.ReadsOneMore | python/msgpipe/__init__.py:27-30 | one more request frame in front of the bytes a serving read is one more request read |
| Msgpipe.ReadsAfterAnswer | python/msgpipe/__init__.py:26-42 | a pass that answered keeps the bytes read equal to the request frames read |
| Msgpipe.ReadsAfterHalt | python/msgpipe/__init__.py:26-42 | a pass that halted read a failed frame, or blocked on a partial one |
| Msgpipe.ServeReadsFrames | python/msgpipe/__init__.py:26-30 | the bytes read are the request frames, back to back, then the failed request's frame or the partial frame it blocked on, and blocking happens only when no whole frame remains |
| Msgpipe.PyIpc.constructor | python/msgpipe/__init__.py:16-19 | a new worker has no handlers and has written nothing |
| Msgpipe.PyIpc.AddHandler | python/msgpipe/__init__.py:44-46 | add_handler stores (cls, fn) under typ, replacing any earlier entry and keeping the others, and returns the same object |
| Msgpipe.PyIpc.ReadRequest | python/msgpipe/__init__.py:27-30 | the loop's frame read consumes exactly what the frame-read function takes |
| Msgpipe.PyIpc.ServeRequest | python/msgpipe/__init__.py:27-42 | one loop body performs one pass and appends the response frame exactly when it answers |
| Msgpipe.PyIpc.BeginLoop | python/msgpipe/__init__.py:21-42 | begin_loop writes 0xFD and then exactly the frames of the responses that serving gives, stops where serving stops, and leaves unread exactly what serving leaves |
| Link.DispatchOfEnvelope | nodejs/src/main.ts:129-132 | an envelope that survives the codec reaches the handler registered under its type with every request field but `$type`, and is refused as of unknown type otherwise |
| Link.WorkerServesWhatWasSent | nodejs/src/main.ts:110-113 | the requests the worker serves from what the host wrote are the first requests the host sent, in order |
| Link.ConsumedIsResponseFrames | nodejs/src/main.ts:115-116 | the bytes the queue has read are its response frames, and, while awaiting a payload, one length prefix |
| Link.FramesReadFrom | nodejs/src/main.ts:115-116 | frames, then anything, read from the start of a run of frames are the first frames of that run |
| Link.HostReadsWhatWasServed | nodejs/src/main.ts:115-117 | the responses the queue read from the worker's output are the first responses the worker wrote |
| Link.RepliesReachTheirCallers | nodejs/src/main.ts:117 | every promise resolved was resolved, under its own ticket, with the validated answer of the worker to the request it was created for |

## Left out

- Process spawning, stdio wiring, `worker.stdin!.end(stdin)` and the Node
  event emitter. Only the fault each listener throws is modelled, as a
  function of the event and the latch. Throwing from a listener is not.
- msgpack, `parseRoot` and the user's handler classes and functions are
  parameters. An exception they raise is a `None` result; which values make
  msgpack raise is not modelled. Codec agreement is a precondition of
  `Link.DispatchOfEnvelope`, not a property of msgpack.
- Values carry floats as their 64-bit IEEE 754 bit pattern, with no
  arithmetic on them, and extension types as a type code and bytes; which
  extension codes msgpack reserves is not modelled.
- Host.SpawnPyIpc: when no byte has arrived yet, the source's `await` stays
  pending. The model returns `Waiting` instead, which is not a failed
  handshake; the later resumption of that `await` is not modelled.
- Decoded maps are keyed by strings only. A `$type` that is not a string is
  treated as an unregistered type. Python's `dict` could in principle hold a
  non-string key, which `add_handler` never registers.
- `flush` and buffering are left out. Bytes written are visible to the other
  side at once.
- Msgpipe.EnsureRead: `_ensure_read` spins forever on an empty read at the
  end of the pipe. The method therefore requires n bytes to remain, and the
  loop around it stops with `Blocked` where the worker would hang.
- Msgpipe.PyIpc.BeginLoop: `begin_loop` never returns. It is bounded here
  by a `rounds` parameter, and it returns where the worker would block or
  raise.
- Msgpipe.Reader.Read: reads to the end of the pipe. A real pipe returns
  what has been written so far. In the model the worker's input is fixed in
  advance, and `Link` relates it to what the host has written.
- The host's reads are completions of `asyncRead`, taken as atomic steps.
  No real promise scheduling is modelled, and the order of microtasks is
  not either.
- The messages of the thrown errors are not modelled; only their kind and
  their fields are.
- An exception from `decode` or `parseRoot` escapes the loop, which is then
  stuck. The flag stays set, that promise is never resolved, and no later
  request is sent. A `writeUInt32LE` overflow on a request longer than
  2^32 - 1 bytes does the same. Both are modelled as `Stuck`. Read as a
  design, the queue suggests a per-request validation failure. The code
  does not do that, and the model follows the code.
- `assert len(b) == n` (python/msgpipe/__init__.py:10) and `assert
  type(res_raw) is bytes` (line 37) always hold in the model.
- Link.RepliesReachTheirCallers: takes as preconditions two things about the
  pipes. What the worker reads from `ipc_recv` must be a prefix of the
  host's send pipe. The bytes the queue has read must be a prefix of what
  the worker wrote to `ipc_send` after its readiness byte. The pipes
  themselves are not modelled as one shared object.
