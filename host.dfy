/**
 * The host's process supervisor (spawnPyIpc in nodejs/src/main.ts): the
 * worker's environment, the fault rules for exit/error/end/close events,
 * the `workerExpectedExit` latch and the readiness handshake.
 */
module Host {
  import opened Basics
  import opened Wire

  // ---------------------------------------------------------------------
  // Environment of the worker
  // ---------------------------------------------------------------------

  /** String.prototype.split with a one-character separator: never empty, keeps empty pieces. */
  function Split(s: string, sep: char): (parts: seq<string>)
    ensures |parts| >= 1
    ensures forall i :: 0 <= i < |parts| ==> sep !in parts[i]
    decreases |s|
  {
    if s == [] then [""]
    else
      var rest := Split(s[1..], sep);
      if s[0] == sep then [""] + rest else [[s[0]] + rest[0]] + rest[1..]
  }

  /** Array.prototype.join with a one-character separator. */
  function Join(parts: seq<string>, sep: char): string
    decreases |parts|
  {
    if parts == [] then ""
    else if |parts| == 1 then parts[0]
    else parts[0] + [sep] + Join(parts[1..], sep)
  }

  /** Joining the pieces of a split with the same separator restores the string. */
  lemma {:induction false} JoinSplit(s: string, sep: char)
    ensures Join(Split(s, sep), sep) == s
    decreases |s|
  {
    if s != [] {
      var rest := Split(s[1..], sep);
      JoinSplit(s[1..], sep);
      if s[0] == sep {
        assert ([""] + rest)[1..] == rest;
      } else {
        var parts := [[s[0]] + rest[0]] + rest[1..];
        if |rest| == 1 {
          assert parts == [[s[0]] + rest[0]];
        } else {
          assert parts[1..] == rest[1..];
          assert Join(rest, sep) == rest[0] + [sep] + Join(rest[1..], sep);
        }
      }
    }
  }

  /**
   * The PYTHONPATH given to the worker: the root directory, then the pieces
   * of the inherited PYTHONPATH (if any), joined with ':'.
   */
  function PythonPath(rootDir: string, inherited: Option<string>): (path: string)
    ensures inherited.None? ==> path == rootDir
    ensures inherited.Some? ==> path == rootDir + ":" + inherited.value
  {
    var pieces := match inherited
      case None => []
      case Some(p) => Split(p, ':');
    var path := Join([rootDir] + pieces, ':');
    assert inherited.Some? ==> path == rootDir + ":" + inherited.value by {
      if inherited.Some? {
        JoinSplit(inherited.value, ':');
        assert ([rootDir] + pieces)[1..] == pieces;
      }
    }
    path
  }

  const PythonPathKey: string := "PYTHONPATH"

  /**
   * The worker's environment: the host's own environment, then PYTHONPATH,
   * then the caller's entries, each layer overriding the one before.
   */
  function WorkerEnv(processEnv: map<string, string>, rootDir: string, extra: map<string, string>): (env: map<string, string>)
    ensures env.Keys == processEnv.Keys + extra.Keys + {PythonPathKey}
    ensures forall k :: k in extra ==> env[k] == extra[k]
    ensures PythonPathKey !in extra ==>
      env[PythonPathKey] == PythonPath(rootDir, if PythonPathKey in processEnv then Some(processEnv[PythonPathKey]) else None)
    ensures forall k :: k in processEnv && k !in extra && k != PythonPathKey ==> env[k] == processEnv[k]
  {
    var inherited := if PythonPathKey in processEnv then Some(processEnv[PythonPathKey]) else None;
    processEnv[PythonPathKey := PythonPath(rootDir, inherited)] + extra
  }

  // ---------------------------------------------------------------------
  // Faults
  // ---------------------------------------------------------------------

  datatype Pipe = SendPipe | ReceivePipe

  /** The events the supervisor listens to on the process and on the two IPC pipes. */
  datatype Event =
    | Exit(status: Option<int>, signal: Option<string>)
    | ProcessError(error: string)
    | PipeError(pipe: Pipe, error: string)
    | PipeEnd(pipe: Pipe)
    | PipeClose(pipe: Pipe)

  /** What an event handler throws. */
  datatype Fault =
    | UnexpectedExit(status: Option<int>, signal: Option<string>)
    | Rethrown(error: string)
    | PipeEnded(pipe: Pipe)
    | PipeClosed(pipe: Pipe)

  /**
   * The fault an event raises given the latch: errors always; exit, end and
   * close only while no exit is expected.
   */
  function Classify(e: Event, expectedExit: bool): (f: Option<Fault>)
    ensures f.Some? <==> e.ProcessError? || e.PipeError? || !expectedExit
    ensures f.Some? && e.Exit? ==> f.value == UnexpectedExit(e.status, e.signal)
    ensures f.Some? && e.ProcessError? ==> f.value == Rethrown(e.error)
    ensures f.Some? && e.PipeError? ==> f.value == Rethrown(e.error)
    ensures f.Some? && e.PipeEnd? ==> f.value == PipeEnded(e.pipe)
    ensures f.Some? && e.PipeClose? ==> f.value == PipeClosed(e.pipe)
  {
    match e
    case Exit(status, signal) => if expectedExit then None else Some(UnexpectedExit(status, signal))
    case ProcessError(err) => Some(Rethrown(err))
    case PipeError(_, err) => Some(Rethrown(err))
    case PipeEnd(p) => if expectedExit then None else Some(PipeEnded(p))
    case PipeClose(p) => if expectedExit then None else Some(PipeClosed(p))
  }

  // ---------------------------------------------------------------------
  // The two IPC pipes, seen from the host
  // ---------------------------------------------------------------------

  /** The host's end of the host-to-worker pipe: bytes are only ever appended. */
  class SendStream {
    var written: seq<byte>

    constructor ()
      ensures written == []
    {
      written := [];
    }

    method Write(b: seq<byte>)
      modifies this
      ensures written == old(written) + b
    {
      written := written + b;
    }
  }

  /** The host's end of the worker-to-host pipe: the bytes that have arrived and a read cursor. */
  class RecvStream {
    var arrived: seq<byte>
    var pos: nat

    ghost predicate Valid()
      reads this
    {
      pos <= |arrived|
    }

    constructor (initial: seq<byte>)
      ensures Valid() && arrived == initial && pos == 0
    {
      arrived, pos := initial, 0;
    }

    /** The worker writes more bytes. */
    method Arrive(b: seq<byte>)
      requires Valid()
      modifies this
      ensures Valid() && arrived == old(arrived) + b && pos == old(pos)
    {
      arrived := arrived + b;
    }

    /**
     * The completion of `asyncRead(stream, n)`: the next n bytes, once they
     * have all arrived. None while they have not; the read is then still
     * pending and nothing is consumed.
     */
    method Read(n: nat) returns (r: Option<seq<byte>>)
      requires Valid()
      modifies this
      ensures Valid() && arrived == old(arrived)
      ensures r.Some? <==> old(pos) + n <= |arrived|
      ensures r.Some? ==> |r.value| == n && r.value == arrived[old(pos)..old(pos) + n] && pos == old(pos) + n
      ensures r.None? ==> pos == old(pos)
    {
      if pos + n <= |arrived| {
        r := Some(arrived[pos..pos + n]);
        pos := pos + n;
      } else {
        r := None;
      }
    }
  }

  // ---------------------------------------------------------------------
  // The worker handle
  // ---------------------------------------------------------------------

  /** The handle spawnPyIpc returns: the two pipes, the worker's environment and the latch. */
  class PyIpc {
    const ipcSend: SendStream
    const ipcRecv: RecvStream
    const environment: map<string, string>
    var workerExpectedExit: bool

    constructor (env: map<string, string>, workerOutput: seq<byte>)
      ensures fresh(ipcSend) && fresh(ipcRecv)
      ensures ipcSend.written == [] && ipcRecv.Valid() && ipcRecv.arrived == workerOutput && ipcRecv.pos == 0
      ensures environment == env && !workerExpectedExit
    {
      ipcSend := new SendStream();
      ipcRecv := new RecvStream(workerOutput);
      environment := env;
      workerExpectedExit := false;
    }

    /** The fault the listener for `e` throws now. */
    function OnEvent(e: Event): (f: Option<Fault>)
      reads this
      ensures workerExpectedExit ==> (f.Some? <==> e.ProcessError? || e.PipeError?)
      ensures !workerExpectedExit ==> f.Some?
    {
      Classify(e, workerExpectedExit)
    }

    /** The one-way latch: after it, exit, end and close are no longer faults. */
    method ExpectExit()
      modifies this
      ensures workerExpectedExit
    {
      workerExpectedExit := true;
    }
  }

  datatype SpawnError =
    | Waiting                     // no byte has arrived yet: the await is still pending, not failed
    | HandshakeFailed(first: byte) // the first byte is not the readiness byte

  /**
   * spawnPyIpc after the process has started: the worker has written
   * `workerOutput` so far; the host reads one byte and accepts the worker
   * only if it is the readiness byte.
   */
  method SpawnPyIpc(processEnv: map<string, string>, rootDir: string, extra: map<string, string>, workerOutput: seq<byte>)
    returns (r: Result<PyIpc, SpawnError>)
    ensures r.Ok? <==> |workerOutput| >= 1 && workerOutput[0] == ReadyByte
    ensures |workerOutput| == 0 ==> r == Err(Waiting)
    ensures |workerOutput| >= 1 && workerOutput[0] != ReadyByte ==> r == Err(HandshakeFailed(workerOutput[0]))
    ensures r.Ok? ==> var h := r.value;
      && fresh(h) && fresh(h.ipcSend) && fresh(h.ipcRecv)
      && h.ipcSend.written == [] && h.ipcRecv.Valid()
      && h.ipcRecv.arrived == workerOutput && h.ipcRecv.pos == 1
      && h.environment == WorkerEnv(processEnv, rootDir, extra)
      && !h.workerExpectedExit
  {
    var h := new PyIpc(WorkerEnv(processEnv, rootDir, extra), workerOutput);
    var first := h.ipcRecv.Read(1);
    if first.None? {
      r := Err(Waiting);
    } else if first.value[0] != ReadyByte {
      r := Err(HandshakeFailed(first.value[0]));
    } else {
      r := Ok(h);
    }
  }
}
