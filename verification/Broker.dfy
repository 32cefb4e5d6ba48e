/** The broker half of the websocket dispatcher (src/linux_fastcgi.cpp:15-26,
    149-385, 526-596): its globals as one object, its functions as methods.

    `State` is the value of those globals together with the log of what the
    broker has done to connections.  Sockets and the clock are outside: what a
    `read` or `write` returned is a parameter. */
module BrokerModel {
  import opened Text
  import opened DTreeModel
  import opened Dispatch
  import opened LineStream

  /** An accepted job.  `id` counts acceptances; it tells equal jobs apart. */
  datatype Job = Job(id: nat, request: Request)

  /** The "serialized" field. */
  function Line(j: Job): string {
    JobBody(j.request) + "\n"
  }

  datatype Effect =
    | Failed(job: Job)                      // connection closed with 1011
    | Refused(connection: string)           // not accepted: closed with 1011
    | Overflowed(connection: string)        // not accepted: closed with 1013
    | Mismatched(expected: string, got: string)
    | Applied(freed: Option<Job>, connection: string, state: Tree, commands: Tree)

  datatype State = State(
    pid: bool, open: bool, hung: bool,
    readBuffer: string, writeBuffer: string,
    pending: seq<Job>, inflight: Option<Job>, log: seq<Effect>)

  const INITIAL := State(false, false, false, "", "", [], None, [])

  // ----- the functions of the source on values -----

  /** `websocket_exec_fail_inflight_job` */
  function FailInflight(s: State): State {
    match s.inflight
    case None => s
    case Some(j) => s.(inflight := None, writeBuffer := "", log := s.log + [Failed(j)])
  }

  /** `websocket_exec_clear_ipc_state` */
  function ClearIpc(s: State): State {
    s.(open := false, readBuffer := "", writeBuffer := "", inflight := None)
  }

  function Lose(s: State): State {
    ClearIpc(FailInflight(s))
  }

  function LineBytes(js: seq<Job>): nat {
    if js == [] then 0 else LineBytes(js[..|js| - 1]) + |Line(js[|js| - 1])|
  }

  function InflightBytes(s: State): nat {
    match s.inflight case None => 0 case Some(j) => |Line(j)|
  }

  /** `websocket_exec_queue_job` */
  function Enqueue(s: State, j: Job, limit: nat): State {
    if j.request.connection == "" then s
    else if |s.writeBuffer| + InflightBytes(s) + LineBytes(s.pending) + |JobBody(j.request)| > limit then
      s.(log := s.log + [Overflowed(j.request.connection)])
    else s.(pending := s.pending + [j])
  }

  /** `websocket_exec_apply_result` */
  function ApplyResult(s: State, r: ResultOutcome): State {
    match r
    case NoResult => s
    case BrokerHangs => s.(hung := true)
    case Result(connection, state, commands) =>
      var note :=
        if s.inflight.Some? && s.inflight.value.request.connection != "" && connection != ""
           && s.inflight.value.request.connection != connection
        then [Mismatched(s.inflight.value.request.connection, connection)] else [];
      s.(inflight := None, log := s.log + note + [Applied(s.inflight, connection, state, commands)])
  }

  /** The inner loop of `websocket_exec_read_results`. */
  function Drain(s: State): State
    decreases |s.readBuffer|
  {
    var end := LineEnd(s.readBuffer);
    if s.hung || end == |s.readBuffer| then s
    else Drain(ApplyResult(s.(readBuffer := s.readBuffer[end + 1..]), ReadResultLine(s.readBuffer[..end])))
  }

  function Receive(s: State, chunk: string): State {
    Drain(s.(readBuffer := s.readBuffer + chunk))
  }

  /** The first half of `websocket_exec_flush_queue`. */
  function Load(s: State): State {
    if s.writeBuffer == "" && s.inflight.None? && s.pending != [] then
      s.(inflight := Some(s.pending[0]), pending := s.pending[1..], writeBuffer := Line(s.pending[0]))
    else s
  }

  function Sent(s: State, n: nat): State
    requires n <= |s.writeBuffer|
  {
    s.(writeBuffer := s.writeBuffer[n..])
  }

  /** `websocket_exec_alive`; `responds` is what the signal probe said. */
  predicate Alive(s: State, responds: bool) {
    s.pid && responds && s.open
  }

  /** A failed liveness check, and the new executor if the fork succeeds. */
  function Respawn(s: State, spawned: bool): State {
    Lose(s).(pid := spawned, open := spawned)
  }

  /** `ensure_websocket_executor` */
  function Ensure(s: State, responds: bool, spawned: bool): State {
    if Alive(s, responds) then s
    else if s.pid || s.open then Respawn(s, spawned)
    else s.(pid := spawned, open := spawned)
  }

  /** The end of `handle_websocket_message`: refuse, or queue. */
  function Offer(s: State, j: Job, responds: bool, limit: nat): State {
    if !Alive(s, responds) then s.(log := s.log + [Refused(j.request.connection)])
    else Enqueue(s, j, limit)
  }

  // ----- whole read and flush loops -----

  datatype ReadOutcome = Data(chunk: string) | ReadNothing | ReadLost
  datatype WriteOutcome = Wrote(count: nat) | WriteNothing | WriteLost

  /** `websocket_exec_read_results`, given what each `read` came back with; the
      list ends where the socket has nothing more. */
  function ReadResults(s: State, inputs: seq<ReadOutcome>): State
    decreases |inputs|
  {
    if !s.open || s.hung || inputs == [] then s
    else match inputs[0]
      case Data(chunk) => ReadResults(Receive(s, chunk), inputs[1..])
      case ReadNothing => s
      case ReadLost => Lose(s)
  }

  function WriteLoop(s: State, outputs: seq<WriteOutcome>): State
    decreases |outputs|
  {
    if s.writeBuffer == "" || outputs == [] then s
    else match outputs[0]
      case Wrote(n) => if n == 0 || n > |s.writeBuffer| then s else WriteLoop(Sent(s, n), outputs[1..])
      case WriteNothing => s
      case WriteLost => Lose(s)
  }

  /** `websocket_exec_flush_queue` */
  function FlushQueue(s: State, outputs: seq<WriteOutcome>): State {
    if !s.open then s else WriteLoop(Load(s), outputs)
  }

  /** `websocket_exec_tick` */
  function Tick(s: State, responds: bool, spawned: bool, inputs: seq<ReadOutcome>, outputs: seq<WriteOutcome>): State {
    var s1 := if Alive(s, responds) then s else Respawn(s, spawned);
    var s2 := ReadResults(s1, inputs);
    if s2.hung then s2 else FlushQueue(s2, outputs)
  }

  lemma {:induction false} ApplyKeepsSocket(s: State, r: ResultOutcome)
    ensures ApplyResult(s, r).open == s.open && ApplyResult(s, r).readBuffer == s.readBuffer
  {
  }

  // ----- the object -----

  class Broker {
    var pid: bool
    var open: bool
    var hung: bool
    var readBuffer: string
    var writeBuffer: string
    var pending: seq<Job>
    var inflight: Option<Job>
    var log: seq<Effect>
    const limit: nat

    function Value(): State
      reads this
    {
      State(pid, open, hung, readBuffer, writeBuffer, pending, inflight, log)
    }

    constructor (limit: nat)
      ensures Value() == INITIAL && this.limit == limit
    {
      pid, open, hung, readBuffer, writeBuffer := false, false, false, "", "";
      pending, inflight, log, this.limit := [], None, [], limit;
    }

    method ClearIpcState()
      modifies this
      ensures Value() == ClearIpc(old(Value()))
    {
      open, readBuffer, writeBuffer, inflight := false, "", "", None;
    }

    method FailInflightJob()
      modifies this
      ensures Value() == FailInflight(old(Value()))
    {
      if inflight.None? { return; }
      log := log + [Failed(inflight.value)];
      inflight, writeBuffer := None, "";
    }

    method QueueJob(j: Job)
      modifies this
      ensures Value() == Enqueue(old(Value()), j, limit)
    {
      hide JobBody, Line;
      if j.request.connection == "" { return; }
      var queuedBytes := |writeBuffer|;
      if inflight.Some? { queuedBytes := queuedBytes + |Line(inflight.value)|; }
      var k := 0;
      assert pending[..0] == [];
      while k < |pending|
        invariant k <= |pending|
        invariant queuedBytes == |writeBuffer| + InflightBytes(Value()) + LineBytes(pending[..k])
      {
        assert pending[..k + 1][..k] == pending[..k];
        queuedBytes := queuedBytes + |Line(pending[k])|;
        k := k + 1;
      }
      assert pending[..|pending|] == pending;
      queuedBytes := queuedBytes + |JobBody(j.request)|;
      if queuedBytes > limit {
        log := log + [Overflowed(j.request.connection)];
        return;
      }
      pending := pending + [j];
    }

    method HandleIpcLine(line: string)
      modifies this
      ensures Value() == ApplyResult(old(Value()), ReadResultLine(line))
    {
      match ReadResultLine(line) {
        case NoResult =>
        case BrokerHangs => hung := true;
        case Result(connection, state, commands) =>
          var expected := if inflight.Some? then inflight.value.request.connection else "";
          if expected != "" && connection != "" && expected != connection {
            log := log + [Mismatched(expected, connection)];
          } else {
            assert log + [] == log;
          }
          log := log + [Applied(inflight, connection, state, commands)];
          inflight := None;
      }
    }

    /** Takes every complete line off the front of the buffer. */
    method DrainBuffer()
      modifies this
      ensures Value() == Drain(old(Value())) && open == old(open)
    {
      hide ReadResultLine, ApplyResult;
      while HasLine(readBuffer) && !hung
        invariant open == old(open) && Drain(Value()) == Drain(old(Value()))
        decreases |readBuffer|
      {
        var end := LineEnd(readBuffer);
        var line := readBuffer[..end];
        readBuffer := readBuffer[end + 1..];
        ApplyKeepsSocket(Value(), ReadResultLine(line));
        HandleIpcLine(line);
      }
    }

    method ReadResultsLoop(inputs: seq<ReadOutcome>)
      requires !hung
      modifies this
      ensures Value() == ReadResults(old(Value()), inputs)
    {
      hide Drain;
      if !open { return; }
      var k := 0;
      assert inputs[0..] == inputs;
      while k < |inputs| && !hung
        invariant k <= |inputs| && open
        invariant ReadResults(Value(), inputs[k..]) == ReadResults(old(Value()), inputs)
      {
        assert inputs[k..][1..] == inputs[k + 1..];
        match inputs[k] {
          case ReadNothing => return;
          case ReadLost =>
            FailInflightJob();
            ClearIpcState();
            return;
          case Data(chunk) =>
            readBuffer := readBuffer + chunk;
            DrainBuffer();
        }
        k := k + 1;
      }
    }

    method FlushQueueLoop(outputs: seq<WriteOutcome>)
      modifies this
      ensures Value() == FlushQueue(old(Value()), outputs)
    {
      if !open { return; }
      if writeBuffer == "" && inflight.None? && |pending| > 0 {
        inflight := Some(pending[0]);
        writeBuffer := Line(pending[0]);
        pending := pending[1..];
      }
      var k := 0;
      assert outputs[0..] == outputs;
      while writeBuffer != "" && k < |outputs|
        invariant k <= |outputs|
        invariant WriteLoop(Value(), outputs[k..]) == WriteLoop(Load(old(Value())), outputs)
      {
        assert outputs[k..][1..] == outputs[k + 1..];
        match outputs[k] {
          case WriteNothing => return;
          case WriteLost =>
            FailInflightJob();
            ClearIpcState();
            return;
          case Wrote(n) =>
            if n == 0 || n > |writeBuffer| { return; }
            writeBuffer := writeBuffer[n..];
        }
        k := k + 1;
      }
    }

    method EnsureExecutor(responds: bool, spawned: bool)
      modifies this
      ensures Value() == Ensure(old(Value()), responds, spawned)
    {
      if pid && responds && open { return; }
      if pid || open {
        FailInflightJob();
        ClearIpcState();
        pid := false;
      }
      if spawned { pid, open := true, true; }
    }

    method HandleMessage(j: Job, responds: bool, spawned: bool, respondsNow: bool)
      modifies this
      ensures Value() == Offer(Ensure(old(Value()), responds, spawned), j, respondsNow, limit)
    {
      EnsureExecutor(responds, spawned);
      if !(pid && respondsNow && open) {
        log := log + [Refused(j.request.connection)];
        return;
      }
      QueueJob(j);
    }

    method TickOnce(responds: bool, spawned: bool, inputs: seq<ReadOutcome>, outputs: seq<WriteOutcome>)
      requires !hung
      modifies this
      ensures Value() == Tick(old(Value()), responds, spawned, inputs, outputs)
    {
      if !(pid && responds && open) {
        FailInflightJob();
        ClearIpcState();
        pid := false;
        EnsureExecutor(responds, spawned);
      }
      ReadResultsLoop(inputs);
      if !hung { FlushQueueLoop(outputs); }
    }
  }
}
