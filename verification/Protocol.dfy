/** The whole dispatch protocol: one broker, the executors it has forked, and the
    socket between them, as a transition system (src/linux_fastcgi.cpp:149-596,
    951-984).

    A stream may be cut anywhere, a write may be partial, a liveness check may
    fail and an executor may die at any step; an executor the broker has given up
    on goes on running on what its socket still holds. */
module Protocol {
  import opened Text
  import opened DTreeModel
  import opened JsonRoundTrip
  import opened LineStream
  import opened Dispatch
  import opened BrokerModel

  /** A job line an executor took, and what became of it. */
  datatype Ran = Ran(line: string, answer: Answer, outcome: LineOutcome)

  /** An executor process and its socket.  `sent` and `ran` are history: the jobs
      whose lines were put into this socket, and the lines taken from it. */
  datatype Exec = Exec(
    sent: seq<Job>, ran: seq<Ran>, alive: bool, hung: bool,
    toRead: string, buffer: string, outgoing: string, toBroker: string)

  const NEW_EXEC := Exec([], [], true, false, "", "", "", "")

  /** `accepted` is history.  While the broker's socket is open, the executor at
      its other end is the last one. */
  datatype Sys = Sys(broker: State, execs: seq<Exec>, accepted: seq<Job>, limit: nat)

  function Start(limit: nat): Sys {
    Sys(INITIAL, [], [], limit)
  }

  datatype Step =
    | Incoming(request: Request, responds: bool)
    | Replace(spawned: bool)
    | ReadSome(n: nat)
    | Disconnect
    | LoadNext
    | WriteSome(n: nat)
    | ExecRead(e: nat, n: nat)
    | ExecRun(e: nat, answer: Answer)
    | ExecWrite(e: nat, n: nat)
    | ExecDie(e: nat)

  // ----- steps -----

  function Cur(s: Sys): Exec
    requires s.execs != []
  {
    s.execs[|s.execs| - 1]
  }

  predicate Busy(x: Exec) {
    x.outgoing != "" || HasLine(x.buffer)
  }

  ghost predicate Enabled(s: Sys, step: Step) {
    match step
    case Incoming(r, _) => !s.broker.hung && ValidRequest(r)
    case Replace(_) => !s.broker.hung
    case ReadSome(n) => !s.broker.hung && s.broker.open && s.execs != [] && 0 < n <= |Cur(s).toBroker|
    case Disconnect => !s.broker.hung && s.broker.open
    case LoadNext => !s.broker.hung && s.broker.open && s.execs != []
    case WriteSome(n) => !s.broker.hung && s.broker.open && s.execs != [] && 0 < n <= |s.broker.writeBuffer|
    case ExecRead(e, n) =>
      e < |s.execs| && s.execs[e].alive && !s.execs[e].hung && !Busy(s.execs[e]) && 0 < n <= |s.execs[e].toRead|
    case ExecRun(e, a) =>
      && e < |s.execs| && s.execs[e].alive && !s.execs[e].hung
      && s.execs[e].outgoing == "" && HasLine(s.execs[e].buffer) && Valid(a.state)
    case ExecWrite(e, n) => e < |s.execs| && s.execs[e].alive && 0 < n <= |s.execs[e].outgoing|
    case ExecDie(e) => e < |s.execs|
  }

  function Reply(r: Ran): string {
    match r.outcome case Handled(_, response) => response + "\n" case _ => ""
  }

  /** The executor takes a line off its buffer and handles it. */
  function Run(x: Exec, a: Answer): Exec
    requires HasLine(x.buffer)
  {
    var end := LineEnd(x.buffer);
    var r := Ran(x.buffer[..end], a, ProcessJobLine(x.buffer[..end], a));
    x.(buffer := x.buffer[end + 1..], ran := x.ran + [r], outgoing := Reply(r), hung := r.outcome.Hangs?)
  }

  function SetCur(s: Sys, x: Exec): seq<Exec>
    requires s.execs != []
  {
    s.execs[|s.execs| - 1 := x]
  }

  function Inflight(b: State): seq<Job> {
    match b.inflight case None => [] case Some(j) => [j]
  }

  ghost function Next(s: Sys, step: Step): Sys
    requires Enabled(s, step)
  {
    match step
    case Incoming(r, responds) =>
      var j := Job(|s.accepted|, r);
      var b := Offer(s.broker, j, responds, s.limit);
      s.(broker := b, accepted := if |b.pending| > |s.broker.pending| then s.accepted + [j] else s.accepted)
    case Replace(spawned) =>
      s.(broker := Respawn(s.broker, spawned), execs := if spawned then s.execs + [NEW_EXEC] else s.execs)
    case ReadSome(n) =>
      var x := Cur(s);
      s.(broker := Receive(s.broker, x.toBroker[..n]), execs := SetCur(s, x.(toBroker := x.toBroker[n..])))
    case Disconnect => s.(broker := Lose(s.broker))
    case LoadNext =>
      var b := Load(s.broker);
      s.(broker := b,
         execs := if b == s.broker then s.execs else SetCur(s, Cur(s).(sent := Cur(s).sent + [b.inflight.value])))
    case WriteSome(n) =>
      s.(broker := Sent(s.broker, n),
         execs := SetCur(s, Cur(s).(toRead := Cur(s).toRead + s.broker.writeBuffer[..n])))
    case ExecRead(e, n) =>
      var x := s.execs[e];
      s.(execs := s.execs[e := x.(buffer := x.buffer + x.toRead[..n], toRead := x.toRead[n..])])
    case ExecRun(e, a) => s.(execs := s.execs[e := Run(s.execs[e], a)])
    case ExecWrite(e, n) =>
      var x := s.execs[e];
      s.(execs := s.execs[e := x.(toBroker := x.toBroker + x.outgoing[..n], outgoing := x.outgoing[n..])])
    case ExecDie(e) => s.(execs := s.execs[e := s.execs[e].(alive := false)])
  }

  /** The state after a run from a fresh broker; None if a step is not possible. */
  ghost function StateAfter(limit: nat, run: seq<Step>): Option<Sys> {
    if run == [] then Some(Start(limit))
    else
      var last := run[|run| - 1];
      match StateAfter(limit, run[..|run| - 1])
      case None => None
      case Some(s) => if Enabled(s, last) then Some(Next(s, last)) else None
  }

  // ----- what every run keeps -----

  /** The jobs whose slot was freed, in that order. */
  function Settled(log: seq<Effect>): seq<Job> {
    if log == [] then []
    else Settled(log[..|log| - 1]) + Settles(log[|log| - 1])
  }

  function Settles(e: Effect): seq<Job> {
    match e
    case Failed(j) => [j]
    case Applied(Some(j), _, _, _) => [j]
    case _ => []
  }

  /** Every job line ever put into a socket, executor after executor. */
  function AllSent(execs: seq<Exec>): seq<Job> {
    if execs == [] then [] else AllSent(execs[..|execs| - 1]) + execs[|execs| - 1].sent
  }

  /** Each accepted job is settled, in flight or pending, in acceptance order; and
      exactly the settled jobs and the one in flight were ever sent. */
  ghost predicate Ordered(s: Sys) {
    && s.accepted == Settled(s.broker.log) + Inflight(s.broker) + s.broker.pending
    && AllSent(s.execs) == Settled(s.broker.log) + Inflight(s.broker)
    && forall i | 0 <= i < |s.accepted| :: AcceptedOk(s.accepted[i], i)
  }

  ghost predicate AcceptedOk(j: Job, i: nat) {
    j.id == i && ValidRequest(j.request) && j.request.connection != ""
  }

  ghost predicate RanOk(r: Ran, j: Job) {
    && Valid(r.answer.state)
    && r.line == JobBody(j.request) && r.outcome == ProcessJobLine(r.line, r.answer)
  }

  /** An executor took the lines of its jobs one by one, whole; at most one is
      under way. */
  ghost predicate ExecOk(x: Exec) {
    && |x.ran| <= |x.sent| <= |x.ran| + 1
    && (forall k | 0 <= k < |x.sent| :: ValidRequest(x.sent[k].request))
    && (forall k | 0 <= k < |x.ran| :: RanOk(x.ran[k], x.sent[k]))
    && (x.hung ==> x.ran != [] && x.ran[|x.ran| - 1].outcome.Hangs?)
    && (|x.sent| == |x.ran| ==> x.toRead == "" && x.buffer == "")
    && (|x.sent| > |x.ran| ==> !x.hung && x.outgoing == "" && x.buffer + x.toRead <= Line(x.sent[|x.ran|]))
  }

  ghost predicate ExecsOk(execs: seq<Exec>) {
    forall e | 0 <= e < |execs| :: ExecOk(execs[e])
  }

  /** The line the executor answered with frees no slot. */
  predicate Barren(r: Ran) {
    match r.outcome case Handled(_, response) => !ReadResultLine(response).Result? case _ => true
  }

  /** What is on its way back to the broker. */
  function Returning(b: State, x: Exec): string {
    b.readBuffer + x.toBroker + x.outgoing
  }

  /** The job line is on its way, and nothing comes back yet. */
  ghost predicate Sending(b: State, x: Exec) {
    && |x.sent| == |x.ran| + 1 && b.inflight == Some(x.sent[|x.ran|])
    && x.buffer + x.toRead + b.writeBuffer == Line(x.sent[|x.ran|])
    && b.readBuffer == "" && x.toBroker == ""
  }

  /** The job line is all taken; its answer is on the way, or there is none. */
  ghost predicate Answering(b: State, x: Exec) {
    && |x.sent| == |x.ran| && b.writeBuffer == ""
    && match b.inflight
       case None => Returning(b, x) == "" && !x.hung
       case Some(j) =>
         && x.ran != [] && j == x.sent[|x.ran| - 1]
         && (Returning(b, x) == Reply(x.ran[|x.ran| - 1]) || (Returning(b, x) == "" && Barren(x.ran[|x.ran| - 1])))
  }

  /** At most one job is outstanding, and the bytes in all buffers are the bytes
      of its line, or of its answer. */
  ghost predicate Linked(s: Sys) {
    var b := s.broker;
    if !b.open then b.inflight == None && b.readBuffer == "" && b.writeBuffer == ""
    else s.execs != [] && NoNewline(b.readBuffer) && (Sending(b, Cur(s)) || Answering(b, Cur(s)))
  }

  /** The effect is the answer of run `k` of executor `e`, to its own job. */
  ghost predicate Answers(execs: seq<Exec>, e: nat, k: nat, effect: Effect) {
    && e < |execs| && k < |execs[e].ran| && k < |execs[e].sent|
    && var j, a := execs[e].sent[k], execs[e].ran[k].answer;
       effect == Applied(Some(j), j.request.connection, Canon(a.state), Canon(CommandsTree(a.commands)))
  }

  ghost predicate EffectOk(execs: seq<Exec>, effect: Effect) {
    match effect
    case Mismatched(_, _) => false
    case Applied(_, _, _, _) => exists e: nat, k: nat :: Answers(execs, e, k, effect)
    case _ => true
  }

  ghost predicate LogOk(s: Sys) {
    forall i | 0 <= i < |s.broker.log| :: EffectOk(s.execs, s.broker.log[i])
  }

  /** The newline is not counted when a job is accepted; hence the one. */
  predicate Bounded(b: State, limit: nat) {
    && InflightBytes(b) + LineBytes(b.pending) <= limit + 1
    && |b.writeBuffer| <= InflightBytes(b)
  }

  ghost predicate Inv(s: Sys) {
    Ordered(s) && ExecsOk(s.execs) && Linked(s) && LogOk(s) && Bounded(s.broker, s.limit)
  }

  lemma StartInv(limit: nat)
    ensures Inv(Start(limit))
  {
  }

  // ----- executor steps -----

  lemma {:induction false} AllSentSame(execs: seq<Exec>, e: nat, x: Exec)
    requires e < |execs| && x.sent == execs[e].sent
    ensures AllSent(execs[e := x]) == AllSent(execs)
  {
    var n := |execs| - 1;
    if e < n {
      AllSentSame(execs[..n], e, x);
      assert execs[e := x][..n] == execs[..n][e := x];
    } else {
      assert execs[e := x][..n] == execs[..n];
    }
  }

  /** What an executor ran stays as it is. */
  predicate Grows(before: Exec, later: Exec) {
    before.sent <= later.sent && before.ran <= later.ran
  }

  lemma EffectStays(execs: seq<Exec>, later: seq<Exec>, effect: Effect)
    requires |execs| <= |later| && forall e | 0 <= e < |execs| :: Grows(execs[e], later[e])
    requires EffectOk(execs, effect)
    ensures EffectOk(later, effect)
  {
    hide Canon, CommandsTree;
    if effect.Applied? {
      var e: nat, k: nat :| Answers(execs, e, k, effect);
      assert Grows(execs[e], later[e]);
      assert Answers(later, e, k, effect);
    }
  }

  lemma LogStays(s: Sys, later: Sys)
    requires LogOk(s) && later.broker.log == s.broker.log
    requires |s.execs| <= |later.execs| && forall e | 0 <= e < |s.execs| :: Grows(s.execs[e], later.execs[e])
    ensures LogOk(later)
  {
    hide EffectOk;
    forall i | 0 <= i < |later.broker.log| ensures EffectOk(later.execs, later.broker.log[i]) {
      EffectStays(s.execs, later.execs, s.broker.log[i]);
    }
  }

  /** A step of executor `e` alone. */
  lemma ExecStep(s: Sys, e: nat, x: Exec)
    requires Inv(s) && e < |s.execs| && ExecOk(x) && x.sent == s.execs[e].sent && s.execs[e].ran <= x.ran
    requires s.broker.open && e == |s.execs| - 1 ==> Sending(s.broker, x) || Answering(s.broker, x)
    ensures Inv(s.(execs := s.execs[e := x]))
  {
    hide ExecOk, Sending, Answering, Bounded, EffectOk;
    AllSentSame(s.execs, e, x);
    LogStays(s, s.(execs := s.execs[e := x]));
  }

  /** A read moves a prefix of the line from the socket to the buffer. */
  lemma ReadStep(s: Sys, e: nat, n: nat)
    requires Inv(s) && Enabled(s, ExecRead(e, n))
    ensures Inv(Next(s, ExecRead(e, n)))
  {
    hide JobBody, ProcessJobLine, Line, LogOk, Bounded, Ordered, ExecOk, Sending, Answering;
    var x := s.execs[e];
    var y := x.(buffer := x.buffer + x.toRead[..n], toRead := x.toRead[n..]);
    assert ExecOk(x);
    assert y.buffer + y.toRead == x.buffer + x.toRead;
    KeepsExec(x, y);
    if s.broker.open && e == |s.execs| - 1 { KeepsLink(s.broker, x, y); }
    ExecStep(s, e, y);
  }

  lemma KeepsExec(x: Exec, y: Exec)
    requires ExecOk(x) && y.sent == x.sent && y.ran == x.ran && y.hung == x.hung && y.outgoing == x.outgoing
    requires y.buffer + y.toRead == x.buffer + x.toRead && x.toRead != ""
    ensures ExecOk(y)
  {
  }

  lemma KeepsLink(b: State, x: Exec, y: Exec)
    requires y.sent == x.sent && y.ran == x.ran && y.outgoing == x.outgoing && y.toBroker == x.toBroker
        && y.hung == x.hung
    requires y.buffer + y.toRead == x.buffer + x.toRead
    requires Sending(b, x) || Answering(b, x)
    ensures Sending(b, y) || Answering(b, y)
  {
    hide Barren, Reply, Line;
  }

  /** The only line an executor can complete is the job it was sent. */
  lemma TakenLine(x: Exec)
    requires ExecOk(x) && HasLine(x.buffer)
    ensures |x.sent| == |x.ran| + 1 && x.toRead == "" && x.outgoing == ""
    ensures x.buffer == Line(x.sent[|x.ran|]) && LineEnd(x.buffer) == |JobBody(x.sent[|x.ran|].request)|
  {
    hide JobBody;
    var j := x.sent[|x.ran|];
    var end := LineEnd(x.buffer);
    assert x.buffer[end] == '\n';
    BodyIsLine(j);
    assert (x.buffer + x.toRead)[end] == '\n' == Line(j)[end];
    assert end == |JobBody(j.request)|;
  }

  lemma BodyIsLine(j: Job)
    requires ValidRequest(j.request)
    ensures NoNewline(JobBody(j.request))
  {
    JobRunsIff(j.request, Answer(EMPTY_TREE, []));
  }

  lemma RunExec(x: Exec, a: Answer)
    requires ExecOk(x) && HasLine(x.buffer) && Valid(a.state)
    ensures ExecOk(Run(x, a))
    ensures forall b | Sending(b, x) :: Answering(b, Run(x, a))
    ensures forall b :: !Answering(b, x)
  {
    hide JobBody, ProcessJobLine, Barren;
    TakenLine(x);
    var j := x.sent[|x.ran|];
    var y := Run(x, a);
    assert y.buffer == "" && x.buffer[..LineEnd(x.buffer)] == JobBody(j.request);
    forall b | Sending(b, x) ensures Answering(b, y) {
      SameLength(x.buffer + x.toRead, b.writeBuffer, Line(j));
      assert Returning(b, y) == "" + "" + Reply(y.ran[|y.ran| - 1]) == Reply(y.ran[|y.ran| - 1]);
    }
  }

  lemma SameLength(a: string, b: string, whole: string)
    requires a + b == whole && |a| == |whole|
    ensures b == ""
  {
  }

  lemma RunStep(s: Sys, e: nat, a: Answer)
    requires Inv(s) && Enabled(s, ExecRun(e, a))
    ensures Inv(Next(s, ExecRun(e, a)))
  {
    hide Run, LogOk, Bounded, Ordered, ExecOk, Sending, Answering;
    RunExec(s.execs[e], a);
    RunKeeps(s.execs[e], a);
    ExecStep(s, e, Run(s.execs[e], a));
  }

  lemma RunKeeps(x: Exec, a: Answer)
    requires HasLine(x.buffer)
    ensures Run(x, a).sent == x.sent && x.ran <= Run(x, a).ran
  {
  }

  lemma WriteStep(s: Sys, e: nat, n: nat)
    requires Inv(s) && Enabled(s, ExecWrite(e, n))
    ensures Inv(Next(s, ExecWrite(e, n)))
  {
    hide JobBody, ProcessJobLine, Line, LogOk, Bounded, Ordered, Barren, Reply, RanOk;
    var x := s.execs[e];
    var y := x.(toBroker := x.toBroker + x.outgoing[..n], outgoing := x.outgoing[n..]);
    assert ExecOk(y);
    assert y.toBroker + y.outgoing == x.toBroker + x.outgoing;
    assert forall b :: Returning(b, y) == b.readBuffer + (y.toBroker + y.outgoing);
    assert forall b :: Returning(b, x) == b.readBuffer + (x.toBroker + x.outgoing);
    ExecStep(s, e, y);
  }

  lemma DieStep(s: Sys, e: nat)
    requires Inv(s) && Enabled(s, ExecDie(e))
    ensures Inv(Next(s, ExecDie(e)))
  {
    hide JobBody, ProcessJobLine, Line, LogOk, Bounded, Ordered, Barren, Reply, RanOk;
    ExecStep(s, e, s.execs[e].(alive := false));
  }

  // ----- broker steps -----

  lemma {:induction false} LineBytesFront(js: seq<Job>)
    requires js != []
    ensures LineBytes(js) == |Line(js[0])| + LineBytes(js[1..])
  {
    hide Line;
    var n := |js| - 1;
    if n > 0 {
      LineBytesFront(js[..n]);
      assert js[..n][1..] == js[1..][..n - 1];
    }
  }

  lemma LogGrows(s: Sys, later: Sys, effect: Effect)
    requires LogOk(s) && later.execs == s.execs
    requires later.broker.log == s.broker.log + [effect] && EffectOk(s.execs, effect)
    ensures LogOk(later)
  {
    hide EffectOk;
  }

  lemma SettledGrows(log: seq<Effect>, e: Effect)
    ensures Settled(log + [e]) == Settled(log) + Settles(e)
  {
    assert (log + [e])[..|log|] == log;
  }

  /** Giving an executor up settles the job in flight as failed. */
  lemma LoseKeeps(s: Sys)
    requires Inv(s)
    ensures Inv(s.(broker := Lose(s.broker)))
    ensures Idle(Lose(s.broker))
  {
    hide ExecOk, EffectOk, AcceptedOk, AllSent, Settled, LineBytes, Line, Sending, Answering;
    var b, later := s.broker, s.(broker := Lose(s.broker));
    if b.inflight.Some? {
      var e := Failed(b.inflight.value);
      SettledGrows(b.log, e);
      FailedIsOk(s.execs, b.inflight.value);
      LogGrows(s, later, e);
    } else {
      assert LogOk(later);
    }
    assert Settled(later.broker.log) + [] == Settled(b.log) + Inflight(b);
  }

  lemma FailedIsOk(execs: seq<Exec>, j: Job)
    ensures EffectOk(execs, Failed(j))
  {
  }

  /** No socket, and nothing left over from one. */
  predicate Idle(b: State) {
    !b.open && b.inflight == None && b.readBuffer == "" && b.writeBuffer == ""
  }

  /** `Inv` but for the link, which an idle broker can open afresh. */
  lemma Reopen(s: Sys, b: State, execs: seq<Exec>)
    requires Inv(s) && Idle(s.broker) && b == s.broker.(pid := b.pid, open := b.open)
    requires execs == if b.open then s.execs + [NEW_EXEC] else s.execs
    ensures Inv(s.(broker := b, execs := execs))
  {
    hide ExecOk, EffectOk, AcceptedOk, Sending, Answering, Settled, LineBytes, Line;
    var later := s.(broker := b, execs := execs);
    if b.open {
      assert execs[..|s.execs|] == s.execs;
      assert AllSent(execs) == AllSent(s.execs) + [];
    }
    NewExecIsIdle(b);
    LogStays(s, later);
  }

  lemma ReplaceStep(s: Sys, spawned: bool)
    requires Inv(s) && Enabled(s, Replace(spawned))
    ensures Inv(Next(s, Replace(spawned)))
  {
    hide Inv, Lose;
    LoseKeeps(s);
    var later := Next(s, Replace(spawned));
    Reopen(s.(broker := Lose(s.broker)), later.broker, later.execs);
  }

  lemma NewExecIsIdle(b: State)
    ensures ExecOk(NEW_EXEC)
    ensures b.writeBuffer == "" && b.readBuffer == "" && b.inflight == None ==> Answering(b, NEW_EXEC)
  {
  }

  lemma LoadStep(s: Sys)
    requires Inv(s) && Enabled(s, LoadNext)
    ensures Inv(Next(s, LoadNext))
  {
    hide ExecOk, EffectOk, Sending, Answering, Settled, LineBytes, Line, ValidRequest, Grows;
    var b := s.broker;
    if b.writeBuffer == "" && b.inflight.None? && b.pending != [] {
      var j := b.pending[0];
      var x, later := Cur(s), Next(s, LoadNext);
      var y := x.(sent := x.sent + [j]);
      LineBytesFront(b.pending);
      EmptyLine();
      assert s.accepted == Settled(b.log) + [j] + b.pending[1..];
      assert later.execs[..|s.execs| - 1] == s.execs[..|s.execs| - 1];
      assert AllSent(later.execs) == AllSent(s.execs) + [j];
      assert s.accepted[|Settled(b.log)|] == j;
      LoadExec(b, x, j);
      GrowsHere(s.execs, later.execs, |s.execs| - 1);
      LogStays(s, later);
    }
  }

  lemma GrowsHere(execs: seq<Exec>, later: seq<Exec>, e: nat)
    requires e < |execs| == |later| && later == execs[e := later[e]] && execs[e].sent <= later[e].sent
        && execs[e].ran <= later[e].ran
    ensures forall i | 0 <= i < |execs| :: Grows(execs[i], later[i])
  {
  }

  lemma EmptyLine()
    ensures forall j :: Line(j) != ""
  {
    hide JobBody;
  }

  lemma LoadExec(b: State, x: Exec, j: Job)
    requires ExecOk(x) && (Sending(b, x) || Answering(b, x)) && b.inflight == None && b.pending != []
        && ValidRequest(j.request)
    ensures ExecOk(x.(sent := x.sent + [j]))
    ensures Sending(b.(inflight := Some(j), pending := b.pending[1..], writeBuffer := Line(j)),
        x.(sent := x.sent + [j]))
  {
    hide Line, Reply, Barren;
  }

  lemma SendStep(s: Sys, n: nat)
    requires Inv(s) && Enabled(s, WriteSome(n))
    ensures Inv(Next(s, WriteSome(n)))
  {
    hide Line, JobBody, EffectOk, ExecOk, Settled, LineBytes, Sending, Answering;
    var b, x, later := s.broker, Cur(s), Next(s, WriteSome(n));
    var y := x.(toRead := x.toRead + b.writeBuffer[..n]);
    AllSentSame(s.execs, |s.execs| - 1, y);
    SendExec(b, x, n);
    LogStays(s, later);
  }

  lemma SendExec(b: State, x: Exec, n: nat)
    requires ExecOk(x) && (Sending(b, x) || Answering(b, x)) && 0 < n <= |b.writeBuffer|
    ensures var y := x.(toRead := x.toRead + b.writeBuffer[..n]);
      ExecOk(y) && Sending(Sent(b, n), y)
  {
    hide Line, Reply, Barren;
    var y := x.(toRead := x.toRead + b.writeBuffer[..n]);
    assert x.buffer + x.toRead + b.writeBuffer == (y.buffer + y.toRead) + b.writeBuffer[n..];
  }

  lemma OfferStep(s: Sys, r: Request, responds: bool)
    requires Inv(s) && Enabled(s, Incoming(r, responds))
    ensures Inv(Next(s, Incoming(r, responds)))
  {
    hide Line, JobBody, Answers, ExecOk, Settled, LineBytes, Sending, Answering, ValidRequest;
    var b, later := s.broker, Next(s, Incoming(r, responds));
    var j := Job(|s.accepted|, r);
    OfferCases(b, j, responds, s.limit);
    if later.broker.log == b.log {
      LogStays(s, later);
    } else {
      var e := later.broker.log[|b.log|];
      SettledGrows(b.log, e);
      LogGrows(s, later, e);
    }
    OfferLinked(s, later);
  }

  lemma OfferCases(b: State, j: Job, responds: bool, limit: nat)
    ensures var c := Offer(b, j, responds, limit);
      || c == b
      || (exists e :: c == b.(log := b.log + [e]) && (e.Refused? || e.Overflowed?))
      || (c == b.(pending := b.pending + [j]) && j.request.connection != "" && (Bounded(b, limit)
          ==> Bounded(c, limit)))
  {
    hide JobBody;
    assert (b.pending + [j])[..|b.pending|] == b.pending;
  }

  lemma OfferLinked(s: Sys, later: Sys)
    requires Linked(s) && later.execs == s.execs
    requires later.broker == s.broker.(pending := later.broker.pending, log := later.broker.log)
    ensures Linked(later)
  {
    hide Line, Reply, Barren, JobBody;
  }

  // ----- reading results -----

  lemma DrainNothing(b: State)
    requires NoNewline(b.readBuffer)
    ensures Drain(b) == b
  {
  }

  lemma DrainOne(b: State, body: string)
    requires !b.hung && NoNewline(body) && b.readBuffer == body + "\n"
    ensures Drain(b) == ApplyResult(b.(readBuffer := ""), ReadResultLine(body))
  {
    hide ReadResultLine;
    LineEndAt(body, "");
    assert body + "\n" + "" == body + "\n";
    var end := LineEnd(b.readBuffer);
    assert b.readBuffer[..end] == body && b.readBuffer[end + 1..] == "";
    var next := ApplyResult(b.(readBuffer := ""), ReadResultLine(body));
    ApplyKeepsSocket(b.(readBuffer := ""), ReadResultLine(body));
    DrainNothing(next);
  }

  lemma PrefixOfLine(a: string, b: string, body: string)
    requires NoNewline(body) && (a + b == body + "\n" || a + b == "")
    ensures NoNewline(a) || (a == body + "\n" && b == "")
  {
    var whole := body + "\n";
    if a + b == whole {
      assert forall i | 0 <= i < |a| :: a[i] == whole[i];
      if |a| == |whole| { assert a == whole; }
    }
  }

  /** What a handled line of a job is answered with. */
  lemma HandledReply(r: Ran, j: Job)
    requires ValidRequest(j.request) && RanOk(r, j) && r.outcome.Handled?
    ensures StateSignFree(j.request.state)
    ensures r.outcome == Handled(ExpectedEvent(j.request), ResponseBody(j.request.connection, r.answer))
  {
    hide JobBody, ProcessJobLine, ExpectedEvent, ResponseBody, ValidRequest;
    JobRunsIff(j.request, r.answer);
  }

  /** The slot's own job is answered: `c` is `b` after its result was applied. */
  ghost predicate AppliedOwn(b: State, c: State, j: Job, a: Answer) {
    && c.log == b.log + [Applied(Some(j), j.request.connection, Canon(a.state), Canon(CommandsTree(a.commands)))]
    && c == b.(readBuffer := "", inflight := None, log := c.log)
  }

  /** Bytes come back only while the slot's own job is being answered. */
  lemma ReturningMeans(b: State, x: Exec)
    requires (Sending(b, x) || Answering(b, x)) && x.toBroker != ""
    ensures Answering(b, x) && x.ran != [] && b.inflight == Some(x.sent[|x.ran| - 1])
        && x.ran[|x.ran| - 1].outcome.Handled?
    ensures Returning(b, x) == x.ran[|x.ran| - 1].outcome.response + "\n"
  {
    hide Line, Barren;
    assert Returning(b, x) != "";
  }

  lemma ReceiveCases(b: State, x: Exec, n: nat)
    requires ExecOk(x) && (Sending(b, x) || Answering(b, x)) && NoNewline(b.readBuffer) && !b.hung
    requires 0 < n <= |x.toBroker|
    ensures |x.sent| == |x.ran| && x.ran != [] && b.inflight == Some(x.sent[|x.ran| - 1]) && b.writeBuffer == ""
    ensures var y, c, r := x.(toBroker := x.toBroker[n..]), Receive(b, x.toBroker[..n]), x.ran[|x.ran| - 1];
      || (c == b.(readBuffer := b.readBuffer + x.toBroker[..n]) && NoNewline(c.readBuffer) && Answering(c, y))
      || (r.outcome.Handled? && c == ApplyResult(b.(readBuffer := ""), ReadResultLine(r.outcome.response))
          && y.toBroker == "" && y.outgoing == "")
  {
    hide Line, Drain, ApplyResult, ReadResultLine, ValidRequest, RanOk, Barren, NoNewline, Returning;
    ReturningMeans(b, x);
    var body := x.ran[|x.ran| - 1].outcome.response;
    AnswerIsLine(x.ran[|x.ran| - 1], x.sent[|x.ran| - 1]);
    var y := x.(toBroker := x.toBroker[n..]);
    var front := b.readBuffer + x.toBroker[..n];
    ReturningSplit(b, x, n);
    PrefixOfLine(front, y.toBroker + y.outgoing, body);
    if NoNewline(front) {
      DrainNothing(b.(readBuffer := front));
    } else {
      DrainOne(b.(readBuffer := front), body);
    }
  }

  lemma ReturningSplit(b: State, x: Exec, n: nat)
    requires n <= |x.toBroker|
    ensures var y, front := x.(toBroker := x.toBroker[n..]), b.readBuffer + x.toBroker[..n];
      front + (y.toBroker + y.outgoing) == Returning(b, x) == Returning(b.(readBuffer := front), y)
  {
  }

  lemma AnswerIsLine(r: Ran, j: Job)
    requires ValidRequest(j.request) && RanOk(r, j) && r.outcome.Handled?
    ensures NoNewline(r.outcome.response)
  {
    hide JobBody, ProcessJobLine, ExpectedEvent, ResponseBody, ValidRequest;
    HandledReply(r, j);
    ResultAppliesIff(j.request.connection, r.answer);
  }

  lemma ApplyOwn(b: State, x: Exec)
    requires !b.hung && b.writeBuffer == "" && ExecOk(x) && x.toBroker == "" && x.outgoing == ""
    requires |x.sent| == |x.ran| && x.ran != [] && b.inflight == Some(x.sent[|x.ran| - 1])
    requires x.ran[|x.ran| - 1].outcome.Handled?
    ensures var r := x.ran[|x.ran| - 1];
      var c := ApplyResult(b.(readBuffer := ""), ReadResultLine(r.outcome.response));
      && Answering(c, x)
      && (AppliedOwn(b, c, x.sent[|x.ran| - 1], r.answer) || c == b.(readBuffer := "", hung := c.hung))
  {
    hide JobBody, ProcessJobLine, ExpectedEvent, ResponseBody, ValidRequest, ReadResultLine, Canon, CommandsTree;
    var r, j := x.ran[|x.ran| - 1], x.sent[|x.ran| - 1];
    HandledReply(r, j);
    ResultAppliesIff(j.request.connection, r.answer);
    assert b.log + [] == b.log;
  }

  lemma ReceiveStep(s: Sys, n: nat)
    requires Inv(s) && Enabled(s, ReadSome(n))
    ensures Inv(Next(s, ReadSome(n)))
  {
    hide Line, JobBody, EffectOk, ExecOk, Settled, LineBytes, Sending, Answering, Barren, Reply, Receive,
      ApplyResult, ReadResultLine, Canon, CommandsTree;
    var b, x, later := s.broker, Cur(s), Next(s, ReadSome(n));
    var y, c := x.(toBroker := x.toBroker[n..]), later.broker;
    AllSentSame(s.execs, |s.execs| - 1, y);
    ReceiveCases(b, x, n);
    ReceiveExec(x, y);
    if c == b.(readBuffer := b.readBuffer + x.toBroker[..n]) && NoNewline(c.readBuffer) && Answering(c, y) {
      LogStays(s, later);
    } else {
      ApplyOwn(b, y);
      ApplyKeepsSocket(b.(readBuffer := ""), ReadResultLine(x.ran[|x.ran| - 1].outcome.response));
      var j, a := x.sent[|x.ran| - 1], x.ran[|x.ran| - 1].answer;
      if AppliedOwn(b, c, j, a) {
        AppliedOrdered(s, later, j, a);
      } else {
        LogStays(s, later);
      }
    }
  }

  lemma ReceiveExec(x: Exec, y: Exec)
    requires ExecOk(x) && y == x.(toBroker := y.toBroker)
    ensures ExecOk(y)
  {
  }

  lemma AppliedOrdered(s: Sys, later: Sys, j: Job, a: Answer)
    requires LogOk(s) && s.broker.inflight == Some(j) && AppliedOwn(s.broker, later.broker, j, a)
    requires s.execs != [] && Cur(s).ran != [] && |Cur(s).sent| == |Cur(s).ran|
    requires j == Cur(s).sent[|Cur(s).ran| - 1] && a == Cur(s).ran[|Cur(s).ran| - 1].answer
    requires |later.execs| == |s.execs| && forall e | 0 <= e < |s.execs| :: Grows(s.execs[e], later.execs[e])
    ensures LogOk(later)
    ensures Settled(later.broker.log) + Inflight(later.broker) == Settled(s.broker.log) + Inflight(s.broker)
  {
    hide Canon, CommandsTree, Settled, EffectOk;
    var effect := later.broker.log[|s.broker.log|];
    SettledGrows(s.broker.log, effect);
    assert Settled(later.broker.log) + [] == Settled(later.broker.log);
    OwnEffect(s.execs, effect);
    var mid := s.(broker := s.broker.(log := later.broker.log));
    LogGrows(s, mid, effect);
    LogStays(mid, later);
  }

  lemma OwnEffect(execs: seq<Exec>, effect: Effect)
    requires execs != [] && effect.Applied?
    requires var x := execs[|execs| - 1];
      x.ran != [] && |x.sent| == |x.ran| && Answers(execs, |execs| - 1, |x.ran| - 1, effect)
    ensures EffectOk(execs, effect)
  {
  }

  // ----- what holds in every reachable state -----

  lemma NextInv(s: Sys, step: Step)
    requires Inv(s) && Enabled(s, step)
    ensures Inv(Next(s, step)) && Next(s, step).limit == s.limit
  {
    hide Inv, Enabled;
    match step
    case Incoming(r, responds) => OfferStep(s, r, responds);
    case Replace(spawned) => ReplaceStep(s, spawned);
    case ReadSome(n) => ReceiveStep(s, n);
    case Disconnect => LoseKeeps(s);
    case LoadNext => LoadStep(s);
    case WriteSome(n) => SendStep(s, n);
    case ExecRead(e, n) => ReadStep(s, e, n);
    case ExecRun(e, a) => RunStep(s, e, a);
    case ExecWrite(e, n) => WriteStep(s, e, n);
    case ExecDie(e) => DieStep(s, e);
  }

  /** Every reachable state, whatever the cuts, partial writes, crashes and
      replacements on the way, satisfies the invariant. */
  lemma {:induction false} ReachableInv(limit: nat, run: seq<Step>)
    ensures match StateAfter(limit, run) case None => true case Some(s) => Inv(s) && s.limit == limit
    decreases |run|
  {
    hide Inv, Next;
    if run == [] {
      StartInv(limit);
    } else {
      var front := run[..|run| - 1];
      ReachableInv(limit, front);
      var before := StateAfter(limit, front);
      if before.Some? && Enabled(before.value, run[|run| - 1]) {
        NextInv(before.value, run[|run| - 1]);
      }
    }
  }
}
