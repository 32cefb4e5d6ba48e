/** When a job in flight is finished, when it never is, and how the broker's own
    `tick` is a run of protocol steps (src/linux_fastcgi.cpp:284-385, 581-596). */
module ProtocolProgress {
  import opened Text
  import opened DTreeModel
  import opened JsonRoundTrip
  import opened LineStream
  import opened Dispatch
  import opened BrokerModel
  import opened Protocol

  // ----- steps that the outside has no part in -----

  /** Moving bytes between the broker and its executor, and running the handler. */
  predicate Inner(s: Sys, step: Step) {
    match step
    case ReadSome(_) => true
    case WriteSome(_) => true
    case ExecRead(e, _) => e == |s.execs| - 1
    case ExecRun(e, _) => e == |s.execs| - 1
    case ExecWrite(e, _) => e == |s.execs| - 1
    case _ => false
  }

  /** Nothing more happens unless something from outside intervenes. */
  ghost predicate AtRest(s: Sys) {
    forall step | Inner(s, step) :: !Enabled(s, step)
  }

  ghost predicate Served(s: Sys) {
    !s.broker.hung && s.broker.open && s.execs != [] && Cur(s).alive
  }

  /** The state of the connection, or the state its handler left behind, holds a
      negative number. */
  ghost predicate Signed(j: Job, r: Ran) {
    !StateSignFree(j.request.state) || !SignFree(r.answer.state)
  }

  lemma BarrenIff(r: Ran, j: Job)
    requires ValidRequest(j.request) && RanOk(r, j)
    ensures Barren(r) <==> Signed(j, r)
  {
    hide JobBody, ProcessJobLine, ExpectedEvent, ResponseBody, ValidRequest, ReadResultLine;
    JobRunsIff(j.request, r.answer);
    ResultAppliesIff(j.request.connection, r.answer);
  }

  lemma LineMoves(b: State, x: Exec)
    requires Sending(b, x) && ExecOk(x)
    ensures b.writeBuffer != "" || HasLine(x.buffer) || x.toRead != ""
  {
    hide JobBody, RanOk;
    var line := Line(x.sent[|x.ran|]);
    if b.writeBuffer == "" && x.toRead == "" {
      assert x.buffer == line && line[|line| - 1] == '\n';
    }
  }

  lemma AnswerMoves(b: State, x: Exec)
    requires Answering(b, x) && Returning(b, x) != "" && NoNewline(b.readBuffer)
    ensures x.toBroker != "" || x.outgoing != ""
  {
    hide Line, Barren;
    assert Returning(b, x) == b.readBuffer + (x.toBroker + x.outgoing);
    MoreToCome(b.readBuffer, x.toBroker + x.outgoing);
  }

  lemma MoreToCome(a: string, c: string)
    requires NoNewline(a) && a + c != "" && (a + c)[|a + c| - 1] == '\n'
    ensures c != ""
  {
    assert c == "" ==> a + c == a;
  }

  /** With a live executor, things are at rest exactly when the line in flight was
      taken and nothing is coming back. */
  lemma RestMeans(s: Sys)
    requires Inv(s) && Served(s)
    ensures AtRest(s) <==> |Cur(s).sent| == |Cur(s).ran| && Returning(s.broker, Cur(s)) == ""
  {
    hide Line, Barren, Reply, RanOk, Settled, EffectOk, LineBytes;
    var b, x, e := s.broker, Cur(s), |s.execs| - 1;
    assert ExecOk(x);
    if |x.sent| == |x.ran| {
      if Returning(b, x) != "" {
        AnswerMoves(b, x);
        assert if x.toBroker != "" then Inner(s, ReadSome(1)) && Enabled(s, ReadSome(1))
          else Inner(s, ExecWrite(e, 1)) && Enabled(s, ExecWrite(e, 1));
      }
    } else {
      LineMoves(b, x);
      var a := Answer(EMPTY_TREE, []);
      if b.writeBuffer != "" {
        assert Inner(s, WriteSome(1)) && Enabled(s, WriteSome(1));
      } else if HasLine(x.buffer) {
        assert Inner(s, ExecRun(e, a)) && Enabled(s, ExecRun(e, a));
      } else {
        assert Inner(s, ExecRead(e, 1)) && Enabled(s, ExecRead(e, 1));
      }
    }
  }

  /** A dispatcher with a live executor comes to rest with a job in flight only
      when a negative number was involved. */
  lemma RestsOnlyWhenSigned(limit: nat, run: seq<Step>)
    ensures match StateAfter(limit, run)
      case None => true
      case Some(s) =>
        Served(s) && AtRest(s) && s.broker.inflight.Some? ==>
          && Cur(s).ran != [] && |Cur(s).sent| == |Cur(s).ran|
          && s.broker.inflight.value == Cur(s).sent[|Cur(s).ran| - 1]
          && Signed(s.broker.inflight.value, Cur(s).ran[|Cur(s).ran| - 1])
  {
    hide StateAfter, Inv, AtRest;
    ReachableInv(limit, run);
    if StateAfter(limit, run).Some? {
      var s := StateAfter(limit, run).value;
      if Served(s) && AtRest(s) && s.broker.inflight.Some? { RestSigned(s); }
    }
  }

  lemma RestSigned(s: Sys)
    requires Inv(s) && Served(s) && AtRest(s) && s.broker.inflight.Some?
    ensures var x := Cur(s);
      && x.ran != [] && |x.sent| == |x.ran| && s.broker.inflight.value == x.sent[|x.ran| - 1]
      && Signed(x.sent[|x.ran| - 1], x.ran[|x.ran| - 1])
  {
    hide AtRest, Line, Signed, Settled, EffectOk, LineBytes, RanOk, Barren, Returning, Sending;
    RestMeans(s);
    var x := Cur(s);
    assert ExecOk(x);
    assert Answering(s.broker, x) by { NotSending(s.broker, x); }
    ReplyNotEmpty(x.ran[|x.ran| - 1]);
    BarrenIff(x.ran[|x.ran| - 1], x.sent[|x.ran| - 1]);
  }

  lemma NotSending(b: State, x: Exec)
    requires |x.sent| == |x.ran|
    ensures !Sending(b, x)
  {
  }

  lemma ReplyNotEmpty(r: Ran)
    ensures Reply(r) == "" ==> Barren(r)
  {
  }

  /** The read that completes the answer frees the slot if and only if no negative
      number was involved. */
  lemma AnswerFreesIff(s: Sys, n: nat)
    requires Inv(s) && Enabled(s, ReadSome(n)) && HasLine(s.broker.readBuffer + Cur(s).toBroker[..n])
    ensures var x := Cur(s);
      && x.ran != [] && |x.sent| == |x.ran|
      && (Next(s, ReadSome(n)).broker.inflight == None <==> !Signed(x.sent[|x.ran| - 1], x.ran[|x.ran| - 1]))
  {
    hide Line, JobBody, EffectOk, RanOk, Settled, LineBytes, Sending, Answering, Reply, Receive, ReadResultLine, Signed;
    var b, x := s.broker, Cur(s);
    assert ExecOk(x);
    ReceiveCases(b, x, n);
    LineEndNoneIff(b.readBuffer + x.toBroker[..n]);
    BarrenIff(x.ran[|x.ran| - 1], x.sent[|x.ran| - 1]);
  }

  lemma LineEndNoneIff(s: string)
    requires HasLine(s)
    ensures !NoNewline(s)
  {
  }

  /** Once a handler run is barren the job stays in flight: no step but giving the
      executor up ends it. */
  lemma SignedJobStaysInFlight(s: Sys, step: Step)
    requires Inv(s) && Enabled(s, step) && !step.Replace? && !step.Disconnect?
    requires s.broker.open && s.broker.inflight.Some? && |Cur(s).sent| == |Cur(s).ran|
    requires Signed(s.broker.inflight.value, Cur(s).ran[|Cur(s).ran| - 1])
    ensures Next(s, step).broker.inflight == s.broker.inflight
  {
    hide Line, JobBody, EffectOk, RanOk, Settled, LineBytes, Receive, ReadResultLine, Signed, Run;
    var b, x := s.broker, Cur(s);
    assert ExecOk(x);
    BarrenIff(x.ran[|x.ran| - 1], x.sent[|x.ran| - 1]);
    if step.ReadSome? { ReceiveCases(b, x, step.n); }
    if step.Incoming? { OfferCases(b, Job(|s.accepted|, step.request), step.responds, s.limit); }
  }

  // ----- inner steps come to an end -----

  function LinesLeft(x: Exec): int {
    |x.sent| - |x.ran|
  }

  function BytesLeft(s: Sys): nat
    requires s.execs != []
  {
    2 * |s.broker.writeBuffer| + |Cur(s).toRead| + 2 * |Cur(s).outgoing| + |Cur(s).toBroker|
  }

  /** The pair (lines to take, bytes to move) falls lexicographically, so no run
      of inner steps goes on for ever. */
  lemma InnerStepsEnd(s: Sys, step: Step)
    requires Inv(s) && s.execs != [] && Inner(s, step) && Enabled(s, step)
    ensures var later := Next(s, step);
      && later.execs != []
      && 0 <= LinesLeft(Cur(later)) <= LinesLeft(Cur(s))
      && (LinesLeft(Cur(later)) == LinesLeft(Cur(s)) ==> BytesLeft(later) < BytesLeft(s))
  {
    hide Line, JobBody, ProcessJobLine, EffectOk, RanOk, Settled, LineBytes, Receive, Sending, Answering, Reply;
    assert ExecOk(Cur(s));
    if step.ExecRun? { TakenLine(Cur(s)); }
    if step.ReadSome? { ReceiveKeepsWrite(s, step.n); }
  }

  lemma ReceiveKeepsWrite(s: Sys, n: nat)
    requires Inv(s) && Enabled(s, ReadSome(n))
    ensures Receive(s.broker, Cur(s).toBroker[..n]).writeBuffer == s.broker.writeBuffer
  {
    hide Line, JobBody, EffectOk, RanOk, Settled, LineBytes, Sending, Answering, Reply, Receive, ReadResultLine, Barren;
    assert ExecOk(Cur(s));
    ReceiveCases(s.broker, Cur(s), n);
  }

  // ----- the broker's entry points are runs of steps -----

  ghost function Follow(s: Sys, steps: seq<Step>): Option<Sys>
    decreases |steps|
  {
    if steps == [] then Some(s)
    else if Enabled(s, steps[0]) then Follow(Next(s, steps[0]), steps[1..])
    else None
  }

  lemma {:induction false} FollowConcat(s: Sys, a: seq<Step>, b: seq<Step>)
    requires Follow(s, a).Some?
    ensures Follow(s, a + b) == Follow(Follow(s, a).value, b)
    decreases |a|
  {
    hide Enabled, Next;
    if a == [] {
      assert a + b == b;
    } else {
      assert (a + b)[1..] == a[1..] + b;
      FollowConcat(Next(s, a[0]), a[1..], b);
    }
  }

  /** Steps that follow a run make a longer run. */
  lemma {:induction false} FollowReaches(limit: nat, run: seq<Step>, steps: seq<Step>)
    requires StateAfter(limit, run).Some? && Follow(StateAfter(limit, run).value, steps).Some?
    ensures StateAfter(limit, run + steps) == Follow(StateAfter(limit, run).value, steps)
    decreases |steps|
  {
    hide Enabled, Next;
    if steps == [] {
      assert run + steps == run;
    } else {
      var longer := run + [steps[0]];
      assert longer[..|run|] == run;
      assert run + steps == longer + steps[1..];
      FollowReaches(limit, longer, steps[1..]);
    }
  }

  /** Each chunk read is what the socket holds next. */
  ghost predicate Arrive(s: Sys, inputs: seq<ReadOutcome>)
    decreases |inputs|
  {
    s.broker.open && !s.broker.hung && inputs != [] && inputs[0].Data? ==>
      var n := |inputs[0].chunk|;
      s.execs != [] && 0 < n <= |Cur(s).toBroker| && inputs[0].chunk == Cur(s).toBroker[..n]
          && Arrive(Next(s, ReadSome(n)), inputs[1..])
  }

  ghost predicate Leads(s: Sys, steps: seq<Step>, b: State) {
    match Follow(s, steps) case None => false case Some(t) => t.broker == b && (b.open ==> t.execs != [])
  }

  lemma Leading(s: Sys, step: Step, more: seq<Step>, b: State)
    requires Enabled(s, step) && Leads(Next(s, step), more, b)
    ensures Leads(s, [step] + more, b)
  {
    hide Enabled, Next;
    assert ([step] + more)[1..] == more;
  }

  lemma {:induction false} ReadsAreSteps(s: Sys, inputs: seq<ReadOutcome>) returns (steps: seq<Step>)
    requires Arrive(s, inputs) && (s.broker.open ==> s.execs != [])
    ensures Leads(s, steps, ReadResults(s.broker, inputs))
    decreases |inputs|
  {
    hide Receive, Lose;
    var b := s.broker;
    if !b.open || b.hung || inputs == [] || inputs[0].ReadNothing? {
      steps := [];
    } else if inputs[0].ReadLost? {
      steps := [Disconnect] + [];
      LoseCloses(b);
      Leading(s, Disconnect, [], Lose(b));
    } else {
      var n := |inputs[0].chunk|;
      var more := ReadsAreSteps(Next(s, ReadSome(n)), inputs[1..]);
      Leading(s, ReadSome(n), more, ReadResults(Receive(b, inputs[0].chunk), inputs[1..]));
      steps := [ReadSome(n)] + more;
    }
  }

  lemma LoseCloses(b: State)
    ensures !Lose(b).open && Lose(b).hung == b.hung
  {
  }

  lemma {:induction false} WritesAreSteps(s: Sys, outputs: seq<WriteOutcome>) returns (steps: seq<Step>)
    requires s.broker.open && s.execs != [] && !s.broker.hung
    ensures Leads(s, steps, WriteLoop(s.broker, outputs))
    decreases |outputs|
  {
    hide Lose;
    var b := s.broker;
    if b.writeBuffer == "" || outputs == [] || outputs[0].WriteNothing? {
      steps := [];
    } else if outputs[0].WriteLost? {
      steps := [Disconnect] + [];
      LoseCloses(b);
      Leading(s, Disconnect, [], Lose(b));
    } else {
      var n := outputs[0].count;
      if n == 0 || n > |b.writeBuffer| {
        steps := [];
      } else {
        var more := WritesAreSteps(Next(s, WriteSome(n)), outputs[1..]);
        Leading(s, WriteSome(n), more, WriteLoop(Sent(b, n), outputs[1..]));
        steps := [WriteSome(n)] + more;
      }
    }
  }

  lemma FlushIsSteps(s: Sys, outputs: seq<WriteOutcome>) returns (steps: seq<Step>)
    requires !s.broker.hung && (s.broker.open ==> s.execs != [])
    ensures Leads(s, steps, FlushQueue(s.broker, outputs))
  {
    hide WriteLoop;
    if s.broker.open {
      var more := WritesAreSteps(Next(s, LoadNext), outputs);
      Leading(s, LoadNext, more, FlushQueue(s.broker, outputs));
      steps := [LoadNext] + more;
    } else {
      steps := [];
    }
  }

  /** The state the reads of a tick start from. */
  ghost function Checked(s: Sys, responds: bool, spawned: bool): Sys
    requires !s.broker.hung
  {
    if Alive(s.broker, responds) then s else Next(s, Replace(spawned))
  }

  /** One `tick`, with whatever its reads and writes came to, is a run of steps. */
  lemma TickIsRun(s: Sys, responds: bool, spawned: bool, inputs: seq<ReadOutcome>, outputs: seq<WriteOutcome>)
    returns (steps: seq<Step>)
    requires !s.broker.hung && (s.broker.open ==> s.execs != []) && Arrive(Checked(s, responds, spawned), inputs)
    ensures Leads(s, steps, Tick(s.broker, responds, spawned, inputs, outputs))
  {
    hide ReadResults, FlushQueue, Arrive;
    var s1 := Checked(s, responds, spawned);
    var first := ReadsAreSteps(s1, inputs);
    var s2 := Follow(s1, first).value;
    var second := [];
    if !s2.broker.hung { second := FlushIsSteps(s2, outputs); }
    FollowConcat(s1, first, second);
    if Alive(s.broker, responds) {
      steps := first + second;
    } else {
      Leading(s, Replace(spawned), first + second, Tick(s.broker, responds, spawned, inputs, outputs));
      steps := [Replace(spawned)] + (first + second);
    }
  }

  /** A message from a client is a run of steps too. */
  lemma MessageIsRun(s: Sys, r: Request, responds: bool, spawned: bool, respondsNow: bool) returns (steps: seq<Step>)
    requires Inv(s) && !s.broker.hung && ValidRequest(r)
    ensures Leads(s, steps, Offer(Ensure(s.broker, responds, spawned), Job(|s.accepted|, r), respondsNow, s.limit))
  {
    hide Offer, ValidRequest, Ordered, ExecsOk, LogOk, Bounded, Answering, Sending;
    var b := Ensure(s.broker, responds, spawned);
    var j := Job(|s.accepted|, r);
    OfferCases(b, j, respondsNow, s.limit);
    steps := [Incoming(r, respondsNow)] + [];
    if Alive(s.broker, responds) {
      Leading(s, Incoming(r, respondsNow), [], Offer(b, j, respondsNow, s.limit));
    } else {
      var s1 := Next(s, Replace(spawned));
      assert s1.broker == b;
      Leading(s1, Incoming(r, respondsNow), [], Offer(b, j, respondsNow, s.limit));
      Leading(s, Replace(spawned), steps, Offer(b, j, respondsNow, s.limit));
      steps := [Replace(spawned)] + steps;
    }
  }
}
