/** That accepted jobs are started and settled (src/linux_fastcgi.cpp:199-220, 284-385,
    951-984): as long as the executor lives and no negative number is involved, the
    dispatcher does not stop before every accepted job has had its result applied. */
module ProtocolLiveness {
  import opened Text
  import opened DTreeModel
  import opened JsonRoundTrip
  import opened LineStream
  import opened Dispatch
  import opened BrokerModel
  import opened Protocol
  import opened ProtocolProgress

  // ----- when a message is accepted -----

  /** The bytes a broker holds for its executor and those of a new job are within
      the limit. */
  predicate HasRoom(b: State, r: Request, limit: nat) {
    |b.writeBuffer| + InflightBytes(b) + LineBytes(b.pending) + |JobBody(r)| <= limit
  }

  /** A message becomes the newest pending job if and only if the executor is alive,
      the connection has a name and there is room; otherwise nothing is accepted. */
  lemma AcceptedIff(s: Sys, r: Request, responds: bool)
    requires Enabled(s, Incoming(r, responds))
    ensures var j, t := Job(|s.accepted|, r), Next(s, Incoming(r, responds));
      && t.execs == s.execs && t.limit == s.limit && t.broker.inflight == s.broker.inflight
      && if Alive(s.broker, responds) && r.connection != "" && HasRoom(s.broker, r, s.limit)
         then t.accepted == s.accepted + [j] && t.broker == s.broker.(pending := s.broker.pending + [j])
         else t.accepted == s.accepted && t.broker.pending == s.broker.pending
  {
    hide JobBody, LineBytes;
  }

  // ----- steps that make progress -----

  /** No state of a connection, and none that the living executor was left with,
      holds a negative number. */
  ghost predicate Unsigned(s: Sys)
    requires s.execs != []
  {
    && (forall i | 0 <= i < |s.accepted| :: StateSignFree(s.accepted[i].request.state))
    && forall k | 0 <= k < |Cur(s).ran| :: SignFree(Cur(s).ran[k].answer.state)
  }

  /** Bytes are moved, a handler without negative numbers is run, or the flush
      changes something. */
  ghost predicate Moving(s: Sys, step: Step) {
    Enabled(s, step) &&
    if step.LoadNext? then Next(s, step) != s
    else Inner(s, step) && (step.ExecRun? ==> SignFree(step.answer.state))
  }

  ghost predicate Idle(s: Sys) {
    forall step :: !Moving(s, step)
  }

  ghost predicate Ready(s: Sys) {
    Inv(s) && Served(s) && Unsigned(s)
  }

  lemma IdleIsRest(s: Sys)
    requires Idle(s)
    ensures AtRest(s)
  {
    forall step | Inner(s, step) ensures !Enabled(s, step) {
      assert !Moving(s, step);
      if step.ExecRun? {
        var a := Answer(EMPTY_TREE, []);
        assert SignFree(a.state) && Valid(a.state);
        assert !Moving(s, ExecRun(step.e, a));
      }
    }
  }

  /** A served broker that is idle has nothing pending, or is stuck with a job in
      flight that involves a negative number. */
  lemma IdleMeans(s: Sys)
    requires Inv(s) && Served(s) && Idle(s)
    ensures s.broker.inflight.None? ==> s.broker.pending == []
    ensures s.broker.inflight.Some? ==>
      var x := Cur(s);
      x.ran != [] && |x.sent| == |x.ran| && s.broker.inflight.value == x.sent[|x.ran| - 1]
      && Signed(s.broker.inflight.value, x.ran[|x.ran| - 1])
  {
    hide Signed, Idle, AtRest, Moving;
    IdleIsRest(s);
    if s.broker.inflight.Some? {
      RestSigned(s);
    } else {
      NothingMovesLoad(s);
    }
  }

  lemma NothingMovesLoad(s: Sys)
    requires Inv(s) && Served(s) && Idle(s) && s.broker.inflight.None?
    ensures s.broker.pending == []
  {
    hide Line, Reply, Barren, JobBody, ExecOk, EffectOk, Settled, LineBytes;
    assert !Moving(s, LoadNext);
    assert s.broker.writeBuffer == "";
  }

  // ----- what each such step keeps -----

  lemma {:induction false} SentWereAccepted(execs: seq<Exec>, e: nat, k: nat)
    requires e < |execs| && k < |execs[e].sent|
    ensures execs[e].sent[k] in AllSent(execs)
  {
    var n := |execs| - 1;
    if e < n {
      SentWereAccepted(execs[..n], e, k);
    } else {
      assert execs[e].sent[k] in execs[n].sent;
    }
  }

  /** A run of the living executor on an unsigned job is answered. */
  lemma RunIsUnsigned(s: Sys, k: nat)
    requires Inv(s) && s.execs != [] && Unsigned(s) && k < |Cur(s).ran|
    ensures k < |Cur(s).sent| && ValidRequest(Cur(s).sent[k].request) && RanOk(Cur(s).ran[k], Cur(s).sent[k])
    ensures !Signed(Cur(s).sent[k], Cur(s).ran[k])
  {
    hide ExecOk, LogOk, Linked, Bounded, RanOk, ValidRequest, LineBytes;
    assert ExecOk(Cur(s));
    ExecParts(Cur(s), k);
    SentWereAccepted(s.execs, |s.execs| - 1, k);
    var j := Cur(s).sent[k];
    assert j in s.accepted;
    var i :| 0 <= i < |s.accepted| && s.accepted[i] == j;
  }

  lemma ExecParts(x: Exec, k: nat)
    requires ExecOk(x) && k < |x.ran|
    ensures k < |x.sent| && ValidRequest(x.sent[k].request) && RanOk(x.ran[k], x.sent[k])
  {
    hide ValidRequest, RanOk;
  }

  /** The log gets the result of the job in flight, or nothing. */
  ghost predicate LogMoves(b: State, c: State) {
    || (c.log == b.log && (c.inflight == b.inflight || b.inflight.None?))
    || (b.inflight.Some? && c.inflight.None? && |c.log| == |b.log| + 1 && c.log[..|b.log|] == b.log
        && c.log[|b.log|].Applied? && c.log[|b.log|].freed == b.inflight)
  }

  /** The result of a read. */
  lemma ReadMoves(s: Sys, n: nat)
    requires Ready(s) && Enabled(s, ReadSome(n))
    ensures var t := Next(s, ReadSome(n));
      !t.broker.hung && t.broker.open && t.broker.pending == s.broker.pending && LogMoves(s.broker, t.broker)
  {
    hide Line, JobBody, EffectOk, RanOk, Settled, LineBytes, Sending, Answering, Reply, Receive, ReadResultLine, Signed,
      ExecOk, ValidRequest, Returning, Canon, CommandsTree, Unsigned, Drain, ApplyResult;
    var b, x := s.broker, Cur(s);
    assert ExecOk(x);
    ReceiveCases(b, x, n);
    RunIsUnsigned(s, |x.ran| - 1);
    BarrenIff(x.ran[|x.ran| - 1], x.sent[|x.ran| - 1]);
    var y := x.(toBroker := x.toBroker[n..]);
    var c := Receive(b, x.toBroker[..n]);
    if y.toBroker == "" && y.outgoing == "" && x.ran[|x.ran| - 1].outcome.Handled? {
      KeepsOk(x, y);
      ApplyOwn(b, y);
      ResultFrees(b, x.ran[|x.ran| - 1]);
    }
  }

  lemma KeepsOk(x: Exec, y: Exec)
    requires ExecOk(x) && y == x.(toBroker := y.toBroker)
    ensures ExecOk(y)
  {
    hide Line, ValidRequest, RanOk;
  }

  lemma ResultFrees(b: State, r: Ran)
    requires r.outcome.Handled? && !Barren(r) && !b.hung
    ensures var c := ApplyResult(b.(readBuffer := ""), ReadResultLine(r.outcome.response));
      c.inflight.None? && !c.hung
  {
    hide ReadResultLine;
  }

  /** How far there is to go: jobs to start, lines to take, bytes to move. */
  ghost predicate Closer(s: Sys, t: Sys)
    requires s.execs != [] && t.execs != []
  {
    || |t.broker.pending| < |s.broker.pending|
    || (|t.broker.pending| == |s.broker.pending| && 0 <= LinesLeft(Cur(t)) < LinesLeft(Cur(s)))
    || (|t.broker.pending| == |s.broker.pending| && LinesLeft(Cur(t)) == LinesLeft(Cur(s))
      && BytesLeft(t) < BytesLeft(s))
  }

  /** A step that makes progress keeps all that matters, and there is less to do
      after it. */
  lemma MoveKeeps(s: Sys, step: Step)
    requires Ready(s) && Moving(s, step)
    ensures var t := Next(s, step);
      Ready(t) && t.accepted == s.accepted && t.limit == s.limit && LogMoves(s.broker, t.broker) && Closer(s, t)
  {
    hide Line, JobBody, EffectOk, RanOk, Settled, LineBytes, Receive, Reply, ReadResultLine, Linked, LogOk, Bounded,
      Ordered, ExecsOk, Inv, BytesLeft, StateSignFree;
    NextInv(s, step);
    if step.ReadSome? { ReadMoves(s, step.n); }
    if !step.LoadNext? {
      InnerStepsEnd(s, step);
    }
    if step.ExecRun? { RunEnds(s, step); }
  }

  lemma RunEnds(s: Sys, step: Step)
    requires s.execs != [] && step.ExecRun? && step.e == |s.execs| - 1 && Enabled(s, step)
    ensures Cur(Next(s, step)).ran == Cur(s).ran + [Ran(Cur(s).buffer[..LineEnd(Cur(s).buffer)], step.answer,
      ProcessJobLine(Cur(s).buffer[..LineEnd(Cur(s).buffer)], step.answer))]
  {
    hide ProcessJobLine, LineEnd, Run;
    RunGrows(Cur(s), step.answer);
    assert Cur(Next(s, step)) == Run(Cur(s), step.answer);
  }

  lemma RunGrows(x: Exec, a: Answer)
    requires HasLine(x.buffer)
    ensures Run(x, a).ran == x.ran + [Ran(x.buffer[..LineEnd(x.buffer)], a,
      ProcessJobLine(x.buffer[..LineEnd(x.buffer)], a))]
  {
    hide ProcessJobLine, LineEnd;
  }

  // ----- runs of such steps -----

  /** Every step of `steps` makes progress where it is taken. */
  ghost predicate AllMoving(s: Sys, steps: seq<Step>)
    decreases |steps|
  {
    steps != [] ==> Moving(s, steps[0]) && AllMoving(Next(s, steps[0]), steps[1..])
  }

  /** Each entry of the log is the result of a job. */
  ghost predicate OnlyResults(log: seq<Effect>) {
    forall i | 0 <= i < |log| :: log[i].Applied? && log[i].freed.Some?
  }

  ghost predicate LogExtends(before: seq<Effect>, after: seq<Effect>) {
    before <= after && OnlyResults(after[|before|..])
  }

  lemma MovesExtend(b: State, c: State, last: seq<Effect>)
    requires LogMoves(b, c) && LogExtends(c.log, last)
    ensures LogExtends(b.log, last)
  {
    var more := last[|b.log|..];
    if c.log != b.log {
      assert c.log == c.log[..|b.log|] + [c.log[|b.log|]];
      assert last[|c.log|..] == more[1..];
      assert more[0] == c.log[|b.log|];
      forall i | 0 <= i < |more| ensures more[i].Applied? && more[i].freed.Some? {
        if i > 0 { assert more[i] == more[1..][i - 1]; }
      }
    }
  }

  /** What any number of such steps keeps. */
  lemma {:induction false} MovesKeep(s: Sys, steps: seq<Step>)
    requires Ready(s) && AllMoving(s, steps)
    ensures match Follow(s, steps)
      case None => false
      case Some(t) => Ready(t) && t.accepted == s.accepted && LogExtends(s.broker.log, t.broker.log)
    decreases |steps|
  {
    hide Ready, Moving, Enabled, Next, LogMoves, LogExtends, Closer;
    if steps == [] {
      SameLog(s.broker.log);
    } else {
      MovingIsEnabled(s, steps[0]);
      ReadyParts(s);
      MoveKeeps(s, steps[0]);
      MovesKeep(Next(s, steps[0]), steps[1..]);
      MovesExtend(s.broker, Next(s, steps[0]).broker, Follow(s, steps).value.broker.log);
    }
  }

  lemma SameLog(log: seq<Effect>)
    ensures LogExtends(log, log)
  {
  }

  lemma MovingIsEnabled(s: Sys, step: Step)
    requires Moving(s, step)
    ensures Enabled(s, step)
  {
  }

  lemma ReadyParts(s: Sys)
    requires Ready(s)
    ensures Inv(s) && Served(s) && s.execs != []
  {
  }

  /** When no such step is left, every accepted job has had its result applied. */
  lemma IdleIsSettled(s: Sys)
    requires Ready(s) && Idle(s)
    ensures s.broker.pending == [] && s.broker.inflight.None? && Settled(s.broker.log) == s.accepted
  {
    hide *;
    ReadyParts(s);
    IdleMeans(s);
    if s.broker.inflight.Some? { LastRunIsUnsigned(s); }
    NothingLeft(s);
  }

  lemma LastRunIsUnsigned(s: Sys)
    requires Ready(s) && s.execs != [] && Cur(s).ran != []
    ensures |Cur(s).ran| <= |Cur(s).sent| && !Signed(Cur(s).sent[|Cur(s).ran| - 1], Cur(s).ran[|Cur(s).ran| - 1])
  {
    hide Signed, Inv, Unsigned;
    RunIsUnsigned(s, |Cur(s).ran| - 1);
  }

  lemma NothingLeft(s: Sys)
    requires Inv(s) && s.broker.pending == [] && s.broker.inflight.None?
    ensures Settled(s.broker.log) == s.accepted
  {
    hide ExecsOk, Linked, LogOk, Bounded, AcceptedOk, Settled;
    assert Settled(s.broker.log) + [] + [] == Settled(s.broker.log);
  }

  /** However the bytes are cut and whatever unsigned answers handlers give: a run
      of such steps that cannot go on has settled every accepted job, each by its
      result. */
  lemma StoppedIsSettled(s: Sys, steps: seq<Step>)
    requires Ready(s) && AllMoving(s, steps)
    ensures match Follow(s, steps)
      case None => false
      case Some(t) =>
        Idle(t) ==> Settled(t.broker.log) == s.accepted && LogExtends(s.broker.log, t.broker.log)
  {
    hide Ready, AllMoving, Idle, LogExtends, Settled, Follow;
    MovesKeep(s, steps);
    var t := Follow(s, steps).value;
    if Idle(t) { IdleIsSettled(t); }
  }

  /** And such a run always gets there: from every state with a living executor and
      no negative number, after finitely many of these steps. */
  lemma {:induction false} SettlesAll(s: Sys) returns (steps: seq<Step>)
    requires Ready(s)
    ensures AllMoving(s, steps) && match Follow(s, steps)
      case None => false
      case Some(t) =>
        && t.accepted == s.accepted && Settled(t.broker.log) == s.accepted && t.broker.pending == []
        && LogExtends(s.broker.log, t.broker.log)
    decreases |s.broker.pending|, LinesOf(s), BytesOf(s)
  {
    hide Ready, Moving, Idle, Enabled, Next, LogMoves, LogExtends, Closer, Settled, LinesOf, BytesOf, Inv;
    if Idle(s) {
      steps := [];
      SameLog(s.broker.log);
      IdleIsSettled(s);
    } else {
      var step := SomeMove(s);
      MovingIsEnabled(s, step);
      MoveKeeps(s, step);
      var t := Next(s, step);
      ReadyParts(s);
      ReadyParts(t);
      CloserFalls(s, t);
      var more := SettlesAll(t);
      steps := [step] + more;
      assert steps[1..] == more;
      MovesExtend(s.broker, t.broker, Follow(t, more).value.broker.log);
    }
  }

  lemma SomeMove(s: Sys) returns (step: Step)
    requires !Idle(s)
    ensures Moving(s, step)
  {
    step :| Moving(s, step);
  }

  ghost function LinesOf(s: Sys): nat {
    if s.execs == [] || LinesLeft(Cur(s)) < 0 then 0 else LinesLeft(Cur(s))
  }

  ghost function BytesOf(s: Sys): nat {
    if s.execs == [] then 0 else BytesLeft(s)
  }

  lemma CloserFalls(s: Sys, t: Sys)
    requires Inv(s) && Inv(t) && s.execs != [] && t.execs != [] && Closer(s, t)
    ensures
      || |t.broker.pending| < |s.broker.pending|
      || (|t.broker.pending| == |s.broker.pending| && LinesOf(t) < LinesOf(s))
      || (|t.broker.pending| == |s.broker.pending| && LinesOf(t) == LinesOf(s) && BytesOf(t) < BytesOf(s))
  {
    hide BytesLeft, Ordered, Linked, LogOk, Bounded;
    assert ExecOk(Cur(s)) && ExecOk(Cur(t));
  }

  // ----- from a client's message to its result -----

  lemma {:induction false} SettledHas(log: seq<Effect>, j: Job)
    requires j in Settled(log)
    ensures exists i :: 0 <= i < |log| && (log[i] == Failed(j) || (log[i].Applied? && log[i].freed == Some(j)))
  {
    var n := |log| - 1;
    if j in Settled(log[..n]) {
      SettledHas(log[..n], j);
      var i :| 0 <= i < n && (log[..n][i] == Failed(j) || (log[..n][i].Applied? && log[..n][i].freed == Some(j)));
      assert log[i] == log[..n][i];
    } else {
      assert j in Settles(log[n]);
    }
  }

  /** In every reachable state with a living executor and no negative number: a
      message without one that comes with a connection name and finds room is
      accepted, and steps follow after which its result has been applied. */
  lemma MessageIsSettled(limit: nat, run: seq<Step>, r: Request) returns (steps: seq<Step>)
    requires StateAfter(limit, run).Some?
    requires var s := StateAfter(limit, run).value;
      Served(s) && s.broker.pid && Unsigned(s) && HasRoom(s.broker, r, limit)
    requires ValidRequest(r) && r.connection != "" && StateSignFree(r.state)
    ensures var j := Job(|StateAfter(limit, run).value.accepted|, r);
      match StateAfter(limit, run + [Incoming(r, true)] + steps)
      case None => false
      case Some(t) =>
        t.broker.pending == []
        && exists i :: 0 <= i < |t.broker.log| && t.broker.log[i].Applied? && t.broker.log[i].freed == Some(j)
  {
    hide Follow, AllMoving, Settled, HasRoom, Inv, ValidRequest, StateSignFree;
    ReachableInv(limit, run);
    var s := StateAfter(limit, run).value;
    var j, step := Job(|s.accepted|, r), Incoming(r, true);
    AcceptedIff(s, r, true);
    NextInv(s, step);
    var t := Next(s, step);
    assert (run + [step])[..|run|] == run;
    assert StateAfter(limit, run + [step]) == Some(t);
    UnsignedWith(s, t, r);
    steps := SettlesAll(t);
    FollowReaches(limit, run + [step], steps);
    var u := Follow(t, steps).value;
    assert u.accepted[|s.accepted|] == j;
    SettledHas(u.broker.log, j);
    var i :| 0 <= i < |u.broker.log|
      && (u.broker.log[i] == Failed(j) || (u.broker.log[i].Applied? && u.broker.log[i].freed == Some(j)));
    NotFailed(s, u.broker.log, i, j);
  }

  lemma UnsignedWith(s: Sys, t: Sys, r: Request)
    requires Served(s) && Unsigned(s) && StateSignFree(r.state) && Inv(t)
    requires t.execs == s.execs && t.accepted == s.accepted + [Job(|s.accepted|, r)]
    requires t.broker == s.broker.(pending := t.broker.pending)
    ensures Ready(t)
  {
    hide Inv, StateSignFree;
  }

  /** A job that is yet to be accepted has not failed. */
  lemma NotFailedBefore(s: Sys, i: nat, j: Job)
    requires Inv(s) && j.id == |s.accepted| && i < |s.broker.log|
    ensures s.broker.log[i] != Failed(j)
  {
    hide Settled, ExecsOk, Linked, LogOk, Bounded;
    if s.broker.log[i] == Failed(j) {
      LoggedIsSettled(s.broker.log, i, j);
      assert j in s.accepted;
      AcceptedHaveTheirPlace(s, j);
    }
  }

  lemma AcceptedHaveTheirPlace(s: Sys, j: Job)
    requires Ordered(s) && j in s.accepted
    ensures j.id < |s.accepted|
  {
    var k :| 0 <= k < |s.accepted| && s.accepted[k] == j;
    assert AcceptedOk(s.accepted[k], k);
  }

  lemma NotFailed(s: Sys, log: seq<Effect>, i: nat, j: Job)
    requires Inv(s) && j.id == |s.accepted| && LogExtends(s.broker.log, log) && i < |log|
    ensures log[i] != Failed(j)
  {
    hide Inv;
    if i < |s.broker.log| {
      NotFailedBefore(s, i, j);
    } else {
      assert log[i] == log[|s.broker.log|..][i - |s.broker.log|];
    }
  }

  lemma {:induction false} LoggedIsSettled(log: seq<Effect>, i: nat, j: Job)
    requires i < |log| && log[i] == Failed(j)
    ensures j in Settled(log)
  {
    var n := |log| - 1;
    if i < n {
      LoggedIsSettled(log[..n], i, j);
    } else {
      assert j in Settles(log[n]);
    }
  }
}
