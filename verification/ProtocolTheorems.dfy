/** What the dispatch protocol promises, in every state that any run reaches: who
    owns the in-flight slot, where an accepted job is, how often its handler
    runs and how much memory is held. */
module ProtocolTheorems {
  import opened Text
  import opened DTreeModel
  import opened JsonRoundTrip
  import opened LineStream
  import opened Dispatch
  import opened BrokerModel
  import opened Protocol

  // ----- the in-flight slot -----

  predicate EndsWith(whole: string, tail: string) {
    exists k | 0 <= k <= |whole| :: whole[k..] == tail
  }

  /** What is still to be written is the end of the line of the job in flight;
      bytes come back only once all of it is written; and the slot is only ever
      freed by the result of its own job, for that job's own connection. */
  ghost predicate SlotSafe(s: Sys) {
    var b := s.broker;
    && (b.writeBuffer != "" ==> b.inflight.Some? && EndsWith(Line(b.inflight.value), b.writeBuffer))
    && (b.open && s.execs != [] && Returning(b, Cur(s)) != "" ==> b.inflight.Some? && b.writeBuffer == "")
    && forall i | 0 <= i < |b.log| :: OwnResult(b.log[i])
  }

  predicate OwnResult(e: Effect) {
    match e
    case Mismatched(_, _) => false
    case Applied(freed, connection, _, _) => freed.Some? && freed.value.request.connection == connection
    case _ => true
  }

  lemma SlotIsSafe(limit: nat, run: seq<Step>)
    ensures match StateAfter(limit, run) case None => true case Some(s) => SlotSafe(s)
  {
    hide StateAfter;
    ReachableInv(limit, run);
    if StateAfter(limit, run).Some? {
      InvSlot(StateAfter(limit, run).value);
    }
  }

  lemma InvSlot(s: Sys)
    requires Inv(s)
    ensures SlotSafe(s)
  {
    hide Line, Reply, Barren, EffectOk, Settled, RanOk, LineBytes, EndsWith, OwnResult;
    var b := s.broker;
    if b.open { assert ExecOk(Cur(s)); }
    if b.writeBuffer != "" {
      TailOf(Cur(s).buffer + Cur(s).toRead, b.writeBuffer);
    }
    forall i | 0 <= i < |b.log| ensures OwnResult(b.log[i]) {
      OwnEffectOnly(s.execs, b.log[i]);
    }
  }

  lemma TailOf(front: string, tail: string)
    ensures EndsWith(front + tail, tail)
  {
    assert (front + tail)[|front|..] == tail;
  }

  lemma OwnEffectOnly(execs: seq<Exec>, e: Effect)
    requires EffectOk(execs, e)
    ensures OwnResult(e)
  {
  }

  // ----- where an accepted job is -----

  ghost predicate InOnePlace(s: Sys, j: Job) {
    multiset(Settled(s.broker.log))[j] + multiset(Inflight(s.broker))[j] + multiset(s.broker.pending)[j] == 1
  }

  /** Each accepted job is pending, in flight, or settled by exactly one result or
      failure; jobs are started in the order in which they were accepted, and
      every job that was started is one that was accepted. */
  lemma EveryJobInOnePlace(limit: nat, run: seq<Step>)
    ensures match StateAfter(limit, run)
      case None => true
      case Some(s) => AllSent(s.execs) <= s.accepted && forall j | j in s.accepted :: InOnePlace(s, j)
  {
    hide StateAfter;
    ReachableInv(limit, run);
    if StateAfter(limit, run).Some? {
      var s := StateAfter(limit, run).value;
      forall j | j in s.accepted ensures InOnePlace(s, j) {
        InvPlace(s, j);
      }
    }
  }

  lemma InvPlace(s: Sys, j: Job)
    requires Inv(s) && j in s.accepted
    ensures InOnePlace(s, j)
  {
    hide Settled, AllSent, ExecsOk, Linked, LogOk, Bounded;
    assert multiset(s.accepted) ==
      multiset(Settled(s.broker.log)) + multiset(Inflight(s.broker)) + multiset(s.broker.pending);
    assert forall i | 0 <= i < |s.accepted| :: AcceptedOk(s.accepted[i], i);
    OnceEach(s.accepted, 0, j);
  }

  lemma {:induction false} OnceEach(js: seq<Job>, base: nat, j: Job)
    requires forall i | 0 <= i < |js| :: js[i].id == base + i
    ensures multiset(js)[j] == if j in js then 1 else 0
  {
    if js != [] {
      OnceEach(js[1..], base + 1, j);
      assert js == [js[0]] + js[1..];
      if js[0] == j {
        assert j !in js[1..] by {
          assert forall i | 0 <= i < |js| - 1 :: js[1..][i].id == base + 1 + i;
        }
      }
    }
  }

  // ----- how often a handler runs -----

  /** Two different runs, of the same executor or of two, are of different jobs. */
  ghost predicate RunsAreOfDifferentJobs(s: Sys) {
    forall e: nat, k: nat, f: nat, l: nat | e < |s.execs| && k < |s.execs[e].ran| && f < |s.execs|
        && l < |s.execs[f].ran| && (e, k) != (f, l) ::
      k < |s.execs[e].sent| && l < |s.execs[f].sent| && s.execs[e].sent[k].id != s.execs[f].sent[l].id
  }

  /** A handler that runs is given the message of the job, byte for byte, on its
      own connection, with the state as it was when the job was accepted. */
  ghost predicate RunsAreFaithful(s: Sys) {
    forall e: nat, k: nat | e < |s.execs| && k < |s.execs[e].ran| :: k < |s.execs[e].sent|
        && Faithful(s.execs[e].ran[k], s.execs[e].sent[k])
  }

  ghost predicate Faithful(r: Ran, j: Job) {
    match r.outcome
    case Handled(event, _) => event == ExpectedEvent(j.request)
    case _ => !StateSignFree(j.request.state)
  }

  lemma HandlerRunsAtMostOnce(limit: nat, run: seq<Step>)
    ensures match StateAfter(limit, run)
      case None => true
      case Some(s) => RunsAreOfDifferentJobs(s) && RunsAreFaithful(s)
  {
    hide StateAfter;
    ReachableInv(limit, run);
    if StateAfter(limit, run).Some? {
      var s := StateAfter(limit, run).value;
      InvRunsDiffer(s);
      forall e: nat, k: nat | e < |s.execs| && k < |s.execs[e].ran|
        ensures k < |s.execs[e].sent| && Faithful(s.execs[e].ran[k], s.execs[e].sent[k])
      {
        assert ExecOk(s.execs[e]);
        RanFaithful(s.execs[e].ran[k], s.execs[e].sent[k]);
      }
    }
  }

  lemma RanFaithful(r: Ran, j: Job)
    requires ValidRequest(j.request) && RanOk(r, j)
    ensures Faithful(r, j)
  {
    hide JobBody, ProcessJobLine, ExpectedEvent, ResponseBody, ValidRequest;
    JobRunsIff(j.request, r.answer);
  }

  /** Where the lines of executor `e` begin. */
  function Offset(execs: seq<Exec>, e: nat): nat
    requires e <= |execs|
  {
    |AllSent(execs[..e])|
  }

  lemma OffsetNext(execs: seq<Exec>, e: nat)
    requires e < |execs|
    ensures Offset(execs, e + 1) == Offset(execs, e) + |execs[e].sent|
  {
    assert execs[..e + 1][..e] == execs[..e];
  }

  lemma {:induction false} OffsetGrows(execs: seq<Exec>, e: nat, f: nat)
    requires e <= f <= |execs|
    ensures Offset(execs, e) <= Offset(execs, f)
    decreases f
  {
    if e < f {
      OffsetNext(execs, f - 1);
      OffsetGrows(execs, e, f - 1);
    }
  }

  lemma {:induction false} SentAt(execs: seq<Exec>, e: nat, k: nat)
    requires e < |execs| && k < |execs[e].sent|
    ensures Offset(execs, e) + k < |AllSent(execs)| && AllSent(execs)[Offset(execs, e) + k] == execs[e].sent[k]
  {
    var n := |execs| - 1;
    if e < n {
      SentAt(execs[..n], e, k);
      assert execs[..n][..e] == execs[..e];
    }
  }

  lemma InvRunsDiffer(s: Sys)
    requires Inv(s)
    ensures RunsAreOfDifferentJobs(s)
  {
    hide Settled, AllSent, Linked, LogOk, Bounded, RanOk, Line, Offset, Ordered;
    forall e: nat, k: nat, f: nat, l: nat | e < |s.execs| && k < |s.execs[e].ran| && f < |s.execs|
        && l < |s.execs[f].ran| && (e, k) != (f, l)
      ensures k < |s.execs[e].sent| && l < |s.execs[f].sent| && s.execs[e].sent[k].id != s.execs[f].sent[l].id
    {
      assert ExecOk(s.execs[e]) && ExecOk(s.execs[f]);
      IdOfSent(s, e, k);
      IdOfSent(s, f, l);
      OffsetNext(s.execs, e);
      OffsetNext(s.execs, f);
      if e < f { OffsetGrows(s.execs, e + 1, f); }
      if f < e { OffsetGrows(s.execs, f + 1, e); }
    }
  }

  lemma IdOfSent(s: Sys, e: nat, k: nat)
    requires Ordered(s) && e < |s.execs| && k < |s.execs[e].sent|
    ensures s.execs[e].sent[k].id == Offset(s.execs, e) + k
  {
    hide Settled, AllSent, Offset;
    SentAt(s.execs, e, k);
    var p := Offset(s.execs, e) + k;
    assert s.accepted[p] == AllSent(s.execs)[p];
    assert AcceptedOk(s.accepted[p], p);
  }

  // ----- memory -----

  /** Lines in flight and pending take at most one byte more than the limit, the
      write buffer no more than the line in flight. */
  lemma RetainedBytes(limit: nat, run: seq<Step>)
    ensures match StateAfter(limit, run)
      case None => true
      case Some(s) =>
        && InflightBytes(s.broker) + LineBytes(s.broker.pending) <= limit + 1
        && |s.broker.writeBuffer| <= InflightBytes(s.broker)
        && InflightBytes(s.broker) + LineBytes(s.broker.pending) + |s.broker.writeBuffer| <= 2 * limit + 2
  {
    hide StateAfter, LineBytes, InflightBytes;
    ReachableInv(limit, run);
  }
}
