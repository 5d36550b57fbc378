/** The guard around the tasks of a stage, as a state machine over its atomic steps. Any
    thread may run any task any number of times, at any moment, also after the closing check. */
module TaskGuard {
  import Counting

  /** Where one call of a task's guarded `run` stands. A refused call sets the violation flag in a
      step of its own, and throws. */
  datatype Phase = Arrived | Admitted | Claimed | Counted | InBody | BodyDone | Finished | Refusing | Rejected

  datatype Call = Call(task: nat, phase: Phase)

  /** Where the closing check stands. */
  datatype Closer = Waiting | Closing | ReadStarted | ReadFinished | Passed | Failed

  /** `claimed` holds the tasks whose own started flag is set; `bodies` and `completed` log
      which bodies were entered and left. */
  datatype Batch = Batch(
    expected: nat, started: nat, finished: nat, closed: bool, violated: bool, claimed: set<nat>,
    calls: seq<Call>, closer: Closer, bodies: seq<nat>, completed: seq<nat>)

  datatype Action = Invoke(task: nat) | Advance(call: nat) | Close

  function Fresh(n: nat): Batch {
    Batch(n, 0, 0, false, false, {}, [], Waiting, [], [])
  }

  predicate Enabled(b: Batch, a: Action) {
    match a
    case Invoke(t) => t < b.expected
    case Advance(i) => i < |b.calls| && !b.calls[i].phase.Finished? && !b.calls[i].phase.Rejected?
    case Close => !b.closer.Passed? && !b.closer.Failed?
  }

  /** One atomic access: of the closed flag, the task's flag, a counter, or the body. */
  function Step(b: Batch, a: Action): Batch
    requires Enabled(b, a)
  {
    match a
    case Invoke(t) => b.(calls := b.calls + [Call(t, Arrived)])
    case Advance(i) =>
      var c := b.calls[i];
      (match c.phase
       case Arrived => Move(b, i, if b.closed then Refusing else Admitted)
       case Admitted => if c.task in b.claimed then Move(b, i, Refusing)
           else Move(b, i, Claimed).(claimed := b.claimed + {c.task})
       case Refusing => Move(b, i, Rejected).(violated := true)
       case Claimed => Move(b, i, Counted).(started := b.started + 1)
       case Counted => Move(b, i, InBody).(bodies := b.bodies + [c.task])
       case InBody => Move(b, i, BodyDone).(completed := b.completed + [c.task])
       case BodyDone => Move(b, i, Finished).(finished := b.finished + 1)
       case _ => b)
    case Close =>
      match b.closer
      case Waiting => b.(closed := true, closer := Closing)
      case Closing => b.(closer := if b.violated then Failed else ReadStarted)
      case ReadStarted => b.(closer := if b.started != b.expected then Failed else ReadFinished)
      case ReadFinished => b.(closer := if b.finished != b.expected then Failed else Passed)
      case _ => b
  }

  function Move(b: Batch, i: nat, p: Phase): Batch
    requires i < |b.calls|
  {
    b.(calls := b.calls[i := b.calls[i].(phase := p)])
  }

  predicate IsRun(b: Batch, actions: seq<Action>)
    decreases |actions|
  {
    actions == [] || (Enabled(b, actions[0]) && IsRun(Step(b, actions[0]), actions[1..]))
  }

  function After(b: Batch, actions: seq<Action>): Batch
    requires IsRun(b, actions)
    decreases |actions|
  {
    if actions == [] then b else After(Step(b, actions[0]), actions[1..])
  }

  function Rank(p: Phase): nat {
    match p
    case Arrived => 0 case Admitted => 1 case Claimed => 2 case Counted => 3
    case InBody => 4 case BodyDone => 5 case Finished => 6 case Refusing => 0 case Rejected => 0
  }

  /** How many calls have come at least as far as rank r. */
  function Count(calls: seq<Call>, r: nat): nat {
    if calls == [] then 0
    else Count(calls[..|calls| - 1], r) + (if Rank(calls[|calls| - 1].phase) >= r then 1 else 0)
  }

  lemma {:induction false} CountUpdate(calls: seq<Call>, i: nat, p: Phase, r: nat)
    requires i < |calls|
    ensures Count(calls[i := calls[i].(phase := p)], r)
         == Count(calls, r) - (if Rank(calls[i].phase) >= r then 1 else 0) + (if Rank(p) >= r then 1 else 0)
  {
    var next := calls[i := calls[i].(phase := p)];
    if i == |calls| - 1 {
      assert next[..i] == calls[..i];
    } else {
      CountUpdate(calls[..|calls| - 1], i, p, r);
      assert next[..|calls| - 1] == calls[..|calls| - 1][i := calls[i].(phase := p)];
    }
  }

  lemma CountAppend(calls: seq<Call>, c: Call, r: nat)
    ensures Count(calls + [c], r) == Count(calls, r) + (if Rank(c.phase) >= r then 1 else 0)
  {
    assert (calls + [c])[..|calls|] == calls;
  }

  /** The calls at rank r or beyond are the log entries, one task each. */
  ghost predicate Logged(b: Batch, log: seq<nat>, r: nat) {
    && |log| == Count(b.calls, r)
    && (forall i, j :: 0 <= i < j < |log| ==> log[i] != log[j])
    && (forall t :: t in log <==> exists i :: 0 <= i < |b.calls| && b.calls[i].task == t && Rank(b.calls[i].phase) >= r)
  }

  ghost predicate OneClaimPerTask(b: Batch) {
    && (forall i, j :: 0 <= i < j < |b.calls| && Rank(b.calls[i].phase) >= 2 && Rank(b.calls[j].phase) >= 2
          ==> b.calls[i].task != b.calls[j].task)
    && (forall i :: 0 <= i < |b.calls| && Rank(b.calls[i].phase) >= 2 ==> b.calls[i].task in b.claimed)
  }

  ghost predicate InRange(b: Batch) {
    forall i :: 0 <= i < |b.calls| ==> b.calls[i].task < b.expected
  }

  ghost predicate Counters(b: Batch) {
    b.started == Count(b.calls, 3) && b.finished == Count(b.calls, 6)
  }

  ghost predicate Inv(b: Batch) {
    && InRange(b) && OneClaimPerTask(b) && Counters(b)
    && Logged(b, b.bodies, 4) && Logged(b, b.completed, 5)
    && (b.closer.Passed? ==> b.finished == b.expected)
    && (b.closed <==> !b.closer.Waiting?)
    && (b.violated <==> exists i :: 0 <= i < |b.calls| && b.calls[i].phase.Rejected?)
  }

  lemma {:induction false} CountMonotone(calls: seq<Call>, r: nat, q: nat)
    requires r <= q
    ensures Count(calls, q) <= Count(calls, r)
  {
    if calls != [] { CountMonotone(calls[..|calls| - 1], r, q); }
  }

  /** Moving call i to phase p keeps a log that gains the task exactly when p crosses r. */
  lemma LoggedMove(b: Batch, next: Batch, i: nat, p: Phase, log: seq<nat>, r: nat)
    requires i < |b.calls| && Logged(b, log, r) && OneClaimPerTask(b) && r >= 3
    requires next.calls == b.calls[i := b.calls[i].(phase := p)]
    requires Rank(b.calls[i].phase) >= r ==> Rank(p) >= r
    requires Rank(b.calls[i].phase) < r <= Rank(p) ==> Rank(b.calls[i].phase) >= 2
    ensures Logged(next, if Rank(b.calls[i].phase) < r <= Rank(p) then log + [b.calls[i].task] else log, r)
  {
    CountUpdate(b.calls, i, p, r);
    var t := b.calls[i].task;
    if Rank(b.calls[i].phase) < r <= Rank(p) {
      assert t !in log;
      forall u
        ensures u in log + [t] <==>
            exists k :: 0 <= k < |next.calls| && next.calls[k].task == u && Rank(next.calls[k].phase) >= r
      {
        if u == t { assert next.calls[i].task == u; }
        if u in log {
          var k :| 0 <= k < |b.calls| && b.calls[k].task == u && Rank(b.calls[k].phase) >= r;
          assert next.calls[k] == b.calls[k];
        }
      }
    } else {
      forall u
        ensures u in log <==>
            exists k :: 0 <= k < |next.calls| && next.calls[k].task == u && Rank(next.calls[k].phase) >= r
      {
        if u in log {
          var k :| 0 <= k < |b.calls| && b.calls[k].task == u && Rank(b.calls[k].phase) >= r;
          assert next.calls[k].task == u;
        }
      }
    }
  }

  lemma LoggedInvoke(b: Batch, t: nat, log: seq<nat>, r: nat)
    requires Logged(b, log, r) && r > 0
    ensures Logged(b.(calls := b.calls + [Call(t, Arrived)]), log, r)
  {
    CountAppend(b.calls, Call(t, Arrived), r);
    var next := b.calls + [Call(t, Arrived)];
    forall u | u in log
      ensures exists k :: 0 <= k < |next| && next[k].task == u && Rank(next[k].phase) >= r
    {
      var k :| 0 <= k < |b.calls| && b.calls[k].task == u && Rank(b.calls[k].phase) >= r;
      assert next[k] == b.calls[k];
    }
  }

  /** One access of call i: its phase moves on, and it claims its task, or is logged, as it passes. */
  lemma AdvanceShape(b: Batch, i: nat)
    requires Enabled(b, Advance(i))
    ensures var next := Step(b, Advance(i));
            && |next.calls| == |b.calls|
            && var t, p, q := b.calls[i].task, b.calls[i].phase, next.calls[i].phase;
               && next.calls == b.calls[i := b.calls[i].(phase := q)] && (Rank(p) >= 2 ==> Rank(q) >= Rank(p))
               && (Rank(p) < 2 <= Rank(q) ==> t !in b.claimed && next.claimed == b.claimed + {t})
               && (!(Rank(p) < 2 <= Rank(q)) ==> next.claimed == b.claimed)
               && (Rank(q) >= 3 ==> Rank(p) >= 2)
               && next.bodies == (if Rank(p) < 4 <= Rank(q) then b.bodies + [t] else b.bodies)
               && next.completed == (if Rank(p) < 5 <= Rank(q) then b.completed + [t] else b.completed)
  {
  }

  lemma AdvanceKeepsClaims(b: Batch, i: nat)
    requires OneClaimPerTask(b) && Enabled(b, Advance(i))
    ensures OneClaimPerTask(Step(b, Advance(i)))
  {
    AdvanceShape(b, i);
    hide Step, Enabled, Rank;
    var next := Step(b, Advance(i));
    forall k | 0 <= k < |b.calls| && k != i ensures next.calls[k] == b.calls[k] { }
  }

  lemma AdvanceKeepsLogs(b: Batch, i: nat)
    requires OneClaimPerTask(b) && Logged(b, b.bodies, 4) && Logged(b, b.completed, 5) && Enabled(b, Advance(i))
    ensures var next := Step(b, Advance(i)); Logged(next, next.bodies, 4) && Logged(next, next.completed, 5)
  {
    AdvanceShape(b, i);
    hide Step, Rank, Logged, OneClaimPerTask;
    var next := Step(b, Advance(i));
    var p := next.calls[i].phase;
    LoggedMove(b, next, i, p, b.bodies, 4);
    LoggedMove(b, next, i, p, b.completed, 5);
  }

  lemma {:induction false} AdvanceKeepsCounters(b: Batch, i: nat)
    requires Counters(b) && Enabled(b, Advance(i))
    ensures Counters(Step(b, Advance(i)))
    ensures b.finished <= Step(b, Advance(i)).finished
  {
    hide Count;
    var p := Step(b, Advance(i)).calls[i].phase;
    CountUpdate(b.calls, i, p, 3);
    CountUpdate(b.calls, i, p, 6);
  }

  lemma AdvanceKeepsInv(b: Batch, i: nat)
    requires Inv(b) && Enabled(b, Advance(i))
    ensures Inv(Step(b, Advance(i)))
  {
    hide Step, Enabled, Count, Logged, OneClaimPerTask, InRange;
    var next := Step(b, Advance(i));
    AdvanceKeepsClaims(b, i);
    AdvanceKeepsLogs(b, i);
    AdvanceKeepsCounters(b, i);
    AdvanceKeepsFlag(b, i);
    AdvanceKeepsRest(b, i);
    CompletedIsBounded(next);
  }

  lemma AdvanceKeepsRest(b: Batch, i: nat)
    requires InRange(b) && Enabled(b, Advance(i))
    ensures var next := Step(b, Advance(i));
            InRange(next) && next.expected == b.expected && next.closed == b.closed && next.closer == b.closer
  {
  }

  lemma AdvanceKeepsFlag(b: Batch, i: nat)
    requires Enabled(b, Advance(i))
    requires b.violated <==> exists k :: 0 <= k < |b.calls| && b.calls[k].phase.Rejected?
    ensures var next := Step(b, Advance(i));
            next.violated <==> exists k :: 0 <= k < |next.calls| && next.calls[k].phase.Rejected?
  {
    var next := Step(b, Advance(i));
    if next.calls[i].phase.Rejected? {
    } else if b.violated {
      var k :| 0 <= k < |b.calls| && b.calls[k].phase.Rejected?;
      assert next.calls[k] == b.calls[k];
    } else {
      assert forall k :: 0 <= k < |b.calls| && k != i ==> next.calls[k] == b.calls[k];
    }
  }

  lemma CompletedIsBounded(b: Batch)
    requires InRange(b) && Logged(b, b.completed, 5)
    ensures Count(b.calls, 6) <= |b.completed| <= b.expected
    ensures |b.completed| == b.expected ==> forall t :: 0 <= t < b.expected ==> t in b.completed
  {
    CountMonotone(b.calls, 5, 6);
    forall i | 0 <= i < |b.completed| ensures b.completed[i] < b.expected { assert b.completed[i] in b.completed; }
    Counting.DistinctBelow(b.completed, b.expected);
  }

  lemma StepKeepsInv(b: Batch, a: Action)
    requires Inv(b) && Enabled(b, a)
    ensures Inv(Step(b, a))
  {
    match a
    case Invoke(t) => InvokeKeepsInv(b, t);
    case Advance(i) => AdvanceKeepsInv(b, i);
    case Close => CloseKeepsInv(b);
  }

  lemma InvokeKeepsInv(b: Batch, t: nat)
    requires Inv(b) && Enabled(b, Invoke(t))
    ensures Inv(Step(b, Invoke(t)))
  {
    hide Count, Logged, OneClaimPerTask, InRange;
    LoggedInvoke(b, t, b.bodies, 4);
    LoggedInvoke(b, t, b.completed, 5);
    CountAppend(b.calls, Call(t, Arrived), 3);
    CountAppend(b.calls, Call(t, Arrived), 6);
    InvokeKeepsRest(b, t);
    var next := Step(b, Invoke(t));
    assert forall k :: 0 <= k < |b.calls| ==> next.calls[k] == b.calls[k];
  }

  lemma InvokeKeepsRest(b: Batch, t: nat)
    requires InRange(b) && OneClaimPerTask(b) && Enabled(b, Invoke(t))
    ensures InRange(Step(b, Invoke(t))) && OneClaimPerTask(Step(b, Invoke(t)))
  {
  }

  lemma CloseKeepsInv(b: Batch)
    requires Inv(b) && Enabled(b, Close)
    ensures Inv(Step(b, Close))
  {
    var next := Step(b, Close);
    assert next == b.(closed := next.closed, closer := next.closer);
    SameCalls(b, next, b.bodies, 4);
    SameCalls(b, next, b.completed, 5);
    assert next.closer.Passed? ==> next.finished == next.expected;
  }

  lemma SameCalls(b: Batch, next: Batch, log: seq<nat>, r: nat)
    requires next == b.(closed := next.closed, closer := next.closer)
    requires InRange(b) && OneClaimPerTask(b) && Logged(b, log, r)
    ensures InRange(next) && OneClaimPerTask(next) && Logged(next, log, r)
  {
  }

  lemma {:induction false} RunKeepsInv(b: Batch, actions: seq<Action>)
    requires Inv(b) && IsRun(b, actions)
    ensures Inv(After(b, actions))
    decreases |actions|
  {
    if actions != [] {
      StepKeepsInv(b, actions[0]);
      RunKeepsInv(Step(b, actions[0]), actions[1..]);
    }
  }

  /** Whatever the executor does: no body is entered twice, and a check that returns normally
      finds every body entered once and left. */
  lemma EveryTaskRunsOnce(n: nat, actions: seq<Action>)
    requires IsRun(Fresh(n), actions)
    ensures var b := After(Fresh(n), actions);
            && (forall i, j :: 0 <= i < j < |b.bodies| ==> b.bodies[i] != b.bodies[j])
            && (b.closer.Passed? ==> |b.bodies| == |b.completed| == n && forall t :: 0 <= t < n ==>
                t in b.bodies && t in b.completed)
  {
    assert Inv(Fresh(n));
    RunKeepsInv(Fresh(n), actions);
    var b := After(Fresh(n), actions);
    ExpectedIsKept(Fresh(n), actions);
    CompletedIsBounded(b);
    CountMonotone(b.calls, 4, 5);
    forall i | 0 <= i < |b.bodies| ensures b.bodies[i] < n { assert b.bodies[i] in b.bodies; }
    Counting.DistinctBelow(b.bodies, n);
  }

  lemma {:induction false} ExpectedIsKept(b: Batch, actions: seq<Action>)
    requires IsRun(b, actions)
    ensures After(b, actions).expected == b.expected
    decreases |actions|
  {
    if actions != [] { ExpectedIsKept(Step(b, actions[0]), actions[1..]); }
  }

  lemma BodiesAreBounded(b: Batch)
    requires Inv(b)
    ensures |b.bodies| <= b.expected
  {
    forall i | 0 <= i < |b.bodies| ensures b.bodies[i] < b.expected { assert b.bodies[i] in b.bodies; }
    Counting.DistinctBelow(b.bodies, b.expected);
  }

  /** Once the check has passed, no call made later or still under way enters a body. */
  lemma {:induction false} NothingRunsAfterThePass(b: Batch, actions: seq<Action>)
    requires Inv(b) && b.closer.Passed? && IsRun(b, actions)
    ensures After(b, actions).bodies == b.bodies && After(b, actions).completed == b.completed
    decreases |actions|
  {
    if actions != [] {
      var next := Step(b, actions[0]);
      StepKeepsInv(b, actions[0]);
      CompletedIsBounded(b);
      CompletedIsBounded(next);
      CountMonotone(b.calls, 4, 5);
      BodiesAreBounded(next);
      NothingRunsAfterThePass(next, actions[1..]);
    }
  }
}
