/** The benchmark's worker pool as the executor of a guarded batch: every critical section of
    its mutex is one step, and a worker's guarded call advances step by step in between. */
module ThreadPool {
  import opened TaskGuard

  datatype Worker = Idle | Holding(call: nat)

  /** Where the thread that called `run`, and then the closing check, stands. */
  datatype Caller = Submitting | Blocked | Returned

  datatype Pool = Pool(batch: Batch, queue: seq<nat>, remaining: nat, workers: seq<Worker>, caller: Caller)

  datatype PoolAction = Submit | Take(worker: nat) | Work(worker: nat) | Release(worker: nat) | Wake | Check

  function Start(tasks: nat, threads: nat): Pool {
    Pool(Fresh(tasks), [], 0, seq(threads, _ => Idle), Submitting)
  }

  predicate CallIsOver(b: Batch, i: nat) {
    i < |b.calls| && (b.calls[i].phase.Finished? || b.calls[i].phase.Rejected?)
  }

  predicate CanAct(p: Pool, a: PoolAction) {
    match a
    case Submit => p.caller.Submitting?
    case Take(w) => w < |p.workers| && p.workers[w].Idle? && p.queue != [] && p.queue[0] < p.batch.expected
    case Work(w) => w < |p.workers| && p.workers[w].Holding? && Enabled(p.batch, Advance(p.workers[w].call))
    case Release(w) => w < |p.workers| && p.workers[w].Holding? && CallIsOver(p.batch, p.workers[w].call) &&
        p.remaining > 0
    case Wake => p.caller.Blocked? && p.remaining == 0
    case Check => p.caller.Returned? && Enabled(p.batch, Close)
  }

  function Act(p: Pool, a: PoolAction): Pool
    requires CanAct(p, a)
  {
    match a
    case Submit =>
      if p.batch.expected == 0 then p.(caller := Returned)
      else p.(caller := Blocked, remaining := p.batch.expected, queue := p.queue + seq(p.batch.expected, t => t))
    case Take(w) =>
      p.(queue := p.queue[1..], workers := p.workers[w := Holding(|p.batch.calls|)],
          batch := Step(p.batch, Invoke(p.queue[0])))
    case Work(w) => p.(batch := Step(p.batch, Advance(p.workers[w].call)))
    case Release(w) => p.(workers := p.workers[w := Idle], remaining := p.remaining - 1)
    case Wake => p.(caller := Returned)
    case Check => p.(batch := Step(p.batch, Close))
  }

  function Busy(workers: seq<Worker>): nat {
    if workers == [] then 0
    else Busy(workers[..|workers| - 1]) + (if workers[|workers| - 1].Holding? then 1 else 0)
  }

  lemma {:induction false} BusyUpdate(workers: seq<Worker>, w: nat, v: Worker)
    requires w < |workers|
    ensures Busy(workers[w := v]) ==
        Busy(workers) - (if workers[w].Holding? then 1 else 0) + (if v.Holding? then 1 else 0)
  {
    if w == |workers| - 1 {
      assert workers[w := v][..w] == workers[..w];
    } else {
      BusyUpdate(workers[..|workers| - 1], w, v);
      assert workers[w := v][..|workers| - 1] == workers[..|workers| - 1][w := v];
    }
  }

  lemma {:induction false} NobodyBusy(workers: seq<Worker>)
    requires Busy(workers) == 0
    ensures forall w :: 0 <= w < |workers| ==> workers[w].Idle?
  {
    if workers != [] { NobodyBusy(workers[..|workers| - 1]); }
  }

  lemma {:induction false} AllOver(calls: seq<Call>, r: nat)
    requires r <= 6 && forall i :: 0 <= i < |calls| ==> calls[i].phase.Finished?
    ensures Count(calls, r) == |calls|
  {
    if calls != [] { AllOver(calls[..|calls| - 1], r); }
  }

  /** Tasks are called in queue order, each by the call of the same number. */
  ghost predicate InLine(p: Pool) {
    && (forall i :: 0 <= i < |p.batch.calls| ==> p.batch.calls[i].task == i)
    && (forall k :: 0 <= k < |p.queue| ==> p.queue[k] == |p.batch.calls| + k)
    && |p.batch.calls| + |p.queue| == (if p.caller.Submitting? then 0 else p.batch.expected)
  }

  ghost predicate Unrefused(b: Batch) {
    && !b.violated
    && (forall i :: 0 <= i < |b.calls| ==> !b.calls[i].phase.Refusing? && !b.calls[i].phase.Rejected?)
    && (forall t :: t in b.claimed ==> t < |b.calls| && Rank(b.calls[t].phase) >= 2)
  }

  ghost predicate Held(p: Pool) {
    && (forall w :: 0 <= w < |p.workers| && p.workers[w].Holding? ==> p.workers[w].call < |p.batch.calls|)
    && (forall v, w :: 0 <= v < w < |p.workers| && p.workers[v].Holding? && p.workers[w].Holding? ==>
        p.workers[v].call != p.workers[w].call)
    && (forall i :: 0 <= i < |p.batch.calls| && !p.batch.calls[i].phase.Finished? ==>
        exists w :: 0 <= w < |p.workers| && p.workers[w] == Holding(i))
  }

  ghost predicate PoolInv(p: Pool) {
    && Inv(p.batch) && InLine(p) && Unrefused(p.batch) && Held(p)
    && p.remaining == |p.queue| + Busy(p.workers)
    && (!p.caller.Returned? ==> p.batch.closer.Waiting? && !p.batch.closed)
    && (p.caller.Returned? ==> p.remaining == 0)
    && !p.batch.closer.Failed?
  }

  /** When nothing remains, every task has been called and every call has finished. */
  lemma NothingRemains(p: Pool)
    requires PoolInv(p) && p.remaining == 0 && !p.caller.Submitting?
    ensures p.batch.started == p.batch.finished == p.batch.expected
    ensures forall i :: 0 <= i < |p.batch.calls| ==> p.batch.calls[i].phase.Finished?
  {
    NobodyBusy(p.workers);
    AllOver(p.batch.calls, 3);
    AllOver(p.batch.calls, 6);
  }

  lemma {:induction false} TakeKeeps(p: Pool, w: nat)
    requires PoolInv(p) && CanAct(p, Take(w))
    ensures PoolInv(Act(p, Take(w)))
  {
    hide Inv, Busy;
    StepKeepsInv(p.batch, Invoke(p.queue[0]));
    BusyUpdate(p.workers, w, Holding(|p.batch.calls|));
    TakeKeepsHeld(p, Act(p, Take(w)), w);
    TakeKeepsLine(p, w);
  }

  lemma {:induction false} TakeKeepsLine(p: Pool, w: nat)
    requires InLine(p) && Unrefused(p.batch) && CanAct(p, Take(w))
    ensures InLine(Act(p, Take(w))) && Unrefused(Act(p, Take(w)).batch)
  {
  }

  lemma {:induction false} TakeKeepsHeld(p: Pool, next: Pool, w: nat)
    requires Held(p) && w < |p.workers| && p.workers[w].Idle? &&
        next.workers == p.workers[w := Holding(|p.batch.calls|)]
    requires |next.batch.calls| == |p.batch.calls| + 1 && next.batch.calls[..|p.batch.calls|] == p.batch.calls
    ensures Held(next)
  {
    forall i | 0 <= i < |next.batch.calls| && !next.batch.calls[i].phase.Finished?
      ensures exists v :: 0 <= v < |next.workers| && next.workers[v] == Holding(i)
    {
      if i == |p.batch.calls| {
        assert next.workers[w] == Holding(i);
      } else {
        assert next.batch.calls[..|p.batch.calls|][i] == p.batch.calls[i];
        var v :| 0 <= v < |p.workers| && p.workers[v] == Holding(i);
        assert next.workers[v] == Holding(i);
      }
    }
  }

  /** A call of the pool is never refused: its task was not claimed before and the batch is open. */
  lemma WorkIsNotRefused(b: Batch, i: nat)
    requires Unrefused(b) && Enabled(b, Advance(i)) && !b.closed && b.calls[i].task == i
    ensures Unrefused(Step(b, Advance(i)))
    ensures var next := Step(b, Advance(i)).calls;
            |next| == |b.calls| && forall k :: 0 <= k < |next| ==>
                next[k].task == b.calls[k].task && (k != i ==> next[k] == b.calls[k])
  {
  }

  lemma {:induction false} WorkKeeps(p: Pool, w: nat)
    requires PoolInv(p) && CanAct(p, Work(w))
    ensures PoolInv(Act(p, Work(w)))
  {
    hide Inv, Busy, Step, Unrefused;
    var next, i := Act(p, Work(w)), p.workers[w].call;
    StepKeepsInv(p.batch, Advance(i));
    WorkIsOpen(p, w);
    WorkIsNotRefused(p.batch, i);
    AdvanceKeepsRest(p.batch, i);
    WorkKeepsHeld(p, next, i, w);
    assert InLine(next);
  }

  /** While a call is under way the caller is still blocked. */
  lemma WorkIsOpen(p: Pool, w: nat)
    requires PoolInv(p) && CanAct(p, Work(w))
    ensures !p.caller.Returned? && !p.batch.closed && p.workers[w].call < |p.batch.calls| &&
        p.batch.calls[p.workers[w].call].task == p.workers[w].call
  {
    hide Inv, Busy;
    if p.remaining == 0 && !p.caller.Submitting? { NothingRemains(p); }
  }

  lemma AdvanceKeepsRest(b: Batch, i: nat)
    requires Enabled(b, Advance(i))
    ensures var next := Step(b, Advance(i));
        next.expected == b.expected && next.closed == b.closed && next.closer == b.closer
  {
  }

  lemma WorkKeepsHeld(p: Pool, next: Pool, i: nat, w: nat)
    requires Held(p) && w < |p.workers| && p.workers[w] == Holding(i)
    requires next.workers == p.workers && |next.batch.calls| == |p.batch.calls|
    requires forall k :: 0 <= k < |next.batch.calls| && k != i ==> next.batch.calls[k] == p.batch.calls[k]
    ensures Held(next)
  {
  }

  lemma ReleaseKeeps(p: Pool, w: nat)
    requires PoolInv(p) && CanAct(p, Release(w))
    ensures PoolInv(Act(p, Release(w)))
  {
    var next := Act(p, Release(w));
    BusyUpdate(p.workers, w, Idle);
    forall i | 0 <= i < |next.batch.calls| && !next.batch.calls[i].phase.Finished?
      ensures exists v :: 0 <= v < |next.workers| && next.workers[v] == Holding(i)
    {
      var v :| 0 <= v < |p.workers| && p.workers[v] == Holding(i);
      assert next.workers[v] == Holding(i);
    }
  }

  lemma CheckKeeps(p: Pool)
    requires PoolInv(p) && CanAct(p, Check)
    ensures PoolInv(Act(p, Check))
  {
    NothingRemains(p);
    StepKeepsInv(p.batch, Close);
    assert Held(Act(p, Check));
  }

  lemma ActKeepsPoolInv(p: Pool, a: PoolAction)
    requires PoolInv(p) && CanAct(p, a)
    ensures PoolInv(Act(p, a))
  {
    hide PoolInv, Act;
    match a
    case Submit => SubmitKeeps(p);
    case Take(w) => TakeKeeps(p, w);
    case Work(w) => WorkKeeps(p, w);
    case Release(w) => ReleaseKeeps(p, w);
    case Wake => WakeKeeps(p);
    case Check => CheckKeeps(p);
  }

  lemma SubmitKeeps(p: Pool)
    requires PoolInv(p) && CanAct(p, Submit)
    ensures PoolInv(Act(p, Submit))
  {
    hide Inv, Busy;
    EveryoneIdle(p.workers);
    assert Held(Act(p, Submit));
    assert InLine(Act(p, Submit));
  }

  lemma WakeKeeps(p: Pool)
    requires PoolInv(p) && CanAct(p, Wake)
    ensures PoolInv(Act(p, Wake))
  {
    hide Inv, Busy;
    assert Held(Act(p, Wake));
  }

  predicate IsPoolRun(p: Pool, actions: seq<PoolAction>)
    decreases |actions|
  {
    actions == [] || (CanAct(p, actions[0]) && IsPoolRun(Act(p, actions[0]), actions[1..]))
  }

  function PoolAfter(p: Pool, actions: seq<PoolAction>): Pool
    requires IsPoolRun(p, actions)
    decreases |actions|
  {
    if actions == [] then p else PoolAfter(Act(p, actions[0]), actions[1..])
  }

  lemma {:induction false} PoolRunKeepsInv(p: Pool, actions: seq<PoolAction>)
    requires PoolInv(p) && IsPoolRun(p, actions)
    ensures PoolInv(PoolAfter(p, actions))
    decreases |actions|
  {
    if actions != [] {
      ActKeepsPoolInv(p, actions[0]);
      PoolRunKeepsInv(Act(p, actions[0]), actions[1..]);
    }
  }

  lemma {:induction false} AllIdle(threads: nat)
    ensures Busy(seq(threads, _ => Idle)) == 0
  {
    if threads > 0 {
      AllIdle(threads - 1);
      assert seq(threads, _ => Idle)[..threads - 1] == seq(threads - 1, _ => Idle);
    }
  }

  lemma {:induction false} PoolExpects(p: Pool, actions: seq<PoolAction>)
    requires IsPoolRun(p, actions)
    ensures PoolAfter(p, actions).batch.expected == p.batch.expected
    decreases |actions|
  {
    if actions != [] { PoolExpects(Act(p, actions[0]), actions[1..]); }
  }

  /** With the pool as executor the closing check never fails, whatever the interleaving, and the tasks
      are called in the order they were handed over, each once. */
  lemma PoolMeetsTheContract(tasks: nat, threads: nat, actions: seq<PoolAction>)
    requires IsPoolRun(Start(tasks, threads), actions)
    ensures var p := PoolAfter(Start(tasks, threads), actions);
        PoolInv(p) && !p.batch.closer.Failed? && !p.batch.violated
    ensures var calls := PoolAfter(Start(tasks, threads), actions).batch.calls;
        |calls| <= tasks && forall i :: 0 <= i < |calls| ==> calls[i].task == i
  {
    AllIdle(threads);
    PoolExpects(Start(tasks, threads), actions);
    assert PoolInv(Start(tasks, threads));
    PoolRunKeepsInv(Start(tasks, threads), actions);
  }

  /** With at least one thread no reachable state is stuck before the check has passed. */
  lemma PoolNeverStalls(p: Pool)
    requires PoolInv(p) && |p.workers| > 0 && !p.batch.closer.Passed?
    ensures exists a :: CanAct(p, a)
  {
    if p.caller.Submitting? {
      assert CanAct(p, Submit);
    } else if p.caller.Returned? {
      assert CanAct(p, Check);
    } else if p.remaining == 0 {
      assert CanAct(p, Wake);
    } else if w :| 0 <= w < |p.workers| && p.workers[w].Holding? {
      if CallIsOver(p.batch, p.workers[w].call) {
        assert CanAct(p, Release(w));
      } else {
        assert CanAct(p, Work(w));
      }
    } else {
      if p.queue == [] { EveryoneIdle(p.workers); }
      assert CanAct(p, Take(0));
    }
  }

  lemma {:induction false} EveryoneIdle(workers: seq<Worker>)
    requires forall w :: 0 <= w < |workers| ==> workers[w].Idle?
    ensures Busy(workers) == 0
  {
    if workers != [] { EveryoneIdle(workers[..|workers| - 1]); }
  }

  /** Steps a call still has before it. */
  function StepsLeft(phase: Phase): nat {
    match phase
    case Arrived => 6 case Admitted => 5 case Claimed => 4 case Counted => 3
    case InBody => 2 case BodyDone => 1 case Finished => 0 case Refusing => 1 case Rejected => 0
  }

  function CallsLeft(calls: seq<Call>): nat {
    if calls == [] then 0 else CallsLeft(calls[..|calls| - 1]) + StepsLeft(calls[|calls| - 1].phase)
  }

  lemma {:induction false} CallsLeftUpdate(calls: seq<Call>, i: nat, phase: Phase)
    requires i < |calls|
    ensures CallsLeft(calls[i := calls[i].(phase := phase)]) ==
        CallsLeft(calls) - StepsLeft(calls[i].phase) + StepsLeft(phase)
  {
    var next := calls[i := calls[i].(phase := phase)];
    if i == |calls| - 1 {
      assert next[..i] == calls[..i];
    } else {
      CallsLeftUpdate(calls[..|calls| - 1], i, phase);
      assert next[..|calls| - 1] == calls[..|calls| - 1][i := calls[i].(phase := phase)];
    }
  }

  function CloserLeft(c: Closer): nat {
    match c
    case Waiting => 4 case Closing => 3 case ReadStarted => 2 case ReadFinished => 1 case Passed => 0 case Failed => 0
  }

  function CallerLeft(p: Pool): nat {
    match p.caller
    case Submitting => 8 * p.batch.expected + 2 case Blocked => 1 case Returned => 0
  }

  /** Steps the whole pool still has before it. */
  function Fuel(p: Pool): nat {
    CallerLeft(p) + CloserLeft(p.batch.closer) + 8 * |p.queue| + CallsLeft(p.batch.calls) + Busy(p.workers)
  }

  /** Every step uses some of it up. */
  lemma ActUsesFuel(p: Pool, a: PoolAction)
    requires CanAct(p, a)
    ensures Fuel(Act(p, a)) < Fuel(p) && |Act(p, a).workers| == |p.workers| &&
        Act(p, a).batch.expected == p.batch.expected
  {
    hide CallsLeft, Busy;
    match a
    case Submit =>
    case Take(w) =>
      BusyUpdate(p.workers, w, Holding(|p.batch.calls|));
      NewCallLeft(p.batch.calls, p.queue[0]);
    case Work(w) => AdvanceUsesFuel(p.batch, p.workers[w].call);
    case Release(w) => BusyUpdate(p.workers, w, Idle);
    case Wake =>
    case Check =>
  }

  lemma NewCallLeft(calls: seq<Call>, t: nat)
    ensures CallsLeft(calls + [Call(t, Arrived)]) == CallsLeft(calls) + 6
  {
    assert (calls + [Call(t, Arrived)])[..|calls|] == calls;
  }

  lemma AdvanceUsesFuel(b: Batch, i: nat)
    requires Enabled(b, Advance(i))
    ensures var next := Step(b, Advance(i));
            CallsLeft(next.calls) < CallsLeft(b.calls) && next.closer == b.closer && next.expected == b.expected
  {
    hide CallsLeft;
    CallsLeftUpdate(b.calls, i, Step(b, Advance(i)).calls[i].phase);
  }

  lemma {:induction false} RunUsesFuel(p: Pool, actions: seq<PoolAction>)
    requires IsPoolRun(p, actions)
    ensures |actions| + Fuel(PoolAfter(p, actions)) <= Fuel(p) && |PoolAfter(p, actions).workers| == |p.workers|
    decreases |actions|
  {
    hide Fuel;
    if actions != [] {
      ActUsesFuel(p, actions[0]);
      RunUsesFuel(Act(p, actions[0]), actions[1..]);
    }
  }

  /** No run is longer than eight steps a task and six more, and a run that can go no further has
      passed the check: with the pool as executor the check is always reached, and passes. */
  lemma EveryRunPasses(tasks: nat, threads: nat, actions: seq<PoolAction>)
    requires threads > 0 && IsPoolRun(Start(tasks, threads), actions)
    ensures |actions| <= 8 * tasks + 6
    ensures var p := PoolAfter(Start(tasks, threads), actions);
            p.batch.closer.Passed? <==> forall a :: !CanAct(p, a)
  {
    hide PoolInv, Fuel;
    AllIdle(threads);
    StartFuel(tasks, threads);
    RunUsesFuel(Start(tasks, threads), actions);
    PoolMeetsTheContract(tasks, threads, actions);
    var p := PoolAfter(Start(tasks, threads), actions);
    if p.batch.closer.Passed? {
      forall a ensures !CanAct(p, a) { NothingAfterThePass(p, a); }
    } else {
      PoolNeverStalls(p);
    }
  }

  lemma StartFuel(tasks: nat, threads: nat)
    ensures Fuel(Start(tasks, threads)) == 8 * tasks + 6
  {
    AllIdle(threads);
  }

  lemma NothingAfterThePass(p: Pool, a: PoolAction)
    requires PoolInv(p) && p.batch.closer.Passed?
    ensures !CanAct(p, a)
  {
    NobodyBusy(p.workers);
  }

  /** Nothing queued, nothing under way. */
  ghost predicate Rested(p: Pool) {
    p.queue == [] && p.remaining == 0 && forall w :: 0 <= w < |p.workers| ==> p.workers[w].Idle?
  }

  /** The pool is handed the next batch. */
  function Again(p: Pool, tasks: nat): Pool { p.(batch := Fresh(tasks), caller := Submitting) }

  /** A passed check leaves the pool as a new one, so the next batch starts like the first. */
  lemma PassedIsRested(p: Pool)
    requires PoolInv(p) && p.batch.closer.Passed?
    ensures Rested(p)
  {
    NobodyBusy(p.workers);
  }

  lemma RestedStartsAnew(p: Pool, tasks: nat)
    requires Rested(p)
    ensures Again(p, tasks) == Start(tasks, |p.workers|)
  {
    assert p.workers == seq(|p.workers|, _ => Idle);
  }

  /** Batch after batch on one pool, the next one submitted when the check of the last has passed. */
  ghost predicate IsSession(p: Pool, tasks: seq<nat>, runs: seq<seq<PoolAction>>)
    requires |tasks| == |runs|
    decreases |runs|
  {
    runs == [] ||
    (&& IsPoolRun(Again(p, tasks[0]), runs[0])
     && (|runs| > 1 ==> PoolAfter(Again(p, tasks[0]), runs[0]).batch.closer.Passed?)
     && IsSession(PoolAfter(Again(p, tasks[0]), runs[0]), tasks[1..], runs[1..]))
  }

  function SessionEnd(p: Pool, tasks: seq<nat>, runs: seq<seq<PoolAction>>): Pool
    requires |tasks| == |runs| && IsSession(p, tasks, runs)
    decreases |runs|
  {
    if runs == [] then p else SessionEnd(PoolAfter(Again(p, tasks[0]), runs[0]), tasks[1..], runs[1..])
  }

  /** However many batches one pool serves: every batch takes a bounded number of steps, no check
      fails, and the last one can go no further exactly when its check has passed. */
  lemma {:induction false} EverySessionPasses(p: Pool, tasks: seq<nat>, runs: seq<seq<PoolAction>>)
    requires |tasks| == |runs| > 0 && |p.workers| > 0 && Rested(p) && IsSession(p, tasks, runs)
    ensures forall k :: 0 <= k < |runs| ==> |runs[k]| <= 8 * tasks[k] + 6
    ensures var q := SessionEnd(p, tasks, runs);
            && PoolInv(q) && !q.batch.closer.Failed? && !q.batch.violated
            && (q.batch.closer.Passed? <==> forall a :: !CanAct(q, a))
    decreases |runs|
  {
    hide PoolInv, Fuel, CanAct, Rested, Start, Again, IsPoolRun, PoolAfter;
    RestedStartsAnew(p, tasks[0]);
    EveryRunPasses(tasks[0], |p.workers|, runs[0]);
    PoolMeetsTheContract(tasks[0], |p.workers|, runs[0]);
    if |runs| > 1 {
      var q := PoolAfter(Again(p, tasks[0]), runs[0]);
      PassedIsRested(q);
      WorkersStay(tasks[0], |p.workers|, runs[0]);
      EverySessionPasses(q, tasks[1..], runs[1..]);
      forall k | 0 <= k < |runs| ensures |runs[k]| <= 8 * tasks[k] + 6 {
        if k > 0 { assert runs[k] == runs[1..][k - 1] && tasks[k] == tasks[1..][k - 1]; }
      }
    } else {
      assert runs[1..] == [];
    }
  }

  lemma WorkersStay(tasks: nat, threads: nat, actions: seq<PoolAction>)
    requires IsPoolRun(Start(tasks, threads), actions)
    ensures |PoolAfter(Start(tasks, threads), actions).workers| == threads
  {
    RunUsesFuel(Start(tasks, threads), actions);
  }
}
