/** What the closing check of a batch decides, over any run of calls and accesses. */
module ClosingCheck {
  import opened TaskGuard
  import Counting

  /** The moments at which the check made its four accesses: it closes the batch, then reads the
      violation flag, the started count and the finished count. */
  function CheckTimes(actions: seq<Action>): (times: seq<nat>)
    ensures forall k :: 0 <= k < |times| ==> times[k] < |actions| && actions[times[k]] == Close
    ensures forall j, k :: 0 <= j < k < |times| ==> times[j] < times[k]
    ensures forall a :: 0 <= a < |actions| && actions[a] == Close ==> a in times
  {
    if actions == [] then []
    else
      var last := |actions| - 1;
      CheckTimes(actions[..last]) + (if actions[last] == Close then [last] else [])
  }

  lemma RunOfMore(b: Batch, actions: seq<Action>)
    requires actions != []
    ensures IsRun(b, actions) <==> Enabled(b, actions[0]) && IsRun(Step(b, actions[0]), actions[1..])
    ensures IsRun(b, actions) ==> After(b, actions) == After(Step(b, actions[0]), actions[1..])
  {
    hide Step, Enabled;
  }

  lemma {:induction false} RunSplits(b: Batch, actions: seq<Action>, k: nat)
    requires IsRun(b, actions) && k <= |actions|
    ensures IsRun(b, actions[..k]) && IsRun(After(b, actions[..k]), actions[k..])
    ensures After(After(b, actions[..k]), actions[k..]) == After(b, actions)
    decreases k
  {
    hide Step, Enabled;
    if k == 0 {
      assert actions[..0] == [] && actions[0..] == actions;
    } else {
      hide IsRun, After;
      RunOfMore(b, actions);
      RunOfMore(b, actions[..k]);
      var next := Step(b, actions[0]);
      RunSplits(next, actions[1..], k - 1);
      assert actions[..k][1..] == actions[1..][..k - 1];
      assert actions[1..][k - 1..] == actions[k..];
    }
  }

  /** The batch as the k-th action of a run found it. */
  function At(n: nat, actions: seq<Action>, k: nat): Batch
    requires IsRun(Fresh(n), actions) && k <= |actions|
  {
    RunSplits(Fresh(n), actions, k);
    After(Fresh(n), actions[..k])
  }

  lemma LastStep(n: nat, actions: seq<Action>)
    requires IsRun(Fresh(n), actions) && actions != []
    ensures var last := |actions| - 1;
            IsRun(Fresh(n), actions[..last]) && Enabled(At(n, actions, last), actions[last]) &&
            At(n, actions, |actions|) == Step(At(n, actions, last), actions[last])
    ensures forall k :: 0 <= k <= |actions| - 1 ==> At(n, actions[..|actions| - 1], k) == At(n, actions, k)
  {
    hide Step, Enabled;
    var last := |actions| - 1;
    RunSplits(Fresh(n), actions, last);
    assert actions[last..] == [actions[last]] && actions[last..][1..] == [];
    assert actions[..|actions|] == actions;
    forall k | 0 <= k < |actions| ensures At(n, actions[..last], k) == At(n, actions, k) {
      assert actions[..last][..k] == actions[..k];
    }
  }

  lemma InvAt(n: nat, actions: seq<Action>, k: nat)
    requires IsRun(Fresh(n), actions) && k <= |actions|
    ensures Inv(At(n, actions, k)) && At(n, actions, k).expected == n
  {
    RunSplits(Fresh(n), actions, k);
    assert Inv(Fresh(n));
    RunKeepsInv(Fresh(n), actions[..k]);
    ExpectedIsKept(Fresh(n), actions[..k]);
  }

  /** The batch as each access of the check found it. */
  function Seen(n: nat, actions: seq<Action>): (seen: seq<Batch>)
    requires IsRun(Fresh(n), actions)
  {
    var times := CheckTimes(actions);
    seq(|times|, k requires 0 <= k < |times| => At(n, actions, times[k]))
  }

  /** What the check has found after its accesses so far, in terms of what each of them read. */
  ghost predicate Found(n: nat, seen: seq<Batch>, closer: Closer) {
    && |seen| <= 4
    && (|seen| == 0 <==> closer.Waiting?)
    && (|seen| == 1 <==> closer.Closing?)
    && (|seen| > 2 ==> !seen[1].violated)
    && (|seen| > 3 ==> seen[2].started == n)
    && (|seen| == 2 ==> closer == if seen[1].violated then Failed else ReadStarted)
    && (|seen| == 3 ==> closer == if seen[2].started != n then Failed else ReadFinished)
    && (|seen| == 4 ==> closer == if seen[3].finished != n then Failed else Passed)
  }

  lemma OneMoreAccess(n: nat, seen: seq<Batch>, b: Batch, a: Action)
    requires Enabled(b, a) && b.expected == n && Found(n, seen, b.closer)
    ensures Found(n, if a == Close then seen + [b] else seen, Step(b, a).closer)
  {
  }

  lemma TimesNext(actions: seq<Action>)
    requires actions != []
    ensures var last := |actions| - 1;
            var before := CheckTimes(actions[..last]);
            && CheckTimes(actions) == before + (if actions[last] == Close then [last] else [])
            && forall k :: 0 <= k < |before| ==> before[k] < last
  {
  }

  lemma SeenNext(n: nat, actions: seq<Action>)
    requires IsRun(Fresh(n), actions) && actions != [] && IsRun(Fresh(n), actions[..|actions| - 1])
    ensures var last := |actions| - 1;
            var before := Seen(n, actions[..last]);
            Seen(n, actions) == if actions[last] == Close then before + [At(n, actions, last)] else before
  {
    hide IsRun, After, Step, Enabled, Inv, At, CheckTimes;
    var last := |actions| - 1;
    TimesNext(actions);
    var times, before := CheckTimes(actions), CheckTimes(actions[..last]);
    forall k | 0 <= k < |before|
      ensures times[k] == before[k] < last && At(n, actions[..last], before[k]) == At(n, actions, before[k])
    {
      PrefixAt(n, actions, last, before[k]);
    }
  }

  lemma PrefixAt(n: nat, actions: seq<Action>, m: nat, k: nat)
    requires IsRun(Fresh(n), actions) && k <= m <= |actions| && IsRun(Fresh(n), actions[..m])
    ensures At(n, actions[..m], k) == At(n, actions, k)
  {
    assert actions[..m][..k] == actions[..k];
  }

  lemma {:induction false} CheckFinds(n: nat, actions: seq<Action>)
    requires IsRun(Fresh(n), actions)
    ensures Found(n, Seen(n, actions), After(Fresh(n), actions).closer)
    decreases |actions|
  {
    if actions != [] {
      var last := |actions| - 1;
      LastStep(n, actions);
      InvAt(n, actions, last);
      CheckFinds(n, actions[..last]);
      SeenNext(n, actions);
      OneMoreAccess(n, Seen(n, actions[..last]), At(n, actions, last), actions[last]);
      assert actions[..|actions|] == actions;
    }
  }

  /** No call has set the violation flag. */
  ghost predicate NoneRejected(b: Batch) {
    forall i :: 0 <= i < |b.calls| ==> !b.calls[i].phase.Rejected?
  }

  /** Some call of the task has added to the started count. */
  ghost predicate Started(b: Batch, t: nat) {
    exists i :: 0 <= i < |b.calls| && b.calls[i].task == t &&
      (b.calls[i].phase.Counted? || b.calls[i].phase.InBody? || b.calls[i].phase.BodyDone? ||
        b.calls[i].phase.Finished?)
  }

  ghost predicate Completed(b: Batch, t: nat) {
    exists i :: 0 <= i < |b.calls| && b.calls[i].task == t && b.calls[i].phase.Finished?
  }

  ghost predicate AllStarted(b: Batch) {
    forall t :: 0 <= t < b.expected ==> Started(b, t)
  }

  ghost predicate AllFinished(b: Batch) {
    forall t :: 0 <= t < b.expected ==> Completed(b, t)
  }

  /** The tasks of the calls that have come at least as far as rank r. */
  function Reached(calls: seq<Call>, r: nat): (tasks: seq<nat>)
    ensures |tasks| == Count(calls, r)
    ensures forall t :: t in tasks <==> exists i :: 0 <= i < |calls| && calls[i].task == t && Rank(calls[i].phase) >= r
  {
    if calls == [] then []
    else
      var last := |calls| - 1;
      var rest := Reached(calls[..last], r);
      if Rank(calls[last].phase) >= r then rest + [calls[last].task] else rest
  }

  lemma {:induction false} ReachedIsDistinct(calls: seq<Call>, r: nat)
    requires forall i, j :: 0 <= i < j < |calls| && Rank(calls[i].phase) >= r && Rank(calls[j].phase) >= r ==>
               calls[i].task != calls[j].task
    ensures Counting.AllDistinct(Reached(calls, r))
  {
    if calls != [] {
      var last := |calls| - 1;
      ReachedIsDistinct(calls[..last], r);
      var rest, c := Reached(calls[..last], r), calls[last];
      if Rank(c.phase) >= r {
        assert c.task !in rest;
        assert Reached(calls, r) == rest + [c.task];
      }
    }
  }

  ghost predicate Covers(tasks: seq<nat>, n: nat) {
    forall t :: 0 <= t < n ==> t in tasks
  }

  /** A count of n at rank r means that each of the n tasks has a call there. */
  lemma CountIsAll(b: Batch, r: nat)
    requires Inv(b) && r >= 2
    ensures Count(b.calls, r) == b.expected <==> Covers(Reached(b.calls, r), b.expected)
  {
    ReachedIsDistinct(b.calls, r);
    var tasks := Reached(b.calls, r);
    forall t | t in tasks ensures t < b.expected {
      var i :| 0 <= i < |b.calls| && b.calls[i].task == t && Rank(b.calls[i].phase) >= r;
    }
    forall i | 0 <= i < |tasks| ensures tasks[i] < b.expected { assert tasks[i] in tasks; }
    Counting.DistinctBelow(tasks, b.expected);
    if Covers(tasks, b.expected) {
      forall t ensures t in tasks <==> 0 <= t < b.expected { }
      Counting.DistinctExactly(tasks, b.expected);
    }
  }

  lemma StartedIsAll(b: Batch)
    requires Inv(b)
    ensures b.started == b.expected <==> AllStarted(b)
  {
    CountIsAll(b, 3);
    forall t ensures t in Reached(b.calls, 3) <==> t >= 0 && Started(b, t) { }
  }

  lemma FinishedIsAll(b: Batch)
    requires Inv(b)
    ensures b.finished == b.expected <==> AllFinished(b)
  {
    CountIsAll(b, 6);
    forall t ensures t in Reached(b.calls, 6) <==> t >= 0 && Completed(b, t) { }
  }

  /** Over any run: the check passes exactly when no call had been rejected as it read the flag, every
      task had a call past its start as it read the one counter, and a finished one as it read the other.
      It has failed exactly when one of the reads it came to found otherwise. */
  lemma CheckPassesExactly(n: nat, actions: seq<Action>)
    requires IsRun(Fresh(n), actions)
    ensures var times, closer := CheckTimes(actions), After(Fresh(n), actions).closer;
            && |times| <= 4 && (After(Fresh(n), actions).closed <==> times != [])
            && (closer.Passed? <==>
                |times| == 4 && NoneRejected(At(n, actions, times[1])) && AllStarted(At(n, actions, times[2])) &&
                AllFinished(At(n, actions, times[3])))
            && (closer.Failed? <==>
                || (|times| == 2 && !NoneRejected(At(n, actions, times[1])))
                || (|times| == 3 && !AllStarted(At(n, actions, times[2])))
                || (|times| == 4 && !AllFinished(At(n, actions, times[3]))))
  {
    CheckFinds(n, actions);
    InvAt(n, actions, |actions|);
    assert actions[..|actions|] == actions;
    var times := CheckTimes(actions);
    forall k | 0 <= k < |times|
      ensures var b := At(n, actions, times[k]);
              && b.expected == n && (b.violated <==> !NoneRejected(b))
              && (b.started == n <==> AllStarted(b)) && (b.finished == n <==> AllFinished(b))
    {
      InvAt(n, actions, times[k]);
      StartedIsAll(At(n, actions, times[k]));
      FinishedIsAll(At(n, actions, times[k]));
    }
  }

  /** A call that was rejected before the flag was read makes the check fail, whatever follows. */
  lemma RejectionFailsTheCheck(n: nat, actions: seq<Action>, k: nat)
    requires IsRun(Fresh(n), actions) && k <= |actions| && !NoneRejected(At(n, actions, k))
    requires |CheckTimes(actions)| >= 2 ==> k <= CheckTimes(actions)[1]
    ensures !After(Fresh(n), actions).closer.Passed?
  {
    var times := CheckTimes(actions);
    CheckPassesExactly(n, actions);
    if |times| >= 2 {
      RunSplits(Fresh(n), actions, k);
      RunSplits(Fresh(n), actions, times[1]);
      RunSplits(Fresh(n), actions[..times[1]], k);
      assert actions[..times[1]][..k] == actions[..k];
      StaysRejected(At(n, actions, k), actions[..times[1]][k..]);
    }
  }

  lemma {:induction false} StaysRejected(b: Batch, actions: seq<Action>)
    requires IsRun(b, actions) && !NoneRejected(b)
    ensures !NoneRejected(After(b, actions))
    decreases |actions|
  {
    if actions != [] {
      var i :| 0 <= i < |b.calls| && b.calls[i].phase.Rejected?;
      assert Step(b, actions[0]).calls[i] == b.calls[i];
      StaysRejected(Step(b, actions[0]), actions[1..]);
    }
  }

  /** A call that has not got past the closed flag, or was turned back. */
  predicate Outside(p: Phase) { p.Arrived? || p.Refusing? || p.Rejected? }

  /** A call on its way to the body. */
  predicate Underway(p: Phase) { p.Admitted? || p.Claimed? || p.Counted? }

  /** Once the batch is closed, whether its check passes or fails, a call made later, or one that has
      not read the closed flag yet, never enters a body: every body entered from then on belongs to a
      call that was under way. */
  lemma {:induction false} LateCallsRunNothing(b: Batch, actions: seq<Action>)
    requires b.closed && IsRun(b, actions)
    ensures var after := After(b, actions);
            && |b.calls| <= |after.calls|
            && (forall i :: 0 <= i < |after.calls| && (i < |b.calls| ==> Outside(b.calls[i].phase)) ==>
                  Outside(after.calls[i].phase))
            && b.bodies <= after.bodies
            && (forall k :: |b.bodies| <= k < |after.bodies| ==> OnItsWay(b, after.bodies[k]))
    decreases |actions|
  {
    if actions != [] {
      hide Step, Enabled, OnItsWay, IsRun, After;
      RunOfMore(b, actions);
      var next, after := Step(b, actions[0]), After(b, actions);
      LateStep(b, actions[0]);
      LateCallsRunNothing(next, actions[1..]);
      forall k | |b.bodies| <= k < |after.bodies| ensures OnItsWay(b, after.bodies[k]) {
        if k < |next.bodies| { assert after.bodies[k] == next.bodies[k]; }
      }
    }
  }

  /** A call of the task has got past the closed flag and not entered the body yet. */
  ghost predicate OnItsWay(b: Batch, t: nat) {
    exists i :: 0 <= i < |b.calls| && Underway(b.calls[i].phase) && b.calls[i].task == t
  }

  lemma LateStep(b: Batch, a: Action)
    requires b.closed && Enabled(b, a)
    ensures var next := Step(b, a);
            && next.closed && |b.calls| <= |next.calls|
            && (forall i :: 0 <= i < |next.calls| && (i < |b.calls| ==> Outside(b.calls[i].phase)) ==>
                  Outside(next.calls[i].phase))
            && b.bodies <= next.bodies
            && (forall k :: |b.bodies| <= k < |next.bodies| ==> OnItsWay(b, next.bodies[k]))
            && (forall t: nat :: OnItsWay(next, t) ==> OnItsWay(b, t))
  {
    var next := Step(b, a);
    assert forall i :: 0 <= i < |next.calls| && Underway(next.calls[i].phase) ==>
        i < |b.calls| && Underway(b.calls[i].phase) && b.calls[i].task == next.calls[i].task;
  }
}
