/** The job scheduler: a one-pass greedy stager over last-reader, last-writer and barrier
    stages, proved to compute the longest chain of conflicting predecessors. */
module Scheduler {
  import opened Counting

  /** What the stager reads of a job record. `split` says that the
      job is allowed more than one thread. */
  datatype Job = Job(reading: seq<nat>, writing: seq<nat>, structural: bool, split: bool, order: int, sequence: nat)

  /** The jobs a tick may cut into chunks. */
  predicate Split(job: Job) { job.split && !job.structural }

  predicate Overlap(a: seq<nat>, b: seq<nat>) {
    exists c :: c in a && c in b
  }

  /** Two jobs that may not share a stage. */
  predicate Conflict(a: Job, b: Job) {
    a.structural || b.structural || Overlap(a.writing, b.writing) || Overlap(a.writing, b.reading) ||
        Overlap(a.reading, b.writing)
  }

  predicate Before(a: Job, b: Job) {
    a.order < b.order || (a.order == b.order && a.sequence < b.sequence)
  }

  /** The canonical order both callers of the stager pass: sorted and without repeats. */
  ghost predicate Canonical(jobs: seq<Job>, ordered: seq<nat>) {
    && (forall k :: 0 <= k < |ordered| ==> ordered[k] < |jobs|)
    && (forall i, j :: 0 <= i < j < |ordered| ==> Before(jobs[ordered[i]], jobs[ordered[j]]))
  }

  function InOrder(jobs: seq<Job>, ordered: seq<nat>): (js: seq<Job>)
    requires forall k :: 0 <= k < |ordered| ==> ordered[k] < |jobs|
    ensures |js| == |ordered| && forall k :: 0 <= k < |js| ==> js[k] == jobs[ordered[k]]
  {
    seq(|ordered|, k requires 0 <= k < |ordered| => jobs[ordered[k]])
  }

  /** Reference definition: the length of the longest chain of pairwise conflicting
      predecessors that ends in job k. */
  function Level(js: seq<Job>, k: nat): nat
    requires k < |js|
    decreases k, k + 1
  {
    Above(js, k, k)
  }

  function Above(js: seq<Job>, k: nat, n: nat): nat
    requires n <= k < |js|
    decreases k, n
  {
    if n == 0 then 0
    else
      var rest := Above(js, k, n - 1);
      if Conflict(js[n - 1], js[k]) then Max(rest, Level(js, n - 1) + 1) else rest
  }

  lemma {:induction false} AboveBounds(js: seq<Job>, k: nat, n: nat)
    requires n <= k < |js|
    ensures forall j :: 0 <= j < n && Conflict(js[j], js[k]) ==> Level(js, j) < Above(js, k, n)
    ensures Above(js, k, n) == 0 || exists j ::
        0 <= j < n && Conflict(js[j], js[k]) && Above(js, k, n) == Level(js, j) + 1
  {
    if n > 0 {
      AboveBounds(js, k, n - 1);
    }
  }

  /** Conflicting jobs keep canonical order, so no stage holds a conflicting pair. */
  lemma ConflictsAreOrdered(js: seq<Job>, i: nat, j: nat)
    requires i < j < |js| && Conflict(js[i], js[j])
    ensures Level(js, i) < Level(js, j)
  {
    AboveBounds(js, j, j);
  }

  lemma StructuralJobsAreAlone(js: seq<Job>, i: nat, j: nat)
    requires i < |js| && j < |js| && i != j && js[i].structural
    ensures Level(js, i) != Level(js, j)
  {
    if i < j { ConflictsAreOrdered(js, i, j); } else { ConflictsAreOrdered(js, j, i); }
  }

  /** An assignment of stages that keeps conflicting jobs in canonical order. */
  ghost predicate RespectsConflicts(js: seq<Job>, stage: seq<nat>) {
    |stage| == |js| && forall i, j :: 0 <= i < j < |js| && Conflict(js[i], js[j]) ==> stage[i] < stage[j]
  }

  /** Every job sits in the least stage that any admissible assignment gives it. */
  lemma {:induction false} LevelIsLeast(js: seq<Job>, stage: seq<nat>, k: nat)
    requires RespectsConflicts(js, stage) && k < |js|
    ensures Level(js, k) <= stage[k]
  {
    AboveBounds(js, k, k);
    if Level(js, k) > 0 {
      var j :| 0 <= j < k && Conflict(js[j], js[k]) && Level(js, k) == Level(js, j) + 1;
      LevelIsLeast(js, stage, j);
    }
  }

  /** No stage below an occupied one is empty. */
  lemma {:induction false} LevelsAreDense(js: seq<Job>, k: nat, s: nat)
    requires k < |js| && s <= Level(js, k)
    ensures exists j :: 0 <= j <= k && Level(js, j) == s
    decreases k
  {
    if s < Level(js, k) {
      AboveBounds(js, k, k);
      var j :| 0 <= j < k && Conflict(js[j], js[k]) && Level(js, k) == Level(js, j) + 1;
      LevelsAreDense(js, j, s);
    }
  }

  /** The jobs of stage s among the first n, in canonical order. */
  function Members(js: seq<Job>, ordered: seq<nat>, n: nat, s: nat): seq<nat>
    requires n <= |js| == |ordered|
  {
    if n == 0 then []
    else Members(js, ordered, n - 1, s) + (if Level(js, n - 1) == s then [ordered[n - 1]] else [])
  }

  lemma {:induction false} MembersAreExactly(js: seq<Job>, ordered: seq<nat>, n: nat, s: nat)
    requires n <= |js| == |ordered|
    ensures forall m :: m in Members(js, ordered, n, s) <==>
        exists k :: 0 <= k < n && ordered[k] == m && Level(js, k) == s
  {
    if n > 0 { MembersAreExactly(js, ordered, n - 1, s); }
  }

  function Uses(job: Job, written: bool): seq<nat> { if written then job.writing else job.reading }

  ghost predicate Lists(js: seq<Job>, j: nat, written: bool, c: nat)
    requires j < |js|
  {
    !js[j].structural && c in Uses(js[j], written)
  }

  /** last[c] is the highest level of a non-structural job among the first n that lists c. */
  ghost predicate Tracks(js: seq<Job>, n: nat, last: map<nat, nat>, written: bool)
    requires n <= |js|
  {
    && (forall c, j :: 0 <= j < n && Lists(js, j, written, c) ==> c in last && Level(js, j) <= last[c])
    && (forall c :: c in last ==> exists j :: 0 <= j < n && Lists(js, j, written, c) && Level(js, j) == last[c])
  }

  /** The stage of the last structural job; everything before it lies strictly below. */
  ghost predicate IsBarrier(js: seq<Job>, n: nat, has: bool, barrier: nat)
    requires n <= |js|
  {
    if has then
      exists b :: && 0 <= b < n && js[b].structural && Level(js, b) == barrier
                  && forall j :: 0 <= j < n && j != b ==> if j < b then Level(js, j) < barrier else !js[j].structural
    else forall j :: 0 <= j < n ==> !js[j].structural
  }

  ghost predicate AboveAll(components: seq<nat>, last: map<nat, nat>, stage: nat) {
    forall c :: c in components && c in last ==> last[c] < stage
  }

  ghost predicate JustAbove(components: seq<nat>, last: map<nat, nat>, stage: nat) {
    exists c :: c in components && c in last && stage == last[c] + 1
  }

  method ApplyDependencies(components: seq<nat>, last: map<nat, nat>, stage: nat) returns (r: nat)
    ensures stage <= r && AboveAll(components, last, r)
    ensures r == stage || JustAbove(components, last, r)
  {
    r := stage;
    for i := 0 to |components|
      invariant stage <= r && forall k :: 0 <= k < i && components[k] in last ==> last[components[k]] < r
      invariant r == stage || JustAbove(components, last, r)
    {
      if components[i] in last {
        r := Max(r, last[components[i]] + 1);
      }
    }
  }

  method RecordReads(reading: seq<nat>, last: map<nat, nat>, stage: nat) returns (r: map<nat, nat>)
    ensures forall c :: c in r <==> c in last || c in reading
    ensures forall c :: c in r ==>
        r[c] == if c !in reading then last[c] else if c in last then Max(last[c], stage) else stage
  {
    r := last;
    for i := 0 to |reading|
      invariant forall c :: c in r <==> c in last || c in reading[..i]
      invariant forall c :: c in r ==>
          r[c] == if c !in reading[..i] then last[c] else if c in last then Max(last[c], stage) else stage
    {
      assert reading[..i + 1] == reading[..i] + [reading[i]];
      if reading[i] in r {
        r := r[reading[i] := Max(r[reading[i]], stage)];
      } else {
        r := r[reading[i] := stage];
      }
    }
    assert reading[..|reading|] == reading;
  }

  method RecordWrites(writing: seq<nat>, last: map<nat, nat>, stage: nat) returns (r: map<nat, nat>)
    ensures forall c :: c in r <==> c in last || c in writing
    ensures forall c :: c in r ==> r[c] == if c in writing then stage else last[c]
  {
    r := last;
    for i := 0 to |writing|
      invariant forall c :: c in r <==> c in last || c in writing[..i]
      invariant forall c :: c in r ==> r[c] == if c in writing[..i] then stage else last[c]
    {
      assert writing[..i + 1] == writing[..i] + [writing[i]];
      r := r[writing[i] := stage];
    }
    assert writing[..|writing|] == writing;
  }

  lemma PredecessorIsBelow(js: seq<Job>, n: nat, readers: map<nat, nat>, writers: map<nat, nat>,
                           has: bool, barrier: nat, stage: nat, j: nat)
    requires j < n < |js| && !js[n].structural && Conflict(js[j], js[n])
    requires Tracks(js, n, readers, false) && Tracks(js, n, writers, true) && IsBarrier(js, n, has, barrier)
    requires has ==> barrier < stage
    requires AboveAll(js[n].reading, writers, stage)
    requires AboveAll(js[n].writing, readers, stage)
    requires AboveAll(js[n].writing, writers, stage)
    ensures Level(js, j) < stage
  {
    if js[j].structural {
    } else if Overlap(js[j].writing, js[n].writing) {
      var c :| c in js[j].writing && c in js[n].writing;
      assert Lists(js, j, true, c);
    } else if Overlap(js[j].writing, js[n].reading) {
      var c :| c in js[j].writing && c in js[n].reading;
      assert Lists(js, j, true, c);
    } else {
      var c :| c in js[j].reading && c in js[n].writing;
      assert Lists(js, j, false, c);
    }
  }

  lemma LevelIsJustAbove(js: seq<Job>, n: nat)
    requires n < |js|
    ensures forall j :: 0 <= j < n && Conflict(js[j], js[n]) ==> Level(js, j) < Level(js, n)
    ensures Level(js, n) == 0 || exists j :: 0 <= j < n && Conflict(js[j], js[n]) && Level(js, n) == Level(js, j) + 1
  {
    hide Conflict;
    AboveBounds(js, n, n);
  }

  /** The stage the greedy pass gives to job n is its level: the least bound above the
      barrier, the last writers of its reads and the last readers and writers of its writes. */
  lemma GreedyStageIsLevel(js: seq<Job>, n: nat, readers: map<nat, nat>, writers: map<nat, nat>,
                           has: bool, barrier: nat, stage: nat)
    requires n < |js| && !js[n].structural
    requires Tracks(js, n, readers, false) && Tracks(js, n, writers, true) && IsBarrier(js, n, has, barrier)
    requires has ==> barrier < stage
    requires AboveAll(js[n].reading, writers, stage)
    requires AboveAll(js[n].writing, readers, stage)
    requires AboveAll(js[n].writing, writers, stage)
    requires || stage == (if has then barrier + 1 else 0)
             || JustAbove(js[n].reading, writers, stage)
             || JustAbove(js[n].writing, readers, stage)
             || JustAbove(js[n].writing, writers, stage)
    ensures stage == Level(js, n)
  {
    hide Level, Conflict, Tracks, IsBarrier, AboveAll, JustAbove;
    LevelIsJustAbove(js, n);
    if Level(js, n) != 0 {
      var j :| 0 <= j < n && Conflict(js[j], js[n]) && Level(js, n) == Level(js, j) + 1;
      PredecessorIsBelow(js, n, readers, writers, has, barrier, stage, j);
    }
    if stage != 0 {
      var j := Witness(js, n, readers, writers, has, barrier, stage);
      assert Conflict(js[j], js[n]);
    }
  }

  /** Whatever bound made the greedy stage that high is a conflicting predecessor. */
  lemma Witness(js: seq<Job>, n: nat, readers: map<nat, nat>, writers: map<nat, nat>,
                has: bool, barrier: nat, stage: nat) returns (j: nat)
    requires n < |js| && !js[n].structural && stage != 0
    requires Tracks(js, n, readers, false) && Tracks(js, n, writers, true) && IsBarrier(js, n, has, barrier)
    requires || stage == (if has then barrier + 1 else 0)
             || JustAbove(js[n].reading, writers, stage)
             || JustAbove(js[n].writing, readers, stage)
             || JustAbove(js[n].writing, writers, stage)
    ensures j < n && Conflict(js[j], js[n]) && stage == Level(js, j) + 1
  {
    if c :| c in js[n].reading && c in writers && stage == writers[c] + 1 {
      j :| 0 <= j < n && Lists(js, j, true, c) && Level(js, j) == writers[c];
    } else if c :| c in js[n].writing && c in readers && stage == readers[c] + 1 {
      j :| 0 <= j < n && Lists(js, j, false, c) && Level(js, j) == readers[c];
    } else if c :| c in js[n].writing && c in writers && stage == writers[c] + 1 {
      j :| 0 <= j < n && Lists(js, j, true, c) && Level(js, j) == writers[c];
    } else {
      j :| 0 <= j < n && js[j].structural && Level(js, j) == barrier;
    }
  }

  /** A structural job's level is one above everything before it. */
  lemma StructuralLevel(js: seq<Job>, n: nat, latest: nat)
    requires n < |js| && js[n].structural
    requires forall j :: 0 <= j < n ==> Level(js, j) <= latest
    requires n > 0 ==> exists j :: 0 <= j < n && Level(js, j) == latest
    ensures Level(js, n) == if n > 0 then latest + 1 else 0
  {
    AboveBounds(js, n, n);
    if n > 0 {
      var j :| 0 <= j < n && Level(js, j) == latest;
      assert Conflict(js[j], js[n]);
    }
  }

  lemma {:induction false} HighStagesAreEmpty(js: seq<Job>, ordered: seq<nat>, n: nat, s: nat)
    requires n <= |js| == |ordered|
    requires forall j :: 0 <= j < n ==> Level(js, j) < s
    ensures Members(js, ordered, n, s) == []
  {
    if n > 0 { HighStagesAreEmpty(js, ordered, n - 1, s); }
  }

  lemma ReadsAreListed(js: seq<Job>, n: nat)
    requires n < |js| && !js[n].structural
    ensures forall c :: Lists(js, n, false, c) <==> c in js[n].reading
  {
  }

  lemma {:induction false} TracksAfterRead(js: seq<Job>, n: nat, last: map<nat, nat>, next: map<nat, nat>)
    requires n < |js| && !js[n].structural && Tracks(js, n, last, false)
    requires forall c :: c in next <==> c in last || c in js[n].reading
    requires forall c :: c in last ==> last[c] <= next[c]
    requires forall c :: c in js[n].reading ==> Level(js, n) <= next[c]
    requires forall c :: c in next ==>
        (c in last && next[c] == last[c]) || (c in js[n].reading && next[c] == Level(js, n))
    ensures Tracks(js, n + 1, next, false)
  {
    hide Level, Lists;
    ReadsAreListed(js, n);
    forall c, j | 0 <= j < n + 1 && Lists(js, j, false, c)
      ensures c in next && Level(js, j) <= next[c]
    {
      if j < n { assert c in last; }
    }
    forall c | c in next
      ensures exists j :: 0 <= j < n + 1 && Lists(js, j, false, c) && Level(js, j) == next[c]
    {
      if c in last && next[c] == last[c] {
        var j :| 0 <= j < n && Lists(js, j, false, c) && Level(js, j) == last[c];
      } else {
        assert Lists(js, n, false, c);
      }
    }
  }

  lemma {:induction false} TracksAfterWrite(js: seq<Job>, n: nat, last: map<nat, nat>, next: map<nat, nat>)
    requires n < |js| && !js[n].structural && Tracks(js, n, last, true)
    requires forall c :: c in next <==> c in last || c in js[n].writing
    requires forall c :: c in next ==> next[c] == if c in js[n].writing then Level(js, n) else last[c]
    ensures Tracks(js, n + 1, next, true)
  {
    forall c, j | 0 <= j < n + 1 && Lists(js, j, true, c)
      ensures c in next && Level(js, j) <= next[c]
    {
      if j < n && c in js[n].writing { ConflictsAreOrdered(js, j, n); }
    }
    forall c | c in next
      ensures exists j :: 0 <= j < n + 1 && Lists(js, j, true, c) && Level(js, j) == next[c]
    {
      if c in js[n].writing {
        assert Lists(js, n, true, c);
      } else {
        var j :| 0 <= j < n && Lists(js, j, true, c) && Level(js, j) == last[c];
      }
    }
  }

  lemma {:induction false} BarrierAfter(js: seq<Job>, n: nat, has: bool, barrier: nat)
    requires n < |js| && IsBarrier(js, n, has, barrier)
    ensures IsBarrier(js, n + 1, has || js[n].structural, if js[n].structural then Level(js, n) else barrier)
  {
    hide Level;
    if js[n].structural {
      forall j | 0 <= j < n ensures Level(js, j) < Level(js, n) { ConflictsAreOrdered(js, j, n); }
    }
  }

  /** The first n jobs have been placed: latest is their highest stage. */
  ghost predicate Placed(js: seq<Job>, ordered: seq<nat>, n: nat, stages: seq<seq<nat>>, latest: nat)
    requires n <= |js| == |ordered|
  {
    && |stages| == (if n > 0 then latest + 1 else 0)
    && (forall j :: 0 <= j < n ==> Level(js, j) <= latest)
    && (n > 0 ==> exists j :: 0 <= j < n && Level(js, j) == latest)
    && (forall s :: 0 <= s < |stages| ==> stages[s] == Members(js, ordered, n, s))
  }

  function Extended(stages: seq<seq<nat>>, stage: nat): (r: seq<seq<nat>>)
    ensures |r| == Max(|stages|, stage + 1) && stages <= r
    ensures forall s :: |stages| <= s < |r| ==> r[s] == []
  {
    if |stages| <= stage then stages + seq(stage + 1 - |stages|, _ => []) else stages
  }

  lemma {:induction false} PlaceJob(js: seq<Job>, ordered: seq<nat>, n: nat, stages: seq<seq<nat>>, latest: nat,
      stage: nat)
    requires n < |js| == |ordered| && Placed(js, ordered, n, stages, latest) && stage == Level(js, n)
    ensures var wide := Extended(stages, stage);
            Placed(js, ordered, n + 1, wide[stage := wide[stage] + [ordered[n]]], if n > 0 then Max(latest, stage)
                else stage)
  {
    hide Level, Members;
    var wide := Extended(stages, stage);
    var after := wide[stage := wide[stage] + [ordered[n]]];
    forall s | 0 <= s < |after| ensures after[s] == Members(js, ordered, n + 1, s) {
      OneMoreMember(js, ordered, n, s);
      if s >= |stages| { NewStageIsEmpty(js, ordered, n, stages, latest, s); }
    }
    if n > 0 && stage < latest {
      var j :| 0 <= j < n && Level(js, j) == latest;
    }
  }

  lemma {:induction false} OneMoreMember(js: seq<Job>, ordered: seq<nat>, n: nat, s: nat)
    requires n < |js| == |ordered|
    ensures Members(js, ordered, n + 1, s) ==
        Members(js, ordered, n, s) + (if Level(js, n) == s then [ordered[n]] else [])
  {
    hide Level;
  }

  lemma {:induction false} NewStageIsEmpty(js: seq<Job>, ordered: seq<nat>, n: nat, stages: seq<seq<nat>>, latest: nat,
      s: nat)
    requires n < |js| == |ordered| && Placed(js, ordered, n, stages, latest) && s >= |stages|
    ensures Members(js, ordered, n, s) == []
  {
    hide Level;
    HighStagesAreEmpty(js, ordered, n, s);
  }

  lemma NoStageIsEmpty(js: seq<Job>, ordered: seq<nat>, stages: seq<seq<nat>>, latest: nat)
    requires |js| == |ordered| && Placed(js, ordered, |js|, stages, latest)
    ensures forall k :: 0 <= k < |js| ==> Level(js, k) < |stages|
    ensures forall s :: 0 <= s < |stages| ==> stages[s] != []
  {
    forall s | 0 <= s < |stages|
      ensures stages[s] != []
    {
      var k :| 0 <= k < |js| && Level(js, k) == latest;
      LevelsAreDense(js, k, s);
      MembersAreExactly(js, ordered, |js|, s);
      var j :| 0 <= j <= k && Level(js, j) == s;
      assert ordered[j] in stages[s];
    }
  }

  /** Everything the pass remembers about the first n jobs. */
  ghost predicate Remembers(js: seq<Job>, n: nat, readers: map<nat, nat>, writers: map<nat, nat>, has: bool,
      barrier: nat)
    requires n <= |js|
  {
    Tracks(js, n, readers, false) && Tracks(js, n, writers, true) && IsBarrier(js, n, has, barrier)
  }

  method StageOfOrdinaryJob(ghost js: seq<Job>, ghost n: nat, job: Job,
                            lastReader: map<nat, nat>, lastWriter: map<nat, nat>, hasBarrier: bool, barrier: nat)
    returns (stage: nat)
    requires n < |js| && job == js[n] && !job.structural &&
        Remembers(js, n, lastReader, lastWriter, hasBarrier, barrier)
    ensures stage == Level(js, n)
  {
    stage := if hasBarrier then barrier + 1 else 0;
    stage := ApplyDependencies(job.reading, lastWriter, stage);
    stage := ApplyDependencies(job.writing, lastReader, stage);
    stage := ApplyDependencies(job.writing, lastWriter, stage);
    GreedyStageIsLevel(js, n, lastReader, lastWriter, hasBarrier, barrier, stage);
  }

  method RecordOrdinaryJob(ghost js: seq<Job>, ghost n: nat, job: Job,
                           lastReader: map<nat, nat>, lastWriter: map<nat, nat>,
                           ghost hasBarrier: bool, ghost barrier: nat, stage: nat)
    returns (nextReader: map<nat, nat>, nextWriter: map<nat, nat>)
    requires n < |js| && job == js[n] && !job.structural &&
        Remembers(js, n, lastReader, lastWriter, hasBarrier, barrier)
    requires stage == Level(js, n)
    ensures Remembers(js, n + 1, nextReader, nextWriter, hasBarrier, barrier)
  {
    nextReader := RecordReads(job.reading, lastReader, stage);
    nextWriter := RecordWrites(job.writing, lastWriter, stage);
    TracksAfterRead(js, n, lastReader, nextReader);
    TracksAfterWrite(js, n, lastWriter, nextWriter);
    BarrierAfter(js, n, hasBarrier, barrier);
  }

  lemma RememberStructural(js: seq<Job>, n: nat, readers: map<nat, nat>, writers: map<nat, nat>, has: bool,
      barrier: nat)
    requires n < |js| && js[n].structural && Remembers(js, n, readers, writers, has, barrier)
    ensures Remembers(js, n + 1, readers, writers, true, Level(js, n))
  {
    BarrierAfter(js, n, has, barrier);
    forall c | c in readers
      ensures exists j :: 0 <= j < n + 1 && Lists(js, j, false, c) && Level(js, j) == readers[c]
    {
      var j :| 0 <= j < n && Lists(js, j, false, c) && Level(js, j) == readers[c];
    }
    forall c | c in writers
      ensures exists j :: 0 <= j < n + 1 && Lists(js, j, true, c) && Level(js, j) == writers[c]
    {
      var j :| 0 <= j < n && Lists(js, j, true, c) && Level(js, j) == writers[c];
    }
  }

  /** Every requested job, and no other, has a place in one stage, and in one only. */
  ghost predicate EachOnce(ordered: seq<nat>, stages: seq<seq<nat>>) {
    && (forall m :: m in ordered <==> exists s :: 0 <= s < |stages| && m in stages[s])
    && (forall m, s, t :: 0 <= s < |stages| && 0 <= t < |stages| && m in stages[s] && m in stages[t] ==> s == t)
  }

  /** Each stage lists its jobs in canonical order. */
  ghost predicate EachInOrder(jobs: seq<Job>, stages: seq<seq<nat>>) {
    forall s :: 0 <= s < |stages| ==> Sorted(jobs, stages[s])
  }

  ghost predicate Sorted(jobs: seq<Job>, stage: seq<nat>) {
    && (forall p :: 0 <= p < |stage| ==> stage[p] < |jobs|)
    && (forall p, q :: 0 <= p < q < |stage| ==> Before(jobs[stage[p]], jobs[stage[q]]))
  }

  ghost predicate NoRepeats(stage: seq<nat>) {
    forall p, q :: 0 <= p < q < |stage| ==> stage[p] != stage[q]
  }

  /** Of two conflicting jobs the canonically earlier one is in an earlier stage. */
  ghost predicate ConflictsApart(jobs: seq<Job>, ordered: seq<nat>, stages: seq<seq<nat>>)
    requires forall k :: 0 <= k < |ordered| ==> ordered[k] < |jobs|
  {
    forall i, j, s, t | 0 <= i < j < |ordered| && 0 <= s < |stages| && 0 <= t < |stages| ::
      Conflict(jobs[ordered[i]], jobs[ordered[j]]) && ordered[i] in stages[s] && ordered[j] in stages[t] ==> s < t
  }

  lemma OrderedIsDistinct(jobs: seq<Job>, ordered: seq<nat>)
    requires Canonical(jobs, ordered)
    ensures NoRepeats(ordered)
  {
    forall i, j | 0 <= i < j < |ordered| ensures ordered[i] != ordered[j] {
      assert Before(jobs[ordered[i]], jobs[ordered[j]]);
    }
  }

  lemma StageOfMember(jobs: seq<Job>, ordered: seq<nat>, s: nat, m: nat, k: nat)
    requires Canonical(jobs, ordered) && k < |ordered| && ordered[k] == m
    ensures m in Members(InOrder(jobs, ordered), ordered, |ordered|, s) <==> Level(InOrder(jobs, ordered), k) == s
  {
    hide Level, Members;
    var js := InOrder(jobs, ordered);
    MembersAreExactly(js, ordered, |js|, s);
    OrderedIsDistinct(jobs, ordered);
  }

  /** The stages hold the jobs by level. */
  ghost predicate ByLevel(jobs: seq<Job>, ordered: seq<nat>, stages: seq<seq<nat>>)
    requires forall k :: 0 <= k < |ordered| ==> ordered[k] < |jobs|
  {
    var js := InOrder(jobs, ordered);
    && (forall k :: 0 <= k < |js| ==> Level(js, k) < |stages|)
    && (forall s :: 0 <= s < |stages| ==> stages[s] == Members(js, ordered, |js|, s))
  }

  /** The stage of a requested job, among stages by level, is that of its level. */
  lemma InItsStage(jobs: seq<Job>, ordered: seq<nat>, stages: seq<seq<nat>>, k: nat, s: nat)
    requires Canonical(jobs, ordered) && ByLevel(jobs, ordered, stages) && k < |ordered| && s < |stages|
    ensures Level(InOrder(jobs, ordered), k) < |stages|
    ensures ordered[k] in stages[s] <==> s == Level(InOrder(jobs, ordered), k)
  {
    hide Level, Members;
    StageOfMember(jobs, ordered, s, ordered[k], k);
  }

  lemma StagesHoldEachOnce(jobs: seq<Job>, ordered: seq<nat>, stages: seq<seq<nat>>)
    requires Canonical(jobs, ordered) && ByLevel(jobs, ordered, stages)
    ensures EachOnce(ordered, stages)
  {
    hide Level, Members, Before;
    var js := InOrder(jobs, ordered);
    forall m, s | 0 <= s < |stages| && m in stages[s] ensures m in ordered { MembersAreExactly(js, ordered, |js|, s); }
    forall m | m in ordered ensures exists s :: 0 <= s < |stages| && m in stages[s] {
      var k :| 0 <= k < |ordered| && ordered[k] == m;
      assert Level(js, k) < |stages|;
      InItsStage(jobs, ordered, stages, k, Level(js, k));
    }
    forall m, s, t | 0 <= s < |stages| && 0 <= t < |stages| && m in stages[s] && m in stages[t] ensures s == t {
      assert m in ordered;
      var k :| 0 <= k < |ordered| && ordered[k] == m;
      InItsStage(jobs, ordered, stages, k, s);
      InItsStage(jobs, ordered, stages, k, t);
    }
  }

  lemma StagesKeepConflictsApart(jobs: seq<Job>, ordered: seq<nat>, stages: seq<seq<nat>>)
    requires Canonical(jobs, ordered) && ByLevel(jobs, ordered, stages)
    ensures ConflictsApart(jobs, ordered, stages)
  {
    hide Level, Members, Before, Conflict, ByLevel;
    var js := InOrder(jobs, ordered);
    forall i, j, s, t | 0 <= i < j < |ordered| && 0 <= s < |stages| && 0 <= t < |stages|
        && Conflict(jobs[ordered[i]], jobs[ordered[j]]) && ordered[i] in stages[s] && ordered[j] in stages[t]
      ensures s < t
    {
      ConflictsAreOrdered(js, i, j);
      InItsStage(jobs, ordered, stages, i, s);
      InItsStage(jobs, ordered, stages, j, t);
    }
  }

  /** What the stages by level mean for the list of jobs itself. */
  lemma StagesAreSound(jobs: seq<Job>, ordered: seq<nat>, stages: seq<seq<nat>>)
    requires Canonical(jobs, ordered) && ByLevel(jobs, ordered, stages)
    ensures EachOnce(ordered, stages) && EachInOrder(jobs, stages) && ConflictsApart(jobs, ordered, stages)
  {
    hide Level, Members, Before, Conflict, EachOnce, ConflictsApart, Sorted;
    StagesHoldEachOnce(jobs, ordered, stages);
    StagesKeepConflictsApart(jobs, ordered, stages);
    forall s | 0 <= s < |stages| ensures Sorted(jobs, stages[s]) { MembersAreSorted(jobs, ordered, |ordered|, s); }
  }

  lemma {:induction false} MembersAreSorted(jobs: seq<Job>, ordered: seq<nat>, n: nat, s: nat)
    requires Canonical(jobs, ordered) && n <= |ordered|
    ensures Sorted(jobs, Members(InOrder(jobs, ordered), ordered, n, s))
  {
    hide Level, Before;
    if n > 0 {
      var js := InOrder(jobs, ordered);
      MembersAreSorted(jobs, ordered, n - 1, s);
      MembersAreExactly(js, ordered, n - 1, s);
      var shorter := Members(js, ordered, n - 1, s);
      forall p | 0 <= p < |shorter| ensures Before(jobs[shorter[p]], jobs[ordered[n - 1]]) {
        assert shorter[p] in shorter;
        var k :| 0 <= k < n - 1 && ordered[k] == shorter[p];
      }
      assert shorter + [] == shorter;
    }
  }

  /** The pass puts every job in the stage of its level, in canonical order, and leaves no stage empty. */
  method BuildSchedule(jobs: seq<Job>, ordered: seq<nat>) returns (stages: seq<seq<nat>>)
    requires Canonical(jobs, ordered)
    ensures EachOnce(ordered, stages) && EachInOrder(jobs, stages) && ConflictsApart(jobs, ordered, stages)
    ensures var js := InOrder(jobs, ordered);
            && (forall k :: 0 <= k < |js| ==> Level(js, k) < |stages|)
            && (forall s :: 0 <= s < |stages| ==> stages[s] == Members(js, ordered, |js|, s))
            && (forall s :: 0 <= s < |stages| ==> stages[s] != [])
  {
    ghost var js := InOrder(jobs, ordered);
    var lastReader: map<nat, nat>, lastWriter: map<nat, nat> := map[], map[];
    var latest: nat, barrier: nat, hasPrevious, hasBarrier := 0, 0, false, false;
    stages := [];
    for n := 0 to |ordered|
      invariant Remembers(js, n, lastReader, lastWriter, hasBarrier, barrier)
      invariant hasPrevious == (n > 0) && Placed(js, ordered, n, stages, latest)
    {
      var job := jobs[ordered[n]];
      var stage: nat;
      if job.structural {
        stage := if hasPrevious then latest + 1 else 0;
        StructuralLevel(js, n, latest);
      } else {
        stage := StageOfOrdinaryJob(js, n, job, lastReader, lastWriter, hasBarrier, barrier);
      }
      PlaceJob(js, ordered, n, stages, latest, stage);
      stages := Extended(stages, stage);
      stages := stages[stage := stages[stage] + [ordered[n]]];
      latest := if hasPrevious then Max(latest, stage) else stage;
      hasPrevious := true;
      if job.structural {
        RememberStructural(js, n, lastReader, lastWriter, hasBarrier, barrier);
        barrier, hasBarrier := stage, true;
      } else {
        lastReader, lastWriter := RecordOrdinaryJob(js, n, job, lastReader, lastWriter, hasBarrier, barrier, stage);
      }
    }
    NoStageIsEmpty(js, ordered, stages, latest);
    StagesAreSound(jobs, ordered, stages);
  }

  /** A read that is also a write is dropped from the stored read list. */
  function Difference(a: seq<nat>, b: seq<nat>): seq<nat> {
    if a == [] then []
    else if a[0] in b then Difference(a[1..], b)
    else [a[0]] + Difference(a[1..], b)
  }

  function Canonicalized(job: Job): Job {
    job.(reading := Difference(job.reading, job.writing))
  }

  lemma {:induction false} DifferenceKeeps(a: seq<nat>, b: seq<nat>)
    ensures forall c :: c in Difference(a, b) <==> c in a && c !in b
  {
    if a != [] { DifferenceKeeps(a[1..], b); }
  }

  /** Dropping those reads, and nothing else, loses no conflict and invents none. */
  lemma CanonicalizationKeepsConflicts(a: Job, b: Job)
    ensures forall c :: c in Canonicalized(a).reading <==> c in a.reading && c !in a.writing
    ensures Canonicalized(a) == a.(reading := Canonicalized(a).reading)
    ensures Conflict(Canonicalized(a), Canonicalized(b)) == Conflict(a, b)
  {
    DifferenceKeeps(a.reading, a.writing);
    DifferenceKeeps(b.reading, b.writing);
    if Overlap(a.writing, b.reading) {
      var c :| c in a.writing && c in b.reading;
      assert c in b.writing || c in Canonicalized(b).reading;
    }
    if Overlap(a.reading, b.writing) {
      var c :| c in a.reading && c in b.writing;
      assert c in a.writing || c in Canonicalized(a).reading;
    }
  }

  /** Smaller order first, then smaller sequence number. */
  lemma BeforeMeans(a: Job, b: Job)
    ensures Before(a, b) <==> a.order < b.order || (a.order == b.order && a.sequence < b.sequence)
    ensures a.sequence != b.sequence ==> (Before(a, b) <==> !Before(b, a))
  {
  }

  /** Sequence numbers tell jobs apart. */
  ghost predicate Numbered(jobs: seq<Job>) {
    forall i, j :: 0 <= i < j < |jobs| ==> jobs[i].sequence != jobs[j].sequence
  }

  /** Every list of requested jobs, repeats and all, has a canonical listing. */
  lemma {:induction false} CanonicalOrderExists(jobs: seq<Job>, requested: seq<nat>) returns (ordered: seq<nat>)
    requires Numbered(jobs) && forall k :: 0 <= k < |requested| ==> requested[k] < |jobs|
    ensures Canonical(jobs, ordered) && forall m :: m in ordered <==> m in requested
    decreases |requested|
  {
    if requested == [] {
      ordered := [];
    } else {
      var last := requested[|requested| - 1];
      assert requested == requested[..|requested| - 1] + [last];
      var rest := CanonicalOrderExists(jobs, requested[..|requested| - 1]);
      if last in rest {
        ordered := rest;
      } else {
        var p: nat := |rest|;
        while p > 0 && Before(jobs[last], jobs[rest[p - 1]])
          invariant p <= |rest| && forall k :: p <= k < |rest| ==> Before(jobs[last], jobs[rest[k]])
        {
          p := p - 1;
        }
        ordered := Inserted(rest, last, p);
        InsertKeepsOrder(jobs, rest, last, p);
        InsertedHas(rest, last, p);
      }
    }
  }

  function Inserted(rest: seq<nat>, m: nat, p: nat): (all: seq<nat>)
    requires p <= |rest|
    ensures |all| == |rest| + 1
    ensures forall k :: 0 <= k < |all| ==> all[k] == if k < p then rest[k] else if k == p then m else rest[k - 1]
  {
    rest[..p] + [m] + rest[p..]
  }

  lemma InsertedHas(rest: seq<nat>, m: nat, p: nat)
    requires p <= |rest|
    ensures forall x :: x in Inserted(rest, m, p) <==> x == m || x in rest
  {
    assert rest == rest[..p] + rest[p..];
  }

  lemma InsertKeepsOrder(jobs: seq<Job>, rest: seq<nat>, m: nat, p: nat)
    requires Numbered(jobs) && Canonical(jobs, rest) && m < |jobs| && m !in rest && p <= |rest|
    requires forall k :: p <= k < |rest| ==> Before(jobs[m], jobs[rest[k]])
    requires p > 0 ==> !Before(jobs[m], jobs[rest[p - 1]])
    ensures Canonical(jobs, Inserted(rest, m, p))
  {
    hide Before;
    forall k | 0 <= k < p ensures Before(jobs[rest[k]], jobs[m]) {
      assert rest[p - 1] in rest;
      BeforeMeans(jobs[rest[p - 1]], jobs[m]);
      if k < p - 1 { BeforeChains(jobs[rest[k]], jobs[rest[p - 1]], jobs[m]); }
    }
    var all := Inserted(rest, m, p);
    forall k | 0 <= k < |all| ensures all[k] < |jobs| { }
    forall i, j | 0 <= i < j < |all| ensures Before(jobs[all[i]], jobs[all[j]]) {
      if i != p && j != p {
        var a, b := if i < p then i else i - 1, if j < p then j else j - 1;
        assert all[i] == rest[a] && all[j] == rest[b] && a < b;
      } else if i == p {
        assert all[j] == rest[j - 1];
      } else {
        assert all[i] == rest[i];
      }
    }
  }

  lemma BeforeChains(a: Job, b: Job, c: Job)
    requires Before(a, b) && Before(b, c)
    ensures Before(a, c)
  {
  }

  lemma TailOf(jobs: seq<Job>, a: seq<nat>, m: nat)
    requires Canonical(jobs, a) && a != []
    ensures m in a[1..] <==> m in a && m != a[0]
  {
    assert a == [a[0]] + a[1..];
  }

  /** Only the set of requested jobs matters, not how the caller listed them. */
  lemma {:induction false} CanonicalOrderIsUnique(jobs: seq<Job>, a: seq<nat>, b: seq<nat>)
    requires Canonical(jobs, a) && Canonical(jobs, b)
    requires forall m :: m in a <==> m in b
    ensures a == b
  {
    if a != [] { assert a[0] in b; }
    if b != [] { assert b[0] in a; }
    if a != [] {
      assert a[0] == b[0];
      forall m ensures m in a[1..] <==> m in b[1..] {
        TailOf(jobs, a, m);
        TailOf(jobs, b, m);
      }
      CanonicalOrderIsUnique(jobs, a[1..], b[1..]);
      assert a == [a[0]] + a[1..] && b == [b[0]] + b[1..];
    }
  }
}
