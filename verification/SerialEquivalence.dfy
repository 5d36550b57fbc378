/** Running the built stages, in any interleaving inside each stage, leaves the same store
    as running the jobs one after the other in canonical order. */
module SerialEquivalence {
  import opened Scheduler
  import opened Counting

  /** A component of an entity; an absent key is a missing row. */
  type Cell = (nat, nat)
  type Store<!V> = map<Cell, V>

  /** One indivisible action of a tick. `job` is a canonical position. For a split job there is
      one step per entity index; on an entity the job's filter rejects it leaves the store alone. */
  datatype Step<!V> = Step(job: nat, entity: nat, act: Store<V> -> Store<V>)

  predicate Writes(js: seq<Job>, job: nat, entity: nat, c: Cell)
    requires job < |js|
  {
    js[job].structural || (c.0 in js[job].writing && (Split(js[job]) ==> c.1 == entity))
  }

  predicate Touches(js: seq<Job>, job: nat, entity: nat, c: Cell)
    requires job < |js|
  {
    || js[job].structural
    || ((c.0 in js[job].reading || c.0 in js[job].writing) && (Split(js[job]) ==> c.1 == entity))
  }

  predicate SameAt<V(==)>(s: Store<V>, t: Store<V>, c: Cell) {
    (c in s <==> c in t) && (c in s ==> s[c] == t[c])
  }

  /** A step changes only declared writes, and what it writes depends only on what it declares. */
  ghost predicate StaysDeclared<V(!new)>(js: seq<Job>, st: Step<V>) {
    && st.job < |js|
    && (forall s, c :: !Writes(js, st.job, st.entity, c) ==> SameAt(s, st.act(s), c))
    && (forall s, t :: (forall c :: Touches(js, st.job, st.entity, c) ==> SameAt(s, t, c)) ==>
          forall c :: Writes(js, st.job, st.entity, c) ==> SameAt(st.act(s), st.act(t), c))
  }

  /** The tick's work in serial order: jobs in canonical order, a split job meeting no entity twice. */
  ghost predicate Program<V(!new)>(js: seq<Job>, steps: seq<Step<V>>) {
    && (forall i :: 0 <= i < |steps| ==> StaysDeclared(js, steps[i]))
    && (forall i, j :: 0 <= i < j < |steps| ==> steps[i].job <= steps[j].job)
    && (forall i, j :: 0 <= i < j < |steps| && steps[i].job == steps[j].job && Split(js[steps[i].job])
          ==> steps[i].entity != steps[j].entity)
  }

  /** Steps whose order the tick must keep. */
  predicate Dependent<V>(js: seq<Job>, a: Step<V>, b: Step<V>)
    requires a.job < |js| && b.job < |js|
  {
    if a.job == b.job then !Split(js[a.job]) else Conflict(js[a.job], js[b.job])
  }

  /** Independent steps commute on every store. */
  lemma IndependentStepsCommuteAt<V(!new)>(js: seq<Job>, a: Step<V>, b: Step<V>, s: Store<V>)
    requires StaysDeclared(js, a) && StaysDeclared(js, b) && !Dependent(js, a, b)
    requires a.job == b.job ==> a.entity != b.entity
    ensures a.act(b.act(s)) == b.act(a.act(s))
  {
    forall c | Writes(js, a.job, a.entity, c) ensures !Touches(js, b.job, b.entity, c) { Apart(js, a, b, c); }
    forall c | Writes(js, b.job, b.entity, c) ensures !Touches(js, a.job, a.entity, c) { Apart(js, b, a, c); }
    var sa, sb := a.act(s), b.act(s);
    forall c ensures SameAt(a.act(sb), b.act(sa), c) {
      Pointwise(js, a, b, s, c);
      Pointwise(js, b, a, s, c);
    }
    assert a.act(sb).Keys == b.act(sa).Keys by {
      forall c ensures c in a.act(sb) <==> c in b.act(sa) { assert SameAt(a.act(sb), b.act(sa), c); }
    }
    forall c | c in a.act(sb) ensures a.act(sb)[c] == b.act(sa)[c] { assert SameAt(a.act(sb), b.act(sa), c); }
  }

  ghost predicate Commute<V(!new)>(a: Step<V>, b: Step<V>) {
    forall s :: a.act(b.act(s)) == b.act(a.act(s))
  }

  lemma IndependentStepsCommute<V(!new)>(js: seq<Job>, a: Step<V>, b: Step<V>)
    requires StaysDeclared(js, a) && StaysDeclared(js, b) && !Dependent(js, a, b)
    requires a.job == b.job ==> a.entity != b.entity
    ensures Commute(a, b)
  {
    forall s ensures a.act(b.act(s)) == b.act(a.act(s)) { IndependentStepsCommuteAt(js, a, b, s); }
  }

  lemma Apart<V>(js: seq<Job>, a: Step<V>, b: Step<V>, c: Cell)
    requires a.job < |js| && b.job < |js| && !Dependent(js, a, b)
    requires a.job == b.job ==> a.entity != b.entity
    requires Writes(js, a.job, a.entity, c)
    ensures !Touches(js, b.job, b.entity, c)
  {
    if a.job != b.job {
      assert c.0 in js[a.job].writing;
    }
  }

  lemma Pointwise<V(!new)>(js: seq<Job>, a: Step<V>, b: Step<V>, s: Store<V>, c: Cell)
    requires StaysDeclared(js, a) && StaysDeclared(js, b)
    requires forall d :: Writes(js, b.job, b.entity, d) ==> !Touches(js, a.job, a.entity, d)
    requires forall d :: Writes(js, a.job, a.entity, d) ==> !Touches(js, b.job, b.entity, d)
    ensures Writes(js, a.job, a.entity, c) ==> SameAt(a.act(b.act(s)), b.act(a.act(s)), c)
    ensures !Writes(js, a.job, a.entity, c) && !Writes(js, b.job, b.entity, c) ==>
        SameAt(a.act(b.act(s)), b.act(a.act(s)), c)
  {
    var sa, sb := a.act(s), b.act(s);
    assert forall d :: Touches(js, a.job, a.entity, d) ==> SameAt(s, sb, d);
    if Writes(js, a.job, a.entity, c) {
      assert !Writes(js, b.job, b.entity, c);
      assert SameAt(sa, a.act(sb), c);
      assert SameAt(sa, b.act(sa), c);
    } else if !Writes(js, b.job, b.entity, c) {
      assert SameAt(s, sa, c) && SameAt(s, sb, c) && SameAt(sb, a.act(sb), c) && SameAt(sa, b.act(sa), c);
    }
  }

  function Run<V>(trace: seq<Step<V>>, s: Store<V>): Store<V> {
    if trace == [] then s
    else trace[|trace| - 1].act(Run(trace[..|trace| - 1], s))
  }

  lemma RunLast<V>(trace: seq<Step<V>>, y: Step<V>, s: Store<V>)
    ensures Run(trace + [y], s) == y.act(Run(trace, s))
  {
    assert (trace + [y])[..|trace|] == trace;
  }

  lemma {:induction false} RunAppend<V>(a: seq<Step<V>>, b: seq<Step<V>>, s: Store<V>)
    ensures Run(a + b, s) == Run(b, Run(a, s))
  {
    if b == [] {
      assert a + b == a;
    } else {
      RunAppend(a, b[..|b| - 1], s);
      assert (a + b)[..|a + b| - 1] == a + b[..|b| - 1];
    }
  }

  /** Moving a step past followers it commutes with. */
  lemma {:induction false} SinkToEnd<V(!new)>(x: Step<V>, rest: seq<Step<V>>, s: Store<V>)
    requires forall y :: y in rest ==> Commute(y, x)
    ensures Run([x] + rest, s) == Run(rest + [x], s)
  {
    if rest == [] {
      assert [x] + rest == rest + [x];
    } else {
      var front, y := rest[..|rest| - 1], rest[|rest| - 1];
      SinkToEnd(x, front, s);
      assert [x] + front + [y] == [x] + rest && front + [y] == rest;
      RunLast([x] + front, y, s);
      RunLast(front, x, s);
      RunLast(front, y, s);
      RunLast(rest, x, s);
      assert Commute(y, x);
    }
  }

  /** The steps named by `order`, first to last. */
  function Pick<V>(steps: seq<Step<V>>, order: seq<nat>): seq<Step<V>>
    requires forall k :: 0 <= k < |order| ==> order[k] < |steps|
  {
    seq(|order|, k requires 0 <= k < |order| => steps[order[k]])
  }

  ghost predicate IsPermutation(order: seq<nat>, n: nat) {
    |order| == n && (forall k :: 0 <= k < n ==> order[k] < n) && AllDistinct(order)
  }

  /** Any two steps that `order` swaps, against the program, commute. */
  ghost predicate InversionsCommute<V(!new)>(steps: seq<Step<V>>, order: seq<nat>)
    requires forall k :: 0 <= k < |order| ==> order[k] < |steps|
  {
    forall p, q :: 0 <= p < q < |order| && order[q] < order[p] ==> Commute(steps[order[q]], steps[order[p]])
  }

  function Without(order: seq<nat>, p: nat): (rest: seq<nat>)
    requires p < |order|
    ensures |rest| == |order| - 1
  {
    order[..p] + order[p + 1..]
  }

  /** Any order of the first n steps whose inversions commute has the serial effect. */
  lemma {:induction false} ReorderedRunMatches<V(!new)>(steps: seq<Step<V>>, order: seq<nat>, s: Store<V>)
    requires |order| <= |steps| && IsPermutation(order, |order|) && InversionsCommute(steps, order)
    ensures Run(Pick(steps, order), s) == Run(steps[..|order|], s)
    decreases |order|
  {
    if order != [] {
      hide Commute, Run, Pick, InversionsCommute, IsPermutation, Without;
      var p := LargestPosition(order);
      DroppingKeeps(steps, order, p);
      ReorderedRunMatches(steps, Without(order, p), s);
      SinkLargest(steps, order, p, s);
      RunNext(steps, |order|, s);
    } else {
      assert Pick(steps, order) == steps[..0];
    }
  }

  lemma RunNext<V>(steps: seq<Step<V>>, n: nat, s: Store<V>)
    requires 0 < n <= |steps|
    ensures Run(steps[..n], s) == steps[n - 1].act(Run(steps[..n - 1], s))
  {
    RunLast(steps[..n - 1], steps[n - 1], s);
    assert steps[..n - 1] + [steps[n - 1]] == steps[..n];
  }

  lemma LargestPosition(order: seq<nat>) returns (p: nat)
    requires IsPermutation(order, |order|) && order != []
    ensures p < |order| && order[p] == |order| - 1
  {
    DistinctBelow(order, |order|);
    assert |order| - 1 in order;
    p :| 0 <= p < |order| && order[p] == |order| - 1;
  }

  lemma {:induction false} SinkLargest<V(!new)>(steps: seq<Step<V>>, order: seq<nat>, p: nat, s: Store<V>)
    requires |order| <= |steps| && IsPermutation(order, |order|) && p < |order| && order[p] == |order| - 1
    requires InversionsCommute(steps, order)
    ensures Run(Pick(steps, order), s) == steps[|order| - 1].act(Run(Pick(steps, Without(order, p)), s))
  {
    hide Commute, Run, Pick, InversionsCommute, AllDistinct;
    var x, front, back := steps[|order| - 1], Pick(steps, order[..p]), Pick(steps, order[p + 1..]);
    FollowersCommute(steps, order, p);
    PickAround(steps, order, p);
    RunAppend(front, [x] + back, s);
    SinkToEnd(x, back, Run(front, s));
    RunAppend(front, back + [x], s);
    assert front + (back + [x]) == front + back + [x];
    RunLast(front + back, x, s);
  }

  lemma PickAround<V>(steps: seq<Step<V>>, order: seq<nat>, p: nat)
    requires p < |order| && forall k :: 0 <= k < |order| ==> order[k] < |steps|
    ensures Pick(steps, order) == Pick(steps, order[..p]) + ([steps[order[p]]] + Pick(steps, order[p + 1..]))
    ensures Pick(steps, order[..p] + order[p + 1..]) == Pick(steps, order[..p]) + Pick(steps, order[p + 1..])
  {
  }

  lemma FollowersCommute<V(!new)>(steps: seq<Step<V>>, order: seq<nat>, p: nat)
    requires |order| <= |steps| && IsPermutation(order, |order|) && p < |order| && order[p] == |order| - 1
    requires InversionsCommute(steps, order)
    ensures var back, x := Pick(steps, order[p + 1..]), steps[|order| - 1]; forall y :: y in back ==> Commute(y, x)
  {
    var back := Pick(steps, order[p + 1..]);
    forall y | y in back ensures Commute(y, steps[|order| - 1]) {
      var k :| 0 <= k < |back| && back[k] == y;
      assert order[p + 1..][k] == order[p + 1 + k];
    }
  }

  lemma DroppingKeeps<V(!new)>(steps: seq<Step<V>>, order: seq<nat>, p: nat)
    requires |order| <= |steps| && IsPermutation(order, |order|) && p < |order| && order[p] == |order| - 1
    requires InversionsCommute(steps, order)
    ensures var rest := Without(order, p);
            && (forall k :: 0 <= k < |rest| ==> rest[k] < |steps|)
            && IsPermutation(rest, |order| - 1) && InversionsCommute(steps, rest)
  {
    var rest := Without(order, p);
    assert forall k :: 0 <= k < |rest| ==> rest[k] == order[if k < p then k else k + 1];
  }

  /** What a tick may do: stages strictly one after the other; inside a stage the steps of
      different jobs, and of the chunks of a split job, interleave freely, while a job that is
      not split runs in its own order. */
  ghost predicate TickOrder<V>(js: seq<Job>, steps: seq<Step<V>>, order: seq<nat>)
    requires forall i :: 0 <= i < |steps| ==> steps[i].job < |js|
  {
    && IsPermutation(order, |steps|)
    && (forall p, q :: 0 <= p < q < |order| ==> Level(js, steps[order[p]].job) <= Level(js, steps[order[q]].job))
    && (forall p, q ::
          (0 <= p < q < |order| && steps[order[p]].job == steps[order[q]].job && !Split(js[steps[order[p]].job])) ==>
            order[p] < order[q])
  }

  /** Every interleaving a tick allows leaves the store of the serial run. */
  lemma TickMatchesSerialRun<V(!new)>(js: seq<Job>, steps: seq<Step<V>>, order: seq<nat>, s: Store<V>)
    requires Program(js, steps) && TickOrder(js, steps, order)
    ensures Run(Pick(steps, order), s) == Run(steps, s)
  {
    forall p, q | 0 <= p < q < |order| && order[q] < order[p]
      ensures Commute(steps[order[q]], steps[order[p]])
    {
      var a, b := steps[order[q]], steps[order[p]];
      if a.job != b.job && Conflict(js[a.job], js[b.job]) {
        ConflictsAreOrdered(js, a.job, b.job);
      }
      IndependentStepsCommute(js, a, b);
    }
    ReorderedRunMatches(steps, order, s);
    assert steps[..|steps|] == steps;
  }

  function Concat(plan: seq<seq<nat>>): seq<nat> {
    if plan == [] then [] else Concat(plan[..|plan| - 1]) + plan[|plan| - 1]
  }

  /** plan[s] holds exactly the canonical positions of stage s, in any order. */
  ghost predicate PlanOf(js: seq<Job>, plan: seq<seq<nat>>) {
    && (forall k :: 0 <= k < |js| ==> Level(js, k) < |plan|)
    && (forall s :: 0 <= s < |plan| ==> AllDistinct(plan[s]))
    && (forall s, k :: 0 <= s < |plan| ==> (k in plan[s] <==> 0 <= k < |js| && Level(js, k) == s))
  }

  lemma {:induction false} ConcatOrdersStages(js: seq<Job>, plan: seq<seq<nat>>, n: nat)
    requires PlanOf(js, plan) && n <= |plan|
    ensures var order := Concat(plan[..n]);
            && AllDistinct(order)
            && (forall k :: k in order <==> 0 <= k < |js| && Level(js, k) < n)
            && (forall p :: 0 <= p < |order| ==> order[p] < |js|)
            && (forall p, q :: 0 <= p < q < |order| ==> Level(js, order[p]) <= Level(js, order[q]))
  {
    if n > 0 {
      ConcatOrdersStages(js, plan, n - 1);
      assert plan[..n][..n - 1] == plan[..n - 1];
      var front, last := Concat(plan[..n - 1]), plan[n - 1];
      assert Concat(plan[..n]) == front + last;
      assert forall k :: k in front + last <==> k in front || k in last;
      assert forall p :: 0 <= p < |front| ==> front[p] in front;
      assert forall p :: 0 <= p < |last| ==> last[p] in last;
    }
  }

  /** Whole jobs, run stage after stage in any order inside a stage: the forced-serial tick
      and the inline executor are two such plans. */
  lemma StagedJobsMatchSerialRun<V(!new)>(js: seq<Job>, steps: seq<Step<V>>, plan: seq<seq<nat>>, s: Store<V>)
    requires Program(js, steps) && |steps| == |js| && forall k :: 0 <= k < |js| ==> steps[k].job == k
    requires PlanOf(js, plan)
    ensures forall p :: 0 <= p < |Concat(plan)| ==> Concat(plan)[p] < |steps|
    ensures Run(Pick(steps, Concat(plan)), s) == Run(steps, s)
  {
    assert plan[..|plan|] == plan;
    ConcatOrdersStages(js, plan, |plan|);
    var order := Concat(plan);
    DistinctExactly(order, |js|);
    TickMatchesSerialRun(js, steps, order, s);
  }

  /** The stages the scheduler builds are such a plan once job ids are read as positions. */
  lemma {:induction false} BuiltStagesAreAPlan(jobs: seq<Job>, ordered: seq<nat>, stages: seq<seq<nat>>,
      plan: seq<seq<nat>>)
    requires Canonical(jobs, ordered) && |plan| == |stages|
    requires var js := InOrder(jobs, ordered);
             && (forall k :: 0 <= k < |js| ==> Level(js, k) < |stages|)
             && (forall s :: 0 <= s < |stages| ==> stages[s] == Members(js, ordered, |js|, s))
    requires forall s :: 0 <= s < |plan| ==> AllDistinct(plan[s])
    requires forall s, k :: 0 <= s < |plan| && k in plan[s] ==> 0 <= k < |ordered|
    requires forall s, k :: 0 <= s < |plan| && 0 <= k < |ordered| ==> (k in plan[s] <==> ordered[k] in stages[s])
    ensures PlanOf(InOrder(jobs, ordered), plan)
  {
    hide Members;
    var js := InOrder(jobs, ordered);
    forall s: nat, k: nat | s < |plan| && k < |js| ensures k in plan[s] <==> Level(js, k) == s {
      assert stages[s] == Members(js, ordered, |js|, s);
      InItsStage(jobs, ordered, s, k);
    }
    forall k | 0 <= k < |js| ensures Level(js, k) < |plan| { }
  }

  /** The canonical positions of stage s among the first n. */
  function Positions(js: seq<Job>, n: nat, s: nat): seq<nat>
    requires n <= |js|
  {
    if n == 0 then [] else Positions(js, n - 1, s) + (if Level(js, n - 1) == s then [n - 1] else [])
  }

  lemma {:induction false} PositionsAreMembers(js: seq<Job>, ordered: seq<nat>, n: nat, s: nat)
    requires n <= |js| == |ordered|
    ensures var p, m := Positions(js, n, s), Members(js, ordered, n, s);
            && |p| == |m| && (forall k :: 0 <= k < |p| ==> p[k] < n && ordered[p[k]] == m[k]) && AllDistinct(p)
            && (forall k: nat :: k in p <==> k < n && Level(js, k) == s)
  {
    hide Level;
    if n > 0 { PositionsAreMembers(js, ordered, n - 1, s); }
  }

  /** Every schedule the stager builds has such a plan, which names the jobs of each stage in the
      order the stage lists them. */
  lemma BuiltStagesHaveAPlan(jobs: seq<Job>, ordered: seq<nat>, stages: seq<seq<nat>>) returns (plan: seq<seq<nat>>)
    requires Canonical(jobs, ordered)
    requires var js := InOrder(jobs, ordered);
             && (forall k :: 0 <= k < |js| ==> Level(js, k) < |stages|)
             && (forall s :: 0 <= s < |stages| ==> stages[s] == Members(js, ordered, |js|, s))
    ensures |plan| == |stages| && PlanOf(InOrder(jobs, ordered), plan)
    ensures forall s :: 0 <= s < |plan| ==> |plan[s]| == |stages[s]|
    ensures forall s, k :: 0 <= s < |plan| && 0 <= k < |plan[s]| ==>
        plan[s][k] < |ordered| && ordered[plan[s][k]] == stages[s][k]
  {
    hide Level, Members, Positions;
    var js := InOrder(jobs, ordered);
    plan := seq(|stages|, s requires 0 <= s < |stages| => Positions(js, |js|, s));
    forall s | 0 <= s < |stages|
      ensures plan[s] == Positions(js, |js|, s) && stages[s] == Members(js, ordered, |js|, s) { }
    forall s: nat { PositionsAreMembers(js, ordered, |js|, s); }
  }

  lemma {:induction false} InItsStage(jobs: seq<Job>, ordered: seq<nat>, s: nat, k: nat)
    requires Canonical(jobs, ordered) && k < |ordered|
    ensures var js := InOrder(jobs, ordered);
            ordered[k] in Members(js, ordered, |js|, s) <==> Level(js, k) == s
  {
    hide Level, Members, Before;
    var js := InOrder(jobs, ordered);
    MembersAreExactly(js, ordered, |js|, s);
    if ordered[k] in Members(js, ordered, |js|, s) {
      var m :| 0 <= m < |js| && ordered[m] == ordered[k] && Level(js, m) == s;
      OrderedOnce(jobs, ordered, m, k);
    }
  }

  /** A job is before no copy of itself, so canonical order lists every id once. */
  lemma OrderedOnce(jobs: seq<Job>, ordered: seq<nat>, m: nat, k: nat)
    requires Canonical(jobs, ordered) && m < |ordered| && k < |ordered| && ordered[m] == ordered[k]
    ensures m == k
  {
  }
}
