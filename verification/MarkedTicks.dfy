/** Whole ticks with dirty marks. A job the tick cuts into chunks marks nothing while it runs: its
    range marks and logged writes are applied when its stage is over. Values and marks still end as
    in the serial run, where every mark is made at once. */
module MarkedTicks {
  import opened Scheduler
  import opened SerialEquivalence

  /** A row as a tick sees it. */
  datatype Slot<V> = Slot(value: V, dirty: bool)

  /** A store with its marks. */
  type Table<!V> = Store<Slot<V>>

  function Values<V>(m: Table<V>): Store<V> { map c | c in m :: m[c].value }

  /** One visit: what it does to the values, and the cells it marks. Neither looks at marks. */
  datatype Visit<!V> = Visit(job: nat, entity: nat, act: Store<V> -> Store<V>, marks: Store<V> -> set<Cell>)

  function Plain<V>(v: Visit<V>): Step<V> { Step(v.job, v.entity, v.act) }

  /** The new values, under the old marks and some more. */
  function Marked<V>(m: Table<V>, next: Store<V>, more: set<Cell>): Table<V> {
    map c | c in next :: Slot(next[c], (c in m && m[c].dirty) || c in more)
  }

  /** The visit of a job that marks at once. */
  function Marking<V>(v: Visit<V>): Step<Slot<V>> {
    Step(v.job, v.entity, (m: Table<V>) => Marked(m, v.act(Values(m)), v.marks(Values(m))))
  }

  /** A visit marks only declared writes, and which ones depends only on what it declares. */
  ghost predicate MarksDeclared<V(!new)>(js: seq<Job>, v: Visit<V>) {
    && v.job < |js|
    && (forall s, c :: c in v.marks(s) ==> Writes(js, v.job, v.entity, c))
    && (forall s, t :: (forall c :: Touches(js, v.job, v.entity, c) ==> SameAt(s, t, c)) ==> v.marks(s) == v.marks(t))
  }

  /** Only structural jobs add and remove rows. */
  ghost predicate KeepsRows<V(!new)>(v: Visit<V>) { forall s :: v.act(s).Keys == s.Keys }

  ghost predicate Proper<V(!new)>(js: seq<Job>, v: Visit<V>) {
    && StaysDeclared(js, Plain(v)) && MarksDeclared(js, v)
    && (!js[v.job].structural ==> KeepsRows(v))
  }

  /** Values with marks make no job reach further than it declared. */
  lemma MarkingStaysDeclared<V(!new)>(js: seq<Job>, v: Visit<V>)
    requires StaysDeclared(js, Plain(v)) && MarksDeclared(js, v)
    ensures StaysDeclared(js, Marking(v))
  {
    var st := Marking(v);
    forall m: Table<V>, c | !Writes(js, v.job, v.entity, c) ensures SameAt(m, st.act(m), c) {
      assert SameAt(Values(m), Plain(v).act(Values(m)), c);
    }
    forall m: Table<V>, n: Table<V> | forall c :: Touches(js, v.job, v.entity, c) ==> SameAt(m, n, c)
      ensures forall c :: Writes(js, v.job, v.entity, c) ==> SameAt(st.act(m), st.act(n), c)
    {
      forall c | Touches(js, v.job, v.entity, c) ensures SameAt(Values(m), Values(n), c) { assert SameAt(m, n, c); }
      forall c | Writes(js, v.job, v.entity, c) ensures SameAt(st.act(m), st.act(n), c) {
        assert SameAt(Plain(v).act(Values(m)), Plain(v).act(Values(n)), c);
        assert SameAt(m, n, c);
      }
    }
  }

  predicate JobsKnown<V>(js: seq<Job>, visits: seq<Visit<V>>) { forall k :: 0 <= k < |visits| ==> visits[k].job < |js| }

  ghost predicate AllProper<V(!new)>(js: seq<Job>, visits: seq<Visit<V>>) {
    JobsKnown(js, visits) && forall k :: 0 <= k < |visits| ==> Proper(js, visits[k])
  }

  /** Where a stage stands: the rows, and what is still to be marked. */
  datatype Progress<!V> = Progress(table: Table<V>, log: set<Cell>)

  /** A job that is not split marks as it goes; a split one only notes what is to be marked. */
  function Perform<V>(js: seq<Job>, p: Progress<V>, v: Visit<V>): Progress<V>
    requires v.job < |js|
  {
    var s := Values(p.table);
    if Split(js[v.job]) then Progress(Marked(p.table, v.act(s), {}), p.log + v.marks(s))
    else Progress(Marked(p.table, v.act(s), v.marks(s)), p.log)
  }

  /** While its stage lasts a split visit makes no mark of its own, whatever it will mark is noted; any
      other visit marks as it goes and notes nothing. */
  lemma SplitVisitDefers<V>(js: seq<Job>, p: Progress<V>, v: Visit<V>, c: Cell)
    requires v.job < |js| && c in Perform(js, p, v).table
    ensures var next, marks := Perform(js, p, v), v.marks(Values(p.table));
            var split := js[v.job].split && !js[v.job].structural;
            && (next.table[c].dirty <==> (c in p.table && p.table[c].dirty) || (!split && c in marks))
            && (c in next.log <==> c in p.log || (split && c in marks))
            && c in v.act(Values(p.table)) && next.table[c].value == v.act(Values(p.table))[c]
  {
  }

  function PerformAll<V>(js: seq<Job>, p: Progress<V>, visits: seq<Visit<V>>): Progress<V>
    requires JobsKnown(js, visits)
  {
    if visits == [] then p
    else Perform(js, PerformAll(js, p, visits[..|visits| - 1]), visits[|visits| - 1])
  }

  /** The merge after the stage marks the rows that are there. */
  function Merge<V>(p: Progress<V>): Table<V> { Marked(p.table, Values(p.table), p.log) }

  /** One stage: its visits in some interleaving, then the merge. */
  function RunStage<V>(js: seq<Job>, m: Table<V>, visits: seq<Visit<V>>): Table<V>
    requires JobsKnown(js, visits)
  {
    Merge(PerformAll(js, Progress(m, {}), visits))
  }

  function AllMarking<V>(visits: seq<Visit<V>>): (steps: seq<Step<Slot<V>>>)
    ensures |steps| == |visits|
  {
    seq(|visits|, k requires 0 <= k < |visits| => Marking(visits[k]))
  }

  /** One visit, at once or deferred, comes to the same once merged. */
  lemma PerformMerges<V(!new)>(js: seq<Job>, p: Progress<V>, v: Visit<V>)
    requires v.job < |js| && (KeepsRows(v) || (p.log == {} && !Split(js[v.job])))
    ensures Merge(Perform(js, p, v)) == Marking(v).act(Merge(p))
  {
    assert Values(Merge(p)) == Values(p.table);
    var s := Values(p.table);
    assert KeepsRows(v) ==> v.act(s).Keys == s.Keys;
    var next := Perform(js, p, v);
    assert Values(next.table) == v.act(s);
    var a, b := Merge(next), Marking(v).act(Merge(p));
    assert a.Keys == b.Keys;
    forall c | c in a ensures a[c] == b[c] { }
  }

  /** A stage holds visits of one structural job, or of none. */
  ghost predicate StageOk<V(!new)>(js: seq<Job>, visits: seq<Visit<V>>) {
    && JobsKnown(js, visits)
    && ((forall k :: 0 <= k < |visits| ==> KeepsRows(visits[k]))
        || (forall k :: 0 <= k < |visits| ==> !Split(js[visits[k].job])))
  }

  /** Deferring the marks of a stage to its end changes nothing, whatever the interleaving. */
  lemma {:induction false} DeferralIsInvisible<V(!new)>(js: seq<Job>, m: Table<V>, visits: seq<Visit<V>>)
    requires StageOk(js, visits)
    ensures RunStage(js, m, visits) == Run(AllMarking(visits), m)
    ensures (forall k :: 0 <= k < |visits| ==> !Split(js[visits[k].job])) ==>
        PerformAll(js, Progress(m, {}), visits).log == {}
  {
    if visits == [] {
      assert RunStage(js, m, visits) == m;
    } else {
      hide KeepsRows, Split, Marked, Merge, Marking, Values, Run;
      var front, last := visits[..|visits| - 1], visits[|visits| - 1];
      DeferralIsInvisible(js, m, front);
      PerformMerges(js, PerformAll(js, Progress(m, {}), front), last);
      assert AllMarking(visits) == AllMarking(front) + [Marking(last)];
      RunLast(AllMarking(front), Marking(last), m);
    }
  }

  /** The visits named by `order`. */
  function Chosen<V>(visits: seq<Visit<V>>, order: seq<nat>): (r: seq<Visit<V>>)
    requires forall k :: 0 <= k < |order| ==> order[k] < |visits|
    ensures |r| == |order|
  {
    seq(|order|, k requires 0 <= k < |order| => visits[order[k]])
  }

  /** The tick: stage after stage, each in its own interleaving. */
  function RunTick<V>(js: seq<Job>, m: Table<V>, visits: seq<Visit<V>>, parts: seq<seq<nat>>): Table<V>
    requires JobsKnown(js, visits)
    requires forall s, k :: 0 <= s < |parts| && 0 <= k < |parts[s]| ==> parts[s][k] < |visits|
  {
    if parts == [] then m
    else RunStage(js, RunTick(js, m, visits, parts[..|parts| - 1]), Chosen(visits, parts[|parts| - 1]))
  }

  /** Part s holds visits of stage s only. */
  ghost predicate Staged<V>(js: seq<Job>, visits: seq<Visit<V>>, parts: seq<seq<nat>>)
    requires JobsKnown(js, visits)
  {
    forall s, k :: 0 <= s < |parts| && 0 <= k < |parts[s]| ==>
      parts[s][k] < |visits| && Level(js, visits[parts[s][k]].job) == s
  }

  /** Sharing a stage with a structural job means being that job. */
  lemma StageIsOk<V(!new)>(js: seq<Job>, visits: seq<Visit<V>>, part: seq<nat>, s: nat)
    requires AllProper(js, visits)
    requires forall k :: 0 <= k < |part| ==> part[k] < |visits| && Level(js, visits[part[k]].job) == s
    ensures StageOk(js, Chosen(visits, part))
  {
    hide Level, StaysDeclared, MarksDeclared, KeepsRows;
    var chosen := Chosen(visits, part);
    assert forall k :: 0 <= k < |part| ==> chosen[k] == visits[part[k]];
    if exists k :: 0 <= k < |part| && js[chosen[k].job].structural {
      var k :| 0 <= k < |part| && js[chosen[k].job].structural;
      forall n | 0 <= n < |part| ensures !Split(js[chosen[n].job]) {
        if chosen[n].job != chosen[k].job { StructuralJobsAreAlone(js, chosen[k].job, chosen[n].job); }
      }
    } else {
      forall n | 0 <= n < |part| ensures KeepsRows(chosen[n]) { assert Proper(js, visits[part[n]]); }
    }
  }

  lemma {:induction false} TickIsARun<V(!new)>(js: seq<Job>, m: Table<V>, visits: seq<Visit<V>>, parts: seq<seq<nat>>)
    requires AllProper(js, visits) && Staged(js, visits, parts)
    ensures forall k :: 0 <= k < |Concat(parts)| ==> Concat(parts)[k] < |visits|
    ensures RunTick(js, m, visits, parts) == Run(Pick(AllMarking(visits), Concat(parts)), m)
  {
    if parts != [] {
      hide Level, AllProper, Run, RunStage, StageOk, Staged, JobsKnown, Marking, Pick;
      var front, last := parts[..|parts| - 1], parts[|parts| - 1];
      PartsOf(js, visits, parts, last);
      TickIsARun(js, m, visits, front);
      StageIsOk(js, visits, last, |parts| - 1);
      DeferralIsInvisible(js, RunTick(js, m, visits, front), Chosen(visits, last));
      PickParts(visits, Concat(front), last);
      RunAppend(Pick(AllMarking(visits), Concat(front)), Pick(AllMarking(visits), last), m);
    }
  }

  lemma PartsOf<V(!new)>(js: seq<Job>, visits: seq<Visit<V>>, parts: seq<seq<nat>>, last: seq<nat>)
    requires AllProper(js, visits) && Staged(js, visits, parts) && parts != [] && last == parts[|parts| - 1]
    ensures JobsKnown(js, visits) && Staged(js, visits, parts[..|parts| - 1])
    ensures forall k :: 0 <= k < |last| ==> last[k] < |visits| && Level(js, visits[last[k]].job) == |parts| - 1
    ensures JobsKnown(js, Chosen(visits, last))
  {
    hide Level, Proper;
  }

  lemma PickParts<V>(visits: seq<Visit<V>>, front: seq<nat>, last: seq<nat>)
    requires forall k :: 0 <= k < |front| ==> front[k] < |visits|
    requires forall k :: 0 <= k < |last| ==> last[k] < |visits|
    ensures forall k :: 0 <= k < |front + last| ==> (front + last)[k] < |visits|
    ensures AllMarking(Chosen(visits, last)) == Pick(AllMarking(visits), last)
    ensures Pick(AllMarking(visits), front + last) == Pick(AllMarking(visits), front) + Pick(AllMarking(visits), last)
  {
  }

  /** The tick's visits in serial order. */
  ghost predicate Visits<V(!new)>(js: seq<Job>, visits: seq<Visit<V>>) {
    && AllProper(js, visits)
    && (forall i, j :: 0 <= i < j < |visits| ==> visits[i].job <= visits[j].job)
    && (forall i, j :: 0 <= i < j < |visits| && visits[i].job == visits[j].job && Split(js[visits[i].job])
          ==> visits[i].entity != visits[j].entity)
  }

  /** A job that is not split runs in its own order. */
  ghost predicate KeepsOwnOrder<V>(js: seq<Job>, visits: seq<Visit<V>>, order: seq<nat>)
    requires JobsKnown(js, visits) && forall k :: 0 <= k < |order| ==> order[k] < |visits|
  {
    forall p, q :: 0 <= p < q < |order| && visits[order[p]].job == visits[order[q]].job
                   && !Split(js[visits[order[p]].job]) ==>
      order[p] < order[q]
  }

  /** The whole tick: stages one after the other, inside a stage any interleaving of the visits of
      split and unsplit jobs that keeps each unsplit job in its own order, split jobs unmarked until
      the merge. It ends in the values and the marks of the serial run, where every visit of every
      job, in canonical order, marks at once. */
  lemma TickMatchesMarkedSerialRun<V(!new)>(js: seq<Job>, visits: seq<Visit<V>>, parts: seq<seq<nat>>, m: Table<V>)
    requires Visits(js, visits) && Staged(js, visits, parts)
    requires IsPermutation(Concat(parts), |visits|) && KeepsOwnOrder(js, visits, Concat(parts))
    ensures RunTick(js, m, visits, parts) == Run(AllMarking(visits), m)
  {
    hide Program, TickOrder, IsPermutation, KeepsOwnOrder, Visits, Staged, Run, RunTick, Pick, Level, Marking;
    VisitsAreProper(js, visits);
    TickIsARun(js, m, visits, parts);
    MarkingIsAProgram(js, visits);
    StagesAscend(js, visits, parts);
    MarkingIsATick(js, visits, Concat(parts));
    TickMatchesSerialRun(js, AllMarking(visits), Concat(parts), m);
  }

  lemma VisitsAreProper<V(!new)>(js: seq<Job>, visits: seq<Visit<V>>)
    requires Visits(js, visits)
    ensures AllProper(js, visits) && JobsKnown(js, visits)
  {
  }

  lemma MarkingIsAProgram<V(!new)>(js: seq<Job>, visits: seq<Visit<V>>)
    requires Visits(js, visits)
    ensures Program(js, AllMarking(visits))
  {
    hide StaysDeclared, MarksDeclared, KeepsRows;
    forall k | 0 <= k < |visits| ensures StaysDeclared(js, AllMarking(visits)[k]) {
      assert Proper(js, visits[k]);
      MarkingStaysDeclared(js, visits[k]);
    }
  }

  lemma MarkingIsATick<V(!new)>(js: seq<Job>, visits: seq<Visit<V>>, order: seq<nat>)
    requires JobsKnown(js, visits) && IsPermutation(order, |visits|)
    requires forall k :: 0 <= k < |order| ==> order[k] < |visits|
    requires KeepsOwnOrder(js, visits, order)
    requires forall p, q :: 0 <= p < q < |order| ==> Level(js, visits[order[p]].job) <= Level(js, visits[order[q]].job)
    ensures TickOrder(js, AllMarking(visits), order)
  {
    hide Level;
    assert forall k :: 0 <= k < |visits| ==> AllMarking(visits)[k].job == visits[k].job;
  }

  lemma {:induction false} StagesAscend<V>(js: seq<Job>, visits: seq<Visit<V>>, parts: seq<seq<nat>>)
    requires JobsKnown(js, visits)
    requires Staged(js, visits, parts)
    ensures forall k :: 0 <= k < |Concat(parts)| ==>
        Concat(parts)[k] < |visits| && Level(js, visits[Concat(parts)[k]].job) < |parts|
    ensures forall p, q :: 0 <= p < q < |Concat(parts)| ==>
              Level(js, visits[Concat(parts)[p]].job) <= Level(js, visits[Concat(parts)[q]].job)
  {
    hide Level;
    if parts != [] {
      var front, last := parts[..|parts| - 1], parts[|parts| - 1];
      StagesAscend(js, visits, front);
      assert Concat(parts) == Concat(front) + last;
    }
  }
}
