/** The visits of jobs over component views, on pools and as the visits of a tick: the reverse pass
    over a job's entities is the serial run of its visits. */
module JobVisits {
  import opened Counting
  import opened PoolModel
  import opened OwnedGroups
  import opened Scheduler
  import opened SerialEquivalence
  import opened MarkedTicks
  import SplitJobs

  /** What a callback is shown of an entity: its declared components. */
  function Seen<V>(s: Store<V>, declared: seq<nat>, i: nat): map<nat, V> {
    map c | c in declared && (c, i) in s :: s[(c, i)]
  }

  /** The callback's stores, those to missing rows being lost. */
  function Stores<V>(s: Store<V>, i: nat, writes: seq<SplitJobs.Write<V>>): (r: Store<V>)
    ensures r.Keys == s.Keys
  {
    if writes == [] then s
    else
      var front, w := Stores(s, i, writes[..|writes| - 1]), writes[|writes| - 1];
      if (w.c, i) in front then front[(w.c, i) := w.v] else front
  }

  /** Mutable references and stores mark. */
  function MarkedCells<V>(iter: seq<nat>, i: nat, writes: seq<SplitJobs.Write<V>>): set<Cell> {
    (set c | c in iter :: (c, i)) + (set k | 0 <= k < |writes| :: (writes[k].c, i))
  }

  /** A job's view: the components it declares, those it refers to mutably, its filter, which sees
      what is there of the declared components, and its callback. */
  datatype View<!V> = View(declared: seq<nat>, iter: seq<nat>, wants: map<nat, V> -> bool, cb: SplitJobs.Callback<V>)

  /** The visit of one entity; one that the filter rejects is left alone. */
  function VisitOf<V>(job: nat, i: nat, view: View<V>): Visit<V> {
    Visit(job, i,
          (s: Store<V>) => var own := Seen(s, view.declared, i);
              if view.wants(own) then Stores(s, i, view.cb(i, own)) else s,
          (s: Store<V>) => var own := Seen(s, view.declared, i);
              if view.wants(own) then MarkedCells(view.iter, i, view.cb(i, own)) else {})
  }

  /** Callbacks store to declared writes only. */
  ghost predicate WritesDeclared<V(!new)>(job: Job, view: View<V>) {
    && view.declared == Declared(job)
    && (forall c :: c in view.iter ==> c in job.writing)
    && (forall i, own, w :: w in view.cb(i, own) ==> w.c in job.writing)
  }

  function Declared(job: Job): seq<nat> { job.reading + job.writing }

  /** Where a cell ends after the stores depends only on where it began. */
  lemma {:induction false} StoresAt<V>(s: Store<V>, t: Store<V>, i: nat, writes: seq<SplitJobs.Write<V>>, c: Cell)
    ensures SameAt(s, t, c) ==> SameAt(Stores(s, i, writes), Stores(t, i, writes), c)
    ensures (forall w :: w in writes ==> (w.c, i) != c) ==> SameAt(s, Stores(s, i, writes), c)
  {
    if writes != [] {
      StoresAt(s, t, i, writes[..|writes| - 1], c);
      assert writes[|writes| - 1] in writes;
    }
  }

  /** Such a visit keeps to what the job declared, in values and in marks, and keeps the rows. */
  lemma VisitIsProper<V(!new)>(js: seq<Job>, job: nat, i: nat, view: View<V>)
    requires job < |js| && !js[job].structural && WritesDeclared(js[job], view)
    ensures Proper(js, VisitOf(job, i, view))
  {
    hide Stores, StaysDeclared, MarksDeclared;
    VisitStaysDeclared(js, job, i, view);
    VisitMarksDeclared(js, job, i, view);
    var v := VisitOf(job, i, view);
    forall s: Store<V> ensures v.act(s).Keys == s.Keys {
      var own := Seen(s, view.declared, i);
      assert v.act(s) == if view.wants(own) then Stores(s, i, view.cb(i, own)) else s;
    }
  }

  lemma VisitStaysDeclared<V(!new)>(js: seq<Job>, job: nat, i: nat, view: View<V>)
    requires job < |js| && !js[job].structural && WritesDeclared(js[job], view)
    ensures StaysDeclared(js, Plain(VisitOf(job, i, view)))
  {
    hide Stores;
    var st := Plain(VisitOf(job, i, view));
    forall s: Store<V>, c | !Writes(js, job, i, c) ensures SameAt(s, st.act(s), c) {
      StoresAt(s, s, i, view.cb(i, Seen(s, view.declared, i)), c);
    }
    forall s: Store<V>, t: Store<V> | forall c :: Touches(js, job, i, c) ==> SameAt(s, t, c)
      ensures forall c :: Writes(js, job, i, c) ==> SameAt(st.act(s), st.act(t), c)
    {
      SameIsSeen(js, job, i, s, t);
      forall c | Writes(js, job, i, c) ensures SameAt(st.act(s), st.act(t), c) {
        StoresAt(s, t, i, view.cb(i, Seen(s, view.declared, i)), c);
      }
    }
  }

  lemma VisitMarksDeclared<V(!new)>(js: seq<Job>, job: nat, i: nat, view: View<V>)
    requires job < |js| && !js[job].structural && WritesDeclared(js[job], view)
    ensures MarksDeclared(js, VisitOf(job, i, view))
  {
    var v := VisitOf(job, i, view);
    forall s: Store<V>, c | c in v.marks(s) ensures Writes(js, job, i, c) {
      var writes := view.cb(i, Seen(s, view.declared, i));
      forall k | 0 <= k < |writes| ensures writes[k].c in js[job].writing { assert writes[k] in writes; }
    }
    forall s: Store<V>, t: Store<V> | forall c :: Touches(js, job, i, c) ==> SameAt(s, t, c)
      ensures v.marks(s) == v.marks(t)
    {
      SameIsSeen(js, job, i, s, t);
    }
  }

  lemma SameIsSeen<V(!new)>(js: seq<Job>, job: nat, i: nat, s: Store<V>, t: Store<V>)
    requires job < |js| && forall c :: Touches(js, job, i, c) ==> SameAt(s, t, c)
    ensures Seen(s, Declared(js[job]), i) == Seen(t, Declared(js[job]), i)
  {
    forall c | c in Declared(js[job]) ensures SameAt(s, t, (c, i)) { assert Touches(js, job, i, (c, i)); }
  }

  /** The table shows the pools' rows, dense order aside. */
  ghost predicate Shows<V>(pools: Pools<V>, m: Table<V>) {
    && (forall c: nat, i: nat :: (c, i) in m <==> Contains(pools, c, i))
    && (forall c: nat, i: nat :: Contains(pools, c, i) ==> m[(c, i)] == SlotAt(pools, c, i))
  }

  function SlotAt<V>(pools: Pools<V>, c: nat, i: nat): Slot<V>
    requires Contains(pools, c, i)
  {
    var row := Lookup(pools[c], i).value;
    Slot(row.value, row.dirty)
  }

  function Restrict<V>(own: map<nat, V>, declared: seq<nat>): map<nat, V> {
    map c | c in own && c in declared :: own[c]
  }

  /** The view's callback on pools, seeing declared components only. */
  function Restricted<V>(view: View<V>): SplitJobs.Callback<V> {
    (i: nat, own: map<nat, V>) => view.cb(i, Restrict(own, view.declared))
  }

  /** The entity passes the view's filter. */
  predicate Wanted<V>(pools: Pools<V>, view: View<V>, i: nat) {
    view.wants(Restrict(SplitJobs.Own(pools, i), view.declared))
  }

  lemma SeenIsOwn<V>(pools: Pools<V>, m: Table<V>, declared: seq<nat>, i: nat)
    requires Shows(pools, m)
    ensures Restrict(SplitJobs.Own(pools, i), declared) == Seen(Values(m), declared, i)
  {
    var own := SplitJobs.Own(pools, i);
    forall c: nat ensures c in own <==> (c, i) in m { assert (c, i) in m <==> Contains(pools, c, i); }
    forall c | c in own ensures own[c] == Values(m)[(c, i)] { assert m[(c, i)] == SlotAt(pools, c, i); }
  }

  /** Folding a visit into a row stores what the visit stores. */
  lemma {:induction false} FoldStores<V>(row: Row<V>, c: nat, iter: seq<nat>, writes: seq<SplitJobs.Write<V>>,
      s: Store<V>)
    requires (c, row.index) in s && s[(c, row.index)] == row.value
    ensures SplitJobs.Fold(row, c, SplitJobs.VisitEvents(iter, row.index, writes), true).value
            == Stores(s, row.index, writes)[(c, row.index)]
  {
    var i, events := row.index, SplitJobs.VisitEvents(iter, row.index, writes);
    if writes == [] {
      SplitJobs.TouchesKeepValue(row, c, events);
    } else {
      var n := |writes| - 1;
      FoldStores(row, c, iter, writes[..n], s);
      var w, front := writes[n], SplitJobs.VisitEvents(iter, i, writes[..n]);
      assert events == front + [SplitJobs.Put(i, w.c, w.v, w.explicit)];
      assert events[..|events| - 1] == front;
      SplitJobs.FoldMarks(row, c, front, true);
    }
  }

  lemma VisitMarks<V>(row: Row<V>, c: nat, iter: seq<nat>, i: nat, writes: seq<SplitJobs.Write<V>>)
    ensures var r := SplitJobs.Fold(row, c, SplitJobs.VisitEvents(iter, i, writes), true);
            && r.index == row.index && (r.dirty <==> row.dirty || (c, row.index) in MarkedCells(iter, i, writes))
            && (row.index != i ==> r == row)
  {
    hide SplitJobs.Fold;
    var events := SplitJobs.VisitEvents(iter, i, writes);
    SplitJobs.FoldMarks(row, c, events, true);
    SplitJobs.VisitNames(iter, i, writes, c);
    SplitJobs.VisitOnlyOwn(iter, i, writes);
    StoredIsWritten(iter, i, writes, c);
    if row.index != i {
      SplitJobs.FoldOf(row, c, events, true);
      SplitJobs.VisitIsOwn(iter, i, writes, row.index);
      FoldNothing(row, c);
    }
  }

  lemma FoldNothing<V>(row: Row<V>, c: nat)
    ensures SplitJobs.Fold(row, c, [], true) == row
  {
  }

  lemma StoredIsWritten<V>(iter: seq<nat>, i: nat, writes: seq<SplitJobs.Write<V>>, c: nat)
    ensures SplitJobs.Stored(SplitJobs.VisitEvents(iter, i, writes), i, c) <==>
        exists k :: 0 <= k < |writes| && writes[k].c == c
  {
    var events := SplitJobs.VisitEvents(iter, i, writes);
    if k :| 0 <= k < |writes| && writes[k].c == c {
      assert events[|iter| + k].c == c;
    }
    if SplitJobs.Stored(events, i, c) {
      var n :| 0 <= n < |events| && events[n].Put? && events[n].i == i && events[n].c == c;
      assert writes[n - |iter|].c == c;
    }
  }

  /** One visit on the pools is one visit on the table. */
  lemma VisitShows<V>(pools: Pools<V>, m: Table<V>, job: nat, i: nat, view: View<V>)
    requires AllDistinctRows(pools) && Shows(pools, m) && view.wants(Seen(Values(m), view.declared, i))
    ensures var writes := view.cb(i, Seen(Values(m), view.declared, i));
            Shows(SplitJobs.RunAll(pools, SplitJobs.VisitEvents(view.iter, i, writes), true),
                Marking(VisitOf(job, i, view)).act(m))
  {
    hide SplitJobs.RunAll, SplitJobs.VisitEvents, Stores, MarkedCells, AllDistinctRows, SlotAt, Contains;
    var iter, writes := view.iter, view.cb(i, Seen(Values(m), view.declared, i));
    var events := SplitJobs.VisitEvents(iter, i, writes);
    var next, t := SplitJobs.RunAll(pools, events, true), Marking(VisitOf(job, i, view)).act(m);
    assert t == Marked(m, Stores(Values(m), i, writes), MarkedCells(iter, i, writes));
    forall c, j
      ensures Contains(next, c, j) <==> Contains(pools, c, j)
    {
      SplitJobs.RunKeepsContains(pools, events, true, c, j);
    }
    forall c, j | Contains(pools, c, j) ensures t[(c, j)] == SlotAt(next, c, j) {
      assert m[(c, j)] == SlotAt(pools, c, j);
      VisitSlot(pools, c, j, iter, i, writes, Values(m));
    }
  }

  lemma VisitSlot<V>(pools: Pools<V>, c: nat, j: nat, iter: seq<nat>, i: nat, writes: seq<SplitJobs.Write<V>>,
      s: Store<V>)
    requires AllDistinctRows(pools) && Contains(pools, c, j) && (c, j) in s && s[(c, j)] == SlotAt(pools, c, j).value
    ensures var next := SplitJobs.RunAll(pools, SplitJobs.VisitEvents(iter, i, writes), true);
            && Contains(next, c, j)
            && SlotAt(next, c, j) ==
                Slot(Stores(s, i, writes)[(c, j)], SlotAt(pools, c, j).dirty || (c, j) in MarkedCells(iter, i, writes))
  {
    hide SplitJobs.RunAll, SplitJobs.VisitEvents, SplitJobs.Fold, MarkedCells, Stores;
    var events := SplitJobs.VisitEvents(iter, i, writes);
    var next := SplitJobs.RunAll(pools, events, true);
    SplitJobs.RunRows(pools, events, true);
    var a, b, k := pools[c].rows, next[c].rows, Find(pools[c].rows, j);
    forall n | 0 <= n < |a| ensures b[n].index == a[n].index { SplitJobs.FoldMarks(a[n], c, events, true); }
    SameOrderFinds(a, b, j);
    VisitMarks(a[k], c, iter, i, writes);
    if j == i {
      FoldStores(a[k], c, iter, writes, s);
    } else {
      StoresAt(s, s, i, writes, (c, j));
    }
  }

  /** The visits of a job in the order of its reverse pass. */
  function ReverseVisits<V>(job: nat, indices: seq<nat>, view: View<V>): seq<Visit<V>> {
    if indices == [] then []
    else [VisitOf(job, indices[|indices| - 1], view)] + ReverseVisits(job, indices[..|indices| - 1], view)
  }

  /** The unsplit pass over a job's entities is the serial run of its visits, in values and marks. */
  lemma {:induction false} ReversePassIsSerialRun<V(!new)>(pools: Pools<V>, m: Table<V>, job: nat, indices: seq<nat>,
      view: View<V>)
    requires AllDistinctRows(pools) && Shows(pools, m) && AllDistinct(indices)
    requires forall k :: 0 <= k < |indices| ==> Wanted(pools, view, indices[k])
    ensures Shows(SplitJobs.ReverseRun(pools, indices, view.iter, Restricted(view)),
                  Run(AllMarking(ReverseVisits(job, indices, view)), m))
    decreases |indices|
  {
    if indices != [] {
      hide AllDistinctRows, Shows, SplitJobs.RunAll, SplitJobs.VisitEvents, SplitJobs.Own, VisitOf, Marking, Run,
          Restricted;
      var n := |indices| - 1;
      var i, x := indices[n], VisitOf(job, indices[n], view);
      var mid := FirstVisit(pools, m, job, i, view);
      ReversePassIsSerialRun(mid, Marking(x).act(m), job, indices[..n], view);
      RunFirst(x, ReverseVisits(job, indices[..n], view), m);
    } else {
      NoVisits<V>(m);
    }
  }

  lemma NoVisits<V>(m: Table<V>)
    ensures Run(AllMarking<V>([]), m) == m
  {
  }

  lemma FirstVisit<V>(pools: Pools<V>, m: Table<V>, job: nat, i: nat, view: View<V>) returns (mid: Pools<V>)
    requires AllDistinctRows(pools) && Shows(pools, m) && Wanted(pools, view, i)
    ensures mid == SplitJobs.RunAll(
                     pools, SplitJobs.VisitEvents(view.iter, i, Restricted(view)(i, SplitJobs.Own(pools, i))), true)
    ensures AllDistinctRows(mid) && Shows(mid, Marking(VisitOf(job, i, view)).act(m))
    ensures forall j :: j != i ==> (Wanted(mid, view, j) <==> Wanted(pools, view, j))
  {
    hide AllDistinctRows, Shows, SplitJobs.RunAll, SplitJobs.VisitEvents, Restrict, SplitJobs.Own, Seen, VisitOf,
        Marking;
    SeenIsOwn(pools, m, view.declared, i);
    VisitShows(pools, m, job, i, view);
    var writes := view.cb(i, Seen(Values(m), view.declared, i));
    SplitJobs.AfterVisit(pools, view.iter, i, writes);
    mid := SplitJobs.RunAll(pools, SplitJobs.VisitEvents(view.iter, i, writes), true);
    forall j | j != i ensures Wanted(mid, view, j) <==> Wanted(pools, view, j) {
      SplitJobs.OtherVisit(pools, view.iter, i, writes, j);
    }
  }

  lemma RunFirst<V>(x: Visit<V>, rest: seq<Visit<V>>, m: Table<V>)
    ensures Run(AllMarking([x] + rest), m) == Run(AllMarking(rest), Marking(x).act(m))
  {
    hide Marking;
    assert AllMarking([x] + rest) == [Marking(x)] + AllMarking(rest);
    RunAppend([Marking(x)], AllMarking(rest), m);
    assert [Marking(x)][..0] == [];
  }

  /** Visits of split jobs are visits of the jobs' views; a split job meets no entity twice. */
  ghost predicate ByViews<V(!new)>(js: seq<Job>, views: seq<View<V>>, visits: seq<Visit<V>>) {
    && |views| == |js| && AllProper(js, visits)
    && (forall k :: 0 <= k < |visits| && Split(js[visits[k].job]) ==>
          && views[visits[k].job].declared == Declared(js[visits[k].job])
          && visits[k] == VisitOf(visits[k].job, visits[k].entity, views[visits[k].job]))
    && (forall j, k :: 0 <= j < k < |visits| && visits[j].job == visits[k].job && Split(js[visits[j].job])
          ==> visits[j].entity != visits[k].entity)
  }

  /** All visits belong to the stage of a given level. */
  predicate OneStage<V>(js: seq<Job>, visits: seq<Visit<V>>, level: nat)
    requires JobsKnown(js, visits)
  {
    forall k :: 0 <= k < |visits| ==> Level(js, visits[k].job) == level
  }

  /** A cell a job of the stage declares is written by no other job of the stage, and by no visit a
      split job pays to another entity. */
  lemma NobodyElseWrites(js: seq<Job>, job: nat, i: nat, other: nat, entity: nat, c: nat)
    requires job < |js| && other < |js| && Split(js[job]) && Level(js, job) == Level(js, other)
    requires c in Declared(js[job]) && (other == job ==> entity != i)
    ensures !Writes(js, other, entity, (c, i))
  {
    hide Level;
    if other != job && Writes(js, other, entity, (c, i)) {
      assert Conflict(js[other], js[job]) && Conflict(js[job], js[other]);
      if other < job { ConflictsAreOrdered(js, other, job); } else { ConflictsAreOrdered(js, job, other); }
    }
  }

  /** What a split job's filter sees of an entity before its visit is what it saw when the stage began. */
  lemma {:induction false} SeenIsStable<V(!new)>(js: seq<Job>, m: Table<V>, visits: seq<Visit<V>>, job: nat, i: nat,
      c: nat)
    requires AllProper(js, visits) && job < |js| && Split(js[job]) && OneStage(js, visits, Level(js, job))
    requires forall k :: 0 <= k < |visits| ==> visits[k].job != job || visits[k].entity != i
    requires c in Declared(js[job])
    ensures SameAt(Values(m), Values(PerformAll(js, Progress(m, {}), visits).table), (c, i))
  {
    if visits != [] {
      hide Level, Declared, Marked;
      var front, last := visits[..|visits| - 1], visits[|visits| - 1];
      SeenIsStable(js, m, front, job, i, c);
      var p := PerformAll(js, Progress(m, {}), front);
      PerformValues(js, p, last);
      assert Proper(js, last);
      NobodyElseWrites(js, job, i, last.job, last.entity, c);
      assert SameAt(Values(p.table), Plain(last).act(Values(p.table)), (c, i));
    }
  }

  lemma PerformValues<V>(js: seq<Job>, p: Progress<V>, v: Visit<V>)
    requires v.job < |js|
    ensures Values(Perform(js, p, v).table) == v.act(Values(p.table))
  {
  }

  /** The visits a stage makes when the entities of its split jobs are collected as it begins. */
  function Collected<V>(js: seq<Job>, views: seq<View<V>>, start: Store<V>, visits: seq<Visit<V>>): (r: seq<Visit<V>>)
    requires JobsKnown(js, visits) && |views| == |js|
    ensures JobsKnown(js, r)
  {
    if visits == [] then []
    else
      var front, v := Collected(js, views, start, visits[..|visits| - 1]), visits[|visits| - 1];
      if Split(js[v.job]) && !views[v.job].wants(Seen(start, views[v.job].declared, v.entity)) then front
          else front + [v]
  }

  /** Exactly the visits of split jobs are left out whose filter rejected their entity at the start. */
  lemma {:induction false} CollectedAre<V(!new)>(js: seq<Job>, views: seq<View<V>>, start: Store<V>,
      visits: seq<Visit<V>>, v: Visit<V>)
    requires JobsKnown(js, visits) && |views| == |js| && v.job < |js|
    ensures v in Collected(js, views, start, visits) <==>
            v in visits && (js[v.job].split && !js[v.job].structural ==>
              views[v.job].wants(Seen(start, views[v.job].declared, v.entity)))
  {
    if visits != [] {
      CollectedAre(js, views, start, visits[..|visits| - 1], v);
      assert visits == visits[..|visits| - 1] + [visits[|visits| - 1]];
    }
  }

  /** A visit whose filter rejects changes nothing and notes nothing. */
  lemma RejectedIsNothing<V>(js: seq<Job>, p: Progress<V>, job: nat, i: nat, view: View<V>)
    requires job < |js| && Split(js[job]) && !view.wants(Seen(Values(p.table), view.declared, i))
    ensures Perform(js, p, VisitOf(job, i, view)) == p
  {
    var v := VisitOf(job, i, view);
    assert v.act(Values(p.table)) == Values(p.table) && v.marks(Values(p.table)) == {};
    assert Marked(p.table, Values(p.table), {}) == p.table;
  }

  /** Collecting a stage's entities as it begins leaves out exactly visits that would do nothing. */
  lemma {:induction false} CollectingAtTheStart<V(!new)>(js: seq<Job>, views: seq<View<V>>, m: Table<V>,
      visits: seq<Visit<V>>, level: nat)
    requires ByViews(js, views, visits) && OneStage(js, visits, level)
    ensures PerformAll(js, Progress(m, {}), Collected(js, views, Values(m), visits)) ==
        PerformAll(js, Progress(m, {}), visits)
  {
    if visits != [] {
      hide Level, Proper, Declared, VisitOf, Seen;
      var front, last := visits[..|visits| - 1], visits[|visits| - 1];
      CollectingAtTheStart(js, views, m, front, level);
      var kept, p, view := Collected(js, views, Values(m), front), PerformAll(js, Progress(m, {}), front),
          views[last.job];
      if Split(js[last.job]) && !view.wants(Seen(Values(m), view.declared, last.entity)) {
        SeenSame(js, m, front, last.job, last.entity);
        RejectedIsNothing(js, p, last.job, last.entity, view);
      } else {
        assert (kept + [last])[..|kept|] == kept;
      }
    }
  }

  lemma SeenSame<V(!new)>(js: seq<Job>, m: Table<V>, visits: seq<Visit<V>>, job: nat, i: nat)
    requires AllProper(js, visits) && job < |js| && Split(js[job]) && OneStage(js, visits, Level(js, job))
    requires forall k :: 0 <= k < |visits| ==> visits[k].job != job || visits[k].entity != i
    ensures var now := Values(PerformAll(js, Progress(m, {}), visits).table);
            Seen(now, Declared(js[job]), i) == Seen(Values(m), Declared(js[job]), i)
  {
    hide Level, Declared, PerformAll, Values;
    var now := Values(PerformAll(js, Progress(m, {}), visits).table);
    forall c | c in Declared(js[job]) ensures SameAt(Values(m), now, (c, i)) {
      SeenIsStable(js, m, visits, job, i, c);
    }
  }

  /** The tick as it runs: each stage collects the entities of its split jobs as it begins. */
  function RunCollectedTick<V>(js: seq<Job>, views: seq<View<V>>, m: Table<V>, visits: seq<Visit<V>>,
      parts: seq<seq<nat>>)
    : Table<V>
    requires JobsKnown(js, visits) && |views| == |js|
    requires forall s, k :: 0 <= s < |parts| && 0 <= k < |parts[s]| ==> parts[s][k] < |visits|
  {
    if parts == [] then m
    else
      var start := RunCollectedTick(js, views, m, visits, parts[..|parts| - 1]);
      RunStage(js, start, Collected(js, views, Values(start), Chosen(visits, parts[|parts| - 1])))
  }

  lemma {:induction false} CollectedTickIsATick<V(!new)>(js: seq<Job>, views: seq<View<V>>, m: Table<V>,
      visits: seq<Visit<V>>, parts: seq<seq<nat>>)
    requires ByViews(js, views, visits) && Staged(js, visits, parts)
    requires forall s :: 0 <= s < |parts| ==> AllDistinct(parts[s])
    ensures RunCollectedTick(js, views, m, visits, parts) == RunTick(js, m, visits, parts)
  {
    if parts != [] {
      hide Level, Proper, Collected, PerformAll, ByViews;
      var front, last := parts[..|parts| - 1], parts[|parts| - 1];
      ByViewsIsProper(js, views, visits);
      CollectedTickIsATick(js, views, m, visits, front);
      ChosenByViews(js, views, visits, last, |parts| - 1);
      CollectingAtTheStart(js, views, RunTick(js, m, visits, front), Chosen(visits, last), |parts| - 1);
    }
  }

  lemma ByViewsIsProper<V(!new)>(js: seq<Job>, views: seq<View<V>>, visits: seq<Visit<V>>)
    requires ByViews(js, views, visits)
    ensures AllProper(js, visits) && JobsKnown(js, visits) && |views| == |js|
  {
  }

  lemma ChosenByViews<V(!new)>(js: seq<Job>, views: seq<View<V>>, visits: seq<Visit<V>>, part: seq<nat>, level: nat)
    requires ByViews(js, views, visits) && AllDistinct(part)
    requires forall k :: 0 <= k < |part| ==> part[k] < |visits| && Level(js, visits[part[k]].job) == level
    ensures ByViews(js, views, Chosen(visits, part)) && OneStage(js, Chosen(visits, part), level)
  {
    hide Level, Proper, VisitOf;
    assert forall k :: 0 <= k < |part| ==> Chosen(visits, part)[k] == visits[part[k]];
    forall j, k | 0 <= j < k < |part| ensures part[j] < part[k] || part[k] < part[j] { }
  }

  /** The main result on ticks. Entities of split jobs are collected when their stage begins, the
      visits interleave, marks are merged when the stage is over; values and marks end as in the
      serial run, where every job matches its entities when its turn comes. */
  lemma CollectedTickMatchesSerialRun<V(!new)>(js: seq<Job>, views: seq<View<V>>, visits: seq<Visit<V>>,
      parts: seq<seq<nat>>, m: Table<V>)
    requires Visits(js, visits) && ByViews(js, views, visits) && Staged(js, visits, parts)
    requires IsPermutation(Concat(parts), |visits|) && KeepsOwnOrder(js, visits, Concat(parts))
    ensures RunCollectedTick(js, views, m, visits, parts) == Run(AllMarking(visits), m)
  {
    hide Visits, ByViews, Staged, Run, RunTick, RunCollectedTick, KeepsOwnOrder, IsPermutation;
    PartsAreDistinct(parts, |visits|);
    CollectedTickIsATick(js, views, m, visits, parts);
    TickMatchesMarkedSerialRun(js, visits, parts, m);
  }

  lemma PartsAreDistinct(parts: seq<seq<nat>>, n: nat)
    requires IsPermutation(Concat(parts), n)
    ensures forall s :: 0 <= s < |parts| ==> AllDistinct(parts[s])
  {
    PartsOfDistinct(parts);
  }

  lemma {:induction false} PartsOfDistinct(parts: seq<seq<nat>>)
    requires AllDistinct(Concat(parts))
    ensures forall s :: 0 <= s < |parts| ==> AllDistinct(parts[s])
  {
    if parts != [] {
      var front, last := parts[..|parts| - 1], parts[|parts| - 1];
      var all := Concat(parts);
      assert forall k :: 0 <= k < |Concat(front)| ==> Concat(front)[k] == all[k];
      assert forall k :: 0 <= k < |last| ==> last[k] == all[|Concat(front)| + k];
      PartsOfDistinct(front);
      forall s | 0 <= s < |parts| ensures AllDistinct(parts[s]) {
        if s < |front| { assert parts[s] == front[s]; }
      }
    }
  }
}
