/** A job split over chunks marks nothing while it runs: its range marks and logged writes are
    applied after the stage. The pools end exactly as after one unsplit reverse pass. */
module SplitJobs {
  import opened PoolModel
  import opened Counting
  import opened OwnedGroups

  /** What a callback does to an entity: take a mutable reference, or store a value, through such a
      reference or by an explicit write. */
  datatype Event<V> = Touch(i: nat, c: nat) | Put(i: nat, c: nat, v: V, explicit: bool)

  datatype Write<V> = Write(c: nat, v: V, explicit: bool)

  function RowStep<V>(row: Row<V>, c: nat, e: Event<V>, mark: bool): Row<V> {
    if e.c != c || e.i != row.index then row
    else if e.Touch? then row.(dirty := row.dirty || mark)
    else row.(value := e.v, dirty := row.dirty || mark)
  }

  function PoolStep<V>(m: Model<V>, c: nat, e: Event<V>, mark: bool): Model<V> {
    m.(rows := seq(|m.rows|, k requires 0 <= k < |m.rows| => RowStep(m.rows[k], c, e, mark)))
  }

  function Step<V>(pools: Pools<V>, e: Event<V>, mark: bool): Pools<V> {
    map c | c in pools :: PoolStep(pools[c], c, e, mark)
  }

  function RunAll<V>(pools: Pools<V>, trace: seq<Event<V>>, mark: bool): Pools<V> {
    if trace == [] then pools
    else Step(RunAll(pools, trace[..|trace| - 1], mark), trace[|trace| - 1], mark)
  }

  function Fold<V>(row: Row<V>, c: nat, trace: seq<Event<V>>, mark: bool): Row<V> {
    if trace == [] then row
    else RowStep(Fold(row, c, trace[..|trace| - 1], mark), c, trace[|trace| - 1], mark)
  }

  lemma {:induction false} RunRows<V>(pools: Pools<V>, trace: seq<Event<V>>, mark: bool)
    ensures var r := RunAll(pools, trace, mark);
            && r.Keys == pools.Keys
            && (forall c :: c in pools ==> r[c].tombs == pools[c].tombs && |r[c].rows| == |pools[c].rows|)
            && (forall c, k :: c in pools && 0 <= k < |pools[c].rows| ==>
                r[c].rows[k] == Fold(pools[c].rows[k], c, trace, mark))
  {
    if trace != [] { RunRows(pools, trace[..|trace| - 1], mark); }
  }

  /** Folding leaves index and added alone, and marks exactly the rows some event names. */
  lemma {:induction false} FoldMarks<V>(row: Row<V>, c: nat, trace: seq<Event<V>>, mark: bool)
    ensures var r := Fold(row, c, trace, mark);
            && r.index == row.index && r.added == row.added
            && (r.dirty <==>
                row.dirty || (mark && exists n :: 0 <= n < |trace| && trace[n].c == c && trace[n].i == row.index))
  {
    if trace != [] { FoldMarks(row, c, trace[..|trace| - 1], mark); }
  }

  lemma {:induction false} FoldValue<V>(a: Row<V>, b: Row<V>, c: nat, trace: seq<Event<V>>, m: bool, n: bool)
    requires a.index == b.index && a.value == b.value
    ensures Fold(a, c, trace, m).value == Fold(b, c, trace, n).value &&
        Fold(a, c, trace, m).index == Fold(b, c, trace, n).index == a.index
  {
    if trace != [] { FoldValue(a, b, c, trace[..|trace| - 1], m, n); }
  }

  /** The events of one entity, in order. */
  function Of<V>(trace: seq<Event<V>>, i: nat): seq<Event<V>> {
    if trace == [] then []
    else
      var front, last := Of(trace[..|trace| - 1], i), trace[|trace| - 1];
      if last.i == i then front + [last] else front
  }

  lemma {:induction false} FoldOf<V>(row: Row<V>, c: nat, trace: seq<Event<V>>, mark: bool)
    ensures Fold(row, c, trace, mark) == Fold(row, c, Of(trace, row.index), mark)
  {
    if trace != [] {
      FoldOf(row, c, trace[..|trace| - 1], mark);
      FoldMarks(row, c, trace[..|trace| - 1], mark);
      var front, last := Of(trace[..|trace| - 1], row.index), trace[|trace| - 1];
      assert (front + [last])[..|front|] == front;
    }
  }

  lemma {:induction false} InOf<V>(trace: seq<Event<V>>, i: nat, e: Event<V>)
    ensures e in Of(trace, i) <==> e in trace && e.i == i
  {
    if trace != [] {
      InOf(trace[..|trace| - 1], i, e);
      assert trace == trace[..|trace| - 1] + [trace[|trace| - 1]];
    }
  }

  lemma {:induction false} OfConcat<V>(a: seq<Event<V>>, b: seq<Event<V>>, i: nat)
    ensures Of(a + b, i) == Of(a, i) + Of(b, i)
  {
    if b == [] {
      assert a + b == a;
    } else {
      OfConcat(a, b[..|b| - 1], i);
      assert (a + b)[..|a + b| - 1] == a + b[..|b| - 1];
    }
  }

  lemma {:induction false} OfOthers<V>(trace: seq<Event<V>>, i: nat, j: nat)
    requires forall n :: 0 <= n < |trace| ==> trace[n].i == i
    ensures Of(trace, j) == if i == j then trace else []
  {
    if trace != [] { OfOthers(trace[..|trace| - 1], i, j); }
  }

  lemma {:induction false} RunConcat<V>(pools: Pools<V>, a: seq<Event<V>>, b: seq<Event<V>>, mark: bool)
    ensures RunAll(pools, a + b, mark) == RunAll(RunAll(pools, a, mark), b, mark)
  {
    if b == [] {
      assert a + b == a;
    } else {
      RunConcat(pools, a, b[..|b| - 1], mark);
      assert (a + b)[..|a + b| - 1] == a + b[..|b| - 1];
    }
  }

  /** A callback sees the entity and its component values, and answers with its stores. */
  type Callback<!V> = (nat, map<nat, V>) -> seq<Write<V>>

  function Own<V>(pools: Pools<V>, i: nat): map<nat, V> {
    map c | c in pools && Has(pools[c], i) :: Lookup(pools[c], i).value.value
  }

  function VisitEvents<V>(iter: seq<nat>, i: nat, writes: seq<Write<V>>): seq<Event<V>> {
    seq(|iter|, k requires 0 <= k < |iter| => Touch(i, iter[k])) +
        seq(|writes|, k requires 0 <= k < |writes| => Put(i, writes[k].c, writes[k].v, writes[k].explicit))
  }

  lemma VisitIsOwn<V>(iter: seq<nat>, i: nat, writes: seq<Write<V>>, j: nat)
    ensures Of(VisitEvents(iter, i, writes), j) == if i == j then VisitEvents(iter, i, writes) else []
  {
    OfOthers(VisitEvents(iter, i, writes), i, j);
  }

  /** The unsplit job: last match first, every mark made at once. */
  function ReverseRun<V>(pools: Pools<V>, indices: seq<nat>, iter: seq<nat>, cb: Callback<V>): Pools<V>
    decreases |indices|
  {
    if indices == [] then pools
    else
      var i := indices[|indices| - 1];
      ReverseRun(RunAll(pools, VisitEvents(iter, i, cb(i, Own(pools, i))), true), indices[..|indices| - 1], iter, cb)
  }

  /** The events a visit of entity i makes on the pools a job starts from. */
  function Expected<V>(pools: Pools<V>, indices: seq<nat>, iter: seq<nat>, cb: Callback<V>, i: nat): seq<Event<V>> {
    if i in indices then VisitEvents(iter, i, cb(i, Own(pools, i))) else []
  }

  /** Any interleaving of the visits, at the grain of single stores. */
  ghost predicate Interleaves<V>(pools: Pools<V>, indices: seq<nat>, iter: seq<nat>, cb: Callback<V>,
      trace: seq<Event<V>>) {
    forall i: nat :: Of(trace, i) == Expected(pools, indices, iter, cb, i)
  }

  /** What entity j finds in its own components does not depend on visits to others. */
  lemma OthersKeepOwn<V>(pools: Pools<V>, trace: seq<Event<V>>, mark: bool, j: nat)
    requires AllDistinctRows(pools) && Of(trace, j) == []
    ensures var r := RunAll(pools, trace, mark);
            AllDistinctRows(r) && Own(r, j) == Own(pools, j)
  {
    hide RunAll, Fold, Of;
    RunRows(pools, trace, mark);
    var r := RunAll(pools, trace, mark);
    forall c, k | c in pools && 0 <= k < |pools[c].rows| ensures r[c].rows[k].index == pools[c].rows[k].index {
      FoldMarks(pools[c].rows[k], c, trace, mark);
    }
    forall c | c in pools ensures Distinct(r[c].rows) && Lookup(r[c], j) == Lookup(pools[c], j) {
      OthersKeepRow(pools, trace, mark, c, j);
    }
  }

  lemma OthersKeepRow<V>(pools: Pools<V>, trace: seq<Event<V>>, mark: bool, c: nat, j: nat)
    requires AllDistinctRows(pools) && Of(trace, j) == [] && c in pools
    ensures var r := RunAll(pools, trace, mark); c in r && Distinct(r[c].rows) && Lookup(r[c], j) == Lookup(pools[c], j)
  {
    hide RunAll, Of;
    RunRows(pools, trace, mark);
    var a, b := pools[c].rows, RunAll(pools, trace, mark)[c].rows;
    forall k | 0 <= k < |a| ensures b[k].index == a[k].index { FoldMarks(a[k], c, trace, mark); }
    SameOrderFinds(a, b, j);
    if Find(a, j) < |a| { FoldOf(a[Find(a, j)], c, trace, mark); }
  }

  /** The rows after the unsplit pass, in terms of the pools it started from. */
  lemma {:induction false} ReverseRows<V>(pools: Pools<V>, indices: seq<nat>, iter: seq<nat>, cb: Callback<V>)
    requires AllDistinctRows(pools) && AllDistinct(indices)
    ensures var r := ReverseRun(pools, indices, iter, cb);
            && r.Keys == pools.Keys
            && (forall c :: c in pools ==> r[c].tombs == pools[c].tombs && |r[c].rows| == |pools[c].rows|)
            && (forall c, k :: c in pools && 0 <= k < |pools[c].rows| ==>
                  r[c].rows[k] ==
                      Fold(pools[c].rows[k], c, Expected(pools, indices, iter, cb, pools[c].rows[k].index), true))
    decreases |indices|
  {
    hide RunAll, VisitEvents, Own, Of, AllDistinctRows;
    if indices != [] {
      var n := |indices| - 1;
      var i := indices[n];
      var events := VisitEvents(iter, i, cb(i, Own(pools, i)));
      var mid, r := RunAll(pools, events, true), ReverseRun(pools, indices, iter, cb);
      AfterVisit(pools, iter, i, cb(i, Own(pools, i)));
      ReverseRows(mid, indices[..n], iter, cb);
      assert indices == indices[..n] + [i];
      RunRows(pools, events, true);
      forall c, k | c in pools && 0 <= k < |pools[c].rows|
        ensures r[c].rows[k] ==
            Fold(pools[c].rows[k], c, Expected(pools, indices, iter, cb, pools[c].rows[k].index), true)
      {
        var row := pools[c].rows[k];
        FoldOf(row, c, events, true);
        FoldMarks(row, c, events, true);
        VisitIsOwn(iter, i, cb(i, Own(pools, i)), row.index);
        assert r[c].rows[k] == Fold(mid[c].rows[k], c, Expected(mid, indices[..n], iter, cb, row.index), true);
        if row.index != i { OtherVisit(pools, iter, i, cb(i, Own(pools, i)), row.index); }
      }
    } else {
      forall c, k | c in pools && 0 <= k < |pools[c].rows|
        ensures Expected(pools, indices, iter, cb, pools[c].rows[k].index) == [] { }
    }
  }

  /** Write n is the last one to the component. */
  predicate LastWrite<V>(writes: seq<Write<V>>, c: nat, n: nat) {
    n < |writes| && writes[n].c == c && forall m :: n < m < |writes| ==> writes[m].c != c
  }

  /** A visit leaves the last value it wrote, or the old one, and marks what it refers to or writes. */
  lemma {:induction false} FoldVisit<V>(row: Row<V>, c: nat, iter: seq<nat>, writes: seq<Write<V>>)
    ensures var r := Fold(row, c, VisitEvents(iter, row.index, writes), true);
            && r.index == row.index && r.added == row.added
            && (r.dirty <==> row.dirty || c in iter || exists n :: 0 <= n < |writes| && writes[n].c == c)
            && (forall n: nat :: LastWrite(writes, c, n) ==> r.value == writes[n].v)
            && ((forall n :: 0 <= n < |writes| ==> writes[n].c != c) ==> r.value == row.value)
  {
    var events := VisitEvents(iter, row.index, writes);
    FoldMarks(row, c, events, true);
    forall k | 0 <= k < |iter| ensures events[k] == Touch(row.index, iter[k]) { }
    forall n | 0 <= n < |writes|
      ensures events[|iter| + n] == Put(row.index, writes[n].c, writes[n].v, writes[n].explicit) { }
    if c in iter {
      var k :| 0 <= k < |iter| && iter[k] == c;
      assert events[k].c == c;
    }
    if n :| 0 <= n < |writes| && writes[n].c == c { assert events[|iter| + n].c == c; }
    VisitValue(row, c, iter, writes, |iter| + |writes|);
    assert events[..|iter| + |writes|] == events;
  }

  lemma {:induction false} VisitValue<V>(row: Row<V>, c: nat, iter: seq<nat>, writes: seq<Write<V>>, k: nat)
    requires k <= |iter| + |writes|
    ensures var r := Fold(row, c, VisitEvents(iter, row.index, writes)[..k], true);
            && r.index == row.index
            && (forall n: nat :: |iter| + n < k && LastWrite(writes[..k - |iter|], c, n) ==> r.value == writes[n].v)
            && ((forall n :: 0 <= n < |writes| && |iter| + n < k ==> writes[n].c != c) ==> r.value == row.value)
  {
    var events := VisitEvents(iter, row.index, writes);
    if k > 0 {
      VisitValue(row, c, iter, writes, k - 1);
      assert events[..k][..k - 1] == events[..k - 1];
      var last := events[k - 1];
      if k > |iter| {
        var shorter, longer := writes[..k - 1 - |iter|], writes[..k - |iter|];
        assert last ==
            Put(row.index, writes[k - 1 - |iter|].c, writes[k - 1 - |iter|].v, writes[k - 1 - |iter|].explicit);
        assert forall m :: 0 <= m < |shorter| ==> longer[m] == shorter[m];
        forall n: nat | LastWrite(longer, c, n) && n < |shorter|
          ensures LastWrite(shorter, c, n) && last.c != c
        {
          assert longer[|shorter|].c != c;
        }
      } else {
        assert last == Touch(row.index, iter[k - 1]);
      }
    }
  }

  /** What an unsplit job leaves of a row: the value its own visit wrote last, or the old one, and a mark
      where the visit refers to the component or writes it. Rows of other entities stay as they are. */
  lemma ReverseRowMeans<V>(pools: Pools<V>, indices: seq<nat>, iter: seq<nat>, cb: Callback<V>, c: nat, k: nat)
    requires AllDistinctRows(pools) && AllDistinct(indices) && c in pools && k < |pools[c].rows|
    ensures var r := ReverseRun(pools, indices, iter, cb);
            && c in r && |r[c].rows| == |pools[c].rows|
            && var before, after := pools[c].rows[k], r[c].rows[k];
               var writes := cb(before.index, Own(pools, before.index));
               if before.index !in indices then after == before
               else
                 && after.index == before.index && after.added == before.added
                 && (after.dirty <==>
                     before.dirty || c in iter || exists n :: 0 <= n < |writes| && writes[n].c == c)
                 && (forall n: nat :: LastWrite(writes, c, n) ==> after.value == writes[n].v)
                 && ((forall n :: 0 <= n < |writes| ==> writes[n].c != c) ==> after.value == before.value)
  {
    hide ReverseRun, VisitEvents, Own, LastWrite;
    ReverseRows(pools, indices, iter, cb);
    var before := pools[c].rows[k];
    FoldVisit(before, c, iter, cb(before.index, Own(pools, before.index)));
  }

  lemma AfterVisit<V>(pools: Pools<V>, iter: seq<nat>, i: nat, writes: seq<Write<V>>)
    requires AllDistinctRows(pools)
    ensures AllDistinctRows(RunAll(pools, VisitEvents(iter, i, writes), true))
  {
    hide VisitEvents;
    VisitIsOwn(iter, i, writes, i + 1);
    OthersKeepOwn(pools, VisitEvents(iter, i, writes), true, i + 1);
  }

  lemma OtherVisit<V>(pools: Pools<V>, iter: seq<nat>, i: nat, writes: seq<Write<V>>, j: nat)
    requires AllDistinctRows(pools) && j != i
    ensures Own(RunAll(pools, VisitEvents(iter, i, writes), true), j) == Own(pools, j)
  {
    hide VisitEvents;
    VisitIsOwn(iter, i, writes, j);
    OthersKeepOwn(pools, VisitEvents(iter, i, writes), true, j);
  }

  /** The merge after the stage marks, of the rows there are, those of referenced components of
      collected entities and those some store went to. */
  ghost predicate Merges<V>(pools: Pools<V>, merges: seq<Event<V>>, indices: seq<nat>, iter: seq<nat>,
      trace: seq<Event<V>>) {
    && (forall n :: 0 <= n < |merges| ==> merges[n].Touch?)
    && (forall i, c :: Contains(pools, c, i) ==>
          (Touch(i, c) in merges <==> (c in iter && i in indices) || Stored(trace, i, c)))
  }

  ghost predicate Stored<V>(trace: seq<Event<V>>, i: nat, c: nat) {
    exists n :: 0 <= n < |trace| && trace[n].Put? && trace[n].i == i && trace[n].c == c
  }

  /** Some event of the visit names component c. */
  lemma VisitNames<V>(iter: seq<nat>, i: nat, writes: seq<Write<V>>, c: nat)
    ensures (exists n :: 0 <= n < |VisitEvents(iter, i, writes)| && VisitEvents(iter, i, writes)[n].c == c)
            <==> c in iter || Stored(VisitEvents(iter, i, writes), i, c)
  {
    var events := VisitEvents(iter, i, writes);
    if c in iter {
      var k :| 0 <= k < |iter| && iter[k] == c;
      assert events[k].c == c;
    }
  }

  lemma StoredOf<V>(trace: seq<Event<V>>, i: nat, c: nat)
    ensures Stored(trace, i, c) <==> Stored(Of(trace, i), i, c)
  {
    hide Of;
    if Stored(trace, i, c) {
      var n :| 0 <= n < |trace| && trace[n].Put? && trace[n].i == i && trace[n].c == c;
      InOf(trace, i, trace[n]);
      var m :| 0 <= m < |Of(trace, i)| && Of(trace, i)[m] == trace[n];
    }
    if Stored(Of(trace, i), i, c) {
      var n :| 0 <= n < |Of(trace, i)| && Of(trace, i)[n].Put? && Of(trace, i)[n].i == i && Of(trace, i)[n].c == c;
      InOf(trace, i, Of(trace, i)[n]);
      var m :| 0 <= m < |trace| && trace[m] == Of(trace, i)[n];
    }
  }

  /** Marks alone change no value. */
  lemma {:induction false} TouchesKeepValue<V>(row: Row<V>, c: nat, merges: seq<Event<V>>)
    requires forall n :: 0 <= n < |merges| ==> merges[n].Touch?
    ensures Fold(row, c, merges, true).value == row.value
  {
    if merges != [] { TouchesKeepValue(row, c, merges[..|merges| - 1]); }
  }

  /** One row ends the same either way. */
  lemma SplitRow<V>(pools: Pools<V>, indices: seq<nat>, iter: seq<nat>, cb: Callback<V>, trace: seq<Event<V>>,
      merges: seq<Event<V>>, row: Row<V>, c: nat)
    requires Interleaves(pools, indices, iter, cb, trace) && Merges(pools, merges, indices, iter, trace)
    requires Contains(pools, c, row.index)
    ensures Fold(Fold(row, c, trace, false), c, merges, true) ==
        Fold(row, c, Expected(pools, indices, iter, cb, row.index), true)
  {
    hide Fold, VisitEvents, Of, Own;
    var i, events := row.index, Expected(pools, indices, iter, cb, row.index);
    var mid := Fold(row, c, trace, false);
    FoldMarks(row, c, trace, false);
    FoldMarks(mid, c, merges, true);
    FoldMarks(row, c, events, true);
    TouchesKeepValue(mid, c, merges);
    FoldOf(row, c, trace, false);
    FoldValue(row, row, c, events, false, true);
    StoredOf(trace, i, c);
    if i in indices {
      var writes := cb(i, Own(pools, i));
      VisitNames(iter, i, writes, c);
      VisitOnlyOwn(iter, i, writes);
    }
    NamedByTouch(merges, i, c);
  }

  lemma VisitOnlyOwn<V>(iter: seq<nat>, i: nat, writes: seq<Write<V>>)
    ensures forall n :: 0 <= n < |VisitEvents(iter, i, writes)| ==> VisitEvents(iter, i, writes)[n].i == i
  {
  }

  lemma NamedByTouch<V>(merges: seq<Event<V>>, i: nat, c: nat)
    requires forall n :: 0 <= n < |merges| ==> merges[n].Touch?
    ensures (exists n :: 0 <= n < |merges| && merges[n].c == c && merges[n].i == i) <==> Touch(i, c) in merges
  {
    if exists n :: 0 <= n < |merges| && merges[n].c == c && merges[n].i == i {
      var n :| 0 <= n < |merges| && merges[n].c == c && merges[n].i == i;
      assert merges[n] == Touch(i, c);
    }
  }

  lemma RowIsThere<V>(pools: Pools<V>, c: nat, k: nat)
    requires AllDistinctRows(pools) && c in pools && k < |pools[c].rows|
    ensures Contains(pools, c, pools[c].rows[k].index)
  {
    FindUnique(pools[c].rows, k);
  }

  /** Events add no row and remove none. */
  lemma RunKeepsContains<V>(pools: Pools<V>, trace: seq<Event<V>>, mark: bool, c: nat, i: nat)
    ensures Contains(RunAll(pools, trace, mark), c, i) <==> Contains(pools, c, i)
  {
    RunRows(pools, trace, mark);
    if c in pools {
      var a, b := pools[c].rows, RunAll(pools, trace, mark)[c].rows;
      forall k | 0 <= k < |a| ensures b[k].index == a[k].index { FoldMarks(a[k], c, trace, mark); }
      SameOrderFinds(a, b, i);
    }
  }

  /** Splitting a job, in whatever interleaving, changes neither values nor marks. */
  lemma SplitMatchesUnsplit<V>(pools: Pools<V>, indices: seq<nat>, iter: seq<nat>, cb: Callback<V>,
                               trace: seq<Event<V>>, merges: seq<Event<V>>)
    requires AllDistinctRows(pools) && AllDistinct(indices)
    requires Interleaves(pools, indices, iter, cb, trace) && Merges(pools, merges, indices, iter, trace)
    ensures RunAll(RunAll(pools, trace, false), merges, true) == ReverseRun(pools, indices, iter, cb)
  {
    hide RunAll, Fold, ReverseRun, Interleaves, Merges, Expected;
    var mid := RunAll(pools, trace, false);
    var a, b := RunAll(mid, merges, true), ReverseRun(pools, indices, iter, cb);
    RunRows(pools, trace, false);
    RunRows(mid, merges, true);
    ReverseRows(pools, indices, iter, cb);
    forall c, k | c in pools && 0 <= k < |pools[c].rows| ensures a[c].rows[k] == b[c].rows[k] {
      RowIsThere(pools, c, k);
      SplitRow(pools, indices, iter, cb, trace, merges, pools[c].rows[k], c);
    }
    forall c | c in pools ensures a[c] == b[c] {
      assert a[c].rows == b[c].rows;
    }
  }
}
