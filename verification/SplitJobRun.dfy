/** Running one threaded job on real pools: chunks with deferred marks, then the merge. */
module SplitJobRun {
  import opened PoolModel
  import opened SparsePool
  import opened Counting
  import opened OwnedGroups
  import opened RegistryModule
  import opened Chunks
  import opened SplitJobs

  lemma TouchIsMark<V>(pools: Pools<V>, i: nat, c: nat)
    requires AllDistinctRows(pools)
    ensures Step(pools, Touch(i, c), true) == if c in pools then pools[c := MarkDirty(pools[c], i)] else pools
  {
    var next := Step(pools, Touch(i, c), true);
    forall d | d in pools ensures next[d] == if d == c then MarkDirty(pools[d], i) else pools[d] {
      assert next[d].rows == if d == c then MarkDirty(pools[d], i).rows else pools[d].rows;
    }
  }

  lemma PutIsPoke<V>(pools: Pools<V>, i: nat, c: nat, v: V, explicit: bool)
    requires AllDistinctRows(pools)
    ensures Step(pools, Put(i, c, v, explicit), false) == if c in pools then pools[c := Poke(pools[c], i, v)] else pools
  {
    var next := Step(pools, Put(i, c, v, explicit), false);
    forall d | d in pools ensures next[d] == if d == c then Poke(pools[d], i, v) else pools[d] {
      assert next[d].rows == if d == c then Poke(pools[d], i, v).rows else pools[d].rows;
    }
  }

  lemma TouchIsNothing<V>(pools: Pools<V>, i: nat, c: nat)
    ensures Step(pools, Touch(i, c), false) == pools
  {
    var next := Step(pools, Touch(i, c), false);
    forall d | d in pools ensures next[d] == pools[d] { assert next[d].rows == pools[d].rows; }
  }

  lemma StepKeepsDistinct<V>(pools: Pools<V>, e: Event<V>, mark: bool)
    requires AllDistinctRows(pools)
    ensures AllDistinctRows(Step(pools, e, mark)) && Step(pools, e, mark).Keys == pools.Keys
  {
  }

  lemma RunSnoc<V>(pools: Pools<V>, trace: seq<Event<V>>, e: Event<V>, mark: bool)
    ensures RunAll(pools, trace + [e], mark) == Step(RunAll(pools, trace, mark), e, mark)
  {
    assert (trace + [e])[..|trace|] == trace;
  }

  method MarkOne<V>(r: Registry<V>, c: nat, i: nat)
    requires r.PoolsOk() && AllDistinctRows(r.Models())
    modifies r.pools.Values
    ensures r.PoolsOk() && AllDistinctRows(r.Models()) && r.Models() == Step(old(r.Models()), Touch(i, c), true)
  {
    hide Pool.Valid, Pool.M, Step, MarkDirty, AllDistinctRows;
    TouchIsMark(r.Models(), i, c);
    StepKeepsDistinct(r.Models(), Touch(i, c), true);
    if c in r.pools {
      r.pools[c].MarkDirty(i);
    }
    assert r.Models() == Step(old(r.Models()), Touch(i, c), true);
  }

  /** The touches a component makes over positions [begin, end). */
  function TouchColumn<V>(c: nat, indices: seq<nat>, begin: nat, end: nat): seq<Event<V>>
    requires begin <= end <= |indices|
  {
    seq(end - begin, k requires 0 <= k < end - begin => Touch(indices[begin + k], c))
  }

  function TouchRange<V>(components: seq<nat>, indices: seq<nat>, begin: nat, end: nat): seq<Event<V>>
    requires begin <= end <= |indices|
  {
    if components == [] then []
    else
      TouchRange(components[..|components| - 1], indices, begin, end) +
      TouchColumn(components[|components| - 1], indices, begin, end)
  }

  method MarkColumn<V>(r: Registry<V>, c: nat, indices: seq<nat>, begin: nat, end: nat)
    requires r.PoolsOk() && AllDistinctRows(r.Models()) && begin <= end <= |indices|
    modifies r.pools.Values
    ensures r.PoolsOk() && AllDistinctRows(r.Models())
    ensures r.Models() == RunAll(old(r.Models()), TouchColumn(c, indices, begin, end), true)
  {
    hide Pool.Valid, Pool.M, Step, AllDistinctRows;
    var position := begin;
    while position < end
      invariant begin <= position <= end && r.PoolsOk() && AllDistinctRows(r.Models())
      invariant r.Models() == RunAll(old(r.Models()), TouchColumn(c, indices, begin, position), true)
    {
      RunSnoc(old(r.Models()), TouchColumn(c, indices, begin, position), Touch(indices[position], c), true);
      MarkOne(r, c, indices[position]);
      position := position + 1;
      assert TouchColumn<V>(c, indices, begin, position) ==
          TouchColumn(c, indices, begin, position - 1) + [Touch(indices[position - 1], c)];
    }
  }

  method MarkComponentDirtyRange<V>(r: Registry<V>, components: seq<nat>, indices: seq<nat>, begin: nat, end: nat)
    requires r.PoolsOk() && AllDistinctRows(r.Models()) && begin <= end <= |indices|
    modifies r.pools.Values
    ensures r.PoolsOk() && AllDistinctRows(r.Models())
    ensures r.Models() == RunAll(old(r.Models()), TouchRange(components, indices, begin, end), true)
  {
    hide Pool.Valid, Pool.M, AllDistinctRows, TouchColumn, RunAll;
    NoEvents(r.Models());
    for k := 0 to |components|
      invariant r.PoolsOk() && AllDistinctRows(r.Models())
      invariant r.Models() == RunAll(old(r.Models()), TouchRange(components[..k], indices, begin, end), true)
    {
      RunConcat(old(r.Models()), TouchRange(components[..k], indices, begin, end),
          TouchColumn(components[k], indices, begin, end), true);
      if components[k] in r.pools {
        MarkColumn(r, components[k], indices, begin, end);
      } else {
        MarkAbsent(r.Models(), components[k], indices, begin, end);
      }
      assert components[..k + 1][..k] == components[..k];
    }
    assert components[..|components|] == components;
  }

  lemma NoEvents<V>(pools: Pools<V>)
    ensures RunAll(pools, [], true) == pools && RunAll(pools, [], false) == pools
  {
  }

  /** A component without a pool has nothing to mark. */
  lemma {:induction false} MarkAbsent<V>(pools: Pools<V>, c: nat, indices: seq<nat>, begin: nat, end: nat)
    requires AllDistinctRows(pools) && c !in pools && begin <= end <= |indices|
    ensures RunAll(pools, TouchColumn(c, indices, begin, end), true) == pools
    decreases end - begin
  {
    if begin < end {
      MarkAbsent(pools, c, indices, begin, end - 1);
      TouchIsMark(pools, indices[end - 1], c);
      RunSnoc(pools, TouchColumn(c, indices, begin, end - 1), Touch(indices[end - 1], c), true);
      assert TouchColumn<V>(c, indices, begin, end) ==
          TouchColumn(c, indices, begin, end - 1) + [Touch(indices[end - 1], c)];
    }
  }

  method MergeDeferredDirtyWrites<V>(r: Registry<V>, writes: seq<(nat, nat)>)
    requires r.PoolsOk() && AllDistinctRows(r.Models())
    modifies r.pools.Values
    ensures r.PoolsOk() && AllDistinctRows(r.Models())
    ensures r.Models() == RunAll(old(r.Models()), TouchLog(writes), true)
  {
    hide Pool.Valid, Pool.M, Step, AllDistinctRows;
    for k := 0 to |writes|
      invariant r.PoolsOk() && AllDistinctRows(r.Models())
      invariant r.Models() == RunAll(old(r.Models()), TouchLog(writes[..k]), true)
    {
      RunSnoc(old(r.Models()), TouchLog(writes[..k]), Touch(writes[k].1, writes[k].0), true);
      MarkOne(r, writes[k].0, writes[k].1);
      assert TouchLog<V>(writes[..k + 1]) == TouchLog(writes[..k]) + [Touch(writes[k].1, writes[k].0)];
    }
    assert writes[..|writes|] == writes;
  }

  /** Logged (component, index) pairs as marks. */
  function TouchLog<V>(writes: seq<(nat, nat)>): seq<Event<V>> {
    seq(|writes|, k requires 0 <= k < |writes| => Touch(writes[k].1, writes[k].0))
  }

  method ReadOwn<V>(r: Registry<V>, i: nat) returns (own: map<nat, V>)
    requires r.PoolsOk()
    ensures own == Own(r.Models(), i)
  {
    hide Pool.Valid, Pool.M, Find;
    own := map[];
    var todo := r.pools.Keys;
    while todo != {}
      invariant todo <= r.pools.Keys && own.Keys <= r.pools.Keys - todo
      invariant forall c :: c in r.pools.Keys - todo ==> (c in own <==> Has(r.Models()[c], i))
      invariant forall c :: c in own ==> own[c] == Lookup(r.Models()[c], i).value.value
      decreases todo
    {
      var c :| c in todo;
      var v := r.pools[c].ReadValue(i);
      if v.Some? {
        own := own[c := v.value];
      }
      todo := todo - {c};
    }
    assert own == Own(r.Models(), i);
  }

  /** Which stores are logged: explicit writes; a store through a reference counts as covered by the
      range marks of its component. */
  predicate Logs<V>(iter: seq<nat>, c: nat, explicit: bool) { explicit || c !in iter }

  /** Stores through references and explicit writes: nothing is marked, every explicit write to a row
      that is there is logged. */
  method StoreAll<V>(r: Registry<V>, i: nat, writes: seq<Write<V>>, iter: seq<nat>,
      log: seq<(nat, nat)>) returns (longer: seq<(nat, nat)>)
    requires r.PoolsOk() && AllDistinctRows(r.Models())
    modifies r.pools.Values
    ensures r.PoolsOk() && AllDistinctRows(r.Models())
    ensures r.Models() == RunAll(old(r.Models()), VisitEvents(iter, i, writes), false)
    ensures forall x :: x in longer <==>
              x in log || (x.1 == i && Contains(old(r.Models()), x.0, i) && Written(writes, iter, x.0))
  {
    hide Pool.Valid, Pool.M, Step, AllDistinctRows, Poke, RunAll, Contains, Written, Logs;
    longer := log;
    ghost var start := r.Models();
    TouchesAreNothing(start, iter, i);
    forall d ensures !Written(writes[..0], iter, d) { NothingWritten<V>(iter, d); }
    assert VisitEvents(iter, i, writes[..0]) == VisitEvents<V>(iter, i, []);
    for k := 0 to |writes|
      invariant r.PoolsOk() && AllDistinctRows(r.Models())
      invariant r.Models() == RunAll(start, VisitEvents(iter, i, writes[..k]), false)
      invariant forall x :: x in longer <==>
          x in log || (x.1 == i && Contains(start, x.0, i) && Written(writes[..k], iter, x.0))
    {
      var w := writes[k];
      RunSnoc(start, VisitEvents(iter, i, writes[..k]), Put(i, w.c, w.v, w.explicit), false);
      RunKeepsContains(start, VisitEvents(iter, i, writes[..k]), false, w.c, i);
      var found := StoreOne(r, i, w);
      if found && Logs<V>(iter, w.c, w.explicit) {
        longer := longer + [(w.c, i)];
      }
      forall d
        ensures Written(writes[..k + 1], iter, d) <==>
            Written(writes[..k], iter, d) || (d == w.c && Logs<V>(iter, w.c, w.explicit))
      {
        WrittenMore(writes, iter, k, d);
      }
      VisitSnoc(iter, i, writes, k);
    }
    assert writes[..|writes|] == writes;
  }

  lemma VisitSnoc<V>(iter: seq<nat>, i: nat, writes: seq<Write<V>>, k: nat)
    requires k < |writes|
    ensures var w := writes[k];
            VisitEvents(iter, i, writes[..k + 1]) == VisitEvents(iter, i, writes[..k]) + [Put(i, w.c, w.v, w.explicit)]
  {
  }

  lemma NothingWritten<V>(iter: seq<nat>, c: nat)
    ensures !Written<V>([], iter, c)
  {
  }

  /** Some logged store goes to component c. */
  ghost predicate Written<V>(writes: seq<Write<V>>, iter: seq<nat>, c: nat) {
    exists k :: 0 <= k < |writes| && writes[k].c == c && Logs<V>(iter, c, writes[k].explicit)
  }

  lemma WrittenMore<V>(writes: seq<Write<V>>, iter: seq<nat>, k: nat, c: nat)
    requires k < |writes|
    ensures Written(writes[..k + 1], iter, c) <==>
            Written(writes[..k], iter, c) || (c == writes[k].c && Logs<V>(iter, c, writes[k].explicit))
  {
    if Written(writes[..k], iter, c) {
      var j :| 0 <= j < k && writes[j].c == c && Logs<V>(iter, c, writes[j].explicit);
      assert writes[..k + 1][j].c == c;
    }
    assert writes[..k + 1][k] == writes[k];
  }

  lemma {:induction false} TouchesAreNothing<V>(pools: Pools<V>, iter: seq<nat>, i: nat)
    ensures RunAll(pools, VisitEvents(iter, i, []), false) == pools
  {
    hide Step;
    if iter != [] {
      var n := |iter| - 1;
      TouchesAreNothing(pools, iter[..n], i);
      TouchIsNothing(pools, i, iter[n]);
      RunSnoc(pools, VisitEvents(iter[..n], i, []), Touch(i, iter[n]), false);
      assert VisitEvents<V>(iter, i, []) == VisitEvents(iter[..n], i, []) + [Touch(i, iter[n])];
    } else {
      assert VisitEvents<V>(iter, i, []) == [];
    }
  }

  method StoreOne<V>(r: Registry<V>, i: nat, w: Write<V>) returns (found: bool)
    requires r.PoolsOk() && AllDistinctRows(r.Models())
    modifies r.pools.Values
    ensures r.PoolsOk() && AllDistinctRows(r.Models())
    ensures r.Models() == Step(old(r.Models()), Put(i, w.c, w.v, w.explicit), false)
    ensures found == Contains(old(r.Models()), w.c, i)
  {
    hide Pool.Valid, Pool.M, Step, AllDistinctRows, Poke;
    PutIsPoke(r.Models(), i, w.c, w.v, w.explicit);
    StepKeepsDistinct(r.Models(), Put(i, w.c, w.v, w.explicit), false);
    found := false;
    if w.c in r.pools {
      found := r.pools[w.c].StoreValue(i, w.v);
    }
    assert r.Models() == Step(old(r.Models()), Put(i, w.c, w.v, w.explicit), false);
  }

  /** The events of the visits at positions below n, one entity after the other. */
  function RangeTrace<V>(pools: Pools<V>, indices: seq<nat>, n: nat, iter: seq<nat>, cb: Callback<V>): seq<Event<V>>
    requires n <= |indices|
  {
    if n == 0 then []
    else
      RangeTrace(pools, indices, n - 1, iter, cb) +
      VisitEvents(iter, indices[n - 1], cb(indices[n - 1], Own(pools, indices[n - 1])))
  }

  lemma {:induction false} RangeOf<V>(pools: Pools<V>, indices: seq<nat>, n: nat, iter: seq<nat>, cb: Callback<V>,
      j: nat)
    requires n <= |indices| && AllDistinct(indices)
    ensures Of(RangeTrace(pools, indices, n, iter, cb), j) ==
        if j in indices[..n] then VisitEvents(iter, j, cb(j, Own(pools, j))) else []
    decreases n
  {
    hide VisitEvents, Own, Of;
    if n > 0 {
      var i := indices[n - 1];
      RangeOf(pools, indices, n - 1, iter, cb, j);
      OfConcat(RangeTrace(pools, indices, n - 1, iter, cb), VisitEvents(iter, i, cb(i, Own(pools, i))), j);
      VisitIsOwn(iter, i, cb(i, Own(pools, i)), j);
      assert indices[..n] == indices[..n - 1] + [i];
    } else {
      OfNothing<V>(j);
    }
  }

  lemma OfNothing<V>(j: nat)
    ensures Of<V>([], j) == []
  {
  }

  /** The rows the log of a trace names. */
  ghost predicate Logged<V>(start: Pools<V>, trace: seq<Event<V>>, iter: seq<nat>, x: (nat, nat)) {
    Contains(start, x.0, x.1) && LogStored(trace, iter, x)
  }

  ghost predicate LogStored<V>(trace: seq<Event<V>>, iter: seq<nat>, x: (nat, nat)) {
    exists n :: 0 <= n < |trace| && trace[n].Put? && trace[n].i == x.1 && trace[n].c == x.0 && Logs<V>(iter, x.0,
        trace[n].explicit)
  }

  lemma LoggedMore<V>(trace: seq<Event<V>>, iter: seq<nat>, i: nat, writes: seq<Write<V>>, x: (nat, nat))
    ensures LogStored(trace + VisitEvents(iter, i, writes), iter, x) <==>
            LogStored(trace, iter, x) || (x.1 == i && Written(writes, iter, x.0))
  {
    var events := VisitEvents(iter, i, writes);
    var all := trace + events;
    if LogStored(trace, iter, x) {
      var n :| 0 <= n < |trace| && trace[n].Put? && trace[n].i == x.1 && trace[n].c == x.0 &&
          Logs<V>(iter, x.0, trace[n].explicit);
      assert all[n] == trace[n];
    }
    if x.1 == i && Written(writes, iter, x.0) {
      var k :| 0 <= k < |writes| && writes[k].c == x.0 && Logs<V>(iter, x.0, writes[k].explicit);
      assert all[|trace| + |iter| + k] == Put(i, writes[k].c, writes[k].v, writes[k].explicit);
    }
    if LogStored(all, iter, x) {
      var n :| 0 <= n < |all| && all[n].Put? && all[n].i == x.1 && all[n].c == x.0 &&
          Logs<V>(iter, x.0, all[n].explicit);
      if n >= |trace| { assert writes[n - |trace| - |iter|].c == x.0; } else { assert trace[n] == all[n]; }
    }
  }

  /** One chunk's task. `start` are the pools the stage began with. */
  method RunRange<V>(r: Registry<V>, indices: seq<nat>, begin: nat, end: nat, iter: seq<nat>, cb: Callback<V>,
      ghost start: Pools<V>)
    returns (log: seq<(nat, nat)>)
    requires r.PoolsOk() && AllDistinctRows(start) && begin <= end <= |indices| && AllDistinct(indices)
    requires AllDistinctRows(r.Models()) &&
        r.Models() == RunAll(start, RangeTrace(start, indices, begin, iter, cb), false)
    modifies r.pools.Values
    ensures r.PoolsOk()
    ensures AllDistinctRows(r.Models()) && r.Models() == RunAll(start, RangeTrace(start, indices, end, iter, cb), false)
    ensures forall x :: x in log || Logged(start, RangeTrace(start, indices, begin, iter, cb), iter, x)
                        <==> Logged(start, RangeTrace(start, indices, end, iter, cb), iter, x)
  {
    hide Pool.Valid, Pool.M, AllDistinctRows, RunAll, VisitEvents, Own, Logged, Written, AllDistinct, Contains,
        RangeTrace;
    log := [];
    ghost var before := RangeTrace(start, indices, begin, iter, cb);
    var position := begin;
    while position < end
      invariant begin <= position <= end && r.PoolsOk()
      invariant AllDistinctRows(r.Models()) &&
          r.Models() == RunAll(start, RangeTrace(start, indices, position, iter, cb), false)
      invariant forall x :: x in log || Logged(start, before, iter, x) <==>
          Logged(start, RangeTrace(start, indices, position, iter, cb), iter, x)
    {
      var i := indices[position];
      OwnIsUntouched(start, indices, position, iter, cb);
      RangeStep(start, indices, position, iter, cb);
      var own := ReadOwn(r, i);
      var writes := cb(i, own);
      log := StoreAll(r, i, writes, iter, log);
      position := position + 1;
    }
  }

  /** What one more visit adds to the pools and to the log. */
  lemma RangeStep<V>(start: Pools<V>, indices: seq<nat>, position: nat, iter: seq<nat>, cb: Callback<V>)
    requires position < |indices|
    ensures var i := indices[position];
            var writes := cb(i, Own(start, i));
            var trace, next := RangeTrace(start, indices, position, iter, cb),
                RangeTrace(start, indices, position + 1, iter, cb);
            && RunAll(start, next, false) == RunAll(RunAll(start, trace, false), VisitEvents(iter, i, writes), false)
            && (forall x :: Logged(start, next, iter, x) <==>
                  Logged(start, trace, iter, x)
                  || (x.1 == i && Contains(RunAll(start, trace, false), x.0, i) && Written(writes, iter, x.0)))
  {
    hide RunAll, VisitEvents, Own, LogStored, Written, Contains;
    var i := indices[position];
    var writes, trace := cb(i, Own(start, i)), RangeTrace(start, indices, position, iter, cb);
    RunConcat(start, trace, VisitEvents(iter, i, writes), false);
    forall x { LoggedMore(trace, iter, i, writes, x); }
    forall c { RunKeepsContains(start, trace, false, c, i); }
  }

  /** Earlier visits were to other entities. */
  lemma OwnIsUntouched<V>(start: Pools<V>, indices: seq<nat>, position: nat, iter: seq<nat>, cb: Callback<V>)
    requires AllDistinctRows(start) && AllDistinct(indices) && position < |indices|
    ensures Own(RunAll(start, RangeTrace(start, indices, position, iter, cb), false), indices[position]) ==
        Own(start, indices[position])
  {
    hide RunAll, Own, RangeTrace;
    RangeOf(start, indices, position, iter, cb, indices[position]);
    OthersKeepOwn(start, RangeTrace(start, indices, position, iter, cb), false, indices[position]);
  }

  lemma {:induction false} TouchRangeHas<V>(components: seq<nat>, indices: seq<nat>, begin: nat, end: nat, i: nat,
      c: nat)
    requires begin <= end <= |indices|
    ensures Touch(i, c) in TouchRange<V>(components, indices, begin, end) <==>
        c in components && i in indices[begin..end]
  {
    if components != [] {
      var last := components[|components| - 1];
      TouchRangeHas<V>(components[..|components| - 1], indices, begin, end, i, c);
      assert components == components[..|components| - 1] + [last];
      TouchColumnHas<V>(last, indices, begin, end, i, c);
    }
  }

  lemma TouchColumnHas<V>(last: nat, indices: seq<nat>, begin: nat, end: nat, i: nat, c: nat)
    requires begin <= end <= |indices|
    ensures Touch(i, c) in TouchColumn<V>(last, indices, begin, end) <==> c == last && i in indices[begin..end]
  {
    if c == last && i in indices[begin..end] {
      var k :| 0 <= k < end - begin && indices[begin..end][k] == i;
      assert TouchColumn<V>(last, indices, begin, end)[k] == Touch(i, c);
    }
    if Touch(i, c) in TouchColumn<V>(last, indices, begin, end) {
      var k :| 0 <= k < end - begin && TouchColumn<V>(last, indices, begin, end)[k] == Touch(i, c);
      assert indices[begin..end][k] == i;
    }
  }

  lemma {:induction false} OnlyTouches<V>(components: seq<nat>, indices: seq<nat>, begin: nat, end: nat)
    requires begin <= end <= |indices|
    ensures forall e :: e in TouchRange<V>(components, indices, begin, end) ==> e.Touch?
  {
    if components != [] { OnlyTouches<V>(components[..|components| - 1], indices, begin, end); }
  }

  /** All chunks, one after the other, as without an executor. */
  method RunChunks<V>(r: Registry<V>, indices: seq<nat>, ranges: seq<Range>, iter: seq<nat>,
      cb: Callback<V>) returns (logs: seq<seq<(nat, nat)>>)
    requires r.PoolsOk() && AllDistinctRows(r.Models()) && AllDistinct(indices) && Partition(ranges, |indices|)
    modifies r.pools.Values
    ensures r.PoolsOk() && AllDistinctRows(r.Models())
    ensures r.Models() == RunAll(old(r.Models()), RangeTrace(old(r.Models()), indices, |indices|, iter, cb), false)
    ensures forall x :: InLogs(logs, x) <==>
        Logged(old(r.Models()), RangeTrace(old(r.Models()), indices, |indices|, iter, cb), iter, x)
  {
    hide Pool.Valid, Pool.M, AllDistinctRows, Logged, AllDistinct, RunAll, RangeTrace, InLogs;
    ghost var start := r.Models();
    NothingRun(start, indices, iter, cb);
    logs := [];
    for k := 0 to |ranges|
      invariant r.PoolsOk() && AllDistinctRows(r.Models()) && ChunksReach(ranges, k) <= |indices|
      invariant r.Models() == RunAll(start, RangeTrace(start, indices, ChunksReach(ranges, k), iter, cb), false)
      invariant forall x :: InLogs(logs, x) <==>
          Logged(start, RangeTrace(start, indices, ChunksReach(ranges, k), iter, cb), iter, x)
    {
      RangeInside(ranges, |indices|, k);
      var log := RunRange(r, indices, ranges[k].begin, ranges[k].end, iter, cb, start);
      forall x { InLogsMore(logs, log, x); }
      logs := logs + [log];
    }
  }

  /** How far the first k chunks reach. */
  function ChunksReach(ranges: seq<Range>, k: nat): nat
    requires k <= |ranges|
  {
    if k == 0 then 0 else ranges[k - 1].end
  }

  lemma RangeInside(ranges: seq<Range>, count: nat, k: nat)
    requires Partition(ranges, count) && k < |ranges|
    ensures ranges[k].begin == ChunksReach(ranges, k) && ranges[k].begin <= ranges[k].end <= count
  {
    if k < |ranges| - 1 { ChunksAscend(ranges, count, k, |ranges| - 1); }
  }

  ghost predicate InLogs(logs: seq<seq<(nat, nat)>>, x: (nat, nat)) { exists k :: 0 <= k < |logs| && x in logs[k] }

  lemma InLogsMore(logs: seq<seq<(nat, nat)>>, log: seq<(nat, nat)>, x: (nat, nat))
    ensures InLogs(logs + [log], x) <==> InLogs(logs, x) || x in log
  {
    if InLogs(logs, x) {
      var k :| 0 <= k < |logs| && x in logs[k];
      assert (logs + [log])[k] == logs[k];
    }
    if x in log { assert (logs + [log])[|logs|] == log; }
  }

  lemma NothingRun<V>(start: Pools<V>, indices: seq<nat>, iter: seq<nat>, cb: Callback<V>)
    ensures RunAll(start, RangeTrace(start, indices, 0, iter, cb), false) == start
    ensures forall x :: !Logged(start, RangeTrace(start, indices, 0, iter, cb), iter, x) && !InLogs([], x)
  {
  }

  /** The merge: every chunk's range marks, then every chunk's log. */
  method MergeMarks<V>(r: Registry<V>, indices: seq<nat>, ranges: seq<Range>, iter: seq<nat>,
      logs: seq<seq<(nat, nat)>>)
    returns (ghost merges: seq<Event<V>>)
    requires r.PoolsOk() && AllDistinctRows(r.Models()) && Partition(ranges, |indices|)
    modifies r.pools.Values
    ensures r.PoolsOk() && AllDistinctRows(r.Models()) && r.Models() == RunAll(old(r.Models()), merges, true)
    ensures forall n :: 0 <= n < |merges| ==> merges[n].Touch?
    ensures forall i, c :: Touch(i, c) in merges <==> (c in iter && i in indices) || InLogs(logs, (c, i))
  {
    hide Pool.Valid, Pool.M, AllDistinctRows, RunAll, TouchRange, TouchLog, InLogs;
    NoEvents(r.Models());
    merges := [];
    for k := 0 to |ranges|
      invariant r.PoolsOk() && AllDistinctRows(r.Models()) && r.Models() == RunAll(old(r.Models()), merges, true)
      invariant ChunksReach(ranges, k) <= |indices| && forall e :: e in merges ==> e.Touch?
      invariant forall i, c :: Touch(i, c) in merges <==> c in iter && i in indices[..ChunksReach(ranges, k)]
    {
      RangeInside(ranges, |indices|, k);
      ghost var marks := TouchRange<V>(iter, indices, ranges[k].begin, ranges[k].end);
      RunConcat(old(r.Models()), merges, marks, true);
      OnlyTouches<V>(iter, indices, ranges[k].begin, ranges[k].end);
      forall i, c { TouchRangeHas<V>(iter, indices, ranges[k].begin, ranges[k].end, i, c); }
      MarkComponentDirtyRange(r, iter, indices, ranges[k].begin, ranges[k].end);
      merges := merges + marks;
      assert indices[..ranges[k].end] == indices[..ranges[k].begin] + indices[ranges[k].begin..ranges[k].end];
    }
    assert indices[..|indices|] == indices;
    NoLogs();
    for k := 0 to |logs|
      invariant r.PoolsOk() && AllDistinctRows(r.Models()) && r.Models() == RunAll(old(r.Models()), merges, true)
      invariant forall e :: e in merges ==> e.Touch?
      invariant forall i, c :: Touch(i, c) in merges <==> (c in iter && i in indices) || InLogs(logs[..k], (c, i))
    {
      RunConcat(old(r.Models()), merges, TouchLog(logs[k]), true);
      forall i, c { TouchLogHas<V>(logs[k], i, c); }
      OnlyLogTouches<V>(logs[k]);
      forall x { InLogsMore(logs[..k], logs[k], x); }
      MergeDeferredDirtyWrites(r, logs[k]);
      merges := merges + TouchLog(logs[k]);
      assert logs[..k + 1] == logs[..k] + [logs[k]];
    }
    assert logs[..|logs|] == logs;
  }

  lemma NoLogs()
    ensures forall x :: !InLogs([], x)
  {
  }

  lemma OnlyLogTouches<V>(log: seq<(nat, nat)>)
    ensures forall e :: e in TouchLog<V>(log) ==> e.Touch?
  {
  }

  lemma TouchLogHas<V>(log: seq<(nat, nat)>, i: nat, c: nat)
    ensures Touch(i, c) in TouchLog<V>(log) <==> (c, i) in log
  {
    if (c, i) in log {
      var k :| 0 <= k < |log| && log[k] == (c, i);
      assert TouchLog<V>(log)[k] == Touch(i, c);
    }
  }

  lemma MergesAre<V>(start: Pools<V>, indices: seq<nat>, iter: seq<nat>, cb: Callback<V>, trace: seq<Event<V>>,
      merges: seq<Event<V>>, logs: seq<seq<(nat, nat)>>)
    requires AllDistinct(indices) && trace == RangeTrace(start, indices, |indices|, iter, cb)
    requires forall n :: 0 <= n < |merges| ==> merges[n].Touch?
    requires forall i, c :: Touch(i, c) in merges <==> (c in iter && i in indices) || InLogs(logs, (c, i))
    requires forall x :: InLogs(logs, x) <==> Logged(start, trace, iter, x)
    ensures Interleaves(start, indices, iter, cb, trace) && Merges(start, merges, indices, iter, trace)
  {
    hide RangeTrace, Of, VisitEvents, Own, InLogs, Stored, LogStored, Contains;
    assert indices[..|indices|] == indices;
    forall i: nat
      ensures Of(trace, i) == Expected(start, indices, iter, cb, i)
    {
      RangeOf(start, indices, |indices|, iter, cb, i);
    }
    forall i: nat, c: nat | Contains(start, c, i)
      ensures Touch(i, c) in merges <==> (c in iter && i in indices) || Stored(trace, i, c)
    {
      StoredOf(trace, i, c);
      NothingStored<V>(i, c);
      StoredIsLogged(trace, iter, i, c);
      assert InLogs(logs, (c, i)) <==> Logged(start, trace, iter, (c, i));
    }
  }

  /** A store that is not logged went through a reference that range marks cover. */
  lemma StoredIsLogged<V>(trace: seq<Event<V>>, iter: seq<nat>, i: nat, c: nat)
    ensures LogStored(trace, iter, (c, i)) ==> Stored(trace, i, c)
    ensures Stored(trace, i, c) ==> LogStored(trace, iter, (c, i)) || c in iter
  {
    if Stored(trace, i, c) && c !in iter {
      var n :| 0 <= n < |trace| && trace[n].Put? && trace[n].i == i && trace[n].c == c;
      assert Logs<V>(iter, c, trace[n].explicit);
    }
  }

  lemma NothingStored<V>(i: nat, c: nat)
    ensures !Stored<V>([], i, c)
  {
  }

  /** A threaded job on the collected entities: the same pools as the unsplit reverse pass. */
  method RunThreadedJob<V>(r: Registry<V>, indices: seq<nat>, iter: seq<nat>, cb: Callback<V>, minimum: nat,
      maxThreads: nat)
    requires r.PoolsOk() && AllDistinctRows(r.Models()) && AllDistinct(indices) && 0 < |indices| < INDEX_LIMIT
    requires 0 < minimum < WORD && maxThreads > 1
    modifies r.pools.Values
    ensures r.PoolsOk() && r.Models() == ReverseRun(old(r.Models()), indices, iter, cb)
  {
    hide Pool.Valid, Pool.M, AllDistinctRows, RunAll, RangeTrace, InLogs, Logged, Interleaves, Merges, AllDistinct;
    ghost var start := r.Models();
    var ranges := SplitChunks(|indices|, minimum, maxThreads);
    var logs := RunChunks(r, indices, ranges, iter, cb);
    ghost var trace := RangeTrace(start, indices, |indices|, iter, cb);
    ghost var merges := MergeMarks(r, indices, ranges, iter, logs);
    MergesAre(start, indices, iter, cb, trace, merges, logs);
    SplitMatchesUnsplit(start, indices, iter, cb, trace, merges);
  }
}
