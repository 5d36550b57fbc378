/** View iteration: which pool drives a query, what a cached query state may rely on, and that
    every matching entity is visited exactly once. */
module Views {
  import opened PoolModel
  import opened OwnedGroups
  import opened SparsePool
  import opened Counting
  import opened RegistryModule

  /** Listed components, required tags and excluded tags. */
  datatype Query = Query(iter: seq<nat>, tags: seq<nat>, without: seq<nat>)

  ghost predicate Matches<V>(pools: Pools<V>, q: Query, i: nat) {
    Everywhere(pools, q.iter + q.tags, i) && forall c :: c in q.without ==> !Contains(pools, c, i)
  }

  /** Pools and group as a view resolved them; an absent key is a null storage. */
  datatype Resolved<V> = Resolved(token: nat, storages: map<nat, Pool<V>>, group: Option<nat>)

  function Components(q: Query): seq<nat> { q.iter + q.tags + q.without }

  ghost predicate Includes(key: seq<nat>, owned: seq<nat>) { forall c :: c in owned ==> c in key }

  /** What the state must be like if it was resolved against this topology. */
  ghost predicate Current<V>(state: Resolved<V>, q: Query, t: Topology<V>) {
    && (forall c :: c in Components(q) ==> (c in state.storages <==> c in t.pools))
    && (forall c :: c in Components(q) && c in t.pools ==> state.storages[c] == t.pools[c])
    && (state.group.Some? ==> t.depth == 0 && state.group.value < |t.groups| && q.tags == [] && q.without == []
                              && Includes(q.iter, t.groups[state.group.value].owned))
  }

  ghost predicate CacheOk<V>(state: Resolved<V>, q: Query, t: Topology<V>) {
    state.token <= t.token && (state.token == t.token ==> Current(state, q, t))
  }

  /** A state whose token still matches is as good as a freshly resolved one, whatever the
      registry did in between. */
  lemma CacheSurvives<V>(state: Resolved<V>, q: Query, before: Topology<V>, after: Topology<V>)
    requires CacheOk(state, q, before) && Kept(before, after)
    ensures CacheOk(state, q, after)
  {
    if state.token == after.token && state.group.Some? {
      assert before.groups != [];
      assert after.groups[state.group.value].owned == before.groups[state.group.value].owned;
    }
  }

  lemma KeptTransitive<V>(a: Topology<V>, b: Topology<V>, c: Topology<V>)
    requires Kept(a, b) && Kept(b, c)
    ensures Kept(a, c)
  {
  }

  lemma {:induction false} CacheSurvivesRun<V>(state: Resolved<V>, q: Query, run: seq<Topology<V>>)
    requires run != [] && CacheOk(state, q, run[0])
    requires forall k :: 0 <= k < |run| - 1 ==> Kept(run[k], run[k + 1])
    ensures CacheOk(state, q, run[|run| - 1])
    decreases |run|
  {
    if |run| > 1 {
      assert Kept(run[0], run[0 + 1]);
      CacheSurvives(state, q, run[0], run[1]);
      forall k | 0 <= k < |run[1..]| - 1
        ensures Kept(run[1..][k], run[1..][k + 1])
      {
        assert Kept(run[k + 1], run[k + 1 + 1]);
      }
      CacheSurvivesRun(state, q, run[1..]);
    }
  }

  /** What a query asks of an entity, list by list. */
  lemma MatchesMeans<V>(pools: Pools<V>, q: Query, i: nat)
    ensures Matches(pools, q, i) <==>
            && (forall c :: c in q.iter ==> Contains(pools, c, i))
            && (forall c :: c in q.tags ==> Contains(pools, c, i))
            && (forall c :: c in q.without ==> !Contains(pools, c, i))
  {
    assert forall c :: c in q.iter + q.tags <==> c in q.iter || c in q.tags;
  }

  /** The group a query is resolved to: one with the most components among those all of whose
      components the list has, then one with the shortest prefix, then the first. */
  ghost predicate BestOf(groups: seq<Group>, key: seq<nat>, best: Option<nat>) {
    && (best.None? ==> forall g :: 0 <= g < |groups| ==> !Includes(key, groups[g].owned))
    && (best.Some? ==>
          && best.value < |groups| && Includes(key, groups[best.value].owned)
          && forall g :: 0 <= g < |groups| && Includes(key, groups[g].owned) ==>
              || |groups[g].owned| < |groups[best.value].owned|
              || (|groups[g].owned| == |groups[best.value].owned| && groups[g].size > groups[best.value].size)
              || (|groups[g].owned| == |groups[best.value].owned| && groups[g].size == groups[best.value].size &&
                  best.value <= g))
  }

  /** Groups drive a query only outside deferrals, and only one without tags and exclusions. */
  ghost predicate BestFor<V>(q: Query, t: Topology<V>, best: Option<nat>) {
    if t.depth != 0 || q.iter == [] || q.tags != [] || q.without != [] then best.None?
    else BestOf(t.groups, q.iter, best)
  }

  /** More components, or as many with a shorter prefix. */
  predicate Better(a: Group, b: Group) { |a.owned| > |b.owned| || (|a.owned| == |b.owned| && a.size < b.size) }

  /** The largest owned group inside the query's component list, smallest prefix first. */
  method BestGroup<V>(r: Registry<V>, q: Query) returns (best: Option<nat>)
    ensures if r.depth != 0 || q.iter == [] then best.None? else BestOf(r.groups, q.iter, best)
  {
    best := None;
    if r.depth != 0 || q.iter == [] {
      return;
    }
    for g := 0 to |r.groups|
      invariant best.Some? ==> best.value < g
      invariant BestOf(r.groups[..g], q.iter, best)
    {
      var includes := forall c :: c in r.groups[g].owned ==> c in q.iter;
      if includes {
        if best.None? || Better(r.groups[g], r.groups[best.value]) {
          best := Some(g);
        }
      }
    }
    assert r.groups[..|r.groups|] == r.groups;
  }

  /** Resolve again only when the token moved. */
  method RefreshState<V>(r: Registry<V>, q: Query, state: Resolved<V>) returns (s: Resolved<V>)
    requires CacheOk(state, q, r.T())
    ensures s.token == r.viewToken && Current(s, q, r.T())
    ensures if state.token == r.viewToken then s == state else BestFor(q, r.T(), s.group)
  {
    if state.token == r.viewToken {
      return state;
    }
    var group := None;
    if q.tags == [] && q.without == [] {
      group := BestGroup(r, q);
    }
    s := Resolved(r.viewToken, map c | c in r.pools && c in Components(q) :: r.pools[c], group);
  }

  /** The smallest required pool, the first of equals, or none when one of them does not exist. */
  method SelectDriver<V>(r: Registry<V>, q: Query, s: Resolved<V>) returns (driver: Option<nat>)
    requires r.PoolsOk() && Current(s, q, r.T())
    ensures driver.Some? ==> driver.value in q.iter + q.tags && driver.value in r.pools
    ensures driver.Some? ==> forall c :: c in q.iter + q.tags ==> c in r.pools
    ensures driver.Some? ==> FirstSmallest(r.Models(), q.iter + q.tags, driver.value)
    ensures driver.None? ==> q.iter + q.tags == [] || exists c :: c in q.iter + q.tags && c !in r.pools
  {
    hide Pool.Valid, Pool.M, IsFirstSmallest, FirstSmallest;
    r.PoolSizes();
    var list := q.iter + q.tags;
    driver := None;
    ghost var at: nat := 0;
    for k := 0 to |list|
      invariant driver.Some? <==> k > 0
      invariant k > 0 ==> IsFirstSmallest(r.Models(), list[..k], at) && at < k && driver.value == list[at]
      invariant k > 0 ==> driver.value in r.pools
    {
      assert list[k] in Components(q);
      if list[k] !in s.storages {
        return None;
      }
      FirstSmallestStep(r.Models(), list, k, at);
      if driver.None? || |s.storages[list[k]].dense| < |r.pools[driver.value].dense| {
        driver, at := Some(list[k]), k;
      }
    }
    if list != [] { FirstSmallestFound(r.Models(), list, at); }
  }

  /** The state answers for entity i: its storages are the registry's, and the ones it lacks
      would not contain i anyway. A current state answers for every entity. */
  ghost predicate Answers<V>(s: Resolved<V>, q: Query, live: map<nat, Pool<V>>, pools: Pools<V>, i: nat) {
    forall c :: c in Components(q) ==>
                  if c in s.storages then c in live && s.storages[c] == live[c] else !Contains(pools, c, i)
  }

  lemma CurrentAnswers<V>(s: Resolved<V>, q: Query, t: Topology<V>, pools: Pools<V>, i: nat)
    requires Current(s, q, t) && pools.Keys == t.pools.Keys
    ensures Answers(s, q, t.pools, pools, i)
  {
  }

  /** The per-entity filter, on the cached storages. */
  method ContainsAll<V>(r: Registry<V>, q: Query, s: Resolved<V>, i: nat) returns (b: bool)
    requires r.PoolsOk() && Answers(s, q, r.pools, r.Models(), i)
    ensures b <==> Matches(r.Models(), q, i)
  {
    hide Pool.Valid, Pool.M, Answers;
    var required := q.iter + q.tags;
    for k := 0 to |required|
      invariant forall j :: 0 <= j < k ==> Contains(r.Models(), required[j], i)
    {
      var has := CachedContains(r, q, s, required[k], i);
      if !has {
        return false;
      }
    }
    for k := 0 to |q.without|
      invariant forall j :: 0 <= j < k ==> !Contains(r.Models(), q.without[j], i)
    {
      var has := CachedContains(r, q, s, q.without[k], i);
      if has {
        return false;
      }
    }
    return true;
  }

  method CachedContains<V>(r: Registry<V>, q: Query, s: Resolved<V>, c: nat, i: nat) returns (b: bool)
    requires r.PoolsOk() && Answers(s, q, r.pools, r.Models(), i) && c in Components(q)
    ensures b <==> Contains(r.Models(), c, i)
  {
    hide Pool.M;
    if c !in s.storages {
      return false;
    }
    s.storages[c].ContainsIsFind(i);
    PoolHas(s.storages[c], i);
    return s.storages[c].Contains(i);
  }

  lemma PoolHas<V>(pool: Pool<V>, i: nat)
    requires pool.Valid()
    ensures pool.Contains(i) <==> Has(pool.M(), i)
  {
    pool.ContainsIsFind(i);
  }

  /** The matching entities among the first n rows, in dense order. */
  ghost function MatchesBelow<V>(pools: Pools<V>, q: Query, rows: seq<Row<V>>, n: nat): seq<nat>
    requires n <= |rows|
  {
    if n == 0 then []
    else
      MatchesBelow(pools, q, rows, n - 1) + (if Matches(pools, q, rows[n - 1].index) then [rows[n - 1].index] else [])
  }

  lemma {:induction false} MatchesBelowAre<V>(pools: Pools<V>, q: Query, rows: seq<Row<V>>, n: nat)
    requires n <= |rows| && Distinct(rows)
    ensures var r := MatchesBelow(pools, q, rows, n);
            AllDistinct(r) && forall i: nat :: i in r <==> Matches(pools, q, i) && Find(rows, i) < n
  {
    hide Matches;
    if n > 0 {
      MatchesBelowAre(pools, q, rows, n - 1);
      FindUnique(rows, n - 1);
    }
  }

  /** Whichever pool drives, every match has a row in it; a group's prefix holds all of them. */
  lemma DriverCovers<V>(w: World<V>, q: Query, driver: nat, i: nat)
    requires driver in q.iter + q.tags && Matches(w.pools, q, i)
    ensures driver in w.pools && Find(w.pools[driver].rows, i) < |w.pools[driver].rows|
  {
    assert Contains(w.pools, driver, i);
  }

  lemma GroupCovers<V>(w: World<V>, q: Query, g: nat, i: nat)
    requires Sound(w) && w.depth == 0 && g < |w.groups| && Includes(q.iter, w.groups[g].owned)
    requires Matches(w.pools, q, i)
    ensures w.groups[g].owned != [] && w.groups[g].owned[0] in w.pools
    ensures Find(w.pools[w.groups[g].owned[0]].rows, i) < w.groups[g].size <= |w.pools[w.groups[g].owned[0]].rows|
  {
    hide Sound;
    GroupDriver(w, g);
    assert Everywhere(w.pools, w.groups[g].owned, i) by {
      forall c | c in w.groups[g].owned ensures Contains(w.pools, c, i) { assert c in q.iter + q.tags; }
    }
    PrefixIsIntersection(w, g, i);
  }

  lemma GroupDriver<V>(w: World<V>, g: nat)
    requires Sound(w) && g < |w.groups|
    ensures var owned := w.groups[g].owned;
        owned != [] && owned[0] in w.pools && w.groups[g].size <= |w.pools[owned[0]].rows|
  {
    var group := w.groups[g];
    assert Aligned(w.pools, group);
    assert group.owned[0] in group.owned;
    assert SameStart(w.pools[group.owned[0]].rows, w.pools[group.owned[0]].rows, group.size);
  }

  /** A group's first pool drives the view, without one the smallest required pool, or nothing when a
      required pool does not exist. */
  ghost predicate Drives<V>(pools: Pools<V>, groups: seq<Group>, q: Query, group: Option<nat>, driver: Option<nat>) {
    if group.Some? then group.value < |groups| && groups[group.value].owned != [] &&
        driver == Some(groups[group.value].owned[0])
    else if driver.Some? then FirstSmallest(pools, q.iter + q.tags, driver.value)
    else exists c :: c in q.iter + q.tags && c !in pools
  }

  /** The pool that drives the view and how many of its rows are walked. */
  method DriverOf<V>(r: Registry<V>, q: Query, s: Resolved<V>) returns (driver: Option<nat>, n: nat)
    requires r.Valid() && Current(s, q, r.T()) && q.iter != []
    ensures Drives(r.Models(), r.groups, q, s.group, driver)
    ensures driver.None? ==> n == 0 && forall i :: !Matches(r.Models(), q, i)
    ensures driver.Some? ==> driver.value in r.pools && n <= |r.Models()[driver.value].rows|
    ensures driver.Some? ==> forall i :: Matches(r.Models(), q, i) ==> Find(r.Models()[driver.value].rows, i) < n
    ensures driver.Some? && s.group.None? ==> n == |r.Models()[driver.value].rows|
    ensures driver.Some? && s.group.Some? ==> s.group.value < |r.groups| && n == r.groups[s.group.value].size
  {
    hide Pool.Valid, Pool.M, Sound, RowsAlive, Matches, FirstSmallest;
    r.PoolSizes();
    if s.group.Some? {
      var group := r.groups[s.group.value];
      GroupDriver(r.W(), s.group.value);
      forall i | Matches(r.Models(), q, i) { GroupCovers(r.W(), q, s.group.value, i); }
      return Some(group.owned[0]), group.size;
    }
    driver := SelectDriver(r, q, s);
    if driver.None? {
      forall i ensures !Matches(r.Models(), q, i) { MissingPoolMatchesNothing(r.Models(), q, i); }
      return None, 0;
    }
    forall i | Matches(r.Models(), q, i) { DriverCovers(r.W(), q, driver.value, i); }
    n := |r.pools[driver.value].dense|;
  }

  lemma MissingPoolMatchesNothing<V>(pools: Pools<V>, q: Query, i: nat)
    requires exists c :: c in q.iter + q.tags && c !in pools
    ensures !Matches(pools, q, i)
  {
    var c :| c in q.iter + q.tags && c !in pools;
    assert !Contains(pools, c, i);
  }

  /** The pass yields each match once. */
  lemma PassIsExact<V>(w: World<V>, q: Query, driver: nat, n: nat)
    requires Sound(w) && driver in w.pools && n <= |w.pools[driver].rows|
    requires forall i :: Matches(w.pools, q, i) ==> Find(w.pools[driver].rows, i) < n
    ensures var r := MatchesBelow(w.pools, q, w.pools[driver].rows, n);
            AllDistinct(r) && forall i: nat :: i in r <==> Matches(w.pools, q, i)
  {
    hide Sound, Matches, MatchesBelow;
    SoundRows(w);
    MatchesBelowAre(w.pools, q, w.pools[driver].rows, n);
  }

  /** A view yields exactly the entities that have every required component and no excluded
      one, each once, in the order of the pool that drives it, whether a cached state, a group prefix
      or the smallest pool does. */
  method MatchingIndices<V>(r: Registry<V>, q: Query, state: Resolved<V>)
    returns (indices: seq<nat>, s: Resolved<V>, ghost driver: Option<nat>)
    requires r.Valid() && CacheOk(state, q, r.T()) && q.iter != []
    ensures AllDistinct(indices) && forall i: nat :: i in indices <==> Matches(r.Models(), q, i)
    ensures Drives(r.Models(), r.groups, q, s.group, driver)
    ensures if driver.None? then indices == [] else
              driver.value in r.pools && Rising(r.Models()[driver.value].rows, indices,
                                                |r.Models()[driver.value].rows|)
    ensures s.token == r.viewToken && CacheOk(s, q, r.T())
    ensures if state.token == r.viewToken then s == state else BestFor(q, r.T(), s.group)
  {
    hide Pool.Valid, Pool.M, Sound, RowsAlive, Matches, Current, Find, Drives, Rising, BestFor;
    s := RefreshState(r, q, state);
    var chosen, n := DriverOf(r, q, s);
    driver := chosen;
    indices := [];
    if chosen.None? {
      return;
    }
    indices := CollectMatches(r, q, s, chosen.value, n);
    PassIsExact(r.W(), q, chosen.value, n);
    PassRises(r.W(), q, chosen.value, n);
  }

  lemma PassRises<V>(w: World<V>, q: Query, driver: nat, n: nat)
    requires Sound(w) && driver in w.pools && n <= |w.pools[driver].rows|
    ensures Rising(w.pools[driver].rows, MatchesBelow(w.pools, q, w.pools[driver].rows, n), |w.pools[driver].rows|)
  {
    hide Sound, Matches, MatchesBelow;
    SoundRows(w);
    MatchesBelowRise(w.pools, q, w.pools[driver].rows, n);
  }

  /** Entities in the order of their rows. */
  ghost predicate Rising<V>(rows: seq<Row<V>>, r: seq<nat>, n: nat) {
    && (forall k :: 0 <= k < |r| ==> Find(rows, r[k]) < n)
    && (forall a, b :: 0 <= a < b < |r| ==> Find(rows, r[a]) < Find(rows, r[b]))
  }

  lemma RisingAppend<V>(rows: seq<Row<V>>, r: seq<nat>, n: nat)
    requires Rising(rows, r, n) && n < |rows| && Distinct(rows)
    ensures Rising(rows, r + [rows[n].index], n + 1) && Rising(rows, r, n + 1)
  {
    FindUnique(rows, n);
  }

  lemma {:induction false} MatchesBelowRise<V>(pools: Pools<V>, q: Query, rows: seq<Row<V>>, n: nat)
    requires n <= |rows| && Distinct(rows)
    ensures Rising(rows, MatchesBelow(pools, q, rows, n), n)
  {
    if n > 0 {
      hide Matches, Rising, Distinct, Find;
      MatchesBelowRise(pools, q, rows, n - 1);
      var shorter := MatchesBelow(pools, q, rows, n - 1);
      RisingAppend(rows, shorter, n - 1);
      assert shorter + [] == shorter;
    }
  }

  method CollectMatches<V>(r: Registry<V>, q: Query, s: Resolved<V>, driver: nat, n: nat) returns (indices: seq<nat>)
    requires r.PoolsOk() && Current(s, q, r.T()) && driver in r.pools && n <= |r.Models()[driver].rows|
    ensures indices == MatchesBelow(r.Models(), q, r.Models()[driver].rows, n)
  {
    hide Pool.Valid, Pool.M, Matches, Current, Find, Answers;
    indices := [];
    r.PoolSizes();
    for dense := 0 to n
      invariant indices == MatchesBelow(r.Models(), q, r.Models()[driver].rows, dense)
    {
      var i := r.pools[driver].dense[dense];
      CurrentAnswers(s, q, r.T(), r.Models(), i);
      var matches := ContainsAll(r, q, s, i);
      if matches {
        indices := indices + [i];
      }
    }
  }
}
