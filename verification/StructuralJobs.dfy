/** The structural job's reverse pass: it walks a pool from the back while each callback may add
    components to, and remove components from, the entity it is visiting. */
module StructuralJobs {
  import opened PoolModel
  import opened SparsePool
  import opened OwnedGroups
  import opened EntitySlots
  import opened Counting
  import opened RegistryModule
  import opened Views

  datatype StructOp<V> = AddOp(c: nat, v: V) | RemoveOp(c: nat)

  /** The part of the world the pass still has to see: the driver's rows below t are as they
      were, and only entity i may have gained or lost components. */
  ghost predicate Frozen<V>(before: Pools<V>, now: Pools<V>, driver: nat, t: nat, i: nat) {
    && driver in before && driver in now
    && SameStart(before[driver].rows, now[driver].rows, t)
    && (forall c, j :: j != i ==> (Contains(now, c, j) <==> Contains(before, c, j)))
  }

  /** The visited entity never lies below the unvisited rows. */
  lemma VisitedIsNotBelow<V>(before: Pools<V>, now: Pools<V>, driver: nat, t: nat, i: nat)
    requires Frozen(before, now, driver, t, i) && AllDistinctRows(before)
    requires t < |before[driver].rows| && before[driver].rows[t].index == i
    ensures Find(now[driver].rows, i) >= t
  {
    assert forall p :: 0 <= p < t ==> before[driver].rows[p].index == now[driver].rows[p].index;
  }

  lemma AddKeepsFrozen<V>(before: Pools<V>, w: World<V>, driver: nat, t: nat, c: nat, e: Entity, v: V)
    requires Sound(w) && w.depth > 0 && AllDistinctRows(before)
    requires Frozen(before, w.pools, driver, t, e.index)
    ensures c in w.owner ==> w.owner[c] < |w.groups|
    ensures Frozen(before, AddRow(w, c, e, v).pools, driver, t, e.index)
  {
    hide Sound, Base;
    SoundIsBase(w);
    OwnerInRange(w, c);
    SoundRows(w);
    var next := AddRow(w, c, e, v).pools;
    assert next == PutRow(w, c, e, v).pools;
    forall d, j | j != e.index ensures Contains(next, d, j) <==> Contains(before, d, j) {
      PutRowContains(w, c, e, v, d, j);
    }
  }

  lemma RemoveKeepsFrozen<V>(before: Pools<V>, w: World<V>, driver: nat, t: nat, c: nat, e: Entity)
    requires Sound(w) && AllDistinctRows(before)
    requires Frozen(before, w.pools, driver, t, e.index)
    requires t < |before[driver].rows| && before[driver].rows[t].index == e.index
    ensures c in w.owner ==> w.owner[c] < |w.groups|
    ensures Frozen(before, RemoveRow(w, c, e, false).pools, driver, t, e.index)
  {
    hide Sound, Base, RemoveRow, Frozen, SameStart;
    SoundIsBase(w);
    OwnerInRange(w, c);
    RemoveRowKeys(w, c, e, false);
    RemoveKeepsOthers(before, w, driver, t, c, e);
    VisitedIsNotBelow(before, w.pools, driver, t, e.index);
    FrozenStart(before, w.pools, driver, t, e.index);
    RemoveKeepsStart(w, driver, t, c, e);
    StartIsTransitive(before[driver].rows, w.pools[driver].rows, RemoveRow(w, c, e, false).pools[driver].rows, t);
    MakeFrozen(before, RemoveRow(w, c, e, false).pools, driver, t, e.index);
  }

  lemma FrozenStart<V>(before: Pools<V>, now: Pools<V>, driver: nat, t: nat, i: nat)
    requires Frozen(before, now, driver, t, i)
    ensures driver in before && driver in now && SameStart(before[driver].rows, now[driver].rows, t)
  {
  }

  lemma MakeFrozen<V>(before: Pools<V>, now: Pools<V>, driver: nat, t: nat, i: nat)
    requires driver in before && driver in now && SameStart(before[driver].rows, now[driver].rows, t)
    requires forall c, j :: j != i ==> (Contains(now, c, j) <==> Contains(before, c, j))
    ensures Frozen(before, now, driver, t, i)
  {
  }

  lemma StartIsTransitive<V>(a: seq<Row<V>>, b: seq<Row<V>>, c: seq<Row<V>>, t: nat)
    requires SameStart(a, b, t) && SameStart(b, c, t)
    ensures SameStart(a, c, t)
  {
  }

  lemma RemoveKeepsOthers<V>(before: Pools<V>, w: World<V>, driver: nat, t: nat, c: nat, e: Entity)
    requires Sound(w) && Frozen(before, w.pools, driver, t, e.index)
    ensures c in w.owner ==> w.owner[c] < |w.groups|
    ensures forall d, j :: j != e.index ==>
        (Contains(RemoveRow(w, c, e, false).pools, d, j) <==> Contains(before, d, j))
  {
    hide Sound, Base, RemoveRow, SameStart;
    SoundIsBase(w);
    OwnerInRange(w, c);
    RemoveRowKeys(w, c, e, false);
    var next := RemoveRow(w, c, e, false).pools;
    forall d, j | j != e.index ensures Contains(next, d, j) <==> Contains(before, d, j) {
      if d in w.pools { RemoveRowLookup(w, c, e, false, d, j); }
      assert Contains(next, d, j) <==> Contains(w.pools, d, j);
    }
  }

  /** Leaving a group and swapping out a row touch only positions from t on. */
  lemma RemoveKeepsStart<V>(w: World<V>, driver: nat, t: nat, c: nat, e: Entity)
    requires Sound(w) && driver in w.pools && t <= |w.pools[driver].rows| && t <= Find(w.pools[driver].rows, e.index)
    ensures c in w.owner ==> w.owner[c] < |w.groups|
    ensures driver in RemoveRow(w, c, e, false).pools
    ensures SameStart(w.pools[driver].rows, RemoveRow(w, c, e, false).pools[driver].rows, t)
  {
    hide Sound, Base, SameStart, AllDistinctRows;
    SoundIsBase(w);
    OwnerInRange(w, c);
    SoundRows(w);
    SameStartReflexive(w.pools[driver].rows, t);
    if Contains(w.pools, c, e.index) {
      var left := w;
      if c in w.owner {
        left := Leave(w, w.owner[c], e.index);
        LeaveKeepsStart(w, w.owner[c], driver, t, e.index);
        LeaveLookup(w, w.owner[c], e.index);
      }
      assert Lookup(left.pools[c], e.index) == Lookup(w.pools[c], e.index);
      if driver == c {
        RemoveFromTail(left.pools[c], e, t);
        StartIsTransitive(w.pools[driver].rows, left.pools[driver].rows, Remove(left.pools[c], e, false).rows, t);
      }
    }
  }

  lemma SameStartReflexive<V>(a: seq<Row<V>>, t: nat)
    requires t <= |a|
    ensures SameStart(a, a, t)
  {
  }

  lemma RemoveFromTail<V>(m: Model<V>, e: Entity, t: nat)
    requires t <= Find(m.rows, e.index) && t <= |m.rows|
    ensures SameStart(m.rows, Remove(m, e, false).rows, t)
  {
  }

  lemma LeaveKeepsStart<V>(w: World<V>, g: nat, driver: nat, t: nat, i: nat)
    requires Base(w) && g < |w.groups| && driver in w.pools && t <= |w.pools[driver].rows| &&
        t <= Find(w.pools[driver].rows, i)
    ensures var next := Leave(w, g, i).pools;
            && driver in next && SameStart(w.pools[driver].rows, next[driver].rows, t)
            && t <= Find(next[driver].rows, i) && t <= |next[driver].rows|
  {
    hide Base, AllDistinctRows, Aligned, MoveAll;
    BaseGroup(w, g);
    var group := w.groups[g];
    if InPrefix(w.pools, group, i) {
      MoveAllKeys(w.pools, group.owned, i, group.size - 1);
      if driver in group.owned {
        LeaveOnePool(w.pools, group, i, driver);
        DistinctPool(w.pools, driver);
        SwapFinds(w.pools[driver], Find(w.pools[driver].rows, i), group.size - 1, i);
      } else {
        MoveAllSkips(w.pools, group.owned, i, group.size - 1, driver);
      }
    }
  }

  lemma DistinctPool<V>(pools: Pools<V>, c: nat)
    requires AllDistinctRows(pools) && c in pools
    ensures Distinct(pools[c].rows)
  {
  }

  lemma MoveAllSkips<V>(pools: Pools<V>, owned: seq<nat>, i: nat, target: nat, c: nat)
    requires c in pools && c !in owned
    ensures c in MoveAll(pools, owned, i, target) && MoveAll(pools, owned, i, target)[c] == pools[c]
  {
  }

  /** What the registry's own add and remove do to the world, one call after the other. */
  ghost function OpStep<V>(w: World<V>, e: Entity, op: StructOp<V>): (r: World<V>)
    requires Sound(w)
    ensures Sound(r) && r.depth == w.depth
  {
    SoundIsBase(w);
    match op
    case AddOp(c, v) =>
      OwnerInRange(w, c);
      AddRowIsSound(w, c, e, v);
      AddRowDepth(w, c, e, v);
      AddRow(w, c, e, v)
    case RemoveOp(c) =>
      OwnerInRange(w, c);
      RemoveRowIsSound(w, c, e, false);
      RemoveRowKeys(w, c, e, false);
      RemoveRow(w, c, e, false)
  }

  ghost function RunOps<V>(w: World<V>, e: Entity, ops: seq<StructOp<V>>): (r: World<V>)
    requires Sound(w)
    ensures Sound(r) && r.depth == w.depth
  {
    if ops == [] then w else OpStep(RunOps(w, e, ops[..|ops| - 1]), e, ops[|ops| - 1])
  }

  /** The callbacks of the visited entities, in visiting order. */
  ghost function RunVisits<V>(w: World<V>, visited: seq<nat>, script: nat -> seq<StructOp<V>>,
      slots: seq<Entity>): (r: World<V>)
    requires Sound(w)
    ensures Sound(r) && r.depth == w.depth
  {
    if visited == [] then w
    else
      var before, i := RunVisits(w, visited[..|visited| - 1], script, slots), visited[|visited| - 1];
      if i < |slots| then RunOps(before, slots[i], script(i)) else before
  }

  lemma RunOpsMore<V>(w: World<V>, e: Entity, ops: seq<StructOp<V>>, k: nat)
    requires Sound(w) && k < |ops|
    ensures RunOps(w, e, ops[..k + 1]) == OpStep(RunOps(w, e, ops[..k]), e, ops[k])
  {
    hide OpStep, Sound;
    assert ops[..k + 1][..k] == ops[..k];
  }

  lemma RunVisitsMore<V>(w: World<V>, visited: seq<nat>, i: nat, script: nat -> seq<StructOp<V>>, slots: seq<Entity>)
    requires Sound(w) && i < |slots|
    ensures RunVisits(w, visited + [i], script, slots) ==
        RunOps(RunVisits(w, visited, script, slots), slots[i], script(i))
  {
    hide RunOps, Sound;
    assert (visited + [i])[..|visited|] == visited;
  }

  lemma RunNothing<V>(w: World<V>, e: Entity, script: nat -> seq<StructOp<V>>, slots: seq<Entity>)
    requires Sound(w)
    ensures RunOps(w, e, []) == w && RunVisits(w, [], script, slots) == w
  {
  }

  /** The callback of one visit: any sequence of adds and removes on the visited entity. */
  method RunCallback<V>(r: Registry<V>, e: Entity, ops: seq<StructOp<V>>, ghost driver: nat, ghost t: nat)
    requires r.Valid() && r.depth > 0 && driver in r.pools && Alive(r.store.slots, e)
    requires t < |r.Models()[driver].rows| && r.Models()[driver].rows[t].index == e.index
    modifies r, r.pools.Values
    ensures r.Valid() && r.depth == old(r.depth) && fresh(r.pools.Values - old(r.pools.Values))
    ensures Sound(old(r.W())) && r.W() == RunOps(old(r.W()), e, ops)
    ensures Frozen(old(r.Models()), r.Models(), driver, t, e.index)
    ensures Kept(old(r.T()), r.T()) && SamePools(old(r.pools), r.pools) && r.store.slots == old(r.store.slots)
  {
    hide Pool.Valid, Pool.M, Sound, RowsAlive, Frozen, Kept, SamePools, AddRow, RemoveRow, RunOps, OpStep,
        Registry.PoolsOk, WellLinked;
    ghost var before, start := r.Models(), r.W();
    FrozenAtStart(before, driver, t, e.index);
    SoundRows(r.W());
    KeptReflexive(r.T());
    SamePoolsReflexive(r.pools);
    RunNothing(start, e, _ => [], []);
    assert ops[..0] == [];
    for k := 0 to |ops|
      invariant r.Valid() && r.depth == old(r.depth) && fresh(r.pools.Values - old(r.pools.Values))
      invariant r.W() == RunOps(start, e, ops[..k]) && Frozen(before, r.Models(), driver, t, e.index)
      invariant Kept(old(r.T()), r.T()) && SamePools(old(r.pools), r.pools) && r.store.slots == old(r.store.slots)
    {
      RunOpsMore(start, e, ops, k);
      RunOp(r, e, ops[k], before, driver, t, old(r.T()));
    }
    assert ops[..|ops|] == ops;
  }

  method RunOp<V>(r: Registry<V>, e: Entity, op: StructOp<V>, ghost before: Pools<V>, ghost driver: nat, ghost t: nat,
      ghost start: Topology<V>)
    requires r.Valid() && r.depth > 0 && AllDistinctRows(before) && driver in before && Alive(r.store.slots, e)
    requires t < |before[driver].rows| && before[driver].rows[t].index == e.index
    requires Frozen(before, r.Models(), driver, t, e.index) && Kept(start, r.T()) && SamePools(start.pools, r.pools)
    modifies r, r.pools.Values
    ensures r.Valid() && r.depth == old(r.depth) && fresh(r.pools.Values - old(r.pools.Values))
    ensures Sound(old(r.W())) && r.W() == OpStep(old(r.W()), e, op)
    ensures Frozen(before, r.Models(), driver, t, e.index) && Kept(start, r.T()) && SamePools(start.pools, r.pools)
    ensures r.store.slots == old(r.store.slots)
  {
    hide Pool.Valid, Pool.M, Sound, RowsAlive, Frozen, Kept, SamePools, AddRow, RemoveRow, AllDistinctRows, Contains,
        WellLinked;
    match op
    case AddOp(c, v) =>
      AddKeepsFrozen(before, r.W(), driver, t, c, e, v);
      AddRowDepth(r.W(), c, e, v);
      var _ := r.AddComponent(e, c, v);
      KeptTransitive(start, old(r.T()), r.T());
      SamePoolsTransitive(start.pools, old(r.pools), r.pools);
    case RemoveOp(c) =>
      RemoveKeepsFrozen(before, r.W(), driver, t, c, e);
      RemoveRowKeys(r.W(), c, e, false);
      RemoveNothing(r.W(), c, e);
      var _ := r.RemoveComponent(e, c);
      KeptTransitive(start, old(r.T()), r.T());
  }

  lemma RemoveNothing<V>(w: World<V>, c: nat, e: Entity)
    requires Sound(w)
    ensures c in w.owner ==> w.owner[c] < |w.groups|
    ensures !Contains(w.pools, c, e.index) ==> RemoveRow(w, c, e, false) == w
  {
  }

  lemma AddRowDepth<V>(w: World<V>, c: nat, e: Entity, v: V)
    requires Sound(w)
    ensures c in w.owner ==> w.owner[c] < |w.groups|
    ensures AddRow(w, c, e, v).depth == w.depth
  {
  }

  lemma FrozenAtStart<V>(pools: Pools<V>, driver: nat, t: nat, i: nat)
    requires driver in pools && t <= |pools[driver].rows|
    ensures Frozen(pools, pools, driver, t, i)
  {
  }

  lemma KeptReflexive<V>(t: Topology<V>)
    ensures Kept(t, t)
  {
  }

  lemma SamePoolsReflexive<V>(a: map<nat, Pool<V>>)
    ensures SamePools(a, a)
  {
  }

  lemma SamePoolsTransitive<V>(a: map<nat, Pool<V>>, b: map<nat, Pool<V>>, c: map<nat, Pool<V>>)
    requires SamePools(a, b) && SamePools(b, c)
    ensures SamePools(a, c)
  {
  }

  /** What the pass still relies on when the driver's rows from t on have been walked: the rows
      below t, and the components of the entities in them, are as they were at the start. */
  ghost predicate Unseen<V>(before: Pools<V>, now: Pools<V>, driver: nat, t: nat) {
    && driver in before && driver in now
    && SameStart(before[driver].rows, now[driver].rows, t)
    && (forall c, p :: 0 <= p < t ==>
        (Contains(now, c, before[driver].rows[p].index) <==> Contains(before, c, before[driver].rows[p].index)))
  }

  lemma UnseenAfterVisit<V>(before: Pools<V>, middle: Pools<V>, now: Pools<V>, driver: nat, t: nat)
    requires Unseen(before, middle, driver, t + 1) && Distinct(before[driver].rows)
    requires Frozen(middle, now, driver, t, before[driver].rows[t].index)
    ensures Unseen(before, now, driver, t)
  {
    forall c, p | 0 <= p < t
      ensures Contains(now, c, before[driver].rows[p].index) <==> Contains(before, c, before[driver].rows[p].index)
    {
      assert before[driver].rows[p].index != before[driver].rows[t].index;
    }
  }

  lemma UnseenAfterSkip<V>(before: Pools<V>, now: Pools<V>, driver: nat, t: nat)
    requires Unseen(before, now, driver, t + 1)
    ensures Unseen(before, now, driver, t)
  {
  }

  /** The next entity to visit still matches exactly if it matched at the start. */
  lemma UnseenMatches<V>(before: Pools<V>, now: Pools<V>, q: Query, driver: nat, t: nat)
    requires Unseen(before, now, driver, t + 1)
    ensures driver in before && driver in now
    ensures t < |before[driver].rows| && t < |now[driver].rows|
    ensures now[driver].rows[t].index == before[driver].rows[t].index
    ensures Matches(now, q, before[driver].rows[t].index) <==> Matches(before, q, before[driver].rows[t].index)
  {
  }

  /** The cached storages answer for every unseen entity, refreshed or not. */
  ghost predicate Answering<V>(s: Resolved<V>, q: Query, live: map<nat, Pool<V>>, before: Pools<V>) {
    forall c :: c in Components(q) ==> if c in s.storages then c in live && s.storages[c] == live[c] else c !in before
  }

  lemma AnsweringAnswers<V>(s: Resolved<V>, q: Query, live: map<nat, Pool<V>>, before: Pools<V>, now: Pools<V>,
      driver: nat, t: nat)
    requires Answering(s, q, live, before) && Unseen(before, now, driver, t + 1)
    ensures t < |before[driver].rows| && Answers(s, q, live, now, before[driver].rows[t].index)
  {
    forall c | c in Components(q) && c !in s.storages ensures !Contains(now, c, before[driver].rows[t].index) {
      assert !Contains(before, c, before[driver].rows[t].index);
    }
  }

  lemma AnsweringStays<V>(s: Resolved<V>, q: Query, live: map<nat, Pool<V>>, later: map<nat, Pool<V>>, before: Pools<V>)
    requires Answering(s, q, live, before) && SamePools(live, later)
    ensures Answering(s, q, later, before)
  {
  }

  ghost function Reversed(s: seq<nat>): seq<nat> {
    if s == [] then [] else Reversed(s[1..]) + [s[0]]
  }

  lemma {:induction false} ReversedAppend(s: seq<nat>, x: nat)
    ensures Reversed(s + [x]) == [x] + Reversed(s)
  {
    if s == [] {
      assert [x][1..] == [];
    } else {
      assert (s + [x])[1..] == s[1..] + [x];
      ReversedAppend(s[1..], x);
    }
  }

  lemma {:induction false} ReversedMembers(s: seq<nat>)
    ensures |Reversed(s)| == |s| && forall x :: x in Reversed(s) <==> x in s
    ensures forall k :: 0 <= k < |s| ==> Reversed(s)[k] == s[|s| - 1 - k]
  {
    if s != [] {
      ReversedMembers(s[1..]);
      assert s == [s[0]] + s[1..];
    }
  }

  /** One step of the pass: the row at t is looked at, and perhaps visited. */
  method VisitDense<V>(r: Registry<V>, q: Query, s: Resolved<V>, script: nat -> seq<StructOp<V>>, driver: nat, t: nat,
                       ghost before: Pools<V>) returns (i: nat, matches: bool)
    requires r.Valid() && r.depth > 0 && AllDistinctRows(before) && driver in r.pools
    requires Unseen(before, r.Models(), driver, t + 1) && Answering(s, q, r.pools, before)
    modifies r, r.pools.Values
    ensures r.Valid() && r.depth == old(r.depth) && fresh(r.pools.Values - old(r.pools.Values)) &&
        r.store.slots == old(r.store.slots)
    ensures Sound(old(r.W())) && i < |r.store.slots|
    ensures r.W() == if matches then RunOps(old(r.W()), r.store.slots[i], script(i)) else old(r.W())
    ensures Unseen(before, r.Models(), driver, t) && Answering(s, q, r.pools, before) &&
        SamePools(old(r.pools), r.pools)
    ensures driver in r.pools && t < |before[driver].rows| && i == before[driver].rows[t].index &&
        matches == Matches(before, q, i)
  {
    hide Pool.Valid, Pool.M, Sound, Unseen, Answering, Answers, Matches, SamePools, Kept, AllDistinctRows, RowsAlive,
        Find, RunOps, WellLinked;
    AnsweringAnswers(s, q, r.pools, before, r.Models(), driver, t);
    UnseenMatches(before, r.Models(), q, driver, t);
    r.PoolSizes();
    i := r.pools[driver].dense[t];
    RowIsAlive(r.W(), r.store.slots, driver, t);
    matches := ContainsAll(r, q, s, i);
    SamePoolsReflexive(r.pools);
    if matches {
      Visit(r, i, script(i), driver, t, before);
      AnsweringStays(s, q, old(r.pools), r.pools, before);
    } else {
      UnseenAfterSkip(before, r.Models(), driver, t);
    }
  }

  method Visit<V>(r: Registry<V>, i: nat, ops: seq<StructOp<V>>, ghost driver: nat, ghost t: nat,
      ghost before: Pools<V>)
    requires r.Valid() && r.depth > 0 && AllDistinctRows(before) && driver in r.pools && driver in before
    requires t < |r.Models()[driver].rows| && r.Models()[driver].rows[t].index == i
    requires t < |before[driver].rows| && before[driver].rows[t].index == i
    requires Unseen(before, r.Models(), driver, t + 1)
    modifies r, r.pools.Values
    ensures r.Valid() && r.depth == old(r.depth) && fresh(r.pools.Values - old(r.pools.Values)) &&
        r.store.slots == old(r.store.slots)
    ensures Sound(old(r.W())) && i < |r.store.slots| && r.W() == RunOps(old(r.W()), r.store.slots[i], ops)
    ensures driver in r.pools && Unseen(before, r.Models(), driver, t) && SamePools(old(r.pools), r.pools)
  {
    hide Pool.Valid, Pool.M, Sound, Unseen, SamePools, Frozen, Kept, AllDistinctRows, RowsAlive, Find, RunOps,
        WellLinked;
    RowIsAlive(r.W(), r.store.slots, driver, t);
    ghost var middle := r.Models();
    RunCallback(r, r.store.slots[i], ops, driver, t);
    DistinctDriver(before, driver);
    UnseenAfterVisit(before, middle, r.Models(), driver, t);
    UnseenHasDriver(before, r.Models(), driver, t);
  }

  lemma UnseenHasDriver<V>(before: Pools<V>, now: Pools<V>, driver: nat, t: nat)
    requires Unseen(before, now, driver, t)
    ensures driver in now
  {
  }

  lemma UnseenAtStart<V>(pools: Pools<V>, driver: nat, n: nat)
    requires driver in pools && n <= |pools[driver].rows|
    ensures Unseen(pools, pools, driver, n)
  {
  }

  lemma DistinctDriver<V>(before: Pools<V>, driver: nat)
    requires AllDistinctRows(before)
    ensures driver in before ==> Distinct(before[driver].rows)
  {
  }

  lemma RowIsAlive<V>(w: World<V>, slots: seq<Entity>, c: nat, k: nat)
    requires Sound(w) && RowsAlive(w.pools, slots) && c in w.pools && k < |w.pools[c].rows|
    ensures var i := w.pools[c].rows[k].index; i < |slots| && slots[i].index == i && Alive(slots, slots[i])
  {
    SoundRows(w);
    FindAt(w.pools, c, k);
    assert Contains(w.pools, c, w.pools[c].rows[k].index);
  }

  lemma ReversedStep<V>(pools: Pools<V>, q: Query, rows: seq<Row<V>>, t: nat)
    requires t < |rows|
    ensures Reversed(MatchesBelow(pools, q, rows, t + 1))
         == (if Matches(pools, q, rows[t].index) then [rows[t].index] else []) +
             Reversed(MatchesBelow(pools, q, rows, t))
  {
    var shorter := MatchesBelow(pools, q, rows, t);
    if Matches(pools, q, rows[t].index) {
      ReversedAppend(shorter, rows[t].index);
    } else {
      assert MatchesBelow(pools, q, rows, t + 1) == shorter + [] == shorter;
    }
  }

  /** `visited` is the reverse pass from row n down to row t. */
  ghost predicate PassSoFar<V>(pools: Pools<V>, q: Query, driver: nat, n: nat, t: nat, visited: seq<nat>) {
    && driver in pools && t <= n <= |pools[driver].rows|
    && visited + Reversed(MatchesBelow(pools, q, pools[driver].rows, t)) ==
        Reversed(MatchesBelow(pools, q, pools[driver].rows, n))
  }

  lemma PassStarts<V>(pools: Pools<V>, q: Query, driver: nat, n: nat)
    requires driver in pools && n <= |pools[driver].rows|
    ensures PassSoFar(pools, q, driver, n, n, [])
  {
  }

  lemma PassAdvances<V>(pools: Pools<V>, q: Query, driver: nat, n: nat, t: nat, visited: seq<nat>)
    requires PassSoFar(pools, q, driver, n, t + 1, visited)
    ensures t < |pools[driver].rows|
    ensures var i := pools[driver].rows[t].index;
        PassSoFar(pools, q, driver, n, t, if Matches(pools, q, i) then visited + [i] else visited)
  {
    hide MatchesBelow, Reversed;
    var i := pools[driver].rows[t].index;
    ReversedStep(pools, q, pools[driver].rows, t);
    var tail := Reversed(MatchesBelow(pools, q, pools[driver].rows, t));
    assert visited + ([i] + tail) == visited + [i] + tail;
    assert visited + ([] + tail) == visited + tail;
  }

  method ReversePass<V>(r: Registry<V>, q: Query, s: Resolved<V>, script: nat -> seq<StructOp<V>>, driver: nat, n: nat)
    returns (visited: seq<nat>)
    requires r.Valid() && r.depth > 0 && driver in r.pools && n <= |r.Models()[driver].rows|
    requires Answering(s, q, r.pools, r.Models())
    modifies r, r.pools.Values
    ensures r.Valid() && r.depth == old(r.depth) && fresh(r.pools.Values - old(r.pools.Values)) &&
        r.store.slots == old(r.store.slots)
    ensures Sound(old(r.W())) && r.W() == RunVisits(old(r.W()), visited, script, r.store.slots)
    ensures PassSoFar(old(r.Models()), q, driver, n, 0, visited)
  {
    hide Pool.Valid, Pool.M, Sound, Unseen, Answering, Matches, SamePools, AllDistinctRows, RowsAlive, Find, PassSoFar,
        RunVisits, RunOps;
    hide Registry.PoolsOk, WellLinked;
    ghost var before, start, slots := r.Models(), r.W(), r.store.slots;
    SoundRows(r.W());
    UnseenAtStart(before, driver, n);
    PassStarts(before, q, driver, n);
    RunNothing(start, Entity(0, 0), script, slots);
    visited := [];
    var dense: nat := n;
    while dense > 0
      invariant r.Valid() && r.depth == old(r.depth) && fresh(r.pools.Values - old(r.pools.Values)) &&
          r.store.slots == slots
      invariant driver in r.pools && Unseen(before, r.Models(), driver, dense) && Answering(s, q, r.pools, before)
      invariant r.W() == RunVisits(start, visited, script, slots) && PassSoFar(before, q, driver, n, dense, visited)
    {
      dense := dense - 1;
      PassAdvances(before, q, driver, n, dense, visited);
      var i, matches := VisitDense(r, q, s, script, driver, dense, before);
      RunVisitsMore(start, visited, i, script, slots);
      if matches {
        visited := visited + [i];
      }
    }
  }

  lemma CurrentIsAnswering<V>(s: Resolved<V>, q: Query, t: Topology<V>, pools: Pools<V>)
    requires Current(s, q, t) && pools.Keys == t.pools.Keys
    ensures Answering(s, q, t.pools, pools)
  {
  }

  /** Visits came in strictly falling driver position, and were exactly the matches, each once. */
  lemma PassVisitsMatches<V>(w: World<V>, q: Query, driver: nat, visited: seq<nat>)
    requires AllDistinctRows(w.pools) && driver in w.pools
    requires forall i :: Matches(w.pools, q, i) ==> Find(w.pools[driver].rows, i) < |w.pools[driver].rows|
    requires PassSoFar(w.pools, q, driver, |w.pools[driver].rows|, 0, visited)
    ensures AllDistinct(visited) && forall i: nat :: i in visited <==> Matches(w.pools, q, i)
    ensures forall a, b :: 0 <= a < b < |visited| ==>
        Find(w.pools[driver].rows, visited[b]) < Find(w.pools[driver].rows, visited[a])
  {
    hide Matches;
    var rows := w.pools[driver].rows;
    DistinctDriver(w.pools, driver);
    var forwards := MatchesBelow(w.pools, q, rows, |rows|);
    MatchesBelowAre(w.pools, q, rows, |rows|);
    MatchesBelowRise(w.pools, q, rows, |rows|);
    ReversedMembers(forwards);
    assert visited == Reversed(forwards);
  }

  /** A whole job: open the deferral, run the callbacks, close the deferral. */
  ghost function JobEffect<V>(w: World<V>, visited: seq<nat>, script: nat -> seq<StructOp<V>>,
      slots: seq<Entity>): World<V>
    requires Sound(w)
  {
    BeginIsSound(w);
    var after := RunVisits(BeginDeferral(w), visited, script, slots);
    PendingInRange(after);
    EndDeferral(after)
  }

  /** Visited entities come from the back of the driver: the smallest required pool, the first of
      equals, since a deferral leaves groups aside. Without a driver nothing is visited. */
  ghost predicate Falling<V>(pools: Pools<V>, q: Query, driver: Option<nat>, visited: seq<nat>) {
    && Drives(pools, [], q, None, driver)
    && (visited != [] ==> driver.Some? && driver.value in pools)
    && (driver.Some? && driver.value in pools ==>
          forall a, b :: 0 <= a < b < |visited| ==>
              Find(pools[driver.value].rows, visited[b]) < Find(pools[driver.value].rows, visited[a]))
  }

  /** The view's reverse iteration while the deferral is open. */
  method EachReverse<V>(r: Registry<V>, q: Query, state: Resolved<V>, script: nat -> seq<StructOp<V>>)
    returns (visited: seq<nat>, ghost driver: Option<nat>)
    requires r.Valid() && r.depth > 0 && CacheOk(state, q, r.T()) && q.iter != []
    modifies r, r.pools.Values
    ensures r.Valid() && r.depth == old(r.depth) && fresh(r.pools.Values - old(r.pools.Values)) &&
        r.store.slots == old(r.store.slots)
    ensures Sound(old(r.W())) && r.W() == RunVisits(old(r.W()), visited, script, r.store.slots)
    ensures AllDistinct(visited) && forall i: nat :: i in visited <==> Matches(old(r.Models()), q, i)
    ensures Falling(old(r.Models()), q, driver, visited)
  {
    hide Pool.Valid, Pool.M, Sound, RowsAlive, Matches, Current, Answering, Kept, AllDistinctRows, MatchesBelow, Find,
        Reversed, PassSoFar, FirstSmallest;
    hide Registry.PoolsOk, WellLinked, RunVisits, RunOps;
    SoundRows(r.W());
    var s := RefreshState(r, q, state);
    NoGroupInDeferral(s, q, r.T());
    CurrentIsAnswering(s, q, r.T(), r.Models());
    var chosen, n := DriverOf(r, q, s);
    driver := chosen;
    visited := [];
    RunNothing(r.W(), Entity(0, 0), script, r.store.slots);
    if chosen.Some? {
      visited := ReversePass(r, q, s, script, chosen.value, n);
      PassVisitsMatches(old(r.W()), q, chosen.value, visited);
    }
  }

  /** A structural job sees exactly the entities that matched when it started, once each, from
      the back of its driver, whatever its callbacks do to the entity in hand; nothing but those
      callbacks happens; and when the deferral ends the groups are whole again. */
  method EachStructuralJob<V>(r: Registry<V>, q: Query, state: Resolved<V>, script: nat -> seq<StructOp<V>>)
    returns (visited: seq<nat>, ghost driver: Option<nat>)
    requires r.Valid() && CacheOk(state, q, r.T()) && q.iter != []
    modifies r, r.pools.Values
    ensures r.Valid() && r.depth == old(r.depth) && fresh(r.pools.Values - old(r.pools.Values)) &&
        r.store.slots == old(r.store.slots)
    ensures Sound(old(r.W())) && r.W() == JobEffect(old(r.W()), visited, script, r.store.slots)
    ensures AllDistinct(visited) && forall i: nat :: i in visited <==> Matches(old(r.Models()), q, i)
    ensures Falling(old(r.Models()), q, driver, visited)
  {
    hide Pool.Valid, Pool.M, Sound, RowsAlive, Matches, Current, Kept, Falling, Registry.PoolsOk, WellLinked,
        RunVisits, EndDeferral, BeginDeferral;
    ghost var before := r.W();
    DeferralFacts(before);
    r.BeginDeferredGroupEnters();
    CacheSurvives(state, q, old(r.T()), r.T());
    visited, driver := EachReverse(r, q, state, script);
    r.EndDeferredGroupEnters();
  }

  lemma DeferralFacts<V>(w: World<V>)
    requires Sound(w)
    ensures Sound(BeginDeferral(w)) && BeginDeferral(w).depth == w.depth + 1 && BeginDeferral(w).pools == w.pools
  {
    BeginIsSound(w);
  }

  lemma NoGroupInDeferral<V>(s: Resolved<V>, q: Query, t: Topology<V>)
    requires Current(s, q, t) && t.depth > 0
    ensures s.group.None?
  {
  }
}
