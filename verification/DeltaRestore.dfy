/** Restoring a delta: check the token, take the slots, drop destroyed entities everywhere, then
    replay each pool's removals and rows. It stops at the first thing that does not fit. */
module DeltaRestore {
  import opened PoolModel
  import opened SparsePool
  import opened PoolClone
  import opened OwnedGroups
  import opened EntitySlots
  import opened RegistryModule
  import opened DeltaReplay
  import opened SnapshotChain
  import opened Snapshots

  /** The tombstone list of a compact copy, position by position. */
  lemma {:induction false} ListedAt(indices: seq<nat>, flags: seq<Flags>, entities: seq<Entity>, n: nat)
    requires n <= |indices| == |flags| == |entities| && CompactTombs(indices, flags, entities)
    ensures forall i :: i in ListedTombs(indices, flags, entities, n) <==> i in indices[..n]
    ensures forall p :: 0 <= p < n ==>
              indices[p] in ListedTombs(indices, flags, entities, n)
              && ListedTombs(indices, flags, entities, n)[indices[p]] ==
                  Tomb(entities[p], flags[p].dirty, flags[p].destroy)
  {
    if n > 0 {
      ListedAt(indices, flags, entities, n - 1);
      assert indices[..n] == indices[..n - 1] + [indices[n - 1]];
    }
  }

  /** Tombstone p is a plain removal, which replay must find a row for. */
  predicate IsRemoval<V>(comp: Compact<V>, p: nat)
    requires p < |comp.tombFlags|
  {
    comp.tombFlags[p].dirty && !comp.tombFlags[p].destroy
  }

  ghost predicate RemovedBefore<V>(comp: Compact<V>, n: nat, i: nat)
    requires n <= |comp.tombIndices| == |comp.tombFlags|
  {
    exists p :: 0 <= p < n && comp.tombIndices[p] == i && IsRemoval(comp, p)
  }

  ghost predicate DestroyedBefore<V>(comp: Compact<V>, n: nat, i: nat)
    requires n <= |comp.tombIndices| == |comp.tombFlags|
  {
    exists p :: 0 <= p < n && comp.tombIndices[p] == i && comp.tombFlags[p].destroy
  }

  lemma TombAtListed<V>(s: Storages<V>, c: nat, i: nat)
    requires StoragesValid(s) && c in s
    ensures Removed(PoolsOf(s), c, i) <==> RemovedBefore(s[c], |s[c].tombIndices|, i)
    ensures DestroyTomb(PoolsOf(s), c, i) <==> DestroyedBefore(s[c], |s[c].tombIndices|, i)
  {
    var comp := s[c];
    ListedAt(comp.tombIndices, comp.tombFlags, comp.tombEntities, |comp.tombIndices|);
    assert comp.tombIndices[..|comp.tombIndices|] == comp.tombIndices;
    if TombAt(PoolsOf(s), c, i).Some? {
      var p :| 0 <= p < |comp.tombIndices| && comp.tombIndices[p] == i;
      assert IsRemoval(comp, p) <==> Removed(PoolsOf(s), c, i);
    }
  }

  ghost predicate Names(list: seq<Entity>, i: nat) { exists k :: 0 <= k < |list| && list[k].index == i }

  /** Destroyed entities of one pool, without repeating a handle. */
  method CollectFrom<V>(comp: Compact<V>, before: seq<Entity>) returns (list: seq<Entity>)
    requires CompactTombs(comp.tombIndices, comp.tombFlags, comp.tombEntities)
    requires forall k :: 0 <= k < |before| ==> before[k].index < NPOS
    ensures forall k :: 0 <= k < |list| ==> list[k].index < NPOS
    ensures forall i :: Names(list, i) <==> Names(before, i) || DestroyedBefore(comp, |comp.tombIndices|, i)
  {
    list := before;
    for p := 0 to |comp.tombIndices|
      invariant forall k :: 0 <= k < |list| ==> list[k].index < NPOS
      invariant forall i :: Names(list, i) <==> Names(before, i) || DestroyedBefore(comp, p, i)
    {
      ghost var sofar := list;
      var e := comp.tombEntities[p];
      if comp.tombFlags[p].destroy && e !in list {
        list := list + [e];
      }
      forall i ensures Names(list, i) <==> Names(before, i) || DestroyedBefore(comp, p + 1, i) {
        NamesStep(sofar, list, comp, p, i);
      }
    }
  }

  lemma NamesStep<V>(sofar: seq<Entity>, list: seq<Entity>, comp: Compact<V>, p: nat, i: nat)
    requires CompactTombs(comp.tombIndices, comp.tombFlags, comp.tombEntities) && p < |comp.tombIndices|
    requires list == if comp.tombFlags[p].destroy && comp.tombEntities[p] !in sofar then sofar + [comp.tombEntities[p]]
        else sofar
    ensures Names(list, i) <==> Names(sofar, i) || (comp.tombFlags[p].destroy && comp.tombIndices[p] == i)
    ensures DestroyedBefore(comp, p + 1, i) <==>
        DestroyedBefore(comp, p, i) || (comp.tombFlags[p].destroy && comp.tombIndices[p] == i)
  {
    if Names(sofar, i) {
      var k :| 0 <= k < |sofar| && sofar[k].index == i;
      assert list[k].index == i;
    }
    if comp.tombFlags[p].destroy && comp.tombIndices[p] == i {
      var k :| 0 <= k < |list| && list[k] == comp.tombEntities[p];
    }
  }

  method CollectDestroyed<V>(s: Storages<V>) returns (list: seq<Entity>)
    requires StoragesValid(s)
    ensures forall k :: 0 <= k < |list| ==> list[k].index < NPOS
    ensures forall i :: Names(list, i) <==> Gone(PoolsOf(s), i)
  {
    hide DestroyedBefore, Names, ModelOf, ListedTombs, DestroyTomb;
    list := [];
    var todo := s.Keys;
    assert forall i :: !Names(list, i) by { forall i ensures !Names([], i) { NoNames(i); } }
    while todo != {}
      invariant todo <= s.Keys && forall k :: 0 <= k < |list| ==> list[k].index < NPOS
      invariant forall i :: Names(list, i) <==> exists c: nat :: c in s.Keys - todo && DestroyTomb(PoolsOf(s), c, i)
      decreases todo
    {
      var c :| c in todo;
      list := CollectFrom(s[c], list);
      forall i { TombAtListed(s, c, i); }
      todo := todo - {c};
    }
    forall i
      ensures Gone(PoolsOf(s), i) <==> exists c: nat :: c in s && DestroyTomb(PoolsOf(s), c, i)
    {
      GoneIsListed(s, i);
    }
  }

  lemma NoNames(i: nat)
    ensures !Names([], i)
  {
  }

  lemma GoneIsListed<V>(s: Storages<V>, i: nat)
    requires StoragesValid(s)
    ensures Gone(PoolsOf(s), i) <==> exists c: nat :: c in s && DestroyTomb(PoolsOf(s), c, i)
  {
  }

  /** No step at all. */
  function Still<V>(a: Pools<V>): Work<V> { Work([a], []) }

  function Then<V>(w: Work<V>, b: Pools<V>, op: Edit<V>): Work<V> { Work(w.run + [b], w.ops + [op]) }

  function Join<V>(v: Work<V>, w: Work<V>): Work<V>
    requires w.run != []
  {
    Work(v.run + w.run[1..], v.ops + w.ops)
  }

  lemma StillLeads<V>(a: Pools<V>)
    ensures Leads(a, Still(a), a)
  {
    hide Edited;
  }

  lemma ThenLeads<V>(a: Pools<V>, w: Work<V>, b: Pools<V>, c: Pools<V>, op: Edit<V>)
    requires Leads(a, w, b) && Edited(b, c, op)
    ensures Leads(a, Then(w, c, op), c)
  {
    hide Edited;
  }

  lemma JoinLeads<V>(a: Pools<V>, v: Work<V>, b: Pools<V>, w: Work<V>, c: Pools<V>)
    requires Leads(a, v, b) && Leads(b, w, c)
    ensures w.run != [] && Leads(a, Join(v, w), c)
  {
    hide Edited;
    var all, n := Join(v, w), |v.ops|;
    forall k | 0 <= k < |all.ops| ensures Edited(all.run[k], all.run[k + 1], all.ops[k]) {
      if k >= n {
        assert Edited(w.run[k - n], w.run[k - n + 1], w.ops[k - n]);
        assert all.run[k] == w.run[k - n];
      } else {
        assert Edited(v.run[k], v.run[k + 1], v.ops[k]);
      }
    }
  }

  /** A registry that restores deltas may itself be a source: what its marks remembered of the way
      from a baseline, they still remember. */
  lemma LedTracks<V>(base: Pools<V>, a: Pools<V>, w: Work<V>, b: Pools<V>)
    requires Tracks(base, a) && Leads(a, w, b)
    ensures Tracks(base, b)
  {
    hide Tracks, Edited;
    RunTracks(base, w.run, w.ops);
  }

  /** Rows of the registry in terms of those it had: some indices dropped everywhere. */
  ghost predicate Lost<V>(before: Pools<V>, after: Pools<V>, gone: seq<Entity>) {
    forall c, i :: RowAt(after, c, i) == if Names(gone, i) then None else RowAt(before, c, i)
  }

  lemma LoseOneMore<V>(before: Pools<V>, mid: Pools<V>, after: Pools<V>, gone: seq<Entity>, e: Entity)
    requires Lost(before, mid, gone) && AllDistinctRows(after) && RowsKilled(mid, after, Holders(mid, e.index), e)
    ensures Lost(before, after, gone + [e]) && Edited(mid, after, Kill(e))
  {
    hide RowsKilled, Holders, RowAt, AllDistinctRows;
    DestroyIsKill(mid, after, e);
    forall c, i ensures RowAt(after, c, i) == if Names(gone + [e], i) then None else RowAt(before, c, i) {
      NamesMore(gone, e, i);
      assert RowAt(mid, c, i) == if Names(gone, i) then None else RowAt(before, c, i);
    }
  }

  lemma NamesMore(gone: seq<Entity>, e: Entity, i: nat)
    ensures Names(gone + [e], i) <==> Names(gone, i) || e.index == i
  {
    if Names(gone, i) {
      var k :| 0 <= k < |gone| && gone[k].index == i;
      assert (gone + [e])[k].index == i;
    }
    if e.index == i { assert (gone + [e])[|gone|].index == i; }
  }

  method DropDestroyed<V>(r: Registry<V>, gone: seq<Entity>) returns (ghost work: Work<V>)
    requires Ready(r) && forall k :: 0 <= k < |gone| ==> gone[k].index < NPOS
    modifies r`groups, r.pools.Values
    ensures Ready(r) && Lost(old(r.Models()), r.Models(), gone) && Leads(old(r.Models()), work, r.Models())
    ensures SameOwned(old(r.groups), r.groups)
  {
    hide Pool.Valid, Pool.M, Sound, RowsKilled, Holders, Lost, EntityStore.Valid, Leads, Edited;
    NothingLost(r.Models());
    StillLeads(r.Models());
    work := Still(r.Models());
    assert gone[..0] == [];
    for k := 0 to |gone|
      invariant Ready(r) && Lost(old(r.Models()), r.Models(), gone[..k]) && Leads(old(r.Models()), work, r.Models())
      invariant SameOwned(old(r.groups), r.groups)
    {
      ghost var before := r.Models();
      r.DestroyRows(gone[k]);
      SoundRows(r.W());
      LoseOneMore(old(r.Models()), before, r.Models(), gone[..k], gone[k]);
      ThenLeads(old(r.Models()), work, before, r.Models(), Kill(gone[k]));
      work := Then(work, r.Models(), Kill(gone[k]));
      assert gone[..k + 1] == gone[..k] + [gone[k]];
    }
    assert gone[..|gone|] == gone;
  }

  lemma NothingLost<V>(pools: Pools<V>)
    ensures Lost(pools, pools, [])
  {
  }

  /** Rows after the first n tombstones of a compact copy were replayed on pool c. */
  ghost predicate Dropped<V>(before: Pools<V>, after: Pools<V>, c: nat, comp: Compact<V>, n: nat)
    requires n <= |comp.tombIndices| == |comp.tombFlags|
  {
    forall d, i :: RowAt(after, d, i) == if d == c && RemovedBefore(comp, n, i) then None else RowAt(before, d, i)
  }

  lemma DropOneMore<V>(before: Pools<V>, mid: Pools<V>, after: Pools<V>, c: nat, comp: Compact<V>, n: nat)
    requires n < |comp.tombIndices| == |comp.tombFlags| == |comp.tombEntities| && Dropped(before, mid, c, comp, n)
    requires CompactTombs(comp.tombIndices, comp.tombFlags, comp.tombEntities)
    requires if IsRemoval(comp, n) then Edited(mid, after, Take(c, comp.tombEntities[n])) else after == mid
    ensures Dropped(before, after, c, comp, n + 1)
  {
    hide RowAt, TombAt, AllDistinctRows;
    forall d, i
      ensures RowAt(after, d, i) == if d == c && RemovedBefore(comp, n + 1, i) then None else RowAt(before, d, i)
    {
      RemovedStep(comp, n, i);
      assert RowAt(mid, d, i) == if d == c && RemovedBefore(comp, n, i) then None else RowAt(before, d, i);
      if IsRemoval(comp, n) { assert RowAt(after, d, i) == RowAfter(mid, Take(c, comp.tombEntities[n]), d, i); }
    }
  }

  lemma RemovedStep<V>(comp: Compact<V>, n: nat, i: nat)
    requires n < |comp.tombIndices| == |comp.tombFlags|
    ensures RemovedBefore(comp, n + 1, i) <==>
        RemovedBefore(comp, n, i) || (IsRemoval(comp, n) && comp.tombIndices[n] == i)
  {
  }

  /** Every plain removal finds its row. */
  ghost predicate RemovalsFit<V>(pools: Pools<V>, c: nat, comp: Compact<V>, n: nat)
    requires n <= |comp.tombIndices| == |comp.tombFlags|
  {
    forall p :: 0 <= p < n && IsRemoval(comp, p) ==> ValueAt(pools, c, comp.tombIndices[p]).Some?
  }

  /** Each index is removed at most once, so whether a removal fits does not depend on the others. */
  lemma FitIsIndependent<V>(before: Pools<V>, mid: Pools<V>, c: nat, comp: Compact<V>, n: nat)
    requires n < |comp.tombIndices| == |comp.tombFlags| && Dropped(before, mid, c, comp, n)
    requires CompactTombs(comp.tombIndices, comp.tombFlags, comp.tombEntities)
    ensures ValueAt(mid, c, comp.tombIndices[n]) == ValueAt(before, c, comp.tombIndices[n])
    ensures RemovalsFit(before, c, comp, n + 1) <==>
            RemovalsFit(before, c, comp, n) && (IsRemoval(comp, n) ==> ValueAt(before, c, comp.tombIndices[n]).Some?)
  {
    assert !RemovedBefore(comp, n, comp.tombIndices[n]);
  }

  lemma NothingDropped<V>(pools: Pools<V>, c: nat, comp: Compact<V>)
    requires |comp.tombIndices| == |comp.tombFlags|
    ensures Dropped(pools, pools, c, comp, 0) && RemovalsFit(pools, c, comp, 0)
  {
  }

  lemma MisfitStays<V>(pools: Pools<V>, c: nat, comp: Compact<V>, n: nat)
    requires n < |comp.tombIndices| == |comp.tombFlags| && IsRemoval(comp, n)
    requires ValueAt(pools, c, comp.tombIndices[n]).None?
    ensures !RemovalsFit(pools, c, comp, |comp.tombIndices|)
  {
  }

  lemma ContainsIsValue<V>(pools: Pools<V>, c: nat, i: nat)
    ensures Contains(pools, c, i) <==> ValueAt(pools, c, i).Some?
  {
  }

  /** `done` counts the tombstones replayed before the first misfit. */
  method ReplayRemovals<V>(r: Registry<V>, c: nat, comp: Compact<V>) returns (ok: bool, ghost done: nat,
      ghost work: Work<V>)
    requires Ready(r) && CompactTombs(comp.tombIndices, comp.tombFlags, comp.tombEntities)
    modifies r`groups, r.pools.Values
    ensures Ready(r) && ok == RemovalsFit(old(r.Models()), c, comp, |comp.tombIndices|)
    ensures done <= |comp.tombIndices| && (ok ==> done == |comp.tombIndices|)
    ensures Dropped(old(r.Models()), r.Models(), c, comp, done) && Leads(old(r.Models()), work, r.Models())
    ensures SameOwned(old(r.groups), r.groups)
  {
    hide Pool.Valid, Pool.M, Sound, Base, RemoveRow, ValueAt, Contains, Dropped, RemovalsFit, Edited, EntityStore.Valid,
        Leads;
    ghost var before := r.Models();
    StillLeads(before);
    work := Still(before);
    NothingDropped(before, c, comp);
    for p := 0 to |comp.tombIndices|
      invariant Ready(r) && Dropped(before, r.Models(), c, comp, p) && RemovalsFit(before, c, comp, p)
      invariant Leads(before, work, r.Models()) && SameOwned(old(r.groups), r.groups)
    {
      ghost var mid := r.Models();
      FitIsIndependent(before, mid, c, comp, p);
      if IsRemoval(comp, p) {
        ContainsIsValue(mid, c, comp.tombIndices[p]);
        var has := r.ContainsIndex(c, comp.tombIndices[p]);
        if !has {
          MisfitStays(before, c, comp, p);
          return false, p, work;
        }
        RemoveOne(r, comp.tombEntities[p], c);
        ThenLeads(before, work, mid, r.Models(), Take(c, comp.tombEntities[p]));
        work := Then(work, r.Models(), Take(c, comp.tombEntities[p]));
      }
      DropOneMore(before, mid, r.Models(), c, comp, p);
    }
    return true, |comp.tombIndices|, work;
  }

  method RemoveOne<V>(r: Registry<V>, e: Entity, c: nat)
    requires Ready(r) && Contains(r.Models(), c, e.index) && e.index < NPOS
    modifies r`groups, r.pools.Values
    ensures Ready(r) && Edited(old(r.Models()), r.Models(), Take(c, e)) && SameOwned(old(r.groups), r.groups)
  {
    hide Pool.Valid, Pool.M, Sound, Base, RemoveRow, Contains, Edited, EntityStore.Valid;
    RemoveIsDrop(r.W(), c, e);
    RemoveRowIsSound(r.W(), c, e, false);
    RemoveRowKeys(r.W(), c, e, false);
    r.RemoveRowFrom(e, c, false);
  }

  /** A row a registry has after it was set to a value: marked dirty, and added if it is new. */
  function Received<V>(before: Option<Row<V>>, i: nat, v: V): Row<V> {
    Row(i, v, true, if before.Some? then before.value.added else true)
  }

  /** Rows after the first n rows of a compact copy were replayed on pool c. */
  ghost predicate Taken<V>(before: Pools<V>, after: Pools<V>, c: nat, rows: seq<Row<V>>) {
    forall d, i ::
        RowAt(after, d, i) ==
        if d == c && Find(rows, i) < |rows| then Some(Received(RowAt(before, d, i), i, rows[Find(rows, i)].value))
        else RowAt(before, d, i)
  }

  lemma TakeOneMore<V>(before: Pools<V>, mid: Pools<V>, after: Pools<V>, c: nat, rows: seq<Row<V>>, x: Row<V>,
      e: Entity)
    requires Taken(before, mid, c, rows) && Distinct(rows) && Find(rows, x.index) == |rows|
    requires e.index == x.index && Edited(mid, after, Put(c, e, x.value))
    ensures Taken(before, after, c, rows + [x])
  {
    hide RowAt, TombAt, AllDistinctRows, Find;
    forall d, i
      ensures RowAt(after, d, i) ==
          if d == c && Find(rows + [x], i) < |rows + [x]|
          then Some(Received(RowAt(before, d, i), i, (rows + [x])[Find(rows + [x], i)].value))
          else RowAt(before, d, i)
    {
      AppendFinds(rows, x, i);
      assert RowAt(mid, d, i) ==
          if d == c && Find(rows, i) < |rows| then Some(Received(RowAt(before, d, i), i, rows[Find(rows, i)].value))
          else RowAt(before, d, i);
      assert RowAt(after, d, i) == RowAfter(mid, Put(c, e, x.value), d, i);
    }
  }

  lemma NothingTaken<V>(pools: Pools<V>, c: nat)
    ensures Taken(pools, pools, c, [])
  {
  }

  /** Every listed row belongs to a live slot. */
  ghost predicate RowsFit(dense: seq<nat>, slots: seq<Entity>) {
    forall k :: 0 <= k < |dense| ==> dense[k] < |slots| && AliveAt(slots, dense[k])
  }

  lemma OwnIndexIsAlive(store: EntityStore, i: nat)
    requires store.Valid() && i < |store.slots|
    ensures store.slots[i].index == i <==> AliveAt(store.slots, i)
  {
    var free :| FreeList(store.S(), free);
  }

  lemma PrefixRows<V>(comp: Compact<V>, k: nat)
    requires CompactValid(comp) && k < |comp.dense|
    ensures var rows := ModelOf(comp).rows;
            && |rows| == |comp.dense| && Distinct(rows[..k]) && Find(rows[..k], rows[k].index) == k
            && rows[k].index == comp.dense[k] && rows[k].value == comp.values[k] &&
                rows[..k + 1] == rows[..k] + [rows[k]]
  {
    var rows := ModelOf(comp).rows;
    assert Distinct(rows);
  }

  /** `done` counts the rows replayed before the first one without a live slot. */
  method ReplayRows<V>(r: Registry<V>, c: nat, comp: Compact<V>) returns (ok: bool, ghost done: nat,
      ghost work: Work<V>)
    requires Ready(r) && CompactValid(comp)
    modifies r`pools, r`groups, r`pending, r`viewToken, r.pools.Values
    ensures Ready(r) && fresh(r.pools.Values - old(r.pools.Values)) && r.viewToken >= old(r.viewToken) &&
        ok == RowsFit(comp.dense, r.store.slots)
    ensures done <= |ModelOf(comp).rows| && (ok ==> done == |ModelOf(comp).rows|)
    ensures Taken(old(r.Models()), r.Models(), c, ModelOf(comp).rows[..done]) &&
        Leads(old(r.Models()), work, r.Models())
    ensures SameOwned(old(r.groups), r.groups)
  {
    hide Pool.Valid, Pool.M, Sound, Base, AddRow, Taken, Edited, CompactValid, EntityStore.Valid, ModelOf, Leads;
    ghost var before, rows := r.Models(), ModelOf(comp).rows;
    StillLeads(before);
    work := Still(before);
    CompactRows(comp);
    NothingTaken(before, c);
    assert rows[..0] == [];
    for k := 0 to |comp.dense|
      invariant Ready(r) && fresh(r.pools.Values - old(r.pools.Values)) && r.viewToken >= old(r.viewToken)
      invariant Taken(before, r.Models(), c, rows[..k]) && RowsFit(comp.dense[..k], r.store.slots)
      invariant Leads(before, work, r.Models()) && SameOwned(old(r.groups), r.groups)
    {
      ghost var mid := r.Models();
      var i := comp.dense[k];
      if i >= |r.store.slots| || r.store.slots[i].index != i {
        return false, k, work;
      }
      OwnIndexIsAlive(r.store, i);
      PrefixRows(comp, k);
      PutOne(r, r.store.slots[i], c, comp.values[k]);
      TakeOneMore(before, mid, r.Models(), c, rows[..k], rows[k], r.store.slots[i]);
      ThenLeads(before, work, mid, r.Models(), Put(c, r.store.slots[i], comp.values[k]));
      work := Then(work, r.Models(), Put(c, r.store.slots[i], comp.values[k]));
      assert comp.dense[..k + 1] == comp.dense[..k] + [i];
    }
    assert rows[..|rows|] == rows && comp.dense[..|comp.dense|] == comp.dense;
    return true, |rows|, work;
  }

  lemma CompactRows<V>(comp: Compact<V>)
    requires CompactValid(comp)
    ensures |ModelOf(comp).rows| == |comp.dense| == |comp.values|
    ensures forall k :: 0 <= k < |comp.dense| ==> comp.dense[k] < NPOS
    ensures CompactTombs(comp.tombIndices, comp.tombFlags, comp.tombEntities)
  {
  }

  method PutOne<V>(r: Registry<V>, e: Entity, c: nat, v: V)
    requires Ready(r) && e.index < NPOS
    modifies r`pools, r`groups, r`pending, r`viewToken, r.pools.Values
    ensures Ready(r) && fresh(r.pools.Values - old(r.pools.Values)) && r.viewToken >= old(r.viewToken)
    ensures Edited(old(r.Models()), r.Models(), Put(c, e, v)) && SameOwned(old(r.groups), r.groups)
  {
    hide Pool.Valid, Pool.M, Sound, Base, Refresh, Edited, EntityStore.Valid, Emplace;
    PutRowIsBase(r.W(), c, e, v);
    RefreshOwned(PutRow(r.W(), c, e, v), e.index, c);
    AddIsPut(r.W(), c, e, v);
    AddRowIsSound(r.W(), c, e, v);
    r.InsertRow(e, c, v);
  }

  /** The row pool d has once its own part of the delta was replayed over `lost`. */
  function PoolRow<V>(lost: Pools<V>, delta: Pools<V>, d: nat, i: nat): Option<Row<V>> {
    var kept := if Removed(delta, d, i) then None else RowAt(lost, d, i);
    if ValueAt(delta, d, i).Some? then Some(Received(kept, i, ValueAt(delta, d, i).value)) else kept
  }

  /** The row replay leaves at (c, i): what the delta brings is marked, what it does not mention stays
      with its marks. */
  ghost function RowReplayed<V>(base: Pools<V>, delta: Pools<V>, c: nat, i: nat): Option<Row<V>> {
    var kept := if Gone(delta, i) || Removed(delta, c, i) then None else RowAt(base, c, i);
    if ValueAt(delta, c, i).Some? then Some(Received(kept, i, ValueAt(delta, c, i).value)) else kept
  }

  ghost predicate PoolDone<V>(before: Pools<V>, after: Pools<V>, delta: Pools<V>, c: nat) {
    forall d, i :: RowAt(after, d, i) == if d == c then PoolRow(before, delta, d, i) else RowAt(before, d, i)
  }

  lemma DroppedThenTaken<V>(before: Pools<V>, mid: Pools<V>, after: Pools<V>, s: Storages<V>, c: nat)
    requires StoragesValid(s) && c in s && CompactTombs(s[c].tombIndices, s[c].tombFlags, s[c].tombEntities)
    requires Dropped(before, mid, c, s[c], |s[c].tombIndices|) && Taken(mid, after, c, ModelOf(s[c]).rows)
    ensures PoolDone(before, after, PoolsOf(s), c)
  {
    hide CompactValid, ModelOf, RemovedBefore, Removed;
    forall d, i
      ensures RowAt(after, d, i) == if d == c then PoolRow(before, PoolsOf(s), d, i) else RowAt(before, d, i)
    {
      TombAtListed(s, c, i);
      assert RowAt(mid, d, i) == if d == c && RemovedBefore(s[c], |s[c].tombIndices|, i) then None
          else RowAt(before, d, i);
    }
  }

  /** A replay under way, or given up: every value is the one before, the one in the delta, or was
      dropped because the delta says so. */
  ghost predicate Between<V>(before: Pools<V>, after: Pools<V>, delta: Pools<V>) {
    forall c, i ::
      || ValueAt(after, c, i) == ValueAt(before, c, i)
      || (ValueAt(after, c, i).None? && (Removed(delta, c, i) || Gone(delta, i)))
      || (ValueAt(after, c, i) == ValueAt(delta, c, i) && ValueAt(delta, c, i).Some?)
  }

  lemma BetweenComposes<V>(before: Pools<V>, mid: Pools<V>, after: Pools<V>, delta: Pools<V>)
    requires Between(before, mid, delta) && Between(mid, after, delta)
    ensures Between(before, after, delta)
  {
    hide ValueAt, Removed, Gone;
    forall c, i
      ensures || ValueAt(after, c, i) == ValueAt(before, c, i)
              || (ValueAt(after, c, i).None? && (Removed(delta, c, i) || Gone(delta, i)))
              || (ValueAt(after, c, i) == ValueAt(delta, c, i) && ValueAt(delta, c, i).Some?)
    {
      assert ValueAt(mid, c, i) == ValueAt(mid, c, i);
    }
  }

  lemma DroppedIsBetween<V>(before: Pools<V>, after: Pools<V>, s: Storages<V>, c: nat, n: nat)
    requires StoragesValid(s) && c in s && CompactTombs(s[c].tombIndices, s[c].tombFlags, s[c].tombEntities)
    requires n <= |s[c].tombIndices| && Dropped(before, after, c, s[c], n)
    ensures Between(before, after, PoolsOf(s))
  {
    hide CompactValid, ModelOf, Removed, RowAt;
    forall i | RemovedBefore(s[c], n, i) ensures Removed(PoolsOf(s), c, i) {
      assert RemovedBefore(s[c], |s[c].tombIndices|, i);
      TombAtListed(s, c, i);
    }
    forall d, i
      ensures ValueAt(after, d, i) == ValueAt(before, d, i)
        || (ValueAt(after, d, i).None? && Removed(PoolsOf(s), d, i))
    {
      assert RowAt(after, d, i) == if d == c && RemovedBefore(s[c], n, i) then None else RowAt(before, d, i);
    }
  }

  lemma TakenIsBetween<V>(before: Pools<V>, after: Pools<V>, s: Storages<V>, c: nat, n: nat)
    requires StoragesValid(s) && c in s && n <= |ModelOf(s[c]).rows|
    requires Taken(before, after, c, ModelOf(s[c]).rows[..n])
    ensures Between(before, after, PoolsOf(s))
  {
    var rows := ModelOf(s[c]).rows;
    assert Distinct(rows);
    hide CompactValid, ModelOf, Removed;
    forall i | Find(rows[..n], i) < n ensures ValueAt(PoolsOf(s), c, i) == Some(rows[Find(rows[..n], i)].value) {
      FindUnique(rows, Find(rows[..n], i));
    }
  }

  lemma LostIsBetween<V>(before: Pools<V>, lost: Pools<V>, gone: seq<Entity>, delta: Pools<V>)
    requires Lost(before, lost, gone) && forall i :: Names(gone, i) <==> Gone(delta, i)
    ensures Between(before, lost, delta)
  {
    hide RowAt, Gone, Names, Removed;
    forall c, i
      ensures ValueAt(lost, c, i) == ValueAt(before, c, i) || (ValueAt(lost, c, i).None? && Gone(delta, i))
    {
      assert RowAt(lost, c, i) == if Names(gone, i) then None else RowAt(before, c, i);
    }
  }

  lemma BetweenSelf<V>(pools: Pools<V>, delta: Pools<V>)
    ensures Between(pools, pools, delta)
  {
  }

  ghost predicate PoolFits<V>(pools: Pools<V>, s: Storages<V>, c: nat, slots: seq<Entity>)
    requires StoragesValid(s) && c in s
  {
    && |s[c].tombIndices| == |s[c].tombFlags|
    && RemovalsFit(pools, c, s[c], |s[c].tombIndices|) && RowsFit(s[c].dense, slots)
  }

  method ReplayPool<V>(r: Registry<V>, s: Storages<V>, c: nat) returns (ok: bool, ghost work: Work<V>)
    requires Ready(r) && StoragesValid(s) && c in s
    modifies r`pools, r`groups, r`pending, r`viewToken, r.pools.Values
    ensures Ready(r) && fresh(r.pools.Values - old(r.pools.Values)) && r.viewToken >= old(r.viewToken) &&
        ok == PoolFits(old(r.Models()), s, c, r.store.slots)
    ensures ok ==> PoolDone(old(r.Models()), r.Models(), PoolsOf(s), c)
    ensures Between(old(r.Models()), r.Models(), PoolsOf(s)) && Leads(old(r.Models()), work, r.Models())
    ensures SameOwned(old(r.groups), r.groups)
  {
    hide Pool.Valid, Pool.M, Sound, Taken, Dropped, RemovalsFit, RowsFit, CompactValid, EntityStore.Valid, ModelOf,
        PoolDone, Between, Leads;
    CompactRows(s[c]);
    ghost var before := r.Models();
    ghost var done;
    ok, done, work := ReplayRemovals(r, c, s[c]);
    DroppedIsBetween(before, r.Models(), s, c, done);
    if ok {
      ghost var mid := r.Models();
      ghost var more;
      ok, done, more := ReplayRows(r, c, s[c]);
      TakenIsBetween(mid, r.Models(), s, c, done);
      BetweenComposes(before, mid, r.Models(), PoolsOf(s));
      JoinLeads(before, work, mid, more, r.Models());
      work := Join(work, more);
      if ok {
        assert ModelOf(s[c]).rows[..done] == ModelOf(s[c]).rows;
        DroppedThenTaken(before, mid, r.Models(), s, c);
      }
    }
  }

  /** The pools of `done` have been replayed. */
  ghost predicate ManyDone<V>(lost: Pools<V>, now: Pools<V>, delta: Pools<V>, done: set<nat>) {
    forall d, i :: RowAt(now, d, i) == if d in done then PoolRow(lost, delta, d, i) else RowAt(lost, d, i)
  }

  lemma OneMoreDone<V>(lost: Pools<V>, mid: Pools<V>, now: Pools<V>, delta: Pools<V>, done: set<nat>, c: nat)
    requires ManyDone(lost, mid, delta, done) && c !in done && PoolDone(mid, now, delta, c)
    ensures ManyDone(lost, now, delta, done + {c})
  {
    hide RowAt, Removed;
    forall d, i
      ensures RowAt(now, d, i) == if d in done + {c} then PoolRow(lost, delta, d, i) else RowAt(lost, d, i)
    {
      assert RowAt(mid, d, i) == if d in done then PoolRow(lost, delta, d, i) else RowAt(lost, d, i);
    }
  }

  lemma FitsUntouched<V>(lost: Pools<V>, mid: Pools<V>, delta: Pools<V>, done: set<nat>, s: Storages<V>, c: nat,
      slots: seq<Entity>)
    requires StoragesValid(s) && c in s && ManyDone(lost, mid, delta, done) && c !in done
    ensures PoolFits(mid, s, c, slots) <==> PoolFits(lost, s, c, slots)
  {
    hide CompactValid, RowAt, PoolRow;
    forall i ensures ValueAt(mid, c, i) == ValueAt(lost, c, i) { assert RowAt(mid, c, i) == RowAt(lost, c, i); }
  }

  lemma NoneDone<V>(lost: Pools<V>, delta: Pools<V>)
    ensures ManyDone(lost, lost, delta, {})
  {
  }

  /** The pools may come in any order: the first that does not fit stops the replay. */
  method ReplayPools<V>(r: Registry<V>, s: Storages<V>) returns (ok: bool, ghost work: Work<V>)
    requires Ready(r) && StoragesValid(s)
    modifies r`pools, r`groups, r`pending, r`viewToken, r.pools.Values
    ensures Ready(r) && fresh(r.pools.Values - old(r.pools.Values)) && r.viewToken >= old(r.viewToken)
    ensures ok == forall c :: c in s ==> PoolFits(old(r.Models()), s, c, r.store.slots)
    ensures ok ==> ManyDone(old(r.Models()), r.Models(), PoolsOf(s), s.Keys)
    ensures Between(old(r.Models()), r.Models(), PoolsOf(s)) && Leads(old(r.Models()), work, r.Models())
    ensures SameOwned(old(r.groups), r.groups)
  {
    hide Pool.Valid, Pool.M, Sound, CompactValid, EntityStore.Valid, ModelOf, PoolDone, ManyDone, PoolFits, Between,
        Leads;
    ghost var before := r.Models();
    StillLeads(before);
    work := Still(before);
    NoneDone(before, PoolsOf(s));
    BetweenSelf(before, PoolsOf(s));
    var todo := s.Keys;
    assert s.Keys - todo == {};
    while todo != {}
      invariant todo <= s.Keys && Ready(r) && fresh(r.pools.Values - old(r.pools.Values)) &&
          r.viewToken >= old(r.viewToken)
      invariant ManyDone(before, r.Models(), PoolsOf(s), s.Keys - todo) && Between(before, r.Models(), PoolsOf(s))
      invariant Leads(before, work, r.Models()) && SameOwned(old(r.groups), r.groups)
      invariant forall c :: c in s.Keys - todo ==> PoolFits(before, s, c, r.store.slots)
      decreases todo
    {
      var c :| c in todo;
      ghost var mid := r.Models();
      FitsUntouched(before, mid, PoolsOf(s), s.Keys - todo, s, c, r.store.slots);
      ghost var more;
      var fits;
      fits, more := ReplayPool(r, s, c);
      BetweenComposes(before, mid, r.Models(), PoolsOf(s));
      JoinLeads(before, work, mid, more, r.Models());
      work := Join(work, more);
      if !fits {
        return false, work;
      }
      OneMoreDone(before, mid, r.Models(), PoolsOf(s), s.Keys - todo, c);
      assert s.Keys - (todo - {c}) == s.Keys - todo + {c};
      todo := todo - {c};
    }
    assert s.Keys - todo == s.Keys;
    return true, work;
  }

  lemma LostIsGone<V>(before: Pools<V>, lost: Pools<V>, gone: seq<Entity>, delta: Pools<V>, c: nat, i: nat)
    requires Lost(before, lost, gone) && (Names(gone, i) <==> Gone(delta, i))
    ensures RowAt(lost, c, i) == if Gone(delta, i) then None else RowAt(before, c, i)
  {
  }

  lemma PoolFitsMeans<V>(before: Pools<V>, lost: Pools<V>, gone: seq<Entity>, s: Storages<V>, c: nat,
      slots: seq<Entity>)
    requires StoragesValid(s) && c in s && Lost(before, lost, gone)
    requires forall i :: Names(gone, i) <==> Gone(PoolsOf(s), i)
    ensures PoolFits(lost, s, c, slots) <==>
            (forall i :: !Unremovable(before, PoolsOf(s), c, i)) && RowsFit(s[c].dense, slots)
  {
    hide ModelOf, Lost, Names, Gone, RowAt, Removed, ListedTombs;
    CompactRows(s[c]);
    var comp, n := s[c], |s[c].tombIndices|;
    forall i ensures Unremovable(before, PoolsOf(s), c, i) <==> RemovedBefore(comp, n, i) && ValueAt(lost, c, i).None? {
      TombAtListed(s, c, i);
      LostIsGone(before, lost, gone, PoolsOf(s), c, i);
    }
    if !RemovalsFit(lost, c, comp, n) {
      var p :| 0 <= p < n && IsRemoval(comp, p) && ValueAt(lost, c, comp.tombIndices[p]).None?;
      assert RemovedBefore(comp, n, comp.tombIndices[p]);
    }
  }

  lemma RowsFitMeans<V>(s: Storages<V>, slots: seq<Entity>)
    requires StoragesValid(s)
    ensures RowsAlive(PoolsOf(s), slots) <==> forall c :: c in s ==> RowsFit(s[c].dense, slots)
  {
    hide CompactValid, ModelOf;
    forall c, i ensures Contains(PoolsOf(s), c, i) <==> c in s && i in s[c].dense {
      if c in s { CompactHas(s[c], i); }
    }
    if RowsAlive(PoolsOf(s), slots) {
      forall c, k | c in s && 0 <= k < |s[c].dense| ensures s[c].dense[k] < |slots| && AliveAt(slots, s[c].dense[k]) {
        assert Contains(PoolsOf(s), c, s[c].dense[k]);
      }
    }
  }

  lemma CompactHas<V>(comp: Compact<V>, i: nat)
    requires CompactValid(comp)
    ensures Has(ModelOf(comp), i) <==> i in comp.dense
  {
    var rows := ModelOf(comp).rows;
    if i in comp.dense {
      var k :| 0 <= k < |comp.dense| && comp.dense[k] == i;
      assert rows[k].index == i;
    }
  }

  lemma NeverUnremovable<V>(before: Pools<V>, s: Storages<V>, c: nat, i: nat)
    requires StoragesValid(s) && c !in s
    ensures !Unremovable(before, PoolsOf(s), c, i)
  {
  }

  lemma FitIsCanRestore<V>(t: State<V>, d: DeltaSnapshot<V>, lost: Pools<V>, gone: seq<Entity>, slots: seq<Entity>)
    requires StoragesValid(d.storages) && Lost(t.pools, lost, gone) && t.token == d.baselineToken
    requires forall i :: Names(gone, i) <==> Gone(PoolsOf(d.storages), i)
    requires slots == SlotsAfter(t, DeltaCapture(d))
    ensures (forall c :: c in d.storages ==> PoolFits(lost, d.storages, c, slots)) <==> CanRestore(t, DeltaCapture(d))
  {
    hide CompactValid, ModelOf, Lost, Names, Gone, PoolFits, RowsFit, RowsAlive, Unremovable, Relinked;
    var s := d.storages;
    RowsFitMeans(s, slots);
    forall c | c in s
      ensures PoolFits(lost, s, c, slots) <==>
          (forall i :: !Unremovable(t.pools, PoolsOf(s), c, i)) && RowsFit(s[c].dense, slots)
    {
      PoolFitsMeans(t.pools, lost, gone, s, c, slots);
    }
    forall c: nat, i | c !in s ensures !Unremovable(t.pools, PoolsOf(s), c, i) { NeverUnremovable(t.pools, s, c, i); }
  }

  lemma DoneIsReplayed<V>(t: State<V>, d: DeltaSnapshot<V>, lost: Pools<V>, gone: seq<Entity>, now: Pools<V>)
    requires StoragesValid(d.storages) && Lost(t.pools, lost, gone)
    requires forall i :: Names(gone, i) <==> Gone(PoolsOf(d.storages), i)
    requires ManyDone(lost, now, PoolsOf(d.storages), d.storages.Keys)
    requires CanRestore(t, DeltaCapture(d))
    ensures RestoresTo(t, DeltaCapture(d), State(now, SlotsAfter(t, DeltaCapture(d)), d.stateToken))
    ensures RowsReplayed(t.pools, now, PoolsOf(d.storages))
  {
    hide CompactValid, ModelOf, Lost, Names, Gone, CanRestore, SlotsAfter;
    forall c, i
      ensures RowAt(now, c, i) == RowReplayed(t.pools, PoolsOf(d.storages), c, i)
      ensures ValueAt(now, c, i) == Replayed(t.pools, PoolsOf(d.storages), c, i)
    {
      LostIsGone(t.pools, lost, gone, PoolsOf(d.storages), c, i);
      assert RowAt(now, c, i) == if c in d.storages.Keys then PoolRow(lost, PoolsOf(d.storages), c, i)
          else RowAt(lost, c, i);
    }
  }

  ghost predicate RowsReplayed<V>(base: Pools<V>, now: Pools<V>, delta: Pools<V>) {
    forall c, i :: RowAt(now, c, i) == RowReplayed(base, delta, c, i)
  }

  /** The slots are in place: drop what was destroyed, then replay pool by pool. */
  method Replay<V>(r: Registry<V>, d: DeltaSnapshot<V>, ghost t: State<V>) returns (ok: bool, ghost work: Work<V>)
    requires Ready(r) && StoragesValid(d.storages) && t.pools == r.Models() && t.token == d.baselineToken
    requires r.store.slots == SlotsAfter(t, DeltaCapture(d))
    modifies r`pools, r`groups, r`pending, r`viewToken, r.pools.Values
    ensures Ready(r) && fresh(r.pools.Values - old(r.pools.Values)) && r.viewToken >= old(r.viewToken)
    ensures ok == CanRestore(t, DeltaCapture(d))
    ensures ok ==> RestoresTo(t, DeltaCapture(d), State(r.Models(), r.store.slots, d.stateToken))
    ensures ok ==> RowsReplayed(t.pools, r.Models(), PoolsOf(d.storages))
    ensures Between(t.pools, r.Models(), PoolsOf(d.storages)) && Leads(t.pools, work, r.Models())
    ensures SameOwned(old(r.groups), r.groups)
  {
    hide Pool.Valid, Pool.M, Sound, CompactValid, ModelOf, ManyDone, PoolFits, Lost, Names, Gone, CanRestore,
        RestoresTo, SlotsAfter,
         EntityStore.Valid, DeltaCapture, Between, Leads, RowsReplayed;
    var gone := CollectDestroyed(d.storages);
    work := DropDestroyed(r, gone);
    ghost var lost := r.Models();
    FitIsCanRestore(t, d, lost, gone, r.store.slots);
    LostIsBetween(t.pools, lost, gone, PoolsOf(d.storages));
    ghost var more;
    ok, more := ReplayPools(r, d.storages);
    BetweenComposes(t.pools, lost, r.Models(), PoolsOf(d.storages));
    JoinLeads(t.pools, work, lost, more, r.Models());
    work := Join(work, more);
    if ok {
      DoneIsReplayed(t, d, lost, gone, r.Models());
    }
  }

  /** In the delta's own terms: it goes through exactly when the token matches, every plain removal
      finds its row and does not share its index with a destroyed entity, and every row has a live slot
      in the slot array the delta brings, or else in the target's own. */
  lemma CanRestoreMeans<V>(t: State<V>, d: DeltaSnapshot<V>)
    requires StoragesValid(d.storages)
    ensures var delta := PoolsOf(d.storages);
            CanRestore(t, DeltaCapture(d)) <==>
            && t.token == d.baselineToken
            && (forall c: nat, i: nat | TombAt(delta, c, i).Some? ::
                  var tomb := TombAt(delta, c, i).value;
                  tomb.dirty && !tomb.destroy ==> RemovalIsFirst(t.pools, delta, c, i))
            && (forall c: nat, i: nat :: Contains(delta, c, i) ==>
                  var slots := if d.hasEntities then Relinked(d.entities) else t.slots;
                  i < |slots| && slots[i].index == i && slots[i].version != 0)
  {
    hide ModelOf, CompactValid, Relinked, ValueAt;
    var delta := PoolsOf(d.storages);
    forall c: nat, i: nat | Removed(delta, c, i)
      ensures RemovalIsFirst(t.pools, delta, c, i) <==> !Unremovable(t.pools, delta, c, i)
    {
      assert Gone(delta, i) <==> exists b: nat :: TombAt(delta, b, i).Some? && TombAt(delta, b, i).value.destroy by {
        if b: nat :| TombAt(delta, b, i).Some? && TombAt(delta, b, i).value.destroy {
          assert DestroyTomb(delta, b, i);
        }
      }
    }
  }

  /** The target has a row for the removal, and the delta does not destroy an entity with this index. */
  ghost predicate RemovalIsFirst<V>(target: Pools<V>, delta: Pools<V>, c: nat, i: nat) {
    && ValueAt(target, c, i).Some?
    && forall b: nat :: TombAt(delta, b, i).Some? ==> !TombAt(delta, b, i).value.destroy
  }

  /** Whether it returns normally is decided by the state before the call; if it does, the target
      has exactly the replayed values. A delta for another state changes nothing. One that stops at a
      misfit has brought its slots and leaves the groups whole, the token as it was, and every value
      as it was, as the delta has it, or dropped on the delta's word. */
  method RestoreDelta<V>(r: Registry<V>, d: DeltaSnapshot<V>) returns (ok: bool, ghost work: Work<V>)
    requires Ready(r) && StoragesValid(d.storages) && (d.hasEntities ==> RawSlots(d.entities))
    modifies r, r.store, r.pools.Values
    ensures Ready(r) && fresh(r.pools.Values - old(r.pools.Values)) &&
        ok == CanRestore(old(StateOf(r)), DeltaCapture(d))
    ensures ok ==> RestoresTo(old(StateOf(r)), DeltaCapture(d), StateOf(r)) && r.viewToken > old(r.viewToken)
    ensures r.stateToken == if ok then d.stateToken else old(r.stateToken)
    ensures old(r.stateToken) != d.baselineToken ==>
              !ok && r.W() == old(r.W()) && r.store.S() == old(r.store.S()) && r.pools == old(r.pools) &&
              r.viewToken == old(r.viewToken)
    ensures old(r.stateToken) == d.baselineToken ==>
              r.store.slots == if d.hasEntities then Relinked(d.entities) else old(r.store.slots)
    ensures ok ==> RowsReplayed(old(r.Models()), r.Models(), PoolsOf(d.storages))
    ensures Between(old(r.Models()), r.Models(), PoolsOf(d.storages)) && Leads(old(r.Models()), work, r.Models())
    ensures SameOwned(old(r.groups), r.groups) && r.owner == old(r.owner)
  {
    hide Pool.Valid, Pool.M, Sound, StoragesValid, PoolsOf, CanRestore, RestoresTo, SlotsAfter, WellLinked, RawSlots,
        Between, Leads, RowsReplayed, Relinked;
    ghost var t := StateOf(r);
    StillLeads(t.pools);
    work := Still(t.pools);
    BetweenSelf(t.pools, PoolsOf(d.storages));
    if r.stateToken != d.baselineToken {
      TokenMustMatch(t, DeltaCapture(d));
      return false, work;
    }
    TakeSlots(r, d);
    ok, work := Replay(r, d, t);
    if ok {
      r.stateToken := d.stateToken;
      r.viewToken := r.viewToken + 1;
    }
  }

  lemma TokenMustMatch<V>(t: State<V>, c: Capture<V>)
    requires c.Delta? && t.token != c.base
    ensures !CanRestore(t, c)
  {
  }

  method TakeSlots<V>(r: Registry<V>, d: DeltaSnapshot<V>)
    requires r.store.Valid() && r.PoolsOk() && StoragesValid(d.storages) && (d.hasEntities ==> RawSlots(d.entities))
    modifies r.store
    ensures r.store.Valid() && r.store.slots == SlotsAfter(old(StateOf(r)), DeltaCapture(d))
    ensures r.store.slots == if d.hasEntities then Relinked(d.entities) else old(r.store.slots)
  {
    hide CompactValid, ModelOf, Pool.Valid, Pool.M;
    if d.hasEntities {
      RebuildKeepsHandles(d.entities);
      var entities, freeHead := RebuildFreeList(d.entities);
      r.store.slots, r.store.freeHead := entities, freeHead;
    }
  }
}
