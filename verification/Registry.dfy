/** The registry: real pool objects behind a component map, the owned groups that reorder them,
    and the entity slots. Every method is proved against the value-level World of OwnedGroups. */
module RegistryModule {
  import opened Counting
  import opened PoolModel
  import opened SparsePool
  import opened OwnedGroups
  import opened EntitySlots

  /** Rows belong to live entities only. */
  ghost predicate RowsAlive<V>(pools: Pools<V>, slots: seq<Entity>) {
    forall c: nat, i: nat :: Contains(pools, c, i) ==> i < |slots| && AliveAt(slots, i)
  }

  datatype Topology<V> = Topology(token: nat, pools: map<nat, Pool<V>>, groups: seq<Group>, depth: nat)

  /** Pool objects stay where they are; new ones may join. */
  ghost predicate SamePools<V>(a: map<nat, Pool<V>>, b: map<nat, Pool<V>>) {
    forall c :: c in a ==> c in b && b[c] == a[c]
  }

  /** While the topology token stands still, pool objects and groups stay, and no deferral
      that matters to a group begins or ends. */
  ghost predicate Kept<V>(a: Topology<V>, b: Topology<V>) {
    && a.token <= b.token
    && (a.token == b.token ==>
          b.pools == a.pools && SameOwned(a.groups, b.groups) && (a.groups != [] ==> (a.depth == 0 <==> b.depth == 0)))
  }

  /** A group of the key stands behind the old ones, and owns the key's components. */
  ghost predicate GroupAdded(groups: seq<Group>, owner: map<nat, nat>, after: seq<Group>, owned: map<nat, nat>,
      key: seq<nat>) {
    && |after| == |groups| + 1 && after[..|groups|] == groups && after[|groups|].owned == key
    && (forall c :: c in owned <==> c in owner || c in key)
    && (forall c :: c in owned ==> owned[c] == if c in key then |groups| else owner[c])
  }

  /** Every group but g is as it was. */
  ghost predicate OthersKept(a: seq<Group>, b: seq<Group>, g: nat) {
    |b| == |a| && forall h :: 0 <= h < |a| && h != g ==> b[h] == a[h]
  }

  lemma OthersKeptBelow(a: seq<Group>, b: seq<Group>, g: nat)
    requires OthersKept(a, b, g) && g <= |a|
    ensures b[..g] == a[..g]
  {
  }

  lemma EnterTouchesOne<V>(w: World<V>, g: nat, i: nat)
    requires g < |w.groups|
    ensures OthersKept(w.groups, Enter(w, g, i).groups, g)
  {
  }

  class Registry<V> {
    const store: EntityStore
    var pools: map<nat, Pool<V>>
    var groups: seq<Group>
    var owner: map<nat, nat>
    var depth: nat
    var pending: seq<(nat, nat)>
    var viewToken: nat
    var stateToken: nat

    /** Every component has its own pool object. */
    ghost predicate PoolsOk()
      reads `pools, pools.Values
    {
      && (forall c :: c in pools ==> pools[c].Valid())
      && (forall c, d :: c in pools && d in pools && c != d ==> pools[c] != pools[d])
    }

    ghost function Models(): Pools<V>
      requires PoolsOk()
      reads `pools, pools.Values
    {
      map c | c in pools :: pools[c].M()
    }

    ghost function W(): World<V>
      requires PoolsOk()
      reads this, pools.Values
    {
      World(Models(), groups, owner, depth, pending)
    }

    ghost predicate Valid()
      reads this, store, pools.Values
    {
      PoolsOk() && store.Valid() && Sound(W()) && RowsAlive(Models(), store.slots)
    }

    /** What cached views depend on. */
    ghost function T(): Topology<V>
      reads this
    {
      Topology(viewToken, pools, groups, depth)
    }

    constructor (token: nat)
      ensures stateToken == token
      ensures Valid() && W() == World(map[], [], map[], 0, []) && store.S() == Slots([], INVALID_INDEX)
      ensures fresh(store)
    {
      store := new EntityStore();
      pools, groups, owner, depth, pending, viewToken, stateToken := map[], [], map[], 0, [], 1, token;
    }

    lemma PoolSizes()
      requires PoolsOk()
      ensures forall c :: c in pools ==> |pools[c].dense| == |Models()[c].rows|
      ensures forall c, k :: c in pools && 0 <= k < |pools[c].dense| ==> pools[c].dense[k] == Models()[c].rows[k].index
    {
    }

    method PoolMove(c: nat, i: nat, target: nat) returns (ok: bool)
      requires PoolsOk() && c in pools
      modifies pools[c]
      ensures PoolsOk() && ok == (!Has(old(Models())[c], i) || target < |old(Models())[c].rows|)
      ensures Models() ==
          if ok && Has(old(Models())[c], i) then old(Models())[c := MoveTo(old(Models())[c], i, target)]
          else old(Models())
    {
      hide Pool.Valid, Pool.M;
      ok := pools[c].MoveIndexToDense(i, target);
    }

    method PoolEmplace(c: nat, e: Entity, v: V)
      requires PoolsOk() && c in pools && e.index < NPOS
      modifies pools[c]
      ensures PoolsOk() && Models() == old(Models())[c := Emplace(old(Models())[c], e, v)]
    {
      hide Pool.Valid, Pool.M;
      pools[c].EmplaceOrReplace(e, v);
    }

    method PoolRemove(c: nat, e: Entity, destroy: bool)
      requires PoolsOk() && c in pools && e.index < NPOS
      modifies pools[c]
      ensures PoolsOk() && Models() == old(Models())[c := Remove(old(Models())[c], e, destroy)]
    {
      hide Pool.Valid, Pool.M;
      if destroy {
        pools[c].RemoveForDestroy(e);
      } else {
        var _ := pools[c].Remove(e);
      }
    }

    /** Create the component's pool on first use. */
    method StorageFor(c: nat)
      requires PoolsOk()
      modifies `pools, `viewToken
      ensures PoolsOk() && Models() == WithPool(old(Models()), c)
      ensures fresh(pools.Values - old(pools.Values)) && pools.Keys == old(pools).Keys + {c}
      ensures viewToken == old(viewToken) + if c in old(pools) then 0 else 1
      ensures SamePools(old(pools), pools) && (c in old(pools) ==> pools == old(pools))
    {
      hide Pool.Valid, Pool.M;
      if c !in pools {
        var pool := new Pool<V>();
        pools := pools[c := pool];
        viewToken := viewToken + 1;
      }
    }

    method ContainsIndex(c: nat, i: nat) returns (r: bool)
      requires PoolsOk()
      ensures r == Contains(Models(), c, i)
    {
      if c in pools {
        pools[c].ContainsIsFind(i);
        r := pools[c].Contains(i);
      } else {
        r := false;
      }
    }

    method GroupContainsAll(owned: seq<nat>, i: nat) returns (r: bool)
      requires PoolsOk()
      ensures r == Everywhere(Models(), owned, i)
    {
      hide Pool.Valid, Pool.M, Contains;
      for k := 0 to |owned|
        invariant forall j :: 0 <= j < k ==> Contains(Models(), owned[j], i)
      {
        var has := ContainsIndex(owned[k], i);
        if !has {
          return false;
        }
      }
      return true;
    }

    method GroupContainsIndex(g: nat, i: nat) returns (r: bool)
      requires PoolsOk() && g < |groups|
      ensures r == InPrefix(Models(), groups[g], i)
    {
      if groups[g].owned == [] || groups[g].size == 0 || groups[g].owned[0] !in pools {
        return false;
      }
      var pool := pools[groups[g].owned[0]];
      pool.ContainsIsFind(i);
      return pool.Contains(i) && pool.sparse[i] < groups[g].size;
    }

    /** Swap the index to the same dense position in every owned pool. */
    method MoveInAll(owned: seq<nat>, i: nat, target: nat)
      requires PoolsOk() && AllDistinct(owned)
      requires forall c :: c in owned ==> c in pools && Has(Models()[c], i) && target < |Models()[c].rows|
      modifies pools.Values
      ensures PoolsOk() && Models() == MoveAll(old(Models()), owned, i, target)
    {
      hide Pool.Valid, Pool.M, Has, MoveTo, MoveAll, Find;
      MoveAllNone(Models(), i, target);
      assert owned[..0] == [];
      for k := 0 to |owned|
        invariant PoolsOk() && Models() == MoveAll(old(Models()), owned[..k], i, target)
      {
        MoveAllStep(old(Models()), owned, k, i, target);
        var ok := PoolMove(owned[k], i, target);
      }
      assert owned[..|owned|] == owned;
    }

    method EnterGroup(g: nat, i: nat)
      requires PoolsOk() && g < |groups| && AllDistinctRows(Models()) && Aligned(Models(), groups[g])
      requires Everywhere(Models(), groups[g].owned, i)
      modifies `groups, pools.Values
      ensures PoolsOk() && W() == Enter(old(W()), g, i)
    {
      hide Pool.Valid, Pool.M, Aligned, AllDistinctRows, Everywhere, MoveAll, InPrefix;
      var inside := GroupContainsIndex(g, i);
      if inside {
        return;
      }
      EnterInRange(W(), g, i);
      MoveInAll(groups[g].owned, i, groups[g].size);
      groups := groups[g := groups[g].(size := groups[g].size + 1)];
    }

    method LeaveGroup(g: nat, i: nat)
      requires PoolsOk() && g < |groups| && AllDistinctRows(Models()) && Aligned(Models(), groups[g])
      modifies `groups, pools.Values
      ensures PoolsOk() && W() == Leave(old(W()), g, i)
    {
      hide Pool.Valid, Pool.M, Aligned, AllDistinctRows, MoveAll, InPrefix;
      var inside := GroupContainsIndex(g, i);
      if !inside {
        return;
      }
      LeaveInRange(W(), g, i);
      groups := groups[g := groups[g].(size := groups[g].size - 1)];
      MoveInAll(groups[g].owned, i, groups[g].size);
    }

    method RefreshGroupAfterAdd(i: nat, c: nat)
      requires PoolsOk() && Base(W())
      modifies `groups, `pending, pools.Values
      ensures PoolsOk() && W() == Refresh(old(W()), i, c)
    {
      hide Pool.Valid, Pool.M, Everywhere, MoveAll, InPrefix, Enter, Base, Aligned, AllDistinctRows;
      OwnerInRange(W(), c);
      if c !in owner {
        return;
      }
      BaseGroup(W(), owner[c]);
      var all := GroupContainsAll(groups[owner[c]].owned, i);
      if all {
        if depth != 0 {
          pending := pending + [(owner[c], i)];
        } else {
          EnterGroup(owner[c], i);
        }
      }
    }

    /** Add or replace a component; nothing happens on a stale handle. */
    method AddComponent(e: Entity, c: nat, v: V) returns (added: bool)
      requires Valid()
      modifies `pools, `groups, `pending, `viewToken, pools.Values
      ensures Valid() && fresh(pools.Values - old(pools.Values))
      ensures added == Alive(store.slots, e)
      ensures viewToken == old(viewToken) + if added && c !in old(pools) then 1 else 0
      ensures W() == if added then AddRow(old(W()), c, e, v) else old(W())
      ensures Kept(old(T()), T()) && SamePools(old(pools), pools)
    {
      hide Pool.Valid, Pool.M, Sound, Base, Refresh, RowsAlive, SameOwned;
      SameOwnedReflexive(groups);
      if !store.IsAlive(e) {
        return false;
      }
      AddRowIsSound(W(), c, e, v);
      AddRowAlive(W(), c, e, v, store.slots);
      AliveBelowNpos(store, e);
      InsertRow(e, c, v);
      return true;
    }

    /** Make sure the component is there; an existing row is only marked. */
    method EnsureComponent(e: Entity, c: nat, zero: V) returns (ensured: bool)
      requires Valid()
      modifies `pools, `groups, `pending, `viewToken, pools.Values
      ensures Valid() && fresh(pools.Values - old(pools.Values))
      ensures ensured == Alive(store.slots, e)
      ensures viewToken == old(viewToken) + if ensured && c !in old(pools) then 1 else 0
      ensures W() == if ensured then EnsureRow(old(W()), c, e, zero) else old(W())
      ensures Kept(old(T()), T()) && SamePools(old(pools), pools)
    {
      hide Pool.Valid, Pool.M, Sound, Base, Refresh, RowsAlive, SameOwned, MarkedRow;
      SameOwnedReflexive(groups);
      if !store.IsAlive(e) {
        return false;
      }
      EnsureRowIsSound(W(), c, e, zero);
      EnsureRowAlive(W(), c, e, zero, store.slots);
      AliveBelowNpos(store, e);
      var has := ContainsIndex(c, e.index);
      if has {
        MarkRow(e.index, c);
      } else {
        InsertRow(e, c, zero);
      }
      return true;
    }

    method MarkRow(i: nat, c: nat)
      requires PoolsOk() && Sound(W()) && Contains(Models(), c, i)
      modifies `groups, `pending, pools.Values
      ensures PoolsOk() && c in old(pools) && (c in owner ==> old(owner)[c] < |old(groups)|)
      ensures W() == Refresh(MarkedRow(old(W()), c, i), i, c) && Kept(old(T()), T())
    {
      hide Pool.Valid, Pool.M, Sound, Base, Refresh, SameOwned, PoolModel.MarkDirty, Find;
      MarkedIsSound(W(), c, i);
      SoundIsBase(MarkedRow(W(), c, i));
      pools[c].MarkDirty(i);
      assert W() == MarkedRow(old(W()), c, i);
      RefreshOwned(W(), i, c);
      RefreshGroupAfterAdd(i, c);
    }

    method InsertRow(e: Entity, c: nat, v: V)
      requires PoolsOk() && Sound(W()) && e.index < NPOS
      modifies `pools, `groups, `pending, `viewToken, pools.Values
      ensures PoolsOk() && fresh(pools.Values - old(pools.Values))
      ensures c in old(owner) ==> old(owner)[c] < |old(groups)|
      ensures W() == AddRow(old(W()), c, e, v) && Kept(old(T()), T()) && SamePools(old(pools), pools)
      ensures viewToken == old(viewToken) + if c in old(pools) then 0 else 1
    {
      hide Pool.Valid, Pool.M, Sound, Base, Refresh, SameOwned, Emplace;
      PutRowIsBase(W(), c, e, v);
      StorageFor(c);
      PoolEmplace(c, e, v);
      assert W() == PutRow(old(W()), c, e, v);
      RefreshOwned(W(), e.index, c);
      RefreshGroupAfterAdd(e.index, c);
    }

    method CreateEntity() returns (e: Option<Entity>)
      requires Valid()
      modifies store
      ensures Valid() && e.Some? == old(CanCreate(store.S())) && W() == old(W())
      ensures e.None? ==> store.S() == old(store.S())
      ensures e.Some? ==> store.S() == old(Created(store.S())) && e.value == old(NextHandle(store.S()))
    {
      hide Pool.Valid, Pool.M, Sound, RowsAlive;
      CreatedAlive(Models(), store.S());
      e := store.Create();
    }

    method RemoveFromGroups(i: nat, c: nat)
      requires PoolsOk() && Base(W())
      modifies `groups, pools.Values
      ensures PoolsOk() && W() == if c in owner then Leave(old(W()), owner[c], i) else old(W())
    {
      hide Pool.Valid, Pool.M, Leave, Base, Aligned, AllDistinctRows;
      OwnerInRange(W(), c);
      if c in owner {
        BaseGroup(W(), owner[c]);
        LeaveGroup(owner[c], i);
      }
    }

    /** The row half of remove and destroy: leave the group first, then swap the row out. */
    method RemoveRowFrom(e: Entity, c: nat, destroy: bool)
      requires PoolsOk() && Sound(W()) && Contains(Models(), c, e.index) && e.index < NPOS
      modifies `groups, pools.Values
      ensures PoolsOk() && W() == RemoveRow(old(W()), c, e, destroy)
    {
      hide Pool.Valid, Pool.M, Leave, Sound, Base, Contains;
      SoundIsBase(W());
      OwnerInRange(W(), c);
      ContainsHasPool(Models(), c, e.index);
      if c in owner { LeaveLookup(W(), owner[c], e.index); }
      RemoveFromGroups(e.index, c);
      PoolRemove(c, e, destroy);
    }

    method RemoveComponent(e: Entity, c: nat) returns (removed: bool)
      requires Valid()
      modifies `groups, pools.Values
      ensures Valid() && pools == old(pools)
      ensures removed == (Alive(store.slots, e) && Contains(old(Models()), c, e.index))
      ensures W() == if removed then RemoveRow(old(W()), c, e, false) else old(W())
      ensures Kept(old(T()), T())
    {
      hide Pool.Valid, Pool.M, Sound, Base, RemoveRow, Contains, RowsAlive;
      if !store.IsAlive(e) {
        return false;
      }
      var has := ContainsIndex(c, e.index);
      if !has {
        return false;
      }
      AliveBelowNpos(store, e);
      SoundIsBase(W());
      OwnerInRange(W(), c);
      RemoveRowIsSound(W(), c, e, false);
      RemoveRowAlive(W(), c, e, false, store.slots);
      RemoveRowKeys(W(), c, e, false);
      RemoveRowFrom(e, c, false);
      return true;
    }

    /** Remove every component of the entity, then recycle its slot. The pools may be visited
        in any order. */
    method DestroyEntity(e: Entity) returns (destroyed: bool)
      requires Valid()
      modifies `groups, store, pools.Values
      ensures Valid() && pools == old(pools) && destroyed == old(Alive(store.slots, e))
      ensures !destroyed ==> W() == old(W()) && store.S() == old(store.S())
      ensures destroyed ==>
                && store.S() == old(Destroyed(store.S(), e))
                && RowsKilled(old(Models()), Models(), Holders(old(Models()), e.index), e)
                && owner == old(owner) && depth == old(depth) && pending == old(pending) &&
                    SameOwned(old(groups), groups)
      ensures Kept(old(T()), T())
    {
      hide Pool.Valid, Pool.M, Sound, RowsKilled, Find, Has, SameOwned, RowsAlive, WellLinked, Holders, Destroyed;
      SameOwnedReflexive(groups);
      if !store.IsAlive(e) {
        return false;
      }
      AliveBelowNpos(store, e);
      ghost var before := Models();
      DestroyRows(e);
      KilledAlive(before, Models(), store.S(), e);
      store.Release(e);
      return true;
    }

    method DestroyRows(e: Entity)
      requires PoolsOk() && Sound(W()) && e.index < NPOS
      modifies `groups, pools.Values
      ensures PoolsOk() && Sound(W())
      ensures RowsKilled(old(Models()), Models(), Holders(old(Models()), e.index), e) && SameOwned(old(groups), groups)
    {
      hide Pool.Valid, Pool.M, Sound, RemoveRow, Contains, RowsKilled, Base, Find, Has;
      ghost var before, killed := Models(), {};
      var todo := ContainingPools(e.index);
      NoneKilled(before, e);
      while todo != {}
        invariant PoolsOk() && Sound(W()) && SameOwned(old(groups), groups)
        invariant RowsKilled(before, Models(), killed, e) && killed !! todo && killed + todo == Holders(before, e.index)
        decreases todo
      {
        var c :| c in todo;
        KillOneMore(before, W(), killed, e, c);
        RemoveRowIsSound(W(), c, e, true);
        SoundIsBase(W());
        OwnerInRange(W(), c);
        RemoveRowKeys(W(), c, e, true);
        RemoveRowFrom(e, c, true);
        todo, killed := todo - {c}, killed + {c};
      }
      assert killed == Holders(before, e.index);
    }

    method ContainingPools(i: nat) returns (r: set<nat>)
      requires PoolsOk()
      ensures r == Holders(Models(), i)
    {
      hide Pool.Valid, Pool.M, Contains;
      r := {};
      var todo := pools.Keys;
      while todo != {}
        invariant todo <= pools.Keys
        invariant r == set c | c in pools.Keys - todo && Contains(Models(), c, i)
        decreases todo
      {
        var c :| c in todo;
        var has := ContainsIndex(c, i);
        if has {
          r := r + {c};
        }
        todo := todo - {c};
      }
    }

    method WriteComponent(e: Entity, c: nat, v: V) returns (found: bool)
      requires Valid()
      modifies pools.Values
      ensures Valid()
      ensures found == (Alive(store.slots, e) && Contains(old(Models()), c, e.index))
      ensures W() == if found then old(W()).(pools := old(Models())[c := Write(old(Models())[c], e.index, v)])
          else old(W())
    {
      hide Pool.Valid, Pool.M, Sound, Find, RowsAlive, WellLinked;
      if !store.IsAlive(e) || c !in pools {
        return false;
      }
      WriteKeepsSound(W(), c, e.index, v);
      WriteAlive(W(), c, e.index, v, store.slots);
      found := pools[c].WriteValue(e.index, v);
      assert Models() == old(Models())[c := Write(old(Models())[c], e.index, v)];
    }

    method BeginDeferredGroupEnters()
      requires Valid()
      modifies `depth, `viewToken
      ensures Valid() && W() == BeginDeferral(old(W())) && depth == old(depth) + 1
      ensures viewToken == old(viewToken) + if old(depth) == 0 && groups != [] then 1 else 0
      ensures Kept(old(T()), T())
    {
      hide Pool.Valid, Pool.M, Sound, RowsAlive;
      SameOwnedReflexive(groups);
      BeginIsSound(W());
      if depth == 0 && groups != [] {
        viewToken := viewToken + 1;
      }
      depth := depth + 1;
      assert W() == BeginDeferral(old(W()));
    }

    /** An inner scope only lowers the depth; the outermost one drains what is pending. */
    method EndDeferredGroupEnters()
      requires Valid() && depth > 0
      modifies `groups, `depth, `pending, `viewToken, pools.Values
      ensures Valid() && pools == old(pools) && SameOwned(old(groups), groups)
      ensures forall k :: 0 <= k < |old(pending)| ==> old(pending)[k].0 < |old(groups)|
      ensures W() == EndDeferral(old(W())) && depth == old(depth) - 1
      ensures if old(depth) > 1 then Models() == old(Models()) && groups == old(groups) && pending == old(pending)
              else pending == []
      ensures viewToken == old(viewToken) + if depth == 0 && groups != [] then 1 else 0
      ensures Kept(old(T()), T())
    {
      hide Pool.Valid, Pool.M, Sound, Base, Drain, Find, Has, RowsAlive, Kept, EndDeferral,
          WellLinked, EntityStore.Valid;
      SameOwnedReflexive(groups);
      EndDeferralAlive(W(), store.slots);
      EndIsSound(W());
      PendingInRange(W());
      if depth > 1 {
        depth := depth - 1;
        KeptInside(old(T()), T());
        EndInside(old(W()));
        return;
      }
      CloseOutermost();
      KeptOutside(old(T()), T());
    }

    method CloseOutermost()
      requires PoolsOk() && Sound(W()) && depth == 1
      modifies `groups, `depth, `pending, `viewToken, pools.Values
      ensures PoolsOk() && SameOwned(old(groups), groups) && pending == []
      ensures forall k :: 0 <= k < |old(pending)| ==> old(pending)[k].0 < |old(groups)|
      ensures W() == EndDeferral(old(W()))
      ensures viewToken == old(viewToken) + if groups == [] then 0 else 1
    {
      hide Pool.Valid, Pool.M, Sound, Base, Drain, Find, Has;
      PendingInRange(W());
      StartOfDrain(W());
      depth := depth - 1;
      var todo := pending;
      pending := [];
      DrainPending(todo);
      if groups != [] {
        viewToken := viewToken + 1;
      }
    }

    method DrainPending(entries: seq<(nat, nat)>)
      requires PoolsOk() && Base(W()) && forall k :: 0 <= k < |entries| ==> entries[k].0 < |groups|
      modifies `groups, pools.Values
      ensures PoolsOk() && SameOwned(old(groups), groups) && W() == Drain(old(W()), entries)
    {
      hide Pool.Valid, Pool.M, Base, Everywhere, Enter, Aligned, AllDistinctRows;
      var todo := entries;
      while todo != []
        invariant PoolsOk() && SameOwned(old(groups), groups) && Base(W())
        invariant forall k :: 0 <= k < |todo| ==> todo[k].0 < |groups|
        invariant Drain(W(), todo) == Drain(old(W()), entries)
        decreases |todo|
      {
        var (g, i) := todo[0];
        var all := GroupContainsAll(groups[g].owned, i);
        if all {
          EnterKeepsBaseOnly(W(), g, i);
          BaseGroup(W(), g);
          EnterGroup(g, i);
        }
        todo := todo[1..];
      }
    }

    /** The first of the smallest pools; no result when some owned component has no pool. */
    method SmallestStorage(owned: seq<nat>) returns (driver: Option<nat>)
      requires PoolsOk()
      ensures driver.Some? <==> owned != [] && forall c :: c in owned ==> c in pools
      ensures driver.Some? ==> driver.value in owned && FirstSmallest(Models(), owned, driver.value)
    {
      hide Pool.Valid, Pool.M, IsFirstSmallest, FirstSmallest;
      driver := None;
      PoolSizes();
      ghost var at: nat := 0;
      for k := 0 to |owned|
        invariant driver.Some? <==> k > 0
        invariant k > 0 ==> IsFirstSmallest(Models(), owned[..k], at) && at < k && driver.value == owned[at]
        invariant k > 0 ==> driver.value in pools
        invariant forall j :: 0 <= j < k ==> owned[j] in pools
      {
        if owned[k] !in pools {
          return None;
        }
        FirstSmallestStep(Models(), owned, k, at);
        if driver.None? || |pools[owned[k]].dense| < |pools[driver.value].dense| {
          driver, at := Some(owned[k]), k;
        }
      }
      if owned != [] { FirstSmallestFound(Models(), owned, at); }
    }

    /** Fill a new group's prefix by one pass over its smallest pool, which the pass reorders. */
    method BuildGroup(g: nat, ghost newOwner: map<nat, nat>)
      requires PoolsOk() && g < |groups| && groups[g].owned != []
      requires forall driver :: driver in groups[g].owned ==> Scanned(W().(owner := newOwner), g, driver, 0)
      modifies `groups, pools.Values
      ensures PoolsOk() && Sound(W().(owner := newOwner)) && SameOwned(old(groups), groups)
      ensures SameContent(old(Models()), Models()) && OthersKept(old(groups), groups, g)
    {
      hide Pool.Valid, Pool.M, Scanned, Enter, Everywhere, SameContent, Sound, Missing;
      ScannedHasPools(W().(owner := newOwner), g);
      PoolSizes();
      var smallest := SmallestStorage(groups[g].owned);
      var driver := smallest.value;
      var size := |pools[driver].dense|;
      SameContentReflexive(Models());
      for d := 0 to size
        invariant PoolsOk() && SameOwned(old(groups), groups) && driver in pools && |Models()[driver].rows| == size
        invariant Scanned(W().(owner := newOwner), g, driver, d) && SameContent(old(Models()), Models())
        invariant OthersKept(old(groups), groups, g)
      {
        ghost var before := Models();
        BuildStep(g, driver, d, newOwner);
        SameContentTransitive(old(Models()), before, Models());
      }
      ScanIsComplete(W().(owner := newOwner), g, driver);
    }

    method BuildStep(g: nat, driver: nat, d: nat, ghost newOwner: map<nat, nat>)
      requires PoolsOk() && g < |groups| && driver in pools && d < |Models()[driver].rows|
      requires Scanned(W().(owner := newOwner), g, driver, d)
      modifies `groups, pools.Values
      ensures PoolsOk() && SameOwned(old(groups), groups) && SameContent(old(Models()), Models())
      ensures OthersKept(old(groups), groups, g)
      ensures |Models()[driver].rows| == |old(Models())[driver].rows|
      ensures Scanned(W().(owner := newOwner), g, driver, d + 1)
    {
      hide Pool.Valid, Pool.M, Scanned, Enter, Everywhere, SameContent, Aligned, AllDistinctRows;
      PoolSizes();
      SameContentReflexive(Models());
      var i := pools[driver].dense[d];
      var all := GroupContainsAll(groups[g].owned, i);
      ghost var w := W().(owner := newOwner);
      ScannedParts(w, g, driver, d);
      if all {
        ScanEnters(w, g, driver, d);
        EnterContent(w, g, i);
        EnterIgnoresOwner(W(), newOwner, g, i);
        EnterTouchesOne(W(), g, i);
        EnterGroup(g, i);
      } else {
        ScanSkips(w, g, driver, d);
      }
    }

    method EnsurePool(c: nat)
      requires Valid()
      modifies `pools, `viewToken
      ensures Valid() && fresh(pools.Values - old(pools.Values)) && pools.Keys == old(pools).Keys + {c}
      ensures Models() == WithPool(old(Models()), c)
      ensures viewToken == old(viewToken) + if c in old(pools) then 0 else 1
      ensures viewToken == old(viewToken) ==> pools == old(pools)
    {
      hide Pool.Valid, Pool.M, Sound, RowsAlive;
      WithPoolIsSound(W(), c);
      WithPoolAlive(Models(), c, store.slots);
      StorageFor(c);
      assert W() == old(W()).(pools := Models());
    }

    method CreatePools(key: seq<nat>)
      requires Valid()
      modifies `pools, `viewToken
      ensures Valid() && fresh(pools.Values - old(pools.Values))
      ensures Extends(old(Models()), Models()) && (forall c :: c in key ==> c in pools)
      ensures viewToken >= old(viewToken) && (viewToken == old(viewToken) ==> pools == old(pools))
      ensures (forall c :: c in key ==> c in old(pools)) ==> viewToken == old(viewToken)
    {
      hide Pool.Valid, Pool.M, Sound, Extends, WithPool, PoolsOk, EntityStore.Valid, Find, Has, RowsAlive, W, Models;
      ExtendsReflexive(Models());
      ghost var known := forall c :: c in key ==> c in pools;
      for k := 0 to |key|
        invariant Valid() && fresh(pools.Values - old(pools.Values))
        invariant Extends(old(Models()), Models()) && forall j :: 0 <= j < k ==> key[j] in pools
        invariant known ==> viewToken == old(viewToken) && pools == old(pools)
        invariant viewToken >= old(viewToken) && (viewToken == old(viewToken) ==> pools == old(pools))
      {
        WithPoolExtends(old(Models()), Models(), key[k]);
        EnsurePool(key[k]);
      }
    }

    method FindGroup(key: seq<nat>) returns (found: bool)
      ensures found <==> exists g :: 0 <= g < |groups| && groups[g].owned == key
    {
      for g := 0 to |groups|
        invariant forall h :: 0 <= h < g ==> groups[h].owned != key
      {
        if groups[g].owned == key {
          return true;
        }
      }
      return false;
    }

    method RegisterOwnership(owned: seq<nat>, g: nat)
      modifies `owner
      ensures owner == GrownOwner(old(owner), owned, g)
    {
      for k := 0 to |owned|
        invariant owner == GrownOwner(old(owner), owned[..k], g)
      {
        assert owned[..k + 1] == owned[..k] + [owned[k]];
        owner := owner[owned[k] := g];
      }
      assert owned[..|owned|] == owned;
    }

    /** Declare a layout group. It fails when a component already belongs to another group. A new one
        is added behind the others, which stay as they are, and owns its components from then on. */
    method DeclareOwnedGroup(key: seq<nat>) returns (ok: bool)
      requires Valid() && key != [] && AllDistinct(key)
      modifies `pools, `groups, `owner, `viewToken, pools.Values
      ensures Valid() && fresh(pools.Values - old(pools.Values)) && Extends(old(Models()), Models())
      ensures ok <==>
          (exists g :: 0 <= g < |old(groups)| && old(groups)[g].owned == key) ||
          (forall c :: c in key ==> c !in old(owner))
      ensures ok ==> exists g :: 0 <= g < |groups| && groups[g].owned == key
      ensures if ok && forall g :: 0 <= g < |old(groups)| ==> old(groups)[g].owned != key
              then GroupAdded(old(groups), old(owner), groups, owner, key)
              else groups == old(groups) && owner == old(owner)
      ensures depth == old(depth) && pending == old(pending) && Kept(old(T()), T())
      ensures (forall c :: c in key ==> c in old(pools)) ==>
                viewToken == old(viewToken) + |groups| - |old(groups)|
    {
      hide Pool.Valid, Pool.M, Sound, Extends, Scanned, SameContent, AllDistinct, GrownOwner, RowsAlive, WellLinked,
          EntityStore.Valid, GroupAdded, Kept, SameOwned, PoolsOk;
      CreatePools(key);
      KeptWithGroups(old(T()), T());
      ghost var start := Models();
      var found := FindGroup(key);
      if found {
        return true;
      }
      var taken := AnyOwned(key);
      if taken {
        return false;
      }
      StartGroup(key);
      KeptMoved(old(T()), T());
      ContentExtends(old(Models()), start, Models());
      return true;
    }

    method AnyOwned(key: seq<nat>) returns (r: bool)
      ensures r <==> exists c :: c in key && c in owner
    {
      for k := 0 to |key|
        invariant forall j :: 0 <= j < k ==> key[j] !in owner
      {
        if key[k] in owner {
          return true;
        }
      }
      return false;
    }

    method StartGroup(key: seq<nat>)
      requires Valid() && key != [] && AllDistinct(key) && forall c :: c in key ==> c in pools && c !in owner
      modifies `groups, `owner, `viewToken, pools.Values
      ensures Valid() && pools == old(pools) && SameContent(old(Models()), Models())
      ensures exists g :: 0 <= g < |groups| && groups[g].owned == key
      ensures |groups| == |old(groups)| + 1
      ensures GroupAdded(old(groups), old(owner), groups, owner, key)
      ensures depth == old(depth) && pending == old(pending) && viewToken == old(viewToken) + 1
    {
      hide Pool.Valid, Pool.M, Sound, Scanned, SameContent, AllDistinct, GrownOwner, Find, Has, RowsAlive, WellLinked,
          EntityStore.Valid, OthersKept;
      NewGroupCanStart(W(), key);
      GrownOwnerHas(owner, key, |groups|);
      var g := |groups|;
      groups := groups + [Group(key, 0)];
      viewToken := viewToken + 1;
      ghost var start := Models();
      BuildGroup(g, GrownOwner(owner, key, g));
      ContentAlive(start, Models(), store.slots);
      RegisterOwnership(key, g);
      OthersKeptBelow(old(groups) + [Group(key, 0)], groups, g);
      assert groups[g].owned == key;
    }
  }

  lemma RefreshOwned<V>(w: World<V>, i: nat, c: nat)
    requires Base(w)
    ensures c in w.owner ==> w.owner[c] < |w.groups|
    ensures var next := Refresh(w, i, c);
        SameOwned(w.groups, next.groups) && next.owner == w.owner && next.depth == w.depth
  {
  }

  lemma KeptMoved<V>(a: Topology<V>, b: Topology<V>)
    requires a.token < b.token
    ensures Kept(a, b)
  {
  }

  lemma EndInside<V>(w: World<V>)
    requires Sound(w) && w.depth > 1
    ensures forall k :: 0 <= k < |w.pending| ==> w.pending[k].0 < |w.groups|
    ensures EndDeferral(w) == w.(depth := w.depth - 1)
  {
  }

  lemma KeptInside<V>(a: Topology<V>, b: Topology<V>)
    requires a.token == b.token && b.pools == a.pools && b.groups == a.groups && a.depth > 0 && b.depth > 0
    ensures Kept(a, b)
  {
    SameOwnedReflexive(a.groups);
  }

  lemma KeptOutside<V>(a: Topology<V>, b: Topology<V>)
    requires b.token == a.token + (if b.groups == [] then 0 else 1) && b.pools == a.pools
    requires SameOwned(a.groups, b.groups)
    ensures Kept(a, b)
  {
  }

  lemma KeptWithGroups<V>(a: Topology<V>, b: Topology<V>)
    requires a.token <= b.token && (a.token == b.token ==> b.pools == a.pools)
    requires b.groups == a.groups && b.depth == a.depth
    ensures Kept(a, b)
  {
    SameOwnedReflexive(a.groups);
  }

  lemma SameOwnedReflexive(groups: seq<Group>)
    ensures SameOwned(groups, groups)
  {
  }

  lemma AddRowAlive<V>(w: World<V>, c: nat, e: Entity, v: V, slots: seq<Entity>)
    requires Sound(w) && RowsAlive(w.pools, slots) && Alive(slots, e)
    ensures c in w.owner ==> w.owner[c] < |w.groups|
    ensures RowsAlive(AddRow(w, c, e, v).pools, slots)
  {
    hide Sound, Base, Refresh;
    SoundIsBase(w);
    OwnerInRange(w, c);
    SoundRows(w);
    var next := AddRow(w, c, e, v).pools;
    forall d: nat, i: nat | Contains(next, d, i) ensures i < |slots| && AliveAt(slots, i) {
      AddRowLookup(w, c, e, v, d, i);
      if d != c || i != e.index {
        PutRowContains(w, c, e, v, d, i);
        assert Contains(w.pools, d, i);
      }
    }
  }

  lemma EnsureRowAlive<V>(w: World<V>, c: nat, e: Entity, zero: V, slots: seq<Entity>)
    requires Sound(w) && RowsAlive(w.pools, slots) && Alive(slots, e)
    ensures c in w.owner ==> w.owner[c] < |w.groups|
    ensures RowsAlive(EnsureRow(w, c, e, zero).pools, slots)
  {
    hide Sound, Base, Refresh;
    SoundIsBase(w);
    OwnerInRange(w, c);
    if Contains(w.pools, c, e.index) {
      MarkedIsSound(w, c, e.index);
      SoundIsBase(MarkedRow(w, c, e.index));
      MarkedAlive(w, c, e.index, slots);
      RefreshContent(MarkedRow(w, c, e.index), e.index, c);
      ContentAlive(MarkedRow(w, c, e.index).pools, Refresh(MarkedRow(w, c, e.index), e.index, c).pools, slots);
    } else {
      AddRowAlive(w, c, e, zero, slots);
    }
  }

  lemma MarkedAlive<V>(w: World<V>, c: nat, i: nat, slots: seq<Entity>)
    requires Sound(w) && c in w.pools && RowsAlive(w.pools, slots)
    ensures RowsAlive(MarkedRow(w, c, i).pools, slots)
  {
    hide Sound;
    SoundRows(w);
    var next := MarkedRow(w, c, i).pools;
    forall d: nat, j: nat | Contains(next, d, j) ensures j < |slots| && AliveAt(slots, j) {
      MarkDirtyLookup(w.pools[c], i, j);
      assert Contains(w.pools, d, j);
    }
  }

  lemma SoundRows<V>(w: World<V>)
    requires Sound(w)
    ensures AllDistinctRows(w.pools)
  {
  }

  lemma RemoveRowAlive<V>(w: World<V>, c: nat, e: Entity, destroy: bool, slots: seq<Entity>)
    requires Sound(w) && RowsAlive(w.pools, slots)
    ensures c in w.owner ==> w.owner[c] < |w.groups|
    ensures RowsAlive(RemoveRow(w, c, e, destroy).pools, slots)
  {
    hide Sound, Base, RemoveRow;
    SoundIsBase(w);
    OwnerInRange(w, c);
    RemoveRowKeys(w, c, e, destroy);
    var next := RemoveRow(w, c, e, destroy).pools;
    forall d: nat, i: nat | Contains(next, d, i) ensures i < |slots| && AliveAt(slots, i) {
      RemoveRowLookup(w, c, e, destroy, d, i);
      assert Contains(w.pools, d, i);
    }
  }

  lemma KilledAlive<V>(before: Pools<V>, after: Pools<V>, s: Slots, e: Entity)
    requires RowsAlive(before, s.slots) && Alive(s.slots, e) && RowsKilled(before, after, Holders(before, e.index), e)
    ensures RowsAlive(after, Destroyed(s, e).slots)
  {
    forall c: nat, i: nat | Contains(after, c, i) ensures i < |s.slots| && AliveAt(Destroyed(s, e).slots, i) {
      assert Lookup(after[c], i) == if c in Holders(before, e.index) && i == e.index then None
          else Lookup(before[c], i);
      assert Contains(before, c, i);
    }
  }

  lemma WriteAlive<V>(w: World<V>, c: nat, i: nat, v: V, slots: seq<Entity>)
    requires Sound(w) && c in w.pools && RowsAlive(w.pools, slots)
    ensures RowsAlive(w.pools[c := Write(w.pools[c], i, v)], slots)
  {
    SoundRows(w);
    var next := w.pools[c := Write(w.pools[c], i, v)];
    forall d: nat, j: nat | Contains(next, d, j) ensures j < |slots| && AliveAt(slots, j) {
      WriteLookup(w.pools[c], i, v, j);
      assert Contains(w.pools, d, j);
    }
  }

  lemma ContentAlive<V>(a: Pools<V>, b: Pools<V>, slots: seq<Entity>)
    requires SameContent(a, b) && RowsAlive(a, slots)
    ensures RowsAlive(b, slots)
  {
    forall c: nat, i: nat | Contains(b, c, i) ensures i < |slots| && AliveAt(slots, i) {
      assert Lookup(b[c], i) == Lookup(a[c], i);
      assert Contains(a, c, i);
    }
  }

  lemma EndDeferralAlive<V>(w: World<V>, slots: seq<Entity>)
    requires Sound(w) && w.depth > 0 && RowsAlive(w.pools, slots)
    ensures forall k :: 0 <= k < |w.pending| ==> w.pending[k].0 < |w.groups|
    ensures RowsAlive(EndDeferral(w).pools, slots)
  {
    hide Sound, RowsAlive;
    PendingInRange(w);
    EndDeferralLookup(w);
    assert SameContent(w.pools, EndDeferral(w).pools);
    ContentAlive(w.pools, EndDeferral(w).pools, slots);
  }

  lemma CreatedAlive<V>(pools: Pools<V>, s: Slots)
    requires RowsAlive(pools, s.slots) && WellLinked(s)
    ensures CanCreate(s) ==>
        (s.freeHead != INVALID_INDEX ==> s.freeHead < |s.slots|) && RowsAlive(pools, Created(s).slots)
  {
    if CanCreate(s) {
      var free :| FreeList(s, free);
      CreatedSlot(s);
    }
  }

  lemma WithPoolAlive<V>(pools: Pools<V>, c: nat, slots: seq<Entity>)
    requires RowsAlive(pools, slots)
    ensures RowsAlive(WithPool(pools, c), slots)
  {
    forall d: nat, i: nat | Contains(WithPool(pools, c), d, i) ensures i < |slots| && AliveAt(slots, i) {
      assert Contains(pools, d, i);
    }
  }

  ghost function Holders<V>(pools: Pools<V>, i: nat): set<nat> { set c | c in pools && Contains(pools, c, i) }

  lemma NoneKilled<V>(pools: Pools<V>, e: Entity)
    ensures RowsKilled(pools, pools, {}, e)
  {
  }

  lemma WriteKeepsSound<V>(w: World<V>, c: nat, i: nat, v: V)
    requires Sound(w) && c in w.pools
    ensures Sound(w.(pools := w.pools[c := Write(w.pools[c], i, v)]))
  {
    hide Sound;
    SameOrderIsSound(w, w.(pools := w.pools[c := Write(w.pools[c], i, v)]));
  }

  lemma PendingInRange<V>(w: World<V>)
    requires Sound(w)
    ensures forall k :: 0 <= k < |w.pending| ==> w.pending[k].0 < |w.groups|
  {
  }

  lemma StartOfDrain<V>(w: World<V>)
    requires Sound(w) && w.depth == 1
    ensures Base(w.(depth := 0, pending := []))
    ensures EndDeferral(w) == Drain(w.(depth := 0, pending := []), w.pending)
  {
  }

  lemma EnterKeepsBaseOnly<V>(w: World<V>, g: nat, i: nat)
    requires Base(w) && g < |w.groups| && Everywhere(w.pools, w.groups[g].owned, i)
    ensures Base(Enter(w, g, i)) && SameOwned(w.groups, Enter(w, g, i).groups)
  {
    hide Base, Everywhere, MoveAll;
    EnterKeepsBase(w, g, i);
  }

  lemma AliveBelowNpos(store: EntityStore, e: Entity)
    requires store.Valid() && Alive(store.slots, e)
    ensures e.index < NPOS
  {
    var free :| FreeList(store.S(), free);
  }
}
