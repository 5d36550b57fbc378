/** Full and delta snapshots of a registry, created and restored pool by pool in any order, and
    the tracker that decides which kind a dirty frame becomes. */
module Snapshots {
  import opened Exclusion
  import opened PoolModel
  import opened SparsePool
  import opened PoolClone
  import opened Counting
  import opened OwnedGroups
  import opened EntitySlots
  import opened RegistryModule
  import opened DeltaReplay
  import opened SnapshotChain

  type Storages<V> = map<nat, Compact<V>>

  datatype Snapshot<V> = Snapshot(storages: Storages<V>, groups: seq<Group>, entities: seq<Entity>, freeHead: nat,
      stateToken: nat)

  datatype DeltaSnapshot<V> =
    DeltaSnapshot(storages: Storages<V>, hasEntities: bool, entities: seq<Entity>, freeHead: nat, baselineToken: nat,
        stateToken: nat)

  ghost predicate StoragesValid<V>(s: Storages<V>) { forall c :: c in s ==> CompactValid(s[c]) }

  ghost function PoolsOf<V>(s: Storages<V>): Pools<V>
    requires StoragesValid(s)
  {
    map c | c in s :: ModelOf(s[c])
  }

  ghost function CaptureOf<V>(s: Snapshot<V>): Capture<V>
    requires StoragesValid(s.storages)
  {
    Full(PoolsOf(s.storages), s.entities, s.stateToken)
  }

  ghost function DeltaCapture<V>(d: DeltaSnapshot<V>): Capture<V>
    requires StoragesValid(d.storages)
  {
    Delta(PoolsOf(d.storages), d.hasEntities, d.entities, d.baselineToken, d.stateToken)
  }

  ghost function StateOf<V>(r: Registry<V>): State<V>
    requires r.PoolsOk()
    reads r, r.store, r.pools.Values
  {
    State(r.Models(), r.store.slots, r.stateToken)
  }

  /** Between jobs: no deferral is open and every group is complete. */
  ghost predicate Ready<V>(r: Registry<V>)
    reads r, r.store, r.pools.Values
  {
    r.PoolsOk() && r.store.Valid() && Sound(r.W()) && r.depth == 0
  }

  /** Group ownership as restoring recomputes it from the copied groups. */
  ghost function OwnersOf(groups: seq<Group>, n: nat): map<nat, nat>
    requires n <= |groups|
  {
    if n == 0 then map[] else GrownOwner(OwnersOf(groups, n - 1), groups[n - 1].owned, n - 1)
  }

  lemma OwnedExactly(groups: seq<Group>, owner: map<nat, nat>, g: nat, c: nat)
    requires Ownership(groups, owner) && g < |groups|
    ensures c in groups[g].owned <==> c in owner && owner[c] == g
  {
  }

  lemma {:induction false} OwnersAreGroups(groups: seq<Group>, owner: map<nat, nat>, n: nat)
    requires n <= |groups| && Ownership(groups, owner)
    ensures forall c :: c in OwnersOf(groups, n) <==> c in owner && owner[c] < n
    ensures forall c :: c in OwnersOf(groups, n) ==> OwnersOf(groups, n)[c] == owner[c]
  {
    if n > 0 {
      hide Ownership;
      OwnersAreGroups(groups, owner, n - 1);
      forall c { OwnedExactly(groups, owner, n - 1, c); }
    }
  }

  lemma OwnersAreRebuilt(groups: seq<Group>, owner: map<nat, nat>)
    requires Ownership(groups, owner)
    ensures OwnersOf(groups, |groups|) == owner
  {
    OwnersAreGroups(groups, owner, |groups|);
  }

  /** Snapshots taken from a ready registry. */
  ghost predicate Consistent<V>(s: Snapshot<V>) {
    && StoragesValid(s.storages) && RawSlots(s.entities)
    && Sound(World(PoolsOf(s.storages), s.groups, OwnersOf(s.groups, |s.groups|), 0, []))
  }

  lemma ValidIsRaw(store: EntityStore)
    requires store.Valid()
    ensures RawSlots(store.slots)
  {
    var free :| FreeList(store.S(), free);
  }

  /** What the registry shows under an exclusion mask. */
  ghost function Shown<V>(r: Registry<V>, mask: seq<bool>): State<V>
    requires r.PoolsOk()
    reads r, r.store, r.pools.Values
  {
    Visible(StateOf(r), mask)
  }

  method MakeSnapshotEntities(slots: seq<Entity>, mask: seq<bool>) returns (entities: seq<Entity>)
    ensures entities == Blanked(slots, mask) && |entities| == |slots|
    ensures forall i :: 0 <= i < |slots| ==> entities[i] == if i < |mask| && mask[i] then Entity(0, 0) else slots[i]
  {
    entities := slots;
    if mask == [] {
      assert entities == Blanked(slots, mask);
      return;
    }
    var index := 0;
    while index < |entities| && index < |mask|
      invariant index <= |entities| == |slots| && index <= |mask|
      invariant forall i :: 0 <= i < |slots| ==> entities[i] == if i < index then Blanked(slots, mask)[i] else slots[i]
    {
      if mask[index] {
        entities := entities[index := NO_ENTITY];
      }
      index := index + 1;
    }
    assert entities == Blanked(slots, mask);
  }

  lemma BlankedIsRaw(slots: seq<Entity>, mask: seq<bool>)
    requires RawSlots(slots)
    ensures RawSlots(Blanked(slots, mask))
  {
  }

  method CreateSnapshot<V>(r: Registry<V>, mask: seq<bool>) returns (s: Snapshot<V>)
    requires Ready(r) && NoMemberExcluded(r.W(), mask)
    ensures Consistent(s) && CaptureOf(s) == FullOf(Shown(r, mask)) && s.groups == r.groups
    ensures s.stateToken == r.stateToken && PoolsOf(s.storages) == VisiblePools(r.Models(), mask)
    ensures Slots(s.entities, s.freeHead) == Rebuilt(Blanked(r.store.slots, mask), INVALID_INDEX, |r.store.slots|)
  {
    hide Pool.Valid, Pool.M, Sound, CompactValid, ModelOf, Rebuilt, Filtered, EntityStore.Valid, RawSlots, Blanked,
         VisiblePools, NoMemberExcluded;
    ValidIsRaw(r.store);
    BlankedIsRaw(r.store.slots, mask);
    RelinkedKeepsHandles(Blanked(r.store.slots, mask));
    var entities := MakeSnapshotEntities(r.store.slots, mask);
    var freeHead;
    entities, freeHead := RebuildFreeList(entities);
    var storages := CopyPools(r, mask);
    s := Snapshot(storages, r.groups, entities, freeHead, r.stateToken);
    VisibleIsSound(r.W(), mask);
    SnapshotIsConsistent(r.W().(pools := VisiblePools(r.W().pools, mask)), s.storages);
    assert FullOf(Shown(r, mask)) ==
        Full(VisiblePools(r.Models(), mask), Relinked(Blanked(r.store.slots, mask)), r.stateToken);
  }

  lemma SnapshotIsConsistent<V>(w: World<V>, s: Storages<V>)
    requires Sound(w) && w.depth == 0 && StoragesValid(s) && PoolsOf(s) == w.pools
    ensures Sound(World(PoolsOf(s), w.groups, OwnersOf(w.groups, |w.groups|), 0, []))
  {
    OwnersAreRebuilt(w.groups, w.owner);
    assert w == World(PoolsOf(s), w.groups, OwnersOf(w.groups, |w.groups|), 0, []);
  }

  method CopyPools<V>(r: Registry<V>, mask: seq<bool>) returns (s: Storages<V>)
    requires r.PoolsOk()
    ensures StoragesValid(s) && PoolsOf(s) == VisiblePools(r.Models(), mask)
  {
    hide Pool.Valid, Pool.M, CompactValid, ModelOf, Filtered;
    s := map[];
    var todo := r.pools.Keys;
    while todo != {}
      invariant todo <= r.pools.Keys && s.Keys == r.pools.Keys - todo
      invariant forall c :: c in s ==> CompactValid(s[c]) && ModelOf(s[c]) == Filtered(r.Models()[c], mask, false)
      decreases todo
    {
      var c :| c in todo;
      var copy := CloneCompactFiltered(r.pools[c], mask, false);
      s := s[c := copy];
      todo := todo - {c};
    }
  }

  /** The compact copy's own counters answer whether anything in it is marked. */
  predicate HasDirty<V>(c: Compact<V>) { c.dirtyCount != 0 || c.addedCount != 0 || c.tombCount != 0 }

  lemma HasDirtyIsMarked<V>(c: Compact<V>)
    requires CompactValid(c)
    ensures HasDirty(c) <==> Marked(ModelOf(c))
  {
    CountZero(c.dirty);
    CountZero(c.added);
    var m := ModelOf(c);
    if c.dirtyCount != 0 {
      var k :| 0 <= k < |c.dirty| && c.dirty[k];
      assert m.rows[k].dirty;
    }
    if c.tombCount != 0 {
      assert c.tombIndices[|c.tombIndices| - 1] in m.tombs;
    }
    if Marked(m) && m.tombs == map[] {
      var k :| 0 <= k < |m.rows| && m.rows[k].dirty;
      assert c.dirty[k];
    }
  }

  /** A pool without marks has nothing the dirty-only copy would keep. */
  lemma CleanPoolIsUnmarked<V>(m: Model<V>, mask: seq<bool>)
    requires Distinct(m.rows) && m.tombs == map[] && forall k :: 0 <= k < |m.rows| ==> !m.rows[k].dirty
    ensures !Marked(Filtered(m, mask, true))
  {
    hide KeptRows, Find;
    var kept := Filtered(m, mask, true);
    FilteredLookup(m, mask, true, 0);
    forall k | 0 <= k < |kept.rows| ensures !kept.rows[k].dirty {
      FilteredLookup(m, mask, true, kept.rows[k].index);
      FindUnique(kept.rows, k);
    }
  }

  method CopyDirtyPools<V>(r: Registry<V>, mask: seq<bool>) returns (s: Storages<V>)
    requires r.PoolsOk() && AllDistinctRows(r.Models())
    ensures StoragesValid(s) && PoolsOf(s) == DeltaOf(VisiblePools(r.Models(), mask))
  {
    hide Pool.Valid, Pool.M, CompactValid, ModelOf, Filtered, Marked, DeltaOf, VisiblePools;
    s := map[];
    var todo := r.pools.Keys;
    while todo != {}
      invariant todo <= r.pools.Keys && s.Keys <= r.pools.Keys - todo
      invariant forall c :: c in s ==> CompactValid(s[c]) && ModelOf(s[c]) == Filtered(r.Models()[c], mask, true)
      invariant forall c :: c in r.pools.Keys - todo ==> (c in s <==> Marked(Filtered(r.Models()[c], mask, true)))
      decreases todo
    {
      var c :| c in todo;
      assert Distinct(r.Models()[c].rows);
      var copy := CopyIfDirty(r.pools[c], mask);
      if copy.Some? {
        s := s[c := copy.value];
      }
      todo := todo - {c};
    }
    CopiedIsDelta(r.Models(), s, mask);
  }

  lemma CopiedIsDelta<V>(pools: Pools<V>, s: Storages<V>, mask: seq<bool>)
    requires s.Keys <= pools.Keys && StoragesValid(s)
    requires forall c :: c in s ==> ModelOf(s[c]) == Filtered(pools[c], mask, true)
    requires forall c :: c in pools ==> (c in s <==> Marked(Filtered(pools[c], mask, true)))
    ensures PoolsOf(s) == DeltaOf(VisiblePools(pools, mask))
  {
    hide CompactValid, ModelOf, Filtered, Marked;
    forall c | c in pools { DeltaOfVisible(pools, mask, c); }
  }

  method CopyIfDirty<V>(p: Pool<V>, mask: seq<bool>) returns (copy: Option<Compact<V>>)
    requires p.Valid() && Distinct(p.M().rows)
    ensures copy.Some? <==> Marked(Filtered(p.M(), mask, true))
    ensures copy.Some? ==> CompactValid(copy.value) && ModelOf(copy.value) == Filtered(p.M(), mask, true)
  {
    hide Pool.Valid, Pool.M, CompactValid, ModelOf, Filtered, Marked;
    var any := p.HasDirtyEntries();
    if !any {
      CleanPoolIsUnmarked(p.M(), mask);
      return None;
    }
    var c := CloneCompactFiltered(p, mask, true);
    HasDirtyIsMarked(c);
    return if HasDirty(c) then Some(c) else None;
  }

  /** The slots to write, unless they are the baseline's. */
  method DeltaEntities(slots: seq<Entity>, mask: seq<bool>, carried: bool, baseline: seq<Entity>)
    returns (changed: bool, entities: seq<Entity>, freeHead: nat)
    requires RawSlots(slots)
    ensures changed <==> !(carried && Blanked(slots, mask) == baseline)
    ensures changed ==> Slots(entities, freeHead) == Rebuilt(Blanked(slots, mask), INVALID_INDEX, |slots|)
    ensures if changed then RawSlots(entities) && entities == Relinked(Blanked(slots, mask)) else entities == []
  {
    hide Blanked, Rebuilt, RawSlots;
    changed, entities, freeHead := false, [], 0;
    BlankedIsRaw(slots, mask);
    RelinkedKeepsHandles(Blanked(slots, mask));
    var shown := MakeSnapshotEntities(slots, mask);
    if mask == [] { NoneBlanked(slots); }
    if carried && ((mask == [] && slots == baseline) || (mask != [] && shown == baseline)) {
      return;
    }
    changed := true;
    entities, freeHead := RebuildFreeList(shown);
  }

  lemma NoneBlanked(slots: seq<Entity>)
    ensures Blanked(slots, []) == slots
  {
  }

  /** Against a full snapshot. The token names the state this delta leads to. */
  method CreateDelta<V>(r: Registry<V>, baseline: Snapshot<V>, mask: seq<bool>, token: nat)
    returns (d: DeltaSnapshot<V>)
    requires Ready(r) && StoragesValid(baseline.storages)
    ensures StoragesValid(d.storages) && DeltaCapture(d) == DeltaFrom(Shown(r, mask), CaptureOf(baseline), token)
    ensures d.stateToken == token && d.baselineToken == baseline.stateToken
    ensures PoolsOf(d.storages) == DeltaOf(VisiblePools(r.Models(), mask))
    ensures d.hasEntities <==> Blanked(r.store.slots, mask) != baseline.entities
    ensures d.hasEntities ==> RawSlots(d.entities)
    ensures if d.hasEntities then
              Slots(d.entities, d.freeHead) == Rebuilt(Blanked(r.store.slots, mask), INVALID_INDEX, |r.store.slots|)
            else d.freeHead == baseline.freeHead
  {
    hide Pool.Valid, Pool.M, Sound, CompactValid, ModelOf, DeltaOf, Rebuilt, EntityStore.Valid, VisiblePools, Blanked,
        RawSlots;
    SoundRows(r.W());
    ValidIsRaw(r.store);
    var storages := CopyDirtyPools(r, mask);
    var changed, entities, freeHead := DeltaEntities(r.store.slots, mask, true, baseline.entities);
    var head := if changed then freeHead else baseline.freeHead;
    d := DeltaSnapshot(storages, changed, entities, head, baseline.stateToken, token);
  }

  /** Against another delta, which may itself have left the slots out. */
  method CreateNextDelta<V>(r: Registry<V>, baseline: DeltaSnapshot<V>, mask: seq<bool>, token: nat)
    returns (d: DeltaSnapshot<V>)
    requires Ready(r) && StoragesValid(baseline.storages)
    ensures StoragesValid(d.storages) && DeltaCapture(d) == DeltaFrom(Shown(r, mask), DeltaCapture(baseline), token)
    ensures d.stateToken == token && d.baselineToken == baseline.stateToken
    ensures PoolsOf(d.storages) == DeltaOf(VisiblePools(r.Models(), mask))
    ensures d.hasEntities <==> !baseline.hasEntities || Blanked(r.store.slots, mask) != baseline.entities
    ensures d.hasEntities ==> RawSlots(d.entities)
    ensures if d.hasEntities then
              Slots(d.entities, d.freeHead) == Rebuilt(Blanked(r.store.slots, mask), INVALID_INDEX, |r.store.slots|)
            else d.freeHead == baseline.freeHead
  {
    hide Pool.Valid, Pool.M, Sound, CompactValid, ModelOf, DeltaOf, Rebuilt, EntityStore.Valid, VisiblePools, Blanked,
        RawSlots;
    SoundRows(r.W());
    ValidIsRaw(r.store);
    var storages := CopyDirtyPools(r, mask);
    var changed, entities, freeHead := DeltaEntities(r.store.slots, mask, baseline.hasEntities, baseline.entities);
    var head := if changed then freeHead else baseline.freeHead;
    d := DeltaSnapshot(storages, changed, entities, head, baseline.stateToken, token);
  }

  method RebuildPools<V>(s: Storages<V>) returns (pools: map<nat, Pool<V>>)
    requires StoragesValid(s)
    ensures fresh(pools.Values) && pools.Keys == s.Keys
    ensures forall c :: c in pools ==> pools[c].Valid() && pools[c].M() == ModelOf(s[c])
    ensures forall c, d :: c in pools && d in pools && c != d ==> pools[c] != pools[d]
  {
    hide Pool.Valid, Pool.M, CompactValid, ModelOf;
    pools := map[];
    var todo := s.Keys;
    while todo != {}
      invariant todo <= s.Keys && pools.Keys == s.Keys - todo && fresh(pools.Values)
      invariant forall c :: c in pools ==> pools[c].Valid() && pools[c].M() == ModelOf(s[c])
      invariant forall c, d :: c in pools && d in pools && c != d ==> pools[c] != pools[d]
      decreases todo
    {
      var c :| c in todo;
      var pool := CloneForRestore(s[c]);
      assert pools[c := pool].Values <= pools.Values + {pool};
      pools := pools[c := pool];
      todo := todo - {c};
    }
  }

  method OwnAll(before: map<nat, nat>, owned: seq<nat>, g: nat) returns (owner: map<nat, nat>)
    ensures owner == GrownOwner(before, owned, g)
  {
    owner := before;
    for k := 0 to |owned|
      invariant owner == GrownOwner(before, owned[..k], g)
    {
      assert owned[..k + 1] == owned[..k] + [owned[k]];
      owner := owner[owned[k] := g];
    }
    assert owned[..|owned|] == owned;
  }

  method RebuildOwnership(groups: seq<Group>) returns (owner: map<nat, nat>)
    ensures owner == OwnersOf(groups, |groups|)
  {
    hide GrownOwner;
    owner := map[];
    for g := 0 to |groups|
      invariant owner == OwnersOf(groups, g)
    {
      owner := OwnAll(owner, groups[g].owned, g);
    }
  }

  lemma ConsistentParts<V>(s: Snapshot<V>)
    requires Consistent(s)
    ensures StoragesValid(s.storages) && RawSlots(s.entities)
    ensures Sound(World(PoolsOf(s.storages), s.groups, OwnersOf(s.groups, |s.groups|), 0, []))
  {
  }

  method RestoreSnapshot<V>(r: Registry<V>, s: Snapshot<V>)
    requires r.depth == 0 && r.pending == [] && Consistent(s)
    modifies r, r.store
    ensures Ready(r) && fresh(r.pools.Values) && r.groups == s.groups
    ensures StateOf(r) == State(PoolsOf(s.storages), Relinked(s.entities), s.stateToken)
    ensures r.Models() == PoolsOf(s.storages) && r.stateToken == s.stateToken
    ensures r.store.S() == Rebuilt(s.entities, INVALID_INDEX, |s.entities|) && r.viewToken == old(r.viewToken) + 1
  {
    hide Pool.Valid, Pool.M, Sound, CompactValid, ModelOf, Rebuilt, OwnersOf, WellLinked, RawSlots, Consistent,
        StoragesValid, Alive, LinkedInOrder, GrownOwner, FreeList;
    ConsistentParts(s);
    RebuildKeepsHandles(s.entities);
    var pools := RebuildPools(s.storages);
    var owner := RebuildOwnership(s.groups);
    var entities, freeHead := RebuildFreeList(s.entities);
    r.store.slots, r.store.freeHead := entities, freeHead;
    r.pools, r.groups, r.owner := pools, s.groups, owner;
    r.stateToken := s.stateToken;
    r.viewToken := r.viewToken + 1;
    assert r.Models() == PoolsOf(s.storages);
    assert r.W() == World(PoolsOf(s.storages), s.groups, OwnersOf(s.groups, |s.groups|), 0, []);
  }
}
