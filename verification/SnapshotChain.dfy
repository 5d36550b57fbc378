/** A stream of full snapshots and deltas: whoever restores them one after another holds, at every
    frame, the live entities and component values the source had when it emitted that frame. */
module SnapshotChain {
  import opened PoolModel
  import opened OwnedGroups
  import opened EntitySlots
  import opened RegistryModule
  import opened DeltaReplay

  datatype State<V> = State(pools: Pools<V>, slots: seq<Entity>, token: nat)

  datatype Capture<V> =
    | Full(pools: Pools<V>, entities: seq<Entity>, token: nat)
    | Delta(pools: Pools<V>, hasEntities: bool, entities: seq<Entity>, base: nat, token: nat)

  function Relinked(slots: seq<Entity>): seq<Entity> { Rebuilt(slots, INVALID_INDEX, |slots|).slots }

  function FullOf<V>(s: State<V>): Capture<V> { Full(s.pools, Relinked(s.slots), s.token) }

  /** A baseline that carries slots, and carries exactly these. */
  predicate SlotsUnchanged<V>(slots: seq<Entity>, baseline: Capture<V>) {
    (baseline.Full? || baseline.hasEntities) && slots == baseline.entities
  }

  ghost function DeltaFrom<V>(s: State<V>, baseline: Capture<V>, token: nat): Capture<V> {
    if SlotsUnchanged(s.slots, baseline) then Delta(DeltaOf(s.pools), false, [], baseline.token, token)
    else Delta(DeltaOf(s.pools), true, Relinked(s.slots), baseline.token, token)
  }

  function SlotsAfter<V>(t: State<V>, c: Capture<V>): seq<Entity> {
    if c.Full? || c.hasEntities then Relinked(c.entities) else t.slots
  }

  /** Restoring returns normally: full snapshots always, deltas when token, removals and rows fit. */
  ghost predicate CanRestore<V>(t: State<V>, c: Capture<V>) {
    c.Full? ||
    (t.token == c.base && (forall k, i :: !Unremovable(t.pools, c.pools, k, i)) && RowsAlive(c.pools, SlotsAfter(t, c)))
  }

  ghost predicate RestoresTo<V>(t: State<V>, c: Capture<V>, after: State<V>) {
    && CanRestore(t, c) && after.token == c.token && after.slots == SlotsAfter(t, c)
    && (forall k, i ::
        ValueAt(after.pools, k, i) == if c.Full? then ValueAt(c.pools, k, i) else Replayed(t.pools, c.pools, k, i))
  }

  /** What happened between two frames: any number of registry steps. */
  datatype Work<V> = Work(run: seq<Pools<V>>, ops: seq<Edit<V>>)

  ghost predicate Leads<V>(a: Pools<V>, w: Work<V>, b: Pools<V>) {
    && |w.run| == |w.ops| + 1 && w.run[0] == a && w.run[|w.ops|] == b
    && (forall k :: 0 <= k < |w.ops| ==> Edited(w.run[k], w.run[k + 1], w.ops[k]))
  }

  ghost predicate Usable<V>(s: State<V>) {
    AllDistinctRows(s.pools) && RawSlots(s.slots) && RowsAlive(s.pools, s.slots)
  }

  /** Each frame is a full snapshot or a delta against the frame before, after which all marks
      were cleared. */
  ghost predicate Emitted<V>(states: seq<State<V>>, work: seq<Work<V>>, caps: seq<Capture<V>>, k: nat)
    requires |states| == |caps| == |work| && k < |caps|
  {
    && Usable(states[k])
    && (caps[k] == FullOf(states[k])
        || (k > 0 && caps[k] == DeltaFrom(states[k], caps[k - 1], caps[k].token)
            && Leads(Cleared(states[k - 1].pools), work[k], states[k].pools)))
  }

  ghost predicate Mirrors<V>(t: State<V>, s: State<V>, c: Capture<V>) {
    && (forall k, i :: ValueAt(t.pools, k, i) == ValueAt(s.pools, k, i))
    && (forall e :: Alive(t.slots, e) <==> Alive(s.slots, e))
    && t.token == c.token
  }

  lemma RelinkedKeepsHandles(slots: seq<Entity>)
    requires RawSlots(slots)
    ensures RawSlots(Relinked(slots)) && |Relinked(slots)| == |slots|
    ensures forall e :: Alive(Relinked(slots), e) <==> Alive(slots, e)
  {
    RebuildKeepsHandles(slots);
    var r := Rebuilt(slots, INVALID_INDEX, |slots|);
    var free :| FreeList(r, free);
  }

  /** The slot array a delta omits is one the target already has. */
  lemma SlotsFollow<V>(t: State<V>, s: State<V>, now: State<V>, c: Capture<V>, next: Capture<V>)
    requires RawSlots(s.slots) && RawSlots(now.slots)
    requires forall e :: Alive(t.slots, e) <==> Alive(s.slots, e)
    requires (c.Full? || c.hasEntities) ==> c.entities == Relinked(s.slots)
    requires next == FullOf(now) || next == DeltaFrom(now, c, next.token)
    ensures forall e :: Alive(SlotsAfter(t, next), e) <==> Alive(now.slots, e)
  {
    RelinkedKeepsHandles(s.slots);
    RelinkedKeepsHandles(now.slots);
    RelinkedKeepsHandles(Relinked(now.slots));
  }

  lemma SameAliveRows<V>(pools: Pools<V>, a: seq<Entity>, b: seq<Entity>)
    requires RowsAlive(pools, a) && forall e :: Alive(b, e) <==> Alive(a, e)
    ensures RowsAlive(pools, b)
  {
    forall c: nat, i: nat | Contains(pools, c, i) ensures i < |b| && AliveAt(b, i) {
      assert Alive(b, a[i]);
    }
  }

  lemma DeltaRowsAlive<V>(pools: Pools<V>, slots: seq<Entity>)
    requires AllDistinctRows(pools) && RowsAlive(pools, slots)
    ensures RowsAlive(DeltaOf(pools), slots)
  {
    hide DeltaOf;
    forall c: nat, i: nat | Contains(DeltaOf(pools), c, i) ensures i < |slots| && AliveAt(slots, i) {
      DeltaLookup(pools, c, i);
      assert Contains(pools, c, i);
    }
  }

  /** A plain removal that replay cannot follow: the previous frame had no such row, or the same
      frame also destroyed an entity at that index. */
  ghost predicate Stuck<V>(before: Pools<V>, now: Pools<V>, c: nat, i: nat) {
    Removed(now, c, i) && (ValueAt(before, c, i).None? || Gone(now, i))
  }

  ghost predicate Flows<V>(before: Pools<V>, now: Pools<V>) { forall c, i :: !Stuck(before, now, c, i) }

  lemma StuckIsUnremovable<V>(target: Pools<V>, before: Pools<V>, now: Pools<V>, c: nat, i: nat)
    requires AllDistinctRows(now) && ValueAt(target, c, i) == ValueAt(before, c, i)
    ensures Unremovable(target, DeltaOf(now), c, i) <==> Stuck(before, now, c, i)
  {
    hide DeltaOf, RowAt, TombAt;
    DeltaLookup(now, c, i);
    if Gone(now, i) {
      var d: nat :| DestroyTomb(now, d, i);
      DeltaLookup(now, d, i);
      assert DestroyTomb(DeltaOf(now), d, i);
    }
    if Gone(DeltaOf(now), i) {
      var d: nat :| DestroyTomb(DeltaOf(now), d, i);
      DeltaLookup(now, d, i);
      assert DestroyTomb(now, d, i);
    }
  }

  /** A capture that carries slots carries those of state s. */
  predicate SlotsCaptured<V>(c: Capture<V>, s: State<V>) {
    (c.Full? || c.hasEntities) ==> c.entities == Relinked(s.slots)
  }

  /** The next frame: all of `now`, or what changed since `before`, which was captured by c. */
  ghost predicate NextFrame<V>(before: State<V>, c: Capture<V>, w: Work<V>, now: State<V>, next: Capture<V>) {
    && Usable(before) && Usable(now) && SlotsCaptured(c, before)
    && (next == FullOf(now) || (next == DeltaFrom(now, c, next.token) && Leads(Cleared(before.pools), w, now.pools)))
  }

  /** A target that mirrors one frame can restore the next exactly when nothing in it is stuck. */
  lemma StepRestorable<V>(before: State<V>, c: Capture<V>, w: Work<V>, now: State<V>, next: Capture<V>, t: State<V>)
    requires NextFrame(before, c, w, now, next) && next.Delta? && Mirrors(t, before, c)
    ensures CanRestore(t, next) <==> Flows(before.pools, now.pools)
  {
    hide DeltaOf, RowAt, TombAt, Leads, Stuck, Unremovable, RowsAlive, AllDistinctRows, Relinked, RawSlots;
    SlotsFollow(t, before, now, c, next);
    DeltaRowsAlive(now.pools, now.slots);
    SameAliveRows(DeltaOf(now.pools), now.slots, SlotsAfter(t, next));
    forall k, i ensures Unremovable(t.pools, next.pools, k, i) <==> Stuck(before.pools, now.pools, k, i) {
      StuckIsUnremovable(t.pools, before.pools, now.pools, k, i);
    }
  }

  /** Restoring it makes the target mirror that frame, and the next step can follow. */
  lemma StepMirrors<V>(before: State<V>, c: Capture<V>, w: Work<V>, now: State<V>, next: Capture<V>, t: State<V>,
      after: State<V>)
    requires NextFrame(before, c, w, now, next) && Mirrors(t, before, c) && RestoresTo(t, next, after)
    ensures Mirrors(after, now, next) && SlotsCaptured(next, now)
  {
    hide DeltaOf, RowAt, TombAt, RowsAlive, AllDistinctRows, Relinked, Leads, RawSlots, CanRestore, Tracks, Cleared;
    SlotsFollow(t, before, now, c, next);
    if next.Delta? {
      FrameTracks(before.pools, w, now.pools);
      forall k, i ensures ValueAt(after.pools, k, i) == ValueAt(now.pools, k, i) {
        ReplayIsCurrent(Cleared(before.pools), now.pools, k, i);
        assert Replayed(t.pools, next.pools, k, i) == Replayed(Cleared(before.pools), next.pools, k, i);
      }
    }
  }

  lemma EmittedIsNext<V>(states: seq<State<V>>, work: seq<Work<V>>, caps: seq<Capture<V>>, k: nat)
    requires |states| == |caps| == |work| && 0 < k < |caps|
    requires Emitted(states, work, caps, k - 1) && Emitted(states, work, caps, k)
    ensures NextFrame(states[k - 1], caps[k - 1], work[k], states[k], caps[k])
  {
    hide DeltaOf, Leads, Relinked;
  }

  lemma RestorableUnlessStuck<V>(states: seq<State<V>>, work: seq<Work<V>>, caps: seq<Capture<V>>, k: nat, t: State<V>)
    requires |states| == |caps| == |work| && 0 < k < |caps|
    requires Emitted(states, work, caps, k - 1) && Emitted(states, work, caps, k) && caps[k].Delta?
    requires Mirrors(t, states[k - 1], caps[k - 1])
    ensures CanRestore(t, caps[k]) <==> Flows(states[k - 1].pools, states[k].pools)
  {
    hide Emitted, NextFrame, Mirrors, CanRestore, Flows;
    EmittedIsNext(states, work, caps, k);
    StepRestorable(states[k - 1], caps[k - 1], work[k], states[k], caps[k], t);
  }

  lemma FrameMirrors<V>(states: seq<State<V>>, work: seq<Work<V>>, caps: seq<Capture<V>>, k: nat, t: State<V>,
      after: State<V>)
    requires |states| == |caps| == |work| && 0 < k < |caps|
    requires Emitted(states, work, caps, k - 1) && Emitted(states, work, caps, k)
    requires Mirrors(t, states[k - 1], caps[k - 1]) && RestoresTo(t, caps[k], after)
    ensures Mirrors(after, states[k], caps[k])
  {
    hide Emitted, NextFrame, Mirrors, RestoresTo;
    EmittedIsNext(states, work, caps, k);
    StepMirrors(states[k - 1], caps[k - 1], work[k], states[k], caps[k], t, after);
  }

  lemma FrameTracks<V>(before: Pools<V>, w: Work<V>, now: Pools<V>)
    requires AllDistinctRows(before) && Leads(Cleared(before), w, now)
    ensures Tracks(Cleared(before), now)
    ensures forall c, i :: ValueAt(Cleared(before), c, i) == ValueAt(before, c, i)
  {
    hide Tracks, Edited;
    ClearedTracks(before);
    RunTracks(Cleared(before), w.run, w.ops);
  }

  /** The main result. `start` is any registry; every later restore is against the one before. */
  lemma {:induction false} ReplicaFollowsTheSource<V>(states: seq<State<V>>, work: seq<Work<V>>, caps: seq<Capture<V>>,
                                                      start: State<V>, replica: seq<State<V>>, k: nat)
    requires |states| == |caps| == |work| == |replica| && k < |caps|
    requires forall n: nat :: n <= k ==> Emitted(states, work, caps, n)
    requires RestoresTo(start, caps[0], replica[0])
    requires forall n: nat :: 0 < n <= k ==> RestoresTo(replica[n - 1], caps[n], replica[n])
    ensures Mirrors(replica[k], states[k], caps[k])
    decreases k
  {
    hide Emitted, RestoresTo, Mirrors;
    if k == 0 {
      FirstIsFull(states, work, caps);
      FullFrameMirrors(states, work, caps, 0, start, replica[0]);
    } else {
      ReplicaFollowsTheSource(states, work, caps, start, replica, k - 1);
      FrameMirrors(states, work, caps, k, replica[k - 1], replica[k]);
    }
  }

  /** A full snapshot does not depend on what came before. */
  lemma FullFrameMirrors<V>(states: seq<State<V>>, work: seq<Work<V>>, caps: seq<Capture<V>>, k: nat, start: State<V>,
      after: State<V>)
    requires |states| == |caps| == |work| && k < |caps| && caps[k].Full?
    requires Emitted(states, work, caps, k) && RestoresTo(start, caps[k], after)
    ensures Mirrors(after, states[k], caps[k])
  {
    hide RowAt, RowsAlive, AllDistinctRows, Relinked, RawSlots;
    RelinkedKeepsHandles(states[k].slots);
    RelinkedKeepsHandles(Relinked(states[k].slots));
  }

  lemma FirstIsFull<V>(states: seq<State<V>>, work: seq<Work<V>>, caps: seq<Capture<V>>)
    requires |states| == |caps| == |work| > 0 && Emitted(states, work, caps, 0)
    ensures caps[0].Full?
  {
  }

  /** Rows of a mirror belong to live slots, so it is a valid registry again. */
  lemma MirrorRowsAlive<V>(t: State<V>, s: State<V>, c: Capture<V>)
    requires Mirrors(t, s, c) && RowsAlive(s.pools, s.slots)
    ensures RowsAlive(t.pools, t.slots)
  {
    forall d: nat, i: nat | Contains(t.pools, d, i) ensures i < |t.slots| && AliveAt(t.slots, i) {
      assert ValueAt(t.pools, d, i) == ValueAt(s.pools, d, i);
      assert Contains(s.pools, d, i);
      assert Alive(s.slots, s.slots[i]) && Alive(t.slots, s.slots[i]);
    }
  }

  /** Two frames a replica cannot follow. A component added and removed since the baseline: */
  lemma AddThenRemoveIsStuck<V>(c: nat, e: Entity, v: V)
    requires e.version > 0
    ensures var empty: Pools<V> := map[c := Model([], map[])];
            var added := map[c := Emplace(empty[c], e, v)];
            var now := map[c := Remove(added[c], e, false)];
            Edited(empty, added, Put(c, e, v)) && Edited(added, now, Take(c, e)) && Stuck(empty, now, c, e.index)
  {
    hide Edited, Find;
    var empty: Pools<V> := map[c := Model([], map[])];
    var added := map[c := Emplace(empty[c], e, v)];
    var now := map[c := Remove(added[c], e, false)];
    NothingFound<V>(e.index);
    EmplaceIsPut(empty[c], c, e, v);
    RemoveIsTake(added[c], c, e);
    assert TombAt(now, c, e.index) == Some(Tomb(e, true, false));
    assert ValueAt(empty, c, e.index).None?;
  }

  lemma NothingFound<V>(i: nat)
    ensures Find<V>([], i) == 0 && Distinct<V>([])
  {
  }

  lemma EmplaceIsPut<V>(m: Model<V>, c: nat, e: Entity, v: V)
    requires Distinct(m.rows) && !Has(m, e.index)
    ensures Edited(map[c := m], map[c := Emplace(m, e, v)], Put(c, e, v)) && Has(Emplace(m, e, v), e.index)
    ensures Distinct(Emplace(m, e, v).rows)
  {
    hide Find, Distinct;
    forall i { EmplaceLookup(m, e, v, i); }
  }

  lemma RemoveIsTake<V>(m: Model<V>, c: nat, e: Entity)
    requires Distinct(m.rows) && Has(m, e.index)
    ensures Edited(map[c := m], map[c := Remove(m, e, false)], Take(c, e))
  {
    hide Find, Distinct;
    var a, b := map[c := m], map[c := Remove(m, e, false)];
    forall d, i
      ensures RowAt(b, d, i) == RowAfter(a, Take(c, e), d, i) && TombAt(b, d, i) == TombAfter(a, Take(c, e), d, i)
    {
      RemoveLookup(m, e, false, i);
    }
    RemoveLookup(m, e, false, 0);
  }

  /** and one component removed before its entity, which still had another, was destroyed. */
  lemma RemoveThenDestroyIsStuck<V>(base: Pools<V>, before: Pools<V>, now: Pools<V>, a: nat, b: nat, e: Entity)
    requires a in before && b in before && a != b && Contains(before, b, e.index)
    requires TombAt(before, a, e.index) == Some(Tomb(e, true, false)) && RowAt(before, a, e.index).None?
    requires Edited(before, now, Kill(e))
    ensures Stuck(base, now, a, e.index)
  {
    hide Find;
    assert TombAt(now, a, e.index) == TombAfter(before, Kill(e), a, e.index);
    assert TombAt(now, b, e.index) == TombAfter(before, Kill(e), b, e.index);
    assert DestroyTomb(now, b, e.index);
  }
}
