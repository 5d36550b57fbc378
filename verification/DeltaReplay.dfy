/** What a delta snapshot means: dirty rows, tombstones and slots since a baseline, and why
    replaying it over the baseline gives the current state, whatever happened in between. */
module DeltaReplay {
  import opened PoolModel
  import opened OwnedGroups
  import opened PoolClone
  import opened RegistryModule

  function RowAt<V>(pools: Pools<V>, c: nat, i: nat): Option<Row<V>> {
    if c in pools then Lookup(pools[c], i) else None
  }

  function TombAt<V>(pools: Pools<V>, c: nat, i: nat): Option<Tomb> {
    if c in pools && i in pools[c].tombs then Some(pools[c].tombs[i]) else None
  }

  /** A component value, if the entity has one. */
  function ValueAt<V>(pools: Pools<V>, c: nat, i: nat): Option<V> {
    if RowAt(pools, c, i).Some? then Some(RowAt(pools, c, i).value.value) else None
  }

  predicate RowDirty<V>(pools: Pools<V>, c: nat, i: nat) { RowAt(pools, c, i).Some? && RowAt(pools, c, i).value.dirty }

  predicate Marked<V>(m: Model<V>) {
    (exists k :: 0 <= k < |m.rows| && m.rows[k].dirty) || m.tombs != map[]
  }

  /** The pools a delta keeps: dirty rows and all tombstones of every marked pool. */
  ghost function DeltaOf<V>(pools: Pools<V>): Pools<V> {
    map c | c in pools && Marked(Filtered(pools[c], [], true)) :: Filtered(pools[c], [], true)
  }

  lemma DeltaLookup<V>(pools: Pools<V>, c: nat, i: nat)
    requires AllDistinctRows(pools)
    ensures RowAt(DeltaOf(pools), c, i) == if RowDirty(pools, c, i) then RowAt(pools, c, i) else None
    ensures TombAt(DeltaOf(pools), c, i) == TombAt(pools, c, i)
  {
    if c in pools {
      var m := Filtered(pools[c], [], true);
      FilteredLookup(pools[c], [], true, i);
      assert m.tombs == pools[c].tombs;
      if RowDirty(pools, c, i) {
        assert m.rows[Find(m.rows, i)].dirty;
      }
    }
  }

  /** A delta has an entry for a component exactly when something in its pool is marked or was removed. */
  lemma DeltaKeys<V>(pools: Pools<V>, c: nat)
    requires AllDistinctRows(pools)
    ensures c in DeltaOf(pools) <==> exists i: nat :: RowDirty(pools, c, i) || TombAt(pools, c, i).Some?
  {
    hide KeptRows, Find;
    if c in pools {
      var m := Filtered(pools[c], [], true);
      if k: nat :| k < |m.rows| && m.rows[k].dirty {
        FilteredLookup(pools[c], [], true, m.rows[k].index);
        FindUnique(m.rows, k);
        assert RowDirty(pools, c, m.rows[k].index);
      } else if m.tombs != map[] {
        var i :| i in m.tombs;
        assert TombAt(pools, c, i).Some?;
      }
      if i: nat :| RowDirty(pools, c, i) || TombAt(pools, c, i).Some? {
        FilteredLookup(pools[c], [], true, i);
        if RowDirty(pools, c, i) { assert m.rows[Find(m.rows, i)].dirty; } else { assert i in m.tombs; }
      }
    }
  }

  predicate DestroyTomb<V>(pools: Pools<V>, c: nat, i: nat) {
    TombAt(pools, c, i).Some? && TombAt(pools, c, i).value.destroy
  }

  /** Some pool recorded that entity i was destroyed. */
  ghost predicate Gone<V>(delta: Pools<V>, i: nat) { exists c: nat :: DestroyTomb(delta, c, i) }

  predicate Removed<V>(delta: Pools<V>, c: nat, i: nat) {
    TombAt(delta, c, i).Some? && TombAt(delta, c, i).value.dirty && !TombAt(delta, c, i).value.destroy
  }

  /** The value replay leaves at (c, i): destroyed entities lose everything first, then each pool
      drops its removals and takes its rows. */
  ghost function Replayed<V>(base: Pools<V>, delta: Pools<V>, c: nat, i: nat): Option<V> {
    if ValueAt(delta, c, i).Some? then ValueAt(delta, c, i)
    else if Gone(delta, i) || Removed(delta, c, i) then None
    else ValueAt(base, c, i)
  }

  /** A removal the target cannot perform: its row is not there, or fell with its entity. */
  ghost predicate Unremovable<V>(base: Pools<V>, delta: Pools<V>, c: nat, i: nat) {
    Removed(delta, c, i) && (ValueAt(base, c, i).None? || Gone(delta, i))
  }

  /** What the marks at (c, i) must remember about the way from `base` to `now`. */
  ghost predicate Remembered<V>(base: Pools<V>, now: Pools<V>, c: nat, i: nat) {
    && (ValueAt(now, c, i) == ValueAt(base, c, i) || RowDirty(now, c, i)
        || (ValueAt(now, c, i).None? && TombAt(now, c, i).Some?))
    && (TombAt(now, c, i).Some? ==> TombAt(now, c, i).value.dirty && (RowAt(now, c, i).Some? ==> RowDirty(now, c, i)))
    && (DestroyTomb(now, c, i) ==> forall d :: RowAt(now, d, i).Some? ==> RowDirty(now, d, i))
  }

  ghost predicate Tracks<V>(base: Pools<V>, now: Pools<V>) {
    AllDistinctRows(now) && forall c, i :: Remembered(base, now, c, i)
  }

  /** Replaying the delta over the baseline gives the current value of every component. */
  lemma ReplayIsCurrent<V>(base: Pools<V>, now: Pools<V>, c: nat, i: nat)
    requires Tracks(base, now)
    ensures Replayed(base, DeltaOf(now), c, i) == ValueAt(now, c, i)
  {
    hide DeltaOf, RowAt, TombAt;
    DeltaLookup(now, c, i);
    assert Remembered(base, now, c, i);
    if Gone(DeltaOf(now), i) {
      var d: nat :| DestroyTomb(DeltaOf(now), d, i);
      DeltaLookup(now, d, i);
      assert Remembered(base, now, d, i);
    }
    if DestroyTomb(now, c, i) { assert DestroyTomb(DeltaOf(now), c, i); }
  }

  /** One step of a registry, as far as rows and tombstones go. */
  datatype Edit<V> = Put(c: nat, e: Entity, v: V) | Take(c: nat, e: Entity) | Kill(e: Entity)
      | Set(c: nat, i: nat, v: V) | Shuffle

  function RowAfter<V>(a: Pools<V>, op: Edit<V>, c: nat, i: nat): Option<Row<V>> {
    var row := RowAt(a, c, i);
    match op
    case Put(d, e, v) => if c == d &&
        i == e.index then Some(Row(i, v, true, if row.Some? then row.value.added else true)) else row
    case Take(d, e) => if c == d && i == e.index then None else row
    case Kill(e) => if i == e.index then None else row
    case Set(d, j, v) => if c == d && i == j && row.Some? then Some(row.value.(value := v, dirty := true)) else row
    case Shuffle => row
  }

  function TombAfter<V>(a: Pools<V>, op: Edit<V>, c: nat, i: nat): Option<Tomb> {
    var row, tomb := RowAt(a, c, i), TombAt(a, c, i);
    match op
    case Put(d, e, v) => if c == d && i == e.index && row.None? && tomb.Some? && tomb.value.entity == e then None
        else tomb
    case Take(d, e) => if c == d && i == e.index && row.Some? then Some(Tomb(e, true, false)) else tomb
    case Kill(e) => if i == e.index && row.Some? then Some(Tomb(e, true, true)) else tomb
    case Set(_, _, _) => tomb
    case Shuffle => tomb
  }

  ghost predicate Edited<V>(a: Pools<V>, b: Pools<V>, op: Edit<V>) {
    && AllDistinctRows(b)
    && (forall c, i :: RowAt(b, c, i) == RowAfter(a, op, c, i))
    && (forall c, i :: TombAt(b, c, i) == TombAfter(a, op, c, i))
  }

  /** Whatever one step does, the marks remember it. */
  lemma EditKeepsTracks<V>(base: Pools<V>, a: Pools<V>, b: Pools<V>, op: Edit<V>)
    requires Tracks(base, a) && Edited(a, b, op)
    ensures Tracks(base, b)
  {
    hide RowAt, TombAt, AllDistinctRows;
    forall c, i ensures Remembered(base, b, c, i) {
      assert Remembered(base, a, c, i);
      if DestroyTomb(b, c, i) {
        forall d | RowAt(b, d, i).Some? ensures RowDirty(b, d, i) {
          assert RowAt(b, d, i) == RowAfter(a, op, d, i);
          assert Remembered(base, a, d, i);
        }
      }
    }
  }

  lemma {:induction false} RunTracks<V>(base: Pools<V>, run: seq<Pools<V>>, ops: seq<Edit<V>>)
    requires |run| == |ops| + 1 && Tracks(base, run[0])
    requires forall k :: 0 <= k < |ops| ==> Edited(run[k], run[k + 1], ops[k])
    ensures Tracks(base, run[|ops|])
    decreases |ops|
  {
    hide Tracks, Edited;
    if ops != [] {
      var n := |ops| - 1;
      RunTracks(base, run[..n + 1], ops[..n]);
      EditKeepsTracks(base, run[n], run[n + 1], ops[n]);
    }
  }

  ghost function Cleared<V>(pools: Pools<V>): Pools<V> { map c | c in pools :: ClearAll(pools[c]) }

  /** Nothing is marked and nothing has changed right after all marks were cleared. */
  lemma ClearedTracks<V>(pools: Pools<V>)
    requires AllDistinctRows(pools)
    ensures Tracks(Cleared(pools), Cleared(pools))
    ensures forall c, i :: ValueAt(Cleared(pools), c, i) == ValueAt(pools, c, i)
  {
    var cleared := Cleared(pools);
    forall c, i ensures ValueAt(cleared, c, i) == ValueAt(pools, c, i) {
      if c in pools { ClearAllLookup(pools[c], i); }
    }
    forall c | c in cleared ensures Distinct(cleared[c].rows) { ClearAllLookup(pools[c], 0); }
  }

  /** Each registry operation is one such step. */
  lemma AddIsPut<V>(w: World<V>, c: nat, e: Entity, v: V)
    requires Sound(w)
    ensures c in w.owner ==> w.owner[c] < |w.groups|
    ensures Edited(w.pools, AddRow(w, c, e, v).pools, Put(c, e, v))
  {
    hide Sound, Base, Refresh, Find;
    SoundIsBase(w);
    OwnerInRange(w, c);
    AddRowIsSound(w, c, e, v);
    SoundRows(AddRow(w, c, e, v));
    SoundRows(w);
    forall d, i { AddIsPutAt(w, c, e, v, d, i); }
  }

  lemma AddIsPutAt<V>(w: World<V>, c: nat, e: Entity, v: V, d: nat, i: nat)
    requires Sound(w) && AllDistinctRows(w.pools)
    ensures c in w.owner ==> w.owner[c] < |w.groups|
    ensures RowAt(AddRow(w, c, e, v).pools, d, i) == RowAfter(w.pools, Put(c, e, v), d, i)
    ensures TombAt(AddRow(w, c, e, v).pools, d, i) == TombAfter(w.pools, Put(c, e, v), d, i)
  {
    hide Sound, Base, Refresh, Find, AddRow;
    SoundIsBase(w);
    OwnerInRange(w, c);
    AddRowLookup(w, c, e, v, d, i);
    if d == c {
      EmplaceLookup(WithPool(w.pools, c)[c], e, v, i);
      assert c !in w.pools ==> Lookup(WithPool(w.pools, c)[c], i).None?;
    }
  }

  /** Ensuring writes the value that is there, or puts a zero value. */
  lemma EnsureIsEdit<V>(w: World<V>, c: nat, e: Entity, zero: V)
    requires Sound(w)
    ensures c in w.owner ==> w.owner[c] < |w.groups|
    ensures Edited(w.pools, EnsureRow(w, c, e, zero).pools,
                   if ValueAt(w.pools, c, e.index).Some? then Set(c, e.index, ValueAt(w.pools, c, e.index).value)
                       else Put(c, e, zero))
  {
    hide Sound, Base, Refresh, Find, AllDistinctRows, MarkedRow, Edited;
    SoundIsBase(w);
    OwnerInRange(w, c);
    if Contains(w.pools, c, e.index) {
      MarkedIsSound(w, c, e.index);
      EnsureRowIsSound(w, c, e, zero);
      SoundRows(w);
      SoundRows(EnsureRow(w, c, e, zero));
      SoundIsBase(MarkedRow(w, c, e.index));
      RefreshContent(MarkedRow(w, c, e.index), e.index, c);
      MarkIsSet(w, c, e.index, EnsureRow(w, c, e, zero).pools);
    } else {
      AddIsPut(w, c, e, zero);
    }
  }

  lemma MarkIsSet<V>(w: World<V>, c: nat, j: nat, b: Pools<V>)
    requires AllDistinctRows(w.pools) && AllDistinctRows(b) && Contains(w.pools, c, j)
    requires SameContent(MarkedRow(w, c, j).pools, b)
    ensures Edited(w.pools, b, Set(c, j, ValueAt(w.pools, c, j).value))
  {
    hide Find;
    forall d, i ensures RowAt(b, d, i) == RowAfter(w.pools, Set(c, j, ValueAt(w.pools, c, j).value), d, i) {
      if d == c { MarkDirtyLookup(w.pools[c], j, i); }
    }
  }

  lemma RemoveIsDrop<V>(w: World<V>, c: nat, e: Entity)
    requires Sound(w)
    ensures c in w.owner ==> w.owner[c] < |w.groups|
    ensures Edited(w.pools, RemoveRow(w, c, e, false).pools, Take(c, e))
  {
    hide Sound, Base, RemoveRow, Find;
    SoundIsBase(w);
    OwnerInRange(w, c);
    RemoveRowIsSound(w, c, e, false);
    SoundRows(RemoveRow(w, c, e, false));
    RemoveRowKeys(w, c, e, false);
    forall d, i
      ensures RowAt(RemoveRow(w, c, e, false).pools, d, i) == RowAfter(w.pools, Take(c, e), d, i)
      ensures TombAt(RemoveRow(w, c, e, false).pools, d, i) == TombAfter(w.pools, Take(c, e), d, i)
    {
      if d in w.pools { RemoveRowLookup(w, c, e, false, d, i); }
    }
  }

  lemma DestroyIsKill<V>(a: Pools<V>, b: Pools<V>, e: Entity)
    requires AllDistinctRows(b) && RowsKilled(a, b, Holders(a, e.index), e)
    ensures Edited(a, b, Kill(e))
  {
    hide Find;
    forall c, i
      ensures RowAt(b, c, i) == RowAfter(a, Kill(e), c, i)
      ensures TombAt(b, c, i) == TombAfter(a, Kill(e), c, i)
    {
      if c in a {
        assert Lookup(b[c], i) == if c in Holders(a, e.index) && i == e.index then None else Lookup(a[c], i);
      }
    }
  }

  lemma WriteIsSet<V>(a: Pools<V>, c: nat, j: nat, v: V)
    requires AllDistinctRows(a) && c in a
    ensures Edited(a, a[c := Write(a[c], j, v)], Set(c, j, v))
  {
    hide Find;
    var b := a[c := Write(a[c], j, v)];
    WriteLookup(a[c], j, v, 0);
    forall d, i ensures RowAt(b, d, i) == RowAfter(a, Set(c, j, v), d, i) {
      if d == c { WriteLookup(a[c], j, v, i); }
    }
  }

  /** Ending a deferral, declaring a group or creating a pool only reorders rows. */
  lemma ReorderIsShuffle<V>(a: Pools<V>, b: Pools<V>)
    requires AllDistinctRows(b) && (Extends(a, b) || SameContent(a, b))
    ensures Edited(a, b, Shuffle)
  {
    hide Find;
    forall c, i ensures RowAt(b, c, i) == RowAt(a, c, i) && TombAt(b, c, i) == TombAt(a, c, i) {
      if c in b { assert Lookup(b[c], i) == if c in a then Lookup(a[c], i) else None; }
    }
  }
}
