/** The sparse-set pool as the code keeps it: dense arrays, a sparse index, counters, and a
    tombstone list with its own position index. Each method is proved against PoolModel. */
module SparsePool {
  import opened PoolModel
  import opened Counting

  /** The absent position; entity indices stay below it. */
  const NPOS: nat := 0xFFFF_FFFF

  datatype Flags = Flags(dirty: bool, destroy: bool)

  const NO_TOMBSTONE := Flags(false, false)
  const NO_ENTITY := Entity(0, 0)

  /** Dense and sparse are mutually inverse. */
  ghost predicate Inverse(dense: seq<nat>, sparse: seq<nat>) {
    && |dense| <= NPOS
    && (forall k :: 0 <= k < |dense| ==> dense[k] < NPOS && dense[k] < |sparse| && sparse[dense[k]] == k)
    && (forall i :: 0 <= i < |sparse| ==> sparse[i] == NPOS || (sparse[i] < |dense| && dense[sparse[i]] == i))
  }

  /** A new member gets the next position, which is still below the absent one. */
  lemma InverseAppend(dense: seq<nat>, sparse: seq<nat>, i: nat)
    requires Inverse(dense, sparse) && i < NPOS && i < |sparse| && i !in dense
    ensures |dense| < NPOS && Inverse(dense + [i], sparse[i := |dense|])
  {
    DistinctBelow(dense + [i], NPOS);
  }

  /** The last member fills the hole that member p leaves. */
  lemma InverseErase(dense: seq<nat>, sparse: seq<nat>, p: nat)
    requires Inverse(dense, sparse) && p < |dense|
    ensures var last := dense[|dense| - 1];
            Inverse(dense[p := last][..|dense| - 1], sparse[last := p][dense[p] := NPOS])
  {
  }

  lemma InverseSwap(dense: seq<nat>, sparse: seq<nat>, a: nat, b: nat)
    requires Inverse(dense, sparse) && a < |dense| && b < |dense|
    ensures Inverse(dense[a := dense[b]][b := dense[a]], sparse[dense[a] := b][dense[b] := a])
  {
  }

  function Grow<T>(s: seq<T>, n: nat, fill: T): (r: seq<T>)
    ensures |r| == (if |s| < n then n else |s|)
    ensures forall k :: 0 <= k < |r| ==> r[k] == if k < |s| then s[k] else fill
  {
    if |s| < n then s + seq(n - |s|, _ => fill) else s
  }

  function RowsOf<V>(dense: seq<nat>, values: seq<V>, dirty: seq<bool>, added: seq<bool>): (r: seq<Row<V>>)
    requires |values| == |dense| && |dirty| == |dense| && |added| == |dense|
    ensures |r| == |dense|
    ensures forall k :: 0 <= k < |r| ==> r[k] == Row(dense[k], values[k], dirty[k], added[k])
  {
    seq(|dense|, k requires 0 <= k < |dense| => Row(dense[k], values[k], dirty[k], added[k]))
  }

  /** The tombstone arrays agree with each other. */
  ghost predicate TombArrays(flags: seq<Flags>, indices: seq<nat>, positions: seq<nat>, entities: seq<Entity>) {
    && (forall i: nat :: i in indices ==>
        i < |flags| && i < |entities| && flags[i] != NO_TOMBSTONE && entities[i].index == i)
    && (forall i :: 0 <= i < |flags| && flags[i] != NO_TOMBSTONE ==> i < |positions| && positions[i] != NPOS)
    && (forall i :: 0 <= i < |entities| && i !in indices ==> entities[i] == NO_ENTITY)
    && Inverse(indices, positions)
  }

  function TombsOf(flags: seq<Flags>, indices: seq<nat>, entities: seq<Entity>): (r: map<nat, Tomb>)
    requires forall i: nat :: i in indices ==> i < |flags| && i < |entities|
    ensures forall i :: i in r <==> i in indices
  {
    map i: nat | i in indices :: Tomb(entities[i], flags[i].dirty, flags[i].destroy)
  }

  class Pool<V> {
    var dense: seq<nat>
    var values: seq<V>
    var dirty: seq<bool>
    var added: seq<bool>
    var sparse: seq<nat>
    var dirtyCount: nat
    var addedCount: nat
    var tombFlags: seq<Flags>
    var tombIndices: seq<nat>
    var tombPositions: seq<nat>
    var tombEntities: seq<Entity>
    var tombCount: nat

    ghost predicate RowsValid()
      reads `dense, `values, `dirty, `added, `sparse, `dirtyCount, `addedCount
    {
      && |values| == |dense| && |dirty| == |dense| && |added| == |dense|
      && Inverse(dense, sparse)
      && dirtyCount == CountTrue(dirty) && addedCount == CountTrue(added)
      && (forall k :: 0 <= k < |dense| ==> added[k] ==> dirty[k])
    }

    ghost predicate TombsValid()
      reads `tombFlags, `tombIndices, `tombPositions, `tombEntities, `tombCount
    {
      TombArrays(tombFlags, tombIndices, tombPositions, tombEntities) && tombCount == |tombIndices|
    }

    ghost predicate Valid()
      reads this
    {
      RowsValid() && TombsValid()
    }

    ghost function Rows(): seq<Row<V>>
      requires RowsValid()
      reads `dense, `values, `dirty, `added, `sparse, `dirtyCount, `addedCount
    {
      RowsOf(dense, values, dirty, added)
    }

    ghost function Tombs(): map<nat, Tomb>
      requires TombsValid()
      reads `tombFlags, `tombIndices, `tombPositions, `tombEntities, `tombCount
    {
      TombsOf(tombFlags, tombIndices, tombEntities)
    }

    /** The abstract value of the pool. */
    ghost function M(): Model<V>
      requires Valid()
      reads this
    {
      Model(Rows(), Tombs())
    }

    constructor ()
      ensures Valid() && M() == Model([], map[])
    {
      dense, values, dirty, added, sparse, dirtyCount, addedCount := [], [], [], [], [], 0, 0;
      tombFlags, tombIndices, tombPositions, tombEntities, tombCount := [], [], [], [], 0;
    }

    constructor FromArrays(dense: seq<nat>, values: seq<V>, dirty: seq<bool>, added: seq<bool>, sparse: seq<nat>,
                           dirtyCount: nat, addedCount: nat, flags: seq<Flags>, indices: seq<nat>, positions: seq<nat>,
                           entities: seq<Entity>, count: nat)
      requires |values| == |dense| && |dirty| == |dense| && |added| == |dense| && Inverse(dense, sparse)
      requires dirtyCount == CountTrue(dirty) && addedCount == CountTrue(added)
      requires forall k :: 0 <= k < |dense| ==> added[k] ==> dirty[k]
      requires TombArrays(flags, indices, positions, entities) && count == |indices|
      ensures Valid() && M() == Model(RowsOf(dense, values, dirty, added), TombsOf(flags, indices, entities))
    {
      this.dense, this.values, this.dirty, this.added, this.sparse := dense, values, dirty, added, sparse;
      this.dirtyCount, this.addedCount := dirtyCount, addedCount;
      tombFlags, tombIndices, tombPositions, tombEntities, tombCount := flags, indices, positions, entities, count;
    }

    predicate Contains(i: nat)
      reads `dense, `sparse
    {
      i < |sparse| && sparse[i] != NPOS && sparse[i] < |dense| && dense[sparse[i]] == i
    }

    lemma ContainsIsFind(i: nat)
      requires RowsValid()
      ensures Contains(i) <==> Find(Rows(), i) < |dense|
      ensures Contains(i) ==> Find(Rows(), i) == sparse[i]
      ensures Distinct(Rows())
      ensures !Contains(i) ==> i !in dense
    {
      assert forall j :: 0 <= j < |dense| && dense[j] == i ==> sparse[i] == j;
      var rows := Rows();
      var k := Find(rows, i);
      if Contains(i) {
        assert rows[sparse[i]].index == i;
        FindUnique(rows, sparse[i]);
      }
    }

    method MarkDirtyDense(k: nat)
      requires RowsValid() && k < |dense|
      modifies `dirty, `dirtyCount
      ensures RowsValid() && Rows() == old(Rows())[k := old(Rows())[k].(dirty := true)]
    {
      if !dirty[k] {
        CountUpdate(dirty, k, true);
        dirtyCount := dirtyCount + 1;
        dirty := dirty[k := true];
      }
    }

    method ClearDirtyDense(k: nat)
      requires RowsValid() && k < |dense|
      modifies `dirty, `dirtyCount
      ensures |dirty| == |dense| && dirty == old(dirty)[k := false] && dirtyCount == CountTrue(dirty)
    {
      if dirty[k] {
        CountUpdate(dirty, k, false);
        dirty := dirty[k := false];
        dirtyCount := dirtyCount - 1;
      }
    }

    method ClearAddedDense(k: nat)
      requires |added| == |dense| && addedCount == CountTrue(added) && k < |dense|
      modifies `added, `addedCount
      ensures |added| == |dense| && added == old(added)[k := false] && addedCount == CountTrue(added)
    {
      if added[k] {
        CountUpdate(added, k, false);
        added := added[k := false];
        addedCount := addedCount - 1;
      }
    }

    method EnsureTombs(i: nat)
      requires TombsValid()
      modifies `tombFlags, `tombPositions, `tombEntities
      ensures TombsValid() && Tombs() == old(Tombs())
      ensures i < |tombFlags| && i < |tombEntities| && i < |tombPositions|
    {
      GrowTombs(tombFlags, tombIndices, tombPositions, tombEntities, i + 1);
      tombFlags := Grow(tombFlags, i + 1, NO_TOMBSTONE);
      tombEntities := Grow(tombEntities, i + 1, NO_ENTITY);
      tombPositions := Grow(tombPositions, i + 1, NPOS);
    }

    /** Make room for the index in the lookups; nothing else changes. */
    method EnsureSparse(i: nat)
      requires RowsValid() && TombsValid()
      modifies `sparse, `tombFlags, `tombPositions, `tombEntities
      ensures RowsValid() && Rows() == old(Rows()) && TombsValid() && Tombs() == old(Tombs())
      ensures i < |sparse| && i < |tombFlags| && i < |tombEntities| && i < |tombPositions|
      ensures forall j :: Contains(j) <==> old(Contains(j))
    {
      GrowKeeps(dense, sparse, i + 1);
      sparse := Grow(sparse, i + 1, NPOS);
      EnsureTombs(i);
    }

    method EraseTombstoneIndex(i: nat)
      requires Inverse(tombIndices, tombPositions)
      modifies `tombIndices, `tombPositions
      ensures Inverse(tombIndices, tombPositions)
      ensures forall j :: j in tombIndices <==> j in old(tombIndices) && j != i
      ensures |tombPositions| == old(|tombPositions|)
      ensures forall j :: 0 <= j < |tombPositions| && j != i && old(tombPositions[j]) != NPOS ==>
          tombPositions[j] != NPOS
      ensures |tombIndices| == old(|tombIndices|) - (if i in old(tombIndices) then 1 else 0)
    {
      if i >= |tombPositions| {
        return;
      }
      var position := tombPositions[i];
      if position == NPOS || position >= |tombIndices| {
        return;
      }
      InverseErase(tombIndices, tombPositions, position);
      var lastIndex := tombIndices[|tombIndices| - 1];
      tombIndices := tombIndices[position := lastIndex];
      tombIndices := tombIndices[..|tombIndices| - 1];
      tombPositions := tombPositions[lastIndex := position];
      tombPositions := tombPositions[i := NPOS];
      ErasedMembers(old(tombIndices), tombIndices, position);
    }

    method MarkTombstone(e: Entity, flags: Flags)
      requires RowsValid() && TombsValid() && e.index < NPOS
      modifies `sparse, `tombFlags, `tombIndices, `tombPositions, `tombEntities, `tombCount
      ensures RowsValid() && Rows() == old(Rows())
      ensures TombsValid()
      ensures Tombs() == if flags == NO_TOMBSTONE then old(Tombs()) - {e.index}
                         else old(Tombs())[e.index := Tomb(e, flags.dirty, flags.destroy)]
    {
      EnsureSparse(e.index);
      WriteTombstone(e, flags);
    }

    /** Without flags the entry is cleared. */
    method WriteTombstone(e: Entity, flags: Flags)
      requires TombsValid() && e.index < NPOS
      requires e.index < |tombFlags| && e.index < |tombEntities| && e.index < |tombPositions|
      modifies `tombFlags, `tombIndices, `tombPositions, `tombEntities, `tombCount
      ensures TombsValid()
      ensures Tombs() == if flags == NO_TOMBSTONE then old(Tombs()) - {e.index}
                         else old(Tombs())[e.index := Tomb(e, flags.dirty, flags.destroy)]
    {
      hide TombArrays, TombsOf, Inverse;
      var i := e.index;
      if flags != NO_TOMBSTONE { TombsMark(tombFlags, tombIndices, tombPositions, tombEntities, e, flags); }
      TombsLinked(tombFlags, tombIndices, tombPositions, tombEntities, i);
      if tombFlags[i] == NO_TOMBSTONE && flags != NO_TOMBSTONE {
        tombCount := tombCount + 1;
        tombPositions := tombPositions[i := |tombIndices|];
        tombIndices := tombIndices + [i];
      } else if tombFlags[i] != NO_TOMBSTONE && flags == NO_TOMBSTONE {
        tombCount := tombCount - 1;
        EraseTombstoneIndex(i);
      }
      if flags == NO_TOMBSTONE {
        TombsCleared(tombFlags, old(tombIndices), tombIndices, old(tombPositions), tombPositions, tombEntities, i);
      }
      tombFlags := tombFlags[i := flags];
      tombEntities := tombEntities[i := if flags != NO_TOMBSTONE then e else NO_ENTITY];
    }

    predicate HasTombstone(i: nat)
      reads `tombFlags
    {
      i < |tombFlags| && tombFlags[i] != NO_TOMBSTONE
    }

    lemma HasTombstoneIsIn(i: nat)
      requires TombsValid()
      ensures HasTombstone(i) <==> i in Tombs()
      ensures i in Tombs() ==> Tombs()[i] == Tomb(tombEntities[i], tombFlags[i].dirty, tombFlags[i].destroy)
    {
      if i in tombIndices {
        var p :| 0 <= p < |tombIndices| && tombIndices[p] == i;
      }
    }

    method ClearTombstone(i: nat)
      requires TombsValid()
      modifies `tombFlags, `tombIndices, `tombPositions, `tombEntities, `tombCount
      ensures TombsValid() && Tombs() == old(Tombs()) - {i}
    {
      HasTombstoneIsIn(i);
      if i < |tombFlags| && tombFlags[i] != NO_TOMBSTONE {
        tombFlags := tombFlags[i := NO_TOMBSTONE];
        if i < |tombEntities| {
          tombEntities := tombEntities[i := NO_ENTITY];
        }
        EraseTombstoneIndex(i);
        tombCount := tombCount - 1;
        assert TombsValid();
        assert Tombs() == old(Tombs()) - {i};
      }
    }

    method ClearTombstoneForEntity(e: Entity)
      requires TombsValid()
      modifies `tombFlags, `tombIndices, `tombPositions, `tombEntities, `tombCount
      ensures TombsValid() && Tombs() == ForgetTomb(old(Tombs()), e)
    {
      HasTombstoneIsIn(e.index);
      if e.index >= |tombFlags| || tombFlags[e.index] == NO_TOMBSTONE {
        return;
      }
      if e.index >= |tombEntities| || tombEntities[e.index] != e {
        return;
      }
      ClearTombstone(e.index);
    }

    method CommitInsert(e: Entity, v: V)
      requires RowsValid() && TombsValid() && e.index < NPOS && e.index < |sparse| && !Contains(e.index)
      modifies this
      ensures RowsValid() && Rows() == old(Rows()) + [Row(e.index, v, true, true)]
      ensures TombsValid() && Tombs() == ForgetTomb(old(Tombs()), e)
    {
      ClearTombstoneForEntity(e);
      AppendRow(e.index, v);
    }

    method AppendRow(i: nat, v: V)
      requires RowsValid() && i < NPOS && i < |sparse| && !Contains(i)
      modifies `dense, `values, `dirty, `added, `sparse, `dirtyCount, `addedCount
      ensures RowsValid() && Rows() == old(Rows()) + [Row(i, v, true, true)]
    {
      hide Inverse, CountTrue;
      ContainsIsFind(i);
      InverseAppend(dense, sparse, i);
      CountAppend(dirty, true);
      CountAppend(added, true);
      sparse := sparse[i := |dense|];
      values := values + [v];
      dense := dense + [i];
      dirty := dirty + [true];
      added := added + [true];
      dirtyCount := dirtyCount + 1;
      addedCount := addedCount + 1;
    }

    method EmplaceOrReplace(e: Entity, v: V)
      requires Valid() && e.index < NPOS
      modifies this
      ensures Valid() && M() == Emplace(old(M()), e, v)
    {
      hide TombArrays, TombsOf, Inverse, CountTrue, Find;
      ContainsIsFind(e.index);
      if Contains(e.index) {
        StoreAndMark(sparse[e.index], v);
        return;
      }
      EnsureSparse(e.index);
      CommitInsert(e, v);
    }

    method StoreAndMark(k: nat, v: V)
      requires RowsValid() && k < |dense|
      modifies `values, `dirty, `dirtyCount
      ensures RowsValid() && Rows() == old(Rows())[k := old(Rows())[k].(value := v, dirty := true)]
    {
      hide Inverse, CountTrue;
      values := values[k := v];
      assert Rows() == old(Rows())[k := old(Rows())[k].(value := v)];
      MarkDirtyDense(k);
    }

    method EraseAt(k: nat)
      requires RowsValid() && k < |dense|
      modifies `dense, `values, `dirty, `added, `sparse, `dirtyCount, `addedCount
      ensures RowsValid() && Rows() == SwapRemove(old(Rows()), k)
    {
      hide Inverse, CountTrue, SwapRemove, RowsOf, FlagsErased;
      RowsErase(dense, values, dirty, added, k);
      EraseFlags(k);
      EraseIndex(k);
    }

    method EraseIndex(k: nat)
      requires Inverse(dense, sparse) && |values| == |dense| && k < |dense|
      modifies `dense, `values, `sparse
      ensures Inverse(dense, sparse)
      ensures var last := old(|dense|) - 1;
              && dense == old(dense[k := dense[|dense| - 1]])[..last]
              && values == old(values[k := values[|dense| - 1]])[..last]
    {
      var removed, last := dense[k], |dense| - 1;
      InverseErase(dense, sparse, k);
      if k != last {
        var moved := dense[last];
        values := values[k := values[last]];
        dense := dense[k := moved];
        sparse := sparse[moved := k];
      }
      sparse := sparse[removed := NPOS];
      dense := dense[..last];
      values := values[..last];
      assert dense == old(dense[k := dense[|dense| - 1]])[..last];
      assert sparse == old(sparse[dense[|dense| - 1] := k][dense[k] := NPOS]);
    }

    method EraseFlags(k: nat)
      requires RowsValid() && k < |dense|
      modifies `dirty, `added, `dirtyCount, `addedCount
      ensures dirty == FlagsErased(old(dirty), k) && dirtyCount == CountTrue(dirty)
      ensures added == FlagsErased(old(added), k) && addedCount == CountTrue(added)
    {
      var last := |dense| - 1;
      FlagsErase(dirty, k);
      FlagsErase(added, k);
      ClearDirtyDense(k);
      ClearAddedDense(k);
      if k != last {
        dirty := dirty[k := dirty[last]];
        added := added[k := added[last]];
      }
      dirty := dirty[..last];
      added := added[..last];
      assert dirty == FlagsErased(old(dirty), k) && added == FlagsErased(old(added), k);
    }

    method Remove(e: Entity) returns (removed: bool)
      requires Valid() && e.index < NPOS
      modifies this
      ensures Valid() && M() == PoolModel.Remove(old(M()), e, false)
      ensures removed == old(Has(M(), e.index))
    {
      ContainsIsFind(e.index);
      if !Contains(e.index) {
        return false;
      }
      EraseAt(sparse[e.index]);
      MarkTombstone(e, Flags(true, false));
      return true;
    }

    method RemoveForDestroy(e: Entity)
      requires Valid() && e.index < NPOS
      modifies this
      ensures Valid() && M() == PoolModel.Remove(old(M()), e, true)
    {
      ContainsIsFind(e.index);
      if !Contains(e.index) {
        return;
      }
      EraseAt(sparse[e.index]);
      MarkTombstone(e, Flags(true, true));
    }

    /** The caller's store through the returned pointer is the second argument. */
    method WriteValue(i: nat, v: V) returns (found: bool)
      requires Valid()
      modifies `values, `dirty, `dirtyCount
      ensures Valid() && M() == Write(old(M()), i, v)
      ensures found == old(Has(M(), i))
    {
      hide TombArrays, TombsOf, Inverse, CountTrue, Find;
      ContainsIsFind(i);
      if !Contains(i) {
        return false;
      }
      StoreAndMark(sparse[i], v);
      return true;
    }

    method ReadValue(i: nat) returns (v: Option<V>)
      requires Valid()
      ensures v == if Has(M(), i) then Some(Lookup(M(), i).value.value) else None
    {
      ContainsIsFind(i);
      return if Contains(i) then Some(values[sparse[i]]) else None;
    }

    /** The same store while range marks are deferred: nothing is marked here. */
    method StoreValue(i: nat, v: V) returns (found: bool)
      requires Valid()
      modifies `values
      ensures Valid() && M() == Poke(old(M()), i, v)
      ensures found == old(Has(M(), i))
    {
      ContainsIsFind(i);
      if !Contains(i) {
        return false;
      }
      values := values[sparse[i] := v];
      return true;
    }

    /** An existing row is only marked; a missing one starts from zeroed bytes. */
    method Ensure(e: Entity, zero: V)
      requires Valid() && e.index < NPOS
      modifies this
      ensures Valid()
      ensures M() == if old(Has(M(), e.index)) then PoolModel.MarkDirty(old(M()), e.index)
          else Emplace(old(M()), e, zero)
    {
      ContainsIsFind(e.index);
      if Contains(e.index) {
        MarkDirtyDense(sparse[e.index]);
      } else {
        EmplaceOrReplace(e, zero);
      }
    }

    method MarkDirty(i: nat)
      requires Valid()
      modifies `dirty, `dirtyCount
      ensures Valid() && M() == PoolModel.MarkDirty(old(M()), i)
    {
      ContainsIsFind(i);
      if Contains(i) {
        MarkDirtyDense(sparse[i]);
      }
    }

    method ClearDirty(i: nat) returns (cleared: bool)
      requires Valid()
      modifies this
      ensures Valid() && M() == PoolModel.ClearDirty(old(M()), i)
      ensures cleared == old(Has(M(), i) || i in M().tombs)
    {
      ContainsIsFind(i);
      HasTombstoneIsIn(i);
      if !Contains(i) {
        if HasTombstone(i) {
          ClearTombstone(i);
          return true;
        }
        assert Tombs() - {i} == Tombs();
        return false;
      }
      ClearRowMarks(sparse[i]);
      return true;
    }

    method ClearRowMarks(k: nat)
      requires RowsValid() && k < |dense|
      modifies `dirty, `added, `dirtyCount, `addedCount
      ensures RowsValid() && Rows() == old(Rows())[k := old(Rows())[k].(dirty := false, added := false)]
    {
      ClearDirtyDense(k);
      ClearAddedDense(k);
    }

    method ClearAdded(i: nat) returns (cleared: bool)
      requires Valid()
      modifies `added, `addedCount
      ensures Valid() && M() == PoolModel.ClearAdded(old(M()), i)
      ensures cleared == old(Has(M(), i))
    {
      ContainsIsFind(i);
      if !Contains(i) {
        return false;
      }
      ClearAddedDense(sparse[i]);
      return true;
    }

    method IsDirty(i: nat) returns (r: bool)
      requires Valid()
      ensures r == if Has(M(), i) then Lookup(M(), i).value.dirty else i in M().tombs
    {
      ContainsIsFind(i);
      HasTombstoneIsIn(i);
      if !Contains(i) {
        return HasTombstone(i);
      }
      return dirty[sparse[i]];
    }

    /** The counters answer whether any row is marked or any tombstone is left. */
    method HasDirtyEntries() returns (r: bool)
      requires Valid()
      ensures r <==> (exists k :: 0 <= k < |M().rows| && (M().rows[k].dirty || M().rows[k].added)) || M().tombs != map[]
    {
      CountZero(dirty);
      CountZero(added);
      if dirtyCount != 0 {
        var k :| 0 <= k < |dirty| && dirty[k];
        assert M().rows[k].dirty;
      }
      if tombIndices != [] {
        assert tombIndices[0] in Tombs();
      } else {
        assert Tombs() == map[];
      }
      return dirtyCount != 0 || addedCount != 0 || tombCount != 0;
    }

    method ClearAllDirty()
      requires Valid()
      modifies this
      ensures Valid() && M() == ClearAll(old(M()))
    {
      ClearAllRowMarks();
      ClearAllTombstones();
    }

    method ClearAllRowMarks()
      requires RowsValid()
      modifies `dirty, `added, `dirtyCount, `addedCount
      ensures RowsValid() && Rows() == ClearAll(Model(old(Rows()), map[])).rows
    {
      dirty := seq(|dirty|, _ => false);
      added := seq(|added|, _ => false);
      dirtyCount, addedCount := 0, 0;
      CountZero(dirty);
      CountZero(added);
    }

    method ClearAllTombstones()
      modifies `tombFlags, `tombIndices, `tombPositions, `tombEntities, `tombCount
      ensures TombsValid() && Tombs() == map[]
    {
      tombFlags := seq(|tombFlags|, _ => NO_TOMBSTONE);
      tombEntities := seq(|tombEntities|, _ => NO_ENTITY);
      tombPositions := seq(|tombPositions|, _ => NPOS);
      tombIndices := [];
      tombCount := 0;
    }

    method SwapDense(a: nat, b: nat) returns (ok: bool)
      requires Valid()
      modifies `dense, `values, `sparse, `dirty, `added
      ensures Valid() && ok == (a == b || (a < old(|M().rows|) && b < old(|M().rows|)))
      ensures M() == if ok && a != b then Swap(old(M()), a, b) else old(M())
    {
      if a == b {
        return true;
      }
      if a >= |dense| || b >= |dense| {
        return false;
      }
      Exchange(a, b);
      return true;
    }

    method Exchange(a: nat, b: nat)
      requires RowsValid() && a < |dense| && b < |dense|
      modifies `dense, `values, `sparse, `dirty, `added
      ensures RowsValid() && Rows() == old(Rows()[a := Rows()[b]][b := Rows()[a]])
    {
      hide Inverse, CountTrue, RowsOf;
      RowsSwap(dense, values, dirty, added, a, b);
      values := values[a := values[b]][b := values[a]];
      SwapIndices(a, b);
      SwapMarks(a, b);
    }

    method SwapIndices(a: nat, b: nat)
      requires Inverse(dense, sparse) && a < |dense| && b < |dense|
      modifies `dense, `sparse
      ensures Inverse(dense, sparse) && dense == old(dense[a := dense[b]][b := dense[a]])
    {
      InverseSwap(dense, sparse, a, b);
      var left, right := dense[a], dense[b];
      dense := dense[a := right][b := left];
      sparse := sparse[left := b][right := a];
    }

    method SwapMarks(a: nat, b: nat)
      requires a < |dirty| == |added| && b < |dirty|
      modifies `dirty, `added
      ensures dirty == old(dirty[a := dirty[b]][b := dirty[a]]) && CountTrue(dirty) == old(CountTrue(dirty))
      ensures added == old(added[a := added[b]][b := added[a]]) && CountTrue(added) == old(CountTrue(added))
    {
      SwapCounts(dirty, a, b);
      SwapCounts(added, a, b);
      dirty := dirty[a := dirty[b]][b := dirty[a]];
      added := added[a := added[b]][b := added[a]];
    }

    method MoveIndexToDense(i: nat, position: nat) returns (ok: bool)
      requires Valid()
      modifies `dense, `values, `sparse, `dirty, `added
      ensures Valid() && ok == (!old(Has(M(), i)) || position < old(|M().rows|))
      ensures M() == if ok && old(Has(M(), i)) then MoveTo(old(M()), i, position) else old(M())
    {
      ContainsIsFind(i);
      if !Contains(i) {
        return true;
      }
      ok := SwapDense(sparse[i], position);
    }
  }

  /** Clearing flag k and moving the last flag into the hole. */
  function FlagsErased(flags: seq<bool>, k: nat): seq<bool>
    requires k < |flags|
  {
    flags[k := flags[|flags| - 1]][..|flags| - 1]
  }

  lemma SwapCounts(flags: seq<bool>, a: nat, b: nat)
    requires a < |flags| && b < |flags|
    ensures CountTrue(flags[a := flags[b]][b := flags[a]]) == CountTrue(flags)
  {
    CountUpdate(flags, a, flags[b]);
    CountUpdate(flags[a := flags[b]], b, flags[a]);
  }

  lemma RowsSwap<V>(dense: seq<nat>, values: seq<V>, dirty: seq<bool>, added: seq<bool>, a: nat, b: nat)
    requires |values| == |dense| && |dirty| == |dense| && |added| == |dense| && a < |dense| && b < |dense|
    requires forall k :: 0 <= k < |dense| ==> added[k] ==> dirty[k]
    ensures var rows, d, n := RowsOf(dense, values, dirty, added), dirty[a := dirty[b]][b := dirty[a]],
        added[a := added[b]][b := added[a]];
            && RowsOf(dense[a := dense[b]][b := dense[a]], values[a := values[b]][b := values[a]], d, n) ==
                rows[a := rows[b]][b := rows[a]]
            && (forall k :: 0 <= k < |dense| ==> n[k] ==> d[k])
  {
  }

  lemma RowsErase<V>(dense: seq<nat>, values: seq<V>, dirty: seq<bool>, added: seq<bool>, k: nat)
    requires |values| == |dense| && |dirty| == |dense| && |added| == |dense| && k < |dense|
    requires forall j :: 0 <= j < |dense| ==> added[j] ==> dirty[j]
    ensures var last, d, n := |dense| - 1, FlagsErased(dirty, k), FlagsErased(added, k);
            && RowsOf(dense[k := dense[last]][..last], values[k := values[last]][..last], d, n) ==
                SwapRemove(RowsOf(dense, values, dirty, added), k)
            && |d| == |n| == last && (forall j :: 0 <= j < last ==> n[j] ==> d[j])
  {
  }

  lemma FlagsErase(flags: seq<bool>, k: nat)
    requires k < |flags|
    ensures CountTrue(FlagsErased(flags, k)) == CountTrue(flags[k := false])
  {
    var last := |flags| - 1;
    CountUpdate(flags, k, false);
    CountUpdate(flags, k, flags[last]);
    assert CountTrue(flags[k := flags[last]]) == CountTrue(FlagsErased(flags, k)) + (if flags[last] then 1 else 0);
  }

  lemma GrowKeeps(dense: seq<nat>, sparse: seq<nat>, n: nat)
    requires Inverse(dense, sparse)
    ensures Inverse(dense, Grow(sparse, n, NPOS))
  {
  }

  lemma GrowTombs(flags: seq<Flags>, indices: seq<nat>, positions: seq<nat>, entities: seq<Entity>, n: nat)
    requires TombArrays(flags, indices, positions, entities)
    ensures var f, e := Grow(flags, n, NO_TOMBSTONE), Grow(entities, n, NO_ENTITY);
            TombArrays(f, indices, Grow(positions, n, NPOS), e) &&
                TombsOf(f, indices, e) == TombsOf(flags, indices, entities)
  {
    GrowKeeps(indices, positions, n);
  }

  lemma TombsMark(flags: seq<Flags>, indices: seq<nat>, positions: seq<nat>, entities: seq<Entity>, e: Entity,
      mark: Flags)
    requires TombArrays(flags, indices, positions, entities) && mark != NO_TOMBSTONE
    requires e.index < NPOS && e.index < |flags| && e.index < |positions| && e.index < |entities|
    ensures var i := e.index;
            var isNew := flags[i] == NO_TOMBSTONE;
            var indices', positions' := if isNew then indices + [i]
                else indices, if isNew then positions[i := |indices|] else positions;
            && TombArrays(flags[i := mark], indices', positions', entities[i := e])
            && TombsOf(flags[i := mark], indices', entities[i := e]) ==
                TombsOf(flags, indices, entities)[i := Tomb(e, mark.dirty, mark.destroy)]
  {
    hide Inverse, TombArrays;
    if flags[e.index] == NO_TOMBSTONE {
      NewTomb(flags, indices, positions, entities, e, mark);
    } else {
      OldTomb(flags, indices, positions, entities, e, mark);
    }
  }

  lemma TombsLinked(flags: seq<Flags>, indices: seq<nat>, positions: seq<nat>, entities: seq<Entity>, i: nat)
    requires TombArrays(flags, indices, positions, entities) && i < |flags|
    ensures Inverse(indices, positions) && (i in indices <==> flags[i] != NO_TOMBSTONE)
    ensures i in indices ==> |indices| > 0
  {
    if flags[i] != NO_TOMBSTONE { ListedAt(indices, positions, i); }
  }

  /** Dropping one index from the list clears its tombstone and no other. */
  lemma TombsCleared(flags: seq<Flags>, indices: seq<nat>, left: seq<nat>, positions: seq<nat>, after: seq<nat>,
                     entities: seq<Entity>, i: nat)
    requires TombArrays(flags, indices, positions, entities) && i < |flags| && i < |entities| && |after| == |positions|
    requires Inverse(left, after) && forall j :: j in left <==> j in indices && j != i
    requires forall j :: 0 <= j < |after| && j != i && positions[j] != NPOS ==> after[j] != NPOS
    ensures TombArrays(flags[i := NO_TOMBSTONE], left, after, entities[i := NO_ENTITY])
    ensures TombsOf(flags[i := NO_TOMBSTONE], left, entities[i := NO_ENTITY]) == TombsOf(flags, indices, entities) - {i}
  {
    hide Inverse;
  }

  lemma NewTomb(flags: seq<Flags>, indices: seq<nat>, positions: seq<nat>, entities: seq<Entity>, e: Entity,
      mark: Flags)
    requires TombArrays(flags, indices, positions, entities) && mark != NO_TOMBSTONE
    requires e.index < NPOS && e.index < |flags| && e.index < |positions| && e.index < |entities|
    requires flags[e.index] == NO_TOMBSTONE
    ensures forall j: nat :: j in indices ==> j < |flags| && j < |entities| && j != e.index
    ensures forall j :: j in indices + [e.index] <==> j in indices || j == e.index
    ensures TombArrays(flags[e.index := mark], indices + [e.index], positions[e.index := |indices|],
        entities[e.index := e])
  {
    hide Inverse;
    var i := e.index;
    assert i !in indices;
    InverseAppend(indices, positions, i);
    assert forall j :: j in indices + [i] <==> j in indices || j == i;
  }

  lemma OldTomb(flags: seq<Flags>, indices: seq<nat>, positions: seq<nat>, entities: seq<Entity>, e: Entity,
      mark: Flags)
    requires TombArrays(flags, indices, positions, entities) && mark != NO_TOMBSTONE
    requires e.index < NPOS && e.index < |flags| && e.index < |positions| && e.index < |entities|
    requires flags[e.index] != NO_TOMBSTONE
    ensures e.index in indices && forall j: nat :: j in indices ==> j < |flags| && j < |entities|
    ensures TombArrays(flags[e.index := mark], indices, positions, entities[e.index := e])
  {
    ListedAt(indices, positions, e.index);
    hide Inverse;
  }

  lemma ListedAt(dense: seq<nat>, sparse: seq<nat>, i: nat)
    requires Inverse(dense, sparse) && i < |sparse| && sparse[i] != NPOS
    ensures i in dense
  {
    assert dense[sparse[i]] == i;
  }

  /** Filling the hole with the last element drops exactly one member. */
  lemma ErasedMembers(before: seq<nat>, after: seq<nat>, p: nat)
    requires p < |before| && AllDistinct(before)
    requires after == before[p := before[|before| - 1]][..|before| - 1]
    ensures forall j :: j in after <==> j in before && j != before[p]
  {
    forall j | j in before && j != before[p] ensures j in after {
      var q :| 0 <= q < |before| && before[q] == j;
      assert after[if q == |before| - 1 then p else q] == j;
    }
  }
}
