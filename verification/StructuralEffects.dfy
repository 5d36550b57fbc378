/** What a whole structural job does, component by component: each visited entity's components are
    what its own callback made of them, and nothing else changes, whatever the groups swapped. */
module StructuralEffects {
  import opened PoolModel
  import opened OwnedGroups
  import opened Counting
  import opened RegistryModule
  import opened DeltaReplay
  import opened StructuralJobs
  import opened Views

  /** All there is about one entity and one component. */
  datatype Cell<V> = Cell(row: Option<Row<V>>, tomb: Option<Tomb>)

  function CellAt<V>(pools: Pools<V>, c: nat, i: nat): Cell<V> { Cell(RowAt(pools, c, i), TombAt(pools, c, i)) }

  /** One call of a callback, seen from one component of the entity in hand: an add sets and marks the
      value, and a new row takes back the tombstone of the same handle; a remove leaves a tombstone. */
  function OpCell<V>(cell: Cell<V>, e: Entity, c: nat, op: StructOp<V>): Cell<V> {
    match op
    case AddOp(d, v) =>
      if d != c then cell
      else if cell.row.Some? then cell.(row := Some(cell.row.value.(value := v, dirty := true)))
      else
        Cell(Some(Row(e.index, v, true, true)),
             if cell.tomb.Some? && cell.tomb.value.entity == e then None else cell.tomb)
    case RemoveOp(d) =>
      if d != c || cell.row.None? then cell else Cell(None, Some(Tomb(e, true, false)))
  }

  function OpsCell<V>(cell: Cell<V>, e: Entity, c: nat, ops: seq<StructOp<V>>): Cell<V> {
    if ops == [] then cell else OpCell(OpsCell(cell, e, c, ops[..|ops| - 1]), e, c, ops[|ops| - 1])
  }

  lemma OpStepCell<V>(w: World<V>, e: Entity, op: StructOp<V>, c: nat, i: nat)
    requires Sound(w)
    ensures CellAt(OpStep(w, e, op).pools, c, i) ==
        if i == e.index then OpCell(CellAt(w.pools, c, i), e, c, op) else CellAt(w.pools, c, i)
  {
    hide Sound, Base, AddRow, RemoveRow, RowAt, TombAt;
    var next := OpStep(w, e, op).pools;
    RowNames(w, c, i);
    match op
    case AddOp(d, v) =>
      AddIsPut(w, d, e, v);
      assert RowAt(next, c, i) == RowAfter(w.pools, Put(d, e, v), c, i);
      assert TombAt(next, c, i) == TombAfter(w.pools, Put(d, e, v), c, i);
    case RemoveOp(d) =>
      RemoveIsDrop(w, d, e);
      assert RowAt(next, c, i) == RowAfter(w.pools, Take(d, e), c, i);
      assert TombAt(next, c, i) == TombAfter(w.pools, Take(d, e), c, i);
  }

  lemma RowNames<V>(w: World<V>, c: nat, i: nat)
    ensures RowAt(w.pools, c, i).Some? ==> RowAt(w.pools, c, i).value.index == i
  {
  }

  lemma {:induction false} RunOpsCell<V>(w: World<V>, e: Entity, ops: seq<StructOp<V>>, c: nat, i: nat)
    requires Sound(w)
    ensures CellAt(RunOps(w, e, ops).pools, c, i) ==
        if i == e.index then OpsCell(CellAt(w.pools, c, i), e, c, ops) else CellAt(w.pools, c, i)
    decreases |ops|
  {
    hide Sound, OpStep, OpCell, CellAt;
    if ops != [] {
      RunOpsCell(w, e, ops[..|ops| - 1], c, i);
      OpStepCell(RunOps(w, e, ops[..|ops| - 1]), e, ops[|ops| - 1], c, i);
    }
  }

  /** Each of the visited indices names its own slot. */
  ghost predicate OwnSlots(visited: seq<nat>, slots: seq<Entity>) {
    forall k :: 0 <= k < |visited| ==> visited[k] < |slots| && slots[visited[k]].index == visited[k]
  }

  lemma {:induction false} RunVisitsCell<V>(w: World<V>, visited: seq<nat>, script: nat -> seq<StructOp<V>>,
      slots: seq<Entity>, c: nat, i: nat)
    requires Sound(w) && AllDistinct(visited) && OwnSlots(visited, slots)
    ensures i in visited ==> i < |slots|
    ensures CellAt(RunVisits(w, visited, script, slots).pools, c, i) ==
        if i in visited then OpsCell(CellAt(w.pools, c, i), slots[i], c, script(i)) else CellAt(w.pools, c, i)
    decreases |visited|
  {
    hide Sound, RunOps, OpsCell, CellAt;
    if visited != [] {
      var n := |visited| - 1;
      var rest, last := visited[..n], visited[n];
      assert visited == rest + [last] && last !in rest;
      RunVisitsCell(w, rest, script, slots, c, i);
      RunOpsCell(RunVisits(w, rest, script, slots), slots[last], script(last), c, i);
    }
  }

  lemma MatchesOwnSlots<V>(pools: Pools<V>, q: Query, visited: seq<nat>, slots: seq<Entity>)
    requires RowsAlive(pools, slots) && q.iter != []
    requires forall i: nat :: i in visited ==> Matches(pools, q, i)
    ensures OwnSlots(visited, slots)
  {
    forall k | 0 <= k < |visited| ensures visited[k] < |slots| && slots[visited[k]].index == visited[k] {
      assert visited[k] in visited && q.iter[0] in q.iter + q.tags;
      assert Contains(pools, q.iter[0], visited[k]);
    }
  }

  /** The whole job, the deferral around it included: an entity that matched at the start is changed as its
      own callback says, as if it were alone; every other entity keeps all it had. */
  lemma JobEffectCells<V>(w: World<V>, q: Query, visited: seq<nat>, script: nat -> seq<StructOp<V>>,
      slots: seq<Entity>, c: nat, i: nat)
    requires Sound(w) && RowsAlive(w.pools, slots) && q.iter != []
    requires AllDistinct(visited) && forall j: nat :: j in visited <==> Matches(w.pools, q, j)
    ensures Matches(w.pools, q, i) ==> i < |slots|
    ensures CellAt(JobEffect(w, visited, script, slots).pools, c, i) ==
        if Matches(w.pools, q, i) then OpsCell(CellAt(w.pools, c, i), slots[i], c, script(i))
        else CellAt(w.pools, c, i)
  {
    hide Sound, RunVisits, OpsCell, EndDeferral, Matches, RowsAlive;
    MatchesOwnSlots(w.pools, q, visited, slots);
    BeginIsSound(w);
    var after := RunVisits(BeginDeferral(w), visited, script, slots);
    RunVisitsCell(BeginDeferral(w), visited, script, slots, c, i);
    PendingInRange(after);
    EndDeferralLookup(after);
  }
}
