/** Compact copies of a pool, as snapshots keep them, and rebuilding a full pool from one. */
module PoolClone {
  import opened PoolModel
  import opened SparsePool
  import opened Counting

  /** A pool whose lookups were dropped: tombstones are listed by position, not by index. */
  datatype Compact<V> = Compact(
    dense: seq<nat>, values: seq<V>, dirty: seq<bool>, added: seq<bool>, dirtyCount: nat, addedCount: nat,
    tombIndices: seq<nat>, tombFlags: seq<Flags>, tombEntities: seq<Entity>, tombCount: nat)

  ghost predicate CompactValid<V>(c: Compact<V>) {
    && |c.values| == |c.dense| && |c.dirty| == |c.dense| && |c.added| == |c.dense|
    && AllDistinct(c.dense) && (forall k :: 0 <= k < |c.dense| ==> c.dense[k] < NPOS)
    && c.dirtyCount == CountTrue(c.dirty) && c.addedCount == CountTrue(c.added)
    && (forall k :: 0 <= k < |c.dense| ==> c.added[k] ==> c.dirty[k])
    && CompactTombs(c.tombIndices, c.tombFlags, c.tombEntities) && c.tombCount == |c.tombIndices|
  }

  ghost predicate CompactTombs(indices: seq<nat>, flags: seq<Flags>, entities: seq<Entity>) {
    && |flags| == |indices| && |entities| == |indices| && AllDistinct(indices)
    && (forall p :: 0 <= p < |indices| ==>
        indices[p] < NPOS && flags[p] != NO_TOMBSTONE && entities[p].index == indices[p])
  }

  /** The tombstones of positions below n, as a map. */
  ghost function ListedTombs(indices: seq<nat>, flags: seq<Flags>, entities: seq<Entity>, n: nat): map<nat, Tomb>
    requires n <= |indices| == |flags| == |entities|
  {
    if n == 0 then map[]
    else
      ListedTombs(indices, flags, entities,
      n - 1)[indices[n - 1] := Tomb(entities[n - 1], flags[n - 1].dirty, flags[n - 1].destroy)]
  }

  /** What a compact copy stands for. */
  ghost function ModelOf<V>(c: Compact<V>): Model<V>
    requires CompactValid(c)
  {
    Model(RowsOf(c.dense, c.values, c.dirty, c.added),
        ListedTombs(c.tombIndices, c.tombFlags, c.tombEntities, |c.tombIndices|))
  }

  predicate Excluded(excluded: seq<bool>, i: nat) { i < |excluded| && excluded[i] }

  /** The rows a filtered copy keeps, in dense order. */
  ghost function KeptRows<V>(rows: seq<Row<V>>, excluded: seq<bool>, dirtyOnly: bool): seq<Row<V>> {
    if rows == [] then []
    else
      var front, last := KeptRows(rows[..|rows| - 1], excluded, dirtyOnly), rows[|rows| - 1];
      if Excluded(excluded, last.index) || (dirtyOnly && !last.dirty) then front else front + [last]
  }

  ghost function Filtered<V>(m: Model<V>, excluded: seq<bool>, dirtyOnly: bool): Model<V> {
    Model(KeptRows(m.rows, excluded, dirtyOnly), map i | i in m.tombs && !Excluded(excluded, i) :: m.tombs[i])
  }

  lemma LastIsNew<V>(rows: seq<Row<V>>)
    requires Distinct(rows) && rows != []
    ensures var before := rows[..|rows| - 1]; Distinct(before) && Find(before, rows[|rows| - 1].index) == |before|
  {
  }

  lemma {:induction false} KeptRowsFinds<V>(rows: seq<Row<V>>, excluded: seq<bool>, dirtyOnly: bool, i: nat)
    requires Distinct(rows)
    ensures var r, k := KeptRows(rows, excluded, dirtyOnly), Find(rows, i);
            && Distinct(r)
            && (Find(r, i) < |r| <==> k < |rows| && !Excluded(excluded, i) && (dirtyOnly ==> rows[k].dirty))
            && (Find(r, i) < |r| ==> r[Find(r, i)] == rows[k])
  {
    if rows != [] {
      hide Find, Distinct;
      var before, last := rows[..|rows| - 1], rows[|rows| - 1];
      LastIsNew(rows);
      KeptRowsFinds(before, excluded, dirtyOnly, i);
      KeptRowsFinds(before, excluded, dirtyOnly, last.index);
      assert rows == before + [last];
      AppendFinds(before, last, i);
      var front := KeptRows(before, excluded, dirtyOnly);
      if !(Excluded(excluded, last.index) || (dirtyOnly && !last.dirty)) {
        AppendFinds(front, last, i);
      }
    }
  }

  /** Kept rows stay in their order, and a filtered copy keeps the tombstones of all indices the mask does
      not name. */
  lemma FilteredKeepsOrder<V>(m: Model<V>, excluded: seq<bool>, dirtyOnly: bool, i: nat, j: nat)
    requires Distinct(m.rows)
    ensures var r := Filtered(m, excluded, dirtyOnly);
            && (Has(r, i) && Has(r, j) && Find(m.rows, i) < Find(m.rows, j) ==> Find(r.rows, i) < Find(r.rows, j))
            && (i in r.tombs <==> i in m.tombs && !(i < |excluded| && excluded[i]))
            && (i in r.tombs ==> r.tombs[i] == m.tombs[i])
  {
    KeptRowsOrder(m.rows, excluded, dirtyOnly, i, j);
  }

  lemma {:induction false} KeptRowsOrder<V>(rows: seq<Row<V>>, excluded: seq<bool>, dirtyOnly: bool, i: nat, j: nat)
    requires Distinct(rows)
    ensures var r := KeptRows(rows, excluded, dirtyOnly);
            Find(r, i) < |r| && Find(r, j) < |r| && Find(rows, i) < Find(rows, j) ==> Find(r, i) < Find(r, j)
  {
    if rows != [] {
      hide Find, Distinct;
      var before, last := rows[..|rows| - 1], rows[|rows| - 1];
      LastIsNew(rows);
      KeptRowsOrder(before, excluded, dirtyOnly, i, j);
      KeptRowsFinds(before, excluded, dirtyOnly, i);
      KeptRowsFinds(before, excluded, dirtyOnly, j);
      KeptRowsFinds(before, excluded, dirtyOnly, last.index);
      assert rows == before + [last];
      AppendFinds(before, last, i);
      AppendFinds(before, last, j);
      var front := KeptRows(before, excluded, dirtyOnly);
      if !(Excluded(excluded, last.index) || (dirtyOnly && !last.dirty)) {
        AppendFinds(front, last, i);
        AppendFinds(front, last, j);
      }
    }
  }

  /** A filtered copy holds exactly the rows that pass the filter, unchanged. */
  lemma FilteredLookup<V>(m: Model<V>, excluded: seq<bool>, dirtyOnly: bool, i: nat)
    requires Distinct(m.rows)
    ensures Distinct(Filtered(m, excluded, dirtyOnly).rows)
    ensures Lookup(Filtered(m, excluded, dirtyOnly), i) ==
            if Has(m, i) && !Excluded(excluded, i) && (dirtyOnly ==> Lookup(m, i).value.dirty) then Lookup(m, i)
                else None
  {
    KeptRowsFinds(m.rows, excluded, dirtyOnly, i);
  }

  lemma {:induction false} NothingExcluded<V>(rows: seq<Row<V>>, excluded: seq<bool>)
    requires forall k :: 0 <= k < |rows| ==> !Excluded(excluded, rows[k].index)
    ensures KeptRows(rows, excluded, false) == rows
  {
    if rows != [] {
      NothingExcluded(rows[..|rows| - 1], excluded);
      assert rows == rows[..|rows| - 1] + [rows[|rows| - 1]];
    }
  }

  method HasExcludedEntries<V>(p: Pool<V>, excluded: seq<bool>) returns (r: bool)
    requires p.Valid()
    ensures r <==> (exists k :: 0 <= k < |p.dense| && Excluded(excluded, p.dense[k]))
                   || (exists k :: 0 <= k < |p.tombIndices| && Excluded(excluded, p.tombIndices[k]))
  {
    if excluded == [] {
      return false;
    }
    for k := 0 to |p.dense|
      invariant forall j :: 0 <= j < k ==> !Excluded(excluded, p.dense[j])
    {
      if Excluded(excluded, p.dense[k]) {
        return true;
      }
    }
    for k := 0 to |p.tombIndices|
      invariant forall j :: 0 <= j < k ==> !Excluded(excluded, p.tombIndices[j])
    {
      if Excluded(excluded, p.tombIndices[k]) {
        return true;
      }
    }
    return false;
  }

  /** The next row is a new one, and the filter treats it on its own. */
  lemma NextRow<V>(p: Pool<V>, excluded: seq<bool>, dirtyOnly: bool, n: nat)
    requires p.RowsValid() && n < |p.dense|
    ensures p.dense[n] < NPOS && p.dense[n] !in p.dense[..n] && (p.added[n] ==> p.dirty[n])
    ensures KeptRows(p.Rows()[..n + 1], excluded, dirtyOnly) == KeptRows(p.Rows()[..n], excluded, dirtyOnly)
            + if Excluded(excluded, p.dense[n]) || (dirtyOnly && !p.dirty[n]) then [] else [p.Rows()[n]]
  {
    assert p.Rows()[..n + 1][..n] == p.Rows()[..n];
  }

  lemma NothingCopied<V>(c: Compact<V>)
    requires c == Compact([], [], [], [], 0, 0, [], [], [], 0)
    ensures CompactValid(c) && ModelOf(c) == Model([], map[])
  {
  }

  /** Append the rows that pass the filter, counting marks on the way. */
  method CopyRows<V>(p: Pool<V>, excluded: seq<bool>, dirtyOnly: bool) returns (c: Compact<V>)
    requires p.RowsValid()
    ensures CompactValid(c) && ModelOf(c) == Model(KeptRows(p.Rows(), excluded, dirtyOnly), map[])
    ensures c.tombIndices == []
  {
    hide Inverse, AllDistinct, CountTrue, CompactTombs, Excluded;
    c := Compact([], [], [], [], 0, 0, [], [], [], 0);
    NothingCopied(c);
    for n := 0 to |p.dense|
      invariant CompactValid(c) && c.tombIndices == []
      invariant RowsOf(c.dense, c.values, c.dirty, c.added) == KeptRows(p.Rows()[..n], excluded, dirtyOnly)
      invariant forall i :: i in c.dense ==> i in p.dense[..n]
    {
      var i := p.dense[n];
      NextRow(p, excluded, dirtyOnly, n);
      assert p.dense[..n + 1] == p.dense[..n] + [i];
      if !(Excluded(excluded, i) || (dirtyOnly && !p.dirty[n])) {
        c := AppendCompact(c, i, p.values[n], p.dirty[n], p.added[n]);
      }
    }
    assert p.Rows()[..|p.dense|] == p.Rows();
  }

  lemma AppendKeepsValid<V>(c: Compact<V>, r: Compact<V>, i: nat, v: V, dirty: bool, added: bool)
    requires CompactValid(c) && i < NPOS && i !in c.dense && (added ==> dirty)
    requires r ==
        c.(dense := c.dense + [i], values := c.values + [v], dirty := c.dirty + [dirty], added := c.added + [added],
                     dirtyCount := c.dirtyCount + (if dirty then 1 else 0),
                         addedCount := c.addedCount + (if added then 1 else 0))
    ensures CompactValid(r)
    ensures RowsOf(r.dense, r.values, r.dirty, r.added) ==
        RowsOf(c.dense, c.values, c.dirty, c.added) + [Row(i, v, dirty, added)]
  {
    hide CountTrue, CompactTombs;
    CountAppend(c.dirty, dirty);
    CountAppend(c.added, added);
  }

  function AppendCompact<V>(c: Compact<V>, i: nat, v: V, dirty: bool, added: bool): (r: Compact<V>)
    requires CompactValid(c) && i < NPOS && i !in c.dense && (added ==> dirty)
    ensures CompactValid(r) && r.tombIndices == c.tombIndices
    ensures RowsOf(r.dense, r.values, r.dirty, r.added) ==
        RowsOf(c.dense, c.values, c.dirty, c.added) + [Row(i, v, dirty, added)]
    ensures r.dense == c.dense + [i]
  {
    hide CompactValid, RowsOf;
    var r := c.(dense := c.dense + [i], values := c.values + [v], dirty := c.dirty + [dirty],
        added := c.added + [added],
                dirtyCount := c.dirtyCount + (if dirty then 1 else 0),
                    addedCount := c.addedCount + (if added then 1 else 0));
    AppendKeepsValid(c, r, i, v, dirty, added);
    r
  }

  ghost function KeptTombs(tombs: map<nat, Tomb>, excluded: seq<bool>, among: seq<nat>): map<nat, Tomb> {
    map i | i in tombs && i in among && !Excluded(excluded, i) :: tombs[i]
  }

  method CopyTombstones<V>(p: Pool<V>, excluded: seq<bool>) returns (indices: seq<nat>, flags: seq<Flags>,
      entities: seq<Entity>)
    requires p.TombsValid()
    ensures CompactTombs(indices, flags, entities)
    ensures ListedTombs(indices, flags, entities, |indices|) == map i | i in p.Tombs() && !Excluded(excluded, i) ::
        p.Tombs()[i]
  {
    indices, flags, entities := [], [], [];
    if p.tombCount == 0 {
      return;
    }
    for n := 0 to |p.tombIndices|
      invariant CompactTombs(indices, flags, entities)
      invariant forall i :: i in indices ==> i in p.tombIndices[..n]
      invariant ListedTombs(indices, flags, entities, |indices|) == KeptTombs(p.Tombs(), excluded, p.tombIndices[..n])
    {
      hide TombArrays, TombsOf, CompactTombs, ListedTombs, KeptTombs, Excluded;
      var i := p.tombIndices[n];
      NextTomb(p, excluded, n);
      if !Excluded(excluded, i) {
        ListedAppend(indices, flags, entities, i, p.tombFlags[i], p.tombEntities[i]);
        indices, flags, entities := indices + [i], flags + [p.tombFlags[i]], entities + [p.tombEntities[i]];
      }
    }
    assert p.tombIndices[..|p.tombIndices|] == p.tombIndices;
  }

  /** The next listed tombstone is a new one, and the filter treats it on its own. */
  lemma NextTomb<V>(p: Pool<V>, excluded: seq<bool>, n: nat)
    requires p.TombsValid() && n < |p.tombIndices|
    ensures var i := p.tombIndices[n];
            && i < NPOS && i < |p.tombFlags| && i < |p.tombEntities| && i !in p.tombIndices[..n]
            && p.tombFlags[i] != NO_TOMBSTONE && p.tombEntities[i].index == i
            && p.tombIndices[..n + 1] == p.tombIndices[..n] + [i]
            && KeptTombs(p.Tombs(), excluded, p.tombIndices[..n + 1]) ==
               if Excluded(excluded, i) then KeptTombs(p.Tombs(), excluded, p.tombIndices[..n])
               else
                 KeptTombs(p.Tombs(), excluded,
                 p.tombIndices[..n])[i := Tomb(p.tombEntities[i], p.tombFlags[i].dirty, p.tombFlags[i].destroy)]
  {
    var i := p.tombIndices[n];
    assert p.tombIndices[..n + 1] == p.tombIndices[..n] + [i];
    assert i in p.tombIndices && i !in p.tombIndices[..n];
  }

  lemma {:induction false} ListedPrefix(a: seq<nat>, b: seq<Flags>, c: seq<Entity>, a': seq<nat>, b': seq<Flags>,
      c': seq<Entity>, n: nat)
    requires n <= |a| == |b| == |c| && |a'| == |b'| == |c'| && a <= a' && b <= b' && c <= c'
    ensures ListedTombs(a, b, c, n) == ListedTombs(a', b', c', n)
  {
    if n > 0 { ListedPrefix(a, b, c, a', b', c', n - 1); }
  }

  lemma ListedAppend(indices: seq<nat>, flags: seq<Flags>, entities: seq<Entity>, i: nat, f: Flags, e: Entity)
    requires CompactTombs(indices, flags, entities) && i < NPOS && i !in indices && f != NO_TOMBSTONE && e.index == i
    ensures CompactTombs(indices + [i], flags + [f], entities + [e])
    ensures ListedTombs(indices + [i], flags + [f], entities + [e], |indices| + 1)
         == ListedTombs(indices, flags, entities, |indices|)[i := Tomb(e, f.dirty, f.destroy)]
  {
    ListedPrefix(indices, flags, entities, indices + [i], flags + [f], entities + [e], |indices|);
  }

  /** Both paths of the compact clone give the filtered pool. */
  method CloneCompactFiltered<V>(p: Pool<V>, excluded: seq<bool>, dirtyOnly: bool) returns (c: Compact<V>)
    requires p.Valid()
    ensures CompactValid(c) && ModelOf(c) == Filtered(p.M(), excluded, dirtyOnly)
  {
    var hasExcluded := HasExcludedEntries(p, excluded);
    if !dirtyOnly && !hasExcluded {
      NothingExcluded(p.Rows(), excluded);
      c := Compact(p.dense, p.values, p.dirty, p.added, p.dirtyCount, p.addedCount, [], [], [], 0);
    } else {
      c := CopyRows(p, excluded, dirtyOnly);
    }
    var indices, flags, entities := CopyTombstones(p, excluded);
    c := c.(tombIndices := indices, tombFlags := flags, tombEntities := entities, tombCount := |indices|);
  }

  function Reach(indices: seq<nat>, start: nat): (n: nat)
    ensures start <= n && forall k :: 0 <= k < |indices| ==> indices[k] < n
  {
    if indices == [] then start
    else
      var n, last := Reach(indices[..|indices| - 1], start), indices[|indices| - 1];
      if n < last + 1 then last + 1 else n
  }

  /** Positions of distinct indices, written into a cleared lookup. */
  method InvertIndices(indices: seq<nat>, size: nat) returns (positions: seq<nat>)
    requires AllDistinct(indices) && forall k :: 0 <= k < |indices| ==> indices[k] < NPOS && indices[k] < size
    ensures |positions| == size && Inverse(indices, positions)
  {
    DistinctBelow(indices, NPOS);
    positions := seq(size, _ => NPOS);
    for k := 0 to |indices|
      invariant |positions| == size
      invariant forall j :: 0 <= j < k ==> positions[indices[j]] == j
      invariant forall i :: 0 <= i < size ==> positions[i] == NPOS || (positions[i] < k && indices[positions[i]] == i)
    {
      positions := positions[indices[k] := k];
    }
  }

  /** Scatter the listed tombstones into index-addressed arrays. */
  method ScatterTombs(indices: seq<nat>, flags: seq<Flags>, entities: seq<Entity>, size: nat)
    returns (f: seq<Flags>, e: seq<Entity>)
    requires CompactTombs(indices, flags, entities) && forall k :: 0 <= k < |indices| ==> indices[k] < size
    ensures |f| == |e| == size
    ensures forall k :: 0 <= k < |indices| ==> f[indices[k]] == flags[k] && e[indices[k]] == entities[k]
    ensures forall i :: 0 <= i < size && i !in indices ==> f[i] == NO_TOMBSTONE && e[i] == NO_ENTITY
  {
    f, e := seq(size, _ => NO_TOMBSTONE), seq(size, _ => NO_ENTITY);
    for p := 0 to |indices|
      invariant |f| == |e| == size
      invariant forall k :: 0 <= k < p ==> f[indices[k]] == flags[k] && e[indices[k]] == entities[k]
      invariant forall i :: 0 <= i < size && i !in indices ==> f[i] == NO_TOMBSTONE && e[i] == NO_ENTITY
    {
      f := f[indices[p] := flags[p]];
      e := e[indices[p] := entities[p]];
    }
  }

  lemma {:induction false} ListedIsScattered(indices: seq<nat>, flags: seq<Flags>, entities: seq<Entity>,
                                             f: seq<Flags>, e: seq<Entity>, n: nat)
    requires n <= |indices| == |flags| == |entities| && AllDistinct(indices)
    requires forall k :: 0 <= k < |indices| ==>
        indices[k] < |f| && indices[k] < |e| && f[indices[k]] == flags[k] && e[indices[k]] == entities[k]
    ensures ListedTombs(indices, flags, entities, n) == TombsOf(f, indices[..n], e)
  {
    if n > 0 {
      ListedIsScattered(indices, flags, entities, f, e, n - 1);
      assert indices[..n] == indices[..n - 1] + [indices[n - 1]];
    }
  }

  method RebuildTombs(indices: seq<nat>, flags: seq<Flags>, entities: seq<Entity>, size: nat)
    returns (f: seq<Flags>, positions: seq<nat>, e: seq<Entity>)
    requires CompactTombs(indices, flags, entities) && forall k :: 0 <= k < |indices| ==> indices[k] < size
    ensures TombArrays(f, indices, positions, e) &&
        TombsOf(f, indices, e) == ListedTombs(indices, flags, entities, |indices|)
  {
    positions := InvertIndices(indices, size);
    f, e := ScatterTombs(indices, flags, entities, size);
    ListedIsScattered(indices, flags, entities, f, e, |indices|);
    assert indices[..|indices|] == indices;
    forall i: nat | i in indices ensures i < |f| && i < |e| && f[i] != NO_TOMBSTONE && e[i].index == i {
      var k :| 0 <= k < |indices| && indices[k] == i;
    }
    forall i | 0 <= i < |f| && f[i] != NO_TOMBSTONE ensures i < |positions| && positions[i] != NPOS {
      assert i in indices;
    }
  }

  /** Copy a compact clone and rebuild its lookups: a full pool with the same meaning. */
  method CloneForRestore<V>(c: Compact<V>) returns (p: Pool<V>)
    requires CompactValid(c)
    ensures fresh(p) && p.Valid() && p.M() == ModelOf(c)
  {
    var size := Reach(c.tombIndices, Reach(c.dense, 0));
    var sparse := InvertIndices(c.dense, size);
    var flags, positions, entities := RebuildTombs(c.tombIndices, c.tombFlags, c.tombEntities, size);
    p := new Pool.FromArrays(c.dense, c.values, c.dirty, c.added, sparse, c.dirtyCount, c.addedCount,
                             flags, c.tombIndices, positions, entities, c.tombCount);
  }

  /** A full pool copied and rebuilt has the same rows in the same order, the same marks and
      the same tombstones, minus the excluded indices. */
  method CopyAndRestore<V>(p: Pool<V>, excluded: seq<bool>, dirtyOnly: bool) returns (q: Pool<V>)
    requires p.Valid()
    ensures fresh(q) && q.Valid() && q.M() == Filtered(p.M(), excluded, dirtyOnly)
  {
    var c := CloneCompactFiltered(p, excluded, dirtyOnly);
    q := CloneForRestore(c);
  }
}
