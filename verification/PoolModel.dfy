/** What a sparse-set pool means: its rows in dense order, and one tombstone per removed index. */
module PoolModel {

  /** A generational handle: low half index, high half version. */
  datatype Entity = Entity(index: nat, version: nat)

  datatype Row<V> = Row(index: nat, value: V, dirty: bool, added: bool)

  datatype Tomb = Tomb(entity: Entity, dirty: bool, destroy: bool)

  datatype Model<V> = Model(rows: seq<Row<V>>, tombs: map<nat, Tomb>)

  /** The dense position of an index, or the row count when it has no row. */
  function Find<V>(rows: seq<Row<V>>, i: nat): (k: nat)
    ensures k <= |rows|
    ensures k < |rows| ==> rows[k].index == i
    ensures forall j :: 0 <= j < k ==> rows[j].index != i
  {
    if rows == [] then 0
    else
      var k := Find(rows[..|rows| - 1], i);
      if k < |rows| - 1 || rows[k].index == i then k else |rows|
  }

  predicate Has<V>(m: Model<V>, i: nat) { Find(m.rows, i) < |m.rows| }

  ghost predicate Distinct<V>(rows: seq<Row<V>>) {
    forall j, k :: 0 <= j < k < |rows| ==> rows[j].index != rows[k].index
  }

  ghost predicate WellFormed<V>(m: Model<V>) {
    && Distinct(m.rows)
    && (forall k :: 0 <= k < |m.rows| ==> m.rows[k].added ==> m.rows[k].dirty)
    && (forall i :: i in m.tombs ==> m.tombs[i].entity.index == i && m.tombs[i].dirty)
  }

  lemma FindUnique<V>(rows: seq<Row<V>>, k: nat)
    requires Distinct(rows) && k < |rows|
    ensures Find(rows, rows[k].index) == k
  {
  }

  function Emplace<V>(m: Model<V>, e: Entity, v: V): Model<V> {
    var k := Find(m.rows, e.index);
    if k < |m.rows| then m.(rows := m.rows[k := m.rows[k].(value := v, dirty := true)])
    else Model(m.rows + [Row(e.index, v, true, true)], ForgetTomb(m.tombs, e))
  }

  /** A new row clears only the tombstone of the very same handle. */
  function ForgetTomb(tombs: map<nat, Tomb>, e: Entity): map<nat, Tomb> {
    if e.index in tombs && tombs[e.index].entity == e then tombs - {e.index} else tombs
  }

  /** The last row fills the hole. */
  function SwapRemove<V>(rows: seq<Row<V>>, k: nat): seq<Row<V>>
    requires k < |rows|
  {
    rows[k := rows[|rows| - 1]][..|rows| - 1]
  }

  function Remove<V>(m: Model<V>, e: Entity, destroy: bool): Model<V> {
    var k := Find(m.rows, e.index);
    if k < |m.rows| then Model(SwapRemove(m.rows, k), m.tombs[e.index := Tomb(e, true, destroy)]) else m
  }

  function Write<V>(m: Model<V>, i: nat, v: V): Model<V> {
    var k := Find(m.rows, i);
    if k < |m.rows| then m.(rows := m.rows[k := m.rows[k].(value := v, dirty := true)]) else m
  }

  /** A store through a pointer obtained without marking. */
  function Poke<V>(m: Model<V>, i: nat, v: V): Model<V> {
    var k := Find(m.rows, i);
    if k < |m.rows| then m.(rows := m.rows[k := m.rows[k].(value := v)]) else m
  }

  function MarkDirty<V>(m: Model<V>, i: nat): Model<V> {
    var k := Find(m.rows, i);
    if k < |m.rows| then m.(rows := m.rows[k := m.rows[k].(dirty := true)]) else m
  }

  function ClearDirty<V>(m: Model<V>, i: nat): Model<V> {
    var k := Find(m.rows, i);
    if k < |m.rows| then m.(rows := m.rows[k := m.rows[k].(dirty := false, added := false)])
    else m.(tombs := m.tombs - {i})
  }

  function ClearAdded<V>(m: Model<V>, i: nat): Model<V> {
    var k := Find(m.rows, i);
    if k < |m.rows| then m.(rows := m.rows[k := m.rows[k].(added := false)]) else m
  }

  function ClearAll<V>(m: Model<V>): Model<V> {
    Model(seq(|m.rows|, k requires 0 <= k < |m.rows| => m.rows[k].(dirty := false, added := false)), map[])
  }

  function Swap<V>(m: Model<V>, a: nat, b: nat): Model<V>
    requires a < |m.rows| && b < |m.rows|
  {
    m.(rows := m.rows[a := m.rows[b]][b := m.rows[a]])
  }

  function MoveTo<V>(m: Model<V>, i: nat, dense: nat): Model<V>
    requires dense < |m.rows|
  {
    var k := Find(m.rows, i);
    if k < |m.rows| then Swap(m, k, dense) else m
  }

  datatype Option<+T> = None | Some(value: T)

  /** The pool as a map from index to row: what remains when dense order is forgotten. */
  function Lookup<V>(m: Model<V>, i: nat): Option<Row<V>> {
    var k := Find(m.rows, i);
    if k < |m.rows| then Some(m.rows[k]) else None
  }

  lemma SwapRemoveFinds<V>(rows: seq<Row<V>>, k: nat, i: nat)
    requires Distinct(rows) && k < |rows|
    ensures var r := SwapRemove(rows, k);
            && Distinct(r)
            && (i == rows[k].index ==> Find(r, i) == |r|)
            && (i != rows[k].index && Find(rows, i) < |rows| ==>
                  Find(r, i) == (if Find(rows, i) == |rows| - 1 then k else Find(rows, i)) &&
                      r[Find(r, i)] == rows[Find(rows, i)])
            && (i != rows[k].index && Find(rows, i) == |rows| ==> Find(r, i) == |r|)
  {
    var r := SwapRemove(rows, k);
    forall j | 0 <= j < |r| ensures r[j] == (if j == k then rows[|rows| - 1] else rows[j]) { }
    if i != rows[k].index && Find(rows, i) < |rows| {
      var j := if Find(rows, i) == |rows| - 1 then k else Find(rows, i);
      FindUnique(r, j);
    }
  }

  lemma SwapFinds<V>(m: Model<V>, a: nat, b: nat, i: nat)
    requires Distinct(m.rows) && a < |m.rows| && b < |m.rows|
    ensures var r := Swap(m, a, b).rows;
            && Distinct(r) && |r| == |m.rows|
            && Find(r, i) == (var k := Find(m.rows, i); if k == a then b else if k == b then a else k)
            && (Find(m.rows, i) < |m.rows| ==> r[Find(r, i)] == m.rows[Find(m.rows, i)])
  {
    var r, k := Swap(m, a, b).rows, Find(m.rows, i);
    assert forall j :: 0 <= j < |r| ==> r[j] == m.rows[if j == a then b else if j == b then a else j];
    if k < |m.rows| {
      FindUnique(r, if k == a then b else if k == b then a else k);
    }
  }

  lemma AppendFinds<V>(rows: seq<Row<V>>, x: Row<V>, i: nat)
    requires Distinct(rows) && Find(rows, x.index) == |rows|
    ensures Distinct(rows + [x])
    ensures Find(rows + [x], i) ==
        (if i == x.index then |rows| else if Find(rows, i) < |rows| then Find(rows, i) else |rows| + 1)
  {
    assert (rows + [x])[..|rows|] == rows;
  }

  /** Replacing a row by one with the same index moves nothing. */
  lemma UpdateFinds<V>(rows: seq<Row<V>>, k: nat, x: Row<V>, i: nat)
    requires Distinct(rows) && k < |rows| && x.index == rows[k].index
    ensures Distinct(rows[k := x]) && Find(rows[k := x], i) == Find(rows, i)
  {
    var r := rows[k := x];
    assert forall j :: 0 <= j < |r| ==> r[j].index == rows[j].index;
  }

  /** A pool refines a map: each operation has its map meaning whatever the dense order. */
  lemma EmplaceLookup<V>(m: Model<V>, e: Entity, v: V, i: nat)
    requires Distinct(m.rows)
    ensures Distinct(Emplace(m, e, v).rows)
    ensures Lookup(Emplace(m, e, v), i) ==
            if i != e.index then Lookup(m, i)
            else Some(Row(i, v, true, if Has(m, i) then Lookup(m, i).value.added else true))
  {
    var r, k := Emplace(m, e, v), Find(m.rows, e.index);
    if k < |m.rows| { UpdateFinds(m.rows, k, r.rows[k], i); } else { AppendFinds(m.rows, r.rows[k], i); }
  }

  lemma RemoveLookup<V>(m: Model<V>, e: Entity, destroy: bool, i: nat)
    requires Distinct(m.rows)
    ensures Distinct(Remove(m, e, destroy).rows)
    ensures Lookup(Remove(m, e, destroy), i) == if i == e.index then None else Lookup(m, i)
  {
    var k := Find(m.rows, e.index);
    if k < |m.rows| { SwapRemoveFinds(m.rows, k, i); }
  }

  /** The other half of an insert: a new row goes to the end and takes back only the tombstone of the
      very same handle. */
  lemma EmplaceAppends<V>(m: Model<V>, e: Entity, v: V, i: nat)
    ensures |Emplace(m, e, v).rows| == |m.rows| + (if Has(m, e.index) then 0 else 1)
    ensures i < |m.rows| ==> Emplace(m, e, v).rows[i].index == m.rows[i].index
    ensures i in Emplace(m, e, v).tombs <==>
            i in m.tombs && (i == e.index && !Has(m, i) ==> m.tombs[i].entity != e)
    ensures i in Emplace(m, e, v).tombs ==> Emplace(m, e, v).tombs[i] == m.tombs[i]
  {
  }

  /** The other half of a removal: the last row fills the hole, and a tombstone of the handle is left. */
  lemma RemoveFills<V>(m: Model<V>, e: Entity, destroy: bool, i: nat)
    requires Distinct(m.rows)
    ensures |Remove(m, e, destroy).rows| == |m.rows| - (if Has(m, e.index) then 1 else 0)
    ensures i < |Remove(m, e, destroy).rows| ==>
            Remove(m, e, destroy).rows[i] == m.rows[if m.rows[i].index == e.index then |m.rows| - 1 else i]
    ensures i in Remove(m, e, destroy).tombs <==> i in m.tombs || (i == e.index && Has(m, i))
    ensures i in Remove(m, e, destroy).tombs ==>
            Remove(m, e, destroy).tombs[i] == if i == e.index && Has(m, i) then Tomb(e, true, destroy) else m.tombs[i]
  {
  }

  lemma SwapLookup<V>(m: Model<V>, a: nat, b: nat, i: nat)
    requires Distinct(m.rows) && a < |m.rows| && b < |m.rows|
    ensures Distinct(Swap(m, a, b).rows) && Lookup(Swap(m, a, b), i) == Lookup(m, i)
    ensures Swap(m, a, b).tombs == m.tombs && Swap(m, a, b).rows[a] == m.rows[b] && Swap(m, a, b).rows[b] == m.rows[a]
    ensures i < |m.rows| && i != a && i != b ==> Swap(m, a, b).rows[i] == m.rows[i]
  {
    SwapFinds(m, a, b, i);
  }

  lemma WriteLookup<V>(m: Model<V>, w: nat, v: V, i: nat)
    requires Distinct(m.rows)
    ensures Distinct(Write(m, w, v).rows)
    ensures Lookup(Write(m, w, v), i) ==
            if i == w && Has(m, i) then Some(Lookup(m, i).value.(value := v, dirty := true)) else Lookup(m, i)
    ensures Write(m, w, v).tombs == m.tombs
  {
    var k := Find(m.rows, w);
    if k < |m.rows| { UpdateFinds(m.rows, k, Write(m, w, v).rows[k], i); }
  }

  lemma MarkDirtyLookup<V>(m: Model<V>, w: nat, i: nat)
    requires Distinct(m.rows)
    ensures Distinct(MarkDirty(m, w).rows)
    ensures Lookup(MarkDirty(m, w), i) ==
            if i == w && Has(m, i) then Some(Lookup(m, i).value.(dirty := true)) else Lookup(m, i)
    ensures MarkDirty(m, w).tombs == m.tombs
  {
    var k := Find(m.rows, w);
    if k < |m.rows| { UpdateFinds(m.rows, k, MarkDirty(m, w).rows[k], i); }
  }

  /** A present row loses both marks and keeps its value; an index without a row loses its tombstone.
      Nothing else changes. */
  lemma ClearDirtyLookup<V>(m: Model<V>, w: nat, i: nat)
    requires Distinct(m.rows)
    ensures Distinct(ClearDirty(m, w).rows)
    ensures Lookup(ClearDirty(m, w), i) ==
            if i == w && Has(m, i) then Some(Lookup(m, i).value.(dirty := false, added := false)) else Lookup(m, i)
    ensures i in ClearDirty(m, w).tombs <==> i in m.tombs && (i == w ==> Has(m, w))
    ensures i in ClearDirty(m, w).tombs ==> ClearDirty(m, w).tombs[i] == m.tombs[i]
  {
    var k := Find(m.rows, w);
    if k < |m.rows| { UpdateFinds(m.rows, k, ClearDirty(m, w).rows[k], i); }
  }

  /** A present row loses its added mark only. */
  lemma ClearAddedLookup<V>(m: Model<V>, w: nat, i: nat)
    requires Distinct(m.rows)
    ensures Distinct(ClearAdded(m, w).rows)
    ensures Lookup(ClearAdded(m, w), i) ==
            if i == w && Has(m, i) then Some(Lookup(m, i).value.(added := false)) else Lookup(m, i)
    ensures ClearAdded(m, w).tombs == m.tombs
  {
    var k := Find(m.rows, w);
    if k < |m.rows| { UpdateFinds(m.rows, k, ClearAdded(m, w).rows[k], i); }
  }

  /** A store without a mark changes one value. */
  lemma PokeLookup<V>(m: Model<V>, w: nat, v: V, i: nat)
    requires Distinct(m.rows)
    ensures Distinct(Poke(m, w, v).rows)
    ensures Lookup(Poke(m, w, v), i) ==
            if i == w && Has(m, i) then Some(Lookup(m, i).value.(value := v)) else Lookup(m, i)
    ensures Poke(m, w, v).tombs == m.tombs
  {
    var k := Find(m.rows, w);
    if k < |m.rows| { UpdateFinds(m.rows, k, Poke(m, w, v).rows[k], i); }
  }

  /** Moving an index to a dense position exchanges it with the row that was there. */
  lemma MoveToPlaces<V>(m: Model<V>, i: nat, dense: nat, j: nat)
    requires Distinct(m.rows) && dense < |m.rows|
    ensures Distinct(MoveTo(m, i, dense).rows) && MoveTo(m, i, dense).tombs == m.tombs
    ensures Lookup(MoveTo(m, i, dense), j) == Lookup(m, j)
    ensures |MoveTo(m, i, dense).rows| == |m.rows|
    ensures Has(m, i) ==> MoveTo(m, i, dense).rows[dense].index == i
    ensures j < |m.rows| && j != dense && m.rows[j].index != i ==> MoveTo(m, i, dense).rows[j] == m.rows[j]
  {
    var k := Find(m.rows, i);
    if k < |m.rows| { SwapLookup(m, k, dense, j); }
  }

  lemma ClearAllLookup<V>(m: Model<V>, i: nat)
    requires Distinct(m.rows)
    ensures Distinct(ClearAll(m).rows)
    ensures Lookup(ClearAll(m), i) == if Has(m, i) then Some(Lookup(m, i).value.(dirty := false, added := false))
        else None
    ensures ClearAll(m).tombs == map[] && |ClearAll(m).rows| == |m.rows|
    ensures i < |m.rows| ==> ClearAll(m).rows[i].index == m.rows[i].index
  {
    var r := ClearAll(m);
    assert forall k :: 0 <= k < |r.rows| ==> r.rows[k].index == m.rows[k].index;
    if Has(m, i) { FindUnique(r.rows, Find(m.rows, i)); }
  }
}
