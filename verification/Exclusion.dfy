/** Captures that leave entities out: what a registry shows under an exclusion mask, and why runs of
    registry steps stay runs when only the shown part is looked at. */
module Exclusion {
  import opened PoolModel
  import opened SparsePool
  import opened PoolClone
  import opened OwnedGroups
  import opened EntitySlots
  import opened RegistryModule
  import opened DeltaReplay
  import opened SnapshotChain

  /** Slots of excluded entities are captured as zero. */
  function Blanked(slots: seq<Entity>, mask: seq<bool>): (r: seq<Entity>)
    ensures |r| == |slots|
  {
    seq(|slots|, i requires 0 <= i < |slots| => if Excluded(mask, i) then NO_ENTITY else slots[i])
  }

  ghost function VisiblePools<V>(pools: Pools<V>, mask: seq<bool>): Pools<V> {
    map c | c in pools :: Filtered(pools[c], mask, false)
  }

  /** The state without the excluded entities. */
  ghost function Visible<V>(s: State<V>, mask: seq<bool>): State<V> {
    State(VisiblePools(s.pools, mask), Blanked(s.slots, mask), s.token)
  }

  lemma VisibleAt<V>(pools: Pools<V>, mask: seq<bool>, c: nat, i: nat)
    requires AllDistinctRows(pools)
    ensures RowAt(VisiblePools(pools, mask), c, i) == if Excluded(mask, i) then None else RowAt(pools, c, i)
    ensures TombAt(VisiblePools(pools, mask), c, i) == if Excluded(mask, i) then None else TombAt(pools, c, i)
  {
    hide Find, KeptRows;
    if c in pools { FilteredLookup(pools[c], mask, false, i); }
  }

  lemma VisibleRowsDiffer<V>(pools: Pools<V>, mask: seq<bool>)
    requires AllDistinctRows(pools)
    ensures AllDistinctRows(VisiblePools(pools, mask))
  {
    hide Find, KeptRows, Distinct;
    forall c | c in pools
      ensures Distinct(VisiblePools(pools, mask)[c].rows)
    {
      FilteredLookup(pools[c], mask, false, 0);
    }
  }

  /** An entity is shown exactly when it is alive and not excluded. */
  lemma VisibleAlive(slots: seq<Entity>, mask: seq<bool>, e: Entity)
    ensures Alive(Blanked(slots, mask), e) <==> Alive(slots, e) && !Excluded(mask, e.index)
  {
  }

  lemma VisibleIsUsable<V>(s: State<V>, mask: seq<bool>)
    requires Usable(s)
    ensures Usable(Visible(s, mask))
  {
    hide Find, KeptRows, Distinct, AllDistinctRows;
    VisibleRowsDiffer(s.pools, mask);
    var v := Visible(s, mask);
    forall c: nat, i: nat | Contains(v.pools, c, i) ensures i < |v.slots| && AliveAt(v.slots, i) {
      VisibleAt(s.pools, mask, c, i);
      assert RowAt(v.pools, c, i).Some?;
      assert Contains(s.pools, c, i);
    }
  }

  /** Only which indices are excluded matters, not how long the mask is. */
  lemma SameMaskSameView<V>(s: State<V>, a: seq<bool>, b: seq<bool>)
    requires forall i :: Excluded(a, i) <==> Excluded(b, i)
    ensures Visible(s, a) == Visible(s, b)
  {
    forall c | c in s.pools ensures Filtered(s.pools[c], a, false) == Filtered(s.pools[c], b, false) {
      SameMaskSameRows(s.pools[c].rows, a, b);
    }
    assert VisiblePools(s.pools, a) == VisiblePools(s.pools, b);
    assert Blanked(s.slots, a) == Blanked(s.slots, b);
  }

  lemma {:induction false} SameMaskSameRows<V>(rows: seq<Row<V>>, a: seq<bool>, b: seq<bool>)
    requires forall i :: Excluded(a, i) <==> Excluded(b, i)
    ensures KeptRows(rows, a, false) == KeptRows(rows, b, false)
  {
    if rows != [] { SameMaskSameRows(rows[..|rows| - 1], a, b); }
  }

  /** A mirror of the shown state holds exactly the values and handles of entities not excluded: those
      whose index the mask does not set. */
  lemma MirrorShowsTheRest<V>(t: State<V>, s: State<V>, mask: seq<bool>, c: Capture<V>)
    requires AllDistinctRows(s.pools) && t.token == c.token
    ensures Mirrors(t, Visible(s, mask), c) <==>
            && (forall k: nat, i: nat ::
                  ValueAt(t.pools, k, i) == if i < |mask| && mask[i] then None else ValueAt(s.pools, k, i))
            && (forall e :: Alive(t.slots, e) <==> Alive(s.slots, e) && !(e.index < |mask| && mask[e.index]))
  {
    hide VisiblePools, RowAt, Blanked, AllDistinctRows, Alive;
    forall k: nat, i: nat
      ensures ValueAt(Visible(s, mask).pools, k, i) ==
          if i < |mask| && mask[i] then None else ValueAt(s.pools, k, i)
    {
      VisibleAt(s.pools, mask, k, i);
    }
    forall e ensures Alive(Visible(s, mask).slots, e) <==> Alive(s.slots, e) && !Excluded(mask, e.index) {
      VisibleAlive(s.slots, mask, e);
    }
  }

  lemma NothingHidden<V>(s: State<V>)
    ensures Visible(s, []) == s
  {
    hide KeptRows, Filtered;
    forall c | c in s.pools ensures Filtered(s.pools[c], [], false) == s.pools[c] { NothingFiltered(s.pools[c]); }
    assert VisiblePools(s.pools, []) == s.pools;
    assert Blanked(s.slots, []) == s.slots;
  }

  lemma {:induction false} NothingFiltered<V>(m: Model<V>)
    ensures Filtered(m, [], false) == m
  {
    NothingExcluded(m.rows, []);
  }

  /** Filtering by mask and then by marks is filtering by both. */
  lemma FilteredTwice<V>(m: Model<V>, mask: seq<bool>)
    ensures Filtered(Filtered(m, mask, false), [], true) == Filtered(m, mask, true)
  {
    KeptTwice(m.rows, mask);
  }

  lemma {:induction false} KeptTwice<V>(rows: seq<Row<V>>, mask: seq<bool>)
    ensures KeptRows(KeptRows(rows, mask, false), [], true) == KeptRows(rows, mask, true)
  {
    if rows != [] {
      var front, last := KeptRows(rows[..|rows| - 1], mask, false), rows[|rows| - 1];
      KeptTwice(rows[..|rows| - 1], mask);
      assert (front + [last])[..|front|] == front;
    }
  }

  lemma DeltaOfVisible<V>(pools: Pools<V>, mask: seq<bool>, c: nat)
    requires c in pools
    ensures c in DeltaOf(VisiblePools(pools, mask)) <==> Marked(Filtered(pools[c], mask, true))
    ensures c in DeltaOf(VisiblePools(pools, mask)) ==>
        DeltaOf(VisiblePools(pools, mask))[c] == Filtered(pools[c], mask, true)
  {
    hide KeptRows, Marked, Filtered;
    FilteredTwice(pools[c], mask);
  }

  /** Groups are captured with their size, so no member of a group may be excluded. */
  ghost predicate NoMemberExcluded<V>(w: World<V>, mask: seq<bool>) {
    forall g, i :: 0 <= g < |w.groups| && InPrefix(w.pools, w.groups[g], i) ==> !Excluded(mask, i)
  }

  /** Rows before the first excluded one keep their positions. */
  lemma {:induction false} KeptStart<V>(rows: seq<Row<V>>, mask: seq<bool>, n: nat)
    requires n <= |rows| && forall p :: 0 <= p < n ==> !Excluded(mask, rows[p].index)
    ensures n <= |KeptRows(rows, mask, false)| && KeptRows(rows, mask, false)[..n] == rows[..n]
  {
    if |rows| > n {
      KeptStart(rows[..|rows| - 1], mask, n);
    } else {
      NothingExcluded(rows, mask);
    }
  }

  /** What is shown of a complete group is a complete group, with the same prefix. */
  lemma VisibleStart<V>(w: World<V>, mask: seq<bool>, g: nat, c: nat)
    requires AllDistinctRows(w.pools) && NoMemberExcluded(w, mask)
    requires g < |w.groups| && Aligned(w.pools, w.groups[g]) && c in w.groups[g].owned
    ensures var n := w.groups[g].size;
            && n <= |w.pools[c].rows| && n <= |VisiblePools(w.pools, mask)[c].rows|
            && VisiblePools(w.pools, mask)[c].rows[..n] == w.pools[c].rows[..n]
  {
    hide KeptRows;
    var group := w.groups[g];
    var first, rows := w.pools[group.owned[0]].rows, w.pools[c].rows;
    assert group.owned[0] in group.owned;
    forall p | 0 <= p < group.size ensures !Excluded(mask, rows[p].index) {
      FindUnique(first, p);
      assert InPrefix(w.pools, group, first[p].index);
    }
    KeptStart(rows, mask, group.size);
  }

  lemma VisibleAligned<V>(w: World<V>, mask: seq<bool>, g: nat)
    requires AllDistinctRows(w.pools) && NoMemberExcluded(w, mask) && g < |w.groups| && Aligned(w.pools, w.groups[g])
    ensures Aligned(VisiblePools(w.pools, mask), w.groups[g])
  {
    hide KeptRows, NoMemberExcluded, AllDistinctRows, Filtered;
    var group, v := w.groups[g], VisiblePools(w.pools, mask);
    var o := group.owned[0];
    VisibleStart(w, mask, g, o);
    forall c | c in group.owned ensures SameStart(v[o].rows, v[c].rows, group.size) {
      VisibleStart(w, mask, g, c);
      forall p | 0 <= p < group.size ensures v[o].rows[p].index == v[c].rows[p].index {
        assert v[o].rows[..group.size][p] == w.pools[o].rows[..group.size][p];
        assert v[c].rows[..group.size][p] == w.pools[c].rows[..group.size][p];
      }
    }
  }

  lemma VisibleMembers<V>(w: World<V>, mask: seq<bool>, g: nat, i: nat)
    requires Sound(w) && w.depth == 0 && NoMemberExcluded(w, mask) && g < |w.groups|
    requires Everywhere(VisiblePools(w.pools, mask), w.groups[g].owned, i)
    ensures InPrefix(VisiblePools(w.pools, mask), w.groups[g], i)
  {
    hide KeptRows, Filtered;
    var group, v := w.groups[g], VisiblePools(w.pools, mask);
    var o := group.owned[0];
    assert o in group.owned;
    VisibleRowsDiffer(w.pools, mask);
    forall c | c in group.owned ensures Contains(w.pools, c, i) {
      VisibleAt(w.pools, mask, c, i);
      assert RowAt(v, c, i).Some?;
    }
    PrefixIsIntersection(w, g, i);
    VisibleStart(w, mask, g, o);
    var p := Find(w.pools[o].rows, i);
    assert v[o].rows[..group.size][p] == w.pools[o].rows[..group.size][p];
    FindUnique(v[o].rows, p);
  }

  lemma VisibleIsSound<V>(w: World<V>, mask: seq<bool>)
    requires Sound(w) && w.depth == 0 && NoMemberExcluded(w, mask)
    ensures Sound(w.(pools := VisiblePools(w.pools, mask)))
  {
    hide VisiblePools, Aligned, AllDistinctRows, InPrefix, Everywhere, NoMemberExcluded, Ownership;
    var next := w.(pools := VisiblePools(w.pools, mask));
    VisibleRowsDiffer(w.pools, mask);
    forall g | 0 <= g < |w.groups| ensures Aligned(next.pools, next.groups[g]) { VisibleAligned(w, mask, g); }
    forall g, i | 0 <= g < |w.groups| ensures !Missing(next, g, i) {
      if Everywhere(next.pools, next.groups[g].owned, i) { VisibleMembers(w, mask, g, i); }
    }
  }

  /** A registry step as it is seen: one on an excluded entity changes nothing. */
  function VisibleEdit<V>(op: Edit<V>, mask: seq<bool>): Edit<V> {
    match op
    case Put(_, e, _) => if Excluded(mask, e.index) then Shuffle else op
    case Take(_, e) => if Excluded(mask, e.index) then Shuffle else op
    case Kill(e) => if Excluded(mask, e.index) then Shuffle else op
    case Set(_, i, _) => if Excluded(mask, i) then Shuffle else op
    case Shuffle => op
  }

  lemma EditIsVisible<V>(a: Pools<V>, b: Pools<V>, op: Edit<V>, mask: seq<bool>)
    requires AllDistinctRows(a) && Edited(a, b, op)
    ensures Edited(VisiblePools(a, mask), VisiblePools(b, mask), VisibleEdit(op, mask))
  {
    hide VisiblePools, RowAt, TombAt, AllDistinctRows;
    VisibleRowsDiffer(b, mask);
    forall c, i
      ensures RowAt(VisiblePools(b, mask), c, i) == RowAfter(VisiblePools(a, mask), VisibleEdit(op, mask), c, i)
      ensures TombAt(VisiblePools(b, mask), c, i) == TombAfter(VisiblePools(a, mask), VisibleEdit(op, mask), c, i)
    {
      VisibleAt(a, mask, c, i);
      VisibleAt(b, mask, c, i);
    }
  }

  ghost function VisibleWork<V>(w: Work<V>, mask: seq<bool>): Work<V> {
    Work(seq(|w.run|, k requires 0 <= k < |w.run| => VisiblePools(w.run[k], mask)),
         seq(|w.ops|, k requires 0 <= k < |w.ops| => VisibleEdit(w.ops[k], mask)))
  }

  lemma {:induction false} ClearedKept<V>(rows: seq<Row<V>>, mask: seq<bool>)
    ensures KeptRows(ClearAll(Model(rows, map[])).rows, mask, false) ==
        ClearAll(Model(KeptRows(rows, mask, false), map[])).rows
  {
    if rows != [] {
      var front, last := rows[..|rows| - 1], rows[|rows| - 1];
      ClearedKept(front, mask);
      var cleared := ClearAll(Model(rows, map[])).rows;
      assert cleared[..|rows| - 1] == ClearAll(Model(front, map[])).rows;
    }
  }

  lemma ClearedIsVisible<V>(pools: Pools<V>, mask: seq<bool>)
    ensures VisiblePools(Cleared(pools), mask) == Cleared(VisiblePools(pools, mask))
  {
    hide KeptRows;
    forall c | c in pools
      ensures Filtered(ClearAll(pools[c]), mask, false) == ClearAll(Filtered(pools[c], mask, false))
    {
      ClearedKept(pools[c].rows, mask);
    }
  }

  /** A run of registry steps is a run of shown steps between the shown states. */
  lemma WorkIsVisible<V>(before: Pools<V>, w: Work<V>, now: Pools<V>, mask: seq<bool>)
    requires AllDistinctRows(before) && Leads(Cleared(before), w, now)
    ensures Leads(Cleared(VisiblePools(before, mask)), VisibleWork(w, mask), VisiblePools(now, mask))
  {
    hide VisiblePools, Cleared, VisibleEdit, AllDistinctRows;
    ClearedIsVisible(before, mask);
    ClearedDiffer(before);
    forall k | 0 <= k < |w.ops|
      ensures Edited(VisiblePools(w.run[k], mask), VisiblePools(w.run[k + 1], mask), VisibleEdit(w.ops[k], mask))
    {
      if k > 0 { assert Edited(w.run[k - 1], w.run[k], w.ops[k - 1]); }
      EditIsVisible(w.run[k], w.run[k + 1], w.ops[k], mask);
    }
  }

  lemma ClearedDiffer<V>(pools: Pools<V>)
    requires AllDistinctRows(pools)
    ensures AllDistinctRows(Cleared(pools))
  {
    hide Find;
    forall c | c in pools ensures Distinct(ClearAll(pools[c]).rows) { ClearAllLookup(pools[c], 0); }
  }
}
