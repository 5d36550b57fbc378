/** Owned groups: the entities that have every owned component fill one shared dense prefix of
    all the owned pools. The index is kept by swapping rows on every add and remove. */
module OwnedGroups {
  import opened Counting
  import opened PoolModel

  datatype Group = Group(owned: seq<nat>, size: nat)

  type Pools<V> = map<nat, Model<V>>

  /** Pools by component, declared groups, which group owns a component, and the deferral state. */
  datatype World<V> = World(pools: Pools<V>, groups: seq<Group>, owner: map<nat, nat>, depth: nat,
      pending: seq<(nat, nat)>)

  predicate Contains<V>(pools: Pools<V>, c: nat, i: nat) { c in pools && Has(pools[c], i) }

  predicate Everywhere<V>(pools: Pools<V>, owned: seq<nat>, i: nat) {
    forall c :: c in owned ==> Contains(pools, c, i)
  }

  /** The group's own membership test: a dense position below its size in the first owned pool. */
  predicate InPrefix<V>(pools: Pools<V>, g: Group, i: nat) {
    && g.owned != [] && g.size != 0 && g.owned[0] in pools
    && Has(pools[g.owned[0]], i) && Find(pools[g.owned[0]].rows, i) < g.size
  }

  ghost predicate AllDistinctRows<V>(pools: Pools<V>) { forall c :: c in pools ==> Distinct(pools[c].rows) }

  ghost predicate SameStart<V>(a: seq<Row<V>>, b: seq<Row<V>>, n: nat) {
    n <= |a| && n <= |b| && forall p :: 0 <= p < n ==> a[p].index == b[p].index
  }

  /** The first `size` rows of all owned pools hold the same entities, position by position. */
  ghost predicate Aligned<V>(pools: Pools<V>, g: Group) {
    && g.owned != [] && AllDistinct(g.owned)
    && (forall c :: c in g.owned ==> c in pools)
    && (forall c :: c in g.owned ==> SameStart(pools[g.owned[0]].rows, pools[c].rows, g.size))
  }

  lemma PrefixPosition<V>(pools: Pools<V>, g: Group, c: nat, i: nat)
    requires Aligned(pools, g) && AllDistinctRows(pools) && c in g.owned
    ensures InPrefix(pools, g, i) <==> Find(pools[c].rows, i) < g.size
    ensures InPrefix(pools, g, i) ==> Find(pools[c].rows, i) == Find(pools[g.owned[0]].rows, i)
  {
    var first, rows := pools[g.owned[0]].rows, pools[c].rows;
    assert g.owned[0] in g.owned;
    assert SameStart(first, rows, g.size);
    if Find(rows, i) < g.size { FindUnique(first, Find(rows, i)); }
    if Find(first, i) < g.size { FindUnique(rows, Find(first, i)); }
  }

  /** A member of the prefix has every owned component. */
  lemma PrefixIsEverywhere<V>(pools: Pools<V>, g: Group, i: nat)
    requires Aligned(pools, g) && AllDistinctRows(pools) && InPrefix(pools, g, i)
    ensures Everywhere(pools, g.owned, i)
  {
    forall c | c in g.owned ensures Contains(pools, c, i) {
      PrefixPosition(pools, g, c, i);
      assert SameStart(pools[g.owned[0]].rows, pools[c].rows, g.size);
    }
  }

  /** Changes behind the prefix leave the group as it was. */
  lemma TailChange<V>(pools: Pools<V>, next: Pools<V>, g: Group)
    requires Aligned(pools, g) && AllDistinctRows(pools) && AllDistinctRows(next)
    requires forall c :: c in g.owned ==> c in next && SameStart(pools[c].rows, next[c].rows, g.size)
    ensures Aligned(next, g) && forall i :: InPrefix(next, g, i) <==> InPrefix(pools, g, i)
  {
    var a, b := pools[g.owned[0]].rows, next[g.owned[0]].rows;
    assert g.owned[0] in g.owned;
    assert SameStart(a, b, g.size);
    forall c | c in g.owned ensures SameStart(b, next[c].rows, g.size) {
      assert SameStart(a, pools[c].rows, g.size) && SameStart(pools[c].rows, next[c].rows, g.size);
    }
    forall i ensures InPrefix(next, g, i) <==> InPrefix(pools, g, i) {
      if Find(a, i) < g.size { FindUnique(b, Find(a, i)); }
      if Find(b, i) < g.size { FindUnique(a, Find(b, i)); }
    }
  }

  /** Move the index to one dense position in every owned pool. */
  function MoveAll<V>(pools: Pools<V>, owned: seq<nat>, i: nat, target: nat): Pools<V> {
    map c | c in pools :: if c in owned && target < |pools[c].rows| then MoveTo(pools[c], i, target) else pools[c]
  }

  lemma MoveAllNone<V>(pools: Pools<V>, i: nat, target: nat)
    ensures MoveAll(pools, [], i, target) == pools
  {
  }

  /** One more pool of the list: the move so far has not touched it. */
  lemma MoveAllStep<V>(pools: Pools<V>, owned: seq<nat>, k: nat, i: nat, target: nat)
    requires AllDistinct(owned) && k < |owned|
    requires forall c :: c in owned ==> c in pools && Has(pools[c], i) && target < |pools[c].rows|
    ensures var c, before := owned[k], MoveAll(pools, owned[..k], i, target);
            && c in pools && c in before && before[c] == pools[c] && Has(before[c], i) && target < |before[c].rows|
            && MoveAll(pools, owned[..k + 1], i, target) == before[c := MoveTo(before[c], i, target)]
  {
    assert owned[..k + 1] == owned[..k] + [owned[k]];
    assert owned[k] in owned && owned[k] !in owned[..k];
  }

  function Enter<V>(w: World<V>, g: nat, i: nat): World<V>
    requires g < |w.groups|
  {
    var group := w.groups[g];
    if InPrefix(w.pools, group, i) then w
    else
      w.(pools := MoveAll(w.pools, group.owned, i, group.size), groups := w.groups[g := group.(size := group.size + 1)])
  }

  function Leave<V>(w: World<V>, g: nat, i: nat): World<V>
    requires g < |w.groups|
  {
    var group := w.groups[g];
    if !InPrefix(w.pools, group, i) then w
    else
      w.(pools := MoveAll(w.pools, group.owned, i, group.size - 1),
      groups := w.groups[g := group.(size := group.size - 1)])
  }

  lemma MoveAllLookup<V>(pools: Pools<V>, owned: seq<nat>, i: nat, target: nat)
    requires AllDistinctRows(pools)
    ensures AllDistinctRows(MoveAll(pools, owned, i, target))
    ensures forall c, j :: c in pools ==> Lookup(MoveAll(pools, owned, i, target)[c], j) == Lookup(pools[c], j)
    ensures forall c :: c in pools ==> MoveAll(pools, owned, i, target)[c].tombs == pools[c].tombs
  {
    var next := MoveAll(pools, owned, i, target);
    forall c, j | c in pools ensures Distinct(next[c].rows) && Lookup(next[c], j) == Lookup(pools[c], j) {
      var k := Find(pools[c].rows, i);
      if c in owned && target < |pools[c].rows| && k < |pools[c].rows| {
        SwapLookup(pools[c], k, target, j);
      }
    }
    forall c | c in pools ensures Distinct(next[c].rows) {
      var k := Find(pools[c].rows, i);
      if c in owned && target < |pools[c].rows| && k < |pools[c].rows| {
        SwapLookup(pools[c], k, target, 0);
      }
    }
  }

  /** Entering grows the shared prefix by exactly the new member. */
  lemma EnterGrowsPrefix<V>(w: World<V>, g: nat, i: nat)
    requires g < |w.groups| && Aligned(w.pools, w.groups[g]) && AllDistinctRows(w.pools)
    requires Everywhere(w.pools, w.groups[g].owned, i)
    ensures var next := Enter(w, g, i);
            && Aligned(next.pools, next.groups[g])
            && forall j :: InPrefix(next.pools, next.groups[g], j) <==> InPrefix(w.pools, w.groups[g], j) || j == i
  {
    hide Aligned, AllDistinctRows, Everywhere, MoveAll;
    var group := w.groups[g];
    if !InPrefix(w.pools, group, i) {
      EnterAligns(w.pools, group, i);
      forall j { EnterMembers(w.pools, group, i, j); }
    }
  }

  lemma EnterAligns<V>(pools: Pools<V>, group: Group, i: nat)
    requires Aligned(pools, group) && AllDistinctRows(pools) && Everywhere(pools, group.owned, i) &&
        !InPrefix(pools, group, i)
    ensures Aligned(MoveAll(pools, group.owned, i, group.size), group.(size := group.size + 1))
  {
    hide Find, AllDistinctRows, Everywhere, AllDistinct, InPrefix;
    var next := MoveAll(pools, group.owned, i, group.size);
    EnterOnePool(pools, group, i, group.owned[0]);
    forall c | c in group.owned ensures SameStart(next[group.owned[0]].rows, next[c].rows, group.size + 1) {
      EnterOnePool(pools, group, i, c);
      assert SameStart(pools[group.owned[0]].rows, pools[c].rows, group.size);
    }
  }

  lemma EnterMembers<V>(pools: Pools<V>, group: Group, i: nat, j: nat)
    requires Aligned(pools, group) && AllDistinctRows(pools) && Everywhere(pools, group.owned, i) &&
        !InPrefix(pools, group, i)
    ensures InPrefix(MoveAll(pools, group.owned, i, group.size), group.(size := group.size + 1), j) <==>
        InPrefix(pools, group, j) || j == i
  {
    hide Everywhere, SameStart, AllDistinct;
    var first := pools[group.owned[0]];
    EnterOnePool(pools, group, i, group.owned[0]);
    SwapFinds(first, Find(first.rows, i), group.size, j);
  }

  lemma EnterOnePool<V>(pools: Pools<V>, group: Group, i: nat, c: nat)
    requires Aligned(pools, group) && AllDistinctRows(pools) && c in group.owned
    requires Everywhere(pools, group.owned, i) && !InPrefix(pools, group, i)
    ensures var rows, next := pools[c].rows, MoveAll(pools, group.owned, i, group.size)[c].rows;
            && group.size <= Find(rows, i) < |rows|
            && |next| == |rows| && SameStart(rows, next, group.size) && next[group.size].index == i
            && next == Swap(pools[c], Find(rows, i), group.size).rows
  {
    PrefixPosition(pools, group, c, i);
    assert Contains(pools, c, i);
    assert SameStart(pools[group.owned[0]].rows, pools[c].rows, group.size);
  }

  /** Leaving shrinks it by exactly that member, at the same position in every pool. */
  lemma LeaveShrinksPrefix<V>(w: World<V>, g: nat, i: nat)
    requires g < |w.groups| && Aligned(w.pools, w.groups[g]) && AllDistinctRows(w.pools)
    ensures var next := Leave(w, g, i);
            && Aligned(next.pools, next.groups[g])
            && forall j :: InPrefix(next.pools, next.groups[g], j) <==> InPrefix(w.pools, w.groups[g], j) && j != i
  {
    var group := w.groups[g];
    if InPrefix(w.pools, group, i) {
      LeaveAligns(w.pools, group, i);
      forall j { LeaveMembers(w.pools, group, i, j); }
    }
  }

  lemma LeaveMembers<V>(pools: Pools<V>, group: Group, i: nat, j: nat)
    requires Aligned(pools, group) && AllDistinctRows(pools) && InPrefix(pools, group, i)
    ensures var next := MoveAll(pools, group.owned, i, group.size - 1);
            InPrefix(next, group.(size := group.size - 1), j) <==> InPrefix(pools, group, j) && j != i
  {
    hide SameStart, AllDistinct;
    var first := pools[group.owned[0]];
    assert group.owned[0] in group.owned;
    LeaveOnePool(pools, group, i, group.owned[0]);
    SwapFinds(first, Find(first.rows, i), group.size - 1, j);
  }

  lemma LeaveAligns<V>(pools: Pools<V>, group: Group, i: nat)
    requires Aligned(pools, group) && AllDistinctRows(pools) && InPrefix(pools, group, i)
    ensures Aligned(MoveAll(pools, group.owned, i, group.size - 1), group.(size := group.size - 1))
  {
    var next := MoveAll(pools, group.owned, i, group.size - 1);
    assert group.owned[0] in group.owned;
    forall c | c in group.owned ensures SameStart(next[group.owned[0]].rows, next[c].rows, group.size - 1) {
      LeaveOnePool(pools, group, i, c);
      LeaveOnePool(pools, group, i, group.owned[0]);
      SwapKeepsStart(pools[group.owned[0]], pools[c], group.size, Find(pools[c].rows, i), group.size - 1);
    }
  }

  lemma SwapKeepsStart<V>(a: Model<V>, b: Model<V>, n: nat, p: nat, q: nat)
    requires SameStart(a.rows, b.rows, n) && p < n && q < n
    ensures SameStart(Swap(a, p, q).rows, Swap(b, p, q).rows, n)
  {
  }

  lemma LeaveOnePool<V>(pools: Pools<V>, group: Group, i: nat, c: nat)
    requires Aligned(pools, group) && AllDistinctRows(pools) && c in group.owned && InPrefix(pools, group, i)
    ensures var rows, next := pools[c].rows, MoveAll(pools, group.owned, i, group.size - 1)[c].rows;
            && Find(rows, i) == Find(pools[group.owned[0]].rows, i) < group.size <= |rows|
            && next == Swap(pools[c], Find(rows, i), group.size - 1).rows
  {
    PrefixPosition(pools, group, c, i);
    assert SameStart(pools[group.owned[0]].rows, pools[c].rows, group.size);
  }

  /** Which group owns a component; distinct groups own disjoint sets. */
  ghost predicate Ownership(groups: seq<Group>, owner: map<nat, nat>) {
    && (forall g, c :: 0 <= g < |groups| && c in groups[g].owned ==> c in owner && owner[c] == g)
    && (forall c :: c in owner ==> owner[c] < |groups| && c in groups[owner[c]].owned)
  }

  ghost predicate Base<V>(w: World<V>) {
    && AllDistinctRows(w.pools)
    && Ownership(w.groups, w.owner)
    && (forall g :: 0 <= g < |w.groups| ==> Aligned(w.pools, w.groups[g]))
    && (w.depth == 0 ==> w.pending == [])
    && (forall k :: 0 <= k < |w.pending| ==> w.pending[k].0 < |w.groups|)
  }

  /** Entity i has all of group g's components, is not in its prefix, and nobody will put it there. */
  ghost predicate Missing<V>(w: World<V>, g: nat, i: nat)
    requires g < |w.groups|
  {
    Everywhere(w.pools, w.groups[g].owned, i) && !InPrefix(w.pools, w.groups[g], i) && (g, i) !in w.pending
  }

  ghost predicate Sound<V>(w: World<V>) {
    Base(w) && forall g, i :: 0 <= g < |w.groups| ==> !Missing(w, g, i)
  }

  /** Outside a deferral, a group's prefix is exactly the set of entities in all its pools. */
  lemma PrefixIsIntersection<V>(w: World<V>, g: nat, i: nat)
    requires Sound(w) && g < |w.groups| && w.depth == 0
    ensures InPrefix(w.pools, w.groups[g], i) <==> Everywhere(w.pools, w.groups[g].owned, i)
  {
    assert !Missing(w, g, i);
    if InPrefix(w.pools, w.groups[g], i) {
      PrefixIsEverywhere(w.pools, w.groups[g], i);
    }
  }

  /** Inside one, only a pending entry may still be absent from the prefix. */
  lemma OnlyPendingAreAbsent<V>(w: World<V>, g: nat, i: nat)
    requires Sound(w) && g < |w.groups|
    requires Everywhere(w.pools, w.groups[g].owned, i) && !InPrefix(w.pools, w.groups[g], i)
    ensures (g, i) in w.pending && w.depth > 0
  {
    assert !Missing(w, g, i);
  }

  lemma GroupsAreDisjoint<V>(w: World<V>, g: nat, h: nat, c: nat)
    requires Base(w) && g < |w.groups| && h < |w.groups| && c in w.groups[g].owned && c in w.groups[h].owned
    ensures g == h
  {
    assert c in w.owner && w.owner[c] == g && w.owner[c] == h;
  }

  /** Moving rows for one group leaves every other group's pools alone. */
  lemma MoveLeavesOthers<V>(w: World<V>, next: World<V>, g: nat, i: nat, target: nat, size: nat, h: nat)
    requires Base(w) && g < |w.groups| && h < |w.groups| && h != g
    requires next ==
        w.(pools := MoveAll(w.pools, w.groups[g].owned, i, target), groups := w.groups[g := w.groups[g].(size := size)])
    ensures next.groups[h] == w.groups[h] && Aligned(next.pools, next.groups[h])
    ensures forall j :: Missing(next, h, j) <==> Missing(w, h, j)
  {
    MoveAllLookup(w.pools, w.groups[g].owned, i, target);
    var group := w.groups[h];
    forall c | c in group.owned ensures c in next.pools && next.pools[c] == w.pools[c] {
      if c in w.groups[g].owned { GroupsAreDisjoint(w, g, h, c); }
    }
    assert forall c :: c in group.owned ==> SameStart(w.pools[c].rows, next.pools[c].rows, group.size) by {
      forall c | c in group.owned ensures SameStart(w.pools[c].rows, next.pools[c].rows, group.size) {
        assert SameStart(w.pools[group.owned[0]].rows, w.pools[c].rows, group.size);
      }
    }
    TailChange(w.pools, next.pools, group);
    forall j ensures Missing(next, h, j) <==> Missing(w, h, j) {
      assert Everywhere(next.pools, group.owned, j) <==> Everywhere(w.pools, group.owned, j);
    }
  }

  lemma EnterKeepsBase<V>(w: World<V>, g: nat, i: nat)
    requires Base(w) && g < |w.groups| && Everywhere(w.pools, w.groups[g].owned, i)
    ensures var next := Enter(w, g, i);
            Base(next) && forall h, j :: 0 <= h < |w.groups| ==>
                (Missing(next, h, j) <==> Missing(w, h, j) && !(h == g && j == i))
  {
    var next := Enter(w, g, i);
    EnterGrowsPrefix(w, g, i);
    if next != w {
      MoveAllLookup(w.pools, w.groups[g].owned, i, w.groups[g].size);
      forall h | 0 <= h < |w.groups| && h != g
        ensures Aligned(next.pools, next.groups[h]) && forall j :: Missing(next, h, j) <==> Missing(w, h, j)
      {
        MoveLeavesOthers(w, next, g, i, w.groups[g].size, w.groups[g].size + 1, h);
      }
      SameMembers(w.pools, next.pools, w.groups[g].owned);
      OwnershipKept(w.groups, next.groups, w.owner);
    }
  }

  lemma LeaveKeepsBase<V>(w: World<V>, g: nat, i: nat)
    requires Base(w) && g < |w.groups|
    ensures var next := Leave(w, g, i);
            && Base(next)
            && forall h, j :: 0 <= h < |w.groups| && Missing(next, h, j) ==> Missing(w, h, j) || (h == g && j == i)
  {
    var next := Leave(w, g, i);
    LeaveShrinksPrefix(w, g, i);
    if next != w {
      MoveAllLookup(w.pools, w.groups[g].owned, i, w.groups[g].size - 1);
      forall h | 0 <= h < |w.groups| && h != g
        ensures Aligned(next.pools, next.groups[h]) && forall j :: Missing(next, h, j) <==> Missing(w, h, j)
      {
        MoveLeavesOthers(w, next, g, i, w.groups[g].size - 1, w.groups[g].size - 1, h);
      }
      SameMembers(w.pools, next.pools, w.groups[g].owned);
      OwnershipKept(w.groups, next.groups, w.owner);
    }
  }

  lemma SameMembers<V>(pools: Pools<V>, next: Pools<V>, owned: seq<nat>)
    requires pools.Keys == next.Keys
    requires forall c, j :: c in pools ==> Lookup(next[c], j) == Lookup(pools[c], j)
    ensures forall j :: Everywhere(next, owned, j) <==> Everywhere(pools, owned, j)
  {
    forall c, j ensures Contains(next, c, j) <==> Contains(pools, c, j) {
      if c in pools { assert Lookup(next[c], j) == Lookup(pools[c], j); }
    }
  }

  lemma OwnershipKept(groups: seq<Group>, next: seq<Group>, owner: map<nat, nat>)
    requires Ownership(groups, owner) && |next| == |groups|
    requires forall g :: 0 <= g < |groups| ==> next[g].owned == groups[g].owned
    ensures Ownership(next, owner)
  {
  }

  /** The lazily created pool of a component. */
  function WithPool<V>(pools: Pools<V>, c: nat): Pools<V> {
    if c in pools then pools else pools[c := Model([], map[])]
  }

  /** Called after a row was added or replaced: enter now, or note it while enters are deferred. */
  function Refresh<V>(w: World<V>, i: nat, c: nat): World<V>
    requires c in w.owner ==> w.owner[c] < |w.groups|
  {
    if c !in w.owner || !Everywhere(w.pools, w.groups[w.owner[c]].owned, i) then w
    else if w.depth != 0 then w.(pending := w.pending + [(w.owner[c], i)])
    else Enter(w, w.owner[c], i)
  }

  function PutRow<V>(w: World<V>, c: nat, e: Entity, v: V): World<V> {
    var pools := WithPool(w.pools, c);
    w.(pools := pools[c := Emplace(pools[c], e, v)])
  }

  function AddRow<V>(w: World<V>, c: nat, e: Entity, v: V): World<V>
    requires c in w.owner ==> w.owner[c] < |w.groups|
  {
    Refresh(PutRow(w, c, e, v), e.index, c)
  }

  function RemoveRow<V>(w: World<V>, c: nat, e: Entity, destroy: bool): World<V>
    requires c in w.owner ==> w.owner[c] < |w.groups|
  {
    if !Contains(w.pools, c, e.index) then w
    else
      var left := if c in w.owner then Leave(w, w.owner[c], e.index) else w;
      left.(pools := left.pools[c := Remove(left.pools[c], e, destroy)])
  }

  lemma RefreshIsSound<V>(w: World<V>, i: nat, c: nat)
    requires Base(w)
    requires forall g, j :: 0 <= g < |w.groups| && Missing(w, g, j) ==> j == i && c in w.groups[g].owned
    ensures Sound(Refresh(w, i, c))
  {
    var next := Refresh(w, i, c);
    if c in w.owner && Everywhere(w.pools, w.groups[w.owner[c]].owned, i) {
      if w.depth == 0 {
        EnterKeepsBase(w, w.owner[c], i);
      } else {
        assert (w.owner[c], i) in next.pending;
        forall g, j | 0 <= g < |w.groups| ensures !Missing(next, g, j) {
          if Missing(w, g, j) { assert w.owner[c] == g; }
        }
      }
    } else {
      assert forall g :: 0 <= g < |w.groups| && c in w.groups[g].owned ==> c in w.owner && w.owner[c] == g;
    }
  }

  /** A change behind the prefixes of all groups keeps Base; only (j == i in pool c) can go missing. */
  lemma TailChangeKeepsBase<V>(w: World<V>, next: World<V>, i: nat, c: nat)
    requires Base(w) && next == w.(pools := next.pools) && AllDistinctRows(next.pools)
    requires forall d :: d in w.pools ==> d in next.pools
    requires forall d :: d in w.pools && d != c ==> next.pools[d] == w.pools[d]
    requires forall g :: 0 <= g < |w.groups| && c in w.groups[g].owned ==>
        SameStart(w.pools[c].rows, next.pools[c].rows, w.groups[g].size)
    requires forall d, j :: j != i || d != c ==> (Contains(next.pools, d, j) <==> Contains(w.pools, d, j))
    ensures Base(next)
    ensures forall g, j :: 0 <= g < |w.groups| && (j != i || c !in w.groups[g].owned) ==>
        (Missing(next, g, j) <==> Missing(w, g, j))
    ensures forall g, j :: 0 <= g < |w.groups| ==>
        (InPrefix(next.pools, w.groups[g], j) <==> InPrefix(w.pools, w.groups[g], j))
  {
    forall g | 0 <= g < |w.groups|
      ensures Aligned(next.pools, w.groups[g])
      ensures forall j :: InPrefix(next.pools, w.groups[g], j) <==> InPrefix(w.pools, w.groups[g], j)
    {
      TailChangeOneGroup(w.pools, next.pools, w.groups[g], c);
    }
    forall g, j | 0 <= g < |w.groups| && (j != i || c !in w.groups[g].owned)
      ensures Missing(next, g, j) <==> Missing(w, g, j)
    {
      assert Everywhere(next.pools, w.groups[g].owned, j) <==> Everywhere(w.pools, w.groups[g].owned, j);
    }
  }

  lemma TailChangeOneGroup<V>(pools: Pools<V>, next: Pools<V>, g: Group, c: nat)
    requires Aligned(pools, g) && AllDistinctRows(pools) && AllDistinctRows(next)
    requires forall d :: d in pools ==> d in next
    requires forall d :: d in pools && d != c ==> next[d] == pools[d]
    requires c in g.owned ==> SameStart(pools[c].rows, next[c].rows, g.size)
    ensures Aligned(next, g)
    ensures forall j :: InPrefix(next, g, j) <==> InPrefix(pools, g, j)
  {
    forall d | d in g.owned ensures d in next && SameStart(pools[d].rows, next[d].rows, g.size) {
      assert SameStart(pools[g.owned[0]].rows, pools[d].rows, g.size);
    }
    TailChange(pools, next, g);
  }

  lemma PutRowMembers<V>(w: World<V>, c: nat, e: Entity, v: V)
    requires AllDistinctRows(w.pools)
    ensures var next := PutRow(w, c, e, v).pools;
            && AllDistinctRows(next)
            && forall d, j :: j != e.index || d != c ==> (Contains(next, d, j) <==> Contains(w.pools, d, j))
  {
    var next := PutRow(w, c, e, v).pools;
    PutRowDistinct(w, c, e, v);
    forall d, j | j != e.index || d != c ensures Contains(next, d, j) <==> Contains(w.pools, d, j) {
      PutRowContains(w, c, e, v, d, j);
    }
  }

  lemma PutRowDistinct<V>(w: World<V>, c: nat, e: Entity, v: V)
    requires AllDistinctRows(w.pools)
    ensures AllDistinctRows(PutRow(w, c, e, v).pools)
  {
    EmplaceLookup(WithPool(w.pools, c)[c], e, v, e.index);
  }

  lemma PutRowContains<V>(w: World<V>, c: nat, e: Entity, v: V, d: nat, j: nat)
    requires AllDistinctRows(w.pools) && (j != e.index || d != c)
    ensures Contains(PutRow(w, c, e, v).pools, d, j) <==> Contains(w.pools, d, j)
  {
    if d == c {
      EmplaceKeepsOthers(WithPool(w.pools, c)[c], e, v, j);
    }
  }

  lemma EmplaceKeepsOthers<V>(pool: Model<V>, e: Entity, v: V, j: nat)
    requires Distinct(pool.rows) && j != e.index
    ensures Has(Emplace(pool, e, v), j) <==> Has(pool, j)
  {
    EmplaceLookup(pool, e, v, j);
  }

  lemma PutRowKeepsBase<V>(w: World<V>, c: nat, e: Entity, v: V)
    requires Sound(w)
    ensures var next := PutRow(w, c, e, v);
            && Base(next)
            && forall g, j :: 0 <= g < |w.groups| && Missing(next, g, j) ==> j == e.index && c in w.groups[g].owned
  {
    var pools, next := WithPool(w.pools, c), PutRow(w, c, e, v);
    PutRowMembers(w, c, e, v);
    forall g | 0 <= g < |w.groups| && c in w.groups[g].owned
      ensures SameStart(w.pools[c].rows, next.pools[c].rows, w.groups[g].size)
    {
      assert SameStart(w.pools[w.groups[g].owned[0]].rows, w.pools[c].rows, w.groups[g].size);
    }
    TailChangeKeepsBase(w, next, e.index, c);
  }

  /** Adding or replacing a component keeps every group index. */
  lemma AddRowIsSound<V>(w: World<V>, c: nat, e: Entity, v: V)
    requires Sound(w)
    ensures Sound(AddRow(w, c, e, v))
  {
    PutRowKeepsBase(w, c, e, v);
    RefreshIsSound(PutRow(w, c, e, v), e.index, c);
  }

  /** After the group was left, the row lies behind the prefix and may be swapped out. */
  lemma RemoveBehindPrefix<V>(w: World<V>, c: nat, e: Entity, destroy: bool)
    requires Base(w) && Contains(w.pools, c, e.index)
    requires forall g, j :: 0 <= g < |w.groups| && Missing(w, g, j) ==> j == e.index && c in w.groups[g].owned
    requires forall g :: 0 <= g < |w.groups| && c in w.groups[g].owned ==> !InPrefix(w.pools, w.groups[g], e.index)
    ensures Sound(w.(pools := w.pools[c := Remove(w.pools[c], e, destroy)]))
  {
    var next := w.(pools := w.pools[c := Remove(w.pools[c], e, destroy)]);
    forall d, j | j != e.index || d != c ensures Contains(next.pools, d, j) <==> Contains(w.pools, d, j) {
      RemoveLookup(w.pools[c], e, destroy, j);
    }
    RemoveLookup(w.pools[c], e, destroy, e.index);
    forall g | 0 <= g < |w.groups| && c in w.groups[g].owned
      ensures SameStart(w.pools[c].rows, next.pools[c].rows, w.groups[g].size)
    {
      PrefixPosition(w.pools, w.groups[g], c, e.index);
      assert SameStart(w.pools[w.groups[g].owned[0]].rows, w.pools[c].rows, w.groups[g].size);
    }
    TailChangeKeepsBase(w, next, e.index, c);
    forall g, j | 0 <= g < |w.groups| ensures !Missing(next, g, j) {
      if j == e.index && c in w.groups[g].owned {
        assert !Contains(next.pools, c, j);
      }
    }
  }

  lemma OwnerOf<V>(w: World<V>, c: nat, h: nat)
    requires Base(w) && h < |w.groups| && c in w.groups[h].owned
    ensures c in w.owner && w.owner[c] == h
  {
  }

  lemma OwnedByOwner<V>(w: World<V>, c: nat)
    requires Base(w) && c in w.owner
    ensures w.owner[c] < |w.groups| && c in w.groups[w.owner[c]].owned
  {
  }

  /** After its group was left, only entity i may be missing, and no prefix holds it. */
  lemma LeftBehind<V>(w: World<V>, c: nat, i: nat)
    requires Sound(w) && c in w.owner && Contains(w.pools, c, i)
    ensures w.owner[c] < |w.groups|
    ensures var left := Leave(w, w.owner[c], i);
            && Base(left) && Contains(left.pools, c, i)
            && (forall g, j :: 0 <= g < |left.groups| && Missing(left, g, j) ==> j == i && c in left.groups[g].owned)
            && (forall g :: 0 <= g < |left.groups| && c in left.groups[g].owned ==>
                !InPrefix(left.pools, left.groups[g], i))
  {
    hide Base, MoveAll, Aligned, InPrefix, Everywhere, AllDistinctRows, Find;
    OwnedByOwner(w, c);
    var g := w.owner[c];
    BaseGroup(w, g);
    LeaveKeepsBase(w, g, i);
    LeaveShrinksPrefix(w, g, i);
    LeaveLookup(w, g, i);
    var left := Leave(w, g, i);
    assert Lookup(left.pools[c], i) == Lookup(w.pools[c], i);
    forall h | 0 <= h < |left.groups| && c in left.groups[h].owned ensures h == g { OwnerOf(left, c, h); }
  }

  /** Removing a component, or destroying its entity, keeps every group index. */
  lemma RemoveRowIsSound<V>(w: World<V>, c: nat, e: Entity, destroy: bool)
    requires Sound(w)
    ensures Sound(RemoveRow(w, c, e, destroy))
  {
    hide Base, Missing, InPrefix, Everywhere, Leave, Find;
    if Contains(w.pools, c, e.index) {
      if c in w.owner {
        LeftBehind(w, c, e.index);
        RemoveBehindPrefix(Leave(w, w.owner[c], e.index), c, e, destroy);
      } else {
        forall g | 0 <= g < |w.groups| ensures c !in w.groups[g].owned {
          if c in w.groups[g].owned { OwnerOf(w, c, g); }
        }
        RemoveBehindPrefix(w, c, e, destroy);
      }
    }
  }

  /** Writes and marks keep the dense order of every pool, hence every group. */
  ghost predicate SameOrder<V>(pools: Pools<V>, next: Pools<V>) {
    && pools.Keys == next.Keys
    && forall c :: c in pools ==>
        |next[c].rows| == |pools[c].rows| && SameStart(pools[c].rows, next[c].rows, |pools[c].rows|)
  }

  lemma SameOrderFinds<V>(a: seq<Row<V>>, b: seq<Row<V>>, i: nat)
    requires |a| == |b| && SameStart(a, b, |a|)
    ensures Find(a, i) == Find(b, i)
    ensures Distinct(a) ==> Distinct(b)
  {
  }

  lemma SameOrderIsSound<V>(w: World<V>, next: World<V>)
    requires Sound(w) && next == w.(pools := next.pools) && SameOrder(w.pools, next.pools)
    ensures Sound(next)
  {
    forall c, i ensures Contains(next.pools, c, i) <==> Contains(w.pools, c, i) {
      if c in w.pools { SameOrderFinds(w.pools[c].rows, next.pools[c].rows, i); }
    }
    forall c | c in next.pools
      ensures Distinct(next.pools[c].rows)
    {
      SameOrderFinds(w.pools[c].rows, next.pools[c].rows, 0);
    }
    forall g | 0 <= g < |w.groups|
      ensures Aligned(next.pools, w.groups[g]) && forall j :: !Missing(next, g, j)
    {
      var group := w.groups[g];
      forall c | c in group.owned ensures SameStart(w.pools[c].rows, next.pools[c].rows, group.size) {
        assert SameStart(w.pools[group.owned[0]].rows, w.pools[c].rows, group.size);
      }
      TailChange(w.pools, next.pools, group);
      forall j ensures !Missing(next, g, j) {
        assert !Missing(w, g, j);
        assert Everywhere(next.pools, group.owned, j) <==> Everywhere(w.pools, group.owned, j);
      }
    }
  }

  function BeginDeferral<V>(w: World<V>): World<V> { w.(depth := w.depth + 1) }

  /** Pending entries are checked again: the entity may have lost a component meanwhile. */
  function Drain<V>(w: World<V>, pending: seq<(nat, nat)>): World<V>
    requires forall k :: 0 <= k < |pending| ==> pending[k].0 < |w.groups|
    decreases |pending|
  {
    if pending == [] then w
    else
      var (g, i) := pending[0];
      Drain(if Everywhere(w.pools, w.groups[g].owned, i) then Enter(w, g, i) else w, pending[1..])
  }

  function EndDeferral<V>(w: World<V>): World<V>
    requires w.depth > 0 && forall k :: 0 <= k < |w.pending| ==> w.pending[k].0 < |w.groups|
  {
    if w.depth > 1 then w.(depth := w.depth - 1) else Drain(w.(depth := 0, pending := []), w.pending)
  }

  lemma BeginIsSound<V>(w: World<V>)
    requires Sound(w)
    ensures Sound(BeginDeferral(w))
  {
    var next := BeginDeferral(w);
    forall g, i | 0 <= g < |w.groups| ensures !Missing(next, g, i) { assert !Missing(w, g, i); }
  }

  lemma {:induction false} DrainIsSound<V>(w: World<V>, pending: seq<(nat, nat)>)
    requires Base(w) && forall k :: 0 <= k < |pending| ==> pending[k].0 < |w.groups|
    requires forall g: nat, i: nat :: g < |w.groups| && Missing(w, g, i) ==> (g, i) in pending
    ensures Sound(Drain(w, pending))
    ensures Drain(w, pending).depth == w.depth && Drain(w, pending).owner == w.owner
    ensures |Drain(w, pending).groups| == |w.groups|
    ensures forall g :: 0 <= g < |w.groups| ==> Drain(w, pending).groups[g].owned == w.groups[g].owned
    decreases |pending|
  {
    if pending != [] {
      var (g, i) := pending[0];
      var next := w;
      if Everywhere(w.pools, w.groups[g].owned, i) {
        EnterKeepsBase(w, g, i);
        next := Enter(w, g, i);
      }
      forall h: nat, j: nat | h < |next.groups| && Missing(next, h, j) ensures (h, j) in pending[1..] {
        assert Missing(w, h, j);
        assert (h, j) in [pending[0]] + pending[1..];
      }
      DrainIsSound(next, pending[1..]);
    }
  }

  /** An existing row is marked dirty, a missing one starts from a zero value; groups are refreshed
      either way. */
  function EnsureRow<V>(w: World<V>, c: nat, e: Entity, zero: V): World<V>
    requires c in w.owner ==> w.owner[c] < |w.groups|
  {
    if Contains(w.pools, c, e.index) then Refresh(MarkedRow(w, c, e.index), e.index, c) else AddRow(w, c, e, zero)
  }

  function MarkedRow<V>(w: World<V>, c: nat, i: nat): World<V>
    requires c in w.pools
  {
    w.(pools := w.pools[c := MarkDirty(w.pools[c], i)])
  }

  lemma MarkedIsSound<V>(w: World<V>, c: nat, i: nat)
    requires Sound(w) && c in w.pools
    ensures Sound(MarkedRow(w, c, i))
  {
    hide Sound;
    SameOrderIsSound(w, MarkedRow(w, c, i));
  }

  lemma EnsureRowIsSound<V>(w: World<V>, c: nat, e: Entity, zero: V)
    requires Sound(w)
    ensures Sound(EnsureRow(w, c, e, zero))
  {
    if Contains(w.pools, c, e.index) {
      MarkedIsSound(w, c, e.index);
      RefreshIsSound(MarkedRow(w, c, e.index), e.index, c);
    } else {
      AddRowIsSound(w, c, e, zero);
    }
  }

  lemma RefreshContent<V>(w: World<V>, i: nat, c: nat)
    requires Base(w)
    ensures SameContent(w.pools, Refresh(w, i, c).pools)
  {
    if c in w.owner { MoveAllLookup(w.pools, w.groups[w.owner[c]].owned, i, w.groups[w.owner[c]].size); }
  }

  /** Ending the outermost scope restores the full index: every prefix is the intersection again. */
  lemma EndIsSound<V>(w: World<V>)
    requires Sound(w) && w.depth > 0
    ensures Sound(EndDeferral(w)) && EndDeferral(w).depth == w.depth - 1
  {
    if w.depth > 1 {
      var next := EndDeferral(w);
      forall g, i | 0 <= g < |w.groups| ensures !Missing(next, g, i) { assert !Missing(w, g, i); }
    } else {
      var start := w.(depth := 0, pending := []);
      forall g: nat, i: nat | g < |start.groups| && Missing(start, g, i) ensures (g, i) in w.pending {
        assert !Missing(w, g, i);
      }
      DrainIsSound(start, w.pending);
    }
  }

  lemma EndDeferralLookup<V>(w: World<V>)
    requires Sound(w) && w.depth > 0
    ensures EndDeferral(w).pools.Keys == w.pools.Keys
    ensures forall c, i :: c in w.pools ==> Lookup(EndDeferral(w).pools[c], i) == Lookup(w.pools[c], i)
    ensures forall c :: c in w.pools ==> EndDeferral(w).pools[c].tombs == w.pools[c].tombs
  {
    if w.depth == 1 { DrainLookup(w.(depth := 0, pending := []), w.pending); }
  }

  lemma {:induction false} DrainLookup<V>(w: World<V>, pending: seq<(nat, nat)>)
    requires AllDistinctRows(w.pools) && forall k :: 0 <= k < |pending| ==> pending[k].0 < |w.groups|
    ensures var next := Drain(w, pending);
            && next.pools.Keys == w.pools.Keys
            && (forall c, i :: c in w.pools ==> Lookup(next.pools[c], i) == Lookup(w.pools[c], i))
            && (forall c :: c in w.pools ==> next.pools[c].tombs == w.pools[c].tombs)
    decreases |pending|
  {
    if pending != [] {
      var (g, i) := pending[0];
      var next := if Everywhere(w.pools, w.groups[g].owned, i) then Enter(w, g, i) else w;
      MoveAllLookup(w.pools, w.groups[g].owned, i, w.groups[g].size);
      DrainLookup(next, pending[1..]);
    }
  }

  /** What the registry's users see of an add: one row, whatever rows were swapped for the groups. */
  lemma AddRowLookup<V>(w: World<V>, c: nat, e: Entity, v: V, d: nat, i: nat)
    requires Sound(w)
    ensures var next := AddRow(w, c, e, v);
            && next.pools.Keys == w.pools.Keys + {c}
            && (d in next.pools ==> Lookup(next.pools[d], i) == Lookup(PutRow(w, c, e, v).pools[d], i))
            && (d in next.pools ==> next.pools[d].tombs == PutRow(w, c, e, v).pools[d].tombs)
  {
    hide Base, Refresh, Sound, Find, Emplace;
    SoundIsBase(w);
    OwnerInRange(w, c);
    PutRowIsBase(w, c, e, v);
    RefreshContent(PutRow(w, c, e, v), e.index, c);
  }

  lemma RemoveRowLookup<V>(w: World<V>, c: nat, e: Entity, destroy: bool, d: nat, i: nat)
    requires Sound(w) && d in w.pools
    ensures var next := RemoveRow(w, c, e, destroy);
            && next.pools.Keys == w.pools.Keys
            && Lookup(next.pools[d], i) == (if d == c && i == e.index then None else Lookup(w.pools[d], i))
            && next.pools[d].tombs ==
                (if d == c && Contains(w.pools, c, e.index) then w.pools[d].tombs[e.index := Tomb(e, true, destroy)]
                else w.pools[d].tombs)
  {
    hide Base, Sound, Find, Leave;
    SoundIsBase(w);
    OwnerInRange(w, c);
    if Contains(w.pools, c, e.index) {
      var left := if c in w.owner then Leave(w, w.owner[c], e.index) else w;
      if c in w.owner { LeaveLookup(w, w.owner[c], e.index); } else { BaseRows(w); }
      assert Lookup(left.pools[c], e.index) == Lookup(w.pools[c], e.index);
      RemoveLookup(left.pools[c], e, destroy, i);
    }
  }

  lemma BaseRows<V>(w: World<V>)
    requires Base(w)
    ensures AllDistinctRows(w.pools)
  {
  }

  lemma LeaveLookup<V>(w: World<V>, g: nat, i: nat)
    requires Base(w) && g < |w.groups|
    ensures var next := Leave(w, g, i).pools;
            && next.Keys == w.pools.Keys && AllDistinctRows(next)
            && (forall c, j :: c in next ==> Lookup(next[c], j) == Lookup(w.pools[c], j))
            && (forall c :: c in next ==> next[c].tombs == w.pools[c].tombs)
  {
    MoveAllLookup(w.pools, w.groups[g].owned, i, if w.groups[g].size > 0 then w.groups[g].size - 1 else 0);
  }

  /** Every pool of the group has room for the swap, so moving never falls out of range. */
  lemma EnterInRange<V>(w: World<V>, g: nat, i: nat)
    requires g < |w.groups| && AllDistinctRows(w.pools) && Aligned(w.pools, w.groups[g])
    requires Everywhere(w.pools, w.groups[g].owned, i) && !InPrefix(w.pools, w.groups[g], i)
    ensures AllDistinct(w.groups[g].owned)
    ensures forall c :: c in w.groups[g].owned ==>
        c in w.pools && Has(w.pools[c], i) && w.groups[g].size < |w.pools[c].rows|
  {
    hide MoveAll;
    forall c | c in w.groups[g].owned ensures Has(w.pools[c], i) && w.groups[g].size < |w.pools[c].rows| {
      EnterOnePool(w.pools, w.groups[g], i, c);
    }
  }

  lemma LeaveInRange<V>(w: World<V>, g: nat, i: nat)
    requires g < |w.groups| && AllDistinctRows(w.pools) && Aligned(w.pools, w.groups[g]) &&
        InPrefix(w.pools, w.groups[g], i)
    ensures AllDistinct(w.groups[g].owned) && w.groups[g].size > 0
    ensures forall c :: c in w.groups[g].owned ==>
        c in w.pools && Has(w.pools[c], i) && w.groups[g].size - 1 < |w.pools[c].rows|
  {
    hide MoveAll;
    forall c | c in w.groups[g].owned ensures Has(w.pools[c], i) && w.groups[g].size - 1 < |w.pools[c].rows| {
      LeaveOnePool(w.pools, w.groups[g], i, c);
    }
  }

  lemma SoundIsBase<V>(w: World<V>)
    requires Sound(w)
    ensures Base(w)
  {
  }

  lemma OwnerInRange<V>(w: World<V>, c: nat)
    requires Base(w)
    ensures c in w.owner ==> w.owner[c] < |w.groups|
  {
  }

  lemma PutRowIsBase<V>(w: World<V>, c: nat, e: Entity, v: V)
    requires Sound(w)
    ensures Base(PutRow(w, c, e, v))
    ensures c in w.owner ==> w.owner[c] < |w.groups|
  {
    PutRowKeepsBase(w, c, e, v);
  }

  lemma ContainsHasPool<V>(pools: Pools<V>, c: nat, i: nat)
    requires Contains(pools, c, i)
    ensures c in pools
  {
  }

  lemma BaseGroup<V>(w: World<V>, g: nat)
    requires Base(w) && g < |w.groups|
    ensures AllDistinctRows(w.pools) && Aligned(w.pools, w.groups[g])
  {
  }

  /** Entity e lost its rows in exactly the pools of `killed`, each leaving a destroy tombstone. */
  ghost predicate RowsKilled<V>(before: Pools<V>, after: Pools<V>, killed: set<nat>, e: Entity) {
    && after.Keys == before.Keys
    && (forall d, i :: d in before ==>
        Lookup(after[d], i) == if d in killed && i == e.index then None else Lookup(before[d], i))
    && (forall d :: d in before ==>
          after[d].tombs == if d in killed then before[d].tombs[e.index := Tomb(e, true, true)] else before[d].tombs)
  }

  lemma KillOneMore<V>(before: Pools<V>, w: World<V>, killed: set<nat>, e: Entity, c: nat)
    requires Sound(w) && RowsKilled(before, w.pools, killed, e) && c !in killed && Contains(before, c, e.index)
    ensures Contains(w.pools, c, e.index)
    ensures RowsKilled(before, RemoveRow(w, c, e, true).pools, killed + {c}, e)
  {
    hide Sound, Base, RemoveRow;
    SoundIsBase(w);
    OwnerInRange(w, c);
    assert Lookup(w.pools[c], e.index) == Lookup(before[c], e.index);
    RemoveRowKeys(w, c, e, true);
    var next := RemoveRow(w, c, e, true).pools;
    forall d, i | d in before
      ensures Lookup(next[d], i) == if d in killed + {c} && i == e.index then None else Lookup(before[d], i)
    {
      RemoveRowLookup(w, c, e, true, d, i);
    }
    forall d | d in before
      ensures next[d].tombs == if d in killed + {c} then before[d].tombs[e.index := Tomb(e, true, true)]
          else before[d].tombs
    {
      RemoveRowLookup(w, c, e, true, d, e.index);
    }
  }

  lemma RemoveRowKeys<V>(w: World<V>, c: nat, e: Entity, destroy: bool)
    requires Sound(w)
    ensures RemoveRow(w, c, e, destroy).pools.Keys == w.pools.Keys
    ensures var next := RemoveRow(w, c, e, destroy);
            next.owner == w.owner && next.depth == w.depth && next.pending == w.pending &&
                SameOwned(w.groups, next.groups)
  {
    hide Base, Find, Aligned, InPrefix, AllDistinctRows;
    SoundIsBase(w);
    OwnerInRange(w, c);
    if Contains(w.pools, c, e.index) && c in w.owner { LeaveLookup(w, w.owner[c], e.index); }
  }

  ghost predicate SameOwned(a: seq<Group>, b: seq<Group>) {
    |a| == |b| && forall g :: 0 <= g < |a| ==> a[g].owned == b[g].owned
  }

  /** Entry k of the list is the smallest pool, and comes before its equals. */
  ghost predicate IsFirstSmallest<V>(pools: Pools<V>, list: seq<nat>, k: nat) {
    && k < |list| && (forall j :: 0 <= j < |list| ==> list[j] in pools)
    && (forall j :: 0 <= j < |list| ==> |pools[list[k]].rows| <= |pools[list[j]].rows|)
    && (forall j :: 0 <= j < k ==> |pools[list[k]].rows| < |pools[list[j]].rows|)
  }

  /** One more entry takes over only if it is strictly smaller. */
  lemma FirstSmallestStep<V>(pools: Pools<V>, list: seq<nat>, k: nat, at: nat)
    requires k < |list| && list[k] in pools
    requires k > 0 ==> IsFirstSmallest(pools, list[..k], at)
    ensures k > 0 ==> at < k && list[at] in pools
    ensures var next := if k == 0 || |pools[list[k]].rows| < |pools[list[at]].rows| then k else at;
            IsFirstSmallest(pools, list[..k + 1], next)
  {
    if k > 0 { assert list[..k][at] == list[at]; }
    forall j | 0 <= j < k ensures list[..k][j] == list[..k + 1][j] == list[j] { }
  }

  lemma FirstSmallestFound<V>(pools: Pools<V>, list: seq<nat>, at: nat)
    requires IsFirstSmallest(pools, list[..|list|], at)
    ensures at < |list| && FirstSmallest(pools, list, list[at]) && forall c :: c in list ==> c in pools
  {
    assert list[..|list|] == list;
    assert IsFirstSmallest(pools, list, at);
  }

  ghost predicate FirstSmallest<V>(pools: Pools<V>, list: seq<nat>, c: nat) {
    exists k: nat :: IsFirstSmallest(pools, list, k) && list[k] == c
  }

  /** The state of a group being built: the driver's rows before d have been looked at, the
      members among them fill the prefix, and the other groups are already complete. */
  ghost predicate Scanned<V>(w: World<V>, g: nat, driver: nat, d: nat) {
    && Base(w) && g < |w.groups| && driver in w.groups[g].owned && driver in w.pools
    && (forall h, j :: 0 <= h < |w.groups| && Missing(w, h, j) ==> h == g)
    && w.groups[g].size <= d <= |w.pools[driver].rows|
    && (forall p :: w.groups[g].size <= p < d ==>
        !Everywhere(w.pools, w.groups[g].owned, w.pools[driver].rows[p].index))
  }

  lemma ScanSkips<V>(w: World<V>, g: nat, driver: nat, d: nat)
    requires Scanned(w, g, driver, d) && d < |w.pools[driver].rows|
    requires !Everywhere(w.pools, w.groups[g].owned, w.pools[driver].rows[d].index)
    ensures Scanned(w, g, driver, d + 1)
  {
  }

  /** A member found at d trades places with the first non-member, which was looked at already. */
  lemma ScanEnters<V>(w: World<V>, g: nat, driver: nat, d: nat)
    requires Scanned(w, g, driver, d) && d < |w.pools[driver].rows|
    requires Everywhere(w.pools, w.groups[g].owned, w.pools[driver].rows[d].index)
    ensures var next := Enter(w, g, w.pools[driver].rows[d].index);
            Scanned(next, g, driver, d + 1) && |next.pools[driver].rows| == |w.pools[driver].rows|
  {
    hide Base, Everywhere, Aligned, MoveAll;
    BaseGroup(w, g);
    var i, group := w.pools[driver].rows[d].index, w.groups[g];
    FindAt(w.pools, driver, d);
    PrefixPosition(w.pools, group, driver, i);
    EnterKeepsBase(w, g, i);
    EnterOnePool(w.pools, group, i, driver);
    MoveAllLookup(w.pools, group.owned, i, group.size);
    MoveAllKeys(w.pools, group.owned, i, group.size);
    var next := Enter(w, g, i);
    SameMembers(w.pools, next.pools, group.owned);
    assert next.pools[driver].rows == Swap(w.pools[driver], d, group.size).rows;
  }

  lemma MoveAllKeys<V>(pools: Pools<V>, owned: seq<nat>, i: nat, target: nat)
    ensures MoveAll(pools, owned, i, target).Keys == pools.Keys
  {
  }

  lemma FindAt<V>(pools: Pools<V>, c: nat, k: nat)
    requires AllDistinctRows(pools) && c in pools && k < |pools[c].rows|
    ensures Find(pools[c].rows, pools[c].rows[k].index) == k
  {
    FindUnique(pools[c].rows, k);
  }

  /** After the whole driver was looked at, the new group is complete too. */
  lemma ScanIsComplete<V>(w: World<V>, g: nat, driver: nat)
    requires driver in w.pools && Scanned(w, g, driver, |w.pools[driver].rows|)
    ensures Sound(w)
  {
    hide Base, Aligned;
    BaseGroup(w, g);
    forall j ensures !Missing(w, g, j) {
      if Everywhere(w.pools, w.groups[g].owned, j) {
        assert Contains(w.pools, driver, j);
        PrefixPosition(w.pools, w.groups[g], driver, j);
      }
    }
  }

  /** A new group starts empty, owning components nobody owned. */
  lemma NewGroupIsOwned(groups: seq<Group>, before: map<nat, nat>, owned: seq<nat>, owner: map<nat, nat>)
    requires Ownership(groups, before) && forall c :: c in owned ==> c !in before
    requires forall c :: c in owner <==> c in owned || c in before
    requires forall c :: c in owner ==> owner[c] == if c in before then before[c] else |groups|
    ensures Ownership(groups + [Group(owned, 0)], owner)
  {
  }

  lemma NewGroupIsScanned<V>(w: World<V>, owned: seq<nat>, owner: map<nat, nat>, driver: nat)
    requires Sound(w) && owned != [] && AllDistinct(owned) && driver in owned
    requires forall c :: c in owned ==> c in w.pools && c !in w.owner
    requires forall c :: c in owner <==> c in owned || c in w.owner
    requires forall c :: c in owner ==> owner[c] == if c in w.owner then w.owner[c] else |w.groups|
    ensures Scanned(w.(groups := w.groups + [Group(owned, 0)], owner := owner), |w.groups|, driver, 0)
  {
    hide AllDistinct, AllDistinctRows, InPrefix, Everywhere, Ownership;
    var next := w.(groups := w.groups + [Group(owned, 0)], owner := owner);
    NewGroupIsOwned(w.groups, w.owner, owned, owner);
    assert Aligned(next.pools, next.groups[|w.groups|]);
    forall h, j | 0 <= h < |next.groups| && h != |w.groups| ensures !Missing(next, h, j) {
      assert !Missing(w, h, j);
    }
  }

  /** The pools hold the same rows and tombstones, in whatever dense order. */
  ghost predicate SameContent<V>(a: Pools<V>, b: Pools<V>) {
    && a.Keys == b.Keys
    && (forall c, i :: c in a ==> Lookup(b[c], i) == Lookup(a[c], i))
    && (forall c :: c in a ==> b[c].tombs == a[c].tombs)
  }

  lemma SameContentReflexive<V>(a: Pools<V>)
    ensures SameContent(a, a)
  {
  }

  lemma SameContentTransitive<V>(a: Pools<V>, b: Pools<V>, c: Pools<V>)
    requires SameContent(a, b) && SameContent(b, c)
    ensures SameContent(a, c)
  {
  }

  lemma EnterContent<V>(w: World<V>, g: nat, i: nat)
    requires AllDistinctRows(w.pools) && g < |w.groups|
    ensures SameContent(w.pools, Enter(w, g, i).pools) && SameOwned(w.groups, Enter(w, g, i).groups)
    ensures Enter(w, g, i).owner == w.owner
  {
    MoveAllLookup(w.pools, w.groups[g].owned, i, w.groups[g].size);
  }

  lemma EnterIgnoresOwner<V>(w: World<V>, owner: map<nat, nat>, g: nat, i: nat)
    requires g < |w.groups|
    ensures Enter(w.(owner := owner), g, i) == Enter(w, g, i).(owner := owner)
  {
  }

  lemma ScannedHasPools<V>(w: World<V>, g: nat)
    requires g < |w.groups| && w.groups[g].owned != []
    requires forall driver :: driver in w.groups[g].owned ==> Scanned(w, g, driver, 0)
    ensures forall driver :: driver in w.groups[g].owned ==> driver in w.pools
  {
  }

  lemma ScannedParts<V>(w: World<V>, g: nat, driver: nat, d: nat)
    requires Scanned(w, g, driver, d)
    ensures g < |w.groups| && AllDistinctRows(w.pools) && Aligned(w.pools, w.groups[g])
  {
    hide Missing, Everywhere;
    BaseGroup(w, g);
  }

  /** Pools may appear, empty; what was there keeps its rows and tombstones. */
  ghost predicate Extends<V>(a: Pools<V>, b: Pools<V>) {
    && a.Keys <= b.Keys
    && (forall c, i :: c in b ==> Lookup(b[c], i) == if c in a then Lookup(a[c], i) else None)
    && (forall c :: c in b ==> b[c].tombs == if c in a then a[c].tombs else map[])
  }

  lemma ExtendsReflexive<V>(a: Pools<V>)
    ensures Extends(a, a)
  {
  }

  lemma WithPoolExtends<V>(start: Pools<V>, a: Pools<V>, c: nat)
    requires Extends(start, a)
    ensures Extends(start, WithPool(a, c)) && c in WithPool(a, c)
    ensures WithPool(a, c).Keys == a.Keys + {c}
  {
  }

  lemma ContentExtends<V>(start: Pools<V>, a: Pools<V>, b: Pools<V>)
    requires Extends(start, a) && SameContent(a, b)
    ensures Extends(start, b)
  {
  }

  lemma WithPoolIsSound<V>(w: World<V>, c: nat)
    requires Sound(w)
    ensures Sound(w.(pools := WithPool(w.pools, c)))
  {
    if c !in w.pools {
      var next := w.(pools := WithPool(w.pools, c));
      forall g | 0 <= g < |w.groups| ensures c !in w.groups[g].owned { assert Aligned(w.pools, w.groups[g]); }
      TailChangeKeepsBase(w, next, 0, c);
    }
  }

  /** With the old groups complete and their owners known, a group of unowned components may start. */
  ghost function GrownOwner(owner: map<nat, nat>, owned: seq<nat>, g: nat): map<nat, nat> {
    owner + map c | c in owned :: g
  }

  lemma GrownOwnerHas(owner: map<nat, nat>, owned: seq<nat>, g: nat)
    ensures forall c :: c in GrownOwner(owner, owned, g) <==> c in owner || c in owned
    ensures forall c :: c in GrownOwner(owner, owned, g) ==>
        GrownOwner(owner, owned, g)[c] == if c in owned then g else owner[c]
  {
  }

  lemma NewGroupCanStart<V>(w: World<V>, owned: seq<nat>)
    requires Sound(w) && owned != [] && AllDistinct(owned)
    requires forall c :: c in owned ==> c in w.pools && c !in w.owner
    ensures forall driver :: driver in owned ==>
                               Scanned(w.(groups := w.groups + [Group(owned, 0)],
                                   owner := GrownOwner(w.owner, owned, |w.groups|)), |w.groups|, driver, 0)
  {
    hide Sound, Scanned;
    forall driver | driver in owned
      ensures Scanned(w.(groups := w.groups + [Group(owned, 0)], owner := GrownOwner(w.owner, owned, |w.groups|)),
          |w.groups|, driver, 0)
    {
      NewGroupIsScanned(w, owned, GrownOwner(w.owner, owned, |w.groups|), driver);
    }
  }
}
