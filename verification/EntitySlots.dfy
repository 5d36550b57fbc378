/** Entity handles: generational slots with an implicit free list threaded through dead slots. */
module EntitySlots {
  import opened PoolModel
  import opened Counting

  const INVALID_INDEX: nat := 0xFFFF_FFFF
  const HALF: nat := 0x1_0000_0000

  /** A slot holds (own index, version) when alive and (next free index, next version) when dead. */
  datatype Slots = Slots(slots: seq<Entity>, freeHead: nat)

  function Pack(e: Entity): nat { e.version * HALF + e.index }

  function Unpack(value: nat): Entity { Entity(value % HALF, value / HALF) }

  /** The 64-bit encoding of a handle loses nothing, in either direction. The index is its low half. */
  lemma PackRoundTrip(e: Entity, value: nat)
    requires e.index < 0x1_0000_0000 && e.version < 0x1_0000_0000 && value < 0x1_0000_0000_0000_0000
    ensures Pack(e) < 0x1_0000_0000_0000_0000 && Unpack(Pack(e)) == e && Pack(Unpack(value)) == value
    ensures Pack(e) % 0x1_0000_0000 == e.index && Pack(e) / 0x1_0000_0000 == e.version
  {
  }

  predicate AliveAt(slots: seq<Entity>, i: nat)
    requires i < |slots|
  {
    slots[i].index == i && slots[i].version != 0
  }

  predicate Alive(slots: seq<Entity>, e: Entity) {
    e.version != 0 && e.index < |slots| && slots[e.index] == e
  }

  function After(free: seq<nat>, k: nat): nat {
    if k + 1 < |free| then free[k + 1] else INVALID_INDEX
  }

  /** The slots listed in `free` form one acyclic chain from the head to the end marker. */
  ghost predicate Links(slots: seq<Entity>, head: nat, free: seq<nat>) {
    && |slots| <= INVALID_INDEX && AllDistinct(free)
    && (forall k :: 0 <= k < |free| ==> free[k] < |slots|)
    && head == (if free == [] then INVALID_INDEX else free[0])
    && (forall k :: 0 <= k < |free| ==> slots[free[k]].index == After(free, k))
  }

  lemma PushLink(slots: seq<Entity>, head: nat, free: seq<nat>, i: nat, version: nat)
    requires Links(slots, head, free) && i < |slots| && i !in free
    ensures Links(slots[i := Entity(head, version)], i, [i] + free)
    ensures forall j :: j in [i] + free <==> j == i || j in free
  {
    var next, longer := slots[i := Entity(head, version)], [i] + free;
    forall k | 0 <= k < |longer| ensures longer[k] < |next| && next[longer[k]].index == After(longer, k) {
      if k > 0 {
        assert longer[k] == free[k - 1] && free[k - 1] in free;
        assert slots[free[k - 1]].index == After(free, k - 1);
      }
    }
  }

  /** `free` is the free list: acyclic, and exactly the dead slots. */
  ghost predicate FreeList(s: Slots, free: seq<nat>) {
    && Links(s.slots, s.freeHead, free)
    && (forall i :: 0 <= i < |s.slots| ==> 0 < s.slots[i].version < HALF)
    && (forall i :: 0 <= i < |s.slots| ==> i in free || s.slots[i].index == i)
  }

  lemma FreeListIsTheDead(s: Slots, free: seq<nat>, i: nat)
    requires FreeList(s, free) && i < |s.slots|
    ensures i in free <==> !AliveAt(s.slots, i)
  {
    if i in free {
      var k :| 0 <= k < |free| && free[k] == i;
      if k + 1 < |free| { assert free[k] != free[k + 1]; }
    }
  }

  ghost predicate WellLinked(s: Slots) { exists free :: FreeList(s, free) }

  ghost predicate Ascending(free: seq<nat>) { forall j, k :: 0 <= j < k < |free| ==> free[j] < free[k] }

  /** Well linked, with the lowest dead slot at the head and the others behind it in order. */
  ghost predicate LinkedInOrder(s: Slots) { exists free :: FreeList(s, free) && Ascending(free) }

  predicate CanCreate(s: Slots) { s.freeHead != INVALID_INDEX || |s.slots| < INVALID_INDEX }

  function NextHandle(s: Slots): Entity
    requires s.freeHead != INVALID_INDEX ==> s.freeHead < |s.slots|
  {
    if s.freeHead != INVALID_INDEX then Entity(s.freeHead, s.slots[s.freeHead].version) else Entity(|s.slots|, 1)
  }

  function Created(s: Slots): Slots
    requires s.freeHead != INVALID_INDEX ==> s.freeHead < |s.slots|
  {
    if s.freeHead != INVALID_INDEX then
      Slots(s.slots[s.freeHead := NextHandle(s)], s.slots[s.freeHead].index)
    else
      s.(slots := s.slots + [NextHandle(s)])
  }

  /** Versions wrap past zero. */
  function NextVersion(version: nat): nat {
    var next := (version + 1) % HALF;
    if next == 0 then 1 else next
  }

  function Destroyed(s: Slots, e: Entity): Slots
    requires Alive(s.slots, e)
  {
    Slots(s.slots[e.index := Entity(s.freeHead, NextVersion(e.version))], e.index)
  }

  lemma CreatedIsWellLinked(s: Slots, free: seq<nat>)
    requires FreeList(s, free) && CanCreate(s)
    ensures FreeList(Created(s), if free == [] then [] else free[1..])
    ensures Alive(Created(s).slots, NextHandle(s)) && !Alive(s.slots, NextHandle(s))
    ensures forall e :: e != NextHandle(s) ==> (Alive(Created(s).slots, e) <==> Alive(s.slots, e))
  {
    if free != [] {
      assert free[0] in free;
      FreeListIsTheDead(s, free, free[0]);
      var rest, next := free[1..], Created(s);
      forall k | 0 <= k < |rest| ensures rest[k] != free[0] && next.slots[rest[k]].index == After(rest, k) {
        assert rest[k] == free[k + 1];
        assert s.slots[free[k + 1]].index == After(free, k + 1);
      }
      forall i | 0 <= i < |next.slots| ensures i in rest || next.slots[i].index == i {
        if i in free && i != free[0] {
          var k :| 0 <= k < |free| && free[k] == i;
          assert rest[k - 1] == i;
        }
      }
      assert FreeList(next, rest);
    } else {
      assert FreeList(Created(s), []);
    }
  }

  lemma DestroyedIsWellLinked(s: Slots, free: seq<nat>, e: Entity)
    requires FreeList(s, free) && Alive(s.slots, e)
    ensures FreeList(Destroyed(s, e), [e.index] + free)
    ensures forall f :: Alive(Destroyed(s, e).slots, f) <==> Alive(s.slots, f) && f != e
  {
    FreeListIsTheDead(s, free, e.index);
    PushLink(s.slots, s.freeHead, free, e.index, NextVersion(e.version));
    assert FreeList(Destroyed(s, e), [e.index] + free);
    FreeListIsTheDead(Destroyed(s, e), [e.index] + free, e.index);
  }

  /** Thread the free list anew through all dead slots below n, highest first. */
  function Rebuilt(slots: seq<Entity>, head: nat, n: nat): Slots
    requires n <= |slots|
    decreases n
  {
    if n == 0 then Slots(slots, head)
    else if AliveAt(slots, n - 1) then Rebuilt(slots, head, n - 1)
    else
      Rebuilt(slots[n - 1 := Entity(head, FreedVersion(slots[n - 1]))], n - 1, n - 1)
  }

  function FreedVersion(slot: Entity): nat { if slot.version == 0 then 1 else slot.version }

  /** Raw slots as snapshots store them: any dead slots, live ones in range. */
  ghost predicate RawSlots(slots: seq<Entity>) {
    |slots| <= INVALID_INDEX && forall i :: 0 <= i < |slots| ==> slots[i].version < HALF
  }

  ghost predicate PartlyLinked(slots: seq<Entity>, head: nat, n: nat, free: seq<nat>) {
    && Links(slots, head, free) && n <= |slots| && (forall k :: 0 <= k < |free| ==> n <= free[k])
    && Ascending(free)
    && (forall i :: 0 <= i < |slots| ==> slots[i].version < HALF && (n <= i ==> slots[i].version != 0))
    && (forall i :: n <= i < |slots| ==> i in free || slots[i].index == i)
  }

  lemma {:induction false} LinkDeadSlot(slots: seq<Entity>, head: nat, n: nat, free: seq<nat>)
    requires n > 0 && PartlyLinked(slots, head, n, free) && !AliveAt(slots, n - 1)
    ensures PartlyLinked(slots[n - 1 := Entity(head, FreedVersion(slots[n - 1]))], n - 1, n - 1, [n - 1] + free)
  {
    hide Links;
    var next, longer := slots[n - 1 := Entity(head, FreedVersion(slots[n - 1]))], [n - 1] + free;
    NotYetFree(n, free);
    PushLink(slots, head, free, n - 1, FreedVersion(slots[n - 1]));
    UnlinkedAreAlive(slots, n, free, next, longer);
  }

  lemma NotYetFree(n: nat, free: seq<nat>)
    requires n > 0 && forall k :: 0 <= k < |free| ==> n <= free[k]
    ensures n - 1 !in free
  {
  }

  lemma UnlinkedAreAlive(slots: seq<Entity>, n: nat, free: seq<nat>, next: seq<Entity>, longer: seq<nat>)
    requires 0 < n <= |slots| == |next|
    requires forall i :: n <= i < |slots| ==> i in free || slots[i].index == i
    requires forall i :: 0 <= i < |slots| && i != n - 1 ==> next[i] == slots[i]
    requires forall j :: j in longer <==> j == n - 1 || j in free
    ensures forall i :: n - 1 <= i < |next| ==> i in longer || next[i].index == i
  {
  }

  lemma PartIsInside(slots: seq<Entity>, head: nat, n: nat, free: seq<nat>)
    requires PartlyLinked(slots, head, n, free)
    ensures n <= |slots|
  {
  }

  lemma SkipLiveSlot(slots: seq<Entity>, head: nat, n: nat, free: seq<nat>)
    requires PartlyLinked(slots, head, n, free) && 0 < n <= |slots| && AliveAt(slots, n - 1)
    ensures PartlyLinked(slots, head, n - 1, free)
  {
    hide Links;
  }

  lemma FullyLinked(slots: seq<Entity>, head: nat, free: seq<nat>)
    requires PartlyLinked(slots, head, 0, free)
    ensures LinkedInOrder(Slots(slots, head))
  {
    hide Links;
    assert FreeList(Slots(slots, head), free);
  }

  lemma {:induction false} RebuiltIsWellLinked(slots: seq<Entity>, head: nat, n: nat, free: seq<nat>)
    requires PartlyLinked(slots, head, n, free)
    ensures LinkedInOrder(Rebuilt(slots, head, n))
    decreases n
  {
    hide Links, PartlyLinked, LinkedInOrder, FreeList;
    PartIsInside(slots, head, n, free);
    if n == 0 {
      FullyLinked(slots, head, free);
    } else if AliveAt(slots, n - 1) {
      SkipLiveSlot(slots, head, n, free);
      RebuiltIsWellLinked(slots, head, n - 1, free);
    } else {
      LinkDeadSlot(slots, head, n, free);
      RebuiltIsWellLinked(slots[n - 1 := Entity(head, FreedVersion(slots[n - 1]))], n - 1, n - 1, [n - 1] + free);
    }
  }

  lemma LinkedInOrderIsLinked(s: Slots)
    requires LinkedInOrder(s)
    ensures WellLinked(s)
  {
    hide FreeList;
    var free :| FreeList(s, free) && Ascending(free);
  }

  /** Relinking changes only dead slots, keeps them dead, and keeps every version but zero. */
  lemma {:induction false} RebuiltKeepsSlots(slots: seq<Entity>, head: nat, n: nat)
    requires n <= |slots| && (n <= head <= INVALID_INDEX) && |slots| <= INVALID_INDEX
    ensures var r := Rebuilt(slots, head, n).slots;
            && |r| == |slots|
            && (forall i :: 0 <= i < |slots| && (n <= i || AliveAt(slots, i)) ==> r[i] == slots[i])
            && (forall i :: 0 <= i < n && !AliveAt(slots, i) ==>
                !AliveAt(r, i) && r[i].version == FreedVersion(slots[i]))
    decreases n
  {
    if n > 0 {
      if AliveAt(slots, n - 1) {
        RebuiltKeepsSlots(slots, head, n - 1);
      } else {
        RebuiltKeepsSlots(slots[n - 1 := Entity(head, FreedVersion(slots[n - 1]))], n - 1, n - 1);
      }
    }
  }

  /** Rebuilding links exactly the dead slots, lowest first, and keeps every live handle and every
      version; a slot that never had one starts at version one. */
  lemma RebuildKeepsHandles(slots: seq<Entity>)
    requires RawSlots(slots)
    ensures var r := Rebuilt(slots, INVALID_INDEX, |slots|);
            && WellLinked(r) && LinkedInOrder(r) && |r.slots| == |slots|
            && (forall e :: Alive(r.slots, e) <==> Alive(slots, e))
            && (forall i :: 0 <= i < |slots| ==>
                  r.slots[i].version == if slots[i].version != 0 then slots[i].version else 1)
  {
    RebuiltIsWellLinked(slots, INVALID_INDEX, |slots|, []);
    RebuiltKeepsSlots(slots, INVALID_INDEX, |slots|);
    var r := Rebuilt(slots, INVALID_INDEX, |slots|);
    LinkedInOrderIsLinked(r);
    forall e ensures Alive(r.slots, e) <==> Alive(slots, e) {
      if e.index < |slots| && e.version != 0 {
        if AliveAt(slots, e.index) { assert r.slots[e.index] == slots[e.index]; }
            else { assert !AliveAt(r.slots, e.index); }
      }
    }
  }

  class EntityStore {
    var slots: seq<Entity>
    var freeHead: nat

    ghost function S(): Slots
      reads this
    {
      Slots(slots, freeHead)
    }

    ghost predicate Valid()
      reads this
    {
      WellLinked(S())
    }

    constructor ()
      ensures Valid() && S() == Slots([], INVALID_INDEX)
    {
      slots, freeHead := [], INVALID_INDEX;
      new;
      assert FreeList(S(), []);
    }

    predicate IsAlive(e: Entity)
      reads this
      ensures IsAlive(e) == Alive(slots, e)
    {
      if e.version == 0 || e.index >= |slots| then false
      else slots[e.index].index == e.index && slots[e.index].version == e.version
    }

    /** No result exactly when all of the 2^32 - 1 slots there may be are alive. */
    method Create() returns (r: Option<Entity>)
      requires Valid()
      modifies this
      ensures Valid() && r.Some? == old(CanCreate(S()))
      ensures r.None? <==> old(|slots| == 0xFFFF_FFFF && forall i :: 0 <= i < |slots| ==> AliveAt(slots, i))
      ensures r.None? ==> S() == old(S())
      ensures r.Some? ==> S() == old(Created(S())) && r.value == old(NextHandle(S()))
    {
      ghost var free :| FreeList(S(), free);
      forall i | 0 <= i < |slots| ensures i in free <==> !AliveAt(slots, i) { FreeListIsTheDead(S(), free, i); }
      if freeHead != INVALID_INDEX {
        assert free[0] in free;
        CreatedIsWellLinked(S(), free);
        var index := freeHead;
        var slot := slots[index];
        freeHead := slot.index;
        slots := slots[index := Entity(index, slot.version)];
        return Some(slots[index]);
      }
      if |slots| >= INVALID_INDEX {
        return None;
      }
      CreatedIsWellLinked(S(), free);
      slots := slots + [Entity(|slots|, 1)];
      return Some(slots[|slots| - 1]);
    }

    /** The slot half of destroy: bump the version and push the slot on the free list. */
    method Release(e: Entity)
      requires Valid() && Alive(slots, e)
      modifies this
      ensures Valid() && S() == old(Destroyed(S(), e))
    {
      ghost var free :| FreeList(S(), free);
      DestroyedIsWellLinked(S(), free, e);
      slots := slots[e.index := Entity(freeHead, NextVersion(e.version))];
      freeHead := e.index;
    }
  }

  method RebuildFreeList(entities: seq<Entity>) returns (r: seq<Entity>, freeHead: nat)
    requires RawSlots(entities)
    ensures Slots(r, freeHead) == Rebuilt(entities, INVALID_INDEX, |entities|)
  {
    r, freeHead := entities, INVALID_INDEX;
    assert Rebuilt(r, freeHead, |r|) == Rebuilt(entities, INVALID_INDEX, |entities|);
    var offset := |r|;
    while offset > 0
      invariant 0 <= offset <= |r| == |entities| && 0 <= freeHead
      invariant Rebuilt(r, freeHead, offset) == Rebuilt(entities, INVALID_INDEX, |entities|)
    {
      var index := offset - 1;
      if !AliveAt(r, index) {
        var version := r[index].version;
        if version == 0 {
          version := 1;
        }
        r := r[index := Entity(freeHead, version)];
        freeHead := index;
      }
      offset := offset - 1;
    }
  }

  datatype SlotOp = MakeOne | Drop(e: Entity)

  /** A store together with every handle it ever issued and every handle it destroyed. */
  datatype Ledger = Ledger(s: Slots, issued: seq<Entity>, gone: set<Entity>)

  const EMPTY_LEDGER := Ledger(Slots([], INVALID_INDEX), [], {})

  /** The head of the free list is a slot. */
  lemma HeadIsASlot(s: Slots)
    requires WellLinked(s)
    ensures s.freeHead != INVALID_INDEX ==> s.freeHead < |s.slots|
  {
    var free :| FreeList(s, free);
  }

  function Apply(l: Ledger, op: SlotOp): Ledger
    requires WellLinked(l.s)
  {
    HeadIsASlot(l.s);
    match op
    case MakeOne => if CanCreate(l.s) then Ledger(Created(l.s), l.issued + [NextHandle(l.s)], l.gone) else l
    case Drop(e) => if Alive(l.s.slots, e) then Ledger(Destroyed(l.s, e), l.issued, l.gone + {e}) else l
  }

  /** Destroying a live entity at the last version wraps its counter. */
  predicate Wraps(l: Ledger, op: SlotOp) { op.Drop? && Alive(l.s.slots, op.e) && op.e.version == HALF - 1 }

  /** Any operation, wrap or not, keeps the free list. */
  lemma ApplyKeepsLinks(l: Ledger, op: SlotOp)
    requires WellLinked(l.s)
    ensures WellLinked(Apply(l, op).s)
  {
    match op
    case MakeOne => if CanCreate(l.s) { CreatedSlot(l.s); }
    case Drop(e) => if Alive(l.s.slots, e) { DestroyedSlot(l.s, e); }
  }

  /** Any run of creates and destroys. */
  function RunOps(l: Ledger, ops: seq<SlotOp>): (r: Ledger)
    requires WellLinked(l.s)
    ensures WellLinked(r.s)
    decreases |ops|
  {
    if ops == [] then l
    else
      ApplyKeepsLinks(l, ops[0]);
      RunOps(Apply(l, ops[0]), ops[1..])
  }

  /** No destroy in the run wraps a counter. */
  ghost predicate Unwrapped(l: Ledger, ops: seq<SlotOp>)
    requires WellLinked(l.s)
    decreases |ops|
  {
    ops == [] ||
    (ApplyKeepsLinks(l, ops[0]);
     !Wraps(l, ops[0]) && Unwrapped(Apply(l, ops[0]), ops[1..]))
  }

  /** Slot versions never fall behind what was issued and are past what was destroyed, and every
      version a slot has left behind was issued. */
  ghost predicate Ahead(l: Ledger) {
    && WellLinked(l.s)
    && (forall k :: 0 <= k < |l.issued| ==> Covered(l.s.slots, l.issued[k]))
    && Fresh(l.issued)
    && (forall e :: e in l.gone ==> e.index < |l.s.slots| && e.version < l.s.slots[e.index].version)
    && Recorded(l)
  }

  ghost predicate Fresh(issued: seq<Entity>) { forall j, k :: 0 <= j < k < |issued| ==> issued[j] != issued[k] }

  predicate Covered(slots: seq<Entity>, e: Entity) {
    && e.index < |slots| && e.version <= slots[e.index].version
    && (!AliveAt(slots, e.index) ==> e.version < slots[e.index].version)
  }

  ghost predicate Recorded(l: Ledger) {
    && (forall i: nat, v: nat :: i < |l.s.slots| && 0 < v < l.s.slots[i].version ==> Entity(i, v) in l.issued)
    && (forall i: nat :: i < |l.s.slots| && AliveAt(l.s.slots, i) ==> l.s.slots[i] in l.issued)
  }

  /** Creating revives a dead slot at its own version, or appends a slot. */
  lemma CreatedSlot(s: Slots)
    requires WellLinked(s) && CanCreate(s)
    ensures s.freeHead != INVALID_INDEX ==> s.freeHead < |s.slots|
    ensures WellLinked(Created(s)) && Alive(Created(s).slots, NextHandle(s))
    ensures var i := NextHandle(s).index;
            if i < |s.slots| then
              Created(s).slots == s.slots[i := NextHandle(s)] && !AliveAt(s.slots, i) &&
                  NextHandle(s).version == s.slots[i].version
            else Created(s).slots == s.slots + [NextHandle(s)] && NextHandle(s) == Entity(|s.slots|, 1)
  {
    var free :| FreeList(s, free);
    CreatedIsWellLinked(s, free);
    if free != [] { FreeListIsTheDead(s, free, free[0]); }
  }

  lemma DestroyedSlot(s: Slots, e: Entity)
    requires WellLinked(s) && Alive(s.slots, e)
    ensures WellLinked(Destroyed(s, e)) && !AliveAt(Destroyed(s, e).slots, e.index)
    ensures NextHandle(Destroyed(s, e)) == Entity(e.index, NextVersion(e.version)) && 0 < e.version < HALF
  {
    var free :| FreeList(s, free);
    DestroyedIsWellLinked(s, free, e);
    FreeListIsTheDead(Destroyed(s, e), [e.index] + free, e.index);
  }

  lemma MakeKeepsAhead(l: Ledger)
    requires Ahead(l) && CanCreate(l.s)
    ensures Ahead(Apply(l, MakeOne))
  {
    hide WellLinked, Recorded, NextHandle, Created;
    HeadIsASlot(l.s);
    CreatedSlot(l.s);
    forall k | 0 <= k < |l.issued|
      ensures l.issued[k] != NextHandle(l.s) && Covered(Created(l.s).slots, l.issued[k])
    {
      assert Covered(l.s.slots, l.issued[k]);
    }
    assert Covered(Created(l.s).slots, NextHandle(l.s));
    MakeKeepsRecord(l);
  }

  lemma MakeKeepsRecord(l: Ledger)
    requires WellLinked(l.s) && Recorded(l) && CanCreate(l.s)
    ensures Recorded(Apply(l, MakeOne))
  {
    hide WellLinked, NextHandle, Created;
    HeadIsASlot(l.s);
    CreatedSlot(l.s);
  }

  lemma DropKeepsAhead(l: Ledger, e: Entity)
    requires Ahead(l) && Alive(l.s.slots, e) && e.version != HALF - 1
    ensures Ahead(Apply(l, Drop(e)))
  {
    hide WellLinked, Recorded;
    DestroyedSlot(l.s, e);
    VersionsGrow(l.s, e);
    forall k | 0 <= k < |l.issued| ensures Covered(Destroyed(l.s, e).slots, l.issued[k]) {
      assert Covered(l.s.slots, l.issued[k]);
    }
    DropKeepsRecord(l, e);
  }

  lemma DropKeepsRecord(l: Ledger, e: Entity)
    requires WellLinked(l.s) && Recorded(l) && Alive(l.s.slots, e) && e.version != HALF - 1
    ensures Recorded(Apply(l, Drop(e)))
  {
    hide WellLinked;
    DestroyedSlot(l.s, e);
    VersionsGrow(l.s, e);
    assert e in l.issued;
  }

  lemma {:induction false} VersionsGrow(s: Slots, e: Entity)
    requires WellLinked(s) && Alive(s.slots, e) && e.version != HALF - 1
    ensures var next := Destroyed(s, e).slots;
            |next| == |s.slots| && next[e.index].version == e.version + 1
            && forall i :: 0 <= i < |next| && i != e.index ==> next[i] == s.slots[i]
  {
    hide Links;
    var free :| FreeList(s, free);
    assert 0 < s.slots[e.index].version < HALF;
  }

  lemma ApplyKeepsAhead(l: Ledger, op: SlotOp)
    requires Ahead(l) && !Wraps(l, op)
    ensures Ahead(Apply(l, op))
  {
    match op
    case MakeOne => if CanCreate(l.s) { MakeKeepsAhead(l); }
    case Drop(e) => if Alive(l.s.slots, e) { DropKeepsAhead(l, e); }
  }

  lemma {:induction false} RunKeepsAhead(l: Ledger, ops: seq<SlotOp>)
    requires Ahead(l) && Unwrapped(l, ops)
    ensures Ahead(RunOps(l, ops))
    decreases |ops|
  {
    if ops != [] {
      ApplyKeepsAhead(l, ops[0]);
      RunKeepsAhead(Apply(l, ops[0]), ops[1..]);
    }
  }

  lemma EmptyIsAhead()
    ensures Ahead(EMPTY_LEDGER)
  {
    assert FreeList(Slots([], INVALID_INDEX), []);
  }

  /** A run from the empty store. */
  function Played(ops: seq<SlotOp>): (l: Ledger)
    ensures WellLinked(l.s)
  {
    EmptyIsAhead();
    RunOps(EMPTY_LEDGER, ops)
  }

  ghost predicate NoWrap(ops: seq<SlotOp>) {
    EmptyIsAhead();
    Unwrapped(EMPTY_LEDGER, ops)
  }

  /** Destroying a live entity makes its slot the next one to be used, with the next version, or with
      version one after the last. After any run without a wrap, the handle it will then get was issued
      before exactly when this destroy wraps the version. */
  lemma RepeatsExactlyAfterAWrap(ops: seq<SlotOp>, e: Entity)
    requires NoWrap(ops) && Alive(Played(ops).s.slots, e)
    ensures var l := Played(ops);
            && e in l.issued
            && NextHandle(Destroyed(l.s, e)) == Entity(e.index, if e.version == 0xFFFF_FFFF then 1 else e.version + 1)
            && (NextHandle(Destroyed(l.s, e)) in l.issued <==> Wraps(l, Drop(e)))
  {
    hide RunOps, Unwrapped, WellLinked;
    EmptyIsAhead();
    RunKeepsAhead(EMPTY_LEDGER, ops);
    RepeatAt(Played(ops), e);
  }

  lemma RepeatAt(l: Ledger, e: Entity)
    requires Ahead(l) && Alive(l.s.slots, e)
    ensures e in l.issued
    ensures NextHandle(Destroyed(l.s, e)) == Entity(e.index, if e.version == HALF - 1 then 1 else e.version + 1)
    ensures NextHandle(Destroyed(l.s, e)) in l.issued <==> Wraps(l, Drop(e))
  {
    hide WellLinked, NextHandle, Destroyed;
    DestroyedSlot(l.s, e);
    RepeatOf(l, e);
  }

  lemma RepeatOf(l: Ledger, e: Entity)
    requires Ahead(l) && Alive(l.s.slots, e) && 0 < e.version < HALF
    ensures e in l.issued
    ensures Entity(e.index, NextVersion(e.version)) in l.issued <==> e.version == HALF - 1
  {
    hide WellLinked, Fresh;
    var next := Entity(e.index, NextVersion(e.version));
    if next in l.issued {
      var k :| 0 <= k < |l.issued| && l.issued[k] == next;
      assert Covered(l.s.slots, l.issued[k]);
    }
    if e.version == HALF - 1 { assert Entity(e.index, 1) in l.issued; }
  }

  ghost predicate NeverRepeats(l: Ledger) {
    Fresh(l.issued) && forall e :: e in l.gone ==> !Alive(l.s.slots, e)
  }

  /** The promise over whole runs, and exactly how long it holds: a run wraps no counter if and only
      if, had one more entity been created at any point of it, no handle would have been issued twice
      and no destroyed handle would have been alive again. */
  lemma HandlesNeverRepeat(ops: seq<SlotOp>)
    ensures NoWrap(ops) <==> forall k :: 0 <= k <= |ops| ==> NeverRepeats(Played(ops[..k] + [MakeOne]))
    ensures NoWrap(ops) ==> NeverRepeats(Played(ops))
  {
    hide RunOps, Unwrapped;
    EmptyIsAhead();
    ExactlyUnwrapped(EMPTY_LEDGER, ops);
    if NoWrap(ops) {
      RunKeepsAhead(EMPTY_LEDGER, ops);
      AheadNeverRepeats(Played(ops));
    }
  }

  lemma AheadNeverRepeats(l: Ledger)
    requires Ahead(l)
    ensures NeverRepeats(l)
  {
  }

  lemma {:induction false} ExactlyUnwrapped(l: Ledger, ops: seq<SlotOp>)
    requires Ahead(l)
    ensures Unwrapped(l, ops) <==> forall k :: 0 <= k <= |ops| ==> NeverRepeats(RunOps(l, ops[..k] + [MakeOne]))
    decreases |ops|
  {
    hide Ahead, NeverRepeats, WellLinked;
    MakeNext(l);
    assert ops[..0] + [MakeOne] == [MakeOne];
    if ops != [] {
      ApplyLinked(l, ops[0]);
      var next, rest := Apply(l, ops[0]), ops[1..];
      forall k | 0 < k <= |ops| ensures RunOps(l, ops[..k] + [MakeOne]) == RunOps(next, rest[..k - 1] + [MakeOne]) {
        assert (ops[..k] + [MakeOne])[1..] == rest[..k - 1] + [MakeOne];
      }
      if Wraps(l, ops[0]) {
        WrapThenMake(l, ops[0].e);
        assert rest[..0] + [MakeOne] == [MakeOne];
        assert RunOps(l, ops[..1] + [MakeOne]) == RunOps(next, [MakeOne]);
      } else {
        ApplyKeepsAhead(l, ops[0]);
        ExactlyUnwrapped(next, rest);
        if forall k :: 0 <= k <= |ops| ==> NeverRepeats(RunOps(l, ops[..k] + [MakeOne])) {
          forall k | 0 <= k <= |rest| ensures NeverRepeats(RunOps(next, rest[..k] + [MakeOne])) {
            assert NeverRepeats(RunOps(l, ops[..k + 1] + [MakeOne]));
          }
        }
      }
    }
  }

  lemma ApplyLinked(l: Ledger, op: SlotOp)
    requires Ahead(l)
    ensures WellLinked(l.s) && WellLinked(Apply(l, op).s)
  {
    ApplyKeepsLinks(l, op);
  }

  lemma MakeNext(l: Ledger)
    requires Ahead(l)
    ensures WellLinked(l.s) && NeverRepeats(RunOps(l, [MakeOne]))
  {
    ApplyKeepsAhead(l, MakeOne);
    assert [MakeOne][1..] == [];
  }

  /** Creating right after a wrap issues a handle for the second time. */
  lemma WrapThenMake(l: Ledger, e: Entity)
    requires Ahead(l) && Wraps(l, Drop(e))
    ensures WellLinked(l.s) && WellLinked(Apply(l, Drop(e)).s)
    ensures !NeverRepeats(RunOps(Apply(l, Drop(e)), [MakeOne]))
  {
    hide WellLinked, Ahead;
    RepeatAt(l, e);
    ApplyLinked(l, Drop(e));
    var next, x := Apply(l, Drop(e)), NextHandle(Destroyed(l.s, e));
    HeadIsASlot(next.s);
    assert [MakeOne][1..] == [];
    var k :| 0 <= k < |l.issued| && l.issued[k] == x;
    var issued := Apply(next, MakeOne).issued;
    assert issued[k] == x && issued[|l.issued|] == x;
  }

  /** One more operation at the end of a run. */
  lemma {:induction false} RunSnoc(l: Ledger, ops: seq<SlotOp>, op: SlotOp)
    requires WellLinked(l.s)
    ensures RunOps(l, ops + [op]) == Apply(RunOps(l, ops), op)
    ensures Unwrapped(l, ops + [op]) <==> Unwrapped(l, ops) && !Wraps(RunOps(l, ops), op)
    decreases |ops|
  {
    hide WellLinked, Apply, Wraps;
    ApplyKeepsLinks(l, (ops + [op])[0]);
    if ops == [] {
      assert [op][1..] == [];
    } else {
      assert (ops + [op])[1..] == ops[1..] + [op];
      RunSnoc(Apply(l, ops[0]), ops[1..], op);
    }
  }

  lemma PlayedSnoc(ops: seq<SlotOp>, op: SlotOp)
    ensures Played(ops + [op]) == Apply(Played(ops), op)
    ensures NoWrap(ops + [op]) <==> NoWrap(ops) && !Wraps(Played(ops), op)
  {
    hide RunOps, Unwrapped, WellLinked, Apply, Wraps;
    EmptyIsAhead();
    RunSnoc(EMPTY_LEDGER, ops, op);
  }

  /** Create and destroy the first slot's entity n times over. */
  function Cycle(n: nat): seq<SlotOp> {
    if n == 0 then [] else Cycle(n - 1) + [MakeOne] + [Drop(Entity(0, n))]
  }

  /** A store whose only slot is free, and next gets version n + 1. */
  ghost predicate OneFreeSlot(s: Slots, n: nat) {
    if n == 0 then s == Slots([], INVALID_INDEX) else s == Slots([Entity(INVALID_INDEX, n + 1)], 0)
  }

  lemma MakeInCycle(l: Ledger, n: nat)
    requires WellLinked(l.s) && OneFreeSlot(l.s, n)
    ensures Apply(l, MakeOne).s == Slots([Entity(0, n + 1)], INVALID_INDEX) && !Wraps(l, MakeOne)
  {
    hide WellLinked;
  }

  lemma DropInCycle(l: Ledger, n: nat)
    requires WellLinked(l.s) && l.s == Slots([Entity(0, n + 1)], INVALID_INDEX) && n + 1 < HALF - 1
    ensures OneFreeSlot(Apply(l, Drop(Entity(0, n + 1))).s, n + 1) && !Wraps(l, Drop(Entity(0, n + 1)))
  {
    hide WellLinked;
    assert NextVersion(n + 1) == n + 2;
  }

  lemma {:induction false} CycleReaches(n: nat)
    requires n < HALF - 1
    ensures NoWrap(Cycle(n)) && OneFreeSlot(Played(Cycle(n)).s, n)
  {
    hide RunOps, Unwrapped, WellLinked, Apply, Wraps, OneFreeSlot;
    if n == 0 {
      NothingPlayed();
    } else {
      CycleReaches(n - 1);
      var made := Cycle(n - 1) + [MakeOne];
      PlayedSnoc(Cycle(n - 1), MakeOne);
      MakeInCycle(Played(Cycle(n - 1)), n - 1);
      PlayedSnoc(made, Drop(Entity(0, n)));
      DropInCycle(Played(made), n - 1);
    }
  }

  lemma NothingPlayed()
    ensures NoWrap([]) && OneFreeSlot(Played([]).s, 0)
  {
  }

  /** The wrap does happen: some run without one ends with an entity at the last version, and
      destroying that entity and creating the next issues a handle for the second time. */
  lemma WrapIsReached() returns (ops: seq<SlotOp>, e: Entity)
    ensures NoWrap(ops) && Alive(Played(ops).s.slots, e) && Wraps(Played(ops), Drop(e))
    ensures !NeverRepeats(Played(ops + [Drop(e)] + [MakeOne]))
  {
    hide RunOps, Unwrapped, WellLinked, Apply, Cycle, NeverRepeats, OneFreeSlot;
    var n := HALF - 2;
    CycleReaches(n);
    ops, e := Cycle(n) + [MakeOne], Entity(0, HALF - 1);
    PlayedSnoc(Cycle(n), MakeOne);
    MakeInCycle(Played(Cycle(n)), n);
    EmptyIsAhead();
    RunKeepsAhead(EMPTY_LEDGER, ops);
    WrapThenMake(Played(ops), e);
    PlayedSnoc(ops, Drop(e));
    PlayedSnoc(ops + [Drop(e)], MakeOne);
    RunOfOne(Played(ops + [Drop(e)]), MakeOne);
  }

  lemma RunOfOne(l: Ledger, op: SlotOp)
    requires WellLinked(l.s)
    ensures RunOps(l, [op]) == Apply(l, op)
  {
    ApplyKeepsLinks(l, op);
    assert [op][1..] == [];
  }
}
