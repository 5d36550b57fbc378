/** The rewind ring buffer: checkpoints and deltas of the latest frames, always starting at a
    checkpoint, so that any stored frame can be rebuilt. */
module RewindTimelineModule {
  import opened Counting
  import opened PoolModel
  import opened SparsePool
  import opened OwnedGroups
  import opened EntitySlots
  import opened RegistryModule
  import opened DeltaReplay
  import opened SnapshotChain
  import opened Exclusion
  import opened Snapshots
  import opened DeltaRestore
  import opened DirtyFrames

  datatype Record<V> = Record(frame: nat, checkpoint: Option<Snapshot<V>>, delta: Option<DeltaSnapshot<V>>)

  /** A stored record holds either a checkpoint or a delta. */
  ghost predicate RecordOk<V>(r: Record<V>) {
    && r.checkpoint.Some? != r.delta.Some?
    && (r.checkpoint.Some? ==> FrameOk(FullFrame(r.checkpoint.value)))
    && (r.delta.Some? ==> FrameOk(DeltaFrame(r.delta.value)))
  }

  ghost function CaptureAt<V>(r: Record<V>): Capture<V>
    requires RecordOk(r)
  {
    if r.checkpoint.Some? then FrameCapture(FullFrame(r.checkpoint.value)) else FrameCapture(DeltaFrame(r.delta.value))
  }

  ghost predicate AllOk<V>(records: seq<Record<V>>) { forall k :: 0 <= k < |records| ==> RecordOk(records[k]) }

  ghost function Captures<V>(records: seq<Record<V>>): (caps: seq<Capture<V>>)
    requires AllOk(records)
    ensures |caps| == |records|
  {
    seq(|records|, k requires 0 <= k < |records| => CaptureAt(records[k]))
  }

  /** What was captured, and what the registry did between captures. */
  datatype History<V> = History(states: seq<State<V>>, work: seq<Work<V>>)

  /** The records form one emitted stream: the first is a checkpoint, every later one a
      checkpoint or a delta based on its predecessor. */
  ghost predicate Stream<V>(records: seq<Record<V>>, h: History<V>) {
    && |h.states| == |h.work| == |records| && AllOk(records)
    && forall k :: 0 <= k < |records| ==> Emitted(h.states, h.work, Captures(records), k)
  }

  ghost function Later<V>(h: History<V>, k: nat): History<V>
    requires k <= |h.states| == |h.work|
  {
    History(h.states[k..], h.work[k..])
  }

  lemma StreamStartsFull<V>(records: seq<Record<V>>, h: History<V>)
    requires Stream(records, h) && records != []
    ensures records[0].checkpoint.Some?
  {
    hide FrameCapture, FrameOk, DeltaFrom, FullOf;
    assert Emitted(h.states, h.work, Captures(records), 0);
    FirstIsFull(h.states, h.work, Captures(records));
    FullIsCheckpoint(records[0]);
  }

  lemma FullIsCheckpoint<V>(r: Record<V>)
    requires RecordOk(r)
    ensures CaptureAt(r).Full? <==> r.checkpoint.Some?
  {
  }

  /** Dropping a prefix up to a checkpoint leaves a stream. */
  lemma StreamSuffix<V>(records: seq<Record<V>>, h: History<V>, k: nat)
    requires |h.states| == |h.work| == |records| && AllOk(records) && k <= |records|
    requires forall n :: k <= n < |records| ==> EmittedAt(records, h, n)
    requires k < |records| ==> records[k].checkpoint.Some?
    ensures Stream(records[k..], Later(h, k))
  {
    hide FrameCapture, FrameOk, Usable, Leads;
    forall n | 0 <= n < |records| - k
      ensures Emitted(h.states[k..], h.work[k..], Captures(records[k..]), n)
    {
      assert EmittedAt(records, h, k + n);
      if n == 0 { FullIsCheckpoint(records[k]); }
    }
  }

  ghost predicate EmittedAt<V>(records: seq<Record<V>>, h: History<V>, n: nat)
    requires n < |records| == |h.states| == |h.work| && AllOk(records)
  {
    Emitted(h.states, h.work, Captures(records), n)
  }

  ghost function Grown<V>(h: History<V>, s: State<V>, w: Work<V>): History<V> { History(h.states + [s], h.work + [w]) }

  lemma StreamAppend<V>(records: seq<Record<V>>, h: History<V>, r: Record<V>, s: State<V>, w: Work<V>)
    requires Stream(records, h) && RecordOk(r) && Usable(s)
    requires CaptureAt(r) == FullOf(s)
             || (records != [] && CaptureAt(r) == DeltaFrom(s, CaptureAt(records[|records| - 1]), CaptureAt(r).token)
                 && Leads(Cleared(h.states[|records| - 1].pools), w, s.pools))
    ensures AllOk(records + [r])
    ensures forall n :: 0 <= n <= |records| ==> EmittedAt(records + [r], Grown(h, s, w), n)
  {
    hide FrameCapture, FrameOk, DeltaFrom, FullOf, Usable, Leads, RecordOk, CaptureAt;
    var all, g := records + [r], Grown(h, s, w);
    forall n | 0 <= n <= |records| ensures EmittedAt(all, g, n) {
      if n < |records| { assert Emitted(h.states, h.work, Captures(records), n); }
    }
  }

  /** The first checkpoint at or after `from`. */
  function KeepFrom<V>(records: seq<Record<V>>, from: nat): (k: nat)
    requires from <= |records|
    ensures from <= k <= |records| && (k < |records| ==> records[k].checkpoint.Some?)
    ensures forall j :: from <= j < k ==> records[j].checkpoint.None?
    decreases |records| - from
  {
    if from < |records| && records[from].checkpoint.None? then KeepFrom(records, from + 1) else from
  }

  /** What decides which records stay: the frame number, and whether it is a checkpoint. */
  datatype Mark = Mark(frame: nat, checkpoint: bool)

  function Marks<V>(records: seq<Record<V>>): (r: seq<Mark>)
    ensures |r| == |records|
  {
    seq(|records|, k requires 0 <= k < |records| => Mark(records[k].frame, records[k].checkpoint.Some?))
  }

  function FirstMark(marks: seq<Mark>, from: nat): (k: nat)
    requires from <= |marks|
    ensures from <= k <= |marks| && (k < |marks| ==> marks[k].checkpoint)
    ensures forall j :: from <= j < k ==> !marks[j].checkpoint
    decreases |marks| - from
  {
    if from < |marks| && !marks[from].checkpoint then FirstMark(marks, from + 1) else from
  }

  /** The ring after one more record: a full one loses its oldest, then everything goes that lies
      before the first checkpoint. */
  function Pushed(ring: seq<Mark>, m: Mark, capacity: nat): seq<Mark>
    requires |ring| <= capacity && capacity > 0
  {
    (ring + [m])[FirstMark(ring + [m], if |ring| < capacity then 0 else 1)..]
  }

  lemma {:induction false} KeepsTheMarked<V>(records: seq<Record<V>>, from: nat)
    requires from <= |records|
    ensures KeepFrom(records, from) == FirstMark(Marks(records), from)
    decreases |records| - from
  {
    if from < |records| && records[from].checkpoint.None? { KeepsTheMarked(records, from + 1); }
  }

  lemma PushedMarks<V>(records: seq<Record<V>>, x: Record<V>, capacity: nat)
    requires |records| <= capacity && capacity > 0
    ensures var all, from := records + [x], if |records| < capacity then 0 else 1;
            Marks(all[KeepFrom(all, from)..]) == Pushed(Marks(records), Mark(x.frame, x.checkpoint.Some?), capacity)
  {
    hide KeepFrom, FirstMark;
    var all, from := records + [x], if |records| < capacity then 0 else 1;
    KeepsTheMarked(all, from);
    assert Marks(all) == Marks(records) + [Mark(x.frame, x.checkpoint.Some?)];
    assert Marks(all[KeepFrom(all, from)..]) == Marks(all)[KeepFrom(all, from)..];
  }

  /** The ring after capturing n frames in a row, beginning empty at frame `first`. */
  function RingAfter(first: nat, n: nat, interval: nat, capacity: nat): (ring: seq<Mark>)
    requires interval > 0 && capacity > 0
    ensures |ring| <= capacity
  {
    if n == 0 then []
    else
      var ring, frame := RingAfter(first, n - 1, interval, capacity), first + n - 1;
      Pushed(ring, Mark(frame, ring == [] || frame % interval == 0), capacity)
  }

  /** Consecutive frames up to, not including, `next`, the oldest one a checkpoint. */
  ghost predicate Window(ring: seq<Mark>, next: nat, interval: nat)
    requires interval > 0
  {
    && |ring| <= next && (ring != [] ==> ring[0].checkpoint)
    && (forall j :: 0 <= j < |ring| ==>
          ring[j].frame == next - |ring| + j && (ring[j].frame % interval == 0 ==> ring[j].checkpoint))
  }

  lemma MultipleHasNoRest(q: nat, d: nat)
    requires d > 0
    ensures q * d % d == 0
  {
    var t := q * d / d;
    assert q * d == t * d + q * d % d;
    if t < q { Times(t + 1, q, d); } else if t > q { Times(q + 1, t, d); }
  }

  /** Among as many frames in a row as the interval is long, one is due for a checkpoint. */
  lemma DueInWindow(frame: nat, interval: nat) returns (due: nat)
    requires interval > 0
    ensures due % interval == 0 && due <= frame < due + interval
  {
    due := frame / interval * interval;
    MultipleHasNoRest(frame / interval, interval);
  }

  lemma LongRingKeepsACheckpoint(ring: seq<Mark>, frame: nat, interval: nat, capacity: nat)
    requires 0 < interval <= capacity && |ring| <= capacity && Window(ring, frame, interval)
    ensures var next := Pushed(ring, Mark(frame, ring == [] || frame % interval == 0), capacity);
            next != [] && Window(next, frame + 1, interval)
  {
    hide FirstMark;
    var m := Mark(frame, ring == [] || frame % interval == 0);
    var all, from := ring + [m], if |ring| < capacity then 0 else 1;
    var k := FirstMark(all, from);
    var due := DueInWindow(frame, interval);
    if from == 0 {
      assert all[0].checkpoint;
    } else {
      assert all[|ring| - (frame - due)].checkpoint;
    }
  }

  lemma {:induction false} LongRingIsNeverEmptied(first: nat, n: nat, interval: nat, capacity: nat)
    requires 0 < interval <= capacity
    ensures Window(RingAfter(first, n, interval, capacity), first + n, interval)
    ensures n > 0 ==> RingAfter(first, n, interval, capacity) != []
    decreases n
  {
    hide Pushed, Window;
    if n > 0 {
      LongRingIsNeverEmptied(first, n - 1, interval, capacity);
      LongRingKeepsACheckpoint(RingAfter(first, n - 1, interval, capacity), first + n - 1, interval, capacity);
    } else {
      EmptyWindow(first, interval);
    }
  }

  lemma EmptyWindow(next: nat, interval: nat)
    requires interval > 0
    ensures Window([], next, interval)
  {
  }

  function OneCheckpoint(n: nat): (ring: seq<Mark>)
    ensures |ring| == n && forall j :: 0 <= j < n ==> ring[j] == Mark(j, j == 0)
  {
    seq(n, j requires 0 <= j < n => Mark(j, j == 0))
  }

  /** From frame 0 on, a short ring fills up behind a single checkpoint. */
  lemma {:induction false} ShortRingFills(n: nat, interval: nat, capacity: nat)
    requires 0 < capacity < interval && n <= capacity
    ensures RingAfter(0, n, interval, capacity) == OneCheckpoint(n)
    decreases n
  {
    if n > 0 {
      hide FirstMark, OneCheckpoint, Pushed;
      ShortRingFills(n - 1, interval, capacity);
      NotDue(n - 1, interval);
      PushFills(n - 1, capacity);
    }
  }

  lemma PushFills(n: nat, capacity: nat)
    requires n < capacity
    ensures Pushed(OneCheckpoint(n), Mark(n, n == 0), capacity) == OneCheckpoint(n + 1)
  {
    hide FirstMark, OneCheckpoint;
    assert OneCheckpoint(n) + [Mark(n, n == 0)] == OneCheckpoint(n + 1);
    assert OneCheckpoint(n + 1)[0].checkpoint;
    assert FirstMark(OneCheckpoint(n + 1), 0) == 0;
  }

  lemma NotDue(frame: nat, interval: nat)
    requires frame < interval
    ensures frame % interval == 0 <==> frame == 0
  {
  }

  lemma ShortRingIsEmptied(interval: nat, capacity: nat)
    requires 0 < capacity < interval
    ensures RingAfter(0, capacity + 1, interval, capacity) == []
  {
    hide RingAfter, Pushed, OneCheckpoint;
    ShortRingFills(capacity, interval, capacity);
    NotDue(capacity, interval);
    OneMoreFrame(0, capacity, interval, capacity);
    PushEmpties(capacity);
  }

  lemma OneMoreFrame(first: nat, n: nat, interval: nat, capacity: nat)
    requires interval > 0 && capacity > 0
    ensures var ring := RingAfter(first, n, interval, capacity);
            RingAfter(first, n + 1, interval, capacity) ==
                Pushed(ring, Mark(first + n, ring == [] || (first + n) % interval == 0), capacity)
  {
    hide Pushed;
  }

  /** A full ring behind a single checkpoint, and a delta on top. */
  lemma PushEmpties(capacity: nat)
    requires capacity > 0
    ensures Pushed(OneCheckpoint(capacity), Mark(capacity, false), capacity) == []
  {
    hide OneCheckpoint, FirstMark;
    var all := OneCheckpoint(capacity) + [Mark(capacity, false)];
    assert forall k :: 1 <= k < |all| ==> !all[k].checkpoint;
    assert FirstMark(all, 1) == |all|;
  }

  /** Capturing frame after frame never empties the buffer, from whatever frame it starts, if and
      only if the buffer is at least as long as the checkpoint interval. */
  lemma NeverEmptiedIffLongEnough(interval: nat, capacity: nat)
    requires interval > 0 && capacity > 0
    ensures (forall first: nat, n: nat :: n > 0 ==> RingAfter(first, n, interval, capacity) != []) <==>
        capacity >= interval
  {
    hide RingAfter;
    if capacity >= interval {
      forall first: nat, n: nat | n > 0 ensures RingAfter(first, n, interval, capacity) != [] {
        LongRingIsNeverEmptied(first, n, interval, capacity);
      }
    } else {
      ShortRingIsEmptied(interval, capacity);
    }
  }

  function Wrap(n: nat, length: nat): nat
    requires n < 2 * length
  {
    if n < length then n else n - length
  }

  lemma WrapIsModulo(n: nat, length: nat)
    requires n < 2 * length
    ensures Wrap(n, length) == n % length
  {
    if n >= length { assert n % length == (n - length) % length; }
  }

  /** The live part of a ring buffer, oldest first. */
  ghost function Ring<T>(slots: seq<T>, start: nat, size: nat): (r: seq<T>)
    requires start < |slots| && size <= |slots|
    ensures |r| == size
  {
    seq(size, i requires 0 <= i < size => slots[Wrap(start + i, |slots|)])
  }

  lemma RingWrites<T>(slots: seq<T>, start: nat, size: nat, x: T)
    requires start < |slots| && size < |slots|
    ensures Ring(slots[Wrap(start + size, |slots|) := x], start, size + 1) == Ring(slots, start, size) + [x]
  {
    var n, a, b := |slots|, Ring(slots[Wrap(start + size, |slots|) := x], start, size + 1),
        Ring(slots, start, size) + [x];
    forall i | 0 <= i <= size ensures a[i] == b[i] {
      assert i < size ==> Wrap(start + i, n) != Wrap(start + size, n);
    }
  }

  lemma RingOverwrites<T>(slots: seq<T>, start: nat, x: T)
    requires start < |slots|
    ensures Ring(slots[start := x], Wrap(start + 1, |slots|), |slots|) == (Ring(slots, start, |slots|) + [x])[1..]
  {
    var next, n := Wrap(start + 1, |slots|), |slots|;
    var a, b := Ring(slots[start := x], next, n), (Ring(slots, start, n) + [x])[1..];
    forall i | 0 <= i < n ensures a[i] == b[i] {
      if i < n - 1 {
        assert Wrap(next + i, n) == Wrap(start + i + 1, n) != start;
      } else {
        assert Wrap(next + i, n) == start;
      }
    }
  }

  lemma RingDrops<T>(slots: seq<T>, start: nat, size: nat)
    requires start < |slots| && 0 < size <= |slots|
    ensures Ring(slots, Wrap(start + 1, |slots|), size - 1) == Ring(slots, start, size)[1..]
  {
    var next, n := Wrap(start + 1, |slots|), |slots|;
    var a, b := Ring(slots, next, size - 1), Ring(slots, start, size)[1..];
    forall i | 0 <= i < size - 1 ensures a[i] == b[i] {
      assert Wrap(next + i, n) == Wrap(start + i + 1, n);
    }
  }

  lemma RecordOf<V>(records: seq<Record<V>>, h: History<V>, k: nat)
    requires Stream(records, h) && k < |records|
    ensures |h.states| == |h.work| == |records| && AllOk(records) && RecordOk(records[k])
    ensures Captures(records)[k] == CaptureAt(records[k])
    ensures Emitted(h.states, h.work, Captures(records), k)
  {
    hide Emitted;
  }

  /** The newest checkpoint at or before an index. */
  function CheckpointFor<V>(records: seq<Record<V>>, index: nat): (k: nat)
    requires index < |records| && records[0].checkpoint.Some?
    ensures k <= index && records[k].checkpoint.Some?
    ensures forall j :: k < j <= index ==> records[j].checkpoint.None?
  {
    if records[index].checkpoint.Some? then index else CheckpointFor(records, index - 1)
  }

  datatype Outcome = Missing | Stopped | Restored

  /** No delta between the checkpoint and the frame holds a removal replay cannot follow. */
  ghost predicate Reachable<V>(records: seq<Record<V>>, h: History<V>, index: nat)
    requires index < |records| == |h.states| && records[0].checkpoint.Some?
  {
    forall k :: CheckpointFor(records, index) < k <= index ==> FlowsInto(h, k)
  }

  ghost predicate FlowsInto<V>(h: History<V>, k: nat)
    requires 0 < k < |h.states|
  {
    Flows(h.states[k - 1].pools, h.states[k].pools)
  }

  class RewindTimeline<V> {
    const frames: array<Record<V>>
    const interval: nat
    var start: nat
    var size: nat
    ghost var history: History<V>

    ghost predicate InBounds()
      reads this
    {
      start < frames.Length && size <= frames.Length && interval > 0
    }

    /** The stored records, oldest first. */
    ghost function Records(): (r: seq<Record<V>>)
      requires InBounds()
      reads this, frames
      ensures |r| == size
    {
      Ring(frames[..], start, size)
    }

    ghost predicate Valid()
      reads this, frames
    {
      InBounds() && Stream(Records(), history)
    }

    constructor (capacity: nat, interval: nat)
      requires capacity > 0 && interval > 0
      ensures Valid() && size == 0 && frames.Length == capacity && fresh(frames) && this.interval == interval
    {
      frames := new Record<V>[capacity](_ => Record(0, None, None));
      this.interval := interval;
      start, size := 0, 0;
      history := History([], []);
    }

    function At(index: nat): Record<V>
      requires InBounds() && index < size
      reads this, frames
      ensures At(index) == Records()[index]
    {
      WrapIsModulo(start + index, frames.Length);
      assert frames[..][Wrap(start + index, frames.Length)] == Ring(frames[..], start, size)[index];
      frames[(start + index) % frames.Length]
    }

    method Push(record: Record<V>)
      requires InBounds()
      modifies `start, `size, frames
      ensures InBounds()
      ensures var all := old(Records()) + [record];
              Records() == all[KeepFrom(all, if old(size) < frames.Length then 0 else 1)..]
    {
      hide Ring, KeepFrom;
      ghost var all, from := Records() + [record], if size < frames.Length then 0 else 1;
      if size < frames.Length {
        RingWrites(frames[..], start, size, record);
        WrapIsModulo(start + size, frames.Length);
        ghost var slots := frames[..];
        frames[(start + size) % frames.Length] := record;
        size := size + 1;
        assert frames[..] == slots[Wrap(start + (size - 1), |slots|) := record];
      } else {
        RingOverwrites(frames[..], start, record);
        WrapIsModulo(start + 1, frames.Length);
        ghost var slots := frames[..];
        frames[start] := record;
        assert frames[..] == slots[start := record];
        start := (start + 1) % frames.Length;
      }
      assert Records() == all[from..];
      DiscardUnrestorablePrefix(all, from);
    }

    method DiscardUnrestorablePrefix(ghost all: seq<Record<V>>, ghost from: nat)
      requires InBounds() && from <= |all| && Records() == all[from..]
      modifies `start, `size
      ensures InBounds() && Records() == all[KeepFrom(all, from)..]
    {
      hide Ring;
      ghost var k := from;
      while size > 0 && At(0).checkpoint.None?
        invariant InBounds() && from <= k <= |all| && Records() == all[k..] && KeepFrom(all, from) == KeepFrom(all, k)
        decreases size
      {
        assert At(0) == all[k];
        DropFirst();
        k := k + 1;
      }
      if size > 0 { assert At(0) == all[k]; }
    }

    method DropFirst()
      requires InBounds() && size > 0
      modifies `start, `size
      ensures InBounds() && size == old(size) - 1 && Records() == old(Records())[1..]
    {
      hide Ring;
      RingDrops(frames[..], start, size);
      WrapIsModulo(start + 1, frames.Length);
      start := (start + 1) % frames.Length;
      size := size - 1;
    }

    /** A checkpoint when the buffer is empty or the interval is due, otherwise a delta against the
        newest record. Excluded entities are left out. `w` is what the registry did since then, as
        far as it shows, all marks having been cleared. */
    method Capture(r: Registry<V>, mask: seq<bool>, frame: nat, token: nat, ghost w: Work<V>)
      requires Valid() && Ready(r) && RowsAlive(r.Models(), r.store.slots) && NoMemberExcluded(r.W(), mask)
      requires |history.states| == size
      requires size > 0 ==> Leads(Cleared(history.states[size - 1].pools), w, VisiblePools(r.Models(), mask))
      modifies this, frames
      ensures Valid() && size <= old(size) + 1 && |history.states| == size
      ensures |old(history).work| == old(size) &&
          history == Later(Grown(old(history), Shown(r, mask), w), old(size) + 1 - size)
      ensures Captured(old(Records()), Records(), frame, old(size) == 0 || frame % interval == 0, frames.Length)
    {
      hide Pool.Valid, Pool.M, Sound, Ready, FrameOk, FrameCapture, DeltaFrom, FullOf, Usable, Leads, RowsAlive, Ring,
           KeepFrom, Stream, RecordOk, Captures, CaptureAt, Later, Grown, NoCheckpoint, Shown, Registry.PoolsOk,
           Cleared, Captured, NoMemberExcluded, VisiblePools;
      ReadyPools(r);
      ShownIsUsable(r, mask);
      StreamLengths(Records(), history);
      var record := MakeRecord(r, mask, frame, token);
      ghost var s := Shown(r, mask);
      PushRecord(record, s, w);
      assert Shown(r, mask) == s;
    }

    method PushRecord(record: Record<V>, ghost s: State<V>, ghost w: Work<V>)
      requires Valid() && RecordOk(record) && Usable(s) && |history.states| == |history.work| == size
      requires Follows(Records(), history, record, s, w)
      modifies this, frames
      ensures Valid() && size <= old(size) + 1 && |history.states| == size
      ensures history == Later(Grown(old(history), s, w), old(size) + 1 - size)
      ensures Captured(old(Records()), Records(), record.frame, record.checkpoint.Some?, frames.Length)
    {
      hide FrameOk, FrameCapture, DeltaFrom, FullOf, Usable, Leads, Ring, Stream, RecordOk, Captures, CaptureAt,
          KeepFrom,
           NoCheckpoint, Later, Grown, AllOk, Captured, Follows;
      ghost var k := PushFacts(Records(), history, record, s, w, frames.Length);
      Push(record);
      history := Later(Grown(history, s, w), k);
      StreamLengths(Records(), history);
    }

    method MakeRecord(r: Registry<V>, mask: seq<bool>, frame: nat, token: nat) returns (record: Record<V>)
      requires Valid() && Ready(r) && NoMemberExcluded(r.W(), mask)
      ensures RecordOk(record) && record.frame == frame &&
          (record.checkpoint.Some? <==> size == 0 || frame % interval == 0)
      ensures record.checkpoint.Some? ==> CaptureAt(record) == FullOf(Shown(r, mask))
      ensures size > 0 ==> RecordOk(Records()[size - 1])
      ensures record.checkpoint.None? ==>
          CaptureAt(record) == DeltaFrom(Shown(r, mask), CaptureAt(Records()[size - 1]), CaptureAt(record).token)
    {
      hide Pool.Valid, Pool.M, Ready, DeltaFrom, FullOf, Consistent, RawSlots, Stream, Ring, RecordOk, CaptureAt,
           StoragesValid, Shown, NoMemberExcluded;
      ReadyPools(r);
      if size > 0 { RecordOf(Records(), history, size - 1); }
      if size == 0 || frame % interval == 0 {
        var snapshot := CreateSnapshot(r, mask);
        ConsistentIsValid(Some(snapshot));
        NewCheckpoint(frame, snapshot);
        return Record(frame, Some(snapshot), None);
      }
      var delta := DeltaAgainst(r, At(size - 1), mask, token);
      NewDelta(frame, delta);
      return Record(frame, None, Some(delta));
    }

    /** Rebuild a stored frame: its checkpoint, then every delta up to it. */
    method Restore(r: Registry<V>, index: nat) returns (outcome: Outcome)
      requires Valid() && Ready(r)
      modifies r, r.store, r.pools.Values
      ensures Valid() && Ready(r) && |history.states| == size
      ensures outcome.Missing? <==> index >= size
      ensures index < size ==> Records()[0].checkpoint.Some? && RecordOk(Records()[index])
      ensures outcome.Restored? <==> index < size && Reachable(Records(), history, index)
      ensures outcome.Restored? ==> Mirrors(StateOf(r), history.states[index], CaptureAt(Records()[index]))
    {
      hide Pool.Valid, Pool.M, Ready, FrameOk, FrameCapture, DeltaFrom, FullOf, Mirrors, Flows, Stream, Ring,
          CaptureAt, CheckpointFor;
      StreamLengths(Records(), history);
      if index >= size {
        return Missing;
      }
      StreamStartsFull(Records(), history);
      RecordOf(Records(), history, index);
      var k := FindCheckpoint(index);
      RestoreCheckpoint(r, k);
      ReadyPools(r);
      ghost var first := k;
      while k < index
        invariant first <= k <= index && Ready(r) && r.PoolsOk() && RecordOk(Records()[k])
        invariant fresh(r.pools.Values)
        invariant Mirrors(StateOf(r), history.states[k], CaptureAt(Records()[k]))
        invariant forall j :: first < j <= k ==> FlowsInto(history, j)
      {
        var ok := ApplyDelta(r, k + 1);
        if !ok {
          return Stopped;
        }
        ReadyPools(r);
        k := k + 1;
      }
      return Restored;
    }

    method FindCheckpoint(index: nat) returns (k: nat)
      requires InBounds() && index < size && Records()[0].checkpoint.Some?
      ensures k == CheckpointFor(Records(), index)
    {
      hide Ring;
      k := index;
      while k > 0 && At(k).checkpoint.None?
        invariant k <= index && CheckpointFor(Records(), index) == CheckpointFor(Records(), k)
      {
        k := k - 1;
      }
    }

    method RestoreCheckpoint(r: Registry<V>, k: nat)
      requires Valid() && Ready(r) && k < size && Records()[k].checkpoint.Some? && |history.states| == size
      modifies r, r.store, r.pools.Values
      ensures Ready(r) && fresh(r.pools.Values) && RecordOk(Records()[k])
      ensures Mirrors(StateOf(r), history.states[k], CaptureAt(Records()[k]))
    {
      hide Pool.Valid, Pool.M, Sound, DeltaFrom, FullOf, Usable, Leads, Emitted, Relinked, RawSlots, Stream, Ring,
          Mirrors;
      PendingIsEmpty(r.W());
      RecordOf(Records(), history, k);
      ghost var before := StateOf(r);
      RestoreSnapshot(r, At(k).checkpoint.value);
      FullFrameMirrors(history.states, history.work, Captures(Records()), k, before, StateOf(r));
    }

    method ApplyDelta(r: Registry<V>, k: nat) returns (ok: bool)
      requires Valid() && Ready(r) && 0 < k < size == |history.states| && Records()[k].checkpoint.None?
      requires RecordOk(Records()[k - 1]) && Mirrors(StateOf(r), history.states[k - 1], CaptureAt(Records()[k - 1]))
      modifies r, r.store, r.pools.Values
      ensures Ready(r) && fresh(r.pools.Values - old(r.pools.Values)) && ok == FlowsInto(history, k)
      ensures RecordOk(Records()[k])
      ensures ok ==> Mirrors(StateOf(r), history.states[k], CaptureAt(Records()[k]))
    {
      hide Pool.Valid, Pool.M, Sound, DeltaFrom, FullOf, Usable, Leads, Emitted, Mirrors, Flows, CanRestore,
          RestoresTo, RawSlots,
           Stream, Ring, StoragesValid, PoolsOf, Captures, CaptureAt, RecordOk, DeltaCapture, Between, RowsReplayed,
           SameOwned, Relinked, WellLinked;
      RecordOf(Records(), history, k);
      RecordOf(Records(), history, k - 1);
      DeltaRecord(Records()[k]);
      ghost var before, caps := StateOf(r), Captures(Records());
      RestorableUnlessStuck(history.states, history.work, caps, k, before);
      ghost var work;
      ok, work := RestoreDelta(r, At(k).delta.value);
      if ok { FrameMirrors(history.states, history.work, caps, k, before, StateOf(r)); }
    }
  }

  lemma NewCheckpoint<V>(frame: nat, s: Snapshot<V>)
    requires Consistent(s) && StoragesValid(s.storages)
    ensures var r := Record(frame, Some(s), None); RecordOk(r) && CaptureAt(r) == CaptureOf(s)
  {
  }

  lemma NewDelta<V>(frame: nat, d: DeltaSnapshot<V>)
    requires StoragesValid(d.storages) && (d.hasEntities ==> RawSlots(d.entities))
    ensures var r := Record(frame, None, Some(d)); RecordOk(r) && CaptureAt(r) == DeltaCapture(d)
  {
  }

  /** A delta against a stored record, checkpoint or delta. */
  method DeltaAgainst<V>(r: Registry<V>, baseline: Record<V>, mask: seq<bool>, token: nat) returns (d: DeltaSnapshot<V>)
    requires Ready(r) && RecordOk(baseline)
    ensures StoragesValid(d.storages) && (d.hasEntities ==> RawSlots(d.entities))
    ensures DeltaCapture(d) == DeltaFrom(Shown(r, mask), CaptureAt(baseline), token) && d.stateToken == token
    ensures DeltaCapture(d) == DeltaFrom(Shown(r, mask), CaptureAt(baseline), DeltaCapture(d).token)
  {
    hide Pool.Valid, Pool.M, Sound, DeltaOf, Consistent, RawSlots, Relinked, Shown;
    if baseline.checkpoint.Some? {
      ConsistentIsValid(baseline.checkpoint);
      d := CreateDelta(r, baseline.checkpoint.value, mask, token);
    } else {
      d := CreateNextDelta(r, baseline.delta.value, mask, token);
    }
  }

  lemma StreamLengths<V>(records: seq<Record<V>>, h: History<V>)
    requires Stream(records, h)
    ensures |h.states| == |h.work| == |records| && AllOk(records)
  {
  }

  /** Behind its first checkpoint the buffer holds deltas only. */
  predicate NoCheckpoint<V>(records: seq<Record<V>>) { forall k :: 0 < k < |records| ==> records[k].checkpoint.None? }

  /** What a capture does to the buffer: the new record comes last behind the newest of the old
      ones. Nothing is left exactly when a delta overwrites the last checkpoint of a full buffer. */
  ghost predicate Captured<V>(before: seq<Record<V>>, after: seq<Record<V>>, frame: nat, checkpoint: bool,
      capacity: nat)
    requires |before| <= capacity && capacity > 0
  {
    && |after| <= |before| + 1 && Marks(after) == Pushed(Marks(before), Mark(frame, checkpoint), capacity)
    && (after != [] ==>
          && after[..|after| - 1] == before[|before| + 1 - |after|..]
          && after[|after| - 1].frame == frame && after[|after| - 1].checkpoint.Some? == checkpoint)
    && (after == [] <==> !checkpoint && |before| == capacity && NoCheckpoint(before))
  }

  lemma PushCaptures<V>(before: seq<Record<V>>, x: Record<V>, from: nat, k: nat, capacity: nat)
    requires k <= |before| + 1 && from == (if |before| < capacity then 0 else 1) && |before| <= capacity && capacity > 0
    requires k == KeepFrom(before + [x], from)
    requires k < |before| + 1 ==>
        (before + [x])[k..][|before| - k] == x && (before + [x])[k..][..|before| - k] == before[k..]
    requires k == |before| + 1 <==> from == 1 && x.checkpoint.None? && NoCheckpoint(before)
    ensures Captured(before, (before + [x])[k..], x.frame, x.checkpoint.Some?, capacity)
  {
    hide NoCheckpoint, KeepFrom, Marks, Pushed;
    PushedMarks(before, x, capacity);
  }

  /** A push leaves nothing behind exactly when it overwrites the last checkpoint with a delta. */
  lemma KeepsTheNewest<V>(records: seq<Record<V>>, h: History<V>, x: Record<V>, from: nat)
    requires Stream(records, h) && from <= 1 && from <= |records| && (x.checkpoint.None? ==> records != [])
    ensures var all, k := records + [x], KeepFrom(records + [x], from);
            && (k < |all| ==> all[k..][|all| - k - 1] == x && all[k..][..|all| - k - 1] == records[k..])
            && (k == |all| <==> from == 1 && x.checkpoint.None? && NoCheckpoint(records))
  {
    hide Emitted, RecordOk;
    var all, k := records + [x], KeepFrom(records + [x], from);
    if records != [] { StreamStartsFull(records, h); }
    assert all[|records|] == x;
    if k == |all| {
      assert records != [] ==> all[0] == records[0];
      forall j | 0 < j < |records| ensures records[j].checkpoint.None? { assert all[j] == records[j]; }
    } else if from == 1 && x.checkpoint.None? {
      assert all[k] == records[k];
    }
  }

  /** A new record captures state s: in full, or against the newest record. */
  ghost predicate Follows<V>(records: seq<Record<V>>, h: History<V>, x: Record<V>, s: State<V>, w: Work<V>)
    requires |h.states| == |records| && RecordOk(x)
  {
    && (x.checkpoint.None? ==> records != [])
    && (CaptureAt(x) == FullOf(s)
        || (records != [] && RecordOk(records[|records| - 1])
            && CaptureAt(x) == DeltaFrom(s, CaptureAt(records[|records| - 1]), CaptureAt(x).token)
            && Leads(Cleared(h.states[|records| - 1].pools), w, s.pools)))
  }

  lemma PushKeepsStream<V>(records: seq<Record<V>>, h: History<V>, x: Record<V>, s: State<V>, w: Work<V>, from: nat)
    requires Stream(records, h) && RecordOk(x) && Usable(s) && from <= 1 && from <= |records|
    requires |h.states| == |records| && Follows(records, h, x, s, w)
    ensures |h.states| == |h.work| == |records|
    ensures var all, k, grown := records + [x], KeepFrom(records + [x], from), Grown(h, s, w);
            && k <= |all| && |grown.states| == |grown.work| == |all| && Stream(all[k..], Later(grown, k))
            && (k < |all| ==> all[k..][|all| - k - 1] == x)
            && (k == |all| <==> from == 1 && x.checkpoint.None? && NoCheckpoint(records))
  {
    hide FrameOk, FrameCapture, DeltaFrom, FullOf, Usable, Leads, Stream, RecordOk, Captures, CaptureAt, KeepFrom,
        NoCheckpoint, EmittedAt;
    StreamLengths(records, h);
    KeepsTheNewest(records, h, x, from);
    StreamAppend(records, h, x, s, w);
    StreamSuffix(records + [x], Grown(h, s, w), KeepFrom(records + [x], from));
  }

  lemma PushFacts<V>(records: seq<Record<V>>, h: History<V>, x: Record<V>, s: State<V>, w: Work<V>,
      capacity: nat) returns (k: nat)
    requires Stream(records, h) && RecordOk(x) && Usable(s) && |records| <= capacity && capacity > 0
    requires |h.states| == |h.work| == |records| && Follows(records, h, x, s, w)
    ensures k <= |records| + 1 && k == KeepFrom(records + [x], if |records| < capacity then 0 else 1)
    ensures |Grown(h, s, w).states| == |Grown(h, s, w).work| == |records| + 1
    ensures Stream((records + [x])[k..], Later(Grown(h, s, w), k))
    ensures Captured(records, (records + [x])[k..], x.frame, x.checkpoint.Some?, capacity)
  {
    hide Stream, RecordOk, Captured, Usable, Follows, KeepFrom, NoCheckpoint, Later, Grown;
    var from := if |records| < capacity then 0 else 1;
    PushKeepsStream(records, h, x, s, w, from);
    k := KeepFrom(records + [x], from);
    PushCaptures(records, x, from, k, capacity);
  }

  lemma DeltaRecord<V>(r: Record<V>)
    requires RecordOk(r) && r.checkpoint.None?
    ensures r.delta.Some? && StoragesValid(r.delta.value.storages) &&
        (r.delta.value.hasEntities ==> RawSlots(r.delta.value.entities))
    ensures CaptureAt(r) == DeltaCapture(r.delta.value) && CaptureAt(r).Delta?
  {
  }

  lemma ReadyPools<V>(r: Registry<V>)
    requires Ready(r)
    ensures r.PoolsOk()
  {
  }

  lemma ShownIsUsable<V>(r: Registry<V>, mask: seq<bool>)
    requires Ready(r) && RowsAlive(r.Models(), r.store.slots)
    ensures Usable(Shown(r, mask)) && Shown(r, mask).pools == VisiblePools(r.Models(), mask)
  {
    hide Usable;
    SourceIsUsable(r);
    VisibleIsUsable(StateOf(r), mask);
  }
}
