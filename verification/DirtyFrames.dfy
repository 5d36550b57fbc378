/** Publishing dirty frames: the tracker turns each one into a full snapshot or a delta against
    the frame before, all marks are cleared, and a replica restores what was published. */
module DirtyFrames {
  import opened PoolModel
  import opened SparsePool
  import opened OwnedGroups
  import opened EntitySlots
  import opened RegistryModule
  import opened DeltaReplay
  import opened SnapshotChain
  import opened Exclusion
  import opened Snapshots
  import opened DeltaRestore

  datatype Frame<V> = FullFrame(snapshot: Snapshot<V>) | DeltaFrame(delta: DeltaSnapshot<V>)

  ghost predicate FrameOk<V>(f: Frame<V>) {
    match f
    case FullFrame(s) => Consistent(s)
    case DeltaFrame(d) => StoragesValid(d.storages) && (d.hasEntities ==> RawSlots(d.entities))
  }

  ghost function FrameCapture<V>(f: Frame<V>): Capture<V>
    requires FrameOk(f)
  {
    match f
    case FullFrame(s) => CaptureOf(s)
    case DeltaFrame(d) => DeltaCapture(d)
  }

  class DirtySnapshotTracker<V> {
    const interval: nat
    var frameCount: nat
    var lastFull: Option<Snapshot<V>>
    var lastDelta: Option<DeltaSnapshot<V>>

    ghost predicate Valid()
      reads this
    {
      && (lastFull.Some? ==> FrameOk(FullFrame(lastFull.value)))
      && (lastDelta.Some? ==> lastFull.Some? && FrameOk(DeltaFrame(lastDelta.value)))
    }

    /** The frame written last, which the next delta is taken against. */
    ghost function Last(): Option<Frame<V>>
      reads this
    {
      if lastDelta.Some? then Some(DeltaFrame(lastDelta.value))
      else if lastFull.Some? then Some(FullFrame(lastFull.value))
      else None
    }

    constructor (interval: nat)
      ensures Valid() && Last().None? && frameCount == 0 && this.interval == interval
    {
      this.interval := interval;
      frameCount, lastFull, lastDelta := 0, None, None;
    }

    method OnDirtyFrame(r: Registry<V>, mask: seq<bool>, token: nat) returns (frame: Frame<V>)
      requires Valid() && Ready(r) && NoMemberExcluded(r.W(), mask)
      modifies this
      ensures Valid() && frameCount == old(frameCount) + 1 && FrameOk(frame) && Last() == Some(frame)
      ensures frame.FullFrame? <==> old(Last()).None? || interval == 0 || frameCount % interval == 0
      ensures frame.FullFrame? ==> FrameCapture(frame) == FullOf(Shown(r, mask))
      ensures frame.DeltaFrame? ==>
          FrameCapture(frame) == DeltaFrom(Shown(r, mask), FrameCapture(old(Last()).value), token)
    {
      hide Pool.Valid, Pool.M, Consistent, StoragesValid, RawSlots, Ready, DeltaFrom, CaptureOf, DeltaCapture, Visible,
           NoMemberExcluded, Blanked;
      ConsistentIsValid(lastFull);
      frameCount := frameCount + 1;
      if lastFull.None? || interval == 0 || frameCount % interval == 0 {
        var snapshot := CreateSnapshot(r, mask);
        frame := FullFrame(snapshot);
        lastFull, lastDelta := Some(snapshot), None;
        return;
      }
      var delta;
      if lastDelta.Some? {
        delta := CreateNextDelta(r, lastDelta.value, mask, token);
      } else {
        delta := CreateDelta(r, lastFull.value, mask, token);
      }
      frame := DeltaFrame(delta);
      lastDelta := Some(delta);
    }
  }

  lemma ConsistentIsValid<V>(s: Option<Snapshot<V>>)
    ensures s.Some? && Consistent(s.value) ==> StoragesValid(s.value.storages)
  {
  }

  lemma ClearedIsSound<V>(w: World<V>)
    requires Sound(w)
    ensures Sound(w.(pools := Cleared(w.pools)))
  {
    hide Sound;
    SameOrderIsSound(w, w.(pools := Cleared(w.pools)));
  }

  /** Closing a dirty frame clears the marks of every pool. */
  method ClearAllDirtyEntries<V>(r: Registry<V>)
    requires Ready(r)
    modifies r.pools.Values
    ensures Ready(r) && r.Models() == Cleared(old(r.Models()))
  {
    hide Pool.Valid, Pool.M, Sound, EntityStore.Valid, ClearAll;
    ClearedIsSound(r.W());
    var todo := r.pools.Keys;
    while todo != {}
      invariant todo <= r.pools.Keys && r.PoolsOk()
      invariant forall c :: c in r.pools ==>
          r.Models()[c] == if c in todo then old(r.Models())[c] else ClearAll(old(r.Models())[c])
      decreases todo
    {
      var c :| c in todo;
      r.pools[c].ClearAllDirty();
      todo := todo - {c};
    }
    assert r.Models() == Cleared(old(r.Models()));
    assert r.W() == old(r.W()).(pools := Cleared(old(r.Models())));
  }

  /** Publish one frame, then clear all marks for the next. */
  method Broadcast<V>(tracker: DirtySnapshotTracker<V>, r: Registry<V>, mask: seq<bool>, token: nat)
    returns (frame: Frame<V>)
    requires tracker.Valid() && Ready(r) && NoMemberExcluded(r.W(), mask)
    modifies tracker, r.pools.Values
    ensures tracker.Valid() && Ready(r) && FrameOk(frame) && tracker.Last() == Some(frame)
    ensures frame.DeltaFrame? ==> old(tracker.Last()).Some?
    ensures FrameCapture(frame) == if frame.FullFrame? then old(FullOf(Shown(r, mask)))
                                   else old(DeltaFrom(Shown(r, mask), FrameCapture(tracker.Last().value), token))
    ensures r.Models() == Cleared(old(r.Models())) && r.store.S() == old(r.store.S())
  {
    hide Pool.Valid, Pool.M, Ready, DeltaFrom, FullOf, FrameOk, FrameCapture, DirtySnapshotTracker.Valid,
        DirtySnapshotTracker.Last, Visible, NoMemberExcluded;
    LastIsOk(tracker);
    frame := tracker.OnDirtyFrame(r, mask, token);
    ClearAllDirtyEntries(r);
  }

  lemma LastIsOk<V>(tracker: DirtySnapshotTracker<V>)
    requires tracker.Valid()
    ensures tracker.Last().Some? ==> FrameOk(tracker.Last().value)
  {
  }

  /** A replica restores a published frame. A full one always goes through. */
  method Follow<V>(r: Registry<V>, frame: Frame<V>) returns (ok: bool)
    requires Ready(r) && FrameOk(frame)
    modifies r, r.store, r.pools.Values
    ensures Ready(r) && ok == CanRestore(old(StateOf(r)), FrameCapture(frame))
    ensures ok ==> RestoresTo(old(StateOf(r)), FrameCapture(frame), StateOf(r))
  {
    hide Pool.Valid, Pool.M, Sound, RawSlots, Relinked;
    match frame
    case FullFrame(s) =>
      PendingIsEmpty(r.W());
      RestoreSnapshot(r, s);
      ok := true;
    case DeltaFrame(d) =>
      ghost var work;
      ok, work := RestoreDelta(r, d);
  }

  lemma PendingIsEmpty<V>(w: World<V>)
    requires Sound(w) && w.depth == 0
    ensures w.pending == []
  {
  }

  /** Two registries that share no object. */
  ghost predicate Apart<V>(a: Registry<V>, b: Registry<V>)
    reads a, b
  {
    a != b && a.store != b.store && a.pools.Values !! b.pools.Values
  }

  /** The frame written last captured what state `before` shows under the mask, the replica mirrors
      that, and the source got from there, marks cleared, to where it is now by registry steps.
      Nothing is asked before the first frame. */
  ghost predicate InStep<V>(last: Option<Frame<V>>, mask: seq<bool>, before: State<V>, w: Work<V>, now: State<V>,
                            t: State<V>)
  {
    last.Some? ==>
      && FrameOk(last.value) && Usable(before) && SlotsCaptured(FrameCapture(last.value), Visible(before, mask))
      && Mirrors(t, Visible(before, mask), FrameCapture(last.value)) && Leads(Cleared(before.pools), w, now.pools)
  }

  /** Publish and follow: from frame to frame the replica keeps showing what the source showed when
      it published, and it loses step exactly at a delta that holds a stuck removal. */
  method PublishAndFollow<V>(tracker: DirtySnapshotTracker<V>, source: Registry<V>, replica: Registry<V>,
                             mask: seq<bool>, token: nat, ghost before: State<V>, ghost w: Work<V>)
    returns (ok: bool, frame: Frame<V>)
    requires tracker.Valid() && Ready(source) && Ready(replica) && Apart(source, replica)
    requires RowsAlive(source.Models(), source.store.slots) && NoMemberExcluded(source.W(), mask)
    requires InStep(tracker.Last(), mask, before, w, StateOf(source), StateOf(replica))
    modifies tracker, source.pools.Values, replica, replica.store, replica.pools.Values
    ensures tracker.Valid() && Ready(source) && Ready(replica) && tracker.Last() == Some(frame)
    ensures source.Models() == Cleared(old(source.Models())) && source.store.S() == old(source.store.S())
    ensures ok <==>
            frame.FullFrame? || Flows(VisiblePools(before.pools, mask), VisiblePools(old(source.Models()), mask))
    ensures ok ==>
            && FrameOk(frame) && Mirrors(StateOf(replica), old(Shown(source, mask)), FrameCapture(frame))
            && SlotsCaptured(FrameCapture(frame), old(Shown(source, mask)))
  {
    hide Pool.Valid, Pool.M, Sound, DeltaFrom, FullOf, FrameOk, FrameCapture, DirtySnapshotTracker.Valid, Mirrors,
         SlotsCaptured, Usable, RowsAlive, CanRestore, RestoresTo, Flows, WellLinked, NoMemberExcluded, InStep, Visible,
         VisiblePools, DirtySnapshotTracker.Last;
    LastIsOk(tracker);
    SourceIsUsable(source);
    ghost var now, t, last := StateOf(source), StateOf(replica), tracker.Last();
    frame := Broadcast(tracker, source, mask, token);
    assert StateOf(replica) == t;
    ok := Follow(replica, frame);
    Followed(last, mask, before, w, now, t, frame, token, StateOf(replica), ok);
  }

  /** Whatever was published and followed, the replica shows it unless a removal was stuck. */
  lemma Followed<V>(last: Option<Frame<V>>, mask: seq<bool>, before: State<V>, w: Work<V>, now: State<V>, t: State<V>,
                    frame: Frame<V>, token: nat, after: State<V>, ok: bool)
    requires InStep(last, mask, before, w, now, t) && Usable(now) && FrameOk(frame)
    requires (last.Some? ==> FrameOk(last.value)) && (frame.DeltaFrame? ==> last.Some?)
    requires FrameCapture(frame) ==
             if frame.FullFrame? then FullOf(Visible(now, mask))
             else DeltaFrom(Visible(now, mask), FrameCapture(last.value), token)
    requires ok == CanRestore(t, FrameCapture(frame)) && (ok ==> RestoresTo(t, FrameCapture(frame), after))
    ensures ok <==> frame.FullFrame? || Flows(VisiblePools(before.pools, mask), VisiblePools(now.pools, mask))
    ensures ok ==>
            Mirrors(after, Visible(now, mask), FrameCapture(frame)) &&
                SlotsCaptured(FrameCapture(frame), Visible(now, mask))
  {
    hide DeltaFrom, FullOf, FrameOk, FrameCapture, Mirrors, SlotsCaptured, Usable, CanRestore, RestoresTo, Flows,
        InStep,
         Visible, NextFrame, Continues;
    var shown, seen, v := Visible(now, mask), Visible(before, mask), VisibleWork(w, mask);
    VisibleIsUsable(now, mask);
    InStepIsVisible(last, mask, before, w, now, t);
    PublishedIsNext(last, seen, v, shown, t, frame, token);
    FollowedMirrors(last, seen, v, shown, t, frame, after, ok);
    VisibleParts(before, mask);
    VisibleParts(now, mask);
  }

  lemma VisibleParts<V>(s: State<V>, mask: seq<bool>)
    ensures Visible(s, mask).pools == VisiblePools(s.pools, mask)
  {
  }

  /** The next frame's premise, seen through the mask. */
  ghost predicate Continues<V>(last: Option<Frame<V>>, seen: State<V>, v: Work<V>, shown: State<V>, t: State<V>) {
    last.Some? ==>
      && FrameOk(last.value) && Usable(seen) && SlotsCaptured(FrameCapture(last.value), seen)
      && Mirrors(t, seen, FrameCapture(last.value)) && Leads(Cleared(seen.pools), v, shown.pools)
  }

  lemma InStepIsVisible<V>(last: Option<Frame<V>>, mask: seq<bool>, before: State<V>, w: Work<V>, now: State<V>,
      t: State<V>)
    requires InStep(last, mask, before, w, now, t)
    ensures Continues(last, Visible(before, mask), VisibleWork(w, mask), Visible(now, mask), t)
    ensures last.Some? ==> FrameOk(last.value) && Mirrors(t, Visible(before, mask), FrameCapture(last.value))
  {
    if last.Some? {
      hide FrameOk, FrameCapture, Mirrors, SlotsCaptured, Leads, VisiblePools, VisibleWork, Cleared;
      assert AllDistinctRows(before.pools);
      hide Usable;
      VisibleIsUsable(before, mask);
      WorkIsVisible(before.pools, w, now.pools, mask);
    }
  }

  lemma SourceIsUsable<V>(r: Registry<V>)
    requires Ready(r) && RowsAlive(r.Models(), r.store.slots)
    ensures Usable(StateOf(r))
  {
    SoundRows(r.W());
    ValidIsRaw(r.store);
  }

  /** What a broadcast publishes is the next frame after the last. */
  lemma PublishedIsNext<V>(last: Option<Frame<V>>, before: State<V>, w: Work<V>, now: State<V>, t: State<V>,
      frame: Frame<V>, token: nat)
    requires Continues(last, before, w, now, t) && Usable(now) && FrameOk(frame) && (last.Some? ==> FrameOk(last.value))
    requires frame.DeltaFrame? ==> last.Some?
    requires FrameCapture(frame) == if frame.FullFrame? then FullOf(now)
        else DeltaFrom(now, FrameCapture(last.value), token)
    ensures last.Some? ==> NextFrame(before, FrameCapture(last.value), w, now, FrameCapture(frame))
  {
    hide DeltaOf, Relinked, Mirrors, Usable, Leads, FrameOk;
  }

  lemma FollowedMirrors<V>(last: Option<Frame<V>>, before: State<V>, w: Work<V>, now: State<V>, t: State<V>,
                           frame: Frame<V>, after: State<V>, ok: bool)
    requires FrameOk(frame) && Usable(now) && (frame.DeltaFrame? ==> last.Some?) &&
        (frame.FullFrame? ==> FrameCapture(frame) == FullOf(now))
    requires last.Some? ==> FrameOk(last.value) && Mirrors(t, before, FrameCapture(last.value))
                            && NextFrame(before, FrameCapture(last.value), w, now, FrameCapture(frame))
    requires ok == CanRestore(t, FrameCapture(frame)) && (ok ==> RestoresTo(t, FrameCapture(frame), after))
    ensures ok <==> frame.FullFrame? || Flows(before.pools, now.pools)
    ensures ok ==> Mirrors(after, now, FrameCapture(frame)) && SlotsCaptured(FrameCapture(frame), now)
  {
    hide NextFrame, Mirrors, Flows, FrameOk;
    if frame.FullFrame? {
      FullFrameMirrors([now], [w], [FullOf(now)], 0, t, after);
    } else {
      StepRestorable(before, FrameCapture(last.value), w, now, FrameCapture(frame), t);
      if ok { StepMirrors(before, FrameCapture(last.value), w, now, FrameCapture(frame), t, after); }
    }
  }
}
