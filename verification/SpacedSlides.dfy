/** A slide under re-press spacing: when is some lane asserted after every edge
    that goes out, however late, in however many parts? */
module SpacedSlides {
  import opened Protocol
  import opened KeyPlanner
  import opened PlannerLaws
  import opened KeySinks
  import opened SpacerModel
  import opened SpacerLaws
  import opened RepressSpacers
  import opened KeyboardSinks

  /** Some lane is down after the changes. */
  ghost predicate Asserted(pressed: seq<bool>, changes: seq<KeyChange>) {
    exists lane :: 0 <= lane < |pressed| && LaneAfter(pressed[lane], changes, lane)
  }

  /** Some lane is down now, and would be after every prefix of the queue. */
  ghost predicate Bridged(pressed: seq<bool>, queue: seq<ScheduledEdge>) {
    forall k: nat :: k <= |queue| ==> Asserted(pressed, Changes(queue[..k]))
  }

  // ---------------------------------------------------------------- what a flush leaves behind

  lemma {:induction false} WaitingConcat(a: seq<ScheduledEdge>, b: seq<ScheduledEdge>, lane: nat)
    ensures Waiting(a + b, lane) == Waiting(a, lane) + Waiting(b, lane)
  {
    if b == [] {
      assert a + b == a;
    } else {
      var front, e := b[..|b| - 1], b[|b| - 1];
      WaitingConcat(a, front, lane);
      assert a + b == (a + front) + [e];
      WaitingPush(a + front, e, lane);
    }
  }

  /** What goes out from place `m` on. */
  function Tail(queue: seq<ScheduledEdge>, out: set<nat>, m: nat): seq<ScheduledEdge>
    requires m <= |queue|
  {
    if |queue| == m then []
    else
      var rest := Tail(queue[..|queue| - 1], out, m);
      if |queue| - 1 in out then rest + [queue[|queue| - 1]] else rest
  }

  lemma {:induction false} EmittedTail(queue: seq<ScheduledEdge>, out: set<nat>, m: nat)
    requires m <= |queue|
    ensures Emitted(queue, out) == Emitted(queue[..m], out) + Tail(queue, out, m)
  {
    if m == |queue| {
      assert queue[..m] == queue;
    } else {
      EmittedTail(queue[..|queue| - 1], out, m);
      assert queue[..|queue| - 1][..m] == queue[..m];
    }
  }

  /** An edge of the lane in the tail: where it was queued, and that the last of them is a press. */
  lemma {:induction false} TailPresses(queue: seq<ScheduledEdge>, out: set<nat>, m: nat, lane: nat) returns (i: nat)
    requires m <= |queue| && Waiting(Tail(queue, out, m), lane) != []
    requires forall j :: m <= j < |queue| && j in out ==> queue[j].change.down
    ensures m <= i < |queue| && i in out && queue[i].change.lane == lane
    ensures var w := Waiting(Tail(queue, out, m), lane); w[|w| - 1].change.down
  {
    var front, e := queue[..|queue| - 1], queue[|queue| - 1];
    if |queue| - 1 in out && e.change.lane == lane {
      i := |queue| - 1;
      WaitingPush(Tail(front, out, m), e, lane);
    } else {
      if |queue| - 1 in out {
        WaitingPush(Tail(front, out, m), e, lane);
      }
      i := TailPresses(front, out, m, lane);
    }
  }

  lemma {:induction false} NewestOn(queue: seq<ScheduledEdge>, lane: nat) returns (p: nat)
    requires Waiting(queue, lane) != []
    ensures p < |queue| && queue[p].change.lane == lane && queue[p] == Waiting(queue, lane)[|Waiting(queue, lane)| - 1]
    ensures forall j :: p < j < |queue| ==> queue[j].change.lane != lane
  {
    if queue[|queue| - 1].change.lane == lane {
      p := |queue| - 1;
    } else {
      p := NewestOn(queue[..|queue| - 1], lane);
    }
  }

  lemma {:induction false} NoneOn(queue: seq<ScheduledEdge>, lane: nat)
    requires Waiting(queue, lane) == []
    ensures forall j :: 0 <= j < |queue| ==> queue[j].change.lane != lane
  {
    if queue != [] {
      NoneOn(queue[..|queue| - 1], lane);
    }
  }

  /** A release that goes out takes everything with it on a lane that is down behind it. */
  lemma AllGone(queue: seq<ScheduledEdge>, now: Instant, out: set<nat>, pressed: bool, lane: nat, m: nat)
    requires Emittable(queue, now, out) && 0 < m <= |queue| && m - 1 in out && !queue[m - 1].change.down
    requires Scheduled(queue[..m], lane, pressed)
    ensures forall j :: 0 <= j < m && queue[j].change.lane == lane ==> j in out
  {
    var part := queue[..m];
    if Waiting(part, lane) == [] {
      NoneOn(part, lane);
      assert forall j :: 0 <= j < m ==> part[j] == queue[j];
    } else {
      var p := NewestOn(part, lane);
      assert queue[p].change.down && p < m - 1;
      assert p in out;
      forall j | 0 <= j < m && queue[j].change.lane == lane ensures j in out {
        assert part[j] == queue[j];
      }
    }
  }

  /** A lane that is down after the first `m` edges is down after the flush and
      the first `k` edges of what it kept - if no release behind `m` goes out, and
      either `m` is `k` or a release just ahead of `m` goes out. */
  lemma LaneStays(queue: seq<ScheduledEdge>, now: Instant, out: set<nat>, pressed: bool, lane: nat, k: nat, m: nat)
    requires Emittable(queue, now, out) && k <= m <= |queue|
    requires forall j :: m <= j < |queue| && j in out ==> queue[j].change.down
    requires m == k || (m - 1 in out && !queue[m - 1].change.down)
    requires Scheduled(queue[..m], lane, pressed)
    ensures Scheduled(Emitted(queue, out) + Kept(queue[..k], out), lane, pressed)
  {
    hide Waiting, Emitted, Kept, Tail;
    var part, kept, tail := queue[..m], queue[..k], Tail(queue, out, m);
    EmittedTail(queue, out, m);
    WaitingConcat(Emitted(part, out), tail, lane);
    WaitingConcat(Emitted(queue, out), Kept(kept, out), lane);
    assert forall j :: 0 <= j < m ==> part[j] == queue[j];
    if Waiting(tail, lane) != [] {
      var i := TailPresses(queue, out, m, lane);
      forall j | 0 <= j < k && kept[j].change.lane == lane ensures j in out {
        assert queue[j].change.lane == queue[i].change.lane;
      }
      AllOut(kept, out, lane);
    } else if m == k {
      LaneSplit(part, out, lane);
    } else {
      AllGone(queue, now, out, pressed, lane, m);
      AllOut(kept, out, lane);
      AllOut(part, out, lane);
      LaneSplit(part, out, lane);
    }
  }

  /** One behind the last release from `k` on that goes out, or `k`. */
  ghost function LastGone(queue: seq<ScheduledEdge>, out: set<nat>, k: nat, n: nat): (m: nat)
    requires k <= n <= |queue|
    ensures k <= m <= n
    ensures forall j :: m <= j < n && j in out ==> queue[j].change.down
    ensures m == k || (m - 1 in out && !queue[m - 1].change.down)
  {
    if n == k then k
    else if n - 1 in out && !queue[n - 1].change.down then n
    else LastGone(queue, out, k, n - 1)
  }

  lemma KeptAsserted(pressed: seq<bool>, queue: seq<ScheduledEdge>, now: Instant, out: set<nat>, k: nat)
    requires Bridged(pressed, queue) && Emittable(queue, now, out) && k <= |queue|
    ensures Asserted(Applied(pressed, Changes(Emitted(queue, out))), Changes(Kept(queue[..k], out)))
  {
    hide Emitted, Kept, Emittable, LaneAfter;
    var m := LastGone(queue, out, k, |queue|);
    assert Asserted(pressed, Changes(queue[..m]));
    var lane :| 0 <= lane < |pressed| && LaneAfter(pressed[lane], Changes(queue[..m]), lane);
    EmittedReplay(queue[..m], pressed[lane], lane);
    LaneStays(queue, now, out, pressed[lane], lane, k, m);
    var gone, kept := Emitted(queue, out), Kept(queue[..k], out);
    EmittedReplay(gone + kept, pressed[lane], lane);
    assert Changes(gone + kept) == Changes(gone) + Changes(kept);
    LaneAfterConcat(pressed[lane], Changes(gone), Changes(kept), lane);
    var after := Applied(pressed, Changes(gone));
    assert LaneAfter(after[lane], Changes(kept), lane);
  }

  lemma {:induction false} KeptPrefix(queue: seq<ScheduledEdge>, out: set<nat>, n: nat) returns (k: nat)
    requires n <= |Kept(queue, out)|
    ensures k <= |queue| && Kept(queue[..k], out) == Kept(queue, out)[..n]
  {
    if n == |Kept(queue, out)| {
      k := |queue|;
      assert queue[..k] == queue;
    } else {
      var front := queue[..|queue| - 1];
      k := KeptPrefix(front, out, n);
      assert front[..k] == queue[..k];
    }
  }

  /** The first `n` edges that go out are a flush of their own. */
  lemma {:induction false} EmittedPrefix(queue: seq<ScheduledEdge>, out: set<nat>, n: nat) returns (part: set<nat>)
    requires n <= |Emitted(queue, out)|
    ensures Emitted(queue, part) == Emitted(queue, out)[..n] && part <= out
    ensures forall i, j :: i in part && j in out && j < i ==> j in part
    ensures forall i :: i in part ==> i < |queue|
  {
    if n == |Emitted(queue, out)| {
      part := set i: nat | i in out && i < |queue|;
      SameEmitted(queue, out, part);
    } else {
      var front := queue[..|queue| - 1];
      part := EmittedPrefix(front, out, n);
      assert |queue| - 1 !in part;
    }
  }

  lemma {:induction false} SameEmitted(queue: seq<ScheduledEdge>, a: set<nat>, b: set<nat>)
    requires forall i: nat :: i < |queue| ==> (i in a <==> i in b)
    ensures Emitted(queue, a) == Emitted(queue, b)
  {
    if queue != [] {
      SameEmitted(queue[..|queue| - 1], a, b);
    }
  }

  lemma PartEmittable(queue: seq<ScheduledEdge>, now: Instant, out: set<nat>, part: set<nat>)
    requires Emittable(queue, now, out) && part <= out
    requires forall i, j :: i in part && j in out && j < i ==> j in part
    ensures Emittable(queue, now, part)
  {
  }

  /** Some lane is down after every prefix of the changes. */
  ghost predicate Gapless(pressed: seq<bool>, changes: seq<KeyChange>) {
    forall n: nat :: n <= |changes| ==> Asserted(pressed, changes[..n])
  }

  lemma GaplessConcat(pressed: seq<bool>, a: seq<KeyChange>, b: seq<KeyChange>)
    requires Gapless(pressed, a) && Gapless(Applied(pressed, a), b)
    ensures Gapless(pressed, a + b)
  {
    hide LaneAfter;
    forall n: nat | n <= |a + b| ensures Asserted(pressed, (a + b)[..n]) {
      if n <= |a| {
        assert (a + b)[..n] == a[..n];
      } else {
        var rest := b[..n - |a|];
        assert (a + b)[..n] == a + rest && Asserted(Applied(pressed, a), rest);
        var lane :| 0 <= lane < |pressed| && LaneAfter(Applied(pressed, a)[lane], rest, lane);
        LaneAfterConcat(pressed[lane], a, rest, lane);
      }
    }
  }

  /** Whatever part of the queue goes out, and however late: some lane is down
      after every edge of it, and what stays is still bridged. */
  lemma FlushBridged(s: Spacer, pressed: seq<bool>, now: Instant, out: set<nat>)
    requires Bridged(pressed, s.queue) && Emittable(s.queue, now, out)
    ensures Gapless(pressed, Changes(Emitted(s.queue, out)))
    ensures Bridged(Applied(pressed, Changes(Emitted(s.queue, out))), Flushed(s, out, now).queue)
  {
    hide Emitted, Kept, Emittable, LaneAfter, Asserted, Bridged;
    var gone, kept := Emitted(s.queue, out), Kept(s.queue, out);
    forall n: nat | n <= |gone| ensures Asserted(pressed, Changes(gone)[..n]) {
      assert Changes(gone)[..n] == Changes(gone[..n]);
      var part := EmittedPrefix(s.queue, out, n);
      PartEmittable(s.queue, now, out, part);
      AssertedAfter(s.queue, pressed, now, part);
    }
    var after := Flushed(s, out, now).queue;
    RestartedRange(kept, LastAfter(s.last, gone, now), now, s.gap);
    forall n: nat | n <= |after| ensures Asserted(Applied(pressed, Changes(gone)), Changes(after[..n])) {
      var k := KeptPrefix(s.queue, out, n);
      KeptAsserted(pressed, s.queue, now, out, k);
      assert Changes(after[..n]) == Changes(kept[..n]);
    }
    BridgedIs(Applied(pressed, Changes(gone)), after);
  }

  lemma BridgedIs(pressed: seq<bool>, queue: seq<ScheduledEdge>)
    ensures Bridged(pressed, queue) <==> forall k: nat :: k <= |queue| ==> Asserted(pressed, Changes(queue[..k]))
  {
  }

  lemma AssertedAfter(queue: seq<ScheduledEdge>, pressed: seq<bool>, now: Instant, out: set<nat>)
    requires Bridged(pressed, queue) && Emittable(queue, now, out)
    ensures Asserted(pressed, Changes(Emitted(queue, out)))
  {
    KeptAsserted(pressed, queue, now, out, 0);
    assert Kept(queue[..0], out) == [] && Changes([]) == [];
    var after := Applied(pressed, Changes(Emitted(queue, out)));
    var lane :| 0 <= lane < |after| && LaneAfter(after[lane], [], lane);
    assert LaneAfter(pressed[lane], Changes(Emitted(queue, out)), lane);
  }

  // ---------------------------------------------------------------- new edges

  /** The edge would meet a lane with three edges waiting, and cancel the newest. */
  ghost predicate MeetsFull(s: Spacer, change: KeyChange, pressed: seq<bool>)
    requires change.lane < |pressed|
  {
    Scheduled(s.queue, change.lane, pressed[change.lane]) != change.down && |Waiting(s.queue, change.lane)| >= MAX_WAITING_EDGES
  }

  /** The states the lanes are headed for, and that some lane is headed down. */
  ghost predicate Headway(s: Spacer, pressed: seq<bool>) {
    Asserted(pressed, Changes(s.queue))
  }

  /** An edge on a lane that is not full keeps the queue bridged exactly if it leaves some lane headed down. */
  lemma EnqueueBridged(s: Spacer, pressed: seq<bool>, change: KeyChange, now: Instant)
    requires |s.last| == |pressed| && change.lane < |pressed| && Bridged(pressed, s.queue) && !MeetsFull(s, change, pressed)
    ensures var after := Enqueued(s, change, now, pressed[change.lane]);
      Bridged(pressed, after.queue) <==> Headway(after, pressed)
  {
    var after := Enqueued(s, change, now, pressed[change.lane]).queue;
    assert after[..|after|] == after;
    if Asserted(pressed, Changes(after)) {
      forall k: nat | k <= |after| ensures Asserted(pressed, Changes(after[..k])) {
        if k <= |s.queue| {
          assert after[..k] == s.queue[..k];
        }
      }
    }
  }

  /** No change of the list meets a full lane. */
  ghost predicate Roomy(s: Spacer, changes: seq<KeyChange>, now: Instant, pressed: seq<bool>)
    requires |s.last| == |pressed| && OnLanes(changes, |pressed|)
  {
    changes == [] ||
    var front := changes[..|changes| - 1];
    Roomy(s, front, now, pressed) && !MeetsFull(EnqueuedAll(s, front, now, pressed), changes[|changes| - 1], pressed)
  }

  /** Every lane is headed for the state its holders ask for. */
  ghost predicate HeadedFor(s: Spacer, pressed: seq<bool>, holds: seq<nat>) {
    |holds| == |pressed| && forall lane :: 0 <= lane < |pressed| ==> Scheduled(s.queue, lane, pressed[lane]) == (holds[lane] > 0)
  }

  /** A list that never leaves all lanes free keeps the queue bridged, if it meets no full lane. */
  lemma {:induction false} PlanBridged(s: Spacer, pressed: seq<bool>, holds: seq<nat>, changes: seq<KeyChange>, now: Instant)
    requires Good(s, pressed, now) && OnLanes(changes, |pressed|) && HeadedFor(s, pressed, holds)
    requires Bridged(pressed, s.queue) && NeverEmpty(holds, changes) && Roomy(s, changes, now, pressed)
    ensures Bridged(pressed, EnqueuedAll(s, changes, now, pressed).queue)
  {
    hide Waiting, LaneGood, Enqueued, MeetsFull, Bridged, LaneAfter;
    if changes != [] {
      var front, c := changes[..|changes| - 1], changes[|changes| - 1];
      forall k | 0 <= k <= |front| ensures SomeAsserted(holds, front[..k]) {
        assert front[..k] == changes[..k];
      }
      PlanBridged(s, pressed, holds, front, now);
      EnqueueBridged(EnqueuedAll(s, front, now, pressed), pressed, c, now);
      EnqueuedAllGood(s, pressed, changes, now);
      assert changes[..|changes|] == changes;
      var after := EnqueuedAll(s, changes, now, pressed).queue;
      var lane :| 0 <= lane < |holds| && LaneAfter(holds[lane] > 0, changes, lane);
      EmittedReplay(after, pressed[lane], lane);
    }
  }

  // ---------------------------------------------------------------- a planned slide

  /** Pointer `stays` holds a lane before and after the frame, and no finger lands on a held lane. */
  ghost predicate Slides(state: Fingers, lanes: nat, frame: TouchFrame, stays: PointerId)
    requires state.Shaped(lanes) && lanes > 0
  {
    var all := Unfiltered(state, lanes, frame).fingers;
    && state.pointers[stays].Some? && all.pointers[stays].Some?
    && forall i :: 0 <= i < |frame.contacts| ==> !LandsOnHeldLane(state, all, lanes, frame, frame.contacts[i])
  }

  lemma {:induction false} NoRepresses(state: Fingers, after: Fingers, lanes: nat, frame: TouchFrame, split: bool, n: nat)
    requires state.Shaped(lanes) && after.Shaped(lanes) && n <= |frame.contacts|
    requires forall i :: 0 <= i < |frame.contacts| ==> !LandsOnHeldLane(state, after, lanes, frame, frame.contacts[i])
    ensures Represses(state, after, lanes, frame, split, n) == []
  {
    if n > 0 {
      NoRepresses(state, after, lanes, frame, split, n - 1);
    }
  }

  lemma SlideNeverEmpty(state: Fingers, lanes: nat, frame: TouchFrame, stays: PointerId)
    requires state.Shaped(lanes) && lanes > 0 && Counted(state) && DistinctPointers(frame.contacts) && Slides(state, lanes, frame, stays)
    ensures NeverEmpty(state.holds, Plan(state, lanes, frame, true).changes)
  {
    hide Unfiltered, Continuous, Represses, LandsOnHeldLane;
    var all := Unfiltered(state, lanes, frame).fingers;
    NoRepresses(state, all, lanes, frame, true, |frame.contacts|);
    NoRepresses(state, all, lanes, frame, false, |frame.contacts|);
    PlanNeverEmpty(state, lanes, frame, stays);
  }

  /** A flush, as the bridge sees it. */
  lemma PartBridged(s: Spacer, pressed: seq<bool>, now: Instant, out: set<nat>, after: Spacer)
    requires Good(s, pressed, now) && Bridged(pressed, s.queue) && FlushedPart(s, now, out, after)
    ensures var gone := Changes(Emitted(s.queue, out));
      && Gapless(pressed, gone) && Bridged(Applied(pressed, gone), after.queue)
      && Good(after, Applied(pressed, gone), now) && |after.last| == |pressed|
      && forall lane :: 0 <= lane < |pressed| ==>
           Scheduled(after.queue, lane, Applied(pressed, gone)[lane]) == Scheduled(s.queue, lane, pressed[lane])
  {
    hide Bridged, Gapless, Waiting, LaneGood, Flushed, Emitted, Applied;
    FlushBridged(s, pressed, now, out);
    FlushGood(s, pressed, now, out);
    FlushNothing(s, pressed, now);
  }

  /** Both flushes of an attempt, and the frame's changes queued between them. */
  lemma PassageGapless(s: Spacer, pressed: seq<bool>, holds: seq<nat>, now: Instant, way: Passage, changes: seq<KeyChange>, after: Spacer)
    requires Good(s, pressed, now) && Bridged(pressed, s.queue) && FlushedPart(s, now, way.early, way.between)
    requires OnLanes(changes, |pressed|) && HeadedFor(s, pressed, holds) && NeverEmpty(holds, changes)
    requires |way.between.last| == |pressed| ==>
      var ahead := Applied(pressed, Changes(Emitted(s.queue, way.early)));
      && Roomy(way.between, changes, now, ahead)
      && FlushedPart(EnqueuedAll(way.between, changes, now, ahead), now, way.late, after)
    ensures |way.between.last| == |pressed|
    ensures var early := Changes(Emitted(s.queue, way.early));
      var late := Changes(Emitted(EnqueuedAll(way.between, changes, now, Applied(pressed, early)).queue, way.late));
      Gapless(pressed, early + late) && Bridged(Applied(Applied(pressed, early), late), after.queue)
  {
    hide Bridged, Gapless, Waiting, LaneGood, Flushed, Emitted, Applied, Roomy, EnqueuedAll, NeverEmpty, FlushedPart;
    var early := Changes(Emitted(s.queue, way.early));
    var ahead := Applied(pressed, early);
    PartBridged(s, pressed, now, way.early, way.between);
    PlanBridged(way.between, ahead, holds, changes, now);
    EnqueuedAllGood(way.between, ahead, changes, now);
    var all := EnqueuedAll(way.between, changes, now, ahead);
    PartBridged(all, ahead, now, way.late, after);
    GaplessConcat(pressed, early, Changes(Emitted(all.queue, way.late)));
  }

  /** What the frame still asks for never leaves all lanes free: a retry asks for
      nothing, and a new frame slides. */
  ghost predicate SlidesOn(sink: KeyboardSink, frame: TouchFrame, stays: PointerId)
    requires sink.lanes > 0 && sink.state.Value().Shaped(sink.lanes)
    reads sink, sink.state
  {
    sink.pending.sequence.None? ==> Slides(sink.state.Value(), sink.lanes, frame, stays)
  }

  /** Between the flushes of this attempt no change meets a full lane. */
  ghost predicate Room(s: Spacer, pressed: seq<bool>, way: Passage, changes: seq<KeyChange>, now: Instant) {
    var ahead := Applied(pressed, Changes(Emitted(s.queue, way.early)));
    |way.between.last| == |ahead| && OnLanes(changes, |ahead|) && Roomy(way.between, changes, now, ahead)
  }

  /** The holds the lanes are headed for, and that the changes the frame still asks for keep some lane held. */
  lemma SlideAsks(sink: KeyboardSink, frame: TouchFrame, now: Instant, stays: PointerId) returns (holds: seq<nat>)
    requires sink.Valid(now) && sink.spacer != null && sink.Headed() && frame.Decoded()
    requires !frame.ReleasesAll() && !frame.EmptyHeartbeat()
    requires Bridged(sink.pressed, sink.spacer.queue) && SlidesOn(sink, frame, stays)
    ensures HeadedFor(sink.spacer.Value(), sink.pressed, holds) && NeverEmpty(holds, sink.Owed(frame).changes)
  {
    hide Good, Separated, Recorded, Faithful, Waiting, Plan, LaneAfter;
    if sink.pending.sequence.None? {
      holds := sink.state.Value().holds;
      SlideNeverEmpty(sink.state.Value(), sink.lanes, frame, stays);
    } else {
      holds := sink.nextState.Value().holds;
      StillHeld(sink.spacer.Value(), sink.pressed, holds);
    }
  }

  lemma StillHeld(s: Spacer, pressed: seq<bool>, holds: seq<nat>)
    requires Bridged(pressed, s.queue) && HeadedFor(s, pressed, holds)
    ensures NeverEmpty(holds, [])
  {
    assert s.queue[..|s.queue|] == s.queue && Asserted(pressed, Changes(s.queue));
    var lane :| 0 <= lane < |pressed| && LaneAfter(pressed[lane], Changes(s.queue), lane);
    EmittedReplay(s.queue, pressed[lane], lane);
    assert LaneAfter(holds[lane] > 0, [], lane);
    var none: seq<KeyChange> := [];
    assert SomeAsserted(holds, none) && forall k :: 0 <= k <= |none| ==> none[..k] == none;
  }

  /** One attempt of a frame of a sliding pointer. Whatever the OS takes, and
      whenever: if some lane was down and stayed bridged before, and no change
      meets a full lane, some lane is down after every accepted change. */
  method SlideFrame(sink: KeyboardSink, frame: TouchFrame, now: Instant, os: OsAnswers, ghost stays: PointerId)
    returns (r: Result<()>, ghost way: Passage)
    requires sink.Valid(now) && sink.spacer != null && sink.Headed() && frame.Decoded()
    requires !frame.ReleasesAll() && !frame.EmptyHeartbeat()
    modifies sink.Parts()
    ensures sink.Valid(now) && sink.Headed() && sink.Parts() == old(sink.Parts())
    ensures FirstFlush(old(sink.spacer.Value()), now, way) && old(sink.accepted) <= sink.accepted
    ensures old(Bridged(sink.pressed, sink.spacer.queue) && SlidesOn(sink, frame, stays)) ==>
      (way.served && old(sink.NotBusyWith(frame)) ==> Room(old(sink.spacer.Value()), old(sink.pressed), way, old(sink.Owed(frame)).changes, now)) ==>
      Gapless(old(sink.pressed), sink.accepted[|old(sink.accepted)|..]) && Bridged(sink.pressed, sink.spacer.queue)
  {
    hide Bridged, SlidesOn, Gapless, Plan, Good, Separated, Recorded, Faithful, HeadedFor, NeverEmpty, Roomy, Waiting, EnqueuedAll, Applied, Emitted;
    hide FlushedPart, KeyboardSink.Headed;
    ghost var s, pressed, log, changes := sink.spacer.Value(), sink.pressed, sink.accepted, sink.Owed(frame).changes;
    ghost var slides, busy := Bridged(pressed, s.queue) && SlidesOn(sink, frame, stays), !sink.NotBusyWith(frame);
    ghost var holds: seq<nat> := [];
    if slides {
      holds := SlideAsks(sink, frame, now, stays);
    }
    r, way := sink.AcceptSpaced(frame, now, os);
    if slides && (way.served && !busy ==> Room(s, pressed, way, changes, now)) {
      if way.served && !busy {
        PassageGapless(s, pressed, holds, now, way, changes, sink.spacer.Value());
        var early := Changes(Emitted(s.queue, way.early));
        var all := EnqueuedAll(way.between, changes, now, Applied(pressed, early));
        assert sink.accepted[|log|..] == early + Changes(Emitted(all.queue, way.late));
      } else {
        PartBridged(s, pressed, now, way.early, sink.spacer.Value());
        assert sink.accepted[|log|..] == Changes(Emitted(s.queue, way.early));
      }
    }
  }
}
