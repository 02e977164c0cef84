/** The lane-key bridge: plans a frame once, submits it as far as the OS takes
    it, and resumes the same frame on a retry. */
module KeyboardSinks {
  import opened Protocol
  import opened KeyPlanner
  import opened KeyboardStates
  import opened PlannerLaws
  import opened KeySinks
  import opened SpacerModel
  import opened SpacerLaws
  import opened RepressSpacers
  import opened BridgeModel

  /** How the OS answers the writes of one call, in the order they can occur:
      discarding a half-write, a flush of deferred edges, and the frame itself. */
  datatype OsAnswers = OsAnswers(
    discard: WriteAnswer,
    flushSync: WriteAnswer, flushBulk: WriteAnswer,
    sync: WriteAnswer, bulk: WriteAnswer)
  {
    /** The OS takes everything it is given, up to `n` changes. */
    predicate Generous(n: nat) {
      discard.Wrote? && discard.count >= 2 && Willing(sync, bulk, n)
    }
  }

  datatype PendingFrame = PendingFrame(sequence: Option<nat>, changes: seq<KeyChange>, applied: nat)

  /** How a spaced attempt went: whether its first flush succeeded, the positions
      that flush emitted, what waited between the flushes, and the positions the
      second flush emitted. */
  datatype Passage = Passage(served: bool, early: set<nat>, between: Spacer, late: set<nat>)

  /** The OS takes an owed SYN and a whole batch of `n` changes. */
  predicate Willing(sync: WriteAnswer, bulk: WriteAnswer, n: nat) {
    sync.Wrote? && sync.count > 0 && bulk.Wrote? && bulk.count >= 2 * n
  }

  class KeyboardSink {
    const lanes: nat
    const sink: KeySink
    const spacer: RepressSpacer?
    var state: KeyboardState
    var nextState: KeyboardState
    var pressed: seq<bool>
    var pending: PendingFrame
    /** Every key change the OS accepted, in order. */
    ghost var accepted: seq<KeyChange>

    ghost function Parts(): set<object?>
      reads this
    {
      {this, sink, state, nextState} + (if spacer == null then {} else {spacer})
    }

    ghost predicate Valid(now: Instant)
      reads this, Parts()
    {
      && lanes > 0 && state != nextState
      && Current().Shaped(lanes)
      && nextState.Value().Shaped(lanes)
      && OnLanes(pending.changes, lanes) && pending.applied <= |pending.changes|
      && Faithful(sink.Value(), pressed) && accepted == sink.reported
      && (spacer != null ==> spacer.Valid(pressed, now))
    }

    ghost function Current(): Bridge
      reads this, state
    {
      Bridge(state.Value(), pressed)
    }

    /** The kernel was told exactly the accepted changes, each with its SYN, and
        besides them only half-writes: closed ones, and perhaps one at the end. */
    lemma KernelTold(now: Instant)
      requires Valid(now)
      ensures accepted == sink.reported && Explained(sink.Value())
    {
    }

    /** What `frame` still asks for: the rest of its plan, or its whole plan. */
    ghost function Owed(frame: TouchFrame): Draft
      requires lanes > 0 && Current().Shaped(lanes) && pending.applied <= |pending.changes|
      reads this, state, nextState
    {
      if pending.sequence.Some? && !frame.ReleasesAll() && !frame.EmptyHeartbeat()
      then Draft(nextState.Value(), pending.changes[pending.applied..])
      else Asked(Current(), lanes, frame, spacer != null)
    }

    /** A half-written change is the next one owed by the pending frame, so that
        a retry of the frame starts with it. */
    ghost predicate Resumable()
      reads this, sink
    {
      match sink.pending
      case None => true
      case Some(CleanupSync) => false
      case Some(Change(c)) =>
        pending.sequence.Some? && pending.applied < |pending.changes| && pending.changes[pending.applied] == c
    }

    /** No other frame is partially applied. */
    ghost predicate NotBusyWith(frame: TouchFrame)
      reads this
    {
      pending.sequence.None? || pending.sequence == Some(frame.sequence)
    }

    constructor (lanes: nat, gap: Option<int>)
      requires lanes > 0 && (gap.Some? ==> gap.value > 0)
      ensures fresh(Parts()) && this.lanes == lanes && (spacer == null <==> gap.None?)
      ensures forall now :: Valid(now)
      ensures Current() == Bridge(Idle(lanes), seq(lanes, _ => false))
      ensures pending.sequence.None? && sink.pending.None? && accepted == []
      ensures spacer != null ==> spacer.queue == [] && spacer.gap == gap.value
    {
      this.lanes := lanes;
      sink := new KeySink();
      state := new KeyboardState(lanes);
      nextState := new KeyboardState(lanes);
      pressed := seq(lanes, _ => false);
      pending := PendingFrame(None, [], 0);
      accepted := [];
      if gap.Some? {
        spacer := new RepressSpacer(lanes, gap.value);
      } else {
        spacer := null;
      }
    }

    method HasActiveInput() returns (active: bool)
      ensures !active <==>
        && (forall lane :: 0 <= lane < |pressed| ==> !pressed[lane])
        && sink.pending.None?
        && (spacer != null ==> spacer.queue == [])
    {
      active := true in pressed || sink.pending.Some? || (spacer != null && spacer.queue != []);
    }

    /** With spacing: every lane is headed for the state its holders ask for. */
    ghost predicate Headed()
      reads this, state, nextState, spacer
    {
      spacer != null ==>
        var target := if pending.sequence.Some? then nextState.Value() else state.Value();
        && Counted(state.Value()) && Counted(target)
        && (pending.sequence.Some? ==> pending.applied == |pending.changes|)
        && |target.holds| == |pressed|
        && forall lane :: 0 <= lane < |pressed| ==>
             Scheduled(spacer.queue, lane, pressed[lane]) == (target.holds[lane] > 0)
    }

    /** Submits deferred edges that are now due. */
    method ServiceAt(now: Instant, sync: WriteAnswer, bulk: WriteAnswer) returns (r: Result<()>, ghost out: set<nat>)
      requires Valid(now)
      modifies this`pressed, this`accepted, sink, spacer
      ensures Valid(now)
      ensures old(Headed()) ==> Headed()
      ensures spacer == null ==> r.Ok? && unchanged(this, sink)
      ensures spacer != null ==>
        FlushEffect(old(spacer.Value()), old(spacer.log), old(pressed), now, out, spacer.Value(), spacer.log, pressed)
      ensures spacer != null ==> accepted == old(accepted) + Changes(Emitted(old(spacer.queue), out))
      ensures spacer != null && r.Ok? ==> Selection(old(spacer.queue), now, out) && Selection(spacer.queue, now, {})
      ensures spacer != null && r.Ok? && out == {} ==> spacer.Value() == old(spacer.Value())
      ensures spacer != null ==> |spacer.queue| <= |old(spacer.queue)|
      ensures spacer != null && old(sink.pending).None? && bulk.Wrote? && bulk.count >= 2 * |old(spacer.queue)| ==>
        r.Ok? && sink.pending.None?
    {
      hide Good, Separated, Recorded, Faithful, FlushEffect, Emitted, Selection, Cut, Refused;
      out := {};
      if spacer == null {
        return Ok(()), out;
      }
      ghost var before, log, states := spacer.Value(), spacer.log, pressed;
      pressed, r, out := spacer.Flush(now, sink, pressed, sync, bulk);
      accepted := accepted + Changes(Emitted(before.queue, out));
      EffectScheduled(before, log, states, now, out, spacer.Value(), spacer.log, pressed);
    }

    method CollectReleases() returns (changes: seq<KeyChange>)
      ensures changes == Releases(pressed)
    {
      changes := [];
      var lane := 0;
      while lane < |pressed|
        invariant 0 <= lane <= |pressed|
        invariant changes == Releases(pressed[..lane])
      {
        assert pressed[..lane + 1][..lane] == pressed[..lane];
        if pressed[lane] {
          changes := changes + [KeyChange(lane, false, false)];
        }
        lane := lane + 1;
      }
      assert pressed[..lane] == pressed;
    }

    method ClearState()
      requires |state.laneHolds| == lanes
      modifies state
      ensures state.Value() == Idle(lanes)
    {
      state.pointerLanes := seq(POINTER_ID_COUNT, _ => None);
      state.pressureSuppressed := seq(POINTER_ID_COUNT, _ => false);
      state.laneHolds := seq(lanes, _ => 0);
    }

    /** Marks the first `n` releases as done; the spacer learns of every one. */
    method NoteReleased(n: nat, now: Instant)
      requires n <= |pending.changes| && pending.changes == Releases(pressed) && |pressed| == lanes
      requires spacer != null ==> spacer.Valid(pressed, now) && spacer.queue == []
      modifies this`pressed, spacer
      ensures pressed == Applied(old(pressed), pending.changes[..n])
      ensures spacer != null ==> spacer.Valid(pressed, now) && spacer.queue == []
    {
      hide Separated, Recorded, Releases, Applied;
      var i := 0;
      AppliedNothing(pressed);
      assert pending.changes[..0] == [];
      while i < n
        invariant 0 <= i <= n
        invariant pressed == Applied(old(pressed), pending.changes[..i])
        invariant spacer != null ==> spacer.Valid(pressed, now) && spacer.queue == []
      {
        var change := pending.changes[i];
        ReleasesAreUps(old(pressed), i);
        AppliedPush(old(pressed), pending.changes[..i], change);
        assert pending.changes[..i + 1] == pending.changes[..i] + [change];
        pressed := pressed[change.lane := false];
        if spacer != null {
          spacer.NoteRelease(change.lane, now);
        }
        i := i + 1;
      }
    }

    /** Hands the collected releases to the OS and records those it accepted. */
    method SubmitReleases(now: Instant, sync: WriteAnswer, bulk: WriteAnswer) returns (r: Result<()>, ghost n: nat)
      requires Valid(now) && pending == PendingFrame(None, Releases(pressed), 0) && (spacer != null ==> spacer.queue == [])
      modifies this`pressed, this`accepted, sink, spacer
      ensures Valid(now) && (spacer != null ==> spacer.queue == [])
      ensures n <= |pending.changes| && (r.Ok? ==> n == |pending.changes|)
      ensures accepted == old(accepted) + pending.changes[..n]
      ensures pressed == Applied(old(pressed), pending.changes[..n])
      ensures r.Ok? && old(sink.pending).None? ==> sink.pending.None?
      ensures old(sink.pending).None? && bulk.Wrote? && bulk.count >= 2 * lanes ==> r.Ok?
    {
      hide Good, Separated, Recorded, Faithful, Releases, Applied;
      n := 0;
      AppliedNothing(pressed);
      assert pending.changes[..0] == [];
      ReleasesLength(pressed);
      var submitted := Deliver(sink, pending.changes, pressed, sync, bulk);
      if submitted.Err? {
        return Err(submitted.error), n;
      }
      n := submitted.value;
      NoteReleased(submitted.value, now);
      accepted := accepted + pending.changes[..n];
      r := if submitted.value == |pending.changes| then Ok(()) else Err(Incomplete);
    }

    /** Drops the pending frame and every deferred edge, then releases what is pressed. */
    method ReleaseAllWith(now: Instant, sync: WriteAnswer, bulk: WriteAnswer) returns (r: Result<()>, ghost n: nat)
      requires Valid(now)
      modifies Parts()
      ensures Valid(now) && state == old(state) && nextState == old(nextState) && nextState.Value() == old(nextState.Value())
      ensures n <= |Releases(old(pressed))|
      ensures accepted == old(accepted) + Releases(old(pressed))[..n]
      ensures pressed == Applied(old(pressed), Releases(old(pressed))[..n])
      ensures pending.sequence.None? && (spacer != null ==> spacer.queue == [])
      ensures r.Ok? ==> n == |Releases(old(pressed))| && state.Value() == Idle(lanes)
      ensures r.Err? ==> state.Value() == old(state.Value())
      ensures old(sink.pending).None? && r.Ok? ==> sink.pending.None?
      ensures old(sink.pending).None? && bulk.Wrote? && bulk.count >= 2 * lanes ==> r.Ok?
    {
      hide Separated, Recorded, Faithful, Releases, Applied;
      var changes := CollectReleases();
      pending := PendingFrame(None, changes, 0);
      if spacer != null {
        spacer.Clear();
      }
      n := 0;
      if changes == [] {
        assert changes[..0] == [];
        AppliedNothing(pressed);
        ClearState();
        return Ok(()), n;
      }
      r, n := SubmitReleases(now, sync, bulk);
      if r.Ok? {
        ClearState();
      }
    }
  
    method PlanPending(frame: TouchFrame, now: Instant)
      requires Valid(now) && pending.sequence.None?
      modifies this`pending, nextState
      ensures var d := Plan(state.Value(), lanes, frame, spacer != null);
        pending == PendingFrame(Some(frame.sequence), d.changes, 0) && nextState.Value() == d.fingers
    {
      var changes := PlanInto(state, lanes, frame, spacer != null, nextState);
      pending := PendingFrame(Some(frame.sequence), changes, 0);
    }

    /** The plan is fully submitted: its holds become current. */
    method FinishPending()
      modifies this`state, this`nextState, this`pending
      ensures state == old(nextState) && nextState == old(state)
      ensures pending == old(pending).(sequence := None)
      ensures old(pending.sequence.Some? && Headed()) ==> Headed()
    {
      state, nextState := nextState, state;
      pending := pending.(sequence := None);
    }

    /** What the planned frame has not submitted yet. */
    ghost function Rest(): seq<KeyChange>
      requires pending.applied <= |pending.changes|
      reads this
    {
      pending.changes[pending.applied..]
    }

    /** Without spacing: submits what the pending frame still owes. */
    method SubmitRest(now: Instant, sync: WriteAnswer, bulk: WriteAnswer) returns (r: Result<()>, ghost n: nat)
      requires Valid(now) && spacer == null && pending.sequence.Some? && Rest() != []
      modifies this`pressed, this`pending, this`accepted, sink
      ensures Valid(now)
      ensures n <= |old(Rest())| && (r.Ok? <==> n == |old(Rest())|)
      ensures accepted == old(accepted) + old(Rest())[..n]
      ensures pressed == Applied(old(pressed), old(Rest())[..n])
      ensures pending == old(pending).(applied := old(pending.applied) + n)
      ensures old(Resumable()) ==> Resumable()
      ensures old(Resumable()) && Willing(sync, bulk, |old(Rest())|) ==> r.Ok?
    {
      hide Good, Separated, Recorded, Faithful, Applied, Encode, Refused, Submitted;
      RefusedMeans(sink.Value(), Rest(), sync, bulk);
      n := 0;
      var first := pending.applied;
      var remaining := pending.changes[first..];
      AppliedNothing(pressed);
      assert remaining[..0] == [];
      var submitted := Deliver(sink, remaining, pressed, sync, bulk);
      if submitted.Err? {
        return Err(submitted.error), n;
      }
      n := submitted.value;
      assert forall k :: 0 <= k < |remaining| ==> remaining[k] == pending.changes[first + k];
      pressed := RecordStates(remaining[..submitted.value]);
      accepted := accepted + remaining[..n];
      pending := pending.(applied := first + submitted.value);
      r := if submitted.value == |remaining| then Ok(()) else Err(Incomplete);
    }

    method RecordStates(changes: seq<KeyChange>) returns (states: seq<bool>)
      requires OnLanes(changes, |pressed|)
      ensures states == Applied(pressed, changes)
    {
      states := pressed;
      var i := 0;
      assert Applied(pressed, changes[..0]) == pressed;
      while i < |changes|
        invariant 0 <= i <= |changes|
        invariant states == Applied(pressed, changes[..i])
      {
        AppliedPush(pressed, changes[..i], changes[i]);
        assert changes[..i + 1] == changes[..i] + [changes[i]];
        states := states[changes[i].lane := changes[i].down];
        i := i + 1;
      }
      assert changes[..i] == changes;
    }
  
    /** With spacing: queues the planned changes once, leaving their lanes headed where the plan leads. */
    method EnqueuePending(now: Instant)
      requires spacer != null && spacer.Valid(pressed, now)
      requires OnLanes(pending.changes, |pressed|) && pending.applied <= |pending.changes|
      modifies this`pending, spacer`queue
      ensures spacer.Valid(pressed, now) && pending == old(pending).(applied := |old(pending.changes)|)
      ensures |old(spacer.lastEmitted)| == |pressed| && spacer.Value() == EnqueuedAll(old(spacer.Value()), old(Rest()), now, pressed)
      ensures |spacer.queue| <= |old(spacer.queue)| + |old(Rest())|
      ensures forall lane :: 0 <= lane < |pressed| ==>
        Scheduled(spacer.queue, lane, pressed[lane])
        == LaneAfter(Scheduled(old(spacer.queue), lane, pressed[lane]), old(Rest()), lane)
    {
      hide Good, Separated, Recorded, Enqueued, Waiting;
      ghost var before := spacer.Value();
      var changes := pending.changes[pending.applied..];
      EnqueuedAllGood(before, pressed, changes, now);
      var i := 0;
      while i < |changes|
        invariant 0 <= i <= |changes| && pending == old(pending)
        invariant spacer.Value() == EnqueuedAll(before, changes[..i], now, pressed)
      {
        assert changes[..i + 1][..i] == changes[..i];
        spacer.Enqueue(changes[i], now, pressed[changes[i].lane]);
        i := i + 1;
      }
      assert changes[..i] == changes;
      pending := pending.(applied := |pending.changes|);
    }
  
    /** A releasing frame, or a cancel: whatever is half-written is closed first. */
    method Release(now: Instant, discard: WriteAnswer, sync: WriteAnswer, bulk: WriteAnswer)
      returns (r: Result<()>, ghost n: nat)
      requires Valid(now)
      modifies Parts()
      ensures Valid(now) && state == old(state) && nextState == old(nextState) && nextState.Value() == old(nextState.Value())
      ensures n <= |Releases(old(pressed))|
      ensures accepted == old(accepted) + Releases(old(pressed))[..n]
      ensures pressed == Applied(old(pressed), Releases(old(pressed))[..n])
      ensures r.Ok? ==> n == |Releases(old(pressed))| && state.Value() == Idle(lanes) && sink.pending.None?
      ensures r.Ok? ==> pending.sequence.None? && (spacer != null ==> spacer.queue == [])
      ensures r.Err? ==> state.Value() == old(state.Value())
      ensures pending.sequence.None? || pending == old(pending)
      ensures discard.Wrote? && discard.count >= 2 && bulk.Wrote? && bulk.count >= 2 * lanes ==> r.Ok?
    {
      n := 0;
      assert Applied(pressed, Releases(pressed)[..0]) == pressed;
      DiscardFaithful(sink.Value(), discard, pressed);
      r := sink.DiscardPending(discard);
      if r.Ok? {
        r, n := ReleaseAllWith(now, sync, bulk);
      }
    }

    /** Without spacing: plans the frame unless it is already pending, then submits what it owes. */
    method AcceptDirect(frame: TouchFrame, now: Instant, sync: WriteAnswer, bulk: WriteAnswer)
      returns (r: Result<()>, ghost n: nat)
      requires Valid(now) && spacer == null && !frame.ReleasesAll() && !frame.EmptyHeartbeat()
      modifies Parts()
      ensures Valid(now) && {state, nextState} == old({state, nextState})
      ensures n <= |old(Owed(frame)).changes|
      ensures accepted == old(accepted) + old(Owed(frame)).changes[..n]
      ensures pressed == Applied(old(pressed), old(Owed(frame)).changes[..n])
      ensures r.Ok? ==> n == |old(Owed(frame)).changes| && state.Value() == old(Owed(frame)).fingers && pending.sequence.None?
      ensures r.Err? ==> Owed(frame) == Draft(old(Owed(frame)).fingers, old(Owed(frame)).changes[n..])
      ensures r.Err? && old(pending.sequence).None? ==> pending.sequence == Some(frame.sequence)
      ensures r.Err? && old(pending.sequence).Some? ==> pending.sequence == old(pending.sequence)
      ensures old(Resumable()) ==> Resumable()
      ensures old(Resumable() && NotBusyWith(frame)) && Willing(sync, bulk, |old(Owed(frame)).changes|) ==> r.Ok?
    {
      hide Good, Separated, Recorded, Faithful, Plan;
      n := 0;
      assert Applied(pressed, Owed(frame).changes[..0]) == pressed;
      if pending.sequence.Some? && pending.sequence.value != frame.sequence {
        return Err(StillApplying), n;
      }
      if pending.sequence.None? {
        PlanPending(frame, now);
        assert Rest() == pending.changes;
      }
      if pending.applied == |pending.changes| {
        FinishPending();
        return Ok(()), n;
      }
      r, n := SubmitRest(now, sync, bulk);
      if r.Ok? {
        FinishPending();
      }
    }
  
    /** With spacing: nothing is half-written, and both flushes of the attempt are
        taken whole. */
    ghost predicate SpacedReady(frame: TouchFrame, os: OsAnswers)
      requires spacer != null && lanes > 0 && Current().Shaped(lanes) && pending.applied <= |pending.changes|
      reads this, sink, state, nextState, spacer
    {
      && sink.pending.None? && NotBusyWith(frame)
      && os.flushBulk.Wrote? && os.flushBulk.count >= 2 * |spacer.queue|
      && os.bulk.Wrote? && os.bulk.count >= 2 * (|spacer.queue| + |Owed(frame).changes|)
    }

    /** With spacing: the first flush serves what already waits, and the frame is
        looked at only if that flush succeeded. Its edges are queued at most once:
        a retry of a planned frame owes no changes, so nothing is queued again. */
    method AcceptSpaced(frame: TouchFrame, now: Instant, os: OsAnswers) returns (r: Result<()>, ghost way: Passage)
      requires Valid(now) && spacer != null && !frame.ReleasesAll()
      modifies Parts()
      ensures Valid(now) && {state, nextState} == old({state, nextState})
      ensures old(Headed()) && DistinctPointers(frame.contacts) ==> Headed()
      ensures r.Ok? && !frame.EmptyHeartbeat() ==>
        state.Value() == old(Owed(frame)).fingers && pending.sequence.None? && old(NotBusyWith(frame))
      ensures r.Err? || frame.EmptyHeartbeat() ==> state.Value() == old(state.Value())
      ensures r.Ok? ==> Selection(spacer.queue, now, {})
      ensures old(SpacedReady(frame, os)) ==> r.Ok? && sink.pending.None?
      ensures old(NotBusyWith(frame)) ==> NotBusyWith(frame)
      ensures FirstFlush(old(spacer.Value()), now, way) && (r.Ok? ==> way.served)
      ensures var ahead := Changes(Emitted(old(spacer.queue), way.early));
        if !way.served || frame.EmptyHeartbeat() || !old(NotBusyWith(frame)) then
          && pending == old(pending) && nextState.Value() == old(nextState.Value())
          && spacer.Value() == way.between && accepted == old(accepted) + ahead && pressed == Applied(old(pressed), ahead)
        else
          && (r.Err? ==> pending.sequence == Some(frame.sequence) && nextState.Value() == old(Owed(frame)).fingers)
          && SecondFlush(way.between, way.late, old(Owed(frame)).changes, Applied(old(pressed), ahead), now, old(accepted) + ahead)
    {
      hide Good, Separated, Recorded, Faithful, FlushEffect, Selection, Headed, SecondFlush, Applied, Emitted, EnqueuedAll;
      ghost var before := spacer.Value();
      ghost var out;
      r, out := ServiceAt(now, os.flushSync, os.flushBulk);
      way := Passage(r.Ok?, out, spacer.Value(), {});
      FirstFlushed(before, old(spacer.log), old(pressed), now, spacer.log, pressed, way);
      if r.Err? || frame.EmptyHeartbeat() {
        return;
      }
      if pending.sequence.Some? && pending.sequence.value != frame.sequence {
        return Err(StillApplying), way;
      }
      r, out := SubmitSpaced(frame, now, os);
      way := way.(late := out);
    }

    /** The queue with the frame's changes behind it, and the part of it that went out. */
    ghost predicate SecondFlush(between: Spacer, late: set<nat>, changes: seq<KeyChange>, before: seq<bool>, now: Instant, log: seq<KeyChange>)
      reads this, spacer
    {
      && spacer != null && |between.last| == |before| && OnLanes(changes, |before|)
      && var all := EnqueuedAll(between, changes, now, before);
         && FlushedPart(all, now, late, spacer.Value())
         && pressed == Applied(before, Changes(Emitted(all.queue, late)))
         && accepted == log + Changes(Emitted(all.queue, late))
    }

    /** The second half of an attempt: queue the frame's edges and flush what is due. */
    method SubmitSpaced(frame: TouchFrame, now: Instant, os: OsAnswers) returns (r: Result<()>, ghost late: set<nat>)
      requires Valid(now) && spacer != null && NotBusyWith(frame) && !frame.ReleasesAll() && !frame.EmptyHeartbeat()
      modifies Parts()
      ensures Valid(now) && {state, nextState} == old({state, nextState})
      ensures old(Headed()) && DistinctPointers(frame.contacts) ==> Headed()
      ensures r.Ok? ==> state.Value() == old(Owed(frame)).fingers && pending.sequence.None?
      ensures r.Err? ==> pending.sequence == Some(frame.sequence)
      ensures r.Err? ==> state.Value() == old(state.Value()) && nextState.Value() == old(Owed(frame)).fingers
      ensures r.Ok? ==> Selection(spacer.queue, now, {})
      ensures old(sink.pending).None? && os.bulk.Wrote? && os.bulk.count >= 2 * (|old(spacer.queue)| + |old(Owed(frame)).changes|) ==>
        r.Ok? && sink.pending.None?
      ensures SecondFlush(old(spacer.Value()), late, old(Owed(frame)).changes, old(pressed), now, old(accepted))
    {
      hide Good, Separated, Recorded, Faithful, FlushEffect, Selection, Headed, Applied, Emitted, EnqueuedAll;
      PlanSpaced(frame, now);
      ghost var all, log, states := spacer.Value(), spacer.log, pressed;
      r, late := ServiceAt(now, os.sync, os.bulk);
      FirstFlushed(all, log, states, now, spacer.log, pressed, Passage(false, late, spacer.Value(), {}));
      if r.Ok? {
        FinishPending();
      }
    }

    /** With spacing: after this the frame is pending and all its edges are queued. */
    method PlanSpaced(frame: TouchFrame, now: Instant)
      requires Valid(now) && spacer != null && NotBusyWith(frame) && !frame.ReleasesAll() && !frame.EmptyHeartbeat()
      modifies this`pending, nextState, spacer`queue
      ensures Valid(now) && pending.sequence == Some(frame.sequence)
      ensures nextState.Value() == old(Owed(frame)).fingers
      ensures |old(spacer.lastEmitted)| == |pressed| && OnLanes(old(Owed(frame)).changes, |pressed|)
      ensures spacer.Value() == EnqueuedAll(old(spacer.Value()), old(Owed(frame)).changes, now, pressed)
      ensures |spacer.queue| <= |old(spacer.queue)| + |old(Owed(frame)).changes|
      ensures old(Headed()) && DistinctPointers(frame.contacts) ==> Headed()
    {
      if pending.sequence.None? {
        if Headed() && DistinctPointers(frame.contacts) {
          PlanCorrect(state.Value(), lanes, frame, true);
        }
        PlanPending(frame, now);
        assert Rest() == pending.changes;
      } else {
        assert pending.applied == |pending.changes| ==> Rest() == [];
      }
      EnqueuePending(now);
    }

    method AcceptReleasing(frame: TouchFrame, now: Instant, os: OsAnswers) returns (r: Result<()>, ghost n: nat)
      requires Valid(now) && frame.ReleasesAll()
      modifies Parts()
      ensures Valid(now) && {state, nextState} == old({state, nextState})
      ensures Committed(frame, r.Ok?, old(state.Value()), old(nextState.Value()), old(pending), old(Owed(frame)).fingers)
      ensures Delivered(old(Owed(frame)), old(pressed), old(accepted), n)
      ensures r.Ok? ==> Finished(old(Owed(frame)), n) && sink.pending.None? && pending.sequence.None?
      ensures r.Ok? && spacer != null ==> spacer.queue == []
      ensures r.Err? ==> Owed(frame) == Draft(old(Owed(frame)).fingers, old(Owed(frame)).changes[n..])
      ensures old(NotBusyWith(frame)) ==> NotBusyWith(frame)
      ensures os.Generous(lanes) ==> r.Ok?
      ensures r.Ok? ==> Headed()
    {
      r, n := Release(now, os.discard, os.sync, os.bulk);
      ReleasesCut(old(pressed), n);
      if r.Ok? {
        IdleCounted(lanes);
        ReleasesAll(old(pressed));
        assert Releases(old(pressed))[..n] == Releases(old(pressed));
      }
    }

    /** A generous OS, and a half-write the frame itself resumes or closes. */
    ghost predicate ReadyFor(frame: TouchFrame, os: OsAnswers)
      requires lanes > 0 && Current().Shaped(lanes) && pending.applied <= |pending.changes|
      reads this, sink, state, nextState
    {
      && (frame.ReleasesAll() || (Resumable() && NotBusyWith(frame)))
      && os.Generous(lanes + |Owed(frame).changes|)
    }

    /** One delivery attempt of a frame. Without spacing, `n` of the changes it
        still owes were accepted. */
    method AcceptAt(frame: TouchFrame, now: Instant, os: OsAnswers) returns (r: Result<()>, ghost n: nat)
      requires Valid(now)
      modifies Parts()
      ensures Valid(now) && {state, nextState} == old({state, nextState})
      ensures spacer == null ==> Delivered(old(Owed(frame)), old(pressed), old(accepted), n)
      ensures spacer == null && r.Ok? ==> Finished(old(Owed(frame)), n)
      ensures spacer == null && r.Err? ==> Owed(frame) == Draft(old(Owed(frame)).fingers, old(Owed(frame)).changes[n..])
      ensures spacer == null && old(Resumable() && NotBusyWith(frame)) ==> Resumable() || frame.ReleasesAll()
      ensures spacer == null && frame.EmptyHeartbeat() && !frame.ReleasesAll() ==> r.Ok? && pending == old(pending)
      ensures spacer == null && old(ReadyFor(frame, os)) ==> r.Ok?
      ensures spacer != null && !frame.ReleasesAll() && old(SpacedReady(frame, os)) ==> r.Ok? && sink.pending.None?
      ensures frame.ReleasesAll() && os.Generous(lanes) ==> r.Ok?
      ensures spacer != null && frame.ReleasesAll() && r.Ok? ==> spacer.queue == [] && pending.sequence.None?
      ensures spacer != null ==> Committed(frame, r.Ok?, old(state.Value()), old(nextState.Value()), old(pending), old(Owed(frame)).fingers)
      ensures frame.ReleasesAll() && r.Ok? ==> sink.pending.None?
      ensures spacer != null && r.Ok? ==> Selection(spacer.queue, now, {})
      ensures old(NotBusyWith(frame)) ==> NotBusyWith(frame)
      ensures r.Ok? && (frame.EmptyHeartbeat() && !frame.ReleasesAll() ==> old(pending.sequence).None?) ==> pending.sequence.None?
      ensures old(Headed()) && DistinctPointers(frame.contacts) && (r.Ok? || !frame.ReleasesAll()) ==> Headed()
      ensures frame.ReleasesAll() && r.Ok? ==> Headed()
    {
      n := 0;
      if frame.sessionStart || frame.action == Cancel || !frame.locked {
        r, n := AcceptReleasing(frame, now, os);
      } else if spacer != null {
        ghost var way;
        r, way := AcceptSpaced(frame, now, os);
      } else if frame.EmptyHeartbeat() {
        assert Applied(pressed, []) == pressed;
        r := Ok(());
      } else {
        r, n := AcceptDirect(frame, now, os.sync, os.bulk);
      }
    }

    /** With spacing: what an attempt does to the holds. `owed` are those the frame leads to. */
    ghost predicate Committed(frame: TouchFrame, ok: bool, holds: Fingers, next: Fingers, before: PendingFrame, owed: Fingers)
      reads this, state, nextState
    {
      if ok && (frame.ReleasesAll() || !frame.EmptyHeartbeat()) then
        && state.Value() == owed && pending.sequence.None?
        && (frame.ReleasesAll() || before.sequence.None? || before.sequence == Some(frame.sequence))
      else
        && state.Value() == holds
        && (if pending.sequence.None? then before.sequence.None? || frame.ReleasesAll()
            else
              || (pending == before && nextState.Value() == next)
              || (&& pending.sequence == Some(frame.sequence) && !frame.ReleasesAll() && !frame.EmptyHeartbeat()
                  && (before.sequence.None? || before.sequence == Some(frame.sequence)) && nextState.Value() == owed))
    }

    ghost predicate Finished(owed: Draft, n: nat)
      reads this, state
    {
      n == |owed.changes| && state.Value() == owed.fingers
    }

    ghost predicate Delivered(owed: Draft, before: seq<bool>, log: seq<KeyChange>, n: nat)
      reads this
    {
      && n <= |owed.changes|
      && accepted == log + owed.changes[..n]
      && pressed == Applied(before, owed.changes[..n])
    }
  
    /** One wake-up at the deadline, with an OS that takes what it is given. */
    method Wake(now: Instant) returns (deadline: Instant)
      requires Valid(now) && spacer != null && sink.pending.None? && spacer.queue != []
      modifies this`pressed, this`accepted, sink, spacer
      ensures Valid(deadline) && deadline >= now && sink.pending.None?
      ensures old(Headed()) ==> Headed()
      ensures Shrinks(old(spacer.queue), now, spacer.queue, deadline)
    {
      hide Good, Separated, Recorded, Faithful, Headed, Shrinks, IsDeadline, Selection, Emitted, Flushed;
      var next := spacer.NextDeadline(now);
      deadline := next.value;
      GoodLater(spacer.Value(), pressed, now, deadline);
      ghost var before := spacer.Value();
      var r, out := ServiceAt(deadline, Failed, Wrote(2 * |spacer.queue|));
      WakeProgress(before, now, deadline, out, spacer.Value());
    }

    /** Waking at every deadline, with an OS that takes what it is given, empties
        the queue and leaves a key down exactly when some pointer holds its lane. */
    method Drain(now: Instant) returns (end: Instant)
      requires Valid(now) && spacer != null && sink.pending.None? && pending.sequence.None?
      modifies this`pressed, this`accepted, sink, spacer
      ensures Valid(end) && end >= now
      ensures spacer.queue == [] && sink.pending.None?
      ensures |state.laneHolds| == lanes == |pressed|
      ensures old(Headed()) ==> forall lane :: 0 <= lane < lanes ==> pressed[lane] == (state.laneHolds[lane] > 0)
    {
      end := now;
      while spacer.queue != []
        invariant Valid(end) && end >= now && sink.pending.None? && (old(Headed()) ==> Headed())
        decreases |spacer.queue|, Future(spacer.queue, end)
      {
        end := Wake(end);
      }
    }
  }

  /** Fewer edges wait, or the same edges with fewer dues still ahead. */
  ghost predicate Shrinks(before: seq<ScheduledEdge>, now: Instant, after: seq<ScheduledEdge>, later: Instant) {
    |after| < |before| || (after == before && Future(after, later) < Future(before, now))
  }

  lemma WakeProgress(before: Spacer, now: Instant, deadline: Instant, out: set<nat>, after: Spacer)
    requires before.queue != [] && IsDeadline(before.queue, now, deadline) && Selection(before.queue, deadline, out)
    requires after == Flushed(before, out, deadline) || (out == {} && after == before)
    requires out == {} ==> after == before
    ensures Shrinks(before.queue, now, after.queue, deadline)
  {
    DeadlineProgress(before.queue, now, deadline, out);
    KeptLength(before.queue, out);
    if out == {} {
      NothingKept(before.queue);
    }
  }

  lemma {:induction false} NothingKept(queue: seq<ScheduledEdge>)
    ensures Kept(queue, {}) == queue
  {
    if queue != [] {
      NothingKept(queue[..|queue| - 1]);
    }
  }

  /** A permitted part went out - or nothing did and nothing changed. */
  ghost predicate FlushedPart(before: Spacer, now: Instant, out: set<nat>, after: Spacer) {
    Emittable(before.queue, now, out) && (after == Flushed(before, out, now) || (out == {} && after == before))
  }

  /** The first flush: if it succeeded, everything that may go out did. */
  ghost predicate FirstFlush(before: Spacer, now: Instant, way: Passage) {
    FlushedPart(before, now, way.early, way.between) && (way.served ==> Selection(before.queue, now, way.early))
  }

  lemma FirstFlushed(before: Spacer, log: seq<LogEntry>, pressed: seq<bool>, now: Instant, longer: seq<LogEntry>, states: seq<bool>, way: Passage)
    requires FlushEffect(before, log, pressed, now, way.early, way.between, longer, states)
    ensures FlushedPart(before, now, way.early, way.between)
    ensures states == Applied(pressed, Changes(Emitted(before.queue, way.early)))
  {
  }

  lemma EffectScheduled(before: Spacer, log: seq<LogEntry>, pressed: seq<bool>, now: Instant, out: set<nat>,
                        after: Spacer, longer: seq<LogEntry>, states: seq<bool>)
    requires Good(before, pressed, now) && FlushEffect(before, log, pressed, now, out, after, longer, states)
    ensures |states| == |pressed| && |after.queue| <= |before.queue|
    ensures forall lane :: 0 <= lane < |pressed| ==>
      Scheduled(after.queue, lane, states[lane]) == Scheduled(before.queue, lane, pressed[lane])
  {
    FlushGood(before, pressed, now, out);
    FlushNothing(before, pressed, now);
    KeptLength(before.queue, out);
  }

  lemma {:induction false} ReleasesAreUps(pressed: seq<bool>, i: nat)
    requires i < |Releases(pressed)|
    ensures !Releases(pressed)[i].down && Releases(pressed)[i].lane < |pressed|
  {
    if i < |Releases(pressed[..|pressed| - 1])| {
      ReleasesAreUps(pressed[..|pressed| - 1], i);
    }
  }
}
