/** Whole runs with re-press spacing: the holds are the fold of the accepted
    frames, and draining the queue leaves exactly the held keys down. */
module SpacedRuns {
  import opened Protocol
  import opened KeyPlanner
  import opened PlannerLaws
  import opened PlannerBounds
  import opened KeySinks
  import opened SpacerModel
  import opened SpacerLaws
  import opened RepressSpacers
  import opened BridgeModel
  import opened KeyboardSinks
  import opened SinkRuns

  // ---------------------------------------------------------------- the queue is bounded

  function LaneSum(queue: seq<ScheduledEdge>, lanes: nat): nat {
    if lanes == 0 then 0 else LaneSum(queue, lanes - 1) + |Waiting(queue, lanes - 1)|
  }

  lemma {:induction false} LaneSumPush(queue: seq<ScheduledEdge>, e: ScheduledEdge, lanes: nat)
    ensures LaneSum(queue + [e], lanes) == LaneSum(queue, lanes) + (if e.change.lane < lanes then 1 else 0)
  {
    if lanes > 0 {
      LaneSumPush(queue, e, lanes - 1);
      WaitingPush(queue, e, lanes - 1);
    }
  }

  lemma {:induction false} LaneSumAll(queue: seq<ScheduledEdge>, lanes: nat)
    requires forall i :: 0 <= i < |queue| ==> queue[i].change.lane < lanes
    ensures LaneSum(queue, lanes) == |queue|
  {
    if queue == [] {
      LaneSumNone(lanes);
    } else {
      LaneSumAll(queue[..|queue| - 1], lanes);
      LaneSumPush(queue[..|queue| - 1], queue[|queue| - 1], lanes);
      assert queue == queue[..|queue| - 1] + [queue[|queue| - 1]];
    }
  }

  lemma {:induction false} LaneSumNone(lanes: nat)
    ensures LaneSum([], lanes) == 0
  {
    if lanes > 0 {
      LaneSumNone(lanes - 1);
    }
  }

  lemma {:induction false} LaneSumBound(queue: seq<ScheduledEdge>, lanes: nat)
    requires forall lane :: 0 <= lane < lanes ==> |Waiting(queue, lane)| <= MAX_WAITING_EDGES
    ensures LaneSum(queue, lanes) <= MAX_WAITING_EDGES * lanes
  {
    if lanes > 0 {
      LaneSumBound(queue, lanes - 1);
    }
  }

  /** At most three edges wait per lane. */
  lemma QueueBound(s: Spacer, pressed: seq<bool>, now: Instant)
    requires Good(s, pressed, now)
    ensures |s.queue| <= MAX_WAITING_EDGES * |pressed|
  {
    forall lane | 0 <= lane < |pressed| ensures |Waiting(s.queue, lane)| <= MAX_WAITING_EDGES {
      assert LaneGood(Waiting(s.queue, lane), s.last[lane], pressed[lane], now, s.gap);
    }
    LaneSumAll(s.queue, |pressed|);
    LaneSumBound(s.queue, |pressed|);
  }

  // ---------------------------------------------------------------- the fold

  /** The holds after the accepted steps; `frames[k]` is the frame that step `k` completed. */
  ghost function HoldsAfter(lanes: nat, steps: seq<SinkStep>, oks: seq<bool>, frames: seq<TouchFrame>): (f: Fingers)
    requires lanes > 0 && |steps| == |oks| == |frames|
    ensures f.Shaped(lanes)
  {
    if steps == [] then Idle(lanes)
    else
      var k := |steps| - 1;
      var before := HoldsAfter(lanes, steps[..k], oks[..k], frames[..k]);
      if !oks[k] then before
      else
        match steps[k]
        case Service(_, _) => before
        case Cancel(_, _) => Idle(lanes)
        case Accept(frame, _, _) =>
          if frame.ReleasesAll() then Idle(lanes)
          else if frame.EmptyHeartbeat() then before
          else Plan(before, lanes, frames[k], true).fingers
  }

  lemma HoldsPush(lanes: nat, steps: seq<SinkStep>, oks: seq<bool>, frames: seq<TouchFrame>, step: SinkStep, ok: bool, frame: TouchFrame)
    requires lanes > 0 && |steps| == |oks| == |frames|
    ensures HoldsAfter(lanes, steps + [step], oks + [ok], frames + [frame])
         == var before := HoldsAfter(lanes, steps, oks, frames);
            if !ok || step.Service? then before
            else if step.Cancel? || step.frame.ReleasesAll() then Idle(lanes)
            else if step.frame.EmptyHeartbeat() then before
            else Plan(before, lanes, frame, true).fingers
  {
    assert (steps + [step])[..|steps|] == steps && (oks + [ok])[..|oks|] == oks && (frames + [frame])[..|frames|] == frames;
  }

  /** Frame `f` was offered by step `k`, or earlier under the same number. */
  ghost predicate Offered(steps: seq<SinkStep>, k: nat, f: TouchFrame) {
    && k < |steps| && steps[k].Accept? && f.sequence == steps[k].frame.sequence
    && exists j: nat :: OfferedAt(steps, j, k, f)
  }

  ghost predicate OfferedAt(steps: seq<SinkStep>, j: nat, k: nat, f: TouchFrame) {
    j <= k < |steps| && steps[j].Accept? && steps[j].frame == f
  }

  /** No cancel or releasing frame has failed since the last that succeeded. */
  ghost predicate Recovered(steps: seq<SinkStep>, oks: seq<bool>)
    requires |steps| == |oks|
  {
    steps == [] ||
    var k := |steps| - 1;
    if steps[k].Cancel? || (steps[k].Accept? && steps[k].frame.ReleasesAll()) then oks[k]
    else Recovered(steps[..k], oks[..k])
  }

  lemma RecoveredPush(steps: seq<SinkStep>, oks: seq<bool>, step: SinkStep, ok: bool)
    requires |steps| == |oks|
    ensures Recovered(steps + [step], oks + [ok])
       <==> if step.Cancel? || (step.Accept? && step.frame.ReleasesAll()) then ok else Recovered(steps, oks)
  {
    assert (steps + [step])[..|steps|] == steps && (oks + [ok])[..|oks|] == oks;
  }

  // ---------------------------------------------------------------- an OS that takes what it is given

  ghost predicate Takes(answer: WriteAnswer, n: nat) {
    answer.Wrote? && answer.count >= n
  }

  ghost predicate Ample(os: OsAnswers, lanes: nat) {
    && Takes(os.discard, 2) && Takes(os.sync, 1)
    && Takes(os.flushBulk, 2 * (MAX_WAITING_EDGES * lanes)) && Takes(os.bulk, 2 * (MAX_WAITING_EDGES * lanes + MaxKeyChanges(lanes)))
  }

  // ---------------------------------------------------------------- one step

  /** What the pending frame is, and that its plan started from the current holds. */
  ghost predicate PendingIs(sink: KeyboardSink, plan: TouchFrame)
    reads sink, sink.state, sink.nextState
  {
    && sink.lanes > 0 && sink.state.Value().Shaped(sink.lanes)
    && (sink.pending.sequence.Some? ==>
          && plan.sequence == sink.pending.sequence.value
          && sink.nextState.Value() == Plan(sink.state.Value(), sink.lanes, plan, true).fingers)
  }

  /** Nothing is half-written and no frame is part way. */
  ghost predicate Clear(sink: KeyboardSink)
    reads sink, sink.sink, sink.state
  {
    sink.sink.pending.None? && sink.pending.sequence.None? && Bounded(sink.state.Value())
  }

  ghost predicate Decodable(step: SinkStep) {
    step.Accept? ==> step.frame.Decoded()
  }

  ghost function StepHolds(before: Fingers, lanes: nat, step: SinkStep, ok: bool, frame: TouchFrame): Fingers
    requires lanes > 0 && before.Shaped(lanes)
  {
    if !ok || step.Service? then before
    else if step.Cancel? || step.frame.ReleasesAll() then Idle(lanes)
    else if step.frame.EmptyHeartbeat() then before
    else Plan(before, lanes, frame, true).fingers
  }

  predicate Resets(step: SinkStep) {
    step.Cancel? || (step.Accept? && step.frame.ReleasesAll())
  }

  /** One attempt of a frame. `done` is the frame whose plan it completed, `next`
      the frame pending afterwards, if any. */
  method AcceptStep(sink: KeyboardSink, step: SinkStep, ghost plan: TouchFrame)
    returns (ok: bool, ghost done: TouchFrame, ghost next: TouchFrame)
    requires step.Accept? && sink.Valid(step.at) && sink.spacer != null && PendingIs(sink, plan)
    modifies sink.Parts()
    ensures sink.Valid(step.at) && sink.Parts() == old(sink.Parts()) && PendingIs(sink, next)
    ensures sink.state.Value() == StepHolds(old(sink.state.Value()), sink.lanes, step, ok, done)
    ensures next == plan || next == step.frame
    ensures sink.pending.sequence.Some? && old(sink.pending.sequence).None? ==> next == step.frame
    ensures old(sink.pending.sequence).Some? ==> next == plan
    ensures old(sink.pending.sequence).None? ==> done == step.frame
    ensures done == step.frame || (done == plan && (ok && !Resets(step) && !step.frame.EmptyHeartbeat() ==> plan.sequence == step.frame.sequence))
    ensures if Resets(step) then ok ==> sink.Headed() else old(sink.Headed()) && Decodable(step) ==> sink.Headed()
    ensures old(Clear(sink) && sink.Headed()) && Ample(step.os, sink.lanes) && Decodable(step) ==> ok && Clear(sink)
  {
    hide Plan, KeyboardSink.Headed, Faithful, Applied, Releases;
    var frame := step.frame;
    if Clear(sink) && sink.Headed() && Ample(step.os, sink.lanes) && Decodable(step) {
      AmpleReady(sink, frame, step.at, step.os);
    }
    ghost var busy, before := sink.pending.sequence, sink.state.Value();
    next, done := plan, if busy.Some? then plan else frame;
    var r, n := sink.AcceptAt(frame, step.at, step.os);
    ok := r.Ok?;
    if sink.pending.sequence.Some? && busy.None? {
      next := frame;
    }
  }

  lemma AmpleReady(sink: KeyboardSink, frame: TouchFrame, now: Instant, os: OsAnswers)
    requires sink.Valid(now) && sink.spacer != null && Clear(sink) && sink.Headed() && Ample(os, sink.lanes) && frame.Decoded()
    ensures sink.SpacedReady(frame, os) && os.Generous(sink.lanes)
    ensures Bounded(Asked(sink.Current(), sink.lanes, frame, true).fingers)
  {
    QueueBound(sink.spacer.Value(), sink.pressed, now);
    AskedBounded(sink.Current(), sink.lanes, frame, true);
    IdleCounted(sink.lanes);
    if !frame.ReleasesAll() && !frame.EmptyHeartbeat() {
      PlanBounded(sink.state.Value(), sink.lanes, frame, true);
    }
  }

  method Perform(sink: KeyboardSink, step: SinkStep, ghost plan: TouchFrame)
    returns (ok: bool, ghost done: TouchFrame, ghost next: TouchFrame)
    requires sink.Valid(step.at) && sink.spacer != null && PendingIs(sink, plan)
    modifies sink.Parts()
    ensures sink.Valid(step.at) && sink.Parts() == old(sink.Parts()) && PendingIs(sink, next)
    ensures sink.state.Value() == StepHolds(old(sink.state.Value()), sink.lanes, step, ok, done)
    ensures next == plan || (step.Accept? && next == step.frame)
    ensures sink.pending.sequence.Some? && old(sink.pending.sequence).None? ==> step.Accept? && next == step.frame
    ensures old(sink.pending.sequence).Some? ==> next == plan
    ensures step.Accept? && old(sink.pending.sequence).None? ==> done == step.frame
    ensures step.Accept? ==>
      done == step.frame || (done == plan && (ok && !Resets(step) && !step.frame.EmptyHeartbeat() ==> plan.sequence == step.frame.sequence))
    ensures if Resets(step) then ok ==> sink.Headed() else old(sink.Headed()) && Decodable(step) ==> sink.Headed()
    ensures old(Clear(sink) && sink.Headed()) && Ample(step.os, sink.lanes) && Decodable(step) ==> ok && Clear(sink)
  {
    hide Plan, KeyboardSink.Headed, Faithful, Applied, Releases, Good;
    ok, done, next := true, plan, plan;
    match step
    case Accept(frame, at, os) =>
      ok, done, next := AcceptStep(sink, step, plan);
    case Service(at, os) =>
      ok := ServiceStep(sink, at, os);
    case Cancel(at, os) =>
      ok := CancelStep(sink, at, os);
  }

  method ServiceStep(sink: KeyboardSink, at: Instant, os: OsAnswers) returns (ok: bool)
    requires sink.Valid(at) && sink.spacer != null
    modifies sink`pressed, sink`accepted, sink.sink, sink.spacer
    ensures sink.Valid(at)
    ensures old(sink.Headed()) ==> sink.Headed()
    ensures old(Clear(sink)) && Ample(os, sink.lanes) ==> ok && Clear(sink)
  {
    hide Good, Faithful, Separated, Recorded, KeyboardSink.Headed, FlushEffect;
    QueueFits(sink, at);
    var r, out := sink.ServiceAt(at, os.flushSync, os.flushBulk);
    ok := r.Ok?;
  }

  lemma QueueFits(sink: KeyboardSink, now: Instant)
    requires sink.Valid(now) && sink.spacer != null
    ensures |sink.spacer.queue| <= MAX_WAITING_EDGES * sink.lanes
  {
    QueueBound(sink.spacer.Value(), sink.pressed, now);
  }

  method CancelStep(sink: KeyboardSink, at: Instant, os: OsAnswers) returns (ok: bool)
    requires sink.Valid(at) && sink.spacer != null
    modifies sink.Parts()
    ensures sink.Valid(at) && sink.Parts() == old(sink.Parts())
    ensures sink.state.Value() == if ok then Idle(sink.lanes) else old(sink.state.Value())
    ensures ok ==> sink.Headed() && Clear(sink)
    ensures old(sink.pending.sequence).None? ==> sink.pending.sequence.None?
    ensures forall plan :: old(PendingIs(sink, plan)) ==> PendingIs(sink, plan)
    ensures Ample(os, sink.lanes) ==> ok
  {
    hide Plan, Faithful, Applied, Releases;
    ghost var held := sink.pressed;
    var r, n := sink.Release(at, os.discard, os.sync, os.bulk);
    ok := r.Ok?;
    if ok {
      ReleasesAll(held);
      IdleCounted(sink.lanes);
      assert Releases(held)[..n] == Releases(held);
    }
  }

  // ---------------------------------------------------------------- whole runs

  /** What holds between two steps of a run. */
  ghost predicate Running(sink: KeyboardSink, steps: seq<SinkStep>, oks: seq<bool>, frames: seq<TouchFrame>, plan: TouchFrame, now: Instant)
    reads sink, sink.Parts()
  {
    && sink.Valid(now) && sink.spacer != null && sink.lanes > 0 && |steps| == |oks| == |frames|
    && PendingIs(sink, plan)
    && sink.state.Value() == HoldsAfter(sink.lanes, steps, oks, frames)
    && (Recovered(steps, oks) ==> sink.Headed())
    && (sink.pending.sequence.Some? ==> exists j: nat :: Known(steps, j, plan))
    && (forall k :: 0 <= k < |steps| && steps[k].Accept? ==> Completes(steps, oks, frames, k))
  }

  ghost predicate Known(steps: seq<SinkStep>, j: nat, plan: TouchFrame) {
    j < |steps| && steps[j].Accept? && steps[j].frame == plan
  }

  /** A step that completes a planned frame completes one offered under its number. */
  ghost predicate Completes(steps: seq<SinkStep>, oks: seq<bool>, frames: seq<TouchFrame>, k: nat)
    requires |steps| == |oks| == |frames| && k < |steps| && steps[k].Accept?
  {
    oks[k] && !Resets(steps[k]) && !steps[k].frame.EmptyHeartbeat() ==> Offered(steps, k, frames[k])
  }

  /** In a run so far every step met an OS that takes what it is given. */
  ghost predicate AllAmple(steps: seq<SinkStep>, lanes: nat) {
    forall k :: 0 <= k < |steps| ==> Ample(steps[k].os, lanes)
  }

  lemma {:induction false} AllDone(steps: seq<SinkStep>, oks: seq<bool>)
    requires |steps| == |oks| && forall k :: 0 <= k < |oks| ==> oks[k]
    ensures Recovered(steps, oks)
  {
    if steps != [] {
      AllDone(steps[..|steps| - 1], oks[..|oks| - 1]);
    }
  }

  lemma CompletesPush(steps: seq<SinkStep>, oks: seq<bool>, frames: seq<TouchFrame>, plan: TouchFrame,
                      step: SinkStep, ok: bool, done: TouchFrame, k: nat)
    requires |steps| == |oks| == |frames| && k <= |steps| && (steps + [step])[k].Accept?
    requires k < |steps| ==> Completes(steps, oks, frames, k)
    requires k == |steps| && ok && !Resets(step) && !step.frame.EmptyHeartbeat() ==>
      done == step.frame || (plan.sequence == step.frame.sequence && done == plan && exists j: nat :: Known(steps, j, plan))
    ensures Completes(steps + [step], oks + [ok], frames + [done], k)
  {
    var more := steps + [step];
    if (oks + [ok])[k] && !Resets(more[k]) && !more[k].frame.EmptyHeartbeat() {
      if k < |steps| {
        var j: nat :| OfferedAt(steps, j, k, frames[k]);
        assert OfferedAt(more, j, k, frames[k]);
      } else if done == step.frame {
        assert OfferedAt(more, k, k, done);
      } else {
        var j: nat :| Known(steps, j, plan);
        assert OfferedAt(more, j, k, done);
      }
    }
  }

  lemma StillKnown(steps: seq<SinkStep>, step: SinkStep, plan: TouchFrame, next: TouchFrame, busy: bool)
    requires if busy then next == plan && exists j: nat :: Known(steps, j, plan) else step.Accept? && next == step.frame
    ensures exists j: nat :: Known(steps + [step], j, next)
  {
    if busy {
      var j: nat :| Known(steps, j, plan);
      assert Known(steps + [step], j, next);
    } else {
      assert Known(steps + [step], |steps|, next);
    }
  }

  /** One more step of a run. */
  method RunOn(sink: KeyboardSink, ghost steps: seq<SinkStep>, ghost oks: seq<bool>, ghost frames: seq<TouchFrame>, ghost plan: TouchFrame,
               step: SinkStep)
    returns (ok: bool, ghost done: TouchFrame, ghost next: TouchFrame)
    requires Running(sink, steps, oks, frames, plan, step.at) && Decodable(step)
    modifies sink.Parts()
    ensures Running(sink, steps + [step], oks + [ok], frames + [done], next, step.at) && sink.Parts() == old(sink.Parts())
    ensures old(Clear(sink) && sink.Headed()) && Ample(step.os, sink.lanes) ==> ok && Clear(sink) && sink.Headed()
  {
    hide Plan, KeyboardSink.Headed, KeyboardSink.Valid, HoldsAfter, Recovered, PendingIs, Clear, Ample, Known, Completes;
    ghost var busy := sink.pending.sequence;
    ok, done, next := Perform(sink, step, plan);
    HoldsPush(sink.lanes, steps, oks, frames, step, ok, done);
    RecoveredPush(steps, oks, step, ok);
    if sink.pending.sequence.Some? {
      StillKnown(steps, step, plan, next, busy.Some?);
    }
    forall k | 0 <= k < |steps| + 1 && (steps + [step])[k].Accept?
      ensures Completes(steps + [step], oks + [ok], frames + [done], k)
    {
      CompletesPush(steps, oks, frames, plan, step, ok, done, k);
    }
  }

  lemma RunningLater(sink: KeyboardSink, steps: seq<SinkStep>, oks: seq<bool>, frames: seq<TouchFrame>, plan: TouchFrame, before: Instant, now: Instant)
    requires Running(sink, steps, oks, frames, plan, before) && before <= now
    ensures Running(sink, steps, oks, frames, plan, now)
  {
    ValidLater(sink, before, now);
  }

  lemma StartsRunning(sink: KeyboardSink, plan: TouchFrame, now: Instant)
    requires sink.Valid(now) && sink.spacer != null && sink.spacer.queue == [] && sink.lanes > 0
    requires sink.Current() == Bridge(Idle(sink.lanes), seq(sink.lanes, _ => false))
    requires sink.pending.sequence.None? && sink.sink.pending.None?
    ensures Running(sink, [], [], [], plan, now) && Clear(sink) && sink.Headed()
  {
    IdleCounted(sink.lanes);
  }

  predicate SameNumber(a: SinkStep, b: SinkStep) {
    a.Accept? && b.Accept? && a.frame.sequence == b.frame.sequence
  }

  /** No number was used for two different frames. */
  ghost predicate NumbersNameFrames(steps: seq<SinkStep>) {
    forall i, j :: 0 <= i < |steps| && 0 <= j < |steps| && SameNumber(steps[i], steps[j]) ==> steps[i].frame == steps[j].frame
  }

  /** The fold of the accepted frames themselves. */
  ghost function OwnHolds(lanes: nat, steps: seq<SinkStep>, oks: seq<bool>): (f: Fingers)
    requires lanes > 0 && |steps| == |oks|
    ensures f.Shaped(lanes)
  {
    if steps == [] then Idle(lanes)
    else
      var k := |steps| - 1;
      var before := OwnHolds(lanes, steps[..k], oks[..k]);
      if oks[k] && Resets(steps[k]) then Idle(lanes)
      else if oks[k] && steps[k].Accept? && !steps[k].frame.EmptyHeartbeat() then Plan(before, lanes, steps[k].frame, true).fingers
      else before
  }

  /** If a number names one frame, as in a session, the holds are those of the accepted frames. */
  lemma {:induction false} AcceptedFold(lanes: nat, steps: seq<SinkStep>, oks: seq<bool>, frames: seq<TouchFrame>)
    requires lanes > 0 && |steps| == |oks| == |frames| && NumbersNameFrames(steps)
    requires forall k :: 0 <= k < |steps| && steps[k].Accept? ==> Completes(steps, oks, frames, k)
    ensures HoldsAfter(lanes, steps, oks, frames) == OwnHolds(lanes, steps, oks)
  {
    AcceptedPrefix(lanes, steps, oks, frames, |steps|);
    assert steps[..|steps|] == steps && oks[..|steps|] == oks && frames[..|steps|] == frames;
  }

  lemma {:induction false} AcceptedPrefix(lanes: nat, steps: seq<SinkStep>, oks: seq<bool>, frames: seq<TouchFrame>, n: nat)
    requires lanes > 0 && n <= |steps| == |oks| == |frames| && NumbersNameFrames(steps)
    requires forall k :: 0 <= k < |steps| && steps[k].Accept? ==> Completes(steps, oks, frames, k)
    ensures HoldsAfter(lanes, steps[..n], oks[..n], frames[..n]) == OwnHolds(lanes, steps[..n], oks[..n])
  {
    hide Plan;
    if n > 0 {
      AcceptedPrefix(lanes, steps, oks, frames, n - 1);
      assert steps[..n][..n - 1] == steps[..n - 1] && oks[..n][..n - 1] == oks[..n - 1] && frames[..n][..n - 1] == frames[..n - 1];
      if oks[n - 1] && steps[n - 1].Accept? && !Resets(steps[n - 1]) && !steps[n - 1].frame.EmptyHeartbeat() {
        assert Completes(steps, oks, frames, n - 1);
        var j: nat :| OfferedAt(steps, j, n - 1, frames[n - 1]);
      }
    }
  }

  /** A run of a bridge with spacing - frames, wake-ups, cancels, short writes and
      errors in any order - and then, if nothing is part way, a drain of its queue.
      The holds are the fold of the accepted steps. The drain leaves exactly the
      held keys down, unless a failed cancel was the last word on releases. An OS
      that takes what it is given makes every step succeed. */
  method RunAndDrain(lanes: nat, gap: int, steps: seq<SinkStep>, start: Instant)
    returns (oks: seq<bool>, ghost frames: seq<TouchFrame>, ghost holds: Fingers, settled: bool, pressed: seq<bool>)
    requires lanes > 0 && gap > 0 && InTime(steps, start)
    requires forall k :: 0 <= k < |steps| ==> Decodable(steps[k])
    ensures |oks| == |frames| == |steps| && holds == HoldsAfter(lanes, steps, oks, frames)
    ensures forall k :: 0 <= k < |steps| && steps[k].Accept? ==> Completes(steps, oks, frames, k)
    ensures NumbersNameFrames(steps) ==> holds == OwnHolds(lanes, steps, oks)
    ensures |pressed| == lanes
    ensures settled && Recovered(steps, oks) ==> forall lane :: 0 <= lane < lanes ==> pressed[lane] == (holds.holds[lane] > 0)
    ensures AllAmple(steps, lanes) ==> settled && forall k :: 0 <= k < |steps| ==> oks[k]
  {
    hide Running, Recovered, HoldsAfter, Completes, KeyboardSink.Valid, KeyboardSink.Headed, Ample, Clear;
    var sink := new KeyboardSink(lanes, Some(gap));
    var now := start;
    ghost var plan := TouchFrame(0, 0, Action.Cancel, 0, false, true, []);
    StartsRunning(sink, plan, now);
    oks, frames := [], [];
    for i := 0 to |steps|
      invariant now == (if i == 0 then start else steps[i - 1].at)
      invariant fresh(sink.Parts()) && |oks| == i && Running(sink, steps[..i], oks, frames, plan, now) && sink.lanes == lanes
      invariant AllAmple(steps, lanes) ==> Clear(sink) && sink.Headed() && forall k :: 0 <= k < i ==> oks[k]
    {
      RunningLater(sink, steps[..i], oks, frames, plan, now, steps[i].at);
      ghost var done;
      var ok;
      ok, done, plan := RunOn(sink, steps[..i], oks, frames, plan, steps[i]);
      assert steps[..i] + [steps[i]] == steps[..i + 1];
      oks, now := oks + [ok], steps[i].at;
      frames := frames + [done];
    }
    assert steps[..|steps|] == steps;
    if AllAmple(steps, lanes) {
      AllDone(steps, oks);
    }
    RunningMeans(sink, steps, oks, frames, plan, now);
    holds := sink.state.Value();
    if NumbersNameFrames(steps) {
      AcceptedFold(lanes, steps, oks, frames);
    }
    settled := sink.sink.pending.None? && sink.pending.sequence.None?;
    if settled {
      var end := sink.Drain(now);
    }
    pressed := sink.pressed;
  }

  lemma RunningMeans(sink: KeyboardSink, steps: seq<SinkStep>, oks: seq<bool>, frames: seq<TouchFrame>, plan: TouchFrame, now: Instant)
    requires Running(sink, steps, oks, frames, plan, now)
    ensures sink.Valid(now) && sink.spacer != null && |sink.pressed| == sink.lanes > 0
    ensures |steps| == |oks| == |frames| && sink.state.Value() == HoldsAfter(sink.lanes, steps, oks, frames)
    ensures Recovered(steps, oks) ==> sink.Headed()
    ensures Clear(sink) ==> sink.sink.pending.None? && sink.pending.sequence.None?
    ensures forall k :: 0 <= k < |steps| && steps[k].Accept? ==> Completes(steps, oks, frames, k)
  {
  }
}
