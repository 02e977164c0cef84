/** What a flush keeps: queue order per lane, separation of consecutive edges,
    releases behind earlier presses, and progress towards an empty queue. */
module SpacerLaws {
  import opened Protocol
  import opened KeyPlanner
  import opened PlannerLaws
  import opened KeySinks
  import opened SpacerModel

  // ---------------------------------------------------------------- per-lane view of a flush

  /** On `lane`, the emitted edges form a prefix. */
  ghost predicate LanePrefix(queue: seq<ScheduledEdge>, out: set<nat>, lane: nat) {
    forall i, j :: i in out && 0 <= j < i && i < |queue| && queue[j].change.lane == lane && queue[i].change.lane == lane ==>
      j in out
  }

  lemma {:induction false} AllOut(queue: seq<ScheduledEdge>, out: set<nat>, lane: nat)
    requires forall j :: 0 <= j < |queue| && queue[j].change.lane == lane ==> j in out
    ensures Waiting(Kept(queue, out), lane) == []
  {
    if queue != [] {
      AllOut(queue[..|queue| - 1], out, lane);
      if |queue| - 1 !in out {
        WaitingPush(Kept(queue[..|queue| - 1], out), queue[|queue| - 1], lane);
      }
    }
  }

  /** Each lane's edges leave in queue order: what is emitted followed by what
      stays is what was waiting. */
  lemma {:induction false} LaneSplit(queue: seq<ScheduledEdge>, out: set<nat>, lane: nat)
    requires LanePrefix(queue, out, lane)
    ensures Waiting(Emitted(queue, out), lane) + Waiting(Kept(queue, out), lane) == Waiting(queue, lane)
  {
    if queue != [] {
      var front, last := queue[..|queue| - 1], queue[|queue| - 1];
      LaneSplit(front, out, lane);
      var gone, kept := Waiting(Emitted(front, out), lane), Waiting(Kept(front, out), lane);
      if |queue| - 1 in out {
        WaitingPush(Emitted(front, out), last, lane);
        if last.change.lane == lane {
          AllOut(front, out, lane);
          assert gone + [last] + [] == gone + kept + [last];
        }
      } else {
        WaitingPush(Kept(front, out), last, lane);
        assert gone + (kept + [last]) == gone + kept + [last];
      }
    }
  }

  lemma {:induction false} EmittedReplay(edges: seq<ScheduledEdge>, pressed: bool, lane: nat)
    ensures LaneAfter(pressed, Changes(edges), lane) == Scheduled(edges, lane, pressed)
  {
    if edges != [] {
      var front, last := edges[..|edges| - 1], edges[|edges| - 1];
      EmittedReplay(front, pressed, lane);
      assert Changes(edges) == Changes(front) + [last.change];
      LaneAfterPush(pressed, Changes(front), last.change, lane);
    } else {
      assert Changes(edges) == [];
    }
  }

  function LastOf(last: Option<EmittedEdge>, emitted: seq<ScheduledEdge>, now: Instant): Option<EmittedEdge> {
    if emitted == [] then last
    else Some(EmittedEdge(now, emitted[|emitted| - 1].spaced, emitted[|emitted| - 1].change.touch))
  }

  lemma {:induction false} LastAfterLane(last: seq<Option<EmittedEdge>>, edges: seq<ScheduledEdge>, now: Instant, lane: nat)
    requires lane < |last|
    ensures LastAfter(last, edges, now)[lane] == LastOf(last[lane], Waiting(edges, lane), now)
  {
    if edges != [] {
      LastAfterLane(last, edges[..|edges| - 1], now, lane);
    }
  }

  function RestartedLane(waiting: seq<ScheduledEdge>, last: Option<EmittedEdge>, now: Instant, gap: int): (r: seq<ScheduledEdge>)
    ensures |r| == |waiting|
    ensures forall i :: 0 <= i < |waiting| ==> r[i] == Restart(waiting[i], last, now, gap)
  {
    seq(|waiting|, i requires 0 <= i < |waiting| => Restart(waiting[i], last, now, gap))
  }

  lemma {:induction false} RestartedWaiting(queue: seq<ScheduledEdge>, last: seq<Option<EmittedEdge>>, now: Instant, gap: int, lane: nat)
    requires lane < |last|
    ensures Waiting(Restarted(queue, last, now, gap), lane) == RestartedLane(Waiting(queue, lane), last[lane], now, gap)
  {
    if queue != [] {
      var front, e := queue[..|queue| - 1], queue[|queue| - 1];
      RestartedWaiting(front, last, now, gap, lane);
      var r := Restart(e, if e.change.lane < |last| then last[e.change.lane] else None, now, gap);
      WaitingPush(Restarted(front, last, now, gap), r, lane);
    }
  }

  /** One lane through a flush: `out` is emitted now, `rest` stays. */
  lemma LaneFlush(out: seq<ScheduledEdge>, rest: seq<ScheduledEdge>, last: Option<EmittedEdge>, pressed: bool, now: Instant, gap: int)
    requires LaneGood(out + rest, last, pressed, now, gap) && gap > 0
    requires forall i :: 0 <= i < |out| ==> out[i].due <= now
    ensures LaneGood(RestartedLane(rest, LastOf(last, out, now), now, gap), LastOf(last, out, now),
                     if out == [] then pressed else out[|out| - 1].change.down, now, gap)
  {
    hide RestartedLane;
    var all := out + rest;
    if out == [] {
      assert all == rest;
    } else {
      assert all[|out| - 1] == out[|out| - 1];
    }
    if |rest| > 0 { assert all[|out|] == rest[0]; }
    if |rest| > 1 { assert all[|out| + 1] == rest[1]; }
    if |rest| > 2 { assert all[|out| + 2] == rest[2]; }
  }

  lemma {:induction false} KeptRange(queue: seq<ScheduledEdge>, out: set<nat>, last: seq<Option<EmittedEdge>>, now: Instant, gap: int, lanes: nat)
    requires forall i :: 0 <= i < |queue| ==> queue[i].change.lane < lanes
    ensures forall i :: 0 <= i < |Kept(queue, out)| ==> Kept(queue, out)[i].change.lane < lanes
    ensures forall i :: 0 <= i < |Emitted(queue, out)| ==> Emitted(queue, out)[i].change.lane < lanes
    ensures |Kept(queue, out)| + |Emitted(queue, out)| == |queue|
  {
    if queue != [] {
      KeptRange(queue[..|queue| - 1], out, last, now, gap, lanes);
    }
  }

  lemma {:induction false} RestartedRange(queue: seq<ScheduledEdge>, last: seq<Option<EmittedEdge>>, now: Instant, gap: int)
    ensures forall i :: 0 <= i < |queue| ==> Restarted(queue, last, now, gap)[i].change == queue[i].change
  {
    if queue != [] {
      RestartedRange(queue[..|queue| - 1], last, now, gap);
    }
  }

  lemma {:induction false} EmittedDue(queue: seq<ScheduledEdge>, out: set<nat>, now: Instant, lane: nat)
    requires forall i :: i in out && i < |queue| ==> queue[i].due <= now
    ensures forall i :: 0 <= i < |Waiting(Emitted(queue, out), lane)| ==> Waiting(Emitted(queue, out), lane)[i].due <= now
  {
    if queue != [] {
      EmittedDue(queue[..|queue| - 1], out, now, lane);
      if |queue| - 1 in out {
        WaitingPush(Emitted(queue[..|queue| - 1], out), queue[|queue| - 1], lane);
      }
    }
  }

  lemma LaneFlushed(s: Spacer, pressed: seq<bool>, now: Instant, out: set<nat>, lane: nat)
    requires Good(s, pressed, now) && Emittable(s.queue, now, out) && lane < |pressed|
    ensures
      var r := Flushed(s, out, now);
      var after := LaneAfter(pressed[lane], Changes(Emitted(s.queue, out)), lane);
      && LaneGood(Waiting(r.queue, lane), r.last[lane], after, now, s.gap)
      && Scheduled(r.queue, lane, after) == Scheduled(s.queue, lane, pressed[lane])
  {
    hide Waiting, Emitted, Kept, LastAfter, Restarted, LaneAfter;
    var r := Flushed(s, out, now);
    var gone, kept := Emitted(s.queue, out), Kept(s.queue, out);
    LaneSplit(s.queue, out, lane);
    EmittedReplay(gone, pressed[lane], lane);
    LastAfterLane(s.last, gone, now, lane);
    RestartedWaiting(kept, r.last, now, s.gap, lane);
    EmittedDue(s.queue, out, now, lane);
    var w := Waiting(s.queue, lane);
    assert LaneGood(w, s.last[lane], pressed[lane], now, s.gap);
    LaneFlush(Waiting(gone, lane), Waiting(kept, lane), s.last[lane], pressed[lane], now, s.gap);
  }

  /** A flush, whatever part of its selection is accepted, keeps every lane's
      queue well-formed and the state each lane is headed for. */
  lemma FlushGood(s: Spacer, pressed: seq<bool>, now: Instant, out: set<nat>)
    requires Good(s, pressed, now) && Emittable(s.queue, now, out)
    ensures Good(Flushed(s, out, now), Applied(pressed, Changes(Emitted(s.queue, out))), now)
    ensures forall lane :: 0 <= lane < |pressed| ==>
      Scheduled(Flushed(s, out, now).queue, lane, Applied(pressed, Changes(Emitted(s.queue, out)))[lane])
      == Scheduled(s.queue, lane, pressed[lane])
  {
    hide Waiting, Emitted, Kept, LastAfter, Restarted, LaneAfter, LaneGood;
    var r := Flushed(s, out, now);
    KeptRange(s.queue, out, r.last, now, s.gap, |pressed|);
    RestartedRange(Kept(s.queue, out), r.last, now, s.gap);
    forall lane | 0 <= lane < |pressed|
      ensures
        var after := Applied(pressed, Changes(Emitted(s.queue, out)))[lane];
        && LaneGood(Waiting(r.queue, lane), r.last[lane], after, now, s.gap)
        && Scheduled(r.queue, lane, after) == Scheduled(s.queue, lane, pressed[lane])
    {
      LaneFlushed(s, pressed, now, out, lane);
    }
  }

  /** What a flush leaves an idle lane with: the next opposite edge waits for one
      gap after it exactly if it is a press, or what went out last was spaced or a
      finger-down press - so a tap stays visible and a slide is not held up. */
  lemma AfterFlush(s: Spacer, pressed: seq<bool>, now: Instant, out: set<nat>, change: KeyChange, later: Instant)
    requires Good(s, pressed, now) && Emittable(s.queue, now, out) && change.lane < |pressed| && later >= now
    requires var gone := Waiting(Emitted(s.queue, out), change.lane);
      gone != [] && change.down != gone[|gone| - 1].change.down
    requires Waiting(Flushed(s, out, now).queue, change.lane) == []
    ensures var gone := Waiting(Emitted(s.queue, out), change.lane);
      var e := gone[|gone| - 1];
      Waiting(Enqueued(Flushed(s, out, now), change, later, e.change.down).queue, change.lane)
      == [if later < now + s.gap && (change.down || e.spaced || e.change.touch)
          then ScheduledEdge(change, now + s.gap, true) else ScheduledEdge(change, later, false)]
  {
    hide Emitted, Kept, Restarted, LastAfter, LaneAfter, Waiting, Enqueued;
    var states := Applied(pressed, Changes(Emitted(s.queue, out)));
    FlushGood(s, pressed, now, out);
    LastAfterLane(s.last, Emitted(s.queue, out), now, change.lane);
    EmittedReplay(Emitted(s.queue, out), pressed[change.lane], change.lane);
    GoodLater(Flushed(s, out, now), states, now, later);
    IdleEnqueued(Flushed(s, out, now), states, change, later);
  }

  // ---------------------------------------------------------------- separation over a whole run

  /** One edge that reached the OS; `cancelled` marks the immediate releases of a cancel. */
  datatype LogEntry = LogEntry(lane: nat, down: bool, at: Instant, spaced: bool, touch: bool, cancelled: bool)

  ghost predicate Consecutive(log: seq<LogEntry>, i: nat, j: nat) {
    && i < j < |log|
    && log[i].lane == log[j].lane
    && forall k :: i < k < j ==> log[k].lane != log[j].lane
  }

  /** Two consecutive edges of a lane are a gap apart whenever the later one is a
      press, or the earlier one was spaced or a finger-down press - and no edge
      counts as spaced for any other reason. */
  ghost predicate Separated(log: seq<LogEntry>, gap: int) {
    && (forall i: nat, j: nat :: Consecutive(log, i, j) && !log[j].cancelled && (log[j].down || log[i].spaced || log[i].touch) ==>
          log[j].at >= log[i].at + gap)
    && forall j: nat :: j < |log| && log[j].spaced ==> Earned(log, j)
  }

  ghost predicate Earned(log: seq<LogEntry>, j: nat)
    requires j < |log|
  {
    exists i: nat :: Consecutive(log, i, j) && (log[j].down || log[i].spaced || log[i].touch)
  }

  /** The last emitted edges are those of the log. */
  ghost predicate Recorded(log: seq<LogEntry>, last: seq<Option<EmittedEdge>>) {
    forall lane :: 0 <= lane < |last| ==> RecordedLane(log, last[lane], lane)
  }

  ghost predicate LatestOn(log: seq<LogEntry>, i: nat, lane: nat) {
    i < |log| && log[i].lane == lane && forall k :: i < k < |log| ==> log[k].lane != lane
  }

  ghost predicate RecordedLane(log: seq<LogEntry>, last: Option<EmittedEdge>, lane: nat) {
    match last
    case None => forall i :: 0 <= i < |log| ==> log[i].lane != lane
    case Some(m) =>
      exists i: nat :: LatestOn(log, i, lane) && log[i].at == m.at && log[i].spaced == m.spaced && log[i].touch == m.touch
  }

  lemma LogPush(log: seq<LogEntry>, last: seq<Option<EmittedEdge>>, e: LogEntry, gap: int)
    requires Separated(log, gap) && Recorded(log, last) && e.lane < |last|
    requires !e.cancelled && last[e.lane].Some? && (e.down || last[e.lane].value.spaced || last[e.lane].value.touch) ==>
      e.at >= last[e.lane].value.at + gap
    requires e.spaced ==> last[e.lane].Some? && (e.down || last[e.lane].value.spaced || last[e.lane].value.touch)
    ensures Separated(log + [e], gap)
    ensures Recorded(log + [e], last[e.lane := Some(EmittedEdge(e.at, e.spaced, e.touch))])
  {
    var r := log + [e];
    forall i: nat, j: nat | Consecutive(r, i, j) && !r[j].cancelled && (r[j].down || r[i].spaced || r[i].touch)
      ensures r[j].at >= r[i].at + gap
    {
      assert forall k :: 0 <= k < |log| ==> r[k] == log[k];
      if j < |log| {
        assert Consecutive(log, i, j);
      } else {
        assert log[i].lane == e.lane;
        var m: nat :| LatestOn(log, m, e.lane) && log[m].at == last[e.lane].value.at
          && log[m].spaced == last[e.lane].value.spaced && log[m].touch == last[e.lane].value.touch;
        assert i == m;
      }
    }
    forall j: nat | j < |r| && r[j].spaced ensures Earned(r, j) {
      if j < |log| {
        assert log[j].spaced && Earned(log, j);
        var i: nat :| Consecutive(log, i, j) && (log[j].down || log[i].spaced || log[i].touch);
        assert Consecutive(r, i, j);
      } else {
        var m: nat :| LatestOn(log, m, e.lane) && log[m].at == last[e.lane].value.at
          && log[m].spaced == last[e.lane].value.spaced && log[m].touch == last[e.lane].value.touch;
        assert Consecutive(r, m, j);
      }
    }
    var next := last[e.lane := Some(EmittedEdge(e.at, e.spaced, e.touch))];
    forall lane | 0 <= lane < |next| ensures RecordedLane(r, next[lane], lane) {
      assert RecordedLane(log, last[lane], lane);
      if lane == e.lane {
        assert LatestOn(r, |log|, lane);
      } else if last[lane].Some? {
        var m: nat :| LatestOn(log, m, lane) && log[m].at == last[lane].value.at
          && log[m].spaced == last[lane].value.spaced && log[m].touch == last[lane].value.touch;
        assert LatestOn(r, m, lane);
      }
    }
  }

  function Logged(edges: seq<ScheduledEdge>, now: Instant): (r: seq<LogEntry>)
    ensures |r| == |edges|
  {
    seq(|edges|, i requires 0 <= i < |edges| =>
      LogEntry(edges[i].change.lane, edges[i].change.down, now, edges[i].spaced, edges[i].change.touch, false))
  }

  /** The edges a lane emits at `now` owe nothing to the last one before, nor to
      each other; only the first may have waited for a gap. */
  ghost predicate LaneEmits(out: seq<ScheduledEdge>, last: Option<EmittedEdge>, now: Instant, gap: int) {
    && (out != [] && last.Some? && NeedsGap(last.value.spaced, last.value.touch, out[0].change) ==> now >= last.value.at + gap)
    && (forall i :: 1 <= i < |out| ==> !out[i].spaced && !NeedsGap(out[i - 1].spaced, out[i - 1].change.touch, out[i].change))
    && (out != [] && out[0].spaced ==> last.Some? && (out[0].change.down || last.value.spaced || last.value.touch))
  }

  lemma EmitsFront(w: seq<ScheduledEdge>, e: ScheduledEdge, last: Option<EmittedEdge>, now: Instant, gap: int)
    requires LaneEmits(w + [e], last, now, gap)
    ensures LaneEmits(w, last, now, gap)
  {
    forall i | 1 <= i < |w| ensures !w[i].spaced && !NeedsGap(w[i - 1].spaced, w[i - 1].change.touch, w[i].change) {
      assert (w + [e])[i] == w[i] && (w + [e])[i - 1] == w[i - 1];
    }
    assert w != [] ==> (w + [e])[0] == w[0];
  }

  /** The edge owes nothing to what its lane emitted last. */
  lemma EmitsEntry(w: seq<ScheduledEdge>, e: ScheduledEdge, last: Option<EmittedEdge>, now: Instant, gap: int)
    requires LaneEmits(w + [e], last, now, gap)
    ensures var before := LastOf(last, w, now);
      && (before.Some? && (e.change.down || before.value.spaced || before.value.touch) ==> now >= before.value.at + gap)
      && (e.spaced ==> before.Some? && (e.change.down || before.value.spaced || before.value.touch))
  {
    if w == [] {
      assert w + [e] == [e];
    } else {
      assert (w + [e])[|w|] == e && (w + [e])[|w| - 1] == w[|w| - 1];
    }
  }

  lemma {:induction false} EmitsLogged(log: seq<LogEntry>, last: seq<Option<EmittedEdge>>, edges: seq<ScheduledEdge>, now: Instant, gap: int)
    requires Separated(log, gap) && Recorded(log, last)
    requires forall i :: 0 <= i < |edges| ==> edges[i].change.lane < |last|
    requires forall lane :: 0 <= lane < |last| ==> LaneEmits(Waiting(edges, lane), last[lane], now, gap)
    ensures Separated(log + Logged(edges, now), gap)
    ensures Recorded(log + Logged(edges, now), LastAfter(last, edges, now))
  {
    hide Separated, Recorded, LaneEmits, NeedsGap;
    if edges == [] {
      assert log + Logged(edges, now) == log;
    } else {
      var front, e := edges[..|edges| - 1], edges[|edges| - 1];
      assert edges == front + [e];
      forall lane | 0 <= lane < |last| ensures LaneEmits(Waiting(front, lane), last[lane], now, gap) {
        WaitingPush(front, e, lane);
        assert LaneEmits(Waiting(edges, lane), last[lane], now, gap);
        if e.change.lane == lane {
          EmitsFront(Waiting(front, lane), e, last[lane], now, gap);
        }
      }
      EmitsLogged(log, last, front, now, gap);
      var entry := LogEntry(e.change.lane, e.change.down, now, e.spaced, e.change.touch, false);
      WaitingPush(front, e, e.change.lane);
      EmitsEntry(Waiting(front, e.change.lane), e, last[e.change.lane], now, gap);
      LastAfterLane(last, front, now, e.change.lane);
      LogPush(log + Logged(front, now), LastAfter(last, front, now), entry, gap);
      assert log + Logged(edges, now) == log + Logged(front, now) + [entry];
    }
  }

  /** In the emitted part, an edge behind another of its lane is not spaced. */
  lemma {:induction false} EmittedUnspaced(queue: seq<ScheduledEdge>, out: set<nat>, lane: nat)
    requires forall i, j :: i in out && 0 <= j < i && i < |queue| && queue[j].change.lane == queue[i].change.lane ==> !queue[i].spaced
    ensures forall k :: 1 <= k < |Waiting(Emitted(queue, out), lane)| ==> !Waiting(Emitted(queue, out), lane)[k].spaced
  {
    if queue != [] {
      var front, last := queue[..|queue| - 1], queue[|queue| - 1];
      forall i, j | i in out && 0 <= j < i && i < |front| && front[j].change.lane == front[i].change.lane ensures !front[i].spaced {
        assert queue[j].change.lane == queue[i].change.lane;
      }
      EmittedUnspaced(front, out, lane);
      if |queue| - 1 in out {
        WaitingPush(Emitted(front, out), last, lane);
        if last.change.lane == lane && Waiting(Emitted(front, out), lane) != [] {
          var j := EmittedHas(front, out, lane);
          assert queue[j].change.lane == last.change.lane;
        }
      }
    }
  }

  lemma {:induction false} EmittedHas(queue: seq<ScheduledEdge>, out: set<nat>, lane: nat) returns (j: nat)
    requires Waiting(Emitted(queue, out), lane) != []
    ensures j < |queue| && queue[j].change.lane == lane
  {
    var front, last := queue[..|queue| - 1], queue[|queue| - 1];
    if last.change.lane == lane {
      j := |queue| - 1;
    } else {
      if |queue| - 1 in out {
        WaitingPush(Emitted(front, out), last, lane);
      }
      j := EmittedHas(front, out, lane);
    }
  }

  /** Separation: whatever part of a flush is accepted, however late, the log of
      emitted edges keeps every owed gap. */
  lemma FlushSeparated(s: Spacer, pressed: seq<bool>, now: Instant, out: set<nat>, log: seq<LogEntry>)
    requires Good(s, pressed, now) && Emittable(s.queue, now, out)
    requires Separated(log, s.gap) && Recorded(log, s.last)
    ensures Separated(log + Logged(Emitted(s.queue, out), now), s.gap)
    ensures Recorded(log + Logged(Emitted(s.queue, out), now), Flushed(s, out, now).last)
  {
    hide Separated, Recorded, Waiting, Emitted, Kept, LastAfter, Restarted;
    var gone := Emitted(s.queue, out);
    KeptRange(s.queue, out, s.last, now, s.gap, |pressed|);
    forall lane | 0 <= lane < |s.last| ensures LaneEmits(Waiting(gone, lane), s.last[lane], now, s.gap) {
      LaneSplit(s.queue, out, lane);
      EmittedDue(s.queue, out, now, lane);
      EmittedUnspaced(s.queue, out, lane);
      var g, w := Waiting(gone, lane), Waiting(s.queue, lane);
      assert LaneGood(w, s.last[lane], pressed[lane], now, s.gap);
      assert forall i :: 0 <= i < |g| ==> g[i] == w[i];
      if |g| > 1 { assert FollowsGood(w[0], w[1], now, s.gap); }
    }
    EmitsLogged(log, s.last, gone, now, s.gap);
  }

  // ---------------------------------------------------------------- progress

  /** With nothing due later than `now` the next deadline is now; else the earliest later due. */
  ghost predicate IsDeadline(queue: seq<ScheduledEdge>, now: Instant, deadline: Instant) {
    if forall k :: 0 <= k < |queue| ==> queue[k].due <= now then deadline == now
    else
      && deadline > now
      && (exists k :: 0 <= k < |queue| && queue[k].due == deadline)
      && forall k :: 0 <= k < |queue| && queue[k].due > now ==> deadline <= queue[k].due
  }

  /** How many edges are due only after `now`. */
  ghost function Future(queue: seq<ScheduledEdge>, now: Instant): nat {
    if queue == [] then 0
    else Future(queue[..|queue| - 1], now) + (if queue[|queue| - 1].due > now then 1 else 0)
  }

  lemma {:induction false} FutureShrinks(queue: seq<ScheduledEdge>, now: Instant, later: Instant)
    requires now <= later
    ensures Future(queue, later) <= Future(queue, now)
    ensures (exists k :: 0 <= k < |queue| && now < queue[k].due <= later) ==> Future(queue, later) < Future(queue, now)
  {
    if queue != [] {
      FutureShrinks(queue[..|queue| - 1], now, later);
      assert forall k :: 0 <= k < |queue| - 1 ==> queue[..|queue| - 1][k] == queue[k];
    }
  }

  lemma {:induction false} EmittedSome(queue: seq<ScheduledEdge>, out: set<nat>, i: nat)
    requires i in out && i < |queue|
    ensures |Kept(queue, out)| < |queue|
  {
    KeptLength(queue[..|queue| - 1], out);
    if i != |queue| - 1 {
      EmittedSome(queue[..|queue| - 1], out, i);
    }
  }

  lemma {:induction false} KeptLength(queue: seq<ScheduledEdge>, out: set<nat>)
    ensures |Kept(queue, out)| <= |queue|
  {
    if queue != [] {
      KeptLength(queue[..|queue| - 1], out);
    }
  }

  /** Waking at the deadline makes progress: a fully accepted flush shortens the
      queue, or - when an earlier press still holds a release back - one due
      fewer lies ahead. */
  lemma DeadlineProgress(queue: seq<ScheduledEdge>, now: Instant, deadline: Instant, selected: set<nat>)
    requires queue != [] && IsDeadline(queue, now, deadline) && Selection(queue, deadline, selected)
    ensures |Kept(queue, selected)| < |queue| || (selected == {} && Future(queue, deadline) < Future(queue, now))
  {
    if selected != {} {
      var i :| i in selected;
      EmittedSome(queue, selected, i);
    } else {
      if forall k :: 0 <= k < |queue| ==> queue[k].due <= now {
        assert Ready(queue, deadline, selected, 0);
      } else {
        FutureShrinks(queue, now, deadline);
      }
    }
  }
}
