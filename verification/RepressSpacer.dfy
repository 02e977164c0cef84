/** The re-press spacer: one queue shared by all lanes, flushed into the OS sink. */
module RepressSpacers {
  import opened Protocol
  import opened KeyPlanner
  import opened PlannerLaws
  import opened KeySinks
  import opened SpacerModel
  import opened SpacerLaws
  import opened SpacerSettles

  ghost predicate Increasing(s: seq<nat>, limit: nat) {
    && (forall i, j :: 0 <= i < j < |s| ==> s[i] < s[j])
    && (forall i :: 0 <= i < |s| ==> s[i] < limit)
  }

  ghost function Indices(s: seq<nat>): set<nat> {
    set i | i in s
  }

  function Picked(queue: seq<ScheduledEdge>, s: seq<nat>): (r: seq<ScheduledEdge>)
    requires forall i :: 0 <= i < |s| ==> s[i] < |queue|
    ensures |r| == |s|
  {
    seq(|s|, i requires 0 <= i < |s| => queue[s[i]])
  }

  lemma {:induction false} PickedIsEmitted(queue: seq<ScheduledEdge>, s: seq<nat>)
    requires Increasing(s, |queue|)
    ensures Picked(queue, s) == Emitted(queue, Indices(s))
  {
    if queue != [] {
      var front := queue[..|queue| - 1];
      if s != [] && s[|s| - 1] == |queue| - 1 {
        var t := s[..|s| - 1];
        PickedIsEmitted(front, t);
        SameEmitted(front, Indices(t), Indices(s));
        assert Picked(queue, s) == Picked(front, t) + [queue[|queue| - 1]];
      } else {
        assert |queue| - 1 !in Indices(s);
        PickedIsEmitted(front, s);
        assert Picked(queue, s) == Picked(front, s);
      }
    }
  }

  lemma {:induction false} SameEmitted(queue: seq<ScheduledEdge>, a: set<nat>, b: set<nat>)
    requires forall i :: 0 <= i < |queue| ==> (i in a <==> i in b)
    ensures Emitted(queue, a) == Emitted(queue, b)
  {
    if queue != [] {
      SameEmitted(queue[..|queue| - 1], a, b);
    }
  }

  /** Any accepted part of the selection may be emitted. */
  lemma PrefixEmittable(queue: seq<ScheduledEdge>, now: Instant, s: seq<nat>, n: nat)
    requires Increasing(s, |queue|) && n <= |s| && Selection(queue, now, Indices(s))
    ensures Emittable(queue, now, Indices(s[..n]))
    ensures Increasing(s[..n], |queue|)
  {
    var all, out := Indices(s), Indices(s[..n]);
    forall i, j | i in out && 0 <= j < i && j in all ensures j in out {
      var a :| 0 <= a < n && s[a] == i;
      var b :| 0 <= b < |s| && s[b] == j;
      assert b < a;
      assert s[..n][b] == j;
    }
    forall i | i in out ensures i < |queue| && Ready(queue, now, all, i) {
      assert i in s;
    }
  }

  /** The scan so far: the ready edges among the first `index`, and which lanes
      have an edge selected or held back, and whether a press is held back. */
  ghost predicate Scanned(queue: seq<ScheduledEdge>, now: Instant, selected: set<nat>, index: nat,
                          laneSelected: seq<bool>, laneWaiting: seq<bool>, pressWaiting: bool)
    requires index <= |queue| && |laneSelected| == |laneWaiting|
  {
    && (forall i :: i in selected ==> i < index)
    && (forall i :: 0 <= i < index ==> (i in selected <==> Ready(queue, now, selected, i)))
    && (forall l :: 0 <= l < |laneSelected| ==>
          (laneSelected[l] <==> exists j :: 0 <= j < index && queue[j].change.lane == l && j in selected))
    && (forall l :: 0 <= l < |laneWaiting| ==>
          (laneWaiting[l] <==> exists j :: 0 <= j < index && queue[j].change.lane == l && j !in selected))
    && (pressWaiting <==> exists j :: 0 <= j < index && queue[j].change.down && j !in selected)
  }

  lemma NothingCut(queue: seq<ScheduledEdge>, now: Instant)
    ensures Selection(queue, now, {}) ==> Cut(queue, now, {}, None)
  {
    var none: seq<nat> := [];
    assert Indices(none) == {} && none[..0] == none;
    if Selection(queue, now, {}) {
      assert CutAt(queue, now, none, 0, {}, None);
    }
  }

  lemma ScanStep(queue: seq<ScheduledEdge>, now: Instant, selected: set<nat>, index: nat,
                 laneSelected: seq<bool>, laneWaiting: seq<bool>, pressWaiting: bool)
    requires index < |queue| && |laneSelected| == |laneWaiting| && queue[index].change.lane < |laneSelected|
    requires Scanned(queue, now, selected, index, laneSelected, laneWaiting, pressWaiting)
    ensures
      var e := queue[index];
      var lane := e.change.lane;
      if e.due <= now && !laneWaiting[lane] && !(e.spaced && laneSelected[lane]) && (e.change.down || !pressWaiting)
      then Scanned(queue, now, selected + {index}, index + 1, laneSelected[lane := true], laneWaiting, pressWaiting)
      else Scanned(queue, now, selected, index + 1, laneSelected, laneWaiting[lane := true], pressWaiting || e.change.down)
  {
    var e := queue[index];
    var lane := e.change.lane;
    forall i | 0 <= i < index
      ensures Ready(queue, now, selected + {index}, i) <==> Ready(queue, now, selected, i)
    {
    }
    assert Ready(queue, now, selected, index) <==>
      e.due <= now && !laneWaiting[lane] && !(e.spaced && laneSelected[lane]) && (e.change.down || !pressWaiting);
    assert Ready(queue, now, selected + {index}, index) <==> Ready(queue, now, selected, index);
  }

  /** The flush was cut after `n` of the selected edges: a half-written change is
      the first selected edge that is left. */
  ghost predicate CutAt(queue: seq<ScheduledEdge>, now: Instant, selected: seq<nat>, n: nat, out: set<nat>, pending: Option<PendingWrite>) {
    && Increasing(selected, |queue|) && Selection(queue, now, Indices(selected))
    && n <= |selected| && out == Indices(selected[..n])
    && (pending.Some? ==> n < |selected| && pending == Some(Change(queue[selected[n]].change)))
  }

  ghost predicate Cut(queue: seq<ScheduledEdge>, now: Instant, out: set<nat>, pending: Option<PendingWrite>) {
    exists selected: seq<nat>, n: nat :: CutAt(queue, now, selected, n, out, pending)
  }

  /** One flush: `out` left the queue, everything else waits; with nothing
      accepted the spacer may be untouched. */
  ghost predicate FlushEffect(before: Spacer, log: seq<LogEntry>, pressed: seq<bool>, now: Instant, out: set<nat>,
                              after: Spacer, longer: seq<LogEntry>, states: seq<bool>) {
    && Emittable(before.queue, now, out)
    && (after == Flushed(before, out, now) || (out == {} && after == before))
    && states == Applied(pressed, Changes(Emitted(before.queue, out)))
    && longer == log + Logged(Emitted(before.queue, out), now)
  }

  lemma NothingEmittable(queue: seq<ScheduledEdge>, now: Instant)
    ensures Emittable(queue, now, {})
  {
  }

  lemma QueueOnLanes(s: Spacer, pressed: seq<bool>, now: Instant)
    requires Good(s, pressed, now)
    ensures |s.last| == |pressed| && forall i :: 0 <= i < |s.queue| ==> s.queue[i].change.lane < |pressed|
    ensures s.queue == [] ==> Selection(s.queue, now, {})
  {
  }

  lemma BatchOnLanes(s: Spacer, pressed: seq<bool>, now: Instant, selected: seq<nat>)
    requires Good(s, pressed, now) && Increasing(selected, |s.queue|)
    ensures OnLanes(Changes(Picked(s.queue, selected)), |pressed|)
  {
  }

  /** Hands the selected edges to the OS; `out` are the positions it accepted. */
  method SubmitSelected(ghost queue: seq<ScheduledEdge>, ghost now: Instant, ghost selected: seq<nat>, sink: KeySink,
                        ghost pressed: seq<bool>, batch: seq<KeyChange>, sync: WriteAnswer, bulk: WriteAnswer)
    returns (submitted: Result<nat>, ghost out: set<nat>)
    requires Increasing(selected, |queue|) && Selection(queue, now, Indices(selected))
    requires batch == Changes(Picked(queue, selected)) && OnLanes(batch, |pressed|)
    modifies sink
    ensures submitted.Ok? ==> submitted.value <= |selected| && !Refused(old(sink.Value()), batch, sync, bulk)
    ensures out == Indices(selected[..if submitted.Ok? then submitted.value else 0])
    ensures submitted.Ok? || old(sink.pending).None? ==> Cut(queue, now, out, sink.pending)
    ensures submitted.Err? ==> sink.Value() == old(sink.Value())
    ensures submitted.Ok? && old(sink.pending).Some? ==> out != {}
    ensures old(sink.pending).None? && 0 < Taken(bulk, 2 * |batch|) && Taken(bulk, 2 * |batch|) % 2 == 1 ==>
      submitted.Ok? && submitted.value < |batch| && sink.pending.Some?
    ensures old(sink.pending).None? && TakesAll(bulk, batch) ==> submitted == Ok(|batch|) && sink.pending.None?
    ensures Faithful(old(sink.Value()), pressed) ==> Faithful(sink.Value(), Applied(pressed, Changes(Emitted(queue, out))))
    ensures sink.reported == old(sink.reported) + Changes(Emitted(queue, out))
  {
    hide Selection, Faithful, Emitted, Applied;
    submitted := Deliver(sink, batch, pressed, sync, bulk);
    ghost var n := if submitted.Ok? then submitted.value else 0;
    out := Indices(selected[..n]);
    PickedIsEmitted(queue, selected[..n]);
    assert Changes(Picked(queue, selected[..n])) == batch[..n];
    assert submitted.Ok? || old(sink.pending).None? ==> CutAt(queue, now, selected, n, out, sink.pending);
    assert n > 0 ==> selected[..n][0] in out;
  }

  class RepressSpacer {
    const gap: int
    var queue: seq<ScheduledEdge>
    var lastEmitted: seq<Option<EmittedEdge>>
    ghost var log: seq<LogEntry>

    ghost function Value(): Spacer
      reads this
    {
      Spacer(gap, queue, lastEmitted)
    }

    /** Lane queues are well-formed and the whole history of emissions is separated. */
    ghost predicate Valid(pressed: seq<bool>, now: Instant)
      reads this
    {
      Good(Value(), pressed, now) && Separated(log, gap) && Recorded(log, lastEmitted)
    }

    constructor (lanes: nat, gap: int)
      requires gap > 0
      ensures Value() == Spacer(gap, [], seq(lanes, _ => None)) && log == []
      ensures forall pressed, now :: |pressed| == lanes ==> Valid(pressed, now)
    {
      this.gap := gap;
      queue := [];
      lastEmitted := seq(lanes, _ => None);
      log := [];
    }

    method Enqueue(change: KeyChange, now: Instant, osPressed: bool)
      requires change.lane < |lastEmitted|
      modifies this`queue
      ensures Value() == Enqueued(old(Value()), change, now, osPressed)
    {
      var lane := change.lane;
      var waiting, last := 0, -1;
      var index := 0;
      while index < |queue|
        invariant 0 <= index <= |queue|
        invariant waiting == |Waiting(queue[..index], lane)|
        invariant NewestAt(queue, lane, index, last)
      {
        assert queue[..index + 1][..index] == queue[..index];
        if queue[index].change.lane == lane {
          waiting := waiting + 1;
          last := index;
        }
        index := index + 1;
      }
      assert queue[..index] == queue;
      var scheduledDown := if last >= 0 then queue[last].change.down else osPressed;
      if scheduledDown == change.down {
        return;
      }
      if last >= 0 {
        if waiting >= MAX_WAITING_EDGES {
          // A full lane takes the opposite edge back instead; its parity stays right.
          RemoveNewest(queue, lane, last);
          queue := queue[..last] + queue[last + 1..];
          return;
        }
        var previous := queue[last];
        if NeedsGap(previous.spaced, previous.change.touch, change) {
          queue := queue + [ScheduledEdge(change, Later(previous.due + gap, now), true)];
        } else {
          queue := queue + [ScheduledEdge(change, Later(previous.due, now), false)];
        }
      } else {
        match lastEmitted[lane] {
          case Some(previous) =>
            if NeedsGap(previous.spaced, previous.touch, change) && now < previous.at + gap {
              queue := queue + [ScheduledEdge(change, previous.at + gap, true)];
            } else {
              queue := queue + [ScheduledEdge(change, now, false)];
            }
          case None =>
            queue := queue + [ScheduledEdge(change, now, false)];
        }
      }
    }

    /** The edges that may go out now, scanned once in queue order. */
    method Select(now: Instant) returns (selected: seq<nat>, batch: seq<KeyChange>)
      requires forall i :: 0 <= i < |queue| ==> queue[i].change.lane < |lastEmitted|
      ensures Increasing(selected, |queue|) && Selection(queue, now, Indices(selected))
      ensures batch == Changes(Picked(queue, selected))
    {
      selected, batch := [], [];
      var laneSelected := seq(|lastEmitted|, _ => false);
      var laneWaiting := seq(|lastEmitted|, _ => false);
      var pressWaiting := false;
      var index := 0;
      while index < |queue|
        invariant 0 <= index <= |queue|
        invariant |laneSelected| == |laneWaiting| == |lastEmitted|
        invariant Increasing(selected, index) && batch == Changes(Picked(queue, selected))
        invariant Scanned(queue, now, Indices(selected), index, laneSelected, laneWaiting, pressWaiting)
      {
        hide Scanned, Ready;
        var edge := queue[index];
        var lane := edge.change.lane;
        var ready := edge.due <= now && !laneWaiting[lane] && !(edge.spaced && laneSelected[lane])
                     && (edge.change.down || !pressWaiting);
        ScanStep(queue, now, Indices(selected), index, laneSelected, laneWaiting, pressWaiting);
        if ready {
          assert Indices(selected + [index]) == Indices(selected) + {index};
          selected := selected + [index];
          batch := batch + [edge.change];
          laneSelected := laneSelected[lane := true];
        } else {
          laneWaiting := laneWaiting[lane := true];
          pressWaiting := pressWaiting || edge.change.down;
        }
        index := index + 1;
      }
    }
  
    /** Records the accepted edges: key states and the last emission per lane. */
    method Record(edges: seq<ScheduledEdge>, now: Instant, pressed: seq<bool>) returns (states: seq<bool>)
      requires |lastEmitted| == |pressed| && forall i :: 0 <= i < |edges| ==> edges[i].change.lane < |pressed|
      modifies this`lastEmitted, this`log
      ensures states == Applied(pressed, Changes(edges))
      ensures lastEmitted == LastAfter(old(lastEmitted), edges, now)
      ensures log == old(log) + Logged(edges, now)
    {
      states := pressed;
      var i := 0;
      assert Changes(edges[..0]) == [] && Applied(pressed, []) == pressed;
      while i < |edges|
        invariant 0 <= i <= |edges|
        invariant states == Applied(pressed, Changes(edges[..i]))
        invariant lastEmitted == LastAfter(old(lastEmitted), edges[..i], now) && log == old(log)
      {
        var edge := edges[i];
        assert edges[..i + 1][..i] == edges[..i];
        assert Changes(edges[..i + 1]) == Changes(edges[..i]) + [edge.change];
        AppliedPush(pressed, Changes(edges[..i]), edge.change);
        states := states[edge.change.lane := edge.change.down];
        lastEmitted := lastEmitted[edge.change.lane := Some(EmittedEdge(now, edge.spaced, edge.change.touch))];
        i := i + 1;
      }
      assert edges[..i] == edges;
      log := log + Logged(edges, now);
    }

    /** Drops the accepted positions from the queue in one pass. */
    method Retain(accepted: seq<nat>)
      requires Increasing(accepted, |queue|)
      modifies this`queue
      ensures queue == Kept(old(queue), Indices(accepted))
    {
      var kept := [];
      var position, emitted := 0, 0;
      while position < |queue|
        invariant 0 <= position <= |queue| && 0 <= emitted <= |accepted|
        invariant kept == Kept(queue[..position], Indices(accepted))
        invariant forall i :: 0 <= i < emitted ==> accepted[i] < position
        invariant forall i :: emitted <= i < |accepted| ==> accepted[i] >= position
      {
        assert queue[..position + 1][..position] == queue[..position];
        if emitted < |accepted| && accepted[emitted] == position {
          emitted := emitted + 1;
        } else {
          assert position !in Indices(accepted);
          kept := kept + [queue[position]];
        }
        position := position + 1;
      }
      assert queue[..position] == queue;
      queue := kept;
    }

    method RestartGaps(now: Instant)
      requires forall i :: 0 <= i < |queue| ==> queue[i].change.lane < |lastEmitted|
      modifies this`queue
      ensures queue == Restarted(old(queue), lastEmitted, now, gap)
    {
      var i := 0;
      ghost var base := queue;
      while i < |queue|
        invariant 0 <= i <= |queue| == |base|
        invariant forall k :: 0 <= k < i ==> queue[k] == Restart(base[k], lastEmitted[base[k].change.lane], now, gap)
        invariant forall k :: i <= k < |base| ==> queue[k] == base[k]
      {
        var edge := queue[i];
        var previous := lastEmitted[edge.change.lane];
        if edge.spaced && previous.Some? && previous.value.at == now {
          queue := queue[i := ScheduledEdge(edge.change, Later(edge.due, now + gap), edge.spaced)];
        }
        i := i + 1;
      }
      RestartedAt(base, lastEmitted, now, gap);
    }

    /** After the OS took the first `accepted` of the selected edges. */
    method Commit(selected: seq<nat>, accepted: nat, now: Instant, pressed: seq<bool>) returns (states: seq<bool>)
      requires Valid(pressed, now) && accepted <= |selected|
      requires Increasing(selected, |queue|) && Selection(queue, now, Indices(selected))
      modifies this
      ensures Valid(states, now)
      ensures Value() == Flushed(old(Value()), Indices(selected[..accepted]), now)
      ensures states == Applied(pressed, Changes(Emitted(old(queue), Indices(selected[..accepted]))))
      ensures log == old(log) + Logged(Emitted(old(queue), Indices(selected[..accepted])), now)
    {
      ghost var s, entries, out := Value(), log, Indices(selected[..accepted]);
      PrefixEmittable(queue, now, selected, accepted);
      PickedIsEmitted(queue, selected[..accepted]);
      FlushGood(s, pressed, now, out);
      FlushSeparated(s, pressed, now, out, entries);
      KeptRange(queue, out, lastEmitted, now, gap, |pressed|);
      states := Record(Picked(queue, selected[..accepted]), now, pressed);
      Retain(selected[..accepted]);
      RestartGaps(now);
    }

    /** Hands the selected edges to the OS and commits those it accepted. */
    method EmitSelected(now: Instant, sink: KeySink, pressed: seq<bool>, selected: seq<nat>, batch: seq<KeyChange>,
                        sync: WriteAnswer, bulk: WriteAnswer)
      returns (states: seq<bool>, r: Result<()>, ghost out: set<nat>)
      requires Valid(pressed, now)
      requires Increasing(selected, |queue|) && Selection(queue, now, Indices(selected))
      requires batch == Changes(Picked(queue, selected))
      modifies this, sink
      ensures Valid(states, now)
      ensures FlushEffect(old(Value()), old(log), pressed, now, out, Value(), log, states)
      ensures r.Ok? ==> out == Indices(selected)
      ensures old(sink.pending).None? || out != {} ==> Cut(old(queue), now, out, sink.pending)
      ensures old(sink.pending).Some? && out == {} ==> Value() == old(Value()) && sink.Value() == old(sink.Value())
      ensures r.Ok? ==> !Refused(old(sink.Value()), batch, sync, bulk)
      ensures old(sink.pending).None? && 0 < Taken(bulk, 2 * |batch|) && Taken(bulk, 2 * |batch|) % 2 == 1 ==> r.Err? && sink.pending.Some?
      ensures Faithful(old(sink.Value()), pressed) ==> Faithful(sink.Value(), states)
      ensures sink.reported == old(sink.reported) + Changes(Emitted(old(queue), out))
      ensures old(sink.pending).None? && TakesAll(bulk, batch) ==> r.Ok? && sink.pending.None?
    {
      hide Good, Selection, Cut, Refused, Faithful, Emitted, Flushed, Applied, Separated, Recorded, Emittable;
      FlushNothing(Value(), pressed, now);
      NothingEmittable(queue, now);
      BatchOnLanes(Value(), pressed, now, selected);
      var submitted;
      submitted, out := SubmitSelected(queue, now, selected, sink, pressed, batch, sync, bulk);
      if submitted.Err? {
        assert selected[..0] == [] && Indices([]) == {};
        return pressed, Err(submitted.error), out;
      }
      PrefixEmittable(queue, now, selected, submitted.value);
      states := Commit(selected, submitted.value, now, pressed);
      if submitted.value != |batch| {
        return states, Err(Incomplete), out;
      }
      assert selected[..submitted.value] == selected;
      return states, Ok(()), out;
    }

    /** Emits what may go out now. `out` are the queue positions the OS accepted;
        a refused or cut submission is an error and leaves the rest waiting. */
    method Flush(now: Instant, sink: KeySink, pressed: seq<bool>, sync: WriteAnswer, bulk: WriteAnswer)
      returns (states: seq<bool>, r: Result<()>, ghost out: set<nat>)
      requires Valid(pressed, now)
      modifies this, sink
      ensures Valid(states, now)
      ensures FlushEffect(old(Value()), old(log), pressed, now, out, Value(), log, states)
      ensures r.Ok? && out == {} ==> Value() == old(Value())
      ensures r.Ok? ==> Selection(old(queue), now, out) && Selection(queue, now, {})
      ensures old(sink.pending).None? || out != {} ==> Cut(old(queue), now, out, sink.pending)
      ensures old(sink.pending).Some? && out == {} ==> Value() == old(Value()) && sink.Value() == old(sink.Value())
      ensures r.Ok? && out != {} ==> !Refused(old(sink.Value()), Changes(Emitted(old(queue), out)), sync, bulk)
      ensures old(sink.pending).None? && bulk == Wrote(1) && !Selection(old(queue), now, {}) ==> r.Err? && sink.pending.Some?
      ensures Faithful(old(sink.Value()), pressed) ==> Faithful(sink.Value(), states)
      ensures sink.reported == old(sink.reported) + Changes(Emitted(old(queue), out))
      ensures old(sink.pending).None? && bulk.Wrote? && bulk.count >= 2 * |old(queue)| ==> r.Ok? && sink.pending.None?
    {
      hide Good, Selection, Cut, Refused, Faithful, Emitted, Flushed, Applied, Separated, Recorded, Emittable;
      NothingEmittable(queue, now);
      QueueOnLanes(Value(), pressed, now);
      states, out := pressed, {};
      FlushNothing(Value(), pressed, now);
      NothingCut(queue, now);
      if queue == [] {
        return states, Ok(()), out;
      }
      var selected, batch := Select(now);
      PickedLength(queue, selected);
      if batch == [] {
        assert Indices(selected) == {};
        return states, Ok(()), out;
      }
      assert selected[0] in Indices(selected);
      FlushSettles(Value(), pressed, now, Indices(selected));
      PickedIsEmitted(queue, selected);
      states, r, out := EmitSelected(now, sink, pressed, selected, batch, sync, bulk);
    }

    /** The earliest instant at which a flush has work, never before `now`. */
    method NextDeadline(now: Instant) returns (deadline: Option<Instant>)
      ensures deadline.None? <==> queue == []
      ensures deadline.Some? ==> IsDeadline(queue, now, deadline.value)
    {
      if queue == [] {
        return None;
      }
      var best := None;
      var i := 0;
      while i < |queue|
        invariant 0 <= i <= |queue|
        invariant best.None? ==> forall k :: 0 <= k < i ==> queue[k].due <= now
        invariant best.Some? ==> best.value > now && exists k :: 0 <= k < i && queue[k].due == best.value
        invariant best.Some? ==> forall k :: 0 <= k < i && queue[k].due > now ==> best.value <= queue[k].due
      {
        if queue[i].due > now && (best.None? || queue[i].due < best.value) {
          best := Some(queue[i].due);
        }
        i := i + 1;
      }
      return if best.Some? then best else Some(now);
    }

    /** A cancel released the lane at once. */
    method NoteRelease(lane: nat, now: Instant)
      requires lane < |lastEmitted|
      modifies this`lastEmitted, this`log
      ensures lastEmitted == old(lastEmitted)[lane := Some(EmittedEdge(now, false, false))]
      ensures log == old(log) + [LogEntry(lane, false, now, false, false, true)]
      ensures old(Separated(log, gap) && Recorded(log, lastEmitted)) ==> Separated(log, gap) && Recorded(log, lastEmitted)
    {
      if Separated(log, gap) && Recorded(log, lastEmitted) {
        LogPush(log, lastEmitted, LogEntry(lane, false, now, false, false, true), gap);
      }
      lastEmitted := lastEmitted[lane := Some(EmittedEdge(now, false, false))];
      log := log + [LogEntry(lane, false, now, false, false, true)];
    }

    method Clear()
      modifies this`queue
      ensures queue == []
    {
      queue := [];
    }
  }

  lemma {:induction false} EmittedNothing(queue: seq<ScheduledEdge>)
    ensures Emitted(queue, {}) == []
  {
    if queue != [] {
      EmittedNothing(queue[..|queue| - 1]);
    }
  }

  lemma FlushNothing(s: Spacer, pressed: seq<bool>, now: Instant)
    ensures Emitted(s.queue, {}) == [] && Changes([]) == [] && Logged([], now) == []
    ensures Applied(pressed, []) == pressed
  {
    EmittedNothing(s.queue);
  }

  lemma {:induction false} PickedLength(queue: seq<ScheduledEdge>, s: seq<nat>)
    requires Increasing(s, |queue|)
    ensures |s| <= |queue|
    decreases |s|
  {
    if s != [] {
      var t := s[..|s| - 1];
      assert Increasing(t, s[|s| - 1]);
      PickedLength(queue[..s[|s| - 1]], t);
    }
  }

  /** `last` is the position of the newest of the lane's edges among the first `index`. */
  ghost predicate NewestAt(queue: seq<ScheduledEdge>, lane: nat, index: nat, last: int)
    requires index <= |queue|
  {
    var w := Waiting(queue[..index], lane);
    && -1 <= last < index
    && (last >= 0 <==> w != [])
    && (last >= 0 ==> queue[last].change.lane == lane && w[|w| - 1] == queue[last])
    && forall i :: last < i < index ==> queue[i].change.lane != lane
  }

  lemma {:induction false} RemoveNewest(queue: seq<ScheduledEdge>, lane: nat, last: nat)
    requires last < |queue| && queue[last].change.lane == lane
    requires forall i :: last < i < |queue| ==> queue[i].change.lane != lane
    ensures WithoutNewest(queue, lane) == queue[..last] + queue[last + 1..]
  {
    if last < |queue| - 1 {
      var front := queue[..|queue| - 1];
      RemoveNewest(front, lane, last);
      assert front[..last] == queue[..last];
      assert queue[last + 1..] == front[last + 1..] + [queue[|queue| - 1]];
    }
  }
}
