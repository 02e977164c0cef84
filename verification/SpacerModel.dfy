/** Re-press spacing as values: what waits, what was emitted last, and what one
    enqueue or one flush does to it. Instants are integers. */
module SpacerModel {
  import opened Protocol
  import opened KeyPlanner
  import opened PlannerLaws
  import opened KeySinks

  type Instant = int

  const MAX_WAITING_EDGES := 3

  datatype ScheduledEdge = ScheduledEdge(change: KeyChange, due: Instant, spaced: bool)

  datatype EmittedEdge = EmittedEdge(at: Instant, spaced: bool, touch: bool)

  datatype Spacer = Spacer(gap: int, queue: seq<ScheduledEdge>, last: seq<Option<EmittedEdge>>)

  /** Why an edge is held back. A press and an edge in a chain of spaced ones are
      all the separation laws need; the release of a tap keeps taps visible. */
  predicate NeedsGap(previousSpaced: bool, previousTouch: bool, next: KeyChange) {
    next.down || previousSpaced || previousTouch
  }

  function Later(a: Instant, b: Instant): Instant {
    if a > b then a else b
  }

  /** The edges waiting on one lane, in queue order. */
  function Waiting(queue: seq<ScheduledEdge>, lane: nat): seq<ScheduledEdge> {
    if queue == [] then []
    else
      var rest := Waiting(queue[..|queue| - 1], lane);
      if queue[|queue| - 1].change.lane == lane then rest + [queue[|queue| - 1]] else rest
  }

  /** The state a lane will be in once everything waiting has been emitted. */
  function Scheduled(queue: seq<ScheduledEdge>, lane: nat, pressed: bool): bool {
    var waiting := Waiting(queue, lane);
    if waiting == [] then pressed else waiting[|waiting| - 1].change.down
  }

  // ---------------------------------------------------------------- enqueue

  function WithoutNewest(queue: seq<ScheduledEdge>, lane: nat): seq<ScheduledEdge> {
    if queue == [] then []
    else if queue[|queue| - 1].change.lane == lane then queue[..|queue| - 1]
    else WithoutNewest(queue[..|queue| - 1], lane) + [queue[|queue| - 1]]
  }

  /** When a new edge of a lane may be emitted, behind the edges waiting on the
      lane or else behind the last one emitted there. */
  function Placed(waiting: seq<ScheduledEdge>, last: Option<EmittedEdge>, gap: int, change: KeyChange, now: Instant): (e: ScheduledEdge)
    ensures e.change == change
  {
    if waiting != [] then
      var previous := waiting[|waiting| - 1];
      if NeedsGap(previous.spaced, previous.change.touch, change)
      then ScheduledEdge(change, Later(previous.due + gap, now), true)
      else ScheduledEdge(change, Later(previous.due, now), false)
    else
      match last
      case None => ScheduledEdge(change, now, false)
      case Some(previous) =>
        if NeedsGap(previous.spaced, previous.touch, change) && now < previous.at + gap
        then ScheduledEdge(change, previous.at + gap, true)
        else ScheduledEdge(change, now, false)
  }

  function Enqueued(s: Spacer, change: KeyChange, now: Instant, osPressed: bool): Spacer
    requires change.lane < |s.last|
  {
    if Scheduled(s.queue, change.lane, osPressed) == change.down then s
    else if |Waiting(s.queue, change.lane)| >= MAX_WAITING_EDGES
    then Spacer(s.gap, WithoutNewest(s.queue, change.lane), s.last)
    else Spacer(s.gap, s.queue + [Placed(Waiting(s.queue, change.lane), s.last[change.lane], s.gap, change, now)], s.last)
  }

  /** A whole list of edges, in order. */
  function EnqueuedAll(s: Spacer, changes: seq<KeyChange>, now: Instant, pressed: seq<bool>): (r: Spacer)
    requires |s.last| == |pressed| && OnLanes(changes, |pressed|)
    ensures |r.last| == |pressed|
  {
    if changes == [] then s
    else
      var c := changes[|changes| - 1];
      Enqueued(EnqueuedAll(s, changes[..|changes| - 1], now, pressed), c, now, pressed[c.lane])
  }

  // ---------------------------------------------------------------- flush

  /** Edge `i` may go out now, given which earlier edges go out. */
  ghost predicate Ready(queue: seq<ScheduledEdge>, now: Instant, selected: set<nat>, i: nat)
    requires i < |queue|
  {
    && queue[i].due <= now
    && (forall j :: 0 <= j < i && queue[j].change.lane == queue[i].change.lane ==> j in selected)
    && (queue[i].spaced ==> forall j :: 0 <= j < i && queue[j].change.lane == queue[i].change.lane ==> j !in selected)
    && (queue[i].change.down || forall j :: 0 <= j < i && queue[j].change.down ==> j in selected)
  }

  /** The whole selection of a flush: exactly the ready edges. */
  ghost predicate Selection(queue: seq<ScheduledEdge>, now: Instant, selected: set<nat>) {
    && (forall i :: i in selected ==> i < |queue|)
    && forall i :: 0 <= i < |queue| ==> (i in selected <==> Ready(queue, now, selected, i))
  }

  /** What holds of any accepted part of a selection: due edges, each lane in
      queue order, a spaced edge never with its predecessor, and no release
      ahead of a press that was queued before it. */
  ghost predicate Emittable(queue: seq<ScheduledEdge>, now: Instant, out: set<nat>) {
    && (forall i :: i in out ==> i < |queue| && queue[i].due <= now)
    && (forall i, j :: i in out && 0 <= j < i && i < |queue| && queue[j].change.lane == queue[i].change.lane ==>
          j in out && !queue[i].spaced)
    && (forall i, j :: i in out && 0 <= j < i && i < |queue| && !queue[i].change.down && queue[j].change.down ==> j in out)
  }

  function Emitted(queue: seq<ScheduledEdge>, out: set<nat>): seq<ScheduledEdge> {
    if queue == [] then []
    else
      var rest := Emitted(queue[..|queue| - 1], out);
      if |queue| - 1 in out then rest + [queue[|queue| - 1]] else rest
  }

  function Kept(queue: seq<ScheduledEdge>, out: set<nat>): seq<ScheduledEdge> {
    if queue == [] then []
    else
      var rest := Kept(queue[..|queue| - 1], out);
      if |queue| - 1 in out then rest else rest + [queue[|queue| - 1]]
  }

  function Changes(edges: seq<ScheduledEdge>): (r: seq<KeyChange>)
    ensures |r| == |edges|
    ensures forall i :: 0 <= i < |edges| ==> r[i] == edges[i].change
  {
    seq(|edges|, i requires 0 <= i < |edges| => edges[i].change)
  }

  function LastAfter(last: seq<Option<EmittedEdge>>, edges: seq<ScheduledEdge>, now: Instant): (r: seq<Option<EmittedEdge>>)
    ensures |r| == |last|
  {
    if edges == [] then last
    else
      var r := LastAfter(last, edges[..|edges| - 1], now);
      var e := edges[|edges| - 1];
      if e.change.lane < |r| then r[e.change.lane := Some(EmittedEdge(now, e.spaced, e.change.touch))] else r
  }

  /** A late flush restarts the gap of a spaced follower from the real emission time. */
  function Restart(e: ScheduledEdge, last: Option<EmittedEdge>, now: Instant, gap: int): ScheduledEdge {
    if e.spaced && last.Some? && last.value.at == now
    then ScheduledEdge(e.change, Later(e.due, now + gap), e.spaced) else e
  }

  function Restarted(queue: seq<ScheduledEdge>, last: seq<Option<EmittedEdge>>, now: Instant, gap: int): (r: seq<ScheduledEdge>)
    ensures |r| == |queue|
  {
    if queue == [] then []
    else
      var e := queue[|queue| - 1];
      Restarted(queue[..|queue| - 1], last, now, gap)
      + [Restart(e, if e.change.lane < |last| then last[e.change.lane] else None, now, gap)]
  }

  function Flushed(s: Spacer, out: set<nat>, now: Instant): Spacer {
    var last := LastAfter(s.last, Emitted(s.queue, out), now);
    Spacer(s.gap, Restarted(Kept(s.queue, out), last, now, s.gap), last)
  }

  // ---------------------------------------------------------------- per-lane invariant

  /** The first waiting edge: opposite to the current state, separated from the
      last emitted edge, and due within one gap - at once if it is not spaced. */
  ghost predicate FirstGood(e: ScheduledEdge, last: Option<EmittedEdge>, pressed: bool, now: Instant, gap: int) {
    && e.change.down != pressed
    && (last.Some? && (e.spaced || NeedsGap(last.value.spaced, last.value.touch, e.change)) ==> e.due >= last.value.at + gap)
    && (e.spaced ==>
          last.Some? && (e.change.down || last.value.spaced || last.value.touch) && e.due == last.value.at + gap)
    && e.due <= (if e.spaced then now + gap else now)
  }

  /** A waiting edge behind `previous`: opposite to it, spaced exactly if it is a
      press or `previous` is spaced or a finger-down press, and due within one
      gap of it - together with it if it is not spaced. */
  ghost predicate FollowsGood(previous: ScheduledEdge, e: ScheduledEdge, now: Instant, gap: int) {
    && e.change.down != previous.change.down
    && (e.spaced <==> e.change.down || previous.spaced || previous.change.touch)
    && e.due <= Later(previous.due, now) + (if e.spaced then gap else 0)
  }

  ghost predicate LaneGood(waiting: seq<ScheduledEdge>, last: Option<EmittedEdge>, pressed: bool, now: Instant, gap: int) {
    && |waiting| <= MAX_WAITING_EDGES
    && (|waiting| > 0 ==> FirstGood(waiting[0], last, pressed, now, gap))
    && (|waiting| > 1 ==> FollowsGood(waiting[0], waiting[1], now, gap))
    && (|waiting| > 2 ==> FollowsGood(waiting[1], waiting[2], now, gap))
    && (last.Some? ==> last.value.at <= now)
  }

  ghost predicate Good(s: Spacer, pressed: seq<bool>, now: Instant) {
    && s.gap > 0
    && |s.last| == |pressed|
    && (forall i :: 0 <= i < |s.queue| ==> s.queue[i].change.lane < |pressed|)
    && forall lane :: 0 <= lane < |pressed| ==> LaneGood(Waiting(s.queue, lane), s.last[lane], pressed[lane], now, s.gap)
  }

  // ---------------------------------------------------------------- enqueue laws

  lemma WaitingPush(queue: seq<ScheduledEdge>, e: ScheduledEdge, lane: nat)
    ensures Waiting(queue + [e], lane) == if e.change.lane == lane then Waiting(queue, lane) + [e] else Waiting(queue, lane)
  {
    assert (queue + [e])[..|queue|] == queue;
  }

  lemma {:induction false} WaitingWithoutNewest(queue: seq<ScheduledEdge>, lane: nat, other: nat)
    requires Waiting(queue, lane) != []
    ensures Waiting(WithoutNewest(queue, lane), other)
         == if other == lane then Waiting(queue, lane)[..|Waiting(queue, lane)| - 1] else Waiting(queue, other)
    ensures |WithoutNewest(queue, lane)| == |queue| - 1
    ensures forall i :: 0 <= i < |WithoutNewest(queue, lane)| ==> WithoutNewest(queue, lane)[i] in queue
  {
    var front, last := queue[..|queue| - 1], queue[|queue| - 1];
    if last.change.lane != lane {
      WaitingWithoutNewest(front, lane, other);
      WaitingPush(WithoutNewest(front, lane), last, other);
    }
  }

  lemma GoodLater(s: Spacer, pressed: seq<bool>, before: Instant, now: Instant)
    requires Good(s, pressed, before) && before <= now
    ensures Good(s, pressed, now)
  {
  }

  /** Enqueueing keeps every lane's queue well-formed, and the lane ends in the
      state the edge asks for - also when the cap makes it cancel a waiting edge. */
  lemma EnqueueGood(s: Spacer, pressed: seq<bool>, change: KeyChange, now: Instant)
    requires Good(s, pressed, now) && change.lane < |pressed|
    ensures Good(Enqueued(s, change, now, pressed[change.lane]), pressed, now) && |s.last| == |pressed|
    ensures |Enqueued(s, change, now, pressed[change.lane]).queue| <= |s.queue| + 1
    ensures Scheduled(Enqueued(s, change, now, pressed[change.lane]).queue, change.lane, pressed[change.lane]) == change.down
    ensures forall lane :: 0 <= lane < |pressed| && lane != change.lane ==>
      Waiting(Enqueued(s, change, now, pressed[change.lane]).queue, lane) == Waiting(s.queue, lane)
  {
    hide LaneGood, Placed, WithoutNewest, Waiting;
    var w := Waiting(s.queue, change.lane);
    var last := s.last[change.lane];
    assert LaneGood(w, last, pressed[change.lane], now, s.gap);
    if Scheduled(s.queue, change.lane, pressed[change.lane]) != change.down {
      if |w| >= MAX_WAITING_EDGES {
        LaneCancel(w, last, pressed[change.lane], now, s.gap);
        forall lane | 0 <= lane < |pressed|
          ensures Waiting(WithoutNewest(s.queue, change.lane), lane) == if lane == change.lane then w[..|w| - 1] else Waiting(s.queue, lane)
        {
          WaitingWithoutNewest(s.queue, change.lane, lane);
        }
        WaitingWithoutNewest(s.queue, change.lane, 0);
      } else {
        var e := Placed(w, last, s.gap, change, now);
        LanePush(w, last, pressed[change.lane], now, s.gap, change);
        forall lane | 0 <= lane < |pressed|
          ensures Waiting(s.queue + [e], lane) == if lane == change.lane then w + [e] else Waiting(s.queue, lane)
        {
          WaitingPush(s.queue, e, lane);
        }
      }
    }
  }

  /** The same for a list: every lane ends in the state the list asks for. */
  lemma {:induction false} EnqueuedAllGood(s: Spacer, pressed: seq<bool>, changes: seq<KeyChange>, now: Instant)
    requires Good(s, pressed, now) && OnLanes(changes, |pressed|)
    ensures |s.last| == |pressed| && Good(EnqueuedAll(s, changes, now, pressed), pressed, now)
    ensures |EnqueuedAll(s, changes, now, pressed).queue| <= |s.queue| + |changes|
    ensures forall lane :: 0 <= lane < |pressed| ==>
      Scheduled(EnqueuedAll(s, changes, now, pressed).queue, lane, pressed[lane])
      == LaneAfter(Scheduled(s.queue, lane, pressed[lane]), changes, lane)
  {
    hide Waiting, LaneGood, Enqueued;
    if changes != [] {
      var front, c := changes[..|changes| - 1], changes[|changes| - 1];
      EnqueuedAllGood(s, pressed, front, now);
      EnqueueGood(EnqueuedAll(s, front, now, pressed), pressed, c, now);
    }
  }

  lemma LanePush(w: seq<ScheduledEdge>, last: Option<EmittedEdge>, pressed: bool, now: Instant, gap: int, change: KeyChange)
    requires LaneGood(w, last, pressed, now, gap) && gap > 0 && |w| < MAX_WAITING_EDGES
    requires change.down != (if w == [] then pressed else w[|w| - 1].change.down)
    ensures LaneGood(w + [Placed(w, last, gap, change, now)], last, pressed, now, gap)
  {
  }

  lemma LaneCancel(w: seq<ScheduledEdge>, last: Option<EmittedEdge>, pressed: bool, now: Instant, gap: int)
    requires LaneGood(w, last, pressed, now, gap) && w != []
    ensures LaneGood(w[..|w| - 1], last, pressed, now, gap) && |w| <= MAX_WAITING_EDGES
    ensures |w| > 1 ==> w[|w| - 2].change.down != w[|w| - 1].change.down
  {
  }

  /** An edge on a lane where nothing waits: after a pause of a gap - or as the first
      ever, or as the release of an ordinary unspaced press - it is due at once and
      unspaced, so a slide is not held up; else it is held back to exactly one gap
      after the last edge. */
  lemma IdleEnqueued(s: Spacer, pressed: seq<bool>, change: KeyChange, now: Instant)
    requires Good(s, pressed, now) && change.lane < |pressed|
    requires Waiting(s.queue, change.lane) == [] && change.down != pressed[change.lane]
    ensures var after := Waiting(Enqueued(s, change, now, pressed[change.lane]).queue, change.lane);
      var last := s.last[change.lane];
      after == [if last.Some? && now < last.value.at + s.gap && (change.down || last.value.spaced || last.value.touch)
                then ScheduledEdge(change, last.value.at + s.gap, true) else ScheduledEdge(change, now, false)]
  {
    WaitingPush(s.queue, Placed([], s.last[change.lane], s.gap, change, now), change.lane);
  }

  /** An edge behind waiting ones, while fewer than three wait: a press, and an edge
      behind a spaced one or a finger-down press, trails its predecessor by exactly
      one gap; any other goes with it. A fourth takes the newest back. */
  lemma BehindEnqueued(s: Spacer, pressed: seq<bool>, change: KeyChange, now: Instant)
    requires Good(s, pressed, now) && change.lane < |pressed| && Waiting(s.queue, change.lane) != []
    ensures var w := Waiting(s.queue, change.lane);
      var previous := w[|w| - 1];
      Waiting(Enqueued(s, change, now, pressed[change.lane]).queue, change.lane)
      == if previous.change.down == change.down then w
         else if |w| == 3 then w[..2]
         else if change.down || previous.spaced || previous.change.touch then
           w + [ScheduledEdge(change, Later(previous.due + s.gap, now), true)]
         else w + [ScheduledEdge(change, Later(previous.due, now), false)]
  {
    var w := Waiting(s.queue, change.lane);
    assert LaneGood(w, s.last[change.lane], pressed[change.lane], now, s.gap);
    WaitingPush(s.queue, Placed(w, s.last[change.lane], s.gap, change, now), change.lane);
    WaitingWithoutNewest(s.queue, change.lane, change.lane);
  }

  /** Edges that owe no gap, nor follow one that does, are due at once. */
  lemma PromptlyDue(s: Spacer, pressed: seq<bool>, now: Instant, lane: nat, i: nat)
    requires Good(s, pressed, now) && lane < |pressed| && i < |Waiting(s.queue, lane)|
    requires forall k :: 0 <= k <= i ==> !Waiting(s.queue, lane)[k].spaced
    ensures Waiting(s.queue, lane)[i].due <= now
  {
    var w := Waiting(s.queue, lane);
    assert LaneGood(w, s.last[lane], pressed[lane], now, s.gap);
    assert !w[0].spaced;
    if i > 0 { assert !w[1].spaced; }
  }

  /** Any waiting edge is due within one gap per edge on its lane, so within three gaps. */
  lemma DueBound(s: Spacer, pressed: seq<bool>, now: Instant, lane: nat, i: nat)
    requires Good(s, pressed, now) && lane < |pressed| && i < |Waiting(s.queue, lane)|
    ensures Waiting(s.queue, lane)[i].due <= now + (i + 1) * s.gap <= now + 3 * s.gap
  {
    var w := Waiting(s.queue, lane);
    assert LaneGood(w, s.last[lane], pressed[lane], now, s.gap);
  }
}
