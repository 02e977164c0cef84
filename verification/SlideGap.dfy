/** A slide that leaves a gap: one finger on three lanes, sliding faster than the
    spacing gap, until an edge meets a full lane and cancels a queued press. */
module SlideGap {
  import opened Protocol
  import opened KeyPlanner
  import opened PlannerLaws
  import opened KeySinks
  import opened SpacerModel
  import opened SpacerLaws
  import opened SpacerSettles
  import opened SpacedSlides
  import opened SlideRuns

  // ---------------------------------------------------------------- unfolding short queues

  function Picked(queue: seq<ScheduledEdge>, lane: nat, n: nat): seq<ScheduledEdge>
    requires n <= |queue|
  {
    if n == 0 then [] else Picked(queue, lane, n - 1) + (if queue[n - 1].change.lane == lane then [queue[n - 1]] else [])
  }

  lemma {:induction false} WaitingIs(queue: seq<ScheduledEdge>, lane: nat, n: nat)
    requires n <= |queue|
    ensures Waiting(queue[..n], lane) == Picked(queue, lane, n)
  {
    if n > 0 {
      WaitingIs(queue, lane, n - 1);
      assert queue[..n][..n - 1] == queue[..n - 1];
    }
  }

  /** The edges at the places that are, or are not, in `out`. */
  function Chosen(queue: seq<ScheduledEdge>, out: set<nat>, inside: bool, n: nat): seq<ScheduledEdge>
    requires n <= |queue|
  {
    if n == 0 then [] else Chosen(queue, out, inside, n - 1) + (if (n - 1 in out) == inside then [queue[n - 1]] else [])
  }

  lemma {:induction false} EmittedIs(queue: seq<ScheduledEdge>, out: set<nat>, n: nat)
    requires n <= |queue|
    ensures Emitted(queue[..n], out) == Chosen(queue, out, true, n) && Kept(queue[..n], out) == Chosen(queue, out, false, n)
  {
    if n > 0 {
      EmittedIs(queue, out, n - 1);
      assert queue[..n][..n - 1] == queue[..n - 1];
    }
  }

  /** A whole selection goes out. */
  ghost predicate Sent(t: Track, out: set<nat>, at: Instant, gone: seq<KeyChange>, after: Track) {
    && Selection(t.spacer.queue, at, out) && Fits(t, Send(out, at))
    && Next(t, Send(out, at)) == after && Changes(Emitted(t.spacer.queue, out)) == gone
  }

  ghost predicate Asked(t: Track, c: KeyChange, at: Instant, after: Track) {
    Fits(t, Ask(c, at)) && Next(t, Ask(c, at)) == after
  }

  lemma Whole(queue: seq<ScheduledEdge>, at: Instant, out: set<nat>)
    requires Selection(queue, at, out)
    ensures Part(queue, at, out)
  {
    assert Leading(out, out);
  }

  /** One edge for a short queue; `w` waits on its lane. */
  lemma AskIs(t: Track, c: KeyChange, at: Instant, w: seq<ScheduledEdge>)
    requires c.lane < |t.pressed| == |t.spacer.last| && w == Picked(t.spacer.queue, c.lane, |t.spacer.queue|)
    ensures Fits(t, Ask(c, at))
    ensures (if w == [] then t.pressed[c.lane] else w[|w| - 1].change.down) != c.down ==>
      Next(t, Ask(c, at)) == Track(Spacer(t.spacer.gap, if |w| >= MAX_WAITING_EDGES then WithoutNewest(t.spacer.queue, c.lane)
        else t.spacer.queue + [Placed(w, t.spacer.last[c.lane], t.spacer.gap, c, at)], t.spacer.last), t.pressed)
  {
    WaitingIs(t.spacer.queue, c.lane, |t.spacer.queue|);
    assert t.spacer.queue[..|t.spacer.queue|] == t.spacer.queue;
  }

  ghost predicate KeptIs(e: ScheduledEdge, at: Instant, after: Track, r: ScheduledEdge) {
    e.change.lane < |after.spacer.last| && r == Restart(e, after.spacer.last[e.change.lane], at, after.spacer.gap)
  }

  /** The edge went out, and no other of its lane. */
  ghost predicate GoneIs(gone: seq<ScheduledEdge>, i: nat, at: Instant, after: Track)
    requires i < |gone|
  {
    && gone[i].change.lane < |after.spacer.last| == |after.pressed|
    && after.spacer.last[gone[i].change.lane] == Some(EmittedEdge(at, gone[i].spaced, gone[i].change.touch))
    && after.pressed[gone[i].change.lane] == gone[i].change.down
    && forall j :: 0 <= j < |gone| && gone[j].change.lane == gone[i].change.lane ==> j == i
  }

  ghost predicate LaneKept(t: Track, gone: seq<ScheduledEdge>, after: Track, lane: nat) {
    && lane < |t.spacer.last| == |t.pressed| == |after.pressed| == |after.spacer.last|
    && ((forall i :: 0 <= i < |gone| ==> gone[i].change.lane != lane) ==>
          after.spacer.last[lane] == t.spacer.last[lane] && after.pressed[lane] == t.pressed[lane])
  }

  /** What a flush of `out` does to a short queue of three lanes, place by place. */
  ghost predicate Moves(t: Track, out: set<nat>, at: Instant, gone: seq<ScheduledEdge>, kept: seq<ScheduledEdge>, after: Track) {
    && |t.spacer.last| == |t.pressed| == 3 == |after.pressed| == |after.spacer.last| && after.spacer.gap == t.spacer.gap
    && gone == Chosen(t.spacer.queue, out, true, |t.spacer.queue|) && kept == Chosen(t.spacer.queue, out, false, |t.spacer.queue|)
    && (forall i :: 0 <= i < |t.spacer.queue| ==> t.spacer.queue[i].change.lane < 3)
    && (forall i :: 0 <= i < |gone| ==> GoneIs(gone, i, at, after))
    && LaneKept(t, gone, after, 0) && LaneKept(t, gone, after, 1) && LaneKept(t, gone, after, 2)
    && |after.spacer.queue| == |kept| && forall i :: 0 <= i < |kept| ==> KeptIs(kept[i], at, after, after.spacer.queue[i])
  }

  /** At most one edge of the lane. */
  lemma {:induction false} OneWaiting(edges: seq<ScheduledEdge>, n: nat, i: nat, lane: nat)
    requires n <= |edges| && forall j :: 0 <= j < n && j != i ==> edges[j].change.lane != lane
    ensures Waiting(edges[..n], lane) == if i < n && edges[i].change.lane == lane then [edges[i]] else []
  {
    if n > 0 {
      OneWaiting(edges, n - 1, i, lane);
      assert edges[..n][..n - 1] == edges[..n - 1];
    }
  }

  lemma LaneMoves(t: Track, out: set<nat>, at: Instant, gone: seq<ScheduledEdge>, kept: seq<ScheduledEdge>, after: Track, lane: nat)
    requires Moves(t, out, at, gone, kept, after) && lane < 3
    ensures LastAfter(t.spacer.last, gone, at)[lane] == after.spacer.last[lane]
    ensures LaneAfter(t.pressed[lane], Changes(gone), lane) == after.pressed[lane]
  {
    hide Waiting, LastAfter, LaneAfter, Chosen, KeptIs;
    LastAfterLane(t.spacer.last, gone, at, lane);
    EmittedReplay(gone, t.pressed[lane], lane);
    assert gone[..|gone|] == gone;
    if i: nat :| i < |gone| && gone[i].change.lane == lane {
      assert GoneIs(gone, i, at, after);
      OneWaiting(gone, |gone|, i, lane);
    } else {
      OneWaiting(gone, |gone|, |gone|, lane);
    }
  }

  lemma SendIs(t: Track, out: set<nat>, at: Instant, gone: seq<ScheduledEdge>, kept: seq<ScheduledEdge>, after: Track)
    requires Selection(t.spacer.queue, at, out) && Moves(t, out, at, gone, kept, after)
    ensures Sent(t, out, at, Changes(gone), after)
  {
    hide Emitted, Kept, Chosen, Picked, Waiting, LastAfter, Restarted, Part, LaneAfter, Restart, GoneIs;
    var queue := t.spacer.queue;
    Whole(queue, at, out);
    assert queue[..|queue|] == queue;
    EmittedIs(queue, out, |queue|);
    var last := LastAfter(t.spacer.last, gone, at);
    forall lane: nat | lane < 3
      ensures last[lane] == after.spacer.last[lane] && LaneAfter(t.pressed[lane], Changes(gone), lane) == after.pressed[lane]
    {
      LaneMoves(t, out, at, gone, kept, after, lane);
    }
    assert last == after.spacer.last;
    KeptRange(queue, out, last, at, t.spacer.gap, 3);
    RestartedAt(kept, last, at, t.spacer.gap);
    assert Restarted(kept, last, at, t.spacer.gap) == after.spacer.queue;
    assert Applied(t.pressed, Changes(gone)) == after.pressed;
  }

  // ---------------------------------------------------------------- the run

  const LAND1 := KeyChange(1, true, true)
  const PRESS0 := KeyChange(0, true, false)
  const PRESS1 := KeyChange(1, true, false)
  const PRESS2 := KeyChange(2, true, false)
  const LIFT0 := KeyChange(0, false, false)
  const LIFT1 := KeyChange(1, false, false)
  const LIFT2 := KeyChange(2, false, false)

  /** The queued edges, by their dues. */
  const LAND1_0 := ScheduledEdge(LAND1, 0, false)
  const LIFT0_0 := ScheduledEdge(LIFT0, 0, false)
  const LIFT1_10 := ScheduledEdge(LIFT1, 10, true)
  const LIFT1_30 := ScheduledEdge(LIFT1, 30, true)
  const LIFT2_10 := ScheduledEdge(LIFT2, 10, false)
  const PRESS0_0 := ScheduledEdge(PRESS0, 0, false)
  const PRESS0_10 := ScheduledEdge(PRESS0, 10, true)
  const PRESS0_30 := ScheduledEdge(PRESS0, 30, true)
  const PRESS1_20 := ScheduledEdge(PRESS1, 20, true)
  const PRESS1_40 := ScheduledEdge(PRESS1, 40, true)
  const PRESS2_0 := ScheduledEdge(PRESS2, 0, false)

  function Out(at: Instant, spaced: bool, touch: bool): Option<EmittedEdge> { Some(EmittedEdge(at, spaced, touch)) }

  /** The states of the run: one edge or one flush leads from each to the next. */
  function T0(): Track { Track(Spacer(10, [], [None, None, None]), [false, false, false]) }
  function T1(): Track { Track(Spacer(10, [LAND1_0], [None, None, None]), [false, false, false]) }
  function T2(): Track { Track(Spacer(10, [], [None, Out(0, false, true), None]), [false, true, false]) }
  function T3(): Track { Track(Spacer(10, [PRESS0_0], [None, Out(0, false, true), None]), [false, true, false]) }
  function T4(): Track {
    Track(Spacer(10, [PRESS0_0, LIFT1_10],
                 [None, Out(0, false, true), None]), [false, true, false])
  }
  function T5(): Track {
    Track(Spacer(10, [LIFT1_10],
                 [Out(0, false, false), Out(0, false, true), None]), [true, true, false])
  }
  function T6(): Track {
    Track(Spacer(10, [LIFT1_10, PRESS1_20],
                 [Out(0, false, false), Out(0, false, true), None]), [true, true, false])
  }
  function T7(): Track {
    Track(Spacer(10, [LIFT1_10, PRESS1_20, LIFT0_0],
                 [Out(0, false, false), Out(0, false, true), None]), [true, true, false])
  }
  function T8(): Track {
    Track(Spacer(10, [LIFT1_10, PRESS1_20, LIFT0_0, PRESS2_0],
                 [Out(0, false, false), Out(0, false, true), None]), [true, true, false])
  }
  function T9(): Track {
    Track(Spacer(10, [LIFT1_10, PRESS1_20, LIFT0_0, PRESS2_0, LIFT1_30],
                 [Out(0, false, false), Out(0, false, true), None]), [true, true, false])
  }
  function T10(): Track {
    Track(Spacer(10, [LIFT1_10, PRESS1_20, LIFT0_0, LIFT1_30],
                 [Out(0, false, false), Out(0, false, true), Out(0, false, false)]), [true, true, true])
  }
  function T11(): Track {
    Track(Spacer(10, [PRESS1_20, LIFT0_0, LIFT1_30],
                 [Out(0, false, false), Out(10, true, false), Out(0, false, false)]), [true, false, true])
  }
  function T12(): Track {
    Track(Spacer(10, [PRESS1_20, LIFT0_0, LIFT1_30, PRESS1_40],
                 [Out(0, false, false), Out(10, true, false), Out(0, false, false)]), [true, false, true])
  }
  function T13(): Track {
    Track(Spacer(10, [PRESS1_20, LIFT0_0, LIFT1_30, PRESS1_40, LIFT2_10],
                 [Out(0, false, false), Out(10, true, false), Out(0, false, false)]), [true, false, true])
  }
  function T14(): Track {
    Track(Spacer(10, [PRESS1_20, LIFT0_0, LIFT1_30, PRESS1_40, LIFT2_10, PRESS0_10],
                 [Out(0, false, false), Out(10, true, false), Out(0, false, false)]), [true, false, true])
  }
  function T15(): Track {
    Track(Spacer(10, [PRESS1_20, LIFT0_0, LIFT1_30, LIFT2_10, PRESS0_10],
                 [Out(0, false, false), Out(10, true, false), Out(0, false, false)]), [true, false, true])
  }
  function T16(): Track {
    Track(Spacer(10, [LIFT1_30, PRESS0_30],
                 [Out(20, false, false), Out(20, true, false), Out(20, false, false)]), [false, true, false])
  }
  function T17(): Track {
    Track(Spacer(10, [],
                 [Out(30, true, false), Out(30, true, false), Out(20, false, false)]), [true, false, false])
  }

  /** A finger lands on lane 1 ... */
  lemma Step1()
    ensures Asked(T0(), LAND1, 0, T1())
  {
    hide Waiting, Fits, Next, WithoutNewest;
    assert Picked(T0().spacer.queue, 1, 0) == [];
    AskIs(T0(), LAND1, 0, []);
  }

  lemma Selects2()
    ensures Selection(T1().spacer.queue, 0, {0})
  {
    var queue := T1().spacer.queue;
    assert Ready(queue, 0, {0}, 0);
  }

  lemma Step2()
    ensures Moves(T1(), {0}, 0, [LAND1_0], [], T2())
  {
    var queue, gone, kept := T1().spacer.queue, [LAND1_0], [];
    assert Chosen(queue, {0}, true, 1) == gone && Chosen(queue, {0}, false, 1) == kept;
    hide Chosen;
    assert GoneIs(gone, 0, 0, T2());
    assert LaneKept(T1(), gone, T2(), 0) && LaneKept(T1(), gone, T2(), 1) && LaneKept(T1(), gone, T2(), 2);
    hide GoneIs, LaneKept, KeptIs;
  }

  /** ... slides to lane 0 ... */
  lemma Step3()
    ensures Asked(T2(), PRESS0, 0, T3())
  {
    hide Waiting, Fits, Next, WithoutNewest;
    assert Picked(T2().spacer.queue, 0, 0) == [];
    AskIs(T2(), PRESS0, 0, []);
  }

  lemma Step4()
    ensures Asked(T3(), LIFT1, 0, T4())
  {
    hide Waiting, Fits, Next, WithoutNewest;
    assert Picked(T3().spacer.queue, 1, 1) == [];
    AskIs(T3(), LIFT1, 0, []);
  }

  lemma Selects5()
    ensures Selection(T4().spacer.queue, 0, {0})
  {
    var queue := T4().spacer.queue;
    assert Ready(queue, 0, {0}, 0) && !Ready(queue, 0, {0}, 1);
  }

  lemma Step5()
    ensures Moves(T4(), {0}, 0, [PRESS0_0], [LIFT1_10], T5())
  {
    var queue, gone, kept := T4().spacer.queue, [PRESS0_0], [LIFT1_10];
    assert Chosen(queue, {0}, true, 2) == gone && Chosen(queue, {0}, false, 2) == kept;
    hide Chosen;
    assert GoneIs(gone, 0, 0, T5());
    assert LaneKept(T4(), gone, T5(), 0) && LaneKept(T4(), gone, T5(), 1) && LaneKept(T4(), gone, T5(), 2);
    assert KeptIs(kept[0], 0, T5(), T5().spacer.queue[0]);
    hide GoneIs, LaneKept, KeptIs;
  }

  /** ... and at once back and on to lane 2. */
  lemma Step6()
    ensures Asked(T5(), PRESS1, 0, T6())
  {
    hide Waiting, Fits, Next, WithoutNewest;
    assert Picked(T5().spacer.queue, 1, 1) == [LIFT1_10];
    AskIs(T5(), PRESS1, 0, [LIFT1_10]);
  }

  lemma Step7()
    ensures Asked(T6(), LIFT0, 0, T7())
  {
    hide Waiting, Fits, Next, WithoutNewest;
    assert Picked(T6().spacer.queue, 0, 2) == [];
    AskIs(T6(), LIFT0, 0, []);
  }

  lemma Step8()
    ensures Asked(T7(), PRESS2, 0, T8())
  {
    hide Waiting, Fits, Next, WithoutNewest;
    assert Picked(T7().spacer.queue, 2, 3) == [];
    AskIs(T7(), PRESS2, 0, []);
  }

  lemma Step9()
    ensures Asked(T8(), LIFT1, 0, T9())
  {
    hide Waiting, Fits, Next, WithoutNewest;
    assert Picked(T8().spacer.queue, 1, 4) == [LIFT1_10, PRESS1_20];
    AskIs(T8(), LIFT1, 0, [LIFT1_10, PRESS1_20]);
  }

  lemma Selects10()
    ensures Selection(T9().spacer.queue, 0, {3})
  {
    var queue := T9().spacer.queue;
    assert !Ready(queue, 0, {3}, 0) && !Ready(queue, 0, {3}, 1) && !Ready(queue, 0, {3}, 2) && Ready(queue, 0, {3}, 3)
        && !Ready(queue, 0, {3}, 4);
  }

  lemma Step10()
    ensures Moves(T9(), {3}, 0, [PRESS2_0], [LIFT1_10, PRESS1_20, LIFT0_0, LIFT1_30], T10())
  {
    var queue, gone, kept := T9().spacer.queue, [PRESS2_0], [LIFT1_10, PRESS1_20, LIFT0_0, LIFT1_30];
    assert Chosen(queue, {3}, true, 5) == gone && Chosen(queue, {3}, false, 5) == kept;
    hide Chosen;
    assert GoneIs(gone, 0, 0, T10());
    assert LaneKept(T9(), gone, T10(), 0) && LaneKept(T9(), gone, T10(), 1) && LaneKept(T9(), gone, T10(), 2);
    assert KeptIs(kept[0], 0, T10(), T10().spacer.queue[0]) && KeptIs(kept[1], 0, T10(), T10().spacer.queue[1])
        && KeptIs(kept[2], 0, T10(), T10().spacer.queue[2]) && KeptIs(kept[3], 0, T10(), T10().spacer.queue[3]);
    hide GoneIs, LaneKept, KeptIs;
  }

  lemma Selects11()
    ensures Selection(T10().spacer.queue, 10, {0})
  {
    var queue := T10().spacer.queue;
    assert Ready(queue, 10, {0}, 0) && !Ready(queue, 10, {0}, 1) && !Ready(queue, 10, {0}, 2) && !Ready(queue, 10, {0}, 3);
  }

  lemma Step11()
    ensures Moves(T10(), {0}, 10, [LIFT1_10], [PRESS1_20, LIFT0_0, LIFT1_30], T11())
  {
    var queue, gone, kept := T10().spacer.queue, [LIFT1_10], [PRESS1_20, LIFT0_0, LIFT1_30];
    assert Chosen(queue, {0}, true, 4) == gone && Chosen(queue, {0}, false, 4) == kept;
    hide Chosen;
    assert GoneIs(gone, 0, 10, T11());
    assert LaneKept(T10(), gone, T11(), 0) && LaneKept(T10(), gone, T11(), 1) && LaneKept(T10(), gone, T11(), 2);
    assert KeptIs(kept[0], 10, T11(), T11().spacer.queue[0]) && KeptIs(kept[1], 10, T11(), T11().spacer.queue[1])
        && KeptIs(kept[2], 10, T11(), T11().spacer.queue[2]);
    hide GoneIs, LaneKept, KeptIs;
  }

  /** At 10 it slides back to lane 0: the last edge meets a full lane. */
  lemma Step12()
    ensures Asked(T11(), PRESS1, 10, T12())
  {
    hide Waiting, Fits, Next, WithoutNewest;
    assert Picked(T11().spacer.queue, 1, 3) == [PRESS1_20, LIFT1_30];
    AskIs(T11(), PRESS1, 10, [PRESS1_20, LIFT1_30]);
  }

  lemma Step13()
    ensures Asked(T12(), LIFT2, 10, T13())
  {
    hide Waiting, Fits, Next, WithoutNewest;
    assert Picked(T12().spacer.queue, 2, 4) == [];
    AskIs(T12(), LIFT2, 10, []);
  }

  lemma Step14()
    ensures Asked(T13(), PRESS0, 10, T14())
  {
    hide Waiting, Fits, Next, WithoutNewest;
    assert Picked(T13().spacer.queue, 0, 5) == [LIFT0_0];
    AskIs(T13(), PRESS0, 10, [LIFT0_0]);
  }

  lemma Step15()
    ensures Asked(T14(), LIFT1, 10, T15())
  {
    hide Waiting, Fits, Next;
    assert Picked(T14().spacer.queue, 1, 6) == [PRESS1_20, LIFT1_30, PRESS1_40];
    AskIs(T14(), LIFT1, 10, [PRESS1_20, LIFT1_30, PRESS1_40]);
    var queue := T14().spacer.queue;
    assert queue[..5][..4] == queue[..4] && queue[..4][..3] == queue[..3];
    assert WithoutNewest(queue[..4], 1) == queue[..3] && WithoutNewest(queue[..5], 1) == queue[..3] + [queue[4]];
  }

  lemma Selects16()
    ensures Selection(T15().spacer.queue, 20, {0, 1, 3})
  {
    var queue := T15().spacer.queue;
    assert Ready(queue, 20, {0, 1, 3}, 0) && Ready(queue, 20, {0, 1, 3}, 1) && !Ready(queue, 20, {0, 1, 3}, 2)
        && Ready(queue, 20, {0, 1, 3}, 3) && !Ready(queue, 20, {0, 1, 3}, 4);
  }

  lemma Step16()
    ensures Moves(T15(), {0, 1, 3}, 20, [PRESS1_20, LIFT0_0, LIFT2_10], [LIFT1_30, PRESS0_10], T16())
  {
    var queue, gone, kept := T15().spacer.queue, [PRESS1_20, LIFT0_0, LIFT2_10], [LIFT1_30, PRESS0_10];
    assert Chosen(queue, {0, 1, 3}, true, 5) == gone && Chosen(queue, {0, 1, 3}, false, 5) == kept;
    hide Chosen;
    assert GoneIs(gone, 0, 20, T16()) && GoneIs(gone, 1, 20, T16()) && GoneIs(gone, 2, 20, T16());
    assert LaneKept(T15(), gone, T16(), 0) && LaneKept(T15(), gone, T16(), 1) && LaneKept(T15(), gone, T16(), 2);
    assert KeptIs(kept[0], 20, T16(), T16().spacer.queue[0]) && KeptIs(kept[1], 20, T16(), T16().spacer.queue[1]);
    hide GoneIs, LaneKept, KeptIs;
  }

  lemma Selects17()
    ensures Selection(T16().spacer.queue, 30, {0, 1})
  {
    var queue := T16().spacer.queue;
    assert Ready(queue, 30, {0, 1}, 0) && Ready(queue, 30, {0, 1}, 1);
  }

  lemma Step17()
    ensures Moves(T16(), {0, 1}, 30, [LIFT1_30, PRESS0_30], [], T17())
  {
    var queue, gone, kept := T16().spacer.queue, [LIFT1_30, PRESS0_30], [];
    assert Chosen(queue, {0, 1}, true, 2) == gone && Chosen(queue, {0, 1}, false, 2) == kept;
    hide Chosen;
    assert GoneIs(gone, 0, 30, T17()) && GoneIs(gone, 1, 30, T17());
    assert LaneKept(T16(), gone, T17(), 0) && LaneKept(T16(), gone, T17(), 1) && LaneKept(T16(), gone, T17(), 2);
    hide GoneIs, LaneKept, KeptIs;
  }

  // ---------------------------------------------------------------- put together

  /** Every flush emits all that may go out. */
  ghost predicate WholeSends(t: Track, acts: seq<Act>)
    requires Possible(t, acts)
    decreases |acts|
  {
    acts == [] ||
    ((acts[0].Send? ==> Selection(t.spacer.queue, acts[0].at, acts[0].out)) && WholeSends(Next(t, acts[0]), acts[1..]))
  }

  function Asks(acts: seq<Act>): seq<KeyChange> {
    if acts == [] then [] else (if acts[0].Ask? then [acts[0].change] else []) + Asks(acts[1..])
  }

  /** What a stretch of the run asks for and what goes out in it. */
  ghost predicate Runs(t: Track, acts: seq<Act>, asks: seq<KeyChange>, gone: seq<KeyChange>) {
    Possible(t, acts) && WholeSends(t, acts) && Asks(acts) == asks && Gone(t, acts) == gone
  }

  lemma AskFirst(t: Track, c: KeyChange, at: Instant, after: Track, rest: seq<Act>, asks: seq<KeyChange>, gone: seq<KeyChange>)
    returns (acts: seq<Act>)
    requires Asked(t, c, at, after) && Runs(after, rest, asks, gone)
    ensures Runs(t, acts, [c] + asks, gone)
  {
    acts := [Ask(c, at)] + rest;
    assert acts[0] == Ask(c, at) && acts[1..] == rest;
    assert [] + gone == gone;
  }

  lemma SendFirst(t: Track, out: set<nat>, at: Instant, edges: seq<ScheduledEdge>, kept: seq<ScheduledEdge>, after: Track,
                  rest: seq<Act>, asks: seq<KeyChange>, gone: seq<KeyChange>)
    returns (acts: seq<Act>)
    requires Selection(t.spacer.queue, at, out) && Moves(t, out, at, edges, kept, after) && Runs(after, rest, asks, gone)
    ensures Runs(t, acts, asks, Changes(edges) + gone)
  {
    hide Moves, Selection, Emitted, Flushed, Applied, Part;
    SendIs(t, out, at, edges, kept, after);
    acts := [Send(out, at)] + rest;
    assert acts[0] == Send(out, at) && acts[1..] == rest;
    assert [] + asks == asks;
  }

  lemma NothingLeft(t: Track)
    ensures Runs(t, [], [], [])
  {
  }

  /** From 10 on. */
  lemma LastSlide() returns (acts: seq<Act>)
    ensures Runs(T11(), acts, [PRESS1, LIFT2, PRESS0, LIFT1], [PRESS1, LIFT0, LIFT2, LIFT1, PRESS0])
  {
    hide Moves, Asked, Selection, Runs;
    acts := [];
    var asks, gone := [], [];
    NothingLeft(T17());
    Selects17();
    Step17();
    acts := SendFirst(T16(), {0, 1}, 30, [LIFT1_30, PRESS0_30], [], T17(), acts, asks, gone);
    gone := Changes([LIFT1_30, PRESS0_30]) + gone;
    Selects16();
    Step16();
    acts := SendFirst(T15(), {0, 1, 3}, 20, [PRESS1_20, LIFT0_0, LIFT2_10], [LIFT1_30, PRESS0_10], T16(), acts, asks, gone);
    gone := Changes([PRESS1_20, LIFT0_0, LIFT2_10]) + gone;
    Step15();
    acts := AskFirst(T14(), LIFT1, 10, T15(), acts, asks, gone);
    asks := [LIFT1] + asks;
    Step14();
    acts := AskFirst(T13(), PRESS0, 10, T14(), acts, asks, gone);
    asks := [PRESS0] + asks;
    Step13();
    acts := AskFirst(T12(), LIFT2, 10, T13(), acts, asks, gone);
    asks := [LIFT2] + asks;
    Step12();
    acts := AskFirst(T11(), PRESS1, 10, T12(), acts, asks, gone);
    asks := [PRESS1] + asks;
    assert asks == [PRESS1, LIFT2, PRESS0, LIFT1] && gone == [PRESS1, LIFT0, LIFT2, LIFT1, PRESS0];
  }

  /** From the second slide on. */
  lemma SecondSlide() returns (acts: seq<Act>)
    ensures Runs(T5(), acts, [PRESS1, LIFT0, PRESS2, LIFT1, PRESS1, LIFT2, PRESS0, LIFT1], [PRESS2, LIFT1, PRESS1, LIFT0, LIFT2, LIFT1, PRESS0])
  {
    hide Moves, Asked, Selection, Runs;
    acts := LastSlide();
    var asks, gone := [PRESS1, LIFT2, PRESS0, LIFT1], [PRESS1, LIFT0, LIFT2, LIFT1, PRESS0];
    Selects11();
    Step11();
    acts := SendFirst(T10(), {0}, 10, [LIFT1_10], [PRESS1_20, LIFT0_0, LIFT1_30], T11(), acts, asks, gone);
    gone := Changes([LIFT1_10]) + gone;
    Selects10();
    Step10();
    acts := SendFirst(T9(), {3}, 0, [PRESS2_0], [LIFT1_10, PRESS1_20, LIFT0_0, LIFT1_30], T10(), acts, asks, gone);
    gone := Changes([PRESS2_0]) + gone;
    Step9();
    acts := AskFirst(T8(), LIFT1, 0, T9(), acts, asks, gone);
    asks := [LIFT1] + asks;
    Step8();
    acts := AskFirst(T7(), PRESS2, 0, T8(), acts, asks, gone);
    asks := [PRESS2] + asks;
    Step7();
    acts := AskFirst(T6(), LIFT0, 0, T7(), acts, asks, gone);
    asks := [LIFT0] + asks;
    Step6();
    acts := AskFirst(T5(), PRESS1, 0, T6(), acts, asks, gone);
    asks := [PRESS1] + asks;
    assert asks == [PRESS1, LIFT0, PRESS2, LIFT1, PRESS1, LIFT2, PRESS0, LIFT1]
        && gone == [PRESS2, LIFT1, PRESS1, LIFT0, LIFT2, LIFT1, PRESS0];
  }

  /** All of it. */
  lemma FirstSlide() returns (acts: seq<Act>)
    ensures Runs(T0(), acts, [LAND1, PRESS0, LIFT1, PRESS1, LIFT0, PRESS2, LIFT1, PRESS1, LIFT2, PRESS0, LIFT1],
                 [LAND1, PRESS0, PRESS2, LIFT1, PRESS1, LIFT0, LIFT2, LIFT1, PRESS0])
  {
    hide Moves, Asked, Selection, Runs;
    acts := SecondSlide();
    var asks, gone := [PRESS1, LIFT0, PRESS2, LIFT1, PRESS1, LIFT2, PRESS0, LIFT1], [PRESS2, LIFT1, PRESS1, LIFT0, LIFT2, LIFT1, PRESS0];
    Selects5();
    Step5();
    acts := SendFirst(T4(), {0}, 0, [PRESS0_0], [LIFT1_10], T5(), acts, asks, gone);
    gone := Changes([PRESS0_0]) + gone;
    Step4();
    acts := AskFirst(T3(), LIFT1, 0, T4(), acts, asks, gone);
    asks := [LIFT1] + asks;
    Step3();
    acts := AskFirst(T2(), PRESS0, 0, T3(), acts, asks, gone);
    asks := [PRESS0] + asks;
    Selects2();
    Step2();
    acts := SendFirst(T1(), {0}, 0, [LAND1_0], [], T2(), acts, asks, gone);
    gone := Changes([LAND1_0]) + gone;
    Step1();
    acts := AskFirst(T0(), LAND1, 0, T1(), acts, asks, gone);
    asks := [LAND1] + asks;
    assert asks == [LAND1, PRESS0, LIFT1, PRESS1, LIFT0, PRESS2, LIFT1, PRESS1, LIFT2, PRESS0, LIFT1]
        && gone == [LAND1, PRESS0, PRESS2, LIFT1, PRESS1, LIFT0, LIFT2, LIFT1, PRESS0];
  }

  /** Some lane is down after every prefix of what the finger asks for, from its landing on. */
  ghost predicate Connected(pressed: seq<bool>, asks: seq<KeyChange>) {
    forall k: nat :: 0 < k <= |asks| ==> Asserted(pressed, asks[..k])
  }

  /** A lane is as the newest change on it says. */
  lemma {:induction false} NewestSays(before: bool, changes: seq<KeyChange>, k: nat, j: nat)
    requires j < k <= |changes| && forall i :: j < i < k ==> changes[i].lane != changes[j].lane
    ensures LaneAfter(before, changes[..k], changes[j].lane) == changes[j].down
  {
    assert changes[..k][..k - 1] == changes[..k - 1];
    if j < k - 1 {
      NewestSays(before, changes, k - 1, j);
    }
  }

  lemma FingerConnected()
    ensures Connected(T0().pressed, [LAND1, PRESS0, LIFT1, PRESS1, LIFT0, PRESS2, LIFT1, PRESS1, LIFT2, PRESS0, LIFT1])
  {
    hide LaneAfter;
    var asks := [LAND1, PRESS0, LIFT1, PRESS1, LIFT0, PRESS2, LIFT1, PRESS1, LIFT2, PRESS0, LIFT1];
    forall k: nat | 0 < k <= |asks| ensures Asserted(T0().pressed, asks[..k]) {
      var j := if k == 1 then 0 else k - 1 - (1 - (k - 1) % 2);
      assert asks[j].down && asks[j].lane < 3;
      NewestSays(false, asks, k, j);
      assert LaneAfter(T0().pressed[asks[j].lane], asks[..k], asks[j].lane);
    }
  }

  lemma AllFree()
    ensures !Asserted(T0().pressed, [LAND1, PRESS0, PRESS2, LIFT1, PRESS1, LIFT0, LIFT2, LIFT1, PRESS0][..8])
  {
    hide LaneAfter;
    var gone := [LAND1, PRESS0, PRESS2, LIFT1, PRESS1, LIFT0, LIFT2, LIFT1, PRESS0];
    NewestSays(false, gone, 8, 5);
    NewestSays(false, gone, 8, 7);
    NewestSays(false, gone, 8, 6);
  }

  /** The gap. Although some lane is headed down after every edge the finger asks
      for, and every flush emits all that may go out, the eighth edge that goes
      out leaves all lanes free. */
  lemma GapRun() returns (acts: seq<Act>)
    ensures Possible(T0(), acts) && WholeSends(T0(), acts) && Connected(T0().pressed, Asks(acts))
    ensures |Gone(T0(), acts)| == 9 && !Asserted(T0().pressed, Gone(T0(), acts)[..8])
  {
    hide Possible, Gone, WholeSends, Asserted, Connected, Asks;
    FingerConnected();
    AllFree();
    acts := FirstSlide();
  }
}
