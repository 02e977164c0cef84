/** Whole runs of a slide under re-press spacing: no gap as long as no edge meets
    a full lane, and what exactly a cancelled edge costs. */
module SlideRuns {
  import opened Protocol
  import opened KeyPlanner
  import opened PlannerLaws
  import opened KeySinks
  import opened SpacerModel
  import opened SpacerLaws
  import opened SpacedSlides

  /** An edge is asked for, or part of a selection goes out. */
  datatype Act = Ask(change: KeyChange, at: Instant) | Send(out: set<nat>, at: Instant)

  datatype Track = Track(spacer: Spacer, pressed: seq<bool>)

  /** What a flush cut by the kernel emits: the first edges of the selection. */
  ghost predicate Part(queue: seq<ScheduledEdge>, now: Instant, out: set<nat>) {
    exists all: set<nat> :: Selection(queue, now, all) && out <= all && Leading(all, out)
  }

  ghost predicate Leading(all: set<nat>, out: set<nat>) {
    forall i, j :: i in all && j in out && i < j ==> i in out
  }

  lemma PartEmits(queue: seq<ScheduledEdge>, now: Instant, out: set<nat>)
    requires Part(queue, now, out)
    ensures Emittable(queue, now, out)
  {
    var all: set<nat> :| Selection(queue, now, all) && out <= all && Leading(all, out);
    assert forall i :: i in out ==> i in all && Ready(queue, now, all, i);
  }

  ghost predicate Fits(t: Track, act: Act) {
    && |t.spacer.last| == |t.pressed|
    && match act
       case Ask(change, _) => change.lane < |t.pressed|
       case Send(out, at) => Part(t.spacer.queue, at, out)
  }

  ghost function Next(t: Track, act: Act): (r: Track)
    requires Fits(t, act)
    ensures |r.spacer.last| == |r.pressed| == |t.pressed|
  {
    match act
    case Ask(change, at) => Track(Enqueued(t.spacer, change, at, t.pressed[change.lane]), t.pressed)
    case Send(out, at) => Track(Flushed(t.spacer, out, at), Applied(t.pressed, Changes(Emitted(t.spacer.queue, out))))
  }

  ghost predicate Possible(t: Track, acts: seq<Act>)
    decreases |acts|
  {
    acts == [] || (Fits(t, acts[0]) && Possible(Next(t, acts[0]), acts[1..]))
  }

  /** The changes that went out, in order. */
  ghost function Gone(t: Track, acts: seq<Act>): seq<KeyChange>
    requires Possible(t, acts)
    decreases |acts|
  {
    if acts == [] then []
    else (if acts[0].Send? then Changes(Emitted(t.spacer.queue, acts[0].out)) else []) + Gone(Next(t, acts[0]), acts[1..])
  }

  ghost function End(t: Track, acts: seq<Act>): Track
    requires Possible(t, acts)
    decreases |acts|
  {
    if acts == [] then t else End(Next(t, acts[0]), acts[1..])
  }

  /** No edge meets a full lane, and each leaves some lane headed down. */
  ghost predicate Sliding(t: Track, acts: seq<Act>)
    requires Possible(t, acts)
    decreases |acts|
  {
    acts == [] ||
    (&& (acts[0].Ask? ==> !MeetsFull(t.spacer, acts[0].change, t.pressed) && Headway(Next(t, acts[0]).spacer, t.pressed))
     && Sliding(Next(t, acts[0]), acts[1..]))
  }

  /** Slides leave no gap: whatever is asked for and whenever it goes out, in
      whatever parts, some lane is down after every edge - if no edge meets a full lane. */
  lemma {:induction false} SlideGapless(t: Track, acts: seq<Act>)
    requires Possible(t, acts) && Sliding(t, acts) && Bridged(t.pressed, t.spacer.queue)
    ensures Gapless(t.pressed, Gone(t, acts)) && Bridged(End(t, acts).pressed, End(t, acts).spacer.queue)
    decreases |acts|
  {
    hide Bridged, Gapless, Flushed, Emitted, Enqueued, Applied, MeetsFull;
    if acts == [] {
      NothingGone(t);
    } else {
      var next := Next(t, acts[0]);
      match acts[0] {
        case Ask(change, at) =>
          EnqueueBridged(t.spacer, t.pressed, change, at);
          SlideGapless(next, acts[1..]);
          assert [] + Gone(next, acts[1..]) == Gone(next, acts[1..]);
        case Send(out, at) =>
          PartEmits(t.spacer.queue, at, out);
          FlushBridged(t.spacer, t.pressed, at, out);
          SlideGapless(next, acts[1..]);
          GaplessConcat(t.pressed, Changes(Emitted(t.spacer.queue, out)), Gone(next, acts[1..]));
      }
    }
  }

  lemma NothingGone(t: Track)
    requires Bridged(t.pressed, t.spacer.queue)
    ensures Gapless(t.pressed, [])
  {
    assert Asserted(t.pressed, Changes(t.spacer.queue[..0])) && Changes(t.spacer.queue[..0]) == [];
    var none: seq<KeyChange> := [];
    assert forall n: nat :: n <= |none| ==> none[..n] == none;
  }

  // ---------------------------------------------------------------- the exact condition

  ghost predicate OnlySends(acts: seq<Act>) {
    forall i :: 0 <= i < |acts| ==> acts[i].Send?
  }

  /** The ready edges among the first `n`. */
  ghost function ReadySet(queue: seq<ScheduledEdge>, now: Instant, n: nat): (r: set<nat>)
    requires n <= |queue|
    ensures forall i :: i in r ==> i < n
  {
    if n == 0 then {}
    else
      var front := ReadySet(queue, now, n - 1);
      if Ready(queue, now, front, n - 1) then front + {n - 1} else front
  }

  lemma {:induction false} ReadySetIs(queue: seq<ScheduledEdge>, now: Instant, n: nat)
    requires n <= |queue|
    ensures forall i :: 0 <= i < n ==> (i in ReadySet(queue, now, n) <==> Ready(queue, now, ReadySet(queue, now, n), i))
  {
    if n > 0 {
      ReadySetIs(queue, now, n - 1);
      var front, all := ReadySet(queue, now, n - 1), ReadySet(queue, now, n);
      assert forall i :: 0 <= i < n - 1 ==> (i in all <==> i in front);
      forall i | 0 <= i < n ensures Ready(queue, now, all, i) <==> Ready(queue, now, front, i) {
      }
    }
  }

  function Latest(queue: seq<ScheduledEdge>, now: Instant): (t: Instant)
    ensures t >= now && forall i :: 0 <= i < |queue| ==> queue[i].due <= t
  {
    if queue == [] then now else Later(queue[|queue| - 1].due, Latest(queue[..|queue| - 1], now))
  }

  lemma {:induction false} FirstOut(queue: seq<ScheduledEdge>)
    requires queue != []
    ensures Emitted(queue, {0}) == [queue[0]] && Kept(queue, {0}) == queue[1..]
  {
    if |queue| > 1 {
      FirstOut(queue[..|queue| - 1]);
      assert queue[..|queue| - 1][1..] + [queue[|queue| - 1]] == queue[1..];
    } else {
      assert Emitted(queue[..0], {0}) == [] && Kept(queue[..0], {0}) == [];
    }
  }

  /** At an instant when everything is due, the kernel may take just the first change. */
  lemma FrontOut(t: Track, at: Instant)
    requires |t.spacer.last| == |t.pressed| && t.spacer.queue != []
    requires forall i :: 0 <= i < |t.spacer.queue| ==> t.spacer.queue[i].due <= at
    ensures Fits(t, Send({0}, at)) && Changes(Emitted(t.spacer.queue, {0})) == Changes(t.spacer.queue)[..1]
    ensures Changes(Next(t, Send({0}, at)).spacer.queue) == Changes(t.spacer.queue)[1..]
  {
    hide Emitted, Kept, Restarted, LastAfter;
    var queue := t.spacer.queue;
    var all := ReadySet(queue, at, |queue|);
    ReadySetIs(queue, at, |queue|);
    assert Ready(queue, at, all, 0);
    assert Selection(queue, at, all) && {0} <= all && Leading(all, {0});
    FirstOut(queue);
    RestartedRange(queue[1..], LastAfter(t.spacer.last, [queue[0]], at), at, t.spacer.gap);
  }

  /** Late flushes that the kernel cuts after one change empty the queue from its front. */
  lemma {:induction false} FrontGoes(t: Track, now: Instant, k: nat) returns (acts: seq<Act>)
    requires |t.spacer.last| == |t.pressed| && k <= |t.spacer.queue|
    ensures OnlySends(acts) && Possible(t, acts) && Gone(t, acts) == Changes(t.spacer.queue)[..k]
    ensures forall i :: 0 <= i < |acts| ==> acts[i].at >= now
    decreases k
  {
    hide Emitted, Flushed, Part, Applied;
    if k == 0 {
      acts := [];
    } else {
      var queue := t.spacer.queue;
      var send := Send({0}, Latest(queue, now));
      FrontOut(t, send.at);
      var next := Next(t, send);
      assert |next.spacer.queue| == |Changes(next.spacer.queue)|;
      var rest := FrontGoes(next, send.at, k - 1);
      acts := [send] + rest;
      assert acts[0] == send && acts[1..] == rest;
      assert Changes(queue)[..1] + Changes(queue)[1..][..k - 1] == Changes(queue)[..k];
    }
  }

  /** Exactly a bridged queue can go out in no way that leaves all lanes free. */
  lemma BridgedExact(t: Track, now: Instant)
    requires |t.spacer.last| == |t.pressed|
    ensures Bridged(t.pressed, t.spacer.queue)
       <==> forall acts: seq<Act> :: OnlySends(acts) && Possible(t, acts) ==> Gapless(t.pressed, Gone(t, acts))
  {
    if Bridged(t.pressed, t.spacer.queue) {
      forall acts: seq<Act> | OnlySends(acts) && Possible(t, acts) ensures Gapless(t.pressed, Gone(t, acts)) {
        SendsSlide(t, acts);
        SlideGapless(t, acts);
      }
    } else {
      var k: nat :| k <= |t.spacer.queue| && !Asserted(t.pressed, Changes(t.spacer.queue[..k]));
      var acts := FrontGoes(t, now, k);
      var gone := Gone(t, acts);
      assert gone[..|gone|] == gone == Changes(t.spacer.queue[..k]);
    }
  }

  lemma {:induction false} SendsSlide(t: Track, acts: seq<Act>)
    requires OnlySends(acts) && Possible(t, acts)
    ensures Sliding(t, acts)
    decreases |acts|
  {
    if acts != [] {
      SendsSlide(Next(t, acts[0]), acts[1..]);
    }
  }

  /** An edge that meets a full lane cancels the newest one there. From then on no
      way of sending the queue leaves a gap exactly if what is left is bridged. */
  lemma CancelExact(t: Track, change: KeyChange, now: Instant)
    requires |t.spacer.last| == |t.pressed| && change.lane < |t.pressed| && MeetsFull(t.spacer, change, t.pressed)
    ensures var after := Next(t, Ask(change, now));
      && after.spacer.queue == WithoutNewest(t.spacer.queue, change.lane)
      && (Bridged(t.pressed, WithoutNewest(t.spacer.queue, change.lane))
          <==> forall acts: seq<Act> :: OnlySends(acts) && Possible(after, acts) ==> Gapless(t.pressed, Gone(after, acts)))
  {
    BridgedExact(Next(t, Ask(change, now)), now);
  }
}
