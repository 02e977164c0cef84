/** With re-press spacing, when does a retried flush begin with the half-written
    change that the writer insists on? */
module SpacedRetries {
  import opened Protocol
  import opened KeyPlanner
  import opened PlannerLaws
  import opened KeySinks
  import opened SpacerModel
  import opened SpacerLaws
  import opened SpacerSettles
  import opened RepressSpacers

  ghost predicate GoesOut(queue: seq<ScheduledEdge>, out: set<nat>, e: ScheduledEdge) {
    exists i :: 0 <= i < |queue| && i in out && queue[i] == e
  }

  lemma {:induction false} EmittedFrom(queue: seq<ScheduledEdge>, out: set<nat>)
    ensures forall n :: 0 <= n < |Emitted(queue, out)| ==> GoesOut(queue, out, Emitted(queue, out)[n])
  {
    if queue != [] {
      var front, last := queue[..|queue| - 1], queue[|queue| - 1];
      EmittedFrom(front, out);
      forall e | GoesOut(front, out, e) ensures GoesOut(queue, out, e) {
        var i :| 0 <= i < |front| && i in out && front[i] == e;
        assert queue[i] == e;
      }
      assert |queue| - 1 in out ==> queue[|queue| - 1] == last && GoesOut(queue, out, last);
    }
  }

  /** A batch that holds edge `k` begins with it exactly when no edge queued before it goes out as well. */
  lemma {:induction false} RetryHead(queue: seq<ScheduledEdge>, out: set<nat>, k: nat)
    requires k < |queue| && k in out
    requires forall i :: 0 <= i < k ==> queue[i].change != queue[k].change
    ensures Emitted(queue, out) != []
    ensures Emitted(queue, out)[0].change == queue[k].change <==> forall i :: 0 <= i < k ==> i !in out
  {
    var front := queue[..|queue| - 1];
    if k < |front| {
      RetryHead(front, out, k);
    } else {
      EmittedFrom(front, out);
      if i: nat :| i < k && i in out {
        EmittedSize(front, out, i);
      }
    }
  }

  lemma {:induction false} EmittedSize(queue: seq<ScheduledEdge>, out: set<nat>, i: nat)
    requires i < |queue| && i in out
    ensures Emitted(queue, out) != []
  {
    if i < |queue| - 1 {
      EmittedSize(queue[..|queue| - 1], out, i);
    }
  }

  /** Nothing ahead of place `k` goes out exactly when nothing ahead of it is ready by itself. */
  lemma {:induction false} NoneAhead(queue: seq<ScheduledEdge>, now: Instant, out: set<nat>, k: nat)
    requires k <= |queue| && Selection(queue, now, out)
    ensures (forall i :: 0 <= i < k ==> i !in out) <==> (forall i :: 0 <= i < k ==> !Ready(queue, now, {}, i))
  {
    if k > 0 {
      NoneAhead(queue, now, out, k - 1);
      assert k - 1 in out <==> Ready(queue, now, out, k - 1);
      if forall i :: 0 <= i < k - 1 ==> i !in out {
        assert Ready(queue, now, out, k - 1) <==> Ready(queue, now, {}, k - 1);
      }
    }
  }

  // ---------------------------------------------------------------- the half-written edge stays

  /** The place of the first edge with this change. */
  function Place(queue: seq<ScheduledEdge>, c: KeyChange): (k: nat)
    ensures k <= |queue|
    ensures k < |queue| ==> queue[k].change == c
    ensures forall i :: 0 <= i < k ==> queue[i].change != c
  {
    if queue == [] || queue[0].change == c then 0 else Place(queue[1..], c) + 1
  }

  lemma {:induction false} KeptAt(queue: seq<ScheduledEdge>, out: set<nat>, j: nat)
    requires j < |queue| && j !in out
    ensures |Kept(queue[..j], out)| < |Kept(queue, out)|
    ensures Kept(queue, out)[|Kept(queue[..j], out)|] == queue[j]
    ensures Kept(queue, out)[..|Kept(queue[..j], out)|] == Kept(queue[..j], out)
  {
    var front := queue[..|queue| - 1];
    if j < |front| {
      KeptAt(front, out, j);
      assert front[..j] == queue[..j];
    } else {
      assert front == queue[..j];
    }
  }

  ghost predicate Stays(queue: seq<ScheduledEdge>, out: set<nat>, e: ScheduledEdge) {
    exists i :: 0 <= i < |queue| && i !in out && queue[i] == e
  }

  lemma {:induction false} KeptFrom(queue: seq<ScheduledEdge>, out: set<nat>)
    ensures forall m :: 0 <= m < |Kept(queue, out)| ==> Stays(queue, out, Kept(queue, out)[m])
  {
    if queue != [] {
      var front, last := queue[..|queue| - 1], queue[|queue| - 1];
      KeptFrom(front, out);
      forall e | Stays(front, out, e) ensures Stays(queue, out, e) {
        var i :| 0 <= i < |front| && i !in out && front[i] == e;
        assert queue[i] == e;
      }
      assert |queue| - 1 !in out ==> queue[|queue| - 1] == last && Stays(queue, out, last);
    }
  }

  lemma {:induction false} NoneEmitted(queue: seq<ScheduledEdge>, out: set<nat>, lane: nat)
    requires forall i :: 0 <= i < |queue| && i in out ==> queue[i].change.lane != lane
    ensures Waiting(Emitted(queue, out), lane) == []
  {
    if queue != [] {
      NoneEmitted(queue[..|queue| - 1], out, lane);
      if |queue| - 1 in out {
        WaitingPush(Emitted(queue[..|queue| - 1], out), queue[|queue| - 1], lane);
      }
    }
  }

  lemma {:induction false} FirstWaiting(queue: seq<ScheduledEdge>, j: nat)
    requires j < |queue| && forall i :: 0 <= i < j ==> queue[i].change.lane != queue[j].change.lane
    ensures var w := Waiting(queue, queue[j].change.lane); w != [] && w[0] == queue[j]
  {
    var front := queue[..|queue| - 1];
    if j < |front| {
      FirstWaiting(front, j);
    } else {
      NoWaiting(front, queue[j].change.lane);
    }
  }

  lemma {:induction false} NoWaiting(queue: seq<ScheduledEdge>, lane: nat)
    requires forall i :: 0 <= i < |queue| ==> queue[i].change.lane != lane
    ensures Waiting(queue, lane) == []
  {
    if queue != [] {
      NoWaiting(queue[..|queue| - 1], lane);
    }
  }

  /** Whatever was selected but not accepted has nothing of its lane, and if it is
      a release no press, ahead of it any more. */
  lemma NothingInTheWay(queue: seq<ScheduledEdge>, now: Instant, selected: seq<nat>, n: nat, i: nat)
    requires Increasing(selected, |queue|) && Selection(queue, now, Indices(selected)) && n < |selected|
    requires i < selected[n] && i !in Indices(selected[..n])
    ensures queue[i].change.lane != queue[selected[n]].change.lane
    ensures !queue[selected[n]].change.down ==> !queue[i].change.down
  {
    var all := Indices(selected);
    assert selected[n] in all && Ready(queue, now, all, selected[n]);
    AcceptedBefore(selected, |queue|, n, i);
  }

  /** The accepted positions are exactly the selected ones ahead of the cut. */
  lemma AcceptedBefore(selected: seq<nat>, limit: nat, n: nat, i: nat)
    requires Increasing(selected, limit) && n < |selected|
    ensures i in Indices(selected[..n]) <==> i in Indices(selected) && i < selected[n]
  {
    if i in Indices(selected) && i < selected[n] {
      var b :| 0 <= b < |selected| && selected[b] == i;
      assert b < n;
      assert selected[..n][b] == i;
    }
    if i in Indices(selected[..n]) {
      var b :| 0 <= b < n && selected[..n][b] == i;
      assert selected[b] == i;
    }
  }

  /** The restart of gaps after a flush leaves an edge alone that was ready in it. */
  lemma RestartSpares(s: Spacer, pressed: seq<bool>, now: Instant, selected: seq<nat>, n: nat)
    requires Good(s, pressed, now) && Increasing(selected, |s.queue|) && Selection(s.queue, now, Indices(selected)) && n < |selected|
    ensures var e := s.queue[selected[n]];
      e.change.lane < |s.last| &&
      Restart(e, LastAfter(s.last, Emitted(s.queue, Indices(selected[..n])), now)[e.change.lane], now, s.gap) == e
  {
    hide Waiting, Emitted, LastAfter;
    var all, out, j := Indices(selected), Indices(selected[..n]), selected[n];
    var e, lane := s.queue[j], s.queue[j].change.lane;
    assert j in all && Ready(s.queue, now, all, j);
    if e.spaced {
      assert forall i :: 0 <= i < j ==> s.queue[i].change.lane != lane;
      forall i | 0 <= i < |s.queue| && i in out ensures s.queue[i].change.lane != lane {
        var b :| 0 <= b < n && selected[b] == i;
      }
      NoneEmitted(s.queue, out, lane);
      LastAfterLane(s.last, Emitted(s.queue, out), now, lane);
      FirstWaiting(s.queue, j);
      assert LaneGood(Waiting(s.queue, lane), s.last[lane], pressed[lane], now, s.gap);
    }
  }

  /** After the cut the half-written edge is still queued, due, and first of its
      lane; a release has no press ahead of it. */
  ghost predicate Resumable(queue: seq<ScheduledEdge>, now: Instant, k: nat) {
    k < |queue| && queue[k].due <= now
    && forall m :: 0 <= m < k ==>
      queue[m].change.lane != queue[k].change.lane && (queue[k].change.down || !queue[m].change.down)
  }

  lemma HalfWriteStays(s: Spacer, pressed: seq<bool>, now: Instant, out: set<nat>, c: KeyChange)
    requires Good(s, pressed, now) && Cut(s.queue, now, out, Some(Change(c)))
    ensures Resumable(Flushed(s, out, now).queue, now, Place(Flushed(s, out, now).queue, c))
  {
    hide Waiting, Emitted, Kept, Restarted, LastAfter;
    var selected: seq<nat>, n: nat :| CutAt(s.queue, now, selected, n, out, Some(Change(c)));
    var j := selected[n];
    var kept, k := Kept(s.queue, out), |Kept(s.queue[..j], out)|;
    var last := LastAfter(s.last, Emitted(s.queue, out), now);
    var after := Flushed(s, out, now).queue;
    AcceptedBefore(selected, |s.queue|, n, j);
    KeptAt(s.queue, out, j);
    KeptFrom(s.queue[..j], out);
    KeptRange(s.queue, out, last, now, s.gap, |s.last|);
    RestartedAt(kept, last, now, s.gap);
    RestartSpares(s, pressed, now, selected, n);
    assert j in Indices(selected) && Ready(s.queue, now, Indices(selected), j);
    assert after[k] == s.queue[j];
    forall m | 0 <= m < k
      ensures after[m].change.lane != after[k].change.lane && (after[k].change.down || !after[m].change.down)
    {
      assert kept[m] == Kept(s.queue[..j], out)[m] && Stays(s.queue[..j], out, kept[m]);
      var i :| 0 <= i < j && i !in out && s.queue[..j][i] == kept[m];
      NothingInTheWay(s.queue, now, selected, n, i);
    }
    PlaceIs(after, c, k);
  }

  lemma {:induction false} PlaceIs(queue: seq<ScheduledEdge>, c: KeyChange, k: nat)
    requires k < |queue| && queue[k].change == c && forall i :: 0 <= i < k ==> queue[i].change != c
    ensures Place(queue, c) == k
  {
    if k > 0 {
      PlaceIs(queue[1..], c, k - 1);
    }
  }

  // ---------------------------------------------------------------- the retry

  /** A flush left the change `c` half-written. A retry at any later instant gets
      past the writer exactly when its SYN is taken and no edge queued before it
      has become ready by then. */
  lemma SpacedRetry(s: Spacer, pressed: seq<bool>, now: Instant, out: set<nat>, d: Device, c: KeyChange,
                    later: Instant, again: set<nat>, sync: WriteAnswer, bulk: WriteAnswer)
    requires Good(s, pressed, now) && Cut(s.queue, now, out, d.pending) && d.pending == Some(Change(c)) && later >= now
    requires Selection(Flushed(s, out, now).queue, later, again)
    ensures var queue := Flushed(s, out, now).queue;
      !Refused(d, Changes(Emitted(queue, again)), sync, bulk)
      <==> Taken(sync, 1) > 0 && forall i :: 0 <= i < Place(queue, c) ==> !Ready(queue, later, {}, i)
  {
    hide Waiting, Emitted, Flushed;
    var queue := Flushed(s, out, now).queue;
    HalfWriteStays(s, pressed, now, out, c);
    RetryAt(d, queue, now, c, later, again, sync, bulk);
  }

  lemma RetryAt(d: Device, queue: seq<ScheduledEdge>, now: Instant, c: KeyChange,
                later: Instant, again: set<nat>, sync: WriteAnswer, bulk: WriteAnswer)
    requires Resumable(queue, now, Place(queue, c)) && later >= now && d.pending == Some(Change(c))
    requires Selection(queue, later, again)
    ensures !Refused(d, Changes(Emitted(queue, again)), sync, bulk)
       <==> Taken(sync, 1) > 0 && forall i :: 0 <= i < Place(queue, c) ==> !Ready(queue, later, {}, i)
  {
    hide Emitted, Place;
    var k := Place(queue, c);
    assert Ready(queue, later, again, k);
    RetryHead(queue, again, k);
    NoneAhead(queue, later, again, k);
  }

  /** Once an edge ahead has become ready, every further retry is refused, whenever
      it comes: nothing but a cancel gets the writer going again. */
  lemma SpacedRetryStuck(s: Spacer, pressed: seq<bool>, now: Instant, out: set<nat>, d: Device, c: KeyChange,
                         ready: Instant, i: nat, later: Instant, again: set<nat>, sync: WriteAnswer, bulk: WriteAnswer)
    requires Good(s, pressed, now) && Cut(s.queue, now, out, d.pending) && d.pending == Some(Change(c))
    requires now <= ready <= later && i < Place(Flushed(s, out, now).queue, c) && Ready(Flushed(s, out, now).queue, ready, {}, i)
    requires Selection(Flushed(s, out, now).queue, later, again)
    ensures Refused(d, Changes(Emitted(Flushed(s, out, now).queue, again)), sync, bulk)
  {
    hide Waiting, Emitted, Flushed;
    SpacedRetry(s, pressed, now, out, d, c, later, again, sync, bulk);
    assert Ready(Flushed(s, out, now).queue, later, {}, i);
  }

  // ---------------------------------------------------------------- a refused retry

  const PRESS0 := KeyChange(0, true, true)
  const LIFT0 := KeyChange(0, false, false)
  const PRESS1 := KeyChange(1, true, true)

  /** Lane 0 was pressed at 0; its release waits for the gap, a press of lane 1 is due. */
  function Queued(): seq<ScheduledEdge> { [ScheduledEdge(LIFT0, 5, true), ScheduledEdge(PRESS1, 1, false)] }

  function Waited(): Spacer { Spacer(5, Queued(), [Some(EmittedEdge(0, false, true)), None]) }

  method Queue(spacer: RepressSpacer, pressed: seq<bool>, change: KeyChange, now: Instant)
    requires spacer.Valid(pressed, now) && change.lane < |pressed|
    modifies spacer`queue
    ensures spacer.Valid(pressed, now) && spacer.Value() == Enqueued(old(spacer.Value()), change, now, pressed[change.lane])
  {
    hide Good, Separated, Recorded, Enqueued;
    EnqueueGood(spacer.Value(), pressed, change, now);
    spacer.Enqueue(change, now, pressed[change.lane]);
  }

  lemma TapQueued()
    ensures Enqueued(Spacer(5, [], [None, None]), PRESS0, 0, false) == Spacer(5, [ScheduledEdge(PRESS0, 0, false)], [None, None])
  {
  }

  lemma TapOut(out: set<nat>)
    requires Selection([ScheduledEdge(PRESS0, 0, false)], 0, out)
    ensures out == {0}
    ensures Flushed(Spacer(5, [ScheduledEdge(PRESS0, 0, false)], [None, None]), out, 0)
         == Spacer(5, [], [Some(EmittedEdge(0, false, true)), None])
    ensures Emitted([ScheduledEdge(PRESS0, 0, false)], out) == [ScheduledEdge(PRESS0, 0, false)]
  {
    var queue := [ScheduledEdge(PRESS0, 0, false)];
    assert Ready(queue, 0, out, 0) && queue[..0] == [];
    assert out == {0};
    assert Emitted(queue[..0], out) == [] && Kept(queue[..0], out) == [];
    assert |queue| - 1 == 0 && Emitted(queue, out) == [] + [queue[0]];
    assert Emitted(queue, out) == queue && Kept(queue, out) == [];
    assert LastAfter([None, None], queue, 0) == [Some(EmittedEdge(0, false, true)), None];
  }

  lemma TapPressed()
    ensures Applied([false, false], Changes([ScheduledEdge(PRESS0, 0, false)])) == [true, false]
  {
    assert Changes([ScheduledEdge(PRESS0, 0, false)]) == [PRESS0];
    LaneAfterPush(false, [], PRESS0, 0);
    LaneAfterPush(false, [], PRESS0, 1);
    assert [] + [PRESS0] == [PRESS0];
  }

  lemma BothQueued()
    ensures Enqueued(Enqueued(Spacer(5, [], [Some(EmittedEdge(0, false, true)), None]), LIFT0, 1, true), PRESS1, 1, false) == Waited()
  {
    var one := [ScheduledEdge(LIFT0, 5, true)];
    assert one[..0] == [];
    assert Waiting(one, 1) == [];
  }

  /** At 1 only the press of lane 1 is ready; half-written, it leaves the queue as it was. */
  lemma CutQueued(out: set<nat>, pending: Option<PendingWrite>)
    requires Cut(Queued(), 1, out, pending) && pending.Some?
    ensures pending == Some(Change(PRESS1)) && out == {} && Flushed(Waited(), out, 1) == Waited()
  {
    var queue := Queued();
    var selected: seq<nat>, n: nat :| CutAt(queue, 1, selected, n, out, pending);
    var all := Indices(selected);
    assert !Ready(queue, 1, all, 0);
    assert selected[n] in all && selected[n] == 1;
    forall i: nat ensures i !in out {
      AcceptedBefore(selected, |queue|, n, i);
    }
    assert out == {};
    assert queue[..1] == [queue[0]] && queue[..1][..0] == [];
    NothingKeptOut(queue);
  }

  lemma SomethingDue()
    ensures !Selection(Queued(), 1, {})
  {
    assert Ready(Queued(), 1, {}, 1);
  }

  lemma NothingKeptOut(queue: seq<ScheduledEdge>)
    requires queue == Queued()
    ensures Emitted(queue, {}) == [] && Kept(queue, {}) == queue
    ensures Restarted(queue, [Some(EmittedEdge(0, false, true)), None], 1, 5) == queue
  {
    assert queue[..1] == [queue[0]] && queue[..1][..0] == [];
    var last := [Some(EmittedEdge(0, false, true)), None];
    assert Emitted(queue[..1][..0], {}) == [] && Kept(queue[..1][..0], {}) == [];
    assert Emitted(queue[..1], {}) == [] && Kept(queue[..1], {}) == [queue[0]];
    assert Restart(queue[0], last[0], 1, 5) == queue[0] && Restart(queue[1], last[1], 1, 5) == queue[1];
    assert Restarted(queue[..1][..0], last, 1, 5) == [];
    assert queue[..1][|queue[..1]| - 1] == queue[0];
    assert Restarted(queue[..1], last, 1, 5) == [] + [Restart(queue[0], last[0], 1, 5)];
  }

  /** At 5 both edges are ready, and the release comes first. */
  lemma RetryQueued(out: set<nat>, d: Device, sync: WriteAnswer, bulk: WriteAnswer)
    requires d.pending == Some(Change(PRESS1))
    ensures Selection(Queued(), 5, out) ==> out != {} && Refused(d, Changes(Emitted(Queued(), out)), sync, bulk)
  {
    var queue := Queued();
    if Selection(queue, 5, out) {
      assert Ready(queue, 5, out, 0);
      assert 0 in out && Ready(queue, 5, out, 1);
      RetryHead(queue, out, 1);
    }
  }

  lemma SpacerLater(spacer: RepressSpacer, pressed: seq<bool>, before: Instant, now: Instant)
    requires spacer.Valid(pressed, before) && before <= now
    ensures spacer.Valid(pressed, now)
  {
    GoodLater(spacer.Value(), pressed, before, now);
  }

  /** A concrete run. Lane 0 is tapped at 0, so its release waits until 5; at 1 the
      kernel takes only the key event of a press on lane 1; at 5 the release is
      due and comes first, and the writer refuses the retry whatever the kernel takes. */
  method RefusedRetryRun(sync: WriteAnswer, bulk: WriteAnswer) returns (cut: Result<()>, retry: Result<()>, halfWritten: bool)
    ensures cut.Err? && halfWritten && retry.Err?
  {
    hide Good, Emitted, Kept, Cut, Separated, Recorded, Enqueued, Flushed, Selection, Refused, Faithful, Emittable;
    var spacer := new RepressSpacer(2, 5);
    var sink := new KeySink();
    var states := [false, false];
    ghost var out;
    var r;
    TapQueued();
    assert spacer.lastEmitted == [None, None];
    Queue(spacer, states, PRESS0, 0);
    states, r, out := spacer.Flush(0, sink, states, Failed, Wrote(2));
    TapOut(out);
    TapPressed();
    SpacerLater(spacer, states, 0, 1);
    BothQueued();
    Queue(spacer, states, LIFT0, 1);
    Queue(spacer, states, PRESS1, 1);
    SomethingDue();
    states, cut, out := spacer.Flush(1, sink, states, Failed, Wrote(1));
    halfWritten := sink.pending.Some?;
    CutQueued(out, sink.pending);
    SpacerLater(spacer, states, 1, 5);
    ghost var d := sink.Value();
    states, retry, out := spacer.Flush(5, sink, states, sync, bulk);
    RetryQueued(out, d, sync, bulk);
  }
}
