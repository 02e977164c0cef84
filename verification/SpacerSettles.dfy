/** One flush is enough: after a fully accepted flush nothing that is left may go
    out at the same instant. */
module SpacerSettles {
  import opened Protocol
  import opened KeyPlanner
  import opened SpacerModel
  import opened SpacerLaws

  ghost predicate Has(edges: seq<ScheduledEdge>, e: ScheduledEdge) {
    exists m :: 0 <= m < |edges| && edges[m] == e
  }

  lemma {:induction false} KeptHas(queue: seq<ScheduledEdge>, out: set<nat>, j: nat)
    requires j < |queue| && j !in out
    ensures Has(Kept(queue, out), queue[j])
  {
    var front, last := queue[..|queue| - 1], queue[|queue| - 1];
    if j < |front| {
      KeptHas(front, out, j);
      var m :| 0 <= m < |Kept(front, out)| && Kept(front, out)[m] == queue[j];
      assert Kept(queue, out)[m] == queue[j];
    } else {
      assert Kept(queue, out)[|Kept(front, out)|] == queue[j];
    }
  }

  /** The lane's last emission is this very instant. */
  predicate JustEmitted(last: seq<Option<EmittedEdge>>, lane: nat, now: Instant) {
    lane < |last| && last[lane].Some? && last[lane].value.at == now
  }

  lemma {:induction false} EmittedNow(queue: seq<ScheduledEdge>, out: set<nat>, last: seq<Option<EmittedEdge>>, now: Instant)
    requires forall i :: 0 <= i < |queue| ==> queue[i].change.lane < |last|
    ensures forall j :: j in out && j < |queue| ==> JustEmitted(LastAfter(last, Emitted(queue, out), now), queue[j].change.lane, now)
  {
    if queue != [] {
      var front := queue[..|queue| - 1];
      EmittedNow(front, out, last, now);
      if |queue| - 1 in out {
        assert Emitted(queue, out)[..|Emitted(front, out)|] == Emitted(front, out);
      }
    }
  }

  /** Why a kept edge does not go out at this instant. */
  ghost predicate StaysBack(kept: seq<ScheduledEdge>, k: nat, last: seq<Option<EmittedEdge>>, now: Instant)
    requires k < |kept|
  {
    || kept[k].due > now
    || (kept[k].spaced && JustEmitted(last, kept[k].change.lane, now))
    || (exists m :: 0 <= m < k && kept[m].change.lane == kept[k].change.lane)
    || (!kept[k].change.down && exists m :: 0 <= m < k && kept[m].change.down)
  }

  lemma {:induction false} KeptStayBack(queue: seq<ScheduledEdge>, n: nat, out: set<nat>, last: seq<Option<EmittedEdge>>, now: Instant)
    requires n <= |queue| && Selection(queue, now, out)
    requires forall j :: j in out && j < |queue| ==> JustEmitted(last, queue[j].change.lane, now)
    ensures forall k :: 0 <= k < |Kept(queue[..n], out)| ==> StaysBack(Kept(queue[..n], out), k, last, now)
  {
    if n > 0 {
      KeptStayBack(queue, n - 1, out, last, now);
      var front, e := queue[..n - 1], queue[n - 1];
      assert queue[..n][..n - 1] == front;
      var before, kept := Kept(front, out), Kept(queue[..n], out);
      forall k | 0 <= k < |before| ensures StaysBack(kept, k, last, now) {
        assert StaysBack(before, k, last, now);
        assert forall m :: 0 <= m <= k ==> kept[m] == before[m];
      }
      if n - 1 !in out {
        LastStaysBack(queue, n - 1, out, last, now);
        assert kept == before + [e];
      }
    }
  }

  lemma LastStaysBack(queue: seq<ScheduledEdge>, i: nat, out: set<nat>, last: seq<Option<EmittedEdge>>, now: Instant)
    requires i < |queue| && Selection(queue, now, out) && i !in out
    requires forall j :: j in out && j < |queue| ==> JustEmitted(last, queue[j].change.lane, now)
    ensures StaysBack(Kept(queue[..i], out) + [queue[i]], |Kept(queue[..i], out)|, last, now)
  {
    hide Kept;
    var front, e := queue[..i], queue[i];
    var before := Kept(front, out);
    assert !Ready(queue, now, out, i);
    if j: nat :| j < i && queue[j].change.lane == e.change.lane && j !in out {
      KeptHas(front, out, j);
      var m :| 0 <= m < |before| && before[m] == queue[j];
      assert (before + [e])[m].change.lane == e.change.lane;
    } else if j: nat :| j < i && !e.change.down && queue[j].change.down && j !in out {
      KeptHas(front, out, j);
      var m :| 0 <= m < |before| && before[m] == queue[j];
      assert (before + [e])[m].change.down;
    }
  }

  lemma {:induction false} RestartedAt(queue: seq<ScheduledEdge>, last: seq<Option<EmittedEdge>>, now: Instant, gap: int)
    requires forall i :: 0 <= i < |queue| ==> queue[i].change.lane < |last|
    ensures forall i :: 0 <= i < |queue| ==>
      Restarted(queue, last, now, gap)[i] == Restart(queue[i], last[queue[i].change.lane], now, gap)
  {
    if queue != [] {
      RestartedAt(queue[..|queue| - 1], last, now, gap);
    }
  }

  /** After a whole selection went out, the next selection at this instant is empty. */
  lemma FlushSettles(s: Spacer, pressed: seq<bool>, now: Instant, out: set<nat>)
    requires Good(s, pressed, now) && Selection(s.queue, now, out)
    ensures Selection(Flushed(s, out, now).queue, now, {})
  {
    hide Kept, Emitted, Restarted, LastAfter, LaneGood;
    var kept := Kept(s.queue, out);
    var last := LastAfter(s.last, Emitted(s.queue, out), now);
    var after := Restarted(kept, last, now, s.gap);
    EmittedNow(s.queue, out, s.last, now);
    assert s.queue[..|s.queue|] == s.queue;
    KeptStayBack(s.queue, |s.queue|, out, last, now);
    KeptRange(s.queue, out, last, now, s.gap, |s.last|);
    RestartedAt(kept, last, now, s.gap);
    forall i | 0 <= i < |after| ensures !Ready(after, now, {}, i) {
      assert StaysBack(kept, i, last, now);
      assert forall m :: 0 <= m < i ==> after[m].change == kept[m].change;
    }
  }
}
