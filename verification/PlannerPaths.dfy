/** Which edges a plan holds, one by one: every lane of a slide, both halves of a
    split re-press, and nothing on lanes that stay held. */
module PlannerPaths {
  import opened Protocol
  import opened KeyPlanner
  import opened PlannerLaws
  import opened PlannerBounds

  // ---------------------------------------------------------------- slides

  /** The lane `k` steps from `current` on the way to `destination`. */
  function OnTheWay(current: nat, destination: nat, k: nat): int {
    if destination > current then current + k else current - k
  }

  function Apart(current: nat, destination: nat): nat {
    if destination > current then destination - current else current - destination
  }

  /** The press of each next lane directly followed by the release of the one
      before, lane by lane up to the destination. */
  function Crossing(current: nat, destination: nat): seq<KeyChange> {
    seq(2 * Apart(current, destination), i requires 0 <= i < 2 * Apart(current, destination) =>
      if i % 2 == 0 then KeyChange(OnTheWay(current, destination, i / 2 + 1), true, false)
      else KeyChange(OnTheWay(current, destination, i / 2), false, false))
  }

  lemma CrossingStep(current: nat, destination: nat, next: nat)
    requires current != destination && next == OnTheWay(current, destination, 1)
    ensures Crossing(current, destination) == [KeyChange(next, true, false), KeyChange(current, false, false)] + Crossing(next, destination)
  {
    var first := [KeyChange(next, true, false), KeyChange(current, false, false)];
    assert Apart(next, destination) == Apart(current, destination) - 1;
    forall i | 0 <= i < 2 * Apart(current, destination)
      ensures Crossing(current, destination)[i] == (first + Crossing(next, destination))[i]
    {
      if i >= 2 {
        assert (i - 2) / 2 == i / 2 - 1 && (i - 2) % 2 == i % 2;
      }
    }
  }

  /** Nobody holds the lanes ahead, up to the destination. */
  ghost predicate FreeAhead(holds: seq<nat>, current: nat, destination: nat) {
    forall l :: 0 <= l < |holds| && (current < l <= destination || destination <= l < current) ==> holds[l] == 0
  }

  lemma StepOnto(d: Draft, lanes: nat, p: PointerId, current: nat, destination: nat, next: nat)
    requires d.Shaped(lanes) && current < lanes && destination < lanes && current != destination
    requires d.fingers.holds[current] == 1 && FreeAhead(d.fingers.holds, current, destination)
    requires next == if destination > current then current + 1 else current - 1
    ensures next == Toward(current, destination) == OnTheWay(current, destination, 1) && next < lanes
    ensures var e := SlideStep(d, lanes, p, current, next);
      && e.changes == d.changes + [KeyChange(next, true, false), KeyChange(current, false, false)]
      && e.fingers.holds[next] == 1 && FreeAhead(e.fingers.holds, next, destination)
  {
  }

  /** A slide over free lanes presses and releases every lane it crosses. */
  lemma {:induction false} SlidePath(d: Draft, lanes: nat, p: PointerId, current: nat, destination: nat)
    requires d.Shaped(lanes) && current < lanes && destination < lanes
    requires d.fingers.holds[current] == 1 && FreeAhead(d.fingers.holds, current, destination)
    ensures Slide(d, lanes, p, current, destination).changes == d.changes + Crossing(current, destination)
    decreases Apart(current, destination)
  {
    hide Crossing, SlideStep, FreeAhead, OnTheWay;
    if current == destination {
      NoCrossing(current);
    } else {
      var next := if destination > current then current + 1 else current - 1;
      StepOnto(d, lanes, p, current, destination, next);
      CrossingStep(current, destination, next);
      SlidePath(SlideStep(d, lanes, p, current, next), lanes, p, next, destination);
      assert d.changes + [KeyChange(next, true, false), KeyChange(current, false, false)] + Crossing(next, destination)
          == d.changes + ([KeyChange(next, true, false), KeyChange(current, false, false)] + Crossing(next, destination));
    }
  }

  lemma NoCrossing(current: nat)
    ensures Crossing(current, current) == []
  {
  }

  /** Whoever holds the other lanes: every free lane that is crossed is pressed,
      and every one that is left again is released. */
  lemma {:induction false} SlideCrosses(d: Draft, lanes: nat, p: PointerId, current: nat, destination: nat, l: nat)
    requires d.Shaped(lanes) && current < lanes && destination < lanes && l < lanes && d.fingers.holds[l] == 0
    requires current < l <= destination || destination <= l < current
    ensures KeyChange(l, true, false) in Slide(d, lanes, p, current, destination).changes
    ensures l != destination ==> KeyChange(l, false, false) in Slide(d, lanes, p, current, destination).changes
    decreases Apart(current, destination)
  {
    var next := Toward(current, destination);
    var e := SlideStep(d, lanes, p, current, next);
    SlideKeeps(e, lanes, p, next, destination);
    if l == next {
      assert e.changes[|d.changes|] == KeyChange(l, true, false);
      if l != destination {
        SlideLeaves(e, lanes, p, l, destination);
      }
    } else {
      SlideCrosses(e, lanes, p, next, destination, l);
    }
  }

  /** A slide that starts on a lane held once releases it. */
  lemma SlideLeaves(d: Draft, lanes: nat, p: PointerId, current: nat, destination: nat)
    requires d.Shaped(lanes) && current < lanes && destination < lanes && current != destination && d.fingers.holds[current] == 1
    ensures KeyChange(current, false, false) in Slide(d, lanes, p, current, destination).changes
  {
    var next := Toward(current, destination);
    var e := SlideStep(d, lanes, p, current, next);
    SlideKeeps(e, lanes, p, next, destination);
    assert e.changes[|e.changes| - 1] == KeyChange(current, false, false);
  }

  /** The contact that is served first: the action pointer's, or else the first listed. */
  ghost predicate First(frame: TouchFrame, c: Contact) {
    || (c in frame.contacts && c.pointerId == frame.actionPointerId)
    || (frame.contacts != [] && c == frame.contacts[0]
        && forall i :: 0 <= i < |frame.contacts| ==> frame.contacts[i].pointerId != frame.actionPointerId)
  }

  lemma {:induction false} NoAction(contacts: seq<Contact>, id: PointerId)
    requires forall i :: 0 <= i < |contacts| ==> contacts[i].pointerId != id
    ensures OtherContacts(contacts, id) == contacts
  {
    if contacts != [] {
      NoAction(contacts[..|contacts| - 1], id);
    }
  }

  lemma {:induction false} NoActionContact(contacts: seq<Contact>, id: PointerId)
    requires forall i :: 0 <= i < |contacts| ==> contacts[i].pointerId != id
    ensures ActionContact(contacts, id) == []
  {
    if contacts != [] {
      NoActionContact(contacts[1..], id);
    }
  }

  lemma FirstServed(frame: TouchFrame, c: Contact)
    requires DistinctPointers(frame.contacts) && First(frame, c)
    ensures var order := ActionFirst(frame.contacts, frame.actionPointerId); order != [] && order[0] == c
  {
    var contacts, id := frame.contacts, frame.actionPointerId;
    ActionContactIs(contacts, id);
    if c.pointerId == id {
      assert ActionContact(contacts, id) == [c];
    } else {
      NoAction(contacts, id);
      NoActionContact(contacts, id);
    }
  }

  lemma FirstEdges(state: Fingers, lanes: nat, frame: TouchFrame, c: Contact)
    requires state.Shaped(lanes) && lanes > 0 && DistinctPointers(frame.contacts) && First(frame, c)
    ensures var start := Draft(Fingers(state.pointers, seq(POINTER_ID_COUNT, _ => false), state.holds), []);
      ApplyContact(start, lanes, c).changes <= Unfiltered(state, lanes, frame).changes
  {
    hide LiftMissing, Suppression, ApplyContact;
    FirstServed(frame, c);
    var order := ActionFirst(frame.contacts, frame.actionPointerId);
    var start := Draft(Fingers(state.pointers, seq(POINTER_ID_COUNT, _ => false), state.holds), []);
    assert order[..1] == [c] && order[..1][..0] == [];
    assert ApplyContacts(start, lanes, order[..1]) == ApplyContact(start, lanes, c);
    ContactsKeep(start, lanes, order, 1);
    LiftKeeps(Marked(ApplyContacts(start, lanes, order), frame.contacts), lanes, Present(frame.contacts), POINTER_ID_COUNT);
  }

  /** The finger served first slides: the plan presses every free lane it crosses
      and releases every one it leaves again. */
  lemma PlanCrosses(state: Fingers, lanes: nat, frame: TouchFrame, split: bool, c: Contact, l: nat)
    requires state.Shaped(lanes) && lanes > 0 && DistinctPointers(frame.contacts)
    requires First(frame, c) && c.tip && !c.keySuppressed
    requires state.pointers[c.pointerId].Some? && l < lanes && state.holds[l] == 0
    requires var current, destination := state.pointers[c.pointerId].value, LaneFor(c.x, lanes);
      current < l <= destination || destination <= l < current
    ensures KeyChange(l, true, false) in Plan(state, lanes, frame, split).changes
    ensures l != LaneFor(c.x, lanes) ==> KeyChange(l, false, false) in Plan(state, lanes, frame, split).changes
  {
    hide Unfiltered, Continuous, Represses, Slide;
    var start := Draft(Fingers(state.pointers, seq(POINTER_ID_COUNT, _ => false), state.holds), []);
    var all := Unfiltered(state, lanes, frame);
    SlideCrosses(start, lanes, c.pointerId, state.pointers[c.pointerId].value, LaneFor(c.x, lanes), l);
    FirstEdges(state, lanes, frame, c);
    var slid := ApplyContact(start, lanes, c).changes;
    Within(slid, all.changes, KeyChange(l, true, false));
    Within(slid, all.changes, KeyChange(l, false, false));
    ContinuousKeeps(all.changes, state.holds, all.fingers.holds, KeyChange(l, true, false));
    if l != LaneFor(c.x, lanes) {
      ContinuousKeeps(all.changes, state.holds, all.fingers.holds, KeyChange(l, false, false));
    }
  }

  lemma Within(a: seq<KeyChange>, b: seq<KeyChange>, c: KeyChange)
    requires a <= b
    ensures c in a ==> c in b
  {
    if c in a {
      var k :| 0 <= k < |a| && a[k] == c;
      assert b[k] == c;
    }
  }

  // ---------------------------------------------------------------- re-presses

  /** The release of a lane directly followed by its new press. */
  ghost predicate SplitAt(changes: seq<KeyChange>, lane: nat, k: nat) {
    k + 1 < |changes| && changes[k] == KeyChange(lane, false, false) && changes[k + 1] == KeyChange(lane, true, true)
  }

  lemma {:induction false} RepressesSplit(state: Fingers, after: Fingers, lanes: nat, frame: TouchFrame, n: nat, i: nat) returns (k: nat)
    requires state.Shaped(lanes) && after.Shaped(lanes) && i < n <= |frame.contacts|
    requires LandsOnHeldLane(state, after, lanes, frame, frame.contacts[i])
    ensures SplitAt(Represses(state, after, lanes, frame, true, n), after.pointers[frame.contacts[i].pointerId].value, k)
  {
    if i == n - 1 {
      k := |Represses(state, after, lanes, frame, true, n - 1)|;
    } else {
      k := RepressesSplit(state, after, lanes, frame, n - 1, i);
    }
  }

  /** A finger lands, or qualifies by pressure only now, on a lane that was held. */
  ghost predicate Joins(state: Fingers, lanes: nat, frame: TouchFrame, c: Contact)
    requires state.Shaped(lanes) && lanes > 0
  {
    && c in frame.contacts && c.tip && !c.keySuppressed && state.pointers[c.pointerId].None?
    && ((frame.action == Down && c.pointerId == frame.actionPointerId) || state.suppressed[c.pointerId])
    && state.holds[LaneFor(c.x, lanes)] > 0
  }

  lemma JoinsLands(state: Fingers, lanes: nat, frame: TouchFrame, i: nat)
    requires state.Shaped(lanes) && lanes > 0 && Counted(state) && DistinctPointers(frame.contacts) && i < |frame.contacts|
    requires Joins(state, lanes, frame, frame.contacts[i])
    ensures var after := Unfiltered(state, lanes, frame).fingers;
      && LandsOnHeldLane(state, after, lanes, frame, frame.contacts[i])
      && after.pointers[frame.contacts[i].pointerId] == Some(LaneFor(frame.contacts[i].x, lanes))
  {
    hide Unfiltered;
    UnfilteredExact(state, lanes, frame, false, 0);
  }

  /** With spacing a finger that joins a held lane makes the plan release the
      lane and press it anew, in this order and next to each other. */
  lemma PlanSplits(state: Fingers, lanes: nat, frame: TouchFrame, c: Contact) returns (k: nat)
    requires state.Shaped(lanes) && lanes > 0 && Counted(state) && DistinctPointers(frame.contacts)
    requires Joins(state, lanes, frame, c)
    ensures SplitAt(Plan(state, lanes, frame, true).changes, LaneFor(c.x, lanes), k)
  {
    hide Unfiltered, Continuous, Represses;
    var i :| 0 <= i < |frame.contacts| && frame.contacts[i] == c;
    var all := Unfiltered(state, lanes, frame);
    JoinsLands(state, lanes, frame, i);
    var j := RepressesSplit(state, all.fingers, lanes, frame, |frame.contacts|, i);
    k := |Continuous(all.changes, state.holds, all.fingers.holds)| + j;
  }

  lemma LandsJoins(state: Fingers, lanes: nat, frame: TouchFrame, i: nat)
    requires state.Shaped(lanes) && lanes > 0 && Counted(state) && DistinctPointers(frame.contacts) && i < |frame.contacts|
    requires LandsOnHeldLane(state, Unfiltered(state, lanes, frame).fingers, lanes, frame, frame.contacts[i])
    ensures Joins(state, lanes, frame, frame.contacts[i])
    ensures Unfiltered(state, lanes, frame).fingers.pointers[frame.contacts[i].pointerId]
         == Some(LaneFor(frame.contacts[i].x, lanes))
  {
    hide Unfiltered, LaneFor;
    var after := Unfiltered(state, lanes, frame).fingers;
    var c := frame.contacts[i];
    UnfilteredExact(state, lanes, frame, false, 0);
    assert after.pointers[c.pointerId] == Target(c, lanes);
  }

  /** There is no other re-press: each one comes from a finger that joins its lane. */
  lemma {:induction false} RepressesOnly(state: Fingers, lanes: nat, frame: TouchFrame, split: bool, n: nat, e: KeyChange)
    requires state.Shaped(lanes) && lanes > 0 && Counted(state) && DistinctPointers(frame.contacts) && n <= |frame.contacts|
    requires e in Represses(state, Unfiltered(state, lanes, frame).fingers, lanes, frame, split, n)
    ensures exists i :: 0 <= i < n && Joins(state, lanes, frame, frame.contacts[i]) && LaneFor(frame.contacts[i].x, lanes) == e.lane
    ensures if e.down then e.touch else split && !e.touch
  {
    hide Unfiltered, LandsOnHeldLane, Joins, LaneFor;
    var after := Unfiltered(state, lanes, frame).fingers;
    if e in Represses(state, after, lanes, frame, split, n - 1) {
      RepressesOnly(state, lanes, frame, split, n - 1, e);
    } else {
      LandsJoins(state, lanes, frame, n - 1);
    }
  }

  // ---------------------------------------------------------------- what a snapshot says

  /** A pointer owns a lane afterwards exactly if a contact of it touches and is
      not suppressed, and it is marked exactly if one touches and is suppressed. */
  lemma SnapshotDecides(state: Fingers, lanes: nat, frame: TouchFrame, split: bool, p: PointerId)
    requires state.Shaped(lanes) && lanes > 0 && Counted(state) && DistinctPointers(frame.contacts)
    ensures var after := Plan(state, lanes, frame, split).fingers;
      && (forall lane: nat :: after.pointers[p] == Some(lane) <==>
            exists i :: 0 <= i < |frame.contacts| && HoldsLane(frame.contacts[i], p, lanes, lane))
      && (after.suppressed[p] <==> exists i :: 0 <= i < |frame.contacts| && TooLight(frame.contacts[i], p))
  {
    hide Unfiltered, Continuous, Represses, Suppression, LaneFor;
    var after := Plan(state, lanes, frame, split).fingers;
    UnfilteredExact(state, lanes, frame, false, 0);
    SuppressionMeans(frame.contacts, p);
    if p in Present(frame.contacts) {
      var i :| 0 <= i < |frame.contacts| && frame.contacts[i].pointerId == p;
      assert after.pointers[p] == Target(frame.contacts[i], lanes);
    } else {
      assert after.pointers[p] == None;
    }
  }

  ghost predicate HoldsLane(c: Contact, p: PointerId, lanes: nat, lane: nat)
    requires lanes > 0
  {
    c.pointerId == p && c.tip && !c.keySuppressed && LaneFor(c.x, lanes) == lane
  }

  ghost predicate TooLight(c: Contact, p: PointerId) {
    c.pointerId == p && c.tip && c.keySuppressed
  }

  lemma {:induction false} SuppressionMeans(contacts: seq<Contact>, p: PointerId)
    requires DistinctPointers(contacts)
    ensures Suppression(contacts)[p] <==> exists i :: 0 <= i < |contacts| && TooLight(contacts[i], p)
  {
    if contacts != [] {
      var front, last := contacts[..|contacts| - 1], contacts[|contacts| - 1];
      SuppressionMeans(front, p);
      assert contacts[|contacts| - 1] == last && forall i :: 0 <= i < |front| ==> front[i] == contacts[i];
      if last.pointerId == p {
        assert forall i :: 0 <= i < |front| ==> !TooLight(contacts[i], p);
      }
    }
  }

  /** Lanes are `1 / lanes` wide: lane `k` is what lies from `k` to `k + 1` of them,
      and the outer lanes take what lies beyond. */
  lemma LaneIs(x: real, lanes: nat, k: nat)
    requires lanes > 0 && k < lanes
    ensures LaneFor(x, lanes) == k <==>
      (k == 0 || k as real <= x * lanes as real) && (k == lanes - 1 || x * lanes as real < (k + 1) as real)
  {
  }

  /** Other contacts keep the order of the frame, and so does the filter. */
  lemma {:induction false} OthersConcat(a: seq<Contact>, b: seq<Contact>, id: PointerId)
    ensures OtherContacts(a + b, id) == OtherContacts(a, id) + OtherContacts(b, id)
  {
    if b == [] {
      assert a + b == a;
    } else {
      OthersConcat(a, b[..|b| - 1], id);
      assert (a + b)[..|a + b| - 1] == a + b[..|b| - 1];
    }
  }

  lemma {:induction false} ContinuousConcat(a: seq<KeyChange>, b: seq<KeyChange>, before: seq<nat>, after: seq<nat>)
    ensures Continuous(a + b, before, after) == Continuous(a, before, after) + Continuous(b, before, after)
  {
    if b == [] {
      assert a + b == a;
    } else {
      ContinuousConcat(a, b[..|b| - 1], before, after);
      assert (a + b)[..|a + b| - 1] == a + b[..|b| - 1];
    }
  }

  /** The filter drops a change exactly if its lane is held before and after the frame. */
  lemma ContinuousOne(c: KeyChange, before: seq<nat>, after: seq<nat>)
    requires c.lane < |before| && c.lane < |after|
    ensures Continuous([c], before, after) == if before[c.lane] > 0 && after[c.lane] > 0 then [] else [c]
  {
    assert [c][..0] == [];
  }

  /** Absent pointers are lifted in ascending order: the first `n` come first and
      leave the others alone. */
  lemma {:induction false} LiftsAscend(d: Draft, lanes: nat, present: set<PointerId>, n: nat, m: nat)
    requires d.Shaped(lanes) && n <= m <= POINTER_ID_COUNT
    ensures LiftMissing(d, lanes, present, n).changes <= LiftMissing(d, lanes, present, m).changes
    ensures forall p :: n <= p < POINTER_ID_COUNT ==> LiftMissing(d, lanes, present, n).fingers.pointers[p] == d.fingers.pointers[p]
    decreases n + m
  {
    hide LiftPointer;
    if n < m {
      LiftsAscend(d, lanes, present, n, m - 1);
      LiftsOne(LiftMissing(d, lanes, present, m - 1), lanes, m - 1);
    } else if n > 0 {
      LiftsAscend(d, lanes, present, n - 1, n - 1);
      LiftsOne(LiftMissing(d, lanes, present, n - 1), lanes, n - 1);
    }
  }

  lemma LiftsOne(d: Draft, lanes: nat, p: PointerId)
    requires d.Shaped(lanes)
    ensures d.changes <= LiftPointer(d, lanes, p).changes
    ensures forall q :: 0 <= q < POINTER_ID_COUNT && q != p ==> LiftPointer(d, lanes, p).fingers.pointers[q] == d.fingers.pointers[q]
  {
  }
}
