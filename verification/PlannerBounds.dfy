/** How many edges one frame can plan, and what a landing finger is sure to get. */
module PlannerBounds {
  import opened Protocol
  import opened KeyPlanner
  import opened PlannerLaws

  /** The capacity reserved for a change list: every contact can traverse every
      lane, and every omitted contact is released. */
  function MaxKeyChanges(lanes: nat): nat {
    MAX_CONTACTS * (2 * lanes + 1)
  }

  ghost function ActivePointers(pointers: seq<Option<nat>>): set<nat> {
    set p | 0 <= p < |pointers| && pointers[p].Some?
  }

  ghost predicate Bounded(f: Fingers) {
    |ActivePointers(f.pointers)| <= MAX_CONTACTS
  }

  // ---------------------------------------------------------------- edges per contact

  /** The most edges one contact can add: one for a pointer that owned nothing. */
  function Weight(pointers: seq<Option<nat>>, lanes: nat, c: Contact): nat
    requires |pointers| == POINTER_ID_COUNT && lanes > 0
  {
    if pointers[c.pointerId].None? then 1 else 2 * lanes - 1
  }

  function Weights(pointers: seq<Option<nat>>, lanes: nat, contacts: seq<Contact>): nat
    requires |pointers| == POINTER_ID_COUNT && lanes > 0
  {
    if contacts == [] then 0
    else Weights(pointers, lanes, contacts[..|contacts| - 1]) + Weight(pointers, lanes, contacts[|contacts| - 1])
  }

  lemma {:induction false} SlideLength(d: Draft, lanes: nat, p: PointerId, current: nat, destination: nat)
    requires d.Shaped(lanes) && current < lanes && destination < lanes
    ensures |Slide(d, lanes, p, current, destination).changes|
         <= |d.changes| + 2 * (if destination > current then destination - current else current - destination)
    decreases if destination > current then destination - current else current - destination
  {
    if current != destination {
      var next := Toward(current, destination);
      SlideLength(SlideStep(d, lanes, p, current, next), lanes, p, next, destination);
    }
  }

  lemma ApplyContactLength(d: Draft, lanes: nat, c: Contact)
    requires d.Shaped(lanes) && lanes > 0
    ensures |ApplyContact(d, lanes, c).changes| <= |d.changes| + Weight(d.fingers.pointers, lanes, c)
  {
    if c.Active() && d.fingers.pointers[c.pointerId].Some? {
      SlideLength(d, lanes, c.pointerId, d.fingers.pointers[c.pointerId].value, LaneFor(c.x, lanes));
    }
  }

  lemma {:induction false} ApplyContactsLength(before: seq<nat>, lanes: nat, d: Draft, contacts: seq<Contact>)
    requires Exact(before, lanes, d, false) && lanes > 0 && DistinctPointers(contacts)
    ensures |ApplyContacts(d, lanes, contacts).changes| <= |d.changes| + Weights(d.fingers.pointers, lanes, contacts)
  {
    if contacts != [] {
      var front, last := contacts[..|contacts| - 1], contacts[|contacts| - 1];
      ApplyContactsLength(before, lanes, d, front);
      ApplyContactsExact(before, lanes, d, front, false, 0);
      assert last.pointerId !in Present(front) by {
        assert forall i :: 0 <= i < |front| ==> front[i].pointerId != last.pointerId;
      }
      ApplyContactLength(ApplyContacts(d, lanes, front), lanes, last);
    }
  }

  lemma {:induction false} WeightsConcat(pointers: seq<Option<nat>>, lanes: nat, a: seq<Contact>, b: seq<Contact>)
    requires |pointers| == POINTER_ID_COUNT && lanes > 0
    ensures Weights(pointers, lanes, a + b) == Weights(pointers, lanes, a) + Weights(pointers, lanes, b)
  {
    if b == [] {
      assert a + b == a;
    } else {
      WeightsConcat(pointers, lanes, a, b[..|b| - 1]);
      assert (a + b)[..|a + b| - 1] == a + b[..|b| - 1];
    }
  }

  lemma {:induction false} OthersWeights(pointers: seq<Option<nat>>, lanes: nat, contacts: seq<Contact>, id: PointerId)
    requires |pointers| == POINTER_ID_COUNT && lanes > 0 && DistinctPointers(contacts)
    ensures Weights(pointers, lanes, OtherContacts(contacts, id)) + Weights(pointers, lanes, ActionContact(contacts, id))
         == Weights(pointers, lanes, contacts)
  {
    if contacts != [] {
      var front, last := contacts[..|contacts| - 1], contacts[|contacts| - 1];
      OthersWeights(pointers, lanes, front, id);
      ActionContactPush(contacts, id);
      ActionContactIs(front, id);
      WeightsConcat(pointers, lanes, OtherContacts(front, id), [last]);
    }
  }

  lemma {:induction false} ActionContactPush(contacts: seq<Contact>, id: PointerId)
    requires contacts != [] && DistinctPointers(contacts)
    ensures ActionContact(contacts, id)
         == if contacts[|contacts| - 1].pointerId == id then [contacts[|contacts| - 1]]
            else ActionContact(contacts[..|contacts| - 1], id)
    ensures contacts[|contacts| - 1].pointerId == id ==> ActionContact(contacts[..|contacts| - 1], id) == []
  {
    var front := contacts[..|contacts| - 1];
    if |contacts| > 1 {
      ActionContactPush(contacts[1..], id);
      assert front[1..] == contacts[1..][..|contacts| - 2];
      assert front[0] == contacts[0];
    }
  }

  // ---------------------------------------------------------------- edges of the missing pointers

  ghost function Missing(pointers: seq<Option<nat>>, present: set<PointerId>, n: nat): set<nat> {
    set p | 0 <= p < n && p < |pointers| && pointers[p].Some? && p !in present
  }

  lemma LiftLength(d: Draft, lanes: nat, p: PointerId)
    requires d.Shaped(lanes)
    ensures |LiftPointer(d, lanes, p).changes| <= |d.changes| + (if d.fingers.pointers[p].Some? then 1 else 0)
  {
  }

  lemma MissingStep(pointers: seq<Option<nat>>, present: set<PointerId>, n: PointerId)
    requires |pointers| == POINTER_ID_COUNT
    ensures |Missing(pointers, present, n + 1)|
         == |Missing(pointers, present, n)| + (if pointers[n].Some? && n !in present then 1 else 0)
  {
    var less := Missing(pointers, present, n);
    assert Missing(pointers, present, n + 1) == if pointers[n].Some? && n !in present then less + {n} else less;
  }

  lemma {:induction false} LiftMissingLength(before: seq<nat>, lanes: nat, d: Draft, present: set<PointerId>, n: nat)
    requires Exact(before, lanes, d, false) && n <= POINTER_ID_COUNT
    ensures |LiftMissing(d, lanes, present, n).changes| <= |d.changes| + |Missing(d.fingers.pointers, present, n)|
  {
    hide Missing, LiftPointer, Replays, Counted;
    if n > 0 {
      LiftMissingLength(before, lanes, d, present, n - 1);
      LiftMissingExact(before, lanes, d, present, n - 1, false, 0);
      MissingStep(d.fingers.pointers, present, n - 1);
      LiftLength(LiftMissing(d, lanes, present, n - 1), lanes, n - 1);
    }
  }

  lemma SubsetSize(a: set<nat>, b: set<nat>)
    requires a <= b
    ensures |a| <= |b|
  {
    assert b == a + (b - a);
  }

  lemma OrderWeights(pointers: seq<Option<nat>>, lanes: nat, contacts: seq<Contact>, id: PointerId)
    requires |pointers| == POINTER_ID_COUNT && lanes > 0 && DistinctPointers(contacts)
    ensures Weights(pointers, lanes, ActionFirst(contacts, id)) == Weights(pointers, lanes, contacts)
  {
    OthersWeights(pointers, lanes, contacts, id);
    WeightsConcat(pointers, lanes, ActionContact(contacts, id), OtherContacts(contacts, id));
  }

  /** Pointers without a contact keep the lane they had. */
  lemma MissingActive(pointers: seq<Option<nat>>, base: seq<Option<nat>>, contacts: seq<Contact>, lanes: nat)
    requires lanes > 0 && Follows(pointers, base, contacts, lanes)
    ensures |Missing(pointers, Present(contacts), POINTER_ID_COUNT)| <= |ActivePointers(base)|
  {
    SubsetSize(Missing(pointers, Present(contacts), POINTER_ID_COUNT), ActivePointers(base));
  }

  lemma UnfilteredLength(state: Fingers, lanes: nat, frame: TouchFrame)
    requires state.Shaped(lanes) && lanes > 0 && Counted(state) && DistinctPointers(frame.contacts)
    ensures |Unfiltered(state, lanes, frame).changes|
         <= Weights(state.pointers, lanes, frame.contacts) + |ActivePointers(state.pointers)|
  {
    hide Weights, Missing, ActivePointers, LiftMissing, ApplyContacts, ActionFirst, Suppression, LaneAfter, NeverEmpty, Replays, Follows;
    var order := ActionFirst(frame.contacts, frame.actionPointerId);
    ActionFirstIs(frame.contacts, frame.actionPointerId);
    OrderWeights(state.pointers, lanes, frame.contacts, frame.actionPointerId);
    var start := Draft(Fingers(state.pointers, seq(POINTER_ID_COUNT, _ => false), state.holds), []);
    StartExact(state, lanes);
    ApplyContactsExact(state.holds, lanes, start, order, false, 0);
    ApplyContactsLength(state.holds, lanes, start, order);
    var marked := Marked(ApplyContacts(start, lanes, order), frame.contacts);
    MarkedExact(state.holds, lanes, ApplyContacts(start, lanes, order), frame.contacts);
    LiftMissingLength(state.holds, lanes, marked, Present(frame.contacts), POINTER_ID_COUNT);
    MissingActive(marked.fingers.pointers, state.pointers, order, lanes);
  }

  lemma StartExact(state: Fingers, lanes: nat)
    requires state.Shaped(lanes) && Counted(state)
    ensures Exact(state.holds, lanes, Draft(Fingers(state.pointers, seq(POINTER_ID_COUNT, _ => false), state.holds), []), false)
  {
  }

  lemma MarkedExact(before: seq<nat>, lanes: nat, d: Draft, contacts: seq<Contact>)
    requires Exact(before, lanes, d, false)
    ensures Exact(before, lanes, Marked(d, contacts), false)
  {
  }

  // ---------------------------------------------------------------- repeat presses and the total

  lemma {:induction false} RepressesLength(state: Fingers, after: Fingers, lanes: nat, frame: TouchFrame, split: bool, n: nat)
    requires state.Shaped(lanes) && after.Shaped(lanes) && n <= |frame.contacts|
    ensures |Represses(state, after, lanes, frame, split, n)| <= 2 * n
    ensures lanes > 1 ==>
      |Represses(state, after, lanes, frame, split, n)| + Weights(state.pointers, lanes, frame.contacts[..n]) <= n * (2 * lanes - 1)
  {
    hide LandsOnHeldLane, Weight;
    if n > 0 {
      RepressesLength(state, after, lanes, frame, split, n - 1);
      assert frame.contacts[..n][..n - 1] == frame.contacts[..n - 1];
      Times(n - 1, 2 * lanes - 1);
      if lanes > 1 {
        RepressWeight(state, after, lanes, frame, frame.contacts[n - 1]);
      }
    }
  }

  /** A contact with repeat presses owned nothing, so it adds few other edges. */
  lemma RepressWeight(state: Fingers, after: Fingers, lanes: nat, frame: TouchFrame, c: Contact)
    requires state.Shaped(lanes) && after.Shaped(lanes) && lanes > 1
    ensures Weight(state.pointers, lanes, c) + (if LandsOnHeldLane(state, after, lanes, frame, c) then 2 else 0) <= 2 * lanes - 1
  {
  }

  lemma Times(n: nat, w: int)
    ensures (n + 1) * w == n * w + w
  {
  }

  lemma {:induction false} WeightsLength(pointers: seq<Option<nat>>, lanes: nat, contacts: seq<Contact>)
    requires |pointers| == POINTER_ID_COUNT && lanes > 0
    ensures Weights(pointers, lanes, contacts) <= |contacts| * (2 * lanes - 1)
  {
    if contacts != [] {
      WeightsLength(pointers, lanes, contacts[..|contacts| - 1]);
      assert |contacts| * (2 * lanes - 1) == (|contacts| - 1) * (2 * lanes - 1) + (2 * lanes - 1);
    }
  }

  /** A repeat press exists only when its lane is owned throughout; with a single
      lane that empties the filtered list. */
  lemma {:induction false} SingleLaneFilter(state: Fingers, after: Fingers, frame: TouchFrame, split: bool, n: nat, changes: seq<KeyChange>)
    requires state.Shaped(1) && after.Shaped(1) && Counted(after) && n <= |frame.contacts| && OnLanes(changes, 1)
    requires Represses(state, after, 1, frame, split, n) != []
    ensures Continuous(changes, state.holds, after.holds) == []
  {
    var c := frame.contacts[n - 1];
    if LandsOnHeldLane(state, after, 1, frame, c) {
      assert c.pointerId in Owners(after.pointers, 0);
      ContinuousLength(changes, state.holds, after.holds);
    } else {
      SingleLaneFilter(state, after, frame, split, n - 1, changes);
    }
  }

  /** Capacity: with at most 16 owning pointers and 16 contacts, neither the
      unfiltered list nor the final list outgrows the reserved capacity, and at
      most 16 pointers own lanes afterwards. */
  lemma PlanBounded(state: Fingers, lanes: nat, frame: TouchFrame, split: bool)
    requires state.Shaped(lanes) && lanes > 0 && Counted(state) && Bounded(state) && frame.Decoded()
    ensures |Unfiltered(state, lanes, frame).changes| <= MaxKeyChanges(lanes)
    ensures |Plan(state, lanes, frame, split).changes| <= MaxKeyChanges(lanes)
    ensures Bounded(Plan(state, lanes, frame, split).fingers)
  {
    var all := Unfiltered(state, lanes, frame);
    UnfilteredLength(state, lanes, frame);
    WeightsLength(state.pointers, lanes, frame.contacts);
    MostContacts(|frame.contacts|, 2 * lanes - 1);
    PlanLength(state, lanes, frame, split);
    UnfilteredExact(state, lanes, frame, false, 0);
    ActiveBound(all.fingers.pointers, lanes, frame.contacts);
  }

  lemma MostContacts(n: nat, w: nat)
    requires n <= MAX_CONTACTS
    ensures n * w <= MAX_CONTACTS * w
  {
    assert MAX_CONTACTS * w == n * w + (MAX_CONTACTS - n) * w;
  }

  lemma PlanLength(state: Fingers, lanes: nat, frame: TouchFrame, split: bool)
    requires state.Shaped(lanes) && lanes > 0 && Counted(state) && DistinctPointers(frame.contacts)
    requires |ActivePointers(state.pointers)| <= MAX_CONTACTS && |frame.contacts| <= MAX_CONTACTS
    ensures |Plan(state, lanes, frame, split).changes| <= MaxKeyChanges(lanes)
  {
    hide Unfiltered, Continuous, Represses, Weights, Sound, ActivePointers, Counted;
    var all := Unfiltered(state, lanes, frame);
    var n := |frame.contacts|;
    UnfilteredLength(state, lanes, frame);
    ContinuousLength(all.changes, state.holds, all.fingers.holds);
    RepressesLength(state, all.fingers, lanes, frame, split, n);
    assert frame.contacts[..n] == frame.contacts;
    MostContacts(n, 2 * lanes - 1);
    if lanes == 1 {
      WeightsLength(state.pointers, lanes, frame.contacts);
      UnfilteredExact(state, lanes, frame, false, 0);
      if Represses(state, all.fingers, lanes, frame, split, n) != [] {
        SingleLaneFilter(state, all.fingers, frame, split, n, all.changes);
      }
    }
  }

  lemma {:induction false} PresentSize(contacts: seq<Contact>)
    ensures |Present(contacts)| <= |contacts|
  {
    if contacts != [] {
      PresentSize(contacts[..|contacts| - 1]);
      PresentPush(contacts);
    }
  }

  lemma ActiveBound(pointers: seq<Option<nat>>, lanes: nat, contacts: seq<Contact>)
    requires lanes > 0 && Follows(pointers, seq(POINTER_ID_COUNT, _ => None), contacts, lanes)
    ensures |ActivePointers(pointers)| <= |contacts|
  {
    PresentSize(contacts);
    var present: set<nat> := set p | p in Present(contacts);
    SameSize(Present(contacts), present);
    SubsetSize(ActivePointers(pointers), present);
  }

  lemma {:induction false} SameSize(a: set<PointerId>, b: set<nat>)
    requires forall p: nat :: p in b <==> p < POINTER_ID_COUNT && p in a
    ensures |a| == |b|
  {
    if a != {} {
      var p :| p in a;
      SameSize(a - {p}, b - {p});
    } else {
      assert b == {};
    }
  }

  // ---------------------------------------------------------------- a landing finger is heard

  /** A finger that lands gets a press of its own: whenever the action pointer
      of a DOWN owned nothing and owns a lane afterwards, the emitted list
      contains a finger-down press on that lane - even when another finger
      already held it. */
  lemma LandingPresses(state: Fingers, lanes: nat, frame: TouchFrame, split: bool, i: nat)
    requires state.Shaped(lanes) && lanes > 0 && Counted(state) && DistinctPointers(frame.contacts)
    requires frame.action.Down? && i < |frame.contacts| && frame.contacts[i].pointerId == frame.actionPointerId
    requires frame.contacts[i].Active() && state.pointers[frame.actionPointerId].None?
    ensures KeyChange(LaneFor(frame.contacts[i].x, lanes), true, true) in Plan(state, lanes, frame, split).changes
  {
    var c := frame.contacts[i];
    var lane := LaneFor(c.x, lanes);
    var press := KeyChange(lane, true, true);
    var all := Unfiltered(state, lanes, frame);
    UnfilteredExact(state, lanes, frame, false, 0);
    if state.holds[lane] == 0 {
      LandingFirst(state, lanes, frame, i);
      ContinuousKeeps(all.changes, state.holds, all.fingers.holds, press);
    } else {
      RepressesInclude(state, all.fingers, lanes, frame, split, |frame.contacts|, i);
    }
  }

  /** The action pointer is served first, so the press of its landing opens the list. */
  lemma LandingFirst(state: Fingers, lanes: nat, frame: TouchFrame, i: nat)
    requires state.Shaped(lanes) && lanes > 0 && DistinctPointers(frame.contacts)
    requires i < |frame.contacts| && frame.contacts[i].pointerId == frame.actionPointerId
    requires frame.contacts[i].Active() && state.pointers[frame.actionPointerId].None?
    requires state.holds[LaneFor(frame.contacts[i].x, lanes)] == 0
    ensures var all := Unfiltered(state, lanes, frame);
      all.changes != [] && all.changes[0] == KeyChange(LaneFor(frame.contacts[i].x, lanes), true, true)
  {
    hide LiftMissing, Suppression;
    var c := frame.contacts[i];
    var order := ActionFirst(frame.contacts, frame.actionPointerId);
    ActionContactIs(frame.contacts, frame.actionPointerId);
    var start := Draft(Fingers(state.pointers, seq(POINTER_ID_COUNT, _ => false), state.holds), []);
    assert ActionContact(frame.contacts, frame.actionPointerId) == [c];
    assert order[..1] == [c] && order[..1][..0] == [];
    assert ApplyContacts(start, lanes, order[..1]) == ApplyContact(start, lanes, c);
    ContactsKeep(start, lanes, order, 1);
    var moved := ApplyContacts(start, lanes, order);
    LiftKeeps(Marked(moved, frame.contacts), lanes, Present(frame.contacts), POINTER_ID_COUNT);
  }

  /** A finger that qualifies by pressure only now is heard as well: the emitted
      list contains a press on its lane, and one of its own if the lane was held. */
  lemma AdmittedPresses(state: Fingers, lanes: nat, frame: TouchFrame, split: bool, i: nat)
    requires state.Shaped(lanes) && lanes > 0 && Counted(state) && DistinctPointers(frame.contacts) && i < |frame.contacts|
    requires frame.contacts[i].Active() && state.suppressed[frame.contacts[i].pointerId]
    requires state.pointers[frame.contacts[i].pointerId].None?
    ensures var lane := LaneFor(frame.contacts[i].x, lanes);
      Presses(Plan(state, lanes, frame, split).changes, lane)
      && (state.holds[lane] > 0 ==> KeyChange(lane, true, true) in Plan(state, lanes, frame, split).changes)
  {
    hide Plan, LaneAfter, Counted;
    var c := frame.contacts[i];
    var lane := LaneFor(c.x, lanes);
    if state.holds[lane] > 0 {
      AdmittedOnHeld(state, lanes, frame, split, i);
      var changes := Plan(state, lanes, frame, split).changes;
      var k :| 0 <= k < |changes| && changes[k] == KeyChange(lane, true, true);
      assert Presses(changes, lane);
    } else {
      PlanCorrect(state, lanes, frame, split);
      HeldByOwner(Plan(state, lanes, frame, split).fingers, c.pointerId, lane);
      PressedBy(Plan(state, lanes, frame, split).changes, lane);
    }
  }

  lemma HeldByOwner(f: Fingers, p: PointerId, lane: nat)
    requires Counted(f) && p < |f.pointers| && f.pointers[p] == Some(lane) && lane < |f.holds|
    ensures f.holds[lane] > 0
  {
    assert p in Owners(f.pointers, lane);
  }

  lemma AdmittedOnHeld(state: Fingers, lanes: nat, frame: TouchFrame, split: bool, i: nat)
    requires state.Shaped(lanes) && lanes > 0 && Counted(state) && DistinctPointers(frame.contacts) && i < |frame.contacts|
    requires frame.contacts[i].Active() && state.suppressed[frame.contacts[i].pointerId]
    requires state.pointers[frame.contacts[i].pointerId].None? && state.holds[LaneFor(frame.contacts[i].x, lanes)] > 0
    ensures KeyChange(LaneFor(frame.contacts[i].x, lanes), true, true) in Plan(state, lanes, frame, split).changes
  {
    hide Unfiltered, Continuous, Represses;
    var all := Unfiltered(state, lanes, frame);
    UnfilteredExact(state, lanes, frame, false, 0);
    RepressesInclude(state, all.fingers, lanes, frame, split, |frame.contacts|, i);
  }

  ghost predicate Presses(changes: seq<KeyChange>, lane: nat) {
    exists k :: 0 <= k < |changes| && changes[k].lane == lane && changes[k].down
  }

  /** A lane that is up before and down after was pressed in between. */
  lemma {:induction false} PressedBy(changes: seq<KeyChange>, lane: nat)
    requires LaneAfter(false, changes, lane)
    ensures Presses(changes, lane)
  {
    var last := |changes| - 1;
    if changes[last].lane != lane {
      PressedBy(changes[..last], lane);
      var k :| 0 <= k < last && changes[..last][k].lane == lane && changes[..last][k].down;
      assert changes[k].lane == lane && changes[k].down;
    }
  }

  lemma {:induction false} SlideKeeps(d: Draft, lanes: nat, p: PointerId, current: nat, destination: nat)
    requires d.Shaped(lanes) && current < lanes && destination < lanes
    ensures d.changes <= Slide(d, lanes, p, current, destination).changes
    decreases if destination > current then destination - current else current - destination
  {
    if current != destination {
      var next := Toward(current, destination);
      SlideKeeps(SlideStep(d, lanes, p, current, next), lanes, p, next, destination);
    }
  }

  lemma {:induction false} ContactsKeep(d: Draft, lanes: nat, contacts: seq<Contact>, k: nat)
    requires d.Shaped(lanes) && lanes > 0 && k <= |contacts|
    ensures ApplyContacts(d, lanes, contacts[..k]).changes <= ApplyContacts(d, lanes, contacts).changes
  {
    if k == |contacts| {
      assert contacts[..k] == contacts;
    } else {
      var front, c := contacts[..|contacts| - 1], contacts[|contacts| - 1];
      ContactsKeep(d, lanes, front, k);
      assert front[..k] == contacts[..k];
      var e := ApplyContacts(d, lanes, front);
      if c.Active() && e.fingers.pointers[c.pointerId].Some? {
        SlideKeeps(e, lanes, c.pointerId, e.fingers.pointers[c.pointerId].value, LaneFor(c.x, lanes));
      }
    }
  }

  lemma {:induction false} LiftKeeps(d: Draft, lanes: nat, present: set<PointerId>, n: nat)
    requires d.Shaped(lanes) && n <= POINTER_ID_COUNT
    ensures d.changes <= LiftMissing(d, lanes, present, n).changes
  {
    if n > 0 {
      LiftKeeps(d, lanes, present, n - 1);
    }
  }

  lemma {:induction false} ContinuousKeeps(changes: seq<KeyChange>, before: seq<nat>, after: seq<nat>, c: KeyChange)
    requires c in changes && !OwnedThroughout(before, after, c.lane)
    ensures c in Continuous(changes, before, after)
  {
    if c != changes[|changes| - 1] {
      assert changes == changes[..|changes| - 1] + [changes[|changes| - 1]];
      ContinuousKeeps(changes[..|changes| - 1], before, after, c);
    }
  }

  lemma {:induction false} RepressesInclude(state: Fingers, after: Fingers, lanes: nat, frame: TouchFrame, split: bool, n: nat, i: nat)
    requires state.Shaped(lanes) && after.Shaped(lanes) && i < n <= |frame.contacts|
    requires LandsOnHeldLane(state, after, lanes, frame, frame.contacts[i])
    ensures KeyChange(after.pointers[frame.contacts[i].pointerId].value, true, true)
         in Represses(state, after, lanes, frame, split, n)
  {
    if i == n - 1 {
      var l := after.pointers[frame.contacts[i].pointerId].value;
      var r := Represses(state, after, lanes, frame, split, n);
      assert r[|r| - 1] == KeyChange(l, true, true);
    } else {
      RepressesInclude(state, after, lanes, frame, split, n - 1, i);
    }
  }
}
