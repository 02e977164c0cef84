/** The mutable hold state of the bridge and the planner that updates it in
    place, proved to compute the reference planner of `KeyPlanner`. */
module KeyboardStates {
  import opened Protocol
  import opened KeyPlanner

  class KeyboardState {
    var pointerLanes: seq<Option<nat>>
    var pressureSuppressed: seq<bool>
    var laneHolds: seq<nat>

    ghost function Value(): Fingers
      reads this
    {
      Fingers(pointerLanes, pressureSuppressed, laneHolds)
    }

    constructor (lanes: nat)
      ensures Value() == Idle(lanes)
    {
      pointerLanes := seq(POINTER_ID_COUNT, _ => None);
      pressureSuppressed := seq(POINTER_ID_COUNT, _ => false);
      laneHolds := seq(lanes, _ => 0);
    }

    method AcquireLane(lane: nat, touch: bool, changes: seq<KeyChange>) returns (out: seq<KeyChange>)
      requires lane < |laneHolds|
      modifies this
      ensures Draft(Value(), out) == Acquire(Draft(old(Value()), changes), lane, touch)
    {
      out := changes;
      if laneHolds[lane] == 0 {
        out := out + [KeyChange(lane, true, touch)];
      }
      laneHolds := laneHolds[lane := if laneHolds[lane] < MAX_HOLDS then laneHolds[lane] + 1 else MAX_HOLDS];
    }

    method ReleaseLane(lane: nat, changes: seq<KeyChange>) returns (out: seq<KeyChange>)
      requires lane < |laneHolds|
      modifies this
      ensures Draft(Value(), out) == Release(Draft(old(Value()), changes), lane)
    {
      out := changes;
      if laneHolds[lane] == 0 {
        return;
      }
      laneHolds := laneHolds[lane := laneHolds[lane] - 1];
      if laneHolds[lane] == 0 {
        out := out + [KeyChange(lane, false, false)];
      }
    }

    /** The next lane is acquired before the current one is released. */
    method SlideOnce(lanes: nat, ghost pointer: PointerId, current: nat, next: nat, changes: seq<KeyChange>)
      returns (out: seq<KeyChange>)
      requires Value().Shaped(lanes) && OnLanes(changes, lanes) && current < lanes && next < lanes
      modifies this
      ensures Draft(Value(), out).Shaped(lanes) && pointerLanes == old(pointerLanes)
      ensures Assign(Draft(Value(), out), pointer, Some(next))
           == SlideStep(Assign(Draft(old(Value()), changes), pointer, Some(current)), lanes, pointer, current, next)
    {
      out := AcquireLane(next, false, changes);
      out := ReleaseLane(current, out);
    }

    /** Slides one lane at a time; the pointer table is updated once, at the end. */
    method Move(lanes: nat, pointer: PointerId, destination: nat, changes: seq<KeyChange>) returns (out: seq<KeyChange>)
      requires Value().Shaped(lanes) && OnLanes(changes, lanes) && destination < lanes
      modifies this
      ensures Draft(Value(), out) == MovePointer(Draft(old(Value()), changes), lanes, pointer, destination)
      ensures Draft(Value(), out).Shaped(lanes)
    {
      out := changes;
      if pointerLanes[pointer].None? {
        out := AcquireLane(destination, true, out);
        pointerLanes := pointerLanes[pointer := Some(destination)];
        return;
      }
      var current: nat := pointerLanes[pointer].value;
      ghost var goal := Slide(Draft(Value(), changes), lanes, pointer, current, destination);
      assert pointerLanes[pointer := Some(current)] == pointerLanes;
      while current != destination
        invariant current < lanes && Value().Shaped(lanes) && OnLanes(out, lanes)
        invariant pointerLanes == old(pointerLanes)
        invariant Slide(Assign(Draft(Value(), out), pointer, Some(current)), lanes, pointer, current, destination) == goal
        decreases if destination > current then destination - current else current - destination
      {
        var next := if destination > current then current + 1 else current - 1;
        out := SlideOnce(lanes, pointer, current, next, out);
        current := next;
      }
      pointerLanes := pointerLanes[pointer := Some(destination)];
    }

    method Lift(lanes: nat, pointer: PointerId, changes: seq<KeyChange>) returns (out: seq<KeyChange>)
      requires Value().Shaped(lanes) && OnLanes(changes, lanes)
      modifies this
      ensures Draft(Value(), out) == LiftPointer(Draft(old(Value()), changes), lanes, pointer)
      ensures Draft(Value(), out).Shaped(lanes)
    {
      out := changes;
      if pointerLanes[pointer].Some? {
        var lane := pointerLanes[pointer].value;
        pointerLanes := pointerLanes[pointer := None];
        out := ReleaseLane(lane, out);
      }
    }

    method Apply(contact: Contact, lanes: nat, changes: seq<KeyChange>) returns (out: seq<KeyChange>)
      requires Value().Shaped(lanes) && OnLanes(changes, lanes) && lanes > 0
      modifies this
      ensures Draft(Value(), out) == ApplyContact(Draft(old(Value()), changes), lanes, contact)
      ensures Draft(Value(), out).Shaped(lanes)
    {
      if contact.tip && !contact.keySuppressed {
        out := Move(lanes, contact.pointerId, LaneFor(contact.x, lanes), changes);
      } else {
        out := Lift(lanes, contact.pointerId, changes);
      }
    }
  }

  lemma ApplyContactsPush(d: Draft, lanes: nat, contacts: seq<Contact>, c: Contact)
    requires d.Shaped(lanes) && lanes > 0
    ensures ApplyContacts(d, lanes, contacts + [c]) == ApplyContact(ApplyContacts(d, lanes, contacts), lanes, c)
  {
    assert (contacts + [c])[..|contacts|] == contacts;
  }

  lemma {:induction false} ActionContactIsFirst(contacts: seq<Contact>, id: PointerId, k: nat)
    requires k <= |contacts| && forall i :: 0 <= i < k ==> contacts[i].pointerId != id
    ensures ActionContact(contacts, id)
         == if k < |contacts| && contacts[k].pointerId == id then [contacts[k]] else ActionContact(contacts[k..], id)
  {
    if k > 0 {
      ActionContactIsFirst(contacts[1..], id, k - 1);
      assert contacts[1..][k - 1..] == contacts[k..];
    } else {
      assert contacts[0..] == contacts;
    }
  }

  /** Interprets one frame against `state`, leaving the next holds in `next`. */
  method PlanInto(state: KeyboardState, laneCount: nat, frame: TouchFrame, splitRepress: bool, next: KeyboardState)
    returns (changes: seq<KeyChange>)
    requires state != next && state.Value().Shaped(laneCount) && laneCount > 0
    modifies next
    ensures Draft(next.Value(), changes) == Plan(state.Value(), laneCount, frame, splitRepress)
  {
    next.pointerLanes := state.pointerLanes;
    next.pressureSuppressed := seq(POINTER_ID_COUNT, _ => false);
    next.laneHolds := state.laneHolds;
    ghost var start := Draft(next.Value(), []);
    // The action pointer is applied first, the others in snapshot order.
    changes := ApplyAction(next, laneCount, frame.contacts, frame.actionPointerId);
    changes := ApplyOthers(next, laneCount, frame.contacts, frame.actionPointerId, changes, start,
                           ActionContact(frame.contacts, frame.actionPointerId));

    var present := MarkSuppressed(next, frame.contacts);
    changes := LiftAbsent(next, laneCount, present, changes);
    changes := Filter(changes, state.laneHolds, next.laneHolds);
    changes := AppendRepresses(state, laneCount, frame, splitRepress, next, changes);
  }

  lemma PresentStep(contacts: seq<Contact>, i: nat)
    requires i < |contacts|
    ensures Present(contacts[..i + 1]) == Present(contacts[..i]) + {contacts[i].pointerId}
  {
    forall p: PointerId ensures p in Present(contacts[..i + 1]) <==> p in Present(contacts[..i]) || p == contacts[i].pointerId {
      if p in Present(contacts[..i]) {
        var k :| 0 <= k < i && contacts[..i][k].pointerId == p;
        assert contacts[..i + 1][k].pointerId == p;
      }
      assert contacts[..i + 1][i] == contacts[i];
    }
  }

  method ApplyAction(next: KeyboardState, lanes: nat, contacts: seq<Contact>, action: PointerId)
    returns (changes: seq<KeyChange>)
    requires next.Value().Shaped(lanes) && lanes > 0
    modifies next
    ensures Draft(next.Value(), changes)
         == ApplyContacts(Draft(old(next.Value()), []), lanes, ActionContact(contacts, action))
    ensures Draft(next.Value(), changes).Shaped(lanes)
  {
    changes := [];
    var i := 0;
    while i < |contacts| && contacts[i].pointerId != action
      invariant 0 <= i <= |contacts|
      invariant forall k :: 0 <= k < i ==> contacts[k].pointerId != action
    {
      i := i + 1;
    }
    ActionContactIsFirst(contacts, action, i);
    if i < |contacts| {
      ApplyContactsPush(Draft(next.Value(), []), lanes, [], contacts[i]);
      assert [] + [contacts[i]] == [contacts[i]];
      changes := next.Apply(contacts[i], lanes, changes);
    }
  }

  method ApplyOthers(next: KeyboardState, lanes: nat, contacts: seq<Contact>, action: PointerId, changes: seq<KeyChange>,
                     ghost start: Draft, ghost done: seq<Contact>)
    returns (out: seq<KeyChange>)
    requires start.Shaped(lanes) && lanes > 0
    requires Draft(next.Value(), changes) == ApplyContacts(start, lanes, done)
    modifies next
    ensures Draft(next.Value(), out) == ApplyContacts(start, lanes, done + OtherContacts(contacts, action))
  {
    hide ApplyContacts, ApplyContact;
    out := changes;
    var i := 0;
    assert done + OtherContacts(contacts[..0], action) == done;
    while i < |contacts|
      invariant 0 <= i <= |contacts|
      invariant Draft(next.Value(), out) == ApplyContacts(start, lanes, done + OtherContacts(contacts[..i], action))
    {
      assert contacts[..i + 1][..i] == contacts[..i];
      if contacts[i].pointerId != action {
        ApplyContactsPush(start, lanes, done + OtherContacts(contacts[..i], action), contacts[i]);
        assert done + OtherContacts(contacts[..i], action) + [contacts[i]] == done + OtherContacts(contacts[..i + 1], action);
        out := next.Apply(contacts[i], lanes, out);
      }
      i := i + 1;
    }
    assert contacts[..i] == contacts;
  }

  method MarkSuppressed(next: KeyboardState, contacts: seq<Contact>) returns (present: set<PointerId>)
    requires next.pressureSuppressed == seq(POINTER_ID_COUNT, _ => false)
    modifies next
    ensures present == Present(contacts)
    ensures next.Value() == Fingers(old(next.pointerLanes), Suppression(contacts), old(next.laneHolds))
  {
    present := {};
    var i := 0;
    ghost var moved := next.Value();
    while i < |contacts|
      invariant 0 <= i <= |contacts|
      invariant present == Present(contacts[..i])
      invariant next.Value() == Fingers(moved.pointers, Suppression(contacts[..i]), moved.holds)
    {
      PresentStep(contacts, i);
      assert contacts[..i + 1][..i] == contacts[..i];
      present := present + {contacts[i].pointerId};
      next.pressureSuppressed := next.pressureSuppressed[contacts[i].pointerId := contacts[i].tip && contacts[i].keySuppressed];
      i := i + 1;
    }
    assert contacts[..i] == contacts;
  }

  method LiftAbsent(next: KeyboardState, lanes: nat, present: set<PointerId>, changes: seq<KeyChange>)
    returns (out: seq<KeyChange>)
    requires Draft(next.Value(), changes).Shaped(lanes)
    modifies next
    ensures Draft(next.Value(), out) == LiftMissing(Draft(old(next.Value()), changes), lanes, present, POINTER_ID_COUNT)
    ensures Draft(next.Value(), out).Shaped(lanes)
  {
    out := changes;
    var p := 0;
    while p < POINTER_ID_COUNT
      invariant 0 <= p <= POINTER_ID_COUNT
      invariant Draft(next.Value(), out) == LiftMissing(Draft(old(next.Value()), changes), lanes, present, p)
      invariant Draft(next.Value(), out).Shaped(lanes)
    {
      if next.pointerLanes[p].Some? && p !in present {
        out := next.Lift(lanes, p, out);
      }
      p := p + 1;
    }
  }

  method Filter(changes: seq<KeyChange>, before: seq<nat>, after: seq<nat>) returns (kept: seq<KeyChange>)
    requires |before| == |after| && OnLanes(changes, |before|)
    ensures kept == Continuous(changes, before, after)
  {
    kept := [];
    var i := 0;
    while i < |changes|
      invariant 0 <= i <= |changes|
      invariant kept == Continuous(changes[..i], before, after)
    {
      assert changes[..i + 1][..i] == changes[..i];
      if before[changes[i].lane] == 0 || after[changes[i].lane] == 0 {
        kept := kept + [changes[i]];
      }
      i := i + 1;
    }
    assert changes[..i] == changes;
  }

  method AppendRepresses(state: KeyboardState, lanes: nat, frame: TouchFrame, splitRepress: bool, next: KeyboardState,
                         changes: seq<KeyChange>)
    returns (out: seq<KeyChange>)
    requires state.Value().Shaped(lanes) && next.Value().Shaped(lanes)
    ensures out == changes + Represses(state.Value(), next.Value(), lanes, frame, splitRepress, |frame.contacts|)
  {
    out := changes;
    var i := 0;
    while i < |frame.contacts|
      invariant 0 <= i <= |frame.contacts|
      invariant out == changes + Represses(state.Value(), next.Value(), lanes, frame, splitRepress, i)
    {
      var pointer := frame.contacts[i].pointerId;
      var newPress :=
        (frame.action == Down && pointer == frame.actionPointerId) || state.pressureSuppressed[pointer];
      if newPress && state.pointerLanes[pointer].None? && next.pointerLanes[pointer].Some? {
        var lane := next.pointerLanes[pointer].value;
        if state.laneHolds[lane] > 0 {
          if splitRepress {
            out := out + [KeyChange(lane, false, false)];
          }
          out := out + [KeyChange(lane, true, true)];
        }
      }
      i := i + 1;
    }
  }
}
