/** Snapshot planning: from one frame and the current lane holds to the next
    holds and the ordered key edges that lead there.

    `Plan` and its helpers are the reference planner; `KeyboardState` is the
    mutable state of the bridge, whose methods are proved to compute it. */
module KeyPlanner {
  import opened Protocol

  /** Hold counters are 16 bits wide and saturate. */
  const MAX_HOLDS := 65535

  datatype KeyChange = KeyChange(lane: nat, down: bool, touch: bool)

  /** Which lane every pointer owns, which pointers are pressure-suppressed, and
      how many pointers hold every lane. */
  datatype Fingers = Fingers(pointers: seq<Option<nat>>, suppressed: seq<bool>, holds: seq<nat>) {
    ghost predicate Shaped(lanes: nat) {
      && |pointers| == POINTER_ID_COUNT
      && |suppressed| == POINTER_ID_COUNT
      && |holds| == lanes
      && forall p :: 0 <= p < POINTER_ID_COUNT && pointers[p].Some? ==> pointers[p].value < lanes
    }
  }

  function Idle(lanes: nat): (f: Fingers)
    ensures f.Shaped(lanes)
  {
    Fingers(seq(POINTER_ID_COUNT, _ => None), seq(POINTER_ID_COUNT, _ => false), seq(lanes, _ => 0))
  }

  ghost predicate OnLanes(changes: seq<KeyChange>, lanes: nat) {
    forall i :: 0 <= i < |changes| ==> changes[i].lane < lanes
  }

  datatype Draft = Draft(fingers: Fingers, changes: seq<KeyChange>) {
    ghost predicate Shaped(lanes: nat) {
      fingers.Shaped(lanes) && OnLanes(changes, lanes)
    }
  }

  // ---------------------------------------------------------------- reference planner

  /** `x` clamped to the play area, cut into `lanes` equal lanes. */
  function LaneFor(x: real, lanes: nat): (lane: nat)
    requires lanes > 0
    ensures lane < lanes
  {
    var clamped := if x < 0.0 then 0.0 else if x > 1.0 then 1.0 else x;
    var raw := (clamped * lanes as real).Floor;
    if raw < 0 then 0 else if raw < lanes - 1 then raw else lanes - 1
  }

  function Acquire(d: Draft, lane: nat, touch: bool): Draft
    requires lane < |d.fingers.holds|
  {
    var held := d.fingers.holds[lane];
    Draft(Fingers(d.fingers.pointers, d.fingers.suppressed,
                  d.fingers.holds[lane := if held < MAX_HOLDS then held + 1 else MAX_HOLDS]),
          if held == 0 then d.changes + [KeyChange(lane, true, touch)] else d.changes)
  }

  function Release(d: Draft, lane: nat): Draft
    requires lane < |d.fingers.holds|
  {
    var held := d.fingers.holds[lane];
    if held == 0 then d
    else
      Draft(Fingers(d.fingers.pointers, d.fingers.suppressed, d.fingers.holds[lane := held - 1]),
            if held == 1 then d.changes + [KeyChange(lane, false, false)] else d.changes)
  }

  function Assign(d: Draft, p: PointerId, lane: Option<nat>): Draft
    requires |d.fingers.pointers| == POINTER_ID_COUNT
  {
    Draft(Fingers(d.fingers.pointers[p := lane], d.fingers.suppressed, d.fingers.holds), d.changes)
  }

  /** One lane of a slide: the next lane is acquired before the current one is released. */
  function SlideStep(d: Draft, lanes: nat, p: PointerId, current: nat, next: nat): (r: Draft)
    requires d.Shaped(lanes) && current < lanes && next < lanes
    ensures r.Shaped(lanes)
  {
    Assign(Release(Acquire(d, next, false), current), p, Some(next))
  }

  function Toward(current: nat, destination: nat): nat
    requires current != destination
  {
    if destination > current then current + 1 else current - 1
  }

  function Slide(d: Draft, lanes: nat, p: PointerId, current: nat, destination: nat): (r: Draft)
    requires d.Shaped(lanes) && current < lanes && destination < lanes
    ensures r.Shaped(lanes) && r.fingers.suppressed == d.fingers.suppressed
    decreases if destination > current then destination - current else current - destination
  {
    if current == destination then d
    else
      var next := Toward(current, destination);
      Slide(SlideStep(d, lanes, p, current, next), lanes, p, next, destination)
  }

  function MovePointer(d: Draft, lanes: nat, p: PointerId, destination: nat): Draft
    requires d.Shaped(lanes) && destination < lanes
  {
    match d.fingers.pointers[p]
    case None => Assign(Acquire(d, destination, true), p, Some(destination))
    case Some(current) => Slide(d, lanes, p, current, destination)
  }

  function LiftPointer(d: Draft, lanes: nat, p: PointerId): Draft
    requires d.Shaped(lanes)
  {
    match d.fingers.pointers[p]
    case None => d
    case Some(lane) => Release(Assign(d, p, None), lane)
  }

  function ApplyContact(d: Draft, lanes: nat, c: Contact): (r: Draft)
    requires d.Shaped(lanes) && lanes > 0
    ensures r.Shaped(lanes) && r.fingers.suppressed == d.fingers.suppressed
  {
    if c.Active() then
      MovePointer(d, lanes, c.pointerId, LaneFor(c.x, lanes))
    else
      LiftPointer(d, lanes, c.pointerId)
  }

  function ApplyContacts(d: Draft, lanes: nat, contacts: seq<Contact>): (r: Draft)
    requires d.Shaped(lanes) && lanes > 0
    ensures r.Shaped(lanes) && r.fingers.suppressed == d.fingers.suppressed
  {
    if contacts == [] then d
    else ApplyContact(ApplyContacts(d, lanes, contacts[..|contacts| - 1]), lanes, contacts[|contacts| - 1])
  }

  /** The first contact of the action pointer, as a list of at most one. */
  function ActionContact(contacts: seq<Contact>, id: PointerId): seq<Contact> {
    if contacts == [] then []
    else if contacts[0].pointerId == id then [contacts[0]]
    else ActionContact(contacts[1..], id)
  }

  function OtherContacts(contacts: seq<Contact>, id: PointerId): seq<Contact> {
    if contacts == [] then []
    else
      var rest := OtherContacts(contacts[..|contacts| - 1], id);
      var last := contacts[|contacts| - 1];
      if last.pointerId == id then rest else rest + [last]
  }

  function ActionFirst(contacts: seq<Contact>, id: PointerId): seq<Contact> {
    ActionContact(contacts, id) + OtherContacts(contacts, id)
  }

  function Present(contacts: seq<Contact>): set<PointerId> {
    set i | 0 <= i < |contacts| :: contacts[i].pointerId
  }

  /** Pointers below `n` that the snapshot omits are lifted, in ascending order. */
  function LiftMissing(d: Draft, lanes: nat, present: set<PointerId>, n: nat): (r: Draft)
    requires d.Shaped(lanes) && n <= POINTER_ID_COUNT
    ensures r.Shaped(lanes)
  {
    if n == 0 then d
    else
      var rest := LiftMissing(d, lanes, present, n - 1);
      if (n - 1) in present then rest else LiftPointer(rest, lanes, n - 1)
  }

  function Suppression(contacts: seq<Contact>): (r: seq<bool>)
    ensures |r| == POINTER_ID_COUNT
  {
    if contacts == [] then seq(POINTER_ID_COUNT, _ => false)
    else
      Suppression(contacts[..|contacts| - 1])
        [contacts[|contacts| - 1].pointerId := contacts[|contacts| - 1].Suppressed()]
  }

  predicate OwnedThroughout(before: seq<nat>, after: seq<nat>, lane: nat) {
    lane < |before| && lane < |after| && before[lane] > 0 && after[lane] > 0
  }

  /** Changes on lanes held throughout the frame are dropped. */
  function Continuous(changes: seq<KeyChange>, before: seq<nat>, after: seq<nat>): (r: seq<KeyChange>)
    ensures forall i :: 0 <= i < |r| ==> r[i] in changes
  {
    if changes == [] then []
    else
      var rest := Continuous(changes[..|changes| - 1], before, after);
      var last := changes[|changes| - 1];
      if OwnedThroughout(before, after, last.lane) then rest else rest + [last]
  }

  /** A finger that lands, or is first admitted, on a lane that was already held. */
  predicate LandsOnHeldLane(before: Fingers, after: Fingers, lanes: nat, frame: TouchFrame, c: Contact)
    requires before.Shaped(lanes) && after.Shaped(lanes)
  {
    && ((frame.action.Down? && c.pointerId == frame.actionPointerId) || before.suppressed[c.pointerId])
    && before.pointers[c.pointerId].None?
    && after.pointers[c.pointerId].Some?
    && before.holds[after.pointers[c.pointerId].value] > 0
  }

  function Repress(lane: nat, split: bool): seq<KeyChange> {
    (if split then [KeyChange(lane, false, false)] else []) + [KeyChange(lane, true, true)]
  }

  function Represses(before: Fingers, after: Fingers, lanes: nat, frame: TouchFrame, split: bool, n: nat): (r: seq<KeyChange>)
    requires before.Shaped(lanes) && after.Shaped(lanes) && n <= |frame.contacts|
    ensures OnLanes(r, lanes)
  {
    if n == 0 then []
    else
      var rest := Represses(before, after, lanes, frame, split, n - 1);
      var c := frame.contacts[n - 1];
      if LandsOnHeldLane(before, after, lanes, frame, c)
      then rest + Repress(after.pointers[c.pointerId].value, split)
      else rest
  }

  function Marked(d: Draft, contacts: seq<Contact>): Draft {
    Draft(Fingers(d.fingers.pointers, Suppression(contacts), d.fingers.holds), d.changes)
  }

  /** Every edge of the frame, before the continuity filter. */
  function Unfiltered(state: Fingers, lanes: nat, frame: TouchFrame): (r: Draft)
    requires state.Shaped(lanes) && lanes > 0
    ensures r.Shaped(lanes)
  {
    var start := Draft(Fingers(state.pointers, seq(POINTER_ID_COUNT, _ => false), state.holds), []);
    var moved := ApplyContacts(start, lanes, ActionFirst(frame.contacts, frame.actionPointerId));
    LiftMissing(Marked(moved, frame.contacts), lanes, Present(frame.contacts), POINTER_ID_COUNT)
  }

  function Plan(state: Fingers, lanes: nat, frame: TouchFrame, split: bool): (r: Draft)
    requires state.Shaped(lanes) && lanes > 0
    ensures r.Shaped(lanes)
  {
    var all := Unfiltered(state, lanes, frame);
    Draft(all.fingers,
          Continuous(all.changes, state.holds, all.fingers.holds)
          + Represses(state, all.fingers, lanes, frame, split, |frame.contacts|))
  }
}
