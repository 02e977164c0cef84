/** What a planned frame means for the keys: hold counts, replay, slides
    without a gap, and the capacity of the change list. */
module PlannerLaws {
  import opened Protocol
  import opened KeyPlanner

  // ---------------------------------------------------------------- meaning of a change list

  /** Whether `lane` is asserted after `changes`, given whether it was before. */
  ghost function LaneAfter(before: bool, changes: seq<KeyChange>, lane: nat): bool {
    if changes == [] then before
    else
      var last := changes[|changes| - 1];
      if last.lane == lane then last.down else LaneAfter(before, changes[..|changes| - 1], lane)
  }

  lemma LaneAfterPush(before: bool, changes: seq<KeyChange>, c: KeyChange, lane: nat)
    ensures LaneAfter(before, changes + [c], lane)
         == if c.lane == lane then c.down else LaneAfter(before, changes, lane)
  {
    assert (changes + [c])[..|changes|] == changes;
  }

  lemma {:induction false} LaneAfterConcat(before: bool, a: seq<KeyChange>, b: seq<KeyChange>, lane: nat)
    ensures LaneAfter(before, a + b, lane) == LaneAfter(LaneAfter(before, a, lane), b, lane)
  {
    if b == [] {
      assert a + b == a;
    } else {
      LaneAfterConcat(before, a, b[..|b| - 1], lane);
      assert (a + b)[..|a + b| - 1] == a + b[..|b| - 1];
    }
  }

  /** Replaying the changes from "held before" gives exactly "held now". */
  ghost predicate Replays(before: seq<nat>, d: Draft) {
    && |d.fingers.holds| == |before|
    && forall lane :: 0 <= lane < |before| ==>
         LaneAfter(before[lane] > 0, d.changes, lane) == (d.fingers.holds[lane] > 0)
  }

  ghost function Owners(pointers: seq<Option<nat>>, lane: nat): set<nat> {
    set p | 0 <= p < |pointers| && pointers[p] == Some(lane)
  }

  /** Every lane's hold counter is the number of pointers that own it. */
  ghost predicate Counted(f: Fingers) {
    forall lane :: 0 <= lane < |f.holds| ==> f.holds[lane] == |Owners(f.pointers, lane)|
  }

  // ---------------------------------------------------------------- hold counting

  lemma {:induction false} SetBound(s: set<nat>, n: nat)
    requires forall x <- s :: x < n
    ensures |s| <= n
  {
    if n > 0 {
      SetBound(s - {n - 1}, n - 1);
    } else {
      assert s == {};
    }
  }

  lemma OwnersBound(pointers: seq<Option<nat>>, lane: nat)
    ensures |Owners(pointers, lane)| <= |pointers|
  {
    SetBound(Owners(pointers, lane), |pointers|);
  }

  lemma OwnersAssign(pointers: seq<Option<nat>>, p: nat, to: Option<nat>, lane: nat)
    requires p < |pointers|
    ensures |Owners(pointers[p := to], lane)|
         == |Owners(pointers, lane)| - (if pointers[p] == Some(lane) then 1 else 0) + (if to == Some(lane) then 1 else 0)
  {
    var rest := Owners(pointers, lane) - {p};
    assert Owners(pointers[p := to], lane) == if to == Some(lane) then rest + {p} else rest;
    assert Owners(pointers, lane) == if pointers[p] == Some(lane) then rest + {p} else rest;
  }

  /** Counting that is exact for a pointer table other than the stored one:
      in the middle of a slide the moving pointer is charged to two lanes. */
  lemma AssignCounted(d: Draft, lanes: nat, p: PointerId, to: Option<nat>)
    requires d.Shaped(lanes) && Counted(d.fingers)
    requires to.Some? ==> to.value < lanes
    ensures forall lane :: 0 <= lane < lanes ==>
      |Owners(d.fingers.pointers[p := to], lane)| + (if d.fingers.pointers[p] == Some(lane) then 1 else 0)
      == d.fingers.holds[lane] + (if to == Some(lane) then 1 else 0)
    ensures forall lane :: 0 <= lane < lanes ==> d.fingers.holds[lane] <= POINTER_ID_COUNT
  {
    forall lane | 0 <= lane < lanes
      ensures |Owners(d.fingers.pointers[p := to], lane)| + (if d.fingers.pointers[p] == Some(lane) then 1 else 0)
           == d.fingers.holds[lane] + (if to == Some(lane) then 1 else 0)
      ensures d.fingers.holds[lane] <= POINTER_ID_COUNT
    {
      OwnersAssign(d.fingers.pointers, p, to, lane);
      OwnersBound(d.fingers.pointers, lane);
    }
  }

  // ---------------------------------------------------------------- one edge at a time

  /** At least one lane is asserted after the changes. */
  ghost predicate SomeAsserted(before: seq<nat>, changes: seq<KeyChange>) {
    exists lane :: 0 <= lane < |before| && LaneAfter(before[lane] > 0, changes, lane)
  }

  /** At least one lane is asserted after every prefix of the changes. */
  ghost predicate NeverEmpty(before: seq<nat>, changes: seq<KeyChange>) {
    forall k :: 0 <= k <= |changes| ==> SomeAsserted(before, changes[..k])
  }

  lemma NeverEmptyPush(before: seq<nat>, changes: seq<KeyChange>, c: KeyChange)
    requires NeverEmpty(before, changes) && SomeAsserted(before, changes + [c])
    ensures NeverEmpty(before, changes + [c])
  {
    forall k | 0 <= k <= |changes + [c]|
      ensures SomeAsserted(before, (changes + [c])[..k])
    {
      if k <= |changes| {
        assert (changes + [c])[..k] == changes[..k];
      } else {
        assert (changes + [c])[..k] == changes + [c];
      }
    }
  }

  /** The state of planning: replay so far, and - if `slide` - no gap so far. */
  ghost predicate Sound(before: seq<nat>, lanes: nat, d: Draft, slide: bool) {
    && d.Shaped(lanes)
    && Replays(before, d)
    && (slide ==> NeverEmpty(before, d.changes))
  }

  lemma AcquireSound(before: seq<nat>, lanes: nat, d: Draft, lane: nat, touch: bool, slide: bool)
    requires Sound(before, lanes, d, slide) && lane < lanes
    ensures Sound(before, lanes, Acquire(d, lane, touch), slide)
  {
    var r := Acquire(d, lane, touch);
    var c := KeyChange(lane, true, touch);
    if d.fingers.holds[lane] == 0 {
      forall l | 0 <= l < lanes ensures LaneAfter(before[l] > 0, r.changes, l) == (r.fingers.holds[l] > 0) {
        LaneAfterPush(before[l] > 0, d.changes, c, l);
      }
      if slide {
        assert SomeAsserted(before, r.changes) by {
          assert LaneAfter(before[lane] > 0, r.changes, lane);
        }
        NeverEmptyPush(before, d.changes, c);
      }
    }
  }

  lemma ReleaseSound(before: seq<nat>, lanes: nat, d: Draft, lane: nat, slide: bool)
    requires Sound(before, lanes, d, slide) && lane < lanes
    requires slide ==> exists l :: 0 <= l < lanes && Release(d, lane).fingers.holds[l] > 0
    ensures Sound(before, lanes, Release(d, lane), slide)
  {
    var r := Release(d, lane);
    var c := KeyChange(lane, false, false);
    if d.fingers.holds[lane] == 1 {
      forall l | 0 <= l < lanes ensures LaneAfter(before[l] > 0, r.changes, l) == (r.fingers.holds[l] > 0) {
        LaneAfterPush(before[l] > 0, d.changes, c, l);
      }
      if slide {
        var l :| 0 <= l < lanes && r.fingers.holds[l] > 0;
        assert LaneAfter(before[l] > 0, r.changes, l);
        NeverEmptyPush(before, d.changes, c);
      }
    }
  }

  // ---------------------------------------------------------------- one contact

  /** `Sound`, exact counters, and - if `slide` - some lane held now. */
  ghost predicate Exact(before: seq<nat>, lanes: nat, d: Draft, slide: bool) {
    && Sound(before, lanes, d, slide)
    && Counted(d.fingers)
  }

  lemma SlideStepExact(before: seq<nat>, lanes: nat, d: Draft, p: PointerId, current: nat, next: nat, slide: bool)
    requires Exact(before, lanes, d, slide) && d.fingers.pointers[p] == Some(current)
    requires current < lanes && next < lanes && current != next
    ensures Exact(before, lanes, SlideStep(d, lanes, p, current, next), slide)
  {
    AssignCounted(d, lanes, p, Some(next));
    AcquireSound(before, lanes, d, next, false, slide);
    var a := Acquire(d, next, false);
    assert Release(a, current).fingers.holds[next] > 0;
    ReleaseSound(before, lanes, a, current, slide);
    assert SlideStep(d, lanes, p, current, next).changes == Release(a, current).changes;
  }

  lemma {:induction false} SlideExact(before: seq<nat>, lanes: nat, d: Draft, p: PointerId, current: nat, destination: nat, slide: bool)
    requires Exact(before, lanes, d, slide) && d.fingers.pointers[p] == Some(current)
    requires current < lanes && destination < lanes
    ensures Exact(before, lanes, Slide(d, lanes, p, current, destination), slide)
    ensures Slide(d, lanes, p, current, destination).fingers.pointers == d.fingers.pointers[p := Some(destination)]
    decreases if destination > current then destination - current else current - destination
  {
    if current == destination {
      assert d.fingers.pointers == d.fingers.pointers[p := Some(destination)];
    } else {
      var next := Toward(current, destination);
      SlideStepExact(before, lanes, d, p, current, next, slide);
      SlideExact(before, lanes, SlideStep(d, lanes, p, current, next), p, next, destination, slide);
    }
  }

  lemma MoveExact(before: seq<nat>, lanes: nat, d: Draft, p: PointerId, destination: nat, slide: bool)
    requires Exact(before, lanes, d, slide) && destination < lanes
    ensures Exact(before, lanes, MovePointer(d, lanes, p, destination), slide)
    ensures MovePointer(d, lanes, p, destination).fingers.pointers == d.fingers.pointers[p := Some(destination)]
  {
    match d.fingers.pointers[p]
    case None =>
      AssignCounted(d, lanes, p, Some(destination));
      AcquireSound(before, lanes, d, destination, true, slide);
    case Some(current) =>
      SlideExact(before, lanes, d, p, current, destination, slide);
  }

  /** Lifting a pointer leaves no gap as long as some other pointer stays. */
  lemma LiftExact(before: seq<nat>, lanes: nat, d: Draft, p: PointerId, slide: bool, stays: PointerId)
    requires Exact(before, lanes, d, slide)
    requires slide ==> stays != p && d.fingers.pointers[stays].Some?
    ensures Exact(before, lanes, LiftPointer(d, lanes, p), slide)
    ensures LiftPointer(d, lanes, p).fingers.pointers == d.fingers.pointers[p := None]
  {
    match d.fingers.pointers[p]
    case None =>
      assert d.fingers.pointers == d.fingers.pointers[p := None];
    case Some(lane) =>
      AssignCounted(d, lanes, p, None);
      var a := Assign(d, p, None);
      var r := Release(a, lane);
      assert Counted(r.fingers);
      if slide {
        var l := d.fingers.pointers[stays].value;
        assert stays in Owners(r.fingers.pointers, l);
        assert r.fingers.holds[l] > 0;
      }
      ReleaseSound(before, lanes, a, lane, slide);
  }

  // ---------------------------------------------------------------- one snapshot

  /** The lane a contact asks for: none unless it touches and is not suppressed. */
  function Target(c: Contact, lanes: nat): Option<nat>
    requires lanes > 0
  {
    if c.Active() then Some(LaneFor(c.x, lanes)) else None
  }

  lemma ApplyContactExact(before: seq<nat>, lanes: nat, d: Draft, c: Contact, slide: bool, stays: PointerId)
    requires Exact(before, lanes, d, slide) && lanes > 0
    requires slide ==> d.fingers.pointers[stays].Some? && (c.pointerId == stays ==> c.Active())
    ensures Exact(before, lanes, ApplyContact(d, lanes, c), slide)
    ensures ApplyContact(d, lanes, c).fingers.pointers == d.fingers.pointers[c.pointerId := Target(c, lanes)]
  {
    if c.Active() {
      MoveExact(before, lanes, d, c.pointerId, LaneFor(c.x, lanes), slide);
    } else {
      LiftExact(before, lanes, d, c.pointerId, slide, stays);
    }
  }

  /** `pointers` follows the contacts where they speak and `old` elsewhere. */
  ghost predicate Follows(pointers: seq<Option<nat>>, base: seq<Option<nat>>, contacts: seq<Contact>, lanes: nat)
    requires lanes > 0
  {
    && |pointers| == |base| == POINTER_ID_COUNT
    && (forall i :: 0 <= i < |contacts| ==> pointers[contacts[i].pointerId] == Target(contacts[i], lanes))
    && (forall p: PointerId :: p !in Present(contacts) ==> pointers[p] == base[p])
  }

  lemma PresentPush(contacts: seq<Contact>)
    requires contacts != []
    ensures Present(contacts) == Present(contacts[..|contacts| - 1]) + {contacts[|contacts| - 1].pointerId}
  {
    forall p | p in Present(contacts)
      ensures p in Present(contacts[..|contacts| - 1]) + {contacts[|contacts| - 1].pointerId}
    {
      var i :| 0 <= i < |contacts| && contacts[i].pointerId == p;
      if i < |contacts| - 1 {
        assert contacts[..|contacts| - 1][i].pointerId == p;
      }
    }
    forall p | p in Present(contacts[..|contacts| - 1])
      ensures p in Present(contacts)
    {
      var i :| 0 <= i < |contacts| - 1 && contacts[..|contacts| - 1][i].pointerId == p;
      assert contacts[i].pointerId == p;
    }
    assert contacts[|contacts| - 1].pointerId in Present(contacts);
  }

  lemma {:induction false} ApplyContactsExact(before: seq<nat>, lanes: nat, d: Draft, contacts: seq<Contact>, slide: bool, stays: PointerId)
    requires Exact(before, lanes, d, slide) && lanes > 0 && DistinctPointers(contacts)
    requires slide ==>
      && d.fingers.pointers[stays].Some?
      && forall i :: 0 <= i < |contacts| && contacts[i].pointerId == stays ==> contacts[i].Active()
    ensures Exact(before, lanes, ApplyContacts(d, lanes, contacts), slide)
    ensures Follows(ApplyContacts(d, lanes, contacts).fingers.pointers, d.fingers.pointers, contacts, lanes)
    ensures slide ==> ApplyContacts(d, lanes, contacts).fingers.pointers[stays].Some?
  {
    hide LaneAfter, NeverEmpty, Replays, Counted, ApplyContact;
    if contacts == [] {
      EmptyFollows(d.fingers.pointers, lanes);
    } else {
      hide Follows;
      var front, last := contacts[..|contacts| - 1], contacts[|contacts| - 1];
      ApplyContactsExact(before, lanes, d, front, slide, stays);
      var e := ApplyContacts(d, lanes, front);
      ApplyContactExact(before, lanes, e, last, slide, stays);
      FollowsPush(e.fingers.pointers, d.fingers.pointers, contacts, lanes);
    }
  }

  lemma EmptyFollows(pointers: seq<Option<nat>>, lanes: nat)
    requires lanes > 0 && |pointers| == POINTER_ID_COUNT
    ensures Follows(pointers, pointers, [], lanes)
  {
  }

  lemma FollowsPush(pointers: seq<Option<nat>>, base: seq<Option<nat>>, contacts: seq<Contact>, lanes: nat)
    requires lanes > 0 && contacts != [] && DistinctPointers(contacts)
    requires Follows(pointers, base, contacts[..|contacts| - 1], lanes)
    ensures
      var last := contacts[|contacts| - 1];
      Follows(pointers[last.pointerId := Target(last, lanes)], base, contacts, lanes)
  {
    hide Target;
    var front, last := contacts[..|contacts| - 1], contacts[|contacts| - 1];
    PresentPush(contacts);
    assert forall i :: 0 <= i < |front| ==> front[i].pointerId != last.pointerId;
  }

  lemma {:induction false} LiftMissingExact(before: seq<nat>, lanes: nat, d: Draft, present: set<PointerId>, n: nat, slide: bool, stays: PointerId)
    requires Exact(before, lanes, d, slide) && n <= POINTER_ID_COUNT
    requires slide ==> stays in present && d.fingers.pointers[stays].Some?
    ensures Exact(before, lanes, LiftMissing(d, lanes, present, n), slide)
    ensures forall p: PointerId ::
      LiftMissing(d, lanes, present, n).fingers.pointers[p] == if p < n && p !in present then None else d.fingers.pointers[p]
    ensures LiftMissing(d, lanes, present, n).fingers.suppressed == d.fingers.suppressed
  {
    hide LaneAfter, NeverEmpty, Replays, Counted;
    if n > 0 {
      LiftMissingExact(before, lanes, d, present, n - 1, slide, stays);
      var e := LiftMissing(d, lanes, present, n - 1);
      if (n - 1) !in present {
        LiftExact(before, lanes, e, n - 1, slide, stays);
        assert LiftPointer(e, lanes, n - 1).fingers.suppressed == e.fingers.suppressed;
        assert LiftMissing(d, lanes, present, n) == LiftPointer(e, lanes, n - 1);
      } else {
        assert LiftMissing(d, lanes, present, n) == e;
      }
    }
  }

  // ---------------------------------------------------------------- action pointer first

  lemma {:induction false} ActionContactIs(contacts: seq<Contact>, id: PointerId)
    ensures |ActionContact(contacts, id)| <= 1
    ensures forall c :: c in ActionContact(contacts, id) ==> c in contacts && c.pointerId == id
    ensures DistinctPointers(contacts) ==>
      forall c :: c in contacts && c.pointerId == id ==> c in ActionContact(contacts, id)
  {
    if contacts != [] && contacts[0].pointerId != id {
      ActionContactIs(contacts[1..], id);
      assert contacts == [contacts[0]] + contacts[1..];
    }
  }

  lemma {:induction false} OtherContactsAre(contacts: seq<Contact>, id: PointerId)
    ensures forall c :: c in OtherContacts(contacts, id) <==> c in contacts && c.pointerId != id
    ensures DistinctPointers(contacts) ==> DistinctPointers(OtherContacts(contacts, id))
  {
    if contacts != [] {
      var front, last := contacts[..|contacts| - 1], contacts[|contacts| - 1];
      OtherContactsAre(front, id);
      assert contacts == front + [last];
      var rest := OtherContacts(front, id);
      if DistinctPointers(contacts) && last.pointerId != id {
        forall i | 0 <= i < |rest| ensures rest[i].pointerId != last.pointerId {
          assert rest[i] in front;
        }
      }
    }
  }

  lemma ActionFirstIs(contacts: seq<Contact>, id: PointerId)
    requires DistinctPointers(contacts)
    ensures DistinctPointers(ActionFirst(contacts, id))
    ensures forall c :: c in ActionFirst(contacts, id) <==> c in contacts
    ensures Present(ActionFirst(contacts, id)) == Present(contacts)
  {
    ActionContactIs(contacts, id);
    OtherContactsAre(contacts, id);
    var all := ActionFirst(contacts, id);
    forall p: PointerId ensures p in Present(all) <==> p in Present(contacts) {
      if p in Present(all) {
        var i :| 0 <= i < |all| && all[i].pointerId == p;
        assert all[i] in contacts;
      }
      if p in Present(contacts) {
        var i :| 0 <= i < |contacts| && contacts[i].pointerId == p;
        assert contacts[i] in all;
      }
    }
  }

  lemma {:induction false} SuppressionIs(contacts: seq<Contact>)
    requires DistinctPointers(contacts)
    ensures forall i :: 0 <= i < |contacts| ==> Suppression(contacts)[contacts[i].pointerId] == contacts[i].Suppressed()
    ensures forall p: PointerId :: p !in Present(contacts) ==> !Suppression(contacts)[p]
  {
    if contacts != [] {
      SuppressionIs(contacts[..|contacts| - 1]);
      PresentPush(contacts);
    }
  }

  lemma UnfilteredExact(state: Fingers, lanes: nat, frame: TouchFrame, slide: bool, stays: PointerId)
    requires state.Shaped(lanes) && lanes > 0 && Counted(state) && DistinctPointers(frame.contacts)
    requires slide ==>
      && state.pointers[stays].Some?
      && exists i :: 0 <= i < |frame.contacts| && frame.contacts[i].pointerId == stays && frame.contacts[i].Active()
    ensures Exact(state.holds, lanes, Unfiltered(state, lanes, frame), slide)
    ensures Follows(Unfiltered(state, lanes, frame).fingers.pointers, seq(POINTER_ID_COUNT, _ => None), frame.contacts, lanes)
    ensures Unfiltered(state, lanes, frame).fingers.suppressed == Suppression(frame.contacts)
  {
    hide ApplyContacts, LiftMissing, ActionFirst, Suppression;
    var order := ActionFirst(frame.contacts, frame.actionPointerId);
    ActionFirstIs(frame.contacts, frame.actionPointerId);
    var start := Draft(Fingers(state.pointers, seq(POINTER_ID_COUNT, _ => false), state.holds), []);
    if slide {
      var lane := state.pointers[stays].value;
      assert stays in Owners(state.pointers, lane);
      assert SomeAsserted(state.holds, []) by { assert LaneAfter(state.holds[lane] > 0, [], lane); }
      forall k | 0 <= k < |order| && order[k].pointerId == stays
        ensures order[k].Active()
      {
        assert order[k] in frame.contacts;
      }
    }
    ApplyContactsExact(state.holds, lanes, start, order, slide, stays);
    var moved := ApplyContacts(start, lanes, order);
    LiftMissingExact(state.holds, lanes, Marked(moved, frame.contacts), Present(frame.contacts), POINTER_ID_COUNT, slide, stays);
    forall i | 0 <= i < |frame.contacts|
      ensures moved.fingers.pointers[frame.contacts[i].pointerId] == Target(frame.contacts[i], lanes)
    {
      assert frame.contacts[i] in order;
    }
  }

  // ---------------------------------------------------------------- continuity filter

  lemma {:induction false} ContinuousReplay(start: bool, changes: seq<KeyChange>, before: seq<nat>, after: seq<nat>, lane: nat)
    ensures LaneAfter(start, Continuous(changes, before, after), lane)
         == if OwnedThroughout(before, after, lane) then start else LaneAfter(start, changes, lane)
  {
    if changes != [] {
      var front, last := changes[..|changes| - 1], changes[|changes| - 1];
      ContinuousReplay(start, front, before, after, lane);
      LaneAfterPush(start, Continuous(front, before, after), last, lane);
    }
  }

  /** Dropping the continuous lanes never drops an asserted lane: what the
      filtered list asserts contains what the unfiltered list asserts. */
  lemma ContinuousAssertsMore(before: seq<nat>, changes: seq<KeyChange>, after: seq<nat>)
    ensures forall lane :: 0 <= lane < |before| && LaneAfter(before[lane] > 0, changes, lane) ==>
      LaneAfter(before[lane] > 0, Continuous(changes, before, after), lane)
    ensures SomeAsserted(before, changes) ==> SomeAsserted(before, Continuous(changes, before, after))
  {
    forall lane | 0 <= lane < |before| && LaneAfter(before[lane] > 0, changes, lane)
      ensures LaneAfter(before[lane] > 0, Continuous(changes, before, after), lane)
    {
      ContinuousReplay(before[lane] > 0, changes, before, after, lane);
    }
    if SomeAsserted(before, changes) {
      var lane :| 0 <= lane < |before| && LaneAfter(before[lane] > 0, changes, lane);
      assert LaneAfter(before[lane] > 0, Continuous(changes, before, after), lane);
    }
  }

  /** A prefix of the filtered list is the filtered prefix, so the law above holds after each. */
  lemma {:induction false} ContinuousPrefix(changes: seq<KeyChange>, before: seq<nat>, after: seq<nat>, k: nat) returns (j: nat)
    requires k <= |Continuous(changes, before, after)|
    ensures j <= |changes| && Continuous(changes[..j], before, after) == Continuous(changes, before, after)[..k]
  {
    if k == |Continuous(changes, before, after)| {
      j := |changes|;
      assert changes[..j] == changes;
    } else {
      var front := changes[..|changes| - 1];
      j := ContinuousPrefix(front, before, after, k);
      assert front[..j] == changes[..j];
    }
  }

  lemma {:induction false} ContinuousNeverEmpty(before: seq<nat>, changes: seq<KeyChange>, after: seq<nat>)
    requires NeverEmpty(before, changes)
    ensures NeverEmpty(before, Continuous(changes, before, after))
  {
    assert changes[..|changes|] == changes;
    ContinuousAssertsMore(before, changes, after);
    if changes == [] {
      assert forall k :: 0 <= k <= 0 ==> Continuous(changes, before, after)[..k] == [];
    } else {
      var front, last := changes[..|changes| - 1], changes[|changes| - 1];
      forall k | 0 <= k <= |front| ensures SomeAsserted(before, front[..k]) {
        assert front[..k] == changes[..k];
      }
      ContinuousNeverEmpty(before, front, after);
      if !OwnedThroughout(before, after, last.lane) {
        NeverEmptyPush(before, Continuous(front, before, after), last);
      }
    }
  }

  lemma {:induction false} ContinuousLength(changes: seq<KeyChange>, before: seq<nat>, after: seq<nat>)
    ensures |Continuous(changes, before, after)| <= |changes|
    ensures (forall i :: 0 <= i < |changes| ==> OwnedThroughout(before, after, changes[i].lane)) ==>
      Continuous(changes, before, after) == []
  {
    if changes != [] {
      ContinuousLength(changes[..|changes| - 1], before, after);
    }
  }

  // ---------------------------------------------------------------- repeat presses

  /** Repeat presses leave every lane as it was: they only touch lanes that are
      owned before and after the frame. */
  lemma {:induction false} RepressesReplay(state: Fingers, after: Fingers, lanes: nat, frame: TouchFrame, split: bool, n: nat,
                        start: bool, lane: nat)
    requires state.Shaped(lanes) && after.Shaped(lanes) && n <= |frame.contacts| && Counted(after)
    requires lane < lanes && (state.holds[lane] > 0 && after.holds[lane] > 0 ==> start)
    ensures LaneAfter(start, Represses(state, after, lanes, frame, split, n), lane) == start
  {
    if n > 0 {
      RepressesReplay(state, after, lanes, frame, split, n - 1, start, lane);
      var c := frame.contacts[n - 1];
      if LandsOnHeldLane(state, after, lanes, frame, c) {
        var l := after.pointers[c.pointerId].value;
        assert c.pointerId in Owners(after.pointers, l);
        var rest := Represses(state, after, lanes, frame, split, n - 1);
        if split {
          LaneAfterPush(start, rest, KeyChange(l, false, false), lane);
          LaneAfterPush(start, rest + [KeyChange(l, false, false)], KeyChange(l, true, true), lane);
          assert rest + Repress(l, split) == rest + [KeyChange(l, false, false)] + [KeyChange(l, true, true)];
        } else {
          LaneAfterPush(start, rest, KeyChange(l, true, true), lane);
        }
      }
    }
  }

  lemma {:induction false} RepressesNeverEmpty(state: Fingers, after: Fingers, lanes: nat, frame: TouchFrame, n: nat, changes: seq<KeyChange>)
    requires state.Shaped(lanes) && after.Shaped(lanes) && n <= |frame.contacts|
    requires NeverEmpty(state.holds, changes)
    ensures NeverEmpty(state.holds, changes + Represses(state, after, lanes, frame, false, n))
  {
    if n == 0 {
      assert changes + [] == changes;
    } else {
      RepressesNeverEmpty(state, after, lanes, frame, n - 1, changes);
      var c := frame.contacts[n - 1];
      if LandsOnHeldLane(state, after, lanes, frame, c) {
        var l := after.pointers[c.pointerId].value;
        var rest := changes + Represses(state, after, lanes, frame, false, n - 1);
        LaneAfterPush(state.holds[l] > 0, rest, KeyChange(l, true, true), l);
        assert SomeAsserted(state.holds, rest + [KeyChange(l, true, true)]);
        NeverEmptyPush(state.holds, rest, KeyChange(l, true, true));
        assert changes + Represses(state, after, lanes, frame, false, n) == rest + [KeyChange(l, true, true)];
      }
    }
  }

  // ---------------------------------------------------------------- what a planned frame means

  /** Snapshot correctness. From any state with exact hold counters, and for any
      frame without repeated pointers: the counters stay exact; who owns what
      afterwards depends on the frame alone; and replaying the emitted changes
      from "held before" yields "held after" on every lane. */
  lemma PlanCorrect(state: Fingers, lanes: nat, frame: TouchFrame, split: bool)
    requires state.Shaped(lanes) && lanes > 0 && Counted(state) && DistinctPointers(frame.contacts)
    ensures Counted(Plan(state, lanes, frame, split).fingers)
    ensures Follows(Plan(state, lanes, frame, split).fingers.pointers, seq(POINTER_ID_COUNT, _ => None), frame.contacts, lanes)
    ensures forall i :: 0 <= i < |frame.contacts| ==>
      Plan(state, lanes, frame, split).fingers.suppressed[frame.contacts[i].pointerId] == frame.contacts[i].Suppressed()
    ensures forall p: PointerId :: p !in Present(frame.contacts) ==> !Plan(state, lanes, frame, split).fingers.suppressed[p]
    ensures Replays(state.holds, Plan(state, lanes, frame, split))
  {
    UnfilteredExact(state, lanes, frame, false, 0);
    SuppressionIs(frame.contacts);
    var all := Unfiltered(state, lanes, frame);
    var kept := Continuous(all.changes, state.holds, all.fingers.holds);
    var extra := Represses(state, all.fingers, lanes, frame, split, |frame.contacts|);
    forall lane | 0 <= lane < lanes
      ensures LaneAfter(state.holds[lane] > 0, kept + extra, lane) == (all.fingers.holds[lane] > 0)
    {
      var start := state.holds[lane] > 0;
      ContinuousReplay(start, all.changes, state.holds, all.fingers.holds, lane);
      RepressesReplay(state, all.fingers, lanes, frame, split, |frame.contacts|, LaneAfter(start, kept, lane), lane);
      LaneAfterConcat(start, kept, extra, lane);
    }
  }

  /** Slides leave no gap: without split re-press, if some pointer owns a lane
      before and after the frame, then after every prefix of the emitted changes
      at least one lane is asserted. */
  lemma PlanNeverEmpty(state: Fingers, lanes: nat, frame: TouchFrame, stays: PointerId)
    requires state.Shaped(lanes) && lanes > 0 && Counted(state) && DistinctPointers(frame.contacts)
    requires state.pointers[stays].Some? && Plan(state, lanes, frame, false).fingers.pointers[stays].Some?
    ensures NeverEmpty(state.holds, Plan(state, lanes, frame, false).changes)
  {
    PlanCorrect(state, lanes, frame, false);
    assert stays in Present(frame.contacts);
    var i :| 0 <= i < |frame.contacts| && frame.contacts[i].pointerId == stays;
    UnfilteredExact(state, lanes, frame, true, stays);
    var all := Unfiltered(state, lanes, frame);
    ContinuousNeverEmpty(state.holds, all.changes, all.fingers.holds);
    RepressesNeverEmpty(state, all.fingers, lanes, frame, |frame.contacts|,
                        Continuous(all.changes, state.holds, all.fingers.holds));
  }
}
