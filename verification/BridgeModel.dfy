/** The pure session: what each kind of frame does to the holds and which key
    changes it asks for, folded over a sequence of frames. */
module BridgeModel {
  import opened Protocol
  import opened KeyPlanner
  import opened PlannerLaws
  import opened PlannerBounds
  import opened KeySinks

  /** Holds and key states of the bridge between two frames. */
  datatype Bridge = Bridge(fingers: Fingers, pressed: seq<bool>) {
    ghost predicate Shaped(lanes: nat) {
      fingers.Shaped(lanes) && |pressed| == lanes
    }

    /** Exact hold counters, and a key is down exactly when some pointer holds its lane. */
    ghost predicate Consistent(lanes: nat) {
      && Shaped(lanes)
      && Counted(fingers)
      && forall lane :: 0 <= lane < lanes ==> pressed[lane] == (fingers.holds[lane] > 0)
    }
  }

  /** One release per pressed lane, in lane order. */
  function Releases(pressed: seq<bool>): (r: seq<KeyChange>)
    ensures OnLanes(r, |pressed|)
  {
    if pressed == [] then []
    else
      var front := Releases(pressed[..|pressed| - 1]);
      if pressed[|pressed| - 1] then front + [KeyChange(|pressed| - 1, false, false)] else front
  }

  /** The three kinds of frames: releasing frames drop everything, an empty
      heartbeat changes nothing, every other frame is planned. */
  ghost function Asked(b: Bridge, lanes: nat, frame: TouchFrame, split: bool): (d: Draft)
    requires b.Shaped(lanes) && lanes > 0
    ensures d.Shaped(lanes)
  {
    if frame.ReleasesAll() then Draft(Idle(lanes), Releases(b.pressed))
    else if frame.EmptyHeartbeat() then Draft(b.fingers, [])
    else Plan(b.fingers, lanes, frame, split)
  }

  ghost function Next(b: Bridge, lanes: nat, frame: TouchFrame, split: bool): (r: Bridge)
    requires b.Shaped(lanes) && lanes > 0
    ensures r.Shaped(lanes)
  {
    var d := Asked(b, lanes, frame, split);
    Bridge(d.fingers, Applied(b.pressed, d.changes))
  }

  ghost function After(b: Bridge, lanes: nat, frames: seq<TouchFrame>): (r: Bridge)
    requires b.Shaped(lanes) && lanes > 0
    ensures r.Shaped(lanes)
  {
    if frames == [] then b
    else Next(After(b, lanes, frames[..|frames| - 1]), lanes, frames[|frames| - 1], false)
  }

  /** The key changes of a whole session: the plans of its frames, in order. */
  ghost function Stream(b: Bridge, lanes: nat, frames: seq<TouchFrame>): seq<KeyChange>
    requires b.Shaped(lanes) && lanes > 0
  {
    if frames == [] then []
    else
      var front := frames[..|frames| - 1];
      Stream(b, lanes, front) + Asked(After(b, lanes, front), lanes, frames[|frames| - 1], false).changes
  }

  lemma StreamPush(b: Bridge, lanes: nat, frames: seq<TouchFrame>, frame: TouchFrame)
    requires b.Shaped(lanes) && lanes > 0
    ensures After(b, lanes, frames + [frame]) == Next(After(b, lanes, frames), lanes, frame, false)
    ensures Stream(b, lanes, frames + [frame])
         == Stream(b, lanes, frames) + Asked(After(b, lanes, frames), lanes, frame, false).changes
  {
    assert (frames + [frame])[..|frames|] == frames;
  }

  // ---------------------------------------------------------------- releases

  lemma {:induction false} ReleasesEmpty(pressed: seq<bool>)
    ensures Releases(pressed) == [] <==> forall lane :: 0 <= lane < |pressed| ==> !pressed[lane]
  {
    if pressed != [] {
      ReleasesEmpty(pressed[..|pressed| - 1]);
      assert forall lane :: 0 <= lane < |pressed| - 1 ==> pressed[..|pressed| - 1][lane] == pressed[lane];
    }
  }

  lemma {:induction false} ReleaseFirst(pressed: seq<bool>)
    requires Releases(pressed) != []
    ensures var c := Releases(pressed)[0];
      !c.down && c.lane < |pressed| && pressed[c.lane] && Releases(pressed[c.lane := false]) == Releases(pressed)[1..]
  {
    var front := pressed[..|pressed| - 1];
    if Releases(front) == [] {
      assert pressed[|pressed| - 1 := false][..|pressed| - 1] == front;
    } else {
      ReleaseFirst(front);
      var c := Releases(front)[0];
      assert Releases(pressed)[0] == c;
      assert pressed[c.lane := false][..|pressed| - 1] == front[c.lane := false];
    }
  }

  /** Releasing a prefix leaves exactly the rest of the releases owed. */
  lemma {:induction false} ReleasesCut(pressed: seq<bool>, n: nat)
    requires n <= |Releases(pressed)|
    ensures Releases(Applied(pressed, Releases(pressed)[..n])) == Releases(pressed)[n..]
  {
    var r := Releases(pressed);
    if n == 0 {
      assert Applied(pressed, r[..0]) == pressed;
    } else {
      ReleasesCut(pressed, n - 1);
      assert r[..n] == r[..n - 1] + [r[n - 1]];
      var before := Applied(pressed, r[..n - 1]);
      AppliedPush(pressed, r[..n - 1], r[n - 1]);
      assert Releases(before)[0] == r[n - 1];
      ReleaseFirst(before);
      assert !r[n - 1].down;
    }
  }

  lemma {:induction false} ReleasesLength(pressed: seq<bool>)
    ensures |Releases(pressed)| <= |pressed|
  {
    if pressed != [] {
      ReleasesLength(pressed[..|pressed| - 1]);
    }
  }

  lemma ReleasesAll(pressed: seq<bool>)
    ensures forall lane :: 0 <= lane < |pressed| ==> !Applied(pressed, Releases(pressed))[lane]
  {
    var r := Releases(pressed);
    ReleasesCut(pressed, |r|);
    assert r[..|r|] == r && r[|r|..] == [];
    ReleasesEmpty(Applied(pressed, r));
  }

  // ---------------------------------------------------------------- what the fold keeps

  lemma IdleCounted(lanes: nat)
    ensures Counted(Idle(lanes)) && ActivePointers(Idle(lanes).pointers) == {}
  {
    forall lane | 0 <= lane < lanes ensures Idle(lanes).holds[lane] == |Owners(Idle(lanes).pointers, lane)| {
      assert Owners(Idle(lanes).pointers, lane) == {};
    }
  }

  /** The three kinds, field by field: a session start, a cancel or an unlocked
      frame leaves no hold and no key; an empty heartbeat changes nothing; any
      other frame is planned. */
  lemma FrameKinds(b: Bridge, lanes: nat, frame: TouchFrame, split: bool)
    requires b.Shaped(lanes) && lanes > 0
    ensures frame.sessionStart || frame.action == Cancel || !frame.locked ==>
      Next(b, lanes, frame, split) == Bridge(Idle(lanes), seq(lanes, _ => false))
    ensures !frame.sessionStart && frame.locked && frame.action == Heartbeat && frame.contacts == [] ==>
      Next(b, lanes, frame, split) == b && Asked(b, lanes, frame, split).changes == []
    ensures !frame.sessionStart && frame.locked && frame.action != Cancel && (frame.action != Heartbeat || frame.contacts != []) ==>
      Asked(b, lanes, frame, split) == Plan(b.fingers, lanes, frame, split)
  {
    hide Plan, Releases;
    ReleasesAll(b.pressed);
    AppliedNothing(b.pressed);
    assert frame.ReleasesAll() ==> Next(b, lanes, frame, split).pressed == seq(lanes, _ => false);
  }

  lemma NextConsistent(b: Bridge, lanes: nat, frame: TouchFrame, split: bool)
    requires b.Shaped(lanes) && lanes > 0 && DistinctPointers(frame.contacts)
    requires b.Consistent(lanes) || frame.ReleasesAll()
    ensures Next(b, lanes, frame, split).Consistent(lanes)
  {
    if frame.ReleasesAll() {
      IdleCounted(lanes);
      ReleasesAll(b.pressed);
    } else if frame.EmptyHeartbeat() {
      assert Applied(b.pressed, []) == b.pressed;
    } else {
      PlanCorrect(b.fingers, lanes, frame, split);
    }
  }

  /** What one frame asks for fits the capacity of a change list; a releasing
      frame asks for at most one change per lane, whatever is pressed. */
  lemma AskedBounded(b: Bridge, lanes: nat, frame: TouchFrame, split: bool)
    requires b.Shaped(lanes) && lanes > 0 && frame.Decoded()
    requires frame.ReleasesAll() || (Counted(b.fingers) && Bounded(b.fingers))
    ensures |Asked(b, lanes, frame, split).changes| <= MaxKeyChanges(lanes)
  {
    if frame.ReleasesAll() {
      ReleasesLength(b.pressed);
    } else if !frame.EmptyHeartbeat() {
      PlanBounded(b.fingers, lanes, frame, split);
    }
  }

  /** In a session that opens with a releasing frame, whatever was pressed before
      it: after every completed frame a key is down exactly when some pointer
      holds its lane, at most 16 pointers own lanes, and no frame that can follow
      outgrows the capacity of its change list. */
  lemma {:induction false} SessionInvariant(b: Bridge, lanes: nat, frames: seq<TouchFrame>)
    requires b.Shaped(lanes) && lanes > 0 && frames != [] && frames[0].ReleasesAll()
    requires forall i :: 0 <= i < |frames| ==> frames[i].Decoded()
    ensures After(b, lanes, frames).Consistent(lanes) && Bounded(After(b, lanes, frames).fingers)
    ensures forall frame: TouchFrame, split: bool :: frame.Decoded() ==>
      |Asked(After(b, lanes, frames), lanes, frame, split).changes| <= MaxKeyChanges(lanes)
  {
    var front, last := frames[..|frames| - 1], frames[|frames| - 1];
    if front != [] {
      SessionInvariant(b, lanes, front);
    } else {
      assert After(b, lanes, front) == b;
    }
    var before := After(b, lanes, front);
    NextConsistent(before, lanes, last, false);
    if last.ReleasesAll() {
      IdleCounted(lanes);
    } else if !last.EmptyHeartbeat() {
      PlanBounded(before.fingers, lanes, last, false);
    }
    var after := After(b, lanes, frames);
    forall frame: TouchFrame, split: bool | frame.Decoded()
      ensures |Asked(after, lanes, frame, split).changes| <= MaxKeyChanges(lanes)
    {
      AskedBounded(after, lanes, frame, split);
    }
  }
}
