/** The receive ring: 256 slots indexed by sequence number modulo 256, proved to
    be a map from the sequence numbers of the current window to frames. */
module ReceiveWindows {
  import opened Protocol

  /** The abstract window. `freshOnly`: only a session-start frame is taken. */
  datatype Receiver = Receiver(session: Option<U64>, next: U64, window: map<nat, TouchFrame>, freshOnly: bool)

  ghost predicate InWindow(next: nat, sequence: nat) {
    next <= sequence < next + MAX_REORDERED_FRAMES
  }

  function Slot(sequence: nat): (i: nat)
    ensures i < MAX_REORDERED_FRAMES
  {
    sequence % MAX_REORDERED_FRAMES
  }

  function Begun(frame: TouchFrame): Receiver {
    Receiver(Some(frame.sessionId), frame.sequence, map[], false)
  }

  /** The session a frame is offered to: none, the current one, or the one it starts. */
  function Joined(v: Receiver, frame: TouchFrame): Option<Receiver> {
    if v.freshOnly && !frame.sessionStart then None
    else if v.session.None? then Some(Begun(frame))
    else if v.session == Some(frame.sessionId) then Some(v)
    else if frame.sessionStart then Some(Begun(frame))
    else None
  }

  /** The first copy of a sequence number inside the window wins. */
  ghost function Pushed(v: Receiver, frame: TouchFrame): Receiver {
    match Joined(v, frame)
    case None => v
    case Some(w) =>
      if InWindow(w.next, frame.sequence) && frame.sequence !in w.window
      then Receiver(w.session, w.next, w.window[frame.sequence := frame], w.freshOnly)
      else w
  }

  /** What a frame does, case by case. Without a start, a frame of another session
      and - while a fresh session is demanded - any frame changes nothing. A frame
      of the session is stored if it lies less than 256 ahead and is the first of
      its number. A start of another session, or the first frame where none is
      demanded, begins the session at its own number. */
  lemma PushedMeans(v: Receiver, frame: TouchFrame)
    ensures v.freshOnly && !frame.sessionStart ==> Pushed(v, frame) == v
    ensures v.session.Some? && v.session.value != frame.sessionId && !frame.sessionStart ==> Pushed(v, frame) == v
    ensures v.session == Some(frame.sessionId) && !(v.freshOnly && !frame.sessionStart) ==>
      Pushed(v, frame) == Receiver(v.session, v.next,
        if v.next <= frame.sequence < v.next + 256 && frame.sequence !in v.window then v.window[frame.sequence := frame] else v.window,
        v.freshOnly)
    ensures v.session != Some(frame.sessionId) && (frame.sessionStart || (v.session.None? && !v.freshOnly)) ==>
      Pushed(v, frame) == Receiver(Some(frame.sessionId), frame.sequence, map[frame.sequence := frame], false)
  {
  }

  class OrderedFrames {
    var sessionId: Option<U64>
    var nextSequence: U64
    const buffered: array<Option<TouchFrame>>
    var requiresSessionStart: bool

    ghost predicate Valid()
      reads this, buffered
    {
      && buffered.Length == MAX_REORDERED_FRAMES
      && (requiresSessionStart ==> sessionId.None?)
      && forall i :: 0 <= i < MAX_REORDERED_FRAMES && buffered[i].Some? ==> SlotValid(i, buffered[i].value)
    }

    /** A stored frame belongs to the session and the window, at its own residue. */
    ghost predicate SlotValid(i: nat, frame: TouchFrame)
      reads this
    {
      && sessionId == Some(frame.sessionId)
      && InWindow(nextSequence, frame.sequence)
      && Slot(frame.sequence) == i
    }

    ghost function Window(): map<nat, TouchFrame>
      requires buffered.Length == MAX_REORDERED_FRAMES
      reads this, buffered
    {
      map s: nat | nextSequence <= s < nextSequence + MAX_REORDERED_FRAMES && buffered[Slot(s)].Some?
        :: buffered[Slot(s)].value
    }

    ghost function Value(): Receiver
      requires buffered.Length == MAX_REORDERED_FRAMES
      reads this, buffered
    {
      Receiver(sessionId, nextSequence, Window(), requiresSessionStart)
    }

    /** Every frame of the window is the session's frame of that sequence number. */
    lemma WindowExact()
      requires Valid()
      ensures forall s: nat :: s in Window() ==> Window()[s].sequence == s && sessionId == Some(Window()[s].sessionId)
    {
      hide Slot;
      forall s: nat | s in Window() ensures Window()[s].sequence == s {
        SlotsDiffer(nextSequence, s);
        assert SlotValid(Slot(s), buffered[Slot(s)].value);
      }
    }

    lemma WindowAbove()
      requires Valid()
      ensures forall s: nat :: s in Window() ==> InWindow(nextSequence, s)
    {
    }

    constructor ()
      ensures Valid() && fresh(buffered)
      ensures Value() == Receiver(None, 0, map[], false)
    {
      sessionId, nextSequence, requiresSessionStart := None, 0, false;
      buffered := new Option<TouchFrame>[MAX_REORDERED_FRAMES](_ => None);
    }

    method ClearSlots()
      requires buffered.Length == MAX_REORDERED_FRAMES
      modifies buffered
      ensures forall i :: 0 <= i < MAX_REORDERED_FRAMES ==> buffered[i].None?
    {
      var i := 0;
      while i < MAX_REORDERED_FRAMES
        invariant 0 <= i <= MAX_REORDERED_FRAMES
        invariant forall k :: 0 <= k < i ==> buffered[k].None?
      {
        buffered[i] := None;
        i := i + 1;
      }
    }

    method BeginSession(frame: TouchFrame)
      requires Valid()
      modifies this, buffered
      ensures Valid() && Value() == Begun(frame)
    {
      sessionId, nextSequence, requiresSessionStart := Some(frame.sessionId), frame.sequence, false;
      ClearSlots();
    }

    /** Abandons the session; nothing is buffered until a session-start frame. */
    method RequireFreshSession()
      requires Valid()
      modifies this, buffered
      ensures Valid() && Value() == Receiver(None, 0, map[], true)
    {
      sessionId, nextSequence, requiresSessionStart := None, 0, true;
      ClearSlots();
    }

    method AcknowledgedSequence() returns (r: Option<nat>)
      ensures r == if nextSequence == 0 then None else Some(nextSequence - 1)
    {
      r := if nextSequence == 0 then None else Some(nextSequence - 1);
    }

    method Push(frame: TouchFrame)
      requires Valid()
      modifies this, buffered
      ensures Valid() && Value() == Pushed(old(Value()), frame)
    {
      if requiresSessionStart && !frame.sessionStart {
        return;
      }
      if sessionId.None? {
        BeginSession(frame);
      } else if sessionId != Some(frame.sessionId) {
        if frame.sessionStart {
          BeginSession(frame);
        } else {
          return;
        }
      }
      if frame.sequence < nextSequence {
        return;
      }
      if frame.sequence - nextSequence >= MAX_REORDERED_FRAMES {
        return;
      }
      hide Slot;
      var slot := Slot(frame.sequence);
      SlotsDiffer(nextSequence, frame.sequence);
      if buffered[slot].None? {
        buffered[slot] := Some(frame);
      }
    }

    method NextReady() returns (frame: Option<TouchFrame>)
      requires Valid()
      ensures frame == if nextSequence in Window() then Some(Window()[nextSequence]) else None
      ensures frame.Some? ==> frame.value.sequence == nextSequence && sessionId == Some(frame.value.sessionId)
    {
      hide Slot;
      SlotsDiffer(nextSequence, nextSequence);
      frame := buffered[Slot(nextSequence)];
      if frame.Some? && frame.value.sequence != nextSequence {
        frame := None;
      }
    }

    /** Removes exactly frame `nextSequence`, if it is there, and moves the window on. */
    method CommitReady() returns (committed: bool)
      requires Valid()
      modifies this`nextSequence, buffered
      ensures Valid()
      ensures committed <==> nextSequence != old(nextSequence)
      ensures committed <==> old(nextSequence) in old(Window())
      ensures !committed ==> Value() == old(Value())
      ensures committed ==>
        Value() == Receiver(sessionId, (old(nextSequence) + 1) % U64_LIMIT, old(Window()) - {old(nextSequence)}, requiresSessionStart)
    {
      hide Slot;
      SlotsDiffer(nextSequence, nextSequence);
      if buffered[Slot(nextSequence)].None? {
        return false;
      }
      ghost var before, next := Window(), nextSequence;
      WindowExact();
      buffered[Slot(nextSequence)] := None;
      nextSequence := (nextSequence + 1) % U64_LIMIT;
      SlotPeriod(next);
      forall s: nat ensures s in Window() <==> s in before && s != next {
        if s in before && s != next {
          assert before[s].sequence == s;
        }
      }
      return true;
    }
  }

  /** Inside one window a slot names one sequence number. */
  lemma SlotsDiffer(next: nat, t: nat)
    requires InWindow(next, t)
    ensures forall s: nat :: InWindow(next, s) && Slot(s) == Slot(t) ==> s == t
  {
    forall s: nat | InWindow(next, s) && Slot(s) == Slot(t) ensures s == t {
      assert (s - t) % MAX_REORDERED_FRAMES == 0;
    }
  }

  lemma SlotPeriod(sequence: nat)
    ensures Slot(sequence + MAX_REORDERED_FRAMES) == Slot(sequence)
  {
  }

  /** After `RequireFreshSession`, whatever arrives, the window stays empty until
      a session-start frame does. */
  lemma {:induction false} FreshOnly(v: Receiver, frames: seq<TouchFrame>)
    requires v == Receiver(None, 0, map[], true) && forall f <- frames :: !f.sessionStart
    ensures PushedAll(v, frames) == v
  {
    if frames != [] {
      FreshOnly(v, frames[..|frames| - 1]);
    }
  }

  ghost function PushedAll(v: Receiver, frames: seq<TouchFrame>): Receiver {
    if frames == [] then v else Pushed(PushedAll(v, frames[..|frames| - 1]), frames[|frames| - 1])
  }
}
