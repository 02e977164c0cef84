/** The uinput writer: key events and SYN reports written in one batch, which
    the kernel may cut anywhere - even between a key event and its SYN.

    A lane stands for its key code; lane keys are distinct. */
module KeySinks {
  import opened Protocol
  import opened KeyPlanner
  import opened PlannerLaws

  datatype Result<+T> = Ok(value: T) | Err(error: SinkError)

  datatype SinkError =
    | CleanupSyncPending    // a cancellation still owes its SYN
    | RetryMismatch         // the retry does not start with the unsynchronised change
    | NothingAccepted       // the OS took no event
    | WriteFailed
    | Incomplete            // a proper prefix was accepted
    | InvalidCount          // more accepted than requested
    | StillApplying         // another frame is partially applied

  /** What reaches the kernel's event queue. */
  datatype Event = Key(lane: nat, down: bool) | Syn

  /** What one write call comes to. A count beyond the batch means all of it. */
  datatype WriteAnswer = Wrote(count: nat) | Failed

  datatype PendingWrite =
    | Change(change: KeyChange)  // its key event is written, its SYN is not
    | CleanupSync                // the compensating release is written, its SYN is not

  /** The writer's pending half-write, everything the kernel has been given, and
      the changes reported as accepted. */
  datatype Device = Device(pending: Option<PendingWrite>, log: seq<Event>, reported: seq<KeyChange>)

  function Encode(changes: seq<KeyChange>): (events: seq<Event>)
    ensures |events| == 2 * |changes|
  {
    if changes == [] then []
    else
      var last := changes[|changes| - 1];
      Encode(changes[..|changes| - 1]) + [Key(last.lane, last.down), Syn]
  }

  function Taken(answer: WriteAnswer, offered: nat): (n: nat)
    ensures n <= offered
  {
    match answer
    case Failed => 0
    case Wrote(count) => if count < offered then count else offered
  }

  // ---------------------------------------------------------------- the kernel's view

  /** The kernel holds the key down: its last key event on the lane is a press. */
  ghost predicate KernelDown(log: seq<Event>, lane: nat) {
    log != [] &&
    var last := log[|log| - 1];
    if last.Key? && last.lane == lane then last.down else KernelDown(log[..|log| - 1], lane)
  }

  /** Every key event has been followed by a SYN. */
  ghost predicate Synced(log: seq<Event>) {
    log == [] || log[|log| - 1].Syn?
  }

  ghost predicate HeldWithin(log: seq<Event>, pressed: seq<bool>) {
    forall lane: nat :: KernelDown(log, lane) ==> lane < |pressed| && pressed[lane]
  }

  /** A change the kernel was told: with its SYN, or half-written and then closed by a discard. */
  datatype Step = Whole(change: KeyChange) | Closed(change: KeyChange) {
    function Events(): seq<Event> {
      [Key(change.lane, change.down)] + if Whole? then [Syn] else Compensation(Change(change))
    }
  }

  function Written(steps: seq<Step>): seq<Event> {
    if steps == [] then [] else Written(steps[..|steps| - 1]) + steps[|steps| - 1].Events()
  }

  function WholeChanges(steps: seq<Step>): seq<KeyChange> {
    if steps == [] then []
    else
      var front, last := WholeChanges(steps[..|steps| - 1]), steps[|steps| - 1];
      if last.Whole? then front + [last.change] else front
  }

  /** The kernel was given exactly the `reported` changes in order, each with its
      SYN, and between them only half-writes that a discard closed. */
  ghost predicate Told(log: seq<Event>, reported: seq<KeyChange>) {
    exists steps: seq<Step> :: Written(steps) == log && WholeChanges(steps) == reported
  }

  /** The log is accounted for, up to the half-write at its end. */
  ghost predicate Explained(d: Device) {
    match d.pending
    case None => Told(d.log, d.reported)
    case Some(Change(c)) =>
      d.log != [] && d.log[|d.log| - 1] == Key(c.lane, c.down) && Told(d.log[..|d.log| - 1], d.reported)
    case Some(CleanupSync) => CleanupOpen(d)
  }

  /** A half-written press and its release, whose SYN is still owed. */
  ghost predicate CleanupOpen(d: Device) {
    exists c: KeyChange, open: seq<Event> ::
      c.down && d.log == open + [Key(c.lane, true), Key(c.lane, false)] && Told(open, d.reported)
  }

  /** Inductive form of "no stuck key": whatever the kernel holds down is
      recorded as pressed, or is the press whose SYN is still owed. */
  ghost predicate HeldRecorded(d: Device, pressed: seq<bool>) {
    match d.pending
    case None => Synced(d.log) && HeldWithin(d.log, pressed)
    case Some(CleanupSync) => HeldWithin(d.log, pressed)
    case Some(Change(c)) =>
      && c.lane < |pressed|
      && d.log != [] && d.log[|d.log| - 1] == Key(c.lane, c.down)
      && Synced(d.log[..|d.log| - 1])
      && HeldWithin(d.log[..|d.log| - 1], pressed)
  }

  /** The writer, the kernel and the recorded key states agree. */
  ghost predicate Faithful(d: Device, pressed: seq<bool>) {
    HeldRecorded(d, pressed) && Explained(d)
  }

  /** The recorded key states after a list of changes. */
  ghost function Applied(pressed: seq<bool>, changes: seq<KeyChange>): (r: seq<bool>)
    ensures |r| == |pressed|
  {
    seq(|pressed|, lane requires 0 <= lane < |pressed| => LaneAfter(pressed[lane], changes, lane))
  }

  // ---------------------------------------------------------------- effect of one submission

  /** `n` changes are complete; at most the key event of the next one is written too. */
  ghost predicate Submitted(before: Device, changes: seq<KeyChange>, n: nat, after: Device) {
    && n <= |changes|
    && (before.pending.Some? ==> n >= 1 && before.pending == Some(Change(changes[0])))
    && after.reported == before.reported + changes[..n]
    && var first := if before.pending.Some? then 1 else 0;
       var base := before.log + (if before.pending.Some? then [Syn] else []) + Encode(changes[first..n]);
       match after.pending
       case None => after.log == base
       case Some(Change(c)) => n < |changes| && c == changes[n] && after.log == base + [Key(c.lane, c.down)]
       case Some(CleanupSync) => false
  }

  /** A submission is refused exactly when nothing was written. */
  ghost predicate Refused(d: Device, changes: seq<KeyChange>, sync: WriteAnswer, bulk: WriteAnswer) {
    match d.pending
    case Some(CleanupSync) => true
    case Some(Change(c)) => changes == [] || changes[0] != c || Taken(sync, 1) == 0
    case None => changes != [] && Taken(bulk, 2 * |changes|) == 0
  }

  /** One batch cut after `taken` events: `complete` whole changes, then perhaps a lone key event. */
  ghost predicate BatchWritten(before: Device, changes: seq<KeyChange>, first: nat, taken: nat, complete: nat, after: Device) {
    && first + complete <= |changes|
    && complete == taken / 2
    && after.reported == before.reported + changes[first..first + complete]
    && var written := before.log + Encode(changes[first..first + complete]);
       if taken % 2 == 0 then after.pending.None? && after.log == written
       else
         && first + complete < |changes|
         && after.pending == Some(Change(changes[first + complete]))
         && after.log == written + [Key(changes[first + complete].lane, changes[first + complete].down)]
  }

  /** Nothing the kernel takes is lost: the log grows by the owed SYN and the batch. */
  ghost predicate EventsTaken(before: Device, changes: seq<KeyChange>, bulk: WriteAnswer, after: Device) {
    var owed := if before.pending.Some? then 1 else 0;
    owed <= |changes| && |after.log| == |before.log| + owed + Taken(bulk, 2 * (|changes| - owed))
  }

  /** The events that close a half-written change. */
  function Compensation(p: PendingWrite): (events: seq<Event>)
    ensures 1 <= |events| <= 2
  {
    if p.Change? && p.change.down then [Key(p.change.lane, false), Syn] else [Syn]
  }

  /** What a discard comes to when the kernel takes as much of it as it likes. */
  function Discarded(d: Device, answer: WriteAnswer): Device {
    match d.pending
    case None => d
    case Some(p) =>
      var n := Taken(answer, |Compensation(p)|);
      Device(if n == 0 then d.pending else if n == |Compensation(p)| then None else Some(CleanupSync),
             d.log + Compensation(p)[..n],
             d.reported)
  }

  class KeySink {
    var pending: Option<PendingWrite>
    ghost var log: seq<Event>
    ghost var reported: seq<KeyChange>

    ghost function Value(): Device
      reads this
    {
      Device(pending, log, reported)
    }

    constructor ()
      ensures Value() == Device(None, [], []) && Explained(Value())
    {
      NothingTold();
      pending := None;
      log := [];
      reported := [];
    }

    method Write(events: seq<Event>, answer: WriteAnswer) returns (r: Result<nat>)
      modifies this`log
      ensures log == old(log) + events[..Taken(answer, |events|)]
      ensures r == if answer.Failed? then Err(WriteFailed) else Ok(Taken(answer, |events|))
    {
      log := log + events[..Taken(answer, |events|)];
      r := if answer.Failed? then Err(WriteFailed) else Ok(Taken(answer, |events|));
    }

    /** Completes the owed SYN of a half-written change; reports how many changes that finished. */
    method CompleteOwed(changes: seq<KeyChange>, sync: WriteAnswer) returns (r: Result<nat>)
      modifies this
      ensures r.Err? ==> Value() == old(Value())
      ensures r.Err? <==> old(pending).Some? && Refused(old(Value()), changes, sync, Failed)
      ensures r.Ok? ==> pending.None? && r.value == (if old(pending).Some? then 1 else 0) <= |changes|
      ensures r.Ok? && r.value == 1 ==> old(pending) == Some(Change(changes[0])) && log == old(log) + [Syn]
      ensures r.Ok? && r.value == 0 ==> log == old(log)
      ensures r.Ok? ==> reported == old(reported) + changes[..r.value]
    {
      match pending {
        case Some(CleanupSync) =>
          return Err(CleanupSyncPending);
        case Some(Change(c)) =>
          if changes == [] || changes[0] != c {
            return Err(RetryMismatch);
          }
          var w := Write([Syn], sync);
          if w.Err? || w.value == 0 {
            return if w.Err? then w else Err(NothingAccepted);
          }
          pending := None;
          reported := reported + changes[..1];
          return Ok(1);
        case None =>
          return Ok(0);
      }
    }

    /** Writes the changes from `first` on in one batch; reports how many were completed. */
    method WriteBatch(changes: seq<KeyChange>, first: nat, bulk: WriteAnswer) returns (r: Result<nat>)
      requires pending.None? && first < |changes|
      modifies this
      ensures r.Err? <==> Taken(bulk, 2 * (|changes| - first)) == 0
      ensures r.Err? ==> Value() == old(Value())
      ensures r.Ok? ==> BatchWritten(old(Value()), changes, first, Taken(bulk, 2 * (|changes| - first)), r.value, Value())
    {
      var events := Encode(changes[first..]);
      var w := Write(events, bulk);
      if w.Err? || w.value == 0 {
        return if w.Err? then w else Err(NothingAccepted);
      }
      var complete := w.value / 2;
      BatchCut(changes, first, w.value);
      if w.value % 2 != 0 {
        pending := Some(Change(changes[first + complete]));
      }
      reported := reported + changes[first..first + complete];
      return Ok(complete);
    }

    /** Completes an owed SYN first, then writes all remaining changes at once. */
    method Submit(changes: seq<KeyChange>, sync: WriteAnswer, bulk: WriteAnswer) returns (r: Result<nat>)
      modifies this
      ensures r.Ok? ==> Submitted(old(Value()), changes, r.value, Value())
      ensures r.Err? ==> Value() == old(Value())
      ensures r.Err? <==> Refused(old(Value()), changes, sync, bulk)
      ensures r.Ok? ==> EventsTaken(old(Value()), changes, bulk, Value())
    {
      hide Encode;
      NothingEncoded(changes);
      var owed := CompleteOwed(changes, sync);
      if owed.Err? {
        return owed;
      }
      var accepted := owed.value;
      if accepted == |changes| {
        return Ok(accepted);
      }
      var batch := WriteBatch(changes, accepted, bulk);
      if batch.Err? {
        if accepted != 0 {
          return Ok(accepted);
        }
        return batch;
      }
      return Ok(accepted + batch.value);
    }

    /** Cancels a half-written press with a release, or completes an owed SYN. */
    method DiscardPending(answer: WriteAnswer) returns (r: Result<()>)
      modifies this
      ensures Value() == Discarded(old(Value()), answer)
      ensures r.Ok? <==> pending.None?
    {
      match pending {
        case None =>
          return Ok(());
        case Some(p) =>
          var events := if p.Change? && p.change.down then [Key(p.change.lane, false), Syn] else [Syn];
          var w := Write(events, answer);
          if w.Err? || w.value == 0 {
            return Err(if w.Err? then w.error else NothingAccepted);
          }
          if w.value == |events| {
            pending := None;
            return Ok(());
          }
          pending := Some(CleanupSync);
          return Err(Incomplete);
      }
    }
  }

  /** A submission seen from the recorded key states: `n` accepted changes and nothing else count. */
  method Deliver(sink: KeySink, changes: seq<KeyChange>, ghost pressed: seq<bool>, sync: WriteAnswer, bulk: WriteAnswer)
    returns (r: Result<nat>)
    requires OnLanes(changes, |pressed|)
    modifies sink
    ensures r.Ok? ==> Submitted(old(sink.Value()), changes, r.value, sink.Value())
    ensures r.Err? ==> sink.Value() == old(sink.Value())
    ensures r.Err? <==> Refused(old(sink.Value()), changes, sync, bulk)
    ensures Faithful(old(sink.Value()), pressed) ==>
      Faithful(sink.Value(), Applied(pressed, changes[..if r.Ok? then r.value else 0]))
    ensures sink.reported == old(sink.reported) + if r.Ok? then changes[..r.value] else []
    ensures r.Ok? && TakesAll(bulk, changes) ==> r.value == |changes| && sink.pending.None?
    ensures r.Ok? && sink.pending.Some? ==> r.value < |changes| && sink.pending == Some(Change(changes[r.value]))
    ensures r.Ok? && old(sink.pending).None? ==>
      r.value == Taken(bulk, 2 * |changes|) / 2 && (sink.pending.Some? <==> Taken(bulk, 2 * |changes|) % 2 == 1)
  {
    ghost var before := sink.Value();
    r := sink.Submit(changes, sync, bulk);
    if r.Ok? {
      if Faithful(before, pressed) {
        SubmitFaithful(before, changes, r.value, sink.Value(), pressed);
      }
      if TakesAll(bulk, changes) {
        FullyTaken(before, changes, r.value, sink.Value(), bulk);
      }
      if before.pending.None? {
        CutCount(before, changes, r.value, sink.Value(), bulk);
      }
    }
    assert Applied(pressed, changes[..0]) == pressed;
  }

  predicate TakesAll(bulk: WriteAnswer, changes: seq<KeyChange>) {
    bulk.Wrote? && bulk.count >= 2 * |changes|
  }

  // ---------------------------------------------------------------- laws

  /** Two events make a change; an odd one is the half-write. */
  lemma CutCount(before: Device, changes: seq<KeyChange>, n: nat, after: Device, bulk: WriteAnswer)
    requires Submitted(before, changes, n, after) && EventsTaken(before, changes, bulk, after) && before.pending.None?
    ensures n == Taken(bulk, 2 * |changes|) / 2 && (after.pending.Some? <==> Taken(bulk, 2 * |changes|) % 2 == 1)
  {
  }

  lemma FullyTaken(before: Device, changes: seq<KeyChange>, n: nat, after: Device, bulk: WriteAnswer)
    requires Submitted(before, changes, n, after) && EventsTaken(before, changes, bulk, after)
    requires TakesAll(bulk, changes)
    ensures n == |changes| && after.pending.None?
  {
  }

  /** A willing OS refuses only a retry that does not begin with the half-written change. */
  lemma RefusedMeans(d: Device, changes: seq<KeyChange>, sync: WriteAnswer, bulk: WriteAnswer)
    requires changes != []
    ensures sync.Wrote? && sync.count > 0 && bulk.Wrote? && bulk.count > 0 ==>
      (Refused(d, changes, sync, bulk) <==> d.pending.Some? && d.pending != Some(Change(changes[0])))
  {
  }

  lemma NothingEncoded(changes: seq<KeyChange>)
    ensures forall k :: 0 <= k <= |changes| ==> Encode(changes[k..k]) == []
  {
  }

  lemma {:induction false} EncodePrefix(changes: seq<KeyChange>, k: nat)
    requires k <= |changes|
    ensures Encode(changes)[..2 * k] == Encode(changes[..k])
    ensures k < |changes| ==> Encode(changes)[2 * k] == Key(changes[k].lane, changes[k].down)
  {
    if k == |changes| {
      assert changes[..k] == changes;
    } else {
      var front := changes[..|changes| - 1];
      assert front[..k] == changes[..k];
      EncodePrefix(front, k);
    }
  }

  /** A batch cut after `taken` events: whole changes, then perhaps a lone key event. */
  lemma BatchCut(changes: seq<KeyChange>, first: nat, taken: nat)
    requires first <= |changes| && taken <= 2 * (|changes| - first)
    ensures taken % 2 == 0 ==>
      Encode(changes[first..])[..taken] == Encode(changes[first..first + taken / 2])
    ensures taken % 2 != 0 ==>
      Encode(changes[first..])[..taken]
      == Encode(changes[first..first + taken / 2]) + [Key(changes[first + taken / 2].lane, changes[first + taken / 2].down)]
  {
    var rest, k := changes[first..], taken / 2;
    EncodePrefix(rest, k);
    assert rest[..k] == changes[first..first + k];
    if taken % 2 != 0 {
      assert Encode(rest)[..taken] == Encode(rest)[..2 * k] + [Encode(rest)[2 * k]];
    }
  }

  lemma KernelDownPush(log: seq<Event>, e: Event, lane: nat)
    ensures KernelDown(log + [e], lane) == if e.Key? && e.lane == lane then e.down else KernelDown(log, lane)
  {
    assert (log + [e])[..|log|] == log;
  }

  /** Discarding, however it is cut, never leaves the kernel holding a key that
      is not recorded as pressed, and accounts for every event it writes. */
  lemma DiscardFaithful(d: Device, answer: WriteAnswer, pressed: seq<bool>)
    requires Faithful(d, pressed)
    ensures Faithful(Discarded(d, answer), pressed)
  {
    hide HeldRecorded, Explained;
    DiscardHeld(d, answer, pressed);
    DiscardExplained(d, answer);
  }

  lemma WrittenPush(steps: seq<Step>, step: Step)
    ensures Written(steps + [step]) == Written(steps) + step.Events()
    ensures WholeChanges(steps + [step]) == WholeChanges(steps) + if step.Whole? then [step.change] else []
  {
    assert (steps + [step])[..|steps|] == steps;
  }

  lemma TellStep(log: seq<Event>, reported: seq<KeyChange>, step: Step)
    requires Told(log, reported)
    ensures Told(log + step.Events(), reported + if step.Whole? then [step.change] else [])
  {
    var steps :| Written(steps) == log && WholeChanges(steps) == reported;
    WrittenPush(steps, step);
  }

  lemma DiscardExplained(d: Device, answer: WriteAnswer)
    requires Explained(d)
    ensures Explained(Discarded(d, answer))
  {
    hide Told;
    match d.pending {
      case None =>
      case Some(CleanupSync) =>
        hide Explained;
        CleanupDiscarded(d, answer);
      case Some(Change(c)) =>
        hide Explained;
        ChangeDiscarded(d, c, answer);
    }
  }

  lemma CleanupDiscarded(d: Device, answer: WriteAnswer)
    requires d.pending == Some(CleanupSync) && Explained(d)
    ensures Explained(Discarded(d, answer))
  {
    hide Told;
    var c: KeyChange, open: seq<Event> :|
      c.down && d.log == open + [Key(c.lane, true), Key(c.lane, false)] && Told(open, d.reported);
    TellStep(open, d.reported, Closed(c));
    assert d.log + [Syn][..0] == d.log;
    assert d.log + [Syn][..1] == open + Closed(c).Events();
    assert d.reported + [] == d.reported;
  }

  lemma ChangeDiscarded(d: Device, c: KeyChange, answer: WriteAnswer)
    requires d.pending == Some(Change(c)) && Explained(d)
    ensures Explained(Discarded(d, answer))
  {
    hide Told;
    var open, log := d.log[..|d.log| - 1], Discarded(d, answer).log;
    TellStep(open, d.reported, Closed(c));
    assert d.log == open + [Key(c.lane, c.down)] && d.reported + [] == d.reported;
    var n := Taken(answer, |Compensation(Change(c))|);
    if n == 0 {
      assert log == d.log;
    } else if n == |Compensation(Change(c))| {
      assert log == open + Closed(c).Events();
    } else {
      assert log == open + [Key(c.lane, true), Key(c.lane, false)];
    }
  }

  lemma DiscardHeld(d: Device, answer: WriteAnswer, pressed: seq<bool>)
    requires HeldRecorded(d, pressed)
    ensures HeldRecorded(Discarded(d, answer), pressed)
  {
    hide KernelDown;
    if d.pending.Some? {
      var n := Taken(answer, |Compensation(d.pending.value)|);
      var after := Discarded(d, answer);
      assert n == 0 ==> after.log == d.log;
      forall lane: nat | n > 0 && KernelDown(after.log, lane)
        ensures lane < |pressed| && pressed[lane]
      {
        var first := d.log + [Compensation(d.pending.value)[0]];
        KernelDownPush(d.log, Compensation(d.pending.value)[0], lane);
        if n == 1 {
          assert after.log == first;
        } else {
          assert after.log == first + [Syn];
          KernelDownPush(first, Syn, lane);
        }
        if d.pending.value.Change? {
          var c := d.pending.value.change;
          assert d.log == d.log[..|d.log| - 1] + [Key(c.lane, c.down)];
          KernelDownPush(d.log[..|d.log| - 1], Key(c.lane, c.down), lane);
        }
      }
    }
  }

  lemma AppliedPush(pressed: seq<bool>, changes: seq<KeyChange>, c: KeyChange)
    requires c.lane < |pressed|
    ensures Applied(pressed, changes + [c]) == Applied(pressed, changes)[c.lane := c.down]
  {
    forall lane | 0 <= lane < |pressed|
      ensures Applied(pressed, changes + [c])[lane] == Applied(pressed, changes)[c.lane := c.down][lane]
    {
      LaneAfterPush(pressed[lane], changes, c, lane);
    }
  }

  lemma AppliedNothing(pressed: seq<bool>)
    ensures Applied(pressed, []) == pressed
  {
  }

  /** Complete changes keep the kernel within the recorded key states. */
  lemma {:induction false} EncodeFaithful(log: seq<Event>, pressed: seq<bool>, changes: seq<KeyChange>)
    requires Synced(log) && HeldWithin(log, pressed) && OnLanes(changes, |pressed|)
    ensures Synced(log + Encode(changes))
    ensures HeldWithin(log + Encode(changes), Applied(pressed, changes))
  {
    hide LaneAfter;
    if changes == [] {
      assert log + Encode(changes) == log;
      AppliedNothing(pressed);
    } else {
      var front, last := changes[..|changes| - 1], changes[|changes| - 1];
      EncodeFaithful(log, pressed, front);
      assert changes == front + [last];
      AppliedPush(pressed, front, last);
      var done := log + Encode(front);
      var key := Key(last.lane, last.down);
      assert log + Encode(changes) == done + [key] + [Syn];
      forall lane: nat | KernelDown(log + Encode(changes), lane)
        ensures lane < |pressed| && Applied(pressed, changes)[lane]
      {
        KernelDownPush(done + [key], Syn, lane);
        KernelDownPush(done, key, lane);
      }
    }
  }

  /** Completing an owed SYN makes the half-written change count. */
  lemma OwedFaithful(d: Device, c: KeyChange, pressed: seq<bool>)
    requires HeldRecorded(d, pressed) && d.pending == Some(Change(c))
    ensures Synced(d.log + [Syn]) && HeldWithin(d.log + [Syn], Applied(pressed, [c]))
  {
    var open := d.log[..|d.log| - 1];
    assert d.log == open + [Key(c.lane, c.down)];
    AppliedPush(pressed, [], c);
    assert [] + [c] == [c] && Applied(pressed, []) == pressed;
    forall lane: nat | KernelDown(d.log + [Syn], lane)
      ensures lane < |pressed| && Applied(pressed, [c])[lane]
    {
      KernelDownPush(d.log, Syn, lane);
      KernelDownPush(open, Key(c.lane, c.down), lane);
    }
  }

  lemma AppliedConcat(pressed: seq<bool>, a: seq<KeyChange>, b: seq<KeyChange>)
    ensures Applied(Applied(pressed, a), b) == Applied(pressed, a + b)
  {
    forall lane | 0 <= lane < |pressed|
      ensures Applied(Applied(pressed, a), b)[lane] == Applied(pressed, a + b)[lane]
    {
      LaneAfterConcat(pressed[lane], a, b, lane);
    }
  }

  /** Every submission, however it is cut, keeps the writer faithful to the key
      states recorded for the changes it reports as accepted. */
  lemma SubmitFaithful(before: Device, changes: seq<KeyChange>, n: nat, after: Device, pressed: seq<bool>)
    requires Submitted(before, changes, n, after) && Faithful(before, pressed) && OnLanes(changes, |pressed|)
    ensures Faithful(after, Applied(pressed, changes[..n]))
  {
    hide HeldRecorded, Explained;
    SubmitHeld(before, changes, n, after, pressed);
    SubmitExplained(before, changes, n, after);
  }

  lemma TellWhole(log: seq<Event>, reported: seq<KeyChange>, c: KeyChange)
    requires Told(log, reported)
    ensures Told(log + [Key(c.lane, c.down), Syn], reported + [c])
  {
    TellStep(log, reported, Whole(c));
    assert [Key(c.lane, c.down)] + [Syn] == [Key(c.lane, c.down), Syn];
  }

  lemma NothingTold()
    ensures Told([], [])
  {
    assert Written([]) == [] && WholeChanges([]) == [];
  }

  lemma {:induction false} TellChanges(log: seq<Event>, reported: seq<KeyChange>, changes: seq<KeyChange>)
    requires Told(log, reported)
    ensures Told(log + Encode(changes), reported + changes)
  {
    hide Told;
    if changes == [] {
      assert log + Encode(changes) == log && reported + changes == reported;
    } else {
      var front, c := changes[..|changes| - 1], changes[|changes| - 1];
      TellChanges(log, reported, front);
      TellWhole(log + Encode(front), reported + front, c);
      assert log + Encode(changes) == log + Encode(front) + [Key(c.lane, c.down), Syn];
      assert reported + changes == reported + front + [c];
    }
  }

  /** Every submission, however it is cut, tells the kernel the changes it
      reports as accepted, and at most the key event of the next one. */
  lemma SubmitExplained(before: Device, changes: seq<KeyChange>, n: nat, after: Device)
    requires Submitted(before, changes, n, after) && Explained(before)
    ensures Explained(after)
  {
    hide Told, Encode;
    var first := if before.pending.Some? then 1 else 0;
    var synced := before.log + (if before.pending.Some? then [Syn] else []);
    if before.pending.Some? {
      var c, open := changes[0], before.log[..|before.log| - 1];
      TellWhole(open, before.reported, c);
      assert synced == open + [Key(c.lane, c.down), Syn];
      assert [c] == changes[..1];
    } else {
      assert synced == before.log && before.reported + changes[..0] == before.reported;
    }
    assert Told(synced, before.reported + changes[..first]);
    TellChanges(synced, before.reported + changes[..first], changes[first..n]);
    assert before.reported + changes[..n] == before.reported + changes[..first] + changes[first..n];
    if after.pending.Some? {
      assert after.log[..|after.log| - 1] == synced + Encode(changes[first..n]);
    }
  }

  lemma SubmitHeld(before: Device, changes: seq<KeyChange>, n: nat, after: Device, pressed: seq<bool>)
    requires Submitted(before, changes, n, after) && HeldRecorded(before, pressed) && OnLanes(changes, |pressed|)
    ensures HeldRecorded(after, Applied(pressed, changes[..n]))
  {
    hide Applied, KernelDown, Encode;
    var first := if before.pending.Some? then 1 else 0;
    var synced := before.log + (if before.pending.Some? then [Syn] else []);
    var held := Applied(pressed, changes[..first]);
    if before.pending.Some? {
      assert changes[..1] == [changes[0]];
      OwedFaithful(before, changes[0], pressed);
    } else {
      assert changes[..0] == [];
      AppliedNothing(pressed);
      assert synced == before.log;
    }
    assert OnLanes(changes[first..n], |held|);
    EncodeFaithful(synced, held, changes[first..n]);
    AppliedConcat(pressed, changes[..first], changes[first..n]);
    assert changes[..first] + changes[first..n] == changes[..n];
    if after.pending.Some? {
      assert after.log[..|after.log| - 1] == synced + Encode(changes[first..n]);
    }
  }

  /** No stuck key: with nothing recorded as pressed and nothing pending, the
      kernel holds no key and every key event has been synchronised. */
  lemma NoStuckKey(d: Device, pressed: seq<bool>)
    requires Faithful(d, pressed) && d.pending.None? && forall lane :: 0 <= lane < |pressed| ==> !pressed[lane]
    ensures Synced(d.log) && forall lane: nat :: !KernelDown(d.log, lane)
  {
  }
}
