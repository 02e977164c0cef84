/** From datagrams to keys: the receive window, the commit-then-ACK loop and the
    sink together, against a network that loses, repeats and reorders frames and
    an OS that cuts or refuses any submission. Re-press spacing is off. */
module Gameplay {
  import opened Protocol
  import opened KeyPlanner
  import opened PlannerLaws
  import opened PlannerBounds
  import opened KeySinks
  import opened SpacerModel
  import opened BridgeModel
  import opened ReceiveWindows
  import opened KeyboardSinks

  const DUPLICATE_ACK_HOLDOFF := 1_000_000

  /** What one session's phone sends: frame `i` carries sequence number `i`, and
      only frame 0 starts the session, as the payload decoder insists. */
  datatype Phone = Phone(sessionId: U64, sent: seq<TouchFrame>) {
    ghost predicate Valid() {
      && |sent| < U64_LIMIT
      && forall i :: 0 <= i < |sent| ==>
           && sent[i].sequence == i && sent[i].sessionId == sessionId && sent[i].Decoded()
           && (if i == 0 then sent[i].sessionStart && sent[i].action == Cancel && sent[i].contacts == []
               else !sent[i].sessionStart)
    }

    /** The network repeats, drops and reorders what the phone sent; it cannot forge. */
    ghost predicate Sent(frame: TouchFrame) {
      frame.sequence < |sent| && frame == sent[frame.sequence]
    }
  }

  /** The pure session only ever appends. */
  lemma {:induction false} StreamGrows(start: Bridge, lanes: nat, sent: seq<TouchFrame>, n: nat)
    requires start.Shaped(lanes) && lanes > 0 && n <= |sent|
    ensures Stream(start, lanes, sent[..n]) <= Stream(start, lanes, sent)
  {
    if n == |sent| {
      assert sent[..n] == sent;
    } else {
      var front := sent[..|sent| - 1];
      assert front[..n] == sent[..n];
      StreamGrows(start, lanes, front, n);
    }
  }

  /** One try to hand a frame to the sink; `giveUp` if its failure meets the stall deadline or a stop. */
  datatype Attempt = Attempt(os: OsAnswers, at: Instant, giveUp: bool)

  /** One arrival: an authentic frame, the tries it allows, and the fate of the ACK. */
  datatype Arrival = Arrival(frame: TouchFrame, attempts: seq<Attempt>, at: Instant, sendOk: bool)

  /** What the outside world sees of the host. */
  datatype HostEvent = Edge(change: KeyChange) | Ack(sequence: Option<nat>)

  ghost function Edges(trace: seq<HostEvent>): seq<KeyChange> {
    if trace == [] then []
    else
      var last := trace[|trace| - 1];
      Edges(trace[..|trace| - 1]) + (if last.Edge? then [last.change] else [])
  }

  ghost function Edged(changes: seq<KeyChange>): (r: seq<HostEvent>)
    ensures |r| == |changes|
  {
    seq(|changes|, i requires 0 <= i < |changes| => Edge(changes[i]))
  }

  /** Whenever the host ACKs `n`, the key changes accepted so far are exactly
      those of frames 0..n, in order. */
  ghost predicate AcksHonest(start: Bridge, lanes: nat, sent: seq<TouchFrame>, trace: seq<HostEvent>)
    requires start.Shaped(lanes) && lanes > 0
  {
    forall k :: 0 <= k < |trace| && trace[k].Ack? && trace[k].sequence.Some? ==>
      && trace[k].sequence.value < |sent|
      && Edges(trace[..k]) == Stream(start, lanes, sent[..trace[k].sequence.value + 1])
  }

  lemma EdgesPush(trace: seq<HostEvent>, e: HostEvent)
    ensures Edges(trace + [e]) == Edges(trace) + (if e.Edge? then [e.change] else [])
  {
    assert (trace + [e])[..|trace|] == trace;
  }

  lemma {:induction false} EdgesEdged(trace: seq<HostEvent>, changes: seq<KeyChange>)
    ensures Edges(trace + Edged(changes)) == Edges(trace) + changes
  {
    if changes == [] {
      assert trace + Edged(changes) == trace;
    } else {
      var front, last := changes[..|changes| - 1], changes[|changes| - 1];
      EdgesEdged(trace, front);
      EdgesPush(trace + Edged(front), Edge(last));
      assert trace + Edged(changes) == trace + Edged(front) + [Edge(last)];
    }
  }

  lemma HonestEdged(start: Bridge, lanes: nat, sent: seq<TouchFrame>, trace: seq<HostEvent>, changes: seq<KeyChange>)
    requires start.Shaped(lanes) && lanes > 0 && AcksHonest(start, lanes, sent, trace)
    ensures AcksHonest(start, lanes, sent, trace + Edged(changes))
  {
    hide Stream, Edges;
    var r := trace + Edged(changes);
    forall k | 0 <= k < |r| && r[k].Ack? && r[k].sequence.Some?
      ensures r[k].sequence.value < |sent| && Edges(r[..k]) == Stream(start, lanes, sent[..r[k].sequence.value + 1])
    {
      assert k < |trace|;
      assert r[..k] == trace[..k];
    }
  }

  lemma HonestAck(start: Bridge, lanes: nat, sent: seq<TouchFrame>, trace: seq<HostEvent>, ack: Option<nat>)
    requires start.Shaped(lanes) && lanes > 0 && AcksHonest(start, lanes, sent, trace)
    requires ack.Some? ==> ack.value < |sent| && Edges(trace) == Stream(start, lanes, sent[..ack.value + 1])
    ensures AcksHonest(start, lanes, sent, trace + [Ack(ack)])
  {
    hide Stream, Edges;
    var r := trace + [Ack(ack)];
    forall k | 0 <= k < |r| && r[k].Ack? && r[k].sequence.Some?
      ensures r[k].sequence.value < |sent| && Edges(r[..k]) == Stream(start, lanes, sent[..r[k].sequence.value + 1])
    {
      assert r[..k] == trace[..k];
      assert trace[..|trace|] == trace;
    }
  }

  /** Frame `n` adds exactly its own plan; a prefix of it adds exactly that prefix. */
  lemma StreamStep(start: Bridge, lanes: nat, sent: seq<TouchFrame>, n: nat, goal: Draft, log: seq<HostEvent>, m: nat)
    requires start.Shaped(lanes) && lanes > 0 && n < |sent| && m <= |goal.changes|
    requires goal == Asked(After(start, lanes, sent[..n]), lanes, sent[n], false)
    requires Edges(log) == Stream(start, lanes, sent[..n]) && AcksHonest(start, lanes, sent, log)
    ensures After(start, lanes, sent[..n + 1]) == Bridge(goal.fingers, Applied(After(start, lanes, sent[..n]).pressed, goal.changes))
    ensures Stream(start, lanes, sent[..n + 1]) == Stream(start, lanes, sent[..n]) + goal.changes
    ensures Edges(log + Edged(goal.changes[..m])) == Edges(log) + goal.changes[..m]
    ensures AcksHonest(start, lanes, sent, log + Edged(goal.changes[..m]))
  {
    hide Stream, After, Plan, Edges, Edged, Asked, Applied, AcksHonest;
    StreamPush(start, lanes, sent[..n], sent[n]);
    assert sent[..n] + [sent[n]] == sent[..n + 1];
    EdgesEdged(log, goal.changes[..m]);
    HonestEdged(start, lanes, sent, log, goal.changes[..m]);
  }

  lemma Advance(changes: seq<KeyChange>, m: nat, rest: seq<KeyChange>, n: nat, before: seq<bool>)
    requires m <= |changes| && rest == changes[m..] && n <= |rest|
    ensures Applied(Applied(before, changes[..m]), rest[..n]) == Applied(before, changes[..m + n])
    ensures rest[n..] == changes[m + n..]
    ensures n == |rest| ==> changes[..m + n] == changes
  {
    AppliedConcat(before, changes[..m], rest[..n]);
    assert changes[..m] + rest[..n] == changes[..m + n];
  }

  lemma TraceAdvance(changes: seq<KeyChange>, m: nat, n: nat, log: seq<HostEvent>)
    requires m + n <= |changes|
    ensures log + Edged(changes[..m]) + Edged(changes[m..][..n]) == log + Edged(changes[..m + n])
  {
    assert changes[..m] + changes[m..][..n] == changes[..m + n];
    assert Edged(changes[..m]) + Edged(changes[m..][..n]) == Edged(changes[..m + n]);
  }

  /** The first `m` changes of `goal` are accepted and `frame` owes the rest. */
  ghost predicate PartWay(sink: KeyboardSink, frame: TouchFrame, goal: Draft, before: seq<bool>, m: nat)
    reads sink, sink.Parts()
  {
    && sink.Valid(0)
    && m <= |goal.changes|
    && (frame.ReleasesAll() || (sink.NotBusyWith(frame) && sink.Resumable()))
    && (frame.EmptyHeartbeat() && !frame.ReleasesAll() ==> sink.pending.sequence.None?)
    && sink.Owed(frame) == Draft(goal.fingers, goal.changes[m..])
    && sink.pressed == Applied(before, goal.changes[..m])
  }

  /** No frame is partially applied and nothing is half-written. */
  ghost predicate Calm(sink: KeyboardSink)
    reads sink, sink.sink
  {
    sink.pending.sequence.None? && sink.sink.pending.None?
  }

  /** The OS takes all that the frame still owes. */
  ghost predicate WillFinish(sink: KeyboardSink, frame: TouchFrame, os: OsAnswers)
    reads sink, sink.Parts()
  {
    sink.Valid(0) && sink.ReadyFor(frame, os)
  }

  /** From `before` to `next` the window lost exactly the frames that were committed. */
  ghost predicate Draining(before: nat, from: map<nat, TouchFrame>, next: nat, window: map<nat, TouchFrame>) {
    && before <= next
    && (forall s: nat :: s in window <==> s in from && s >= next)
    && (forall s: nat :: before <= s < next ==> s in from)
  }

  /** The window with an arriving frame, if it is taken. */
  ghost predicate Offered(s: nat, frame: TouchFrame, started: bool, next: nat, window: map<nat, TouchFrame>) {
    s in window || (s == frame.sequence && started && InWindow(next, s))
  }

  /** What an arrival does to the window: it is offered the frame, and then lost
      exactly what was committed. */
  ghost predicate Absorbed(frame: TouchFrame, started: bool, before: nat, from: map<nat, TouchFrame>, next: nat, window: map<nat, TouchFrame>) {
    && before <= next && next !in window
    && (forall s: nat :: s in window <==> Offered(s, frame, started, before, from) && s >= next)
    && (forall s: nat :: before <= s < next ==> Offered(s, frame, started, before, from))
  }

  lemma Absorb(frame: TouchFrame, started: bool, before: nat, from: map<nat, TouchFrame>, offered: map<nat, TouchFrame>,
               next: nat, window: map<nat, TouchFrame>)
    requires forall s: nat :: s in offered <==> Offered(s, frame, started, before, from)
    requires Draining(before, offered, next, window) && next !in window
    ensures Absorbed(frame, started, before, from, next, window)
  {
  }

  // ---------------------------------------------------------------- what arrived

  /** Frame `s` is among the first `k` arrivals. */
  ghost predicate Arrived(arrivals: seq<Arrival>, k: nat, s: nat)
    requires k <= |arrivals|
  {
    exists j :: 0 <= j < k && arrivals[j].frame.sequence == s
  }

  /** `n` is the first frame that did not arrive. */
  ghost predicate Reached(arrivals: seq<Arrival>, k: nat, n: nat)
    requires k <= |arrivals|
  {
    (forall s: nat :: s < n ==> Arrived(arrivals, k, s)) && !Arrived(arrivals, k, n)
  }

  /** A favourable session: it opens with frame 0, no frame runs more than a window
      ahead of what has arrived without a hole, the OS takes what it is given and
      every ACK can be sent. */
  ghost predicate Favourable(arrivals: seq<Arrival>, lanes: nat) {
    && arrivals != [] && arrivals[0].frame.sequence == 0
    && forall i :: 0 <= i < |arrivals| ==> FavourableAt(arrivals, i, lanes)
  }

  ghost predicate FavourableAt(arrivals: seq<Arrival>, i: nat, lanes: nat)
    requires i < |arrivals|
  {
    && arrivals[i].sendOk && Suffices(arrivals[i].attempts, MAX_REORDERED_FRAMES + 1, lanes)
    && forall n: nat :: Reached(arrivals, i, n) ==> arrivals[i].frame.sequence < n + MAX_REORDERED_FRAMES
  }

  /** Everything that arrived is committed or waits in the window for a hole to close. */
  ghost predicate CaughtUp(arrivals: seq<Arrival>, k: nat, started: bool, next: nat, window: map<nat, TouchFrame>)
    requires k <= |arrivals|
  {
    && (k > 0 ==> started && next !in window)
    && (k == 0 ==> next == 0 && window == map[])
    && (forall s: nat :: Held(s, next, window) ==> Arrived(arrivals, k, s))
    && (forall j :: 0 <= j < k ==> Held(arrivals[j].frame.sequence, next, window))
  }

  /** Frame `s` is committed or waits. */
  ghost predicate Held(s: nat, next: nat, window: map<nat, TouchFrame>) {
    s < next || s in window
  }

  /** All frames before the first hole are committed. */
  ghost predicate AllCommitted(phone: Phone, start: Bridge, lanes: nat, arrivals: seq<Arrival>, trace: seq<HostEvent>)
    requires start.Shaped(lanes) && lanes > 0
  {
    exists n: nat :: n <= |phone.sent| && Reached(arrivals, |arrivals|, n) && Edges(trace) == Stream(start, lanes, phone.sent[..n])
  }

  lemma CaughtUpReached(arrivals: seq<Arrival>, k: nat, started: bool, next: nat, window: map<nat, TouchFrame>)
    requires k <= |arrivals| && CaughtUp(arrivals, k, started, next, window)
    ensures Reached(arrivals, k, next)
  {
    assert forall s: nat :: s < next ==> Held(s, next, window);
  }

  lemma CatchUp(arrivals: seq<Arrival>, k: nat, lanes: nat, wasStarted: bool, before: nat, from: map<nat, TouchFrame>,
                started: bool, next: nat, window: map<nat, TouchFrame>)
    requires k < |arrivals| && Favourable(arrivals, lanes) && CaughtUp(arrivals, k, wasStarted, before, from)
    requires started <==> wasStarted || arrivals[k].frame.sequence == 0
    requires Absorbed(arrivals[k].frame, started, before, from, next, window)
    ensures CaughtUp(arrivals, k + 1, started, next, window)
  {
    CaughtUpReached(arrivals, k, wasStarted, before, from);
    assert FavourableAt(arrivals, k, lanes);
    var frame := arrivals[k].frame;
    assert started && next !in window;
    forall j | 0 <= j <= k ensures Held(arrivals[j].frame.sequence, next, window) {
      var s := arrivals[j].frame.sequence;
      assert j < k ==> Held(s, before, from);
      assert s < before || Offered(s, frame, started, before, from);
    }
    forall s: nat ensures Held(s, next, window) ==> Arrived(arrivals, k + 1, s) {
      StillArrived(arrivals, k, s);
      assert Held(s, before, from) ==> Arrived(arrivals, k, s);
      assert before <= s < next || s in window ==> Offered(s, frame, started, before, from);
    }
  }

  lemma StillArrived(arrivals: seq<Arrival>, k: nat, s: nat)
    requires k < |arrivals|
    ensures Arrived(arrivals, k + 1, s) <==> Arrived(arrivals, k, s) || arrivals[k].frame.sequence == s
  {
  }

  lemma OneMore(window: map<nat, TouchFrame>, offered: map<nat, TouchFrame>, sequence: nat)
    requires forall s: nat :: s in offered ==> s in window || s == sequence
    ensures |offered| <= |window| + 1
  {
    assert offered.Keys <= window.Keys + {sequence};
    SubsetSize(offered.Keys, window.Keys + {sequence});
  }

  ghost function Range(from: nat, n: nat): (r: set<nat>)
    ensures |r| == n && forall s: nat :: s in r <==> from <= s < from + n
  {
    if n == 0 then {} else Range(from, n - 1) + {from + n - 1}
  }

  lemma WindowSize(window: map<nat, TouchFrame>, next: nat)
    requires forall s: nat :: s in window ==> InWindow(next, s)
    ensures |window| <= MAX_REORDERED_FRAMES
  {
    SubsetSize(window.Keys, Range(next, MAX_REORDERED_FRAMES));
  }

  lemma DrainStart(next: nat, window: map<nat, TouchFrame>)
    requires forall s: nat :: s in window ==> s >= next
    ensures Draining(next, window, next, window)
  {
  }

  lemma DrainStep(before: nat, from: map<nat, TouchFrame>, next: nat, window: map<nat, TouchFrame>)
    requires Draining(before, from, next, window) && next in window
    ensures Draining(before, from, next + 1, window - {next}) && |window - {next}| == |window| - 1
  {
    assert (window - {next}).Keys == window.Keys - {next};
  }

  /** Attempt `k` meets an OS that takes `n` changes, and no earlier failure is the last one allowed. */
  ghost predicate Waits(attempts: seq<Attempt>, k: nat, n: nat) {
    && k < |attempts| && attempts[k].os.Generous(n)
    && forall j :: 0 <= j < k ==> !attempts[j].giveUp
  }

  /** Whatever failed before, the first attempt in time that meets a willing OS succeeds. */
  ghost predicate Timely(attempts: seq<Attempt>, n: nat, ok: bool, used: nat) {
    forall k: nat :: Waits(attempts, k, n) ==> ok && used <= k + 1
  }

  /** None of the first `used` attempts had to succeed. */
  ghost predicate NoneYet(attempts: seq<Attempt>, n: nat, used: nat) {
    forall k: nat :: Waits(attempts, k, n) ==> used <= k
  }

  lemma AfterAttempt(attempts: seq<Attempt>, n: nat, used: nat, ok: bool)
    requires used < |attempts| && NoneYet(attempts, n, used) && (Waits(attempts, used, n) ==> ok)
    ensures if ok || attempts[used].giveUp then Timely(attempts, n, ok, used + 1) else NoneYet(attempts, n, used + 1)
  {
  }

  lemma NoneLeft(attempts: seq<Attempt>, n: nat)
    ensures NoneYet(attempts, n, 0) && (NoneYet(attempts, n, |attempts|) ==> Timely(attempts, n, false, |attempts|))
  {
  }

  lemma TimelyMore(attempts: seq<Attempt>, n: nat, more: nat, ok: bool, used: nat)
    requires Timely(attempts, n, ok, used) && n <= more
    ensures Timely(attempts, more, ok, used)
  {
    forall k: nat | Waits(attempts, k, more) ensures ok && used <= k + 1 {
      assert Waits(attempts, k, n);
    }
  }

  function Chances(attempts: seq<Attempt>, n: nat): nat {
    if attempts == [] then 0 else (if attempts[0].os.Generous(n) then 1 else 0) + Chances(attempts[1..], n)
  }

  /** Enough willing attempts for a window of this size, and no failure meets the deadline. */
  ghost predicate Suffices(attempts: seq<Attempt>, size: nat, lanes: nat) {
    && Chances(attempts, Plenty(lanes)) >= size
    && forall i :: 0 <= i < |attempts| && attempts[i].giveUp ==> attempts[i].os.Generous(Plenty(lanes))
  }

  lemma SufficesLess(attempts: seq<Attempt>, size: nat, less: nat, lanes: nat)
    requires less <= size
    ensures Suffices(attempts, size, lanes) ==> Suffices(attempts, less, lanes)
  {
  }

  /** One frame uses up at most one willing attempt. */
  lemma {:induction false} FewerSuffice(attempts: seq<Attempt>, size: nat, lanes: nat) returns (k: nat)
    requires Suffices(attempts, size, lanes) && size > 0
    ensures Waits(attempts, k, Plenty(lanes))
    ensures forall used :: 0 <= used <= k + 1 ==> Suffices(attempts[used..], size - 1, lanes)
  {
    if attempts[0].os.Generous(Plenty(lanes)) {
      k := 0;
      assert attempts[0..] == attempts;
    } else {
      var rest := FewerSuffice(attempts[1..], size, lanes);
      k := rest + 1;
      assert attempts[0..] == attempts;
      forall j | 0 <= j < k ensures !attempts[j].giveUp {
        assert j > 0 ==> attempts[j] == attempts[1..][j - 1];
      }
      forall used | 1 <= used <= k + 1 ensures Suffices(attempts[used..], size - 1, lanes) {
        assert attempts[1..][used - 1..] == attempts[used..];
      }
    }
  }

  lemma StillSuffice(attempts: seq<Attempt>, size: nat, lanes: nat, ok: bool, used: nat)
    requires size > 0 && Timely(attempts, Plenty(lanes), ok, used) && used <= |attempts|
    ensures Suffices(attempts, size, lanes) ==> ok && Suffices(attempts[used..], size - 1, lanes)
  {
    if Suffices(attempts, size, lanes) {
      var k := FewerSuffice(attempts, size, lanes);
    }
  }

  /** What one frame can need of the OS at most. */
  function Plenty(lanes: nat): nat {
    lanes + MaxKeyChanges(lanes)
  }

  /** Part way through a frame, an OS that would take all of it takes the rest. */
  lemma PartWayFinishes(sink: KeyboardSink, frame: TouchFrame, goal: Draft, before: seq<bool>, m: nat,
                        attempts: seq<Attempt>, k: nat)
    requires PartWay(sink, frame, goal, before, m) && Waits(attempts, k, sink.lanes + |goal.changes|)
    ensures WillFinish(sink, frame, attempts[k].os)
  {
  }

  lemma PartWayStart(sink: KeyboardSink, frame: TouchFrame)
    requires sink.spacer == null && sink.Valid(0) && (frame.ReleasesAll() || Calm(sink))
    ensures sink.lanes > 0 && sink.Current().Shaped(sink.lanes)
    ensures PartWay(sink, frame, Asked(sink.Current(), sink.lanes, frame, false), sink.pressed, 0)
  {
    hide Plan, Asked, Applied, Releases;
    var goal := Asked(sink.Current(), sink.lanes, frame, false);
    AppliedNothing(sink.pressed);
    assert goal.changes[..0] == [] && goal.changes[0..] == goal.changes;
  }

  lemma TraceStart(changes: seq<KeyChange>, log: seq<HostEvent>)
    ensures changes[..0] == [] && log + Edged(changes[..0]) == log
  {
  }

  /** One attempt: `n` more of the owed changes are accepted. */
  method Try(sink: KeyboardSink, frame: TouchFrame, attempt: Attempt, ghost goal: Draft, ghost before: seq<bool>, ghost m: nat)
    returns (ok: bool, ghost n: nat)
    requires sink.spacer == null && PartWay(sink, frame, goal, before, m)
    modifies sink.Parts()
    ensures sink.Valid(0) && sink.Parts() == old(sink.Parts())
    ensures m + n <= |goal.changes| && (ok ==> m + n == |goal.changes|)
    ensures ok ==> sink.Current() == Bridge(goal.fingers, Applied(before, goal.changes)) && Calm(sink)
    ensures !ok ==> PartWay(sink, frame, goal, before, m + n)
    ensures sink.accepted == old(sink.accepted) + goal.changes[m..][..n]
    ensures old(WillFinish(sink, frame, attempt.os)) ==> ok
  {
    hide Applied, Faithful, Asked, OnLanes, Good;
    ghost var rest := goal.changes[m..];
    var r;
    r, n := sink.AcceptAt(frame, attempt.at, attempt.os);
    Advance(goal.changes, m, rest, n, before);
    ok := r.Ok?;
  }

  class GameplayHost {
    const ordered: OrderedFrames
    const sink: KeyboardSink
    var lastAck: Option<(Option<nat>, Instant)>
    /** What this session showed, and what the OS had accepted before it. */
    ghost var trace: seq<HostEvent>
    ghost var earlier: seq<KeyChange>

    ghost function Parts(): set<object?>
      reads this, sink
    {
      {this, ordered, ordered.buffered} + sink.Parts()
    }

    ghost predicate Shape()
      reads this, sink, sink.Parts(), ordered, ordered.buffered
    {
      && ordered.Valid()
      && sink.spacer == null && sink.lanes > 0
      && sink.Valid(0)
    }

    /** Everything buffered is the phone's own frame of that number. */
    ghost predicate Authentic(phone: Phone)
      requires ordered.buffered.Length == MAX_REORDERED_FRAMES
      reads this, ordered, ordered.buffered
    {
      && ordered.nextSequence <= |phone.sent|
      && (forall s: nat :: s in ordered.Window() ==> s < |phone.sent| && ordered.Window()[s] == phone.sent[s])
      && (ordered.sessionId.None? ==> ordered.requiresSessionStart && ordered.nextSequence == 0)
      && (ordered.sessionId.Some? ==> ordered.sessionId.value == phone.sessionId && !ordered.requiresSessionStart)
    }

    /** The key stream so far is the fold of the planner over the committed
        frames, and every ACK told the truth when it was sent. */
    ghost predicate Refines(phone: Phone, start: Bridge)
      requires start.Shaped(sink.lanes) && sink.lanes > 0 && ordered.nextSequence <= |phone.sent|
      reads this, ordered, sink, sink.state, sink.sink
    {
      var done := phone.sent[..ordered.nextSequence];
      && (Calm(sink) || ordered.nextSequence == 0)
      && sink.Current() == After(start, sink.lanes, done)
      && Edges(trace) == Stream(start, sink.lanes, done)
      && AcksHonest(start, sink.lanes, phone.sent, trace)
    }

    /** Between two arrivals. */
    ghost predicate Inv(phone: Phone, start: Bridge)
      reads this, sink, sink.Parts(), ordered, ordered.buffered
    {
      && phone.Valid()
      && Shape()
      && start.Shaped(sink.lanes)
      && Authentic(phone)
      && Refines(phone, start)
      && Accounted()
    }

    /** The traced key changes are those the OS accepted during this session. */
    ghost predicate Accounted()
      reads this, sink
    {
      sink.accepted == earlier + Edges(trace)
    }

    /** After a sink failure inside frame `nextSequence`: a prefix of the stream. */
    ghost predicate Interrupted(phone: Phone, start: Bridge)
      reads this, sink, sink.Parts(), ordered, ordered.buffered
    {
      && phone.Valid()
      && Shape()
      && start.Shaped(sink.lanes)
      && ordered.nextSequence < |phone.sent|
      && Accounted()
      && Stream(start, sink.lanes, phone.sent[..ordered.nextSequence]) <= Edges(trace)
      && Edges(trace) <= Stream(start, sink.lanes, phone.sent[..ordered.nextSequence + 1])
      && AcksHonest(start, sink.lanes, phone.sent, trace)
    }

    constructor (lanes: nat)
      requires lanes > 0
      ensures fresh(Parts()) && Shape() && sink.lanes == lanes
      ensures ordered.sessionId.None? && sink.pending.sequence.None? && trace == [] && earlier == sink.accepted
    {
      ordered := new OrderedFrames();
      sink := new KeyboardSink(lanes, None);
      lastAck := None;
      trace := [];
      earlier := [];
    }

    /** Retries one frame until the sink accepts it or the deadline passes. */
    method Deliver(frame: TouchFrame, attempts: seq<Attempt>) returns (ok: bool, used: nat)
      requires Shape() && (frame.ReleasesAll() || Calm(sink))
      modifies this`trace, sink.Parts()
      ensures Shape() && sink.Parts() == old(sink.Parts()) && used <= |attempts|
      ensures Handed(old(Asked(sink.Current(), sink.lanes, frame, false)), old(sink.pressed), old(trace), old(sink.accepted), ok)
      ensures Timely(attempts, sink.lanes + |old(Asked(sink.Current(), sink.lanes, frame, false)).changes|, ok, used)
    {
      hide Plan, Asked, Edged, Releases, Applied, Faithful, Good, PartWay, WillFinish, Waits, Timely, NoneYet, KeyboardSink.Valid;
      PartWayStart(sink, frame);
      ghost var goal, before, log, taken := Asked(sink.Current(), sink.lanes, frame, false), sink.pressed, trace, sink.accepted;
      ghost var m, need := 0, sink.lanes + |goal.changes|;
      used := 0;
      TraceStart(goal.changes, log);
      NoneLeft(attempts, need);
      while used < |attempts|
        invariant 0 <= used <= |attempts|
        invariant Shape() && sink.Parts() == old(sink.Parts())
        invariant m <= |goal.changes| && PartWay(sink, frame, goal, before, m)
        invariant trace == log + Edged(goal.changes[..m])
        invariant sink.accepted == taken + goal.changes[..m]
        invariant NoneYet(attempts, need, used)
      {
        ghost var n;
        if Waits(attempts, used, need) {
          PartWayFinishes(sink, frame, goal, before, m, attempts, used);
        }
        ok, n := Try(sink, frame, attempts[used], goal, before, m);
        AfterAttempt(attempts, need, used, ok);
        trace := trace + Edged(goal.changes[m..][..n]);
        TraceAdvance(goal.changes, m, n, log);
        used := used + 1;
        m := m + n;
        if ok || attempts[used - 1].giveUp {
          assert goal.changes[..|goal.changes|] == goal.changes;
          assert HandedExactly(goal, before, log, taken, ok, m);
          return;
        }
      }
      ok := false;
      assert HandedExactly(goal, before, log, taken, ok, m);
    }

    /** All of the asked changes were accepted, or - on failure - some prefix of them. */
    ghost predicate Handed(goal: Draft, before: seq<bool>, log: seq<HostEvent>, taken: seq<KeyChange>, ok: bool)
      reads this, sink, sink.state, sink.sink
    {
      exists m: nat :: HandedExactly(goal, before, log, taken, ok, m)
    }

    /** Moves the window past its first frame. */
    method CommitFront(ghost phone: Phone)
      requires ordered.Valid() && phone.Valid() && Authentic(phone) && ordered.nextSequence in ordered.Window()
      modifies ordered`nextSequence, ordered.buffered
      ensures ordered.Valid() && Authentic(phone) && ordered.nextSequence == old(ordered.nextSequence) + 1
      ensures ordered.Window() == old(ordered.Window()) - {old(ordered.nextSequence)}
    {
      var committed := ordered.CommitReady();
    }

    /** The next frame never owes more than its capacity. */
    lemma NextFits(phone: Phone, start: Bridge)
      requires Inv(phone, start) && ordered.nextSequence < |phone.sent|
      ensures |Asked(sink.Current(), sink.lanes, phone.sent[ordered.nextSequence], false).changes| <= MaxKeyChanges(sink.lanes)
    {
      hide Stream, After, Edges, Releases, Applied, Faithful, Good, AcksHonest, Plan;
      var n := ordered.nextSequence;
      var frame, done := phone.sent[n], phone.sent[..n];
      if n > 0 {
        assert done[0] == phone.sent[0];
        SessionInvariant(start, sink.lanes, done);
      } else {
        AskedBounded(sink.Current(), sink.lanes, frame, false);
      }
      assert |Asked(sink.Current(), sink.lanes, frame, false).changes| <= MaxKeyChanges(sink.lanes);
    }

    /** The plan of frame `nextSequence` is accepted; the window has yet to move. */
    ghost predicate HandedOver(phone: Phone, start: Bridge)
      reads this, sink, sink.Parts(), ordered, ordered.buffered
    {
      && Shape() && start.Shaped(sink.lanes) && ordered.nextSequence < |phone.sent|
      && var done := phone.sent[..ordered.nextSequence + 1];
      && Calm(sink)
      && sink.Current() == After(start, sink.lanes, done)
      && Edges(trace) == Stream(start, sink.lanes, done)
      && AcksHonest(start, sink.lanes, phone.sent, trace)
      && Accounted()
    }

    method HandNext(frame: TouchFrame, attempts: seq<Attempt>, ghost phone: Phone, ghost start: Bridge)
      returns (ok: bool, used: nat)
      requires Inv(phone, start) && ordered.nextSequence < |phone.sent| && frame == phone.sent[ordered.nextSequence]
      modifies this`trace, sink.Parts()
      ensures sink.Parts() == old(sink.Parts()) && used <= |attempts|
      ensures if ok then HandedOver(phone, start) else Interrupted(phone, start)
      ensures Timely(attempts, Plenty(sink.lanes), ok, used)
    {
      hide Stream, After, Plan, Asked, Edges, Edged, Releases, Applied, Faithful, Good, AcksHonest;
      hide Timely, WillFinish, KeyboardSink.Valid, OrderedFrames.Valid, OrderedFrames.Window;
      ghost var n, log, before, taken := ordered.nextSequence, trace, sink.Current(), sink.accepted;
      NextFits(phone, start);
      ok, used := Deliver(frame, attempts);
      ghost var goal := Asked(before, sink.lanes, frame, false);
      ghost var m: nat :| m <= |goal.changes| && HandedExactly(goal, before.pressed, log, taken, ok, m);
      StreamStep(start, sink.lanes, phone.sent, n, goal, log, m);
      TimelyMore(attempts, sink.lanes + |goal.changes|, Plenty(sink.lanes), ok, used);
      if ok {
        assert goal.changes[..m] == goal.changes;
      }
    }

    /** Delivers and commits the next frame of the window. */
    method CommitOne(frame: TouchFrame, attempts: seq<Attempt>, ghost phone: Phone, ghost start: Bridge)
      returns (ok: bool, used: nat)
      requires Inv(phone, start) && ordered.nextSequence in ordered.Window()
      requires frame == ordered.Window()[ordered.nextSequence]
      modifies this`trace, ordered`nextSequence, ordered.buffered, sink.Parts()
      ensures sink.Parts() == old(sink.Parts()) && used <= |attempts|
      ensures ok ==> Inv(phone, start) && ordered.nextSequence == old(ordered.nextSequence) + 1
      ensures ok ==> ordered.sessionId == old(ordered.sessionId)
      ensures ok ==> ordered.Window() == old(ordered.Window()) - {old(ordered.nextSequence)}
      ensures Timely(attempts, Plenty(sink.lanes), ok, used)
      ensures !ok ==> Interrupted(phone, start) && ordered.nextSequence == old(ordered.nextSequence)
    {
      hide Timely, Stream, After, Edges, Faithful, AcksHonest, KeyboardSink.Valid, Interrupted, OrderedFrames.Window;
      ok, used := HandNext(frame, attempts, phone, start);
      if ok {
        CommitFront(phone);
      }
    }

    method Front(ghost phone: Phone, ghost start: Bridge) returns (frame: Option<TouchFrame>)
      requires Inv(phone, start)
      ensures Inv(phone, start) && ordered.buffered.Length == MAX_REORDERED_FRAMES && ordered.nextSequence <= |phone.sent|
      ensures frame == if ordered.nextSequence in ordered.Window() then Some(ordered.Window()[ordered.nextSequence]) else None
      ensures frame.Some? ==> ordered.nextSequence < |phone.sent|
    {
      frame := ordered.NextReady();
    }

    /** Commits the next frame, if it is there. */
    method CommitNext(attempts: seq<Attempt>, ghost phone: Phone, ghost start: Bridge, ghost next: nat, ghost window: map<nat, TouchFrame>)
      returns (ok: bool, found: bool, used: nat)
      requires Inv(phone, start) && Draining(next, window, ordered.nextSequence, ordered.Window())
      modifies this`trace, ordered`nextSequence, ordered.buffered, sink.Parts()
      ensures sink.Parts() == old(sink.Parts()) && used <= |attempts|
      ensures if ok then Inv(phone, start) else Interrupted(phone, start)
      ensures ok ==> Draining(next, window, ordered.nextSequence, ordered.Window()) && ordered.sessionId == old(ordered.sessionId)
      ensures ok && found ==> ordered.nextSequence == old(ordered.nextSequence) + 1 <= |phone.sent|
      ensures ok && found ==> |ordered.Window()| + 1 == |old(ordered.Window())|
      ensures ok && !found ==> ordered.nextSequence !in ordered.Window() && ordered.Window() == old(ordered.Window()) && used == 0
      ensures ok && !found ==> ordered.nextSequence == old(ordered.nextSequence) && trace == old(trace)
      ensures Suffices(attempts, |old(ordered.Window())|, sink.lanes) ==>
        ok && (found ==> Suffices(attempts[used..], |ordered.Window()|, sink.lanes))
    {
      hide Inv, Interrupted, Draining, OrderedFrames.Window, Timely, Suffices;
      ok, found, used := true, false, 0;
      var frame := Front(phone, start);
      if frame.None? {
        return;
      }
      DrainStep(next, window, ordered.nextSequence, ordered.Window());
      found := true;
      ghost var size := |ordered.Window()|;
      ok, used := CommitOne(frame.value, attempts, phone, start);
      StillSuffice(attempts, size, sink.lanes, ok, used);
    }

    /** Commits every frame that is next in order. On success none is left; with
        an OS that takes what it is given, it always succeeds. */
    method CommitReady(attempts: seq<Attempt>, ghost phone: Phone, ghost start: Bridge)
      returns (ok: bool, progressed: bool)
      requires Inv(phone, start)
      modifies this`trace, ordered`nextSequence, ordered.buffered, sink.Parts()
      ensures sink.Parts() == old(sink.Parts())
      ensures if ok then Inv(phone, start) else Interrupted(phone, start)
      ensures ok ==> ordered.sessionId == old(ordered.sessionId)
      ensures ok ==> Draining(old(ordered.nextSequence), old(ordered.Window()), ordered.nextSequence, ordered.Window())
      ensures ok ==> ordered.nextSequence !in ordered.Window()
      ensures ok ==> (progressed <==> ordered.nextSequence > old(ordered.nextSequence))
      ensures ok && !progressed ==> trace == old(trace)
      ensures Suffices(attempts, |old(ordered.Window())|, sink.lanes) ==> ok
    {
      hide Inv, Interrupted, Draining, OrderedFrames.Window, Suffices;
      ok, progressed := true, false;
      var left, more := attempts, true;
      InvWindow(phone, start);
      DrainStart(ordered.nextSequence, ordered.Window());
      while more
        invariant Inv(phone, start) && sink.Parts() == old(sink.Parts())
        invariant ordered.sessionId == old(ordered.sessionId) && ordered.nextSequence <= |phone.sent|
        invariant Draining(old(ordered.nextSequence), old(ordered.Window()), ordered.nextSequence, ordered.Window())
        invariant ordered.nextSequence >= old(ordered.nextSequence)
        invariant progressed <==> ordered.nextSequence > old(ordered.nextSequence)
        invariant !progressed ==> trace == old(trace)
        invariant !more ==> ordered.nextSequence !in ordered.Window()
        invariant Suffices(attempts, |old(ordered.Window())|, sink.lanes) ==> Suffices(left, |ordered.Window()|, sink.lanes)
        decreases |phone.sent| - ordered.nextSequence, more
      {
        var used;
        ok, more, used := CommitNext(left, phone, start, old(ordered.nextSequence), old(ordered.Window()));
        if !ok {
          return;
        }
        progressed := progressed || more;
        left := left[used..];
      }
    }

    lemma InvWindow(phone: Phone, start: Bridge)
      requires Inv(phone, start)
      ensures ordered.buffered.Length == MAX_REORDERED_FRAMES && ordered.nextSequence <= |phone.sent|
      ensures forall s: nat :: s in ordered.Window() ==> InWindow(ordered.nextSequence, s)
    {
      ordered.WindowAbove();
    }

    /** Buffers an authentic frame: the window still holds only the phone's own
        frames, and takes every frame it has room for. */
    method Receive(frame: TouchFrame, ghost phone: Phone, ghost start: Bridge)
      requires Inv(phone, start) && phone.Sent(frame)
      modifies ordered, ordered.buffered
      ensures Inv(phone, start) && ordered.nextSequence == old(ordered.nextSequence)
      ensures ordered.sessionId.Some? <==> old(ordered.sessionId).Some? || frame.sequence == 0
      ensures forall s: nat :: s in ordered.Window() <==> Offered(s, frame, ordered.sessionId.Some?, ordered.nextSequence, old(ordered.Window()))
    {
      hide Stream, After, Plan, Edges, Releases, Applied, Faithful, Good, AcksHonest;
      ordered.Push(frame);
    }

    /** The same acknowledgement went out less than the holdoff ago. */
    predicate Repeated(ack: Option<nat>, at: Instant)
      reads this
    {
      lastAck.Some? && lastAck.value.0 == ack && at - lastAck.value.1 < DUPLICATE_ACK_HOLDOFF
    }

    /** The frames committed so far, as an acknowledgement. */
    ghost function Acknowledged(): Option<nat>
      reads ordered
    {
      if ordered.nextSequence == 0 then None else Some(ordered.nextSequence - 1)
    }

    /** One arrival: buffer, commit what is ready, only then acknowledge. With an OS
        that takes what it is given, and an ACK that can be sent, it succeeds. */
    method ProcessFrame(arrival: Arrival, ghost phone: Phone, ghost start: Bridge) returns (ok: bool)
      requires Inv(phone, start) && phone.Sent(arrival.frame)
      modifies this`trace, this`lastAck, ordered, ordered.buffered, sink.Parts()
      ensures sink.Parts() == old(sink.Parts())
      ensures if ok then Inv(phone, start) else Inv(phone, start) || Interrupted(phone, start)
      ensures ok ==> Absorbed(arrival.frame, ordered.sessionId.Some?, old(ordered.nextSequence), old(ordered.Window()),
                              ordered.nextSequence, ordered.Window())
      ensures ok ==> (ordered.sessionId.Some? <==> old(ordered.sessionId).Some? || arrival.frame.sequence == 0)
      ensures ok && ordered.sessionId.Some? && (ordered.nextSequence > old(ordered.nextSequence)
                || !old(Repeated(Acknowledged(), arrival.at))) ==>
        trace != [] && trace[|trace| - 1] == Ack(Acknowledged())
      ensures ok && ordered.nextSequence == old(ordered.nextSequence) && old(Repeated(Acknowledged(), arrival.at)) ==>
        trace == old(trace) && lastAck == old(lastAck)
      ensures arrival.sendOk && Suffices(arrival.attempts, |old(ordered.Window())| + 1, sink.lanes) ==> ok
    {
      hide Inv, Interrupted, Draining, Suffices, OrderedFrames.Window;
      SessionOnly(phone, start);
      ok := false;
      if ordered.sessionId.Some? && ordered.sessionId.value != arrival.frame.sessionId {
        return;
      }
      ghost var next, window := ordered.nextSequence, ordered.Window();
      Receive(arrival.frame, phone, start);
      SessionOnly(phone, start);
      ghost var offered := ordered.Window();
      OneMore(window, offered, arrival.frame.sequence);
      SufficesLess(arrival.attempts, |window| + 1, |offered|, sink.lanes);
      var committed, progressed := CommitReady(arrival.attempts, phone, start);
      if !committed {
        return;
      }
      Absorb(arrival.frame, ordered.sessionId.Some?, next, window, offered, ordered.nextSequence, ordered.Window());
      if ordered.sessionId != Some(arrival.frame.sessionId) {
        return true;
      }
      ok := AcknowledgeOnce(arrival, progressed, phone, start);
    }

    lemma SessionOnly(phone: Phone, start: Bridge)
      requires Inv(phone, start)
      ensures ordered.buffered.Length == MAX_REORDERED_FRAMES
      ensures ordered.sessionId.Some? ==> ordered.sessionId.value == phone.sessionId
      ensures forall f :: phone.Sent(f) ==> f.sessionId == phone.sessionId
    {
    }

    /** Acknowledges, unless nothing was committed and the same ACK just went out. */
    method AcknowledgeOnce(arrival: Arrival, progressed: bool, ghost phone: Phone, ghost start: Bridge) returns (ok: bool)
      requires Inv(phone, start)
      modifies this`trace, this`lastAck
      ensures Inv(phone, start)
      ensures old(Repeated(Acknowledged(), arrival.at)) <==>
        (old(lastAck).Some? && old(lastAck).value.0 == Acknowledged() && arrival.at < old(lastAck).value.1 + 1_000_000)
      ensures progressed || !old(Repeated(Acknowledged(), arrival.at)) ==>
        ok == arrival.sendOk && trace == old(trace) + [Ack(Acknowledged())] && lastAck == Some((Acknowledged(), arrival.at))
      ensures !progressed && old(Repeated(Acknowledged(), arrival.at)) ==>
        ok && trace == old(trace) && lastAck == old(lastAck)
    {
      hide Stream, After, Plan, Edges, Releases, Applied, Faithful, Good, AcksHonest;
      var acknowledged := ordered.AcknowledgedSequence();
      if !progressed && Repeated(acknowledged, arrival.at) {
        return true;
      }
      Acknowledge(acknowledged, phone, start);
      lastAck := Some((acknowledged, arrival.at));
      ok := arrival.sendOk;
    }

    method Acknowledge(ack: Option<nat>, ghost phone: Phone, ghost start: Bridge)
      requires Inv(phone, start) && ack == Acknowledged()
      modifies this`trace
      ensures Inv(phone, start) && trace == old(trace) + [Ack(ack)]
    {
      hide Stream, After, Plan, Edges, Releases, Applied, Faithful, Good, AcksHonest;
      EdgesPush(trace, Ack(ack));
      HonestAck(start, sink.lanes, phone.sent, trace, ack);
      trace := trace + [Ack(ack)];
    }

    /** A whole session, whatever the sink was left with before: every ACK is
        honest, and the accepted key changes are a prefix of the folded plans. In
        a favourable session they are all of them, up to the first frame that
        never arrived. If the final cancel succeeds, the kernel holds no key. */
    method ServeGameplay(phone: Phone, arrivals: seq<Arrival>, cancels: seq<Attempt>) returns (cancelled: bool)
      requires Shape() && phone.Valid()
      requires forall a <- arrivals :: phone.Sent(a.frame)
      modifies this, ordered, ordered.buffered, sink.Parts()
      ensures Shape() && sink.Parts() == old(sink.Parts())
      ensures earlier == old(sink.accepted) && earlier + Edges(trace) <= sink.accepted
      ensures sink.accepted == sink.sink.reported && Explained(sink.sink.Value())
      ensures AcksHonest(old(sink.Current()), sink.lanes, phone.sent, trace)
      ensures Edges(trace) <= Stream(old(sink.Current()), sink.lanes, phone.sent)
      ensures Favourable(arrivals, sink.lanes) ==> AllCommitted(phone, old(sink.Current()), sink.lanes, arrivals, trace)
      ensures cancelled ==> KernelIdle()
      ensures (exists k: nat :: Waits(cancels, k, sink.lanes)) ==> cancelled
      ensures ordered.buffered.Length == MAX_REORDERED_FRAMES && ordered.Value() == Receiver(None, 0, map[], true)
    {
      hide Stream, After, Plan, Edges, Edged, Releases, Applied, Faithful, Good, AcksHonest, Favourable, AllCommitted;
      ghost var start := sink.Current();
      Begin(phone);
      ReceiveAll(phone, arrivals, start);
      ordered.RequireFreshSession();
      ghost var used;
      cancelled, used := CancelWithDeadline(cancels);
      sink.KernelTold(0);
    }

    method ReceiveAll(phone: Phone, arrivals: seq<Arrival>, ghost start: Bridge)
      requires Inv(phone, start) && ordered.sessionId.None? && forall a <- arrivals :: phone.Sent(a.frame)
      modifies this`trace, this`lastAck, ordered, ordered.buffered, sink.Parts()
      ensures sink.Parts() == old(sink.Parts()) && Shape() && sink.accepted == earlier + Edges(trace)
      ensures AcksHonest(start, sink.lanes, phone.sent, trace)
      ensures Edges(trace) <= Stream(start, sink.lanes, phone.sent)
      ensures Favourable(arrivals, sink.lanes) ==> AllCommitted(phone, start, sink.lanes, arrivals, trace)
    {
      hide Inv, Interrupted, Favourable, CaughtUp, Absorbed, AllCommitted, OrderedFrames.Window;
      var i, ok := 0, true;
      Nothing(phone, start, arrivals);
      while i < |arrivals| && ok
        invariant 0 <= i <= |arrivals| && sink.Parts() == old(sink.Parts())
        invariant if ok then Inv(phone, start) else Inv(phone, start) || Interrupted(phone, start)
        invariant ok ==> ordered.buffered.Length == MAX_REORDERED_FRAMES
        invariant Favourable(arrivals, sink.lanes) ==>
          ok && CaughtUp(arrivals, i, ordered.sessionId.Some?, ordered.nextSequence, ordered.Window())
      {
        ghost var started, next, window := ordered.sessionId.Some?, ordered.nextSequence, ordered.Window();
        RoomFor(phone, start, arrivals, i);
        ok := ProcessFrame(arrivals[i], phone, start);
        if ok {
          SessionOnly(phone, start);
          if Favourable(arrivals, sink.lanes) {
            CatchUp(arrivals, i, sink.lanes, started, next, window, ordered.sessionId.Some?, ordered.nextSequence, ordered.Window());
          }
        }
        i := i + 1;
      }
      if Favourable(arrivals, sink.lanes) {
        Everything(phone, start, arrivals);
      }
      SessionEnd(phone, start);
    }

    lemma Nothing(phone: Phone, start: Bridge, arrivals: seq<Arrival>)
      requires Inv(phone, start) && ordered.sessionId.None?
      ensures ordered.buffered.Length == MAX_REORDERED_FRAMES
      ensures CaughtUp(arrivals, 0, false, ordered.nextSequence, ordered.Window())
    {
      ordered.WindowExact();
      assert ordered.Window().Keys == {};
    }

    /** The window never outgrows the attempts of a favourable arrival. */
    lemma RoomFor(phone: Phone, start: Bridge, arrivals: seq<Arrival>, i: nat)
      requires Inv(phone, start) && i < |arrivals|
      ensures Favourable(arrivals, sink.lanes) ==>
        arrivals[i].sendOk && Suffices(arrivals[i].attempts, |ordered.Window()| + 1, sink.lanes)
    {
      ordered.WindowAbove();
      WindowSize(ordered.Window(), ordered.nextSequence);
      assert Favourable(arrivals, sink.lanes) ==> FavourableAt(arrivals, i, sink.lanes);
    }

    lemma Everything(phone: Phone, start: Bridge, arrivals: seq<Arrival>)
      requires Inv(phone, start)
      requires CaughtUp(arrivals, |arrivals|, ordered.sessionId.Some?, ordered.nextSequence, ordered.Window())
      requires Favourable(arrivals, sink.lanes)
      ensures AllCommitted(phone, start, sink.lanes, arrivals, trace)
    {
      CaughtUpReached(arrivals, |arrivals|, ordered.sessionId.Some?, ordered.nextSequence, ordered.Window());
    }

    /** A fresh session begins: nothing traced, nothing buffered. */
    method Begin(ghost phone: Phone)
      requires Shape() && phone.Valid()
      modifies this, ordered, ordered.buffered
      ensures Inv(phone, sink.Current()) && earlier == sink.accepted && ordered.sessionId.None?
    {
      hide Plan, Releases, Applied, Faithful, Good;
      ordered.RequireFreshSession();
      lastAck := None;
      trace := [];
      earlier := sink.accepted;
      assert phone.sent[..0] == [];
    }

    lemma SessionEnd(phone: Phone, start: Bridge)
      requires Inv(phone, start) || Interrupted(phone, start)
      ensures AcksHonest(start, sink.lanes, phone.sent, trace)
      ensures Edges(trace) <= Stream(start, sink.lanes, phone.sent)
      ensures Shape() && sink.accepted == earlier + Edges(trace)
    {
      hide Plan, Edges, Releases, Applied, Faithful, Good, AcksHonest;
      var n := if Inv(phone, start) then ordered.nextSequence else ordered.nextSequence + 1;
      StreamGrows(start, sink.lanes, phone.sent, n);
    }

    /** Between two arrivals of a started session, a key is pressed exactly when
        some pointer of the last committed snapshot holds its lane. */
    lemma KeysMatchFingers(phone: Phone, start: Bridge)
      requires Inv(phone, start) && ordered.nextSequence > 0
      ensures sink.Current().Consistent(sink.lanes) && Bounded(sink.Current().fingers)
    {
      hide Stream, After, Edges, Releases, Applied, Faithful, Good, AcksHonest, Plan;
      var done := phone.sent[..ordered.nextSequence];
      assert done[0] == phone.sent[0];
      SessionInvariant(start, sink.lanes, done);
    }

    /** The kernel holds no key and every key event has its SYN. */
    ghost predicate KernelIdle()
      reads this, sink, sink.sink
    {
      Synced(sink.sink.log) && forall lane: nat :: !KernelDown(sink.sink.log, lane)
    }

    /** One cancel attempt; a willing OS makes it succeed. */
    method CancelOnce(attempt: Attempt) returns (ok: bool)
      requires Shape()
      modifies sink.Parts()
      ensures Shape() && sink.Parts() == old(sink.Parts()) && old(sink.accepted) <= sink.accepted
      ensures ok ==> KernelIdle()
      ensures attempt.os.Generous(sink.lanes) ==> ok
    {
      hide Plan, Applied, Faithful, Good, Releases;
      ghost var held := sink.pressed;
      var r, n := sink.Release(attempt.at, attempt.os.discard, attempt.os.sync, attempt.os.bulk);
      ok := r.Ok?;
      if ok {
        ReleasesAll(held);
        assert Releases(held)[..n] == Releases(held);
        NoStuckKey(sink.sink.Value(), sink.pressed);
      }
    }

    /** Retries the final cancel until it succeeds or its deadline passes. */
    method CancelWithDeadline(cancels: seq<Attempt>) returns (ok: bool, ghost used: nat)
      requires Shape()
      modifies sink.Parts()
      ensures Shape() && sink.Parts() == old(sink.Parts()) && old(sink.accepted) <= sink.accepted
      ensures ok ==> KernelIdle()
      ensures Timely(cancels, sink.lanes, ok, used) && used <= |cancels|
    {
      hide Shape, KernelIdle, Timely, NoneYet;
      ok, used := false, 0;
      var i := 0;
      NoneLeft(cancels, sink.lanes);
      while i < |cancels|
        invariant 0 <= i <= |cancels| && Shape() && sink.Parts() == old(sink.Parts()) && old(sink.accepted) <= sink.accepted
        invariant NoneYet(cancels, sink.lanes, i)
      {
        ok := CancelOnce(cancels[i]);
        AfterAttempt(cancels, sink.lanes, i, ok);
        i := i + 1;
        if ok || cancels[i - 1].giveUp {
          return ok, i;
        }
      }
      return false, i;
    }

    ghost predicate HandedExactly(
      goal: Draft, before: seq<bool>, log: seq<HostEvent>, taken: seq<KeyChange>, ok: bool, m: nat)
      reads this, sink, sink.state, sink.sink
    {
      && m <= |goal.changes|
      && trace == log + Edged(goal.changes[..m])
      && sink.accepted == taken + goal.changes[..m]
      && (ok ==> m == |goal.changes| && sink.Current() == Bridge(goal.fingers, Applied(before, goal.changes))
                 && Calm(sink))
    }
  }
}
