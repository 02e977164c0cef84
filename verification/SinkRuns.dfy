/** Whole runs of the bridge: frames, deadline wake-ups and cancels in any order,
    with any OS behaviour, re-press spacing on or off. */
module SinkRuns {
  import opened Protocol
  import opened KeyPlanner
  import opened KeySinks
  import opened SpacerModel
  import opened SpacerLaws
  import opened RepressSpacers
  import opened KeyboardSinks

  datatype SinkStep =
    | Accept(frame: TouchFrame, at: Instant, os: OsAnswers)
    | Service(at: Instant, os: OsAnswers)
    | Cancel(at: Instant, os: OsAnswers)

  ghost predicate InTime(steps: seq<SinkStep>, start: Instant) {
    forall i, j :: 0 <= i <= j < |steps| ==> start <= steps[i].at <= steps[j].at
  }

  method Perform(sink: KeyboardSink, step: SinkStep)
    requires sink.Valid(step.at)
    modifies sink.Parts()
    ensures sink.Valid(step.at) && sink.Parts() == old(sink.Parts())
  {
    match step
    case Accept(frame, at, os) =>
      var r, n := sink.AcceptAt(frame, at, os);
    case Service(at, os) =>
      var r, out := sink.ServiceAt(at, os.flushSync, os.flushBulk);
    case Cancel(at, os) =>
      var r, n := sink.Release(at, os.discard, os.sync, os.bulk);
  }

  /** Time passes between two operations. */
  lemma ValidLater(sink: KeyboardSink, before: Instant, now: Instant)
    requires sink.Valid(before) && before <= now
    ensures sink.Valid(now)
  {
    if sink.spacer != null {
      GoodLater(sink.spacer.Value(), sink.pressed, before, now);
    }
  }

  /** In every reachable state of a bridge: what the kernel holds is on record,
      an inactive bridge leaves no key held and no key event unsynchronised, and
      the edges emitted by the spacer keep their distance. */
  method Run(lanes: nat, gap: Option<int>, steps: seq<SinkStep>, start: Instant)
    returns (active: bool, pressed: seq<bool>, ghost device: Device, ghost log: seq<LogEntry>)
    requires lanes > 0 && (gap.Some? ==> gap.value > 0) && InTime(steps, start)
    ensures |pressed| == lanes && Faithful(device, pressed)
    ensures !active ==> Synced(device.log) && forall lane: nat :: !KernelDown(device.log, lane)
    ensures gap.Some? ==> Separated(log, gap.value)
  {
    hide Good, Faithful, Separated, Recorded;
    var sink := new KeyboardSink(lanes, gap);
    ghost var now := start;
    var i := 0;
    while i < |steps|
      invariant 0 <= i <= |steps| && now == (if i == 0 then start else steps[i - 1].at)
      invariant sink.spacer == null <==> gap.None?
      invariant sink.spacer != null ==> sink.spacer.gap == gap.value
      invariant fresh(sink.Parts()) && sink.Valid(now) && sink.lanes == lanes
    {
      ValidLater(sink, now, steps[i].at);
      Perform(sink, steps[i]);
      now := steps[i].at;
      i := i + 1;
    }
    active := sink.HasActiveInput();
    pressed, device := sink.pressed, sink.sink.Value();
    log := if sink.spacer == null then [] else sink.spacer.log;
    if !active {
      NoStuckKey(device, pressed);
    }
  }
}
