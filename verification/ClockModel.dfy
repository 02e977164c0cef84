/** The retained clock-offset interval: host clock minus phone clock, bounded by
    the causality of each exchange and a drift of at most 1 part in 1000. */
module ClockModel {
  import opened Protocol

  const MAX_SPAN := 2_000_000_000
  const MAX_AGE := 1_000_000_000
  const DRIFT_DIVISOR := 1_000

  /** The timestamps of a received frame: the host's last control message left the
      host at `echo` and reached the phone at `phoneReceive`; the frame left the
      phone at `phoneSend` and reached the host at `arrival`. */
  datatype Exchange = Exchange(session: U64, arrival: U64, phoneSend: U64, echo: U64, phoneReceive: U64)

  datatype Retained = Retained(session: U64, at: U64, low: int, high: int)

  datatype Count = Missing | StaleExchange | Invalid | Reset

  // ---------------------------------------------------------------- the physics

  /** The offset as a function of host time. */
  ghost predicate Drifts(theta: real -> real) {
    forall a: real, b: real :: a <= b ==> Close(theta, a, b)
  }

  ghost predicate Close(theta: real -> real, a: real, b: real) {
    -(b - a) / 1000.0 <= theta(b) - theta(a) <= (b - a) / 1000.0
  }

  /** An exchange that happened: `received` and `sent` are the host times of the
      two events on the phone, in causal order. */
  ghost predicate Happened(e: Exchange, theta: real -> real, received: real, sent: real) {
    && e.echo as real <= received <= sent <= e.arrival as real
    && e.phoneReceive as real == received - theta(received)
    && e.phoneSend as real == sent - theta(sent)
  }

  ghost predicate Real(e: Exchange, theta: real -> real) {
    exists received: real, sent: real :: Happened(e, theta, received, sent)
  }

  ghost predicate Holds(clock: Option<Retained>, theta: real -> real) {
    clock.Some? ==> clock.value.low as real <= theta(clock.value.at as real) <= clock.value.high as real
  }

  // ---------------------------------------------------------------- the arithmetic

  function Uncertainty(span: nat): int { span / DRIFT_DIVISOR + 1 }

  lemma UncertaintyCovers(span: nat)
    ensures Uncertainty(span) as real >= span as real / 1000.0
  {
    var q := span / DRIFT_DIVISOR;
    assert span < (q + 1) * 1000;
    assert (span as real) <= ((q + 1) as real) * 1000.0;
  }

  /** ... and no more than one nanosecond beyond it. */
  lemma UncertaintyTight(span: nat)
    ensures 1000 * (Uncertainty(span) - 1) <= span < 1000 * Uncertainty(span)
  {
  }

  /** What one exchange alone says about the offset at its arrival. */
  lemma ExchangeBounds(e: Exchange, theta: real -> real, received: real, sent: real)
    requires Drifts(theta) && Happened(e, theta, received, sent)
    ensures e.arrival >= e.echo
    ensures (e.echo - e.phoneReceive - Uncertainty(e.arrival - e.echo)) as real <= theta(e.arrival as real)
    ensures theta(e.arrival as real) <= (e.arrival - e.phoneSend + Uncertainty(e.arrival - e.echo)) as real
  {
    assert e.echo as real <= e.arrival as real;
    UncertaintyCovers(e.arrival - e.echo);
    assert Close(theta, received, e.arrival as real) && Close(theta, sent, e.arrival as real);
  }

  /** An old interval, widened by the drift since, still holds the offset. */
  lemma WidenedHolds(older: Retained, theta: real -> real, now: U64)
    requires Drifts(theta) && Holds(Some(older), theta) && older.at <= now
    ensures (older.low - Uncertainty(now - older.at)) as real <= theta(now as real) <= (older.high + Uncertainty(now - older.at)) as real
  {
    UncertaintyCovers(now - older.at);
    assert Close(theta, older.at as real, now as real);
  }

  function SaturatingSub(a: nat, b: nat): nat { if a >= b then a - b else 0 }

  function Larger(a: int, b: int): int { if a > b then a else b }

  function Smaller(a: int, b: int): int { if a < b then a else b }

  class Analysis {
    var clock: Option<Retained>
    var counted: seq<Count>

    constructor ()
      ensures clock.None? && counted == []
    {
      clock, counted := None, [];
    }

    method Note(count: Count)
      modifies this`counted
      ensures counted == old(counted) + [count]
    {
      counted := counted + [count];
    }

    /** The interval of this exchange, meeting the retained one if that is of the
        same session and fresh. */
    method TransportBounds(e: Exchange, ghost theta: real -> real) returns (r: Option<(nat, nat)>)
      modifies this
      ensures Sound(old(clock), e, theta) ==>
        && Holds(clock, theta)
        && (r.Some? <==> !Unusable(e) && !Old(e))
      ensures counted == old(counted) + Verdict(old(clock), e)
      ensures r.Some? <==> Verdict(old(clock), e) == []
      ensures r.None? ==> clock == if Verdict(old(clock), e) == [Reset] then None else old(clock)
      ensures Sound(old(clock), e, theta) && r.Some? ==> Bounds(r.value, e, theta)
      ensures r.Some? ==> clock.Some? && clock.value.at == e.arrival && clock.value.low <= clock.value.high
      ensures r.Some? ==> Narrowed(old(clock), e, clock.value)
      ensures r.Some? ==> r.value.1 - r.value.0 <= clock.value.high - clock.value.low
    {
      hide Drifts, Real, Bounds, Uncertainty;
      r := None;
      if Unusable(e) {
        Note(Missing);
        return;
      }
      var span := e.arrival - e.echo;
      if span > MAX_SPAN {
        Note(StaleExchange);
        return;
      }
      var uncertainty := Uncertainty(span);
      var low := e.echo - e.phoneReceive - uncertainty;
      var high := e.arrival - e.phoneSend + uncertainty;
      ghost var sound := Sound(clock, e, theta);
      if sound {
        SoundInterval(clock, e, theta);
      }
      if low > high {
        Note(Invalid);
        return;
      }
      if Continues(clock, e) {
        var drift := Uncertainty(SaturatingSub(e.arrival, clock.value.at));
        var lowest, highest := Larger(low, clock.value.low - drift), Smaller(high, clock.value.high + drift);
        if lowest > highest {
          Note(Reset);
          clock := None;
          return;
        }
        low, high := lowest, highest;
      }
      clock := Some(Retained(e.session, e.arrival, low, high));
      var observed := e.arrival - e.phoneSend;
      r := Some((Larger(observed - high, 0), Larger(observed - low, 0)));
      if sound {
        BoundsFollow(e, theta, low, high);
      }
    }
  }

  /** Under the assumptions both intervals hold the offset, so they meet. */
  lemma SoundInterval(clock: Option<Retained>, e: Exchange, theta: real -> real)
    requires Sound(clock, e, theta) && e.arrival >= e.echo
    ensures var u := Uncertainty(e.arrival - e.echo); var offset := theta(e.arrival as real);
      (e.echo - e.phoneReceive - u) as real <= offset <= (e.arrival - e.phoneSend + u) as real
    ensures clock.Some? ==> var d := Uncertainty(e.arrival - clock.value.at);
      (clock.value.low - d) as real <= theta(e.arrival as real) <= (clock.value.high + d) as real
  {
    var received: real, sent: real :| Happened(e, theta, received, sent);
    ExchangeBounds(e, theta, received, sent);
    if clock.Some? {
      WidenedHolds(clock.value, theta, e.arrival);
    }
  }

  lemma BoundsFollow(e: Exchange, theta: real -> real, low: int, high: int)
    requires Drifts(theta) && low as real <= theta(e.arrival as real) <= high as real
    ensures Bounds((Larger(e.arrival - e.phoneSend - high, 0), Larger(e.arrival - e.phoneSend - low, 0)), e, theta)
  {
    forall received: real, sent: real | Happened(e, theta, received, sent)
      ensures Larger(e.arrival - e.phoneSend - high, 0) as real <= (e.arrival as real - sent) * 1.001
      ensures (e.arrival as real - sent) * 0.999 <= Larger(e.arrival - e.phoneSend - low, 0) as real
      ensures theta(sent) == theta(e.arrival as real) ==>
        Larger(e.arrival - e.phoneSend - high, 0) as real <= e.arrival as real - sent
        <= Larger(e.arrival - e.phoneSend - low, 0) as real
    {
      assert Close(theta, sent, e.arrival as real);
    }
  }

  /** What the exchange alone allows. */
  function OwnLow(e: Exchange): int { e.echo - e.phoneReceive - Uncertainty(SaturatingSub(e.arrival, e.echo)) }

  function OwnHigh(e: Exchange): int { e.arrival - e.phoneSend + Uncertainty(SaturatingSub(e.arrival, e.echo)) }

  predicate Continues(older: Option<Retained>, e: Exchange) {
    older.Some? && older.value.session == e.session && SaturatingSub(e.arrival, older.value.at) <= MAX_AGE
  }

  /** The new interval lies within the exchange's own and, for a fresh interval of
      the same session, within the widened old one. */
  predicate Narrowed(older: Option<Retained>, e: Exchange, now: Retained) {
    && now.session == e.session && now.at == e.arrival && OwnLow(e) <= now.low && now.high <= OwnHigh(e)
    && (Continues(older, e) ==>
          && older.value.low - Uncertainty(SaturatingSub(e.arrival, older.value.at)) <= now.low
          && now.high <= older.value.high + Uncertainty(SaturatingSub(e.arrival, older.value.at)))
  }

  /** Timestamps are absent or out of order. */
  predicate Unusable(e: Exchange) {
    e.echo == 0 || e.phoneReceive == 0 || e.phoneSend < e.phoneReceive || e.arrival < e.echo
  }

  predicate Old(e: Exchange) { !Unusable(e) && e.arrival - e.echo > MAX_SPAN }

  /** The latest low end and the earliest high end leave nothing between them. */
  predicate Apart(older: Option<Retained>, e: Exchange) {
    Continues(older, e) &&
    var drift := Uncertainty(SaturatingSub(e.arrival, older.value.at));
    Larger(OwnLow(e), older.value.low - drift) > Smaller(OwnHigh(e), older.value.high + drift)
  }

  /** What an exchange is counted as; nothing if it is usable. */
  function Verdict(older: Option<Retained>, e: Exchange): seq<Count> {
    if Unusable(e) then [Missing]
    else if Old(e) then [StaleExchange]
    else if OwnLow(e) > OwnHigh(e) then [Invalid]
    else if Apart(older, e) then [Reset]
    else []
  }

  /** The verdicts, with their limits written out: two seconds for the round trip,
      one second for the age of an interval. */
  lemma VerdictMeans(older: Option<Retained>, e: Exchange)
    ensures Verdict(older, e) == [Missing] <==>
      e.echo == 0 || e.phoneReceive == 0 || e.phoneSend < e.phoneReceive || e.arrival < e.echo
    ensures Verdict(older, e) == [StaleExchange] <==>
      !Unusable(e) && e.arrival - e.echo > 2_000_000_000
    ensures Verdict(older, e) == [Invalid] <==>
      !Unusable(e) && !Old(e) && (e.echo - e.phoneReceive) - (e.arrival - e.phoneSend) > 2 * Uncertainty(e.arrival - e.echo)
    ensures Verdict(older, e) == [Reset] ==>
      older.Some? && older.value.session == e.session && e.arrival <= older.value.at + 1_000_000_000
    ensures older.Some? && older.value.session == e.session && e.arrival <= older.value.at + 1_000_000_000 <==> Continues(older, e)
  {
  }

  /** The assumptions: the exchange happened, the offset drifts slowly, and host
      time does not run backwards. */
  ghost predicate Sound(clock: Option<Retained>, e: Exchange, theta: real -> real) {
    && Drifts(theta) && Real(e, theta) && Holds(clock, theta)
    && (clock.Some? ==> clock.value.at <= e.arrival)
  }

  /** The true forward delay, up to the drift during it, lies in the pair - and
      exactly so for a constant offset. */
  ghost predicate Bounds(pair: (nat, nat), e: Exchange, theta: real -> real) {
    forall received: real, sent: real :: Happened(e, theta, received, sent) ==>
      && pair.0 as real <= (e.arrival as real - sent) * 1.001
      && (e.arrival as real - sent) * 0.999 <= pair.1 as real
      && (theta(sent) == theta(e.arrival as real) ==> pair.0 as real <= e.arrival as real - sent <= pair.1 as real)
  }

  /** Over a whole run of exchanges that happened, in order of arrival, the
      retained interval always holds the offset and the model is never reset. */
  method ObserveAll(exchanges: seq<Exchange>, ghost theta: real -> real)
    returns (bounds: seq<Option<(nat, nat)>>, clock: Option<Retained>, counted: seq<Count>)
    requires Drifts(theta) && forall i :: 0 <= i < |exchanges| ==> Real(exchanges[i], theta)
    requires forall i, j :: 0 <= i < j < |exchanges| ==> exchanges[i].arrival <= exchanges[j].arrival
    ensures Holds(clock, theta) && Reset !in counted && Invalid !in counted
    ensures |bounds| == |exchanges|
    ensures forall i :: 0 <= i < |bounds| ==>
      (bounds[i].Some? <==> !Unusable(exchanges[i]) && !Old(exchanges[i]))
    ensures forall i :: 0 <= i < |bounds| && bounds[i].Some? ==> Bounds(bounds[i].value, exchanges[i], theta)
  {
    hide Drifts, Real, Bounds, Holds, Unusable, Old;
    var analysis := new Analysis();
    assert Holds(None, theta) by { NothingHeld(theta); }
    bounds := [];
    for i := 0 to |exchanges|
      invariant fresh(analysis) && Holds(analysis.clock, theta)
      invariant analysis.clock.Some? ==> i > 0 && analysis.clock.value.at <= exchanges[i - 1].arrival
      invariant Reset !in analysis.counted && Invalid !in analysis.counted && |bounds| == i
      invariant forall k :: 0 <= k < i ==> (bounds[k].Some? <==> !Unusable(exchanges[k]) && !Old(exchanges[k]))
      invariant forall k :: 0 <= k < i && bounds[k].Some? ==> Bounds(bounds[k].value, exchanges[k], theta)
    {
      var r := analysis.TransportBounds(exchanges[i], theta);
      bounds := bounds + [r];
    }
    clock, counted := analysis.clock, analysis.counted;
  }

  lemma NothingHeld(theta: real -> real)
    ensures Holds(None, theta)
  {
  }
}
