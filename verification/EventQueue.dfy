/** The diagnostic event ring: one producer, one consumer, two wrapping indices.

    Each step below is one access to shared memory. A side reads the other side's
    index late: it may get any value the index has had since it last looked, but
    never an older one than before. */
module EventQueues {
  import opened Protocol

  const QUEUE_CAPACITY := 16_384

  datatype Event = Event(kind: nat, at: nat)

  function Wrapped(count: nat): U64 { count % U64_LIMIT }

  function WrappingSub(a: U64, b: U64): U64 {
    if a >= b then a - b else a + U64_LIMIT - b
  }

  function Cell(count: nat): (i: nat)
    ensures i < QUEUE_CAPACITY
  {
    count % QUEUE_CAPACITY
  }

  /** A late look at a counter that has gone from `seen` to `now`. */
  function Glimpse(seen: nat, now: nat, wanted: nat): (view: nat)
    requires seen <= now
    ensures seen <= view <= now
  {
    if wanted < seen then seen else if wanted > now then now else wanted
  }

  lemma WrappedDistance(a: nat, b: nat)
    requires b <= a < b + U64_LIMIT
    ensures WrappingSub(Wrapped(a), Wrapped(b)) == a - b
  {
    var qa, qb := a / U64_LIMIT, b / U64_LIMIT;
    assert a == qa * U64_LIMIT + Wrapped(a) && b == qb * U64_LIMIT + Wrapped(b);
    assert qa == qb || qa == qb + 1;
  }

  /** The capacity divides the index range, so wrapping keeps the cell. */
  lemma WrappedCell(count: nat)
    ensures Cell(Wrapped(count)) == Cell(count)
  {
    assert U64_LIMIT == QUEUE_CAPACITY * 0x4_0000_0000_0000;
    assert count == (count / U64_LIMIT) * U64_LIMIT + Wrapped(count);
    CellPeriod(Wrapped(count), (count / U64_LIMIT) * 0x4_0000_0000_0000);
  }

  lemma CellPeriod(count: nat, turns: nat)
    ensures Cell(count + turns * QUEUE_CAPACITY) == Cell(count)
  {
  }

  lemma CellsDiffer(a: nat, b: nat)
    requires a < b < a + QUEUE_CAPACITY
    ensures Cell(a) != Cell(b)
  {
  }

  /** Where the producer stands in `push`. */
  datatype Producer = Idle | Writing(event: Event) | Publishing(event: Event)

  /** Where the worker stands; `final` is the last drain, after it saw the stop flag. */
  datatype Consumer =
    | Polling(final: bool) | Reading(final: bool) | Releasing(final: bool, event: Event)
    | CheckingStop | Done

  /** Who moves next, and how late its view of the other side is. */
  datatype Turn =
    | Produce(event: Event, view: nat)
    | Stop
    | Consume(view: nat, seesStop: bool)

  class EventQueue {
    const slots: array<Event>
    var read: U64
    var write: U64
    var stopped: bool
    var producer: Producer
    var consumer: Consumer
    var dropped: nat
    var dropSpan: Option<(nat, nat)>
    /** What the worker's analysis has been given. */
    var observed: seq<Event>
    /** The memory's side: every published event, and the newest value of the
        other side's counter each side has seen. */
    var accepted: seq<Event>
    var seenRead: nat
    var seenWrite: nat
    ghost var lost: seq<Event>
    ghost var offered: nat

    ghost predicate Valid()
      reads this, slots
    {
      && slots.Length == QUEUE_CAPACITY
      && Indices()
      && Stored()
      && Accounts()
    }

    /** The counters behind the indices, and what each side knows of them. */
    ghost predicate Indices()
      reads this
    {
      var pushed, popped := |accepted|, |observed|;
      && read == Wrapped(popped) && write == Wrapped(pushed)
      && seenRead <= popped <= pushed <= seenRead + QUEUE_CAPACITY
      && popped <= seenWrite <= pushed
      && (!producer.Idle? ==> pushed < seenRead + QUEUE_CAPACITY && !stopped)
      && (consumer.Reading? || consumer.Releasing? ==> popped < seenWrite)
      && ((consumer.Polling? || consumer.Reading? || consumer.Releasing?) && consumer.final ==> stopped && seenWrite == pushed)
      && (consumer.Done? ==> stopped && popped == pushed)
    }

    /** Every unread event is in its cell. */
    ghost predicate Stored()
      requires slots.Length == QUEUE_CAPACITY
      reads this, slots
    {
      && observed <= accepted
      && (forall i :: |observed| <= i < |accepted| ==> slots[Cell(i)] == accepted[i])
      && (producer.Publishing? ==> slots[Cell(|accepted|)] == producer.event)
      && (consumer.Releasing? ==> |observed| < |accepted| && consumer.event == accepted[|observed|])
    }

    ghost predicate Accounts()
      reads this
    {
      && offered == |accepted| + |lost| + (if producer.Idle? then 0 else 1)
      && dropped == |lost|
      && dropSpan == (if lost == [] then None else Some((lost[0].at, lost[|lost| - 1].at)))
    }

    constructor ()
      ensures Valid() && fresh(slots)
      ensures accepted == [] && observed == [] && offered == 0 && !stopped && consumer == Polling(false)
    {
      slots := new Event[QUEUE_CAPACITY](_ => Event(0, 0));
      read, write, stopped, producer, consumer := 0, 0, false, Idle, Polling(false);
      dropped, dropSpan, observed := 0, None, [];
      accepted, seenRead, seenWrite := [], 0, 0;
      lost, offered := [], 0;
    }

    /** The capacity check of `push`, and what `record` does with a full ring. */
    method Offer(event: Event, view: nat)
      requires Valid() && producer.Idle? && !stopped
      modifies this`producer, this`dropped, this`dropSpan, this`lost, this`offered, this`seenRead
      ensures Valid() && offered == old(offered) + 1
      ensures seenRead == Glimpse(old(seenRead), |observed|, view)
      ensures producer.Idle? <==> |accepted| == seenRead + 16_384
      ensures if producer.Idle? then lost == old(lost) + [event] else producer == Writing(event) && lost == old(lost)
    {
      offered := offered + 1;
      seenRead := Glimpse(seenRead, |observed|, view);
      WrappedDistance(|accepted|, seenRead);
      if WrappingSub(write, Wrapped(seenRead)) == QUEUE_CAPACITY {
        dropped := dropped + 1;
        dropSpan := match dropSpan
          case Some(span) => Some((span.0, event.at))
          case None => Some((event.at, event.at));
        lost := lost + [event];
      } else {
        producer := Writing(event);
      }
    }

    /** Stores into a cell that holds no unread event and is not being read. */
    method WriteSlot()
      requires Valid() && producer.Writing?
      modifies this`producer, slots
      ensures Valid() && producer == Publishing(old(producer).event)
      ensures forall i :: |observed| <= i < |accepted| ==> Cell(i) != Cell(|accepted|)
      ensures forall c :: 0 <= c < QUEUE_CAPACITY && c != Cell(|accepted|) ==> slots[c] == old(slots[c])
    {
      WrappedCell(|accepted|);
      forall i | |observed| <= i < |accepted| ensures Cell(i) != Cell(|accepted|) {
        CellsDiffer(i, |accepted|);
      }
      slots[Cell(write)] := producer.event;
      producer := Publishing(producer.event);
    }

    method Publish()
      requires Valid() && producer.Publishing?
      modifies this`producer, this`write, this`accepted
      ensures Valid() && producer.Idle? && accepted == old(accepted) + [old(producer).event]
    {
      WrappedNext(|accepted|);
      write := Wrapped(write + 1);
      accepted := accepted + [producer.event];
      producer := Idle;
    }

    /** Reads the write index. */
    method Poll(view: nat)
      requires Valid() && consumer.Polling?
      modifies this`consumer, this`seenWrite
      ensures Valid()
      ensures consumer == if |observed| < seenWrite then Reading(old(consumer.final))
                          else if old(consumer.final) then Done else CheckingStop
    {
      if !consumer.final {
        seenWrite := Glimpse(seenWrite, |accepted|, view);
      }
      WrappedDistance(seenWrite, |observed|);
      if read != Wrapped(seenWrite) {
        consumer := Reading(consumer.final);
      } else {
        consumer := if consumer.final then Done else CheckingStop;
      }
    }

    method ReadSlot()
      requires Valid() && consumer.Reading?
      modifies this`consumer
      ensures Valid() && consumer == Releasing(old(consumer).final, accepted[|observed|])
    {
      WrappedCell(|observed|);
      consumer := Releasing(consumer.final, slots[Cell(read)]);
    }

    method ReleaseSlot()
      requires Valid() && consumer.Releasing?
      modifies this`consumer, this`read, this`observed
      ensures Valid() && observed == old(observed) + [old(consumer).event]
    {
      WrappedNext(|observed|);
      read := Wrapped(read + 1);
      observed := observed + [consumer.event];
      consumer := Polling(consumer.final);
    }

    /** The stop flag may be seen late; seeing it shows every earlier publication. */
    method CheckStop(seesStop: bool)
      requires Valid() && consumer.CheckingStop?
      modifies this`consumer, this`seenWrite
      ensures Valid() && consumer == Polling(stopped && seesStop)
    {
      if stopped && seesStop {
        seenWrite := |accepted|;
        consumer := Polling(true);
      } else {
        consumer := Polling(false);
      }
    }

    method SetStopped()
      requires Valid() && producer.Idle?
      modifies this`stopped
      ensures Valid() && stopped
    {
      stopped := true;
    }

    /** One move of whoever is due. */
    method Move(turn: Turn)
      requires Valid()
      modifies this, slots
      ensures Valid() && old(observed) <= observed
    {
      match turn
      case Produce(event, view) =>
        match producer {
          case Idle => if !stopped { Offer(event, view); }
          case Writing(_) => WriteSlot();
          case Publishing(_) => Publish();
        }
      case Stop =>
        if producer.Idle? { SetStopped(); }
      case Consume(view, seesStop) =>
        match consumer {
          case Polling(_) => Poll(view);
          case Reading(_) => ReadSlot();
          case Releasing(_, _) => ReleaseSlot();
          case CheckingStop => CheckStop(seesStop);
          case Done =>
        }
    }

    /** Moves the worker still has to make before the next event is observed or it is done. */
    ghost function MovesLeft(): nat
      reads this
    {
      match consumer
      case Polling(final) => if final then 3 else 5
      case CheckingStop => 4
      case Reading(_) => 2
      case Releasing(_, _) => 1
      case Done => 0
    }

    /** Joining the worker once the flag is set and visible: it ends, having
        observed every accepted event. */
    method Join()
      requires Valid() && stopped
      modifies this, slots
      ensures Valid() && consumer.Done? && observed == accepted
      ensures accepted == old(accepted) && dropped == old(dropped) && dropSpan == old(dropSpan)
    {
      while !consumer.Done?
        invariant Valid() && stopped && accepted == old(accepted) && dropped == old(dropped) && dropSpan == old(dropSpan)
        decreases |accepted| - |observed|, MovesLeft()
      {
        match consumer {
          case Polling(_) => Poll(|accepted|);
          case Reading(_) => ReadSlot();
          case Releasing(_, _) => ReleaseSlot();
          case CheckingStop => CheckStop(true);
        }
      }
    }

    /** The two sides never touch the same cell at the same time. */
    lemma NoRace()
      requires Valid() && (producer.Writing? || producer.Publishing?) && consumer.Reading?
      ensures Cell(write) != Cell(read)
    {
      WrappedCell(|accepted|);
      WrappedCell(|observed|);
      CellsDiffer(|observed|, |accepted|);
    }
  }

  lemma WrappedNext(count: nat)
    ensures Wrapped(Wrapped(count) + 1) == Wrapped(count + 1)
  {
  }

  /** For every interleaving: what was observed is a prefix of what was accepted,
      nothing is counted twice or lost silently, and a finished worker has
      observed every accepted event. */
  method Run(turns: seq<Turn>)
    returns (observed: seq<Event>, dropped: nat, done: bool, accepted: seq<Event>, ghost lost: seq<Event>, ghost offered: nat)
    ensures observed <= accepted && dropped == |lost|
    ensures |accepted| + |lost| <= offered <= |accepted| + |lost| + 1
    ensures done ==> observed == accepted && offered == |accepted| + dropped
  {
    var queue := new EventQueue();
    for i := 0 to |turns|
      invariant queue.Valid() && fresh(queue) && fresh(queue.slots)
    {
      queue.Move(turns[i]);
    }
    observed, dropped, done := queue.observed, queue.dropped, queue.consumer.Done?;
    accepted, lost, offered := queue.accepted, queue.lost, queue.offered;
  }
}
