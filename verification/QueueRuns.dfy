/** Every interleaving of the receive callback with the calls that take packets, clear the
    queue and reset the drop counter. */
module QueueRuns {
  import opened Counters
  import opened EspNowDriver

  datatype Event = Arrive(arrival: Arrival) | Take | Clear | ResetDropped

  predicate AllReadable(events: seq<Event>) {
    forall i :: 0 <= i < |events| && events[i].Arrive? ==> Readable(events[i].arrival)
  }

  function After(s: QueueState, e: Event): QueueState
    requires e.Arrive? ==> Readable(e.arrival)
  {
    match e
    case Arrive(a) => AfterArrival(s, a)
    case Take => if s.queue == [] then s else s.(queue := s.queue[1..])
    case Clear => s.(queue := [])
    case ResetDropped => s.(dropped := 0)
  }

  function Run(depth: nat, events: seq<Event>): QueueState
    requires AllReadable(events)
  {
    if events == [] then QueueState(true, depth, [], 0)
    else After(Run(depth, events[..|events| - 1]), events[|events| - 1])
  }

  /** An arrival worth queueing. */
  predicate Arrives(e: Event) {
    e.Arrive? && ValidArrival(e.arrival)
  }

  function Count(b: bool): nat {
    if b then 1 else 0
  }

  /** The packets an event adds to the queue, and those it takes from it, received or
      cleared. */
  function Entering(s: QueueState, e: Event): seq<ReceivedPacket>
    requires e.Arrive? ==> Readable(e.arrival)
  {
    if Arrives(e) && |s.queue| < s.depth then [PacketOf(e.arrival)] else []
  }

  function Leaving(s: QueueState, e: Event): seq<ReceivedPacket> {
    if e.Clear? then s.queue else if e.Take? && s.queue != [] then [s.queue[0]] else []
  }

  /** The packets that found room, in order of arrival. */
  function Accepted(depth: nat, events: seq<Event>): seq<ReceivedPacket>
    requires AllReadable(events)
  {
    if events == [] then []
    else
      var before := events[..|events| - 1];
      Accepted(depth, before) + Entering(Run(depth, before), events[|events| - 1])
  }

  /** The packets that left the queue, in the order they left. */
  function Left(depth: nat, events: seq<Event>): seq<ReceivedPacket>
    requires AllReadable(events)
  {
    if events == [] then []
    else
      var before := events[..|events| - 1];
      Left(depth, before) + Leaving(Run(depth, before), events[|events| - 1])
  }

  /** The arrivals worth queueing. */
  function Valid(events: seq<Event>): nat {
    if events == [] then 0
    else Valid(events[..|events| - 1]) + Count(Arrives(events[|events| - 1]))
  }

  /** How many were dropped, in all and since the counter was last reset. */
  function Dropped(depth: nat, events: seq<Event>): nat
    requires AllReadable(events)
  {
    if events == [] then 0
    else
      var before, e := events[..|events| - 1], events[|events| - 1];
      Dropped(depth, before) + Count(Arrives(e) && |Run(depth, before).queue| >= depth)
  }

  function DroppedSinceReset(depth: nat, events: seq<Event>): nat
    requires AllReadable(events)
  {
    if events == [] then 0
    else
      var before, e := events[..|events| - 1], events[|events| - 1];
      if e.ResetDropped? then 0
      else DroppedSinceReset(depth, before) + Count(Arrives(e) && |Run(depth, before).queue| >= depth)
  }

  lemma StepKeepsOrder(s: QueueState, e: Event)
    requires s.initialized && |s.queue| <= s.depth && (e.Arrive? ==> Readable(e.arrival))
    ensures s.queue + Entering(s, e) == Leaving(s, e) + After(s, e).queue
    ensures After(s, e).initialized && After(s, e).depth == s.depth && |After(s, e).queue| <= s.depth
  {
  }

  /** Whatever the interleaving of callback, receiver and clears, packets leave in the order
      they arrived, none is invented or lost, and the queue never exceeds its depth. */
  lemma {:induction false} QueueKeepsOrder(depth: nat, events: seq<Event>)
    requires AllReadable(events)
    ensures var s := Run(depth, events);
            && s.initialized && s.depth == depth && |s.queue| <= depth
            && Left(depth, events) + s.queue == Accepted(depth, events)
  {
    if events != [] {
      var before, e := events[..|events| - 1], events[|events| - 1];
      QueueKeepsOrder(depth, before);
      hide After;
      hide Entering;
      hide Leaving;
      var s := Run(depth, before);
      StepKeepsOrder(s, e);
      calc {
        Left(depth, before) + Leaving(s, e) + After(s, e).queue;
        Left(depth, before) + (Leaving(s, e) + After(s, e).queue);
        Left(depth, before) + (s.queue + Entering(s, e));
        Left(depth, before) + s.queue + Entering(s, e);
      }
    }
  }

  lemma {:induction false} AcceptedOrDropped(depth: nat, events: seq<Event>)
    requires AllReadable(events)
    ensures Valid(events) == |Accepted(depth, events)| + Dropped(depth, events)
  {
    if events != [] {
      AcceptedOrDropped(depth, events[..|events| - 1]);
      QueueKeepsOrder(depth, events[..|events| - 1]);
      hide Run;
      hide Arrives;
      hide PacketOf;
    }
  }

  lemma DropStep(s: QueueState, e: Event, n: nat)
    requires s.initialized && s.dropped == n % 0x1_0000_0000 && (e.Arrive? ==> Readable(e.arrival))
    ensures After(s, e).dropped
         == (if e.ResetDropped? then 0 else n + Count(Arrives(e) && |s.queue| >= s.depth)) % 0x1_0000_0000
  {
  }

  lemma {:induction false} CounterTellsDrops(depth: nat, events: seq<Event>)
    requires AllReadable(events)
    ensures Run(depth, events).dropped == DroppedSinceReset(depth, events) % 0x1_0000_0000
  {
    if events != [] {
      var before := events[..|events| - 1];
      CounterTellsDrops(depth, before);
      QueueKeepsOrder(depth, before);
      hide After;
      hide Arrives;
      hide Count;
      DropStep(Run(depth, before), events[|events| - 1], DroppedSinceReset(depth, before));
    }
  }

  /** Every valid arrival has left the queue, is in it, or was dropped, and the counter tells
      how many were dropped since its last reset, modulo 2^32. */
  lemma ArrivalsAreAccountedFor(depth: nat, events: seq<Event>)
    requires AllReadable(events)
    ensures Valid(events)
         == |Left(depth, events)| + |Run(depth, events).queue| + Dropped(depth, events)
    ensures Run(depth, events).dropped == DroppedSinceReset(depth, events) % 0x1_0000_0000
  {
    QueueKeepsOrder(depth, events);
    AcceptedOrDropped(depth, events);
    CounterTellsDrops(depth, events);
    assert |Left(depth, events) + Run(depth, events).queue|
        == |Left(depth, events)| + |Run(depth, events).queue|;
  }
}
