/** The main loop's side of the receive queue: burst after burst of arrivals, and for each of
    them one call of receive that waits for ever. What is taken when is a function of what
    arrives. */
module QueueRounds {
  import opened Options
  import opened EspNowDriver
  import Queue = QueueRuns

  predicate AllLegible(arrivals: seq<Arrival>) {
    forall i :: 0 <= i < |arrivals| ==> Readable(arrivals[i])
  }

  function Arriving(arrivals: seq<Arrival>): (r: seq<Queue.Event>)
    ensures |r| == |arrivals| && forall i :: 0 <= i < |r| ==> r[i] == Queue.Arrive(arrivals[i])
  {
    seq(|arrivals|, i requires 0 <= i < |arrivals| => Queue.Arrive(arrivals[i]))
  }

  /** The arrivals among the events, in order. */
  function ArrivalsOf(events: seq<Queue.Event>): seq<Arrival> {
    if events == [] then []
    else
      var e := events[|events| - 1];
      ArrivalsOf(events[..|events| - 1]) + if e.Arrive? then [e.arrival] else []
  }

  function AllOf(rounds: seq<seq<Arrival>>): seq<Arrival> {
    if rounds == [] then [] else AllOf(rounds[..|rounds| - 1]) + rounds[|rounds| - 1]
  }

  // ----- what one round does -----

  /** The call goes on waiting: nothing is queued, and nothing that arrives is worth it. */
  predicate Idle(s: QueueState, arrivals: seq<Arrival>) {
    s.queue == [] && forall i :: 0 <= i < |arrivals| ==> !ValidArrival(arrivals[i])
  }

  /** How many arrivals come in before the call returns: none if a packet is queued, else all
      up to the first that is worth queueing. */
  function Taking(s: QueueState, arrivals: seq<Arrival>): (t: nat)
    ensures t <= |arrivals|
  {
    if s.queue != [] || arrivals == [] then 0
    else if ValidArrival(arrivals[0]) then 1
    else 1 + Taking(s, arrivals[1..])
  }

  lemma {:induction false} TakingIs(s: QueueState, arrivals: seq<Arrival>, t: nat)
    requires t <= |arrivals| && s.queue == []
    requires forall i :: 0 <= i < t - 1 ==> !ValidArrival(arrivals[i])
    requires t > 0 && (ValidArrival(arrivals[t - 1]) || t == |arrivals|)
    ensures Taking(s, arrivals) == t
  {
    if t > 1 {
      TakingIs(s, arrivals[1..], t - 1);
    }
  }

  function TakeUnless(idle: bool): seq<Queue.Event> {
    if idle then [] else [Queue.Take]
  }

  /** The events of a round: arrivals, one packet taken unless the call goes on waiting, and
      the rest of the arrivals while the packet is handled. */
  function RoundEvents(s: QueueState, arrivals: seq<Arrival>): seq<Queue.Event> {
    var t := Taking(s, arrivals);
    Arriving(arrivals[..t]) + TakeUnless(Idle(s, arrivals)) + Arriving(arrivals[t..])
  }

  lemma RoundIsReadable(events: seq<Queue.Event>, s: QueueState, arrivals: seq<Arrival>)
    requires Queue.AllReadable(events) && AllLegible(arrivals)
    ensures Queue.AllReadable(events + RoundEvents(s, arrivals))
  {
  }

  /** All events of a queue of this depth over these rounds. */
  function EventsOf(depth: nat, rounds: seq<seq<Arrival>>): (events: seq<Queue.Event>)
    requires forall r :: 0 <= r < |rounds| ==> AllLegible(rounds[r])
    ensures Queue.AllReadable(events)
  {
    if rounds == [] then []
    else
      var before := EventsOf(depth, rounds[..|rounds| - 1]);
      var s := Queue.Run(depth, before);
      RoundIsReadable(before, s, rounds[|rounds| - 1]);
      before + RoundEvents(s, rounds[|rounds| - 1])
  }

  /** The rounds in which a packet is taken. */
  function Busy(depth: nat, rounds: seq<seq<Arrival>>): nat
    requires forall r :: 0 <= r < |rounds| ==> AllLegible(rounds[r])
  {
    if rounds == [] then 0
    else
      var before := rounds[..|rounds| - 1];
      Busy(depth, before)
      + if Idle(Queue.Run(depth, EventsOf(depth, before)), rounds[|rounds| - 1]) then 0 else 1
  }

  // ----- the queue, event by event -----

  lemma QueueNext(depth: nat, events: seq<Queue.Event>, e: Queue.Event)
    requires Queue.AllReadable(events) && (e.Arrive? ==> Readable(e.arrival))
    ensures Queue.AllReadable(events + [e])
    ensures Queue.Run(depth, events + [e]) == Queue.After(Queue.Run(depth, events), e)
    ensures Queue.Left(depth, events + [e])
         == Queue.Left(depth, events) + Queue.Leaving(Queue.Run(depth, events), e)
    ensures ArrivalsOf(events + [e]) == ArrivalsOf(events) + if e.Arrive? then [e.arrival] else []
  {
    assert (events + [e])[..|events|] == events;
  }

  lemma ArrivalFacts(s: QueueState, a: Arrival)
    requires Readable(a)
    ensures Queue.After(s, Queue.Arrive(a)) == AfterArrival(s, a) && Queue.Leaving(s, Queue.Arrive(a)) == []
    ensures !ValidArrival(a) ==> Queue.After(s, Queue.Arrive(a)) == s
    ensures s.initialized && s.queue == [] && s.depth > 0 && ValidArrival(a) ==>
              Queue.After(s, Queue.Arrive(a)) == s.(queue := [PacketOf(a)])
  {
  }

  lemma TakeFacts(s: QueueState)
    requires s.queue != []
    ensures Queue.Leaving(s, Queue.Take) == [s.queue[0]]
    ensures Queue.After(s, Queue.Take) == s.(queue := s.queue[1..])
  {
  }

  lemma ArrivingNext(arrivals: seq<Arrival>)
    requires arrivals != []
    ensures var n := |arrivals| - 1;
            && Arriving(arrivals) == Arriving(arrivals[..n]) + [Queue.Arrive(arrivals[n])]
            && arrivals == arrivals[..n] + [arrivals[n]]
  {
  }

  /** Arrivals one after the other, all of them through the callback. */
  lemma {:induction false} QueueArrivals(depth: nat, events: seq<Queue.Event>, arrivals: seq<Arrival>)
    requires Queue.AllReadable(events) && AllLegible(arrivals)
    ensures Queue.AllReadable(events + Arriving(arrivals))
    ensures Queue.Left(depth, events + Arriving(arrivals)) == Queue.Left(depth, events)
    ensures ArrivalsOf(events + Arriving(arrivals)) == ArrivalsOf(events) + arrivals
    ensures (forall i :: 0 <= i < |arrivals| ==> !ValidArrival(arrivals[i])) ==>
              Queue.Run(depth, events + Arriving(arrivals)) == Queue.Run(depth, events)
    decreases |arrivals|
  {
    hide Queue.AllReadable;
    hide Queue.Run;
    hide Queue.After;
    hide Queue.Left;
    hide Queue.Leaving;
    hide ArrivalsOf;
    hide ValidArrival;
    hide Readable;
    if arrivals == [] {
      assert events + Arriving(arrivals) == events;
    } else {
      var n := |arrivals| - 1;
      QueueArrivals(depth, events, arrivals[..n]);
      var before := events + Arriving(arrivals[..n]);
      QueueNext(depth, before, Queue.Arrive(arrivals[n]));
      ArrivalFacts(Queue.Run(depth, before), arrivals[n]);
      ArrivingNext(arrivals);
      assert events + Arriving(arrivals) == before + [Queue.Arrive(arrivals[n])];
      assert ArrivalsOf(events) + arrivals == ArrivalsOf(events) + arrivals[..n] + [arrivals[n]];
    }
  }

  /** The first part of a round that is not idle: the packet taken is the oldest, or the first
      arrival worth queueing. */
  lemma TakenWhat(depth: nat, events: seq<Queue.Event>, arrivals: seq<Arrival>)
    requires depth > 0 && Queue.AllReadable(events) && AllLegible(arrivals)
    requires var s := Queue.Run(depth, events);
             && s.initialized && s.depth == depth
             && if arrivals == [] then s.queue != []
                else
                  && s.queue == [] && ValidArrival(arrivals[|arrivals| - 1])
                  && forall i :: 0 <= i < |arrivals| - 1 ==> !ValidArrival(arrivals[i])
    ensures var s, later := Queue.Run(depth, events), events + Arriving(arrivals) + [Queue.Take];
            && Queue.AllReadable(later) && ArrivalsOf(later) == ArrivalsOf(events) + arrivals
            && Queue.Run(depth, later) == (if arrivals == [] then s.(queue := s.queue[1..]) else s)
            && Queue.Left(depth, later) == Queue.Left(depth, events)
                 + [if arrivals == [] then s.queue[0] else PacketOf(arrivals[|arrivals| - 1])]
  {
    hide Queue.AllReadable;
    hide Queue.Run;
    hide Queue.After;
    hide Queue.Left;
    hide Queue.Leaving;
    hide ArrivalsOf;
    hide ValidArrival;
    hide PacketOf;
    hide Readable;
    var s, arrived := Queue.Run(depth, events), events + Arriving(arrivals);
    QueueArrivals(depth, events, arrivals);
    if arrivals == [] {
      assert arrived == events;
    } else {
      var n := |arrivals| - 1;
      QueueArrivals(depth, events, arrivals[..n]);
      QueueNext(depth, events + Arriving(arrivals[..n]), Queue.Arrive(arrivals[n]));
      ArrivalFacts(s, arrivals[n]);
      ArrivingNext(arrivals);
      assert arrived == events + Arriving(arrivals[..n]) + [Queue.Arrive(arrivals[n])];
    }
    QueueNext(depth, arrived, Queue.Take);
    TakeFacts(Queue.Run(depth, arrived));
  }

  // ----- the driver, round by round -----

  ghost predicate Queued(driver: Driver, depth: nat, events: seq<Queue.Event>)
    reads driver
  {
    depth > 0 && Queue.AllReadable(events) && driver.State() == Queue.Run(depth, events)
  }

  /** Arrivals through the callback. */
  method Deliver(driver: Driver, arrivals: seq<Arrival>, ghost depth: nat, ghost events: seq<Queue.Event>)
    requires Queued(driver, depth, events) && AllLegible(arrivals)
    modifies driver
    ensures Queued(driver, depth, events + Arriving(arrivals))
    ensures Queue.Left(depth, events + Arriving(arrivals)) == Queue.Left(depth, events)
  {
    hide Queue.AllReadable;
    hide Queue.Run;
    hide Queue.Left;
    hide Queue.Leaving;
    hide Queue.After;
    hide ArrivalsOf;
    hide AfterArrival;
    hide ValidArrival;
    hide PacketOf;
    assert events + Arriving(arrivals[..0]) == events;
    for i := 0 to |arrivals|
      invariant Queued(driver, depth, events + Arriving(arrivals[..i]))
      invariant Queue.Left(depth, events + Arriving(arrivals[..i])) == Queue.Left(depth, events)
    {
      ghost var before := events + Arriving(arrivals[..i]);
      QueueNext(depth, before, Queue.Arrive(arrivals[i]));
      ArrivalFacts(Queue.Run(depth, before), arrivals[i]);
      driver.OnDataReceived(arrivals[i]);
      assert events + Arriving(arrivals[..i + 1]) == before + [Queue.Arrive(arrivals[i])];
    }
    assert arrivals[..|arrivals|] == arrivals;
  }

  /** One call of receive, which waits for ever: it is still waiting exactly if the queue was
      empty and these arrivals brought nothing; else it returns with the oldest packet. */
  method TakePacket(driver: Driver, arrivals: seq<Arrival>, ghost depth: nat, ghost events: seq<Queue.Event>)
    returns (packet: Option<ReceivedPacket>, taken: nat)
    requires Queued(driver, depth, events) && AllLegible(arrivals)
    modifies driver
    ensures packet.None? <==> Idle(Queue.Run(depth, events), arrivals)
    ensures taken == Taking(Queue.Run(depth, events), arrivals)
    ensures var later := events + Arriving(arrivals[..taken]) + TakeUnless(packet.None?);
            && Queued(driver, depth, later)
            && Queue.Left(depth, later)
            == Queue.Left(depth, events) + if packet.Some? then [packet.value] else []
  {
    hide Queue.AllReadable;
    hide Queue.Run;
    hide Queue.Left;
    hide Queue.Accepted;
    hide ArrivalsOf;
    hide ValidArrival;
    hide PacketOf;
    hide Taking;
    hide Arriving;
    Queue.QueueKeepsOrder(depth, events);
    ghost var s := Queue.Run(depth, events);
    packet, taken := driver.Receive(arrivals);
    ghost var some := arrivals[..taken];
    if packet.None? {
      assert some == arrivals;
      QueueArrivals(depth, events, arrivals);
      assert events + Arriving(some) + TakeUnless(true) == events + Arriving(arrivals);
    } else {
      assert taken > 0 ==> some[taken - 1] == arrivals[taken - 1];
      assert forall i :: 0 <= i < taken - 1 ==> some[i] == arrivals[i];
      TakenWhat(depth, events, some);
    }
    TakenHowMany(s, arrivals, taken, packet.None?);
  }

  lemma TakenHowMany(s: QueueState, arrivals: seq<Arrival>, taken: nat, idle: bool)
    requires taken <= |arrivals|
    requires s.queue != [] ==> taken == 0
    requires s.queue == [] && idle ==> taken == |arrivals| && forall i :: 0 <= i < taken ==> !ValidArrival(arrivals[i])
    requires s.queue == [] && !idle ==>
               && taken > 0 && ValidArrival(arrivals[taken - 1])
               && forall i :: 0 <= i < taken - 1 ==> !ValidArrival(arrivals[i])
    ensures taken == Taking(s, arrivals)
  {
    if s.queue == [] && taken > 0 {
      TakingIs(s, arrivals, taken);
    }
  }

  // ----- all rounds -----

  lemma RoundInParts(s: QueueState, arrivals: seq<Arrival>, events: seq<Queue.Event>, t: nat)
    requires t == Taking(s, arrivals)
    ensures (events + Arriving(arrivals[..t]) + TakeUnless(Idle(s, arrivals))) + Arriving(arrivals[t..])
         == events + RoundEvents(s, arrivals)
  {
    hide Taking;
    hide Idle;
    hide Arriving;
  }

  lemma EventsNext(depth: nat, rounds: seq<seq<Arrival>>, r: nat)
    requires r < |rounds| && forall k :: 0 <= k < |rounds| ==> AllLegible(rounds[k])
    ensures EventsOf(depth, rounds[..r + 1])
         == EventsOf(depth, rounds[..r])
          + RoundEvents(Queue.Run(depth, EventsOf(depth, rounds[..r])), rounds[r])
    ensures Busy(depth, rounds[..r + 1])
         == Busy(depth, rounds[..r])
          + if Idle(Queue.Run(depth, EventsOf(depth, rounds[..r])), rounds[r]) then 0 else 1
  {
    assert rounds[..r + 1][..r] == rounds[..r];
    hide RoundEvents;
    hide Idle;
  }

  lemma TakeIsNoArrival(depth: nat, events: seq<Queue.Event>, idle: bool)
    requires Queue.AllReadable(events)
    ensures Queue.AllReadable(events + TakeUnless(idle))
    ensures ArrivalsOf(events + TakeUnless(idle)) == ArrivalsOf(events)
  {
    if idle {
      assert events + TakeUnless(idle) == events;
    } else {
      QueueNext(depth, events, Queue.Take);
    }
  }

  lemma RoundKeepsArrivals(depth: nat, events: seq<Queue.Event>, s: QueueState, arrivals: seq<Arrival>)
    requires Queue.AllReadable(events) && AllLegible(arrivals)
    ensures ArrivalsOf(events + RoundEvents(s, arrivals)) == ArrivalsOf(events) + arrivals
  {
    hide Queue.Run;
    hide Queue.Left;
    hide Queue.AllReadable;
    hide ArrivalsOf;
    hide Taking;
    hide Idle;
    hide Arriving;
    hide RoundEvents;
    hide TakeUnless;
    hide ValidArrival;
    var t := Taking(s, arrivals);
    var first := events + Arriving(arrivals[..t]);
    var second := first + TakeUnless(Idle(s, arrivals));
    QueueArrivals(depth, events, arrivals[..t]);
    TakeIsNoArrival(depth, first, Idle(s, arrivals));
    QueueArrivals(depth, second, arrivals[t..]);
    RoundInParts(s, arrivals, events, t);
    assert arrivals == arrivals[..t] + arrivals[t..];
    assert ArrivalsOf(events) + arrivals[..t] + arrivals[t..] == ArrivalsOf(events) + arrivals;
  }

  /** The events of the rounds hold all their arrivals, in order. */
  lemma {:induction false} RoundsKeepArrivals(depth: nat, rounds: seq<seq<Arrival>>)
    requires forall r :: 0 <= r < |rounds| ==> AllLegible(rounds[r])
    ensures ArrivalsOf(EventsOf(depth, rounds)) == AllOf(rounds)
  {
    if rounds != [] {
      var before := EventsOf(depth, rounds[..|rounds| - 1]);
      RoundsKeepArrivals(depth, rounds[..|rounds| - 1]);
      RoundKeepsArrivals(depth, before, Queue.Run(depth, before), rounds[|rounds| - 1]);
    }
  }
}
