/** The receive side of the radio driver: the callback that queues packets, and the receive
    call that takes them, with the counter of packets dropped because the queue was full. */
module EspNowDriver {
  import opened Options
  import opened Counters

  const MAX_DATA_LENGTH: nat := 250

  type Mac = s: seq<bv8> | |s| == 6 witness [0, 0, 0, 0, 0, 0]

  /** What the radio stack passes to the callback; None is a null pointer, and length is the
      signed length it claims. */
  datatype Arrival = Arrival(
    source: Option<Mac>,
    destination: Option<Mac>,
    rssi: Option<int>,
    data: Option<seq<bv8>>,
    length: int)

  datatype ReceivedPacket = ReceivedPacket(source: Mac, destination: Mac, rssi: int, data: seq<bv8>)

  /** The data pointer is good for the claimed length. */
  predicate Readable(a: Arrival) {
    a.data.Some? && a.length > 0 ==> a.length <= |a.data.value|
  }

  predicate ValidArrival(a: Arrival) {
    a.source.Some? && a.data.Some? && 0 < a.length <= MAX_DATA_LENGTH
  }

  const NO_MAC: Mac := [0, 0, 0, 0, 0, 0]

  function PacketOf(a: Arrival): ReceivedPacket
    requires Readable(a) && ValidArrival(a)
  {
    ReceivedPacket(a.source.value,
                   if a.destination.Some? then a.destination.value else NO_MAC,
                   if a.rssi.Some? then a.rssi.value else 0,
                   a.data.value[..a.length])
  }

  datatype QueueState = QueueState(initialized: bool, depth: nat, queue: seq<ReceivedPacket>, dropped: nat)

  function AfterArrival(s: QueueState, a: Arrival): QueueState
    requires Readable(a)
  {
    if !s.initialized || !ValidArrival(a) then s
    else if |s.queue| < s.depth then s.(queue := s.queue + [PacketOf(a)])
    else s.(dropped := Bump(s.dropped))
  }

  /** An arrival that counts has a sender, data and a length from 1 to 250; it is queued as it
      came, what is missing of the rest as zeros, or dropped and counted if the queue is full. */
  predicate Handled(s: QueueState, a: Arrival, after: QueueState) {
    if s.initialized && a.source.Some? && a.data.Some? && 0 < a.length <= 250 then
      if |s.queue| < s.depth then
        && |after.queue| == |s.queue| + 1 && after == s.(queue := after.queue)
        && after.queue[..|s.queue|] == s.queue
        && var p := after.queue[|s.queue|];
           && p.source == a.source.value
           && p.destination == (if a.destination.Some? then a.destination.value else [0, 0, 0, 0, 0, 0])
           && p.rssi == (if a.rssi.Some? then a.rssi.value else 0)
           && |p.data| == a.length && a.length <= |a.data.value|
           && forall i :: 0 <= i < |p.data| ==> p.data[i] == a.data.value[i]
      else after == s.(dropped := (s.dropped + 1) % 0x1_0000_0000)
    else after == s
  }

  lemma ArrivalIsHandled(s: QueueState, a: Arrival)
    requires Readable(a)
    ensures Handled(s, a, AfterArrival(s, a))
  {
  }

  class Driver {
    var initialized: bool
    var depth: nat
    var queue: seq<ReceivedPacket>
    var dropped: nat

    /** A driver whose init succeeded with this queue depth. */
    constructor (depth: nat)
      requires depth > 0
      ensures State() == QueueState(true, depth, [], 0)
    {
      initialized, queue, dropped := true, [], 0;
      this.depth := depth;
    }

    function State(): QueueState
      reads this
    {
      QueueState(initialized, depth, queue, dropped)
    }

    /** The receive callback. It never waits: a full queue drops the packet. */
    method OnDataReceived(a: Arrival)
      requires Readable(a)
      modifies this
      ensures State() == AfterArrival(old(State()), a) && Handled(old(State()), a, State())
    {
      ArrivalIsHandled(State(), a);
      if !initialized || a.source.None? || a.data.None? || a.length <= 0 || a.length > MAX_DATA_LENGTH {
        return;
      }
      var packet := PacketOf(a);
      if |queue| < depth {
        queue := queue + [packet];
      } else {
        dropped := Bump(dropped);
      }
    }

    /** Takes the oldest packet, or waits for one. The arrivals are those of the time until the
        timeout; a call that waits is woken by the first of them that is queued, and has taken
        in that many. */
    method Receive(arrivals: seq<Arrival>) returns (packet: Option<ReceivedPacket>, taken: nat)
      requires forall i :: 0 <= i < |arrivals| ==> Readable(arrivals[i])
      modifies this
      ensures taken <= |arrivals| && initialized == old(initialized) && depth == old(depth)
      ensures !old(initialized) ==> packet == None && taken == 0 && State() == old(State())
      ensures old(initialized) && old(queue) != [] ==>
                taken == 0 && packet == Some(old(queue)[0]) && State() == old(State()).(queue := old(queue)[1..])
      ensures old(initialized) && old(queue) == [] && depth > 0 ==>
                && (packet.None? ==> taken == |arrivals| && State() == old(State()))
                && (packet.Some? ==> taken > 0 && ValidArrival(arrivals[taken - 1])
                                     && packet == Some(PacketOf(arrivals[taken - 1])) && State() == old(State()))
                && (forall i :: 0 <= i < taken && (packet.None? || i < taken - 1) ==> !ValidArrival(arrivals[i]))
    {
      taken := 0;
      if !initialized {
        return None, 0;
      }
      while queue == [] && taken < |arrivals|
        invariant taken <= |arrivals| && initialized && depth == old(depth)
        invariant old(queue) != [] ==> taken == 0 && State() == old(State())
        invariant old(queue) == [] && depth > 0 && queue == [] ==>
                    State() == old(State()) && forall i :: 0 <= i < taken ==> !ValidArrival(arrivals[i])
        invariant old(queue) == [] && depth > 0 && queue != [] ==>
                    && taken > 0 && ValidArrival(arrivals[taken - 1]) && queue == [PacketOf(arrivals[taken - 1])]
                    && dropped == old(dropped) && forall i :: 0 <= i < taken - 1 ==> !ValidArrival(arrivals[i])
      {
        OnDataReceived(arrivals[taken]);
        taken := taken + 1;
      }
      if queue == [] {
        return None, taken;
      }
      packet := Some(queue[0]);
      queue := queue[1..];
    }

    method ClearQueues()
      modifies this
      ensures State() == old(State()).(queue := [])
    {
      queue := [];
    }

    method ResetStatistics()
      modifies this
      ensures State() == old(State()).(dropped := 0)
    {
      dropped := 0;
    }
  }
}
