/** The receiver: what one radio packet makes it do. */
module Application {
  import opened Options
  import opened RemoteProtocol
  import opened CanCommandRouter
  import opened EspNowDriver
  import opened EspNowCanGateway
  import opened RequestCache
  import opened Timer
  import Mcp = Mcp2515

  function MapAckStatus(r: ProcessResult): AcknowledgementStatus {
    match r
    case ProcessOk => AckCanTransmitted
    case InvalidMessage => AckInvalidMessage
    case UnsupportedMessage => AckUnsupportedMessage
    case ProcessUnknownCommand => AckUnknownCommand
    case ProcessInvalidPayloadLength => AckInvalidPayloadLength
    case ProcessInvalidPayloadValue => AckInvalidPayloadValue
    case CanBusy => AckCanBusy
    case CanTimeout => AckCanTimeout
    case CanTransmitFailed => AckCanTransmitFailed
  }

  predicate WantsAck(m: Message) {
    m.flags & FLAG_ACK_REQUESTED != 0 && m.flags & FLAG_IS_RESPONSE == 0
  }

  function AckMessage(request: Message, status: AcknowledgementStatus): Message {
    Message(ACKNOWLEDGEMENT, FLAG_IS_RESPONSE, request.sequenceNumber, request.messageId, 1,
            [StatusByte(status)] + seq(63, _ => 0))
  }

  lemma AckIsEncodable(request: Message, status: AcknowledgementStatus)
    ensures Encodable(AckMessage(request, status))
  {
  }

  function AckPacket(request: Message, status: AcknowledgementStatus): seq<bv8> {
    AckIsEncodable(request, status);
    Packet(AckMessage(request, status))
  }

  /** An acknowledgement handed to the radio. */
  datatype Ack = Ack(destination: Mac, packet: seq<bv8>)

  // ----- one packet, given what the outside world answers -----

  datatype State = State(peer: Mac, gateway: GatewayState, slots: seq<CachedRequest>, next: nat)

  /** What the receiver cannot know beforehand: the timer readings of the lookup and of the
      insertion, and what the transmit callback would answer. */
  datatype World = World(at: seq<int>, cachedAt: int, answer: TransmitResult)

  /** An execution as the cache remembers it, with the packet and everything observed. */
  datatype Execution = Execution(
    source: Mac,
    data: seq<bv8>,
    status: AcknowledgementStatus,
    at: seq<int>,
    cachedAt: int,
    handed: Option<CanFrame>,
    answer: TransmitResult)

  datatype Effect = Effect(
    state: State,
    acks: seq<Ack>,
    frames: seq<CanFrame>,
    executed: seq<Execution>)

  predicate WellShaped(s: State) {
    |s.slots| == REQUEST_CACHE_SIZE && s.next < REQUEST_CACHE_SIZE
  }

  function Given<T>(x: Option<T>): seq<T> {
    if x.Some? then [x.value] else []
  }

  ghost function Step(s: State, p: ReceivedPacket, w: World): Effect
    requires WellShaped(s) && |w.at| == REQUEST_CACHE_SIZE
  {
    if p.source != s.peer then Effect(s, [], [], [])
    else match Parse(p.data)
      case Rejected(_) => Effect(s, [], [], [])
      case Accepted(m) =>
        if !WantsAck(m) then
          var done := Process(s.gateway, m, w.answer);
          Effect(s.(gateway := done.state), [], Given(done.handed), [])
        else Serve(s, p, m, w)
  }

  /** A packet that wants an acknowledgement: replayed if a live slot knows it. */
  ghost function Serve(s: State, p: ReceivedPacket, m: Message, w: World): Effect
    requires WellShaped(s) && |w.at| == REQUEST_CACHE_SIZE
    requires m.payloadLength as nat <= RemoteProtocol.MAX_PAYLOAD_SIZE
  {
    var hit := FirstHit(s.slots, p.source, m.sequenceNumber, w.at, 0);
    var swept := AfterLookup(s.slots, w.at, hit);
    if hit.Some? then Replay(s.(slots := swept), p, m, swept[hit.value])
    else Execute(s.(slots := swept), p, m, w)
  }

  ghost function Replay(s: State, p: ReceivedPacket, m: Message, cached: CachedRequest): Effect
    requires m.payloadLength as nat <= RemoteProtocol.MAX_PAYLOAD_SIZE
  {
    var status := if IsSameRequest(cached, m) then cached.status else AckInvalidMessage;
    Effect(s, [Ack(p.source, AckPacket(m, status))], [], [])
  }

  /** What is remembered of an execution. */
  ghost function ExecutionOf(g: GatewayState, p: ReceivedPacket, m: Message, w: World): Execution {
    var done := Process(g, m, w.answer);
    Execution(p.source, p.data, MapAckStatus(done.result), w.at, w.cachedAt, done.handed, w.answer)
  }

  ghost function Execute(s: State, p: ReceivedPacket, m: Message, w: World): Effect
    requires WellShaped(s) && m.payloadLength as nat <= RemoteProtocol.MAX_PAYLOAD_SIZE
  {
    var done, x := Process(s.gateway, m, w.answer), ExecutionOf(s.gateway, p, m, w);
    Effect(s.(gateway := done.state,
              slots := s.slots[s.next := EntryFor(p.source, m, x.status, w.cachedAt)],
              next := (s.next + 1) % REQUEST_CACHE_SIZE),
           [Ack(p.source, AckPacket(m, x.status))],
           Given(done.handed),
           [x])
  }

  /** The readings belong to one packet: none before from, none after to, none backwards. */
  predicate Timely(w: World, from: int, to: int) {
    Readings(w.at, from, w.cachedAt) && from <= w.cachedAt <= to
  }

  lemma AcceptedIsEncodable(data: seq<bv8>)
    ensures Parse(data).Accepted? ==> Parse(data).message.payloadLength as nat <= RemoteProtocol.MAX_PAYLOAD_SIZE
  {
  }

  lemma NeverRejectedAsOk(data: seq<bv8>)
    ensures Parse(data).Rejected? ==> Parse(data).reason != DecodeOk
  {
  }

  lemma ReadingsLater(at: seq<int>, from: int, to: int, later: int)
    requires Readings(at, from, to) && to <= later
    ensures Readings(at, from, later)
  {
  }

  // ----- the receiver itself -----

  class Receiver {
    const peer: Mac
    const gateway: Gateway
    const cache: Cache
    ghost var sent: seq<Ack>

    ghost predicate Valid()
      reads cache, if gateway.manager == null then {} else {gateway.manager.driver.chip}
    {
      && cache.Valid()
      && (gateway.manager != null ==>
            && gateway.manager.driver.chip.Valid()
            && gateway.manager.driver.chip.clock == cache.clock)
    }

    ghost function Footprint(): set<object>
      reads cache
    {
      {this, gateway, cache, cache.slots, cache.clock}
      + if gateway.manager == null then {} else {gateway.manager.driver.chip}
    }

    ghost function Current(): State
      reads gateway, cache, cache.slots
      requires cache.Valid()
    {
      State(peer, gateway.State(), cache.slots[..], cache.next)
    }

    ghost function Trace(): seq<Mcp.Transfer>
      reads if gateway.manager == null then {} else {gateway.manager.driver.chip}
    {
      TraceOf(gateway.manager)
    }

    ghost function Endings(): seq<Mcp.Ended>
      reads if gateway.manager == null then {} else {gateway.manager.driver.chip}
    {
      EndingsOf(gateway.manager)
    }

    /** What happened on the bus of the CAN controller: nothing without a frame, and with one
        the transmission of exactly it, truly answered. */
    ghost predicate OnTheBus(frames: seq<CanFrame>, answer: TransmitResult,
                             trace: seq<Mcp.Transfer>, endings: seq<Mcp.Ended>)
      reads if gateway.manager == null then {} else {gateway.manager, gateway.manager.driver.chip}
    {
      && |frames| <= 1
      && if frames == [] then Trace() == trace
         else Transmission(gateway.manager, frames[0], answer, trace, endings)
    }

    constructor (peer: Mac, gateway: Gateway, cache: Cache)
      ensures this.peer == peer && this.gateway == gateway && this.cache == cache && sent == []
    {
      this.peer := peer;
      this.gateway := gateway;
      this.cache := cache;
      sent := [];
    }

    /** Handles one packet exactly as Step says, in a world whose timer readings lie within
        the call. */
    method ProcessReceivedPacket(p: ReceivedPacket) returns (ghost w: World)
      requires Valid()
      modifies Footprint()
      ensures Valid() && cache.slots == old(cache.slots)
      ensures old(Endings()) <= Endings()
      ensures Timely(w, old(cache.clock.now), cache.clock.now)
      ensures var effect := Step(old(Current()), p, w);
              && Current() == effect.state
              && sent == old(sent) + effect.acks
              && gateway.handed == old(gateway.handed) + effect.frames
              && OnTheBus(effect.frames, w.answer, old(Trace()), old(Endings()))
    {
      ghost var start := cache.clock.now;
      w := World(seq(REQUEST_CACHE_SIZE, _ => start), start, TransmitFailed);
      if p.source != peer {
        return;
      }
      var parsed := DecodePacket(p.data);
      if parsed.Rejected? {
        return;
      }
      var message := parsed.message;
      AcceptedIsEncodable(p.data);
      hide Parse;
      hide Process;
      hide Serve;
      if !WantsAck(message) {
        w := Handle(message, w);
      } else {
        w := HandleRequest(p, message);
      }
    }

    /** The part that looks for a duplicate first. */
    method HandleRequest(p: ReceivedPacket, message: Message) returns (ghost w: World)
      requires Valid() && message.payloadLength as nat <= RemoteProtocol.MAX_PAYLOAD_SIZE
      modifies Footprint()
      ensures Valid() && cache.slots == old(cache.slots)
      ensures old(Endings()) <= Endings()
      ensures Timely(w, old(cache.clock.now), cache.clock.now)
      ensures var effect := Serve(old(Current()), p, message, w);
              && Current() == effect.state
              && sent == old(sent) + effect.acks
              && gateway.handed == old(gateway.handed) + effect.frames
              && OnTheBus(effect.frames, w.answer, old(Trace()), old(Endings()))
    {
      hide IsSameRequest;
      hide AckPacket;
      hide FirstHit;
      hide Execute;
      hide Process;
      ghost var before := Current();
      var hit;
      ghost var at;
      hit, at := cache.Find(p.source, message.sequenceNumber);
      w := World(at, cache.clock.now, TransmitFailed);
      assert Current() == before.(slots := AfterLookup(before.slots, at, hit));
      if hit.Some? {
        var cached := cache.slots[hit.value];
        assert cached == AfterLookup(before.slots, at, hit)[hit.value];
        var status := if IsSameRequest(cached, message) then cached.status else AckInvalidMessage;
        SendAcknowledgement(p.source, message, status);
        return;
      }
      ghost var found := cache.clock.now;
      w := HandleAndCache(p, message, w);
      ReadingsLater(at, old(cache.clock.now), found, w.cachedAt);
    }

    method DecodePacket(data: seq<bv8>) returns (parsed: Parsed)
      ensures parsed == Parse(data)
    {
      var buffer := new bv8[|data|](i requires 0 <= i < |data| => data[i]);
      assert buffer[..|data|] == data;
      var empty := Message(COMMAND, 0, 0, 0, 0, seq(64, _ => 0));
      hide Parse;
      var result, message := Decode(buffer, |data|, empty);
      parsed := if result == DecodeOk then Accepted(message) else Rejected(result);
      NeverRejectedAsOk(data);
    }

    /** A message whose sender wants no acknowledgement: processed, not remembered. */
    method Handle(message: Message, ghost before: World) returns (ghost w: World)
      requires Valid()
      modifies Footprint() - {this, cache, cache.slots}
      ensures Valid() && cache.clock.now >= old(cache.clock.now)
      ensures old(Endings()) <= Endings()
      ensures w.at == before.at && w.cachedAt == before.cachedAt
      ensures var done := Process(old(gateway.State()), message, w.answer);
              && gateway.State() == done.state
              && gateway.handed == old(gateway.handed) + Given(done.handed)
              && OnTheBus(Given(done.handed), w.answer, old(Trace()), old(Endings()))
    {
      hide Process;
      ghost var answer;
      var result;
      result, answer := gateway.ProcessMessage(message);
      w := before.(answer := answer);
    }

    /** A request that is not a live duplicate: processed, remembered, and acknowledged with
        its outcome. */
    method HandleAndCache(p: ReceivedPacket, message: Message, ghost before: World) returns (ghost w: World)
      requires Valid() && message.payloadLength as nat <= RemoteProtocol.MAX_PAYLOAD_SIZE
      modifies Footprint()
      ensures Valid() && cache.slots == old(cache.slots) && old(cache.clock.now) <= w.cachedAt <= cache.clock.now
      ensures old(Endings()) <= Endings()
      ensures w.at == before.at
      ensures var effect := Execute(old(Current()), p, message, w);
              && Current() == effect.state
              && sent == old(sent) + effect.acks
              && gateway.handed == old(gateway.handed) + effect.frames
              && OnTheBus(effect.frames, w.answer, old(Trace()), old(Endings()))
    {
      hide Process;
      hide AckPacket;
      hide EntryFor;
      ghost var answer;
      var result;
      result, answer := gateway.ProcessMessage(message);
      var status := MapAckStatus(result);
      cache.Insert(p.source, message, status);
      w := before.(answer := answer, cachedAt := cache.clock.now);
      SendAcknowledgement(p.source, message, status);
    }

    /** Encoding an acknowledgement never fails, so exactly one goes to the radio. */
    method SendAcknowledgement(destination: Mac, request: Message, status: AcknowledgementStatus)
      modifies this`sent
      ensures sent == old(sent) + [Ack(destination, AckPacket(request, status))]
    {
      var acknowledgement := AckMessage(request, status);
      AckIsEncodable(request, status);
      var packet := new bv8[MAX_PACKET_SIZE](_ => 0);
      var result, packetLength := Encode(acknowledgement, packet, packet.Length);
      assert result == EncodeOk;
      sent := sent + [Ack(destination, packet[..packetLength])];
    }
  }
}
