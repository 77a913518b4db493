/** What a peer and a bus can rely on, for every run of the receiver. A run is a sequence of
    packets with the timer readings and answers each met; statements about its last packet
    hold for every packet, because every prefix of a run is a run. */
module ReceiverTheorems {
  import opened Options
  import opened Crc
  import opened RemoteProtocol
  import opened CanCommandRouter
  import opened VehicleCanProtocol
  import opened EspNowDriver
  import opened EspNowCanGateway
  import opened RequestCache
  import opened Application
  import opened ReceiverRuns

  // ----- acknowledgements, byte by byte -----

  /** The code of each status. */
  lemma StatusBytes()
    ensures StatusByte(AckCanTransmitted) == 0 && StatusByte(AckInvalidMessage) == 1
    ensures StatusByte(AckUnsupportedMessage) == 2 && StatusByte(AckCanBusy) == 3
    ensures StatusByte(AckCanTransmitFailed) == 4 && StatusByte(AckCanTimeout) == 5
    ensures StatusByte(AckUnknownCommand) == 6 && StatusByte(AckInvalidPayloadLength) == 7
    ensures StatusByte(AckInvalidPayloadValue) == 8
  {
  }

  lemma StatusByteInjective(a: AcknowledgementStatus, b: AcknowledgementStatus)
    ensures StatusByte(a) == StatusByte(b) <==> a == b
    ensures StatusByte(a) <= 8
  {
  }

  /** An acknowledgement decodes to an acknowledgement that is a response, for the request's
      sequence number and message id, with the status code as its only payload byte. */
  lemma AckDecodes(request: Message, status: AcknowledgementStatus)
    ensures Parse(AckPacket(request, status)).Accepted?
    ensures var m := Parse(AckPacket(request, status)).message;
            && m.mtype == 3 && m.flags == 2
            && m.sequenceNumber == request.sequenceNumber && m.messageId == request.messageId
            && m.payloadLength == 1 && m.payload == [StatusByte(status)] + seq(63, _ => 0)
  {
    AckIsEncodable(request, status);
    DecodeEncode(AckMessage(request, status));
    var m := AckMessage(request, status);
    assert m.payload[..1] + seq(63, _ => 0) == m.payload;
  }

  /** The answer to a packet with this code: the packet's own sequence number and message id
      bytes between fixed ones, and a check word. */
  function Reply(data: seq<bv8>, code: bv8): seq<bv8>
    requires |data| >= 12
  {
    var body := [0x52, 0x43, 1, 3, 2, data[5], data[6], data[7], data[8], 1, code];
    body + [(Crc16(body) & 0xFF) as bv8, (Crc16(body) >> 8) as bv8]
  }

  lemma AckBody(m: Message, status: AcknowledgementStatus)
    ensures AckMessage(m, status).payloadLength as nat <= RemoteProtocol.MAX_PAYLOAD_SIZE
    ensures Body(AckMessage(m, status))
         == [0x52, 0x43, 1, 3, 2, Low(m.sequenceNumber), High(m.sequenceNumber), Low(m.messageId), High(m.messageId),
             1, StatusByte(status)]
  {
    hide Low;
    hide High;
    hide StatusByte;
    var a := AckMessage(m, status);
    assert a.payload[..1] == [StatusByte(status)];
  }

  lemma WordBytes(data: seq<bv8>)
    requires Parse(data).Accepted?
    ensures |data| >= 12
    ensures var m := Parse(data).message;
            && Low(m.sequenceNumber) == data[5] && High(m.sequenceNumber) == data[6]
            && Low(m.messageId) == data[7] && High(m.messageId) == data[8]
  {
    hide Parse;
    hide Join;
    hide Low;
    hide High;
    hide Encodable;
    AcceptedFields(data);
    SplitJoin(data[5], data[6]);
    SplitJoin(data[7], data[8]);
  }

  /** What is sent in answer to a packet. */
  lemma AckIsReply(data: seq<bv8>, status: AcknowledgementStatus)
    requires Parse(data).Accepted?
    ensures |data| >= 12 && AckPacket(Parse(data).message, status) == Reply(data, StatusByte(status))
  {
    hide Parse;
    hide Crc16;
    hide Body;
    hide AckMessage;
    hide StatusByte;
    var m := Parse(data).message;
    WordBytes(data);
    AckBody(m, status);
    LowByte(Crc16(Body(AckMessage(m, status))));
    hide Low;
    hide High;
  }

  lemma RepliesDiffer(data: seq<bv8>, a: bv8, b: bv8)
    requires |data| >= 12 && Reply(data, a) == Reply(data, b)
    ensures a == b
  {
    hide Crc16;
    assert Reply(data, a)[10] == Reply(data, b)[10];
  }

  // ----- one acknowledgement, no loops -----

  /** A packet that is to be acknowledged: it comes from the peer, is intact, and has the flag
      that asks for it set and the flag of a response clear. */
  predicate Answered(s: State, p: ReceivedPacket) {
    p.source == s.peer && Intact(p.data) && p.data[4] & 0x01 != 0 && p.data[4] & 0x02 == 0
  }

  lemma AnsweredIff(s: State, p: ReceivedPacket)
    ensures Answered(s, p) <==>
              p.source == s.peer && Parse(p.data).Accepted? && WantsAck(Parse(p.data).message)
  {
    AcceptedIff(p.data);
    if Parse(p.data).Accepted? {
      AcceptedSays(p.data);
    }
    hide Parse;
    hide Crc16;
  }

  /** A packet is acknowledged exactly once if it is to be, to its sender, with its sequence
      number and message id; otherwise not at all, and the cache stays as it is. And it puts at
      most one frame on the bus. */
  lemma OneAcknowledgement(s: State, p: ReceivedPacket, w: World)
    requires WellShaped(s) && |w.at| == REQUEST_CACHE_SIZE
    ensures var e := Step(s, p, w);
            && |e.acks| == (if Answered(s, p) then 1 else 0) && |e.frames| <= 1
            && (Answered(s, p) ==> Acknowledges(e.acks[0], p))
            && (!Answered(s, p) ==> e.executed == [] && e.state.slots == s.slots && e.state.next == s.next)
  {
    AnsweredIff(s, p);
    hide Answered;
    hide Parse;
    hide WantsAck;
    hide AckPacket;
    hide Acknowledges;
    hide IsSameRequest;
    hide FirstHit;
    hide AfterLookup;
    hide Process;
    if Answered(s, p) {
      ServeAcknowledges(s, p, Parse(p.data).message, w);
    }
  }

  lemma ServeAcknowledges(s: State, p: ReceivedPacket, m: Message, w: World)
    requires WellShaped(s) && |w.at| == REQUEST_CACHE_SIZE
    requires Parse(p.data) == Accepted(m)
    ensures m.payloadLength as nat <= RemoteProtocol.MAX_PAYLOAD_SIZE
    ensures var e := Serve(s, p, m, w); |e.acks| == 1 && |e.frames| <= 1 && Acknowledges(e.acks[0], p)
  {
    AcceptedIsEncodable(p.data);
    hide Parse;
    hide AckPacket;
    hide IsSameRequest;
    hide FirstHit;
    hide AfterLookup;
    hide Process;
    hide Acknowledges;
    forall status { AckAcknowledges(p, status); }
  }

  lemma AckAcknowledges(p: ReceivedPacket, status: AcknowledgementStatus)
    requires Parse(p.data).Accepted?
    ensures Acknowledges(Ack(p.source, AckPacket(Parse(p.data).message, status)), p)
  {
    hide Parse;
    hide AckPacket;
    hide Reply;
    hide StatusByte;
    AckIsReply(p.data, status);
    StatusByteInjective(status, status);
  }

  /** The packets of a run that are acknowledged. */
  function AnsweredPackets(s: State, ticks: seq<Tick>): seq<ReceivedPacket> {
    if ticks == [] then []
    else
      var p := ticks[|ticks| - 1].packet;
      AnsweredPackets(s, ticks[..|ticks| - 1]) + if Answered(s, p) then [p] else []
  }

  ghost predicate Acknowledges(a: Ack, p: ReceivedPacket) {
    a.destination == p.source && |p.data| >= 12 && exists code :: code <= 8 && a.packet == Reply(p.data, code)
  }

  lemma LastAcks(s: State, start: int, ticks: seq<Tick>)
    requires Fresh(s) && TimelyRun(start, ticks) && ticks != []
    ensures TimelyRun(start, ticks[..|ticks| - 1])
    ensures var was, now, p := Run(s, start, ticks[..|ticks| - 1]), Run(s, start, ticks), ticks[|ticks| - 1].packet;
            && now.acks[..|was.acks|] == was.acks <= now.acks
            && |now.acks| == |was.acks| + (if Answered(s, p) then 1 else 0)
            && (Answered(s, p) ==> Acknowledges(now.acks[|was.acks|], p))
  {
    var before, last := ticks[..|ticks| - 1], ticks[|ticks| - 1];
    RingRefinesLog(s, start, before);
    OneAcknowledgement(Run(s, start, before).state, last.packet, last.world);
    hide Step;
    hide Answered;
    hide Acknowledges;
    hide Faithful;
    AnsweredByPeer(s, Run(s, start, before).state, last.packet);
  }

  lemma AnsweredByPeer(s: State, t: State, p: ReceivedPacket)
    requires s.peer == t.peer
    ensures Answered(s, p) <==> Answered(t, p)
  {
  }

  /** One acknowledgement for each packet, in order. */
  ghost predicate InOrder(acks: seq<Ack>, asked: seq<ReceivedPacket>) {
    |acks| == |asked| && forall i :: 0 <= i < |acks| ==> Acknowledges(acks[i], asked[i])
  }

  lemma InOrderNext(acks: seq<Ack>, asked: seq<ReceivedPacket>, now: seq<Ack>, p: ReceivedPacket)
    requires InOrder(acks, asked) && |now| == |acks| + 1 && now[..|acks|] == acks && Acknowledges(now[|acks|], p)
    ensures InOrder(now, asked + [p])
  {
    hide Acknowledges;
    assert forall i :: 0 <= i < |acks| ==> now[i] == acks[i];
  }

  /** Over every run: exactly one acknowledgement for each packet that is to be acknowledged,
      in the order of the packets, and no other. */
  lemma {:induction false} OneAcknowledgementEach(s: State, start: int, ticks: seq<Tick>)
    requires Fresh(s) && TimelyRun(start, ticks)
    ensures InOrder(Run(s, start, ticks).acks, AnsweredPackets(s, ticks))
    decreases |ticks|
  {
    if ticks == [] {
      assert Run(s, start, ticks).acks == [];
    } else {
      var before, last := ticks[..|ticks| - 1], ticks[|ticks| - 1];
      OneAcknowledgementEach(s, start, before);
      hide Run;
      hide Answered;
      hide Acknowledges;
      hide InOrder;
      LastAcks(s, start, ticks);
      var was, now, asked := Run(s, start, before).acks, Run(s, start, ticks).acks, AnsweredPackets(s, before);
      if Answered(s, last.packet) {
        InOrderNext(was, asked, now, last.packet);
      } else {
        assert now == was && asked + [] == asked;
      }
    }
  }

  /** An acknowledgement that comes back is not acknowledged, not put on the bus, and not
      remembered. */
  lemma NoAcknowledgementLoop(s: State, p: ReceivedPacket, w: World, request: Message, status: AcknowledgementStatus)
    requires WellShaped(s) && |w.at| == REQUEST_CACHE_SIZE && p.data == AckPacket(request, status)
    ensures var e := Step(s, p, w);
            e.acks == [] && e.frames == [] && e.executed == [] && e.state.slots == s.slots && e.state.next == s.next
  {
    AckDecodes(request, status);
    hide AckPacket;
    hide Parse;
    hide Route;
    var m := Parse(p.data).message;
    assert !WantsAck(m) && !Processable(m);
  }

  // ----- replays -----

  lemma LastStep(s: State, start: int, ticks: seq<Tick>)
    requires Fresh(s) && TimelyRun(start, ticks) && ticks != []
    ensures var before, last := ticks[..|ticks| - 1], ticks[|ticks| - 1];
            && TimelyRun(start, before)
            && Seen(Run(s, start, ticks)) == LogStep(s.peer, Seen(Run(s, start, before)), last.packet, last.world)
  {
    RingRefinesLog(s, start, ticks);
    RingRefinesLog(s, start, ticks[..|ticks| - 1]);
    hide LogStep;
    hide Faithful;
  }

  /** The log a run's last packet met. */
  ghost function LogBefore(s: State, start: int, ticks: seq<Tick>): seq<Execution>
    requires Fresh(s) && TimelyRun(start, ticks) && ticks != []
  {
    Run(s, start, ticks[..|ticks| - 1]).log
  }

  /** Execution i of the log still answers for the last packet's sequence number: it is one of
      the last 16, of a packet from the same sender with the same sequence number bytes, and no
      more than 5,000,000 us old when its slot is looked at. */
  predicate AnswersFor(log: seq<Execution>, i: nat, last: Tick) {
    var p, at := last.packet, last.world.at;
    && i < |log| <= i + 16 && |at| == 16 && |p.data| >= 12 && |log[i].data| >= 12
    && log[i].source == p.source && log[i].data[5] == p.data[5] && log[i].data[6] == p.data[6]
    && at[i % 16] - log[i].cachedAt <= 5_000_000
  }

  ghost predicate NoneAnswers(log: seq<Execution>, last: Tick) {
    forall i: nat :: !AnswersFor(log, i, last)
  }

  /** The same, as the receiver with a log puts it. */
  lemma AnswersForIff(s: State, start: int, ticks: seq<Tick>, i: nat)
    requires Fresh(s) && TimelyRun(start, ticks) && ticks != [] && Answered(s, ticks[|ticks| - 1].packet)
    ensures var log, last := LogBefore(s, start, ticks), ticks[|ticks| - 1];
            AnswersFor(log, i, last) <==> Live(log, i, s.peer, SequenceOf(last.packet.data), last.world.at)
  {
    hide Run;
    hide Parse;
    hide SequenceOf;
    hide Answered;
    var log, last := LogBefore(s, start, ticks), ticks[|ticks| - 1];
    RingRefinesLog(s, start, ticks[..|ticks| - 1]);
    AnsweredIff(s, last.packet);
    if i < |log| {
      assert SoundEntry(log[i]);
      SameSequenceIff(log[i].data, last.packet.data);
    }
  }

  /** The last packet is not to be acknowledged: no acknowledgement, no execution, and the cache
      is as it was. */
  lemma OthersAreNotAnswered(s: State, start: int, ticks: seq<Tick>)
    requires Fresh(s) && TimelyRun(start, ticks) && ticks != [] && !Answered(s, ticks[|ticks| - 1].packet)
    ensures TimelyRun(start, ticks[..|ticks| - 1])
    ensures var was, now := Run(s, start, ticks[..|ticks| - 1]), Run(s, start, ticks);
            && now.acks == was.acks && now.log == was.log
            && now.state.slots == was.state.slots && now.state.next == was.state.next
  {
    var before, last := ticks[..|ticks| - 1], ticks[|ticks| - 1];
    RingRefinesLog(s, start, before);
    OneAcknowledgement(Run(s, start, before).state, last.packet, last.world);
    hide Step;
    hide Answered;
    hide Faithful;
  }

  /** A duplicate, at any point of any run: if an execution still answers for the packet's
      sequence number, the packet is answered from the record of that execution, with the
      recorded status if it is the very same packet and with InvalidMessage if it is not;
      nothing reaches the bus and nothing is executed. A recorded status is never
      InvalidMessage, so that answer means a sequence number reused for another packet. */
  lemma ReplayIsExact(s: State, start: int, ticks: seq<Tick>, i: nat)
    requires Fresh(s) && TimelyRun(start, ticks) && ticks != [] && Answered(s, ticks[|ticks| - 1].packet)
    requires AnswersFor(LogBefore(s, start, ticks), i, ticks[|ticks| - 1])
    ensures var was, now, p := Run(s, start, ticks[..|ticks| - 1]), Run(s, start, ticks), ticks[|ticks| - 1].packet;
            var x := was.log[i];
            && now.log == was.log && now.frames == was.frames && now.state.gateway == was.state.gateway
            && now.acks == was.acks
                 + [Ack(s.peer, Reply(p.data, if p.data == x.data then StatusByte(x.status) else 1))]
            && x.status != AckInvalidMessage
  {
    var before, last := ticks[..|ticks| - 1], ticks[|ticks| - 1];
    hide *;
    AnswersForIff(s, start, ticks, i);
    AnsweredSize(s, last.packet);
    StatusBytes();
    LogBeforeIs(s, start, ticks);
    LastStep(s, start, ticks);
    AnsweredParts(s, last.packet);
    var was, now, m := Run(s, start, before), Run(s, start, ticks), Parse(last.packet.data).message;
    SeenParts(was);
    SeenParts(now);
    LiveAtLast(s, start, ticks, i);
    HitStep(s.peer, Seen(was), last.packet, m, last.world, i);
    AckIsReply(last.packet.data, if last.packet.data == was.log[i].data then was.log[i].status else AckInvalidMessage);
  }

  lemma LogBeforeIs(s: State, start: int, ticks: seq<Tick>)
    requires Fresh(s) && TimelyRun(start, ticks) && ticks != []
    ensures TimelyRun(start, ticks[..|ticks| - 1])
    ensures LogBefore(s, start, ticks) == Run(s, start, ticks[..|ticks| - 1]).log
  {
    hide Run;
  }

  lemma AnsweredSize(s: State, p: ReceivedPacket)
    requires Answered(s, p)
    ensures |p.data| >= 12
  {
    hide Crc16;
  }

  /** A live execution is the one the lookup finds, and its record is sound. */
  lemma LiveAtLast(s: State, start: int, ticks: seq<Tick>, i: nat)
    requires Fresh(s) && TimelyRun(start, ticks) && ticks != []
    requires var before, last := ticks[..|ticks| - 1], ticks[|ticks| - 1];
             Live(Run(s, start, before).log, i, s.peer, SequenceOf(last.packet.data), last.world.at)
    ensures var log, last := Run(s, start, ticks[..|ticks| - 1]).log, ticks[|ticks| - 1];
            && i < |log| && log[i].status != AckInvalidMessage
            && LiveEntry(log, s.peer, SequenceOf(last.packet.data), last.world.at) == Some(i)
  {
    hide Run;
    hide SequenceOf;
    hide Parse;
    var before, last := ticks[..|ticks| - 1], ticks[|ticks| - 1];
    var was, now, seqNo := Run(s, start, before), Now(start, before), SequenceOf(last.packet.data);
    RingRefinesLog(s, start, before);
    FaithfulParts(was, now);
    assert SoundEntry(was.log[i]);
    var live := LiveEntry(was.log, s.peer, seqNo, last.world.at);
    LiveIsUnique(was.log, i, live.value, s.peer, seqNo, last.world.at, now);
  }

  lemma HitStep(peer: Mac, h: History, p: ReceivedPacket, m: Message, w: World, i: nat)
    requires p.source == peer && Parse(p.data) == Accepted(m) && WantsAck(m)
    requires LiveEntry(h.log, peer, m.sequenceNumber, w.at) == Some(i) && i < |h.log|
    ensures var status := if p.data == h.log[i].data then h.log[i].status else AckInvalidMessage;
            LogStep(peer, h, p, w) == h.(acks := h.acks + [Ack(peer, AckPacket(m, status))])
  {
    hide Parse;
    hide LiveEntry;
    hide AckPacket;
    hide Process;
    hide ExecutionOf;
  }

  /** A request for whose sequence number no execution answers is executed: processed by the
      gateway, logged, and acknowledged with what came of it, which is never InvalidMessage. */
  lemma MissIsExecuted(s: State, start: int, ticks: seq<Tick>)
    requires Fresh(s) && TimelyRun(start, ticks) && ticks != [] && Answered(s, ticks[|ticks| - 1].packet)
    requires NoneAnswers(LogBefore(s, start, ticks), ticks[|ticks| - 1])
    ensures TimelyRun(start, ticks[..|ticks| - 1]) && |ticks[|ticks| - 1].packet.data| >= 12
    ensures Parse(ticks[|ticks| - 1].packet.data).Accepted?
    ensures var was, now := Run(s, start, ticks[..|ticks| - 1]), Run(s, start, ticks);
            var p := ticks[|ticks| - 1].packet;
            var done := Process(was.state.gateway, Parse(p.data).message, ticks[|ticks| - 1].world.answer);
            && |now.log| == |was.log| + 1 && now.log[..|was.log|] == was.log
            && now.log[|was.log|].source == p.source && now.log[|was.log|].data == p.data
            && now.log[|was.log|].status == MapAckStatus(done.result) != AckInvalidMessage
            && now.frames == was.frames + Given(done.handed) && now.state.gateway == done.state
            && now.acks == was.acks + [Ack(s.peer, Reply(p.data, StatusByte(MapAckStatus(done.result))))]
  {
    var before, last := ticks[..|ticks| - 1], ticks[|ticks| - 1];
    hide *;
    AnsweredSize(s, last.packet);
    NoneIsLive(s, start, ticks);
    LogBeforeIs(s, start, ticks);
    LastStep(s, start, ticks);
    AnsweredParts(s, last.packet);
    var was, now, m := Run(s, start, before), Run(s, start, ticks), Parse(last.packet.data).message;
    MissStep(s.peer, Seen(was), last.packet, m, last.world);
    SeenParts(was);
    SeenParts(now);
    MissStatus(was.state.gateway, last.packet.data, last.world.answer);
    AckIsReply(last.packet.data, MapAckStatus(Process(was.state.gateway, m, last.world.answer).result));
  }

  lemma NoneIsLive(s: State, start: int, ticks: seq<Tick>)
    requires Fresh(s) && TimelyRun(start, ticks) && ticks != [] && Answered(s, ticks[|ticks| - 1].packet)
    requires NoneAnswers(LogBefore(s, start, ticks), ticks[|ticks| - 1])
    ensures var log, last := LogBefore(s, start, ticks), ticks[|ticks| - 1];
            forall i: nat :: !Live(log, i, s.peer, SequenceOf(last.packet.data), last.world.at)
  {
    hide AnswersFor;
    hide Live;
    hide LogBefore;
    hide Answered;
    var log, last := LogBefore(s, start, ticks), ticks[|ticks| - 1];
    forall i: nat ensures !Live(log, i, s.peer, SequenceOf(last.packet.data), last.world.at) {
      AnswersForIff(s, start, ticks, i);
      assert !AnswersFor(log, i, last);
    }
  }

  lemma AnsweredParts(s: State, p: ReceivedPacket)
    requires Answered(s, p)
    ensures p.source == s.peer && Parse(p.data).Accepted? && WantsAck(Parse(p.data).message)
    ensures SequenceOf(p.data) == Parse(p.data).message.sequenceNumber
  {
    AnsweredIff(s, p);
    hide Parse;
    hide Answered;
  }

  lemma MissStatus(g: GatewayState, data: seq<bv8>, answer: TransmitResult)
    requires Parse(data).Accepted? && WantsAck(Parse(data).message)
    ensures MapAckStatus(Process(g, Parse(data).message, answer).result) != AckInvalidMessage
  {
    hide Parse;
    RequestIsProcessable(data);
    RecordedStatus(g, Parse(data).message, answer);
  }

  lemma MissStep(peer: Mac, h: History, p: ReceivedPacket, m: Message, w: World)
    requires p.source == peer && Parse(p.data) == Accepted(m) && WantsAck(m)
    requires forall i: nat :: !Live(h.log, i, peer, m.sequenceNumber, w.at)
    ensures var done, next := Process(h.gateway, m, w.answer), LogStep(peer, h, p, w);
            && next == History(done.state, h.log + [ExecutionOf(h.gateway, p, m, w)],
                               h.acks + [Ack(peer, AckPacket(m, MapAckStatus(done.result)))],
                               h.frames + Given(done.handed))
            && next.log[..|h.log|] == h.log
            && next.log[|h.log|].source == p.source && next.log[|h.log|].data == p.data
            && next.log[|h.log|].status == MapAckStatus(done.result)
  {
  }

  // ----- what is executed and what comes of it -----

  lemma LogStepKeepsGateway(peer: Mac, h: History, p: ReceivedPacket, w: World)
    ensures LogStep(peer, h, p, w).gateway.initialized == h.gateway.initialized
    ensures LogStep(peer, h, p, w).gateway.config == h.gateway.config
  {
    hide Process;
    hide Parse;
    hide LiveEntry;
    hide AckPacket;
    hide ExecutionOf;
    forall m { LetsThroughIff(h.gateway, m, w.answer); }
  }

  lemma {:induction false} LogRunKeepsGateway(s: State, ticks: seq<Tick>)
    ensures LogRun(s, ticks).gateway.initialized == s.gateway.initialized
    ensures LogRun(s, ticks).gateway.config == s.gateway.config
  {
    if ticks != [] {
      var before, last := ticks[..|ticks| - 1], ticks[|ticks| - 1];
      LogRunKeepsGateway(s, before);
      LogStepKeepsGateway(s.peer, LogRun(s, before), last.packet, last.world);
      hide LogStep;
    }
  }

  /** No packet changes the gateway's configuration or whether it has one. */
  lemma GatewayStays(s: State, start: int, ticks: seq<Tick>)
    requires Fresh(s) && TimelyRun(start, ticks)
    ensures Run(s, start, ticks).state.gateway.initialized == s.gateway.initialized
    ensures Run(s, start, ticks).state.gateway.config == s.gateway.config
  {
    RingRefinesLog(s, start, ticks);
    LogRunKeepsGateway(s, ticks);
    hide Run;
    hide LogRun;
    hide Faithful;
  }

  /** The run's last packet is processed: it is the peer's, intact and no response, and it
      either wants no acknowledgement or has a sequence number for which no execution answers. */
  ghost predicate Processes(s: State, log: seq<Execution>, last: Tick) {
    var p := last.packet;
    && p.source == s.peer && Intact(p.data) && p.data[4] & 0x02 == 0
    && (p.data[4] & 0x01 == 0 || NoneAnswers(log, last))
  }

  /** The frame routed for a packet, if the gateway would process it and has a route. */
  ghost function FrameAsked(g: GatewayState, data: seq<bv8>): seq<CanFrame>
    requires Parse(data).Accepted?
  {
    var routing := Route(Parse(data).message, g.config.router);
    if g.initialized && routing.Routed? then [routing.frame] else []
  }

  lemma HandedFrame(g: GatewayState, data: seq<bv8>, answer: TransmitResult)
    requires Parse(data).Accepted?
    ensures |data| >= 12
    ensures Given(Process(g, Parse(data).message, answer).handed)
         == if data[4] & 0x02 == 0 then FrameAsked(g, data) else []
  {
    AcceptedIff(data);
    AcceptedSays(data);
    LetsThroughIff(g, Parse(data).message, answer);
    hide Parse;
    hide Process;
    hide Route;
    hide Crc16;
  }

  lemma FramesOfAnswered(s: State, start: int, ticks: seq<Tick>)
    requires Fresh(s) && TimelyRun(start, ticks) && ticks != [] && Answered(s, ticks[|ticks| - 1].packet)
    requires NoneAnswers(LogBefore(s, start, ticks), ticks[|ticks| - 1])
    ensures TimelyRun(start, ticks[..|ticks| - 1]) && Parse(ticks[|ticks| - 1].packet.data).Accepted?
    ensures Run(s, start, ticks).frames
         == Run(s, start, ticks[..|ticks| - 1]).frames + FrameAsked(s.gateway, ticks[|ticks| - 1].packet.data)
  {
    var before, last := ticks[..|ticks| - 1], ticks[|ticks| - 1];
    hide *;
    AnsweredParts(s, last.packet);
    AnsweredBits(s, last.packet);
    MissIsExecuted(s, start, ticks);
    GatewayStays(s, start, before);
    HandedFrame(Run(s, start, before).state.gateway, last.packet.data, last.world.answer);
    SameAsked(Run(s, start, before).state.gateway, s.gateway, last.packet.data);
  }

  lemma SameAsked(g: GatewayState, h: GatewayState, data: seq<bv8>)
    requires Parse(data).Accepted? && g.initialized == h.initialized && g.config == h.config
    ensures FrameAsked(g, data) == FrameAsked(h, data)
  {
  }

  lemma AnsweredBits(s: State, p: ReceivedPacket)
    requires Answered(s, p)
    ensures |p.data| >= 12 && p.data[4] & 0x02 == 0
  {
    hide Crc16;
  }

  lemma OtherStep(s: State, h: History, p: ReceivedPacket, w: World)
    requires !Answered(s, p) && h.gateway.initialized == s.gateway.initialized && h.gateway.config == s.gateway.config
    ensures p.source == s.peer && Intact(p.data) ==> Parse(p.data).Accepted?
    ensures LogStep(s.peer, h, p, w).frames == h.frames +
              if p.source == s.peer && Intact(p.data) && p.data[4] & 0x02 == 0 then FrameAsked(s.gateway, p.data)
              else []
  {
    AnsweredIff(s, p);
    AcceptedIff(p.data);
    if p.source == s.peer && Parse(p.data).Accepted? {
      HandedFrame(h.gateway, p.data, w.answer);
      SameAsked(h.gateway, s.gateway, p.data);
    }
    hide Answered;
    hide WantsAck;
    hide Parse;
    hide Intact;
    hide Process;
    hide FrameAsked;
  }

  lemma FramesOfOther(s: State, start: int, ticks: seq<Tick>)
    requires Fresh(s) && TimelyRun(start, ticks) && ticks != [] && !Answered(s, ticks[|ticks| - 1].packet)
    ensures TimelyRun(start, ticks[..|ticks| - 1])
    ensures var p := ticks[|ticks| - 1].packet;
            && (p.source == s.peer && Intact(p.data) ==> Parse(p.data).Accepted?)
            && Run(s, start, ticks).frames == Run(s, start, ticks[..|ticks| - 1]).frames +
                 if p.source == s.peer && Intact(p.data) && p.data[4] & 0x02 == 0 then FrameAsked(s.gateway, p.data)
                 else []
  {
    var before, last := ticks[..|ticks| - 1], ticks[|ticks| - 1];
    hide *;
    LogBeforeIs(s, start, ticks);
    GatewayStays(s, start, before);
    LastStep(s, start, ticks);
    SeenParts(Run(s, start, before));
    SeenParts(Run(s, start, ticks));
    OtherStep(s, Seen(Run(s, start, before)), last.packet, last.world);
  }

  /** Which packets put a frame on the bus: the last packet of a run adds to the frames exactly
      the one routed for it if it is processed, and nothing otherwise. */
  lemma FramesIff(s: State, start: int, ticks: seq<Tick>)
    requires Fresh(s) && TimelyRun(start, ticks) && ticks != []
    ensures TimelyRun(start, ticks[..|ticks| - 1])
    ensures var was, now, last := Run(s, start, ticks[..|ticks| - 1]), Run(s, start, ticks), ticks[|ticks| - 1];
            && (Processes(s, was.log, last) ==> Parse(last.packet.data).Accepted?)
            && now.frames == was.frames +
                 if Processes(s, was.log, last) then FrameAsked(s.gateway, last.packet.data) else []
  {
    var before, last := ticks[..|ticks| - 1], ticks[|ticks| - 1];
    var p := last.packet;
    LogBeforeIs(s, start, ticks);
    hide Run;
    hide Intact;
    hide AnswersFor;
    hide FrameAsked;
    hide LogBefore;
    if !Answered(s, p) {
      FramesOfOther(s, start, ticks);
    } else if i: nat :| AnswersFor(LogBefore(s, start, ticks), i, last) {
      ReplayIsExact(s, start, ticks, i);
    } else {
      FramesOfAnswered(s, start, ticks);
    }
  }

  /** The converse of the bus grammar, in bytes: with the shipped tables, at any point of any
      run, for every safe frame a packet of the peer with the bytes that ask for it puts exactly
      that frame on the bus, unless it wants an acknowledgement and an execution answers for its
      sequence number. */
  lemma CommandReaches(s: State, start: int, ticks: seq<Tick>, f: CanFrame, flags: bv8, low: bv8, high: bv8)
    requires Fresh(s) && TimelyRun(start, ticks) && ticks != []
    requires s.gateway.initialized && s.gateway.config.router == MakeCommandRouterConfig()
    requires SafeFrame(f) && 1 <= f.dataLength as nat <= 8 && flags <= 1
    requires ticks[|ticks| - 1].packet.source == s.peer
    requires ticks[|ticks| - 1].packet.data == CommandBytes(f, flags, low, high)
    requires flags == 0 || NoneAnswers(LogBefore(s, start, ticks), ticks[|ticks| - 1])
    ensures TimelyRun(start, ticks[..|ticks| - 1])
    ensures Run(s, start, ticks).frames == Run(s, start, ticks[..|ticks| - 1]).frames + [f]
  {
    hide Run;
    hide SafeFrame;
    hide MakeCommandRouterConfig;
    hide Parse;
    hide Route;
    hide Intact;
    hide NoneAnswers;
    hide CommandBytes;
    CommandIsRouted(f, flags, low, high);
    CommandFlags(f, flags, low, high);
    FramesIff(s, start, ticks);
  }

  lemma CommandFlags(f: CanFrame, flags: bv8, low: bv8, high: bv8)
    requires SafeFrame(f) && 1 <= f.dataLength as nat <= 8 && flags <= 1
    ensures |CommandBytes(f, flags, low, high)| >= 12 && CommandBytes(f, flags, low, high)[4] == flags
    ensures flags & 0x02 == 0 && (flags & 0x01 == 0 <==> flags == 0)
  {
    CommandBytesAt(f, flags, low, high);
    hide CommandBytes;
    hide SafeFrame;
    hide Crc16;
  }

  /** And every safe frame is within reach: the first packet a fresh receiver is given can be
      the one that asks for it. */
  lemma SafeFramesAreReached(s: State, start: int, f: CanFrame, flags: bv8, low: bv8, high: bv8, tick: Tick)
    requires Fresh(s) && Timely(tick.world, start, tick.world.cachedAt)
    requires s.gateway.initialized && s.gateway.config.router == MakeCommandRouterConfig()
    requires SafeFrame(f) && 1 <= f.dataLength as nat <= 8 && flags <= 1
    requires tick.packet.source == s.peer && tick.packet.data == CommandBytes(f, flags, low, high)
    ensures TimelyRun(start, [tick])
    ensures Run(s, start, [tick]).frames == [f]
  {
    hide SafeFrame;
    hide MakeCommandRouterConfig;
    hide CommandBytes;
    hide Extend;
    assert [tick][..0] == [];
    assert TimelyRun(start, []);
    assert Run(s, start, []).log == [] && Run(s, start, []).frames == [];
    CommandReaches(s, start, [tick], f, flags, low, high);
  }

  // ----- what an acknowledgement is worth -----

  /** A run's last packet was answered with this code. */
  ghost predicate LastAnswer(s: State, start: int, ticks: seq<Tick>, code: bv8)
    requires Fresh(s) && TimelyRun(start, ticks) && ticks != []
  {
    var acks, data := Run(s, start, ticks).acks, ticks[|ticks| - 1].packet.data;
    acks != [] && |data| >= 12 && acks[|acks| - 1] == Ack(s.peer, Reply(data, code))
  }

  lemma OneLastAnswer(s: State, start: int, ticks: seq<Tick>, a: bv8, b: bv8)
    requires Fresh(s) && TimelyRun(start, ticks) && ticks != []
    requires LastAnswer(s, start, ticks, a)
    ensures LastAnswer(s, start, ticks, b) <==> a == b
  {
    hide Run;
    hide Reply;
    if LastAnswer(s, start, ticks, b) {
      RepliesDiffer(ticks[|ticks| - 1].packet.data, a, b);
    }
  }

  lemma AnswerToReplay(s: State, start: int, ticks: seq<Tick>, i: nat)
    requires Fresh(s) && TimelyRun(start, ticks) && ticks != [] && Answered(s, ticks[|ticks| - 1].packet)
    requires AnswersFor(LogBefore(s, start, ticks), i, ticks[|ticks| - 1])
    ensures var log := LogBefore(s, start, ticks);
            && i < |log| && Run(s, start, ticks).log == log && log[i].status != AckInvalidMessage
            && LastAnswer(s, start, ticks,
                          if ticks[|ticks| - 1].packet.data == log[i].data then StatusByte(log[i].status) else 1)
  {
    hide Run;
    hide Reply;
    hide Answered;
    hide StatusByte;
    ReplayIsExact(s, start, ticks, i);
  }

  lemma AnswerToMiss(s: State, start: int, ticks: seq<Tick>)
    requires Fresh(s) && TimelyRun(start, ticks) && ticks != [] && Answered(s, ticks[|ticks| - 1].packet)
    requires NoneAnswers(LogBefore(s, start, ticks), ticks[|ticks| - 1])
    ensures var was, log := LogBefore(s, start, ticks), Run(s, start, ticks).log;
            && |log| == |was| + 1 && log[|was|].data == ticks[|ticks| - 1].packet.data
            && log[|was|].status != AckInvalidMessage && LastAnswer(s, start, ticks, StatusByte(log[|was|].status))
  {
    hide Run;
    hide Reply;
    hide Answered;
    hide NoneAnswers;
    hide StatusByte;
    hide Parse;
    hide Process;
    hide MapAckStatus;
    hide Fresh;
    hide TimelyRun;
    MissIsExecuted(s, start, ticks);
  }

  lemma MissAnswer(s: State, start: int, ticks: seq<Tick>) returns (status: AcknowledgementStatus)
    requires Fresh(s) && TimelyRun(start, ticks) && ticks != [] && Answered(s, ticks[|ticks| - 1].packet)
    requires NoneAnswers(LogBefore(s, start, ticks), ticks[|ticks| - 1])
    ensures TimelyRun(start, ticks[..|ticks| - 1])
    ensures Parse(ticks[|ticks| - 1].packet.data).Accepted? && GoodForm(Parse(ticks[|ticks| - 1].packet.data).message)
    ensures var g, last := Run(s, start, ticks[..|ticks| - 1]).state.gateway, ticks[|ticks| - 1];
            status == MapAckStatus(Process(g, Parse(last.packet.data).message, last.world.answer).result)
    ensures forall x :: LastAnswer(s, start, ticks, StatusByte(x)) <==> x == status
  {
    var before, last := ticks[..|ticks| - 1], ticks[|ticks| - 1];
    hide *;
    AnsweredSize(s, last.packet);
    AnsweredParts(s, last.packet);
    RequestIsProcessable(last.packet.data);
    MissIsExecuted(s, start, ticks);
    var g := Run(s, start, before).state.gateway;
    status := MapAckStatus(Process(g, Parse(last.packet.data).message, last.world.answer).result);
    LastAckIs(s, start, ticks, StatusByte(status));
    forall x ensures LastAnswer(s, start, ticks, StatusByte(x)) <==> x == status {
      OneLastAnswer(s, start, ticks, StatusByte(status), StatusByte(x));
      StatusByteInjective(x, status);
    }
  }

  lemma LastAckIs(s: State, start: int, ticks: seq<Tick>, code: bv8)
    requires Fresh(s) && TimelyRun(start, ticks) && ticks != [] && |ticks[|ticks| - 1].packet.data| >= 12
    requires TimelyRun(start, ticks[..|ticks| - 1])
    requires Run(s, start, ticks).acks
          == Run(s, start, ticks[..|ticks| - 1]).acks + [Ack(s.peer, Reply(ticks[|ticks| - 1].packet.data, code))]
    ensures LastAnswer(s, start, ticks, code)
  {
    hide Run;
    hide Reply;
  }

  /** What the answer to an executed request says, code by code: how the transmission of the
      routed frame was answered, or why there was none to transmit. */
  lemma AnswerSaysWhy(s: State, start: int, ticks: seq<Tick>)
    requires Fresh(s) && TimelyRun(start, ticks) && ticks != [] && Answered(s, ticks[|ticks| - 1].packet)
    requires NoneAnswers(LogBefore(s, start, ticks), ticks[|ticks| - 1])
    ensures Parse(ticks[|ticks| - 1].packet.data).Accepted?
    ensures var routing := Route(Parse(ticks[|ticks| - 1].packet.data).message, s.gateway.config.router);
            var on, answer := s.gateway.initialized, ticks[|ticks| - 1].world.answer;
            && (LastAnswer(s, start, ticks, 0) <==> on && routing.Routed? && answer == TransmitOk)
            && !LastAnswer(s, start, ticks, 1)
            && (LastAnswer(s, start, ticks, 2) <==> on && routing == NotRouted(RouteInvalidMessageType))
            && (LastAnswer(s, start, ticks, 3) <==> on && routing.Routed? && answer == TransmitBusy)
            && (LastAnswer(s, start, ticks, 4) <==>
                  !on || !ValidConfig(s.gateway.config.router) || (routing.Routed? && answer == TransmitFailed))
            && (LastAnswer(s, start, ticks, 5) <==> on && routing.Routed? && answer == TransmitTimeout)
            && (LastAnswer(s, start, ticks, 6) <==> on && routing == NotRouted(UnknownCommand))
            && (LastAnswer(s, start, ticks, 7) <==> on && routing == NotRouted(InvalidPayloadLength))
            && (LastAnswer(s, start, ticks, 8) <==> on && routing == NotRouted(InvalidPayloadValue))
  {
    var before, last := ticks[..|ticks| - 1], ticks[|ticks| - 1];
    hide Run;
    hide Fresh;
    hide TimelyRun;
    hide NoneAnswers;
    hide LastAnswer;
    hide Answered;
    hide Parse;
    hide Process;
    hide MapAckStatus;
    hide StatusByte;
    hide Route;
    hide ValidConfig;
    var status := MissAnswer(s, start, ticks);
    var m := Parse(last.packet.data).message;
    GatewayStays(s, start, before);
    RecordedStatus(Run(s, start, before).state.gateway, m, last.world.answer);
    StatusBytes();
  }

  /** A request is answered with code 1, InvalidMessage, exactly when its sequence number is
      still taken by a different packet. */
  lemma InvalidMessageIffCollision(s: State, start: int, ticks: seq<Tick>)
    requires Fresh(s) && TimelyRun(start, ticks) && ticks != [] && Answered(s, ticks[|ticks| - 1].packet)
    ensures LastAnswer(s, start, ticks, 1) <==>
            var log, last := LogBefore(s, start, ticks), ticks[|ticks| - 1];
            exists i: nat :: AnswersFor(log, i, last) && log[i].data != last.packet.data
  {
    var log, last := LogBefore(s, start, ticks), ticks[|ticks| - 1];
    hide Run;
    hide LogBefore;
    hide LastAnswer;
    hide Answered;
    StatusBytes();
    if i: nat :| AnswersFor(log, i, last) && log[i].data != last.packet.data {
      AnswerToReplay(s, start, ticks, i);
    } else if i: nat :| AnswersFor(log, i, last) {
      AnswerToReplay(s, start, ticks, i);
      OneLastAnswer(s, start, ticks, StatusByte(log[i].status), 1);
      StatusByteInjective(log[i].status, AckInvalidMessage);
    } else {
      AnswerToMiss(s, start, ticks);
      var status := Run(s, start, ticks).log[|log|].status;
      OneLastAnswer(s, start, ticks, StatusByte(status), 1);
      StatusByteInjective(status, AckInvalidMessage);
    }
  }

  /** Execution k is behind the answer to the last packet: its own, or one that answers for its
      sequence number, in either case of the very same bytes. */
  ghost predicate Behind(was: seq<Execution>, log: seq<Execution>, last: Tick, k: nat) {
    k < |log| && (k == |was| || AnswersFor(was, k, last)) && log[k].data == last.packet.data
  }

  /** No answer is made up: a request is answered with a code other than 1 exactly when an
      execution of the very same bytes, recorded with that code, is behind it. */
  lemma AnsweredAsRecorded(s: State, start: int, ticks: seq<Tick>, code: bv8)
    requires Fresh(s) && TimelyRun(start, ticks) && ticks != [] && Answered(s, ticks[|ticks| - 1].packet)
    requires code != 1
    ensures var was, log, last := LogBefore(s, start, ticks), Run(s, start, ticks).log, ticks[|ticks| - 1];
            LastAnswer(s, start, ticks, code) <==>
              exists k: nat :: Behind(was, log, last, k) && StatusByte(log[k].status) == code
  {
    var was, log, last := LogBefore(s, start, ticks), Run(s, start, ticks).log, ticks[|ticks| - 1];
    hide Run;
    hide LogBefore;
    hide LastAnswer;
    hide AnswersFor;
    hide Answered;
    hide StatusByte;
    if i: nat :| AnswersFor(was, i, last) {
      AnswerToReplay(s, start, ticks, i);
      var recorded := if last.packet.data == log[i].data then StatusByte(log[i].status) else 1;
      OneLastAnswer(s, start, ticks, recorded, code);
      assert Behind(was, log, last, i) <==> log[i].data == last.packet.data;
    } else {
      AnswerToMiss(s, start, ticks);
      OneLastAnswer(s, start, ticks, StatusByte(log[|was|].status), code);
      assert Behind(was, log, last, |was|);
    }
    if k: nat :| Behind(was, log, last, k) && StatusByte(log[k].status) == code && AnswersFor(was, k, last) {
      AnswerToReplay(s, start, ticks, k);
    }
  }

  // ----- where frames come from -----

  /** A packet of the peer's whose routing gives this frame. */
  ghost predicate AsksFor(p: ReceivedPacket, f: CanFrame, peer: Mac, c: Config) {
    p.source == peer && Parse(p.data).Accepted? && Route(Parse(p.data).message, c) == Routed(f)
  }

  /** The execution put the frame of its own packet on the bus, and the answer was good. */
  ghost predicate Transmitted(x: Execution, c: Config) {
    && x.handed.Some? && x.answer == TransmitOk
    && Parse(x.data).Accepted? && Route(Parse(x.data).message, c) == Routed(x.handed.value)
  }

  /** Every frame an execution handed over is the routing of its packet, and is on the bus. */
  ghost predicate LogTraced(log: seq<Execution>, frames: seq<CanFrame>, c: Config) {
    forall i :: 0 <= i < |log| && log[i].handed.Some? ==>
      && log[i].handed.value in frames && Parse(log[i].data).Accepted?
      && Route(Parse(log[i].data).message, c) == Routed(log[i].handed.value)
  }

  /** The frames are the routings of packets the peer sent, each of another packet, in order:
      frame i of packet from[i]. */
  ghost predicate Sources(frames: seq<CanFrame>, from: seq<nat>, peer: Mac, c: Config, ticks: seq<Tick>) {
    && |from| == |frames|
    && (forall i :: 0 <= i < |frames| ==> from[i] < |ticks| && AsksFor(ticks[from[i]].packet, frames[i], peer, c))
    && (forall i, j :: 0 <= i < j < |from| ==> from[i] < from[j])
  }

  ghost predicate FramesTraced(frames: seq<CanFrame>, peer: Mac, c: Config, ticks: seq<Tick>) {
    exists from :: Sources(frames, from, peer, c, ticks)
  }

  ghost predicate Traced(h: History, peer: Mac, c: Config, ticks: seq<Tick>) {
    h.gateway.config.router == c && LogTraced(h.log, h.frames, c) && FramesTraced(h.frames, peer, c, ticks)
  }

  lemma ProcessKeepsRouter(g: GatewayState, m: Message, answer: TransmitResult)
    ensures var done := Process(g, m, answer);
            && done.state.config == g.config
            && (done.handed.Some? ==> Route(m, g.config.router) == Routed(done.handed.value))
  {
  }

  function Placed(from: seq<nat>, place: nat, there: bool): seq<nat> {
    if there then from + [place] else from
  }

  lemma FramesTracedLonger(frames: seq<CanFrame>, peer: Mac, c: Config, before: seq<Tick>, tick: Tick,
                           handed: Option<CanFrame>)
    requires FramesTraced(frames, peer, c, before)
    requires handed.Some? ==> AsksFor(tick.packet, handed.value, peer, c)
    ensures FramesTraced(frames + Given(handed), peer, c, before + [tick])
  {
    hide AsksFor;
    var from :| Sources(frames, from, peer, c, before);
    var longer := Placed(from, |before|, handed.Some?);
    SourcesLonger(frames, from, peer, c, before, tick, handed, longer);
  }

  lemma SourcesLonger(frames: seq<CanFrame>, from: seq<nat>, peer: Mac, c: Config, before: seq<Tick>, tick: Tick,
                      handed: Option<CanFrame>, longer: seq<nat>)
    requires Sources(frames, from, peer, c, before)
    requires handed.Some? ==> AsksFor(tick.packet, handed.value, peer, c)
    requires longer == Placed(from, |before|, handed.Some?)
    ensures Sources(frames + Given(handed), longer, peer, c, before + [tick])
  {
    hide AsksFor;
    var ticks, all := before + [tick], frames + Given(handed);
    forall i | 0 <= i < |all| ensures longer[i] < |ticks| && AsksFor(ticks[longer[i]].packet, all[i], peer, c) {
      if i < |frames| {
        assert ticks[longer[i]] == before[from[i]];
      } else {
        assert ticks[|before|] == tick;
      }
    }
  }

  lemma LogTracedLonger(log: seq<Execution>, frames: seq<CanFrame>, c: Config, x: Execution)
    requires LogTraced(log, frames, c)
    requires x.handed.Some? ==>
               Parse(x.data).Accepted? && Route(Parse(x.data).message, c) == Routed(x.handed.value)
    ensures LogTraced(log, frames + Given(x.handed), c)
    ensures LogTraced(log + [x], frames + Given(x.handed), c)
  {
  }

  lemma TracedExecution(h: History, peer: Mac, c: Config, before: seq<Tick>, tick: Tick, m: Message)
    requires Traced(h, peer, c, before)
    requires tick.packet.source == peer && Parse(tick.packet.data) == Accepted(m)
    ensures var done, x := Process(h.gateway, m, tick.world.answer), ExecutionOf(h.gateway, tick.packet, m, tick.world);
            && done.state.config.router == c
            && FramesTraced(h.frames + Given(done.handed), peer, c, before + [tick])
            && LogTraced(h.log, h.frames + Given(done.handed), c)
            && LogTraced(h.log + [x], h.frames + Given(done.handed), c)
  {
    ProcessKeepsRouter(h.gateway, m, tick.world.answer);
    hide Process;
    hide Parse;
    hide Route;
    var x := ExecutionOf(h.gateway, tick.packet, m, tick.world);
    FramesTracedLonger(h.frames, peer, c, before, tick, x.handed);
    LogTracedLonger(h.log, h.frames, c, x);
  }

  lemma TracedStep(h: History, peer: Mac, c: Config, before: seq<Tick>, tick: Tick)
    requires Traced(h, peer, c, before)
    ensures Traced(LogStep(peer, h, tick.packet, tick.world), peer, c, before + [tick])
  {
    FramesTracedLonger(h.frames, peer, c, before, tick, None);
    assert h.frames + Given<CanFrame>(None) == h.frames;
    var p := tick.packet;
    hide LogTraced;
    hide FramesTraced;
    hide Parse;
    hide Process;
    hide WantsAck;
    hide AckPacket;
    hide LiveEntry;
    hide ExecutionOf;
    if p.source == peer && Parse(p.data).Accepted? {
      TracedExecution(h, peer, c, before, tick, Parse(p.data).message);
    }
  }

  lemma {:induction false} RunIsTraced(s: State, ticks: seq<Tick>)
    ensures Traced(LogRun(s, ticks), s.peer, s.gateway.config.router, ticks)
  {
    if ticks == [] {
      assert Sources([], [], s.peer, s.gateway.config.router, ticks);
    } else {
      var before, last := ticks[..|ticks| - 1], ticks[|ticks| - 1];
      RunIsTraced(s, before);
      hide Traced;
      hide LogStep;
      TracedStep(LogRun(s, before), s.peer, s.gateway.config.router, before, last);
      assert ticks == before + [last];
    }
  }

  /** No frame out of nothing: the frames put on the bus in a run are the routings of packets
      the peer sent in it, in order and at most one for each packet. With the shipped tables
      every one of them is safe. */
  lemma FramesAreAskedFor(s: State, start: int, ticks: seq<Tick>) returns (from: seq<nat>)
    requires Fresh(s) && TimelyRun(start, ticks)
    ensures Sources(Run(s, start, ticks).frames, from, s.peer, s.gateway.config.router, ticks)
    ensures s.gateway.config.router == MakeCommandRouterConfig() ==>
              forall f :: f in Run(s, start, ticks).frames ==> SafeFrame(f)
  {
    RingRefinesLog(s, start, ticks);
    RunIsTraced(s, ticks);
    hide Run;
    hide LogRun;
    hide Parse;
    hide Route;
    hide SafeFrame;
    hide MakeCommandRouterConfig;
    var frames, c := Run(s, start, ticks).frames, s.gateway.config.router;
    from :| Sources(frames, from, s.peer, c, ticks);
    if c == MakeCommandRouterConfig() {
      forall i | 0 <= i < |frames| ensures SafeFrame(frames[i]) {
        RoutedFramesAreSafe(Parse(ticks[from[i]].packet.data).message, frames[i]);
      }
    }
  }

  /** Execution i, this packet's own or a live earlier one of the very same bytes, put the
      frame routed for it on the bus, and the answer was good. */
  ghost predicate Grounds(was: seq<Execution>, log: seq<Execution>, last: Tick, c: Config, i: nat) {
    && i < |log| && (i == |was| || AnswersFor(was, i, last))
    && log[i].data == last.packet.data && Transmitted(log[i], c)
  }

  lemma StatusIsTruthful(s: State, start: int, ticks: seq<Tick>, i: nat)
    requires Fresh(s) && TimelyRun(start, ticks) && i < |Run(s, start, ticks).log|
    ensures var x := Run(s, start, ticks).log[i];
            && (x.status == AckCanTransmitted <==> Transmitted(x, s.gateway.config.router))
            && (x.handed.Some? ==> x.handed.value in Run(s, start, ticks).frames)
  {
    RingRefinesLog(s, start, ticks);
    RunIsTraced(s, ticks);
    hide Run;
    hide LogRun;
    hide Parse;
    hide Route;
    assert SoundEntry(Run(s, start, ticks).log[i]);
  }

  lemma LogIsTraced(s: State, start: int, ticks: seq<Tick>, k: nat)
    requires Fresh(s) && TimelyRun(start, ticks) && k < |Run(s, start, ticks).log|
    ensures var x := Run(s, start, ticks).log[k];
            && (x.handed.Some? ==>
                  && Parse(x.data).Accepted?
                  && Route(Parse(x.data).message, s.gateway.config.router) == Routed(x.handed.value))
            && (StatusByte(x.status) in {0, 3, 5} ==> x.handed.Some?)
  {
    hide Run;
    hide LogRun;
    hide Parse;
    hide Route;
    RingRefinesLog(s, start, ticks);
    RunIsTraced(s, ticks);
    assert SoundEntry(Run(s, start, ticks).log[k]);
  }

  /** CanTransmitted is never said lightly: a request is answered with code 0 exactly when there
      are grounds for it. */
  lemma TruthfulStatus(s: State, start: int, ticks: seq<Tick>)
    requires Fresh(s) && TimelyRun(start, ticks) && ticks != [] && Answered(s, ticks[|ticks| - 1].packet)
    ensures var was, log, last := LogBefore(s, start, ticks), Run(s, start, ticks).log, ticks[|ticks| - 1];
            LastAnswer(s, start, ticks, 0) <==> exists i :: Grounds(was, log, last, s.gateway.config.router, i)
  {
    var was, log, last := LogBefore(s, start, ticks), Run(s, start, ticks).log, ticks[|ticks| - 1];
    var c := s.gateway.config.router;
    hide Run;
    hide LogBefore;
    hide LastAnswer;
    hide AnswersFor;
    hide Answered;
    hide Transmitted;
    StatusBytes();
    if i: nat :| Grounds(was, log, last, c, i) && i != |was| {
      AnswerToReplay(s, start, ticks, i);
      StatusIsTruthful(s, start, ticks, i);
    } else if k: nat :| AnswersFor(was, k, last) {
      AnswerToReplay(s, start, ticks, k);
      StatusIsTruthful(s, start, ticks, k);
      StatusByteInjective(log[k].status, AckCanTransmitted);
      var code := if last.packet.data == log[k].data then StatusByte(log[k].status) else 1;
      OneLastAnswer(s, start, ticks, code, 0);
      assert !Grounds(was, log, last, c, |was|);
      assert Grounds(was, log, last, c, k) <==> code == 0;
    } else {
      AnswerToMiss(s, start, ticks);
      StatusIsTruthful(s, start, ticks, |was|);
      StatusByteInjective(log[|was|].status, AckCanTransmitted);
      OneLastAnswer(s, start, ticks, StatusByte(log[|was|].status), 0);
      assert Grounds(was, log, last, c, |was|) <==> log[|was|].status == AckCanTransmitted;
    }
  }
}
