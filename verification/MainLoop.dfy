/** The program from start-up on: what the radio callback queues, the main loop takes and the
    receiver handles, packet after packet. Here the run theorems meet the objects: whatever
    arrives, the receiver's life is a run over exactly the packets the queue gave out, and what
    the CAN controller saw of it is exactly the frames handed over. */
module MainLoop {
  import opened Options
  import opened RemoteProtocol
  import opened CanCommandRouter
  import opened VehicleCanProtocol
  import opened CanFrames
  import opened EspNowDriver
  import opened EspNowCanGateway
  import opened RequestCache
  import opened Application
  import opened ReceiverRuns
  import opened ReceiverTheorems
  import opened BusRecord
  import opened QueueRounds
  import opened Timer
  import CM = CanManager
  import Mcp = Mcp2515
  import Queue = QueueRuns

  // ----- a receiver's life is a run -----

  lemma ExecutedIsHanded(s: State, p: ReceivedPacket, w: World)
    requires WellShaped(s) && |w.at| == REQUEST_CACHE_SIZE
    ensures var e := Step(s, p, w);
            && |e.executed| <= 1 && |e.frames| <= 1
            && (e.executed != [] ==> ExecutedNow(e.executed[0], e.frames, w.answer))
  {
    hide Process;
    hide StatusOf;
    hide MapAckStatus;
    hide FirstHit;
    hide AckPacket;
    if p.source == s.peer && Parse(p.data).Accepted? {
      AcceptedIsEncodable(p.data);
      HandedStatus(s.gateway, Parse(p.data).message, w.answer);
    }
  }

  /** What was just executed: it handed over these frames, and its status is the answer. */
  predicate ExecutedNow(x: Execution, frames: seq<CanFrame>, answer: TransmitResult) {
    frames == Given(x.handed) && x.answer == answer && (x.handed.Some? ==> x.status == StatusOf(answer))
  }

  lemma HandedStatus(g: GatewayState, m: Message, answer: TransmitResult)
    ensures var done := Process(g, m, answer);
            done.handed.Some? ==> MapAckStatus(done.result) == StatusOf(answer)
  {
    hide Processable;
    hide Route;
  }

  lemma TimelyFrom(w: World, earlier: int, from: int, to: int)
    requires Timely(w, from, to) && earlier <= from
    ensures Timely(w, earlier, w.cachedAt) && |w.at| == REQUEST_CACHE_SIZE
  {
  }

  lemma RunNext(s: State, start: int, ticks: seq<Tick>, tick: Tick)
    requires Fresh(s) && TimelyRun(start, ticks)
    requires Timely(tick.world, Now(start, ticks), tick.world.cachedAt)
    ensures TimelyRun(start, ticks + [tick]) && |tick.world.at| == REQUEST_CACHE_SIZE
    ensures Run(s, start, ticks + [tick]) == Extend(Run(s, start, ticks), tick.packet, tick.world)
  {
    assert (ticks + [tick])[..|ticks|] == ticks;
    hide Extend;
  }

  /** A receiver's life so far: the state it began in and when, the controller's transfers until
      then, the packets with what each met, and the evidence for its executions. */
  datatype Life = Life(s: State, start: int, early: seq<Mcp.Transfer>, ticks: seq<Tick>, evidence: seq<Evidence>)

  ghost predicate Possible(life: Life) {
    Fresh(life.s) && TimelyRun(life.start, life.ticks)
  }

  ghost function Lived(life: Life): ReceiverRuns.Trace
    requires Possible(life)
  {
    Run(life.s, life.start, life.ticks)
  }

  /** The receiver is where its life leaves it: state, acknowledgements and frames are those of
      the run, the executions in its log are backed, and the controller saw its frames and
      nothing else. */
  ghost predicate Living(receiver: Receiver, life: Life)
    reads receiver, receiver.gateway, receiver.cache, receiver.cache.slots, receiver.cache.clock
    reads receiver.gateway.manager
    reads if receiver.gateway.manager == null then {} else {receiver.gateway.manager.driver.chip}
  {
    && receiver.Valid() && Possible(life) && Now(life.start, life.ticks) <= receiver.cache.clock.now
    && Lived(life).state == receiver.Current()
    && Lived(life).acks == receiver.sent && Lived(life).frames == receiver.gateway.handed
    && Witnessed(receiver, life)
  }

  ghost predicate Witnessed(receiver: Receiver, life: Life)
    requires Possible(life)
    reads receiver, receiver.gateway, receiver.gateway.manager
    reads if receiver.gateway.manager == null then {} else {receiver.gateway.manager.driver.chip}
  {
    var manager, t := receiver.gateway.manager, Lived(life);
    && Backed(Working(manager), t.log, TimeoutOf(manager), TraceOf(manager), EndingsOf(manager), life.evidence)
    && Recorded(Working(manager), t.frames, TimeoutOf(manager), life.early, TraceOf(manager))
  }

  lemma NextEvidence(receiver: Receiver, log: seq<Execution>, e: Effect, w: World, evidence: seq<Evidence>,
                     trace: seq<Mcp.Transfer>, endings: seq<Mcp.Ended>)
    returns (next: seq<Evidence>)
    requires |e.executed| <= 1 && (e.executed != [] ==> ExecutedNow(e.executed[0], e.frames, w.answer))
    requires receiver.OnTheBus(e.frames, w.answer, trace, endings) && endings <= receiver.Endings()
    requires receiver.gateway.manager == null ==> trace == []
    requires var manager := receiver.gateway.manager;
             Backed(Working(manager), log, TimeoutOf(manager), trace, endings, evidence)
    ensures var manager := receiver.gateway.manager;
            Backed(Working(manager), log + e.executed, TimeoutOf(manager), receiver.Trace(), receiver.Endings(), next)
  {
    var manager := receiver.gateway.manager;
    var working := Working(manager);
    if e.frames != [] {
      TransfersGrow(manager, e.frames[0], w.answer, trace, endings);
    }
    hide Transmission;
    hide Backed;
    hide Supported;
    hide StatusOf;
    if e.executed == [] {
      next := evidence;
      assert log + e.executed == log;
      BackedLater(working, log, TimeoutOf(manager), trace, endings, evidence, receiver.Trace(), receiver.Endings());
    } else {
      var x := e.executed[0];
      var v := ExecutionIsSupported(manager, x, trace, endings);
      next := evidence + [v];
      assert e.executed == [x];
      BackedLonger(working, log, TimeoutOf(manager), trace, endings, evidence, x, v,
                   receiver.Trace(), receiver.Endings());
    }
  }

  lemma NextRecord(receiver: Receiver, frames: seq<CanFrame>, e: Effect, w: World, early: seq<Mcp.Transfer>,
                   trace: seq<Mcp.Transfer>, endings: seq<Mcp.Ended>)
    requires receiver.OnTheBus(e.frames, w.answer, trace, endings)
    requires receiver.gateway.manager == null ==> trace == []
    requires Recorded(Working(receiver.gateway.manager), frames, TimeoutOf(receiver.gateway.manager), early, trace)
    ensures Recorded(Working(receiver.gateway.manager), frames + e.frames, TimeoutOf(receiver.gateway.manager),
                     early, receiver.Trace())
  {
    hide Recorded;
    hide Transmission;
    if e.frames == [] {
      assert frames + e.frames == frames;
    } else {
      assert e.frames == [e.frames[0]];
      TransmissionIsRecorded(receiver.gateway.manager, frames, e.frames[0], w.answer, early, trace, endings);
    }
  }

  /** One packet carries the life on. */
  method HandlePacket(receiver: Receiver, p: ReceivedPacket, ghost life: Life)
    returns (ghost tick: Tick, ghost next: Life)
    requires Living(receiver, life)
    modifies receiver.Footprint()
    ensures tick.packet == p && receiver.cache.slots == old(receiver.cache.slots)
    ensures next == life.(ticks := life.ticks + [tick], evidence := next.evidence)
    ensures Living(receiver, next)
  {
    hide Step;
    hide Run;
    hide TimelyRun;
    hide Backed;
    hide Recorded;
    hide Timely;
    ghost var t, trace, endings := Lived(life), receiver.Trace(), receiver.Endings();
    ghost var before := receiver.cache.clock.now;
    ghost var w := receiver.ProcessReceivedPacket(p);
    tick := Tick(p, w);
    TimelyFrom(w, Now(life.start, life.ticks), before, receiver.cache.clock.now);
    ExecutedIsHanded(t.state, p, w);
    ghost var effect := Step(t.state, p, w);
    ghost var evidence := NextEvidence(receiver, t.log, effect, w, life.evidence, trace, endings);
    NextRecord(receiver, t.frames, effect, w, life.early, trace, endings);
    RunNext(life.s, life.start, life.ticks, tick);
    LastReading(w, before, receiver.cache.clock.now);
    next := life.(ticks := life.ticks + [tick], evidence := evidence);
  }

  lemma LastReading(w: World, from: int, to: int)
    requires Timely(w, from, to)
    ensures w.cachedAt <= to
  {
  }

  // ----- every answer is backed -----

  lemma {:induction false} TimelyPrefix(start: int, ticks: seq<Tick>, n: nat)
    requires TimelyRun(start, ticks) && n <= |ticks|
    ensures TimelyRun(start, ticks[..n])
    decreases |ticks|
  {
    if n < |ticks| {
      TimelyPrefix(start, ticks[..|ticks| - 1], n);
      assert ticks[..|ticks| - 1][..n] == ticks[..n];
    } else {
      assert ticks[..n] == ticks;
    }
  }

  /** A run only adds to its log. */
  lemma {:induction false} LogGrows(s: State, start: int, ticks: seq<Tick>, n: nat)
    requires Fresh(s) && TimelyRun(start, ticks) && n <= |ticks|
    ensures TimelyRun(start, ticks[..n])
    ensures Run(s, start, ticks[..n]).log <= Run(s, start, ticks).log
    decreases |ticks|
  {
    hide Run;
    TimelyPrefix(start, ticks, n);
    if n < |ticks| {
      LogGrows(s, start, ticks[..|ticks| - 1], n);
      assert ticks[..|ticks| - 1][..n] == ticks[..n];
      RunOnlyAdds(s, start, ticks);
    } else {
      assert ticks[..n] == ticks;
    }
  }

  lemma RunOnlyAdds(s: State, start: int, ticks: seq<Tick>)
    requires Fresh(s) && TimelyRun(start, ticks) && ticks != []
    ensures TimelyRun(start, ticks[..|ticks| - 1])
    ensures Run(s, start, ticks[..|ticks| - 1]).log <= Run(s, start, ticks).log
  {
    hide Step;
  }

  /** The peer's packet i was answered with this code. */
  ghost predicate Said(s: State, start: int, ticks: seq<Tick>, i: nat, code: bv8)
    requires Fresh(s) && i < |ticks| && TimelyRun(start, ticks[..i + 1])
  {
    Answered(s, ticks[i].packet) && LastAnswer(s, start, ticks[..i + 1], code)
  }

  /** Behind this answer to these bytes stands an execution of the log so far, of the very same
      bytes. If it handed over a frame, that is the one routed for them, and with a working
      manager there is evidence of a complete send of it that ended as the code says: 0 in
      success, through the buffer in which the chip ended a request for exactly its registers, 3
      with no free buffer, 4 in failure, 5 in a timeout. Codes 0, 3 and 5 are not said without. */
  ghost predicate Honoured(working: bool, log: seq<Execution>, data: seq<bv8>, code: bv8, c: Config, timeoutMs: nat,
                           trace: seq<Mcp.Transfer>, ended: seq<Mcp.Ended>, evidence: seq<Evidence>)
  {
    exists k ::
      && 0 <= k < |log| && k < |evidence| && log[k].data == data
      && (log[k].handed.Some? ==>
            Parse(data).Accepted? && Route(Parse(data).message, c) == Routed(log[k].handed.value))
      && (code in {0, 3, 5} ==> Sends(working, log[k]))
      && (Sends(working, log[k]) ==>
            Proves(evidence[k], log[k].handed.value, timeoutMs, trace, ended) && Says(code, evidence[k].error))
  }

  /** An execution in the log as it was when packet i was answered, of its very bytes and recorded
      with this code. */
  lemma RecordedExecution(s: State, start: int, ticks: seq<Tick>, i: nat, code: bv8) returns (k: nat)
    requires Fresh(s) && TimelyRun(start, ticks) && i < |ticks| && TimelyRun(start, ticks[..i + 1])
    requires Said(s, start, ticks, i, code) && code != 1
    ensures k < |Run(s, start, ticks[..i + 1]).log| <= |Run(s, start, ticks).log|
    ensures var x := Run(s, start, ticks).log[k];
            && x == Run(s, start, ticks[..i + 1]).log[k]
            && x.data == ticks[i].packet.data && StatusByte(x.status) == code
  {
    hide Run;
    hide TimelyRun;
    hide Answered;
    hide AnswersFor;
    hide LastAnswer;
    hide StatusByte;
    LogGrows(s, start, ticks, i + 1);
    var some := ticks[..i + 1];
    AnsweredAsRecorded(s, start, some, code);
    var log := Run(s, start, some).log;
    k :| Behind(LogBefore(s, start, some), log, some[|some| - 1], k) && StatusByte(log[k].status) == code;
  }

  /** Whatever packet i was answered, unless InvalidMessage, is honoured, by an execution no later
      than it. */
  ghost predicate HonouredAt(life: Life, i: nat, working: bool, timeoutMs: nat, trace: seq<Mcp.Transfer>,
                             ended: seq<Mcp.Ended>)
    requires Possible(life) && i < |life.ticks|
  {
    && TimelyRun(life.start, life.ticks[..i + 1])
    && forall code :: Said(life.s, life.start, life.ticks, i, code) && code != 1 ==>
         Honoured(working, Run(life.s, life.start, life.ticks[..i + 1]).log, life.ticks[i].packet.data, code,
                  life.s.gateway.config.router, timeoutMs, trace, ended, life.evidence)
  }

  lemma AnswerIsHonoured(life: Life, i: nat, code: bv8, working: bool, timeoutMs: nat, trace: seq<Mcp.Transfer>,
                         ended: seq<Mcp.Ended>)
    requires Possible(life) && i < |life.ticks| && TimelyRun(life.start, life.ticks[..i + 1])
    requires Backed(working, Lived(life).log, timeoutMs, trace, ended, life.evidence)
    requires Said(life.s, life.start, life.ticks, i, code) && code != 1
    ensures Honoured(working, Run(life.s, life.start, life.ticks[..i + 1]).log, life.ticks[i].packet.data, code,
                     life.s.gateway.config.router, timeoutMs, trace, ended, life.evidence)
  {
    hide Run;
    hide TimelyRun;
    hide Said;
    hide Proves;
    hide Says;
    hide StatusByte;
    hide Parse;
    hide Route;
    var k := RecordedExecution(life.s, life.start, life.ticks, i, code);
    LogIsTraced(life.s, life.start, life.ticks, k);
    assert Supported(working, Lived(life).log[k], life.evidence[k], timeoutMs, trace, ended);
  }

  /** Truthful to the last: in every life of the receiver, every answer is honoured. */
  lemma AnswersAreHonoured(life: Life, i: nat, working: bool, timeoutMs: nat, trace: seq<Mcp.Transfer>,
                           ended: seq<Mcp.Ended>)
    requires Possible(life) && i < |life.ticks|
    requires Backed(working, Lived(life).log, timeoutMs, trace, ended, life.evidence)
    ensures HonouredAt(life, i, working, timeoutMs, trace, ended)
  {
    hide Run;
    hide TimelyRun;
    hide Said;
    hide Backed;
    hide Honoured;
    TimelyPrefix(life.start, life.ticks, i + 1);
    forall code | Said(life.s, life.start, life.ticks, i, code) && code != 1
      ensures Honoured(working, Run(life.s, life.start, life.ticks[..i + 1]).log, life.ticks[i].packet.data, code,
                       life.s.gateway.config.router, timeoutMs, trace, ended, life.evidence)
    {
      AnswerIsHonoured(life, i, code, working, timeoutMs, trace, ended);
    }
  }

  ghost predicate AllHonoured(life: Life, working: bool, timeoutMs: nat, trace: seq<Mcp.Transfer>,
                              ended: seq<Mcp.Ended>)
    requires Possible(life)
  {
    forall i :: 0 <= i < |life.ticks| ==> HonouredAt(life, i, working, timeoutMs, trace, ended)
  }

  ghost predicate AllHonouredBy(receiver: Receiver, life: Life)
    requires Possible(life)
    reads receiver, receiver.gateway, receiver.gateway.manager
    reads if receiver.gateway.manager == null then {} else {receiver.gateway.manager.driver.chip}
  {
    var manager := receiver.gateway.manager;
    AllHonoured(life, Working(manager), TimeoutOf(manager), receiver.Trace(), receiver.Endings())
  }

  lemma LivingIsHonoured(receiver: Receiver, life: Life)
    requires Living(receiver, life)
    ensures AllHonouredBy(receiver, life)
  {
    hide Run;
    hide Backed;
    hide Recorded;
    hide HonouredAt;
    var manager := receiver.gateway.manager;
    forall i | 0 <= i < |life.ticks|
      ensures HonouredAt(life, i, Working(manager), TimeoutOf(manager), receiver.Trace(), receiver.Endings())
    {
      AnswersAreHonoured(life, i, Working(manager), TimeoutOf(manager), receiver.Trace(), receiver.Endings());
    }
  }

  lemma SafeImage(f: CanFrame)
    requires SafeFrame(f)
    ensures f.dataLength as nat <= 8 && f.dataLength <= CAN_MAX_DLEN
    ensures Image(RawOf(f)) == [0x20, 0x20, 0, 0, f.dataLength] + f.data[..f.dataLength as nat]
  {
    hide ClearFrom;
    SafeIdentifier();
    var raw, n := RawOf(f), f.dataLength as nat;
    assert IdBytes(false, 0x101) == [0x20, 0x20, 0, 0];
    assert raw.data[..n] == f.data[..n];
  }

  lemma SafeIdentifier()
    ensures WithExtended(0x101, false) == 0x101 && !IsExtended(0x101) && !IsRemote(0x101) && FrameId(0x101) == 0x101
    ensures IdBytes(false, 0x101) == [0x20, 0x20, 0, 0]
  {
  }

  /** Nothing unsafe is ever loaded: with the shipped tables every write the controller saw in a
      receiver's life goes to a transmit buffer and is a safe frame: a data frame, as the chip
      reads the registers, with the standard identifier 0x101. */
  lemma LoadsAreSafe(receiver: Receiver, life: Life, i: nat)
    requires Living(receiver, life) && life.s.gateway.config.router == MakeCommandRouterConfig()
    requires |life.early| <= i < |receiver.Trace()| && receiver.Trace()[i].Write?
    ensures exists f ::
              && f in receiver.gateway.handed && SafeFrame(f)
              && f.dataLength as nat <= 8 && f.dataLength <= CAN_MAX_DLEN
              && receiver.Trace()[i].values
                   == [0x20, 0x20, 0, 0, f.dataLength] + f.data[..f.dataLength as nat]
    ensures receiver.Trace()[i].address in {0x31, 0x41, 0x51}
  {
    hide Run;
    hide Backed;
    hide SafeFrame;
    hide MakeCommandRouterConfig;
    hide Image;
    hide OnlySends;
    var manager, frames := receiver.gateway.manager, Lived(life).frames;
    var from := FramesAreAskedFor(life.s, life.start, life.ticks);
    if Working(manager) {
      var record := receiver.Trace()[|life.early|..];
      assert record[i - |life.early|] == receiver.Trace()[i];
      var k := LoadsAreOfFrames(frames, TimeoutOf(manager), record, i - |life.early|);
      assert frames[k] in frames;
      SafeImage(frames[k]);
    }
  }

  // ----- the main loop -----

  function PacketsOf(ticks: seq<Tick>): (r: seq<ReceivedPacket>)
    ensures |r| == |ticks|
  {
    seq(|ticks|, i requires 0 <= i < |ticks| => ticks[i].packet)
  }

  lemma PacketsNext(ticks: seq<Tick>, tick: Tick)
    ensures PacketsOf(ticks + [tick]) == PacketsOf(ticks) + [tick.packet]
  {
  }

  /** One round: one packet is taken and handled, unless there is none, while the rest of the
      arrivals come in. */
  method HandleRound(receiver: Receiver, driver: Driver, arrivals: seq<Arrival>, ghost life: Life,
                     ghost depth: nat, ghost events: seq<Queue.Event>)
    returns (ghost next: Life)
    requires Living(receiver, life) && Queued(driver, depth, events) && AllLegible(arrivals)
    requires PacketsOf(life.ticks) == Queue.Left(depth, events)
    modifies receiver.Footprint(), driver
    ensures Living(receiver, next) && receiver.cache.slots == old(receiver.cache.slots)
    ensures next == life.(ticks := next.ticks, evidence := next.evidence) && life.ticks <= next.ticks
    ensures |next.ticks| == |life.ticks| + if Idle(Queue.Run(depth, events), arrivals) then 0 else 1
    ensures var later := events + RoundEvents(Queue.Run(depth, events), arrivals);
            Queued(driver, depth, later) && PacketsOf(next.ticks) == Queue.Left(depth, later)
  {
    hide Living;
    hide Queue.AllReadable;
    hide Queue.Run;
    hide Queue.Left;
    hide Idle;
    hide Taking;
    hide TakeUnless;
    hide Arriving;
    hide RoundEvents;
    hide PacketsOf;
    next := life;
    ghost var s := Queue.Run(depth, events);
    var packet, taken := TakePacket(driver, arrivals, depth, events);
    ghost var later := events + Arriving(arrivals[..taken]) + TakeUnless(packet.None?);
    Deliver(driver, arrivals[taken..], depth, later);
    RoundInParts(s, arrivals, events, taken);
    if packet.Some? {
      ghost var tick;
      tick, next := HandlePacket(receiver, packet.value, life);
      PacketsNext(life.ticks, tick);
    }
  }

  /** After these rounds the queue is where their events leave it, and the packets handled are
      those that left it, one for every round that was not idle. */
  ghost predicate Abreast(driver: Driver, depth: nat, rounds: seq<seq<Arrival>>, ticks: seq<Tick>)
    requires forall r :: 0 <= r < |rounds| ==> AllLegible(rounds[r])
    reads driver
  {
    && Queued(driver, depth, EventsOf(depth, rounds))
    && PacketsOf(ticks) == Queue.Left(depth, EventsOf(depth, rounds))
    && |ticks| == Busy(depth, rounds)
  }

  lemma AbreastAtFirst(driver: Driver)
    requires driver.depth > 0 && driver.State() == QueueState(true, driver.depth, [], 0)
    ensures Abreast(driver, driver.depth, [], [])
  {
  }

  lemma AbreastParts(driver: Driver, depth: nat, rounds: seq<seq<Arrival>>, ticks: seq<Tick>)
    requires forall r :: 0 <= r < |rounds| ==> AllLegible(rounds[r])
    requires Abreast(driver, depth, rounds, ticks)
    ensures Queued(driver, depth, EventsOf(depth, rounds))
    ensures PacketsOf(ticks) == Queue.Left(depth, EventsOf(depth, rounds)) && |ticks| == Busy(depth, rounds)
  {
    hide Queued;
  }

  lemma AbreastNext(driver: Driver, depth: nat, rounds: seq<seq<Arrival>>, r: nat, before: seq<Tick>, after: seq<Tick>)
    requires r < |rounds| && forall k :: 0 <= k < |rounds| ==> AllLegible(rounds[k])
    requires |before| == Busy(depth, rounds[..r])
    requires var events := EventsOf(depth, rounds[..r]);
             var s := Queue.Run(depth, events);
             && Queued(driver, depth, events + RoundEvents(s, rounds[r]))
             && PacketsOf(after) == Queue.Left(depth, events + RoundEvents(s, rounds[r]))
             && |after| == |before| + if Idle(s, rounds[r]) then 0 else 1
    ensures Abreast(driver, depth, rounds[..r + 1], after)
  {
    hide Queue.Run;
    hide Queue.Left;
    hide RoundEvents;
    hide Idle;
    hide Queued;
    EventsNext(depth, rounds, r);
    hide EventsOf;
    hide Busy;
  }

  method HandleNext(receiver: Receiver, driver: Driver, rounds: seq<seq<Arrival>>, r: nat, ghost life: Life,
                    ghost depth: nat)
    returns (ghost next: Life)
    requires r < |rounds| && forall k :: 0 <= k < |rounds| ==> AllLegible(rounds[k])
    requires Living(receiver, life) && Abreast(driver, depth, rounds[..r], life.ticks)
    modifies receiver.Footprint(), driver
    ensures Living(receiver, next) && receiver.cache.slots == old(receiver.cache.slots)
    ensures next == life.(ticks := next.ticks, evidence := next.evidence)
    ensures Abreast(driver, depth, rounds[..r + 1], next.ticks)
  {
    hide Living;
    hide Abreast;
    hide EventsOf;
    hide RoundEvents;
    hide Idle;
    hide Busy;
    AbreastParts(driver, depth, rounds[..r], life.ticks);
    next := HandleRound(receiver, driver, rounds[r], life, depth, EventsOf(depth, rounds[..r]));
    AbreastNext(driver, depth, rounds, r, life.ticks, next.ticks);
  }

  /** The main loop, for as many rounds as there are bursts of arrivals. The packets handled are
      those that left the queue, one in every round that is not idle; the receiver has lived
      through a run over them; and every answer it gave in it is honoured. */
  method RunMainLoop(receiver: Receiver, driver: Driver, rounds: seq<seq<Arrival>>) returns (ghost life: Life)
    requires receiver.Valid()
    requires Living(receiver, Life(receiver.Current(), receiver.cache.clock.now, receiver.Trace(), [], []))
    requires driver.depth > 0 && driver.State() == QueueState(true, driver.depth, [], 0)
    requires forall r :: 0 <= r < |rounds| ==> AllLegible(rounds[r])
    modifies receiver.Footprint(), driver
    ensures Living(receiver, life)
    ensures life.s == old(receiver.Current()) && life.start == old(receiver.cache.clock.now)
    ensures life.early == old(receiver.Trace())
    ensures AllHonouredBy(receiver, life)
    ensures Abreast(driver, old(driver.depth), rounds, life.ticks)
  {
    ghost var depth := driver.depth;
    life := Life(receiver.Current(), receiver.cache.clock.now, receiver.Trace(), [], []);
    AbreastAtFirst(driver);
    hide Living;
    hide AllHonouredBy;
    hide Abreast;
    for r := 0 to |rounds|
      invariant Living(receiver, life) && receiver.cache.slots == old(receiver.cache.slots)
      invariant life.s == old(receiver.Current()) && life.start == old(receiver.cache.clock.now)
      invariant life.early == old(receiver.Trace())
      invariant Abreast(driver, depth, rounds[..r], life.ticks)
    {
      life := HandleNext(receiver, driver, rounds, r, life, depth);
    }
    assert rounds[..|rounds|] == rounds;
    LivingIsHonoured(receiver, life);
  }

  // ----- start-up -----

  datatype AppConfig = AppConfig(
    channel: nat,
    receiveQueueDepth: nat,
    sendResultQueueDepth: nat,
    peer: Mac,
    router: Config)

  /** A unicast address that is not all zeros. */
  predicate ValidUnicast(mac: Mac) {
    (exists i :: 0 <= i < 6 && mac[i] != 0) && mac[0] & 0x01 == 0
  }

  ghost predicate Usable(c: AppConfig) {
    && 1 <= c.channel <= 13 && c.receiveQueueDepth > 0 && c.sendResultQueueDepth > 0
    && ValidUnicast(c.peer) && ValidConfig(c.router)
  }

  method IsValidUnicastMac(mac: Mac) returns (ok: bool)
    ensures ok <==> ValidUnicast(mac)
  {
    var isZero := true;
    for index := 0 to 6
      invariant isZero <==> forall i :: 0 <= i < index ==> mac[i] == 0
    {
      isZero := isZero && mac[index] == 0;
    }
    ok := !isZero && mac[0] & 0x01 == 0;
  }

  method ValidateConfig(c: AppConfig) returns (ok: bool)
    ensures ok <==> Usable(c)
  {
    var unicast := IsValidUnicastMac(c.peer);
    var tables := IsValidConfig(c.router);
    ok := !(c.channel < 1 || c.channel > 13 || c.receiveQueueDepth == 0 || c.sendResultQueueDepth == 0
            || !unicast || !tables);
  }

  lemma NewIsFresh(s: State)
    requires |s.slots| == REQUEST_CACHE_SIZE && s.next == 0
    requires forall i :: 0 <= i < REQUEST_CACHE_SIZE ==> s.slots[i] == EmptyRequest()
    ensures Fresh(s)
  {
  }

  /** Start-up: the program goes on exactly if its configuration is usable and the foreign
      set-up, the manager's included, succeeded. A receiver that has started has lived through
      the empty run. */
  method Start(c: AppConfig, manager: CM.Manager, clock: Clock, setUp: bool)
    returns (receiver: Receiver?, driver: Driver?)
    requires manager.driver.chip.Valid() && manager.driver.chip.clock == clock
    ensures receiver != null <==> Usable(c) && manager.initialized && setUp
    ensures receiver != null ==>
              && driver != null && fresh(driver) && fresh(receiver) && fresh(receiver.gateway)
              && fresh(receiver.cache) && fresh(receiver.cache.slots)
              && receiver.cache.clock == clock && receiver.gateway.manager == manager && receiver.Valid()
              && receiver.Current().peer == c.peer
              && receiver.Current().gateway == GatewayState(true, GatewayConfig(true, c.router), NO_STATISTICS)
              && Living(receiver, Life(receiver.Current(), clock.now, TraceOf(manager), [], []))
              && driver.depth == c.receiveQueueDepth && driver.State() == QueueState(true, c.receiveQueueDepth, [], 0)
  {
    receiver, driver := null, null;
    var ok := ValidateConfig(c);
    if !ok || !manager.initialized {
      return;
    }
    var gateway := new Gateway(manager);
    ok := gateway.Init(GatewayConfig(true, c.router));
    if !setUp {
      return;
    }
    driver := new Driver(c.receiveQueueDepth);
    var cache := new Cache(clock);
    receiver := new Receiver(c.peer, gateway, cache);
    NewIsFresh(receiver.Current());
  }

  /** What the program has done when it has gone through these rounds. */
  ghost predicate Outcome(c: AppConfig, receiver: Receiver, driver: Driver, rounds: seq<seq<Arrival>>, life: Life)
    requires forall r :: 0 <= r < |rounds| ==> AllLegible(rounds[r])
    reads receiver, receiver.gateway, receiver.cache, receiver.cache.slots, receiver.cache.clock, driver
    reads receiver.gateway.manager
    reads if receiver.gateway.manager == null then {} else {receiver.gateway.manager.driver.chip}
  {
    var depth := c.receiveQueueDepth;
    && Living(receiver, life) && life.s.peer == c.peer && life.s.gateway.config.router == c.router
    && AllHonouredBy(receiver, life)
    && ArrivalsOf(EventsOf(depth, rounds)) == AllOf(rounds) && Abreast(driver, depth, rounds, life.ticks)
    && InOrder(receiver.sent, AnsweredPackets(life.s, life.ticks))
  }

  lemma LivingAnswersInOrder(receiver: Receiver, life: Life)
    requires Living(receiver, life)
    ensures InOrder(receiver.sent, AnsweredPackets(life.s, life.ticks))
  {
    hide Witnessed;
    hide Acknowledges;
    OneAcknowledgementEach(life.s, life.start, life.ticks);
  }

  /** The main loop after start-up. */
  method RunStarted(c: AppConfig, receiver: Receiver, driver: Driver, rounds: seq<seq<Arrival>>)
    returns (ghost life: Life)
    requires receiver.Valid() && receiver.Current().peer == c.peer
    requires receiver.Current().gateway.config.router == c.router
    requires Living(receiver, Life(receiver.Current(), receiver.cache.clock.now, receiver.Trace(), [], []))
    requires driver.depth == c.receiveQueueDepth > 0 && driver.State() == QueueState(true, driver.depth, [], 0)
    requires forall r :: 0 <= r < |rounds| ==> AllLegible(rounds[r])
    modifies receiver.Footprint(), driver
    ensures Outcome(c, receiver, driver, rounds, life) && life.early == old(receiver.Trace())
  {
    hide Living;
    hide AllHonouredBy;
    hide Abreast;
    hide EventsOf;
    hide InOrder;
    life := RunMainLoop(receiver, driver, rounds);
    RoundsKeepArrivals(c.receiveQueueDepth, rounds);
    LivingAnswersInOrder(receiver, life);
  }

  /** The whole program: started with a usable configuration it goes through its rounds, from a
      fresh receiver with these tables; otherwise it stops before it sends anything. */
  method RunApplication(c: AppConfig, manager: CM.Manager, clock: Clock, setUp: bool, rounds: seq<seq<Arrival>>)
    returns (receiver: Receiver?, driver: Driver?, ghost life: Life)
    requires manager.driver.chip.Valid() && manager.driver.chip.clock == clock
    requires forall r :: 0 <= r < |rounds| ==> AllLegible(rounds[r])
    modifies manager.driver.chip, clock
    ensures receiver != null <==> Usable(c) && manager.initialized && setUp
    ensures receiver == null ==> manager.driver.chip.trace == old(manager.driver.chip.trace)
    ensures receiver != null ==>
              && driver != null && fresh(receiver) && fresh(receiver.gateway) && fresh(driver)
              && receiver.gateway.manager == manager && life.early == old(manager.driver.chip.trace)
              && Outcome(c, receiver, driver, rounds, life)
  {
    hide Outcome;
    hide Living;
    receiver, driver := Start(c, manager, clock, setUp);
    life := Life(State(c.peer, GatewayState(false, NO_CONFIG, NO_STATISTICS), [], 0), 0, [], [], []);
    if receiver != null {
      life := RunStarted(c, receiver, driver, rounds);
    }
  }
}
