/** Whole runs of the receiver: any packets in any order, any timer that does not run
    backwards, any answers from the CAN side. The ring of slots is shown to behave as the
    simple thing it stands for, a log of executed requests of which the last 16 count until
    they are too old. */
module ReceiverRuns {
  import opened Options
  import opened RemoteProtocol
  import opened CanCommandRouter
  import opened EspNowDriver
  import opened EspNowCanGateway
  import opened RequestCache
  import opened Application

  // ----- the simple receiver: a log instead of a ring -----

  function SequenceOf(data: seq<bv8>): bv16 {
    if Parse(data).Accepted? then Parse(data).message.sequenceNumber else 0
  }

  predicate SameKey(e: Execution, source: Mac, sequenceNumber: bv16) {
    e.source == source && SequenceOf(e.data) == sequenceNumber
  }

  function Slot(i: nat): nat {
    i % REQUEST_CACHE_SIZE
  }

  /** An execution still answers for its key: it is one of the last 16 and has not expired
      when its slot is looked at. */
  predicate Live(log: seq<Execution>, i: nat, source: Mac, sequenceNumber: bv16, at: seq<int>) {
    && i < |log| <= i + REQUEST_CACHE_SIZE && |at| == REQUEST_CACHE_SIZE
    && SameKey(log[i], source, sequenceNumber)
    && at[Slot(i)] - log[i].cachedAt <= REQUEST_CACHE_LIFETIME_US
  }

  ghost function LiveEntry(log: seq<Execution>, source: Mac, sequenceNumber: bv16, at: seq<int>): (r: Option<nat>)
    ensures r.Some? ==> Live(log, r.value, source, sequenceNumber, at)
    ensures r.None? ==> forall i: nat :: !Live(log, i, source, sequenceNumber, at)
  {
    if i: nat :| Live(log, i, source, sequenceNumber, at) then Some(i) else None
  }

  datatype History = History(gateway: GatewayState, log: seq<Execution>, acks: seq<Ack>, frames: seq<CanFrame>)

  /** One packet, with the log. A live execution of the key is replayed: with its recorded
      status if the packets are the same bytes, as an invalid message otherwise. Anything else
      is executed, and logged. */
  ghost function LogStep(peer: Mac, h: History, p: ReceivedPacket, w: World): History {
    if p.source != peer then h
    else match Parse(p.data)
      case Rejected(_) => h
      case Accepted(m) =>
        if !WantsAck(m) then
          var done := Process(h.gateway, m, w.answer);
          h.(gateway := done.state, frames := h.frames + Given(done.handed))
        else LogServe(h, p, m, w)
  }

  ghost function LogServe(h: History, p: ReceivedPacket, m: Message, w: World): History {
    var live := LiveEntry(h.log, p.source, m.sequenceNumber, w.at);
    if live.Some? then
      var status := if p.data == h.log[live.value].data then h.log[live.value].status else AckInvalidMessage;
      h.(acks := h.acks + [Ack(p.source, AckPacket(m, status))])
    else
      var done, x := Process(h.gateway, m, w.answer), ExecutionOf(h.gateway, p, m, w);
      History(done.state, h.log + [x], h.acks + [Ack(p.source, AckPacket(m, x.status))], h.frames + Given(done.handed))
  }

  // ----- what the log always satisfies -----

  predicate SoundEntry(e: Execution) {
    && |e.at| == REQUEST_CACHE_SIZE && (forall k :: 0 <= k < REQUEST_CACHE_SIZE ==> e.at[k] <= e.cachedAt)
    && Parse(e.data).Accepted? && WantsAck(Parse(e.data).message)
    && e.status != AckInvalidMessage
    && (e.status == AckCanTransmitted <==> e.handed.Some? && e.answer == TransmitOk)
    && (e.status == AckCanBusy || e.status == AckCanTimeout ==> e.handed.Some?)
  }

  predicate LogInOrder(log: seq<Execution>) {
    forall i, j, k :: 0 <= i < j < |log| && 0 <= k < REQUEST_CACHE_SIZE && |log[j].at| == REQUEST_CACHE_SIZE ==>
      log[i].cachedAt <= log[j].at[k]
  }

  /** Two executions of one key are more than 16 apart, or the first had expired when the
      lookup of the second looked at its slot. */
  predicate AtMostOnce(log: seq<Execution>) {
    forall i, j :: 0 <= i < j < |log| && |log[j].at| == REQUEST_CACHE_SIZE
                   && SameKey(log[j], log[i].source, SequenceOf(log[i].data)) ==>
      j - i > REQUEST_CACHE_SIZE || log[j].at[Slot(i)] - log[i].cachedAt > REQUEST_CACHE_LIFETIME_US
  }

  ghost predicate Sound(log: seq<Execution>, now: int) {
    && (forall i :: 0 <= i < |log| ==> SoundEntry(log[i]))
    && (forall i :: 0 <= i < |log| ==> log[i].cachedAt <= now)
    && LogInOrder(log)
    && AtMostOnce(log)
  }

  // ----- what the ring holds -----

  /** A slot holds a logged execution, its valid flag apart. */
  predicate Stores(e: CachedRequest, x: Execution) {
    && Parse(x.data).Accepted?
    && Parse(x.data).message.payloadLength as nat <= RemoteProtocol.MAX_PAYLOAD_SIZE
    && e == EntryFor(x.source, Parse(x.data).message, x.status, x.cachedAt).(valid := e.valid)
  }

  /** Slot by slot: the last 16 executions are in the ring, each in its place, and only those
      that have expired may have lost their valid flag; unused slots are not valid. */
  predicate Holds(slots: seq<CachedRequest>, next: nat, log: seq<Execution>, now: int) {
    && |slots| == REQUEST_CACHE_SIZE && next == Slot(|log|)
    && (forall i :: 0 <= i < |log| <= i + REQUEST_CACHE_SIZE ==>
          && Stores(slots[Slot(i)], log[i])
          && (slots[Slot(i)].valid || now - log[i].cachedAt > REQUEST_CACHE_LIFETIME_US))
    && (forall k :: |log| <= k < REQUEST_CACHE_SIZE ==> !slots[k].valid)
  }

  /** Every slot in use is the place of one of the last 16 executions. */
  lemma PlaceOf(k: nat, n: nat) returns (i: int)
    requires k < REQUEST_CACHE_SIZE
    ensures i < n <= i + REQUEST_CACHE_SIZE && (i >= 0 ==> Slot(i) == k)
    ensures i < 0 ==> n <= k
  {
    i := n - 1 - (n - 1 - k) % REQUEST_CACHE_SIZE;
  }

  lemma StoredKey(e: CachedRequest, x: Execution, source: Mac, sequenceNumber: bv16)
    requires Stores(e, x)
    ensures Matches(e, source, sequenceNumber) <==> SameKey(x, source, sequenceNumber)
  {
  }

  lemma LaterIsNotLive(log: seq<Execution>, i: nat, j: nat, source: Mac, sequenceNumber: bv16, at: seq<int>, now: int)
    requires Sound(log, now) && |at| == REQUEST_CACHE_SIZE && forall k :: 0 <= k < REQUEST_CACHE_SIZE ==> now <= at[k]
    requires i < j && Live(log, i, source, sequenceNumber, at)
    ensures !Live(log, j, source, sequenceNumber, at)
  {
  }

  /** No two of the last 16 executions are live for one key. */
  lemma LiveIsUnique(log: seq<Execution>, i: nat, j: nat, source: Mac, sequenceNumber: bv16, at: seq<int>, now: int)
    requires Sound(log, now) && |at| == REQUEST_CACHE_SIZE && forall k :: 0 <= k < REQUEST_CACHE_SIZE ==> now <= at[k]
    requires Live(log, i, source, sequenceNumber, at) && Live(log, j, source, sequenceNumber, at)
    ensures i == j
  {
    if i < j {
      LaterIsNotLive(log, i, j, source, sequenceNumber, at, now);
    } else if j < i {
      LaterIsNotLive(log, j, i, source, sequenceNumber, at, now);
    }
  }

  // ----- the lookup in the ring is the lookup in the log -----

  /** The ring's lookup finds an entry exactly when the log has a live one, and it is the
      record of that execution. */
  lemma LookupFindsLive(slots: seq<CachedRequest>, next: nat, log: seq<Execution>, now: int,
                        source: Mac, sequenceNumber: bv16, at: seq<int>, to: int)
    requires Holds(slots, next, log, now) && Sound(log, now) && Readings(at, now, to)
    ensures var hit, live := FirstHit(slots, source, sequenceNumber, at, 0), LiveEntry(log, source, sequenceNumber, at);
            && (hit.Some? <==> live.Some?)
            && (hit.Some? ==> hit.value == Slot(live.value) && Stores(slots[hit.value], log[live.value]))
  {
    var hit, live := FirstHit(slots, source, sequenceNumber, at, 0), LiveEntry(log, source, sequenceNumber, at);
    if hit.Some? {
      HitIsLive(slots, next, log, now, source, sequenceNumber, at, hit.value);
      var i := PlaceOf(hit.value, |log|);
      LiveIsUnique(log, i, live.value, source, sequenceNumber, at, now);
    } else if live.Some? {
      LiveIsHit(slots, next, log, now, source, sequenceNumber, at, live.value);
    }
  }

  lemma HitIsLive(slots: seq<CachedRequest>, next: nat, log: seq<Execution>, now: int,
                  source: Mac, sequenceNumber: bv16, at: seq<int>, k: nat)
    requires Holds(slots, next, log, now) && |at| == REQUEST_CACHE_SIZE && k < REQUEST_CACHE_SIZE
    requires IsHit(slots[k], source, sequenceNumber, at[k])
    ensures forall i: nat :: i < |log| <= i + REQUEST_CACHE_SIZE && Slot(i) == k ==>
              Live(log, i, source, sequenceNumber, at)
    ensures exists i: nat :: i < |log| <= i + REQUEST_CACHE_SIZE && Slot(i) == k
  {
    var i := PlaceOf(k, |log|);
    forall i: nat | i < |log| <= i + REQUEST_CACHE_SIZE && Slot(i) == k
      ensures Live(log, i, source, sequenceNumber, at)
    {
      StoredKey(slots[k], log[i], source, sequenceNumber);
    }
  }

  lemma LiveIsHit(slots: seq<CachedRequest>, next: nat, log: seq<Execution>, now: int,
                  source: Mac, sequenceNumber: bv16, at: seq<int>, i: nat)
    requires Holds(slots, next, log, now)
    requires |at| == REQUEST_CACHE_SIZE && forall k :: 0 <= k < REQUEST_CACHE_SIZE ==> now <= at[k]
    requires Live(log, i, source, sequenceNumber, at)
    ensures IsHit(slots[Slot(i)], source, sequenceNumber, at[Slot(i)])
  {
  }

  // ----- what one packet keeps -----

  /** A lookup clears only expired slots. */
  lemma LookupKeeps(slots: seq<CachedRequest>, next: nat, log: seq<Execution>, now: int,
                    at: seq<int>, hit: Option<nat>, to: int)
    requires Holds(slots, next, log, now) && Readings(at, now, to) && now <= to
    ensures Holds(AfterLookup(slots, at, hit), next, log, to)
  {
  }

  lemma SlotsDiffer(i: nat, n: nat)
    requires i < n < i + REQUEST_CACHE_SIZE
    ensures Slot(i) != Slot(n)
  {
  }

  lemma SlotFacts(n: nat)
    ensures Slot(n) < REQUEST_CACHE_SIZE && (Slot(n) + 1) % REQUEST_CACHE_SIZE == Slot(n + 1)
    ensures n < REQUEST_CACHE_SIZE ==> Slot(n) == n
  {
  }

  /** The new record replaces the one that falls out of the last 16. */
  lemma InsertKeeps(slots: seq<CachedRequest>, next: nat, log: seq<Execution>, now: int,
                    e: CachedRequest, x: Execution, to: int)
    requires Holds(slots, next, log, now) && now <= to && Stores(e, x) && e.valid
    ensures next < REQUEST_CACHE_SIZE && Holds(slots[next := e], (next + 1) % REQUEST_CACHE_SIZE, log + [x], to)
  {
    hide Stores;
    hide Slot;
    var n := |log|;
    forall i: nat ensures Slot(i) < REQUEST_CACHE_SIZE {
      SlotFacts(i);
    }
    SlotFacts(n);
    var after, longer := slots[next := e], log + [x];
    forall i | 0 <= i < |longer| <= i + REQUEST_CACHE_SIZE
      ensures Stores(after[Slot(i)], longer[i])
      ensures after[Slot(i)].valid || to - longer[i].cachedAt > REQUEST_CACHE_LIFETIME_US
    {
      SlotFacts(i);
      if i < n {
        SlotsDiffer(i, n);
        assert longer[i] == log[i] && after[Slot(i)] == slots[Slot(i)];
      }
    }
    forall k | n + 1 <= k < REQUEST_CACHE_SIZE ensures !after[k].valid {
      assert !slots[k].valid;
    }
  }

  /** Executing a request whose key is not live keeps the log sound. */
  lemma ExecutionKeeps(log: seq<Execution>, now: int, x: Execution)
    requires Sound(log, now) && SoundEntry(x) && forall k :: 0 <= k < REQUEST_CACHE_SIZE ==> now <= x.at[k]
    requires forall i: nat :: !Live(log, i, x.source, SequenceOf(x.data), x.at)
    ensures Sound(log + [x], x.cachedAt)
  {
    hide LogInOrder;
    hide AtMostOnce;
    hide Live;
    hide SequenceOf;
    hide Parse;
    hide WantsAck;
    assert now <= x.at[0] <= x.cachedAt;
    AddedInOrder(log, now, x);
    AddedOnce(log, x);
  }

  lemma AddedInOrder(log: seq<Execution>, now: int, x: Execution)
    requires LogInOrder(log) && (forall i :: 0 <= i < |log| ==> log[i].cachedAt <= now)
    requires |x.at| == REQUEST_CACHE_SIZE && forall k :: 0 <= k < REQUEST_CACHE_SIZE ==> now <= x.at[k]
    ensures LogInOrder(log + [x])
  {
  }

  lemma AddedOnce(log: seq<Execution>, x: Execution)
    requires AtMostOnce(log) && |x.at| == REQUEST_CACHE_SIZE
    requires forall i: nat :: !Live(log, i, x.source, SequenceOf(x.data), x.at)
    ensures AtMostOnce(log + [x])
  {
    var longer := log + [x];
    forall i, j | 0 <= i < j < |longer| && |longer[j].at| == REQUEST_CACHE_SIZE
                  && SameKey(longer[j], longer[i].source, SequenceOf(longer[i].data))
      ensures j - i > REQUEST_CACHE_SIZE || longer[j].at[Slot(i)] - longer[i].cachedAt > REQUEST_CACHE_LIFETIME_US
    {
      if j == |log| {
        assert !Live(log, i, x.source, SequenceOf(x.data), x.at);
      }
    }
  }

  // ----- one packet: the ring does what the log does -----

  lemma RequestIsProcessable(data: seq<bv8>)
    requires Parse(data).Accepted?
    ensures Encodable(Parse(data).message)
    ensures WantsAck(Parse(data).message) ==> GoodForm(Parse(data).message)
  {
    if WantsAck(Parse(data).message) {
      ProcessableIff(Parse(data).message);
    }
  }

  /** The status recorded for a request says what became of it: how the transmission was
      answered if a frame was handed over, why routing refused it if not, and a failed
      transmission also if there was no gateway or no valid tables. It is never
      InvalidMessage. */
  lemma RecordedStatus(g: GatewayState, m: Message, answer: TransmitResult)
    requires 1 <= m.mtype <= 5 && m.flags & 0xFC == 0 && m.flags & 0x02 == 0 && m.payloadLength <= 64
    ensures var done, routing := Process(g, m, answer), Route(m, g.config.router);
            var status := MapAckStatus(done.result);
            && (done.handed.Some? <==> g.initialized && routing.Routed?)
            && (status == AckCanTransmitted <==> done.handed.Some? && answer == TransmitOk)
            && (status == AckCanBusy <==> done.handed.Some? && answer == TransmitBusy)
            && (status == AckCanTimeout <==> done.handed.Some? && answer == TransmitTimeout)
            && (status == AckUnsupportedMessage <==>
                  g.initialized && routing == NotRouted(RouteInvalidMessageType))
            && (status == AckUnknownCommand <==> g.initialized && routing == NotRouted(UnknownCommand))
            && (status == AckInvalidPayloadLength <==> g.initialized && routing == NotRouted(InvalidPayloadLength))
            && (status == AckInvalidPayloadValue <==> g.initialized && routing == NotRouted(InvalidPayloadValue))
            && (status == AckCanTransmitFailed <==>
                  || !g.initialized || !ValidConfig(g.config.router)
                  || (done.handed.Some? && answer == TransmitFailed))
            && status != AckInvalidMessage
  {
    ProcessableIff(m);
    ConfigurationErrorIff(m, g.config.router);
    RefusalHasReason(m, g.config.router);
    hide Route;
    hide ValidConfig;
  }

  lemma RefusalHasReason(m: Message, c: Config)
    ensures Route(m, c).NotRouted? ==> Route(m, c).reason != RouteOk
  {
  }

  /** A request repeats a recorded one, field by field, exactly when the packets are the same
      bytes. */
  lemma SameRequestIsSameBytes(e: CachedRequest, x: Execution, data: seq<bv8>)
    requires Stores(e, x) && Parse(data).Accepted? && SequenceOf(data) == SequenceOf(x.data)
    ensures Parse(data).message.payloadLength as nat <= RemoteProtocol.MAX_PAYLOAD_SIZE
    ensures IsSameRequest(e, Parse(data).message) <==> data == x.data
  {
    EncodeDecode(data);
    EncodeDecode(x.data);
    var m, k := Parse(data).message, Parse(x.data).message;
    hide Parse;
    hide Packet;
    hide Encodable;
    if IsSameRequest(e, m) {
      var n := m.payloadLength as nat;
      assert Padded(k.payload[..n])[..n] == k.payload[..n];
      assert m == k;
    }
  }

  lemma EntryIsStored(p: ReceivedPacket, m: Message, status: AcknowledgementStatus, w: World, handed: Option<CanFrame>)
    requires Parse(p.data) == Accepted(m) && m.payloadLength as nat <= RemoteProtocol.MAX_PAYLOAD_SIZE
    ensures var e := EntryFor(p.source, m, status, w.cachedAt);
            e.valid && Stores(e, Execution(p.source, p.data, status, w.at, w.cachedAt, handed, w.answer))
  {
  }

  /** A run so far: the receiver's state, and everything it did. */
  datatype Trace = Trace(state: State, log: seq<Execution>, acks: seq<Ack>, frames: seq<CanFrame>)

  function Seen(t: Trace): History {
    History(t.state.gateway, t.log, t.acks, t.frames)
  }

  ghost function Extend(t: Trace, p: ReceivedPacket, w: World): Trace
    requires WellShaped(t.state) && |w.at| == REQUEST_CACHE_SIZE
  {
    var e := Step(t.state, p, w);
    Trace(e.state, t.log + e.executed, t.acks + e.acks, t.frames + e.frames)
  }

  /** The ring holds the log, and the log is sound. */
  ghost predicate Faithful(t: Trace, now: int) {
    && WellShaped(t.state)
    && Holds(t.state.slots, t.state.next, t.log, now)
    && Sound(t.log, now)
  }

  lemma FaithfulLater(t: Trace, now: int, later: int)
    requires Faithful(t, now) && now <= later
    ensures Faithful(t, later)
  {
  }

  lemma SweptStillStores(e: CachedRequest, x: Execution, now: int)
    requires Stores(e, x)
    ensures Stores(Swept(e, now), x)
  {
  }

  ghost function Served(t: Trace, p: ReceivedPacket, m: Message, w: World): Trace
    requires WellShaped(t.state) && |w.at| == REQUEST_CACHE_SIZE
    requires m.payloadLength as nat <= RemoteProtocol.MAX_PAYLOAD_SIZE
  {
    var e := Serve(t.state, p, m, w);
    Trace(e.state, t.log + e.executed, t.acks + e.acks, t.frames + e.frames)
  }

  lemma ReplayAgrees(t: Trace, p: ReceivedPacket, m: Message, w: World, now: int)
    requires Faithful(t, now) && Timely(w, now, w.cachedAt)
    requires Parse(p.data) == Accepted(m) && m.payloadLength as nat <= RemoteProtocol.MAX_PAYLOAD_SIZE
    requires FirstHit(t.state.slots, p.source, m.sequenceNumber, w.at, 0).Some?
    ensures Seen(Served(t, p, m, w)) == LogServe(Seen(t), p, m, w)
  {
    hide *;
    ReplayedStatus(t, p, m, w, now);
    RingReplays(t, p, m, w);
    SeenParts(t);
    LogReplays(Seen(t), p, m, w);
  }

  lemma SeenParts(t: Trace)
    ensures Seen(t).gateway == t.state.gateway && Seen(t).log == t.log
    ensures Seen(t).acks == t.acks && Seen(t).frames == t.frames
  {
  }

  lemma RingReplays(t: Trace, p: ReceivedPacket, m: Message, w: World)
    requires WellShaped(t.state) && |w.at| == REQUEST_CACHE_SIZE
    requires m.payloadLength as nat <= RemoteProtocol.MAX_PAYLOAD_SIZE
    requires FirstHit(t.state.slots, p.source, m.sequenceNumber, w.at, 0).Some?
    ensures var hit := FirstHit(t.state.slots, p.source, m.sequenceNumber, w.at, 0);
            var cached := AfterLookup(t.state.slots, w.at, hit)[hit.value];
            var status := if IsSameRequest(cached, m) then cached.status else AckInvalidMessage;
            Seen(Served(t, p, m, w)) == Seen(t).(acks := t.acks + [Ack(p.source, AckPacket(m, status))])
  {
    hide IsSameRequest;
    hide AckPacket;
    hide FirstHit;
    hide Execute;
  }

  lemma LogReplays(h: History, p: ReceivedPacket, m: Message, w: World)
    requires m.payloadLength as nat <= RemoteProtocol.MAX_PAYLOAD_SIZE
    requires LiveEntry(h.log, p.source, m.sequenceNumber, w.at).Some?
    ensures var x := h.log[LiveEntry(h.log, p.source, m.sequenceNumber, w.at).value];
            var status := if p.data == x.data then x.status else AckInvalidMessage;
            LogServe(h, p, m, w) == h.(acks := h.acks + [Ack(p.source, AckPacket(m, status))])
  {
  }

  lemma ReplayedStatus(t: Trace, p: ReceivedPacket, m: Message, w: World, now: int)
    requires Faithful(t, now) && Timely(w, now, w.cachedAt)
    requires Parse(p.data) == Accepted(m) && m.payloadLength as nat <= RemoteProtocol.MAX_PAYLOAD_SIZE
    requires FirstHit(t.state.slots, p.source, m.sequenceNumber, w.at, 0).Some?
    ensures WellShaped(t.state) && |w.at| == REQUEST_CACHE_SIZE
    ensures var hit := FirstHit(t.state.slots, p.source, m.sequenceNumber, w.at, 0);
            var live := LiveEntry(t.log, p.source, m.sequenceNumber, w.at);
            var cached := AfterLookup(t.state.slots, w.at, hit)[hit.value];
            && live.Some? && cached.status == t.log[live.value].status
            && (IsSameRequest(cached, m) <==> p.data == t.log[live.value].data)
  {
    var hit := FirstHit(t.state.slots, p.source, m.sequenceNumber, w.at, 0);
    LookupFindsLive(t.state.slots, t.state.next, t.log, now, p.source, m.sequenceNumber, w.at, w.cachedAt);
    var x := t.log[LiveEntry(t.log, p.source, m.sequenceNumber, w.at).value];
    SweptStillStores(t.state.slots[hit.value], x, w.at[hit.value]);
    SameRequestIsSameBytes(AfterLookup(t.state.slots, w.at, hit)[hit.value], x, p.data);
  }

  /** What a miss and the execution after it leave behind. */
  ghost function Executed(t: Trace, p: ReceivedPacket, m: Message, w: World): Trace
    requires WellShaped(t.state) && |w.at| == REQUEST_CACHE_SIZE
    requires m.payloadLength as nat <= RemoteProtocol.MAX_PAYLOAD_SIZE
  {
    var e := Execute(t.state.(slots := AfterLookup(t.state.slots, w.at, None)), p, m, w);
    Trace(e.state, t.log + e.executed, t.acks + e.acks, t.frames + e.frames)
  }

  lemma ExecuteAgrees(t: Trace, p: ReceivedPacket, m: Message, w: World, now: int)
    requires Faithful(t, now) && Timely(w, now, w.cachedAt) && m.payloadLength as nat <= RemoteProtocol.MAX_PAYLOAD_SIZE
    requires FirstHit(t.state.slots, p.source, m.sequenceNumber, w.at, 0).None?
    ensures Seen(Executed(t, p, m, w)) == LogServe(Seen(t), p, m, w)
  {
    LookupFindsLive(t.state.slots, t.state.next, t.log, now, p.source, m.sequenceNumber, w.at, w.cachedAt);
    hide Faithful;
    hide FirstHit;
    hide Process;
    hide AckPacket;
    hide ExecutionOf;
    hide EntryFor;
  }

  lemma ExecuteKeepsFaith(t: Trace, p: ReceivedPacket, m: Message, w: World, now: int)
    requires Faithful(t, now) && Timely(w, now, w.cachedAt)
    requires Parse(p.data) == Accepted(m) && m.payloadLength as nat <= RemoteProtocol.MAX_PAYLOAD_SIZE && WantsAck(m)
    requires FirstHit(t.state.slots, p.source, m.sequenceNumber, w.at, 0).None?
    ensures Faithful(Executed(t, p, m, w), w.cachedAt)
  {
    var x := ExecutionOf(t.state.gateway, p, m, w);
    ExecutionIsSound(t.state.gateway, p, m, w, now);
    hide *;
    RecordKeeps(t, x, EntryFor(p.source, m, x.status, w.cachedAt), now);
    ExecutedParts(t, p, m, w, now);
  }

  lemma ExecutedParts(t: Trace, p: ReceivedPacket, m: Message, w: World, now: int)
    requires WellShaped(t.state) && |w.at| == REQUEST_CACHE_SIZE
    requires m.payloadLength as nat <= RemoteProtocol.MAX_PAYLOAD_SIZE
    ensures var x := ExecutionOf(t.state.gateway, p, m, w);
            var e := EntryFor(p.source, m, x.status, w.cachedAt);
            var swept := AfterLookup(t.state.slots, w.at, None);
            && |swept| == REQUEST_CACHE_SIZE && t.state.next < REQUEST_CACHE_SIZE
            && Executed(t, p, m, w).log == t.log + [x]
            && Executed(t, p, m, w).state.slots == swept[t.state.next := e]
            && Executed(t, p, m, w).state.next == (t.state.next + 1) % REQUEST_CACHE_SIZE
  {
  }

  lemma RecordKeeps(t: Trace, x: Execution, e: CachedRequest, now: int)
    requires Faithful(t, now) && SoundEntry(x) && Readings(x.at, now, x.cachedAt) && now <= x.cachedAt
    requires Stores(e, x) && e.valid
    requires FirstHit(t.state.slots, x.source, SequenceOf(x.data), x.at, 0).None?
    ensures t.state.next < REQUEST_CACHE_SIZE
    ensures Holds(AfterLookup(t.state.slots, x.at, None)[t.state.next := e], (t.state.next + 1) % REQUEST_CACHE_SIZE,
                  t.log + [x], x.cachedAt)
    ensures Sound(t.log + [x], x.cachedAt)
  {
    hide *;
    FaithfulParts(t, now);
    RecordKeepsLog(t.state.slots, t.state.next, t.log, x, now);
    RecordKeepsRing(t.state.slots, t.state.next, t.log, x, e, now);
  }

  lemma FaithfulParts(t: Trace, now: int)
    requires Faithful(t, now)
    ensures WellShaped(t.state) && t.state.next < REQUEST_CACHE_SIZE && |t.state.slots| == REQUEST_CACHE_SIZE
    ensures Holds(t.state.slots, t.state.next, t.log, now) && Sound(t.log, now)
  {
  }

  lemma RecordKeepsLog(slots: seq<CachedRequest>, next: nat, log: seq<Execution>, x: Execution, now: int)
    requires Holds(slots, next, log, now) && Sound(log, now)
    requires SoundEntry(x) && Readings(x.at, now, x.cachedAt)
    requires FirstHit(slots, x.source, SequenceOf(x.data), x.at, 0).None?
    ensures Sound(log + [x], x.cachedAt)
  {
    LookupFindsLive(slots, next, log, now, x.source, SequenceOf(x.data), x.at, x.cachedAt);
    hide Sound;
    hide Holds;
    hide SoundEntry;
    hide Live;
    ExecutionKeeps(log, now, x);
  }

  lemma RecordKeepsRing(slots: seq<CachedRequest>, next: nat, log: seq<Execution>, x: Execution, e: CachedRequest,
                        now: int)
    requires Holds(slots, next, log, now) && Readings(x.at, now, x.cachedAt) && now <= x.cachedAt
    requires Stores(e, x) && e.valid && |slots| == REQUEST_CACHE_SIZE && next < REQUEST_CACHE_SIZE
    ensures Holds(AfterLookup(slots, x.at, None)[next := e], (next + 1) % REQUEST_CACHE_SIZE, log + [x], x.cachedAt)
  {
    LookupKeeps(slots, next, log, now, x.at, None, x.cachedAt);
    hide Holds;
    hide Stores;
    InsertKeeps(AfterLookup(slots, x.at, None), next, log, x.cachedAt, e, x, x.cachedAt);
  }

  lemma ExecutionIsSound(g: GatewayState, p: ReceivedPacket, m: Message, w: World, now: int)
    requires Timely(w, now, w.cachedAt)
    requires Parse(p.data) == Accepted(m) && m.payloadLength as nat <= RemoteProtocol.MAX_PAYLOAD_SIZE && WantsAck(m)
    ensures var x := ExecutionOf(g, p, m, w);
            && SoundEntry(x) && x.source == p.source && SequenceOf(x.data) == m.sequenceNumber
            && x.at == w.at && x.cachedAt == w.cachedAt && |x.at| == REQUEST_CACHE_SIZE
            && (forall k :: 0 <= k < REQUEST_CACHE_SIZE ==> now <= x.at[k])
            && EntryFor(p.source, m, x.status, w.cachedAt).valid
            && Stores(EntryFor(p.source, m, x.status, w.cachedAt), x)
  {
    var done := Process(g, m, w.answer);
    RequestIsProcessable(p.data);
    RecordedStatus(g, m, w.answer);
    EntryIsStored(p, m, MapAckStatus(done.result), w, done.handed);
    hide Parse;
    hide Process;
    hide EntryFor;
  }

  lemma ReplayKeepsFaith(t: Trace, at: seq<int>, hit: Option<nat>, now: int, to: int, after: Trace)
    requires Faithful(t, now) && Readings(at, now, to) && now <= to
    requires after.state == t.state.(slots := AfterLookup(t.state.slots, at, hit)) && after.log == t.log
    ensures Faithful(after, to)
  {
    LookupKeeps(t.state.slots, t.state.next, t.log, now, at, hit, to);
    hide Holds;
    hide SoundEntry;
    hide LogInOrder;
    hide AtMostOnce;
  }

  lemma MissExecutes(t: Trace, p: ReceivedPacket, m: Message, w: World)
    requires WellShaped(t.state) && |w.at| == REQUEST_CACHE_SIZE
    requires m.payloadLength as nat <= RemoteProtocol.MAX_PAYLOAD_SIZE
    ensures var hit := FirstHit(t.state.slots, p.source, m.sequenceNumber, w.at, 0);
            && (hit.None? ==> Served(t, p, m, w) == Executed(t, p, m, w))
            && (hit.Some? ==>
                  && Served(t, p, m, w).log == t.log
                  && Served(t, p, m, w).state == t.state.(slots := AfterLookup(t.state.slots, w.at, hit)))
  {
  }

  lemma ServeAgrees(t: Trace, p: ReceivedPacket, m: Message, w: World, now: int)
    requires Faithful(t, now) && Timely(w, now, w.cachedAt)
    requires Parse(p.data) == Accepted(m) && m.payloadLength as nat <= RemoteProtocol.MAX_PAYLOAD_SIZE && WantsAck(m)
    ensures Seen(Served(t, p, m, w)) == LogServe(Seen(t), p, m, w)
    ensures Faithful(Served(t, p, m, w), w.cachedAt)
  {
    FaithfulParts(t, now);
    hide Faithful;
    hide Served;
    hide Executed;
    hide LogServe;
    hide Parse;
    hide FirstHit;
    MissExecutes(t, p, m, w);
    var hit := FirstHit(t.state.slots, p.source, m.sequenceNumber, w.at, 0);
    if hit.Some? {
      ReplayAgrees(t, p, m, w, now);
      ReplayKeepsFaith(t, w.at, hit, now, w.cachedAt, Served(t, p, m, w));
    } else {
      ExecuteAgrees(t, p, m, w, now);
      ExecuteKeepsFaith(t, p, m, w, now);
    }
  }

  /** One packet: the ring does exactly what the log does, and goes on holding it. */
  lemma StepAgrees(t: Trace, p: ReceivedPacket, w: World, now: int)
    requires Faithful(t, now) && Timely(w, now, w.cachedAt)
    ensures Seen(Extend(t, p, w)) == LogStep(t.state.peer, Seen(t), p, w)
    ensures Faithful(Extend(t, p, w), w.cachedAt) && Extend(t, p, w).state.peer == t.state.peer
  {
    FaithfulLater(t, now, w.cachedAt);
    FaithfulParts(t, now);
    hide Faithful;
    if p.source == t.state.peer && Parse(p.data).Accepted? && WantsAck(Parse(p.data).message) {
      var m := Parse(p.data).message;
      AcceptedIsEncodable(p.data);
      ServeAgrees(t, p, m, w, now);
      hide *;
      StepServes(t, p, m, w);
    } else {
      StepServesNothing(t, p, w);
      hide *;
      StepKeepsFaith(t, Extend(t, p, w), w.cachedAt);
    }
  }

  lemma StepServes(t: Trace, p: ReceivedPacket, m: Message, w: World)
    requires WellShaped(t.state) && |w.at| == REQUEST_CACHE_SIZE
    requires m.payloadLength as nat <= RemoteProtocol.MAX_PAYLOAD_SIZE
    requires p.source == t.state.peer && Parse(p.data) == Accepted(m) && WantsAck(m)
    ensures Extend(t, p, w) == Served(t, p, m, w) && Served(t, p, m, w).state.peer == t.state.peer
    ensures LogStep(t.state.peer, Seen(t), p, w) == LogServe(Seen(t), p, m, w)
  {
  }

  lemma StepServesNothing(t: Trace, p: ReceivedPacket, w: World)
    requires WellShaped(t.state) && |w.at| == REQUEST_CACHE_SIZE
    requires !(p.source == t.state.peer && Parse(p.data).Accepted? && WantsAck(Parse(p.data).message))
    ensures var after := Extend(t, p, w);
            && after.state == t.state.(gateway := after.state.gateway) && after.log == t.log
            && Seen(after) == LogStep(t.state.peer, Seen(t), p, w)
  {
  }

  lemma StepKeepsFaith(t: Trace, after: Trace, now: int)
    requires Faithful(t, now)
    requires after.state == t.state.(gateway := after.state.gateway) && after.log == t.log
    ensures Faithful(after, now)
  {
  }

  // ----- whole runs -----

  datatype Tick = Tick(packet: ReceivedPacket, world: World)

  /** When the timer was last read in a run that began at start. */
  function Now(start: int, ticks: seq<Tick>): int {
    if ticks == [] then start else ticks[|ticks| - 1].world.cachedAt
  }

  /** The timer does not run backwards, within a packet or from one to the next. */
  ghost predicate TimelyRun(start: int, ticks: seq<Tick>) {
    ticks != [] ==>
      var before, w := ticks[..|ticks| - 1], ticks[|ticks| - 1].world;
      TimelyRun(start, before) && Timely(w, Now(start, before), w.cachedAt)
  }

  /** A receiver that has just started: no slot in use. */
  predicate Fresh(s: State) {
    WellShaped(s) && s.next == 0 && forall k :: 0 <= k < REQUEST_CACHE_SIZE ==> !s.slots[k].valid
  }

  /** What the receiver did over a run. */
  ghost function Run(s: State, start: int, ticks: seq<Tick>): (t: Trace)
    requires Fresh(s) && TimelyRun(start, ticks)
    ensures WellShaped(t.state)
  {
    if ticks == [] then Trace(s, [], [], [])
    else
      var last := ticks[|ticks| - 1];
      Extend(Run(s, start, ticks[..|ticks| - 1]), last.packet, last.world)
  }

  /** What the receiver with a log does over the same run. */
  ghost function LogRun(s: State, ticks: seq<Tick>): History {
    if ticks == [] then History(s.gateway, [], [], [])
    else
      var last := ticks[|ticks| - 1];
      LogStep(s.peer, LogRun(s, ticks[..|ticks| - 1]), last.packet, last.world)
  }

  /** The ring refines the log: over every run the two execute the same requests, hand over
      the same frames and send the same acknowledgements. */
  lemma {:induction false} RingRefinesLog(s: State, start: int, ticks: seq<Tick>)
    requires Fresh(s) && TimelyRun(start, ticks)
    ensures Seen(Run(s, start, ticks)) == LogRun(s, ticks)
    ensures Faithful(Run(s, start, ticks), Now(start, ticks)) && Run(s, start, ticks).state.peer == s.peer
    decreases |ticks|
  {
    if ticks != [] {
      var before, last := ticks[..|ticks| - 1], ticks[|ticks| - 1];
      RingRefinesLog(s, start, before);
      StepAgrees(Run(s, start, before), last.packet, last.world, Now(start, before));
      hide Extend;
      hide LogStep;
      hide Faithful;
      hide Timely;
    }
  }

  lemma SameSequenceIff(a: seq<bv8>, b: seq<bv8>)
    requires Parse(a).Accepted? && Parse(b).Accepted?
    ensures |a| >= 12 && |b| >= 12
    ensures SequenceOf(a) == SequenceOf(b) <==> a[5] == b[5] && a[6] == b[6]
  {
    hide Parse;
    hide Encodable;
    hide Join;
    hide Low;
    hide High;
    AcceptedFields(a);
    AcceptedFields(b);
    SplitJoin(a[5], a[6]);
    SplitJoin(b[5], b[6]);
  }

  /** At most once: in every run, two executions of one sequence number from one sender have
      at least 16 other executions between them, or the first had outlived its lifetime when
      the lookup for the second looked for it. */
  lemma ExecutedAtMostOnce(s: State, start: int, ticks: seq<Tick>, i: nat, j: nat)
    requires Fresh(s) && TimelyRun(start, ticks)
    requires i < j < |Run(s, start, ticks).log|
    ensures var log := Run(s, start, ticks).log;
            && |log[j].at| == 16 && |log[i].data| >= 12 && |log[j].data| >= 12
            && (log[i].source == log[j].source && log[i].data[5] == log[j].data[5] && log[i].data[6] == log[j].data[6]
                ==> j - i - 1 >= 16 || log[j].at[i % 16] - log[i].cachedAt > 5_000_000)
  {
    RingRefinesLog(s, start, ticks);
    var log := Run(s, start, ticks).log;
    assert SoundEntry(log[i]) && SoundEntry(log[j]);
    hide Run;
    hide SequenceOf;
    hide Parse;
    SameSequenceIff(log[i].data, log[j].data);
  }

  // ----- keys in the ring -----

  predicate KeysDiffer(a: CachedRequest, b: CachedRequest) {
    a.sourceMac != b.sourceMac || a.sequenceNumber != b.sequenceNumber
  }

  predicate UniqueKeys(slots: seq<CachedRequest>) {
    forall a, b :: 0 <= a < b < |slots| && slots[a].valid && slots[b].valid ==> KeysDiffer(slots[a], slots[b])
  }

  lemma LookupKeepsKeys(slots: seq<CachedRequest>, at: seq<int>, hit: Option<nat>)
    requires |at| == |slots| && UniqueKeys(slots)
    ensures UniqueKeys(AfterLookup(slots, at, hit))
  {
  }

  /** A lookup that finds nothing leaves no valid slot with its key, expired or not. */
  lemma MissClearsKey(slots: seq<CachedRequest>, source: Mac, sequenceNumber: bv16, at: seq<int>, k: nat)
    requires |at| == |slots| && k < |slots| && FirstHit(slots, source, sequenceNumber, at, 0).None?
    ensures var e := AfterLookup(slots, at, None)[k];
            !(e.valid && e.sourceMac == source && e.sequenceNumber == sequenceNumber)
  {
  }

  lemma InsertKeepsKeys(slots: seq<CachedRequest>, next: nat, e: CachedRequest)
    requires UniqueKeys(slots) && next < |slots|
    requires forall k :: 0 <= k < |slots| && slots[k].valid ==> KeysDiffer(slots[k], e)
    ensures UniqueKeys(slots[next := e])
  {
  }

  lemma ServeKeepsKeys(s: State, p: ReceivedPacket, m: Message, w: World)
    requires WellShaped(s) && |w.at| == REQUEST_CACHE_SIZE && m.payloadLength as nat <= RemoteProtocol.MAX_PAYLOAD_SIZE
    requires UniqueKeys(s.slots)
    ensures UniqueKeys(Serve(s, p, m, w).state.slots)
  {
    var hit := FirstHit(s.slots, p.source, m.sequenceNumber, w.at, 0);
    LookupKeepsKeys(s.slots, w.at, hit);
    if hit.None? {
      var swept := AfterLookup(s.slots, w.at, None);
      var e := EntryFor(p.source, m, ExecutionOf(s.gateway, p, m, w).status, w.cachedAt);
      forall k | 0 <= k < REQUEST_CACHE_SIZE && swept[k].valid ensures KeysDiffer(swept[k], e) {
        MissClearsKey(s.slots, p.source, m.sequenceNumber, w.at, k);
      }
      InsertKeepsKeys(swept, s.next, e);
    }
    hide UniqueKeys;
    hide FirstHit;
    hide AfterLookup;
    hide ExecutionOf;
    hide EntryFor;
    hide Process;
    hide IsSameRequest;
    hide AckPacket;
  }

  /** In every run no two valid slots have one key, although a lookup that stops early leaves
      expired slots valid. */
  lemma {:induction false} OneSlotPerKey(s: State, start: int, ticks: seq<Tick>)
    requires Fresh(s) && TimelyRun(start, ticks)
    ensures UniqueKeys(Run(s, start, ticks).state.slots)
    decreases |ticks|
  {
    if ticks != [] {
      var before, last := ticks[..|ticks| - 1], ticks[|ticks| - 1];
      OneSlotPerKey(s, start, before);
      var t := Run(s, start, before);
      if Parse(last.packet.data).Accepted? {
        AcceptedIsEncodable(last.packet.data);
        ServeKeepsKeys(t.state, last.packet, Parse(last.packet.data).message, last.world);
      }
      hide UniqueKeys;
      hide Serve;
      hide Process;
      hide Parse;
    }
  }
}
