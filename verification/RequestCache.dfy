/** The duplicate-suppression cache: a ring of 16 requests that were executed, with expiry
    done lazily by the lookup, slot by slot, each against its own reading of the timer. */
module RequestCache {
  import opened Options
  import opened RemoteProtocol
  import opened Timer
  import opened EspNowDriver

  const REQUEST_CACHE_SIZE: nat := 16
  const REQUEST_CACHE_LIFETIME_US: int := 5 * 1000 * 1000

  datatype CachedRequest = CachedRequest(
    valid: bool,
    sourceMac: Mac,
    mtype: bv8,
    flags: bv8,
    sequenceNumber: bv16,
    messageId: bv16,
    payloadLength: bv8,
    payload: Payload,
    status: AcknowledgementStatus,
    cachedAt: int)

  function EmptyRequest(): CachedRequest {
    CachedRequest(false, NO_MAC, COMMAND, 0, 0, 0, 0, seq(64, _ => 0), AckInvalidMessage, 0)
  }

  function EntryFor(source: Mac, m: Message, status: AcknowledgementStatus, cachedAt: int): CachedRequest
    requires m.payloadLength as nat <= MAX_PAYLOAD_SIZE
  {
    CachedRequest(true, source, m.mtype, m.flags, m.sequenceNumber, m.messageId, m.payloadLength,
                  Padded(m.payload[..m.payloadLength as nat]), status, cachedAt)
  }

  /** Whether a request repeats a cached one, its sequence number and sender apart. */
  predicate IsSameRequest(cached: CachedRequest, m: Message)
    requires m.payloadLength as nat <= MAX_PAYLOAD_SIZE
  {
    && cached.mtype == m.mtype
    && cached.flags == m.flags
    && cached.messageId == m.messageId
    && cached.payloadLength == m.payloadLength
    && cached.payload[..m.payloadLength as nat] == m.payload[..m.payloadLength as nat]
  }

  // ----- the lookup -----

  predicate Expired(e: CachedRequest, now: int) {
    now - e.cachedAt > REQUEST_CACHE_LIFETIME_US
  }

  predicate Matches(e: CachedRequest, source: Mac, sequenceNumber: bv16) {
    e.sequenceNumber == sequenceNumber && e.sourceMac == source
  }

  predicate IsHit(e: CachedRequest, source: Mac, sequenceNumber: bv16, now: int) {
    e.valid && !Expired(e, now) && Matches(e, source, sequenceNumber)
  }

  /** A slot after the lookup has looked at it. */
  function Swept(e: CachedRequest, now: int): CachedRequest {
    e.(valid := e.valid && !Expired(e, now))
  }

  /** The first slot from k on that answers the lookup, slot i being looked at when the timer
      reads at[i]. */
  function FirstHit(slots: seq<CachedRequest>, source: Mac, sequenceNumber: bv16, at: seq<int>, k: nat): (r: Option<nat>)
    requires |at| == |slots| && k <= |slots|
    ensures r.Some? ==>
              && k <= r.value < |slots| && IsHit(slots[r.value], source, sequenceNumber, at[r.value])
              && forall i :: k <= i < r.value ==> !IsHit(slots[i], source, sequenceNumber, at[i])
    ensures r.None? ==> forall i :: k <= i < |slots| ==> !IsHit(slots[i], source, sequenceNumber, at[i])
    decreases |slots| - k
  {
    if k == |slots| then None
    else if IsHit(slots[k], source, sequenceNumber, at[k]) then Some(k)
    else FirstHit(slots, source, sequenceNumber, at, k + 1)
  }

  /** The slots after a lookup that stopped at a hit, or looked at all of them. */
  function AfterLookup(slots: seq<CachedRequest>, at: seq<int>, hit: Option<nat>): (r: seq<CachedRequest>)
    requires |at| == |slots|
    ensures |r| == |slots|
    ensures forall i :: 0 <= i < |slots| ==>
              r[i] == if hit.None? || i <= hit.value then Swept(slots[i], at[i]) else slots[i]
  {
    seq(|slots|, i requires 0 <= i < |slots| =>
      if hit.None? || i <= hit.value then Swept(slots[i], at[i]) else slots[i])
  }

  /** Readings of a timer that does not run backwards. */
  predicate Ordered(at: seq<int>, from: int, to: int) {
    && (forall i :: 0 <= i < |at| ==> from <= at[i] <= to)
    && (forall i, j :: 0 <= i < j < |at| ==> at[i] <= at[j])
  }

  predicate Readings(at: seq<int>, from: int, to: int) {
    |at| == REQUEST_CACHE_SIZE && Ordered(at, from, to)
  }

  class Cache {
    const clock: Clock
    var slots: array<CachedRequest>
    var next: nat

    ghost predicate Valid()
      reads this
    {
      slots.Length == REQUEST_CACHE_SIZE && next < REQUEST_CACHE_SIZE
    }

    constructor (clock: Clock)
      ensures Valid() && fresh(slots) && this.clock == clock
      ensures next == 0 && forall i :: 0 <= i < REQUEST_CACHE_SIZE ==> slots[i] == EmptyRequest()
    {
      this.clock := clock;
      slots := new CachedRequest[REQUEST_CACHE_SIZE](_ => EmptyRequest());
      next := 0;
    }

    /** The slot holding a request with this sender and sequence number, if a live one does.
        Expired slots are cleared on the way; those behind a hit are not looked at. */
    method Find(source: Mac, sequenceNumber: bv16) returns (hit: Option<nat>, ghost at: seq<int>)
      requires Valid()
      modifies slots, clock
      ensures Valid() && old(clock.now) <= clock.now && Readings(at, old(clock.now), clock.now)
      ensures hit == FirstHit(old(slots[..]), source, sequenceNumber, at, 0)
      ensures slots[..] == AfterLookup(old(slots[..]), at, hit)
    {
      at := [];
      ghost var before, start := slots[..], clock.now;
      for index := 0 to REQUEST_CACHE_SIZE
        invariant |at| == index && Valid() && start <= clock.now
        invariant Ordered(at, start, clock.now)
        invariant forall i :: 0 <= i < index ==> !IsHit(before[i], source, sequenceNumber, at[i])
        invariant forall i :: 0 <= i < index ==> slots[i] == Swept(before[i], at[i])
        invariant forall i :: index <= i < REQUEST_CACHE_SIZE ==> slots[i] == before[i]
      {
        hide Expired;
        hide IsHit;
        hide Swept;
        hide Matches;
        hide Ordered;
        ghost var earlier := clock.now;
        ghost var now := Sweep(index);
        OrderedLonger(at, start, earlier, now);
        HitIffStillValid(before[index], slots[index], source, sequenceNumber, now);
        at := at + [now];
        if slots[index].valid &&
           slots[index].sequenceNumber == sequenceNumber &&
           slots[index].sourceMac == source
        {
          hit := Some(index);
          at := LookupEnds(before, slots[..], source, sequenceNumber, at, start, now);
          return;
        }
      }
      LookupMisses(before, slots[..], source, sequenceNumber, at, 0);
      hit := None;
    }

    /** Looks at one slot: clears it if it has expired. The timer is read only for a slot in
        use. */
    method Sweep(index: nat) returns (ghost now: int)
      requires Valid() && index < REQUEST_CACHE_SIZE
      modifies slots, clock
      ensures Valid() && old(clock.now) <= clock.now == now
      ensures slots[index] == Swept(old(slots[index]), now)
      ensures forall i :: 0 <= i < REQUEST_CACHE_SIZE && i != index ==> slots[i] == old(slots[i])
    {
      if slots[index].valid {
        var t := clock.Now();
        if t - slots[index].cachedAt > REQUEST_CACHE_LIFETIME_US {
          slots[index] := slots[index].(valid := false);
        }
      }
      now := clock.now;
    }

    /** Records an executed request over the oldest one. */
    method Insert(source: Mac, message: Message, status: AcknowledgementStatus)
      requires Valid() && message.payloadLength as nat <= MAX_PAYLOAD_SIZE
      modifies this`next, slots, clock
      ensures Valid() && clock.now >= old(clock.now)
      ensures slots[..] == old(slots[..])[old(next) := EntryFor(source, message, status, clock.now)]
      ensures next == (old(next) + 1) % REQUEST_CACHE_SIZE
    {
      var now := clock.Now();
      slots[next] := EntryFor(source, message, status, now);
      next := (next + 1) % REQUEST_CACHE_SIZE;
    }
  }

  lemma HitIffStillValid(before: CachedRequest, after: CachedRequest, source: Mac, sequenceNumber: bv16, now: int)
    requires after == Swept(before, now)
    ensures Matches(after, source, sequenceNumber) <==>
              after.sequenceNumber == sequenceNumber && after.sourceMac == source
    ensures IsHit(before, source, sequenceNumber, now) <==> after.valid && Matches(after, source, sequenceNumber)
  {
  }

  lemma FirstHitIs(slots: seq<CachedRequest>, source: Mac, sequenceNumber: bv16, at: seq<int>,
                   k: nat, n: nat)
    requires |at| == |slots| && n <= k < |slots|
    requires forall i :: n <= i < k ==> !IsHit(slots[i], source, sequenceNumber, at[i])
    requires IsHit(slots[k], source, sequenceNumber, at[k])
    ensures FirstHit(slots, source, sequenceNumber, at, n) == Some(k)
    decreases k - n
  {
  }

  /** A lookup that stops early: the readings of the slots it did not look at are filled in
      with the last one, which changes nothing. */
  lemma LookupEnds(before: seq<CachedRequest>, after: seq<CachedRequest>, source: Mac, sequenceNumber: bv16,
                   at: seq<int>, from: int, now: int) returns (full: seq<int>)
    requires |before| == |after| == REQUEST_CACHE_SIZE && 0 < |at| <= REQUEST_CACHE_SIZE
    requires Ordered(at, from, now) && at[|at| - 1] == now
    requires forall i :: 0 <= i < |at| - 1 ==> !IsHit(before[i], source, sequenceNumber, at[i])
    requires forall i :: 0 <= i < |at| ==> after[i] == Swept(before[i], at[i])
    requires forall i :: |at| <= i < REQUEST_CACHE_SIZE ==> after[i] == before[i]
    requires after[|at| - 1].valid && Matches(after[|at| - 1], source, sequenceNumber)
    ensures Readings(full, from, now)
    ensures FirstHit(before, source, sequenceNumber, full, 0) == Some(|at| - 1)
    ensures after == AfterLookup(before, full, Some(|at| - 1))
  {
    full := at + seq(REQUEST_CACHE_SIZE - |at|, _ => now);
    ReadingsFilled(at, full, from, now);
    hide Ordered;
    hide IsHit;
    hide Swept;
    hide Matches;
    HitIffStillValid(before[|at| - 1], after[|at| - 1], source, sequenceNumber, now);
    FirstHitIs(before, source, sequenceNumber, full, |at| - 1, 0);
  }

  lemma ReadingsFilled(at: seq<int>, full: seq<int>, from: int, now: int)
    requires 0 < |at| <= REQUEST_CACHE_SIZE && Ordered(at, from, now) && at[|at| - 1] == now
    requires |full| == REQUEST_CACHE_SIZE && forall i :: 0 <= i < |full| ==> full[i] == if i < |at| then at[i] else now
    ensures Readings(full, from, now)
  {
  }

  lemma OrderedLonger(at: seq<int>, from: int, to: int, now: int)
    requires Ordered(at, from, to) && from <= to <= now
    ensures Ordered(at + [now], from, now)
  {
  }

  lemma LookupMisses(before: seq<CachedRequest>, after: seq<CachedRequest>, source: Mac,
                     sequenceNumber: bv16, at: seq<int>, k: nat)
    requires |before| == |after| == |at| && k <= |at|
    requires forall i :: 0 <= i < |at| ==> !IsHit(before[i], source, sequenceNumber, at[i])
    requires forall i :: 0 <= i < |at| ==> after[i] == Swept(before[i], at[i])
    ensures FirstHit(before, source, sequenceNumber, at, k) == None
    ensures after == AfterLookup(before, at, None)
    decreases |at| - k
  {
  }
}
