/** The MCP2515 driver: transmission through the registers of a
    chip that moves on its own between any two bus transfers, and reception. */
module Mcp2515 {
  import opened CanFrames
  import opened Timer

  const TXB_ABTF: bv8 := 0x40
  const TXB_MLOA: bv8 := 0x20
  const TXB_TXERR: bv8 := 0x10
  const TXB_TXREQ: bv8 := 0x08

  const N_TXBUFFERS: nat := 3
  const REGISTERS: nat := 128

  datatype Error = Ok | Fail | AllTxBusy | FailInit | FailTx | NoMsg | TxTimeout

  // ----- registers and the chip -----

  function CtrlOf(n: nat): nat { 0x30 + 0x10 * n }

  function SidhOf(n: nat): nat { CtrlOf(n) + 1 }

  function RxCtrlOf(n: nat): nat { 0x60 + 0x10 * n }

  function RxSidhOf(n: nat): nat { RxCtrlOf(n) + 1 }

  /** The registers of a transmit buffer that hold the frame: SIDH up to the last data byte. */
  function LoadOf(regs: seq<bv8>, n: nat): (r: seq<bv8>)
    requires n < N_TXBUFFERS && |regs| == REGISTERS
    ensures |r| == 13
  {
    regs[SidhOf(n)..SidhOf(n) + 13]
  }

  predicate Requested(ctrl: bv8) { ctrl & TXB_TXREQ != 0 }

  /** What the chip may do on its own: anything, except setting a transmit request or
      changing a loaded frame. */
  predicate ChipMove(before: seq<bv8>, after: seq<bv8>) {
    && |before| == |after| == REGISTERS
    && forall n :: 0 <= n < N_TXBUFFERS ==>
         && LoadOf(after, n) == LoadOf(before, n)
         && (Requested(after[CtrlOf(n)]) ==> Requested(before[CtrlOf(n)]))
  }

  /** One bus transfer, with what it found: a write all registers, a bit-modify what the register
      held. */
  datatype Transfer =
    | Read(address: nat, value: bv8)
    | ReadMany(address: nat, values: seq<bv8>)
    | Write(address: nat, values: seq<bv8>, found: seq<bv8>)
    | Modify(address: nat, mask: bv8, data: bv8, held: bv8)

  /** The chip ending a request: the buffer, and the frame it held. */
  datatype Ended = Ended(buffer: nat, load: seq<bv8>)

  function EndedBy(before: seq<bv8>, after: seq<bv8>, n: nat): seq<Ended>
    requires n <= N_TXBUFFERS && |before| == |after| == REGISTERS
  {
    if n == 0 then []
    else
      var last := if Requested(before[CtrlOf(n - 1)]) && !Requested(after[CtrlOf(n - 1)])
                  then [Ended(n - 1, LoadOf(before, n - 1))] else [];
      EndedBy(before, after, n - 1) + last
  }

  /** The effect of a sequential write, and of a bit-modify. */
  function Written(regs: seq<bv8>, address: nat, values: seq<bv8>): seq<bv8>
    requires address + |values| <= |regs|
  {
    regs[..address] + values + regs[address + |values|..]
  }

  function Modified(regs: seq<bv8>, address: nat, mask: bv8, data: bv8): seq<bv8>
    requires address < |regs|
  {
    regs[address := (regs[address] & !mask) | (data & mask)]
  }

  class Chip {
    const clock: Clock
    var regs: seq<bv8>
    ghost var trace: seq<Transfer>
    ghost var ended: seq<Ended>

    ghost predicate Valid()
      reads this
    {
      |regs| == REGISTERS
    }

    constructor (clock: Clock, initial: seq<bv8>)
      requires |initial| == REGISTERS
      ensures Valid() && this.clock == clock && regs == initial && trace == [] && ended == []
    {
      this.clock := clock;
      regs := initial;
      trace := [];
      ended := [];
    }

    /** The chip acts before every transfer, and the transfer takes time. */
    method Advance()
      requires Valid()
      modifies this, clock
      ensures Valid() && ChipMove(old(regs), regs) && clock.now > old(clock.now)
      ensures trace == old(trace) && ended == old(ended) + EndedBy(old(regs), regs, N_TXBUFFERS)
    {
      clock.Spend();
      var next: seq<bv8> := *;
      if !ChipMove(regs, next) {
        next := regs;
      }
      ended := ended + EndedBy(regs, next, N_TXBUFFERS);
      regs := next;
    }

    method ReadRegister(address: nat) returns (value: bv8)
      requires Valid() && address < REGISTERS
      modifies this, clock
      ensures Valid() && ChipMove(old(regs), regs) && clock.now > old(clock.now)
      ensures value == regs[address] && trace == old(trace) + [Read(address, value)]
      ensures ended == old(ended) + EndedBy(old(regs), regs, N_TXBUFFERS)
    {
      Advance();
      value := regs[address];
      trace := trace + [Read(address, value)];
    }

    method ReadRegisters(address: nat, n: nat) returns (values: seq<bv8>)
      requires Valid() && address + n <= REGISTERS
      modifies this, clock
      ensures Valid() && ChipMove(old(regs), regs) && clock.now > old(clock.now)
      ensures values == regs[address..address + n]
      ensures trace == old(trace) + [ReadMany(address, values)]
      ensures ended == old(ended) + EndedBy(old(regs), regs, N_TXBUFFERS)
    {
      Advance();
      values := regs[address..address + n];
      trace := trace + [ReadMany(address, values)];
    }

    method SetRegisters(address: nat, values: seq<bv8>) returns (ghost found: seq<bv8>)
      requires Valid() && address + |values| <= REGISTERS
      modifies this, clock
      ensures Valid() && ChipMove(old(regs), found) && clock.now > old(clock.now)
      ensures regs == Written(found, address, values)
      ensures trace == old(trace) + [Write(address, values, found)]
      ensures ended == old(ended) + EndedBy(old(regs), found, N_TXBUFFERS)
    {
      Advance();
      found := regs;
      regs := Written(regs, address, values);
      trace := trace + [Write(address, values, found)];
    }

    method ModifyRegister(address: nat, mask: bv8, data: bv8) returns (ghost found: seq<bv8>)
      requires Valid() && address < REGISTERS
      modifies this, clock
      ensures Valid() && ChipMove(old(regs), found) && clock.now > old(clock.now)
      ensures regs == Modified(found, address, mask, data)
      ensures trace == old(trace) + [Modify(address, mask, data, found[address])]
      ensures ended == old(ended) + EndedBy(old(regs), found, N_TXBUFFERS)
    {
      Advance();
      found := regs;
      regs := Modified(regs, address, mask, data);
      trace := trace + [Modify(address, mask, data, found[address])];
    }
  }

  // ----- sending -----

  lemma {:induction false} EndedByHas(before: seq<bv8>, after: seq<bv8>, n: nat, k: nat)
    requires n < k <= N_TXBUFFERS && |before| == |after| == REGISTERS
    requires Requested(before[CtrlOf(n)]) && !Requested(after[CtrlOf(n)])
    ensures Ended(n, LoadOf(before, n)) in EndedBy(before, after, k)
  {
    if n < k - 1 {
      EndedByHas(before, after, n, k - 1);
    }
  }

  // ----- how many requests of a buffer the chip ends -----

  /** One when a request that was pending is gone. */
  function Drops(before: bv8, after: bv8): nat {
    if Requested(before) && !Requested(after) then 1 else 0
  }

  function EndCount(ended: seq<Ended>, n: nat): nat {
    if ended == [] then 0
    else EndCount(ended[..|ended| - 1], n) + if ended[|ended| - 1].buffer == n then 1 else 0
  }

  lemma {:induction false} EndCountAppend(a: seq<Ended>, b: seq<Ended>, n: nat)
    ensures EndCount(a + b, n) == EndCount(a, n) + EndCount(b, n)
  {
    if b == [] {
      assert a + b == a;
    } else {
      assert (a + b)[..|a + b| - 1] == a + b[..|b| - 1];
      EndCountAppend(a, b[..|b| - 1], n);
    }
  }

  lemma {:induction false} EndedByCount(before: seq<bv8>, after: seq<bv8>, n: nat, k: nat)
    requires n < N_TXBUFFERS && k <= N_TXBUFFERS && |before| == |after| == REGISTERS
    ensures EndCount(EndedBy(before, after, k), n) == if n < k then Drops(before[CtrlOf(n)], after[CtrlOf(n)]) else 0
  {
    hide LoadOf;
    hide Requested;
    if k != 0 {
      EndedByCount(before, after, n, k - 1);
      var last := if Requested(before[CtrlOf(k - 1)]) && !Requested(after[CtrlOf(k - 1)])
                  then [Ended(k - 1, LoadOf(before, k - 1))] else [];
      EndCountAppend(EndedBy(before, after, k - 1), last, n);
      CountOne(last, n);
    }
  }

  lemma CountOne(ended: seq<Ended>, n: nat)
    requires |ended| <= 1
    ensures EndCount(ended, n) == if ended != [] && ended[0].buffer == n then 1 else 0
  {
  }

  /** From one moment to a later one the chip ended k requests of a buffer. */
  predicate Ends(n: nat, before: seq<Ended>, after: seq<Ended>, k: nat) {
    before <= after && EndCount(after[|before|..], n) == k
  }

  lemma NoEnds(n: nat, ended: seq<Ended>)
    ensures Ends(n, ended, ended, 0)
  {
  }

  lemma EndsThen(n: nat, a: seq<Ended>, b: seq<Ended>, c: seq<Ended>, k: nat, l: nat)
    requires Ends(n, a, b, k) && Ends(n, b, c, l)
    ensures Ends(n, a, c, k + l)
  {
    assert c[|a|..] == b[|a|..] + c[|b|..];
    EndCountAppend(b[|a|..], c[|b|..], n);
  }

  lemma MoveEnds(n: nat, ended: seq<Ended>, before: seq<bv8>, after: seq<bv8>)
    requires n < N_TXBUFFERS && ChipMove(before, after)
    ensures |before| == |after| == REGISTERS
    ensures Requested(after[CtrlOf(n)]) ==> Requested(before[CtrlOf(n)])
    ensures Ends(n, ended, ended + EndedBy(before, after, N_TXBUFFERS), Drops(before[CtrlOf(n)], after[CtrlOf(n)]))
  {
    EndedByCount(before, after, n, N_TXBUFFERS);
    assert (ended + EndedBy(before, after, N_TXBUFFERS))[|ended|..] == EndedBy(before, after, N_TXBUFFERS);
  }

  /** What the model assumes of the chip, over any number of its moves: it never sets a
      request, so no request of a buffer ends until the driver sets one. */
  lemma {:induction false} NoEndWithoutRequest(moments: seq<seq<bv8>>, n: nat, k: nat)
    requires n < N_TXBUFFERS && k < |moments| - 1
    requires forall i :: 0 <= i < |moments| - 1 ==> ChipMove(moments[i], moments[i + 1])
    requires |moments[0]| == REGISTERS && !Requested(moments[0][CtrlOf(n)])
    ensures |moments[k]| == |moments[k + 1]| == REGISTERS
    ensures EndCount(EndedBy(moments[k], moments[k + 1], N_TXBUFFERS), n) == 0
    ensures !Requested(moments[k + 1][CtrlOf(n)])
  {
    assert ChipMove(moments[k], moments[k + 1]);
    if k != 0 {
      NoEndWithoutRequest(moments, n, k - 1);
    }
    EndedByCount(moments[k], moments[k + 1], n, N_TXBUFFERS);
  }

  /** The reads of one control register, in order. */
  function Polls(n: nat, values: seq<bv8>): (r: seq<Transfer>)
    ensures |r| == |values|
  {
    seq(|values|, i requires 0 <= i < |values| => Read(CtrlOf(n), values[i]))
  }

  /** What one exchange with a buffer found: all registers when the frame was loaded, and the
      control register when old results were cleared, when the request was set, at every poll,
      and when the request was withdrawn, if it was. */
  datatype Sending = Sending(found: seq<bv8>, cleared: bv8, requested: bv8, polls: seq<bv8>, withdrawn: bv8)

  const NO_SENDING: Sending := Sending([], 0, 0, [], 0)

  /** The whole exchange with one buffer: load, clear old results, request, poll, and on
      timeout withdraw the request. */
  function Exchange(n: nat, f: RawFrame, s: Sending, timedOut: bool): seq<Transfer>
    requires f.dlc as nat <= 8 && f.dlc <= CAN_MAX_DLEN
  {
    [Write(SidhOf(n), Image(f), s.found),
     Modify(CtrlOf(n), TXB_ABTF | TXB_MLOA | TXB_TXERR, 0, s.cleared),
     Modify(CtrlOf(n), TXB_TXREQ, TXB_TXREQ, s.requested)]
    + Polls(n, s.polls)
    + if timedOut then [Modify(CtrlOf(n), TXB_TXREQ, 0, s.withdrawn)] else []
  }

  /** Whether the chip ended the request of a send: always, except after a timeout, and even
      then if the withdrawal found the request gone. */
  predicate Completed(result: Error, withdrawn: bv8) {
    result != TxTimeout || !Requested(withdrawn)
  }

  /** The result the polled values call for: decided by the last, all others still pending. */
  predicate Verdict(polls: seq<bv8>, result: Error) {
    && polls != []
    && (forall i :: 0 <= i < |polls| - 1 ==> Requested(polls[i]))
    && result == if Requested(polls[|polls| - 1]) then TxTimeout
                 else if polls[|polls| - 1] & (TXB_ABTF | TXB_TXERR) != 0 then FailTx
                 else Ok
  }

  lemma RequestBit(ctrl: bv8)
    ensures Requested((ctrl & !TXB_TXREQ) | (TXB_TXREQ & TXB_TXREQ))
    ensures !Requested((ctrl & !TXB_TXREQ) | (0 & TXB_TXREQ))
    ensures Requested((ctrl & !(TXB_ABTF | TXB_MLOA | TXB_TXERR)) | (0 & (TXB_ABTF | TXB_MLOA | TXB_TXERR)))
        <==> Requested(ctrl)
  {
  }

  /** The scan of the control registers for an idle buffer. */
  function Scan(probes: seq<bv8>): (r: seq<Transfer>)
    ensures |r| == |probes|
  {
    seq(|probes|, i requires 0 <= i < |probes| => Read(CtrlOf(i), probes[i]))
  }

  /** The buffer the scan stopped at; 3 when it found none. */
  function Chosen(probes: seq<bv8>): nat {
    if probes != [] && !Requested(probes[|probes| - 1]) then |probes| - 1 else N_TXBUFFERS
  }

  predicate SendReport(timeoutMs: nat, result: Error, probes: seq<bv8>, s: Sending) {
    && 1 <= |probes| <= N_TXBUFFERS
    && (forall i :: 0 <= i < |probes| - 1 ==> Requested(probes[i]))
    && if Chosen(probes) == N_TXBUFFERS then |probes| == N_TXBUFFERS && result == AllTxBusy
       else
         && |s.found| == REGISTERS && !Requested(s.found[CtrlOf(Chosen(probes))])
         && !Requested(s.cleared) && !Requested(s.requested)
         && Verdict(s.polls, result) && |s.polls| <= timeoutMs * 1000 + 1
  }

  function SendTrace(f: RawFrame, result: Error, probes: seq<bv8>, s: Sending): seq<Transfer>
    requires f.dlc as nat <= 8 && f.dlc <= CAN_MAX_DLEN
  {
    Scan(probes)
    + if Chosen(probes) == N_TXBUFFERS then [] else Exchange(Chosen(probes), f, s, result == TxTimeout)
  }

  /** All frames loaded in buffers other than the chosen one are as they were. */
  predicate OthersKept(before: seq<bv8>, after: seq<bv8>, chosen: nat) {
    && |before| == |after| == REGISTERS
    && forall m :: 0 <= m < N_TXBUFFERS && m != chosen ==> LoadOf(after, m) == LoadOf(before, m)
  }

  /** The chosen buffer holds the frame, and the chip ended a request for exactly it. */
  predicate Delivered(f: RawFrame, regs: seq<bv8>, n: nat, ended: seq<Ended>) {
    && f.dlc as nat <= 8 && f.dlc <= CAN_MAX_DLEN
    && n < N_TXBUFFERS && |regs| == REGISTERS
    && LoadOf(regs, n)[..|Image(f)|] == Image(f)
    && Ended(n, LoadOf(regs, n)) in ended
  }

  lemma OthersKeptSame(regs: seq<bv8>)
    requires |regs| == REGISTERS
    ensures OthersKept(regs, regs, N_TXBUFFERS)
  {
  }

  lemma MoveKeepsOthers(start: seq<bv8>, before: seq<bv8>, after: seq<bv8>, chosen: nat)
    requires OthersKept(start, before, chosen) && ChipMove(before, after)
    ensures OthersKept(start, after, chosen)
  {
  }

  lemma SendKeepsOthers(start: seq<bv8>, before: seq<bv8>, after: seq<bv8>, n: nat)
    requires OthersKept(start, before, N_TXBUFFERS) && OthersKept(before, after, n) && n < N_TXBUFFERS
    ensures OthersKept(start, after, n)
  {
  }

  lemma OthersKeptFrom(before: seq<bv8>, after: seq<bv8>, n: nat)
    requires |before| == |after| == REGISTERS && n < N_TXBUFFERS
    requires forall m :: 0 <= m < N_TXBUFFERS && m != n ==> LoadOf(after, m) == LoadOf(before, m)
    ensures OthersKept(before, after, n)
  {
  }

  lemma DeliveredLater(f: RawFrame, regs: seq<bv8>, n: nat, early: seq<Ended>, all: seq<Ended>)
    requires Delivered(f, regs, n, early) && forall x :: x in early ==> x in all
    ensures Delivered(f, regs, n, all)
  {
  }

  lemma SendTraceIs(trace: seq<Transfer>, f: RawFrame, result: Error, probes: seq<bv8>, s: Sending)
    requires f.dlc as nat <= 8 && f.dlc <= CAN_MAX_DLEN && Chosen(probes) < N_TXBUFFERS
    ensures trace + Scan(probes) + Exchange(Chosen(probes), f, s, result == TxTimeout)
         == trace + SendTrace(f, result, probes, s)
  {
  }

  lemma RequestedIff(ctrl: bv8)
    ensures Requested(ctrl) <==> ctrl & TXB_TXREQ != 0
  {
  }

  lemma IdleSend(timeoutMs: nat, result: Error, probes: seq<bv8>, s: Sending, idle: seq<bv8>)
    requires 1 <= |probes| <= N_TXBUFFERS && !Requested(probes[|probes| - 1])
    requires forall i :: 0 <= i < |probes| - 1 ==> Requested(probes[i])
    requires |idle| == REGISTERS && idle[CtrlOf(|probes| - 1)] == probes[|probes| - 1]
    requires StaysIdle(idle, |probes| - 1, s)
    requires Verdict(s.polls, result) && |s.polls| <= timeoutMs * 1000 + 1
    ensures Chosen(probes) == |probes| - 1
    ensures SendReport(timeoutMs, result, probes, s)
  {
  }

  /** Requests only drop while the buffer is being loaded. */
  predicate StaysIdle(before: seq<bv8>, n: nat, s: Sending)
    requires n < N_TXBUFFERS && |before| == REGISTERS
  {
    && |s.found| == REGISTERS
    && (Requested(s.found[CtrlOf(n)]) ==> Requested(before[CtrlOf(n)]))
    && (Requested(s.cleared) ==> Requested(s.found[CtrlOf(n)]))
    && (Requested(s.requested) ==> Requested(s.cleared))
  }

  lemma LoadIsImage(f: RawFrame, regs: seq<bv8>, n: nat, found: seq<bv8>, ended: seq<Ended>)
    requires f.dlc as nat <= 8 && f.dlc <= CAN_MAX_DLEN && n < N_TXBUFFERS && |regs| == |found| == REGISTERS
    requires LoadOf(regs, n) == Image(f) + LoadOf(found, n)[|Image(f)|..]
    requires Ended(n, LoadOf(regs, n)) in ended
    ensures Delivered(f, regs, n, ended)
  {
  }

  lemma AllBusy(f: RawFrame, timeoutMs: nat, probes: seq<bv8>)
    requires f.dlc as nat <= 8 && f.dlc <= CAN_MAX_DLEN
    requires |probes| == N_TXBUFFERS && forall i :: 0 <= i < N_TXBUFFERS ==> Requested(probes[i])
    ensures Chosen(probes) == N_TXBUFFERS
    ensures SendReport(timeoutMs, AllTxBusy, probes, NO_SENDING)
    ensures SendTrace(f, AllTxBusy, probes, NO_SENDING) == Scan(probes)
  {
  }

  class Driver {
    const chip: Chip

    constructor (chip: Chip)
      ensures this.chip == chip
    {
      this.chip := chip;
    }

    /** Loads one buffer, requests transmission and polls until the request ends or the
        deadline passes. The chip ends the request exactly when the send is completed, and an
        earlier request of the buffer exactly when it was pending and had gone by the time the
        new one was set. */
    method SendTo(n: nat, frame: RawFrame, timeoutMs: nat) returns (result: Error, ghost s: Sending)
      requires n < N_TXBUFFERS && chip.Valid()
      modifies chip, chip.clock
      ensures chip.Valid() && old(chip.ended) <= chip.ended
      ensures chip.clock.now >= old(chip.clock.now)
      ensures frame.dlc > CAN_MAX_DLEN ==>
                result == FailTx && chip.trace == old(chip.trace) && chip.regs == old(chip.regs)
      ensures frame.dlc <= CAN_MAX_DLEN ==>
                && frame.dlc as nat <= 8
                && StaysIdle(old(chip.regs), n, s)
                && Verdict(s.polls, result) && |s.polls| <= timeoutMs * 1000 + 1
                && chip.trace == old(chip.trace) + Exchange(n, frame, s, result == TxTimeout)
                && LoadOf(chip.regs, n) == Image(frame) + LoadOf(s.found, n)[|Image(frame)|..]
                && (forall m :: 0 <= m < N_TXBUFFERS && m != n ==> LoadOf(chip.regs, m) == LoadOf(old(chip.regs), m))
                && (result == TxTimeout ==> old(chip.clock.now) + timeoutMs * 1000 <= chip.clock.now)
                && (result == TxTimeout ==> !Requested(chip.regs[CtrlOf(n)]))
      ensures frame.dlc <= CAN_MAX_DLEN ==>
                && Ends(n, old(chip.ended), chip.ended,
                        Drops(old(chip.regs)[CtrlOf(n)], s.requested) + if Completed(result, s.withdrawn) then 1 else 0)
                && (Completed(result, s.withdrawn) ==>
                      Ended(n, LoadOf(chip.regs, n)) in chip.ended[|old(chip.ended)|..])
    {
      s := NO_SENDING;
      DlcFits(frame.dlc);
      if frame.dlc > CAN_MAX_DLEN {
        return FailTx, s;
      }
      var data := BuildImage(frame);
      hide *;
      ghost var found, cleared, requested, polls, withdrawn;
      found, cleared, requested := Load(n, data);
      MoveKeepsLoads(old(chip.regs), found);
      ghost var before := chip.ended;
      var now := chip.clock.Now();
      result, polls, withdrawn := Poll(n, now + timeoutMs * 1000, timeoutMs * 1000);
      s := Sending(found, cleared, requested, polls, withdrawn);
      ExchangeParts(old(chip.trace), n, frame, s, result == TxTimeout);
      IdleParts(old(chip.regs), n, s);
      EndsPrefix(n, old(chip.ended), before);
      EndsPrefix(n, before, chip.ended);
      LaterIsLater(old(chip.ended), before, chip.ended);
      EndsThen(n, old(chip.ended), before, chip.ended, Drops(old(chip.regs)[CtrlOf(n)], requested),
               if Completed(result, withdrawn) then 1 else 0);
    }

    /** Sends through the first buffer found idle, or reports that all three are busy. In the
        chosen buffer the chip ends the request that was pending at the start, if one was, and
        the new one exactly when the send is completed. */
    method Send(frame: RawFrame, timeoutMs: nat) returns (result: Error, ghost probes: seq<bv8>, ghost s: Sending)
      requires chip.Valid()
      modifies chip, chip.clock
      ensures chip.Valid() && old(chip.ended) <= chip.ended
      ensures chip.clock.now >= old(chip.clock.now)
      ensures frame.dlc > CAN_MAX_DLEN ==>
                result == FailTx && chip.trace == old(chip.trace) && chip.regs == old(chip.regs)
      ensures frame.dlc <= CAN_MAX_DLEN ==>
                && frame.dlc as nat <= 8
                && SendReport(timeoutMs, result, probes, s)
                && chip.trace == old(chip.trace) + SendTrace(frame, result, probes, s)
                && OthersKept(old(chip.regs), chip.regs, Chosen(probes))
      ensures frame.dlc <= CAN_MAX_DLEN && Chosen(probes) < N_TXBUFFERS ==>
                EndsOne(frame, Chosen(probes), old(chip.regs), chip.regs, old(chip.ended), chip.ended,
                        Completed(result, s.withdrawn))
    {
      probes, s := [], NO_SENDING;
      DlcFits(frame.dlc);
      if frame.dlc > CAN_MAX_DLEN {
        return FailTx, [], s;
      }
      hide EndsOne;
      hide OthersKept;
      hide SendReport;
      hide SendTrace;
      hide Completed;
      hide Chosen;
      hide Image;
      result, probes, s := SendFirstIdle(frame, timeoutMs);
    }

    method SendFirstIdle(frame: RawFrame, timeoutMs: nat)
      returns (result: Error, ghost probes: seq<bv8>, ghost s: Sending)
      requires chip.Valid() && frame.dlc <= CAN_MAX_DLEN && frame.dlc as nat <= 8
      modifies chip, chip.clock
      ensures chip.Valid() && old(chip.ended) <= chip.ended && chip.clock.now >= old(chip.clock.now)
      ensures SendReport(timeoutMs, result, probes, s)
      ensures chip.trace == old(chip.trace) + SendTrace(frame, result, probes, s)
      ensures OthersKept(old(chip.regs), chip.regs, Chosen(probes))
      ensures Chosen(probes) < N_TXBUFFERS ==>
                EndsOne(frame, Chosen(probes), old(chip.regs), chip.regs, old(chip.ended), chip.ended,
                        Completed(result, s.withdrawn))
    {
      probes, s := [], NO_SENDING;
      OthersKeptSame(chip.regs);
      ScanStarts(chip.regs, chip.ended);
      hide LoadOf;
      hide OthersKept;
      hide Scanned;
      hide EndsOne;
      hide Completed;
      hide Verdict;
      hide Ends;
      hide Scan;
      hide SendReport;
      hide SendTrace;
      hide Exchange;
      hide Requested;
      hide Chosen;
      hide Image;
      for i := 0 to N_TXBUFFERS
        invariant |probes| == i && chip.Valid() && old(chip.ended) <= chip.ended
        invariant chip.clock.now >= old(chip.clock.now)
        invariant forall k :: 0 <= k < i ==> Requested(probes[k])
        invariant chip.trace == old(chip.trace) + Scan(probes)
        invariant OthersKept(old(chip.regs), chip.regs, N_TXBUFFERS)
        invariant Scanned(old(chip.regs), chip.regs, old(chip.ended), chip.ended)
      {
        var ctrlval := Probe(i, old(chip.regs), old(chip.ended));
        ScanAppend(probes, ctrlval);
        RequestedIff(ctrlval);
        probes := probes + [ctrlval];
        if ctrlval & TXB_TXREQ == 0 {
          result, s := SendFound(i, frame, timeoutMs, probes, old(chip.regs), old(chip.ended), old(chip.trace));
          return;
        }
      }
      AllBusy(frame, timeoutMs, probes);
      result := AllTxBusy;
    }

    method Probe(n: nat, ghost start: seq<bv8>, ghost early: seq<Ended>) returns (ctrl: bv8)
      requires chip.Valid() && n < N_TXBUFFERS && OthersKept(start, chip.regs, N_TXBUFFERS)
      requires Scanned(start, chip.regs, early, chip.ended)
      modifies chip, chip.clock
      ensures chip.Valid() && old(chip.ended) <= chip.ended && chip.clock.now >= old(chip.clock.now)
      ensures ctrl == chip.regs[CtrlOf(n)] && chip.trace == old(chip.trace) + [Read(CtrlOf(n), ctrl)]
      ensures OthersKept(start, chip.regs, N_TXBUFFERS)
      ensures Scanned(start, chip.regs, early, chip.ended)
    {
      ghost var before, seen := chip.regs, chip.ended;
      ctrl := chip.ReadRegister(CtrlOf(n));
      MoveKeepsOthers(start, before, chip.regs, N_TXBUFFERS);
      ScanMoves(start, before, chip.regs, early, seen);
    }

    /** The send through a buffer found idle, seen from the start of the scan. */
    method SendFound(n: nat, frame: RawFrame, timeoutMs: nat, ghost probes: seq<bv8>,
                     ghost start: seq<bv8>, ghost early: seq<Ended>, ghost trace: seq<Transfer>)
      returns (result: Error, ghost s: Sending)
      requires chip.Valid() && n < N_TXBUFFERS && frame.dlc <= CAN_MAX_DLEN && frame.dlc as nat <= 8
      requires |probes| == n + 1 && forall i :: 0 <= i < n ==> Requested(probes[i])
      requires !Requested(probes[n]) && chip.regs[CtrlOf(n)] == probes[n]
      requires OthersKept(start, chip.regs, N_TXBUFFERS) && Scanned(start, chip.regs, early, chip.ended)
      requires early <= chip.ended && chip.trace == trace + Scan(probes)
      modifies chip, chip.clock
      ensures chip.Valid() && early <= chip.ended && chip.clock.now >= old(chip.clock.now)
      ensures SendReport(timeoutMs, result, probes, s) && Chosen(probes) == n
      ensures chip.trace == trace + SendTrace(frame, result, probes, s)
      ensures OthersKept(start, chip.regs, n)
      ensures EndsOne(frame, n, start, chip.regs, early, chip.ended, Completed(result, s.withdrawn))
    {
      hide OthersKept;
      hide Scanned;
      hide EndsOne;
      hide Completed;
      hide Scan;
      hide SendReport;
      hide SendTrace;
      hide Exchange;
      hide Requested;
      hide Chosen;
      hide Image;
      ghost var idle, seen := chip.regs, chip.ended;
      result, s := SendIdle(n, frame, timeoutMs, probes);
      SendTraceIs(trace, frame, result, probes, s);
      SendKeepsOthers(start, idle, chip.regs, n);
      EndsInAll(frame, n, start, idle, chip.regs, early, seen, chip.ended, Completed(result, s.withdrawn));
    }

    method SendIdle(n: nat, frame: RawFrame, timeoutMs: nat, ghost probes: seq<bv8>)
      returns (result: Error, ghost s: Sending)
      requires chip.Valid() && n < N_TXBUFFERS && frame.dlc <= CAN_MAX_DLEN && frame.dlc as nat <= 8
      requires |probes| == n + 1 && forall i :: 0 <= i < n ==> Requested(probes[i])
      requires !Requested(probes[n]) && chip.regs[CtrlOf(n)] == probes[n]
      modifies chip, chip.clock
      ensures chip.Valid() && old(chip.ended) <= chip.ended && chip.clock.now >= old(chip.clock.now)
      ensures SendReport(timeoutMs, result, probes, s) && Chosen(probes) == n
      ensures chip.trace == old(chip.trace) + Exchange(n, frame, s, result == TxTimeout)
      ensures OthersKept(old(chip.regs), chip.regs, n)
      ensures EndsOne(frame, n, old(chip.regs), chip.regs, old(chip.ended), chip.ended, Completed(result, s.withdrawn))
    {
      hide LoadOf;
      hide Exchange;
      hide Verdict;
      hide Image;
      hide Requested;
      hide StaysIdle;
      hide Completed;
      hide Drops;
      hide Ends;
      hide EndsOne;
      hide Chosen;
      result, s := SendTo(n, frame, timeoutMs);
      IdleSend(timeoutMs, result, probes, s, old(chip.regs));
      OthersKeptFrom(old(chip.regs), chip.regs, n);
      NoDrop(old(chip.regs)[CtrlOf(n)], s.requested);
      EndsOneFrom(frame, n, old(chip.regs), chip.regs, s.found, old(chip.ended), chip.ended,
                  Completed(result, s.withdrawn));
    }

    method Load(n: nat, data: seq<bv8>) returns (ghost found: seq<bv8>, ghost cleared: bv8, ghost requested: bv8)
      requires n < N_TXBUFFERS && chip.Valid() && |data| <= 13
      modifies chip, chip.clock
      ensures chip.Valid() && old(chip.ended) <= chip.ended && chip.clock.now >= old(chip.clock.now)
      ensures ChipMove(old(chip.regs), found)
      ensures chip.trace == old(chip.trace)
                + [Write(SidhOf(n), data, found),
                   Modify(CtrlOf(n), TXB_ABTF | TXB_MLOA | TXB_TXERR, 0, cleared),
                   Modify(CtrlOf(n), TXB_TXREQ, TXB_TXREQ, requested)]
      ensures LoadOf(chip.regs, n) == data + LoadOf(found, n)[|data|..]
      ensures forall m :: 0 <= m < N_TXBUFFERS && m != n ==> LoadOf(chip.regs, m) == LoadOf(found, m)
      ensures StaysIdle(old(chip.regs), n, Sending(found, cleared, requested, [], 0))
      ensures Ends(n, old(chip.ended), chip.ended, Drops(old(chip.regs)[CtrlOf(n)], requested))
      ensures Requested(chip.regs[CtrlOf(n)])
    {
      hide LoadOf;
      hide Requested;
      hide ChipMove;
      hide EndedBy;
      hide Ends;
      hide Drops;
      found := WriteLoad(n, data);
      cleared := ClearResults(n, old(chip.ended), old(chip.regs)[CtrlOf(n)]);
      requested := SetControl(n, TXB_TXREQ, TXB_TXREQ, old(chip.ended), old(chip.regs)[CtrlOf(n)]);
      RequestBit(requested);
    }

    /** Clears the results of the transmission before, which leaves a request as it is. */
    method ClearResults(n: nat, ghost early: seq<Ended>, ghost first: bv8) returns (ghost found: bv8)
      requires n < N_TXBUFFERS && chip.Valid() && early <= chip.ended
      requires Ends(n, early, chip.ended, Drops(first, chip.regs[CtrlOf(n)]))
      requires Requested(chip.regs[CtrlOf(n)]) ==> Requested(first)
      modifies chip, chip.clock
      ensures chip.Valid() && old(chip.ended) <= chip.ended && chip.clock.now > old(chip.clock.now)
      ensures chip.trace == old(chip.trace) + [Modify(CtrlOf(n), TXB_ABTF | TXB_MLOA | TXB_TXERR, 0, found)]
      ensures Requested(chip.regs[CtrlOf(n)]) <==> Requested(found)
      ensures forall m :: 0 <= m < N_TXBUFFERS ==> LoadOf(chip.regs, m) == LoadOf(old(chip.regs), m)
      ensures Requested(found) ==> Requested(old(chip.regs)[CtrlOf(n)])
      ensures Ends(n, early, chip.ended, Drops(first, chip.regs[CtrlOf(n)]))
    {
      hide LoadOf;
      hide Requested;
      hide Ends;
      hide Drops;
      found := SetControl(n, TXB_ABTF | TXB_MLOA | TXB_TXERR, 0, early, first);
      RequestBit(found);
      SameDrops(first, found, chip.regs[CtrlOf(n)]);
    }

    /** The sequential write of a frame's registers. */
    method WriteLoad(n: nat, data: seq<bv8>) returns (ghost found: seq<bv8>)
      requires n < N_TXBUFFERS && chip.Valid() && |data| <= 13
      modifies chip, chip.clock
      ensures chip.Valid() && old(chip.ended) <= chip.ended && chip.clock.now >= old(chip.clock.now)
      ensures ChipMove(old(chip.regs), found) && |found| == REGISTERS
      ensures chip.trace == old(chip.trace) + [Write(SidhOf(n), data, found)]
      ensures LoadOf(chip.regs, n) == data + LoadOf(found, n)[|data|..]
      ensures forall m :: 0 <= m < N_TXBUFFERS && m != n ==> LoadOf(chip.regs, m) == LoadOf(found, m)
      ensures chip.regs[CtrlOf(n)] == found[CtrlOf(n)]
      ensures Requested(found[CtrlOf(n)]) ==> Requested(old(chip.regs)[CtrlOf(n)])
      ensures Ends(n, old(chip.ended), chip.ended, Drops(old(chip.regs)[CtrlOf(n)], found[CtrlOf(n)]))
    {
      found := chip.SetRegisters(SidhOf(n), data);
      LoadedImage(found, chip.regs, n, data);
      MoveEnds(n, old(chip.ended), old(chip.regs), found);
      hide Ends;
      hide LoadOf;
      hide EndedBy;
      hide Drops;
    }

    /** One bit-modify of a transmit control register. */
    method SetControl(n: nat, mask: bv8, data: bv8, ghost early: seq<Ended>, ghost first: bv8)
      returns (ghost found: bv8)
      requires n < N_TXBUFFERS && chip.Valid() && early <= chip.ended
      requires Ends(n, early, chip.ended, Drops(first, chip.regs[CtrlOf(n)]))
      requires Requested(chip.regs[CtrlOf(n)]) ==> Requested(first)
      modifies chip, chip.clock
      ensures chip.Valid() && old(chip.ended) <= chip.ended && chip.clock.now > old(chip.clock.now)
      ensures chip.trace == old(chip.trace) + [Modify(CtrlOf(n), mask, data, found)]
      ensures chip.regs[CtrlOf(n)] == (found & !mask) | (data & mask)
      ensures forall m :: 0 <= m < N_TXBUFFERS ==> LoadOf(chip.regs, m) == LoadOf(old(chip.regs), m)
      ensures Requested(found) ==> Requested(old(chip.regs)[CtrlOf(n)])
      ensures Ends(n, early, chip.ended, Drops(first, found))
      ensures !Requested(found) && Requested(old(chip.regs)[CtrlOf(n)]) ==>
                Ended(n, LoadOf(chip.regs, n)) in chip.ended[|old(chip.ended)|..]
    {
      ghost var before, seen := chip.regs, chip.ended;
      ghost var regs := chip.ModifyRegister(CtrlOf(n), mask, data);
      found := regs[CtrlOf(n)];
      MoveKeepsLoads(before, regs);
      ControlOnly(regs, chip.regs, n);
      MoveEnds(n, seen, before, regs);
      EndsThen(n, early, seen, chip.ended, Drops(first, before[CtrlOf(n)]), Drops(before[CtrlOf(n)], found));
      if !Requested(found) && Requested(before[CtrlOf(n)]) {
        EndedByHas(before, regs, n, N_TXBUFFERS);
      }
    }

    /** Polls until the request ends or the deadline passes. Until then the chip ends no request
        of the buffer; after the deadline it has ended this one exactly when the withdrawal found
        it gone. */
    method Poll(n: nat, deadline: int, ghost budget: nat)
      returns (result: Error, ghost polls: seq<bv8>, ghost withdrawn: bv8)
      requires n < N_TXBUFFERS && chip.Valid() && Requested(chip.regs[CtrlOf(n)])
      requires deadline <= chip.clock.now + budget
      modifies chip, chip.clock
      ensures chip.Valid() && old(chip.ended) <= chip.ended && chip.clock.now >= old(chip.clock.now)
      ensures Verdict(polls, result) && |polls| <= budget + 1
      ensures chip.trace == old(chip.trace) + Polls(n, polls)
                + if result == TxTimeout then [Modify(CtrlOf(n), TXB_TXREQ, 0, withdrawn)] else []
      ensures forall m :: 0 <= m < N_TXBUFFERS ==> LoadOf(chip.regs, m) == LoadOf(old(chip.regs), m)
      ensures result == TxTimeout ==> deadline <= chip.clock.now && !Requested(chip.regs[CtrlOf(n)])
      ensures Ends(n, old(chip.ended), chip.ended, if Completed(result, withdrawn) then 1 else 0)
      ensures Completed(result, withdrawn) ==> Ended(n, LoadOf(chip.regs, n)) in chip.ended[|old(chip.ended)|..]
    {
      polls, withdrawn := [], 0;
      NoEnds(n, chip.ended);
      hide Ends;
      while true
        invariant chip.Valid() && old(chip.ended) <= chip.ended
        invariant chip.clock.now >= old(chip.clock.now) + |polls|
        invariant polls == [] || chip.clock.now < deadline
        invariant forall i :: 0 <= i < |polls| ==> Requested(polls[i])
        invariant Requested(chip.regs[CtrlOf(n)])
        invariant chip.trace == old(chip.trace) + Polls(n, polls)
        invariant forall m :: 0 <= m < N_TXBUFFERS ==> LoadOf(chip.regs, m) == LoadOf(old(chip.regs), m)
        invariant Ends(n, old(chip.ended), chip.ended, 0)
        decreases deadline - chip.clock.now
      {
        ghost var had := chip.ended;
        var ctrl := PollOnce(n, old(chip.ended));
        PollsAppend(n, polls, ctrl);
        polls := polls + [ctrl];
        if ctrl & TXB_TXREQ == 0 {
          assert !Requested(ctrl);
          LaterIsLater(old(chip.ended), had, chip.ended);
          if ctrl & (TXB_ABTF | TXB_TXERR) != 0 {
            return FailTx, polls, 0;
          }
          return Ok, polls, 0;
        }
        assert Requested(ctrl);
        var now := chip.clock.Now();
        if now >= deadline {
          had := chip.ended;
          withdrawn := Withdraw(n, old(chip.ended));
          LaterIsLater(old(chip.ended), had, chip.ended);
          return TxTimeout, polls, withdrawn;
        }
      }
    }

    /** Reads one receive buffer: header, control register, then as many data bytes as the
        header says. A header that says more than eight is an error and changes nothing. */
    method ReadMessage(n: nat, frame: RawFrame)
      returns (result: Error, received: RawFrame, ghost header: seq<bv8>, ghost ctrl: bv8, ghost flags: bv8)
      requires n < 2 && chip.Valid()
      modifies chip, chip.clock
      ensures chip.Valid() && |header| == 5
      ensures result == if header[4] & 0x0F > 8 then Fail else Ok
      ensures result == Fail ==>
                received == frame && chip.trace == old(chip.trace) + [ReadMany(0x61 + 0x10 * n, header)]
      ensures result == Ok ==>
                && received.canId == ReceivedId(header, ctrl) && received.dlc == header[4] & 0x0F <= 8
                && received.dlc as nat <= 8
                && received.data[received.dlc as nat..] == frame.data[received.dlc as nat..]
                && chip.trace == old(chip.trace)
                     + [ReadMany(0x61 + 0x10 * n, header), Read(0x60 + 0x10 * n, ctrl),
                        ReadMany(0x66 + 0x10 * n, received.data[..received.dlc as nat]),
                        Modify(0x2C, if n == 0 then 0x01 else 0x02, 0, flags)]
    {
      hide ChipMove;
      hide EndedBy;
      hide ReceivedId;
      header, ctrl, flags := [], 0, 0;
      received := frame;
      var bytes := chip.ReadRegisters(RxSidhOf(n), 5);
      header := bytes;
      var dlc := ReceivedDlc(bytes);
      DlcFits(dlc);
      if dlc > CAN_MAX_DLEN {
        return Fail, frame, header, 0, 0;
      }
      var control := chip.ReadRegister(RxCtrlOf(n));
      ctrl := control;
      var data := chip.ReadRegisters(RxCtrlOf(n) + 6, dlc as nat);
      received := RawFrame(ReceivedId(bytes, control), dlc, data + frame.data[dlc as nat..]);
      ghost var found := chip.ModifyRegister(0x2C, if n == 0 then 0x01 else 0x02, 0);
      flags := found[0x2C];
      assert received.data[..dlc as nat] == data;
      result := Ok;
    }

    method PollOnce(n: nat, ghost early: seq<Ended>) returns (ctrl: bv8)
      requires n < N_TXBUFFERS && chip.Valid() && Requested(chip.regs[CtrlOf(n)])
      requires Ends(n, early, chip.ended, 0)
      modifies chip, chip.clock
      ensures chip.Valid() && old(chip.ended) <= chip.ended && chip.clock.now > old(chip.clock.now)
      ensures ctrl == chip.regs[CtrlOf(n)] && chip.trace == old(chip.trace) + [Read(CtrlOf(n), ctrl)]
      ensures forall m :: 0 <= m < N_TXBUFFERS ==> LoadOf(chip.regs, m) == LoadOf(old(chip.regs), m)
      ensures Ends(n, early, chip.ended, if Requested(ctrl) then 0 else 1)
      ensures !Requested(ctrl) ==> Ended(n, LoadOf(chip.regs, n)) in chip.ended[|old(chip.ended)|..]
    {
      ghost var before, seen := chip.regs, chip.ended;
      ctrl := chip.ReadRegister(CtrlOf(n));
      MoveKeepsLoads(before, chip.regs);
      MoveEnds(n, seen, before, chip.regs);
      EndsThen(n, early, seen, chip.ended, 0, Drops(before[CtrlOf(n)], ctrl));
      if !Requested(ctrl) {
        EndedByHas(before, chip.regs, n, N_TXBUFFERS);
      }
    }

    /** Clears a request that outlived its deadline, and tells whether it was still there: the
        chip has ended it exactly when it was not. */
    method Withdraw(n: nat, ghost early: seq<Ended>) returns (ghost found: bv8)
      requires n < N_TXBUFFERS && chip.Valid() && Requested(chip.regs[CtrlOf(n)])
      requires Ends(n, early, chip.ended, 0)
      modifies chip, chip.clock
      ensures chip.Valid() && old(chip.ended) <= chip.ended && chip.clock.now > old(chip.clock.now)
      ensures chip.trace == old(chip.trace) + [Modify(CtrlOf(n), TXB_TXREQ, 0, found)]
      ensures forall m :: 0 <= m < N_TXBUFFERS ==> LoadOf(chip.regs, m) == LoadOf(old(chip.regs), m)
      ensures !Requested(chip.regs[CtrlOf(n)])
      ensures Ends(n, early, chip.ended, if Requested(found) then 0 else 1)
      ensures !Requested(found) ==> Ended(n, LoadOf(chip.regs, n)) in chip.ended[|old(chip.ended)|..]
    {
      found := SetControl(n, TXB_TXREQ, 0, early, chip.regs[CtrlOf(n)]);
      RequestBit(found);
    }
  }

  lemma PollsAppend(n: nat, values: seq<bv8>, value: bv8)
    ensures Polls(n, values + [value]) == Polls(n, values) + [Read(CtrlOf(n), value)]
  {
  }

  lemma ScanAppend(probes: seq<bv8>, value: bv8)
    ensures Scan(probes + [value]) == Scan(probes) + [Read(CtrlOf(|probes|), value)]
  {
  }

  /** What a transfer may do to the transmit buffers. */
  predicate SafeTransfer(t: Transfer, n: nat) {
    match t
    case Read(_, _) => true
    case ReadMany(_, _) => true
    case Write(a, values, found) =>
      a == SidhOf(n) && |values| <= 13 && |found| == REGISTERS && n < N_TXBUFFERS && !Requested(found[CtrlOf(n)])
    case Modify(a, _, data, held) => a == CtrlOf(n) && n < N_TXBUFFERS && (Requested(data) ==> !Requested(held))
  }

  /** Whatever the chip does in between, one send writes to no buffer but the chosen one,
      loads it and sets its request only while none is pending in it, writes nothing when all
      are busy, and after a timeout ends by withdrawing its request; success is reported only
      on a poll that shows the request gone and neither error flag. */
  lemma SendTraceIsSafe(f: RawFrame, timeoutMs: nat, result: Error, probes: seq<bv8>, s: Sending)
    requires f.dlc as nat <= 8 && f.dlc <= CAN_MAX_DLEN
    requires SendReport(timeoutMs, result, probes, s)
    ensures var events := SendTrace(f, result, probes, s);
            && |events| > 0
            && (forall i :: 0 <= i < |events| ==> SafeTransfer(events[i], Chosen(probes)))
            && (result == AllTxBusy ==> forall i :: 0 <= i < |events| ==> events[i].Read?)
            && (result == TxTimeout ==>
                  events[|events| - 1] == Modify(CtrlOf(Chosen(probes)), TXB_TXREQ, 0, s.withdrawn))
            && (result == Ok ==>
                  && events[|events| - 1].Read?
                  && events[|events| - 1].address == CtrlOf(Chosen(probes))
                  && events[|events| - 1].value & (TXB_TXREQ | TXB_ABTF | TXB_TXERR) == 0)
  {
    if Chosen(probes) != N_TXBUFFERS {
      var scan, exchange := Scan(probes), Exchange(Chosen(probes), f, s, result == TxTimeout);
      ExchangeIsSafe(Chosen(probes), f, s, result);
      hide Exchange;
      var events := SendTrace(f, result, probes, s);
      assert events == scan + exchange;
      assert events[|events| - 1] == exchange[|exchange| - 1];
      forall i | 0 <= i < |events| ensures SafeTransfer(events[i], Chosen(probes)) {
        if i >= |scan| {
          assert events[i] == exchange[i - |scan|];
        }
      }
    }
  }

  /** One send in full, transfer by transfer: the control registers of the buffers are read until
      one has its request bit clear; through that buffer the frame is written, the old results
      are cleared, the request is set and read until it is gone or the deadline passes. The
      last value read decides: still requested is a timeout, and only then is the request
      withdrawn; aborted or in error is a failure; neither is a success. */
  lemma SendTraceMeans(f: RawFrame, timeoutMs: nat, result: Error, probes: seq<bv8>, s: Sending)
    requires f.dlc as nat <= 8 && f.dlc <= CAN_MAX_DLEN && SendReport(timeoutMs, result, probes, s)
    ensures var events, k := SendTrace(f, result, probes, s), |probes|;
            && 1 <= k <= 3 && k <= |events|
            && (forall i :: 0 <= i < k ==> events[i] == Read(0x30 + 0x10 * i, probes[i]))
            && (forall i :: 0 <= i < k - 1 ==> probes[i] & 0x08 != 0)
            && (result == AllTxBusy <==> probes[k - 1] & 0x08 != 0)
            && if result == AllTxBusy then |events| == k == 3
               else events[k..] == Bytes(0x30 + 0x10 * (k - 1), f, result, s) && Outcome(result, s.polls)
  {
    hide Image;
    hide Verdict;
    hide Exchange;
    hide Bytes;
    hide Outcome;
    hide Scan;
    hide Requested;
    ScanBytes(probes);
    forall i | 0 <= i < |probes| ensures Requested(probes[i]) <==> probes[i] & 0x08 != 0 {
      RequestedIff(probes[i]);
    }
    if Chosen(probes) < N_TXBUFFERS {
      OutcomeOf(s.polls, result);
      NotBusy(s.polls, result);
      ExchangeBytes(Chosen(probes), f, s, result);
      TwoParts(Scan(probes), Exchange(Chosen(probes), f, s, result == TxTimeout));
    }
  }

  lemma ScanBytes(probes: seq<bv8>)
    ensures forall i :: 0 <= i < |probes| ==> Scan(probes)[i] == Read(0x30 + 0x10 * i, probes[i])
  {
  }

  lemma TwoParts<T>(a: seq<T>, b: seq<T>)
    ensures (a + b)[|a|..] == b && forall i :: 0 <= i < |a| ==> (a + b)[i] == a[i]
  {
  }

  lemma NotBusy(polls: seq<bv8>, result: Error)
    requires Verdict(polls, result)
    ensures result != AllTxBusy
  {
  }

  /** The transfers with the chosen buffer, its control register at c. */
  function Bytes(c: nat, f: RawFrame, result: Error, s: Sending): seq<Transfer>
    requires f.dlc as nat <= 8 && f.dlc <= CAN_MAX_DLEN
  {
    [Write(c + 1, Image(f), s.found), Modify(c, 0x70, 0, s.cleared), Modify(c, 0x08, 0x08, s.requested)]
    + seq(|s.polls|, i requires 0 <= i < |s.polls| => Read(c, s.polls[i]))
    + if result == TxTimeout then [Modify(c, 0x08, 0, s.withdrawn)] else []
  }

  /** The result the polled values call for. */
  predicate Outcome(result: Error, polls: seq<bv8>) {
    && |polls| > 0 && (forall i :: 0 <= i < |polls| - 1 ==> polls[i] & 0x08 != 0)
    && var last := polls[|polls| - 1];
       && (result == TxTimeout <==> last & 0x08 != 0)
       && (result == FailTx <==> last & 0x08 == 0 && last & 0x50 != 0)
       && (result == Ok <==> last & 0x58 == 0)
  }

  lemma OutcomeOf(polls: seq<bv8>, result: Error)
    requires Verdict(polls, result)
    ensures Outcome(result, polls)
  {
    ErrorBits(polls[|polls| - 1]);
    forall i | 0 <= i < |polls| - 1 ensures polls[i] & 0x08 != 0 {
      RequestedIff(polls[i]);
    }
  }

  lemma ErrorBits(ctrl: bv8)
    ensures Requested(ctrl) <==> ctrl & 0x08 != 0
    ensures ctrl & (TXB_ABTF | TXB_TXERR) != 0 <==> ctrl & 0x50 != 0
    ensures ctrl & 0x58 == 0 <==> ctrl & 0x08 == 0 && ctrl & 0x50 == 0
  {
  }

  lemma ExchangeBytes(n: nat, f: RawFrame, s: Sending, result: Error)
    requires f.dlc as nat <= 8 && f.dlc <= CAN_MAX_DLEN
    ensures Exchange(n, f, s, result == TxTimeout) == Bytes(0x30 + 0x10 * n, f, result, s)
  {
    hide Image;
  }

  lemma ExchangeIsSafe(n: nat, f: RawFrame, s: Sending, result: Error)
    requires f.dlc as nat <= 8 && f.dlc <= CAN_MAX_DLEN
    requires n < N_TXBUFFERS && |s.found| == REGISTERS && !Requested(s.found[CtrlOf(n)])
    requires !Requested(s.requested) && Verdict(s.polls, result)
    ensures var events := Exchange(n, f, s, result == TxTimeout);
            && |events| > 0
            && (forall i :: 0 <= i < |events| ==> SafeTransfer(events[i], n))
            && (result == TxTimeout ==> events[|events| - 1] == Modify(CtrlOf(n), TXB_TXREQ, 0, s.withdrawn))
            && (result == Ok ==> events[|events| - 1] == Read(CtrlOf(n), s.polls[|s.polls| - 1]))
            && (result == Ok ==> s.polls[|s.polls| - 1] & (TXB_TXREQ | TXB_ABTF | TXB_TXERR) == 0)
  {
  }

  // ----- a timeout for a frame that was sent -----

  /** The registers after the driver has loaded a frame, cleared old results and set the request,
      the chip keeping still in between. */
  function Pending(start: seq<bv8>, n: nat, f: RawFrame): (r: seq<bv8>)
    requires |start| == REGISTERS && n < N_TXBUFFERS && f.dlc as nat <= 8 && f.dlc <= CAN_MAX_DLEN
    ensures |r| == REGISTERS
  {
    var loaded := Written(start, SidhOf(n), Image(f));
    var cleared := Modified(loaded, CtrlOf(n), TXB_ABTF | TXB_MLOA | TXB_TXERR, 0);
    Modified(cleared, CtrlOf(n), TXB_TXREQ, TXB_TXREQ)
  }

  function ClearedControl(ctrl: bv8): bv8 {
    (ctrl & !(TXB_ABTF | TXB_MLOA | TXB_TXERR)) | (0 & (TXB_ABTF | TXB_MLOA | TXB_TXERR))
  }

  lemma PendingHolds(start: seq<bv8>, n: nat, f: RawFrame)
    requires |start| == REGISTERS && n < N_TXBUFFERS && f.dlc as nat <= 8 && f.dlc <= CAN_MAX_DLEN
    ensures Requested(Pending(start, n, f)[CtrlOf(n)])
    ensures LoadOf(Pending(start, n, f), n)[..|Image(f)|] == Image(f)
  {
    hide Image;
    var loaded := Written(start, SidhOf(n), Image(f));
    LoadedImage(start, loaded, n, Image(f));
    var cleared := Modified(loaded, CtrlOf(n), TXB_ABTF | TXB_MLOA | TXB_TXERR, 0);
    ControlOnly(loaded, cleared, n);
    ControlOnly(cleared, Pending(start, n, f), n);
    RequestBit(cleared[CtrlOf(n)]);
  }

  /** A timeout can be reported for a frame the chip has sent. From every register file with an
      idle buffer, for every frame: let the chip keep still while the driver scans, loads and
      requests; at the only poll before the deadline the request is pending; then a permitted
      move ends it without error, and the withdrawal finds that. */
  lemma TimeoutAfterEnd(start: seq<bv8>, n: nat, f: RawFrame, timeoutMs: nat)
    returns (probes: seq<bv8>, s: Sending, after: seq<bv8>)
    requires |start| == REGISTERS && n < N_TXBUFFERS && f.dlc as nat <= 8 && f.dlc <= CAN_MAX_DLEN
    requires !Requested(start[CtrlOf(n)]) && forall m :: 0 <= m < n ==> Requested(start[CtrlOf(m)])
    ensures |probes| == n + 1 && forall m :: 0 <= m <= n ==> probes[m] == start[CtrlOf(m)]
    ensures s.found == start && s.cleared == start[CtrlOf(n)] && s.requested == ClearedControl(start[CtrlOf(n)])
    ensures var pending := Pending(start, n, f);
            && s.polls == [pending[CtrlOf(n)]]
            && ChipMove(pending, after) && s.withdrawn == after[CtrlOf(n)]
            && s.withdrawn & (TXB_TXREQ | TXB_ABTF | TXB_TXERR) == 0
            && LoadOf(pending, n)[..|Image(f)|] == Image(f)
            && Ended(n, LoadOf(pending, n)) in EndedBy(pending, after, N_TXBUFFERS)
    ensures Chosen(probes) == n && SendReport(timeoutMs, TxTimeout, probes, s)
    ensures Completed(TxTimeout, s.withdrawn)
  {
    hide Image;
    hide Pending;
    hide ClearedControl;
    hide LoadOf;
    var pending := Pending(start, n, f);
    PendingHolds(start, n, f);
    after := pending[CtrlOf(n) := 0];
    probes := seq(n + 1, m requires 0 <= m <= n => start[CtrlOf(m)]);
    s := Sending(start, start[CtrlOf(n)], ClearedControl(start[CtrlOf(n)]), [pending[CtrlOf(n)]], 0);
    ClearedIsIdle(start[CtrlOf(n)]);
    ControlOnly(pending, after, n);
    EndedByHas(pending, after, n, N_TXBUFFERS);
  }

  lemma ClearedIsIdle(ctrl: bv8)
    requires !Requested(ctrl)
    ensures !Requested(ClearedControl(ctrl)) && !Requested(0)
  {
  }

  lemma MoveKeepsLoads(before: seq<bv8>, after: seq<bv8>)
    requires ChipMove(before, after)
    ensures |before| == |after| == REGISTERS
    ensures forall n :: 0 <= n < N_TXBUFFERS ==> LoadOf(after, n) == LoadOf(before, n)
  {
  }

  lemma ExchangeParts(trace: seq<Transfer>, n: nat, f: RawFrame, s: Sending, timedOut: bool)
    requires f.dlc as nat <= 8 && f.dlc <= CAN_MAX_DLEN
    ensures trace + Exchange(n, f, s, timedOut)
         == trace
          + [Write(SidhOf(n), Image(f), s.found),
             Modify(CtrlOf(n), TXB_ABTF | TXB_MLOA | TXB_TXERR, 0, s.cleared),
             Modify(CtrlOf(n), TXB_TXREQ, TXB_TXREQ, s.requested)]
          + Polls(n, s.polls)
          + if timedOut then [Modify(CtrlOf(n), TXB_TXREQ, 0, s.withdrawn)] else []
  {
  }

  lemma IdleParts(before: seq<bv8>, n: nat, s: Sending)
    requires n < N_TXBUFFERS && |before| == REGISTERS
    requires StaysIdle(before, n, Sending(s.found, s.cleared, s.requested, [], 0))
    ensures StaysIdle(before, n, s)
  {
  }

  lemma EndsPrefix(n: nat, before: seq<Ended>, after: seq<Ended>)
    ensures forall k: nat :: Ends(n, before, after, k) ==> before <= after
  {
  }

  lemma SameDrops(before: bv8, a: bv8, b: bv8)
    requires Requested(a) <==> Requested(b)
    ensures Drops(before, a) == Drops(before, b)
  {
  }

  lemma NoDrop(before: bv8, after: bv8)
    requires !Requested(before)
    ensures Drops(before, after) == 0
  {
  }

  // ----- the scan -----

  /** While the control registers are scanned the chip may end requests, each once. */
  predicate Scanned(start: seq<bv8>, regs: seq<bv8>, early: seq<Ended>, ended: seq<Ended>) {
    && |start| == |regs| == REGISTERS
    && forall m :: 0 <= m < N_TXBUFFERS ==>
         && (Requested(regs[CtrlOf(m)]) ==> Requested(start[CtrlOf(m)]))
         && Ends(m, early, ended, Drops(start[CtrlOf(m)], regs[CtrlOf(m)]))
  }

  lemma ScanStarts(regs: seq<bv8>, ended: seq<Ended>)
    requires |regs| == REGISTERS
    ensures Scanned(regs, regs, ended, ended)
  {
  }

  lemma ScanMoves(start: seq<bv8>, before: seq<bv8>, after: seq<bv8>, early: seq<Ended>, ended: seq<Ended>)
    requires Scanned(start, before, early, ended) && ChipMove(before, after)
    ensures Scanned(start, after, early, ended + EndedBy(before, after, N_TXBUFFERS))
  {
    var later := ended + EndedBy(before, after, N_TXBUFFERS);
    forall m | 0 <= m < N_TXBUFFERS
      ensures Requested(after[CtrlOf(m)]) ==> Requested(start[CtrlOf(m)])
      ensures Ends(m, early, later, Drops(start[CtrlOf(m)], after[CtrlOf(m)]))
    {
      MoveEnds(m, ended, before, after);
      hide Ends;
      EndsThen(m, early, ended, later,
               Drops(start[CtrlOf(m)], before[CtrlOf(m)]), Drops(before[CtrlOf(m)], after[CtrlOf(m)]));
    }
  }

  /** During a send the chip ended, in the chosen buffer, the request that was pending at its
      start, and the one for the frame exactly when the send was completed. */
  predicate EndsOne(f: RawFrame, n: nat, start: seq<bv8>, regs: seq<bv8>, early: seq<Ended>, ended: seq<Ended>,
                    completed: bool)
  {
    && n < N_TXBUFFERS && |start| == |regs| == REGISTERS && early <= ended
    && Ends(n, early, ended, (if Requested(start[CtrlOf(n)]) then 1 else 0) + if completed then 1 else 0)
    && (completed ==> Delivered(f, regs, n, ended[|early|..]))
  }

  lemma {:induction false} CountedIffThere(ended: seq<Ended>, n: nat)
    ensures EndCount(ended, n) > 0 <==> exists i :: 0 <= i < |ended| && ended[i].buffer == n
  {
    if ended != [] {
      var front := ended[..|ended| - 1];
      CountedIffThere(front, n);
      if i :| 0 <= i < |front| && front[i].buffer == n {
        assert ended[i].buffer == n;
      }
    }
  }

  /** What a timeout says about the frame: in a buffer that was idle when the send began, the
      chip has ended a request if and only if the withdrawal found the request gone. */
  lemma TimeoutEndedIff(f: RawFrame, n: nat, start: seq<bv8>, regs: seq<bv8>,
                        early: seq<Ended>, ended: seq<Ended>, withdrawn: bv8)
    requires EndsOne(f, n, start, regs, early, ended, Completed(TxTimeout, withdrawn))
    requires |start| == REGISTERS && n < N_TXBUFFERS && !Requested(start[CtrlOf(n)])
    ensures |early| <= |ended|
    ensures (exists i :: |early| <= i < |ended| && ended[i].buffer == n) <==> !Requested(withdrawn)
  {
    var late := ended[|early|..];
    CountedIffThere(late, n);
    if i :| 0 <= i < |late| && late[i].buffer == n {
      assert ended[|early| + i].buffer == n;
    }
    if i :| |early| <= i < |ended| && ended[i].buffer == n {
      assert late[i - |early|].buffer == n;
    }
  }

  lemma OkIsDelivered(f: RawFrame, timeoutMs: nat, probes: seq<bv8>, s: Sending, start: seq<bv8>, regs: seq<bv8>,
                      early: seq<Ended>, ended: seq<Ended>)
    requires SendReport(timeoutMs, Ok, probes, s)
    requires Chosen(probes) < N_TXBUFFERS ==>
               EndsOne(f, Chosen(probes), start, regs, early, ended, Completed(Ok, s.withdrawn))
    ensures early <= ended && Delivered(f, regs, Chosen(probes), ended[|early|..])
  {
  }

  lemma EndsOneFrom(f: RawFrame, n: nat, start: seq<bv8>, regs: seq<bv8>, found: seq<bv8>,
                    early: seq<Ended>, ended: seq<Ended>, completed: bool)
    requires f.dlc as nat <= 8 && f.dlc <= CAN_MAX_DLEN && n < N_TXBUFFERS
    requires |start| == |regs| == |found| == REGISTERS && early <= ended && !Requested(start[CtrlOf(n)])
    requires LoadOf(regs, n) == Image(f) + LoadOf(found, n)[|Image(f)|..]
    requires Ends(n, early, ended, if completed then 1 else 0)
    requires completed ==> Ended(n, LoadOf(regs, n)) in ended[|early|..]
    ensures EndsOne(f, n, start, regs, early, ended, completed)
  {
    if completed {
      LoadIsImage(f, regs, n, found, ended[|early|..]);
    }
    hide Delivered;
    hide Ends;
  }

  lemma EndsInAll(f: RawFrame, n: nat, start: seq<bv8>, idle: seq<bv8>, regs: seq<bv8>,
                  early: seq<Ended>, seen: seq<Ended>, ended: seq<Ended>, completed: bool)
    requires n < N_TXBUFFERS && Scanned(start, idle, early, seen) && early <= seen
    requires EndsOne(f, n, idle, regs, seen, ended, completed)
    requires |idle| == REGISTERS && !Requested(idle[CtrlOf(n)])
    ensures EndsOne(f, n, start, regs, early, ended, completed)
  {
    EndsThen(n, early, seen, ended, Drops(start[CtrlOf(n)], idle[CtrlOf(n)]), if completed then 1 else 0);
    LaterIsLater(early, seen, ended);
    if completed {
      DeliveredLater(f, regs, n, ended[|seen|..], ended[|early|..]);
    }
    hide Delivered;
    hide Ends;
  }

  lemma LaterIsLater<T>(a: seq<T>, b: seq<T>, c: seq<T>)
    requires a <= b <= c
    ensures forall x :: x in c[|b|..] ==> x in c[|a|..]
  {
  }

  lemma ControlOnly(found: seq<bv8>, regs: seq<bv8>, n: nat)
    requires |found| == REGISTERS && n < N_TXBUFFERS
    requires |regs| == REGISTERS && regs == found[CtrlOf(n) := regs[CtrlOf(n)]]
    ensures forall m :: 0 <= m < N_TXBUFFERS ==> LoadOf(regs, m) == LoadOf(found, m)
  {
  }

  lemma LoadedImage(found: seq<bv8>, regs: seq<bv8>, n: nat, image: seq<bv8>)
    requires |found| == REGISTERS && n < N_TXBUFFERS && |image| <= 13
    requires regs == found[..SidhOf(n)] + image + found[SidhOf(n) + |image|..]
    ensures |regs| == REGISTERS
    ensures LoadOf(regs, n) == image + LoadOf(found, n)[|image|..]
    ensures forall m :: 0 <= m < N_TXBUFFERS && m != n ==> LoadOf(regs, m) == LoadOf(found, m)
    ensures forall m :: 0 <= m < N_TXBUFFERS ==> regs[CtrlOf(m)] == found[CtrlOf(m)]
  {
  }
}
