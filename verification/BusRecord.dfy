/** What the CAN controller's record of transfers and ended requests says about the frames that
    were handed over: it holds one complete send for each and nothing else, and behind every
    success a request that the chip ended for exactly that frame. */
module BusRecord {
  import opened Options
  import opened RemoteProtocol
  import opened CanCommandRouter
  import opened VehicleCanProtocol
  import opened CanFrames
  import opened EspNowCanGateway
  import opened Application
  import CM = CanManager
  import Mcp = Mcp2515

  // ----- what backs an answer -----

  /** The chip ended a request for exactly the registers of this frame. */
  predicate Shown(f: CanFrame, e: Mcp.Ended) {
    f.dataLength as nat <= 8 && f.dataLength <= CAN_MAX_DLEN && Image(RawOf(f)) <= e.load
  }

  /** This stretch of bus transfers is one complete send of the frame, through this buffer, that
      ended with this error. */
  ghost predicate Reported(f: CanFrame, error: Mcp.Error, timeoutMs: nat, stretch: seq<Mcp.Transfer>, buffer: nat) {
    && f.dataLength as nat <= 8 && f.dataLength <= CAN_MAX_DLEN
    && exists probes, s ::
         && Mcp.SendReport(timeoutMs, error, probes, s) && Mcp.Chosen(probes) == buffer
         && stretch == Mcp.SendTrace(RawOf(f), error, probes, s)
  }

  /** The evidence for an execution: a stretch of the transfers, how the send they are ended, and
      for a success one ended request. */
  datatype Evidence = Evidence(from: nat, to: nat, buffer: nat, error: Mcp.Error, mark: nat)

  const NO_EVIDENCE: Evidence := Evidence(0, 0, 0, Mcp.Ok, 0)

  ghost predicate Proves(v: Evidence, f: CanFrame, timeoutMs: nat, trace: seq<Mcp.Transfer>, ended: seq<Mcp.Ended>) {
    && v.from <= v.to <= |trace| && Reported(f, v.error, timeoutMs, trace[v.from..v.to], v.buffer)
    && (v.error == Mcp.Ok ==> v.mark < |ended| && ended[v.mark].buffer == v.buffer && Shown(f, ended[v.mark]))
  }

  /** The frame of this execution was sent, if with a result or not. */
  predicate Sends(working: bool, x: Execution) {
    working && x.handed.Some? && x.handed.value.dataLength as nat <= 8
  }

  /** The status recorded, as a code, is how the send ended: success, no free buffer, failure or
      timeout. */
  predicate Says(code: bv8, error: Mcp.Error) {
    && (code == 0 <==> error == Mcp.Ok)
    && (code == 3 <==> error == Mcp.AllTxBusy)
    && (code == 4 <==> error == Mcp.FailTx)
    && (code == 5 <==> error == Mcp.TxTimeout)
  }

  /** The execution's status is backed: by its send if it made one; if it did not, although it had
      a frame, it is a failure. */
  ghost predicate Supported(working: bool, x: Execution, v: Evidence, timeoutMs: nat, trace: seq<Mcp.Transfer>,
                            ended: seq<Mcp.Ended>)
  {
    x.handed.Some? ==>
      if Sends(working, x) then
        Proves(v, x.handed.value, timeoutMs, trace, ended) && Says(StatusByte(x.status), v.error)
      else StatusByte(x.status) == 4
  }

  /** Every execution is backed, later ones by later evidence: no two share a transfer, and no two
      successes an ended request. */
  ghost predicate Backed(working: bool, log: seq<Execution>, timeoutMs: nat, trace: seq<Mcp.Transfer>,
                         ended: seq<Mcp.Ended>, evidence: seq<Evidence>)
  {
    && |evidence| == |log|
    && (forall i :: 0 <= i < |log| ==> Supported(working, log[i], evidence[i], timeoutMs, trace, ended))
    && (forall i, j :: 0 <= i < j < |log| && Sends(working, log[i]) && Sends(working, log[j]) ==>
          && evidence[i].to <= evidence[j].from
          && (evidence[i].error == evidence[j].error == Mcp.Ok ==> evidence[i].mark < evidence[j].mark))
  }

  lemma SupportedLater(working: bool, x: Execution, v: Evidence, timeoutMs: nat, trace: seq<Mcp.Transfer>,
                       ended: seq<Mcp.Ended>, laterTrace: seq<Mcp.Transfer>, laterEnded: seq<Mcp.Ended>)
    requires Supported(working, x, v, timeoutMs, trace, ended) && trace <= laterTrace && ended <= laterEnded
    ensures Supported(working, x, v, timeoutMs, laterTrace, laterEnded)
  {
    hide Reported;
    hide Shown;
    hide Says;
    hide StatusByte;
    if Sends(working, x) {
      assert laterTrace[v.from..v.to] == trace[v.from..v.to];
    }
  }

  lemma BackedLater(working: bool, log: seq<Execution>, timeoutMs: nat, trace: seq<Mcp.Transfer>,
                    ended: seq<Mcp.Ended>, evidence: seq<Evidence>,
                    laterTrace: seq<Mcp.Transfer>, laterEnded: seq<Mcp.Ended>)
    requires Backed(working, log, timeoutMs, trace, ended, evidence) && trace <= laterTrace && ended <= laterEnded
    ensures Backed(working, log, timeoutMs, laterTrace, laterEnded, evidence)
  {
    hide Supported;
    hide Sends;
    forall i | 0 <= i < |log|
      ensures Supported(working, log[i], evidence[i], timeoutMs, laterTrace, laterEnded)
    {
      SupportedLater(working, log[i], evidence[i], timeoutMs, trace, ended, laterTrace, laterEnded);
    }
  }

  lemma SupportedWithin(working: bool, x: Execution, v: Evidence, timeoutMs: nat, trace: seq<Mcp.Transfer>,
                        ended: seq<Mcp.Ended>)
    requires Supported(working, x, v, timeoutMs, trace, ended) && Sends(working, x)
    ensures v.to <= |trace| && (v.error == Mcp.Ok ==> v.mark < |ended|)
  {
    hide Reported;
    hide Shown;
    hide Says;
  }

  lemma BackedLonger(working: bool, log: seq<Execution>, timeoutMs: nat, trace: seq<Mcp.Transfer>,
                     ended: seq<Mcp.Ended>, evidence: seq<Evidence>, x: Execution, v: Evidence,
                     laterTrace: seq<Mcp.Transfer>, laterEnded: seq<Mcp.Ended>)
    requires Backed(working, log, timeoutMs, trace, ended, evidence) && trace <= laterTrace && ended <= laterEnded
    requires Supported(working, x, v, timeoutMs, laterTrace, laterEnded)
    requires Sends(working, x) ==> v.from >= |trace| && (v.error == Mcp.Ok ==> v.mark >= |ended|)
    ensures Backed(working, log + [x], timeoutMs, laterTrace, laterEnded, evidence + [v])
  {
    hide Supported;
    hide Sends;
    BackedLater(working, log, timeoutMs, trace, ended, evidence, laterTrace, laterEnded);
    forall i | 0 <= i < |log| && Sends(working, log[i])
      ensures evidence[i].to <= |trace| && (evidence[i].error == Mcp.Ok ==> evidence[i].mark < |ended|)
    {
      SupportedWithin(working, log[i], evidence[i], timeoutMs, trace, ended);
    }
  }

  function TimeoutOf(manager: CM.Manager?): nat {
    if manager == null then 0 else manager.transmitTimeoutMs
  }

  /** A delivered frame has an ended request that shows it. */
  lemma DeliveredIsShown(f: CanFrame, regs: seq<bv8>, n: nat, late: seq<Mcp.Ended>) returns (k: nat)
    requires f.dataLength as nat <= 8 && Mcp.Delivered(RawOf(f), regs, n, late)
    ensures k < |late| && late[k].buffer == n && Shown(f, late[k])
  {
    hide Image;
    hide Mcp.LoadOf;
    k :| 0 <= k < |late| && late[k] == Mcp.Ended(n, Mcp.LoadOf(regs, n));
    assert Image(RawOf(f)) == late[k].load[..|Image(RawOf(f))|];
  }

  /** A transmission leaves its evidence behind all earlier. */
  lemma TransmissionIsProved(manager: CM.Manager?, f: CanFrame, answer: TransmitResult, trace: seq<Mcp.Transfer>,
                             endings: seq<Mcp.Ended>)
    returns (v: Evidence)
    requires Transmission(manager, f, answer, trace, endings)
    requires Working(manager) && f.dataLength as nat <= 8
    ensures Proves(v, f, TimeoutOf(manager), TraceOf(manager), EndingsOf(manager)) && Tells(answer, v.error)
    ensures v.error in {Mcp.Ok, Mcp.AllTxBusy, Mcp.FailTx, Mcp.TxTimeout}
    ensures v.from == |trace| && (v.error == Mcp.Ok ==> v.mark >= |endings|)
  {
    hide Mcp.SendTrace;
    hide Mcp.Delivered;
    hide Mcp.Chosen;
    hide Shown;
    hide RawOf;
    var error :| Tells(answer, error) && manager.Sent(RawOf(f), error, trace, endings);
    var chip, raw := manager.driver.chip, RawOf(f);
    var late := chip.ended[|endings|..];
    var probes, s :|
      && Mcp.SendReport(manager.transmitTimeoutMs, error, probes, s)
      && chip.trace == trace + Mcp.SendTrace(raw, error, probes, s)
      && (error == Mcp.Ok ==> Mcp.Delivered(raw, chip.regs, Mcp.Chosen(probes), late));
    v := Evidence(|trace|, |chip.trace|, Mcp.Chosen(probes), error, 0);
    assert chip.trace[|trace|..|chip.trace|] == Mcp.SendTrace(raw, error, probes, s);
    if error == Mcp.Ok {
      var k := DeliveredIsShown(f, chip.regs, Mcp.Chosen(probes), late);
      v := v.(mark := |endings| + k);
      assert chip.ended[v.mark] == late[k];
    }
  }

  /** And so an execution that just handed over its frame is supported. */
  lemma ExecutionIsSupported(manager: CM.Manager?, x: Execution, trace: seq<Mcp.Transfer>, endings: seq<Mcp.Ended>)
    returns (v: Evidence)
    requires x.handed.Some? ==> x.status == StatusOf(x.answer)
    requires x.handed.Some? ==> Transmission(manager, x.handed.value, x.answer, trace, endings)
    ensures Supported(Working(manager), x, v, TimeoutOf(manager), TraceOf(manager), EndingsOf(manager))
    ensures Sends(Working(manager), x) ==> v.from >= |trace| && (v.error == Mcp.Ok ==> v.mark >= |endings|)
  {
    hide Proves;
    hide Mcp.SendReport;
    hide Mcp.SendTrace;
    hide Mcp.Delivered;
    v := NO_EVIDENCE;
    if Sends(Working(manager), x) {
      v := TransmissionIsProved(manager, x.handed.value, x.answer, trace, endings);
    }
  }

  /** The status recorded when a transmission was answered so. */
  function StatusOf(answer: TransmitResult): AcknowledgementStatus {
    MapAckStatus(MapTransmitResult(answer))
  }

  lemma TransfersGrow(manager: CM.Manager?, f: CanFrame, answer: TransmitResult, trace: seq<Mcp.Transfer>,
                      endings: seq<Mcp.Ended>)
    requires Transmission(manager, f, answer, trace, endings) && (manager == null ==> trace == [])
    ensures trace <= TraceOf(manager)
  {
    hide Mcp.SendReport;
    hide Mcp.SendTrace;
  }

  // ----- nothing but the frames -----

  /** This stretch of transfers is one complete send of the frame, whatever its end; a frame that
      is too long is not sent at all. */
  ghost predicate OneSend(f: CanFrame, timeoutMs: nat, stretch: seq<Mcp.Transfer>) {
    if f.dataLength as nat > 8 then stretch == []
    else
      f.dataLength <= CAN_MAX_DLEN &&
      exists error, probes, s ::
        Mcp.SendReport(timeoutMs, error, probes, s) && stretch == Mcp.SendTrace(RawOf(f), error, probes, s)
  }

  /** The record is the sends of these frames, one after the other, and nothing else. */
  ghost predicate OnlySends(frames: seq<CanFrame>, timeoutMs: nat, record: seq<Mcp.Transfer>)
    decreases |frames|
  {
    if frames == [] then record == []
    else
      var n := |frames| - 1;
      exists cut: nat ::
        && cut <= |record| && OnlySends(frames[..n], timeoutMs, record[..cut])
        && OneSend(frames[n], timeoutMs, record[cut..])
  }

  lemma OnlySendsNext(frames: seq<CanFrame>, timeoutMs: nat, record: seq<Mcp.Transfer>,
                      f: CanFrame, stretch: seq<Mcp.Transfer>)
    requires OnlySends(frames, timeoutMs, record) && OneSend(f, timeoutMs, stretch)
    ensures OnlySends(frames + [f], timeoutMs, record + stretch)
  {
    hide OneSend;
    var cut := |record|;
    assert (frames + [f])[..|frames|] == frames;
    assert (record + stretch)[..cut] == record && (record + stretch)[cut..] == stretch;
  }

  predicate Working(manager: CM.Manager?)
    reads manager
  {
    manager != null && manager.initialized
  }

  /** The controller's record since a moment is the sends of these frames; without a working
      manager it has none. */
  ghost predicate Recorded(working: bool, frames: seq<CanFrame>, timeoutMs: nat, early: seq<Mcp.Transfer>,
                           trace: seq<Mcp.Transfer>)
  {
    if working then early <= trace && OnlySends(frames, timeoutMs, trace[|early|..])
    else trace == early
  }

  lemma TransmissionIsRecorded(manager: CM.Manager?, frames: seq<CanFrame>, f: CanFrame, answer: TransmitResult,
                               early: seq<Mcp.Transfer>, trace: seq<Mcp.Transfer>, endings: seq<Mcp.Ended>)
    requires Recorded(Working(manager), frames, TimeoutOf(manager), early, trace)
    requires Transmission(manager, f, answer, trace, endings) && (manager == null ==> trace == [])
    ensures Recorded(Working(manager), frames + [f], TimeoutOf(manager), early, TraceOf(manager))
  {
    hide Mcp.SendReport;
    hide Mcp.SendTrace;
    hide Mcp.Delivered;
    hide OnlySends;
    if Working(manager) {
      var later := TraceOf(manager);
      TransfersGrow(manager, f, answer, trace, endings);
      var stretch := later[|trace|..];
      assert OneSend(f, TimeoutOf(manager), stretch);
      OnlySendsNext(frames, TimeoutOf(manager), trace[|early|..], f, stretch);
      assert later[|early|..] == trace[|early|..] + stretch;
    }
  }

  /** Every write of one send is the load of its frame. */
  lemma SendWritesFrame(f: CanFrame, timeoutMs: nat, stretch: seq<Mcp.Transfer>, i: nat)
    requires OneSend(f, timeoutMs, stretch) && i < |stretch| && stretch[i].Write?
    ensures f.dataLength as nat <= 8 && f.dataLength <= CAN_MAX_DLEN && stretch[i].values == Image(RawOf(f))
    ensures stretch[i].address in {0x31, 0x41, 0x51}
  {
    hide Image;
    var error, probes, s :|
      Mcp.SendReport(timeoutMs, error, probes, s) && stretch == Mcp.SendTrace(RawOf(f), error, probes, s);
    SendTraceWrites(RawOf(f), error, probes, s, i);
  }

  lemma SendTraceWrites(f: RawFrame, error: Mcp.Error, probes: seq<bv8>, s: Mcp.Sending, i: nat)
    requires f.dlc as nat <= 8 && f.dlc <= CAN_MAX_DLEN
    requires |probes| <= 3
    requires i < |Mcp.SendTrace(f, error, probes, s)| && Mcp.SendTrace(f, error, probes, s)[i].Write?
    ensures Mcp.SendTrace(f, error, probes, s)[i].values == Image(f)
    ensures Mcp.SendTrace(f, error, probes, s)[i].address in {0x31, 0x41, 0x51}
  {
    hide Image;
    assert i >= |Mcp.Scan(probes)|;
  }

  /** Every load ever written is the image of a frame that was handed over, written from the first
      register of one of the three buffers on. */
  lemma {:induction false} LoadsAreOfFrames(frames: seq<CanFrame>, timeoutMs: nat, record: seq<Mcp.Transfer>, i: nat)
    returns (k: nat)
    requires OnlySends(frames, timeoutMs, record) && i < |record| && record[i].Write?
    ensures k < |frames| && frames[k].dataLength as nat <= 8 && frames[k].dataLength <= CAN_MAX_DLEN
    ensures record[i].values == Image(RawOf(frames[k])) && record[i].address in {0x31, 0x41, 0x51}
    decreases |frames|
  {
    hide Image;
    hide OneSend;
    var n := |frames| - 1;
    var cut: nat :|
      && cut <= |record| && OnlySends(frames[..n], timeoutMs, record[..cut])
      && OneSend(frames[n], timeoutMs, record[cut..]);
    if i < cut {
      k := LoadsAreOfFrames(frames[..n], timeoutMs, record[..cut], i);
    } else {
      k := n;
      SendWritesFrame(frames[n], timeoutMs, record[cut..], i - cut);
    }
  }
}
