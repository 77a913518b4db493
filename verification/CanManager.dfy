/** The CAN manager: one MCP2515 behind an initialised flag. */
module CanManager {
  import opened CanFrames
  import M = Mcp2515

  datatype TransmitResult = Ok | NotInitialized | InvalidFrame | Busy | Failed | Timeout

  /** What a driver result is reported as. */
  function ReportOf(e: M.Error): TransmitResult {
    match e
    case Ok => Ok
    case AllTxBusy => Busy
    case TxTimeout => Timeout
    case FailTx => Failed
    case _ => Failed
  }

  class Manager {
    const driver: M.Driver
    const transmitTimeoutMs: nat
    var initialized: bool

    /** Since the given trace the bus has seen one complete send of the frame that ended with
        this error, and nothing else. If that was a success, the chosen buffer holds the frame
        and the chip has since ended a request for exactly it. */
    ghost predicate Sent(frame: RawFrame, error: M.Error, earlier: seq<M.Transfer>, endings: seq<M.Ended>)
      reads driver.chip
    {
      && frame.dlc as nat <= 8 && frame.dlc <= CAN_MAX_DLEN && endings <= driver.chip.ended
      && exists probes, s ::
           && M.SendReport(transmitTimeoutMs, error, probes, s)
           && driver.chip.trace == earlier + M.SendTrace(frame, error, probes, s)
           && (error == M.Ok ==>
                 M.Delivered(frame, driver.chip.regs, M.Chosen(probes), driver.chip.ended[|endings|..]))
    }

    /** A manager whose begin succeeded, or not. */
    constructor (driver: M.Driver, transmitTimeoutMs: nat, initialized: bool)
      ensures this.driver == driver && this.transmitTimeoutMs == transmitTimeoutMs
      ensures this.initialized == initialized
    {
      this.driver := driver;
      this.transmitTimeoutMs := transmitTimeoutMs;
      this.initialized := initialized;
    }

    /** Sends one frame. A result other than the first two is that of a complete exchange with
        the chip, and success means that the chip ended a request for exactly this frame during
        the call. */
    method Send(frame: RawFrame) returns (result: TransmitResult, ghost outcome: M.Error)
      requires driver.chip.Valid()
      modifies driver.chip, driver.chip.clock
      ensures driver.chip.Valid() && driver.chip.clock.now >= old(driver.chip.clock.now)
      ensures old(driver.chip.trace) <= driver.chip.trace && old(driver.chip.ended) <= driver.chip.ended
      ensures !initialized ==> result == NotInitialized
      ensures initialized && frame.dlc > CAN_MAX_DLEN ==> result == InvalidFrame
      ensures !initialized || frame.dlc > CAN_MAX_DLEN ==> driver.chip.trace == old(driver.chip.trace)
      ensures initialized && frame.dlc <= CAN_MAX_DLEN ==>
                result == ReportOf(outcome) && Sent(frame, outcome, old(driver.chip.trace), old(driver.chip.ended))
    {
      outcome := M.Ok;
      if !initialized {
        return NotInitialized, M.Ok;
      }
      if frame.dlc > CAN_MAX_DLEN {
        return InvalidFrame, M.Ok;
      }
      hide M.Delivered;
      hide M.EndsOne;
      hide M.SendTrace;
      hide M.SendReport;
      hide M.OthersKept;
      ghost var probes, s;
      var error: M.Error;
      ghost var start, earlier := driver.chip.regs, driver.chip.ended;
      error, probes, s := driver.Send(frame, transmitTimeoutMs);
      outcome := error;
      if error == M.Ok {
        M.OkIsDelivered(frame, transmitTimeoutMs, probes, s, start, driver.chip.regs, earlier, driver.chip.ended);
      }
      result := match error
        case Ok => Ok
        case AllTxBusy => Busy
        case TxTimeout => Timeout
        case FailTx => Failed
        case _ => Failed;
    }
  }
}
