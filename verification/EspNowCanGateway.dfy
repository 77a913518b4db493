/** The gateway between radio messages and the CAN bus, with its statistics, and the
    callback through which it hands a frame to the CAN manager. */
module EspNowCanGateway {
  import opened Options
  import opened RemoteProtocol
  import opened CanCommandRouter
  import opened CanFrames
  import opened Counters
  import CM = CanManager
  import Mcp = Mcp2515

  datatype TransmitResult = TransmitOk | TransmitBusy | TransmitFailed | TransmitTimeout

  datatype ProcessResult =
    | ProcessOk | InvalidMessage | UnsupportedMessage | ProcessUnknownCommand
    | ProcessInvalidPayloadLength | ProcessInvalidPayloadValue
    | CanBusy | CanTransmitFailed | CanTimeout

  function MapRouteResult(r: RouteResult): ProcessResult {
    match r
    case RouteOk => ProcessOk
    case InvalidConfiguration => CanTransmitFailed
    case RouteInvalidMessageType => UnsupportedMessage
    case UnknownCommand => ProcessUnknownCommand
    case InvalidPayloadLength => ProcessInvalidPayloadLength
    case InvalidPayloadValue => ProcessInvalidPayloadValue
  }

  function MapTransmitResult(r: TransmitResult): ProcessResult {
    match r
    case TransmitOk => ProcessOk
    case TransmitBusy => CanBusy
    case TransmitTimeout => CanTimeout
    case TransmitFailed => CanTransmitFailed
  }

  // ----- the frame on its way to the driver -----

  function RawOf(f: CanFrame): RawFrame
    requires f.dataLength as nat <= 8
  {
    var n := f.dataLength as nat;
    RawFrame(WithExtended(f.identifier, f.extended), f.dataLength, f.data[..n] + seq(8 - n, _ => 0))
  }

  ghost function TraceOf(manager: CM.Manager?): seq<Mcp.Transfer>
    reads if manager == null then {} else {manager.driver.chip}
  {
    if manager == null then [] else manager.driver.chip.trace
  }

  /** The requests the controller has ended so far. */
  ghost function EndingsOf(manager: CM.Manager?): seq<Mcp.Ended>
    reads if manager == null then {} else {manager.driver.chip}
  {
    if manager == null then [] else manager.driver.chip.ended
  }

  /** What the gateway is told of how a send ended. */
  predicate Tells(answer: TransmitResult, error: Mcp.Error) {
    && (answer == TransmitOk <==> error == Mcp.Ok)
    && (answer == TransmitBusy <==> error == Mcp.AllTxBusy)
    && (answer == TransmitTimeout <==> error == Mcp.TxTimeout)
  }

  /** What one call of the transmit callback did: nothing and a failure, or one complete send
      of the frame whose end is told truly; when that was a success, the controller holds the
      frame and has since ended a request for exactly it. */
  ghost predicate Transmission(manager: CM.Manager?, f: CanFrame, answer: TransmitResult,
                               trace: seq<Mcp.Transfer>, endings: seq<Mcp.Ended>)
    reads if manager == null then {} else {manager, manager.driver.chip}
  {
    if manager == null || !manager.initialized || f.dataLength as nat > 8 then
      answer == TransmitFailed && TraceOf(manager) == (if manager == null then [] else trace)
    else
      exists error ::
        Tells(answer, error) && manager.Sent(RawOf(f), error, trace, endings)
  }

  /** The transmit callback; a null context is no manager. */
  method TransmitCanFrame(source: CanFrame, manager: CM.Manager?) returns (result: TransmitResult)
    requires manager != null ==> manager.driver.chip.Valid()
    modifies if manager == null then {} else {manager.driver.chip, manager.driver.chip.clock}
    ensures manager != null ==> manager.driver.chip.Valid()
    ensures manager != null ==> manager.driver.chip.clock.now >= old(manager.driver.chip.clock.now)
    ensures old(EndingsOf(manager)) <= EndingsOf(manager)
    ensures Transmission(manager, source, result, old(TraceOf(manager)), old(EndingsOf(manager)))
  {
    if manager == null {
      return TransmitFailed;
    }
    DlcFits(source.dataLength);
    if source.dataLength > CAN_MAX_DLEN {
      return TransmitFailed;
    }
    var destination := RawOf(source);
    ghost var error: Mcp.Error;
    var sent: CM.TransmitResult;
    sent, error := manager.Send(destination);
    if sent != CM.Ok {
      match sent {
        case Busy => result := TransmitBusy;
        case Timeout => result := TransmitTimeout;
        case _ => result := TransmitFailed;
      }
    } else {
      result := TransmitOk;
    }
    assert manager.initialized ==> Tells(result, error);
  }

  lemma RoutedLength(m: Message, c: Config)
    requires Route(m, c).Routed?
    ensures Route(m, c).frame.dataLength as nat == m.payloadLength as nat + 1 <= 8
  {
  }

  // ----- what arrives in the controller's registers -----

  lemma ValidIdentifierIsWellFormed(ecu: EcuDefinition)
    requires IsValidCanIdentifier(ecu)
    ensures WellFormedId(WithExtended(ecu.canIdentifier, ecu.extended))
    ensures IsExtended(WithExtended(ecu.canIdentifier, ecu.extended)) == ecu.extended
    ensures !IsRemote(WithExtended(ecu.canIdentifier, ecu.extended))
  {
  }

  /** From message to registers: for valid tables, the registers loaded for a routed command
      read back, by the receive path's own formula, as the configured identifier and format
      of the destination unit, and as the command byte followed by the message's arguments. */
  lemma RegistersHoldTheCommand(m: Message, c: Config, ctrl: bv8)
    requires Route(m, c).Routed? && ctrl & 0x08 == 0
    ensures var f := Route(m, c).frame;
            f.dataLength as nat <= 8 && f.dataLength <= CAN_MAX_DLEN
    ensures exists route, ecu ::
              && Serves(m, c, route, ecu, Route(m, c).frame)
              && var image := Image(RawOf(Route(m, c).frame));
                 && ReceivedId(image[..5], ctrl) == WithExtended(ecu.canIdentifier, ecu.extended)
                 && image[4] == ReceivedDlc(image[..5]) == m.payloadLength + 1
                 && image[5..] == [route.commandId] + m.payload[..m.payloadLength as nat]
  {
    var f := Route(m, c).frame;
    RoutedIff(m, c, f);
    var route, ecu :| Serves(m, c, route, ecu, f);
    RoutedLength(m, c);
    DlcFits(f.dataLength);
    assert ValidEcu(ecu);
    ValidIdentifierIsWellFormed(ecu);
    var raw := RawOf(f);
    RegisterRoundTrip(raw, ctrl);
    DataFrameLength(raw);
    assert raw.data[..raw.dlc as nat] == [route.commandId] + m.payload[..m.payloadLength as nat];
  }

  lemma DataFrameLength(f: RawFrame)
    requires f.dlc <= CAN_MAX_DLEN && f.dlc as nat <= 8 && !IsRemote(f.canId)
    ensures Image(f)[4] == f.dlc
  {
  }

  lemma IdentifierMasked(ecu: EcuDefinition)
    requires IsValidCanIdentifier(ecu)
    ensures var c := WithExtended(ecu.canIdentifier, ecu.extended);
            && (c & 0x80000000 != 0) == ecu.extended && c & 0x40000000 == 0
            && ecu.canIdentifier == if ecu.extended then c & 0x1FFFFFFF else c & 0x7FF
  {
  }

  /** From message to wire: what the chip sends for a routed command is a data frame with the
      identifier and format of a registered unit, and in it the command byte of the route for
      exactly this message id, followed by the message's arguments, as many as the route expects
      and good by its validator. */
  lemma CommandOnTheWire(m: Message, c: Config, load: seq<bv8>) returns (route: CommandRoute, ecu: EcuDefinition)
    requires Route(m, c).Routed? && |load| == 13
    requires var f := Route(m, c).frame;
             f.dataLength as nat <= 8 && f.dataLength <= CAN_MAX_DLEN && Image(RawOf(f)) <= load
    ensures c.ecus.Some? && ecu in c.ecus.value && c.routes.Some? && route in c.routes.value
    ensures route.remoteMessageId == m.messageId && route.destination == ecu.ecuId
    ensures route.expectedLength == m.payloadLength && m.payloadLength as nat <= 7
    ensures route.validate.Some? && route.validate.value(m.payload, m.payloadLength)
    ensures OnWire(load) == WireFrame(ecu.extended, ecu.canIdentifier, false, m.payloadLength + 1,
                                      [route.commandId] + m.payload[..m.payloadLength as nat])
  {
    hide Image;
    hide OnWire;
    hide WithExtended;
    hide IsValidCanIdentifier;
    route, ecu := Server(m, c);
    var f := Route(m, c).frame;
    IdentifierMasked(ecu);
    LoadedIsSent(RawOf(f), load);
    assert RawOf(f).data[..f.dataLength as nat] == [route.commandId] + m.payload[..m.payloadLength as nat];
  }

  lemma Server(m: Message, c: Config) returns (route: CommandRoute, ecu: EcuDefinition)
    requires Route(m, c).Routed?
    ensures ValidConfig(c) && Serves(m, c, route, ecu, Route(m, c).frame)
    ensures IsValidCanIdentifier(ecu) && route.validate.Some?
  {
    hide IsValidCanIdentifier;
    var f := Route(m, c).frame;
    RoutedIff(m, c, f);
    route, ecu :| Serves(m, c, route, ecu, f);
    assert ValidEcu(ecu);
  }

  // ----- the gateway -----

  datatype Statistics = Statistics(commandsRouted: nat, framesSent: nat, validationErrors: nat, transmitErrors: nat)

  const NO_STATISTICS: Statistics := Statistics(0, 0, 0, 0)

  datatype GatewayConfig = GatewayConfig(hasTransmit: bool, router: Config)

  const NO_CONFIG: GatewayConfig := GatewayConfig(false, Config(None, None))

  datatype GatewayState = GatewayState(initialized: bool, config: GatewayConfig, statistics: Statistics)

  /** Whether the gateway looks at a message at all. */
  predicate Processable(m: Message) {
    Encodable(m) && m.flags & FLAG_IS_RESPONSE == 0
  }

  /** What processing a message does, given what the callback answers if it is called. */
  datatype Processed = Processed(state: GatewayState, result: ProcessResult, handed: Option<CanFrame>)

  ghost function Process(g: GatewayState, m: Message, answer: TransmitResult): Processed {
    var s := g.statistics;
    if !g.initialized then Processed(g, CanTransmitFailed, None)
    else if !Processable(m) then
      Processed(g.(statistics := s.(validationErrors := Bump(s.validationErrors))), InvalidMessage, None)
    else match Route(m, g.config.router)
      case NotRouted(reason) =>
        Processed(g.(statistics := s.(validationErrors := Bump(s.validationErrors))), MapRouteResult(reason), None)
      case Routed(frame) =>
        var routed := s.(commandsRouted := Bump(s.commandsRouted));
        var counted := if answer == TransmitOk then routed.(framesSent := Bump(s.framesSent))
                       else routed.(transmitErrors := Bump(s.transmitErrors));
        Processed(g.(statistics := counted), MapTransmitResult(answer), Some(frame))
  }

  /** A message in good form that is no response. */
  predicate GoodForm(m: Message) {
    1 <= m.mtype <= 5 && m.flags & 0xFC == 0 && m.flags & 0x02 == 0 && m.payloadLength <= 64
  }

  lemma ProcessableIff(m: Message)
    ensures Processable(m) <==> GoodForm(m)
  {
    SizeFits(m.payloadLength);
    TypesAre(m.mtype);
    hide IsValidMessageType;
  }

  /** An initialised gateway hands a frame over exactly for a message in good form that is
      routed, and it is the frame routed for it; it calls exactly the messages not in good form
      invalid. One that is not initialised only says that the transmission failed. */
  lemma LetsThroughIff(g: GatewayState, m: Message, answer: TransmitResult)
    ensures var done := Process(g, m, answer);
            var good := 1 <= m.mtype <= 5 && m.flags & 0xFC == 0 && m.flags & 0x02 == 0 && m.payloadLength <= 64;
            && done.state.initialized == g.initialized && done.state.config == g.config
            && (!g.initialized ==> done == Processed(g, CanTransmitFailed, None))
            && (g.initialized ==> (done.result == InvalidMessage <==> !good))
            && (forall f :: done.handed == Some(f) <==> g.initialized && good && Route(m, g.config.router) == Routed(f))
  {
    ProcessableIff(m);
    hide Processable;
    hide Route;
  }

  class Gateway {
    const manager: CM.Manager?
    var initialized: bool
    var config: GatewayConfig
    var statistics: Statistics
    ghost var handed: seq<CanFrame>

    constructor (manager: CM.Manager?)
      ensures this.manager == manager && handed == []
      ensures State() == GatewayState(false, NO_CONFIG, NO_STATISTICS)
    {
      this.manager := manager;
      initialized, config, statistics := false, NO_CONFIG, NO_STATISTICS;
      handed := [];
    }

    ghost function State(): GatewayState
      reads this
    {
      GatewayState(initialized, config, statistics)
    }

    /** Does nothing on an initialised gateway, and accepts nothing but a callback with valid
        tables. */
    method Init(newConfig: GatewayConfig) returns (ok: bool)
      modifies this
      ensures handed == old(handed)
      ensures ok <==> old(initialized) || (newConfig.hasTransmit && ValidConfig(newConfig.router))
      ensures State() == if ok && !old(initialized) then GatewayState(true, newConfig, NO_STATISTICS)
                         else old(State())
    {
      if initialized {
        return true;
      }
      var valid := IsValidConfig(newConfig.router);
      if !newConfig.hasTransmit || !valid {
        return false;
      }
      config := newConfig;
      ResetStatistics();
      initialized := true;
      ok := true;
    }

    method Deinit()
      modifies this
      ensures handed == old(handed) && State() == GatewayState(false, NO_CONFIG, NO_STATISTICS)
    {
      initialized := false;
      config := NO_CONFIG;
      ResetStatistics();
    }

    method ResetStatistics()
      modifies this`statistics
      ensures statistics == NO_STATISTICS
    {
      statistics := NO_STATISTICS;
    }

    method ProcessMessage(message: Message) returns (result: ProcessResult, ghost answer: TransmitResult)
      requires manager != null ==> manager.driver.chip.Valid()
      modifies this, if manager == null then {} else {manager.driver.chip, manager.driver.chip.clock}
      ensures manager != null ==> manager.driver.chip.Valid()
      ensures manager != null ==> manager.driver.chip.clock.now >= old(manager.driver.chip.clock.now)
      ensures old(EndingsOf(manager)) <= EndingsOf(manager)
      ensures var p := Process(old(State()), message, answer);
              && State() == p.state && result == p.result
              && handed == old(handed) + (if p.handed.Some? then [p.handed.value] else [])
              && if p.handed.Some? then
                   Transmission(manager, p.handed.value, answer, old(TraceOf(manager)), old(EndingsOf(manager)))
                 else TraceOf(manager) == old(TraceOf(manager))
    {
      hide Transmission;
      hide Route;
      hide Bump;
      hide EndingsOf;
      answer := TransmitFailed;
      if !initialized {
        return CanTransmitFailed, answer;
      }
      if !IsValidMessageType(message.mtype) ||
         !AreValidFlags(message.flags) ||
         message.flags & FLAG_IS_RESPONSE != 0 ||
         message.payloadLength as nat > MAX_PAYLOAD_SIZE
      {
        statistics := statistics.(validationErrors := Bump(statistics.validationErrors));
        return InvalidMessage, answer;
      }
      var routeResult, frame := BuildFrame(message, config.router);
      if routeResult != RouteOk {
        statistics := statistics.(validationErrors := Bump(statistics.validationErrors));
        return MapRouteResult(routeResult), answer;
      }
      statistics := statistics.(commandsRouted := Bump(statistics.commandsRouted));
      handed := handed + [frame];
      var transmitted := TransmitCanFrame(frame, manager);
      answer := transmitted;
      if transmitted == TransmitOk {
        statistics := statistics.(framesSent := Bump(statistics.framesSent));
      } else {
        statistics := statistics.(transmitErrors := Bump(statistics.transmitErrors));
      }
      result := MapTransmitResult(transmitted);
    }
  }
}
