/** The tables the receiver ships with, and the frames they can put on the bus. */
module VehicleCanProtocol {
  import opened Options
  import opened Crc
  import opened RemoteProtocol
  import opened CanCommandRouter

  const LIGHTING: bv8 := 0x01
  const LMCU100_COMMAND_CAN_ID: bv32 := 0x101

  const GET_SOFTWARE_VERSION: bv8 := 0x01
  const SET_INDICATOR_STATE: bv8 := 0x03
  const SET_EXTERIOR_LIGHTS_STATE: bv8 := 0x04
  const SET_BRAKE_STATE: bv8 := 0x05
  const SET_REVERSE_LIGHT_STATE: bv8 := 0x06

  const OFF: bv8 := 0
  const ON: bv8 := 1
  const LOW_BEAM: bv8 := 3

  predicate ValidateAnyPayload(payload: Payload, length: bv8) {
    true
  }

  predicate IsBinaryState(state: bv8) {
    state == OFF || state == ON
  }

  predicate ValidateIndicatorState(payload: Payload, length: bv8) {
    && length == 3
    && IsBinaryState(payload[0]) && IsBinaryState(payload[1]) && IsBinaryState(payload[2])
    && !(payload[1] == ON && payload[2] == ON)
  }

  predicate ValidateExteriorLightState(payload: Payload, length: bv8) {
    && length == 4
    && payload[0] <= LOW_BEAM
    && IsBinaryState(payload[1]) && IsBinaryState(payload[2]) && IsBinaryState(payload[3])
  }

  predicate ValidateBinaryState(payload: Payload, length: bv8) {
    length == 1 && IsBinaryState(payload[0])
  }

  function EcuRegistry(): seq<EcuDefinition> {
    [EcuDefinition(LIGHTING, LMCU100_COMMAND_CAN_ID, false)]
  }

  function CommandRoutes(): seq<CommandRoute> {
    [CommandRoute(0x0101, LIGHTING, GET_SOFTWARE_VERSION, 0, Some(ValidateAnyPayload)),
     CommandRoute(0x0103, LIGHTING, SET_INDICATOR_STATE, 3, Some(ValidateIndicatorState)),
     CommandRoute(0x0104, LIGHTING, SET_EXTERIOR_LIGHTS_STATE, 4, Some(ValidateExteriorLightState)),
     CommandRoute(0x0105, LIGHTING, SET_BRAKE_STATE, 1, Some(ValidateBinaryState)),
     CommandRoute(0x0106, LIGHTING, SET_REVERSE_LIGHT_STATE, 1, Some(ValidateBinaryState))]
  }

  function MakeCommandRouterConfig(): Config {
    Config(Some(EcuRegistry()), Some(CommandRoutes()))
  }

  lemma ShippedTablesAreValid()
    ensures ValidConfig(MakeCommandRouterConfig())
  {
    var ecus, routes := EcuRegistry(), CommandRoutes();
    assert ecus[0].ecuId == LIGHTING;
    assert Registered(ecus, LIGHTING);
    forall i | 0 <= i < |routes| ensures ValidRoute(routes[i], ecus) {
    }
    forall i, j | 0 <= i < j < |routes| ensures routes[i].remoteMessageId != routes[j].remoteMessageId {
    }
  }

  // ----- the bus grammar -----

  /** What a frame on the bus may look like, said without reference to messages: one
      standard identifier, one of five commands with exactly its arguments in range, never
      both direction indicators on, and nothing after the arguments. */
  predicate SafeFrame(f: CanFrame) {
    && f.identifier == 0x101 && !f.extended
    && if f.data[0] == 1 then
         f.dataLength == 1 && ClearFrom(f, 1)
       else if f.data[0] == 3 then
         && f.dataLength == 4 && ClearFrom(f, 4)
         && f.data[1] <= 1 && f.data[2] <= 1 && f.data[3] <= 1
         && (f.data[2] == 0 || f.data[3] == 0)
       else if f.data[0] == 4 then
         && f.dataLength == 5 && ClearFrom(f, 5)
         && f.data[1] <= 3 && f.data[2] <= 1 && f.data[3] <= 1 && f.data[4] <= 1
       else
         && (f.data[0] == 5 || f.data[0] == 6)
         && f.dataLength == 2 && ClearFrom(f, 2)
         && f.data[1] <= 1
  }

  predicate ClearFrom(f: CanFrame, n: nat) {
    forall i :: n <= i < 8 ==> f.data[i] == 0
  }

  /** The message id a command byte stands for. */
  function IdOfCommand(command: bv8): bv16 {
    0x0100 | (command as bv16)
  }

  lemma RoutesByCommand(id: bv16)
    ensures RouteById(CommandRoutes(), id)
         == if id == 0x0101 then Some(CommandRoutes()[0])
            else if id == 0x0103 then Some(CommandRoutes()[1])
            else if id == 0x0104 then Some(CommandRoutes()[2])
            else if id == 0x0105 then Some(CommandRoutes()[3])
            else if id == 0x0106 then Some(CommandRoutes()[4])
            else None
  {
  }

  ghost function ShippedRoute(m: Message): Routing {
    Route(m, MakeCommandRouterConfig())
  }

  /** Routing with the shipped tables, the lookups carried out. */
  lemma ShippedRouteIs(m: Message, route: CommandRoute)
    requires m.mtype == COMMAND && m.flags & FLAG_IS_RESPONSE == 0
    requires RouteById(CommandRoutes(), m.messageId) == Some(route)
    ensures route.validate.Some?
    ensures m.payloadLength == route.expectedLength ==> m.payloadLength as nat <= 7
    ensures ShippedRoute(m)
         == if m.payloadLength != route.expectedLength then NotRouted(InvalidPayloadLength)
            else if !route.validate.value(m.payload, m.payloadLength) then NotRouted(InvalidPayloadValue)
            else Routed(FrameFor(m, route, EcuRegistry()[0]))
  {
    ShippedTablesAreValid();
    assert EcuById(EcuRegistry(), LIGHTING) == Some(EcuRegistry()[0]);
    RoutesByCommand(m.messageId);
    LengthFits(m.payloadLength);
  }

  predicate CarriesMessage(f: CanFrame, m: Message) {
    && m.messageId == IdOfCommand(f.data[0])
    && m.payloadLength as nat <= 7
    && f.dataLength == m.payloadLength + 1
    && f.data[1..m.payloadLength as nat + 1] == m.payload[..m.payloadLength as nat]
  }

  lemma FrameForCarries(m: Message, route: CommandRoute, ecu: EcuDefinition, n: nat)
    requires n == m.payloadLength as nat <= 7
    ensures FrameFor(m, route, ecu).data[0] == route.commandId
    ensures FrameFor(m, route, ecu).data[1..n + 1] == m.payload[..n]
    ensures ClearFrom(FrameFor(m, route, ecu), n + 1)
    ensures forall i :: 0 <= i < n ==> FrameFor(m, route, ecu).data[i + 1] == m.payload[i]
  {
  }

  /** Every frame the receiver can put on the bus is safe, and tells which command and
      which arguments it carries. */
  lemma RoutedFramesAreSafe(m: Message, f: CanFrame)
    requires ShippedRoute(m) == Routed(f)
    ensures SafeFrame(f) && CarriesMessage(f, m)
  {
    ShippedTablesAreValid();
    RoutesByCommand(m.messageId);
    var route := RouteById(CommandRoutes(), m.messageId).value;
    ShippedRouteIs(m, route);
    var n := m.payloadLength as nat;
    FrameForCarries(m, route, EcuRegistry()[0], n);
    SafeByRoute(m, route, f, n);
  }

  lemma SafeByRoute(m: Message, route: CommandRoute, f: CanFrame, n: nat)
    requires route in CommandRoutes() && route.remoteMessageId == m.messageId
    requires m.payloadLength == route.expectedLength && n == m.payloadLength as nat
    requires route.validate.value(m.payload, m.payloadLength)
    requires f.identifier == LMCU100_COMMAND_CAN_ID && !f.extended && f.dataLength == m.payloadLength + 1
    requires f.data[0] == route.commandId && ClearFrom(f, n + 1)
    requires n <= 7 && forall i :: 0 <= i < n ==> f.data[i + 1] == m.payload[i]
    ensures SafeFrame(f) && m.messageId == IdOfCommand(f.data[0])
  {
  }

  /** The message that asks for a given frame. */
  function Asking(f: CanFrame): Message {
    Message(COMMAND, 0, 0, IdOfCommand(f.data[0]), f.dataLength - 1, f.data[1..] + seq(57, _ => 0))
  }

  lemma SafeFramesFit(f: CanFrame) returns (route: CommandRoute)
    requires SafeFrame(f)
    ensures var m := Asking(f);
            && RouteById(CommandRoutes(), m.messageId) == Some(route) && route.validate.Some?
            && m.payloadLength == route.expectedLength && route.commandId == f.data[0]
            && route.validate.value(m.payload, m.payloadLength)
            && 1 <= f.dataLength as nat <= 8 && m.payloadLength as nat + 1 == f.dataLength as nat
            && ClearFrom(f, f.dataLength as nat)
  {
    var m := Asking(f);
    RoutesByCommand(m.messageId);
    route := RouteById(CommandRoutes(), m.messageId).value;
  }

  lemma AskingGivesFrame(f: CanFrame, route: CommandRoute, n: nat)
    requires f.identifier == LMCU100_COMMAND_CAN_ID && !f.extended && route.commandId == f.data[0]
    requires n == Asking(f).payloadLength as nat <= 7 && ClearFrom(f, n + 1)
    ensures FrameFor(Asking(f), route, EcuRegistry()[0]) == f
  {
  }

  lemma SafeFramesAreRouted(f: CanFrame)
    requires SafeFrame(f)
    ensures ShippedRoute(Asking(f)) == Routed(f)
  {
    var route := SafeFramesFit(f);
    var m := Asking(f);
    ShippedRouteIs(m, route);
    AskingGivesFrame(f, route, m.payloadLength as nat);
    hide ShippedRoute;
    hide FrameFor;
    hide SafeFrame;
  }

  /** The frames the shipped tables can emit are exactly the safe ones. */
  lemma BusGrammar(f: CanFrame)
    ensures SafeFrame(f) <==> exists m :: ShippedRoute(m) == Routed(f)
  {
    if SafeFrame(f) {
      SafeFramesAreRouted(f);
    }
    if m :| ShippedRoute(m) == Routed(f) {
      RoutedFramesAreSafe(m, f);
    }
  }

  /** One frame never stands for two commands. */
  lemma FrameDeterminesCommand(m: Message, n: Message, f: CanFrame)
    requires ShippedRoute(m) == Routed(f) && ShippedRoute(n) == Routed(f)
    ensures m.messageId == n.messageId && m.payloadLength == n.payloadLength
    ensures m.payload[..m.payloadLength as nat] == n.payload[..n.payloadLength as nat]
  {
    RoutedFramesAreSafe(m, f);
    RoutedFramesAreSafe(n, f);
  }

  // ----- the bytes that ask for a frame -----

  /** The packet that asks for a frame: the command byte is the low byte of its message id, the
      arguments are its payload; flags and sequence number are the sender's choice. */
  function CommandBytes(f: CanFrame, flags: bv8, low: bv8, high: bv8): seq<bv8>
    requires 1 <= f.dataLength as nat <= 8
  {
    CommandPacket(flags, low, high, f.data[0], f.dataLength - 1, f.data[1..f.dataLength as nat])
  }

  function CommandPacket(flags: bv8, low: bv8, high: bv8, command: bv8, count: bv8, arguments: seq<bv8>): seq<bv8> {
    var body := [0x52, 0x43, 1, 1, flags, low, high, command, 1, count] + arguments;
    body + [(Crc16(body) & 0xFF) as bv8, (Crc16(body) >> 8) as bv8]
  }

  lemma Sealed<T>(head: seq<T>, tail: seq<T>, a: T, b: T)
    requires |head| == 10
    ensures var p, n := head + tail + [a, b], |tail|;
            && |p| == 12 + n && p[..10 + n] == head + tail && p[10..10 + n] == tail
            && p[10 + n] == a && p[11 + n] == b && forall i :: 0 <= i < 10 ==> p[i] == head[i]
  {
  }

  lemma EndsWithCheck(p: seq<bv8>, crc: bv16)
    requires |p| >= 2 && p[|p| - 2] == Low(crc) && p[|p| - 1] == High(crc)
    ensures CheckOf(p) == crc
  {
    hide Low;
    hide High;
    JoinSplit(crc);
  }

  lemma CommandPacketParts(flags: bv8, low: bv8, high: bv8, command: bv8, count: bv8, arguments: seq<bv8>)
    ensures var body := [0x52, 0x43, 1, 1, flags, low, high, command, 1, count] + arguments;
            CommandPacket(flags, low, high, command, count, arguments)
              == body + [Low(Crc16(body)), High(Crc16(body))]
  {
    hide Crc16;
    hide Low;
    hide High;
    LowByte(Crc16([0x52, 0x43, 1, 1, flags, low, high, command, 1, count] + arguments));
  }

  lemma CommandPacketAt(flags: bv8, low: bv8, high: bv8, command: bv8, count: bv8, arguments: seq<bv8>)
    ensures var p, n := CommandPacket(flags, low, high, command, count, arguments), |arguments|;
            && |p| == 12 + n && p[0] == 0x52 && p[1] == 0x43 && p[2] == 1 && p[3] == 1 && p[4] == flags
            && p[7] == command && p[8] == 1 && p[9] == count && p[10..10 + n] == arguments
            && CheckOf(p) == Crc16(p[..10 + n])
  {
    hide CommandPacket;
    hide Crc16;
    hide CheckOf;
    hide Low;
    hide High;
    var head := [0x52, 0x43, 1, 1, flags, low, high, command, 1, count];
    var crc := Crc16(head + arguments);
    CommandPacketParts(flags, low, high, command, count, arguments);
    Sealed(head, arguments, Low(crc), High(crc));
    EndsWithCheck(head + arguments + [Low(crc), High(crc)], crc);
  }

  lemma SafeSize(f: CanFrame)
    requires SafeFrame(f)
    ensures 1 <= f.dataLength as nat <= 8 && (f.dataLength - 1) as nat == f.dataLength as nat - 1
    ensures f.dataLength - 1 <= 64 && ClearFrom(f, f.dataLength as nat)
  {
    hide ClearFrom;
  }

  lemma CommandBytesAt(f: CanFrame, flags: bv8, low: bv8, high: bv8)
    requires SafeFrame(f)
    ensures 1 <= f.dataLength as nat <= 8
    ensures var p, n := CommandBytes(f, flags, low, high), f.dataLength as nat;
            && |p| == 11 + n && p[0] == 0x52 && p[1] == 0x43 && p[2] == 1 && p[3] == 1 && p[4] == flags
            && p[7] == f.data[0] && p[8] == 1 && p[9] == f.dataLength - 1
            && p[10..9 + n] == f.data[1..n]
            && CheckOf(p) == Crc16(p[..9 + n])
  {
    SafeSize(f);
    CommandPacketAt(flags, low, high, f.data[0], f.dataLength - 1, f.data[1..f.dataLength as nat]);
    hide SafeFrame;
    hide ClearFrom;
    hide Crc16;
    hide CheckOf;
    hide CommandPacket;
  }

  lemma CommandIsIntact(f: CanFrame, flags: bv8, low: bv8, high: bv8)
    requires SafeFrame(f) && flags <= 1
    ensures 1 <= f.dataLength as nat <= 8
    ensures Intact(CommandBytes(f, flags, low, high)) && Parse(CommandBytes(f, flags, low, high)).Accepted?
  {
    SafeSize(f);
    CommandBytesAt(f, flags, low, high);
    AcceptedIff(CommandBytes(f, flags, low, high));
    assert flags & 0xFC == 0;
    hide SafeFrame;
    hide Crc16;
    hide CommandBytes;
    hide CheckOf;
    hide Parse;
  }

  lemma CommandSays(f: CanFrame, flags: bv8, low: bv8, high: bv8)
    requires SafeFrame(f) && flags <= 1
    ensures 1 <= f.dataLength as nat <= 8 && Parse(CommandBytes(f, flags, low, high)).Accepted?
    ensures var m, ask := Parse(CommandBytes(f, flags, low, high)).message, Asking(f);
            && m.mtype == ask.mtype && m.flags == flags && m.messageId == ask.messageId
            && m.payloadLength == ask.payloadLength && m.payload == ask.payload
  {
    SafeSize(f);
    CommandIsIntact(f, flags, low, high);
    CommandBytesAt(f, flags, low, high);
    AcceptedSays(CommandBytes(f, flags, low, high));
    hide SafeFrame;
    hide Crc16;
    hide CommandBytes;
    hide CheckOf;
    hide Parse;
    PaddedArguments(f);
    CommandId(f.data[0]);
  }

  lemma CommandId(command: bv8)
    ensures (command as bv16) | ((1 as bv16) << 8) == IdOfCommand(command)
  {
  }

  lemma PaddedArguments(f: CanFrame)
    requires 1 <= f.dataLength as nat <= 8 && ClearFrom(f, f.dataLength as nat)
    ensures f.data[1..f.dataLength as nat] + seq(65 - f.dataLength as nat, _ => 0) == f.data[1..] + seq(57, _ => 0)
  {
  }

  /** Every safe frame has bytes that ask for it, with or without an acknowledgement and under
      any sequence number. */
  lemma CommandIsRouted(f: CanFrame, flags: bv8, low: bv8, high: bv8)
    requires SafeFrame(f) && flags <= 1
    ensures 1 <= f.dataLength as nat <= 8
    ensures Intact(CommandBytes(f, flags, low, high)) && Parse(CommandBytes(f, flags, low, high)).Accepted?
    ensures ShippedRoute(Parse(CommandBytes(f, flags, low, high)).message) == Routed(f)
  {
    CommandIsIntact(f, flags, low, high);
    CommandSays(f, flags, low, high);
    SafeFramesAreRouted(f);
    assert flags & 0x02 == 0;
    SameRouting(Asking(f), Parse(CommandBytes(f, flags, low, high)).message, MakeCommandRouterConfig());
    hide SafeFrame;
    hide CommandBytes;
    hide Intact;
    hide Parse;
    hide Route;
  }

  /** Routing looks at neither the sequence number nor whether an acknowledgement is wanted. */
  lemma SameRouting(m: Message, n: Message, c: Config)
    requires m.mtype == n.mtype && m.messageId == n.messageId
    requires m.payloadLength == n.payloadLength && m.payload == n.payload
    requires m.flags & 0x02 == 0 && n.flags & 0x02 == 0
    ensures Route(m, c) == Route(n, c)
  {
  }
}
