/** The command router: two tables, their validation, and the frame built for a message. */
module CanCommandRouter {
  import opened Options
  import opened RemoteProtocol
  import CanFrames

  const MAX_COMMAND_PAYLOAD_LENGTH: bv8 := 7
  const INVALID_ECU_ID: bv8 := 0

  datatype CanFrame = CanFrame(identifier: bv32, extended: bool, dataLength: bv8, data: CanFrames.FrameBytes)

  datatype EcuDefinition = EcuDefinition(ecuId: bv8, canIdentifier: bv32, extended: bool)

  type PayloadValidator = (Payload, bv8) -> bool

  datatype CommandRoute = CommandRoute(
    remoteMessageId: bv16,
    destination: bv8,
    commandId: bv8,
    expectedLength: bv8,
    validate: Option<PayloadValidator>)

  /** The two tables; None is a null pointer. */
  datatype Config = Config(ecus: Option<seq<EcuDefinition>>, routes: Option<seq<CommandRoute>>)

  datatype RouteResult =
    | RouteOk | InvalidConfiguration | RouteInvalidMessageType | UnknownCommand
    | InvalidPayloadLength | InvalidPayloadValue

  // ----- what the tables must satisfy -----

  predicate IsValidCanIdentifier(ecu: EcuDefinition) {
    if ecu.extended then ecu.canIdentifier <= 0x1FFFFFFF else ecu.canIdentifier <= 0x7FF
  }

  predicate ValidEcu(ecu: EcuDefinition) {
    ecu.ecuId != INVALID_ECU_ID && IsValidCanIdentifier(ecu)
  }

  ghost predicate ValidRegistry(ecus: seq<EcuDefinition>) {
    && (forall i :: 0 <= i < |ecus| ==> ValidEcu(ecus[i]))
    && (forall i, j :: 0 <= i < j < |ecus| ==> ecus[i].ecuId != ecus[j].ecuId)
  }

  function NamespaceOf(messageId: bv16): bv8 {
    High(messageId)
  }

  ghost predicate Registered(ecus: seq<EcuDefinition>, id: bv8) {
    exists i :: 0 <= i < |ecus| && ecus[i].ecuId == id
  }

  ghost predicate ValidRoute(route: CommandRoute, ecus: seq<EcuDefinition>) {
    && route.remoteMessageId != 0
    && route.destination != INVALID_ECU_ID
    && route.destination == NamespaceOf(route.remoteMessageId)
    && route.expectedLength <= MAX_COMMAND_PAYLOAD_LENGTH
    && route.validate.Some?
    && Registered(ecus, route.destination)
  }

  ghost predicate UniqueRoutes(routes: seq<CommandRoute>) {
    forall i, j :: 0 <= i < j < |routes| ==> routes[i].remoteMessageId != routes[j].remoteMessageId
  }

  ghost predicate ValidRoutes(routes: seq<CommandRoute>, ecus: seq<EcuDefinition>) {
    && (forall i :: 0 <= i < |routes| ==> ValidRoute(routes[i], ecus))
    && UniqueRoutes(routes)
  }

  ghost predicate ValidConfig(c: Config) {
    && c.ecus.Some? && c.routes.Some?
    && c.ecus.value != [] && c.routes.value != []
    && ValidRegistry(c.ecus.value)
    && ValidRoutes(c.routes.value, c.ecus.value)
  }

  /** What a pair of tables needs, in full: units with distinct nonzero ids and identifiers that
      fit their format, and commands with distinct nonzero message ids that lead, by their upper
      byte, to a registered unit, with at most seven argument bytes and a validator. */
  lemma ValidConfigIff(c: Config)
    ensures ValidConfig(c) <==>
              && c.ecus.Some? && c.routes.Some?
              && var ecus, routes := c.ecus.value, c.routes.value;
                 && |ecus| > 0 && |routes| > 0
                 && (forall i :: 0 <= i < |ecus| ==>
                       && ecus[i].ecuId != 0
                       && ecus[i].canIdentifier <= if ecus[i].extended then 0x1FFFFFFF else 0x7FF)
                 && (forall i, j :: 0 <= i < j < |ecus| ==> ecus[i].ecuId != ecus[j].ecuId)
                 && (forall i :: 0 <= i < |routes| ==>
                       && routes[i].remoteMessageId != 0 && routes[i].validate.Some?
                       && routes[i].destination == (routes[i].remoteMessageId >> 8) as bv8
                       && routes[i].expectedLength <= 7
                       && exists k :: 0 <= k < |ecus| && ecus[k].ecuId == routes[i].destination)
                 && (forall i, j :: 0 <= i < j < |routes| ==>
                       routes[i].remoteMessageId != routes[j].remoteMessageId)
  {
    hide High;
    forall v ensures High(v) == (v >> 8) as bv8 {
      LowByte(v);
    }
  }

  // ----- lookup: the first entry that matches -----

  function EcuById(ecus: seq<EcuDefinition>, id: bv8): (r: Option<EcuDefinition>)
    ensures r.Some? ==> r.value in ecus && r.value.ecuId == id
    ensures r.None? ==> !Registered(ecus, id)
  {
    if ecus == [] then None
    else if ecus[0].ecuId == id then Some(ecus[0])
    else EcuById(ecus[1..], id)
  }

  function RouteById(routes: seq<CommandRoute>, id: bv16): (r: Option<CommandRoute>)
    ensures r.Some? ==> r.value in routes && r.value.remoteMessageId == id
    ensures r.None? ==> forall i :: 0 <= i < |routes| ==> routes[i].remoteMessageId != id
  {
    if routes == [] then None
    else if routes[0].remoteMessageId == id then Some(routes[0])
    else RouteById(routes[1..], id)
  }

  method FindEcu(ecus: seq<EcuDefinition>, id: bv8) returns (found: Option<EcuDefinition>)
    ensures found == EcuById(ecus, id)
  {
    for index := 0 to |ecus|
      invariant EcuById(ecus, id) == EcuById(ecus[index..], id)
    {
      if ecus[index].ecuId == id {
        return Some(ecus[index]);
      }
      assert ecus[index..][1..] == ecus[index + 1..];
    }
    return None;
  }

  method FindRoute(routes: seq<CommandRoute>, id: bv16) returns (found: Option<CommandRoute>)
    ensures found == RouteById(routes, id)
  {
    for index := 0 to |routes|
      invariant RouteById(routes, id) == RouteById(routes[index..], id)
    {
      if routes[index].remoteMessageId == id {
        return Some(routes[index]);
      }
      assert routes[index..][1..] == routes[index + 1..];
    }
    return None;
  }

  /** Accepts a pair of tables exactly when they are valid. */
  method IsValidConfig(config: Config) returns (ok: bool)
    ensures ok <==> ValidConfig(config)
  {
    if config.ecus.None? || |config.ecus.value| == 0 || config.routes.None? || |config.routes.value| == 0 {
      return false;
    }
    var ecus, routes := config.ecus.value, config.routes.value;
    var ecusOk := CheckRegistry(ecus);
    if !ecusOk {
      return false;
    }
    ok := CheckRoutes(routes, ecus);
  }

  method CheckRegistry(ecus: seq<EcuDefinition>) returns (ok: bool)
    ensures ok <==> ValidRegistry(ecus)
  {
    for index := 0 to |ecus|
      invariant forall i :: 0 <= i < index ==> ValidEcu(ecus[i])
      invariant forall i, j :: 0 <= i < index && i < j < |ecus| ==> ecus[i].ecuId != ecus[j].ecuId
    {
      if ecus[index].ecuId == INVALID_ECU_ID || !IsValidCanIdentifier(ecus[index]) {
        return false;
      }
      for other := index + 1 to |ecus|
        invariant forall j :: index < j < other ==> ecus[index].ecuId != ecus[j].ecuId
      {
        if ecus[other].ecuId == ecus[index].ecuId {
          return false;
        }
      }
    }
    ok := true;
  }

  method CheckRoutes(routes: seq<CommandRoute>, ecus: seq<EcuDefinition>) returns (ok: bool)
    ensures ok <==> ValidRoutes(routes, ecus)
  {
    for index := 0 to |routes|
      invariant forall i :: 0 <= i < index ==> ValidRoute(routes[i], ecus)
      invariant forall i, j :: 0 <= i < index && i < j < |routes| ==>
                  routes[i].remoteMessageId != routes[j].remoteMessageId
    {
      var route := routes[index];
      var ecu := FindEcu(ecus, route.destination);
      if route.remoteMessageId == 0 ||
         route.destination == INVALID_ECU_ID ||
         route.destination != NamespaceOf(route.remoteMessageId) ||
         route.expectedLength > MAX_COMMAND_PAYLOAD_LENGTH ||
         route.validate.None? ||
         ecu.None?
      {
        return false;
      }
      for other := index + 1 to |routes|
        invariant forall j :: index < j < other ==> routes[index].remoteMessageId != routes[j].remoteMessageId
      {
        if routes[other].remoteMessageId == route.remoteMessageId {
          return false;
        }
      }
    }
    ok := true;
  }

  // ----- the frame of a message -----

  datatype Routing = Routed(frame: CanFrame) | NotRouted(reason: RouteResult)

  const EMPTY_FRAME: CanFrame := CanFrame(0, false, 0, [0, 0, 0, 0, 0, 0, 0, 0])

  /** The command byte, then the arguments, then zeros. */
  function FrameFor(m: Message, route: CommandRoute, ecu: EcuDefinition): CanFrame
    requires m.payloadLength as nat <= 7
  {
    var n := m.payloadLength as nat;
    CanFrame(ecu.canIdentifier, ecu.extended, m.payloadLength + 1,
             [route.commandId] + m.payload[..n] + seq(7 - n, _ => 0))
  }

  lemma LengthFits(n: bv8)
    ensures n <= 7 <==> n as nat <= 7
  {
  }

  ghost function Route(m: Message, c: Config): Routing {
    if !ValidConfig(c) then NotRouted(InvalidConfiguration)
    else if m.mtype != COMMAND || m.flags & FLAG_IS_RESPONSE != 0 then NotRouted(RouteInvalidMessageType)
    else
      var route := RouteById(c.routes.value, m.messageId);
      if route.None? then NotRouted(UnknownCommand)
      else if m.payloadLength != route.value.expectedLength then NotRouted(InvalidPayloadLength)
      else if !route.value.validate.value(m.payload, m.payloadLength) then NotRouted(InvalidPayloadValue)
      else
        LengthFits(m.payloadLength);
        Routed(FrameFor(m, route.value, EcuById(c.ecus.value, route.value.destination).value))
  }

  method BuildFrame(message: Message, config: Config) returns (result: RouteResult, frame: CanFrame)
    ensures match Route(message, config)
            case Routed(f) => result == RouteOk && frame == f
            case NotRouted(reason) => result == reason != RouteOk && frame == EMPTY_FRAME
  {
    frame := EMPTY_FRAME;
    var valid := IsValidConfig(config);
    if !valid {
      return InvalidConfiguration, EMPTY_FRAME;
    }
    if message.mtype != COMMAND || message.flags & FLAG_IS_RESPONSE != 0 {
      return RouteInvalidMessageType, EMPTY_FRAME;
    }
    var route := FindRoute(config.routes.value, message.messageId);
    if route.None? {
      return UnknownCommand, EMPTY_FRAME;
    }
    if message.payloadLength != route.value.expectedLength {
      return InvalidPayloadLength, EMPTY_FRAME;
    }
    if !route.value.validate.value(message.payload, message.payloadLength) {
      return InvalidPayloadValue, EMPTY_FRAME;
    }
    var ecu := FindEcu(config.ecus.value, route.value.destination);
    if ecu.None? {
      return InvalidConfiguration, EMPTY_FRAME;
    }
    LengthFits(message.payloadLength);
    FrameIsBuilt(message, route.value, ecu.value);
    hide *;
    var n := message.payloadLength as nat;
    frame := frame.(identifier := ecu.value.canIdentifier,
                    extended := ecu.value.extended,
                    dataLength := message.payloadLength + 1);
    frame := frame.(data := [route.value.commandId] + message.payload[..n] + frame.data[n + 1..]);
    result := RouteOk;
  }

  lemma FrameIsBuilt(m: Message, route: CommandRoute, ecu: EcuDefinition)
    requires m.payloadLength as nat <= 7
    ensures FrameFor(m, route, ecu)
         == CanFrame(ecu.canIdentifier, ecu.extended, m.payloadLength + 1,
                     [route.commandId] + m.payload[..m.payloadLength as nat]
                       + EMPTY_FRAME.data[m.payloadLength as nat + 1..])
  {
    var n := m.payloadLength as nat;
    assert EMPTY_FRAME.data[n + 1..] == seq(7 - n, _ => 0);
  }

  // ----- what routing means for valid tables -----

  lemma EcuIsFound(ecus: seq<EcuDefinition>, ecu: EcuDefinition)
    requires forall i, j :: 0 <= i < j < |ecus| ==> ecus[i].ecuId != ecus[j].ecuId
    requires ecu in ecus
    ensures EcuById(ecus, ecu.ecuId) == Some(ecu)
  {
  }

  lemma RouteIsFound(routes: seq<CommandRoute>, route: CommandRoute)
    requires UniqueRoutes(routes) && route in routes
    ensures RouteById(routes, route.remoteMessageId) == Some(route)
  {
  }

  /** For valid tables first-match lookup is membership: a frame is built exactly from a
      route and a unit that are in the tables and fit the message. */
  lemma RoutedIff(m: Message, c: Config, f: CanFrame)
    requires ValidConfig(c)
    ensures Route(m, c) == Routed(f) <==>
              && m.mtype == COMMAND && m.flags & FLAG_IS_RESPONSE == 0
              && exists route, ecu :: Serves(m, c, route, ecu, f)
  {
    if m.mtype == COMMAND && m.flags & FLAG_IS_RESPONSE == 0 {
      if Route(m, c) == Routed(f) {
        var route := RouteById(c.routes.value, m.messageId).value;
        var ecu := EcuById(c.ecus.value, route.destination).value;
        LengthFits(m.payloadLength);
        assert Serves(m, c, route, ecu, f);
      }
      if route, ecu :| Serves(m, c, route, ecu, f) {
        RouteIsFound(c.routes.value, route);
        EcuIsFound(c.ecus.value, ecu);
      }
    }
  }

  ghost predicate Serves(m: Message, c: Config, route: CommandRoute, ecu: EcuDefinition, f: CanFrame)
    requires ValidConfig(c)
  {
    && route in c.routes.value && ecu in c.ecus.value
    && route.remoteMessageId == m.messageId && route.destination == ecu.ecuId
    && m.payloadLength == route.expectedLength && m.payloadLength as nat <= 7
    && route.validate.value(m.payload, m.payloadLength)
    && f == FrameFor(m, route, ecu)
  }

  /** The branch for a route without a registered unit is never taken: the configuration
      error is reported for invalid tables and for nothing else. */
  lemma ConfigurationErrorIff(m: Message, c: Config)
    ensures Route(m, c) == NotRouted(InvalidConfiguration) <==> !ValidConfig(c)
  {
  }

  /** For valid tables a refusal says what is wrong: the message is no command, no route has
      its id, or the one route that has it expects another length or rejects the arguments. */
  lemma RefusedIff(m: Message, c: Config)
    requires ValidConfig(c)
    ensures Route(m, c) == NotRouted(RouteInvalidMessageType) <==>
              m.mtype != COMMAND || m.flags & FLAG_IS_RESPONSE != 0
    ensures Route(m, c) == NotRouted(UnknownCommand) <==>
              && m.mtype == COMMAND && m.flags & FLAG_IS_RESPONSE == 0
              && forall r :: r in c.routes.value ==> r.remoteMessageId != m.messageId
    ensures Route(m, c) == NotRouted(InvalidPayloadLength) <==>
              && m.mtype == COMMAND && m.flags & FLAG_IS_RESPONSE == 0
              && exists r :: r in c.routes.value && r.remoteMessageId == m.messageId
                             && r.expectedLength != m.payloadLength
    ensures Route(m, c) == NotRouted(InvalidPayloadValue) <==>
              && m.mtype == COMMAND && m.flags & FLAG_IS_RESPONSE == 0
              && exists r :: r in c.routes.value && r.remoteMessageId == m.messageId
                             && r.expectedLength == m.payloadLength && r.validate.Some?
                             && !r.validate.value(m.payload, m.payloadLength)
  {
    forall r | r in c.routes.value && r.remoteMessageId == m.messageId
      ensures RouteById(c.routes.value, m.messageId) == Some(r)
    {
      RouteIsFound(c.routes.value, r);
    }
    hide Registered;
    hide EcuById;
    hide FrameFor;
  }

  // ----- table order -----

  lemma CountTwice<T>(s: seq<T>, i: nat, j: nat)
    requires i < j < |s| && s[i] == s[j]
    ensures multiset(s)[s[i]] >= 2
  {
    assert s == s[..i] + [s[i]] + s[i + 1..j] + [s[j]] + s[j + 1..];
  }

  lemma {:induction false} TwoPlaces<T>(s: seq<T>, x: T) returns (i: nat, j: nat)
    requires multiset(s)[x] >= 2
    ensures i < j < |s| && s[i] == x == s[j]
  {
    assert s == [s[0]] + s[1..];
    if s[0] == x {
      assert x in s[1..];
      j :| 0 < j < |s| && s[j] == x;
      i := 0;
    } else {
      i, j := TwoPlaces(s[1..], x);
      i, j := i + 1, j + 1;
    }
  }

  lemma KeysStayUnique<T, K>(a: seq<T>, b: seq<T>, key: T -> K)
    requires multiset(a) == multiset(b)
    requires forall i, j :: 0 <= i < j < |a| ==> key(a[i]) != key(a[j])
    ensures forall i, j :: 0 <= i < j < |b| ==> key(b[i]) != key(b[j])
  {
    forall i, j | 0 <= i < j < |b| ensures key(b[i]) != key(b[j]) {
      if b[i] == b[j] {
        CountTwice(b, i, j);
        var x, y := TwoPlaces(a, b[i]);
      } else {
        assert b[i] in multiset(a) && b[j] in multiset(a);
        var x :| 0 <= x < |a| && a[x] == b[i];
        var y :| 0 <= y < |a| && a[y] == b[j];
      }
    }
  }

  lemma RegistryReorders(a: seq<EcuDefinition>, b: seq<EcuDefinition>)
    requires multiset(a) == multiset(b) && ValidRegistry(a)
    ensures ValidRegistry(b)
    ensures forall id :: EcuById(a, id) == EcuById(b, id)
    ensures forall id :: Registered(a, id) <==> Registered(b, id)
  {
    KeysStayUnique(a, b, (e: EcuDefinition) => e.ecuId);
    forall i | 0 <= i < |b| ensures ValidEcu(b[i]) {
      assert b[i] in multiset(a);
    }
    forall id
      ensures EcuById(a, id) == EcuById(b, id)
      ensures Registered(a, id) <==> Registered(b, id)
    {
      if EcuById(a, id).Some? {
        assert EcuById(a, id).value in multiset(b);
        EcuIsFound(b, EcuById(a, id).value);
      }
      if EcuById(b, id).Some? {
        assert EcuById(b, id).value in multiset(a);
        EcuIsFound(a, EcuById(b, id).value);
      }
    }
  }

  lemma RoutesReorder(a: seq<CommandRoute>, b: seq<CommandRoute>,
                      ecusA: seq<EcuDefinition>, ecusB: seq<EcuDefinition>)
    requires multiset(a) == multiset(b) && ValidRoutes(a, ecusA)
    requires forall id :: Registered(ecusA, id) <==> Registered(ecusB, id)
    ensures ValidRoutes(b, ecusB)
    ensures forall id :: RouteById(a, id) == RouteById(b, id)
  {
    hide ValidRoute;
    hide Registered;
    hide RouteById;
    KeysStayUnique(a, b, (r: CommandRoute) => r.remoteMessageId);
    assert UniqueRoutes(a) && UniqueRoutes(b);
    forall i | 0 <= i < |b| ensures ValidRoute(b[i], ecusB) {
      RouteStaysValid(a, b, i, ecusA, ecusB);
    }
    forall id ensures RouteById(a, id) == RouteById(b, id) {
      SameRoute(a, b, id);
    }
  }

  lemma SameRoute(a: seq<CommandRoute>, b: seq<CommandRoute>, id: bv16)
    requires multiset(a) == multiset(b) && UniqueRoutes(a) && UniqueRoutes(b)
    ensures RouteById(a, id) == RouteById(b, id)
  {
    if RouteById(a, id).Some? {
      assert RouteById(a, id).value in multiset(b);
      RouteIsFound(b, RouteById(a, id).value);
    }
    if RouteById(b, id).Some? {
      assert RouteById(b, id).value in multiset(a);
      RouteIsFound(a, RouteById(b, id).value);
    }
  }

  lemma RouteStaysValid(a: seq<CommandRoute>, b: seq<CommandRoute>, i: nat,
                        ecusA: seq<EcuDefinition>, ecusB: seq<EcuDefinition>)
    requires multiset(a) == multiset(b) && i < |b|
    requires forall k :: 0 <= k < |a| ==> ValidRoute(a[k], ecusA)
    requires forall id :: Registered(ecusA, id) <==> Registered(ecusB, id)
    ensures ValidRoute(b[i], ecusB)
  {
    hide High;
    assert b[i] in multiset(a);
    var k :| 0 <= k < |a| && a[k] == b[i];
    assert ValidRoute(a[k], ecusA);
  }

  /** Reordering either table, or both, changes neither its validity nor any frame. */
  lemma OrderDoesNotMatter(c: Config, d: Config, m: Message)
    requires c.ecus.Some? && d.ecus.Some? && multiset(c.ecus.value) == multiset(d.ecus.value)
    requires c.routes.Some? && d.routes.Some? && multiset(c.routes.value) == multiset(d.routes.value)
    ensures ValidConfig(c) <==> ValidConfig(d)
    ensures Route(m, c) == Route(m, d)
  {
    if ValidConfig(c) {
      ReorderedOnce(c, d, m);
    }
    if ValidConfig(d) {
      ReorderedOnce(d, c, m);
    }
  }

  lemma ReorderedOnce(c: Config, d: Config, m: Message)
    requires ValidConfig(c)
    requires d.ecus.Some? && multiset(c.ecus.value) == multiset(d.ecus.value)
    requires d.routes.Some? && multiset(c.routes.value) == multiset(d.routes.value)
    ensures ValidConfig(d) && Route(m, c) == Route(m, d)
  {
    RegistryReorders(c.ecus.value, d.ecus.value);
    RoutesReorder(c.routes.value, d.routes.value, c.ecus.value, d.ecus.value);
    assert |multiset(c.ecus.value)| == |d.ecus.value| && |multiset(c.routes.value)| == |d.routes.value|;
  }
}
