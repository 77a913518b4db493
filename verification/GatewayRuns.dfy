/** Whole lives of a gateway: any sequence of initialisations, shutdowns, counter resets and
    messages, from power-up. */
module GatewayRuns {
  import opened Options
  import opened RemoteProtocol
  import opened CanCommandRouter
  import opened EspNowCanGateway
  import opened Counters

  datatype Operation =
    | Initialise(config: GatewayConfig)
    | Shutdown
    | ClearCounters
    | Message(message: RemoteProtocol.Message, answer: TransmitResult)

  const POWER_UP: GatewayState := GatewayState(false, NO_CONFIG, NO_STATISTICS)

  ghost function After(g: GatewayState, op: Operation): GatewayState {
    match op
    case Initialise(c) =>
      if !g.initialized && c.hasTransmit && ValidConfig(c.router) then GatewayState(true, c, NO_STATISTICS) else g
    case Shutdown => POWER_UP
    case ClearCounters => g.(statistics := NO_STATISTICS)
    case Message(m, answer) => Process(g, m, answer).state
  }

  ghost function Run(ops: seq<Operation>): GatewayState {
    if ops == [] then POWER_UP else After(Run(ops[..|ops| - 1]), ops[|ops| - 1])
  }

  /** What really happened since the counters were last at zero: messages refused, frames
      handed to the callback, and how the callback answered. */
  datatype Tally = Tally(refused: nat, handed: nat, sent: nat, failed: nat)

  const NOTHING: Tally := Tally(0, 0, 0, 0)

  ghost function Tallied(g: GatewayState, t: Tally, op: Operation): Tally {
    match op
    case Initialise(c) => if !g.initialized && c.hasTransmit && ValidConfig(c.router) then NOTHING else t
    case Shutdown => NOTHING
    case ClearCounters => NOTHING
    case Message(m, answer) =>
      if !g.initialized then t
      else if Process(g, m, answer).handed.None? then t.(refused := t.refused + 1)
      else if answer == TransmitOk then t.(handed := t.handed + 1, sent := t.sent + 1)
      else t.(handed := t.handed + 1, failed := t.failed + 1)
  }

  ghost function TallyOf(ops: seq<Operation>): Tally {
    if ops == [] then NOTHING
    else Tallied(Run(ops[..|ops| - 1]), TallyOf(ops[..|ops| - 1]), ops[|ops| - 1])
  }

  /** The messages an initialised gateway was given since its counters were last at zero. */
  ghost function CallsOf(ops: seq<Operation>): nat {
    if ops == [] then 0
    else
      var before, op := ops[..|ops| - 1], ops[|ops| - 1];
      var g := Run(before);
      match op
      case Initialise(c) => if !g.initialized && c.hasTransmit && ValidConfig(c.router) then 0 else CallsOf(before)
      case Shutdown => 0
      case ClearCounters => 0
      case Message(m, answer) => if g.initialized then CallsOf(before) + 1 else CallsOf(before)
  }

  predicate Counts(s: Statistics, t: Tally) {
    && s.validationErrors == t.refused % 0x1_0000_0000
    && s.commandsRouted == t.handed % 0x1_0000_0000
    && s.framesSent == t.sent % 0x1_0000_0000
    && s.transmitErrors == t.failed % 0x1_0000_0000
  }

  lemma Bumped(n: nat, counter: nat)
    requires counter == n % 0x1_0000_0000
    ensures Bump(counter) == (n + 1) % 0x1_0000_0000
  {
  }

  lemma OperationCounts(g: GatewayState, t: Tally, op: Operation)
    requires Counts(g.statistics, t)
    ensures Counts(After(g, op).statistics, Tallied(g, t, op))
  {
    hide Bump;
    hide Route;
    hide Processable;
    hide ValidConfig;
    Bumped(t.refused, g.statistics.validationErrors);
    Bumped(t.handed, g.statistics.commandsRouted);
    Bumped(t.sent, g.statistics.framesSent);
    Bumped(t.failed, g.statistics.transmitErrors);
  }

  lemma {:induction false} CountersAreTallies(ops: seq<Operation>)
    ensures Counts(Run(ops).statistics, TallyOf(ops))
  {
    if ops != [] {
      var before := ops[..|ops| - 1];
      CountersAreTallies(before);
      hide Counts;
      hide After;
      hide Tallied;
      OperationCounts(Run(before), TallyOf(before), ops[|ops| - 1]);
    }
  }

  lemma {:induction false} TalliesAddUp(ops: seq<Operation>)
    ensures TallyOf(ops).sent + TallyOf(ops).failed == TallyOf(ops).handed
    ensures TallyOf(ops).refused + TallyOf(ops).handed == CallsOf(ops)
  {
    if ops != [] {
      TalliesAddUp(ops[..|ops| - 1]);
      hide After;
      hide Process;
    }
  }

  /** The counters balance in every run, wrap-around included: refusals and routed commands
      make up the messages processed, and every routed command was sent or failed. */
  lemma CountersBalance(ops: seq<Operation>)
    ensures var s := Run(ops).statistics;
            && (s.validationErrors + s.commandsRouted) % 0x1_0000_0000 == CallsOf(ops) % 0x1_0000_0000
            && (s.framesSent + s.transmitErrors) % 0x1_0000_0000 == s.commandsRouted
  {
    CountersAreTallies(ops);
    TalliesAddUp(ops);
    hide Run;
    hide TallyOf;
    hide CallsOf;
    var t := TallyOf(ops);
    SumWraps(t.refused, t.handed);
    SumWraps(t.sent, t.failed);
  }

  lemma SumWraps(a: nat, b: nat)
    ensures (a % 0x1_0000_0000 + b % 0x1_0000_0000) % 0x1_0000_0000 == (a + b) % 0x1_0000_0000
  {
  }
}
