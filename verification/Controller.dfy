// The safety loop of the machine: one packet out and one packet in every 100 ms, the heaters
// scheduled in slots of that length, and bailing out when something is wrong.

module Controller {
  import opened Basics
  import opened Heaters
  import opened LccPacket

  datatype State = NotStartedYet | Running | SoftBail | HardBail

  datatype BailReason = NoReason | CbUnresponsive | CbPacketInvalid | LccPacketInvalid | SsrQueueEmpty | Forced

  datatype Ssr = BothOff | BrewBoilerOn | ServiceBoilerOn

  datatype FlowMode = PumpOnSolenoidOpen | PumpOnSolenoidClosed | PumpOffSolenoidOpen | PumpOffSolenoidClosed

  // The commands that bear on the state; Other stands for those that change settings only.
  datatype Command = Begin | Unbail | ForceHardBail | SetEcoMode(on: bool) | SetFlowMode(mode: FlowMode) | Other

  // What the latches, which follow the packets in time, and the averages say in a round.
  datatype Sensed = Sensed(waterTankEmpty: bool, serviceBoilerLow: bool, brewTemp: real, serviceTemp: real)

  // What updateControllerSettings hands to the controllers: the settings may have been changed by a
  // command or by the other core, and the set points also depend on sleep and heat-up.
  datatype Settings = Settings(pid: PidSettings, brewSetPoint: real, serviceSetPoint: real)

  // One round: whether a complete packet came in time, whether it passes the test, its brew switch,
  // what latches and averages say after it, the commands that are waiting, the settings after them,
  // whether a heat-up forces hysteresis, and the time since the last call of the PID controller.
  datatype Round = Round(
    success: bool, valid: bool, brewSwitch: bool, sensed: Sensed, commands: seq<Command>, settings: Settings,
    forceHysteresis: bool, dT: real)

  // What is on record of a round: the state when its packet was sent, the packet, the time at
  // which its reply was judged, and the state at its end.
  datatype Event = Event(before: State, sent: Raw, at: nat, round: Round, after: State)

  const UNBAIL_AFTER := 2_000_000      // us

  // ----- The slots -----

  // What the boilers get of the next 25 slots.
  function BrewShare(bb: int, sb: int, brewing: bool): int {
    if bb + sb > SLOTS && !brewing then 3 * bb / 4 else bb
  }

  function ServiceShare(bb: int, sb: int, brewing: bool): int {
    if bb + sb > SLOTS then SLOTS - BrewShare(bb, sb, brewing) else sb
  }

  // The shares never add up to more than there is, and nothing underflows. When they must be cut,
  // every slot is used; a brew keeps all the heat it asks for. The service boiler, which asks for
  // all slots or none, never gets more than it asks for, and neither does the brew boiler.
  lemma SharesFit(bb: nat, sb: nat, brewing: bool)
    requires bb <= SLOTS && sb <= SLOTS
    ensures 0 <= ServiceShare(bb, sb, brewing)
    ensures 0 <= BrewShare(bb, sb, brewing) <= bb && (brewing ==> BrewShare(bb, sb, brewing) == bb)
    ensures BrewShare(bb, sb, brewing) + ServiceShare(bb, sb, brewing) == if bb + sb > SLOTS then SLOTS else bb + sb
    ensures sb == 0 || sb == SLOTS ==> ServiceShare(bb, sb, brewing) <= sb
    ensures sb == 0 ==> BrewShare(bb, sb, brewing) == bb
  {
  }

  // The share that the comment before the power sharing promises, rounded to the nearest number.
  function Proportional(bb: nat, sb: nat): int
    requires bb + sb > 0
  {
    (2 * SLOTS * bb + bb + sb) / (2 * (bb + sb))
  }

  // When the service boiler wants heat too, that is what the brew boiler gets for these wishes only.
  lemma SharesNotProportional(bb: nat)
    requires bb <= SLOTS
    ensures BrewShare(bb, SLOTS, false) == Proportional(bb, SLOTS) <==> bb in {0, 4, 7, 8, 10, 11, 13}
    ensures BrewShare(bb, SLOTS, true) == Proportional(bb, SLOTS) <==> bb <= 3
    ensures BrewShare(25, SLOTS, false) == 18 && Proportional(25, SLOTS) == 13
  {
    assert bb <= 12 ==> bb in {0, 1, 2, 3, 4, 5, 6, 7, 8, 9, 10, 11, 12};
    assert bb > 12 ==> bb in {13, 14, 15, 16, 17, 18, 19, 20, 21, 22, 23, 24, 25};
  }

  function Times(s: Ssr, n: int): seq<Ssr> {
    seq(if n < 0 then 0 else n, _ => s)
  }

  // The slots of a refill, in their order.
  function Schedule(bb: int, sb: int, brewing: bool): seq<Ssr> {
    var brew, service := BrewShare(bb, sb, brewing), ServiceShare(bb, sb, brewing);
    Times(BrewBoilerOn, brew) + Times(ServiceBoilerOn, service) + Times(BothOff, SLOTS - brew - service)
  }

  function Count(q: seq<Ssr>, s: Ssr): nat {
    if q == [] then 0 else (if q[0] == s then 1 else 0) + Count(q[1..], s)
  }

  lemma {:induction false} CountAppend(q: seq<Ssr>, r: seq<Ssr>, s: Ssr)
    ensures Count(q + r, s) == Count(q, s) + Count(r, s)
  {
    if q == [] {
      assert q + r == r;
    } else {
      assert (q + r)[1..] == q[1..] + r;
      CountAppend(q[1..], r, s);
    }
  }

  lemma {:induction false} CountTimes(s: Ssr, n: nat, t: Ssr)
    ensures Count(Times(s, n), t) == if s == t then n else 0
  {
    if n > 0 {
      assert Times(s, n)[1..] == Times(s, n - 1);
      CountTimes(s, n - 1, t);
    }
  }

  // A refill makes 25 slots, and of these each boiler has its share.
  lemma ScheduleCounts(bb: nat, sb: nat, brewing: bool)
    requires bb <= SLOTS && sb <= SLOTS
    ensures var q := Schedule(bb, sb, brewing);
      && |q| == SLOTS
      && Count(q, BrewBoilerOn) == BrewShare(bb, sb, brewing)
      && Count(q, ServiceBoilerOn) == ServiceShare(bb, sb, brewing)
      // those of the brew boiler come first and those without heat last
      && forall i, j | 0 <= i < j < |q| ::
           (q[j] == BrewBoilerOn ==> q[i] == BrewBoilerOn) && (q[i] == BothOff ==> q[j] == BothOff)
  {
    var brew, service := BrewShare(bb, sb, brewing), ServiceShare(bb, sb, brewing);
    var rest := SLOTS - brew - service;
    forall s: Ssr
      ensures Count(Schedule(bb, sb, brewing), s) ==
        Count(Times(BrewBoilerOn, brew), s) + Count(Times(ServiceBoilerOn, service), s) + Count(Times(BothOff, rest), s)
    {
      CountAppend(Times(BrewBoilerOn, brew) + Times(ServiceBoilerOn, service), Times(BothOff, rest), s);
      CountAppend(Times(BrewBoilerOn, brew), Times(ServiceBoilerOn, service), s);
    }
    CountTimes(BrewBoilerOn, brew, BrewBoilerOn);
    CountTimes(BrewBoilerOn, brew, ServiceBoilerOn);
    CountTimes(ServiceBoilerOn, service, BrewBoilerOn);
    CountTimes(ServiceBoilerOn, service, ServiceBoilerOn);
    CountTimes(BothOff, rest, BrewBoilerOn);
    CountTimes(BothOff, rest, ServiceBoilerOn);
  }

  // What the brew boiler gets on top when a brew has lasted so many microseconds.
  function FeedForwardAfter(t: int): real {
    -0.00025 * (t as real / 1000.0) + 5.0
  }

  // It starts at 5, falls evenly, and is used up after 20 seconds.
  lemma FeedForwardFalls(t: int, dt: int)
    ensures FeedForwardAfter(0) == 5.0 && FeedForwardAfter(20_000_000) == 0.0
    ensures FeedForwardAfter(t + dt) - FeedForwardAfter(t) == FeedForwardAfter(dt) - FeedForwardAfter(0)
  {
  }

  // ----- The water -----

  // updateForFlowMode
  function ForFlowMode(lcc: Parsed, flowMode: FlowMode): Parsed {
    lcc.(pumpOn := flowMode == PumpOnSolenoidOpen || flowMode == PumpOnSolenoidClosed,
         waterLineSolenoidOpen := flowMode == PumpOnSolenoidOpen || flowMode == PumpOffSolenoidOpen)
  }

  const FILLING := NOTHING.(pumpOn := true, waterLineSolenoidOpen := true, serviceBoilerSolenoidOpen := true)

  // A brew needs its switch, and water in the tank to begin with.
  predicate Brews(wasBrewing: bool, brewSwitch: bool, s: Sensed) {
    brewSwitch && (wasBrewing || !s.waterTankEmpty)
  }

  // Pump and solenoids: as the flow mode says in a brew, and filling the service boiler only when
  // there is none, and water in the tank.
  function Water(wasBrewing: bool, brewSwitch: bool, s: Sensed, flowMode: FlowMode): (lcc: Parsed)
    ensures !lcc.brewBoilerSsrOn && !lcc.serviceBoilerSsrOn
  {
    if Brews(wasBrewing, brewSwitch, s) then ForFlowMode(NOTHING, flowMode)
    else if !wasBrewing && !s.waterTankEmpty && s.serviceBoilerLow then FILLING
    else NOTHING
  }

  function WithHeater(lcc: Parsed, slot: Ssr): Parsed {
    lcc.(brewBoilerSsrOn := slot == BrewBoilerOn, serviceBoilerSsrOn := slot == ServiceBoilerOn)
  }

  lemma WaterAllowed(wasBrewing: bool, brewSwitch: bool, s: Sensed, flowMode: FlowMode, slot: Ssr)
    ensures Allowed(WithHeater(Water(wasBrewing, brewSwitch, s, flowMode), slot))
  {
  }

  // ----- The states of a run -----

  predicate Bailed(s: State) {
    s.SoftBail? || s.HardBail?
  }

  // The state after a command.
  function AfterCommand(s: State, c: Command): State {
    match c
    case Begin => Running
    case Unbail => Running
    case ForceHardBail => HardBail
    case _ => s
  }

  function AfterCommands(s: State, cs: seq<Command>): State {
    if cs == [] then s else AfterCommand(AfterCommands(s, cs[..|cs| - 1]), cs[|cs| - 1])
  }

  function EcoAfter(eco: bool, cs: seq<Command>): bool {
    if cs == [] then eco
    else
      match cs[|cs| - 1]
      case SetEcoMode(on) => on
      case _ => EcoAfter(eco, cs[..|cs| - 1])
  }

  function FlowAfter(flow: FlowMode, cs: seq<Command>): FlowMode {
    if cs == [] then flow
    else
      match cs[|cs| - 1]
      case SetFlowMode(mode) => mode
      case _ => FlowAfter(flow, cs[..|cs| - 1])
  }

  // The commands that decide on the state, and the last of them.
  predicate Decides(c: Command) {
    c == Begin || c == Unbail || c == ForceHardBail
  }

  predicate LastDecision(cs: seq<Command>, k: int) {
    0 <= k < |cs| && Decides(cs[k]) && forall l | k < l < |cs| :: !Decides(cs[l])
  }

  // From every state the last one that decides is obeyed, and without one the state stays.
  lemma {:induction false} LastCommandDecides(s: State, cs: seq<Command>, k: nat)
    requires LastDecision(cs, k)
    ensures AfterCommands(s, cs) == if cs[k] == ForceHardBail then HardBail else Running
    decreases |cs|
  {
    if k < |cs| - 1 {
      assert !Decides(cs[|cs| - 1]);
      LastCommandDecides(s, cs[..|cs| - 1], k);
    }
  }

  lemma {:induction false} NoneDecides(s: State, cs: seq<Command>)
    requires forall l | 0 <= l < |cs| :: !Decides(cs[l])
    ensures AfterCommands(s, cs) == s
  {
    if cs != [] {
      assert !Decides(cs[|cs| - 1]);
      NoneDecides(s, cs[..|cs| - 1]);
    }
  }

  lemma Obeyed(s: State, cs: seq<Command>)
    ensures forall k | LastDecision(cs, k) ::
              AfterCommands(s, cs) == if cs[k] == ForceHardBail then HardBail else Running
    ensures (forall k | 0 <= k < |cs| :: !Decides(cs[k])) ==> AfterCommands(s, cs) == s
  {
    forall k | LastDecision(cs, k)
      ensures AfterCommands(s, cs) == if cs[k] == ForceHardBail then HardBail else Running
    {
      LastCommandDecides(s, cs, k);
    }
    if forall k | 0 <= k < |cs| :: !Decides(cs[k]) { NoneDecides(s, cs); }
  }

  // The modes are those of the last commands that set them.
  lemma {:induction false} LastModeCounts(eco: bool, flow: FlowMode, cs: seq<Command>, k: nat)
    requires k < |cs|
    ensures cs[k].SetEcoMode? && (forall l | k < l < |cs| :: !cs[l].SetEcoMode?) ==> EcoAfter(eco, cs) == cs[k].on
    ensures cs[k].SetFlowMode? && (forall l | k < l < |cs| :: !cs[l].SetFlowMode?) ==> FlowAfter(flow, cs) == cs[k].mode
    decreases |cs|
  {
    if k < |cs| - 1 { LastModeCounts(eco, flow, cs[..|cs| - 1], k); }
  }

  lemma {:induction false} ModesStay(eco: bool, flow: FlowMode, cs: seq<Command>)
    ensures (forall l | 0 <= l < |cs| :: !cs[l].SetEcoMode?) ==> EcoAfter(eco, cs) == eco
    ensures (forall l | 0 <= l < |cs| :: !cs[l].SetFlowMode?) ==> FlowAfter(flow, cs) == flow
  {
    if cs != [] { ModesStay(eco, flow, cs[..|cs| - 1]); }
  }

  lemma {:induction false} OnlyCommandsFree(s: State, cs: seq<Command>)
    requires Begin !in cs && Unbail !in cs
    ensures AfterCommands(s, cs) == s || AfterCommands(s, cs) == HardBail
  {
    if cs != [] { OnlyCommandsFree(s, cs[..|cs| - 1]); }
  }

  // Only the start leads away from NotStartedYet, and nothing leads back to it.
  lemma {:induction false} CommandsStart(s: State, cs: seq<Command>)
    requires AfterCommands(s, cs) == NotStartedYet
    ensures s == NotStartedYet
  {
    if cs != [] { CommandsStart(s, cs[..|cs| - 1]); }
  }

  // The state and the timer once the reply, or its absence, was judged at time `at`.
  function Judged(s: State, timer: Option<nat>, r: Round, at: nat): (State, Option<nat>) {
    if s == NotStartedYet || s == HardBail || (s == Running && r.success && r.valid) then (s, timer)
    else if !r.success then (SoftBail, None)
    else if timer.None? then (SoftBail, Some(at))
    else if at > timer.value + UNBAIL_AFTER then (Running, None)
    else (SoftBail, timer)
  }

  // Where a run has got: its state, its timer and the time of its last round.
  function StateAt(h: seq<Event>): State {
    if h == [] then NotStartedYet else h[|h| - 1].after
  }

  function TimerAt(h: seq<Event>): Option<nat> {
    if h == [] then None
    else
      var e := h[|h| - 1];
      if Unbail in e.round.commands then None
      else Judged(e.before, TimerAt(h[..|h| - 1]), e.round, e.at).1
  }

  function TimeAt(h: seq<Event>): nat {
    if h == [] then 0 else h[|h| - 1].at
  }

  // One more round of a run: what is sent passes the test and is the safe packet unless the machine
  // is running, the reply is judged, and the commands are followed.
  predicate Continues(h: seq<Event>, e: Event) {
    && e.before == StateAt(h) && TimeAt(h) <= e.at
    && Validates(e.sent) && (e.before != Running ==> e.sent == SAFE)
    && e.after == AfterCommands(Judged(e.before, TimerAt(h), e.round, e.at).0, e.round.commands)
  }

  predicate IsRun(h: seq<Event>) {
    h == [] || (IsRun(h[..|h| - 1]) && Continues(h[..|h| - 1], h[|h| - 1]))
  }

  lemma RunGoesOn(h: seq<Event>, e: Event)
    requires IsRun(h) && Continues(h, e)
    ensures IsRun(h + [e]) && StateAt(h + [e]) == e.after && TimeAt(h + [e]) == e.at
    ensures TimerAt(h + [e]) ==
      if Unbail in e.round.commands then None else Judged(e.before, TimerAt(h), e.round, e.at).1
  {
    assert (h + [e])[..|h + [e]| - 1] == h;
  }

  lemma {:induction false} PrefixIsRun(h: seq<Event>, n: nat)
    requires IsRun(h) && n <= |h|
    ensures IsRun(h[..n]) && (n < |h| ==> Continues(h[..n], h[n]))
    decreases |h|
  {
    if n < |h| {
      PrefixIsRun(h[..|h| - 1], n);
      assert h[..|h| - 1][..n] == h[..n];
    } else {
      assert h[..n] == h;
    }
  }

  // ----- What holds of all runs -----

  // A round begins in the state in which the one before it ended.
  predicate Chained(h: seq<Event>) {
    forall i | 0 <= i < |h| - 1 :: h[i + 1].before == h[i].after
  }

  // Packets sent before the start and while bailed are the safe one, and every packet passes the
  // test.
  predicate OnlySafePackets(h: seq<Event>) {
    forall i | 0 <= i < |h| ::
      Validates(h[i].sent) && (h[i].before != Running ==> h[i].sent == SAFE)
  }

  // Every round ends as the last command that decides on it wants it.
  ghost predicate CommandsObeyed(h: seq<Event>) {
    forall i, k | 0 <= i < |h| && LastDecision(h[i].round.commands, k) ::
      h[i].after == if h[i].round.commands[k] == ForceHardBail then HardBail else Running
  }

  lemma RunsObey(h: seq<Event>)
    requires IsRun(h)
    ensures CommandsObeyed(h)
  {
    forall i, k | 0 <= i < |h| && LastDecision(h[i].round.commands, k)
      ensures h[i].after == if h[i].round.commands[k] == ForceHardBail then HardBail else Running
    {
      PrefixIsRun(h, i);
      var e := h[i];
      LastCommandDecides(Judged(e.before, TimerAt(h[..i]), e.round, e.at).0, e.round.commands, k);
    }
  }

  lemma RunsAreSafe(h: seq<Event>)
    requires IsRun(h)
    ensures Chained(h) && OnlySafePackets(h) && HardBailHolds(h)
  {
    forall i | 0 <= i < |h|
      ensures Continues(h[..i], h[i])
      ensures h[i].before == HardBail && !Freed(h[i]) ==> h[i].after == HardBail
    {
      PrefixIsRun(h, i);
      if !Freed(h[i]) { OnlyCommandsFree(h[i].before, h[i].round.commands); }
    }
  }

  // A command came that ends a hard bail.
  predicate Freed(e: Event) {
    Unbail in e.round.commands || Begin in e.round.commands
  }

  // Only a command ends a hard bail.
  predicate HardBailHolds(h: seq<Event>) {
    forall i | 0 <= i < |h| :: h[i].before == HardBail && h[i].after != HardBail ==> Freed(h[i])
  }

  // A hard bail lasts, and only safe packets go out, until such a command comes.
  lemma {:induction false} HardBailLasts(h: seq<Event>, i: nat, j: nat)
    requires IsRun(h) && i <= j < |h| && h[i].before == HardBail
    requires forall k | i <= k < j :: !Freed(h[k])
    ensures h[j].before == HardBail && h[j].sent == SAFE
    decreases j - i
  {
    RunsAreSafe(h);
    if i < j {
      assert h[i + 1].before == h[i].after;
      HardBailLasts(h, i + 1, j);
    }
  }

  // From round k to round i a complete packet came every time, and all the rounds after round k
  // began in a soft bail.
  predicate Since(h: seq<Event>, k: nat, i: int) {
    i < |h| && forall j | k <= j <= i :: h[j].round.success && (k < j ==> h[j].before == SoftBail)
  }

  // The soft bail that round i ended had lasted for more than two seconds of complete packets.
  ghost predicate WaitedFor(h: seq<Event>, i: int) {
    exists k | 0 <= k < i :: Since(h, k, i) && h[i].at > h[k].at + UNBAIL_AFTER
  }

  // Without a command to unbail a soft bail ends only after that, and a missing or invalid reply
  // makes a running machine bail unless a command to begin follows at once.
  ghost predicate BailKept(h: seq<Event>, i: nat)
    requires i < |h|
  {
    Unbail !in h[i].round.commands && h[i].after == Running ==>
      && (h[i].before == SoftBail ==> WaitedFor(h, i))
      && (h[i].before == Running && !(h[i].round.success && h[i].round.valid) ==> Begin in h[i].round.commands)
  }

  ghost predicate SoftBailHolds(h: seq<Event>) {
    forall i | 0 <= i < |h| :: BailKept(h, i)
  }

  // What the reply of the next round e leaves for its commands.
  function JudgedNext(h: seq<Event>, e: Event): (State, Option<nat>) {
    Judged(e.before, TimerAt(h), e.round, e.at)
  }

  // Where a command to begin takes effect, no timer runs, and no soft bail from earlier rounds is
  // cut off.
  predicate Harmless(h: seq<Event>, e: Event) {
    Begin in e.round.commands && Unbail !in e.round.commands && e.after == Running ==>
      JudgedNext(h, e).1.None? && !(e.before == SoftBail && JudgedNext(h, e).0 == SoftBail)
  }

  predicate AllHarmless(h: seq<Event>) {
    forall i | 0 <= i < |h| :: Harmless(h[..i], h[i])
  }

  // Commands leave a soft bail only as they found it.
  lemma {:induction false} StaysSoft(s: State, cs: seq<Command>)
    requires AfterCommands(s, cs) == SoftBail
    ensures s == SoftBail && Begin !in cs && Unbail !in cs
  {
    if cs != [] {
      StaysSoft(s, cs[..|cs| - 1]);
      assert cs == cs[..|cs| - 1] + [cs[|cs| - 1]];
    }
  }

  // The timer runs only in a bail. In a soft bail it was set by the first of the complete packets
  // that have come ever since.
  ghost predicate Timed(h: seq<Event>) {
    && (TimerAt(h).Some? ==> Bailed(StateAt(h)) && TimerAt(h).value <= TimeAt(h))
    && (StateAt(h) == SoftBail && TimerAt(h).Some? ==>
          exists k | 0 <= k < |h| :: h[k].at == TimerAt(h).value && Since(h, k, |h| - 1))
    && (StateAt(h) == SoftBail ==>
          forall k | 0 <= k < |h| && Since(h, k, |h| - 1) :: TimerAt(h).Some? && TimerAt(h).value <= h[k].at)
  }

  lemma {:induction false} TimerMeansBail(h: seq<Event>)
    requires IsRun(h) && AllHarmless(h)
    ensures Timed(h)
  {
    if h != [] {
      var before, e := h[..|h| - 1], h[|h| - 1];
      assert forall i | 0 <= i < |before| :: before[..i] == h[..i];
      TimerMeansBail(before);
      TimerStays(before, e);
      assert before + [e] == h;
    }
  }

  lemma TimerStays(h: seq<Event>, e: Event)
    requires IsRun(h) && Timed(h) && Continues(h, e) && Harmless(h, e)
    ensures Timed(h + [e])
  {
    hide IsRun, Since, Validates;
    var h', judged := h + [e], JudgedNext(h, e);
    RunGoesOn(h, e);
    if TimerAt(h').Some? {
      if e.after == NotStartedYet { CommandsStart(judged.0, e.round.commands); }
      if Begin !in e.round.commands { OnlyCommandsFree(judged.0, e.round.commands); }
    }
    if e.after == SoftBail {
      StaysSoft(judged.0, e.round.commands);
      SoftTimerStays(h, e);
    }
  }

  lemma SinceBefore(h: seq<Event>, e: Event, k: nat)
    requires k < |h| && Since(h + [e], k, |h|)
    ensures Since(h, k, |h| - 1) && e.round.success && e.before == SoftBail
  {
    assert (h + [e])[|h|] == e;
    assert forall j | k <= j < |h| :: (h + [e])[j] == h[j];
  }

  // A round that ends in a soft bail.
  lemma SoftTimerStays(h: seq<Event>, e: Event)
    requires IsRun(h) && Timed(h) && Continues(h, e) && e.after == SoftBail == JudgedNext(h, e).0
    requires Begin !in e.round.commands && Unbail !in e.round.commands
    ensures var h' := h + [e];
      && (TimerAt(h').Some? ==> exists k | 0 <= k < |h'| :: h'[k].at == TimerAt(h').value && Since(h', k, |h|))
      && forall k | 0 <= k < |h'| && Since(h', k, |h|) :: TimerAt(h').Some? && TimerAt(h').value <= h'[k].at
  {
    hide IsRun, Validates, AfterCommands;
    var h' := h + [e];
    RunGoesOn(h, e);
    if TimerAt(h').Some? {
      if TimerAt(h).Some? {
        var k :| 0 <= k < |h| && h[k].at == TimerAt(h).value && Since(h, k, |h| - 1);
        assert h'[k].at == TimerAt(h').value && Since(h', k, |h|);
      } else {
        assert h'[|h|].at == TimerAt(h').value && Since(h', |h|, |h|);
      }
    }
    forall k | 0 <= k < |h'| && Since(h', k, |h|)
      ensures TimerAt(h').Some? && TimerAt(h').value <= h'[k].at
    {
      assert h'[|h|].round.success;
      if k < |h| { SinceBefore(h, e, k); }
    }
  }

  // The guarantee about soft bails holds of every run with harmless commands to begin only.
  lemma SoftBailsWait(h: seq<Event>)
    requires IsRun(h) && AllHarmless(h)
    ensures SoftBailHolds(h)
  {
    hide IsRun, Timed;
    forall i | 0 <= i < |h|
      ensures BailKept(h, i)
    {
      PrefixIsRun(h, i);
      assert forall j | 0 <= j < i :: h[..i][..j] == h[..j];
      TimerMeansBail(h[..i]);
      RoundKeepsBail(h[..i], h[i]);
      KeptInLonger(h, i);
    }
  }

  lemma RoundKeepsBail(h: seq<Event>, e: Event)
    requires Timed(h) && Continues(h, e) && Harmless(h, e)
    ensures BailKept(h + [e], |h|)
  {
    var h', judged := h + [e], JudgedNext(h, e);
    if Unbail !in e.round.commands && e.after == Running {
      if Begin !in e.round.commands { OnlyCommandsFree(judged.0, e.round.commands); }
      if e.before == SoftBail {
        var k :| 0 <= k < |h| && h[k].at == TimerAt(h).value && Since(h, k, |h| - 1);
        assert Since(h', k, |h|) && h'[|h|].at > h'[k].at + UNBAIL_AFTER;
      }
    }
  }

  lemma KeptInLonger(h: seq<Event>, i: nat)
    requires i < |h| && BailKept(h[..i] + [h[i]], i)
    ensures BailKept(h, i)
  {
    var short := h[..i] + [h[i]];
    if WaitedFor(short, i) {
      var k :| 0 <= k < i && Since(short, k, i) && short[i].at > short[k].at + UNBAIL_AFTER;
      assert forall j | k <= j <= i :: short[j] == h[j];
      assert Since(h, k, i);
    }
  }

  // How a round ends that brings no command that decides: a good reply leaves a running machine
  // running and any other makes it bail, and a soft bail ends just when the wait is over.
  ghost predicate Answered(h: seq<Event>, i: nat)
    requires i < |h|
  {
    (forall k | 0 <= k < |h[i].round.commands| :: !Decides(h[i].round.commands[k])) ==>
      h[i].after ==
        match h[i].before
        case Running => if h[i].round.success && h[i].round.valid then Running else SoftBail
        case SoftBail => if WaitedFor(h, i) then Running else SoftBail
        case _ => h[i].before
  }

  ghost predicate AllAnswered(h: seq<Event>) {
    forall i | 0 <= i < |h| :: Answered(h, i)
  }

  // In such runs every reply is answered like that.
  lemma RepliesAnswered(h: seq<Event>)
    requires IsRun(h) && AllHarmless(h)
    ensures AllAnswered(h)
  {
    hide IsRun, Timed;
    forall i | 0 <= i < |h|
      ensures Answered(h, i)
    {
      PrefixIsRun(h, i);
      assert forall j | 0 <= j < i :: h[..i][..j] == h[..j];
      TimerMeansBail(h[..i]);
      RoundAnswered(h[..i], h[i]);
      WaitedInLonger(h, i);
    }
  }

  lemma RoundAnswered(h: seq<Event>, e: Event)
    requires Timed(h) && Continues(h, e)
    ensures Answered(h + [e], |h|)
  {
    var h', cs := h + [e], e.round.commands;
    if forall k | 0 <= k < |cs| :: !Decides(cs[k]) {
      NoneDecides(JudgedNext(h, e).0, cs);
      if e.before == SoftBail {
        SoftBailAnswered(h, e);
      }
    }
  }

  lemma SoftBailAnswered(h: seq<Event>, e: Event)
    requires Timed(h) && Continues(h, e) && e.before == SoftBail
    ensures JudgedNext(h, e).0 == if WaitedFor(h + [e], |h|) then Running else SoftBail
  {
    hide AfterCommands, Validates, Timed, WaitedFor, TimerAt;
    WaitIsOver(h, e);
  }

  // The wait is over just when the timer has run out.
  lemma WaitIsOver(h: seq<Event>, e: Event)
    requires Timed(h) && StateAt(h) == SoftBail == e.before
    ensures WaitedFor(h + [e], |h|) <==>
      e.round.success && TimerAt(h).Some? && e.at > TimerAt(h).value + UNBAIL_AFTER
  {
    hide TimerAt, Since;
    var h' := h + [e];
    if WaitedFor(h', |h|) {
      var k :| 0 <= k < |h| && Since(h', k, |h|) && h'[|h|].at > h'[k].at + UNBAIL_AFTER;
      SinceBefore(h, e, k);
      assert h'[k] == h[k];
    }
    if e.round.success && TimerAt(h).Some? && e.at > TimerAt(h).value + UNBAIL_AFTER {
      var k :| 0 <= k < |h| && h[k].at == TimerAt(h).value && Since(h, k, |h| - 1);
      SinceGoesOn(h, e, k);
      assert h'[|h|].at > h'[k].at + UNBAIL_AFTER;
    }
  }

  lemma SinceGoesOn(h: seq<Event>, e: Event, k: nat)
    requires k < |h| && Since(h, k, |h| - 1) && e.round.success && e.before == SoftBail
    ensures Since(h + [e], k, |h|)
  {
    assert forall j | k <= j < |h| :: (h + [e])[j] == h[j];
  }

  lemma WaitedInLonger(h: seq<Event>, i: nat)
    requires i < |h|
    ensures WaitedFor(h[..i] + [h[i]], i) <==> WaitedFor(h, i)
  {
    var short := h[..i] + [h[i]];
    assert forall j | 0 <= j <= i :: short[j] == h[j];
    if WaitedFor(short, i) {
      var k :| 0 <= k < i && Since(short, k, i) && short[i].at > short[k].at + UNBAIL_AFTER;
      assert Since(h, k, i);
    }
    if WaitedFor(h, i) {
      var k :| 0 <= k < i && Since(h, k, i) && h[i].at > h[k].at + UNBAIL_AFTER;
      assert Since(short, k, i);
    }
  }

  // So it does in particular if no command to begin comes in a round that the reply leaves bailed.
  predicate NoBeginWhileBailed(h: seq<Event>) {
    forall i | 0 <= i < |h| && Begin in h[i].round.commands :: !Bailed(JudgedNext(h[..i], h[i]).0)
  }

  lemma {:induction false} NoBeginIsHarmless(h: seq<Event>)
    requires IsRun(h) && NoBeginWhileBailed(h)
    ensures AllHarmless(h)
  {
    if h != [] {
      var before, e := h[..|h| - 1], h[|h| - 1];
      assert forall i | 0 <= i < |before| :: before[..i] == h[..i];
      NoBeginIsHarmless(before);
      TimerMeansBail(before);
      assert Harmless(before, e);
    }
  }

  // ----- Commands to begin that do harm -----

  predicate Quiet(more: seq<Event>) {
    forall i | 0 <= i < |more| :: more[i].round.commands == []
  }

  // How a run goes on in which the machine runs with a timer left over: with an invalid packet, at
  // which it does not bail if the timer has run out, and else bails until a complete packet comes
  // when it has.
  function WithOldTimer(h: seq<Event>, r: Round): seq<Event>
    requires TimerAt(h).Some?
  {
    var t, now := TimerAt(h).value, TimeAt(h);
    var invalid, complete := r.(success := true, valid := false, commands := []), r.(success := true, commands := []);
    if now > t + UNBAIL_AFTER then [Event(Running, SAFE, now, invalid, Running)]
    else
      [Event(Running, SAFE, if now <= t then t + 1 else now, invalid, SoftBail),
       Event(SoftBail, SAFE, t + UNBAIL_AFTER + 1, complete, Running)]
  }

  lemma OldTimerBreaks(h: seq<Event>, r: Round)
    requires IsRun(h) && StateAt(h) == Running && TimerAt(h).Some?
    ensures IsRun(h + WithOldTimer(h, r)) && Quiet(WithOldTimer(h, r))
    ensures !SoftBailHolds(h + WithOldTimer(h, r))
  {
    var more := WithOldTimer(h, r);
    var h1 := h + [more[0]];
    SafeValidates();
    RunGoesOn(h, more[0]);
    if |more| == 1 {
      assert more == [more[0]];
      assert !BailKept(h1, |h|);
    } else {
      RunGoesOn(h1, more[1]);
      var h2 := h1 + [more[1]];
      assert h + more == h2 && h2[|h|] == more[0] && h2[|h| + 1] == more[1];
      var last := |h| + 1;
      assert h2[|h|].before == Running;
      assert forall k | 0 <= k < last && Since(h2, k, last) :: k == |h|;
      assert !BailKept(h2, last);
    }
  }

  // The rounds that show what harm a command to begin in round e has done.
  function Aftermath(h: seq<Event>, e: Event): seq<Event> {
    if TimerAt(h + [e]).Some? then WithOldTimer(h + [e], e.round) else []
  }

  // A command to begin that is not harmless breaks the guarantee, at once or in rounds that bring
  // no command any more.
  lemma BeginBreaks(h: seq<Event>, e: Event)
    requires IsRun(h) && AllHarmless(h) && Continues(h, e) && !Harmless(h, e)
    ensures Quiet(Aftermath(h, e)) && IsRun(h + [e] + Aftermath(h, e))
    ensures !SoftBailHolds(h + [e] + Aftermath(h, e))
  {
    hide IsRun;
    RunGoesOn(h, e);
    if TimerAt(h + [e]).Some? {
      OldTimerBreaks(h + [e], e.round);
    } else {
      TimerMeansBail(h);
      var h' := h + [e];
      forall k | 0 <= k < |h|
        ensures !Since(h', k, |h|)
      {
        if Since(h', k, |h|) { SinceBefore(h, e, k); }
      }
      assert !BailKept(h', |h|);
      assert h' + Aftermath(h, e) == h';
    }
  }

  // Exactly the runs with harmless commands to begin only keep the guarantee at every moment, come
  // what replies may.
  lemma KeptExactlyIfHarmless(h: seq<Event>)
    requires IsRun(h)
    ensures AllHarmless(h) <==>
      forall n, more | 0 <= n <= |h| && Quiet(more) && IsRun(h[..n] + more) :: SoftBailHolds(h[..n] + more)
  {
    hide IsRun, SoftBailHolds, Harmless;
    if AllHarmless(h) {
      forall n, more | 0 <= n <= |h| && Quiet(more) && IsRun(h[..n] + more)
        ensures SoftBailHolds(h[..n] + more)
      {
        QuietIsHarmless(h, n, more);
        SoftBailsWait(h[..n] + more);
      }
    } else {
      var i := FirstHarm(h);
      PrefixIsRun(h, i);
      BeginBreaks(h[..i], h[i]);
      var more := Aftermath(h[..i], h[i]);
      assert h[..i + 1] == h[..i] + [h[i]];
      assert !SoftBailHolds(h[..i + 1] + more);
    }
  }

  lemma QuietIsHarmless(h: seq<Event>, n: nat, more: seq<Event>)
    requires n <= |h| && AllHarmless(h) && Quiet(more)
    ensures AllHarmless(h[..n] + more)
  {
    var h' := h[..n] + more;
    forall i | 0 <= i < |h'|
      ensures Harmless(h'[..i], h'[i])
    {
      if i < n {
        assert h'[..i] == h[..i] && h'[i] == h[i];
      } else {
        assert h'[i] == more[i - n];
      }
    }
  }

  lemma FirstHarm(h: seq<Event>) returns (i: nat)
    requires !AllHarmless(h)
    ensures i < |h| && AllHarmless(h[..i]) && !Harmless(h[..i], h[i])
  {
    hide Harmless;
    i := 0;
    while Harmless(h[..i], h[i])
      invariant i < |h| && forall j | 0 <= j < i :: Harmless(h[..j], h[j])
      decreases |h| - i
    {
      if i + 1 == |h| { assert false; }
      i := i + 1;
    }
    assert forall j | 0 <= j < i :: h[..i][..j] == h[..j] && h[..i][j] == h[j];
  }

  // There are such runs whose commands to begin all come in rounds that begin before the start or
  // while the machine runs: with an invalid packet in the same round the timer is left over. Then a
  // soft bail lasts for a microsecond ...
  function ShortBail(r: Round): seq<Event> {
    var invalid := r.(success := true, valid := false, commands := []);
    [Event(NotStartedYet, SAFE, 0, r.(commands := [Begin]), Running),
     Event(Running, SAFE, 0, invalid.(commands := [Begin]), Running),
     Event(Running, SAFE, 2_000_000, invalid, SoftBail),
     Event(SoftBail, SAFE, 2_000_001, r.(success := true, commands := []), Running)]
  }

  // ... or an invalid packet does not make the machine bail.
  function NoBail(r: Round): seq<Event> {
    ShortBail(r)[..2] + [Event(Running, SAFE, 2_000_001, r.(success := true, valid := false, commands := []), Running)]
  }

  lemma BeginAfterInvalid(r: Round)
    ensures IsRun(ShortBail(r)) && !SoftBailHolds(ShortBail(r))
    ensures IsRun(NoBail(r)) && !SoftBailHolds(NoBail(r))
  {
    SafeValidates();
    var h := ShortBail(r);
    assert [Begin][..0] == [];
    RunGoesOn([], h[0]);
    assert [] + [h[0]] == [h[0]];
    RunGoesOn([h[0]], h[1]);
    var h2 := [h[0]] + [h[1]];
    RunGoesOn(h2, h[2]);
    RunGoesOn(h2 + [h[2]], h[3]);
    assert h == h2 + [h[2]] + [h[3]];
    assert forall k | 0 <= k < 3 && Since(h, k, 3) :: k == 2 by {
      assert h[2].before == Running;
    }
    assert !BailKept(h, 3);
    var e := NoBail(r)[2];
    RunGoesOn(h2, e);
    assert NoBail(r) == h2 + [e];
    assert !BailKept(h2 + [e], 2);
  }

  // In a hard bail a command to begin does harm if the timer was set before.
  function LateBegin(r: Round): seq<Event> {
    var invalid := r.(success := true, valid := false, commands := [ForceHardBail]);
    [Event(NotStartedYet, SAFE, 0, r.(commands := [Begin]), Running),
     Event(Running, SAFE, 0, invalid, HardBail),
     Event(HardBail, SAFE, 0, invalid.(commands := [Begin]), Running)]
  }

  lemma LateBeginBreaks(r: Round)
    ensures var h := LateBegin(r) + WithOldTimer(LateBegin(r), r); IsRun(h) && !SoftBailHolds(h)
  {
    var h := LateBegin(r);
    SafeValidates();
    assert [Begin][..0] == [] && [ForceHardBail][..0] == [];
    RunGoesOn([], h[0]);
    assert [] + [h[0]] == [h[0]];
    RunGoesOn([h[0]], h[1]);
    RunGoesOn([h[0]] + [h[1]], h[2]);
    assert h == [h[0]] + [h[1]] + [h[2]];
    OldTimerBreaks(h, r);
  }

  lemma SafeValidates()
    ensures Validates(SAFE) && Allowed(ToParsed(SAFE))
  {
  }

  // ----- The controller -----

  class SystemController {
    const brewBoiler: HybridController
    const serviceBoiler: HysteresisController
    var state: State
    var bailReason: BailReason
    var bailCounter: nat
    var unbailTimer: Option<nat>
    var brewStartedAt: Option<nat>
    var current: Parsed                 // the next packet to send
    var brewSwitch: bool                // of the last packet made use of
    var queue: seq<Ssr>                 // ssrStateQueue, of capacity 25
    var ecoMode: bool
    var flowMode: FlowMode
    var clock: nat
    ghost var history: seq<Event>

    ghost predicate Valid()
      reads this
    {
      && |queue| <= SLOTS && Allowed(current) && brewBoiler.hysteresis != serviceBoiler
      && bailReason != LccPacketInvalid && bailReason != SsrQueueEmpty
    }

    ghost predicate Kept()
      reads this
    {
      IsRun(history) && state == StateAt(history) && unbailTimer == TimerAt(history) && TimeAt(history) <= clock
    }

    constructor (settings: PidSettings)
      ensures Valid() && Kept() && state == NotStartedYet && history == []
      ensures fresh(brewBoiler) && fresh(brewBoiler.pid) && fresh(brewBoiler.hysteresis) && fresh(serviceBoiler)
    {
      brewBoiler := new HybridController(20.0, 20.0, settings, 2.0);
      serviceBoiler := new HysteresisController(20.0, 0.5);
      state, bailReason, bailCounter := NotStartedYet, NoReason, 0;
      unbailTimer, brewStartedAt := None, None;
      current, brewSwitch := NOTHING, false;
      queue, ecoMode, flowMode, clock := [], false, PumpOnSolenoidOpen, 0;
      history := [];
    }

    // get_absolute_time
    method Now() returns (t: nat)
      modifies this`clock
      ensures t == clock >= old(clock)
    {
      t := *;
      if t < clock { t := clock; }
      clock := t;
    }

    method DoSoftBail(reason: BailReason)
      modifies this`state, this`bailReason, this`bailCounter
      ensures state == if old(state) == HardBail then HardBail else SoftBail
      ensures bailReason == if old(bailReason) == NoReason then reason else old(bailReason)
    {
      if !Bailed(state) { bailCounter := (bailCounter + 1) % 0x1_0000; }
      if state != HardBail { state := SoftBail; }
      if bailReason == NoReason { bailReason := reason; }
    }

    method DoHardBail(reason: BailReason)
      modifies this`state, this`bailReason, this`bailCounter
      ensures state == HardBail && bailReason == reason
    {
      if !Bailed(state) { bailCounter := (bailCounter + 1) % 0x1_0000; }
      state, bailReason := HardBail, reason;
    }

    method DoUnbail()
      modifies this`state, this`bailReason, this`unbailTimer
      ensures state == Running && bailReason == NoReason && unbailTimer == None
    {
      state, bailReason, unbailTimer := Running, NoReason, None;
    }

    // ----- The slots -----

    method TryAdd(s: Ssr)
      modifies this`queue
      ensures queue == if |old(queue)| < SLOTS then old(queue) + [s] else old(queue)
    {
      if |queue| < SLOTS { queue := queue + [s]; }
    }

    method AddSlots(s: Ssr, n: nat)
      requires |queue| + n <= SLOTS
      modifies this`queue
      ensures queue == old(queue) + Times(s, n)
    {
      ghost var before := queue;
      var i := 0;
      while i < n
        invariant 0 <= i <= n && queue == before + Times(s, i)
      {
        TryAdd(s);
        i := i + 1;
      }
    }

    // How long the brew has lasted decides on what the brew boiler gets on top.
    function FeedForward(brewing: bool): real
      reads this`brewStartedAt, this`clock
    {
      if brewing && brewStartedAt.Some? then FeedForwardAfter(clock - brewStartedAt.value) else 0.0
    }

    // What the controllers ask for as of the last temperatures.
    function WantedBrew(s: Sensed, brewing: bool, forceHysteresis: bool): int
      reads this`brewStartedAt, this`clock, brewBoiler, brewBoiler.pid, brewBoiler.hysteresis
    {
      brewBoiler.Wanted(s.brewTemp, FeedForward(brewing), forceHysteresis)
    }

    function WantedService(): nat
      reads this`ecoMode, serviceBoiler
    {
      if ecoMode then 0 else serviceBoiler.Wanted()
    }

    // The controllers, in the states given before, have seen the temperatures if they were to.
    ghost predicate Followed(brew: HybridState, service: bool, s: Sensed, dT: real, seen: bool)
      requires dT > 0.0
      reads brewBoiler, brewBoiler.pid, brewBoiler.hysteresis, serviceBoiler
    {
      && brewBoiler.State() == (if seen then brewBoiler.Next(brew, s.brewTemp, dT) else brew)
      && serviceBoiler.ascending == if seen then serviceBoiler.IsOnAt(service, s.serviceTemp) else service
    }

    // What a boiler wants that is below, or above, both its bounds.
    static predicate AtBounds(lower: real, upper: real, temp: real, wanted: int, eco: bool) {
      lower < upper ==> (temp <= lower && !eco ==> wanted == SLOTS) && (temp >= upper || eco ==> wanted == 0)
    }

    // Every refill makes exactly 25 slots and gives each boiler its share of them; no boiler gets
    // more than it asks for.
    method Refill(s: Sensed, brewing: bool, forceHysteresis: bool, dT: real)
      requires queue == [] && dT > 0.0 && brewBoiler.hysteresis != serviceBoiler
      modifies this`queue, this`clock, brewBoiler.pid`integral, brewBoiler.pid`pidSignal, brewBoiler.pid`preError,
        brewBoiler.hysteresis`ascending, serviceBoiler`ascending
      ensures clock >= old(clock)
      ensures Followed(old(brewBoiler.State()), old(serviceBoiler.ascending), s, dT, true)
      ensures var bb, sb := WantedBrew(s, brewing, forceHysteresis), WantedService();
        && 0 <= bb <= SLOTS && sb <= SLOTS && |queue| == SLOTS && queue == Schedule(bb, sb, brewing)
        && Count(queue, BrewBoilerOn) == BrewShare(bb, sb, brewing) <= bb
        && Count(queue, ServiceBoilerOn) == ServiceShare(bb, sb, brewing) <= sb
      // a boiler that is cold is to be heated all the time, and one that is hot not at all
      ensures AtBounds(serviceBoiler.lowerBound, serviceBoiler.upperBound, s.serviceTemp, WantedService(), ecoMode)
      ensures forceHysteresis ==>
        AtBounds(brewBoiler.hysteresis.lowerBound, brewBoiler.hysteresis.upperBound, s.brewTemp,
             WantedBrew(s, brewing, forceHysteresis), false)
    {
      hide Schedule, BrewShare, ServiceShare, Count, FeedForward, Followed, AtBounds;
      var bb, sb := AskControllers(s, brewing, forceHysteresis, dT);
      SharesFit(bb, sb, brewing);
      ScheduleCounts(bb, sb, brewing);
      ShareOut(bb, sb, brewing);
    }

    // The signals of the controllers.
    method AskControllers(s: Sensed, brewing: bool, forceHysteresis: bool, dT: real) returns (bb: nat, sb: nat)
      requires dT > 0.0 && brewBoiler.hysteresis != serviceBoiler
      modifies this`clock, brewBoiler.pid`integral, brewBoiler.pid`pidSignal, brewBoiler.pid`preError,
        brewBoiler.hysteresis`ascending, serviceBoiler`ascending
      ensures clock >= old(clock)
      ensures Followed(old(brewBoiler.State()), old(serviceBoiler.ascending), s, dT, true)
      ensures bb == WantedBrew(s, brewing, forceHysteresis) <= SLOTS
      ensures sb == WantedService() && (sb == 0 || sb == SLOTS)
      ensures AtBounds(serviceBoiler.lowerBound, serviceBoiler.upperBound, s.serviceTemp, sb, ecoMode)
      ensures forceHysteresis ==>
        AtBounds(brewBoiler.hysteresis.lowerBound, brewBoiler.hysteresis.upperBound, s.brewTemp, bb, false)
    {
      hide PidStep, PidSlots;
      var feedForward := 0.0;
      if brewStartedAt.Some? {
        var now := Now();
        feedForward := -0.00025 * ((now - brewStartedAt.value) as real / 1000.0) + 5.0;
      }
      bb := brewBoiler.GetControlSignal(s.brewTemp, if brewing then feedForward else 0.0, forceHysteresis, dT);
      sb := serviceBoiler.GetControlSignal(s.serviceTemp);
      if ecoMode { sb := 0; }
    }

    // Power sharing.
    method ShareOut(wantedBb: nat, wantedSb: nat, brewing: bool)
      requires queue == [] && wantedBb <= SLOTS && wantedSb <= SLOTS
      modifies this`queue
      ensures queue == Schedule(wantedBb, wantedSb, brewing)
    {
      SharesFit(wantedBb, wantedSb, brewing);
      ScheduleCounts(wantedBb, wantedSb, brewing);
      var bb, sb := wantedBb, wantedSb;
      if bb + sb > SLOTS {
        if !brewing { bb := (bb as real * 0.75).Floor; }
        sb := SLOTS - bb;
      }
      var rest := SLOTS - bb - sb;
      AddSlots(BrewBoilerOn, bb);
      AddSlots(ServiceBoilerOn, sb);
      AddSlots(BothOff, rest);
    }

    // The water part of handleControlBoardPacket.
    method HandleWater(s: Sensed) returns (lcc: Parsed, brewing: bool)
      modifies this`brewStartedAt, this`clock
      ensures lcc == Water(old(brewStartedAt).Some?, brewSwitch, s, flowMode)
      ensures brewing == Brews(old(brewStartedAt).Some?, brewSwitch, s) == brewStartedAt.Some?
      ensures brewing <==> brewSwitch && (old(brewStartedAt).Some? || !s.waterTankEmpty)
      ensures brewing ==>
        match flowMode
        case PumpOnSolenoidOpen => lcc.pumpOn && lcc.waterLineSolenoidOpen
        case PumpOnSolenoidClosed => lcc.pumpOn && !lcc.waterLineSolenoidOpen
        case PumpOffSolenoidOpen => !lcc.pumpOn && lcc.waterLineSolenoidOpen
        case PumpOffSolenoidClosed => !lcc.pumpOn && !lcc.waterLineSolenoidOpen
      // without one the service boiler is filled when it is low and there is water
      ensures !brewing && old(brewStartedAt).None? && !s.waterTankEmpty && s.serviceBoilerLow ==>
        lcc.serviceBoilerSolenoidOpen && lcc.pumpOn && lcc.waterLineSolenoidOpen
      ensures brewing && old(brewStartedAt).Some? ==> brewStartedAt == old(brewStartedAt)
      ensures brewing && old(brewStartedAt).None? ==> brewStartedAt == Some(clock)
      // while brewing the service boiler is not filled, an empty tank allows no filling, and no water
      // flows without a brew or this
      ensures lcc.serviceBoilerSolenoidOpen ==>
        lcc.pumpOn && !brewing && !s.waterTankEmpty && s.serviceBoilerLow && old(brewStartedAt).None?
      ensures lcc.pumpOn || lcc.waterLineSolenoidOpen ==> brewing || lcc.serviceBoilerSolenoidOpen
      ensures clock >= old(clock)
    {
      lcc, brewing := NOTHING, false;
      if brewStartedAt.None? {
        if !s.waterTankEmpty {
          if brewSwitch {
            lcc := ForFlowMode(lcc, flowMode);
            brewing := true;
            var now := Now();
            brewStartedAt := Some(now);
          } else if s.serviceBoilerLow {
            lcc := lcc.(pumpOn := true, waterLineSolenoidOpen := true, serviceBoilerSolenoidOpen := true);
          }
        }
      } else if brewSwitch {
        lcc := ForFlowMode(lcc, flowMode);
        brewing := true;
      } else {
        brewStartedAt := None;
      }
    }

    // The slots of which the next one is taken: those left over or, when none are, those of a refill.
    function Slots(left: seq<Ssr>, s: Sensed, forceHysteresis: bool): seq<Ssr>
      reads this`brewStartedAt, this`clock, this`ecoMode
      reads brewBoiler, brewBoiler.pid, brewBoiler.hysteresis, serviceBoiler
    {
      if left != [] then left
      else
        var brewing := brewStartedAt.Some?;
        Schedule(WantedBrew(s, brewing, forceHysteresis), WantedService(), brewing)
    }

    // The slots part of handleControlBoardPacket.
    method TakeSlot(s: Sensed, brewing: bool, forceHysteresis: bool, dT: real) returns (slot: Ssr)
      requires |queue| <= SLOTS && dT > 0.0 && brewBoiler.hysteresis != serviceBoiler
      requires brewing == brewStartedAt.Some?
      modifies this`queue, this`clock, brewBoiler.pid`integral, brewBoiler.pid`pidSignal, brewBoiler.pid`preError,
        brewBoiler.hysteresis`ascending, serviceBoiler`ascending
      ensures clock >= old(clock) && |queue| < SLOTS
      ensures Followed(old(brewBoiler.State()), old(serviceBoiler.ascending), s, dT, old(queue) == [])
      ensures [slot] + queue == Slots(old(queue), s, forceHysteresis)
    {
      hide Schedule, BrewShare, ServiceShare, Count, FeedForward, PidStep, PidSlots;
      if queue == [] { Refill(s, brewing, forceHysteresis, dT); }
      assert queue == Slots(old(queue), s, forceHysteresis);
      // tryRemove does not fail here: the bail-out for an empty queue is out of reach
      if queue == [] { assert false; return; }
      slot := queue[0];
      queue := queue[1..];
    }

    // handleControlBoardPacket
    method HandleControlBoardPacket(s: Sensed, forceHysteresis: bool, dT: real) returns (lcc: Parsed)
      requires |queue| <= SLOTS && dT > 0.0 && brewBoiler.hysteresis != serviceBoiler
      modifies this`queue, this`brewStartedAt, this`clock, brewBoiler.pid`integral, brewBoiler.pid`pidSignal,
        brewBoiler.pid`preError, brewBoiler.hysteresis`ascending, serviceBoiler`ascending
      ensures Allowed(lcc) && clock >= old(clock) && |queue| < SLOTS
      ensures brewStartedAt.Some? == Brews(old(brewStartedAt).Some?, brewSwitch, s)
      ensures Followed(old(brewBoiler.State()), old(serviceBoiler.ascending), s, dT, old(queue) == [])
      ensures var slots := Slots(old(queue), s, forceHysteresis);
        && slots != [] && queue == slots[1..]
        && lcc == WithHeater(Water(old(brewStartedAt).Some?, brewSwitch, s, flowMode), slots[0])
    {
      hide Schedule, FeedForward, Brews, Water, PidStep, PidSlots, Slots, Allowed;
      ghost var wasBrewing := brewStartedAt.Some?;
      var brewing;
      lcc, brewing := HandleWater(s);
      var slot := TakeSlot(s, brewing, forceHysteresis, dT);
      WaterAllowed(wasBrewing, brewSwitch, s, flowMode, slot);
      if slot == BrewBoilerOn {
        lcc := lcc.(brewBoilerSsrOn := true);
      } else if slot == ServiceBoilerOn {
        lcc := lcc.(serviceBoilerSsrOn := true);
      }
    }

    // ----- The loop -----

    // Both controllers have these settings.
    ghost predicate AreSet(settings: Settings)
      reads brewBoiler, brewBoiler.pid`settings, brewBoiler.pid`setPoint
      reads brewBoiler.hysteresis`lowerBound, brewBoiler.hysteresis`upperBound
      reads serviceBoiler`lowerBound, serviceBoiler`upperBound
    {
      brewBoiler.IsSet(settings.pid, settings.brewSetPoint) && serviceBoiler.IsSet(settings.serviceSetPoint)
    }

    method HandleCommand(c: Command)
      modifies this`state, this`bailReason, this`bailCounter, this`unbailTimer, this`ecoMode, this`flowMode
      ensures state == AfterCommand(old(state), c)
      ensures unbailTimer == if c == Unbail then None else old(unbailTimer)
      ensures ecoMode == if c.SetEcoMode? then c.on else old(ecoMode)
      ensures flowMode == if c.SetFlowMode? then c.mode else old(flowMode)
      ensures bailReason == old(bailReason) || bailReason == NoReason || bailReason == Forced
    {
      match c {
        case Begin => state := Running;
        case Unbail => DoUnbail();
        case ForceHardBail => DoHardBail(Forced);
        case SetEcoMode(on) => ecoMode := on;
        case SetFlowMode(mode) => flowMode := mode;
        case Other =>
      }
    }

    // The commands in their order, and then updateControllerSettings.
    method HandleCommands(commands: seq<Command>, settings: Settings)
      requires brewBoiler.hysteresis != serviceBoiler
      modifies this`state, this`bailReason, this`bailCounter, this`unbailTimer, this`ecoMode, this`flowMode
      modifies brewBoiler`lowerPidBound, brewBoiler`upperPidBound, brewBoiler.pid`settings, brewBoiler.pid`setPoint
      modifies brewBoiler.hysteresis`lowerBound, brewBoiler.hysteresis`upperBound
      modifies serviceBoiler`lowerBound, serviceBoiler`upperBound
      ensures AreSet(settings)
      ensures brewBoiler.pid.settings == settings.pid && brewBoiler.pid.setPoint == settings.brewSetPoint
      ensures brewBoiler.hysteresis.lowerBound + brewBoiler.hysteresis.delta == settings.brewSetPoint
      ensures serviceBoiler.lowerBound + serviceBoiler.delta == settings.serviceSetPoint
      ensures ecoMode == EcoAfter(old(ecoMode), commands) && flowMode == FlowAfter(old(flowMode), commands)
      ensures state == AfterCommands(old(state), commands)
      ensures unbailTimer == if Unbail in commands then None else old(unbailTimer)
      ensures bailReason == old(bailReason) || bailReason == NoReason || bailReason == Forced
      ensures forall k | LastDecision(commands, k) ::
                state == if commands[k] == ForceHardBail then HardBail else Running
      ensures (forall k | 0 <= k < |commands| :: !Decides(commands[k])) ==> state == old(state)
    {
      hide AreSet, AfterCommand, LastDecision, Decides;
      var i := 0;
      while i < |commands|
        invariant 0 <= i <= |commands| && state == AfterCommands(old(state), commands[..i])
        invariant ecoMode == EcoAfter(old(ecoMode), commands[..i])
        invariant flowMode == FlowAfter(old(flowMode), commands[..i])
        invariant unbailTimer == if Unbail in commands[..i] then None else old(unbailTimer)
        invariant bailReason == old(bailReason) || bailReason == NoReason || bailReason == Forced
      {
        assert commands[..i + 1][..i] == commands[..i] && commands[..i + 1] == commands[..i] + [commands[i]];
        HandleCommand(commands[i]);
        i := i + 1;
      }
      assert commands[..i] == commands;
      UpdateControllerSettings(settings);
      Obeyed(old(state), commands);
    }

    method UpdateControllerSettings(settings: Settings)
      requires brewBoiler.hysteresis != serviceBoiler
      modifies brewBoiler`lowerPidBound, brewBoiler`upperPidBound, brewBoiler.pid`settings, brewBoiler.pid`setPoint
      modifies brewBoiler.hysteresis`lowerBound, brewBoiler.hysteresis`upperBound
      modifies serviceBoiler`lowerBound, serviceBoiler`upperBound
      ensures AreSet(settings)
      ensures brewBoiler.pid.settings == settings.pid && brewBoiler.pid.setPoint == settings.brewSetPoint
      ensures brewBoiler.hysteresis.lowerBound + brewBoiler.hysteresis.delta == settings.brewSetPoint
      ensures serviceBoiler.lowerBound + serviceBoiler.delta == settings.serviceSetPoint
    {
      brewBoiler.SetPidParameters(settings.pid);
      brewBoiler.UpdateSetPoint(settings.brewSetPoint);
      serviceBoiler.UpdateSetPoint(settings.serviceSetPoint);
    }

    // sendLccPacket: what goes out.
    method SendLccPacket() returns (sent: Raw)
      requires Valid()
      ensures sent == if state == Running then ToRaw(current) else SAFE
      ensures Validates(sent) && (state == Running ==> Carries(sent, current))
    {
      ValidatesAllowed(current);
      SwitchBits(current);
      var raw := ToRaw(current);
      // the packet is always valid: the bail-out for an invalid one is out of reach
      if !Validates(raw) { assert false; }
      if Bailed(state) || state == NotStartedYet { sent := SAFE; } else { sent := raw; }
    }

    // The reply, or its absence, judged.
    method Judge(r: Round) returns (ghost at: nat)
      requires Valid() && state != NotStartedYet
      modifies this`state, this`bailReason, this`bailCounter, this`unbailTimer, this`brewSwitch, this`clock
      ensures Valid() && at == clock >= old(clock)
      ensures (state, unbailTimer) == Judged(old(state), old(unbailTimer), r, at)
      // only a good packet is made use of
      ensures brewSwitch == if old(state) == Running && r.success && r.valid then r.brewSwitch else old(brewSwitch)
    {
      if !r.success { DoSoftBail(CbUnresponsive); }
      if !r.valid { DoSoftBail(CbPacketInvalid); }
      if Bailed(state) {
        if state == SoftBail {
          if !r.success {
            unbailTimer := None;
          } else if unbailTimer.None? {
            var now := Now();
            unbailTimer := Some(now);
          } else {
            var now := Now();
            if now > unbailTimer.value + UNBAIL_AFTER { DoUnbail(); }
          }
        }
      } else if state == Running {
        brewSwitch := r.brewSwitch;
      }
      at := clock;
    }

    // loop
    method Loop(r: Round)
      requires Valid() && Kept() && r.dT > 0.0
      modifies this, brewBoiler, brewBoiler.pid, brewBoiler.hysteresis, serviceBoiler
      ensures Valid() && Kept()
      ensures |history| == |old(history)| + 1 && old(history) <= history
      ensures var e := history[|history| - 1];
        && e.before == old(state) && e.round == r && e.after == state
        && e.sent == if old(state) == Running then ToRaw(old(current)) else SAFE
      // only a good packet is made use of, and the commands are followed
      ensures brewSwitch == if old(state) == Running && r.success && r.valid then r.brewSwitch else old(brewSwitch)
      ensures AreSet(r.settings)
      ensures ecoMode == EcoAfter(old(ecoMode), r.commands) && flowMode == FlowAfter(old(flowMode), r.commands)
      // what is sent next: water as wanted and the heater of the next slot, or nothing at all while bailed
      ensures old(state) != NotStartedYet && Bailed(state) ==> current == ToParsed(SAFE)
      ensures old(state) == NotStartedYet ==> current == old(current)
      ensures old(state) == NotStartedYet || Bailed(state) ==>
        && queue == old(queue) && brewStartedAt == old(brewStartedAt)
        && Followed(old(brewBoiler.State()), old(serviceBoiler.ascending), r.sensed, r.dT, false)
      ensures old(state) != NotStartedYet && !Bailed(state) ==>
        && brewStartedAt.Some? == Brews(old(brewStartedAt).Some?, brewSwitch, r.sensed)
        && Followed(old(brewBoiler.State()), old(serviceBoiler.ascending), r.sensed, r.dT, old(queue) == [])
        && var slots := Slots(old(queue), r.sensed, r.forceHysteresis);
           slots != [] && queue == slots[1..]
           && current == WithHeater(Water(old(brewStartedAt).Some?, brewSwitch, r.sensed, flowMode), slots[0])
      // in the bits that go out: those of the packet, and in the next one those of the slot's heater
      ensures old(state) == Running ==> Carries(history[|history| - 1].sent, old(current))
      ensures old(state) != NotStartedYet && !Bailed(state) ==>
        var slots := Slots(old(queue), r.sensed, r.forceHysteresis);
        && slots != []
        && (ToRaw(current).shiftRegister1 & 0x08 != 0 <==> slots[0] == BrewBoilerOn)
        && (ToRaw(current).shiftRegister2 & 0x01 != 0 <==> slots[0] == ServiceBoilerOn)
      // the last command that decides is obeyed
      ensures forall k | LastDecision(r.commands, k) ::
                state == if r.commands[k] == ForceHardBail then HardBail else Running
    {
      hide IsRun, Continues, Judged, Validates, AfterCommands, TimerAt, Schedule, Slots, Water, Brews, Followed, ToRaw;
      SwitchBits(current);
      if state == NotStartedYet {
        WaitForStart(r);
      } else {
        OneRound(r);
      }
      SwitchBits(current);
      RunsObey(history);
    }

    // loop before the start
    method WaitForStart(r: Round)
      requires Valid() && Kept() && r.dT > 0.0 && state == NotStartedYet
      modifies this, brewBoiler, brewBoiler.pid, brewBoiler.hysteresis, serviceBoiler
      ensures Valid() && Kept() && history == old(history) + [Event(NotStartedYet, SAFE, clock, r, state)]
      ensures current == old(current) && queue == old(queue) && brewStartedAt == old(brewStartedAt)
      ensures brewSwitch == old(brewSwitch) && AreSet(r.settings)
      ensures ecoMode == EcoAfter(old(ecoMode), r.commands) && flowMode == FlowAfter(old(flowMode), r.commands)
      ensures Followed(old(brewBoiler.State()), old(serviceBoiler.ascending), r.sensed, r.dT, false)
    {
      hide IsRun, Continues, Validates, AfterCommands, TimerAt, StateAt, TimeAt, AreSet, EcoAfter, FlowAfter;
      hide Schedule, Allowed, PidStep;
      ghost var timer := unbailTimer;
      SafeValidates();
      HandleCommands(r.commands, r.settings);
      Record(Event(NotStartedYet, SAFE, clock, r, state), timer);
    }

    // loop after the start
    method OneRound(r: Round)
      requires Valid() && Kept() && r.dT > 0.0 && state != NotStartedYet
      modifies this, brewBoiler, brewBoiler.pid, brewBoiler.hysteresis, serviceBoiler
      ensures Valid() && Kept()
      ensures |history| == |old(history)| + 1 && old(history) <= history
      ensures var e := history[|history| - 1];
        && e.before == old(state) && e.round == r && e.after == state
        && e.sent == if old(state) == Running then ToRaw(old(current)) else SAFE
      ensures brewSwitch == if old(state) == Running && r.success && r.valid then r.brewSwitch else old(brewSwitch)
      ensures AreSet(r.settings)
      ensures ecoMode == EcoAfter(old(ecoMode), r.commands) && flowMode == FlowAfter(old(flowMode), r.commands)
      ensures Bailed(state) ==>
        && current == ToParsed(SAFE) && queue == old(queue) && brewStartedAt == old(brewStartedAt)
        && Followed(old(brewBoiler.State()), old(serviceBoiler.ascending), r.sensed, r.dT, false)
      ensures !Bailed(state) ==>
        && brewStartedAt.Some? == Brews(old(brewStartedAt).Some?, brewSwitch, r.sensed)
        && Followed(old(brewBoiler.State()), old(serviceBoiler.ascending), r.sensed, r.dT, old(queue) == [])
        && var slots := Slots(old(queue), r.sensed, r.forceHysteresis);
           slots != [] && queue == slots[1..]
           && current == WithHeater(Water(old(brewStartedAt).Some?, brewSwitch, r.sensed, flowMode), slots[0])
    {
      hide IsRun, Continues, Judged, Validates, AfterCommands, TimerAt, Schedule, Slots, Water, Brews;
      hide EcoAfter, FlowAfter, StateAt, TimeAt, Allowed, WithHeater, ToRaw, ToParsed, Followed, AreSet;
      ghost var timer := unbailTimer;
      ghost var e := Exchange(r);
      Prepare(r);
      Record(e, timer);
    }

    // A packet goes out, its reply is judged, and the commands are followed.
    method Exchange(r: Round) returns (ghost e: Event)
      requires Valid() && state != NotStartedYet
      modifies this`state, this`bailReason, this`bailCounter, this`unbailTimer, this`brewSwitch, this`clock,
        this`ecoMode, this`flowMode, brewBoiler`lowerPidBound, brewBoiler`upperPidBound,
        brewBoiler.pid`settings, brewBoiler.pid`setPoint, brewBoiler.hysteresis`lowerBound,
        brewBoiler.hysteresis`upperBound, serviceBoiler`lowerBound, serviceBoiler`upperBound
      ensures Valid() && Validates(e.sent) && old(clock) <= e.at <= clock
      ensures e.before == old(state) && e.round == r && e.after == state
      ensures e.sent == if old(state) == Running then ToRaw(current) else SAFE
      ensures brewSwitch == if old(state) == Running && r.success && r.valid then r.brewSwitch else old(brewSwitch)
      ensures AreSet(r.settings)
      ensures ecoMode == EcoAfter(old(ecoMode), r.commands) && flowMode == FlowAfter(old(flowMode), r.commands)
      ensures var judged := Judged(old(state), old(unbailTimer), r, e.at);
        && state == AfterCommands(judged.0, r.commands)
        && unbailTimer == if Unbail in r.commands then None else judged.1
    {
      hide Judged, Validates, AfterCommands, EcoAfter, FlowAfter, AreSet, ToRaw;
      ghost var before := state;
      var sent := SendLccPacket();
      ghost var at := Judge(r);
      HandleCommands(r.commands, r.settings);
      e := Event(before, sent, at, r, state);
    }

    // The next packet.
    method Prepare(r: Round)
      requires |queue| <= SLOTS && r.dT > 0.0 && brewBoiler.hysteresis != serviceBoiler
      modifies this`current, this`queue, this`brewStartedAt, this`clock, brewBoiler.pid`integral,
        brewBoiler.pid`pidSignal, brewBoiler.pid`preError, brewBoiler.hysteresis`ascending, serviceBoiler`ascending
      ensures |queue| <= SLOTS && Allowed(current) && clock >= old(clock)
      ensures Bailed(state) ==>
        && current == ToParsed(SAFE) && queue == old(queue) && brewStartedAt == old(brewStartedAt)
        && Followed(old(brewBoiler.State()), old(serviceBoiler.ascending), r.sensed, r.dT, false)
      ensures !Bailed(state) ==>
        && brewStartedAt.Some? == Brews(old(brewStartedAt).Some?, brewSwitch, r.sensed)
        && Followed(old(brewBoiler.State()), old(serviceBoiler.ascending), r.sensed, r.dT, old(queue) == [])
        && var slots := Slots(old(queue), r.sensed, r.forceHysteresis);
           slots != [] && queue == slots[1..]
           && current == WithHeater(Water(old(brewStartedAt).Some?, brewSwitch, r.sensed, flowMode), slots[0])
    {
      hide Slots, Water, Brews, PidStep;
      if !Bailed(state) {
        current := HandleControlBoardPacket(r.sensed, r.forceHysteresis, r.dT);
      } else {
        SafeValidates();
        current := ToParsed(SAFE);
      }
    }

    // The round goes on record.
    ghost method Record(e: Event, timer: Option<nat>)
      requires IsRun(history) && e.before == StateAt(history) && timer == TimerAt(history)
      requires TimeAt(history) <= e.at <= clock
      requires Validates(e.sent) && (e.before != Running ==> e.sent == SAFE)
      requires e.after == state == AfterCommands(Judged(e.before, timer, e.round, e.at).0, e.round.commands)
      requires unbailTimer == if Unbail in e.round.commands then None else Judged(e.before, timer, e.round, e.at).1
      modifies this`history
      ensures history == old(history) + [e] && Kept()
    {
      hide Judged, Validates, AfterCommands, IsRun, TimerAt;
      RunGoesOn(history, e);
      history := history + [e];
    }

    // Any run: its rounds are the given ones, one after the other, and the guarantees hold of it.
    method Run(rounds: seq<Round>)
      requires Valid() && Kept() && forall i | 0 <= i < |rounds| :: rounds[i].dT > 0.0
      modifies this, brewBoiler, brewBoiler.pid, brewBoiler.hysteresis, serviceBoiler
      ensures Valid() && |history| == |old(history)| + |rounds| && old(history) <= history
      ensures forall i | 0 <= i < |rounds| :: history[|old(history)| + i].round == rounds[i]
      ensures IsRun(history) && StateAt(history) == state && Chained(history)
      ensures OnlySafePackets(history) && HardBailHolds(history) && CommandsObeyed(history)
      ensures AllHarmless(history) ==> SoftBailHolds(history) && AllAnswered(history)
      ensures NoBeginWhileBailed(history) ==> AllHarmless(history)
      ensures bailReason != LccPacketInvalid && bailReason != SsrQueueEmpty
    {
      hide IsRun;
      var i := 0;
      while i < |rounds|
        invariant 0 <= i <= |rounds| && Valid() && Kept()
        invariant |history| == |old(history)| + i && old(history) <= history
        invariant forall k | 0 <= k < i :: history[|old(history)| + k].round == rounds[k]
      {
        Loop(rounds[i]);
        i := i + 1;
      }
      RunsAreSafe(history);
      if NoBeginWhileBailed(history) { NoBeginIsHarmless(history); }
      RunsObey(history);
      if AllHarmless(history) {
        SoftBailsWait(history);
        RepliesAnswered(history);
      }
    }
  }
}
