/** The event simulator's generator: it builds one `SensorState` per sensor and,
    on every tick, asks each sensor for at most one event. The random draws of
    `ThreadLocalRandom` are inputs (`Draws`); the probabilities they are
    compared against are left out, so "the draw succeeded" is a boolean. */
module EventGenerator {
  import opened Wrappers
  import opened Events

  /** Both counts of a configuration lie in [1, MAX_COUNT]. */
  const MAX_COUNT := 10_000

  datatype ConfigError = HamsterCountOutOfRange | SensorCountOutOfRange

  /** The two guards of `stream`, the hamster count checked first. */
  function ValidateConfig(hamsterCount: int, sensorCount: int): (r: Option<ConfigError>)
    ensures r.None? <==> 1 <= hamsterCount <= MAX_COUNT && 1 <= sensorCount <= MAX_COUNT
    ensures r == Some(HamsterCountOutOfRange) <==> !(1 <= hamsterCount <= MAX_COUNT)
    ensures r == Some(SensorCountOutOfRange) <==>
              1 <= hamsterCount <= MAX_COUNT && !(1 <= sensorCount <= MAX_COUNT)
  {
    if hamsterCount < 1 || hamsterCount > MAX_COUNT then Some(HamsterCountOutOfRange)
    else if sensorCount < 1 || sensorCount > MAX_COUNT then Some(SensorCountOutOfRange)
    else None
  }

  // ------------------------------------------------------------ identifiers

  predicate IsDigit(c: char) {
    '0' <= c <= '9'
  }

  function DigitChar(d: nat): (c: char)
    requires d < 10
    ensures IsDigit(c) && c as int - '0' as int == d
  {
    "0123456789"[d]
  }

  /** Java's decimal rendering of a non-negative `int` in string concatenation. */
  function Decimal(n: nat): (s: string)
    ensures |s| >= 1 && forall i :: 0 <= i < |s| ==> IsDigit(s[i])
    ensures |s| > 1 ==> s[0] != '0'
    decreases n
  {
    if n < 10 then [DigitChar(n)] else Decimal(n / 10) + [DigitChar(n % 10)]
  }

  /** Reads a string of decimal digits back as a number. */
  function ParseDecimal(s: string): nat
    requires forall i :: 0 <= i < |s| ==> IsDigit(s[i])
  {
    if s == [] then 0
    else
      assert IsDigit(s[|s| - 1]);
      ParseDecimal(s[..|s| - 1]) * 10 + (s[|s| - 1] as int - '0' as int)
  }

  lemma {:induction false} DecimalRoundTrip(n: nat)
    ensures ParseDecimal(Decimal(n)) == n
    decreases n
  {
    if n >= 10 {
      var s := Decimal(n);
      assert s[..|s| - 1] == Decimal(n / 10);
      DecimalRoundTrip(n / 10);
    }
  }

  lemma DecimalInjective(a: nat, b: nat)
    ensures Decimal(a) == Decimal(b) ==> a == b
  {
    DecimalRoundTrip(a);
    DecimalRoundTrip(b);
  }

  /** The hamster of sensor index `i`: `(i % hamsterCount) + 1`. */
  function HamsterNumber(i: nat, hamsterCount: nat): (h: nat)
    requires hamsterCount >= 1
    ensures 1 <= h <= hamsterCount
    ensures i < hamsterCount ==> h == i + 1
  {
    i % hamsterCount + 1
  }

  /** The three identifiers of one simulated sensor. */
  datatype SensorIds = SensorIds(sensorId: string, wheelId: string, hamsterId: string)

  /** The identifiers `stream` gives sensor index `i`. */
  function IdsAt(i: nat, hamsterCount: nat): SensorIds
    requires hamsterCount >= 1
  {
    SensorIds("sensor-" + Decimal(i + 1), "wheel-" + Decimal(i + 1),
              "hamster-" + Decimal(HamsterNumber(i, hamsterCount)))
  }

  /** `id` is `prefix` followed by the decimal digits of `n`. */
  predicate NumberedId(prefix: string, id: string, n: nat) {
    && |id| > |prefix| && id[..|prefix|] == prefix
    && (forall k :: |prefix| <= k < |id| ==> IsDigit(id[k]))
    && ParseDecimal(id[|prefix|..]) == n
  }

  lemma NumberedIdOf(prefix: string, n: nat)
    ensures NumberedId(prefix, prefix + Decimal(n), n)
  {
    var id := prefix + Decimal(n);
    assert id[|prefix|..] == Decimal(n);
    assert id[..|prefix|] == prefix;
    DecimalRoundTrip(n);
  }

  /** Sensor `i` and its wheel are numbered `i + 1`; its hamster's number is in
      `[1, hamsterCount]`. */
  lemma IdsAtNumbered(i: nat, hamsterCount: nat)
    requires hamsterCount >= 1
    ensures NumberedId("sensor-", IdsAt(i, hamsterCount).sensorId, i + 1)
    ensures NumberedId("wheel-", IdsAt(i, hamsterCount).wheelId, i + 1)
    ensures exists k :: 1 <= k <= hamsterCount && NumberedId("hamster-", IdsAt(i, hamsterCount).hamsterId, k)
  {
    NumberedIdOf("sensor-", i + 1);
    NumberedIdOf("wheel-", i + 1);
    NumberedIdOf("hamster-", HamsterNumber(i, hamsterCount));
  }

  lemma PrefixCancels(p: string, a: string, b: string)
    ensures p + a == p + b ==> a == b
  {
    if p + a == p + b {
      assert a == (p + a)[|p|..];
      assert b == (p + b)[|p|..];
    }
  }

  /** Different sensors get different sensor ids and different wheel ids. */
  lemma IdsAtDistinct(i: nat, j: nat, hamsterCount: nat)
    requires hamsterCount >= 1 && i != j
    ensures IdsAt(i, hamsterCount).sensorId != IdsAt(j, hamsterCount).sensorId
    ensures IdsAt(i, hamsterCount).wheelId != IdsAt(j, hamsterCount).wheelId
  {
    PrefixCancels("sensor-", Decimal(i + 1), Decimal(j + 1));
    PrefixCancels("wheel-", Decimal(i + 1), Decimal(j + 1));
    DecimalInjective(i + 1, j + 1);
  }

  /** Round-robin assignment: two sensors share a hamster exactly when their
      indices agree modulo the hamster count, and every hamster `hamster-k`
      with `k <= min(hamsterCount, sensorCount)` is assigned to sensor `k - 1`. */
  lemma RoundRobin(i: nat, j: nat, hamsterCount: nat)
    requires hamsterCount >= 1
    ensures (IdsAt(i, hamsterCount).hamsterId == IdsAt(j, hamsterCount).hamsterId)
              == (i % hamsterCount == j % hamsterCount)
    ensures 1 <= j + 1 <= hamsterCount ==> IdsAt(j, hamsterCount).hamsterId == "hamster-" + Decimal(j + 1)
  {
    PrefixCancels("hamster-", Decimal(HamsterNumber(i, hamsterCount)), Decimal(HamsterNumber(j, hamsterCount)));
    DecimalInjective(HamsterNumber(i, hamsterCount), HamsterNumber(j, hamsterCount));
  }

  // ------------------------------------------------------------ one sensor, one tick

  /** The mutable part of a `SensorState`. */
  datatype SensorFields = SensorFields(failed: bool, failureTicks: int, inWheel: bool, spinCooldown: int)

  const InitialFields := SensorFields(false, 0, false, 0)

  /** The random draws of one call of `maybeEventForSensor`. A draw the call
      does not reach is ignored. `failure` and `move` stand for
      `nextDouble() < p`; the integers are the raw results of `nextInt`. */
  datatype Draws = Draws(failure: bool, failureTicks: int, errorOffset: int, move: bool, spinDraw: int)

  /** What `nextInt(5, 20)`, `nextInt(0, 10)` and `nextInt(30)` can return. */
  predicate ValidDraws(d: Draws) {
    5 <= d.failureTicks < 20 && 0 <= d.errorOffset < 10 && 0 <= d.spinDraw < 30
  }

  /** The cooldown after a spin of `durationSec` seconds: `Math.max(1, durationSec / 2)`. */
  function Cooldown(durationSec: int): (c: int)
    ensures c >= 1 && c >= durationSec / 2
    ensures c == 1 || c == durationSec / 2
  {
    if durationSec / 2 > 1 then durationSec / 2 else 1
  }

  datatype StepOutcome = StepOutcome(next: SensorFields, event: Option<HamsterEvent>)

  predicate IsFailure(e: Option<HamsterEvent>) { e.Some? && e.value.SensorFailure? }
  predicate IsEnter(e: Option<HamsterEvent>) { e.Some? && e.value.HamsterEnter? }
  predicate IsExit(e: Option<HamsterEvent>) { e.Some? && e.value.HamsterExit? }
  predicate IsSpin(e: Option<HamsterEvent>) { e.Some? && e.value.WheelSpin? }

  /** `maybeEventForSensor` for a sensor with identifiers `ids` in state `f`. */
  function Step(ids: SensorIds, f: SensorFields, d: Draws): (o: StepOutcome)
    requires ValidDraws(d)
    // failure is permanent, and a failed sensor is silent and frozen
    ensures o.next.failed == (f.failed || d.failure)
    ensures f.failed ==> o == StepOutcome(f, None)
    // a failure is reported exactly when a working sensor breaks
    ensures IsFailure(o.event) <==> !f.failed && d.failure
    ensures IsFailure(o.event) ==>
              && o.event.value.sensorId == Some(ids.sensorId)
              && 500 <= o.event.value.errorCode < 510
              && 5 <= o.next.failureTicks < 20
    ensures IsFailure(o.event) ==>
              && o.event.value.errorCode == 500 + d.errorOffset
              && o.next == f.(failed := true, failureTicks := d.failureTicks)
    ensures !IsFailure(o.event) ==> o.next.failureTicks == f.failureTicks
    // while cooling down after a spin a working sensor only counts down
    ensures !f.failed && !d.failure && f.spinCooldown > 0 ==>
              o == StepOutcome(f.(spinCooldown := f.spinCooldown - 1), None)
    // occupancy changes exactly with an enter or an exit event
    ensures o.next.inWheel != f.inWheel <==> IsEnter(o.event) || IsExit(o.event)
    ensures IsEnter(o.event) ==>
              !f.inWheel && o.event.value == HamsterEnter(Some(ids.hamsterId), Some(ids.wheelId))
    ensures IsExit(o.event) ==>
              f.inWheel && o.event.value == HamsterExit(Some(ids.hamsterId), Some(ids.wheelId))
    // a spin needs the hamster inside and no cooldown, lasts 1 to 30 seconds,
    // and silences the sensor for half its seconds (at least one tick)
    ensures IsSpin(o.event) ==>
              && f.inWheel && f.spinCooldown <= 0
              && o.event.value.wheelId == Some(ids.wheelId)
              && 1000 <= o.event.value.durationMs <= 30_000 && o.event.value.durationMs % 1000 == 0
              && o.next.spinCooldown == Cooldown(o.event.value.durationMs / 1000)
    ensures IsSpin(o.event) ==> o.event.value.durationMs == (1 + d.spinDraw) * 1000
    ensures !IsSpin(o.event) && f.spinCooldown <= 0 ==> o.next.spinCooldown == f.spinCooldown
    // a working sensor without cooldown: the move draw chooses enter, exit or spin
    ensures !f.failed && !d.failure && f.spinCooldown <= 0 ==>
              && (IsEnter(o.event) <==> !f.inWheel && d.move)
              && (IsExit(o.event) <==> f.inWheel && d.move)
              && (IsSpin(o.event) <==> f.inWheel && !d.move)
              && (o.event.None? <==> !f.inWheel && !d.move)
    ensures f.spinCooldown >= 0 ==> o.next.spinCooldown >= 0
  {
    if !f.failed && d.failure then
      StepOutcome(f.(failed := true, failureTicks := d.failureTicks),
                  Some(SensorFailure(Some(ids.sensorId), 500 + d.errorOffset)))
    else if f.failed then
      StepOutcome(f, None)
    else if f.spinCooldown > 0 then
      StepOutcome(f.(spinCooldown := f.spinCooldown - 1), None)
    else if !f.inWheel then
      if d.move then StepOutcome(f.(inWheel := true), Some(HamsterEnter(Some(ids.hamsterId), Some(ids.wheelId))))
      else StepOutcome(f, None)
    else if d.move then
      StepOutcome(f.(inWheel := false), Some(HamsterExit(Some(ids.hamsterId), Some(ids.wheelId))))
    else
      var durationSec := 1 + d.spinDraw;
      StepOutcome(f.(spinCooldown := Cooldown(durationSec)), Some(WheelSpin(Some(ids.wheelId), durationSec * 1000)))
  }

  // ------------------------------------------------------------ one sensor, many ticks

  predicate AllValid(ds: seq<Draws>) {
    forall k :: 0 <= k < |ds| ==> ValidDraws(ds[k])
  }

  datatype RunOutcome = RunOutcome(last: SensorFields, events: seq<Option<HamsterEvent>>)

  /** A sensor asked for an event on each of `|ds|` consecutive ticks. */
  function Run(ids: SensorIds, f: SensorFields, ds: seq<Draws>): (r: RunOutcome)
    requires AllValid(ds)
    ensures |r.events| == |ds|
    decreases |ds|
  {
    if ds == [] then RunOutcome(f, [])
    else
      var o := Step(ids, f, ds[0]);
      var rest := Run(ids, o.next, ds[1..]);
      RunOutcome(rest.last, [o.event] + rest.events)
  }

  /** A sensor that has failed never emits again and never changes. */
  lemma {:induction false} FailedSensorStaysSilent(ids: SensorIds, f: SensorFields, ds: seq<Draws>)
    requires AllValid(ds) && f.failed
    ensures Run(ids, f, ds).last == f
    ensures forall k :: 0 <= k < |ds| ==> Run(ids, f, ds).events[k].None?
    decreases |ds|
  {
    if ds != [] {
      FailedSensorStaysSilent(ids, f, ds[1..]);
    }
  }

  function FailureCount(events: seq<Option<HamsterEvent>>): nat {
    if events == [] then 0 else (if IsFailure(events[0]) then 1 else 0) + FailureCount(events[1..])
  }

  /** A sensor reports at most one failure however long it runs, and none
      once it has failed. */
  lemma {:induction false} AtMostOneFailure(ids: SensorIds, f: SensorFields, ds: seq<Draws>)
    requires AllValid(ds)
    ensures FailureCount(Run(ids, f, ds).events) <= (if f.failed then 0 else 1)
    decreases |ds|
  {
    if ds != [] {
      var o := Step(ids, f, ds[0]);
      AtMostOneFailure(ids, o.next, ds[1..]);
      assert Run(ids, f, ds).events[1..] == Run(ids, o.next, ds[1..]).events;
    }
  }

  /** The events of one wheel agree with its occupancy `inWheel`: an enter only
      into an empty wheel, an exit and a spin only from an occupied one. */
  predicate ConsistentWith(inWheel: bool, events: seq<Option<HamsterEvent>>)
    decreases |events|
  {
    if events == [] then true
    else if IsEnter(events[0]) then !inWheel && ConsistentWith(true, events[1..])
    else if IsExit(events[0]) then inWheel && ConsistentWith(false, events[1..])
    else if IsSpin(events[0]) then inWheel && ConsistentWith(inWheel, events[1..])
    else ConsistentWith(inWheel, events[1..])
  }

  /** Every run produces enter/exit events that alternate, starting from the
      sensor's occupancy, with spins only in between an enter and an exit. */
  lemma {:induction false} RunIsConsistent(ids: SensorIds, f: SensorFields, ds: seq<Draws>)
    requires AllValid(ds)
    ensures ConsistentWith(f.inWheel, Run(ids, f, ds).events)
    ensures Run(ids, f, ds).last.inWheel == OccupancyAfter(f.inWheel, Run(ids, f, ds).events)
    decreases |ds|
  {
    if ds != [] {
      var o := Step(ids, f, ds[0]);
      RunIsConsistent(ids, o.next, ds[1..]);
      var evs := Run(ids, f, ds).events;
      assert evs[0] == o.event;
      assert evs[1..] == Run(ids, o.next, ds[1..]).events;
    }
  }

  /** The occupancy a wheel has after `events`, starting from `inWheel`. */
  function OccupancyAfter(inWheel: bool, events: seq<Option<HamsterEvent>>): bool
    decreases |events|
  {
    if events == [] then inWheel
    else if IsEnter(events[0]) then OccupancyAfter(true, events[1..])
    else if IsExit(events[0]) then OccupancyAfter(false, events[1..])
    else OccupancyAfter(inWheel, events[1..])
  }

  /** A fresh sensor first emits an enter (or a failure), never an exit or a spin. */
  lemma FreshSensorStartsWithEnter(ids: SensorIds, d: Draws)
    requires ValidDraws(d)
    ensures !IsExit(Step(ids, InitialFields, d).event) && !IsSpin(Step(ids, InitialFields, d).event)
  {
  }

  // ------------------------------------------------------------ mutable state

  /** `SensorState`: fixed identifiers and the four mutable fields. */
  class SensorState {
    const sensorId: string
    const wheelId: string
    const hamsterId: string
    var failed: bool
    var failureTicks: int
    var inWheel: bool
    var spinCooldown: int

    function Ids(): SensorIds {
      SensorIds(sensorId, wheelId, hamsterId)
    }

    ghost function Fields(): SensorFields
      reads this
    {
      SensorFields(failed, failureTicks, inWheel, spinCooldown)
    }

    constructor (sensorId: string, wheelId: string, hamsterId: string)
      ensures Ids() == SensorIds(sensorId, wheelId, hamsterId)
      ensures Fields() == InitialFields
    {
      this.sensorId := sensorId;
      this.wheelId := wheelId;
      this.hamsterId := hamsterId;
      failed := false;
      failureTicks := 0;
      inWheel := false;
      spinCooldown := 0;
    }
  }

  /** `maybeEventForSensor`: updates `s` in place and returns its event, if any. */
  method MaybeEventForSensor(s: SensorState, d: Draws) returns (event: Option<HamsterEvent>)
    requires ValidDraws(d)
    modifies s
    ensures StepOutcome(s.Fields(), event) == Step(s.Ids(), old(s.Fields()), d)
  {
    if !s.failed && d.failure {
      s.failed := true;
      s.failureTicks := d.failureTicks;
      return Some(SensorFailure(Some(s.sensorId), 500 + d.errorOffset));
    }
    if s.failed {
      return None;
    }
    if s.spinCooldown > 0 {
      s.spinCooldown := s.spinCooldown - 1;
      return None;
    }
    if !s.inWheel {
      if d.move {
        s.inWheel := true;
        return Some(HamsterEnter(Some(s.hamsterId), Some(s.wheelId)));
      }
    } else {
      if d.move {
        s.inWheel := false;
        return Some(HamsterExit(Some(s.hamsterId), Some(s.wheelId)));
      }
      var durationSec := 1 + d.spinDraw;
      s.spinCooldown := Cooldown(durationSec);
      return Some(WheelSpin(Some(s.wheelId), durationSec * 1000));
    }
    return None;
  }

  // ------------------------------------------------------------ all sensors

  /** The sensors `stream` builds for a valid configuration: one per index,
      all distinct, identifiers from `IdsAt`, every field initial. */
  ghost predicate FreshSensors(sensors: array<SensorState>, hamsterCount: nat, sensorCount: nat)
    requires hamsterCount >= 1
    reads sensors, set i | 0 <= i < sensors.Length :: sensors[i]
  {
    && sensors.Length == sensorCount
    && (forall i :: 0 <= i < sensors.Length ==>
          sensors[i].Ids() == IdsAt(i, hamsterCount) && sensors[i].Fields() == InitialFields)
    && Distinct(sensors)
  }

  ghost predicate Distinct(sensors: array<SensorState>)
    reads sensors
  {
    forall i, j :: 0 <= i < j < sensors.Length ==> sensors[i] != sensors[j]
  }

  /** The set-up part of `stream`: validates the counts and builds the sensors.
      The infinite, paced stream itself is the repetition of `Tick`. */
  method Stream(hamsterCount: int, sensorCount: int) returns (r: Result<array<SensorState>, ConfigError>)
    ensures r.Failure? <==> ValidateConfig(hamsterCount, sensorCount).Some?
    ensures r.Failure? ==> ValidateConfig(hamsterCount, sensorCount) == Some(r.error)
    ensures r.Success? ==> 1 <= hamsterCount && fresh(r.value) && FreshSensors(r.value, hamsterCount, sensorCount)
  {
    var invalid := ValidateConfig(hamsterCount, sensorCount);
    if invalid.Some? {
      return Failure(invalid.value);
    }
    var built: seq<SensorState> := [];
    var i := 0;
    while i < sensorCount
      invariant 0 <= i <= sensorCount && |built| == i
      invariant forall k :: 0 <= k < i ==> fresh(built[k])
      invariant forall k :: 0 <= k < i ==>
                  built[k].Ids() == IdsAt(k, hamsterCount) && built[k].Fields() == InitialFields
      invariant forall k, l :: 0 <= k < l < i ==> built[k] != built[l]
    {
      var hamsterId := HamsterNumber(i, hamsterCount);
      var s := new SensorState("sensor-" + Decimal(i + 1), "wheel-" + Decimal(i + 1), "hamster-" + Decimal(hamsterId));
      built := built + [s];
      i := i + 1;
    }
    var sensors := new SensorState[sensorCount](k requires 0 <= k < sensorCount => built[k]);
    return Success(sensors);
  }

  /** `mapNotNull`: the events present, in order. */
  function Emitted(outcomes: seq<Option<HamsterEvent>>): (r: seq<HamsterEvent>)
    ensures |r| <= |outcomes|
    ensures forall e :: e in r <==> Some(e) in outcomes
    decreases |outcomes|
  {
    if outcomes == [] then []
    else
      var init := outcomes[..|outcomes| - 1];
      var last := outcomes[|outcomes| - 1];
      assert outcomes == init + [last];
      Emitted(init) + (if last.Some? then [last.value] else [])
  }

  /** A single outcome emits its event, if present. */
  lemma EmittedOne(o: Option<HamsterEvent>)
    ensures Emitted([o]) == if o.Some? then [o.value] else []
  {
    assert [o][..0] == [];
  }

  /** Emitting keeps the order of the outcomes: the events of two consecutive
      stretches of outcomes are those of the first followed by those of the second. */
  lemma {:induction false} EmittedAppend(a: seq<Option<HamsterEvent>>, b: seq<Option<HamsterEvent>>)
    ensures Emitted(a + b) == Emitted(a) + Emitted(b)
    decreases |b|
  {
    if b == [] {
      assert a + b == a;
    } else {
      var init := b[..|b| - 1];
      var last := b[|b| - 1];
      assert (a + b)[..|a + b| - 1] == a + init;
      assert (a + b)[|a + b| - 1] == last;
      EmittedAppend(a, init);
    }
  }

  /** One tick: every sensor in index order is asked for an event with its own
      draws; there are at most as many events as sensors. */
  method Tick(sensors: array<SensorState>, draws: seq<Draws>)
    returns (events: seq<HamsterEvent>, ghost outcomes: seq<Option<HamsterEvent>>)
    requires |draws| == sensors.Length && AllValid(draws) && Distinct(sensors)
    modifies set i | 0 <= i < sensors.Length :: sensors[i]
    ensures |outcomes| == sensors.Length && events == Emitted(outcomes) && |events| <= sensors.Length
    ensures forall i :: 0 <= i < sensors.Length ==>
              StepOutcome(sensors[i].Fields(), outcomes[i]) == Step(sensors[i].Ids(), old(sensors[i].Fields()), draws[i])
  {
    events := [];
    outcomes := [];
    var i := 0;
    while i < sensors.Length
      invariant 0 <= i <= sensors.Length && |outcomes| == i && events == Emitted(outcomes)
      invariant forall k :: 0 <= k < i ==>
                  StepOutcome(sensors[k].Fields(), outcomes[k]) == Step(sensors[k].Ids(), old(sensors[k].Fields()), draws[k])
      invariant forall k :: i <= k < sensors.Length ==> sensors[k].Fields() == old(sensors[k].Fields())
    {
      var e := MaybeEventForSensor(sensors[i], draws[i]);
      assert (outcomes + [e])[..i] == outcomes;
      outcomes := outcomes + [e];
      if e.Some? {
        events := events + [e.value];
      }
      i := i + 1;
    }
  }
}
