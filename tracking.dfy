/** What `HamsterTrackerService` does to the state store, as functions: the
    four event handlers, `touch`, the two periodic checks, and the alert
    records the checks hand to the alert service. */
module Tracking {
  import opened Wrappers
  import opened JavaInts
  import opened Events
  import opened TrackerStore

  /** One round is 5 seconds of spinning. */
  const ROUND_MS: int := 5_000
  /** Idle for longer than one hour raises an inactivity alert. */
  const INACTIVITY_MS: int := 3_600_000
  /** Failed for longer than 30 minutes raises a sensor-down alert. */
  const SENSOR_DOWN_MS: int := 1_800_000
  const MINUTE_MS: int := 60_000

  // ------------------------------------------------------------------- events

  /** The activity part of the store after `touch(hamsterId)` at `now`, every
      other hamster's activity and flag left as they were. */
  predicate TouchedOnly(s: Store, r: Store, hamsterId: JString, now: Instant) {
    if hamsterId.None? then
      r.lastActivity == s.lastActivity && r.inactivityAlerted == s.inactivityAlerted
    else
      && hamsterId.value in r.lastActivity && r.lastActivity[hamsterId.value] == now
      && !IsInactivityAlerted(r, hamsterId)
      && r.lastActivity - {hamsterId.value} == s.lastActivity - {hamsterId.value}
      && r.inactivityAlerted - {hamsterId.value} == s.inactivityAlerted - {hamsterId.value}
  }

  /** Records activity now and clears the inactivity flag. */
  function Touch(s: Store, hamsterId: JString, now: Instant): (r: Store)
    ensures TouchedOnly(s, r, hamsterId, now)
    ensures r.(lastActivity := s.lastActivity, inactivityAlerted := s.inactivityAlerted) == s
  {
    if hamsterId.None? then s
    else SetInactivityAlerted(UpdateLastActivity(s, hamsterId, now), hamsterId, false)
  }

  function HandleEnter(s: Store, hamsterId: JString, wheelId: JString, now: Instant): (r: Store)
    ensures wheelId.Some? && hamsterId.Some? ==> GetOccupant(r, wheelId) == hamsterId
    ensures GetOccupant(s, wheelId) == hamsterId || wheelId.None? || hamsterId.None? ==>
              r.wheelOccupants == s.wheelOccupants
    ensures hamsterId.None? ==> r == s
    ensures forall w :: w != wheelId ==> GetOccupant(r, w) == GetOccupant(s, w)
    ensures TouchedOnly(s, r, hamsterId, now)
    ensures r.roundsByHamster == s.roundsByHamster
    ensures r.sensorFailures == s.sensorFailures && r.sensorAlerted == s.sensorAlerted
  {
    var current := GetOccupant(s, wheelId);
    if current == hamsterId then Touch(s, hamsterId, now)
    else Touch(SetOccupant(s, wheelId, hamsterId), hamsterId, now)
  }

  function HandleExit(s: Store, hamsterId: JString, wheelId: JString, now: Instant): (r: Store)
    ensures hamsterId.Some? && GetOccupant(s, wheelId) == hamsterId ==> GetOccupant(r, wheelId) == None
    ensures hamsterId.None? || GetOccupant(s, wheelId) != hamsterId ==> r.wheelOccupants == s.wheelOccupants
    ensures hamsterId.None? ==> r == s
    ensures forall w :: w != wheelId ==> GetOccupant(r, w) == GetOccupant(s, w)
    ensures TouchedOnly(s, r, hamsterId, now)
    ensures r.roundsByHamster == s.roundsByHamster
    ensures r.sensorFailures == s.sensorFailures && r.sensorAlerted == s.sensorAlerted
  {
    var current := GetOccupant(s, wheelId);
    if current != hamsterId then Touch(s, hamsterId, now)
    else Touch(ClearOccupantIfMatches(s, wheelId, hamsterId), hamsterId, now)
  }

  /** `(int) (ms / ROUND_MS)`: whole rounds, narrowed to a Java `int`. */
  function SpinRounds(ms: Int64): (rounds: Int32)
    requires ms > 0
    ensures ms < ROUND_MS ==> rounds == 0
    ensures ms / ROUND_MS < TWO_31 ==> rounds == ms / ROUND_MS && rounds * ROUND_MS <= ms < (rounds + 1) * ROUND_MS
  {
    Wrap32(ms / ROUND_MS)
  }

  function HandleWheelSpin(s: Store, wheelId: JString, ms: Int64, now: Instant): (r: Store)
    ensures ms <= 0 || GetOccupant(s, wheelId).None? ==> r == s
    ensures ms > 0 && GetOccupant(s, wheelId).Some? ==>
              var h := GetOccupant(s, wheelId);
              && TouchedOnly(s, r, h, now)
              && GetRounds(r, h) == (if SpinRounds(ms) > 0 then Wrap32(GetRounds(s, h) + SpinRounds(ms)) else GetRounds(s, h))
              && r.roundsByHamster - {h.value} == s.roundsByHamster - {h.value}
              && (SpinRounds(ms) <= 0 ==> r.roundsByHamster == s.roundsByHamster)
    ensures r.wheelOccupants == s.wheelOccupants
    ensures r.sensorFailures == s.sensorFailures && r.sensorAlerted == s.sensorAlerted
  {
    if ms <= 0 then s
    else
      var hamsterId := GetOccupant(s, wheelId);
      if hamsterId.None? then s
      else
        var rounds := SpinRounds(ms);
        if rounds <= 0 then Touch(s, hamsterId, now)
        else Touch(AddRounds(s, hamsterId, rounds).0, hamsterId, now)
  }

  function HandleSensorFailure(s: Store, sensorId: JString, now: Instant): (r: Store)
    ensures sensorId.Some? && sensorId.value !in s.sensorFailures ==>
              && sensorId.value in r.sensorFailures && r.sensorFailures[sensorId.value] == now
              && r.sensorFailures - {sensorId.value} == s.sensorFailures
              && !IsSensorAlerted(r, sensorId)
              && r.sensorAlerted - {sensorId.value} == s.sensorAlerted - {sensorId.value}
    ensures sensorId.None? || sensorId.value in s.sensorFailures ==> r == s
    ensures r.(sensorFailures := s.sensorFailures, sensorAlerted := s.sensorAlerted) == s
  {
    var (marked, firstTime) := MarkSensorFailed(s, sensorId, now);
    if firstTime then SetSensorAlerted(marked, sensorId, false) else marked
  }

  /** The hamster whose activity an event records, if any. */
  function TouchedBy(s: Store, event: HamsterEvent): JString {
    match event
    case HamsterEnter(h, _) => h
    case HamsterExit(h, _) => h
    case WheelSpin(w, ms) => if ms > 0 then GetOccupant(s, w) else None
    case SensorFailure(_, _) => None
  }

  /** `accept`: a null event is ignored; otherwise dispatch on the variant. */
  function Accept(s: Store, event: Option<HamsterEvent>, now: Instant): (r: Store)
    ensures event.None? ==> r == s
    ensures event.Some? ==> TouchedOnly(s, r, TouchedBy(s, event.value), now)
    ensures event.Some? && !event.value.SensorFailure? ==>
              r.sensorFailures == s.sensorFailures && r.sensorAlerted == s.sensorAlerted
    ensures event.Some? && event.value.SensorFailure? ==>
              r.(sensorFailures := s.sensorFailures, sensorAlerted := s.sensorAlerted) == s
  {
    match event
    case None => s
    case Some(HamsterEnter(h, w)) => HandleEnter(s, h, w, now)
    case Some(HamsterExit(h, w)) => HandleExit(s, h, w, now)
    case Some(WheelSpin(w, ms)) => HandleWheelSpin(s, w, ms, now)
    case Some(SensorFailure(id, _)) => HandleSensorFailure(s, id, now)
  }

  // ------------------------------------------------------------------- alerts

  datatype AlertKind = HamsterInactive | SensorDown

  /** What an alert message says: whom it is about and for how many whole minutes. */
  datatype Alert = Alert(kind: AlertKind, subject: string, minutes: int)

  /** `sent` announces every entry of `due` exactly once, with its minutes, and nothing else. */
  predicate AlertsExactly(sent: seq<Alert>, kind: AlertKind, due: map<string, int>) {
    && (forall i :: 0 <= i < |sent| ==>
          sent[i].kind == kind && sent[i].subject in due && sent[i].minutes == due[sent[i].subject])
    && (forall i, j :: 0 <= i < j < |sent| ==> sent[i].subject != sent[j].subject)
    && (forall h :: h in due ==> exists i :: 0 <= i < |sent| && sent[i].subject == h)
  }

  function Subjects(sent: seq<Alert>): set<string> {
    set i | 0 <= i < |sent| :: sent[i].subject
  }

  lemma {:induction false} DistinctSubjectsCount(sent: seq<Alert>)
    requires forall i, j :: 0 <= i < j < |sent| ==> sent[i].subject != sent[j].subject
    ensures |Subjects(sent)| == |sent|
  {
    if sent != [] {
      var last := |sent| - 1;
      DistinctSubjectsCount(sent[..last]);
      assert Subjects(sent) == Subjects(sent[..last]) + {sent[last].subject};
      assert sent[last].subject !in Subjects(sent[..last]);
    }
  }

  /** Exactly one alert per due entry: the number of alerts is the number of entries. */
  lemma AlertsExactlyCount(sent: seq<Alert>, kind: AlertKind, due: map<string, int>)
    requires AlertsExactly(sent, kind, due)
    ensures |sent| == |due|
    ensures Subjects(sent) == due.Keys
  {
    DistinctSubjectsCount(sent);
    forall h | h in due ensures h in Subjects(sent) {
      var i :| 0 <= i < |sent| && sent[i].subject == h;
    }
    assert Subjects(sent) == due.Keys;
    assert |due.Keys| == |due|;
  }

  /** The alerts of two checks run one after the other: exactly the `first`
      entries, then exactly the `second` ones. */
  predicate AlertsInTwoPhases(sent: seq<Alert>, firstKind: AlertKind, first: map<string, int>,
                              secondKind: AlertKind, second: map<string, int>) {
    && |sent| == |first| + |second|
    && AlertsExactly(sent[..|first|], firstKind, first)
    && AlertsExactly(sent[|first|..], secondKind, second)
  }

  lemma AlertsInTwoPhasesConcat(a: seq<Alert>, b: seq<Alert>, firstKind: AlertKind, first: map<string, int>,
                                secondKind: AlertKind, second: map<string, int>)
    requires AlertsExactly(a, firstKind, first) && AlertsExactly(b, secondKind, second)
    ensures AlertsInTwoPhases(a + b, firstKind, first, secondKind, second)
  {
    AlertsExactlyCount(a, firstKind, first);
    AlertsExactlyCount(b, secondKind, second);
    assert (a + b)[..|first|] == a;
    assert (a + b)[|first|..] == b;
  }

  // ------------------------------------------------------------ periodic checks

  /** The hamsters the inactivity check alerts at `now`, with their idle minutes:
      idle strictly longer than an hour and not already flagged. */
  function InactivityDue(s: Store, now: Instant): (r: map<string, int>)
    // only tracked, unflagged hamsters, each idle at least 60 whole minutes
    ensures r.Keys <= s.lastActivity.Keys
    ensures forall h :: h in r ==> r[h] >= 60 && !IsInactivityAlerted(s, Some(h))
  {
    map h | h in s.lastActivity && now - s.lastActivity[h] > INACTIVITY_MS && !IsInactivityAlerted(s, Some(h))
      :: (now - s.lastActivity[h]) / MINUTE_MS
  }

  function MarkInactivityAlerted(s: Store, ids: set<string>): Store {
    s.(inactivityAlerted := s.inactivityAlerted + map h | h in ids :: true)
  }

  /** The store after `checkInactivity` at `now`. */
  function AfterInactivityCheck(s: Store, now: Instant): (r: Store)
    ensures forall h :: IsInactivityAlerted(r, Some(h)) <==> IsInactivityAlerted(s, Some(h)) || h in InactivityDue(s, now)
    ensures r.(inactivityAlerted := s.inactivityAlerted) == s
  {
    MarkInactivityAlerted(s, InactivityDue(s, now).Keys)
  }

  /** The sensors the sensor-down check alerts at `now`, with their down minutes:
      failed strictly longer than 30 minutes ago and not already flagged. */
  function SensorsDownDue(s: Store, now: Instant): (r: map<string, int>)
    // only failed, unflagged sensors, each down at least 30 whole minutes
    ensures r.Keys <= s.sensorFailures.Keys
    ensures forall id :: id in r ==> r[id] >= 30 && !IsSensorAlerted(s, Some(id))
  {
    map id | id in s.sensorFailures && now - s.sensorFailures[id] > SENSOR_DOWN_MS && !IsSensorAlerted(s, Some(id))
      :: (now - s.sensorFailures[id]) / MINUTE_MS
  }

  function MarkSensorsAlerted(s: Store, ids: set<string>): Store {
    s.(sensorAlerted := s.sensorAlerted + map id | id in ids :: true)
  }

  /** The store after `checkSensorsDown` at `now`. */
  function AfterSensorsDownCheck(s: Store, now: Instant): (r: Store)
    ensures forall id :: IsSensorAlerted(r, Some(id)) <==> IsSensorAlerted(s, Some(id)) || id in SensorsDownDue(s, now)
    ensures r.(sensorAlerted := s.sensorAlerted) == s
  {
    MarkSensorsAlerted(s, SensorsDownDue(s, now).Keys)
  }

  /** The inactivity check touches no sensor data, so the sensor-down check
      that follows it sees the same due sensors. */
  lemma SensorsDownDueAfterInactivityCheck(s: Store, nowInactivity: Instant, nowSensors: Instant)
    ensures SensorsDownDue(AfterInactivityCheck(s, nowInactivity), nowSensors) == SensorsDownDue(s, nowSensors)
  {
  }

  // ------------------------------------------- one step of a check's loop
  //
  // Proof steps for the two sweep loops of `HamsterTrackerService`. The set and
  // sequence identities below model no line of the service; they keep each
  // loop iteration's proof small.

  /** Visiting `h` moves it from the pending keys to the visited keys of `due`. */
  lemma VisitedStep(due: map<string, int>, pending: set<string>, h: string)
    requires h in pending
    ensures h in due ==> (due.Keys - pending) + {h} == due.Keys - (pending - {h})
    ensures h !in due ==> due.Keys - pending == due.Keys - (pending - {h})
  {
  }

  /** Sending one more alert extends the record of the alerts sent so far. */
  lemma SentOneMore(before: seq<Alert>, sent: seq<Alert>, alert: Alert)
    ensures (before + sent) + [alert] == before + (sent + [alert])
  {
  }

  /** The alerts sent after the first `n` of a record that extends `earlier`. */
  lemma SentSuffix(all: seq<Alert>, earlier: seq<Alert>, n: nat)
    requires n <= |earlier| <= |all| && all[..|earlier|] == earlier
    ensures all[n..] == earlier[n..] + all[|earlier|..]
  {
  }

  /** Once nothing is pending every entry of `due` has been visited. */
  lemma NothingPending(due: map<string, int>)
    ensures due - {} == due
  {
  }

  /** Announcing `h` (when due) extends an exactly-once announcement of the
      entries already visited to one that also covers `h`. */
  lemma AlertsExactlyStep(sent: seq<Alert>, kind: AlertKind, due: map<string, int>,
                          pending: set<string>, h: string, next: seq<Alert>)
    requires AlertsExactly(sent, kind, due - pending)
    requires h in pending
    requires next == if h in due then sent + [Alert(kind, h, due[h])] else sent
    ensures AlertsExactly(next, kind, due - (pending - {h}))
  {
    forall x | x in due - (pending - {h}) ensures exists i :: 0 <= i < |next| && next[i].subject == x {
      if x == h {
        assert next[|next| - 1].subject == h;
      } else {
        assert x in due - pending;
        var i :| 0 <= i < |sent| && sent[i].subject == x;
        assert next[i].subject == x;
      }
    }
  }

  lemma InactivityDueAt(s: Store, now: Instant, h: string)
    requires h in s.lastActivity
    ensures h in InactivityDue(s, now) <==>
              now - s.lastActivity[h] > INACTIVITY_MS && !IsInactivityAlerted(s, Some(h))
    ensures h in InactivityDue(s, now) ==> InactivityDue(s, now)[h] == (now - s.lastActivity[h]) / MINUTE_MS
  {
  }

  lemma SensorsDownDueAt(s: Store, now: Instant, id: string)
    requires id in s.sensorFailures
    ensures id in SensorsDownDue(s, now) <==>
              now - s.sensorFailures[id] > SENSOR_DOWN_MS && !IsSensorAlerted(s, Some(id))
    ensures id in SensorsDownDue(s, now) ==> SensorsDownDue(s, now)[id] == (now - s.sensorFailures[id]) / MINUTE_MS
  {
  }

  lemma MarkInactivityAlertedStep(s: Store, ids: set<string>, h: string)
    ensures h !in ids ==> IsInactivityAlerted(MarkInactivityAlerted(s, ids), Some(h)) == IsInactivityAlerted(s, Some(h))
    ensures SetInactivityAlerted(MarkInactivityAlerted(s, ids), Some(h), true) == MarkInactivityAlerted(s, ids + {h})
  {
  }

  lemma MarkSensorsAlertedStep(s: Store, ids: set<string>, id: string)
    ensures id !in ids ==> IsSensorAlerted(MarkSensorsAlerted(s, ids), Some(id)) == IsSensorAlerted(s, Some(id))
    ensures SetSensorAlerted(MarkSensorsAlerted(s, ids), Some(id), true) == MarkSensorsAlerted(s, ids + {id})
  {
  }

  // ------------------------------------------------------------------ invariant

  /** Flags are only ever stored as true, a flagged hamster has an activity
      record, and a flagged sensor has a failure record. */
  predicate Coherent(s: Store) {
    && (forall h :: h in s.inactivityAlerted ==> s.inactivityAlerted[h] && h in s.lastActivity)
    && (forall id :: id in s.sensorAlerted ==> s.sensorAlerted[id] && id in s.sensorFailures)
  }
}
