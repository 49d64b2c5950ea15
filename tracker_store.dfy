/** The abstract state of the tracker's state store and every store operation
    as a function on it. The repository class is proved against these. */
module TrackerStore {
  import opened Wrappers
  import opened JavaInts
  import opened Events

  /** A point in time, in milliseconds. */
  type Instant = int

  datatype Store = Store(
    wheelOccupants: map<string, string>,
    roundsByHamster: map<string, Int32>,
    lastActivity: map<string, Instant>,
    inactivityAlerted: map<string, bool>,
    sensorFailures: map<string, Instant>,
    sensorAlerted: map<string, bool>)

  /** The store a freshly constructed repository holds. */
  const EmptyStore: Store := Store(map[], map[], map[], map[], map[], map[])

  // ---------------------------------------------------------------- occupancy

  /** The hamster in the wheel, or null; a null wheel id has no occupant. */
  function GetOccupant(s: Store, wheelId: JString): JString {
    if wheelId.Some? && wheelId.value in s.wheelOccupants
    then Some(s.wheelOccupants[wheelId.value])
    else None
  }

  function SetOccupant(s: Store, wheelId: JString, hamsterId: JString): (r: Store)
    ensures wheelId.Some? && hamsterId.Some? ==> GetOccupant(r, wheelId) == hamsterId
    ensures forall w :: w != wheelId ==> GetOccupant(r, w) == GetOccupant(s, w)
    ensures r.(wheelOccupants := s.wheelOccupants) == s
    ensures wheelId.None? || hamsterId.None? ==> r == s
  {
    if wheelId.None? || hamsterId.None? then s
    else s.(wheelOccupants := s.wheelOccupants[wheelId.value := hamsterId.value])
  }

  function ClearOccupantIfMatches(s: Store, wheelId: JString, hamsterId: JString): (r: Store)
    ensures hamsterId.Some? && GetOccupant(s, wheelId) == hamsterId ==> GetOccupant(r, wheelId) == None
    ensures hamsterId.None? || GetOccupant(s, wheelId) != hamsterId ==> r == s
    ensures forall w :: w != wheelId ==> GetOccupant(r, w) == GetOccupant(s, w)
    ensures r.(wheelOccupants := s.wheelOccupants) == s
  {
    if wheelId.None? || hamsterId.None? then s
    else if GetOccupant(s, wheelId) == hamsterId
    then s.(wheelOccupants := s.wheelOccupants - {wheelId.value})
    else s
  }

  // ------------------------------------------------------------------- rounds

  /** A hamster never credited (and a null id) has 0 rounds. */
  function GetRounds(s: Store, hamsterId: JString): Int32 {
    if hamsterId.Some? && hamsterId.value in s.roundsByHamster
    then s.roundsByHamster[hamsterId.value]
    else 0
  }

  /** Add-and-get; the pair is the new store and the value returned. */
  function AddRounds(s: Store, hamsterId: JString, delta: Int32): (r: (Store, Int32))
    ensures hamsterId.None? ==> r == (s, 0)
    ensures hamsterId.Some? && delta == 0 ==> r == (s, GetRounds(s, hamsterId))
    ensures hamsterId.Some? && delta != 0 ==>
              && r.1 == Wrap32(GetRounds(s, hamsterId) + delta)
              && hamsterId.value in r.0.roundsByHamster
              && GetRounds(r.0, hamsterId) == r.1
              && r.0.roundsByHamster - {hamsterId.value} == s.roundsByHamster - {hamsterId.value}
              && r.0.(roundsByHamster := s.roundsByHamster) == s
    ensures hamsterId.Some? && InInt32Range(GetRounds(s, hamsterId) + delta) ==>
              r.1 == GetRounds(s, hamsterId) + delta
  {
    if hamsterId.None? then (s, 0)
    else if delta == 0 then (s, GetRounds(s, hamsterId))
    else
      var total := Wrap32(GetRounds(s, hamsterId) + delta);
      (s.(roundsByHamster := s.roundsByHamster[hamsterId.value := total]), total)
  }

  /** The copy `getAllRoundsSnapshot` hands out. */
  function RoundsSnapshot(s: Store): (snapshot: map<string, Int32>)
    ensures snapshot.Keys == s.roundsByHamster.Keys
    ensures forall h :: h in snapshot ==> snapshot[h] == GetRounds(s, Some(h))
  {
    s.roundsByHamster
  }

  function ResetDailyRounds(s: Store): (r: Store)
    ensures r.roundsByHamster.Keys == s.roundsByHamster.Keys
    ensures forall h :: GetRounds(r, h) == 0
    ensures r.(roundsByHamster := s.roundsByHamster) == s
  {
    s.(roundsByHamster := map h | h in s.roundsByHamster :: 0)
  }

  // ----------------------------------------------------------------- activity

  function UpdateLastActivity(s: Store, hamsterId: JString, when: Instant): (r: Store)
    ensures hamsterId.Some? ==> hamsterId.value in r.lastActivity && r.lastActivity[hamsterId.value] == when
    ensures hamsterId.Some? ==> r.lastActivity - {hamsterId.value} == s.lastActivity - {hamsterId.value}
    ensures hamsterId.None? ==> r == s
    ensures r.(lastActivity := s.lastActivity) == s
  {
    if hamsterId.None? then s
    else s.(lastActivity := s.lastActivity[hamsterId.value := when])
  }

  /** The copy `getAllLastActivity` hands out. */
  function LastActivitySnapshot(s: Store): map<string, Instant> {
    s.lastActivity
  }

  /** An absent flag reads as false. */
  function IsInactivityAlerted(s: Store, hamsterId: JString): bool {
    hamsterId.Some? && hamsterId.value in s.inactivityAlerted && s.inactivityAlerted[hamsterId.value]
  }

  /** Setting false removes the key; setting true stores it. */
  function SetInactivityAlerted(s: Store, hamsterId: JString, alerted: bool): (r: Store)
    ensures hamsterId.Some? ==> IsInactivityAlerted(r, hamsterId) == alerted
    ensures hamsterId.Some? && !alerted ==> hamsterId.value !in r.inactivityAlerted
    ensures hamsterId.Some? ==> r.inactivityAlerted - {hamsterId.value} == s.inactivityAlerted - {hamsterId.value}
    ensures hamsterId.None? ==> r == s
    ensures r.(inactivityAlerted := s.inactivityAlerted) == s
  {
    if hamsterId.None? then s
    else if !alerted then s.(inactivityAlerted := s.inactivityAlerted - {hamsterId.value})
    else s.(inactivityAlerted := s.inactivityAlerted[hamsterId.value := true])
  }

  // ------------------------------------------------------------------ sensors

  /** Put-if-absent of the failure start; the flag says whether it was recorded now. */
  function MarkSensorFailed(s: Store, sensorId: JString, since: Instant): (r: (Store, bool))
    ensures r.1 <==> sensorId.Some? && sensorId.value !in s.sensorFailures
    ensures r.1 ==> sensorId.value in r.0.sensorFailures && r.0.sensorFailures[sensorId.value] == since
    ensures r.1 ==> r.0.sensorFailures - {sensorId.value} == s.sensorFailures
    ensures !r.1 ==> r.0 == s
    ensures r.0.(sensorFailures := s.sensorFailures) == s
  {
    if sensorId.None? || sensorId.value in s.sensorFailures then (s, false)
    else (s.(sensorFailures := s.sensorFailures[sensorId.value := since]), true)
  }

  function ClearSensorFailure(s: Store, sensorId: JString): (r: Store)
    ensures sensorId.Some? ==> r.sensorFailures == s.sensorFailures - {sensorId.value}
    ensures sensorId.None? ==> r == s
    ensures r.(sensorFailures := s.sensorFailures) == s
  {
    if sensorId.None? then s
    else s.(sensorFailures := s.sensorFailures - {sensorId.value})
  }

  /** The copy `getAllSensorFailures` hands out. */
  function SensorFailuresSnapshot(s: Store): map<string, Instant> {
    s.sensorFailures
  }

  function IsSensorAlerted(s: Store, sensorId: JString): bool {
    sensorId.Some? && sensorId.value in s.sensorAlerted && s.sensorAlerted[sensorId.value]
  }

  function SetSensorAlerted(s: Store, sensorId: JString, alerted: bool): (r: Store)
    ensures sensorId.Some? ==> IsSensorAlerted(r, sensorId) == alerted
    ensures sensorId.Some? && !alerted ==> sensorId.value !in r.sensorAlerted
    ensures sensorId.Some? ==> r.sensorAlerted - {sensorId.value} == s.sensorAlerted - {sensorId.value}
    ensures sensorId.None? ==> r == s
    ensures r.(sensorAlerted := s.sensorAlerted) == s
  {
    if sensorId.None? then s
    else if !alerted then s.(sensorAlerted := s.sensorAlerted - {sensorId.value})
    else s.(sensorAlerted := s.sensorAlerted[sensorId.value := true])
  }

  // ------------------------------------------------------------------- lemmas

  /** The store is a register per key: a read after a write returns the value
      written, and any second write to the same wheel wins. */
  lemma SetOccupantOverwrites(s: Store, w: string, h1: string, h2: string)
    ensures GetOccupant(SetOccupant(SetOccupant(s, Some(w), Some(h1)), Some(w), Some(h2)), Some(w)) == Some(h2)
    ensures SetOccupant(SetOccupant(s, Some(w), Some(h1)), Some(w), Some(h2)) == SetOccupant(s, Some(w), Some(h2))
  {
  }

  /** Resetting twice is resetting once, and a snapshot after the reset holds
      the same hamsters, each at 0. */
  lemma ResetIdempotent(s: Store)
    ensures ResetDailyRounds(ResetDailyRounds(s)) == ResetDailyRounds(s)
    ensures forall h :: h in RoundsSnapshot(ResetDailyRounds(s)) <==> h in RoundsSnapshot(s)
  {
  }

  /** Failure records are write-once: a second mark never moves the recorded time. */
  lemma MarkSensorFailedWriteOnce(s: Store, id: string, t1: Instant, t2: Instant)
    ensures var s1 := MarkSensorFailed(s, Some(id), t1).0;
            id in s1.sensorFailures && MarkSensorFailed(s1, Some(id), t2) == (s1, false)
  {
  }
}
