/** `InMemoryHamsterTrackerRepository`: six maps updated in place, one
    atomic step per operation. Every method is proved against the matching
    function of `TrackerStore`. */
module Repository {
  import opened Wrappers
  import opened JavaInts
  import opened Events
  import S = TrackerStore

  class InMemoryHamsterTrackerRepository {
    var wheelOccupants: map<string, string>
    var roundsByHamster: map<string, Int32>
    var lastActivity: map<string, S.Instant>
    var inactivityAlerted: map<string, bool>
    var sensorFailures: map<string, S.Instant>
    var sensorAlerted: map<string, bool>

    /** The abstract value of the repository. */
    ghost function Model(): S.Store
      reads this
    {
      S.Store(wheelOccupants, roundsByHamster, lastActivity, inactivityAlerted, sensorFailures, sensorAlerted)
    }

    constructor ()
      ensures Model() == S.EmptyStore
    {
      wheelOccupants, roundsByHamster, lastActivity := map[], map[], map[];
      inactivityAlerted, sensorFailures, sensorAlerted := map[], map[], map[];
    }

    method GetOccupant(wheelId: JString) returns (occupant: JString)
      ensures occupant == S.GetOccupant(Model(), wheelId)
    {
      if wheelId.None? {
        return None;
      }
      occupant := if wheelId.value in wheelOccupants then Some(wheelOccupants[wheelId.value]) else None;
    }

    method SetOccupant(wheelId: JString, hamsterId: JString)
      modifies this
      ensures Model() == S.SetOccupant(old(Model()), wheelId, hamsterId)
    {
      if wheelId.None? || hamsterId.None? {
        return;
      }
      wheelOccupants := wheelOccupants[wheelId.value := hamsterId.value];
    }

    method ClearOccupantIfMatches(wheelId: JString, hamsterId: JString)
      modifies this
      ensures Model() == S.ClearOccupantIfMatches(old(Model()), wheelId, hamsterId)
    {
      if wheelId.None? || hamsterId.None? {
        return;
      }
      // the wheel is emptied only when the given hamster occupies it
      if wheelId.value in wheelOccupants && wheelOccupants[wheelId.value] == hamsterId.value {
        wheelOccupants := wheelOccupants - {wheelId.value};
      }
    }

    method AddRounds(hamsterId: JString, delta: Int32) returns (total: Int32)
      modifies this
      ensures (Model(), total) == S.AddRounds(old(Model()), hamsterId, delta)
    {
      if hamsterId.None? || delta == 0 {
        if hamsterId.None? {
          return 0;
        }
        total := GetRounds(hamsterId);
        return;
      }
      // a missing counter starts at zero; the sum wraps at 32 bits
      var counter := if hamsterId.value in roundsByHamster then roundsByHamster[hamsterId.value] else 0;
      total := Wrap32(counter + delta);
      roundsByHamster := roundsByHamster[hamsterId.value := total];
    }

    method GetRounds(hamsterId: JString) returns (rounds: Int32)
      ensures rounds == S.GetRounds(Model(), hamsterId)
    {
      if hamsterId.None? {
        return 0;
      }
      rounds := if hamsterId.value in roundsByHamster then roundsByHamster[hamsterId.value] else 0;
    }

    method GetAllRoundsSnapshot() returns (snapshot: map<string, Int32>)
      ensures snapshot == S.RoundsSnapshot(Model())
    {
      snapshot := roundsByHamster;
    }

    /** Sets every existing counter to 0, one key at a time. */
    method ResetDailyRounds()
      modifies this
      ensures Model() == S.ResetDailyRounds(old(Model()))
    {
      var pending := roundsByHamster.Keys;
      while pending != {}
        invariant pending <= roundsByHamster.Keys == old(roundsByHamster).Keys
        invariant forall h :: h in roundsByHamster && h !in pending ==> roundsByHamster[h] == 0
        invariant Model().(roundsByHamster := old(roundsByHamster)) == old(Model())
        decreases pending
      {
        var h :| h in pending;
        roundsByHamster := roundsByHamster[h := 0];
        pending := pending - {h};
      }
      assert roundsByHamster == map h | h in old(roundsByHamster) :: 0;
    }

    method UpdateLastActivity(hamsterId: JString, when: S.Instant)
      modifies this
      ensures Model() == S.UpdateLastActivity(old(Model()), hamsterId, when)
    {
      if hamsterId.None? {
        return;
      }
      lastActivity := lastActivity[hamsterId.value := when];
    }

    method GetAllLastActivity() returns (snapshot: map<string, S.Instant>)
      ensures snapshot == S.LastActivitySnapshot(Model())
    {
      snapshot := lastActivity;
    }

    method IsInactivityAlerted(hamsterId: JString) returns (alerted: bool)
      ensures alerted == S.IsInactivityAlerted(Model(), hamsterId)
    {
      if hamsterId.None? {
        return false;
      }
      alerted := if hamsterId.value in inactivityAlerted then inactivityAlerted[hamsterId.value] else false;
    }

    method SetInactivityAlerted(hamsterId: JString, alerted: bool)
      modifies this
      ensures Model() == S.SetInactivityAlerted(old(Model()), hamsterId, alerted)
    {
      if hamsterId.None? {
        return;
      }
      if !alerted {
        inactivityAlerted := inactivityAlerted - {hamsterId.value};
      } else {
        inactivityAlerted := inactivityAlerted[hamsterId.value := true];
      }
    }

    method MarkSensorFailed(sensorId: JString, since: S.Instant) returns (firstTime: bool)
      modifies this
      ensures (Model(), firstTime) == S.MarkSensorFailed(old(Model()), sensorId, since)
    {
      if sensorId.None? {
        return false;
      }
      // the first failure time is kept; later ones are ignored
      firstTime := sensorId.value !in sensorFailures;
      if firstTime {
        sensorFailures := sensorFailures[sensorId.value := since];
      }
    }

    method ClearSensorFailure(sensorId: JString)
      modifies this
      ensures Model() == S.ClearSensorFailure(old(Model()), sensorId)
    {
      if sensorId.None? {
        return;
      }
      sensorFailures := sensorFailures - {sensorId.value};
    }

    method GetAllSensorFailures() returns (snapshot: map<string, S.Instant>)
      ensures snapshot == S.SensorFailuresSnapshot(Model())
    {
      snapshot := sensorFailures;
    }

    method IsSensorAlerted(sensorId: JString) returns (alerted: bool)
      ensures alerted == S.IsSensorAlerted(Model(), sensorId)
    {
      if sensorId.None? {
        return false;
      }
      alerted := if sensorId.value in sensorAlerted then sensorAlerted[sensorId.value] else false;
    }

    method SetSensorAlerted(sensorId: JString, alerted: bool)
      modifies this
      ensures Model() == S.SetSensorAlerted(old(Model()), sensorId, alerted)
    {
      if sensorId.None? {
        return;
      }
      if !alerted {
        sensorAlerted := sensorAlerted - {sensorId.value};
      } else {
        sensorAlerted := sensorAlerted[sensorId.value := true];
      }
    }
  }
}
