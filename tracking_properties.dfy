/** Properties of the event processor and the periodic monitor that relate
    several operations, and the service's unit-test scenarios. */
module TrackingProperties {
  import opened Wrappers
  import opened JavaInts
  import opened Events
  import opened TrackerStore
  import opened Tracking

  // ----------------------------------------------------------------- wheel spin

  /** Without overflow, a positive spin on an occupied wheel credits exactly
      `ms / 5000` rounds to the occupant. */
  lemma WheelSpinCreditsWholeRounds(s: Store, w: string, ms: Int64, now: Instant)
    requires ms > 0 && GetOccupant(s, Some(w)).Some?
    requires ms / ROUND_MS < TWO_31
    requires GetRounds(s, GetOccupant(s, Some(w))) + ms / ROUND_MS < TWO_31
    ensures var h := GetOccupant(s, Some(w));
            GetRounds(HandleWheelSpin(s, Some(w), ms, now), h) == GetRounds(s, h) + ms / ROUND_MS
  {
    var h := GetOccupant(s, Some(w));
    var rounds := SpinRounds(ms);
    assert rounds == ms / ROUND_MS;
    if rounds > 0 {
      assert InInt32Range(GetRounds(s, h) + rounds);
    }
  }

  /** A spin shorter than one round counts as presence, not progress. */
  lemma ShortSpinOnlyTouches(s: Store, w: string, ms: Int64, now: Instant)
    requires 0 < ms < ROUND_MS && GetOccupant(s, Some(w)).Some?
    ensures var r := HandleWheelSpin(s, Some(w), ms, now);
            var h := GetOccupant(s, Some(w));
            r.roundsByHamster == s.roundsByHamster && r.lastActivity[h.value] == now
  {
  }

  /** Rounds only grow between resets, as long as no counter overflows. */
  lemma AcceptNeverLowersRounds(s: Store, event: HamsterEvent, now: Instant, h: string)
    requires event.WheelSpin? && event.durationMs > 0 ==>
               GetRounds(s, GetOccupant(s, event.wheelId)) + SpinRounds(event.durationMs) < TWO_31
    ensures GetRounds(Accept(s, Some(event), now), Some(h)) >= GetRounds(s, Some(h))
  {
    if event.WheelSpin? && event.durationMs > 0 && GetOccupant(s, event.wheelId) == Some(h) {
      var rounds := SpinRounds(event.durationMs);
      if rounds > 0 {
        assert InInt32Range(GetRounds(s, Some(h)) + rounds);
      }
    }
  }

  // -------------------------------------------------------------- alert flags

  /** An inactivity flag survives every event except one that touches that hamster. */
  lemma InactivityFlagClearedOnlyByTouch(s: Store, event: HamsterEvent, now: Instant, h: string)
    ensures Some(h) == TouchedBy(s, event) ==> !IsInactivityAlerted(Accept(s, Some(event), now), Some(h))
    ensures Some(h) != TouchedBy(s, event) ==>
              IsInactivityAlerted(Accept(s, Some(event), now), Some(h)) == IsInactivityAlerted(s, Some(h))
  {
    var r := Accept(s, Some(event), now);
    var t := TouchedBy(s, event);
    if t.Some? && t.value != h {
      assert h in r.inactivityAlerted - {t.value} <==> h in s.inactivityAlerted - {t.value};
    }
  }

  /** A repeated failure report while one is outstanding changes nothing,
      so a sensor-down flag raised for the current episode stays raised. */
  lemma RepeatedSensorFailureIsNoOp(s: Store, id: string, code: Int32, now: Instant)
    requires id in s.sensorFailures
    ensures Accept(s, Some(SensorFailure(Some(id), code)), now) == s
  {
  }

  /** Once swept, a hamster is not alerted again by any later sweep unless an
      event touches it in between. */
  lemma InactivityAlertsOnce(s: Store, now: Instant, later: Instant)
    ensures forall h :: h in InactivityDue(s, now) ==> h !in InactivityDue(AfterInactivityCheck(s, now), later)
    ensures InactivityDue(AfterInactivityCheck(s, now), now) == map[]
  {
    var r := AfterInactivityCheck(s, now);
    forall h | h in InactivityDue(r, now) ensures false {
      assert h in r.lastActivity && !IsInactivityAlerted(r, Some(h));
    }
  }

  /** Once swept, a sensor is not alerted again within the same failure episode. */
  lemma SensorDownAlertsOnce(s: Store, now: Instant, later: Instant)
    ensures forall id :: id in SensorsDownDue(s, now) ==> id !in SensorsDownDue(AfterSensorsDownCheck(s, now), later)
    ensures SensorsDownDue(AfterSensorsDownCheck(s, now), now) == map[]
  {
    var r := AfterSensorsDownCheck(s, now);
    forall id | id in SensorsDownDue(r, now) ensures false {
      assert id in r.sensorFailures && !IsSensorAlerted(r, Some(id));
    }
  }

  /** The thresholds are strict: exactly one hour idle, or exactly 30 minutes
      down, raises nothing. */
  lemma ThresholdsAreStrict(s: Store, h: string, id: string, now: Instant)
    requires h in s.lastActivity && s.lastActivity[h] == now - INACTIVITY_MS
    requires id in s.sensorFailures && s.sensorFailures[id] == now - SENSOR_DOWN_MS
    ensures h !in InactivityDue(s, now) && id !in SensorsDownDue(s, now)
  {
  }

  // ---------------------------------------------------------------- invariant

  lemma EmptyStoreCoherent()
    ensures Coherent(EmptyStore)
  {
  }

  lemma AcceptPreservesCoherent(s: Store, event: Option<HamsterEvent>, now: Instant)
    requires Coherent(s)
    ensures Coherent(Accept(s, event, now))
  {
    var r := Accept(s, event, now);
    if event.Some? {
      var t := TouchedBy(s, event.value);
      forall h | h in r.inactivityAlerted ensures r.inactivityAlerted[h] && h in r.lastActivity {
        if t.Some? {
          assert h != t.value;
          assert h in r.inactivityAlerted - {t.value};
          assert h in s.lastActivity - {t.value};
        }
      }
      if event.value.SensorFailure? && event.value.sensorId.Some? {
        var id := event.value.sensorId.value;
        forall x | x in r.sensorAlerted ensures r.sensorAlerted[x] && x in r.sensorFailures {
          if id !in s.sensorFailures {
            assert x != id;
            assert x in r.sensorAlerted - {id};
          }
        }
      }
    }
  }

  lemma InactivityCheckPreservesCoherent(s: Store, now: Instant)
    requires Coherent(s)
    ensures Coherent(AfterInactivityCheck(s, now))
  {
    var due := InactivityDue(s, now);
    var r := AfterInactivityCheck(s, now);
    forall h | h in r.inactivityAlerted ensures r.inactivityAlerted[h] && h in r.lastActivity {
      if h in due {
        assert h in s.lastActivity;
      } else {
        assert h in s.inactivityAlerted;
      }
    }
  }

  lemma SensorsDownCheckPreservesCoherent(s: Store, now: Instant)
    requires Coherent(s)
    ensures Coherent(AfterSensorsDownCheck(s, now))
  {
    var due := SensorsDownDue(s, now);
    var r := AfterSensorsDownCheck(s, now);
    forall id | id in r.sensorAlerted ensures r.sensorAlerted[id] && id in r.sensorFailures {
      if id in due {
        assert id in s.sensorFailures;
      } else {
        assert id in s.sensorAlerted;
      }
    }
  }

  lemma ResetPreservesCoherent(s: Store)
    requires Coherent(s)
    ensures Coherent(ResetDailyRounds(s))
  {
  }

  // ---------------------------------------------------- unit-test scenarios

  lemma WheelSpinAddsOnlyFullRoundsScenario(t0: Instant, t1: Instant)
    ensures var s1 := Accept(EmptyStore, Some(HamsterEnter(Some("h1"), Some("w1"))), t0);
            var s2 := Accept(s1, Some(WheelSpin(Some("w1"), 10_500)), t1);
            GetRounds(s2, Some("h1")) == 2
  {
    var s1 := Accept(EmptyStore, Some(HamsterEnter(Some("h1"), Some("w1"))), t0);
    assert GetOccupant(s1, Some("w1")) == Some("h1");
    WheelSpinCreditsWholeRounds(s1, "w1", 10_500, t1);
  }

  lemma NegativeSpinIgnoredShortSpinTouchesScenario(t0: Instant, t1: Instant, t2: Instant)
    ensures var s1 := Accept(EmptyStore, Some(HamsterEnter(Some("h1"), Some("w1"))), t0);
            var s2 := Accept(s1, Some(WheelSpin(Some("w1"), -1000)), t1);
            var s3 := Accept(s2, Some(WheelSpin(Some("w1"), 4_999)), t2);
            && s2 == s1 && GetRounds(s2, Some("h1")) == 0
            && GetRounds(s3, Some("h1")) == 0 && s3.lastActivity["h1"] == t2
  {
    var s1 := Accept(EmptyStore, Some(HamsterEnter(Some("h1"), Some("w1"))), t0);
    assert GetOccupant(s1, Some("w1")) == Some("h1");
    ShortSpinOnlyTouches(s1, "w1", 4_999, t2);
  }

  lemma DuplicateEnterScenario(t0: Instant, t1: Instant)
    ensures var s1 := Accept(EmptyStore, Some(HamsterEnter(Some("h1"), Some("w1"))), t0);
            var s2 := Accept(s1, Some(HamsterEnter(Some("h1"), Some("w1"))), t1);
            GetOccupant(s2, Some("w1")) == Some("h1") && s2.wheelOccupants == s1.wheelOccupants
            && s2.lastActivity["h1"] == t1
  {
  }

  lemma ExitOfAnotherHamsterScenario(t0: Instant, t1: Instant)
    ensures var s1 := Accept(EmptyStore, Some(HamsterEnter(Some("hA"), Some("w1"))), t0);
            var s2 := Accept(s1, Some(HamsterExit(Some("hB"), Some("w1"))), t1);
            GetOccupant(s2, Some("w1")) == Some("hA") && "hB" in s2.lastActivity
  {
  }

  lemma InactivityAlertScenario(now: Instant, sent: seq<Alert>)
    requires AlertsExactly(sent, HamsterInactive,
               InactivityDue(EmptyStore.(lastActivity := map["h1" := now - 2 * INACTIVITY_MS, "h2" := now - 30 * MINUTE_MS]), now))
    ensures |sent| == 1 && sent[0] == Alert(HamsterInactive, "h1", 120)
    ensures IsInactivityAlerted(AfterInactivityCheck(
              EmptyStore.(lastActivity := map["h1" := now - 2 * INACTIVITY_MS, "h2" := now - 30 * MINUTE_MS]), now), Some("h1"))
  {
    var s := EmptyStore.(lastActivity := map["h1" := now - 2 * INACTIVITY_MS, "h2" := now - 30 * MINUTE_MS]);
    var due := InactivityDue(s, now);
    assert "h1" in due && due["h1"] == 120;
    assert due == map["h1" := 120];
    AlertsExactlyCount(sent, HamsterInactive, due);
  }

  lemma SensorDownAlertScenario(now: Instant, sent: seq<Alert>)
    requires AlertsExactly(sent, SensorDown,
               SensorsDownDue(EmptyStore.(sensorFailures := map["s1" := now - 31 * MINUTE_MS, "s2" := now - 5 * MINUTE_MS]), now))
    ensures |sent| == 1 && sent[0] == Alert(SensorDown, "s1", 31)
    ensures IsSensorAlerted(AfterSensorsDownCheck(
              EmptyStore.(sensorFailures := map["s1" := now - 31 * MINUTE_MS, "s2" := now - 5 * MINUTE_MS]), now), Some("s1"))
  {
    var s := EmptyStore.(sensorFailures := map["s1" := now - 31 * MINUTE_MS, "s2" := now - 5 * MINUTE_MS]);
    var due := SensorsDownDue(s, now);
    assert "s1" in due && due["s1"] == 31;
    assert due == map["s1" := 31];
    AlertsExactlyCount(sent, SensorDown, due);
  }

  lemma DailyReportResetsRoundsScenario(t0: Instant, t1: Instant)
    ensures var s1 := Accept(EmptyStore, Some(HamsterEnter(Some("h1"), Some("w1"))), t0);
            var s2 := Accept(s1, Some(WheelSpin(Some("w1"), 15_000)), t1);
            GetRounds(s2, Some("h1")) == 3 && GetRounds(ResetDailyRounds(s2), Some("h1")) == 0
  {
    var s1 := Accept(EmptyStore, Some(HamsterEnter(Some("h1"), Some("w1"))), t0);
    assert GetOccupant(s1, Some("w1")) == Some("h1");
    WheelSpinCreditsWholeRounds(s1, "w1", 15_000, t1);
  }
}
