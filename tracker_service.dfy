/** `HamsterTrackerService`: applies events to the repository, runs the two
    periodic checks, and produces the daily report. Every method is proved
    against the functions of `Tracking`. */
module TrackerService {
  import opened Wrappers
  import opened JavaInts
  import opened Events
  import S = TrackerStore
  import opened Tracking
  import Repository
  import Reports
  import TrackingProperties

  class HamsterTrackerService {
    const repository: Repository.InMemoryHamsterTrackerRepository
    const reportGenerator: Reports.DefoltReportGenerator
    /** Every alert handed to the alert service, in order. */
    var alerts: seq<Alert>

    ghost predicate Valid()
      reads repository
    {
      Coherent(repository.Model())
    }

    constructor (repository: Repository.InMemoryHamsterTrackerRepository,
                 reportGenerator: Reports.DefoltReportGenerator)
      requires Coherent(repository.Model())
      ensures Valid()
      ensures this.repository == repository && this.reportGenerator == reportGenerator
      ensures alerts == []
    {
      this.repository := repository;
      this.reportGenerator := reportGenerator;
      alerts := [];
    }

    method Accept(event: Option<HamsterEvent>, now: S.Instant)
      requires Valid()
      modifies repository
      ensures Valid()
      ensures repository.Model() == Tracking.Accept(old(repository.Model()), event, now)
    {
      TrackingProperties.AcceptPreservesCoherent(repository.Model(), event, now);
      if event.None? {
        return;
      }
      match event.value
      case HamsterEnter(h, w) => HandleEnter(h, w, now);
      case HamsterExit(h, w) => HandleExit(h, w, now);
      case WheelSpin(w, ms) => HandleWheelSpin(w, ms, now);
      case SensorFailure(id, _) => HandleSensorFailure(id, now);
    }

    method HandleEnter(hamsterId: JString, wheelId: JString, now: S.Instant)
      modifies repository
      ensures repository.Model() == Tracking.HandleEnter(old(repository.Model()), hamsterId, wheelId, now)
    {
      var current := repository.GetOccupant(wheelId);
      if current == hamsterId {
        // duplicate enter: only the activity is recorded
        Touch(hamsterId, now);
        return;
      }
      repository.SetOccupant(wheelId, hamsterId);
      Touch(hamsterId, now);
    }

    method HandleExit(hamsterId: JString, wheelId: JString, now: S.Instant)
      modifies repository
      ensures repository.Model() == Tracking.HandleExit(old(repository.Model()), hamsterId, wheelId, now)
    {
      var current := repository.GetOccupant(wheelId);
      if current != hamsterId {
        // exit of a hamster that is not the occupant: only the activity is recorded
        Touch(hamsterId, now);
        return;
      }
      repository.ClearOccupantIfMatches(wheelId, hamsterId);
      Touch(hamsterId, now);
    }

    method HandleWheelSpin(wheelId: JString, ms: Int64, now: S.Instant)
      modifies repository
      ensures repository.Model() == Tracking.HandleWheelSpin(old(repository.Model()), wheelId, ms, now)
    {
      if ms <= 0 {
        return;
      }
      var hamsterId := repository.GetOccupant(wheelId);
      if hamsterId.None? {
        return;
      }
      var rounds := Wrap32(ms / ROUND_MS);
      if rounds <= 0 {
        Touch(hamsterId, now);
        return;
      }
      var total := repository.AddRounds(hamsterId, rounds);
      Touch(hamsterId, now);
    }

    method HandleSensorFailure(sensorId: JString, now: S.Instant)
      modifies repository
      ensures repository.Model() == Tracking.HandleSensorFailure(old(repository.Model()), sensorId, now)
    {
      var firstTime := repository.MarkSensorFailed(sensorId, now);
      if firstTime {
        repository.SetSensorAlerted(sensorId, false);
      }
    }

    method Touch(hamsterId: JString, now: S.Instant)
      modifies repository
      ensures repository.Model() == Tracking.Touch(old(repository.Model()), hamsterId, now)
    {
      if hamsterId.None? {
        return;
      }
      repository.UpdateLastActivity(hamsterId, now);
      repository.SetInactivityAlerted(hamsterId, false);
    }

    /** `sendAlertSafe`: the alert service records the message. */
    method SendAlert(alert: Alert)
      modifies this
      ensures alerts == old(alerts) + [alert]
    {
      alerts := alerts + [alert];
    }

    /** Alerts every hamster idle for more than an hour that is not yet flagged,
        once each, and flags it. */
    method CheckInactivity(now: S.Instant)
      requires Valid()
      modifies this, repository
      ensures Valid()
      ensures repository.Model() == AfterInactivityCheck(old(repository.Model()), now)
      ensures |alerts| >= |old(alerts)| && alerts[..|old(alerts)|] == old(alerts)
      ensures AlertsExactly(alerts[|old(alerts)|..], HamsterInactive, InactivityDue(old(repository.Model()), now))
    {
      ghost var s0 := repository.Model();
      ghost var due := InactivityDue(s0, now);
      TrackingProperties.InactivityCheckPreservesCoherent(s0, now);
      var activity := repository.GetAllLastActivity();
      var pending := activity.Keys;
      ghost var sent: seq<Alert> := [];
      while pending != {}
        invariant activity == s0.lastActivity && pending <= activity.Keys
        invariant repository.Model() == MarkInactivityAlerted(s0, due.Keys - pending)
        invariant alerts == old(alerts) + sent
        invariant AlertsExactly(sent, HamsterInactive, due - pending)
        decreases pending
      {
        var h :| h in pending;
        ghost var next := if h in due then sent + [Alert(HamsterInactive, h, due[h])] else sent;
        AlertsExactlyStep(sent, HamsterInactive, due, pending, h, next);
        VisitedStep(due, pending, h);
        CheckInactivityOf(now, h, activity[h], s0, due.Keys - pending);
        if h in due {
          SentOneMore(old(alerts), sent, Alert(HamsterInactive, h, due[h]));
        }
        sent := next;
        pending := pending - {h};
      }
      NothingPending(due);
    }

    /** The body of the inactivity sweep for one hamster `h` last active at `last`. */
    method CheckInactivityOf(now: S.Instant, h: string, last: S.Instant,
                             ghost s0: S.Store, ghost done: set<string>)
      requires h in s0.lastActivity && last == s0.lastActivity[h] && h !in done
      requires repository.Model() == MarkInactivityAlerted(s0, done)
      modifies this, repository
      ensures h in InactivityDue(s0, now) ==>
                && repository.Model() == MarkInactivityAlerted(s0, done + {h})
                && alerts == old(alerts) + [Alert(HamsterInactive, h, InactivityDue(s0, now)[h])]
      ensures h !in InactivityDue(s0, now) ==>
                repository.Model() == old(repository.Model()) && alerts == old(alerts)
    {
      InactivityDueAt(s0, now, h);
      MarkInactivityAlertedStep(s0, done, h);
      var alerted := repository.IsInactivityAlerted(Some(h));
      if now - last > INACTIVITY_MS && !alerted {
        SendAlert(Alert(HamsterInactive, h, (now - last) / MINUTE_MS));
        repository.SetInactivityAlerted(Some(h), true);
      }
    }

    /** Alerts every sensor failed for more than 30 minutes that is not yet
        flagged, once each, and flags it. */
    method CheckSensorsDown(now: S.Instant)
      requires Valid()
      modifies this, repository
      ensures Valid()
      ensures repository.Model() == AfterSensorsDownCheck(old(repository.Model()), now)
      ensures |alerts| >= |old(alerts)| && alerts[..|old(alerts)|] == old(alerts)
      ensures AlertsExactly(alerts[|old(alerts)|..], SensorDown, SensorsDownDue(old(repository.Model()), now))
    {
      ghost var s0 := repository.Model();
      ghost var due := SensorsDownDue(s0, now);
      TrackingProperties.SensorsDownCheckPreservesCoherent(s0, now);
      var failures := repository.GetAllSensorFailures();
      var pending := failures.Keys;
      ghost var sent: seq<Alert> := [];
      while pending != {}
        invariant failures == s0.sensorFailures && pending <= failures.Keys
        invariant repository.Model() == MarkSensorsAlerted(s0, due.Keys - pending)
        invariant alerts == old(alerts) + sent
        invariant AlertsExactly(sent, SensorDown, due - pending)
        decreases pending
      {
        var id :| id in pending;
        ghost var next := if id in due then sent + [Alert(SensorDown, id, due[id])] else sent;
        AlertsExactlyStep(sent, SensorDown, due, pending, id, next);
        VisitedStep(due, pending, id);
        CheckSensorDownOf(now, id, failures[id], s0, due.Keys - pending);
        if id in due {
          SentOneMore(old(alerts), sent, Alert(SensorDown, id, due[id]));
        }
        sent := next;
        pending := pending - {id};
      }
      NothingPending(due);
    }

    /** The body of the sensor-down sweep for one sensor `id` failed since `since`. */
    method CheckSensorDownOf(now: S.Instant, id: string, since: S.Instant,
                             ghost s0: S.Store, ghost done: set<string>)
      requires id in s0.sensorFailures && since == s0.sensorFailures[id] && id !in done
      requires repository.Model() == MarkSensorsAlerted(s0, done)
      modifies this, repository
      ensures id in SensorsDownDue(s0, now) ==>
                && repository.Model() == MarkSensorsAlerted(s0, done + {id})
                && alerts == old(alerts) + [Alert(SensorDown, id, SensorsDownDue(s0, now)[id])]
      ensures id !in SensorsDownDue(s0, now) ==>
                repository.Model() == old(repository.Model()) && alerts == old(alerts)
    {
      SensorsDownDueAt(s0, now, id);
      MarkSensorsAlertedStep(s0, done, id);
      var alerted := repository.IsSensorAlerted(Some(id));
      if now - since > SENSOR_DOWN_MS && !alerted {
        SendAlert(Alert(SensorDown, id, (now - since) / MINUTE_MS));
        repository.SetSensorAlerted(Some(id), true);
      }
    }

    /** One sweep of the periodic monitor: the inactivity check, then the
        sensor-down check; each check reads the clock itself, so each has its
        own instant. */
    method RunPeriodicChecks(nowInactivity: S.Instant, nowSensors: S.Instant)
      requires Valid()
      modifies this, repository
      ensures Valid()
      ensures repository.Model() ==
                AfterSensorsDownCheck(AfterInactivityCheck(old(repository.Model()), nowInactivity), nowSensors)
      ensures |alerts| >= |old(alerts)| && alerts[..|old(alerts)|] == old(alerts)
      ensures AlertsInTwoPhases(alerts[|old(alerts)|..],
                                HamsterInactive, InactivityDue(old(repository.Model()), nowInactivity),
                                SensorDown, SensorsDownDue(old(repository.Model()), nowSensors))
    {
      ghost var s0 := repository.Model();
      ghost var a0 := alerts;
      CheckInactivity(nowInactivity);
      ghost var a1 := alerts;
      CheckSensorsDown(nowSensors);
      SensorsDownDueAfterInactivityCheck(s0, nowInactivity, nowSensors);
      AlertsInTwoPhasesConcat(a1[|a0|..], alerts[|a1|..], HamsterInactive, InactivityDue(s0, nowInactivity),
                              SensorDown, SensorsDownDue(s0, nowSensors));
      SentSuffix(alerts, a1, |a0|);
    }

    /** Builds the report from the current rounds, then resets every counter. */
    method GenerateDailyReport(today: Reports.LocalDate) returns (report: Reports.DailyReport)
      requires Valid()
      modifies repository
      ensures Valid()
      ensures report.date == today
      ensures report.hamsterStats == Reports.BuildStats(S.RoundsSnapshot(old(reportGenerator.repository.Model())))
      ensures repository.Model() == S.ResetDailyRounds(old(repository.Model()))
    {
      report := reportGenerator.GenerateDailyReport(today);
      TrackingProperties.ResetPreservesCoherent(repository.Model());
      repository.ResetDailyRounds();
    }
  }
}
