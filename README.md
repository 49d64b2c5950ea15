# HamsterHub tracker and simulator core in Dafny

HamsterHub tracks hamsters running in wheels. An event simulator emits
domain events (a hamster enters or leaves a wheel, a wheel spins for some
milliseconds, a sensor fails); the tracker keeps per-wheel occupancy,
per-hamster daily rounds (one round per full 5 seconds of spin), last
activity times and alert flags, raises "hamster inactive for more than an
hour" and "sensor down for more than 30 minutes" alerts once per crossing,
and produces a daily report that lists every hamster in id order and marks
those with more than 10 rounds as active.

The model has these modules:

- `Wrappers`, `JavaInts`, `Events` (`wrappers.dfy`): `Option` for Java
  `null`, `Result` for a thrown exception, Java `int`/`long` as subset types
  with explicit two's-complement wrap-around (`Wrap32`), and the closed
  `HamsterEvent` datatype.
- `TrackerStore` (`tracker_store.dfy`): the state of the in-memory
  repository as a value (`Store`, six maps) and one function per repository
  operation, each with its effect stated and "nothing else changes".
- `Repository` (`repository.dfy`): `InMemoryHamsterTrackerRepository` as a
  class whose six map fields the methods update in place; every method is
  proved against the matching `TrackerStore` function through `Model()`.
- `StringOrder` (`string_order.dfy`): the lexicographic order of Java's
  `String.compareTo`, proved a strict total order, and the sorted listing of
  a set of keys, proved unique.
- `Reports` (`reports.dfy`): `HamsterStats`, `DailyReport` and
  `DefoltReportGenerator`.
- `Tracking` (`tracking.dfy`): the tracker's event handlers, the two
  periodic checks and the alerts they owe, as functions on `Store`.
- `TrackingProperties` (`tracking_properties.dfy`): properties relating
  several operations (alerts once, never losing rounds, a state invariant
  every operation keeps) and the scenarios of the service's unit tests.
- `TrackerService` (`tracker_service.dfy`): `HamsterTrackerService` as a
  class over the repository, with the alert service as a recorded sequence
  of alerts; every method is proved against `Tracking`.
- `EventGenerator` (`event_generator.dfy`): configuration validation, the
  sensors' identifiers and round-robin hamster assignment, the per-sensor
  state machine with its random draws as inputs, and one tick over all
  sensors.

The clock is an input: every event handler and sweep takes `now` in
milliseconds, and `generateDailyReport` takes the report date. An alert is
recorded as its kind, its subject (hamster or sensor id) and the whole
minutes elapsed. The message text around them is not modelled.

Two points where the program's comments or types say less than its calls
do; the model follows the calls:

- The comment at `EventGenerator.java:60` says a failure lasts 5–20 seconds,
  but `nextInt(5, 20)` draws from [5, 19]; the model keeps [5, 19].
  `failureTicks` is assigned and never read, and no code path resets
  `failed`, so a failed sensor is silent for good (`FailedSensorStaysSilent`).
- Rounds are counted in a Java `int`: the cast `(int) (ms / ROUND_MS)` at
  `HamsterTrackerService.java:109` and `addAndGet` at
  `InMemoryHamsterTrackerRepository.java:47` wrap around, and the model
  wraps them too (`Wrap32`).

`HamsterTrackerService.Valid()` is the flag invariant `Coherent` on the
repository's state: a stored flag is always `true` (clearing removes the
entry), a flagged hamster has a last-activity time, and a flagged sensor has
a failure record. The constructor assumes it of the repository it is given
(a fresh repository meets it, `EmptyStoreCoherent`) and every method keeps it;
`TrackingProperties` proves it is preserved by each operation on `Store`.
No other postcondition depends on it: it records the shape every reachable
repository state has, and the "alerts once" properties hold without it.

## Model

| member | source | states |
|---|---|---|
| JavaInts.Wrap32 | tracker/src/main/java/org/example/tracker/db/InMemoryHamsterTrackerRepository.java:47 | the 32-bit result differs from the exact value by a multiple of 2^32 and equals it when it is in `int` range |
| TrackerStore.SetOccupant | tracker/src/main/java/org/example/tracker/db/InMemoryHamsterTrackerRepository.java:29-33 | with both ids present the wheel's occupant becomes the hamster; other wheels and all other maps unchanged; a null id changes nothing |
| TrackerStore.ClearOccupantIfMatches | tracker/src/main/java/org/example/tracker/db/InMemoryHamsterTrackerRepository.java:35-39 | the wheel becomes empty exactly when its occupant is the given hamster; otherwise, or with a null id, nothing changes |
| TrackerStore.AddRounds | tracker/src/main/java/org/example/tracker/db/InMemoryHamsterTrackerRepository.java:41-48 | null hamster returns 0; delta 0 returns the current count and changes nothing; otherwise the counter (created at 0) becomes the wrapped sum, that sum is returned, and nothing else changes |
| TrackerStore.RoundsSnapshot | tracker/src/main/java/org/example/tracker/db/InMemoryHamsterTrackerRepository.java:57-62 | the snapshot has exactly the counted hamsters, each with `getRounds` of it |
| TrackerStore.ResetDailyRounds | tracker/src/main/java/org/example/tracker/db/InMemoryHamsterTrackerRepository.java:64-67 | every count reads 0, the set of counted hamsters is kept, nothing else changes |
| TrackerStore.UpdateLastActivity | tracker/src/main/java/org/example/tracker/db/InMemoryHamsterTrackerRepository.java:69-73 | the hamster's last activity becomes `when`, every other entry and map is kept; a null id changes nothing |
| TrackerStore.SetInactivityAlerted | tracker/src/main/java/org/example/tracker/db/InMemoryHamsterTrackerRepository.java:86-94 | the flag then reads `alerted`; clearing removes the entry; other entries and maps unchanged; null id changes nothing |
| TrackerStore.MarkSensorFailed | tracker/src/main/java/org/example/tracker/db/InMemoryHamsterTrackerRepository.java:96-100 | returns true exactly when the id is present and not yet recorded, then records `since` for it and adds nothing else; otherwise nothing changes |
| TrackerStore.ClearSensorFailure | tracker/src/main/java/org/example/tracker/db/InMemoryHamsterTrackerRepository.java:102-106 | the sensor's failure record is removed and nothing else changes; a null id changes nothing |
| TrackerStore.SetSensorAlerted | tracker/src/main/java/org/example/tracker/db/InMemoryHamsterTrackerRepository.java:119-127 | the flag then reads `alerted`; clearing removes the entry; other entries and maps unchanged; null id changes nothing |
| TrackerStore.SetOccupantOverwrites | tracker/src/main/java/org/example/tracker/db/InMemoryHamsterTrackerRepository.java:29-33 | a second `setOccupant` on a wheel replaces the first entirely |
| TrackerStore.ResetIdempotent | tracker/src/main/java/org/example/tracker/db/InMemoryHamsterTrackerRepository.java:64-67 | resetting twice equals resetting once and keeps the snapshot's key set |
| TrackerStore.MarkSensorFailedWriteOnce | tracker/src/main/java/org/example/tracker/db/InMemoryHamsterTrackerRepository.java:96-100 | a second failure mark returns false and keeps the first timestamp |
| Repository.InMemoryHamsterTrackerRepository.constructor | tracker/src/main/java/org/example/tracker/db/InMemoryHamsterTrackerRepository.java:16-21 | a new repository holds six empty maps |
| Repository.InMemoryHamsterTrackerRepository.GetOccupant | tracker/src/main/java/org/example/tracker/db/InMemoryHamsterTrackerRepository.java:23-27 | returns the stored occupant of the wheel, null for a null or unknown wheel |
| Repository.InMemoryHamsterTrackerRepository.SetOccupant | tracker/src/main/java/org/example/tracker/db/InMemoryHamsterTrackerRepository.java:29-33 | the new state is `TrackerStore.SetOccupant` of the old one |
| Repository.InMemoryHamsterTrackerRepository.ClearOccupantIfMatches | tracker/src/main/java/org/example/tracker/db/InMemoryHamsterTrackerRepository.java:35-39 | the new state is `TrackerStore.ClearOccupantIfMatches` of the old one |
| Repository.InMemoryHamsterTrackerRepository.AddRounds | tracker/src/main/java/org/example/tracker/db/InMemoryHamsterTrackerRepository.java:41-48 | new state and returned total are `TrackerStore.AddRounds` of the old state |
| Repository.InMemoryHamsterTrackerRepository.GetRounds | tracker/src/main/java/org/example/tracker/db/InMemoryHamsterTrackerRepository.java:50-55 | returns the hamster's count, 0 for null or uncounted hamsters |
| Repository.InMemoryHamsterTrackerRepository.GetAllRoundsSnapshot | tracker/src/main/java/org/example/tracker/db/InMemoryHamsterTrackerRepository.java:57-62 | returns `TrackerStore.RoundsSnapshot` of the state |
| Repository.InMemoryHamsterTrackerRepository.ResetDailyRounds | tracker/src/main/java/org/example/tracker/db/InMemoryHamsterTrackerRepository.java:64-67 | the loop over the counters ends in `TrackerStore.ResetDailyRounds` of the old state |
| Repository.InMemoryHamsterTrackerRepository.UpdateLastActivity | tracker/src/main/java/org/example/tracker/db/InMemoryHamsterTrackerRepository.java:69-73 | the new state is `TrackerStore.UpdateLastActivity` of the old one |
| Repository.InMemoryHamsterTrackerRepository.GetAllLastActivity | tracker/src/main/java/org/example/tracker/db/InMemoryHamsterTrackerRepository.java:75-78 | returns a copy of the last-activity map |
| Repository.InMemoryHamsterTrackerRepository.IsInactivityAlerted | tracker/src/main/java/org/example/tracker/db/InMemoryHamsterTrackerRepository.java:80-84 | returns the stored flag, false for null or absent ids |
| Repository.InMemoryHamsterTrackerRepository.SetInactivityAlerted | tracker/src/main/java/org/example/tracker/db/InMemoryHamsterTrackerRepository.java:86-94 | the new state is `TrackerStore.SetInactivityAlerted` of the old one |
| Repository.InMemoryHamsterTrackerRepository.MarkSensorFailed | tracker/src/main/java/org/example/tracker/db/InMemoryHamsterTrackerRepository.java:96-100 | new state and result are `TrackerStore.MarkSensorFailed` of the old state |
| Repository.InMemoryHamsterTrackerRepository.ClearSensorFailure | tracker/src/main/java/org/example/tracker/db/InMemoryHamsterTrackerRepository.java:102-106 | the new state is `TrackerStore.ClearSensorFailure` of the old one |
| Repository.InMemoryHamsterTrackerRepository.GetAllSensorFailures | tracker/src/main/java/org/example/tracker/db/InMemoryHamsterTrackerRepository.java:108-111 | returns a copy of the failure map |
| Repository.InMemoryHamsterTrackerRepository.IsSensorAlerted | tracker/src/main/java/org/example/tracker/db/InMemoryHamsterTrackerRepository.java:113-117 | returns the stored flag, false for null or absent ids |
| Repository.InMemoryHamsterTrackerRepository.SetSensorAlerted | tracker/src/main/java/org/example/tracker/db/InMemoryHamsterTrackerRepository.java:119-127 | the new state is `TrackerStore.SetSensorAlerted` of the old one |
| StringOrder.LessIrreflexive | tracker/src/main/java/org/example/tracker/domain/DefoltReportGenerator.java:26 | no id sorts before itself |
| StringOrder.LessTransitive | tracker/src/main/java/org/example/tracker/domain/DefoltReportGenerator.java:26 | the key order is transitive |
| StringOrder.LessTotal | tracker/src/main/java/org/example/tracker/domain/DefoltReportGenerator.java:26 | any two different ids are ordered one way or the other |
| StringOrder.LessAsymmetric | tracker/src/main/java/org/example/tracker/domain/DefoltReportGenerator.java:26 | two ids are never ordered both ways |
| StringOrder.LessIsStrictTotalOrder | tracker/src/main/java/org/example/tracker/domain/DefoltReportGenerator.java:26 | the key order is a strict total order |
| StringOrder.LeastExists | tracker/src/main/java/org/example/tracker/domain/DefoltReportGenerator.java:26 | every non-empty set of ids has a least element |
| StringOrder.Least | tracker/src/main/java/org/example/tracker/domain/DefoltReportGenerator.java:26 | the result is in the set and below every other element |
| StringOrder.SortedElements | tracker/src/main/java/org/example/tracker/domain/DefoltReportGenerator.java:25-27 | the listing is strictly ascending, has exactly the set's elements, and as many |
| StringOrder.StrictlySortedUnique | tracker/src/main/java/org/example/tracker/domain/DefoltReportGenerator.java:25-27 | two strictly ascending listings of the same ids are equal, so the sorted order is determined |
| Reports.BuildStats | tracker/src/main/java/org/example/tracker/domain/DefoltReportGenerator.java:24-32 | one entry per hamster of the snapshot with its rounds, active exactly when rounds exceed 10, in strictly ascending id order |
| Reports.StatsFor | tracker/src/main/java/org/example/tracker/domain/DefoltReportGenerator.java:28-31 | one entry keeps the hamster's id and rounds and is active exactly when the rounds exceed 10 |
| Reports.IdsAreSortedKeys | tracker/src/main/java/org/example/tracker/domain/DefoltReportGenerator.java:25-32 | the report's id sequence is the sorted listing of the snapshot's keys |
| Reports.IdsOfBuildStats | tracker/src/main/java/org/example/tracker/domain/DefoltReportGenerator.java:25-32 | any strictly ascending listing of the snapshot's keys is the report's id sequence |
| Reports.LexicographicOrderExample | tracker/src/test/java/org/example/tracker/GeneratorTest.java:32-46 | hamsters h2, h10, h1 are reported as h1, h10, h2 |
| Reports.ActiveThresholdExample | tracker/src/test/java/org/example/tracker/GeneratorTest.java:16-30 | 10 rounds is not active, 11 rounds is |
| Reports.DefoltReportGenerator.constructor | tracker/src/main/java/org/example/tracker/domain/DefoltReportGenerator.java:15-17 | the generator reads the given repository |
| Reports.DefoltReportGenerator.GenerateDailyReport | tracker/src/main/java/org/example/tracker/domain/DefoltReportGenerator.java:20-35 | the report carries the given date and `BuildStats` of the rounds snapshot |
| Tracking.Touch | tracker/src/main/java/org/example/tracker/domain/HamsterTrackerService.java:131-135 | a present hamster gets last activity `now` and its inactivity flag cleared; nothing else changes; null changes nothing |
| Tracking.HandleEnter | tracker/src/main/java/org/example/tracker/domain/HamsterTrackerService.java:73-83 | with both ids present the wheel's occupant becomes the hamster (a duplicate enter, or a null id, leaves occupancy as is); a null hamster changes nothing at all; other wheels unchanged, the hamster is touched, rounds and sensor data unchanged |
| Tracking.HandleExit | tracker/src/main/java/org/example/tracker/domain/HamsterTrackerService.java:85-96 | the wheel is emptied exactly when the exiting hamster occupies it, other wheels unchanged, the exiting hamster is touched either way; a null hamster changes nothing |
| Tracking.SpinRounds | tracker/src/main/java/org/example/tracker/domain/HamsterTrackerService.java:109 | a spin shorter than 5 s gives 0 rounds; in `int` range the rounds are the whole 5-second periods of the spin |
| Tracking.HandleWheelSpin | tracker/src/main/java/org/example/tracker/domain/HamsterTrackerService.java:98-118 | non-positive durations and empty wheels change nothing; otherwise the occupant is credited its whole rounds (none for a short spin) and touched; occupancy and sensor data unchanged |
| Tracking.HandleSensorFailure | tracker/src/main/java/org/example/tracker/domain/HamsterTrackerService.java:120-129 | a first failure records `now` and clears the sensor's alert flag; a repeated or null one changes nothing |
| Tracking.Accept | tracker/src/main/java/org/example/tracker/domain/HamsterTrackerService.java:55-71 | a null event changes nothing; an event dispatches to its handler: it touches only the hamster it names and sensor failures change only sensor data |
| Tracking.InactivityDue | tracker/src/main/java/org/example/tracker/domain/HamsterTrackerService.java:153-155 | only tracked hamsters that are not flagged are due, each with at least 60 idle minutes |
| Tracking.SensorsDownDue | tracker/src/main/java/org/example/tracker/domain/HamsterTrackerService.java:165-167 | only failed sensors that are not flagged are due, each with at least 30 down minutes |
| Tracking.AfterInactivityCheck | tracker/src/main/java/org/example/tracker/domain/HamsterTrackerService.java:150-160 | afterwards a hamster is flagged exactly when it was flagged before or was idle for more than an hour; nothing else changes |
| Tracking.AfterSensorsDownCheck | tracker/src/main/java/org/example/tracker/domain/HamsterTrackerService.java:162-172 | afterwards a sensor is flagged exactly when it was flagged before or was down for more than 30 minutes; nothing else changes |
| Tracking.DistinctSubjectsCount | tracker/src/main/java/org/example/tracker/domain/HamsterTrackerService.java:152-159 | alerts with pairwise different subjects name as many subjects as there are alerts |
| Tracking.AlertsExactlyCount | tracker/src/main/java/org/example/tracker/domain/HamsterTrackerService.java:152-159 | a sweep that alerts each due subject once sends exactly as many alerts as there are due subjects, naming exactly them |
| Tracking.AlertsInTwoPhasesConcat | tracker/src/main/java/org/example/tracker/domain/HamsterTrackerService.java:137-148 | the alerts of the inactivity sweep followed by those of the sensor sweep split back into the two sweeps |
| Tracking.SensorsDownDueAfterInactivityCheck | tracker/src/main/java/org/example/tracker/domain/HamsterTrackerService.java:137-148 | the inactivity sweep does not change which sensors the sensor sweep then alerts |
| Tracking.AlertsExactlyStep | tracker/src/main/java/org/example/tracker/domain/HamsterTrackerService.java:152-159 | visiting one more entry, and alerting it exactly when due, keeps "each visited due entry alerted once" |
| Tracking.InactivityDueAt | tracker/src/main/java/org/example/tracker/domain/HamsterTrackerService.java:154-155 | a hamster is due exactly when idle strictly more than an hour and not flagged, with its idle whole minutes |
| Tracking.SensorsDownDueAt | tracker/src/main/java/org/example/tracker/domain/HamsterTrackerService.java:166-167 | a sensor is due exactly when down strictly more than 30 minutes and not flagged, with its down whole minutes |
| TrackingProperties.WheelSpinCreditsWholeRounds | tracker/src/main/java/org/example/tracker/domain/HamsterTrackerService.java:98-118 | without overflow, a spin adds exactly `ms / 5000` rounds to the occupant and records its activity |
| TrackingProperties.ShortSpinOnlyTouches | tracker/src/main/java/org/example/tracker/domain/HamsterTrackerService.java:110-114 | a spin under 5 s leaves rounds unchanged and only touches the occupant |
| TrackingProperties.AcceptNeverLowersRounds | tracker/src/main/java/org/example/tracker/domain/HamsterTrackerService.java:55-118 | without overflow no event lowers any hamster's round count |
| TrackingProperties.InactivityFlagClearedOnlyByTouch | tracker/src/main/java/org/example/tracker/domain/HamsterTrackerService.java:131-135 | after an event the touched hamster is unflagged and every other hamster keeps its flag |
| TrackingProperties.RepeatedSensorFailureIsNoOp | tracker/src/main/java/org/example/tracker/domain/HamsterTrackerService.java:120-129 | a failure of an already failed sensor leaves the whole state unchanged |
| TrackingProperties.InactivityAlertsOnce | tracker/src/main/java/org/example/tracker/domain/HamsterTrackerService.java:150-160 | a hamster alerted by one sweep is not alerted by any later sweep until touched; a repeated sweep alerts nobody |
| TrackingProperties.SensorDownAlertsOnce | tracker/src/main/java/org/example/tracker/domain/HamsterTrackerService.java:162-172 | a sensor alerted by one sweep is not alerted again by a later sweep; a repeated sweep alerts nobody |
| TrackingProperties.ThresholdsAreStrict | tracker/src/main/java/org/example/tracker/domain/HamsterTrackerService.java:155 | exactly one hour idle or exactly 30 minutes down is not yet due |
| TrackingProperties.EmptyStoreCoherent | tracker/src/main/java/org/example/tracker/db/InMemoryHamsterTrackerRepository.java:16-21 | the empty repository satisfies the flag invariant |
| TrackingProperties.AcceptPreservesCoherent | tracker/src/main/java/org/example/tracker/domain/HamsterTrackerService.java:55-135 | every event keeps the invariant: stored flags are true, a flagged hamster has an activity time, a flagged sensor a failure record |
| TrackingProperties.InactivityCheckPreservesCoherent | tracker/src/main/java/org/example/tracker/domain/HamsterTrackerService.java:150-160 | the inactivity sweep keeps the invariant |
| TrackingProperties.SensorsDownCheckPreservesCoherent | tracker/src/main/java/org/example/tracker/domain/HamsterTrackerService.java:162-172 | the sensor sweep keeps the invariant |
| TrackingProperties.ResetPreservesCoherent | tracker/src/main/java/org/example/tracker/domain/HamsterTrackerService.java:195-200 | the daily reset keeps the invariant |
| TrackingProperties.WheelSpinAddsOnlyFullRoundsScenario | tracker/src/test/java/org/example/tracker/HamsterTrackerServiceTest.java:35-39 | enter then a 10500 ms spin gives 2 rounds |
| TrackingProperties.NegativeSpinIgnoredShortSpinTouchesScenario | tracker/src/test/java/org/example/tracker/HamsterTrackerServiceTest.java:42-53 | a negative spin changes nothing; a 4999 ms spin adds no rounds but moves last activity to its time |
| TrackingProperties.DuplicateEnterScenario | tracker/src/test/java/org/example/tracker/HamsterTrackerServiceTest.java:56-65 | a repeated enter keeps the occupant and refreshes its activity |
| TrackingProperties.ExitOfAnotherHamsterScenario | tracker/src/test/java/org/example/tracker/HamsterTrackerServiceTest.java:68-74 | an exit by a non-occupant keeps the occupant and records the exiting hamster's activity |
| TrackingProperties.InactivityAlertScenario | tracker/src/test/java/org/example/tracker/HamsterTrackerServiceTest.java:77-89 | with h1 idle 2 h and h2 idle 30 min the sweep sends one alert, for h1 with 120 minutes, and flags h1 |
| TrackingProperties.SensorDownAlertScenario | tracker/src/test/java/org/example/tracker/HamsterTrackerServiceTest.java:92-104 | with s1 down 31 min and s2 down 5 min the sweep sends one alert, for s1 with 31 minutes, and flags s1 |
| TrackingProperties.DailyReportResetsRoundsScenario | tracker/src/test/java/org/example/tracker/HamsterTrackerServiceTest.java:107-118 | after a 15000 ms spin the hamster has 3 rounds and after the daily reset 0 |
| TrackerService.HamsterTrackerService.constructor | tracker/src/main/java/org/example/tracker/domain/HamsterTrackerService.java:40-46 | the service works on the given repository and generator and has sent no alerts |
| TrackerService.HamsterTrackerService.Accept | tracker/src/main/java/org/example/tracker/domain/HamsterTrackerService.java:55-71 | the repository ends in `Tracking.Accept` of its old state, and the invariant is kept |
| TrackerService.HamsterTrackerService.HandleEnter | tracker/src/main/java/org/example/tracker/domain/HamsterTrackerService.java:73-83 | the repository ends in `Tracking.HandleEnter` of its old state |
| TrackerService.HamsterTrackerService.HandleExit | tracker/src/main/java/org/example/tracker/domain/HamsterTrackerService.java:85-96 | the repository ends in `Tracking.HandleExit` of its old state |
| TrackerService.HamsterTrackerService.HandleWheelSpin | tracker/src/main/java/org/example/tracker/domain/HamsterTrackerService.java:98-118 | the repository ends in `Tracking.HandleWheelSpin` of its old state |
| TrackerService.HamsterTrackerService.HandleSensorFailure | tracker/src/main/java/org/example/tracker/domain/HamsterTrackerService.java:120-129 | the repository ends in `Tracking.HandleSensorFailure` of its old state |
| TrackerService.HamsterTrackerService.Touch | tracker/src/main/java/org/example/tracker/domain/HamsterTrackerService.java:131-135 | the repository ends in `Tracking.Touch` of its old state |
| TrackerService.HamsterTrackerService.SendAlert | tracker/src/main/java/org/example/tracker/domain/HamsterTrackerService.java:202-208 | the alert is appended to the alerts sent |
| TrackerService.HamsterTrackerService.CheckInactivity | tracker/src/main/java/org/example/tracker/domain/HamsterTrackerService.java:150-160 | the repository ends in `Tracking.AfterInactivityCheck`; the alerts added are exactly one per due hamster with its idle minutes; earlier alerts kept; invariant kept |
| TrackerService.HamsterTrackerService.CheckSensorsDown | tracker/src/main/java/org/example/tracker/domain/HamsterTrackerService.java:162-172 | the repository ends in `Tracking.AfterSensorsDownCheck`; the alerts added are exactly one per due sensor with its down minutes; earlier alerts kept; invariant kept |
| TrackerService.HamsterTrackerService.CheckInactivityOf | tracker/src/main/java/org/example/tracker/domain/HamsterTrackerService.java:153-158 | one entry of the inactivity sweep: a due hamster gets one alert with its idle minutes and its flag; any other entry changes nothing |
| TrackerService.HamsterTrackerService.CheckSensorDownOf | tracker/src/main/java/org/example/tracker/domain/HamsterTrackerService.java:165-170 | one entry of the sensor sweep: a due sensor gets one alert with its down minutes and its flag; any other entry changes nothing |
| TrackerService.HamsterTrackerService.RunPeriodicChecks | tracker/src/main/java/org/example/tracker/domain/HamsterTrackerService.java:137-148 | the inactivity sweep at its own instant, then the sensor sweep at its own later-read instant: state after both, earlier alerts kept, and the new alerts are exactly those due in the first sweep followed by those due in the second, which the first sweep does not alter |
| TrackerService.HamsterTrackerService.GenerateDailyReport | tracker/src/main/java/org/example/tracker/domain/HamsterTrackerService.java:195-200 | the report is built from the rounds before the reset, then every count is reset |
| EventGenerator.ValidateConfig | event-simulator/src/main/java/org/example/eventsimulator/domain/EventGenerator.java:21-27 | no error exactly when both counts are in [1, 10000]; an out-of-range hamster count is reported first |
| EventGenerator.DigitChar | event-simulator/src/main/java/org/example/eventsimulator/domain/EventGenerator.java:36 | a digit below 10 becomes the character with that digit value |
| EventGenerator.Decimal | event-simulator/src/main/java/org/example/eventsimulator/domain/EventGenerator.java:36 | the rendering is a non-empty string of digits without a leading zero |
| EventGenerator.DecimalRoundTrip | event-simulator/src/main/java/org/example/eventsimulator/domain/EventGenerator.java:36 | reading the rendering back gives the number |
| EventGenerator.DecimalInjective | event-simulator/src/main/java/org/example/eventsimulator/domain/EventGenerator.java:36 | different numbers render differently |
| EventGenerator.HamsterNumber | event-simulator/src/main/java/org/example/eventsimulator/domain/EventGenerator.java:35 | every sensor's hamster number lies in [1, hamsterCount]; the first sensors take hamsters 1, 2, … in order |
| EventGenerator.PrefixCancels | event-simulator/src/main/java/org/example/eventsimulator/domain/EventGenerator.java:36 | equal ids with the same prefix have equal number parts |
| EventGenerator.NumberedIdOf | event-simulator/src/main/java/org/example/eventsimulator/domain/EventGenerator.java:36 | a prefix followed by a rendered number reads back as that prefix and number |
| EventGenerator.IdsAtNumbered | event-simulator/src/main/java/org/example/eventsimulator/domain/EventGenerator.java:35-36 | sensor `i` is `sensor-(i+1)` on `wheel-(i+1)`, and its hamster is `hamster-k` for some k in [1, hamsterCount] |
| EventGenerator.IdsAtDistinct | event-simulator/src/main/java/org/example/eventsimulator/domain/EventGenerator.java:33-37 | different sensors have different sensor ids and different wheel ids |
| EventGenerator.RoundRobin | event-simulator/src/main/java/org/example/eventsimulator/domain/EventGenerator.java:35-36 | two sensors share a hamster exactly when their indices agree modulo the hamster count |
| EventGenerator.Cooldown | event-simulator/src/main/java/org/example/eventsimulator/domain/EventGenerator.java:85 | the cooldown is at least one tick and at least half the spin's seconds, and is one of the two |
| EventGenerator.Step | event-simulator/src/main/java/org/example/eventsimulator/domain/EventGenerator.java:54-89 | failure is permanent and a failed sensor is silent and frozen; a failure event comes exactly when a working sensor breaks, with code in [500, 509] and `failureTicks` in [5, 19]; a cooling sensor only counts down; occupancy flips exactly with an enter or exit, enter only into an empty wheel, exit and spin only from an occupied one; a spin lasts 1 to 30 whole seconds and sets the cooldown from them; given the draws the outcome is determined: the failure's code is 500 plus the offset drawn, the spin's length is the second count drawn, and a working sensor without cooldown enters exactly when empty and the move draw fires, exits exactly when occupied and it fires, and spins exactly when occupied and it does not |
| EventGenerator.Run | event-simulator/src/main/java/org/example/eventsimulator/domain/EventGenerator.java:40-46 | one outcome per tick, each the `Step` of the fields left by the ticks before it; the behavioural promises over a run are stated by `FailedSensorStaysSilent`, `AtMostOneFailure` and `RunIsConsistent` |
| EventGenerator.FailedSensorStaysSilent | event-simulator/src/main/java/org/example/eventsimulator/domain/EventGenerator.java:57-65 | a failed sensor emits nothing and never changes on any later tick |
| EventGenerator.AtMostOneFailure | event-simulator/src/main/java/org/example/eventsimulator/domain/EventGenerator.java:57-65 | a sensor reports at most one failure over any run, none once failed |
| EventGenerator.RunIsConsistent | event-simulator/src/main/java/org/example/eventsimulator/domain/EventGenerator.java:73-87 | over any run, enters and exits alternate starting from the sensor's occupancy, spins happen only while occupied, and the final occupancy is the one the events imply |
| EventGenerator.FreshSensorStartsWithEnter | event-simulator/src/main/java/org/example/eventsimulator/domain/EventGenerator.java:96-100 | a newly built sensor never emits an exit or a spin first |
| EventGenerator.SensorState.constructor | event-simulator/src/main/java/org/example/eventsimulator/domain/EventGenerator.java:102-106 | the ids are the given ones and the four mutable fields start false, 0, false, 0 |
| EventGenerator.MaybeEventForSensor | event-simulator/src/main/java/org/example/eventsimulator/domain/EventGenerator.java:54-89 | the sensor's new fields and the returned event are `Step` of its old fields |
| EventGenerator.Stream | event-simulator/src/main/java/org/example/eventsimulator/domain/EventGenerator.java:21-37 | fails exactly when `ValidateConfig` does, with its error; otherwise returns `sensorCount` fresh, distinct sensors with the ids of `IdsAt` and initial fields |
| EventGenerator.Emitted | event-simulator/src/main/java/org/example/eventsimulator/domain/EventGenerator.java:44 | null outcomes are dropped: never more events than outcomes, and an event is emitted exactly when it is one of the outcomes |
| EventGenerator.EmittedOne | event-simulator/src/main/java/org/example/eventsimulator/domain/EventGenerator.java:44 | a single outcome yields its event, or nothing when it is null |
| EventGenerator.EmittedAppend | event-simulator/src/main/java/org/example/eventsimulator/domain/EventGenerator.java:44 | emitting keeps order: the events of two runs of outcomes are the events of the first followed by those of the second |
| EventGenerator.Tick | event-simulator/src/main/java/org/example/eventsimulator/domain/EventGenerator.java:42-44 | every sensor in index order takes one `Step`; the events are the non-null outcomes, at most one per sensor |

## Left out

- Concurrency: the repository's concurrent maps, the atomic counters and the scheduler thread are modelled as sequential state; each operation is atomic in the model.
- HashMap iteration order: the two sweeps visit entries in an unspecified order (`:|`), and their alerts are specified as a set of exactly-once alerts, not as a sequence.
- Time: `Instant.now()` and `LocalDate.now()` are parameters (milliseconds, a day number); the scheduling at 60 s and at midnight (`start`, `scheduleDailyReportAtMidnight`, `secondsUntilNextMidnight`) is left out because it is clock arithmetic on the host's time zone.
- Durations are whole milliseconds; `Duration.between` works in nanoseconds, so sub-millisecond differences at the exact thresholds are not modelled.
- Logging, the alert message text and the exception handlers (`try`/`catch` in `accept`, `runPeriodicChecksSafe`, `generateDailyReportSafe`, `sendAlertSafe`) are left out: nothing in the model throws.
- The `default` branch of `accept` (unknown event type) cannot occur: `HamsterEvent` is closed.
- The null checks on keys and values inside the sweeps cannot fire: snapshots of the model's maps hold no null.
- Probabilities: `perTickProbability` and `nextDouble() < p` are floating point; each comparison is a boolean input of `Draws`.
- The Flux pipeline (`Flux.interval`, back-pressure drop, `flatMap` parallelism and pacing) is left out; one tick is `Tick` over the sensor array, in index order.
- `failureTicks` is stored on the sensor and the error code travels in the `SensorFailure` event; `Step` pins both to the draws (`failureTicks` in [5, 19], code `500 + errorOffset`), but the simulator never reads `failureTicks` and the tracker only logs the code (`HamsterTrackerService.java:125,127`), so no other property depends on them.
- Null instants: `updateLastActivity` and `markSensorFailed` return early on a null `Instant` (`InMemoryHamsterTrackerRepository.java:71,98`); the model's `Instant` is an `int` and cannot be null, and every service call passes `Instant.now()`, so that path is not expressed.
- Collaborator interfaces: the service takes `HamsterTrackerRepository` and `ReportGenerator` interfaces (`HamsterTrackerService.java:22-24,40-42`); the model holds the concrete `InMemoryHamsterTrackerRepository` and `DefoltReportGenerator`, so other implementations (such as the mock generator of the service's unit test) are not modelled.
- `DailyReport.hamsterStats` is a `LinkedHashMap`; the model keeps its entry sequence, which is in insertion order.
- Java strings compare by UTF-16 code units; `StringOrder.Less` compares Dafny characters, which agree on the Basic Multilingual Plane.
- Controllers, JSON mapping, the simulator service and the HTTP client are not part of this model.
- TrackingProperties.WheelSpinCreditsWholeRounds: states the exact credit only when no 32-bit overflow occurs; the wrapped case is covered by `Tracking.HandleWheelSpin`.
- TrackingProperties.AcceptNeverLowersRounds: requires that the credited rounds do not overflow the `int` counter, because a wrapped counter can decrease.
