/** The daily report: `HamsterStats`, `DailyReport` and `DefoltReportGenerator`. */
module Reports {
  import opened JavaInts
  import opened StringOrder
  import S = TrackerStore
  import Repository

  /** More rounds than this in a day makes a hamster active. */
  const ACTIVE_THRESHOLD: int := 10

  /** A calendar day; which day it is comes from the caller's clock. */
  type LocalDate = int

  datatype HamsterStats = HamsterStats(hamsterId: string, totalRounds: Int32, active: bool)

  /** The report's entries in insertion order of its `LinkedHashMap`. */
  datatype DailyReport = DailyReport(date: LocalDate, hamsterStats: seq<HamsterStats>)

  /** One report entry: a hamster counts as active with more than 10 rounds. */
  function StatsFor(hamsterId: string, totalRounds: Int32): (r: HamsterStats)
    ensures r.hamsterId == hamsterId && r.totalRounds == totalRounds
    ensures r.active <==> totalRounds > ACTIVE_THRESHOLD
  {
    HamsterStats(hamsterId, totalRounds, totalRounds > ACTIVE_THRESHOLD)
  }

  /** One entry per hamster of the snapshot, in ascending id order. */
  function BuildStats(snapshot: map<string, Int32>): (stats: seq<HamsterStats>)
    ensures |stats| == |snapshot|
    ensures forall i :: 0 <= i < |stats| ==>
              && stats[i].hamsterId in snapshot
              && stats[i].totalRounds == snapshot[stats[i].hamsterId]
              && (stats[i].active <==> stats[i].totalRounds > ACTIVE_THRESHOLD)
    ensures forall h :: h in snapshot ==> exists i :: 0 <= i < |stats| && stats[i].hamsterId == h
    ensures forall i, j :: 0 <= i < j < |stats| ==> Less(stats[i].hamsterId, stats[j].hamsterId)
  {
    var ids := SortedElements(snapshot.Keys);
    var stats := seq(|ids|, i requires 0 <= i < |ids| => StatsFor(ids[i], snapshot[ids[i]]));
    assert forall i :: 0 <= i < |ids| ==> stats[i].hamsterId == ids[i];
    stats
  }

  /** The ids of a report, in order. */
  function Ids(stats: seq<HamsterStats>): seq<string> {
    seq(|stats|, i requires 0 <= i < |stats| => stats[i].hamsterId)
  }

  /** The ids of the report are the snapshot's keys in ascending order, each once. */
  lemma IdsAreSortedKeys(snapshot: map<string, Int32>)
    ensures Ids(BuildStats(snapshot)) == SortedElements(snapshot.Keys)
  {
    var stats := BuildStats(snapshot);
    var ids := Ids(stats);
    forall k ensures k in ids <==> k in SortedElements(snapshot.Keys) {
      if k in ids {
        var i :| 0 <= i < |ids| && ids[i] == k;
        assert stats[i].hamsterId in snapshot;
      }
      if k in snapshot {
        var i :| 0 <= i < |stats| && stats[i].hamsterId == k;
        assert ids[i] == k;
      }
    }
    StrictlySortedUnique(ids, SortedElements(snapshot.Keys));
  }

  /** A strictly ascending list of exactly the snapshot's ids is the report's id list. */
  lemma IdsOfBuildStats(snapshot: map<string, Int32>, expected: seq<string>)
    requires StrictlySorted(expected)
    requires forall k :: k in expected <==> k in snapshot
    ensures Ids(BuildStats(snapshot)) == expected
  {
    IdsAreSortedKeys(snapshot);
    StrictlySortedUnique(SortedElements(snapshot.Keys), expected);
  }

  /** The ordering example: ids h2, h10, h1 are reported as h1, h10, h2. */
  lemma LexicographicOrderExample()
    ensures Ids(BuildStats(map["h2" := 5, "h10" := 6, "h1" := 7])) == ["h1", "h10", "h2"]
  {
    var expected := ["h1", "h10", "h2"];
    assert Less("h1", "h10") && Less("h10", "h2") && Less("h1", "h2");
    assert StrictlySorted(expected);
    IdsOfBuildStats(map["h2" := 5, "h10" := 6, "h1" := 7], expected);
  }

  /** The threshold example: 10 rounds is not active, 11 is. */
  lemma ActiveThresholdExample()
    ensures var stats := BuildStats(map["h1" := 10, "h2" := 11]);
            |stats| == 2 && stats[0] == HamsterStats("h1", 10, false) && stats[1] == HamsterStats("h2", 11, true)
  {
    var snapshot: map<string, Int32> := map["h1" := 10, "h2" := 11];
    assert Less("h1", "h2");
    assert StrictlySorted(["h1", "h2"]);
    IdsOfBuildStats(snapshot, ["h1", "h2"]);
    var stats := BuildStats(snapshot);
    assert Ids(stats)[0] == "h1" && Ids(stats)[1] == "h2";
  }

  class DefoltReportGenerator {
    const repository: Repository.InMemoryHamsterTrackerRepository

    constructor (repository: Repository.InMemoryHamsterTrackerRepository)
      ensures this.repository == repository
    {
      this.repository := repository;
    }

    /** Reads the rounds snapshot and orders it; the repository is not changed. */
    method GenerateDailyReport(today: LocalDate) returns (report: DailyReport)
      ensures report.date == today
      ensures report.hamsterStats == BuildStats(S.RoundsSnapshot(repository.Model()))
    {
      var roundsByHamster := repository.GetAllRoundsSnapshot();
      report := DailyReport(today, BuildStats(roundsByHamster));
    }
  }
}
