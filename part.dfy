/** The route part of lrs/part.py: a chain of connected geometries with its milestones,
    which calibration turns into a table of records, and the queries on that table. */
module Part {
  import opened Wrappers
  import opened Utils
  import opened Errors
  import opened Records
  import opened Milestones
  import opened Conflicts

  /** The calibration table of a list of milestones: one record per adjacent pair. */
  function RecordsBetween(ms: seq<Milestone>): (r: seq<Record>)
    ensures |r| == if |ms| < 2 then 0 else |ms| - 1
  {
    if |ms| < 2 then []
    else
      seq(|ms| - 1, i requires 0 <= i < |ms| - 1 =>
        Record(ms[i].measure, ms[i + 1].measure, ms[i].partMeasure, ms[i + 1].partMeasure))
  }

  /** The last loop of calibrate, `for i in range(len(milestones)-1): records.append(...)`. */
  method BuildRecords(ms: seq<Milestone>) returns (recs: seq<Record>)
    ensures recs == RecordsBetween(ms)
  {
    recs := [];
    var i := 0;
    while i + 1 < |ms|
      invariant i <= |ms| && (i == 0 || i + 1 <= |ms|)
      invariant |recs| == i
      invariant forall k :: 0 <= k < i ==>
        recs[k] == Record(ms[k].measure, ms[k + 1].measure, ms[k].partMeasure, ms[k + 1].partMeasure)
    {
      recs := recs + [Record(ms[i].measure, ms[i + 1].measure, ms[i].partMeasure, ms[i + 1].partMeasure)];
      i := i + 1;
    }
  }

  /** On milestones with strictly increasing measures, the table is a chain of non-empty,
      pairwise non-overlapping records, each starting where the previous one ends; when the
      milestones also ascend along the part, so does every record. */
  lemma RecordTable(ms: seq<Milestone>)
    requires InOrder(ms)
    ensures var recs := RecordsBetween(ms);
      forall k :: 0 <= k < |recs| ==> recs[k].milestoneFrom < recs[k].milestoneTo
    ensures var recs := RecordsBetween(ms);
      forall i, j :: 0 <= i < j < |recs| && j == i + 1 ==>
        recs[i].milestoneTo == recs[j].milestoneFrom && recs[i].partTo == recs[j].partFrom
    ensures var recs := RecordsBetween(ms);
      forall i, j :: 0 <= i < j < |recs| ==> !recs[i].MeasureOverlaps(recs[j])
    ensures var recs := RecordsBetween(ms);
      PartSorted(ms) ==> forall k :: 0 <= k < |recs| ==> recs[k].partFrom <= recs[k].partTo
  {
    var recs := RecordsBetween(ms);
    forall i, j | 0 <= i < j < |recs| ensures !recs[i].MeasureOverlaps(recs[j]) {
      RecordsApart(ms, i, j);
      OverlapsIffIntersect(recs[i], recs[j]);
    }
  }

  /** A measure strictly between the first and the last milestone, and equal to none of
      them, lies within exactly one record of the table. */
  lemma RecordsCoverInterior(ms: seq<Milestone>, measure: real)
    requires InOrder(ms) && |ms| >= 2
    requires ms[0].measure < measure < ms[|ms| - 1].measure
    requires forall k :: 0 <= k < |ms| ==> ms[k].measure != measure
    ensures var recs := RecordsBetween(ms);
      exists k :: 0 <= k < |recs| && recs[k].MeasureWithin(measure)
    ensures var recs := RecordsBetween(ms);
      forall i, j :: 0 <= i < |recs| && 0 <= j < |recs| && recs[i].MeasureWithin(measure) && recs[j].MeasureWithin(measure) ==> i == j
  {
    SomeRecordHolds(ms, measure);
    AtMostOneRecordHolds(ms, measure);
  }

  lemma {:induction false} SomeRecordHolds(ms: seq<Milestone>, measure: real)
    requires InOrder(ms) && |ms| >= 2
    requires ms[0].measure < measure < ms[|ms| - 1].measure
    requires forall k :: 0 <= k < |ms| ==> ms[k].measure != measure
    ensures exists k :: 0 <= k < |RecordsBetween(ms)| && RecordsBetween(ms)[k].MeasureWithin(measure)
  {
    var recs := RecordsBetween(ms);
    if measure < ms[1].measure {
      assert recs[0].MeasureWithin(measure);
    } else {
      var rest := ms[1..];
      assert rest[0] == ms[1];
      assert InOrder(rest);
      SomeRecordHolds(rest, measure);
      var k :| 0 <= k < |RecordsBetween(rest)| && RecordsBetween(rest)[k].MeasureWithin(measure);
      assert RecordsBetween(rest)[k] == recs[k + 1];
    }
  }

  lemma AtMostOneRecordHolds(ms: seq<Milestone>, measure: real)
    requires InOrder(ms)
    ensures var recs := RecordsBetween(ms);
      forall i, j :: 0 <= i < |recs| && 0 <= j < |recs| && recs[i].MeasureWithin(measure) && recs[j].MeasureWithin(measure) ==> i == j
  {
    var recs := RecordsBetween(ms);
    forall i, j | 0 <= i < j < |recs| ensures !(recs[i].MeasureWithin(measure) && recs[j].MeasureWithin(measure)) {
      RecordsApart(ms, i, j);
    }
  }

  /** A later record of the table starts no earlier than an earlier one ends. */
  lemma RecordsApart(ms: seq<Milestone>, i: nat, j: nat)
    requires InOrder(ms) && i < j < |RecordsBetween(ms)|
    ensures RecordsBetween(ms)[i].milestoneTo <= RecordsBetween(ms)[j].milestoneFrom
  {
    var recs := RecordsBetween(ms);
    assert recs[i].milestoneTo == ms[i + 1].measure;
    assert recs[j].milestoneFrom == ms[j].measure;
    assert i + 1 == j || ms[i + 1].measure < ms[j].measure;
  }

  /** The error calibrate reports for a milestone removed as being in the wrong place. */
  function WrongMeasureError(m: Milestone, routeId: RouteId): LrsError {
    LrsError(WrongMeasure, routeId, Some(m.measure), [Origin(m.fid, m.geoPart, m.nGeoParts)])
  }

  function WrongMeasureErrors(removed: seq<Milestone>, routeId: RouteId): (r: seq<LrsError>) {
    seq(|removed|, i requires 0 <= i < |removed| => WrongMeasureError(removed[i], routeId))
  }

  /** Calibrate gets past its two early returns: at least two milestones, and the votes of
      adjacent pairs (sorted by the key) are not tied. */
  predicate Proceeds(milestones: seq<Milestone>) {
    |milestones| >= 2 && Ups(SortByKey(milestones)) != Downs(SortByKey(milestones))
  }

  /** More adjacent pairs vote for decreasing measures: calibrate turns the part around. */
  predicate Reverses(milestones: seq<Milestone>) {
    Downs(SortByKey(milestones)) > Ups(SortByKey(milestones))
  }

  /** The milestones calibrate resolves: sorted by the key, and when it turns the part
      around, reversed with the distances measured from the other end. */
  function Oriented(dist: Distance, polyline: Polyline, milestones: seq<Milestone>): (r: seq<Milestone>)
    ensures |r| == |milestones|
  {
    var sorted := SortByKey(milestones);
    if Reverses(milestones) then Flipped(Reversed(sorted), TotalLength(dist, polyline)) else sorted
  }

  /** The part polyline after calibrate. */
  function OrientedPolyline(polyline: Polyline, milestones: seq<Milestone>): Polyline {
    if Reverses(milestones) then Reversed(polyline) else polyline
  }

  /** The part's own milestone list after calibrate: the working list shares its milestone
      objects, so turning the part around changes their distances here too. */
  function PartMilestones(dist: Distance, polyline: Polyline, milestones: seq<Milestone>): seq<Milestone> {
    if Reverses(milestones) then Flipped(milestones, TotalLength(dist, polyline)) else milestones
  }

  /** The good milestones calibrate sets, `None` when it returns early without setting them. */
  ghost function GoodMilestones(dist: Distance, polyline: Polyline, milestones: seq<Milestone>): Option<seq<Milestone>>
    requires |milestones| <= MaxInt
  {
    if Proceeds(milestones) then Some(Resolve(Oriented(dist, polyline, milestones)).good) else None
  }

  /** The errors calibrate appends. */
  ghost function CalibrationErrors(dist: Distance, polyline: Polyline, routeId: RouteId, origins: seq<Origin>,
                                   milestones: seq<Milestone>): seq<LrsError>
    requires |milestones| <= MaxInt
  {
    if |milestones| < 2 then [LrsError(NotEnoughMilestones, routeId, None, origins)]
    else if !Proceeds(milestones) then [LrsError(DirectionGuess, routeId, None, origins)]
    else WrongMeasureErrors(Resolve(Oriented(dist, polyline, milestones)).removed, routeId)
  }

  /** The records calibrate appends. */
  ghost function CalibrationRecords(dist: Distance, polyline: Polyline, milestones: seq<Milestone>): seq<Record>
    requires |milestones| <= MaxInt
  {
    match GoodMilestones(dist, polyline, milestones)
    case None => []
    case Some(good) => RecordsBetween(good)
  }

  /** With fewer than two milestones, or as many votes each way, calibrate reports one
      error carrying the part's origins and changes nothing else. */
  lemma CalibrationRejects(dist: Distance, polyline: Polyline, routeId: RouteId, origins: seq<Origin>, milestones: seq<Milestone>)
    requires |milestones| <= MaxInt
    ensures GoodMilestones(dist, polyline, milestones).None?
        <==> |milestones| < 2 || Ups(SortByKey(milestones)) == Downs(SortByKey(milestones))
    ensures !Proceeds(milestones) ==>
      OrientedPolyline(polyline, milestones) == polyline &&
      PartMilestones(dist, polyline, milestones) == milestones &&
      CalibrationRecords(dist, polyline, milestones) == []
    ensures var errs := CalibrationErrors(dist, polyline, routeId, origins, milestones);
      !Proceeds(milestones) ==>
        |errs| == 1 && errs[0].routeId == routeId && errs[0].origins == origins && errs[0].measure.None? &&
        (errs[0].kind == NotEnoughMilestones <==> |milestones| < 2) &&
        (errs[0].kind == DirectionGuess <==> |milestones| >= 2)
  {
  }

  /** Once calibrate proceeds, every milestone it worked on is either good or reported as a
      wrong measure, one error each, with its measure and provenance. */
  lemma CalibrationAccountsForMilestones(dist: Distance, polyline: Polyline, routeId: RouteId, origins: seq<Origin>, milestones: seq<Milestone>)
    requires |milestones| <= MaxInt && Proceeds(milestones)
    ensures var good := GoodMilestones(dist, polyline, milestones).value;
      var errs := CalibrationErrors(dist, polyline, routeId, origins, milestones);
      |good| + |errs| == |milestones| &&
      exists removed: seq<Milestone> ::
        multiset(good) + multiset(removed) == multiset(Oriented(dist, polyline, milestones)) &&
        errs == WrongMeasureErrors(removed, routeId)
  {
    var res := Resolve(Oriented(dist, polyline, milestones));
    ResolveOutcome(Oriented(dist, polyline, milestones));
    assert CalibrationErrors(dist, polyline, routeId, origins, milestones) == WrongMeasureErrors(res.removed, routeId);
  }

  /** Once calibrate proceeds, error k is a wrong measure on the part's route, with the
      measure and the single provenance of the k-th milestone conflict resolution removed;
      the removed milestones are those calibrate worked on less the good ones. */
  lemma WrongMeasuresReported(dist: Distance, polyline: Polyline, routeId: RouteId, origins: seq<Origin>, milestones: seq<Milestone>)
    requires |milestones| <= MaxInt && Proceeds(milestones)
    ensures var removed := Resolve(Oriented(dist, polyline, milestones)).removed;
      multiset(removed) == multiset(Oriented(dist, polyline, milestones)) - multiset(GoodMilestones(dist, polyline, milestones).value)
    ensures var removed := Resolve(Oriented(dist, polyline, milestones)).removed;
      var errs := CalibrationErrors(dist, polyline, routeId, origins, milestones);
      |errs| == |removed| &&
      forall k :: 0 <= k < |errs| ==>
        errs[k].kind == WrongMeasure && errs[k].routeId == routeId && errs[k].measure == Some(removed[k].measure) &&
        errs[k].origins == [Origin(removed[k].fid, removed[k].geoPart, removed[k].nGeoParts)]
  {
    ResolveOutcome(Oriented(dist, polyline, milestones));
  }

  /** The milestones calibrate resolves ascend along the (possibly reversed) part. */
  lemma OrientedAlongPart(dist: Distance, polyline: Polyline, milestones: seq<Milestone>)
    ensures PartSorted(Oriented(dist, polyline, milestones))
  {
    var sorted := SortByKey(milestones);
    SortSorts(milestones);
    KeySortedIsPartSorted(sorted);
    if Reverses(milestones) {
      ReverseFlipKeepsPartOrder(sorted, TotalLength(dist, polyline));
    }
  }

  /** The good milestones increase strictly in measure and weakly in distance along the
      (possibly reversed) part, and the records calibrate adds are the table between them. */
  lemma CalibratedGood(dist: Distance, polyline: Polyline, milestones: seq<Milestone>)
    requires |milestones| <= MaxInt && Proceeds(milestones)
    ensures var good := GoodMilestones(dist, polyline, milestones).value;
      InOrder(good) && PartSorted(good) && CalibrationRecords(dist, polyline, milestones) == RecordsBetween(good)
  {
    var oriented := Oriented(dist, polyline, milestones);
    OrientedAlongPart(dist, polyline, milestones);
    ResolveOutcome(oriented);
    ResolveKeepsPartOrder(oriented);
  }

  /** The records calibrate adds form a consistent calibration table: each increases in
      measure and does not decrease in distance, and no two of them overlap. */
  lemma CalibratedTable(dist: Distance, polyline: Polyline, milestones: seq<Milestone>)
    requires |milestones| <= MaxInt
    ensures var recs := CalibrationRecords(dist, polyline, milestones);
      forall k :: 0 <= k < |recs| ==> recs[k].milestoneFrom < recs[k].milestoneTo && recs[k].partFrom <= recs[k].partTo
    ensures var recs := CalibrationRecords(dist, polyline, milestones);
      forall i, j :: 0 <= i < j < |recs| ==> !recs[i].MeasureOverlaps(recs[j])
  {
    if Proceeds(milestones) {
      CalibratedGood(dist, polyline, milestones);
      RecordTable(GoodMilestones(dist, polyline, milestones).value);
    }
  }

  /** Calibrate follows the majority of the votes: the milestones it resolves have more
      adjacent pairs increasing in measure than decreasing. */
  lemma CalibrationFollowsMajority(dist: Distance, polyline: Polyline, milestones: seq<Milestone>)
    requires Proceeds(milestones)
    ensures Ups(Oriented(dist, polyline, milestones)) > Downs(Oriented(dist, polyline, milestones))
  {
    if Reverses(milestones) {
      ReversalSwapsVotes(SortByKey(milestones), TotalLength(dist, polyline));
    }
  }

  /** When calibrate turns the part around, the polyline is reversed and every milestone's
      distance along the part is measured from the other end; otherwise both are left as
      they were. */
  lemma CalibrationDirection(dist: Distance, polyline: Polyline, milestones: seq<Milestone>)
    ensures Reverses(milestones) ==> Proceeds(milestones)
    ensures Reverses(milestones) ==>
      OrientedPolyline(polyline, milestones) == Reversed(polyline) &&
      |PartMilestones(dist, polyline, milestones)| == |milestones| &&
      forall k :: 0 <= k < |milestones| ==>
        PartMilestones(dist, polyline, milestones)[k]
        == milestones[k].(partMeasure := TotalLength(dist, polyline) - milestones[k].partMeasure)
    ensures !Reverses(milestones) ==>
      OrientedPolyline(polyline, milestones) == polyline && PartMilestones(dist, polyline, milestones) == milestones
  {
  }

  /** Milestones, in any list order, whose measures strictly increase along the part are
      all kept: the part is not turned around, no error is reported, and there is one
      record per adjacent pair of the sorted milestones. */
  lemma ConsistentMilestonesKept(dist: Distance, polyline: Polyline, routeId: RouteId, origins: seq<Origin>, milestones: seq<Milestone>)
    requires |milestones| <= MaxInt && |milestones| >= 2
    requires InOrder(SortByKey(milestones))
    ensures Proceeds(milestones) && !Reverses(milestones)
    ensures CalibrationErrors(dist, polyline, routeId, origins, milestones) == []
    ensures GoodMilestones(dist, polyline, milestones) == Some(SortByKey(milestones))
    ensures CalibrationRecords(dist, polyline, milestones) == RecordsBetween(SortByKey(milestones))
  {
    ConsistentMilestonesVoteUp(dist, polyline, milestones);
    var oriented := Oriented(dist, polyline, milestones);
    ResolveKeepsOrderedList(oriented);
    assert GoodMilestones(dist, polyline, milestones) == Some(oriented);
    assert CalibrationErrors(dist, polyline, routeId, origins, milestones) == WrongMeasureErrors([], routeId);
  }

  lemma ConsistentMilestonesVoteUp(dist: Distance, polyline: Polyline, milestones: seq<Milestone>)
    requires |milestones| >= 2 && InOrder(SortByKey(milestones))
    ensures Proceeds(milestones) && !Reverses(milestones)
    ensures Oriented(dist, polyline, milestones) == SortByKey(milestones)
  {
    IncreasingMeasuresVoteUp(SortByKey(milestones));
  }

  /** The piece of the part polyline a record covers, as `getRecordGeometry` cuts it. */
  function RecordPiece(dist: Distance, polyline: Polyline): Record -> Option<seq<Point>> {
    (record: Record) => SegmentOf(dist, polyline, record.partFrom, record.partTo)
  }

  /** What `getSegments` returns, for a function `cut` that gives each record's piece of
      polyline: one segment per record, in order; `None` when cutting a piece fails. */
  function SegmentsOf(cut: Record -> Option<seq<Point>>, routeId: RouteId, records: seq<Record>): Option<seq<Segment>>
    decreases |records|
  {
    if records == [] then Some([])
    else
      var last := records[|records| - 1];
      match SegmentsOf(cut, routeId, records[..|records| - 1])
      case None => None
      case Some(front) =>
        match cut(last)
        case None => None
        case Some(geo) => Some(front + [Segment(routeId, last, geo)])
  }

  /** `getSegments` fails exactly when one record's piece does; otherwise segment k holds
      the route id, record k and that record's piece of the polyline. */
  lemma {:induction false} SegmentsPerRecord(cut: Record -> Option<seq<Point>>, routeId: RouteId, records: seq<Record>)
    ensures SegmentsOf(cut, routeId, records).Some? <==> forall k :: 0 <= k < |records| ==> cut(records[k]).Some?
    ensures SegmentsOf(cut, routeId, records).Some? ==>
      var segs := SegmentsOf(cut, routeId, records).value;
      |segs| == |records| &&
      forall k :: 0 <= k < |records| ==> segs[k] == Segment(routeId, records[k], cut(records[k]).value)
    decreases |records|
  {
    if records != [] {
      var n := |records| - 1;
      var front := records[..n];
      SegmentsPerRecord(cut, routeId, front);
      assert forall k :: 0 <= k < n ==> front[k] == records[k];
    }
  }

  /** Once a prefix of the records fails to cut, so does the whole list. */
  lemma {:induction false} NoSegmentsAfterFailure(cut: Record -> Option<seq<Point>>, routeId: RouteId, records: seq<Record>, n: nat)
    requires n <= |records| && SegmentsOf(cut, routeId, records[..n]).None?
    ensures SegmentsOf(cut, routeId, records).None?
    decreases |records| - n
  {
    if n < |records| {
      assert records[..n + 1][..n] == records[..n];
      NoSegmentsAfterFailure(cut, routeId, records, n + 1);
    } else {
      assert records[..n] == records;
    }
  }

  /** Every piece of polyline in a segment is empty or has at least two points, and never
      has more points than the part polyline. */
  lemma SegmentGeometries(dist: Distance, polyline: Polyline, routeId: RouteId, records: seq<Record>)
    requires SegmentsOf(RecordPiece(dist, polyline), routeId, records).Some?
    ensures var segs := SegmentsOf(RecordPiece(dist, polyline), routeId, records).value;
      forall k :: 0 <= k < |segs| ==> |segs[k].geo| <= |polyline| && (segs[k].geo != [] ==> 2 <= |segs[k].geo|)
  {
    var cut := RecordPiece(dist, polyline);
    SegmentsPerRecord(cut, routeId, records);
    var segs := SegmentsOf(cut, routeId, records).value;
    forall k | 0 <= k < |segs| ensures |segs[k].geo| <= |polyline| && (segs[k].geo != [] ==> 2 <= |segs[k].geo|) {
      assert segs[k].geo == SegmentOf(dist, polyline, records[k].partFrom, records[k].partTo).value;
      SegmentShape(dist, polyline, records[k].partFrom, records[k].partTo);
    }
  }

  /** What `eventGeometry` returns for a measure: the point, found by `locate`, at the
      record's distance for the measure in the first record whose interval holds it. */
  function EventPoint(locate: (Polyline, real) -> Point, polyline: Polyline, records: seq<Record>, start: real): Result<Point> {
    if records == [] then Err("measure not available")
    else if records[0].MeasureWithin(start) then Ok(locate(polyline, records[0].PartMeasure(start)))
    else EventPoint(locate, polyline, records[1..], start)
  }

  /** `eventGeometry` fails exactly when no record holds the measure, and otherwise locates
      the distance the first record holding it gives. */
  lemma {:induction false} EventPointFirstRecord(locate: (Polyline, real) -> Point, polyline: Polyline, records: seq<Record>, start: real)
    ensures EventPoint(locate, polyline, records, start).Err?
        <==> forall k :: 0 <= k < |records| ==> !records[k].MeasureWithin(start)
    ensures EventPoint(locate, polyline, records, start).Err? ==>
      EventPoint(locate, polyline, records, start).error == "measure not available"
    ensures EventPoint(locate, polyline, records, start).Ok? ==>
      exists k :: 0 <= k < |records| && records[k].MeasureWithin(start) &&
        (forall j :: 0 <= j < k ==> !records[j].MeasureWithin(start)) &&
        EventPoint(locate, polyline, records, start).value == locate(polyline, records[k].PartMeasure(start))
  {
    if records != [] && !records[0].MeasureWithin(start) {
      EventPointFirstRecord(locate, polyline, records[1..], start);
      var rest := records[1..];
      if EventPoint(locate, polyline, rest, start).Ok? {
        var k :| 0 <= k < |rest| && rest[k].MeasureWithin(start) &&
          (forall j :: 0 <= j < k ==> !rest[j].MeasureWithin(start)) &&
          EventPoint(locate, polyline, rest, start).value == locate(polyline, rest[k].PartMeasure(start));
        assert records[k + 1] == rest[k];
        assert forall j :: 0 <= j < k + 1 ==> !records[j].MeasureWithin(start) by {
          forall j | 0 <= j < k + 1 ensures !records[j].MeasureWithin(start) {
            if j > 0 { assert records[j] == rest[j - 1]; }
          }
        }
      }
      assert forall k :: 1 <= k < |records| ==> records[k] == rest[k - 1];
    }
  }

  /** A query at exactly a good milestone's measure finds no record: every interval of the
      table is open, so the measure is not available. */
  lemma AtMilestoneNotAvailable(locate: (Polyline, real) -> Point, polyline: Polyline, good: seq<Milestone>, k: nat)
    requires InOrder(good) && k < |good|
    ensures EventPoint(locate, polyline, RecordsBetween(good), good[k].measure) == Err("measure not available")
  {
    var recs := RecordsBetween(good);
    forall i | 0 <= i < |recs| ensures !recs[i].MeasureWithin(good[k].measure) {
      assert recs[i].milestoneFrom == good[i].measure && recs[i].milestoneTo == good[i + 1].measure;
      assert i < k ==> good[i + 1].measure <= good[k].measure;
      assert k <= i ==> good[k].measure <= good[i].measure;
    }
    EventPointFirstRecord(locate, polyline, recs, good[k].measure);
  }

  /** On a table whose records do not decrease in distance, a measure some record holds
      gives a point, located at a distance within the first record holding the measure. */
  lemma EventWithinHoldingRecord(locate: (Polyline, real) -> Point, polyline: Polyline, records: seq<Record>, start: real)
    requires exists k :: 0 <= k < |records| && records[k].MeasureWithin(start)
    requires forall k :: 0 <= k < |records| ==> records[k].partFrom <= records[k].partTo
    ensures EventPoint(locate, polyline, records, start).Ok? &&
      exists k :: 0 <= k < |records| && records[k].MeasureWithin(start) &&
        records[k].partFrom <= records[k].PartMeasure(start) <= records[k].partTo &&
        EventPoint(locate, polyline, records, start).value == locate(polyline, records[k].PartMeasure(start))
  {
    EventPointFirstRecord(locate, polyline, records, start);
    var k :| 0 <= k < |records| && records[k].MeasureWithin(start) &&
      EventPoint(locate, polyline, records, start).value == locate(polyline, records[k].PartMeasure(start));
    PartMeasureBetween(records[k], start);
    assert 0 <= k < |records| && records[k].MeasureWithin(start) &&
      records[k].partFrom <= records[k].PartMeasure(start) <= records[k].partTo &&
      EventPoint(locate, polyline, records, start).value == locate(polyline, records[k].PartMeasure(start));
  }

  /** On a freshly calibrated part, every measure strictly between the first and the last
      good milestone, other than the milestones' own, gives a point, and the distance it is
      located at lies within the record holding the measure. */
  lemma EventsCoverCalibratedRange(locate: (Polyline, real) -> Point, polyline: Polyline, good: seq<Milestone>, start: real)
    requires InOrder(good) && PartSorted(good) && |good| >= 2
    requires good[0].measure < start < good[|good| - 1].measure
    requires forall k :: 0 <= k < |good| ==> good[k].measure != start
    ensures var recs := RecordsBetween(good);
      EventPoint(locate, polyline, recs, start).Ok? &&
      exists k :: 0 <= k < |recs| && recs[k].MeasureWithin(start) &&
        recs[k].partFrom <= recs[k].PartMeasure(start) <= recs[k].partTo &&
        EventPoint(locate, polyline, recs, start).value == locate(polyline, recs[k].PartMeasure(start))
  {
    var recs := RecordsBetween(good);
    SomeRecordHolds(good, start);
    forall k | 0 <= k < |recs| ensures recs[k].partFrom <= recs[k].partTo {
      assert recs[k].partFrom == good[k].partMeasure && recs[k].partTo == good[k + 1].partMeasure;
    }
    EventWithinHoldingRecord(locate, polyline, recs, start);
  }

  /** `LrsRoutePart`: the part polyline with its route id and provenance, the milestones
      snapped to it, and what calibration produced. */
  class RoutePart {
    var polyline: Polyline
    const routeId: RouteId
    const origins: seq<Origin>
    var milestones: seq<Milestone>
    var records: seq<Record>
    var errors: seq<LrsError>
    var goodMilestones: Option<seq<Milestone>>

    constructor(polyline: Polyline, routeId: RouteId, origins: seq<Origin>)
      ensures this.polyline == polyline && this.routeId == routeId && this.origins == origins
      ensures milestones == [] && records == [] && errors == [] && goodMilestones.None?
    {
      this.polyline := polyline;
      this.routeId := routeId;
      this.origins := origins;
      milestones := [];
      records := [];
      errors := [];
      goodMilestones := None;
    }

    /** `calibrate`: turns the part around when the votes say so, appends its errors and
        records to the part's and sets the good milestones, as OrientedPolyline,
        PartMilestones, CalibrationErrors, CalibrationRecords and GoodMilestones describe. */
    method Calibrate(dist: Distance)
      requires |milestones| <= MaxInt
      modifies this
      ensures polyline == OrientedPolyline(old(polyline), old(milestones))
      ensures milestones == PartMilestones(dist, old(polyline), old(milestones))
      ensures errors == old(errors) + CalibrationErrors(dist, old(polyline), routeId, origins, old(milestones))
      ensures records == old(records) + CalibrationRecords(dist, old(polyline), old(milestones))
      ensures goodMilestones == if Proceeds(old(milestones)) then GoodMilestones(dist, old(polyline), old(milestones))
                                else old(goodMilestones)
    {
      if |milestones| < 2 {
        errors := errors + [LrsError(NotEnoughMilestones, routeId, None, origins)];
        return;
      }
      var ms := SortByKey(milestones);
      var up, down := CountVotes(ms);
      if up == down {
        errors := errors + [LrsError(DirectionGuess, routeId, None, origins)];
        return;
      } else if down > up {
        var length := TotalLength(dist, polyline);
        polyline := Reversed(polyline);
        ms := FlipPartMeasures(Reversed(ms), length);
        milestones := FlipPartMeasures(milestones, length);
      }
      assert ms == Oriented(dist, old(polyline), old(milestones));
      var good, removed := ResolveConflicts(ms);
      errors := errors + WrongMeasureErrors(removed, routeId);
      goodMilestones := Some(good);
      var recs := BuildRecords(good);
      records := records + recs;
    }

    /** `getRecordGeometry`: the piece of the part polyline between the record's distances. */
    method RecordGeometry(dist: Distance, record: Record) returns (geo: Option<seq<Point>>)
      ensures geo == SegmentOf(dist, polyline, record.partFrom, record.partTo)
    {
      geo := PolylineSegment(dist, polyline, record.partFrom, record.partTo);
    }

    /** `getSegments`: one segment per record, in the order of the records. */
    method GetSegments(dist: Distance) returns (segments: Option<seq<Segment>>)
      ensures segments == SegmentsOf(RecordPiece(dist, polyline), routeId, records)
    {
      ghost var cut := RecordPiece(dist, polyline);
      var segs: seq<Segment> := [];
      var i := 0;
      while i < |records|
        invariant i <= |records|
        invariant SegmentsOf(cut, routeId, records[..i]) == Some(segs)
      {
        var geo := RecordGeometry(dist, records[i]);
        assert geo == cut(records[i]);
        assert records[..i + 1][..i] == records[..i];
        if geo.None? {
          NoSegmentsAfterFailure(cut, routeId, records, i + 1);
          return None;
        }
        segs := segs + [Segment(routeId, records[i], geo.value)];
        i := i + 1;
      }
      assert records[..i] == records;
      segments := Some(segs);
    }

    /** `eventGeometry(start, end, linear)`: the point of the first record holding `start`.
        `end` and `linear` are unused by the source and not modelled. */
    method EventGeometry(locate: (Polyline, real) -> Point, start: real) returns (r: Result<Point>)
      ensures r == EventPoint(locate, polyline, records, start)
    {
      var i := 0;
      while i < |records|
        invariant i <= |records|
        invariant EventPoint(locate, polyline, records, start) == EventPoint(locate, polyline, records[i..], start)
      {
        assert records[i..][1..] == records[i + 1..];
        if records[i].MeasureWithin(start) {
          var m := records[i].PartMeasure(start);
          r := Ok(locate(polyline, m));
          return;
        }
        i := i + 1;
      }
      r := Err("measure not available");
    }
  }
}
