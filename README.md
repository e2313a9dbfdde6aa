# Route-part calibration of the LRS plugin, in Dafny

This project models the calibration core of the QGIS linear referencing plugin
`lrs`. That core is `LrsRoutePart`, `LrsRecord` and `LrsSegment` in `lrs/part.py`, plus
the polyline helpers in `lrs/utils.py` that they use.

A route part is a chain of connected line geometries (a polyline) with the milestones
snapped to it. Each milestone has a *measure* (an attribute of the milestone point) and
a *part measure* (its distance along the polyline). `calibrate` works in five steps:

1. It rejects a part with fewer than two milestones.
2. It sorts the milestones by `(partMeasure, measure)`.
3. Adjacent pairs vote on the direction. If more pairs decrease than increase, the
   polyline is reversed and every distance is measured from the other end.
4. While some pair of milestones is out of order, every milestone gets a consistency
   score, and all milestones with the lowest score are removed and reported.
5. It builds one calibration record per adjacent pair of the milestones that remain.

On the calibrated part, `getSegments` cuts the polyline into one piece per record, and
`eventGeometry` locates a measure through the first record that holds it.

Modules:

- `Wrappers`: `Option` and `Result`.
- `Utils` (`lrs/utils.py`): points, polylines, lengths, `pointOnLine`, `polylineSegment`.
- `Errors`: error kinds and provenance.
- `Records` (`LrsRecord`, `LrsSegment`).
- `Milestones`: the sort, the direction vote and the reversal.
- `Conflicts`: the scoring loop.
- `Part`: the calibration table, the `RoutePart` class and its queries.

Each loop of `calibrate` is a method proved against a specification function. These
methods are `CountVotes`, `FlipPartMeasures`, `ComputeScores`, `FindMinScore`,
`RemoveLowest`, `ResolveConflicts` and `BuildRecords`. `RoutePart.Calibrate` composes
them and states the part's new state through one function of the old state per field.
The lemmas about those functions carry the properties.

Three things are parameters:

- `pointsDistance`, because it needs a square root. It is the `dist` parameter, and
  `IsDistance` states what is assumed of it: non-negative, symmetric, zero exactly on
  equal points.
- `polylinePoint`, which is not defined in the files of this model. It is the `locate`
  parameter.
- `QgsGeometry.length()`. It is the sum of the segment lengths, `TotalLength`.

A Python exception is modelled as a `None` or `Err` result. The exceptions are:

- `ZeroDivisionError` in `pointOnLine` when two consecutive vertices are equal;
- the same error propagated through `polylineSegment` and `getSegments`.

The `ZeroDivisionError` of `partMeasure` on a record with equal measures at both ends is excluded by a precondition instead (see "Left out").

## Model

| member | source | states |
|---|---|---|
| Utils.Reversed | lrs/utils.py:43-46 | the reversed list has the same length and element k is element len-1-k of the input |
| Utils.IdenticalToItself | lrs/utils.py:39-46 | a polyline is identical to itself |
| Utils.IdenticalToReverse | lrs/utils.py:39-46 | a polyline is identical to its reverse |
| Utils.IdenticalSymmetric | lrs/utils.py:39-46 | polylinesIdentical is symmetric |
| Utils.SegmentLength | lrs/utils.py:57-60 | for a distance function, a segment length is non-negative and zero exactly when the segment's two vertices are equal |
| Utils.PrefixNonNegative | lrs/utils.py:63-69 | the summed length to any vertex is non-negative |
| Utils.PrefixMonotone | lrs/utils.py:63-69 | the summed length does not decrease along the polyline |
| Utils.PrefixAtMostTotal | lrs/utils.py:63-69 | the summed length to any vertex is between 0 and the total length |
| Utils.MeasureAlongPolyline | lrs/utils.py:63-69 | the loop returns the sum of the first `segment` segment lengths plus the distance to the point; this is at least that sum, which is non-negative, and equal to it when the point is the segment's first vertex |
| Utils.PointOnLine | lrs/utils.py:85-91 | fails exactly when the two points are at distance 0; at distance 0 it gives point1 and at the segment length it gives point2; the point found is collinear with the two points |
| Utils.PointOnLineEnds | lrs/utils.py:85-91 | for distinct points, distance 0 gives point1 and the full distance gives point2 |
| Utils.StartSegment | lrs/utils.py:100-108 | the segment that emits the first point is a valid index, and it ends at or beyond `frm` unless it is the last index; it is the first such segment from `lo`, since every segment before it ends short of `frm` |
| Utils.EndSegment | lrs/utils.py:110-115 | the segment that emits the last point is a valid index, and it ends strictly beyond `to` unless it is the last index; it is the first such segment from `lo`, since every segment before it ends at or short of `to` |
| Utils.PolylineSegment | lrs/utils.py:94-121 | the segment walk returns exactly SegmentOf: the interpolated point at `frm`, the vertices up to the segment that passes `to`, and the interpolated point at `to` (or the remaining vertices when `to` is never passed); no point when `frm` is never reached; None when the point at `frm` or at `to` is interpolated on a zero-length segment (a zero-length segment walked over in between only adds its vertex) |
| Utils.SegmentBeyondEnd | lrs/utils.py:99-121 | when `frm` exceeds the total length, the result is empty |
| Utils.SegmentShape | lrs/utils.py:99-121 | the result is empty or has 2 to len(polyline) points; it starts with the point at `frm`, and its inner points are consecutive original vertices in their original order |
| Utils.SegmentReachesLastVertex | lrs/utils.py:110-121 | when `to` is at least the total length, a non-empty result ends at the polyline's last vertex |
| Records.WithinExcludesEnds | lrs/part.py:40-43 | a measure inside a record means from < to; the record's own ends are never inside |
| Records.OverlapsIffIntersect | lrs/part.py:46-53 | for non-empty records, measureOverlaps holds exactly when the open intervals intersect |
| Records.OverlapsSymmetric | lrs/part.py:46-53 | measureOverlaps is symmetric on non-empty records |
| Records.TouchingRecordsDoNotOverlap | lrs/part.py:46-53 | (0,1) and (1,2) do not overlap |
| Records.IdenticalRecordsOverlap | lrs/part.py:46-53 | a non-empty record overlaps itself, through the midpoint test only |
| Records.Record.PartMeasure | lrs/part.py:55-59 | interpolation at milestoneFrom gives partFrom and at milestoneTo gives partTo |
| Records.PartMeasureAffine | lrs/part.py:55-59 | the distance gained is proportional to the measure gained, with the record's ratio |
| Records.PartMeasureMonotone | lrs/part.py:55-59 | strictly increasing when the record increases in measure and distance |
| Records.PartMeasureBetween | lrs/part.py:55-59 | a measure inside the record maps between partFrom and partTo |
| Milestones.SortSorts | lrs/part.py:87-90 | the sort orders by the key (partMeasure, measure) and is a permutation |
| Milestones.SortIsStable | lrs/part.py:87-90 | milestones with equal keys keep their input order through the sort |
| Milestones.SortKeepsSortedList | lrs/part.py:87-90 | a list already in key order is unchanged by the sort |
| Milestones.VotesCoverPairs | lrs/part.py:92-101 | up votes, down votes and ties add up to the number of adjacent pairs |
| Milestones.EqualMeasuresCastNoVote | lrs/part.py:92-101 | when all measures are equal, there are no up or down votes |
| Milestones.IncreasingMeasuresVoteUp | lrs/part.py:92-101 | strictly increasing adjacent measures give every vote to up |
| Milestones.CountVotes | lrs/part.py:92-101 | the counting loop returns the up and down votes of the adjacent pairs |
| Milestones.FlipPartMeasures | lrs/part.py:110-112 | the loop rewrites every distance as length - partMeasure and changes nothing else |
| Milestones.ReverseFlipKeepsPartOrder | lrs/part.py:106-112 | reversing a list ascending by distance and flipping the distances gives a list ascending by distance |
| Milestones.ReversalSwapsVotes | lrs/part.py:106-112 | reversing and flipping swaps the up and down votes |
| Conflicts.ScoreUpTo | lrs/part.py:132-144 | a partial score is bounded by the number of other milestones counted |
| Conflicts.FullScoreIffAgrees | lrs/part.py:132-144 | a score is maximal exactly when the milestone is in order with every other milestone counted |
| Conflicts.AgreesEverywhereIffInOrder | lrs/part.py:132-146 | every pair agrees exactly when the measures strictly increase |
| Conflicts.InOrderIffFullScores | lrs/part.py:132-146 | the list is in order exactly when every score is len - 1 |
| Conflicts.ComputeScores | lrs/part.py:124-146 | the nested loops return one score per milestone, and `done` exactly when the measures strictly increase |
| Conflicts.MinScore | lrs/part.py:148-151 | the minimum search (started at sys.maxint) is at most every score, and it is one of the scores or maxint |
| Conflicts.FindMinScore | lrs/part.py:148-151 | the loop returns MinScore |
| Conflicts.LowestScoreAttained | lrs/part.py:148-151 | out of order, the minimum is one of the scores |
| Conflicts.FilterSides | lrs/part.py:156-162 | a milestone with the lowest score is removed, and any other milestone survives |
| Conflicts.FilterPartition | lrs/part.py:156-162 | survivors and removed milestones together are the input, as a multiset and by count |
| Conflicts.FilterProgress | lrs/part.py:148-162 | a round removes at least one milestone |
| Conflicts.SurvivorsFromList | lrs/part.py:156-162 | every survivor comes from the list |
| Conflicts.SurvivorsKeepPartOrder | lrs/part.py:156-162 | removal keeps a list ascending by distance |
| Conflicts.RemoveLowest | lrs/part.py:156-162 | the reverse deletion loop keeps Survivors and reports Dropped, last index first |
| Conflicts.ResolveRound | lrs/part.py:123-162 | one round shrinks the list, and resolving it is resolving the survivors after reporting the dropped ones |
| Conflicts.ResolveOutcome | lrs/part.py:123-164 | the kept milestones strictly increase in measure, and kept plus removed is the input, as a multiset and by count |
| Conflicts.ResolveKeepsOrderedList | lrs/part.py:123-147 | a list in order is kept whole, with nothing removed |
| Conflicts.ResolveKeepsPartOrder | lrs/part.py:123-164 | resolution keeps a list ascending by distance |
| Conflicts.ResolveConflicts | lrs/part.py:123-164 | the `while True` loop terminates with Resolve's kept and removed milestones; the kept ones are in order, and the counts add up |
| Conflicts.TiedPairBothRemoved | lrs/part.py:153-155 | measures 3,0,4,5: both 3 and 0 are removed (0 reported first), and 4,5 are kept |
| Conflicts.InterruptingMilestoneRemoved | lrs/part.py:116-117 | measures 1,2,0,3: only the interrupting 0 is removed |
| Conflicts.MisplacedSequenceAllRemoved | lrs/part.py:114-115 | measures 7,8,3,4: all four score -1 and are removed, last index first |
| Part.RecordsBetween | lrs/part.py:167-170 | the table has max(0, n - 1) records |
| Part.BuildRecords | lrs/part.py:167-170 | the loop builds record i from milestones i and i+1 |
| Part.RecordTable | lrs/part.py:167-170 | on milestones in order, each record has from < to; each record starts where the previous one ends, in measure and in distance; no two records overlap; with milestones ascending by distance, partFrom <= partTo |
| Part.RecordsCoverInterior | lrs/part.py:167-170 | a measure strictly between the first and last milestone, and equal to no milestone's measure, lies within exactly one record |
| Part.WrongMeasuresReported | lrs/part.py:156-161 | once calibration proceeds, error k has kind WRONG_MEASURE, the part's route id, and the measure and single provenance of the k-th removed milestone; the removed milestones are the oriented milestones less the good ones, as a multiset |
| Part.CalibrationRejects | lrs/part.py:80-105 | calibrate sets no good milestones exactly when there are fewer than 2 milestones or the votes tie; then it reports exactly one error with the part's origins (NOT_ENOUGH_MILESTONES exactly when there are fewer than 2), adds no record, and leaves the polyline and the milestones as they were |
| Part.CalibrationDirection | lrs/part.py:103-112 | when down > up, the polyline is reversed and every milestone's distance becomes length - partMeasure; otherwise both are unchanged |
| Part.CalibrationFollowsMajority | lrs/part.py:92-112 | the milestones that go into conflict resolution have more up votes than down votes |
| Part.OrientedAlongPart | lrs/part.py:87-112 | the milestones that go into conflict resolution ascend by distance along the possibly reversed part |
| Part.CalibrationAccountsForMilestones | lrs/part.py:123-164 | good milestones plus WRONG_MEASURE errors number the milestones; the errors are exactly those of the removed milestones, which together with the good ones are the oriented input |
| Part.CalibratedGood | lrs/part.py:123-170 | the good milestones strictly increase in measure and ascend by distance, and the records added are their table |
| Part.CalibratedTable | lrs/part.py:123-170 | every record added has milestoneFrom < milestoneTo and partFrom <= partTo, and no two of them overlap |
| Part.ConsistentMilestonesVoteUp | lrs/part.py:87-112 | milestones in any list order whose measures strictly increase once sorted by the key get past both early returns, and the part is not turned around |
| Part.ConsistentMilestonesKept | lrs/part.py:80-170 | milestones in any list order whose measures strictly increase once sorted by the key are all kept: no error, the good milestones are the sorted list, and one record per adjacent pair of it |
| Part.SegmentsPerRecord | lrs/part.py:183-188 | getSegments fails exactly when some record's piece fails; otherwise segment k is (route id, record k, piece of record k) |
| Part.NoSegmentsAfterFailure | lrs/part.py:183-188 | a failure on a prefix of the records is a failure of the whole list |
| Part.SegmentGeometries | lrs/part.py:178-188 | each segment's geometry is empty or has 2 to len(polyline) points |
| Part.AtMilestoneNotAvailable | lrs/part.py:197-205 | a query at exactly a good milestone's measure gives 'measure not available', because every record's interval is open |
| Part.EventPointFirstRecord | lrs/part.py:197-205 | the result is 'measure not available' exactly when no record holds the measure; otherwise it is the point at the first holding record's interpolated distance |
| Part.EventWithinHoldingRecord | lrs/part.py:197-205 | on records with partFrom <= partTo, a held measure gives a point whose distance lies inside the holding record |
| Part.EventsCoverCalibratedRange | lrs/part.py:197-205 | on a calibrated table, every interior measure that is not a milestone's measure gives a point, at a distance inside its record |
| Part.RoutePart.constructor | lrs/part.py:71-78 | a new part has the given polyline, route id and origins, and no milestones, records or errors |
| Part.RoutePart.Calibrate | lrs/part.py:80-170 | the new polyline, milestones, errors, records and good milestones are the calibration functions of the old state; errors and records are appended |
| Part.RoutePart.RecordGeometry | lrs/part.py:178-181 | the record's piece of the part polyline, cut by polylineSegment between partFrom and partTo |
| Part.RoutePart.GetSegments | lrs/part.py:183-188 | the loop returns SegmentsOf the part's records |
| Part.RoutePart.EventGeometry | lrs/part.py:197-205 | the loop returns EventPoint of the part's records |

## Left out

- `lrs/lrs.py` and everything that reads QGIS layers, builds coordinate transforms or hands parts to `LrsRoute`: this is I/O over foreign APIs.
- QGIS geometry objects: a polyline is a sequence of real points. `QgsGeometry.length()` is the sum of the segment lengths.
- `pointsDistance`: the square root is not modelled. The distance is a parameter. Floating-point rounding is not modelled; all arithmetic is on reals.
- `polylinePoint`: not part of this model. It is the `locate` parameter.
- `LrsError` and `LrsOrigin` (error.py) are not part of this model. An error keeps its kind, route id, measure and origins. It drops its display geometry, and an origin drops its geometry type.
- `debug`, `clearLayer`, `getLayerFeature` and `pointHash`: these are console output, layer editing and lookup, and hash formatting.
- `getPoint` is a stub with no effect. `getRecords` and `getErrors` are plain accessors of the lists.
- `removeRecord` deletes a record from the part's list. It is a mutator that is left out: it finds the record by Python object identity, and records here are values.
- `eventGeometry`'s `end` and `linear` parameters are not modelled, because the source never reads them.
- Milestones are values. The source shares milestone objects between `self.milestones` and the working list, so the reversal's distance rewrite shows in both. The model applies the rewrite to both lists, which assumes the objects are distinct. Aliasing between different parts is not modelled.
- `goodMilestones` starts as `None` in the model. The source's `__init__` does not create the attribute.
- Python 2 integer division in `partMeasure` and in the midpoint test of `measureOverlaps` is not modelled. Measures are reals.
- Part.RoutePart.Calibrate, Part.GoodMilestones and the other calibration functions require at most `sys.maxint` milestones, the bound on a Python list's length. The minimum search starts at `sys.maxint`, so this bound is what makes the minimum one of the scores.
- Records.Record.PartMeasure: it requires `milestoneFrom != milestoneTo`, so the ZeroDivisionError of `partMeasure` on an empty measure interval is not modelled. Its only caller, `eventGeometry`, calls it after `measureWithin` holds, which implies that the interval is not empty.
- Part.CalibratedTable: it states `partFrom <= partTo`, not `partFrom < partTo`. The code keeps two good milestones at the same distance along the part.
- Utils.PolylineSegment: it does not reject `to <= frm`, because the code does not.
- Part.RoutePart.Calibrate: it appends to the existing records and errors. Calibrating twice is not prevented, because the code does not prevent it.
- `InterruptingMilestoneRemoved`: the source comment's example is 1,2,0,3,4,5. The model proves the shorter instance 1,2,0,3, which removes only 0 in the same way.
