/** The calibration record and the segment of lrs/part.py. */
module Records {
  import opened Utils
  import opened Errors

  /** `LrsRecord`: a measure interval (from the milestones' measure attribute) and the
      matching interval of distance along the part polyline. */
  datatype Record = Record(milestoneFrom: real, milestoneTo: real, partFrom: real, partTo: real) {

    /** `measureWithin`: the measure lies in the open interval (milestoneFrom, milestoneTo). */
    predicate MeasureWithin(measure: real) {
      milestoneFrom < measure < milestoneTo
    }

    /** `measureOverlaps`: an end of either record lies inside the other, or the midpoint
        of this record lies inside the other. */
    predicate MeasureOverlaps(record: Record) {
      if MeasureWithin(record.milestoneFrom) then true
      else if MeasureWithin(record.milestoneTo) then true
      else if record.MeasureWithin(milestoneFrom) then true
      else if record.MeasureWithin(milestoneTo) then true
      else record.MeasureWithin((milestoneFrom + milestoneTo) / 2.0)
    }

    /** `partMeasure`: the distance along the part for a measure, by linear interpolation
        between the record's ends. Python raises ZeroDivisionError for an empty measure
        interval; records built by calibration never have one. */
    function PartMeasure(measure: real): (d: real)
      requires milestoneFrom != milestoneTo
      ensures measure == milestoneFrom ==> d == partFrom
      ensures measure == milestoneTo ==> d == partTo
    {
      var md := milestoneTo - milestoneFrom;
      var pd := partTo - partFrom;
      var k := (measure - milestoneFrom) / md;
      partFrom + k * pd
    }
  }

  /** `LrsSegment`: a record with the route id and the piece of polyline it covers. */
  datatype Segment = Segment(routeId: RouteId, record: Record, geo: seq<Point>)

  /** A measure inside a record's interval means the interval is not empty, and the
      record's own ends are never inside it. */
  lemma WithinExcludesEnds(r: Record, measure: real)
    ensures r.MeasureWithin(measure) ==> r.milestoneFrom < r.milestoneTo
    ensures !r.MeasureWithin(r.milestoneFrom) && !r.MeasureWithin(r.milestoneTo)
  {
  }

  /** For two non-empty records, `measureOverlaps` holds exactly when their open measure
      intervals intersect. */
  lemma OverlapsIffIntersect(a: Record, b: Record)
    requires a.milestoneFrom < a.milestoneTo && b.milestoneFrom < b.milestoneTo
    ensures a.MeasureOverlaps(b) <==> a.milestoneFrom < b.milestoneTo && b.milestoneFrom < a.milestoneTo
  {
  }

  lemma OverlapsSymmetric(a: Record, b: Record)
    requires a.milestoneFrom < a.milestoneTo && b.milestoneFrom < b.milestoneTo
    ensures a.MeasureOverlaps(b) == b.MeasureOverlaps(a)
  {
    OverlapsIffIntersect(a, b);
    OverlapsIffIntersect(b, a);
  }

  /** Records that only touch at one measure do not overlap. */
  lemma TouchingRecordsDoNotOverlap()
    ensures !Record(0.0, 1.0, 0.0, 1.0).MeasureOverlaps(Record(1.0, 2.0, 1.0, 2.0))
  {
  }

  /** Identical non-empty records overlap, through the midpoint test. */
  lemma IdenticalRecordsOverlap(r: Record)
    requires r.milestoneFrom < r.milestoneTo
    ensures r.MeasureOverlaps(r)
    ensures !r.MeasureWithin(r.milestoneFrom) && !r.MeasureWithin(r.milestoneTo)
  {
  }

  /** `partMeasure` is affine in the measure: the distance gained is proportional to the
      measure gained, with the record's ratio. */
  lemma PartMeasureAffine(r: Record, measure: real)
    requires r.milestoneFrom != r.milestoneTo
    ensures (r.PartMeasure(measure) - r.partFrom) * (r.milestoneTo - r.milestoneFrom)
         == (measure - r.milestoneFrom) * (r.partTo - r.partFrom)
  {
    var md := r.milestoneTo - r.milestoneFrom;
    var k := (measure - r.milestoneFrom) / md;
    assert k * md == measure - r.milestoneFrom;
  }

  /** On a record increasing in both measure and distance, `partMeasure` is strictly increasing. */
  lemma PartMeasureMonotone(r: Record, m1: real, m2: real)
    requires r.milestoneFrom < r.milestoneTo && r.partFrom < r.partTo && m1 < m2
    ensures r.PartMeasure(m1) < r.PartMeasure(m2)
  {
    var md := r.milestoneTo - r.milestoneFrom;
    var pd := r.partTo - r.partFrom;
    var k1 := (m1 - r.milestoneFrom) / md;
    var k2 := (m2 - r.milestoneFrom) / md;
    assert k1 < k2;
    assert k1 * pd < k2 * pd;
  }

  lemma PositiveFactor(x: real, c: real)
    requires c > 0.0 && x * c > 0.0
    ensures x > 0.0
  {
  }

  lemma FractionBelowOne(a: real, md: real)
    requires 0.0 < a < md
    ensures 0.0 < a / md < 1.0
  {
    var q := a / md;
    assert q * md == a;
    assert (1.0 - q) * md == md - a;
    PositiveFactor(1.0 - q, md);
  }

  /** A measure inside the record maps to a distance between the record's two distances. */
  lemma PartMeasureBetween(r: Record, measure: real)
    requires r.MeasureWithin(measure) && r.partFrom <= r.partTo
    ensures r.partFrom <= r.PartMeasure(measure) <= r.partTo
  {
    var md := r.milestoneTo - r.milestoneFrom;
    var pd := r.partTo - r.partFrom;
    var k := (measure - r.milestoneFrom) / md;
    FractionBelowOne(measure - r.milestoneFrom, md);
    assert 0.0 <= k * pd <= pd;
  }
}
