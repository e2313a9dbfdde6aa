/** Milestones and the first steps of `LrsRoutePart.calibrate` (lrs/part.py): the sort by
    distance along the part, the direction vote and the rewrite of distances after the
    part is reversed. The LrsMilestone class (milestone.py) is not part of this model; its
    fields are those calibrate reads. */
module Milestones {
  import opened Utils

  /** A milestone: its point, the measure attribute, the distance along its part
      (`partMeasure`) and the provenance of the point feature. */
  datatype Milestone = Milestone(pnt: Point, measure: real, partMeasure: real, fid: int, geoPart: int, nGeoParts: int)

  /** The sort key `(partMeasure, measure)`, compared lexicographically. */
  predicate KeyLe(a: Milestone, b: Milestone) {
    a.partMeasure < b.partMeasure || (a.partMeasure == b.partMeasure && a.measure <= b.measure)
  }

  ghost predicate KeySorted(ms: seq<Milestone>) {
    forall i, j :: 0 <= i < j < |ms| ==> KeyLe(ms[i], ms[j])
  }

  /** Ascending by distance along the part. */
  ghost predicate PartSorted(ms: seq<Milestone>) {
    forall i, j :: 0 <= i < j < |ms| ==> ms[i].partMeasure <= ms[j].partMeasure
  }

  lemma ConsKeySorted(a: Milestone, rest: seq<Milestone>)
    requires KeySorted(rest)
    requires forall x :: x in rest ==> KeyLe(a, x)
    ensures KeySorted([a] + rest)
  {
    var r := [a] + rest;
    forall i, j | 0 <= i < j < |r| ensures KeyLe(r[i], r[j]) {
      assert r[j] == rest[j - 1];
      if i > 0 {
        assert r[i] == rest[i - 1];
      }
    }
  }

  /** Inserts `m` before the first milestone it does not follow in key order. */
  function Insert(m: Milestone, ms: seq<Milestone>): (r: seq<Milestone>)
    ensures |r| == |ms| + 1
  {
    if ms == [] then [m]
    else if KeyLe(m, ms[0]) then [m] + ms
    else [ms[0]] + Insert(m, ms[1..])
  }

  /** `milestones.sort(key=lambda m: (m.partMeasure, m.measure))`: an insertion sort, which,
      like Python's sort, keeps milestones with equal keys in their input order
      (SortIsStable). */
  function SortByKey(ms: seq<Milestone>): (r: seq<Milestone>)
    ensures |r| == |ms|
  {
    if ms == [] then [] else Insert(ms[0], SortByKey(ms[1..]))
  }

  /** Insertion into a sorted list keeps it sorted and adds exactly the new milestone. */
  lemma {:induction false} InsertSorted(m: Milestone, ms: seq<Milestone>)
    requires KeySorted(ms)
    ensures KeySorted(Insert(m, ms))
    ensures multiset(Insert(m, ms)) == multiset(ms) + multiset{m}
  {
    if ms == [] {
    } else if KeyLe(m, ms[0]) {
      ConsKeySorted(m, ms);
    } else {
      assert ms == [ms[0]] + ms[1..];
      assert KeySorted(ms[1..]);
      InsertSorted(m, ms[1..]);
      var rest := Insert(m, ms[1..]);
      forall x | x in rest ensures KeyLe(ms[0], x) {
        assert x in multiset(rest);
        assert x == m || x in multiset(ms[1..]);
      }
      ConsKeySorted(ms[0], rest);
    }
  }

  /** The sort orders by the key and only reorders: the result is a permutation of its input. */
  lemma {:induction false} SortSorts(ms: seq<Milestone>)
    ensures KeySorted(SortByKey(ms))
    ensures multiset(SortByKey(ms)) == multiset(ms)
  {
    if ms != [] {
      SortSorts(ms[1..]);
      InsertSorted(ms[0], SortByKey(ms[1..]));
      assert ms == [ms[0]] + ms[1..];
    }
  }

  /** Sorting a list already in key order leaves it as it is. */
  lemma {:induction false} SortKeepsSortedList(ms: seq<Milestone>)
    requires KeySorted(ms)
    ensures SortByKey(ms) == ms
  {
    if ms != [] {
      assert KeySorted(ms[1..]);
      SortKeepsSortedList(ms[1..]);
      if |ms| > 1 {
        assert KeyLe(ms[0], ms[1..][0]);
      }
      assert [ms[0]] + ms[1..] == ms;
    }
  }

  /** The milestones of `ms` whose key `(partMeasure, measure)` is that of `m`, in list order. */
  function SameKey(ms: seq<Milestone>, m: Milestone): seq<Milestone> {
    if ms == [] then []
    else (if ms[0].partMeasure == m.partMeasure && ms[0].measure == m.measure then [ms[0]] else [])
         + SameKey(ms[1..], m)
  }

  /** Inserting a milestone puts it ahead of every milestone with its key. */
  lemma {:induction false} InsertAheadOfSameKey(x: Milestone, ms: seq<Milestone>, m: Milestone)
    ensures SameKey(Insert(x, ms), m)
         == (if x.partMeasure == m.partMeasure && x.measure == m.measure then [x] else []) + SameKey(ms, m)
  {
    if ms != [] && !KeyLe(x, ms[0]) {
      assert Insert(x, ms)[1..] == Insert(x, ms[1..]);
      InsertAheadOfSameKey(x, ms[1..], m);
    }
  }

  /** The sort is stable: milestones with equal keys keep their input order. */
  lemma {:induction false} SortIsStable(ms: seq<Milestone>, m: Milestone)
    ensures SameKey(SortByKey(ms), m) == SameKey(ms, m)
  {
    if ms != [] {
      SortIsStable(ms[1..], m);
      InsertAheadOfSameKey(ms[0], SortByKey(ms[1..]), m);
    }
  }

  lemma KeySortedIsPartSorted(ms: seq<Milestone>)
    requires KeySorted(ms)
    ensures PartSorted(ms)
  {
  }

  /** The votes of adjacent pairs for an increasing measure. */
  function Ups(ms: seq<Milestone>): nat {
    if |ms| < 2 then 0 else (if ms[0].measure < ms[1].measure then 1 else 0) + Ups(ms[1..])
  }

  /** The votes of adjacent pairs for a decreasing measure. */
  function Downs(ms: seq<Milestone>): nat {
    if |ms| < 2 then 0 else (if ms[0].measure > ms[1].measure then 1 else 0) + Downs(ms[1..])
  }

  /** Adjacent pairs with equal measures, which cast no vote. */
  function Ties(ms: seq<Milestone>): nat {
    if |ms| < 2 then 0 else (if ms[0].measure == ms[1].measure then 1 else 0) + Ties(ms[1..])
  }

  /** Every adjacent pair casts exactly one vote, or is a tie. */
  lemma {:induction false} VotesCoverPairs(ms: seq<Milestone>)
    requires |ms| >= 1
    ensures Ups(ms) + Downs(ms) + Ties(ms) == |ms| - 1
  {
    if |ms| >= 2 {
      VotesCoverPairs(ms[1..]);
    }
  }

  /** When all measures are equal nobody votes, so the vote is a tie. */
  lemma {:induction false} EqualMeasuresCastNoVote(ms: seq<Milestone>)
    requires forall i :: 0 <= i < |ms| ==> ms[i].measure == ms[0].measure
    ensures Ups(ms) == 0 && Downs(ms) == 0
  {
    if |ms| >= 2 {
      assert forall i :: 0 <= i < |ms[1..]| ==> ms[1..][i].measure == ms[1..][0].measure by {
        forall i | 0 <= i < |ms[1..]| ensures ms[1..][i].measure == ms[1..][0].measure {
          assert ms[1..][i] == ms[i + 1];
        }
      }
      EqualMeasuresCastNoVote(ms[1..]);
    }
  }

  /** Strictly increasing adjacent measures give every vote to the increasing direction. */
  lemma {:induction false} IncreasingMeasuresVoteUp(ms: seq<Milestone>)
    requires |ms| >= 1
    requires forall i, j :: 0 <= i < j < |ms| && j == i + 1 ==> ms[i].measure < ms[j].measure
    ensures Ups(ms) == |ms| - 1 && Downs(ms) == 0
  {
    if |ms| >= 2 {
      var rest := ms[1..];
      forall i, j | 0 <= i < j < |rest| && j == i + 1 ensures rest[i].measure < rest[j].measure {
        assert rest[i] == ms[i + 1] && rest[j] == ms[j + 1];
      }
      assert ms[0].measure < ms[1].measure;
      IncreasingMeasuresVoteUp(rest);
    }
  }

  /** The direction loop of calibrate: counts the up and down votes of adjacent pairs. */
  method CountVotes(ms: seq<Milestone>) returns (up: nat, down: nat)
    ensures up == Ups(ms) && down == Downs(ms)
  {
    up, down := 0, 0;
    var i := 0;
    while i + 1 < |ms|
      invariant i <= |ms|
      invariant up + Ups(ms[i..]) == Ups(ms)
      invariant down + Downs(ms[i..]) == Downs(ms)
    {
      assert ms[i..][1..] == ms[i + 1..];
      if ms[i].measure == ms[i + 1].measure {
        // equal measures cast no vote
      } else if ms[i].measure < ms[i + 1].measure {
        up := up + 1;
      } else {
        down := down + 1;
      }
      i := i + 1;
    }
  }

  /** Every milestone's distance measured from the other end of a part of length `length`. */
  function Flipped(ms: seq<Milestone>, length: real): (r: seq<Milestone>) {
    seq(|ms|, i requires 0 <= i < |ms| => ms[i].(partMeasure := length - ms[i].partMeasure))
  }

  /** The loop `milestone.partMeasure = length - milestone.partMeasure` of calibrate. */
  method FlipPartMeasures(ms: seq<Milestone>, length: real) returns (r: seq<Milestone>)
    ensures r == Flipped(ms, length)
  {
    r := ms;
    var i := 0;
    while i < |r|
      invariant i <= |r| == |ms|
      invariant forall k :: 0 <= k < i ==> r[k] == ms[k].(partMeasure := length - ms[k].partMeasure)
      invariant forall k :: i <= k < |r| ==> r[k] == ms[k]
    {
      r := r[i := r[i].(partMeasure := length - r[i].partMeasure)];
      i := i + 1;
    }
  }

  /** Reading a list sorted by distance backwards and measuring distances from the other
      end gives a list ascending by distance again. */
  lemma ReverseFlipKeepsPartOrder(ms: seq<Milestone>, length: real)
    requires PartSorted(ms)
    ensures PartSorted(Flipped(Reversed(ms), length))
  {
    var r := Flipped(Reversed(ms), length);
    forall i, j | 0 <= i < j < |r| ensures r[i].partMeasure <= r[j].partMeasure {
      assert r[i].partMeasure == length - ms[|ms| - 1 - i].partMeasure;
      assert r[j].partMeasure == length - ms[|ms| - 1 - j].partMeasure;
    }
  }

  lemma {:induction false} UpsOfAppend(ms: seq<Milestone>, m: Milestone)
    requires |ms| >= 1
    ensures Ups(ms + [m]) == Ups(ms) + (if ms[|ms| - 1].measure < m.measure then 1 else 0)
    ensures Downs(ms + [m]) == Downs(ms) + (if ms[|ms| - 1].measure > m.measure then 1 else 0)
  {
    if |ms| >= 2 {
      assert (ms + [m])[1..] == ms[1..] + [m];
      UpsOfAppend(ms[1..], m);
    }
  }

  /** Reversing the milestones swaps the up and down votes; rewriting the distances does not
      touch the measures. So after calibrate reverses a part that voted down, it votes up. */
  lemma {:induction false} ReversalSwapsVotes(ms: seq<Milestone>, length: real)
    ensures Ups(Flipped(Reversed(ms), length)) == Downs(ms)
    ensures Downs(Flipped(Reversed(ms), length)) == Ups(ms)
  {
    VotesOfFlipped(Reversed(ms), length);
    ReversedVotes(ms);
  }

  lemma {:induction false} VotesOfFlipped(ms: seq<Milestone>, length: real)
    ensures Ups(Flipped(ms, length)) == Ups(ms) && Downs(Flipped(ms, length)) == Downs(ms)
  {
    if |ms| >= 2 {
      assert Flipped(ms, length)[1..] == Flipped(ms[1..], length);
      VotesOfFlipped(ms[1..], length);
    }
  }

  lemma {:induction false} ReversedVotes(ms: seq<Milestone>)
    ensures Ups(Reversed(ms)) == Downs(ms) && Downs(Reversed(ms)) == Ups(ms)
  {
    if |ms| >= 2 {
      var t := Reversed(ms[1..]);
      assert Reversed(ms) == t + [ms[0]];
      assert t[|t| - 1] == ms[1];
      ReversedVotes(ms[1..]);
      UpsOfAppend(t, ms[0]);
    }
  }
}
