/** The conflict resolution of `LrsRoutePart.calibrate` (lrs/part.py): while some pair of
    milestones is out of order, score every milestone and remove all those with the lowest
    score. */
module Conflicts {
  import opened Milestones

  /** Python 2's `sys.maxint` on a 64-bit build, the start value of the minimum search. It
      is also the bound on the length of a Python list. */
  const MaxInt: int := 0x7FFF_FFFF_FFFF_FFFF

  /** The measures strictly increase along the list: the state the loop stops in. */
  predicate InOrder(ms: seq<Milestone>) {
    forall i, j :: 0 <= i < j < |ms| ==> ms[i].measure < ms[j].measure
  }

  /** Milestones i and j are in the right order with respect to each other; equal
      measures never are. */
  predicate Agrees(ms: seq<Milestone>, i: nat, j: nat)
    requires i < |ms| && j < |ms|
  {
    (i < j && ms[i].measure < ms[j].measure) || (i > j && ms[i].measure > ms[j].measure)
  }

  /** The score of milestone i counted over the milestones before index j: +1 for each
      milestone it agrees with, -1 for each it does not. */
  function ScoreUpTo(ms: seq<Milestone>, i: nat, j: nat): (r: int)
    requires i < |ms| && j <= |ms|
    ensures var most := if i < j then j - 1 else j; -most <= r <= most
  {
    if j == 0 then 0
    else ScoreUpTo(ms, i, j - 1) + (if j - 1 == i then 0 else if Agrees(ms, i, j - 1) then 1 else -1)
  }

  function Score(ms: seq<Milestone>, i: nat): int
    requires i < |ms|
  {
    ScoreUpTo(ms, i, |ms|)
  }

  function ScoresOf(ms: seq<Milestone>): seq<int> {
    seq(|ms|, i requires 0 <= i < |ms| => Score(ms, i))
  }

  /** A score reaches its maximum exactly when the milestone agrees with every other one
      counted so far. */
  lemma {:induction false} FullScoreIffAgrees(ms: seq<Milestone>, i: nat, j: nat)
    requires i < |ms| && j <= |ms|
    ensures ScoreUpTo(ms, i, j) == (if i < j then j - 1 else j)
        <==> forall b :: 0 <= b < j && b != i ==> Agrees(ms, i, b)
  {
    if j > 0 {
      FullScoreIffAgrees(ms, i, j - 1);
    }
  }

  lemma AgreesEverywhereIffInOrder(ms: seq<Milestone>)
    ensures InOrder(ms) <==> forall a, b :: 0 <= a < |ms| && 0 <= b < |ms| && a != b ==> Agrees(ms, a, b)
  {
    if InOrder(ms) {
      forall a, b | 0 <= a < |ms| && 0 <= b < |ms| && a != b ensures Agrees(ms, a, b) {
        if a > b {
          assert ms[b].measure < ms[a].measure;
        }
      }
    }
    if forall a, b :: 0 <= a < |ms| && 0 <= b < |ms| && a != b ==> Agrees(ms, a, b) {
      forall i, j | 0 <= i < j < |ms| ensures ms[i].measure < ms[j].measure {
        assert Agrees(ms, i, j);
      }
    }
  }

  /** The list is in order exactly when every milestone scores the maximum |ms| - 1. */
  lemma InOrderIffFullScores(ms: seq<Milestone>)
    ensures InOrder(ms) <==> forall i :: 0 <= i < |ms| ==> Score(ms, i) == |ms| - 1
  {
    AgreesEverywhereIffInOrder(ms);
    forall i | 0 <= i < |ms|
      ensures Score(ms, i) == |ms| - 1 <==> forall b :: 0 <= b < |ms| && b != i ==> Agrees(ms, i, b)
    {
      FullScoreIffAgrees(ms, i, |ms|);
    }
    if forall i :: 0 <= i < |ms| ==> Score(ms, i) == |ms| - 1 {
      forall a, b | 0 <= a < |ms| && 0 <= b < |ms| && a != b ensures Agrees(ms, a, b) {
        assert Score(ms, a) == |ms| - 1;
      }
    }
  }

  /** The scoring pass: one score per milestone, and `done` when no pair is out of order. */
  method ComputeScores(ms: seq<Milestone>) returns (scores: seq<int>, done: bool)
    ensures scores == ScoresOf(ms)
    ensures done <==> InOrder(ms)
  {
    done := true;
    scores := [];
    var i := 0;
    while i < |ms|
      invariant i <= |ms| && |scores| == i
      invariant forall k :: 0 <= k < i ==> scores[k] == Score(ms, k)
      invariant done <==> forall a, b :: 0 <= a < i && 0 <= b < |ms| && a != b ==> Agrees(ms, a, b)
    {
      var score := 0;
      var j := 0;
      while j < |ms|
        invariant j <= |ms|
        invariant score == ScoreUpTo(ms, i, j)
        invariant done <==> ((forall a, b :: 0 <= a < i && 0 <= b < |ms| && a != b ==> Agrees(ms, a, b))
                          && (forall b :: 0 <= b < j && b != i ==> Agrees(ms, i, b)))
      {
        if i == j {
          j := j + 1;
          continue;
        }
        var mi := ms[i].measure;
        var mj := ms[j].measure;
        if (i < j && mi < mj) || (i > j && mi > mj) {
          score := score + 1;
        } else {
          score := score - 1; // includes equal measures
          done := false;
        }
        j := j + 1;
      }
      scores := scores + [score];
      i := i + 1;
    }
    AgreesEverywhereIffInOrder(ms);
  }

  /** The minimum search `if scores[i] < minScore: minScore = scores[i]`, started at MaxInt. */
  function MinScore(sc: seq<int>): (r: int)
    ensures r <= MaxInt
    ensures forall k :: 0 <= k < |sc| ==> r <= sc[k]
    ensures r == MaxInt || r in sc
  {
    if |sc| == 0 then MaxInt
    else
      var low := MinScore(sc[..|sc| - 1]);
      assert forall k :: 0 <= k < |sc| - 1 ==> sc[..|sc| - 1][k] == sc[k];
      if sc[|sc| - 1] < low then sc[|sc| - 1] else low
  }

  method FindMinScore(scores: seq<int>) returns (minScore: int)
    ensures minScore == MinScore(scores)
  {
    minScore := MaxInt;
    var i := 0;
    while i < |scores|
      invariant i <= |scores|
      invariant minScore == MinScore(scores[..i])
    {
      assert scores[..i + 1][..i] == scores[..i];
      if scores[i] < minScore {
        minScore := scores[i];
      }
      i := i + 1;
    }
    assert scores[..i] == scores;
  }

  /** The milestones whose score is not `low`, in their order. */
  function Survivors(ms: seq<Milestone>, sc: seq<int>, low: int): seq<Milestone>
    requires |sc| == |ms|
  {
    if ms == [] then []
    else (if sc[0] == low then [] else [ms[0]]) + Survivors(ms[1..], sc[1..], low)
  }

  /** The milestones whose score is `low`, last index first: the order of the reverse
      deletion loop. */
  function Dropped(ms: seq<Milestone>, sc: seq<int>, low: int): seq<Milestone>
    requires |sc| == |ms|
  {
    if ms == [] then []
    else Dropped(ms[1..], sc[1..], low) + (if sc[0] == low then [ms[0]] else [])
  }

  /** Every milestone either survives or is dropped. */
  lemma {:induction false} FilterPartition(ms: seq<Milestone>, sc: seq<int>, low: int)
    requires |sc| == |ms|
    ensures multiset(Survivors(ms, sc, low)) + multiset(Dropped(ms, sc, low)) == multiset(ms)
    ensures |Survivors(ms, sc, low)| + |Dropped(ms, sc, low)| == |ms|
  {
    if ms != [] {
      FilterPartition(ms[1..], sc[1..], low);
      assert ms == [ms[0]] + ms[1..];
    }
  }

  /** Milestone k is dropped when its score is `low` and survives otherwise. */
  lemma {:induction false} FilterSides(ms: seq<Milestone>, sc: seq<int>, low: int, k: nat)
    requires |sc| == |ms| && k < |ms|
    ensures sc[k] == low ==> ms[k] in Dropped(ms, sc, low)
    ensures sc[k] != low ==> ms[k] in Survivors(ms, sc, low)
  {
    if k > 0 {
      FilterSides(ms[1..], sc[1..], low, k - 1);
    }
  }

  /** A round in which some score equals `low` removes at least one milestone. */
  lemma FilterProgress(ms: seq<Milestone>, sc: seq<int>, low: int)
    requires |sc| == |ms| && low in sc
    ensures |Survivors(ms, sc, low)| < |ms|
  {
    var k :| 0 <= k < |sc| && sc[k] == low;
    FilterSides(ms, sc, low, k);
    FilterPartition(ms, sc, low);
  }

  /** Survivors come from the list. */
  lemma SurvivorsFromList(ms: seq<Milestone>, sc: seq<int>, low: int)
    requires |sc| == |ms|
    ensures forall x :: x in Survivors(ms, sc, low) ==> x in ms
  {
    FilterPartition(ms, sc, low);
    forall x | x in Survivors(ms, sc, low) ensures x in ms {
      assert x in multiset(Survivors(ms, sc, low));
    }
  }

  lemma {:induction false} SurvivorsKeepPartOrder(ms: seq<Milestone>, sc: seq<int>, low: int)
    requires |sc| == |ms| && PartSorted(ms)
    ensures PartSorted(Survivors(ms, sc, low))
  {
    if ms != [] {
      var rest := Survivors(ms[1..], sc[1..], low);
      SurvivorsKeepPartOrder(ms[1..], sc[1..], low);
      SurvivorsFromList(ms[1..], sc[1..], low);
      if sc[0] != low {
        var r := [ms[0]] + rest;
        forall i, j | 0 <= i < j < |r| ensures r[i].partMeasure <= r[j].partMeasure {
          assert r[j] == rest[j - 1];
          assert r[j] in ms[1..];
          if i > 0 {
            assert r[i] == rest[i - 1];
          }
        }
      }
    }
  }

  /** Out of order, the lowest score is that of some milestone: the scores lie between
      -(|ms| - 1) and |ms| - 1, below MaxInt. */
  lemma LowestScoreAttained(ms: seq<Milestone>)
    requires |ms| <= MaxInt && !InOrder(ms)
    ensures MinScore(ScoresOf(ms)) in ScoresOf(ms)
  {
    var sc := ScoresOf(ms);
    assert |ms| >= 2;
    assert sc[0] == Score(ms, 0) <= |ms| - 1 < MaxInt;
  }

  /** The outcome of conflict resolution: the milestones kept and those removed, in the
      order their WRONG_MEASURE errors are reported. */
  datatype Resolution = Resolution(good: seq<Milestone>, removed: seq<Milestone>)

  /** The rounds of the conflict loop as a recursive function: in order, stop; otherwise
      drop every milestone with the lowest score and start again on the rest. Each round
      removes at least one milestone, so it terminates. */
  ghost function Resolve(ms: seq<Milestone>): Resolution
    requires |ms| <= MaxInt
    decreases |ms|
  {
    if InOrder(ms) then Resolution(ms, [])
    else
      var sc := ScoresOf(ms);
      var low := MinScore(sc);
      LowestScoreAttained(ms);
      FilterProgress(ms, sc, low);
      FilterPartition(ms, sc, low);
      var next := Resolve(Survivors(ms, sc, low));
      Resolution(next.good, Dropped(ms, sc, low) + next.removed)
  }

  /** Resolution ends in order, possibly empty, and every input milestone is either kept
      or removed. */
  lemma {:induction false} ResolveOutcome(ms: seq<Milestone>)
    requires |ms| <= MaxInt
    ensures InOrder(Resolve(ms).good)
    ensures multiset(Resolve(ms).good) + multiset(Resolve(ms).removed) == multiset(ms)
    ensures |Resolve(ms).good| + |Resolve(ms).removed| == |ms|
    decreases |ms|
  {
    if !InOrder(ms) {
      var sc := ScoresOf(ms);
      var low := MinScore(sc);
      LowestScoreAttained(ms);
      FilterProgress(ms, sc, low);
      FilterPartition(ms, sc, low);
      ResolveOutcome(Survivors(ms, sc, low));
    }
  }

  /** A list already in order is kept whole. */
  lemma ResolveKeepsOrderedList(ms: seq<Milestone>)
    requires |ms| <= MaxInt && InOrder(ms)
    ensures Resolve(ms) == Resolution(ms, [])
  {
  }

  /** Milestones ascending by distance along the part stay so after resolution. */
  lemma {:induction false} ResolveKeepsPartOrder(ms: seq<Milestone>)
    requires |ms| <= MaxInt && PartSorted(ms)
    ensures PartSorted(Resolve(ms).good)
    decreases |ms|
  {
    if !InOrder(ms) {
      var sc := ScoresOf(ms);
      var low := MinScore(sc);
      LowestScoreAttained(ms);
      FilterProgress(ms, sc, low);
      SurvivorsKeepPartOrder(ms, sc, low);
      ResolveKeepsPartOrder(Survivors(ms, sc, low));
    }
  }

  lemma ConcatAssociative<T>(a: seq<T>, b: seq<T>, c: seq<T>)
    ensures a + (b + c) == (a + b) + c
  {
  }

  /** One round of the loop, as Resolve sees it. */
  lemma ResolveRound(ms: seq<Milestone>, scores: seq<int>, minScore: int, kept: seq<Milestone>, dropped: seq<Milestone>)
    requires |ms| <= MaxInt && !InOrder(ms)
    requires scores == ScoresOf(ms) && minScore == MinScore(scores)
    requires kept == Survivors(ms, scores, minScore) && dropped == Dropped(ms, scores, minScore)
    ensures |kept| < |ms|
    ensures Resolve(ms) == Resolution(Resolve(kept).good, dropped + Resolve(kept).removed)
  {
    LowestScoreAttained(ms);
    FilterProgress(ms, scores, minScore);
  }

  /** The deletion loop `for i in range(len-1, -1, -1): if scores[i] == minScore: del ...`. */
  method RemoveLowest(ms: seq<Milestone>, scores: seq<int>, minScore: int) returns (kept: seq<Milestone>, dropped: seq<Milestone>)
    requires |scores| == |ms|
    ensures kept == Survivors(ms, scores, minScore)
    ensures dropped == Dropped(ms, scores, minScore)
  {
    kept, dropped := ms, [];
    var i := |ms|;
    while i > 0
      invariant 0 <= i <= |ms|
      invariant kept == ms[..i] + Survivors(ms[i..], scores[i..], minScore)
      invariant dropped == Dropped(ms[i..], scores[i..], minScore)
    {
      i := i - 1;
      assert ms[i..][1..] == ms[i + 1..] && scores[i..][1..] == scores[i + 1..];
      assert ms[..i + 1] == ms[..i] + [ms[i]];
      if scores[i] == minScore {
        dropped := dropped + [ms[i]];
        kept := kept[..i] + kept[i + 1..];
      }
    }
  }

  /** The `while True` loop of calibrate. */
  method ResolveConflicts(ms: seq<Milestone>) returns (good: seq<Milestone>, removed: seq<Milestone>)
    requires |ms| <= MaxInt
    ensures Resolution(good, removed) == Resolve(ms)
    ensures InOrder(good) && |good| + |removed| == |ms|
  {
    good, removed := ms, [];
    while true
      invariant |good| <= MaxInt
      invariant Resolve(ms).good == Resolve(good).good
      invariant Resolve(ms).removed == removed + Resolve(good).removed
      decreases |good|
    {
      var scores, done := ComputeScores(good);
      if done {
        assert Resolve(good) == Resolution(good, []);
        ResolveOutcome(ms);
        break;
      }
      var minScore := FindMinScore(scores);
      var kept, dropped := RemoveLowest(good, scores, minScore);
      ResolveRound(good, scores, minScore, kept, dropped);
      ConcatAssociative(removed, dropped, Resolve(kept).removed);
      good, removed := kept, removed + dropped;
    }
  }

  /** Measures 3, 0, 4, 5: the first two both score +1, neither can be preferred over the other, and both are removed, the later one first. */
  lemma TiedPairBothRemoved(a: Milestone, b: Milestone, c: Milestone, d: Milestone)
    requires a.measure == 3.0 && b.measure == 0.0 && c.measure == 4.0 && d.measure == 5.0
    ensures Resolve([a, b, c, d]) == Resolution([c, d], [b, a])
  {
    var ms := [a, b, c, d];
    assert !InOrder(ms) by { assert ms[0].measure >= ms[1].measure; }
    TiedPairBothRemovedScores(a, b, c, d);
    TiedPairBothRemovedLowest();
    TiedPairBothRemovedFilter(a, b, c, d);
    ResolveRound(ms, [1, 1, 3, 3], 1, [c, d], [b, a]);
    assert InOrder([c, d]);
    ResolveKeepsOrderedList([c, d]);
  }

  lemma TiedPairBothRemovedScores(a: Milestone, b: Milestone, c: Milestone, d: Milestone)
    requires a.measure == 3.0 && b.measure == 0.0 && c.measure == 4.0 && d.measure == 5.0
    ensures ScoresOf([a, b, c, d]) == [1, 1, 3, 3]
  {
    var ms := [a, b, c, d];
    assert ScoreUpTo(ms, 0, 0) == 0 && ScoreUpTo(ms, 0, 1) == 0 && ScoreUpTo(ms, 0, 2) == -1 && ScoreUpTo(ms, 0, 3) == 0 && ScoreUpTo(ms, 0, 4) == 1;
    assert ScoreUpTo(ms, 1, 0) == 0 && ScoreUpTo(ms, 1, 1) == -1 && ScoreUpTo(ms, 1, 2) == -1 && ScoreUpTo(ms, 1, 3) == 0 && ScoreUpTo(ms, 1, 4) == 1;
    assert ScoreUpTo(ms, 2, 0) == 0 && ScoreUpTo(ms, 2, 1) == 1 && ScoreUpTo(ms, 2, 2) == 2 && ScoreUpTo(ms, 2, 3) == 2 && ScoreUpTo(ms, 2, 4) == 3;
    assert ScoreUpTo(ms, 3, 0) == 0 && ScoreUpTo(ms, 3, 1) == 1 && ScoreUpTo(ms, 3, 2) == 2 && ScoreUpTo(ms, 3, 3) == 3 && ScoreUpTo(ms, 3, 4) == 3;
  }

  lemma TiedPairBothRemovedLowest()
    ensures MinScore([1, 1, 3, 3]) == 1
  {
    assert [1, 1][..1] == [1] && MinScore([1]) == 1;
    assert [1, 1, 3][..2] == [1, 1] && MinScore([1, 1]) == 1;
    assert [1, 1, 3, 3][..3] == [1, 1, 3] && MinScore([1, 1, 3]) == 1;
  }

  lemma TiedPairBothRemovedFilter(a: Milestone, b: Milestone, c: Milestone, d: Milestone)
    ensures Survivors([a, b, c, d], [1, 1, 3, 3], 1) == [c, d] && Dropped([a, b, c, d], [1, 1, 3, 3], 1) == [b, a]
  {
    assert Survivors([d], [3], 1) == [d] && Dropped([d], [3], 1) == [];
    assert [c, d][1..] == [d] && [3, 3][1..] == [3];
    assert Survivors([c, d], [3, 3], 1) == [c, d] && Dropped([c, d], [3, 3], 1) == [];
    assert [b, c, d][1..] == [c, d] && [1, 3, 3][1..] == [3, 3];
    assert Survivors([b, c, d], [1, 3, 3], 1) == [c, d] && Dropped([b, c, d], [1, 3, 3], 1) == [b];
    assert [a, b, c, d][1..] == [b, c, d] && [1, 1, 3, 3][1..] == [1, 3, 3];
  }
  /** Measures 1, 2, 0, 3: a milestone that interrupts an ascending sequence scores lowest and is the only one removed. */
  lemma InterruptingMilestoneRemoved(a: Milestone, b: Milestone, c: Milestone, d: Milestone)
    requires a.measure == 1.0 && b.measure == 2.0 && c.measure == 0.0 && d.measure == 3.0
    ensures Resolve([a, b, c, d]) == Resolution([a, b, d], [c])
  {
    var ms := [a, b, c, d];
    assert !InOrder(ms) by { assert ms[0].measure >= ms[2].measure; }
    InterruptingMilestoneRemovedScores(a, b, c, d);
    InterruptingMilestoneRemovedLowest();
    InterruptingMilestoneRemovedFilter(a, b, c, d);
    ResolveRound(ms, [1, 1, -1, 3], -1, [a, b, d], [c]);
    assert InOrder([a, b, d]);
    ResolveKeepsOrderedList([a, b, d]);
  }

  lemma InterruptingMilestoneRemovedScores(a: Milestone, b: Milestone, c: Milestone, d: Milestone)
    requires a.measure == 1.0 && b.measure == 2.0 && c.measure == 0.0 && d.measure == 3.0
    ensures ScoresOf([a, b, c, d]) == [1, 1, -1, 3]
  {
    var ms := [a, b, c, d];
    assert ScoreUpTo(ms, 0, 0) == 0 && ScoreUpTo(ms, 0, 1) == 0 && ScoreUpTo(ms, 0, 2) == 1 && ScoreUpTo(ms, 0, 3) == 0 && ScoreUpTo(ms, 0, 4) == 1;
    assert ScoreUpTo(ms, 1, 0) == 0 && ScoreUpTo(ms, 1, 1) == 1 && ScoreUpTo(ms, 1, 2) == 1 && ScoreUpTo(ms, 1, 3) == 0 && ScoreUpTo(ms, 1, 4) == 1;
    assert ScoreUpTo(ms, 2, 0) == 0 && ScoreUpTo(ms, 2, 1) == -1 && ScoreUpTo(ms, 2, 2) == -2 && ScoreUpTo(ms, 2, 3) == -2 && ScoreUpTo(ms, 2, 4) == -1;
    assert ScoreUpTo(ms, 3, 0) == 0 && ScoreUpTo(ms, 3, 1) == 1 && ScoreUpTo(ms, 3, 2) == 2 && ScoreUpTo(ms, 3, 3) == 3 && ScoreUpTo(ms, 3, 4) == 3;
  }

  lemma InterruptingMilestoneRemovedLowest()
    ensures MinScore([1, 1, -1, 3]) == -1
  {
    assert [1, 1][..1] == [1] && MinScore([1]) == 1;
    assert [1, 1, -1][..2] == [1, 1] && MinScore([1, 1]) == 1;
    assert [1, 1, -1, 3][..3] == [1, 1, -1] && MinScore([1, 1, -1]) == -1;
  }

  lemma InterruptingMilestoneRemovedFilter(a: Milestone, b: Milestone, c: Milestone, d: Milestone)
    ensures Survivors([a, b, c, d], [1, 1, -1, 3], -1) == [a, b, d] && Dropped([a, b, c, d], [1, 1, -1, 3], -1) == [c]
  {
    assert Survivors([d], [3], -1) == [d] && Dropped([d], [3], -1) == [];
    assert [c, d][1..] == [d] && [-1, 3][1..] == [3];
    assert Survivors([c, d], [-1, 3], -1) == [d] && Dropped([c, d], [-1, 3], -1) == [c];
    assert [b, c, d][1..] == [c, d] && [1, -1, 3][1..] == [-1, 3];
    assert Survivors([b, c, d], [1, -1, 3], -1) == [b, d] && Dropped([b, c, d], [1, -1, 3], -1) == [c];
    assert [a, b, c, d][1..] == [b, c, d] && [1, 1, -1, 3][1..] == [1, -1, 3];
  }
  /** Measures 7, 8, 3, 4: every milestone scores -1, so all four are removed and none is kept. */
  lemma MisplacedSequenceAllRemoved(a: Milestone, b: Milestone, c: Milestone, d: Milestone)
    requires a.measure == 7.0 && b.measure == 8.0 && c.measure == 3.0 && d.measure == 4.0
    ensures Resolve([a, b, c, d]) == Resolution([], [d, c, b, a])
  {
    var ms := [a, b, c, d];
    assert !InOrder(ms) by { assert ms[0].measure >= ms[2].measure; }
    MisplacedSequenceAllRemovedScores(a, b, c, d);
    MisplacedSequenceAllRemovedLowest();
    MisplacedSequenceAllRemovedFilter(a, b, c, d);
    ResolveRound(ms, [-1, -1, -1, -1], -1, [], [d, c, b, a]);
    ResolveKeepsOrderedList([]);
  }

  lemma MisplacedSequenceAllRemovedScores(a: Milestone, b: Milestone, c: Milestone, d: Milestone)
    requires a.measure == 7.0 && b.measure == 8.0 && c.measure == 3.0 && d.measure == 4.0
    ensures ScoresOf([a, b, c, d]) == [-1, -1, -1, -1]
  {
    var ms := [a, b, c, d];
    assert ScoreUpTo(ms, 0, 0) == 0 && ScoreUpTo(ms, 0, 1) == 0 && ScoreUpTo(ms, 0, 2) == 1 && ScoreUpTo(ms, 0, 3) == 0 && ScoreUpTo(ms, 0, 4) == -1;
    assert ScoreUpTo(ms, 1, 0) == 0 && ScoreUpTo(ms, 1, 1) == 1 && ScoreUpTo(ms, 1, 2) == 1 && ScoreUpTo(ms, 1, 3) == 0 && ScoreUpTo(ms, 1, 4) == -1;
    assert ScoreUpTo(ms, 2, 0) == 0 && ScoreUpTo(ms, 2, 1) == -1 && ScoreUpTo(ms, 2, 2) == -2 && ScoreUpTo(ms, 2, 3) == -2 && ScoreUpTo(ms, 2, 4) == -1;
    assert ScoreUpTo(ms, 3, 0) == 0 && ScoreUpTo(ms, 3, 1) == -1 && ScoreUpTo(ms, 3, 2) == -2 && ScoreUpTo(ms, 3, 3) == -1 && ScoreUpTo(ms, 3, 4) == -1;
  }

  lemma MisplacedSequenceAllRemovedLowest()
    ensures MinScore([-1, -1, -1, -1]) == -1
  {
    assert [-1, -1][..1] == [-1] && MinScore([-1]) == -1;
    assert [-1, -1, -1][..2] == [-1, -1] && MinScore([-1, -1]) == -1;
    assert [-1, -1, -1, -1][..3] == [-1, -1, -1] && MinScore([-1, -1, -1]) == -1;
  }

  lemma MisplacedSequenceAllRemovedFilter(a: Milestone, b: Milestone, c: Milestone, d: Milestone)
    ensures Survivors([a, b, c, d], [-1, -1, -1, -1], -1) == [] && Dropped([a, b, c, d], [-1, -1, -1, -1], -1) == [d, c, b, a]
  {
    assert Survivors([d], [-1], -1) == [] && Dropped([d], [-1], -1) == [d];
    assert [c, d][1..] == [d] && [-1, -1][1..] == [-1];
    assert Survivors([c, d], [-1, -1], -1) == [] && Dropped([c, d], [-1, -1], -1) == [d, c];
    assert [b, c, d][1..] == [c, d] && [-1, -1, -1][1..] == [-1, -1];
    assert Survivors([b, c, d], [-1, -1, -1], -1) == [] && Dropped([b, c, d], [-1, -1, -1], -1) == [d, c, b];
    assert [a, b, c, d][1..] == [b, c, d] && [-1, -1, -1, -1][1..] == [-1, -1, -1];
  }
}
