/** Reordering of the candidates by a model's scores. */
module Refine {
  import opened Sorting
  import opened Evidence

  datatype Placed = Placed(candidate: Candidate, rank: real, index: nat)

  /** A missing score counts as zero. */
  function RankOf(scores: seq<real>, i: nat): real {
    if i < |scores| then scores[i] else 0.0
  }

  function Placings(candidates: seq<Candidate>, scores: seq<real>): (placings: seq<Placed>)
    ensures |placings| == |candidates|
    ensures forall i :: 0 <= i < |candidates| ==> placings[i] == Placed(candidates[i], RankOf(scores, i), i)
  {
    seq(|candidates|, i requires 0 <= i < |candidates| => Placed(candidates[i], RankOf(scores, i), i))
  }

  predicate PlacedLeq(a: Placed, b: Placed) {
    a.rank > b.rank || (a.rank == b.rank && a.index <= b.index)
  }

  /** What the model judges on topic becomes direct, except the first of the lexical order and what negates. */
  function Relabelled(p: Placed): Candidate {
    if p.index == 0 || p.rank < 0.5 || p.candidate.relevance == Contradictory then p.candidate
    else p.candidate.(relevance := Direct)
  }

  function RelabelAll(placings: seq<Placed>): (r: seq<Candidate>)
    ensures |r| == |placings|
    ensures forall k :: 0 <= k < |placings| ==> r[k] == Relabelled(placings[k])
  {
    seq(|placings|, k requires 0 <= k < |placings| => Relabelled(placings[k]))
  }

  function Reordered(candidates: seq<Candidate>, scores: seq<real>, keep: nat): seq<Candidate> {
    RelabelAll(Take(Sort(Placings(candidates, scores), PlacedLeq), keep))
  }

  /** `i` precedes `j`: a higher score, or the same score and the earlier place. */
  predicate Precedes(scores: seq<real>, i: nat, j: nat) {
    RankOf(scores, i) > RankOf(scores, j) || (RankOf(scores, i) == RankOf(scores, j) && i < j)
  }

  /** `result` holds the candidates at the places `picks`, the best `keep` of them in order of precedence,
      untouched but for their labels. */
  ghost predicate Selects(candidates: seq<Candidate>, scores: seq<real>, keep: nat, result: seq<Candidate>,
                          picks: seq<nat>) {
    && |result| == |picks| == (if keep < |candidates| then keep else |candidates|)
    && (forall k :: 0 <= k < |picks| ==> picks[k] < |candidates|)
    && (forall k, l :: 0 <= k < l < |picks| ==> Precedes(scores, picks[k], picks[l]))
    && (forall k, j :: 0 <= k < |picks| && 0 <= j < |candidates| && j !in picks ==> Precedes(scores, picks[k], j))
    && (forall k :: 0 <= k < |picks| ==>
          OnlyRaised(candidates[picks[k]], result[k], RankOf(scores, picks[k]), picks[k]))
  }

  /** Nothing but the label differs, which is direct where the score says on topic, after the first place and without
      negation, and as before everywhere else. */
  predicate OnlyRaised(before: Candidate, after: Candidate, rank: real, place: nat) {
    && after.excerpt == before.excerpt && after.context == before.context && after.score == before.score
    && (rank >= 0.5 && place > 0 && before.relevance != Contradictory ==> after.relevance == Direct)
    && (rank < 0.5 || place == 0 || before.relevance == Contradictory ==> after.relevance == before.relevance)
  }

  lemma PlacedOrder()
    ensures TotalPreorder(PlacedLeq)
  {
  }

  lemma SortedPlacings(candidates: seq<Candidate>, scores: seq<real>) returns (sorted: seq<Placed>)
    ensures sorted == Sort(Placings(candidates, scores), PlacedLeq)
    ensures |sorted| == |candidates| && AllDistinct(sorted) && Sorted(sorted, PlacedLeq)
    ensures forall p :: p in sorted <==> p in Placings(candidates, scores)
  {
    var placings := Placings(candidates, scores);
    sorted := Sort(placings, PlacedLeq);
    PlacedOrder();
    SortPermutes(placings, PlacedLeq);
    SortSorts(placings, PlacedLeq);
    PermutedDistinct(placings, sorted);
    forall p ensures p in sorted <==> p in placings {
      SameMembers(sorted, placings, p);
    }
  }

  lemma IsIn<T>(s: seq<T>, i: nat)
    ensures i < |s| ==> s[i] in s
  {
  }

  /** The model only selects and reorders. */
  lemma ReorderingSelects(candidates: seq<Candidate>, scores: seq<real>, keep: nat) returns (picks: seq<nat>)
    ensures Selects(candidates, scores, keep, Reordered(candidates, scores, keep), picks)
  {
    var placings := Placings(candidates, scores);
    var sorted := SortedPlacings(candidates, scores);
    var top := Take(sorted, keep);
    hide Sort;
    picks := seq(|top|, k requires 0 <= k < |top| => top[k].index);
    forall k | 0 <= k < |sorted| ensures FromPlacings(candidates, scores, sorted[k]) {
      assert sorted[k] in placings;
    }
    forall k, l | 0 <= k < l < |sorted| ensures Precedes(scores, sorted[k].index, sorted[l].index) {
      assert PlacedLeq(sorted[k], sorted[l]);
      assert FromPlacings(candidates, scores, sorted[k]) && FromPlacings(candidates, scores, sorted[l]);
    }
    forall k, j | 0 <= k < |picks| && 0 <= j < |candidates| && j !in picks ensures Precedes(scores, picks[k], j) {
      assert placings[j] in sorted;
      var l :| 0 <= l < |sorted| && sorted[l] == placings[j];
      IsIn(picks, l);
      assert Precedes(scores, sorted[k].index, sorted[l].index);
    }
  }

  predicate FromPlacings(candidates: seq<Candidate>, scores: seq<real>, p: Placed) {
    p.index < |candidates| && p == Placed(candidates[p.index], RankOf(scores, p.index), p.index)
  }

  /** Nothing is dropped exactly if no more candidates were shown than are kept. */
  lemma NothingDroppedIff(candidates: seq<Candidate>, scores: seq<real>, keep: nat)
    ensures |Reordered(candidates, scores, keep)| == |candidates| <==> |candidates| <= keep
  {
    var picks := ReorderingSelects(candidates, scores, keep);
  }

  lemma {:induction false} SortedIsFixed<T>(s: seq<T>, leq: (T, T) -> bool)
    requires Sorted(s, leq)
    ensures Sort(s, leq) == s
  {
    if s != [] {
      SortedIsFixed(s[1..], leq);
      assert s == [s[0]] + s[1..];
      assert |s| > 1 ==> leq(s[0], s[1]);
    }
  }

  /** Scores that do not distinguish the candidates, and do not find them on topic, change nothing. */
  lemma FlatScoresChangeNothing(candidates: seq<Candidate>, scores: seq<real>, keep: nat, rank: real)
    requires rank < 0.5 && forall i :: 0 <= i < |candidates| ==> RankOf(scores, i) == rank
    ensures Reordered(candidates, scores, keep) == Take(candidates, keep)
  {
    var placings := Placings(candidates, scores);
    SortedIsFixed(placings, PlacedLeq);
  }
}
