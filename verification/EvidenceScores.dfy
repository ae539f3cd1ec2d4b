/** What a passage scores, in terms of its words: the weights of the question terms that it matches and half a
    point for every pair of different neighbours. */
module EvidenceScores {
  import opened Common
  import opened Text
  import opened Sorting
  import opened Terms
  import opened Evidence
  import opened EvidenceTheorems

  // ----- Sums over sets -----

  ghost function Pick(ts: set<string>): (t: string)
    requires ts != {}
    ensures t in ts
  {
    var t :| t in ts;
    t
  }

  ghost function Total(ts: set<string>, w: string -> real): real {
    if ts == {} then 0.0 else w(Pick(ts)) + Total(ts - {Pick(ts)}, w)
  }

  lemma {:induction false} TotalTake(ts: set<string>, w: string -> real, t: string)
    requires t in ts
    ensures Total(ts, w) == w(t) + Total(ts - {t}, w)
    decreases |ts|
  {
    var x := Pick(ts);
    if x != t {
      TotalTake(ts - {x}, w, t);
      TotalTake(ts - {t}, w, x);
      assert ts - {x} - {t} == ts - {t} - {x};
    }
  }

  /** A larger set weighs at least `least` more, the least weight of any member. */
  lemma {:induction false} TotalGrows(a: set<string>, b: set<string>, w: string -> real, least: real)
    requires a <= b && least >= 0.0 && forall t :: t in b ==> w(t) >= least
    ensures Total(b, w) >= Total(a, w) + if a == b then 0.0 else least
    decreases |b - a|
  {
    if a != b {
      assert b == a + (b - a);
      var t := Pick(b - a);
      assert b - {t} - a < b - a;
      TotalTake(b, w, t);
      TotalGrows(a, b - {t}, w, least);
    }
  }

  function Members(s: seq<string>): set<string> {
    set x | x in s
  }

  lemma MembersLast(init: seq<string>, last: string)
    ensures Members(init + [last]) == Members(init) + {last}
    ensures last !in init ==> last !in Members(init)
  {
  }

  // ----- A passage by its words -----

  /** The question terms that some token of the text matches. */
  function Matched(text: string, terms: set<string>, al: Alphabet): set<string> {
    var tokens := Tokenize(text, al);
    set i | 0 <= i < |tokens| && MatchTerm(tokens[i], terms).Some? :: MatchTerm(tokens[i], terms).value
  }

  predicate MatchDifferently(a: string, b: string, terms: set<string>) {
    MatchTerm(a, terms).Some? && MatchTerm(b, terms).Some? && MatchTerm(a, terms) != MatchTerm(b, terms)
  }

  /** The positions where two neighbouring tokens match different terms. */
  function Pairs(text: string, terms: set<string>, al: Alphabet): set<nat> {
    var tokens := Tokenize(text, al);
    set i: nat {:trigger tokens[i]} | 0 < i < |tokens| && MatchDifferently(tokens[i - 1], tokens[i], terms)
  }

  /** The passages that match the term. */
  function Holders(segments: seq<Segment>, term: string, terms: set<string>, al: Alphabet): set<nat> {
    set i: nat | i < |segments| && term in Matched(segments[i].text, terms, al)
  }

  /** The weight of each term, by how many of the passages match it. */
  ghost function Weights(segments: seq<Segment>, terms: set<string>, idf: Weight, al: Alphabet): string -> real {
    t => idf(|segments|, |Holders(segments, t, terms, al)|)
  }

  /** The score of a passage before rounding. */
  ghost function Merit(segments: seq<Segment>, i: nat, terms: set<string>, idf: Weight, al: Alphabet): real
    requires i < |segments|
  {
    Total(Matched(segments[i].text, terms, al), Weights(segments, terms, idf, al))
    + 0.5 * |Pairs(segments[i].text, terms, al)| as real
  }

  lemma MatchedIs(text: string, terms: set<string>, al: Alphabet)
    ensures Members(EntryOf(text, terms, al).matched) == Matched(text, terms, al)
    ensures EntryOf(text, terms, al).matched == [] <==> Matched(text, terms, al) == {}
  {
    hide Tokenize, MatchTerm, Distinct, Adjacent;
    var tokens := Tokenize(text, al);
    var hits := Hits(tokens, terms);
    DistinctMembers(hits);
    forall t | t in Members(Distinct(hits)) ensures t in Matched(text, terms, al) {
      var i :| 0 <= i < |hits| && hits[i] == Some(t);
    }
    forall t | t in Matched(text, terms, al) ensures t in Members(Distinct(hits)) {
      var i :| 0 <= i < |tokens| && MatchTerm(tokens[i], terms) == Some(t);
      assert hits[i] == Some(t);
    }
    assert Distinct(hits) != [] ==> Distinct(hits)[0] in Members(Distinct(hits));
  }

  function Differing(hits: seq<Option<string>>): set<nat> {
    set i: nat | i < |hits| && Neighbours(hits, i)
  }

  lemma {:induction false} AdjacentIs(hits: seq<Option<string>>)
    ensures Adjacent(hits) == |Differing(hits)|
  {
    if hits == [] {
      assert Differing(hits) == {};
    } else {
      var n := |hits| - 1;
      var init := hits[..n];
      AdjacentIs(init);
      forall i: nat | i < n ensures Neighbours(hits, i) == Neighbours(init, i) {
      }
      assert Differing(hits) == Differing(init) + if Neighbours(hits, n) then {n} else {};
    }
  }

  lemma PairsAre(text: string, terms: set<string>, al: Alphabet)
    ensures EntryOf(text, terms, al).adjacency == |Pairs(text, terms, al)|
  {
    hide Tokenize, MatchTerm, Distinct, Adjacent;
    var hits := Hits(Tokenize(text, al), terms);
    AdjacentIs(hits);
    assert Pairs(text, terms, al) == Differing(hits);
  }

  function With(entries: seq<Entry>, term: string): set<nat> {
    set i: nat | i < |entries| && term in entries[i].matched
  }

  lemma {:induction false} FrequencyIs(entries: seq<Entry>, term: string)
    ensures DocumentFrequency(entries, term) == |With(entries, term)|
  {
    if entries == [] {
      assert With(entries, term) == {};
    } else {
      var n := |entries| - 1;
      FrequencyIs(entries[..n], term);
      assert With(entries, term) == With(entries[..n], term) + if term in entries[n].matched then {n} else {};
    }
  }

  lemma HoldersAre(segments: seq<Segment>, term: string, terms: set<string>, al: Alphabet)
    ensures DocumentFrequency(EntriesOf(segments, terms, al), term) == |Holders(segments, term, terms, al)|
    ensures |Holders(segments, term, terms, al)| <= |segments|
  {
    hide EntryOf, Matched, DocumentFrequency;
    var entries := EntriesOf(segments, terms, al);
    FrequencyIs(entries, term);
    forall i: nat | i < |segments|
      ensures term in entries[i].matched <==> term in Matched(segments[i].text, terms, al)
    {
      MatchedIs(segments[i].text, terms, al);
    }
    assert Holders(segments, term, terms, al) == With(entries, term);
    FewIndices(Holders(segments, term, terms, al), |segments|);
  }

  lemma {:induction false} FewIndices(s: set<nat>, n: nat)
    requires forall i :: i in s ==> i < n
    ensures |s| <= n
  {
    if s != {} {
      FewIndices(s - {n - 1}, n - 1);
    }
  }

  lemma {:induction false} SumIsTotal(c: Corpus, ts: seq<string>, w: string -> real)
    requires forall t :: t in ts ==> w(t) == TermWeight(c, t)
    requires forall i, j :: 0 <= i < j < |ts| ==> ts[i] != ts[j]
    ensures SumOf(c, ts) == Total(Members(ts), w)
  {
    hide TermWeight;
    if ts == [] {
      assert Members(ts) == {};
    } else {
      var n := |ts| - 1;
      var init, last := ts[..n], ts[n];
      assert ts == init + [last];
      SumIsTotal(c, init, w);
      MembersLast(init, last);
      assert Members(ts) - {last} == Members(init);
      TotalTake(Members(ts), w, last);
    }
  }

  /** A passage's score is the weight of the terms it matches, each counted once and weighed by the number of passages
      that match it, and half a point for each pair. */
  lemma ScoreIsMerit(segments: seq<Segment>, i: nat, tokens: seq<string>, idf: Weight, al: Alphabet)
    requires i < |segments|
    ensures var c := CorpusOf(segments, tokens, idf, al);
            ExactScore(c, c.entries[i]) == Merit(segments, i, TermsOf(tokens), idf, al)
  {
    hide EntryOf, Matched, DocumentFrequency, Holders, SumOf, Total, Pairs, TermsOf, Tokenize, Bases;
    var c, terms := CorpusOf(segments, tokens, idf, al), TermsOf(tokens);
    var e, w := c.entries[i], Weights(segments, terms, idf, al);
    MatchedIs(segments[i].text, terms, al);
    PairsAre(segments[i].text, terms, al);
    EntriesAreOver(segments, terms, al);
    assert e in c.entries;
    forall t | t in e.matched ensures w(t) == TermWeight(c, t) {
      HoldersAre(segments, t, terms, al);
    }
    SumIsTotal(c, e.matched, w);
  }

  /** The source's weights: at least a millionth, for as many passages as there are at most. */
  ghost predicate Weighty(idf: Weight) {
    forall n, d :: 0 < n && d <= n ==> idf(n, d) >= 0.000001
  }

  /** One more term adds exactly its weight to what a passage scores beside its pairs. */
  lemma MeritCounts(segments: seq<Segment>, i: nat, j: nat, term: string, terms: set<string>, idf: Weight, al: Alphabet)
    requires i < |segments| && j < |segments| && term !in Matched(segments[j].text, terms, al)
    requires Matched(segments[i].text, terms, al) == Matched(segments[j].text, terms, al) + {term}
    ensures Merit(segments, i, terms, idf, al) - 0.5 * |Pairs(segments[i].text, terms, al)| as real
         == Merit(segments, j, terms, idf, al) - 0.5 * |Pairs(segments[j].text, terms, al)| as real
            + idf(|segments|, |Holders(segments, term, terms, al)|)
  {
    hide Matched, Pairs, Holders;
    var a, b := Matched(segments[i].text, terms, al), Matched(segments[j].text, terms, al);
    assert a - {term} == b;
    TotalTake(a, Weights(segments, terms, idf, al), term);
  }

  /** Every passage that matches anything is ranked, once, with its rounded merit. */
  lemma RankedByMerit(segments: seq<Segment>, i: nat, tokens: seq<string>, idf: Weight, al: Alphabet)
    requires i < |segments|
    ensures var ranked := Ranked(CorpusOf(segments, tokens, idf, al));
            && ((exists p :: 0 <= p < |ranked| && ranked[p].index == i)
                <==> Matched(segments[i].text, TermsOf(tokens), al) != {})
            && forall p :: 0 <= p < |ranked| && ranked[p].index == i ==>
                             ranked[p].score == Round6(Merit(segments, i, TermsOf(tokens), idf, al))
  {
    hide EntryOf, Ranked, Items, Merit, ExactScore, Round6, Matched, Tokenize, Bases, TermsOf;
    var c := CorpusOf(segments, tokens, idf, al);
    MatchedIs(segments[i].text, TermsOf(tokens), al);
    ScoreIsMerit(segments, i, tokens, idf, al);
    ItemsMeaning(c, |c.entries|);
    var ranked := Ranked(c);
    forall p | 0 <= p < |ranked| ensures ranked[p] in Items(c, |c.entries|) {
      RankedMembers(c, ranked[p]);
      assert ranked[p] in ranked;
    }
    if c.entries[i].matched != [] {
      var x := Item(i, Round6(ExactScore(c, c.entries[i])));
      RankedMembers(c, x);
      var p :| 0 <= p < |ranked| && ranked[p] == x;
    }
  }

  /** Matching more never costs merit. */
  lemma MeritGrows(segments: seq<Segment>, i: nat, j: nat, terms: set<string>, idf: Weight, al: Alphabet, least: real)
    requires i < |segments| && j < |segments| && 0.0 <= least <= 0.5
    requires forall n, d :: 0 < n && d <= n ==> idf(n, d) >= least
    requires Matched(segments[j].text, terms, al) <= Matched(segments[i].text, terms, al)
    requires |Pairs(segments[j].text, terms, al)| <= |Pairs(segments[i].text, terms, al)|
    ensures Merit(segments, i, terms, idf, al) >= Merit(segments, j, terms, idf, al)
    ensures Matched(segments[j].text, terms, al) != Matched(segments[i].text, terms, al)
            || |Pairs(segments[j].text, terms, al)| < |Pairs(segments[i].text, terms, al)|
            ==> Merit(segments, i, terms, idf, al) >= Merit(segments, j, terms, idf, al) + least
  {
    hide Matched, Pairs, Holders;
    var w := Weights(segments, terms, idf, al);
    forall t ensures w(t) >= least {
      HoldersAre(segments, t, terms, al);
    }
    TotalGrows(Matched(segments[j].text, terms, al), Matched(segments[i].text, terms, al), w, least);
  }

  lemma InOrder(c: Corpus, p: nat, q: nat)
    requires p < |Ranked(c)| && q < |Ranked(c)| && Ahead(Ranked(c)[p], Ranked(c)[q])
    ensures p < q
  {
    NotBehind(c, q, p);
  }

  /** A passage that matches all that another matches, with no fewer pairs, scores no less; so it comes first if it
      stands first in the document, and wherever it stands if it matches more or has more pairs. */
  lemma MoreMatchedRanksAhead(segments: seq<Segment>, tokens: seq<string>, idf: Weight, al: Alphabet, p: nat, q: nat)
    requires Positive(idf) && p != q
    requires var ranked := Ranked(CorpusOf(segments, tokens, idf, al));
             && p < |ranked| && q < |ranked| && ranked[p].index < |segments| && ranked[q].index < |segments|
             && var (a, b) := (segments[ranked[p].index].text, segments[ranked[q].index].text);
             && Matched(b, TermsOf(tokens), al) <= Matched(a, TermsOf(tokens), al)
             && |Pairs(b, TermsOf(tokens), al)| <= |Pairs(a, TermsOf(tokens), al)|
    ensures var ranked := Ranked(CorpusOf(segments, tokens, idf, al));
            var (a, b) := (segments[ranked[p].index].text, segments[ranked[q].index].text);
            && ranked[p].score >= ranked[q].score
            && (ranked[p].index < ranked[q].index ==> p < q)
            && (Weighty(idf) && Matched(a, TermsOf(tokens), al) != Matched(b, TermsOf(tokens), al) ==> p < q)
            && (Weighty(idf) && |Pairs(b, TermsOf(tokens), al)| < |Pairs(a, TermsOf(tokens), al)| ==> p < q)
  {
    hide Ranked, Merit, Round6, Matched, Pairs, Tokenize, Bases, TermsOf, CorpusOf;
    var c := CorpusOf(segments, tokens, idf, al);
    var x, y := Ranked(c)[p], Ranked(c)[q];
    var terms := TermsOf(tokens);
    RankedByMerit(segments, x.index, tokens, idf, al);
    RankedByMerit(segments, y.index, tokens, idf, al);
    MeritGrows(segments, x.index, y.index, terms, idf, al, 0.0);
    if Weighty(idf) {
      MeritGrows(segments, x.index, y.index, terms, idf, al, 0.000001);
    }
    RoundingKeepsOrder(Merit(segments, x.index, terms, idf, al), Merit(segments, y.index, terms, idf, al));
    if Ahead(x, y) {
      InOrder(c, p, q);
    }
  }

  // ----- Coverage and labels by words -----

  lemma {:induction false} MaxIsHeaviest(c: Corpus, ts: seq<string>)
    requires ts != [] && Positive(c.idf) && |c.entries| > 0
    ensures exists v :: v in ts && MaxOf(c, ts) == TermWeight(c, v)
    ensures forall v :: v in ts ==> TermWeight(c, v) <= MaxOf(c, ts)
  {
    hide TermWeight;
    var n := |ts| - 1;
    var init, last := ts[..n], ts[n];
    assert ts == init + [last] && last in ts;
    WeightIsPositive(c, last);
    if init != [] {
      MaxIsHeaviest(c, init);
    }
  }

  lemma WeightIsPositive(c: Corpus, t: string)
    requires Positive(c.idf) && |c.entries| > 0
    ensures TermWeight(c, t) > 0.0
  {
  }

  /** The words of the question that some variant in the passage speaks to. */
  ghost function Covered(text: string, tokens: seq<string>, al: Alphabet): set<string> {
    set b | b in tokens && Significant(b) && exists v :: v in GroupOf(b) && v in Matched(text, TermsOf(tokens), al)
  }

  /** A word weighs what its heaviest variant weighs. */
  ghost predicate WeighsHeaviest(b: string, w: string -> real, weight: real) {
    && (exists v :: v in GroupOf(b) && weight == w(v))
    && forall v :: v in GroupOf(b) ==> w(v) <= weight
  }

  function HitBases(bases: seq<string>, matched: seq<string>): set<string> {
    set b | b in bases && IsHit(b, matched)
  }

  lemma HitBasesLast(init: seq<string>, last: string, matched: seq<string>)
    requires last !in init
    ensures last !in HitBases(init, matched)
    ensures HitBases(init + [last], matched) == HitBases(init, matched) + if IsHit(last, matched) then {last} else {}
  {
    hide IsHit;
  }

  lemma TotalAdd(ts: set<string>, w: string -> real, t: string)
    requires t !in ts
    ensures Total(ts + {t}, w) == Total(ts, w) + w(t)
  {
    TotalTake(ts + {t}, w, t);
    assert ts + {t} - {t} == ts;
  }

  lemma LastIsNew(bases: seq<string>)
    requires bases != [] && forall i, j :: 0 <= i < j < |bases| ==> bases[i] != bases[j]
    ensures bases[|bases| - 1] !in bases[..|bases| - 1]
  {
  }

  lemma {:induction false} MassIsTotal(c: Corpus, bases: seq<string>, matched: seq<string>, w: string -> real)
    requires forall b :: b in bases ==> w(b) == WordWeight(c, b)
    requires forall i, j :: 0 <= i < j < |bases| ==> bases[i] != bases[j]
    ensures Mass(c, bases) == Total(Members(bases), w)
    ensures HitMass(c, bases, matched) == Total(HitBases(bases, matched), w)
  {
    hide WordWeight, IsHit, HitBases, Members, Total;
    if bases == [] {
      NoMembers(matched, w);
    } else {
      var n := |bases| - 1;
      var init, last := bases[..n], bases[n];
      assert bases == init + [last] && last in bases;
      MassIsTotal(c, init, matched, w);
      LastIsNew(bases);
      MembersLast(init, last);
      HitBasesLast(init, last, matched);
      TotalAdd(Members(init), w, last);
      TotalAdd(HitBases(init, matched), w, last);
      assert HitBases(init, matched) + {} == HitBases(init, matched);
    }
  }

  lemma NoMembers(matched: seq<string>, w: string -> real)
    ensures Total(Members([]), w) == 0.0 && Total(HitBases([], matched), w) == 0.0
  {
    assert Members([]) == {} && HitBases([], matched) == {};
  }

  lemma CoveredIs(text: string, tokens: seq<string>, al: Alphabet)
    ensures HitBases(Bases(tokens), EntryOf(text, TermsOf(tokens), al).matched) == Covered(text, tokens, al)
  {
    hide EntryOf, Matched, GroupOf, Significant, TermsOf, Bases;
    BasesMembers(tokens);
    MatchedIs(text, TermsOf(tokens), al);
    var matched := EntryOf(text, TermsOf(tokens), al).matched;
    forall v ensures v in matched <==> v in Matched(text, TermsOf(tokens), al) {
      assert v in matched <==> v in Members(matched);
    }
  }

  lemma WordIsHeaviest(segments: seq<Segment>, b: string, tokens: seq<string>, idf: Weight, al: Alphabet)
    requires segments != [] && Positive(idf) && Significant(b)
    ensures WeighsHeaviest(b, Weights(segments, TermsOf(tokens), idf, al),
                           WordWeight(CorpusOf(segments, tokens, idf, al), b))
  {
    hide EntriesOf, GroupOf, Significant, TermsOf, TermWeight, Weights, MaxOf, Bases, Positive;
    var c := CorpusOf(segments, tokens, idf, al);
    OwnGroup(b);
    MaxIsHeaviest(c, GroupOf(b));
    forall v ensures TermWeight(c, v) == Weights(segments, TermsOf(tokens), idf, al)(v) {
      WeightIs(segments, v, tokens, idf, al);
    }
  }

  lemma QuotientIsShare(part: real, whole: real)
    requires whole > 0.0
    ensures part / whole * whole == part
  {
  }

  /** Coverage is the weight of the question's words that the passage speaks to over the weight of all of them, a word
      weighing what its heaviest variant weighs. */
  lemma CoverageIsShare(segments: seq<Segment>, i: nat, tokens: seq<string>, idf: Weight, al: Alphabet)
    returns (w: string -> real)
    requires i < |segments| && Positive(idf) && exists b :: b in tokens && Significant(b)
    ensures forall b :: b in tokens && Significant(b) ==>
                          WeighsHeaviest(b, Weights(segments, TermsOf(tokens), idf, al), w(b))
    ensures var c := CorpusOf(segments, tokens, idf, al);
            var all := set b | b in tokens && Significant(b);
            && Total(all, w) > 0.0
            && Coverage(c, c.entries[i].matched) * Total(all, w) == Total(Covered(segments[i].text, tokens, al), w)
  {
    hide EntryOf, TermsOf, Significant, Positive, Mass, HitMass, Bases, Covered, IsHit, WordWeight, Weights,
         WeighsHeaviest, Total;
    var c := CorpusOf(segments, tokens, idf, al);
    var matched := c.entries[i].matched;
    w := b => WordWeight(c, b);
    BasesMembers(tokens);
    MassIsTotal(c, c.bases, matched, w);
    HitMassBounds(c, c.bases, matched);
    CoveredIs(segments[i].text, tokens, al);
    assert Members(c.bases) == set b | b in tokens && Significant(b);
    QuotientIsShare(HitMass(c, c.bases, matched), Mass(c, c.bases));
    forall b | b in tokens && Significant(b)
      ensures WeighsHeaviest(b, Weights(segments, TermsOf(tokens), idf, al), w(b))
    {
      WordIsHeaviest(segments, b, tokens, idf, al);
    }
  }

  lemma WeightIs(segments: seq<Segment>, v: string, tokens: seq<string>, idf: Weight, al: Alphabet)
    ensures TermWeight(CorpusOf(segments, tokens, idf, al), v) == Weights(segments, TermsOf(tokens), idf, al)(v)
  {
    HoldersAre(segments, v, TermsOf(tokens), al);
  }

  /** Labels follow the first candidate: a passage that covers the question and is not negated is direct evidence from
      three quarters of the first one's score on, and supporting from seven twentieths on. */
  lemma LabelsFollowTheFirst(c: Corpus, segments: seq<Segment>, k: nat, maxExcerptChars: int, negated: string -> bool)
    requires |segments| == |c.entries| && k < |Ranked(c)| && Positive(c.idf) && Ranked(c)[k].index < |segments|
    ensures var item := Ranked(c)[k];
            var first := Ranked(c)[0].score;
            var relevance := CandidateOf(c, segments, item, maxExcerptChars, negated).relevance;
            var covers := 4.0 * Coverage(c, c.entries[item.index].matched) >= 3.0;
            && (relevance == Contradictory <==> covers && negated(segments[item.index].text))
            && (relevance == Direct <==>
                covers && !negated(segments[item.index].text) && 4.0 * item.score >= 3.0 * first)
            && (relevance == Supporting <==>
                covers && !negated(segments[item.index].text)
                && 20.0 * item.score >= 7.0 * first && 4.0 * item.score < 3.0 * first)
  {
    hide Items, Ranked, Coverage, MaxScore, Truncate, Positive;
    BestComesFirst(c);
    MaxScoreIsMax(Items(c, |c.entries|));
  }

  // ----- What is returned -----

  /** Every candidate is a passage that matches: with its own context, its rounded merit and an excerpt of its text. */
  lemma CandidateIsPassage(segments: seq<Segment>, question: string, options: Options, o: Oracle, k: nat)
    returns (i: nat)
    requires k < |Candidates(segments, question, options, o)|
    ensures i < |segments|
    ensures var candidate := Candidates(segments, question, options, o)[k];
            var terms := TermsOf(Tokenize(question, o.al));
            && Matched(segments[i].text, terms, o.al) != {}
            && candidate.context == segments[i].context
            && candidate.excerpt == Truncate(segments[i].text, options.maxExcerptChars)
            && candidate.score == Round6(Merit(segments, i, terms, o.idf, o.al))
  {
    hide Ranked, Merit, Round6, Matched, Tokenize, Bases, TermsOf, CorpusOf, Truncate, Label, Coverage, MaxScore, Items;
    var c := CorpusOf(segments, Tokenize(question, o.al), o.idf, o.al);
    RankedMeaning(c, k);
    i := Ranked(c)[k].index;
    RankedByMerit(segments, i, Tokenize(question, o.al), o.idf, o.al);
  }
}
