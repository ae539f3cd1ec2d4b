/** What the ranking promises: one order, stable under widening, and labels that require coverage. */
module EvidenceTheorems {
  import opened Common
  import opened Text
  import opened Sorting
  import opened Terms
  import opened Evidence

  ghost predicate Positive(idf: Weight) {
    forall n, d :: n > 0 ==> idf(n, d) > 0.0
  }

  // ----- The order -----

  lemma ItemOrder()
    ensures TotalPreorder(ItemLeq)
  {
  }

  /** The result does not depend on the sorting algorithm: any arrangement of the matching passages by
      falling score, document order deciding between equal scores, is the one returned. */
  lemma OrderIsUnique(c: Corpus, s: seq<Item>)
    requires multiset(s) == multiset(Items(c, |c.entries|)) && Sorted(s, ItemLeq)
    ensures s == Ranked(c)
  {
    var items := Items(c, |c.entries|);
    ItemOrder();
    SortPermutes(items, ItemLeq);
    SortSorts(items, ItemLeq);
    hide Items;
    SortedUnique(s, Ranked(c), ItemLeq);
  }

  predicate Ahead(a: Item, b: Item) {
    a != b && ItemLeq(a, b)
  }

  /** The matching passages that rank before `x`. */
  ghost function AheadOf(c: Corpus, x: Item): set<Item> {
    set y | y in Items(c, |c.entries|) && Ahead(y, x)
  }

  lemma {:induction false} DistinctCount<T>(s: seq<T>)
    requires forall i, j :: 0 <= i < j < |s| ==> s[i] != s[j]
    ensures |set x | x in s| == |s|
  {
    if s == [] {
      assert (set x | x in s) == {};
    } else {
      var n := |s| - 1;
      DistinctCount(s[..n]);
      assert s == s[..n] + [s[n]];
      assert (set x | x in s) == (set x | x in s[..n]) + {s[n]};
    }
  }

  lemma RankedDistinct(c: Corpus)
    ensures forall i, j :: 0 <= i < j < |Ranked(c)| ==> Ranked(c)[i] != Ranked(c)[j]
  {
    var items := Items(c, |c.entries|);
    ItemsMeaning(c, |c.entries|);
    hide Items;
    SortPermutes(items, ItemLeq);
    PermutedDistinct(items, Ranked(c));
  }

  lemma NotBehind(c: Corpus, p: nat, q: nat)
    requires p < |Ranked(c)| && q < |Ranked(c)| && Ahead(Ranked(c)[q], Ranked(c)[p])
    ensures q < p
  {
    ItemOrder();
    SortSorts(Items(c, |c.entries|), ItemLeq);
    hide Items, Sort;
  }

  lemma PlaceIsCount(c: Corpus, p: nat)
    requires p < |Ranked(c)|
    ensures |AheadOf(c, Ranked(c)[p])| == p
  {
    var ranked := Ranked(c);
    var x := ranked[p];
    ItemOrder();
    SortSorts(Items(c, |c.entries|), ItemLeq);
    RankedDistinct(c);
    RankedMembers(c, x);
    forall q | 0 <= q < p ensures ranked[q] in AheadOf(c, x) {
      RankedMembers(c, ranked[q]);
      assert ItemLeq(ranked[q], ranked[p]);
    }
    forall y | y in AheadOf(c, x) ensures y in ranked[..p] {
      RankedMembers(c, y);
      var q :| 0 <= q < |ranked| && ranked[q] == y;
      NotBehind(c, p, q);
      assert ranked[..p][q] == y;
    }
    assert AheadOf(c, x) == set y | y in ranked[..p];
    DistinctCount(ranked[..p]);
  }

  /** A matching passage is among the first `k` exactly if fewer than `k` passages rank before it. */
  lemma TopIffFewAhead(c: Corpus, k: nat, x: Item)
    requires x in Items(c, |c.entries|)
    ensures x in Take(Ranked(c), k) <==> |AheadOf(c, x)| < k
  {
    RankedMembers(c, x);
    var p :| 0 <= p < |Ranked(c)| && Ranked(c)[p] == x;
    PlaceIsCount(c, p);
    RankedDistinct(c);
    hide Ranked, AheadOf, Items;
    var ranked := Ranked(c);
    if p < k {
      assert Take(ranked, k)[p] == x;
    }
  }

  /** Asking for more only appends: what was returned before keeps its place, label, score and excerpt. */
  lemma {:induction false} WideningAppends(segments: seq<Segment>, question: string, o: Oracle, few: int, many: int,
                                           maxExcerptChars: int)
    requires few <= many
    ensures var a := Candidates(segments, question, Options(few, maxExcerptChars), o);
            var b := Candidates(segments, question, Options(many, maxExcerptChars), o);
            |a| <= |b| && a == b[..|a|]
  {
    hide Ranked, Tokenize, CorpusOf, CandidateOf;
  }

  /** Rounding never turns the order around, and does not even tie passages a millionth apart. */
  lemma RoundingKeepsOrder(x: real, y: real)
    ensures x >= y ==> Round6(x) >= Round6(y)
    ensures x >= y + 0.000001 ==> Round6(x) > Round6(y)
    ensures Round6(x) - x <= 0.0000005 && x - Round6(x) <= 0.0000005
  {
    var a, b := x * 1000000.0 + 0.5, y * 1000000.0 + 0.5;
    FloorOrder(a, b);
    Scaled(a.Floor as real, x);
    Scaled(a.Floor as real, Round6(y));
    assert Round6(y) * 1000000.0 == b.Floor as real;
  }

  lemma FloorOrder(a: real, b: real)
    ensures a >= b ==> a.Floor >= b.Floor
    ensures a >= b + 1.0 ==> a.Floor >= b.Floor + 1
    ensures a.Floor as real <= a < a.Floor as real + 1.0
  {
  }

  lemma Scaled(n: real, x: real)
    ensures n >= x * 1000000.0 <==> n / 1000000.0 >= x
    ensures n > x * 1000000.0 <==> n / 1000000.0 > x
  {
  }

  // ----- Coverage -----

  lemma {:induction false} MaxPositive(c: Corpus, terms: seq<string>)
    requires Positive(c.idf) && |c.entries| > 0
    ensures MaxOf(c, terms) >= 0.0 && (terms != [] ==> MaxOf(c, terms) > 0.0)
  {
    if terms != [] {
      MaxPositive(c, terms[..|terms| - 1]);
    }
  }

  lemma WordWeightPositive(c: Corpus, b: string)
    requires Positive(c.idf) && |c.entries| > 0 && Significant(b)
    ensures WordWeight(c, b) > 0.0
  {
    OwnGroup(b);
    MaxPositive(c, GroupOf(b));
  }

  lemma LastBase(c: Corpus, init: seq<string>, last: string, matched: seq<string>)
    ensures Mass(c, init + [last]) == Mass(c, init) + WordWeight(c, last)
    ensures HitMass(c, init + [last], matched)
         == HitMass(c, init, matched) + if IsHit(last, matched) then WordWeight(c, last) else 0.0
    ensures Mass(c, []) == 0.0 && HitMass(c, [], matched) == 0.0
  {
    hide WordWeight, IsHit;
    assert (init + [last])[..|init|] == init;
  }

  lemma {:induction false} HitMassBounds(c: Corpus, bases: seq<string>, matched: seq<string>)
    requires Positive(c.idf) && |c.entries| > 0 && forall b :: b in bases ==> Significant(b)
    ensures 0.0 <= HitMass(c, bases, matched) <= Mass(c, bases)
    ensures HitMass(c, bases, matched) == Mass(c, bases) <==> forall b :: b in bases ==> IsHit(b, matched)
    ensures bases != [] ==> Mass(c, bases) > 0.0
  {
    hide *;
    if bases == [] {
      LastBase(c, [], "", matched);
    } else {
      var n := |bases| - 1;
      var init, last := bases[..n], bases[n];
      assert bases == init + [last];
      assert last in bases && forall b :: b in init ==> b in bases;
      HitMassBounds(c, init, matched);
      WordWeightPositive(c, last);
      LastBase(c, init, last, matched);
    }
  }

  lemma Share(part: real, whole: real, q: real)
    requires 0.0 <= part <= whole && 0.0 < whole && q * whole == part
    ensures 0.0 <= q <= 1.0 && (q == 1.0 <==> part == whole)
  {
    ProductOrder(q, 1.0, whole);
    ProductOrder(0.0, q, whole);
    ProductOrder(1.0, q, whole);
    assert 1.0 * whole == whole;
    if q == 1.0 {
      assert q * whole == 1.0 * whole;
    }
  }

  lemma ProductOrder(a: real, b: real, w: real)
    requires w > 0.0
    ensures a <= b <==> a * w <= b * w
  {
    assert b * w - a * w == (b - a) * w;
    if a <= b {
      assert (b - a) * w >= 0.0;
    } else {
      assert (a - b) * w > 0.0;
    }
  }

  /** Coverage is a share of the whole, and is the whole exactly if every word of the question is hit. */
  lemma FullCoverageIff(c: Corpus, matched: seq<string>)
    requires Positive(c.idf) && |c.entries| > 0
    requires c.bases != [] && forall b :: b in c.bases ==> Significant(b)
    ensures 0.0 <= Coverage(c, matched) <= 1.0
    ensures Coverage(c, matched) == 1.0 <==> forall b :: b in c.bases ==> IsHit(b, matched)
  {
    hide HitMass, Mass, IsHit, Positive;
    HitMassBounds(c, c.bases, matched);
    var part, whole := HitMass(c, c.bases, matched), Mass(c, c.bases);
    assert part / whole * whole == part;
    Share(part, whole, part / whole);
  }

  /** A passage with the word in it hits the word. */
  lemma VerbatimHits(text: string, tokens: seq<string>, b: string, al: Alphabet)
    requires b in Bases(tokens) && b in Tokenize(text, al)
    ensures IsHit(b, EntryOf(text, TermsOf(tokens), al).matched)
  {
    var terms := TermsOf(tokens);
    var words := Tokenize(text, al);
    var hits := Hits(words, terms);
    BasesMembers(tokens);
    VerbatimMatches(b, tokens, terms);
    OwnGroup(b);
    DistinctMembers(hits);
    var i :| 0 <= i < |words| && words[i] == b;
    hide Tokenize, MatchTerm, GroupOf, Distinct, Adjacent;
    assert hits[i] == Some(b);
  }

  /** A segment that has every significant word of the question, as written, covers the question. */
  lemma VerbatimCovers(segments: seq<Segment>, i: nat, tokens: seq<string>, idf: Weight, al: Alphabet)
    requires Positive(idf) && i < |segments| && Bases(tokens) != []
    requires forall b :: b in Bases(tokens) ==> b in Tokenize(segments[i].text, al)
    ensures var c := CorpusOf(segments, tokens, idf, al);
            Coverage(c, c.entries[i].matched) == 1.0
  {
    var c := CorpusOf(segments, tokens, idf, al);
    BasesMembers(tokens);
    forall b | b in c.bases ensures IsHit(b, c.entries[i].matched) {
      VerbatimHits(segments[i].text, tokens, b, al);
    }
    hide Coverage, IsHit, Tokenize, Bases, Significant, EntryOf, Positive;
    FullCoverageIff(c, c.entries[i].matched);
  }

  /** In particular one that quotes the question, whatever stands before and after. */
  lemma QuotingCovers(segments: seq<Segment>, i: nat, question: string, before: string, after: string, o: Oracle)
    requires Positive(o.idf) && o.al.lower(' ') == ' ' && i < |segments|
    requires segments[i].text == before + [' '] + question + [' '] + after
    requires Bases(Tokenize(question, o.al)) != []
    ensures var c := CorpusOf(segments, Tokenize(question, o.al), o.idf, o.al);
            Coverage(c, c.entries[i].matched) == 1.0
  {
    var tokens := Tokenize(question, o.al);
    QuotedTokens(before, question, after, o.al);
    BasesMembers(tokens);
    hide Tokenize, Bases, Coverage, CorpusOf, Positive;
    VerbatimCovers(segments, i, tokens, o.idf, o.al);
  }

  // ----- Labels -----

  lemma {:induction false} MaxScoreIsMax(items: seq<Item>)
    ensures forall x :: x in items ==> x.score <= MaxScore(items)
    ensures MaxScore(items) >= 0.0
    ensures MaxScore(items) == 0.0 || exists x :: x in items && x.score == MaxScore(items)
  {
    if items != [] {
      var n := |items| - 1;
      MaxScoreIsMax(items[..n]);
      assert items == items[..n] + [items[n]];
    }
  }

  lemma {:induction false} SumPositive(c: Corpus, terms: seq<string>)
    requires Positive(c.idf) && |c.entries| > 0
    ensures SumOf(c, terms) >= 0.0
  {
    if terms != [] {
      SumPositive(c, terms[..|terms| - 1]);
    }
  }

  lemma ScorePositive(c: Corpus, e: Entry)
    requires Positive(c.idf) && |c.entries| > 0
    ensures Round6(ExactScore(c, e)) >= 0.0
  {
    SumPositive(c, e.matched);
    hide SumOf, Positive;
    assert ExactScore(c, e) >= 0.0;
  }

  lemma FirstIsGreatest(c: Corpus, y: Item)
    requires y in Items(c, |c.entries|)
    ensures Ranked(c) != [] && y.score <= Ranked(c)[0].score
  {
    RankedMembers(c, y);
    ItemOrder();
    SortSorts(Items(c, |c.entries|), ItemLeq);
    hide Items, Sort;
    var q :| 0 <= q < |Ranked(c)| && Ranked(c)[q] == y;
    assert q == 0 || ItemLeq(Ranked(c)[0], Ranked(c)[q]);
  }

  lemma BestComesFirst(c: Corpus)
    requires Ranked(c) != [] && Positive(c.idf)
    ensures Ranked(c)[0].index < |c.entries| && Ranked(c)[0].score == MaxScore(Items(c, |c.entries|))
  {
    var items, x := Items(c, |c.entries|), Ranked(c)[0];
    RankedMeaning(c, 0);
    RankedMembers(c, x);
    ItemsMeaning(c, |c.entries|);
    hide Items, Ranked, MaxScore, Round6, ExactScore, Positive;
    MaxScoreIsMax(items);
    ScorePositive(c, c.entries[x.index]);
    assert x in Ranked(c);
    forall y | y in items ensures y.score <= x.score {
      FirstIsGreatest(c, y);
    }
  }

  /** The first candidate has the best score, so it is never merely supporting: it takes a stance exactly
      if it covers three quarters of the question. */
  lemma FirstTakesAStance(c: Corpus, segments: seq<Segment>, maxExcerptChars: int, negated: string -> bool)
    requires |segments| == |c.entries| && Ranked(c) != [] && Positive(c.idf)
    ensures Ranked(c)[0].index < |segments|
    ensures CandidateOf(c, segments, Ranked(c)[0], maxExcerptChars, negated).relevance
         == (if Coverage(c, c.entries[Ranked(c)[0].index].matched) < MIN_COVERAGE then Context
             else if negated(segments[Ranked(c)[0].index].text) then Contradictory
             else Direct)
  {
    hide Items, Ranked, Coverage, MaxScore, Truncate, Positive;
    BestComesFirst(c);
    MaxScoreIsMax(Items(c, |c.entries|));
  }

  // ----- Excerpts -----

  lemma {:induction false} LastSpaceMeaning(s: string)
    ensures LastSpace(s) > 0 ==> s[LastSpace(s) - 1] == ' '
    ensures forall k :: LastSpace(s) <= k < |s| ==> s[k] != ' '
  {
    if s != "" && s[|s| - 1] != ' ' {
      LastSpaceMeaning(s[..|s| - 1]);
    }
  }

  /** A text that does not fit is cut, and only there, at white space unless its first word already does
      not fit; what is left is quoted verbatim before the ellipsis. */
  lemma ExcerptIsVerbatim(text: string, maxChars: int) returns (n: nat)
    ensures maxChars <= 0 ==> Truncate(text, maxChars) == ""
    ensures 0 < maxChars && |text| <= maxChars ==> Truncate(text, maxChars) == text
    ensures 0 < maxChars < |text| ==> n <= maxChars && Truncate(text, maxChars) == text[..n] + ['\U{2026}']
    ensures 0 < maxChars < |text| ==> IsSpace(text[n]) || forall k :: 1 <= k < maxChars ==> text[k] != ' '
  {
    n := 0;
    if 0 < maxChars < |text| {
      var slice := text[..maxChars];
      LastSpaceMeaning(slice);
      var cut := if LastSpace(slice) > 1 then LastSpace(slice) - 1 else maxChars;
      hide LastSpace, TrimEnd, IsSpace;
      assert cut < maxChars ==> text[cut] == slice[cut];
      SpaceIsSpace();
      TrimEndCuts(text[..cut]);
      n := |TrimEnd(text[..cut])|;
      assert text[..cut][..n] == text[..n];
      assert n < cut ==> text[n] == text[..cut][n];
      assert slice[..maxChars] == slice;
    }
  }

  lemma SpaceIsSpace()
    ensures IsSpace(' ')
  {
  }
}
