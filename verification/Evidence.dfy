/** Lexical ranking of passages as evidence for a question. */
module Evidence {
  import opened Common
  import opened Text
  import opened Sorting
  import opened Terms

  datatype Relevance = Contradictory | Direct | Supporting | Context

  /** A sentence of the document and where it stands. */
  datatype Segment = Segment(text: string, context: string)

  datatype Candidate = Candidate(excerpt: string, context: string, relevance: Relevance, score: real)

  /** What a passage matched: the distinct question terms in order, and the pairs of different neighbours. */
  datatype Entry = Entry(matched: seq<string>, adjacency: nat)

  datatype Item = Item(index: nat, score: real)

  /** The weight of a term by the number of passages and of those that contain it. */
  type Weight = (nat, nat) -> real

  const ADJACENCY_BONUS: real := 0.5
  const MIN_COVERAGE: real := 0.75

  // ----- One passage -----

  function Hits(tokens: seq<string>, terms: set<string>): (hits: seq<Option<string>>)
    ensures |hits| == |tokens|
    ensures forall i :: 0 <= i < |tokens| ==> hits[i] == MatchTerm(tokens[i], terms)
  {
    seq(|tokens|, i requires 0 <= i < |tokens| => MatchTerm(tokens[i], terms))
  }

  function Distinct(hits: seq<Option<string>>): seq<string> {
    if hits == [] then []
    else
      var before := Distinct(hits[..|hits| - 1]);
      var last := hits[|hits| - 1];
      if last.Some? && last.value !in before then before + [last.value] else before
  }

  predicate Neighbours(hits: seq<Option<string>>, i: nat)
    requires i < |hits|
  {
    i > 0 && hits[i - 1].Some? && hits[i].Some? && hits[i - 1] != hits[i]
  }

  function Adjacent(hits: seq<Option<string>>): nat {
    if hits == [] then 0
    else Adjacent(hits[..|hits| - 1]) + if Neighbours(hits, |hits| - 1) then 1 else 0
  }

  function EntryOf(text: string, terms: set<string>, al: Alphabet): Entry {
    var hits := Hits(Tokenize(text, al), terms);
    Entry(Distinct(hits), Adjacent(hits))
  }

  method ScanSegment(text: string, terms: set<string>, al: Alphabet) returns (e: Entry)
    ensures e == EntryOf(text, terms, al)
  {
    var tokens := Tokenize(text, al);
    ghost var hits := Hits(tokens, terms);
    var matched: seq<string> := [];
    var adjacency := 0;
    var previous: Option<string> := None;
    var i := 0;
    hide MatchTerm, Tokenize;
    while i < |tokens|
      invariant 0 <= i <= |tokens|
      invariant matched == Distinct(hits[..i]) && adjacency == Adjacent(hits[..i])
      invariant previous == if i > 0 then hits[i - 1] else None
    {
      assert hits[..i + 1][..i] == hits[..i];
      var term := MatchWord(tokens[i], terms);
      if term.Some? && term.value !in matched {
        matched := matched + [term.value];
      }
      if previous.Some? && term.Some? && previous != term {
        adjacency := adjacency + 1;
      }
      previous := term;
      i := i + 1;
    }
    assert hits[..i] == hits;
    e := Entry(matched, adjacency);
  }

  lemma {:induction false} DistinctMembers(hits: seq<Option<string>>)
    ensures forall t :: t in Distinct(hits) <==> Some(t) in hits
    ensures forall i, j :: 0 <= i < j < |Distinct(hits)| ==> Distinct(hits)[i] != Distinct(hits)[j]
  {
    if hits != [] {
      var n := |hits| - 1;
      DistinctMembers(hits[..n]);
      assert hits == hits[..n] + [hits[n]];
    }
  }

  // ----- Weights -----

  /** A question against a document. */
  datatype Corpus = Corpus(bases: seq<string>, entries: seq<Entry>, idf: Weight)

  function DocumentFrequency(entries: seq<Entry>, term: string): nat {
    if entries == [] then 0
    else DocumentFrequency(entries[..|entries| - 1], term) + if term in entries[|entries| - 1].matched then 1 else 0
  }

  function TermWeight(c: Corpus, term: string): real {
    c.idf(|c.entries|, DocumentFrequency(c.entries, term))
  }

  function SumOf(c: Corpus, terms: seq<string>): real {
    if terms == [] then 0.0 else SumOf(c, terms[..|terms| - 1]) + TermWeight(c, terms[|terms| - 1])
  }

  function MaxReal(a: real, b: real): real {
    if a >= b then a else b
  }

  function MaxOf(c: Corpus, terms: seq<string>): real {
    if terms == [] then 0.0 else MaxReal(MaxOf(c, terms[..|terms| - 1]), TermWeight(c, terms[|terms| - 1]))
  }

  /** A question word weighs as much as its heaviest variant. */
  function WordWeight(c: Corpus, base: string): real {
    MaxOf(c, GroupOf(base))
  }

  predicate IsHit(base: string, matched: seq<string>) {
    exists v :: v in GroupOf(base) && v in matched
  }

  function Mass(c: Corpus, bases: seq<string>): real {
    if bases == [] then 0.0 else Mass(c, bases[..|bases| - 1]) + WordWeight(c, bases[|bases| - 1])
  }

  function HitMass(c: Corpus, bases: seq<string>, matched: seq<string>): real {
    if bases == [] then 0.0
    else
      var last := bases[|bases| - 1];
      HitMass(c, bases[..|bases| - 1], matched) + if IsHit(last, matched) then WordWeight(c, last) else 0.0
  }

  /** The share of the question's weight that a passage speaks to. */
  function Coverage(c: Corpus, matched: seq<string>): real {
    if Mass(c, c.bases) > 0.0 then HitMass(c, c.bases, matched) / Mass(c, c.bases) else 0.0
  }

  function Round6(x: real): real {
    (x * 1000000.0 + 0.5).Floor as real / 1000000.0
  }

  function ExactScore(c: Corpus, e: Entry): real {
    SumOf(c, e.matched) + ADJACENCY_BONUS * e.adjacency as real
  }

  // ----- Ranking -----

  /** The passages that match at all, from the first `n`. */
  function Items(c: Corpus, n: nat): seq<Item>
    requires n <= |c.entries|
  {
    if n == 0 then []
    else
      Items(c, n - 1)
      + (if c.entries[n - 1].matched == [] then [] else [Item(n - 1, Round6(ExactScore(c, c.entries[n - 1])))])
  }

  predicate ItemLeq(a: Item, b: Item) {
    a.score > b.score || (a.score == b.score && a.index <= b.index)
  }

  function Ranked(c: Corpus): seq<Item> {
    Sort(Items(c, |c.entries|), ItemLeq)
  }

  function MaxScore(items: seq<Item>): real {
    if items == [] then 0.0 else MaxReal(MaxScore(items[..|items| - 1]), items[|items| - 1].score)
  }

  function Label(coverage: real, negated: bool, score: real, maxScore: real): Relevance {
    if coverage < MIN_COVERAGE then Context
    else if negated then Contradictory
    else if score >= maxScore * 0.75 then Direct
    else if score >= maxScore * 0.35 then Supporting
    else Context
  }

  /** Position after the last space, or zero. */
  function LastSpace(s: string): (n: nat)
    ensures n <= |s|
  {
    if s == "" then 0 else if s[|s| - 1] == ' ' then |s| else LastSpace(s[..|s| - 1])
  }

  /** Cut at a word boundary, marked with an ellipsis if anything was cut. */
  function Truncate(text: string, maxChars: int): string {
    if maxChars <= 0 then ""
    else if |text| <= maxChars then text
    else
      var n := LastSpace(text[..maxChars]);
      TrimEnd(if n > 1 then text[..n - 1] else text[..maxChars]) + ['\U{2026}']
  }

  datatype Options = Options(maxItems: int, maxExcerptChars: int)

  function CandidateOf(c: Corpus, segments: seq<Segment>, item: Item, maxExcerptChars: int, negated: string -> bool)
    : Candidate
    requires |segments| == |c.entries|
  {
    if item.index < |segments| then
      var s := segments[item.index];
      Candidate(
        Truncate(s.text, maxExcerptChars), s.context,
        Label(Coverage(c, c.entries[item.index].matched), negated(s.text), item.score, MaxScore(Items(c, |c.entries|))),
        item.score)
    else Candidate("", "", Context, item.score)
  }

  function CandidatesOf(c: Corpus, segments: seq<Segment>, items: seq<Item>, maxExcerptChars: int,
                        negated: string -> bool)
    : (r: seq<Candidate>)
    requires |segments| == |c.entries|
    ensures |r| == |items|
    ensures forall k :: 0 <= k < |items| ==> r[k] == CandidateOf(c, segments, items[k], maxExcerptChars, negated)
  {
    seq(|items|, k requires 0 <= k < |items| => CandidateOf(c, segments, items[k], maxExcerptChars, negated))
  }

  function EntriesOf(segments: seq<Segment>, terms: set<string>, al: Alphabet): (entries: seq<Entry>)
    ensures |entries| == |segments|
    ensures forall i :: 0 <= i < |segments| ==> entries[i] == EntryOf(segments[i].text, terms, al)
  {
    seq(|segments|, i requires 0 <= i < |segments| => EntryOf(segments[i].text, terms, al))
  }

  function TermsOf(tokens: seq<string>): (terms: set<string>)
    ensures forall v :: v in terms <==> IsTerm(v, tokens)
  {
    set t, v | t in tokens && v in GroupOf(t) && Significant(t) :: v
  }

  /** The question as tokens, against the segments. */
  function CorpusOf(segments: seq<Segment>, tokens: seq<string>, idf: Weight, al: Alphabet): (c: Corpus)
    ensures |c.entries| == |segments|
  {
    Corpus(Bases(tokens), EntriesOf(segments, TermsOf(tokens), al), idf)
  }

  function Take<T>(s: seq<T>, n: nat): seq<T> {
    if n < |s| then s[..n] else s
  }

  datatype Oracle = Oracle(al: Alphabet, idf: Weight, negated: string -> bool)

  function Candidates(segments: seq<Segment>, question: string, options: Options, o: Oracle): seq<Candidate> {
    var c := CorpusOf(segments, Tokenize(question, o.al), o.idf, o.al);
    var n := if options.maxItems > 0 then options.maxItems else 0;
    CandidatesOf(c, segments, Take(Ranked(c), n), options.maxExcerptChars, o.negated)
  }

  // ----- The loops -----

  ghost predicate EntriesOver(entries: seq<Entry>, terms: set<string>) {
    forall e :: e in entries ==>
      && (forall t :: t in e.matched ==> t in terms)
      && (forall i, j :: 0 <= i < j < |e.matched| ==> e.matched[i] != e.matched[j])
  }

  method CountDocuments(entries: seq<Entry>, terms: set<string>) returns (df: map<string, nat>)
    requires EntriesOver(entries, terms)
    ensures df.Keys == terms && forall t :: t in terms ==> df[t] == DocumentFrequency(entries, t)
  {
    df := map t | t in terms :: 0;
    var i := 0;
    while i < |entries|
      invariant 0 <= i <= |entries|
      invariant df.Keys == terms && forall t :: t in terms ==> df[t] == DocumentFrequency(entries[..i], t)
    {
      var matched := entries[i].matched;
      ghost var before := entries[..i];
      assert entries[i] in entries;
      assert entries[..i + 1][..i] == before;
      var j := 0;
      while j < |matched|
        invariant 0 <= j <= |matched|
        invariant df.Keys == terms
        invariant forall t :: t in terms ==>
          df[t] == DocumentFrequency(before, t) + if t in matched[..j] then 1 else 0
      {
        df := df[matched[j] := df[matched[j]] + 1];
        assert matched[..j + 1] == matched[..j] + [matched[j]];
        j := j + 1;
      }
      assert matched[..j] == matched;
      i := i + 1;
    }
    assert entries[..i] == entries;
  }

  /** The weight of every term. */
  ghost predicate IsTable(table: map<string, real>, c: Corpus, terms: set<string>) {
    table.Keys == terms && forall t :: t in terms ==> table[t] == TermWeight(c, t)
  }

  method SumWeights(matched: seq<string>, table: map<string, real>, ghost c: Corpus, ghost terms: set<string>)
    returns (sum: real)
    requires IsTable(table, c, terms) && forall t :: t in matched ==> t in terms
    ensures sum == SumOf(c, matched)
  {
    sum := 0.0;
    var i := 0;
    hide TermWeight;
    while i < |matched|
      invariant 0 <= i <= |matched|
      invariant sum == SumOf(c, matched[..i])
    {
      assert matched[..i + 1][..i] == matched[..i] && matched[i] in matched;
      sum := sum + table[matched[i]];
      i := i + 1;
    }
    assert matched[..i] == matched;
  }

  method Heaviest(group: seq<string>, table: map<string, real>, ghost c: Corpus, ghost terms: set<string>)
    returns (weight: real)
    requires IsTable(table, c, terms) && forall t :: t in group ==> t in terms
    ensures weight == MaxOf(c, group)
  {
    weight := 0.0;
    var i := 0;
    hide TermWeight;
    while i < |group|
      invariant 0 <= i <= |group|
      invariant weight == MaxOf(c, group[..i])
    {
      assert group[..i + 1][..i] == group[..i] && group[i] in group;
      weight := MaxReal(weight, table[group[i]]);
      i := i + 1;
    }
    assert group[..i] == group;
  }

  method HasHit(group: seq<string>, matched: seq<string>) returns (hit: bool)
    ensures hit <==> exists v :: v in group && v in matched
  {
    hit := false;
    var i := 0;
    while i < |group| && !hit
      invariant 0 <= i <= |group|
      invariant hit ==> exists v :: v in group && v in matched
      invariant !hit ==> forall v :: v in group[..i] ==> v !in matched
    {
      assert group[i] in group;
      hit := group[i] in matched;
      assert group[..i + 1] == group[..i] + [group[i]];
      i := i + 1;
    }
    assert !hit ==> group[..i] == group;
  }

  /** The weights of the question's words and of the whole question. */
  method WeighWords(bases: seq<string>, groups: map<string, seq<string>>, table: map<string, real>, ghost c: Corpus,
                    ghost terms: set<string>)
    returns (weights: map<string, real>, total: real)
    requires IsTable(table, c, terms)
    requires forall b :: b in bases ==>
               b in groups && groups[b] == GroupOf(b) && forall v :: v in GroupOf(b) ==> v in terms
    ensures forall b :: b in bases ==> b in weights && weights[b] == WordWeight(c, b)
    ensures total == Mass(c, bases)
  {
    weights, total := map[], 0.0;
    var i := 0;
    hide GroupOf, MaxOf, TermWeight;
    while i < |bases|
      invariant 0 <= i <= |bases|
      invariant forall b :: b in bases[..i] ==> b in weights && weights[b] == WordWeight(c, b)
      invariant total == Mass(c, bases[..i])
    {
      assert bases[i] in bases && bases[..i + 1] == bases[..i] + [bases[i]];
      assert bases[..i + 1][..i] == bases[..i];
      var weight := Heaviest(groups[bases[i]], table, c, terms);
      weights := weights[bases[i] := weight];
      total := total + weight;
      i := i + 1;
    }
    assert bases[..i] == bases;
  }

  method MeasureCoverage(matched: seq<string>, bases: seq<string>, groups: map<string, seq<string>>,
                         weights: map<string, real>, total: real, ghost c: Corpus)
    returns (coverage: real)
    requires forall b :: b in bases ==>
               b in groups && groups[b] == GroupOf(b) && b in weights && weights[b] == WordWeight(c, b)
    requires total == Mass(c, bases) && bases == c.bases
    ensures coverage == Coverage(c, matched)
  {
    var mass := 0.0;
    var i := 0;
    hide GroupOf, WordWeight, Mass;
    while i < |bases|
      invariant 0 <= i <= |bases|
      invariant mass == HitMass(c, bases[..i], matched)
    {
      assert bases[i] in bases && bases[..i + 1][..i] == bases[..i];
      var hit := HasHit(groups[bases[i]], matched);
      if hit {
        mass := mass + weights[bases[i]];
      }
      i := i + 1;
    }
    assert bases[..i] == bases;
    coverage := if total > 0.0 then mass / total else 0.0;
  }

  /** The scored passages, in document order, and the best score. */
  method ScoreAll(entries: seq<Entry>, table: map<string, real>, ghost c: Corpus, ghost terms: set<string>)
    returns (items: seq<Item>, best: real)
    requires IsTable(table, c, terms) && EntriesOver(entries, terms) && entries == c.entries
    ensures items == Items(c, |entries|) && best == MaxScore(items)
  {
    items, best := [], 0.0;
    var i := 0;
    hide SumOf, TermWeight, IsTable;
    while i < |entries|
      invariant 0 <= i <= |entries|
      invariant items == Items(c, i) && best == MaxScore(items)
    {
      assert entries[i] in entries;
      var e := entries[i];
      if e.matched != [] {
        var sum := SumWeights(e.matched, table, c, terms);
        var item := Item(i, Round6(sum + ADJACENCY_BONUS * e.adjacency as real));
        assert (items + [item])[..|items|] == items;
        items, best := items + [item], MaxReal(best, item.score);
      } else {
        assert items + [] == items;
      }
      i := i + 1;
    }
  }

  method ScanAll(segments: seq<Segment>, terms: set<string>, al: Alphabet) returns (entries: seq<Entry>)
    ensures entries == EntriesOf(segments, terms, al)
  {
    entries := [];
    hide EntryOf;
    while |entries| < |segments|
      invariant |entries| <= |segments|
      invariant forall i :: 0 <= i < |entries| ==> entries[i] == EntryOf(segments[i].text, terms, al)
    {
      var e := ScanSegment(segments[|entries|].text, terms, al);
      entries := entries + [e];
    }
  }

  lemma ScanIsOver(text: string, terms: set<string>, al: Alphabet)
    ensures EntriesOver([EntryOf(text, terms, al)], terms)
  {
    var tokens := Tokenize(text, al);
    var hits := Hits(tokens, terms);
    DistinctMembers(hits);
    hide Tokenize, MatchTerm, Distinct, Adjacent;
    forall t | t in Distinct(hits) ensures t in terms {
      var i :| 0 <= i < |hits| && hits[i] == Some(t);
      MatchInTerms(tokens[i], terms);
    }
  }

  lemma MatchInTerms(token: string, terms: set<string>)
    ensures MatchTerm(token, terms).Some? ==> MatchTerm(token, terms).value in terms
  {
    FirstInMeaning(Variants(token), terms);
    hide Variants;
  }

  lemma EntriesAreOver(segments: seq<Segment>, terms: set<string>, al: Alphabet)
    ensures EntriesOver(EntriesOf(segments, terms, al), terms)
  {
    hide EntryOf;
    var entries := EntriesOf(segments, terms, al);
    forall e | e in entries ensures EntriesOver([e], terms) {
      var i :| 0 <= i < |entries| && entries[i] == e;
      ScanIsOver(segments[i].text, terms, al);
    }
    assert forall e :: e in entries ==> e in [e];
  }

  lemma {:induction false} ItemsMeaning(c: Corpus, n: nat)
    requires n <= |c.entries|
    ensures forall x :: x in Items(c, n) <==>
              x.index < n && c.entries[x.index].matched != []
              && x.score == Round6(ExactScore(c, c.entries[x.index]))
    ensures forall i, j :: 0 <= i < j < |Items(c, n)| ==> Items(c, n)[i].index < Items(c, n)[j].index
  {
    hide Round6, ExactScore;
    if n > 0 {
      ItemsMeaning(c, n - 1);
    }
  }

  lemma RankedMembers(c: Corpus, x: Item)
    ensures x in Ranked(c) <==> x in Items(c, |c.entries|)
  {
    SortPermutes(Items(c, |c.entries|), ItemLeq);
    SameMembers(Ranked(c), Items(c, |c.entries|), x);
  }

  /** Everything ranked is a passage that matched. */
  lemma RankedMeaning(c: Corpus, k: nat)
    requires k < |Ranked(c)|
    ensures Ranked(c)[k].index < |c.entries| && c.entries[Ranked(c)[k].index].matched != []
  {
    RankedMembers(c, Ranked(c)[k]);
    ItemsMeaning(c, |c.entries|);
    hide Ranked, Items;
    assert Ranked(c)[k] in Ranked(c);
  }

  lemma {:induction false} NoItems(c: Corpus, n: nat)
    requires n <= |c.entries| && forall e :: e in c.entries ==> e.matched == []
    ensures Items(c, n) == []
  {
    if n > 0 {
      assert c.entries[n - 1] in c.entries;
      NoItems(c, n - 1);
    }
  }

  lemma NothingRanked(c: Corpus)
    requires Items(c, |c.entries|) == []
    ensures Ranked(c) == []
  {
  }

  lemma FirstIsIn(s: seq<string>)
    ensures s != [] ==> s[0] in s
  {
  }

  lemma NoTermsNoItems(segments: seq<Segment>, al: Alphabet, c: Corpus)
    requires c.entries == EntriesOf(segments, {}, al)
    ensures Ranked(c) == []
  {
    EntriesAreOver(segments, {}, al);
    forall e | e in c.entries ensures e.matched == [] {
      FirstIsIn(e.matched);
    }
    NoItems(c, |c.entries|);
  }

  lemma BasesInTerms(tokens: seq<string>, b: string, v: string)
    requires b in Bases(tokens) && v in GroupOf(b)
    ensures v in TermsOf(tokens)
  {
    BasesMembers(tokens);
    assert IsTerm(v, tokens);
  }

  method WeighTerms(df: map<string, nat>, ghost c: Corpus, ghost terms: set<string>, n: nat, idf: Weight)
    returns (table: map<string, real>)
    requires df.Keys == terms && forall t :: t in terms ==> df[t] == DocumentFrequency(c.entries, t)
    requires n == |c.entries| && idf == c.idf
    ensures IsTable(table, c, terms)
  {
    table := map t | t in df :: idf(n, df[t]);
  }

  /** The best passages, cut and labelled. */
  method LabelAll(segments: seq<Segment>, top: seq<Item>, entries: seq<Entry>, bases: seq<string>,
                  groups: map<string, seq<string>>, weights: map<string, real>, total: real, best: real,
                  maxExcerptChars: int, negated: string -> bool, ghost c: Corpus)
    returns (r: seq<Candidate>)
    requires |segments| == |entries| && entries == c.entries && bases == c.bases
    requires forall b :: b in bases ==>
               b in groups && groups[b] == GroupOf(b) && b in weights && weights[b] == WordWeight(c, b)
    requires total == Mass(c, bases) && best == MaxScore(Items(c, |entries|))
    requires forall k :: 0 <= k < |top| ==> top[k].index < |segments|
    ensures r == CandidatesOf(c, segments, top, maxExcerptChars, negated)
  {
    r := [];
    hide GroupOf, WordWeight, Mass, Items, MaxScore, Coverage, Truncate, Label;
    while |r| < |top|
      invariant |r| <= |top|
      invariant forall k :: 0 <= k < |r| ==> r[k] == CandidateOf(c, segments, top[k], maxExcerptChars, negated)
    {
      var item := top[|r|];
      var segment := segments[item.index];
      var coverage := MeasureCoverage(entries[item.index].matched, bases, groups, weights, total, c);
      var relevance := Label(coverage, negated(segment.text), item.score, best);
      var candidate := Candidate(Truncate(segment.text, maxExcerptChars), segment.context, relevance, item.score);
      assert candidate == CandidateOf(c, segments, item, maxExcerptChars, negated);
      r := r + [candidate];
    }
  }

  method FindEvidenceCandidates(segments: seq<Segment>, question: string, options: Options, o: Oracle)
    returns (r: seq<Candidate>)
    ensures r == Candidates(segments, question, options, o)
  {
    hide Tokenize, Items, Coverage, EntriesOf, Bases, Mass, MaxScore, IsTable;
    hide WordWeight, GroupOf, TermsOf, IsTerm, CandidateOf;
    r := [];
    if options.maxItems <= 0 {
      return;
    }
    var tokens := Tokenize(question, o.al);
    ghost var c := CorpusOf(segments, tokens, o.idf, o.al);
    var terms, bases, groups := DeriveQuestionTerms(tokens);
    assert terms == TermsOf(tokens);
    if terms == {} {
      NoTermsNoItems(segments, o.al, c);
      return;
    }
    if segments == [] {
      NoItems(c, 0);
      NothingRanked(c);
      return;
    }
    var entries := ScanAll(segments, terms, o.al);
    EntriesAreOver(segments, terms, o.al);
    var df := CountDocuments(entries, terms);
    var table := WeighTerms(df, c, terms, |entries|, o.idf);
    forall b, v | b in bases && v in GroupOf(b) ensures v in terms {
      BasesInTerms(tokens, b, v);
    }
    var weights, total := WeighWords(bases, groups, table, c, terms);
    var items, best := ScoreAll(entries, table, c, terms);
    if items == [] {
      NothingRanked(c);
      return;
    }
    var ranked := Sort(items, ItemLeq);
    assert ranked == Ranked(c);
    hide Ranked, Sort;
    var top := Take(ranked, options.maxItems);
    forall k | 0 <= k < |top| ensures top[k].index < |segments| {
      RankedMeaning(c, k);
    }
    r := LabelAll(segments, top, entries, bases, groups, weights, total, best, options.maxExcerptChars, o.negated, c);
  }
}
