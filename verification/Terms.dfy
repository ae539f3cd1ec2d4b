/** Words of a question and of a passage, and when they match. */
module Terms {
  import opened Common
  import opened Text

  /** Lower case and the letters and digits of all scripts. */
  datatype Alphabet = Alphabet(lower: char -> char, isWord: char -> bool)

  const MIN_TERM_LENGTH: nat := 3
  const SUFFIXES: seq<string> := ["ing", "ed", "es", "s"]

  const STOPWORDS: seq<string> := [
    "a", "about", "after", "all", "also", "am", "an", "and", "any", "are", "as", "at", "be", "because", "been",
    "being", "between", "both", "but", "by", "can", "could", "did", "do", "does", "doing", "done", "during", "each",
    "few", "for", "from", "further", "had", "has", "have", "having", "he", "her", "here", "hers", "him", "his", "how",
    "however", "i", "if", "in", "into", "is", "it", "its", "itself", "just", "me", "more", "most", "much", "my", "no",
    "nor", "not", "now", "of", "off", "on", "once", "only", "or", "other", "our", "ours", "out", "over", "own", "same",
    "she", "should", "so", "some", "such", "than", "that", "the", "their", "them", "then", "there", "these", "they",
    "this", "those", "through", "to", "too", "under", "until", "up", "us", "very", "was", "we", "were", "what", "when",
    "where", "which", "while", "who", "whom", "why", "will", "with", "would", "you", "your", "yours"
  ]

  // ----- Tokens -----

  function FoldChar(c: char, al: Alphabet): char {
    var l := al.lower(c);
    if l in {'\U{2018}', '\U{2019}', '\U{02BC}', '`'} then '\'' else l
  }

  function Fold(s: string, al: Alphabet): (r: string)
    ensures |r| == |s|
  {
    if s == "" then "" else [FoldChar(s[0], al)] + Fold(s[1..], al)
  }

  function Separates(al: Alphabet): char -> bool {
    c => IsSpace(c) || !(al.isWord(c) || c == '\'')
  }

  function Tokenize(s: string, al: Alphabet): seq<string> {
    Runs(Fold(s, al), Separates(al))
  }

  lemma {:induction false} FoldConcat(a: string, b: string, al: Alphabet)
    ensures Fold(a + b, al) == Fold(a, al) + Fold(b, al)
  {
    if a == "" {
      assert a + b == b;
    } else {
      assert (a + b)[1..] == a[1..] + b;
      FoldConcat(a[1..], b, al);
    }
  }

  /** Text quoted between spaces contributes just its own tokens. */
  lemma QuotedTokens(before: string, s: string, after: string, al: Alphabet)
    requires al.lower(' ') == ' '
    ensures Tokenize(before + [' '] + s + [' '] + after, al)
         == Tokenize(before, al) + Tokenize(s, al) + Tokenize(after, al)
  {
    var sep := Separates(al);
    assert Fold([' '], al) == [' '] by {
      assert [' '][1..] == "";
    }
    FoldConcat(before + [' '] + s + [' '], after, al);
    FoldConcat(before + [' '] + s, [' '], al);
    FoldConcat(before + [' '], s, al);
    FoldConcat(before, [' '], al);
    var x, y, z := Fold(before, al), Fold(s, al), Fold(after, al);
    assert sep(' ');
    hide Fold, Runs;
    RunsSeparate(x + [' '] + y, ' ', z, sep);
    RunsSeparate(x, ' ', y, sep);
  }

  // ----- Variants -----

  predicate Strips(token: string, suffix: string) {
    |token| >= |suffix| + MIN_TERM_LENGTH && EndsWith(token, suffix)
  }

  function Stems(token: string, suffixes: seq<string>): seq<string> {
    if suffixes == [] then []
    else (if Strips(token, suffixes[0]) then [token[..|token| - |suffixes[0]|]] else []) + Stems(token, suffixes[1..])
  }

  function Variants(token: string): seq<string> {
    [token] + Stems(token, SUFFIXES)
  }

  method VariantsOf(token: string) returns (out: seq<string>)
    ensures out == Variants(token)
  {
    out := [token];
    var i := 0;
    hide SUFFIXES, Strips;
    assert SUFFIXES[0..] == SUFFIXES;
    while i < |SUFFIXES|
      invariant 0 <= i <= |SUFFIXES|
      invariant out + Stems(token, SUFFIXES[i..]) == Variants(token)
    {
      var suffix := SUFFIXES[i];
      assert SUFFIXES[i..][1..] == SUFFIXES[i + 1..];
      if Strips(token, suffix) {
        StripFits(token, suffix);
        out := out + [token[..|token| - |suffix|]];
      }
      i := i + 1;
    }
  }

  lemma StripFits(token: string, suffix: string)
    requires Strips(token, suffix)
    ensures |suffix| <= |token|
  {
  }

  /** A variant of a word is the word itself or the word without one of the suffixes, of which at least
      three characters remain. */
  ghost predicate IsVariant(v: string, token: string) {
    v == token || exists suffix :: suffix in SUFFIXES && |v| >= MIN_TERM_LENGTH && token == v + suffix
  }

  lemma {:induction false} StemsMeaning(token: string, suffixes: seq<string>, v: string)
    ensures v in Stems(token, suffixes)
       <==> exists suffix :: suffix in suffixes && |v| >= MIN_TERM_LENGTH && token == v + suffix
  {
    if suffixes != [] {
      var first := suffixes[0];
      StemsMeaning(token, suffixes[1..], v);
      if Strips(token, first) {
        assert token == token[..|token| - |first|] + first;
      }
      if |v| >= MIN_TERM_LENGTH && token == v + first {
        assert token[..|token| - |first|] == v && Strips(token, first);
      }
      assert forall x :: x in suffixes <==> x == first || x in suffixes[1..];
    }
  }

  lemma VariantsMeaning(token: string, v: string)
    ensures v in Variants(token) <==> IsVariant(v, token)
  {
    StemsMeaning(token, SUFFIXES, v);
    hide SUFFIXES, Stems;
  }

  // ----- The terms of a question -----

  predicate Significant(t: string) {
    |t| >= MIN_TERM_LENGTH && t !in STOPWORDS
  }

  function Keep(words: seq<string>): seq<string> {
    if words == [] then [] else (if Significant(words[0]) then [words[0]] else []) + Keep(words[1..])
  }

  /** The significant variants of a word. */
  function GroupOf(token: string): seq<string> {
    Keep(Variants(token))
  }

  /** The significant words of the question, each once, in order of first occurrence. */
  function Bases(tokens: seq<string>): (bases: seq<string>) {
    if tokens == [] then []
    else
      var before := Bases(tokens[..|tokens| - 1]);
      var t := tokens[|tokens| - 1];
      if Significant(t) && t !in before then before + [t] else before
  }

  ghost predicate IsTerm(v: string, tokens: seq<string>) {
    exists t :: t in tokens && Significant(t) && v in GroupOf(t)
  }

  lemma {:induction false} KeepMembers(words: seq<string>, v: string)
    ensures v in Keep(words) <==> v in words && Significant(v)
  {
    hide Significant;
    if words != [] {
      KeepMembers(words[1..], v);
    }
  }

  lemma {:induction false} BasesMembers(tokens: seq<string>)
    ensures forall t :: t in Bases(tokens) <==> t in tokens && Significant(t)
    ensures forall i, j :: 0 <= i < j < |Bases(tokens)| ==> Bases(tokens)[i] != Bases(tokens)[j]
  {
    hide Significant;
    if tokens != [] {
      var n := |tokens| - 1;
      BasesMembers(tokens[..n]);
      assert tokens == tokens[..n] + [tokens[n]];
    }
  }

  /** Whatever comes back of a significant word includes the word itself. */
  lemma OwnGroup(t: string)
    requires Significant(t)
    ensures t in GroupOf(t) && t in Variants(t)
  {
    KeepMembers(Variants(t), t);
  }

  method DeriveQuestionTerms(tokens: seq<string>)
    returns (terms: set<string>, bases: seq<string>, groups: map<string, seq<string>>)
    ensures forall v :: v in terms <==> IsTerm(v, tokens)
    ensures bases == Bases(tokens) && groups.Keys == (set b | b in bases)
    ensures forall b :: b in groups ==> groups[b] == GroupOf(b)
  {
    terms, bases, groups := {}, [], map[];
    var i := 0;
    hide Significant, GroupOf, Variants, Keep;
    while i < |tokens|
      invariant 0 <= i <= |tokens|
      invariant forall v :: v in terms <==> IsTerm(v, tokens[..i])
      invariant bases == Bases(tokens[..i]) && groups.Keys == (set b | b in bases)
      invariant forall b :: b in groups ==> groups[b] == GroupOf(b)
    {
      var token := tokens[i];
      assert tokens[..i + 1] == tokens[..i] + [token];
      assert tokens[..i + 1][..i] == tokens[..i];
      if Significant(token) {
        var group := SignificantVariants(token);
        OneMoreToken(tokens[..i], token);
        terms := terms + (set v | v in group);
        if token !in bases {
          bases := bases + [token];
        }
        groups := groups[token := group];
      } else {
        OneLessToken(tokens[..i], token);
      }
      i := i + 1;
    }
    assert tokens[..i] == tokens;
  }

  lemma OneMoreToken(tokens: seq<string>, token: string)
    requires Significant(token)
    ensures forall v :: IsTerm(v, tokens + [token]) <==> IsTerm(v, tokens) || v in GroupOf(token)
  {
    hide Significant, GroupOf;
    assert forall t :: t in tokens + [token] <==> t in tokens || t == token;
  }

  lemma OneLessToken(tokens: seq<string>, token: string)
    requires !Significant(token)
    ensures forall v :: IsTerm(v, tokens + [token]) <==> IsTerm(v, tokens)
  {
    hide Significant, GroupOf;
    assert forall t :: t in tokens + [token] <==> t in tokens || t == token;
  }

  method SignificantVariants(token: string) returns (group: seq<string>)
    ensures group == GroupOf(token)
  {
    var all := VariantsOf(token);
    group := KeepSignificant(all);
  }

  method KeepSignificant(all: seq<string>) returns (group: seq<string>)
    ensures group == Keep(all)
  {
    group := [];
    hide Significant;
    var i := 0;
    while i < |all|
      invariant 0 <= i <= |all|
      invariant group + Keep(all[i..]) == Keep(all)
    {
      assert all[i..][1..] == all[i + 1..];
      if Significant(all[i]) {
        group := group + [all[i]];
      }
      i := i + 1;
    }
  }

  // ----- Matching -----

  function FirstIn(words: seq<string>, terms: set<string>): Option<string> {
    if words == [] then None
    else if words[0] in terms then Some(words[0])
    else FirstIn(words[1..], terms)
  }

  /** The question term that a word of the document stands for. */
  function MatchTerm(token: string, terms: set<string>): Option<string> {
    if |token| < MIN_TERM_LENGTH then None else FirstIn(Variants(token), terms)
  }

  method MatchWord(token: string, terms: set<string>) returns (term: Option<string>)
    ensures term == MatchTerm(token, terms)
  {
    if |token| < MIN_TERM_LENGTH {
      return None;
    }
    var all := VariantsOf(token);
    hide Variants;
    var i := 0;
    while i < |all|
      invariant 0 <= i <= |all|
      invariant FirstIn(all[i..], terms) == FirstIn(all, terms)
    {
      assert all[i..][1..] == all[i + 1..];
      if all[i] in terms {
        return Some(all[i]);
      }
      i := i + 1;
    }
    return None;
  }

  lemma {:induction false} FirstInMeaning(words: seq<string>, terms: set<string>)
    ensures FirstIn(words, terms).Some? <==> exists v :: v in words && v in terms
    ensures FirstIn(words, terms).Some? ==>
              FirstIn(words, terms).value in words && FirstIn(words, terms).value in terms
  {
    if words != [] {
      FirstInMeaning(words[1..], terms);
      if words[0] in terms {
        assert words[0] in words;
      }
    }
  }

  /** A word of the document matches a question exactly if it shares a variant with a significant word of it. */
  lemma MatchesIffSharedVariant(token: string, tokens: seq<string>, terms: set<string>)
    requires forall v :: v in terms <==> IsTerm(v, tokens)
    ensures MatchTerm(token, terms).Some?
       <==> (|token| >= MIN_TERM_LENGTH
             && exists v, t ::
                  IsVariant(v, token) && t in tokens && Significant(t) && IsVariant(v, t) && Significant(v))
  {
    hide Variants, Significant, IsVariant;
    FirstInMeaning(Variants(token), terms);
    forall v, t ensures v in GroupOf(t) <==> IsVariant(v, t) && Significant(v) {
      KeepMembers(Variants(t), v);
      VariantsMeaning(t, v);
    }
    forall v ensures v in Variants(token) <==> IsVariant(v, token) {
      VariantsMeaning(token, v);
    }
  }

  /** A significant word of the question, met verbatim, stands for itself. */
  lemma VerbatimMatches(token: string, tokens: seq<string>, terms: set<string>)
    requires forall v :: v in terms <==> IsTerm(v, tokens)
    requires token in tokens && Significant(token)
    ensures MatchTerm(token, terms) == Some(token)
  {
    OwnGroup(token);
    assert IsTerm(token, tokens);
    assert Variants(token)[0] == token;
  }

  /** A word and the word with one of the suffixes match each other, whichever of them is asked for. */
  lemma InflectionsMatch(stem: string, suffix: string, termsOfStem: set<string>, termsOfWhole: set<string>)
    requires suffix in SUFFIXES && Significant(stem) && Significant(stem + suffix)
    requires forall v :: v in termsOfStem <==> IsTerm(v, [stem])
    requires forall v :: v in termsOfWhole <==> IsTerm(v, [stem + suffix])
    ensures MatchTerm(stem + suffix, termsOfStem).Some? && MatchTerm(stem, termsOfWhole).Some?
  {
    var whole := stem + suffix;
    assert IsVariant(stem, whole) && IsVariant(stem, stem);
    assert |stem| >= MIN_TERM_LENGTH;
    hide IsVariant, Significant;
    MatchesIffSharedVariant(whole, [stem], termsOfStem);
    MatchesIffSharedVariant(stem, [whole], termsOfWhole);
    assert stem in [stem] && whole in [whole];
  }
}
