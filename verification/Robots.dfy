/** The subset of robots.txt that the service honours. */
module Robots {
  import opened Text
  import opened Sorting

  datatype Rule = Rule(allow: bool, path: string)

  datatype Group = Group(agents: seq<string>, rules: seq<Rule>)

  datatype Rules = Rules(rules: seq<Rule>, unrestricted: bool)

  // ----- Lines -----

  datatype Line = Skipped | Agent(name: string) | Directive(rule: Rule) | OtherField

  /** `replace(/#.*$/, "")`. */
  function StripComment(s: string): string {
    if s == "" then ""
    else if s[0] == '#' && forall c :: c in s ==> !IsLineEnd(c) then ""
    else [s[0]] + StripComment(s[1..])
  }

  function Classify(raw: string): Line {
    var line := Trim(StripComment(raw));
    var i := IndexOf(line, ':');
    if line == "" || i == |line| then Skipped
    else
      var field := Lower(Trim(line[..i]));
      var value := Trim(line[i + 1..]);
      if field == "user-agent" then Agent(Lower(value))
      else if field == "disallow" then Directive(Rule(false, value))
      else if field == "allow" then Directive(Rule(true, value))
      else OtherField
  }

  function ClassifyAll(raws: seq<string>): seq<Line> {
    if raws == [] then [] else [Classify(raws[0])] + ClassifyAll(raws[1..])
  }

  // ----- Groups -----

  /** The open group is the last one. */
  datatype Scan = Scan(groups: seq<Group>, lastWasAgent: bool)

  function UpdateLast(groups: seq<Group>, g: Group): seq<Group>
    requires groups != []
  {
    groups[..|groups| - 1] + [g]
  }

  function Last(groups: seq<Group>): Group
    requires groups != []
  {
    groups[|groups| - 1]
  }

  function ScanLine(s: Scan, line: Line): Scan {
    match line
    case Skipped => s
    case OtherField => s.(lastWasAgent := false)
    case Agent(name) =>
      if !s.lastWasAgent || s.groups == [] then Scan(s.groups + [Group([name], [])], true)
      else Scan(UpdateLast(s.groups, Last(s.groups).(agents := Last(s.groups).agents + [name])), true)
    case Directive(rule) =>
      if s.groups == [] then s.(lastWasAgent := false)
      else Scan(UpdateLast(s.groups, Last(s.groups).(rules := Last(s.groups).rules + [rule])), false)
  }

  function ScanAll(s: Scan, lines: seq<Line>): Scan
    decreases |lines|
  {
    if lines == [] then s else ScanAll(ScanLine(s, lines[0]), lines[1..])
  }

  function GroupsOf(lines: seq<Line>): seq<Group> {
    ScanAll(Scan([], false), lines).groups
  }

  // ----- The rules that apply to one agent -----

  predicate Names(agent: string, token: string) {
    agent == "*" || (agent != "" && StartsWith(token, agent))
  }

  predicate Applies(g: Group, token: string) {
    exists a :: a in g.agents && Names(a, token)
  }

  predicate Specific(g: Group) {
    exists a :: a in g.agents && a != "*"
  }

  function Filter<T>(s: seq<T>, keep: T -> bool): seq<T> {
    if s == [] then [] else (if keep(s[0]) then [s[0]] else []) + Filter(s[1..], keep)
  }

  function RulesOf(groups: seq<Group>): seq<Rule> {
    if groups == [] then [] else groups[0].rules + RulesOf(groups[1..])
  }

  /** Longer paths first; among equally long ones, allow first. */
  predicate RuleLeq(a: Rule, b: Rule) {
    |a.path| > |b.path| || (|a.path| == |b.path| && (a.allow || !b.allow))
  }

  predicate Meaningful(r: Rule) {
    r.path != "" || r.allow
  }

  function Chosen(groups: seq<Group>, token: string): seq<Group> {
    var applicable := Filter(groups, g => Applies(g, token));
    var specific := Filter(applicable, g => Specific(g));
    if specific != [] then specific else applicable
  }

  function Select(groups: seq<Group>, token: string): Rules {
    var chosen := Chosen(groups, token);
    if chosen == [] then Rules([], true)
    else Rules(Sort(Filter(RulesOf(chosen), r => Meaningful(r)), RuleLeq), false)
  }

  function ParseRobots(txt: string, userAgentToken: string): Rules {
    Select(GroupsOf(ClassifyAll(SplitLines(txt))), Lower(userAgentToken))
  }

  /** `parseRobots`, with its loop over the lines. */
  method ParseRobotsText(txt: string, userAgentToken: string) returns (rules: Rules)
    ensures rules == ParseRobots(txt, userAgentToken)
  {
    var raws := SplitLines(txt);
    var groups: seq<Group> := [];
    var lastWasAgent := false;
    var i := 0;
    while i < |raws|
      invariant 0 <= i <= |raws|
      invariant ScanAll(Scan(groups, lastWasAgent), ClassifyAll(raws[i..])).groups == GroupsOf(ClassifyAll(raws))
    {
      hide Classify, UpdateLast;
      assert raws[i..][1..] == raws[i + 1..];
      var line := Classify(raws[i]);
      assert ClassifyAll(raws[i..])[1..] == ClassifyAll(raws[i + 1..]);
      match line {
        case Skipped =>
        case OtherField =>
          lastWasAgent := false;
        case Agent(name) =>
          if !lastWasAgent || groups == [] {
            groups := groups + [Group([name], [])];
          } else {
            var current := Last(groups);
            groups := UpdateLast(groups, current.(agents := current.agents + [name]));
          }
          lastWasAgent := true;
        case Directive(rule) =>
          lastWasAgent := false;
          if groups != [] {
            var current := Last(groups);
            groups := UpdateLast(groups, current.(rules := current.rules + [rule]));
          }
      }
      i := i + 1;
    }
    rules := Select(groups, Lower(userAgentToken));
  }

  // ----- Matching a path -----

  /** The regular expression built from a pattern: `*` stands for any text without line ends. */
  predicate Glob(pattern: string, path: string, anchored: bool)
    decreases |pattern|
  {
    if pattern == "" then anchored ==> path == ""
    else if pattern[0] == '*' then
      exists k :: 0 <= k <= |path| && NoLineEnd(path[..k]) && Glob(pattern[1..], path[k..], anchored)
    else path != "" && path[0] == pattern[0] && Glob(pattern[1..], path[1..], anchored)
  }

  predicate NoLineEnd(s: string) {
    forall c :: c in s ==> !IsLineEnd(c)
  }

  predicate Anchored(rulePath: string) {
    EndsWith(rulePath, "$")
  }

  function Pattern(rulePath: string): string {
    if Anchored(rulePath) then rulePath[..|rulePath| - 1] else rulePath
  }

  predicate MatchesRule(rulePath: string, path: string) {
    rulePath != "" && Glob(Pattern(rulePath), path, Anchored(rulePath))
  }

  /** The literal pieces of a pattern with gaps in between. */
  function Assemble(pieces: seq<string>, gaps: seq<string>): string
    requires |pieces| == |gaps| + 1
  {
    if gaps == [] then pieces[0] else pieces[0] + gaps[0] + Assemble(pieces[1..], gaps[1..])
  }

  /** `path` is the pieces, in order, with these texts in the gaps and `rest` at the end. */
  ghost predicate Fills(pieces: seq<string>, gaps: seq<string>, rest: string, path: string) {
    && |pieces| == |gaps| + 1
    && (forall g :: g in gaps ==> NoLineEnd(g))
    && path == Assemble(pieces, gaps) + rest
  }

  lemma SplitStar(pattern: string)
    requires pattern != ""
    ensures Split(pattern, '*') == if pattern[0] == '*' then [""] + Split(pattern[1..], '*')
                                   else [[pattern[0]] + Split(pattern[1..], '*')[0]] + Split(pattern[1..], '*')[1..]
  {
    var i := IndexOf(pattern, '*');
    if pattern[0] == '*' {
      assert pattern[..0] == "";
    } else if i < |pattern| {
      assert pattern[..i] == [pattern[0]] + pattern[1..][..i - 1];
      assert pattern[1..][i..] == pattern[i + 1..];
    } else {
      assert pattern == [pattern[0]] + pattern[1..];
    }
  }

  lemma FillStar(pieces: seq<string>, gap: string, gaps: seq<string>, rest: string, path: string)
    requires Fills(pieces, gaps, rest, path) && NoLineEnd(gap)
    ensures Fills([""] + pieces, [gap] + gaps, rest, gap + path)
  {
    assert ([""] + pieces)[1..] == pieces && ([gap] + gaps)[1..] == gaps;
    assert Assemble([""] + pieces, [gap] + gaps) + rest == gap + (Assemble(pieces, gaps) + rest);
  }

  lemma UnfillStar(pieces: seq<string>, gaps: seq<string>, rest: string, path: string)
    requires Fills([""] + pieces, gaps, rest, path) && |pieces| >= 1
    ensures gaps != [] && NoLineEnd(gaps[0]) && |gaps[0]| <= |path| && path[..|gaps[0]|] == gaps[0]
    ensures Fills(pieces, gaps[1..], rest, path[|gaps[0]|..])
  {
    assert ([""] + pieces)[1..] == pieces;
    assert path == gaps[0] + (Assemble(pieces, gaps[1..]) + rest);
  }

  lemma AssembleGrown(c: char, pieces: seq<string>, gaps: seq<string>)
    requires |pieces| == |gaps| + 1
    ensures Assemble([[c] + pieces[0]] + pieces[1..], gaps) == [c] + Assemble(pieces, gaps)
  {
    var grown := [[c] + pieces[0]] + pieces[1..];
    assert grown[1..] == pieces[1..];
    if gaps != [] {
      assert [c] + pieces[0] + gaps[0] + Assemble(pieces[1..], gaps[1..])
          == [c] + (pieces[0] + gaps[0] + Assemble(pieces[1..], gaps[1..]));
    }
  }

  lemma FillChar(c: char, pieces: seq<string>, gaps: seq<string>, rest: string, path: string)
    requires |pieces| >= 1
    ensures Fills(pieces, gaps, rest, path) ==> Fills([[c] + pieces[0]] + pieces[1..], gaps, rest, [c] + path)
    ensures Fills([[c] + pieces[0]] + pieces[1..], gaps, rest, path)
            ==> path != "" && path[0] == c && Fills(pieces, gaps, rest, path[1..])
  {
    if |pieces| == |gaps| + 1 {
      AssembleGrown(c, pieces, gaps);
      var a := Assemble(pieces, gaps);
      assert [c] + a + rest == [c] + (a + rest);
      assert ([c] + a + rest)[1..] == a + rest;
    }
  }

  lemma GlobStep(pattern: string, path: string, anchored: bool)
    requires pattern != ""
    ensures Glob(pattern, path, anchored)
       <==> if pattern[0] == '*'
            then exists k :: 0 <= k <= |path| && NoLineEnd(path[..k]) && Glob(pattern[1..], path[k..], anchored)
            else path != "" && path[0] == pattern[0] && Glob(pattern[1..], path[1..], anchored)
  {
    hide NoLineEnd;
  }

  /** The matcher finds a way to fill the gaps. */
  lemma {:induction false} GlobFills(pattern: string, path: string, anchored: bool)
    returns (gaps: seq<string>, rest: string)
    requires Glob(pattern, path, anchored)
    ensures Fills(Split(pattern, '*'), gaps, rest, path) && (anchored ==> rest == "")
    decreases |pattern|
  {
    if pattern == "" {
      gaps, rest := [], path;
      assert Split("", '*') == [""];
    } else {
      GlobStep(pattern, path, anchored);
      hide Fills, Split, NoLineEnd, Glob;
      SplitStar(pattern);
      if pattern[0] == '*' {
        var k :| 0 <= k <= |path| && NoLineEnd(path[..k]) && Glob(pattern[1..], path[k..], anchored);
        var g, r := GlobFills(pattern[1..], path[k..], anchored);
        gaps, rest := [path[..k]] + g, r;
        FillStar(Split(pattern[1..], '*'), path[..k], g, r, path[k..]);
        assert path == path[..k] + path[k..];
      } else {
        gaps, rest := GlobFills(pattern[1..], path[1..], anchored);
        FillChar(pattern[0], Split(pattern[1..], '*'), gaps, rest, path[1..]);
        assert path == [path[0]] + path[1..];
      }
    }
  }

  /** Any way to fill the gaps is found. */
  lemma {:induction false} FillsGlob(pattern: string, path: string, anchored: bool, gaps: seq<string>, rest: string)
    requires Fills(Split(pattern, '*'), gaps, rest, path) && (anchored ==> rest == "")
    ensures Glob(pattern, path, anchored)
    decreases |pattern|
  {
    if pattern == "" {
      assert Split("", '*') == [""];
    } else {
      hide Fills, Split, NoLineEnd;
      SplitStar(pattern);
      var pieces := Split(pattern[1..], '*');
      if pattern[0] == '*' {
        UnfillStar(pieces, gaps, rest, path);
        FillsGlob(pattern[1..], path[|gaps[0]|..], anchored, gaps[1..], rest);
      } else {
        FillChar(pattern[0], pieces, gaps, rest, path);
        FillsGlob(pattern[1..], path[1..], anchored, gaps, rest);
      }
    }
  }

  /** Some text in each gap, and something after the last piece unless the pattern is anchored. */
  ghost predicate Means(pattern: string, anchored: bool, path: string) {
    exists gaps, rest :: Fills(Split(pattern, '*'), gaps, rest, path) && (anchored ==> rest == "")
  }

  /** A rule matches exactly the paths that its wildcards and its trailing `$` describe. */
  lemma MatcherMeaning(rulePath: string, path: string)
    ensures MatchesRule(rulePath, path) <==> rulePath != "" && Means(Pattern(rulePath), Anchored(rulePath), path)
  {
    if MatchesRule(rulePath, path) {
      var gaps, rest := GlobFills(Pattern(rulePath), path, Anchored(rulePath));
    }
    if rulePath != "" && Means(Pattern(rulePath), Anchored(rulePath), path) {
      var gaps, rest :| Fills(Split(Pattern(rulePath), '*'), gaps, rest, path) && (Anchored(rulePath) ==> rest == "");
      FillsGlob(Pattern(rulePath), path, Anchored(rulePath), gaps, rest);
    }
  }

  // ----- The verdict -----

  function FirstMatch(rules: seq<Rule>, path: string): bool {
    if rules == [] then true
    else if MatchesRule(rules[0].path, path) then rules[0].allow
    else FirstMatch(rules[1..], path)
  }

  predicate PathAllowed(rules: Rules, path: string) {
    rules.unrestricted || FirstMatch(rules.rules, path)
  }

  method IsPathAllowed(rules: Rules, path: string) returns (allowed: bool)
    ensures allowed <==> PathAllowed(rules, path)
  {
    if rules.unrestricted {
      return true;
    }
    var i := 0;
    while i < |rules.rules|
      invariant 0 <= i <= |rules.rules|
      invariant FirstMatch(rules.rules[i..], path) == FirstMatch(rules.rules, path)
    {
      assert rules.rules[i..][1..] == rules.rules[i + 1..];
      if MatchesRule(rules.rules[i].path, path) {
        return rules.rules[i].allow;
      }
      i := i + 1;
    }
    return true;
  }

  /** `r` matches the path and no matching rule is longer. */
  ghost predicate LongestMatch(rules: seq<Rule>, path: string, r: Rule) {
    r in rules && MatchesRule(r.path, path)
    && forall o :: o in rules && MatchesRule(o.path, path) ==> |o.path| <= |r.path|
  }

  /** Most specific match, allow winning ties; no match means allowed. */
  ghost predicate LongestMatchAllows(rules: seq<Rule>, path: string) {
    || (forall r :: r in rules ==> !MatchesRule(r.path, path))
    || (exists r :: LongestMatch(rules, path, r) && r.allow)
  }

  lemma {:induction false} FirstIsLongest(rules: seq<Rule>, path: string)
    requires Sorted(rules, RuleLeq)
    ensures FirstMatch(rules, path) <==> LongestMatchAllows(rules, path)
  {
    if rules != [] {
      if MatchesRule(rules[0].path, path) {
        forall o | o in rules ensures RuleLeq(rules[0], o) || o == rules[0] {
          var i :| 0 <= i < |rules| && rules[i] == o;
          assert i == 0 || RuleLeq(rules[0], rules[i]);
        }
        assert LongestMatch(rules, path, rules[0]);
      } else {
        FirstIsLongest(rules[1..], path);
        assert forall r :: r in rules <==> r == rules[0] || r in rules[1..];
        assert forall r :: LongestMatch(rules, path, r) <==> LongestMatch(rules[1..], path, r);
      }
    }
  }

  lemma RuleOrder()
    ensures TotalPreorder(RuleLeq)
  {
  }

  lemma {:induction false} FilterMembers<T>(s: seq<T>, keep: T -> bool, x: T)
    ensures x in Filter(s, keep) <==> x in s && keep(x)
  {
    if s != [] {
      FilterMembers(s[1..], keep, x);
    }
  }

  lemma {:induction false} RulesOfMembers(groups: seq<Group>, r: Rule)
    ensures r in RulesOf(groups) <==> exists g :: g in groups && r in g.rules
  {
    if groups != [] {
      RulesOfMembers(groups[1..], r);
      assert forall g :: g in groups <==> g == groups[0] || g in groups[1..];
    }
  }

  /** Group `g` is one of those whose rules count for the agent: a group that applies, and among those
      that apply the ones naming more than `*` take precedence. */
  ghost predicate Counts(groups: seq<Group>, token: string, g: Group) {
    g in groups && Applies(g, token)
    && (Specific(g) || forall o :: o in groups && Applies(o, token) ==> !Specific(o))
  }

  lemma ChosenMembers(groups: seq<Group>, token: string, g: Group)
    ensures g in Chosen(groups, token) <==> Counts(groups, token, g)
  {
    var applicable := Filter(groups, g => Applies(g, token));
    var specific := Filter(applicable, g => Specific(g));
    forall o ensures o in applicable <==> o in groups && Applies(o, token) {
      FilterMembers(groups, g => Applies(g, token), o);
    }
    forall o ensures o in specific <==> o in applicable && Specific(o) {
      FilterMembers(applicable, g => Specific(g), o);
    }
    if specific != [] {
      assert specific[0] in specific;
    }
  }

  /** A rule that counts for the agent. */
  ghost predicate RuleCounts(groups: seq<Group>, token: string, r: Rule) {
    Meaningful(r) && exists g :: Counts(groups, token, g) && r in g.rules
  }

  lemma SelectMembers(groups: seq<Group>, token: string, r: Rule)
    ensures r in Select(groups, token).rules <==> RuleCounts(groups, token, r)
  {
    var chosen := Chosen(groups, token);
    forall g ensures g in chosen <==> Counts(groups, token, g) {
      ChosenMembers(groups, token, g);
    }
    RulesOfMembers(chosen, r);
    FilterMembers(RulesOf(chosen), r => Meaningful(r), r);
    SortPermutes(Filter(RulesOf(chosen), r => Meaningful(r)), RuleLeq);
    if chosen != [] {
      SameMembers(Select(groups, token).rules, Filter(RulesOf(chosen), r => Meaningful(r)), r);
    }
  }

  /** The verdict is that of the longest matching rule that counts for the agent, allow winning ties. */
  lemma VerdictIsLongestMatch(groups: seq<Group>, token: string, path: string)
    ensures PathAllowed(Select(groups, token), path) <==> LongestMatchAllows(Select(groups, token).rules, path)
    ensures forall r :: r in Select(groups, token).rules <==> RuleCounts(groups, token, r)
  {
    forall r ensures r in Select(groups, token).rules <==> RuleCounts(groups, token, r) {
      SelectMembers(groups, token, r);
    }
    RuleOrder();
    SortSorts(Filter(RulesOf(Chosen(groups, token)), r => Meaningful(r)), RuleLeq);
    FirstIsLongest(Select(groups, token).rules, path);
  }

  /** Some agent of the group is `*` or a beginning of the token. */
  ghost predicate Addresses(g: Group, token: string) {
    exists a :: a in g.agents && (a == "*" || (a != "" && exists rest :: token == a + rest))
  }

  ghost predicate NamesMoreThanStar(g: Group) {
    exists a :: a in g.agents && a != "*"
  }

  /** The rule stands in a group that addresses the agent, one naming more than `*` if there is such a group; an empty
      disallow is no rule. */
  ghost predicate IsFor(groups: seq<Group>, token: string, r: Rule) {
    && !(r == Rule(false, ""))
    && exists g :: g in groups && r in g.rules && Addresses(g, token)
         && (NamesMoreThanStar(g) || !(exists o :: o in groups && Addresses(o, token) && NamesMoreThanStar(o)))
  }

  lemma AddressesIffApplies(g: Group, token: string)
    ensures Addresses(g, token) <==> Applies(g, token)
  {
    forall a ensures StartsWith(token, a) <==> exists rest :: token == a + rest {
      StartsWithRest(token, a);
    }
  }

  lemma StartsWithRest(s: string, prefix: string)
    ensures StartsWith(s, prefix) <==> exists rest :: s == prefix + rest
  {
    if StartsWith(s, prefix) {
      assert s == prefix + s[|prefix|..];
    }
  }

  lemma IsForIffCounts(groups: seq<Group>, token: string, r: Rule)
    ensures IsFor(groups, token, r) <==> RuleCounts(groups, token, r)
  {
    hide Applies, Addresses;
    forall g ensures Addresses(g, token) <==> Applies(g, token) {
      AddressesIffApplies(g, token);
    }
    forall g ensures NamesMoreThanStar(g) <==> Specific(g) {
    }
    hide NamesMoreThanStar, Specific;
  }

  lemma {:induction false} LongestExists(rules: seq<Rule>, path: string)
    requires exists r :: r in rules && MatchesRule(r.path, path)
    ensures exists r :: LongestMatch(rules, path, r)
  {
    hide MatchesRule;
    var rest := rules[1..];
    assert forall o :: o in rules <==> o == rules[0] || o in rest;
    if o :| o in rest && MatchesRule(o.path, path) {
      LongestExists(rest, path);
      var r :| LongestMatch(rest, path, r);
      var first := MatchesRule(rules[0].path, path) && |rules[0].path| > |r.path|;
      assert LongestMatch(rules, path, if first then rules[0] else r);
    } else {
      assert LongestMatch(rules, path, rules[0]);
    }
  }

  /** The path is allowed exactly if every rule for the agent that forbids it meets an allowing one no shorter. */
  lemma AllowedIff(groups: seq<Group>, token: string, path: string)
    ensures PathAllowed(Select(groups, token), path)
       <==> forall r :: IsFor(groups, token, r) && !r.allow && MatchesRule(r.path, path) ==>
                          exists o :: IsFor(groups, token, o) && o.allow && MatchesRule(o.path, path)
                                      && |o.path| >= |r.path|
  {
    hide IsFor, RuleCounts, MatchesRule, Select;
    VerdictIsLongestMatch(groups, token, path);
    var rules := Select(groups, token).rules;
    forall r ensures r in rules <==> IsFor(groups, token, r) {
      IsForIffCounts(groups, token, r);
    }
    if r :| r in rules && MatchesRule(r.path, path) {
      LongestExists(rules, path);
      var l :| LongestMatch(rules, path, l);
    }
  }

  /** Without wildcard, a rule matches the paths that begin with it. */
  lemma {:induction false} PlainGlob(pattern: string, path: string)
    requires '*' !in pattern
    ensures Glob(pattern, path, false) <==> exists rest :: path == pattern + rest
  {
    if pattern == "" {
      assert path == pattern + path;
    } else {
      if Glob(pattern, path, false) {
        PlainGlob(pattern[1..], path[1..]);
        var rest :| path[1..] == pattern[1..] + rest;
        assert path == pattern + rest;
      }
      if rest :| path == pattern + rest {
        assert path[1..] == pattern[1..] + rest && path[0] == pattern[0];
        PlainGlob(pattern[1..], path[1..]);
      }
    }
  }

  /** Every group of `a` has a counterpart in `b` with the same agents and the same rules, in any order. */
  ghost predicate CoveredBy(a: seq<Group>, b: seq<Group>) {
    forall g :: g in a ==> exists h :: h in b && SameContents(g, h)
  }

  ghost predicate SameContents(g: Group, h: Group) {
    (forall x :: x in g.agents <==> x in h.agents) && forall r :: r in g.rules <==> r in h.rules
  }

  lemma SameStanding(g: Group, h: Group, token: string)
    requires SameContents(g, h)
    ensures Applies(g, token) <==> Applies(h, token)
    ensures Specific(g) <==> Specific(h)
    ensures forall r :: r in g.rules <==> r in h.rules
  {
    hide Names;
    assert forall x :: x in g.agents <==> x in h.agents;
  }

  lemma CountsInBoth(a: seq<Group>, b: seq<Group>, token: string, g: Group, h: Group)
    requires CoveredBy(b, a) && Counts(a, token, g) && h in b && SameContents(g, h)
    ensures Counts(b, token, h)
  {
    hide Applies, Specific, SameContents;
    SameStanding(g, h, token);
    forall o | o in b && Applies(o, token) && Specific(o) ensures Specific(g) {
      var p :| p in a && SameContents(o, p);
      SameStanding(o, p, token);
    }
  }

  lemma CountsElsewhere(a: seq<Group>, b: seq<Group>, token: string, r: Rule)
    requires CoveredBy(a, b) && CoveredBy(b, a) && RuleCounts(a, token, r)
    ensures RuleCounts(b, token, r)
  {
    hide Applies, Specific, SameContents, Meaningful;
    var g :| Counts(a, token, g) && r in g.rules;
    var h :| h in b && SameContents(g, h);
    SameStanding(g, h, token);
    CountsInBoth(a, b, token, g, h);
    hide Counts;
  }

  lemma SameRulesSameVerdict(a: seq<Rule>, b: seq<Rule>, path: string)
    requires forall r :: r in a <==> r in b
    ensures LongestMatchAllows(a, path) <==> LongestMatchAllows(b, path)
  {
    hide MatchesRule;
    assert forall r :: LongestMatch(a, path, r) <==> LongestMatch(b, path, r);
  }

  /** Reordering groups, agents within a group or rules within a group changes no verdict. */
  lemma OrderIsIrrelevant(a: seq<Group>, b: seq<Group>, token: string, path: string)
    requires CoveredBy(a, b) && CoveredBy(b, a)
    ensures PathAllowed(Select(a, token), path) <==> PathAllowed(Select(b, token), path)
  {
    hide Select, CoveredBy, RuleCounts, PathAllowed, LongestMatchAllows;
    VerdictIsLongestMatch(a, token, path);
    VerdictIsLongestMatch(b, token, path);
    forall r ensures RuleCounts(a, token, r) <==> RuleCounts(b, token, r) {
      if RuleCounts(a, token, r) {
        CountsElsewhere(a, b, token, r);
      }
      if RuleCounts(b, token, r) {
        CountsElsewhere(b, a, token, r);
      }
    }
    SameRulesSameVerdict(Select(a, token).rules, Select(b, token).rules, path);
  }

  // ----- From groups to lines and back -----

  function AgentLines(agents: seq<string>): seq<Line> {
    if agents == [] then [] else [Agent(agents[0])] + AgentLines(agents[1..])
  }

  function RuleLines(rules: seq<Rule>): seq<Line> {
    if rules == [] then [] else [Directive(rules[0])] + RuleLines(rules[1..])
  }

  function LinesOf(groups: seq<Group>): seq<Line> {
    if groups == [] then [] else AgentLines(groups[0].agents) + RuleLines(groups[0].rules) + LinesOf(groups[1..])
  }

  lemma {:induction false} ScanConcat(s: Scan, a: seq<Line>, b: seq<Line>)
    ensures ScanAll(s, a + b) == ScanAll(ScanAll(s, a), b)
    decreases |a|
  {
    if a == [] {
      assert a + b == b;
    } else {
      assert (a + b)[1..] == a[1..] + b;
      ScanConcat(ScanLine(s, a[0]), a[1..], b);
    }
  }

  lemma ScanRule(before: seq<Group>, g: Group, rule: Rule, flag: bool)
    ensures ScanLine(Scan(before + [g], flag), Directive(rule)) == Scan(before + [g.(rules := g.rules + [rule])], false)
  {
    assert (before + [g])[..|before|] == before;
  }

  lemma ScanStep(s: Scan, lines: seq<Line>)
    requires lines != []
    ensures ScanAll(s, lines) == ScanAll(ScanLine(s, lines[0]), lines[1..])
  {
    hide ScanLine;
  }

  lemma ScanNone(s: Scan)
    ensures ScanAll(s, []) == s
  {
  }

  lemma AgentLinesStep(agents: seq<string>)
    ensures agents == [] ==> AgentLines(agents) == []
    ensures agents != [] ==> AgentLines(agents) != [] && AgentLines(agents)[0] == Agent(agents[0])
    ensures agents != [] ==> AgentLines(agents)[1..] == AgentLines(agents[1..])
  {
  }

  lemma ScanAgent(before: seq<Group>, g: Group, agent: string)
    ensures ScanLine(Scan(before + [g], true), Agent(agent))
         == Scan(before + [Group(g.agents + [agent], g.rules)], true)
  {
    assert (before + [g])[..|before|] == before;
  }

  lemma {:induction false} ScanAgents(before: seq<Group>, g: Group, agents: seq<string>)
    ensures ScanAll(Scan(before + [g], true), AgentLines(agents))
         == Scan(before + [Group(g.agents + agents, g.rules)], true)
    decreases |agents|
  {
    hide *;
    AgentLinesStep(agents);
    if agents == [] {
      ScanNone(Scan(before + [g], true));
      assert g.agents + agents == g.agents;
    } else {
      ScanStep(Scan(before + [g], true), AgentLines(agents));
      ScanAgent(before, g, agents[0]);
      ScanAgents(before, Group(g.agents + [agents[0]], g.rules), agents[1..]);
      assert g.agents + [agents[0]] + agents[1..] == g.agents + agents;
    }
  }

  lemma RuleLinesStep(rules: seq<Rule>)
    ensures rules == [] ==> RuleLines(rules) == []
    ensures rules != [] ==> RuleLines(rules) != [] && RuleLines(rules)[0] == Directive(rules[0])
    ensures rules != [] ==> RuleLines(rules)[1..] == RuleLines(rules[1..])
  {
  }

  lemma {:induction false} ScanRules(before: seq<Group>, agents: seq<string>, read: seq<Rule>, rules: seq<Rule>,
                                     flag: bool)
    ensures ScanAll(Scan(before + [Group(agents, read)], flag), RuleLines(rules))
         == Scan(before + [Group(agents, read + rules)], flag && rules == [])
    decreases |rules|
  {
    hide *;
    RuleLinesStep(rules);
    if rules == [] {
      ScanNone(Scan(before + [Group(agents, read)], flag));
      assert read + rules == read;
    } else {
      ScanStep(Scan(before + [Group(agents, read)], flag), RuleLines(rules));
      ScanRule(before, Group(agents, read), rules[0], flag);
      ScanRules(before, agents, read + [rules[0]], rules[1..], false);
      assert read + [rules[0]] + rules[1..] == read + rules;
    }
  }

  lemma ScanFirstAgent(before: seq<Group>, agents: seq<string>)
    requires agents != []
    ensures ScanAll(Scan(before, false), AgentLines(agents))
         == ScanAll(Scan(before + [Group([agents[0]], [])], true), AgentLines(agents[1..]))
  {
    assert AgentLines(agents)[1..] == AgentLines(agents[1..]);
  }

  lemma ScanGroup(before: seq<Group>, g: Group)
    requires g.agents != []
    ensures ScanAll(Scan(before, false), AgentLines(g.agents) + RuleLines(g.rules)) == Scan(before + [g], g.rules == [])
  {
    hide *;
    ScanConcat(Scan(before, false), AgentLines(g.agents), RuleLines(g.rules));
    ScanFirstAgent(before, g.agents);
    ScanAgents(before, Group([g.agents[0]], []), g.agents[1..]);
    assert [g.agents[0]] + g.agents[1..] == g.agents;
    ScanRules(before, g.agents, [], g.rules, true);
    assert [] + g.rules == g.rules;
  }

  lemma LinesOfStep(groups: seq<Group>)
    ensures groups == [] ==> LinesOf(groups) == []
    ensures groups != [] ==>
              LinesOf(groups) == AgentLines(groups[0].agents) + RuleLines(groups[0].rules) + LinesOf(groups[1..])
  {
  }

  /** Groups as a file can hold them: all have agents, and all but the last have rules. */
  predicate IsFile(groups: seq<Group>) {
    && (forall g :: g in groups ==> g.agents != [])
    && forall i :: 0 <= i < |groups| - 1 ==> groups[i].rules != []
  }

  lemma RestIsFile(groups: seq<Group>)
    requires IsFile(groups) && groups != []
    ensures groups[0].agents != [] && IsFile(groups[1..])
    ensures groups[0].rules == [] ==> groups[1..] == []
  {
    assert groups[0] in groups && forall h :: h in groups[1..] ==> h in groups;
  }

  lemma {:induction false} ReadBack(before: seq<Group>, groups: seq<Group>)
    requires IsFile(groups)
    ensures ScanAll(Scan(before, false), LinesOf(groups)).groups == before + groups
    decreases |groups|
  {
    hide *;
    LinesOfStep(groups);
    if groups == [] {
      ScanNone(Scan(before, false));
      assert before + groups == before;
    } else {
      var g := groups[0];
      RestIsFile(groups);
      ScanConcat(Scan(before, false), AgentLines(g.agents) + RuleLines(g.rules), LinesOf(groups[1..]));
      ScanGroup(before, g);
      if g.rules == [] {
        LinesOfStep(groups[1..]);
        ScanNone(Scan(before + [g], true));
        assert before + [g] == before + groups;
      } else {
        ReadBack(before + [g], groups[1..]);
        assert before + [g] + groups[1..] == before + groups;
      }
    }
  }

  /** A file is read back as just the groups it was written from. */
  lemma GroupsReadBack(groups: seq<Group>)
    requires IsFile(groups)
    ensures GroupsOf(LinesOf(groups)) == groups
  {
    ReadBack([], groups);
    assert [] + groups == groups;
    hide LinesOf, ScanAll;
  }

  // ----- Groups without rules -----

  /** An agent line joins the open group when it comes right after another one. */
  predicate Joins(s: Scan) {
    s.lastWasAgent && s.groups != []
  }

  lemma {:induction false} AgentsSize(s: Scan, agents: seq<string>)
    requires agents != []
    ensures Joins(ScanAll(s, AgentLines(agents)))
    ensures |ScanAll(s, AgentLines(agents)).groups| == |s.groups| + if Joins(s) then 0 else 1
    decreases |agents|
  {
    var s' := ScanLine(s, Agent(agents[0]));
    assert AgentLines(agents)[1..] == AgentLines(agents[1..]);
    assert ScanAll(s, AgentLines(agents)) == ScanAll(s', AgentLines(agents[1..]));
    if |agents| > 1 {
      AgentsSize(s', agents[1..]);
    }
  }

  lemma {:induction false} RulesSize(s: Scan, rules: seq<Rule>)
    requires s.groups != []
    ensures |ScanAll(s, RuleLines(rules)).groups| == |s.groups|
    ensures rules == [] ==> ScanAll(s, RuleLines(rules)) == s
    decreases |rules|
  {
    if rules != [] {
      assert RuleLines(rules)[1..] == RuleLines(rules[1..]);
      RulesSize(ScanLine(s, Directive(rules[0])), rules[1..]);
    }
  }

  lemma GroupSize(s: Scan, g: Group)
    requires g.agents != []
    ensures var s' := ScanAll(s, AgentLines(g.agents) + RuleLines(g.rules));
            && |s'.groups| == |s.groups| + (if Joins(s) then 0 else 1)
            && (g.rules == [] ==> Joins(s'))
  {
    ScanConcat(s, AgentLines(g.agents), RuleLines(g.rules));
    AgentsSize(s, g.agents);
    RulesSize(ScanAll(s, AgentLines(g.agents)), g.rules);
    hide ScanAll, AgentLines, RuleLines;
  }

  lemma {:induction false} GroupsSize(s: Scan, groups: seq<Group>)
    requires forall g :: g in groups ==> g.agents != []
    ensures |ScanAll(s, LinesOf(groups)).groups| <= |s.groups| + |groups| - if Joins(s) && groups != [] then 1 else 0
    decreases |groups|
  {
    hide *;
    LinesOfStep(groups);
    if groups == [] {
      ScanNone(s);
    } else {
      var g := groups[0];
      assert g in groups && forall h :: h in groups[1..] ==> h in groups;
      ScanConcat(s, AgentLines(g.agents) + RuleLines(g.rules), LinesOf(groups[1..]));
      GroupSize(s, g);
      GroupsSize(ScanAll(s, AgentLines(g.agents) + RuleLines(g.rules)), groups[1..]);
    }
  }

  lemma {:induction false} RulelessIsJoined(s: Scan, groups: seq<Group>, i: nat)
    requires forall g :: g in groups ==> g.agents != []
    requires i < |groups| - 1 && groups[i].rules == []
    ensures |ScanAll(s, LinesOf(groups)).groups| < |s.groups| + |groups|
    decreases |groups|
  {
    hide *;
    LinesOfStep(groups);
    var g := groups[0];
    assert g in groups && forall h :: h in groups[1..] ==> h in groups;
    var s' := ScanAll(s, AgentLines(g.agents) + RuleLines(g.rules));
    ScanConcat(s, AgentLines(g.agents) + RuleLines(g.rules), LinesOf(groups[1..]));
    GroupSize(s, g);
    if i == 0 {
      GroupsSize(s', groups[1..]);
    } else {
      RulelessIsJoined(s', groups[1..], i - 1);
    }
  }

  /** Groups that all have agents are read back if and only if all but the last have rules: the agents of a group
      without rules are read as agents of the next. */
  lemma ReadBackIff(groups: seq<Group>)
    requires forall g :: g in groups ==> g.agents != []
    ensures GroupsOf(LinesOf(groups)) == groups <==> IsFile(groups)
  {
    if IsFile(groups) {
      GroupsReadBack(groups);
    } else {
      var i :| 0 <= i < |groups| - 1 && groups[i].rules == [];
      RulelessIsJoined(Scan([], false), groups, i);
    }
  }
}
