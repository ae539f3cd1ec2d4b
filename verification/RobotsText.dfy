/** robots.txt as text: whatever the spelling of its lines, it is read back as the groups it was written from. */
module RobotsText {
  import opened Text
  import opened Robots

  // ----- Spellings of a line -----

  /** One line of text, with space wherever it may stand and perhaps a comment. */
  datatype Spelling = Spelling(before: string, field: string, beforeColon: string, afterColon: string, after: string,
                               comment: string)

  predicate Blanks(s: string) {
    forall c :: c in s ==> IsSpace(c) && !IsLineEnd(c)
  }

  predicate Trimmed(s: string) {
    s == "" || (!IsSpace(s[0]) && !IsSpace(s[|s| - 1]))
  }

  predicate IsComment(s: string) {
    (s == "" || s[0] == '#') && forall c :: c in s ==> !IsLineEnd(c)
  }

  /** Text that can stand as a field name or a value. */
  predicate IsWordy(s: string) {
    Trimmed(s) && forall c :: c in s ==> c != '#' && !IsLineEnd(c)
  }

  predicate IsSpelling(sp: Spelling, name: string) {
    && Blanks(sp.before) && Blanks(sp.beforeColon) && Blanks(sp.afterColon) && Blanks(sp.after)
    && IsComment(sp.comment)
    && IsWordy(sp.field) && sp.field != "" && ':' !in sp.field && Lower(sp.field) == name
  }

  function Body(sp: Spelling, value: string): string {
    sp.before + sp.field + sp.beforeColon + [':'] + sp.afterColon + value + sp.after
  }

  function Written(sp: Spelling, value: string): string {
    Body(sp, value) + sp.comment
  }

  /** `raw` is a way to write the line. */
  ghost predicate Spells(raw: string, line: Line) {
    match line
    case Agent(name) =>
      exists sp, value ::
        IsSpelling(sp, "user-agent") && IsWordy(value) && Lower(value) == name && raw == Written(sp, value)
    case Directive(rule) =>
      && IsWordy(rule.path)
      && exists sp :: IsSpelling(sp, if rule.allow then "allow" else "disallow") && raw == Written(sp, rule.path)
    case _ => false
  }

  /** `raw` is blank, a comment or has no colon before the comment. */
  ghost predicate IsIgnored(raw: string) {
    exists body, comment ::
      (forall c :: c in body ==> c !in {'#', ':'} && !IsLineEnd(c)) && IsComment(comment) && raw == body + comment
  }

  /** `raw` sets a field other than the three, such as a site map or a delay. */
  ghost predicate IsOther(raw: string) {
    exists sp, name, value ::
      && name !in {"user-agent", "allow", "disallow"}
      && IsSpelling(sp, name) && IsWordy(value) && raw == Written(sp, value)
  }

  /** A line that does not matter here: an ignored one anywhere, another field anywhere but between two agents. */
  ghost predicate IsBystander(raw: string, afterAgent: bool, lines: seq<Line>) {
    IsIgnored(raw) || (IsOther(raw) && !(afterAgent && lines != [] && lines[0].Agent?))
  }

  /** The raw lines are spellings of the lines, with lines that do not matter between. */
  ghost predicate SpellsAll(raws: seq<string>, lines: seq<Line>, afterAgent: bool)
    decreases |raws|
  {
    if raws == [] then lines == []
    else
      || (IsBystander(raws[0], afterAgent, lines) && SpellsAll(raws[1..], lines, afterAgent))
      || (lines != [] && Spells(raws[0], lines[0]) && SpellsAll(raws[1..], lines[1..], lines[0].Agent?))
  }

  // ----- Reading one line -----

  lemma {:induction false} StripCommentAt(s: string, comment: string)
    requires '#' !in s && IsComment(comment)
    ensures StripComment(s + comment) == s
  {
    if s == "" {
      assert s + comment == comment;
      assert comment != "" ==> comment[0] == '#';
    } else {
      assert s[0] in s && (s + comment)[0] == s[0] && (s + comment)[1..] == s[1..] + comment;
      StripCommentAt(s[1..], comment);
    }
  }

  lemma TrimPadded(before: string, s: string, after: string)
    requires Blanks(before) && Blanks(after) && Trimmed(s)
    ensures Trim(before + s + after) == s
  {
    hide IsSpace, IsLineEnd;
    if s == "" {
      assert before + s + after == (before + after) + "";
      TrimStartSpaces(before + after, "");
      assert TrimEnd("") == "";
    } else {
      assert before + s + after == before + (s + after);
      TrimStartSpaces(before, s + after);
      TrimEndSpaces(s, after);
    }
  }

  /** The part of the line that is left when the outer space is gone. */
  function Core(sp: Spelling, value: string): string {
    sp.field + sp.beforeColon + [':'] + Tail(sp, value)
  }

  lemma ColonIsPlain()
    ensures !IsSpace(':') && !IsSpace('#')
  {
  }

  lemma BodyTrims(sp: Spelling, name: string, value: string)
    requires IsSpelling(sp, name) && IsWordy(value)
    ensures Trim(Body(sp, value)) == Core(sp, value)
  {
    hide IsSpace, IsLineEnd, Trim, Lower;
    ColonIsPlain();
    var core := Core(sp, value);
    assert core[0] == sp.field[0];
    if value == "" {
      assert core[|core| - 1] == ':';
      assert Body(sp, value) == sp.before + core + (sp.afterColon + sp.after);
      TrimPadded(sp.before, core, sp.afterColon + sp.after);
    } else {
      assert core[|core| - 1] == value[|value| - 1];
      assert Body(sp, value) == sp.before + core + sp.after;
      TrimPadded(sp.before, core, sp.after);
    }
  }

  function Tail(sp: Spelling, value: string): string {
    if value == "" then "" else sp.afterColon + value
  }

  lemma ColonPosition(head: string, tail: string)
    requires ':' !in head
    ensures var core := head + [':'] + tail;
            IndexOf(core, ':') == |head| && core[..|head|] == head && core[|head| + 1..] == tail
  {
    IndexOfPrefix(head, ':', tail);
  }

  lemma HeadTrims(sp: Spelling, name: string)
    requires IsSpelling(sp, name)
    ensures Trim(sp.field + sp.beforeColon) == sp.field && ':' !in sp.field + sp.beforeColon
  {
    hide IsSpace, IsLineEnd, Trim, Lower;
    NoColonInBlanks(sp.beforeColon);
    assert "" + sp.field + sp.beforeColon == sp.field + sp.beforeColon;
    TrimPadded("", sp.field, sp.beforeColon);
  }

  lemma TailTrims(sp: Spelling, name: string, value: string)
    requires IsSpelling(sp, name) && IsWordy(value)
    ensures Trim(Tail(sp, value)) == value
  {
    hide IsSpace, IsLineEnd, Trim, Lower;
    if value == "" {
      assert "" + value + "" == Tail(sp, value);
      TrimPadded("", value, "");
    } else {
      assert sp.afterColon + value + "" == Tail(sp, value);
      TrimPadded(sp.afterColon, value, "");
    }
  }

  lemma CoreSplits(sp: Spelling, name: string, value: string)
    requires IsSpelling(sp, name) && IsWordy(value)
    ensures var core := Core(sp, value);
            var i := IndexOf(core, ':');
            core != "" && i < |core| && Trim(core[..i]) == sp.field && Trim(core[i + 1..]) == value
  {
    hide IsSpelling, IsWordy, Trim, IndexOf;
    HeadTrims(sp, name);
    TailTrims(sp, name, value);
    ColonPosition(sp.field + sp.beforeColon, Tail(sp, value));
  }

  lemma NoColonInBlanks(s: string)
    requires Blanks(s)
    ensures ':' !in s && '#' !in s
  {
    ColonIsPlain();
    hide IsSpace;
  }

  /** A written line is classified as what it says. */
  lemma WrittenReads(sp: Spelling, name: string, value: string)
    requires IsSpelling(sp, name) && IsWordy(value)
    ensures Classify(Written(sp, value))
         == (if name == "user-agent" then Agent(Lower(value))
             else if name == "disallow" then Directive(Rule(false, value))
             else if name == "allow" then Directive(Rule(true, value))
             else OtherField)
  {
    assert '#' !in Body(sp, value) by {
      NoColonInBlanks(sp.before);
      NoColonInBlanks(sp.beforeColon);
      NoColonInBlanks(sp.afterColon);
      NoColonInBlanks(sp.after);
      hide Blanks;
    }
    StripCommentAt(Body(sp, value), sp.comment);
    BodyTrims(sp, name, value);
    CoreSplits(sp, name, value);
    hide Trim, StripComment, Blanks, Body, Core, IsWordy, IsComment, Lower;
  }

  lemma SpellsReads(raw: string, line: Line)
    requires Spells(raw, line)
    ensures Classify(raw) == line && (line.Agent? || line.Directive?)
  {
    hide Classify, IsSpelling, IsWordy, Written, Lower;
    match line {
      case Agent(name) =>
        var sp, value :|
          IsSpelling(sp, "user-agent") && IsWordy(value) && Lower(value) == name && raw == Written(sp, value);
        WrittenReads(sp, "user-agent", value);
      case Directive(rule) =>
        var field := if rule.allow then "allow" else "disallow";
        var sp :| IsSpelling(sp, field) && raw == Written(sp, rule.path);
        WrittenReads(sp, field, rule.path);
    }
  }

  lemma IgnoredReads(raw: string)
    requires IsIgnored(raw)
    ensures Classify(raw) == Skipped
  {
    var body, comment :|
      (forall c :: c in body ==> c !in {'#', ':'} && !IsLineEnd(c)) && IsComment(comment) && raw == body + comment;
    StripCommentAt(body, comment);
    TrimKeepsOut(body, ':');
    hide StripComment, Trim;
    IndexOfNone(Trim(body), ':');
  }

  lemma TrimKeepsOut(s: string, c: char)
    requires c !in s
    ensures c !in Trim(s)
  {
    TrimStartCuts(s);
    TrimEndCuts(TrimStart(s));
    hide TrimStart, TrimEnd;
  }

  lemma OtherReads(raw: string)
    requires IsOther(raw)
    ensures Classify(raw) == OtherField
  {
    hide Classify, IsSpelling, IsWordy, Written, Lower;
    var sp, name, value :|
      && name !in {"user-agent", "allow", "disallow"}
      && IsSpelling(sp, name) && IsWordy(value) && raw == Written(sp, value);
    WrittenReads(sp, name, value);
  }

  // ----- Reading the whole text -----

  /** The same groups, and the same way to take the next line. */
  predicate Alike(a: Scan, b: Scan, lines: seq<Line>) {
    a.groups == b.groups && (a.lastWasAgent == b.lastWasAgent || lines == [] || !lines[0].Agent?)
  }

  lemma AlikeStep(a: Scan, b: Scan, lines: seq<Line>)
    requires Alike(a, b, lines) && lines != [] && (lines[0].Agent? || lines[0].Directive?)
    ensures ScanLine(a, lines[0]) == ScanLine(b, lines[0])
    ensures ScanLine(b, lines[0]).lastWasAgent == lines[0].Agent?
  {
  }

  lemma BystanderStep(a: Scan, b: Scan, raw: string, lines: seq<Line>)
    requires Alike(a, b, lines) && IsBystander(raw, b.lastWasAgent, lines)
    ensures Alike(ScanLine(a, Classify(raw)), b, lines)
  {
    if IsIgnored(raw) {
      IgnoredReads(raw);
    } else {
      OtherReads(raw);
    }
    hide Classify, IsIgnored, IsOther;
  }

  lemma FirstClassified(raws: seq<string>, s: Scan)
    requires raws != []
    ensures ScanAll(s, ClassifyAll(raws)) == ScanAll(ScanLine(s, Classify(raws[0])), ClassifyAll(raws[1..]))
  {
    hide Classify, ScanLine;
    assert ClassifyAll(raws)[1..] == ClassifyAll(raws[1..]);
  }

  /** Reading the text, from `a`, ends with the groups that reading the lines ends with, from `b`. */
  lemma {:induction false} SpellsAllReads(raws: seq<string>, lines: seq<Line>, a: Scan, b: Scan)
    requires SpellsAll(raws, lines, b.lastWasAgent) && Alike(a, b, lines)
    ensures ScanAll(a, ClassifyAll(raws)).groups == ScanAll(b, lines).groups
    decreases |raws|
  {
    hide Classify, Spells, IsBystander, ScanLine;
    if raws != [] {
      FirstClassified(raws, a);
      hide ClassifyAll;
      if IsBystander(raws[0], b.lastWasAgent, lines) && SpellsAll(raws[1..], lines, b.lastWasAgent) {
        BystanderStep(a, b, raws[0], lines);
        SpellsAllReads(raws[1..], lines, ScanLine(a, Classify(raws[0])), b);
      } else {
        SpellsReads(raws[0], lines[0]);
        AlikeStep(a, b, lines);
        SpellsAllReads(raws[1..], lines[1..], ScanLine(a, lines[0]), ScanLine(b, lines[0]));
      }
    }
  }

  predicate OneLine(raw: string) {
    forall c :: c in raw ==> !IsLineEnd(c)
  }

  lemma {:induction false} SpellsAllOneLine(raws: seq<string>, lines: seq<Line>, afterAgent: bool)
    requires SpellsAll(raws, lines, afterAgent)
    ensures forall raw :: raw in raws ==> OneLine(raw)
    decreases |raws|
  {
    hide OneLine, Spells, IsBystander;
    if raws != [] {
      if IsBystander(raws[0], afterAgent, lines) && SpellsAll(raws[1..], lines, afterAgent) {
        BystanderOneLine(raws[0], afterAgent, lines);
        SpellsAllOneLine(raws[1..], lines, afterAgent);
      } else {
        SpellsOneLine(raws[0], lines[0]);
        SpellsAllOneLine(raws[1..], lines[1..], lines[0].Agent?);
      }
      assert forall raw :: raw in raws <==> raw == raws[0] || raw in raws[1..];
    }
  }

  lemma BystanderOneLine(raw: string, afterAgent: bool, lines: seq<Line>)
    requires IsBystander(raw, afterAgent, lines)
    ensures OneLine(raw)
  {
    ColonEndsNoLine();
    hide IsLineEnd, IsSpace, Trimmed, Lower;
  }

  lemma ColonEndsNoLine()
    ensures !IsLineEnd(':')
  {
  }

  lemma SpellsOneLine(raw: string, line: Line)
    requires Spells(raw, line)
    ensures OneLine(raw)
  {
    ColonEndsNoLine();
    hide IsLineEnd, IsSpace, Trimmed, Lower;
  }

  lemma EndsInReturn(raw: string)
    ensures EndsWith(raw, "\r") ==> '\r' in raw
  {
    if EndsWith(raw, "\r") {
      assert raw[|raw| - 1..][0] == '\r';
    }
  }

  /** The text of a file: every line but the last ends with "\\n", or with "\\r\\n" where `crlf` says so. */
  function FileText(raws: seq<string>, crlf: seq<bool>): string
    requires |raws| == |crlf| && raws != []
  {
    Join(Ended(raws, crlf), '\n')
  }

  function Ended(raws: seq<string>, crlf: seq<bool>): (ended: seq<string>)
    requires |raws| == |crlf|
    ensures |ended| == |raws|
    ensures forall i :: 0 <= i < |raws| ==> ended[i] == raws[i] + if crlf[i] && i < |raws| - 1 then "\r" else ""
  {
    seq(|raws|, i requires 0 <= i < |raws| => raws[i] + if crlf[i] && i < |raws| - 1 then "\r" else "")
  }

  lemma EndedLine(raw: string, crlf: bool)
    requires OneLine(raw)
    ensures '\n' !in raw + (if crlf then "\r" else "") && !EndsWith(raw, "\r")
    ensures EndsWith(raw + "\r", "\r") && (raw + "\r")[..|raw|] == raw && raw + "" == raw
  {
    EndsInReturn(raw);
  }

  lemma LinesSplit(raws: seq<string>, crlf: seq<bool>)
    requires |raws| == |crlf| && raws != [] && forall raw :: raw in raws ==> OneLine(raw)
    ensures SplitLines(FileText(raws, crlf)) == raws
  {
    var ended := Ended(raws, crlf);
    forall i | 0 <= i < |raws|
      ensures '\n' !in ended[i] && !EndsWith(raws[i], "\r")
      ensures EndsWith(raws[i] + "\r", "\r") && (raws[i] + "\r")[..|raws[i]|] == raws[i] && raws[i] + "" == raws[i]
    {
      assert raws[i] in raws;
      EndedLine(raws[i], crlf[i] && i < |raws| - 1);
    }
    SplitJoin(ended, '\n');
    hide Join, Split, EndsWith, OneLine;
  }

  /** `text` is a file written from the groups: in any letter case, with space around every part, with comments, with
      "\\n" or "\\r\\n" at the end of each line, and with lines between that do not matter. */
  ghost predicate WrittenFrom(text: string, groups: seq<Group>) {
    && IsFile(groups)
    && exists raws, crlf ::
         |raws| == |crlf| && raws != [] && SpellsAll(raws, LinesOf(groups), false) && text == FileText(raws, crlf)
  }

  /** From the text of a file back to its groups. */
  lemma TextReadBack(text: string, groups: seq<Group>, token: string)
    requires WrittenFrom(text, groups)
    ensures ParseRobots(text, token) == Select(groups, Lower(token))
  {
    hide FileText, SpellsAll, LinesOf, Select, ClassifyAll, SplitLines, ScanAll, Lower;
    var raws, crlf :|
      |raws| == |crlf| && raws != [] && SpellsAll(raws, LinesOf(groups), false) && text == FileText(raws, crlf);
    SpellsAllOneLine(raws, LinesOf(groups), false);
    LinesSplit(raws, crlf);
    SpellsAllReads(raws, LinesOf(groups), Scan([], false), Scan([], false));
    GroupsReadBack(groups);
  }

  /** Two files with the same groups, agents and rules in any order, however they are written, give the same verdict. */
  lemma FileOrderIsIrrelevant(a: string, b: string, groupsA: seq<Group>, groupsB: seq<Group>, token: string,
                              path: string)
    requires WrittenFrom(a, groupsA) && WrittenFrom(b, groupsB)
    requires CoveredBy(groupsA, groupsB) && CoveredBy(groupsB, groupsA)
    ensures PathAllowed(ParseRobots(a, token), path) <==> PathAllowed(ParseRobots(b, token), path)
  {
    hide *;
    TextReadBack(a, groupsA, token);
    TextReadBack(b, groupsB, token);
    OrderIsIrrelevant(groupsA, groupsB, Lower(token), path);
  }

  /** The verdict from the text: a path is allowed exactly if every rule for the agent that forbids it meets an allowing
      one no shorter. */
  lemma TextVerdict(text: string, groups: seq<Group>, token: string, path: string)
    requires WrittenFrom(text, groups)
    ensures PathAllowed(ParseRobots(text, token), path)
       <==> forall r :: IsFor(groups, Lower(token), r) && !r.allow && MatchesRule(r.path, path) ==>
                          exists o :: IsFor(groups, Lower(token), o) && o.allow && MatchesRule(o.path, path)
                                      && |o.path| >= |r.path|
  {
    hide *;
    TextReadBack(text, groups, token);
    AllowedIff(groups, Lower(token), path);
  }

  /** A file with one rule, forbidding what begins with `prefix` to the agents it names: it is obeyed by an agent whose
      name begins with one of them, for those paths and no other, and by nobody else unless `*` is named. */
  lemma OneRuleIsObeyed(text: string, agents: seq<string>, prefix: string, token: string, path: string)
    requires WrittenFrom(text, [Group(agents, [Rule(false, prefix)])])
    requires prefix != "" && '*' !in prefix && !EndsWith(prefix, "$")
    ensures PathAllowed(ParseRobots(text, token), path)
       <==> !(&& (exists a :: a in agents && (a == "*" || (a != "" && exists rest :: Lower(token) == a + rest)))
              && exists rest :: path == prefix + rest)
  {
    hide Lower, WrittenFrom, ParseRobots, PathAllowed, EndsWith;
    var g := Group(agents, [Rule(false, prefix)]);
    TextVerdict(text, [g], token, path);
    PlainMatch(prefix, path);
    hide MatchesRule;
    forall r ensures IsFor([g], Lower(token), r) <==> r == Rule(false, prefix) && Addresses(g, Lower(token)) {
      OneRule(g, prefix, Lower(token), r);
    }
    hide IsFor;
  }

  lemma OneRule(g: Group, prefix: string, token: string, r: Rule)
    requires g.rules == [Rule(false, prefix)] && prefix != ""
    ensures IsFor([g], token, r) <==> r == Rule(false, prefix) && Addresses(g, token)
  {
    hide Addresses, NamesMoreThanStar;
    assert g in [g];
  }

  lemma PlainMatch(prefix: string, path: string)
    requires prefix != "" && '*' !in prefix && !EndsWith(prefix, "$")
    ensures MatchesRule(prefix, path) <==> exists rest :: path == prefix + rest
  {
    hide Glob;
    PlainGlob(prefix, path);
  }
}
