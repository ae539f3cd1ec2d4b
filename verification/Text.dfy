/** The string operations of JavaScript that the models use. */
module Text {

  /** White space as `trim` and `\s` understand it. */
  predicate IsSpace(c: char) {
    || c in {' ', '\t', '\n', '\r', '\U{000B}', '\U{000C}', '\U{00A0}', '\U{1680}'}
    || '\U{2000}' <= c <= '\U{200A}'
    || c in {'\U{2028}', '\U{2029}', '\U{202F}', '\U{205F}', '\U{3000}', '\U{FEFF}'}
  }

  /** A character that `.` does not match in a regular expression. */
  predicate IsLineEnd(c: char) {
    c in {'\n', '\r', '\U{2028}', '\U{2029}'}
  }

  function TrimStart(s: string): string {
    if s != [] && IsSpace(s[0]) then TrimStart(s[1..]) else s
  }

  function TrimEnd(s: string): string {
    if s != [] && IsSpace(s[|s| - 1]) then TrimEnd(s[..|s| - 1]) else s
  }

  function Trim(s: string): string {
    TrimEnd(TrimStart(s))
  }

  lemma {:induction false} TrimStartSpaces(spaces: string, s: string)
    requires (forall c :: c in spaces ==> IsSpace(c)) && (s == "" || !IsSpace(s[0]))
    ensures TrimStart(spaces + s) == s
  {
    hide IsSpace;
    if spaces == "" {
      assert spaces + s == s;
    } else {
      assert spaces[0] in spaces && (spaces + s)[0] == spaces[0] && (spaces + s)[1..] == spaces[1..] + s;
      TrimStartSpaces(spaces[1..], s);
    }
  }

  lemma {:induction false} TrimEndSpaces(s: string, spaces: string)
    requires (forall c :: c in spaces ==> IsSpace(c)) && (s == "" || !IsSpace(s[|s| - 1]))
    ensures TrimEnd(s + spaces) == s
  {
    hide IsSpace;
    if spaces == "" {
      assert s + spaces == s;
    } else {
      var n := |spaces| - 1;
      assert spaces[n] in spaces && (s + spaces)[|s| + n] == spaces[n] && (s + spaces)[..|s| + n] == s + spaces[..n];
      TrimEndSpaces(s, spaces[..n]);
    }
  }

  lemma {:induction false} TrimEndCuts(s: string)
    ensures |TrimEnd(s)| <= |s| && TrimEnd(s) == s[..|TrimEnd(s)|]
    ensures |TrimEnd(s)| < |s| ==> IsSpace(s[|TrimEnd(s)|])
    ensures TrimEnd(s) != "" ==> !IsSpace(TrimEnd(s)[|TrimEnd(s)| - 1])
  {
    hide IsSpace;
    if s != "" && IsSpace(s[|s| - 1]) {
      var t := s[..|s| - 1];
      TrimEndCuts(t);
      assert t[..|TrimEnd(t)|] == s[..|TrimEnd(t)|];
    }
  }

  lemma {:induction false} TrimStartCuts(s: string)
    ensures |TrimStart(s)| <= |s| && TrimStart(s) == s[|s| - |TrimStart(s)|..]
  {
    hide IsSpace;
    if s != "" && IsSpace(s[0]) {
      TrimStartCuts(s[1..]);
    }
  }

  lemma {:induction false} TrimStartConcat(a: string, b: string)
    ensures TrimStart(a + b) == if TrimStart(a) == "" then TrimStart(b) else TrimStart(a) + b
  {
    hide IsSpace;
    if a == "" {
      assert a + b == b;
    } else if IsSpace(a[0]) {
      assert (a + b)[0] == a[0] && (a + b)[1..] == a[1..] + b;
      TrimStartConcat(a[1..], b);
    }
  }

  lemma {:induction false} TrimEndConcat(a: string, b: string)
    ensures TrimEnd(a + b) == if TrimEnd(b) == "" then TrimEnd(a) else a + TrimEnd(b)
  {
    hide IsSpace;
    if b == "" {
      assert a + b == a;
    } else if IsSpace(b[|b| - 1]) {
      var n := |b| - 1;
      assert (a + b)[|a| + n] == b[n] && (a + b)[..|a| + n] == a + b[..n];
      TrimEndConcat(a, b[..n]);
    }
  }

  /** ASCII lower case. */
  function LowerChar(c: char): char {
    if 'A' <= c <= 'Z' then (c as int + 32) as char else c
  }

  function Lower(s: string): (r: string)
    ensures |r| == |s|
    ensures forall i :: 0 <= i < |s| ==> r[i] == LowerChar(s[i])
  {
    if s == [] then [] else [LowerChar(s[0])] + Lower(s[1..])
  }

  lemma LowerIdempotent(s: string)
    ensures Lower(Lower(s)) == Lower(s)
  {
  }

  predicate StartsWith(s: string, prefix: string) {
    |prefix| <= |s| && s[..|prefix|] == prefix
  }

  predicate EndsWith(s: string, suffix: string) {
    |suffix| <= |s| && s[|s| - |suffix|..] == suffix
  }

  predicate Contains(s: string, part: string) {
    StartsWith(s, part) || (s != [] && Contains(s[1..], part))
  }

  /** Position of the first `c`, or the length of the string. */
  function IndexOf(s: string, c: char): (i: nat)
    ensures i <= |s| && c !in s[..i]
    ensures i < |s| ==> s[i] == c
  {
    if s == [] || s[0] == c then 0 else 1 + IndexOf(s[1..], c)
  }

  /** `split` at every `c`: always at least one piece. */
  function Split(s: string, c: char): (pieces: seq<string>)
    ensures |pieces| >= 1
    decreases |s|
  {
    var i := IndexOf(s, c);
    if i == |s| then [s] else [s[..i]] + Split(s[i + 1..], c)
  }

  function Join(pieces: seq<string>, c: char): string
    requires |pieces| >= 1
  {
    if |pieces| == 1 then pieces[0] else pieces[0] + [c] + Join(pieces[1..], c)
  }

  lemma {:induction false} IndexOfPrefix(a: string, c: char, b: string)
    requires c !in a
    ensures IndexOf(a + [c] + b, c) == |a|
  {
    if a == [] {
      assert a + [c] + b == [c] + b;
    } else {
      assert (a + [c] + b)[1..] == a[1..] + [c] + b;
      IndexOfPrefix(a[1..], c, b);
    }
  }

  lemma IndexOfNone(s: string, c: char)
    requires c !in s
    ensures IndexOf(s, c) == |s|
  {
  }

  lemma SplitFirst(first: string, c: char, rest: string)
    requires c !in first
    ensures Split(first + [c] + rest, c) == [first] + Split(rest, c)
  {
    IndexOfPrefix(first, c, rest);
    hide IndexOf;
    var s := first + [c] + rest;
    assert s[..|first|] == first;
    assert s[|first| + 1..] == rest;
  }

  /** Splitting undoes joining, as long as no piece contains the separator. */
  lemma {:induction false} SplitJoin(pieces: seq<string>, c: char)
    requires |pieces| >= 1 && forall p :: p in pieces ==> c !in p
    ensures Split(Join(pieces, c), c) == pieces
  {
    if |pieces| == 1 {
      IndexOfNone(pieces[0], c);
    } else {
      hide IndexOf, Split;
      SplitJoin(pieces[1..], c);
      SplitFirst(pieces[0], c, Join(pieces[1..], c));
    }
  }

  lemma SplitWhole(s: string, c: char)
    requires c !in s
    ensures Split(s, c) == [s]
  {
    IndexOfNone(s, c);
  }

  lemma FirstOf(s: string, c: char) returns (i: nat)
    requires c in s
    ensures i < |s| && c !in s[..i] && s == s[..i] + [c] + s[i + 1..]
  {
    i := IndexOf(s, c);
    assert s[..|s|] == s;
  }

  /** Splitting at a separator splits both sides. */
  lemma {:induction false} SplitConcat(a: string, c: char, b: string)
    ensures Split(a + [c] + b, c) == Split(a, c) + Split(b, c)
    decreases |a|
  {
    hide Split;
    if c !in a {
      SplitWhole(a, c);
      SplitFirst(a, c, b);
    } else {
      var i := FirstOf(a, c);
      var first, rest := a[..i], a[i + 1..];
      SplitConcat(rest, c, b);
      SplitFirst(first, c, rest + [c] + b);
      SplitFirst(first, c, rest);
      assert a + [c] + b == first + [c] + (rest + [c] + b);
      assert [first] + (Split(rest, c) + Split(b, c)) == [first] + Split(rest, c) + Split(b, c);
    }
  }

  /** `split(/\r?\n/)`. */
  function SplitLines(s: string): seq<string> {
    var pieces := Split(s, '\n');
    seq(|pieces|, i requires 0 <= i < |pieces| =>
      if i < |pieces| - 1 && EndsWith(pieces[i], "\r") then pieces[i][..|pieces[i]| - 1] else pieces[i])
  }

  // ----- Runs of characters between separators -----

  function RunEnd(s: string, isSeparator: char -> bool): (n: nat)
    ensures n <= |s| && forall i :: 0 <= i < n ==> !isSeparator(s[i])
    ensures n < |s| ==> isSeparator(s[n])
  {
    if s == "" || isSeparator(s[0]) then 0 else 1 + RunEnd(s[1..], isSeparator)
  }

  /** The longest runs of characters that are not separators. */
  function Runs(s: string, isSeparator: char -> bool): seq<string>
    decreases |s|
  {
    if s == "" then []
    else if isSeparator(s[0]) then Runs(s[1..], isSeparator)
    else [s[..RunEnd(s, isSeparator)]] + Runs(s[RunEnd(s, isSeparator)..], isSeparator)
  }

  ghost predicate AreRuns(runs: seq<string>, isSeparator: char -> bool) {
    forall w :: w in runs ==> w != "" && forall c :: c in w ==> !isSeparator(c)
  }

  lemma {:induction false} RunsAreRuns(s: string, isSeparator: char -> bool)
    ensures AreRuns(Runs(s, isSeparator), isSeparator)
    decreases |s|
  {
    if s != "" {
      if isSeparator(s[0]) {
        RunsAreRuns(s[1..], isSeparator);
      } else {
        RunsAreRuns(s[RunEnd(s, isSeparator)..], isSeparator);
      }
    }
  }

  lemma RunEndAt(a: string, c: char, b: string, isSeparator: char -> bool)
    requires isSeparator(c)
    ensures RunEnd(a + [c] + b, isSeparator) == RunEnd(a, isSeparator)
  {
    hide RunEnd;
    var s := a + [c] + b;
    assert s[|a|] == c;
    assert forall i :: 0 <= i < |a| ==> s[i] == a[i];
  }

  /** A separator separates. */
  lemma {:induction false} RunsSeparate(a: string, c: char, b: string, isSeparator: char -> bool)
    requires isSeparator(c)
    ensures Runs(a + [c] + b, isSeparator) == Runs(a, isSeparator) + Runs(b, isSeparator)
    decreases |a|
  {
    var s := a + [c] + b;
    hide RunEnd;
    if a == "" {
      assert s[1..] == b && s[0] == c;
      assert [] + Runs(b, isSeparator) == Runs(b, isSeparator);
    } else if isSeparator(a[0]) {
      assert s[0] == a[0] && s[1..] == a[1..] + [c] + b;
      RunsSeparate(a[1..], c, b, isSeparator);
    } else {
      RunEndAt(a, c, b, isSeparator);
      var n := RunEnd(a, isSeparator);
      var first, rest := a[..n], Runs(a[n..], isSeparator);
      assert s[0] == a[0];
      assert s[..n] == first;
      assert s[n..] == a[n..] + [c] + b;
      RunsSeparate(a[n..], c, b, isSeparator);
      assert [first] + rest + Runs(b, isSeparator) == [first] + (rest + Runs(b, isSeparator));
    }
  }

  lemma OneRun(w: string, isSeparator: char -> bool)
    requires w != "" && forall c :: c in w ==> !isSeparator(c)
    ensures Runs(w, isSeparator) == [w]
  {
    assert RunEnd(w, isSeparator) == |w|;
    assert w[|w|..] == "" && w[..|w|] == w;
    assert w[0] in w;
  }
}
