/** Expansion of IPv6 text into eight 16-bit groups. */
module Ipv6 {
  import opened Common
  import opened Text
  import opened Numerals
  import opened Ip

  /** Position of the first `::`, or the length of the string. */
  function DoubleColon(s: string): (i: nat)
    ensures i <= |s|
    ensures i < |s| ==> i + 1 < |s| && s[i] == ':' && s[i + 1] == ':'
    ensures forall j :: 0 <= j < i && j + 1 < |s| ==> !(s[j] == ':' && s[j + 1] == ':')
  {
    if s == "" then 0
    else if |s| >= 2 && s[0] == ':' && s[1] == ':' then 0
    else 1 + DoubleColon(s[1..])
  }

  /** `slice(lastIndexOf(":") + 1)`: what follows the last colon. */
  function Tail(s: string): (t: string)
    ensures |t| <= |s|
  {
    var i := IndexOf(s, ':');
    if i == |s| then s else Tail(s[i + 1..])
  }

  function NonEmpty(pieces: seq<string>): seq<string> {
    if pieces == [] then [] else (if pieces[0] == "" then [] else [pieces[0]]) + NonEmpty(pieces[1..])
  }

  function ParseGroup(g: string): Option<nat> {
    if 1 <= |g| <= 4 && AllDigits(g, 16) then Some(Value(g, 16)) else None
  }

  function ParseGroups(groups: seq<string>): Option<seq<nat>> {
    if groups == [] then Some([])
    else
      match ParseGroup(groups[0])
      case None => None
      case Some(v) =>
        match ParseGroups(groups[1..])
        case None => None
        case Some(vs) => Some([v] + vs)
  }

  function ZeroGroups(n: nat): (zs: seq<nat>)
    ensures |zs| == n && forall z :: z in zs ==> z == 0
  {
    if n == 0 then [] else [0] + ZeroGroups(n - 1)
  }

  function WithoutZone(input: string): string {
    input[..IndexOf(input, '%')]
  }

  /** The groups before and after `::`, with as many zeros between as are missing. */
  function Filled(head: Option<seq<nat>>, tail: Option<seq<nat>>): (r: Option<seq<nat>>)
    ensures r.Some? ==> |r.value| == 8
  {
    if head.None? || tail.None? || |head.value| + |tail.value| > 8 then None
    else Some(head.value + ZeroGroups(8 - |head.value| - |tail.value|) + tail.value)
  }

  /** The groups of an address that has no dotted tail, `trailing` being what a dotted tail added. */
  function Assemble(address: string, trailing: seq<nat>): (r: Option<seq<nat>>)
    ensures r.Some? ==> |r.value| == 8
  {
    var d := DoubleColon(address);
    if d < |address| then
      if DoubleColon(address[d + 1..]) < |address[d + 1..]| then None
      else
        Filled(ParseGroups(NonEmpty(Split(address[..d], ':'))), ParseGroups(NonEmpty(Split(address[d + 2..], ':'))))
    else
      var head := ParseGroups(Split(address, ':'));
      if head.None? || |head.value + trailing| != 8 then None
      else Some(head.value + trailing)
  }

  function ExpandIpv6(input: string): (r: Option<seq<nat>>)
    ensures r.Some? ==> |r.value| == 8
  {
    var address := WithoutZone(input);
    var tail := Tail(address);
    if '.' in tail then
      match ParseIpv4(tail)
      case None => None
      case Some(v4) => Assemble(address[..|address| - |tail|] + "0:0", [v4 / 0x1_0000, v4 % 0x1_0000])
    else Assemble(address, [])
  }

  method ParseGroupsText(groups: seq<string>) returns (r: Option<seq<nat>>)
    ensures r == ParseGroups(groups)
  {
    hide ParseGroup;
    var values: seq<nat> := [];
    var i := 0;
    assert groups[0..] == groups;
    assert ParseGroups(groups).Some? ==> values + ParseGroups(groups).value == ParseGroups(groups).value;
    while i < |groups|
      invariant 0 <= i <= |groups|
      invariant ParseGroups(groups) == After(values, ParseGroups(groups[i..]))
    {
      assert groups[i..][1..] == groups[i + 1..];
      var v := ParseGroup(groups[i]);
      if v.None? {
        return None;
      }
      var rest := ParseGroups(groups[i + 1..]);
      assert rest.Some? ==> values + ([v.value] + rest.value) == values + [v.value] + rest.value;
      values := values + [v.value];
      i := i + 1;
    }
    assert groups[i..] == [];
    assert values + [] == values;
    return Some(values);
  }

  /** `filter((s) => s !== "")`. */
  method DropEmpty(pieces: seq<string>) returns (r: seq<string>)
    ensures r == NonEmpty(pieces)
  {
    r := [];
    var i := 0;
    while i < |pieces|
      invariant 0 <= i <= |pieces|
      invariant r + NonEmpty(pieces[i..]) == NonEmpty(pieces)
    {
      assert pieces[i..][1..] == pieces[i + 1..];
      if pieces[i] != "" {
        r := r + [pieces[i]];
      }
      i := i + 1;
    }
  }

  method ExpandText(input: string) returns (r: Option<seq<nat>>)
    ensures r == ExpandIpv6(input)
  {
    hide Tail, DoubleColon, Split, NonEmpty, ParseGroups, ParseIpv4, ZeroGroups;
    var address := input;
    var zone := IndexOf(address, '%');
    address := address[..zone];
    var trailing: seq<nat> := [];
    var tail := Tail(address);
    if '.' in tail {
      var v4 := ParseIpv4Text(tail);
      if v4.None? {
        return None;
      }
      trailing := [v4.value / 0x1_0000, v4.value % 0x1_0000];
      address := address[..|address| - |tail|] + "0:0";
    }
    assert ExpandIpv6(input) == Assemble(address, trailing);
    var d := DoubleColon(address);
    if d == |address| {
      var all := ParseGroupsText(Split(address, ':'));
      if all.None? || |all.value + trailing| != 8 {
        return None;
      }
      return Some(all.value + trailing);
    }
    if DoubleColon(address[d + 1..]) < |address[d + 1..]| {
      return None;
    }
    var headPieces := DropEmpty(Split(address[..d], ':'));
    var tailPieces := DropEmpty(Split(address[d + 2..], ':'));
    var head := ParseGroupsText(headPieces);
    var rest := ParseGroupsText(tailPieces);
    if head.None? || rest.None? || |head.value| + |rest.value| > 8 {
      return None;
    }
    return Some(head.value + ZeroGroups(8 - |head.value| - |rest.value|) + rest.value);
  }

  // ----- Printing -----

  /** A group in hexadecimal digits after `zeros` leading zeros. */
  function GroupText(v: nat, zeros: nat): string {
    Zeros(zeros) + Digits(v, 16)
  }

  function GroupTexts(values: seq<nat>, zeros: seq<nat>): (texts: seq<string>)
    requires |values| == |zeros|
    ensures |texts| == |values|
  {
    if values == [] then [] else [GroupText(values[0], zeros[0])] + GroupTexts(values[1..], zeros[1..])
  }

  function JoinOrEmpty(texts: seq<string>): string {
    if texts == [] then "" else Join(texts, ':')
  }

  /** All eight groups in full. */
  function PrintFull(groups: seq<nat>, zeros: seq<nat>): string
    requires |groups| == |zeros| == 8
  {
    Join(GroupTexts(groups, zeros), ':')
  }

  /** The groups before `i` and from `j` on, with `::` for the run of zero groups between. */
  function PrintCompressed(groups: seq<nat>, zeros: seq<nat>, i: nat, j: nat): string
    requires |groups| == |zeros| == 8 && i <= j <= 8
  {
    JoinOrEmpty(GroupTexts(groups[..i], zeros[..i])) + "::" + JoinOrEmpty(GroupTexts(groups[j..], zeros[j..]))
  }

  /** Every group is a 16-bit value spelt with at most four digits. */
  predicate Printable(values: seq<nat>, zeros: seq<nat>) {
    && |values| == |zeros|
    && forall i :: 0 <= i < |values| ==> values[i] < 0x1_0000 && |GroupText(values[i], zeros[i])| <= 4
  }

  /** Non-empty hexadecimal text. */
  predicate HexText(s: string) {
    s != "" && AllDigits(s, 16)
  }

  predicate AllHexText(texts: seq<string>) {
    forall t :: t in texts ==> HexText(t)
  }

  lemma NoHexDigit()
    ensures DigitOf(':') == 16 && DigitOf('.') == 16 && DigitOf('%') == 16
  {
  }

  lemma GroupReadBack(v: nat, zeros: nat)
    ensures HexText(GroupText(v, zeros))
    ensures |GroupText(v, zeros)| <= 4 ==> ParseGroup(GroupText(v, zeros)) == Some(v)
  {
    PaddedDigits(v, zeros, 16);
  }

  lemma OneMoreGroup(values: seq<nat>, zeros: seq<nat>)
    requires Printable(values, zeros) && values != []
    ensures Printable(values[1..], zeros[1..]) && |GroupText(values[0], zeros[0])| <= 4
    ensures GroupTexts(values, zeros) == [GroupText(values[0], zeros[0])] + GroupTexts(values[1..], zeros[1..])
  {
    hide GroupText;
  }

  lemma OneMoreParsed(g: string, v: nat, rest: seq<string>, values: seq<nat>)
    requires ParseGroup(g) == Some(v) && ParseGroups(rest) == Some(values)
    ensures ParseGroups([g] + rest) == Some([v] + values)
  {
    hide ParseGroup;
    assert ([g] + rest)[1..] == rest;
  }

  lemma OneMoreHexText(g: string, rest: seq<string>)
    requires HexText(g) && AllHexText(rest)
    ensures AllHexText([g] + rest)
  {
  }

  lemma {:induction false} GroupsReadBack(values: seq<nat>, zeros: seq<nat>)
    requires Printable(values, zeros)
    ensures AllHexText(GroupTexts(values, zeros)) && ParseGroups(GroupTexts(values, zeros)) == Some(values)
  {
    if values != [] {
      hide *;
      OneMoreGroup(values, zeros);
      GroupReadBack(values[0], zeros[0]);
      GroupsReadBack(values[1..], zeros[1..]);
      var rest := GroupTexts(values[1..], zeros[1..]);
      OneMoreParsed(GroupText(values[0], zeros[0]), values[0], rest, values[1..]);
      OneMoreHexText(GroupText(values[0], zeros[0]), rest);
      assert values == [values[0]] + values[1..];
    }
  }

  predicate HexAndColons(s: string) {
    forall k :: 0 <= k < |s| ==> s[k] == ':' || DigitOf(s[k]) < 16
  }

  /** Joined hexadecimal groups: no two colons in a row, none at either end, no other punctuation. */
  predicate Plain(s: string) {
    && HexAndColons(s)
    && (s != "" ==> s[0] != ':' && s[|s| - 1] != ':')
    && (forall k :: 0 <= k < |s| - 1 ==> !(s[k] == ':' && s[k + 1] == ':'))
  }

  lemma HexTextPlain(s: string)
    requires HexText(s)
    ensures Plain(s) && ':' !in s
  {
    NoHexDigit();
    forall k | 0 <= k < |s| ensures DigitOf(s[k]) < 16 && s[k] != ':' {
      assert s[k] in s;
    }
  }

  lemma PlainJoin(a: string, b: string)
    requires Plain(a) && Plain(b) && a != "" && b != ""
    ensures Plain(a + [':'] + b)
  {
    var s := a + [':'] + b;
    forall k | 0 <= k < |s| ensures s[k] == ':' || DigitOf(s[k]) < 16 {
      assert k > |a| ==> s[k] == b[k - |a| - 1];
    }
    forall k | 0 <= k < |s| - 1 ensures !(s[k] == ':' && s[k + 1] == ':') {
      assert k > |a| ==> s[k] == b[k - |a| - 1] && s[k + 1] == b[k - |a|];
      assert k == |a| ==> s[k + 1] == b[0];
      assert k == |a| - 1 ==> s[k] == a[|a| - 1];
    }
    assert s[|s| - 1] == b[|b| - 1];
  }

  lemma {:induction false} JoinPlain(texts: seq<string>)
    requires texts != [] && AllHexText(texts)
    ensures Plain(Join(texts, ':')) && Join(texts, ':') != ""
  {
    assert texts[0] in texts;
    HexTextPlain(texts[0]);
    if |texts| > 1 {
      assert forall t :: t in texts[1..] ==> t in texts;
      JoinPlain(texts[1..]);
      hide Plain;
      assert Join(texts, ':') == texts[0] + [':'] + Join(texts[1..], ':');
      PlainJoin(texts[0], Join(texts[1..], ':'));
    }
  }

  lemma JoinOrEmptyPlain(texts: seq<string>)
    requires AllHexText(texts)
    ensures Plain(JoinOrEmpty(texts)) && (JoinOrEmpty(texts) == "" <==> texts == [])
  {
    if texts != [] {
      JoinPlain(texts);
    }
  }

  lemma {:induction false} NoneEmpty(texts: seq<string>)
    requires forall t :: t in texts ==> t != ""
    ensures NonEmpty(texts) == texts
  {
    if texts != [] {
      assert texts[0] in texts && forall t :: t in texts[1..] ==> t in texts;
      NoneEmpty(texts[1..]);
    }
  }

  /** Splitting what was joined, with the empty piece of an empty text filtered out. */
  lemma SplitGroups(texts: seq<string>)
    requires AllHexText(texts)
    ensures NonEmpty(Split(JoinOrEmpty(texts), ':')) == texts
    ensures texts != [] ==> Split(JoinOrEmpty(texts), ':') == texts
  {
    forall t | t in texts ensures ':' !in t && t != "" {
      HexTextPlain(t);
    }
    if texts == [] {
      assert Split("", ':') == [""];
      assert [""][1..] == [];
    } else {
      SplitJoin(texts, ':');
      NoneEmpty(texts);
    }
  }

  lemma DoubleColonAt(a: string, b: string)
    requires Plain(a)
    ensures DoubleColon(a + "::" + b) == |a|
  {
    hide DoubleColon;
    var s := a + "::" + b;
    assert s[|a|] == ':' && s[|a| + 1] == ':';
    assert forall k :: 0 <= k < |a| ==> s[k] == a[k];
  }

  lemma NoSecondDoubleColon(b: string)
    requires Plain(b)
    ensures DoubleColon(":" + b) == |b| + 1
  {
    hide DoubleColon;
    var t := ":" + b;
    assert forall k :: 1 <= k < |t| ==> t[k] == b[k - 1];
  }

  lemma PlainHasNone(s: string)
    requires Plain(s)
    ensures DoubleColon(s) == |s|
  {
  }

  /** Text of digits and colons only has no zone and no dotted tail. */
  lemma {:induction false} NoDotInTail(s: string)
    requires '.' !in s
    ensures '.' !in Tail(s)
  {
    var i := IndexOf(s, ':');
    if i < |s| {
      NoDotInTail(s[i + 1..]);
    }
  }

  lemma HexAndColonsOnly(s: string)
    requires HexAndColons(s)
    ensures ExpandIpv6(s) == Assemble(s, [])
  {
    hide Assemble, Tail;
    NoHexDigit();
    assert '.' !in s && '%' !in s;
    IndexOfNone(s, '%');
    assert s[..|s|] == s;
    NoDotInTail(s);
  }

  /** Eight groups written in full are read back. */
  lemma FullReadBack(groups: seq<nat>, zeros: seq<nat>)
    requires |groups| == 8 && Printable(groups, zeros)
    ensures ExpandIpv6(PrintFull(groups, zeros)) == Some(groups)
  {
    var texts := GroupTexts(groups, zeros);
    GroupsReadBack(groups, zeros);
    JoinOrEmptyPlain(texts);
    SplitGroups(texts);
    hide GroupTexts, AllHexText, Split, Join, ParseGroups;
    var s := PrintFull(groups, zeros);
    assert Plain(s);
    HexAndColonsOnly(s);
    PlainHasNone(s);
    assert groups + [] == groups;
  }

  lemma {:induction false} AllZero(zs: seq<nat>)
    requires forall z :: z in zs ==> z == 0
    ensures zs == ZeroGroups(|zs|)
  {
    if zs != [] {
      assert zs[0] in zs && forall z :: z in zs[1..] ==> z in zs;
      AllZero(zs[1..]);
    }
  }

  lemma AssembleCompressed(a: string, b: string, trailing: seq<nat>)
    requires Plain(a) && Plain(b)
    ensures Assemble(a + "::" + b, trailing)
         == Filled(ParseGroups(NonEmpty(Split(a, ':'))), ParseGroups(NonEmpty(Split(b, ':'))))
  {
    DoubleColonAt(a, b);
    NoSecondDoubleColon(b);
    hide Plain, DoubleColon, Split, ParseGroups, NonEmpty, Filled;
    var s := a + "::" + b;
    assert |s| == |a| + 2 + |b|;
    assert s[..|a|] == a;
    assert s[|a| + 2..] == b;
    assert s[|a| + 1..] == ":" + b;
  }

  lemma PlainCharacters(a: string, b: string)
    requires Plain(a) && Plain(b)
    ensures ExpandIpv6(a + "::" + b) == Assemble(a + "::" + b, [])
  {
    hide ExpandIpv6, Assemble;
    var s := a + "::" + b;
    assert forall k :: 0 <= k < |s| ==> s[k] == ':' || DigitOf(s[k]) < 16;
    HexAndColonsOnly(s);
  }

  lemma CompressedText(head: seq<string>, tail: seq<string>)
    requires AllHexText(head) && AllHexText(tail)
    ensures ExpandIpv6(JoinOrEmpty(head) + "::" + JoinOrEmpty(tail)) == Filled(ParseGroups(head), ParseGroups(tail))
  {
    hide Plain, AllHexText, JoinOrEmpty, Split, ParseGroups, NonEmpty, ExpandIpv6, Assemble, Filled;
    JoinOrEmptyPlain(head);
    JoinOrEmptyPlain(tail);
    SplitGroups(head);
    SplitGroups(tail);
    PlainCharacters(JoinOrEmpty(head), JoinOrEmpty(tail));
    AssembleCompressed(JoinOrEmpty(head), JoinOrEmpty(tail), []);
  }

  lemma PrintableSlice(groups: seq<nat>, zeros: seq<nat>, i: nat, j: nat)
    requires Printable(groups, zeros) && i <= j <= |groups|
    ensures Printable(groups[i..j], zeros[i..j])
  {
    hide GroupText;
  }

  /** Eight groups with any run of zero groups written `::` are read back. */
  lemma CompressedReadBack(groups: seq<nat>, zeros: seq<nat>, i: nat, j: nat)
    requires |groups| == |zeros| == 8 && Printable(groups, zeros) && i <= j <= 8
    requires forall k :: i <= k < j ==> groups[k] == 0
    ensures ExpandIpv6(PrintCompressed(groups, zeros, i, j)) == Some(groups)
  {
    hide GroupTexts, Printable, ParseGroups, ExpandIpv6, ZeroGroups, JoinOrEmpty;
    assert groups[..i] == groups[0..i] && zeros[..i] == zeros[0..i];
    assert groups[j..] == groups[j..8] && zeros[j..] == zeros[j..8];
    PrintableSlice(groups, zeros, 0, i);
    PrintableSlice(groups, zeros, j, 8);
    GroupsReadBack(groups[..i], zeros[..i]);
    GroupsReadBack(groups[j..], zeros[j..]);
    CompressedText(GroupTexts(groups[..i], zeros[..i]), GroupTexts(groups[j..], zeros[j..]));
    AllZero(groups[i..j]);
    assert groups == groups[..i] + groups[i..j] + groups[j..];
  }

  // ----- The dotted tail -----

  lemma {:induction false} TailAfter(prefix: string, quad: string)
    requires ':' !in quad
    ensures Tail(prefix + [':'] + quad) == quad
    decreases |prefix|
  {
    var s := prefix + [':'] + quad;
    var i := IndexOf(s, ':');
    assert s[|prefix|] == ':';
    if i == |prefix| {
      assert s[i + 1..] == quad;
      IndexOfNone(quad, ':');
    } else {
      assert i < |prefix|;
      assert s[i + 1..] == prefix[i + 1..] + [':'] + quad;
      TailAfter(prefix[i + 1..], quad);
    }
  }

  /** The two groups a dotted quad stands for. */
  function QuadGroups(v4: nat): seq<nat> {
    [v4 / 0x1_0000, v4 % 0x1_0000]
  }

  lemma DottedTail(prefix: string, quad: string)
    requires '%' !in prefix && '%' !in quad && ':' !in quad && '.' in quad && ParseIpv4(quad).Some?
    ensures ExpandIpv6(prefix + ":" + quad) == Assemble(prefix + ":0:0", QuadGroups(ParseIpv4(quad).value))
  {
    hide Tail, ParseIpv4, Assemble;
    var s := prefix + ":" + quad;
    IndexOfNone(s, '%');
    assert s[..|s|] == s;
    TailAfter(prefix, quad);
    assert s[..|s| - |quad|] + "0:0" == prefix + ":0:0";
  }

  lemma DottedTailUnread(prefix: string, quad: string)
    requires '%' !in prefix && '%' !in quad && ':' !in quad && '.' in quad && ParseIpv4(quad).None?
    ensures ExpandIpv6(prefix + ":" + quad) == None
  {
    hide Tail, ParseIpv4, Assemble;
    var s := prefix + ":" + quad;
    IndexOfNone(s, '%');
    assert s[..|s|] == s;
    TailAfter(prefix, quad);
  }

  /** An embedded dotted quad is checked but not used when there is a `::`: the address expands as if
      the quad were `0:0`. */
  lemma DottedTailReadsAsZero(prefix: string, quad: string)
    requires '%' !in prefix && '%' !in quad && ':' !in quad && '.' in quad && ParseIpv4(quad).Some?
    requires DoubleColon(prefix + ":0:0") < |prefix + ":0:0"|
    ensures ExpandIpv6(prefix + ":" + quad) == Assemble(prefix + ":0:0", [])
  {
    hide ExpandIpv6, ParseIpv4, ParseGroups, NonEmpty, Split, DoubleColon;
    DottedTail(prefix, quad);
  }

  lemma {:induction false} JoinLast(texts: seq<string>, t: string, c: char)
    requires texts != []
    ensures Join(texts + [t], c) == Join(texts, c) + [c] + t
  {
    if |texts| > 1 {
      JoinLast(texts[1..], t, c);
      assert (texts + [t])[1..] == texts[1..] + [t];
    } else {
      assert (texts + [t])[1..] == [t];
    }
  }

  function Prepended(v: Option<nat>, values: Option<seq<nat>>): Option<seq<nat>> {
    if v.None? || values.None? then None else Some([v.value] + values.value)
  }

  function Appended(values: Option<seq<nat>>, more: seq<nat>): Option<seq<nat>> {
    if values.None? then None else Some(values.value + more)
  }

  lemma PrependedAppended(v: Option<nat>, values: Option<seq<nat>>, more: seq<nat>)
    ensures Prepended(v, Appended(values, more)) == Appended(Prepended(v, values), more)
  {
    if v.Some? && values.Some? {
      assert [v.value] + (values.value + more) == [v.value] + values.value + more;
    }
  }

  lemma ParseGroupsStep(g: string, rest: seq<string>)
    ensures ParseGroups([g] + rest) == Prepended(ParseGroup(g), ParseGroups(rest))
  {
    hide ParseGroup;
    assert ([g] + rest)[1..] == rest;
  }

  lemma NoGroups(b: seq<string>)
    requires ParseGroups(b).Some?
    ensures ParseGroups([] + b) == Appended(ParseGroups([]), ParseGroups(b).value)
  {
    assert [] + b == b && [] + ParseGroups(b).value == ParseGroups(b).value;
  }

  lemma {:induction false} ParseGroupsConcat(a: seq<string>, b: seq<string>)
    requires ParseGroups(b).Some?
    ensures ParseGroups(a + b) == Appended(ParseGroups(a), ParseGroups(b).value)
  {
    hide *;
    if a == [] {
      NoGroups(b);
    } else {
      ParseGroupsConcat(a[1..], b);
      ParseGroupsStep(a[0], a[1..]);
      ParseGroupsStep(a[0], a[1..] + b);
      assert a == [a[0]] + a[1..] && a + b == [a[0]] + (a[1..] + b);
      PrependedAppended(ParseGroup(a[0]), ParseGroups(a[1..]), ParseGroups(b).value);
    }
  }

  lemma ZeroTexts()
    ensures AllHexText(["0", "0"]) && ParseGroups(["0", "0"]) == Some([0, 0])
  {
    var zero := GroupText(0, 0);
    assert zero == "0";
    GroupReadBack(0, 0);
    assert ParseGroup("0") == Some(0);
    assert ["0"][1..] == [] && ParseGroups([]) == Some([]);
    assert ParseGroups(["0"]) == Some([0] + []);
    assert [0] + [] == [0] && [0] + [0] == [0, 0];
    assert ["0", "0"][1..] == ["0"];
  }

  lemma DottedPairText(head: seq<string>)
    requires head != [] && AllHexText(head)
    ensures Join(head, ':') + ":0:0" == Join(head + ["0", "0"], ':') && AllHexText(head + ["0", "0"])
  {
    ZeroTexts();
    hide HexText, Join;
    JoinLast(head, "0", ':');
    JoinLast(head + ["0"], "0", ':');
    assert head + ["0"] + ["0"] == head + ["0", "0"];
  }

  lemma AssemblePlain(texts: seq<string>, trailing: seq<nat>)
    requires texts != [] && AllHexText(texts)
    ensures Assemble(Join(texts, ':'), trailing)
         == (match ParseGroups(texts)
             case None => None
             case Some(vs) => if |vs + trailing| == 8 then Some(vs + trailing) else None)
  {
    JoinPlain(texts);
    PlainHasNone(Join(texts, ':'));
    SplitGroups(texts);
    hide Plain, AllHexText, Join, Split, ParseGroups, DoubleColon;
  }

  /** Without a `::`, a dotted quad is placed after `0:0` instead of in its stead. So the eight-group
      form with a dotted tail, six groups and a quad, is refused, and what is accepted is four. */
  lemma DottedTailWithoutCompression(head: seq<string>, quad: string)
    requires head != [] && AllHexText(head)
    requires '%' !in quad && ':' !in quad && '.' in quad && ParseIpv4(quad).Some?
    ensures ExpandIpv6(Join(head, ':') + ":" + quad)
         == (match ParseGroups(head)
             case None => None
             case Some(vs) =>
               if |vs| == 4 then Some(vs + [0, 0] + QuadGroups(ParseIpv4(quad).value)) else None)
  {
    JoinPlain(head);
    NoHexDigit();
    assert '%' !in Join(head, ':');
    hide AllHexText, Plain, Join, ExpandIpv6, Assemble, ParseGroups, ParseIpv4;
    DottedTail(Join(head, ':'), quad);
    DottedPairText(head);
    AssemblePlain(head + ["0", "0"], QuadGroups(ParseIpv4(quad).value));
    ZeroTexts();
    ParseGroupsConcat(head, ["0", "0"]);
  }

  // ----- Classification -----

  function ClassifyGroups(g: seq<nat>): Option<string>
    requires |g| == 8
  {
    if g == [0, 0, 0, 0, 0, 0, 0, 1] then Some("IPv6 loopback (::1)")
    else if g == [0, 0, 0, 0, 0, 0, 0, 0] then Some("IPv6 unspecified (::)")
    else if BitAnd(g[0], 0xffc0) == 0xfe80 then Some("IPv6 link-local (fe80::/10)")
    else if BitAnd(g[0], 0xfe00) == 0xfc00 then Some("IPv6 unique-local (fc00::/7)")
    else if BitAnd(g[0], 0xff00) == 0xff00 then Some("IPv6 multicast (ff00::/8)")
    else if g[..6] == [0, 0, 0, 0, 0, 0xffff] then
      match FirstBlock(ToUint32(g[6] * 0x1_0000 + g[7]), DISALLOWED)
      case None => None
      case Some(reason) => Some("IPv4-mapped " + reason)
    else None
  }

  function ClassifyIpv6(input: string): Option<string> {
    match ExpandIpv6(input)
    case None => Some("unparseable IPv6 address")
    case Some(groups) => ClassifyGroups(groups)
  }

  lemma ClearedInterval(g: nat, p: nat, base: nat)
    requires p > 0 && base % p == 0
    ensures Cleared(g, p) == base <==> base <= g < base + p
  {
    AlignedInterval(g, base, p);
    assert g == p * (g / p) + g % p && base == p * (base / p);
    assert p * (g / p) == p * (base / p) ==> g / p == base / p;
  }

  /** Masking a group with the bits from `k` up tests whether it lies in an interval. */
  lemma GroupMask(g: nat, k: nat, base: nat)
    requires g < 0x1_0000 && k <= 16
    requires 0 < Pow2(k) <= 0x1_0000 && base % Pow2(k) == 0
    ensures BitAnd(g, 0x1_0000 - Pow2(k)) == base <==> base <= g < base + Pow2(k)
  {
    hide Pow2, BitAnd, Cleared;
    PowersOfTwo();
    MaskClears(g, 16, k);
    ClearedInterval(g, Pow2(k), base);
  }

  predicate IsGroups(g: seq<nat>) {
    |g| == 8 && forall i :: 0 <= i < 8 ==> g[i] < 0x1_0000
  }

  /** `::ffff:0:0/96`. */
  predicate IsMapped(g: seq<nat>) {
    |g| == 8 && g[..6] == [0, 0, 0, 0, 0, 0xffff]
  }

  /** The reserved blocks of IPv6, as intervals of the first group, and the IPv4 blocks behind the mapped ones. */
  ghost predicate Reserved(g: seq<nat>)
    requires |g| == 8
  {
    || (g[..7] == [0, 0, 0, 0, 0, 0, 0] && g[7] <= 1)
    || 0xfe80 <= g[0] < 0xfec0
    || 0xfc00 <= g[0] < 0xfe00
    || 0xff00 <= g[0]
    || (IsMapped(g) && exists b :: b in DISALLOWED && Inside(g[6] * 0x1_0000 + g[7], b))
  }

  lemma GroupMasks(g: nat)
    requires g < 0x1_0000
    ensures BitAnd(g, 0xffc0) == 0xfe80 <==> 0xfe80 <= g < 0xfec0
    ensures BitAnd(g, 0xfe00) == 0xfc00 <==> 0xfc00 <= g < 0xfe00
    ensures BitAnd(g, 0xff00) == 0xff00 <==> 0xff00 <= g
  {
    assert Pow2(6) == 0x40;
    assert Pow2(8) == 0x100;
    assert Pow2(9) == 0x200 && Pow2(10) == 0x400;
    hide Pow2, BitAnd;
    GroupMask(g, 6, 0xfe80);
    GroupMask(g, 9, 0xfc00);
    GroupMask(g, 8, 0xff00);
  }

  lemma SmallAddresses(g: seq<nat>)
    requires |g| == 8
    ensures (g == [0, 0, 0, 0, 0, 0, 0, 1] || g == [0, 0, 0, 0, 0, 0, 0, 0])
       <==> (g[..7] == [0, 0, 0, 0, 0, 0, 0] && g[7] <= 1)
  {
    assert g == g[..7] + [g[7]];
  }

  lemma MappedReserved(high: nat, low: nat)
    requires high < 0x1_0000 && low < 0x1_0000
    ensures FirstBlock(ToUint32(high * 0x1_0000 + low), DISALLOWED).Some?
       <==> exists b :: b in DISALLOWED && Inside(high * 0x1_0000 + low, b)
  {
    hide DISALLOWED, FirstBlock, Inside;
    assert ToUint32(high * 0x1_0000 + low) == high * 0x1_0000 + low;
    DisallowedIffInBlock(high * 0x1_0000 + low);
  }

  /** An IPv6 address is refused exactly when it is reserved, a mapped IPv4 address exactly when the
      IPv4 address is. */
  lemma DisallowedIffReserved(g: seq<nat>)
    requires IsGroups(g)
    ensures ClassifyGroups(g).Some? <==> Reserved(g)
  {
    hide BitAnd, DISALLOWED, FirstBlock, Inside, ToUint32;
    GroupMasks(g[0]);
    SmallAddresses(g);
    MappedReserved(g[6], g[7]);
  }

  lemma HexFfff()
    ensures GroupText(0xffff, 0) == "ffff"
  {
    assert Digits(0xff, 16) == "ff";
  }

  lemma MappedZeroText()
    ensures AllHexText(["ffff", "0", "0"]) && ParseGroups(["ffff", "0", "0"]) == Some([0xffff, 0, 0])
  {
    hide *;
    ZeroTexts();
    HexFfff();
    GroupReadBack(0xffff, 0);
    assert ["ffff", "0", "0"] == ["ffff"] + ["0", "0"] && [0xffff] + [0, 0] == [0xffff, 0, 0];
    OneMoreHexText("ffff", ["0", "0"]);
    OneMoreParsed("ffff", 0xffff, ["0", "0"], [0, 0]);
  }

  lemma MappedZeroJoin()
    ensures JoinOrEmpty(["ffff", "0", "0"]) == "ffff:0:0"
  {
    assert ["ffff", "0", "0"][1..] == ["0", "0"] && ["0", "0"][1..] == ["0"];
    assert Join(["0", "0"], ':') == "0:0";
  }

  lemma EmptyJoin()
    ensures JoinOrEmpty([]) == ""
  {
  }

  lemma FilledMapped()
    ensures Filled(ParseGroups([]), Some([0xffff, 0, 0])) == Some([0, 0, 0, 0, 0, 0xffff, 0, 0])
  {
    assert ParseGroups([]) == Some([]);
    AllZero([0, 0, 0, 0, 0]);
    assert [] + [0, 0, 0, 0, 0] + [0xffff, 0, 0] == [0, 0, 0, 0, 0, 0xffff, 0, 0];
  }

  lemma ExpandMappedZero(trailing: seq<nat>)
    ensures Assemble("::ffff:0:0", trailing) == Some([0, 0, 0, 0, 0, 0xffff, 0, 0])
  {
    hide *;
    var texts := ["ffff", "0", "0"];
    MappedZeroText();
    MappedZeroJoin();
    assert AllHexText([]) by {
      NoneToCheck();
    }
    SplitGroups([]);
    SplitGroups(texts);
    JoinOrEmptyPlain([]);
    JoinOrEmptyPlain(texts);
    AssembleCompressed(JoinOrEmpty([]), JoinOrEmpty(texts), trailing);
    EmptyJoin();
    assert "" + "::" + "ffff:0:0" == "::ffff:0:0";
    FilledMapped();
  }

  lemma NoneToCheck()
    ensures AllHexText([])
  {
  }

  lemma ThisNetwork()
    ensures FirstBlock(0, DISALLOWED) == Some("this-network (0.0.0.0/8)")
  {
    assert InRange(0, 0, 8);
    hide InRange;
  }

  lemma MappedZeroIsRefused()
    ensures ClassifyGroups([0, 0, 0, 0, 0, 0xffff, 0, 0]) == Some("IPv4-mapped " + "this-network (0.0.0.0/8)")
  {
    hide DISALLOWED, FirstBlock, ClassifyGroups;
    assert MappedGroups(0) == [0, 0, 0, 0, 0, 0xffff, 0, 0];
    ThisNetwork();
    MappedVerdict(0);
  }

  /** However the embedded quad reads, the dotted form of a mapped address is refused. */
  lemma DottedMappedIsRefused(quad: string)
    requires '%' !in quad && ':' !in quad && '.' in quad
    ensures ClassifyIpv6("::ffff:" + quad)
         == Some(if ParseIpv4(quad).Some? then "IPv4-mapped " + "this-network (0.0.0.0/8)"
                 else "unparseable IPv6 address")
  {
    hide ParseIpv4, Assemble, ClassifyGroups, ExpandIpv6;
    var s := "::ffff:" + quad;
    assert s == "::ffff" + ":" + quad;
    if ParseIpv4(quad).Some? {
      DottedTail("::ffff", quad);
      assert "::ffff" + ":0:0" == "::ffff:0:0";
      ExpandMappedZero(QuadGroups(ParseIpv4(quad).value));
      MappedZeroIsRefused();
      assert ExpandIpv6(s) == Some([0, 0, 0, 0, 0, 0xffff, 0, 0]);
      assert ClassifyIpv6(s) == ClassifyGroups([0, 0, 0, 0, 0, 0xffff, 0, 0]);
    } else {
      DottedTailUnread("::ffff", quad);
      assert ExpandIpv6(s) == None;
    }
  }

  lemma ParsedFits(quad: string)
    ensures ParseIpv4(quad).Some? ==> ParseIpv4(quad).value < TWO32
  {
    hide ParseParts, Combine;
  }

  /** The dotted form is let through or refused like its IPv4 address if and only if that address is in a listed
      block. */
  lemma DottedVerdictIff(quad: string)
    requires '%' !in quad && ':' !in quad && '.' in quad && ParseIpv4(quad).Some?
    ensures (ClassifyIpv6("::ffff:" + quad).Some? <==> FirstBlock(ParseIpv4(quad).value, DISALLOWED).Some?)
       <==> exists b :: b in DISALLOWED && Inside(ParseIpv4(quad).value, b)
  {
    hide ParseIpv4, ClassifyIpv6, FirstBlock, DISALLOWED, Inside;
    ParsedFits(quad);
    DottedMappedIsRefused(quad);
    DisallowedIffInBlock(ParseIpv4(quad).value);
  }

  function MappedGroups(v4: nat): seq<nat> {
    [0, 0, 0, 0, 0, 0xffff] + QuadGroups(v4)
  }

  lemma MappedShape(v4: nat)
    ensures |MappedGroups(v4)| == 8 && forall i :: 0 <= i < 5 ==> MappedGroups(v4)[i] == 0
  {
  }

  lemma SameLength(values: seq<nat>, zeros: seq<nat>)
    requires Printable(values, zeros)
    ensures |values| == |zeros|
  {
  }

  lemma ClassifyMapped(g: seq<nat>)
    requires |g| == 8 && g[0] == 0 && g[5] == 0xffff && g[..6] == [0, 0, 0, 0, 0, 0xffff]
    ensures ClassifyGroups(g)
         == (match FirstBlock(ToUint32(g[6] * 0x1_0000 + g[7]), DISALLOWED)
             case None => None
             case Some(reason) => Some("IPv4-mapped " + reason))
  {
    assert BitAnd(g[0], 0xffc0) == 0 && BitAnd(g[0], 0xfe00) == 0 && BitAnd(g[0], 0xff00) == 0;
    hide FirstBlock, DISALLOWED, BitAnd, ToUint32;
    assert g != [0, 0, 0, 0, 0, 0, 0, 1] && g != [0, 0, 0, 0, 0, 0, 0, 0];
  }

  lemma MappedVerdict(v4: nat)
    requires v4 < TWO32
    ensures ClassifyGroups(MappedGroups(v4))
         == (match FirstBlock(v4, DISALLOWED)
             case None => None
             case Some(reason) => Some("IPv4-mapped " + reason))
  {
    var g := MappedGroups(v4);
    assert |g| == 8 && g[5] == 0xffff && g[0] == 0 && g[..6] == [0, 0, 0, 0, 0, 0xffff];
    assert ToUint32(g[6] * 0x1_0000 + g[7]) == v4;
    hide FirstBlock, DISALLOWED, ToUint32, ClassifyGroups, MappedGroups;
    ClassifyMapped(g);
  }

  lemma ReadVerdict(s: string, g: seq<nat>)
    requires |g| == 8 && ExpandIpv6(s) == Some(g)
    ensures ClassifyIpv6(s) == ClassifyGroups(g)
  {
    hide ExpandIpv6, ClassifyGroups;
  }

  /** The hexadecimal form of a mapped address, `::ffff:` and two groups, gets the verdict of the IPv4
      address. */
  lemma HexMappedGetsIpv4Verdict(v4: nat, zeros: seq<nat>)
    requires v4 < TWO32 && Printable(MappedGroups(v4), zeros)
    ensures |zeros| == 8
    ensures ClassifyIpv6(PrintCompressed(MappedGroups(v4), zeros, 0, 5))
         == (match FirstBlock(v4, DISALLOWED)
             case None => None
             case Some(reason) => Some("IPv4-mapped " + reason))
  {
    hide *;
    MappedShape(v4);
    assert |zeros| == 8 by {
      SameLength(MappedGroups(v4), zeros);
    }
    CompressedReadBack(MappedGroups(v4), zeros, 0, 5);
    MappedVerdict(v4);
    ReadVerdict(PrintCompressed(MappedGroups(v4), zeros, 0, 5), MappedGroups(v4));
  }
}
