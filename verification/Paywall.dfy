/** What must be paid for, what counts as a failed call, and the buffered response. */
module Paywall {
  import opened Common
  import opened Text

  /** A JavaScript value as it comes out of a body parser; numbers keep their text. */
  datatype Json =
    | Undefined
    | Null
    | Bool(b: bool)
    | Number(text: string)
    | Str(s: string)
    | Array(items: seq<Json>)
    | Object(fields: map<string, Json>)

  /** Property access on a value that is not null or undefined. */
  function Field(v: Json, name: string): Json {
    if v.Object? && name in v.fields then v.fields[name] else Undefined
  }

  /** `typeof v === "object"` for a value other than null. */
  predicate IsObject(v: Json) {
    v.Object? || v.Array?
  }

  /** `String(v)`. */
  function AsText(v: Json): string {
    match v
    case Undefined => "undefined"
    case Null => "null"
    case Bool(b) => if b then "true" else "false"
    case Number(text) => text
    case Str(s) => s
    case Array(items) => JoinText(items)
    case Object(_) => "[object Object]"
  }

  function JoinText(items: seq<Json>): string {
    if items == [] then ""
    else
      var head := if items[0].Null? || items[0].Undefined? then "" else AsText(items[0]);
      if |items| == 1 then head else head + "," + JoinText(items[1..])
  }

  // ----- Free or paid -----

  const FREE_METHODS: set<string> := {
    "initialize", "notifications/initialized", "notifications/cancelled", "tools/list",
    "resources/list", "resources/templates/list", "prompts/list", "ping"
  }

  predicate IsFreeMessage(m: Json, paidTools: set<string>) {
    if !m.Object? then false
    else if !Field(m, "method").Str? then false
    else if Field(m, "method").s in FREE_METHODS then true
    else if Field(m, "method").s != "tools/call" then false
    else
      var params := Field(m, "params");
      IsObject(params) && AsText(Field(params, "name")) !in paidTools
  }

  predicate NeedsPayment(body: Json, paidTools: set<string>) {
    if body.Array? then !(forall m :: m in body.items ==> IsFreeMessage(m, paidTools))
    else !IsFreeMessage(body, paidTools)
  }

  /** A call of a tool that costs money. */
  predicate IsPriced(call: Json, paidTools: set<string>) {
    Field(call, "method") == Str("tools/call") && AsText(Field(Field(call, "params"), "name")) in paidTools
  }

  /** A message that asks for nothing that costs money: a free method, or a call of a tool without a price. */
  ghost predicate AsksNothingPriced(m: Json, paidTools: set<string>) {
    || (exists free :: free in FREE_METHODS && Field(m, "method") == Str(free))
    || (Field(m, "method") == Str("tools/call") && IsObject(Field(m, "params")) && !IsPriced(m, paidTools))
  }

  /** Payment is needed unless the body, or every message of the batch, is such a message. */
  lemma PaymentNeededIff(body: Json, paidTools: set<string>)
    ensures NeedsPayment(body, paidTools)
       <==> !(if body.Array? then forall m :: m in body.items ==> AsksNothingPriced(m, paidTools)
              else AsksNothingPriced(body, paidTools))
  {
    hide AsText;
    forall m ensures IsFreeMessage(m, paidTools) <==> AsksNothingPriced(m, paidTools) {
    }
    hide IsFreeMessage, AsksNothingPriced;
  }

  lemma {:induction false} PaidCallIsCharged(before: seq<Json>, call: Json, after: seq<Json>, paidTools: set<string>)
    requires IsPriced(call, paidTools)
    ensures NeedsPayment(call, paidTools) && NeedsPayment(Array(before + [call] + after), paidTools)
  {
    assert (before + [call] + after)[|before|] == call;
  }

  // ----- Failed or delivered -----

  /** A JSON-RPC error, or a tool result marked `isError: true`. */
  predicate Failing(v: Json) {
    if !v.Object? then false
    else if !Field(v, "error").Undefined? && !Field(v, "error").Null? then true
    else Field(Field(v, "result"), "isError") == Bool(true)
  }

  predicate HasFailure(v: Json) {
    if v.Array? then exists m :: m in v.items && HasFailure(m)
    else Failing(v)
  }

  /** The value found by following `path` through nested arrays is a failing record. */
  predicate FailingAt(v: Json, path: seq<nat>) {
    if path == [] then !v.Array? && Failing(v)
    else v.Array? && path[0] < |v.items| && FailingAt(v.items[path[0]], path[1..])
  }

  lemma {:induction false} FailureHasPath(v: Json) returns (path: seq<nat>)
    requires HasFailure(v)
    ensures FailingAt(v, path)
  {
    if v.Array? {
      var i :| 0 <= i < |v.items| && HasFailure(v.items[i]);
      var rest := FailureHasPath(v.items[i]);
      path := [i] + rest;
      assert path[1..] == rest;
    } else {
      path := [];
    }
  }

  lemma {:induction false} PathMeansFailure(v: Json, path: seq<nat>)
    requires FailingAt(v, path)
    ensures HasFailure(v)
    decreases |path|
  {
    if path != [] {
      PathMeansFailure(v.items[path[0]], path[1..]);
    }
  }

  ghost predicate FailsSomewhere(v: Json) {
    exists path: seq<nat> :: FailingAt(v, path)
  }

  /** A failure is found at whatever depth of array nesting it stands. */
  lemma FailureAtAnyDepth(v: Json)
    ensures HasFailure(v) <==> FailsSomewhere(v)
  {
    if HasFailure(v) {
      var path := FailureHasPath(v);
      assert FailingAt(v, path);
    }
    if FailsSomewhere(v) {
      var path: seq<nat> :| FailingAt(v, path);
      PathMeansFailure(v, path);
    }
  }

  /** The match of `/^data:\s*(.*)$/` on one line: the captured group. */
  function DataOf(line: string): Option<string> {
    if !StartsWith(line, "data:") then None
    else
      var rest := TrimStart(line[5..]);
      if exists c :: c in rest && IsLineEnd(c) then None else Some(rest)
  }

  /** The payloads of an event stream: the non-empty data lines, in order. */
  function DataLines(lines: seq<string>): seq<string> {
    if lines == [] then []
    else
      var d := DataOf(lines[0]);
      (if d.Some? && d.value != "" then [d.value] else []) + DataLines(lines[1..])
  }

  function Payloads(text: string, contentType: string): seq<string> {
    if Contains(Lower(contentType), "event-stream") then DataLines(SplitLines(text)) else [text]
  }

  /** `/"isError"\s*:\s*true/` matches at the start of `s`. */
  predicate MarkerHere(s: string) {
    StartsWith(s, "\"isError\"") &&
    var afterKey := TrimStart(s[9..]);
    StartsWith(afterKey, ":") && StartsWith(TrimStart(afterKey[1..]), "true")
  }

  predicate HasMarker(s: string) {
    MarkerHere(s) || (s != [] && HasMarker(s[1..]))
  }

  type Parser = string -> Option<Json>

  /** One payload reports a failure; text that is not JSON is searched for the literal marker. */
  predicate PayloadFails(payload: string, parse: Parser) {
    match parse(payload)
    case Some(v) => HasFailure(v)
    case None => HasMarker(payload)
  }

  predicate ResponseFailed(body: string, contentType: string, parse: Parser) {
    var text := Trim(body);
    text != "" && exists p :: p in Payloads(text, contentType) && PayloadFails(p, parse)
  }

  /** A data line of an event stream, its payload set off by white space. */
  predicate IsEvent(line: string, gap: string, payload: string) {
    && line == "data:" + gap + payload && '\n' !in line
    && (forall c :: c in gap ==> IsSpace(c))
    && payload != "" && !IsSpace(payload[0]) && payload[|payload| - 1] != '\r'
  }

  /** `.` does not match every character: not a carriage return, nor the line and paragraph separators. */
  predicate HasLineEnd(s: string) {
    exists c :: c in s && IsLineEnd(c)
  }

  /** The payload is captured unless it has a character that `.` does not match. */
  lemma EventReads(line: string, gap: string, payload: string)
    requires IsEvent(line, gap, payload)
    ensures DataOf(line) == if HasLineEnd(payload) then None else Some(payload)
  {
    TrimStartSpaces(gap, payload);
    assert line[..5] == "data:" && line[5..] == gap + payload;
    hide TrimStart, IsSpace, IsLineEnd;
  }

  lemma {:induction false} DataLineFound(lines: seq<string>, i: nat, payload: string)
    requires i < |lines| && DataOf(lines[i]) == Some(payload) && payload != ""
    ensures payload in DataLines(lines)
  {
    hide DataOf;
    if i > 0 {
      DataLineFound(lines[1..], i - 1, payload);
    }
  }

  /** What stands between these is a line of its own, ended by "\\n", "\\r\\n" or the end of the text. */
  predicate IsLineBetween(before: string, after: string) {
    && (before == "" || before[|before| - 1] == '\n')
    && (after == "" || after == "\r" || StartsWith(after, "\n") || StartsWith(after, "\r\n"))
  }

  /** Trimming the text shortens only what is before and after the line. */
  lemma LineIsKept(before: string, line: string, after: string) returns (first: string, last: string)
    requires line != "" && !IsSpace(line[0]) && IsLineBetween(before, after)
    requires !IsSpace(line[|line| - 1]) || exists c :: c in after && !IsSpace(c)
    ensures Trim(before + line + after) == first + (line + last)
    ensures IsLineBetween(first, last) && last != "\r"
  {
    first, last := TrimStart(before), TrimEnd(after);
    TrimStartCuts(before);
    TrimEndCuts(after);
    StartTrimmed(before, line, after);
    EndTrimmed(first, line, after);
    assert first + line + last == first + (line + last);
    hide TrimStart, TrimEnd, Trim;
    assert first != "" ==> first[|first| - 1] == before[|before| - 1];
    SpacesOnly(after);
    hide IsSpace;
    if last != "" {
      LongEnough(after, last);
    }
  }

  lemma StartTrimmed(before: string, line: string, after: string)
    requires line != "" && !IsSpace(line[0])
    ensures TrimStart(before + line + after) == TrimStart(before) + line + after
  {
    TrimStartConcat(before, line + after);
    assert before + line + after == before + (line + after);
    assert TrimStart(line + after) == line + after;
    assert TrimStart(before) + (line + after) == TrimStart(before) + line + after;
    assert "" + line + after == line + after;
  }

  lemma EndTrimmed(first: string, line: string, after: string)
    requires line != "" && (!IsSpace(line[|line| - 1]) || exists c :: c in after && !IsSpace(c))
    ensures TrimEnd(first + line + after) == first + line + TrimEnd(after)
  {
    TrimEndConcat(first + line, after);
    SpacesOnly(after);
    if TrimEnd(after) == "" {
      assert (first + line)[|first + line| - 1] == line[|line| - 1];
      assert TrimEnd(first + line) == first + line;
      assert first + line + "" == first + line;
    }
  }

  lemma {:induction false} SpacesOnly(s: string)
    ensures TrimEnd(s) == "" ==> forall c :: c in s ==> IsSpace(c)
  {
    hide IsSpace;
    if s != "" && IsSpace(s[|s| - 1]) {
      SpacesOnly(s[..|s| - 1]);
      assert s == s[..|s| - 1] + [s[|s| - 1]];
    }
  }

  /** What is left of the text after the line still begins with the line break. */
  lemma LongEnough(after: string, last: string)
    requires |last| <= |after| && last == after[..|last|] && last != "" && !IsSpace(last[|last| - 1])
    requires after == "\r" || StartsWith(after, "\n") || StartsWith(after, "\r\n")
    ensures last != "\r" && (StartsWith(last, "\n") || StartsWith(last, "\r\n"))
  {
    assert IsSpace('\n') && IsSpace('\r');
    hide IsSpace;
    assert last[0] == after[0];
    assert |last| > 1;
    if StartsWith(after, "\n") {
      assert after[..1] == "\n" && last[..1] == after[..1];
    } else {
      assert after[..2] == "\r\n" && last[..2] == after[..2];
    }
  }

  lemma PieceAt(before: string, rest: string) returns (i: nat)
    requires before == "" || before[|before| - 1] == '\n'
    ensures i < |Split(before + rest, '\n')| && Split(before + rest, '\n')[i] == Split(rest, '\n')[0]
    ensures |Split(before + rest, '\n')| - i == |Split(rest, '\n')|
  {
    hide Split;
    if before == "" {
      i := 0;
      assert before + rest == rest;
    } else {
      var w := before[..|before| - 1];
      i := |Split(w, '\n')|;
      SplitConcat(w, '\n', rest);
      assert before + rest == w + ['\n'] + rest;
    }
  }

  /** A piece that is not the last loses a carriage return at its end. */
  function LineOfPiece(piece: string, isLast: bool): string {
    if !isLast && EndsWith(piece, "\r") then piece[..|piece| - 1] else piece
  }

  lemma StrippedPieces(line: string)
    requires !EndsWith(line, "\r")
    ensures LineOfPiece(line, true) == line && LineOfPiece(line, false) == line
    ensures LineOfPiece(line + "\r", false) == line
  {
  }

  lemma LineAt(s: string, i: nat)
    requires i < |Split(s, '\n')|
    ensures |SplitLines(s)| == |Split(s, '\n')|
    ensures SplitLines(s)[i] == LineOfPiece(Split(s, '\n')[i], i == |Split(s, '\n')| - 1)
  {
    hide Split, EndsWith;
  }

  /** A line of the text is among those it is split into. */
  lemma LineIsFound(before: string, line: string, after: string) returns (i: nat)
    requires before == "" || before[|before| - 1] == '\n'
    requires after == "" || StartsWith(after, "\n") || StartsWith(after, "\r\n")
    requires '\n' !in line && !EndsWith(line, "\r")
    ensures i < |SplitLines(before + (line + after))| && SplitLines(before + (line + after))[i] == line
  {
    hide *;
    FirstPiece(line, after);
    StrippedPieces(line);
    i := PieceAt(before, line + after);
    LineAt(before + (line + after), i);
  }

  lemma FirstPiece(line: string, after: string)
    requires after == "" || StartsWith(after, "\n") || StartsWith(after, "\r\n")
    requires '\n' !in line
    ensures var pieces := Split(line + after, '\n');
            pieces[0] == line || (|pieces| > 1 && pieces[0] == line + "\r")
  {
    hide Split;
    if after == "" {
      assert line + after == line;
      SplitWhole(line, '\n');
    } else if StartsWith(after, "\n") {
      assert line + after == line + ['\n'] + after[1..];
      SplitFirst(line, '\n', after[1..]);
    } else {
      assert after == "\r\n" + after[2..];
      assert line + after == line + "\r" + ['\n'] + after[2..];
      SplitFirst(line + "\r", '\n', after[2..]);
    }
  }

  /** No line but the `i`-th has a payload that reports a failure. */
  ghost predicate OthersPass(lines: seq<string>, i: nat, parse: Parser) {
    forall j :: 0 <= j < |lines| && j != i && DataOf(lines[j]).Some? && DataOf(lines[j]).value != "" ==>
      !PayloadFails(DataOf(lines[j]).value, parse)
  }

  lemma {:induction false} DataLineComesFrom(lines: seq<string>, payload: string) returns (j: nat)
    requires payload in DataLines(lines)
    ensures j < |lines| && DataOf(lines[j]) == Some(payload) && payload != ""
  {
    hide DataOf;
    var d := DataOf(lines[0]);
    if d == Some(payload) && payload != "" {
      j := 0;
    } else {
      j := DataLineComesFrom(lines[1..], payload);
      j := j + 1;
    }
  }

  lemma NothingFailsInNothing(contentType: string, parse: Parser)
    requires Contains(Lower(contentType), "event-stream")
    ensures SplitLines("") == [""] && DataOf("") == None
  {
    SplitWhole("", '\n');
    LineAt("", 0);
    hide Split;
    assert |SplitLines("")| == 1;
  }

  /** One line of the text as it is split: an event that reports a failure makes the call a failed one if its payload
      is captured, and only then if no other line fails. */
  lemma FailsByLine(body: string, contentType: string, parse: Parser, i: nat, line: string, gap: string,
                    payload: string)
    requires Contains(Lower(contentType), "event-stream") && IsEvent(line, gap, payload) && PayloadFails(payload, parse)
    requires i < |SplitLines(Trim(body))| && SplitLines(Trim(body))[i] == line
    ensures !HasLineEnd(payload) ==> ResponseFailed(body, contentType, parse)
    ensures OthersPass(SplitLines(Trim(body)), i, parse) ==>
              (ResponseFailed(body, contentType, parse) <==> !HasLineEnd(payload))
  {
    EventReads(line, gap, payload);
    EventShape(line, gap, payload);
    var lines := SplitLines(Trim(body));
    assert Trim(body) != "" by {
      NothingFailsInNothing(contentType, parse);
    }
    hide Trim, Lower, Contains, DataOf, PayloadFails, SplitLines, IsEvent, HasLineEnd;
    assert Payloads(Trim(body), contentType) == DataLines(lines);
    if !HasLineEnd(payload) {
      DataLineFound(lines, i, payload);
      assert payload in Payloads(Trim(body), contentType);
    } else if OthersPass(lines, i, parse) {
      forall p | p in DataLines(lines) ensures !PayloadFails(p, parse) {
        var j := DataLineComesFrom(lines, p);
      }
    }
  }

  /** A failing event makes the call a failed one wherever its line stands in the event stream, unless its payload has
      a character that `.` does not match: then the event is skipped, and the call fails only through other lines. */
  lemma FailingEventIsFoundIff(before: string, line: string, after: string, gap: string, payload: string,
                               contentType: string, parse: Parser)
    returns (i: nat)
    requires IsEvent(line, gap, payload) && PayloadFails(payload, parse) && IsLineBetween(before, after)
    requires !IsSpace(payload[|payload| - 1]) || exists c :: c in after && !IsSpace(c)
    requires Contains(Lower(contentType), "event-stream")
    ensures i < |SplitLines(Trim(before + line + after))| && SplitLines(Trim(before + line + after))[i] == line
    ensures !HasLineEnd(payload) ==> ResponseFailed(before + line + after, contentType, parse)
    ensures OthersPass(SplitLines(Trim(before + line + after)), i, parse) ==>
              (ResponseFailed(before + line + after, contentType, parse) <==> !HasLineEnd(payload))
  {
    hide *;
    EventShape(line, gap, payload);
    var first, last := LineIsKept(before, line, after);
    LineBetween(first, last);
    i := LineIsFound(first, line, last);
    FailsByLine(before + line + after, contentType, parse, i, line, gap, payload);
  }

  lemma SeparatedEvent(payload: string)
    requires '\U{2028}' in payload && '\n' !in payload
    requires !IsSpace(payload[0]) && !IsSpace(payload[|payload| - 1])
    ensures IsEvent("data: " + payload, " ", payload) && HasLineEnd(payload)
  {
    assert IsSpace(' ') && IsSpace('\r') && IsLineEnd('\U{2028}');
    hide IsSpace, IsLineEnd;
    assert "data: " + payload == "data:" + " " + payload;
  }

  /** A witness: a failure whose text has a line separator, which JSON leaves as it is, is not noticed in a stream. */
  lemma SeparatorHidesFailure(payload: string, parse: Parser)
    requires PayloadFails(payload, parse) && '\U{2028}' in payload && '\n' !in payload
    requires !IsSpace(payload[0]) && !IsSpace(payload[|payload| - 1])
    ensures !ResponseFailed("data: " + payload + "\n\n", "text/event-stream", parse)
  {
    hide *;
    var line := "data: " + payload;
    SeparatedEvent(payload);
    StreamType();
    EventShape(line, " ", payload);
    BreaksAreSpaces();
    OnlyLine(line, "\n\n");
    NoOthers(line, parse);
    FailsByLine(line + "\n\n", "text/event-stream", parse, 0, line, " ", payload);
  }

  lemma BreaksAreSpaces()
    ensures forall c :: c in "\n\n" ==> IsSpace(c)
  {
  }

  lemma StreamType()
    ensures Contains(Lower("text/event-stream"), "event-stream")
  {
    hide Contains, Lower;
    var s := "text/event-stream";
    LowerIsItself(s);
    assert s[5..] == "event-stream";
    assert s[5..][..12] == "event-stream";
    ContainsFrom(s, 5, "event-stream");
  }

  lemma {:induction false} LowerIsItself(s: string)
    requires forall c :: c in s ==> !('A' <= c <= 'Z')
    ensures Lower(s) == s
  {
    assert forall i :: 0 <= i < |s| ==> s[i] in s;
  }

  lemma {:induction false} ContainsFrom(s: string, i: nat, part: string)
    requires i <= |s| && StartsWith(s[i..], part)
    ensures Contains(s, part)
    decreases i
  {
    if i > 0 {
      assert s[1..][i - 1..] == s[i..];
      ContainsFrom(s[1..], i - 1, part);
    } else {
      assert s[0..] == s;
    }
  }

  /** Trimmed, the body is the line alone. */
  lemma OnlyLine(line: string, after: string)
    requires line != "" && !IsSpace(line[0]) && !IsSpace(line[|line| - 1]) && '\n' !in line
    requires forall c :: c in after ==> IsSpace(c)
    ensures SplitLines(Trim(line + after)) == [line]
  {
    TrimStartSpaces("", line + after);
    assert "" + (line + after) == line + after;
    TrimEndSpaces(line, after);
    SplitWhole(line, '\n');
    LineAt(line, 0);
    hide Split, TrimStart, TrimEnd;
  }

  lemma NoOthers(line: string, parse: Parser)
    ensures OthersPass([line], 0, parse)
  {
  }

  lemma LineBetween(before: string, after: string)
    requires IsLineBetween(before, after) && after != "\r"
    ensures before == "" || before[|before| - 1] == '\n'
    ensures after == "" || StartsWith(after, "\n") || StartsWith(after, "\r\n")
  {
  }

  lemma EventShape(line: string, gap: string, payload: string)
    requires IsEvent(line, gap, payload)
    ensures '\n' !in line && line != "" && !IsSpace(line[0]) && !EndsWith(line, "\r")
    ensures payload != "" && line[|line| - 1] == payload[|payload| - 1]
  {
    assert line[|line| - 1..] == [line[|line| - 1]];
  }

  method CollectData(lines: seq<string>) returns (payloads: seq<string>)
    ensures payloads == DataLines(lines)
  {
    hide DataOf;
    payloads := [];
    var i := 0;
    while i < |lines|
      invariant 0 <= i <= |lines|
      invariant payloads + DataLines(lines[i..]) == DataLines(lines)
    {
      assert lines[i..][1..] == lines[i + 1..];
      var d := DataOf(lines[i]);
      if d.Some? && d.value != "" {
        payloads := payloads + [d.value];
      }
      i := i + 1;
    }
  }

  method McpResponseFailed(body: string, contentType: string, parse: Parser) returns (failed: bool)
    ensures failed <==> ResponseFailed(body, contentType, parse)
  {
    hide HasMarker, DataLines, SplitLines, Lower, Contains, HasFailure;
    var text := Trim(body);
    if |body| == 0 || |text| == 0 {
      return false;
    }
    var payloads := [text];
    if Contains(Lower(contentType), "event-stream") {
      payloads := CollectData(SplitLines(text));
    }
    assert payloads == Payloads(text, contentType);
    var k := 0;
    while k < |payloads|
      invariant 0 <= k <= |payloads|
      invariant forall p :: p in payloads[..k] ==> !PayloadFails(p, parse)
    {
      var parsed := parse(payloads[k]);
      assert payloads[k] in payloads;
      if parsed.None? {
        if HasMarker(payloads[k]) {
          return true;
        }
      } else if HasFailure(parsed.value) {
        return true;
      }
      k := k + 1;
    }
    assert payloads[..k] == payloads;
    return false;
  }

  // ----- The buffered response -----

  type Headers = map<string, string>

  datatype Response = Response(status: int, headers: Headers, body: string)

  datatype Buffer = Buffer(status: int, headers: Headers, chunks: seq<string>, flushed: bool)

  const EMPTY_BUFFER := Buffer(200, map[], [], false)

  /** Header entries in the order they are set; names are lower-cased. */
  function Merge(headers: Headers, extra: seq<(string, string)>): Headers
    decreases |extra|
  {
    if extra == [] then headers else Merge(headers[Lower(extra[0].0) := extra[0].1], extra[1..])
  }

  /** What the transport can do to the response it believes it is writing. */
  datatype Write =
    | WriteHead(code: int, headers: seq<(string, string)>)
    | WriteChunk(chunk: string)
    | End(last: Option<string>)
    | FlushHeaders

  function Capture(b: Buffer, w: Write): Buffer {
    match w
    case WriteHead(code, headers) => b.(status := code, headers := Merge(b.headers, headers))
    case WriteChunk(chunk) => b.(chunks := b.chunks + [chunk])
    case End(last) => if last.Some? then b.(chunks := b.chunks + [last.value]) else b
    case FlushHeaders => b
  }

  function Replaced(b: Buffer, status: int, body: string, extra: seq<(string, string)>): Buffer {
    b.(status := status, chunks := [body], headers := Merge(b.headers, extra))
  }

  function Sent(b: Buffer): Response {
    Response(b.status, b.headers, Concat(b.chunks))
  }

  // ----- What a response written step by step amounts to -----

  /** The code of the last `writeHead`, or 200. */
  function LastCode(ws: seq<Write>): int {
    if ws == [] then 200
    else
      var last := ws[|ws| - 1];
      if last.WriteHead? then last.code else LastCode(ws[..|ws| - 1])
  }

  /** All header entries in the order written. */
  function EntriesOf(ws: seq<Write>): seq<(string, string)> {
    if ws == [] then []
    else
      var last := ws[|ws| - 1];
      EntriesOf(ws[..|ws| - 1]) + if last.WriteHead? then last.headers else []
  }

  /** The value last set for a name, under any spelling of it. */
  function LastValue(entries: seq<(string, string)>, name: string): Option<string> {
    if entries == [] then None
    else
      var last := entries[|entries| - 1];
      if Lower(last.0) == name then Some(last.1) else LastValue(entries[..|entries| - 1], name)
  }

  /** The body text that a write carries. */
  function TextOf(w: Write): string {
    match w
    case WriteHead(_, _) => ""
    case WriteChunk(chunk) => chunk
    case End(last) => if last.Some? then last.value else ""
    case FlushHeaders => ""
  }

  function BodyOf(ws: seq<Write>): string {
    if ws == [] then "" else BodyOf(ws[..|ws| - 1]) + TextOf(ws[|ws| - 1])
  }

  /** Each name has the value last set for it, and no others are there. */
  ghost predicate HeadersAre(headers: Headers, entries: seq<(string, string)>) {
    forall name ::
      && (name in headers <==> LastValue(entries, name).Some?)
      && (name in headers ==> LastValue(entries, name) == Some(headers[name]))
  }

  /** The buffer holds the status, the headers and the body that the writes add up to. */
  ghost predicate Holds(b: Buffer, ws: seq<Write>) {
    b.status == LastCode(ws) && HeadersAre(b.headers, EntriesOf(ws)) && Concat(b.chunks) == BodyOf(ws)
  }

  lemma OneEntry(headers: Headers, entries: seq<(string, string)>, e: (string, string))
    requires HeadersAre(headers, entries)
    ensures HeadersAre(headers[Lower(e.0) := e.1], entries + [e])
  {
    hide Lower;
    assert (entries + [e])[..|entries|] == entries;
  }

  lemma {:induction false} MergeAdds(headers: Headers, entries: seq<(string, string)>, extra: seq<(string, string)>)
    requires HeadersAre(headers, entries)
    ensures HeadersAre(Merge(headers, extra), entries + extra)
    decreases |extra|
  {
    hide HeadersAre, Lower;
    if extra == [] {
      assert entries + extra == entries;
    } else {
      OneEntry(headers, entries, extra[0]);
      MergeAdds(headers[Lower(extra[0].0) := extra[0].1], entries + [extra[0]], extra[1..]);
      assert entries + [extra[0]] + extra[1..] == entries + extra;
    }
  }

  lemma NothingWritten()
    ensures Holds(EMPTY_BUFFER, [])
  {
  }

  lemma LastWrite(ws: seq<Write>, w: Write)
    ensures LastCode(ws + [w]) == if w.WriteHead? then w.code else LastCode(ws)
    ensures EntriesOf(ws + [w]) == EntriesOf(ws) + if w.WriteHead? then w.headers else []
    ensures BodyOf(ws + [w]) == BodyOf(ws) + TextOf(w)
  {
    assert (ws + [w])[..|ws|] == ws;
  }

  /** Intercepting a write adds it to what the buffer holds. */
  lemma CaptureHolds(b: Buffer, w: Write, ws: seq<Write>)
    requires Holds(b, ws)
    ensures Holds(Capture(b, w), ws + [w])
  {
    LastWrite(ws, w);
    hide LastCode, EntriesOf, BodyOf, HeadersAre, Merge, Concat;
    match w {
      case WriteHead(code, headers) =>
        MergeAdds(b.headers, EntriesOf(ws), headers);
        assert BodyOf(ws) + "" == BodyOf(ws);
      case WriteChunk(chunk) =>
        ConcatLast(b.chunks, chunk);
      case End(last) =>
        if last.Some? {
          ConcatLast(b.chunks, last.value);
        }
      case FlushHeaders =>
    }
    assert EntriesOf(ws) + [] == EntriesOf(ws) && BodyOf(ws) + "" == BodyOf(ws);
  }

  class Socket {
    /** Complete responses written to the wire. */
    var sent: seq<Response>

    constructor ()
      ensures sent == []
    {
      sent := [];
    }
  }

  class CapturedResponse {
    const socket: Socket
    var status: int
    var headers: Headers
    var chunks: seq<string>
    var flushed: bool

    constructor (socket: Socket)
      ensures this.socket == socket && View() == EMPTY_BUFFER
    {
      this.socket := socket;
      status, headers, chunks, flushed := 200, map[], [], false;
    }

    ghost function View(): Buffer
      reads this
    {
      Buffer(status, headers, chunks, flushed)
    }

    method MergeHeaders(extra: seq<(string, string)>)
      modifies this
      ensures View() == old(View()).(headers := Merge(old(headers), extra))
    {
      var i := 0;
      while i < |extra|
        invariant 0 <= i <= |extra|
        invariant status == old(status) && chunks == old(chunks) && flushed == old(flushed)
        invariant Merge(headers, extra[i..]) == Merge(old(headers), extra)
      {
        assert extra[i..][1..] == extra[i + 1..];
        headers := headers[Lower(extra[i].0) := extra[i].1];
        i := i + 1;
      }
    }

    /** An intercepted call of `writeHead`, `write`, `end` or `flushHeaders`. */
    method Intercept(w: Write)
      modifies this
      ensures View() == Capture(old(View()), w)
    {
      match w {
        case WriteHead(code, extra) =>
          status := code;
          MergeHeaders(extra);
        case WriteChunk(chunk) =>
          chunks := chunks + [chunk];
        case End(last) =>
          if last.Some? {
            chunks := chunks + [last.value];
          }
        case FlushHeaders =>
      }
    }

    method Body() returns (body: string)
      ensures body == Concat(chunks)
    {
      body := "";
      var i := 0;
      while i < |chunks|
        invariant 0 <= i <= |chunks|
        invariant body == Concat(chunks[..i])
      {
        ConcatAppend(chunks[..i], [chunks[i]]);
        assert chunks[..i + 1] == chunks[..i] + [chunks[i]];
        assert Concat([chunks[i]]) == chunks[i];
        body := body + chunks[i];
        i := i + 1;
      }
      assert chunks[..|chunks|] == chunks;
    }

    method Replace(newStatus: int, body: string, extra: seq<(string, string)>)
      modifies this
      ensures View() == Replaced(old(View()), newStatus, body, extra)
    {
      status := newStatus;
      chunks := [body];
      MergeHeaders(extra);
    }

    /** Write the buffered response, once. */
    method Flush()
      modifies this, socket
      ensures View() == old(View()).(flushed := true)
      ensures socket.sent == old(socket.sent) + if old(flushed) then [] else [Sent(old(View()))]
    {
      if flushed {
        return;
      }
      flushed := true;
      var body := Body();
      socket.sent := socket.sent + [Response(status, headers, body)];
    }
  }

  // ----- Settle or cancel -----

  const PAYMENT_INVALID: int := 402

  /** The facilitator's answer to a settlement. */
  datatype SettleAnswer =
    | SettleThrew(errorBody: string)
    | Settled(headers: seq<(string, string)>)
    | Declined(status: int, body: string, headers: seq<(string, string)>)

  /** The facilitator's answer to a cancellation, and the headers derived from it. */
  datatype CancelAnswer =
    | CancelThrew
    | Cancelled(headers: Option<seq<(string, string)>>)

  function ContentType(b: Buffer): string {
    if "content-type" in b.headers then b.headers["content-type"] else ""
  }

  /** The call did not deliver, so it must not be charged. */
  predicate CallFailed(b: Buffer, threw: bool, parse: Parser) {
    threw || b.status >= 400 || ResponseFailed(Concat(b.chunks), ContentType(b), parse)
  }

  function AfterCancel(b: Buffer, answer: CancelAnswer): Buffer {
    if answer.Cancelled? && answer.headers.Some? then b.(headers := Merge(b.headers, answer.headers.value)) else b
  }

  function AfterSettle(b: Buffer, answer: SettleAnswer): Buffer {
    match answer
    case Settled(headers) => b.(headers := Merge(b.headers, headers))
    case Declined(status, body, headers) => Replaced(b, status, body, headers)
    case SettleThrew(errorBody) => Replaced(b, PAYMENT_INVALID, errorBody, [("content-type", "application/json")])
  }

  datatype Attempt = SettleTried | CancelTried

  method SettleOrCancel(captured: CapturedResponse, threw: bool, parse: Parser,
                        ifSettled: SettleAnswer, ifCancelled: CancelAnswer)
    returns (attempt: Attempt)
    modifies captured
    ensures var was := old(captured.View());
            if CallFailed(was, threw, parse)
            then attempt == CancelTried && captured.View() == AfterCancel(was, ifCancelled)
            else attempt == SettleTried && captured.View() == AfterSettle(was, ifSettled)
  {
    hide Merge, ResponseFailed, Concat, Replaced;
    var failed := threw || captured.status >= 400;
    if !failed {
      var body := captured.Body();
      var contentType := if "content-type" in captured.headers then captured.headers["content-type"] else "";
      failed := McpResponseFailed(body, contentType, parse);
    }
    if failed {
      if ifCancelled.Cancelled? && ifCancelled.headers.Some? {
        captured.MergeHeaders(ifCancelled.headers.value);
      }
      return CancelTried;
    }
    match ifSettled {
      case Settled(headers) => captured.MergeHeaders(headers);
      case Declined(status, body, headers) => captured.Replace(status, body, headers);
      case SettleThrew(errorBody) =>
        captured.Replace(PAYMENT_INVALID, errorBody, [("content-type", "application/json")]);
    }
    return SettleTried;
  }
}
