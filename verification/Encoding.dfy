/** The `content-encoding` and `content-length` response headers and the chain of decoders. */
module Encoding {
  import opened Common
  import opened Text
  import opened Numerals

  type Bytes = seq<bv8>

  /** A compression algorithm; `dec` of something malformed fails. */
  datatype Codec = Codec(enc: Bytes -> Bytes, dec: Bytes -> Option<Bytes>)

  datatype Codecs = Codecs(gzip: Codec, deflate: Codec, brotli: Codec)

  ghost predicate Inverts(c: Codec) {
    forall x :: c.dec(c.enc(x)) == Some(x)
  }

  ghost predicate AllInvert(codecs: Codecs) {
    Inverts(codecs.gzip) && Inverts(codecs.deflate) && Inverts(codecs.brotli)
  }

  function CodecOf(token: string, codecs: Codecs): Option<Codec> {
    if token == "gzip" || token == "x-gzip" then Some(codecs.gzip)
    else if token == "deflate" then Some(codecs.deflate)
    else if token == "br" then Some(codecs.brotli)
    else None
  }

  predicate Supported(token: string) {
    token in {"gzip", "x-gzip", "deflate", "br"}
  }

  /** The tokens of the header in order, without `identity` and without empty ones. */
  function Tokens(pieces: seq<string>): seq<string> {
    if pieces == [] then []
    else
      var token := Lower(Trim(pieces[0]));
      (if token == "" || token == "identity" then [] else [token]) + Tokens(pieces[1..])
  }

  function Unsupported(tokens: seq<string>): seq<string> {
    if tokens == [] then []
    else (if Supported(tokens[0]) then [] else [tokens[0]]) + Unsupported(tokens[1..])
  }

  /** The declared encodings; an absent header is `None`. */
  function Chain(header: Option<string>): seq<string> {
    Tokens(Split(if header.None? then "" else header.value, ','))
  }

  lemma {:induction false} NoneUnsupported(tokens: seq<string>)
    ensures Unsupported(tokens) == [] <==> forall t :: t in tokens ==> Supported(t)
  {
    if tokens != [] {
      NoneUnsupported(tokens[1..]);
    }
  }

  // ----- Decoding -----

  /** What a server sends that applies the encodings left to right. */
  function Encoded(tokens: seq<string>, body: Bytes, codecs: Codecs): Bytes
    decreases |tokens|
  {
    if tokens == [] then body
    else
      var c := CodecOf(tokens[0], codecs);
      Encoded(tokens[1..], if c.Some? then c.value.enc(body) else body, codecs)
  }

  function DecodeOne(token: string, data: Option<Bytes>, codecs: Codecs): Option<Bytes> {
    var c := CodecOf(token, codecs);
    if c.None? || data.None? then data else c.value.dec(data.value)
  }

  /** The decoders of `tokens`, the last one first. */
  function Decoded(tokens: seq<string>, data: Option<Bytes>, codecs: Codecs): Option<Bytes>
    decreases |tokens|
  {
    if tokens == [] then data
    else DecodeOne(tokens[0], Decoded(tokens[1..], data, codecs), codecs)
  }

  /** What becomes of the bytes on the wire: nothing is decoded when any token is unknown. */
  function BodyOf(header: Option<string>, wire: Bytes, codecs: Codecs): Option<Bytes> {
    if Unsupported(Chain(header)) != [] then Some(wire) else Decoded(Chain(header), Some(wire), codecs)
  }

  method DecodeBody(header: Option<string>, wire: Bytes, codecs: Codecs) returns (body: Option<Bytes>, warned: bool)
    ensures warned <==> exists t :: t in Chain(header) && !Supported(t)
    ensures warned <==> Unsupported(Chain(header)) != []
    ensures body == BodyOf(header, wire, codecs)
  {
    var chain := Chain(header);
    body := Some(wire);
    NoneUnsupported(chain);
    warned := Unsupported(chain) != [];
    hide Chain, Unsupported, DecodeOne;
    if !warned {
      var i := |chain|;
      assert chain[i..] == [];
      while i > 0
        invariant 0 <= i <= |chain|
        invariant body == Decoded(chain[i..], Some(wire), codecs)
      {
        i := i - 1;
        assert chain[i..][1..] == chain[i + 1..];
        body := DecodeOne(chain[i], body, codecs);
      }
      assert chain[0..] == chain;
    }
  }

  lemma {:induction false} EncodedDecodes(tokens: seq<string>, body: Bytes, codecs: Codecs)
    requires AllInvert(codecs)
    ensures Decoded(tokens, Some(Encoded(tokens, body, codecs)), codecs) == Some(body)
    decreases |tokens|
  {
    if tokens != [] {
      var c := CodecOf(tokens[0], codecs);
      EncodedDecodes(tokens[1..], if c.Some? then c.value.enc(body) else body, codecs);
    }
  }

  /** Undoing the declared encodings right to left gives back what the server encoded left to right. */
  lemma HeaderDecodes(header: Option<string>, body: Bytes, codecs: Codecs)
    requires AllInvert(codecs)
    ensures Decoded(Chain(header), Some(Encoded(Chain(header), body, codecs)), codecs) == Some(body)
  {
    EncodedDecodes(Chain(header), body, codecs);
  }

  // ----- Header spellings -----

  /** A header value, piece by piece, that declares just these encodings: each in any case and with any
      space around it, with `identity` and empty pieces anywhere between. */
  ghost predicate Declares(pieces: seq<string>, tokens: seq<string>)
    decreases |pieces|
  {
    if pieces == [] then tokens == []
    else
      && ',' !in pieces[0]
      && var token := Lower(Trim(pieces[0]));
         if token in {"", "identity"} then Declares(pieces[1..], tokens)
         else tokens != [] && tokens[0] == token && Declares(pieces[1..], tokens[1..])
  }

  lemma {:induction false} DeclaresTokens(pieces: seq<string>, tokens: seq<string>)
    requires Declares(pieces, tokens)
    ensures Tokens(pieces) == tokens && forall p :: p in pieces ==> ',' !in p
    decreases |pieces|
  {
    hide Trim, Lower;
    if pieces != [] {
      var token := Lower(Trim(pieces[0]));
      if token in {"", "identity"} {
        DeclaresTokens(pieces[1..], tokens);
      } else {
        DeclaresTokens(pieces[1..], tokens[1..]);
        assert tokens == [tokens[0]] + tokens[1..];
      }
    }
  }

  /** However the header is spelt, the chain is the declared list of encodings. */
  lemma ChainReadBack(pieces: seq<string>, tokens: seq<string>)
    requires pieces != [] && Declares(pieces, tokens)
    ensures Chain(Some(Join(pieces, ','))) == tokens
  {
    DeclaresTokens(pieces, tokens);
    SplitJoin(pieces, ',');
  }

  // ----- The length header -----

  const MAX_SAFE: nat := 0x1f_ffff_ffff_ffff

  /** `None` unless the header is a plain number that is a safe integer. */
  function ContentLength(header: Option<string>): Option<nat> {
    if header.None? then None
    else
      var t := Trim(header.value);
      if t != "" && AllDigits(t, 10) && Value(t, 10) <= MAX_SAFE then Some(Value(t, 10)) else None
  }

  lemma PlainNumberTrims(s: string)
    requires s != "" && AllDigits(s, 10)
    ensures Trim(s) == s
  {
    assert s[0] in s && s[|s| - 1] in s;
  }

  /** A length written in decimal is read back, up to the greatest safe integer and no further. */
  lemma LengthReadBack(n: nat)
    ensures ContentLength(Some(Digits(n, 10))) == (if n <= MAX_SAFE then Some(n) else None)
  {
    DigitsAreDigits(n, 10);
    ReadDigits(n, 10);
    PlainNumberTrims(Digits(n, 10));
    hide Digits, Trim, Value;
  }

  // ----- The type header -----

  const TEXTUAL: seq<string> := [
    "text/html", "text/plain", "application/xhtml+xml", "application/json", "application/ld+json", "text/xml",
    "application/xml"
  ]

  function Mime(contentType: string): string {
    Lower(Trim(Split(contentType, ';')[0]))
  }

  /** Whether the body is kept. */
  predicate IsTextual(contentType: Option<string>) {
    && contentType.Some? && contentType.value != ""
    && (StartsWith(Mime(contentType.value), "text/") || Mime(contentType.value) in TEXTUAL)
  }

  /** A media type is read back from the header in any letter case, with any space around it and whatever parameters
      after it; it is textual exactly if it is a `text/` type or one of the listed others. */
  lemma TypeReadBack(before: string, name: string, after: string, parameters: string)
    requires forall c :: c in before + after ==> IsSpace(c)
    requires name != "" && !IsSpace(name[0]) && !IsSpace(name[|name| - 1]) && ';' !in name
    requires parameters == "" || parameters[0] == ';'
    ensures IsTextual(Some(before + name + after + parameters))
       <==> (exists rest :: Lower(name) == "text/" + rest)
            || Lower(name) in {"application/xhtml+xml", "application/json", "application/ld+json", "application/xml"}
  {
    hide IsSpace, Mime, Lower;
    MimeIs(before, name, after, parameters);
    TextPrefix(Lower(name));
  }

  lemma TextPrefix(name: string)
    ensures StartsWith(name, "text/") <==> exists rest :: name == "text/" + rest
    ensures name in {"text/html", "text/plain", "text/xml"} ==> StartsWith(name, "text/")
  {
    if StartsWith(name, "text/") {
      assert name == "text/" + name[5..];
    }
  }

  lemma MimeIs(before: string, name: string, after: string, parameters: string)
    requires forall c :: c in before + after ==> IsSpace(c)
    requires name != "" && !IsSpace(name[0]) && !IsSpace(name[|name| - 1]) && ';' !in name
    requires parameters == "" || parameters[0] == ';'
    ensures Mime(before + name + after + parameters) == Lower(name)
  {
    NoSemicolon(before, after);
    FirstPiece(before + name + after, parameters);
    TrimAround(before, name, after);
    hide Trim, Split, IsSpace, Lower;
  }

  lemma NoSemicolon(before: string, after: string)
    requires forall c :: c in before + after ==> IsSpace(c)
    ensures ';' !in before && ';' !in after
  {
    assert !IsSpace(';');
    hide IsSpace;
    assert ';' in before || ';' in after ==> ';' in before + after;
  }

  lemma FirstPiece(value: string, parameters: string)
    requires ';' !in value && (parameters == "" || parameters[0] == ';')
    ensures Split(value + parameters, ';')[0] == value
  {
    if parameters == "" {
      assert value + parameters == value;
      IndexOfNone(value, ';');
    } else {
      assert value + parameters == value + [';'] + parameters[1..];
      IndexOfPrefix(value, ';', parameters[1..]);
    }
  }

  lemma TrimAround(before: string, name: string, after: string)
    requires forall c :: c in before + after ==> IsSpace(c)
    requires name != "" && !IsSpace(name[0]) && !IsSpace(name[|name| - 1])
    ensures Trim(before + name + after) == name
  {
    hide IsSpace, TrimStart, TrimEnd;
    assert forall c :: c in before || c in after ==> c in before + after;
    assert before + name + after == before + (name + after);
    TrimStartSpaces(before, name + after);
    TrimEndSpaces(name, after);
  }
}
