/** The canonical cache key of a URL. */
module CacheKey {
  import opened Common
  import opened Text
  import opened Ordering
  import opened Sorting

  type Pair = (string, string)

  /** The components of an http(s) URL after parsing; fragment and user information are dropped. */
  datatype Url = Url(scheme: string, host: string, path: string, params: seq<Pair>)

  datatype Result<T> = Ok(value: T) | TypeError

  type UrlParser = string -> Option<Url>

  /** Percent-encoding of one name or value in a query string. */
  type Encoder = string -> string

  /** What the URL parser guarantees of an http(s) URL. */
  predicate HttpUrl(u: Url) {
    && '/' !in u.scheme
    && '/' !in u.host && '?' !in u.host
    && u.path != "" && u.path[0] == '/' && '?' !in u.path
  }

  /** Different strings are encoded differently, and never with a bare `&` or `=`. */
  ghost predicate FaithfulEncoder(enc: Encoder) {
    && (forall a, b :: enc(a) == enc(b) ==> a == b)
    && (forall a :: '&' !in enc(a) && '=' !in enc(a))
  }

  const TRACKING: set<string> := {"fbclid", "gclid", "ref", "mc_cid", "mc_eid"}

  predicate IsTracking(name: string) {
    StartsWith(Lower(name), "utm_") || Lower(name) in TRACKING
  }

  /** The sign of `comparePairs`. */
  function ComparePairs(a: Pair, b: Pair): int {
    if a.0 != b.0 then if LexLess(a.0, b.0) then -1 else 1
    else if a.1 != b.1 then if LexLess(a.1, b.1) then -1 else 1
    else 0
  }

  predicate PairLeq(a: Pair, b: Pair) {
    ComparePairs(a, b) <= 0
  }

  function Significant(params: seq<Pair>): seq<Pair> {
    if params == [] then []
    else (if IsTracking(params[0].0) then [] else [params[0]]) + Significant(params[1..])
  }

  function StripSlash(path: string): string {
    if path != "/" && EndsWith(path, "/") then path[..|path| - 1] else path
  }

  function Item(p: Pair, enc: Encoder): string {
    enc(p.0) + "=" + enc(p.1)
  }

  function ItemsOf(pairs: seq<Pair>, enc: Encoder): seq<string> {
    if pairs == [] then [] else [Item(pairs[0], enc)] + ItemsOf(pairs[1..], enc)
  }

  function Query(pairs: seq<Pair>, enc: Encoder): string {
    if pairs == [] then "" else Join(ItemsOf(pairs, enc), '&')
  }

  function Print(scheme: string, host: string, path: string, search: string): string {
    scheme + "//" + host + path + if search == "" then "" else "?" + search
  }

  function KeyOf(u: Url, enc: Encoder): string {
    Print(Lower(u.scheme), Lower(u.host), StripSlash(u.path), Query(Sort(Significant(u.params), PairLeq), enc))
  }

  function KeyOfText(url: string, parse: UrlParser, enc: Encoder): Result<string> {
    if Trim(url) == "" then TypeError
    else match parse(url)
         case None => TypeError
         case Some(u) => Ok(KeyOf(u, enc))
  }

  /** `cacheKey`, with its loops over the search parameters. */
  method CacheKeyFor(url: string, parse: UrlParser, enc: Encoder) returns (r: Result<string>)
    ensures r == KeyOfText(url, parse, enc)
  {
    if Trim(url) == "" {
      return TypeError;
    }
    var parsed := parse(url);
    if parsed.None? {
      return TypeError;
    }
    var u := parsed.value;
    var pairs := CollectSignificant(u.params);
    pairs := Sort(pairs, PairLeq);
    var search := AppendAll(pairs, enc);
    return Ok(Lower(u.scheme) + "//" + Lower(u.host) + StripSlash(u.path) + if search == "" then "" else "?" + search);
  }

  method CollectSignificant(params: seq<Pair>) returns (pairs: seq<Pair>)
    ensures pairs == Significant(params)
  {
    pairs := [];
    var i := 0;
    while i < |params|
      invariant 0 <= i <= |params|
      invariant pairs + Significant(params[i..]) == Significant(params)
    {
      assert params[i..][1..] == params[i + 1..];
      if !IsTracking(params[i].0) {
        pairs := pairs + [params[i]];
      }
      i := i + 1;
    }
  }

  /** `append` in a loop, then `toString`. */
  method AppendAll(pairs: seq<Pair>, enc: Encoder) returns (search: string)
    ensures search == Query(pairs, enc)
  {
    search := "";
    var i := |pairs|;
    while i > 0
      invariant 0 <= i <= |pairs|
      invariant search == Query(pairs[i..], enc)
    {
      i := i - 1;
      assert pairs[i..][1..] == pairs[i + 1..];
      search := if i == |pairs| - 1 then Item(pairs[i], enc) else Item(pairs[i], enc) + ['&'] + search;
    }
  }

  // ----- The order of pairs is total -----

  lemma PairOrder()
    ensures TotalPreorder(PairLeq)
    ensures forall a, b :: PairLeq(a, b) && PairLeq(b, a) ==> a == b
  {
    forall a: Pair, b: Pair
      ensures PairLeq(a, b) || PairLeq(b, a)
      ensures PairLeq(a, b) && PairLeq(b, a) ==> a == b
    {
      LexTotal(a.0, b.0);
      LexTotal(a.1, b.1);
      if LexLeq(a.0, b.0) && LexLeq(b.0, a.0) {
        LexAntisymmetric(a.0, b.0);
      }
      if LexLeq(a.1, b.1) && LexLeq(b.1, a.1) {
        LexAntisymmetric(a.1, b.1);
      }
    }
    forall a: Pair, b: Pair, c: Pair | PairLeq(a, b) && PairLeq(b, c) ensures PairLeq(a, c) {
      if LexLeq(a.0, b.0) && LexLeq(b.0, c.0) {
        LexTransitive(a.0, b.0, c.0);
        if a.0 == c.0 {
          LexAntisymmetric(a.0, b.0);
        }
      }
      if LexLeq(a.1, b.1) && LexLeq(b.1, c.1) {
        LexTransitive(a.1, b.1, c.1);
        if a.1 == c.1 {
          LexAntisymmetric(a.1, b.1);
        }
      }
    }
  }

  lemma SortedPairsUnique(a: seq<Pair>, b: seq<Pair>)
    ensures Sort(a, PairLeq) == Sort(b, PairLeq) <==> multiset(a) == multiset(b)
  {
    PairOrder();
    SortPermutes(a, PairLeq);
    SortPermutes(b, PairLeq);
    SortSorts(a, PairLeq);
    SortSorts(b, PairLeq);
    if multiset(a) == multiset(b) {
      SortedUnique(Sort(a, PairLeq), Sort(b, PairLeq), PairLeq);
    }
  }

  // ----- Printing loses nothing -----

  lemma CutAt(a: string, c: char, x: string, b: string, y: string)
    requires c !in a && c !in b && a + [c] + x == b + [c] + y
    ensures a == b && x == y
  {
    var s := a + [c] + x;
    IndexOfPrefix(a, c, x);
    IndexOfPrefix(b, c, y);
    assert a == s[..|a|] && b == s[..|b|] && x == s[|a| + 1..] && y == s[|b| + 1..];
  }

  lemma ItemInjective(p: Pair, q: Pair, enc: Encoder)
    requires FaithfulEncoder(enc) && Item(p, enc) == Item(q, enc)
    ensures p == q
  {
    CutAt(enc(p.0), '=', enc(p.1), enc(q.0), enc(q.1));
  }

  lemma {:induction false} ItemsInjective(a: seq<Pair>, b: seq<Pair>, enc: Encoder)
    requires FaithfulEncoder(enc) && ItemsOf(a, enc) == ItemsOf(b, enc)
    ensures a == b
  {
    if a != [] && b != [] {
      assert ItemsOf(a, enc)[0] == ItemsOf(b, enc)[0];
      assert ItemsOf(a, enc)[1..] == ItemsOf(b, enc)[1..];
      ItemInjective(a[0], b[0], enc);
      ItemsInjective(a[1..], b[1..], enc);
      assert a == [a[0]] + a[1..] && b == [b[0]] + b[1..];
    }
  }

  lemma {:induction false} ItemsPlain(pairs: seq<Pair>, enc: Encoder)
    requires FaithfulEncoder(enc)
    ensures forall item :: item in ItemsOf(pairs, enc) ==> '&' !in item && item != ""
  {
    if pairs != [] {
      ItemsPlain(pairs[1..], enc);
    }
  }

  lemma QueryNonEmpty(pairs: seq<Pair>, enc: Encoder)
    requires FaithfulEncoder(enc)
    ensures Query(pairs, enc) == "" <==> pairs == []
  {
    if pairs != [] {
      assert ItemsOf(pairs, enc)[0] == Item(pairs[0], enc);
    }
  }

  lemma QueryInjective(a: seq<Pair>, b: seq<Pair>, enc: Encoder)
    requires FaithfulEncoder(enc) && Query(a, enc) == Query(b, enc)
    ensures a == b
  {
    QueryNonEmpty(a, enc);
    QueryNonEmpty(b, enc);
    if a != [] {
      ItemsPlain(a, enc);
      ItemsPlain(b, enc);
      SplitJoin(ItemsOf(a, enc), '&');
      SplitJoin(ItemsOf(b, enc), '&');
      ItemsInjective(a, b, enc);
    }
  }

  predicate Printable(scheme: string, host: string, path: string) {
    '/' !in scheme && '/' !in host && path != "" && path[0] == '/' && '?' !in path
  }

  lemma SearchBegins(path: string, search: string)
    requires '?' !in path
    ensures var s := path + if search == "" then "" else "?" + search;
            IndexOf(s, '?') == |path| && s[..|path|] == path
            && s[|path|..] == if search == "" then "" else "?" + search
  {
    if search == "" {
      assert path + "" == path;
      IndexOfNone(path, '?');
    } else {
      assert path + ("?" + search) == path + ['?'] + search;
      IndexOfPrefix(path, '?', search);
    }
  }

  lemma PathAndSearch(p1: string, q1: string, p2: string, q2: string)
    requires '?' !in p1 && '?' !in p2
    requires PathText(p1, q1) == PathText(p2, q2)
    ensures p1 == p2 && q1 == q2
  {
    SearchBegins(p1, q1);
    SearchBegins(p2, q2);
    assert q1 != "" ==> q1 == ("?" + q1)[1..];
    assert q2 != "" ==> q2 == ("?" + q2)[1..];
  }

  function PathText(p: string, q: string): string {
    p + if q == "" then "" else "?" + q
  }

  lemma PrintedParts(s: string, h: string, p: string, q: string)
    requires Printable(s, h, p)
    ensures PathText(p, q) != "" && PathText(p, q) == ['/'] + PathText(p, q)[1..]
    ensures Print(s, h, p, q) == s + ['/'] + (['/'] + h + ['/'] + PathText(p, q)[1..])
  {
    var t := PathText(p, q);
    assert t[0] == '/' && t == ['/'] + t[1..];
    assert Print(s, h, p, q) == s + ['/'] + (['/'] + h + t);
    assert ['/'] + h + t == ['/'] + h + ['/'] + t[1..];
  }

  lemma PrintInjective(s1: string, h1: string, p1: string, q1: string, s2: string, h2: string, p2: string, q2: string)
    requires Printable(s1, h1, p1) && Printable(s2, h2, p2)
    requires Print(s1, h1, p1, q1) == Print(s2, h2, p2, q2)
    ensures s1 == s2 && h1 == h2 && p1 == p2 && q1 == q2
  {
    var t1, t2 := PathText(p1, q1)[1..], PathText(p2, q2)[1..];
    PrintedParts(s1, h1, p1, q1);
    PrintedParts(s2, h2, p2, q2);
    hide Print, PathText;
    CutAt(s1, '/', ['/'] + h1 + ['/'] + t1, s2, ['/'] + h2 + ['/'] + t2);
    assert (['/'] + h1 + ['/'] + t1)[1..] == h1 + ['/'] + t1 && (['/'] + h2 + ['/'] + t2)[1..] == h2 + ['/'] + t2;
    CutAt(h1, '/', t1, h2, t2);
    PathAndSearch(p1, q1, p2, q2);
  }

  lemma LowerKeepsOut(s: string, c: char)
    requires c !in s && !('a' <= c <= 'z')
    ensures c !in Lower(s)
  {
    forall i | 0 <= i < |s| ensures Lower(s)[i] != c {
      assert s[i] in s;
    }
  }

  lemma KeyPrintable(u: Url)
    requires HttpUrl(u)
    ensures Printable(Lower(u.scheme), Lower(u.host), StripSlash(u.path))
  {
    LowerKeepsOut(u.scheme, '/');
    LowerKeepsOut(u.host, '/');
  }

  /** Two URLs get the same key exactly when they agree on scheme, host, path up to one trailing
      slash, and the multiset of their non-tracking parameters. */
  lemma SameKeyIffSameContent(u: Url, v: Url, enc: Encoder)
    requires HttpUrl(u) && HttpUrl(v) && FaithfulEncoder(enc)
    ensures KeyOf(u, enc) == KeyOf(v, enc) <==>
            && Lower(u.scheme) == Lower(v.scheme)
            && Lower(u.host) == Lower(v.host)
            && StripSlash(u.path) == StripSlash(v.path)
            && multiset(Significant(u.params)) == multiset(Significant(v.params))
  {
    var a, b := Significant(u.params), Significant(v.params);
    SortedPairsUnique(a, b);
    if KeyOf(u, enc) == KeyOf(v, enc) {
      KeyPrintable(u);
      KeyPrintable(v);
      var qa, qb := Query(Sort(a, PairLeq), enc), Query(Sort(b, PairLeq), enc);
      PrintInjective(Lower(u.scheme), Lower(u.host), StripSlash(u.path), qa,
                     Lower(v.scheme), Lower(v.host), StripSlash(v.path), qb);
      QueryInjective(Sort(a, PairLeq), Sort(b, PairLeq), enc);
    }
  }

  // ----- Applying the normalisation twice -----

  /** The URL that the key spells. */
  function Normal(u: Url): Url {
    Url(Lower(u.scheme), Lower(u.host), StripSlash(u.path), Sort(Significant(u.params), PairLeq))
  }

  lemma {:induction false} SignificantMembers(params: seq<Pair>, p: Pair)
    requires p in Significant(params)
    ensures p in params && !IsTracking(p.0)
  {
    if params != [] && p in Significant(params[1..]) {
      SignificantMembers(params[1..], p);
    }
  }

  lemma {:induction false} SignificantFixed(params: seq<Pair>)
    requires forall p :: p in params ==> !IsTracking(p.0)
    ensures Significant(params) == params
  {
    if params != [] {
      assert params[0] in params;
      SignificantFixed(params[1..]);
    }
  }

  lemma NormalPairs(params: seq<Pair>)
    ensures var once := Sort(Significant(params), PairLeq);
            Sort(Significant(once), PairLeq) == once
  {
    var s := Significant(params);
    var once := Sort(s, PairLeq);
    SortPermutes(s, PairLeq);
    forall p | p in once ensures !IsTracking(p.0) {
      SameMembers(once, s, p);
      SignificantMembers(params, p);
    }
    SignificantFixed(once);
    SortedPairsUnique(once, s);
  }

  /** The key of the key is the key exactly when the path did not end in two slashes (or was just that). */
  lemma IdempotentIff(u: Url, parse: UrlParser, enc: Encoder)
    requires HttpUrl(u) && FaithfulEncoder(enc)
    requires parse(KeyOf(u, enc)) == Some(Normal(u)) && Trim(KeyOf(u, enc)) != ""
    ensures KeyOfText(KeyOf(u, enc), parse, enc) == Ok(KeyOf(u, enc))
       <==> u.path == "//" || !EndsWith(u.path, "//")
  {
    var n := Normal(u);
    LowerIdempotent(u.scheme);
    LowerIdempotent(u.host);
    NormalPairs(u.params);
    KeyPrintable(u);
    SlashTwice(u.path);
    if KeyOf(n, enc) == KeyOf(u, enc) {
      LowerKeepsOut(u.scheme, '/');
      LowerKeepsOut(u.host, '/');
      var q := Query(Sort(Significant(u.params), PairLeq), enc);
      PrintInjective(n.scheme, n.host, StripSlash(n.path), q, n.scheme, n.host, n.path, q);
    }
  }

  lemma EndsInOne(s: string)
    ensures EndsWith(s, "/") <==> s != "" && s[|s| - 1] == '/'
  {
    if s != "" {
      assert s[|s| - 1..] == [s[|s| - 1]];
    }
  }

  lemma EndsInTwo(s: string)
    ensures EndsWith(s, "//") <==> |s| >= 2 && s[|s| - 1] == '/' && s[|s| - 2] == '/'
  {
    if |s| >= 2 {
      assert s[|s| - 2..] == [s[|s| - 2], s[|s| - 1]];
    }
  }

  lemma StripByIndex(path: string)
    requires path != "" && path[0] == '/'
    ensures path == "/" <==> |path| == 1
    ensures path == "//" <==> |path| == 2 && path[1] == '/'
    ensures StripSlash(path) == if |path| > 1 && path[|path| - 1] == '/' then path[..|path| - 1] else path
  {
    EndsInOne(path);
  }

  lemma SlashTwice(path: string)
    requires path != "" && path[0] == '/'
    ensures StripSlash(path) != "" && StripSlash(path)[0] == '/'
    ensures StripSlash(StripSlash(path)) != "" && StripSlash(StripSlash(path))[0] == '/'
    ensures StripSlash(StripSlash(path)) == StripSlash(path) <==> path == "//" || !EndsWith(path, "//")
    ensures '?' !in path ==> '?' !in StripSlash(StripSlash(path))
  {
    StripByIndex(path);
    EndsInTwo(path);
    hide StripSlash, EndsWith;
    StripByIndex(StripSlash(path));
  }

  // ----- The key by the parts of the URL -----

  /** Advertising and referral parameters, in any letter case. */
  ghost predicate IsCampaign(name: string) {
    (exists rest :: Lower(name) == "utm_" + rest) || Lower(name) in {"fbclid", "gclid", "ref", "mc_cid", "mc_eid"}
  }

  lemma TrackingIffCampaign(name: string)
    ensures IsTracking(name) <==> IsCampaign(name)
  {
    var s := Lower(name);
    if StartsWith(s, "utm_") {
      assert s == "utm_" + s[4..];
    }
  }

  lemma {:induction false} SignificantCount(params: seq<Pair>, p: Pair)
    ensures multiset(Significant(params))[p] == if IsTracking(p.0) then 0 else multiset(params)[p]
  {
    if params != [] {
      SignificantCount(params[1..], p);
      assert params == [params[0]] + params[1..];
    }
  }

  /** One of the paths has a single slash more at its end, and otherwise they are equal. */
  predicate SamePath(a: string, b: string) {
    a == b || OneSlashMore(a, b) || OneSlashMore(b, a)
  }

  predicate OneSlashMore(a: string, b: string) {
    a == b + "/" && (b == "/" || !EndsWith(b, "/"))
  }

  lemma SamePathIff(a: string, b: string)
    requires a != "" && a[0] == '/' && b != "" && b[0] == '/'
    ensures StripSlash(a) == StripSlash(b) <==> SamePath(a, b)
  {
    StripByIndex(a);
    StripByIndex(b);
    EndsInOne(a);
    EndsInOne(b);
    hide StripSlash, EndsWith;
    if |a| > 1 && a[|a| - 1] == '/' {
      assert a == a[..|a| - 1] + "/";
    }
    if |b| > 1 && b[|b| - 1] == '/' {
      assert b == b[..|b| - 1] + "/";
    }
  }

  /** Two URLs get the same key exactly if scheme and host agree but for letter case, the paths but for one slash at the
      end, and every parameter that is no campaign parameter stands as often in both, in whatever order. */
  lemma SameKeyIffSameParts(u: Url, v: Url, enc: Encoder)
    requires HttpUrl(u) && HttpUrl(v) && FaithfulEncoder(enc)
    ensures KeyOf(u, enc) == KeyOf(v, enc) <==>
            && Lower(u.scheme) == Lower(v.scheme) && Lower(u.host) == Lower(v.host) && SamePath(u.path, v.path)
            && forall p: Pair :: !IsCampaign(p.0) ==> multiset(u.params)[p] == multiset(v.params)[p]
  {
    SameKeyIffSameContent(u, v, enc);
    SamePathIff(u.path, v.path);
    var a, b := multiset(Significant(u.params)), multiset(Significant(v.params));
    hide KeyOf, SamePath, StripSlash, IsCampaign, IsTracking, Significant, HttpUrl, FaithfulEncoder, Lower;
    forall p: Pair
      ensures a[p] == (if IsCampaign(p.0) then 0 else multiset(u.params)[p])
      ensures b[p] == (if IsCampaign(p.0) then 0 else multiset(v.params)[p])
    {
      TrackingIffCampaign(p.0);
      SignificantCount(u.params, p);
      SignificantCount(v.params, p);
    }
    assert a == b <==> forall p :: a[p] == b[p];
  }
}
