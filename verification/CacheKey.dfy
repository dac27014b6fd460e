/**
 Keys of the HTTP cache.  Strings are byte strings: every character stands for one byte.
 */
module CacheKey {
  import opened Wrappers

  predicate Octets(s: string) {
    forall i :: 0 <= i < |s| ==> s[i] as int < 256
  }

  // ----- Percent-encoding, section 2.1 of RFC 3986, as the query component has it ---------------

  predicate Unreserved(c: char) {
    'a' <= c <= 'z' || 'A' <= c <= 'Z' || '0' <= c <= '9' || c == '-' || c == '_' || c == '.' || c == '~'
  }

  function HexDigit(n: nat): (c: char)
    requires n < 16
    ensures '0' <= c <= '9' || 'A' <= c <= 'F'
  {
    if n < 10 then ('0' as int + n) as char else ('A' as int + n - 10) as char
  }

  function HexValue(c: char): Option<int> {
    if '0' <= c <= '9' then Some(c as int - '0' as int)
    else if 'a' <= c <= 'f' then Some(c as int - 'a' as int + 10)
    else if 'A' <= c <= 'F' then Some(c as int - 'A' as int + 10)
    else None
  }

  function EscapeByte(c: char): (r: string)
    requires c as int < 256
    ensures r != "" && forall x <- r :: Unreserved(x) || x == '+' || x == '%'
  {
    if Unreserved(c) then [c]
    else if c == ' ' then "+"
    else ['%', HexDigit(c as int / 16), HexDigit(c as int % 16)]
  }

  function QueryEscape(s: string): (r: string)
    requires Octets(s)
    ensures forall x <- r :: Unreserved(x) || x == '+' || x == '%'
    ensures s != "" ==> r != ""
  {
    if s == "" then "" else EscapeByte(s[0]) + QueryEscape(s[1..])
  }

  /** None for a malformed escape. */
  function QueryUnescape(s: string): Option<string> {
    if s == "" then Some("")
    else if s[0] == '%' then
      if |s| < 3 || HexValue(s[1]).None? || HexValue(s[2]).None? then None
      else
        match QueryUnescape(s[3..])
        case None => None
        case Some(rest) => Some([(16 * HexValue(s[1]).value + HexValue(s[2]).value) as char] + rest)
    else
      match QueryUnescape(s[1..])
      case None => None
      case Some(rest) => Some([if s[0] == '+' then ' ' else s[0]] + rest)
  }

  lemma HexRoundTrip(n: nat)
    requires n < 16
    ensures HexValue(HexDigit(n)) == Some(n)
    ensures n >= 10 ==> HexValue(('a' as int + n - 10) as char) == Some(n)
  {
  }

  /** A percent sign that two hexadecimal digits do not follow. */
  predicate BadEscape(s: string, i: nat)
    requires i < |s|
  {
    s[i] == '%' && (i + 2 >= |s| || HexValue(s[i + 1]).None? || HexValue(s[i + 2]).None?)
  }

  /** Unescaping fails exactly when there is a malformed escape anywhere. */
  lemma {:induction false} UnescapeFails(s: string)
    ensures QueryUnescape(s).None? <==> exists i: nat :: i < |s| && BadEscape(s, i)
  {
    if s == "" {
    } else if s[0] == '%' && BadEscape(s, 0) {
    } else {
      var n := if s[0] == '%' then 3 else 1;
      UnescapeFails(s[n..]);
      if i: nat :| i < |s[n..]| && BadEscape(s[n..], i) {
        assert BadEscape(s, i + n);
      }
      if i: nat :| i < |s| && BadEscape(s, i) {
        assert BadEscape(s[n..], i - n);
      }
    }
  }

  /** A text without escapes and plus signs stands for itself. */
  lemma {:induction false} UnescapePlain(s: string)
    requires '%' !in s && '+' !in s
    ensures QueryUnescape(s) == Some(s)
  {
    if s == "" {
    } else {
      UnescapePlain(s[1..]);
      assert s == [s[0]] + s[1..];
    }
  }

  lemma UnescapeByte(c: char, rest: string)
    requires c as int < 256
    ensures QueryUnescape(EscapeByte(c) + rest)
         == match QueryUnescape(rest) case None => None case Some(r) => Some([c] + r)
  {
    var e := EscapeByte(c);
    if Unreserved(c) || c == ' ' {
      assert (e + rest)[1..] == rest;
    } else {
      HexRoundTrip(c as int / 16);
      HexRoundTrip(c as int % 16);
      assert (e + rest)[3..] == rest;
    }
  }

  /** Unescaping undoes escaping. */
  lemma {:induction false} EscapeRoundTrip(s: string)
    requires Octets(s)
    ensures QueryUnescape(QueryEscape(s)) == Some(s)
  {
    if s == "" {
    } else {
      EscapeRoundTrip(s[1..]);
      UnescapeByte(s[0], QueryEscape(s[1..]));
      assert s == [s[0]] + s[1..];
    }
  }

  // ----- Parsing a query ------------------------------------------------------------------------------

  /** The text before the first separator, and the text after it. */
  function Cut(s: string, sep: char): (r: (string, string))
    ensures sep !in r.0
    ensures sep !in s ==> r == (s, "")
    ensures sep in s ==> s == r.0 + [sep] + r.1
    ensures |r.1| < |s| || s == ""
  {
    if s == "" then ("", "")
    else if s[0] == sep then ("", s[1..])
    else
      var (a, b) := Cut(s[1..], sep);
      assert s == [s[0]] + s[1..];
      assert sep in s ==> sep in s[1..];
      ([s[0]] + a, b)
  }

  datatype Query = Query(values: seq<(string, string)>, bad: bool)

  /** What the text between two ampersands says. */
  function ParsePart(part: string): Query {
    if ';' in part then Query([], true)
    else if part == "" then Query([], false)
    else
      var (k, v) := Cut(part, '=');
      match (QueryUnescape(k), QueryUnescape(v))
      case (Some(key), Some(value)) => Query([(key, value)], false)
      case _ => Query([], true)
  }

  function Both(a: Query, b: Query): Query {
    Query(a.values + b.values, a.bad || b.bad)
  }

  /** The pairs of a query in their order; `bad` when any part is malformed. */
  function ParseQuery(q: string): Query
    decreases |q|
  {
    if q == "" then Query([], false)
    else
      var (part, more) := Cut(q, '&');
      Both(ParsePart(part), ParseQuery(more))
  }

  lemma CutUnique(a: string, b: string, c: string, d: string, sep: char)
    requires a + [sep] + b == c + [sep] + d
    requires sep !in a && sep !in c
    ensures a == c && b == d
  {
    var s := a + [sep] + b;
    assert s[|a|] == sep && s[|c|] == sep;
    forall j | 0 <= j < |a| ensures s[j] != sep {
      assert s[j] == a[j];
    }
    forall j | 0 <= j < |c| ensures s[j] != sep {
      assert s[j] == c[j];
    }
    assert a == s[..|a|] && c == s[..|c|] && b == s[|a| + 1..] && d == s[|c| + 1..];
  }

  lemma CutJoined(a: string, b: string, sep: char)
    ensures Cut(a + [sep] + b, sep) == if sep in a then (Cut(a, sep).0, Cut(a, sep).1 + [sep] + b) else (a, b)
  {
    hide Cut;
    var s := a + [sep] + b;
    assert s[|a|] == sep;
    if sep in a {
      var (x, y) := Cut(a, sep);
      assert s == x + [sep] + (y + [sep] + b);
      CutUnique(Cut(s, sep).0, Cut(s, sep).1, x, y + [sep] + b, sep);
    } else {
      CutUnique(Cut(s, sep).0, Cut(s, sep).1, a, b, sep);
    }
  }

  /** What a query says is what its parts between ampersands say, in their order. */
  lemma {:induction false} ParseJoined(a: string, b: string)
    ensures ParseQuery(a + "&" + b) == Both(ParseQuery(a), ParseQuery(b))
    decreases |a|
  {
    hide Cut, ParsePart, Both;
    var q := a + "&" + b;
    CutJoined(a, b, '&');
    if '&' in a {
      var (part, more) := Cut(a, '&');
      assert Cut(q, '&') == (part, more + "&" + b);
      ParseJoined(more, b);
      BothAgain(ParsePart(part), ParseQuery(more), ParseQuery(b));
    } else {
      OnePart(a);
      assert Cut(q, '&') == (a, b);
    }
  }

  lemma OnePart(part: string)
    requires '&' !in part
    ensures ParseQuery(part) == ParsePart(part)
  {
    hide QueryUnescape;
    assert Cut(part, '&') == (part, "");
    assert ParseQuery("") == Query([], false);
    assert ParsePart(part).values + [] == ParsePart(part).values;
  }

  lemma BothAgain(a: Query, b: Query, c: Query)
    ensures Both(Both(a, b), c) == Both(a, Both(b, c))
  {
    assert (a.values + b.values) + c.values == a.values + (b.values + c.values);
  }

  lemma OctetEscaped(s: string)
    requires Octets(s)
    ensures Octets(QueryEscape(s))
  {
    var e := QueryEscape(s);
    forall i | 0 <= i < |e| ensures e[i] as int < 256 {
      assert e[i] in e;
    }
  }

  /** One encoded pair. */
  lemma ParsePair(p: (string, string))
    requires Octets(p.0) && Octets(p.1)
    ensures ParseQuery(EncodedPair(p)) == Query([p], false)
  {
    hide QueryUnescape, QueryEscape, Cut, ParseQuery;
    var (key, value) := p;
    var k, v := QueryEscape(key), QueryEscape(value);
    var part := k + "=" + v;
    assert forall c <- part :: c in k || c == '=' || c in v;
    OnePart(part);
    CutJoined(k, v, '=');
    EscapeRoundTrip(key);
    EscapeRoundTrip(value);
  }

  function EncodedPair(p: (string, string)): (r: string)
    requires Octets(p.0) && Octets(p.1)
    ensures Octets(r)
  {
    OctetEscaped(p.0);
    OctetEscaped(p.1);
    QueryEscape(p.0) + "=" + QueryEscape(p.1)
  }

  function Encoded(pairs: seq<(string, string)>): (r: string)
    requires forall p <- pairs :: Octets(p.0) && Octets(p.1)
    ensures Octets(r)
  {
    if pairs == [] then "" else Encoded(pairs[..|pairs| - 1]) + "&" + EncodedPair(pairs[|pairs| - 1])
  }

  lemma NoQuery()
    ensures ParseQuery("") == Query([], false)
  {
  }

  /** Parsing undoes the encoding of any list of pairs. */
  lemma {:induction false} ParseEncoded(pairs: seq<(string, string)>)
    requires forall p <- pairs :: Octets(p.0) && Octets(p.1)
    ensures ParseQuery(Encoded(pairs)) == Query(pairs, false)
  {
    hide ParseQuery, Octets, EncodedPair;
    if pairs == [] {
      NoQuery();
    } else {
      var init, last := pairs[..|pairs| - 1], pairs[|pairs| - 1];
      ParseEncoded(init);
      ParsePair(last);
      ParseJoined(Encoded(init), EncodedPair(last));
      assert init + [last] == pairs;
    }
  }

  /** A part with a semicolon or a malformed escape. */
  predicate Malformed(part: string) {
    && '&' !in part
    && (';' in part || exists i: nat :: i < |part| && BadEscape(part, i))
  }

  lemma MalformedPart(part: string)
    requires Malformed(part)
    ensures ParseQuery(part).bad
  {
    hide QueryUnescape;
    OnePart(part);
    if ';' !in part {
      var i: nat :| i < |part| && BadEscape(part, i);
      var (k, v) := Cut(part, '=');
      UnescapeFails(k);
      UnescapeFails(v);
      if i < |k| {
        assert BadEscape(k, i);
      } else {
        assert '=' in part && i > |k|;
        assert BadEscape(v, i - |k| - 1);
      }
    }
  }

  /** Wherever a query has a malformed part, it is malformed. */
  lemma MalformedAnywhere(a: string, part: string, b: string)
    requires Malformed(part)
    ensures ParseQuery(part).bad && ParseQuery(part + "&" + b).bad
    ensures ParseQuery(a + "&" + part).bad && ParseQuery(a + "&" + (part + "&" + b)).bad
  {
    hide ParseQuery, Malformed;
    MalformedPart(part);
    ParseJoined(part, b);
    ParseJoined(a, part + "&" + b);
    ParseJoined(a, part);
  }

  /** The first value of a key, or the empty string. */
  function Get(values: seq<(string, string)>, key: string): string {
    if values == [] then "" else if values[0].0 == key then values[0].1 else Get(values[1..], key)
  }

  /** `Get` returns the value of the first pair with the key, and the empty string when there is none. */
  lemma {:induction false} GetFirst(values: seq<(string, string)>, key: string, i: nat)
    requires i <= |values| && forall j :: 0 <= j < i ==> values[j].0 != key
    ensures i == |values| ==> Get(values, key) == ""
    ensures i < |values| && values[i].0 == key ==> Get(values, key) == values[i].1
    decreases i
  {
    if i == 0 {
    } else {
      GetFirst(values[1..], key, i - 1);
    }
  }

  // ----- Routes, queries and variants --------------------------------------------------------------------

  datatype Route = Gallery | Lightbox | Info | OtherRoute

  function RouteOf(path: string): Route {
    if "/gallery/" <= path then Gallery
    else if "/lightbox/" <= path then Lightbox
    else if "/info/" <= path then Info
    else OtherRoute
  }

  /** The value of `v` that a raw query stands for; empty when it has none or is malformed. */
  function VersionOf(rawQuery: string): string {
    var q := ParseQuery(rawQuery);
    if q.bad then "" else Get(q.values, "v")
  }

  function NormalizeCacheQuery(path: string, rawQuery: string): string
    requires Octets(rawQuery)
  {
    if RouteOf(path).OtherRoute? then rawQuery
    else if rawQuery == "" then ""
    else
      OctetVersion(rawQuery);
      var v := VersionOf(rawQuery);
      if v == "" then "" else "v=" + QueryEscape(v)
  }

  function NormalizedVariant(path: string, hxRequest: string, hxTarget: string): string {
    match RouteOf(path)
    case Gallery => if hxRequest == "true" && hxTarget == "gallery-content" then "gallery-content" else "full"
    case Info => "box_info"
    case Lightbox => "lightbox-ui"
    case OtherRoute => "full"
  }

  function PreloadVariantForPath(path: string): string {
    match RouteOf(path)
    case Gallery => "gallery-content"
    case Info => "box_info"
    case Lightbox => "lightbox-ui"
    case OtherRoute => "full"
  }

  datatype Params = Params(verb: string, path: string, query: string, variant: string)

  function NewCacheKey(p: Params): string {
    p.verb + ":" + p.path + "?" + p.query + (if p.variant == "" then "" else "|Variant=" + p.variant)
  }

  datatype Request = Request(verb: string, path: string, rawQuery: string, hxRequest: string, hxTarget: string)

  function ForRequest(r: Request): Params
    requires Octets(r.rawQuery)
  {
    var htmx := if r.hxRequest == "" then "false" else r.hxRequest;
    Params(r.verb, r.path, NormalizeCacheQuery(r.path, r.rawQuery), NormalizedVariant(r.path, htmx, r.hxTarget))
  }

  function ForPreload(path: string, query: string, variant: string): Params
    requires Octets(query)
  {
    Params("GET", path, NormalizeCacheQuery(path, query), variant)
  }

  // ----- Bytes stay bytes ----------------------------------------------------------------------------------

  lemma {:induction false} OctetUnescape(s: string)
    requires Octets(s) && QueryUnescape(s).Some?
    ensures Octets(QueryUnescape(s).value)
  {
    if s == "" {
    } else {
      OctetUnescape(if s[0] == '%' then s[3..] else s[1..]);
    }
  }

  lemma OctetCut(s: string, sep: char)
    requires Octets(s)
    ensures Octets(Cut(s, sep).0) && Octets(Cut(s, sep).1)
  {
    var (a, b) := Cut(s, sep);
    if sep in s {
      assert s[..|a|] == a && s[|a| + 1..] == b;
    }
  }

  lemma {:induction false} OctetParse(q: string)
    requires Octets(q)
    ensures forall p <- ParseQuery(q).values :: Octets(p.1)
    decreases |q|
  {
    if q == "" {
    } else {
      var (part, more) := Cut(q, '&');
      OctetCut(q, '&');
      OctetParse(more);
      var (k, v) := Cut(part, '=');
      OctetCut(part, '=');
      if QueryUnescape(v).Some? {
        OctetUnescape(v);
      }
    }
  }

  lemma {:induction false} GetFound(values: seq<(string, string)>, key: string)
    ensures Get(values, key) == "" || exists p :: p in values && p.1 == Get(values, key)
  {
    if values == [] {
    } else if values[0].0 == key {
      assert values[0] in values;
    } else {
      GetFound(values[1..], key);
    }
  }

  lemma OctetVersion(rawQuery: string)
    requires Octets(rawQuery)
    ensures Octets(VersionOf(rawQuery))
  {
    OctetParse(rawQuery);
    GetFound(ParseQuery(rawQuery).values, "v");
  }

  // ----- Normalization -----------------------------------------------------------------------------------------

  /** Parsing undoes the encoding of a version. */
  lemma ParseVersion(v: string)
    requires Octets(v)
    ensures VersionOf("v=" + QueryEscape(v)) == v
  {
    hide ParseQuery;
    EscapeV();
    ParsePair(("v", v));
    assert EncodedPair(("v", v)) == "v=" + QueryEscape(v);
  }

  lemma EscapeV()
    ensures QueryEscape("v") == "v"
  {
    var s := "v";
    assert s[1..] == "" && s[0] == 'v';
    assert QueryEscape(s[1..]) == "" && EscapeByte(s[0]) == "v";
  }

  /** On every route, normalizing again changes nothing. */
  lemma NormalizeIdempotent(path: string, rawQuery: string)
    requires Octets(rawQuery)
    ensures Octets(NormalizeCacheQuery(path, rawQuery))
    ensures NormalizeCacheQuery(path, NormalizeCacheQuery(path, rawQuery)) == NormalizeCacheQuery(path, rawQuery)
  {
    hide ParseQuery, QueryEscape, VersionOf;
    if !RouteOf(path).OtherRoute? && rawQuery != "" {
      OctetVersion(rawQuery);
      var v := VersionOf(rawQuery);
      if v != "" {
        ParseVersion(v);
        OctetEscaped(v);
      }
    }
  }

  /** On the three routes a query with a malformed part anywhere is normalized to none. */
  lemma MalformedDropped(path: string, a: string, part: string, b: string)
    requires Octets(a + "&" + (part + "&" + b)) && !RouteOf(path).OtherRoute? && Malformed(part)
    ensures NormalizeCacheQuery(path, a + "&" + (part + "&" + b)) == ""
  {
    hide ParseQuery, Malformed;
    MalformedAnywhere(a, part, b);
  }

  /** Of a query that encodes pairs only the first value of `v` is kept. */
  lemma FirstVersionKept(path: string, pairs: seq<(string, string)>, i: nat)
    requires forall p <- pairs :: Octets(p.0) && Octets(p.1)
    requires !RouteOf(path).OtherRoute?
    requires i <= |pairs| && forall j :: 0 <= j < i ==> pairs[j].0 != "v"
    ensures i == |pairs| ==> NormalizeCacheQuery(path, Encoded(pairs)) == ""
    ensures i < |pairs| && pairs[i].0 == "v" ==>
              NormalizeCacheQuery(path, Encoded(pairs))
              == if pairs[i].1 == "" then "" else "v=" + QueryEscape(pairs[i].1)
  {
    hide ParseQuery, QueryEscape, EncodedPair;
    ParseEncoded(pairs);
    GetFirst(pairs, "v", i);
  }

  /** On the three routes two queries are normalized alike if and only if they stand for the same version. */
  lemma NormalizeByVersion(path: string, a: string, b: string)
    requires Octets(a) && Octets(b) && !RouteOf(path).OtherRoute?
    ensures NormalizeCacheQuery(path, a) == NormalizeCacheQuery(path, b) <==> VersionOf(a) == VersionOf(b)
  {
    OctetVersion(a);
    OctetVersion(b);
    EscapeRoundTrip(VersionOf(a));
    EscapeRoundTrip(VersionOf(b));
    var x, y := NormalizeCacheQuery(path, a), NormalizeCacheQuery(path, b);
    if x == y && x != "" {
      assert x[2..] == QueryEscape(VersionOf(a)) && y[2..] == QueryEscape(VersionOf(b));
    }
  }

  // ----- Different requests, different keys -------------------------------------------------------------------

  /** The parts of a key that a request on the three routes can have; the path may hold any byte. */
  predicate Separable(p: Params) {
    ':' !in p.verb && '?' !in p.query && '|' !in p.query && '?' !in p.variant
  }

  lemma CutLastUnique(a: string, b: string, c: string, d: string, sep: char)
    requires a + [sep] + b == c + [sep] + d
    requires sep !in b && sep !in d
    ensures a == c && b == d
  {
    var s := a + [sep] + b;
    assert s[|a|] == sep && s[|c|] == sep;
    forall j | |a| < j < |s| ensures s[j] != sep {
      assert s[j] == b[j - |a| - 1];
    }
    forall j | |c| < j < |s| ensures s[j] != sep {
      assert s[j] == d[j - |c| - 1];
    }
    assert a == s[..|a|] && c == s[..|c|] && b == s[|a| + 1..] && d == s[|c| + 1..];
  }

  function VariantPart(variant: string): string {
    if variant == "" then "" else "|Variant=" + variant
  }

  /** A key determines the parameters it was made of, whatever bytes the path holds. */
  lemma KeyInjective(p: Params, q: Params)
    requires Separable(p) && Separable(q) && NewCacheKey(p) == NewCacheKey(q)
    ensures p == q
  {
    var a, b := p.query + VariantPart(p.variant), q.query + VariantPart(q.variant);
    assert NewCacheKey(p) == p.verb + [':'] + (p.path + ['?'] + a);
    assert NewCacheKey(q) == q.verb + [':'] + (q.path + ['?'] + b);
    CutUnique(p.verb, p.path + ['?'] + a, q.verb, q.path + ['?'] + b, ':');
    assert '?' !in a && '?' !in b;
    CutLastUnique(p.path, a, q.path, b, '?');
    TailInjective(p.query, p.variant, q.query, q.variant);
  }

  lemma TailInjective(q1: string, v1: string, q2: string, v2: string)
    requires '|' !in q1 && '|' !in q2 && q1 + VariantPart(v1) == q2 + VariantPart(v2)
    ensures q1 == q2 && v1 == v2
  {
    BarOfVariant(q1, v1);
    BarOfVariant(q2, v2);
    if v1 != "" && v2 != "" {
      hide VariantPart;
      CutUnique(q1, "Variant=" + v1, q2, "Variant=" + v2, '|');
      SameEnd(v1, v2);
    }
  }

  lemma SameEnd(v1: string, v2: string)
    requires "Variant=" + v1 == "Variant=" + v2
    ensures v1 == v2
  {
    assert ("Variant=" + v1)[8..] == v1 && ("Variant=" + v2)[8..] == v2;
  }

  lemma BarOfVariant(q: string, v: string)
    requires '|' !in q
    ensures v == "" <==> '|' !in q + VariantPart(v)
    ensures v == "" ==> q + VariantPart(v) == q
    ensures v != "" ==> q + VariantPart(v) == q + ['|'] + ("Variant=" + v)
  {
    if v != "" {
      assert (q + VariantPart(v))[|q|] == '|';
    }
  }

  lemma RequestSeparable(r: Request)
    requires Octets(r.rawQuery) && ':' !in r.verb && !RouteOf(r.path).OtherRoute?
    ensures Separable(ForRequest(r))
  {
    hide VersionOf, QueryEscape;
    OctetVersion(r.rawQuery);
    var q := NormalizeCacheQuery(r.path, r.rawQuery);
    forall c <- q ensures c != '?' && c != '|' {
      assert c in "v=" || c in QueryEscape(VersionOf(r.rawQuery));
    }
  }

  /** What a key says of a request: method, path, version and variant. */
  ghost predicate SameView(r: Request, s: Request) {
    && r.verb == s.verb && r.path == s.path && VersionOf(r.rawQuery) == VersionOf(s.rawQuery)
    && NormalizedVariant(r.path, r.hxRequest, r.hxTarget) == NormalizedVariant(s.path, s.hxRequest, s.hxTarget)
  }

  /** Requests on the three routes share a key if and only if they ask for the same view. */
  lemma SharedKey(r: Request, s: Request)
    requires Octets(r.rawQuery) && Octets(s.rawQuery) && ':' !in r.verb && ':' !in s.verb
    requires !RouteOf(r.path).OtherRoute? && !RouteOf(s.path).OtherRoute?
    ensures NewCacheKey(ForRequest(r)) == NewCacheKey(ForRequest(s)) <==> SameView(r, s)
  {
    RequestSeparable(r);
    RequestSeparable(s);
    if NewCacheKey(ForRequest(r)) == NewCacheKey(ForRequest(s)) {
      KeyInjective(ForRequest(r), ForRequest(s));
    }
    if r.path == s.path {
      NormalizeByVersion(r.path, r.rawQuery, s.rawQuery);
    }
  }

  /** The preloaded key is the key of the request, except for gallery requests that do not target gallery-content. */
  lemma PreloadKey(path: string, query: string, hxRequest: string, hxTarget: string)
    requires Octets(query)
    ensures NewCacheKey(ForPreload(path, query, PreloadVariantForPath(path)))
         == NewCacheKey(ForRequest(Request("GET", path, query, hxRequest, hxTarget)))
       <==> (RouteOf(path).Gallery? ==> hxRequest == "true" && hxTarget == "gallery-content")
  {
    var p := ForPreload(path, query, PreloadVariantForPath(path));
    var r := ForRequest(Request("GET", path, query, hxRequest, hxTarget));
    if p.variant != r.variant {
      RequestSeparable(Request("GET", path, query, hxRequest, hxTarget));
      if NewCacheKey(p) == NewCacheKey(r) {
        KeyInjective(p, r);
      }
    }
  }
}
