/** What a SigV4 signature binds. The text that is signed is read back line by line, so that with ideal
    primitives two equal signatures were made over the same request, at the same time, in the same
    scope and with the same secret. */
module SigV4Binding {
  import opened Base
  import opened Text
  import opened SigV4Canonical
  import opened SigV4
  import Calendar

  // ---- The signed text, as lines ----

  function HeaderTexts(h: seq<Header>): (r: seq<string>)
    ensures |r| == |h| && forall i :: 0 <= i < |h| ==> r[i] == h[i].name + ":" + h[i].value
  {
    seq(|h|, i requires 0 <= i < |h| => h[i].name + ":" + h[i].value)
  }

  /** Method, URI, query, one line per header, an empty line, the signed names and the payload hash. */
  function RequestLines(t: Target, h: seq<Header>): seq<string> {
    [t.method_, t.uri, t.query] + HeaderTexts(h) + ["", Join(Names(h), ';'), t.payloadHash]
  }

  function ScopeParts(k: KeyScope): seq<string> {
    [k.datestamp, k.region, k.service, "aws4_request"]
  }

  function SignedLines(c: Primitives, k: KeyScope, request: string, amzdate: string): seq<string> {
    ["AWS4-HMAC-SHA256", amzdate, Join(ScopeParts(k), '/'), c.sha256Hex(request)]
  }

  lemma {:induction false} HeaderLinesJoin(h: seq<Header>, rest: seq<string>)
    requires rest != []
    ensures Join(HeaderTexts(h) + rest, '\n') == HeaderLines(h) + Join(rest, '\n')
  {
    hide Join;
    if h == [] {
      assert HeaderTexts(h) + rest == rest;
    } else {
      HeaderLinesJoin(h[1..], rest);
      var line := h[0].name + ":" + h[0].value;
      assert HeaderTexts(h) + rest == [line] + (HeaderTexts(h[1..]) + rest);
      JoinCons(line, HeaderTexts(h[1..]) + rest, '\n');
    }
  }

  lemma JoinThree(a: string, b: string, d: string, c: char)
    ensures Join([a, b, d], c) == a + [c] + b + [c] + d
  {
    assert [a, b, d][1..] == [b, d] && [b, d][1..] == [d];
    assert Join([b, d], c) == b + [c] + d;
  }

  lemma JoinFour(a: string, b: string, d: string, e: string, c: char)
    ensures Join([a, b, d, e], c) == a + [c] + b + [c] + d + [c] + e
  {
    assert [a, b, d, e][1..] == [b, d, e];
    JoinThree(b, d, e, c);
  }

  lemma JoinCons(a: string, rest: seq<string>, c: char)
    requires rest != []
    ensures Join([a] + rest, c) == a + [c] + Join(rest, c)
  {
    assert ([a] + rest)[1..] == rest;
  }

  lemma JoinOnto(a: string, b: string, d: string, rest: seq<string>, c: char)
    requires rest != []
    ensures Join([a, b, d] + rest, c) == a + [c] + b + [c] + d + [c] + Join(rest, c)
  {
    JoinCons(a, [b, d] + rest, c);
    JoinCons(b, [d] + rest, c);
    JoinCons(d, rest, c);
    assert [a, b, d] + rest == [a] + ([b, d] + rest) && [b, d] + rest == [b] + ([d] + rest);
  }

  /** The canonical request is its lines. */
  lemma RequestIsLines(t: Target, h: seq<Header>)
    ensures CanonicalRequest(t, h) == Join(RequestLines(t, h), '\n')
  {
    var names := Join(Names(h), ';');
    var tail := ["", names, t.payloadHash];
    HeaderLinesJoin(h, tail);
    JoinThree("", names, t.payloadHash, '\n');
    assert RequestLines(t, h) == [t.method_, t.uri, t.query] + (HeaderTexts(h) + tail);
    JoinOnto(t.method_, t.uri, t.query, HeaderTexts(h) + tail, '\n');
  }

  /** The string to sign is the algorithm, the timestamp, the scope and the request's hash. */
  lemma StringIsLines(c: Primitives, k: KeyScope, request: string, amzdate: string)
    ensures StringToSign(c, k, request, amzdate) == Join(SignedLines(c, k, request, amzdate), '\n')
  {
    JoinFour(k.datestamp, k.region, k.service, SIGV4_TERMINATION, '/');
    JoinFour(SIGV4_ALGORITHM, amzdate, Join(ScopeParts(k), '/'), c.sha256Hex(request), '\n');
  }

  /** Keys derived one from another, by a text each. */
  function KeyChain(c: Primitives, key: string, texts: seq<string>): string
    decreases |texts|
  {
    if texts == [] then key else KeyChain(c, c.hmac(key, texts[0]), texts[1..])
  }

  /** The signing key is derived from the prefixed secret by date, region, service and terminator. */
  lemma KeyIsChain(c: Primitives, secret: string, k: KeyScope)
    ensures SigningKey(c, secret, k) == KeyChain(c, "AWS4" + secret, ScopeParts(k))
  {
    var p := ScopeParts(k);
    assert p[1..][0] == k.region && p[1..][1..][0] == k.service && p[1..][1..][1..][0] == SIGV4_TERMINATION;
    assert p[1..][1..][1..][1..] == [];
    var k1 := c.hmac("AWS4" + secret, k.datestamp);
    var k2 := c.hmac(k1, k.region);
    var k3 := c.hmac(k2, k.service);
    assert KeyChain(c, k3, p[1..][1..][1..]) == c.hmac(k3, SIGV4_TERMINATION);
    assert KeyChain(c, k2, p[1..][1..]) == KeyChain(c, k3, p[1..][1..][1..]);
  }

  // ---- Reading it back ----

  predicate CleanTarget(t: Target) {
    '\n' !in t.method_ && '\n' !in t.uri && '\n' !in t.query && '\n' !in t.payloadHash
  }

  predicate CleanScope(k: KeyScope) {
    && '\n' !in k.datestamp && '\n' !in k.region && '\n' !in k.service
    && '/' !in k.datestamp && '/' !in k.region && '/' !in k.service
  }

  predicate CleanHeaders(h: seq<Header>) {
    forall i :: 0 <= i < |h| ==> '\n' !in h[i].name && ';' !in h[i].name && '\n' !in h[i].value
  }

  lemma {:induction false} JoinKeepsFree(parts: seq<string>, c: char, d: char)
    requires Free(parts, d) && c != d
    ensures d !in Join(parts, c)
  {
    if |parts| > 1 {
      JoinKeepsFree(parts[1..], c, d);
    }
  }

  lemma LinesFree(t: Target, h: seq<Header>)
    requires CleanTarget(t) && CleanHeaders(h)
    ensures Free(RequestLines(t, h), '\n')
  {
    JoinKeepsFree(Names(h), ';', '\n');
    var lines := RequestLines(t, h);
    forall i | 0 <= i < |lines| ensures '\n' !in lines[i] {
      if 3 <= i < 3 + |h| {
        assert lines[i] == HeaderTexts(h)[i - 3];
      }
    }
  }

  lemma NamesRead(h: seq<Header>, g: seq<Header>)
    requires CleanHeaders(h) && CleanHeaders(g) && |h| == |g| && Join(Names(h), ';') == Join(Names(g), ';')
    ensures Names(h) == Names(g)
  {
    if h != [] {
      JoinInjective(Names(h), Names(g), ';');
    }
  }

  lemma ValueReads(name: string, v: string, w: string)
    requires name + ":" + v == name + ":" + w
    ensures v == w
  {
    var n := |name| + 1;
    assert (name + ":" + v)[n..] == v && (name + ":" + w)[n..] == w;
  }

  /** Equal canonical requests are of the same target and the same headers. */
  lemma RequestReads(t: Target, h: seq<Header>, u: Target, g: seq<Header>)
    requires CleanTarget(t) && CleanHeaders(h) && CleanTarget(u) && CleanHeaders(g)
    requires CanonicalRequest(t, h) == CanonicalRequest(u, g)
    ensures t == u && h == g
  {
    hide CanonicalRequest, CleanTarget, Join, CleanHeaders;
    RequestIsLines(t, h);
    RequestIsLines(u, g);
    LinesFree(t, h);
    LinesFree(u, g);
    var a, b := RequestLines(t, h), RequestLines(u, g);
    JoinInjective(a, b, '\n');
    var n := |h|;
    assert |a| == n + 6 && |b| == |g| + 6;
    assert a[0] == t.method_ && a[1] == t.uri && a[2] == t.query && a[n + 5] == t.payloadHash;
    assert b[0] == u.method_ && b[1] == u.uri && b[2] == u.query && b[n + 5] == u.payloadHash;
    assert a[n + 4] == Join(Names(h), ';') && b[n + 4] == Join(Names(g), ';');
    NamesRead(h, g);
    forall i | 0 <= i < n ensures h[i] == g[i] {
      assert Names(h)[i] == Names(g)[i];
      assert a[i + 3] == HeaderTexts(h)[i] && b[i + 3] == HeaderTexts(g)[i];
      ValueReads(h[i].name, h[i].value, g[i].value);
    }
  }

  /** The primitives as they are meant to be: no two inputs give one output, and a hash is one line. */
  ghost predicate Ideal(c: Primitives) {
    && (forall x, y :: c.sha256Hex(x) == c.sha256Hex(y) ==> x == y)
    && (forall x, y :: c.hex(x) == c.hex(y) ==> x == y)
    && (forall k, x, l, y :: c.hmac(k, x) == c.hmac(l, y) ==> k == l && x == y)
    && (forall x :: '\n' !in c.sha256Hex(x))
  }

  /** A signing key belongs to one secret and one scope. */
  lemma KeyBinds(c: Primitives, secret: string, k: KeyScope, secret': string, k': KeyScope)
    requires Ideal(c) && SigningKey(c, secret, k) == SigningKey(c, secret', k')
    ensures secret == secret' && k == k'
  {
    assert SIGV4_KEY_PREFIX + secret == SIGV4_KEY_PREFIX + secret';
    assert (SIGV4_KEY_PREFIX + secret)[4..] == secret && (SIGV4_KEY_PREFIX + secret')[4..] == secret';
  }

  lemma ScopeTextClean(k: KeyScope)
    requires CleanScope(k)
    ensures '\n' !in Join(ScopeParts(k), '/')
  {
    JoinKeepsFree(ScopeParts(k), '/', '\n');
  }

  /** Equal strings to sign carry the same timestamp and request. */
  lemma StringReads(c: Primitives, k: KeyScope, request: string, amzdate: string, k': KeyScope, request': string, amzdate': string)
    requires Ideal(c) && CleanScope(k) && CleanScope(k') && '\n' !in amzdate && '\n' !in amzdate'
    requires StringToSign(c, k, request, amzdate) == StringToSign(c, k', request', amzdate')
    ensures amzdate == amzdate' && request == request' && Join(ScopeParts(k), '/') == Join(ScopeParts(k'), '/')
  {
    hide StringToSign, CleanScope, Join;
    StringIsLines(c, k, request, amzdate);
    StringIsLines(c, k', request', amzdate');
    ScopeTextClean(k);
    ScopeTextClean(k');
    var a, b := SignedLines(c, k, request, amzdate), SignedLines(c, k', request', amzdate');
    JoinInjective(a, b, '\n');
    assert a[1] == b[1] && a[2] == b[2] && a[3] == b[3];
  }

  /** Equal signatures were made with one secret, in one scope, at one time, over one target and one list
      of signed names and values. */
  lemma SignatureBinds(c: Primitives, secret: string, k: KeyScope, t: Target, h: seq<Header>, amzdate: string,
                       secret': string, k': KeyScope, t': Target, h': seq<Header>, amzdate': string)
    requires Ideal(c)
    requires CleanScope(k) && CleanTarget(t) && CleanHeaders(h) && '\n' !in amzdate
    requires CleanScope(k') && CleanTarget(t') && CleanHeaders(h') && '\n' !in amzdate'
    requires SignatureOver(c, secret, k, t, h, amzdate).signature == SignatureOver(c, secret', k', t', h', amzdate').signature
    ensures secret == secret' && k == k' && t == t' && h == h' && amzdate == amzdate'
  {
    hide StringToSign, CanonicalRequest, SigningKey;
    KeyBinds(c, secret, k, secret', k');
    StringReads(c, k, CanonicalRequest(t, h), amzdate, k', CanonicalRequest(t', h'), amzdate');
    RequestReads(t, h, t', h');
  }

  // ---- What two accepted requests with one claim share ----

  lemma {:induction false} SplitKeepsFree(s: string, c: char, d: char)
    requires d !in s
    ensures Free(Split(s, c), d)
    decreases |s|
  {
    var i := IndexOf(s, c);
    if i < |s| {
      SplitKeepsFree(s[i + 1..], c, d);
    }
  }

  lemma {:induction false} WordsKeepFree(v: string, d: char)
    requires d !in v
    ensures Free(Words(v), d)
  {
    if v != "" {
      WordsKeepFree(v[..|v| - 1], d);
    }
  }

  lemma CanonicalKeepsFree(v: string)
    requires '\n' !in v
    ensures '\n' !in Canonical(v)
  {
    WordsKeepFree(v, '\n');
    JoinKeepsFree(Words(v), ' ', '\n');
  }

  /** What an accepted request was verified over: the claimed names, in their order, with the canonical
      values the request gives them. */
  function Accepted(req: InboundRequest, names: seq<string>): seq<Header>
    requires forall i :: 0 <= i < |names| ==> Lookup(req.headers, names[i]).Some?
  {
    seq(|names|, i requires 0 <= i < |names| => Header(names[i], Canonical(Lookup(req.headers, names[i]).value)))
  }

  lemma SelectionSignsAsListed(headers: seq<Header>, names: seq<string>, fold: string -> string)
    requires Select(headers, names).Some?
    requires forall i :: 0 <= i < |names| ==> fold(names[i]) == names[i] == Lower(names[i])
    requires forall i, j :: 0 <= i < j < |names| ==> Leq(names[i], names[j])
    ensures forall i :: 0 <= i < |names| ==> Lookup(headers, names[i]).Some?
    ensures var h := Signed(Select(headers, names).value, fold);
      |h| == |names| && forall i :: 0 <= i < |names| ==> h[i] == Header(names[i], Canonical(Lookup(headers, names[i]).value))
  {
    hide Select, Lookup, Canonical, Lower, Leq;
    SelectMeaning(headers, names);
    var folded := FoldedAll(Select(headers, names).value, fold);
    forall i | 0 <= i < |names|
      ensures folded[i] == Header(names[i], Canonical(Lookup(headers, names[i]).value))
    {
      assert fold(Lower(names[i])) == names[i];
    }
    SortIdempotent(folded);
  }

  predicate CleanRequest(req: InboundRequest) {
    CleanTarget(req.target) && forall i :: 0 <= i < |req.headers| ==> '\n' !in req.headers[i].value
  }

  lemma {:induction false} LookupFrom(headers: seq<Header>, name: string)
    requires forall i :: 0 <= i < |headers| ==> '\n' !in headers[i].value
    ensures Lookup(headers, name).Some? ==> '\n' !in Lookup(headers, name).value
  {
    if headers != [] {
      LookupFrom(headers[1..], name);
    }
  }

  /** An accepted request carries the claim's signature over what the claim lists. */
  lemma AcceptedSignature(c: Primitives, p: ParsedAuth, req: InboundRequest, secret: string, now: nat)
    requires Lowercasing(c.toLowercase) && Verified(c, p, req, secret, now) == Ok
    requires CleanRequest(req) && '\n' !in p.signedHeaders
    ensures var names := Split(p.signedHeaders, ';');
      && (forall i :: 0 <= i < |names| ==> Lookup(req.headers, names[i]).Some?)
      && CleanHeaders(Accepted(req, names)) && '\n' !in req.amzdate
      && p.signature == SignatureOver(c, secret, p.scope, req.target, Accepted(req, names), req.amzdate).signature
  {
    hide Verified, Select, Lookup, SignatureOver, Signed, Canonical, Lower, Leq, Split, Calendar.ParseAmzDate;
    var names := Split(p.signedHeaders, ';');
    AcceptedMeansCanonical(c, p, req, secret, now);
    Calendar.ParsedShape(req.amzdate);
    SelectMeaning(req.headers, names);
    SelectionSignsAsListed(req.headers, names, c.toLowercase);
    SplitKeepsFree(p.signedHeaders, ';', '\n');
    JoinSplit(p.signedHeaders, ';');
    var h := Accepted(req, names);
    assert h == Signed(Select(req.headers, names).value, c.toLowercase);
    forall i | 0 <= i < |h| ensures '\n' !in h[i].name && ';' !in h[i].name && '\n' !in h[i].value {
      LookupFrom(req.headers, names[i]);
      CanonicalKeepsFree(Lookup(req.headers, names[i]).value);
    }
  }

  /** One claim is accepted for one request: whatever two accepted requests with it are, they agree on
      secret, method, URI, query, payload hash and timestamp, and on the canonical value of every signed
      header. */
  lemma AcceptedRequestsAgree(c: Primitives, p: ParsedAuth, req: InboundRequest, secret: string, now: nat,
                              req': InboundRequest, secret': string, now': nat)
    requires Ideal(c) && Lowercasing(c.toLowercase)
    requires Verified(c, p, req, secret, now) == Ok && Verified(c, p, req', secret', now') == Ok
    requires CleanRequest(req) && CleanRequest(req') && CleanScope(p.scope) && '\n' !in p.signedHeaders
    ensures secret == secret' && req.target == req'.target && req.amzdate == req'.amzdate
    ensures forall name :: name in Split(p.signedHeaders, ';') ==>
      var v, w := Lookup(req.headers, name), Lookup(req'.headers, name);
      v.Some? && w.Some? && Canonical(v.value) == Canonical(w.value)
  {
    hide Verified, SignatureOver, Lookup, Canonical, Split, CleanRequest, CleanScope, Lowercasing, Ideal, CleanHeaders;
    var names := Split(p.signedHeaders, ';');
    AcceptedSignature(c, p, req, secret, now);
    AcceptedSignature(c, p, req', secret', now');
    assert CleanTarget(req.target) && CleanTarget(req'.target) by {
      TargetsClean(req);
      TargetsClean(req');
    }
    SignatureBinds(c, secret, p.scope, req.target, Accepted(req, names), req.amzdate,
                   secret', p.scope, req'.target, Accepted(req', names), req'.amzdate);
    forall name | name in names
      ensures var v, w := Lookup(req.headers, name), Lookup(req'.headers, name);
        v.Some? && w.Some? && Canonical(v.value) == Canonical(w.value)
    {
      var i :| 0 <= i < |names| && names[i] == name;
      assert Accepted(req, names)[i] == Accepted(req', names)[i];
    }
  }

  lemma TargetsClean(req: InboundRequest)
    requires CleanRequest(req)
    ensures CleanTarget(req.target)
  {
  }
}
