/** SigV4 signing and inbound verification. SHA-256, HMAC and Unicode lower-casing are parameters:
    nothing here depends on what the first two compute, only on signer and verifier using the same
    ones. */
module SigV4 {
  import opened Base
  import opened Text
  import opened SigV4Canonical
  import Calendar

  const SIGV4_ALGORITHM := "AWS4-HMAC-SHA256"
  const SIGV4_TERMINATION := "aws4_request"
  const SIGV4_KEY_PREFIX := "AWS4"
  const CLOCK_SKEW_SECS: nat := 300
  const HOST := "host"

  /** Lower-case hex SHA-256, HMAC-SHA256 of data under a key, hex of a digest, and the signer's
      lower-casing of header names. The verifier itself folds ASCII only. */
  datatype Primitives = Primitives(
    sha256Hex: string -> string, hmac: (string, string) -> string, hex: string -> string,
    toLowercase: string -> string)

  /** What is signed besides the headers. */
  datatype Target = Target(method_: string, uri: string, query: string, payloadHash: string)

  /** The credential scope. */
  datatype KeyScope = KeyScope(datestamp: string, region: string, service: string)

  datatype Signature = Signature(signature: string, signedHeaders: string)

  function SigningKey(c: Primitives, secret: string, k: KeyScope): string {
    var date := c.hmac(SIGV4_KEY_PREFIX + secret, k.datestamp);
    var region := c.hmac(date, k.region);
    var service := c.hmac(region, k.service);
    c.hmac(service, SIGV4_TERMINATION)
  }

  function HeaderLines(h: seq<Header>): string {
    if h == [] then "" else h[0].name + ":" + h[0].value + "\n" + HeaderLines(h[1..])
  }

  /** `sign_v4`: the signature and the signed-header list of a request. */
  function SignV4(c: Primitives, secret: string, k: KeyScope, t: Target, headers: seq<Header>, amzdate: string): Signature {
    SignatureOver(c, secret, k, t, Signed(headers, c.toLowercase), amzdate)
  }

  function CanonicalRequest(t: Target, h: seq<Header>): string {
    t.method_ + "\n" + t.uri + "\n" + t.query + "\n" + HeaderLines(h) + "\n" + Join(Names(h), ';') + "\n" + t.payloadHash
  }

  function StringToSign(c: Primitives, k: KeyScope, request: string, amzdate: string): string {
    var scope := k.datestamp + "/" + k.region + "/" + k.service + "/" + SIGV4_TERMINATION;
    SIGV4_ALGORITHM + "\n" + amzdate + "\n" + scope + "\n" + c.sha256Hex(request)
  }

  function SignatureOver(c: Primitives, secret: string, k: KeyScope, t: Target, h: seq<Header>, amzdate: string): Signature {
    var toSign := StringToSign(c, k, CanonicalRequest(t, h), amzdate);
    Signature(c.hex(c.hmac(SigningKey(c, secret, k), toSign)), Join(Names(h), ';'))
  }

  datatype ParsedAuth = ParsedAuth(
    accessKeyId: string, scope: KeyScope, signedHeaders: string, signature: string)

  datatype VerifyError =
    | MissingAuthorization
    | MalformedAuthorization
    | MissingDate
    | Expired
    | SignedHeadersMismatch
    | SignatureMismatch

  datatype Verdict = Ok | Err(error: VerifyError)

  datatype InboundRequest = InboundRequest(target: Target, headers: seq<Header>, amzdate: string)

  /** The first request header of a name, whatever its case. */
  function Lookup(headers: seq<Header>, name: string): Option<string> {
    if headers == [] then None
    else if Lower(headers[0].name) == Lower(name) then Some(headers[0].value)
    else Lookup(headers[1..], name)
  }

  /** The request's values for the listed names, in their order; nothing if one is absent. */
  function Select(headers: seq<Header>, names: seq<string>): Option<seq<Header>> {
    if names == [] then Some([])
    else
      var before, value := Select(headers, names[..|names| - 1]), Lookup(headers, names[|names| - 1]);
      if before.None? || value.None? then None
      else Some(before.value + [Header(Lower(names[|names| - 1]), value.value)])
  }

  predicate NamesHost(names: seq<string>) {
    exists i :: 0 <= i < |names| && Lower(names[i]) == HOST
  }

  function Distance(a: nat, b: nat): nat {
    if a < b then b - a else a - b
  }

  function Verified(c: Primitives, p: ParsedAuth, req: InboundRequest, secret: string, now: nat): Verdict {
    var epoch := Calendar.ParseAmzDate(req.amzdate);
    if epoch.None? then Err(MissingDate)
    else if Distance(epoch.value, now) > CLOCK_SKEW_SECS then Err(Expired)
    else if |req.amzdate| < 8 || p.scope.datestamp != req.amzdate[0..8] then Err(MalformedAuthorization)
    else
      var names := Split(p.signedHeaders, ';');
      if !NamesHost(names) || Select(req.headers, names).None? then Err(SignedHeadersMismatch)
      else
        var computed := SignV4(c, secret, p.scope, req.target, Select(req.headers, names).value, req.amzdate);
        if computed.signedHeaders == p.signedHeaders && computed.signature == p.signature then Ok
        else Err(SignatureMismatch)
  }

  // ---- The verifier as written ----

  /** `constant_time_eq`: accumulate every difference, and branch once. It is equality. */
  method ConstantTimeEq(a: seq<bv8>, b: seq<bv8>) returns (equal: bool)
    ensures equal <==> a == b
  {
    if |a| != |b| {
      return false;
    }
    var result: bv8 := 0;
    for i := 0 to |a|
      invariant result == 0 <==> a[..i] == b[..i]
    {
      OrXorZero(result, a[i], b[i]);
      assert a[..i + 1] == a[..i] + [a[i]] && b[..i + 1] == b[..i] + [b[i]];
      result := result | (a[i] ^ b[i]);
    }
    assert a[..|a|] == a && b[..|b|] == b;
    equal := result == 0;
  }

  /** A difference once seen is never cancelled. */
  lemma OrXorZero(r: bv8, x: bv8, y: bv8)
    ensures r | (x ^ y) == 0 <==> r == 0 && x == y
  {
  }

  method FindHeader(headers: seq<Header>, name: string) returns (value: Option<string>)
    ensures value == Lookup(headers, name)
  {
    var i := 0;
    while i < |headers|
      invariant 0 <= i <= |headers|
      invariant Lookup(headers, name) == Lookup(headers[i..], name)
    {
      if Lower(headers[i].name) == Lower(name) {
        return Some(headers[i].value);
      }
      assert headers[i..][1..] == headers[i + 1..];
      i := i + 1;
    }
    value := None;
  }

  method VerifyInboundSigv4(c: Primitives, parsed: ParsedAuth, req: InboundRequest, secret: string, now: nat)
    returns (r: Verdict)
    ensures r == Verified(c, parsed, req, secret, now)
  {
    var epoch := Calendar.ParseAmzDate(req.amzdate);
    if epoch.None? {
      return Err(MissingDate);
    }
    if Distance(epoch.value, now) > CLOCK_SKEW_SECS {
      return Err(Expired);
    }
    if |req.amzdate| < 8 || parsed.scope.datestamp != req.amzdate[0..8] {
      return Err(MalformedAuthorization);
    }
    var names := Split(parsed.signedHeaders, ';');
    if !NamesHost(names) {
      return Err(SignedHeadersMismatch);
    }
    var selected: seq<Header> := [];
    for i := 0 to |names|
      invariant Select(req.headers, names[..i]) == Some(selected)
    {
      var lname := Lower(names[i]);
      var value := FindHeader(req.headers, lname);
      LookupFolds(req.headers, names[i]);
      assert names[..i + 1][..i] == names[..i];
      if value.None? {
        SelectFails(req.headers, names, i + 1);
        return Err(SignedHeadersMismatch);
      }
      selected := selected + [Header(lname, value.value)];
    }
    assert names[..|names|] == names;
    var computed := SignV4(c, secret, parsed.scope, req.target, selected, req.amzdate);
    var headersOk := computed.signedHeaders == parsed.signedHeaders;
    var sigOk := computed.signature == parsed.signature;
    r := if headersOk && sigOk then Ok else Err(SignatureMismatch);
  }

  lemma {:induction false} LookupFolds(headers: seq<Header>, name: string)
    ensures Lookup(headers, Lower(name)) == Lookup(headers, name)
  {
    LowerFacts(name);
    if headers != [] {
      LookupFolds(headers[1..], name);
    }
  }

  lemma {:induction false} SelectFails(headers: seq<Header>, names: seq<string>, n: nat)
    requires n <= |names| && Select(headers, names[..n]).None?
    ensures Select(headers, names).None?
    decreases |names|
  {
    if n == |names| {
      assert names[..n] == names;
    } else {
      assert names[..|names| - 1][..n] == names[..n];
      SelectFails(headers, names[..|names| - 1], n);
    }
  }

  lemma {:induction false} SelectMeaning(headers: seq<Header>, names: seq<string>)
    ensures var s := Select(headers, names);
      && (s.Some? <==> forall i :: 0 <= i < |names| ==> Lookup(headers, names[i]).Some?)
      && (s.Some? ==> |s.value| == |names| && forall i :: 0 <= i < |names| ==>
            s.value[i] == Header(Lower(names[i]), Lookup(headers, names[i]).value))
  {
    if names != [] {
      var n := |names| - 1;
      SelectMeaning(headers, names[..n]);
      assert forall i :: 0 <= i < n ==> names[i] == names[..n][i];
    }
  }

  // ---- The verifier accepts what the signer signed ----

  /** The request carries every signed header, under a name that differs from the folded one at most in
      ASCII case, with a value of the same canonical form. Order, extra headers and space padding are
      free. */
  predicate Carries(request: seq<Header>, signed: seq<Header>, fold: string -> string) {
    forall j :: 0 <= j < |signed| ==>
      var v := Lookup(request, fold(signed[j].name));
      v.Some? && Canonical(v.value) == Canonical(signed[j].value)
  }

  lemma {:induction false} LookupFinds(headers: seq<Header>, i: nat, name: string)
    requires i < |headers| && Lower(headers[i].name) == Lower(name)
    requires forall k :: 0 <= k < i ==> Lower(headers[k].name) != Lower(name)
    ensures Lookup(headers, name) == Some(headers[i].value)
  {
    if i > 0 {
      LookupFinds(headers[1..], i - 1, name);
    }
  }

  lemma {:induction false} LookupMisses(headers: seq<Header>, name: string)
    requires forall k :: 0 <= k < |headers| ==> Lower(headers[k].name) != Lower(name)
    ensures Lookup(headers, name).None?
  {
    if headers != [] {
      LookupMisses(headers[1..], name);
    }
  }

  /** The first request header of that name is this one, re-cased and with its value padded by spaces. */
  predicate Reworked(request: seq<Header>, h: Header, i: nat, before: nat, after: nat) {
    && i < |request|
    && Lower(request[i].name) == Lower(h.name)
    && (forall k :: 0 <= k < i ==> Lower(request[k].name) != Lower(h.name))
    && request[i].value == Spaces(before) + h.value + Spaces(after)
  }

  /** Reordering, re-casing, space padding and unrelated extra headers, repeated ones included, keep a
      request signed under ASCII names acceptable. */
  lemma ReworkedRequestCarries(request: seq<Header>, signed: seq<Header>, fold: string -> string)
    requires Lowercasing(fold) && forall j :: 0 <= j < |signed| ==> Ascii(signed[j].name)
    requires forall j :: 0 <= j < |signed| ==> exists i, a, b :: Reworked(request, signed[j], i, a, b)
    ensures Carries(request, signed, fold)
  {
    forall j | 0 <= j < |signed|
      ensures var v := Lookup(request, fold(signed[j].name));
        v.Some? && Canonical(v.value) == Canonical(signed[j].value)
    {
      var i, a, b :| Reworked(request, signed[j], i, a, b);
      LowerFacts(signed[j].name);
      FoldFacts(fold, signed[j].name);
      LookupFinds(request, i, fold(signed[j].name));
      PaddingIsIgnored(a, signed[j].value, b);
    }
  }

  predicate NoSemicolons(headers: seq<Header>) {
    forall j :: 0 <= j < |headers| ==> ';' !in headers[j].name
  }

  /** The claimed list reads back as the signed names. */
  lemma SignedNamesRead(signed: seq<Header>, fold: string -> string)
    requires Lowercasing(fold) && signed != [] && NoSemicolons(signed)
    ensures var names := Names(Signed(signed, fold)); names != [] && Split(Join(names, ';'), ';') == names
  {
    hide Signed, Lowercasing;
    SignedFrom(signed, fold);
    var names := Names(Signed(signed, fold));
    forall i | 0 <= i < |names| ensures ';' !in names[i] {
      var j :| 0 <= j < |signed| && Signed(signed, fold)[i] == Folded(signed[j], fold);
      FoldFacts(fold, signed[j].name);
    }
    SplitJoin(names, ';');
  }

  /** The signed names are found in the request exactly when each folded name is. */
  lemma SelectsSigned(request: seq<Header>, signed: seq<Header>, fold: string -> string)
    ensures Select(request, Names(Signed(signed, fold))).Some? <==>
      forall j :: 0 <= j < |signed| ==> Lookup(request, fold(signed[j].name)).Some?
  {
    hide Signed, Select, Lookup;
    var h := Signed(signed, fold);
    SignedFrom(signed, fold);
    SelectMeaning(request, Names(h));
    forall j | 0 <= j < |signed|
      ensures exists i :: 0 <= i < |h| && Names(h)[i] == fold(signed[j].name)
    {
      assert Folded(signed[j], fold) in h;
      var i :| 0 <= i < |h| && h[i] == Folded(signed[j], fold);
      assert Names(h)[i] == fold(signed[j].name);
    }
    forall i | 0 <= i < |h|
      ensures exists j :: 0 <= j < |signed| && Names(h)[i] == fold(signed[j].name)
    {
      var j :| 0 <= j < |signed| && h[i] == Folded(signed[j], fold);
      assert Names(h)[i] == fold(signed[j].name);
    }
  }

  predicate HeaderCarried(request: seq<Header>, h: Header, fold: string -> string) {
    && fold(Lower(h.name)) == h.name
    && Lookup(request, h.name).Some? && Canonical(Lookup(request, h.name).value) == h.value
  }

  /** A sorted list of carried headers, selected again by name, signs to itself. */
  lemma SelectCarried(request: seq<Header>, h: seq<Header>, fold: string -> string)
    requires SortedByName(h) && forall i :: 0 <= i < |h| ==> HeaderCarried(request, h[i], fold)
    ensures Select(request, Names(h)).Some? && Signed(Select(request, Names(h)).value, fold) == h
  {
    var names := Names(h);
    SelectMeaning(request, names);
    var again := FoldedAll(Select(request, names).value, fold);
    forall i | 0 <= i < |h| ensures again[i] == h[i] {
      assert HeaderCarried(request, h[i], fold);
    }
    assert again == h;
    SortIdempotent(h);
  }

  /** Reading the signed names back from the list and looking them up signs the same headers again. */
  lemma SelectedSignSame(request: seq<Header>, signed: seq<Header>, fold: string -> string)
    requires Lowercasing(fold) && Carries(request, signed, fold)
    ensures var names := Names(Signed(signed, fold));
      Select(request, names).Some? && Signed(Select(request, names).value, fold) == Signed(signed, fold)
  {
    hide Lowercasing;
    var h := Signed(signed, fold);
    SignedFrom(signed, fold);
    forall i | 0 <= i < |h| ensures HeaderCarried(request, h[i], fold) {
      var j :| 0 <= j < |signed| && h[i] == Folded(signed[j], fold);
      FoldFacts(fold, signed[j].name);
    }
    SelectCarried(request, h, fold);
  }

  lemma HostIsAscii(name: string)
    requires Lower(name) == HOST
    ensures Ascii(name)
  {
    forall i | 0 <= i < |name| ensures name[i] as int < 128 {
      assert Lower(name)[i] == LowerChar(name[i]) == HOST[i];
    }
  }

  lemma HostIsNamed(signed: seq<Header>, fold: string -> string)
    requires Lowercasing(fold) && NamesHost(Names(signed))
    ensures NamesHost(Names(Signed(signed, fold)))
  {
    SignedFrom(signed, fold);
    var j :| 0 <= j < |signed| && Lower(Names(signed)[j]) == HOST;
    HostIsAscii(signed[j].name);
    FoldFacts(fold, signed[j].name);
    assert Folded(signed[j], fold) in Signed(signed, fold);
    var i :| 0 <= i < |signed| && Signed(signed, fold)[i] == Folded(signed[j], fold);
    LowerFacts(signed[j].name);
    assert Lower(Names(Signed(signed, fold))[i]) == HOST;
  }

  /** What the signer sends: its claim, and the request it stands in. */
  function Claim(c: Primitives, secret: string, accessKeyId: string, region: string, service: string,
                 t: Target, signed: seq<Header>, epoch: nat): ParsedAuth {
    var (amzdate, datestamp) := Calendar.FormatAmzTime(epoch);
    var k := KeyScope(datestamp, region, service);
    var s := SignV4(c, secret, k, t, signed, amzdate);
    ParsedAuth(accessKeyId, k, s.signedHeaders, s.signature)
  }

  function Sent(t: Target, request: seq<Header>, epoch: nat): InboundRequest {
    InboundRequest(t, request, Calendar.FormatAmzTime(epoch).0)
  }

  /** The checks before the headers pass on what was signed within the clock skew. */
  lemma DatesPass(c: Primitives, p: ParsedAuth, req: InboundRequest, secret: string, epoch: nat, now: nat)
    requires epoch < Calendar.YEAR_10000 && Distance(epoch, now) <= CLOCK_SKEW_SECS
    requires req.amzdate == Calendar.FormatAmzTime(epoch).0 && p.scope.datestamp == Calendar.FormatAmzTime(epoch).1
    ensures var names := Split(p.signedHeaders, ';');
      Verified(c, p, req, secret, now) ==
        if !NamesHost(names) || Select(req.headers, names).None? then Err(SignedHeadersMismatch)
        else if SignV4(c, secret, p.scope, req.target, Select(req.headers, names).value, req.amzdate) ==
                Signature(p.signature, p.signedHeaders) then Ok
        else Err(SignatureMismatch)
  {
    hide Calendar.FormatAmzTime, Calendar.ParseAmzDate, SignV4, Select, Split;
    Calendar.FormatParseRoundTrip(epoch);
    Calendar.StampIsPrefix(epoch);
    assert req.amzdate[0..8] == req.amzdate[..8];
  }

  lemma ClaimedNames(c: Primitives, secret: string, k: KeyScope, t: Target, signed: seq<Header>, amzdate: string)
    requires Lowercasing(c.toLowercase) && NamesHost(Names(signed)) && NoSemicolons(signed)
    ensures var names := Split(SignV4(c, secret, k, t, signed, amzdate).signedHeaders, ';');
      names == Names(Signed(signed, c.toLowercase)) && NamesHost(names)
  {
    SignedNamesRead(signed, c.toLowercase);
    HostIsNamed(signed, c.toLowercase);
    assert SignV4(c, secret, k, t, signed, amzdate).signedHeaders == Join(Names(Signed(signed, c.toLowercase)), ';');
  }

  /** Every request signed at `epoch` over headers that include host is accepted within the clock skew,
      however its headers were reordered, re-cased, padded or added to on the way. */
  lemma SignedRequestIsAccepted(c: Primitives, secret: string, accessKeyId: string, region: string, service: string,
                                t: Target, signed: seq<Header>, request: seq<Header>, epoch: nat, now: nat)
    requires Lowercasing(c.toLowercase) && NamesHost(Names(signed)) && NoSemicolons(signed)
    requires Carries(request, signed, c.toLowercase)
    requires epoch < Calendar.YEAR_10000 && Distance(epoch, now) <= CLOCK_SKEW_SECS
    ensures Verified(c, Claim(c, secret, accessKeyId, region, service, t, signed, epoch),
                     Sent(t, request, epoch), secret, now) == Ok
  {
    var p, req := Claim(c, secret, accessKeyId, region, service, t, signed, epoch), Sent(t, request, epoch);
    ClaimedNames(c, secret, p.scope, t, signed, req.amzdate);
    SelectedSignSame(request, signed, c.toLowercase);
    DatesPass(c, p, req, secret, epoch, now);
  }

  /** Whatever names were signed, the header check refuses exactly the requests in which some folded name
      is not found ignoring ASCII case. */
  lemma MismatchExactlyWhenMissing(c: Primitives, secret: string, accessKeyId: string, region: string, service: string,
                                   t: Target, signed: seq<Header>, request: seq<Header>, epoch: nat, now: nat)
    requires Lowercasing(c.toLowercase) && NamesHost(Names(signed)) && NoSemicolons(signed)
    requires epoch < Calendar.YEAR_10000 && Distance(epoch, now) <= CLOCK_SKEW_SECS
    ensures Verified(c, Claim(c, secret, accessKeyId, region, service, t, signed, epoch),
                     Sent(t, request, epoch), secret, now) == Err(SignedHeadersMismatch) <==>
      exists j :: 0 <= j < |signed| && Lookup(request, c.toLowercase(signed[j].name)).None?
  {
    var p, req := Claim(c, secret, accessKeyId, region, service, t, signed, epoch), Sent(t, request, epoch);
    ClaimedNames(c, secret, p.scope, t, signed, req.amzdate);
    SelectsSigned(request, signed, c.toLowercase);
    DatesPass(c, p, req, secret, epoch, now);
  }

  /** A request sent just as it was signed is refused when a name holds a capital outside ASCII: the
      signer folds it and the verifier does not. */
  lemma UnicodeNameIsRefused(c: Primitives, secret: string, accessKeyId: string, region: string, service: string,
                             t: Target, host: string, value: string, epoch: nat, now: nat)
    requires Lowercasing(c.toLowercase) && c.toLowercase("X-\U{C9}") == "x-\U{E9}"
    requires epoch < Calendar.YEAR_10000 && Distance(epoch, now) <= CLOCK_SKEW_SECS
    ensures var signed := [Header("Host", host), Header("X-\U{C9}", value)];
      Verified(c, Claim(c, secret, accessKeyId, region, service, t, signed, epoch),
               Sent(t, signed, epoch), secret, now) == Err(SignedHeadersMismatch)
  {
    hide Claim, Sent, Verified;
    var signed := [Header("Host", host), Header("X-\U{C9}", value)];
    var name := c.toLowercase(signed[1].name);
    assert Lower(Names(signed)[0]) == HOST;
    assert Lower(name)[2] == '\U{E9}' && Lower(signed[1].name)[2] == '\U{C9}' && |Lower(signed[0].name)| == 4;
    LookupMisses(signed, name);
    MismatchExactlyWhenMissing(c, secret, accessKeyId, region, service, t, signed, signed, epoch, now);
  }

  /** What is signed of a selection is lower-case, sorted and free of `;`. */
  lemma SignedSelection(headers: seq<Header>, names: seq<string>, fold: string -> string)
    requires Lowercasing(fold) && Free(names, ';') && Select(headers, names).Some?
    ensures var h := Signed(Select(headers, names).value, fold);
      && |h| == |names| && SortedByName(h) && Free(Names(h), ';')
      && forall i :: 0 <= i < |h| ==> fold(h[i].name) == h[i].name == Lower(h[i].name)
  {
    hide Signed, Select, Lookup, Canonical, Lower, Leq, Lowercasing, SortedByName;
    SelectMeaning(headers, names);
    var selected := Select(headers, names).value;
    var h := Signed(selected, fold);
    SignedFrom(selected, fold);
    forall i | 0 <= i < |h| ensures fold(h[i].name) == h[i].name == Lower(h[i].name) && ';' !in h[i].name {
      var j :| 0 <= j < |selected| && h[i] == Folded(selected[j], fold);
      LowerFacts(names[j]);
      FoldFacts(fold, selected[j].name);
    }
  }

  /** A list that signing its own selection reproduces is lower-case and sorted. */
  lemma ReproducedIsCanonical(headers: seq<Header>, names: seq<string>, fold: string -> string)
    requires Lowercasing(fold) && names != [] && Free(names, ';') && Select(headers, names).Some?
    requires Join(Names(Signed(Select(headers, names).value, fold)), ';') == Join(names, ';')
    ensures forall i :: 0 <= i < |names| ==>
      fold(names[i]) == names[i] == Lower(names[i]) && Lookup(headers, names[i]).Some?
    ensures forall i, j :: 0 <= i < j < |names| ==> Leq(names[i], names[j])
  {
    hide Signed, Select, Lookup, Lower, Leq, Join, Lowercasing;
    SelectMeaning(headers, names);
    SignedSelection(headers, names, fold);
    var h := Signed(Select(headers, names).value, fold);
    JoinInjective(Names(h), names, ';');
    assert forall i :: 0 <= i < |names| ==> names[i] == h[i].name;
  }

  /** Which check refuses: an unreadable date, then one outside the skew, then a scope of another day, then
      a header list without host or with a header the request lacks, and only then the signature. */
  lemma RefusalsMean(c: Primitives, p: ParsedAuth, req: InboundRequest, secret: string, now: nat)
    ensures var epoch, verdict := Calendar.ParseAmzDate(req.amzdate), Verified(c, p, req, secret, now);
      && (verdict == Err(MissingDate) <==> epoch == None)
      && (verdict == Err(Expired) <==> epoch.Some? && (epoch.value + 300 < now || now + 300 < epoch.value))
      && (verdict == Err(MalformedAuthorization) ==> epoch.Some? && p.scope.datestamp != req.amzdate[..8])
      && (verdict == Err(SignedHeadersMismatch) ==>
            || "host" !in LowerAll(Split(p.signedHeaders, ';'))
            || exists i :: 0 <= i < |Split(p.signedHeaders, ';')| && Lookup(req.headers, Split(p.signedHeaders, ';')[i]).None?)
      && verdict != Err(MissingAuthorization)
  {
    hide Calendar.ParseAmzDate, SignV4, Split, Select, Lookup;
    if Calendar.ParseAmzDate(req.amzdate).Some? {
      Calendar.ParsedShape(req.amzdate);
      assert req.amzdate[0..8] == req.amzdate[..8];
    }
    var names := Split(p.signedHeaders, ';');
    SelectMeaning(req.headers, names);
    if NamesHost(names) {
      var i :| 0 <= i < |names| && Lower(names[i]) == HOST;
      assert LowerAll(names)[i] == "host";
    }
  }

  function LowerAll(names: seq<string>): (r: seq<string>)
    ensures |r| == |names| && forall i :: 0 <= i < |names| ==> r[i] == Lower(names[i])
  {
    seq(|names|, i requires 0 <= i < |names| => Lower(names[i]))
  }

  /** What acceptance implies: a fresh timestamp, and a claimed list that is lower-case, sorted, names
      host, and names only headers the request carries. */
  lemma AcceptedMeansCanonical(c: Primitives, p: ParsedAuth, req: InboundRequest, secret: string, now: nat)
    requires Lowercasing(c.toLowercase) && Verified(c, p, req, secret, now) == Ok
    ensures var names := Split(p.signedHeaders, ';');
      && (forall i :: 0 <= i < |names| ==>
            c.toLowercase(names[i]) == names[i] == Lower(names[i]) && Lookup(req.headers, names[i]).Some?)
      && (forall i, j :: 0 <= i < j < |names| ==> Leq(names[i], names[j]))
      && HOST in names
      && Calendar.ParseAmzDate(req.amzdate).Some?
      && Distance(Calendar.ParseAmzDate(req.amzdate).value, now) <= CLOCK_SKEW_SECS
      && |req.amzdate| == 16 && p.scope.datestamp == req.amzdate[..8]
      && p.signature == SignV4(c, secret, p.scope, req.target, Select(req.headers, names).value, req.amzdate).signature
  {
    var names := Split(p.signedHeaders, ';');
    Calendar.ParsedShape(req.amzdate);
    assert req.amzdate[0..8] == req.amzdate[..8];
    JoinSplit(p.signedHeaders, ';');
    ReproducedIsCanonical(req.headers, names, c.toLowercase);
    var i :| 0 <= i < |names| && Lower(names[i]) == HOST;
    assert names[i] == HOST;
  }
}
