/** Parsing the inbound `Authorization` header, and reading back what a signer writes there. */
module SigV4Authorization {
  import opened Base
  import opened Text
  import opened SigV4Canonical
  import opened SigV4
  import Calendar

  /** Unicode white space, as `str::trim` strips it. */
  predicate White(c: char) {
    var n := c as int;
    || 0x09 <= n <= 0x0D || n == 0x20 || n == 0x85 || n == 0xA0 || n == 0x1680
    || 0x2000 <= n <= 0x200A || n == 0x2028 || n == 0x2029 || n == 0x202F || n == 0x205F || n == 0x3000
  }

  function TrimStart(s: string): string {
    if s != "" && White(s[0]) then TrimStart(s[1..]) else s
  }

  function TrimEnd(s: string): string {
    if s != "" && White(s[|s| - 1]) then TrimEnd(s[..|s| - 1]) else s
  }

  function Trim(s: string): string {
    TrimEnd(TrimStart(s))
  }

  datatype Parsed = Parsed(auth: ParsedAuth) | Failed(error: VerifyError)

  /** The sections seen so far; the last of each name wins. */
  datatype Sections = Sections(credential: Option<string>, signedHeaders: Option<string>, signature: Option<string>)

  const NO_SECTIONS := Sections(None, None, None)

  function Noted(f: Sections, key: string, value: string): Sections {
    if key == "Credential" then f.(credential := Some(value))
    else if key == "SignedHeaders" then f.(signedHeaders := Some(value))
    else if key == "Signature" then f.(signature := Some(value))
    else f
  }

  /** All sections, or nothing when one has no `=`. */
  function Collected(sections: seq<string>): Option<Sections> {
    if sections == [] then Some(NO_SECTIONS)
    else
      var before, s := Collected(sections[..|sections| - 1]), Trim(sections[|sections| - 1]);
      var i := IndexOf(s, '=');
      if before.None? || i == |s| then None
      else Some(Noted(before.value, Trim(s[..i]), Trim(s[i + 1..])))
  }

  function FromSections(f: Sections): Parsed {
    if f.credential.None? || f.signedHeaders.None? || f.signature.None?
       || f.signature.value == "" || f.signedHeaders.value == "" then Failed(MalformedAuthorization)
    else
      var parts := Split(f.credential.value, '/');
      if |parts| != 5 || parts[4] != SIGV4_TERMINATION
         || parts[0] == "" || parts[1] == "" || parts[2] == "" || parts[3] == "" then Failed(MalformedAuthorization)
      else Parsed(ParsedAuth(parts[0], KeyScope(parts[1], parts[2], parts[3]), f.signedHeaders.value, f.signature.value))
  }

  function ParseAuthorization(value: string): Parsed {
    var v := Trim(value);
    var i := IndexOf(v, ' ');
    if i == |v| || v[..i] != SIGV4_ALGORITHM then Failed(MissingAuthorization)
    else
      var f := Collected(Split(v[i + 1..], ','));
      if f.None? then Failed(MalformedAuthorization) else FromSections(f.value)
  }

  method ParseAuthorizationHeader(value: string) returns (r: Parsed)
    ensures r == ParseAuthorization(value)
  {
    hide Trim, Split, Collected, FromSections, IndexOf;
    var v := Trim(value);
    var i := IndexOf(v, ' ');
    if i == |v| || v[..i] != SIGV4_ALGORITHM {
      return Failed(MissingAuthorization);
    }
    var found := CollectSections(Split(v[i + 1..], ','));
    r := if found.None? then Failed(MalformedAuthorization) else FromSections(found.value);
  }

  /** Note the sections one after another, stopping at one with no `=`. */
  method CollectSections(sections: seq<string>) returns (r: Option<Sections>)
    ensures r == Collected(sections)
  {
    hide Trim, Noted;
    var found := NO_SECTIONS;
    for n := 0 to |sections|
      invariant Collected(sections[..n]) == Some(found)
    {
      var section := Trim(sections[n]);
      assert sections[..n + 1][..n] == sections[..n];
      var e := IndexOf(section, '=');
      if e == |section| {
        CollectedFails(sections, n + 1);
        return None;
      }
      found := Noted(found, Trim(section[..e]), Trim(section[e + 1..]));
    }
    assert sections[..|sections|] == sections;
    r := Some(found);
  }

  lemma {:induction false} CollectedFails(sections: seq<string>, n: nat)
    requires n <= |sections| && Collected(sections[..n]).None?
    ensures Collected(sections).None?
    decreases |sections|
  {
    if n == |sections| {
      assert sections[..n] == sections;
    } else {
      assert sections[..|sections| - 1][..n] == sections[..n];
      CollectedFails(sections[..|sections| - 1], n);
    }
  }

  // ---- Reading back what a signer writes ----

  /** One section of the header, with or without the space that clients put after the comma. */
  datatype Field = Field(key: string, value: string, spaced: bool)

  /** Text that trimming leaves alone and that cannot be split at a comma. */
  predicate Tight(s: string) {
    s != "" && !White(s[0]) && !White(s[|s| - 1]) && ',' !in s
  }

  predicate Writable(f: Field) {
    Tight(f.key) && '=' !in f.key && Tight(f.value)
  }

  function Section(f: Field): string {
    f.key + ['='] + f.value
  }

  function Spaced(f: Field): string {
    if f.spaced then [' '] + Section(f) else Section(f)
  }

  function Texts(fields: seq<Field>): (r: seq<string>)
    ensures |r| == |fields|
  {
    if fields == [] then [] else Texts(fields[..|fields| - 1]) + [Spaced(fields[|fields| - 1])]
  }

  /** The header value a SigV4 client sends. */
  function Written(fields: seq<Field>): string {
    SIGV4_ALGORITHM + [' '] + Join(Texts(fields), ',')
  }

  /** The value of the last section with this name. */
  function LastOf(fields: seq<Field>, key: string): Option<string> {
    if fields == [] then None
    else
      var last := fields[|fields| - 1];
      if last.key == key then Some(last.value) else LastOf(fields[..|fields| - 1], key)
  }

  function LastSections(fields: seq<Field>): Sections {
    Sections(LastOf(fields, "Credential"), LastOf(fields, "SignedHeaders"), LastOf(fields, "Signature"))
  }

  function CredentialParts(p: ParsedAuth): seq<string> {
    [p.accessKeyId, p.scope.datestamp, p.scope.region, p.scope.service, SIGV4_TERMINATION]
  }

  lemma TrimTight(s: string)
    requires s != "" && !White(s[0]) && !White(s[|s| - 1])
    ensures Trim(s) == s && Trim([' '] + s) == s
  {
    assert ([' '] + s)[1..] == s;
  }

  /** A section reads back as its key and value. */
  lemma SectionReads(f: Field)
    requires Writable(f)
    ensures var s := Section(f);
      && Trim(Spaced(f)) == s && ',' !in Spaced(f)
      && IndexOf(s, '=') == |f.key| < |s| && Trim(s[..|f.key|]) == f.key && Trim(s[|f.key| + 1..]) == f.value
  {
    hide White, Trim;
    var s := Section(f);
    assert s[0] == f.key[0] && s[|s| - 1] == f.value[|f.value| - 1];
    TrimTight(s);
    FirstSeparator(f.key, '=', f.value);
    assert s[..|f.key|] == f.key && s[|f.key| + 1..] == f.value;
    TrimTight(f.key);
    TrimTight(f.value);
  }

  lemma {:induction false} CollectedLast(fields: seq<Field>)
    requires forall i :: 0 <= i < |fields| ==> Writable(fields[i])
    ensures Collected(Texts(fields)) == Some(LastSections(fields))
    ensures Free(Texts(fields), ',')
  {
    if fields != [] {
      var init, f := fields[..|fields| - 1], fields[|fields| - 1];
      CollectedLast(init);
      SectionReads(f);
      assert Texts(fields)[..|fields| - 1] == Texts(init);
      assert Texts(fields)[|fields| - 1] == Spaced(f);
    }
  }

  /** The header starts with the algorithm's first letter and ends where its last value ends. */
  lemma WrittenIsTrimmed(fields: seq<Field>)
    requires fields != [] && forall i :: 0 <= i < |fields| ==> Writable(fields[i])
    ensures Trim(Written(fields)) == Written(fields)
  {
    var init, f := fields[..|fields| - 1], fields[|fields| - 1];
    var joined := Join(Texts(fields), ',');
    var last := Spaced(f);
    if init != [] {
      JoinSnoc(Texts(init), last, ',');
    }
    assert joined[|joined| - |last|..] == last;
    assert joined[|joined| - 1] == last[|last| - 1] == f.value[|f.value| - 1];
    var v := Written(fields);
    assert v[0] == SIGV4_ALGORITHM[0] && v[|v| - 1] == joined[|joined| - 1];
    TrimTight(v);
  }

  /** Whatever the order and number of sections, and whichever unknown ones stand between them, the
      parser reads the last section of each of the three names. */
  lemma WrittenIsRead(fields: seq<Field>)
    requires fields != [] && forall i :: 0 <= i < |fields| ==> Writable(fields[i])
    ensures ParseAuthorization(Written(fields)) == FromSections(LastSections(fields))
  {
    var texts, v := Texts(fields), Written(fields);
    var rest := Join(texts, ',');
    WrittenIsTrimmed(fields);
    AlgorithmIsFirst(rest);
    CollectedLast(fields);
    SplitJoin(texts, ',');
  }

  lemma AlgorithmIsFirst(rest: string)
    ensures var v := SIGV4_ALGORITHM + [' '] + rest;
      var i := IndexOf(v, ' ');
      i < |v| && v[..i] == SIGV4_ALGORITHM && v[i + 1..] == rest
  {
    var v := SIGV4_ALGORITHM + [' '] + rest;
    FirstSeparator(SIGV4_ALGORITHM, ' ', rest);
    assert v[..|SIGV4_ALGORITHM|] == SIGV4_ALGORITHM && v[|SIGV4_ALGORITHM| + 1..] == rest;
  }

  /** A claim whose texts can be told apart again. */
  predicate Readable(p: ParsedAuth) {
    && p.signedHeaders != "" && p.signature != ""
    && forall i :: 0 <= i < 4 ==> CredentialParts(p)[i] != "" && '/' !in CredentialParts(p)[i]
  }

  /** What is written is read as a claim exactly when its last credential is the five parts of that claim,
      the last of them the terminator, and its list and signature are the claim's. */
  lemma CredentialIsRead(fields: seq<Field>, p: ParsedAuth)
    requires fields != [] && forall i :: 0 <= i < |fields| ==> Writable(fields[i])
    ensures ParseAuthorization(Written(fields)) == Parsed(p) <==>
      && Readable(p)
      && LastSections(fields) == Sections(Some(Join(CredentialParts(p), '/')), Some(p.signedHeaders), Some(p.signature))
  {
    hide ParseAuthorization, FromSections, LastSections, Written, Writable, Join, Readable;
    WrittenIsRead(fields);
    if Readable(p) {
      SectionsRead(p);
    }
    if FromSections(LastSections(fields)) == Parsed(p) {
      SectionsMean(LastSections(fields), p);
    }
  }

  lemma SectionsMean(f: Sections, p: ParsedAuth)
    requires FromSections(f) == Parsed(p)
    ensures Readable(p) && f == Sections(Some(Join(CredentialParts(p), '/')), Some(p.signedHeaders), Some(p.signature))
  {
    hide Split, Join;
    var parts := Split(f.credential.value, '/');
    JoinSplit(f.credential.value, '/');
    assert parts == CredentialParts(p);
  }

  /** A header is not SigV4 at all exactly when its trimmed text does not begin with the algorithm and a
      space. */
  lemma SchemeExactly(value: string)
    ensures ParseAuthorization(value) == Failed(MissingAuthorization) <==>
      !("AWS4-HMAC-SHA256 " <= Trim(value))
  {
    hide Trim, FromSections, Collected, Split;
    var v := Trim(value);
    var i := IndexOf(v, ' ');
    FromSectionsErrors();
    if i < |v| && v[..i] == SIGV4_ALGORITHM {
      assert v[..i + 1] == v[..i] + [v[i]];
      assert "AWS4-HMAC-SHA256 " <= v;
    }
    if "AWS4-HMAC-SHA256 " <= v {
      var rest := v[|SIGV4_ALGORITHM| + 1..];
      assert v == SIGV4_ALGORITHM + [' '] + rest;
      AlgorithmIsFirst(rest);
    }
  }

  lemma FromSectionsErrors()
    ensures forall f :: FromSections(f) != Failed(MissingAuthorization)
  {
  }

  /** White space is what Unicode calls so. */
  lemma WhiteMeaning(c: char)
    ensures White(c) <==> c as int in {
      0x9, 0xA, 0xB, 0xC, 0xD, 0x20, 0x85, 0xA0, 0x1680, 0x2000, 0x2001, 0x2002, 0x2003, 0x2004, 0x2005,
      0x2006, 0x2007, 0x2008, 0x2009, 0x200A, 0x2028, 0x2029, 0x202F, 0x205F, 0x3000}
  {
  }

  lemma {:induction false} TrimStartStrips(w: string, s: string)
    requires forall i :: 0 <= i < |w| ==> White(w[i])
    ensures TrimStart(w + s) == TrimStart(s)
  {
    if w == "" {
      assert w + s == s;
    } else {
      assert (w + s)[1..] == w[1..] + s;
      TrimStartStrips(w[1..], s);
    }
  }

  lemma {:induction false} TrimEndStrips(s: string, w: string)
    requires forall i :: 0 <= i < |w| ==> White(w[i])
    ensures TrimEnd(s + w) == TrimEnd(s)
  {
    if w == "" {
      assert s + w == s;
    } else {
      var n := |w| - 1;
      assert (s + w)[..|s| + n] == s + w[..n];
      TrimEndStrips(s, w[..n]);
    }
  }

  /** Trimming takes the white space off both ends and nothing more. */
  lemma TrimStrips(before: string, s: string, after: string)
    requires s != "" && !White(s[0]) && !White(s[|s| - 1])
    requires forall i :: 0 <= i < |before| ==> White(before[i])
    requires forall i :: 0 <= i < |after| ==> White(after[i])
    ensures Trim(before + s + after) == s
  {
    hide White;
    assert before + s + after == before + (s + after);
    TrimStartStrips(before, s + after);
    assert (s + after)[0] == s[0];
    TrimEndStrips(s, after);
  }

  lemma SectionsRead(p: ParsedAuth)
    requires Readable(p)
    ensures FromSections(Sections(Some(Join(CredentialParts(p), '/')), Some(p.signedHeaders), Some(p.signature))) == Parsed(p)
  {
    hide Join, Split;
    var parts := CredentialParts(p);
    assert parts[0] != "" && parts[1] != "" && parts[2] != "" && parts[3] != "";
    SplitJoin(parts, '/');
  }

  // ---- Signed, written, parsed and verified ----

  /** Non-empty text with neither white space nor a comma. */
  predicate Token(s: string) {
    s != "" && forall i :: 0 <= i < |s| ==> !White(s[i]) && s[i] != ','
  }

  /** The three sections a client writes. */
  function ClientFields(p: ParsedAuth): seq<Field> {
    [ Field("Credential", Join(CredentialParts(p), '/'), false),
      Field("SignedHeaders", p.signedHeaders, true),
      Field("Signature", p.signature, true) ]
  }

  lemma {:induction false} JoinTokens(parts: seq<string>, c: char)
    requires parts != [] && !White(c) && c != ',' && forall i :: 0 <= i < |parts| ==> Token(parts[i])
    ensures Token(Join(parts, c))
  {
    if |parts| > 1 {
      JoinTokens(parts[1..], c);
    }
  }

  lemma TokenIsTight(s: string)
    requires Token(s)
    ensures Tight(s)
  {
  }

  predicate ClaimWritable(p: ParsedAuth) {
    && Token(p.signedHeaders) && Token(p.signature)
    && forall i :: 0 <= i < 4 ==> Token(CredentialParts(p)[i]) && '/' !in CredentialParts(p)[i]
  }

  lemma ClientFieldsWritable(p: ParsedAuth)
    requires ClaimWritable(p)
    ensures forall i :: 0 <= i < 3 ==> Writable(ClientFields(p)[i])
  {
    var parts := CredentialParts(p);
    assert Token(parts[4]);
    hide Token, Join;
    JoinTokens(parts, '/');
    TokenIsTight(Join(parts, '/'));
    TokenIsTight(p.signedHeaders);
    TokenIsTight(p.signature);
  }

  lemma LastOfThree(f: seq<Field>, key: string)
    requires |f| == 3
    ensures LastOf(f, key) ==
      if f[2].key == key then Some(f[2].value)
      else if f[1].key == key then Some(f[1].value)
      else if f[0].key == key then Some(f[0].value)
      else None
  {
    var two, one := f[..2], f[..2][..1];
    assert one[..0] == [] && LastOf(one, key) == if f[0].key == key then Some(f[0].value) else None;
    assert LastOf(two, key) == if f[1].key == key then Some(f[1].value) else LastOf(one, key);
  }

  lemma ClientFieldsLast(p: ParsedAuth)
    ensures LastSections(ClientFields(p)) ==
      Sections(Some(Join(CredentialParts(p), '/')), Some(p.signedHeaders), Some(p.signature))
  {
    hide Join;
    var f := ClientFields(p);
    assert f[0].key != f[1].key && f[0].key != f[2].key && f[1].key != f[2].key by {
      assert |f[0].key| == 10 && |f[1].key| == 13 && |f[2].key| == 9;
    }
    LastOfThree(f, f[0].key);
    LastOfThree(f, f[1].key);
    LastOfThree(f, f[2].key);
  }

  /** What a client writes of its claim is what the gateway reads. */
  lemma ClaimIsRead(p: ParsedAuth)
    requires ClaimWritable(p)
    ensures ParseAuthorization(Written(ClientFields(p))) == Parsed(p)
  {
    hide ParseAuthorization, Written, LastSections, Writable, Token, Join, ClaimWritable, Readable;
    ClientFieldsWritable(p);
    ClientFieldsLast(p);
    TokensNonEmpty(p);
    CredentialIsRead(ClientFields(p), p);
  }

  lemma TokensNonEmpty(p: ParsedAuth)
    requires ClaimWritable(p)
    ensures Readable(p)
  {
  }

  /** The texts a signer works with are tokens: its key id, region and service, its header names once
      folded, and every hex signature. */
  ghost predicate SignerWrites(c: Primitives, accessKeyId: string, region: string, service: string, signed: seq<Header>) {
    && Token(accessKeyId) && '/' !in accessKeyId
    && Token(region) && '/' !in region
    && Token(service) && '/' !in service
    && (forall j :: 0 <= j < |signed| ==> Token(c.toLowercase(signed[j].name)))
    && forall digest :: Token(c.hex(digest))
  }

  lemma DigitsAreToken(s: string)
    requires s != "" && Calendar.AllDigits(s)
    ensures Token(s) && '/' !in s
  {
    forall i | 0 <= i < |s| ensures !White(s[i]) && s[i] != ',' && s[i] != '/' {
      assert Calendar.IsDigit(s[i]);
    }
  }

  lemma SignedListIsToken(signed: seq<Header>, fold: string -> string)
    requires signed != [] && forall j :: 0 <= j < |signed| ==> Token(fold(signed[j].name))
    ensures Token(Join(Names(Signed(signed, fold)), ';'))
  {
    hide Signed, Token;
    SignedFrom(signed, fold);
    var names := Names(Signed(signed, fold));
    forall i | 0 <= i < |names| ensures Token(names[i]) {
      var j :| 0 <= j < |signed| && Signed(signed, fold)[i] == Folded(signed[j], fold);
    }
    JoinTokens(names, ';');
  }

  lemma ClaimIsWritable(c: Primitives, secret: string, accessKeyId: string, region: string, service: string,
                        t: Target, signed: seq<Header>, epoch: nat)
    requires SignerWrites(c, accessKeyId, region, service, signed) && signed != [] && epoch < Calendar.YEAR_10000
    ensures ClaimWritable(Claim(c, secret, accessKeyId, region, service, t, signed, epoch))
  {
    hide Token, Signed, Calendar.FormatAmzTime, Join;
    Calendar.StampIsDigits(epoch);
    DigitsAreToken(Calendar.FormatAmzTime(epoch).1);
    SignedListIsToken(signed, c.toLowercase);
  }

  /** The whole way: a request that is signed, whose claim is written into the Authorization header, and
      which arrives reordered, re-cased, padded or added to within the clock skew, is parsed to that
      claim and accepted. */
  lemma SignedHeaderIsAccepted(c: Primitives, secret: string, accessKeyId: string, region: string, service: string,
                               t: Target, signed: seq<Header>, request: seq<Header>, epoch: nat, now: nat)
    requires Lowercasing(c.toLowercase) && NamesHost(Names(signed)) && NoSemicolons(signed)
    requires SignerWrites(c, accessKeyId, region, service, signed) && Carries(request, signed, c.toLowercase)
    requires epoch < Calendar.YEAR_10000 && Distance(epoch, now) <= CLOCK_SKEW_SECS
    ensures var claim := Claim(c, secret, accessKeyId, region, service, t, signed, epoch);
      var parsed := ParseAuthorization(Written(ClientFields(claim)));
      parsed == Parsed(claim) && Verified(c, parsed.auth, Sent(t, request, epoch), secret, now) == Ok
  {
    hide Claim, ParseAuthorization, Written, Verified, Sent;
    ClaimIsWritable(c, secret, accessKeyId, region, service, t, signed, epoch);
    ClaimIsRead(Claim(c, secret, accessKeyId, region, service, t, signed, epoch));
    SignedRequestIsAccepted(c, secret, accessKeyId, region, service, t, signed, request, epoch, now);
  }
}
