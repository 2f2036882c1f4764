/** What the decision means: acceptance without order, and the order of the reasons. */
module Decisions {
  import opened Wrappers
  import opened ByteStrings
  import opened Seqs
  import opened Decimals
  import opened Timestamps
  import opened Queries
  import opened Paths
  import opened Crypto
  import opened Compile
  import opened VerifierCore
  import opened SignedText

  // ---------- credential scopes, built and parsed ----------

  function ScopeText(date: Bytes, region: Bytes, service: Bytes, terminal: Bytes): Bytes {
    date + [SLASH] + region + [SLASH] + service + [SLASH] + terminal
  }

  function CredentialText(accessKey: Bytes, scope: Bytes): Bytes { accessKey + [SLASH] + scope }

  predicate IsScopePart(s: Bytes) { s != [] && SLASH !in s }

  lemma DigitsHaveNoSlash(s: Bytes)
    requires AllDigits(s)
    ensures SLASH !in s
  {
  }

  lemma JoinFive(a: Bytes, b: Bytes, c: Bytes, d: Bytes, e: Bytes)
    ensures Join([a, b, c, d, e], SLASH) == CredentialText(a, ScopeText(b, c, d, e))
  {
    assert [a, b, c, d, e][1..] == [b, c, d, e];
    assert [b, c, d, e][1..] == [c, d, e];
    assert [c, d, e][1..] == [d, e];
    assert [d, e][1..] == [e];
    assert Join([d, e], SLASH) == d + [SLASH] + e;
    assert Join([c, d, e], SLASH) == c + [SLASH] + (d + [SLASH] + e);
    assert Join([b, c, d, e], SLASH) == b + [SLASH] + (c + [SLASH] + (d + [SLASH] + e));
    assert b + [SLASH] + (c + [SLASH] + (d + [SLASH] + e)) == ScopeText(b, c, d, e);
  }

  /** Parsing a scope that was put together from its parts gives the parts, and the text after the first slash. */
  lemma BuiltScopeParses(accessKey: Bytes, date: Bytes, region: Bytes, service: Bytes, terminal: Bytes)
    requires IsScopePart(accessKey) && IsScopePart(region) && IsScopePart(service) && IsScopePart(terminal)
    requires |date| == 8 && AllDigits(date)
    ensures ParseCredentialScope(CredentialText(accessKey, ScopeText(date, region, service, terminal)))
         == Some(CredentialScope(accessKey, date, region, service, terminal,
                                 ScopeText(date, region, service, terminal)))
  {
    var parts := [accessKey, date, region, service, terminal];
    var text := ScopeText(date, region, service, terminal);
    DigitsHaveNoSlash(date);
    JoinFive(accessKey, date, region, service, terminal);
    SplitJoin(parts, SLASH);
    assert CredentialText(accessKey, text)[|accessKey| + 1..] == text;
  }

  /** Every scope that parses was put together from its parts: no other spelling is accepted. */
  lemma ParsedScopeIsBuilt(value: Bytes)
    requires ParseCredentialScope(value).Some?
    ensures var s := ParseCredentialScope(value).value;
            && value == CredentialText(s.accessKey, s.scope)
            && s.scope == ScopeText(s.date, s.region, s.service, s.terminal)
            && IsScopePart(s.accessKey) && IsScopePart(s.region) && IsScopePart(s.service) && IsScopePart(s.terminal)
            && |s.date| == 8 && AllDigits(s.date)
  {
    var parts := Split(value, SLASH);
    JoinSplit(value, SLASH);
    SplitPartsClean(value, SLASH);
    assert parts == [parts[0], parts[1], parts[2], parts[3], parts[4]];
    JoinFive(parts[0], parts[1], parts[2], parts[3], parts[4]);
    var text := ScopeText(parts[1], parts[2], parts[3], parts[4]);
    assert value == CredentialText(parts[0], text);
    assert value[|parts[0]| + 1..] == text;
  }

  lemma {:induction false} SplitPartsClean(s: Bytes, c: byte)
    ensures forall i :: 0 <= i < |Split(s, c)| ==> c !in Split(s, c)[i]
    decreases |s|
  {
    var e := IndexOf(s, c);
    IndexOfIsFirst(s, c);
    if e == |s| {
      assert s[..e] == s;
    } else {
      SplitPartsClean(s[e + 1..], c);
    }
  }

  // ---------- acceptance, without an order of checks ----------

  /** Everything an accepted request exhibits. */
  datatype Grant = Grant(
    path: Bytes,
    query: Bytes,
    accessKey: Bytes,
    region: Bytes,
    stamp: Stamp,
    seconds: nat,
    expires: Bytes,
    signature: Bytes)

  function GrantScope(g: Grant): Bytes { ScopeText(PrintDate(g.stamp), g.region, S3, TERMINAL) }

  /** The HMAC that must be presented, assembled from words and lines. */
  function GrantedSignature(crypto: Primitives, seed: Bytes, verb: Bytes, host: Bytes, g: Grant): Digest {
    var words := ScopeWords(PrintDate(g.stamp), g.region, Lit("s3"));
    var request := Join(RequestLines(verb, CanonicalPath(g.path), CanonicalOf(Params(g.query)), host), '\n' as int);
    var text := Join(SigningLines(PrintStamp(g.stamp), words, crypto.sha256(request)), '\n' as int);
    crypto.hmac(FoldHmac(crypto, seed, words), text)
  }

  lemma GrantScopeIsWords(g: Grant)
    ensures GrantScope(g) == Join(ScopeWords(PrintDate(g.stamp), g.region, Lit("s3")), SLASH)
  {
    SlashTexts();
    JoinFour(PrintDate(g.stamp), g.region, S3, TERMINAL, SLASH);
  }

  /** The words and lines are those of the verifier. */
  lemma GrantedSignatureIs(crypto: Primitives, seed: Bytes, verb: Bytes, host: Bytes, g: Grant)
    ensures GrantedSignature(crypto, seed, verb, host, g)
         == crypto.hmac(
              DeriveKey(crypto, seed, Scope(PrintDate(g.stamp), g.region, S3)),
              StringToSign(
                PrintStamp(g.stamp), GrantScope(g),
                crypto.sha256(CanonicalRequest(verb, CanonicalPath(g.path), CanonicalOf(Params(g.query)), host))))
  {
    var path, query := CanonicalPath(g.path), CanonicalOf(Params(g.query));
    var words := ScopeWords(PrintDate(g.stamp), g.region, Lit("s3"));
    RequestIsLines(verb, path, query, host);
    GrantScopeIsWords(g);
    StringIsLines(PrintStamp(g.stamp), words, crypto.sha256(CanonicalRequest(verb, path, query, host)));
    DeriveKeyIsFold(crypto, seed, PrintDate(g.stamp), g.region, S3);
  }

  /** The request target is this path and query, and the path is an acceptable one. */
  predicate GrantsTarget(r: Request, g: Grant) {
    && r.rawUri == g.path + [QUESTION] + g.query
    && CleanUri(r.rawUri) && QUESTION !in g.path && ValidPath(g.path) && Accepted(g.query)
  }

  /** Each of the six parameters occurs exactly once, by decoded name, with the value assembled from the grant. */
  predicate GrantsParams(g: Grant) {
    var params := Params(g.query);
    && ValuesOf(params, X_AMZ_ALGORITHM) == [ALGORITHM]
    && ValuesOf(params, X_AMZ_CREDENTIAL) == [CredentialText(g.accessKey, GrantScope(g))]
    && ValuesOf(params, X_AMZ_SIGNED_HEADERS) == [HOST]
    && ValuesOf(params, X_AMZ_DATE) == [PrintStamp(g.stamp)]
    && ValuesOf(params, X_AMZ_EXPIRES) == [g.expires]
    && ValuesOf(params, X_AMZ_SIGNATURE) == [g.signature]
    && ValidStamp(g.stamp) && IsScopePart(g.accessKey) && IsScopePart(g.region)
  }

  /** The expiry is a numeral of one second to seven days. */
  ghost predicate SpellsExpiry(g: Grant) { Denotes(g.expires, g.seconds) && 1 <= g.seconds <= 7 * 24 * 60 * 60 }

  lemma SpelledExpiryParses(g: Grant)
    ensures SpellsExpiry(g) <==> ParseU64(g.expires) == Some(g.seconds) && 1 <= g.seconds <= MAX_EXPIRES
  {
    ParseU64Iff(g.expires, g.seconds);
  }

  /** The credential exists, its policy admits the request, and the instant lies in the window. */
  ghost predicate GrantsPolicy(cfg: Config, verb: Bytes, host: Bytes, now: int, g: Grant) {
    && g.accessKey in cfg.credentials
    && PolicyAllows(cfg.credentials[g.accessKey], verb, host, g.path)
    && SpellsExpiry(g) && g.seconds <= cfg.credentials[g.accessKey].maxExpires
    && NotEarly(EpochOf(g.stamp), now, cfg.skew) && now <= EpochOf(g.stamp) + g.seconds
  }

  ghost predicate Grants(crypto: Primitives, cfg: Config, r: Request, g: Grant) {
    var verb, host := Upper(Trim(r.verb)), Lower(Trim(r.host));
    && verb != [] && host != [] && verb in cfg.supportedMethods
    && GrantsTarget(r, g) && GrantsParams(g) && GrantsPolicy(cfg, verb, host, r.now, g)
    && AllHex(g.signature)
    && Lower(g.signature) == HexOf(GrantedSignature(crypto, cfg.credentials[g.accessKey].secretSeed, verb, host, g))
  }

  function GrantClaims(g: Grant): Claims {
    Claims(CredentialScope(g.accessKey, PrintDate(g.stamp), g.region, S3, TERMINAL, GrantScope(g)),
           PrintStamp(g.stamp), EpochOf(g.stamp), g.seconds, g.signature)
  }

  lemma SingleIff(params: seq<Param>, name: Bytes, value: Bytes)
    ensures Single(params, name) == Some(value) <==> ValuesOf(params, name) == [value]
  {
  }

  lemma S3AndTerminalAreParts()
    ensures IsScopePart(S3) && IsScopePart(TERMINAL)
  {
  }

  lemma PrintDateDigits(t: Stamp)
    requires ValidStamp(t)
    ensures AllDigits(PrintDate(t)) && PrintStamp(t)[..8] == PrintDate(t)
  {
    ReadPrinted(t);
    PrintSlices(t);
    assert PrintStamp(t)[0..8] == PrintStamp(t)[..8];
  }

  /** The claims check passes with exactly these claims when, and only when, the parameters are the granted ones. */
  lemma GrantedParamsClaim(crypto: Primitives, cfg: Config, g: Grant)
    requires cfg.service == S3 && GrantsParams(g)
    requires SpellsExpiry(g)
    ensures ClaimsOf(crypto, cfg, g.path, Params(g.query)) == Accept(GrantClaims(g))
  {
    var params := Params(g.query);
    SingleIff(params, X_AMZ_ALGORITHM, ALGORITHM);
    SingleIff(params, X_AMZ_CREDENTIAL, CredentialText(g.accessKey, GrantScope(g)));
    SingleIff(params, X_AMZ_SIGNED_HEADERS, HOST);
    SingleIff(params, X_AMZ_DATE, PrintStamp(g.stamp));
    SingleIff(params, X_AMZ_EXPIRES, g.expires);
    SingleIff(params, X_AMZ_SIGNATURE, g.signature);
    S3AndTerminalAreParts();
    PrintDateDigits(g.stamp);
    ReadPrinted(g.stamp);
    BuiltScopeParses(g.accessKey, PrintDate(g.stamp), g.region, S3, TERMINAL);
    GrantedScopedClaims(cfg, g, HashAccessKey(crypto, g.accessKey));
  }

  lemma GrantedScopedClaims(cfg: Config, g: Grant, hash: Bytes)
    requires cfg.service == S3 && ValidStamp(g.stamp)
    requires SpellsExpiry(g)
    requires var params := Params(g.query);
             && Single(params, X_AMZ_SIGNED_HEADERS) == Some(HOST)
             && Single(params, X_AMZ_DATE) == Some(PrintStamp(g.stamp))
             && Single(params, X_AMZ_EXPIRES) == Some(g.expires) && Single(params, X_AMZ_SIGNATURE) == Some(g.signature)
    ensures ScopedClaims(cfg, g.path, Params(g.query), GrantClaims(g).scope, hash) == Accept(GrantClaims(g))
  {
    SpelledExpiryParses(g);
    PrintDateDigits(g.stamp);
    ReadPrinted(g.stamp);
  }

  /** From claims that passed, the grant they came from. */
  lemma ClaimsAreGranted(crypto: Primitives, cfg: Config, path: Bytes, query: Bytes) returns (g: Grant)
    requires cfg.service == S3 && ClaimsOf(crypto, cfg, path, Params(query)).Accept?
    ensures g.path == path && g.query == query && GrantsParams(g)
    ensures SpellsExpiry(g)
    ensures ClaimsOf(crypto, cfg, path, Params(query)) == Accept(GrantClaims(g))
  {
    var params := Params(query);
    var c := ClaimsOf(crypto, cfg, path, params).claims;
    var credential := Single(params, X_AMZ_CREDENTIAL).value;
    ParsedScopeIsBuilt(credential);
    var scope := ParseCredentialScope(credential).value;
    var stamp, expires := ScopedClaimsFacts(cfg, path, params, scope, HashAccessKey(crypto, scope.accessKey));
    g := Grant(path, query, scope.accessKey, scope.region, stamp, c.expires, expires, c.signature);
    SpelledExpiryParses(g);
    PrintRead(c.amzDate);
    SingleIff(params, X_AMZ_ALGORITHM, ALGORITHM);
    SingleIff(params, X_AMZ_CREDENTIAL, credential);
    SingleIff(params, X_AMZ_SIGNED_HEADERS, HOST);
    SingleIff(params, X_AMZ_DATE, c.amzDate);
    SingleIff(params, X_AMZ_EXPIRES, expires);
    SingleIff(params, X_AMZ_SIGNATURE, c.signature);
    GrantedParamsClaim(crypto, cfg, g);
  }

  lemma ScopedClaimsFacts(cfg: Config, path: Bytes, params: seq<Param>, scope: CredentialScope, hash: Bytes)
    returns (stamp: Stamp, expires: Bytes)
    requires ScopedClaims(cfg, path, params, scope, hash).Accept?
    ensures var c := ScopedClaims(cfg, path, params, scope, hash).claims;
            && c.scope == scope && scope.service == cfg.service && scope.terminal == TERMINAL
            && Single(params, X_AMZ_SIGNED_HEADERS) == Some(HOST)
            && Single(params, X_AMZ_DATE) == Some(c.amzDate) && ReadStamp(c.amzDate) == Some(stamp)
            && c.amzDate[..8] == scope.date && ValidStamp(stamp)
            && Single(params, X_AMZ_EXPIRES) == Some(expires) && ParseU64(expires) == Some(c.expires)
            && 1 <= c.expires <= MAX_EXPIRES
            && Single(params, X_AMZ_SIGNATURE) == Some(c.signature)
  {
    var date := Single(params, X_AMZ_DATE).value;
    stamp := ReadStamp(date).value;
    expires := Single(params, X_AMZ_EXPIRES).value;
  }

  lemma GrantedSignatureChecks(crypto: Primitives, p: Policy, verb: Bytes, host: Bytes, g: Grant)
    ensures CheckSignature(crypto, p, Target(verb, host, g.path, Params(g.query)), GrantClaims(g))
         == if AllHex(g.signature) && Lower(g.signature) == HexOf(GrantedSignature(crypto, p.secretSeed, verb, host, g))
            then VerifyResult(true, Ok, g.path, Some(p.accessKey), p.accessKeyHash)
            else Deny(SignatureMismatch, g.path, p.accessKeyHash)
  {
    GrantedSignatureIs(crypto, p.secretSeed, verb, host, g);
    SignatureSpellsDigest(g.signature, GrantedSignature(crypto, p.secretSeed, verb, host, g));
  }

  /** The policy and time checks pass exactly when the grant's do. */
  lemma GrantedIsAdmitted(crypto: Primitives, cfg: Config, verb: Bytes, host: Bytes, now: int, g: Grant)
    requires ValidStamp(g.stamp)
    requires SpellsExpiry(g)
    ensures var c := GrantClaims(g);
            GrantsPolicy(cfg, verb, host, now, g) <==>
              && Admit(crypto, cfg, verb, host, g.path, c).Admitted?
              && !IsFutureDated(c.epoch, now, cfg.skew) && !IsExpired(c.epoch, now, c.expires)
    ensures Admit(crypto, cfg, verb, host, g.path, GrantClaims(g)).Rejected? ==>
              !Admit(crypto, cfg, verb, host, g.path, GrantClaims(g)).result.allowed
  {
    EpochRange(g.stamp);
    ExpiryIsExact(EpochOf(g.stamp), now, g.seconds);
    FutureTestIs(EpochOf(g.stamp), now, cfg.skew);
  }

  lemma GrantedIsAuthorized(crypto: Primitives, cfg: Config, r: Request, g: Grant)
    requires cfg.service == S3 && GrantsTarget(r, g) && GrantsParams(g)
    requires SpellsExpiry(g)
    ensures var verb, host := Upper(Trim(r.verb)), Lower(Trim(r.host));
            var result := Authorize(crypto, cfg, Target(verb, host, g.path, Params(g.query)), GrantClaims(g), r.now);
            && (result.allowed <==>
                  && GrantsPolicy(cfg, verb, host, r.now, g) && AllHex(g.signature)
                  && Lower(g.signature)
                     == HexOf(GrantedSignature(crypto, cfg.credentials[g.accessKey].secretSeed, verb, host, g)))
            && (result.allowed ==>
                  var p := cfg.credentials[g.accessKey];
                  result == VerifyResult(true, Ok, g.path, Some(p.accessKey), p.accessKeyHash))
  {
    var verb, host := Upper(Trim(r.verb)), Lower(Trim(r.host));
    GrantedIsAdmitted(crypto, cfg, verb, host, r.now, g);
    if g.accessKey in cfg.credentials {
      GrantedSignatureChecks(crypto, cfg.credentials[g.accessKey], verb, host, g);
    }
  }

  lemma TargetSplits(r: Request, g: Grant)
    requires GrantsTarget(r, g)
    ensures SplitOriginalUri(r.rawUri) == Some((g.path, g.query)) && r.rawUri != []
  {
    forall i | 0 <= i < |g.path|
      ensures !IsForbiddenUriByte(g.path[i])
    {
      assert r.rawUri[i] == g.path[i];
    }
    forall i | 0 <= i < |g.query|
      ensures !IsForbiddenUriByte(g.query[i])
    {
      assert r.rawUri[|g.path| + 1 + i] == g.query[i];
    }
    SplitAssembledUri(g.path, g.query);
  }

  lemma NoQueryNoClaims(crypto: Primitives, cfg: Config, path: Bytes)
    ensures ClaimsOf(crypto, cfg, path, Params([])).Refuse?
  {
  }

  /** Once the target is split and its query accepted, the decision is the decision on the target. */
  lemma DecideOnTarget(crypto: Primitives, cfg: Config, r: Request, path: Bytes, query: Bytes)
    requires Upper(Trim(r.verb)) != [] && r.rawUri != [] && Lower(Trim(r.host)) != []
    requires Upper(Trim(r.verb)) in cfg.supportedMethods
    requires SplitOriginalUri(r.rawUri) == Some((path, query)) && Accepted(query)
    ensures Decide(crypto, cfg, r)
         == DecideTarget(crypto, cfg, Target(Upper(Trim(r.verb)), Lower(Trim(r.host)), path, Params(query)), r.now)
  {
  }

  lemma AllowedOpens(crypto: Primitives, cfg: Config, r: Request)
    requires Decide(crypto, cfg, r).allowed
    ensures Upper(Trim(r.verb)) != [] && r.rawUri != [] && Lower(Trim(r.host)) != []
    ensures Upper(Trim(r.verb)) in cfg.supportedMethods
    ensures SplitOriginalUri(r.rawUri).Some? && Accepted(SplitOriginalUri(r.rawUri).value.1)
  {
  }

  lemma TargetPieces(uri: Bytes, path: Bytes, query: Bytes)
    requires SplitOriginalUri(uri) == Some((path, query)) && query != []
    ensures uri == path + [QUESTION] + query && CleanUri(uri) && QUESTION !in path && ValidPath(path)
  {
    IndexOfIsFirst(uri, QUESTION);
    var idx := IndexOf(uri, QUESTION);
    assert uri == uri[..idx] + [QUESTION] + uri[idx + 1..];
  }

  lemma AllowedHasTarget(crypto: Primitives, cfg: Config, r: Request)
    requires Decide(crypto, cfg, r).allowed
    ensures Upper(Trim(r.verb)) != [] && Lower(Trim(r.host)) != [] && Upper(Trim(r.verb)) in cfg.supportedMethods
    ensures SplitOriginalUri(r.rawUri).Some? && Accepted(SplitOriginalUri(r.rawUri).value.1)
    ensures var (path, query) := SplitOriginalUri(r.rawUri).value;
            && r.rawUri == path + [QUESTION] + query && CleanUri(r.rawUri) && QUESTION !in path && ValidPath(path)
            && ClaimsOf(crypto, cfg, path, Params(query)).Accept?
            && Decide(crypto, cfg, r)
               == Authorize(crypto, cfg, Target(Upper(Trim(r.verb)), Lower(Trim(r.host)), path, Params(query)),
                                                   ClaimsOf(crypto, cfg, path, Params(query)).claims, r.now)
  {
    AllowedOpens(crypto, cfg, r);
    var (path, query) := SplitOriginalUri(r.rawUri).value;
    DecideOnTarget(crypto, cfg, r, path, query);
    ClaimsRefuse(crypto, cfg, path, Params(query));
    NoQueryNoClaims(crypto, cfg, path);
    TargetPieces(r.rawUri, path, query);
  }

  /**
    `verify` allows a request exactly when a grant for it exists; the conditions on the grant come in no
    order, and are stated by assembling the accepted texts, not by parsing them.
   */
  lemma AllowedIffGranted(crypto: Primitives, cfg: Config, r: Request)
    requires cfg.service == S3
    ensures Decide(crypto, cfg, r).allowed <==> exists g :: Grants(crypto, cfg, r, g)
  {
    if Decide(crypto, cfg, r).allowed {
      AllowedHasTarget(crypto, cfg, r);
      var (path, query) := SplitOriginalUri(r.rawUri).value;
      var g := ClaimsAreGranted(crypto, cfg, path, query);
      GrantedIsAuthorized(crypto, cfg, r, g);
      assert Grants(crypto, cfg, r, g);
    }
    if exists g :: Grants(crypto, cfg, r, g) {
      var g :| Grants(crypto, cfg, r, g);
      GrantIsAllowed(crypto, cfg, r, g);
    }
  }

  /** A request whose target and parameters are the granted ones is decided on the claims of the grant. */
  lemma GrantDecides(crypto: Primitives, cfg: Config, r: Request, g: Grant)
    requires cfg.service == S3 && Upper(Trim(r.verb)) in cfg.supportedMethods
    requires Upper(Trim(r.verb)) != [] && Lower(Trim(r.host)) != []
    requires GrantsTarget(r, g) && GrantsParams(g)
    requires SpellsExpiry(g)
    ensures Decide(crypto, cfg, r)
         == Authorize(crypto, cfg, Target(Upper(Trim(r.verb)), Lower(Trim(r.host)), g.path, Params(g.query)),
                      GrantClaims(g), r.now)
  {
    TargetSplits(r, g);
    DecideOnTarget(crypto, cfg, r, g.path, g.query);
    GrantedParamsClaim(crypto, cfg, g);
  }

  /** A granted request is allowed, and the whole result follows from the grant. */
  lemma GrantIsAllowed(crypto: Primitives, cfg: Config, r: Request, g: Grant)
    requires cfg.service == S3 && Grants(crypto, cfg, r, g)
    ensures var p := cfg.credentials[g.accessKey];
            Decide(crypto, cfg, r) == VerifyResult(true, Ok, g.path, Some(p.accessKey), p.accessKeyHash)
  {
    GrantDecides(crypto, cfg, r, g);
    GrantedIsAuthorized(crypto, cfg, r, g);
  }
}
