/** The verification procedure: an ordered sequence of checks, and the code that runs it with a key cache. */
module VerifierCore {
  import opened Wrappers
  import opened ByteStrings
  import opened Seqs
  import opened Decimals
  import opened Timestamps
  import opened Queries
  import opened Paths
  import opened Crypto
  import opened SigningCache
  import opened Compile

  const ALGORITHM: Bytes := Lit("AWS4-HMAC-SHA256")
  const HOST: Bytes := Lit("host")
  const HOST_LINE: Bytes := Lit("\nhost:")
  const SIGNED_HEADERS_LINES: Bytes := Lit("\n\nhost\nUNSIGNED-PAYLOAD")

  datatype Reason =
    | Ok
    | MissingMetadata
    | InvalidUri
    | UnsupportedMethod
    | MissingQueryParam
    | UnsupportedAlgorithm
    | InvalidCredentialScope
    | UnknownAccessKey
    | InvalidExpiry
    | Expired
    | FutureDated
    | UnsupportedSignedHeader
    | SignatureMismatch
    | Unauthorized

  datatype VerifyResult = VerifyResult(
    allowed: bool,
    reason: Reason,
    path: Bytes,
    accessKey: Option<Bytes>,
    accessKeyHash: Bytes)

  function Deny(reason: Reason, path: Bytes, accessKeyHash: Bytes): VerifyResult {
    VerifyResult(false, reason, path, None, accessKeyHash)
  }

  datatype Request = Request(verb: Bytes, rawUri: Bytes, host: Bytes, now: int)

  // ---------- credential scope ----------

  datatype CredentialScope = CredentialScope(
    accessKey: Bytes,
    date: Bytes,
    region: Bytes,
    service: Bytes,
    terminal: Bytes,
    scope: Bytes)

  function ParseCredentialScope(value: Bytes): Option<CredentialScope> {
    var parts := Split(value, SLASH);
    if |parts| != 5 then None
    else if parts[0] == [] || parts[2] == [] || parts[3] == [] || parts[4] == []
            || |parts[1]| != 8 || !AllDigits(parts[1]) then None
    else
      FirstPartFits(value);
      Some(CredentialScope(parts[0], parts[1], parts[2], parts[3], parts[4], value[|parts[0]| + 1..]))
  }

  lemma FirstPartFits(value: Bytes)
    requires |Split(value, SLASH)| > 1
    ensures |Split(value, SLASH)[0]| + 1 <= |value|
  {
  }

  // ---------- what is signed ----------

  function CanonicalRequest(m: Bytes, canonicalPath: Bytes, canonicalQuery: Bytes, host: Bytes): Bytes {
    m + [LF] + canonicalPath + [LF] + canonicalQuery + HOST_LINE + host + SIGNED_HEADERS_LINES
  }

  function StringToSign(amzDate: Bytes, scope: Bytes, requestHash: Digest): Bytes {
    ALGORITHM + [LF] + amzDate + [LF] + scope + [LF] + HexOf(requestHash)
  }

  /** A request after normalisation and parsing. */
  datatype Target = Target(verb: Bytes, host: Bytes, path: Bytes, params: seq<Param>)

  /** What the query claims, once every parameter check has passed. */
  datatype Claims = Claims(scope: CredentialScope, amzDate: Bytes, epoch: int, expires: nat, signature: Bytes)

  function RequestHash(crypto: Primitives, t: Target): Digest {
    crypto.sha256(CanonicalRequest(t.verb, CanonicalPath(t.path), CanonicalOf(t.params), t.host))
  }

  function ScopeOf(s: CredentialScope): Scope { Scope(s.date, s.region, s.service) }

  function ExpectedSignature(crypto: Primitives, seed: Bytes, t: Target, c: Claims): Digest {
    crypto.hmac(DeriveKey(crypto, seed, ScopeOf(c.scope)),
                StringToSign(c.amzDate, c.scope.scope, RequestHash(crypto, t)))
  }

  // ---------- the decision ----------

  datatype Claimed = Accept(claims: Claims) | Refuse(result: VerifyResult)

  /** The parameter checks, in the order they are made. */
  function ClaimsOf(crypto: Primitives, cfg: Config, path: Bytes, params: seq<Param>): Claimed {
    var alg := Single(params, X_AMZ_ALGORITHM);
    if alg.None? then Refuse(Deny(MissingQueryParam, path, []))
    else if alg.value != ALGORITHM then Refuse(Deny(UnsupportedAlgorithm, path, []))
    else
      var credential := Single(params, X_AMZ_CREDENTIAL);
      if credential.None? then Refuse(Deny(MissingQueryParam, path, []))
      else
        match ParseCredentialScope(credential.value)
        case None => Refuse(Deny(InvalidCredentialScope, path, []))
        case Some(scope) => ScopedClaims(cfg, path, params, scope, HashAccessKey(crypto, scope.accessKey))
  }

  function ScopedClaims(cfg: Config, path: Bytes, params: seq<Param>, scope: CredentialScope, hash: Bytes): Claimed {
    if scope.service != cfg.service || scope.terminal != TERMINAL then Refuse(Deny(InvalidCredentialScope, path, hash))
    else
      var headers := Single(params, X_AMZ_SIGNED_HEADERS);
      if headers.None? then Refuse(Deny(MissingQueryParam, path, hash))
      else if headers.value != HOST then Refuse(Deny(UnsupportedSignedHeader, path, hash))
      else
        var date := Single(params, X_AMZ_DATE);
        if date.None? then Refuse(Deny(MissingQueryParam, path, hash))
        else
          match ReadStamp(date.value)
          case None => Refuse(Deny(InvalidCredentialScope, path, hash))
          case Some(stamp) =>
            if date.value[..8] != scope.date then Refuse(Deny(InvalidCredentialScope, path, hash))
            else TimedClaims(path, params, scope, hash, date.value, EpochOf(stamp))
  }

  function TimedClaims(path: Bytes, params: seq<Param>, scope: CredentialScope, hash: Bytes, amzDate: Bytes,
                       epoch: int): Claimed {
    var expires := Single(params, X_AMZ_EXPIRES);
    if expires.None? then Refuse(Deny(MissingQueryParam, path, hash))
    else
      match ParseU64(expires.value)
      case None => Refuse(Deny(InvalidExpiry, path, hash))
      case Some(seconds) =>
        if seconds == 0 || seconds > MAX_EXPIRES then Refuse(Deny(InvalidExpiry, path, hash))
        else
          match Single(params, X_AMZ_SIGNATURE)
          case None => Refuse(Deny(MissingQueryParam, path, hash))
          case Some(signature) => Accept(Claims(scope, amzDate, epoch, seconds, signature))
  }

  predicate MethodAllowed(p: Policy, m: Bytes) { p.allowedMethods == {} || m in p.allowedMethods }

  predicate HostAllowed(p: Policy, h: Bytes) { p.allowedHosts == {} || h in p.allowedHosts }

  predicate PathAllowed(p: Policy, path: Bytes) {
    p.allowedPrefixes == [] ||
    exists i :: 0 <= i < |p.allowedPrefixes| && PathMatchesPrefix(path, p.allowedPrefixes[i])
  }

  predicate PolicyAllows(p: Policy, verb: Bytes, host: Bytes, path: Bytes) {
    p.enabled && MethodAllowed(p, verb) && HostAllowed(p, host) && PathAllowed(p, path)
  }

  datatype Admission = Rejected(result: VerifyResult) | Admitted(policy: Policy)

  /** The credential and policy checks. */
  function Admit(crypto: Primitives, cfg: Config, verb: Bytes, host: Bytes, path: Bytes, c: Claims): Admission {
    if c.scope.accessKey !in cfg.credentials
    then Rejected(Deny(UnknownAccessKey, path, HashAccessKey(crypto, c.scope.accessKey)))
    else
      var p := cfg.credentials[c.scope.accessKey];
      if !PolicyAllows(p, verb, host, path) then Rejected(Deny(Unauthorized, path, p.accessKeyHash))
      else if c.expires > p.maxExpires then Rejected(Deny(InvalidExpiry, path, p.accessKeyHash))
      else Admitted(p)
  }

  /** The credential and policy checks, then time, then the signature. */
  function Authorize(crypto: Primitives, cfg: Config, t: Target, c: Claims, now: int): VerifyResult {
    match Admit(crypto, cfg, t.verb, t.host, t.path, c)
    case Rejected(result) => result
    case Admitted(p) =>
      InWindow(IsFutureDated(c.epoch, now, cfg.skew), IsExpired(c.epoch, now, c.expires), t.path, p.accessKeyHash,
               CheckSignature(crypto, p, t, c))
  }

  /** The verdict `inside`, unless the instant lies before or after the validity window. */
  function InWindow(early: bool, late: bool, path: Bytes, hash: Bytes, inside: VerifyResult): VerifyResult {
    if early then Deny(FutureDated, path, hash)
    else if late then Deny(Expired, path, hash)
    else inside
  }

  function CheckSignature(crypto: Primitives, p: Policy, t: Target, c: Claims): VerifyResult {
    if DecodedSignature(c.signature) != Some(ExpectedSignature(crypto, p.secretSeed, t, c))
    then Deny(SignatureMismatch, t.path, p.accessKeyHash)
    else VerifyResult(true, Ok, t.path, Some(p.accessKey), p.accessKeyHash)
  }

  /** The checks that come before the query is parsed. */
  datatype Opened = Closed(result: VerifyResult) | Open(verb: Bytes, host: Bytes, path: Bytes, query: Bytes)

  function OpenRequest(cfg: Config, r: Request): Opened {
    var m, h := Upper(Trim(r.verb)), Lower(Trim(r.host));
    if m == [] || r.rawUri == [] || h == [] then Closed(Deny(MissingMetadata, [], []))
    else
      var parts := SplitOriginalUri(r.rawUri);
      if m !in cfg.supportedMethods then Closed(Deny(UnsupportedMethod, if parts.Some? then parts.value.0 else [], []))
      else if parts.None? then Closed(Deny(InvalidUri, [], []))
      else Open(m, h, parts.value.0, parts.value.1)
  }

  /** `verify` as a function of the request and the immutable configuration: no cache appears in it. */
  function Decide(crypto: Primitives, cfg: Config, r: Request): VerifyResult {
    match OpenRequest(cfg, r)
    case Closed(result) => result
    case Open(verb, host, path, query) => DecideQuery(crypto, cfg, verb, host, path, query, r.now)
  }

  function DecideQuery(crypto: Primitives, cfg: Config, verb: Bytes, host: Bytes, path: Bytes, query: Bytes,
                       now: int): VerifyResult {
    if !Accepted(query) then Deny(InvalidUri, path, [])
    else DecideTarget(crypto, cfg, Target(verb, host, path, Params(query)), now)
  }

  function DecideTarget(crypto: Primitives, cfg: Config, t: Target, now: int): VerifyResult {
    Conclude(crypto, cfg, t, ClaimsOf(crypto, cfg, t.path, t.params), now)
  }

  function Conclude(crypto: Primitives, cfg: Config, t: Target, claimed: Claimed, now: int): VerifyResult {
    match claimed
    case Refuse(result) => result
    case Accept(claims) => Authorize(crypto, cfg, t, claims, now)
  }

  /** A refusal for a reason other than time, that names the path. */
  predicate RefusesUntimed(c: Claimed, path: Bytes) {
    c.Refuse? ==>
      && !c.result.allowed && c.result.path == path
      && c.result.reason != Ok && c.result.reason != FutureDated && c.result.reason != Expired
  }

  lemma ScopedClaimsRefuse(cfg: Config, path: Bytes, params: seq<Param>, scope: CredentialScope, hash: Bytes)
    ensures RefusesUntimed(ScopedClaims(cfg, path, params, scope, hash), path)
  {
  }

  /** A parameter check that fails denies the request, whatever the time. */
  lemma ClaimsRefuse(crypto: Primitives, cfg: Config, path: Bytes, params: seq<Param>)
    ensures RefusesUntimed(ClaimsOf(crypto, cfg, path, params), path)
  {
    var credential := Single(params, X_AMZ_CREDENTIAL);
    if credential.Some? && ParseCredentialScope(credential.value).Some? {
      var scope := ParseCredentialScope(credential.value).value;
      ScopedClaimsRefuse(cfg, path, params, scope, HashAccessKey(crypto, scope.accessKey));
    }
  }

  // ---------- the code ----------

  method HashCanonicalRequest(crypto: Primitives, m: Bytes, canonicalPath: Bytes, canonicalQuery: Bytes, host: Bytes)
    returns (hash: Digest)
    ensures hash == crypto.sha256(CanonicalRequest(m, canonicalPath, canonicalQuery, host))
  {
    var canonical: Bytes := [];
    canonical := canonical + m;
    canonical := canonical + [LF];
    canonical := canonical + canonicalPath;
    canonical := canonical + [LF];
    canonical := canonical + canonicalQuery;
    canonical := canonical + HOST_LINE;
    canonical := canonical + host;
    canonical := canonical + SIGNED_HEADERS_LINES;
    assert [] + m == m;
    hash := crypto.sha256(canonical);
  }

  method Sign(crypto: Primitives, cache: SigningKeyCache, c: Claims, canonicalHash: Digest) returns (signature: Digest)
    requires cache.Valid() && cache.crypto == crypto
    modifies cache
    ensures cache.Valid()
    ensures signature == crypto.hmac(DeriveKey(crypto, cache.secretSeed, ScopeOf(c.scope)),
                                     StringToSign(c.amzDate, c.scope.scope, canonicalHash))
  {
    var signingKey := cache.SigningKey(c.scope.date, c.scope.region, c.scope.service);
    var stringToSign := ALGORITHM;
    stringToSign := stringToSign + [LF];
    stringToSign := stringToSign + c.amzDate;
    stringToSign := stringToSign + [LF];
    stringToSign := stringToSign + c.scope.scope;
    stringToSign := stringToSign + [LF];
    stringToSign := AppendHexLower(stringToSign, canonicalHash);
    signature := crypto.hmac(signingKey, stringToSign);
  }

  /** The parameter checks on the filled record; the decoded list it was filled from is ghost. */
  method ExtractClaims(crypto: Primitives, cfg: Config, path: Bytes, q: SigV4Query, ghost params: seq<Param>)
    returns (r: Claimed)
    requires q.Holds(params)
    ensures r == ClaimsOf(crypto, cfg, path, params)
  {
    RecordedSingles(q, params);
    var alg := SingleKnownValue(q.algorithm, q.algorithmCount);
    if alg.None? {
      return Refuse(Deny(MissingQueryParam, path, []));
    }
    if alg.value != ALGORITHM {
      return Refuse(Deny(UnsupportedAlgorithm, path, []));
    }
    var credential := SingleKnownValue(q.credential, q.credentialCount);
    if credential.None? {
      return Refuse(Deny(MissingQueryParam, path, []));
    }
    var scope := ParseCredentialScope(credential.value);
    if scope.None? {
      return Refuse(Deny(InvalidCredentialScope, path, []));
    }
    r := ExtractScoped(crypto, cfg, path, q, params, scope.value);
  }

  method ExtractScoped(crypto: Primitives, cfg: Config, path: Bytes, q: SigV4Query, ghost params: seq<Param>,
                       scope: CredentialScope)
    returns (r: Claimed)
    requires q.Holds(params)
    ensures r == ScopedClaims(cfg, path, params, scope, HashAccessKey(crypto, scope.accessKey))
  {
    RecordedSingles(q, params);
    var hash := HashAccessKey(crypto, scope.accessKey);
    if scope.service != cfg.service || scope.terminal != TERMINAL {
      return Refuse(Deny(InvalidCredentialScope, path, hash));
    }
    var signedHeaders := SingleKnownValue(q.signedHeaders, q.signedHeadersCount);
    if signedHeaders.None? {
      return Refuse(Deny(MissingQueryParam, path, hash));
    }
    if signedHeaders.value != HOST {
      return Refuse(Deny(UnsupportedSignedHeader, path, hash));
    }
    var amzDate := SingleKnownValue(q.date, q.dateCount);
    if amzDate.None? {
      return Refuse(Deny(MissingQueryParam, path, hash));
    }
    var parsed := ParseAmzDate(amzDate.value);
    if parsed.None? || parsed.value.date != scope.date {
      return Refuse(Deny(InvalidCredentialScope, path, hash));
    }
    r := ExtractTimed(path, q, params, scope, hash, amzDate.value, parsed.value.epochSeconds);
  }

  method ExtractTimed(path: Bytes, q: SigV4Query, ghost params: seq<Param>, scope: CredentialScope, hash: Bytes,
                      amzDate: Bytes, epoch: int)
    returns (r: Claimed)
    requires q.Holds(params)
    ensures r == TimedClaims(path, params, scope, hash, amzDate, epoch)
  {
    RecordedSingles(q, params);
    var expires := SingleKnownValue(q.expires, q.expiresCount);
    if expires.None? {
      return Refuse(Deny(MissingQueryParam, path, hash));
    }
    var seconds := ParseU64(expires.value);
    if seconds.None? || seconds.value == 0 || seconds.value > MAX_EXPIRES {
      return Refuse(Deny(InvalidExpiry, path, hash));
    }
    var signature := SingleKnownValue(q.signature, q.signatureCount);
    if signature.None? {
      return Refuse(Deny(MissingQueryParam, path, hash));
    }
    return Accept(Claims(scope, amzDate, epoch, seconds.value, signature.value));
  }

  method CheckPolicy(crypto: Primitives, cfg: Config, verb: Bytes, host: Bytes, path: Bytes, c: Claims)
    returns (r: Admission)
    ensures r == Admit(crypto, cfg, verb, host, path, c)
  {
    if c.scope.accessKey !in cfg.credentials {
      return Rejected(Deny(UnknownAccessKey, path, HashAccessKey(crypto, c.scope.accessKey)));
    }
    var cred := cfg.credentials[c.scope.accessKey];
    if !cred.enabled {
      return Rejected(Deny(Unauthorized, path, cred.accessKeyHash));
    }
    if !MethodAllowed(cred, verb) || !HostAllowed(cred, host) || !PathAllowed(cred, path) {
      return Rejected(Deny(Unauthorized, path, cred.accessKeyHash));
    }
    if c.expires > cred.maxExpires {
      return Rejected(Deny(InvalidExpiry, path, cred.accessKeyHash));
    }
    return Admitted(cred);
  }

  lemma AdmittedIsConfigured(crypto: Primitives, cfg: Config, verb: Bytes, host: Bytes, path: Bytes, c: Claims)
    requires Admit(crypto, cfg, verb, host, path, c).Admitted?
    ensures c.scope.accessKey in cfg.credentials
    ensures Admit(crypto, cfg, verb, host, path, c).policy == cfg.credentials[c.scope.accessKey]
  {
  }

  class Verifier {
    const crypto: Primitives
    const config: Config
    const caches: map<Bytes, SigningKeyCache>

    /** Every credential has a sound key cache of its own seed. */
    ghost predicate Valid()
      reads caches.Values
    {
      && caches.Keys == config.credentials.Keys
      && forall k :: k in caches ==>
                       && caches[k].Valid() && caches[k].crypto == crypto
                       && caches[k].secretSeed == config.credentials[k].secretSeed
    }

    constructor (crypto: Primitives, config: Config)
      ensures Valid() && this.crypto == crypto && this.config == config
    {
      this.crypto, this.config := crypto, config;
      var built: map<Bytes, SigningKeyCache> := map[];
      var todo := config.credentials.Keys;
      while todo != {}
        invariant todo <= config.credentials.Keys && built.Keys == config.credentials.Keys - todo
        invariant forall k :: k in built ==>
                                built[k].Valid() && built[k].crypto == crypto
                                && built[k].secretSeed == config.credentials[k].secretSeed
      {
        var k :| k in todo;
        var cache := new SigningKeyCache(crypto, config.credentials[k].secretSeed);
        built := built[k := cache];
        todo := todo - {k};
      }
      caches := built;
    }

    /** The verdict is the pure decision, whatever the caches hold; the caches stay sound. */
    method Verify(r: Request) returns (result: VerifyResult)
      requires Valid()
      modifies caches.Values
      ensures Valid()
      ensures result == Decide(crypto, config, r)
    {
      var m := Upper(Trim(r.verb));
      var h := Lower(Trim(r.host));
      if m == [] || r.rawUri == [] || h == [] {
        return Deny(MissingMetadata, [], []);
      }
      var parts := SplitOriginalUri(r.rawUri);
      if m !in config.supportedMethods {
        return Deny(UnsupportedMethod, if parts.Some? then parts.value.0 else [], []);
      }
      if parts.None? {
        return Deny(InvalidUri, [], []);
      }
      var (path, rawQuery) := parts.value;
      var canonicalQuery, q := CanonicalQuery(rawQuery);
      if canonicalQuery.None? {
        return Deny(InvalidUri, path, []);
      }
      ghost var t := Target(m, h, path, Params(rawQuery));
      var extracted := ExtractClaims(crypto, config, path, q, Params(rawQuery));
      if extracted.Refuse? {
        return extracted.result;
      }
      ClaimedSignature(crypto, config, path, Params(rawQuery));
      result := Finish(m, h, path, canonicalQuery.value, q, extracted.claims, r.now, t);
    }

    method Finish(m: Bytes, h: Bytes, path: Bytes, canonicalQuery: Bytes, q: SigV4Query, c: Claims, now: int,
                  ghost t: Target)
      returns (result: VerifyResult)
      requires Valid()
      requires t.verb == m && t.host == h && t.path == path && canonicalQuery == CanonicalOf(t.params)
      requires q.Holds(t.params) && Single(t.params, X_AMZ_SIGNATURE) == Some(c.signature)
      modifies caches.Values
      ensures Valid()
      ensures result == Authorize(crypto, config, t, c, now)
    {
      var admission := CheckPolicy(crypto, config, m, h, path, c);
      if admission.Rejected? {
        return admission.result;
      }
      var cred := admission.policy;
      if IsFutureDated(c.epoch, now, config.skew) {
        return Deny(FutureDated, path, cred.accessKeyHash);
      }
      if IsExpired(c.epoch, now, c.expires) {
        return Deny(Expired, path, cred.accessKeyHash);
      }
      AdmittedIsConfigured(crypto, config, m, h, path, c);
      result := Match(m, h, path, canonicalQuery, q, c, cred, t);
    }

    method Match(m: Bytes, h: Bytes, path: Bytes, canonicalQuery: Bytes, q: SigV4Query, c: Claims, cred: Policy,
                 ghost t: Target)
      returns (result: VerifyResult)
      requires Valid()
      requires t.verb == m && t.host == h && t.path == path && canonicalQuery == CanonicalOf(t.params)
      requires q.Holds(t.params) && Single(t.params, X_AMZ_SIGNATURE) == Some(c.signature)
      requires c.scope.accessKey in config.credentials && cred == config.credentials[c.scope.accessKey]
      modifies caches.Values
      ensures Valid()
      ensures result == CheckSignature(crypto, cred, t, c)
    {
      RecordedSingles(q, t.params);
      // The second lookup of the signature, which the source unwraps with `expect`, cannot fail.
      var signatureHex := SingleKnownValue(q.signature, q.signatureCount).value;
      var canonicalPath := CanonicalUriFromValidPath(path);
      var canonicalHash := HashCanonicalRequest(crypto, m, canonicalPath, canonicalQuery, h);
      var expected := Sign(crypto, caches[c.scope.accessKey], c, canonicalHash);
      var signature := DecodeSignature(signatureHex);
      if signature.None? {
        return Deny(SignatureMismatch, path, cred.accessKeyHash);
      }
      if signature.value != expected {
        return Deny(SignatureMismatch, path, cred.accessKeyHash);
      }
      return VerifyResult(true, Ok, path, Some(cred.accessKey), cred.accessKeyHash);
    }
  }

  /** Whenever the parameter checks pass, the signature parameter is the one that was counted. */
  lemma ClaimedSignature(crypto: Primitives, cfg: Config, path: Bytes, params: seq<Param>)
    requires ClaimsOf(crypto, cfg, path, params).Accept?
    ensures Single(params, X_AMZ_SIGNATURE) == Some(ClaimsOf(crypto, cfg, path, params).claims.signature)
  {
  }
}
