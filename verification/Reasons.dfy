/** The whole result of a request: the denial of the first failing check of one fixed list, or success. */
module Reasons {
  import opened Wrappers
  import opened ByteStrings
  import opened Timestamps
  import opened Decimals
  import opened Queries
  import opened Paths
  import opened Crypto
  import opened Compile
  import opened VerifierCore

  /** One entry of the list: a check that looks at the request alone, and the result if it is the first to fail. */
  datatype Check = Check(passes: bool, otherwise: VerifyResult)

  /** The result of the first check that fails, if any does. */
  function FirstFailure(checks: seq<Check>): Option<VerifyResult> {
    if checks == [] then None
    else if checks[0].passes then FirstFailure(checks[1..])
    else Some(checks[0].otherwise)
  }

  function OrElse(first: Option<VerifyResult>, second: Option<VerifyResult>): Option<VerifyResult> {
    if first.Some? then first else second
  }

  lemma FirstFailureCons(c: Check, rest: seq<Check>)
    ensures FirstFailure([c] + rest) == if c.passes then FirstFailure(rest) else Some(c.otherwise)
  {
    assert ([c] + rest)[1..] == rest;
  }

  lemma {:induction false} FirstFailureConcat(a: seq<Check>, b: seq<Check>)
    ensures FirstFailure(a + b) == OrElse(FirstFailure(a), FirstFailure(b))
  {
    if a == [] {
      assert a + b == b;
    } else {
      FirstFailureConcat(a[1..], b);
      assert (a + b)[1..] == a[1..] + b;
    }
  }

  lemma {:induction false} NoFailureIffAllPass(checks: seq<Check>)
    ensures FirstFailure(checks).None? <==> forall i :: 0 <= i < |checks| ==> checks[i].passes
  {
    if checks == [] {
    } else {
      NoFailureIffAllPass(checks[1..]);
      assert checks == [checks[0]] + checks[1..];
    }
  }

  // ---------- what the request says, check or no check ----------

  function TextOf(o: Option<Bytes>): Bytes { match o case None => [] case Some(v) => v }

  function PathOf(r: Request): Bytes { match SplitOriginalUri(r.rawUri) case None => [] case Some(parts) => parts.0 }

  function QueryOf(r: Request): Bytes { match SplitOriginalUri(r.rawUri) case None => [] case Some(parts) => parts.1 }

  function ScopeClaimed(params: seq<Param>): CredentialScope {
    match ParseCredentialScope(TextOf(Single(params, X_AMZ_CREDENTIAL)))
    case None => CredentialScope([], [], [], [], [], [])
    case Some(s) => s
  }

  function StampClaimed(params: seq<Param>): Stamp {
    match ReadStamp(TextOf(Single(params, X_AMZ_DATE))) case None => Stamp(0, 0, 0, 0, 0, 0) case Some(t) => t
  }

  function ExpiryClaimed(params: seq<Param>): nat {
    match ParseU64(TextOf(Single(params, X_AMZ_EXPIRES))) case None => 0 case Some(e) => e
  }

  function ClaimsClaimed(params: seq<Param>): Claims {
    Claims(ScopeClaimed(params), TextOf(Single(params, X_AMZ_DATE)), EpochOf(StampClaimed(params)),
           ExpiryClaimed(params),
           TextOf(Single(params, X_AMZ_SIGNATURE)))
  }

  /** The label of an access key in results: the first eight bytes of its SHA-256, in hex. */
  function KeyLabel(crypto: Primitives, accessKey: Bytes): Bytes {
    if accessKey == [] then [] else Lit("sha256:") + HexOf(crypto.sha256(accessKey))[..16]
  }

  lemma {:induction false} HexOfPrefix(d: Bytes, n: nat)
    requires n <= |d|
    ensures HexOf(d)[..2 * n] == HexOf(d[..n])
    decreases n
  {
    if n == 0 {
      assert d[..0] == [];
    } else {
      HexOfPrefix(d[1..], n - 1);
      assert d[..n][1..] == d[1..][..n - 1];
      var pair := HexOf(d)[..2];
      assert HexOf(d) == pair + HexOf(d[1..]);
      assert (pair + HexOf(d[1..]))[..2 * n] == pair + HexOf(d[1..])[..2 * (n - 1)];
    }
  }

  lemma HashIsLabel(crypto: Primitives, accessKey: Bytes)
    ensures HashAccessKey(crypto, accessKey) == KeyLabel(crypto, accessKey)
  {
    HexOfPrefix(crypto.sha256(accessKey), 8);
  }

  function LabelOf(cfg: Config, accessKey: Bytes): Bytes {
    if accessKey in cfg.credentials then cfg.credentials[accessKey].accessKeyHash else []
  }

  // ---------- the list ----------

  function Denial(reason: Reason, path: Bytes, hash: Bytes): VerifyResult {
    VerifyResult(false, reason, path, None, hash)
  }

  function TargetChecks(cfg: Config, r: Request): seq<Check> {
    [Check(Upper(Trim(r.verb)) != [] && r.rawUri != [] && Lower(Trim(r.host)) != [], Denial(MissingMetadata, [], [])),
     Check(Upper(Trim(r.verb)) in cfg.supportedMethods, Denial(UnsupportedMethod, PathOf(r), [])),
     Check(SplitOriginalUri(r.rawUri).Some?, Denial(InvalidUri, [], [])),
     Check(Accepted(QueryOf(r)), Denial(InvalidUri, PathOf(r), []))]
  }

  function CredentialChecks(cfg: Config, path: Bytes, params: seq<Param>): seq<Check> {
    [Check(Single(params, X_AMZ_ALGORITHM).Some?, Denial(MissingQueryParam, path, [])),
     Check(Single(params, X_AMZ_ALGORITHM) == Some(ALGORITHM), Denial(UnsupportedAlgorithm, path, [])),
     Check(Single(params, X_AMZ_CREDENTIAL).Some?, Denial(MissingQueryParam, path, [])),
     Check(ParseCredentialScope(TextOf(Single(params, X_AMZ_CREDENTIAL))).Some?,
           Denial(InvalidCredentialScope, path, []))]
  }

  function ScopeChecks(cfg: Config, path: Bytes, params: seq<Param>, tag: Bytes): seq<Check> {
    [Check(ScopeClaimed(params).service == cfg.service && ScopeClaimed(params).terminal == TERMINAL,
           Denial(InvalidCredentialScope, path, tag)),
     Check(Single(params, X_AMZ_SIGNED_HEADERS).Some?, Denial(MissingQueryParam, path, tag)),
     Check(Single(params, X_AMZ_SIGNED_HEADERS) == Some(HOST), Denial(UnsupportedSignedHeader, path, tag)),
     Check(Single(params, X_AMZ_DATE).Some?, Denial(MissingQueryParam, path, tag)),
     Check(ReadStamp(TextOf(Single(params, X_AMZ_DATE))).Some?
           && TextOf(Single(params, X_AMZ_DATE))[..8] == ScopeClaimed(params).date,
           Denial(InvalidCredentialScope, path, tag))]
  }

  function ExpiryChecks(path: Bytes, params: seq<Param>, tag: Bytes): seq<Check> {
    [Check(Single(params, X_AMZ_EXPIRES).Some?, Denial(MissingQueryParam, path, tag)),
     Check(1 <= ExpiryClaimed(params) <= 7 * 24 * 60 * 60, Denial(InvalidExpiry, path, tag)),
     Check(Single(params, X_AMZ_SIGNATURE).Some?, Denial(MissingQueryParam, path, tag))]
  }

  function ClaimChecks(crypto: Primitives, cfg: Config, path: Bytes, params: seq<Param>): seq<Check> {
    var tag := KeyLabel(crypto, ScopeClaimed(params).accessKey);
    CredentialChecks(cfg, path, params) + (ScopeChecks(cfg, path, params, tag) + ExpiryChecks(path, params, tag))
  }

  function PolicyChecks(crypto: Primitives, cfg: Config, t: Target, c: Claims, early: bool, late: bool): seq<Check> {
    var key := c.scope.accessKey;
    var tag := LabelOf(cfg, key);
    [Check(key in cfg.credentials, Denial(UnknownAccessKey, t.path, KeyLabel(crypto, key))),
     Check(key in cfg.credentials && PolicyAllows(cfg.credentials[key], t.verb, t.host, t.path),
           Denial(Unauthorized, t.path, tag)),
     Check(key in cfg.credentials && c.expires <= cfg.credentials[key].maxExpires, Denial(InvalidExpiry, t.path, tag)),
     Check(!early, Denial(FutureDated, t.path, tag)),
     Check(!late, Denial(Expired, t.path, tag)),
     Check(key in cfg.credentials
           && DecodedSignature(c.signature) == Some(ExpectedSignature(crypto, cfg.credentials[key].secretSeed, t, c)),
           Denial(SignatureMismatch, t.path, tag))]
  }

  /** The time checks; the second holds in exact arithmetic, the first as far as clamping allows. */
  function TimedPolicyChecks(crypto: Primitives, cfg: Config, t: Target, c: Claims, now: int): seq<Check> {
    PolicyChecks(crypto, cfg, t, c, !NotEarly(c.epoch, now, cfg.skew), now > c.epoch + c.expires)
  }

  function TargetOf(r: Request): Target {
    Target(Upper(Trim(r.verb)), Lower(Trim(r.host)), PathOf(r), Params(QueryOf(r)))
  }

  /** The fixed priority list. */
  function AllChecks(crypto: Primitives, cfg: Config, r: Request): seq<Check> {
    var t := TargetOf(r);
    TargetChecks(cfg, r)
    + (ClaimChecks(crypto, cfg, t.path, t.params)
       + TimedPolicyChecks(crypto, cfg, t, ClaimsClaimed(t.params), r.now))
  }

  /** The result when no check fails: that of the configured credential. */
  function Success(cfg: Config, t: Target, c: Claims): VerifyResult {
    var key := c.scope.accessKey;
    if key in cfg.credentials
    then VerifyResult(true, Ok, t.path, Some(cfg.credentials[key].accessKey), cfg.credentials[key].accessKeyHash)
    else VerifyResult(true, Ok, t.path, None, [])
  }

  // ---------- short lists ----------

  lemma FirstOfThree(a: Check, b: Check, c: Check)
    ensures FirstFailure([a, b, c])
         == if !a.passes then Some(a.otherwise) else if !b.passes then Some(b.otherwise)
            else if !c.passes then Some(c.otherwise) else None
  {
    FirstFailureCons(c, []);
    FirstFailureCons(b, [c]);
    FirstFailureCons(a, [b, c]);
    assert [a, b, c] == [a] + [b, c] && [b, c] == [b] + [c] && [c] == [c] + [];
  }

  lemma FirstOfFour(a: Check, b: Check, c: Check, d: Check)
    ensures FirstFailure([a, b, c, d]) == if !a.passes then Some(a.otherwise) else FirstFailure([b, c, d])
  {
    FirstFailureCons(a, [b, c, d]);
    assert [a, b, c, d] == [a] + [b, c, d];
  }

  lemma FirstOfFive(a: Check, b: Check, c: Check, d: Check, e: Check)
    ensures FirstFailure([a, b, c, d, e]) == if !a.passes then Some(a.otherwise) else FirstFailure([b, c, d, e])
  {
    FirstFailureCons(a, [b, c, d, e]);
    assert [a, b, c, d, e] == [a] + [b, c, d, e];
  }

  lemma FirstOfSix(a: Check, b: Check, c: Check, d: Check, e: Check, f: Check)
    ensures FirstFailure([a, b, c, d, e, f])
         == if !a.passes then Some(a.otherwise) else if !b.passes then Some(b.otherwise)
            else if !c.passes then Some(c.otherwise) else FirstFailure([d, e, f])
  {
    FirstFailureCons(a, [b, c, d, e, f]);
    assert [a, b, c, d, e, f] == [a] + [b, c, d, e, f];
    FirstOfFive(b, c, d, e, f);
    FirstOfFour(c, d, e, f);
  }

  // ---------- stage by stage ----------

  /** A stage that follows its checks: refused with the first failure, or the next stage's outcome. */
  predicate Follows(checks: seq<Check>, stage: Claimed, next: Claimed) {
    match FirstFailure(checks)
    case Some(result) => stage == Refuse(result)
    case None => stage == next
  }

  lemma FollowsThree(a: seq<Check>, b: seq<Check>, c: seq<Check>, s1: Claimed, s2: Claimed, s3: Claimed, s4: Claimed)
    requires Follows(a, s1, s2) && Follows(b, s2, s3) && Follows(c, s3, s4)
    ensures Follows(a + (b + c), s1, s4)
  {
    FirstFailureConcat(b, c);
    FirstFailureConcat(a, b + c);
  }

  lemma CredentialFollows(crypto: Primitives, cfg: Config, path: Bytes, params: seq<Param>)
    ensures Follows(CredentialChecks(cfg, path, params), ClaimsOf(crypto, cfg, path, params),
                    ScopedClaims(cfg, path, params, ScopeClaimed(params),
                                 HashAccessKey(crypto, ScopeClaimed(params).accessKey)))
  {
    var c := CredentialChecks(cfg, path, params);
    FirstOfFour(c[0], c[1], c[2], c[3]);
    FirstOfThree(c[1], c[2], c[3]);
  }

  lemma ScopeFollows(cfg: Config, path: Bytes, params: seq<Param>, tag: Bytes)
    ensures Follows(ScopeChecks(cfg, path, params, tag),
                    ScopedClaims(cfg, path, params, ScopeClaimed(params), tag),
                    TimedClaims(path, params, ScopeClaimed(params), tag, TextOf(Single(params, X_AMZ_DATE)),
                                EpochOf(StampClaimed(params))))
  {
    var c := ScopeChecks(cfg, path, params, tag);
    FirstOfFive(c[0], c[1], c[2], c[3], c[4]);
    FirstOfFour(c[1], c[2], c[3], c[4]);
    FirstOfThree(c[2], c[3], c[4]);
  }

  lemma ExpiryFollows(path: Bytes, params: seq<Param>, scope: CredentialScope, tag: Bytes, amzDate: Bytes, epoch: int)
    ensures Follows(ExpiryChecks(path, params, tag), TimedClaims(path, params, scope, tag, amzDate, epoch),
                    Accept(Claims(scope, amzDate, epoch, ExpiryClaimed(params),
                                  TextOf(Single(params, X_AMZ_SIGNATURE)))))
  {
    var c := ExpiryChecks(path, params, tag);
    FirstOfThree(c[0], c[1], c[2]);
  }

  /** The parameter checks as a whole: refused with the first failure, or passed with the claimed values. */
  lemma ClaimsFollow(crypto: Primitives, cfg: Config, path: Bytes, params: seq<Param>)
    ensures Follows(ClaimChecks(crypto, cfg, path, params), ClaimsOf(crypto, cfg, path, params),
                    Accept(ClaimsClaimed(params)))
  {
    var scope, date, epoch := ScopeClaimed(params), TextOf(Single(params, X_AMZ_DATE)), EpochOf(StampClaimed(params));
    var tag := KeyLabel(crypto, scope.accessKey);
    HashIsLabel(crypto, scope.accessKey);
    CredentialFollows(crypto, cfg, path, params);
    ScopeFollows(cfg, path, params, tag);
    ExpiryFollows(path, params, scope, tag, date, epoch);
    FollowsThree(CredentialChecks(cfg, path, params), ScopeChecks(cfg, path, params, tag),
                 ExpiryChecks(path, params, tag),
                 ClaimsOf(crypto, cfg, path, params), ScopedClaims(cfg, path, params, scope, tag),
                 TimedClaims(path, params, scope, tag, date, epoch), Accept(ClaimsClaimed(params)));
  }

  /** The result a list of checks leaves, given the result when none fails. */
  function Result(checks: seq<Check>, success: VerifyResult): VerifyResult {
    match FirstFailure(checks) case Some(result) => result case None => success
  }

  lemma PolicyResult(crypto: Primitives, cfg: Config, t: Target, c: Claims, early: bool, late: bool)
    ensures Result(PolicyChecks(crypto, cfg, t, c, early, late), Success(cfg, t, c))
         == match Admit(crypto, cfg, t.verb, t.host, t.path, c)
            case Rejected(result) => result
            case Admitted(p) => InWindow(early, late, t.path, p.accessKeyHash, CheckSignature(crypto, p, t, c))
  {
    var k := PolicyChecks(crypto, cfg, t, c, early, late);
    HashIsLabel(crypto, c.scope.accessKey);
    FirstOfSix(k[0], k[1], k[2], k[3], k[4], k[5]);
    FirstOfThree(k[3], k[4], k[5]);
  }

  lemma AuthorizedResult(crypto: Primitives, cfg: Config, t: Target, c: Claims, now: int)
    requires MIN_EPOCH <= c.epoch <= MAX_EPOCH && c.expires <= MAX_EXPIRES
    ensures Authorize(crypto, cfg, t, c, now) == Result(TimedPolicyChecks(crypto, cfg, t, c, now), Success(cfg, t, c))
  {
    FutureTestIs(c.epoch, now, cfg.skew);
    ExpiryIsExact(c.epoch, now, c.expires);
    PolicyResult(crypto, cfg, t, c, !NotEarly(c.epoch, now, cfg.skew), now > c.epoch + c.expires);
  }

  lemma StampIsBounded(params: seq<Param>)
    requires ReadStamp(TextOf(Single(params, X_AMZ_DATE))).Some?
    ensures MIN_EPOCH <= EpochOf(StampClaimed(params)) <= MAX_EPOCH
  {
    EpochRange(StampClaimed(params));
  }

  /** Claims that passed carry an instant of an accepted timestamp and at most seven days. */
  lemma PassedClaimsAreBounded(crypto: Primitives, cfg: Config, path: Bytes, params: seq<Param>)
    requires FirstFailure(ClaimChecks(crypto, cfg, path, params)).None?
    ensures MIN_EPOCH <= ClaimsClaimed(params).epoch <= MAX_EPOCH && ClaimsClaimed(params).expires <= MAX_EXPIRES
  {
    var tag := KeyLabel(crypto, ScopeClaimed(params).accessKey);
    var scope, expiry := ScopeChecks(cfg, path, params, tag), ExpiryChecks(path, params, tag);
    FirstFailureConcat(scope, expiry);
    FirstFailureConcat(CredentialChecks(cfg, path, params), scope + expiry);
    NoFailureIffAllPass(scope);
    NoFailureIffAllPass(expiry);
    assert scope[4].passes && expiry[1].passes;
    StampIsBounded(params);
  }

  lemma ConcludedResult(crypto: Primitives, cfg: Config, t: Target, now: int)
    ensures DecideTarget(crypto, cfg, t, now)
         == Result(ClaimChecks(crypto, cfg, t.path, t.params)
                   + TimedPolicyChecks(crypto, cfg, t, ClaimsClaimed(t.params), now),
                   Success(cfg, t, ClaimsClaimed(t.params)))
  {
    var c := ClaimsClaimed(t.params);
    var first, later := ClaimChecks(crypto, cfg, t.path, t.params), TimedPolicyChecks(crypto, cfg, t, c, now);
    ClaimsFollow(crypto, cfg, t.path, t.params);
    FirstFailureConcat(first, later);
    if FirstFailure(first).None? {
      PassedClaimsAreBounded(crypto, cfg, t.path, t.params);
      AuthorizedResult(crypto, cfg, t, c, now);
    }
  }

  lemma TargetResult(crypto: Primitives, cfg: Config, r: Request)
    ensures Decide(crypto, cfg, r)
         == match FirstFailure(TargetChecks(cfg, r))
            case Some(result) => result
            case None => DecideTarget(crypto, cfg, TargetOf(r), r.now)
  {
    var c := TargetChecks(cfg, r);
    FirstOfFour(c[0], c[1], c[2], c[3]);
    FirstOfThree(c[1], c[2], c[3]);
  }

  /**
    The whole result is that of the first failing check of the list: its reason, the path as far as it is
    known, and the label of the access key as far as it is known.  If none fails, the request is allowed.
   */
  lemma ResultIsFirstFailure(crypto: Primitives, cfg: Config, r: Request)
    ensures Decide(crypto, cfg, r)
         == Result(AllChecks(crypto, cfg, r), Success(cfg, TargetOf(r), ClaimsClaimed(TargetOf(r).params)))
  {
    var t := TargetOf(r);
    var later := ClaimChecks(crypto, cfg, t.path, t.params)
                 + TimedPolicyChecks(crypto, cfg, t, ClaimsClaimed(t.params), r.now);
    FirstFailureConcat(TargetChecks(cfg, r), later);
    TargetResult(crypto, cfg, r);
    ConcludedResult(crypto, cfg, t, r.now);
  }

  predicate Denies(checks: seq<Check>) {
    forall i :: 0 <= i < |checks| ==> !checks[i].otherwise.allowed && checks[i].otherwise.reason != Ok
  }

  lemma DeniesConcat(a: seq<Check>, b: seq<Check>)
    requires Denies(a) && Denies(b)
    ensures Denies(a + b)
  {
  }

  lemma TargetChecksDeny(cfg: Config, r: Request)
    ensures Denies(TargetChecks(cfg, r))
  {
  }

  lemma CredentialChecksDeny(cfg: Config, path: Bytes, params: seq<Param>)
    ensures Denies(CredentialChecks(cfg, path, params))
  {
  }

  lemma ScopeChecksDeny(cfg: Config, path: Bytes, params: seq<Param>, tag: Bytes)
    ensures Denies(ScopeChecks(cfg, path, params, tag)) && Denies(ExpiryChecks(path, params, tag))
  {
  }

  lemma PolicyChecksDeny(crypto: Primitives, cfg: Config, t: Target, c: Claims, early: bool, late: bool)
    ensures Denies(PolicyChecks(crypto, cfg, t, c, early, late))
  {
  }

  lemma ClaimChecksDeny(crypto: Primitives, cfg: Config, path: Bytes, params: seq<Param>)
    ensures Denies(ClaimChecks(crypto, cfg, path, params))
  {
    var tag := KeyLabel(crypto, ScopeClaimed(params).accessKey);
    CredentialChecksDeny(cfg, path, params);
    ScopeChecksDeny(cfg, path, params, tag);
    DeniesConcat(ScopeChecks(cfg, path, params, tag), ExpiryChecks(path, params, tag));
    DeniesConcat(CredentialChecks(cfg, path, params),
                 ScopeChecks(cfg, path, params, tag) + ExpiryChecks(path, params, tag));
  }

  lemma AllChecksDeny(crypto: Primitives, cfg: Config, r: Request)
    ensures Denies(AllChecks(crypto, cfg, r))
  {
    var t := TargetOf(r);
    var c := ClaimsClaimed(t.params);
    TargetChecksDeny(cfg, r);
    ClaimChecksDeny(crypto, cfg, t.path, t.params);
    PolicyChecksDeny(crypto, cfg, t, c, !NotEarly(c.epoch, r.now, cfg.skew), r.now > c.epoch + c.expires);
    ThreeDeny(TargetChecks(cfg, r), ClaimChecks(crypto, cfg, t.path, t.params),
              TimedPolicyChecks(crypto, cfg, t, c, r.now));
  }

  lemma ThreeDeny(a: seq<Check>, b: seq<Check>, c: seq<Check>)
    requires Denies(a) && Denies(b) && Denies(c)
    ensures Denies(a + (b + c))
  {
    DeniesConcat(b, c);
    DeniesConcat(a, b + c);
  }

  lemma {:induction false} FailureIsListed(checks: seq<Check>)
    requires Denies(checks) && FirstFailure(checks).Some?
    ensures !FirstFailure(checks).value.allowed && FirstFailure(checks).value.reason != Ok
  {
    if !checks[0].passes {
    } else {
      FailureIsListed(checks[1..]);
    }
  }

  /** A request is allowed exactly when every check of the list passes, and only then is the reason ok. */
  lemma AllowedIffAllPass(crypto: Primitives, cfg: Config, r: Request)
    ensures Decide(crypto, cfg, r).allowed
       <==> forall i :: 0 <= i < |AllChecks(crypto, cfg, r)| ==> AllChecks(crypto, cfg, r)[i].passes
    ensures Decide(crypto, cfg, r).allowed <==> Decide(crypto, cfg, r).reason == Ok
  {
    var checks := AllChecks(crypto, cfg, r);
    ResultIsFirstFailure(crypto, cfg, r);
    AllChecksDeny(crypto, cfg, r);
    NoFailureIffAllPass(checks);
    if FirstFailure(checks).Some? { FailureIsListed(checks); }
  }
}
