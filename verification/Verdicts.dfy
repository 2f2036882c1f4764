/** How the verdict depends on the query's spelling and on time, and which reason is reported. */
module Verdicts {
  import opened Wrappers
  import opened ByteStrings
  import opened Seqs
  import opened Timestamps
  import opened Queries
  import opened Paths
  import opened Crypto
  import opened Compile
  import opened VerifierCore

  // ---------- the spelling of the query does not matter ----------

  /** The parameter checks look at the parameters only through their single occurrences. */
  lemma ClaimsDependOnSingles(crypto: Primitives, cfg: Config, path: Bytes, p1: seq<Param>, p2: seq<Param>)
    requires forall name :: Single(p1, name) == Single(p2, name)
    ensures ClaimsOf(crypto, cfg, path, p1) == ClaimsOf(crypto, cfg, path, p2)
  {
    assert Single(p1, X_AMZ_ALGORITHM) == Single(p2, X_AMZ_ALGORITHM);
    assert Single(p1, X_AMZ_CREDENTIAL) == Single(p2, X_AMZ_CREDENTIAL);
    assert Single(p1, X_AMZ_DATE) == Single(p2, X_AMZ_DATE);
    assert Single(p1, X_AMZ_EXPIRES) == Single(p2, X_AMZ_EXPIRES);
    assert Single(p1, X_AMZ_SIGNED_HEADERS) == Single(p2, X_AMZ_SIGNED_HEADERS);
    assert Single(p1, X_AMZ_SIGNATURE) == Single(p2, X_AMZ_SIGNATURE);
  }

  /** Past the parameter checks only the canonical query matters. */
  lemma SignatureCheckDependsOnCanonical(crypto: Primitives, p: Policy, t1: Target, t2: Target, c: Claims)
    requires t2 == t1.(params := t2.params) && CanonicalOf(t1.params) == CanonicalOf(t2.params)
    ensures CheckSignature(crypto, p, t1, c) == CheckSignature(crypto, p, t2, c)
  {
    assert RequestHash(crypto, t1) == RequestHash(crypto, t2);
  }

  lemma AuthorizationDependsOnCanonical(crypto: Primitives, cfg: Config, t1: Target, t2: Target, c: Claims, now: int)
    requires t2 == t1.(params := t2.params) && CanonicalOf(t1.params) == CanonicalOf(t2.params)
    ensures Authorize(crypto, cfg, t1, c, now) == Authorize(crypto, cfg, t2, c, now)
  {
    match Admit(crypto, cfg, t1.verb, t1.host, t1.path, c)
    case Rejected(_) =>
    case Admitted(p) => SignatureCheckDependsOnCanonical(crypto, p, t1, t2, c);
  }

  lemma ConclusionDependsOnCanonical(crypto: Primitives, cfg: Config, t1: Target, t2: Target, claimed: Claimed,
                                     now: int)
    requires t2 == t1.(params := t2.params) && CanonicalOf(t1.params) == CanonicalOf(t2.params)
    ensures Conclude(crypto, cfg, t1, claimed, now) == Conclude(crypto, cfg, t2, claimed, now)
  {
    if claimed.Accept? { AuthorizationDependsOnCanonical(crypto, cfg, t1, t2, claimed.claims, now); }
  }

  lemma OpenedAlike(cfg: Config, r: Request, path: Bytes, q1: Bytes, q2: Bytes)
    requires QUESTION !in path && (CleanUri(q1) <==> CleanUri(q2))
    ensures var o1 := OpenRequest(cfg, r.(rawUri := path + [QUESTION] + q1));
            var o2 := OpenRequest(cfg, r.(rawUri := path + [QUESTION] + q2));
            if o1.Open? then o1.query == q1 && o2 == o1.(query := q2) else o1 == o2
  {
    AssembledUri(path, q1);
    AssembledUri(path, q2);
    CleanAssembled(path, q1);
    CleanAssembled(path, q2);
  }

  lemma QueryDecisionDependsOnParts(crypto: Primitives, cfg: Config, verb: Bytes, host: Bytes, path: Bytes, q1: Bytes,
                                    q2: Bytes, now: int)
    requires multiset(Parsed(q1)) == multiset(Parsed(q2))
    ensures DecideQuery(crypto, cfg, verb, host, path, q1, now) == DecideQuery(crypto, cfg, verb, host, path, q2, now)
  {
    PermutedPartsSayTheSame(q1, q2);
    ClaimsDependOnSingles(crypto, cfg, path, Params(q1), Params(q2));
    var t1, t2 := Target(verb, host, path, Params(q1)), Target(verb, host, path, Params(q2));
    ConclusionDependsOnCanonical(crypto, cfg, t1, t2, ClaimsOf(crypto, cfg, path, Params(q1)), now);
  }

  lemma AssembledUri(path: Bytes, query: Bytes)
    requires QUESTION !in path
    ensures var uri := path + [QUESTION] + query;
            SplitOriginalUri(uri) == if path != [] && path[0] == SLASH && CleanUri(uri) && ValidPath(path)
                                     then Some((path, query)) else None
  {
    var uri := path + [QUESTION] + query;
    SplitFirst(path, QUESTION, query);
    assert uri[..|path|] == path && uri[|path| + 1..] == query;
  }

  lemma CleanAssembled(path: Bytes, query: Bytes)
    ensures CleanUri(path + [QUESTION] + query) <==> CleanUri(path) && CleanUri(query)
  {
    var uri := path + [QUESTION] + query;
    if CleanUri(uri) {
      forall i | 0 <= i < |path| ensures !IsForbiddenUriByte(path[i]) { assert uri[i] == path[i]; }
      forall i | 0 <= i < |query| ensures !IsForbiddenUriByte(query[i]) { assert uri[|path| + 1 + i] == query[i]; }
    }
  }

  /**
    Two targets with one path whose queries have the same multiset of decoded parts get the same result,
    errors and reasons included, for every configuration and instant.
   */
  lemma VerdictDependsOnDecodedParts(crypto: Primitives, cfg: Config, r: Request, path: Bytes, q1: Bytes, q2: Bytes)
    requires QUESTION !in path && (CleanUri(q1) <==> CleanUri(q2))
    requires multiset(Parsed(q1)) == multiset(Parsed(q2))
    ensures Decide(crypto, cfg, r.(rawUri := path + [QUESTION] + q1))
            == Decide(crypto, cfg, r.(rawUri := path + [QUESTION] + q2))
  {
    OpenedAlike(cfg, r, path, q1, q2);
    match OpenRequest(cfg, r.(rawUri := path + [QUESTION] + q1))
    case Closed(_) =>
    case Open(verb, host, p, _) => QueryDecisionDependsOnParts(crypto, cfg, verb, host, p, q1, q2, r.now);
  }

  lemma {:induction false} JoinHasPartBytes(parts: seq<Bytes>, c: byte, i: nat, x: byte)
    requires i < |parts| && x in parts[i]
    ensures x in Join(parts, c)
  {
    if |parts| <= 1 {
    } else {
      if i == 0 {
        var k :| 0 <= k < |parts[0]| && parts[0][k] == x;
        assert Join(parts, c)[k] == x;
      } else {
        JoinHasPartBytes(parts[1..], c, i - 1, x);
        var k :| 0 <= k < |Join(parts[1..], c)| && Join(parts[1..], c)[k] == x;
        assert Join(parts, c)[|parts[0]| + 1 + k] == x;
      }
    }
  }

  lemma ReorderedPartsClean(q1: Bytes, q2: Bytes)
    requires multiset(Parts(q1)) == multiset(Parts(q2)) && CleanUri(q1)
    ensures CleanUri(q2)
  {
    forall i | 0 <= i < |q2|
      ensures !IsForbiddenUriByte(q2[i])
    {
      JoinSplit(q2, AMP);
      JoinBytes(Parts(q2), AMP, q2[i]);
      if q2[i] != AMP {
        var k :| 0 <= k < |Parts(q2)| && q2[i] in Parts(q2)[k];
        assert Parts(q2)[k] in multiset(Parts(q1));
        var j :| 0 <= j < |Parts(q1)| && Parts(q1)[j] == Parts(q2)[k];
        JoinSplit(q1, AMP);
        JoinHasPartBytes(Parts(q1), AMP, j, q2[i]);
        assert q2[i] in q1;
      }
    }
  }

  /** Reordering the `&`-separated parts of the query never changes the result. */
  lemma ReorderingKeepsVerdict(crypto: Primitives, cfg: Config, r: Request, path: Bytes, q1: Bytes, q2: Bytes)
    requires QUESTION !in path && multiset(Parts(q1)) == multiset(Parts(q2))
    ensures Decide(crypto, cfg, r.(rawUri := path + [QUESTION] + q1))
            == Decide(crypto, cfg, r.(rawUri := path + [QUESTION] + q2))
  {
    if CleanUri(q1) { ReorderedPartsClean(q1, q2); }
    if CleanUri(q2) { ReorderedPartsClean(q2, q1); }
    ReorderedParts(q1, q2);
    VerdictDependsOnDecodedParts(crypto, cfg, r, path, q1, q2);
  }

  /** Nor does spelling any component with another encoding of the same bytes, if the target stays clean. */
  lemma ReencodingKeepsVerdict(crypto: Primitives, cfg: Config, r: Request, path: Bytes, q1: Bytes, q2: Bytes)
    requires QUESTION !in path && (CleanUri(q1) <==> CleanUri(q2))
    requires |Parts(q1)| == |Parts(q2)| && forall i :: 0 <= i < |Parts(q1)| ==> SameMeaning(Parts(q1)[i], Parts(q2)[i])
    ensures Decide(crypto, cfg, r.(rawUri := path + [QUESTION] + q1))
            == Decide(crypto, cfg, r.(rawUri := path + [QUESTION] + q2))
  {
    ReencodedParts(Parts(q1), Parts(q2));
    VerdictDependsOnDecodedParts(crypto, cfg, r, path, q1, q2);
  }

  // ---------- time ----------

  /** The part of a decision that time cannot change: refused outright, or waiting for the window. */
  datatype Timeless =
    | Settled(result: VerifyResult)
    | Windowed(epoch: int, expires: nat, path: Bytes, hash: Bytes, inside: VerifyResult)

  function TimelessConclusion(crypto: Primitives, cfg: Config, t: Target, claimed: Claimed): Timeless {
    match claimed
    case Refuse(result) => Settled(result)
    case Accept(c) => TimelessClaims(crypto, cfg, t, c)
  }

  function TimelessClaims(crypto: Primitives, cfg: Config, t: Target, c: Claims): Timeless {
    match Admit(crypto, cfg, t.verb, t.host, t.path, c)
    case Rejected(result) => Settled(result)
    case Admitted(p) => Windowed(c.epoch, c.expires, t.path, p.accessKeyHash, CheckSignature(crypto, p, t, c))
  }

  function TimelessQuery(crypto: Primitives, cfg: Config, verb: Bytes, host: Bytes, path: Bytes,
                         query: Bytes): Timeless {
    if !Accepted(query) then Settled(Deny(InvalidUri, path, []))
    else TimelessConclusion(crypto, cfg, Target(verb, host, path, Params(query)),
                            ClaimsOf(crypto, cfg, path, Params(query)))
  }

  function TimelessDecision(crypto: Primitives, cfg: Config, r: Request): Timeless {
    match OpenRequest(cfg, r)
    case Closed(result) => Settled(result)
    case Open(verb, host, path, query) => TimelessQuery(crypto, cfg, verb, host, path, query)
  }

  function AtTime(d: Timeless, now: int, skew: nat): VerifyResult {
    match d
    case Settled(result) => result
    case Windowed(epoch, expires, path, hash, inside) =>
      InWindow(IsFutureDated(epoch, now, skew), IsExpired(epoch, now, expires), path, hash, inside)
  }

  lemma ClaimsAreBounded(crypto: Primitives, cfg: Config, path: Bytes, params: seq<Param>)
    requires ClaimsOf(crypto, cfg, path, params).Accept?
    ensures var c := ClaimsOf(crypto, cfg, path, params).claims;
            MIN_EPOCH <= c.epoch <= MAX_EPOCH && 1 <= c.expires <= MAX_EXPIRES
  {
    var scope := ParseCredentialScope(Single(params, X_AMZ_CREDENTIAL).value).value;
    ScopedClaimsAreBounded(cfg, path, params, scope, HashAccessKey(crypto, scope.accessKey));
  }

  lemma ScopedClaimsAreBounded(cfg: Config, path: Bytes, params: seq<Param>, scope: CredentialScope, hash: Bytes)
    requires ScopedClaims(cfg, path, params, scope, hash).Accept?
    ensures var c := ScopedClaims(cfg, path, params, scope, hash).claims;
            MIN_EPOCH <= c.epoch <= MAX_EPOCH && 1 <= c.expires <= MAX_EXPIRES
  {
    EpochRange(ReadStamp(Single(params, X_AMZ_DATE).value).value);
  }

  lemma WindowedIsBounded(crypto: Primitives, cfg: Config, r: Request)
    ensures var d := TimelessDecision(crypto, cfg, r);
            d.Windowed? ==> MIN_EPOCH <= d.epoch <= MAX_EPOCH && d.expires <= MAX_EXPIRES
  {
    match OpenRequest(cfg, r)
    case Closed(_) =>
    case Open(_, _, path, query) =>
      if ClaimsOf(crypto, cfg, path, Params(query)).Accept? { ClaimsAreBounded(crypto, cfg, path, Params(query)); }
  }

  lemma AuthorizedAtTime(crypto: Primitives, cfg: Config, t: Target, c: Claims, now: int)
    ensures Authorize(crypto, cfg, t, c, now) == AtTime(TimelessClaims(crypto, cfg, t, c), now, cfg.skew)
  {
  }

  lemma ConcludedAtTime(crypto: Primitives, cfg: Config, t: Target, claimed: Claimed, now: int)
    ensures Conclude(crypto, cfg, t, claimed, now) == AtTime(TimelessConclusion(crypto, cfg, t, claimed), now, cfg.skew)
  {
    if claimed.Accept? { AuthorizedAtTime(crypto, cfg, t, claimed.claims, now); }
  }

  /** The instant enters a decision only through the window. */
  lemma TimeOnlyMovesTheWindow(crypto: Primitives, cfg: Config, r: Request)
    ensures Decide(crypto, cfg, r) == AtTime(TimelessDecision(crypto, cfg, r), r.now, cfg.skew)
  {
    match OpenRequest(cfg, r)
    case Closed(_) =>
    case Open(verb, host, path, query) =>
      ConcludedAtTime(crypto, cfg, Target(verb, host, path, Params(query)),
                      ClaimsOf(crypto, cfg, path, Params(query)), r.now);
  }

  lemma TimelessIgnoresNow(crypto: Primitives, cfg: Config, r: Request, now: int)
    ensures TimelessDecision(crypto, cfg, r.(now := now)) == TimelessDecision(crypto, cfg, r)
  {
  }

  ghost predicate AllowedAt(crypto: Primitives, cfg: Config, r: Request, now: int) {
    Decide(crypto, cfg, r.(now := now)).allowed
  }

  predicate CanSucceed(d: Timeless) { d.Windowed? && d.inside.allowed }

  lemma AtTimeIsExact(d: Timeless, now: int, skew: nat)
    requires d.Windowed? ==> MIN_EPOCH <= d.epoch <= MAX_EPOCH && d.expires <= MAX_EXPIRES
    requires d.Settled? ==> !d.result.allowed
    ensures AtTime(d, now, skew).allowed
            <==> CanSucceed(d) && NotEarly(d.epoch, now, skew) && now <= d.epoch + d.expires
  {
    if d.Windowed? {
      FutureTestIs(d.epoch, now, skew);
      ExpiryIsExact(d.epoch, now, d.expires);
    }
  }

  /** The seconds at which a request is allowed, for every skew. */
  lemma AllowedAtIff(crypto: Primitives, cfg: Config, r: Request, now: int)
    ensures var d := TimelessDecision(crypto, cfg, r);
            AllowedAt(crypto, cfg, r, now)
            <==> CanSucceed(d) && NotEarly(d.epoch, now, cfg.skew) && now <= d.epoch + d.expires
  {
    var d := TimelessDecision(crypto, cfg, r);
    TimeOnlyMovesTheWindow(crypto, cfg, r.(now := now));
    TimelessIgnoresNow(crypto, cfg, r, now);
    WindowedIsBounded(crypto, cfg, r);
    SettledIsDenied(crypto, cfg, r);
    AtTimeIsExact(d, now, cfg.skew);
  }

  /** From the timestamp less the skew to the timestamp plus the expiry. */
  predicate InNominalWindow(epoch: int, expires: nat, skew: nat, now: int) { epoch - skew <= now <= epoch + expires }

  /** The clock readings in the nominal window, and no others, are those at which the request is allowed. */
  ghost predicate AllowedExactly(crypto: Primitives, cfg: Config, r: Request, d: Timeless)
    requires d.Windowed?
  {
    forall now | FitsI64(now) :: AllowedAt(crypto, cfg, r, now) <==> InNominalWindow(d.epoch, d.expires, cfg.skew, now)
  }

  /** A set of instants cut out by the two tests is the nominal window at every clock reading exactly at these skews. */
  lemma NominalIntervalIff(allowed: int -> bool, epoch: int, expires: nat, skew: nat)
    requires MIN_EPOCH <= epoch <= MAX_EPOCH
    requires forall now :: allowed(now) <==> NotEarly(epoch, now, skew) && now <= epoch + expires
    ensures (forall now | FitsI64(now) :: allowed(now) <==> InNominalWindow(epoch, expires, skew, now))
            <==> SkewExact(epoch, skew)
  {
    if SkewExact(epoch, skew) {
      forall now | FitsI64(now) ensures allowed(now) <==> InNominalWindow(epoch, expires, skew, now) {
        FutureTestIsExactIff(epoch, skew);
        FutureTestIs(epoch, now, skew);
      }
    } else {
      ClampShows(epoch, skew);
      FutureTestIs(epoch, ClampWitness(epoch), skew);
      assert allowed(ClampWitness(epoch)) <==> !InNominalWindow(epoch, expires, skew, ClampWitness(epoch));
    }
  }

  /**
    For a fixed request the clock readings at which it is allowed are none, or exactly those from the
    timestamp less the skew to the timestamp plus the expiry; the latter precisely at these skews.
   */
  lemma AllowedSecondsAreAnInterval(crypto: Primitives, cfg: Config, r: Request)
    ensures var d := TimelessDecision(crypto, cfg, r);
            if CanSucceed(d) then AllowedExactly(crypto, cfg, r, d) <==> SkewExact(d.epoch, cfg.skew)
            else forall now :: !AllowedAt(crypto, cfg, r, now)
  {
    WindowedIsBounded(crypto, cfg, r);
    forall now { AllowedAtIff(crypto, cfg, r, now); }
    AllowedSecondsOf(crypto, cfg, r, TimelessDecision(crypto, cfg, r));
  }

  lemma AllowedSecondsOf(crypto: Primitives, cfg: Config, r: Request, d: Timeless)
    requires d.Windowed? ==> MIN_EPOCH <= d.epoch <= MAX_EPOCH
    requires forall now :: AllowedAt(crypto, cfg, r, now)
                      <==> CanSucceed(d) && NotEarly(d.epoch, now, cfg.skew) && now <= d.epoch + d.expires
    ensures if CanSucceed(d) then AllowedExactly(crypto, cfg, r, d) <==> SkewExact(d.epoch, cfg.skew)
            else forall now :: !AllowedAt(crypto, cfg, r, now)
  {
    if CanSucceed(d) { NominalIntervalIff(now => AllowedAt(crypto, cfg, r, now), d.epoch, d.expires, cfg.skew); }
  }

  /** Inside this range of skews the interval is exact on all integers, clock readings or not. */
  lemma UnclampedInterval(crypto: Primitives, cfg: Config, r: Request, now: int)
    requires var d := TimelessDecision(crypto, cfg, r); CanSucceed(d) && SkewUnclamped(d.epoch, cfg.skew)
    ensures var d := TimelessDecision(crypto, cfg, r);
            AllowedAt(crypto, cfg, r, now) <==> InNominalWindow(d.epoch, d.expires, cfg.skew, now)
  {
    AllowedAtIff(crypto, cfg, r, now);
  }

  /**
    The other skews, at a real clock reading.  After the Unix epoch a valid request is refused as
    future-dated although it lies in its window; before it, a valid request is allowed ahead of its window.
   */
  lemma ClampedVerdict(crypto: Primitives, cfg: Config, r: Request)
    requires var d := TimelessDecision(crypto, cfg, r); CanSucceed(d) && !SkewExact(d.epoch, cfg.skew)
    ensures var d := TimelessDecision(crypto, cfg, r);
            var now := ClampWitness(d.epoch);
            && FitsI64(now)
            && (d.epoch > 0 ==>
                  && InNominalWindow(d.epoch, d.expires, cfg.skew, now)
                  && Decide(crypto, cfg, r.(now := now)).reason == FutureDated)
            && (d.epoch <= 0 ==>
                  && !InNominalWindow(d.epoch, d.expires, cfg.skew, now)
                  && AllowedAt(crypto, cfg, r, now))
  {
    var d := TimelessDecision(crypto, cfg, r);
    var now := ClampWitness(d.epoch);
    WindowedIsBounded(crypto, cfg, r);
    TimeOnlyMovesTheWindow(crypto, cfg, r.(now := now));
    TimelessIgnoresNow(crypto, cfg, r, now);
    ClampedAtTime(d, cfg.skew);
  }

  lemma ClampedAtTime(d: Timeless, skew: nat)
    requires CanSucceed(d) && MIN_EPOCH <= d.epoch <= MAX_EPOCH && d.expires <= MAX_EXPIRES && !SkewExact(d.epoch, skew)
    ensures var now := ClampWitness(d.epoch);
            && FitsI64(now)
            && (d.epoch > 0 ==>
                  InNominalWindow(d.epoch, d.expires, skew, now) && AtTime(d, now, skew).reason == FutureDated)
            && (d.epoch <= 0 ==> !InNominalWindow(d.epoch, d.expires, skew, now) && AtTime(d, now, skew).allowed)
  {
    ClampShows(d.epoch, skew);
    FutureTestIs(d.epoch, ClampWitness(d.epoch), skew);
    ExpiryIsExact(d.epoch, ClampWitness(d.epoch), d.expires);
  }

  predicate SettledDenies(d: Timeless) { d.Settled? ==> !d.result.allowed }

  lemma ConcludedIsDenied(crypto: Primitives, cfg: Config, t: Target, claimed: Claimed)
    requires RefusesUntimed(claimed, t.path)
    ensures SettledDenies(TimelessConclusion(crypto, cfg, t, claimed))
  {
  }

  lemma QueryIsDenied(crypto: Primitives, cfg: Config, verb: Bytes, host: Bytes, path: Bytes, query: Bytes)
    ensures SettledDenies(TimelessQuery(crypto, cfg, verb, host, path, query))
  {
    var params := Params(query);
    ClaimsRefuse(crypto, cfg, path, params);
    ConcludedIsDenied(crypto, cfg, Target(verb, host, path, params), ClaimsOf(crypto, cfg, path, params));
  }

  /** Nothing is allowed before the window has been looked at. */
  lemma SettledIsDenied(crypto: Primitives, cfg: Config, r: Request)
    ensures SettledDenies(TimelessDecision(crypto, cfg, r))
  {
    match OpenRequest(cfg, r)
    case Closed(_) =>
    case Open(verb, host, path, query) => QueryIsDenied(crypto, cfg, verb, host, path, query);
  }

  lemma InsideIsNotATimeReason(crypto: Primitives, cfg: Config, r: Request)
    ensures var d := TimelessDecision(crypto, cfg, r);
            d.Windowed? ==> d.inside.reason == Ok || d.inside.reason == SignatureMismatch
  {
  }

  lemma TimeAdvances(d: Timeless, earlier: int, later: int, skew: nat)
    requires earlier <= later
    requires d.Windowed? ==> MIN_EPOCH <= d.epoch <= MAX_EPOCH && d.expires <= MAX_EXPIRES
    requires d.Windowed? ==> d.inside.reason == Ok || d.inside.reason == SignatureMismatch
    ensures var a, b := AtTime(d, earlier, skew), AtTime(d, later, skew);
            && (b.reason == FutureDated ==> a == b)
            && (a.reason == Expired ==> b == a)
            && (a.reason != FutureDated && b.reason != Expired ==> a == b)
  {
    if d.Windowed? {
      ExpiryIsExact(d.epoch, earlier, d.expires);
      ExpiryIsExact(d.epoch, later, d.expires);
    }
  }

  /** As time passes the reason can only go from future-dated, through the in-window verdict, to expired. */
  lemma ReasonsAdvance(crypto: Primitives, cfg: Config, r: Request, earlier: int, later: int)
    requires earlier <= later
    ensures var a, b := Decide(crypto, cfg, r.(now := earlier)), Decide(crypto, cfg, r.(now := later));
            && (b.reason == FutureDated ==> a == b)
            && (a.reason == Expired ==> b == a)
            && (a.reason != FutureDated && b.reason != Expired ==> a == b)
  {
    TimeOnlyMovesTheWindow(crypto, cfg, r.(now := earlier));
    TimeOnlyMovesTheWindow(crypto, cfg, r.(now := later));
    TimelessIgnoresNow(crypto, cfg, r, earlier);
    TimelessIgnoresNow(crypto, cfg, r, later);
    WindowedIsBounded(crypto, cfg, r);
    InsideIsNotATimeReason(crypto, cfg, r);
    TimeAdvances(TimelessDecision(crypto, cfg, r), earlier, later, cfg.skew);
  }
}
