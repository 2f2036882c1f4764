/** The whole chain: the directives of a configuration, the verifier compiled from them, and its verdicts. */
module Enforcement {
  import opened Wrappers
  import opened ByteStrings
  import opened Crypto
  import opened Compile
  import opened VerifierCore
  import opened Decisions
  import opened Directives
  import opened Allowlists
  import opened DirectiveText
  import opened Reasons
  import opened Decimals
  import opened Queries

  /** The key under which a directive's credential is configured; both crates trim it. */
  function KeyOf(args: seq<Bytes>): Bytes
    requires args != []
  {
    Trim(Trim(args[0]))
  }

  function CredentialOf(args: seq<Bytes>, load: Bytes -> Option<Bytes>): Option<Credential> {
    if DirectiveOk(args) then Resolved(Trim(args[0]), Arguments(args[1..]), load) else None
  }

  predicate AllResolve(directives: seq<seq<Bytes>>, load: Bytes -> Option<Bytes>) {
    forall i :: 0 <= i < |directives| ==> CredentialOf(directives[i], load).Some?
  }

  function Credentials(directives: seq<seq<Bytes>>, load: Bytes -> Option<Bytes>): (r: seq<Credential>)
    requires AllResolve(directives, load)
    ensures |r| == |directives|
  {
    seq(|directives|, i requires 0 <= i < |directives| => CredentialOf(directives[i], load).value)
  }

  /** The configuration that these settings and directives stand for. */
  predicate Configured(crypto: Primitives, settings: Settings, directives: seq<seq<Bytes>>,
                       load: Bytes -> Option<Bytes>, cfg: Config)
  {
    && AllResolve(directives, load)
    && StateCompiles(settings, Credentials(directives, load))
    && CompiledFrom(crypto, settings, Credentials(directives, load), cfg)
  }

  method ReadDirective(args: seq<Bytes>, load: Bytes -> Option<Bytes>) returns (r: Option<Credential>)
    ensures r == CredentialOf(args, load)
  {
    var directive := CredentialDirective.Parse(args);
    if directive.None? {
      return None;
    }
    r := directive.value.Resolve(load, Arguments(args[1..]));
  }

  method CompileResolved(crypto: Primitives, settings: Settings, directives: seq<seq<Bytes>>,
                         load: Bytes -> Option<Bytes>, credentials: seq<Credential>)
    returns (r: Option<Config>)
    requires |credentials| == |directives|
    requires forall k :: 0 <= k < |directives| ==> CredentialOf(directives[k], load) == Some(credentials[k])
    ensures AllResolve(directives, load)
    ensures r.Some? <==> StateCompiles(settings, Credentials(directives, load))
    ensures r.Some? ==> Configured(crypto, settings, directives, load, r.value)
  {
    assert credentials == Credentials(directives, load);
    r := CompileState(crypto, settings, credentials);
  }

  /** Parse and resolve every directive, then compile; any error stops the start-up. */
  method Configure(crypto: Primitives, settings: Settings, directives: seq<seq<Bytes>>, load: Bytes -> Option<Bytes>)
    returns (r: Option<Config>)
    ensures r.Some? <==> AllResolve(directives, load) && StateCompiles(settings, Credentials(directives, load))
    ensures r.Some? ==> Configured(crypto, settings, directives, load, r.value)
  {
    var credentials: seq<Credential> := [];
    for i := 0 to |directives|
      invariant |credentials| == i
      invariant forall k :: 0 <= k < i ==> CredentialOf(directives[k], load) == Some(credentials[k])
    {
      var credential := ReadDirective(directives[i], load);
      if credential.None? {
        return None;
      }
      credentials := credentials + [credential.value];
    }
    r := CompileResolved(crypto, settings, directives, load, credentials);
  }

  /** No directive but this one has the key. */
  predicate OnlyDirective(directives: seq<seq<Bytes>>, i: nat, key: Option<Bytes>) {
    forall j :: 0 <= j < |directives| && j != i ==> directives[j] != [] && key != Some(KeyOf(directives[j]))
  }

  /** The directive that configured a key. */
  lemma DirectiveOfKey(crypto: Primitives, settings: Settings, directives: seq<seq<Bytes>>,
                       load: Bytes -> Option<Bytes>,
                       cfg: Config, key: Bytes)
    returns (i: nat)
    requires Configured(crypto, settings, directives, load, cfg) && key in cfg.credentials
    ensures i < |directives| && directives[i] != [] && KeyOf(directives[i]) == key
    ensures Configures(crypto, directives[i], load, EffectiveDefault(settings), cfg.credentials[key])
    ensures cfg.credentials[key].accessKey == key
    ensures OnlyDirective(directives, i, Some(key))
  {
    var credentials := Credentials(directives, load);
    var keys := AccessKeys(credentials);
    assert key in keys[..|credentials|];
    i :| 0 <= i < |keys| && keys[i] == key;
    assert CredentialOf(directives[i], load).Some?;
    forall j | 0 <= j < |directives| && j != i
      ensures directives[j] != [] && KeyOf(directives[j]) != key
    {
      assert CredentialOf(directives[j], load).Some?;
      assert keys[j] == KeyOf(directives[j]) && keys[j] != keys[i];
    }
  }

  /** Every directive is configured, under its own key. */
  lemma EveryDirectiveConfigures(crypto: Primitives, settings: Settings, directives: seq<seq<Bytes>>,
                                 load: Bytes -> Option<Bytes>, cfg: Config, i: nat)
    requires Configured(crypto, settings, directives, load, cfg) && i < |directives|
    ensures directives[i] != [] && KeyOf(directives[i]) in cfg.credentials
    ensures Configures(crypto, directives[i], load, EffectiveDefault(settings), cfg.credentials[KeyOf(directives[i])])
  {
    var credentials := Credentials(directives, load);
    assert CredentialOf(directives[i], load).Some?;
    assert AccessKeys(credentials)[i] == KeyOf(directives[i]);
  }

  predicate SettingsSay(settings: Settings, cfg: Config) {
    cfg.skew == settings.allowedClockSkew && cfg.service == Lit("s3")
  }

  /** A supported method: GET or HEAD if none is configured, and otherwise a configured one. */
  predicate SaysMethod(settings: Settings, x: Bytes) {
    if settings.supportedMethods == [] then IsGetOrHead(x)
    else exists i :: 0 <= i < |settings.supportedMethods| && x == Upper(Trim(settings.supportedMethods[i]))
  }

  /** What the settings configure: the skew, the one service, and the methods. */
  lemma SettingsConfigure(crypto: Primitives, settings: Settings, directives: seq<seq<Bytes>>,
                          load: Bytes -> Option<Bytes>, cfg: Config, x: Bytes)
    requires Configured(crypto, settings, directives, load, cfg)
    ensures SettingsSay(settings, cfg) && (x in cfg.supportedMethods <==> SaysMethod(settings, x))
  {
    SupportedIff(settings, x);
  }

  /** The query asks for a number of seconds that the directive's text, or else the default, covers. */
  ghost predicate ExpiryWithin(query: Bytes, args: seq<Bytes>, d: nat) {
    exists text, n, cap ::
      && ValuesOf(Params(query), Lit("X-Amz-Expires")) == [text] && Denotes(text, n)
      && NamesCap(args, d, cap) && 1 <= n <= cap
  }

  /**
    A directive whose text lets a request through: not switched off, the method, host and path admitted, the
    expiry within its cap; and the result shows its access key and the label of that key.
   */
  ghost predicate LetsThrough(crypto: Primitives, args: seq<Bytes>, d: nat, r: Request, result: VerifyResult) {
    && args != [] && !SaysOff(args[1..])
    && result.accessKey == Some(KeyOf(args)) && result.accessKeyHash == KeyLabel(crypto, KeyOf(args))
    && TextAllows(args[1..], Upper(Trim(r.verb)), Lower(Trim(r.host)), result.path)
    && ExpiryWithin(QueryOf(r), args[1..], d)
  }

  lemma ExpiryIsWithin(query: Bytes, args: seq<Bytes>, d: nat, text: Bytes, n: nat, cap: nat)
    requires ValuesOf(Params(query), X_AMZ_EXPIRES) == [text] && Denotes(text, n)
    requires NamesCap(args, d, cap) && 1 <= n <= cap
    ensures ExpiryWithin(query, args, d)
  {
  }

  lemma GrantPieces(crypto: Primitives, cfg: Config, r: Request, g: Grant)
    requires Grants(crypto, cfg, r, g)
    ensures QueryOf(r) == g.query && ValuesOf(Params(g.query), X_AMZ_EXPIRES) == [g.expires]
    ensures var p := cfg.credentials[g.accessKey];
            p.enabled && Denotes(g.expires, g.seconds) && 1 <= g.seconds <= p.maxExpires
  {
    TargetSplits(r, g);
  }

  lemma GrantObeysText(crypto: Primitives, cfg: Config, r: Request, g: Grant, args: seq<Bytes>,
                       load: Bytes -> Option<Bytes>, d: nat)
    requires Grants(crypto, cfg, r, g) && Configures(crypto, args, load, d, cfg.credentials[g.accessKey])
    ensures !SaysOff(args[1..]) && ExpiryWithin(QueryOf(r), args[1..], d)
  {
    var p := cfg.credentials[g.accessKey];
    PolicyByText(crypto, args, load, d, p);
    GrantPieces(crypto, cfg, r, g);
    ExpiryIsWithin(g.query, args[1..], d, g.expires, g.seconds, p.maxExpires);
  }

  lemma GrantObeysItsDirective(crypto: Primitives, settings: Settings, directives: seq<seq<Bytes>>,
                               load: Bytes -> Option<Bytes>, cfg: Config, r: Request, g: Grant, result: VerifyResult)
    returns (i: nat)
    requires Configured(crypto, settings, directives, load, cfg) && Grants(crypto, cfg, r, g)
    requires result.path == g.path && result.accessKey == Some(cfg.credentials[g.accessKey].accessKey)
    requires result.accessKeyHash == cfg.credentials[g.accessKey].accessKeyHash
    ensures i < |directives| && LetsThrough(crypto, directives[i], EffectiveDefault(settings), r, result)
    ensures OnlyDirective(directives, i, result.accessKey)
  {
    var d := EffectiveDefault(settings);
    i := DirectiveOfKey(crypto, settings, directives, load, cfg, g.accessKey);
    AllowedIsListed(crypto, cfg, r, g, directives[i], load, d);
    GrantObeysText(crypto, cfg, r, g, directives[i], load, d);
    PolicyByText(crypto, directives[i], load, d, cfg.credentials[g.accessKey]);
  }

  lemma AllowedIsGranted(crypto: Primitives, cfg: Config, r: Request) returns (g: Grant)
    requires cfg.service == S3 && Decide(crypto, cfg, r).allowed
    ensures Grants(crypto, cfg, r, g) && Decide(crypto, cfg, r).path == g.path
    ensures Decide(crypto, cfg, r).accessKey == Some(cfg.credentials[g.accessKey].accessKey)
    ensures Decide(crypto, cfg, r).accessKeyHash == cfg.credentials[g.accessKey].accessKeyHash
  {
    AllowedIffGranted(crypto, cfg, r);
    g :| Grants(crypto, cfg, r, g);
    GrantIsAllowed(crypto, cfg, r, g);
  }

  /**
    From the text of the configuration to the verdict: when a verifier configured from these directives
    allows a request, exactly one directive has the reported access key, and its text lets the request through.
   */
  lemma AllowedObeysItsDirective(crypto: Primitives, settings: Settings, directives: seq<seq<Bytes>>,
                                 load: Bytes -> Option<Bytes>, cfg: Config, r: Request)
    returns (i: nat)
    requires Configured(crypto, settings, directives, load, cfg) && Decide(crypto, cfg, r).allowed
    ensures i < |directives|
    ensures LetsThrough(crypto, directives[i], EffectiveDefault(settings), r, Decide(crypto, cfg, r))
    ensures OnlyDirective(directives, i, Decide(crypto, cfg, r).accessKey)
  {
    var g := AllowedIsGranted(crypto, cfg, r);
    i := GrantObeysItsDirective(crypto, settings, directives, load, cfg, r, g, Decide(crypto, cfg, r));
  }
}
