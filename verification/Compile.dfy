/** Compiling settings and credentials into the state that requests are checked against. */
module Compile {
  import opened Wrappers
  import opened ByteStrings
  import opened Crypto
  import opened Paths
  import opened Timestamps

  const GET: Bytes := Lit("GET")
  const HEAD: Bytes := Lit("HEAD")
  const S3: Bytes := Lit("s3")

  datatype Settings = Settings(
    allowedClockSkew: nat,
    defaultMaxExpires: nat,
    supportedMethods: seq<Bytes>,
    supportedService: Bytes)

  datatype Credential = Credential(
    accessKey: Bytes,
    secretKey: Bytes,
    enabled: bool,
    maxExpires: nat,
    allowedHosts: seq<Bytes>,
    allowedMethods: seq<Bytes>,
    allowedPrefixes: seq<Bytes>)

  /** The immutable part of a compiled credential. */
  datatype Policy = Policy(
    accessKey: Bytes,
    accessKeyHash: Bytes,
    secretSeed: Bytes,
    enabled: bool,
    maxExpires: nat,
    allowedHosts: set<Bytes>,
    allowedMethods: set<Bytes>,
    allowedPrefixes: seq<Bytes>)

  datatype Config = Config(skew: nat, service: Bytes, supportedMethods: set<Bytes>, credentials: map<Bytes, Policy>)

  function HashAccessKey(crypto: Primitives, accessKey: Bytes): Bytes {
    if accessKey == [] then [] else Lit("sha256:") + HexOf(crypto.sha256(accessKey)[..8])
  }

  // ---------- normalisation ----------

  function NormalizeMethod(m: Bytes): Option<Bytes> {
    var upper := Upper(Trim(m));
    if upper == GET || upper == HEAD then Some(upper) else None
  }

  predicate IsAmbiguousHostByte(b: byte) {
    b == SLASH || b == BACKSLASH || b == QUESTION || b == HASH || b == SPACE || b == TAB || b == CR || b == LF
  }

  function NormalizeHost(h: Bytes): Option<Bytes> {
    var lower := Lower(Trim(h));
    if exists i :: 0 <= i < |lower| && IsAmbiguousHostByte(lower[i]) then None else Some(lower)
  }

  predicate HostsOk(hosts: seq<Bytes>) { forall i :: 0 <= i < |hosts| ==> NormalizeHost(hosts[i]).Some? }

  predicate MethodsOk(methods: seq<Bytes>) { forall i :: 0 <= i < |methods| ==> NormalizeMethod(methods[i]).Some? }

  predicate PrefixesOk(prefixes: seq<Bytes>) {
    forall i :: 0 <= i < |prefixes| && prefixes[i] != [] ==> ValidPath(prefixes[i])
  }

  function HostSet(hosts: seq<Bytes>): set<Bytes> {
    set h | h in hosts && NormalizeHost(h).Some? && NormalizeHost(h).value != [] :: NormalizeHost(h).value
  }

  function MethodSet(methods: seq<Bytes>): set<Bytes> {
    set m | m in methods && NormalizeMethod(m).Some? :: NormalizeMethod(m).value
  }

  /** The non-empty prefixes, each at its first occurrence. */
  function PrefixList(prefixes: seq<Bytes>): seq<Bytes> {
    if prefixes == [] then []
    else
      var front := PrefixList(prefixes[..|prefixes| - 1]);
      var last := prefixes[|prefixes| - 1];
      if last == [] || last in front then front else front + [last]
  }

  lemma {:induction false} PrefixListMembers(prefixes: seq<Bytes>, p: Bytes)
    ensures p in PrefixList(prefixes) <==> p in prefixes && p != []
  {
    if prefixes == [] {
    } else {
      var n := |prefixes| - 1;
      PrefixListMembers(prefixes[..n], p);
      assert prefixes == prefixes[..n] + [prefixes[n]];
    }
  }

  function EffectiveMaxExpires(maxExpires: nat, defaultMaxExpires: nat): nat {
    if maxExpires == 0 then defaultMaxExpires else maxExpires
  }

  /** What `compile_credential` insists on; anything else is a configuration error. */
  predicate CredentialCompiles(c: Credential, defaultMaxExpires: nat) {
    && Trim(c.accessKey) != [] && c.secretKey != []
    && 0 < EffectiveMaxExpires(c.maxExpires, defaultMaxExpires) <= MAX_EXPIRES
    && HostsOk(c.allowedHosts) && MethodsOk(c.allowedMethods) && PrefixesOk(c.allowedPrefixes)
  }

  function CompiledPolicy(crypto: Primitives, c: Credential, defaultMaxExpires: nat): Policy {
    Policy(Trim(c.accessKey), HashAccessKey(crypto, Trim(c.accessKey)), SecretSeed(c.secretKey), c.enabled,
           EffectiveMaxExpires(c.maxExpires, defaultMaxExpires),
           HostSet(c.allowedHosts), MethodSet(c.allowedMethods), PrefixList(c.allowedPrefixes))
  }

  lemma HostSetSnoc(hosts: seq<Bytes>, h: Bytes)
    requires NormalizeHost(h).Some?
    ensures HostsOk(hosts) ==> HostsOk(hosts + [h])
    ensures HostSet(hosts + [h])
            == HostSet(hosts) + if NormalizeHost(h).value != [] then {NormalizeHost(h).value} else {}
  {
    assert h in hosts + [h];
  }

  method CompileHosts(hosts: seq<Bytes>) returns (r: Option<set<Bytes>>)
    ensures r.Some? <==> HostsOk(hosts)
    ensures r.Some? ==> r.value == HostSet(hosts)
  {
    var allowed: set<Bytes> := {};
    for i := 0 to |hosts|
      invariant HostsOk(hosts[..i])
      invariant allowed == HostSet(hosts[..i])
    {
      var host := NormalizeHost(hosts[i]);
      if host.None? {
        return None;
      }
      assert hosts[..i + 1] == hosts[..i] + [hosts[i]];
      HostSetSnoc(hosts[..i], hosts[i]);
      if host.value != [] {
        allowed := allowed + {host.value};
      }
    }
    assert hosts[..|hosts|] == hosts;
    return Some(allowed);
  }

  lemma MethodSetSnoc(methods: seq<Bytes>, m: Bytes)
    requires NormalizeMethod(m).Some?
    ensures MethodsOk(methods) ==> MethodsOk(methods + [m])
    ensures MethodSet(methods + [m]) == MethodSet(methods) + {NormalizeMethod(m).value}
  {
    assert m in methods + [m];
  }

  method CompileMethods(methods: seq<Bytes>) returns (r: Option<set<Bytes>>)
    ensures r.Some? <==> MethodsOk(methods)
    ensures r.Some? ==> r.value == MethodSet(methods)
  {
    var allowed: set<Bytes> := {};
    for i := 0 to |methods|
      invariant MethodsOk(methods[..i])
      invariant allowed == MethodSet(methods[..i])
    {
      var m := NormalizeMethod(methods[i]);
      if m.None? {
        return None;
      }
      assert methods[..i + 1] == methods[..i] + [methods[i]];
      MethodSetSnoc(methods[..i], methods[i]);
      allowed := allowed + {m.value};
    }
    assert methods[..|methods|] == methods;
    return Some(allowed);
  }

  method CompilePrefixes(prefixes: seq<Bytes>) returns (r: Option<seq<Bytes>>)
    ensures r.Some? <==> PrefixesOk(prefixes)
    ensures r.Some? ==> r.value == PrefixList(prefixes)
  {
    var allowed: seq<Bytes> := [];
    var seen: set<Bytes> := {};
    for i := 0 to |prefixes|
      invariant PrefixesOk(prefixes[..i])
      invariant allowed == PrefixList(prefixes[..i])
      invariant forall p :: p in seen <==> p in allowed
    {
      var prefix := prefixes[i];
      assert prefixes[..i + 1][..i] == prefixes[..i];
      if prefix == [] {
        continue;
      }
      var ok := ValidateRawPath(prefix);
      if !ok {
        return None;
      }
      if prefix !in seen {
        seen := seen + {prefix};
        allowed := allowed + [prefix];
      }
    }
    assert prefixes[..|prefixes|] == prefixes;
    return Some(allowed);
  }

  method CompileCredential(crypto: Primitives, c: Credential, defaultMaxExpires: nat) returns (r: Option<Policy>)
    ensures r == if CredentialCompiles(c, defaultMaxExpires)
                 then Some(CompiledPolicy(crypto, c, defaultMaxExpires)) else None
  {
    var accessKey := Trim(c.accessKey);
    if accessKey == [] || c.secretKey == [] {
      return None;
    }
    var maxExpires := if c.maxExpires == 0 then defaultMaxExpires else c.maxExpires;
    if maxExpires == 0 || maxExpires > MAX_EXPIRES {
      return None;
    }
    var allowedHosts := CompileHosts(c.allowedHosts);
    var allowedMethods := CompileMethods(c.allowedMethods);
    var allowedPrefixes := CompilePrefixes(c.allowedPrefixes);
    if allowedHosts.None? || allowedMethods.None? || allowedPrefixes.None? {
      return None;
    }
    return Some(Policy(accessKey, HashAccessKey(crypto, accessKey), SecretSeed(c.secretKey), c.enabled, maxExpires,
                       allowedHosts.value, allowedMethods.value, allowedPrefixes.value));
  }

  // ---------- the whole state ----------

  function EffectiveDefault(settings: Settings): nat {
    if settings.defaultMaxExpires == 0 || settings.defaultMaxExpires > MAX_EXPIRES then MAX_EXPIRES
    else settings.defaultMaxExpires
  }

  function EffectiveMethods(settings: Settings): seq<Bytes> {
    if settings.supportedMethods == [] then [GET, HEAD] else settings.supportedMethods
  }

  /** The first `n` keys are different. */
  predicate DistinctKeys(keys: seq<Bytes>, n: nat)
    requires n <= |keys|
  {
    forall i, j :: 0 <= i < j < n ==> keys[i] != keys[j]
  }

  function AccessKeys(credentials: seq<Credential>): (r: seq<Bytes>)
    ensures |r| == |credentials|
  {
    seq(|credentials|, i requires 0 <= i < |credentials| => Trim(credentials[i].accessKey))
  }

  function Policies(crypto: Primitives, credentials: seq<Credential>, d: nat): (r: seq<Policy>)
    ensures |r| == |credentials|
  {
    seq(|credentials|, i requires 0 <= i < |credentials| => CompiledPolicy(crypto, credentials[i], d))
  }

  predicate StateCompiles(settings: Settings, credentials: seq<Credential>) {
    && (Trim(settings.supportedService) == [] || Trim(settings.supportedService) == S3)
    && MethodsOk(EffectiveMethods(settings))
    && (forall i :: 0 <= i < |credentials| ==> CredentialCompiles(credentials[i], EffectiveDefault(settings)))
    && DistinctKeys(AccessKeys(credentials), |credentials|)
  }

  /** The table maps each of the first `n` keys to the value at its position, and holds nothing else. */
  predicate Tabulates(table: map<Bytes, Policy>, keys: seq<Bytes>, values: seq<Policy>, n: nat)
    requires n <= |keys| && n <= |values|
  {
    && (forall i :: 0 <= i < n ==> keys[i] in table && table[keys[i]] == values[i])
    && (forall k :: k in table ==> k in keys[..n])
  }

  lemma TabulateNext(table: map<Bytes, Policy>, keys: seq<Bytes>, values: seq<Policy>, n: nat)
    requires n < |keys| && n < |values| && Tabulates(table, keys, values, n) && DistinctKeys(keys, n)
    ensures keys[n] !in table ==> DistinctKeys(keys, n + 1)
    ensures keys[n] !in table ==> Tabulates(table[keys[n] := values[n]], keys, values, n + 1)
    ensures keys[n] in table ==> !DistinctKeys(keys, |keys|)
  {
    assert keys[..n + 1] == keys[..n] + [keys[n]];
    if keys[n] in table {
      var j :| 0 <= j < n && keys[..n][j] == keys[n];
      assert keys[j] == keys[n];
    }
  }

  /** Compiles one credential, given what must come of it. */
  method CompileNext(crypto: Primitives, c: Credential, d: nat, table: map<Bytes, Policy>,
                     ghost ok: bool, ghost key: Bytes, ghost value: Policy)
    returns (r: Option<map<Bytes, Policy>>)
    requires ok == CredentialCompiles(c, d) && key == Trim(c.accessKey) && value == CompiledPolicy(crypto, c, d)
    ensures r.Some? <==> ok && key !in table
    ensures r.Some? ==> r.value == table[key := value]
  {
    var compiled := CompileCredential(crypto, c, d);
    if compiled.None? || compiled.value.accessKey in table {
      return None;
    }
    return Some(table[compiled.value.accessKey := compiled.value]);
  }

  /** Which credentials compile. */
  ghost function Compiling(credentials: seq<Credential>, d: nat): (r: seq<bool>)
    ensures |r| == |credentials|
  {
    seq(|credentials|, i requires 0 <= i < |credentials| => CredentialCompiles(credentials[i], d))
  }

  /** What each credential must come to. */
  ghost predicate ComesTo(crypto: Primitives, credentials: seq<Credential>, d: nat,
                          ok: seq<bool>, keys: seq<Bytes>, values: seq<Policy>)
  {
    && |ok| == |keys| == |values| == |credentials|
    && forall i :: 0 <= i < |credentials| ==>
                     && ok[i] == CredentialCompiles(credentials[i], d)
                     && keys[i] == Trim(credentials[i].accessKey)
                     && values[i] == CompiledPolicy(crypto, credentials[i], d)
  }

  /** The first `n` credentials compile, under different keys, and the table holds exactly their policies. */
  ghost predicate Filled(table: map<Bytes, Policy>, ok: seq<bool>, keys: seq<Bytes>, values: seq<Policy>, n: nat) {
    && n <= |ok| && n <= |keys| && n <= |values|
    && (forall k :: 0 <= k < n ==> ok[k])
    && DistinctKeys(keys, n) && Tabulates(table, keys, values, n)
  }

  lemma FilledNext(table: map<Bytes, Policy>, ok: seq<bool>, keys: seq<Bytes>, values: seq<Policy>, n: nat)
    requires n < |ok| == |keys| == |values| && Filled(table, ok, keys, values, n)
    ensures if ok[n] && keys[n] !in table then Filled(table[keys[n] := values[n]], ok, keys, values, n + 1)
            else false in ok || !DistinctKeys(keys, |keys|)
  {
    TabulateNext(table, keys, values, n);
  }

  lemma FilledAll(table: map<Bytes, Policy>, ok: seq<bool>, keys: seq<Bytes>, values: seq<Policy>)
    requires |ok| == |keys| == |values| && Filled(table, ok, keys, values, |keys|)
    ensures false !in ok && DistinctKeys(keys, |keys|) && Tabulates(table, keys, values, |keys|)
  {
  }

  method FillTable(crypto: Primitives, credentials: seq<Credential>, d: nat,
                   ghost ok: seq<bool>, ghost keys: seq<Bytes>, ghost values: seq<Policy>)
    returns (r: Option<map<Bytes, Policy>>)
    requires ComesTo(crypto, credentials, d, ok, keys, values)
    ensures r.None? ==> false in ok || !DistinctKeys(keys, |keys|)
    ensures r.Some? ==> Filled(r.value, ok, keys, values, |keys|)
  {
    var table: map<Bytes, Policy> := map[];
    for i := 0 to |credentials|
      invariant Filled(table, ok, keys, values, i)
    {
      FilledNext(table, ok, keys, values, i);
      var next := CompileNext(crypto, credentials[i], d, table, ok[i], keys[i], values[i]);
      if next.None? {
        return None;
      }
      table := next.value;
    }
    return Some(table);
  }

  method CompileCredentials(crypto: Primitives, credentials: seq<Credential>, d: nat)
    returns (r: Option<map<Bytes, Policy>>)
    ensures r.Some? <==> false !in Compiling(credentials, d) && DistinctKeys(AccessKeys(credentials), |credentials|)
    ensures r.Some? ==> Tabulates(r.value, AccessKeys(credentials), Policies(crypto, credentials, d), |credentials|)
  {
    ghost var ok, keys := Compiling(credentials, d), AccessKeys(credentials);
    r := FillTable(crypto, credentials, d, ok, keys, Policies(crypto, credentials, d));
    if r.Some? { FilledAll(r.value, ok, keys, Policies(crypto, credentials, d)); }
  }

  lemma AllCompile(credentials: seq<Credential>, d: nat)
    ensures false !in Compiling(credentials, d)
       <==> forall i :: 0 <= i < |credentials| ==> CredentialCompiles(credentials[i], d)
  {
    assert forall i :: 0 <= i < |credentials| ==> Compiling(credentials, d)[i] == CredentialCompiles(credentials[i], d);
  }

  /** The configuration holds these settings and exactly one compiled policy per credential, under its key. */
  predicate CompiledFrom(crypto: Primitives, settings: Settings, credentials: seq<Credential>, cfg: Config) {
    && cfg.skew == settings.allowedClockSkew && cfg.service == S3
    && cfg.supportedMethods == MethodSet(EffectiveMethods(settings)) <= {GET, HEAD}
    && Tabulates(cfg.credentials, AccessKeys(credentials),
                 Policies(crypto, credentials, EffectiveDefault(settings)), |credentials|)
  }

  /** Compilation accepts exactly the configurations above and yields exactly one policy per credential. */
  method CompileState(crypto: Primitives, settings: Settings, credentials: seq<Credential>) returns (r: Option<Config>)
    ensures r.Some? <==> StateCompiles(settings, credentials)
    ensures r.Some? ==> CompiledFrom(crypto, settings, credentials, r.value)
  {
    var service := Trim(settings.supportedService);
    if service == [] {
      service := S3;
    }
    if service != S3 {
      return None;
    }
    var methods := CompileMethods(EffectiveMethods(settings));
    if methods.None? {
      return None;
    }
    AllCompile(credentials, EffectiveDefault(settings));
    var table := CompileCredentials(crypto, credentials, EffectiveDefault(settings));
    if table.None? {
      return None;
    }
    return Some(Config(settings.allowedClockSkew, service, methods.value, table.value));
  }
}
