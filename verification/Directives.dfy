/** The `sigv4_verify_credential` directive: parsing its arguments, and what reaches the verifier from them. */
module Directives {
  import opened Wrappers
  import opened ByteStrings
  import opened Seqs
  import opened Timestamps
  import opened Compile
  import opened Durations

  const ALLOW_ANY_HOST: Bytes := Lit("allow_any_host")
  const ALLOW_ANY_PREFIX: Bytes := Lit("allow_any_prefix")
  const ALLOW_DEFAULT_METHODS: Bytes := Lit("allow_default_methods")
  const SECRET_KEY_FILE: Bytes := Lit("secret_key_file")
  const SECRET_KEY: Bytes := Lit("secret_key")
  const ENABLED: Bytes := Lit("enabled")
  const MAX_EXPIRES_KEY: Bytes := Lit("max_expires")
  const ALLOWED_HOST: Bytes := Lit("allowed_host")
  const ALLOWED_METHOD: Bytes := Lit("allowed_method")
  const ALLOWED_PREFIX: Bytes := Lit("allowed_prefix")
  const ON: Bytes := Lit("on")
  const OFF: Bytes := Lit("off")

  datatype SecretSource = File(path: Bytes) | Literal(text: Bytes)

  /** What one argument says. */
  datatype Argument =
    | AnyHost
    | AnyPrefix
    | DefaultMethods
    | Secret(source: SecretSource)
    | Enabled(on: bool)
    | Cap(seconds: nat)
    | Host(text: Bytes)
    | Method(text: Bytes)
    | Prefix(text: Bytes)

  function OnOff(value: Bytes): Option<bool> {
    if value == ON then Some(true) else if value == OFF then Some(false) else None
  }

  function ReadFlag(arg: Bytes): Option<Argument> {
    if arg == ALLOW_ANY_HOST then Some(AnyHost)
    else if arg == ALLOW_ANY_PREFIX then Some(AnyPrefix)
    else if arg == ALLOW_DEFAULT_METHODS then Some(DefaultMethods)
    else None
  }

  function ReadList(key: Bytes, value: Bytes): Option<Argument> {
    if Trim(value) == [] then None
    else if key == ALLOWED_HOST then Some(Host(value))
    else if key == ALLOWED_METHOD then Some(Method(value))
    else if key == ALLOWED_PREFIX then Some(Prefix(value))
    else None
  }

  function ReadEnabled(value: Bytes): Option<Argument> {
    match OnOff(value) case None => None case Some(on) => Some(Enabled(on))
  }

  function ReadCap(value: Bytes): Option<Argument> {
    match Duration(value) case None => None case Some(n) => Some(Cap(n))
  }

  function ReadPair(key: Bytes, value: Bytes): Option<Argument> {
    if value == [] then None
    else if key == SECRET_KEY_FILE then Some(Secret(File(value)))
    else if key == SECRET_KEY then Some(Secret(Literal(value)))
    else if key == ENABLED then ReadEnabled(value)
    else if key == MAX_EXPIRES_KEY then ReadCap(value)
    else ReadList(key, value)
  }

  /** One argument on its own: a flag, or a pair split at the first `=`. */
  function ReadArgument(arg: Bytes): Option<Argument> {
    if ReadFlag(arg).Some? then ReadFlag(arg)
    else
      var e := IndexOf(arg, EQUALS);
      if e == |arg| then None else ReadPair(arg[..e], arg[e + 1..])
  }

  // ---------- what a list of arguments says, item by item ----------

  function OneArgument(arg: Bytes): seq<Argument> {
    match ReadArgument(arg) case None => [] case Some(a) => [a]
  }

  function Arguments(args: seq<Bytes>): seq<Argument> { Collect(OneArgument, args) }

  function SecretsOf(a: Argument): seq<SecretSource> { if a.Secret? then [a.source] else [] }
  function EnabledOf(a: Argument): seq<bool> { if a.Enabled? then [a.on] else [] }
  function CapsOf(a: Argument): seq<nat> { if a.Cap? then [a.seconds] else [] }
  function HostsOf(a: Argument): seq<Bytes> { if a.Host? then [a.text] else [] }
  function MethodsOf(a: Argument): seq<Bytes> { if a.Method? then [a.text] else [] }
  function PrefixesOf(a: Argument): seq<Bytes> { if a.Prefix? then [a.text] else [] }

  function Secrets(s: seq<Argument>): seq<SecretSource> { Collect(SecretsOf, s) }
  function Enableds(s: seq<Argument>): seq<bool> { Collect(EnabledOf, s) }
  function Caps(s: seq<Argument>): seq<nat> { Collect(CapsOf, s) }
  function Hosts(s: seq<Argument>): seq<Bytes> { Collect(HostsOf, s) }
  function Methods(s: seq<Argument>): seq<Bytes> { Collect(MethodsOf, s) }
  function Prefixes(s: seq<Argument>): seq<Bytes> { Collect(PrefixesOf, s) }

  lemma Snoc(s: seq<Argument>, a: Argument)
    ensures Secrets(s + [a]) == Secrets(s) + SecretsOf(a)
    ensures Enableds(s + [a]) == Enableds(s) + EnabledOf(a)
    ensures Caps(s + [a]) == Caps(s) + CapsOf(a)
    ensures Hosts(s + [a]) == Hosts(s) + HostsOf(a)
    ensures Methods(s + [a]) == Methods(s) + MethodsOf(a)
    ensures Prefixes(s + [a]) == Prefixes(s) + PrefixesOf(a)
  {
    CollectOne(SecretsOf, s, a);
    CollectOne(EnabledOf, s, a);
    CollectOne(CapsOf, s, a);
    CollectOne(HostsOf, s, a);
    CollectOne(MethodsOf, s, a);
    CollectOne(PrefixesOf, s, a);
  }

  function First<T>(s: seq<T>): Option<T> { if s == [] then None else Some(s[0]) }

  function FirstOr<T>(s: seq<T>, default: T): T { if s == [] then default else s[0] }

  /** No two arguments contradict each other. */
  predicate Consistent(s: seq<Argument>) { |Secrets(s)| <= 1 && |Enableds(s)| <= 1 && |Caps(s)| <= 1 }

  /** The policy is spelled out: a secret, and for each restriction either the flag or a list, not both. */
  predicate Complete(s: seq<Argument>) {
    && Secrets(s) != []
    && (AnyHost in s <==> Hosts(s) == [])
    && (AnyPrefix in s <==> Prefixes(s) == [])
    && (DefaultMethods in s <==> Methods(s) == [])
    && (Caps(s) != [] ==> 0 < Caps(s)[0] <= MAX_EXPIRES)
  }

  predicate AllRead(args: seq<Bytes>) { forall i :: 0 <= i < |args| ==> ReadArgument(args[i]).Some? }

  predicate KeyNamed(key: Bytes) { key != [] && EQUALS !in key }

  /** A directive is accepted exactly when its arguments meet these order-free conditions. */
  predicate DirectiveOk(args: seq<Bytes>) {
    && args != [] && KeyNamed(Trim(args[0]))
    && AllRead(args[1..]) && Consistent(Arguments(args[1..])) && Complete(Arguments(args[1..]))
  }

  class CredentialDirective {
    var accessKey: Bytes
    var secret: Option<SecretSource>
    var enabled: Option<bool>
    var maxExpires: Option<nat>
    var allowedHosts: seq<Bytes>
    var allowAnyHost: bool
    var allowedMethods: seq<Bytes>
    var allowDefaultMethods: bool
    var allowedPrefixes: seq<Bytes>
    var allowAnyPrefix: bool

    /** The fields are what these arguments say. */
    ghost predicate Records(s: seq<Argument>)
      reads this
    {
      && Consistent(s)
      && secret == First(Secrets(s)) && enabled == First(Enableds(s)) && maxExpires == First(Caps(s))
      && allowedHosts == Hosts(s) && allowedMethods == Methods(s) && allowedPrefixes == Prefixes(s)
      && allowAnyHost == (AnyHost in s) && allowDefaultMethods == (DefaultMethods in s)
         && allowAnyPrefix == (AnyPrefix in s)
    }

    constructor (accessKey: Bytes)
      ensures this.accessKey == accessKey && Records([])
    {
      this.accessKey := accessKey;
      secret, enabled, maxExpires := None, None, None;
      allowedHosts, allowedMethods, allowedPrefixes := [], [], [];
      allowAnyHost, allowDefaultMethods, allowAnyPrefix := false, false, false;
    }

    /** At most one secret source. */
    method SetSecret(source: SecretSource, ghost seen: seq<Argument>) returns (ok: bool)
      requires Records(seen)
      modifies this`secret
      ensures ok <==> Consistent(seen + [Secret(source)])
      ensures ok ==> Records(seen + [Secret(source)])
    {
      Snoc(seen, Secret(source));
      if secret.Some? {
        return false;
      }
      secret := Some(source);
      return true;
    }

    method TakeFlag(arg: Bytes, ghost seen: seq<Argument>) returns (taken: bool)
      requires Records(seen)
      modifies this`allowAnyHost, this`allowAnyPrefix, this`allowDefaultMethods
      ensures taken <==> ReadFlag(arg).Some?
      ensures Records(if taken then seen + [ReadFlag(arg).value] else seen)
    {
      if ReadFlag(arg).Some? { Snoc(seen, ReadFlag(arg).value); }
      if arg == ALLOW_ANY_HOST {
        allowAnyHost := true;
      } else if arg == ALLOW_ANY_PREFIX {
        allowAnyPrefix := true;
      } else if arg == ALLOW_DEFAULT_METHODS {
        allowDefaultMethods := true;
      } else {
        return false;
      }
      return true;
    }

    method TakeList(key: Bytes, value: Bytes, ghost seen: seq<Argument>) returns (ok: bool)
      requires Records(seen)
      modifies this`allowedHosts, this`allowedMethods, this`allowedPrefixes
      ensures ok <==> ReadList(key, value).Some?
      ensures ok ==> Records(seen + [ReadList(key, value).value])
    {
      if Trim(value) == [] {
        return false;
      }
      if ReadList(key, value).Some? { Snoc(seen, ReadList(key, value).value); }
      if key == ALLOWED_HOST {
        allowedHosts := allowedHosts + [value];
      } else if key == ALLOWED_METHOD {
        allowedMethods := allowedMethods + [value];
      } else if key == ALLOWED_PREFIX {
        allowedPrefixes := allowedPrefixes + [value];
      } else {
        return false;
      }
      return true;
    }

    method SetEnabled(value: Bytes, ghost seen: seq<Argument>) returns (ok: bool)
      requires Records(seen)
      modifies this`enabled
      ensures ok <==> OnOff(value).Some? && Consistent(seen + [Enabled(OnOff(value).value)])
      ensures ok ==> Records(seen + [Enabled(OnOff(value).value)])
    {
      var on := OnOff(value);
      if on.Some? { Snoc(seen, Enabled(on.value)); }
      if enabled.Some? || on.None? {
        return false;
      }
      enabled := on;
      return true;
    }

    method SetMaxExpires(value: Bytes, ghost seen: seq<Argument>) returns (ok: bool)
      requires Records(seen)
      modifies this`maxExpires
      ensures ok <==> Duration(value).Some? && Consistent(seen + [Cap(Duration(value).value)])
      ensures ok ==> Records(seen + [Cap(Duration(value).value)])
    {
      if maxExpires.Some? {
        if Duration(value).Some? { Snoc(seen, Cap(Duration(value).value)); }
        return false;
      }
      var seconds := ParseDuration(value);
      if seconds.None? {
        return false;
      }
      Snoc(seen, Cap(seconds.value));
      maxExpires := seconds;
      return true;
    }

    method TakePair(key: Bytes, value: Bytes, ghost seen: seq<Argument>) returns (ok: bool)
      requires Records(seen)
      modifies this
      ensures accessKey == old(accessKey)
      ensures ok <==> ReadPair(key, value).Some? && Consistent(seen + [ReadPair(key, value).value])
      ensures ok ==> Records(seen + [ReadPair(key, value).value])
    {
      if value == [] {
        return false;
      }
      if key == SECRET_KEY_FILE {
        ok := SetSecret(File(value), seen);
      } else if key == SECRET_KEY {
        ok := SetSecret(Literal(value), seen);
      } else if key == ENABLED {
        ok := SetEnabled(value, seen);
      } else if key == MAX_EXPIRES_KEY {
        ok := SetMaxExpires(value, seen);
      } else {
        ok := TakeList(key, value, seen);
      }
    }

    method TakeArgument(arg: Bytes, ghost seen: seq<Argument>) returns (ok: bool)
      requires Records(seen)
      modifies this
      ensures accessKey == old(accessKey)
      ensures ok <==> ReadArgument(arg).Some? && Consistent(seen + [ReadArgument(arg).value])
      ensures ok ==> Records(seen + [ReadArgument(arg).value])
    {
      var flag := TakeFlag(arg, seen);
      if flag {
        return true;
      }
      var e := IndexOf(arg, EQUALS);
      if e == |arg| {
        return false;
      }
      ok := TakePair(arg[..e], arg[e + 1..], seen);
    }

    method Validate(ghost seen: seq<Argument>) returns (ok: bool)
      requires Records(seen)
      ensures ok <==> Complete(seen)
    {
      if secret.None? {
        return false;
      }
      if allowAnyHost && allowedHosts != [] {
        return false;
      }
      if !allowAnyHost && allowedHosts == [] {
        return false;
      }
      if allowAnyPrefix && allowedPrefixes != [] {
        return false;
      }
      if !allowAnyPrefix && allowedPrefixes == [] {
        return false;
      }
      if allowDefaultMethods && allowedMethods != [] {
        return false;
      }
      if !allowDefaultMethods && allowedMethods == [] {
        return false;
      }
      if maxExpires.Some? && (maxExpires.value == 0 || maxExpires.value > MAX_EXPIRES) {
        return false;
      }
      return true;
    }

    /** Parsing accepts exactly the directives above, and the fields record every argument. */
    static method Parse(args: seq<Bytes>) returns (r: Option<CredentialDirective>)
      ensures r.Some? <==> DirectiveOk(args)
      ensures r.Some? ==> fresh(r.value) && r.value.accessKey == Trim(args[0]) && r.value.Records(Arguments(args[1..]))
    {
      if args == [] {
        return None;
      }
      var accessKey, rest := Trim(args[0]), args[1..];
      if accessKey == [] || EQUALS in accessKey {
        return None;
      }
      var directive := new CredentialDirective(accessKey);
      var taken := directive.TakeArguments(rest);
      if !taken {
        return None;
      }
      var ok := directive.Validate(Arguments(rest));
      return if ok then Some(directive) else None;
    }

    /** The argument loop. */
    method TakeArguments(rest: seq<Bytes>) returns (ok: bool)
      requires Records([])
      modifies this
      ensures accessKey == old(accessKey)
      ensures ok <==> AllRead(rest) && Consistent(Arguments(rest))
      ensures ok ==> Records(Arguments(rest))
    {
      for i := 0 to |rest|
        invariant accessKey == old(accessKey)
        invariant AllRead(rest[..i]) && Records(Arguments(rest[..i]))
      {
        StillOk(rest, i);
        ok := TakeArgument(rest[i], Arguments(rest[..i]));
        if !ok {
          return;
        }
      }
      assert rest[..|rest|] == rest;
      ok := true;
    }

    /** The credential handed to the verifier; `load` reads a secret file, or fails. */
    method Resolve(load: Bytes -> Option<Bytes>, ghost seen: seq<Argument>) returns (r: Option<Credential>)
      requires Records(seen) && Complete(seen)
      ensures r == Resolved(accessKey, seen, load)
    {
      var loaded := LoadSecret(secret.value, load);
      if loaded.None? {
        return None;
      }
      return Some(Credential(accessKey, loaded.value,
                             if enabled.None? then true else enabled.value,
                             if maxExpires.None? then 0 else maxExpires.value,
                             allowedHosts, allowedMethods, allowedPrefixes));
    }
  }

  function LoadSecret(source: SecretSource, load: Bytes -> Option<Bytes>): Option<Bytes> {
    var text := match source case Literal(text) => Some(text) case File(path) => load(path);
    if text == Some([]) then None else text
  }

  function Resolved(accessKey: Bytes, s: seq<Argument>, load: Bytes -> Option<Bytes>): Option<Credential>
    requires Complete(s)
  {
    match LoadSecret(Secrets(s)[0], load)
    case None => None
    case Some(key) =>
      Some(Credential(accessKey, key, FirstOr(Enableds(s), true), FirstOr(Caps(s), 0), Hosts(s), Methods(s),
                      Prefixes(s)))
  }

  /** What the next argument adds, and that an argument refused now is refused for good. */
  lemma StillOk(args: seq<Bytes>, i: nat)
    requires i < |args|
    ensures AllRead(args) ==> ReadArgument(args[i]).Some?
    ensures AllRead(args[..i + 1]) <==> AllRead(args[..i]) && ReadArgument(args[i]).Some?
    ensures ReadArgument(args[i]).Some? ==>
              Arguments(args[..i + 1]) == Arguments(args[..i]) + [ReadArgument(args[i]).value]
    ensures !Consistent(Arguments(args[..i + 1])) ==> !Consistent(Arguments(args))
  {
    assert args[..i + 1] == args[..i] + [args[i]];
    CollectOne(OneArgument, args[..i], args[i]);
    assert args == args[..i + 1] + args[i + 1..];
    CollectConcat(OneArgument, args[..i + 1], args[i + 1..]);
    if !Consistent(Arguments(args[..i + 1])) { InconsistentStays(Arguments(args[..i + 1]), Arguments(args[i + 1..])); }
  }

  lemma InconsistentStays(a: seq<Argument>, b: seq<Argument>)
    requires !Consistent(a)
    ensures !Consistent(a + b)
  {
    CollectConcat(SecretsOf, a, b);
    CollectConcat(EnabledOf, a, b);
    CollectConcat(CapsOf, a, b);
  }
}
