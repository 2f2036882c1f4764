/** Directives and compiled policies, stated on the raw argument texts. */
module DirectiveText {
  import opened Wrappers
  import opened ByteStrings
  import opened Seqs
  import opened Crypto
  import opened Timestamps
  import opened Paths
  import opened Compile
  import opened Durations
  import opened Directives
  import opened Allowlists
  import opened Alphabets
  import opened Reasons

  // ---------- one argument ----------

  /** `key=value` */
  function Arg(key: string, value: Bytes): Bytes
    requires forall i :: 0 <= i < |key| ==> key[i] < 128 as char
  {
    Lit(key) + Lit("=") + value
  }

  lemma KeyTexts()
    ensures Lit("=") == [EQUALS]
    ensures |SECRET_KEY_FILE| == 15 && |SECRET_KEY| == 10 && |ENABLED| == 7 && |MAX_EXPIRES_KEY| == 11
    ensures |ALLOWED_HOST| == 12 && |ALLOWED_METHOD| == 14 && |ALLOWED_PREFIX| == 14
    ensures EQUALS !in SECRET_KEY_FILE && EQUALS !in SECRET_KEY && EQUALS !in ENABLED && EQUALS !in MAX_EXPIRES_KEY
    ensures ON != OFF
  {
    assert |ON| != |OFF|;
  }

  lemma SecretRead(arg: Bytes, source: SecretSource)
    requires ReadArgument(arg) == Some(Secret(source))
    ensures match source
            case Literal(v) => arg == Pair(SECRET_KEY, v) && v != []
            case File(v) => arg == Pair(SECRET_KEY_FILE, v) && v != []
  {
    var key, value := ReadIsPair(arg);
    SecretPair(key, value, source);
  }

  lemma SecretPair(key: Bytes, value: Bytes, source: SecretSource)
    requires ReadPair(key, value) == Some(Secret(source))
    ensures value != []
    ensures match source
            case Literal(v) => key == SECRET_KEY && v == value
            case File(v) => key == SECRET_KEY_FILE && v == value
  {
  }

  lemma SecretWritten(v: Bytes)
    requires v != []
    ensures ReadArgument(Pair(SECRET_KEY, v)) == Some(Secret(Literal(v)))
    ensures ReadArgument(Pair(SECRET_KEY_FILE, v)) == Some(Secret(File(v)))
  {
    KeyTexts();
    PairRead(SECRET_KEY, v);
    PairRead(SECRET_KEY_FILE, v);
  }

  lemma EnabledRead(arg: Bytes, on: bool)
    requires ReadArgument(arg) == Some(Enabled(on))
    ensures arg == Pair(ENABLED, if on then ON else OFF)
  {
    var key, value := ReadIsPair(arg);
  }

  lemma EnabledWritten(on: bool)
    ensures ReadArgument(Pair(ENABLED, if on then ON else OFF)) == Some(Enabled(on))
  {
    KeyTexts();
    PairRead(ENABLED, if on then ON else OFF);
  }

  lemma CapRead(arg: Bytes, n: nat) returns (v: Bytes)
    requires ReadArgument(arg) == Some(Cap(n))
    ensures arg == Pair(MAX_EXPIRES_KEY, v) && Duration(v) == Some(n)
  {
    var key;
    key, v := ReadIsPair(arg);
  }

  lemma CapWritten(v: Bytes, n: nat)
    requires Duration(v) == Some(n)
    ensures ReadArgument(Pair(MAX_EXPIRES_KEY, v)) == Some(Cap(n))
  {
    KeyTexts();
    PairRead(MAX_EXPIRES_KEY, v);
  }

  lemma PairIsArg(value: Bytes)
    ensures Pair(SECRET_KEY, value) == Arg("secret_key", value)
    ensures Pair(SECRET_KEY_FILE, value) == Arg("secret_key_file", value)
    ensures Pair(ENABLED, value) == Arg("enabled", value)
    ensures Pair(MAX_EXPIRES_KEY, value) == Arg("max_expires", value)
    ensures Pair(ALLOWED_HOST, value) == Arg("allowed_host", value)
    ensures Pair(ALLOWED_METHOD, value) == Arg("allowed_method", value)
    ensures Pair(ALLOWED_PREFIX, value) == Arg("allowed_prefix", value)
  {
    KeyTexts();
  }

  // ---------- what a parsed directive holds ----------

  lemma SecretHeld(s: seq<Argument>, source: SecretSource)
    ensures source in Secrets(s) <==> Secret(source) in s
  {
    CollectMember(SecretsOf, s, source);
    assert forall i :: 0 <= i < |s| ==> (source in SecretsOf(s[i]) <==> s[i] == Secret(source));
  }

  lemma EnabledHeld(s: seq<Argument>, on: bool)
    ensures on in Enableds(s) <==> Enabled(on) in s
  {
    CollectMember(EnabledOf, s, on);
    assert forall i :: 0 <= i < |s| ==> (on in EnabledOf(s[i]) <==> s[i] == Enabled(on));
  }

  lemma CapHeld(s: seq<Argument>, n: nat)
    ensures n in Caps(s) <==> Cap(n) in s
  {
    CollectMember(CapsOf, s, n);
    assert forall i :: 0 <= i < |s| ==> (n in CapsOf(s[i]) <==> s[i] == Cap(n));
  }

  lemma WrittenIsRead(args: seq<Bytes>, arg: Bytes, a: Argument)
    requires arg in args && ReadArgument(arg) == Some(a)
    ensures a in Arguments(args)
  {
    var i :| 0 <= i < |args| && args[i] == arg;
    MemberOfArguments(args, a);
  }

  lemma ReadIsWritten(args: seq<Bytes>, a: Argument) returns (arg: Bytes)
    requires a in Arguments(args)
    ensures arg in args && ReadArgument(arg) == Some(a)
  {
    MemberOfArguments(args, a);
    var i :| 0 <= i < |args| && ReadArgument(args[i]) == Some(a);
    arg := args[i];
  }

  /** The enable flag is off exactly when `enabled=off` is written. */
  lemma EnabledByText(args: seq<Bytes>)
    requires |Enableds(Arguments(args))| <= 1
    ensures FirstOr(Enableds(Arguments(args)), true) == !SaysOff(args)
  {
    var s := Arguments(args);
    PairIsArg(OFF);
    EnabledHeld(s, false);
    if Pair(ENABLED, OFF) in args {
      EnabledWritten(false);
      WrittenIsRead(args, Pair(ENABLED, OFF), Enabled(false));
    }
    if false in Enableds(s) {
      var arg := ReadIsWritten(args, Enabled(false));
      EnabledRead(arg, false);
    }
  }

  /** The cap is the written one, or 0 for none. */
  lemma CapByText(args: seq<Bytes>, v: Bytes)
    requires AllRead(args) && |Caps(Arguments(args))| <= 1 && Arg("max_expires", v) in args
    ensures Duration(v).Some? && Caps(Arguments(args)) == [Duration(v).value]
  {
    var s := Arguments(args);
    KeyTexts();
    PairIsArg(v);
    PairRead(MAX_EXPIRES_KEY, v);
    var i :| 0 <= i < |args| && args[i] == Pair(MAX_EXPIRES_KEY, v);
    var n := Duration(v).value;
    WrittenIsRead(args, args[i], Cap(n));
    CapHeld(s, n);
  }

  lemma NoCapByText(args: seq<Bytes>)
    requires forall v :: Arg("max_expires", v) !in args
    ensures Caps(Arguments(args)) == []
  {
    var s := Arguments(args);
    if Caps(s) != [] {
      CapHeld(s, Caps(s)[0]);
      var arg := ReadIsWritten(args, Cap(Caps(s)[0]));
      var v := CapRead(arg, Caps(s)[0]);
      PairIsArg(v);
    }
  }

  lemma SecretByText(args: seq<Bytes>)
    requires Secrets(Arguments(args)) != []
    ensures match Secrets(Arguments(args))[0]
            case Literal(v) => Arg("secret_key", v) in args
            case File(v) => Arg("secret_key_file", v) in args
  {
    var s := Arguments(args);
    var source := Secrets(s)[0];
    SecretHeld(s, source);
    var arg := ReadIsWritten(args, Secret(source));
    SecretRead(arg, source);
    PairIsArg(match source case Literal(v) => v case File(v) => v);
  }

  // ---------- the compiled policy ----------

  /** The secret that the text names: written out, or read from the named file. */
  ghost predicate NamesSecret(args: seq<Bytes>, load: Bytes -> Option<Bytes>, secret: Bytes) {
    || Arg("secret_key", secret) in args
    || exists v :: Arg("secret_key_file", v) in args && load(v) == Some(secret)
  }

  /** The seed is `AWS4` and that secret. */
  ghost predicate SeedsSecret(args: seq<Bytes>, load: Bytes -> Option<Bytes>, seed: Bytes) {
    exists secret :: NamesSecret(args, load, secret) && seed == Lit("AWS4") + secret
  }

  /** The cap that the text names, or else the default. */
  ghost predicate NamesCap(args: seq<Bytes>, default: nat, cap: nat) {
    if exists v :: Arg("max_expires", v) in args
    then forall v :: Arg("max_expires", v) in args ==> Duration(v) == Some(cap)
    else cap == default
  }

  lemma ConfiguredCredential(crypto: Primitives, args: seq<Bytes>, load: Bytes -> Option<Bytes>, d: nat, p: Policy)
    returns (c: Credential)
    requires Configures(crypto, args, load, d, p)
    ensures Resolved(Trim(args[0]), Arguments(args[1..]), load) == Some(c)
    ensures CredentialCompiles(c, d) && p == CompiledPolicy(crypto, c, d)
    ensures c.accessKey == Trim(args[0]) && LoadSecret(Secrets(Arguments(args[1..]))[0], load) == Some(c.secretKey)
    ensures c.enabled == FirstOr(Enableds(Arguments(args[1..])), true)
    ensures c.maxExpires == FirstOr(Caps(Arguments(args[1..])), 0)
  {
    c := Resolved(Trim(args[0]), Arguments(args[1..]), load).value;
  }

  predicate SaysOff(args: seq<Bytes>) { Arg("enabled", Lit("off")) in args }

  /** The text configures this policy, apart from the three restrictions. */
  ghost predicate SaysPolicy(crypto: Primitives, accessKey: Bytes, args: seq<Bytes>, load: Bytes -> Option<Bytes>,
                             d: nat, p: Policy) {
    && p.enabled == !SaysOff(args) && NamesCap(args, d, p.maxExpires) && SeedsSecret(args, load, p.secretSeed)
    && p.accessKey == accessKey && p.accessKeyHash == KeyLabel(crypto, accessKey)
  }

  /**
    What a directive's text configures: whether the credential is enabled, its cap, the seed of its secret,
    its trimmed access key and the label of that key.
   */
  lemma PolicyByText(crypto: Primitives, args: seq<Bytes>, load: Bytes -> Option<Bytes>, d: nat, p: Policy)
    requires Configures(crypto, args, load, d, p)
    ensures SaysPolicy(crypto, Trim(Trim(args[0])), args[1..], load, d, p)
  {
    var rest := args[1..];
    var c := ConfiguredCredential(crypto, args, load, d, p);
    EnabledByText(rest);
    CompiledCap(rest, d, c.maxExpires, p.maxExpires);
    SecretByText(rest);
    assert NamesSecret(rest, load, c.secretKey);
    HashIsLabel(crypto, p.accessKey);
  }

  lemma CompiledCap(args: seq<Bytes>, d: nat, written: nat, cap: nat)
    requires AllRead(args) && Consistent(Arguments(args)) && Complete(Arguments(args))
    requires written == FirstOr(Caps(Arguments(args)), 0) && cap == EffectiveMaxExpires(written, d)
    ensures NamesCap(args, d, cap)
  {
    if exists v :: Arg("max_expires", v) in args {
      forall v | Arg("max_expires", v) in args ensures Duration(v) == Some(cap) {
        CapByText(args, v);
      }
    } else {
      NoCapByText(args);
    }
  }

  // ---------- which directives are accepted ----------

  ghost predicate SaysSecret(arg: Bytes) {
    exists v :: v != [] && (arg == Arg("secret_key", v) || arg == Arg("secret_key_file", v))
  }

  predicate SaysEnabled(arg: Bytes) { arg == Arg("enabled", Lit("on")) || arg == Arg("enabled", Lit("off")) }

  ghost predicate SaysCap(arg: Bytes) { exists v :: arg == Arg("max_expires", v) && Duration(v).Some? }

  ghost predicate Lists(arg: Bytes, key: string)
    requires forall i :: 0 <= i < |key| ==> key[i] < 128 as char
  {
    exists v :: arg == Arg(key, v) && Trim(v) != []
  }

  ghost predicate ListsHost(arg: Bytes) { Lists(arg, "allowed_host") }

  ghost predicate ListsMethod(arg: Bytes) { Lists(arg, "allowed_method") }

  ghost predicate ListsPrefix(arg: Bytes) { Lists(arg, "allowed_prefix") }

  predicate IsFlag(arg: Bytes) {
    arg == Lit("allow_any_host") || arg == Lit("allow_any_prefix") || arg == Lit("allow_default_methods")
  }

  /** The forms an argument may have. */
  ghost predicate IsArgument(arg: Bytes) {
    || IsFlag(arg) || SaysSecret(arg) || SaysEnabled(arg) || SaysCap(arg)
    || ListsHost(arg) || ListsMethod(arg) || ListsPrefix(arg)
  }

  /** What an argument reads as, by form. */
  lemma FormOf(arg: Bytes, a: Argument)
    requires ReadArgument(arg) == Some(a)
    ensures a.Secret? ==> SaysSecret(arg)
    ensures a.Enabled? ==> SaysEnabled(arg)
    ensures a.Cap? ==> SaysCap(arg)
    ensures a.Host? ==> ListsHost(arg)
    ensures a.Method? ==> ListsMethod(arg)
    ensures a.Prefix? ==> ListsPrefix(arg)
    ensures a.AnyHost? || a.AnyPrefix? || a.DefaultMethods? ==> IsFlag(arg)
  {
    ListKeys(ALLOWED_HOST);
    match a
    case Secret(source) =>
      SecretRead(arg, source);
      PairIsArg(match source case Literal(v) => v case File(v) => v);
    case Enabled(on) =>
      EnabledRead(arg, on);
      PairIsArg(if on then ON else OFF);
    case Cap(n) =>
      var v := CapRead(arg, n);
      PairIsArg(v);
    case Host(v) =>
      ListRead(arg, ALLOWED_HOST, v);
      PairIsArg(v);
    case Method(v) =>
      ListRead(arg, ALLOWED_METHOD, v);
      PairIsArg(v);
    case Prefix(v) =>
      ListRead(arg, ALLOWED_PREFIX, v);
      PairIsArg(v);
    case _ => FlagSpelling(arg);
  }

  lemma SecretForm(arg: Bytes)
    ensures SaysSecret(arg) <==> ReadArgument(arg).Some? && ReadArgument(arg).value.Secret?
  {
    if v :| v != [] && (arg == Arg("secret_key", v) || arg == Arg("secret_key_file", v)) {
      PairIsArg(v);
      SecretWritten(v);
    }
    if ReadArgument(arg).Some? { FormOf(arg, ReadArgument(arg).value); }
  }

  lemma EnabledForm(arg: Bytes)
    ensures SaysEnabled(arg) <==> ReadArgument(arg).Some? && ReadArgument(arg).value.Enabled?
  {
    PairIsArg(ON);
    PairIsArg(OFF);
    EnabledWritten(true);
    EnabledWritten(false);
    if ReadArgument(arg).Some? { FormOf(arg, ReadArgument(arg).value); }
  }

  lemma CapForm(arg: Bytes)
    ensures SaysCap(arg) <==> ReadArgument(arg).Some? && ReadArgument(arg).value.Cap?
  {
    if v :| arg == Arg("max_expires", v) && Duration(v).Some? {
      PairIsArg(v);
      CapWritten(v, Duration(v).value);
    }
    if ReadArgument(arg).Some? { FormOf(arg, ReadArgument(arg).value); }
  }

  lemma HostForm(arg: Bytes)
    ensures ListsHost(arg) <==> ReadArgument(arg).Some? && ReadArgument(arg).value.Host?
  {
    if v :| arg == Arg("allowed_host", v) && Trim(v) != [] {
      PairIsArg(v);
      ListKeys(ALLOWED_HOST);
      ListSpelling(arg, ALLOWED_HOST, v);
    }
    if ReadArgument(arg).Some? { FormOf(arg, ReadArgument(arg).value); }
  }

  lemma MethodForm(arg: Bytes)
    ensures ListsMethod(arg) <==> ReadArgument(arg).Some? && ReadArgument(arg).value.Method?
  {
    if v :| arg == Arg("allowed_method", v) && Trim(v) != [] {
      PairIsArg(v);
      ListKeys(ALLOWED_METHOD);
      ListSpelling(arg, ALLOWED_METHOD, v);
    }
    if ReadArgument(arg).Some? { FormOf(arg, ReadArgument(arg).value); }
  }

  lemma PrefixForm(arg: Bytes)
    ensures ListsPrefix(arg) <==> ReadArgument(arg).Some? && ReadArgument(arg).value.Prefix?
  {
    if v :| arg == Arg("allowed_prefix", v) && Trim(v) != [] {
      PairIsArg(v);
      ListKeys(ALLOWED_PREFIX);
      ListSpelling(arg, ALLOWED_PREFIX, v);
    }
    if ReadArgument(arg).Some? { FormOf(arg, ReadArgument(arg).value); }
  }

  lemma FlagForm(arg: Bytes)
    ensures IsFlag(arg) <==> ReadFlag(arg).Some?
    ensures IsFlag(arg) ==> ReadArgument(arg).Some?
  {
  }

  /** An argument reads exactly when it has one of these forms. */
  lemma ReadsIff(arg: Bytes)
    ensures ReadArgument(arg).Some? <==> IsArgument(arg)
  {
    FlagForm(arg);
    SecretForm(arg);
    EnabledForm(arg);
    CapForm(arg);
    HostForm(arg);
    MethodForm(arg);
    PrefixForm(arg);
    if ReadArgument(arg).Some? { FlagKinds(arg, ReadArgument(arg).value); }
  }

  lemma FlagKinds(arg: Bytes, a: Argument)
    requires ReadArgument(arg) == Some(a)
    ensures a.AnyHost? || a.AnyPrefix? || a.DefaultMethods? ==> IsFlag(arg)
  {
    FlagSpelling(arg);
  }

  // ---------- counting ----------

  /** No two positions hold such arguments. */
  ghost predicate AtMostOne(args: seq<Bytes>, says: Bytes -> bool) {
    forall i, j :: 0 <= i < j < |args| ==> !(says(args[i]) && says(args[j]))
  }

  lemma {:induction false} ItemsAtMostOne<U>(args: seq<Bytes>, items: Argument -> seq<U>, says: Bytes -> bool)
    requires forall a :: |items(a)| <= 1
    requires forall arg :: says(arg) <==> ReadArgument(arg).Some? && items(ReadArgument(arg).value) != []
    ensures |Collect(items, Arguments(args))| <= 1 <==> AtMostOne(args, says)
    ensures Collect(items, Arguments(args)) == [] <==> forall i :: 0 <= i < |args| ==> !says(args[i])
  {
    if args == [] {
    } else {
      var rest := args[1..];
      ItemsAtMostOne(rest, items, says);
      CollectConcat(items, OneArgument(args[0]), Arguments(rest));
      FirstItem(args[0], items, says);
      AtMostOneCons(args, says);
    }
  }

  lemma FirstItem<U>(arg: Bytes, items: Argument -> seq<U>, says: Bytes -> bool)
    requires forall a :: |items(a)| <= 1
    requires says(arg) <==> ReadArgument(arg).Some? && items(ReadArgument(arg).value) != []
    ensures |Collect(items, OneArgument(arg))| == if says(arg) then 1 else 0
  {
    match ReadArgument(arg)
    case None =>
    case Some(a) => assert [a][1..] == [] && Collect(items, [a]) == items(a) + Collect(items, []);
  }

  lemma AtMostOneCons(args: seq<Bytes>, says: Bytes -> bool)
    requires args != []
    ensures AtMostOne(args, says)
       <==> AtMostOne(args[1..], says) && (says(args[0]) ==> forall i :: 0 <= i < |args[1..]| ==> !says(args[1..][i]))
    ensures (forall i :: 0 <= i < |args| ==> !says(args[i]))
       <==> !says(args[0]) && forall i :: 0 <= i < |args[1..]| ==> !says(args[1..][i])
  {
    var rest := args[1..];
    assert forall i :: 0 <= i < |rest| ==> rest[i] == args[i + 1];
    if AtMostOne(args, says) {
      forall i, j | 0 <= i < j < |rest| ensures !(says(rest[i]) && says(rest[j])) {
        assert !(says(args[i + 1]) && says(args[j + 1]));
      }
    }
    if AtMostOne(rest, says) && (says(args[0]) ==> forall i :: 0 <= i < |rest| ==> !says(rest[i])) {
      forall i, j | 0 <= i < j < |args| ensures !(says(args[i]) && says(args[j])) {
        assert args[j] == rest[j - 1];
        if i > 0 { assert args[i] == rest[i - 1]; }
      }
    }
  }

  // ---------- the whole directive ----------

  ghost predicate Nowhere(args: seq<Bytes>, says: Bytes -> bool) { forall i :: 0 <= i < |args| ==> !says(args[i]) }

  lemma SecretCount(args: seq<Bytes>)
    ensures |Secrets(Arguments(args))| <= 1 <==> AtMostOne(args, (a: Bytes) => SaysSecret(a))
    ensures Secrets(Arguments(args)) == [] <==> Nowhere(args, (a: Bytes) => SaysSecret(a))
  {
    forall arg { SecretForm(arg); }
    ItemsAtMostOne(args, SecretsOf, (a: Bytes) => SaysSecret(a));
  }

  lemma EnabledCount(args: seq<Bytes>)
    ensures |Enableds(Arguments(args))| <= 1 <==> AtMostOne(args, (a: Bytes) => SaysEnabled(a))
  {
    forall arg { EnabledForm(arg); }
    ItemsAtMostOne(args, EnabledOf, (a: Bytes) => SaysEnabled(a));
  }

  lemma CapCount(args: seq<Bytes>)
    ensures |Caps(Arguments(args))| <= 1 <==> AtMostOne(args, (a: Bytes) => SaysCap(a))
  {
    forall arg { CapForm(arg); }
    ItemsAtMostOne(args, CapsOf, (a: Bytes) => SaysCap(a));
  }

  lemma ListCount(args: seq<Bytes>)
    ensures Hosts(Arguments(args)) == [] <==> Nowhere(args, (a: Bytes) => ListsHost(a))
    ensures Methods(Arguments(args)) == [] <==> Nowhere(args, (a: Bytes) => ListsMethod(a))
    ensures Prefixes(Arguments(args)) == [] <==> Nowhere(args, (a: Bytes) => ListsPrefix(a))
  {
    forall arg { HostForm(arg); }
    ItemsAtMostOne(args, HostsOf, (a: Bytes) => ListsHost(a));
    forall arg { MethodForm(arg); }
    ItemsAtMostOne(args, MethodsOf, (a: Bytes) => ListsMethod(a));
    forall arg { PrefixForm(arg); }
    ItemsAtMostOne(args, PrefixesOf, (a: Bytes) => ListsPrefix(a));
  }

  /** Every written cap is one second to seven days. */
  ghost predicate CapsInRange(args: seq<Bytes>) {
    forall v, n :: Arg("max_expires", v) in args && Duration(v) == Some(n) ==> 1 <= n <= 7 * 24 * 60 * 60
  }

  lemma HeldCap(args: seq<Bytes>, n: nat) returns (v: Bytes)
    requires n in Caps(Arguments(args))
    ensures Arg("max_expires", v) in args && Duration(v) == Some(n)
  {
    CapHeld(Arguments(args), n);
    var arg := ReadIsWritten(args, Cap(n));
    v := CapRead(arg, n);
    PairIsArg(v);
  }

  lemma CapRange(args: seq<Bytes>)
    requires AllRead(args) && |Caps(Arguments(args))| <= 1
    ensures CapsInRange(args) <==> (Caps(Arguments(args)) != [] ==> 0 < Caps(Arguments(args))[0] <= MAX_EXPIRES)
  {
    var caps := Caps(Arguments(args));
    forall v, n | Arg("max_expires", v) in args && Duration(v) == Some(n) ensures caps == [n] { CapByText(args, v); }
    if caps != [] {
      var v := HeldCap(args, caps[0]);
    }
  }

  ghost predicate SaysHosts(args: seq<Bytes>) {
    Lit("allow_any_host") in args <==> Nowhere(args, (a: Bytes) => ListsHost(a))
  }

  ghost predicate SaysPrefixes(args: seq<Bytes>) {
    Lit("allow_any_prefix") in args <==> Nowhere(args, (a: Bytes) => ListsPrefix(a))
  }

  ghost predicate SaysMethods(args: seq<Bytes>) {
    Lit("allow_default_methods") in args <==> Nowhere(args, (a: Bytes) => ListsMethod(a))
  }

  /** For each restriction, its flag or a list, and not both. */
  ghost predicate SaysEachRestriction(args: seq<Bytes>) { SaysHosts(args) && SaysPrefixes(args) && SaysMethods(args) }

  /** What the text of the arguments after the access key must be. */
  ghost predicate ArgumentsOk(args: seq<Bytes>) {
    && (forall i :: 0 <= i < |args| ==> IsArgument(args[i]))
    && AtMostOne(args, (a: Bytes) => SaysSecret(a)) && !Nowhere(args, (a: Bytes) => SaysSecret(a))
    && AtMostOne(args, (a: Bytes) => SaysEnabled(a)) && AtMostOne(args, (a: Bytes) => SaysCap(a))
    && CapsInRange(args) && SaysEachRestriction(args)
  }

  lemma AllReadIff(args: seq<Bytes>)
    ensures AllRead(args) <==> forall i :: 0 <= i < |args| ==> IsArgument(args[i])
  {
    forall i | 0 <= i < |args| ensures ReadArgument(args[i]).Some? <==> IsArgument(args[i]) { ReadsIff(args[i]); }
  }

  lemma RestrictionsIff(args: seq<Bytes>)
    ensures SaysEachRestriction(args) <==>
              var s := Arguments(args);
              && (AnyHost in s <==> Hosts(s) == []) && (AnyPrefix in s <==> Prefixes(s) == [])
              && (DefaultMethods in s <==> Methods(s) == [])
  {
    FlagGiven(args);
    ListCount(args);
  }

  lemma ArgumentsIff(args: seq<Bytes>)
    ensures ArgumentsOk(args) <==> AllRead(args) && Consistent(Arguments(args)) && Complete(Arguments(args))
  {
    AllReadIff(args);
    SecretCount(args);
    EnabledCount(args);
    CapCount(args);
    RestrictionsIff(args);
    if AllRead(args) && |Caps(Arguments(args))| <= 1 { CapRange(args); }
  }

  /** A directive is accepted exactly when its text has an access key and acceptable arguments. */
  lemma DirectiveOkIff(args: seq<Bytes>)
    ensures DirectiveOk(args) <==>
              && args != [] && Trim(args[0]) != [] && '=' as int !in Trim(args[0])
              && ArgumentsOk(args[1..])
  {
    if args != [] { ArgumentsIff(args[1..]); }
  }

  // ---------- the settings ----------

  predicate IsGetOrHead(x: Bytes) { x == Lit("GET") || x == Lit("HEAD") }

  /** What compilation asks of a credential, in plain terms. */
  lemma CredentialCompilesIff(c: Credential, d: nat)
    ensures CredentialCompiles(c, d) <==>
              && Trim(c.accessKey) != [] && c.secretKey != []
              && 1 <= (if c.maxExpires == 0 then d else c.maxExpires) <= 7 * 24 * 60 * 60
              && (forall i :: 0 <= i < |c.allowedHosts| ==> !HasAmbiguousByte(Lower(Trim(c.allowedHosts[i]))))
              && (forall i :: 0 <= i < |c.allowedMethods| ==> IsGetOrHead(Upper(Trim(c.allowedMethods[i]))))
              && (forall i :: 0 <= i < |c.allowedPrefixes| ==>
                                c.allowedPrefixes[i] == [] || ValidPath(c.allowedPrefixes[i]))
  {
    HostsOkIff(c.allowedHosts);
    MethodsOkIff(c.allowedMethods);
  }

  lemma HostsOkIff(hosts: seq<Bytes>)
    ensures HostsOk(hosts) <==> forall i :: 0 <= i < |hosts| ==> !HasAmbiguousByte(Lower(Trim(hosts[i])))
  {
    forall i | 0 <= i < |hosts| ensures NormalizeHost(hosts[i]).Some? <==> !HasAmbiguousByte(Lower(Trim(hosts[i]))) {
      NormalizeHostIff(hosts[i], Lower(Trim(hosts[i])));
    }
  }

  lemma MethodsOkIff(methods: seq<Bytes>)
    ensures MethodsOk(methods) <==> forall i :: 0 <= i < |methods| ==> IsGetOrHead(Upper(Trim(methods[i])))
  {
    forall i | 0 <= i < |methods|
      ensures NormalizeMethod(methods[i]).Some? <==> IsGetOrHead(Upper(Trim(methods[i])))
    {
      NormalizeMethodIff(methods[i], Upper(Trim(methods[i])));
    }
  }

  /** The default cap is the configured one within one second to seven days, and seven days otherwise. */
  lemma DefaultCap(settings: Settings)
    ensures EffectiveDefault(settings)
         == if 1 <= settings.defaultMaxExpires <= 7 * 24 * 60 * 60 then settings.defaultMaxExpires else 604_800
  {
  }

  /** The supported methods are GET and HEAD if none is configured, and otherwise the configured ones. */
  lemma SupportedIff(settings: Settings, x: Bytes)
    requires MethodsOk(EffectiveMethods(settings))
    ensures x in MethodSet(EffectiveMethods(settings))
       <==> if settings.supportedMethods == [] then IsGetOrHead(x)
            else exists i :: 0 <= i < |settings.supportedMethods| && x == Upper(Trim(settings.supportedMethods[i]))
  {
    var methods := EffectiveMethods(settings);
    if settings.supportedMethods == [] {
      GetAndHead();
      assert methods == [GET, HEAD];
      assert GET in methods && HEAD in methods;
    } else {
      if i :| 0 <= i < |methods| && x == Upper(Trim(methods[i])) {
        NormalizeMethodIff(methods[i], x);
        assert methods[i] in methods && NormalizeMethod(methods[i]).Some?;
      }
    }
  }

  lemma GetAndHead()
    ensures NormalizeMethod(GET) == Some(GET) && NormalizeMethod(HEAD) == Some(HEAD)
  {
    MethodWords();
    UpperWord(GET);
    UpperWord(HEAD);
  }

  lemma MethodWords()
    ensures |GET| == 3 && |HEAD| == 4
    ensures forall i :: 0 <= i < |GET| ==> IsUpper(GET[i])
    ensures forall i :: 0 <= i < |HEAD| ==> IsUpper(HEAD[i])
  {
  }

  lemma UpperWord(s: Bytes)
    requires |s| >= 3 && forall i :: 0 <= i < |s| ==> IsUpper(s[i])
    ensures Upper(Trim(s)) == s
  {
    assert FrontSpace(s) == 0 && BackSpace(s) == 0;
    assert Trim(s) == s;
  }

  lemma EffectiveMethodsOk(settings: Settings)
    ensures MethodsOk(EffectiveMethods(settings)) <==> MethodsOk(settings.supportedMethods)
  {
    if settings.supportedMethods == [] { GetAndHead(); }
  }

  lemma KeysDiffer(credentials: seq<Credential>)
    ensures DistinctKeys(AccessKeys(credentials), |credentials|)
       <==> forall i, j :: 0 <= i < j < |credentials| ==>
                             Trim(credentials[i].accessKey) != Trim(credentials[j].accessKey)
  {
    var keys := AccessKeys(credentials);
    assert forall i :: 0 <= i < |credentials| ==> keys[i] == Trim(credentials[i].accessKey);
    if DistinctKeys(keys, |credentials|) {
      forall i, j | 0 <= i < j < |credentials|
        ensures Trim(credentials[i].accessKey) != Trim(credentials[j].accessKey)
      {
        assert keys[i] != keys[j];
      }
    }
  }

  /** What compilation asks of the settings and the credentials together. */
  lemma StateCompilesIff(settings: Settings, credentials: seq<Credential>)
    ensures StateCompiles(settings, credentials) <==>
              && (Trim(settings.supportedService) == [] || Trim(settings.supportedService) == Lit("s3"))
              && (forall i :: 0 <= i < |settings.supportedMethods| ==>
                                IsGetOrHead(Upper(Trim(settings.supportedMethods[i]))))
              && (forall i :: 0 <= i < |credentials| ==> CredentialCompiles(credentials[i], EffectiveDefault(settings)))
              && (forall i, j :: 0 <= i < j < |credentials| ==>
                                   Trim(credentials[i].accessKey) != Trim(credentials[j].accessKey))
  {
    EffectiveMethodsOk(settings);
    MethodsOkIff(settings.supportedMethods);
    KeysDiffer(credentials);
  }
}
