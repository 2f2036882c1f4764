/** From the text of a directive to the verdict: an allowlist that was written is the allowlist that is enforced. */
module Allowlists {
  import opened Wrappers
  import opened ByteStrings
  import opened Seqs
  import opened Crypto
  import opened Timestamps
  import opened Paths
  import opened Compile
  import opened VerifierCore
  import opened Decisions
  import opened Directives

  function Pair(key: Bytes, value: Bytes): Bytes { key + [EQUALS] + value }

  lemma PairIsNoFlag(arg: Bytes)
    requires EQUALS in arg
    ensures ReadFlag(arg).None?
  {
    assert EQUALS !in ALLOW_ANY_HOST && EQUALS !in ALLOW_ANY_PREFIX && EQUALS !in ALLOW_DEFAULT_METHODS;
  }

  lemma PairRead(key: Bytes, value: Bytes)
    requires EQUALS !in key
    ensures ReadArgument(Pair(key, value)) == ReadPair(key, value)
  {
    var arg := Pair(key, value);
    assert arg[|key|] == EQUALS;
    PairIsNoFlag(arg);
    SplitFirst(key, EQUALS, value);
    assert arg[..|key|] == key && arg[|key| + 1..] == value;
  }

  /** The argument that lists `v` under one of the three list keys, as its kind. */
  function ListArgument(key: Bytes, v: Bytes): Argument {
    if key == ALLOWED_HOST then Host(v) else if key == ALLOWED_METHOD then Method(v) else Prefix(v)
  }

  predicate IsListKey(key: Bytes) { key == ALLOWED_HOST || key == ALLOWED_METHOD || key == ALLOWED_PREFIX }

  lemma ListKeys(key: Bytes)
    requires IsListKey(key)
    ensures key != SECRET_KEY_FILE && key != SECRET_KEY && key != ENABLED && key != MAX_EXPIRES_KEY
    ensures EQUALS !in key
    ensures ALLOWED_HOST != ALLOWED_METHOD && ALLOWED_HOST != ALLOWED_PREFIX && ALLOWED_METHOD != ALLOWED_PREFIX
  {
    assert ALLOWED_METHOD[8] != ALLOWED_PREFIX[8];
  }

  /** An argument that is no flag and reads is a pair, read as one. */
  lemma ReadIsPair(arg: Bytes) returns (key: Bytes, value: Bytes)
    requires ReadFlag(arg).None? && ReadArgument(arg).Some?
    ensures EQUALS !in key && arg == Pair(key, value) && ReadArgument(arg) == ReadPair(key, value)
  {
    var e := IndexOf(arg, EQUALS);
    IndexOfIsFirst(arg, EQUALS);
    key, value := arg[..e], arg[e + 1..];
    assert arg == key + [EQUALS] + value;
  }

  lemma ListRead(arg: Bytes, key: Bytes, v: Bytes)
    requires IsListKey(key) && ReadArgument(arg) == Some(ListArgument(key, v))
    ensures arg == Pair(key, v) && Trim(v) != []
  {
    assert ReadFlag(arg).None?;
    var key0, value := ReadIsPair(arg);
    ListPair(key0, value, key, v);
  }

  lemma ListPair(key0: Bytes, value: Bytes, key: Bytes, v: Bytes)
    requires IsListKey(key) && ReadPair(key0, value) == Some(ListArgument(key, v))
    ensures key0 == key && value == v && Trim(v) != []
  {
    ListKeys(key);
  }

  /** A list argument is spelled in one way only. */
  lemma ListSpelling(arg: Bytes, key: Bytes, v: Bytes)
    requires IsListKey(key)
    ensures ReadArgument(arg) == Some(ListArgument(key, v)) <==> arg == Pair(key, v) && Trim(v) != []
  {
    if arg == Pair(key, v) {
      ListKeys(key);
      PairRead(key, v);
    }
    if ReadArgument(arg) == Some(ListArgument(key, v)) {
      ListRead(arg, key, v);
    }
  }

  lemma FlagSpelling(arg: Bytes)
    ensures ReadArgument(arg) == Some(AnyHost) <==> arg == ALLOW_ANY_HOST
    ensures ReadArgument(arg) == Some(AnyPrefix) <==> arg == ALLOW_ANY_PREFIX
    ensures ReadArgument(arg) == Some(DefaultMethods) <==> arg == ALLOW_DEFAULT_METHODS
  {
    assert |ALLOW_ANY_HOST| != |ALLOW_ANY_PREFIX| && |ALLOW_ANY_HOST| != |ALLOW_DEFAULT_METHODS|
           && |ALLOW_ANY_PREFIX| != |ALLOW_DEFAULT_METHODS|;
  }

  // ---------- what a parsed directive says about its text ----------

  lemma MemberOfArguments(args: seq<Bytes>, a: Argument)
    ensures a in Arguments(args) <==> exists i :: 0 <= i < |args| && ReadArgument(args[i]) == Some(a)
  {
    CollectMember(OneArgument, args, a);
    forall i | 0 <= i < |args|
      ensures a in OneArgument(args[i]) <==> ReadArgument(args[i]) == Some(a)
    {
    }
  }

  /** The texts listed under a key. */
  function ListOf(key: Bytes, s: seq<Argument>): seq<Bytes> {
    if key == ALLOWED_HOST then Hosts(s) else if key == ALLOWED_METHOD then Methods(s) else Prefixes(s)
  }

  lemma MemberOfList(key: Bytes, s: seq<Argument>, v: Bytes)
    requires IsListKey(key)
    ensures v in ListOf(key, s) <==> ListArgument(key, v) in s
  {
    ListKeys(key);
    CollectMember(HostsOf, s, v);
    CollectMember(MethodsOf, s, v);
    CollectMember(PrefixesOf, s, v);
    if key == ALLOWED_HOST {
      assert forall i :: 0 <= i < |s| ==> (v in HostsOf(s[i]) <==> s[i] == Host(v));
    } else if key == ALLOWED_METHOD {
      assert forall i :: 0 <= i < |s| ==> (v in MethodsOf(s[i]) <==> s[i] == Method(v));
    } else {
      assert forall i :: 0 <= i < |s| ==> (v in PrefixesOf(s[i]) <==> s[i] == Prefix(v));
    }
  }

  lemma ListedTexts(key: Bytes, args: seq<Bytes>, v: Bytes)
    requires IsListKey(key)
    ensures v in ListOf(key, Arguments(args)) <==> Pair(key, v) in args && Trim(v) != []
  {
    MemberOfList(key, Arguments(args), v);
    MemberOfArguments(args, ListArgument(key, v));
    if Pair(key, v) in args && Trim(v) != [] {
      var i :| 0 <= i < |args| && args[i] == Pair(key, v);
      ListSpelling(args[i], key, v);
    }
    if ListArgument(key, v) in Arguments(args) {
      var i :| 0 <= i < |args| && ReadArgument(args[i]) == Some(ListArgument(key, v));
      ListRead(args[i], key, v);
    }
  }

  lemma FlagGiven(args: seq<Bytes>)
    ensures AnyHost in Arguments(args) <==> ALLOW_ANY_HOST in args
    ensures AnyPrefix in Arguments(args) <==> ALLOW_ANY_PREFIX in args
    ensures DefaultMethods in Arguments(args) <==> ALLOW_DEFAULT_METHODS in args
  {
    MemberOfArguments(args, AnyHost);
    MemberOfArguments(args, AnyPrefix);
    MemberOfArguments(args, DefaultMethods);
    forall i | 0 <= i < |args|
      ensures ReadArgument(args[i]) == Some(AnyHost) <==> args[i] == ALLOW_ANY_HOST
      ensures ReadArgument(args[i]) == Some(AnyPrefix) <==> args[i] == ALLOW_ANY_PREFIX
      ensures ReadArgument(args[i]) == Some(DefaultMethods) <==> args[i] == ALLOW_DEFAULT_METHODS
    {
      FlagSpelling(args[i]);
    }
  }

  // ---------- what the verifier compiles from it ----------

  /** The policy compiled from an accepted directive. */
  predicate Configures(crypto: Primitives, args: seq<Bytes>, load: Bytes -> Option<Bytes>, d: nat, p: Policy) {
    && DirectiveOk(args)
    && var c := Resolved(Trim(args[0]), Arguments(args[1..]), load);
       c.Some? && CredentialCompiles(c.value, d) && p == CompiledPolicy(crypto, c.value, d)
  }

  lemma ListedIsNotBlank(key: Bytes, args: seq<Bytes>, v: Bytes)
    requires IsListKey(key) && AllRead(args) && Pair(key, v) in args
    ensures Trim(v) != []
  {
    ListKeys(key);
    PairRead(key, v);
  }

  /** On a directive whose arguments were all read, the texts under a key are those written. */
  lemma ListedIffWritten(key: Bytes, args: seq<Bytes>, v: Bytes)
    requires IsListKey(key) && AllRead(args)
    ensures v in ListOf(key, Arguments(args)) <==> Pair(key, v) in args
    ensures v in ListOf(key, Arguments(args)) ==> Trim(v) != []
  {
    ListedTexts(key, args, v);
    if Pair(key, v) in args { ListedIsNotBlank(key, args, v); }
  }

  lemma CompiledHosts(args: seq<Bytes>, x: Bytes)
    requires AllRead(args) && HostsOk(Hosts(Arguments(args)))
    ensures x in HostSet(Hosts(Arguments(args))) <==> exists v :: Pair(ALLOWED_HOST, v) in args && x == Lower(Trim(v))
  {
    var hosts := Hosts(Arguments(args));
    if x in HostSet(hosts) {
      var v :| v in hosts && NormalizeHost(v) == Some(x);
      ListedIffWritten(ALLOWED_HOST, args, v);
    }
    if v :| Pair(ALLOWED_HOST, v) in args && x == Lower(Trim(v)) {
      ListedIffWritten(ALLOWED_HOST, args, v);
      assert v in hosts && NormalizeHost(v).Some?;
      assert x != [];
    }
  }

  lemma CompiledMethods(args: seq<Bytes>, x: Bytes)
    requires AllRead(args) && MethodsOk(Methods(Arguments(args)))
    ensures x in MethodSet(Methods(Arguments(args)))
            <==> exists v :: Pair(ALLOWED_METHOD, v) in args && x == Upper(Trim(v))
  {
    var methods := Methods(Arguments(args));
    ListKeys(ALLOWED_METHOD);
    if x in MethodSet(methods) {
      var v :| v in methods && NormalizeMethod(v) == Some(x);
      ListedIffWritten(ALLOWED_METHOD, args, v);
    }
    if v :| Pair(ALLOWED_METHOD, v) in args && x == Upper(Trim(v)) {
      ListedIffWritten(ALLOWED_METHOD, args, v);
      assert v in methods && NormalizeMethod(v).Some?;
    }
  }

  lemma CompiledPrefixes(args: seq<Bytes>, x: Bytes)
    requires AllRead(args)
    ensures x in PrefixList(Prefixes(Arguments(args))) <==> Pair(ALLOWED_PREFIX, x) in args
  {
    ListKeys(ALLOWED_PREFIX);
    PrefixListMembers(Prefixes(Arguments(args)), x);
    ListedIffWritten(ALLOWED_PREFIX, args, x);
    BlankIsTrimmed();
  }

  lemma BlankIsTrimmed()
    ensures Trim([]) == []
  {
  }

  lemma ConfiguredLists(crypto: Primitives, args: seq<Bytes>, load: Bytes -> Option<Bytes>, d: nat, p: Policy)
    requires Configures(crypto, args, load, d, p)
    ensures var s := Arguments(args[1..]);
            && HostsOk(Hosts(s)) && MethodsOk(Methods(s))
            && p.allowedHosts == HostSet(Hosts(s)) && p.allowedMethods == MethodSet(Methods(s))
            && p.allowedPrefixes == PrefixList(Prefixes(s))
            && 0 < p.maxExpires <= MAX_EXPIRES
  {
  }

  /** The compiled restrictions are exactly the listed texts, normalised; nothing is lost and nothing is added. */
  lemma CompiledListsAreTheTexts(crypto: Primitives, args: seq<Bytes>, load: Bytes -> Option<Bytes>, d: nat,
                                 p: Policy, x: Bytes)
    requires Configures(crypto, args, load, d, p)
    ensures x in p.allowedHosts <==> exists v :: Pair(ALLOWED_HOST, v) in args[1..] && x == Lower(Trim(v))
    ensures x in p.allowedMethods <==> exists v :: Pair(ALLOWED_METHOD, v) in args[1..] && x == Upper(Trim(v))
    ensures x in p.allowedPrefixes <==> Pair(ALLOWED_PREFIX, x) in args[1..]
  {
    ConfiguredLists(crypto, args, load, d, p);
    CompiledHosts(args[1..], x);
    CompiledMethods(args[1..], x);
    CompiledPrefixes(args[1..], x);
  }

  /** A list compiles to nothing only if it was empty. */
  lemma NonEmptyStays(args: seq<Bytes>)
    requires AllRead(args)
    ensures var s := Arguments(args);
            && (HostsOk(Hosts(s)) ==> (HostSet(Hosts(s)) == {} <==> Hosts(s) == []))
            && (MethodsOk(Methods(s)) ==> (MethodSet(Methods(s)) == {} <==> Methods(s) == []))
            && (PrefixList(Prefixes(s)) == [] <==> Prefixes(s) == [])
  {
    var s := Arguments(args);
    ListKeys(ALLOWED_METHOD);
    if Hosts(s) != [] && HostsOk(Hosts(s)) {
      ListedIffWritten(ALLOWED_HOST, args, Hosts(s)[0]);
      CompiledHosts(args, Lower(Trim(Hosts(s)[0])));
    }
    if Methods(s) != [] && MethodsOk(Methods(s)) {
      ListedIffWritten(ALLOWED_METHOD, args, Methods(s)[0]);
      CompiledMethods(args, Upper(Trim(Methods(s)[0])));
    }
    if Prefixes(s) != [] {
      ListedIffWritten(ALLOWED_PREFIX, args, Prefixes(s)[0]);
      CompiledPrefixes(args, Prefixes(s)[0]);
    }
  }

  /** A compiled restriction is empty exactly when its flag was written; the expiry cap lies in (0, 7 days]. */
  lemma NoAllowlistCollapse(crypto: Primitives, args: seq<Bytes>, load: Bytes -> Option<Bytes>, d: nat, p: Policy)
    requires Configures(crypto, args, load, d, p)
    ensures p.allowedHosts == {} <==> ALLOW_ANY_HOST in args[1..]
    ensures p.allowedMethods == {} <==> ALLOW_DEFAULT_METHODS in args[1..]
    ensures p.allowedPrefixes == [] <==> ALLOW_ANY_PREFIX in args[1..]
    ensures 0 < p.maxExpires <= MAX_EXPIRES
  {
    ConfiguredLists(crypto, args, load, d, p);
    NonEmptyStays(args[1..]);
    FlagGiven(args[1..]);
  }

  ghost predicate TextAllowsHost(args: seq<Bytes>, host: Bytes) {
    ALLOW_ANY_HOST in args || exists v :: Pair(ALLOWED_HOST, v) in args && host == Lower(Trim(v))
  }

  ghost predicate TextAllowsMethod(args: seq<Bytes>, verb: Bytes) {
    ALLOW_DEFAULT_METHODS in args || exists v :: Pair(ALLOWED_METHOD, v) in args && verb == Upper(Trim(v))
  }

  ghost predicate TextAllowsPath(args: seq<Bytes>, path: Bytes) {
    ALLOW_ANY_PREFIX in args || exists v :: Pair(ALLOWED_PREFIX, v) in args && PathMatchesPrefix(path, v)
  }

  /** What the directive's text lets through. */
  ghost predicate TextAllows(args: seq<Bytes>, verb: Bytes, host: Bytes, path: Bytes) {
    TextAllowsHost(args, host) && TextAllowsMethod(args, verb) && TextAllowsPath(args, path)
  }

  lemma PathsByText(args: seq<Bytes>, p: Policy, path: Bytes)
    requires forall x :: x in p.allowedPrefixes <==> Pair(ALLOWED_PREFIX, x) in args
    requires p.allowedPrefixes == [] <==> ALLOW_ANY_PREFIX in args
    ensures PathAllowed(p, path) <==> TextAllowsPath(args, path)
  {
    if i :| 0 <= i < |p.allowedPrefixes| && PathMatchesPrefix(path, p.allowedPrefixes[i]) {
      assert Pair(ALLOWED_PREFIX, p.allowedPrefixes[i]) in args;
    }
    if v :| Pair(ALLOWED_PREFIX, v) in args && PathMatchesPrefix(path, v) {
      assert v in p.allowedPrefixes;
    }
  }

  /** The compiled policy lets through exactly what the directive's text does. */
  lemma PolicyIsTheText(crypto: Primitives, args: seq<Bytes>, load: Bytes -> Option<Bytes>, d: nat, p: Policy,
                        verb: Bytes, host: Bytes, path: Bytes)
    requires Configures(crypto, args, load, d, p)
    ensures PolicyAllows(p, verb, host, path) <==> p.enabled && TextAllows(args[1..], verb, host, path)
  {
    NoAllowlistCollapse(crypto, args, load, d, p);
    CompiledListsAreTheTexts(crypto, args, load, d, p, host);
    CompiledListsAreTheTexts(crypto, args, load, d, p, verb);
    forall x ensures x in p.allowedPrefixes <==> Pair(ALLOWED_PREFIX, x) in args[1..] {
      CompiledListsAreTheTexts(crypto, args, load, d, p, x);
    }
    PathsByText(args[1..], p, path);
    assert HostAllowed(p, host) <==> TextAllowsHost(args[1..], host);
    assert MethodAllowed(p, verb) <==> TextAllowsMethod(args[1..], verb);
  }

  /** From directive text to verdict: a request that is allowed is one its credential's directive lets through. */
  lemma AllowedIsListed(crypto: Primitives, cfg: Config, r: Request, g: Grant,
                        args: seq<Bytes>, load: Bytes -> Option<Bytes>, d: nat)
    requires Grants(crypto, cfg, r, g) && Configures(crypto, args, load, d, cfg.credentials[g.accessKey])
    ensures TextAllows(args[1..], Upper(Trim(r.verb)), Lower(Trim(r.host)), g.path)
  {
    PolicyIsTheText(crypto, args, load, d, cfg.credentials[g.accessKey], Upper(Trim(r.verb)), Lower(Trim(r.host)),
                    g.path);
  }

  // ---------- the order of the arguments ----------

  lemma SameMembers<T>(s: seq<T>, t: seq<T>, x: T)
    requires multiset(s) == multiset(t)
    ensures x in s <==> x in t
  {
    assert x in multiset(s) <==> x in multiset(t);
  }

  /** A permutation of at most one item is that item. */
  lemma FewPermuted<T>(s: seq<T>, t: seq<T>)
    requires multiset(s) == multiset(t)
    ensures |s| == |t| && (|s| <= 1 ==> s == t)
  {
    SingletonFromMultiset(s, t);
  }

  lemma AllReadPermuted(args: seq<Bytes>, other: seq<Bytes>)
    requires multiset(args) == multiset(other) && AllRead(args)
    ensures AllRead(other)
  {
    forall i | 0 <= i < |other| ensures ReadArgument(other[i]).Some? {
      SameMembers(args, other, other[i]);
    }
  }

  /** Permuting arguments permutes the three lists and moves nothing that may occur only once. */
  lemma PermutedArguments(s: seq<Argument>, t: seq<Argument>)
    requires multiset(s) == multiset(t)
    ensures Consistent(s) <==> Consistent(t)
    ensures Consistent(s) ==> Secrets(s) == Secrets(t) && Enableds(s) == Enableds(t) && Caps(s) == Caps(t)
    ensures Hosts(s) == [] <==> Hosts(t) == []
    ensures Methods(s) == [] <==> Methods(t) == []
    ensures Prefixes(s) == [] <==> Prefixes(t) == []
  {
    CollectPermutes(SecretsOf, s, t);
    FewPermuted(Secrets(s), Secrets(t));
    CollectPermutes(EnabledOf, s, t);
    FewPermuted(Enableds(s), Enableds(t));
    CollectPermutes(CapsOf, s, t);
    FewPermuted(Caps(s), Caps(t));
    CollectPermutes(HostsOf, s, t);
    FewPermuted(Hosts(s), Hosts(t));
    CollectPermutes(MethodsOf, s, t);
    FewPermuted(Methods(s), Methods(t));
    CollectPermutes(PrefixesOf, s, t);
    FewPermuted(Prefixes(s), Prefixes(t));
  }

  lemma PermutedText(args: seq<Bytes>, other: seq<Bytes>, verb: Bytes, host: Bytes, path: Bytes)
    requires multiset(args) == multiset(other)
    ensures TextAllows(args, verb, host, path) <==> TextAllows(other, verb, host, path)
  {
    forall x ensures x in args <==> x in other { SameMembers(args, other, x); }
  }

  /**
    The order of a directive's arguments decides neither its acceptance, nor its scalar settings, nor what
    it lets through.
   */
  lemma ReorderedDirective(args: seq<Bytes>, other: seq<Bytes>)
    requires args != [] && other != [] && args[0] == other[0] && multiset(args[1..]) == multiset(other[1..])
    requires DirectiveOk(args)
    ensures DirectiveOk(other)
    ensures var s, t := Arguments(args[1..]), Arguments(other[1..]);
            Secrets(s) == Secrets(t) && Enableds(s) == Enableds(t) && Caps(s) == Caps(t)
    ensures forall verb, host, path ::
              TextAllows(args[1..], verb, host, path) <==> TextAllows(other[1..], verb, host, path)
  {
    forall verb, host, path
      ensures TextAllows(args[1..], verb, host, path) <==> TextAllows(other[1..], verb, host, path)
    {
      PermutedText(args[1..], other[1..], verb, host, path);
    }
    var s, t := Arguments(args[1..]), Arguments(other[1..]);
    AllReadPermuted(args[1..], other[1..]);
    CollectPermutes(OneArgument, args[1..], other[1..]);
    PermutedArguments(s, t);
    SameMembers(s, t, AnyHost);
    SameMembers(s, t, AnyPrefix);
    SameMembers(s, t, DefaultMethods);
  }
}
