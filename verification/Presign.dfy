/** The presigner: an independent signer, and the simple forms of the codec and the canonical query. */
module Presign {
  import opened Wrappers
  import opened ByteStrings
  import opened Seqs
  import opened Percent
  import opened Decimals
  import opened Timestamps
  import opened Queries
  import opened Paths
  import opened Crypto
  import opened Compile
  import opened VerifierCore
  import opened Decisions

  // ---------- the simple codec ----------

  method UriEncode(value: Bytes) returns (out: Bytes)
    ensures out == Encode(value)
  {
    out := [];
    assert value[..0] == [];
    for i := 0 to |value|
      invariant out == Encode(value[..i])
    {
      var c := value[i];
      assert value[..i + 1] == value[..i] + [c];
      EncodeConcat(value[..i], [c]);
      assert Encode([c]) == EncodeByte(c) by { assert [c][1..] == []; }
      if IsUnreserved(c) {
        out := out + [c];
      } else {
        out := out + EscapeByte(c);
      }
    }
    assert value[..|value|] == value;
  }

  /** The presigner's decoder does not check escapes: its callers must pass well-formed input. */
  method PresignDecode(value: Bytes) returns (out: Bytes)
    requires Decode(value).Some?
    ensures Decode(value) == Some(out)
  {
    out := [];
    var i := 0;
    PrependNothing(Decode(value));
    assert value[i..] == value;
    while i < |value|
      invariant 0 <= i <= |value|
      invariant Decode(value) == Prepend(out, Decode(value[i..]))
    {
      var c := value[i];
      ghost var rest := value[i..];
      if c != PERCENT {
        PrependTwice(out, [c], Decode(rest[1..]));
        out := out + [c];
        i := i + 1;
        assert rest[1..] == value[i..];
        continue;
      }
      assert HasEscape(rest);
      PrependTwice(out, [EscapedByte(rest)], Decode(rest[3..]));
      out := out + [FromHex(value[i + 1]) * 16 + FromHex(value[i + 2])];
      i := i + 3;
      assert rest[3..] == value[i..];
    }
    assert value[i..] == [] && out + [] == out;
  }

  // ---------- the simple canonical query ----------

  predicate PartDecodes(part: Bytes) { Decode(RawName(part)).Some? && Decode(RawValue(part)).Some? }

  predicate PartsDecode(parts: seq<Bytes>) { forall i :: 0 <= i < |parts| ==> PartDecodes(parts[i]) }

  function PresignPart(part: Bytes): seq<Param> {
    match (Decode(RawName(part)), Decode(RawValue(part)))
    case (Some(n), Some(v)) => EncodeSigned(Param(n, v))
    case _ => []
  }

  /** Decode, drop the signature, encode, sort, join. */
  function PresignQuery(raw: Bytes): Bytes { Render(SortParams(Collect(PresignPart, Split(raw, AMP)))) }

  method PresignCanonicalQuery(raw: Bytes) returns (out: Bytes)
    requires PartsDecode(Split(raw, AMP))
    ensures out == PresignQuery(raw)
  {
    var parts := Split(raw, AMP);
    var params: seq<Param> := [];
    assert parts[..0] == [];
    for i := 0 to |parts|
      invariant params == Collect(PresignPart, parts[..i])
    {
      var part := parts[i];
      assert PartDecodes(part);
      assert parts[..i + 1] == parts[..i] + [part];
      CollectOne(PresignPart, parts[..i], part);
      var name := PresignDecode(RawName(part));
      var value := PresignDecode(RawValue(part));
      if name == X_AMZ_SIGNATURE {
        continue;
      }
      var encodedName := UriEncode(name);
      var encodedValue := UriEncode(value);
      params := params + [Param(encodedName, encodedValue)];
    }
    assert parts[..|parts|] == parts;
    var sorted := SortUnstable(params);
    SortedUnique(sorted, SortParams(params));
    out := JoinParams(sorted);
  }

  lemma {:induction false} PresignParts(parts: seq<Bytes>)
    requires None !in ParseEach(parts)
    ensures Collect(PresignPart, parts) == EncodedSigned(Collect(Kept, ParseEach(parts))) && PartsDecode(parts)
  {
    if parts == [] {
    } else {
      var part, rest := parts[0], parts[1..];
      assert parts == [part] + rest;
      CollectCons(ParseOne, part, rest);
      assert ParseEach(parts) == [ParsePart(part)] + ParseEach(rest);
      assert ParseEach(parts)[0] == ParsePart(part);
      assert forall i :: 0 <= i < |ParseEach(rest)| ==> ParseEach(parts)[i + 1] == ParseEach(rest)[i];
      PresignParts(rest);
      CollectCons(Kept, ParsePart(part), ParseEach(rest));
      CollectCons(EncodeSigned, ParsePart(part).value, Collect(Kept, ParseEach(rest)));
      assert PresignPart(part) == EncodeSigned(ParsePart(part).value);
    }
  }

  /** On every non-empty query the verifier accepts, the two canonicalisers agree. */
  lemma CanonicalisersAgree(raw: Bytes)
    requires raw != [] && Accepted(raw)
    ensures PresignQuery(raw) == CanonicalOf(Params(raw)) && PartsDecode(Split(raw, AMP))
  {
    PresignParts(Split(raw, AMP));
  }

  /** On the empty query they differ: the presigner makes one nameless parameter of it. */
  lemma CanonicalisersDifferOnEmpty()
    ensures Accepted([]) && CanonicalOf(Params([])) == [] && PresignQuery([]) == [EQUALS]
  {
    SplitNone([], AMP);
    assert Split([], AMP)[1..] == [];
    assert PresignPart([]) == [Param([], [])];
    var s := SortParams([Param([], [])]);
    assert multiset(s) == multiset{Param([], [])};
    SortedUnique(s, [Param([], [])]);
    assert RenderOne(Param([], [])) == [EQUALS];
    assert RenderEach([Param([], [])]) == [[EQUALS]];
    assert Collect(PresignPart, [[]]) == [Param([], [])] + Collect(PresignPart, Split([], AMP)[1..]);
  }

  // ---------- presigning ----------

  /** What is signed; the presigner's fixed instant and service are generalised to any accepted instant. */
  datatype PresignInput = PresignInput(
    verb: Bytes,
    path: Bytes,
    host: Bytes,
    accessKey: Bytes,
    secretKey: Bytes,
    region: Bytes,
    expires: nat,
    extra: seq<Param>,
    stamp: Stamp)

  function InputScope(p: PresignInput): Bytes { ScopeText(PrintDate(p.stamp), p.region, S3, TERMINAL) }

  /** The five parameters the presigner adds, already percent-encoded. */
  function BaseParams(p: PresignInput): seq<Param> {
    [Param(X_AMZ_ALGORITHM, ALGORITHM),
     Param(X_AMZ_CREDENTIAL, Encode(CredentialText(p.accessKey, InputScope(p)))),
     Param(X_AMZ_DATE, PrintStamp(p.stamp)),
     Param(X_AMZ_EXPIRES, Decimal(p.expires)),
     Param(X_AMZ_SIGNED_HEADERS, HOST)]
  }

  function RawQuery(p: PresignInput): Bytes { Render(BaseParams(p) + p.extra) }

  // The signer builds its texts and its key on its own.

  function OwnRequest(verb: Bytes, path: Bytes, query: Bytes, host: Bytes): Bytes {
    verb + Lit("\n") + path + Lit("\n") + query + Lit("\nhost:") + host + Lit("\n\nhost\nUNSIGNED-PAYLOAD")
  }

  function OwnStringToSign(timestamp: Bytes, scope: Bytes, hash: Digest): Bytes {
    Lit("AWS4-HMAC-SHA256\n") + timestamp + Lit("\n") + scope + Lit("\n") + HexOf(hash)
  }

  function OwnSeed(secretKey: Bytes): Bytes { Lit("AWS4") + secretKey }

  function OwnKey(crypto: Primitives, secretKey: Bytes, date: Bytes, region: Bytes, service: Bytes): Digest {
    crypto.hmac(
      crypto.hmac(crypto.hmac(crypto.hmac(OwnSeed(secretKey), date), region), service), Lit("aws4_request"))
  }

  function PresignSignature(crypto: Primitives, p: PresignInput): Digest {
    var request := OwnRequest(p.verb, CanonicalPath(p.path), PresignQuery(RawQuery(p)), Lower(Trim(p.host)));
    crypto.hmac(OwnKey(crypto, p.secretKey, PrintDate(p.stamp), p.region, Lit("s3")),
                OwnStringToSign(PrintStamp(p.stamp), InputScope(p), crypto.sha256(request)))
  }

  lemma OwnRequestIs(verb: Bytes, path: Bytes, query: Bytes, host: Bytes)
    ensures OwnRequest(verb, path, query, host) == CanonicalRequest(verb, path, query, host)
  {
    NewlineIs();
  }

  lemma NewlineIs()
    ensures Lit("\n") == [LF] && Lit("AWS4-HMAC-SHA256\n") == ALGORITHM + [LF]
  {
  }

  lemma OwnStringToSignIs(timestamp: Bytes, scope: Bytes, hash: Digest)
    ensures OwnStringToSign(timestamp, scope, hash) == StringToSign(timestamp, scope, hash)
  {
    NewlineIs();
  }

  /** Signer and verifier derive the same key from the same secret. */
  lemma OwnKeyIs(crypto: Primitives, secretKey: Bytes, date: Bytes, region: Bytes, service: Bytes)
    ensures OwnKey(crypto, secretKey, date, region, service)
         == DeriveKey(crypto, SecretSeed(secretKey), Scope(date, region, service))
  {
  }

  lemma OwnSignatureIs(crypto: Primitives, p: PresignInput)
    ensures PresignSignature(crypto, p)
         == crypto.hmac(
              DeriveKey(crypto, SecretSeed(p.secretKey), Scope(PrintDate(p.stamp), p.region, S3)),
              StringToSign(PrintStamp(p.stamp), InputScope(p), crypto.sha256(
                CanonicalRequest(p.verb, CanonicalPath(p.path), PresignQuery(RawQuery(p)), Lower(Trim(p.host))))))
  {
    var path, query, host := CanonicalPath(p.path), PresignQuery(RawQuery(p)), Lower(Trim(p.host));
    OwnRequestIs(p.verb, path, query, host);
    OwnStringToSignIs(PrintStamp(p.stamp), InputScope(p), crypto.sha256(CanonicalRequest(p.verb, path, query, host)));
    OwnKeyIs(crypto, p.secretKey, PrintDate(p.stamp), p.region, S3);
  }

  /** What the signer signs is what the verifier will expect for the same canonical query. */
  lemma OwnSignatureIsGranted(crypto: Primitives, p: PresignInput, g: Grant)
    requires g.path == p.path && g.region == p.region && g.stamp == p.stamp
    requires CanonicalOf(Params(g.query)) == PresignQuery(RawQuery(p))
    ensures PresignSignature(crypto, p)
         == GrantedSignature(crypto, OwnSeed(p.secretKey), p.verb, Lower(Trim(p.host)), g)
  {
    OwnSignatureIs(crypto, p);
    GrantedSignatureIs(crypto, OwnSeed(p.secretKey), p.verb, Lower(Trim(p.host)), g);
  }

  /** The four keyed steps and the signature. */
  method Signature(crypto: Primitives, secretKey: Bytes, date: Bytes, region: Bytes, service: Bytes, text: Bytes)
    returns (signature: Digest)
    ensures signature == crypto.hmac(OwnKey(crypto, secretKey, date, region, service), text)
  {
    var kDate := crypto.hmac(OwnSeed(secretKey), date);
    var kRegion := crypto.hmac(kDate, region);
    var kService := crypto.hmac(kRegion, service);
    var kSigning := crypto.hmac(kService, Lit("aws4_request"));
    signature := crypto.hmac(kSigning, text);
  }

  function SignatureParam(crypto: Primitives, p: PresignInput): Param {
    Param(X_AMZ_SIGNATURE, HexOf(PresignSignature(crypto, p)))
  }

  function SignedQuery(crypto: Primitives, p: PresignInput): Bytes {
    Render(BaseParams(p) + p.extra + [SignatureParam(crypto, p)])
  }

  /** Builds the request target the way the presigner does, one piece after another. */
  method PresignedUri(crypto: Primitives, p: PresignInput) returns (uri: Bytes)
    requires PartsDecode(Split(RawQuery(p), AMP))
    ensures uri == p.path + [QUESTION] + SignedQuery(crypto, p)
  {
    var date := PrintDate(p.stamp);
    var credentialScope := date + [SLASH] + p.region + [SLASH] + S3 + [SLASH] + TERMINAL;
    var credential := UriEncode(p.accessKey + [SLASH] + credentialScope);
    var params := [Param(X_AMZ_ALGORITHM, ALGORITHM), Param(X_AMZ_CREDENTIAL, credential),
                   Param(X_AMZ_DATE, PrintStamp(p.stamp)), Param(X_AMZ_EXPIRES, Decimal(p.expires)),
                   Param(X_AMZ_SIGNED_HEADERS, HOST)];
    params := params + p.extra;
    var rawQuery := JoinParams(params);
    var canonicalPath := RewritePath(p.path);
    var canonicalQuery := PresignCanonicalQuery(rawQuery);
    var canonicalHash := crypto.sha256(OwnRequest(p.verb, canonicalPath, canonicalQuery, Lower(Trim(p.host))));
    var text := OwnStringToSign(PrintStamp(p.stamp), credentialScope, canonicalHash);
    var signature := Signature(crypto, p.secretKey, date, p.region, S3, text);
    uri := p.path + [QUESTION] + (rawQuery + [AMP] + RenderOne(Param(X_AMZ_SIGNATURE, HexOf(signature))));
    RenderSnoc(params, Param(X_AMZ_SIGNATURE, HexOf(signature)));
  }

  lemma RenderSnoc(s: seq<Param>, e: Param)
    requires s != []
    ensures Render(s + [e]) == Render(s) + [AMP] + RenderOne(e)
  {
    assert RenderEach(s + [e]) == RenderEach(s) + [RenderOne(e)];
    JoinConcat(RenderEach(s), [RenderOne(e)], AMP);
  }

  // ---------- what the presigned query says ----------

  /** An extra parameter inside the envelope: well formed, not reserved, free of bytes a target may not contain. */
  predicate ExtraOk(e: Param) {
    && WellFormedRaw(e) && !IsKnownName(Decode(e.name).value) && CleanUri(e.name) && CleanUri(e.value)
  }

  predicate ExtrasOk(extra: seq<Param>) { forall i :: 0 <= i < |extra| ==> ExtraOk(extra[i]) }

  lemma LiteralsUnreserved()
    ensures AllUnreserved(X_AMZ_ALGORITHM) && AllUnreserved(X_AMZ_CREDENTIAL) && AllUnreserved(X_AMZ_DATE)
    ensures AllUnreserved(X_AMZ_EXPIRES) && AllUnreserved(X_AMZ_SIGNED_HEADERS) && AllUnreserved(X_AMZ_SIGNATURE)
    ensures AllUnreserved(ALGORITHM) && AllUnreserved(HOST)
  {
    LongLiteralsUnreserved();
  }

  lemma LongLiteralsUnreserved()
    ensures AllUnreserved(X_AMZ_ALGORITHM) && AllUnreserved(X_AMZ_SIGNED_HEADERS) && AllUnreserved(ALGORITHM)
  {
  }

  lemma DigitsUnreserved(s: Bytes)
    requires AllDigits(s)
    ensures AllUnreserved(s)
  {
  }

  lemma StampUnreserved(t: Stamp)
    requires ValidStamp(t)
    ensures AllUnreserved(PrintStamp(t))
  {
    ReadPrinted(t);
    var s := PrintStamp(t);
    forall i | 0 <= i < 16
      ensures IsUnreserved(s[i])
    {
      if i < 8 { assert s[0..8][i] == s[i]; }
      if 9 <= i < 15 { assert s[9..15][i - 9] == s[i]; }
    }
  }

  lemma UnreservedIsClean(s: Bytes)
    requires forall i :: 0 <= i < |s| ==> IsUnreserved(s[i]) || s[i] == PERCENT
    ensures CleanUri(s) && AMP !in s && EQUALS !in s && IsAscii(s)
  {
  }

  lemma CleanRendered(e: Param)
    requires CleanUri(e.name) && CleanUri(e.value)
    ensures CleanUri(RenderOne(e))
  {
    CleanConcat(e.name, [EQUALS]);
    CleanConcat(e.name + [EQUALS], e.value);
  }

  /** A parameter with a plain name and an encoded value stands for that name and value. */
  lemma EncodedParam(name: Bytes, text: Bytes)
    requires AllUnreserved(name) && name != [] && ValidUtf8(text)
    ensures var e := Param(name, Encode(text));
            WellFormedRaw(e) && CleanUri(RenderOne(e)) && DecodeParam(e) == [Param(name, text)]
  {
    UnreservedIsFixed(name);
    DecodeEncode(text);
    EncodeAlphabet(text);
    UnreservedIsClean(name);
    UnreservedIsClean(Encode(text));
    CleanRendered(Param(name, Encode(text)));
  }

  /** A raw parameter of unreserved bytes stands for itself. */
  lemma UnreservedParam(name: Bytes, value: Bytes)
    requires AllUnreserved(name) && name != [] && AllUnreserved(value)
    ensures WellFormedRaw(Param(name, value)) && DecodeParam(Param(name, value)) == [Param(name, value)]
    ensures CleanUri(RenderOne(Param(name, value)))
  {
    UnreservedIsFixed(value);
    UnreservedIsClean(value);
    AsciiIsUtf8(value);
    EncodedParam(name, value);
  }

  predicate IdentityOk(p: PresignInput) {
    && IsScopePart(p.accessKey) && IsScopePart(p.region) && ValidUtf8(p.accessKey) && ValidUtf8(p.region)
       && ValidStamp(p.stamp)
  }

  lemma ConcatIsUtf8(a: Bytes, b: Bytes, c: Bytes, d: Bytes)
    requires ValidUtf8(a) && ValidUtf8(b) && ValidUtf8(c) && ValidUtf8(d)
    ensures ValidUtf8(a + b + c + d)
  {
    ValidUtf8Concat(a, b);
    ValidUtf8Concat(a + b, c);
    ValidUtf8Concat(a + b + c, d);
  }

  lemma ScopeTailIsUtf8()
    ensures ValidUtf8([SLASH] + S3 + [SLASH] + TERMINAL) && ValidUtf8([SLASH])
  {
    AsciiIsUtf8([SLASH] + S3 + [SLASH] + TERMINAL);
    AsciiIsUtf8([SLASH]);
  }

  lemma ScopeTextIsUtf8(p: PresignInput)
    requires IdentityOk(p)
    ensures ValidUtf8(InputScope(p))
  {
    var date, tail := PrintDate(p.stamp), [SLASH] + S3 + [SLASH] + TERMINAL;
    PrintDateDigits(p.stamp);
    AsciiIsUtf8(date);
    ScopeTailIsUtf8();
    ConcatIsUtf8(date, [SLASH], p.region, tail);
    assert InputScope(p) == date + [SLASH] + p.region + tail;
  }

  lemma CredentialTextIsUtf8(p: PresignInput)
    requires IdentityOk(p)
    ensures ValidUtf8(CredentialText(p.accessKey, InputScope(p)))
  {
    ScopeTextIsUtf8(p);
    AsciiIsUtf8([SLASH]);
    ValidUtf8Concat(p.accessKey, [SLASH]);
    ValidUtf8Concat(p.accessKey + [SLASH], InputScope(p));
  }

  /** What the five base parameters decode to. */
  function BaseDecoded(p: PresignInput): seq<Param> {
    [Param(X_AMZ_ALGORITHM, ALGORITHM),
     Param(X_AMZ_CREDENTIAL, CredentialText(p.accessKey, InputScope(p))),
     Param(X_AMZ_DATE, PrintStamp(p.stamp)),
     Param(X_AMZ_EXPIRES, Decimal(p.expires)),
     Param(X_AMZ_SIGNED_HEADERS, HOST)]
  }

  lemma CollectFive<T, U>(f: T -> seq<U>, a: T, b: T, c: T, d: T, e: T)
    ensures Collect(f, [a, b, c, d, e]) == f(a) + f(b) + f(c) + f(d) + f(e)
  {
    CollectOne(f, [], a);
    CollectOne(f, [a], b);
    CollectOne(f, [a, b], c);
    CollectOne(f, [a, b, c], d);
    CollectOne(f, [a, b, c, d], e);
    assert [] + [a] == [a] && [a] + [b] == [a, b] && [a, b] + [c] == [a, b, c];
    assert [a, b, c] + [d] == [a, b, c, d] && [a, b, c, d] + [e] == [a, b, c, d, e];
    assert Collect(f, []) + f(a) == f(a);
  }

  /** `raw` is a target-safe spelling of `decoded`. */
  predicate Spells(raw: Param, decoded: Param) {
    WellFormedRaw(raw) && CleanUri(RenderOne(raw)) && DecodeParam(raw) == [decoded]
  }

  predicate AllSpell(raw: seq<Param>, decoded: seq<Param>) {
    |raw| == |decoded| && forall i :: 0 <= i < |raw| ==> Spells(raw[i], decoded[i])
  }

  predicate RendersClean(s: seq<Param>) { forall i :: 0 <= i < |s| ==> CleanUri(RenderOne(s[i])) }

  lemma SpellFive(a: Param, b: Param, c: Param, d: Param, e: Param, a': Param, b': Param, c': Param, d': Param,
                  e': Param)
    requires Spells(a, a') && Spells(b, b') && Spells(c, c') && Spells(d, d') && Spells(e, e')
    ensures AllSpell([a, b, c, d, e], [a', b', c', d', e'])
  {
  }

  lemma {:induction false} SpellingsDecode(raw: seq<Param>, decoded: seq<Param>)
    requires AllSpell(raw, decoded)
    ensures AllWellFormed(raw) && RendersClean(raw) && Collect(DecodeParam, raw) == decoded
  {
    if raw == [] {
    } else {
      assert Spells(raw[0], decoded[0]);
      assert raw == [raw[0]] + raw[1..] && decoded == [decoded[0]] + decoded[1..];
      SpellingsDecode(raw[1..], decoded[1..]);
      CollectCons(DecodeParam, raw[0], raw[1..]);
    }
  }

  lemma BaseParamsDecode(p: PresignInput)
    requires IdentityOk(p)
    ensures AllWellFormed(BaseParams(p)) && RendersClean(BaseParams(p))
    ensures Collect(DecodeParam, BaseParams(p)) == BaseDecoded(p)
  {
    LiteralsUnreserved();
    StampUnreserved(p.stamp);
    DecimalValue(p.expires);
    DigitsUnreserved(Decimal(p.expires));
    CredentialTextIsUtf8(p);
    var text := CredentialText(p.accessKey, InputScope(p));
    UnreservedParam(X_AMZ_ALGORITHM, ALGORITHM);
    EncodedParam(X_AMZ_CREDENTIAL, text);
    UnreservedParam(X_AMZ_DATE, PrintStamp(p.stamp));
    UnreservedParam(X_AMZ_EXPIRES, Decimal(p.expires));
    UnreservedParam(X_AMZ_SIGNED_HEADERS, HOST);
    SpellFive(Param(X_AMZ_ALGORITHM, ALGORITHM), Param(X_AMZ_CREDENTIAL, Encode(text)),
              Param(X_AMZ_DATE, PrintStamp(p.stamp)),
              Param(X_AMZ_EXPIRES, Decimal(p.expires)), Param(X_AMZ_SIGNED_HEADERS, HOST),
              Param(X_AMZ_ALGORITHM, ALGORITHM), Param(X_AMZ_CREDENTIAL, text), Param(X_AMZ_DATE, PrintStamp(p.stamp)),
              Param(X_AMZ_EXPIRES, Decimal(p.expires)), Param(X_AMZ_SIGNED_HEADERS, HOST));
    SpellingsDecode(BaseParams(p), BaseDecoded(p));
  }

  lemma {:induction false} ExtraHasNo(extra: seq<Param>, name: Bytes)
    requires ExtrasOk(extra) && IsKnownName(name)
    ensures ValuesOf(Collect(DecodeParam, extra), name) == []
  {
    if extra == [] {
    } else {
      var e, rest := extra[0], extra[1..];
      assert extra == [e] + rest && ExtraOk(e);
      ExtraHasNo(rest, name);
      CollectCons(DecodeParam, e, rest);
      var d := Param(Decode(e.name).value, Decode(e.value).value);
      assert DecodeParam(e) == [d];
      CollectCons(ValueUnder(name), d, Collect(DecodeParam, rest));
    }
  }

  /** The decoded parameters of a presigned query. */
  function PresignedParams(crypto: Primitives, p: PresignInput): seq<Param> {
    BaseDecoded(p) + Collect(DecodeParam, p.extra) + [SignatureParam(crypto, p)]
  }

  lemma SignatureParamDecodes(crypto: Primitives, p: PresignInput)
    ensures WellFormedRaw(SignatureParam(crypto, p))
    ensures DecodeParam(SignatureParam(crypto, p)) == [SignatureParam(crypto, p)]
  {
    HexOfIsHex(PresignSignature(crypto, p));
    LiteralsUnreserved();
    UnreservedParam(X_AMZ_SIGNATURE, HexOf(PresignSignature(crypto, p)));
  }

  lemma UnsignedParses(p: PresignInput)
    requires IdentityOk(p) && ExtrasOk(p.extra)
    ensures AllWellFormed(BaseParams(p) + p.extra)
    ensures Accepted(RawQuery(p)) && RawQuery(p) != []
    ensures Collect(DecodeParam, BaseParams(p) + p.extra) == BaseDecoded(p) + Collect(DecodeParam, p.extra)
    ensures Params(RawQuery(p)) == BaseDecoded(p) + Collect(DecodeParam, p.extra)
  {
    BaseParamsDecode(p);
    ExtrasWellFormed(p.extra);
    WellFormedConcat(BaseParams(p), p.extra);
    CollectConcat(DecodeParam, BaseParams(p), p.extra);
    RenderedQuery(BaseParams(p) + p.extra);
    RenderedIsNotEmpty(BaseParams(p) + p.extra);
  }

  lemma PresignedParses(crypto: Primitives, p: PresignInput)
    requires IdentityOk(p) && ExtrasOk(p.extra)
    ensures AllWellFormed(BaseParams(p) + p.extra + [SignatureParam(crypto, p)])
    ensures Accepted(SignedQuery(crypto, p)) && Params(SignedQuery(crypto, p)) == PresignedParams(crypto, p)
    ensures Accepted(RawQuery(p)) && RawQuery(p) != []
    ensures Params(RawQuery(p)) == BaseDecoded(p) + Collect(DecodeParam, p.extra)
  {
    var front, last := BaseParams(p) + p.extra, SignatureParam(crypto, p);
    UnsignedParses(p);
    SignatureParamDecodes(crypto, p);
    WellFormedConcat(front, [last]);
    CollectOne(DecodeParam, front, last);
    RenderedQuery(front + [last]);
  }

  lemma RenderedIsNotEmpty(s: seq<Param>)
    requires |s| >= 2
    ensures Render(s) != []
  {
  }

  lemma ExtrasWellFormed(extra: seq<Param>)
    requires ExtrasOk(extra)
    ensures AllWellFormed(extra)
  {
    forall i | 0 <= i < |extra| ensures WellFormedRaw(extra[i]) { assert ExtraOk(extra[i]); }
  }

  lemma WellFormedConcat(a: seq<Param>, b: seq<Param>)
    requires AllWellFormed(a) && AllWellFormed(b)
    ensures AllWellFormed(a + b)
  {
  }

  lemma PresignedValues(crypto: Primitives, p: PresignInput, name: Bytes)
    requires ExtrasOk(p.extra) && IsKnownName(name)
    ensures ValuesOf(PresignedParams(crypto, p), name)
         == ValuesOf(BaseDecoded(p), name) + ValueUnder(name)(SignatureParam(crypto, p))
  {
    var x := Collect(DecodeParam, p.extra);
    ExtraHasNo(p.extra, name);
    CollectConcat(ValueUnder(name), BaseDecoded(p), x);
    CollectOne(ValueUnder(name), BaseDecoded(p) + x, SignatureParam(crypto, p));
    assert ValuesOf(BaseDecoded(p), name) + [] == ValuesOf(BaseDecoded(p), name);
  }

  lemma BaseValues(p: PresignInput)
    ensures ValuesOf(BaseDecoded(p), X_AMZ_ALGORITHM) == [ALGORITHM]
    ensures ValuesOf(BaseDecoded(p), X_AMZ_CREDENTIAL) == [CredentialText(p.accessKey, InputScope(p))]
    ensures ValuesOf(BaseDecoded(p), X_AMZ_DATE) == [PrintStamp(p.stamp)]
    ensures ValuesOf(BaseDecoded(p), X_AMZ_EXPIRES) == [Decimal(p.expires)]
    ensures ValuesOf(BaseDecoded(p), X_AMZ_SIGNED_HEADERS) == [HOST]
    ensures ValuesOf(BaseDecoded(p), X_AMZ_SIGNATURE) == []
  {
    var b := BaseDecoded(p);
    NamesDiffer();
    CollectFive(ValueUnder(X_AMZ_ALGORITHM), b[0], b[1], b[2], b[3], b[4]);
    CollectFive(ValueUnder(X_AMZ_CREDENTIAL), b[0], b[1], b[2], b[3], b[4]);
    CollectFive(ValueUnder(X_AMZ_DATE), b[0], b[1], b[2], b[3], b[4]);
    CollectFive(ValueUnder(X_AMZ_EXPIRES), b[0], b[1], b[2], b[3], b[4]);
    CollectFive(ValueUnder(X_AMZ_SIGNED_HEADERS), b[0], b[1], b[2], b[3], b[4]);
    CollectFive(ValueUnder(X_AMZ_SIGNATURE), b[0], b[1], b[2], b[3], b[4]);
  }

  /** The signature parameter does not change what is signed. */
  lemma SignatureIsNotSigned(crypto: Primitives, p: PresignInput)
    requires IdentityOk(p) && ExtrasOk(p.extra)
    ensures CanonicalOf(Params(SignedQuery(crypto, p))) == PresignQuery(RawQuery(p))
  {
    PresignedParses(crypto, p);
    CanonicalisersAgree(RawQuery(p));
    SignatureDropped(BaseDecoded(p) + Collect(DecodeParam, p.extra), HexOf(PresignSignature(crypto, p)));
  }

  lemma SignatureDropped(params: seq<Param>, value: Bytes)
    ensures CanonicalOf(params + [Param(X_AMZ_SIGNATURE, value)]) == CanonicalOf(params)
  {
    CollectOne(EncodeSigned, params, Param(X_AMZ_SIGNATURE, value));
    assert EncodedSigned(params) + [] == EncodedSigned(params);
  }

  lemma CleanConcat(a: Bytes, b: Bytes)
    requires CleanUri(a) && CleanUri(b)
    ensures CleanUri(a + b)
  {
  }

  lemma PresignedIsClean(crypto: Primitives, p: PresignInput)
    requires IdentityOk(p) && ExtrasOk(p.extra)
    ensures CleanUri(SignedQuery(crypto, p))
  {
    BaseParamsDecode(p);
    HexOfIsHex(PresignSignature(crypto, p));
    LiteralsUnreserved();
    UnreservedParam(X_AMZ_SIGNATURE, HexOf(PresignSignature(crypto, p)));
    ExtrasRenderClean(p.extra);
    RendersCleanConcat(BaseParams(p), p.extra);
    RendersCleanConcat(BaseParams(p) + p.extra, [SignatureParam(crypto, p)]);
    RenderIsClean(BaseParams(p) + p.extra + [SignatureParam(crypto, p)]);
  }

  lemma ExtrasRenderClean(extra: seq<Param>)
    requires ExtrasOk(extra)
    ensures RendersClean(extra)
  {
    forall i | 0 <= i < |extra|
      ensures CleanUri(RenderOne(extra[i]))
    {
      assert ExtraOk(extra[i]);
      CleanRendered(extra[i]);
    }
  }

  lemma RendersCleanConcat(a: seq<Param>, b: seq<Param>)
    requires RendersClean(a) && RendersClean(b)
    ensures RendersClean(a + b)
  {
  }

  lemma RenderIsClean(s: seq<Param>)
    requires RendersClean(s)
    ensures CleanUri(Render(s))
  {
    forall k | 0 <= k < |Render(s)|
      ensures !IsForbiddenUriByte(Render(s)[k])
    {
      JoinBytes(RenderEach(s), AMP, Render(s)[k]);
      if Render(s)[k] != AMP {
        var i :| 0 <= i < |RenderEach(s)| && Render(s)[k] in RenderEach(s)[i];
        assert RenderEach(s)[i] == RenderOne(s[i]);
      }
    }
  }

  lemma {:induction false} ScannedPathIsClean(p: Bytes)
    requires ScanOk(p) && HASH !in p
    ensures CleanUri(p)
    decreases |p|
  {
    if p == [] {
    } else {
      var n := if p[0] != PERCENT then 1 else 3;
      ScannedPathIsClean(p[n..]);
      assert p == p[..n] + p[n..];
      CleanConcat(p[..n], p[n..]);
    }
  }

  // ---------- the round trip ----------

  /** The credential is configured with the signer's secret, and its policy admits the request now. */
  predicate PolicyOk(cfg: Config, p: PresignInput, now: int) {
    && p.accessKey in cfg.credentials
    && var c := cfg.credentials[p.accessKey];
       && c.secretSeed == OwnSeed(p.secretKey)
       && PolicyAllows(c, p.verb, Lower(Trim(p.host)), p.path)
       && 1 <= p.expires <= 7 * 24 * 60 * 60 && p.expires <= c.maxExpires
       && NotEarly(EpochOf(p.stamp), now, cfg.skew) && now <= EpochOf(p.stamp) + p.expires
  }

  predicate InEnvelope(cfg: Config, p: PresignInput, now: int) {
    && p.verb != [] && Upper(Trim(p.verb)) == p.verb && p.verb in cfg.supportedMethods && Lower(Trim(p.host)) != []
    && ValidPath(p.path) && QUESTION !in p.path && HASH !in p.path
    && IdentityOk(p) && ExtrasOk(p.extra) && PolicyOk(cfg, p, now)
  }

  function PresignGrant(crypto: Primitives, p: PresignInput): Grant {
    Grant(p.path, SignedQuery(crypto, p), p.accessKey, p.region, p.stamp, p.expires, Decimal(p.expires),
          HexOf(PresignSignature(crypto, p)))
  }

  lemma PresignGrantsParams(crypto: Primitives, p: PresignInput)
    requires IdentityOk(p) && ExtrasOk(p.extra)
    ensures GrantsParams(PresignGrant(crypto, p))
  {
    PresignedParses(crypto, p);
    BaseValues(p);
    NamesDiffer();
    PresignedValues(crypto, p, X_AMZ_ALGORITHM);
    PresignedValues(crypto, p, X_AMZ_CREDENTIAL);
    PresignedValues(crypto, p, X_AMZ_SIGNED_HEADERS);
    PresignedValues(crypto, p, X_AMZ_DATE);
    PresignedValues(crypto, p, X_AMZ_EXPIRES);
    PresignedValues(crypto, p, X_AMZ_SIGNATURE);
  }

  lemma PresignGrantsTarget(crypto: Primitives, p: PresignInput, r: Request)
    requires ValidPath(p.path) && QUESTION !in p.path && HASH !in p.path && IdentityOk(p) && ExtrasOk(p.extra)
    requires r.rawUri == p.path + [QUESTION] + SignedQuery(crypto, p)
    ensures GrantsTarget(r, PresignGrant(crypto, p))
  {
    PresignedParses(crypto, p);
    PresignedIsClean(crypto, p);
    ScannedPathIsClean(p.path);
    CleanConcat(p.path, [QUESTION]);
    CleanConcat(p.path + [QUESTION], SignedQuery(crypto, p));
  }

  lemma PresignGrantsPolicy(crypto: Primitives, cfg: Config, p: PresignInput, now: int)
    requires PolicyOk(cfg, p, now)
    ensures GrantsPolicy(cfg, p.verb, Lower(Trim(p.host)), now, PresignGrant(crypto, p))
  {
    ExpiryIsSpelled(crypto, p);
  }

  lemma ExpiryIsSpelled(crypto: Primitives, p: PresignInput)
    requires 1 <= p.expires <= 7 * 24 * 60 * 60
    ensures SpellsExpiry(PresignGrant(crypto, p))
  {
    ParseU64Decimal(p.expires);
    SpelledExpiryParses(PresignGrant(crypto, p));
  }

  /** Every presigned target inside the envelope is allowed, with its own path and credential. */
  lemma SignerVerifierRoundTrip(crypto: Primitives, cfg: Config, p: PresignInput, now: int)
    requires cfg.service == S3 && InEnvelope(cfg, p, now)
    ensures var uri := p.path + [QUESTION] + SignedQuery(crypto, p);
            var c := cfg.credentials[p.accessKey];
            Decide(crypto, cfg, Request(p.verb, uri, p.host, now))
            == VerifyResult(true, Ok, p.path, Some(c.accessKey), c.accessKeyHash)
  {
    var r := Request(p.verb, p.path + [QUESTION] + SignedQuery(crypto, p), p.host, now);
    var g := PresignGrant(crypto, p);
    PresignGrantsTarget(crypto, p, r);
    PresignGrantsParams(crypto, p);
    PresignGrantsPolicy(crypto, cfg, p, now);
    SignatureIsNotSigned(crypto, p);
    HexOfIsHex(PresignSignature(crypto, p));
    OwnSignatureIsGranted(crypto, p, g);
    assert Grants(crypto, cfg, r, g);
    GrantIsAllowed(crypto, cfg, r, g);
  }

  /**
    A skew too large for the clock arithmetic refuses a presigned target inside its window: at this clock
    reading, which is the timestamp less the skew when the skew is 2^63, the target counts as future-dated.
   */
  lemma PresignedRefusedInsideWindow(crypto: Primitives, cfg: Config, p: PresignInput, allowedAt: int)
    requires cfg.service == S3 && InEnvelope(cfg, p, allowedAt)
    requires EpochOf(p.stamp) > 0 && cfg.skew > I64_MAX
    ensures var now := EpochOf(p.stamp) - 0x8000_0000_0000_0000;
            && FitsI64(now) && EpochOf(p.stamp) - cfg.skew <= now <= EpochOf(p.stamp) + p.expires
            && Decide(crypto, cfg, Request(p.verb, p.path + [QUESTION] + SignedQuery(crypto, p), p.host, now)).reason
               == FutureDated
  {
    var epoch := EpochOf(p.stamp);
    var now := epoch - 0x8000_0000_0000_0000;
    var r := Request(p.verb, p.path + [QUESTION] + SignedQuery(crypto, p), p.host, now);
    var g := PresignGrant(crypto, p);
    EpochRange(p.stamp);
    FutureTestIs(epoch, now, cfg.skew);
    PresignGrantsTarget(crypto, p, r);
    PresignGrantsParams(crypto, p);
    PresignGrantsPolicy(crypto, cfg, p, allowedAt);
    GrantDecides(crypto, cfg, r, g);
  }
}
