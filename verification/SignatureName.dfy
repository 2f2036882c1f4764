/** Whether an allowed target must contain the text `X-Amz-Signature`: it need not, and exactly when it does. */
module SignatureName {
  import opened Wrappers
  import opened ByteStrings
  import opened Seqs
  import opened Percent
  import opened Queries
  import opened Paths
  import opened Crypto
  import opened Compile
  import opened VerifierCore
  import opened Decisions
  import opened Verdicts
  import opened Presign

  // ---------- occurrences ----------

  predicate At(s: Bytes, w: Bytes, i: nat) { i + |w| <= |s| && s[i..i + |w|] == w }

  predicate Contains(s: Bytes, w: Bytes) { exists i :: 0 <= i <= |s| && At(s, w, i) }

  lemma CutInside(a: Bytes, c: byte, b: Bytes, w: Bytes, i: nat)
    requires At(a + [c] + b, w, i) && i <= |a| < i + |w|
    ensures c in w
  {
    var s := a + [c] + b;
    assert s[i..i + |w|][|a| - i] == s[|a|] == c;
  }

  /** A text without the separator lies on one side of it. */
  lemma ContainsAcross(a: Bytes, c: byte, b: Bytes, w: Bytes)
    requires w != [] && c !in w
    ensures Contains(a + [c] + b, w) <==> Contains(a, w) || Contains(b, w)
  {
    var s := a + [c] + b;
    if i :| 0 <= i <= |a| && At(a, w, i) {
      assert s[i..i + |w|] == a[i..i + |w|];
      assert At(s, w, i);
    }
    if i :| 0 <= i <= |b| && At(b, w, i) {
      var j := |a| + 1 + i;
      assert s[j..j + |w|] == b[i..i + |w|];
      assert At(s, w, j);
    }
    if i :| 0 <= i <= |s| && At(s, w, i) {
      if i + |w| <= |a| {
        assert s[i..i + |w|] == a[i..i + |w|];
        assert At(a, w, i);
      } else if i > |a| {
        var j := i - |a| - 1;
        assert s[i..i + |w|] == b[j..j + |w|];
        assert At(b, w, j);
      } else {
        CutInside(a, c, b, w, i);
        assert false;
      }
    }
  }

  lemma {:induction false} ContainsJoin(parts: seq<Bytes>, c: byte, w: Bytes)
    requires parts != [] && w != [] && c !in w
    ensures Contains(Join(parts, c), w) <==> exists i :: 0 <= i < |parts| && Contains(parts[i], w)
  {
    if |parts| == 1 {
      assert Contains(Join(parts, c), w) <==> Contains(parts[0], w);
    } else {
      ContainsJoin(parts[1..], c, w);
      ContainsAcross(parts[0], c, Join(parts[1..], c), w);
      if i :| 0 <= i < |parts[1..]| && Contains(parts[1..][i], w) {
        assert Contains(parts[i + 1], w);
      }
      if i :| 0 <= i < |parts| && Contains(parts[i], w) {
        if i > 0 { assert Contains(parts[1..][i - 1], w); }
      }
    }
  }

  lemma ContainsInPart(part: Bytes, w: Bytes)
    requires w != [] && EQUALS !in w
    ensures Contains(part, w) <==> Contains(RawName(part), w) || Contains(RawValue(part), w)
  {
    var e := IndexOf(part, EQUALS);
    if e < |part| {
      assert part == RawName(part) + [EQUALS] + RawValue(part);
      ContainsAcross(RawName(part), EQUALS, RawValue(part), w);
    } else {
      assert RawName(part) == part;
    }
  }

  // ---------- occurrences and decoding ----------

  /** A word that decoding leaves alone and that no escape can reach into. */
  predicate PlainWord(w: Bytes) { w != [] && AllUnreserved(w) && !IsHex(w[0]) && w[0] != PERCENT }

  lemma DecodeEmpty(s: Bytes)
    requires Decode(s) == Some([])
    ensures s == []
  {
  }

  lemma DecodeAfterPlain(w: Bytes, b: Bytes)
    requires AllUnreserved(w)
    ensures Decode(w + b) == Prepend(w, Decode(b))
  {
    UnreservedIsFixed(w);
    DecodeEncodeThen(w, b);
  }

  /** Where a plain word occurs in an encoded string, its bytes occur in the decoding. */
  lemma DecodeAround(a: Bytes, w: Bytes, b: Bytes)
    requires PlainWord(w) && Decode(a + w + b).Some?
    ensures Decode(a).Some? && Decode(b).Some?
    ensures Decode(a + w + b) == Some(Decode(a).value + w + Decode(b).value)
  {
    var head, tail := w[0], w[1..];
    assert a + w + b == a + [head] + (tail + b);
    DecodeAtSeparator(a, head, tail + b);
    DecodeAfterPlain(tail, b);
    RejoinWord(Decode(a).value, w, Decode(b).value);
  }

  lemma RejoinWord(a: Bytes, w: Bytes, b: Bytes)
    requires w != []
    ensures a + [w[0]] + (w[1..] + b) == a + w + b
  {
  }

  /** A spelling of a plain word contains the word only if it is the word. */
  lemma ContainsWhole(s: Bytes, w: Bytes)
    requires PlainWord(w) && Decode(s) == Some(w)
    ensures Contains(s, w) <==> s == w
  {
    if i :| 0 <= i <= |s| && At(s, w, i) {
      var a, b := s[..i], s[i + |w|..];
      assert s == a + w + b;
      DecodeAround(a, w, b);
      DecodeEmpty(a);
      DecodeEmpty(b);
    }
    if s == w { assert At(s, w, 0); }
  }

  /** No spelling of a hex text contains the word. */
  lemma HexDoesNotContain(s: Bytes, w: Bytes)
    requires PlainWord(w) && Decode(s).Some? && AllHex(Decode(s).value)
    ensures !Contains(s, w)
  {
    if i :| 0 <= i <= |s| && At(s, w, i) {
      var a, b := s[..i], s[i + |w|..];
      assert s == a + w + b;
      DecodeAround(a, w, b);
      assert Decode(s).value[|Decode(a).value|] == w[0];
      assert false;
    }
  }

  lemma SignatureIsPlain()
    ensures PlainWord(X_AMZ_SIGNATURE)
    ensures QUESTION !in X_AMZ_SIGNATURE && AMP !in X_AMZ_SIGNATURE && EQUALS !in X_AMZ_SIGNATURE
  {
    LiteralsUnreserved();
    assert X_AMZ_SIGNATURE[0] == 0x58;
  }

  // ---------- allowed targets ----------

  lemma ParamOfValue(params: seq<Param>, name: Bytes, value: Bytes)
    requires value in ValuesOf(params, name)
    ensures Param(name, value) in params
  {
    CollectMember(ValueUnder(name), params, value);
  }

  lemma KeptParam(parsed: seq<Option<Param>>, p: Param)
    requires p in Collect(Kept, parsed)
    ensures Some(p) in parsed
  {
    CollectMember(Kept, parsed, p);
  }

  lemma PartOfParsed(parts: seq<Bytes>, x: Option<Param>) returns (k: nat)
    requires x in ParseEach(parts)
    ensures k < |parts| && ParsePart(parts[k]) == x
  {
    CollectMember(ParseOne, parts, x);
    k :| 0 <= k < |parts| && x in ParseOne(parts[k]);
  }

  /** The part that a decoded value came from. */
  lemma PartOfValue(query: Bytes, name: Bytes, value: Bytes) returns (k: nat)
    requires value in ValuesOf(Params(query), name)
    ensures k < |Parts(query)| && ParsePart(Parts(query)[k]) == Some(Param(name, value))
  {
    ParamOfValue(Params(query), name, value);
    KeptParam(Parsed(query), Param(name, value));
    k := PartOfParsed(Parts(query), Some(Param(name, value)));
  }

  predicate ElsewhereIn(parts: seq<Bytes>, k: nat, w: Bytes) {
    exists j :: 0 <= j < |parts| && j != k && Contains(parts[j], w)
  }

  /**
    An allowed target contains `X-Amz-Signature` exactly when the name of its signature parameter is spelled
    without escapes, or the text happens to occur in the path or in another part.
   */
  lemma SignatureNameAppearsIff(crypto: Primitives, cfg: Config, r: Request, g: Grant) returns (k: nat)
    requires Grants(crypto, cfg, r, g)
    ensures var parts := Parts(g.query);
            && k < |parts| && ParsePart(parts[k]) == Some(Param(X_AMZ_SIGNATURE, g.signature))
            && (Contains(r.rawUri, X_AMZ_SIGNATURE)
                <==> RawName(parts[k]) == X_AMZ_SIGNATURE || Contains(g.path, X_AMZ_SIGNATURE)
                     || ElsewhereIn(parts, k, X_AMZ_SIGNATURE))
  {
    assert g.signature in ValuesOf(Params(g.query), X_AMZ_SIGNATURE);
    k := PartOfValue(g.query, X_AMZ_SIGNATURE, g.signature);
    AppearsInTarget(g.path, g.query, k, g.signature);
  }

  lemma AppearsInTarget(path: Bytes, query: Bytes, k: nat, signature: Bytes)
    requires k < |Parts(query)| && ParsePart(Parts(query)[k]) == Some(Param(X_AMZ_SIGNATURE, signature))
    requires AllHex(signature)
    ensures Contains(path + [QUESTION] + query, X_AMZ_SIGNATURE)
       <==> RawName(Parts(query)[k]) == X_AMZ_SIGNATURE || Contains(path, X_AMZ_SIGNATURE)
            || ElsewhereIn(Parts(query), k, X_AMZ_SIGNATURE)
  {
    var part := Parts(query)[k];
    SignatureIsPlain();
    ContainsAcross(path, QUESTION, query, X_AMZ_SIGNATURE);
    JoinSplit(query, AMP);
    ContainsJoin(Parts(query), AMP, X_AMZ_SIGNATURE);
    ContainsInPart(part, X_AMZ_SIGNATURE);
    ContainsWhole(RawName(part), X_AMZ_SIGNATURE);
    HexDoesNotContain(RawValue(part), X_AMZ_SIGNATURE);
  }

  // ---------- a target that does not contain it ----------

  /** `X%2DAmz-Signature`: the hyphen written as an escape. */
  const RESPELLED: Bytes := [0x58] + ([PERCENT, 0x32, 0x44] + X_AMZ_SIGNATURE[2..])

  lemma RespelledDecodes()
    ensures Decode(RESPELLED) == Some(X_AMZ_SIGNATURE)
  {
    var tail := X_AMZ_SIGNATURE[2..];
    var rest := [PERCENT, 0x32, 0x44] + tail;
    LiteralsUnreserved();
    UnreservedIsFixed(tail);
    assert rest[3..] == tail && HasEscape(rest) && EscapedByte(rest) == MINUS;
    assert Decode(rest) == Some([MINUS] + tail);
    assert RESPELLED[1..] == rest;
    assert [0x58] + ([MINUS] + tail) == X_AMZ_SIGNATURE;
  }

  /** The finished query of the presigner, and the same with the respelled name. */
  function FinishedQuery(raw: Bytes, name: Bytes, signature: Bytes): Bytes {
    raw + [AMP] + RenderOne(Param(name, signature))
  }

  lemma RenderedNameAndValue(name: Bytes, value: Bytes)
    requires EQUALS !in name && AMP !in name && AMP !in value
    ensures RawName(RenderOne(Param(name, value))) == name && RawValue(RenderOne(Param(name, value))) == value
    ensures AMP !in RenderOne(Param(name, value))
  {
    var part := RenderOne(Param(name, value));
    SplitFirst(name, EQUALS, value);
    assert part[..|name|] == name && part[|name| + 1..] == value;
  }

  /** The finished query has the parts it had and one more. */
  lemma FinishedParts(raw: Bytes, name: Bytes, signature: Bytes)
    requires raw != [] && EQUALS !in name && AMP !in name && AMP !in signature
    ensures Parts(FinishedQuery(raw, name, signature)) == Parts(raw) + [RenderOne(Param(name, signature))]
  {
    var part := RenderOne(Param(name, signature));
    RenderedNameAndValue(name, signature);
    SplitConcat(raw, AMP, part);
    SplitNone(part, AMP);
  }

  lemma NamesHaveNoSeparator()
    ensures EQUALS !in X_AMZ_SIGNATURE && AMP !in X_AMZ_SIGNATURE && EQUALS !in RESPELLED && AMP !in RESPELLED
    ensures CleanUri(RESPELLED) && RESPELLED != X_AMZ_SIGNATURE
  {
    SignatureIsPlain();
    LiteralsUnreserved();
    UnreservedIsClean(X_AMZ_SIGNATURE);
    assert forall i :: 2 <= i < |X_AMZ_SIGNATURE| ==> X_AMZ_SIGNATURE[2..][i - 2] == X_AMZ_SIGNATURE[i];
    assert RESPELLED[1] == PERCENT && X_AMZ_SIGNATURE[1] == MINUS;
  }

  lemma NamesMeanTheSame(signature: Bytes)
    requires AMP !in signature
    ensures SameMeaning(RenderOne(Param(X_AMZ_SIGNATURE, signature)), RenderOne(Param(RESPELLED, signature)))
  {
    NamesHaveNoSeparator();
    RenderedNameAndValue(X_AMZ_SIGNATURE, signature);
    RenderedNameAndValue(RESPELLED, signature);
    RespelledDecodes();
    LiteralsUnreserved();
    UnreservedIsFixed(X_AMZ_SIGNATURE);
  }

  ghost predicate SamePartMeanings(p1: seq<Bytes>, p2: seq<Bytes>) {
    |p1| == |p2| && forall i :: 0 <= i < |p1| ==> SameMeaning(p1[i], p2[i])
  }

  lemma LastPartReplaced(parts: seq<Bytes>, a: Bytes, b: Bytes)
    requires SameMeaning(a, b)
    ensures SamePartMeanings(parts + [a], parts + [b])
  {
    assert forall i :: 0 <= i < |parts| ==> SameMeaning(parts[i], parts[i]);
  }

  /** Respelling the name of the signature keeps the meaning of every part. */
  lemma RespelledParts(raw: Bytes, signature: Bytes)
    requires raw != [] && AMP !in signature
    ensures SamePartMeanings(Parts(FinishedQuery(raw, X_AMZ_SIGNATURE, signature)),
                             Parts(FinishedQuery(raw, RESPELLED, signature)))
  {
    NamesHaveNoSeparator();
    FinishedParts(raw, X_AMZ_SIGNATURE, signature);
    FinishedParts(raw, RESPELLED, signature);
    NamesMeanTheSame(signature);
    LastPartReplaced(Parts(raw), RenderOne(Param(X_AMZ_SIGNATURE, signature)), RenderOne(Param(RESPELLED, signature)));
  }

  lemma FinishedQueryIsClean(raw: Bytes, name: Bytes, signature: Bytes)
    requires CleanUri(raw) && CleanUri(name) && CleanUri(signature)
    ensures CleanUri(FinishedQuery(raw, name, signature))
  {
    CleanConcat(name, [EQUALS]);
    CleanConcat(name + [EQUALS], signature);
    CleanConcat(raw, [AMP]);
    CleanConcat(raw + [AMP], name + [EQUALS] + signature);
  }

  lemma PieceOfCleanIsClean(a: Bytes, s: Bytes)
    requires CleanUri(s) && a <= s
    ensures CleanUri(a)
  {
    assert forall i :: 0 <= i < |a| ==> a[i] == s[i];
  }

  /**
    Every target the presigner makes is still allowed when the name of its signature is respelled, and then
    it contains `X-Amz-Signature` only where the path or the query contained it before signing.
   */
  lemma RespelledIsAllowed(crypto: Primitives, cfg: Config, p: PresignInput, now: int)
    requires cfg.service == S3 && InEnvelope(cfg, p, now)
    ensures var query := FinishedQuery(RawQuery(p), RESPELLED, HexOf(PresignSignature(crypto, p)));
            var uri := p.path + [QUESTION] + query;
            && Decide(crypto, cfg, Request(p.verb, uri, p.host, now)).allowed
            && (Contains(uri, X_AMZ_SIGNATURE)
                <==> Contains(p.path, X_AMZ_SIGNATURE) || Contains(RawQuery(p), X_AMZ_SIGNATURE))
  {
    var raw, hex := RawQuery(p), HexOf(PresignSignature(crypto, p));
    var q1, q2 := FinishedQuery(raw, X_AMZ_SIGNATURE, hex), FinishedQuery(raw, RESPELLED, hex);
    var r := Request(p.verb, p.path + [QUESTION] + q1, p.host, now);
    PresignedParses(crypto, p);
    RenderSnoc(BaseParams(p) + p.extra, SignatureParam(crypto, p));
    assert q1 == SignedQuery(crypto, p);
    HexHasNoSeparator(PresignSignature(crypto, p));
    RespelledParts(raw, hex);
    RespelledIsClean(crypto, p);
    SignerVerifierRoundTrip(crypto, cfg, p, now);
    ReencodingKeepsVerdict(crypto, cfg, r, p.path, q1, q2);
    RespelledOccurrence(p.path, raw, PresignSignature(crypto, p));
  }

  lemma HexHasNoSeparator(d: Digest)
    ensures AMP !in HexOf(d) && AllHex(HexOf(d)) && CleanUri(HexOf(d)) && Decode(HexOf(d)) == Some(HexOf(d))
  {
    HexOfIsHex(d);
    UnreservedIsClean(HexOf(d));
    UnreservedIsFixed(HexOf(d));
  }

  lemma RespelledIsClean(crypto: Primitives, p: PresignInput)
    requires IdentityOk(p) && ExtrasOk(p.extra)
    ensures var hex := HexOf(PresignSignature(crypto, p));
            && CleanUri(FinishedQuery(RawQuery(p), X_AMZ_SIGNATURE, hex))
            && CleanUri(FinishedQuery(RawQuery(p), RESPELLED, hex))
  {
    var raw, hex := RawQuery(p), HexOf(PresignSignature(crypto, p));
    PresignedIsClean(crypto, p);
    RenderSnoc(BaseParams(p) + p.extra, SignatureParam(crypto, p));
    PieceOfCleanIsClean(raw, SignedQuery(crypto, p));
    NamesHaveNoSeparator();
    HexHasNoSeparator(PresignSignature(crypto, p));
    FinishedQueryIsClean(raw, RESPELLED, hex);
  }

  lemma RespelledOccurrence(path: Bytes, raw: Bytes, d: Digest)
    ensures Contains(path + [QUESTION] + FinishedQuery(raw, RESPELLED, HexOf(d)), X_AMZ_SIGNATURE)
       <==> Contains(path, X_AMZ_SIGNATURE) || Contains(raw, X_AMZ_SIGNATURE)
  {
    var hex := HexOf(d);
    SignatureIsPlain();
    NamesHaveNoSeparator();
    HexHasNoSeparator(d);
    RespelledDecodes();
    ContainsAcross(path, QUESTION, FinishedQuery(raw, RESPELLED, hex), X_AMZ_SIGNATURE);
    ContainsAcross(raw, AMP, RenderOne(Param(RESPELLED, hex)), X_AMZ_SIGNATURE);
    ContainsAcross(RESPELLED, EQUALS, hex, X_AMZ_SIGNATURE);
    ContainsWhole(RESPELLED, X_AMZ_SIGNATURE);
    HexDoesNotContain(hex, X_AMZ_SIGNATURE);
  }
}
