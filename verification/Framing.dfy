/** The byte strings that are hashed and signed determine what was signed. */
module Framing {
  import opened ByteStrings
  import opened Seqs
  import opened Percent
  import opened Timestamps
  import opened Queries
  import opened Paths
  import opened Crypto
  import opened Compile
  import opened VerifierCore
  import opened Decisions

  // ---------- nothing but the frame contains a newline ----------

  lemma {:induction false} GrammarHasNoNewline(p: Bytes)
    requires InCanonicalGrammar(p)
    ensures LF !in p
    decreases |p|
  {
    if p == [] {
    } else {
      var n := if p[0] == SLASH || IsUnreserved(p[0]) then 1 else 3;
      GrammarHasNoNewline(p[n..]);
      assert p == p[..n] + p[n..];
    }
  }

  lemma CanonicalPathHasNoNewline(p: Bytes)
    ensures LF !in CanonicalPath(p)
  {
    CanonicalPathInGrammar(p);
    GrammarHasNoNewline(CanonicalPath(p));
  }

  lemma RenderedHasNoNewline(e: Param)
    requires CleanEncoded(e)
    ensures LF !in RenderOne(e)
  {
    EncodeAlphabet(Decode(e.name).value);
    EncodeAlphabet(Decode(e.value).value);
  }

  lemma CanonicalQueryHasNoNewline(q: Bytes)
    ensures LF !in CanonicalOf(Params(q))
  {
    var s := SortParams(EncodedSigned(Params(q)));
    ParamsWellTyped(Parsed(q), Parts(q));
    EncodedSignedClean(Params(q));
    SortedClean(EncodedSigned(Params(q)));
    if LF in Render(s) {
      JoinBytes(RenderEach(s), AMP, LF);
      var i :| 0 <= i < |RenderEach(s)| && LF in RenderEach(s)[i];
      RenderedHasNoNewline(s[i]);
    }
  }

  // ---------- cutting a framed string ----------

  lemma CutAtNewline(a1: Bytes, b1: Bytes, a2: Bytes, b2: Bytes)
    requires LF !in a1 && LF !in a2 && a1 + [LF] + b1 == a2 + [LF] + b2
    ensures a1 == a2 && b1 == b2
  {
    SplitFirst(a1, LF, b1);
    SplitFirst(a2, LF, b2);
    var s := a1 + [LF] + b1;
    assert a1 == s[..|a1|] && a2 == s[..|a2|];
    assert b1 == s[|a1| + 1..] && b2 == s[|a2| + 1..];
  }

  lemma CutSuffix(a1: Bytes, a2: Bytes, tail: Bytes)
    requires a1 + tail == a2 + tail
    ensures a1 == a2
  {
    assert |a1| == |a2|;
    assert a1 == (a1 + tail)[..|a1|] && a2 == (a2 + tail)[..|a2|];
  }

  lemma CutPrefix(head: Bytes, a1: Bytes, a2: Bytes)
    requires head + a1 == head + a2
    ensures a1 == a2
  {
    assert a1 == (head + a1)[|head|..] && a2 == (head + a2)[|head|..];
  }

  const HOST_KEY: Bytes := Lit("host:")

  lemma HostLineFrame()
    ensures HOST_LINE == [LF] + HOST_KEY
  {
  }

  lemma RequestFrame(m: Bytes, p: Bytes, q: Bytes, h: Bytes)
    ensures CanonicalRequest(m, p, q, h)
         == m + [LF] + (p + [LF] + (q + [LF] + (HOST_KEY + (h + SIGNED_HEADERS_LINES))))
  {
    HostLineFrame();
    var tail := h + SIGNED_HEADERS_LINES;
    assert m + [LF] + p + [LF] + q + HOST_LINE + h + SIGNED_HEADERS_LINES
        == m + [LF] + (p + [LF] + (q + ([LF] + HOST_KEY) + tail));
    assert q + ([LF] + HOST_KEY) + tail == q + [LF] + (HOST_KEY + tail);
  }

  /** The canonical request determines its parts; the host may contain anything, newlines included. */
  lemma CanonicalRequestIsInjective(m1: Bytes, p1: Bytes, q1: Bytes, h1: Bytes, m2: Bytes, p2: Bytes, q2: Bytes,
                                    h2: Bytes)
    requires LF !in m1 && LF !in p1 && LF !in q1 && LF !in m2 && LF !in p2 && LF !in q2
    requires CanonicalRequest(m1, p1, q1, h1) == CanonicalRequest(m2, p2, q2, h2)
    ensures m1 == m2 && p1 == p2 && q1 == q2 && h1 == h2
  {
    RequestFrame(m1, p1, q1, h1);
    RequestFrame(m2, p2, q2, h2);
    var h1', h2' := HOST_KEY + (h1 + SIGNED_HEADERS_LINES), HOST_KEY + (h2 + SIGNED_HEADERS_LINES);
    CutAtNewline(m1, p1 + [LF] + (q1 + [LF] + h1'), m2, p2 + [LF] + (q2 + [LF] + h2'));
    CutAtNewline(p1, q1 + [LF] + h1', p2, q2 + [LF] + h2');
    CutAtNewline(q1, h1', q2, h2');
    CutPrefix(HOST_KEY, h1 + SIGNED_HEADERS_LINES, h2 + SIGNED_HEADERS_LINES);
    CutSuffix(h1, h2, SIGNED_HEADERS_LINES);
  }

  lemma SigningFrame(date: Bytes, scope: Bytes, hash: Digest)
    ensures StringToSign(date, scope, hash) == ALGORITHM + [LF] + (date + ([LF] + (scope + ([LF] + HexOf(hash)))))
  {
    assert ALGORITHM + [LF] + date + [LF] + scope + [LF] + HexOf(hash)
        == ALGORITHM + [LF] + (date + ([LF] + (scope + ([LF] + HexOf(hash)))));
  }

  lemma CutFixed(a1: Bytes, b1: Bytes, a2: Bytes, b2: Bytes)
    requires (|a1| == |a2| || |b1| == |b2|) && a1 + b1 == a2 + b2
    ensures a1 == a2 && b1 == b2
  {
    assert |a1| + |b1| == |a1 + b1| == |a2 + b2| == |a2| + |b2|;
    var s := a1 + b1;
    assert a1 == s[..|a1|] && a2 == s[..|a2|] && b1 == s[|a1|..] && b2 == s[|a2|..];
  }

  /** The string to sign determines timestamp, scope and request hash; the region may contain anything. */
  lemma StringToSignIsInjective(d1: Bytes, s1: Bytes, x1: Digest, d2: Bytes, s2: Bytes, x2: Digest)
    requires |d1| == |d2| == 16 && StringToSign(d1, s1, x1) == StringToSign(d2, s2, x2)
    ensures d1 == d2 && s1 == s2 && x1 == x2
  {
    SigningFrame(d1, s1, x1);
    SigningFrame(d2, s2, x2);
    var y1, y2 := [LF] + HexOf(x1), [LF] + HexOf(x2);
    CutPrefix(ALGORITHM + [LF], d1 + ([LF] + (s1 + y1)), d2 + ([LF] + (s2 + y2)));
    CutFixed(d1, [LF] + (s1 + y1), d2, [LF] + (s2 + y2));
    CutPrefix([LF], s1 + y1, s2 + y2);
    CutFixed(s1, y1, s2, y2);
    CutPrefix([LF], HexOf(x1), HexOf(x2));
    HexOfInjective(x1, x2);
  }

  // ---------- accepted requests ----------

  /** The bytes of the canonical request that belong to a grant. */
  function RequestBytes(r: Request, g: Grant): Bytes {
    CanonicalRequest(Upper(Trim(r.verb)), CanonicalPath(g.path), CanonicalOf(Params(g.query)), Lower(Trim(r.host)))
  }

  function SignedBytes(crypto: Primitives, r: Request, g: Grant): Bytes {
    StringToSign(PrintStamp(g.stamp), GrantScope(g), crypto.sha256(RequestBytes(r, g)))
  }

  /** A configuration as compilation makes it: service `s3`, methods among GET and HEAD. */
  predicate CompiledConfig(cfg: Config) { cfg.service == S3 && cfg.supportedMethods <= {GET, HEAD} }

  lemma SupportedHasNoNewline(cfg: Config, verb: Bytes)
    requires CompiledConfig(cfg) && verb in cfg.supportedMethods
    ensures LF !in verb
  {
    assert verb == GET || verb == HEAD;
  }

  /** Two accepted requests whose canonical requests are the same bytes say the same about everything signed there. */
  lemma SameRequestBytesSameMeaning(crypto: Primitives, cfg: Config, r1: Request, g1: Grant, r2: Request, g2: Grant)
    requires CompiledConfig(cfg) && Grants(crypto, cfg, r1, g1) && Grants(crypto, cfg, r2, g2)
    requires RequestBytes(r1, g1) == RequestBytes(r2, g2)
    ensures Upper(Trim(r1.verb)) == Upper(Trim(r2.verb)) && Lower(Trim(r1.host)) == Lower(Trim(r2.host))
    ensures Decode(g1.path) == Decode(g2.path)
    ensures multiset(Signed(Params(g1.query))) == multiset(Signed(Params(g2.query)))
  {
    SupportedHasNoNewline(cfg, Upper(Trim(r1.verb)));
    SupportedHasNoNewline(cfg, Upper(Trim(r2.verb)));
    CanonicalPathHasNoNewline(g1.path);
    CanonicalPathHasNoNewline(g2.path);
    CanonicalQueryHasNoNewline(g1.query);
    CanonicalQueryHasNoNewline(g2.query);
    CanonicalRequestIsInjective(Upper(Trim(r1.verb)), CanonicalPath(g1.path), CanonicalOf(Params(g1.query)),
                                Lower(Trim(r1.host)),
                                Upper(Trim(r2.verb)), CanonicalPath(g2.path), CanonicalOf(Params(g2.query)),
                                Lower(Trim(r2.host)));
    DecodingKeepsStructure(g1.path);
    DecodingKeepsStructure(g2.path);
    CanonicalPathKeepsMeaning(g1.path);
    CanonicalPathKeepsMeaning(g2.path);
    CanonicalQueryIsCompleteInvariant(g1.query, g2.query);
  }

  /** Two accepted requests that sign the same string agree on the instant, the region and the request hash. */
  lemma SameSignedBytesSameScope(crypto: Primitives, cfg: Config, r1: Request, g1: Grant, r2: Request, g2: Grant)
    requires Grants(crypto, cfg, r1, g1) && Grants(crypto, cfg, r2, g2)
    requires SignedBytes(crypto, r1, g1) == SignedBytes(crypto, r2, g2)
    ensures g1.stamp == g2.stamp && g1.region == g2.region
    ensures crypto.sha256(RequestBytes(r1, g1)) == crypto.sha256(RequestBytes(r2, g2))
  {
    StringToSignIsInjective(PrintStamp(g1.stamp), GrantScope(g1), crypto.sha256(RequestBytes(r1, g1)),
                            PrintStamp(g2.stamp), GrantScope(g2), crypto.sha256(RequestBytes(r2, g2)));
    ReadPrinted(g1.stamp);
    ReadPrinted(g2.stamp);
    ScopeRegion(g1);
    ScopeRegion(g2);
    var tail := [SLASH] + S3 + [SLASH] + TERMINAL;
    CutFixed(PrintDate(g1.stamp), [SLASH] + g1.region + tail, PrintDate(g2.stamp), [SLASH] + g2.region + tail);
    CutSuffix([SLASH] + g1.region, [SLASH] + g2.region, tail);
    CutPrefix([SLASH], g1.region, g2.region);
  }

  lemma ScopeRegion(g: Grant)
    ensures GrantScope(g) == PrintDate(g.stamp) + ([SLASH] + g.region + ([SLASH] + S3 + [SLASH] + TERMINAL))
  {
  }
}
