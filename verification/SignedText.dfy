/** What is signed and with which key, line by line and word by word. */
module SignedText {
  import opened ByteStrings
  import opened Seqs
  import opened Crypto
  import opened Compile
  import opened VerifierCore

  // ---------- the key ----------

  /** HMAC through a list of words, each keyed with the result for the ones before it. */
  function FoldHmac(crypto: Primitives, key: Bytes, words: seq<Bytes>): Bytes
    decreases |words|
  {
    if words == [] then key else FoldHmac(crypto, crypto.hmac(key, words[0]), words[1..])
  }

  /** The words of a credential scope, in order. */
  function ScopeWords(date: Bytes, region: Bytes, service: Bytes): seq<Bytes> {
    [date, region, service, Lit("aws4_request")]
  }

  /** The signing key of a scope is the fold of HMAC over its words, starting from the secret seed. */
  lemma DeriveKeyIsFold(crypto: Primitives, seed: Bytes, date: Bytes, region: Bytes, service: Bytes)
    ensures DeriveKey(crypto, seed, Scope(date, region, service))
         == FoldHmac(crypto, seed, ScopeWords(date, region, service))
  {
    var words := ScopeWords(date, region, service);
    var k1 := crypto.hmac(seed, date);
    var k2 := crypto.hmac(k1, region);
    var k3 := crypto.hmac(k2, service);
    assert words[1..] == [region, service, words[3]];
    assert words[1..][1..] == [service, words[3]];
    assert words[1..][1..][1..] == [words[3]];
    FoldFour(crypto, seed, date, region, service, words[3]);
  }

  lemma FoldFour(crypto: Primitives, key: Bytes, a: Bytes, b: Bytes, c: Bytes, d: Bytes)
    ensures FoldHmac(crypto, key, [a, b, c, d]) == crypto.hmac(crypto.hmac(crypto.hmac(crypto.hmac(key, a), b), c), d)
  {
    assert [a, b, c, d][1..] == [b, c, d] && [b, c, d][1..] == [c, d] && [c, d][1..] == [d] && [d][1..] == [];
    var k1 := crypto.hmac(key, a);
    var k2 := crypto.hmac(k1, b);
    var k3 := crypto.hmac(k2, c);
    assert FoldHmac(crypto, k3, [d]) == FoldHmac(crypto, crypto.hmac(k3, d), []);
    assert FoldHmac(crypto, k2, [c, d]) == FoldHmac(crypto, k3, [d]);
    assert FoldHmac(crypto, k1, [b, c, d]) == FoldHmac(crypto, k2, [c, d]);
  }

  lemma ScopeIsWords(date: Bytes, region: Bytes, service: Bytes)
    ensures date + Lit("/") + region + Lit("/") + service + Lit("/aws4_request")
         == Join(ScopeWords(date, region, service), '/' as int)
  {
    SlashTexts();
    JoinFour(date, region, service, TERMINAL, SLASH);
    Associate(date + [SLASH] + region + [SLASH] + service, [SLASH], TERMINAL);
  }

  lemma WordsHaveNoSlash(date: Bytes, region: Bytes, service: Bytes)
    requires SLASH !in date && SLASH !in region && SLASH !in service
    ensures var words := ScopeWords(date, region, service); Split(Join(words, SLASH), SLASH) == words
  {
    SlashTexts();
    SplitJoin(ScopeWords(date, region, service), SLASH);
  }

  /** Hence the key is determined by the `/`-separated words of the scope that is signed. */
  lemma KeyOfScopeText(crypto: Primitives, seed: Bytes, date: Bytes, region: Bytes, service: Bytes)
    requires SLASH !in date && SLASH !in region && SLASH !in service
    ensures DeriveKey(crypto, seed, Scope(date, region, service))
         == FoldHmac(crypto, seed,
                     Split(date + Lit("/") + region + Lit("/") + service + Lit("/aws4_request"), '/' as int))
  {
    ScopeIsWords(date, region, service);
    WordsHaveNoSlash(date, region, service);
    DeriveKeyIsFold(crypto, seed, date, region, service);
  }

  lemma SlashTexts()
    ensures Lit("/") == [SLASH] && Lit("/aws4_request") == [SLASH] + Lit("aws4_request")
    ensures SLASH !in Lit("aws4_request") && TERMINAL == Lit("aws4_request")
  {
  }

  lemma JoinFour(a: Bytes, b: Bytes, c: Bytes, d: Bytes, x: byte)
    ensures Join([a, b, c, d], x) == a + [x] + b + [x] + c + [x] + d
  {
    assert [a, b, c, d][1..] == [b, c, d] && [b, c, d][1..] == [c, d] && [c, d][1..] == [d];
    assert Join([c, d], x) == c + [x] + d;
    assert Join([b, c, d], x) == b + [x] + (c + [x] + d);
  }

  // ---------- the texts ----------

  /** The fixed words of the protocol. */
  lemma FixedWords()
    ensures ALGORITHM == Lit("AWS4-HMAC-SHA256") && HOST == Lit("host") && S3 == Lit("s3")
  {
  }

  /** The lines of a canonical request. */
  function RequestLines(verb: Bytes, path: Bytes, query: Bytes, host: Bytes): seq<Bytes> {
    [verb, path, query, Lit("host:") + host, [], Lit("host"), Lit("UNSIGNED-PAYLOAD")]
  }

  lemma LineTexts()
    ensures HOST_LINE == [LF] + Lit("host:")
    ensures SIGNED_HEADERS_LINES == [LF] + ([LF] + Lit("host") + ([LF] + Lit("UNSIGNED-PAYLOAD")))
  {
  }

  lemma RequestIsLines(verb: Bytes, path: Bytes, query: Bytes, host: Bytes)
    ensures CanonicalRequest(verb, path, query, host) == Join(RequestLines(verb, path, query, host), '\n' as int)
  {
    LineTexts();
    var front, back := [verb, path, query, Lit("host:") + host], [[], Lit("host"), Lit("UNSIGNED-PAYLOAD")];
    assert RequestLines(verb, path, query, host) == front + back;
    JoinConcat(front, back, LF);
    JoinFour(verb, path, query, Lit("host:") + host, LF);
    assert back[1..] == [Lit("host"), Lit("UNSIGNED-PAYLOAD")] && back[1..][1..] == [Lit("UNSIGNED-PAYLOAD")];
    assert Join(back[1..], LF) == Lit("host") + [LF] + Lit("UNSIGNED-PAYLOAD");
    assert Join(back, LF) == [] + [LF] + (Lit("host") + [LF] + Lit("UNSIGNED-PAYLOAD"));
    RequestPieces(verb, path, query, host);
  }

  lemma RequestPieces(verb: Bytes, path: Bytes, query: Bytes, host: Bytes)
    ensures CanonicalRequest(verb, path, query, host)
         == verb + [LF] + path + [LF] + query + [LF] + (Lit("host:") + host) + [LF]
            + ([] + [LF] + (Lit("host") + [LF] + Lit("UNSIGNED-PAYLOAD")))
  {
    LineTexts();
    var a, h, t := verb + [LF] + path + [LF] + query, Lit("host:"),
        [LF] + Lit("host") + ([LF] + Lit("UNSIGNED-PAYLOAD"));
    assert a + ([LF] + h) + host + ([LF] + t) == a + [LF] + (h + host) + [LF] + t;
    assert t == [] + [LF] + (Lit("host") + [LF] + Lit("UNSIGNED-PAYLOAD"));
  }

  /** The lines of the string to sign; the scope is its words joined by `/`. */
  function SigningLines(date: Bytes, words: seq<Bytes>, hash: Digest): seq<Bytes> {
    [Lit("AWS4-HMAC-SHA256"), date, Join(words, '/' as int), HexOf(hash)]
  }

  lemma StringIsLines(date: Bytes, words: seq<Bytes>, hash: Digest)
    ensures StringToSign(date, Join(words, SLASH), hash) == Join(SigningLines(date, words, hash), '\n' as int)
  {
    JoinFour(Lit("AWS4-HMAC-SHA256"), date, Join(words, SLASH), HexOf(hash), LF);
  }
}
