/** Percent-encoded text as a sequence of tokens: what the codec, the path scan and the canonical path mean. */
module Tokens {
  import opened Wrappers
  import opened ByteStrings
  import opened Seqs
  import opened Percent
  import opened Paths
  import opened Alphabets

  /** A byte that stands for itself, or `%` and two hex digits: section 2.1 of RFC 3986. */
  datatype Token = Raw(b: byte) | Escape(hi: byte, lo: byte)

  predicate IsHexDigit(c: byte) { c in HEX_UPPER || c in HEX_LOWER }

  /** The place of a hex digit in its table. */
  function HexValue(c: byte): (n: nat)
    requires IsHexDigit(c)
    ensures n < 16
  {
    HexIsTable(c);
    FromHex(c)
  }

  predicate IsToken(t: Token) {
    match t
    case Raw(b) => b as char != '%'
    case Escape(hi, lo) => IsHexDigit(hi) && IsHexDigit(lo)
  }

  predicate AreTokens(ts: seq<Token>) { forall i :: 0 <= i < |ts| ==> IsToken(ts[i]) }

  function TokenText(t: Token): Bytes {
    match t
    case Raw(b) => [b]
    case Escape(hi, lo) => ['%' as int, hi, lo]
  }

  function TokenByte(t: Token): byte
    requires IsToken(t)
  {
    match t
    case Raw(b) => b
    case Escape(hi, lo) => HexValue(hi) * 16 + HexValue(lo)
  }

  function Written(ts: seq<Token>): Bytes { if ts == [] then [] else TokenText(ts[0]) + Written(ts[1..]) }

  function Denoted(ts: seq<Token>): (d: Bytes)
    requires AreTokens(ts)
    ensures |d| == |ts|
  {
    if ts == [] then [] else [TokenByte(ts[0])] + Denoted(ts[1..])
  }

  // ---------- decoding ----------

  lemma TokenDecodes(t: Token, rest: Bytes)
    requires IsToken(t)
    ensures Decode(TokenText(t) + rest) == Prepend([TokenByte(t)], Decode(rest))
  {
    var s := TokenText(t) + rest;
    match t
    case Raw(_) => assert s[1..] == rest;
    case Escape(hi, lo) =>
      HexIsTable(hi);
      HexIsTable(lo);
      assert s[3..] == rest && HasEscape(s);
  }

  lemma {:induction false} WrittenDecodes(ts: seq<Token>)
    requires AreTokens(ts)
    ensures Decode(Written(ts)) == Some(Denoted(ts))
  {
    if ts == [] {
    } else {
      WrittenDecodes(ts[1..]);
      TokenDecodes(ts[0], Written(ts[1..]));
    }
  }

  /** The token at the front of a string that decodes. */
  lemma FirstToken(s: Bytes) returns (t: Token, rest: Bytes)
    requires s != [] && Decode(s).Some?
    ensures IsToken(t) && s == TokenText(t) + rest && |rest| < |s| && Decode(rest).Some?
    ensures t == if s[0] == PERCENT then Escape(s[1], s[2]) else Raw(s[0])
    ensures rest == if s[0] == PERCENT then s[3..] else s[1..]
  {
    if s[0] == PERCENT {
      HexIsTable(s[1]);
      HexIsTable(s[2]);
      t, rest := Escape(s[1], s[2]), s[3..];
    } else {
      t, rest := Raw(s[0]), s[1..];
    }
  }

  lemma {:induction false} DecodedIsWritten(s: Bytes) returns (ts: seq<Token>)
    requires Decode(s).Some?
    ensures AreTokens(ts) && s == Written(ts)
    decreases |s|
  {
    if s == [] {
      ts := [];
    } else {
      var t, rest := FirstToken(s);
      var tail := DecodedIsWritten(rest);
      ts := [t] + tail;
      assert ts[1..] == tail;
    }
  }

  /** Decoding succeeds exactly on sequences of tokens, and gives the bytes they stand for. */
  lemma DecodeIff(s: Bytes, d: Bytes)
    ensures Decode(s) == Some(d) <==> exists ts :: AreTokens(ts) && s == Written(ts) && d == Denoted(ts)
  {
    if Decode(s) == Some(d) {
      var ts := DecodedIsWritten(s);
      WrittenDecodes(ts);
    }
    if ts :| AreTokens(ts) && s == Written(ts) && d == Denoted(ts) {
      WrittenDecodes(ts);
    }
  }

  // ---------- encoding ----------

  /** Unreserved bytes stand for themselves, and only they; escapes use upper-case digits. */
  predicate IsCanonicalToken(t: Token) {
    match t
    case Raw(b) => b in UNRESERVED
    case Escape(hi, lo) => hi in HEX_UPPER && lo in HEX_UPPER && TokenByte(t) !in UNRESERVED
  }

  predicate AreCanonicalTokens(ts: seq<Token>) { forall i :: 0 <= i < |ts| ==> IsCanonicalToken(ts[i]) }

  lemma CanonicalIsToken(t: Token)
    requires IsCanonicalToken(t)
    ensures IsToken(t)
  {
    if t.Raw? { UnreservedIsTable(t.b); }
  }

  lemma UpperDigit(c: byte)
    requires c in HEX_UPPER
    ensures IsHexDigit(c) && c == HexUpper(HexValue(c))
  {
    var i :| 0 <= i < 16 && HEX_UPPER[i] == c;
    HexDigitsOf(i);
  }

  /** There is one canonical token for each byte. */
  lemma CanonicalTokenText(t: Token)
    requires IsCanonicalToken(t)
    ensures IsToken(t) && TokenText(t) == EncodeByte(TokenByte(t))
  {
    CanonicalIsToken(t);
    UnreservedIsTable(TokenByte(t));
    match t
    case Raw(_) =>
    case Escape(hi, lo) =>
      UpperDigit(hi);
      UpperDigit(lo);
      NibblesOf(HexValue(hi), HexValue(lo));
  }

  lemma NibblesOf(hi: nat, lo: nat)
    requires hi < 16 && lo < 16
    ensures (hi * 16 + lo) / 16 == hi && (hi * 16 + lo) % 16 == lo
  {
  }

  lemma TokenOfByte(c: byte) returns (t: Token)
    ensures IsCanonicalToken(t) && IsToken(t) && TokenByte(t) == c
  {
    UnreservedIsTable(c);
    if IsUnreserved(c) {
      t := Raw(c);
    } else {
      HexDigitsOf(c / 16);
      HexDigitsOf(c % 16);
      t := Escape(HexUpper(c / 16), HexUpper(c % 16));
      UpperDigit(t.hi);
      UpperDigit(t.lo);
    }
    CanonicalIsToken(t);
  }

  lemma {:induction false} CanonicalTokensText(ts: seq<Token>)
    requires AreCanonicalTokens(ts)
    ensures AreTokens(ts) && Written(ts) == Encode(Denoted(ts))
  {
    forall i | 0 <= i < |ts| ensures IsToken(ts[i]) { CanonicalIsToken(ts[i]); }
    if ts == [] {
    } else {
      CanonicalTokensText(ts[1..]);
      CanonicalTokenText(ts[0]);
    }
  }

  lemma {:induction false} TokensOfBytes(d: Bytes) returns (ts: seq<Token>)
    ensures AreCanonicalTokens(ts) && AreTokens(ts) && Denoted(ts) == d
  {
    if d == [] {
      ts := [];
    } else {
      var t := TokenOfByte(d[0]);
      var rest := TokensOfBytes(d[1..]);
      ts := [t] + rest;
      assert ts[1..] == rest;
    }
  }

  /** The encoding of a byte string is its only spelling in canonical tokens. */
  lemma EncodeIff(d: Bytes, s: Bytes)
    ensures s == Encode(d)
       <==> exists ts :: AreCanonicalTokens(ts) && AreTokens(ts) && s == Written(ts) && d == Denoted(ts)
  {
    var ts := TokensOfBytes(d);
    CanonicalTokensText(ts);
    if us :| AreCanonicalTokens(us) && AreTokens(us) && s == Written(us) && d == Denoted(us) {
      CanonicalTokensText(us);
    }
  }

  // ---------- the path scan ----------

  /** What may stand in a path: a printing byte, or an escape that hides neither kind of slash. */
  predicate IsPathToken(t: Token) {
    && IsToken(t)
    && match t
       case Raw(b) => b > 0x20 && b != 0x7F
       case Escape(_, _) => TokenByte(t) as char != '/' && TokenByte(t) as char != '\\'
  }

  predicate ArePathTokens(ts: seq<Token>) { forall i :: 0 <= i < |ts| ==> IsPathToken(ts[i]) }

  lemma TokenScans(t: Token, rest: Bytes)
    requires IsToken(t)
    ensures ScanOk(TokenText(t) + rest) <==> IsPathToken(t) && ScanOk(rest)
  {
    var s := TokenText(t) + rest;
    match t
    case Raw(_) => assert s[1..] == rest;
    case Escape(hi, lo) =>
      HexIsTable(hi);
      HexIsTable(lo);
      assert s[3..] == rest && HasEscape(s) && EscapedByte(s) == TokenByte(t);
  }

  lemma {:induction false} PathTokensScan(ts: seq<Token>)
    requires AreTokens(ts)
    ensures ScanOk(Written(ts)) <==> ArePathTokens(ts)
  {
    if ts == [] {
    } else {
      PathTokensScan(ts[1..]);
      TokenScans(ts[0], Written(ts[1..]));
      assert ts == [ts[0]] + ts[1..];
    }
  }

  /** The byte scan accepts exactly the sequences of path tokens. */
  lemma ScanIff(p: Bytes)
    ensures ScanOk(p) <==> exists ts :: ArePathTokens(ts) && p == Written(ts)
  {
    if ScanOk(p) {
      ScanOkDecodes(p);
      var ts := DecodedIsWritten(p);
      PathTokensScan(ts);
    }
    if ts :| ArePathTokens(ts) && p == Written(ts) {
      PathTokensScan(ts);
    }
  }

  /** Occurrences of a byte. */
  function Count(s: Bytes, c: byte): nat { if s == [] then 0 else (if s[0] == c then 1 else 0) + Count(s[1..], c) }

  lemma {:induction false} CountConcat(a: Bytes, b: Bytes, c: byte)
    ensures Count(a + b, c) == Count(a, c) + Count(b, c)
  {
    if a == [] {
      assert a + b == b;
    } else {
      CountConcat(a[1..], b, c);
      assert (a + b)[1..] == a[1..] + b;
    }
  }

  lemma CountThree(x: byte, y: byte, z: byte, c: byte)
    requires x != c && y != c && z != c
    ensures Count([x, y, z], c) == 0
  {
    assert [x, y, z][1..] == [y, z] && [y, z][1..] == [z] && [z][1..] == [];
    assert Count([], c) == 0 && Count([z], c) == 0 && Count([y, z], c) == 0;
  }

  lemma EscapeHidesNothing(t: Token, c: byte)
    requires IsPathToken(t) && (c == SLASH || c == BACKSLASH)
    ensures Count(TokenText(t), c) == if TokenByte(t) == c then 1 else 0
  {
    var s := TokenText(t);
    match t
    case Raw(b) => assert s[1..] == [];
    case Escape(hi, lo) =>
      HexIsTable(hi);
      HexIsTable(lo);
      CountThree(PERCENT, hi, lo, c);
  }

  lemma {:induction false} TokensKeepSlashes(ts: seq<Token>, c: byte)
    requires ArePathTokens(ts) && AreTokens(ts) && (c == SLASH || c == BACKSLASH)
    ensures Count(Written(ts), c) == Count(Denoted(ts), c)
  {
    if ts == [] {
    } else {
      TokensKeepSlashes(ts[1..], c);
      EscapeHidesNothing(ts[0], c);
      CountConcat(TokenText(ts[0]), Written(ts[1..]), c);
    }
  }

  /** A scanned path decodes to as many slashes, and as many backslashes, as it shows. */
  lemma ScannedKeepsSlashes(p: Bytes)
    requires ScanOk(p)
    ensures Decode(p).Some?
    ensures Count(Decode(p).value, '/' as int) == Count(p, '/' as int)
    ensures Count(Decode(p).value, '\\' as int) == Count(p, '\\' as int)
  {
    ScanOkDecodes(p);
    var ts := DecodedIsWritten(p);
    PathTokensScan(ts);
    WrittenDecodes(ts);
    TokensKeepSlashes(ts, SLASH);
    TokensKeepSlashes(ts, BACKSLASH);
  }

  // ---------- accepted paths ----------

  lemma {:induction false} DoubleSlashIsEmptySegment(s: Bytes)
    ensures NoDoubleSlash([SLASH] + s) <==> InnerNotEmpty(Split(s, SLASH))
    decreases |s|
  {
    var e := IndexOf(s, SLASH);
    IndexOfIsFirst(s, SLASH);
    if e == |s| {
      assert s[..e] == s;
      NoSlashNoDouble(s);
    } else {
      var first, rest := s[..e], s[e + 1..];
      assert s == first + [SLASH] + rest;
      DoubleSlashIsEmptySegment(rest);
      FirstSlash(first, rest);
      SplitFirst(first, SLASH, rest);
      InnerNotEmptyCons(first, Split(rest, SLASH));
    }
  }

  /** Every part but the last is non-empty. */
  predicate InnerNotEmpty(parts: seq<Bytes>) { forall i :: 0 <= i < |parts| - 1 ==> parts[i] != [] }

  lemma InnerNotEmptyCons(first: Bytes, rest: seq<Bytes>)
    requires rest != []
    ensures InnerNotEmpty([first] + rest) <==> first != [] && InnerNotEmpty(rest)
  {
    var parts := [first] + rest;
    if InnerNotEmpty(parts) {
      assert parts[0] == first;
      assert forall i :: 0 <= i < |rest| ==> rest[i] == parts[i + 1];
    }
  }

  lemma NoSlashNoDouble(s: Bytes)
    requires SLASH !in s
    ensures NoDoubleSlash([SLASH] + s)
  {
    var whole := [SLASH] + s;
    forall i | 0 <= i < |whole| - 1 ensures !(whole[i] == SLASH && whole[i + 1] == SLASH) {
      assert whole[i + 1] == s[i];
    }
  }

  lemma FirstSlash(first: Bytes, rest: Bytes)
    requires SLASH !in first
    ensures NoDoubleSlash([SLASH] + (first + [SLASH] + rest)) <==> first != [] && NoDoubleSlash([SLASH] + rest)
  {
    var whole, tail := [SLASH] + (first + [SLASH] + rest), [SLASH] + rest;
    var k := |first| + 1;
    assert forall i :: 0 <= i < |tail| ==> whole[k + i] == tail[i];
    assert forall i :: 1 <= i < k ==> whole[i] == first[i - 1];
    if NoDoubleSlash(whole) {
      assert !(whole[0] == SLASH && whole[1] == SLASH);
      forall i | 0 <= i < |tail| - 1 ensures !(tail[i] == SLASH && tail[i + 1] == SLASH) {
        assert !(whole[k + i] == SLASH && whole[k + i + 1] == SLASH);
      }
    }
    if first != [] && NoDoubleSlash(tail) {
      forall i | 0 <= i < |whole| - 1 ensures !(whole[i] == SLASH && whole[i + 1] == SLASH) {
        if i >= k { assert whole[i] == tail[i - k] && whole[i + 1] == tail[i - k + 1]; }
      }
    }
  }

  /** A segment that decodes to `.` or `..`. */
  predicate IsDotSegment(segment: Bytes) { Decode(segment) == Some(Lit(".")) || Decode(segment) == Some(Lit("..")) }

  predicate NoDotSegments(parts: seq<Bytes>) { forall i :: 0 <= i < |parts| ==> !IsDotSegment(parts[i]) }

  lemma SegmentsOkIff(parts: seq<Bytes>)
    requires AllDecode(parts)
    ensures SegmentsOk(parts) <==> NoDotSegments(parts)
  {
    DotLiterals();
    forall i | 0 <= i < |parts| ensures SegmentOk(parts[i]) <==> !IsDotSegment(parts[i]) {
      assert Decode(parts[i]).Some?;
    }
  }

  /**
    A path is accepted exactly when it is a slash and path tokens, no segment but the last is empty, and
    no segment stands for a dot segment.
   */
  lemma ValidPathIff(p: Bytes)
    ensures ValidPath(p) <==>
              && p != [] && p[0] as char == '/'
              && (exists ts :: ArePathTokens(ts) && p == Written(ts))
              && InnerNotEmpty(Segments(p)) && NoDotSegments(Segments(p))
  {
    ScanIff(p);
    if p != [] && p[0] == SLASH {
      assert p == [SLASH] + p[1..];
      DoubleSlashIsEmptySegment(p[1..]);
      if ScanOk(p) {
        SegmentDecodeErrorUnreachable(p);
        SegmentsOkIff(Segments(p));
      }
    }
  }

  lemma DotLiterals()
    ensures Lit(".") == [DOT] && Lit("..") == [DOT, DOT]
  {
  }

  // ---------- the canonical path ----------

  /** A slash or an unreserved byte stays, any other byte is escaped, an escape gets upper-case digits. */
  function PathForm(t: Token): (u: Token)
    requires IsToken(t)
  {
    match t
    case Raw(b) =>
      if b as char == '/' || b in UNRESERVED then t else Escape(HEX_UPPER[b / 16], HEX_UPPER[b % 16])
    case Escape(hi, lo) => Escape(HEX_UPPER[HexValue(hi)], HEX_UPPER[HexValue(lo)])
  }

  function PathForms(ts: seq<Token>): seq<Token>
    requires AreTokens(ts)
  {
    if ts == [] then [] else [PathForm(ts[0])] + PathForms(ts[1..])
  }

  /** Upper-casing a hex digit keeps its place in the table. */
  lemma UpperHexIsTable(c: byte)
    requires IsHexDigit(c)
    ensures UpperHex(c) == HEX_UPPER[HexValue(c)]
  {
    HexIsTable(c);
    HexDigitsOf(HexValue(c));
  }

  lemma TokenCanonical(t: Token, rest: Bytes)
    requires IsToken(t)
    ensures CanonicalPath(TokenText(t) + rest) == TokenText(PathForm(t)) + CanonicalPath(rest)
  {
    var s := TokenText(t) + rest;
    match t
    case Raw(b) =>
      assert s[1..] == rest;
      UnreservedIsTable(b);
      HexDigitsOf(b / 16);
      HexDigitsOf(b % 16);
    case Escape(hi, lo) =>
      HexIsTable(hi);
      HexIsTable(lo);
      UpperHexIsTable(hi);
      UpperHexIsTable(lo);
      assert s[3..] == rest && HasEscape(s);
  }

  /** The rewriting loop rewrites token by token. */
  lemma {:induction false} CanonicalPathOfTokens(ts: seq<Token>)
    requires AreTokens(ts)
    ensures CanonicalPath(Written(ts)) == Written(PathForms(ts))
  {
    if ts == [] {
    } else {
      CanonicalPathOfTokens(ts[1..]);
      TokenCanonical(ts[0], Written(ts[1..]));
      assert PathForms(ts)[1..] == PathForms(ts[1..]);
    }
  }

  // ---------- request targets ----------

  predicate NoneOf(s: Bytes, table: Bytes) { forall i :: 0 <= i < |s| ==> s[i] !in table }

  lemma CleanIsNoneOf(s: Bytes)
    ensures CleanUri(s) <==> NoneOf(s, Lit("\r\n\t #"))
  {
    forall i | 0 <= i < |s| ensures IsForbiddenUriByte(s[i]) <==> s[i] in Lit("\r\n\t #") { ForbiddenIsTable(s[i]); }
  }

  /** A target is a path, alone or with `?` and a query; it holds no line break, tab, space or `#`. */
  lemma SplitTargetIff(uri: Bytes, path: Bytes, query: Bytes)
    ensures SplitOriginalUri(uri) == Some((path, query))
       <==> && (uri == path + Lit("?") + query || (uri == path && query == []))
            && '?' as int !in path && ValidPath(path) && NoneOf(uri, Lit("\r\n\t #"))
  {
    CleanIsNoneOf(uri);
    assert Lit("?") == [QUESTION];
    IndexOfIsFirst(uri, QUESTION);
    var e := IndexOf(uri, QUESTION);
    if SplitOriginalUri(uri) == Some((path, query)) {
      if e < |uri| { assert uri == path + [QUESTION] + query; } else { assert uri[..e] == uri; }
    }
    if QUESTION !in path && uri == path + [QUESTION] + query {
      SplitFirst(path, QUESTION, query);
      assert uri[..|path|] == path && uri[|path| + 1..] == query;
    } else if QUESTION !in path && uri == path && query == [] {
      IndexOfUnique(uri, QUESTION, |uri|);
      assert uri[..|uri|] == uri;
    }
  }
}
