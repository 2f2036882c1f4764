/** Raw request paths: validation, canonical form, and the prefix policy. */
module Paths {
  import opened Wrappers
  import opened ByteStrings
  import opened Seqs
  import opened Percent

  // ---------- what validation accepts ----------

  /** No control byte or space, every escape complete, and none of them hiding `/` or `\`. */
  predicate ScanOk(p: Bytes)
    decreases |p|
  {
    p == [] ||
    (p[0] > SPACE && p[0] != DEL &&
     if p[0] != PERCENT then ScanOk(p[1..])
     else HasEscape(p) && EscapedByte(p) != SLASH && EscapedByte(p) != BACKSLASH && ScanOk(p[3..]))
  }

  predicate NoDoubleSlash(p: Bytes) { forall i :: 0 <= i < |p| - 1 ==> !(p[i] == SLASH && p[i + 1] == SLASH) }

  predicate IsDots(s: Bytes) { s == [DOT] || s == [DOT, DOT] }

  predicate SegmentOk(seg: Bytes) { Decode(seg).Some? && !IsDots(Decode(seg).value) }

  /** The segments of an absolute path: what follows the leading `/`, split on `/`. */
  function Segments(p: Bytes): seq<Bytes>
    requires p != []
  {
    Split(p[1..], SLASH)
  }

  predicate ValidPath(p: Bytes) {
    && p != [] && p[0] == SLASH
    && NoDoubleSlash(p)
    && ScanOk(p)
    && SegmentsOk(Segments(p))
  }

  lemma HiddenSeparator(hi: byte, lo: byte)
    requires IsHex(hi) && IsHex(lo)
    ensures (UpperHex(hi) == 0x32 && UpperHex(lo) == 0x46) <==> FromHex(hi) * 16 + FromHex(lo) == SLASH
    ensures (UpperHex(hi) == 0x35 && UpperHex(lo) == 0x43) <==> FromHex(hi) * 16 + FromHex(lo) == BACKSLASH
  {
  }

  lemma {:induction false} NoPercentDecodes(s: Bytes)
    requires PERCENT !in s
    ensures Decode(s) == Some(s)
  {
    if s == [] {
    } else {
      NoPercentDecodes(s[1..]);
      assert s == [s[0]] + s[1..];
    }
  }

  method ScanEscapes(path: Bytes) returns (ok: bool)
    ensures ok == ScanOk(path)
  {
    var i := 0;
    assert path[i..] == path;
    while i < |path|
      invariant 0 <= i <= |path|
      invariant ScanOk(path) == ScanOk(path[i..])
    {
      var b := path[i];
      ghost var rest := path[i..];
      if b <= 0x20 || b == 0x7f {
        return false;
      }
      if b != PERCENT {
        i := i + 1;
        assert rest[1..] == path[i..];
        continue;
      }
      if i + 2 >= |path| || !IsHex(path[i + 1]) || !IsHex(path[i + 2]) {
        return false;
      }
      var hi := UpperHex(path[i + 1]);
      var lo := UpperHex(path[i + 2]);
      HiddenSeparator(path[i + 1], path[i + 2]);
      if (hi == 0x32 && lo == 0x46) || (hi == 0x35 && lo == 0x43) {
        return false;
      }
      i := i + 3;
      assert rest[3..] == path[i..];
    }
    return true;
  }

  predicate SegmentsOk(parts: seq<Bytes>) { forall i :: 0 <= i < |parts| ==> SegmentOk(parts[i]) }

  method ScanSegments(path: Bytes) returns (ok: bool)
    requires path != []
    ensures ok == SegmentsOk(Segments(path))
  {
    var start := 1;
    SplitFromIsSplit(path, SLASH, 1);
    while start <= |path|
      invariant 1 <= start <= |path| + 1
      invariant SegmentsOk(Segments(path)) <==> SegmentsOk(SplitFrom(path, SLASH, start))
    {
      var end := IndexFrom(path, SLASH, start);
      var segment := path[start..end];
      SegmentsOkCons(segment, SplitFrom(path, SLASH, end + 1));
      if segment != [] {
        if PERCENT !in segment {
          NoPercentDecodes(segment);
          if IsDots(segment) {
            return false;
          }
        } else {
          var decoded := PercentDecode(segment);
          if decoded.None? || IsDots(decoded.value) {
            return false;
          }
        }
      }
      start := end + 1;
    }
    return true;
  }

  lemma SegmentsOkCons(segment: Bytes, rest: seq<Bytes>)
    ensures SegmentsOk([segment] + rest) <==> SegmentOk(segment) && SegmentsOk(rest)
  {
    var parts := [segment] + rest;
    if SegmentsOk(parts) {
      assert parts[0] == segment;
      assert forall i :: 0 <= i < |rest| ==> rest[i] == parts[i + 1];
    }
  }

  method ValidateRawPath(path: Bytes) returns (ok: bool)
    ensures ok == ValidPath(path)
  {
    if path == [] || path[0] != SLASH {
      return false;
    }
    if exists i :: 0 <= i < |path| - 1 && path[i] == SLASH && path[i + 1] == SLASH {
      return false;
    }
    var scanned := ScanEscapes(path);
    if !scanned {
      return false;
    }
    ok := ScanSegments(path);
  }

  // ---------- decoding an accepted path keeps its structure ----------

  lemma {:induction false} ScanOkDecodes(s: Bytes)
    requires ScanOk(s)
    ensures Decode(s).Some?
    ensures SLASH !in s ==> SLASH !in Decode(s).value
    ensures Decode(s).value == [] <==> s == []
    decreases |s|
  {
    if s == [] {
    } else {
      var n := if s[0] != PERCENT then 1 else 3;
      ScanOkDecodes(s[n..]);
    }
  }

  lemma {:induction false} ScanOkParts(a: Bytes, b: Bytes)
    requires ScanOk(a + [SLASH] + b)
    ensures ScanOk(a) && ScanOk(b)
    decreases |a|
  {
    var s := a + [SLASH] + b;
    if a == [] {
      assert s[1..] == b;
    } else if a[0] != PERCENT {
      assert s[1..] == a[1..] + [SLASH] + b;
      ScanOkParts(a[1..], b);
    } else {
      assert s[|a|] == SLASH;
      assert s[3..] == a[3..] + [SLASH] + b;
      assert EscapedByte(s) == EscapedByte(a);
      ScanOkParts(a[3..], b);
    }
  }

  predicate AllDecode(parts: seq<Bytes>) { forall i :: 0 <= i < |parts| ==> Decode(parts[i]).Some? }

  function DecodeEach(parts: seq<Bytes>): (r: seq<Bytes>)
    requires AllDecode(parts)
    ensures |r| == |parts|
  {
    seq(|parts|, i requires 0 <= i < |parts| => Decode(parts[i]).value)
  }

  /** Splitting commutes with decoding: no escape can create or destroy a segment boundary. */
  lemma {:induction false} SplitDecode(s: Bytes)
    requires ScanOk(s)
    ensures Decode(s).Some? && AllDecode(Split(s, SLASH))
    ensures Split(Decode(s).value, SLASH) == DecodeEach(Split(s, SLASH))
    decreases |s|
  {
    ScanOkDecodes(s);
    var e := IndexOf(s, SLASH);
    IndexOfIsFirst(s, SLASH);
    if e == |s| {
      assert s[..e] == s;
      SplitNone(Decode(s).value, SLASH);
    } else {
      var a, b := s[..e], s[e + 1..];
      assert s == a + [SLASH] + b;
      ScanOkParts(a, b);
      ScanOkDecodes(a);
      ScanOkDecodes(b);
      SplitDecode(b);
      DecodeAtSeparator(a, SLASH, b);
      SplitFirst(a, SLASH, b);
      SplitFirst(Decode(a).value, SLASH, Decode(b).value);
      DecodeEachCons(a, Split(b, SLASH));
    }
  }

  lemma DecodeEachCons(a: Bytes, rest: seq<Bytes>)
    requires Decode(a).Some? && AllDecode(rest)
    ensures AllDecode([a] + rest) && DecodeEach([a] + rest) == [Decode(a).value] + DecodeEach(rest)
  {
  }

  lemma NoDoubleSlashSuffix(s: Bytes, k: nat)
    requires NoDoubleSlash(s) && k <= |s|
    ensures NoDoubleSlash(s[k..])
  {
    forall i | 0 <= i < |s[k..]| - 1
      ensures !(s[k..][i] == SLASH && s[k..][i + 1] == SLASH)
    {
      assert !(s[k + i] == SLASH && s[k + i + 1] == SLASH);
    }
  }

  lemma {:induction false} OnlyLastEmpty(s: Bytes)
    requires NoDoubleSlash(s) && (s != [] ==> s[0] != SLASH)
    ensures forall i :: 0 <= i < |Split(s, SLASH)| - 1 ==> Split(s, SLASH)[i] != []
    decreases |s|
  {
    var e := IndexOf(s, SLASH);
    if e == |s| {
    } else {
      var rest := s[e + 1..];
      assert rest != [] ==> rest[0] == s[e + 1] && !(s[e] == SLASH && s[e + 1] == SLASH);
      NoDoubleSlashSuffix(s, e + 1);
      OnlyLastEmpty(rest);
    }
  }

  /** The decode error inside the segment scan cannot happen: the byte scan has already ruled it out. */
  lemma SegmentDecodeErrorUnreachable(p: Bytes)
    requires p != [] && p[0] == SLASH && ScanOk(p)
    ensures AllDecode(Segments(p))
  {
    assert p == [] + [SLASH] + p[1..];
    ScanOkParts([], p[1..]);
    SplitDecode(p[1..]);
  }

  /** Decoding an accepted path changes neither the number nor the borders of its segments. */
  lemma DecodingKeepsStructure(p: Bytes)
    requires ValidPath(p)
    ensures Decode(p).Some? && Decode(p).value != [] && Decode(p).value[0] == SLASH
    ensures AllDecode(Segments(p)) && Segments(Decode(p).value) == DecodeEach(Segments(p))
    ensures NoDots(Segments(Decode(p).value))
    ensures forall i :: 0 <= i < |Segments(Decode(p).value)| - 1 ==> Segments(Decode(p).value)[i] != []
  {
    var s := p[1..];
    assert p == [SLASH] + s && p == [] + [SLASH] + s;
    ScanOkParts([], s);
    ScanOkDecodes(s);
    SplitDecode(s);
    assert Decode(p).value[1..] == Decode(s).value;
    NoDoubleSlashSuffix(p, 1);
    OnlyLastEmpty(s);
    forall i | 0 <= i < |Segments(p)| - 1
      ensures DecodeEach(Segments(p))[i] != []
    {
      SplitPartScans(s, i);
      ScanOkDecodes(Segments(p)[i]);
    }
  }

  lemma {:induction false} SplitPartScans(s: Bytes, i: nat)
    requires ScanOk(s) && i < |Split(s, SLASH)|
    ensures ScanOk(Split(s, SLASH)[i])
    decreases |s|
  {
    var e := IndexOf(s, SLASH);
    if e == |s| {
    } else {
      assert s == s[..e] + [SLASH] + s[e + 1..];
      ScanOkParts(s[..e], s[e + 1..]);
      if i > 0 { SplitPartScans(s[e + 1..], i - 1); }
    }
  }

  // ---------- remove_dot_segments, section 5.2.4 of RFC 3986 ----------

  function DropLastSegment(output: Bytes): Bytes
  {
    if output == [] then []
    else if output[|output| - 1] == SLASH then output[..|output| - 1]
    else DropLastSegment(output[..|output| - 1])
  }

  /** Length of the first segment with its initial `/`, if any, up to the next `/`. */
  function FirstSegmentLength(input: Bytes): (k: nat)
    requires input != []
    ensures 1 <= k <= |input|
  {
    1 + IndexOf(input[1..], SLASH)
  }

  /** Steps 2A to 2C: the shortened input buffer, and whether the output loses its last segment. */
  function DotRule(input: Bytes): (r: Option<(Bytes, bool)>)
    ensures r.Some? ==> |r.value.0| < |input|
  {
    if [DOT, DOT, SLASH] <= input then Some((input[3..], false))
    else if [DOT, SLASH] <= input then Some((input[2..], false))
    else if [SLASH, DOT, SLASH] <= input then Some((input[2..], false))
    else if input == [SLASH, DOT] then Some(([SLASH], false))
    else if [SLASH, DOT, DOT, SLASH] <= input then Some((input[3..], true))
    else if input == [SLASH, DOT, DOT] then Some(([SLASH], true))
    else None
  }

  function RemoveDotSegments(input: Bytes, output: Bytes): Bytes
    decreases |input|
  {
    if input == [] || IsDots(input) then output
    else
      match DotRule(input)
      case Some((next, pop)) => RemoveDotSegments(next, if pop then DropLastSegment(output) else output)
      case None =>
        var k := FirstSegmentLength(input);
        RemoveDotSegments(input[k..], output + input[..k])
  }

  lemma FirstSegmentNotDots(input: Bytes)
    requires input != [] && input[0] == SLASH && !IsDots(input[1..FirstSegmentLength(input)])
    ensures DotRule(input).None?
  {
    var k := FirstSegmentLength(input);
    if [SLASH, DOT, SLASH] <= input || input == [SLASH, DOT] {
      IndexOfUnique(input[1..], SLASH, 1);
    }
    if [SLASH, DOT, DOT, SLASH] <= input || input == [SLASH, DOT, DOT] {
      IndexOfUnique(input[1..], SLASH, 2);
    }
  }

  predicate NoDots(parts: seq<Bytes>) { forall i :: 0 <= i < |parts| ==> !IsDots(parts[i]) }

  lemma NoDotsStep(input: Bytes)
    requires input != [] && NoDots(Segments(input))
    ensures var k := FirstSegmentLength(input);
            !IsDots(input[1..k]) && (k < |input| ==> NoDots(Segments(input[k..])))
  {
    var k := FirstSegmentLength(input);
    var segs := Segments(input);
    assert input[1..k] == input[1..][..k - 1];
    assert segs[0] == input[1..k] by {
      if k == |input| { assert input[1..k] == input[1..]; }
    }
    if k < |input| {
      assert input[k..][1..] == input[1..][k..];
      assert Segments(input[k..]) == segs[1..];
    }
  }

  /** A first segment that is not a dot segment moves to the output. */
  lemma SegmentMoves(input: Bytes, output: Bytes) returns (first: Bytes, rest: Bytes)
    requires input != [] && input[0] == SLASH && NoDots(Segments(input))
    ensures input == first + rest && first != []
    ensures rest != [] ==> rest[0] == SLASH && NoDots(Segments(rest))
    ensures RemoveDotSegments(input, output) == RemoveDotSegments(rest, output + first)
  {
    var k := FirstSegmentLength(input);
    first, rest := input[..k], input[k..];
    NoDotsStep(input);
    FirstSegmentNotDots(input);
  }

  lemma {:induction false} NoDotsNothingRemoved(input: Bytes, output: Bytes)
    requires input != [] ==> input[0] == SLASH && NoDots(Segments(input))
    ensures RemoveDotSegments(input, output) == output + input
    decreases |input|
  {
    if input == [] {
      assert output + input == output;
    } else {
      var first, rest := SegmentMoves(input, output);
      NoDotsNothingRemoved(rest, output + first);
      Associate(output, first, rest);
    }
  }

  /** Dot-segment removal is the identity on the decoded form of every accepted path. */
  lemma AcceptedPathHasNoDots(p: Bytes)
    requires ValidPath(p)
    ensures Decode(p).Some? && RemoveDotSegments(Decode(p).value, []) == Decode(p).value
  {
    DecodingKeepsStructure(p);
    NoDotsNothingRemoved(Decode(p).value, []);
  }

  // ---------- prefix policy ----------

  predicate PathMatchesPrefix(path: Bytes, prefix: Bytes) {
    prefix <= path &&
    (var suffix := path[|prefix|..];
     suffix == [] || (prefix != [] && prefix[|prefix| - 1] == SLASH) || (suffix != [] && suffix[0] == SLASH))
  }

  /** A prefix names a directory when it ends in `/`, that is when its last segment is empty. */
  predicate NamesDirectory(prefix: Bytes)
    requires prefix != []
  {
    prefix[|prefix| - 1] == SLASH
  }

  /** The segments a prefix requires a path to begin with. */
  function PrefixSegments(prefix: Bytes): seq<Bytes>
    requires prefix != []
  {
    var segs := Segments(prefix);
    if NamesDirectory(prefix) then segs[..|segs| - 1] else segs
  }

  ghost predicate Under(segs: seq<Bytes>, prefixSegs: seq<Bytes>, strictly: bool) {
    prefixSegs <= segs && (strictly ==> |prefixSegs| < |segs|)
  }

  lemma SplitPrefix(a: Bytes, s: Bytes)
    ensures Split(a, SLASH) <= Split(s, SLASH) <==> (s == a || a + [SLASH] <= s)
  {
    if s != a && a + [SLASH] <= s {
      assert s == a + [SLASH] + s[|a| + 1..];
      SplitConcat(a, SLASH, s[|a| + 1..]);
    }
    if Split(a, SLASH) <= Split(s, SLASH) {
      JoinSplit(a, SLASH);
      JoinSplit(s, SLASH);
      var more := Split(s, SLASH)[|Split(a, SLASH)|..];
      if more == [] {
        assert Split(a, SLASH) == Split(s, SLASH);
      } else {
        assert Split(s, SLASH) == Split(a, SLASH) + more;
        JoinConcat(Split(a, SLASH), more, SLASH);
      }
    }
  }

  lemma PlainPrefix(s: Bytes, a: Bytes)
    ensures (a <= s && (s[|a|..] == [] || s[|a|..][0] == SLASH)) <==> (s == a || a + [SLASH] <= s)
  {
    if a <= s && s[|a|..] == [] { assert s == a + s[|a|..]; }
    if a <= s && s[|a|..] != [] && s[|a|..][0] == SLASH { assert s[..|a| + 1] == a + [SLASH]; }
    if a + [SLASH] <= s { assert s[|a|..][0] == s[|a|] == (a + [SLASH])[|a|]; }
  }

  lemma DirectoryPrefix(s: Bytes, dir: Bytes)
    ensures dir + [SLASH] <= s <==> Under(Split(s, SLASH), Split(dir, SLASH), true)
  {
    SplitPrefix(dir, s);
    if dir + [SLASH] <= s {
      assert s == dir + [SLASH] + s[|dir| + 1..];
      SplitConcat(dir, SLASH, s[|dir| + 1..]);
    }
  }

  /** The byte-prefix test with its boundary conditions is a segment-wise namespace test. */
  lemma PrefixPolicyIsSegmentwise(path: Bytes, prefix: Bytes)
    requires path != [] && path[0] == SLASH && prefix != [] && prefix[0] == SLASH
    ensures PathMatchesPrefix(path, prefix)
       <==> Under(Segments(path), PrefixSegments(prefix), NamesDirectory(prefix))
  {
    var a, s := prefix[1..], path[1..];
    assert path == [SLASH] + s && prefix == [SLASH] + a;
    assert prefix <= path <==> a <= s;
    if prefix <= path { assert path[|prefix|..] == s[|a|..]; }
    if !NamesDirectory(prefix) {
      SplitPrefix(a, s);
      PlainPrefix(s, a);
    } else if a == [] {
      SplitNone(a, SLASH);
      assert PrefixSegments(prefix) == [];
    } else {
      var dir := a[..|a| - 1];
      assert a == dir + [SLASH] && a == dir + [SLASH] + [];
      SplitConcat(dir, SLASH, []);
      SplitNone([], SLASH);
      assert PrefixSegments(prefix) == Split(dir, SLASH);
      DirectoryPrefix(s, dir);
    }
  }

  /**
    A request admitted by a prefix stays inside it after decoding and dot-segment removal: the decoded
    segments begin with the decoded segments of the prefix.
   */
  lemma PrefixPolicySurvivesDecoding(path: Bytes, prefix: Bytes)
    requires ValidPath(path) && ValidPath(prefix) && PathMatchesPrefix(path, prefix)
    ensures Decode(path).Some? && AllDecode(PrefixSegments(prefix))
    ensures var seen := RemoveDotSegments(Decode(path).value, []);
            seen != [] && Under(Segments(seen), DecodeEach(PrefixSegments(prefix)), NamesDirectory(prefix))
  {
    AcceptedPathHasNoDots(path);
    DecodingKeepsStructure(path);
    DecodingKeepsStructure(prefix);
    PrefixPolicyIsSegmentwise(path, prefix);
  }

  // ---------- canonical form ----------

  /** The rewriting loop of `canonical_uri_from_valid_path`, as a function. */
  function CanonicalPath(p: Bytes): Bytes
    decreases |p|
  {
    if p == [] then []
    else if p[0] == SLASH then [SLASH] + CanonicalPath(p[1..])
    else if HasEscape(p) then [PERCENT, UpperHex(p[1]), UpperHex(p[2])] + CanonicalPath(p[3..])
    else EncodeByte(p[0]) + CanonicalPath(p[1..])
  }

  /** The S3 canonical URI grammar: slashes, unreserved bytes and upper-case escapes. */
  predicate InCanonicalGrammar(p: Bytes)
    decreases |p|
  {
    p == [] ||
    (if p[0] == SLASH || IsUnreserved(p[0]) then InCanonicalGrammar(p[1..])
     else HasEscape(p) && !IsLower(p[1]) && !IsLower(p[2]) && InCanonicalGrammar(p[3..]))
  }

  method IsCanonicalPath(path: Bytes) returns (ok: bool)
    ensures ok == InCanonicalGrammar(path)
  {
    var i := 0;
    assert path[i..] == path;
    while i < |path|
      invariant 0 <= i <= |path|
      invariant InCanonicalGrammar(path) == InCanonicalGrammar(path[i..])
    {
      var c := path[i];
      ghost var rest := path[i..];
      if c == SLASH || IsUnreserved(c) {
        i := i + 1;
        assert rest[1..] == path[i..];
        continue;
      }
      if c == PERCENT && i + 2 < |path| && IsHex(path[i + 1]) && IsHex(path[i + 2]) {
        if path[i + 1] != UpperHex(path[i + 1]) || path[i + 2] != UpperHex(path[i + 2]) {
          return false;
        }
        i := i + 3;
        assert rest[3..] == path[i..];
        continue;
      }
      return false;
    }
    return true;
  }

  method CanonicalUriFromValidPath(path: Bytes) returns (out: Bytes)
    ensures out == CanonicalPath(path)
  {
    var borrowed := IsCanonicalPath(path);
    FixedPointIffGrammar(path);
    if borrowed {
      return path;
    }
    out := RewritePath(path);
  }

  /** The rewriting loop; the presigner has the same loop, without the borrow. */
  method RewritePath(path: Bytes) returns (out: Bytes)
    ensures out == CanonicalPath(path)
  {
    out := [];
    var i := 0;
    assert path[i..] == path;
    while i < |path|
      invariant 0 <= i <= |path|
      invariant CanonicalPath(path) == out + CanonicalPath(path[i..])
    {
      var c := path[i];
      ghost var rest := path[i..];
      ghost var before := out;
      ghost var piece: Bytes;
      if c == SLASH {
        out := out + [SLASH];
        piece := [SLASH];
        i := i + 1;
        assert rest[1..] == path[i..];
      } else if c == PERCENT && i + 2 < |path| && IsHex(path[i + 1]) && IsHex(path[i + 2]) {
        out := out + [PERCENT] + [UpperHex(path[i + 1])] + [UpperHex(path[i + 2])];
        piece := [PERCENT, UpperHex(path[i + 1]), UpperHex(path[i + 2])];
        i := i + 3;
        assert rest[3..] == path[i..];
      } else if IsUnreserved(c) {
        out := out + [c];
        piece := [c];
        i := i + 1;
        assert rest[1..] == path[i..];
      } else {
        out := out + EscapeByte(c);
        piece := EscapeByte(c);
        i := i + 1;
        assert rest[1..] == path[i..];
      }
      assert CanonicalPath(rest) == piece + CanonicalPath(path[i..]);
      assert out == before + piece;
      Associate(before, piece, CanonicalPath(path[i..]));
    }
  }

  lemma UpperHexFacts(c: byte)
    requires IsHex(c)
    ensures IsHex(UpperHex(c)) && FromHex(UpperHex(c)) == FromHex(c) && !IsLower(UpperHex(c))
    ensures UpperHex(c) == c <==> !IsLower(c)
  {
  }

  lemma EscapeByteFacts(c: byte)
    ensures HasEscape(EscapeByte(c)) && !IsLower(EscapeByte(c)[1]) && !IsLower(EscapeByte(c)[2])
    ensures EscapedByte(EscapeByte(c)) == c
  {
  }

  /** The result of the rewriting loop is always in the grammar. */
  lemma {:induction false} CanonicalPathInGrammar(p: Bytes)
    ensures InCanonicalGrammar(CanonicalPath(p))
    decreases |p|
  {
    if p == [] {
    } else if HasEscape(p) {
      UpperHexFacts(p[1]);
      UpperHexFacts(p[2]);
      CanonicalPathInGrammar(p[3..]);
      assert CanonicalPath(p)[3..] == CanonicalPath(p[3..]);
    } else {
      CanonicalPathInGrammar(p[1..]);
      EscapeByteFacts(p[0]);
      if p[0] == SLASH || IsUnreserved(p[0]) {
        assert CanonicalPath(p) == [p[0]] + CanonicalPath(p[1..]);
        assert CanonicalPath(p)[1..] == CanonicalPath(p[1..]);
      } else {
        assert CanonicalPath(p) == EscapeByte(p[0]) + CanonicalPath(p[1..]);
        assert CanonicalPath(p)[3..] == CanonicalPath(p[1..]);
      }
    }
  }

  /** Fast against slow: the borrow test holds exactly when the rewriting loop would return its input. */
  lemma {:induction false} FixedPointIffGrammar(p: Bytes)
    ensures InCanonicalGrammar(p) <==> CanonicalPath(p) == p
    decreases |p|
  {
    if p == [] {
    } else if HasEscape(p) {
      UpperHexFacts(p[1]);
      UpperHexFacts(p[2]);
      FixedPointIffGrammar(p[3..]);
      assert p == p[..3] + p[3..];
      assert CanonicalPath(p)[3..] == CanonicalPath(p[3..]);
    } else if p[0] == SLASH || IsUnreserved(p[0]) {
      FixedPointIffGrammar(p[1..]);
      assert p == [p[0]] + p[1..];
      assert CanonicalPath(p) == [p[0]] + CanonicalPath(p[1..]);
      assert CanonicalPath(p)[1..] == CanonicalPath(p[1..]);
    } else {
      EscapeByteFacts(p[0]);
      assert CanonicalPath(p) == EscapeByte(p[0]) + CanonicalPath(p[1..]);
      assert CanonicalPath(p)[..3] == EscapeByte(p[0]);
    }
  }

  lemma CanonicalPathIdempotent(p: Bytes)
    ensures CanonicalPath(CanonicalPath(p)) == CanonicalPath(p)
  {
    CanonicalPathInGrammar(p);
    FixedPointIffGrammar(CanonicalPath(p));
  }

  /** Canonicalisation does not change what a path decodes to. */
  lemma {:induction false} CanonicalPathKeepsMeaning(p: Bytes)
    requires Decode(p).Some?
    ensures Decode(CanonicalPath(p)) == Decode(p)
    decreases |p|
  {
    if p == [] {
    } else if HasEscape(p) {
      UpperHexFacts(p[1]);
      UpperHexFacts(p[2]);
      CanonicalPathKeepsMeaning(p[3..]);
      assert CanonicalPath(p)[3..] == CanonicalPath(p[3..]);
    } else {
      CanonicalPathKeepsMeaning(p[1..]);
      EscapeByteFacts(p[0]);
      if p[0] == SLASH || IsUnreserved(p[0]) {
        assert CanonicalPath(p) == [p[0]] + CanonicalPath(p[1..]);
        assert CanonicalPath(p)[1..] == CanonicalPath(p[1..]);
      } else {
        assert CanonicalPath(p) == EscapeByte(p[0]) + CanonicalPath(p[1..]);
        assert CanonicalPath(p)[3..] == CanonicalPath(p[1..]);
      }
    }
  }

  predicate IsPlain(c: byte) { c == SLASH || IsUnreserved(c) }

  /** For each decoded byte, whether it is written as an escape although it could stand for itself. */
  function NeedlessEscapes(p: Bytes): seq<bool>
    decreases |p|
  {
    if p == [] then []
    else if HasEscape(p) then [IsPlain(EscapedByte(p))] + NeedlessEscapes(p[3..])
    else [false] + NeedlessEscapes(p[1..])
  }

  /** The decoded bytes, the needless escapes kept and every other byte in its shortest canonical form. */
  function Spelled(d: Bytes, escaped: seq<bool>): Bytes
    requires |d| == |escaped|
  {
    if d == [] then []
    else (if escaped[0] || !IsPlain(d[0]) then EscapeByte(d[0]) else [d[0]]) + Spelled(d[1..], escaped[1..])
  }

  lemma UpperEscape(p: Bytes)
    requires HasEscape(p)
    ensures [PERCENT, UpperHex(p[1]), UpperHex(p[2])] == EscapeByte(EscapedByte(p))
  {
  }

  /** The canonical path is a function of the decoding and of the needless escapes. */
  lemma {:induction false} CanonicalPathSpelled(p: Bytes)
    requires Decode(p).Some?
    ensures |Decode(p).value| == |NeedlessEscapes(p)|
    ensures CanonicalPath(p) == Spelled(Decode(p).value, NeedlessEscapes(p))
    decreases |p|
  {
    if p == [] {
    } else if HasEscape(p) {
      UpperEscape(p);
      CanonicalPathSpelled(p[3..]);
      assert Decode(p).value[1..] == Decode(p[3..]).value;
    } else {
      CanonicalPathSpelled(p[1..]);
      assert Decode(p).value[1..] == Decode(p[1..]).value;
    }
  }

  /** Canonicalisation neither adds nor removes a needless escape. */
  lemma {:induction false} CanonicalPathKeepsEscapes(p: Bytes)
    requires Decode(p).Some?
    ensures NeedlessEscapes(CanonicalPath(p)) == NeedlessEscapes(p)
    decreases |p|
  {
    if p == [] {
    } else if HasEscape(p) {
      UpperHexFacts(p[1]);
      UpperHexFacts(p[2]);
      CanonicalPathKeepsEscapes(p[3..]);
      assert CanonicalPath(p)[3..] == CanonicalPath(p[3..]);
    } else {
      CanonicalPathKeepsEscapes(p[1..]);
      EscapeByteFacts(p[0]);
      if IsPlain(p[0]) {
        assert CanonicalPath(p) == [p[0]] + CanonicalPath(p[1..]);
        assert CanonicalPath(p)[1..] == CanonicalPath(p[1..]);
      } else {
        assert CanonicalPath(p) == EscapeByte(p[0]) + CanonicalPath(p[1..]);
        assert CanonicalPath(p)[3..] == CanonicalPath(p[1..]);
      }
    }
  }

  /**
    Two paths have the same canonical form exactly when they decode to the same bytes and write the same of
    these bytes as needless escapes.
   */
  lemma SameCanonicalPathIff(p: Bytes, q: Bytes)
    requires Decode(p).Some? && Decode(q).Some?
    ensures CanonicalPath(p) == CanonicalPath(q) <==> Decode(p) == Decode(q) && NeedlessEscapes(p) == NeedlessEscapes(q)
  {
    CanonicalPathSpelled(p);
    CanonicalPathSpelled(q);
    if CanonicalPath(p) == CanonicalPath(q) {
      CanonicalPathKeepsMeaning(p);
      CanonicalPathKeepsMeaning(q);
      CanonicalPathKeepsEscapes(p);
      CanonicalPathKeepsEscapes(q);
    }
  }

  /** The decoding alone does not decide the canonical form: `/%41` and `/A`. */
  lemma CanonicalPathIsNotDecodingComplete()
    ensures exists p, q ::
              ValidPath(p) && ValidPath(q) && Decode(p) == Decode(q) && CanonicalPath(p) != CanonicalPath(q)
  {
    var p: Bytes := [SLASH, PERCENT, 0x34, 0x31];
    var q: Bytes := [SLASH, 0x41];
    assert p[1..] == [PERCENT, 0x34, 0x31] && q[1..] == [0x41] && p[1..][3..] == [] && q[1..][1..] == [];
    assert q[1..] + [] == [0x41];
    assert Decode([]) == Some([]) && CanonicalPath([]) == [];
    assert Decode(p[1..]) == Prepend([0x41], Decode([])) && Decode(q[1..]) == Prepend([0x41], Decode([]));
    SplitNone(p[1..], SLASH);
    SplitNone(q[1..], SLASH);
    assert ScanOk(p[1..]) && ScanOk(q[1..]);
    assert ValidPath(p) && ValidPath(q);
    assert CanonicalPath(p[1..]) == [PERCENT, 0x34, 0x31] + [] && CanonicalPath(q[1..]) == [0x41] + [];
    assert CanonicalPath(p)[1] == PERCENT && CanonicalPath(q)[1] == 0x41;
  }

  // ---------- request targets ----------

  predicate IsForbiddenUriByte(b: byte) { b == CR || b == LF || b == TAB || b == SPACE || b == HASH }

  predicate CleanUri(uri: Bytes) { forall i :: 0 <= i < |uri| ==> !IsForbiddenUriByte(uri[i]) }

  function SplitOriginalUri(uri: Bytes): Option<(Bytes, Bytes)> {
    if uri == [] || uri[0] != SLASH || !CleanUri(uri) then None
    else
      var idx := IndexOf(uri, QUESTION);
      var path := uri[..idx];
      var query := if idx < |uri| then uri[idx + 1..] else [];
      if ValidPath(path) then Some((path, query)) else None
  }

  /** The target assembled from an accepted path and any clean query splits back into the two. */
  lemma SplitAssembledUri(path: Bytes, query: Bytes)
    requires ValidPath(path) && QUESTION !in path
    requires CleanUri(path) && CleanUri(query)
    ensures SplitOriginalUri(path + [QUESTION] + query) == Some((path, query))
  {
    var uri := path + [QUESTION] + query;
    SplitFirst(path, QUESTION, query);
    assert uri[..|path|] == path && uri[|path| + 1..] == query;
  }
}
