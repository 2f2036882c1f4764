/** What a query is, part by part, and what its canonical string is, without the parser and without the sort. */
module QueryGrammar {
  import opened Wrappers
  import opened ByteStrings
  import opened Seqs
  import opened Percent
  import opened Queries
  import opened Tokens
  import opened Unicode

  // ---------- the bytewise order ----------

  /** Equal, a proper prefix, or the smaller byte at the first place where they differ. */
  predicate Before(a: Bytes, b: Bytes) {
    a <= b || exists i :: 0 <= i < |a| && i < |b| && FirstDifference(a, b, i) && a[i] < b[i]
  }

  predicate FirstDifference(a: Bytes, b: Bytes, i: nat) { i < |a| && i < |b| && a[..i] == b[..i] && a[i] != b[i] }

  lemma {:induction false} LexIsBefore(a: Bytes, b: Bytes)
    ensures LexLeq(a, b) <==> Before(a, b)
    decreases |a|
  {
    if a == [] || b == [] {
    } else if a[0] != b[0] {
      if a[0] < b[0] { assert FirstDifference(a, b, 0); }
      if i :| 0 <= i < |a| && i < |b| && FirstDifference(a, b, i) && a[i] < b[i] {
        if i > 0 {
          HeadsAgree(a, b, i);
          assert false;
        }
      }
    } else {
      LexIsBefore(a[1..], b[1..]);
      BeforeTail(a, b);
    }
  }

  lemma HeadsAgree(a: Bytes, b: Bytes, i: nat)
    requires FirstDifference(a, b, i) && i > 0
    ensures a[0] == b[0]
  {
    assert a[..i][0] == b[..i][0];
  }

  lemma BeforeTail(a: Bytes, b: Bytes)
    requires a != [] && b != [] && a[0] == b[0]
    ensures Before(a, b) <==> Before(a[1..], b[1..])
  {
    var c, d := a[1..], b[1..];
    assert a == [a[0]] + c && b == [b[0]] + d;
    assert a <= b <==> c <= d;
    if i :| 0 <= i < |a| && i < |b| && FirstDifference(a, b, i) && a[i] < b[i] {
      assert c[..i - 1] == a[..i][1..] && d[..i - 1] == b[..i][1..];
      assert FirstDifference(c, d, i - 1) && c[i - 1] < d[i - 1];
    }
    if i :| 0 <= i < |c| && i < |d| && FirstDifference(c, d, i) && c[i] < d[i] {
      assert a[..i + 1] == [a[0]] + c[..i] && b[..i + 1] == [b[0]] + d[..i];
      assert FirstDifference(a, b, i + 1) && a[i + 1] < b[i + 1];
    }
  }

  /** By encoded name, and by encoded value under the same name. */
  predicate InOrder(s: seq<Param>) {
    forall i, j :: 0 <= i < j < |s| ==>
                     Before(s[i].name, s[j].name) && (s[i].name == s[j].name ==> Before(s[i].value, s[j].value))
  }

  lemma SortedIsInOrder(s: seq<Param>)
    ensures Sorted(s) <==> InOrder(s)
  {
    forall i, j | 0 <= i < j < |s|
      ensures ParamLeq(s[i], s[j])
         <==> Before(s[i].name, s[j].name) && (s[i].name == s[j].name ==> Before(s[i].value, s[j].value))
    {
      LexIsBefore(s[i].name, s[j].name);
      LexIsBefore(s[i].value, s[j].value);
    }
  }

  // ---------- the canonical string ----------

  /** What the signature covers of one parameter, in canonical tokens. */
  function Covered(p: Param): seq<Param> {
    if p.name == Lit("X-Amz-Signature") then [] else [Param(Encode(p.name), Encode(p.value))]
  }

  /** `name=value`, joined by `&`. */
  function Shown(s: seq<Param>): Bytes {
    if s == [] then []
    else if |s| == 1 then s[0].name + Lit("=") + s[0].value
    else s[0].name + Lit("=") + s[0].value + Lit("&") + Shown(s[1..])
  }

  lemma Separators()
    ensures Lit("=") == [EQUALS] && Lit("&") == [AMP]
  {
  }

  lemma {:induction false} ShownIsRendered(s: seq<Param>)
    ensures Shown(s) == Render(s)
  {
    Separators();
    if |s| <= 1 {
    } else {
      ShownIsRendered(s[1..]);
      assert RenderEach(s)[1..] == RenderEach(s[1..]);
    }
  }

  lemma {:induction false} CoveredIsSigned(params: seq<Param>)
    ensures Collect(Covered, params) == EncodedSigned(params)
  {
    if params == [] {
    } else {
      CoveredIsSigned(params[1..]);
    }
  }

  /**
    The canonical string of decoded parameters is the text of the one arrangement of the covered parameters,
    each encoded, in bytewise order of names and then of values.
   */
  lemma CanonicalIff(params: seq<Param>, c: Bytes)
    ensures c == CanonicalOf(params)
       <==> exists s :: multiset(s) == multiset(Collect(Covered, params)) && InOrder(s) && c == Shown(s)
  {
    CoveredIsSigned(params);
    var sorted := SortParams(EncodedSigned(params));
    SortedIsInOrder(sorted);
    ShownIsRendered(sorted);
    if s :| multiset(s) == multiset(Collect(Covered, params)) && InOrder(s) && c == Shown(s) {
      SortedIsInOrder(s);
      SortedUnique(s, sorted);
    }
  }

  // ---------- the query ----------

  /** One part: a name, and a value if there is a `=`. */
  datatype Part = Part(name: seq<Token>, value: Option<seq<Token>>)

  function PartText(p: Part): Bytes {
    Written(p.name) + match p.value case None => [] case Some(v) => Lit("=") + Written(v)
  }

  /** The six names whose values must be text. */
  predicate IsReserved(name: Bytes) {
    || name == Lit("X-Amz-Algorithm") || name == Lit("X-Amz-Credential") || name == Lit("X-Amz-Date")
    || name == Lit("X-Amz-Expires") || name == Lit("X-Amz-SignedHeaders") || name == Lit("X-Amz-Signature")
  }

  ghost predicate IsText(s: Bytes) { exists cps :: AllScalars(cps) && s == Encoded(cps) }

  /** The parameter a part stands for; a part without `=` has the empty value. */
  function PartParam(p: Part): Param
    requires AreTokens(p.name) && (p.value.Some? ==> AreTokens(p.value.value))
  {
    Param(Denoted(p.name), match p.value case None => [] case Some(v) => Denoted(v))
  }

  ghost predicate IsPart(p: Part) {
    && AreTokens(p.name) && p.name != [] && EQUALS !in Written(p.name) && AMP !in Written(p.name)
    && (p.value.Some? ==> AreTokens(p.value.value) && AMP !in Written(p.value.value))
    && (IsReserved(PartParam(p).name) ==> IsText(PartParam(p).value))
  }

  lemma WrittenNotEmpty(ts: seq<Token>)
    requires ts != []
    ensures Written(ts) != []
  {
  }

  lemma PartSplits(p: Part)
    requires EQUALS !in Written(p.name)
    ensures RawName(PartText(p)) == Written(p.name)
    ensures RawValue(PartText(p)) == match p.value case None => [] case Some(v) => Written(v)
  {
    Separators();
    var name, text := Written(p.name), PartText(p);
    match p.value
    case None =>
      assert text == name;
      IndexOfUnique(text, EQUALS, |text|);
    case Some(v) =>
      assert text == name + [EQUALS] + Written(v);
      SplitFirst(name, EQUALS, Written(v));
      assert text[..|name|] == name && text[|name| + 1..] == Written(v);
  }

  /** A part parses exactly when it is one of these, and to the parameter it stands for. */
  lemma PartParses(p: Part)
    requires IsPart(p)
    ensures ParsePart(PartText(p)) == Some(PartParam(p)) && AMP !in PartText(p)
  {
    Separators();
    PartSplits(p);
    WrittenNotEmpty(p.name);
    WrittenDecodes(p.name);
    if p.value.Some? { WrittenDecodes(p.value.value); }
    ValidUtf8Iff(PartParam(p).value);
  }

  lemma PartFrom(p: Part, name: Bytes, value: Bytes)
    requires AreTokens(p.name) && p.name != [] && EQUALS !in Written(p.name) && AMP !in Written(p.name)
    requires p.value.Some? ==> AreTokens(p.value.value) && AMP !in Written(p.value.value)
    requires PartParam(p) == Param(name, value) && (IsKnownName(name) ==> ValidUtf8(value))
    ensures IsPart(p)
  {
    ValidUtf8Iff(value);
  }

  /** A part with no `=` is its name. */
  lemma NameOnly(s: Bytes) returns (p: Part)
    requires ParsePart(s).Some? && AMP !in s && IndexOf(s, EQUALS) == |s|
    ensures IsPart(p) && PartText(p) == s
  {
    IndexOfIsFirst(s, EQUALS);
    assert RawName(s) == s[..|s|] == s;
    var name := DecodedIsWritten(s);
    WrittenDecodes(name);
    p := Part(name, None);
    PartFrom(p, Decode(s).value, []);
  }

  lemma PairIsPart(rawName: Bytes, rawValue: Bytes, name: Bytes, value: Bytes) returns (p: Part)
    requires Decode(rawName) == Some(name) && Decode(rawValue) == Some(value) && name != []
    requires EQUALS !in rawName && AMP !in rawName && AMP !in rawValue && (IsKnownName(name) ==> ValidUtf8(value))
    ensures IsPart(p) && PartText(p) == rawName + [EQUALS] + rawValue
  {
    Separators();
    var nameTokens := DecodedIsWritten(rawName);
    var valueTokens := DecodedIsWritten(rawValue);
    WrittenDecodes(nameTokens);
    WrittenDecodes(valueTokens);
    p := Part(nameTokens, Some(valueTokens));
    assert rawName + ([EQUALS] + rawValue) == rawName + [EQUALS] + rawValue;
    PartFrom(p, name, value);
  }

  lemma NameAndValue(s: Bytes) returns (p: Part)
    requires ParsePart(s).Some? && AMP !in s && IndexOf(s, EQUALS) < |s|
    ensures IsPart(p) && PartText(p) == s
  {
    IndexOfIsFirst(s, EQUALS);
    p := PairIsPart(RawName(s), RawValue(s), Decode(RawName(s)).value, Decode(RawValue(s)).value);
    assert s == RawName(s) + [EQUALS] + RawValue(s);
  }

  lemma ParsedIsPart(s: Bytes) returns (p: Part)
    requires ParsePart(s).Some? && AMP !in s
    ensures IsPart(p) && PartText(p) == s
  {
    if IndexOf(s, EQUALS) == |s| { p := NameOnly(s); } else { p := NameAndValue(s); }
  }

  ghost predicate AreParts(parts: seq<Part>) { forall i :: 0 <= i < |parts| ==> IsPart(parts[i]) }

  function PartTexts(parts: seq<Part>): (r: seq<Bytes>)
    ensures |r| == |parts|
  {
    if parts == [] then [] else [PartText(parts[0])] + PartTexts(parts[1..])
  }

  /** The parts, joined by `&`. */
  function QueryText(parts: seq<Part>): Bytes { Join(PartTexts(parts), '&' as int) }

  ghost function PartParams(parts: seq<Part>): seq<Param>
    requires AreParts(parts)
  {
    if parts == [] then [] else [PartParam(parts[0])] + PartParams(parts[1..])
  }

  lemma {:induction false} TextsParse(parts: seq<Part>)
    requires AreParts(parts)
    ensures None !in ParseEach(PartTexts(parts))
    ensures Collect(Kept, ParseEach(PartTexts(parts))) == PartParams(parts)
    ensures forall i :: 0 <= i < |parts| ==> AMP !in PartTexts(parts)[i] && PartTexts(parts)[i] != []
  {
    if parts == [] {
    } else {
      var text, rest := PartText(parts[0]), PartTexts(parts[1..]);
      TextsParse(parts[1..]);
      PartParses(parts[0]);
      CollectCons(ParseOne, text, rest);
      CollectCons(Kept, Some(PartParam(parts[0])), ParseEach(rest));
    }
  }

  /** Every query built of parts is accepted and says what its parts stand for. */
  lemma QueryOfParts(parts: seq<Part>)
    requires AreParts(parts)
    ensures Parts(QueryText(parts)) == PartTexts(parts)
    ensures Accepted(QueryText(parts)) && Params(QueryText(parts)) == PartParams(parts)
  {
    TextsParse(parts);
    if parts != [] {
      SplitJoin(PartTexts(parts), AMP);
      JoinNotEmpty(PartTexts(parts), AMP);
    }
  }

  lemma JoinNotEmpty(texts: seq<Bytes>, c: byte)
    requires texts != [] && texts[0] != []
    ensures Join(texts, c) != []
  {
  }

  lemma {:induction false} PartsOfTexts(texts: seq<Bytes>) returns (parts: seq<Part>)
    requires None !in ParseEach(texts) && forall i :: 0 <= i < |texts| ==> AMP !in texts[i]
    ensures AreParts(parts) && PartTexts(parts) == texts
  {
    if texts == [] {
      parts := [];
    } else {
      ParseEachCons(texts);
      var p := ParsedIsPart(texts[0]);
      var rest := PartsOfTexts(texts[1..]);
      parts := [p] + rest;
      assert parts[1..] == rest;
    }
  }

  lemma ParseEachCons(texts: seq<Bytes>)
    requires texts != []
    ensures None !in ParseEach(texts) ==> ParsePart(texts[0]).Some? && None !in ParseEach(texts[1..])
  {
    assert ParseEach(texts) == [ParsePart(texts[0])] + ParseEach(texts[1..]);
    if None !in ParseEach(texts) {
      assert ParseEach(texts)[0] == ParsePart(texts[0]);
      assert forall i :: 0 <= i < |ParseEach(texts[1..])| ==> ParseEach(texts)[i + 1] == ParseEach(texts[1..])[i];
    }
  }

  lemma {:induction false} SplitHasNone(s: Bytes, c: byte)
    ensures forall i :: 0 <= i < |Split(s, c)| ==> c !in Split(s, c)[i]
    decreases |s|
  {
    var e := IndexOf(s, c);
    IndexOfIsFirst(s, c);
    if e == |s| {
      assert s[..e] == s;
    } else {
      SplitHasNone(s[e + 1..], c);
    }
  }

  /**
    A query is accepted exactly when it is a list of parts joined by `&`; each is a non-empty name of tokens,
    with or without a value of tokens, and the values of the six reserved names are UTF-8 text.
   */
  lemma AcceptedIff(q: Bytes)
    ensures Accepted(q) <==> exists parts :: AreParts(parts) && q == QueryText(parts)
  {
    if Accepted(q) {
      if q == [] {
        assert AreParts([]) && q == QueryText([]);
      } else {
        SplitHasNone(q, AMP);
        JoinSplit(q, AMP);
        var parts := PartsOfTexts(Parts(q));
        assert q == QueryText(parts);
      }
    }
    if parts :| AreParts(parts) && q == QueryText(parts) {
      QueryOfParts(parts);
    }
  }

  /** The canonical string of a query, from its parts to its text. */
  lemma CanonicalQueryIff(parts: seq<Part>, c: Bytes)
    requires AreParts(parts)
    ensures c == CanonicalOf(Params(QueryText(parts)))
       <==> exists s :: multiset(s) == multiset(Collect(Covered, PartParams(parts))) && InOrder(s) && c == Shown(s)
  {
    QueryOfParts(parts);
    CanonicalIff(PartParams(parts), c);
  }
}
