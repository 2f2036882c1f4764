/** Query strings: parsing, the known SigV4 parameters, and the canonical query. */
module Queries {
  import opened Wrappers
  import opened ByteStrings
  import opened Seqs
  import opened Percent

  datatype Param = Param(name: Bytes, value: Bytes)

  const X_AMZ_ALGORITHM: Bytes := Lit("X-Amz-Algorithm")
  const X_AMZ_CREDENTIAL: Bytes := Lit("X-Amz-Credential")
  const X_AMZ_DATE: Bytes := Lit("X-Amz-Date")
  const X_AMZ_EXPIRES: Bytes := Lit("X-Amz-Expires")
  const X_AMZ_SIGNED_HEADERS: Bytes := Lit("X-Amz-SignedHeaders")
  const X_AMZ_SIGNATURE: Bytes := Lit("X-Amz-Signature")

  predicate IsKnownName(name: Bytes) {
    || name == X_AMZ_ALGORITHM
    || name == X_AMZ_CREDENTIAL
    || name == X_AMZ_DATE
    || name == X_AMZ_EXPIRES
    || name == X_AMZ_SIGNED_HEADERS
    || name == X_AMZ_SIGNATURE
  }

  // ---------- what a query says ----------

  function RawName(part: Bytes): Bytes { part[..IndexOf(part, EQUALS)] }

  function RawValue(part: Bytes): Bytes {
    var eq := IndexOf(part, EQUALS);
    if eq < |part| then part[eq + 1..] else []
  }

  /** The decoded parameter a part stands for; `None` when the part makes the query invalid. */
  function ParsePart(part: Bytes): Option<Param> {
    var name := Decode(RawName(part));
    var value := Decode(RawValue(part));
    if part == [] || name.None? || name.value == [] || value.None? then None
    else if IsKnownName(name.value) && !ValidUtf8(value.value) then None
    else Some(Param(name.value, value.value))
  }

  /** The `&`-separated parts; an empty query has none. */
  function Parts(query: Bytes): seq<Bytes> { if query == [] then [] else Split(query, AMP) }

  function ParseOne(part: Bytes): seq<Option<Param>> { [ParsePart(part)] }

  function ParseEach(parts: seq<Bytes>): seq<Option<Param>> { Collect(ParseOne, parts) }

  /** Every part of a query, decoded, in order. */
  function Parsed(query: Bytes): seq<Option<Param>> { ParseEach(Parts(query)) }

  predicate Accepted(query: Bytes) { None !in Parsed(query) }

  function Kept(p: Option<Param>): seq<Param> { match p case None => [] case Some(v) => [v] }

  /** The decoded parameters of a query. */
  function Params(query: Bytes): seq<Param> { Collect(Kept, Parsed(query)) }

  function ValueUnder(name: Bytes): Param -> seq<Bytes> {
    (p: Param) => if p.name == name then [p.value] else []
  }

  /** The values given to `name`, in order. */
  function ValuesOf(params: seq<Param>, name: Bytes): seq<Bytes> { Collect(ValueUnder(name), params) }

  /** The value of a parameter that occurs exactly once. */
  function Single(params: seq<Param>, name: Bytes): Option<Bytes> {
    var values := ValuesOf(params, name);
    if |values| == 1 then Some(values[0]) else None
  }

  // ---------- the canonical query of a list of decoded parameters ----------

  function EncodeParam(p: Param): Param { Param(Encode(p.name), Encode(p.value)) }

  function EncodeSigned(p: Param): seq<Param> { if p.name == X_AMZ_SIGNATURE then [] else [EncodeParam(p)] }

  function SignedOne(p: Param): seq<Param> { if p.name == X_AMZ_SIGNATURE then [] else [p] }

  /** The parameters a signature covers: all but those whose name decodes to `X-Amz-Signature`. */
  function Signed(params: seq<Param>): seq<Param> { Collect(SignedOne, params) }

  function EncodedSigned(params: seq<Param>): seq<Param> { Collect(EncodeSigned, params) }

  predicate ParamLeq(a: Param, b: Param) {
    if a.name == b.name then LexLeq(a.value, b.value) else LexLeq(a.name, b.name)
  }

  predicate Sorted(s: seq<Param>) { forall i, j :: 0 <= i < j < |s| ==> ParamLeq(s[i], s[j]) }

  function InsertParam(p: Param, s: seq<Param>): (r: seq<Param>)
    requires Sorted(s)
    ensures Sorted(r) && multiset(r) == multiset{p} + multiset(s)
  {
    if s == [] then [p]
    else if ParamLeq(p, s[0]) then
      assert Sorted([p] + s) by {
        forall i | 0 <= i < |s| ensures ParamLeq(p, s[i]) {
          if i > 0 { ParamTransitive(p, s[0], s[i]); }
        }
      }
      [p] + s
    else
      var rest := InsertParam(p, s[1..]);
      assert s == [s[0]] + s[1..];
      assert Sorted([s[0]] + rest) by {
        ParamTotal(p, s[0]);
        forall i | 0 <= i < |rest| ensures ParamLeq(s[0], rest[i]) {
          assert rest[i] in multiset(rest);
          if rest[i] != p { assert rest[i] in multiset(s[1..]); }
        }
      }
      [s[0]] + rest
  }

  function SortParams(s: seq<Param>): (r: seq<Param>)
    ensures Sorted(r) && multiset(r) == multiset(s)
  {
    if s == [] then []
    else
      assert s == [s[0]] + s[1..];
      InsertParam(s[0], SortParams(s[1..]))
  }

  function RenderOne(p: Param): Bytes { p.name + [EQUALS] + p.value }

  function RenderEach(s: seq<Param>): (r: seq<Bytes>)
    ensures |r| == |s|
  {
    seq(|s|, i requires 0 <= i < |s| => RenderOne(s[i]))
  }

  function Render(s: seq<Param>): Bytes { Join(RenderEach(s), AMP) }

  function CanonicalOf(params: seq<Param>): Bytes { Render(SortParams(EncodedSigned(params))) }

  // ---------- the order ----------

  lemma ParamTotal(a: Param, b: Param)
    ensures ParamLeq(a, b) || ParamLeq(b, a)
  {
    LexTotal(a.name, b.name);
    LexTotal(a.value, b.value);
  }

  lemma ParamTransitive(a: Param, b: Param, c: Param)
    requires ParamLeq(a, b) && ParamLeq(b, c)
    ensures ParamLeq(a, c)
  {
    LexTotal(a.name, b.name);
    if a.name == b.name == c.name {
      LexTransitive(a.value, b.value, c.value);
    } else {
      LexTotal(b.name, b.name);
      LexTransitive(a.name, b.name, c.name);
      if a.name == c.name { LexAntisymmetric(a.name, b.name); }
    }
  }

  lemma ParamAntisymmetric(a: Param, b: Param)
    requires ParamLeq(a, b) && ParamLeq(b, a)
    ensures a == b
  {
    if a.name == b.name { LexAntisymmetric(a.value, b.value); } else { LexAntisymmetric(a.name, b.name); }
  }

  lemma SortedHead(s: seq<Param>, x: Param)
    requires Sorted(s) && x in s
    ensures ParamLeq(s[0], x)
  {
    var j :| 0 <= j < |s| && s[j] == x;
    ParamTotal(x, x);
  }

  /** There is only one sorted arrangement, so an unstable sort is as good as a stable one. */
  lemma {:induction false} SortedUnique(s: seq<Param>, t: seq<Param>)
    requires Sorted(s) && Sorted(t) && multiset(s) == multiset(t)
    ensures s == t
  {
    assert |multiset(s)| == |multiset(t)|;
    if s == [] {
    } else {
      assert s[0] in multiset(t) && t[0] in multiset(s);
      SortedHead(s, t[0]);
      SortedHead(t, s[0]);
      ParamAntisymmetric(s[0], t[0]);
      TailMultiset(s, t);
      SortedUnique(s[1..], t[1..]);
      assert s == [s[0]] + s[1..] && t == [t[0]] + t[1..];
    }
  }

  // ---------- the mutable record of known parameters ----------

  datatype Slot = Slot(value: Bytes, count: nat)

  /** What one field pair of the record should hold after `params` were set in order. */
  function SlotOf(params: seq<Param>, name: Bytes): Slot {
    var values := ValuesOf(params, name);
    Slot(if values == [] then [] else values[|values| - 1], |values|)
  }

  /** The slot of `name` after `p` was seen. */
  function AnySet(before: Slot, name: Bytes, p: Param): Slot {
    if name == p.name then Slot(p.value, before.count + 1) else before
  }

  /** The slot of `name` after `p` was set: names the record does not know leave it alone. */
  function AfterSet(before: Slot, name: Bytes, p: Param): Slot {
    if IsKnownName(p.name) then AnySet(before, name, p) else before
  }

  class SigV4Query {
    var algorithm: Bytes
    var algorithmCount: nat
    var credential: Bytes
    var credentialCount: nat
    var date: Bytes
    var dateCount: nat
    var expires: Bytes
    var expiresCount: nat
    var signedHeaders: Bytes
    var signedHeadersCount: nat
    var signature: Bytes
    var signatureCount: nat

    ghost function Get(name: Bytes): Slot
      reads this
    {
      if name == X_AMZ_ALGORITHM then Slot(algorithm, algorithmCount)
      else if name == X_AMZ_CREDENTIAL then Slot(credential, credentialCount)
      else if name == X_AMZ_DATE then Slot(date, dateCount)
      else if name == X_AMZ_EXPIRES then Slot(expires, expiresCount)
      else if name == X_AMZ_SIGNED_HEADERS then Slot(signedHeaders, signedHeadersCount)
      else if name == X_AMZ_SIGNATURE then Slot(signature, signatureCount)
      else Slot([], 0)
    }

    ghost predicate Holds(params: seq<Param>)
      reads this
    {
      forall name :: IsKnownName(name) ==> Get(name) == SlotOf(params, name)
    }

    constructor ()
      ensures Holds([])
    {
      algorithm, algorithmCount := [], 0;
      credential, credentialCount := [], 0;
      date, dateCount := [], 0;
      expires, expiresCount := [], 0;
      signedHeaders, signedHeadersCount := [], 0;
      signature, signatureCount := [], 0;
    }

    method Set(name: Bytes, value: Bytes) returns (ok: bool)
      modifies this
      ensures ok == ValidUtf8(value)
      ensures forall n :: Get(n) == if ok then AfterSet(old(Get(n)), n, Param(name, value)) else old(Get(n))
    {
      if !ValidUtf8(value) {
        return false;
      }
      if name == X_AMZ_ALGORITHM {
        algorithm, algorithmCount := value, algorithmCount + 1;
      } else if name == X_AMZ_CREDENTIAL {
        credential, credentialCount := value, credentialCount + 1;
      } else if name == X_AMZ_DATE {
        date, dateCount := value, dateCount + 1;
      } else if name == X_AMZ_EXPIRES {
        expires, expiresCount := value, expiresCount + 1;
      } else if name == X_AMZ_SIGNED_HEADERS {
        signedHeaders, signedHeadersCount := value, signedHeadersCount + 1;
      } else if name == X_AMZ_SIGNATURE {
        signature, signatureCount := value, signatureCount + 1;
      }
      return true;
    }
  }

  function SingleKnownValue(value: Bytes, count: nat): Option<Bytes> { if count == 1 then Some(value) else None }

  /** What the field pairs of a filled record say about the parameters it was filled from. */
  lemma RecordedSingles(q: SigV4Query, params: seq<Param>)
    requires q.Holds(params)
    ensures SingleKnownValue(q.algorithm, q.algorithmCount) == Single(params, X_AMZ_ALGORITHM)
    ensures SingleKnownValue(q.credential, q.credentialCount) == Single(params, X_AMZ_CREDENTIAL)
    ensures SingleKnownValue(q.date, q.dateCount) == Single(params, X_AMZ_DATE)
    ensures SingleKnownValue(q.expires, q.expiresCount) == Single(params, X_AMZ_EXPIRES)
    ensures SingleKnownValue(q.signedHeaders, q.signedHeadersCount) == Single(params, X_AMZ_SIGNED_HEADERS)
    ensures SingleKnownValue(q.signature, q.signatureCount) == Single(params, X_AMZ_SIGNATURE)
  {
    NamesDiffer();
    assert q.Get(X_AMZ_ALGORITHM) == SlotOf(params, X_AMZ_ALGORITHM);
    assert q.Get(X_AMZ_CREDENTIAL) == SlotOf(params, X_AMZ_CREDENTIAL);
    assert q.Get(X_AMZ_DATE) == SlotOf(params, X_AMZ_DATE);
    assert q.Get(X_AMZ_EXPIRES) == SlotOf(params, X_AMZ_EXPIRES);
    assert q.Get(X_AMZ_SIGNED_HEADERS) == SlotOf(params, X_AMZ_SIGNED_HEADERS);
    assert q.Get(X_AMZ_SIGNATURE) == SlotOf(params, X_AMZ_SIGNATURE);
  }

  lemma NamesDiffer()
    ensures |{X_AMZ_ALGORITHM, X_AMZ_CREDENTIAL, X_AMZ_DATE, X_AMZ_EXPIRES, X_AMZ_SIGNED_HEADERS, X_AMZ_SIGNATURE}| == 6
    ensures X_AMZ_ALGORITHM != X_AMZ_CREDENTIAL && X_AMZ_ALGORITHM != X_AMZ_DATE && X_AMZ_ALGORITHM != X_AMZ_EXPIRES
    ensures X_AMZ_ALGORITHM != X_AMZ_SIGNED_HEADERS && X_AMZ_ALGORITHM != X_AMZ_SIGNATURE
    ensures X_AMZ_CREDENTIAL != X_AMZ_DATE && X_AMZ_CREDENTIAL != X_AMZ_EXPIRES
    ensures X_AMZ_CREDENTIAL != X_AMZ_SIGNED_HEADERS && X_AMZ_CREDENTIAL != X_AMZ_SIGNATURE
    ensures X_AMZ_DATE != X_AMZ_EXPIRES && X_AMZ_DATE != X_AMZ_SIGNED_HEADERS && X_AMZ_DATE != X_AMZ_SIGNATURE
    ensures X_AMZ_EXPIRES != X_AMZ_SIGNED_HEADERS && X_AMZ_EXPIRES != X_AMZ_SIGNATURE
    ensures X_AMZ_SIGNED_HEADERS != X_AMZ_SIGNATURE
  {
    assert |X_AMZ_ALGORITHM| == |X_AMZ_SIGNATURE| == 15;
    assert X_AMZ_ALGORITHM[6] == 0x41 && X_AMZ_SIGNATURE[6] == 0x53;
    assert |X_AMZ_CREDENTIAL| == 16 && |X_AMZ_DATE| == 10 && |X_AMZ_EXPIRES| == 13 && |X_AMZ_SIGNED_HEADERS| == 19;
  }

  /** `sort_unstable_by`: any sorted arrangement of the same parameters. */
  method SortUnstable(params: seq<Param>) returns (sorted: seq<Param>)
    ensures Sorted(sorted) && multiset(sorted) == multiset(params)
  {
    sorted := SortParams(params);
  }

  method JoinParams(params: seq<Param>) returns (out: Bytes)
    ensures out == Render(params)
  {
    out := [];
    assert params[..0] == [];
    for idx := 0 to |params|
      invariant out == Render(params[..idx])
    {
      ghost var before := RenderEach(params[..idx]);
      assert params[..idx + 1] == params[..idx] + [params[idx]];
      assert RenderEach(params[..idx + 1]) == before + [RenderOne(params[idx])];
      if idx > 0 {
        JoinConcat(before, [RenderOne(params[idx])], AMP);
        out := out + [AMP];
      } else {
        assert before == [];
        assert before + [RenderOne(params[idx])] == [RenderOne(params[idx])];
      }
      out := out + params[idx].name;
      out := out + [EQUALS];
      out := out + params[idx].value;
    }
    assert params[..|params|] == params;
  }

  lemma BadPartRejects(parts: seq<Bytes>, done: seq<Bytes>, part: Bytes, rest: seq<Bytes>)
    requires parts == done + [part] + rest && ParsePart(part).None?
    ensures None in ParseEach(parts)
  {
    CollectConcat(ParseOne, done + [part], rest);
    CollectOne(ParseOne, done, part);
    assert (ParseEach(done) + [ParsePart(part)])[|ParseEach(done)|] == None;
  }

  lemma ParseSnoc(done: seq<Bytes>, part: Bytes)
    requires ParsePart(part).Some?
    ensures ParseEach(done + [part]) == ParseEach(done) + [ParsePart(part)]
    ensures Collect(Kept, ParseEach(done + [part])) == Collect(Kept, ParseEach(done)) + [ParsePart(part).value]
  {
    CollectOne(ParseOne, done, part);
    CollectOne(Kept, ParseEach(done), ParsePart(part));
  }

  lemma TrailingSeparatorRejects(query: Bytes)
    requires query != [] && query[|query| - 1] == AMP
    ensures !Accepted(query)
  {
    var front := query[..|query| - 1];
    assert query == front + [AMP] + [];
    SplitConcat(front, AMP, []);
    SplitNone([], AMP);
    BadPartRejects(Parts(query), Split(front, AMP), [], []);
  }

  /** The value of a parameter: canonicalised, and recorded when the name is a known one. */
  method TakeValue(name: Bytes, raw: Bytes, values: SigV4Query) returns (encoded: Option<Bytes>)
    modifies values
    ensures encoded.Some? <==> Decode(raw).Some? && (IsKnownName(name) ==> ValidUtf8(Decode(raw).value))
    ensures encoded.Some? ==> encoded.value == Encode(Decode(raw).value)
    ensures encoded.Some? ==>
              forall n :: values.Get(n) == AfterSet(old(values.Get(n)), n, Param(name, Decode(raw).value))
  {
    var knownName := IsKnownName(name);
    var value := CanonicalizeQueryComponent(raw, knownName);
    if value.None? {
      return None;
    }
    if knownName {
      var ok := values.Set(name, value.value.1.value);
      if !ok {
        return None;
      }
    }
    return Some(value.value.0);
  }

  /** One part: validate it, record a known parameter, and give back what the signature covers. */
  method AddPart(part: Bytes, values: SigV4Query) returns (r: Option<seq<Param>>)
    requires part != []
    modifies values
    ensures r.Some? <==> ParsePart(part).Some?
    ensures r.Some? ==> r.value == EncodeSigned(ParsePart(part).value)
    ensures r.Some? ==> forall n :: values.Get(n) == AfterSet(old(values.Get(n)), n, ParsePart(part).value)
  {
    var nameRaw := RawName(part);
    var valueRaw := RawValue(part);
    var name := CanonicalizeQueryComponent(nameRaw, true);
    if name.None? {
      return None;
    }
    var decodedName := name.value.1.value;
    if decodedName == [] {
      return None;
    }
    var value := TakeValue(decodedName, valueRaw, values);
    if value.None? {
      return None;
    }
    return Some(if decodedName == X_AMZ_SIGNATURE then [] else [Param(name.value.0, value.value)]);
  }

  /** What the loop has accumulated once the parts `done` were accepted. */
  ghost predicate Tracks(values: SigV4Query, done: seq<Bytes>, params: seq<Param>)
    reads values
  {
    && None !in ParseEach(done)
    && params == EncodedSigned(Collect(Kept, ParseEach(done)))
    && values.Holds(Collect(Kept, ParseEach(done)))
  }

  method TakePart(part: Bytes, values: SigV4Query, params: seq<Param>, ghost done: seq<Bytes>)
    returns (r: Option<seq<Param>>)
    requires Tracks(values, done, params)
    modifies values
    ensures r.Some? <==> ParsePart(part).Some?
    ensures r.Some? ==> Tracks(values, done + [part], r.value)
  {
    if part == [] {
      return None;
    }
    var added := AddPart(part, values);
    if added.None? {
      return None;
    }
    AcceptPart(done, part);
    return Some(params + added.value);
  }

  /** The part under the cursor; the cursor never stops at the end of the query. */
  method TakeNext(raw: Bytes, start: nat, values: SigV4Query, params: seq<Param>, ghost parts: seq<Bytes>,
                  ghost done: seq<Bytes>)
    returns (r: Option<seq<Param>>, next: nat, ghost part: Bytes)
    requires start < |raw| && raw[|raw| - 1] != AMP
    requires parts == done + SplitFrom(raw, AMP, start) && Tracks(values, done, params)
    modifies values
    ensures start < next <= |raw| + 1 && next != |raw|
    ensures parts == done + [part] + SplitFrom(raw, AMP, next)
    ensures r.None? ==> None in ParseEach(parts)
    ensures r.Some? ==> Tracks(values, done + [part], r.value)
  {
    var end := IndexFrom(raw, AMP, start);
    next, part := end + 1, raw[start..end];
    PartBeforeEnd(raw, start);
    SplitFromStep(raw, AMP, start);
    ScanPart(parts, done, part, SplitFrom(raw, AMP, next));
    r := TakePart(raw[start..end], values, params, done);
  }

  /** The parsing loop: one pass that validates, records the known parameters and collects the signed ones. */
  method CollectParams(raw: Bytes, values: SigV4Query, ghost parts: seq<Bytes>) returns (r: Option<seq<Param>>)
    requires raw != [] && raw[|raw| - 1] != AMP && Tracks(values, [], []) && parts == SplitFrom(raw, AMP, 0)
    modifies values
    ensures r.Some? <==> None !in ParseEach(parts)
    ensures r.Some? ==> Tracks(values, parts, r.value)
  {
    var params: seq<Param> := [];
    ghost var done: seq<Bytes> := [];
    var start := 0;
    while start < |raw|
      invariant 0 <= start <= |raw| + 1 && start != |raw|
      invariant parts == done + SplitFrom(raw, AMP, start)
      invariant Tracks(values, done, params)
    {
      var taken, next, part := TakeNext(raw, start, values, params, parts, done);
      if taken.None? {
        return None;
      }
      params := taken.value;
      done := done + [part];
      start := next;
    }
    assert parts == done + [] == done;
    return Some(params);
  }

  lemma PartBeforeEnd(raw: Bytes, start: nat)
    requires start < |raw| && raw[|raw| - 1] != AMP
    ensures IndexFrom(raw, AMP, start) + 1 != |raw|
  {
  }

  /** The part under the cursor, with what comes before and after it. */
  lemma ScanPart(parts: seq<Bytes>, done: seq<Bytes>, part: Bytes, rest: seq<Bytes>)
    requires parts == done + ([part] + rest)
    ensures parts == done + [part] + rest
    ensures ParsePart(part).None? ==> None in ParseEach(parts)
  {
    Associate(done, [part], rest);
    if ParsePart(part).None? { BadPartRejects(parts, done, part, rest); }
  }

  method CanonicalQuery(raw: Bytes) returns (r: Option<Bytes>, values: SigV4Query)
    ensures fresh(values)
    ensures r.Some? <==> Accepted(raw)
    ensures r.Some? ==> r.value == CanonicalOf(Params(raw)) && values.Holds(Params(raw))
  {
    values := new SigV4Query();
    if raw == [] {
      return Some([]), values;
    }
    if raw[|raw| - 1] == AMP {
      TrailingSeparatorRejects(raw);
      return None, values;
    }
    SplitFromStart(raw, AMP);
    var params := CollectParams(raw, values, Parts(raw));
    if params.None? {
      return None, values;
    }
    var sorted := SortUnstable(params.value);
    SortedUnique(sorted, SortParams(params.value));
    var out := JoinParams(sorted);
    return Some(out), values;
  }

  /** One more accepted part extends everything the loop accumulates by that part's contribution. */
  lemma AcceptPart(done: seq<Bytes>, part: Bytes)
    requires ParsePart(part).Some?
    ensures None !in ParseEach(done) ==> None !in ParseEach(done + [part])
    ensures EncodedSigned(Collect(Kept, ParseEach(done + [part])))
         == EncodedSigned(Collect(Kept, ParseEach(done))) + EncodeSigned(ParsePart(part).value)
    ensures forall n :: SlotOf(Collect(Kept, ParseEach(done + [part])), n)
                     == AnySet(SlotOf(Collect(Kept, ParseEach(done)), n), n, ParsePart(part).value)
  {
    var before, p := Collect(Kept, ParseEach(done)), ParsePart(part).value;
    ParseSnoc(done, part);
    CollectOne(EncodeSigned, before, p);
    forall n
      ensures SlotOf(before + [p], n) == AnySet(SlotOf(before, n), n, p)
    {
      CollectOne(ValueUnder(n), before, p);
    }
  }

  // ---------- the canonical query is a complete invariant ----------

  /** Everything the verifier learns from a query depends only on the multiset of its decoded parts. */
  lemma PermutedPartsSayTheSame(q1: Bytes, q2: Bytes)
    requires multiset(Parsed(q1)) == multiset(Parsed(q2))
    ensures Accepted(q1) <==> Accepted(q2)
    ensures CanonicalOf(Params(q1)) == CanonicalOf(Params(q2))
    ensures forall name :: Single(Params(q1), name) == Single(Params(q2), name)
  {
    assert None in Parsed(q1) <==> None in multiset(Parsed(q1));
    assert None in Parsed(q2) <==> None in multiset(Parsed(q2));
    CollectPermutes(Kept, Parsed(q1), Parsed(q2));
    var p1, p2 := Params(q1), Params(q2);
    CollectPermutes(EncodeSigned, p1, p2);
    SortedUnique(SortParams(EncodedSigned(p1)), SortParams(EncodedSigned(p2)));
    forall name
      ensures Single(p1, name) == Single(p2, name)
    {
      CollectPermutes(ValueUnder(name), p1, p2);
      SingletonFromMultiset(ValuesOf(p1, name), ValuesOf(p2, name));
    }
  }

  /** Reordering the `&`-separated parts permutes the decoded parts. */
  lemma ReorderedParts(q1: Bytes, q2: Bytes)
    requires multiset(Parts(q1)) == multiset(Parts(q2))
    ensures multiset(Parsed(q1)) == multiset(Parsed(q2))
  {
    CollectPermutes(ParseOne, Parts(q1), Parts(q2));
  }

  /** Two raw components are interchangeable when they decode alike. */
  predicate SameMeaning(a: Bytes, b: Bytes) {
    (a == [] <==> b == []) && Decode(RawName(a)) == Decode(RawName(b)) && Decode(RawValue(a)) == Decode(RawValue(b))
  }

  /** Re-encoding components in place leaves the decoded parts as they were. */
  lemma {:induction false} ReencodedParts(parts1: seq<Bytes>, parts2: seq<Bytes>)
    requires |parts1| == |parts2|
    requires forall i :: 0 <= i < |parts1| ==> SameMeaning(parts1[i], parts2[i])
    ensures ParseEach(parts1) == ParseEach(parts2)
  {
    if parts1 == [] {
    } else {
      assert SameMeaning(parts1[0], parts2[0]);
      ReencodedParts(parts1[1..], parts2[1..]);
    }
  }

  /** A canonically encoded parameter that a canonical query can contain. */
  predicate CleanEncoded(e: Param) {
    var n, v := Decode(e.name), Decode(e.value);
    n.Some? && v.Some? && e.name == Encode(n.value) && e.value == Encode(v.value)
    && n.value != [] && n.value != X_AMZ_SIGNATURE && (IsKnownName(n.value) ==> ValidUtf8(v.value))
  }

  predicate AllClean(s: seq<Param>) { forall i :: 0 <= i < |s| ==> CleanEncoded(s[i]) }

  predicate WellTyped(p: Param) { p.name != [] && (IsKnownName(p.name) ==> ValidUtf8(p.value)) }

  lemma {:induction false} ParamsWellTyped(parsed: seq<Option<Param>>, parts: seq<Bytes>)
    requires parsed == ParseEach(parts)
    ensures forall i :: 0 <= i < |Collect(Kept, parsed)| ==> WellTyped(Collect(Kept, parsed)[i])
    decreases |parts|
  {
    if parts == [] {
    } else {
      ParamsWellTyped(ParseEach(parts[1..]), parts[1..]);
      assert parsed == [ParsePart(parts[0])] + ParseEach(parts[1..]);
      assert parsed[1..] == ParseEach(parts[1..]);
    }
  }

  lemma {:induction false} EncodedSignedClean(params: seq<Param>)
    requires forall i :: 0 <= i < |params| ==> WellTyped(params[i])
    ensures AllClean(EncodedSigned(params))
  {
    if params == [] {
    } else {
      EncodedSignedClean(params[1..]);
      DecodeEncode(params[0].name);
      DecodeEncode(params[0].value);
    }
  }

  lemma SortedClean(s: seq<Param>)
    requires AllClean(s)
    ensures AllClean(SortParams(s))
  {
    forall i | 0 <= i < |SortParams(s)|
      ensures CleanEncoded(SortParams(s)[i])
    {
      assert SortParams(s)[i] in multiset(s);
    }
  }

  /** A raw parameter that parses, whatever its spelling: its `&` and `=` are the ones rendering adds. */
  predicate WellFormedRaw(e: Param) {
    && AMP !in e.name && EQUALS !in e.name && AMP !in e.value
    && Decode(e.name).Some? && Decode(e.name).value != [] && Decode(e.value).Some?
    && (IsKnownName(Decode(e.name).value) ==> ValidUtf8(Decode(e.value).value))
  }

  predicate AllWellFormed(s: seq<Param>) { forall i :: 0 <= i < |s| ==> WellFormedRaw(s[i]) }

  lemma CleanIsWellFormed(e: Param)
    requires CleanEncoded(e)
    ensures WellFormedRaw(e)
  {
    EncodeAlphabet(Decode(e.name).value);
    EncodeAlphabet(Decode(e.value).value);
  }

  lemma AllCleanIsWellFormed(s: seq<Param>)
    requires AllClean(s)
    ensures AllWellFormed(s)
  {
    forall i | 0 <= i < |s| ensures WellFormedRaw(s[i]) { CleanIsWellFormed(s[i]); }
  }

  lemma RenderedPart(e: Param)
    requires WellFormedRaw(e)
    ensures AMP !in RenderOne(e) && RenderOne(e) != []
    ensures RawName(RenderOne(e)) == e.name && RawValue(RenderOne(e)) == e.value
  {
    SplitFirst(e.name, EQUALS, e.value);
  }

  /** Joining is injective: the rendered text splits back into the rendered parameters. */
  lemma SplitRendered(s: seq<Param>)
    requires AllWellFormed(s)
    ensures Parts(Render(s)) == RenderEach(s)
  {
    if s != [] {
      forall i | 0 <= i < |s|
        ensures AMP !in RenderEach(s)[i]
      {
        RenderedPart(s[i]);
      }
      SplitJoin(RenderEach(s), AMP);
      SplitNone([], AMP);
      RenderedPart(s[0]);
      assert RenderEach(s)[0] == RenderOne(s[0]);
    }
  }

  lemma RenderInjective(s: seq<Param>, t: seq<Param>)
    requires AllClean(s) && AllClean(t) && Render(s) == Render(t)
    ensures s == t
  {
    AllCleanIsWellFormed(s);
    AllCleanIsWellFormed(t);
    SplitRendered(s);
    SplitRendered(t);
    assert |s| == |RenderEach(s)| == |t|;
    forall i | 0 <= i < |s|
      ensures s[i] == t[i]
    {
      RenderedPart(s[i]);
      RenderedPart(t[i]);
      assert RenderEach(s)[i] == RenderEach(t)[i];
    }
  }

  function DecodeParam(e: Param): seq<Param> {
    match (Decode(e.name), Decode(e.value))
    case (Some(n), Some(v)) => [Param(n, v)]
    case _ => []
  }

  lemma {:induction false} DecodeEncodedSigned(params: seq<Param>)
    ensures Collect(DecodeParam, EncodedSigned(params)) == Signed(params)
  {
    if params == [] {
    } else {
      DecodeEncodedSigned(params[1..]);
      DecodeEncode(params[0].name);
      DecodeEncode(params[0].value);
      var e := EncodeParam(params[0]);
      assert [e][1..] == [];
      CollectConcat(DecodeParam, EncodeSigned(params[0]), EncodedSigned(params[1..]));
    }
  }

  lemma {:induction false} EncodedSignedOfSigned(params: seq<Param>)
    ensures EncodedSigned(Signed(params)) == EncodedSigned(params)
  {
    if params == [] {
    } else {
      EncodedSignedOfSigned(params[1..]);
      CollectConcat(EncodeSigned, SignedOne(params[0]), Signed(params[1..]));
      assert [params[0]][1..] == [];
    }
  }

  /**
    Two accepted queries have the same canonical string exactly when they carry the same multiset of
    decoded parameters, the signature left out.
   */
  lemma CanonicalQueryIsCompleteInvariant(q1: Bytes, q2: Bytes)
    requires Accepted(q1) && Accepted(q2)
    ensures CanonicalOf(Params(q1)) == CanonicalOf(Params(q2))
       <==> multiset(Signed(Params(q1))) == multiset(Signed(Params(q2)))
  {
    var p1, p2 := Params(q1), Params(q2);
    var e1, e2 := EncodedSigned(p1), EncodedSigned(p2);
    if CanonicalOf(p1) == CanonicalOf(p2) {
      ParamsWellTyped(Parsed(q1), Parts(q1));
      ParamsWellTyped(Parsed(q2), Parts(q2));
      EncodedSignedClean(p1);
      EncodedSignedClean(p2);
      SortedClean(e1);
      SortedClean(e2);
      RenderInjective(SortParams(e1), SortParams(e2));
      CollectPermutes(DecodeParam, e1, e2);
      DecodeEncodedSigned(p1);
      DecodeEncodedSigned(p2);
    }
    if multiset(Signed(p1)) == multiset(Signed(p2)) {
      CollectPermutes(EncodeSigned, Signed(p1), Signed(p2));
      EncodedSignedOfSigned(p1);
      EncodedSignedOfSigned(p2);
      SortedUnique(SortParams(e1), SortParams(e2));
    }
  }

  // ---------- the canonical query is a fixed point ----------

  lemma RenderedParses(e: Param)
    requires WellFormedRaw(e)
    ensures var p := Param(Decode(e.name).value, Decode(e.value).value);
            ParsePart(RenderOne(e)) == Some(p) && DecodeParam(e) == [p]
  {
    RenderedPart(e);
  }

  lemma RenderEachCons(e: Param, rest: seq<Param>)
    ensures RenderEach([e] + rest) == [RenderOne(e)] + RenderEach(rest)
  {
  }

  /** Rendered parameters parse to their decodings, in order. */
  lemma {:induction false} ParseRendered(s: seq<Param>)
    requires AllWellFormed(s)
    ensures None !in ParseEach(RenderEach(s))
    ensures Collect(Kept, ParseEach(RenderEach(s))) == Collect(DecodeParam, s)
  {
    if s == [] {
    } else {
      var e, rest := s[0], s[1..];
      assert s == [e] + rest && WellFormedRaw(e);
      ParseRendered(rest);
      RenderedParses(e);
      var p := Param(Decode(e.name).value, Decode(e.value).value);
      RenderEachCons(e, rest);
      CollectCons(ParseOne, RenderOne(e), RenderEach(rest));
      CollectCons(Kept, Some(p), ParseEach(RenderEach(rest)));
      CollectCons(DecodeParam, e, rest);
    }
  }

  /** The query rendered from well-formed raw parameters is accepted and says what they decode to. */
  lemma RenderedQuery(s: seq<Param>)
    requires AllWellFormed(s)
    ensures Accepted(Render(s)) && Params(Render(s)) == Collect(DecodeParam, s)
  {
    SplitRendered(s);
    ParseRendered(s);
  }

  lemma {:induction false} ReencodeDecoded(s: seq<Param>)
    requires AllClean(s)
    ensures EncodedSigned(Collect(DecodeParam, s)) == s
  {
    if s == [] {
    } else {
      var e, rest := s[0], s[1..];
      assert s == [e] + rest && CleanEncoded(e);
      ReencodeDecoded(rest);
      var p := Param(Decode(e.name).value, Decode(e.value).value);
      CollectCons(DecodeParam, e, rest);
      assert DecodeParam(e) == [p] && EncodeSigned(p) == [e];
      CollectCons(EncodeSigned, p, Collect(DecodeParam, rest));
    }
  }

  /** Canonicalising a canonical query succeeds and changes nothing. */
  lemma CanonicalQueryIsFixedPoint(q: Bytes)
    requires Accepted(q)
    ensures var c := CanonicalOf(Params(q));
            Accepted(c) && CanonicalOf(Params(c)) == c && multiset(Params(c)) == multiset(Signed(Params(q)))
  {
    var p := Params(q);
    var s := SortParams(EncodedSigned(p));
    var c := Render(s);
    ParamsWellTyped(Parsed(q), Parts(q));
    EncodedSignedClean(p);
    SortedClean(EncodedSigned(p));
    AllCleanIsWellFormed(s);
    RenderedQuery(s);
    ReencodeDecoded(s);
    SortedUnique(SortParams(s), s);
    CollectPermutes(DecodeParam, s, EncodedSigned(p));
    DecodeEncodedSigned(p);
  }
}
