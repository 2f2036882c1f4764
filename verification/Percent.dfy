/** Hex digits and the percent codec, sections 2.1 and 2.3 of RFC 3986. */
module Percent {
  import opened Wrappers
  import opened ByteStrings
  import opened Seqs

  predicate IsUnreserved(c: byte) {
    IsDigit(c) || IsUpper(c) || IsLower(c) || c == MINUS || c == DOT || c == UNDERSCORE || c == TILDE
  }

  predicate IsHex(c: byte) { IsDigit(c) || 0x41 <= c <= 0x46 || 0x61 <= c <= 0x66 }

  function FromHex(c: byte): (n: nat)
    requires IsHex(c)
    ensures n < 16
  {
    if IsDigit(c) then c - 0x30 else if c >= 0x61 then c - 0x61 + 10 else c - 0x41 + 10
  }

  /** Section 6.2.2.1 of RFC 3986: the hex digits of an escape are normalised to upper case. */
  function UpperHex(c: byte): byte { ToUpper(c) }

  function HexUpper(n: nat): byte
    requires n < 16
  {
    if n < 10 then 0x30 + n else 0x41 + n - 10
  }

  function HexLower(n: nat): byte
    requires n < 16
  {
    if n < 10 then 0x30 + n else 0x61 + n - 10
  }

  /** True when `s` begins with a complete escape; the source tests `i + 2 < len` and two hex digits. */
  predicate HasEscape(s: Bytes) { |s| >= 3 && s[0] == PERCENT && IsHex(s[1]) && IsHex(s[2]) }

  function EscapedByte(s: Bytes): (b: byte)
    requires HasEscape(s)
  {
    FromHex(s[1]) * 16 + FromHex(s[2])
  }

  function EscapeByte(c: byte): (s: Bytes)
    ensures |s| == 3
  {
    [PERCENT, HexUpper(c / 16), HexUpper(c % 16)]
  }

  function Prepend(d: Bytes, r: Option<Bytes>): Option<Bytes> {
    match r case None => None case Some(t) => Some(d + t)
  }

  /** The bytes a percent-encoded string stands for; `None` for a malformed escape. */
  function Decode(s: Bytes): Option<Bytes>
    decreases |s|
  {
    if s == [] then Some([])
    else if s[0] != PERCENT then Prepend([s[0]], Decode(s[1..]))
    else if HasEscape(s) then Prepend([EscapedByte(s)], Decode(s[3..]))
    else None
  }

  function EncodeByte(c: byte): (s: Bytes)
    ensures |s| >= 1
  {
    if IsUnreserved(c) then [c] else EscapeByte(c)
  }

  /** The canonical encoding: unreserved bytes stay, every other byte becomes an upper-case escape. */
  function Encode(s: Bytes): (r: Bytes)
    ensures |r| >= |s|
  {
    if s == [] then [] else EncodeByte(s[0]) + Encode(s[1..])
  }

  predicate AllUnreserved(s: Bytes) { forall i :: 0 <= i < |s| ==> IsUnreserved(s[i]) }

  // ---------- laws of the codec ----------

  lemma PrependTwice(a: Bytes, b: Bytes, r: Option<Bytes>)
    ensures Prepend(a, Prepend(b, r)) == Prepend(a + b, r)
  {
    if r.Some? { assert a + (b + r.value) == a + b + r.value; }
  }

  lemma PrependNothing(r: Option<Bytes>)
    ensures Prepend([], r) == r
  {
    if r.Some? { assert [] + r.value == r.value; }
  }

  lemma EscapeDecodes(c: byte, rest: Bytes)
    ensures Decode(EscapeByte(c) + rest) == Prepend([c], Decode(rest))
  {
    var s := EscapeByte(c) + rest;
    assert s[3..] == rest;
    assert HasEscape(s) && EscapedByte(s) == c;
  }

  lemma {:induction false} DecodeEncodeThen(s: Bytes, rest: Bytes)
    ensures Decode(Encode(s) + rest) == Prepend(s, Decode(rest))
  {
    if s == [] {
      assert Encode(s) + rest == rest;
      PrependNothing(Decode(rest));
    } else {
      var tail := Encode(s[1..]) + rest;
      assert Encode(s) + rest == EncodeByte(s[0]) + tail;
      if IsUnreserved(s[0]) { assert ([s[0]] + tail)[1..] == tail; } else { EscapeDecodes(s[0], tail); }
      DecodeEncodeThen(s[1..], rest);
      PrependTwice([s[0]], s[1..], Decode(rest));
      assert [s[0]] + s[1..] == s;
    }
  }

  /** Round trip: an encoded string decodes to what was encoded. */
  lemma DecodeEncode(s: Bytes)
    ensures Decode(Encode(s)) == Some(s)
  {
    DecodeEncodeThen(s, []);
    assert Encode(s) + [] == Encode(s) && s + [] == s;
  }

  lemma EncodeInjective(s: Bytes, t: Bytes)
    requires Encode(s) == Encode(t)
    ensures s == t
  {
    DecodeEncode(s);
    DecodeEncode(t);
  }

  /** The encoder's alphabet: no separator, space or control byte can appear in an encoded component. */
  lemma {:induction false} EncodeAlphabet(s: Bytes)
    ensures forall i :: 0 <= i < |Encode(s)| ==> IsUnreserved(Encode(s)[i]) || Encode(s)[i] == PERCENT
  {
    if s == [] {
    } else {
      EncodeAlphabet(s[1..]);
    }
  }

  lemma {:induction false} EncodeConcat(s: Bytes, t: Bytes)
    ensures Encode(s + t) == Encode(s) + Encode(t)
  {
    if s == [] {
      assert s + t == t;
    } else {
      EncodeConcat(s[1..], t);
      assert (s + t)[1..] == s[1..] + t && (s + t)[0] == s[0];
      Associate(EncodeByte(s[0]), Encode(s[1..]), Encode(t));
    }
  }

  /** On unreserved bytes the codec is the identity: this is what lets the fast path borrow its input. */
  lemma {:induction false} UnreservedIsFixed(s: Bytes)
    requires AllUnreserved(s)
    ensures Decode(s) == Some(s) && Encode(s) == s
  {
    if s == [] {
    } else {
      UnreservedIsFixed(s[1..]);
      assert s == [s[0]] + s[1..];
    }
  }

  /** The fixed points of decode-then-encode are exactly the encodings. */
  lemma FixedPointIffEncoded(raw: Bytes)
    requires Decode(raw).Some?
    ensures Encode(Decode(raw).value) == raw <==> exists d :: raw == Encode(d)
  {
    if d :| raw == Encode(d) {
      DecodeEncode(d);
    }
  }

  /** A byte that is neither `%` nor a hex digit cuts an encoded string into two that decode on their own. */
  lemma {:induction false} DecodeAtSeparator(a: Bytes, c: byte, b: Bytes)
    requires c != PERCENT && !IsHex(c)
    ensures Decode(a + [c] + b)
         == match Decode(a) case None => None case Some(d) => Prepend(d + [c], Decode(b))
    decreases |a|
  {
    var s := a + [c] + b;
    if a == [] {
      assert s[1..] == b && [] + [c] == [c];
    } else if a[0] != PERCENT {
      DecodeAtSeparator(a[1..], c, b);
      assert s[1..] == a[1..] + [c] + b;
      Regroup([a[0]], Decode(a[1..]), [c], Decode(b));
    } else if HasEscape(a) {
      DecodeAtSeparator(a[3..], c, b);
      assert s[3..] == a[3..] + [c] + b;
      assert HasEscape(s) && EscapedByte(s) == EscapedByte(a);
      Regroup([EscapedByte(a)], Decode(a[3..]), [c], Decode(b));
    } else {
      assert |a| <= 2 ==> s[|a|] == c;
    }
  }

  lemma Regroup(x: Bytes, d: Option<Bytes>, c: Bytes, r: Option<Bytes>)
    ensures d.Some? ==> Prepend(x, Prepend(d.value + c, r)) == Prepend(x + d.value + c, r)
  {
    if d.Some? {
      PrependTwice(x, d.value + c, r);
      Associate(x, d.value, c);
    }
  }

  // ---------- the loops of the verifier ----------

  method PercentDecode(value: Bytes) returns (r: Option<Bytes>)
    ensures r == Decode(value)
  {
    var out: Bytes := [];
    var i := 0;
    PrependNothing(Decode(value));
    assert value[i..] == value;
    while i < |value|
      invariant 0 <= i <= |value|
      invariant Decode(value) == Prepend(out, Decode(value[i..]))
    {
      var c := value[i];
      ghost var rest := value[i..];
      if c != PERCENT {
        PrependTwice(out, [c], Decode(rest[1..]));
        out := out + [c];
        i := i + 1;
        assert rest[1..] == value[i..];
        continue;
      }
      if i + 2 >= |value| || !IsHex(value[i + 1]) || !IsHex(value[i + 2]) {
        return None;
      }
      PrependTwice(out, [EscapedByte(rest)], Decode(rest[3..]));
      out := out + [FromHex(value[i + 1]) * 16 + FromHex(value[i + 2])];
      i := i + 3;
      assert rest[3..] == value[i..];
    }
    assert value[i..] == [] && out + [] == out;
    return Some(out);
  }

  /** Errs exactly when decoding errs; otherwise says whether some byte is not unreserved. */
  method QueryComponentNeedsSlowPath(raw: Bytes) returns (slow: Option<bool>)
    ensures slow.None? <==> Decode(raw).None?
    ensures slow.Some? ==> (slow.value <==> !AllUnreserved(raw))
  {
    var found := false;
    var i := 0;
    assert raw[i..] == raw;
    while i < |raw|
      invariant 0 <= i <= |raw|
      invariant Decode(raw).None? <==> Decode(raw[i..]).None?
      invariant found <==> exists k :: 0 <= k < i && !IsUnreserved(raw[k])
    {
      var c := raw[i];
      ghost var rest := raw[i..];
      if c == PERCENT {
        if i + 2 >= |raw| || !IsHex(raw[i + 1]) || !IsHex(raw[i + 2]) {
          return None;
        }
        found := true;
        assert !IsUnreserved(raw[i]);
        i := i + 3;
        assert rest[3..] == raw[i..];
        continue;
      }
      if !IsUnreserved(c) {
        found := true;
      }
      i := i + 1;
      assert rest[1..] == raw[i..];
    }
    return Some(found);
  }

  /**
    The canonical re-encoding of a query component and, on request, its decoded form.  The fast branch
    returns the input itself; both branches compute the same function of what the input decodes to.
   */
  method CanonicalizeQueryComponent(raw: Bytes, wantDecoded: bool)
    returns (r: Option<(Bytes, Option<Bytes>)>)
    ensures r.None? <==> Decode(raw).None?
    ensures r.Some? ==> r.value.0 == Encode(Decode(raw).value)
    ensures r.Some? ==> r.value.1 == if wantDecoded then Decode(raw) else None
  {
    var slow := QueryComponentNeedsSlowPath(raw);
    if slow.None? {
      return None;
    }
    if !slow.value {
      UnreservedIsFixed(raw);
      return Some((raw, if wantDecoded then Some(raw) else None));
    }
    var encoded: Bytes := [];
    var decoded: Option<Bytes> := if wantDecoded then Some([]) else None;
    ghost var d: Bytes := [];
    var i := 0;
    PrependNothing(Decode(raw));
    assert raw[i..] == raw;
    while i < |raw|
      invariant 0 <= i <= |raw|
      invariant Decode(raw) == Prepend(d, Decode(raw[i..]))
      invariant encoded == Encode(d)
      invariant decoded == if wantDecoded then Some(d) else None
    {
      var c := raw[i];
      var b: byte;
      ghost var rest := raw[i..];
      if c == PERCENT {
        if i + 2 >= |raw| || !IsHex(raw[i + 1]) || !IsHex(raw[i + 2]) {
          return None;
        }
        b := FromHex(raw[i + 1]) * 16 + FromHex(raw[i + 2]);
        i := i + 3;
        assert rest[3..] == raw[i..];
      } else {
        i := i + 1;
        b := c;
        assert rest[1..] == raw[i..];
      }
      PrependTwice(d, [b], Decode(raw[i..]));
      EncodeConcat(d, [b]);
      assert Encode([b]) == EncodeByte(b) by { assert [b][1..] == []; }
      d := d + [b];
      decoded := match decoded case None => None case Some(so) => Some(so + [b]);
      if IsUnreserved(b) {
        encoded := encoded + [b];
      } else {
        encoded := encoded + EscapeByte(b);
      }
    }
    assert raw[i..] == [] && d + [] == d;
    return Some((encoded, decoded));
  }
}
