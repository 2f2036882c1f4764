/** UTF-8 and Unicode white space, against the code points they encode. */
module Unicode {
  import opened ByteStrings

  predicate IsScalar(cp: nat) { cp < 0xD800 || 0xE000 <= cp <= 0x10FFFF }

  /** The encoding of one code point, section 3 of RFC 3629. */
  function Utf8(cp: nat): (s: Bytes)
    requires IsScalar(cp)
    ensures 1 <= |s| <= 4
  {
    if cp < 0x80 then [cp]
    else if cp < 0x800 then [0xC0 + cp / 64, 0x80 + cp % 64]
    else if cp < 0x1_0000 then [0xE0 + cp / 4096, 0x80 + cp / 64 % 64, 0x80 + cp % 64]
    else [0xF0 + cp / 262144, 0x80 + cp / 4096 % 64, 0x80 + cp / 64 % 64, 0x80 + cp % 64]
  }

  predicate AllScalars(cps: seq<nat>) { forall i :: 0 <= i < |cps| ==> IsScalar(cps[i]) }

  function Encoded(cps: seq<nat>): Bytes
    requires AllScalars(cps)
  {
    if cps == [] then [] else Utf8(cps[0]) + Encoded(cps[1..])
  }

  lemma EncodedCharLength(cp: nat, rest: Bytes)
    requires IsScalar(cp)
    ensures CharLength(Utf8(cp) + rest) == |Utf8(cp)|
  {
  }

  lemma TwoBytes(a: nat, b: nat)
    requires 2 <= a < 32 && b < 64
    ensures IsScalar(a * 64 + b) && Utf8(a * 64 + b) == [0xC0 + a, 0x80 + b]
  {
  }

  lemma ThreeBytes(a: nat, b: nat, c: nat)
    requires a < 16 && b < 64 && c < 64 && (a == 0 ==> b >= 32) && (a == 13 ==> b < 32)
    ensures IsScalar(a * 4096 + b * 64 + c)
    ensures Utf8(a * 4096 + b * 64 + c) == [0xE0 + a, 0x80 + b, 0x80 + c]
  {
    var cp := a * 4096 + b * 64 + c;
    assert cp / 64 == a * 64 + b;
  }

  lemma FourBytes(a: nat, b: nat, c: nat, d: nat)
    requires a < 5 && b < 64 && c < 64 && d < 64 && (a == 0 ==> b >= 16) && (a == 4 ==> b < 16)
    ensures IsScalar(a * 262144 + b * 4096 + c * 64 + d)
    ensures Utf8(a * 262144 + b * 4096 + c * 64 + d) == [0xF0 + a, 0x80 + b, 0x80 + c, 0x80 + d]
  {
    var cp := a * 262144 + b * 4096 + c * 64 + d;
    assert cp / 64 == a * 4096 + b * 64 + c;
    assert cp / 4096 == a * 64 + b;
  }

  /** A well-formed character is the encoding of a code point. */
  lemma CharIsEncoded(s: Bytes) returns (cp: nat)
    requires CharLength(s) > 0
    ensures IsScalar(cp) && s[..CharLength(s)] == Utf8(cp)
  {
    var n := CharLength(s);
    if n == 1 {
      cp := s[0];
    } else if n == 2 {
      var a: nat, b: nat := s[0] - 0xC0, s[1] - 0x80;
      cp := a * 64 + b;
      TwoBytes(a, b);
    } else if n == 3 {
      var a: nat, b: nat, c: nat := s[0] - 0xE0, s[1] - 0x80, s[2] - 0x80;
      cp := a * 4096 + b * 64 + c;
      ThreeBytes(a, b, c);
    } else {
      var a: nat, b: nat, c: nat, d: nat := s[0] - 0xF0, s[1] - 0x80, s[2] - 0x80, s[3] - 0x80;
      cp := a * 262144 + b * 4096 + c * 64 + d;
      FourBytes(a, b, c, d);
    }
  }

  lemma {:induction false} EncodedIsValid(cps: seq<nat>)
    requires AllScalars(cps)
    ensures ValidUtf8(Encoded(cps))
  {
    if cps == [] {
    } else {
      var rest := Encoded(cps[1..]);
      EncodedIsValid(cps[1..]);
      EncodedCharLength(cps[0], rest);
      assert (Utf8(cps[0]) + rest)[|Utf8(cps[0])|..] == rest;
    }
  }

  lemma {:induction false} ValidIsEncoded(s: Bytes) returns (cps: seq<nat>)
    requires ValidUtf8(s)
    ensures AllScalars(cps) && s == Encoded(cps)
    decreases |s|
  {
    if s == [] {
      cps := [];
    } else {
      var n := CharLength(s);
      var cp := CharIsEncoded(s);
      var rest := ValidIsEncoded(s[n..]);
      cps := [cp] + rest;
      assert cps[1..] == rest;
      assert s == s[..n] + s[n..];
    }
  }

  /** The validity test accepts exactly the encodings of sequences of code points that are not surrogates. */
  lemma ValidUtf8Iff(s: Bytes)
    ensures ValidUtf8(s) <==> exists cps :: AllScalars(cps) && s == Encoded(cps)
  {
    if ValidUtf8(s) {
      var cps := ValidIsEncoded(s);
    }
    if cps :| AllScalars(cps) && s == Encoded(cps) {
      EncodedIsValid(cps);
    }
  }

  // ---------- white space ----------

  /** The code points with the Unicode property White_Space. */
  predicate IsWhiteSpace(cp: nat) {
    || 0x9 <= cp <= 0xD || cp == 0x20 || cp == 0x85 || cp == 0xA0 || cp == 0x1680
    || 0x2000 <= cp <= 0x200A || cp == 0x2028 || cp == 0x2029 || cp == 0x202F || cp == 0x205F || cp == 0x3000
  }

  predicate AllWhiteSpace(cps: seq<nat>) { forall i :: 0 <= i < |cps| ==> IsWhiteSpace(cps[i]) }

  lemma SpaceIsWhiteSpace(s: Bytes) returns (cp: nat)
    requires SpaceLength(s) > 0
    ensures IsWhiteSpace(cp) && s == Utf8(cp)
  {
    if |s| == 1 {
      cp := s[0];
    } else if |s| == 2 {
      var a: nat, b: nat := s[0] - 0xC0, s[1] - 0x80;
      cp := a * 64 + b;
      TwoBytes(a, b);
    } else {
      var a: nat, b: nat, c: nat := s[0] - 0xE0, s[1] - 0x80, s[2] - 0x80;
      cp := a * 4096 + b * 64 + c;
      ThreeBytes(a, b, c);
    }
  }

  lemma WhiteSpaceIsSpace(cp: nat)
    requires IsWhiteSpace(cp)
    ensures SpaceLength(Utf8(cp)) == |Utf8(cp)|
  {
  }

  /** The text of a run of white space. */
  function Blank(cps: seq<nat>): Bytes
    requires AllWhiteSpace(cps)
  {
    if cps == [] then [] else Utf8(cps[0]) + Blank(cps[1..])
  }

  ghost predicate BeginsBlank(s: Bytes) { exists cp :: IsWhiteSpace(cp) && Utf8(cp) <= s }

  ghost predicate EndsBlank(s: Bytes) {
    exists cp :: IsWhiteSpace(cp) && |Utf8(cp)| <= |s| && s[|s| - |Utf8(cp)|..] == Utf8(cp)
  }

  lemma FrontSpaceIs(s: Bytes) returns (cp: nat)
    requires FrontSpace(s) > 0
    ensures IsWhiteSpace(cp) && s[..FrontSpace(s)] == Utf8(cp)
  {
    cp := SpaceIsWhiteSpace(s[..FrontSpace(s)]);
  }

  lemma BackSpaceIs(s: Bytes) returns (cp: nat)
    requires BackSpace(s) > 0
    ensures IsWhiteSpace(cp) && s[|s| - BackSpace(s)..] == Utf8(cp)
  {
    cp := SpaceIsWhiteSpace(s[|s| - BackSpace(s)..]);
  }

  lemma FrontSpaceSeen(s: Bytes, cp: nat)
    requires IsWhiteSpace(cp) && Utf8(cp) <= s
    ensures FrontSpace(s) > 0
  {
    WhiteSpaceIsSpace(cp);
    assert s[..|Utf8(cp)|] == Utf8(cp);
  }

  lemma BackSpaceSeen(s: Bytes, cp: nat)
    requires IsWhiteSpace(cp) && |Utf8(cp)| <= |s| && s[|s| - |Utf8(cp)|..] == Utf8(cp)
    ensures BackSpace(s) > 0
  {
    WhiteSpaceIsSpace(cp);
  }

  lemma CutFront(s: Bytes, n: nat, cp: nat, blank: Bytes, kept: Bytes)
    requires IsWhiteSpace(cp) && n <= |s| && s[..n] == Utf8(cp) && s[n..] == blank + kept
    ensures s == Utf8(cp) + blank + kept
  {
    assert s == s[..n] + s[n..];
  }

  lemma CutBack(s: Bytes, n: nat, cp: nat, kept: Bytes, blank: Bytes)
    requires IsWhiteSpace(cp) && n <= |s| && s[n..] == Utf8(cp) && s[..n] == kept + blank
    ensures s == kept + (blank + Utf8(cp))
  {
    assert s == s[..n] + s[n..];
  }

  lemma {:induction false} TrimStartIs(s: Bytes) returns (cps: seq<nat>)
    ensures AllWhiteSpace(cps) && s == Blank(cps) + TrimStart(s) && FrontSpace(TrimStart(s)) == 0
    decreases |s|
  {
    var n := FrontSpace(s);
    if n == 0 {
      cps := [];
    } else {
      var cp := FrontSpaceIs(s);
      var rest := TrimStartIs(s[n..]);
      cps := [cp] + rest;
      assert cps[1..] == rest;
      CutFront(s, n, cp, Blank(rest), TrimStart(s[n..]));
    }
  }

  lemma {:induction false} BlankSnoc(cps: seq<nat>, cp: nat)
    requires AllWhiteSpace(cps) && IsWhiteSpace(cp)
    ensures Blank(cps + [cp]) == Blank(cps) + Utf8(cp)
  {
    if cps == [] {
      assert [cp][1..] == [];
    } else {
      BlankSnoc(cps[1..], cp);
      assert (cps + [cp])[1..] == cps[1..] + [cp];
    }
  }

  lemma AddBack(s: Bytes, n: nat, cp: nat, kept: Bytes, front: seq<nat>)
    requires IsWhiteSpace(cp) && AllWhiteSpace(front) && n <= |s| && s[n..] == Utf8(cp) && s[..n] == kept + Blank(front)
    ensures AllWhiteSpace(front + [cp]) && s == kept + Blank(front + [cp])
  {
    BlankSnoc(front, cp);
    CutBack(s, n, cp, kept, Blank(front));
  }

  lemma {:induction false} TrimEndIs(s: Bytes) returns (cps: seq<nat>)
    ensures AllWhiteSpace(cps) && s == TrimEnd(s) + Blank(cps)
    decreases |s|
  {
    if BackSpace(s) == 0 {
      cps := [];
      assert s == s + Blank([]);
    } else {
      var cp := BackSpaceIs(s);
      var n := |s| - BackSpace(s);
      var front := TrimEndIs(s[..n]);
      cps := front + [cp];
      AddBack(s, n, cp, TrimEnd(s[..n]), front);
    }
  }

  lemma {:induction false} TrimEndLeavesNone(s: Bytes)
    ensures BackSpace(TrimEnd(s)) == 0
    decreases |s|
  {
    if BackSpace(s) == 0 {
    } else {
      TrimEndLeavesNone(s[..|s| - BackSpace(s)]);
    }
  }

  lemma Nested(s: Bytes, a: Bytes, t: Bytes, u: Bytes, b: Bytes)
    requires s == a + t && t == u + b
    ensures s == a + u + b && u <= t
  {
  }

  lemma EndsClean(t: Bytes, u: Bytes)
    requires u <= t && FrontSpace(t) == 0 && BackSpace(u) == 0
    ensures !BeginsBlank(u) && !EndsBlank(u)
  {
    forall cp | IsWhiteSpace(cp) ensures !(Utf8(cp) <= u) {
      if Utf8(cp) <= u { FrontSpaceSeen(t, cp); }
    }
    forall cp | IsWhiteSpace(cp)
      ensures !(|Utf8(cp)| <= |u| && u[|u| - |Utf8(cp)|..] == Utf8(cp))
    {
      if |Utf8(cp)| <= |u| && u[|u| - |Utf8(cp)|..] == Utf8(cp) { BackSpaceSeen(u, cp); }
    }
  }

  /** Trimming takes white space off both ends, and leaves none there. */
  lemma TrimIs(s: Bytes) returns (front: seq<nat>, back: seq<nat>)
    ensures AllWhiteSpace(front) && AllWhiteSpace(back) && s == Blank(front) + Trim(s) + Blank(back)
    ensures !BeginsBlank(Trim(s)) && !EndsBlank(Trim(s))
  {
    var t := TrimStart(s);
    front := TrimStartIs(s);
    back := TrimEndIs(t);
    TrimEndLeavesNone(t);
    Nested(s, Blank(front), t, TrimEnd(t), Blank(back));
    EndsClean(t, TrimEnd(t));
  }
}
