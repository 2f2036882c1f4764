/** The byte classes, against the tables and grammars that define them. */
module Alphabets {
  import opened Wrappers
  import opened ByteStrings
  import opened Crypto
  import opened Percent
  import opened Decimals
  import opened Paths
  import opened Compile

  /** The bytes from `first` to `last`. */
  function Range(first: char, last: char): (r: Bytes)
    requires first <= last < 128 as char
    ensures |r| == last as int - first as int + 1
    ensures forall i :: 0 <= i < |r| ==> r[i] == first as int + i
  {
    seq(last as int - first as int + 1, i requires 0 <= i <= last as int - first as int => first as int + i)
  }

  const UPPER: Bytes := Range('A', 'Z')
  const LOWER: Bytes := Range('a', 'z')
  const DIGITS: Bytes := Lit("0123456789")
  const HEX_UPPER: Bytes := Lit("0123456789ABCDEF")
  const HEX_LOWER: Bytes := Lit("0123456789abcdef")

  /** Section 2.3 of RFC 3986: ALPHA / DIGIT / "-" / "." / "_" / "~". */
  const UNRESERVED: Bytes := UPPER + LOWER + Range('0', '9') + Lit("-._~")

  lemma InRange(first: char, last: char, c: byte)
    requires first <= last < 128 as char
    ensures c in Range(first, last) <==> first as int <= c <= last as int
  {
    if first as int <= c <= last as int { assert Range(first, last)[c - first as int] == c; }
  }

  lemma UnreservedIsTable(c: byte)
    ensures IsUnreserved(c) <==> c in UNRESERVED
  {
    InRange('A', 'Z', c);
    InRange('a', 'z', c);
    InRange('0', '9', c);
    var marks := Lit("-._~");
    assert marks == [MINUS, DOT, UNDERSCORE, TILDE];
  }

  lemma NotALetterOfThatCase(c: byte)
    ensures c !in LOWER ==> ToUpper(c) == c
    ensures c !in UPPER ==> ToLower(c) == c
  {
    InRange('A', 'Z', c);
    InRange('a', 'z', c);
  }

  /** Both letter cases of a hex digit stand for its place in the table, and nothing else is a hex digit. */
  lemma HexIsTable(c: byte)
    ensures IsHex(c) <==> c in HEX_UPPER || c in HEX_LOWER
    ensures IsHex(c) ==> c == HEX_UPPER[FromHex(c)] || c == HEX_LOWER[FromHex(c)]
  {
    if IsHex(c) {
      var n := FromHex(c);
      assert HEX_UPPER[n] == HexUpper(n) && HEX_LOWER[n] == HexLower(n);
    }
    if i :| 0 <= i < 16 && HEX_UPPER[i] == c { assert HexUpper(i) == c; }
    if i :| 0 <= i < 16 && HEX_LOWER[i] == c { assert HexLower(i) == c; }
  }

  lemma HexDigitsOf(n: nat)
    requires n < 16
    ensures HexUpper(n) == HEX_UPPER[n] && HexLower(n) == HEX_LOWER[n]
  {
  }

  lemma DigitIsTable(n: nat)
    requires n < 10
    ensures Digit(n) == DIGITS[n]
  {
  }

  lemma DigitsAreTable(c: byte)
    ensures IsDigit(c) <==> c in DIGITS
  {
    if IsDigit(c) { assert DIGITS[c - 0x30] == c; }
  }

  lemma ForbiddenIsTable(c: byte)
    ensures IsForbiddenUriByte(c) <==> c in Lit("\r\n\t #")
  {
    var table := Lit("\r\n\t #");
    assert table == [CR, LF, TAB, SPACE, HASH];
  }

  lemma AmbiguousIsTable(c: byte)
    ensures IsAmbiguousHostByte(c) <==> c in Lit("/\\?# \t\r\n")
  {
    var table := Lit("/\\?# \t\r\n");
    assert table == [SLASH, BACKSLASH, QUESTION, HASH, SPACE, TAB, CR, LF];
  }

  // ---------- what normalisation accepts ----------

  predicate HasAmbiguousByte(s: Bytes) { exists i :: 0 <= i < |s| && s[i] in Lit("/\\?# \t\r\n") }

  lemma AmbiguousIff(s: Bytes)
    ensures (exists i :: 0 <= i < |s| && IsAmbiguousHostByte(s[i])) <==> HasAmbiguousByte(s)
  {
    forall i | 0 <= i < |s| ensures IsAmbiguousHostByte(s[i]) <==> s[i] in Lit("/\\?# \t\r\n") {
      AmbiguousIsTable(s[i]);
    }
  }

  lemma NormalizeHostIff(h: Bytes, x: Bytes)
    ensures NormalizeHost(h) == Some(x) <==> x == Lower(Trim(h)) && !HasAmbiguousByte(x)
  {
    AmbiguousIff(Lower(Trim(h)));
  }

  lemma NormalizeMethodIff(m: Bytes, x: Bytes)
    ensures NormalizeMethod(m) == Some(x) <==> x == Upper(Trim(m)) && (x == Lit("GET") || x == Lit("HEAD"))
  {
  }

  /** Letter case is changed byte by byte, by the tables. */
  lemma CaseByTable(s: Bytes, i: nat)
    requires i < |s|
    ensures forall k :: 0 <= k < 26 && s[i] == LOWER[k] ==> Upper(s)[i] == UPPER[k]
    ensures forall k :: 0 <= k < 26 && s[i] == UPPER[k] ==> Lower(s)[i] == LOWER[k]
    ensures s[i] !in LOWER ==> Upper(s)[i] == s[i]
    ensures s[i] !in UPPER ==> Lower(s)[i] == s[i]
  {
    NotALetterOfThatCase(s[i]);
  }

  // ---------- hex ----------

  /** The hex form spells each byte by its place in the table, high half first. */
  lemma HexOfIsTable(d: Bytes, i: nat)
    requires i < |d|
    ensures HexOf(d)[2 * i] == HEX_LOWER[d[i] / 16] && HexOf(d)[2 * i + 1] == HEX_LOWER[d[i] % 16]
  {
    HexOfAt(d, i);
    HexDigitsOf(d[i] / 16);
    HexDigitsOf(d[i] % 16);
  }
}
