/**
  Bytes and byte strings.  Rust `&[u8]` and `&str` are both modelled as sequences of bytes; the places
  where the source converts a slice to `str` test `ValidUtf8` explicitly.
 */
module ByteStrings {
  type byte = b: int | 0 <= b < 256
  type Bytes = seq<byte>

  const TAB: byte := 0x09
  const LF: byte := 0x0A
  const CR: byte := 0x0D
  const SPACE: byte := 0x20
  const HASH: byte := 0x23
  const PERCENT: byte := 0x25
  const AMP: byte := 0x26
  const PLUS: byte := 0x2B
  const MINUS: byte := 0x2D
  const DOT: byte := 0x2E
  const SLASH: byte := 0x2F
  const EQUALS: byte := 0x3D
  const QUESTION: byte := 0x3F
  const BACKSLASH: byte := 0x5C
  const UNDERSCORE: byte := 0x5F
  const TILDE: byte := 0x7E
  const DEL: byte := 0x7F

  /** The bytes of an ASCII literal. */
  function Lit(s: string): (r: Bytes)
    requires forall i :: 0 <= i < |s| ==> s[i] < 128 as char
    ensures |r| == |s| && forall i :: 0 <= i < |s| ==> r[i] == s[i] as int
  {
    seq(|s|, i requires 0 <= i < |s| => s[i] as int)
  }

  predicate IsDigit(c: byte) { 0x30 <= c <= 0x39 }

  predicate IsUpper(c: byte) { 0x41 <= c <= 0x5A }

  predicate IsLower(c: byte) { 0x61 <= c <= 0x7A }

  function ToUpper(c: byte): byte { if IsLower(c) then c - 32 else c }

  function ToLower(c: byte): byte { if IsUpper(c) then c + 32 else c }

  /** `str::to_ascii_uppercase` */
  function Upper(s: Bytes): (r: Bytes)
    ensures |r| == |s|
  {
    seq(|s|, i requires 0 <= i < |s| => ToUpper(s[i]))
  }

  /** `str::to_ascii_lowercase` */
  function Lower(s: Bytes): (r: Bytes)
    ensures |r| == |s|
  {
    seq(|s|, i requires 0 <= i < |s| => ToLower(s[i]))
  }

  // ---------- `str::trim`: Unicode White_Space, on the UTF-8 encoding ----------

  predicate IsWideSpace(a: byte, b: byte, c: byte) {
    || (a == 0xE1 && b == 0x9A && c == 0x80)
    || (a == 0xE2 && b == 0x80 && (0x80 <= c <= 0x8A || c == 0xA8 || c == 0xA9 || c == 0xAF))
    || (a == 0xE2 && b == 0x81 && c == 0x9F)
    || (a == 0xE3 && b == 0x80 && c == 0x80)
  }

  /** Length of `s` if it is the encoding of one White_Space character, otherwise 0. */
  function SpaceLength(s: Bytes): (n: nat)
    ensures n == 0 || n == |s|
  {
    if |s| == 1 && (0x09 <= s[0] <= 0x0D || s[0] == 0x20) then 1
    else if |s| == 2 && s[0] == 0xC2 && (s[1] == 0x85 || s[1] == 0xA0) then 2
    else if |s| == 3 && IsWideSpace(s[0], s[1], s[2]) then 3
    else 0
  }

  /** Length of the white space character at the front; 0 if there is none. */
  function FrontSpace(s: Bytes): (n: nat)
    ensures n <= |s|
  {
    if |s| >= 1 && SpaceLength(s[..1]) > 0 then 1
    else if |s| >= 2 && SpaceLength(s[..2]) > 0 then 2
    else if |s| >= 3 && SpaceLength(s[..3]) > 0 then 3
    else 0
  }

  /** Length of the white space character at the end; 0 if there is none. */
  function BackSpace(s: Bytes): (n: nat)
    ensures n <= |s|
  {
    if |s| >= 1 && SpaceLength(s[|s| - 1..]) > 0 then 1
    else if |s| >= 2 && SpaceLength(s[|s| - 2..]) > 0 then 2
    else if |s| >= 3 && SpaceLength(s[|s| - 3..]) > 0 then 3
    else 0
  }

  function TrimStart(s: Bytes): Bytes
    decreases |s|
  {
    var n := FrontSpace(s);
    if n == 0 then s else TrimStart(s[n..])
  }

  function TrimEnd(s: Bytes): Bytes
    decreases |s|
  {
    var n := BackSpace(s);
    if n == 0 then s else TrimEnd(s[..|s| - n])
  }

  function Trim(s: Bytes): Bytes { TrimEnd(TrimStart(s)) }

  // ---------- UTF-8, section 4 of RFC 3629 ----------

  predicate IsTail(c: byte) { 0x80 <= c <= 0xBF }

  /** Length of the well-formed character that begins `s`, or 0 if there is none. */
  function CharLength(s: Bytes): (n: nat)
    ensures n <= |s|
  {
    if |s| >= 1 && s[0] <= 0x7F then 1
    else if |s| >= 2 && 0xC2 <= s[0] <= 0xDF && IsTail(s[1]) then 2
    else if |s| >= 3 && 0xE0 <= s[0] <= 0xEF && IsTail(s[1]) && IsTail(s[2])
            && (s[0] == 0xE0 ==> s[1] >= 0xA0) && (s[0] == 0xED ==> s[1] <= 0x9F) then 3
    else if |s| >= 4 && 0xF0 <= s[0] <= 0xF4 && IsTail(s[1]) && IsTail(s[2]) && IsTail(s[3])
            && (s[0] == 0xF0 ==> s[1] >= 0x90) && (s[0] == 0xF4 ==> s[1] <= 0x8F) then 4
    else 0
  }

  predicate ValidUtf8(s: Bytes)
    decreases |s|
  {
    s == [] || (CharLength(s) > 0 && ValidUtf8(s[CharLength(s)..]))
  }

  predicate IsAscii(s: Bytes) { forall i :: 0 <= i < |s| ==> s[i] < 0x80 }

  lemma {:induction false} ValidUtf8Concat(a: Bytes, b: Bytes)
    requires ValidUtf8(a) && ValidUtf8(b)
    ensures ValidUtf8(a + b)
    decreases |a|
  {
    if a == [] {
      assert a + b == b;
    } else {
      var n := CharLength(a);
      ValidUtf8Concat(a[n..], b);
      assert (a + b)[n..] == a[n..] + b;
    }
  }

  lemma {:induction false} AsciiIsUtf8(s: Bytes)
    requires IsAscii(s)
    ensures ValidUtf8(s)
    decreases |s|
  {
    if s == [] {
    } else {
      AsciiIsUtf8(s[1..]);
    }
  }
}
