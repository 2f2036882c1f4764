/** The duration parser of the module configuration. */
module Durations {
  import opened Wrappers
  import opened ByteStrings
  import opened Decimals

  const LETTER_S: byte := 0x73
  const LETTER_M: byte := 0x6D
  const LETTER_H: byte := 0x68
  const LETTER_D: byte := 0x64
  const LETTER_W: byte := 0x77

  function UnitSeconds(unit: byte): Option<nat> {
    if unit == LETTER_S then Some(1)
    else if unit == LETTER_M then Some(60)
    else if unit == LETTER_H then Some(60 * 60)
    else if unit == LETTER_D then Some(24 * 60 * 60)
    else if unit == LETTER_W then Some(7 * 24 * 60 * 60)
    else None
  }

  /** Seconds, minutes, hours, days and weeks. */
  lemma UnitTable(c: byte, n: nat)
    ensures UnitSeconds(c) == Some(n)
       <==> || (c as char == 's' && n == 1) || (c as char == 'm' && n == 60) || (c as char == 'h' && n == 3_600)
            || (c as char == 'd' && n == 86_400) || (c as char == 'w' && n == 604_800)
  {
  }

  /** The digits at the front. */
  function LeadingDigits(s: Bytes): (digits: Bytes)
    ensures |digits| <= |s| && AllDigits(digits)
  {
    if s == [] || !IsDigit(s[0]) then [] else [s[0]] + LeadingDigits(s[1..])
  }

  /**
    The grammar and its value: terms of a number and a unit letter; the last term may lack its unit and
    then counts seconds.  The value is computed in unbounded integers.
   */
  function DurationValue(s: Bytes): Option<nat>
    decreases |s|
  {
    if s == [] then Some(0)
    else
      var digits := LeadingDigits(s);
      var n := |digits|;
      if n == 0 then None
      else if n == |s| then Some(DigitsValue(digits))
      else
        match UnitSeconds(s[n])
        case None => None
        case Some(unit) => PlusValue(Product(DigitsValue(digits), unit), DurationValue(s[n + 1..]))
  }

  function Product(number: nat, unit: nat): nat { number * unit }

  function PlusValue(total: nat, r: Option<nat>): Option<nat> {
    match r case None => None case Some(v) => Some(total + v)
  }

  /** What `parse_duration` must return. */
  function Duration(s: Bytes): Option<nat> {
    match DurationValue(s)
    case None => None
    case Some(v) => if s != [] && v <= U64_MAX then Some(v) else None
  }

  function CheckedAdd(a: nat, b: nat): Option<nat> {
    if a + b > U64_MAX then None else Some(a + b)
  }

  function CheckedMul(a: nat, b: nat): Option<nat> {
    if Product(a, b) > U64_MAX then None else Some(Product(a, b))
  }

  /** The inner loop: the number at the front, or `None` when it does not fit in a u64. */
  method ReadNumber(s: Bytes) returns (number: Option<nat>, n: nat)
    ensures number.Some? ==> n == |LeadingDigits(s)| && number.value == DigitsValue(LeadingDigits(s)) <= U64_MAX
    ensures number.None? ==> DigitsValue(LeadingDigits(s)) > U64_MAX
  {
    ghost var digits := LeadingDigits(s);
    LeadingDigitsAreMaximal(s);
    var out := 0;
    n := 0;
    assert digits[..0] == [];
    while n < |s| && IsDigit(s[n])
      invariant 0 <= n <= |digits|
      invariant out == DigitsValue(digits[..n]) <= U64_MAX
    {
      assert digits[..n + 1] == digits[..n] + [digits[n]];
      ValueSnoc(digits[..n], digits[n]);
      if out * 10 > U64_MAX || out * 10 + (s[n] - 0x30) > U64_MAX {
        PrefixValue(digits, n + 1);
        return None, n;
      }
      out := out * 10 + (s[n] - 0x30);
      n := n + 1;
    }
    assert digits[..|digits|] == digits;
    return Some(out), n;
  }

  lemma {:induction false} LeadingDigitsAreMaximal(s: Bytes)
    ensures var digits := LeadingDigits(s);
            && digits == s[..|digits|]
            && (|digits| < |s| ==> !IsDigit(s[|digits|]))
  {
    if s == [] || !IsDigit(s[0]) {
    } else {
      LeadingDigitsAreMaximal(s[1..]);
    }
  }

  /** A digit string denotes at least what any prefix of it denotes. */
  lemma {:induction false} PrefixValue(s: Bytes, n: nat)
    requires AllDigits(s) && n <= |s|
    ensures DigitsValue(s[..n]) <= DigitsValue(s)
  {
    if n < |s| {
      PrefixValue(s[..|s| - 1], n);
      assert s[..|s| - 1][..n] == s[..n];
    } else {
      assert s[..n] == s;
    }
  }

  /** No value that fits in a u64. */
  predicate Hopeless(s: Bytes) { DurationValue(s).Some? ==> DurationValue(s).value > U64_MAX }

  /** One term read off the front: its seconds and how many bytes it took. */
  datatype Term = Term(seconds: nat, size: nat)

  predicate IsFirstTerm(s: Bytes, t: Term) {
    && 0 < t.size <= |s|
    && DurationValue(s) == PlusValue(t.seconds, DurationValue(s[t.size..]))
  }

  /** One pass of the outer loop, up to the addition. */
  method ReadTerm(s: Bytes) returns (term: Option<Term>)
    requires s != []
    ensures term.None? ==> Hopeless(s)
    ensures term.Some? ==> IsFirstTerm(s, term.value)
  {
    if !IsDigit(s[0]) {
      NoDigitNoDuration(s);
      return None;
    }
    var number, i := ReadNumber(s);
    StartsWithDigit(s);
    if number.None? {
      TermAtLeastNumber(s);
      return None;
    }
    var unitSeconds, size := 1, i;
    if i < |s| {
      UnitTerm(s);
      var unit := UnitSeconds(s[i]);
      if unit.None? {
        return None;
      }
      unitSeconds, size := unit.value, i + 1;
    } else {
      LastTerm(s);
    }
    var seconds := CheckedMul(number.value, unitSeconds);
    if seconds.None? {
      return None;
    }
    return Some(Term(seconds.value, size));
  }

  lemma PlusValueAssociates(total: nat, term: nat, rest: Option<nat>)
    ensures PlusValue(total, PlusValue(term, rest)) == PlusValue(total + term, rest)
  {
  }

  /**
    The outer loop; `rest` is what lies at and after the index.  The parser succeeds exactly on the
    strings of the grammar whose unbounded value fits in a u64, and returns that value.
   */
  method ParseDuration(value: Bytes) returns (r: Option<nat>)
    ensures r == Duration(value)
  {
    if value == [] {
      return None;
    }
    var total: nat := 0;
    var rest := value;
    while rest != []
      invariant total <= U64_MAX
      invariant DurationValue(value) == PlusValue(total, DurationValue(rest))
      decreases |rest|
    {
      var term := ReadTerm(rest);
      if term.None? {
        return None;
      }
      rest := rest[term.value.size..];
      PlusValueAssociates(total, term.value.seconds, DurationValue(rest));
      var sum := CheckedAdd(total, term.value.seconds);
      if sum.None? {
        return None;
      }
      total := sum.value;
    }
    return Some(total);
  }

  lemma NoDigitNoDuration(s: Bytes)
    requires s != [] && !IsDigit(s[0])
    ensures DurationValue(s).None?
  {
  }

  lemma StartsWithDigit(s: Bytes)
    requires s != [] && IsDigit(s[0])
    ensures LeadingDigits(s) != []
  {
  }

  /** A number with nothing after it counts seconds. */
  lemma LastTerm(s: Bytes)
    requires 0 < |LeadingDigits(s)| == |s|
    ensures DurationValue(s) == PlusValue(Product(DigitsValue(LeadingDigits(s)), 1), DurationValue(s[|s|..]))
  {
    assert DurationValue(s[|s|..]) == Some(0);
  }

  /** A number followed by a letter is one term. */
  lemma UnitTerm(s: Bytes)
    requires 0 < |LeadingDigits(s)| < |s|
    ensures var digits := LeadingDigits(s);
            DurationValue(s) ==
            match UnitSeconds(s[|digits|])
            case None => None
            case Some(unit) => PlusValue(Product(DigitsValue(digits), unit), DurationValue(s[|digits| + 1..]))
  {
  }

  /** Every term counts at least its number, so an overflowing number already overflows the sum. */
  lemma TermAtLeastNumber(s: Bytes)
    requires LeadingDigits(s) != [] && DigitsValue(LeadingDigits(s)) > U64_MAX
    ensures Hopeless(s)
  {
    var digits := LeadingDigits(s);
    if |digits| < |s| && UnitSeconds(s[|digits|]).Some? {
      var v, u := DigitsValue(digits), UnitSeconds(s[|digits|]).value;
      assert v * u >= v;
    }
  }

  lemma {:induction false} DigitsThenRest(digits: Bytes, rest: Bytes)
    requires AllDigits(digits) && (rest != [] ==> !IsDigit(rest[0]))
    ensures LeadingDigits(digits + rest) == digits
    decreases |digits|
  {
    if digits == [] {
      assert digits + rest == rest;
    } else {
      assert (digits + rest)[1..] == digits[1..] + rest;
      DigitsThenRest(digits[1..], rest);
    }
  }

  // ---------- the grammar, independently ----------

  /** A number with its unit letter. */
  datatype Piece = Piece(digits: Bytes, unit: byte)

  predicate IsPiece(p: Piece) { p.digits != [] && AllDigits(p.digits) && UnitSeconds(p.unit).Some? }

  predicate ArePieces(pieces: seq<Piece>) { forall i :: 0 <= i < |pieces| ==> IsPiece(pieces[i]) }

  function Text(pieces: seq<Piece>): Bytes {
    if pieces == [] then [] else pieces[0].digits + [pieces[0].unit] + Text(pieces[1..])
  }

  function Seconds(pieces: seq<Piece>): nat
    requires ArePieces(pieces)
  {
    if pieces == [] then 0
    else Product(DigitsValue(pieces[0].digits), UnitSeconds(pieces[0].unit).value) + Seconds(pieces[1..])
  }

  /** The string is these pieces and then a bare number, or nothing, that counts seconds. */
  predicate Spells(s: Bytes, pieces: seq<Piece>, bare: Bytes, seconds: nat) {
    && ArePieces(pieces) && AllDigits(bare)
    && s == Text(pieces) + bare
    && seconds == Seconds(pieces) + DigitsValue(bare)
  }

  function Worth(p: Piece): nat
    requires IsPiece(p)
  {
    Product(DigitsValue(p.digits), UnitSeconds(p.unit).value)
  }

  lemma PieceParses(p: Piece, rest: Bytes, w: nat)
    requires IsPiece(p) && DurationValue(rest) == Some(w)
    ensures DurationValue(p.digits + [p.unit] + rest) == Some(Worth(p) + w)
  {
    var s := p.digits + [p.unit] + rest;
    assert s == p.digits + ([p.unit] + rest);
    DigitsThenRest(p.digits, [p.unit] + rest);
    assert s[|p.digits| + 1..] == rest;
  }

  lemma BareNumberParses(bare: Bytes)
    requires AllDigits(bare)
    ensures DurationValue(bare) == Some(DigitsValue(bare))
  {
    DigitsThenRest(bare, []);
    assert bare + [] == bare;
  }

  lemma SpellsCons(p: Piece, s: Bytes, pieces: seq<Piece>, bare: Bytes, v: nat)
    requires IsPiece(p) && Spells(s, pieces, bare, v)
    ensures Spells(p.digits + [p.unit] + s, [p] + pieces, bare, Worth(p) + v)
  {
    assert ([p] + pieces)[1..] == pieces;
  }

  lemma SpellsUncons(s: Bytes, pieces: seq<Piece>, bare: Bytes, v: nat) returns (rest: Bytes, w: nat)
    requires Spells(s, pieces, bare, v) && pieces != []
    ensures IsPiece(pieces[0]) && Spells(rest, pieces[1..], bare, w)
    ensures s == pieces[0].digits + [pieces[0].unit] + rest && v == Worth(pieces[0]) + w
  {
    rest, w := Text(pieces[1..]) + bare, Seconds(pieces[1..]) + DigitsValue(bare);
  }

  lemma SpellsBare(s: Bytes, bare: Bytes, v: nat)
    requires Spells(s, [], bare, v)
    ensures DurationValue(s) == Some(v)
  {
    assert Text([]) + bare == bare;
    BareNumberParses(bare);
  }

  lemma {:induction false} SpelledParses(s: Bytes, pieces: seq<Piece>, bare: Bytes, v: nat)
    requires Spells(s, pieces, bare, v)
    ensures DurationValue(s) == Some(v)
    decreases |pieces|
  {
    if pieces == [] {
      SpellsBare(s, bare, v);
    } else {
      var rest, w := SpellsUncons(s, pieces, bare, v);
      SpelledParses(rest, pieces[1..], bare, w);
      PieceParses(pieces[0], rest, w);
    }
  }

  lemma UnspelledHead(s: Bytes, digits: Bytes)
    requires |digits| < |s| && digits == s[..|digits|]
    ensures s == digits + [s[|digits|]] + s[|digits| + 1..]
  {
  }

  lemma {:induction false} ParsedPieces(s: Bytes, v: nat) returns (pieces: seq<Piece>, bare: Bytes)
    requires DurationValue(s) == Some(v)
    ensures Spells(s, pieces, bare, v)
    decreases |s|
  {
    var digits := LeadingDigits(s);
    var n := |digits|;
    LeadingDigitsAreMaximal(s);
    if n == |s| {
      pieces, bare := [], digits;
      BareNumberParses(digits);
    } else {
      UnitTerm(s);
      var p, rest := Piece(digits, s[n]), s[n + 1..];
      UnspelledHead(s, digits);
      pieces, bare := ParsedPieces(rest, v - Worth(p));
      SpellsCons(p, rest, pieces, bare, v - Worth(p));
      pieces := [p] + pieces;
    }
  }

  /** The parser's greedy reading is the grammar: it has the value `v` exactly when some pieces spell it. */
  lemma DurationIsGrammar(s: Bytes, v: nat)
    ensures DurationValue(s) == Some(v) <==> exists pieces, bare :: Spells(s, pieces, bare, v)
  {
    if DurationValue(s) == Some(v) {
      var pieces, bare := ParsedPieces(s, v);
      assert Spells(s, pieces, bare, v);
    }
    forall pieces, bare | Spells(s, pieces, bare, v) ensures DurationValue(s) == Some(v) {
      SpelledParses(s, pieces, bare, v);
    }
  }

  // ---------- printing ----------

  /** Any number of seconds, printed in decimal, parses back. */
  lemma SecondsRoundTrip(n: nat)
    requires n <= U64_MAX
    ensures Duration(Decimal(n)) == Some(n)
  {
    DecimalValue(n);
    BareNumberParses(Decimal(n));
  }

  function Printed(n: nat, unit: byte): seq<Piece> { [Piece(Decimal(n), unit)] }

  /** Weeks, days, hours, minutes and seconds, each with its unit. */
  function Compound(n: nat): seq<Piece> {
    var day := n % 604_800;
    var hour := day % 86_400;
    var minute := hour % 3_600;
    Printed(n / 604_800, LETTER_W) + (Printed(day / 86_400, LETTER_D) + (Printed(hour / 3_600, LETTER_H) +
      (Printed(minute / 60, LETTER_M) + (Printed(minute % 60, LETTER_S) + []))))
  }

  predicate Counts(pieces: seq<Piece>, total: nat) { ArePieces(pieces) && Seconds(pieces) == total }

  lemma CountsCons(number: nat, letter: byte, rest: seq<Piece>, unit: nat, total: nat)
    requires UnitSeconds(letter) == Some(unit) && Counts(rest, total)
    ensures Counts(Printed(number, letter) + rest, number * unit + total)
  {
    DecimalValue(number);
    assert (Printed(number, letter) + rest)[1..] == rest;
  }

  /** Any number of seconds, printed as a compound, parses back. */
  lemma CompoundRoundTrip(n: nat)
    requires n <= U64_MAX
    ensures Duration(Text(Compound(n))) == Some(n)
  {
    var day := n % 604_800;
    var hour := day % 86_400;
    var minute := hour % 3_600;
    var s' := Printed(minute % 60, LETTER_S) + [];
    var m' := Printed(minute / 60, LETTER_M) + s';
    var h' := Printed(hour / 3_600, LETTER_H) + m';
    CountsCons(minute % 60, LETTER_S, [], 1, 0);
    CountsCons(minute / 60, LETTER_M, s', 60, minute % 60);
    CountsCons(hour / 3_600, LETTER_H, m', 3_600, minute);
    CountsCons(day / 86_400, LETTER_D, h', 86_400, hour);
    CountsCons(n / 604_800, LETTER_W, Printed(day / 86_400, LETTER_D) + h', 604_800, day);
    assert Text(Compound(n)) + [] == Text(Compound(n));
    SpelledParses(Text(Compound(n)), Compound(n), [], n);
  }
}
