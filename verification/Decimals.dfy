/** Decimal digit strings: values, printing, and Rust's saturating and checked readers. */
module Decimals {
  import opened Wrappers
  import opened ByteStrings
  import opened Seqs

  const U64_MAX: nat := 0xFFFF_FFFF_FFFF_FFFF
  const U32_MAX: nat := 0xFFFF_FFFF
  const I64_MAX: int := 0x7FFF_FFFF_FFFF_FFFF
  const I32_MAX: nat := 0x7FFF_FFFF

  predicate AllDigits(s: Bytes) { forall i :: 0 <= i < |s| ==> IsDigit(s[i]) }

  function Digit(n: nat): byte
    requires n < 10
  {
    0x30 + n
  }

  /** The number a digit string denotes; leading zeros are allowed. */
  function DigitsValue(s: Bytes): nat
    requires AllDigits(s)
  {
    if s == [] then 0 else DigitsValue(s[..|s| - 1]) * 10 + (s[|s| - 1] - 0x30)
  }

  /** `u64::to_string` */
  function Decimal(n: nat): (s: Bytes)
    ensures s != []
  {
    if n < 10 then [Digit(n)] else Decimal(n / 10) + [Digit(n % 10)]
  }

  /** The last `width` decimal digits of `n`. */
  function Padded(n: nat, width: nat): (s: Bytes)
    ensures |s| == width
  {
    if width == 0 then [] else Padded(n / 10, width - 1) + [Digit(n % 10)]
  }

  function Pow10(k: nat): (p: nat)
    ensures p >= 1
  {
    if k == 0 then 1 else 10 * Pow10(k - 1)
  }

  lemma ValueSnoc(s: Bytes, d: byte)
    requires AllDigits(s) && IsDigit(d)
    ensures AllDigits(s + [d]) && DigitsValue(s + [d]) == DigitsValue(s) * 10 + (d - 0x30)
  {
    assert (s + [d])[..|s|] == s;
  }

  /** Printing a number and reading it back. */
  lemma {:induction false} DecimalValue(n: nat)
    ensures AllDigits(Decimal(n)) && DigitsValue(Decimal(n)) == n
  {
    if n >= 10 {
      DecimalValue(n / 10);
      ValueSnoc(Decimal(n / 10), Digit(n % 10));
    } else {
      ValueSnoc([], Digit(n));
      assert [] + [Digit(n)] == [Digit(n)];
    }
  }

  lemma {:induction false} PaddedValue(n: nat, width: nat)
    requires n < Pow10(width)
    ensures AllDigits(Padded(n, width)) && DigitsValue(Padded(n, width)) == n
  {
    if width == 0 {
    } else {
      PaddedValue(n / 10, width - 1);
      ValueSnoc(Padded(n / 10, width - 1), Digit(n % 10));
    }
  }

  /** Reading a digit string and printing the value at the same width gives the string back. */
  lemma {:induction false} ValuePadded(s: Bytes)
    requires AllDigits(s)
    ensures Padded(DigitsValue(s), |s|) == s
    ensures DigitsValue(s) < Pow10(|s|)
  {
    if s == [] {
    } else {
      var front, d := s[..|s| - 1], s[|s| - 1];
      ValuePadded(front);
      assert s == front + [d];
      assert DigitsValue(s) / 10 == DigitsValue(front) && DigitsValue(s) % 10 == d - 0x30;
    }
  }

  /** On digit strings of equal length the bytewise order is the order of the values. */
  lemma {:induction false} DigitsOrder(a: Bytes, b: Bytes)
    requires |a| == |b| && AllDigits(a) && AllDigits(b)
    ensures LexLeq(a, b) <==> DigitsValue(a) <= DigitsValue(b)
    ensures a == b <==> DigitsValue(a) == DigitsValue(b)
  {
    if a == [] {
    } else {
      var n := |a| - 1;
      DigitsOrder(a[..n], b[..n]);
      assert a == a[..n] + [a[n]] && b == b[..n] + [b[n]];
      LexBlocks(a[..n], [a[n]], b[..n], [b[n]]);
      assert LexLeq([a[n]], [b[n]]) <==> a[n] <= b[n];
    }
  }

  // ---------- readers ----------

  function Min(a: nat, b: nat): nat { if a <= b then a else b }

  /** `parse_digits_i32` and `parse_digits_u32`: saturating arithmetic at the maximum of the type. */
  method ParseDigits(bytes: Bytes, max: nat) returns (r: Option<nat>)
    requires max >= 9
    ensures r == if AllDigits(bytes) then Some(Min(DigitsValue(bytes), max)) else None
  {
    var out: nat := 0;
    assert bytes[..0] == [];
    for i := 0 to |bytes|
      invariant AllDigits(bytes[..i]) && out == Min(DigitsValue(bytes[..i]), max)
    {
      var b := bytes[i];
      if !IsDigit(b) {
        return None;
      }
      assert bytes[..i + 1] == bytes[..i] + [b];
      ValueSnoc(bytes[..i], b);
      out := Min(Min(out * 10, max) + (b - 0x30), max);
    }
    assert bytes[..|bytes|] == bytes;
    return Some(out);
  }

  /** `str::parse::<u64>`: one leading `+` is accepted, so are leading zeros; overflow is an error. */
  function ParseU64(s: Bytes): Option<nat> {
    var digits := if s != [] && s[0] == PLUS then s[1..] else s;
    if digits != [] && AllDigits(digits) && DigitsValue(digits) <= U64_MAX then Some(DigitsValue(digits)) else None
  }

  function Zeros(k: nat): (s: Bytes)
    ensures |s| == k && AllDigits(s)
  {
    seq(k, _ => 0x30)
  }

  /** One optional plus sign, any number of zeros, and the number without leading zeros. */
  predicate IsNumeral(s: Bytes, n: nat, plus: bool, zeros: nat) {
    s == (if plus then Lit("+") else []) + Zeros(zeros) + Decimal(n)
  }

  ghost predicate Denotes(s: Bytes, n: nat) { exists plus, zeros :: IsNumeral(s, n, plus, zeros) }

  lemma {:induction false} ZerosValue(k: nat, n: nat)
    ensures AllDigits(Zeros(k) + Decimal(n)) && DigitsValue(Zeros(k) + Decimal(n)) == n
    decreases n
  {
    DecimalValue(n);
    if n < 10 {
      ZerosAreZero(k);
      ValueSnoc(Zeros(k), Digit(n));
    } else {
      ZerosValue(k, n / 10);
      ValueSnoc(Zeros(k) + Decimal(n / 10), Digit(n % 10));
      assert Zeros(k) + Decimal(n) == Zeros(k) + Decimal(n / 10) + [Digit(n % 10)];
    }
  }

  lemma {:induction false} ZerosAreZero(k: nat)
    ensures DigitsValue(Zeros(k)) == 0
  {
    if k == 0 {
    } else {
      ZerosAreZero(k - 1);
      assert Zeros(k)[..k - 1] == Zeros(k - 1);
    }
  }

  /** Every digit string is zeros and then its value in decimal. */
  lemma {:induction false} DigitsAreZerosAndDecimal(s: Bytes) returns (k: nat)
    requires s != [] && AllDigits(s)
    ensures s == Zeros(k) + Decimal(DigitsValue(s))
  {
    var m := |s| - 1;
    var front, d := s[..m], s[m];
    var v := DigitsValue(front);
    assert s == front + [d];
    if m == 0 {
      k := 0;
      assert DigitsValue(s) == d - 0x30;
    } else {
      k := DigitsAreZerosAndDecimal(front);
      if v == 0 {
        k := k + 1;
        assert Zeros(k) == Zeros(k - 1) + [0x30];
      } else {
        assert Decimal(v * 10 + (d - 0x30)) == Decimal(v) + [d];
      }
    }
  }

  lemma PlusIs()
    ensures Lit("+") == [PLUS] && !IsDigit(PLUS)
  {
  }

  lemma NumeralDigits(s: Bytes, n: nat, plus: bool, zeros: nat)
    requires IsNumeral(s, n, plus, zeros)
    ensures (if s != [] && s[0] == PLUS then s[1..] else s) == Zeros(zeros) + Decimal(n)
  {
    PlusIs();
    ZerosValue(zeros, n);
    var digits := Zeros(zeros) + Decimal(n);
    if plus {
      assert s == [PLUS] + digits && s[1..] == digits;
    } else {
      assert s == digits && IsDigit(digits[0]);
    }
  }

  lemma ParsedIsNumeral(s: Bytes, n: nat)
    requires ParseU64(s) == Some(n)
    ensures Denotes(s, n)
  {
    PlusIs();
    var plus := s != [] && s[0] == PLUS;
    var digits := if plus then s[1..] else s;
    var zeros := DigitsAreZerosAndDecimal(digits);
    assert s == (if plus then Lit("+") else []) + digits;
    Associate(if plus then Lit("+") else [], Zeros(zeros), Decimal(n));
    assert IsNumeral(s, n, plus, zeros);
  }

  lemma NumeralParses(s: Bytes, n: nat, plus: bool, zeros: nat)
    requires IsNumeral(s, n, plus, zeros) && n <= U64_MAX
    ensures ParseU64(s) == Some(n)
  {
    ZerosValue(zeros, n);
    NumeralDigits(s, n, plus, zeros);
  }

  /** The reader accepts exactly the numerals of numbers that fit in a u64, and returns the number. */
  lemma ParseU64Iff(s: Bytes, n: nat)
    ensures ParseU64(s) == Some(n) <==> n <= U64_MAX && Denotes(s, n)
  {
    if ParseU64(s) == Some(n) { ParsedIsNumeral(s, n); }
    if n <= U64_MAX && Denotes(s, n) {
      var plus, zeros :| IsNumeral(s, n, plus, zeros);
      NumeralParses(s, n, plus, zeros);
    }
  }

  /** Printing and reading back. */
  lemma ParseU64Decimal(n: nat)
    requires n <= U64_MAX
    ensures ParseU64(Decimal(n)) == Some(n)
  {
    DecimalValue(n);
  }
}
