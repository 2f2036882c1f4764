/** `X-Amz-Date` timestamps: reading, printing, order, and the validity window. */
module Timestamps {
  import opened Wrappers
  import opened ByteStrings
  import opened Seqs
  import opened Decimals
  import opened Calendar

  const LETTER_T: byte := 0x54
  const LETTER_Z: byte := 0x5A

  datatype Stamp = Stamp(year: nat, month: nat, day: nat, hour: nat, minute: nat, second: nat)

  predicate ValidStamp(t: Stamp) {
    t.year <= 9999 && IsDate(t.year, t.month, t.day) && t.hour <= 23 && t.minute <= 59 && t.second <= 59
  }

  function SecondsOfDay(t: Stamp): nat { t.hour * 3_600 + t.minute * 60 + t.second }

  /** Seconds since 1970-01-01T00:00:00Z, in unbounded arithmetic. */
  function EpochOf(t: Stamp): int { DaysFromCivil(t.year, t.month, t.day) * 86_400 + SecondsOfDay(t) }

  function PrintDate(t: Stamp): (s: Bytes)
    ensures |s| == 8
  {
    Padded(t.year, 4) + Padded(t.month, 2) + Padded(t.day, 2)
  }

  function PrintTime(t: Stamp): (s: Bytes)
    ensures |s| == 6
  {
    Padded(t.hour, 2) + Padded(t.minute, 2) + Padded(t.second, 2)
  }

  function PrintStamp(t: Stamp): (s: Bytes)
    ensures |s| == 16
  {
    PrintDate(t) + [LETTER_T] + PrintTime(t) + [LETTER_Z]
  }

  predicate HasLayout(s: Bytes) {
    |s| == 16 && s[8] == LETTER_T && s[15] == LETTER_Z && AllDigits(s[0..8]) && AllDigits(s[9..15])
  }

  /** The six fields of a timestamp with the right layout. */
  function Fields(s: Bytes): Stamp
    requires HasLayout(s)
  {
    LayoutSlices(s);
    Stamp(DigitsValue(s[0..4]), DigitsValue(s[4..6]), DigitsValue(s[6..8]),
          DigitsValue(s[9..11]), DigitsValue(s[11..13]), DigitsValue(s[13..15]))
  }

  /** The instant a timestamp denotes, if the string is an accepted one. */
  function ReadStamp(s: Bytes): Option<Stamp> {
    if HasLayout(s) && ValidStamp(Fields(s)) then Some(Fields(s)) else None
  }

  lemma LayoutSlices(s: Bytes)
    requires |s| == 16
    ensures AllDigits(s[0..8]) <==> AllDigits(s[0..4]) && AllDigits(s[4..6]) && AllDigits(s[6..8])
    ensures AllDigits(s[9..15]) <==> AllDigits(s[9..11]) && AllDigits(s[11..13]) && AllDigits(s[13..15])
  {
    SliceDigits(s, 0, 8);
    SliceDigits(s, 0, 4);
    SliceDigits(s, 4, 6);
    SliceDigits(s, 6, 8);
    SliceDigits(s, 9, 15);
    SliceDigits(s, 9, 11);
    SliceDigits(s, 11, 13);
    SliceDigits(s, 13, 15);
  }

  lemma SliceDigits(s: Bytes, lo: nat, hi: nat)
    requires lo <= hi <= |s|
    ensures AllDigits(s[lo..hi]) <==> forall i :: lo <= i < hi ==> IsDigit(s[i])
  {
    if AllDigits(s[lo..hi]) {
      forall i | lo <= i < hi
        ensures IsDigit(s[i])
      {
        assert s[lo..hi][i - lo] == s[i];
      }
    }
  }

  lemma FieldRanges(s: Bytes)
    requires HasLayout(s)
    ensures Fields(s).year <= 9999 && Fields(s).month <= 99 && Fields(s).day <= 99
    ensures Fields(s).hour <= 99 && Fields(s).minute <= 99 && Fields(s).second <= 99
  {
    LayoutSlices(s);
    ValuePadded(s[0..4]);
    ValuePadded(s[4..6]);
    ValuePadded(s[6..8]);
    ValuePadded(s[9..11]);
    ValuePadded(s[11..13]);
    ValuePadded(s[13..15]);
    assert Pow10(2) == 100 && Pow10(4) == 10000;
  }

  // ---------- machine arithmetic ----------

  predicate FitsI32(n: int) { -0x8000_0000 <= n <= 0x7FFF_FFFF }

  predicate FitsI64(n: int) { -0x8000_0000_0000_0000 <= n <= 0x7FFF_FFFF_FFFF_FFFF }

  function ClampI64(n: int): int {
    if n > 0x7FFF_FFFF_FFFF_FFFF then 0x7FFF_FFFF_FFFF_FFFF
    else if n < -0x8000_0000_0000_0000 then -0x8000_0000_0000_0000
    else n
  }

  function SaturatingAdd(a: int, b: int): int { ClampI64(a + b) }

  function SaturatingMul(a: int, b: int): int { ClampI64(a * b) }

  predicate YearOfEraFits(yoe: int) {
    && FitsI32(yoe) && FitsI32(yoe * 365) && FitsI32(yoe * 365 + TruncDiv(yoe, 4))
    && FitsI32(yoe * 365 + TruncDiv(yoe, 4) - TruncDiv(yoe, 100))
  }

  /** Every intermediate value of the day computation stays inside the integer type the source uses for it. */
  predicate IntermediatesFit(year: int, month: int, day: int) {
    var shifted := ShiftedYear(year, month);
    && FitsI32(shifted) && FitsI32(shifted - 399) && FitsI32(Era(shifted)) && FitsI32(Era(shifted) * 400)
    && YearOfEraFits(YearOfEra(shifted))
    && FitsI32(MonthFromMarch(month)) && FitsI32(153 * MonthFromMarch(month))
       && FitsI32(153 * MonthFromMarch(month) + 2)
    && FitsI32(DayOfYear(month, day) + 1) && FitsI32(DayOfYear(month, day))
    && FitsI32(DayOfEra(shifted, month, day))
    && FitsI64(Era(shifted) * 146_097) && FitsI64(Era(shifted) * 146_097 + DayOfEra(shifted, month, day))
    && FitsI64(DaysFromCivil(year, month, day))
  }

  lemma NoOverflow(year: int, month: int, day: int)
    requires 0 <= year <= 9999 && IsDate(year, month, day)
    ensures IntermediatesFit(year, month, day)
    ensures -719_528 <= DaysFromCivil(year, month, day) <= 2_932_896
  {
    EraIsFloor(ShiftedYear(year, month));
    assert DaysFromCivil(0, 1, 1) == -719_528 by { EraIsFloor(-1); }
    assert DaysFromCivil(9999, 12, 31) == 2_932_896 by { EraIsFloor(9999); }
    DaysStrictlyIncrease(0, 1, 1, year, month, day);
    DaysStrictlyIncrease(year, month, day, 9999, 12, 31);
  }

  const MIN_EPOCH: int := -62_167_219_200
  const MAX_EPOCH: int := 253_402_300_799

  lemma EpochRange(t: Stamp)
    requires ValidStamp(t)
    ensures MIN_EPOCH <= EpochOf(t) <= MAX_EPOCH
  {
    NoOverflow(t.year, t.month, t.day);
  }

  /** The chain of saturating i64 operations that turns the fields into seconds. */
  function SaturatingEpoch(t: Stamp): int {
    var days := DaysFromCivil(t.year, t.month, t.day);
    SaturatingAdd(SaturatingAdd(SaturatingAdd(SaturatingMul(days, 86_400), t.hour * 3_600), t.minute * 60), t.second)
  }

  lemma SaturatingEpochIsExact(t: Stamp)
    requires ValidStamp(t)
    ensures SaturatingEpoch(t) == EpochOf(t)
  {
    NoOverflow(t.year, t.month, t.day);
  }

  datatype ParsedAmzDate = ParsedAmzDate(date: Bytes, epochSeconds: int)

  /** `parse_amz_date`: the saturating operations never saturate, so the result is the unbounded one. */
  method ParseAmzDate(value: Bytes) returns (r: Option<ParsedAmzDate>)
    ensures r == match ReadStamp(value) case None => None case Some(t) => Some(ParsedAmzDate(value[..8], EpochOf(t)))
  {
    if |value| != 16 || value[8] != LETTER_T || value[15] != LETTER_Z {
      return None;
    }
    LayoutSlices(value);
    var year := ParseDigits(value[0..4], I32_MAX);
    var month := ParseDigits(value[4..6], U32_MAX);
    var day := ParseDigits(value[6..8], U32_MAX);
    var hour := ParseDigits(value[9..11], U32_MAX);
    var minute := ParseDigits(value[11..13], U32_MAX);
    var second := ParseDigits(value[13..15], U32_MAX);
    if year.None? || month.None? || day.None? || hour.None? || minute.None? || second.None? {
      return None;
    }
    FieldRanges(value);
    if month.value == 0 || month.value > 12 || day.value == 0 || day.value > DaysInMonth(year.value, month.value)
       || hour.value > 23 || minute.value > 59 || second.value > 59
    {
      return None;
    }
    var t := Stamp(year.value, month.value, day.value, hour.value, minute.value, second.value);
    SaturatingEpochIsExact(t);
    return Some(ParsedAmzDate(value[..8], SaturatingEpoch(t)));
  }

  // ---------- print and read are inverse ----------

  lemma PrintSlices(t: Stamp)
    ensures var s := PrintStamp(t);
            && s[0..4] == Padded(t.year, 4) && s[4..6] == Padded(t.month, 2) && s[6..8] == Padded(t.day, 2)
            && s[9..11] == Padded(t.hour, 2) && s[11..13] == Padded(t.minute, 2) && s[13..15] == Padded(t.second, 2)
            && s[8] == LETTER_T && s[15] == LETTER_Z && s[..8] == PrintDate(t)
  {
    var s := PrintStamp(t);
    assert s[..8] == PrintDate(t) && s[9..15] == PrintTime(t);
    assert s[0..4] == s[..8][0..4] && s[4..6] == s[..8][4..6] && s[6..8] == s[..8][6..8];
    assert s[9..11] == s[9..15][0..2] && s[11..13] == s[9..15][2..4] && s[13..15] == s[9..15][4..6];
    ThreeBlocks(Padded(t.year, 4), Padded(t.month, 2), Padded(t.day, 2));
    ThreeBlocks(Padded(t.hour, 2), Padded(t.minute, 2), Padded(t.second, 2));
  }

  lemma ThreeBlocks(a: Bytes, b: Bytes, c: Bytes)
    ensures (a + b + c)[0..|a|] == a && (a + b + c)[|a|..|a| + |b|] == b && (a + b + c)[|a| + |b|..] == c
    ensures (a + b + c)[|a| + |b|..|a| + |b| + |c|] == c
  {
  }

  lemma ReadPrinted(t: Stamp)
    requires ValidStamp(t)
    ensures ReadStamp(PrintStamp(t)) == Some(t)
  {
    PrintSlices(t);
    LayoutSlices(PrintStamp(t));
    assert Pow10(2) == 100 && Pow10(4) == 10000;
    PaddedValue(t.year, 4);
    PaddedValue(t.month, 2);
    PaddedValue(t.day, 2);
    PaddedValue(t.hour, 2);
    PaddedValue(t.minute, 2);
    PaddedValue(t.second, 2);
    assert PrintStamp(t)[..8] == PrintStamp(t)[0..8];
  }

  lemma StampPieces(s: Bytes)
    requires |s| == 16
    ensures s[..8] == s[0..4] + s[4..6] + s[6..8] && s[9..15] == s[9..11] + s[11..13] + s[13..15]
    ensures s == s[..8] + [s[8]] + s[9..15] + [s[15]]
  {
  }

  lemma PrintRead(s: Bytes)
    requires ReadStamp(s).Some?
    ensures PrintStamp(ReadStamp(s).value) == s && PrintDate(ReadStamp(s).value) == s[..8]
  {
    LayoutSlices(s);
    ValuePadded(s[0..4]);
    ValuePadded(s[4..6]);
    ValuePadded(s[6..8]);
    ValuePadded(s[9..11]);
    ValuePadded(s[11..13]);
    ValuePadded(s[13..15]);
    StampPieces(s);
  }

  // ---------- the bytewise order is the order of time ----------

  predicate StampBefore(a: Stamp, b: Stamp) {
    || DateBefore(a.year, a.month, a.day, b.year, b.month, b.day)
    || (a.year == b.year && a.month == b.month && a.day == b.day && SecondsOfDay(a) < SecondsOfDay(b))
  }

  lemma EpochFollowsFields(a: Stamp, b: Stamp)
    requires ValidStamp(a) && ValidStamp(b)
    ensures StampBefore(a, b) <==> EpochOf(a) < EpochOf(b)
    ensures a == b <==> EpochOf(a) == EpochOf(b)
  {
    DaysStrictlyIncrease(a.year, a.month, a.day, b.year, b.month, b.day);
    DaysStrictlyIncrease(b.year, b.month, b.day, a.year, a.month, a.day);
  }

  /** Printed numbers of equal width compare as the numbers do. */
  lemma PaddedOrder(m: nat, n: nat, width: nat)
    requires m < Pow10(width) && n < Pow10(width)
    ensures LexLeq(Padded(m, width), Padded(n, width)) <==> m <= n
    ensures Padded(m, width) == Padded(n, width) <==> m == n
  {
    PaddedValue(m, width);
    PaddedValue(n, width);
    DigitsOrder(Padded(m, width), Padded(n, width));
  }

  lemma TripleOrder(a1: Bytes, a2: Bytes, a3: Bytes, b1: Bytes, b2: Bytes, b3: Bytes)
    requires |a1| == |b1| && |a2| == |b2| && |a3| == |b3|
    ensures LexLeq(a1 + a2 + a3, b1 + b2 + b3)
       <==> if a1 != b1 then LexLeq(a1, b1) else if a2 != b2 then LexLeq(a2, b2) else LexLeq(a3, b3)
    ensures a1 + a2 + a3 == b1 + b2 + b3 <==> a1 == b1 && a2 == b2 && a3 == b3
  {
    LexBlocks(a1 + a2, a3, b1 + b2, b3);
    LexBlocks(a1, a2, b1, b2);
    ThreeBlocks(a1, a2, a3);
    ThreeBlocks(b1, b2, b3);
    if a1 + a2 == b1 + b2 { assert (a1 + a2)[..|a1|] == a1 && (b1 + b2)[|b1|..] == b2 && (a1 + a2)[|a1|..] == a2; }
  }

  lemma DateOrder(a: Stamp, b: Stamp)
    requires ValidStamp(a) && ValidStamp(b)
    ensures LexLeq(PrintDate(a), PrintDate(b)) <==> !DateBefore(b.year, b.month, b.day, a.year, a.month, a.day)
    ensures PrintDate(a) == PrintDate(b) <==> a.year == b.year && a.month == b.month && a.day == b.day
  {
    assert Pow10(2) == 100 && Pow10(4) == 10000;
    PaddedOrder(a.year, b.year, 4);
    PaddedOrder(a.month, b.month, 2);
    PaddedOrder(a.day, b.day, 2);
    TripleOrder(Padded(a.year, 4), Padded(a.month, 2), Padded(a.day, 2),
                Padded(b.year, 4), Padded(b.month, 2), Padded(b.day, 2));
  }

  lemma TimeOrder(a: Stamp, b: Stamp)
    requires ValidStamp(a) && ValidStamp(b)
    ensures LexLeq(PrintTime(a), PrintTime(b)) <==> SecondsOfDay(a) <= SecondsOfDay(b)
    ensures PrintTime(a) == PrintTime(b) <==> SecondsOfDay(a) == SecondsOfDay(b)
  {
    assert Pow10(2) == 100;
    PaddedOrder(a.hour, b.hour, 2);
    PaddedOrder(a.minute, b.minute, 2);
    PaddedOrder(a.second, b.second, 2);
    TripleOrder(Padded(a.hour, 2), Padded(a.minute, 2), Padded(a.second, 2),
                Padded(b.hour, 2), Padded(b.minute, 2), Padded(b.second, 2));
  }

  lemma PrintOrder(a: Stamp, b: Stamp)
    requires ValidStamp(a) && ValidStamp(b)
    ensures LexLeq(PrintStamp(a), PrintStamp(b)) <==> !StampBefore(b, a)
  {
    DateOrder(a, b);
    TimeOrder(a, b);
    var da, db, ta, tb := PrintDate(a), PrintDate(b), PrintTime(a), PrintTime(b);
    assert PrintStamp(a) == da + [LETTER_T] + ta + [LETTER_Z] && PrintStamp(b) == db + [LETTER_T] + tb + [LETTER_Z];
    LexBlocks(da + [LETTER_T] + ta, [LETTER_Z], db + [LETTER_T] + tb, [LETTER_Z]);
    LexTotal([LETTER_Z], [LETTER_Z]);
    TripleOrder(da, [LETTER_T], ta, db, [LETTER_T], tb);
    LexTotal(da + [LETTER_T] + ta, db + [LETTER_T] + tb);
  }

  /** Two accepted timestamps compare bytewise exactly as the instants they denote. */
  lemma TimestampOrderEmbedding(s1: Bytes, s2: Bytes)
    requires ReadStamp(s1).Some? && ReadStamp(s2).Some?
    ensures LexLeq(s1, s2) <==> EpochOf(ReadStamp(s1).value) <= EpochOf(ReadStamp(s2).value)
    ensures s1 == s2 <==> EpochOf(ReadStamp(s1).value) == EpochOf(ReadStamp(s2).value)
  {
    var a, b := ReadStamp(s1).value, ReadStamp(s2).value;
    PrintRead(s1);
    PrintRead(s2);
    PrintOrder(a, b);
    EpochFollowsFields(a, b);
    EpochFollowsFields(b, a);
  }

  // ---------- every instant has a timestamp ----------

  lemma DateBounds()
    ensures DaysFromCivil(0, 1, 1) == -719_528 && DaysFromCivil(9999, 12, 31) == 2_932_896
    ensures IsDate(0, 1, 1) && IsDate(9999, 12, 31)
  {
    EraIsFloor(-1);
    EraIsFloor(9999);
  }

  lemma {:induction false} DateOfDay(n: int) returns (y: int, m: int, d: int)
    requires -719_528 <= n <= 2_932_896
    ensures 0 <= y <= 9999 && IsDate(y, m, d) && DaysFromCivil(y, m, d) == n
    decreases n + 719_528
  {
    DateBounds();
    if n == -719_528 {
      y, m, d := 0, 1, 1;
    } else {
      var y', m', d' := DateOfDay(n - 1);
      var next := NextDate(y', m', d');
      y, m, d := next.0, next.1, next.2;
      DaysAdvanceByOne(y', m', d');
      NextYear(y', m', d', n);
    }
  }

  lemma NextYear(y: int, m: int, d: int, n: int)
    requires IsDate(y, m, d) && 0 <= y <= 9999 && DaysFromCivil(y, m, d) == n - 1 && n <= 2_932_896
    ensures 0 <= NextDate(y, m, d).0 <= 9999
  {
    DateBounds();
  }

  /** Every second of the years 0 to 9999 is the instant of a timestamp, and so of exactly one. */
  lemma EveryInstantHasAStamp(epoch: int) returns (t: Stamp)
    requires MIN_EPOCH <= epoch <= MAX_EPOCH
    ensures ValidStamp(t) && EpochOf(t) == epoch
    ensures ReadStamp(PrintStamp(t)) == Some(t)
    ensures forall s :: ReadStamp(s).Some? && EpochOf(ReadStamp(s).value) == epoch ==> s == PrintStamp(t)
  {
    var day, rest := epoch / 86_400, epoch % 86_400;
    var y, m, d := DateOfDay(day);
    t := Stamp(y, m, d, rest / 3_600, rest % 3_600 / 60, rest % 60);
    assert rest % 3_600 % 60 == rest % 60;
    ReadPrinted(t);
    forall s | ReadStamp(s).Some? && EpochOf(ReadStamp(s).value) == epoch ensures s == PrintStamp(t) {
      TimestampOrderEmbedding(s, PrintStamp(t));
    }
  }

  /** The printed form: four digits of year, two of everything else, `T` before the time and `Z` at the end. */
  lemma StampText(t: Stamp)
    ensures PrintStamp(t) == Padded(t.year, 4) + Padded(t.month, 2) + Padded(t.day, 2) + Lit("T")
                             + Padded(t.hour, 2) + Padded(t.minute, 2) + Padded(t.second, 2) + Lit("Z")
  {
    assert Lit("T") == [LETTER_T] && Lit("Z") == [LETTER_Z];
  }

  // ---------- the validity window ----------

  /** `system_time_epoch_seconds`: whole seconds, clamped symmetrically to the i64 maximum. */
  function NowSeconds(now: int): int {
    if now > I64_MAX then I64_MAX else if now < -I64_MAX then -I64_MAX else now
  }

  /** `saturating_duration_i64` */
  function DurationSeconds(secs: nat): nat { if secs > I64_MAX then I64_MAX else secs }

  /** The two tests of `verify`; `saturating_add` is the clamped sum. */
  predicate IsFutureDated(epoch: int, now: int, skew: nat) {
    epoch > ClampI64(NowSeconds(now) + DurationSeconds(skew))
  }

  predicate IsExpired(epoch: int, now: int, expires: nat) {
    NowSeconds(now) > ClampI64(epoch + DurationSeconds(expires))
  }

  const MAX_EXPIRES: nat := 7 * 24 * 60 * 60

  /** The expiry test is exact for every instant, however far outside the i64 range. */
  lemma ExpiryIsExact(epoch: int, now: int, expires: nat)
    requires MIN_EPOCH <= epoch <= MAX_EPOCH && expires <= MAX_EXPIRES
    ensures IsExpired(epoch, now, expires) <==> now > epoch + expires
  {
  }

  /** What the future-dated test lets pass: the capped skew is subtracted, and below the clock's range all is early. */
  predicate NotEarly(epoch: int, now: int, skew: nat) {
    var first := epoch - DurationSeconds(skew);
    first <= -I64_MAX || first <= now
  }

  /** The future test in unbounded arithmetic, for every instant and every skew. */
  lemma FutureTestIs(epoch: int, now: int, skew: nat)
    requires MIN_EPOCH <= epoch <= MAX_EPOCH
    ensures IsFutureDated(epoch, now, skew) <==> !NotEarly(epoch, now, skew)
  {
  }

  predicate FutureTestExact(epoch: int, now: int, skew: nat) {
    IsFutureDated(epoch, now, skew) <==> epoch > now + skew
  }

  /** The skews, for one timestamp, at which no clamping can show on any integer. */
  predicate SkewUnclamped(epoch: int, skew: nat) { skew <= I64_MAX && skew < I64_MAX + epoch }

  lemma FutureTestUnclamped(epoch: int, now: int, skew: nat)
    requires MIN_EPOCH <= epoch <= MAX_EPOCH && SkewUnclamped(epoch, skew)
    ensures FutureTestExact(epoch, now, skew)
  {
    FutureTestIs(epoch, now, skew);
  }

  /**
    The skews, for one timestamp, at which no clock reading shows the clamping.  A clock reading is a signed
    64-bit number of seconds, and up to the Unix epoch a single skew is left over.
   */
  predicate SkewExact(epoch: int, skew: nat) {
    if epoch <= 0 then skew != I64_MAX + epoch else skew <= I64_MAX
  }

  /** A clock reading at which the clamping shows, when one exists. */
  function ClampWitness(epoch: int): int { if epoch <= 0 then -I64_MAX - 1 else epoch - I64_MAX - 1 }

  lemma ClampShows(epoch: int, skew: nat)
    requires MIN_EPOCH <= epoch <= MAX_EPOCH && !SkewExact(epoch, skew)
    ensures FitsI64(ClampWitness(epoch)) && !FutureTestExact(epoch, ClampWitness(epoch), skew)
    ensures ClampWitness(epoch) <= epoch
  {
    FutureTestIs(epoch, ClampWitness(epoch), skew);
  }

  /** For one timestamp: the test agrees with unbounded arithmetic at every clock reading exactly at these skews. */
  lemma FutureTestIsExactIff(epoch: int, skew: nat)
    requires MIN_EPOCH <= epoch <= MAX_EPOCH
    ensures (forall now | FitsI64(now) :: FutureTestExact(epoch, now, skew)) <==> SkewExact(epoch, skew)
  {
    if SkewExact(epoch, skew) {
      forall now | FitsI64(now) ensures FutureTestExact(epoch, now, skew) { FutureTestIs(epoch, now, skew); }
    } else {
      ClampShows(epoch, skew);
    }
  }

  /**
    The future test agrees with unbounded arithmetic, at every clock reading and for every accepted
    timestamp, exactly when the configured skew is below this bound.
   */
  lemma FutureTestIsExactBelowBound(skew: nat)
    ensures (forall epoch, now | MIN_EPOCH <= epoch <= MAX_EPOCH && FitsI64(now) :: FutureTestExact(epoch, now, skew))
       <==> skew < I64_MAX + MIN_EPOCH
  {
    if skew < I64_MAX + MIN_EPOCH {
      forall epoch, now | MIN_EPOCH <= epoch <= MAX_EPOCH && FitsI64(now)
        ensures FutureTestExact(epoch, now, skew)
      {
        FutureTestUnclamped(epoch, now, skew);
      }
    } else {
      var epoch := if skew <= I64_MAX then skew - I64_MAX else 1;
      ClampShows(epoch, skew);
    }
  }
}
