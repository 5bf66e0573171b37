/** Manifest timestamps: the accepted text form and its value in Unix seconds. */
module Timestamp {
  import opened Wrappers
  import opened Numbers
  import opened StoreErrors
  import Calendar

  const HYPHEN: u8 := 45
  const ZERO: u8 := 48
  const NINE: u8 := 57
  const COLON: u8 := 58
  const LETTER_T: u8 := 84
  const LETTER_Z: u8 := 90

  // ---------------------------------------------------------------- civil days

  /** Days from 1970-01-01 by era arithmetic. Every intermediate value is an i32. */
  function DaysFromCivil(year: i32, month: i32, day: i32): i64
    requires 0 <= year <= 9999 && 1 <= month <= 12 && 1 <= day <= 31
  {
    var adjustedYear := year - (if month <= 2 then 1 else 0);
    var era := TruncDiv(if adjustedYear >= 0 then adjustedYear else adjustedYear - 399, 400);
    var yearOfEra := adjustedYear - era * 400;
    var monthPrime := month + (if month > 2 then -3 else 9);
    var dayOfYear := TruncDiv(153 * monthPrime + 2, 5) + day - 1;
    var dayOfEra := yearOfEra * 365 + TruncDiv(yearOfEra, 4) - TruncDiv(yearOfEra, 100) + dayOfYear;
    (era * 146_097 + dayOfEra - 719_468) as i64
  }

  /** The same count over unbounded integers, with years that start in March and no eras. */
  function MarchCount(marchYear: int, dayOfYear: int): int {
    365 * marchYear + marchYear / 4 - marchYear / 100 + marchYear / 400 + dayOfYear - 719_468
  }

  function MarchYear(year: int, month: int): int {
    year - if month <= 2 then 1 else 0
  }

  function MarchDay(month: int, day: int): int {
    (153 * (month + if month > 2 then -3 else 9) + 2) / 5 + day - 1
  }

  /** Four hundred years are one era, whichever year the count starts from. */
  lemma ErasTogether(marchYear: int, dayOfYear: int)
    ensures var era := marchYear / 400; var yearOfEra := marchYear - era * 400;
            era * 146_097 + (yearOfEra * 365 + yearOfEra / 4 - yearOfEra / 100 + dayOfYear) - 719_468
            == MarchCount(marchYear, dayOfYear)
  {
    var era := marchYear / 400;
    var yearOfEra := marchYear - era * 400;
    assert marchYear / 4 == 100 * era + yearOfEra / 4;
    assert marchYear / 100 == 4 * era + yearOfEra / 100;
  }

  lemma FloorByTruncation(a: i32)
    requires -400 <= a <= 9999
    ensures TruncDiv(if a >= 0 then a else a - 399, 400) as int == (a as int) / 400
  {}

  lemma DaysFromCivilIsMarchCount(year: i32, month: i32, day: i32)
    requires 0 <= year <= 9999 && 1 <= month <= 12 && 1 <= day <= 31
    ensures DaysFromCivil(year, month, day) as int
            == MarchCount(MarchYear(year as int, month as int), MarchDay(month as int, day as int))
  {
    var adjustedYear := year - (if month <= 2 then 1 else 0);
    FloorByTruncation(adjustedYear);
    ErasTogether(adjustedYear as int, MarchDay(month as int, day as int));
  }

  /** A year's leap days, counted up to its end or up to the end of the year before. */
  lemma LeapsAtYearEnd(year: int)
    ensures Calendar.LeapsBefore(year + 1) == year / 4 - year / 100 + year / 400 + 1
  {
    assert (year + 4) / 4 == year / 4 + 1;
    assert (year + 100) / 100 == year / 100 + 1;
    assert (year + 400) / 400 == year / 400 + 1;
  }

  lemma MarchCountIsNaive(year: int, month: int, day: int)
    requires 1 <= month <= 12
    ensures MarchCount(MarchYear(year, month), MarchDay(month, day)) == Calendar.DayNumber(year, month, day)
  {
    Calendar.YearStartClosed(year);
    Calendar.MonthStartTable(year);
    if month <= 2 {
      LeapsAtYearEnd(year - 1);
    } else {
      LeapsAtYearEnd(year);
      Calendar.LeapsBeforeNext(year);
    }
  }

  /**
   The era arithmetic counts the days of the calendar, for every date the parser can
   pass it: also for January and February of year 0, and for a day past the month's end.
   */
  lemma DaysFromCivilIsNaive(year: i32, month: i32, day: i32)
    requires 0 <= year <= 9999 && 1 <= month <= 12 && 1 <= day <= 31
    ensures DaysFromCivil(year, month, day) as int
            == Calendar.DayNumber(year as int, month as int, day as int)
  {
    DaysFromCivilIsMarchCount(year, month, day);
    MarchCountIsNaive(year as int, month as int, day as int);
  }

  // ------------------------------------------------------------------- parsing

  predicate IsDigit(b: u8) {
    ZERO <= b <= NINE
  }

  function Pow10(n: nat): (p: nat)
    ensures p > 0
  {
    if n == 0 then 1 else 10 * Pow10(n - 1)
  }

  /** The value of a digit string, most significant digit first; nine digits always fit an i32. */
  function DigitsValue(bytes: Bytes): (r: Result<i32, StoreLoadError>)
    requires |bytes| <= 9
    ensures r.Success? ==> 0 <= r.value as int < Pow10(|bytes|) <= 1_000_000_000
    ensures r.Success? <==> forall b :: b in bytes ==> IsDigit(b)
    ensures r.Failure? ==> r.error == ManifestTimeInvalid
  {
    Pow10Bound(|bytes|);
    if bytes == [] then Success(0)
    else
      var front, last := bytes[..|bytes| - 1], bytes[|bytes| - 1];
      assert bytes == front + [last];
      var high :- DigitsValue(front);
      Pow10Bound(|front|);
      if IsDigit(last) then Success(high * 10 + (last - ZERO) as i32) else Failure(ManifestTimeInvalid)
  }

  lemma Pow10Bound(n: nat)
    requires n <= 9
    ensures Pow10(n) <= 1_000_000_000
  {
    assert Pow10(9) == 1_000_000_000;
    Pow10Monotone(n, 9);
  }

  lemma Pow10Monotone(n: nat, m: nat)
    requires n <= m
    ensures Pow10(n) <= Pow10(m)
  {
    if n < m {
      Pow10Monotone(n, m - 1);
    }
  }

  method ParseDigits(bytes: Bytes) returns (r: Result<i32, StoreLoadError>)
    requires |bytes| <= 9
    ensures r == DigitsValue(bytes)
  {
    var value: i32 := 0;
    for i := 0 to |bytes|
      invariant DigitsValue(bytes[..i]) == Success(value)
    {
      assert bytes[..i + 1][..i] == bytes[..i];
      if !IsDigit(bytes[i]) {
        assert bytes[i] in bytes;
        return Failure(ManifestTimeInvalid);
      }
      Pow10Bound(i);
      TenthBelow(value as int, i);
      value := value * 10 + (bytes[i] - ZERO) as i32;
    }
    assert bytes[..|bytes|] == bytes;
    return Success(value);
  }

  /** Before the last of at most nine digits the value has at most eight, so no step overflows. */
  lemma TenthBelow(value: int, i: nat)
    requires i < 9 && 0 <= value < Pow10(i)
    ensures 10 * value + 9 < 1_000_000_000
  {
    Pow10Bound(i + 1);
  }

  function Require(value: u8, expected: u8): (r: Result<(), StoreLoadError>) {
    if value == expected then Success(()) else Failure(ManifestTimeInvalid)
  }

  function ParseRfc3339Utc(value: Bytes): (r: Result<i64, StoreLoadError>)
    ensures r.Success? ==> -100_000_000_000 < r.value < 300_000_000_000
    ensures r.Failure? ==> r.error == ManifestTimeInvalid
  {
    if |value| != 20 || value[19] != LETTER_Z then Failure(ManifestTimeInvalid)
    else
      var year :- DigitsValue(value[0..4]);
      var _ :- Require(value[4], HYPHEN);
      var month :- DigitsValue(value[5..7]);
      var _ :- Require(value[7], HYPHEN);
      var day :- DigitsValue(value[8..10]);
      var _ :- Require(value[10], LETTER_T);
      var hour :- DigitsValue(value[11..13]);
      var _ :- Require(value[13], COLON);
      var minute :- DigitsValue(value[14..16]);
      var _ :- Require(value[16], COLON);
      var second :- DigitsValue(value[17..19]);
      if !(1 <= month <= 12) || !(1 <= day <= 31)
         || !(0 <= hour <= 23) || !(0 <= minute <= 59) || !(0 <= second <= 59)
      then Failure(ManifestTimeInvalid)
      else
        assert Pow10(4) == 10_000;
        DayCountFits(year, month, day);
        Success(DaysFromCivil(year, month, day) * 86_400 + hour as i64 * 3_600 + minute as i64 * 60 + second as i64)
  }

  method ReadRfc3339Utc(value: Bytes) returns (r: Result<i64, StoreLoadError>)
    ensures r == ParseRfc3339Utc(value)
  {
    if |value| != 20 || value[19] != LETTER_Z {
      return Failure(ManifestTimeInvalid);
    }
    var year :- ParseDigits(value[0..4]);
    var _ :- Require(value[4], HYPHEN);
    var month :- ParseDigits(value[5..7]);
    var _ :- Require(value[7], HYPHEN);
    var day :- ParseDigits(value[8..10]);
    var _ :- Require(value[10], LETTER_T);
    var hour :- ParseDigits(value[11..13]);
    var _ :- Require(value[13], COLON);
    var minute :- ParseDigits(value[14..16]);
    var _ :- Require(value[16], COLON);
    var second :- ParseDigits(value[17..19]);
    assert Pow10(4) == 10_000;
    if !(1 <= month <= 12) || !(1 <= day <= 31)
       || !(0 <= hour <= 23) || !(0 <= minute <= 59) || !(0 <= second <= 59) {
      return Failure(ManifestTimeInvalid);
    }
    DayCountFits(year, month, day);
    return Success(DaysFromCivil(year, month, day) * 86_400 + hour as i64 * 3_600 + minute as i64 * 60 + second as i64);
  }

  /** A year of four digits and a day on the calendar's grid leave room for the seconds of the day. */
  lemma DayCountFits(year: i32, month: i32, day: i32)
    requires 0 <= year <= 9999 && 1 <= month <= 12 && 1 <= day <= 31
    ensures -719_530 <= DaysFromCivil(year, month, day) as int <= 2_933_100
  {
    DaysFromCivilIsNaive(year, month, day);
    DayNumberBound(year as int, month as int, day as int);
  }

  /** The day counts the parser multiplies by 86 400 stay far from the ends of an i64. */
  lemma DayNumberBound(year: int, month: int, day: int)
    requires 0 <= year <= 9999 && 1 <= month <= 12 && 1 <= day <= 31
    ensures -719_530 <= Calendar.DayNumber(year, month, day) <= 2_933_100
  {
    YearStartBound(year);
    Calendar.MonthStartMonotone(year, 1, month);
    Calendar.MonthStartMonotone(year, month, 12);
    Calendar.MonthStartTable(year);
  }

  lemma YearStartBound(year: int)
    requires 0 <= year <= 9999
    ensures -719_530 <= Calendar.YearStart(year) <= 2_932_700
  {
    Calendar.YearStartClosed(year);
    assert -2 <= Calendar.LeapsBefore(year) <= (year + 3) / 4 + (year + 399) / 400;
  }

  // ----------------------------------------------------- the text form, inverted

  /** The fields of a timestamp. */
  datatype Civil = Civil(year: int, month: int, day: int, hour: int, minute: int, second: int) {

    /** What the parser checks of the fields. */
    predicate InRange() {
      && 0 <= year <= 9999 && 1 <= month <= 12 && 1 <= day <= 31
      && 0 <= hour <= 23 && 0 <= minute <= 59 && 0 <= second <= 59
    }

    /** In range, and the day exists in its month. */
    predicate OnCalendar() {
      InRange() && day <= Calendar.MonthLength(year, month)
    }

    function Seconds(): int
      requires InRange()
    {
      Calendar.DayNumber(year, month, day) * 86_400 + hour * 3_600 + minute * 60 + second
    }
  }

  function Pad(v: nat, width: nat): (s: Bytes)
    ensures |s| == width
    ensures forall b :: b in s ==> IsDigit(b)
  {
    if width == 0 then [] else Pad(v / 10, width - 1) + [ZERO + v % 10]
  }

  /** `YYYY-MM-DDTHH:MM:SSZ`. */
  function Render(c: Civil): (s: Bytes)
    requires c.InRange()
    ensures |s| == 20
  {
    Pad(c.year, 4) + ([HYPHEN] + (Pad(c.month, 2) + ([HYPHEN] + (Pad(c.day, 2) + ([LETTER_T] +
      (Pad(c.hour, 2) + ([COLON] + (Pad(c.minute, 2) + ([COLON] + (Pad(c.second, 2) + [LETTER_Z]))))))))))
  }

  lemma {:induction false} DigitsOfPad(v: nat, width: nat)
    requires width <= 9 && v < Pow10(width)
    ensures DigitsValue(Pad(v, width)).Success?
    ensures DigitsValue(Pad(v, width)).value as int == v
  {
    if width > 0 {
      var s := Pad(v, width);
      assert s[..width - 1] == Pad(v / 10, width - 1) && s[width - 1] == ZERO + v % 10;
      DigitsOfPad(v / 10, width - 1);
    }
  }

  lemma {:induction false} PadOfDigits(bytes: Bytes)
    requires |bytes| <= 9 && DigitsValue(bytes).Success?
    ensures Pad(DigitsValue(bytes).value as int, |bytes|) == bytes
  {
    if bytes != [] {
      var front, last := bytes[..|bytes| - 1], bytes[|bytes| - 1];
      assert bytes == front + [last];
      LastDigit(front, last);
      PadOfDigits(front);
      PadNext(DigitsValue(front).value as int, last - ZERO, |front|);
    }
  }

  lemma PadNext(high: nat, digit: nat, width: nat)
    requires digit < 10
    ensures Pad(10 * high + digit, width + 1) == Pad(high, width) + [ZERO + digit]
  {}

  lemma LastDigit(front: Bytes, last: u8)
    requires |front| <= 8 && DigitsValue(front + [last]).Success?
    ensures DigitsValue(front).Success? && IsDigit(last)
    ensures DigitsValue(front + [last]).value as int == 10 * DigitsValue(front).value as int + (last - ZERO)
  {
    assert (front + [last])[..|front|] == front;
  }

  /** Where each field of a rendered timestamp sits. */
  lemma Layout(c: Civil)
    requires c.InRange()
    ensures var s := Render(c);
            && s[4] == s[7] == HYPHEN && s[10] == LETTER_T && s[13] == s[16] == COLON && s[19] == LETTER_Z
            && s[0..4] == Pad(c.year, 4) && s[5..7] == Pad(c.month, 2) && s[8..10] == Pad(c.day, 2)
            && s[11..13] == Pad(c.hour, 2) && s[14..16] == Pad(c.minute, 2) && s[17..19] == Pad(c.second, 2)
  {
    var time := Pad(c.hour, 2) + ([COLON] + (Pad(c.minute, 2) + ([COLON] + (Pad(c.second, 2) + [LETTER_Z]))));
    var date := Pad(c.year, 4) + ([HYPHEN] + (Pad(c.month, 2) + ([HYPHEN] + (Pad(c.day, 2) + [LETTER_T]))));
    assert Render(c) == date + time;
    ThreeFields(Pad(c.year, 4), HYPHEN, Pad(c.month, 2), HYPHEN, Pad(c.day, 2), LETTER_T);
    ThreeFields(Pad(c.hour, 2), COLON, Pad(c.minute, 2), COLON, Pad(c.second, 2), LETTER_Z);
    var s := date + time;
    assert s[0..4] == date[0..4] && s[5..7] == date[5..7] && s[8..10] == date[8..10];
    assert s[11..13] == time[0..2] && s[14..16] == time[3..5] && s[17..19] == time[6..8];
  }

  /** ASCII decimal digits read from the left. */
  function ReadAscii(bytes: Bytes): int {
    if bytes == [] then 0
    else 10 * ReadAscii(bytes[..|bytes| - 1]) + bytes[|bytes| - 1] - '0' as int
  }

  ghost predicate AsciiDigits(bytes: Bytes, v: nat) {
    (forall b :: b in bytes ==> '0' as int <= b <= '9' as int) && ReadAscii(bytes) == v
  }

  lemma {:induction false} PadIsAscii(v: nat, width: nat)
    requires v < Pow10(width)
    ensures AsciiDigits(Pad(v, width), v)
  {
    if width > 0 {
      var s := Pad(v, width);
      assert s[..width - 1] == Pad(v / 10, width - 1) && s[width - 1] == ZERO + v % 10;
      PadIsAscii(v / 10, width - 1);
    }
  }

  /** What is rendered, and so, by RenderFields, all that is accepted: the ASCII text of section 5.6 of RFC 3339, in seconds and `Z`. */
  lemma RenderedText(c: Civil)
    requires c.InRange()
    ensures var s := Render(c);
            && s[4] == s[7] == '-' as int && s[10] == 'T' as int && s[13] == s[16] == ':' as int && s[19] == 'Z' as int
            && AsciiDigits(s[0..4], c.year) && AsciiDigits(s[5..7], c.month) && AsciiDigits(s[8..10], c.day)
            && AsciiDigits(s[11..13], c.hour) && AsciiDigits(s[14..16], c.minute) && AsciiDigits(s[17..19], c.second)
  {
    Layout(c);
    PowersOfTen();
    PadIsAscii(c.year, 4);
    PadIsAscii(c.month, 2);
    PadIsAscii(c.day, 2);
    PadIsAscii(c.hour, 2);
    PadIsAscii(c.minute, 2);
    PadIsAscii(c.second, 2);
  }

  predicate IsAsciiDigits(bytes: Bytes) {
    forall b :: b in bytes ==> '0' as int <= b <= '9' as int
  }

  /** The form of section 5.6 of RFC 3339 in whole seconds and `Z`, and the range of each field. */
  predicate IsTimestamp(s: Bytes) {
    && |s| == 20
    && s[4] == s[7] == '-' as int && s[10] == 'T' as int && s[13] == s[16] == ':' as int && s[19] == 'Z' as int
    && IsAsciiDigits(s[0..4]) && IsAsciiDigits(s[5..7]) && IsAsciiDigits(s[8..10])
    && IsAsciiDigits(s[11..13]) && IsAsciiDigits(s[14..16]) && IsAsciiDigits(s[17..19])
    && 1 <= ReadAscii(s[5..7]) <= 12 && 1 <= ReadAscii(s[8..10]) <= 31
    && ReadAscii(s[11..13]) <= 23 && ReadAscii(s[14..16]) <= 59 && ReadAscii(s[17..19]) <= 59
  }

  lemma {:induction false} DigitsAreAscii(bytes: Bytes)
    requires |bytes| <= 9
    ensures DigitsValue(bytes).Success? <==> IsAsciiDigits(bytes)
    ensures DigitsValue(bytes).Success? ==> DigitsValue(bytes).value as int == ReadAscii(bytes)
  {
    if bytes != [] {
      var front, last := bytes[..|bytes| - 1], bytes[|bytes| - 1];
      assert bytes == front + [last];
      DigitsAreAscii(front);
      if DigitsValue(bytes).Success? {
        LastDigit(front, last);
      }
    }
  }

  /** A text is accepted exactly when it has that form, and its value is the seconds of its fields on the naive calendar. */
  lemma AcceptedExactly(s: Bytes)
    ensures ParseRfc3339Utc(s).Success? <==> IsTimestamp(s)
    ensures IsTimestamp(s) ==>
              ParseRfc3339Utc(s).value as int ==
                Calendar.DayNumber(ReadAscii(s[0..4]), ReadAscii(s[5..7]), ReadAscii(s[8..10])) * 86_400
                + ReadAscii(s[11..13]) * 3_600 + ReadAscii(s[14..16]) * 60 + ReadAscii(s[17..19])
  {
    if |s| == 20 {
      AllDigitsAreAscii(s);
      AcceptedForm(s);
    }
    if ParseRfc3339Utc(s).Success? {
      AcceptedValue(s);
    }
  }

  lemma AllDigitsAreAscii(s: Bytes)
    requires |s| == 20
    ensures IsTimestamp(s) <==> DigitsInForm(s)
    ensures DigitsInForm(s) ==>
              && Field(s, 0, 4) == ReadAscii(s[0..4]) && Field(s, 5, 7) == ReadAscii(s[5..7])
              && Field(s, 8, 10) == ReadAscii(s[8..10]) && Field(s, 11, 13) == ReadAscii(s[11..13])
              && Field(s, 14, 16) == ReadAscii(s[14..16]) && Field(s, 17, 19) == ReadAscii(s[17..19])
  {
    DigitsAreAscii(s[0..4]);
    DigitsAreAscii(s[5..7]);
    DigitsAreAscii(s[8..10]);
    DigitsAreAscii(s[11..13]);
    DigitsAreAscii(s[14..16]);
    DigitsAreAscii(s[17..19]);
  }

  /** The same form, with the digits as the parser reads them. */
  predicate DigitsInForm(s: Bytes)
    requires |s| == 20
  {
    && s[4] == s[7] == '-' as int && s[10] == 'T' as int && s[13] == s[16] == ':' as int && s[19] == 'Z' as int
    && DigitsValue(s[0..4]).Success? && DigitsValue(s[5..7]).Success? && DigitsValue(s[8..10]).Success?
    && DigitsValue(s[11..13]).Success? && DigitsValue(s[14..16]).Success? && DigitsValue(s[17..19]).Success?
    && 1 <= Field(s, 5, 7) <= 12 && 1 <= Field(s, 8, 10) <= 31
    && Field(s, 11, 13) <= 23 && Field(s, 14, 16) <= 59 && Field(s, 17, 19) <= 59
  }

  lemma AcceptedForm(s: Bytes)
    requires |s| == 20
    ensures ParseRfc3339Utc(s).Success? <==> DigitsInForm(s)
  {}

  lemma AcceptedValue(s: Bytes)
    requires ParseRfc3339Utc(s).Success?
    ensures ParseRfc3339Utc(s).value as int ==
              Calendar.DayNumber(Field(s, 0, 4), Field(s, 5, 7), Field(s, 8, 10)) * 86_400
              + Field(s, 11, 13) * 3_600 + Field(s, 14, 16) * 60 + Field(s, 17, 19)
  {
    RenderFields(s);
    ParseRender(Fields(s));
  }

  lemma PowersOfTen()
    ensures Pow10(2) == 100 && Pow10(4) == 10_000
  {}

  lemma ThreeFields(x: Bytes, s1: u8, y: Bytes, s2: u8, z: Bytes, s3: u8)
    ensures var s := x + ([s1] + (y + ([s2] + (z + [s3]))));
            && |s| == |x| + |y| + |z| + 3
            && s[0..|x|] == x && s[|x|] == s1
            && s[|x| + 1..|x| + 1 + |y|] == y && s[|x| + 1 + |y|] == s2
            && s[|x| + |y| + 2..|x| + |y| + 2 + |z|] == z && s[|x| + |y| + 2 + |z|] == s3
  {}

  lemma FieldsOfPad(c: Civil)
    requires c.InRange()
    ensures DigitsOf(Pad(c.year, 4), c.year)
    ensures DigitsOf(Pad(c.month, 2), c.month) && DigitsOf(Pad(c.day, 2), c.day)
    ensures DigitsOf(Pad(c.hour, 2), c.hour) && DigitsOf(Pad(c.minute, 2), c.minute)
    ensures DigitsOf(Pad(c.second, 2), c.second)
  {
    FourDigits(c.year);
    TwoDigits(c.month);
    TwoDigits(c.day);
    TwoDigits(c.hour);
    TwoDigits(c.minute);
    TwoDigits(c.second);
  }

  lemma FourDigits(v: nat)
    requires v < 10_000
    ensures DigitsOf(Pad(v, 4), v)
  {
    assert Pow10(4) == 10_000;
    DigitsOfPad(v, 4);
  }

  lemma TwoDigits(v: nat)
    requires v < 100
    ensures DigitsOf(Pad(v, 2), v)
  {
    assert Pow10(2) == 100;
    DigitsOfPad(v, 2);
  }

  predicate DigitsOf(bytes: Bytes, n: int)
    requires |bytes| <= 9
  {
    DigitsValue(bytes).Success? && DigitsValue(bytes).value as int == n
  }

  /** Parsing inverts rendering, on every field combination the parser lets through. */
  lemma ParseRender(c: Civil)
    requires c.InRange()
    ensures ParseRfc3339Utc(Render(c)).Success?
    ensures ParseRfc3339Utc(Render(c)).value as int == c.Seconds()
  {
    Layout(c);
    FieldsOfPad(c);
    DaysFromCivilIsNaive(c.year as i32, c.month as i32, c.day as i32);
  }

  function Field(value: Bytes, lo: nat, hi: nat): (n: nat)
    requires lo <= hi <= |value| && hi - lo <= 9
    requires DigitsValue(value[lo..hi]).Success?
  {
    DigitsValue(value[lo..hi]).value as int
  }

  /** The fields of an accepted timestamp. */
  function Fields(value: Bytes): (c: Civil)
    requires ParseRfc3339Utc(value).Success?
    ensures c.InRange()
  {
    assert Pow10(4) == 10_000;
    Civil(Field(value, 0, 4), Field(value, 5, 7), Field(value, 8, 10),
          Field(value, 11, 13), Field(value, 14, 16), Field(value, 17, 19))
  }

  /** The accepted byte strings are exactly the renderings of in-range fields. */
  lemma RenderFields(value: Bytes)
    requires ParseRfc3339Utc(value).Success?
    ensures Render(Fields(value)) == value
  {
    var c := Fields(value);
    AcceptedPieces(value);
    PadField(value, 0, 4);
    PadField(value, 5, 7);
    PadField(value, 8, 10);
    PadField(value, 11, 13);
    PadField(value, 14, 16);
    PadField(value, 17, 19);
    Layout(c);
    SamePieces(Render(c), value);
  }

  lemma PadField(value: Bytes, lo: nat, hi: nat)
    requires lo <= hi <= |value| && hi - lo <= 9
    requires DigitsValue(value[lo..hi]).Success?
    ensures Pad(Field(value, lo, hi), hi - lo) == value[lo..hi]
  {
    PadOfDigits(value[lo..hi]);
  }

  lemma AcceptedPieces(value: Bytes)
    requires ParseRfc3339Utc(value).Success?
    ensures |value| == 20 && value[4] == value[7] == HYPHEN && value[10] == LETTER_T
    ensures value[13] == value[16] == COLON && value[19] == LETTER_Z
    ensures DigitsValue(value[0..4]).Success? && DigitsValue(value[5..7]).Success?
    ensures DigitsValue(value[8..10]).Success? && DigitsValue(value[11..13]).Success?
    ensures DigitsValue(value[14..16]).Success? && DigitsValue(value[17..19]).Success?
  {}

  lemma SamePieces(s: Bytes, t: Bytes)
    requires |s| == |t| == 20
    requires s[4] == t[4] && s[7] == t[7] && s[10] == t[10] && s[13] == t[13] && s[16] == t[16] && s[19] == t[19]
    requires s[0..4] == t[0..4] && s[5..7] == t[5..7] && s[8..10] == t[8..10]
    requires s[11..13] == t[11..13] && s[14..16] == t[14..16] && s[17..19] == t[17..19]
    ensures s == t
  {
    Reassemble(s);
    Reassemble(t);
  }

  lemma Reassemble(s: Bytes)
    requires |s| == 20
    ensures s == s[0..4] + [s[4]] + s[5..7] + [s[7]] + s[8..10] + [s[10]]
              + s[11..13] + [s[13]] + s[14..16] + [s[16]] + s[17..19] + [s[19]]
  {}
}
