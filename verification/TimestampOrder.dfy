/**
 What the timestamp text promises: instants and calendar-valid texts correspond one to
 one, and byte order is time order. Both stop exactly at dates past the end of a month.
 */
module TimestampOrder {
  import opened Numbers
  import opened Timestamp
  import Calendar

  // ------------------------------------------------------- instants to calendar

  /** The year whose days contain day n, searched upward. */
  function YearOf(n: int, from: int): (y: int)
    requires Calendar.YearStart(from) <= n
    ensures from <= y && Calendar.YearStart(y) <= n < Calendar.YearStart(y + 1)
    decreases n - Calendar.YearStart(from)
  {
    Calendar.YearStartNext(from);
    if n < Calendar.YearStart(from + 1) then from else YearOf(n, from + 1)
  }

  /** The month of a year that contains its day n, searched upward. */
  function MonthOf(year: int, n: int, from: int): (m: int)
    requires 1 <= from <= 12 && Calendar.MonthStart(year, from) <= n < Calendar.YearLength(year)
    ensures from <= m <= 12
    ensures Calendar.MonthStart(year, m) <= n < Calendar.MonthStart(year, m) + Calendar.MonthLength(year, m)
    decreases 12 - from
  {
    Calendar.YearHasItsDays(year);
    if n < Calendar.MonthStart(year, from + 1) then from
    else MonthOf(year, n, from + 1)
  }

  const EARLIEST: Civil := Civil(0, 1, 1, 0, 0, 0)
  const LATEST: Civil := Civil(9999, 12, 31, 23, 59, 59)

  /** The instants from 0000-01-01T00:00:00Z to 9999-12-31T23:59:59Z. */
  predicate Renderable(t: int) {
    EARLIEST.Seconds() <= t <= LATEST.Seconds()
  }

  lemma RenderableDays(t: int)
    requires Renderable(t)
    ensures Calendar.YearStart(0) <= t / 86_400 < Calendar.YearStart(10_000)
  {
    Calendar.YearHasItsDays(9999);
    Calendar.YearStartNext(9999);
    assert Calendar.DayNumber(9999, 12, 31) + 1 == Calendar.YearStart(10_000);
  }

  function CivilOf(t: int): (c: Civil)
    requires Renderable(t)
    ensures c.OnCalendar() && c.Seconds() == t
  {
    RenderableDays(t);
    var days, rest := t / 86_400, t % 86_400;
    var year := YearOf(days, 0);
    YearBefore(year, days);
    var inYear := days - Calendar.YearStart(year);
    Calendar.YearStartNext(year);
    var month := MonthOf(year, inYear, 1);
    var day := inYear - Calendar.MonthStart(year, month) + 1;
    TimeOfDay(rest);
    Civil(year, month, day, rest / 3_600, rest % 3_600 / 60, rest % 60)
  }

  lemma TimeOfDay(rest: int)
    requires 0 <= rest < 86_400
    ensures 0 <= rest / 3_600 <= 23 && 0 <= rest % 3_600 / 60 <= 59 && 0 <= rest % 60 <= 59
    ensures rest / 3_600 * 3_600 + rest % 3_600 / 60 * 60 + rest % 60 == rest
  {
    assert rest % 3_600 % 60 == rest % 60;
  }

  lemma YearBefore(year: int, days: int)
    requires Calendar.YearStart(year) <= days < Calendar.YearStart(10_000)
    ensures year < 10_000
  {
    if year >= 10_000 {
      Calendar.YearStartMonotone(10_000, year);
    }
  }

  function RenderInstant(t: int): Bytes
    requires Renderable(t)
  {
    Render(CivilOf(t))
  }

  /** Every renderable instant survives rendering and parsing. */
  lemma InstantRoundTrip(t: int)
    requires Renderable(t)
    ensures ParseRfc3339Utc(RenderInstant(t)).Success?
    ensures ParseRfc3339Utc(RenderInstant(t)).value as int == t
  {
    ParseRender(CivilOf(t));
  }

  // ------------------------------------------------------------ order of instants

  ghost predicate Earlier(a: Civil, b: Civil) {
    || a.year < b.year
    || (a.year == b.year &&
        (|| a.month < b.month
         || (a.month == b.month &&
             (|| a.day < b.day
              || (a.day == b.day && EarlierInDay(a, b))))))
  }

  ghost predicate EarlierInDay(a: Civil, b: Civil) {
    || a.hour < b.hour
    || (a.hour == b.hour &&
        (a.minute < b.minute || (a.minute == b.minute && a.second < b.second)))
  }

  lemma EarlierIsLess(a: Civil, b: Civil)
    requires a.OnCalendar() && b.OnCalendar() && Earlier(a, b)
    ensures a.Seconds() < b.Seconds()
  {
    if a.year == b.year && a.month == b.month && a.day == b.day {
    } else {
      Calendar.DayNumberStrict(a.year, a.month, a.day, b.year, b.month, b.day);
    }
  }

  lemma EarlierIffLess(a: Civil, b: Civil)
    requires a.OnCalendar() && b.OnCalendar()
    ensures Earlier(a, b) <==> a.Seconds() < b.Seconds()
    ensures a == b <==> a.Seconds() == b.Seconds()
  {
    if Earlier(a, b) {
      EarlierIsLess(a, b);
    } else if Earlier(b, a) {
      EarlierIsLess(b, a);
    }
  }

  /** The renderings of the instant a text parses to is that text exactly when its day exists. */
  lemma TextRoundTrip(value: Bytes)
    requires ParseRfc3339Utc(value).Success?
    ensures var t := ParseRfc3339Utc(value).value as int;
            Renderable(t) && (RenderInstant(t) == value <==> Fields(value).OnCalendar())
  {
    var c := Fields(value);
    var t := ParseRfc3339Utc(value).value as int;
    RenderFields(value);
    ParseRender(c);
    InRangeRenderable(c);
    if c.OnCalendar() {
      EarlierIffLess(c, CivilOf(t));
    } else if RenderInstant(t) == value {
      FieldsOfRender(CivilOf(t));
    }
  }

  lemma FieldsOfRender(c: Civil)
    requires c.InRange()
    ensures ParseRfc3339Utc(Render(c)).Success? && Fields(Render(c)) == c
  {
    ParseRender(c);
    Layout(c);
    FieldsOfPad(c);
  }

  /** The day of the next month a day past the month's end runs into. */
  function RolledOver(c: Civil): (d: Civil)
    requires c.InRange() && !c.OnCalendar()
    ensures d.OnCalendar() && d.Seconds() == c.Seconds() && d.month == c.month + 1
  {
    Calendar.Rollover(c.year, c.month, c.day);
    Civil(c.year, c.month + 1, c.day - Calendar.MonthLength(c.year, c.month), c.hour, c.minute, c.second)
  }

  /** Rolling over never leaves the renderable range: December has 31 days. */
  lemma InRangeRenderable(c: Civil)
    requires c.InRange()
    ensures Renderable(c.Seconds())
  {
    var valid := if c.OnCalendar() then c else RolledOver(c);
    EarlierIffLess(EARLIEST, valid);
    EarlierIffLess(valid, LATEST);
  }

  // --------------------------------------------------------------- byte order

  predicate LexLess(a: Bytes, b: Bytes) {
    if a == [] then b != []
    else b != [] && (a[0] < b[0] || (a[0] == b[0] && LexLess(a[1..], b[1..])))
  }

  /** Equal-length prefixes decide first. */
  lemma {:induction false} LexConcat(a: Bytes, b: Bytes, c: Bytes, d: Bytes)
    requires |a| == |c|
    ensures LexLess(a + b, c + d) <==> LexLess(a, c) || (a == c && LexLess(b, d))
  {
    if a == [] {
      assert a + b == b && c + d == d;
    } else {
      assert (a + b)[1..] == a[1..] + b && (c + d)[1..] == c[1..] + d;
      LexConcat(a[1..], b, c[1..], d);
      assert a == [a[0]] + a[1..] && c == [c[0]] + c[1..];
    }
  }

  /** On zero-padded digit strings of one width, byte order is numeric order. */
  lemma {:induction false} LexPad(v: nat, w: nat, width: nat)
    requires v < Pow10(width) && w < Pow10(width)
    ensures LexLess(Pad(v, width), Pad(w, width)) <==> v < w
    ensures Pad(v, width) == Pad(w, width) <==> v == w
  {
    if width > 0 {
      LexPad(v / 10, w / 10, width - 1);
      LexConcat(Pad(v / 10, width - 1), [ZERO + v % 10], Pad(w / 10, width - 1), [ZERO + w % 10]);
      var s, t := Pad(v, width), Pad(w, width);
      assert s[..width - 1] == Pad(v / 10, width - 1) && t[..width - 1] == Pad(w / 10, width - 1);
      assert s[width - 1] == ZERO + v % 10 && t[width - 1] == ZERO + w % 10;
    }
  }

  lemma LexField(v: nat, w: nat, width: nat, separator: u8, s: Bytes, t: Bytes)
    requires v < Pow10(width) && w < Pow10(width)
    ensures LexLess(Pad(v, width) + ([separator] + s), Pad(w, width) + ([separator] + t))
            <==> v < w || (v == w && LexLess(s, t))
  {
    LexPad(v, w, width);
    LexConcat(Pad(v, width), [separator] + s, Pad(w, width), [separator] + t);
    LexConcat([separator], s, [separator], t);
  }

  function TimeText(c: Civil): Bytes
    requires c.InRange()
  {
    Pad(c.hour, 2) + ([COLON] + (Pad(c.minute, 2) + ([COLON] + (Pad(c.second, 2) + [LETTER_Z]))))
  }

  function MonthText(c: Civil): Bytes
    requires c.InRange()
  {
    Pad(c.month, 2) + ([HYPHEN] + (Pad(c.day, 2) + ([LETTER_T] + TimeText(c))))
  }

  lemma LexTime(a: Civil, b: Civil)
    requires a.InRange() && b.InRange()
    ensures LexLess(TimeText(a), TimeText(b)) <==> EarlierInDay(a, b)
  {
    assert Pow10(2) == 100;
    LexField(a.second, b.second, 2, LETTER_Z, [], []);
    assert [LETTER_Z] + [] == [LETTER_Z];
    LexField(a.minute, b.minute, 2, COLON, Pad(a.second, 2) + [LETTER_Z], Pad(b.second, 2) + [LETTER_Z]);
    LexField(a.hour, b.hour, 2, COLON,
             Pad(a.minute, 2) + ([COLON] + (Pad(a.second, 2) + [LETTER_Z])),
             Pad(b.minute, 2) + ([COLON] + (Pad(b.second, 2) + [LETTER_Z])));
  }

  /** Byte order of renderings is the order of their fields, whatever the fields. */
  lemma LexRender(a: Civil, b: Civil)
    requires a.InRange() && b.InRange()
    ensures LexLess(Render(a), Render(b)) <==> Earlier(a, b)
  {
    assert Pow10(2) == 100 && Pow10(4) == 10_000;
    LexTime(a, b);
    LexField(a.day, b.day, 2, LETTER_T, TimeText(a), TimeText(b));
    LexField(a.month, b.month, 2, HYPHEN,
             Pad(a.day, 2) + ([LETTER_T] + TimeText(a)), Pad(b.day, 2) + ([LETTER_T] + TimeText(b)));
    LexField(a.year, b.year, 4, HYPHEN, MonthText(a), MonthText(b));
  }

  /** Calendar-valid timestamps sort as bytes the way they sort in time. */
  lemma ByteOrderIsTimeOrder(a: Bytes, b: Bytes)
    requires ParseRfc3339Utc(a).Success? && ParseRfc3339Utc(b).Success?
    requires Fields(a).OnCalendar() && Fields(b).OnCalendar()
    ensures LexLess(a, b) <==> ParseRfc3339Utc(a).value < ParseRfc3339Utc(b).value
    ensures a == b <==> ParseRfc3339Utc(a).value == ParseRfc3339Utc(b).value
  {
    var c, d := Fields(a), Fields(b);
    RenderFields(a);
    RenderFields(b);
    ParseRender(c);
    ParseRender(d);
    LexRender(c, d);
    EarlierIffLess(c, d);
  }

  /** Two accepted texts whose byte order, either way round, is their time order. */
  ghost predicate SameOrder(a: Bytes, b: Bytes)
    requires ParseRfc3339Utc(a).Success? && ParseRfc3339Utc(b).Success?
  {
    && (LexLess(a, b) <==> ParseRfc3339Utc(a).value < ParseRfc3339Utc(b).value)
    && (LexLess(b, a) <==> ParseRfc3339Utc(b).value < ParseRfc3339Utc(a).value)
  }

  ghost predicate OnCalendarText(b: Bytes) {
    ParseRfc3339Utc(b).Success? && Fields(b).OnCalendar()
  }

  /** The first instant of the month after. */
  function NextMonth(c: Civil): (n: Civil)
    requires c.InRange() && c.month < 12
    ensures n.OnCalendar()
  {
    Civil(c.year, c.month + 1, 1, 0, 0, 0)
  }

  lemma NextMonthNotLater(c: Civil)
    requires c.InRange() && !c.OnCalendar()
    ensures c.month < 12 && Earlier(c, NextMonth(c)) && c.Seconds() >= NextMonth(c).Seconds()
  {
    Calendar.Rollover(c.year, c.month, c.day);
  }

  /** A day past the month's end sorts before the first of the next month and is no earlier. */
  lemma RolloverBreaksByteOrder(a: Bytes)
    requires ParseRfc3339Utc(a).Success? && !Fields(a).OnCalendar()
    ensures Fields(a).month < 12
    ensures var b := Render(NextMonth(Fields(a)));
            OnCalendarText(b) && LexLess(a, b) && ParseRfc3339Utc(a).value >= ParseRfc3339Utc(b).value
  {
    var c := Fields(a);
    NextMonthNotLater(c);
    RenderFields(a);
    ParseRender(c);
    FieldsOfRender(NextMonth(c));
    ParseRender(NextMonth(c));
    LexRender(c, NextMonth(c));
  }

  /** A text keeps byte order with every calendar-valid text exactly when its own day exists. */
  lemma ByteOrderExact(a: Bytes)
    requires ParseRfc3339Utc(a).Success?
    ensures (forall b | OnCalendarText(b) :: SameOrder(a, b)) <==> Fields(a).OnCalendar()
  {
    if Fields(a).OnCalendar() {
      forall b | OnCalendarText(b) ensures SameOrder(a, b) {
        ByteOrderIsTimeOrder(a, b);
        ByteOrderIsTimeOrder(b, a);
      }
    } else {
      RolloverBreaksByteOrder(a);
      assert !SameOrder(a, Render(NextMonth(Fields(a))));
    }
  }

  /** A day past the month's end is accepted, with the value of the day it runs into. */
  lemma RolloverValue(a: Bytes)
    requires ParseRfc3339Utc(a).Success? && !Fields(a).OnCalendar()
    ensures OnCalendarText(Render(RolledOver(Fields(a))))
    ensures ParseRfc3339Utc(Render(RolledOver(Fields(a)))).value == ParseRfc3339Utc(a).value
  {
    RenderFields(a);
    ParseRender(Fields(a));
    FieldsOfRender(RolledOver(Fields(a)));
    ParseRender(RolledOver(Fields(a)));
  }

  /** For instance 30 February is accepted. */
  lemma ThirtiethOfFebruary()
    ensures var text := Render(Civil(2026, 2, 30, 0, 0, 0));
            ParseRfc3339Utc(text).Success? && !Fields(text).OnCalendar()
  {
    FieldsOfRender(Civil(2026, 2, 30, 0, 0, 0));
  }
}
