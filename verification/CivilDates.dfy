/** Timestamps as RFC 3339 dates: days since the epoch as a year, month and day. */
module CivilDates {
  import opened Text

  // ----- The calendar, as its rules are said

  predicate Leap(y: nat) { y % 4 == 0 && (y % 100 != 0 || y % 400 == 0) }

  function DaysInMonth(y: nat, m: nat): nat
    requires 1 <= m <= 12
  {
    if m == 2 then (if Leap(y) then 29 else 28) else if m in {4, 6, 9, 11} then 30 else 31
  }

  datatype Date = Date(year: nat, month: nat, day: nat) {
    predicate Valid() { 1 <= month <= 12 && 1 <= day <= DaysInMonth(year, month) }

    /** The day after. */
    function Next(): Date
      requires Valid()
    {
      if day < DaysInMonth(year, month) then Date(year, month, day + 1)
      else if month < 12 then Date(year, month + 1, 1)
      else Date(year + 1, 1, 1)
    }
  }

  const EPOCH := Date(1970, 1, 1)

  /** The date `n` days after the epoch, a day at a time. */
  function Calendar(n: nat): (d: Date)
    ensures d.Valid()
  {
    if n == 0 then EPOCH
    else
      var before := Calendar(n - 1);
      before.Next()
  }

  // ----- The arithmetic, as the code does it

  /** The year of its 400-year era that day `doe` of the era is in; years run from March. */
  function YearOfEra(doe: nat): nat { (doe - doe / 1460 + doe / 36524 - doe / 146096) / 365 }

  /** The days of an era before its year `y`. */
  function DaysBefore(y: nat): nat { 365 * y + y / 4 - y / 100 }

  /** Day `doy` of the year that starts in March of `year`. */
  function FromMarch(year: nat, doy: nat): Date
    requires doy < 366
  {
    var mp := (5 * doy + 2) / 153;
    var day := doy - (153 * mp + 2) / 5 + 1;
    var month := if mp < 10 then mp + 3 else mp - 9;
    Date(if month <= 2 then year + 1 else year, month, day)
  }

  function CivilFromDays(days: nat): Date {
    var z := days + 719468;
    var era := z / 146097;
    var doe := z % 146097;
    var yoe := YearOfEra(doe);
    var year := yoe + era * 400;
    var doy := doe - (365 * yoe + yoe / 4 - yoe / 100);
    YearOfEraIsRight(doe);
    FromMarch(year, doy)
  }

  // ----- The year

  /** Within a century: day `e` of it, with `g` whole 1460s before it, is in its
    * year `k`, whose leap days before it are the whole fours in `k`. */
  lemma {:induction false} YearOfCentury(e: int, skew: int, g: int, k: int, j: int, j': int)
    requires 0 <= e < 36524 && 0 <= skew <= 72
    requires 1460 * g <= e + skew < 1460 * (g + 1)
    requires 365 * k <= e - g < 365 * (k + 1)
    requires 4 * j <= k < 4 * j + 4 && 4 * j' <= k + 1 < 4 * j' + 4
    ensures 0 <= k <= 99
    ensures 365 * k + j <= e
    ensures k < 99 ==> e < 365 * (k + 1) + j'
  {
    assert 0 <= g <= 25;
    assert 1460 * j <= 365 * k;
    assert j <= g;
    assert 365 * (k + 1) <= 1460 * j' + 1095;
    assert g <= j';
  }

  lemma {:induction false} YearByCentury(doe: int, c: int, y: int)
    requires 0 <= doe < 146096 && c == doe / 36524 && y == (doe - doe / 1460 + c) / 365
    ensures 100 * c <= y <= 100 * c + 99
    ensures DaysBefore(y) <= doe
    ensures y < 100 * c + 99 ==> doe < DaysBefore(y + 1)
  {
    var e, g, k := doe - 36524 * c, doe / 1460 - 25 * c, y - 100 * c;
    assert 0 <= c <= 3;
    YearOfCentury(e, 24 * c, g, k, k / 4, (k + 1) / 4);
    CenturyDays(c, k);
    if k < 99 { CenturyDays(c, k + 1); }
  }

  lemma {:induction false} CenturyDays(c: int, k: int)
    requires 0 <= c && 0 <= k <= 99
    ensures DaysBefore(100 * c + k) == 36524 * c + 365 * k + k / 4
  {
    assert (100 * c + k) / 100 == c;
    assert (100 * c + k) / 4 == 25 * c + k / 4;
  }

  /** The year computed is the one whose days the day is among. */
  lemma {:induction false} YearOfEraIsRight(doe: nat)
    requires doe < 146097
    ensures var y := YearOfEra(doe);
            y <= 399 && DaysBefore(y) <= doe < (if y == 399 then 146097 else DaysBefore(y + 1)) <= DaysBefore(y) + 366
  {
    var y := YearOfEra(doe);
    if doe < 146096 {
      var c := doe / 36524;
      YearByCentury(doe, c, y);
      CenturyDays(c, y - 100 * c);
      if y == 100 * c + 99 { CenturyDays(c + 1, 0); }
    }
    YearInEra(y);
  }

  lemma {:induction false} YearInEra(y: nat)
    requires y <= 399
    ensures (if y == 399 then 146097 else DaysBefore(y + 1)) ==
            DaysBefore(y) + 365 + (if (y + 1) % 4 == 0 && ((y + 1) % 100 != 0 || y == 399) then 1 else 0)
  {
    FourthYear(y);
    HundredthYear(y);
  }

  lemma {:induction false} FourthYear(y: nat)
    ensures (y + 1) / 4 == y / 4 + (if (y + 1) % 4 == 0 then 1 else 0)
  {
  }

  lemma {:induction false} HundredthYear(y: nat)
    ensures (y + 1) / 100 == y / 100 + (if (y + 1) % 100 == 0 then 1 else 0)
    ensures (y + 1) % 100 == 0 ==> (y + 1) % 4 == 0
  {
  }

  lemma {:induction false} DaysBeforeGrows(a: nat, b: nat)
    requires a <= b
    ensures DaysBefore(a) <= DaysBefore(b)
  {
  }

  lemma {:induction false} YearOfEraIs(doe: nat, y: nat)
    requires y <= 399 && DaysBefore(y) <= doe < (if y == 399 then 146097 else DaysBefore(y + 1))
    requires doe < 146097
    ensures YearOfEra(doe) == y
  {
    hide YearOfEra, DaysBefore;
    YearOfEraIsRight(doe);
    var x := YearOfEra(doe);
    if x < y { DaysBeforeGrows(x + 1, y); } else if y < x { DaysBeforeGrows(y + 1, x); }
  }

  /** How long the year from March of year `y` of an era is: its February is the next year's. */
  lemma {:induction false} YearLength(era: nat, y: nat)
    requires y <= 399
    ensures (if y == 399 then 146097 else DaysBefore(y + 1)) - DaysBefore(y) == MarchYear(era * 400 + y)
  {
    hide DaysBefore, Leap;
    YearInEra(y);
    LeapInEra(era, y + 1);
  }

  lemma {:induction false} LeapInEra(era: nat, n: nat)
    requires 0 < n <= 400
    ensures Leap(era * 400 + n) <==> n % 4 == 0 && (n % 100 != 0 || n == 400)
  {
    EraIsFours(era, n);
    EraIsHundreds(era, n);
    EraIsFourHundreds(era, n);
  }

  lemma {:induction false} EraIsFours(era: nat, n: nat)
    ensures (era * 400 + n) % 4 == n % 4
  {
  }

  lemma {:induction false} EraIsHundreds(era: nat, n: nat)
    ensures (era * 400 + n) % 100 == n % 100
  {
  }

  lemma {:induction false} EraIsFourHundreds(era: nat, n: nat)
    ensures (era * 400 + n) % 400 == n % 400
  {
  }

  function MarchYear(year: nat): (days: nat)
    ensures days <= 366
  {
    if Leap(year + 1) then 366 else 365
  }

  // ----- The month and the day

  /** Within a year from March, each day follows the one before. */
  lemma {:induction false} MonthStep(year: nat, doy: nat)
    requires doy < MarchYear(year)
    ensures var d := FromMarch(year, doy);
            && d.Valid()
            && (doy + 1 < MarchYear(year) ==> FromMarch(year, doy + 1) == d.Next())
            && (doy + 1 == MarchYear(year) ==> FromMarch(year + 1, 0) == d.Next())
  {
    hide Leap;
    if doy < 184 { EarlyMonthStep(year, doy); } else { LateMonthStep(year, doy); }
  }

  /** March to August. */
  lemma {:induction false} EarlyMonthStep(year: nat, doy: nat)
    requires doy < 184
    ensures var d := FromMarch(year, doy);
            d.Valid() && FromMarch(year, doy + 1) == d.Next()
  {
    hide Leap;
    var mp := (5 * doy + 2) / 153;
    assert mp <= 5;
    if mp == 0 {} else if mp == 1 {} else if mp == 2 {} else if mp == 3 {} else if mp == 4 {} else {}
  }

  /** September to February. */
  lemma {:induction false} LateMonthStep(year: nat, doy: nat)
    requires 184 <= doy < MarchYear(year)
    ensures var d := FromMarch(year, doy);
            && d.Valid()
            && (doy + 1 < MarchYear(year) ==> FromMarch(year, doy + 1) == d.Next())
            && (doy + 1 == MarchYear(year) ==> FromMarch(year + 1, 0) == d.Next())
  {
    hide Leap;
    var mp := (5 * doy + 2) / 153;
    assert 6 <= mp <= 11;
    if mp == 6 {} else if mp == 7 {} else if mp == 8 {} else if mp == 9 {} else if mp == 10 {} else {}
  }

  // ----- The whole

  /** The day after, as a day of an era: the year goes on, or the next begins. */
  lemma {:induction false} EraStep(doe: nat, y: nat, era: nat)
    requires doe < 146097 && y == YearOfEra(doe)
    ensures y <= 399 && DaysBefore(y) <= doe
    ensures var doy := doe - DaysBefore(y);
            && doy < MarchYear(era * 400 + y)
            && (doe < 146096 && doy + 1 < MarchYear(era * 400 + y) ==> YearOfEra(doe + 1) == y)
            && (doe < 146096 && doy + 1 == MarchYear(era * 400 + y) ==>
                  YearOfEra(doe + 1) == y + 1 && DaysBefore(y + 1) == doe + 1)
            && (doe == 146096 ==> y == 399 && doy + 1 == MarchYear(era * 400 + y))
  {
    hide YearOfEra, DaysBefore, MarchYear;
    YearOfEraIsRight(doe);
    YearLength(era, y);
    if doe < 146096 {
      if doe + 1 < (if y == 399 then 146097 else DaysBefore(y + 1)) {
        YearOfEraIs(doe + 1, y);
      } else {
        DaysBeforeNext(y + 1);
        YearOfEraIs(doe + 1, y + 1);
      }
    } else {
      LastDayOfEra(y);
    }
  }

  lemma {:induction false} LastDayOfEra(y: nat)
    requires y <= 399 && 146096 < (if y == 399 then 146097 else DaysBefore(y + 1))
    ensures y == 399
  {
    if y < 399 { DaysBeforeGrows(y + 1, 399); }
  }

  lemma {:induction false} CivilIs(days: nat, era: nat, doe: nat)
    requires days + 719468 == 146097 * era + doe && doe < 146097
    ensures YearOfEra(doe) <= 399 && DaysBefore(YearOfEra(doe)) <= doe < DaysBefore(YearOfEra(doe)) + 366
    ensures CivilFromDays(days) == FromMarch(YearOfEra(doe) + era * 400, doe - DaysBefore(YearOfEra(doe)))
  {
    hide YearOfEra, FromMarch;
    YearOfEraIsRight(doe);
    EraAndDay(days + 719468, era, doe);
  }

  lemma {:induction false} EraAndDay(z: nat, era: nat, doe: nat)
    requires z == 146097 * era + doe && doe < 146097
    ensures z / 146097 == era && z % 146097 == doe
  {
  }

  /** The day after `days` is the day after its date. */
  lemma {:induction false} CivilStep(days: nat)
    ensures CivilFromDays(days).Valid()
    ensures CivilFromDays(days + 1) == CivilFromDays(days).Next()
  {
    hide YearOfEra, DaysBefore, FromMarch, MarchYear, CivilFromDays;
    var z := days + 719468;
    var era, doe := z / 146097, z % 146097;
    var y := YearOfEra(doe);
    EraStep(doe, y, era);
    CivilIs(days, era, doe);
    MonthStep(era * 400 + y, doe - DaysBefore(y));
    if doe == 146096 {
      CivilIs(days + 1, era + 1, 0);
      FirstOfEra();
    } else {
      CivilIs(days + 1, era, doe + 1);
    }
  }

  lemma {:induction false} FirstOfEra()
    ensures YearOfEra(0) == 0 && DaysBefore(0) == 0
  {
  }

  lemma {:induction false} DaysBeforeNext(y: nat)
    requires y <= 399
    ensures DaysBefore(y) < (if y == 399 then 146097 else DaysBefore(y + 1))
  {
  }

  /** For every day there is, the date computed is the calendar's. */
  lemma {:induction false} CivilDateIsRight(days: nat)
    ensures CivilFromDays(days) == Calendar(days)
    decreases days
  {
    hide YearOfEra, FromMarch;
    if days == 0 {
      FirstDay();
    } else {
      CivilDateIsRight(days - 1);
      CivilStep(days - 1);
    }
  }

  lemma {:induction false} FirstDay()
    ensures CivilFromDays(0) == EPOCH
  {
    assert YearOfEra(719468 % 146097) == 369;
  }

  // ----- The text

  function Zeros(n: nat): (s: string)
    ensures |s| == n && AllDigits(s)
  {
    if n == 0 then "" else ['0'] + Zeros(n - 1)
  }

  /** A number in at least `width` digits. */
  function Pad(n: nat, width: nat): (s: string)
    ensures AllDigits(s)
  {
    var s := Decimal(n);
    if |s| < width then Zeros(width - |s|) + s else s
  }

  datatype Instant = Instant(date: Date, hour: nat, minute: nat, second: nat, millis: nat)

  function Fields(tsUnixMs: nat): Instant {
    var secs := tsUnixMs / 1000;
    var rem := secs % 86400;
    Instant(CivilFromDays(secs / 86400), rem / 3600, rem % 3600 / 60, rem % 60, tsUnixMs % 1000)
  }

  function Rfc3339(tsUnixMs: nat): string {
    var i := Fields(tsUnixMs);
    Pad(i.date.year, 4) + ['-'] + Pad(i.date.month, 2) + ['-'] + Pad(i.date.day, 2) + ['T'] +
    Pad(i.hour, 2) + [':'] + Pad(i.minute, 2) + [':'] + Pad(i.second, 2) + ['.'] + Pad(i.millis, 3) + ['Z']
  }

  /** The fields are the calendar's date and a time of day, and give back the timestamp. */
  lemma {:induction false} FieldsAreTheInstant(tsUnixMs: nat)
    ensures var i := Fields(tsUnixMs);
            && i.hour < 24 && i.minute < 60 && i.second < 60 && i.millis < 1000
            && exists days: nat :: i.date == Calendar(days) &&
                 tsUnixMs == (((days * 24 + i.hour) * 60 + i.minute) * 60 + i.second) * 1000 + i.millis
  {
    hide CivilFromDays, Calendar;
    CivilDateIsRight(tsUnixMs / 1000 / 86400);
  }

  lemma {:induction false} PadReads(n: nat, width: nat)
    ensures ParseDecimal(Pad(n, width)) == n
  {
    hide Decimal;
    ParseOfDecimal(n);
    var s := Decimal(n);
    if |s| < width { ZerosRead(width - |s|, s); }
  }

  lemma {:induction false} ZerosRead(k: nat, s: string)
    requires AllDigits(s)
    ensures ParseDecimal(Zeros(k) + s) == ParseDecimal(s)
    decreases |s|, k
  {
    var t := Zeros(k) + s;
    if s == [] {
      assert t == Zeros(k);
      if k > 0 {
        assert Zeros(k)[..k - 1] == Zeros(k - 1) by { ZerosSnoc(k - 1); }
        assert Zeros(k)[k - 1] == '0' by { ZerosSnoc(k - 1); }
        ZerosRead(k - 1, []);
        assert Zeros(k - 1) + [] == Zeros(k - 1);
      }
    } else {
      assert t[..|t| - 1] == Zeros(k) + s[..|s| - 1];
      ZerosRead(k, s[..|s| - 1]);
    }
  }

  lemma {:induction false} ZerosSnoc(k: nat)
    ensures Zeros(k + 1) == Zeros(k) + ['0']
  {
    if k > 0 { ZerosSnoc(k - 1); }
  }

  lemma {:induction false} PadFits(n: nat, width: nat, bound: nat)
    requires 0 < width && n < bound && bound == Tens(width)
    ensures |Pad(n, width)| == width
  {
    hide Decimal;
    DigitsFit(n, width);
  }

  function Tens(k: nat): nat { if k == 0 then 1 else 10 * Tens(k - 1) }

  lemma {:induction false} DigitsFit(n: nat, width: nat)
    requires 0 < width && n < Tens(width)
    ensures |Decimal(n)| <= width
  {
    if n >= 10 { DigitsFit(n / 10, width - 1); }
  }

  /** Up to the year 9999, the text is RFC 3339's date-time to the millisecond, and
    * each part of it reads as the field it shows. */
  lemma {:induction false} TextShowsTheInstant(tsUnixMs: nat)
    requires Fields(tsUnixMs).date.year <= 9999
    ensures var text, i := Rfc3339(tsUnixMs), Fields(tsUnixMs);
            && |text| == 24
            && text[4] == '-' && text[7] == '-' && text[10] == 'T' && text[13] == ':' && text[16] == ':'
            && text[19] == '.' && text[23] == 'Z'
            && ReadsAs(text[0..4], i.date.year) && ReadsAs(text[5..7], i.date.month) && ReadsAs(text[8..10], i.date.day)
            && ReadsAs(text[11..13], i.hour) && ReadsAs(text[14..16], i.minute) && ReadsAs(text[17..19], i.second)
            && ReadsAs(text[20..23], i.millis)
  {
    hide Pad, Fields, Calendar, ReadsAs;
    var i := Fields(tsUnixMs);
    FieldsAreTheInstant(tsUnixMs);
    DateIsShort(tsUnixMs);
    assert Tens(2) == 100 && Tens(3) == 1000 && Tens(4) == 10000;
    Shown(i.date.year, 4, 10000);
    Shown(i.date.month, 2, 100);
    Shown(i.date.day, 2, 100);
    Shown(i.hour, 2, 100);
    Shown(i.minute, 2, 100);
    Shown(i.second, 2, 100);
    Shown(i.millis, 3, 1000);
    var text := Rfc3339(tsUnixMs);
    assert text[0..4] == Pad(i.date.year, 4) && text[5..7] == Pad(i.date.month, 2) && text[8..10] == Pad(i.date.day, 2);
    assert text[11..13] == Pad(i.hour, 2) && text[14..16] == Pad(i.minute, 2) && text[17..19] == Pad(i.second, 2);
    assert text[20..23] == Pad(i.millis, 3);
  }

  ghost predicate ReadsAs(s: string, n: nat) { AllDigits(s) && ParseDecimal(s) == n }

  lemma {:induction false} Shown(n: nat, width: nat, bound: nat)
    requires 0 < width && n < bound && bound == Tens(width)
    ensures |Pad(n, width)| == width && ReadsAs(Pad(n, width), n)
  {
    hide Pad, Tens;
    PadReads(n, width);
    PadFits(n, width, bound);
  }

  lemma {:induction false} DateIsShort(tsUnixMs: nat)
    ensures Fields(tsUnixMs).date.month <= 12 && Fields(tsUnixMs).date.day <= 31
  {
    hide CivilFromDays, Calendar;
    CivilDateIsRight(tsUnixMs / 1000 / 86400);
    assert Calendar(tsUnixMs / 1000 / 86400).Valid();
  }
}
