/**
 The date arithmetic behind the listing (src/main.rs) and the FILETIME conversion of the parser
 (src/archive.rs), proved against a calendar that only knows how to go to the next day.
 */
module Calendar {
  import opened Bytes

  // ---------- the reference: the proleptic Gregorian calendar, one day at a time ----------

  datatype Date = Date(year: int, month: int, day: int)

  predicate IsLeap(y: int) {
    y % 4 == 0 && (y % 100 != 0 || y % 400 == 0)
  }

  function DaysInMonth(y: int, m: int): (n: int)
    requires 1 <= m <= 12
    ensures 28 <= n <= 31
  {
    if m == 2 then (if IsLeap(y) then 29 else 28)
    else if m == 4 || m == 6 || m == 9 || m == 11 then 30
    else 31
  }

  predicate ValidDate(t: Date) {
    1 <= t.month <= 12 && 1 <= t.day <= DaysInMonth(t.year, t.month)
  }

  /** The calendar day after t. */
  function NextDay(t: Date): (u: Date)
    requires ValidDate(t)
    ensures ValidDate(u)
  {
    if t.day < DaysInMonth(t.year, t.month) then Date(t.year, t.month, t.day + 1)
    else if t.month < 12 then Date(t.year, t.month + 1, 1)
    else Date(t.year + 1, 1, 1)
  }

  /** n calendar days after 1970-01-01. */
  function DayFromEpoch(n: nat): (t: Date)
    ensures ValidDate(t)
  {
    if n == 0 then Date(1970, 1, 1) else NextDay(DayFromEpoch(n - 1))
  }

  // ---------- the program's formula ----------

  /** `days_to_ymd`. */
  function DaysToYmd(days: nat): Date {
    var z := days + 719468;
    var era := z / 146097;
    var doe := z - era * 146097;
    var yoe := YearOfEra(doe);
    var y := yoe + era * 400;
    var doy := doe - (365 * yoe + yoe / 4 - yoe / 100);
    var mp := (5 * doy + 2) / 153;
    var d := doy - (153 * mp + 2) / 5 + 1;
    var m := if mp < 10 then mp + 3 else mp - 9;
    Date(if m <= 2 then y + 1 else y, m, d)
  }

  function YearOfEra(doe: int): int {
    (doe - doe / 1460 + doe / 36524 - doe / 146096) / 365
  }

  /** Days of a 400-year era before its year `yoe`, years starting on 1 March. */
  function MarchYearStart(yoe: int): int {
    365 * yoe + yoe / 4 - yoe / 100
  }

  function EraYearLength(yoe: int): int {
    if (yoe + 1) % 4 == 0 && ((yoe + 1) % 100 != 0 || yoe == 399) then 366 else 365
  }

  /** Year 100c + 4q + r of the era and day `doy` in it: the formula finds the year again. */
  lemma YearOfEraInverts(c: int, q: int, r: int, doy: int)
    requires 0 <= c < 4 && 0 <= q < 25 && 0 <= r < 4
    requires 0 <= doy < EraYearLength(100 * c + 4 * q + r)
    ensures MarchYearStart(100 * c + 4 * q + r) == 36524 * c + 1461 * q + 365 * r
    ensures YearOfEra(36524 * c + 1461 * q + 365 * r + doy) == 100 * c + 4 * q + r
  {
    hide YearOfEra, MarchYearStart, EraYearLength;
    YearOfEraLength(c, q, r);
    CenturyOfEra(c, 1461 * q + 365 * r + doy);
    QuadOfEra(c, q, 365 * r + doy);
    var doe := 36524 * c + 1461 * q + 365 * r + doy;
    var e := (24 * c + q + 365 * r + doy) / 1460;
    assert 0 <= doy - e <= 364;
    YearOfEraIs(doe, 25 * c + q + e, c, 100 * c + 4 * q + r);
  }

  lemma YearOfEraLength(c: int, q: int, r: int)
    requires 0 <= c < 4 && 0 <= q < 25 && 0 <= r < 4
    ensures MarchYearStart(100 * c + 4 * q + r) == 36524 * c + 1461 * q + 365 * r
    ensures EraYearLength(100 * c + 4 * q + r) == if r == 3 && (q < 24 || c == 3) then 366 else 365
  {
    var y := 100 * c + 4 * q + r;
    assert y / 4 == 25 * c + q && y / 100 == c;
    assert (y + 1) % 4 == 0 <==> r == 3;
    assert (y + 1) % 100 == 0 <==> r == 3 && q == 24;
  }

  lemma CenturyOfEra(c: int, s: int)
    requires 0 <= c < 4 && 0 <= s <= (if c == 3 then 36524 else 36523)
    ensures var doe := 36524 * c + s; doe / 36524 - doe / 146096 == c
  {
    if s == 36524 {
      assert 36524 * c + s == 146096;
    } else {
      assert (36524 * c + s) / 36524 == c;
    }
  }

  lemma QuadOfEra(c: int, q: int, t: int)
    ensures (36524 * c + 1461 * q + t) / 1460 == 25 * c + q + (24 * c + q + t) / 1460
  {
  }

  lemma YearOfEraIs(doe: int, quads: int, centuries: int, y: int)
    requires doe / 1460 == quads && doe / 36524 - doe / 146096 == centuries
    requires 365 * y <= doe - quads + centuries < 365 * y + 365
    ensures YearOfEra(doe) == y
  {
    assert (doe - quads + centuries) / 365 == y;
  }

  /** The formula for the year picks the year whose days contain `doe`. */
  lemma YearOfEraCorrect(doe: int)
    requires 0 <= doe < 146097
    ensures var y := YearOfEra(doe); 0 <= y < 400 && 0 <= doe - MarchYearStart(y) < EraYearLength(y)
  {
    hide YearOfEra, MarchYearStart;
    var c := if doe == 146096 then 3 else doe / 36524;
    var s := doe - 36524 * c;
    var q := s / 1461;
    var t := s % 1461;
    var r := if t == 1460 then 3 else t / 365;
    YearOfEraLength(c, q, r);
    hide EraYearLength;
    YearOfEraInverts(c, q, r, t - 365 * r);
  }

  /** Consecutive years of an era, and consecutive eras, join without a gap. */
  lemma EraYearLengthCorrect(yoe: int, era: int)
    requires 0 <= yoe < 400
    ensures yoe < 399 ==> MarchYearStart(yoe + 1) == MarchYearStart(yoe) + EraYearLength(yoe)
    ensures yoe == 399 ==> MarchYearStart(yoe) + EraYearLength(yoe) == 146097
    ensures MarchYearLength(yoe + 400 * era) == EraYearLength(yoe)
  {
    LeapPeriod(yoe + 1, era);
    hide IsLeap;
    YearsJoin(yoe);
    EraLeap(yoe);
  }

  lemma YearsJoin(yoe: int)
    requires 0 <= yoe < 400
    ensures yoe < 399 ==> MarchYearStart(yoe + 1) == MarchYearStart(yoe) + EraYearLength(yoe)
    ensures yoe == 399 ==> MarchYearStart(yoe) + EraYearLength(yoe) == 146097
  {
  }

  lemma EraLengths(yoe: int)
    ensures 365 <= EraYearLength(yoe) <= 366
  {
  }

  lemma EraLeap(yoe: int)
    requires 0 <= yoe < 400
    ensures EraYearLength(yoe) == if IsLeap(yoe + 1) then 366 else 365
  {
    assert (yoe + 1) % 400 == 0 <==> yoe == 399;
  }

  lemma ModShift(y: int, k: int, m: int)
    requires m == 4 || m == 100 || m == 400
    ensures (y + m * k) % m == y % m
  {
  }

  lemma LeapPeriod(y: int, era: int)
    ensures IsLeap(y + 400 * era) <==> IsLeap(y)
  {
    ModShift(y, 100 * era, 4);
    ModShift(y, 4 * era, 100);
    ModShift(y, era, 400);
  }

  /** The month and day part of the formula: day `doy` of the year that starts on 1 March of y. */
  function FromMarch(y: int, doy: int): Date {
    var mp := (5 * doy + 2) / 153;
    var m := if mp < 10 then mp + 3 else mp - 9;
    Date(if m <= 2 then y + 1 else y, m, doy - (153 * mp + 2) / 5 + 1)
  }

  function MarchYearLength(y: int): int {
    if IsLeap(y + 1) then 366 else 365
  }

  lemma FromMarchStep(y: int, doy: int)
    requires 0 <= doy < MarchYearLength(y)
    ensures ValidDate(FromMarch(y, doy))
    ensures NextDay(FromMarch(y, doy))
         == if doy + 1 < MarchYearLength(y) then FromMarch(y, doy + 1) else FromMarch(y + 1, 0)
  {
    var mp := (5 * doy + 2) / 153;
    MonthOfDay(doy);
    MonthLengths(y, mp);
    hide IsLeap, DaysInMonth;
    if doy + 1 < MonthStart(mp + 1) && doy + 1 < MarchYearLength(y) {
      MonthIs(doy + 1, mp);
    } else if doy + 1 < MarchYearLength(y) {
      MonthIs(doy + 1, mp + 1);
    } else {
      MonthIs(0, 0);
    }
  }

  /** Days of a March year before its month `mp`. */
  function MonthStart(mp: int): int {
    (153 * mp + 2) / 5
  }

  lemma MonthOfDay(doy: int)
    requires 0 <= doy < 366
    ensures var mp := (5 * doy + 2) / 153; 0 <= mp < 12 && MonthStart(mp) <= doy < MonthStart(mp + 1)
  {
  }

  lemma MonthIs(doy: int, mp: int)
    requires MonthStart(mp) <= doy < MonthStart(mp + 1)
    ensures (5 * doy + 2) / 153 == mp
  {
  }

  lemma MonthLengths(y: int, mp: int)
    requires 0 <= mp < 12
    ensures mp < 11 ==>
      MonthStart(mp + 1) - MonthStart(mp) == DaysInMonth(if mp < 10 then y else y + 1, if mp < 10 then mp + 3 else 1)
    ensures mp == 11 ==> MonthStart(mp) + DaysInMonth(y + 1, 2) == MarchYearLength(y) < MonthStart(12)
    ensures MonthStart(0) == 0
  {
    hide IsLeap;
  }

  /** Day `doy` of year `yoe` of era `era` is shown as that day of that year. */
  lemma LocateDay(days: nat, era: int, yoe: int, doy: int)
    requires days + 719468 == 146097 * era + MarchYearStart(yoe) + doy
    requires 0 <= yoe < 400 && 0 <= doy < EraYearLength(yoe)
    ensures DaysToYmd(days) == FromMarch(yoe + 400 * era, doy)
  {
    hide YearOfEra, MarchYearStart, EraYearLength, DaysToYmd, FromMarch;
    var doe := MarchYearStart(yoe) + doy;
    DayInEra(yoe, doy);
    EraOf(days + 719468, era, doe);
    YearOfEraCorrect(doe);
    YearUnique(YearOfEra(doe), yoe, doe);
    YmdParts(days, era, doe, yoe);
  }

  lemma DayInEra(yoe: int, doy: int)
    requires 0 <= yoe < 400 && 0 <= doy < EraYearLength(yoe)
    ensures 0 <= MarchYearStart(yoe) + doy < 146097
  {
    MarchYearStartMonotone(0, yoe);
    MarchYearStartMonotone(yoe, 399);
  }

  lemma EraOf(z: int, era: int, doe: int)
    requires z == 146097 * era + doe && 0 <= doe < 146097
    ensures z / 146097 == era && z % 146097 == doe
  {
  }

  lemma YmdParts(days: nat, era: int, doe: int, yoe: int)
    requires (days + 719468) / 146097 == era && days + 719468 == 146097 * era + doe && YearOfEra(doe) == yoe
    ensures DaysToYmd(days) == FromMarch(yoe + 400 * era, doe - MarchYearStart(yoe))
  {
    hide YearOfEra;
  }

  /** One more day in the argument is one more day in the calendar. */
  lemma DaysToYmdStep(days: nat)
    ensures ValidDate(DaysToYmd(days))
    ensures DaysToYmd(days + 1) == NextDay(DaysToYmd(days))
  {
    hide DaysToYmd, FromMarch, NextDay, ValidDate, YearOfEra, MarchYearLength, EraYearLength;
    var z := days + 719468;
    var era, doe := z / 146097, z % 146097;
    YearOfEraCorrect(doe);
    var yoe := YearOfEra(doe);
    var doy := doe - MarchYearStart(yoe);
    EraYearLengthCorrect(yoe, era);
    YearOfEraLength(0, 0, 0);
    EraLengths(yoe + 1);
    hide MarchYearStart;
    LocateDay(days, era, yoe, doy);
    FromMarchStep(yoe + 400 * era, doy);
    if doy + 1 < EraYearLength(yoe) {
      LocateDay(days + 1, era, yoe, doy + 1);
    } else if yoe < 399 {
      LocateDay(days + 1, era, yoe + 1, 0);
    } else {
      LocateDay(days + 1, era + 1, 0, 0);
    }
  }

  /** Only one year of the era contains a given day. */
  lemma YearUnique(a: int, b: int, doe: int)
    requires 0 <= a < 400 && 0 <= doe - MarchYearStart(a) < EraYearLength(a)
    requires 0 <= b < 400 && 0 <= doe - MarchYearStart(b) < EraYearLength(b)
    ensures a == b
  {
    MarchYearStartMonotone(a, b);
    MarchYearStartMonotone(b, a);
  }

  lemma MarchYearStartMonotone(a: int, b: int)
    requires 0 <= a < 400 && 0 <= b < 400
    ensures a < b ==> MarchYearStart(a) + EraYearLength(a) <= MarchYearStart(b)
    decreases b - a
  {
    if a + 1 < b {
      MarchYearStartMonotone(a + 1, b);
    }
  }

  lemma DaysToYmdZero()
    ensures DaysToYmd(0) == Date(1970, 1, 1)
  {
    hide DaysToYmd, YearOfEra, MarchYearStart, EraYearLength;
    YearOfEraLength(3, 17, 1);
    LocateDay(0, 4, 369, 306);
  }

  /** `days_to_ymd` is the calendar. */
  lemma {:induction false} DaysToYmdIsCalendar(n: nat)
    ensures DaysToYmd(n) == DayFromEpoch(n)
  {
    hide DaysToYmd, NextDay;
    DaysToYmdZero();
    if n > 0 {
      DaysToYmdIsCalendar(n - 1);
      DaysToYmdStep(n - 1);
    }
  }

  // ---------- the day count, year by year and month by month ----------

  function YearLength(y: int): int {
    if IsLeap(y) then 366 else 365
  }

  function DaysBeforeYear(y: int): (n: nat)
    requires y >= 1970
  {
    if y == 1970 then 0 else DaysBeforeYear(y - 1) + YearLength(y - 1)
  }

  function DaysBeforeMonth(y: int, m: int): nat
    requires 1 <= m <= 12
  {
    if m == 1 then 0 else DaysBeforeMonth(y, m - 1) + DaysInMonth(y, m - 1)
  }

  /** How many days t lies after 1970-01-01. */
  function DayNumber(t: Date): nat
    requires ValidDate(t) && t.year >= 1970
  {
    DaysBeforeYear(t.year) + DaysBeforeMonth(t.year, t.month) + t.day - 1
  }

  lemma MonthsFillYear(y: int)
    ensures DaysBeforeMonth(y, 12) + 31 == YearLength(y)
  {
    assert DaysBeforeMonth(y, 2) == 31;
    assert DaysBeforeMonth(y, 4) == 90 + YearLength(y) - 365;
    assert DaysBeforeMonth(y, 6) == DaysBeforeMonth(y, 4) + 61;
    assert DaysBeforeMonth(y, 8) == DaysBeforeMonth(y, 6) + 61;
    assert DaysBeforeMonth(y, 10) == DaysBeforeMonth(y, 8) + 61;
  }

  lemma NextDayCounts(t: Date)
    requires ValidDate(t) && t.year >= 1970
    ensures DayNumber(NextDay(t)) == DayNumber(t) + 1
  {
    MonthsFillYear(t.year);
  }

  function PreviousDay(t: Date): (u: Date)
    requires ValidDate(t)
    ensures ValidDate(u) && NextDay(u) == t
  {
    if t.day > 1 then Date(t.year, t.month, t.day - 1)
    else if t.month > 1 then Date(t.year, t.month - 1, DaysInMonth(t.year, t.month - 1))
    else Date(t.year - 1, 12, 31)
  }

  /** `days_to_ymd` and the day count are inverse to each other: every n gives the date numbered n ... */
  lemma {:induction false} DayNumberOfYmd(n: nat)
    ensures var t := DaysToYmd(n); ValidDate(t) && t.year >= 1970 && DayNumber(t) == n
  {
    hide DaysToYmd;
    DaysToYmdZero();
    if n > 0 {
      DayNumberOfYmd(n - 1);
      DaysToYmdStep(n - 1);
      NextDayCounts(DaysToYmd(n - 1));
    }
  }

  /** ... and every valid date from 1970 on is found from its number. */
  lemma {:induction false} YmdOfDayNumber(t: Date)
    requires ValidDate(t) && t.year >= 1970
    ensures DaysToYmd(DayNumber(t)) == t
    decreases DayNumber(t)
  {
    hide DaysToYmd, DayNumber, NextDay, DaysInMonth;
    DaysToYmdZero();
    EpochIsZero();
    if t != Date(1970, 1, 1) {
      var u := PreviousDay(t);
      NextDayCounts(u);
      YmdOfDayNumber(u);
      DaysToYmdStep(DayNumber(u));
    }
  }

  lemma EpochIsZero()
    ensures DayNumber(Date(1970, 1, 1)) == 0
  {
  }

  // ---------- FILETIME ----------

  const FILETIME_EPOCH_DIFF := 11_644_473_600
  const TICKS_PER_SEC := 10_000_000
  const U64_MAX := TWO_64 - 1

  /** `unix_to_filetime`: both the addition and the multiplication saturate. */
  function UnixToFiletime(unixSecs: nat): (r: nat)
    ensures r <= U64_MAX
  {
    Min(Min(unixSecs + FILETIME_EPOCH_DIFF, U64_MAX) * TICKS_PER_SEC, U64_MAX)
  }

  /** The whole Unix seconds of a FILETIME that is not before 1970. */
  function UnixSeconds(filetime: nat): nat {
    var secs := filetime / TICKS_PER_SEC;
    if secs < FILETIME_EPOCH_DIFF then 0 else secs - FILETIME_EPOCH_DIFF
  }

  /** The decimal digits of n, at least `width` of them (`{:02}`, `{:04}`). */
  function Pad(n: nat, width: nat): (s: string)
    ensures |s| >= width
  {
    if n < 10 && width <= 1 then [Digit(n)]
    else Pad(n / 10, if width == 0 then 0 else width - 1) + [Digit(n % 10)]
  }

  function Digit(n: nat): char
    requires n < 10
  {
    '0' + n as char
  }

  /** `format_filetime`. */
  function FormatFiletime(filetime: nat): string {
    if filetime < FILETIME_EPOCH_DIFF * TICKS_PER_SEC then "                   "
    else
      var unixSecs := UnixSeconds(filetime);
      var timeOfDay := unixSecs % 86400;
      var t := DaysToYmd(unixSecs / 86400);
      FormatStamp(t, timeOfDay / 3600, timeOfDay % 3600 / 60, timeOfDay % 60)
  }

  function FormatStamp(t: Date, hours: nat, minutes: nat, seconds: nat): string {
    Pad(Abs(t.year), 4) + "-" + Pad(Abs(t.month), 2) + "-" + Pad(Abs(t.day), 2) + " "
    + Pad(hours, 2) + ":" + Pad(minutes, 2) + ":" + Pad(seconds, 2)
  }

  function Abs(n: int): nat {
    if n < 0 then -n else n
  }

  /** The number a run of decimal digits denotes. */
  function DecimalValue(s: string): int {
    if s == [] then 0 else 10 * DecimalValue(s[..|s| - 1]) + (s[|s| - 1] as int - '0' as int)
  }

  /** What a reader sees in a stamp: the last 15 characters are fixed columns, the year is the rest. */
  function ReadStamp(s: string): (Date, int, int, int)
    requires |s| >= 15
  {
    var n := |s|;
    (Date(DecimalValue(s[..n - 15]), DecimalValue(s[n - 14..n - 12]), DecimalValue(s[n - 11..n - 9])),
     DecimalValue(s[n - 8..n - 6]), DecimalValue(s[n - 5..n - 3]), DecimalValue(s[n - 2..]))
  }

  lemma {:induction false} PadReadsBack(n: nat, width: nat)
    ensures DecimalValue(Pad(n, width)) == n
    ensures width == 2 && n < 100 ==> |Pad(n, width)| == 2
  {
    var s := Pad(n, width);
    if n < 10 && width <= 1 {
      assert s[..0] == [] && DecimalValue([]) == 0;
    } else {
      var w := if width == 0 then 0 else width - 1;
      PadReadsBack(n / 10, w);
      assert s[..|s| - 1] == Pad(n / 10, w);
    }
  }

  lemma FieldBounds(t: Date)
    requires ValidDate(t)
    ensures 1 <= t.month <= 12 && 1 <= t.day <= 31
  {
  }

  lemma StampReadsBack(t: Date, hours: nat, minutes: nat, seconds: nat)
    requires ValidDate(t) && t.year >= 0 && hours < 24 && minutes < 60 && seconds < 60
    ensures |FormatStamp(t, hours, minutes, seconds)| >= 15
    ensures ReadStamp(FormatStamp(t, hours, minutes, seconds)) == (t, hours, minutes, seconds)
  {
    hide Pad, DecimalValue, ValidDate;
    FieldBounds(t);
    var y, m, d := Pad(t.year, 4), Pad(t.month, 2), Pad(t.day, 2);
    var h, mi, se := Pad(hours, 2), Pad(minutes, 2), Pad(seconds, 2);
    PadReadsBack(t.year, 4);
    PadReadsBack(t.month, 2);
    PadReadsBack(t.day, 2);
    PadReadsBack(hours, 2);
    PadReadsBack(minutes, 2);
    PadReadsBack(seconds, 2);
    StampColumns(FormatStamp(t, hours, minutes, seconds), y, m, d, h, mi, se);
  }

  lemma StampColumns(s: string, y: string, m: string, d: string, h: string, mi: string, se: string)
    requires |m| == |d| == |h| == |mi| == |se| == 2
    requires s == y + "-" + m + "-" + d + " " + h + ":" + mi + ":" + se
    ensures var n := |s|; n >= 15 && s[..n - 15] == y && s[n - 14..n - 12] == m && s[n - 11..n - 9] == d
    ensures var n := |s|; s[n - 8..n - 6] == h && s[n - 5..n - 3] == mi && s[n - 2..] == se
  {
    var tail := ['-', m[0], m[1], '-', d[0], d[1], ' ', h[0], h[1], ':', mi[0], mi[1], ':', se[0], se[1]];
    assert s == y + tail;
  }

  /** The last Unix second whose FILETIME fits in 64 bits. */
  const LAST_EXACT_SECOND := 1_833_029_933_770

  /** The conversion is undone exactly for the seconds that do not saturate, and for no others. */
  lemma FiletimeRoundTrip(s: nat)
    ensures UnixToFiletime(s) >= FILETIME_EPOCH_DIFF * TICKS_PER_SEC
    ensures UnixSeconds(UnixToFiletime(s)) == s <==> s <= LAST_EXACT_SECOND
  {
  }

  /** `text` shows the calendar date and the time of day of Unix second s. */
  predicate ShowsSecond(text: string, s: nat) {
    && |text| >= 15
    && var (date, h, m, sec) := ReadStamp(text);
       (&& date == DayFromEpoch(s / 86400)
        && 0 <= h < 24 && 0 <= m < 60 && 0 <= sec < 60
        && 3600 * h + 60 * m + sec == s % 86400)
  }

  /**
   The text shown for a POSIX modification time s is the calendar date s / 86400 days after the epoch and
   the time of day s % 86400, for every s that does not saturate.
   */
  lemma ShownDateIsTheDate(s: nat)
    requires s <= LAST_EXACT_SECOND
    ensures ShowsSecond(FormatFiletime(UnixToFiletime(s)), s)
  {
    FiletimeRoundTrip(s);
    var days, timeOfDay := s / 86400, s % 86400;
    DayNumberOfYmd(days);
    DaysToYmdIsCalendar(days);
    ClockParts(timeOfDay);
    hide DaysToYmd, UnixToFiletime, UnixSeconds, FormatStamp, ReadStamp;
    StampReadsBack(DaysToYmd(days), timeOfDay / 3600, timeOfDay % 3600 / 60, timeOfDay % 60);
  }

  lemma ClockParts(t: int)
    requires 0 <= t < 86400
    ensures 0 <= t / 3600 < 24 && 0 <= t % 3600 / 60 < 60 && 0 <= t % 60 < 60
    ensures 3600 * (t / 3600) + 60 * (t % 3600 / 60) + t % 60 == t
  {
  }
}
