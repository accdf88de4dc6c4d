/** Days since 1970-01-01 as a Gregorian date, and the time stamps built from it. */
module CivilDate {
  import opened Text

  datatype Date = Date(y: int, m: int, d: int)

  // ---------- The two copies of the arithmetic ----------

  function YearOfEra(doe: int): int {
    (doe - doe / 1460 + doe / 36524 - doe / 146096) / 365
  }

  /** A day of the March-based year, as month and day. */
  function MonthDay(doy: int): (int, int) {
    var mp := (5 * doy + 2) / 153;
    (if mp < 10 then mp + 3 else mp - 9, doy - (153 * mp + 2) / 5 + 1)
  }

  /** The formula both copies share, once the 400-year era and the day in it are known. */
  function EraDate(era: int, doe: int): Date {
    var yoe := YearOfEra(doe);
    var (m, d) := MonthDay(doe - (365 * yoe + yoe / 4 - yoe / 100));
    Date(yoe + era * 400 + (if m <= 2 then 1 else 0), m, d)
  }

  /** The date `format_iso` prints: the era is a floor division. */
  function Civil(days: int): Date {
    var z := days + 719468;
    EraDate(z / 146097, z - z / 146097 * 146097)
  }

  /** The date `ts_now` prints: the era comes from a division that truncates toward zero. */
  function AuditCivil(unixDays: int): Date {
    var days := unixDays + 719468;
    var era := Truncated(if days >= 0 then days else days - 146096, 146097);
    EraDate(era, days - era * 146097)
  }

  function Truncated(a: int, b: int): int
    requires b > 0
  {
    if a >= 0 then a / b else -((-a) / b)
  }

  /** Both ways of finding the era are floor division. */
  lemma EraIsFloor(days: int)
    ensures Truncated(if days >= 0 then days else days - 146096, 146097) == days / 146097
  {}

  lemma CopiesAgree(days: int)
    ensures AuditCivil(days) == Civil(days)
  {
    EraIsFloor(days + 719468);
  }

  // ---------- The calendar ----------

  predicate IsLeap(y: int) {
    y % 4 == 0 && (y % 100 != 0 || y % 400 == 0)
  }

  function DaysIn(y: int, m: int): int {
    if m == 2 then (if IsLeap(y) then 29 else 28)
    else if m == 4 || m == 6 || m == 9 || m == 11 then 30
    else 31
  }

  predicate IsDate(t: Date) {
    1 <= t.m <= 12 && 1 <= t.d <= DaysIn(t.y, t.m)
  }

  /** The day after. */
  function Tomorrow(t: Date): Date {
    if t.d < DaysIn(t.y, t.m) then t.(d := t.d + 1)
    else if t.m < 12 then Date(t.y, t.m + 1, 1)
    else Date(t.y + 1, 1, 1)
  }

  /** Days before March-based year `y` of its era. */
  function YearStart(y: int): int { 365 * y + y / 4 - y / 100 + y / 400 }

  /** A day of the era, by century, four-year cycle, year of the cycle and day of the year. */
  lemma YearOfEraFrom(c: int, q: int, r: int, k: int)
    requires 0 <= c <= 3 && 0 <= q <= 24 && 0 <= r <= 3 && 0 <= k
    requires k <= 364 || (k == 365 && r == 3 && (q < 24 || c == 3))
    ensures YearOfEra(36524 * c + 1461 * q + 365 * r + k) == 100 * c + 4 * q + r
  {
    var doe := 36524 * c + 1461 * q + 365 * r + k;
    var rem := 24 * c + q + 365 * r + k;
    var e := if rem >= 1460 then 1 else 0;
    assert doe == 1460 * (25 * c + q) + rem && rem < 2920;
    assert doe / 1460 == 25 * c + q + e;
    assert doe / 36524 - doe / 146096 == c;
    assert doe - doe / 1460 + doe / 36524 - doe / 146096 == 365 * (100 * c + 4 * q + r) + (k - e);
    assert 0 <= k - e < 365;
  }

  lemma YearStartFrom(c: int, q: int, r: int)
    requires 0 <= c <= 3 && 0 <= q <= 24 && 0 <= r <= 3
    ensures var y := 100 * c + 4 * q + r;
            && YearStart(y) == 36524 * c + 1461 * q + 365 * r
            && (IsLeap(y + 1) <==> r == 3 && (q < 24 || c == 3))
            && YearStart(y + 1) == YearStart(y) + if IsLeap(y + 1) then 366 else 365
  {
    var y := 100 * c + 4 * q + r;
    assert y / 4 == 25 * c + q && y / 100 == c && y / 400 == 0;
    if r < 3 {
      assert (y + 1) / 4 == 25 * c + q && (y + 1) % 4 == r + 1 && (y + 1) / 100 == c && (y + 1) / 400 == 0;
    } else if q < 24 {
      assert (y + 1) / 4 == 25 * c + q + 1 && (y + 1) / 100 == c && (y + 1) / 400 == 0;
      assert (y + 1) % 4 == 0 && (y + 1) % 100 == 4 * q + 4;
    } else {
      assert y + 1 == 100 * (c + 1);
      assert (y + 1) / 4 == 25 * (c + 1) && (y + 1) / 100 == c + 1 && (y + 1) % 4 == 0 && (y + 1) % 100 == 0;
    }
  }

  lemma EraParts(doe: int) returns (c: int, q: int, r: int, k: int)
    requires 0 <= doe < 146097
    ensures doe == 36524 * c + 1461 * q + 365 * r + k
    ensures 0 <= c <= 3 && 0 <= q <= 24 && 0 <= r <= 3 && 0 <= k
    ensures k <= 364 || (k == 365 && r == 3 && (q < 24 || c == 3))
  {
    c := if doe / 36524 > 3 then 3 else doe / 36524;
    var doc := doe - 36524 * c;
    assert 0 <= doc <= 36524 && (doc == 36524 ==> c == 3);
    q := doc / 1461;
    var rest := doc - 1461 * q;
    assert 0 <= rest <= 1460 && q <= 24 && (q == 24 && rest == 1460 ==> doc == 36524);
    r := if rest / 365 > 3 then 3 else rest / 365;
    k := rest - 365 * r;
  }

  /** The formula finds the March-based year that holds the day. */
  lemma YearOfEraExact(doe: int)
    requires 0 <= doe < 146097
    ensures var y := YearOfEra(doe);
            0 <= y < 400 && YearStart(y) <= doe < YearStart(y + 1)
            && YearStart(y + 1) == YearStart(y) + if IsLeap(y + 1) then 366 else 365
  {
    var c, q, r, k := EraParts(doe);
    YearOfEraFrom(c, q, r, k);
    YearStartFrom(c, q, r);
  }

  // ---------- Day after day ----------

  function MonthStart(mp: int): int { (153 * mp + 2) / 5 }

  /** Month `mp`, counted from March, of the year that starts in March of year `y`. */
  function MonthLength(y: int, mp: int): int {
    DaysIn(if mp < 10 then y else y + 1, if mp < 10 then mp + 3 else mp - 9)
  }

  lemma MonthIndexExact(doy: int)
    requires 0 <= doy <= 365
    ensures var mp := (5 * doy + 2) / 153;
            0 <= mp <= 11 && MonthStart(mp) <= doy && (doy < MonthStart(mp + 1) || mp == 11)
  {}

  lemma MonthLengths(y: int, mp: int)
    requires 0 <= mp <= 11
    ensures mp < 11 ==> MonthStart(mp + 1) - MonthStart(mp) == MonthLength(y, mp)
    ensures mp == 11 ==> MonthStart(mp) == 337 && MonthLength(y, mp) == if IsLeap(y + 1) then 29 else 28
  {}

  lemma MonthIndexFrom(mp: int, off: int)
    requires 0 <= mp <= 11 && 0 <= off && (off < MonthStart(mp + 1) - MonthStart(mp) || (mp == 11 && off <= 28))
    ensures (5 * (MonthStart(mp) + off) + 2) / 153 == mp
  {}

  lemma YearStartMonotone(a: int, b: int)
    requires 0 <= a < b <= 400
    ensures YearStart(a + 1) <= YearStart(b)
    decreases b - a
  {
    if a + 1 < b {
      YearStartMonotone(a + 1, b);
      YearLength(a + 1);
    }
  }

  lemma YearLength(y: int)
    requires 0 <= y < 400
    ensures YearStart(y + 1) == YearStart(y) + if IsLeap(y + 1) then 366 else 365
  {
    var c, q, r := y / 100, y % 100 / 4, y % 4;
    assert y == 100 * c + 4 * q + r;
    YearStartFrom(c, q, r);
  }

  /** The date of day `doy` of March-based year `yoe` of an era. */
  function PartsDate(era: int, yoe: int, doy: int): Date {
    var mp := (5 * doy + 2) / 153;
    var y := yoe + era * 400;
    if mp < 10 then Date(y, mp + 3, doy - MonthStart(mp) + 1) else Date(y + 1, mp - 9, doy - MonthStart(mp) + 1)
  }

  predicate InYear(yoe: int, doy: int) {
    0 <= yoe < 400 && 0 <= doy < if IsLeap(yoe + 1) then 366 else 365
  }

  lemma DayOfEraInRange(yoe: int, doy: int)
    requires InYear(yoe, doy)
    ensures 0 <= YearStart(yoe) + doy < 146097
  {
    YearLength(yoe);
    if yoe < 399 { YearStartMonotone(yoe + 1, 400); YearLength(yoe + 1); }
    if yoe > 0 { YearStartMonotone(0, yoe); }
    assert YearStart(400) == 146097 && YearStart(0) == 0 && YearStart(1) == 365;
  }

  /** Only one year holds a day of the era. */
  lemma YearOfEraUnique(yoe: int, doy: int)
    requires InYear(yoe, doy)
    ensures YearOfEra(YearStart(yoe) + doy) == yoe
  {
    var doe := YearStart(yoe) + doy;
    DayOfEraInRange(yoe, doy);
    YearLength(yoe);
    YearOfEraExact(doe);
    var y := YearOfEra(doe);
    if y < yoe { YearStartMonotone(y, yoe); }
    if yoe < y { YearStartMonotone(yoe, y); }
  }

  lemma EraDateOfParts(era: int, yoe: int, doy: int)
    requires InYear(yoe, doy)
    ensures EraDate(era, YearStart(yoe) + doy) == PartsDate(era, yoe, doy)
  {
    YearOfEraUnique(yoe, doy);
    assert YearStart(yoe) == 365 * yoe + yoe / 4 - yoe / 100;
    assert YearStart(yoe) + doy - (365 * yoe + yoe / 4 - yoe / 100) == doy;
    MonthIndexExact(doy);
  }

  lemma EraOf(era: int, doe: int)
    requires 0 <= doe < 146097
    ensures (era * 146097 + doe) / 146097 == era
  {}

  function DayNumber(era: int, yoe: int, doy: int): int {
    era * 146097 + YearStart(yoe) + doy - 719468
  }

  lemma CivilInEra(days: int, era: int, doe: int)
    requires 0 <= doe < 146097 && days + 719468 == era * 146097 + doe
    ensures Civil(days) == EraDate(era, doe)
  {
    EraOf(era, doe);
  }

  lemma CivilOfParts(days: int, era: int, yoe: int, doy: int)
    requires InYear(yoe, doy) && days == DayNumber(era, yoe, doy)
    ensures Civil(days) == PartsDate(era, yoe, doy)
  {
    DayOfEraInRange(yoe, doy);
    CivilInEra(days, era, YearStart(yoe) + doy);
    EraDateOfParts(era, yoe, doy);
  }

  lemma PartsOf(days: int) returns (era: int, yoe: int, doy: int)
    ensures InYear(yoe, doy) && days == DayNumber(era, yoe, doy)
    ensures Civil(days) == PartsDate(era, yoe, doy)
  {
    var z := days + 719468;
    era := z / 146097;
    var doe := z - era * 146097;
    YearOfEraExact(doe);
    yoe := YearOfEra(doe);
    doy := doe - YearStart(yoe);
    CivilOfParts(days, era, yoe, doy);
  }

  lemma ModOfSum(m: int, q: int, r: int)
    requires 0 <= r < m
    ensures (m * q + r) % m == r
  {
    var z := m * q + r;
    var d := z / m - q;
    assert z == m * (z / m) + z % m;
    assert m * d == r - z % m by {
      assert m * d == m * (z / m) - m * q;
    }
    assert -m < m * d < m;
    assert d == 0;
  }

  lemma LeapIgnoresEra(y: int, era: int)
    ensures IsLeap(y + era * 400) == IsLeap(y)
  {
    ModOfSum(4, y / 4 + 100 * era, y % 4);
    ModOfSum(100, y / 100 + 4 * era, y % 100);
    ModOfSum(400, y / 400 + era, y % 400);
    var z := y + era * 400;
    assert z == 4 * (y / 4 + 100 * era) + y % 4;
    assert z == 100 * (y / 100 + 4 * era) + y % 100;
    assert z == 400 * (y / 400 + era) + y % 400;
  }

  /** Every day number is a date of the calendar. */
  lemma CivilIsDate(days: int)
    ensures IsDate(Civil(days))
  {
    var era, yoe, doy := PartsOf(days);
    var mp := (5 * doy + 2) / 153;
    MonthIndexExact(doy);
    MonthLengths(yoe + era * 400, mp);
    LeapIgnoresEra(yoe + 1, era);
    assert yoe + 1 + era * 400 == yoe + era * 400 + 1;
  }

  lemma FirstDay()
    ensures Civil(0) == Date(1970, 1, 1)
  {}

  /** The next day of the same year. */
  lemma NextInYear(era: int, yoe: int, doy: int)
    requires InYear(yoe, doy) && InYear(yoe, doy + 1)
    ensures PartsDate(era, yoe, doy + 1) == Tomorrow(PartsDate(era, yoe, doy))
  {
    var y, mp := yoe + era * 400, (5 * doy + 2) / 153;
    MonthIndexExact(doy);
    MonthLengths(y, mp);
    LeapIgnoresEra(yoe + 1, era);
    assert yoe + 1 + era * 400 == y + 1;
    var off := doy - MonthStart(mp);
    if off + 1 < MonthLength(y, mp) {
      MonthIndexFrom(mp, off + 1);
    } else {
      MonthIndexFrom(mp + 1, 0);
    }
  }

  /** The last day of February is followed by the first of March. */
  lemma NextAfterYear(era: int, yoe: int, doy: int, era': int, yoe': int)
    requires InYear(yoe, doy) && !InYear(yoe, doy + 1) && yoe' + era' * 400 == yoe + era * 400 + 1
    ensures PartsDate(era', yoe', 0) == Tomorrow(PartsDate(era, yoe, doy))
  {
    var y, mp := yoe + era * 400, (5 * doy + 2) / 153;
    MonthIndexExact(doy);
    MonthLengths(y, mp);
    LeapIgnoresEra(yoe + 1, era);
    assert yoe + 1 + era * 400 == y + 1;
  }

  lemma DayNumberSteps(era: int, yoe: int, doy: int)
    requires InYear(yoe, doy)
    ensures InYear(yoe, doy + 1) ==> DayNumber(era, yoe, doy + 1) == DayNumber(era, yoe, doy) + 1
    ensures !InYear(yoe, doy + 1) && yoe < 399 ==> DayNumber(era, yoe + 1, 0) == DayNumber(era, yoe, doy) + 1
    ensures !InYear(yoe, doy + 1) && yoe == 399 ==> DayNumber(era + 1, 0, 0) == DayNumber(era, yoe, doy) + 1
  {
    YearLength(yoe);
    assert YearStart(400) == 146097 && YearStart(0) == 0;
  }

  /** The next day of the year, or the first day of the next year of this era or the next. */
  lemma NextParts(era: int, yoe: int, doy: int) returns (era': int, yoe': int, doy': int)
    requires InYear(yoe, doy)
    ensures InYear(yoe', doy') && DayNumber(era', yoe', doy') == DayNumber(era, yoe, doy) + 1
    ensures PartsDate(era', yoe', doy') == Tomorrow(PartsDate(era, yoe, doy))
  {
    DayNumberSteps(era, yoe, doy);
    if InYear(yoe, doy + 1) {
      era', yoe', doy' := era, yoe, doy + 1;
      NextInYear(era, yoe, doy);
    } else {
      era', yoe', doy' := if yoe < 399 then era else era + 1, if yoe < 399 then yoe + 1 else 0, 0;
      NextAfterYear(era, yoe, doy, era', yoe');
    }
  }

  /** The day after a day number is the next date of the calendar. */
  lemma CivilSuccessor(days: int)
    ensures Civil(days + 1) == Tomorrow(Civil(days))
  {
    var era, yoe, doy := PartsOf(days);
    var era', yoe', doy' := NextParts(era, yoe, doy);
    CivilOfParts(days + 1, era', yoe', doy');
  }

  // ---------- Stamps ----------

  const DAY_SECS := 86400

  datatype Clock = Clock(h: int, m: int, s: int)

  /** Clock fields as `format_iso` takes them, from the second of the day. */
  function ClockOf(secs: nat): Clock {
    var sod := secs % DAY_SECS;
    Clock(sod / 3600, sod % 3600 / 60, sod % 60)
  }

  /** Clock fields as `ts_now` takes them, from the whole count. */
  function AuditClock(secs: nat): Clock {
    Clock(secs % DAY_SECS / 3600, secs % 3600 / 60, secs % 60)
  }

  function Digit(n: int): char
    requires 0 <= n <= 9
  {
    ('0' as int + n) as char
  }

  /** Decimal digits, zero-padded on the left to at least `w`. */
  function Pad(n: nat, w: nat): string
    decreases n, w
  {
    if n == 0 && w == 0 then ""
    else if n == 0 then Pad(0, w - 1) + ['0']
    else Pad(n / 10, if w == 0 then 0 else w - 1) + [Digit(n % 10)]
  }

  function PrintClock(c: Clock): string
    requires c.h >= 0 && c.m >= 0 && c.s >= 0
  {
    Pad(c.h, 2) + (":" + (Pad(c.m, 2) + (":" + (Pad(c.s, 2) + "Z"))))
  }

  function PrintDate(t: Date): string
    requires t.y >= 0 && t.m >= 0 && t.d >= 0
  {
    Pad(t.y, 4) + ("-" + (Pad(t.m, 2) + ("-" + Pad(t.d, 2))))
  }

  /** The clock fields are in range and rebuild the count. */
  lemma ClockRebuilds(secs: nat)
    ensures var c := ClockOf(secs);
            && 0 <= c.h < 24 && 0 <= c.m < 60 && 0 <= c.s < 60
            && secs == secs / DAY_SECS * DAY_SECS + c.h * 3600 + c.m * 60 + c.s
  {
    var sod := secs % DAY_SECS;
    assert sod % 3600 % 60 == sod % 60;
  }

  lemma ClocksAgree(secs: nat)
    ensures AuditClock(secs) == ClockOf(secs)
  {
    var days, sod := secs / DAY_SECS, secs % DAY_SECS;
    assert secs == 3600 * (24 * days + sod / 3600) + sod % 3600;
    ModOfSum(3600, 24 * days + sod / 3600, sod % 3600);
    assert secs == 60 * (1440 * days + sod / 60) + sod % 60;
    ModOfSum(60, 1440 * days + sod / 60, sod % 60);
  }

  // ---------- Time order ----------

  predicate Before(a: Date, b: Date) {
    a.y < b.y || (a.y == b.y && (a.m < b.m || (a.m == b.m && a.d < b.d)))
  }

  lemma TomorrowIsLater(t: Date)
    requires IsDate(t)
    ensures Before(t, Tomorrow(t))
  {}

  lemma NextDayIsLater(days: int)
    ensures Before(Civil(days), Civil(days + 1))
  {
    CivilIsDate(days);
    CivilSuccessor(days);
    TomorrowIsLater(Civil(days));
  }

  lemma BeforeTransitive(a: Date, b: Date, c: Date)
    requires Before(a, b) && Before(b, c)
    ensures Before(a, c)
  {}

  /** Where every next day is later, so is every later day. */
  lemma {:induction false} LaterAndLater(date: int -> Date, a: int, b: int)
    requires a < b && forall n :: a <= n < b ==> Before(date(n), date(n + 1))
    ensures Before(date(a), date(b))
    decreases b - a
  {
    if a < b - 1 {
      LaterAndLater(date, a, b - 1);
      BeforeTransitive(date(a), date(b - 1), date(b));
    }
  }

  /** Later day numbers are later dates. */
  lemma CivilMonotone(a: int, b: int)
    requires a < b
    ensures Before(Civil(a), Civil(b))
  {
    forall n ensures Before(Civil(n), Civil(n + 1)) {
      NextDayIsLater(n);
    }
    LaterAndLater(Civil, a, b);
  }

  lemma LastDay()
    ensures Civil(2932896) == Date(9999, 12, 31)
  {}

  lemma YearsBetween(first: int, days: int, last: int)
    requires first <= days <= last
    ensures Civil(first).y <= Civil(days).y <= Civil(last).y
  {
    if first < days { CivilMonotone(first, days); }
    if days < last { CivilMonotone(days, last); }
  }

  lemma YearsInRange(days: int)
    requires 0 <= days < 2932897
    ensures 1970 <= Civil(days).y <= 9999
  {
    FirstDay();
    LastDay();
    YearsBetween(0, days, 2932896);
  }

  function Pow10(w: nat): nat { if w == 0 then 1 else 10 * Pow10(w - 1) }

  lemma PadStep(n: nat, w: nat)
    requires w > 0
    ensures Pad(n, w) == Pad(n / 10, w - 1) + [Digit(n % 10)]
  {}

  /** The number a text of digits spells. */
  function Value(s: string): int {
    if s == "" then 0 else 10 * Value(s[..|s| - 1]) + (s[|s| - 1] as int - '0' as int)
  }

  /** Padding to a width that fits keeps the width and the value. */
  lemma {:induction false} PadExact(n: nat, w: nat)
    requires n < Pow10(w)
    ensures |Pad(n, w)| == w && Value(Pad(n, w)) == n && forall i :: 0 <= i < w ==> '0' <= Pad(n, w)[i] <= '9'
    decreases w
  {
    if w > 0 {
      PadExact(n / 10, w - 1);
      PadStep(n, w);
      assert (Pad(n / 10, w - 1) + [Digit(n % 10)])[..w - 1] == Pad(n / 10, w - 1);
    }
  }

  lemma DigitOrder(a: nat, b: nat)
    requires a < b <= 9
    ensures Less([Digit(a)], [Digit(b)])
  {}

  lemma LastDigitOrder(x: string, y: string, a: nat, b: nat)
    requires a <= 9 && b <= 9 && |x| == |y| && (Less(x, y) || (x == y && a < b))
    ensures Less(x + [Digit(a)], y + [Digit(b)])
  {
    if Less(x, y) {
      LessPrefix(x, y, [Digit(a)], [Digit(b)]);
    } else {
      DigitOrder(a, b);
      LessSuffix(x, [Digit(a)], [Digit(b)]);
    }
  }

  /** Numbers of one width sort as their padded text. */
  lemma {:induction false} PadOrder(a: nat, b: nat, w: nat)
    requires a < b < Pow10(w)
    ensures Less(Pad(a, w), Pad(b, w))
    decreases w
  {
    var x, y := Pad(a / 10, w - 1), Pad(b / 10, w - 1);
    assert |x| == |y| by {
      PadExact(a / 10, w - 1);
      PadExact(b / 10, w - 1);
    }
    if a / 10 < b / 10 {
      PadOrder(a / 10, b / 10, w - 1);
    }
    LastDigitOrder(x, y, a % 10, b % 10);
    assert Pad(a, w) == x + [Digit(a % 10)] && Pad(b, w) == y + [Digit(b % 10)] by {
      PadStep(a, w);
      PadStep(b, w);
    }
  }

  lemma ClocksOrder(a: nat, b: nat)
    requires a < b && a / DAY_SECS == b / DAY_SECS
    ensures var c, d := ClockOf(a), ClockOf(b);
            c.h < d.h || (c.h == d.h && (c.m < d.m || (c.m == d.m && c.s < d.s)))
  {
    ClockRebuilds(a);
    ClockRebuilds(b);
  }

  /** A field decides, or its equal text leaves it to what follows. */
  lemma FieldOrder(a: nat, b: nat, w: nat, x: string, y: string)
    requires a < Pow10(w) && b < Pow10(w) && (a < b || (a == b && Less(x, y)))
    ensures Less(Pad(a, w) + x, Pad(b, w) + y)
  {
    if a < b {
      PadExact(a, w);
      PadExact(b, w);
      PadOrder(a, b, w);
      LessPrefix(Pad(a, w), Pad(b, w), x, y);
    } else {
      LessSuffix(Pad(a, w), x, y);
    }
  }

  predicate ClockInRange(c: Clock) { 0 <= c.h < 24 && 0 <= c.m < 60 && 0 <= c.s < 60 }

  lemma PowersOfTen()
    ensures Pow10(2) == 100 && Pow10(4) == 10000
  {
    assert Pow10(1) == 10;
    assert Pow10(3) == 1000;
  }

  lemma PrintClockOrder(c: Clock, d: Clock)
    requires ClockInRange(c) && ClockInRange(d)
    requires c.h < d.h || (c.h == d.h && (c.m < d.m || (c.m == d.m && c.s < d.s)))
    ensures Less(PrintClock(c), PrintClock(d))
  {
    PowersOfTen();
    var s1, s2 := Pad(c.s, 2) + "Z", Pad(d.s, 2) + "Z";
    var m1, m2 := Pad(c.m, 2) + (":" + s1), Pad(d.m, 2) + (":" + s2);
    if c.h == d.h {
      if c.m == d.m {
        FieldOrder(c.s, d.s, 2, "Z", "Z");
        LessSuffix(":", s1, s2);
      }
      FieldOrder(c.m, d.m, 2, ":" + s1, ":" + s2);
      LessSuffix(":", m1, m2);
    }
    FieldOrder(c.h, d.h, 2, ":" + m1, ":" + m2);
  }

  predicate YearPrintable(t: Date) { IsDate(t) && 0 <= t.y <= 9999 }

  lemma PrintDateOrder(a: Date, b: Date)
    requires YearPrintable(a) && YearPrintable(b) && Before(a, b)
    ensures Less(PrintDate(a), PrintDate(b))
  {
    PowersOfTen();
    var m1, m2 := Pad(a.m, 2) + ("-" + Pad(a.d, 2)), Pad(b.m, 2) + ("-" + Pad(b.d, 2));
    if a.y == b.y {
      if a.m == b.m {
        PadOrder(a.d, b.d, 2);
        LessSuffix("-", Pad(a.d, 2), Pad(b.d, 2));
      }
      FieldOrder(a.m, b.m, 2, "-" + Pad(a.d, 2), "-" + Pad(b.d, 2));
      LessSuffix("-", m1, m2);
    }
    FieldOrder(a.y, b.y, 4, "-" + m1, "-" + m2);
  }

  /** `field` is `w` digits that spell `n`. */
  ghost predicate Spells(field: string, w: nat, n: int) {
    |field| == w && Value(field) == n && forall i :: 0 <= i < w ==> '0' <= field[i] <= '9'
  }

  lemma Dashes(y: string, m: string, d: string)
    requires |y| == 4 && |m| == |d| == 2
    ensures var s := y + ("-" + (m + ("-" + d)));
            |s| == 10 && s[4] == '-' && s[7] == '-' && s[..4] == y && s[5..7] == m && s[8..10] == d
  {}

  lemma Colons(h: string, m: string, s: string)
    requires |h| == |m| == |s| == 2
    ensures var t := h + (":" + (m + (":" + (s + "Z"))));
            |t| == 9 && t[2] == ':' && t[5] == ':' && t[8] == 'Z' && t[..2] == h && t[3..5] == m && t[6..8] == s
  {}

  lemma PrintDateShape(t: Date)
    requires YearPrintable(t)
    ensures var s := PrintDate(t);
            && |s| == 10 && s[4] == '-' && s[7] == '-'
            && Spells(s[..4], 4, t.y) && Spells(s[5..7], 2, t.m) && Spells(s[8..10], 2, t.d)
  {
    PowersOfTen();
    PadExact(t.y, 4);
    PadExact(t.m, 2);
    PadExact(t.d, 2);
    Dashes(Pad(t.y, 4), Pad(t.m, 2), Pad(t.d, 2));
  }

  lemma PrintClockShape(c: Clock)
    requires ClockInRange(c)
    ensures var s := PrintClock(c);
            && |s| == 9 && s[2] == ':' && s[5] == ':' && s[8] == 'Z'
            && Spells(s[..2], 2, c.h) && Spells(s[3..5], 2, c.m) && Spells(s[6..8], 2, c.s)
  {
    PowersOfTen();
    PadExact(c.h, 2);
    PadExact(c.m, 2);
    PadExact(c.s, 2);
    Colons(Pad(c.h, 2), Pad(c.m, 2), Pad(c.s, 2));
  }

  /** Seconds since the epoch of 10000-01-01. */
  const YEAR_10000: nat := 253402300800

  /** The text of a second count. */
  function Stamp(secs: nat): string
    requires YearPrintable(Civil(secs / DAY_SECS)) && ClockInRange(ClockOf(secs))
  {
    PrintDate(Civil(secs / DAY_SECS)) + ("T" + PrintClock(ClockOf(secs)))
  }

  lemma Printable(secs: nat)
    requires secs < YEAR_10000
    ensures YearPrintable(Civil(secs / DAY_SECS)) && ClockInRange(ClockOf(secs))
  {
    YearsInRange(secs / DAY_SECS);
    CivilIsDate(secs / DAY_SECS);
    ClockRebuilds(secs);
  }

  /** Both copies take the same date and the same clock from a count, so they print the same text. */
  lemma CopiesStampAlike(secs: nat)
    ensures AuditCivil(secs / DAY_SECS) == Civil(secs / DAY_SECS) && AuditClock(secs) == ClockOf(secs)
  {
    CopiesAgree(secs / DAY_SECS);
    ClocksAgree(secs);
  }

  /** Two texts joined by one character, piece by piece. */
  lemma Joined(a: string, b: string)
    requires |a| == 10 && |b| == 9
    ensures var s := a + ("T" + b);
            && |s| == 20 && s[4] == a[4] && s[7] == a[7] && s[10] == 'T'
            && s[13] == b[2] && s[16] == b[5] && s[19] == b[8]
            && s[..4] == a[..4] && s[5..7] == a[5..7] && s[8..10] == a[8..10]
            && s[11..13] == b[..2] && s[14..16] == b[3..5] && s[17..19] == b[6..8]
  {}

  /** Up to year 9999 every stamp is the `YYYY-MM-DDThh:mm:ssZ` of RFC 3339 section 5.6, each field in digits that
      spell the date and the clock of its count. */
  lemma StampShape(secs: nat)
    requires secs < YEAR_10000
    ensures YearPrintable(Civil(secs / DAY_SECS)) && ClockInRange(ClockOf(secs))
    ensures var s, t, c := Stamp(secs), Civil(secs / DAY_SECS), ClockOf(secs);
            && |s| == 20 && s[4] == '-' && s[7] == '-' && s[10] == 'T' && s[13] == ':' && s[16] == ':' && s[19] == 'Z'
            && Spells(s[..4], 4, t.y) && Spells(s[5..7], 2, t.m) && Spells(s[8..10], 2, t.d)
            && Spells(s[11..13], 2, c.h) && Spells(s[14..16], 2, c.m) && Spells(s[17..19], 2, c.s)
  {
    Printable(secs);
    PrintDateShape(Civil(secs / DAY_SECS));
    PrintClockShape(ClockOf(secs));
    Joined(PrintDate(Civil(secs / DAY_SECS)), PrintClock(ClockOf(secs)));
  }

  /** Up to year 9999 stamps sort as text in time order. */
  lemma StampOrder(a: nat, b: nat)
    requires a < b < YEAR_10000
    ensures YearPrintable(Civil(a / DAY_SECS)) && ClockInRange(ClockOf(a))
    ensures YearPrintable(Civil(b / DAY_SECS)) && ClockInRange(ClockOf(b))
    ensures Less(Stamp(a), Stamp(b))
  {
    Printable(a);
    Printable(b);
    var s, t := Civil(a / DAY_SECS), Civil(b / DAY_SECS);
    var x, y := PrintClock(ClockOf(a)), PrintClock(ClockOf(b));
    if a / DAY_SECS == b / DAY_SECS {
      ClocksOrder(a, b);
      PrintClockOrder(ClockOf(a), ClockOf(b));
      LessSuffix("T", x, y);
      LessSuffix(PrintDate(s), "T" + x, "T" + y);
    } else {
      CivilMonotone(a / DAY_SECS, b / DAY_SECS);
      PrintDateOrder(s, t);
      PrintDateShape(s);
      PrintDateShape(t);
      LessPrefix(PrintDate(s), PrintDate(t), "T" + x, "T" + y);
    }
  }
}
